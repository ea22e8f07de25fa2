/** Snapshots of the grid: the cell array as a sequence of columns of piece
    identities, the arena of every piece ever spawned, and the random-draw counter. */
module Board {
  import opened Pieces

  /** A piece's identity: its index in the arena of spawned pieces. */
  type PieceId = nat

  /** Grid dimensions, the prefab registered for each piece type, and the number
      of colours a Normal piece's ColorPiece offers (its NumColors). */
  datatype Config = Config(xDim: nat, yDim: nat, prefab: PieceType -> Prefab, numColors: nat)

  /** The prefab facts the grid relies on: an Empty placeholder has no component,
      a Normal piece can be moved and coloured (the refill moves and colours it),
      and a refill's colour draw stays within the seven values of ColorType (a draw
      of 6, possible with seven colour sprites, gives Any). */
  predicate WellFormed(cfg: Config)
  {
    && !cfg.prefab(Empty).movable && !cfg.prefab(Empty).colored && !cfg.prefab(Empty).clearable
    && cfg.prefab(Normal).movable && cfg.prefab(Normal).colored
    && cfg.numColors <= 7
  }

  /** `cells[x][y]` is the identity of the piece in cell (x, y). */
  datatype Snap = Snap(cells: seq<seq<PieceId>>, pieces: seq<Piece>, draws: nat)

  predicate InBounds(cfg: Config, x: int, y: int)
  {
    0 <= x < cfg.xDim && 0 <= y < cfg.yDim
  }

  /** The snapshot is a dense xDim by yDim grid whose every cell names a spawned piece. */
  predicate Shaped(cfg: Config, s: Snap)
  {
    && |s.cells| == cfg.xDim
    && (forall x | 0 <= x < |s.cells| :: |s.cells[x]| == cfg.yDim)
    && (forall x, y | 0 <= x < |s.cells| && 0 <= y < |s.cells[x]| :: s.cells[x][y] < |s.pieces|)
  }

  /** The piece occupying cell (x, y). */
  function At(cfg: Config, s: Snap, x: int, y: int): Piece
    requires Shaped(cfg, s) && InBounds(cfg, x, y)
  {
    s.pieces[s.cells[x][y]]
  }

  /** The cells with (x, y) naming piece `id`. */
  function Write(c: seq<seq<PieceId>>, x: int, y: int, id: PieceId): (r: seq<seq<PieceId>>)
    requires 0 <= x < |c| && 0 <= y < |c[x]|
    ensures |r| == |c| && (forall a | 0 <= a < |c| :: |r[a]| == |c[a]|) && r[x][y] == id
    ensures forall a, b | 0 <= a < |c| && 0 <= b < |c[a]| && (a != x || b != y) :: r[a][b] == c[a][b]
  {
    var col: seq<PieceId> := c[x][y := id];
    c[x := col]
  }

  /** Cell (x, y) now names piece `id`. */
  function Put(cfg: Config, s: Snap, x: int, y: int, id: PieceId): (r: Snap)
    requires Shaped(cfg, s) && InBounds(cfg, x, y) && id < |s.pieces|
    ensures Shaped(cfg, r) && r.pieces == s.pieces && r.draws == s.draws
    ensures r.cells[x][y] == id
    ensures forall a, b | InBounds(cfg, a, b) && (a != x || b != y) :: r.cells[a][b] == s.cells[a][b]
  {
    s.(cells := Write(s.cells, x, y, id))
  }

  /** SpawnNewPiece: a fresh piece of type `t`, initialised at (x, y), stored in cell (x, y). */
  function SpawnAt(cfg: Config, s: Snap, x: int, y: int, t: PieceType): (r: Snap)
    requires Shaped(cfg, s) && InBounds(cfg, x, y)
    ensures Shaped(cfg, r) && r.draws == s.draws
    ensures r.pieces == s.pieces + [Spawn(cfg.prefab(t), x, y, t)]
    ensures r.cells[x][y] == |s.pieces|
    ensures forall a, b | InBounds(cfg, a, b) && (a != x || b != y) :: r.cells[a][b] == s.cells[a][b]
  {
    var s1 := s.(pieces := s.pieces + [Spawn(cfg.prefab(t), x, y, t)]);
    Put(cfg, s1, x, y, |s.pieces|)
  }

  /** Random.Range(lo, hi) on integers, reading draw number `n` of the stream `rng`:
      a value in [lo, hi), or lo when the range is empty. The stream value is the offset
      from lo; a value outside the range stands for lo, so every value of the range is
      the draw of some stream. */
  function Draw(rng: nat -> int, n: nat, lo: int, hi: int): (r: int)
    ensures lo < hi ==> lo <= r < hi
    ensures hi <= lo ==> r == lo
  {
    if hi <= lo then lo else if 0 <= rng(n) < hi - lo then lo + rng(n) else lo
  }

  /** Every piece in the arena has in-bounds coordinates. */
  predicate CoordsInBounds(cfg: Config, pieces: seq<Piece>)
  {
    forall i | 0 <= i < |pieces| :: InBounds(cfg, pieces[i].x, pieces[i].y)
  }

  /** Piece `id` is in the cell it records (a piece that was cleared and replaced still
      records its last cell but is in none). */
  ghost predicate Sits(cfg: Config, s: Snap, id: PieceId)
    requires Shaped(cfg, s) && CoordsInBounds(cfg, s.pieces) && id < |s.pieces|
  {
    s.cells[s.pieces[id].x][s.pieces[id].y] == id
  }

  /** Every cell's piece records that cell as its coordinates. */
  ghost predicate Placed(cfg: Config, s: Snap)
    requires Shaped(cfg, s)
  {
    forall x, y | InBounds(cfg, x, y) :: At(cfg, s, x, y).x == x && At(cfg, s, x, y).y == y
  }

  /** A piece spawned into a cell records it, so spawning keeps every cell's piece placed. */
  lemma SpawnKeepsPlaced(cfg: Config, s: Snap, x: int, y: int, t: PieceType)
    requires Shaped(cfg, s) && InBounds(cfg, x, y) && Placed(cfg, s)
    ensures Placed(cfg, SpawnAt(cfg, s, x, y, t))
  {
    var r := SpawnAt(cfg, s, x, y, t);
    forall a, b | InBounds(cfg, a, b) ensures At(cfg, r, a, b).x == a && At(cfg, r, a, b).y == b {
      if a != x || b != y {
        assert r.cells[a][b] == s.cells[a][b] && r.pieces[s.cells[a][b]] == s.pieces[s.cells[a][b]];
      }
    }
  }

  // ----- Counting the cells that hold a piece still waiting to be cleared -----

  /** A piece that ClearPiece would still clear: clearable and not yet being cleared. */
  predicate PendingPiece(pieces: seq<Piece>, id: PieceId)
  {
    id < |pieces| && pieces[id].clearable && !pieces[id].beingCleared
  }

  function CountColumn(pieces: seq<Piece>, col: seq<PieceId>): (n: nat)
    ensures n <= |col|
  {
    if col == [] then 0
    else CountColumn(pieces, col[..|col| - 1]) + (if PendingPiece(pieces, col[|col| - 1]) then 1 else 0)
  }

  /** The number of cells holding a pending piece: the measure that bounds the
      recursion between ClearPiece and the detonating clears. */
  function CountPending(pieces: seq<Piece>, cells: seq<seq<PieceId>>): nat
  {
    if cells == [] then 0
    else CountPending(pieces, cells[..|cells| - 1]) + CountColumn(pieces, cells[|cells| - 1])
  }

  /** Entry y of the new column holds a pending piece only if the old column held the
      very same, unchanged piece there. */
  ghost predicate KeptIfPending(ps1: seq<Piece>, col1: seq<PieceId>, ps2: seq<Piece>, col2: seq<PieceId>, y: int)
    requires 0 <= y < |col1| == |col2|
  {
    PendingPiece(ps2, col2[y]) ==> col1[y] == col2[y] && col1[y] < |ps1| && ps1[col1[y]] == ps2[col2[y]]
  }

  /** No clear creates or revives a pending piece. */
  ghost predicate NoNewPending(ps1: seq<Piece>, c1: seq<seq<PieceId>>, ps2: seq<Piece>, c2: seq<seq<PieceId>>)
  {
    && |c1| == |c2|
    && (forall x | 0 <= x < |c1| :: |c1[x]| == |c2[x]|)
    && (forall x, y | 0 <= x < |c1| && 0 <= y < |c1[x]| :: KeptIfPending(ps1, c1[x], ps2, c2[x], y))
  }

  lemma {:induction false} CountColumnMono(ps1: seq<Piece>, c1: seq<PieceId>, ps2: seq<Piece>, c2: seq<PieceId>)
    requires |c1| == |c2|
    requires forall y | 0 <= y < |c1| :: KeptIfPending(ps1, c1, ps2, c2, y)
    ensures CountColumn(ps2, c2) <= CountColumn(ps1, c1)
    ensures (exists y :: 0 <= y < |c1| && PendingPiece(ps1, c1[y]) && !PendingPiece(ps2, c2[y]))
            ==> CountColumn(ps2, c2) < CountColumn(ps1, c1)
  {
    if c1 != [] {
      var n := |c1| - 1;
      forall y | 0 <= y < n ensures KeptIfPending(ps1, c1[..n], ps2, c2[..n], y) {
        assert KeptIfPending(ps1, c1, ps2, c2, y);
      }
      CountColumnMono(ps1, c1[..n], ps2, c2[..n]);
      assert KeptIfPending(ps1, c1, ps2, c2, n);
      if exists y :: 0 <= y < |c1| && PendingPiece(ps1, c1[y]) && !PendingPiece(ps2, c2[y]) {
        var y :| 0 <= y < |c1| && PendingPiece(ps1, c1[y]) && !PendingPiece(ps2, c2[y]);
        if y < n {
          assert c1[..n][y] == c1[y] && c2[..n][y] == c2[y];
        }
      }
    }
  }

  /** The pending count never grows under NoNewPending, and drops when some cell stops being pending. */
  lemma {:induction false} CountPendingMono(ps1: seq<Piece>, c1: seq<seq<PieceId>>, ps2: seq<Piece>, c2: seq<seq<PieceId>>)
    requires NoNewPending(ps1, c1, ps2, c2)
    ensures CountPending(ps2, c2) <= CountPending(ps1, c1)
    ensures (exists x, y :: 0 <= x < |c1| && 0 <= y < |c1[x]| && PendingPiece(ps1, c1[x][y]) && !PendingPiece(ps2, c2[x][y]))
            ==> CountPending(ps2, c2) < CountPending(ps1, c1)
  {
    if c1 != [] {
      var n := |c1| - 1;
      assert NoNewPending(ps1, c1[..n], ps2, c2[..n]) by {
        forall x | 0 <= x < n ensures c1[..n][x] == c1[x] && c2[..n][x] == c2[x] { }
      }
      CountPendingMono(ps1, c1[..n], ps2, c2[..n]);
      CountColumnMono(ps1, c1[n], ps2, c2[n]);
      if exists x, y :: 0 <= x < |c1| && 0 <= y < |c1[x]| && PendingPiece(ps1, c1[x][y]) && !PendingPiece(ps2, c2[x][y]) {
        var x, y :| 0 <= x < |c1| && 0 <= y < |c1[x]| && PendingPiece(ps1, c1[x][y]) && !PendingPiece(ps2, c2[x][y]);
        if x < n {
          assert c1[..n][x] == c1[x] && c2[..n][x] == c2[x];
        }
      }
    }
  }

  /** Piece i is unchanged or has just been flagged as being cleared. */
  ghost predicate FlaggedOrKept(ps1: seq<Piece>, ps2: seq<Piece>, i: int)
    requires 0 <= i < |ps1| <= |ps2|
  {
    ps2[i] == ps1[i] || ps2[i] == MarkBeingCleared(ps1[i])
  }

  /** Cell (x, y), if it changed, holds a freshly spawned piece that is an Empty one. */
  ghost predicate FreshIfChanged(ps1: seq<Piece>, c1: seq<seq<PieceId>>, ps2: seq<Piece>, c2: seq<seq<PieceId>>, x: int, y: int)
    requires 0 <= x < |c1| == |c2| && 0 <= y < |c1[x]| == |c2[x]|
  {
    c2[x][y] != c1[x][y] ==> |ps1| <= c2[x][y] < |ps2| && ps2[c2[x][y]].kind == Empty && !ps2[c2[x][y]].clearable
  }

  /** What a clear may do to the grid: flag pieces as being cleared, append pieces to
      the arena, and put only freshly spawned Empty pieces into cells. */
  ghost predicate ClearStep(ps1: seq<Piece>, c1: seq<seq<PieceId>>, ps2: seq<Piece>, c2: seq<seq<PieceId>>)
  {
    && |ps1| <= |ps2|
    && (forall i | 0 <= i < |ps1| :: FlaggedOrKept(ps1, ps2, i))
    && NoNewPending(ps1, c1, ps2, c2)
    && (forall x, y | 0 <= x < |c1| && 0 <= y < |c1[x]| :: FreshIfChanged(ps1, c1, ps2, c2, x, y))
  }

  lemma ClearStepRefl(ps: seq<Piece>, c: seq<seq<PieceId>>)
    requires forall x, y | 0 <= x < |c| && 0 <= y < |c[x]| :: c[x][y] < |ps|
    ensures ClearStep(ps, c, ps, c)
  {
    forall x, y | 0 <= x < |c| && 0 <= y < |c[x]| ensures KeptIfPending(ps, c[x], ps, c[x], y) { }
  }

  lemma ClearStepTrans(ps1: seq<Piece>, c1: seq<seq<PieceId>>, ps2: seq<Piece>, c2: seq<seq<PieceId>>,
                       ps3: seq<Piece>, c3: seq<seq<PieceId>>)
    requires ClearStep(ps1, c1, ps2, c2) && ClearStep(ps2, c2, ps3, c3)
    ensures ClearStep(ps1, c1, ps3, c3)
  {
    forall i | 0 <= i < |ps1| ensures FlaggedOrKept(ps1, ps3, i) {
      assert FlaggedOrKept(ps1, ps2, i) && FlaggedOrKept(ps2, ps3, i);
    }
    forall x, y | 0 <= x < |c1| && 0 <= y < |c1[x]|
      ensures KeptIfPending(ps1, c1[x], ps3, c3[x], y) && FreshIfChanged(ps1, c1, ps3, c3, x, y)
    {
      assert KeptIfPending(ps1, c1[x], ps2, c2[x], y) && KeptIfPending(ps2, c2[x], ps3, c3[x], y);
      assert FreshIfChanged(ps1, c1, ps2, c2, x, y) && FreshIfChanged(ps2, c2, ps3, c3, x, y);
      if c3[x][y] == c2[x][y] && c2[x][y] != c1[x][y] {
        assert FlaggedOrKept(ps2, ps3, c2[x][y]);
      }
    }
  }

  /** The clear log: exactly the flagged pieces, each listed once. */
  predicate LogMatchesFlags(log: seq<PieceId>, ps: seq<Piece>)
  {
    && (forall i | 0 <= i < |log| :: log[i] < |ps| && ps[log[i]].beingCleared)
    && (forall id | 0 <= id < |ps| && ps[id].beingCleared :: id in log)
    && (forall i, j | 0 <= i < j < |log| :: log[i] != log[j])
  }

  /** A cell that holds no pending piece keeps holding none across a clear step. */
  lemma StaysSettled(ps1: seq<Piece>, c1: seq<seq<PieceId>>, ps2: seq<Piece>, c2: seq<seq<PieceId>>, a: int, b: int)
    requires ClearStep(ps1, c1, ps2, c2) && 0 <= a < |c1| && 0 <= b < |c1[a]| && !PendingPiece(ps1, c1[a][b])
    ensures !PendingPiece(ps2, c2[a][b])
  {
    assert KeptIfPending(ps1, c1[a], ps2, c2[a], b);
  }

  /** A cell a clear step changed holds a piece that is not pending. */
  lemma ChangedSettled(ps1: seq<Piece>, c1: seq<seq<PieceId>>, ps2: seq<Piece>, c2: seq<seq<PieceId>>, a: int, b: int)
    requires ClearStep(ps1, c1, ps2, c2) && 0 <= a < |c1| && 0 <= b < |c1[a]| && c2[a][b] != c1[a][b]
    ensures !PendingPiece(ps2, c2[a][b])
  {
    assert FreshIfChanged(ps1, c1, ps2, c2, a, b);
  }

  /** Extending a settled prefix of a row by the cell a clear step just dealt with. */
  lemma RowStep(ps1: seq<Piece>, c1: seq<seq<PieceId>>, ps2: seq<Piece>, c2: seq<seq<PieceId>>, row: int, x: int, cleared: bool)
    requires ClearStep(ps1, c1, ps2, c2) && 0 <= x < |c1| && forall a | 0 <= a < |c1| :: 0 <= row < |c1[a]|
    requires |c2| == |c1| && |c2[x]| == |c1[x]|
    requires forall a | 0 <= a < x :: !PendingPiece(ps1, c1[a][row])
    requires cleared ==> c2[x][row] != c1[x][row]
    requires !cleared ==> !PendingPiece(ps1, c1[x][row]) && ps2 == ps1 && c2 == c1
    ensures forall a | 0 <= a <= x :: !PendingPiece(ps2, c2[a][row])
  {
    forall a | 0 <= a <= x ensures !PendingPiece(ps2, c2[a][row]) {
      if a < x {
        StaysSettled(ps1, c1, ps2, c2, a, row);
      } else if cleared {
        ChangedSettled(ps1, c1, ps2, c2, a, row);
      }
    }
  }

  /** Extending a settled prefix of a column by the cell a clear step just dealt with. */
  lemma ColumnStep(ps1: seq<Piece>, c1: seq<seq<PieceId>>, ps2: seq<Piece>, c2: seq<seq<PieceId>>, column: int, y: int, cleared: bool)
    requires ClearStep(ps1, c1, ps2, c2) && 0 <= column < |c1| && 0 <= y < |c1[column]|
    requires |c2| == |c1| && |c2[column]| == |c1[column]|
    requires forall b | 0 <= b < y :: !PendingPiece(ps1, c1[column][b])
    requires cleared ==> c2[column][y] != c1[column][y]
    requires !cleared ==> !PendingPiece(ps1, c1[column][y]) && ps2 == ps1 && c2 == c1
    ensures forall b | 0 <= b <= y :: !PendingPiece(ps2, c2[column][b])
  {
    forall b | 0 <= b <= y ensures !PendingPiece(ps2, c2[column][b]) {
      if b < y {
        StaysSettled(ps1, c1, ps2, c2, column, b);
      } else if cleared {
        ChangedSettled(ps1, c1, ps2, c2, column, b);
      }
    }
  }
}
