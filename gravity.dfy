/** One gravity step of the grid (FillStep) as a function of a snapshot: rows from
    the second-to-last upwards, each piece falling one cell straight down into an
    Empty cell or sliding diagonally, then the top row refilled with Normal pieces. */
module Gravity {
  import opened Pieces
  import opened Board

  /** The grid after a step, and whether the step moved or spawned a piece. */
  datatype Stepped = Stepped(snap: Snap, moved: bool)

  /** Cells other than (x, y) and (tx, ty) keep their pieces. */
  ghost predicate SameElsewhere(cfg: Config, s: Snap, r: Snap, x: int, y: int, tx: int, ty: int)
    requires Shaped(cfg, s) && Shaped(cfg, r)
  {
    forall a, b | InBounds(cfg, a, b) && (a != x || b != y) && (a != tx || b != ty) :: r.cells[a][b] == s.cells[a][b]
  }

  /** The piece in (x, y) moves to (tx, ty) and an Empty piece is spawned in (x, y). */
  function Relocate(cfg: Config, s: Snap, x: int, y: int, tx: int, ty: int): (r: Snap)
    requires Shaped(cfg, s) && InBounds(cfg, x, y) && InBounds(cfg, tx, ty) && (x != tx || y != ty)
    ensures Shaped(cfg, r)
  {
    var id := s.cells[x][y];
    var s1 := s.(pieces := s.pieces[id := Move(s.pieces[id], tx, ty)]);
    var s2 := Put(cfg, s1, tx, ty, id);
    SpawnAt(cfg, s2, x, y, Empty)
  }

  /** The relocated piece is in (tx, ty) with its new coordinates, a fresh Empty piece is
      in (x, y), and every other cell and piece is unchanged. */
  lemma RelocateMoves(cfg: Config, s: Snap, x: int, y: int, tx: int, ty: int)
    requires Shaped(cfg, s) && InBounds(cfg, x, y) && InBounds(cfg, tx, ty) && (x != tx || y != ty)
    ensures var r := Relocate(cfg, s, x, y, tx, ty);
      && r.draws == s.draws && |r.pieces| == |s.pieces| + 1
      && r.cells[tx][ty] == s.cells[x][y] && r.cells[x][y] == |s.pieces|
      && SameElsewhere(cfg, s, r, x, y, tx, ty)
      && r.pieces[s.cells[x][y]] == Move(s.pieces[s.cells[x][y]], tx, ty)
      && r.pieces[|s.pieces|] == Spawn(cfg.prefab(Empty), x, y, Empty)
      && forall i | 0 <= i < |s.pieces| && i != s.cells[x][y] :: r.pieces[i] == s.pieces[i]
  {
  }

  /** The upward scan of column cx from row ay: true when it meets a movable piece, or
      only Empty cells up to the top; false when it meets an immovable non-Empty piece first. */
  function HasPieceAbove(cfg: Config, s: Snap, cx: int, ay: int): bool
    requires Shaped(cfg, s) && 0 <= cx < cfg.xDim && ay < cfg.yDim
    decreases if ay < 0 then 0 else ay + 1
  {
    if ay < 0 then true
    else
      var p := At(cfg, s, cx, ay);
      if p.movable then true
      else if p.kind != Empty then false
      else HasPieceAbove(cfg, s, cx, ay - 1)
  }

  /** The column is blocked from above at row k: the scan from ay meets the immovable,
      non-Empty piece in row k after passing only immovable Empty pieces. */
  ghost predicate BlockedAt(cfg: Config, s: Snap, cx: int, ay: int, k: int)
    requires Shaped(cfg, s) && 0 <= cx < cfg.xDim && ay < cfg.yDim
  {
    && 0 <= k <= ay
    && !At(cfg, s, cx, k).movable && At(cfg, s, cx, k).kind != Empty
    && forall j | k < j <= ay :: !At(cfg, s, cx, j).movable && At(cfg, s, cx, j).kind == Empty
  }

  /** A diagonal slide into column cx is allowed exactly when, scanning up from row ay,
      an immovable non-Empty piece comes before any movable one. */
  lemma {:induction false} HasPieceAboveSpec(cfg: Config, s: Snap, cx: int, ay: int)
    requires Shaped(cfg, s) && 0 <= cx < cfg.xDim && ay < cfg.yDim
    ensures !HasPieceAbove(cfg, s, cx, ay) <==> exists k :: BlockedAt(cfg, s, cx, ay, k)
    decreases if ay < 0 then 0 else ay + 1
  {
    if ay >= 0 {
      var p := At(cfg, s, cx, ay);
      if !p.movable && p.kind != Empty {
        assert BlockedAt(cfg, s, cx, ay, ay);
      } else if !p.movable {
        var below := ay - 1;
        HasPieceAboveSpec(cfg, s, cx, below);
        if exists k :: BlockedAt(cfg, s, cx, below, k) {
          var k :| BlockedAt(cfg, s, cx, below, k);
          assert BlockedAt(cfg, s, cx, ay, k);
        }
        if exists k :: BlockedAt(cfg, s, cx, ay, k) {
          var k :| BlockedAt(cfg, s, cx, ay, k);
          assert BlockedAt(cfg, s, cx, below, k);
        }
      } else {
        forall k ensures !BlockedAt(cfg, s, cx, ay, k) {
          assert At(cfg, s, cx, ay).movable;
        }
      }
    }
  }

  /** What a step that moved the piece of (x, y) into (tx, y + 1) did. */
  ghost predicate MovedDown(cfg: Config, s: Snap, r: Snap, x: int, y: int, tx: int)
    requires Shaped(cfg, s) && Shaped(cfg, r) && InBounds(cfg, x, y) && y + 1 < cfg.yDim
  {
    var id := s.cells[x][y];
    && x - 1 <= tx <= x + 1 && 0 <= tx < cfg.xDim
    && s.pieces[id].movable
    && At(cfg, s, tx, y + 1).kind == Empty
    && r.cells[tx][y + 1] == id
    && r.pieces[id] == Move(s.pieces[id], tx, y + 1)
    && r.cells[x][y] == |s.pieces| && |r.pieces| == |s.pieces| + 1
    && r.pieces[|s.pieces|] == Spawn(cfg.prefab(Empty), x, y, Empty)
    && (forall i | 0 <= i < |s.pieces| && i != id :: r.pieces[i] == s.pieces[i])
    && SameElsewhere(cfg, s, r, x, y, tx, y + 1)
    && r.draws == s.draws
    && (tx != x ==> At(cfg, s, x, y + 1).kind != Empty && !HasPieceAbove(cfg, s, tx, y))
  }

  /** The diagonal order of the source: offset -1 first, then +1, mirrored when `inverse`. */
  function DiagonalX(x: int, inverse: bool, k: nat): int
  {
    var diag := if k == 0 then -1 else 1;
    if inverse then x - diag else x + diag
  }

  /** The diagonal attempts from the k-th on. */
  function TryDiagonal(cfg: Config, s: Snap, x: int, y: int, inverse: bool, k: nat): (r: Stepped)
    requires Shaped(cfg, s) && InBounds(cfg, x, y) && y + 1 < cfg.yDim
    ensures Shaped(cfg, r.snap)
    decreases 2 - k
  {
    if k >= 2 then Stepped(s, false)
    else
      var dx := DiagonalX(x, inverse, k);
      if dx < 0 || dx >= cfg.xDim then TryDiagonal(cfg, s, x, y, inverse, k + 1)
      else if At(cfg, s, dx, y + 1).kind != Empty then TryDiagonal(cfg, s, x, y, inverse, k + 1)
      else if HasPieceAbove(cfg, s, dx, y) then TryDiagonal(cfg, s, x, y, inverse, k + 1)
      else Stepped(Relocate(cfg, s, x, y, dx, y + 1), true)
  }

  /** A diagonal attempt either leaves the grid as it was or slides the piece into a
      neighbouring column of the row below, as MovedDown describes. */
  lemma {:induction false} TryDiagonalMoves(cfg: Config, s: Snap, x: int, y: int, inverse: bool, k: nat)
    requires Shaped(cfg, s) && InBounds(cfg, x, y) && y + 1 < cfg.yDim
    requires At(cfg, s, x, y).movable && At(cfg, s, x, y + 1).kind != Empty
    ensures var r := TryDiagonal(cfg, s, x, y, inverse, k);
      && (!r.moved ==> r.snap == s)
      && (r.moved ==> exists tx :: tx != x && MovedDown(cfg, s, r.snap, x, y, tx))
    decreases 2 - k
  {
    if k < 2 {
      var dx := DiagonalX(x, inverse, k);
      if dx < 0 || dx >= cfg.xDim || At(cfg, s, dx, y + 1).kind != Empty || HasPieceAbove(cfg, s, dx, y) {
        TryDiagonalMoves(cfg, s, x, y, inverse, k + 1);
      } else {
        var r := Relocate(cfg, s, x, y, dx, y + 1);
        RelocateMoves(cfg, s, x, y, dx, y + 1);
        assert MovedDown(cfg, s, r, x, y, dx);
      }
    }
  }

  /** The body of FillStep's inner loop for the piece in (x, y). */
  function StepCell(cfg: Config, s: Snap, x: int, y: int, inverse: bool): (r: Stepped)
    requires Shaped(cfg, s) && InBounds(cfg, x, y) && y + 1 < cfg.yDim
    ensures Shaped(cfg, r.snap)
  {
    var p := At(cfg, s, x, y);
    if !p.movable then Stepped(s, false)
    else if At(cfg, s, x, y + 1).kind == Empty then Stepped(Relocate(cfg, s, x, y, x, y + 1), true)
    else TryDiagonal(cfg, s, x, y, inverse, 0)
  }

  /** A cell step leaves the grid as it was, or moves the piece one row down, as MovedDown describes. */
  lemma StepCellMoves(cfg: Config, s: Snap, x: int, y: int, inverse: bool)
    requires Shaped(cfg, s) && InBounds(cfg, x, y) && y + 1 < cfg.yDim
    ensures var r := StepCell(cfg, s, x, y, inverse);
      && (!r.moved ==> r.snap == s)
      && (r.moved ==> exists tx :: MovedDown(cfg, s, r.snap, x, y, tx))
  {
    var p := At(cfg, s, x, y);
    if p.movable {
      if At(cfg, s, x, y + 1).kind == Empty {
        var r := Relocate(cfg, s, x, y, x, y + 1);
        RelocateMoves(cfg, s, x, y, x, y + 1);
        assert MovedDown(cfg, s, r, x, y, x);
      } else {
        TryDiagonalMoves(cfg, s, x, y, inverse, 0);
      }
    }
  }

  /** The column visited at position `loopX` of a row. */
  function ColumnAt(cfg: Config, inverse: bool, loopX: int): int
  {
    if inverse then cfg.xDim - 1 - loopX else loopX
  }

  /** Immovable pieces that are not Empty keep their cells, and their records. */
  ghost predicate KeepsImmovable(cfg: Config, s: Snap, r: Snap)
    requires Shaped(cfg, s) && Shaped(cfg, r)
  {
    && (forall a, b | InBounds(cfg, a, b) && !At(cfg, s, a, b).movable && At(cfg, s, a, b).kind != Empty ::
          r.cells[a][b] == s.cells[a][b])
    && |s.pieces| <= |r.pieces|
    && (forall i | 0 <= i < |s.pieces| && !s.pieces[i].movable :: r.pieces[i] == s.pieces[i])
  }

  /** Clear flags are kept, the pieces added are not flagged, and coordinates stay in the grid. */
  ghost predicate KeepsFlags(cfg: Config, s: Snap, r: Snap)
  {
    && |s.pieces| <= |r.pieces|
    && (forall i | 0 <= i < |s.pieces| :: r.pieces[i].beingCleared == s.pieces[i].beingCleared)
    && (forall i | |s.pieces| <= i < |r.pieces| :: !r.pieces[i].beingCleared)
    && (CoordsInBounds(cfg, s.pieces) ==> CoordsInBounds(cfg, r.pieces))
  }

  /** A log that matched the flags before a flag-keeping change still matches them. */
  lemma FlagsKeepLog(cfg: Config, s: Snap, r: Snap, log: seq<PieceId>)
    requires KeepsFlags(cfg, s, r) && LogMatchesFlags(log, s.pieces)
    ensures LogMatchesFlags(log, r.pieces)
  {
  }

  /** What every stage of a step promises: the arena grows by one piece per move or spawn,
      nothing changes when nothing moved, immovable non-Empty pieces stay put, and no
      clear flag changes. */
  ghost predicate StepInvariant(cfg: Config, s: Snap, r: Stepped)
    requires Shaped(cfg, s)
  {
    && Shaped(cfg, r.snap)
    && (r.moved <==> |r.snap.pieces| > |s.pieces|)
    && (!r.moved ==> r.snap == s)
    && KeepsImmovable(cfg, s, r.snap)
    && KeepsFlags(cfg, s, r.snap)
  }

  lemma KeepsImmovableTrans(cfg: Config, s1: Snap, s2: Snap, s3: Snap)
    requires Shaped(cfg, s1) && Shaped(cfg, s2) && Shaped(cfg, s3)
    requires KeepsImmovable(cfg, s1, s2) && KeepsImmovable(cfg, s2, s3)
    ensures KeepsImmovable(cfg, s1, s3)
  {
    forall a, b | InBounds(cfg, a, b) && !At(cfg, s1, a, b).movable && At(cfg, s1, a, b).kind != Empty
      ensures s3.cells[a][b] == s1.cells[a][b]
    {
      assert At(cfg, s2, a, b) == At(cfg, s1, a, b);
    }
  }

  /** A move of one piece keeps the step invariant and spawns only an immovable Empty. */
  lemma MovedDownInvariant(cfg: Config, s: Snap, r: Snap, x: int, y: int, tx: int)
    requires WellFormed(cfg) && Shaped(cfg, s) && Shaped(cfg, r) && InBounds(cfg, x, y) && y + 1 < cfg.yDim
    requires EmptiesImmovable(s) && MovedDown(cfg, s, r, x, y, tx)
    ensures StepInvariant(cfg, s, Stepped(r, true)) && EmptiesImmovable(r)
  {
    MovedDownEmpties(cfg, s, r, x, y, tx);
    MovedDownKeepsImmovable(cfg, s, r, x, y, tx);
  }

  /** A move spawns only an Empty placeholder, so Empty pieces stay immovable. */
  lemma MovedDownEmpties(cfg: Config, s: Snap, r: Snap, x: int, y: int, tx: int)
    requires WellFormed(cfg) && Shaped(cfg, s) && Shaped(cfg, r) && InBounds(cfg, x, y) && y + 1 < cfg.yDim
    requires EmptiesImmovable(s) && MovedDown(cfg, s, r, x, y, tx)
    ensures EmptiesImmovable(r)
  {
    var id := s.cells[x][y];
    forall i | 0 <= i < |r.pieces| && r.pieces[i].kind == Empty ensures !r.pieces[i].movable {
      if i < |s.pieces| && i != id { assert r.pieces[i] == s.pieces[i]; }
    }
  }

  /** A move writes only its source and target cells, neither of which holds an
      immovable non-Empty piece. */
  lemma MovedDownKeepsImmovable(cfg: Config, s: Snap, r: Snap, x: int, y: int, tx: int)
    requires Shaped(cfg, s) && Shaped(cfg, r) && InBounds(cfg, x, y) && y + 1 < cfg.yDim
    requires MovedDown(cfg, s, r, x, y, tx)
    ensures KeepsImmovable(cfg, s, r)
  {
    forall a, b | InBounds(cfg, a, b) && !At(cfg, s, a, b).movable && At(cfg, s, a, b).kind != Empty
      ensures r.cells[a][b] == s.cells[a][b]
    {
      assert a != x || b != y;
      assert a != tx || b != y + 1;
    }
  }

  /** A single cell step keeps the step invariant. */
  lemma StepCellInvariant(cfg: Config, s: Snap, x: int, y: int, inverse: bool)
    requires WellFormed(cfg) && Shaped(cfg, s) && InBounds(cfg, x, y) && y + 1 < cfg.yDim
    requires EmptiesImmovable(s)
    ensures StepInvariant(cfg, s, StepCell(cfg, s, x, y, inverse))
    ensures EmptiesImmovable(StepCell(cfg, s, x, y, inverse).snap)
  {
    var r := StepCell(cfg, s, x, y, inverse);
    StepCellMoves(cfg, s, x, y, inverse);
    if r.moved {
      var tx :| MovedDown(cfg, s, r.snap, x, y, tx);
      MovedDownInvariant(cfg, s, r.snap, x, y, tx);
    }
  }

  /** Every Empty piece of the arena is immovable: the prefab fact, kept by every spawn. */
  ghost predicate EmptiesImmovable(s: Snap)
  {
    forall i | 0 <= i < |s.pieces| && s.pieces[i].kind == Empty :: !s.pieces[i].movable
  }

  /** Piece p became q: unchanged, or a movable piece from a row in [lo, hi] that fell
      one row, into its own column or a neighbouring one. */
  ghost predicate Fell(p: Piece, q: Piece, lo: int, hi: int)
  {
    q == p || (p.movable && lo <= p.y <= hi && q == Move(p, q.x, p.y + 1) && p.x - 1 <= q.x <= p.x + 1)
  }

  /** Every piece of s fell at most one row on the way to r, from a row in [lo, hi]. */
  ghost predicate Falls(s: Snap, r: Snap, lo: int, hi: int)
  {
    |s.pieces| <= |r.pieces| && forall i | 0 <= i < |s.pieces| :: Fell(s.pieces[i], r.pieces[i], lo, hi)
  }

  /** A piece that fell lands below every row the next stage moves pieces from, so it
      falls at most once over both stages. */
  lemma FallsTrans(s: Snap, a: Snap, b: Snap, lo1: int, hi1: int, lo2: int, hi2: int)
    requires Falls(s, a, lo1, hi1) && Falls(a, b, lo2, hi2) && hi2 <= lo1
    ensures Falls(s, b, if lo1 < lo2 then lo1 else lo2, if hi1 < hi2 then hi2 else hi1)
  {
    forall i | 0 <= i < |s.pieces|
      ensures Fell(s.pieces[i], b.pieces[i], if lo1 < lo2 then lo1 else lo2, if hi1 < hi2 then hi2 else hi1)
    {
      assert Fell(s.pieces[i], a.pieces[i], lo1, hi1) && Fell(a.pieces[i], b.pieces[i], lo2, hi2);
    }
  }

  /** A move out of a placed grid keeps it placed, and the moved piece fell one row. */
  lemma MovedDownFalls(cfg: Config, s: Snap, r: Snap, x: int, y: int, tx: int)
    requires Shaped(cfg, s) && Shaped(cfg, r) && InBounds(cfg, x, y) && y + 1 < cfg.yDim
    requires MovedDown(cfg, s, r, x, y, tx) && Placed(cfg, s)
    ensures Placed(cfg, r) && Falls(s, r, y, y)
  {
    var id := s.cells[x][y];
    forall a, b | InBounds(cfg, a, b) ensures At(cfg, r, a, b).x == a && At(cfg, r, a, b).y == b {
      if (a != x || b != y) && (a != tx || b != y + 1) {
        assert r.cells[a][b] == s.cells[a][b] && s.cells[a][b] != id;
      }
    }
    forall i | 0 <= i < |s.pieces| ensures Fell(s.pieces[i], r.pieces[i], y, y) {
      if i == id {
        assert At(cfg, s, x, y) == s.pieces[id];
      }
    }
  }

  /** A cell step after a prefix that kept the grid placed keeps it placed, and no piece
      falls twice. */
  lemma StepCellFalls(cfg: Config, s: Snap, a: Stepped, x: int, y: int, inverse: bool)
    requires Shaped(cfg, s) && Shaped(cfg, a.snap) && InBounds(cfg, x, y) && y + 1 < cfg.yDim
    requires Placed(cfg, s) ==> Placed(cfg, a.snap) && Falls(s, a.snap, y, y)
    ensures Placed(cfg, s) ==>
      var b := StepCell(cfg, a.snap, x, y, inverse);
      Placed(cfg, b.snap) && Falls(s, b.snap, y, y)
  {
    if Placed(cfg, s) {
      var b := StepCell(cfg, a.snap, x, y, inverse);
      StepCellMoves(cfg, a.snap, x, y, inverse);
      if b.moved {
        var tx :| MovedDown(cfg, a.snap, b.snap, x, y, tx);
        MovedDownFalls(cfg, a.snap, b.snap, x, y, tx);
        FallsTrans(s, a.snap, b.snap, y, y, y, y);
      }
    }
  }

  /** A cell step after a prefix that kept the step invariant keeps it too. */
  lemma StepCellExtends(cfg: Config, s: Snap, a: Stepped, x: int, y: int, inverse: bool)
    requires Shaped(cfg, s) && Shaped(cfg, a.snap) && InBounds(cfg, x, y) && y + 1 < cfg.yDim
    requires WellFormed(cfg) && EmptiesImmovable(s) ==> StepInvariant(cfg, s, a) && EmptiesImmovable(a.snap)
    ensures WellFormed(cfg) && EmptiesImmovable(s) ==>
      var b := StepCell(cfg, a.snap, x, y, inverse);
      StepInvariant(cfg, s, Stepped(b.snap, a.moved || b.moved)) && EmptiesImmovable(b.snap)
  {
    if WellFormed(cfg) && EmptiesImmovable(s) {
      StepCellInvariant(cfg, a.snap, x, y, inverse);
      StepInvariantTrans(cfg, s, a, StepCell(cfg, a.snap, x, y, inverse));
    }
  }

  lemma StepInvariantTrans(cfg: Config, s: Snap, a: Stepped, b: Stepped)
    requires Shaped(cfg, s) && StepInvariant(cfg, s, a) && StepInvariant(cfg, a.snap, b)
    ensures StepInvariant(cfg, s, Stepped(b.snap, a.moved || b.moved))
  {
    KeepsImmovableTrans(cfg, s, a.snap, b.snap);
  }

  /** The first n cells of row y processed, in the scan order. */
  function RowPrefix(cfg: Config, s: Snap, y: int, inverse: bool, n: nat): (r: Stepped)
    requires Shaped(cfg, s) && 0 <= y && y + 1 < cfg.yDim && n <= cfg.xDim
    ensures Shaped(cfg, r.snap)
    ensures WellFormed(cfg) && EmptiesImmovable(s) ==> StepInvariant(cfg, s, r) && EmptiesImmovable(r.snap)
    ensures Placed(cfg, s) ==> Placed(cfg, r.snap) && Falls(s, r.snap, y, y)
    decreases n
  {
    if n == 0 then Stepped(s, false)
    else
      var a := RowPrefix(cfg, s, y, inverse, n - 1);
      var x := ColumnAt(cfg, inverse, n - 1);
      var b := StepCell(cfg, a.snap, x, y, inverse);
      StepCellExtends(cfg, s, a, x, y, inverse);
      StepCellFalls(cfg, s, a, x, y, inverse);
      Stepped(b.snap, a.moved || b.moved)
  }

  /** One more cell of the row. */
  lemma RowPrefixNext(cfg: Config, s: Snap, y: int, inverse: bool, n: nat, a: Stepped, b: Stepped)
    requires Shaped(cfg, s) && 0 <= y && y + 1 < cfg.yDim && n < cfg.xDim
    requires a == RowPrefix(cfg, s, y, inverse, n) && Shaped(cfg, a.snap)
    requires b == StepCell(cfg, a.snap, ColumnAt(cfg, inverse, n), y, inverse)
    ensures RowPrefix(cfg, s, y, inverse, n + 1) == Stepped(b.snap, a.moved || b.moved)
  {
  }

  /** The rows from yDim - 2 up to row y processed, bottom row first. */
  function RowsFrom(cfg: Config, s: Snap, inverse: bool, y: int): (r: Stepped)
    requires Shaped(cfg, s) && 0 <= y <= cfg.yDim
    ensures Shaped(cfg, r.snap)
    ensures WellFormed(cfg) && EmptiesImmovable(s) ==> StepInvariant(cfg, s, r) && EmptiesImmovable(r.snap)
    ensures Placed(cfg, s) ==> Placed(cfg, r.snap) && Falls(s, r.snap, y, cfg.yDim - 2)
    decreases cfg.yDim - y
  {
    if y + 1 >= cfg.yDim then Stepped(s, false)
    else
      var a := RowsFrom(cfg, s, inverse, y + 1);
      var b := RowPrefix(cfg, a.snap, y, inverse, cfg.xDim);
      RowExtends(cfg, s, a, b);
      RowFalls(cfg, s, a.snap, b.snap, y, cfg.yDim - 2);
      Stepped(b.snap, a.moved || b.moved)
  }

  /** A row processed after rows that kept the step invariant keeps it too. */
  lemma RowExtends(cfg: Config, s: Snap, a: Stepped, b: Stepped)
    requires Shaped(cfg, s) && Shaped(cfg, a.snap)
    requires WellFormed(cfg) && EmptiesImmovable(s) ==> StepInvariant(cfg, s, a) && EmptiesImmovable(a.snap)
    requires WellFormed(cfg) && EmptiesImmovable(a.snap) ==> StepInvariant(cfg, a.snap, b) && EmptiesImmovable(b.snap)
    ensures WellFormed(cfg) && EmptiesImmovable(s) ==>
      StepInvariant(cfg, s, Stepped(b.snap, a.moved || b.moved)) && EmptiesImmovable(b.snap)
  {
    if WellFormed(cfg) && EmptiesImmovable(s) {
      StepInvariantTrans(cfg, s, a, b);
    }
  }

  /** A row processed after the rows below it: no piece falls twice. */
  lemma RowFalls(cfg: Config, s: Snap, a: Snap, b: Snap, y: int, hi: int)
    requires Shaped(cfg, s) && Shaped(cfg, a) && Shaped(cfg, b) && y <= hi
    requires Placed(cfg, s) ==> Placed(cfg, a) && Falls(s, a, y + 1, hi)
    requires Placed(cfg, a) ==> Placed(cfg, b) && Falls(a, b, y, y)
    ensures Placed(cfg, s) ==> Placed(cfg, b) && Falls(s, b, y, hi)
  {
    if Placed(cfg, s) {
      FallsTrans(s, a, b, y + 1, hi, y, y);
    }
  }

  /** One more row of the row phase. */
  lemma RowsFromNext(cfg: Config, s: Snap, inverse: bool, y: int, a: Stepped, b: Stepped)
    requires Shaped(cfg, s) && 0 <= y && y + 1 < cfg.yDim
    requires a == RowsFrom(cfg, s, inverse, y + 1) && Shaped(cfg, a.snap)
    requires b == RowPrefix(cfg, a.snap, y, inverse, cfg.xDim)
    ensures RowsFrom(cfg, s, inverse, y) == Stepped(b.snap, a.moved || b.moved)
  {
  }

  /** The Normal piece the refill puts into column x: spawned above the grid, moved
      into row 0, and given the colour with ordinal `k`. */
  function RefillPiece(cfg: Config, x: int, k: int): (p: Piece)
    ensures p.kind == Normal && !p.beingCleared && p.movable == cfg.prefab(Normal).movable
    ensures p.movable ==> p.x == x && p.y == 0
  {
    SetColor(Move(Init(Instantiate(cfg.prefab(Normal)), x, -1, Normal), x, 0), ColorAt(k))
  }

  /** Refill of column x of the top row, when that cell is Empty: the cell then holds a
      piece other than Empty, no other cell changes, the arena only grows, and the step
      invariant holds. */
  function RefillCell(cfg: Config, rng: nat -> int, s: Snap, x: int): (r: Stepped)
    requires Shaped(cfg, s) && InBounds(cfg, x, 0)
    ensures Shaped(cfg, r.snap) && s.pieces <= r.snap.pieces
    ensures At(cfg, r.snap, x, 0).kind != Empty
    ensures forall a, b | InBounds(cfg, a, b) && (a != x || b != 0) :: r.snap.cells[a][b] == s.cells[a][b]
    ensures WellFormed(cfg) && EmptiesImmovable(s) ==> StepInvariant(cfg, s, r) && EmptiesImmovable(r.snap)
    ensures WellFormed(cfg) && Placed(cfg, s) ==> Placed(cfg, r.snap)
  {
    if At(cfg, s, x, 0).kind != Empty then Stepped(s, false)
    else
      var k := Draw(rng, s.draws, 0, cfg.numColors);
      var s1 := s.(pieces := s.pieces + [RefillPiece(cfg, x, k)], draws := s.draws + 1);
      var t := Put(cfg, s1, x, 0, |s.pieces|);
      assert forall a, b | InBounds(cfg, a, b) && !At(cfg, s, a, b).movable && At(cfg, s, a, b).kind != Empty ::
        a != x || b != 0;
      assert WellFormed(cfg) && Placed(cfg, s) ==> Placed(cfg, t) by {
        if WellFormed(cfg) && Placed(cfg, s) {
          forall a, b | InBounds(cfg, a, b) ensures At(cfg, t, a, b).x == a && At(cfg, t, a, b).y == b {
            if a != x || b != 0 {
              assert t.cells[a][b] == s.cells[a][b] && t.pieces[s.cells[a][b]] == s.pieces[s.cells[a][b]];
            }
          }
        }
      }
      Stepped(t, true)
  }

  /** The first n columns of the top row refilled: none of them holds an Empty piece. */
  function RefillPrefix(cfg: Config, rng: nat -> int, s: Snap, n: nat): (r: Stepped)
    requires Shaped(cfg, s) && n <= cfg.xDim && cfg.yDim >= 1
    ensures Shaped(cfg, r.snap)
    ensures forall x | 0 <= x < n :: At(cfg, r.snap, x, 0).kind != Empty
    ensures WellFormed(cfg) && EmptiesImmovable(s) ==> StepInvariant(cfg, s, r) && EmptiesImmovable(r.snap)
    ensures s.pieces <= r.snap.pieces
    ensures WellFormed(cfg) && Placed(cfg, s) ==> Placed(cfg, r.snap)
    decreases n
  {
    if n == 0 then Stepped(s, false)
    else
      var a := RefillPrefix(cfg, rng, s, n - 1);
      var b := RefillCell(cfg, rng, a.snap, n - 1);
      RowExtends(cfg, s, a, b);
      TopRowKept(cfg, a.snap, b.snap, n - 1);
      Stepped(b.snap, a.moved || b.moved)
  }

  /** A change that grows the arena and keeps the first n cells of the top row keeps
      their pieces. */
  lemma TopRowKept(cfg: Config, s: Snap, r: Snap, n: int)
    requires Shaped(cfg, s) && Shaped(cfg, r) && s.pieces <= r.pieces && 0 <= n <= cfg.xDim && cfg.yDim >= 1
    requires forall a, b | InBounds(cfg, a, b) && (a != n || b != 0) :: r.cells[a][b] == s.cells[a][b]
    ensures forall x | 0 <= x < n :: At(cfg, r, x, 0) == At(cfg, s, x, 0)
  {
    forall x | 0 <= x < n ensures At(cfg, r, x, 0) == At(cfg, s, x, 0) {
      assert r.cells[x][0] == s.cells[x][0];
    }
  }

  /** One more column of the refill. */
  lemma RefillPrefixNext(cfg: Config, rng: nat -> int, s: Snap, n: nat, a: Stepped, b: Stepped)
    requires Shaped(cfg, s) && n < cfg.xDim && cfg.yDim >= 1
    requires a == RefillPrefix(cfg, rng, s, n) && Shaped(cfg, a.snap)
    requires b == RefillCell(cfg, rng, a.snap, n)
    ensures RefillPrefix(cfg, rng, s, n + 1) == Stepped(b.snap, a.moved || b.moved)
  {
  }

  /** FillStep: every row from yDim - 2 up to 0, then the top-row refill. */
  function FillStep(cfg: Config, rng: nat -> int, s: Snap, inverse: bool): (r: Stepped)
    requires Shaped(cfg, s) && cfg.yDim >= 1
    ensures Shaped(cfg, r.snap)
  {
    var a := RowsFrom(cfg, s, inverse, 0);
    var b := RefillPrefix(cfg, rng, a.snap, cfg.xDim);
    Stepped(b.snap, a.moved || b.moved)
  }

  /** FillStep is the row phase followed by the refill phase. */
  lemma FillStepUnfold(cfg: Config, rng: nat -> int, s: Snap, inverse: bool, a: Stepped, b: Stepped)
    requires Shaped(cfg, s) && cfg.yDim >= 1
    requires a == RowsFrom(cfg, s, inverse, 0)
    requires b == RefillPrefix(cfg, rng, a.snap, cfg.xDim)
    ensures FillStep(cfg, rng, s, inverse) == Stepped(b.snap, a.moved || b.moved)
  {
  }

  /** After a step the top row holds no Empty piece; the step reports a move exactly
      when it moved or spawned a piece (the arena grew), and leaves the grid as it was
      otherwise; immovable non-Empty pieces never change cell; no clear flag changes;
      Empty pieces stay immovable. On a grid whose every piece records its own cell, the
      grid stays so and every piece is where it was or fell exactly one row, from a row
      above the bottom one, into its own or a neighbouring column. */
  lemma FillStepProperties(cfg: Config, rng: nat -> int, s: Snap, inverse: bool)
    requires WellFormed(cfg) && Shaped(cfg, s) && EmptiesImmovable(s) && cfg.yDim >= 1
    ensures var r := FillStep(cfg, rng, s, inverse);
      && (forall x | 0 <= x < cfg.xDim :: At(cfg, r.snap, x, 0).kind != Empty)
      && StepInvariant(cfg, s, r) && EmptiesImmovable(r.snap)
      && (Placed(cfg, s) ==> Placed(cfg, r.snap) && Falls(s, r.snap, 0, cfg.yDim - 2))
  {
    var a := RowsFrom(cfg, s, inverse, 0);
    var b := RefillPrefix(cfg, rng, a.snap, cfg.xDim);
    StepInvariantTrans(cfg, s, a, b);
    FillStepUnfold(cfg, rng, s, inverse, a, b);
    if Placed(cfg, s) {
      FillStepFalls(cfg, rng, s, inverse);
    }
  }

  /** The placement half of FillStepProperties. */
  lemma FillStepFalls(cfg: Config, rng: nat -> int, s: Snap, inverse: bool)
    requires WellFormed(cfg) && Shaped(cfg, s) && cfg.yDim >= 1 && Placed(cfg, s)
    ensures var r := FillStep(cfg, rng, s, inverse);
      Placed(cfg, r.snap) && Falls(s, r.snap, 0, cfg.yDim - 2)
  {
    var a := RowsFrom(cfg, s, inverse, 0);
    var b := RefillPrefix(cfg, rng, a.snap, cfg.xDim);
    FillStepUnfold(cfg, rng, s, inverse, a, b);
    assert Falls(s, a.snap, 0, cfg.yDim - 2) && a.snap.pieces <= b.snap.pieces;
    KeptFalls(s, a.snap, b.snap, 0, cfg.yDim - 2);
  }

  /** Spawning pieces after a fall moves none of the existing ones. */
  lemma KeptFalls(s: Snap, a: Snap, r: Snap, lo: int, hi: int)
    requires Falls(s, a, lo, hi) && a.pieces <= r.pieces
    ensures Falls(s, r, lo, hi)
  {
    forall i | 0 <= i < |s.pieces| ensures Fell(s.pieces[i], r.pieces[i], lo, hi) {
      assert r.pieces[i] == a.pieces[i];
    }
  }
}
