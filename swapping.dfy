/** The rules of a player's swap, as functions of a grid snapshot: which pieces may be
    swapped, when a swap goes through, and which special piece a cleared match earns. */
module Swapping {
  import opened Options
  import opened Pieces
  import opened Board
  import opened Matching

  function Abs(v: int): nat
  {
    if v < 0 then -v else v
  }

  /** IsAdjacent: the two pieces share a column and are one row apart, or share a row
      and are one column apart. */
  function IsAdjacent(a: Piece, b: Piece): (r: bool)
    ensures r <==> Abs(a.x - b.x) + Abs(a.y - b.y) == 1
  {
    (a.x == b.x && Abs(a.y - b.y) == 1) || (a.y == b.y && Abs(a.x - b.x) == 1)
  }

  /** Adjacency does not depend on which piece was pressed first, and a piece is never
      adjacent to its own cell. */
  lemma AdjacentSymmetric(a: Piece, b: Piece)
    ensures IsAdjacent(a, b) == IsAdjacent(b, a)
    ensures IsAdjacent(a, b) ==> a.x != b.x || a.y != b.y
  {
    assert Abs(a.x - b.x) == Abs(b.x - a.x) && Abs(a.y - b.y) == Abs(b.y - a.y);
  }

  /** The cells after SwapPieces' exchange: piece b is written into the cell piece a
      records, then piece a into the cell piece b records. */
  function Swapped(cfg: Config, s: Snap, a: PieceId, b: PieceId): (t: Snap)
    requires Shaped(cfg, s) && CoordsInBounds(cfg, s.pieces) && a < |s.pieces| && b < |s.pieces|
    ensures Shaped(cfg, t) && t.pieces == s.pieces && t.draws == s.draws
  {
    var pa, pb := s.pieces[a], s.pieces[b];
    Put(cfg, Put(cfg, s, pa.x, pa.y, b), pb.x, pb.y, a)
  }

  /** After the exchange, piece a completes a match in the cell of b, piece b completes one
      in the cell of a, or one of them is a Rainbow. */
  predicate SwapMatches(cfg: Config, s: Snap, a: PieceId, b: PieceId)
    requires Shaped(cfg, s) && CoordsInBounds(cfg, s.pieces) && a < |s.pieces| && b < |s.pieces|
  {
    var t := Swapped(cfg, s, a, b);
    var pa, pb := s.pieces[a], s.pieces[b];
    || Match(cfg, t, a, pb.x, pb.y).Some?
    || Match(cfg, t, b, pa.x, pa.y).Some?
    || pa.kind == Rainbow || pb.kind == Rainbow
  }

  /** The cells after a refused swap: the exchange, then each piece written back into
      the cell it records. */
  function Restored(cfg: Config, s: Snap, a: PieceId, b: PieceId): (t: Snap)
    requires Shaped(cfg, s) && CoordsInBounds(cfg, s.pieces) && a < |s.pieces| && b < |s.pieces|
    ensures Shaped(cfg, t) && t.pieces == s.pieces && t.draws == s.draws
  {
    var pa, pb := s.pieces[a], s.pieces[b];
    Put(cfg, Put(cfg, Swapped(cfg, s, a, b), pa.x, pa.y, a), pb.x, pb.y, b)
  }

  /** A refused swap of two pieces that sit in the cells they record leaves the grid as
      it was. */
  lemma RefusedSwapRestores(cfg: Config, s: Snap, a: PieceId, b: PieceId)
    requires Shaped(cfg, s) && CoordsInBounds(cfg, s.pieces) && a < |s.pieces| && b < |s.pieces|
    requires Sits(cfg, s, a) && Sits(cfg, s, b)
    ensures Restored(cfg, s, a, b) == s
  {
    var t := Restored(cfg, s, a, b);
    forall x | 0 <= x < cfg.xDim ensures t.cells[x] == s.cells[x] {
      assert forall y | 0 <= y < cfg.yDim :: t.cells[x][y] == s.cells[x][y];
    }
  }

  /** A refused swap restores the grid only when both pieces sat in the cells they
      record: a piece that left the grid (cleared and replaced) still records its last
      cell, and the restore writes it back there. Here piece 0 records cell (0, 0), which
      holds the Empty piece 2, and piece 1 sits in cell (1, 0). */
  lemma RefusedSwapOfStalePiece()
    ensures var cfg := Config(2, 1, _ => Prefab(false, false, false, PlainClear, 0), 1);
      var s := Snap([[2], [1]], [Spawn(cfg.prefab(Normal), 0, 0, Normal), Spawn(cfg.prefab(Normal), 1, 0, Normal),
                                 Spawn(cfg.prefab(Empty), 0, 0, Empty)], 0);
      && Shaped(cfg, s) && CoordsInBounds(cfg, s.pieces) && Placed(cfg, s)
      && Restored(cfg, s, 0, 1).cells != s.cells
  {
    var cfg := Config(2, 1, _ => Prefab(false, false, false, PlainClear, 0), 1);
    var s := Snap([[2], [1]], [Spawn(cfg.prefab(Normal), 0, 0, Normal), Spawn(cfg.prefab(Normal), 1, 0, Normal),
                               Spawn(cfg.prefab(Empty), 0, 0, Empty)], 0);
    assert Restored(cfg, s, 0, 1).cells[0][0] == 0;
  }

  /** A placed grid stays placed when a refused swap writes the pieces back. */
  lemma RestoredPlaced(cfg: Config, s: Snap, a: PieceId, b: PieceId)
    requires Shaped(cfg, s) && CoordsInBounds(cfg, s.pieces) && a < |s.pieces| && b < |s.pieces|
    requires Placed(cfg, s)
    ensures Placed(cfg, Restored(cfg, s, a, b))
  {
    var t := Restored(cfg, s, a, b);
    var pa, pb := s.pieces[a], s.pieces[b];
    forall x, y | InBounds(cfg, x, y) ensures At(cfg, t, x, y).x == x && At(cfg, t, x, y).y == y {
      if (x != pa.x || y != pa.y) && (x != pb.x || y != pb.y) {
        assert t.cells[x][y] == s.cells[x][y];
      }
    }
  }

  /** The pieces after a swap that goes through: each of the two takes the other's
      coordinates, a first. */
  function Exchanged(ps: seq<Piece>, a: PieceId, b: PieceId): (qs: seq<Piece>)
    requires a < |ps| && b < |ps|
    ensures |qs| == |ps| && forall i | 0 <= i < |ps| && i != a && i != b :: qs[i] == ps[i]
  {
    var pa, pb := ps[a], ps[b];
    var ps1 := ps[a := Move(pa, pb.x, pb.y)];
    ps1[b := Move(ps1[b], pa.x, pa.y)]
  }

  /** Exchanging the cells and then the coordinates of two movable pieces keeps a placed
      grid placed: each cell's piece still records that cell. */
  lemma ExchangedPlaced(cfg: Config, s: Snap, a: PieceId, b: PieceId)
    requires Shaped(cfg, s) && CoordsInBounds(cfg, s.pieces) && a < |s.pieces| && b < |s.pieces|
    requires Placed(cfg, s) && s.pieces[a].movable && s.pieces[b].movable
    ensures var t := Swapped(cfg, s, a, b); Placed(cfg, t.(pieces := Exchanged(s.pieces, a, b)))
  {
    var t := Swapped(cfg, s, a, b);
    var u := t.(pieces := Exchanged(s.pieces, a, b));
    var pa, pb := s.pieces[a], s.pieces[b];
    forall x, y | InBounds(cfg, x, y) ensures At(cfg, u, x, y).x == x && At(cfg, u, x, y).y == y {
      if (x != pa.x || y != pa.y) && (x != pb.x || y != pb.y) {
        var id := s.cells[x][y];
        assert t.cells[x][y] == id && s.pieces[id].x == x && s.pieces[id].y == y;
        assert id != a && id != b;
      }
    }
  }

  /** Whether the pressed and the entered piece share a row, when both are recorded. */
  function SameRow(ps: seq<Piece>, pressed: Option<PieceId>, entered: Option<PieceId>): (r: Option<bool>)
    requires pressed.Some? ==> pressed.value < |ps|
    requires entered.Some? ==> entered.value < |ps|
    ensures r.Some? <==> pressed.Some? && entered.Some?
  {
    if pressed.None? || entered.None? then None
    else Some(ps[pressed.value].y == ps[entered.value].y)
  }

  /** The special piece a match of `count` pieces earns; Count stands for none. Four
      pieces earn a row clearer when the swap was along a row and a column clearer when it
      was along a column; with no swap recorded, `roll` (drawn from [RowClear,
      ColumnClear]) picks one. */
  function SpecialKind(count: int, sameRow: Option<bool>, roll: int): (t: PieceType)
    ensures t == Rainbow <==> count >= 5
    ensures t == RowClear || t == ColumnClear <==> count == 4
    ensures t == Count <==> count < 4
    ensures count == 4 && sameRow.Some? ==> (t == RowClear <==> sameRow.value)
    ensures count == 4 && sameRow.None? ==> (t == RowClear <==> roll == 3)
  {
    if count >= 5 then Rainbow
    else if count == 4 then
      if sameRow.Some? then (if sameRow.value then RowClear else ColumnClear)
      else if roll == 3 then RowClear else ColumnClear
    else Count
  }

  /** The colour ClearAllValidMatches gives a freshly spawned special piece `q` of type
      `kind` for a match whose first piece is `first`: a row or column clearer takes that
      piece's colour when both carry one, and a coloured Rainbow takes the wildcard. */
  function Painted(q: Piece, kind: PieceType, first: Piece): (p: Piece)
    ensures p.(color := q.color) == q
    ensures (kind == RowClear || kind == ColumnClear) && q.colored && first.colored ==> p.color == first.color
    ensures kind == Rainbow && q.colored ==> p.color == Any
    ensures !q.colored ==> p == q
  {
    if (kind == RowClear || kind == ColumnClear) && q.colored && first.colored then SetColor(q, first.color)
    else if kind == Rainbow && q.colored then SetColor(q, Any)
    else q
  }

  /** The special piece of type `kind` spawned at (x, y), painted after `first`. */
  function Promoted(cfg: Config, kind: PieceType, x: int, y: int, first: Piece): (p: Piece)
    ensures p.(color := DefaultColor) == Spawn(cfg.prefab(kind), x, y, kind)
    ensures (kind == RowClear || kind == ColumnClear) && p.colored && first.colored ==> p.color == first.color
    ensures kind == Rainbow && p.colored ==> p.color == Any
    ensures !p.colored ==> p.color == DefaultColor
  {
    Painted(Spawn(cfg.prefab(kind), x, y, kind), kind, first)
  }
}
