/** The match detector as functions of a grid snapshot: straight runs of one
    colour (GetMatchingLine), the first perpendicular branch that turns a run into
    an L or T (GetLShapeMatches), and the seed-cell match (GetMatch). */
module Matching {
  import opened Pieces
  import opened Board
  import opened Options

  /** The length of the axis a scan walks along. */
  function AxisLength(cfg: Config, horizontal: bool): nat
  {
    if horizontal then cfg.xDim else cfg.yDim
  }

  /** The cell `offset` steps from (sx, sy) along the axis, backwards (left/up) or forwards (right/down). */
  function StepX(sx: int, horizontal: bool, forward: bool, offset: int): int
  {
    if !horizontal then sx else if forward then sx + offset else sx - offset
  }

  function StepY(sy: int, horizontal: bool, forward: bool, offset: int): int
  {
    if horizontal then sy else if forward then sy + offset else sy - offset
  }

  /** The piece in the cell matches when it has a colour component holding `color`. */
  predicate Matches(p: Piece, color: ColorType)
  {
    p.colored && p.color == color
  }

  /** The pieces met walking away from (sx, sy) from `offset` on, up to the first
      cell that is outside the grid or does not match. */
  function Scan(cfg: Config, s: Snap, sx: int, sy: int, color: ColorType,
                horizontal: bool, forward: bool, offset: int): (r: seq<PieceId>)
    requires Shaped(cfg, s)
    decreases AxisLength(cfg, horizontal) - offset
  {
    if offset >= AxisLength(cfg, horizontal) then []
    else
      var cx, cy := StepX(sx, horizontal, forward, offset), StepY(sy, horizontal, forward, offset);
      if !InBounds(cfg, cx, cy) then []
      else if Matches(At(cfg, s, cx, cy), color) then
        [s.cells[cx][cy]] + Scan(cfg, s, sx, sy, color, horizontal, forward, offset + 1)
      else []
  }

  /** GetMatchingLine: the start cell's piece, then the run towards lower
      coordinates, then the run towards higher ones. */
  function Line(cfg: Config, s: Snap, x: int, y: int, color: ColorType, horizontal: bool): seq<PieceId>
    requires Shaped(cfg, s) && InBounds(cfg, x, y)
  {
    [s.cells[x][y]]
      + Scan(cfg, s, x, y, color, horizontal, false, 1)
      + Scan(cfg, s, x, y, color, horizontal, true, 1)
  }

  /** The two-sided run across the base axis, scanned from the piece's own stored coordinates. */
  function Perpendicular(cfg: Config, s: Snap, id: PieceId, color: ColorType, baseHorizontal: bool): seq<PieceId>
    requires Shaped(cfg, s) && id < |s.pieces|
  {
    var p := s.pieces[id];
    Scan(cfg, s, p.x, p.y, color, !baseHorizontal, false, 1)
      + Scan(cfg, s, p.x, p.y, color, !baseHorizontal, true, 1)
  }

  predicate AllSpawned(s: Snap, ids: seq<PieceId>)
  {
    forall i | 0 <= i < |ids| :: ids[i] < |s.pieces|
  }

  /** The base line extended with the perpendicular run of the first base piece,
      from index `i` on, whose run has at least two pieces. */
  function Branch(cfg: Config, s: Snap, base: seq<PieceId>, color: ColorType,
                  baseHorizontal: bool, i: nat): seq<PieceId>
    requires Shaped(cfg, s) && AllSpawned(s, base)
    decreases |base| - i
  {
    if i >= |base| then base
    else
      var secondary := Perpendicular(cfg, s, base[i], color, baseHorizontal);
      if |secondary| >= 2 then base + secondary
      else Branch(cfg, s, base, color, baseHorizontal, i + 1)
  }

  /** GetLShapeMatches. */
  function LShape(cfg: Config, s: Snap, base: seq<PieceId>, color: ColorType, baseHorizontal: bool): seq<PieceId>
    requires Shaped(cfg, s) && AllSpawned(s, base)
  {
    var matches := Branch(cfg, s, base, color, baseHorizontal, 0);
    if |matches| >= 3 then matches else base
  }

  /** GetMatch: the match for `seed` placed at (x, y), or None. */
  function Match(cfg: Config, s: Snap, seed: PieceId, x: int, y: int): Option<seq<PieceId>>
    requires Shaped(cfg, s) && InBounds(cfg, x, y) && seed < |s.pieces|
  {
    var p := s.pieces[seed];
    if !p.colored then None
    else
      LineSpawned(cfg, s, x, y, p.color, true);
      var h := Line(cfg, s, x, y, p.color, true);
      if |h| >= 3 then
        var v := LShape(cfg, s, h, p.color, true);
        Some(if |v| >= 3 then v else h)
      else
        LineSpawned(cfg, s, x, y, p.color, false);
        var l := Line(cfg, s, x, y, p.color, false);
        if |l| >= 3 then
          var w := LShape(cfg, s, l, p.color, false);
          Some(if |w| >= 3 then w else l)
        else None
  }

  // ----- Properties -----

  /** Every piece a scan collects is a spawned piece with a colour component holding `color`. */
  lemma {:induction false} ScanMatches(cfg: Config, s: Snap, sx: int, sy: int, color: ColorType,
                                       horizontal: bool, forward: bool, offset: int)
    requires Shaped(cfg, s)
    ensures forall i | 0 <= i < |Scan(cfg, s, sx, sy, color, horizontal, forward, offset)| ::
      var id := Scan(cfg, s, sx, sy, color, horizontal, forward, offset)[i];
      id < |s.pieces| && Matches(s.pieces[id], color)
    decreases AxisLength(cfg, horizontal) - offset
  {
    if offset < AxisLength(cfg, horizontal) {
      var cx, cy := StepX(sx, horizontal, forward, offset), StepY(sy, horizontal, forward, offset);
      if InBounds(cfg, cx, cy) && Matches(At(cfg, s, cx, cy), color) {
        ScanMatches(cfg, s, sx, sy, color, horizontal, forward, offset + 1);
      }
    }
  }

  /** The cell k steps from (sx, sy) is in the grid and its piece matches `color`. */
  predicate MatchingCell(cfg: Config, s: Snap, sx: int, sy: int, color: ColorType,
                         horizontal: bool, forward: bool, k: int)
    requires Shaped(cfg, s)
  {
    var cx, cy := StepX(sx, horizontal, forward, k), StepY(sy, horizontal, forward, k);
    InBounds(cfg, cx, cy) && Matches(At(cfg, s, cx, cy), color)
  }

  /** Piece `id` is the matching piece k steps from (sx, sy). */
  predicate RunCell(cfg: Config, s: Snap, sx: int, sy: int, color: ColorType,
                    horizontal: bool, forward: bool, k: int, id: PieceId)
    requires Shaped(cfg, s)
  {
    MatchingCell(cfg, s, sx, sy, color, horizontal, forward, k)
    && id == s.cells[StepX(sx, horizontal, forward, k)][StepY(sy, horizontal, forward, k)]
  }

  /** One step of a scan: a matching cell within the axis contributes its piece in front
      of the scan from the next offset; anything else ends the scan. */
  lemma ScanStep(cfg: Config, s: Snap, sx: int, sy: int, color: ColorType,
                 horizontal: bool, forward: bool, offset: int)
    requires Shaped(cfg, s)
    ensures var r := Scan(cfg, s, sx, sy, color, horizontal, forward, offset);
      offset < AxisLength(cfg, horizontal) && MatchingCell(cfg, s, sx, sy, color, horizontal, forward, offset) ==>
        && |r| >= 1 && RunCell(cfg, s, sx, sy, color, horizontal, forward, offset, r[0])
        && r[1..] == Scan(cfg, s, sx, sy, color, horizontal, forward, offset + 1)
    ensures !(offset < AxisLength(cfg, horizontal) && MatchingCell(cfg, s, sx, sy, color, horizontal, forward, offset)) ==>
      Scan(cfg, s, sx, sy, color, horizontal, forward, offset) == []
  {
  }

  /** A scan collects exactly the run of matching cells: its i-th piece is the piece
      offset + i steps away, which matches, and from an in-bounds start the cell just
      past the run is outside the grid or does not match. */
  lemma {:induction false} ScanContiguous(cfg: Config, s: Snap, sx: int, sy: int, color: ColorType,
                                          horizontal: bool, forward: bool, offset: int)
    requires Shaped(cfg, s)
    ensures var r := Scan(cfg, s, sx, sy, color, horizontal, forward, offset);
      forall i | 0 <= i < |r| :: RunCell(cfg, s, sx, sy, color, horizontal, forward, offset + i, r[i])
    ensures var r := Scan(cfg, s, sx, sy, color, horizontal, forward, offset);
      InBounds(cfg, sx, sy) ==> !MatchingCell(cfg, s, sx, sy, color, horizontal, forward, offset + |r|)
    decreases AxisLength(cfg, horizontal) - offset
  {
    var r := Scan(cfg, s, sx, sy, color, horizontal, forward, offset);
    ScanStep(cfg, s, sx, sy, color, horizontal, forward, offset);
    if offset < AxisLength(cfg, horizontal) && MatchingCell(cfg, s, sx, sy, color, horizontal, forward, offset) {
      ScanContiguous(cfg, s, sx, sy, color, horizontal, forward, offset + 1);
      var rest := Scan(cfg, s, sx, sy, color, horizontal, forward, offset + 1);
      forall i | 0 <= i < |r| ensures RunCell(cfg, s, sx, sy, color, horizontal, forward, offset + i, r[i]) {
        if i > 0 {
          assert r[i] == rest[i - 1] && offset + 1 + (i - 1) == offset + i;
        }
      }
    } else if InBounds(cfg, sx, sy) && offset >= AxisLength(cfg, horizontal) {
      OutsideAxis(cfg, sx, sy, horizontal, forward, offset);
    }
  }

  /** From an in-bounds start, a cell at least an axis length away is outside the grid. */
  lemma OutsideAxis(cfg: Config, sx: int, sy: int, horizontal: bool, forward: bool, offset: int)
    requires InBounds(cfg, sx, sy) && offset >= AxisLength(cfg, horizontal)
    ensures !InBounds(cfg, StepX(sx, horizontal, forward, offset), StepY(sy, horizontal, forward, offset))
  {
  }

  /** A line starts with the start cell's piece, and everything after it matches `color`. */
  lemma LineSpawned(cfg: Config, s: Snap, x: int, y: int, color: ColorType, horizontal: bool)
    requires Shaped(cfg, s) && InBounds(cfg, x, y)
    ensures var l := Line(cfg, s, x, y, color, horizontal);
      && |l| >= 1 && l[0] == s.cells[x][y] && AllSpawned(s, l)
      && forall i | 1 <= i < |l| :: Matches(s.pieces[l[i]], color)
  {
    ScanMatches(cfg, s, x, y, color, horizontal, false, 1);
    ScanMatches(cfg, s, x, y, color, horizontal, true, 1);
    var a := Scan(cfg, s, x, y, color, horizontal, false, 1);
    var b := Scan(cfg, s, x, y, color, horizontal, true, 1);
    var l := Line(cfg, s, x, y, color, horizontal);
    assert l == [s.cells[x][y]] + a + b;
    forall i | 1 <= i < |l| ensures l[i] < |s.pieces| && Matches(s.pieces[l[i]], color) {
      if i <= |a| { assert l[i] == a[i - 1]; } else { assert l[i] == b[i - 1 - |a|]; }
    }
  }

  /** Branch keeps the base pieces in front and adds either nothing or the run of the
      FIRST base piece (from `i` on) whose perpendicular run holds at least two pieces. */
  lemma {:induction false} BranchIsFirstQualifying(cfg: Config, s: Snap, base: seq<PieceId>, color: ColorType,
                                                   baseHorizontal: bool, i: nat)
    requires Shaped(cfg, s) && AllSpawned(s, base)
    ensures var r := Branch(cfg, s, base, color, baseHorizontal, i);
      || (r == base && forall j | i <= j < |base| :: |Perpendicular(cfg, s, base[j], color, baseHorizontal)| < 2)
      || (exists k :: i <= k < |base|
            && |Perpendicular(cfg, s, base[k], color, baseHorizontal)| >= 2
            && r == base + Perpendicular(cfg, s, base[k], color, baseHorizontal)
            && forall j | i <= j < k :: |Perpendicular(cfg, s, base[j], color, baseHorizontal)| < 2)
    decreases |base| - i
  {
    if i < |base| && |Perpendicular(cfg, s, base[i], color, baseHorizontal)| < 2 {
      BranchIsFirstQualifying(cfg, s, base, color, baseHorizontal, i + 1);
    }
  }

  /** GetLShapeMatches never drops a base piece: the base line is a prefix of its result,
      and what follows is the first qualifying perpendicular run, or nothing. */
  lemma LShapeKeepsBase(cfg: Config, s: Snap, base: seq<PieceId>, color: ColorType, baseHorizontal: bool)
    requires Shaped(cfg, s) && AllSpawned(s, base)
    ensures var r := LShape(cfg, s, base, color, baseHorizontal);
      |r| >= |base| && r[..|base|] == base
    ensures var r := LShape(cfg, s, base, color, baseHorizontal);
      || r == base
      || (exists k :: 0 <= k < |base|
            && |Perpendicular(cfg, s, base[k], color, baseHorizontal)| >= 2
            && r == base + Perpendicular(cfg, s, base[k], color, baseHorizontal)
            && forall j | 0 <= j < k :: |Perpendicular(cfg, s, base[j], color, baseHorizontal)| < 2)
  {
    BranchIsFirstQualifying(cfg, s, base, color, baseHorizontal, 0);
  }

  /** Every piece of a perpendicular run matches `color`. */
  lemma PerpendicularMatches(cfg: Config, s: Snap, id: PieceId, color: ColorType, baseHorizontal: bool)
    requires Shaped(cfg, s) && id < |s.pieces|
    ensures var r := Perpendicular(cfg, s, id, color, baseHorizontal);
      AllSpawned(s, r) && forall i | 0 <= i < |r| :: Matches(s.pieces[r[i]], color)
  {
    var p := s.pieces[id];
    ScanMatches(cfg, s, p.x, p.y, color, !baseHorizontal, false, 1);
    ScanMatches(cfg, s, p.x, p.y, color, !baseHorizontal, true, 1);
    var a := Scan(cfg, s, p.x, p.y, color, !baseHorizontal, false, 1);
    var b := Scan(cfg, s, p.x, p.y, color, !baseHorizontal, true, 1);
    var r := a + b;
    forall i | 0 <= i < |r| ensures r[i] < |s.pieces| && Matches(s.pieces[r[i]], color) {
      if i < |a| { assert r[i] == a[i]; } else { assert r[i] == b[i - |a|]; }
    }
  }

  /** GetMatch: no match for an uncoloured seed; otherwise a match has at least three
      pieces, starts with the piece in the seed cell, and every later piece carries the
      seed's colour. There is no match exactly when the seed has no colour or neither
      the horizontal nor the vertical line through the cell holds three pieces. A
      horizontal line of three or more is the prefix of the result, before the vertical
      axis is looked at; otherwise a vertical line of three or more is. */
  lemma MatchShape(cfg: Config, s: Snap, seed: PieceId, x: int, y: int)
    requires Shaped(cfg, s) && InBounds(cfg, x, y) && seed < |s.pieces|
    ensures !s.pieces[seed].colored ==> Match(cfg, s, seed, x, y).None?
    ensures Match(cfg, s, seed, x, y).Some? ==>
      var m := Match(cfg, s, seed, x, y).value;
      && |m| >= 3 && m[0] == s.cells[x][y] && AllSpawned(s, m)
      && forall i | 1 <= i < |m| :: Matches(s.pieces[m[i]], s.pieces[seed].color)
    ensures s.pieces[seed].colored ==>
      var h := Line(cfg, s, x, y, s.pieces[seed].color, true);
      |h| >= 3 ==> && Match(cfg, s, seed, x, y).Some?
                   && |Match(cfg, s, seed, x, y).value| >= |h|
                   && Match(cfg, s, seed, x, y).value[..|h|] == h
    ensures var c := s.pieces[seed].color;
      Match(cfg, s, seed, x, y).None? <==>
        !s.pieces[seed].colored || (|Line(cfg, s, x, y, c, true)| < 3 && |Line(cfg, s, x, y, c, false)| < 3)
    ensures s.pieces[seed].colored ==>
      var h, v := Line(cfg, s, x, y, s.pieces[seed].color, true), Line(cfg, s, x, y, s.pieces[seed].color, false);
      |h| < 3 && |v| >= 3 ==> && Match(cfg, s, seed, x, y).Some?
                               && |Match(cfg, s, seed, x, y).value| >= |v|
                               && Match(cfg, s, seed, x, y).value[..|v|] == v
  {
    var p := s.pieces[seed];
    if p.colored {
      var c := p.color;
      LineSpawned(cfg, s, x, y, c, true);
      var h := Line(cfg, s, x, y, c, true);
      if |h| >= 3 {
        LShapeAddsMatches(cfg, s, h, c, true);
      } else {
        LineSpawned(cfg, s, x, y, c, false);
        var l := Line(cfg, s, x, y, c, false);
        if |l| >= 3 {
          LShapeAddsMatches(cfg, s, l, c, false);
        }
      }
    }
  }

  /** The pieces LShape appends after the base all match `color`. */
  lemma LShapeAddsMatches(cfg: Config, s: Snap, base: seq<PieceId>, color: ColorType, baseHorizontal: bool)
    requires Shaped(cfg, s) && AllSpawned(s, base) && |base| >= 1
    requires forall i | 1 <= i < |base| :: Matches(s.pieces[base[i]], color)
    ensures var r := LShape(cfg, s, base, color, baseHorizontal);
      && |r| >= |base| && r[..|base|] == base && r[0] == base[0] && AllSpawned(s, r)
      && forall i | 1 <= i < |r| :: Matches(s.pieces[r[i]], color)
  {
    LShapeKeepsBase(cfg, s, base, color, baseHorizontal);
    var r := LShape(cfg, s, base, color, baseHorizontal);
    if r != base {
      var k :| 0 <= k < |base|
            && |Perpendicular(cfg, s, base[k], color, baseHorizontal)| >= 2
            && r == base + Perpendicular(cfg, s, base[k], color, baseHorizontal);
      PerpendicularMatches(cfg, s, base[k], color, baseHorizontal);
      var sec := Perpendicular(cfg, s, base[k], color, baseHorizontal);
      forall i | 1 <= i < |r| ensures r[i] < |s.pieces| && Matches(s.pieces[r[i]], color) {
        if i < |base| { assert r[i] == base[i]; } else { assert r[i] == sec[i - |base|]; }
      }
      assert r[0] == base[0];
    }
  }
}
