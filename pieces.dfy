/** The per-piece record of the grid: a GamePiece together with the optional
    MovablePiece, ColorPiece and RemovablePiece components a prefab gives it. */
module Pieces {

  /** The piece kinds, in their declaration order. */
  datatype PieceType = Empty | Normal | Bubble | RowClear | ColumnClear | Rainbow | Count

  /** The piece colours; `Any` is the wildcard a Rainbow clears with. */
  datatype ColorType = Yellow | Purple | Red | Blue | Green | Pink | Any

  /** The colour a fresh ColorPiece holds before anyone sets it: the first constant. */
  const DefaultColor: ColorType := Yellow

  /** The colour with ordinal `k` (the cast `(ColorType)k`). */
  function ColorAt(k: int): (c: ColorType)
    ensures 0 <= k < 6 ==> c != Any
  {
    if k <= 0 then Yellow
    else if k == 1 then Purple
    else if k == 2 then Red
    else if k == 3 then Blue
    else if k == 4 then Green
    else if k == 5 then Pink
    else Any
  }

  /** What the piece's RemovablePiece component does besides the base clear:
      nothing, clear its row or column (RemoveColumnPiece with its IsRow flag),
      or clear a colour (ClearColorPiece with its own Color property). */
  datatype ClearKind = PlainClear | LineClear(isRow: bool) | ColorClear(target: ColorType)

  /** What a prefab fixes for every piece instantiated from it. */
  datatype Prefab = Prefab(movable: bool, colored: bool, clearable: bool, clearKind: ClearKind, score: int)

  /** A live piece. `movable`, `colored` and `clearable` say which components are attached,
      so IsMovable/IsColored/IsClearable are these fields. `color` is ColorPiece's colour,
      `beingCleared` is RemovablePiece.IsBeingCleared. */
  datatype Piece = Piece(
    x: int, y: int, kind: PieceType, score: int,
    movable: bool, colored: bool, clearable: bool,
    color: ColorType, clearKind: ClearKind, beingCleared: bool)

  /** A piece freshly instantiated from a prefab, before Init. */
  function Instantiate(pf: Prefab): (p: Piece)
    ensures p.movable == pf.movable && p.colored == pf.colored && p.clearable == pf.clearable
    ensures p.clearKind == pf.clearKind && p.score == pf.score
    ensures !p.beingCleared && p.color == DefaultColor
  {
    Piece(0, 0, Empty, pf.score, pf.movable, pf.colored, pf.clearable, DefaultColor, pf.clearKind, false)
  }

  /** GamePiece.Init: sets the coordinates and the type whatever the piece's movability. */
  function Init(p: Piece, x: int, y: int, t: PieceType): (q: Piece)
    ensures q.x == x && q.y == y && q.kind == t
    ensures q.movable == p.movable && q.colored == p.colored && q.clearable == p.clearable
    ensures q.color == p.color && q.clearKind == p.clearKind && q.beingCleared == p.beingCleared
    ensures q.score == p.score
  {
    p.(x := x, y := y, kind := t)
  }

  /** The `X` setter: ignored unless the piece is movable. */
  function SetX(p: Piece, v: int): (q: Piece)
    ensures p.movable ==> q.x == v
    ensures !p.movable ==> q == p
    ensures q.(x := p.x) == p
  {
    if p.movable then p.(x := v) else p
  }

  /** The `Y` setter: ignored unless the piece is movable. */
  function SetY(p: Piece, v: int): (q: Piece)
    ensures p.movable ==> q.y == v
    ensures !p.movable ==> q == p
    ensures q.(y := p.y) == p
  {
    if p.movable then p.(y := v) else p
  }

  /** MovablePiece.Move without the animation: both coordinates through the guarded setters. */
  function Move(p: Piece, nx: int, ny: int): (q: Piece)
    ensures p.movable ==> q.x == nx && q.y == ny
    ensures !p.movable ==> q == p
    ensures q.(x := p.x, y := p.y) == p
  {
    SetY(SetX(p, nx), ny)
  }

  /** ColorPiece.SetColor: the colour is always stored. */
  function SetColor(p: Piece, c: ColorType): (q: Piece)
    ensures q.color == c && q.(color := p.color) == p
  {
    p.(color := c)
  }

  /** Assigning ClearColorPiece.Color: only a piece carrying that component is affected. */
  function SetClearColor(p: Piece, c: ColorType): (q: Piece)
    ensures p.clearKind.ColorClear? ==> q.clearKind == ColorClear(c)
    ensures !p.clearKind.ColorClear? ==> q == p
    ensures q.(clearKind := p.clearKind) == p
  {
    if p.clearKind.ColorClear? then p.(clearKind := ColorClear(c)) else p
  }

  /** The one-shot flag set by RemovablePiece.Clear. */
  function MarkBeingCleared(p: Piece): (q: Piece)
    ensures q.beingCleared && q.(beingCleared := p.beingCleared) == p
  {
    p.(beingCleared := true)
  }

  /** A piece of type `t` spawned at (x, y) from the prefab registered for `t`. */
  function Spawn(pf: Prefab, x: int, y: int, t: PieceType): (p: Piece)
    ensures p.x == x && p.y == y && p.kind == t && !p.beingCleared
    ensures p.movable == pf.movable && p.colored == pf.colored && p.clearable == pf.clearable
    ensures p.clearKind == pf.clearKind && p.score == pf.score && p.color == DefaultColor
  {
    Init(Instantiate(pf), x, y, t)
  }
}
