/** The grid controller and the level that scores it. They refer to each other: the
    grid reports every cleared piece to its level, and the level ends the game on the
    grid and waits for the grid to stop filling before it shows the outcome. */
module Match3 {
  import opened Options
  import opened Pieces
  import opened Board
  import opened Matching
  import opened Gravity
  import opened Clock
  import opened Display
  import opened Swapping
  import opened Queries

  /** Which objective the level tracks: the base Level, LevelMoves, LevelObstacles or LevelTimer. */
  datatype LevelMode =
    | Plain
    | Moves(numMoves: int, targetScore: int)
    | Obstacles(numMoves: int, obstacleTypes: seq<PieceType>)
    | Timer(timeInSeconds: int, targetScore: int)

  /** LevelObstacles' ScorePerPieceCleared. */
  const ScorePerPieceCleared: int := 1000

  /** A cleared piece of this type counts down the obstacles. */
  predicate IsObstacle(mode: LevelMode, t: PieceType)
  {
    mode.Obstacles? && t in mode.obstacleTypes
  }

  /** The bonus for the moves left when the last obstacle is cleared. */
  function ObstacleBonus(numMoves: int, movesUsed: int): (b: int)
    ensures movesUsed <= numMoves ==> b >= 0
    ensures movesUsed == numMoves ==> b == 0
  {
    ScorePerPieceCleared * (numMoves - movesUsed)
  }

  /** What a cleared piece changes about the level: the score, the obstacles left, the win
      and game-over flags, and the outcome reports waiting for the grid to settle. */
  datatype Tally = Tally(score: int, obstaclesLeft: int, won: bool, over: bool, reports: int)

  /** Level.OnPieceCleared on the tally: the piece's score is added; an obstacle counts
      down the obstacles, and the last one adds the bonus for the moves left and wins. */
  function AfterCleared(mode: LevelMode, movesUsed: int, t: Tally, p: Piece): Tally
  {
    if !IsObstacle(mode, p.kind) then t.(score := t.score + p.score)
    else if t.obstaclesLeft - 1 > 0 then t.(score := t.score + p.score, obstaclesLeft := t.obstaclesLeft - 1)
    else Tally(t.score + p.score + ObstacleBonus(mode.numMoves, movesUsed), t.obstaclesLeft - 1, true, true, t.reports + 1)
  }

  /** Reporting a cleared piece never takes points away (for pieces not worth less than
      nothing, with no more moves used than allowed), never undoes a win or a game over,
      counts down the obstacles exactly for an obstacle piece, and wins exactly when that
      clears the last obstacle or the level was already won. */
  lemma AfterClearedProgress(mode: LevelMode, movesUsed: int, t: Tally, p: Piece)
    requires p.score >= 0 && (mode.Obstacles? ==> movesUsed <= mode.numMoves)
    ensures var r := AfterCleared(mode, movesUsed, t, p);
      && r.score >= t.score + p.score
      && (t.won ==> r.won) && (t.over ==> r.over) && r.reports >= t.reports
      && r.obstaclesLeft == t.obstaclesLeft - (if IsObstacle(mode, p.kind) then 1 else 0)
      && (r.won <==> t.won || (IsObstacle(mode, p.kind) && t.obstaclesLeft <= 1))
  {
  }

  /** How a move ends the game, if it does: Some(true) a win, Some(false) a loss. */
  function MoveVerdict(mode: LevelMode, movesUsed: int, score: int, obstaclesLeft: int): Option<bool>
  {
    match mode
    case Moves(numMoves, targetScore) =>
      if numMoves - movesUsed > 0 then None else Some(score >= targetScore)
    case Obstacles(numMoves, _) =>
      if numMoves - movesUsed == 0 && obstaclesLeft > 0 then Some(false) else None
    case _ => None
  }

  /** The whole seconds left on the clock, never negative. */
  function RemainingTime(timeInSeconds: int, elapsed: nat): (r: int)
    ensures r >= 0 && r >= timeInSeconds - elapsed
    ensures r == 0 || r == timeInSeconds - elapsed
  {
    if timeInSeconds - elapsed > 0 then timeInSeconds - elapsed else 0
  }

  /** How a timer frame ends the game, if it does. */
  function TimerVerdict(timeInSeconds: int, elapsed: nat, score: int, targetScore: int): Option<bool>
  {
    if RemainingTime(timeInSeconds, elapsed) <= 0 then Some(score >= targetScore) else None
  }

  /** (a, b) is one of the four cells sharing a side with (x, y). */
  predicate Orthogonal(x: int, y: int, a: int, b: int)
  {
    (a == x && (b == y - 1 || b == y + 1)) || (b == y && (a == x - 1 || a == x + 1))
  }

  /** Cell (a, b) holds a clearable Bubble. */
  ghost predicate BubbleIn(ps: seq<Piece>, c: seq<seq<PieceId>>, a: int, b: int)
  {
    0 <= a < |c| && 0 <= b < |c[a]| && c[a][b] < |ps| && ps[c[a][b]].kind == Bubble && ps[c[a][b]].clearable
  }

  /** A cell that held a clearable Bubble at the start of a run of clear steps holds a
      piece spawned during the run once the last step has replaced whatever Bubble it
      then held. */
  lemma NeighbourStep(ps0: seq<Piece>, c0: seq<seq<PieceId>>, ps1: seq<Piece>, c1: seq<seq<PieceId>>,
                      ps2: seq<Piece>, c2: seq<seq<PieceId>>, a: int, b: int)
    requires ClearStep(ps0, c0, ps1, c1) && ClearStep(ps1, c1, ps2, c2)
    requires 0 <= a < |c0| && 0 <= b < |c0[a]|
    requires BubbleIn(ps1, c1, a, b) ==> c2[a][b] >= |ps1|
    ensures BubbleIn(ps0, c0, a, b) ==> c2[a][b] >= |ps0|
  {
    assert FreshIfChanged(ps0, c0, ps1, c1, a, b) && FreshIfChanged(ps1, c1, ps2, c2, a, b);
    if BubbleIn(ps0, c0, a, b) && c1[a][b] == c0[a][b] {
      assert FlaggedOrKept(ps0, ps1, c0[a][b]);
    }
  }

  /** Every cell of `done` that held a clearable Bubble in `c0` now holds a piece spawned
      after `ps0`. */
  ghost predicate Replaced(ps0: seq<Piece>, c0: seq<seq<PieceId>>, c: seq<seq<PieceId>>, done: set<(int, int)>)
  {
    forall p | p in done && BubbleIn(ps0, c0, p.0, p.1) :: 0 <= p.0 < |c| && 0 <= p.1 < |c[p.0]| && c[p.0][p.1] >= |ps0|
  }

  /** Every cell outside `done` still holds what it held in `c0`. */
  ghost predicate Untouched(c0: seq<seq<PieceId>>, c: seq<seq<PieceId>>, done: set<(int, int)>)
  {
    && |c| == |c0| && (forall a | 0 <= a < |c0| :: |c[a]| == |c0[a]|)
    && forall a, b | 0 <= a < |c0| && 0 <= b < |c0[a]| && (a, b) !in done :: c[a][b] == c0[a][b]
  }

  /** The cells of `done` that held a clearable Bubble in `c0`. */
  ghost function Bubbles(ps0: seq<Piece>, c0: seq<seq<PieceId>>, done: set<(int, int)>): set<(int, int)>
  {
    set p | p in done && BubbleIn(ps0, c0, p.0, p.1)
  }

  /** Every clearable Bubble next to (x, y) has a plain clearable component. */
  ghost predicate QuietNeighbours(cfg: Config, s: Snap, x: int, y: int)
    requires Shaped(cfg, s)
  {
    forall a, b | InBounds(cfg, a, b) && Orthogonal(x, y, a, b) && BubbleIn(s.pieces, s.cells, a, b) ::
      At(cfg, s, a, b).clearKind.PlainClear?
  }

  /** A neighbour cell that still holds its Bubble of the start of ClearObstacles holds
      one with a plain clearable component, when all the neighbours' were plain. */
  lemma QuietCell(cfg: Config, s0: Snap, ps1: seq<Piece>, c1: seq<seq<PieceId>>, x: int, y: int, a: int, b: int)
    requires Shaped(cfg, s0) && ClearStep(s0.pieces, s0.cells, ps1, c1) && QuietNeighbours(cfg, s0, x, y)
    requires InBounds(cfg, a, b) && Orthogonal(x, y, a, b) && c1[a][b] == s0.cells[a][b] && BubbleIn(ps1, c1, a, b)
    ensures ps1[c1[a][b]].clearKind.PlainClear?
  {
    assert FlaggedOrKept(s0.pieces, ps1, c1[a][b]);
  }

  /** One neighbour cell dealt with by ClearObstacles: the Bubbles of the visited cells
      stay replaced and, when every neighbouring Bubble is plain, nothing has changed
      but the visited cells that held a clearable Bubble. */
  lemma NeighbourDone(cfg: Config, s0: Snap, ps1: seq<Piece>, c1: seq<seq<PieceId>>, ps2: seq<Piece>, c2: seq<seq<PieceId>>,
                      quiet: bool, x: int, y: int, a: int, b: int, done: set<(int, int)>, after: set<(int, int)>)
    requires Shaped(cfg, s0) && ClearStep(s0.pieces, s0.cells, ps1, c1) && ClearStep(ps1, c1, ps2, c2)
    requires Replaced(s0.pieces, s0.cells, c1, done)
    requires InBounds(cfg, a, b) && Orthogonal(x, y, a, b) && (a, b) !in done && after == done + {(a, b)}
    requires BubbleIn(ps1, c1, a, b) ==> c2[a][b] >= |ps1|
    requires !BubbleIn(ps1, c1, a, b) ==> c2 == c1
    requires BubbleIn(ps1, c1, a, b) && ps1[c1[a][b]].clearKind.PlainClear? ==> Untouched(c1, c2, {(a, b)})
    requires quiet ==> QuietNeighbours(cfg, s0, x, y) && Untouched(s0.cells, c1, Bubbles(s0.pieces, s0.cells, done))
    ensures ClearStep(s0.pieces, s0.cells, ps2, c2)
    ensures Replaced(s0.pieces, s0.cells, c2, after)
    ensures quiet ==> Untouched(s0.cells, c2, Bubbles(s0.pieces, s0.cells, after))
  {
    ClearStepTrans(s0.pieces, s0.cells, ps1, c1, ps2, c2);
    forall p | p in after && BubbleIn(s0.pieces, s0.cells, p.0, p.1)
      ensures 0 <= p.0 < |c2| && 0 <= p.1 < |c2[p.0]| && c2[p.0][p.1] >= |s0.pieces|
    {
      if p == (a, b) {
        NeighbourStep(s0.pieces, s0.cells, ps1, c1, ps2, c2, a, b);
      } else {
        assert FreshIfChanged(ps1, c1, ps2, c2, p.0, p.1);
      }
    }
    if quiet && BubbleIn(ps1, c1, a, b) {
      assert c1[a][b] == s0.cells[a][b] && FlaggedOrKept(s0.pieces, ps1, c1[a][b]);
      QuietCell(cfg, s0, ps1, c1, x, y, a, b);
      assert (a, b) in Bubbles(s0.pieces, s0.cells, after);
    }
  }

  /** The neighbours of (x, y) that ClearObstacles has visited: the horizontal ones left
      of `hx` and the vertical ones below `vy`, inside the grid. */
  function Visited(cfg: Config, x: int, y: int, hx: int, vy: int): set<(int, int)>
  {
    (set i | x - 1 <= i < hx && i != x && 0 <= i < cfg.xDim :: (i, y))
      + (set j | y - 1 <= j < vy && j != y && 0 <= j < cfg.yDim :: (x, j))
  }

  lemma VisitNextColumn(cfg: Config, x: int, y: int, hx: int)
    requires x - 1 <= hx <= x + 1
    ensures hx != x && 0 <= hx < cfg.xDim ==>
      (hx, y) !in Visited(cfg, x, y, hx, y - 1) && Visited(cfg, x, y, hx + 1, y - 1) == Visited(cfg, x, y, hx, y - 1) + {(hx, y)}
    ensures !(hx != x && 0 <= hx < cfg.xDim) ==> Visited(cfg, x, y, hx + 1, y - 1) == Visited(cfg, x, y, hx, y - 1)
  {
    var before, after := Visited(cfg, x, y, hx, y - 1), Visited(cfg, x, y, hx + 1, y - 1);
    if hx != x && 0 <= hx < cfg.xDim {
      assert (hx, y) in after;
    }
  }

  lemma VisitNextRow(cfg: Config, x: int, y: int, vy: int)
    requires y - 1 <= vy <= y + 1
    ensures vy != y && 0 <= vy < cfg.yDim ==>
      (x, vy) !in Visited(cfg, x, y, x + 2, vy) && Visited(cfg, x, y, x + 2, vy + 1) == Visited(cfg, x, y, x + 2, vy) + {(x, vy)}
    ensures !(vy != y && 0 <= vy < cfg.yDim) ==> Visited(cfg, x, y, x + 2, vy + 1) == Visited(cfg, x, y, x + 2, vy)
  {
    var after := Visited(cfg, x, y, x + 2, vy + 1);
    if vy != y && 0 <= vy < cfg.yDim {
      assert (x, vy) in after;
    }
  }

  /** Once both scans are done every in-bounds orthogonal neighbour has been visited. */
  lemma VisitedAll(cfg: Config, x: int, y: int)
    ensures forall a, b | InBounds(cfg, a, b) && Orthogonal(x, y, a, b) :: (a, b) in Visited(cfg, x, y, x + 2, y + 2)
  {
    var across := set i | x - 1 <= i < x + 2 && i != x && 0 <= i < cfg.xDim :: (i, y);
    var along := set j | y - 1 <= j < y + 2 && j != y && 0 <= j < cfg.yDim :: (x, j);
    forall a, b | InBounds(cfg, a, b) && Orthogonal(x, y, a, b) ensures (a, b) in across + along {
      if b == y {
        assert (a, y) in across;
      } else {
        assert (x, b) in along;
      }
    }
  }

  /** After both scans of ClearObstacles every Bubble that neighboured (x, y) is replaced. */
  lemma ObstaclesCleared(cfg: Config, ps0: seq<Piece>, c0: seq<seq<PieceId>>, c: seq<seq<PieceId>>, x: int, y: int)
    requires Replaced(ps0, c0, c, Visited(cfg, x, y, x + 2, y + 2))
    ensures forall a, b | InBounds(cfg, a, b) && Orthogonal(x, y, a, b) && BubbleIn(ps0, c0, a, b) ::
      0 <= a < |c| && 0 <= b < |c[a]| && c[a][b] >= |ps0|
  {
    VisitedAll(cfg, x, y);
  }

  /** ... and, when only visited Bubble cells changed, every other cell is as it was. */
  lemma ObstaclesQuiet(cfg: Config, ps0: seq<Piece>, c0: seq<seq<PieceId>>, c: seq<seq<PieceId>>, x: int, y: int)
    requires Untouched(c0, c, Bubbles(ps0, c0, Visited(cfg, x, y, x + 2, y + 2)))
    ensures forall a, b | 0 <= a < |c0| && 0 <= b < |c0[a]| && !(Orthogonal(x, y, a, b) && BubbleIn(ps0, c0, a, b)) ::
      c[a][b] == c0[a][b]
  {
    forall a, b | 0 <= a < |c0| && 0 <= b < |c0[a]| && !(Orthogonal(x, y, a, b) && BubbleIn(ps0, c0, a, b))
      ensures c[a][b] == c0[a][b]
    {
      if !Orthogonal(x, y, a, b) {
        VisitedOrthogonal(cfg, x, y, a, b);
      }
    }
  }

  lemma VisitedOrthogonal(cfg: Config, x: int, y: int, a: int, b: int)
    requires !Orthogonal(x, y, a, b)
    ensures (a, b) !in Visited(cfg, x, y, x + 2, y + 2)
  {
  }

  /** ClearPiece's two steps, ClearAndReplace on (x, y) from `s0` to `s1` and then
      ClearObstacles from `s1` to (ps2, c2), seen from `s0`: the neighbouring Bubbles of
      `s0` are replaced and, when the piece and those Bubbles are plain, nothing else
      changes. */
  lemma PieceCleared(cfg: Config, s0: Snap, s1: Snap, ps2: seq<Piece>, c2: seq<seq<PieceId>>, x: int, y: int)
    requires Shaped(cfg, s0) && Shaped(cfg, s1) && InBounds(cfg, x, y)
    requires ClearStep(s0.pieces, s0.cells, s1.pieces, s1.cells) && ClearStep(s1.pieces, s1.cells, ps2, c2)
    requires At(cfg, s0, x, y).clearKind.PlainClear? ==>
      forall a, b | InBounds(cfg, a, b) && (a != x || b != y) :: s1.cells[a][b] == s0.cells[a][b]
    requires forall a, b | InBounds(cfg, a, b) && Orthogonal(x, y, a, b) && BubbleIn(s1.pieces, s1.cells, a, b) ::
      c2[a][b] >= |s1.pieces|
    requires QuietNeighbours(cfg, s1, x, y) ==>
      forall a, b | InBounds(cfg, a, b) && !(Orthogonal(x, y, a, b) && BubbleIn(s1.pieces, s1.cells, a, b)) ::
        c2[a][b] == s1.cells[a][b]
    ensures forall a, b | InBounds(cfg, a, b) && Orthogonal(x, y, a, b) && BubbleIn(s0.pieces, s0.cells, a, b) ::
      c2[a][b] >= |s0.pieces|
    ensures At(cfg, s0, x, y).clearKind.PlainClear? && QuietNeighbours(cfg, s0, x, y) ==>
      forall a, b | InBounds(cfg, a, b) && (a != x || b != y) && !(Orthogonal(x, y, a, b) && BubbleIn(s0.pieces, s0.cells, a, b)) ::
        c2[a][b] == s0.cells[a][b]
  {
    forall a, b | InBounds(cfg, a, b) && Orthogonal(x, y, a, b) ensures BubbleIn(s0.pieces, s0.cells, a, b) ==> c2[a][b] >= |s0.pieces| {
      NeighbourStep(s0.pieces, s0.cells, s1.pieces, s1.cells, ps2, c2, a, b);
    }
    if At(cfg, s0, x, y).clearKind.PlainClear? && QuietNeighbours(cfg, s0, x, y) {
      forall a, b | InBounds(cfg, a, b) && Orthogonal(x, y, a, b) && BubbleIn(s1.pieces, s1.cells, a, b)
        ensures At(cfg, s1, a, b).clearKind.PlainClear?
      {
        QuietCell(cfg, s0, s1.pieces, s1.cells, x, y, a, b);
      }
      forall a, b | InBounds(cfg, a, b) && (a != x || b != y) && !(Orthogonal(x, y, a, b) && BubbleIn(s0.pieces, s0.cells, a, b))
        ensures c2[a][b] == s0.cells[a][b]
      {
        assert FlaggedOrKept(s0.pieces, s1.pieces, s0.cells[a][b]);
      }
    }
  }

  // ----- What a run of ClearPiece calls over an area leaves alone -----

  /** Clearing the pieces of `area` one at a time changes no cell outside it: every
      clearable piece in `area` has a plain clearable component, and no cell next to
      `area` but outside it holds a clearable Bubble. */
  ghost predicate Sheltered(cfg: Config, s: Snap, area: set<(int, int)>)
    requires Shaped(cfg, s)
  {
    && (forall a, b | InBounds(cfg, a, b) && (a, b) in area && At(cfg, s, a, b).clearable :: At(cfg, s, a, b).clearKind.PlainClear?)
    && (forall a, b, x, y | InBounds(cfg, a, b) && (x, y) in area && Orthogonal(x, y, a, b) && (a, b) !in area ::
          !BubbleIn(s.pieces, s.cells, a, b))
  }

  /** The cells of row `row`. */
  ghost function RowCells(cfg: Config, row: int): set<(int, int)>
  {
    set a | 0 <= a < cfg.xDim :: (a, row)
  }

  /** The cells of column `column`. */
  ghost function ColumnCells(cfg: Config, column: int): set<(int, int)>
  {
    set b | 0 <= b < cfg.yDim :: (column, b)
  }

  /** A clear step that changed only cells of a sheltered area leaves it sheltered. */
  lemma ShelteredStays(cfg: Config, s0: Snap, s1: Snap, area: set<(int, int)>)
    requires Shaped(cfg, s0) && Shaped(cfg, s1) && Sheltered(cfg, s0, area)
    requires ClearStep(s0.pieces, s0.cells, s1.pieces, s1.cells) && Untouched(s0.cells, s1.cells, area)
    ensures Sheltered(cfg, s1, area)
  {
    forall a, b | InBounds(cfg, a, b)
      ensures At(cfg, s1, a, b).clearable ==> s1.cells[a][b] == s0.cells[a][b]
      ensures s1.cells[a][b] == s0.cells[a][b] ==>
        At(cfg, s1, a, b).clearKind == At(cfg, s0, a, b).clearKind && At(cfg, s1, a, b).clearable == At(cfg, s0, a, b).clearable
        && At(cfg, s1, a, b).kind == At(cfg, s0, a, b).kind
    {
      assert FreshIfChanged(s0.pieces, s0.cells, s1.pieces, s1.cells, a, b);
      if s1.cells[a][b] == s0.cells[a][b] {
        assert FlaggedOrKept(s0.pieces, s1.pieces, s0.cells[a][b]);
      }
    }
  }

  /** One ClearPiece call on a cell (x, y) of a sheltered area, from `s1` to `s2`, given
      ClearPiece's contract: still nothing outside the area has changed since `s0`. */
  lemma ShelteredStep(cfg: Config, s0: Snap, s1: Snap, s2: Snap, area: set<(int, int)>, x: int, y: int, cleared: bool)
    requires Shaped(cfg, s0) && Shaped(cfg, s1) && Shaped(cfg, s2) && InBounds(cfg, x, y)
    requires ClearStep(s0.pieces, s0.cells, s1.pieces, s1.cells)
    requires Sheltered(cfg, s0, area) ==> Untouched(s0.cells, s1.cells, area)
    requires cleared == PendingPiece(s1.pieces, s1.cells[x][y]) && (cleared && Sheltered(cfg, s0, area) ==> (x, y) in area)
    requires !cleared ==> s2.cells == s1.cells
    requires cleared && s1.pieces[s1.cells[x][y]].clearKind.PlainClear? && QuietNeighbours(cfg, s1, x, y) ==>
      forall a, b | InBounds(cfg, a, b) && (a != x || b != y) && !(Orthogonal(x, y, a, b) && BubbleIn(s1.pieces, s1.cells, a, b)) ::
        s2.cells[a][b] == s1.cells[a][b]
    ensures Sheltered(cfg, s0, area) ==> Untouched(s0.cells, s2.cells, area)
  {
    if cleared && Sheltered(cfg, s0, area) {
      ShelteredStays(cfg, s0, s1, area);
      assert At(cfg, s1, x, y).clearKind.PlainClear?;
      forall a, b | InBounds(cfg, a, b) && Orthogonal(x, y, a, b) && BubbleIn(s1.pieces, s1.cells, a, b)
        ensures (a, b) in area && At(cfg, s1, a, b).clearKind.PlainClear?
      {
      }
    }
  }

  /** The pieces ClearColor goes for: all of them for Any, else those with the colour. */
  predicate Targeted(p: Piece, color: ColorType)
  {
    color == Any || Matches(p, color)
  }

  /** Cell (a, b) holds no piece ClearColor would still go for. */
  ghost predicate Settled(ps: seq<Piece>, c: seq<seq<PieceId>>, a: int, b: int, color: ColorType)
    requires 0 <= a < |c| && 0 <= b < |c[a]|
  {
    PendingPiece(ps, c[a][b]) ==> !Targeted(ps[c[a][b]], color)
  }

  /** A settled cell stays settled across a clear step. */
  lemma StaysColorSettled(ps1: seq<Piece>, c1: seq<seq<PieceId>>, ps2: seq<Piece>, c2: seq<seq<PieceId>>,
                          color: ColorType, a: int, b: int)
    requires ClearStep(ps1, c1, ps2, c2) && 0 <= a < |c1| && 0 <= b < |c1[a]| && Settled(ps1, c1, a, b, color)
    ensures Settled(ps2, c2, a, b, color)
  {
    assert KeptIfPending(ps1, c1[a], ps2, c2[a], b);
  }

  /** The cells whose piece ClearColor goes for. */
  ghost function TargetedCells(cfg: Config, s: Snap, color: ColorType): set<(int, int)>
    requires Shaped(cfg, s)
  {
    set a, b | 0 <= a < cfg.xDim && 0 <= b < cfg.yDim && Targeted(At(cfg, s, a, b), color) :: (a, b)
  }

  /** A cell whose piece ClearColor goes for after a clear step that changed only
      targeted cells was targeted before it. */
  lemma TargetedBefore(cfg: Config, s0: Snap, s1: Snap, color: ColorType, x: int, y: int)
    requires Shaped(cfg, s0) && Shaped(cfg, s1) && InBounds(cfg, x, y)
    requires ClearStep(s0.pieces, s0.cells, s1.pieces, s1.cells) && Untouched(s0.cells, s1.cells, TargetedCells(cfg, s0, color))
    requires Targeted(At(cfg, s1, x, y), color)
    ensures (x, y) in TargetedCells(cfg, s0, color)
  {
    if s1.cells[x][y] == s0.cells[x][y] {
      assert FlaggedOrKept(s0.pieces, s1.pieces, s0.cells[x][y]);
      assert Targeted(At(cfg, s0, x, y), color);
    }
  }

  /** ClearColorColumn's frame, column after column: when the targeted cells were
      sheltered at the start, a column pass from `s1` to `s2` changes only cells that
      were targeted at the start. */
  lemma ColorColumnSheltered(cfg: Config, s0: Snap, s1: Snap, s2: Snap, color: ColorType)
    requires Shaped(cfg, s0) && Shaped(cfg, s1) && Shaped(cfg, s2)
    requires ClearStep(s0.pieces, s0.cells, s1.pieces, s1.cells)
    requires Sheltered(cfg, s0, TargetedCells(cfg, s0, color)) ==> Untouched(s0.cells, s1.cells, TargetedCells(cfg, s0, color))
    requires Sheltered(cfg, s1, TargetedCells(cfg, s1, color)) ==> Untouched(s1.cells, s2.cells, TargetedCells(cfg, s1, color))
    ensures Sheltered(cfg, s0, TargetedCells(cfg, s0, color)) ==> Untouched(s0.cells, s2.cells, TargetedCells(cfg, s0, color))
  {
    var t0, t1 := TargetedCells(cfg, s0, color), TargetedCells(cfg, s1, color);
    if Sheltered(cfg, s0, t0) {
      forall a, b | InBounds(cfg, a, b)
        ensures (a, b) in t1 ==> (a, b) in t0
        ensures At(cfg, s1, a, b).clearable ==> s1.cells[a][b] == s0.cells[a][b]
        ensures s1.cells[a][b] == s0.cells[a][b] ==>
          At(cfg, s1, a, b).clearKind == At(cfg, s0, a, b).clearKind && At(cfg, s1, a, b).clearable == At(cfg, s0, a, b).clearable
          && At(cfg, s1, a, b).kind == At(cfg, s0, a, b).kind && ((a, b) in t1 <==> (a, b) in t0)
      {
        assert FreshIfChanged(s0.pieces, s0.cells, s1.pieces, s1.cells, a, b);
        if s1.cells[a][b] == s0.cells[a][b] {
          assert FlaggedOrKept(s0.pieces, s1.pieces, s0.cells[a][b]);
          assert Targeted(At(cfg, s1, a, b), color) == Targeted(At(cfg, s0, a, b), color);
        }
      }
      assert Sheltered(cfg, s1, t1);
    }
  }

  /** Extending a settled prefix of column x by the cell a clear step just dealt with. */
  lemma ColorCellStep(ps1: seq<Piece>, c1: seq<seq<PieceId>>, ps2: seq<Piece>, c2: seq<seq<PieceId>>,
                      color: ColorType, x: int, y: int, cleared: bool)
    requires ClearStep(ps1, c1, ps2, c2) && 0 <= x < |c1| && 0 <= y < |c1[x]|
    requires forall b | 0 <= b < y :: Settled(ps1, c1, x, b, color)
    requires cleared ==> c2[x][y] != c1[x][y]
    requires !cleared ==> Settled(ps1, c1, x, y, color) && ps2 == ps1 && c2 == c1
    ensures forall b | 0 <= b <= y :: Settled(ps2, c2, x, b, color)
  {
    forall b | 0 <= b <= y ensures Settled(ps2, c2, x, b, color) {
      if b < y {
        StaysColorSettled(ps1, c1, ps2, c2, color, x, b);
      } else if cleared {
        ChangedSettled(ps1, c1, ps2, c2, x, b);
      }
    }
  }

  /** Adding a settled column x to the settled columns before it. */
  lemma ColorColumnStep(ps1: seq<Piece>, c1: seq<seq<PieceId>>, ps2: seq<Piece>, c2: seq<seq<PieceId>>,
                        color: ColorType, x: int)
    requires ClearStep(ps1, c1, ps2, c2) && 0 <= x < |c1| && |c2| == |c1|
    requires forall a, b | 0 <= a < x && 0 <= b < |c1[a]| :: Settled(ps1, c1, a, b, color)
    requires forall b | 0 <= b < |c2[x]| :: Settled(ps2, c2, x, b, color)
    ensures forall a, b | 0 <= a <= x && 0 <= b < |c2[a]| :: Settled(ps2, c2, a, b, color)
  {
    forall a, b | 0 <= a < x && 0 <= b < |c2[a]| ensures Settled(ps2, c2, a, b, color) {
      StaysColorSettled(ps1, c1, ps2, c2, color, a, b);
    }
  }

  /** An entry of initialPieces: a piece type and the cell it starts in. */
  datatype Placement = Placement(kind: PieceType, x: int, y: int)

  /** The type of the last placement aimed at (x, y), if any. */
  function LastPlacement(ps: seq<Placement>, x: int, y: int): Option<PieceType>
  {
    if ps == [] then None
    else if ps[|ps| - 1].x == x && ps[|ps| - 1].y == y then Some(ps[|ps| - 1].kind)
    else LastPlacement(ps[..|ps| - 1], x, y)
  }

  /** The type a cell starts with: its last placement's, or Empty. */
  function InitialKind(ps: seq<Placement>, x: int, y: int): PieceType
  {
    match LastPlacement(ps, x, y)
    case Some(t) => t
    case None => Empty
  }

  /** The placements that lie inside the grid, in order. */
  function Kept(cfg: Config, ps: seq<Placement>): seq<Placement>
  {
    if ps == [] then []
    else
      var last := ps[|ps| - 1];
      Kept(cfg, ps[..|ps| - 1]) + (if InBounds(cfg, last.x, last.y) then [last] else [])
  }

  /** The pieces spawned for a sequence of placements. */
  function SpawnedFor(cfg: Config, ps: seq<Placement>): seq<Piece>
  {
    seq(|ps|, i requires 0 <= i < |ps| => Spawn(cfg.prefab(ps[i].kind), ps[i].x, ps[i].y, ps[i].kind))
  }

  /** One more placement is kept when it lies in bounds. */
  lemma KeptStep(cfg: Config, inits: seq<Placement>, i: int)
    requires 0 <= i < |inits|
    ensures var p := inits[i];
      Kept(cfg, inits[..i + 1]) == Kept(cfg, inits[..i]) + (if InBounds(cfg, p.x, p.y) then [p] else [])
  {
    assert inits[..i + 1][..i] == inits[..i];
  }

  /** Whether cell (x, y) has been reached by a placement, and if so that it holds its piece. */
  ghost predicate PlacedCell(cfg: Config, ps: seq<Piece>, c: seq<seq<PieceId>>, inits: seq<Placement>, reached: bool, x: int, y: int)
  {
    && reached == LastPlacement(inits, x, y).Some?
    && (reached ==> StartsAs(cfg, ps, c, inits, x, y))
  }

  /** A cell the next placement does not aim at keeps its state. */
  lemma PlacedCellKept(cfg: Config, ps: seq<Piece>, c: seq<seq<PieceId>>, ps': seq<Piece>, c': seq<seq<PieceId>>,
                       inits: seq<Placement>, i: int, reached: bool, x: int, y: int)
    requires 0 <= i < |inits| && (inits[i].x != x || inits[i].y != y)
    requires PlacedCell(cfg, ps, c, inits[..i], reached, x, y) && ps <= ps'
    requires 0 <= x < |c| == |c'| && |c[x]| == |c'[x]| && 0 <= y < |c[x]| && c'[x][y] == c[x][y]
    ensures PlacedCell(cfg, ps', c', inits[..i + 1], reached, x, y)
  {
    assert inits[..i + 1][..i] == inits[..i];
    assert LastPlacement(inits[..i + 1], x, y) == LastPlacement(inits[..i], x, y);
  }

  /** The cell the next placement aims at holds the piece spawned for it. */
  lemma PlacedCellSpawned(cfg: Config, ps': seq<Piece>, c': seq<seq<PieceId>>, inits: seq<Placement>, i: int)
    requires 0 <= i < |inits|
    requires var p := inits[i];
      && 0 <= p.x < |c'| && 0 <= p.y < |c'[p.x]| && c'[p.x][p.y] < |ps'|
      && ps'[c'[p.x][p.y]] == Spawn(cfg.prefab(p.kind), p.x, p.y, p.kind)
    ensures PlacedCell(cfg, ps', c', inits[..i + 1], true, inits[i].x, inits[i].y)
  {
    assert inits[..i + 1][|inits[..i + 1]| - 1] == inits[i];
  }

  lemma SpawnedForAppend(cfg: Config, ps: seq<Placement>, p: Placement)
    ensures SpawnedFor(cfg, ps + [p]) == SpawnedFor(cfg, ps) + [Spawn(cfg.prefab(p.kind), p.x, p.y, p.kind)]
  {
  }

  /** Cell (x, y) holds a piece of the type its placements call for, initialised there. */
  ghost predicate StartsAs(cfg: Config, ps: seq<Piece>, c: seq<seq<PieceId>>, inits: seq<Placement>, x: int, y: int)
  {
    && 0 <= x < |c| && 0 <= y < |c[x]| && c[x][y] < |ps|
    && ps[c[x][y]] == Spawn(cfg.prefab(InitialKind(inits, x, y)), x, y, InitialKind(inits, x, y))
  }

  /** Pieces as spawning leaves them: inside the grid, not flagged, and immovable when Empty. */
  ghost predicate FreshPieces(cfg: Config, ps: seq<Piece>)
  {
    && CoordsInBounds(cfg, ps)
    && forall i | 0 <= i < |ps| :: !ps[i].beingCleared && (ps[i].kind == Empty ==> !ps[i].movable)
  }

  lemma StartedShaped(cfg: Config, s: Snap, inits: seq<Placement>)
    requires |s.cells| == cfg.xDim && forall x | 0 <= x < cfg.xDim :: |s.cells[x]| == cfg.yDim
    requires forall x, y | InBounds(cfg, x, y) :: StartsAs(cfg, s.pieces, s.cells, inits, x, y)
    ensures Shaped(cfg, s)
    ensures forall x, y | InBounds(cfg, x, y) ::
      s.pieces[s.cells[x][y]] == Spawn(cfg.prefab(InitialKind(inits, x, y)), x, y, InitialKind(inits, x, y))
  {
    forall x, y | 0 <= x < |s.cells| && 0 <= y < |s.cells[x]| ensures s.cells[x][y] < |s.pieces| {
      assert StartsAs(cfg, s.pieces, s.cells, inits, x, y);
    }
  }

  lemma FreshPiecesValid(cfg: Config, s: Snap)
    requires FreshPieces(cfg, s.pieces)
    ensures CoordsInBounds(cfg, s.pieces) && EmptiesImmovable(s) && LogMatchesFlags([], s.pieces)
  {
  }

  /** Every piece already spawned keeps its cell coordinates and its type. */
  ghost predicate KeepsPlaces(ps1: seq<Piece>, ps2: seq<Piece>)
  {
    && |ps1| <= |ps2|
    && forall i | 0 <= i < |ps1| :: ps2[i].x == ps1[i].x && ps2[i].y == ps1[i].y && ps2[i].kind == ps1[i].kind
  }

  // ----- Where a match's special piece goes -----

  /** ClearPiece cleared the j-th piece of match `m` (`hits[j]`), and it is the pressed or
      the entered piece. */
  predicate EndpointHit(m: seq<PieceId>, hits: seq<bool>, pressed: Option<PieceId>, entered: Option<PieceId>, j: int)
    requires 0 <= j < |hits| <= |m|
  {
    hits[j] && (Some(m[j]) == pressed || Some(m[j]) == entered)
  }

  /** The cell ClearAllValidMatches spawns a match's special piece into once ClearPiece has
      been called on the first |hits| pieces of the match, `hits` saying which calls
      cleared a piece: each cleared pressed or entered piece moves the cell to its own, so
      the last one wins; with none the drawn cell (mx, my) stays. */
  function SpecialCell(ps: seq<Piece>, m: seq<PieceId>, hits: seq<bool>, pressed: Option<PieceId>, entered: Option<PieceId>,
                       mx: int, my: int): (int, int)
    requires |hits| <= |m| && forall i | 0 <= i < |m| :: m[i] < |ps|
  {
    if hits == [] then (mx, my)
    else if EndpointHit(m, hits, pressed, entered, |hits| - 1) then (ps[m[|hits| - 1]].x, ps[m[|hits| - 1]].y)
    else SpecialCell(ps, m, hits[..|hits| - 1], pressed, entered, mx, my)
  }

  /** The special cell is the drawn one when no cleared piece is the pressed or the entered
      one, and otherwise the recorded cell of the last cleared piece that is. */
  lemma {:induction false} SpecialCellIsLastEndpoint(ps: seq<Piece>, m: seq<PieceId>, hits: seq<bool>,
                                                     pressed: Option<PieceId>, entered: Option<PieceId>, mx: int, my: int)
    requires |hits| <= |m| && forall i | 0 <= i < |m| :: m[i] < |ps|
    ensures (forall j | 0 <= j < |hits| :: !EndpointHit(m, hits, pressed, entered, j)) ==>
      SpecialCell(ps, m, hits, pressed, entered, mx, my) == (mx, my)
    ensures (exists j | 0 <= j < |hits| :: EndpointHit(m, hits, pressed, entered, j)) ==>
      exists k | 0 <= k < |hits| ::
        && EndpointHit(m, hits, pressed, entered, k)
        && SpecialCell(ps, m, hits, pressed, entered, mx, my) == (ps[m[k]].x, ps[m[k]].y)
        && forall l | k < l < |hits| :: !EndpointHit(m, hits, pressed, entered, l)
  {
    if hits != [] {
      var n := |hits| - 1;
      var hits' := hits[..n];
      SpecialCellIsLastEndpoint(ps, m, hits', pressed, entered, mx, my);
      assert forall j | 0 <= j < n :: EndpointHit(m, hits, pressed, entered, j) == EndpointHit(m, hits', pressed, entered, j);
      if !EndpointHit(m, hits, pressed, entered, n) && exists j | 0 <= j < |hits| :: EndpointHit(m, hits, pressed, entered, j) {
        var j :| 0 <= j < |hits| && EndpointHit(m, hits, pressed, entered, j);
        assert j < n && EndpointHit(m, hits', pressed, entered, j);
        var k :| 0 <= k < n && EndpointHit(m, hits', pressed, entered, k)
          && SpecialCell(ps, m, hits', pressed, entered, mx, my) == (ps[m[k]].x, ps[m[k]].y)
          && forall l | k < l < n :: !EndpointHit(m, hits', pressed, entered, l);
        assert EndpointHit(m, hits, pressed, entered, k);
      }
    }
  }

  /** SpecialCell over one more piece of the match. */
  lemma SpecialCellStep(ps: seq<Piece>, m: seq<PieceId>, hits: seq<bool>, hit: bool,
                        pressed: Option<PieceId>, entered: Option<PieceId>, mx: int, my: int)
    requires |hits| < |m| && forall i | 0 <= i < |m| :: m[i] < |ps|
    ensures var n := |hits|;
      SpecialCell(ps, m, hits + [hit], pressed, entered, mx, my)
        == if hit && (Some(m[n]) == pressed || Some(m[n]) == entered) then (ps[m[n]].x, ps[m[n]].y)
           else SpecialCell(ps, m, hits, pressed, entered, mx, my)
  {
    assert (hits + [hit])[..|hits|] == hits;
  }

  /** After ClearAllValidMatches' loop has passed the match piece `id`: the cell the piece
      recorded at the start holds no pending piece, and if ClearPiece cleared something
      there (`hit`), it was the cell's piece of the start, which was pending then, and the
      cell now holds a piece spawned since. */
  ghost predicate MatchCellDone(ps0: seq<Piece>, c0: seq<seq<PieceId>>, ps: seq<Piece>, c: seq<seq<PieceId>>, id: PieceId, hit: bool)
  {
    && id < |ps0| && 0 <= ps0[id].x < |c0| == |c| && 0 <= ps0[id].y < |c0[ps0[id].x]| == |c[ps0[id].x]|
    && !PendingPiece(ps, c[ps0[id].x][ps0[id].y])
    && (hit ==> PendingPiece(ps0, c0[ps0[id].x][ps0[id].y]) && c[ps0[id].x][ps0[id].y] >= |ps0|)
  }

  /** The loop over a match has cleared its first |hits| pieces from (ps0, c0) on. */
  ghost predicate MatchPassed(ps0: seq<Piece>, c0: seq<seq<PieceId>>, ps: seq<Piece>, c: seq<seq<PieceId>>, m: seq<PieceId>, hits: seq<bool>)
  {
    && |hits| <= |m| && ClearStep(ps0, c0, ps, c)
    && forall j | 0 <= j < |hits| :: MatchCellDone(ps0, c0, ps, c, m[j], hits[j])
  }

  /** One ClearPiece call of the loop, from (ps1, c1) to (ps2, c2), on the cell the next
      match piece recorded: the cells passed stay done and this one joins them. */
  lemma MatchCellsStep(ps0: seq<Piece>, c0: seq<seq<PieceId>>, ps1: seq<Piece>, c1: seq<seq<PieceId>>,
                       ps2: seq<Piece>, c2: seq<seq<PieceId>>, m: seq<PieceId>, hits: seq<bool>, hit: bool)
    requires MatchPassed(ps0, c0, ps1, c1, m, hits) && ClearStep(ps1, c1, ps2, c2) && |hits| < |m|
    requires var id := m[|hits|];
      && id < |ps0| && 0 <= ps0[id].x < |c0| && 0 <= ps0[id].y < |c0[ps0[id].x]|
      && hit == PendingPiece(ps1, c1[ps0[id].x][ps0[id].y])
      && (hit ==> c2[ps0[id].x][ps0[id].y] >= |ps1|)
      && (!hit ==> ps2 == ps1 && c2 == c1)
    ensures MatchPassed(ps0, c0, ps2, c2, m, hits + [hit])
  {
    ClearStepTrans(ps0, c0, ps1, c1, ps2, c2);
    forall j | 0 <= j <= |hits| ensures MatchCellDone(ps0, c0, ps2, c2, m[j], (hits + [hit])[j]) {
      var x, y := ps0[m[j]].x, ps0[m[j]].y;
      assert FreshIfChanged(ps1, c1, ps2, c2, x, y);
      if j < |hits| {
        StaysSettled(ps1, c1, ps2, c2, x, y);
      } else {
        assert KeptIfPending(ps0, c0[x], ps1, c1[x], y);
        assert FreshIfChanged(ps0, c0, ps1, c1, x, y);
        if hit {
          ChangedSettled(ps1, c1, ps2, c2, x, y);
        }
      }
    }
  }

  /** Every piece already spawned is unchanged or has only been flagged as being cleared. */
  ghost predicate OnlyFlags(ps1: seq<Piece>, ps2: seq<Piece>)
  {
    |ps1| <= |ps2| && forall i | 0 <= i < |ps1| :: FlaggedOrKept(ps1, ps2, i)
  }

  lemma OnlyFlagsTrans(ps1: seq<Piece>, ps2: seq<Piece>, ps3: seq<Piece>)
    requires OnlyFlags(ps1, ps2) && OnlyFlags(ps2, ps3)
    ensures OnlyFlags(ps1, ps3) && KeepsPlaces(ps1, ps3)
  {
    forall i | 0 <= i < |ps1| ensures FlaggedOrKept(ps1, ps3, i) {
      assert FlaggedOrKept(ps1, ps2, i) && FlaggedOrKept(ps2, ps3, i);
    }
    forall i | 0 <= i < |ps1| ensures ps3[i].x == ps1[i].x && ps3[i].y == ps1[i].y && ps3[i].kind == ps1[i].kind {
      assert FlaggedOrKept(ps1, ps3, i);
    }
  }

  lemma OnlyFlagsPlaces(ps1: seq<Piece>, ps2: seq<Piece>, ps3: seq<Piece>)
    requires KeepsPlaces(ps1, ps2) && OnlyFlags(ps2, ps3)
    ensures KeepsPlaces(ps1, ps3)
  {
    forall i | 0 <= i < |ps1| ensures ps3[i].x == ps1[i].x && ps3[i].y == ps1[i].y && ps3[i].kind == ps1[i].kind {
      assert FlaggedOrKept(ps2, ps3, i);
    }
  }

  /** The special piece does not depend on whether the match's first piece is flagged. */
  lemma PromotedIgnoresFlag(cfg: Config, kind: PieceType, x: int, y: int, p: Piece)
    ensures Promoted(cfg, kind, x, y, MarkBeingCleared(p)) == Promoted(cfg, kind, x, y, p)
  {
  }

  class Level {
    const mode: LevelMode
    const display: DisplayController
    var grid: GridController?
    var currentScore: int
    var didWin: bool
    var movesUsed: int
    var obstaclesLeft: int
    /** LevelTimer's elapsed time, in whole seconds. */
    var elapsed: nat
    /** WaitForGridFill coroutines started and not yet finished. */
    var pendingReports: nat

    constructor (mode: LevelMode, display: DisplayController)
      ensures this.mode == mode && this.display == display && grid == null
      ensures currentScore == 0 && !didWin && movesUsed == 0 && obstaclesLeft == 0
      ensures elapsed == 0 && pendingReports == 0
    {
      this.mode := mode;
      this.display := display;
      grid := null;
      currentScore := 0;
      didWin := false;
      movesUsed := 0;
      obstaclesLeft := 0;
      elapsed := 0;
      pendingReports := 0;
    }

    /** Start, as each level type defines it. The base Level shows the score; LevelMoves,
        LevelObstacles and LevelTimer announce their type and show the score, the target
        and the moves or time left. LevelObstacles first adds the number of the grid's
        pieces of each obstacle type to its count, and its target is that count. */
    method Start()
      requires grid != null && grid.Mirrors()
      modifies this`obstaclesLeft, display, display.stars
      ensures display.scoreText == IntToString(currentScore)
      ensures display.currentStarIndex == StarIndex(currentScore, display.thresholds)
      ensures mode.Obstacles? ==>
        obstaclesLeft == old(obstaclesLeft) + ObstacleTotal(grid.cfg, grid.Snapshot(), mode.obstacleTypes)
      ensures !mode.Obstacles? ==> obstaclesLeft == old(obstaclesLeft)
      ensures mode.Plain? ==>
        && display.targetText == old(display.targetText) && display.remainingText == old(display.remainingText)
        && display.targetCaption == old(display.targetCaption) && display.remainingCaption == old(display.remainingCaption)
      ensures mode.Moves? ==>
        && display.targetText == IntToString(mode.targetScore)
        && display.remainingText == IntToString(mode.numMoves - movesUsed)
        && display.targetCaption == "target score" && display.remainingCaption == "moves remaining"
      ensures mode.Obstacles? ==>
        && display.targetText == IntToString(obstaclesLeft) && display.remainingText == IntToString(mode.numMoves)
        && display.targetCaption == "bubbles remaining" && display.remainingCaption == "moves remaining"
      ensures mode.Timer? ==>
        && display.targetText == IntToString(mode.targetScore)
        && display.remainingText == FormatClock(mode.timeInSeconds)
        && display.targetCaption == "target score" && display.remainingCaption == "time remaining"
    {
      match mode {
        case Plain =>
          display.SetScore(currentScore);
        case Moves(numMoves, targetScore) =>
          display.SetLevelType(MovesType);
          display.SetScore(currentScore);
          display.SetTarget(targetScore);
          display.SetRemaining(IntToString(numMoves - movesUsed));
        case Obstacles(numMoves, obstacleTypes) =>
          var i := 0;
          while i < |obstacleTypes|
            invariant 0 <= i <= |obstacleTypes|
            invariant obstaclesLeft == old(obstaclesLeft) + ObstacleTotal(grid.cfg, grid.Snapshot(), obstacleTypes[..i])
          {
            var found := grid.GetPiecesOfType(obstacleTypes[i]);
            obstaclesLeft := obstaclesLeft + |found|;
            assert obstacleTypes[..i + 1][..i] == obstacleTypes[..i];
            i := i + 1;
          }
          assert obstacleTypes[..i] == obstacleTypes;
          display.SetLevelType(ObstacleType);
          display.SetScore(currentScore);
          display.SetTarget(obstaclesLeft);
          display.SetRemaining(IntToString(numMoves));
        case Timer(timeInSeconds, targetScore) =>
          display.SetLevelType(TimerType);
          display.SetScore(currentScore);
          display.SetTarget(targetScore);
          display.SetRemaining(FormatClock(timeInSeconds));
      }
    }

    /** EndGame: stops the grid taking swaps, records the outcome and starts waiting for
        the grid to settle. */
    method EndGame(win: bool)
      requires grid != null
      modifies this`didWin, this`pendingReports, grid`gameOver
      ensures grid.gameOver && didWin == win && pendingReports == old(pendingReports) + 1
    {
      grid.GameOverController();
      didWin := win;
      pendingReports := pendingReports + 1;
    }

    /** OnPieceCleared, with LevelObstacles' override in the obstacle mode. */
    method OnPieceCleared(p: Piece)
      requires grid != null
      modifies this`currentScore, this`obstaclesLeft, this`didWin, this`pendingReports
      modifies display, display.stars, grid`gameOver
      ensures !IsObstacle(mode, p.kind) ==>
        && currentScore == old(currentScore) + p.score
        && obstaclesLeft == old(obstaclesLeft) && didWin == old(didWin)
        && pendingReports == old(pendingReports) && grid.gameOver == old(grid.gameOver)
      ensures IsObstacle(mode, p.kind) ==>
        && obstaclesLeft == old(obstaclesLeft) - 1
        && display.targetText == IntToString(obstaclesLeft)
        && (obstaclesLeft > 0 ==>
              currentScore == old(currentScore) + p.score && didWin == old(didWin)
              && pendingReports == old(pendingReports) && grid.gameOver == old(grid.gameOver))
        && (obstaclesLeft <= 0 ==>
              currentScore == old(currentScore) + p.score + ObstacleBonus(mode.numMoves, movesUsed)
              && didWin && grid.gameOver && pendingReports == old(pendingReports) + 1)
      ensures display.scoreText == IntToString(currentScore)
      ensures display.currentStarIndex == StarIndex(currentScore, display.thresholds)
    {
      currentScore := currentScore + p.score;
      display.SetScore(currentScore);
      if IsObstacle(mode, p.kind) {
        obstaclesLeft := obstaclesLeft - 1;
        display.SetTarget(obstaclesLeft);
        if obstaclesLeft <= 0 {
          currentScore := currentScore + ObstacleBonus(mode.numMoves, movesUsed);
          display.SetScore(currentScore);
          EndGame(true);
        }
      }
    }

    /** OnMove: the base does nothing; LevelMoves and LevelObstacles count the move, show
        the moves left and end the game by MoveVerdict. */
    method OnMove()
      requires grid != null
      modifies this`movesUsed, this`didWin, this`pendingReports, display, grid`gameOver
      ensures mode.Moves? || mode.Obstacles? ==>
        && movesUsed == old(movesUsed) + 1
        && display.remainingText == IntToString(mode.numMoves - movesUsed)
      ensures !(mode.Moves? || mode.Obstacles?) ==> movesUsed == old(movesUsed) && unchanged(display)
      ensures var v := MoveVerdict(mode, movesUsed, currentScore, obstaclesLeft);
        && (v.Some? ==> didWin == v.value && grid.gameOver && pendingReports == old(pendingReports) + 1)
        && (v.None? ==> didWin == old(didWin) && grid.gameOver == old(grid.gameOver) && pendingReports == old(pendingReports))
    {
      if mode.Moves? || mode.Obstacles? {
        movesUsed := movesUsed + 1;
        display.SetRemaining(IntToString(mode.numMoves - movesUsed));
        var v := MoveVerdict(mode, movesUsed, currentScore, obstaclesLeft);
        if v.Some? {
          EndGame(v.value);
        }
      }
    }

    /** LevelTimer.Update for a frame that advances the clock by `delta` whole seconds:
        shows the time left and, once it is out, ends the game by the score. */
    method Update(delta: nat)
      requires grid != null && mode.Timer?
      modifies this`elapsed, this`didWin, this`pendingReports, display, grid`gameOver
      ensures elapsed == old(elapsed) + delta
      ensures display.remainingText == FormatClock(RemainingTime(mode.timeInSeconds, elapsed))
      ensures var v := TimerVerdict(mode.timeInSeconds, elapsed, currentScore, mode.targetScore);
        && (v.Some? ==> didWin == v.value && grid.gameOver && pendingReports == old(pendingReports) + 1)
        && (v.None? ==> didWin == old(didWin) && grid.gameOver == old(grid.gameOver) && pendingReports == old(pendingReports))
    {
      elapsed := elapsed + delta;
      var remaining := RemainingTime(mode.timeInSeconds, elapsed);
      display.SetRemaining(FormatClock(remaining));
      if remaining <= 0 {
        EndGame(currentScore >= mode.targetScore);
      }
    }

    /** One resumption of the pending WaitForGridFill coroutines: once the grid is not
        filling, one of them shows the recorded outcome. */
    method ResumeReport()
      requires grid != null
      modifies this`pendingReports, display
      ensures pendingReports > 0 && !grid.isFilling ==>
        && pendingReports == old(pendingReports) - 1
        && display.shown == old(display.shown) + [if didWin then Won(currentScore, display.currentStarIndex) else Lost]
      ensures !(old(pendingReports) > 0 && !grid.isFilling) ==> pendingReports == old(pendingReports) && unchanged(display)
    {
      if pendingReports > 0 && !grid.isFilling {
        pendingReports := pendingReports - 1;
        if didWin {
          display.OnGameWin(currentScore);
        } else {
          display.OnGameLose();
        }
      }
    }
  }

  class GridController {
    const cfg: Config
    /** The stream Random.Range draws from; `draws` values have been used. */
    const rng: nat -> int
    const level: Level
    /** `_pieces`: the identity of the piece in each cell. */
    const cells: array2<PieceId>
    /** Every piece spawned so far, by identity. */
    var pieces: seq<Piece>
    /** The contents of `cells` as a value. */
    ghost var board: seq<seq<PieceId>>
    var draws: nat
    var inverse: bool
    var pressed: Option<PieceId>
    var entered: Option<PieceId>
    var gameOver: bool
    /** IsFilling, and the number of Fill coroutines started and not yet finished. */
    var isFilling: bool
    var runningFills: nat
    /** The pieces reported to the level as cleared, in order. */
    ghost var clearLog: seq<PieceId>

    /** Awake: spawns the in-bounds initial pieces in order (a later placement on the
        same cell replaces an earlier one), fills every other cell with an Empty piece
        and starts Fill. The inspector link from the level to this grid is made here. */
    constructor (cfg: Config, rng: nat -> int, level: Level, initialPieces: seq<Placement>)
      requires WellFormed(cfg)
      modifies level`grid
      ensures Valid() && fresh(cells)
      ensures this.cfg == cfg && this.rng == rng && this.level == level
      ensures forall x, y | InBounds(cfg, x, y) ::
        pieces[board[x][y]] == Spawn(cfg.prefab(InitialKind(initialPieces, x, y)), x, y, InitialKind(initialPieces, x, y))
      ensures |Kept(cfg, initialPieces)| <= |pieces|
      ensures pieces[..|Kept(cfg, initialPieces)|] == SpawnedFor(cfg, Kept(cfg, initialPieces))
      ensures !inverse && pressed.None? && entered.None? && !gameOver && draws == 0 && clearLog == []
      ensures isFilling && runningFills == 1
    {
      this.cfg := cfg;
      this.rng := rng;
      this.level := level;
      cells := new PieceId[cfg.xDim, cfg.yDim]((_, _) => 0);
      pieces := [];
      board := seq(cfg.xDim, _ => seq(cfg.yDim, _ => 0));
      draws := 0;
      inverse := false;
      pressed := None;
      entered := None;
      gameOver := false;
      clearLog := [];
      isFilling := true;
      runningFills := 1;
      new;
      var filled := PlaceInitial(initialPieces);
      ghost var placed := pieces;
      FillEmpties(filled, initialPieces);
      assert pieces[..|placed|] == placed;
      level.grid := this;
      ValidAtStart(initialPieces);
    }

    /** The state Awake leaves is valid, and every cell holds its initial piece. */
    lemma ValidAtStart(inits: seq<Placement>)
      requires level.grid == this && WellFormed(cfg) && Layout() && FreshPieces(cfg, pieces)
      requires forall a, b | InBounds(cfg, a, b) :: StartsAs(cfg, pieces, board, inits, a, b)
      requires pressed.None? && entered.None? && clearLog == []
      ensures Valid()
      ensures forall x, y | InBounds(cfg, x, y) ::
        pieces[board[x][y]] == Spawn(cfg.prefab(InitialKind(inits, x, y)), x, y, InitialKind(inits, x, y))
    {
      StartedShaped(cfg, Snapshot(), inits);
      FreshPiecesValid(cfg, Snapshot());
    }

    /** Awake's first loop: every in-bounds placement spawns its piece, in order;
        `filled` marks the cells some placement reached. */
    method PlaceInitial(inits: seq<Placement>) returns (filled: array2<bool>)
      requires WellFormed(cfg) && Layout() && pieces == []
      modifies this`pieces, this`board, cells
      ensures fresh(filled) && filled.Length0 == cfg.xDim && filled.Length1 == cfg.yDim
      ensures Layout() && pieces == SpawnedFor(cfg, Kept(cfg, inits)) && FreshPieces(cfg, pieces)
      ensures forall x, y | InBounds(cfg, x, y) :: filled[x, y] == LastPlacement(inits, x, y).Some?
      ensures forall x, y | InBounds(cfg, x, y) && filled[x, y] :: StartsAs(cfg, pieces, board, inits, x, y)
    {
      filled := new bool[cfg.xDim, cfg.yDim]((_, _) => false);
      var i := 0;
      while i < |inits|
        invariant 0 <= i <= |inits|
        invariant Layout() && FreshPieces(cfg, pieces)
        invariant pieces == SpawnedFor(cfg, Kept(cfg, inits[..i]))
        invariant forall x, y | InBounds(cfg, x, y) :: PlacedCell(cfg, pieces, board, inits[..i], filled[x, y], x, y)
      {
        PlaceOne(inits, i, filled);
        i := i + 1;
      }
      assert inits[..i] == inits;
    }

    /** One round of Awake's first loop: placement i spawns its piece when its cell is
        in the grid. */
    method PlaceOne(inits: seq<Placement>, i: int, filled: array2<bool>)
      requires WellFormed(cfg) && 0 <= i < |inits|
      requires filled.Length0 == cfg.xDim && filled.Length1 == cfg.yDim
      requires Layout() && FreshPieces(cfg, pieces)
      requires pieces == SpawnedFor(cfg, Kept(cfg, inits[..i]))
      requires forall x, y | InBounds(cfg, x, y) :: PlacedCell(cfg, pieces, board, inits[..i], filled[x, y], x, y)
      modifies this`pieces, this`board, cells, filled
      ensures Layout() && FreshPieces(cfg, pieces)
      ensures pieces == SpawnedFor(cfg, Kept(cfg, inits[..i + 1]))
      ensures forall x, y | InBounds(cfg, x, y) :: PlacedCell(cfg, pieces, board, inits[..i + 1], filled[x, y], x, y)
    {
      var p := inits[i];
      ghost var ps0, c0 := pieces, board;
      KeptStep(cfg, inits, i);
      SpawnedForAppend(cfg, Kept(cfg, inits[..i]), p);
      if InBounds(cfg, p.x, p.y) {
        var _ := SpawnNewPiece(p.x, p.y, p.kind);
        filled[p.x, p.y] := true;
        PlacedCellSpawned(cfg, pieces, board, inits, i);
      }
      forall x, y | InBounds(cfg, x, y) && (x != p.x || y != p.y)
        ensures PlacedCell(cfg, pieces, board, inits[..i + 1], filled[x, y], x, y)
      {
        PlacedCellKept(cfg, ps0, c0, pieces, board, inits, i, filled[x, y], x, y);
      }
    }

    /** Awake's second loop: every cell no placement reached gets an Empty piece. */
    method FillEmpties(filled: array2<bool>, ghost inits: seq<Placement>)
      requires WellFormed(cfg) && Layout() && FreshPieces(cfg, pieces)
      requires filled.Length0 == cfg.xDim && filled.Length1 == cfg.yDim
      requires forall a, b | InBounds(cfg, a, b) && !filled[a, b] :: LastPlacement(inits, a, b).None?
      requires forall a, b | InBounds(cfg, a, b) && filled[a, b] :: StartsAs(cfg, pieces, board, inits, a, b)
      modifies this`pieces, this`board, cells, filled
      ensures Layout() && FreshPieces(cfg, pieces) && old(pieces) <= pieces
      ensures forall a, b | InBounds(cfg, a, b) :: StartsAs(cfg, pieces, board, inits, a, b)
    {
      var x := 0;
      while x < cfg.xDim
        invariant 0 <= x <= cfg.xDim
        invariant Layout() && FreshPieces(cfg, pieces) && old(pieces) <= pieces
        invariant forall a, b | InBounds(cfg, a, b) && !filled[a, b] :: LastPlacement(inits, a, b).None?
        invariant forall a, b | InBounds(cfg, a, b) && a < x :: filled[a, b]
        invariant forall a, b | InBounds(cfg, a, b) && filled[a, b] :: StartsAs(cfg, pieces, board, inits, a, b)
      {
        FillColumn(filled, inits, x);
        x := x + 1;
      }
    }

    /** One column of Awake's second loop: every cell no placement reached gets an Empty piece. */
    method FillColumn(filled: array2<bool>, ghost inits: seq<Placement>, x: int)
      requires WellFormed(cfg) && Layout() && FreshPieces(cfg, pieces) && 0 <= x < cfg.xDim
      requires filled.Length0 == cfg.xDim && filled.Length1 == cfg.yDim
      requires forall a, b | InBounds(cfg, a, b) && !filled[a, b] :: LastPlacement(inits, a, b).None?
      requires forall a, b | InBounds(cfg, a, b) && filled[a, b] :: StartsAs(cfg, pieces, board, inits, a, b)
      modifies this`pieces, this`board, cells, filled
      ensures Layout() && FreshPieces(cfg, pieces) && old(pieces) <= pieces
      ensures forall a, b | InBounds(cfg, a, b) && !filled[a, b] :: LastPlacement(inits, a, b).None?
      ensures forall a, b | InBounds(cfg, a, b) && filled[a, b] :: StartsAs(cfg, pieces, board, inits, a, b)
      ensures forall a, b | InBounds(cfg, a, b) && (old(filled[a, b]) || a == x) :: filled[a, b]
    {
      var y := 0;
      while y < cfg.yDim
        invariant 0 <= y <= cfg.yDim
        invariant Layout() && FreshPieces(cfg, pieces) && old(pieces) <= pieces
        invariant forall a, b | InBounds(cfg, a, b) && !filled[a, b] :: LastPlacement(inits, a, b).None?
        invariant forall a, b | InBounds(cfg, a, b) && filled[a, b] :: StartsAs(cfg, pieces, board, inits, a, b)
        invariant forall a, b | InBounds(cfg, a, b) && (old(filled[a, b]) || (a == x && b < y)) :: filled[a, b]
      {
        if !filled[x, y] {
          var _ := SpawnNewPiece(x, y, Empty);
          filled[x, y] := true;
        }
        y := y + 1;
      }
    }

    ghost function Snapshot(): Snap
      reads this
    {
      Snap(board, pieces, draws)
    }

    /** The level's tally, with this grid's game-over flag. */
    ghost function Tallied(): Tally
      reads this, level
    {
      Tally(level.currentScore, level.obstaclesLeft, level.didWin, gameOver, level.pendingReports)
    }

    /** The array has the grid's dimensions and holds `board`. */
    ghost predicate Layout()
      reads this, cells
    {
      && cells.Length0 == cfg.xDim && cells.Length1 == cfg.yDim
      && |board| == cfg.xDim && (forall x | 0 <= x < cfg.xDim :: |board[x]| == cfg.yDim)
      && (forall x, y | 0 <= x < cfg.xDim && 0 <= y < cfg.yDim :: cells[x, y] == board[x][y])
    }

    /** ... and every cell names a spawned piece. */
    ghost predicate Mirrors()
      reads this, cells
    {
      Layout() && Shaped(cfg, Snapshot())
    }

    /** The grid's invariant: the array mirrors a well-shaped board, every piece records
        an in-bounds cell and every cell's piece records that very cell, Empty pieces do
        not move, the log lists exactly the flagged pieces, and the selection names
        spawned pieces. */
    ghost predicate Valid()
      reads this, cells, level
    {
      && level.grid == this
      && WellFormed(cfg)
      && Mirrors()
      && CoordsInBounds(cfg, pieces)
      && EmptiesImmovable(Snapshot())
      && LogMatchesFlags(clearLog, pieces)
      && (pressed.Some? ==> pressed.value < |pieces|)
      && (entered.Some? ==> entered.value < |pieces|)
      && Placed(cfg, Snapshot())
    }

    /** Valid without placement, which a swap breaks between writing the two cells and
        moving the two pieces. */
    ghost predicate Sound()
      reads this, cells, level
    {
      && level.grid == this
      && WellFormed(cfg)
      && Mirrors()
      && CoordsInBounds(cfg, pieces)
      && EmptiesImmovable(Snapshot())
      && LogMatchesFlags(clearLog, pieces)
      && (pressed.Some? ==> pressed.value < |pieces|)
      && (entered.Some? ==> entered.value < |pieces|)
    }

    ghost function Pending(): nat
      reads this
    {
      CountPending(pieces, board)
    }

    /** `_pieces[x, y] = id`. */
    method SetCell(x: int, y: int, id: PieceId)
      requires Layout() && InBounds(cfg, x, y)
      modifies this`board, cells
      ensures Layout() && board == Write(old(board), x, y, id)
    {
      cells[x, y] := id;
      board := Write(board, x, y, id);
    }

    /** SpawnNewPiece: a piece of type `t` from its prefab, stored in (x, y) and initialised there. */
    method SpawnNewPiece(x: int, y: int, t: PieceType) returns (id: PieceId)
      requires Layout() && InBounds(cfg, x, y)
      modifies this`pieces, this`board, cells
      ensures Layout() && id == old(|pieces|)
      ensures pieces == old(pieces) + [Spawn(cfg.prefab(t), x, y, t)]
      ensures board == Write(old(board), x, y, id)
      ensures old(Mirrors()) ==> Mirrors() && Snapshot() == SpawnAt(cfg, old(Snapshot()), x, y, t)
    {
      id := |pieces|;
      pieces := pieces + [Spawn(cfg.prefab(t), x, y, t)];
      SetCell(x, y, id);
    }

    /** Spawning an Empty piece keeps the grid valid and is a clear step. */
    lemma SpawnEmptyKeeps(s0: Snap, log: seq<PieceId>, x: int, y: int)
      requires WellFormed(cfg) && Shaped(cfg, s0) && InBounds(cfg, x, y)
      requires CoordsInBounds(cfg, s0.pieces) && EmptiesImmovable(s0) && LogMatchesFlags(log, s0.pieces)
      requires Placed(cfg, s0)
      ensures var s1 := SpawnAt(cfg, s0, x, y, Empty);
        && CoordsInBounds(cfg, s1.pieces) && EmptiesImmovable(s1) && LogMatchesFlags(log, s1.pieces)
        && ClearStep(s0.pieces, s0.cells, s1.pieces, s1.cells) && Placed(cfg, s1)
    {
      var s1 := SpawnAt(cfg, s0, x, y, Empty);
      SpawnKeepsPlaced(cfg, s0, x, y, Empty);
      assert forall i | 0 <= i < |s0.pieces| :: s1.pieces[i] == s0.pieces[i];
    }

    /** RemovablePiece.Clear without the animation: the first call flags the piece and
        reports it to the level; later calls return at once. */
    method BaseClear(id: PieceId)
      requires Valid() && id < |pieces| && pieces[id].clearable
      modifies this`pieces, this`clearLog, this`gameOver, level`currentScore, level`obstaclesLeft, level`didWin, level`pendingReports, level.display, level.display.stars
      ensures Valid() && board == old(board)
      ensures old(pieces[id].beingCleared) ==> pieces == old(pieces) && clearLog == old(clearLog)
      ensures !old(pieces[id].beingCleared) ==>
        pieces == old(pieces)[id := MarkBeingCleared(old(pieces[id]))] && clearLog == old(clearLog) + [id]
      ensures Tallied() == if old(pieces[id].beingCleared) then old(Tallied())
                           else AfterCleared(level.mode, level.movesUsed, old(Tallied()), old(pieces[id]))
    {
      if pieces[id].beingCleared {
        return;
      }
      MarkCleared(id);
      ReportCleared(pieces[id]);
    }

    /** Raises the piece's clear flag and logs it. */
    method MarkCleared(id: PieceId)
      requires Valid() && id < |pieces| && !pieces[id].beingCleared
      modifies this`pieces, this`clearLog
      ensures Valid() && board == old(board)
      ensures pieces == old(pieces)[id := MarkBeingCleared(old(pieces[id]))] && clearLog == old(clearLog) + [id]
    {
      pieces := pieces[id := MarkBeingCleared(pieces[id])];
      clearLog := clearLog + [id];
    }

    /** `level.OnPieceCleared(this)`: only the level's score, obstacles and display and
        the game-over flag change. */
    method ReportCleared(p: Piece)
      requires Valid()
      modifies this`gameOver, level`currentScore, level`obstaclesLeft, level`didWin, level`pendingReports, level.display, level.display.stars
      ensures Valid() && board == old(board) && pieces == old(pieces) && clearLog == old(clearLog)
      ensures Tallied() == AfterCleared(level.mode, level.movesUsed, old(Tallied()), p)
    {
      level.OnPieceCleared(p);
    }

    /** The piece's clearable component's Clear: the base clear, then the detonation of a
        RemoveColumnPiece (its row or column) or a ClearColorPiece (its colour). The
        detonation runs even when the piece was already being cleared. */
    method ClearComponent(id: PieceId, ghost x: int, ghost y: int)
      requires Valid() && id < |pieces| && pieces[id].clearable
      requires !pieces[id].beingCleared ==> InBounds(cfg, x, y) && board[x][y] == id
      modifies this`pieces, this`board, this`clearLog, this`gameOver, cells, level`currentScore, level`obstaclesLeft, level`didWin, level`pendingReports, level.display, level.display.stars
      ensures Valid()
      ensures ClearStep(old(pieces), old(board), pieces, board) && old(clearLog) <= clearLog
      ensures pieces[id].beingCleared
      ensures !old(pieces[id].beingCleared) ==> |clearLog| > old(|clearLog|) && clearLog[old(|clearLog|)] == id
      ensures old(pieces[id].clearKind).PlainClear? ==> board == old(board)
      decreases Pending(), if pieces[id].beingCleared then 5 else 0
    {
      ghost var ps0, b0 := pieces, board;
      FlagPiece(id, x, y);
      ghost var ps1 := pieces;
      var p := pieces[id];
      match p.clearKind {
        case PlainClear =>
        case LineClear(isRow) =>
          if isRow {
            ClearRow(p.y);
          } else {
            ClearColumn(p.x);
          }
          ClearStepTrans(ps0, b0, ps1, b0, pieces, board);
        case ColorClear(c) =>
          ClearColor(c);
          ClearStepTrans(ps0, b0, ps1, b0, pieces, board);
      }
    }

    /** BaseClear as a clear step: the piece ends up flagged, and a pending piece's
        flag lowers the pending count. */
    method FlagPiece(id: PieceId, ghost x: int, ghost y: int)
      requires Valid() && id < |pieces| && pieces[id].clearable
      requires !pieces[id].beingCleared ==> InBounds(cfg, x, y) && board[x][y] == id
      modifies this`pieces, this`clearLog, this`gameOver, level`currentScore, level`obstaclesLeft, level`didWin, level`pendingReports, level.display, level.display.stars
      ensures Valid() && board == old(board) && |pieces| == old(|pieces|)
      ensures pieces[id].beingCleared && pieces[id].clearKind == old(pieces[id].clearKind)
      ensures ClearStep(old(pieces), old(board), pieces, board)
      ensures old(pieces[id].beingCleared) ==> pieces == old(pieces) && clearLog == old(clearLog)
      ensures !old(pieces[id].beingCleared) ==> clearLog == old(clearLog) + [id] && Pending() < old(Pending())
    {
      ghost var flagged := pieces[id].beingCleared;
      ghost var ps0, b0 := pieces, board;
      BaseClear(id);
      assert ClearStep(ps0, b0, pieces, board) by {
        assert forall i | 0 <= i < |ps0| && i != id :: pieces[i] == ps0[i];
      }
      if !flagged {
        assert PendingPiece(ps0, b0[x][y]) && !PendingPiece(pieces, board[x][y]);
        CountPendingMono(ps0, b0, pieces, board);
      }
    }

    /** The clear-and-refill that ClearPiece and ClearObstacles both perform on a cell:
        the piece's clearable component is cleared and an Empty piece takes the cell. */
    method ClearAndReplace(x: int, y: int)
      requires Valid() && InBounds(cfg, x, y) && pieces[board[x][y]].clearable
      modifies this`pieces, this`board, this`clearLog, this`gameOver, cells, level`currentScore, level`obstaclesLeft, level`didWin, level`pendingReports, level.display, level.display.stars
      ensures Valid()
      ensures ClearStep(old(pieces), old(board), pieces, board) && old(clearLog) <= clearLog
      ensures old(|pieces|) <= board[x][y] && pieces[board[x][y]].kind == Empty
      ensures !old(pieces[board[x][y]].beingCleared) ==>
        |clearLog| > old(|clearLog|) && clearLog[old(|clearLog|)] == old(board[x][y]) && Pending() < old(Pending())
      ensures old(pieces[board[x][y]].clearKind).PlainClear? ==>
        forall a, b | InBounds(cfg, a, b) && (a != x || b != y) :: board[a][b] == old(board[a][b])
      decreases Pending(), if pieces[board[x][y]].beingCleared then 6 else 1
    {
      ghost var ps0, b0 := pieces, board;
      var id := cells[x, y];
      ClearComponent(id, x, y);
      ghost var ps1, b1 := pieces, board;
      SpawnEmpty(x, y);
      ClearStepTrans(ps0, b0, ps1, b1, pieces, board);
      if !ps0[id].beingCleared {
        assert PendingPiece(ps0, b0[x][y]) && !PendingPiece(pieces, board[x][y]);
        CountPendingMono(ps0, b0, pieces, board);
      }
    }

    /** `SpawnNewPiece(x, y, PieceType.Empty)` after a clear: the cell gets a fresh Empty
        piece, which is never pending, and nothing else changes. */
    method SpawnEmpty(x: int, y: int)
      requires Valid() && InBounds(cfg, x, y)
      modifies this`pieces, this`board, cells
      ensures Valid() && ClearStep(old(pieces), old(board), pieces, board)
      ensures board[x][y] == old(|pieces|) && pieces[board[x][y]].kind == Empty && !PendingPiece(pieces, board[x][y])
      ensures forall a, b | InBounds(cfg, a, b) && (a != x || b != y) :: board[a][b] == old(board[a][b])
    {
      ghost var s0 := Snapshot();
      var _ := SpawnNewPiece(x, y, Empty);
      SpawnEmptyKeeps(s0, clearLog, x, y);
    }

    /** ClearPiece: a piece that is clearable and not already being cleared is cleared,
        its cell gets an Empty piece and the Bubbles around the cell are cleared too. */
    method ClearPiece(x: int, y: int) returns (cleared: bool)
      requires Valid() && InBounds(cfg, x, y)
      modifies this`pieces, this`board, this`clearLog, this`gameOver, cells, level`currentScore, level`obstaclesLeft, level`didWin, level`pendingReports, level.display, level.display.stars
      ensures Valid()
      ensures ClearStep(old(pieces), old(board), pieces, board) && old(clearLog) <= clearLog
      ensures cleared == old(PendingPiece(pieces, board[x][y]))
      ensures !cleared ==> pieces == old(pieces) && board == old(board) && clearLog == old(clearLog)
      ensures cleared ==>
        && |clearLog| > old(|clearLog|) && clearLog[old(|clearLog|)] == old(board[x][y])
        && old(|pieces|) <= board[x][y] && pieces[board[x][y]].kind == Empty
      ensures cleared ==>
        forall a, b | InBounds(cfg, a, b) && Orthogonal(x, y, a, b) && BubbleIn(old(pieces), old(board), a, b) ::
          board[a][b] >= old(|pieces|)
      ensures cleared && old(pieces[board[x][y]].clearKind).PlainClear? && QuietNeighbours(cfg, old(Snapshot()), x, y) ==>
        forall a, b | InBounds(cfg, a, b) && (a != x || b != y) && !(Orthogonal(x, y, a, b) && BubbleIn(old(pieces), old(board), a, b)) ::
          board[a][b] == old(board)[a][b]
      decreases Pending(), 2
    {
      var id := cells[x, y];
      if !pieces[id].clearable || pieces[id].beingCleared {
        return false;
      }
      ghost var s0 := Snapshot();
      ghost var ps0, b0 := pieces, board;
      ClearAndReplace(x, y);
      ghost var s1 := Snapshot();
      ghost var ps1, b1 := pieces, board;
      ClearObstacles(x, y);
      ClearStepTrans(ps0, b0, ps1, b1, pieces, board);
      PieceCleared(cfg, s0, s1, pieces, board, x, y);
      assert FreshIfChanged(ps1, b1, pieces, board, x, y);
      if board[x][y] == b1[x][y] {
        assert FlaggedOrKept(ps1, pieces, b1[x][y]);
      }
      cleared := true;
    }

    /** ClearObstacles: every orthogonal neighbour holding a clearable Bubble is cleared
        and replaced by an Empty piece, the horizontal ones first. */
    method ClearObstacles(x: int, y: int)
      requires Valid() && InBounds(cfg, x, y)
      modifies this`pieces, this`board, this`clearLog, this`gameOver, cells, level`currentScore, level`obstaclesLeft, level`didWin, level`pendingReports, level.display, level.display.stars
      ensures Valid()
      ensures ClearStep(old(pieces), old(board), pieces, board) && old(clearLog) <= clearLog
      ensures forall a, b | InBounds(cfg, a, b) && Orthogonal(x, y, a, b) && BubbleIn(old(pieces), old(board), a, b) ::
        board[a][b] >= old(|pieces|)
      ensures QuietNeighbours(cfg, old(Snapshot()), x, y) ==>
        forall a, b | InBounds(cfg, a, b) && !(Orthogonal(x, y, a, b) && BubbleIn(old(pieces), old(board), a, b)) ::
          board[a][b] == old(board)[a][b]
      decreases Pending(), 9
    {
      ghost var s0 := Snapshot();
      ghost var quiet := QuietNeighbours(cfg, s0, x, y);
      ClearStepRefl(pieces, board);
      ClearAcross(x, y, s0, quiet);
      ClearAlong(x, y, s0, quiet);
      ObstaclesCleared(cfg, s0.pieces, s0.cells, board, x, y);
      if quiet {
        ObstaclesQuiet(cfg, s0.pieces, s0.cells, board, x, y);
      }
    }

    /** The first loop of ClearObstacles: the neighbours left and right of (x, y). */
    method ClearAcross(x: int, y: int, ghost s0: Snap, ghost quiet: bool)
      requires Valid() && InBounds(cfg, x, y) && Shaped(cfg, s0)
      requires ClearStep(s0.pieces, s0.cells, pieces, board) && Replaced(s0.pieces, s0.cells, board, {})
      requires quiet ==> QuietNeighbours(cfg, s0, x, y) && Untouched(s0.cells, board, Bubbles(s0.pieces, s0.cells, {}))
      modifies this`pieces, this`board, this`clearLog, this`gameOver, cells, level`currentScore, level`obstaclesLeft, level`didWin, level`pendingReports, level.display, level.display.stars
      ensures Valid()
      ensures ClearStep(s0.pieces, s0.cells, pieces, board) && old(clearLog) <= clearLog && Pending() <= old(Pending())
      ensures Replaced(s0.pieces, s0.cells, board, Visited(cfg, x, y, x + 2, y - 1))
      ensures quiet ==> Untouched(s0.cells, board, Bubbles(s0.pieces, s0.cells, Visited(cfg, x, y, x + 2, y - 1)))
      decreases Pending(), 8
    {
      var adjX := x - 1;
      assert Visited(cfg, x, y, adjX, y - 1) == {};
      while adjX <= x + 1
        invariant x - 1 <= adjX <= x + 2
        invariant Valid()
        invariant ClearStep(s0.pieces, s0.cells, pieces, board) && old(clearLog) <= clearLog && Pending() <= old(Pending())
        invariant Replaced(s0.pieces, s0.cells, board, Visited(cfg, x, y, adjX, y - 1))
        invariant quiet ==> Untouched(s0.cells, board, Bubbles(s0.pieces, s0.cells, Visited(cfg, x, y, adjX, y - 1)))
        decreases x + 1 - adjX
      {
        VisitNextColumn(cfg, x, y, adjX);
        if adjX != x && 0 <= adjX < cfg.xDim {
          ClearNeighbour(adjX, y, s0, quiet, x, y, Visited(cfg, x, y, adjX, y - 1), Visited(cfg, x, y, adjX + 1, y - 1));
        }
        adjX := adjX + 1;
      }
    }

    /** The second loop of ClearObstacles: the neighbours below and above (x, y). */
    method ClearAlong(x: int, y: int, ghost s0: Snap, ghost quiet: bool)
      requires Valid() && InBounds(cfg, x, y) && Shaped(cfg, s0)
      requires ClearStep(s0.pieces, s0.cells, pieces, board) && Replaced(s0.pieces, s0.cells, board, Visited(cfg, x, y, x + 2, y - 1))
      requires quiet ==> QuietNeighbours(cfg, s0, x, y) && Untouched(s0.cells, board, Bubbles(s0.pieces, s0.cells, Visited(cfg, x, y, x + 2, y - 1)))
      modifies this`pieces, this`board, this`clearLog, this`gameOver, cells, level`currentScore, level`obstaclesLeft, level`didWin, level`pendingReports, level.display, level.display.stars
      ensures Valid()
      ensures ClearStep(s0.pieces, s0.cells, pieces, board) && old(clearLog) <= clearLog && Pending() <= old(Pending())
      ensures Replaced(s0.pieces, s0.cells, board, Visited(cfg, x, y, x + 2, y + 2))
      ensures quiet ==> Untouched(s0.cells, board, Bubbles(s0.pieces, s0.cells, Visited(cfg, x, y, x + 2, y + 2)))
      decreases Pending(), 8
    {
      var adjY := y - 1;
      while adjY <= y + 1
        invariant y - 1 <= adjY <= y + 2
        invariant Valid()
        invariant ClearStep(s0.pieces, s0.cells, pieces, board) && old(clearLog) <= clearLog && Pending() <= old(Pending())
        invariant Replaced(s0.pieces, s0.cells, board, Visited(cfg, x, y, x + 2, adjY))
        invariant quiet ==> Untouched(s0.cells, board, Bubbles(s0.pieces, s0.cells, Visited(cfg, x, y, x + 2, adjY)))
        decreases y + 1 - adjY
      {
        VisitNextRow(cfg, x, y, adjY);
        if adjY != y && 0 <= adjY < cfg.yDim {
          ClearNeighbour(x, adjY, s0, quiet, x, y, Visited(cfg, x, y, x + 2, adjY), Visited(cfg, x, y, x + 2, adjY + 1));
        }
        adjY := adjY + 1;
      }
    }

    /** The body of ClearObstacles' loops for the neighbour (a, b) of (x, y): a clearable
        Bubble there is cleared and replaced by an Empty piece. The ghost parameters carry
        the loops' bookkeeping: the state `s0` ClearObstacles started from, the neighbours
        `done` before this one and `after` it, and whether all neighbouring Bubbles are plain. */
    method ClearNeighbour(a: int, b: int, ghost s0: Snap, ghost quiet: bool, ghost x: int, ghost y: int,
                          ghost done: set<(int, int)>, ghost after: set<(int, int)>)
      requires Valid() && InBounds(cfg, a, b)
      requires Shaped(cfg, s0) && ClearStep(s0.pieces, s0.cells, pieces, board) && Replaced(s0.pieces, s0.cells, board, done)
      requires Orthogonal(x, y, a, b) && (a, b) !in done && after == done + {(a, b)}
      requires quiet ==> QuietNeighbours(cfg, s0, x, y) && Untouched(s0.cells, board, Bubbles(s0.pieces, s0.cells, done))
      modifies this`pieces, this`board, this`clearLog, this`gameOver, cells, level`currentScore, level`obstaclesLeft, level`didWin, level`pendingReports, level.display, level.display.stars
      ensures Valid()
      ensures ClearStep(s0.pieces, s0.cells, pieces, board) && old(clearLog) <= clearLog
      ensures Replaced(s0.pieces, s0.cells, board, after)
      ensures quiet ==> Untouched(s0.cells, board, Bubbles(s0.pieces, s0.cells, after))
      ensures Pending() <= old(Pending())
      decreases Pending(), 7
    {
      ghost var ps1, b1 := pieces, board;
      var neighbor := cells[a, b];
      if pieces[neighbor].kind == Bubble && pieces[neighbor].clearable {
        ClearAndReplace(a, b);
      } else {
        ClearStepRefl(pieces, board);
      }
      CountPendingMono(ps1, b1, pieces, board);
      NeighbourDone(cfg, s0, ps1, b1, pieces, board, quiet, x, y, a, b, done, after);
    }

    /** ClearRow: ClearPiece on every cell of the row, left to right. Afterwards no cell
        of the row holds a piece still waiting to be cleared. */
    method ClearRow(row: int)
      requires Valid() && 0 <= row < cfg.yDim
      modifies this`pieces, this`board, this`clearLog, this`gameOver, cells, level`currentScore, level`obstaclesLeft, level`didWin, level`pendingReports, level.display, level.display.stars
      ensures Valid()
      ensures ClearStep(old(pieces), old(board), pieces, board) && old(clearLog) <= clearLog
      ensures forall x | 0 <= x < cfg.xDim :: !PendingPiece(pieces, board[x][row])
      ensures Sheltered(cfg, old(Snapshot()), RowCells(cfg, row)) ==> Untouched(old(board), board, RowCells(cfg, row))
      decreases Pending(), 4
    {
      ghost var s0 := Snapshot();
      ghost var ps0, b0 := pieces, board;
      ghost var sheltered := Sheltered(cfg, s0, RowCells(cfg, row));
      ClearStepRefl(ps0, b0);
      var x := 0;
      while x < cfg.xDim
        invariant 0 <= x <= cfg.xDim
        invariant Valid()
        invariant ClearStep(ps0, b0, pieces, board) && old(clearLog) <= clearLog
        invariant forall a | 0 <= a < x :: !PendingPiece(pieces, board[a][row])
        invariant sheltered ==> Untouched(b0, board, RowCells(cfg, row))
      {
        CountPendingMono(ps0, b0, pieces, board);
        ClearRowCell(x, row, s0);
        x := x + 1;
      }
    }

    /** The body of ClearRow's loop for the cell (x, row), from the state `s0` ClearRow
        started from: the cells left of x hold no pending piece, and neither does (x, row)
        after the call. */
    method ClearRowCell(x: int, row: int, ghost s0: Snap)
      requires Valid() && 0 <= x < cfg.xDim && 0 <= row < cfg.yDim && Shaped(cfg, s0)
      requires ClearStep(s0.pieces, s0.cells, pieces, board)
      requires forall a | 0 <= a < x :: !PendingPiece(pieces, board[a][row])
      requires Sheltered(cfg, s0, RowCells(cfg, row)) ==> Untouched(s0.cells, board, RowCells(cfg, row))
      modifies this`pieces, this`board, this`clearLog, this`gameOver, cells, level`currentScore, level`obstaclesLeft, level`didWin, level`pendingReports, level.display, level.display.stars
      ensures Valid()
      ensures ClearStep(s0.pieces, s0.cells, pieces, board) && old(clearLog) <= clearLog
      ensures forall a | 0 <= a <= x :: !PendingPiece(pieces, board[a][row])
      ensures Sheltered(cfg, s0, RowCells(cfg, row)) ==> Untouched(s0.cells, board, RowCells(cfg, row))
      decreases Pending(), 3
    {
      ghost var s1 := Snapshot();
      ghost var ps1, b1 := pieces, board;
      var cleared := ClearPiece(x, row);
      ClearStepTrans(s0.pieces, s0.cells, ps1, b1, pieces, board);
      RowStep(ps1, b1, pieces, board, row, x, cleared);
      ShelteredStep(cfg, s0, s1, Snapshot(), RowCells(cfg, row), x, row, cleared);
    }

    /** ClearColumn: ClearPiece on every cell of the column, top to bottom. */
    method ClearColumn(column: int)
      requires Valid() && 0 <= column < cfg.xDim
      modifies this`pieces, this`board, this`clearLog, this`gameOver, cells, level`currentScore, level`obstaclesLeft, level`didWin, level`pendingReports, level.display, level.display.stars
      ensures Valid()
      ensures ClearStep(old(pieces), old(board), pieces, board) && old(clearLog) <= clearLog
      ensures forall y | 0 <= y < cfg.yDim :: !PendingPiece(pieces, board[column][y])
      ensures Sheltered(cfg, old(Snapshot()), ColumnCells(cfg, column)) ==> Untouched(old(board), board, ColumnCells(cfg, column))
      decreases Pending(), 4
    {
      ghost var s0 := Snapshot();
      ghost var ps0, b0 := pieces, board;
      ghost var sheltered := Sheltered(cfg, s0, ColumnCells(cfg, column));
      ClearStepRefl(ps0, b0);
      var y := 0;
      while y < cfg.yDim
        invariant 0 <= y <= cfg.yDim
        invariant Valid()
        invariant ClearStep(ps0, b0, pieces, board) && old(clearLog) <= clearLog
        invariant forall b | 0 <= b < y :: !PendingPiece(pieces, board[column][b])
        invariant sheltered ==> Untouched(b0, board, ColumnCells(cfg, column))
      {
        ghost var s1 := Snapshot();
        ghost var ps1, b1 := pieces, board;
        CountPendingMono(ps0, b0, ps1, b1);
        var cleared := ClearPiece(column, y);
        ShelteredStep(cfg, s0, s1, Snapshot(), ColumnCells(cfg, column), column, y, cleared);
        ClearStepTrans(ps0, b0, ps1, b1, pieces, board);
        ColumnStep(ps1, b1, pieces, board, column, y, cleared);
        y := y + 1;
      }
    }

    /** ClearColor: ClearPiece on every cell whose piece has the colour, or on every cell
        for Any, column by column. Afterwards no targeted piece is left waiting to be cleared. */
    method ClearColor(color: ColorType)
      requires Valid()
      modifies this`pieces, this`board, this`clearLog, this`gameOver, cells, level`currentScore, level`obstaclesLeft, level`didWin, level`pendingReports, level.display, level.display.stars
      ensures Valid()
      ensures ClearStep(old(pieces), old(board), pieces, board) && old(clearLog) <= clearLog
      ensures forall a, b | InBounds(cfg, a, b) :: Settled(pieces, board, a, b, color)
      ensures Sheltered(cfg, old(Snapshot()), TargetedCells(cfg, old(Snapshot()), color)) ==>
        Untouched(old(board), board, TargetedCells(cfg, old(Snapshot()), color))
      decreases Pending(), 4
    {
      ghost var s0 := Snapshot();
      ghost var ps0, b0 := pieces, board;
      ClearStepRefl(ps0, b0);
      var x := 0;
      while x < cfg.xDim
        invariant 0 <= x <= cfg.xDim
        invariant Valid()
        invariant ClearStep(ps0, b0, pieces, board) && old(clearLog) <= clearLog
        invariant forall a, b | 0 <= a < x && 0 <= b < cfg.yDim :: Settled(pieces, board, a, b, color)
        invariant Sheltered(cfg, s0, TargetedCells(cfg, s0, color)) ==> Untouched(b0, board, TargetedCells(cfg, s0, color))
      {
        ghost var s1 := Snapshot();
        ghost var ps1, b1 := pieces, board;
        CountPendingMono(ps0, b0, ps1, b1);
        ClearColorColumn(color, x);
        ColorColumnSheltered(cfg, s0, s1, Snapshot(), color);
        ClearStepTrans(ps0, b0, ps1, b1, pieces, board);
        ColorColumnStep(ps1, b1, pieces, board, color, x);
        x := x + 1;
      }
    }

    /** The inner loop of ClearColor, over column x from top to bottom. */
    method ClearColorColumn(color: ColorType, x: int)
      requires Valid() && 0 <= x < cfg.xDim
      modifies this`pieces, this`board, this`clearLog, this`gameOver, cells, level`currentScore, level`obstaclesLeft, level`didWin, level`pendingReports, level.display, level.display.stars
      ensures Valid()
      ensures ClearStep(old(pieces), old(board), pieces, board) && old(clearLog) <= clearLog
      ensures forall b | 0 <= b < cfg.yDim :: Settled(pieces, board, x, b, color)
      ensures Sheltered(cfg, old(Snapshot()), TargetedCells(cfg, old(Snapshot()), color)) ==>
        Untouched(old(board), board, TargetedCells(cfg, old(Snapshot()), color))
      decreases Pending(), 3
    {
      ghost var s0 := Snapshot();
      ghost var ps0, b0 := pieces, board;
      ghost var area := TargetedCells(cfg, s0, color);
      ClearStepRefl(ps0, b0);
      var clearAny := color == Any;
      var y := 0;
      while y < cfg.yDim
        invariant 0 <= y <= cfg.yDim
        invariant Valid()
        invariant ClearStep(ps0, b0, pieces, board) && old(clearLog) <= clearLog
        invariant forall b | 0 <= b < y :: Settled(pieces, board, x, b, color)
        invariant Sheltered(cfg, s0, area) ==> Untouched(b0, board, area)
      {
        var piece := pieces[cells[x, y]];
        ghost var s1 := Snapshot();
        ghost var ps1, b1 := pieces, board;
        var cleared := false;
        if clearAny || (piece.colored && piece.color == color) {
          CountPendingMono(ps0, b0, ps1, b1);
          if Sheltered(cfg, s0, area) {
            TargetedBefore(cfg, s0, s1, color, x, y);
          }
          cleared := ClearPiece(x, y);
          ShelteredStep(cfg, s0, s1, Snapshot(), area, x, y, cleared);
          ClearStepTrans(ps0, b0, ps1, b1, pieces, board);
        } else {
          ClearStepRefl(ps1, b1);
        }
        ColorCellStep(ps1, b1, pieces, board, color, x, y, cleared);
        y := y + 1;
      }
    }

    // ----- Gravity -----

    /** The upward scan of FillStep's diagonal check in column cx, from row ay. */
    method PieceAbove(cx: int, ay: int) returns (above: bool)
      requires Mirrors() && 0 <= cx < cfg.xDim && 0 <= ay < cfg.yDim
      ensures above == HasPieceAbove(cfg, Snapshot(), cx, ay)
    {
      above := true;
      var aboveY := ay;
      while aboveY >= 0
        invariant -1 <= aboveY <= ay
        invariant HasPieceAbove(cfg, Snapshot(), cx, ay) == HasPieceAbove(cfg, Snapshot(), cx, aboveY)
      {
        var p := pieces[cells[cx, aboveY]];
        if p.movable {
          return;
        }
        if p.kind != Empty {
          above := false;
          return;
        }
        aboveY := aboveY - 1;
      }
    }

    /** The piece in (x, y) moves to (tx, ty), whose Empty piece is dropped, and an Empty
        piece is spawned in (x, y). */
    method MovePiece(x: int, y: int, tx: int, ty: int)
      requires Mirrors() && InBounds(cfg, x, y) && InBounds(cfg, tx, ty) && (x != tx || y != ty)
      requires pieces[board[x][y]].movable
      modifies this`pieces, this`board, cells
      ensures Mirrors()
      ensures Snapshot() == Relocate(cfg, old(Snapshot()), x, y, tx, ty)
    {
      var id := cells[x, y];
      pieces := pieces[id := Move(pieces[id], tx, ty)];
      SetCell(tx, ty, id);
      var _ := SpawnNewPiece(x, y, Empty);
    }

    /** The body of FillStep's inner loop: the piece in (x, y), if movable, falls into an
        Empty cell below or else slides into the first diagonal cell that allows it. */
    method StepPiece(x: int, y: int) returns (moved: bool)
      requires Mirrors() && InBounds(cfg, x, y) && y + 1 < cfg.yDim
      modifies this`pieces, this`board, cells
      ensures Mirrors()
      ensures Stepped(Snapshot(), moved) == StepCell(cfg, old(Snapshot()), x, y, inverse)
    {
      moved := false;
      var piece := pieces[cells[x, y]];
      if !piece.movable {
        return;
      }
      if pieces[cells[x, y + 1]].kind == Empty {
        MovePiece(x, y, x, y + 1);
        moved := true;
        return;
      }
      moved := SlideDiagonal(x, y);
    }

    /** FillStep's diagonal attempts for the piece in (x, y): the offsets -1 and +1 in
        that order, mirrored when `inverse`. */
    method SlideDiagonal(x: int, y: int) returns (moved: bool)
      requires Mirrors() && InBounds(cfg, x, y) && y + 1 < cfg.yDim
      requires pieces[board[x][y]].movable && pieces[board[x][y + 1]].kind != Empty
      modifies this`pieces, this`board, cells
      ensures Mirrors()
      ensures Stepped(Snapshot(), moved) == TryDiagonal(cfg, old(Snapshot()), x, y, inverse, 0)
    {
      ghost var s0 := Snapshot();
      moved := false;
      var k := 0;
      while k < 2
        invariant 0 <= k <= 2
        invariant Mirrors() && Snapshot() == s0
        invariant TryDiagonal(cfg, s0, x, y, inverse, 0) == TryDiagonal(cfg, s0, x, y, inverse, k)
      {
        moved := TryDiagonalAt(x, y, k);
        if moved {
          return;
        }
        k := k + 1;
      }
    }

    /** The k-th diagonal attempt: the diagonal cell must be in the grid and Empty, and
        its column blocked from above. */
    method TryDiagonalAt(x: int, y: int, k: nat) returns (moved: bool)
      requires Mirrors() && InBounds(cfg, x, y) && y + 1 < cfg.yDim && k < 2
      requires pieces[board[x][y]].movable && pieces[board[x][y + 1]].kind != Empty
      modifies this`pieces, this`board, cells
      ensures Mirrors()
      ensures !moved ==> Snapshot() == old(Snapshot())
      ensures !moved ==> TryDiagonal(cfg, old(Snapshot()), x, y, inverse, k) == TryDiagonal(cfg, old(Snapshot()), x, y, inverse, k + 1)
      ensures moved ==> Stepped(Snapshot(), true) == TryDiagonal(cfg, old(Snapshot()), x, y, inverse, k)
    {
      moved := false;
      var diagX := DiagonalX(x, inverse, k);
      if 0 <= diagX < cfg.xDim && pieces[cells[diagX, y + 1]].kind == Empty {
        var hasPieceAbove := PieceAbove(diagX, y);
        if !hasPieceAbove {
          MovePiece(x, y, diagX, y + 1);
          moved := true;
        }
      }
    }

    /** One row of FillStep, its columns in the order `inverse` gives. */
    method StepRow(y: int) returns (moved: bool)
      requires Mirrors() && 0 <= y && y + 1 < cfg.yDim
      modifies this`pieces, this`board, cells
      ensures Mirrors()
      ensures Stepped(Snapshot(), moved) == RowPrefix(cfg, old(Snapshot()), y, inverse, cfg.xDim)
    {
      ghost var s0 := Snapshot();
      moved := false;
      var loopX := 0;
      while loopX < cfg.xDim
        invariant 0 <= loopX <= cfg.xDim
        invariant Mirrors()
        invariant Stepped(Snapshot(), moved) == RowPrefix(cfg, s0, y, inverse, loopX)
      {
        moved := StepRowCell(y, loopX, s0, moved);
        loopX := loopX + 1;
      }
    }

    /** The row loop's body for the loopX-th column it visits. */
    method StepRowCell(y: int, loopX: int, ghost s0: Snap, movedIn: bool) returns (moved: bool)
      requires Mirrors() && 0 <= y && y + 1 < cfg.yDim && 0 <= loopX < cfg.xDim && Shaped(cfg, s0)
      requires Stepped(Snapshot(), movedIn) == RowPrefix(cfg, s0, y, inverse, loopX)
      modifies this`pieces, this`board, cells
      ensures Mirrors()
      ensures Stepped(Snapshot(), moved) == RowPrefix(cfg, s0, y, inverse, loopX + 1)
    {
      var x := ColumnAt(cfg, inverse, loopX);
      ghost var a := Stepped(Snapshot(), movedIn);
      var m := StepPiece(x, y);
      RowPrefixNext(cfg, s0, y, inverse, loopX, a, Stepped(Snapshot(), m));
      moved := movedIn || m;
    }

    /** The refill of cell (x, 0): a Normal piece of a random colour if the cell is Empty. */
    method RefillAt(x: int) returns (moved: bool)
      requires Mirrors() && InBounds(cfg, x, 0)
      modifies this`pieces, this`board, this`draws, cells
      ensures Mirrors()
      ensures Stepped(Snapshot(), moved) == RefillCell(cfg, rng, old(Snapshot()), x)
    {
      moved := false;
      if pieces[cells[x, 0]].kind == Empty {
        var k := Draw(rng, draws, 0, cfg.numColors);
        draws := draws + 1;
        var id := |pieces|;
        pieces := pieces + [RefillPiece(cfg, x, k)];
        SetCell(x, 0, id);
        moved := true;
      }
    }

    /** The top row's refill, left to right. */
    method RefillTop() returns (moved: bool)
      requires Mirrors() && cfg.yDim >= 1
      modifies this`pieces, this`board, this`draws, cells
      ensures Mirrors()
      ensures Stepped(Snapshot(), moved) == RefillPrefix(cfg, rng, old(Snapshot()), cfg.xDim)
    {
      ghost var s0 := Snapshot();
      moved := false;
      var x := 0;
      while x < cfg.xDim
        invariant 0 <= x <= cfg.xDim
        invariant Mirrors()
        invariant Stepped(Snapshot(), moved) == RefillPrefix(cfg, rng, s0, x)
      {
        ghost var a := Stepped(Snapshot(), moved);
        var m := RefillAt(x);
        RefillPrefixNext(cfg, rng, s0, x, a, Stepped(Snapshot(), m));
        moved := moved || m;
        x := x + 1;
      }
    }

    /** FillStep's row loop: the rows from the second-to-last up to the top. */
    method StepRows() returns (moved: bool)
      requires Mirrors() && cfg.yDim >= 1
      modifies this`pieces, this`board, cells
      ensures Mirrors()
      ensures Stepped(Snapshot(), moved) == RowsFrom(cfg, old(Snapshot()), inverse, 0)
    {
      ghost var s0 := Snapshot();
      moved := false;
      var y := cfg.yDim - 1;
      while y > 0
        invariant 0 <= y <= cfg.yDim - 1
        invariant Mirrors()
        invariant Stepped(Snapshot(), moved) == RowsFrom(cfg, s0, inverse, y)
      {
        y := y - 1;
        moved := StepRowsNext(y, s0, moved);
      }
    }

    /** The row loop's body for row y. */
    method StepRowsNext(y: int, ghost s0: Snap, movedIn: bool) returns (moved: bool)
      requires Mirrors() && 0 <= y && y + 1 < cfg.yDim && Shaped(cfg, s0)
      requires Stepped(Snapshot(), movedIn) == RowsFrom(cfg, s0, inverse, y + 1)
      modifies this`pieces, this`board, cells
      ensures Mirrors()
      ensures Stepped(Snapshot(), moved) == RowsFrom(cfg, s0, inverse, y)
    {
      ghost var a := Stepped(Snapshot(), movedIn);
      var m := StepRow(y);
      RowsFromNext(cfg, s0, inverse, y, a, Stepped(Snapshot(), m));
      moved := movedIn || m;
    }

    /** FillStep: the rows fall by one step, then the top row is refilled; the result says
        whether any piece moved or was spawned. */
    method FillStep() returns (moved: bool)
      requires Valid() && cfg.yDim >= 1
      modifies this`pieces, this`board, this`draws, cells
      ensures Valid()
      ensures Stepped(Snapshot(), moved) == Gravity.FillStep(cfg, rng, old(Snapshot()), inverse)
    {
      ghost var s0 := Snapshot();
      moved := FillPhases();
      FillKeepsValid(s0);
    }

    /** FillStep's two phases: the row loop, then the top row's refill. */
    method FillPhases() returns (moved: bool)
      requires Mirrors() && cfg.yDim >= 1
      modifies this`pieces, this`board, this`draws, cells
      ensures Mirrors()
      ensures Stepped(Snapshot(), moved) == Gravity.FillStep(cfg, rng, old(Snapshot()), inverse)
    {
      ghost var s0 := Snapshot();
      var fell := StepRows();
      ghost var mid := Snapshot();
      var refilled := RefillTop();
      moved := fell || refilled;
      FillStepUnfold(cfg, rng, s0, inverse, Stepped(mid, fell), Stepped(Snapshot(), refilled));
    }

    /** A gravity step from a valid grid leaves a valid grid. */
    lemma FillKeepsValid(s0: Snap)
      requires level.grid == this && WellFormed(cfg) && Layout() && cfg.yDim >= 1
      requires Shaped(cfg, s0) && EmptiesImmovable(s0) && CoordsInBounds(cfg, s0.pieces)
      requires LogMatchesFlags(clearLog, s0.pieces) && Placed(cfg, s0)
      requires pressed.Some? ==> pressed.value < |s0.pieces|
      requires entered.Some? ==> entered.value < |s0.pieces|
      requires Snapshot() == Gravity.FillStep(cfg, rng, s0, inverse).snap
      ensures Valid()
    {
      FillStepProperties(cfg, rng, s0, inverse);
      FlagsKeepLog(cfg, s0, Snapshot(), clearLog);
    }

    /** The cell array as a value. */
    function CurrentCells(): (c: seq<seq<PieceId>>)
      reads this, cells
      ensures Layout() ==> c == board
    {
      var c := seq(cells.Length0, x requires 0 <= x < cells.Length0 reads cells =>
        seq(cells.Length1, y requires 0 <= y < cells.Length1 reads cells => cells[x, y]));
      assert Layout() ==> forall x | 0 <= x < |c| :: c[x] == board[x];
      c
    }

    /** Changing pieces without changing their number, coordinates, type, movability or
        clear flag keeps a valid grid valid. */
    lemma RetouchKeepsValid(ps0: seq<Piece>)
      requires level.grid == this && WellFormed(cfg) && Layout() && |pieces| == |ps0|
      requires Shaped(cfg, Snap(board, ps0, draws)) && EmptiesImmovable(Snap(board, ps0, draws))
      requires LogMatchesFlags(clearLog, ps0) && CoordsInBounds(cfg, ps0) && Placed(cfg, Snap(board, ps0, draws))
      requires forall i | 0 <= i < |ps0| ::
        && pieces[i].x == ps0[i].x && pieces[i].y == ps0[i].y
        && pieces[i].kind == ps0[i].kind && pieces[i].movable == ps0[i].movable && pieces[i].beingCleared == ps0[i].beingCleared
      requires pressed.Some? ==> pressed.value < |ps0|
      requires entered.Some? ==> entered.value < |ps0|
      ensures Valid()
    {
      RetouchKeepsSound(ps0);
    }

    /** Changing pieces without changing their number, type, movability or clear flag,
        and keeping their coordinates in bounds, keeps the grid sound. */
    lemma RetouchKeepsSound(ps0: seq<Piece>)
      requires level.grid == this && WellFormed(cfg) && Layout() && |pieces| == |ps0|
      requires Shaped(cfg, Snap(board, ps0, draws)) && EmptiesImmovable(Snap(board, ps0, draws))
      requires LogMatchesFlags(clearLog, ps0) && CoordsInBounds(cfg, pieces)
      requires forall i | 0 <= i < |ps0| ::
        pieces[i].kind == ps0[i].kind && pieces[i].movable == ps0[i].movable && pieces[i].beingCleared == ps0[i].beingCleared
      requires pressed.Some? ==> pressed.value < |ps0|
      requires entered.Some? ==> entered.value < |ps0|
      ensures Sound()
    {
    }

    /** Spawning any piece into a cell keeps a valid grid valid. */
    lemma SpawnKeepsValid(s0: Snap, x: int, y: int, t: PieceType)
      requires level.grid == this && WellFormed(cfg) && Layout() && InBounds(cfg, x, y)
      requires Shaped(cfg, s0) && CoordsInBounds(cfg, s0.pieces) && EmptiesImmovable(s0)
      requires LogMatchesFlags(clearLog, s0.pieces) && Placed(cfg, s0)
      requires pressed.Some? ==> pressed.value < |s0.pieces|
      requires entered.Some? ==> entered.value < |s0.pieces|
      requires Snapshot() == SpawnAt(cfg, s0, x, y, t)
      ensures Valid() && OnlyFlags(s0.pieces, pieces)
    {
      SpawnKeepsPlaced(cfg, s0, x, y, t);
      assert forall i | 0 <= i < |s0.pieces| :: pieces[i] == s0.pieces[i];
    }

    // ----- Queries -----

    /** GetPiecesOfType: the pieces of type `t`, column by column, each from the top. */
    method GetPiecesOfType(t: PieceType) returns (found: seq<PieceId>)
      requires Mirrors()
      ensures found == PiecesOfType(cfg, Snapshot(), t, cfg.xDim)
    {
      found := [];
      var x := 0;
      while x < cfg.xDim
        invariant 0 <= x <= cfg.xDim
        invariant found == PiecesOfType(cfg, Snapshot(), t, x)
      {
        var y := 0;
        while y < cfg.yDim
          invariant 0 <= y <= cfg.yDim
          invariant found == PiecesOfType(cfg, Snapshot(), t, x) + ColumnOfType(cfg, Snapshot(), t, x, y)
        {
          if pieces[cells[x, y]].kind == t {
            found := found + [cells[x, y]];
          }
          y := y + 1;
        }
        x := x + 1;
      }
    }

    // ----- Clearing the matches -----

    /** The loop over one match in ClearAllValidMatches: each piece is cleared at the cell
        it records; when that clears a piece and the match's piece is the pressed or the
        entered one, the special piece's cell becomes that piece's cell. The ghost `hits`
        says which of the ClearPiece calls cleared a piece. */
    method ClearMatchPieces(m: seq<PieceId>, mx: int, my: int) returns (cleared: bool, sx: int, sy: int, ghost hits: seq<bool>)
      requires Valid() && InBounds(cfg, mx, my) && forall i | 0 <= i < |m| :: m[i] < |pieces|
      modifies this`pieces, this`board, this`clearLog, this`gameOver, cells, level`currentScore, level`obstaclesLeft, level`didWin, level`pendingReports, level.display, level.display.stars
      ensures Valid() && InBounds(cfg, sx, sy) && |hits| == |m|
      ensures old(clearLog) <= clearLog && OnlyFlags(old(pieces), pieces) && MatchPassed(old(pieces), old(board), pieces, board, m, hits)
      ensures cleared <==> |clearLog| > old(|clearLog|)
      ensures cleared <==> true in hits
      ensures (sx, sy) == SpecialCell(old(pieces), m, hits, pressed, entered, mx, my)
    {
      cleared, sx, sy, hits := false, mx, my, [];
      ClearStepRefl(pieces, board);
      var i := 0;
      while i < |m|
        invariant 0 <= i <= |m| && |hits| == i
        invariant Valid() && InBounds(cfg, sx, sy)
        invariant old(clearLog) <= clearLog && MatchPassed(old(pieces), old(board), pieces, board, m, hits)
        invariant cleared <==> |clearLog| > old(|clearLog|)
        invariant cleared <==> true in hits
        invariant (sx, sy) == SpecialCell(old(pieces), m, hits, pressed, entered, mx, my)
      {
        cleared, sx, sy, hits := ClearMatchPiece(m, i, mx, my, cleared, sx, sy, old(pieces), old(board), old(clearLog), hits);
        i := i + 1;
      }
    }

    /** The body of ClearMatchPieces' loop for the i-th piece of the match: ClearPiece on
        the cell the piece records and, when that clears the pressed or the entered piece,
        the special cell moved there. The ghost parameters carry the loop's bookkeeping:
        the pieces, cells and clear log the loop started from and the calls made so far. */
    method ClearMatchPiece(m: seq<PieceId>, i: int, mx: int, my: int, cleared: bool, sx: int, sy: int,
                           ghost ps0: seq<Piece>, ghost b0: seq<seq<PieceId>>, ghost log0: seq<PieceId>, ghost hits: seq<bool>)
      returns (nowCleared: bool, nx: int, ny: int, ghost more: seq<bool>)
      requires Valid() && 0 <= i < |m| && |hits| == i && forall j | 0 <= j < |m| :: m[j] < |ps0|
      requires log0 <= clearLog && MatchPassed(ps0, b0, pieces, board, m, hits)
      requires cleared <==> |clearLog| > |log0|
      requires cleared <==> true in hits
      requires (sx, sy) == SpecialCell(ps0, m, hits, pressed, entered, mx, my) && InBounds(cfg, sx, sy)
      modifies this`pieces, this`board, this`clearLog, this`gameOver, cells, level`currentScore, level`obstaclesLeft, level`didWin, level`pendingReports, level.display, level.display.stars
      ensures Valid() && |more| == i + 1 && InBounds(cfg, nx, ny)
      ensures log0 <= clearLog && MatchPassed(ps0, b0, pieces, board, m, more)
      ensures nowCleared <==> |clearLog| > |log0|
      ensures nowCleared <==> true in more
      ensures (nx, ny) == SpecialCell(ps0, m, more, pressed, entered, mx, my)
    {
      ghost var ps1, b1 := pieces, board;
      var c, px, py := ClearRecorded(m[i], ps0);
      MatchCellsStep(ps0, b0, ps1, b1, pieces, board, m, hits, c);
      SpecialCellStep(ps0, m, hits, c, pressed, entered, mx, my);
      nowCleared, nx, ny := cleared, sx, sy;
      if c {
        nowCleared := true;
        if Some(m[i]) == pressed || Some(m[i]) == entered {
          nx, ny := px, py;
        }
      }
      more := hits + [c];
    }

    /** `ClearPiece(gamePiece.X, gamePiece.Y)` for a piece of a match: ClearPiece on the
        cell (x, y) the piece records, the same in `ps0` as now, seen only as a clear step. */
    method ClearRecorded(id: PieceId, ghost ps0: seq<Piece>) returns (cleared: bool, x: int, y: int)
      requires Valid() && id < |ps0| && OnlyFlags(ps0, pieces)
      modifies this`pieces, this`board, this`clearLog, this`gameOver, cells, level`currentScore, level`obstaclesLeft, level`didWin, level`pendingReports, level.display, level.display.stars
      ensures Valid() && old(clearLog) <= clearLog && OnlyFlags(old(pieces), pieces)
      ensures ClearStep(old(pieces), old(board), pieces, board)
      ensures cleared <==> |clearLog| > old(|clearLog|)
      ensures x == ps0[id].x && y == ps0[id].y && InBounds(cfg, x, y)
      ensures cleared == old(PendingPiece(pieces, board[x][y]))
      ensures cleared ==> board[x][y] >= old(|pieces|)
      ensures !cleared ==> pieces == old(pieces) && board == old(board)
    {
      assert FlaggedOrKept(ps0, pieces, id);
      x, y := pieces[id].x, pieces[id].y;
      cleared := ClearPiece(x, y);
    }

    /** The draws made for a match before it is cleared: a random piece of the match,
        whose cell (x, y) the special piece would take, and the special kind; with four
        pieces and no recorded swap the row or column kind is drawn too. */
    method PlanSpecial(m: seq<PieceId>) returns (kind: PieceType, x: int, y: int)
      requires Valid() && |m| >= 1 && forall i | 0 <= i < |m| :: m[i] < |pieces|
      modifies this`draws
      ensures Valid() && InBounds(cfg, x, y)
      ensures var p := pieces[m[Draw(rng, old(draws), 0, |m|)]]; x == p.x && y == p.y
      ensures kind == SpecialKind(|m|, SameRow(pieces, pressed, entered), Draw(rng, old(draws) + 1, 3, 5))
      ensures draws == old(draws) + if |m| == 4 && SameRow(pieces, pressed, entered).None? then 2 else 1
    {
      var r := Draw(rng, draws, 0, |m|);
      draws := draws + 1;
      x, y := pieces[m[r]].x, pieces[m[r]].y;
      kind := Count;
      if |m| >= 5 {
        kind := Rainbow;
      } else if |m| == 4 {
        if pressed.None? || entered.None? {
          // (PieceType)Random.Range((int)RowClear, (int)ColumnClear + 1)
          var roll := Draw(rng, draws, 3, 5);
          draws := draws + 1;
          kind := if roll == 3 then RowClear else ColumnClear;
        } else {
          kind := if pieces[pressed.value].y == pieces[entered.value].y then RowClear else ColumnClear;
        }
      }
    }

    /** The end of a match's clearing: the special piece replaces the piece in cell (x, y),
        painted after the match's first piece `m0` (see Painted). `ps0` is the arena before
        the match was cleared. */
    method SpawnSpecial(kind: PieceType, x: int, y: int, m0: PieceId, ghost ps0: seq<Piece>)
      requires Valid() && InBounds(cfg, x, y) && m0 < |ps0| && OnlyFlags(ps0, pieces)
      modifies this`pieces, this`board, cells
      ensures Valid() && OnlyFlags(ps0, pieces)
      ensures pieces == old(pieces) + [Promoted(cfg, kind, x, y, ps0[m0])]
      ensures board == Write(old(board), x, y, old(|pieces|))
    {
      ghost var s1 := Snapshot();
      var id := SpawnNewPiece(x, y, kind);
      SpawnKeepsValid(s1, x, y, kind);
      OnlyFlagsTrans(ps0, s1.pieces, pieces);
      assert FlaggedOrKept(ps0, pieces, m0);
      PromotedIgnoresFlag(cfg, kind, x, y, ps0[m0]);
      ghost var ps2 := pieces;
      PaintSpecial(id, kind, pieces[m0]);
      forall i | 0 <= i < |ps0| ensures FlaggedOrKept(ps0, pieces, i) {
        assert pieces[i] == ps2[i] && FlaggedOrKept(ps0, ps2, i);
      }
      assert pieces == s1.pieces + [Promoted(cfg, kind, x, y, ps0[m0])];
    }

    /** The colouring of a freshly spawned special piece. */
    method PaintSpecial(id: PieceId, kind: PieceType, first: Piece)
      requires Valid() && id < |pieces|
      modifies this`pieces
      ensures Valid() && pieces == old(pieces)[id := Painted(old(pieces[id]), kind, first)]
    {
      ghost var ps0 := pieces;
      var spawned := pieces[id];
      if (kind == RowClear || kind == ColumnClear) && spawned.colored && first.colored {
        pieces := pieces[id := SetColor(spawned, first.color)];
      } else if kind == Rainbow && spawned.colored {
        pieces := pieces[id := SetColor(spawned, Any)];
      }
      RetouchKeepsValid(ps0);
    }

    /** What clearing match `m` leaves behind, from arena `ps0`, cells `b0` and draw count
        `d0`: one draw for the marking piece and, for four pieces with no selection, one
        for the line direction; every piece of the match was cleared at the cell it
        records, leaving arena `psM` and cells `bM`, with `hits` recording which of the
        ClearPiece calls cleared a piece; a match of three spawns nothing after that; a
        longer match then spawns its special piece, painted after the first piece, into
        the marked cell, moved to the last pressed or entered piece that was cleared (see
        SpecialCell), and nothing else changes. */
    ghost predicate MatchCleared(m: seq<PieceId>, hits: seq<bool>, cleared: bool, ps0: seq<Piece>, b0: seq<seq<PieceId>>, d0: nat,
                                 psM: seq<Piece>, bM: seq<seq<PieceId>>)
      reads this
      requires Shaped(cfg, Snapshot()) && |m| >= 1 && forall i | 0 <= i < |m| :: m[i] < |ps0|
      requires (pressed.Some? ==> pressed.value < |ps0|) && (entered.Some? ==> entered.value < |ps0|)
    {
      var same := SameRow(ps0, pressed, entered);
      var kind := SpecialKind(|m|, same, Draw(rng, d0 + 1, 3, 5));
      && |hits| == |m| && (cleared <==> true in hits)
      && draws == d0 + (if |m| == 4 && same.None? then 2 else 1)
      && MatchPassed(ps0, b0, psM, bM, m, hits)
      && (kind == Count ==> pieces == psM && board == bM)
      && (kind != Count ==>
            var p := ps0[m[Draw(rng, d0, 0, |m|)]];
            var c := SpecialCell(ps0, m, hits, pressed, entered, p.x, p.y);
            && InBounds(cfg, c.0, c.1) && 0 <= c.0 < |bM| && 0 <= c.1 < |bM[c.0]|
            && pieces == psM + [Promoted(cfg, kind, c.0, c.1, ps0[m[0]])]
            && board == Write(bM, c.0, c.1, |psM|))
    }

    /** One match found by ClearAllValidMatches: a random piece of the match marks the cell
        (sx, sy) a special piece would take, the special kind is chosen, the match is
        cleared (the mark moving to the pressed or entered piece when that is cleared), and
        the special piece, if the match earns one, is spawned into the marked cell. */
    method ClearMatch(m: seq<PieceId>) returns (cleared: bool, sx: int, sy: int, ghost hits: seq<bool>,
                                                ghost psM: seq<Piece>, ghost bM: seq<seq<PieceId>>)
      requires Valid() && |m| >= 1 && forall i | 0 <= i < |m| :: m[i] < |pieces|
      modifies this`draws, this`pieces, this`board, this`clearLog, this`gameOver, cells, level`currentScore, level`obstaclesLeft, level`didWin, level`pendingReports, level.display, level.display.stars
      ensures Valid() && InBounds(cfg, sx, sy)
      ensures old(clearLog) <= clearLog && OnlyFlags(old(pieces), pieces)
      ensures cleared <==> |clearLog| > old(|clearLog|)
      ensures MatchCleared(m, hits, cleared, old(pieces), old(board), old(draws), psM, bM)
      ensures var p := old(pieces[m[Draw(rng, draws, 0, |m|)]]);
        (sx, sy) == SpecialCell(old(pieces), m, hits, pressed, entered, p.x, p.y)
    {
      var kind, mx, my := PlanSpecial(m);
      cleared, sx, sy, hits, psM, bM := ClearAndPromote(m, kind, mx, my);
    }

    /** The match's pieces are cleared, leaving arena `psM` and cells `bM`, then the
        special piece of type `kind` (none for Count) is spawned into the marked cell. */
    method ClearAndPromote(m: seq<PieceId>, kind: PieceType, mx: int, my: int)
      returns (cleared: bool, sx: int, sy: int, ghost hits: seq<bool>, ghost psM: seq<Piece>, ghost bM: seq<seq<PieceId>>)
      requires Valid() && InBounds(cfg, mx, my) && |m| >= 1 && forall i | 0 <= i < |m| :: m[i] < |pieces|
      modifies this`pieces, this`board, this`clearLog, this`gameOver, cells, level`currentScore, level`obstaclesLeft, level`didWin, level`pendingReports, level.display, level.display.stars
      ensures Valid() && InBounds(cfg, sx, sy)
      ensures old(clearLog) <= clearLog && OnlyFlags(old(pieces), pieces)
      ensures cleared <==> |clearLog| > old(|clearLog|)
      ensures |hits| == |m| && (cleared <==> true in hits)
      ensures (sx, sy) == SpecialCell(old(pieces), m, hits, pressed, entered, mx, my)
      ensures MatchPassed(old(pieces), old(board), psM, bM, m, hits) && 0 <= sx < |bM| && 0 <= sy < |bM[sx]|
      ensures kind == Count ==> pieces == psM && board == bM
      ensures kind != Count ==>
        pieces == psM + [Promoted(cfg, kind, sx, sy, old(pieces)[m[0]])] && board == Write(bM, sx, sy, |psM|)
    {
      ghost var ps1 := pieces;
      cleared, sx, sy, hits := ClearMatchPieces(m, mx, my);
      psM, bM := pieces, board;
      Promote(kind, sx, sy, m[0], ps1);
    }

    /** The special piece the match earned, if any (none for Count), spawned into (x, y). */
    method Promote(kind: PieceType, x: int, y: int, m0: PieceId, ghost ps0: seq<Piece>)
      requires Valid() && InBounds(cfg, x, y) && m0 < |ps0| && OnlyFlags(ps0, pieces)
      modifies this`pieces, this`board, cells
      ensures Valid() && OnlyFlags(ps0, pieces)
      ensures kind == Count ==> pieces == old(pieces) && board == old(board)
      ensures kind != Count ==>
        pieces == old(pieces) + [Promoted(cfg, kind, x, y, ps0[m0])] && board == Write(old(board), x, y, old(|pieces|))
    {
      if kind != Count {
        SpawnSpecial(kind, x, y, m0, ps0);
      }
    }

    /** ClearAllValidMatches at cell (x, y): when the piece there is clearable and completes
        a match, the match is cleared as ClearMatch does, `hits` saying which of its
        pieces' ClearPiece calls cleared one. */
    method ClearMatchesAt(x: int, y: int) returns (cleared: bool, ghost hits: seq<bool>, ghost psM: seq<Piece>, ghost bM: seq<seq<PieceId>>)
      requires Valid() && InBounds(cfg, x, y)
      modifies this`draws, this`pieces, this`board, this`clearLog, this`gameOver, cells, level`currentScore, level`obstaclesLeft, level`didWin, level`pendingReports, level.display, level.display.stars
      ensures Valid()
      ensures old(clearLog) <= clearLog && OnlyFlags(old(pieces), pieces)
      ensures cleared <==> |clearLog| > old(|clearLog|)
      ensures old(!At(cfg, Snapshot(), x, y).clearable || Match(cfg, Snapshot(), board[x][y], x, y).None?) ==>
        pieces == old(pieces) && board == old(board) && draws == old(draws) && clearLog == old(clearLog)
      ensures old(At(cfg, Snapshot(), x, y).clearable && Match(cfg, Snapshot(), board[x][y], x, y).Some?) ==>
        var mt := old(Match(cfg, Snapshot(), board[x][y], x, y).value);
        |mt| >= 3 && AllSpawned(old(Snapshot()), mt)
        && MatchCleared(mt, hits, cleared, old(pieces), old(board), old(draws), psM, bM)
    {
      hits, psM, bM := [], pieces, board;
      var id := cells[x, y];
      if !pieces[id].clearable {
        return false, hits, psM, bM;
      }
      var found := Match(cfg, Snap(CurrentCells(), pieces, draws), id, x, y);
      if found.None? {
        return false, hits, psM, bM;
      }
      MatchShape(cfg, Snapshot(), id, x, y);
      var c, _, _, h, ps1, b1 := ClearMatch(found.value);
      cleared, hits, psM, bM := c, h, ps1, b1;
    }

    /** One row of ClearAllValidMatches, left to right. */
    method ClearRowMatches(y: int) returns (cleared: bool)
      requires Valid() && 0 <= y < cfg.yDim
      modifies this`draws, this`pieces, this`board, this`clearLog, this`gameOver, cells, level`currentScore, level`obstaclesLeft, level`didWin, level`pendingReports, level.display, level.display.stars
      ensures Valid()
      ensures old(clearLog) <= clearLog && OnlyFlags(old(pieces), pieces)
      ensures cleared <==> |clearLog| > old(|clearLog|)
    {
      cleared := false;
      var x := 0;
      while x < cfg.xDim
        invariant 0 <= x <= cfg.xDim
        invariant Valid()
        invariant old(clearLog) <= clearLog && OnlyFlags(old(pieces), pieces)
        invariant cleared <==> |clearLog| > old(|clearLog|)
      {
        ghost var ps1 := pieces;
        var c, _, _, _ := ClearMatchesAt(x, y);
        OnlyFlagsTrans(old(pieces), ps1, pieces);
        cleared := cleared || c;
        x := x + 1;
      }
    }

    /** ClearAllValidMatches: every cell, row by row from the top, is checked for a match
        and each match found is cleared; the result says whether any piece was cleared.
        Pieces already spawned are at most flagged. */
    method ClearAllValidMatches() returns (needsRefill: bool)
      requires Valid()
      modifies this`draws, this`pieces, this`board, this`clearLog, this`gameOver, cells, level`currentScore, level`obstaclesLeft, level`didWin, level`pendingReports, level.display, level.display.stars
      ensures Valid()
      ensures old(clearLog) <= clearLog && OnlyFlags(old(pieces), pieces)
      ensures needsRefill <==> |clearLog| > old(|clearLog|)
    {
      needsRefill := false;
      var y := 0;
      while y < cfg.yDim
        invariant 0 <= y <= cfg.yDim
        invariant Valid()
        invariant old(clearLog) <= clearLog && OnlyFlags(old(pieces), pieces)
        invariant needsRefill <==> |clearLog| > old(|clearLog|)
      {
        ghost var ps1 := pieces;
        var c := ClearRowMatches(y);
        OnlyFlagsTrans(old(pieces), ps1, pieces);
        needsRefill := needsRefill || c;
        y := y + 1;
      }
    }

    // ----- Swapping -----

    /** HandleRainbowClear: a clearable Rainbow swapped with a coloured piece takes that
        piece's colour as the colour it clears, and is cleared. */
    method HandleRainbowClear(r: PieceId, o: PieceId)
      requires Valid() && r < |pieces| && o < |pieces|
      modifies this`pieces, this`board, this`clearLog, this`gameOver, cells, level`currentScore, level`obstaclesLeft, level`didWin, level`pendingReports, level.display, level.display.stars
      ensures Valid() && old(clearLog) <= clearLog && KeepsPlaces(old(pieces), pieces)
      ensures var p := old(pieces[r]);
        !(p.kind == Rainbow && p.clearable && old(pieces[o].colored)) ==>
          pieces == old(pieces) && board == old(board) && clearLog == old(clearLog)
      ensures var p := old(pieces[r]);
        p.kind == Rainbow && p.clearable && old(pieces[o].colored) ==>
          && pieces[r].clearKind == SetClearColor(p, old(pieces[o].color)).clearKind
          && (|clearLog| > old(|clearLog|) <==> old(PendingPiece(pieces, board[p.x][p.y])))
    {
      var p := pieces[r];
      if p.kind == Rainbow && p.clearable && pieces[o].colored {
        ghost var ps0 := pieces;
        pieces := pieces[r := SetClearColor(p, pieces[o].color)];
        RetouchKeepsValid(ps0);
        ghost var ps1 := pieces;
        var _ := ClearPiece(p.x, p.y);
        assert FlaggedOrKept(ps1, pieces, r);
        OnlyFlagsPlaces(ps0, ps1, pieces);
      }
    }

    /** ClearSpecialPieces: a swapped row or column clearer is cleared. */
    method ClearSpecialPieces(id: PieceId)
      requires Valid() && id < |pieces|
      modifies this`pieces, this`board, this`clearLog, this`gameOver, cells, level`currentScore, level`obstaclesLeft, level`didWin, level`pendingReports, level.display, level.display.stars
      ensures Valid() && old(clearLog) <= clearLog && OnlyFlags(old(pieces), pieces)
      ensures old(pieces[id].kind) != RowClear && old(pieces[id].kind) != ColumnClear ==>
        pieces == old(pieces) && board == old(board) && clearLog == old(clearLog)
      ensures var p := old(pieces[id]);
        p.kind == RowClear || p.kind == ColumnClear ==>
          (|clearLog| > old(|clearLog|) <==> old(PendingPiece(pieces, board[p.x][p.y])))
    {
      var p := pieces[id];
      if p.kind == RowClear || p.kind == ColumnClear {
        var _ := ClearPiece(p.x, p.y);
      }
    }

    /** SwapPieces. Nothing happens once the game is over or when either piece cannot be
        moved. Otherwise the two pieces exchange cells, and the swap goes through when one
        of them completes a match in its new cell or one of them is a Rainbow (see
        CompleteSwap). A swap that does not go through writes each piece back into the
        cell it records. */
    method SwapPieces(a: PieceId, b: PieceId)
      requires Valid() && a < |pieces| && b < |pieces|
      modifies this`draws, this`pressed, this`entered, this`isFilling, this`runningFills, level`movesUsed, this`pieces, this`board, this`clearLog, this`gameOver, cells, level`currentScore, level`obstaclesLeft, level`didWin, level`pendingReports, level.display, level.display.stars
      ensures Valid() && old(|pieces|) <= |pieces|
      ensures old(gameOver || !pieces[a].movable || !pieces[b].movable) ==>
        && pieces == old(pieces) && board == old(board) && draws == old(draws) && clearLog == old(clearLog)
        && pressed == old(pressed) && entered == old(entered) && runningFills == old(runningFills)
        && isFilling == old(isFilling) && gameOver == old(gameOver) && level.movesUsed == old(level.movesUsed)
      ensures old(!gameOver && pieces[a].movable && pieces[b].movable && !SwapMatches(cfg, Snapshot(), a, b)) ==>
        && Snapshot() == old(Restored(cfg, Snapshot(), a, b)) && clearLog == old(clearLog)
        && pressed == old(pressed) && entered == old(entered) && runningFills == old(runningFills)
        && isFilling == old(isFilling) && gameOver == old(gameOver) && level.movesUsed == old(level.movesUsed)
        && (old(Sits(cfg, Snapshot(), a) && Sits(cfg, Snapshot(), b)) ==> board == old(board))
      ensures old(!gameOver && pieces[a].movable && pieces[b].movable && SwapMatches(cfg, Snapshot(), a, b)) ==>
        && pieces[a].x == old(pieces[b].x) && pieces[a].y == old(pieces[b].y)
        && pieces[b].x == old(pieces[a].x) && pieces[b].y == old(pieces[a].y)
        && old(clearLog) <= clearLog
        && pressed.None? && entered.None? && isFilling && runningFills == old(runningFills) + 1
        && (level.mode.Moves? || level.mode.Obstacles? ==> level.movesUsed == old(level.movesUsed) + 1)
    {
      if gameOver || !pieces[a].movable || !pieces[b].movable {
        return;
      }
      ghost var s0 := Snapshot();
      var goes := ExchangeCells(a, b);
      if goes {
        CompleteSwap(a, b, s0);
      } else {
        RestoreCells(a, b, s0);
        if Sits(cfg, s0, a) && Sits(cfg, s0, b) {
          RefusedSwapRestores(cfg, s0, a, b);
        }
      }
    }

    /** A refused swap writes each piece back into the cell it records, which leaves
        every cell's piece in the cell it records. */
    method RestoreCells(a: PieceId, b: PieceId, ghost s0: Snap)
      requires Sound() && a < |pieces| && b < |pieces|
      requires Shaped(cfg, s0) && CoordsInBounds(cfg, s0.pieces) && a < |s0.pieces| && b < |s0.pieces|
      requires Placed(cfg, s0) && Snapshot() == Swapped(cfg, s0, a, b)
      modifies this`board, cells
      ensures Valid() && Snapshot() == Restored(cfg, s0, a, b)
    {
      var pa, pb := pieces[a], pieces[b];
      SetCell(pa.x, pa.y, a);
      SetCell(pb.x, pb.y, b);
      RestoredPlaced(cfg, s0, a, b);
    }

    /** The start of SwapPieces: each piece is written into the cell the other records,
        and the result says whether the swap goes through. */
    method ExchangeCells(a: PieceId, b: PieceId) returns (goes: bool)
      requires Valid() && a < |pieces| && b < |pieces|
      modifies this`board, cells
      ensures Sound() && Snapshot() == Swapped(cfg, old(Snapshot()), a, b)
      ensures goes == SwapMatches(cfg, old(Snapshot()), a, b)
    {
      ghost var s0 := Snapshot();
      var pa, pb := pieces[a], pieces[b];
      SetCell(pa.x, pa.y, b);
      SetCell(pb.x, pb.y, a);
      var view := Snap(CurrentCells(), pieces, draws);
      assert view == Swapped(cfg, s0, a, b);
      var aMatches := Match(cfg, view, a, pb.x, pb.y).Some?;
      var bMatches := Match(cfg, view, b, pa.x, pa.y).Some?;
      var special := pa.kind == Rainbow || pb.kind == Rainbow;
      goes := aMatches || bMatches || special;
    }

    /** The part of SwapPieces that runs when the swap goes through: the pieces take each
        other's coordinates and their matches are cleared; the selection is dropped, a
        Fill starts and the level counts the move. */
    method CompleteSwap(a: PieceId, b: PieceId, ghost s0: Snap)
      requires Sound() && a < |pieces| && b < |pieces| && pieces[a].movable && pieces[b].movable
      requires Shaped(cfg, s0) && CoordsInBounds(cfg, s0.pieces) && a < |s0.pieces| && b < |s0.pieces|
      requires Placed(cfg, s0) && Snapshot() == Swapped(cfg, s0, a, b)
      modifies this`draws, this`pressed, this`entered, this`isFilling, this`runningFills, level`movesUsed, this`pieces, this`board, this`clearLog, this`gameOver, cells, level`currentScore, level`obstaclesLeft, level`didWin, level`pendingReports, level.display, level.display.stars
      ensures Valid() && old(|pieces|) <= |pieces|
      ensures pieces[a].x == old(pieces[b].x) && pieces[a].y == old(pieces[b].y)
      ensures pieces[b].x == old(pieces[a].x) && pieces[b].y == old(pieces[a].y)
      ensures old(clearLog) <= clearLog
      ensures pressed.None? && entered.None? && isFilling && runningFills == old(runningFills) + 1
      ensures level.mode.Moves? || level.mode.Obstacles? ==> level.movesUsed == old(level.movesUsed) + 1
    {
      ExchangeAndClear(a, b, s0);
      FinishSwap();
    }

    /** A swap that goes through, up to its clearing: the pieces take each other's
        coordinates, then the swapped Rainbows, the matches and the swapped row and
        column clearers are cleared. */
    method ExchangeAndClear(a: PieceId, b: PieceId, ghost s0: Snap)
      requires Sound() && a < |pieces| && b < |pieces| && pieces[a].movable && pieces[b].movable
      requires Shaped(cfg, s0) && CoordsInBounds(cfg, s0.pieces) && a < |s0.pieces| && b < |s0.pieces|
      requires Placed(cfg, s0) && Snapshot() == Swapped(cfg, s0, a, b)
      modifies this`draws, this`pieces, this`board, this`clearLog, this`gameOver, cells, level`currentScore, level`obstaclesLeft, level`didWin, level`pendingReports, level.display, level.display.stars
      ensures Valid() && old(|pieces|) <= |pieces| && old(clearLog) <= clearLog
      ensures pieces[a].x == old(pieces[b].x) && pieces[a].y == old(pieces[b].y)
      ensures pieces[b].x == old(pieces[a].x) && pieces[b].y == old(pieces[a].y)
    {
      ExchangeCoords(a, b, s0);
      ghost var ps1 := pieces;
      ClearSwapped(a, b);
      assert KeepsPlaces(ps1, pieces);
    }

    /** The end of a swap that went through: the selection is dropped, a Fill starts and
        the level counts the move. */
    method FinishSwap()
      requires Valid()
      modifies this`pressed, this`entered, this`isFilling, this`runningFills, this`gameOver
      modifies level`movesUsed, level`didWin, level`pendingReports, level.display
      ensures Valid() && pieces == old(pieces) && board == old(board) && clearLog == old(clearLog)
      ensures pressed.None? && entered.None? && isFilling && runningFills == old(runningFills) + 1
      ensures level.mode.Moves? || level.mode.Obstacles? ==> level.movesUsed == old(level.movesUsed) + 1
    {
      pressed := None;
      entered := None;
      StartFill();
      level.OnMove();
    }

    /** The two swapped pieces move to each other's coordinates, which puts every cell's
        piece back in the cell it records. */
    method ExchangeCoords(a: PieceId, b: PieceId, ghost s0: Snap)
      requires Sound() && a < |pieces| && b < |pieces| && pieces[a].movable && pieces[b].movable
      requires Shaped(cfg, s0) && CoordsInBounds(cfg, s0.pieces) && a < |s0.pieces| && b < |s0.pieces|
      requires Placed(cfg, s0) && Snapshot() == Swapped(cfg, s0, a, b)
      modifies this`pieces
      ensures Valid() && pieces == Exchanged(old(pieces), a, b)
      ensures pieces[a].x == old(pieces[b].x) && pieces[a].y == old(pieces[b].y)
      ensures pieces[b].x == old(pieces[a].x) && pieces[b].y == old(pieces[a].y)
    {
      var pa, pb := pieces[a], pieces[b];
      ghost var ps0 := pieces;
      pieces := pieces[a := Move(pieces[a], pb.x, pb.y)];
      pieces := pieces[b := Move(pieces[b], pa.x, pa.y)];
      ExchangeKeepsValid(a, b, s0);
    }

    /** The grid after a swap's cells and coordinates are exchanged is valid. */
    lemma ExchangeKeepsValid(a: PieceId, b: PieceId, s0: Snap)
      requires level.grid == this && WellFormed(cfg) && Layout()
      requires Shaped(cfg, s0) && CoordsInBounds(cfg, s0.pieces) && a < |s0.pieces| && b < |s0.pieces|
      requires Placed(cfg, s0) && s0.pieces[a].movable && s0.pieces[b].movable
      requires EmptiesImmovable(Swapped(cfg, s0, a, b)) && LogMatchesFlags(clearLog, s0.pieces)
      requires pressed.Some? ==> pressed.value < |s0.pieces|
      requires entered.Some? ==> entered.value < |s0.pieces|
      requires Snapshot() == Swapped(cfg, s0, a, b).(pieces := Exchanged(s0.pieces, a, b))
      ensures Valid()
    {
      var t := Swapped(cfg, s0, a, b);
      assert forall i | 0 <= i < |s0.pieces| :: pieces[i] == s0.pieces[i] || i == a || i == b;
      RetouchKeepsSound(s0.pieces);
      ExchangedPlaced(cfg, s0, a, b);
    }

    /** The clearing a swap that goes through sets off: the swapped Rainbows, then every
        match, then the swapped row and column clearers. No piece changes its place. */
    method ClearSwapped(a: PieceId, b: PieceId)
      requires Valid() && a < |pieces| && b < |pieces|
      modifies this`draws, this`pieces, this`board, this`clearLog, this`gameOver, cells, level`currentScore, level`obstaclesLeft, level`didWin, level`pendingReports, level.display, level.display.stars
      ensures Valid() && old(clearLog) <= clearLog && KeepsPlaces(old(pieces), pieces)
    {
      ghost var ps1 := pieces;
      HandleRainbowClear(a, b);
      HandleRainbowClear(b, a);
      ghost var ps2 := pieces;
      ClearMatchesAndSpecials(a, b);
      OnlyFlagsPlaces(ps1, ps2, pieces);
    }

    /** The part of a swap's clearing after the Rainbows: every match, then the row and
        column clearers among the swapped pieces. Only clear flags change. */
    method ClearMatchesAndSpecials(a: PieceId, b: PieceId)
      requires Valid() && a < |pieces| && b < |pieces|
      modifies this`draws, this`pieces, this`board, this`clearLog, this`gameOver, cells, level`currentScore, level`obstaclesLeft, level`didWin, level`pendingReports, level.display, level.display.stars
      ensures Valid() && old(clearLog) <= clearLog && OnlyFlags(old(pieces), pieces)
    {
      ghost var ps2 := pieces;
      var _ := ClearAllValidMatches();
      ghost var ps3 := pieces;
      ClearSpecialPieces(a);
      OnlyFlagsTrans(ps2, ps3, pieces);
      ghost var ps4 := pieces;
      ClearSpecialPieces(b);
      OnlyFlagsTrans(ps2, ps4, pieces);
    }

    /** PressPiece: the piece the player pressed. */
    method PressPiece(id: PieceId)
      requires Valid() && id < |pieces|
      modifies this`pressed
      ensures Valid() && pressed == Some(id)
    {
      pressed := Some(id);
    }

    /** EnterPiece: the piece the mouse entered last. */
    method EnterPiece(id: PieceId)
      requires Valid() && id < |pieces|
      modifies this`entered
      ensures Valid() && entered == Some(id)
    {
      entered := Some(id);
    }

    /** Both a pressed and an entered piece are recorded, and they are adjacent. */
    ghost predicate SwapRequested()
      reads this
      requires (pressed.Some? ==> pressed.value < |pieces|) && (entered.Some? ==> entered.value < |pieces|)
    {
      pressed.Some? && entered.Some? && IsAdjacent(pieces[pressed.value], pieces[entered.value])
    }

    /** The requested swap goes through: the game is on, both pieces can move and one
        of them completes a match in the other's cell or is a Rainbow. */
    ghost predicate SwapGoes()
      reads this, cells, level
      requires Valid() && SwapRequested()
    {
      !gameOver && pieces[pressed.value].movable && pieces[entered.value].movable
      && SwapMatches(cfg, Snapshot(), pressed.value, entered.value)
    }

    /** ReleasePiece: the pressed and the entered piece are swapped when both are recorded
        and adjacent; otherwise nothing happens. A swap that does not go through keeps the
        selection, clears nothing and starts no Fill; the grid is then as it was when both
        pieces sat in the cells they record. */
    method ReleasePiece()
      requires Valid()
      modifies this`draws, this`pressed, this`entered, this`isFilling, this`runningFills, level`movesUsed, this`pieces, this`board, this`clearLog, this`gameOver, cells, level`currentScore, level`obstaclesLeft, level`didWin, level`pendingReports, level.display, level.display.stars
      ensures Valid()
      ensures !old(SwapRequested()) ==>
        && pieces == old(pieces) && board == old(board) && draws == old(draws) && clearLog == old(clearLog)
        && pressed == old(pressed) && entered == old(entered) && runningFills == old(runningFills)
        && isFilling == old(isFilling) && gameOver == old(gameOver) && level.movesUsed == old(level.movesUsed)
      ensures old(SwapRequested()) ==> (runningFills == old(runningFills) + 1 <==> old(SwapGoes()))
      ensures old(SwapRequested() && !SwapGoes()) ==>
        && pieces == old(pieces) && draws == old(draws) && clearLog == old(clearLog)
        && pressed == old(pressed) && entered == old(entered) && runningFills == old(runningFills)
        && isFilling == old(isFilling) && gameOver == old(gameOver) && level.movesUsed == old(level.movesUsed)
        && (old(Sits(cfg, Snapshot(), pressed.value) && Sits(cfg, Snapshot(), entered.value)) ==> board == old(board))
      ensures old(SwapRequested() && SwapGoes()) ==>
        && pressed.None? && entered.None? && isFilling && old(clearLog) <= clearLog
        && (level.mode.Moves? || level.mode.Obstacles? ==> level.movesUsed == old(level.movesUsed) + 1)
    {
      if pressed.Some? && entered.Some? && IsAdjacent(pieces[pressed.value], pieces[entered.value]) {
        SwapPieces(pressed.value, entered.value);
      }
    }

    // ----- The Fill coroutine -----

    /** StartCoroutine(Fill()) up to the coroutine's first yield, which sets IsFilling. */
    method StartFill()
      modifies this`isFilling, this`runningFills
      ensures isFilling && runningFills == old(runningFills) + 1
    {
      isFilling := true;
      runningFills := runningFills + 1;
    }

    /** One resumption of a running Fill coroutine, from the yield it waits at to the next
        one or to its end. Whichever yield it waits at, the next code to run is a FillStep.
        After a step that moved or spawned a piece the sweep direction flips and the
        coroutine yields again. After a step that changed nothing the matches are cleared:
        if that cleared a piece the coroutine yields for another round, otherwise it ends
        and IsFilling becomes false. */
    method ResumeFill() returns (finished: bool)
      requires Valid() && runningFills > 0 && cfg.yDim >= 1
      modifies this`draws, this`inverse, this`isFilling, this`runningFills, this`pieces, this`board, this`clearLog, this`gameOver, cells, level`currentScore, level`obstaclesLeft, level`didWin, level`pendingReports, level.display, level.display.stars
      ensures Valid()
      ensures var step := Gravity.FillStep(cfg, rng, old(Snapshot()), old(inverse));
        step.moved ==> Snapshot() == step.snap && inverse == !old(inverse) && !finished && clearLog == old(clearLog)
      ensures !Gravity.FillStep(cfg, rng, old(Snapshot()), old(inverse)).moved ==>
        && inverse == old(inverse) && old(clearLog) <= clearLog
        && (finished <==> |clearLog| == old(|clearLog|))
      ensures finished ==> !isFilling && runningFills == old(runningFills) - 1
      ensures !finished ==> isFilling == old(isFilling) && runningFills == old(runningFills)
    {
      var moved := FillStep();
      finished := AfterStep(moved);
    }

    /** What a Fill round does after its step: a step that moved flips the sweep and
        yields, and one that changed nothing settles the matches. */
    method AfterStep(moved: bool) returns (finished: bool)
      requires Valid() && runningFills > 0
      modifies this`draws, this`inverse, this`isFilling, this`runningFills, this`pieces, this`board, this`clearLog, this`gameOver, cells, level`currentScore, level`obstaclesLeft, level`didWin, level`pendingReports, level.display, level.display.stars
      ensures Valid()
      ensures moved ==> Snapshot() == old(Snapshot()) && inverse == !old(inverse) && !finished && clearLog == old(clearLog)
      ensures !moved ==> inverse == old(inverse) && old(clearLog) <= clearLog && (finished <==> |clearLog| == old(|clearLog|))
      ensures finished ==> !isFilling && runningFills == old(runningFills) - 1
      ensures !finished ==> isFilling == old(isFilling) && runningFills == old(runningFills)
    {
      if moved {
        FlipSweep();
        return false;
      }
      finished := SettleFill();
    }

    /** The next FillStep sweeps its rows in the other direction. */
    method FlipSweep()
      requires Valid()
      modifies this`inverse
      ensures Valid() && inverse == !old(inverse)
    {
      inverse := !inverse;
    }

    /** The end of a Fill round whose step changed nothing: the matches are cleared, and
        the coroutine ends when nothing was cleared. */
    method SettleFill() returns (finished: bool)
      requires Valid() && runningFills > 0
      modifies this`draws, this`isFilling, this`runningFills, this`pieces, this`board, this`clearLog, this`gameOver, cells, level`currentScore, level`obstaclesLeft, level`didWin, level`pendingReports, level.display, level.display.stars
      ensures Valid() && old(clearLog) <= clearLog
      ensures finished <==> |clearLog| == old(|clearLog|)
      ensures finished ==> !isFilling && runningFills == old(runningFills) - 1
      ensures !finished ==> isFilling == old(isFilling) && runningFills == old(runningFills)
    {
      var needsRefill := ClearAllValidMatches();
      if needsRefill {
        return false;
      }
      isFilling := false;
      runningFills := runningFills - 1;
      finished := true;
    }

    /** GameOverController: the grid takes no more swaps. */
    method GameOverController()
      modifies this`gameOver
      ensures gameOver
    {
      gameOver := true;
    }
  }
}
