/** GetPiecesOfType as a function of a grid snapshot, and the obstacle count a level
    built from it starts with. */
module Queries {
  import opened Pieces
  import opened Board

  /** The pieces of type `t` in rows 0..n-1 of column x, top to bottom. */
  function ColumnOfType(cfg: Config, s: Snap, t: PieceType, x: int, n: nat): seq<PieceId>
    requires Shaped(cfg, s) && 0 <= x < cfg.xDim && n <= cfg.yDim
  {
    if n == 0 then []
    else ColumnOfType(cfg, s, t, x, n - 1) + (if At(cfg, s, x, n - 1).kind == t then [s.cells[x][n - 1]] else [])
  }

  /** GetPiecesOfType over columns 0..n-1: column by column, each from the top. */
  function PiecesOfType(cfg: Config, s: Snap, t: PieceType, n: nat): seq<PieceId>
    requires Shaped(cfg, s) && n <= cfg.xDim
  {
    if n == 0 then []
    else PiecesOfType(cfg, s, t, n - 1) + ColumnOfType(cfg, s, t, n - 1, cfg.yDim)
  }

  /** Some cell in columns 0..n-1 and rows 0..m-1 holds piece `id`, of type `t`. */
  ghost predicate HoldsOfType(cfg: Config, s: Snap, t: PieceType, id: PieceId, n: int, m: int)
    requires Shaped(cfg, s)
  {
    exists x, y | 0 <= x < n && 0 <= x < cfg.xDim && 0 <= y < m && 0 <= y < cfg.yDim ::
      s.cells[x][y] == id && s.pieces[id].kind == t
  }

  /** The cells in columns 0..n-1 and rows 0..m-1 whose piece has type `t`. */
  ghost function CellsOfType(cfg: Config, s: Snap, t: PieceType, n: int, m: int): set<(int, int)>
    requires Shaped(cfg, s)
  {
    set x, y | 0 <= x < n && 0 <= y < m && InBounds(cfg, x, y) && At(cfg, s, x, y).kind == t :: (x, y)
  }

  /** The cells in rows 0..n-1 of column x whose piece has type `t`. */
  ghost function ColumnCellsOfType(cfg: Config, s: Snap, t: PieceType, x: int, n: int): set<(int, int)>
    requires Shaped(cfg, s) && 0 <= x < cfg.xDim && n <= cfg.yDim
  {
    set y | 0 <= y < n && At(cfg, s, x, y).kind == t :: (x, y)
  }

  /** One column of GetPiecesOfType lists the pieces of type `t` held in rows 0..n-1 of the
      column, and nothing else. */
  lemma {:induction false} ColumnOfTypeMembers(cfg: Config, s: Snap, t: PieceType, x: int, n: nat)
    requires Shaped(cfg, s) && 0 <= x < cfg.xDim && n <= cfg.yDim
    ensures forall id: PieceId :: id in ColumnOfType(cfg, s, t, x, n) <==> HoldsOfType(cfg, s, t, id, x + 1, n) && id in s.cells[x][..n]
  {
    if n > 0 {
      ColumnOfTypeMembers(cfg, s, t, x, n - 1);
      assert s.cells[x][..n] == s.cells[x][..n - 1] + [s.cells[x][n - 1]];
      forall id: PieceId ensures id in ColumnOfType(cfg, s, t, x, n) <==> HoldsOfType(cfg, s, t, id, x + 1, n) && id in s.cells[x][..n] {
        if id in ColumnOfType(cfg, s, t, x, n) && id !in ColumnOfType(cfg, s, t, x, n - 1) {
          assert s.cells[x][n - 1] == id;
        }
        if HoldsOfType(cfg, s, t, id, x + 1, n) && id in s.cells[x][..n] {
          var j :| 0 <= j < n && s.cells[x][..n][j] == id;
          if j == n - 1 {
            assert At(cfg, s, x, n - 1).kind == t;
          } else {
            assert s.cells[x][..n - 1][j] == id;
            assert HoldsOfType(cfg, s, t, id, x + 1, n - 1);
          }
        }
      }
    }
  }

  /** One column of GetPiecesOfType has one entry per cell of rows 0..n-1 holding a piece
      of type `t`. */
  lemma {:induction false} ColumnOfTypeCount(cfg: Config, s: Snap, t: PieceType, x: int, n: nat)
    requires Shaped(cfg, s) && 0 <= x < cfg.xDim && n <= cfg.yDim
    ensures |ColumnOfType(cfg, s, t, x, n)| == |ColumnCellsOfType(cfg, s, t, x, n)| <= n
  {
    if n == 0 {
      assert ColumnCellsOfType(cfg, s, t, x, n) == {};
    } else {
      ColumnOfTypeCount(cfg, s, t, x, n - 1);
      ColumnCellsStep(cfg, s, t, x, n);
    }
  }

  /** A column's cells of type `t` in rows 0..n-1: those in rows 0..n-2, and row n-1 when
      its piece has type `t`. */
  lemma ColumnCellsStep(cfg: Config, s: Snap, t: PieceType, x: int, n: int)
    requires Shaped(cfg, s) && 0 <= x < cfg.xDim && 0 < n <= cfg.yDim
    ensures var prev := ColumnCellsOfType(cfg, s, t, x, n - 1);
      && (x, n - 1) !in prev
      && ColumnCellsOfType(cfg, s, t, x, n) == if At(cfg, s, x, n - 1).kind == t then prev + {(x, n - 1)} else prev
  {
    var prev := ColumnCellsOfType(cfg, s, t, x, n - 1);
    var next := if At(cfg, s, x, n - 1).kind == t then prev + {(x, n - 1)} else prev;
    forall c | c in ColumnCellsOfType(cfg, s, t, x, n) ensures c in next {
      var y :| 0 <= y < n && At(cfg, s, x, y).kind == t && c == (x, y);
      if y < n - 1 { assert c in prev; }
    }
    forall c | c in next ensures c in ColumnCellsOfType(cfg, s, t, x, n) {
      if c in prev {
        var y :| 0 <= y < n - 1 && At(cfg, s, x, y).kind == t && c == (x, y);
      }
    }
  }

  /** The cells of type `t` in columns 0..n-1: those in columns 0..n-2 and those of column
      n-1, which are disjoint. */
  lemma CellsStep(cfg: Config, s: Snap, t: PieceType, n: int)
    requires Shaped(cfg, s) && 0 < n <= cfg.xDim
    ensures var prev, col := CellsOfType(cfg, s, t, n - 1, cfg.yDim), ColumnCellsOfType(cfg, s, t, n - 1, cfg.yDim);
      prev * col == {} && CellsOfType(cfg, s, t, n, cfg.yDim) == prev + col
  {
    CellsStepCovered(cfg, s, t, n);
    CellsStepWithin(cfg, s, t, n);
    CellsStepDisjoint(cfg, s, t, n);
  }

  lemma CellsStepCovered(cfg: Config, s: Snap, t: PieceType, n: int)
    requires Shaped(cfg, s) && 0 < n <= cfg.xDim
    ensures CellsOfType(cfg, s, t, n, cfg.yDim) <= CellsOfType(cfg, s, t, n - 1, cfg.yDim) + ColumnCellsOfType(cfg, s, t, n - 1, cfg.yDim)
  {
    var prev, col := CellsOfType(cfg, s, t, n - 1, cfg.yDim), ColumnCellsOfType(cfg, s, t, n - 1, cfg.yDim);
    forall c | c in CellsOfType(cfg, s, t, n, cfg.yDim) ensures c in prev + col {
      var x, y :| 0 <= x < n && 0 <= y < cfg.yDim && InBounds(cfg, x, y) && At(cfg, s, x, y).kind == t && c == (x, y);
      if x < n - 1 { assert c in prev; } else { assert c in col; }
    }
  }

  lemma CellsStepWithin(cfg: Config, s: Snap, t: PieceType, n: int)
    requires Shaped(cfg, s) && 0 < n <= cfg.xDim
    ensures CellsOfType(cfg, s, t, n - 1, cfg.yDim) + ColumnCellsOfType(cfg, s, t, n - 1, cfg.yDim) <= CellsOfType(cfg, s, t, n, cfg.yDim)
  {
    var prev, col := CellsOfType(cfg, s, t, n - 1, cfg.yDim), ColumnCellsOfType(cfg, s, t, n - 1, cfg.yDim);
    forall c | c in prev + col ensures c in CellsOfType(cfg, s, t, n, cfg.yDim) {
      if c in prev {
        var x, y :| 0 <= x < n - 1 && 0 <= y < cfg.yDim && InBounds(cfg, x, y) && At(cfg, s, x, y).kind == t && c == (x, y);
      } else {
        var y :| 0 <= y < cfg.yDim && At(cfg, s, n - 1, y).kind == t && c == (n - 1, y);
      }
    }
  }

  lemma CellsStepDisjoint(cfg: Config, s: Snap, t: PieceType, n: int)
    requires Shaped(cfg, s) && 0 < n <= cfg.xDim
    ensures CellsOfType(cfg, s, t, n - 1, cfg.yDim) * ColumnCellsOfType(cfg, s, t, n - 1, cfg.yDim) == {}
  {
    var prev, col := CellsOfType(cfg, s, t, n - 1, cfg.yDim), ColumnCellsOfType(cfg, s, t, n - 1, cfg.yDim);
    forall c | c in prev ensures c !in col {
      var x, y :| 0 <= x < n - 1 && 0 <= y < cfg.yDim && InBounds(cfg, x, y) && At(cfg, s, x, y).kind == t && c == (x, y);
    }
  }

  /** GetPiecesOfType lists exactly the pieces of type `t` held by some cell. */
  lemma {:induction false} PiecesOfTypeMembers(cfg: Config, s: Snap, t: PieceType, n: nat)
    requires Shaped(cfg, s) && n <= cfg.xDim
    ensures forall id: PieceId :: id in PiecesOfType(cfg, s, t, n) <==> HoldsOfType(cfg, s, t, id, n, cfg.yDim)
  {
    if n > 0 {
      PiecesOfTypeMembers(cfg, s, t, n - 1);
      ColumnOfTypeMembers(cfg, s, t, n - 1, cfg.yDim);
      forall id: PieceId ensures id in PiecesOfType(cfg, s, t, n) <==> HoldsOfType(cfg, s, t, id, n, cfg.yDim) {
        PiecesOfTypeMember(cfg, s, t, n, id);
      }
    }
  }

  /** GetPiecesOfType has one entry per cell holding a piece of type `t`, so at most one
      per cell of the grid. */
  lemma PiecesOfTypeCount(cfg: Config, s: Snap, t: PieceType, n: nat)
    requires Shaped(cfg, s) && n <= cfg.xDim
    ensures |PiecesOfType(cfg, s, t, n)| == |CellsOfType(cfg, s, t, n, cfg.yDim)| <= n * cfg.yDim
  {
    PiecesOfTypeCells(cfg, s, t, n);
    CellsOfTypeBound(cfg, s, t, n);
  }

  /** One entry of GetPiecesOfType per cell holding a piece of type `t`. */
  lemma {:induction false} PiecesOfTypeCells(cfg: Config, s: Snap, t: PieceType, n: nat)
    requires Shaped(cfg, s) && n <= cfg.xDim
    ensures |PiecesOfType(cfg, s, t, n)| == |CellsOfType(cfg, s, t, n, cfg.yDim)|
  {
    if n == 0 {
      assert CellsOfType(cfg, s, t, n, cfg.yDim) == {};
    } else {
      var prev, col := CellsOfType(cfg, s, t, n - 1, cfg.yDim), ColumnCellsOfType(cfg, s, t, n - 1, cfg.yDim);
      assert |PiecesOfType(cfg, s, t, n)| == |PiecesOfType(cfg, s, t, n - 1)| + |ColumnOfType(cfg, s, t, n - 1, cfg.yDim)|;
      PiecesOfTypeCells(cfg, s, t, n - 1);
      ColumnOfTypeCount(cfg, s, t, n - 1, cfg.yDim);
      assert |PiecesOfType(cfg, s, t, n)| == |prev| + |col|;
      CellsStep(cfg, s, t, n);
      DisjointUnionSize(prev, col);
    }
  }

  /** Columns 0..n-1 hold at most n columns' worth of cells of type `t`. */
  lemma {:induction false} CellsOfTypeBound(cfg: Config, s: Snap, t: PieceType, n: nat)
    requires Shaped(cfg, s) && n <= cfg.xDim
    ensures |CellsOfType(cfg, s, t, n, cfg.yDim)| <= n * cfg.yDim
  {
    if n == 0 {
      assert CellsOfType(cfg, s, t, n, cfg.yDim) == {};
    } else {
      CellsOfTypeBound(cfg, s, t, n - 1);
      CellsOfTypeBoundStep(cfg, s, t, n);
    }
  }

  /** One more column adds at most one column's worth of cells. */
  lemma CellsOfTypeBoundStep(cfg: Config, s: Snap, t: PieceType, n: nat)
    requires Shaped(cfg, s) && 0 < n <= cfg.xDim
    requires |CellsOfType(cfg, s, t, n - 1, cfg.yDim)| <= (n - 1) * cfg.yDim
    ensures |CellsOfType(cfg, s, t, n, cfg.yDim)| <= n * cfg.yDim
  {
    var prev, col := CellsOfType(cfg, s, t, n - 1, cfg.yDim), ColumnCellsOfType(cfg, s, t, n - 1, cfg.yDim);
    CellsStep(cfg, s, t, n);
    DisjointUnionSize(prev, col);
    ColumnCellsBound(cfg, s, t, n - 1);
    ColumnsBound(n - 1, cfg.yDim, |prev|, |col|);
  }

  /** A column holds at most one cell of type `t` per row. */
  lemma ColumnCellsBound(cfg: Config, s: Snap, t: PieceType, x: int)
    requires Shaped(cfg, s) && 0 <= x < cfg.xDim
    ensures |ColumnCellsOfType(cfg, s, t, x, cfg.yDim)| <= cfg.yDim
  {
    ColumnOfTypeCount(cfg, s, t, x, cfg.yDim);
  }

  lemma DisjointUnionSize<T>(a: set<T>, b: set<T>)
    requires a * b == {}
    ensures |a + b| == |a| + |b|
  {
  }

  /** k columns of `rows` cells, then one more column. */
  lemma ColumnsBound(k: nat, rows: nat, a: nat, b: nat)
    requires a <= k * rows && b <= rows
    ensures a + b <= (k + 1) * rows
  {
    assert (k + 1) * rows == k * rows + rows;
  }

  /** One piece's membership, from the columns before the last and the last column. */
  lemma PiecesOfTypeMember(cfg: Config, s: Snap, t: PieceType, n: nat, id: PieceId)
    requires Shaped(cfg, s) && 0 < n <= cfg.xDim
    requires id in PiecesOfType(cfg, s, t, n - 1) <==> HoldsOfType(cfg, s, t, id, n - 1, cfg.yDim)
    requires id in ColumnOfType(cfg, s, t, n - 1, cfg.yDim) <==> HoldsOfType(cfg, s, t, id, n, cfg.yDim) && id in s.cells[n - 1][..cfg.yDim]
    ensures id in PiecesOfType(cfg, s, t, n) <==> HoldsOfType(cfg, s, t, id, n, cfg.yDim)
  {
    assert s.cells[n - 1][..cfg.yDim] == s.cells[n - 1];
    if HoldsOfType(cfg, s, t, id, n, cfg.yDim) {
      var x, y :| 0 <= x < n && 0 <= y < cfg.yDim && s.cells[x][y] == id && s.pieces[id].kind == t;
      if x < n - 1 {
        assert HoldsOfType(cfg, s, t, id, n - 1, cfg.yDim);
      } else {
        assert id in s.cells[n - 1];
      }
    }
    if id in PiecesOfType(cfg, s, t, n - 1) {
      var x, y :| 0 <= x < n - 1 && 0 <= y < cfg.yDim && s.cells[x][y] == id && s.pieces[id].kind == t;
      assert HoldsOfType(cfg, s, t, id, n, cfg.yDim);
    }
  }

  /** No cell in columns 0..n-1 and rows 0..m-1 holds a piece of type `t`. */
  ghost predicate NoneOfType(cfg: Config, s: Snap, t: PieceType, n: int, m: int)
    requires Shaped(cfg, s)
  {
    forall x, y | 0 <= x < n && 0 <= y < m && InBounds(cfg, x, y) :: At(cfg, s, x, y).kind != t
  }

  lemma {:induction false} ColumnOfTypeEmpty(cfg: Config, s: Snap, t: PieceType, x: int, n: nat)
    requires Shaped(cfg, s) && 0 <= x < cfg.xDim && n <= cfg.yDim
    ensures ColumnOfType(cfg, s, t, x, n) == [] <==> forall y | 0 <= y < n :: At(cfg, s, x, y).kind != t
  {
    if n > 0 {
      ColumnOfTypeEmpty(cfg, s, t, x, n - 1);
    }
  }

  /** GetPiecesOfType returns an empty list exactly when no cell holds a piece of type `t`. */
  lemma {:induction false} PiecesOfTypeEmpty(cfg: Config, s: Snap, t: PieceType, n: nat)
    requires Shaped(cfg, s) && n <= cfg.xDim
    ensures PiecesOfType(cfg, s, t, n) == [] <==> NoneOfType(cfg, s, t, n, cfg.yDim)
  {
    if n > 0 {
      PiecesOfTypeEmpty(cfg, s, t, n - 1);
      ColumnOfTypeEmpty(cfg, s, t, n - 1, cfg.yDim);
    }
  }

  /** LevelObstacles' starting count: the pieces of each obstacle type, type by type. */
  function ObstacleTotal(cfg: Config, s: Snap, types: seq<PieceType>): nat
    requires Shaped(cfg, s)
  {
    if types == [] then 0
    else ObstacleTotal(cfg, s, types[..|types| - 1]) + |PiecesOfType(cfg, s, types[|types| - 1], cfg.xDim)|
  }

  /** The obstacle count starts at zero exactly when no cell holds a piece of an obstacle type. */
  lemma {:induction false} ObstacleTotalZero(cfg: Config, s: Snap, types: seq<PieceType>)
    requires Shaped(cfg, s)
    ensures ObstacleTotal(cfg, s, types) == 0 <==>
      forall x, y | InBounds(cfg, x, y) :: At(cfg, s, x, y).kind !in types
  {
    if types != [] {
      var init, t := types[..|types| - 1], types[|types| - 1];
      ObstacleTotalZero(cfg, s, init);
      PiecesOfTypeEmpty(cfg, s, t, cfg.xDim);
      assert types == init + [t];
      assert forall k :: k in types <==> k in init || k == t;
    }
  }
}
