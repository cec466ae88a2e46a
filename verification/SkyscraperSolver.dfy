/** The skyscraper solver as it runs: grid and candidates changed in place and undone on failure. */
module SkyscraperSolver {
  import opened SkyscraperLines
  import opened Skyscrapers

  datatype Choice = DeadEnd | Done | Pick(cell: Cell)

  /** Invalid candidates found so far, as a set; one loop per rule of the source. */
  method CandidatesFor(p: Puzzle, g: Grid, x: Cell) returns (r: set<int>)
    requires Partial(p, g) && x in g && g[x] == 0
    ensures forall v :: v in r <==> Kept(p, g, x, v)
  {
    var n: int, row, col := p.n, x.0, x.1;
    var invalid: set<int> := {};
    for i := 0 to n
      invariant forall v :: v in invalid <==> exists k :: 0 <= k < i && g[(k, col)] == v && v != 0
    {
      if g[(i, col)] != 0 {
        invalid := invalid + {g[(i, col)]};
      }
    }
    ghost var inCol := invalid;
    for j := 0 to n
      invariant forall v :: v in invalid <==> v in inCol || exists k :: 0 <= k < j && g[(row, k)] == v && v != 0
    {
      if g[(row, j)] != 0 {
        invalid := invalid + {g[(row, j)]};
      }
    }
    ghost var inLines := invalid;
    LinesAsCells(p, g, x, inCol, inLines);
    invalid := AddFrom(invalid, n - p.top[col] + 2 + row, n);
    invalid := AddFrom(invalid, n - p.right[row] + 2 + (n - col), n);
    invalid := AddFrom(invalid, n - p.bottom[col] + 2 + (n - row), n);
    invalid := AddFrom(invalid, n - p.left[row] + 2 + col, n);
    r := {};
    for candidate := 1 to n + 1
      invariant forall v :: v in r <==> 1 <= v < candidate && v !in invalid
    {
      if candidate !in invalid {
        r := r + {candidate};
      }
    }
  }

  lemma LinesAsCells(p: Puzzle, g: Grid, x: Cell, inCol: set<int>, inLines: set<int>)
    requires Partial(p, g) && x in g && g[x] == 0
    requires forall v :: v in inCol <==> exists k :: 0 <= k < p.n && g[(k, x.1)] == v && v != 0
    requires forall v :: v in inLines <==> v in inCol || exists k :: 0 <= k < p.n && g[(x.0, k)] == v && v != 0
    ensures forall v :: v != 0 ==> (v in inLines <==> exists y :: y in g && SameLine(x, y) && g[y] == v)
  {
    forall v | v != 0 ensures v in inLines <==> exists y :: y in g && SameLine(x, y) && g[y] == v {
      if y :| y in g && SameLine(x, y) && g[y] == v {
        assert y == (y.0, x.1) || y == (x.0, y.1);
      }
      if k :| 0 <= k < p.n && g[(k, x.1)] == v {
        assert (k, x.1) in g && SameLine(x, (k, x.1));
      }
      if k :| 0 <= k < p.n && g[(x.0, k)] == v {
        assert (x.0, k) in g && SameLine(x, (x.0, k));
      }
    }
  }

  method AddFrom(s: set<int>, start: int, n: int) returns (r: set<int>)
    ensures forall v :: v in r <==> v in s || start <= v <= n
  {
    r := s;
    var i := start;
    while i <= n
      invariant start <= i
      invariant forall v :: v in r <==> v in s || (start <= v < i && v <= n)
    {
      r := r + {i};
      i := i + 1;
    }
  }

  /** The candidates of a cell: those kept if it is empty, none if it is given. */
  ghost predicate CellCandidates(p: Puzzle, g: Grid, x: Cell, s: set<int>)
    requires Partial(p, g) && x in g
  {
    forall v :: v in s <==> g[x] == 0 && Kept(p, g, x, v)
  }

  /** Candidates for every empty cell; none for given cells. */
  method GenerateCandidates(p: Puzzle, g: Grid) returns (cand: Candidates)
    requires Partial(p, g)
    ensures Covers(p.n, cand)
    ensures forall x :: x in g ==> CellCandidates(p, g, x, cand[x])
  {
    cand := map x | x in g :: {};
    for row := 0 to p.n
      invariant Covers(p.n, cand) && Generated(p, g, cand, row, 0)
    {
      for col := 0 to p.n
        invariant Covers(p.n, cand) && Generated(p, g, cand, row, col)
      {
        hide Generated;
        hide CellCandidates;
        if g[(row, col)] == 0 {
          var s := CandidatesFor(p, g, (row, col));
          GenerateStep(p, g, cand, row, col, s);
          cand := cand[(row, col) := s];
        } else {
          GenerateSkip(p, g, cand, row, col);
        }
      }
    }
  }

  /** The cells before (row, col) have their candidates, the others have none yet. */
  ghost predicate Generated(p: Puzzle, g: Grid, cand: Candidates, row: nat, col: nat)
    requires Partial(p, g) && Covers(p.n, cand)
  {
    forall x :: x in g ==> if x.0 < row || (x.0 == row && x.1 < col) then CellCandidates(p, g, x, cand[x]) else cand[x] == {}
  }

  lemma GenerateStep(p: Puzzle, g: Grid, cand: Candidates, row: nat, col: nat, s: set<int>)
    requires Partial(p, g) && Covers(p.n, cand) && Generated(p, g, cand, row, col) && row < p.n && col < p.n
    requires CellCandidates(p, g, (row, col), s)
    ensures Generated(p, g, cand[(row, col) := s], row, col + 1)
  {
    hide CellCandidates;
  }

  lemma GenerateSkip(p: Puzzle, g: Grid, cand: Candidates, row: nat, col: nat)
    requires Partial(p, g) && Covers(p.n, cand) && Generated(p, g, cand, row, col) && row < p.n && col < p.n
    requires g[(row, col)] != 0
    ensures Generated(p, g, cand, row, col + 1)
  {
    assert CellCandidates(p, g, (row, col), {});
    hide CellCandidates;
  }

  /** The candidates first generated satisfy the search invariant. */
  lemma InitialInvariant(p: Puzzle, rows: set<nat>, cols: set<nat>, g: Grid, cand: Candidates)
    requires Partial(p, g) && Open(p, g, rows, cols) && Covers(p.n, cand)
    requires forall x :: x in g ==> CellCandidates(p, g, x, cand[x])
    ensures Inv(p, rows, cols, g, cand)
  {
    forall x | x in g && g[x] == 0 ensures x.0 in rows && x.1 in cols {
      assert x == (x.0, x.1);
      assert !RowFull(p.n, g, x.0) && !ColFull(p.n, g, x.1);
    }
    forall h, x | Completes(p, rows, cols, g, h) && x in g && g[x] == 0 ensures h[x] in cand[x] {
      PruningKeepsCompletions(p, rows, cols, g, h, x);
    }
    forall x, v | x in g && g[x] == 0 && v in cand[x]
      ensures 1 <= v <= p.n && forall y :: y in g && SameLine(x, y) ==> g[y] != v
    {
      assert CellCandidates(p, g, x, cand[x]);
      assert Kept(p, g, x, v);
    }
  }

  /** v has been taken out of exactly the cells listed, where it was a candidate. */
  ghost predicate TakenOut(before: Candidates, after: Candidates, removed: seq<Cell>, v: int) {
    && after.Keys == before.Keys
    && (forall x :: x in removed ==> x in before && v in before[x])
    && (forall x :: x in before ==> after[x] == if x in removed then before[x] - {v} else before[x])
  }

  /** No board completes g. */
  ghost predicate Hopeless(p: Puzzle, rows: set<nat>, cols: set<nat>, g: Grid) {
    forall h :: !Completes(p, rows, cols, g, h)
  }

  /** The first i empty cells of the column, or of the row, do not have v. */
  ghost predicate ColumnClear(n: nat, g: Grid, cand: Candidates, c: nat, v: int, i: nat)
    requires Covers(n, g) && Covers(n, cand) && c < n && i <= n
  {
    forall k :: 0 <= k < i && g[(k, c)] == 0 ==> v !in cand[(k, c)]
  }

  ghost predicate RowClear(n: nat, g: Grid, cand: Candidates, r: nat, v: int, j: nat)
    requires Covers(n, g) && Covers(n, cand) && r < n && j <= n
  {
    forall k :: 0 <= k < j && g[(r, k)] == 0 ==> v !in cand[(r, k)]
  }

  lemma SameCover(n: nat, a: Candidates, b: Candidates)
    requires Covers(n, a) && a.Keys == b.Keys
    ensures Covers(n, b)
  {
  }

  lemma StaysClear(n: nat, g: Grid, was: Candidates, cand: Candidates, r: nat, c: nat, v: int)
    requires Covers(n, g) && Covers(n, was) && Covers(n, cand) && c < n && r < n
    requires forall y :: y in g && v !in was[y] ==> v !in cand[y]
    ensures forall i :: 0 <= i <= n && ColumnClear(n, g, was, c, v, i) ==> ColumnClear(n, g, cand, c, v, i)
    ensures forall j :: 0 <= j <= n && RowClear(n, g, was, r, v, j) ==> RowClear(n, g, cand, r, v, j)
  {
  }

  lemma ClearMore(n: nat, g: Grid, cand: Candidates, r: nat, c: nat, v: int)
    requires Covers(n, g) && Covers(n, cand) && c < n && r < n && (g[(r, c)] == 0 ==> v !in cand[(r, c)])
    ensures ColumnClear(n, g, cand, c, v, r) ==> ColumnClear(n, g, cand, c, v, r + 1)
    ensures RowClear(n, g, cand, r, v, c) ==> RowClear(n, g, cand, r, v, c + 1)
  {
  }

  lemma BothLinesPruned(n: nat, g: Grid, before: Candidates, cand: Candidates, removed: seq<Cell>, at: Cell, v: int)
    requires Covers(n, g) && Covers(n, cand) && Covers(n, before) && at in g
    requires TakenOut(before, cand, removed, v) && forall x :: x in removed ==> x in g && g[x] == 0 && SameLine(at, x)
    requires RowClear(n, g, cand, at.0, v, n) && ColumnClear(n, g, cand, at.1, v, n)
    ensures Pruned(g, before, cand, at, v)
  {
    forall x | x in g
      ensures cand[x] == if g[x] == 0 && SameLine(at, x) then before[x] - {v} else before[x]
    {
      assert x == (x.0, x.1);
    }
  }

  /** Every completion of g has one of the heights s at the cell. */
  ghost predicate OnlyWith(p: Puzzle, rows: set<nat>, cols: set<nat>, g: Grid, at: Cell, s: set<int>) {
    forall h :: Completes(p, rows, cols, g, h) ==> at in h && h[at] in s
  }

  lemma OnlyCandidates(p: Puzzle, rows: set<nat>, cols: set<nat>, g: Grid, cand: Candidates, at: Cell)
    requires Inv(p, rows, cols, g, cand) && at in g && g[at] == 0
    ensures OnlyWith(p, rows, cols, g, at, cand[at]) && forall v :: v in cand[at] ==> 1 <= v <= p.n
  {
  }

  lemma OnlyWithout(p: Puzzle, rows: set<nat>, cols: set<nat>, g: Grid, at: Cell, s: set<int>, v: int)
    requires OnlyWith(p, rows, cols, g, at, s) && at in g && g[at] == 0 && v != 0 && Hopeless(p, rows, cols, g[at := v])
    ensures OnlyWith(p, rows, cols, g, at, s - {v})
  {
    forall h | Completes(p, rows, cols, g, h) ensures at in h && h[at] in s - {v} {
      CompletesPlaced(p, rows, cols, g, at, v, h);
    }
  }

  lemma OnlyWithNothing(p: Puzzle, rows: set<nat>, cols: set<nat>, g: Grid, at: Cell)
    requires OnlyWith(p, rows, cols, g, at, {})
    ensures Hopeless(p, rows, cols, g)
  {
  }

  class Solver {
    const p: Puzzle
    var grid: Grid
    var cand: Candidates

    constructor (p: Puzzle, grid: Grid, cand: Candidates)
      ensures this.p == p && this.grid == grid && this.cand == cand
    {
      this.p, this.grid, this.cand := p, grid, cand;
    }

    /** The empty cell with fewest candidates, unless some empty cell has none or no cell is empty. */
    method PickCell() returns (c: Choice)
      requires Partial(p, grid) && Covers(p.n, cand)
      ensures c.DeadEnd? ==> exists x :: x in grid && grid[x] == 0 && cand[x] == {}
      ensures c.Done? ==> Full(grid)
      ensures c.Pick? ==> c.cell in grid && grid[c.cell] == 0
      ensures c.Pick? ==> forall x :: x in grid && grid[x] == 0 ==> 0 < |cand[c.cell]| <= |cand[x]|
    {
      c := Done;
      for row := 0 to p.n
        invariant !c.DeadEnd? && (c.Pick? ==> c.cell in grid && grid[c.cell] == 0 && |cand[c.cell]| > 0)
        invariant c.Done? ==> forall x :: x in grid && x.0 < row ==> grid[x] != 0
        invariant c.Pick? ==> forall x :: x in grid && x.0 < row && grid[x] == 0 ==> |cand[c.cell]| <= |cand[x]|
      {
        for col := 0 to p.n
          invariant !c.DeadEnd? && (c.Pick? ==> c.cell in grid && grid[c.cell] == 0 && |cand[c.cell]| > 0)
          invariant c.Done? ==> forall x :: x in grid && (x.0 < row || (x.0 == row && x.1 < col)) ==> grid[x] != 0
          invariant c.Pick? ==> forall x :: x in grid && (x.0 < row || (x.0 == row && x.1 < col)) && grid[x] == 0 ==> |cand[c.cell]| <= |cand[x]|
        {
          var x: Cell := (row, col);
          var num := |cand[x]|;
          if grid[x] == 0 && num == 0 {
            return DeadEnd;
          } else if grid[x] == 0 && (c.Done? || num < |cand[c.cell]|) {
            c := Pick(x);
          }
        }
      }
    }

    /** v has been taken out of some empty cells on the lines of `at`; `alive` says none of them is left without candidates. */
    ghost predicate Pruning(before: Candidates, removed: seq<Cell>, alive: bool, at: Cell, v: int)
      reads this
    {
      && TakenOut(before, cand, removed, v)
      && (alive <==> forall x :: x in removed ==> cand[x] != {})
      && forall x :: x in removed ==> x in grid && grid[x] == 0 && SameLine(at, x)
    }

    /** Takes v out of the candidates of one cell if it is empty and has it; counts filled cells. */
    method PruneCell(at: Cell, x: Cell, v: int, filled: nat, removed: seq<Cell>, alive: bool, ghost before: Candidates)
      returns (filled': nat, removed': seq<Cell>, alive': bool)
      requires x in grid && x in cand && Pruning(before, removed, alive, at, v) && (x == at || SameLine(at, x))
      requires at in grid && grid[at] != 0
      modifies this`cand
      ensures Pruning(before, removed', alive', at, v)
      ensures filled' == if grid[x] != 0 then filled + 1 else filled
      ensures cand.Keys == old(cand.Keys) && (grid[x] == 0 ==> v !in cand[x])
      ensures forall y :: y in before && v !in old(cand)[y] ==> v !in cand[y]
    {
      filled', removed', alive' := filled, removed, alive;
      if grid[x] != 0 {
        filled' := filled + 1;
      } else if v in cand[x] {
        assert x !in removed;
        cand := cand[x := cand[x] - {v}];
        removed' := removed + [x];
        assert forall y :: y in removed' <==> y in removed || y == x;
        alive' := alive && cand[x] != {};
      }
    }

    method PruneInColumn(at: Cell, i: nat, v: int, filled: nat, removed: seq<Cell>, alive: bool, ghost before: Candidates)
      returns (filled': nat, removed': seq<Cell>, alive': bool)
      requires Covers(p.n, grid) && Covers(p.n, cand) && at in grid && grid[at] != 0 && i < p.n
      requires Pruning(before, removed, alive, at, v) && ColumnClear(p.n, grid, cand, at.1, v, i)
      requires filled <= i && (filled == i <==> ColumnFilled(at.1, i))
      modifies this`cand
      ensures Covers(p.n, cand) && Pruning(before, removed', alive', at, v) && ColumnClear(p.n, grid, cand, at.1, v, i + 1)
      ensures filled' <= i + 1 && (filled' == i + 1 <==> ColumnFilled(at.1, i + 1))
    {
      assert before.Keys == cand.Keys == grid.Keys && (i, at.1) in grid;
      assert ColumnFilled(at.1, i + 1) <==> ColumnFilled(at.1, i) && grid[(i, at.1)] != 0;
      hide ColumnFilled;
      hide Pruning;
      hide ColumnClear;
      hide RowClear;
      hide Covers;
      ghost var was := cand;
      filled', removed', alive' := PruneCell(at, (i, at.1), v, filled, removed, alive, before);
      SameCover(p.n, was, cand);
      StaysClear(p.n, grid, was, cand, i, at.1, v);
      ClearMore(p.n, grid, cand, i, at.1, v);
    }

    method PruneInRow(at: Cell, j: nat, v: int, filled: nat, removed: seq<Cell>, alive: bool, ghost before: Candidates)
      returns (filled': nat, removed': seq<Cell>, alive': bool)
      requires Covers(p.n, grid) && Covers(p.n, cand) && at in grid && grid[at] != 0 && j < p.n
      requires Pruning(before, removed, alive, at, v) && RowClear(p.n, grid, cand, at.0, v, j)
      requires filled <= j && (filled == j <==> RowFilled(at.0, j))
      modifies this`cand
      ensures Covers(p.n, cand) && Pruning(before, removed', alive', at, v) && RowClear(p.n, grid, cand, at.0, v, j + 1)
      ensures filled' <= j + 1 && (filled' == j + 1 <==> RowFilled(at.0, j + 1))
      ensures forall y :: y in before && v !in old(cand)[y] ==> v !in cand[y]
    {
      assert before.Keys == cand.Keys == grid.Keys && (at.0, j) in grid;
      assert RowFilled(at.0, j + 1) <==> RowFilled(at.0, j) && grid[(at.0, j)] != 0;
      hide RowFilled;
      hide Pruning;
      hide ColumnClear;
      hide RowClear;
      hide Covers;
      ghost var was := cand;
      filled', removed', alive' := PruneCell(at, (at.0, j), v, filled, removed, alive, before);
      SameCover(p.n, was, cand);
      StaysClear(p.n, grid, was, cand, at.0, j, v);
      ClearMore(p.n, grid, cand, at.0, j, v);
    }

    method PruneColumn(at: Cell, v: int) returns (removed: seq<Cell>, alive: bool, colFull: bool)
      requires Covers(p.n, grid) && Covers(p.n, cand) && at in grid && grid[at] != 0
      modifies this`cand
      ensures Pruning(old(cand), removed, alive, at, v) && Covers(p.n, cand)
      ensures ColumnClear(p.n, grid, cand, at.1, v, p.n)
      ensures colFull <==> ColFull(p.n, grid, at.1)
    {
      removed, alive := [], true;
      var colFilled: nat := 0;
      for i := 0 to p.n
        invariant Covers(p.n, cand) && Pruning(old(cand), removed, alive, at, v) && ColumnClear(p.n, grid, cand, at.1, v, i)
        invariant colFilled <= i && (colFilled == i <==> ColumnFilled(at.1, i))
      {
        hide Pruning;
        hide ColumnClear;
        hide ColumnFilled;
        colFilled, removed, alive := PruneInColumn(at, i, v, colFilled, removed, alive, old(cand));
      }
      colFull := colFilled == p.n;
    }

    ghost predicate ColumnFilled(c: nat, i: nat)
      requires Covers(p.n, grid) && c < p.n && i <= p.n
      reads this`grid
    {
      forall k :: 0 <= k < i ==> grid[(k, c)] != 0
    }

    ghost predicate RowFilled(r: nat, j: nat)
      requires Covers(p.n, grid) && r < p.n && j <= p.n
      reads this`grid
    {
      forall k :: 0 <= k < j ==> grid[(r, k)] != 0
    }

    method PruneRow(at: Cell, v: int, removed0: seq<Cell>, alive0: bool, ghost before: Candidates)
      returns (removed: seq<Cell>, alive: bool, rowFull: bool)
      requires Covers(p.n, grid) && Covers(p.n, cand) && at in grid && grid[at] != 0
      requires before.Keys == grid.Keys && Pruning(before, removed0, alive0, at, v)
      modifies this`cand
      ensures Pruning(before, removed, alive, at, v) && Covers(p.n, cand)
      ensures RowClear(p.n, grid, cand, at.0, v, p.n)
      ensures forall y :: y in before && v !in old(cand)[y] ==> v !in cand[y]
      ensures rowFull <==> RowFull(p.n, grid, at.0)
    {
      removed, alive := removed0, alive0;
      var rowFilled: nat := 0;
      for j := 0 to p.n
        invariant Covers(p.n, cand) && Pruning(before, removed, alive, at, v) && RowClear(p.n, grid, cand, at.0, v, j)
        invariant before.Keys == grid.Keys && forall y :: y in before && v !in old(cand)[y] ==> v !in cand[y]
        invariant rowFilled <= j && (rowFilled == j <==> RowFilled(at.0, j))
      {
        hide Pruning;
        hide RowClear;
        hide RowFilled;
        rowFilled, removed, alive := PruneInRow(at, j, v, rowFilled, removed, alive, before);
      }
      rowFull := rowFilled == p.n;
    }

    /** Takes v out of the empty cells of the row and column of `at`, going down and then right. */
    method Prune(at: Cell, v: int) returns (removed: seq<Cell>, alive: bool, rowFull: bool, colFull: bool)
      requires Covers(p.n, grid) && Covers(p.n, cand) && at in grid && grid[at] != 0
      modifies this`cand
      ensures TakenOut(old(cand), cand, removed, v) && Covers(p.n, cand) && Pruned(grid, old(cand), cand, at, v)
      ensures alive <==> forall x :: x in removed ==> cand[x] != {}
      ensures forall x :: x in removed ==> x in grid && grid[x] == 0
      ensures (rowFull <==> RowFull(p.n, grid, at.0)) && (colFull <==> ColFull(p.n, grid, at.1))
    {
      removed, alive, colFull := PruneColumn(at, v);
      ghost var was := cand;
      removed, alive, rowFull := PruneRow(at, v, removed, alive, old(cand));
      hide RowFull;
      hide ColFull;
      hide RowClear;
      hide ColumnClear;
      StaysClear(p.n, grid, was, cand, at.0, at.1, v);
      BothLinesPruned(p.n, grid, old(cand), cand, removed, at, v);
    }

    /** Puts v back where it was taken out. */
    method Restore(removed: seq<Cell>, v: int, ghost before: Candidates)
      requires TakenOut(before, cand, removed, v)
      modifies this`cand
      ensures cand == before
    {
      for k := 0 to |removed|
        invariant cand.Keys == before.Keys
        invariant forall x :: x in before ==> cand[x] == if x in removed[k..] && x !in removed[..k] then before[x] - {v} else before[x]
      {
        var x := removed[k];
        assert removed[..k + 1] == removed[..k] + [x] && removed[k..] == [x] + removed[k + 1..];
        cand := cand[x := cand[x] + {v}];
      }
    }

    /** Checks the hints of the row and the column of `at`, each only when it is full. */
    method HintsOkay(at: Cell, rowFull: bool, colFull: bool) returns (okay: bool)
      requires Sized(p) && Covers(p.n, grid) && at in grid
      requires (rowFull <==> RowFull(p.n, grid, at.0)) && (colFull <==> ColFull(p.n, grid, at.1))
      ensures okay <==> (RowFull(p.n, grid, at.0) ==> RowMet(p, grid, at.0)) && (ColFull(p.n, grid, at.1) ==> ColMet(p, grid, at.1))
    {
      var rowHintOkay, colHintOkay := true, true;
      if rowFull {
        rowHintOkay := LineHintsOkay(Row(p.n, grid, at.0), p.left[at.0], p.right[at.0]);
      }
      if colFull {
        colHintOkay := LineHintsOkay(Col(p.n, grid, at.1), p.top[at.1], p.bottom[at.1]);
      }
      okay := rowHintOkay && colHintOkay;
    }

    /** Tries v at an empty cell; on failure everything is as before and no completion has v there. */
    method TryCandidate(at: Cell, v: int, ghost rows: set<nat>, ghost cols: set<nat>) returns (ok: bool)
      requires Inv(p, rows, cols, grid, cand) && at in grid && grid[at] == 0 && v in cand[at]
      modifies this
      ensures ok ==> Completes(p, rows, cols, old(grid), grid)
      ensures !ok ==> grid == old(grid) && cand == old(cand)
      ensures v != 0 && (!ok ==> Hopeless(p, rows, cols, old(grid)[at := v]))
      decreases |EmptyCells(grid)|, 0
    {
      ghost var g0, c0 := grid, cand;
      CandidateFacts(p, rows, cols, g0, c0, at, v);
      hide Inv;
      hide Partial;
      FewerEmpty(g0, at, v);
      grid := grid[at := v];
      var removed, alive, rowFull, colFull := Prune(at, v);
      var hintsOkay := HintsOkay(at, rowFull, colFull);
      ghost var g1, c1 := grid, cand;
      PlacedFacts(p, rows, cols, g0, c0, g1, c1, at, v);
      hide Pruned;
      hide Completes;
      hide Hopeless;
      if alive && hintsOkay {
        ok := BacktrackSolve(rows, cols);
        if ok {
          StillCompletes(p, rows, cols, g0, at, v, grid);
          return true;
        }
      } else {
        NothingLeft(p, rows, cols, g1, c1, at, removed, alive);
      }
      UndoPlace(g0, at, v);
      grid := grid[at := 0];
      Restore(removed, v, c0);
      return false;
    }

    /** Depth-first search for a completion; on failure grid and candidates are exactly as before. */
    method BacktrackSolve(ghost rows: set<nat>, ghost cols: set<nat>) returns (ok: bool)
      requires Inv(p, rows, cols, grid, cand)
      modifies this
      ensures ok ==> Completes(p, rows, cols, old(grid), grid)
      ensures !ok ==> grid == old(grid) && cand == old(cand) && Hopeless(p, rows, cols, old(grid))
      decreases |EmptyCells(grid)|, 2
    {
      var choice := PickCell();
      if choice.DeadEnd? {
        ghost var x :| x in grid && grid[x] == 0 && cand[x] == {};
        NoCandidateNoCompletion(p, rows, cols, grid, cand, x);
        return false;
      } else if choice.Done? {
        FullIsDone(p, rows, cols, grid, cand);
        return true;
      }
      ok := TryAll(choice.cell, rows, cols);
    }

    /** Tries the candidates of an empty cell in some order. */
    method TryAll(at: Cell, ghost rows: set<nat>, ghost cols: set<nat>) returns (ok: bool)
      requires Inv(p, rows, cols, grid, cand) && at in grid && grid[at] == 0 && at in cand
      modifies this
      ensures ok ==> Completes(p, rows, cols, old(grid), grid)
      ensures !ok ==> grid == old(grid) && cand == old(cand) && Hopeless(p, rows, cols, old(grid))
      decreases |EmptyCells(grid)|, 1
    {
      hide Inv;
      hide Completes;
      hide OnlyWith;
      OnlyCandidates(p, rows, cols, grid, cand, at);
      var todo := cand[at];
      while todo != {}
        invariant grid == old(grid) && cand == old(cand) && todo <= cand[at]
        invariant OnlyWith(p, rows, cols, grid, at, todo) && forall v :: v in todo ==> 1 <= v <= p.n
        decreases |todo|
      {
        ghost var w := SomeElement(todo, p.n);
        var v :| v in todo;
        ok := TryCandidate(at, v, rows, cols);
        if ok {
          return true;
        }
        OnlyWithout(p, rows, cols, grid, at, todo, v);
        todo := todo - {v};
      }
      OnlyWithNothing(p, rows, cols, grid, at);
      return false;
    }
  }

  lemma CandidateFacts(p: Puzzle, rows: set<nat>, cols: set<nat>, g: Grid, cand: Candidates, at: Cell, v: int)
    requires Inv(p, rows, cols, g, cand) && at in g && g[at] == 0 && v in cand[at]
    ensures v != 0 && at.0 in rows && at.1 in cols && Sized(p) && Covers(p.n, g) && Covers(p.n, cand)
    ensures Partial(p, g[at := v]) && Covers(p.n, g[at := v])
  {
    PlaceKeepsLatin(p, g, cand, at, v);
  }

  /** The invariant after placing and pruning, if the lines just filled meet their hints. */
  lemma PlacedFacts(p: Puzzle, rows: set<nat>, cols: set<nat>, g0: Grid, c0: Candidates, g: Grid, cand: Candidates, at: Cell, v: int)
    requires Inv(p, rows, cols, g0, c0) && at in g0 && g0[at] == 0 && v in c0[at] && v != 0
    requires g == g0[at := v] && Partial(p, g) && Covers(p.n, cand) && Pruned(g, c0, cand, at, v)
    ensures Complete(p, rows, cols, g, cand)
    ensures (RowFull(p.n, g, at.0) ==> RowMet(p, g, at.0)) && (ColFull(p.n, g, at.1) ==> ColMet(p, g, at.1))
            ==> Inv(p, rows, cols, g, cand)
  {
    PlaceKeepsSound(p, g0, c0, cand, at, v);
    PlaceKeepsComplete(p, rows, cols, g0, c0, cand, at, v);
    if (RowFull(p.n, g, at.0) ==> RowMet(p, g, at.0)) && (ColFull(p.n, g, at.1) ==> ColMet(p, g, at.1)) {
      PlaceKeepsChecked(p, rows, cols, g0, at, v);
    }
  }

  lemma SomeElement(s: set<int>, n: nat) returns (w: int)
    requires s != {} && forall v :: v in s ==> 1 <= v <= n
    ensures w in s
  {
    w := n;
    while w > 0 && w !in s
      invariant 0 <= w <= n && forall v :: v in s ==> v <= w
    {
      w := w - 1;
    }
    assert w == 0 ==> s == {};
  }

  lemma UndoPlace(g: Grid, at: Cell, v: int)
    requires at in g && g[at] == 0
    ensures g[at := v][at := 0] == g
  {
  }

  lemma StillCompletes(p: Puzzle, rows: set<nat>, cols: set<nat>, g: Grid, at: Cell, v: int, h: Grid)
    requires at in g && g[at] == 0 && v != 0 && Completes(p, rows, cols, g[at := v], h)
    ensures Completes(p, rows, cols, g, h)
  {
    CompletesPlaced(p, rows, cols, g, at, v, h);
  }

  method LineHintsOkay(s: seq<int>, near: nat, far: nat) returns (ok: bool)
    ensures ok <==> HintsMet(s, near, far)
  {
    var left, right := ComputeHintActuals(s);
    ok := (near == 0 || left == near) && (far == 0 || right == far);
  }

  lemma FewerEmpty(g: Grid, x: Cell, v: int)
    requires x in g && g[x] == 0 && v != 0
    ensures |EmptyCells(g[x := v])| < |EmptyCells(g)|
  {
    assert EmptyCells(g[x := v]) == EmptyCells(g) - {x};
  }

  lemma NoCandidateNoCompletion(p: Puzzle, rows: set<nat>, cols: set<nat>, g: Grid, cand: Candidates, x: Cell)
    requires Partial(p, g) && Covers(p.n, cand) && Complete(p, rows, cols, g, cand) && x in g && g[x] == 0 && cand[x] == {}
    ensures Hopeless(p, rows, cols, g)
  {
  }

  /** A placement that empties a neighbour's candidates or breaks a hint has no completion. */
  lemma NothingLeft(p: Puzzle, rows: set<nat>, cols: set<nat>, g: Grid, cand: Candidates, at: Cell, removed: seq<Cell>, alive: bool)
    requires Partial(p, g) && Covers(p.n, cand) && Complete(p, rows, cols, g, cand) && at in g && at.0 in rows && at.1 in cols
    requires forall x :: x in removed ==> x in g && g[x] == 0
    requires alive <==> forall x :: x in removed ==> cand[x] != {}
    requires alive ==> (RowFull(p.n, g, at.0) && !RowMet(p, g, at.0)) || (ColFull(p.n, g, at.1) && !ColMet(p, g, at.1))
    ensures Hopeless(p, rows, cols, g)
  {
    if alive {
      FailedHintIsFinal(p, rows, cols, g, at);
    } else {
      var x :| x in removed && cand[x] == {};
      NoCandidateNoCompletion(p, rows, cols, g, cand, x);
    }
  }

  /** Solves a puzzle. True: the grid becomes a completion that meets the hints of every line that
      had an empty cell. False: there is no such completion, and the grid is unchanged. */
  method Solve(p: Puzzle, g: Grid, ghost rows: set<nat>, ghost cols: set<nat>) returns (ok: bool, solved: Grid)
    requires Partial(p, g) && Open(p, g, rows, cols)
    ensures ok ==> Completes(p, rows, cols, g, solved)
    ensures !ok ==> solved == g
    ensures !ok <==> Hopeless(p, rows, cols, g)
  {
    var cand := GenerateCandidates(p, g);
    InitialInvariant(p, rows, cols, g, cand);
    var solver := new Solver(p, g, cand);
    ok := solver.BacktrackSolve(rows, cols);
    solved := solver.grid;
  }

  /** Lines complete in the given grid are not checked: the answer meets all hints exactly when they do. */
  lemma AllHintsMetIff(p: Puzzle, rows: set<nat>, cols: set<nat>, g: Grid, h: Grid)
    requires Partial(p, g) && Open(p, g, rows, cols) && Completes(p, rows, cols, g, h)
    ensures (forall k :: 0 <= k < p.n ==> RowMet(p, h, k) && ColMet(p, h, k)) <==>
            (forall k :: 0 <= k < p.n ==> (k !in rows ==> RowMet(p, g, k)) && (k !in cols ==> ColMet(p, g, k)))
  {
    forall k | 0 <= k < p.n
      ensures RowMet(p, h, k) && ColMet(p, h, k) <==> (k !in rows ==> RowMet(p, g, k)) && (k !in cols ==> ColMet(p, g, k))
    {
      LineHintsMetIff(p, rows, cols, g, h, k);
    }
    hide RowMet;
    hide ColMet;
  }

  lemma LineHintsMetIff(p: Puzzle, rows: set<nat>, cols: set<nat>, g: Grid, h: Grid, k: nat)
    requires Partial(p, g) && Open(p, g, rows, cols) && Completes(p, rows, cols, g, h) && k < p.n
    ensures RowMet(p, h, k) <==> (k !in rows ==> RowMet(p, g, k))
    ensures ColMet(p, h, k) <==> (k !in cols ==> ColMet(p, g, k))
  {
    assert (k, k) in g;
    FullLinesAgree(p, rows, cols, g, h, (k, k));
    assert k !in rows ==> RowFull(p.n, g, k);
    assert k !in cols ==> ColFull(p.n, g, k);
  }
}
