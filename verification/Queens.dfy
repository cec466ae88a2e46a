/** The region-queens puzzle and its stack-driven backtracking search. */
module Queens {
  import opened ModArith

  // ----- the puzzle -----

  datatype Board = Board(n: nat, grid: seq<seq<nat>>)

  /** A non-empty square grid with exactly as many regions as rows. */
  ghost predicate WellFormed(b: Board) {
    && b.n > 0 && |b.grid| == b.n
    && (forall r :: 0 <= r < b.n ==> |b.grid[r]| == b.n)
    && |AllRegions(b)| == b.n
  }

  ghost function AllRegions(b: Board): (s: set<nat>)
    requires |b.grid| == b.n && forall r :: 0 <= r < b.n ==> |b.grid[r]| == b.n
  {
    set r, c | 0 <= r < b.n && 0 <= c < b.n :: b.grid[r][c]
  }

  function Region(b: Board, r: nat, c: nat): (g: nat)
    requires WellFormed(b) && r < b.n && c < b.n
  {
    b.grid[r][c]
  }

  predicate Touch(r: nat, c: nat, r': nat, c': nat) {
    -1 <= r - r' <= 1 && -1 <= c - c' <= 1
  }

  /** Queens in rows k < l do not share a column or a region, and do not touch. */
  ghost predicate Apart(b: Board, q: seq<nat>, k: nat, l: nat)
    requires WellFormed(b) && k < |q| && l < |q| && |q| <= b.n && q[k] < b.n && q[l] < b.n
  {
    q[k] != q[l] && Region(b, k, q[k]) != Region(b, l, q[l]) && !Touch(k, q[k], l, q[l])
  }

  /** The columns q of the queens in the first rows are a legal partial placement. */
  ghost predicate Legal(b: Board, q: seq<nat>)
    requires WellFormed(b)
  {
    && |q| <= b.n
    && (forall k :: 0 <= k < |q| ==> q[k] < b.n)
    && (forall k, l :: 0 <= k < l < |q| ==> Apart(b, q, k, l))
  }

  ghost predicate Solved(b: Board, q: seq<nat>)
    requires WellFormed(b)
  {
    Legal(b, q) && |q| == b.n
  }

  ghost function UsedColumns(q: seq<nat>): (s: set<nat>) {
    set k | 0 <= k < |q| :: q[k]
  }

  ghost function UsedRegions(b: Board, q: seq<nat>): (s: set<nat>)
    requires WellFormed(b) && Legal(b, q)
  {
    set k | 0 <= k < |q| :: Region(b, k, q[k])
  }

  function Columns(n: nat): (s: set<nat>)
    ensures |s| == n && forall c: nat :: c in s <==> c < n
  {
    if n == 0 then {} else Columns(n - 1) + {n - 1}
  }

  lemma LegalPrefix(b: Board, q: seq<nat>, k: nat)
    requires WellFormed(b) && Legal(b, q) && k <= |q|
    ensures Legal(b, q[..k])
  {
    forall i, j | 0 <= i < j < k ensures Apart(b, q[..k], i, j) {
      assert Apart(b, q, i, j);
    }
  }

  lemma {:induction false} UsedCounts(b: Board, q: seq<nat>)
    requires WellFormed(b) && Legal(b, q)
    ensures |UsedColumns(q)| == |q| && UsedColumns(q) <= Columns(b.n)
    ensures |UsedRegions(b, q)| == |q| && UsedRegions(b, q) <= AllRegions(b)
    decreases |q|
  {
    if q != [] {
      var n := |q| - 1;
      LegalPrefix(b, q, n);
      UsedCounts(b, q[..n]);
      assert q == q[..n] + [q[n]];
      UsedGrows(b, q[..n], q[n]);
      assert UsedColumns(q) == UsedColumns(q[..n]) + {q[n]};
      assert UsedRegions(b, q) == UsedRegions(b, q[..n]) + {Region(b, n, q[n])};
    }
  }

  lemma SubsetSameSize<T>(a: set<T>, b: set<T>)
    requires a <= b && |a| == |b|
    ensures a == b
  {
    assert |b - a| == |b| - |a|;
  }

  /** A solution has exactly one queen in every column and in every region. */
  lemma SolutionCovers(b: Board, q: seq<nat>)
    requires WellFormed(b) && Solved(b, q)
    ensures UsedColumns(q) == Columns(b.n) && UsedRegions(b, q) == AllRegions(b)
  {
    UsedCounts(b, q);
    SubsetSameSize(UsedColumns(q), Columns(b.n));
    SubsetSameSize(UsedRegions(b, q), AllRegions(b));
  }

  // ----- lexicographic order of placements -----

  predicate BeforeAt(q: seq<nat>, p: seq<nat>, k: nat) {
    k < |p| && k < |q| && q[..k] == p[..k] && q[k] < p[k]
  }

  ghost predicate Before(q: seq<nat>, p: seq<nat>) {
    exists k :: BeforeAt(q, p, k)
  }

  /** Every solution is at or after the columns on the stack. */
  ghost predicate NoneBefore(b: Board, p: seq<nat>)
    requires WellFormed(b)
  {
    forall q :: Solved(b, q) ==> !Before(q, p)
  }

  lemma BeforePush(q: seq<nat>, p: seq<nat>, k: nat)
    requires BeforeAt(q, p + [0], k)
    ensures BeforeAt(q, p, k)
  {
    assert (p + [0])[..k] == p[..k];
  }

  lemma BeforeNext(q: seq<nat>, p: seq<nat>, c: nat, k: nat)
    requires BeforeAt(q, p + [c + 1], k)
    ensures BeforeAt(q, p + [c], k) || (k == |p| < |q| && q[..k + 1] == p + [c])
  {
    assert (p + [c + 1])[..k] == p[..k] == (p + [c])[..k];
    assert q[..k + 1] == q[..k] + [q[k]];
  }

  lemma BeforeLonger(q: seq<nat>, p: seq<nat>, c: nat, k: nat)
    requires BeforeAt(q, p, k)
    ensures BeforeAt(q, p + [c], k)
  {
    assert (p + [c])[..k] == p[..k];
  }

  /** Descending to the next row rules nothing out. */
  lemma NoneBeforePush(b: Board, p: seq<nat>)
    requires WellFormed(b) && NoneBefore(b, p)
    ensures NoneBefore(b, p + [0])
  {
    forall q | Solved(b, q) ensures !Before(q, p + [0]) {
      if k: nat :| BeforeAt(q, p + [0], k) {
        BeforePush(q, p, k);
        assert false;
      }
    }
  }

  /** Moving to the next column rules out placements that continue the illegal one. */
  lemma NoneBeforeNext(b: Board, p: seq<nat>, c: nat)
    requires WellFormed(b) && NoneBefore(b, p + [c]) && |p| < b.n
    requires forall q :: Solved(b, q) ==> q[..|p| + 1] != p + [c]
    ensures NoneBefore(b, p + [c + 1])
  {
    var t := p + [c + 1];
    forall q | Solved(b, q) ensures !Before(q, t) {
      if k: nat :| BeforeAt(q, t, k) {
        BeforeNext(q, p, c, k);
        assert false;
      }
    }
  }

  /** A row whose columns are all ruled out rules out the queen above it. */
  lemma NoneBeforePop(b: Board, p: seq<nat>, c: nat)
    requires WellFormed(b) && NoneBefore(b, p + [c] + [b.n]) && |p| + 1 < b.n
    ensures NoneBefore(b, p + [c + 1])
  {
    var t := p + [c + 1];
    forall q | Solved(b, q) ensures !Before(q, t) {
      if k: nat :| BeforeAt(q, t, k) {
        BeforePop(q, p, c, b.n, k);
        assert false;
      }
    }
  }

  lemma BeforePop(q: seq<nat>, p: seq<nat>, c: nat, n: nat, k: nat)
    requires BeforeAt(q, p + [c + 1], k) && |p| + 1 < |q| && q[|p| + 1] < n
    ensures BeforeAt(q, p + [c] + [n], k) || BeforeAt(q, p + [c] + [n], k + 1)
  {
    BeforeNext(q, p, c, k);
    if BeforeAt(q, p + [c], k) {
      BeforeLonger(q, p + [c], n, k);
    } else {
      assert (p + [c] + [n])[..k + 1] == p + [c];
    }
  }

  // ----- termination: the stack decreases as a number -----

  function Digit(n: nat, cols: seq<nat>, k: nat): (d: int) {
    if k < |cols| then n - cols[k] else n + 1
  }

  ghost function Horner(n: nat, cols: seq<nat>, k: nat): (h: int) {
    if k == 0 then 0 else Horner(n, cols, k - 1) * (n + 2) + Digit(n, cols, k - 1)
  }

  ghost predicate Bounded(n: nat, cols: seq<nat>) {
    forall k :: 0 <= k < |cols| ==> cols[k] <= n
  }

  lemma {:induction false} HornerSame(n: nat, a: seq<nat>, b: seq<nat>, k: nat)
    requires forall i :: 0 <= i < k ==> Digit(n, a, i) == Digit(n, b, i)
    ensures Horner(n, a, k) == Horner(n, b, k)
  {
    if k > 0 {
      HornerSame(n, a, b, k - 1);
    }
  }

  lemma {:induction false} HornerLess(n: nat, a: seq<nat>, b: seq<nat>, k: nat, m: nat)
    requires Bounded(n, a) && Bounded(n, b) && k < m
    requires forall i :: 0 <= i < k ==> Digit(n, a, i) == Digit(n, b, i)
    requires Digit(n, a, k) < Digit(n, b, k)
    ensures Horner(n, a, m) < Horner(n, b, m)
    decreases m
  {
    if m == k + 1 {
      HornerSame(n, a, b, k);
    } else {
      HornerLess(n, a, b, k, m - 1);
      var x, y := Horner(n, a, m - 1), Horner(n, b, m - 1);
      HigherDigitWins(x, y, n + 2, Digit(n, a, m - 1), Digit(n, b, m - 1));
    }
  }

  lemma HigherDigitWins(x: int, y: int, base: int, dx: int, dy: int)
    requires x < y && 0 <= dx < base && dy >= 0
    ensures x * base + dx < y * base + dy
  {
    MulNonNegative(y - x - 1, base);
    assert (y - x - 1) * base == y * base - x * base - base;
  }

  lemma {:induction false} HornerNonNegative(n: nat, a: seq<nat>, k: nat)
    requires Bounded(n, a)
    ensures Horner(n, a, k) >= 0
  {
    if k > 0 {
      HornerNonNegative(n, a, k - 1);
    }
  }

  // ----- the solver -----

  class QueensSolver {
    const board: Board
    const solution: array2<bool>
    var cols: set<nat>
    var regions: set<nat>

    /** The free columns, free regions and marked cells are those of the placement q. */
    ghost predicate Placed(q: seq<nat>)
      reads this, solution
    {
      && WellFormed(board) && Legal(board, q)
      && solution.Length0 == board.n && solution.Length1 == board.n
      && cols == Columns(board.n) - UsedColumns(q)
      && regions == AllRegions(board) - UsedRegions(board, q)
      && Marked(q)
    }

    /** The marked cells are the queens of q. */
    ghost predicate Marked(q: seq<nat>)
      requires solution.Length0 == board.n && solution.Length1 == board.n
      reads solution
    {
      forall r, c :: 0 <= r < board.n && 0 <= c < board.n ==> (solution[r, c] <==> r < |q| && q[r] == c)
    }

    constructor (board: Board)
      requires WellFormed(board)
      ensures this.board == board && fresh(solution) && Placed([])
    {
      this.board := board;
      cols := Columns(board.n);
      regions := set r, c | 0 <= r < board.n && 0 <= c < board.n :: board.grid[r][c];
      solution := new bool[board.n, board.n]((_, _) => false);
      new;
      assert UsedColumns([]) == {} && UsedRegions(board, []) == {};
    }

    /** A queen stands on (r, c), next to the given cell. */
    ghost predicate QueenNear(row: nat, col: nat, r: nat, c: nat)
      requires solution.Length0 == board.n && solution.Length1 == board.n
      reads solution
    {
      r < board.n && c < board.n && !(r == row && c == col) && Touch(row, col, r, c) && solution[r, c]
    }

    /** True if some neighbour of the cell has a queen. */
    method CheckNeighbours(row: nat, col: nat) returns (found: bool)
      requires solution.Length0 == board.n && solution.Length1 == board.n
      ensures found <==> exists r: nat, c: nat :: QueenNear(row, col, r, c)
    {
      for dr := -1 to 2
        invariant forall r: nat, c: nat :: r - row < dr ==> !QueenNear(row, col, r, c)
      {
        for dc := -1 to 2
          invariant forall r: nat, c: nat :: r - row < dr || (r - row == dr && c - col < dc) ==> !QueenNear(row, col, r, c)
        {
          var cRow, cCol := row + dr, col + dc;
          if (dr == 0 && dc == 0) || (cRow < 0 || cCol < 0 || cRow >= board.n || cCol >= board.n) {
          } else if solution[cRow, cCol] {
            assert QueenNear(row, col, cRow, cCol);
            return true;
          }
        }
      }
      return false;
    }

    /** The cell can take a queen exactly when the placement stays legal with it. */
    method Check(row: nat, col: nat, ghost q: seq<nat>) returns (ok: bool)
      requires Placed(q) && row == |q|
      ensures ok <==> Legal(board, q + [col])
    {
      LegalExtends(board, q, col);
      if row >= board.n || col >= board.n {
        return false;
      } else if col !in cols {
        return false;
      } else if board.grid[row][col] !in regions {
        assert Region(board, row, col) in AllRegions(board);
        return false;
      }
      var near := CheckNeighbours(row, col);
      NearMeansTouching(q, col);
      return !near;
    }

    lemma NearMeansTouching(q: seq<nat>, col: nat)
      requires Placed(q)
      ensures (exists r: nat, c: nat :: QueenNear(|q|, col, r, c)) <==> exists k :: TouchesQueen(q, col, k)
    {
      if r: nat, c: nat :| QueenNear(|q|, col, r, c) {
        assert TouchesQueen(q, col, r);
      }
      if k :| TouchesQueen(q, col, k) {
        assert QueenNear(|q|, col, k, q[k]);
      }
    }

    method Set(row: nat, col: nat, ghost q: seq<nat>)
      requires Placed(q) && row == |q| && Legal(board, q + [col])
      modifies this, solution
      ensures Placed(q + [col])
    {
      UsedGrows(board, q, col);
      SetMark(row, col, q);
      cols := cols - {col};
      regions := regions - {board.grid[row][col]};
      assert Legal(board, q + [col]) && Marked(q + [col]);
      hide Legal;
      hide UsedColumns;
      hide UsedRegions;
      hide Marked;
    }

    method SetMark(row: nat, col: nat, ghost q: seq<nat>)
      requires solution.Length0 == board.n && solution.Length1 == board.n
      requires row == |q| < board.n && col < board.n && Marked(q)
      modifies solution
      ensures Marked(q + [col])
    {
      assert forall r :: 0 <= r < |q| ==> (q + [col])[r] == q[r];
      solution[row, col] := true;
    }

    method Unset(row: nat, col: nat, ghost q: seq<nat>)
      requires Placed(q + [col]) && row == |q|
      modifies this, solution
      ensures Placed(q)
    {
      ghost var p := q + [col];
      LegalPrefix(board, p, |q|);
      assert p[..|q|] == q && p[|q|] == col;
      UsedGrows(board, q, col);
      FreeAgain(board, q, col);
      ClearMark(row, col, q);
      cols := cols + {col};
      regions := regions + {board.grid[row][col]};
      assert Legal(board, q) && Marked(q);
      hide Legal;
      hide UsedColumns;
      hide UsedRegions;
      hide Marked;
    }

    method ClearMark(row: nat, col: nat, ghost q: seq<nat>)
      requires solution.Length0 == board.n && solution.Length1 == board.n
      requires row == |q| < board.n && col < board.n && Marked(q + [col])
      modifies solution
      ensures Marked(q)
    {
      assert forall r :: 0 <= r < |q| ==> (q + [col])[r] == q[r];
      solution[row, col] := false;
    }

    /** The stack matches the placement q, and every solution is at or after it. */
    ghost predicate Searching(stk: seq<(nat, nat)>, q: seq<nat>)
      reads this, solution
    {
      && Placed(q) && Aligned(stk, q)
      && stk[|q|].1 <= board.n && NoneBefore(board, Tops(stk))
    }

    ghost function Rank(stk: seq<(nat, nat)>): (h: int) {
      Horner(board.n, Tops(stk), board.n + 1)
    }

    lemma RankDrops(stk: seq<(nat, nat)>, stk': seq<(nat, nat)>, k: nat)
      requires Bounded(board.n, Tops(stk)) && Bounded(board.n, Tops(stk')) && k <= board.n
      requires forall i :: 0 <= i < k ==> i < |stk| && i < |stk'| && stk[i].1 == stk'[i].1
      requires k < |stk'| && (k < |stk| ==> stk[k].1 < stk'[k].1)
      ensures 0 <= Rank(stk') < Rank(stk)
    {
      HornerNonNegative(board.n, Tops(stk'), board.n + 1);
      HornerLess(board.n, Tops(stk'), Tops(stk), k, board.n + 1);
    }

    lemma SearchingBounded(stk: seq<(nat, nat)>, q: seq<nat>)
      requires Searching(stk, q)
      ensures Bounded(board.n, Tops(stk)) && |stk| == |q| + 1
      ensures Tops(stk) == q + [stk[|q|].1]
      ensures Placed(q) && stk[|q|].0 == |q| <= board.n && stk[|q|].1 <= board.n
    {
    }

    lemma StartSearching()
      requires Placed([])
      ensures Searching([(0, 0)], []) && Rank([(0, 0)]) >= 0
    {
      assert Tops([(0, 0)]) == [0];
      HornerNonNegative(board.n, [0], board.n + 1);
    }

    lemma Found(stk: seq<(nat, nat)>, q: seq<nat>)
      requires Searching(stk, q) && |q| == board.n
      ensures Placed(q) && Solved(board, q) && cols == {} && regions == {}
      ensures forall p :: Solved(board, p) ==> !Before(p, q)
    {
      FirstSolution(board, q, Tops(stk));
      SolutionCovers(board, q);
    }

    /** All columns of a row tried: take the queen above off and move it on. */
    method Backtrack(stk: seq<(nat, nat)>, ghost q: seq<nat>) returns (stk': seq<(nat, nat)>, ghost q': seq<nat>)
      requires Searching(stk, q) && |q| < board.n && stk[|q|].1 == board.n
      modifies this, solution
      ensures stk' == [] ==> q' == [] && Placed(q') && !exists p :: Solved(board, p)
      ensures stk' != [] ==> Searching(stk', q') && 0 <= Rank(stk') < Rank(stk)
    {
      SearchingBounded(stk, q);
      stk', q' := stk[..|stk| - 1], q;
      if stk' != [] {
        var (r, c) := stk'[|stk'| - 1];
        q' := q[..|q| - 1];
        assert q == q' + [c];
        NoneBeforePop(board, q', c);
        stk' := stk'[|stk'| - 1 := (r, c + 1)];
        assert Tops(stk') == q' + [c + 1];
        RankDrops(stk, stk', r);
        Unset(r, c, q');
      } else {
        NoneAtAll(board, Tops(stk));
      }
    }

    /** The cell takes a queen: place it and start the next row. */
    method Descend(stk: seq<(nat, nat)>, ghost q: seq<nat>) returns (stk': seq<(nat, nat)>, ghost q': seq<nat>)
      requires Searching(stk, q) && |q| < board.n && Legal(board, q + [stk[|q|].1])
      modifies this, solution
      ensures stk' != [] && Searching(stk', q') && 0 <= Rank(stk') < Rank(stk)
    {
      SearchingBounded(stk, q);
      var (row, col) := stk[|stk| - 1];
      NoneBeforePush(board, Tops(stk));
      Set(row, col, q);
      stk' := stk + [(row + 1, 0)];
      q' := q + [col];
      assert Tops(stk') == Tops(stk) + [0];
      RankDrops(stk, stk', row + 1);
    }

    /** The cell cannot take a queen: try the next column. */
    method Advance(stk: seq<(nat, nat)>, ghost q: seq<nat>) returns (stk': seq<(nat, nat)>)
      requires Searching(stk, q) && |q| < board.n && stk[|q|].1 < board.n && !Legal(board, q + [stk[|q|].1])
      ensures stk' != [] && Searching(stk', q) && 0 <= Rank(stk') < Rank(stk)
    {
      SearchingBounded(stk, q);
      var (row, col) := stk[|stk| - 1];
      stk' := stk[|stk| - 1 := (row, col + 1)];
      NotExtended(board, q, col);
      NoneBeforeNext(board, q, col);
      assert Tops(stk') == q + [col + 1];
      RankDrops(stk, stk', row);
    }

    /** Depth-first search with an explicit stack of (row, next column). Returns true exactly when
        a solution exists, and then leaves the lexicographically first one on the board; otherwise
        leaves everything as it was. */
    method Solve() returns (ok: bool, ghost q: seq<nat>)
      requires Placed([])
      modifies this, solution
      ensures Placed(q)
      ensures ok <==> exists p :: Solved(board, p)
      ensures ok ==> Solved(board, q) && cols == {} && regions == {}
      ensures ok ==> forall p :: Solved(board, p) ==> !Before(p, q)
      ensures !ok ==> q == []
    {
      var stk: seq<(nat, nat)> := [(0, 0)];
      q := [];
      StartSearching();
      hide Searching;
      hide Placed;
      hide Solved;
      hide Legal;
      hide Rank;
      while stk != []
        invariant WellFormed(board)
        invariant stk != [] ==> Searching(stk, q) && Rank(stk) >= 0
        invariant stk == [] ==> q == [] && Placed(q) && !exists p :: Solved(board, p)
        decreases |stk| > 0, Rank(stk)
      {
        SearchingBounded(stk, q);
        var (row, col) := stk[|stk| - 1];
        if row == board.n {
          Found(stk, q);
          return true, q;
        } else if col == board.n {
          stk, q := Backtrack(stk, q);
        } else {
          var fits := Check(row, col, q);
          if fits {
            stk, q := Descend(stk, q);
          } else {
            stk := Advance(stk, q);
          }
        }
      }
      return false, q;
    }
  }

  /** The columns on the stack. */
  ghost function Tops(stk: seq<(nat, nat)>): (t: seq<nat>)
    ensures |t| == |stk| && forall k :: 0 <= k < |stk| ==> t[k] == stk[k].1
  {
    seq(|stk|, k requires 0 <= k < |stk| => stk[k].1)
  }

  /** The stack holds one entry per row; all but the top are the queens placed. */
  ghost predicate Aligned(stk: seq<(nat, nat)>, q: seq<nat>) {
    && |stk| == |q| + 1
    && (forall k :: 0 <= k < |stk| ==> stk[k].0 == k)
    && (forall k :: 0 <= k < |stk| - 1 ==> stk[k].1 == q[k])
  }

  lemma FirstSolution(b: Board, q: seq<nat>, t: seq<nat>)
    requires WellFormed(b) && NoneBefore(b, t) && |t| == |q| + 1 && t[..|q|] == q
    ensures forall p :: Solved(b, p) ==> !Before(p, q)
  {
    forall p | Solved(b, p) ensures !Before(p, q) {
      forall k: nat ensures !BeforeAt(p, q, k) {
        if BeforeAt(p, q, k) {
          assert q[..k] == t[..k] && q[k] == t[k];
          assert BeforeAt(p, t, k);
        }
      }
    }
  }

  lemma NoneAtAll(b: Board, t: seq<nat>)
    requires WellFormed(b) && NoneBefore(b, t) && t == [b.n]
    ensures !exists p :: Solved(b, p)
  {
    if p :| Solved(b, p) {
      assert BeforeAt(p, t, 0);
    }
  }

  lemma NotExtended(b: Board, q: seq<nat>, col: nat)
    requires WellFormed(b) && |q| < b.n && !Legal(b, q + [col])
    ensures forall p :: Solved(b, p) ==> p[..|q| + 1] != q + [col]
  {
    forall p | Solved(b, p) ensures p[..|q| + 1] != q + [col] {
      LegalPrefix(b, p, |q| + 1);
    }
  }

  /** The queen in row k touches a queen at column col of the next free row. */
  ghost predicate TouchesQueen(q: seq<nat>, col: nat, k: int) {
    0 <= k < |q| && Touch(k, q[k], |q|, col)
  }

  lemma LegalExtends(b: Board, q: seq<nat>, col: nat)
    requires WellFormed(b) && Legal(b, q)
    ensures Legal(b, q + [col]) <==>
            && |q| < b.n && col < b.n && col !in UsedColumns(q) && Region(b, |q|, col) !in UsedRegions(b, q)
            && !exists k :: TouchesQueen(q, col, k)
  {
    var p, n := q + [col], |q|;
    if Legal(b, p) {
      assert p[n] == col;
      UsedGrows(b, q, col);
      forall k ensures !TouchesQueen(q, col, k) {
        assert 0 <= k < n ==> Apart(b, p, k, n);
      }
    }
    if n < b.n && col < b.n && col !in UsedColumns(q) && Region(b, n, col) !in UsedRegions(b, q) && !exists k :: TouchesQueen(q, col, k) {
      forall k, l | 0 <= k < l < |p| ensures Apart(b, p, k, l) {
        assert l < n ==> Apart(b, q, k, l);
        assert !TouchesQueen(q, col, k);
      }
    }
  }

  lemma FreeAgain(b: Board, q: seq<nat>, col: nat)
    requires WellFormed(b) && Legal(b, q) && Legal(b, q + [col])
    ensures Columns(b.n) - UsedColumns(q) == Columns(b.n) - UsedColumns(q + [col]) + {col}
    ensures AllRegions(b) - UsedRegions(b, q) == AllRegions(b) - UsedRegions(b, q + [col]) + {Region(b, |q|, col)}
  {
    assert (q + [col])[|q|] == col;
    UsedGrows(b, q, col);
    assert Region(b, |q|, col) in AllRegions(b);
  }

  /** A further queen uses one new column and one new region. */
  lemma UsedGrows(b: Board, q: seq<nat>, col: nat)
    requires WellFormed(b) && Legal(b, q) && Legal(b, q + [col])
    ensures UsedColumns(q + [col]) == UsedColumns(q) + {col} && col !in UsedColumns(q)
    ensures UsedRegions(b, q + [col]) == UsedRegions(b, q) + {Region(b, |q|, col)}
    ensures Region(b, |q|, col) !in UsedRegions(b, q)
  {
    var p, n := q + [col], |q|;
    assert p[n] == col;
    forall k | 0 <= k < n ensures p[k] == q[k] != col && Region(b, k, q[k]) != Region(b, n, col) {
      assert Apart(b, p, k, n);
    }
  }
}
