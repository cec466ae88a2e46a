/** The skyscraper solver: candidate pruning by hints, then backtracking with exact undo. */
module Skyscrapers {
  import opened SkyscraperLines

  type Cell = (nat, nat)
  type Grid = map<Cell, int>
  type Candidates = map<Cell, set<int>>

  /** Board size and the hints of the four sides; a hint of 0 is no hint. */
  datatype Puzzle = Puzzle(n: nat, top: seq<nat>, right: seq<nat>, bottom: seq<nat>, left: seq<nat>)

  predicate Sized(p: Puzzle) {
    |p.top| == |p.right| == |p.bottom| == |p.left| == p.n
  }

  ghost predicate Covers<V>(n: nat, m: map<Cell, V>) {
    forall x: Cell :: x in m <==> x.0 < n && x.1 < n
  }

  predicate SameLine(x: Cell, y: Cell) {
    x != y && (x.0 == y.0 || x.1 == y.1)
  }

  /** Heights 0 to n, 0 meaning empty, and no height twice in a row or column. */
  ghost predicate Partial(p: Puzzle, g: Grid) {
    && Sized(p) && Covers(p.n, g)
    && (forall x :: x in g ==> 0 <= g[x] <= p.n)
    && (forall x, y :: x in g && y in g && SameLine(x, y) && g[x] != 0 ==> g[x] != g[y])
  }

  ghost predicate Full(g: Grid) {
    forall x :: x in g ==> g[x] != 0
  }

  function Row(n: nat, g: Grid, r: nat): (s: seq<int>)
    requires Covers(n, g) && r < n
  {
    seq(n, c requires 0 <= c < n => g[(r, c)])
  }

  function Col(n: nat, g: Grid, c: nat): (s: seq<int>)
    requires Covers(n, g) && c < n
  {
    seq(n, r requires 0 <= r < n => g[(r, c)])
  }

  ghost predicate HintsMet(s: seq<int>, near: nat, far: nat) {
    (near == 0 || LeftVisible(s, |s|) == near) && (far == 0 || RightVisible(s, 0) == far)
  }

  ghost predicate RowMet(p: Puzzle, g: Grid, r: nat)
    requires Sized(p) && Covers(p.n, g) && r < p.n
  {
    HintsMet(Row(p.n, g, r), p.left[r], p.right[r])
  }

  ghost predicate ColMet(p: Puzzle, g: Grid, c: nat)
    requires Sized(p) && Covers(p.n, g) && c < p.n
  {
    HintsMet(Col(p.n, g, c), p.top[c], p.bottom[c])
  }

  ghost predicate RowFull(n: nat, g: Grid, r: nat)
    requires Covers(n, g) && r < n
  {
    forall c :: 0 <= c < n ==> g[(r, c)] != 0
  }

  ghost predicate ColFull(n: nat, g: Grid, c: nat)
    requires Covers(n, g) && c < n
  {
    forall r :: 0 <= r < n ==> g[(r, c)] != 0
  }

  /** The lines whose hints the solver answers for: those with an empty cell in the grid it is given. */
  ghost predicate Open(p: Puzzle, g: Grid, rows: set<nat>, cols: set<nat>)
    requires Sized(p) && Covers(p.n, g)
  {
    && (forall r :: r in rows ==> r < p.n) && (forall c :: c in cols ==> c < p.n)
    && (forall r :: 0 <= r < p.n ==> (r in rows <==> !RowFull(p.n, g, r)))
    && (forall c :: 0 <= c < p.n ==> (c in cols <==> !ColFull(p.n, g, c)))
  }

  ghost predicate InRange(p: Puzzle, rows: set<nat>, cols: set<nat>) {
    (forall r :: r in rows ==> r < p.n) && (forall c :: c in cols ==> c < p.n)
  }

  /** h completes g: it keeps g's heights, is a full Latin board, and meets the hints of the given lines. */
  ghost predicate Completes(p: Puzzle, rows: set<nat>, cols: set<nat>, g: Grid, h: Grid) {
    && Partial(p, h) && Full(h) && InRange(p, rows, cols)
    && (forall x :: x in g && g[x] != 0 ==> x in h && h[x] == g[x])
    && (forall r :: r in rows ==> RowMet(p, h, r))
    && (forall c :: c in cols ==> ColMet(p, h, c))
  }

  // ----- hint pruning loses nothing -----

  /** The candidates the code keeps for an empty cell. */
  ghost predicate Kept(p: Puzzle, g: Grid, x: Cell, v: int)
    requires Partial(p, g) && x in g
  {
    && 1 <= v <= p.n
    && (forall y :: y in g && SameLine(x, y) ==> g[y] != v)
    && v < p.n - p.top[x.1] + 2 + x.0
    && v < p.n - p.right[x.0] + 2 + (p.n - x.1)
    && v < p.n - p.bottom[x.1] + 2 + (p.n - x.0)
    && v < p.n - p.left[x.0] + 2 + x.1
  }

  lemma LinesPermuted(p: Puzzle, h: Grid, x: Cell)
    requires Partial(p, h) && Full(h) && x in h
    ensures Permuted(Row(p.n, h, x.0)) && Permuted(Col(p.n, h, x.1))
  {
    var row, col := Row(p.n, h, x.0), Col(p.n, h, x.1);
    forall k, l | 0 <= k < l < p.n ensures row[k] != row[l] && col[k] != col[l] {
      assert SameLine((x.0, k), (x.0, l)) && SameLine((k, x.1), (l, x.1));
    }
  }

  /** Every completion's height at an empty cell is among the candidates kept there. */
  lemma PruningKeepsCompletions(p: Puzzle, rows: set<nat>, cols: set<nat>, g: Grid, h: Grid, x: Cell)
    requires Partial(p, g) && Completes(p, rows, cols, g, h) && x in g && g[x] == 0 && x.0 in rows && x.1 in cols
    ensures x in h && Kept(p, g, x, h[x])
  {
    LinesPermuted(p, h, x);
    LeftHintBound(Row(p.n, h, x.0), x.1);
    RightHintBound(Row(p.n, h, x.0), x.1);
    LeftHintBound(Col(p.n, h, x.1), x.0);
    RightHintBound(Col(p.n, h, x.1), x.0);
    assert RowMet(p, h, x.0) && ColMet(p, h, x.1);
    forall y | y in g && SameLine(x, y) ensures g[y] != h[x] {
      assert h[x] != h[y];
    }
  }

  /** A near hint keeps exactly the heights that some line with that hint reaches; a far hint keeps one
      height more. Hints too small to matter keep all. */
  lemma PruningIsExact(p: Puzzle, g: Grid, x: Cell, v: int)
    requires Partial(p, g) && x in g && 1 <= v <= p.n && forall y :: y in g && SameLine(x, y) ==> g[y] != v
    ensures Kept(p, g, x, v) <==>
              && KeptNear(p.n, p.top[x.1], x.0, v) && KeptNear(p.n, p.left[x.0], x.1, v)
              && KeptFar(p.n, p.bottom[x.1], x.0, v) && KeptFar(p.n, p.right[x.0], x.1, v)
  {
    NearIff(p.n, p.top[x.1], x.0, v);
    NearIff(p.n, p.left[x.0], x.1, v);
    FarIff(p.n, p.bottom[x.1], x.0, v);
    FarIff(p.n, p.right[x.0], x.1, v);
    hide KeptNear;
    hide KeptFar;
  }

  ghost predicate KeptNear(n: nat, hint: nat, i: nat, v: int) {
    if hint > n then v + hint < n + 2 + i
    else i + 1 < hint ==> Attainable(n, hint, i, v)
  }

  ghost predicate KeptFar(n: nat, hint: nat, i: nat, v: int) {
    if hint > n then v + hint < n + 2 + (n - i)
    else n - i < hint ==> FarAttainable(n, hint, i, v - 1)
  }

  lemma NearIff(n: nat, hint: nat, i: nat, v: int)
    requires i < n && 1 <= v <= n
    ensures KeptNear(n, hint, i, v) <==> v < n - hint + 2 + i
  {
    hide Attainable;
    if i + 1 < hint <= n {
      AttainableIff(n, hint, i, v);
    }
  }

  lemma FarIff(n: nat, hint: nat, i: nat, v: int)
    requires i < n && 1 <= v <= n
    ensures KeptFar(n, hint, i, v) <==> v < n - hint + 2 + (n - i)
  {
    hide FarAttainable;
    if n - i < hint <= n {
      FarAttainableIff(n, hint, i, v - 1);
    }
  }

  // ----- the invariant of the search -----

  /** Candidates of empty cells are heights not used in their lines. */
  ghost predicate Sound(p: Puzzle, g: Grid, cand: Candidates)
    requires Partial(p, g) && Covers(p.n, cand)
  {
    forall x, v :: x in g && g[x] == 0 && v in cand[x] ==>
      1 <= v <= p.n && forall y :: y in g && SameLine(x, y) ==> g[y] != v
  }

  /** No completion is ruled out by the candidates. */
  ghost predicate Complete(p: Puzzle, rows: set<nat>, cols: set<nat>, g: Grid, cand: Candidates)
    requires Partial(p, g) && Covers(p.n, cand)
  {
    forall h, x :: Completes(p, rows, cols, g, h) && x in g && g[x] == 0 ==> h[x] in cand[x]
  }

  /** Lines filled during the search meet their hints, and empty cells lie on open lines. */
  ghost predicate Checked(p: Puzzle, rows: set<nat>, cols: set<nat>, g: Grid)
    requires Partial(p, g)
  {
    && InRange(p, rows, cols)
    && (forall r :: r in rows && RowFull(p.n, g, r) ==> RowMet(p, g, r))
    && (forall c :: c in cols && ColFull(p.n, g, c) ==> ColMet(p, g, c))
    && (forall x :: x in g && g[x] == 0 ==> x.0 in rows && x.1 in cols)
  }

  ghost predicate Inv(p: Puzzle, rows: set<nat>, cols: set<nat>, g: Grid, cand: Candidates) {
    Partial(p, g) && Covers(p.n, cand) && Sound(p, g, cand) && Complete(p, rows, cols, g, cand) && Checked(p, rows, cols, g)
  }

  ghost function EmptyCells(g: Grid): (s: set<Cell>) {
    set x | x in g && g[x] == 0
  }

  /** A full grid under the invariant completes itself. */
  lemma FullIsDone(p: Puzzle, rows: set<nat>, cols: set<nat>, g: Grid, cand: Candidates)
    requires Inv(p, rows, cols, g, cand) && Full(g)
    ensures Completes(p, rows, cols, g, g)
  {
  }

  /** What the code removes after placing v at x: v, from the empty cells of x's row and column. */
  ghost predicate Pruned(g: Grid, before: Candidates, after: Candidates, x: Cell, v: int)
    requires before.Keys == after.Keys == g.Keys
  {
    forall y :: y in g ==> after[y] == if g[y] == 0 && SameLine(x, y) then before[y] - {v} else before[y]
  }

  /** Placing a candidate keeps the grid Latin and the invariant, as far as lines not yet checked allow. */
  lemma PlaceKeepsLatin(p: Puzzle, g: Grid, cand: Candidates, x: Cell, v: int)
    requires Partial(p, g) && Covers(p.n, cand) && Sound(p, g, cand) && x in g && g[x] == 0 && v in cand[x]
    ensures Partial(p, g[x := v])
  {
    var g' := g[x := v];
    forall y, z | y in g' && z in g' && SameLine(y, z) && g'[y] != 0 ensures g'[y] != g'[z] {
      assert SameLine(z, y);
    }
  }

  lemma PlaceKeepsSound(p: Puzzle, g: Grid, cand: Candidates, cand': Candidates, x: Cell, v: int)
    requires Partial(p, g) && Covers(p.n, cand) && Sound(p, g, cand) && x in g && g[x] == 0 && v in cand[x]
    requires Partial(p, g[x := v]) && Covers(p.n, cand') && Pruned(g[x := v], cand, cand', x, v)
    ensures Sound(p, g[x := v], cand')
  {
    var g' := g[x := v];
    forall y, w | y in g' && g'[y] == 0 && w in cand'[y]
      ensures 1 <= w <= p.n && forall z :: z in g' && SameLine(y, z) ==> g'[z] != w
    {
      assert w in cand[y];
      assert SameLine(y, x) ==> SameLine(x, y);
    }
  }

  lemma PlaceKeepsComplete(p: Puzzle, rows: set<nat>, cols: set<nat>, g: Grid, cand: Candidates, cand': Candidates, x: Cell, v: int)
    requires Partial(p, g) && Covers(p.n, cand) && Complete(p, rows, cols, g, cand) && x in g && g[x] == 0 && v != 0
    requires Partial(p, g[x := v]) && Covers(p.n, cand') && Pruned(g[x := v], cand, cand', x, v)
    ensures Complete(p, rows, cols, g[x := v], cand')
  {
    var g' := g[x := v];
    forall h, y | Completes(p, rows, cols, g', h) && y in g' && g'[y] == 0 ensures h[y] in cand'[y] {
      CompletesPlaced(p, rows, cols, g, x, v, h);
      assert h[y] in cand[y];
      assert h[x] == v;
      if SameLine(x, y) {
        assert h[x] != h[y];
      }
    }
  }

  /** Completions of the extended grid are the completions that have v at x. */
  lemma CompletesPlaced(p: Puzzle, rows: set<nat>, cols: set<nat>, g: Grid, x: Cell, v: int, h: Grid)
    requires x in g && g[x] == 0 && v != 0
    ensures Completes(p, rows, cols, g[x := v], h) <==> Completes(p, rows, cols, g, h) && x in h && h[x] == v
  {
    var g' := g[x := v];
    if Completes(p, rows, cols, g, h) && x in h && h[x] == v {
      forall y | y in g' && g'[y] != 0 ensures y in h && h[y] == g'[y] {
      }
    }
    if Completes(p, rows, cols, g', h) {
      forall y | y in g && g[y] != 0 ensures y in h && h[y] == g[y] {
        assert g'[y] == g[y];
      }
      assert g'[x] == v;
    }
  }

  lemma PlaceKeepsChecked(p: Puzzle, rows: set<nat>, cols: set<nat>, g: Grid, x: Cell, v: int)
    requires Partial(p, g) && Checked(p, rows, cols, g) && x in g && g[x] == 0 && v != 0 && Partial(p, g[x := v])
    requires RowFull(p.n, g[x := v], x.0) ==> RowMet(p, g[x := v], x.0)
    requires ColFull(p.n, g[x := v], x.1) ==> ColMet(p, g[x := v], x.1)
    ensures Checked(p, rows, cols, g[x := v])
  {
    var g' := g[x := v];
    forall r | r in rows && RowFull(p.n, g', r) && r != x.0 ensures RowMet(p, g', r) {
      OtherRow(p, g, x, v, r);
    }
    forall c | c in cols && ColFull(p.n, g', c) && c != x.1 ensures ColMet(p, g', c) {
      OtherColumn(p, g, x, v, c);
    }
    hide RowFull;
    hide ColFull;
    hide RowMet;
    hide ColMet;
    hide Partial;
  }

  lemma OtherRow(p: Puzzle, g: Grid, x: Cell, v: int, r: nat)
    requires Partial(p, g) && x in g && r < p.n && r != x.0 && RowFull(p.n, g[x := v], r)
    ensures RowFull(p.n, g, r) && (RowMet(p, g, r) ==> RowMet(p, g[x := v], r))
  {
    assert Row(p.n, g[x := v], r) == Row(p.n, g, r);
    forall c | 0 <= c < p.n ensures g[(r, c)] != 0 {
      assert g[x := v][(r, c)] != 0;
    }
  }

  lemma OtherColumn(p: Puzzle, g: Grid, x: Cell, v: int, c: nat)
    requires Partial(p, g) && x in g && c < p.n && c != x.1 && ColFull(p.n, g[x := v], c)
    ensures ColFull(p.n, g, c) && (ColMet(p, g, c) ==> ColMet(p, g[x := v], c))
  {
    assert Col(p.n, g[x := v], c) == Col(p.n, g, c);
    forall r | 0 <= r < p.n ensures g[(r, c)] != 0 {
      assert g[x := v][(r, c)] != 0;
    }
  }

  /** A full line that misses its hints has no completion. */
  lemma FailedHintIsFinal(p: Puzzle, rows: set<nat>, cols: set<nat>, g: Grid, x: Cell)
    requires Partial(p, g) && x in g && x.0 in rows && x.1 in cols
    requires (RowFull(p.n, g, x.0) && !RowMet(p, g, x.0)) || (ColFull(p.n, g, x.1) && !ColMet(p, g, x.1))
    ensures forall h :: !Completes(p, rows, cols, g, h)
  {
    forall h ensures !Completes(p, rows, cols, g, h) {
      if Completes(p, rows, cols, g, h) {
        FullLinesAgree(p, rows, cols, g, h, x);
        assert false;
      }
    }
  }

  lemma FullLinesAgree(p: Puzzle, rows: set<nat>, cols: set<nat>, g: Grid, h: Grid, x: Cell)
    requires Partial(p, g) && x in g && Completes(p, rows, cols, g, h)
    ensures RowFull(p.n, g, x.0) ==> Row(p.n, h, x.0) == Row(p.n, g, x.0)
    ensures ColFull(p.n, g, x.1) ==> Col(p.n, h, x.1) == Col(p.n, g, x.1)
  {
    if RowFull(p.n, g, x.0) {
      assert forall c :: 0 <= c < p.n ==> h[(x.0, c)] == g[(x.0, c)];
    }
    if ColFull(p.n, g, x.1) {
      assert forall r :: 0 <= r < p.n ==> h[(r, x.1)] == g[(r, x.1)];
    }
  }
}
