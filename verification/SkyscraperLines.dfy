/** Visibility along one line of a skyscraper board: the two stacks, and how far a hint bounds a cell. */
module SkyscraperLines {

  // ----- what the hints count -----

  predicate TallerThanAllBefore(s: seq<int>, i: nat)
    requires i < |s|
  {
    forall k :: 0 <= k < i ==> s[k] < s[i]
  }

  predicate NotLowerThanAnyAfter(s: seq<int>, i: nat)
    requires i < |s|
  {
    forall k :: i < k < |s| ==> s[k] <= s[i]
  }

  /** Buildings seen from the left among the first n. */
  ghost function LeftVisible(s: seq<int>, n: nat): (v: nat)
    requires n <= |s|
  {
    if n == 0 then 0
    else LeftVisible(s, n - 1) + (if TallerThanAllBefore(s, n - 1) then 1 else 0)
  }

  /** Buildings at position i or later that are seen from the right. */
  ghost function RightVisible(s: seq<int>, i: nat): (v: nat)
    requires i <= |s|
    decreases |s| - i
  {
    if i == |s| then 0
    else RightVisible(s, i + 1) + (if NotLowerThanAnyAfter(s, i) then 1 else 0)
  }

  // ----- the monotonic stack -----

  function PopLess(stack: seq<int>, v: int): (r: seq<int>)
    decreases |stack|
  {
    if stack != [] && stack[|stack| - 1] < v then PopLess(stack[..|stack| - 1], v) else stack
  }

  lemma {:induction false} PopLessKeepsBottom(x: int, b: seq<int>, v: int)
    requires x >= v
    ensures PopLess([x] + b, v) == [x] + PopLess(b, v)
    decreases |b|
  {
    if b != [] && b[|b| - 1] < v {
      assert ([x] + b)[..|b|] == [x] + b[..|b| - 1];
      PopLessKeepsBottom(x, b[..|b| - 1], v);
    }
  }

  lemma {:induction false} PopLessClears(b: seq<int>, v: int)
    requires forall k :: 0 <= k < |b| ==> b[k] < v
    ensures PopLess(b, v) == []
    decreases |b|
  {
    if b != [] {
      PopLessClears(b[..|b| - 1], v);
    }
  }

  /** The stack after reading s[i..n]. */
  ghost function RightStack(s: seq<int>, i: nat, n: nat): (r: seq<int>)
    requires i <= n <= |s|
    decreases n
  {
    if i == n then [] else PopLess(RightStack(s, i, n - 1), s[n - 1]) + [s[n - 1]]
  }

  predicate AllAtMost(b: seq<int>, top: int) {
    forall k :: 0 <= k < |b| ==> b[k] <= top
  }

  lemma {:induction false} PopLessAtMost(b: seq<int>, v: int, top: int)
    requires AllAtMost(b, top)
    ensures AllAtMost(PopLess(b, v), top)
    decreases |b|
  {
    if b != [] && b[|b| - 1] < v {
      PopLessAtMost(b[..|b| - 1], v, top);
    }
  }

  lemma {:induction false} StackElements(s: seq<int>, i: nat, n: nat, top: int)
    requires i <= n <= |s| && forall k :: i <= k < n ==> s[k] <= top
    ensures AllAtMost(RightStack(s, i, n), top)
    decreases n
  {
    if i < n {
      StackElements(s, i, n - 1, top);
      PopLessAtMost(RightStack(s, i, n - 1), s[n - 1], top);
    }
  }

  predicate Unhidden(s: seq<int>, i: nat, n: nat)
    requires i < n <= |s|
  {
    forall k :: i < k < n ==> s[k] <= s[i]
  }

  lemma PushAbove(x: int, b: seq<int>, v: int)
    requires AllAtMost(b, x)
    ensures PopLess([x] + b, v) + [v] == (if v <= x then [x] else []) + (PopLess(b, v) + [v])
  {
    if v <= x {
      PopLessKeepsBottom(x, b, v);
    } else {
      PopLessClears([x] + b, v);
      PopLessClears(b, v);
    }
  }

  /** Reading one more element at the left end adds it below the stack if nothing later hides it. */
  lemma {:induction false} StackFront(s: seq<int>, i: nat, n: nat)
    requires i < n <= |s|
    ensures RightStack(s, i, n) == (if Unhidden(s, i, n) then [s[i]] else []) + RightStack(s, i + 1, n)
    decreases n
  {
    if i + 1 == n {
      assert RightStack(s, i, i) == [];
    } else {
      StackFront(s, i, n - 1);
      StackElementsIf(s, i, n - 1);
      var b, v := RightStack(s, i + 1, n - 1), s[n - 1];
      assert Unhidden(s, i, n) <==> Unhidden(s, i, n - 1) && v <= s[i];
      assert RightStack(s, i, n) == PopLess(RightStack(s, i, n - 1), v) + [v];
      assert RightStack(s, i + 1, n) == PopLess(b, v) + [v];
      hide RightStack;
      hide Unhidden;
      if Unhidden(s, i, n - 1) {
        PushAbove(s[i], b, v);
      } else {
        NothingInFront(b);
        NothingInFront(PopLess(b, v) + [v]);
      }
    }
  }

  lemma StackElementsIf(s: seq<int>, i: nat, n: nat)
    requires i < n <= |s|
    ensures Unhidden(s, i, n) ==> AllAtMost(RightStack(s, i + 1, n), s[i])
  {
    if Unhidden(s, i, n) {
      StackElements(s, i + 1, n, s[i]);
    }
  }

  lemma NothingInFront(b: seq<int>)
    ensures [] + b == b
  {
  }

  lemma {:induction false} StackCountsVisible(s: seq<int>, i: nat)
    requires i <= |s|
    ensures |RightStack(s, i, |s|)| == RightVisible(s, i)
    decreases |s| - i
  {
    if i < |s| {
      StackFront(s, i, |s|);
      StackCountsVisible(s, i + 1);
    }
  }

  /** The left stack after i buildings: as many as are visible, the tallest on top. */
  ghost predicate LeftStack(s: seq<int>, i: nat, stk: seq<int>)
    requires i <= |s|
  {
    && |stk| == LeftVisible(s, i) && (stk == [] <==> i == 0)
    && (stk != [] ==> (forall k :: 0 <= k < i ==> s[k] <= stk[|stk| - 1]) && exists k :: 0 <= k < i && s[k] == stk[|stk| - 1])
  }

  lemma LeftStackNext(s: seq<int>, i: nat, stk: seq<int>)
    requires i < |s| && LeftStack(s, i, stk)
    ensures LeftStack(s, i + 1, if stk == [] || stk[|stk| - 1] < s[i] then stk + [s[i]] else stk)
  {
    if stk == [] || stk[|stk| - 1] < s[i] {
      assert TallerThanAllBefore(s, i);
    }
  }

  lemma LeftStackCounts(s: seq<int>, i: nat, stk: seq<int>)
    requires i <= |s| && LeftStack(s, i, stk)
    ensures |stk| == LeftVisible(s, i)
  {
  }

  /** One pass with two stacks counts what is seen from either end. */
  method ComputeHintActuals(s: seq<int>) returns (left: nat, right: nat)
    ensures left == LeftVisible(s, |s|) && right == RightVisible(s, 0)
  {
    var leftStk: seq<int>, rightStk: seq<int> := [], [];
    assert LeftStack(s, 0, leftStk);
    hide LeftStack;
    for i := 0 to |s|
      invariant LeftStack(s, i, leftStk) && rightStk == RightStack(s, 0, i)
    {
      var val := s[i];
      LeftStackNext(s, i, leftStk);
      if leftStk == [] || leftStk[|leftStk| - 1] < val {
        leftStk := leftStk + [val];
      }
      ghost var before := rightStk;
      while rightStk != [] && rightStk[|rightStk| - 1] < val
        invariant PopLess(rightStk, val) == PopLess(before, val)
        decreases |rightStk|
      {
        rightStk := rightStk[..|rightStk| - 1];
      }
      rightStk := rightStk + [val];
    }
    StackCountsVisible(s, 0);
    LeftStackCounts(s, |s|, leftStk);
    return |leftStk|, |rightStk|;
  }

  // ----- how a hint bounds the height at a position -----

  ghost predicate Permuted(s: seq<int>) {
    && (forall k :: 0 <= k < |s| ==> 1 <= s[k] <= |s|)
    && (forall k, l :: 0 <= k < l < |s| ==> s[k] != s[l])
  }

  function Heights(lo: int, hi: int): (r: set<int>)
    requires lo <= hi
    ensures |r| == hi - lo && forall x :: x in r <==> lo < x <= hi
    decreases hi - lo
  {
    if lo == hi then {} else Heights(lo, hi - 1) + {hi}
  }

  lemma SubsetIsSmaller<T>(a: set<T>, b: set<T>)
    requires a <= b
    ensures |a| <= |b|
  {
    assert |b - a| + |a| == |b| by {
      assert (b - a) + a == b;
    }
  }

  /** Values above v at positions from lo up to hi. */
  ghost function Above(s: seq<int>, lo: nat, hi: nat, v: int): (r: set<int>)
    requires lo <= hi <= |s|
  {
    set k | lo <= k < hi && s[k] > v :: s[k]
  }

  lemma AboveBound(s: seq<int>, lo: nat, hi: nat, v: int)
    requires lo <= hi <= |s| && Permuted(s) && v <= |s|
    ensures |Above(s, lo, hi, v)| <= |s| - v
  {
    SubsetIsSmaller(Above(s, lo, hi, v), Heights(v, |s|));
  }

  lemma {:induction false} LeftVisibleShort(s: seq<int>, n: nat)
    requires n <= |s|
    ensures LeftVisible(s, n) <= n
  {
    if n > 0 {
      LeftVisibleShort(s, n - 1);
    }
  }

  lemma {:induction false} LeftVisibleSplit(s: seq<int>, i: nat, n: nat)
    requires i < n <= |s| && Permuted(s)
    ensures LeftVisible(s, n) <= i + 1 + |Above(s, i + 1, n, s[i])|
    decreases n
  {
    if n == i + 1 {
      LeftVisibleShort(s, n);
    } else {
      LeftVisibleSplit(s, i, n - 1);
      AboveGrows(s, i, n);
      hide Above;
    }
  }

  lemma AboveGrows(s: seq<int>, i: nat, n: nat)
    requires i + 1 < n <= |s| && Permuted(s)
    ensures var a, b := Above(s, i + 1, n - 1, s[i]), Above(s, i + 1, n, s[i]);
            |b| >= |a| + if TallerThanAllBefore(s, n - 1) then 1 else 0
  {
    var a, b := Above(s, i + 1, n - 1, s[i]), Above(s, i + 1, n, s[i]);
    if TallerThanAllBefore(s, n - 1) {
      assert s[n - 1] !in a;
      assert a + {s[n - 1]} <= b;
      SubsetIsSmaller(a + {s[n - 1]}, b);
    } else {
      SubsetIsSmaller(a, b);
    }
  }

  /** Behind i cells, at most the heights above s[i] can still come into view from the left. */
  lemma LeftHintBound(s: seq<int>, i: nat)
    requires i < |s| && Permuted(s)
    ensures LeftVisible(s, |s|) <= i + 1 + |s| - s[i]
  {
    LeftVisibleSplit(s, i, |s|);
    AboveBound(s, i + 1, |s|, s[i]);
  }

  lemma {:induction false} RightVisibleShort(s: seq<int>, i: nat)
    requires i <= |s|
    ensures RightVisible(s, i) <= |s| - i
    decreases |s| - i
  {
    if i < |s| {
      RightVisibleShort(s, i + 1);
    }
  }

  lemma {:induction false} RightVisibleSplit(s: seq<int>, i: nat, m: nat)
    requires m <= i < |s| && Permuted(s)
    ensures RightVisible(s, m) <= |s| - i + |Above(s, m, i, s[i])|
    decreases i - m
  {
    if m == i {
      RightVisibleShort(s, i);
    } else {
      RightVisibleSplit(s, i, m + 1);
      AboveGrowsBack(s, i, m);
      hide Above;
    }
  }

  lemma AboveGrowsBack(s: seq<int>, i: nat, m: nat)
    requires m < i < |s| && Permuted(s)
    ensures var a, b := Above(s, m + 1, i, s[i]), Above(s, m, i, s[i]);
            |b| >= |a| + if NotLowerThanAnyAfter(s, m) then 1 else 0
  {
    var a, b := Above(s, m + 1, i, s[i]), Above(s, m, i, s[i]);
    if NotLowerThanAnyAfter(s, m) {
      assert s[m] > s[i];
      assert s[m] !in a;
      assert a + {s[m]} <= b;
      SubsetIsSmaller(a + {s[m]}, b);
    } else {
      SubsetIsSmaller(a, b);
    }
  }

  lemma RightHintBound(s: seq<int>, i: nat)
    requires i < |s| && Permuted(s)
    ensures RightVisible(s, 0) <= |s| - i + |s| - s[i]
  {
    RightVisibleSplit(s, i, 0);
    AboveBound(s, 0, i, s[i]);
  }

  // ----- the bounds are attained -----

  /** The h tallest buildings in ascending order, and then the others. */
  function Rising(n: nat, h: nat): (s: seq<int>)
    requires 1 <= h <= n
    ensures |s| == n && forall k :: 0 <= k < n ==> s[k] == if k < h then n - h + 1 + k else k - h + 1
  {
    seq(n, k requires 0 <= k < n => if k < h then n - h + 1 + k else k - h + 1)
  }

  /** The same, seen from the other end. */
  function Falling(n: nat, h: nat): (s: seq<int>)
    requires 1 <= h <= n
    ensures |s| == n && forall k :: 0 <= k < n ==> s[k] == Rising(n, h)[n - 1 - k]
  {
    seq(n, k requires 0 <= k < n => Rising(n, h)[n - 1 - k])
  }

  lemma {:induction false} RisingVisible(n: nat, h: nat, m: nat)
    requires 1 <= h <= n && m <= n
    ensures LeftVisible(Rising(n, h), m) == if m < h then m else h
    decreases m
  {
    if m > 0 {
      RisingVisible(n, h, m - 1);
      var s := Rising(n, h);
      if m - 1 >= h {
        assert s[0] >= s[m - 1];
      }
    }
  }

  lemma {:induction false} FallingVisible(n: nat, h: nat, m: nat)
    requires 1 <= h <= n && m <= n
    ensures RightVisible(Falling(n, h), n - m) == if m < h then m else h
    decreases m
  {
    if m > 0 {
      FallingVisible(n, h, m - 1);
      var s := Falling(n, h);
      if m - 1 >= h {
        assert s[n - 1] > s[n - m];
      }
    }
  }

  /** Some line of n buildings shows h of them to the left and has height v or more at position i. */
  ghost predicate Attainable(n: nat, h: nat, i: nat, v: int) {
    exists s :: |s| == n && Permuted(s) && LeftVisible(s, n) == h && i < n && s[i] >= v
  }

  /** The same for what is seen from the right. */
  ghost predicate FarAttainable(n: nat, h: nat, i: nat, v: int) {
    exists s :: |s| == n && Permuted(s) && RightVisible(s, 0) == h && i < n && s[i] >= v
  }

  /** A height can be reached near the left end exactly up to the bound of the hint. */
  lemma AttainableIff(n: nat, h: nat, i: nat, v: int)
    requires i + 1 < h <= n
    ensures Attainable(n, h, i, v) <==> v <= n - h + 1 + i
  {
    if v <= n - h + 1 + i {
      RisingVisible(n, h, n);
      assert Permuted(Rising(n, h)) && Rising(n, h)[i] >= v;
    }
    if Attainable(n, h, i, v) {
      var s :| |s| == n && Permuted(s) && LeftVisible(s, n) == h && i < n && s[i] >= v;
      LeftHintBound(s, i);
    }
  }

  lemma FarAttainableIff(n: nat, h: nat, i: nat, v: int)
    requires i < n && n - i < h <= n
    ensures FarAttainable(n, h, i, v) <==> v <= n - h + (n - i)
  {
    if v <= n - h + (n - i) {
      FallingVisible(n, h, n);
      assert Permuted(Falling(n, h)) && Falling(n, h)[i] == Rising(n, h)[n - 1 - i] >= v;
    }
    if FarAttainable(n, h, i, v) {
      var s :| |s| == n && Permuted(s) && RightVisible(s, 0) == h && i < n && s[i] >= v;
      RightHintBound(s, i);
    }
  }
}
