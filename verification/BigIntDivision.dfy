/**
 Long division with a binary-searched quotient chunk. The running remainder is not normalised
 when a chunk is brought down, so a zero chunk on an empty remainder stays as a high-order zero;
 the exact condition under which that does harm is DivSafe.
 */
module BigIntDivision {
  import opened Wrappers
  import opened ModArith
  import opened BigIntDigits
  import opened BigIntUnsigned

  /** The largest value that the length-first comparison takes to be no greater than r. */
  ghost function Limit(r: seq<int>): (v: int) {
    if r != [] && r[|r| - 1] == 0 then Pow(|r| - 1) - 1 else Val(r)
  }

  lemma OrderByLimit(t: seq<int>, r: seq<int>)
    requires Canonical(t) && Chunks(r)
    ensures Order(t, r) <= 0 <==> Val(t) <= Limit(r)
    ensures Order(r, t) == -1 <==> Limit(r) < Val(t)
  {
    if r == [] || r[|r| - 1] != 0 {
      OrderIsNumeric(t, r);
      OrderIsNumeric(r, t);
    } else {
      LengthFromValue(t, |r| - 1);
      TopChunk(r);
      if |t| == |r| {
        TopChunk(t);
      }
    }
  }

  ghost predicate IsQuotient(v: int, limit: int, quot: int) {
    0 <= quot <= 9999 && v * quot <= limit && (quot == 9999 || v * (quot + 1) > limit)
  }

  /** Finds the largest quotient chunk whose product does not exceed the limit; `high` never
      drops below zero, so its unsigned type never wraps. */
  method SearchQuotient(d2: seq<int>, remainder: seq<int>) returns (quot: int, prod: seq<int>)
    requires Canonical(d2) && Chunks(remainder) && Limit(remainder) >= 0
    ensures IsQuotient(Val(d2), Limit(remainder), quot)
    ensures Canonical(prod) && Val(prod) == Val(d2) * quot
  {
    ghost var v, limit := Val(d2), Limit(remainder);
    quot, prod := 0, [];
    var low, high := 0, 9999;
    while low <= high
      invariant 0 <= low <= high + 1 && 0 <= high <= 9999
      invariant low > 0 ==> quot == low - 1 && Canonical(prod) && Val(prod) == v * quot && v * quot <= limit
      invariant high < 9999 ==> v * (high + 1) > limit
      decreases high + 1 - low
    {
      var mid := (low + high) / 2;
      var temp := Multiply(d2, [mid]);
      assert Val([mid]) == mid;
      OrderByLimit(temp, remainder);
      var cmp := AbsCompare(temp, remainder);
      if cmp <= 0 {
        quot := mid;
        low := mid + 1;
        prod := temp;
      } else {
        assert mid != 0;
        high := mid - 1;
      }
    }
  }

  /** What bringing one chunk down does to the running remainder. */
  ghost predicate Stepped(r1: seq<int>, v: int, quot: int, r: seq<int>) {
    if Limit(r1) < v then quot == 0 && r == r1
    else
      && IsQuotient(v, Limit(r1), quot) && Canonical(r)
      && Val(r) == Val(r1) - v * quot + (if Val(r1) < v * quot then Pow(|r1|) else 0)
  }

  method BringDown(d2: seq<int>, remainder: seq<int>, x: int) returns (quot: int, r: seq<int>)
    requires Canonical(d2) && d2 != [] && Chunks(remainder) && 0 <= x < BASE
    ensures Chunks(r) && 0 <= quot < BASE && Stepped([x] + remainder, Val(d2), quot, r)
  {
    r := [x] + remainder;
    OrderByLimit(d2, r);
    var cmp := AbsCompare(r, d2);
    if cmp == -1 {
      quot := 0;
    } else {
      TopChunk(d2);
      var prod;
      quot, prod := SearchQuotient(d2, r);
      OrderByLimit(prod, r);
      r := Sub(r, prod);
    }
  }

  // ----- when division is right -----

  /** Length of the running remainder while its top chunk is a zero brought down onto an empty
      remainder; 0 when there is no such chunk. Chunks of d have been brought down, v is the
      divisor's value and n its length. */
  ghost function Pending(d: seq<int>, v: int, n: nat): (p: nat)
    requires v > 0
    ensures n > 0 ==> p <= n
  {
    if d == [] then 0
    else
      var p := Pending(d[1..], v, n);
      if 0 < p < n then p + 1
      else if p == 0 && Val(d[1..]) % v == 0 && d[0] == 0 then 1
      else 0
  }

  /** Whenever a pending zero has the remainder one chunk longer than the divisor, the quotient
      chunk found for the largest n-chunk number happens to be the right one. */
  ghost predicate DivSafe(d: seq<int>, v: int, n: nat)
    requires v > 0
  {
    d == [] ||
    (DivSafe(d[1..], v, n) &&
     (Pending(d[1..], v, n) == n ==> d[0] + BASE * (Val(d[1..]) % v) >= v * ((Pow(n) - 1) / v)))
  }

  ghost predicate RightSoFar(d: seq<int>, v: int, n: nat, q: seq<int>, r: seq<int>)
    requires v > 0
  {
    && Chunks(r) && Val(r) < v && Val(d) == Val(q) * v + Val(r)
    && (if Pending(d, v, n) == 0 then Canonical(r) else |r| == Pending(d, v, n) && r[|r| - 1] == 0)
  }

  /** The quotient is already too large and the remainder outgrows the divisor. */
  ghost predicate WrongSoFar(d: seq<int>, v: int, n: nat, q: seq<int>, r: seq<int>) {
    Canonical(r) && Val(r) >= Pow(n) && Val(q) * v > Val(d)
  }

  ghost predicate IsDivisor(v: int, n: nat) {
    n > 0 && Pow(n - 1) <= v < Pow(n)
  }

  lemma QuotientSum(x: int, dv: int, q: int, v: int, r: int, quot: int, r': int)
    requires dv == q * v + r && r' == x + BASE * r - v * quot
    ensures x + BASE * dv == (quot + BASE * q) * v + r'
  {
    assert (quot + BASE * q) * v == quot * v + BASE * (q * v) by {
      MulAssoc(BASE, q, v);
    }
  }

  lemma ValCons(x: int, d: seq<int>)
    ensures Val([x] + d) == x + BASE * Val(d)
  {
    assert ([x] + d)[1..] == d;
  }

  lemma RemainderOf(d: seq<int>, v: int, n: nat, q: seq<int>, r: seq<int>)
    requires v > 0 && RightSoFar(d, v, n, q, r)
    ensures Val(d) % v == Val(r)
  {
    ValBound(r);
    ModUnique(Val(d), v, Val(q), Val(r));
  }

  /** Without a pending zero the ordinary long-division step is right. */
  lemma OrdinaryStep(d: seq<int>, v: int, n: nat, q: seq<int>, r: seq<int>, x: int, quot: int, r': seq<int>)
    requires IsDivisor(v, n) && RightSoFar(d, v, n, q, r) && Pending(d, v, n) == 0 && 0 <= x < BASE
    requires Chunks(r') && Stepped([x] + r, v, quot, r')
    ensures RightSoFar([x] + d, v, n, [quot] + q, r')
  {
    ValCons(x, d);
    ValCons(quot, q);
    RemainderOf(d, v, n, q, r);
    PendingOrdinary(d, v, n, x);
    if r == [] && x == 0 {
      assert [x] + r == [0];
      assert Limit([0]) == 0;
      QuotientSum(x, Val(d), Val(q), v, 0, 0, 0);
    } else {
      if r != [] {
        TopChunk(r);
      }
      hide Val;
      hide Pending;
      CanonicalStep(v, r, x, quot, r');
      QuotientSum(x, Val(d), Val(q), v, Val(r), quot, Val(r'));
    }
  }

  lemma PendingOrdinary(d: seq<int>, v: int, n: nat, x: int)
    requires v > 0 && Pending(d, v, n) == 0
    ensures Pending([x] + d, v, n) == if Val(d) % v == 0 && x == 0 then 1 else 0
  {
    assert ([x] + d)[1..] == d;
  }

  /** On a canonical running remainder the quotient chunk is the right one. */
  lemma CanonicalStep(v: int, r: seq<int>, x: int, quot: int, r': seq<int>)
    requires v > 0 && Canonical(r) && Val(r) < v && 0 <= x < BASE && (r == [] ==> x != 0) && Stepped([x] + r, v, quot, r')
    ensures Canonical(r') && 0 <= Val(r') < v && Val(r') == x + BASE * Val(r) - v * quot
  {
    var r1 := [x] + r;
    ValCons(x, r);
    assert Canonical(r1);
    if r != [] {
      assert r1[|r1| - 1] == r[|r| - 1];
      TopChunk(r);
    }
    assert Val(r1) < v * 10000;
    if quot < 9999 {
      assert v * (quot + 1) == v * quot + v;
    }
  }

  /** A pending zero below the divisor's length only makes the remainder wait for more chunks. */
  lemma WaitingStep(d: seq<int>, v: int, n: nat, q: seq<int>, r: seq<int>, x: int, quot: int, r': seq<int>)
    requires IsDivisor(v, n) && RightSoFar(d, v, n, q, r) && 0 < Pending(d, v, n) < n && 0 <= x < BASE
    requires Chunks(r') && Stepped([x] + r, v, quot, r')
    ensures RightSoFar([x] + d, v, n, [quot] + q, r')
  {
    var r1 := [x] + r;
    ValCons(x, r);
    ValCons(x, d);
    ValCons(quot, q);
    assert ([x] + d)[1..] == d;
    assert Chunks(r1) && r1[|r1| - 1] == r[|r| - 1] == 0;
    PowMonotone(|r|, n - 1);
    assert Limit(r1) == Pow(|r|) - 1 < v;
    TopChunk(r1);
    QuotientSum(x, Val(d), Val(q), v, Val(r), 0, Val(r1));
  }

  /** At the critical length the step is right if the safety condition holds, else lost. */
  lemma CriticalStep(d: seq<int>, v: int, n: nat, q: seq<int>, r: seq<int>, x: int, quot: int, r': seq<int>)
    requires IsDivisor(v, n) && RightSoFar(d, v, n, q, r) && Pending(d, v, n) == n && 0 <= x < BASE
    requires Chunks(r') && Stepped([x] + r, v, quot, r')
    ensures if x + BASE * (Val(d) % v) >= v * ((Pow(n) - 1) / v)
            then RightSoFar([x] + d, v, n, [quot] + q, r')
            else WrongSoFar([x] + d, v, n, [quot] + q, r')
  {
    hide Val;
    hide Stepped;
    CriticalResult(v, n, r, x, quot, r');
    RemainderOf(d, v, n, q, r);
    ValCons(x, d);
    ValCons(quot, q);
    assert ([x] + d)[1..] == d;
    QuotientSum(x, Val(d), Val(q), v, Val(r), quot, x + BASE * Val(r) - v * quot);
  }

  lemma CriticalResult(v: int, n: nat, r: seq<int>, x: int, quot: int, r': seq<int>)
    requires IsDivisor(v, n) && Chunks(r) && |r| == n && r[n - 1] == 0 && 0 <= x < BASE
    requires Chunks(r') && Stepped([x] + r, v, quot, r')
    ensures quot == (Pow(n) - 1) / v
    ensures if x + BASE * Val(r) >= v * quot
            then Canonical(r') && Val(r') == x + BASE * Val(r) - v * quot < v
            else Canonical(r') && Val(r') >= Pow(n)
  {
    var r1 := [x] + r;
    ValCons(x, r);
    hide Val;
    assert Chunks(r1) && r1[|r1| - 1] == r[|r| - 1] == 0 && |r1| == n + 1;
    assert Limit(r1) == Pow(n) - 1 >= v;
    CriticalQuotient(v, n, quot);
    TopChunk(r1);
    ValBound(r1);
    assert Pow(n + 1) == BASE * Pow(n);
  }

  /** The quotient chunk found for the largest n-chunk number. */
  lemma CriticalQuotient(v: int, n: nat, quot: int)
    requires IsDivisor(v, n) && IsQuotient(v, Pow(n) - 1, quot)
    ensures quot == (Pow(n) - 1) / v && v * quot <= Pow(n) - 1 < v * quot + v
  {
    var top := Pow(n) - 1;
    assert v * (quot + 1) == v * quot + v;
    assert v * 10000 > top;
    assert top == quot * v + (top - v * quot);
    ModUnique(top, v, quot, top - v * quot);
  }

  /** Once lost, quotient and remainder stay too large for good. */
  lemma LostStep(d: seq<int>, v: int, n: nat, q: seq<int>, r: seq<int>, x: int, quot: int, r': seq<int>)
    requires IsDivisor(v, n) && WrongSoFar(d, v, n, q, r) && 0 <= x < BASE
    requires Stepped([x] + r, v, quot, r')
    ensures WrongSoFar([x] + d, v, n, [quot] + q, r')
  {
    var r1 := [x] + r;
    ValCons(x, r);
    ValCons(x, d);
    ValCons(quot, q);
    assert r != [];
    assert Canonical(r1) && r1[|r1| - 1] == r[|r| - 1];
    MulNonNegative(v, 9999 - quot);
    MulNonNegative(quot, v);
    assert v * (9999 - quot) == v * 9999 - v * quot;
    assert (quot + BASE * Val(q)) * v == quot * v + BASE * (Val(q) * v) by {
      MulAssoc(BASE, Val(q), v);
    }
  }

  /** One more chunk, in whichever state the division is. */
  lemma StepKeeps(d: seq<int>, v: int, n: nat, q: seq<int>, r: seq<int>, x: int, quot: int, r': seq<int>)
    requires IsDivisor(v, n) && 0 <= x < BASE && Chunks(r') && Stepped([x] + r, v, quot, r')
    requires if DivSafe(d, v, n) then RightSoFar(d, v, n, q, r) else WrongSoFar(d, v, n, q, r)
    ensures if DivSafe([x] + d, v, n) then RightSoFar([x] + d, v, n, [quot] + q, r') else WrongSoFar([x] + d, v, n, [quot] + q, r')
  {
    assert ([x] + d)[1..] == d;
    if !DivSafe(d, v, n) {
      LostStep(d, v, n, q, r, x, quot, r');
    } else if Pending(d, v, n) == 0 {
      OrdinaryStep(d, v, n, q, r, x, quot, r');
    } else if Pending(d, v, n) < n {
      WaitingStep(d, v, n, q, r, x, quot, r');
    } else {
      CriticalStep(d, v, n, q, r, x, quot, r');
    }
  }

  /** Long division; None is the division-by-zero exception. The result is the quotient and the
      remainder exactly when DivSafe holds; otherwise both are too large. */
  method Div(d1: seq<int>, d2: seq<int>) returns (res: Option<(seq<int>, seq<int>)>)
    requires Chunks(d1) && Canonical(d2)
    ensures res.None? <==> d2 == []
    ensures res.Some? ==>
              var q, r := res.value.0, res.value.1;
              && Canonical(q) && Canonical(r) && Val(d2) > 0
              && (if DivSafe(d1, Val(d2), |d2|)
                  then Val(d1) == Val(q) * Val(d2) + Val(r) && Val(r) < Val(d2)
                  else Val(q) * Val(d2) > Val(d1) && Val(r) > Val(d2))
  {
    if d2 == [] {
      return None;
    }
    ghost var v, n := Val(d2), |d2|;
    TopChunk(d2);
    ValBound(d2);
    var quotient: seq<int>, remainder: seq<int> := [], [];
    var i := |d1|;
    while i > 0
      invariant 0 <= i <= |d1| && Chunks(quotient) && Chunks(remainder)
      invariant if DivSafe(d1[i..], v, n) then RightSoFar(d1[i..], v, n, quotient, remainder)
                else WrongSoFar(d1[i..], v, n, quotient, remainder)
    {
      i := i - 1;
      var quot, r := BringDown(d2, remainder, d1[i]);
      StepKeeps(d1[i + 1..], v, n, quotient, remainder, d1[i], quot, r);
      assert d1[i..] == [d1[i]] + d1[i + 1..];
      quotient, remainder := [quot] + quotient, r;
    }
    assert d1[0..] == d1;
    quotient := Clean(quotient);
    remainder := Clean(remainder);
    res := Some((quotient, remainder));
  }

  // ----- simple sufficient conditions, and a dividend that fails -----

  /** Without zero chunks nothing is ever pending. */
  lemma {:induction false} NoZeroChunkIsSafe(d: seq<int>, v: int, n: nat)
    requires v > 0 && n > 0 && forall i :: 0 <= i < |d| ==> d[i] != 0
    ensures Pending(d, v, n) == 0 && DivSafe(d, v, n)
  {
    if d != [] {
      NoZeroChunkIsSafe(d[1..], v, n);
    }
  }

  /** A dividend at most one chunk longer than the divisor is always divided correctly. */
  lemma {:induction false} ShortDividendIsSafe(d: seq<int>, v: int, n: nat)
    requires v > 0 && n > 0 && |d| <= n + 1 && Canonical(d)
    ensures DivSafe(d, v, n) && (|d| <= n ==> Pending(d, v, n) < n)
    decreases |d|
  {
    if d != [] {
      if |d| == 1 {
        assert d[1..] == [];
      } else {
        assert d[1..][|d| - 2] == d[|d| - 1];
        ShortDividendIsSafe(d[1..], v, n);
        PendingShort(d[1..], v, n);
      }
      PendingShort(d, v, n);
    }
  }

  lemma {:induction false} PendingShort(d: seq<int>, v: int, n: nat)
    requires v > 0 && n > 0 && Canonical(d)
    ensures d != [] ==> Pending(d, v, n) < |d|
    decreases |d|
  {
    if |d| == 1 {
      assert d[1..] == [];
    } else if |d| > 1 {
      assert d[1..][|d| - 2] == d[|d| - 1];
      PendingShort(d[1..], v, n);
    }
  }

  /** 500000007 (chunks 7, 0, 5) by 5: the zero chunk is brought down onto an empty remainder. */
  lemma ZeroChunkOnEmptyRemainder()
    ensures Canonical([7, 0, 5]) && Val([7, 0, 5]) == 500000007 && !DivSafe([7, 0, 5], 5, 1)
  {
    assert [7, 0, 5][1..] == [0, 5] && [0, 5][1..] == [5] && [5][1..] == [];
    assert Val([5]) == 5 && Val([0, 5]) == 50000 && Val([7, 0, 5]) == 500000007;
    assert Pending([], 5, 1) == 0 && Pending([5], 5, 1) == 0 && Pending([0, 5], 5, 1) == 1;
    assert Pow(1) == BASE * Pow(0);
  }
}
