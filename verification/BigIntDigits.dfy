/** Little-endian base-10000 chunk vectors and the numbers they stand for. */
module BigIntDigits {
  import opened ModArith

  const BASE := 10000

  ghost function Val(d: seq<int>): (v: int) {
    if d == [] then 0 else d[0] + BASE * Val(d[1..])
  }

  ghost function Pow(n: nat): (p: int)
    ensures p >= 1
  {
    if n == 0 then 1 else BASE * Pow(n - 1)
  }

  predicate Chunks(d: seq<int>) {
    forall i :: 0 <= i < |d| ==> 0 <= d[i] < BASE
  }

  /** No zero chunk at the top; zero itself is the empty vector. */
  predicate Canonical(d: seq<int>) {
    Chunks(d) && (d == [] || d[|d| - 1] != 0)
  }

  lemma {:induction false} ValAppend(a: seq<int>, b: seq<int>)
    ensures Val(a + b) == Val(a) + Pow(|a|) * Val(b)
  {
    if a == [] {
      assert a + b == b;
    } else {
      assert (a + b)[1..] == a[1..] + b;
      ValAppend(a[1..], b);
      MulAssoc(BASE, Pow(|a| - 1), Val(b));
    }
  }

  lemma MulAssoc(a: int, b: int, c: int)
    ensures a * (b * c) == (a * b) * c
  {
  }

  lemma {:induction false} ValBound(d: seq<int>)
    requires Chunks(d)
    ensures 0 <= Val(d) < Pow(|d|)
  {
    if d != [] {
      ValBound(d[1..]);
    }
  }

  lemma ValSnoc(d: seq<int>, x: int)
    ensures Val(d + [x]) == Val(d) + Pow(|d|) * x
  {
    ValAppend(d, [x]);
    assert Val([x]) == x;
  }

  lemma ValSplitLast(d: seq<int>)
    requires d != []
    ensures Val(d) == Val(d[..|d| - 1]) + Pow(|d| - 1) * d[|d| - 1]
  {
    assert d == d[..|d| - 1] + [d[|d| - 1]];
    ValSnoc(d[..|d| - 1], d[|d| - 1]);
  }

  lemma ValTake(d: seq<int>, i: nat)
    requires i < |d|
    ensures Val(d[..i + 1]) == Val(d[..i]) + Pow(i) * d[i]
  {
    assert d[..i + 1] == d[..i] + [d[i]];
    ValSnoc(d[..i], d[i]);
  }

  lemma {:induction false} PowMonotone(m: nat, n: nat)
    requires m <= n
    ensures Pow(m) <= Pow(n)
    decreases n
  {
    if m < n {
      PowMonotone(m, n - 1);
    }
  }

  /** A vector has a nonzero top chunk exactly when its value fills its length. */
  lemma TopChunk(d: seq<int>)
    requires Chunks(d) && d != []
    ensures d[|d| - 1] != 0 <==> Val(d) >= Pow(|d| - 1)
  {
    ValSplitLast(d);
    ValBound(d[..|d| - 1]);
    if d[|d| - 1] != 0 {
      MulGe(Pow(|d| - 1), d[|d| - 1]);
    }
  }

  lemma MulGe(p: int, x: int)
    requires p >= 0 && x >= 1
    ensures p * x >= p
  {
    assert p * (x - 1) >= 0;
  }

  /** Shorter canonical vectors are smaller, whatever the chunks. */
  lemma LengthOrders(a: seq<int>, b: seq<int>)
    requires Chunks(a) && Canonical(b) && |a| < |b|
    ensures Val(a) < Val(b)
  {
    ValBound(a);
    PowMonotone(|a|, |b| - 1);
    TopChunk(b);
  }

  lemma LengthFromValue(d: seq<int>, n: nat)
    requires Canonical(d)
    ensures |d| <= n <==> Val(d) < Pow(n)
  {
    ValBound(d);
    if |d| <= n {
      PowMonotone(|d|, n);
    } else {
      TopChunk(d);
      PowMonotone(n, |d| - 1);
    }
  }

  lemma {:induction false} ValUpdate(d: seq<int>, k: nat, x: int)
    requires k < |d|
    ensures Val(d[k := x]) == Val(d) + Pow(k) * (x - d[k])
  {
    if k > 0 {
      assert d[k := x][1..] == d[1..][k - 1 := x];
      ValUpdate(d[1..], k - 1, x);
      MulAssoc(BASE, Pow(k - 1), x - d[k]);
    } else {
      assert d[0 := x][1..] == d[1..];
    }
  }

  lemma {:induction false} ValOfZeros(d: seq<int>)
    requires forall i :: 0 <= i < |d| ==> d[i] == 0
    ensures Val(d) == 0
  {
    if d != [] {
      ValOfZeros(d[1..]);
    }
  }

  /** Two canonical vectors with one value are the same vector. */
  lemma {:induction false} CanonicalUnique(a: seq<int>, b: seq<int>)
    requires Canonical(a) && Canonical(b) && Val(a) == Val(b)
    ensures a == b
    decreases |a|
  {
    if |a| < |b| {
      LengthOrders(a, b);
    } else if |b| < |a| {
      LengthOrders(b, a);
    } else if a != [] {
      assert a[0] == b[0] && Val(a[1..]) == Val(b[1..]) by {
        ModUnique(Val(a), BASE, Val(a[1..]), a[0]);
        ModUnique(Val(b), BASE, Val(b[1..]), b[0]);
      }
      CanonicalUnique(a[1..], b[1..]);
      assert a == [a[0]] + a[1..] && b == [b[0]] + b[1..];
    }
  }

  function Sign(x: int): (r: int) {
    if x < 0 then -1 else if x > 0 then 1 else 0
  }
}
