/** The magnitude routines of BigInt: comparison, addition, subtraction, multiplication. */
module BigIntUnsigned {
  import opened ModArith
  import opened BigIntDigits

  const USHORT_MAX := 65535

  /** Drops zero chunks from the top. */
  method Clean(d: seq<int>) returns (r: seq<int>)
    requires Chunks(d)
    ensures Canonical(r) && Val(r) == Val(d) && r <= d
  {
    r := d;
    while r != [] && r[|r| - 1] == 0
      invariant Chunks(r) && Val(r) == Val(d) && r <= d
      decreases |r|
    {
      ValSplitLast(r);
      r := r[..|r| - 1];
    }
  }

  /** The order the code decides: by length first, then by value. */
  ghost function Order(a: seq<int>, b: seq<int>): (r: int) {
    if |a| < |b| then -1 else if |a| > |b| then 1 else Sign(Val(a) - Val(b))
  }

  lemma OrderIsNumeric(a: seq<int>, b: seq<int>)
    requires Canonical(a) && Canonical(b)
    ensures Order(a, b) == Sign(Val(a) - Val(b))
  {
    if |a| < |b| {
      LengthOrders(a, b);
    } else if |a| > |b| {
      LengthOrders(b, a);
    }
  }

  /** The highest chunk in which two vectors of one length differ decides. */
  lemma HighestChunkDecides(a: seq<int>, b: seq<int>, i: nat)
    requires Chunks(a) && Chunks(b) && i < |a| == |b| && a[i + 1..] == b[i + 1..] && a[i] < b[i]
    ensures Val(a) < Val(b)
  {
    ValTake(a, i);
    ValTake(b, i);
    ValBound(a[..i]);
    ValBound(b[..i]);
    assert Val(a[..i + 1]) < Val(b[..i + 1]) by {
      MulGe(Pow(i), b[i] - a[i]);
      assert Pow(i) * b[i] == Pow(i) * a[i] + Pow(i) * (b[i] - a[i]);
    }
    assert a == a[..i + 1] + a[i + 1..] && b == b[..i + 1] + b[i + 1..];
    ValAppend(a[..i + 1], a[i + 1..]);
    ValAppend(b[..i + 1], b[i + 1..]);
  }

  method AbsCompare(d1: seq<int>, d2: seq<int>) returns (r: int)
    requires Chunks(d1) && Chunks(d2)
    ensures r == Order(d1, d2)
    ensures Canonical(d1) && Canonical(d2) ==> r == Sign(Val(d1) - Val(d2))
  {
    if Canonical(d1) && Canonical(d2) {
      OrderIsNumeric(d1, d2);
    }
    if |d1| < |d2| { return -1; }
    if |d1| > |d2| { return 1; }
    var i := |d1|;
    while i > 0
      invariant 0 <= i <= |d1| && d1[i..] == d2[i..]
    {
      i := i - 1;
      if d1[i] < d2[i] {
        HighestChunkDecides(d1, d2, i);
        return -1;
      }
      if d1[i] > d2[i] {
        HighestChunkDecides(d2, d1, i);
        return 1;
      }
    }
    assert d1 == d2;
    return 0;
  }

  function Chunk(d: seq<int>, i: nat): (x: int) {
    if i < |d| then d[i] else 0
  }

  /** The value of the i low chunks, reading missing chunks as zero. */
  ghost function Low(d: seq<int>, i: nat): (v: int) {
    Val(if i < |d| then d[..i] else d)
  }

  lemma LowNext(d: seq<int>, i: nat)
    ensures Low(d, i + 1) == Low(d, i) + Pow(i) * Chunk(d, i)
  {
    if i < |d| {
      ValTake(d, i);
      assert i + 1 == |d| ==> d[..i + 1] == d;
    }
  }

  lemma LowAll(d: seq<int>, i: nat)
    ensures i >= |d| ==> Low(d, i) == Val(d)
    ensures Low(d, 0) == 0
  {
    assert |d| > 0 ==> d[..0] == [];
  }

  method Add(d1: seq<int>, d2: seq<int>) returns (tempData: seq<int>)
    requires Chunks(d1) && Chunks(d2)
    ensures Chunks(tempData) && Val(tempData) == Val(d1) + Val(d2)
    ensures Canonical(d1) && Canonical(d2) ==> Canonical(tempData)
  {
    var carry := 0;
    var length := if |d1| < |d2| then |d2| else |d1|;
    tempData := [];
    var i := 0;
    LowAll(d1, 0);
    LowAll(d2, 0);
    while i < length || carry != 0
      invariant |tempData| == i && Chunks(tempData) && 0 <= carry <= 1 <= USHORT_MAX
      invariant Val(tempData) + Pow(i) * carry == Low(d1, i) + Low(d2, i)
      invariant i <= length || (i == length + 1 && carry == 0 && tempData[i - 1] != 0)
      decreases length + 1 - i
    {
      var left, right := Chunk(d1, i), Chunk(d2, i);
      var sum := left + right + carry;
      LowNext(d1, i);
      LowNext(d2, i);
      ValSnoc(tempData, sum % BASE);
      CarryStep(Pow(i), sum, left, right, carry);
      tempData := tempData + [sum % BASE];
      carry := sum / BASE;
      i := i + 1;
    }
    LowAll(d1, i);
    LowAll(d2, i);
    if Canonical(d1) && Canonical(d2) && i == length && i > 0 {
      ValBound(d1);
      ValBound(d2);
      TopChunk(if |d1| < |d2| then d2 else d1);
      TopChunk(tempData);
    }
  }

  lemma CarryStep(p: int, sum: int, left: int, right: int, carry: int)
    requires sum == left + right + carry && sum >= 0
    ensures p * (sum % BASE) + BASE * p * (sum / BASE) == p * left + p * right + p * carry
  {
    assert sum == sum % BASE + BASE * (sum / BASE);
    assert p * sum == p * (sum % BASE) + p * (BASE * (sum / BASE));
    MulAssoc(p, BASE, sum / BASE);
    assert p * BASE == BASE * p;
    assert p * sum == p * left + p * right + p * carry;
  }

  /** Subtraction with borrow; a borrow out of the top chunk is dropped, so the result is
      exact when it is not negative and otherwise one full wrap too large. */
  method Sub(d1: seq<int>, d2: seq<int>) returns (r: seq<int>)
    requires Chunks(d1) && Chunks(d2) && |d2| <= |d1|
    ensures Canonical(r) && |r| <= |d1|
    ensures Val(r) == Val(d1) - Val(d2) + (if Val(d1) < Val(d2) then Pow(|d1|) else 0)
  {
    var carry := 0;
    var tempData: seq<int> := [];
    LowAll(d1, 0);
    LowAll(d2, 0);
    for i := 0 to |d1|
      invariant |tempData| == i && Chunks(tempData) && 0 <= carry <= 1
      invariant Val(tempData) == Low(d1, i) - Low(d2, i) + Pow(i) * carry
    {
      var left, right := d1[i], Chunk(d2, i);
      var sub := left - right - carry;
      var borrow := 0;
      if sub < 0 {
        sub := sub + BASE;
        borrow := 1;
      }
      LowNext(d1, i);
      LowNext(d2, i);
      ValSnoc(tempData, sub);
      BorrowStep(Pow(i), sub, left, right, carry, borrow);
      tempData := tempData + [sub];
      carry := borrow;
    }
    LowAll(d1, |d1|);
    LowAll(d2, |d1|);
    ValBound(tempData);
    ValBound(d1);
    ValBound(d2);
    r := Clean(tempData);
  }

  lemma BorrowStep(p: int, sub: int, left: int, right: int, carry: int, borrow: int)
    requires sub == left - right - carry + BASE * borrow
    ensures p * sub == p * left - p * right - p * carry + BASE * p * borrow
  {
    MulAssoc(p, BASE, borrow);
    assert p * BASE == BASE * p;
    assert p * sub == p * left - p * right - p * carry + p * (BASE * borrow);
  }

  predicate ZeroFrom(d: seq<int>, k: nat) {
    forall i :: k <= i < |d| ==> d[i] == 0
  }

  method Multiply(d1: seq<int>, d2: seq<int>) returns (r: seq<int>)
    requires Chunks(d1) && Chunks(d2)
    ensures Canonical(r) && Val(r) == Val(d1) * Val(d2)
  {
    var tempData: seq<int> := seq(|d1| + |d2|, _ => 0);
    ValOfZeros(tempData);
    assert d1[..0] == [];
    for i := 0 to |d1|
      invariant |tempData| == |d1| + |d2| && Chunks(tempData) && ZeroFrom(tempData, i + |d2|)
      invariant Val(tempData) == Val(d1[..i]) * Val(d2)
    {
      ghost var before := Val(tempData);
      tempData := AddRow(tempData, i, d1[i], d2);
      ValTake(d1, i);
      RowSum(before, Val(d1[..i]), Pow(i), d1[i], Val(d2));
    }
    assert d1[..|d1|] == d1;
    r := Clean(tempData);
    r := Clean(r);
  }

  lemma RowSum(before: int, head: int, p: int, x: int, v: int)
    requires before == head * v
    ensures before + p * (x * v) == (head + p * x) * v
  {
    MulAssoc(p, x, v);
  }

  /** The inner loop: adds x times d2, shifted by i chunks, into the accumulator. */
  method AddRow(acc: seq<int>, i: nat, x: int, d2: seq<int>) returns (tempData: seq<int>)
    requires Chunks(acc) && Chunks(d2) && 0 <= x < BASE && i + |d2| < |acc| && ZeroFrom(acc, i + |d2|)
    ensures |tempData| == |acc| && Chunks(tempData) && ZeroFrom(tempData, i + 1 + |d2|)
    ensures Val(tempData) == Val(acc) + Pow(i) * (x * Val(d2))
  {
    tempData := acc;
    var carry, j := 0, 0;
    LowAll(d2, 0);
    while j < |d2| || carry != 0
      invariant |tempData| == |acc| && Chunks(tempData) && 0 <= carry < BASE <= USHORT_MAX
      invariant j <= |d2| || (j == |d2| + 1 && carry == 0)
      invariant ZeroFrom(tempData, i + (if j <= |d2| then |d2| else j))
      invariant Val(tempData) + Pow(i + j) * carry == Val(acc) + Pow(i) * (x * Low(d2, j))
      decreases |d2| + 1 - j
    {
      var prod := tempData[i + j] + x * Chunk(d2, j) + carry;
      ProdBound(tempData[i + j], x, Chunk(d2, j), carry);
      LowNext(d2, j);
      ValUpdate(tempData, i + j, prod % BASE);
      PowAdd(i, j);
      RowStep(Pow(i), Pow(j), Pow(i + j), tempData[i + j], x, Chunk(d2, j), carry, prod, Low(d2, j), Low(d2, j + 1));
      tempData := tempData[i + j := prod % BASE];
      carry := prod / BASE;
      j := j + 1;
      assert Pow(i + j) == BASE * Pow(i + j - 1);
    }
    LowAll(d2, j);
  }

  lemma {:induction false} PowAdd(m: nat, n: nat)
    ensures Pow(m + n) == Pow(m) * Pow(n)
    decreases m
  {
    if m > 0 {
      PowAdd(m - 1, n);
      MulAssoc(BASE, Pow(m - 1), Pow(n));
    }
  }

  lemma ProdBound(t: int, x: int, y: int, carry: int)
    requires 0 <= t < BASE && 0 <= x < BASE && 0 <= y < BASE && 0 <= carry < BASE
    ensures 0 <= t + x * y + carry < BASE * BASE
  {
    MulNonNegative(x, y);
    MulNonNegative(9999 - x, y);
    assert (9999 - x) * y == 9999 * y - x * y;
  }

  lemma RowStep(pi: int, pj: int, pij: int, t: int, x: int, y: int, carry: int, prod: int, low: int, low': int)
    requires prod == t + x * y + carry && prod >= 0 && pij == pi * pj && low' == low + pj * y
    ensures pij * (prod % BASE - t) + (BASE * pij) * (prod / BASE) == pij * carry + pi * (x * low') - pi * (x * low)
  {
    assert prod == prod % BASE + BASE * (prod / BASE);
    assert pij * (prod % BASE - t) + pij * (BASE * (prod / BASE)) == pij * (prod - t);
    MulAssoc(pij, BASE, prod / BASE);
    assert pij * (prod - t) == pij * (x * y) + pij * carry;
    assert x * low' == x * low + x * (pj * y);
    assert pi * (x * low') - pi * (x * low) == pi * (x * (pj * y));
    MulRegroup(pi, pj, x, y);
  }

  lemma MulRegroup(a: int, b: int, x: int, y: int)
    ensures a * (x * (b * y)) == (a * b) * (x * y)
  {
    assert x * (b * y) == b * (x * y) by {
      MulAssoc(x, b, y);
      MulAssoc(b, x, y);
    }
    MulAssoc(a, b, x * y);
  }
}
