/** Signed BigInt values and their operators. */
module BigIntSigned {
  import opened Wrappers
  import opened ModArith
  import opened BigIntDigits
  import opened BigIntUnsigned
  import opened BigIntDivision

  datatype BigInt = BigInt(data: seq<int>, negative: bool)

  ghost function Int(a: BigInt): (v: int) {
    if a.negative then -Val(a.data) else Val(a.data)
  }

  /** Canonical chunks; a zero may still carry the sign flag. */
  predicate Tidy(a: BigInt) { Canonical(a.data) }

  /** Canonical chunks and no negative zero. */
  predicate Normal(a: BigInt) { Canonical(a.data) && (a.data == [] ==> !a.negative) }

  lemma ZeroIsEmpty(d: seq<int>)
    requires Canonical(d)
    ensures Val(d) >= 0 && (Val(d) == 0 <==> d == [])
  {
    ValBound(d);
    if d != [] {
      TopChunk(d);
    }
  }

  /** Decides the integer order, except between the two representations of zero. */
  method Compare(a: BigInt, b: BigInt) returns (r: int)
    requires Tidy(a) && Tidy(b)
    ensures r == Sign(Int(a) - Int(b)) <==> !(a.data == [] && b.data == [] && a.negative != b.negative)
  {
    ZeroIsEmpty(a.data);
    ZeroIsEmpty(b.data);
    if a.negative != b.negative {
      return if a.negative then -1 else 1;
    } else {
      var result := AbsCompare(a.data, b.data);
      if result == 0 || !a.negative {
        return result;
      } else {
        return if result == -1 then 1 else -1;
      }
    }
  }

  /** Unary minus; the negative of zero is a negative zero. */
  function Negate(a: BigInt): (r: BigInt)
    requires Tidy(a)
    ensures Tidy(r) && Int(r) == -Int(a) && r.negative != a.negative
  {
    BigInt(a.data, !a.negative)
  }

  /** The sum is exact; it is a negative zero exactly for two negative zeros. */
  method Plus(a: BigInt, b: BigInt) returns (r: BigInt)
    requires Tidy(a) && Tidy(b)
    ensures Int(r) == Int(a) + Int(b) && Tidy(r)
    ensures Normal(r) <==> !(a.data == [] && b.data == [] && a.negative && b.negative)
  {
    ZeroIsEmpty(a.data);
    ZeroIsEmpty(b.data);
    if a.negative == b.negative {
      var sum := Add(a.data, b.data);
      ZeroIsEmpty(sum);
      return BigInt(sum, a.negative);
    } else {
      var cmp := AbsCompare(a.data, b.data);
      if cmp == 0 {
        return BigInt([], false);
      }
      LargerIsLonger(a.data, b.data, cmp);
      var diff := Sub(if cmp == 1 then a.data else b.data, if cmp == 1 then b.data else a.data);
      ZeroIsEmpty(diff);
      return BigInt(diff, if cmp == 1 then a.negative else b.negative);
    }
  }

  /** The difference is exact; it is a negative zero exactly for a negative zero less a positive one. */
  method Minus(a: BigInt, b: BigInt) returns (r: BigInt)
    requires Tidy(a) && Tidy(b)
    ensures Int(r) == Int(a) - Int(b) && Tidy(r)
    ensures Normal(r) <==> !(a.data == [] && b.data == [] && a.negative && !b.negative)
  {
    ZeroIsEmpty(a.data);
    ZeroIsEmpty(b.data);
    if a.negative != b.negative {
      var sum := Add(a.data, b.data);
      ZeroIsEmpty(sum);
      return BigInt(sum, a.negative);
    } else {
      var cmp := AbsCompare(a.data, b.data);
      if cmp == 0 {
        return BigInt([], false);
      }
      LargerIsLonger(a.data, b.data, cmp);
      var diff := Sub(if cmp == 1 then a.data else b.data, if cmp == 1 then b.data else a.data);
      ZeroIsEmpty(diff);
      return BigInt(diff, if cmp == 1 then a.negative else !b.negative);
    }
  }

  lemma LargerIsLonger(a: seq<int>, b: seq<int>, cmp: int)
    requires Canonical(a) && Canonical(b) && cmp == Sign(Val(a) - Val(b))
    ensures cmp == 1 ==> |b| <= |a|
    ensures cmp == -1 ==> |a| <= |b|
  {
    OrderIsNumeric(a, b);
  }

  /** The product is exact; it is a negative zero when one factor is zero and the signs differ. */
  method Times(a: BigInt, b: BigInt) returns (r: BigInt)
    requires Tidy(a) && Tidy(b)
    ensures Int(r) == Int(a) * Int(b) && Tidy(r)
    ensures Normal(r) <==> !((a.data == [] || b.data == []) && a.negative != b.negative)
  {
    ZeroIsEmpty(a.data);
    ZeroIsEmpty(b.data);
    var prod := Multiply(a.data, b.data);
    ZeroIsEmpty(prod);
    SignedProduct(Val(a.data), Val(b.data));
    r := BigInt(prod, a.negative != b.negative);
  }

  lemma SignedProduct(x: int, y: int)
    ensures (-x) * y == -(x * y) && x * (-y) == -(x * y) && (-x) * (-y) == x * y
    ensures x * y == 0 <==> x == 0 || y == 0
  {
  }

  /** Quotient rounded toward zero, and the remainder that goes with it. */
  ghost function TruncQuot(a: int, b: int): (q: int)
    requires b != 0
  {
    var m := (if a < 0 then -a else a) / (if b < 0 then -b else b);
    if (a < 0) != (b < 0) then -m else m
  }

  ghost function TruncMod(a: int, b: int): (r: int)
    requires b != 0
  {
    TruncRem(a, if b < 0 then -b else b)
  }

  /** What truncated division means: a = q*b + r, |r| < |b|, r zero or of a's sign. */
  lemma TruncatedDivision(a: int, b: int)
    requires b != 0
    ensures a == TruncQuot(a, b) * b + TruncMod(a, b)
    ensures if b < 0 then b < TruncMod(a, b) < -b else -b < TruncMod(a, b) < b
    ensures TruncMod(a, b) == 0 || (TruncMod(a, b) < 0 <==> a < 0)
  {
    var x, y := if a < 0 then -a else a, if b < 0 then -b else b;
    assert x == (x / y) * y + x % y;
    SignedProduct(x / y, y);
  }

  lemma MagnitudeDivision(x: int, y: int, q: int, r: int, an: bool, bn: bool)
    requires x >= 0 && y > 0 && q >= 0 && r >= 0
    requires x == q * y + r && r < y
    ensures var a, b := if an then -x else x, if bn then -y else y;
            && TruncQuot(a, b) == (if an != bn then -q else q)
            && TruncMod(a, b) == (if an then -r else r)
  {
    ModUnique(x, y, q, r);
    if an != bn {
      ModUnique(0, y, 0, 0);
    }
  }

  /** Safe to divide: either no long division is needed or it goes right. */
  ghost predicate OperandsSafe(a: BigInt, b: BigInt)
    requires Val(b.data) > 0
  {
    Val(a.data) > Val(b.data) ==> DivSafe(a.data, Val(b.data), |b.data|)
  }

  method IsEmpty(d: seq<int>) returns (r: bool)
    requires Chunks(d)
    ensures r <==> forall i :: 0 <= i < |d| ==> d[i] == 0
  {
    for i := 0 to |d|
      invariant forall k :: 0 <= k < i ==> d[k] == 0
    {
      if d[i] > 0 {
        return false;
      }
    }
    return true;
  }

  /** Operator /; None is the division-by-zero exception. */
  method Over(a: BigInt, b: BigInt) returns (q: Option<BigInt>)
    requires Tidy(a) && Tidy(b)
    ensures q.None? <==> b.data == []
    ensures q.Some? ==> Val(b.data) > 0 && Normal(q.value)
                        && (OperandsSafe(a, b) <==> Int(q.value) == TruncQuot(Int(a), Int(b)))
  {
    ZeroIsEmpty(a.data);
    ZeroIsEmpty(b.data);
    var cmp := AbsCompare(a.data, b.data);
    var resNeg := a.negative != b.negative;
    var zero := IsEmpty(b.data);
    ghost var x, y := Val(a.data), Val(b.data);
    if zero {
      return None;
    } else if cmp == 0 {
      assert Val([1]) == 1;
      MagnitudeDivision(x, y, 1, 0, a.negative, b.negative);
      return Some(BigInt([1], resNeg));
    } else if cmp == -1 {
      MagnitudeDivision(x, y, 0, x, a.negative, b.negative);
      return Some(BigInt([], false));
    } else {
      var res := Div(a.data, b.data);
      var quotient := res.value.0;
      ZeroIsEmpty(quotient);
      ZeroIsEmpty(res.value.1);
      if OperandsSafe(a, b) {
        MagnitudeDivision(x, y, Val(quotient), Val(res.value.1), a.negative, b.negative);
      } else {
        TooLarge(x, y, Val(quotient), a.negative, b.negative);
      }
      return Some(BigInt(quotient, resNeg));
    }
  }

  lemma TooLarge(x: int, y: int, q: int, an: bool, bn: bool)
    requires x > y > 0 && q * y > x
    ensures var a, b := if an then -x else x, if bn then -y else y;
            TruncQuot(a, b) != (if an != bn then -q else q)
  {
    assert x == (x / y) * y + x % y;
    assert q != x / y;
  }

  /** Operator %; None is the division-by-zero exception. A zero result carries the dividend's
      sign flag unless the magnitudes are equal. */
  method Modulo(a: BigInt, b: BigInt) returns (r: Option<BigInt>)
    requires Tidy(a) && Tidy(b)
    ensures r.None? <==> b.data == []
    ensures r.Some? ==> Val(b.data) > 0 && Tidy(r.value)
                        && (OperandsSafe(a, b) <==> Int(r.value) == TruncMod(Int(a), Int(b)))
    ensures r.Some? && r.value.data == [] ==> r.value.negative == (a.negative && Val(a.data) != Val(b.data))
  {
    ZeroIsEmpty(a.data);
    ZeroIsEmpty(b.data);
    var cmp := AbsCompare(a.data, b.data);
    var zero := IsEmpty(b.data);
    ghost var x, y := Val(a.data), Val(b.data);
    if zero {
      return None;
    } else if cmp == 0 {
      MagnitudeDivision(x, y, 1, 0, a.negative, b.negative);
      return Some(BigInt([], false));
    } else if cmp == -1 {
      MagnitudeDivision(x, y, 0, x, a.negative, b.negative);
      return Some(BigInt(a.data, a.negative));
    } else {
      var res := Div(a.data, b.data);
      var remainder := res.value.1;
      ZeroIsEmpty(remainder);
      ZeroIsEmpty(res.value.0);
      if OperandsSafe(a, b) {
        MagnitudeDivision(x, y, Val(res.value.0), Val(remainder), a.negative, b.negative);
      } else {
        TruncatedDivision(Int(a), Int(b));
      }
      return Some(BigInt(remainder, a.negative));
    }
  }
}
