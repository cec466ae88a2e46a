/** C++ integer remainders and the few facts about residues that several models share. */
module ModArith {

  /** The C++ operator %: truncates toward zero, so it takes the sign of the dividend. */
  function TruncRem(a: int, m: int): (r: int)
    requires m > 0
    ensures -m < r < m
    ensures r == a % m || r == a % m - m
    ensures a >= 0 ==> r == a % m
  {
    if a >= 0 then a % m
    else
      NegativeRemainder(a, m);
      -((-a) % m)
  }

  /** The helper `mod` of the Brainfuck tool, written with the truncating operator. */
  function CppMod(val: int, m: int): (r: int)
    requires m > 0
    ensures 0 <= r < m && r == val % m
  {
    var t := TruncRem(val, m);
    ModShift(val, t, m);
    TruncRem(t + m, m)
  }

  lemma MulSpread(d: int, m: int)
    requires m > 0
    ensures d >= 1 ==> d * m >= m
    ensures d <= -1 ==> d * m <= -m
  {
    if d >= 1 {
      assert (d - 1) * m >= 0;
    } else if d <= -1 {
      assert (-d - 1) * m >= 0;
    }
  }

  lemma ModUnique(a: int, m: int, q: int, r: int)
    requires m > 0 && 0 <= r < m && a == q * m + r
    ensures a % m == r && a / m == q
  {
    var d := q - a / m;
    assert a == (a / m) * m + a % m;
    assert d * m == a % m - r;
    MulSpread(d, m);
  }

  lemma NegativeRemainder(a: int, m: int)
    requires m > 0 && a < 0
    ensures -((-a) % m) == a % m || -((-a) % m) == a % m - m
  {
    var r, q := (-a) % m, (-a) / m;
    assert -a == q * m + r;
    if r == 0 {
      assert a == (-q) * m + 0;
      ModUnique(a, m, -q, 0);
    } else {
      assert a == (-q - 1) * m + (m - r);
      ModUnique(a, m, -q - 1, m - r);
    }
  }

  lemma ModShift(a: int, t: int, m: int)
    requires m > 0 && (t == a % m || t == a % m - m)
    ensures (t + m) % m == a % m
    ensures t + m >= 0
  {
    if t == a % m {
      assert t + m == 1 * m + t;
      ModUnique(t + m, m, 1, t);
    } else {
      ModUnique(t + m, m, 0, t + m);
    }
  }

  /** Residues may be taken early. */
  lemma ModAdd(a: int, b: int, m: int)
    requires m > 0
    ensures (a % m + b) % m == (a + b) % m
  {
    var q, r := (a % m + b) / m, (a % m + b) % m;
    assert a == (a / m) * m + a % m;
    assert a + b == (a / m + q) * m + r;
    ModUnique(a + b, m, a / m + q, r);
  }

  lemma ModSmall(a: int, m: int)
    requires 0 <= a < m
    ensures a % m == a
  {
    ModUnique(a, m, 0, a);
  }

  /** Replacing a summand by its truncated remainder does not change the residue. */
  lemma TruncRemResidue(a: int, b: int, m: int)
    requires m > 0
    ensures (a + TruncRem(b, m)) % m == (a + b) % m
  {
    var t := TruncRem(b, m);
    ModAdd(b, a, m);
    if t != b % m {
      var q, r := (a + t) / m, (a + t) % m;
      assert a + b % m == (q + 1) * m + r;
      ModUnique(a + b % m, m, q + 1, r);
    }
  }

  lemma MulNonNegative(x: int, y: int)
    requires x >= 0 && y >= 0
    ensures x * y >= 0
  {
  }

  lemma MulSwap(s: int, b: int, a: int)
    ensures (s * b) * a == s * (a * b)
  {
  }
}
