/** The bit-vector padding of the old SHA-1, the 16-word blocks of both versions, and when they agree. */
module Sha1Words {
  import opened Powers
  import opened ModArith
  import opened Sha1Feeder

  function Falses(n: nat): (s: seq<bool>)
    ensures |s| == n && forall i :: 0 <= i < n ==> !s[i]
  {
    seq(n, _ => false)
  }

  function Quot(x: nat, p: int): (q: nat)
    requires p >= 1
  {
    x / p
  }

  predicate Bit(x: nat, i: nat) {
    Quot(x, Pow2(i)) % 2 == 1
  }

  /** The low w bits of x, most significant first. */
  function BitsOf(x: nat, w: nat): (s: seq<bool>)
    ensures |s| == w && forall k :: 0 <= k < w ==> s[k] == Bit(x, w - 1 - k)
  {
    seq(w, k requires 0 <= k < w => Bit(x, w - 1 - k))
  }

  function AllBits(m: seq<int>): (s: seq<bool>)
    requires Bytes(m)
    ensures |s| == 8 * |m|
  {
    if m == [] then [] else AllBits(m[..|m| - 1]) + BitsOf(m[|m| - 1], 8)
  }

  /** Section 5.1.1 of FIPS 180-4: a one bit, the least number of zero bits that leaves 64 bits in
      the last block, and the length. */
  function ZeroBits(l: nat): (k: nat)
    ensures k < 512 && (l + 1 + k) % 512 == 448
  {
    FillsUp(l + 1);
    if (l + 1) % 512 <= 448 then 448 - (l + 1) % 512 else 960 - (l + 1) % 512
  }

  lemma FillsUp(n: nat)
    ensures n % 512 <= 448 ==> (n + (448 - n % 512)) % 512 == 448
    ensures n % 512 > 448 ==> (n + (960 - n % 512)) % 512 == 448
  {
    var q := n / 512;
    if n % 512 <= 448 {
      ModUnique(n + (448 - n % 512), 512, q, 448);
    } else {
      ModUnique(n + (960 - n % 512), 512, q + 1, 448);
    }
  }

  function PaddedBits(m: seq<int>): (s: seq<bool>)
    requires Bytes(m)
    ensures |s| % 512 == 0
  {
    AllBits(m) + [true] + Falses(ZeroBits(8 * |m|)) + BitsOf(BitLength(|m|), 64)
  }

  // ----- bytes and bits of the padded message agree -----

  lemma {:induction false} AllBitsAppend(a: seq<int>, b: seq<int>)
    requires Bytes(a) && Bytes(b)
    ensures Bytes(a + b) && AllBits(a + b) == AllBits(a) + AllBits(b)
    decreases |b|
  {
    if b == [] {
      assert a + b == a;
    } else {
      var b', x := b[..|b| - 1], b[|b| - 1];
      assert (a + b)[..|a + b| - 1] == a + b';
      AllBitsAppend(a, b');
    }
  }

  lemma {:induction false} AllBitsOfZeros(n: nat)
    ensures AllBits(Zeros(n)) == Falses(8 * n)
  {
    if n > 0 {
      AllBitsOfZeros(n - 1);
      assert Zeros(n)[..n - 1] == Zeros(n - 1);
      assert BitsOf(0, 8) == Falses(8);
    }
  }

  lemma AllBitsSingle(x: int)
    requires IsByte(x)
    ensures AllBits([x]) == BitsOf(x, 8)
  {
    assert [x][..0] == [];
    assert AllBits([]) == [];
  }

  lemma BitsOf80()
    ensures BitsOf(0x80, 8) == [true] + Falses(7)
  {
    assert Pow2(0) == 1 && Pow2(1) == 2 && Pow2(2) == 4 && Pow2(3) == 8;
    assert Pow2(4) == 16 && Pow2(5) == 32 && Pow2(6) == 64 && Pow2(7) == 128;
    var s := BitsOf(0x80, 8);
    forall k | 0 <= k < 8 ensures s[k] == ([true] + Falses(7))[k] {
    }
  }

  lemma NestedSum(q: int, a: int, s: int, b: int, t: int, r: int)
    requires q == s * b + t
    ensures q * a + r == s * (a * b) + (t * a + r)
  {
    assert q * a == (s * b) * a + t * a;
    MulSwap(s, b, a);
  }

  lemma ProductBelow(t: int, a: int, b: int, r: int)
    requires 0 <= t < b && 0 <= r < a
    ensures 0 <= t * a + r < a * b
  {
    MulNonNegative(t, a);
    MulNonNegative(b - 1 - t, a);
    assert (b - 1 - t) * a == b * a - a - t * a;
  }

  lemma DivDiv(x: nat, a: int, b: int)
    requires a > 0 && b > 0
    ensures a * b > 0 && x / a / b == x / (a * b)
  {
    var q, r := x / a, x % a;
    var s, t := q / b, q % b;
    NestedSum(q, a, s, b, t, r);
    ProductBelow(t, a, b, r);
    ModUnique(x, a * b, s, t * a + r);
  }

  lemma {:induction false} Pow2Add(a: nat, b: nat)
    ensures Pow2(a + b) == Pow2(a) * Pow2(b)
    decreases a
  {
    if a > 0 {
      Pow2Add(a - 1, b);
    }
  }

  lemma SmallPowers()
    ensures Pow2(0) == 1 && Pow2(1) == 2 && Pow2(2) == 4 && Pow2(3) == 8
    ensures Pow2(4) == 16 && Pow2(5) == 32 && Pow2(6) == 64 && Pow2(7) == 128 && Pow2(8) == 256
  {
    assert Pow2(3) == 8;
    assert Pow2(6) == 64;
  }

  lemma DivShift(a: int, l: nat, p: int)
    requires p > 0
    ensures (a * p + l) / p == a + l / p
  {
    var q, r := l / p, l % p;
    Distribute(a, q, p);
    ModUnique(a * p + l, p, a + q, r);
  }

  lemma Distribute(a: int, b: int, p: int)
    ensures (a + b) * p == a * p + b * p
  {
  }

  lemma EvenPlus(y: int, b: int)
    ensures (2 * y + b) % 2 == b % 2
  {
  }

  lemma LowBit(x: nat, p: int, q: int)
    requires p > 0 && p * q == 128
    ensures x % 256 / p % 2 == x / p % 2
  {
    var h, l := x / 256, x % 256;
    MulSwap(2 * h, q, p);
    var y := h * q;
    assert 2 * h * q == 2 * y by {
      Distribute(h, h, q);
    }
    assert x == (2 * y) * p + l;
    DivShift(2 * y, l, p);
    EvenPlus(y, l / p);
  }

  /** A byte's bits are the bits of the number it is the low byte of. */
  lemma LowByteBits(x: nat, j: nat)
    requires j < 8
    ensures Bit(x % 256, j) == Bit(x, j)
  {
    SmallPowers();
    Pow2Add(j, 7 - j);
    LowBit(x, Pow2(j), Pow2(7 - j));
  }

  lemma {:induction false} Pow256IsPow2(i: nat)
    ensures Pow256(i) == Pow2(8 * i)
  {
    if i > 0 {
      Pow256IsPow2(i - 1);
      Pow2Add(8, 8 * (i - 1));
      SmallPowers();
    }
  }

  lemma Big8Bit(l: nat, k: nat, j: nat)
    requires k < 8 && j < 8
    ensures BitsOf(Big8(l)[k], 8)[j] == Bit(l, 63 - 8 * k - j)
  {
    hide Pow2;
    hide Pow256;
    hide Big8;
    hide Bit;
    hide Quot;
    Big8At(l, k);
    var x := Quot(l, Pow256(7 - k));
    BitsOfAt(x % 256, j);
    LowByteBits(x, 7 - j);
    HigherBit(l, 7 - k, 7 - j);
    assert 8 * (7 - k) + (7 - j) == 63 - 8 * k - j;
  }

  lemma Big8At(l: nat, k: nat)
    requires k < 8
    ensures Big8(l)[k] == Quot(l, Pow256(7 - k)) % 256
  {
    hide Pow256;
  }

  lemma BitsOfAt(x: nat, j: nat)
    requires j < 8
    ensures BitsOf(x, 8)[j] == Bit(x, 7 - j)
  {
  }

  lemma HigherBit(l: nat, k: nat, j: nat)
    ensures Bit(Quot(l, Pow256(k)), j) == Bit(l, 8 * k + j)
  {
    hide Pow2;
    hide Pow256;
    hide Quot;
    Pow256IsPow2(k);
    QuotQuot(l, 8 * k, j);
  }

  lemma QuotQuot(l: nat, i: nat, j: nat)
    ensures Quot(Quot(l, Pow2(i)), Pow2(j)) == Quot(l, Pow2(i + j))
  {
    hide Pow2;
    DivDiv(l, Pow2(i), Pow2(j));
    Pow2Add(i, j);
  }

  lemma {:induction false} AllBitsAt(m: seq<int>, i: nat, j: nat)
    requires Bytes(m) && i < |m| && j < 8
    ensures AllBits(m)[8 * i + j] == BitsOf(m[i], 8)[j]
    decreases |m|
  {
    if i < |m| - 1 {
      AllBitsAt(m[..|m| - 1], i, j);
    }
  }

  lemma AllBitsOfBig8(l: nat)
    ensures AllBits(Big8(l)) == BitsOf(l, 64)
  {
    var s := Big8(l);
    forall n | 0 <= n < 64 ensures AllBits(s)[n] == BitsOf(l, 64)[n] {
      var k, j := n / 8, n % 8;
      AllBitsAt(s, k, j);
      Big8Bit(l, k, j);
    }
  }

  lemma ZeroBitsAreBytes(n: nat)
    ensures ZeroBits(8 * n) == 7 + 8 * PadZeros(n)
  {
    ModUnique(8 * n + 1, 512, n / 64, 8 * (n % 64) + 1);
  }

  lemma BytesOfPadded(m: seq<int>)
    requires Bytes(m)
    ensures Bytes(Padded(m))
  {
  }

  /** The byte padding spells the bit padding. */
  lemma PaddingsAgree(m: seq<int>)
    requires Bytes(m)
    ensures Bytes(Padded(m)) && AllBits(Padded(m)) == PaddedBits(m)
  {
    BytesOfPadded(m);
    var z, l := PadZeros(|m|), BitLength(|m|);
    AllBitsAppend(m + [0x80] + Zeros(z), Big8(l));
    AllBitsAppend(m + [0x80], Zeros(z));
    AllBitsAppend(m, [0x80]);
    AllBitsSingle(0x80);
    BitsOf80();
    AllBitsOfZeros(z);
    AllBitsOfBig8(l);
    ZeroBitsAreBytes(|m|);
    JoinFalses(AllBits(m), z, BitsOf(l, 64));
  }

  lemma JoinFalses(a: seq<bool>, z: nat, tail: seq<bool>)
    ensures a + ([true] + Falses(7)) + Falses(8 * z) + tail == a + [true] + Falses(7 + 8 * z) + tail
  {
  }

  // ----- words -----

  function BitsVal(s: seq<bool>): (v: nat) {
    if s == [] then 0 else 2 * BitsVal(s[..|s| - 1]) + (if s[|s| - 1] then 1 else 0)
  }

  lemma Pow2Next(n: nat)
    ensures Pow2(n + 1) == 2 * Pow2(n)
  {
  }

  lemma BitsValSnoc(a: seq<bool>, x: bool)
    ensures BitsVal(a + [x]) == 2 * BitsVal(a) + (if x then 1 else 0)
  {
    assert (a + [x])[..|a|] == a;
  }

  lemma TwiceProduct(v: int, p: int, u: int)
    ensures 2 * (v * p + u) == v * (2 * p) + 2 * u
  {
  }

  lemma {:induction false} BitsValAppend(a: seq<bool>, b: seq<bool>)
    ensures BitsVal(a + b) == BitsVal(a) * Pow2(|b|) + BitsVal(b)
    decreases |b|
  {
    if b == [] {
      assert a + b == a;
    } else {
      hide BitsVal;
      var n := |b| - 1;
      var c, x := b[..n], b[n];
      assert b == c + [x] && a + b == (a + c) + [x];
      BitsValAppend(a, c);
      BitsValSnoc(a + c, x);
      BitsValSnoc(c, x);
      Pow2Next(n);
      hide Pow2;
      TwiceProduct(BitsVal(a), Pow2(n), BitsVal(c));
    }
  }

  lemma HalfBits(x: nat, w: nat)
    requires w > 0
    ensures BitsOf(x, w) == BitsOf(x / 2, w - 1) + [x % 2 == 1]
  {
    var s, t := BitsOf(x, w), BitsOf(x / 2, w - 1) + [x % 2 == 1];
    forall k | 0 <= k < w ensures s[k] == t[k] {
      if k < w - 1 {
        Pow2Next(w - 2 - k);
        DivDiv(x, 2, Pow2(w - 2 - k));
      } else {
        assert Pow2(0) == 1;
      }
    }
  }

  lemma HalfMod(x: nat, p: int)
    requires p > 0
    ensures 2 * (x / 2 % p) + x % 2 == x % (2 * p)
  {
    var y := x / 2;
    var q, r := y / p, y % p;
    assert y == q * p + r;
    TwiceProduct(q, p, r);
    ModUnique(x, 2 * p, q, 2 * r + x % 2);
  }

  lemma {:induction false} BitsValOfBits(x: nat, w: nat)
    ensures BitsVal(BitsOf(x, w)) == x % Pow2(w)
    decreases w
  {
    if w > 0 {
      HalfBits(x, w);
      BitsValOfBits(x / 2, w - 1);
      BitsValSnoc(BitsOf(x / 2, w - 1), x % 2 == 1);
      Pow2Next(w - 1);
      HalfMod(x, Pow2(w - 1));
    }
  }

  /** Big-endian word of the four bytes from position i on. */
  function Word(s: seq<int>, i: nat): (w: int)
    requires i + 4 <= |s|
  {
    s[i] * 0x1000000 + s[i + 1] * 0x10000 + s[i + 2] * 0x100 + s[i + 3]
  }

  lemma FourBytes(b0: seq<bool>, b1: seq<bool>, b2: seq<bool>, b3: seq<bool>)
    requires |b0| == |b1| == |b2| == |b3| == 8
    ensures BitsVal(b0 + b1 + b2 + b3) == BitsVal(b0) * 0x1000000 + BitsVal(b1) * 0x10000 + BitsVal(b2) * 0x100 + BitsVal(b3)
  {
    hide BitsVal;
    OneMoreByte(b0, b1);
    OneMoreByte(b0 + b1, b2);
    OneMoreByte(b0 + b1 + b2, b3);
  }

  lemma OneMoreByte(a: seq<bool>, b: seq<bool>)
    requires |b| == 8
    ensures BitsVal(a + b) == BitsVal(a) * 256 + BitsVal(b)
  {
    hide BitsVal;
    BitsValAppend(a, b);
    SmallPowers();
  }

  lemma FourSlices(s: seq<int>, i: nat)
    requires i + 4 <= |s| && Bytes(s)
    ensures 8 * i + 32 <= |AllBits(s)|
    ensures AllBits(s)[8 * i..8 * i + 32] == BitsOf(s[i], 8) + BitsOf(s[i + 1], 8) + BitsOf(s[i + 2], 8) + BitsOf(s[i + 3], 8)
  {
    var t := AllBits(s)[8 * i..8 * i + 32];
    var u := BitsOf(s[i], 8) + BitsOf(s[i + 1], 8) + BitsOf(s[i + 2], 8) + BitsOf(s[i + 3], 8);
    forall k | 0 <= k < 32 ensures t[k] == u[k] {
      AllBitsAt(s, i + k / 8, k % 8);
      assert 8 * (i + k / 8) + k % 8 == 8 * i + k;
    }
  }

  lemma WordBits(s: seq<int>, i: nat)
    requires i + 4 <= |s| && Bytes(s)
    ensures 8 * i + 32 <= |AllBits(s)| && BitsVal(AllBits(s)[8 * i..8 * i + 32]) == Word(s, i)
  {
    hide BitsVal;
    hide BitsOf;
    hide AllBits;
    FourSlices(s, i);
    FourBytes(BitsOf(s[i], 8), BitsOf(s[i + 1], 8), BitsOf(s[i + 2], 8), BitsOf(s[i + 3], 8));
    ByteValue(s[i]);
    ByteValue(s[i + 1]);
    ByteValue(s[i + 2]);
    ByteValue(s[i + 3]);
  }

  lemma ByteValue(x: int)
    requires IsByte(x)
    ensures BitsVal(BitsOf(x, 8)) == x
  {
    BitsValOfBits(x, 8);
    SmallPowers();
    ModSmall(x, 256);
  }

  /** The words of a padded byte string, block by block, as the new code reads them. */
  ghost predicate WordsOfBytes(s: seq<int>, words: seq<seq<int>>) {
    && |s| == 64 * |words|
    && (forall i :: 0 <= i < |words| ==> |words[i]| == 16)
    && (forall i, j :: 0 <= i < |words| && 0 <= j < 16 ==> words[i][j] == Word(s, 64 * i + 4 * j))
  }

  /** The words of a padded bit string, as the old code reads them. */
  ghost predicate WordsOfBits(s: seq<bool>, words: seq<seq<int>>) {
    && |s| == 512 * |words|
    && (forall i :: 0 <= i < |words| ==> |words[i]| == 16)
    && (forall i, j :: 0 <= i < |words| && 0 <= j < 16 ==> words[i][j] == BitsVal(s[512 * i + 32 * j..512 * i + 32 * j + 32]))
  }

  lemma WordsAgree(s: seq<int>, words: seq<seq<int>>, older: seq<seq<int>>)
    requires Bytes(s) && WordsOfBytes(s, words) && WordsOfBits(AllBits(s), older)
    ensures words == older
  {
    forall i | 0 <= i < |words| ensures words[i] == older[i] {
      forall j | 0 <= j < 16 ensures words[i][j] == older[i][j] {
        WordBits(s, 64 * i + 4 * j);
        assert 8 * (64 * i + 4 * j) == 512 * i + 32 * j;
      }
    }
  }

  /** Different byte strings of one length give different words. */
  lemma WordsDiffer(s: seq<int>, t: seq<int>, words: seq<seq<int>>)
    requires Bytes(s) && Bytes(t) && WordsOfBytes(s, words) && WordsOfBytes(t, words)
    ensures s == t
  {
    forall n | 0 <= n < |s| ensures s[n] == t[n] {
      var i, j := n / 64, n % 64 / 4;
      assert 64 * i + 4 * j <= n < 64 * i + 4 * j + 4;
      assert words[i][j] == Word(s, 64 * i + 4 * j) == Word(t, 64 * i + 4 * j);
      WordInjective(s, t, 64 * i + 4 * j, n - 64 * i - 4 * j);
    }
  }

  lemma WordInjective(s: seq<int>, t: seq<int>, i: nat, k: nat)
    requires i + 4 <= |s| == |t| && k < 4 && Bytes(s) && Bytes(t) && Word(s, i) == Word(t, i)
    ensures s[i + k] == t[i + k]
  {
    assert IsByte(s[i]) && IsByte(s[i + 1]) && IsByte(s[i + 2]) && IsByte(s[i + 3]);
    assert IsByte(t[i]) && IsByte(t[i + 1]) && IsByte(t[i + 2]) && IsByte(t[i + 3]);
    FourDigits(s[i], s[i + 1], s[i + 2], s[i + 3], t[i], t[i + 1], t[i + 2], t[i + 3]);
  }

  lemma LastDigit(h: int, l: int, h': int, l': int)
    requires 256 * h + l == 256 * h' + l' && 0 <= l < 256 && 0 <= l' < 256
    ensures h == h' && l == l'
  {
  }

  lemma FourDigits(a: int, b: int, c: int, d: int, a': int, b': int, c': int, d': int)
    requires IsByte(a) && IsByte(b) && IsByte(c) && IsByte(d) && IsByte(a') && IsByte(b') && IsByte(c') && IsByte(d')
    requires a * 0x1000000 + b * 0x10000 + c * 0x100 + d == a' * 0x1000000 + b' * 0x10000 + c' * 0x100 + d'
    ensures a == a' && b == b' && c == c' && d == d'
  {
    LastDigit(a * 0x10000 + b * 0x100 + c, d, a' * 0x10000 + b' * 0x100 + c', d');
    LastDigit(a * 0x100 + b, c, a' * 0x100 + b', c');
    LastDigit(a, b, a', b');
  }

  // ----- the old code -----

  /** Grows the bit vector: message bits, a one, zeros, and the length. */
  method OldPadding(raw: seq<int>) returns (bitString: seq<bool>)
    requires Bytes(raw)
    ensures bitString == PaddedBits(raw)
  {
    bitString := [];
    assert raw[..0] == [];
    for n := 0 to |raw|
      invariant bitString == AllBits(raw[..n])
    {
      assert raw[..n + 1][..n] == raw[..n];
      var bits := PushBits(raw[n], 8);
      bitString := bitString + bits;
    }
    assert raw[..|raw|] == raw;
    var bitStrLen := |bitString| % Pow256(8);
    bitString := bitString + [true];
    var padUntil448 := |bitString| % 512;
    padUntil448 := if padUntil448 <= 448 then 448 - padUntil448 else (448 + 512) - padUntil448;
    ghost var before := bitString;
    for i := 0 to padUntil448
      invariant bitString == before + Falses(i)
    {
      assert Falses(i + 1) == Falses(i) + [false];
      bitString := bitString + [false];
    }
    var tail := PushBits(bitStrLen, 64);
    bitString := bitString + tail;
  }

  /** The bits of a number from position w - 1 down to 0. */
  method PushBits(x: nat, w: nat) returns (s: seq<bool>)
    ensures s == BitsOf(x, w)
  {
    s := [];
    var bit: int := w - 1;
    while bit >= 0
      invariant -1 <= bit < w && |s| == w - 1 - bit
      invariant forall k :: 0 <= k < |s| ==> s[k] == Bit(x, w - 1 - k)
    {
      s := s + [Bit(x, bit)];
      bit := bit - 1;
    }
  }

  /** Splits the bit vector into blocks of sixteen 32-bit words, setting bit 31 - k for a one at k. */
  method OldWords(bitString: seq<bool>) returns (words: seq<seq<int>>)
    requires |bitString| % 512 == 0
    ensures WordsOfBits(bitString, words)
  {
    words := [];
    for i := 0 to |bitString| / 512
      invariant |words| == i && forall a :: 0 <= a < i ==> |words[a]| == 16
      invariant forall a, b :: 0 <= a < i && 0 <= b < 16 ==>
                  words[a][b] == BitsVal(bitString[512 * a + 32 * b..512 * a + 32 * b + 32])
    {
      var row: seq<int> := [];
      for j := 0 to 16
        invariant |row| == j
        invariant forall b :: 0 <= b < j ==> row[b] == BitsVal(bitString[512 * i + 32 * b..512 * i + 32 * b + 32])
      {
        var w := OldWord(bitString, 512 * i + 32 * j);
        row := row + [w];
      }
      words := words + [row];
    }
  }

  lemma ShiftIn(v: int, p: int)
    ensures v * (2 * p) == (2 * v) * p && (2 * v + 1) * p == (2 * v) * p + p
  {
  }

  /** The k top bits of a word have been added into w, each at its place value. */
  ghost predicate TopBits(w: int, bits: seq<bool>, k: nat)
    requires k <= 32
  {
    w == BitsVal(bits) * Pow2(32 - k)
  }

  lemma NoTopBits()
    ensures TopBits(0, [], 0)
  {
    hide Pow2;
    assert BitsVal([]) == 0;
  }

  lemma AllTopBits(w: int, bits: seq<bool>)
    ensures TopBits(w, bits, 32) <==> w == BitsVal(bits)
  {
    hide BitsVal;
    assert Pow2(32 - 32) == 1;
  }

  /** One turn of the word loop: the bit at place k counts 2^(31 - k). */
  lemma TopBitsNext(w: int, bits: seq<bool>, bit: bool, k: nat)
    requires k < 32 && TopBits(w, bits, k)
    ensures TopBits(if bit then w + Pow2(31 - k) else w, bits + [bit], k + 1)
  {
    hide Pow2;
    hide BitsVal;
    BitsValSnoc(bits, bit);
    Pow2Next(31 - k);
    ShiftIn(BitsVal(bits), Pow2(31 - k));
  }

  method OldWord(bitString: seq<bool>, at: nat) returns (w: int)
    requires at + 32 <= |bitString|
    ensures w == BitsVal(bitString[at..at + 32])
  {
    hide Pow2;
    hide BitsVal;
    w := 0;
    assert bitString[at..at] == [];
    NoTopBits();
    hide TopBits;
    for k := 0 to 32
      invariant TopBits(w, bitString[at..at + k], k)
    {
      assert bitString[at..at + k + 1] == bitString[at..at + k] + [bitString[at + k]];
      TopBitsNext(w, bitString[at..at + k], bitString[at + k], k);
      if bitString[at + k] {
        w := w + Pow2(31 - k);
      }
    }
    AllTopBits(w, bitString[at..at + 32]);
  }

  /** The block-to-words step of the new code. */
  method NewWords(blocks: seq<seq<int>>) returns (words: seq<seq<int>>)
    requires forall i :: 0 <= i < |blocks| ==> |blocks[i]| == 64
    ensures WordsOfBytes(Concat(blocks), words)
  {
    words := [];
    for n := 0 to |blocks|
      invariant WordsOfBytes(Concat(blocks[..n]), words) && |words| == n
    {
      var chunk := blocks[n];
      var row: seq<int> := [];
      for j := 0 to 16
        invariant |row| == j && forall b :: 0 <= b < j ==> row[b] == Word(chunk, 4 * b)
      {
        row := row + [Word(chunk, 4 * j)];
      }
      assert blocks[..n + 1] == blocks[..n] + [chunk];
      ConcatSnoc(blocks[..n], chunk);
      MoreWords(Concat(blocks[..n]), chunk, words, row);
      words := words + [row];
    }
    assert blocks[..|blocks|] == blocks;
  }

  lemma MoreWords(s: seq<int>, chunk: seq<int>, words: seq<seq<int>>, row: seq<int>)
    requires WordsOfBytes(s, words) && |chunk| == 64 && |row| == 16 && forall b :: 0 <= b < 16 ==> row[b] == Word(chunk, 4 * b)
    ensures WordsOfBytes(s + chunk, words + [row])
  {
    var all, n := words + [row], |words|;
    forall i, j | 0 <= i < |all| && 0 <= j < 16 ensures all[i][j] == Word(s + chunk, 64 * i + 4 * j) {
      if i < n {
        assert words[i][j] == Word(s, 64 * i + 4 * j);
      }
    }
  }

  /** The two versions read the same words from a message exactly when its last block does not
      hold 56 to 62 bytes. */
  method CompareVersions(m: seq<int>) returns (newer: seq<seq<int>>, older: seq<seq<int>>)
    requires Bytes(m)
    ensures newer == older <==> !(56 <= |m| % 64 <= 62)
  {
    var blocks := AllBlocks(m);
    newer := NewWords(blocks);
    var bits := OldPadding(m);
    older := OldWords(bits);
    hide Stream;
    WordsAgreeIff(m, newer, older);
  }

  lemma WordsAgreeIff(m: seq<int>, newer: seq<seq<int>>, older: seq<seq<int>>)
    requires Bytes(m) && WordsOfBytes(Stream(m, 0, CopyBytes), newer) && WordsOfBits(PaddedBits(m), older)
    ensures newer == older <==> !(56 <= |m| % 64 <= 62)
  {
    PaddingsAgree(m);
    FeederPadsIff(m);
    FeederBytes(m);
    hide Stream;
    hide Padded;
    hide PaddedBits;
    hide AllBits;
    hide WordsOfBytes;
    hide WordsOfBits;
    OldWordsAreBytes(Padded(m), older);
    if newer == older {
      WordsDiffer(Stream(m, 0, CopyBytes), Padded(m), older);
    }
    if !(56 <= |m| % 64 <= 62) {
      WordsAgree(Padded(m), newer, older);
    }
  }

  lemma FeederBytes(m: seq<int>)
    requires Bytes(m)
    ensures Bytes(Stream(m, 0, CopyBytes))
  {
    hide Stream;
    FeederProduces(m, 0);
    assert m[..0] + Stream(m, 0, CopyBytes) == Stream(m, 0, CopyBytes);
    BytesOfFed(m);
  }

  lemma BytesOfFed(m: seq<int>)
    requires Bytes(m)
    ensures Bytes(Fed(m))
  {
  }

  lemma OldWordsAreBytes(s: seq<int>, words: seq<seq<int>>)
    requires Bytes(s) && WordsOfBits(AllBits(s), words)
    ensures WordsOfBytes(s, words)
  {
    forall i, j | 0 <= i < |words| && 0 <= j < 16 ensures words[i][j] == Word(s, 64 * i + 4 * j) {
      WordBits(s, 64 * i + 4 * j);
      assert 8 * (64 * i + 4 * j) == 512 * i + 32 * j;
    }
  }
}
