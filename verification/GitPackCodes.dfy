/** The integer codes of a git pack file. */
module GitPackCodes {
  import opened ModArith
  import opened Wrappers

  type Byte = x: int | 0 <= x < 256

  type Bytes = seq<Byte>

  /** A number and what is left after it. */
  datatype Read = Read(num: nat, rest: Bytes)

  const TWO31 := 0x8000_0000
  const TWO32 := 0x1_0000_0000
  const TWO64 := 0x1_0000_0000_0000_0000

  /** The value of an unsigned 32-bit variable. */
  function Cut(x: nat): (r: nat) { x % TWO32 }

  // ----- little-endian sizes -----

  /** A signed 32-bit number, given by its bits, widened to an unsigned 64-bit one. */
  function Widen(w: nat): (r: nat) {
    if w < TWO31 then w else w + TWO64 - TWO32
  }

  /** Bits shifted as a signed 32-bit number and then widened. */
  function Shl(x: nat, weight: nat): (r: nat) { Widen(Cut(x * weight)) }

  /** The bytes from one of the given weight on. Running off the data, or shifting by 32 or more, has no
      meaning in the source; it is None here. */
  function ReadBits(s: Bytes, weight: nat): (r: Option<Read>)
    decreases |s|
  {
    if s == [] || weight >= TWO32 then None
    else if s[0] < 128 then Some(Read(Shl(s[0], weight), s[1..]))
    else Onto(Shl(s[0] % 128, weight), ReadBits(s[1..], weight * 128))
  }

  function Onto(low: nat, r: Option<Read>): (q: Option<Read>) {
    match r
    case None => None
    case Some(x) => Some(Read(low + x.num, x.rest))
  }

  function ReadVar(s: Bytes): (r: Option<Read>) { ReadBits(s, 1) }

  function WriteVar(n: nat): (s: Bytes) {
    if n < 128 then [n] else [128 + n % 128] + WriteVar(n / 128)
  }

  method ReadVarLenInt(sv: Bytes) returns (r: Option<Read>)
    ensures r == ReadVar(sv)
  {
    var pos: nat, result: nat, weight: nat := 0, 0, 1;
    OntoNothing(ReadVar(sv));
    while pos < |sv| && weight < TWO32
      invariant 0 <= pos <= |sv| && weight > 0
      invariant ReadVar(sv) == Onto(result, ReadBits(sv[pos..], weight))
    {
      var byte := sv[pos];
      BitsNext(sv[pos..], weight, result);
      assert sv[pos..][1..] == sv[pos + 1..];
      hide ReadBits;
      hide Shl;
      result, weight, pos := result + Shl(byte % 128, weight), weight * 128, pos + 1;
      if byte < 128 {
        return Some(Read(result, sv[pos..]));
      }
    }
    r := None;
  }

  lemma OntoNothing(r: Option<Read>)
    ensures Onto(0, r) == r
  {
  }

  lemma BitsNext(s: Bytes, weight: nat, low: nat)
    requires s != [] && weight < TWO32
    ensures var l := low + Shl(s[0] % 128, weight);
            Onto(low, ReadBits(s, weight)) == if s[0] < 128 then Some(Read(l, s[1..])) else Onto(l, ReadBits(s[1..], weight * 128))
  {
    hide Shl;
  }

  /** The code of n can be read at all: it is not too long for its weight. */
  predicate Readable(n: nat, weight: nat) {
    weight < TWO32 && (n < 128 || Readable(n / 128, weight * 128))
  }

  lemma ShlCut(x: nat, weight: nat)
    ensures Cut(Shl(x, weight)) == Cut(x * weight)
    ensures x * weight < TWO31 ==> Shl(x, weight) == x * weight
  {
  }

  lemma WrittenNext(n: nat, weight: nat, rest: Bytes)
    requires weight < TWO32
    ensures var r := ReadBits(WriteVar(n) + rest, weight);
            if n < 128 then r == Some(Read(Shl(n, weight), rest))
            else r == Onto(Shl(n % 128, weight), ReadBits(WriteVar(n / 128) + rest, weight * 128))
  {
    var s := WriteVar(n) + rest;
    hide Shl;
    if n < 128 {
      assert s == [n] + rest && s[1..] == rest;
    } else {
      assert s == [128 + n % 128] + (WriteVar(n / 128) + rest);
      assert s[1..] == WriteVar(n / 128) + rest;
    }
  }

  /** In the low 32 bits, reading undoes writing whenever the code can be read. */
  lemma {:induction false} BitsRoundTrip(n: nat, weight: nat, rest: Bytes)
    ensures var r := ReadBits(WriteVar(n) + rest, weight);
            && (r.Some? <==> Readable(n, weight))
            && (r.Some? ==> r.value.rest == rest && Cut(r.value.num) == Cut(n * weight))
    decreases n
  {
    ReadableNext(n, weight);
    if weight >= TWO32 {
      Unreadable(WriteVar(n) + rest, weight);
    } else {
      WrittenNext(n, weight, rest);
      hide ReadBits;
      hide Readable;
      hide WriteVar;
      hide Cut;
      hide Shl;
      if n < 128 {
        ShlCut(n, weight);
      } else {
        BitsRoundTrip(n / 128, weight * 128, rest);
        var r := ReadBits(WriteVar(n / 128) + rest, weight * 128);
        if r.Some? {
          CutOnto(n, weight, r.value.num);
        }
      }
    }
  }

  lemma ReadableNext(n: nat, weight: nat)
    ensures Readable(n, weight) <==> weight < TWO32 && (n < 128 || Readable(n / 128, weight * 128))
  {
  }

  lemma Unreadable(s: Bytes, weight: nat)
    requires weight >= TWO32
    ensures ReadBits(s, weight) == None
  {
  }

  lemma CutOnto(n: nat, weight: nat, r: nat)
    requires Cut(r) == Cut(n / 128 * (weight * 128))
    ensures Cut(Shl(n % 128, weight) + r) == Cut(n * weight)
  {
    ShlCut(n % 128, weight);
    SplitAt128(weight, n);
    hide Shl;
    hide Cut;
    CutSum(Shl(n % 128, weight), r, n % 128 * weight, n / 128 * (weight * 128));
  }

  lemma CutSum(a: nat, b: nat, x: nat, y: nat)
    requires Cut(a) == Cut(x) && Cut(b) == Cut(y)
    ensures Cut(a + b) == Cut(x + y)
  {
    ModAdd(a, b, TWO32);
    ModAdd(x, b, TWO32);
    ModAdd(b, x, TWO32);
    ModAdd(y, x, TWO32);
  }

  lemma SplitAt128(weight: nat, n: nat)
    ensures n % 128 * weight + n / 128 * (weight * 128) == n * weight
  {
    var q, r := n / 128, n % 128;
    assert n == 128 * q + r;
    assert q * (weight * 128) == (128 * q) * weight;
    assert (128 * q) * weight + r * weight == (128 * q + r) * weight;
  }

  /** Sizes below 2^31 are read back as they are. */
  lemma {:induction false} SmallBits(n: nat, weight: nat, rest: Bytes)
    requires 0 < weight < TWO32 && n * weight < TWO31
    ensures ReadBits(WriteVar(n) + rest, weight) == Some(Read(n * weight, rest))
    decreases n
  {
    WrittenNext(n, weight, rest);
    hide ReadBits;
    hide WriteVar;
    if n < 128 {
      ShlCut(n, weight);
    } else {
      SmallParts(n, weight);
      ShlCut(n % 128, weight);
      hide Shl;
      hide Cut;
      SmallBits(n / 128, weight * 128, rest);
    }
  }

  lemma SmallParts(n: nat, weight: nat)
    requires weight > 0 && n >= 128 && n * weight < TWO31
    ensures n % 128 * weight < TWO31 && n / 128 * (weight * 128) < TWO31 && weight * 128 < TWO32
    ensures n % 128 * weight + n / 128 * (weight * 128) == n * weight
  {
    SplitAt128(weight, n);
    var q, r := n / 128, n % 128;
    MulNonNegative(r, weight);
    MulNonNegative(q - 1, weight * 128);
    assert q * (weight * 128) == (q - 1) * (weight * 128) + weight * 128;
  }

  lemma ReadableVar(n: nat)
    ensures Readable(n, 1) <==> n < 8 * TWO32
  {
    assert Readable(n, 1) <==> n < 128 || Readable(n / 128, 128);
    assert Readable(n / 128, 128) <==> n / 128 < 128 || Readable(n / 128 / 128, 0x4000);
    assert Readable(n / 128 / 128, 0x4000) <==> n / 128 / 128 < 128 || Readable(n / 128 / 128 / 128, 0x20_0000);
    assert Readable(n / 128 / 128 / 128, 0x20_0000) <==>
      n / 128 / 128 / 128 < 128 || Readable(n / 128 / 128 / 128 / 128, 0x1000_0000);
    assert Readable(n / 128 / 128 / 128 / 128, 0x1000_0000) <==> n / 128 / 128 / 128 / 128 < 128;
  }

  /** Whatever is read from a code is below 2^31 or has its sign spread over the upper half. */
  lemma {:induction false} BitsGap(s: Bytes, weight: nat)
    requires weight == 1 || weight == 0x80 || weight == 0x4000 || weight == 0x20_0000 || weight == 0x1000_0000
    ensures var r := ReadBits(s, weight);
            r.Some? ==> r.value.num <= TWO31 - weight || TWO64 - TWO31 <= r.value.num <= TWO64 - weight
    decreases |s|
  {
    hide Shl;
    if s != [] {
      BitsGapStep(s[0] % 128, weight);
      if s[0] >= 128 && weight < 0x1000_0000 {
        BitsGap(s[1..], weight * 128);
      } else if s[0] >= 128 {
        Unreadable(s[1..], weight * 128);
      }
    }
  }

  lemma BitsGapStep(x: nat, weight: nat)
    requires x < 128
    requires weight == 1 || weight == 0x80 || weight == 0x4000 || weight == 0x20_0000 || weight == 0x1000_0000
    ensures Shl(x, weight) <= TWO31 - weight || TWO64 - TWO31 <= Shl(x, weight) <= TWO64 - weight
    ensures weight < 0x1000_0000 ==> Shl(x, weight) == x * weight
  {
    if weight == 0x1000_0000 {
      var y := x % 16;
      ModUnique(x * weight, TWO32, x / 16, y * 0x1000_0000);
    } else {
      ModSmall(x * weight, TWO32);
    }
  }

  /** A size is read back exactly when it is below 2^31. */
  lemma VarRoundTripIff(n: nat, rest: Bytes)
    ensures ReadVar(WriteVar(n) + rest) == Some(Read(n, rest)) <==> n < TWO31
  {
    if n < TWO31 {
      SmallBits(n, 1, rest);
    } else {
      BitsGap(WriteVar(n) + rest, 1);
      ReadableVar(n);
      BitsRoundTrip(n, 1, rest);
    }
  }

  /** Its low 32 bits are read back exactly when it is below 2^35. */
  lemma VarRoundTripCut(n: nat, rest: Bytes)
    ensures var r := ReadVar(WriteVar(n) + rest);
            && (r.Some? <==> n < 8 * TWO32)
            && (r.Some? ==> r.value.rest == rest && Cut(r.value.num) == Cut(n))
  {
    ReadableVar(n);
    BitsRoundTrip(n, 1, rest);
  }

  /** The number read is the low 32 bits of what was written, taken as a signed number and spread to 64. */
  lemma VarReadsSigned(n: nat, rest: Bytes)
    requires n < 8 * TWO32
    ensures var low := n % 0x1_0000_0000;
            ReadVar(WriteVar(n) + rest)
            == Some(Read(if low < 0x8000_0000 then low else 0xFFFF_FFFF_0000_0000 + low, rest))
  {
    VarRoundTripCut(n, rest);
    BitsGap(WriteVar(n) + rest, 1);
    hide ReadBits;
    hide WriteVar;
    SignedFromCut(ReadVar(WriteVar(n) + rest).value.num, n);
    hide Cut;
  }

  lemma SignedFromCut(num: nat, n: nat)
    requires Cut(num) == Cut(n) && (num < TWO31 || TWO64 - TWO31 <= num < TWO64)
    ensures var low := n % 0x1_0000_0000;
            num == if low < 0x8000_0000 then low else 0xFFFF_FFFF_0000_0000 + low
  {
    if num < TWO31 {
      ModSmall(num, TWO32);
    } else {
      ModUnique(num, TWO32, TWO32 - 1, num - 0xFFFF_FFFF_0000_0000);
    }
  }

  // ----- relative offsets -----

  /** The decoding loop, from the value accumulated so far. */
  function OffsetFrom(acc: nat, s: Bytes): (r: Option<Read>)
    decreases |s|
  {
    if s == [] then None
    else
      var next := acc * 128 + s[0] % 128;
      if s[0] < 128 then Some(Read(next, s[1..])) else OffsetFrom(next + 1, s[1..])
  }

  predicate Continues(s: Bytes) {
    forall i :: 0 <= i < |s| ==> s[i] >= 128
  }

  /** Every byte but the last has the continuation bit. */
  predicate IsCode(s: Bytes) {
    s != [] && Continues(s[..|s| - 1]) && s[|s| - 1] < 128
  }

  function Code(n: nat): (s: Bytes)
    ensures s != []
  {
    if n < 128 then [n] else Head(n / 128 - 1) + [n % 128]
  }

  function Head(n: nat): (s: Bytes)
    ensures s != []
  {
    if n < 128 then [128 + n] else Head(n / 128 - 1) + [128 + n % 128]
  }

  lemma {:induction false} HeadContinues(n: nat)
    ensures Continues(Head(n))
  {
    if n >= 128 {
      HeadContinues(n / 128 - 1);
    }
  }

  lemma {:induction false} HeadRead(n: nat, t: Bytes)
    ensures OffsetFrom(0, Head(n) + t) == OffsetFrom(n + 1, t)
    decreases n
  {
    if n < 128 {
      assert ([128 + n] + t)[1..] == t;
    } else {
      var b := 128 + n % 128;
      assert Head(n) + t == Head(n / 128 - 1) + ([b] + t);
      HeadRead(n / 128 - 1, [b] + t);
      assert ([b] + t)[1..] == t;
    }
  }

  /** Decoding undoes encoding. */
  lemma OffsetRoundTrip(n: nat, rest: Bytes)
    ensures IsCode(Code(n)) && OffsetFrom(0, Code(n) + rest) == Some(Read(n, rest))
  {
    if n < 128 {
      assert ([n] + rest)[1..] == rest;
    } else {
      HeadContinues(n / 128 - 1);
      assert Code(n)[..|Code(n)| - 1] == Head(n / 128 - 1);
      assert Code(n) + rest == Head(n / 128 - 1) + ([n % 128] + rest);
      HeadRead(n / 128 - 1, [n % 128] + rest);
      assert ([n % 128] + rest)[1..] == rest;
    }
  }

  /** Every string of continuing bytes is the head of exactly one number. */
  lemma {:induction false} HeadOnto(s: Bytes) returns (n: nat)
    requires s != [] && Continues(s)
    ensures Head(n) == s
    decreases |s|
  {
    var b := s[|s| - 1];
    if |s| == 1 {
      n := b - 128;
    } else {
      var m := HeadOnto(s[..|s| - 1]);
      n := (m + 1) * 128 + (b - 128);
      assert s == s[..|s| - 1] + [b];
      assert n / 128 - 1 == m && n % 128 == b - 128;
    }
  }

  /** Encoding undoes decoding: every code word is the code of the number it decodes to. */
  lemma OffsetCodesAll(s: Bytes) returns (n: nat)
    requires IsCode(s)
    ensures OffsetFrom(0, s) == Some(Read(n, [])) && Code(n) == s
  {
    var b := s[|s| - 1];
    if |s| == 1 {
      n := b;
    } else {
      var m := HeadOnto(s[..|s| - 1]);
      n := (m + 1) * 128 + b;
      assert s == s[..|s| - 1] + [b];
      assert n / 128 - 1 == m && n % 128 == b;
    }
    OffsetRoundTrip(n, []);
    assert s + [] == s;
  }

  method ReadOffset(s: Bytes) returns (r: Option<Read>)
    ensures r == OffsetFrom(0, s)
  {
    var pos: nat, relOffset: nat := 0, 0;
    while pos < |s|
      invariant 0 <= pos <= |s| && OffsetFrom(0, s) == OffsetFrom(relOffset, s[pos..])
    {
      var byte := s[pos];
      assert s[pos..][1..] == s[pos + 1..];
      relOffset, pos := relOffset * 128 + byte % 128, pos + 1;
      if byte < 128 {
        return Some(Read(relOffset, s[pos..]));
      }
      relOffset := relOffset + 1;
    }
    r := None;
  }

  // ----- object headers -----

  datatype Header = Header(kind: nat, length: nat, rest: Bytes)

  /** The header loop: as long as the kind is zero, a byte is read as a first byte. */
  function HeaderFrom(s: Bytes): (r: Option<Header>)
    decreases |s|
  {
    if s == [] then None
    else if s[0] < 128 then Some(Header(s[0] / 16 % 8, s[0] % 16, s[1..]))
    else if s[0] / 16 % 8 == 0 then HeaderFrom(s[1..])
    else Sized(s[0] / 16 % 8, s[0] % 16, ReadBits(s[1..], 16))
  }

  function Sized(kind: nat, low: nat, r: Option<Read>): (h: Option<Header>) {
    match r
    case None => None
    case Some(x) => Some(Header(kind, low + x.num, x.rest))
  }

  method ReadHeader(s: Bytes) returns (r: Option<Header>)
    ensures r == HeaderFrom(s)
  {
    var kind: nat, length: nat, weight: nat, pos: nat := 0, 0, 16, 0;
    while pos < |s| && weight < TWO32
      invariant 0 <= pos <= |s| && weight > 0 && (kind == 0 ==> weight == 16)
      invariant HeaderFrom(s) == if kind == 0 then HeaderFrom(s[pos..]) else Sized(kind, length, ReadBits(s[pos..], weight))
    {
      var byte := s[pos];
      HeaderNext(s[pos..]);
      SizedNext(s[pos..], kind, length, weight);
      assert s[pos..][1..] == s[pos + 1..];
      hide ReadBits;
      hide HeaderFrom;
      hide Shl;
      if kind == 0 {
        kind, length, weight := byte / 16 % 8, byte % 16, 16;
      } else {
        length, weight := length + Shl(byte % 128, weight), weight * 128;
      }
      pos := pos + 1;
      if byte < 128 {
        return Some(Header(kind, length, s[pos..]));
      }
    }
    HeaderStops(s[pos..], weight);
    r := None;
  }

  lemma HeaderNext(s: Bytes)
    requires s != []
    ensures var b, rest := s[0], s[1..];
            && (b < 128 ==> HeaderFrom(s) == Some(Header(b / 16 % 8, b % 16, rest)))
            && (b >= 128 && b / 16 % 8 == 0 ==> HeaderFrom(s) == HeaderFrom(rest))
            && (b >= 128 && b / 16 % 8 != 0 ==> HeaderFrom(s) == Sized(b / 16 % 8, b % 16, ReadBits(rest, 16)))
  {
    hide ReadBits;
  }

  lemma SizedNext(s: Bytes, kind: nat, length: nat, weight: nat)
    requires s != [] && weight < TWO32
    ensures Sized(kind, length, ReadBits(s, weight))
         == if s[0] < 128 then Some(Header(kind, length + Shl(s[0] % 128, weight), s[1..]))
            else Sized(kind, length + Shl(s[0] % 128, weight), ReadBits(s[1..], weight * 128))
  {
    BitsNext(s, weight, length);
    hide Shl;
    hide ReadBits;
  }

  lemma HeaderStops(s: Bytes, weight: nat)
    requires s == [] || weight >= TWO32
    ensures ReadBits(s, weight) == None && (s == [] ==> HeaderFrom(s) == None)
  {
  }

  function HeaderCode(kind: nat, length: nat): (s: Bytes)
    requires 0 < kind < 8
  {
    if length < 16 then [16 * kind + length] else [128 + 16 * kind + length % 16] + WriteVar(length / 16)
  }

  lemma ReadableLength(n: nat)
    ensures Readable(n, 16) <==> n < TWO32 / 16
  {
    assert Readable(n, 16) <==> n < 128 || Readable(n / 128, 2048);
    assert Readable(n / 128, 2048) <==> n / 128 < 128 || Readable(n / 128 / 128, 0x4_0000);
    assert Readable(n / 128 / 128, 0x4_0000) <==> n / 128 / 128 < 128 || Readable(n / 128 / 128 / 128, 0x200_0000);
    assert Readable(n / 128 / 128 / 128, 0x200_0000) <==> n / 128 / 128 / 128 < 128;
  }

  /** A written header can be read exactly when its length is below 2^32, and then gives the kind and, in
      an unsigned 32-bit variable, the length. */
  lemma HeaderRoundTripIff(kind: nat, length: nat, rest: Bytes)
    requires 0 < kind < 8
    ensures var h := HeaderFrom(HeaderCode(kind, length) + rest);
            && (h.Some? <==> length < TWO32)
            && (h.Some? ==> h.value.kind == kind && Cut(h.value.length) == length && h.value.rest == rest)
  {
    var s := HeaderCode(kind, length) + rest;
    if length < 16 {
      assert s[1..] == rest;
    } else {
      LongHeader(kind, length, rest);
      hide HeaderFrom;
      LengthRoundTrip(length, rest);
    }
  }

  lemma LongHeader(kind: nat, length: nat, rest: Bytes)
    requires 0 < kind < 8 && length >= 16
    ensures HeaderFrom(HeaderCode(kind, length) + rest) == Sized(kind, length % 16, ReadBits(WriteVar(length / 16) + rest, 16))
  {
    var b, t := 128 + 16 * kind + length % 16, WriteVar(length / 16);
    var s := HeaderCode(kind, length) + rest;
    assert s == [b] + (t + rest);
    assert s[1..] == t + rest;
    assert b / 16 % 8 == kind && b % 16 == length % 16;
    HeaderNext(s);
    hide HeaderFrom;
    hide ReadBits;
    hide WriteVar;
  }

  lemma LengthRoundTrip(length: nat, rest: Bytes)
    ensures var r := ReadBits(WriteVar(length / 16) + rest, 16);
            && (r.Some? <==> length < TWO32)
            && (r.Some? ==> Cut(length % 16 + r.value.num) == length && r.value.rest == rest)
  {
    hide ReadBits;
    hide Readable;
    hide WriteVar;
    var n := length / 16;
    ReadableLength(n);
    BitsRoundTrip(n, 16, rest);
    var r := ReadBits(WriteVar(n) + rest, 16);
    if r.Some? {
      CutSum(length % 16, r.value.num, length % 16, n * 16);
      ModSmall(length, TWO32);
    }
  }

  /** Continuing bytes of type 0 in front of a header are skipped, and a last byte of type 0 ends it with
      that type. */
  lemma {:induction false} ZeroKindRestarts(zeros: Bytes, s: Bytes)
    requires forall i :: 0 <= i < |zeros| ==> 128 <= zeros[i] < 144
    ensures HeaderFrom(zeros + s) == HeaderFrom(s)
    ensures s != [] && s[0] < 16 ==> HeaderFrom(s) == Some(Header(0, s[0], s[1..]))
    decreases |zeros|
  {
    if zeros == [] {
      assert zeros + s == s;
    } else {
      assert (zeros + s)[1..] == zeros[1..] + s;
      ZeroKindRestarts(zeros[1..], s);
    }
  }
}
