/** Applying a delta to its base. */
module GitPackDelta {
  import opened Powers
  import opened Wrappers
  import opened GitPackCodes

  datatype Error = Inflate | LinkSize | SourceSize | TargetSize | CopyRange | Truncated | BadKind | NotFound

  // ----- the copy arguments -----

  /** Little-endian bytes of which those without a flag bit are left out; flags from bit 0 up. */
  function ReadSparse(flags: nat, n: nat, d: Bytes): (r: Option<Read>)
    decreases n
  {
    if n == 0 then Some(Read(0, d))
    else if flags % 2 == 1 && d == [] then None
    else
      var b, rest := if flags % 2 == 1 then d[0] else 0, if flags % 2 == 1 then d[1..] else d;
      match ReadSparse(flags / 2, n - 1, rest)
      case None => None
      case Some(r) => Some(Read(b + 256 * r.num, r.rest))
  }

  /** The flag bits and bytes for a number below 256^n. */
  function SparseFlags(x: nat, n: nat): (f: nat)
    decreases n
  {
    if n == 0 then 0 else (if x % 256 != 0 then 1 else 0) + 2 * SparseFlags(x / 256, n - 1)
  }

  function SparseBytes(x: nat, n: nat): (s: Bytes)
    decreases n
  {
    if n == 0 then [] else (if x % 256 != 0 then [x % 256] else []) + SparseBytes(x / 256, n - 1)
  }

  lemma {:induction false} FlagsBound(x: nat, n: nat, bound: nat)
    requires (n == 3 && bound == 8) || (n == 4 && bound == 16)
    ensures SparseFlags(x, n) < bound
  {
    assert SparseFlags(x / 256 / 256 / 256 / 256, 0) == 0;
    assert SparseFlags(x / 256 / 256 / 256, 1) < 2 && SparseFlags(x / 256 / 256, 1) < 2;
    assert SparseFlags(x / 256 / 256, 2) < 4 && SparseFlags(x / 256, 2) < 4;
    assert SparseFlags(x / 256, 3) < 8;
  }

  /** Higher flag bits do not matter. */
  lemma {:induction false} SparseRoundTrip(x: nat, n: nat, high: nat, rest: Bytes)
    requires x < Pow256(n)
    ensures ReadSparse(SparseFlags(x, n) + Pow2(n) * high, n, SparseBytes(x, n) + rest) == Some(Read(x, rest))
    decreases n
  {
    if n == 0 {
      assert SparseBytes(x, n) + rest == rest;
    } else {
      SparseRoundTrip(x / 256, n - 1, high, rest);
      SparseStep(x, n, high, rest);
    }
  }

  lemma SparseStep(x: nat, n: nat, high: nat, rest: Bytes)
    requires n > 0
    requires ReadSparse(SparseFlags(x / 256, n - 1) + Pow2(n - 1) * high, n - 1, SparseBytes(x / 256, n - 1) + rest) == Some(Read(x / 256, rest))
    ensures ReadSparse(SparseFlags(x, n) + Pow2(n) * high, n, SparseBytes(x, n) + rest) == Some(Read(x, rest))
  {
    hide ReadSparse;
    var bit := if x % 256 != 0 then 1 else 0;
    var d, d' := SparseBytes(x, n) + rest, SparseBytes(x / 256, n - 1) + rest;
    FlagsShift(bit, SparseFlags(x / 256, n - 1), Pow2(n - 1), high);
    FlagsUnfold(x, n, high);
    hide SparseFlags;
    hide Pow2;
    BytesUnfold(x, n, rest);
    hide SparseBytes;
    SparseUnfold(SparseFlags(x, n) + Pow2(n) * high, n, d);
  }

  lemma FlagsUnfold(x: nat, n: nat, high: nat)
    requires n > 0
    ensures var bit := if x % 256 != 0 then 1 else 0;
            SparseFlags(x, n) + Pow2(n) * high == bit + 2 * SparseFlags(x / 256, n - 1) + 2 * Pow2(n - 1) * high
  {
  }

  lemma BytesUnfold(x: nat, n: nat, rest: Bytes)
    requires n > 0
    ensures var d, d' := SparseBytes(x, n) + rest, SparseBytes(x / 256, n - 1) + rest;
            if x % 256 != 0 then d != [] && d[0] == x % 256 && d[1..] == d' else d == d'
  {
    BytesCons(x, n);
    hide SparseBytes;
    var t := SparseBytes(x / 256, n - 1);
    if x % 256 != 0 {
      assert [x % 256] + t + rest == [x % 256] + (t + rest);
    } else {
      assert [] + t == t;
    }
  }

  lemma BytesCons(x: nat, n: nat)
    requires n > 0
    ensures SparseBytes(x, n) == (if x % 256 != 0 then [x % 256] else []) + SparseBytes(x / 256, n - 1)
  {
  }

  lemma SparseUnfold(flags: nat, n: nat, d: Bytes)
    requires n > 0 && (flags % 2 == 1 ==> d != [])
    ensures var r := ReadSparse(flags / 2, n - 1, if flags % 2 == 1 then d[1..] else d);
            r.Some? ==> ReadSparse(flags, n, d) == Some(Read((if flags % 2 == 1 then d[0] else 0) + 256 * r.value.num, r.value.rest))
  {
  }

  lemma FlagsShift(bit: nat, f: nat, p: nat, high: nat)
    requires bit < 2
    ensures var w := bit + 2 * f + 2 * p * high; w % 2 == bit && w / 2 == f + p * high
  {
    assert 2 * p * high == 2 * (p * high);
  }

  /** The fourth offset byte is shifted as a signed 32-bit number. */
  datatype Copy = Copy(offset: nat, size: nat, rest: Bytes)

  function CopyArgs(op: Byte, d: Bytes): (r: Option<Copy>) {
    match ReadSparse(op, 4, d)
    case None => None
    case Some(o) =>
      match ReadSparse(op / 16, 3, o.rest)
      case None => None
      case Some(s) => Some(Copy(Widen(o.num), if s.num == 0 then 0x10000 else s.num, s.rest))
  }

  // ----- running the instructions -----

  function Slice(s: Bytes, offset: nat, size: nat): (r: Bytes)
    requires offset <= |s|
  {
    if offset + size <= |s| then s[offset..offset + size] else s[offset..]
  }

  /** One instruction: what it appends, and what is left of the delta. */
  function Step(base: Bytes, d: Bytes): (r: Result<(Bytes, Bytes), Error>)
    requires d != []
    ensures r.Ok? ==> |r.value.1| < |d|
  {
    var op, rest := d[0], d[1..];
    if op >= 128 then
      match CopyArgs(op, rest)
      case None => Err(Truncated)
      case Some(c) =>
        ArgsShrink(op, rest);
        if c.offset > |base| then Err(CopyRange) else Ok((Slice(base, c.offset, c.size), c.rest))
    else if op > |rest| then Err(Truncated)
    else Ok((rest[..op], rest[op..]))
  }

  lemma {:induction false} SparseShrinks(flags: nat, n: nat, d: Bytes)
    ensures var r := ReadSparse(flags, n, d); r.Some? ==> |r.value.rest| <= |d|
    decreases n
  {
    if n > 0 && !(flags % 2 == 1 && d == []) {
      SparseShrinks(flags / 2, n - 1, if flags % 2 == 1 then d[1..] else d);
    }
  }

  lemma ArgsShrink(op: Byte, d: Bytes)
    ensures var r := CopyArgs(op, d); r.Some? ==> |r.value.rest| <= |d|
  {
    SparseShrinks(op, 4, d);
    var o := ReadSparse(op, 4, d);
    if o.Some? {
      SparseShrinks(op / 16, 3, o.value.rest);
    }
  }

  /** The whole instruction list, after what was appended so far. */
  function RunFrom(base: Bytes, d: Bytes, acc: Bytes): (r: Result<Bytes, Error>)
    decreases |d|
  {
    if d == [] then Ok(acc)
    else
      match Step(base, d)
      case Err(e) => Err(e)
      case Ok(s) => RunFrom(base, s.1, acc + s.0)
  }

  function ApplyDelta(base: Bytes, delta: Bytes): (r: Result<Bytes, Error>) {
    match ReadVar(delta)
    case None => Err(Truncated)
    case Some(source) =>
      match ReadVar(source.rest)
      case None => Err(Truncated)
      case Some(target) =>
        if |base| != source.num then Err(SourceSize)
        else
          match RunFrom(base, target.rest, [])
          case Err(e) => Err(e)
          case Ok(result) => if |result| != Cut(target.num) then Err(TargetSize) else Ok(result)
  }

  /** The delta is consumed from the front. */
  method Patch(base: Bytes, delta: Bytes) returns (r: Result<Bytes, Error>)
    ensures r == ApplyDelta(base, delta)
  {
    var source := ReadVarLenInt(delta);
    if source.None? {
      return Err(Truncated);
    }
    var target := ReadVarLenInt(source.value.rest);
    if target.None? {
      return Err(Truncated);
    }
    if |base| != source.value.num {
      return Err(SourceSize);
    }
    var dsv, result: Bytes := target.value.rest, [];
    while dsv != []
      invariant RunFrom(base, target.value.rest, []) == RunFrom(base, dsv, result)
      decreases |dsv|
    {
      var s := Step(base, dsv);
      if s.Err? {
        return Err(s.error);
      }
      dsv, result := s.value.1, result + s.value.0;
    }
    if |result| != Cut(target.value.num) {
      return Err(TargetSize);
    }
    r := Ok(result);
  }

  // ----- the meaning of a delta -----

  datatype Instr = CopyFrom(offset: nat, size: nat) | Insert(data: Bytes)

  /** Instructions that can be written and applied: a copy that starts inside the base or at its end, an
      insertion of at most 127 bytes. */
  predicate Sensible(base: Bytes, i: Instr) {
    match i
    case CopyFrom(o, n) => 0 < n < 0x100_0000 && o <= |base| && o < TWO31
    case Insert(data) => |data| < 128
  }

  /** A copy that would reach past the base ends with it. */
  function InstrMeaning(base: Bytes, i: Instr): (s: Bytes)
    requires Sensible(base, i)
  {
    match i
    case CopyFrom(o, n) => if o + n <= |base| then base[o..o + n] else base[o..]
    case Insert(data) => data
  }

  /** A copy of 0x10000 bytes leaves its size out. */
  function SizeField(n: nat): (x: nat) { if n == 0x10000 then 0 else n }

  lemma Pow256Small()
    ensures Pow256(3) == 0x100_0000 && Pow256(4) == TWO32
  {
    assert Pow256(0) == 1 && Pow256(1) == 256 && Pow256(2) == 65536;
  }

  lemma SparseReads(x: nat, n: nat, p: nat, high: nat, rest: Bytes)
    requires (n == 3 && p == 8 && x < 0x100_0000) || (n == 4 && p == 16 && x < TWO32)
    ensures ReadSparse(SparseFlags(x, n) + p * high, n, SparseBytes(x, n) + rest) == Some(Read(x, rest))
  {
    hide ReadSparse;
    hide SparseFlags;
    hide SparseBytes;
    Pow256Small();
    hide Pow256;
    assert Pow2(3) == 8 && Pow2(4) == 16 by {
      assert Pow2(0) == 1 && Pow2(1) == 2 && Pow2(2) == 4;
    }
    hide Pow2;
    SparseRoundTrip(x, n, high, rest);
  }

  function CopyOp(o: nat, n: nat): (op: Byte) {
    FlagsBound(o, 4, 16);
    FlagsBound(SizeField(n), 3, 8);
    128 + SparseFlags(o, 4) + 16 * SparseFlags(SizeField(n), 3)
  }

  function InstrCode(i: Instr): (s: Bytes)
    ensures s != []
  {
    match i
    case CopyFrom(o, n) => [CopyOp(o, n)] + SparseBytes(o, 4) + SparseBytes(SizeField(n), 3)
    case Insert(data) => [|data| % 128] + data
  }

  lemma CopyReads(o: nat, n: nat, rest: Bytes)
    requires 0 < n < 0x100_0000 && o < TWO31
    ensures CopyArgs(CopyOp(o, n), SparseBytes(o, 4) + SparseBytes(SizeField(n), 3) + rest) == Some(Copy(o, n, rest))
  {
    hide SparseFlags;
    hide SparseBytes;
    hide ReadSparse;
    var x := SizeField(n);
    var fo, fs := SparseFlags(o, 4), SparseFlags(x, 3);
    var so, ss := SparseBytes(o, 4), SparseBytes(x, 3);
    FlagsBound(o, 4, 16);
    FlagsBound(x, 3, 8);
    assert so + ss + rest == so + (ss + rest);
    SparseReads(o, 4, 16, 8 + fs, ss + rest);
    SparseReads(x, 3, 8, 1, rest);
    assert CopyOp(o, n) / 16 == fs + 8 * 1;
  }

  /** One written instruction does what it means. */
  lemma StepMeans(base: Bytes, i: Instr, rest: Bytes)
    requires Sensible(base, i)
    ensures Step(base, InstrCode(i) + rest) == Ok((InstrMeaning(base, i), rest))
  {
    hide SparseFlags;
    hide SparseBytes;
    hide ReadSparse;
    hide CopyArgs;
    hide CopyOp;
    match i
    case CopyFrom(o, n) =>
      CopyMeans(base, o, n, rest);
    case Insert(data) =>
      var d: Bytes := InstrCode(i) + rest;
      assert d[1..] == data + rest;
      assert d[1..][..|data|] == data && d[1..][|data|..] == rest;
  }

  /** A written copy, inside the base or not. */
  lemma CopyMeans(base: Bytes, o: nat, n: nat, rest: Bytes)
    requires 0 < n < 0x100_0000 && o < TWO31
    ensures Step(base, InstrCode(CopyFrom(o, n)) + rest)
         == if o > |base| then Err(CopyRange) else Ok((InstrMeaning(base, CopyFrom(o, n)), rest))
  {
    hide SparseBytes;
    hide CopyArgs;
    hide CopyOp;
    var d: Bytes := InstrCode(CopyFrom(o, n)) + rest;
    CopyReads(o, n, rest);
    assert d[1..] == SparseBytes(o, 4) + SparseBytes(SizeField(n), 3) + rest;
    CopyOpIsCopy(o, n);
  }

  lemma CopyOpIsCopy(o: nat, n: nat)
    ensures CopyOp(o, n) >= 128
  {
  }

  function DeltaCode(base: Bytes, ins: seq<Instr>): (s: Bytes)
    requires forall k :: 0 <= k < |ins| ==> Sensible(base, ins[k])
  {
    if ins == [] then []
    else InstrCode(ins[0]) + DeltaCode(base, ins[1..])
  }

  function DeltaMeaning(base: Bytes, ins: seq<Instr>): (s: Bytes)
    requires forall k :: 0 <= k < |ins| ==> Sensible(base, ins[k])
  {
    if ins == [] then [] else InstrMeaning(base, ins[0]) + DeltaMeaning(base, ins[1..])
  }

  lemma {:induction false} RunMeans(base: Bytes, ins: seq<Instr>, acc: Bytes)
    requires forall k :: 0 <= k < |ins| ==> Sensible(base, ins[k])
    ensures RunFrom(base, DeltaCode(base, ins), acc) == Ok(acc + DeltaMeaning(base, ins))
    decreases |ins|
  {
    if ins == [] {
      assert acc + [] == acc;
    } else {
      StepMeans(base, ins[0], DeltaCode(base, ins[1..]));
      hide InstrCode;
      hide Step;
      var m := InstrMeaning(base, ins[0]);
      RunMeans(base, ins[1..], acc + m);
      assert acc + m + DeltaMeaning(base, ins[1..]) == acc + (m + DeltaMeaning(base, ins[1..]));
    }
  }

  /** The bytes of a delta: both sizes, then the instructions. */
  function DeltaFor(base: Bytes, ins: seq<Instr>): (s: Bytes)
    requires forall k :: 0 <= k < |ins| ==> Sensible(base, ins[k])
  {
    WriteVar(|base|) + (WriteVar(|DeltaMeaning(base, ins)|) + DeltaCode(base, ins))
  }

  /** A delta written for its base produces what its instructions mean exactly when the base is smaller
      than 2^31 bytes and the target smaller than 2^32. */
  lemma DeltaRoundTripIff(base: Bytes, ins: seq<Instr>)
    requires forall k :: 0 <= k < |ins| ==> Sensible(base, ins[k])
    ensures ApplyDelta(base, DeltaFor(base, ins)) == Ok(DeltaMeaning(base, ins)) <==> |base| < TWO31 && |DeltaMeaning(base, ins)| < TWO32
  {
    var target, code := DeltaMeaning(base, ins), DeltaCode(base, ins);
    var rest := WriteVar(|target|) + code;
    VarRoundTripIff(|base|, rest);
    VarRoundTripCut(|base|, rest);
    VarRoundTripCut(|target|, code);
    RunMeans(base, ins, []);
    assert [] + target == target;
    hide ReadVar;
    hide WriteVar;
    hide RunFrom;
    hide DeltaMeaning;
    hide DeltaCode;
    if ReadVar(rest).Some? {
      CutIsSame(|target|);
    }
  }

  /** Both sizes are checked: the first against the base, the second against what was produced. */
  lemma SizesAreChecked(base: Bytes, ins: seq<Instr>, source: nat, target: nat)
    requires (forall k :: 0 <= k < |ins| ==> Sensible(base, ins[k])) && source < TWO31 && target < TWO32
    ensures ApplyDelta(base, WriteVar(source) + (WriteVar(target) + DeltaCode(base, ins)))
         == if source != |base| then Err(SourceSize)
            else if target != |DeltaMeaning(base, ins)| then Err(TargetSize)
            else Ok(DeltaMeaning(base, ins))
  {
    var code := DeltaCode(base, ins);
    VarRoundTripIff(source, WriteVar(target) + code);
    VarRoundTripCut(target, code);
    RunMeans(base, ins, []);
    assert [] + DeltaMeaning(base, ins) == DeltaMeaning(base, ins);
    hide ReadVar;
    hide WriteVar;
    hide RunFrom;
    hide DeltaMeaning;
    hide DeltaCode;
    CutIsSame(target);
  }

  lemma CutIsSame(n: nat)
    ensures Cut(n) == n <==> n < TWO32
  {
  }
}
