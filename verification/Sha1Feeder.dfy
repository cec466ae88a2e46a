/** The block feeder of the fast SHA-1, against the padding of section 5.1.1 of FIPS 180-4 in bytes. */
module Sha1Feeder {
  import opened Seqs
  import opened Powers

  predicate IsByte(b: int) { 0 <= b < 256 }

  predicate Bytes(s: seq<int>) {
    forall i :: 0 <= i < |s| ==> IsByte(s[i])
  }

  function Zeros(n: nat): (s: seq<int>)
    ensures |s| == n && forall i :: 0 <= i < n ==> s[i] == 0
  {
    seq(n, _ => 0)
  }

  function BitLength(n: nat): (l: nat) {
    n * 8 % Pow256(8)
  }

  /** Big-endian bytes of a 64-bit number. */
  function Big8(l: nat): (s: seq<int>)
    ensures |s| == 8 && Bytes(s)
  {
    seq(8, k requires 0 <= k < 8 => l / Pow256(7 - k) % 256)
  }

  /** The smallest number of zero bytes that leaves eight bytes in the last block. */
  function PadZeros(n: nat): (z: nat)
    ensures z < 64 && (n + 1 + z + 8) % 64 == 0
  {
    if n % 64 <= 55 then 55 - n % 64 else 119 - n % 64
  }

  /** The padded message. */
  function Padded(m: seq<int>): (s: seq<int>)
    ensures |s| % 64 == 0
  {
    m + [0x80] + Zeros(PadZeros(|m|)) + Big8(BitLength(|m|))
  }

  // ----- the feeder as a state machine -----

  datatype Phase = CopyBytes | Add80 | ZeroPad | WriteLen | Finished

  datatype Feed = Feed(chunk: seq<int>, pos: nat, phase: Phase)

  function PutLength(chunk: seq<int>, at: nat, l: nat): (r: seq<int>)
    requires |chunk| == 64 && at <= 56
    ensures |r| == 64
  {
    chunk[..at] + Big8(l) + chunk[at + 8..]
  }

  /** A block being filled: its bytes, how many are in use, and the phase. */
  datatype Part = Part(chunk: seq<int>, filled: nat, phase: Phase)

  predicate Partway(p: Part) { |p.chunk| == 64 && p.filled <= 64 }

  function CopyPart(m: seq<int>, pos: nat, phase: Phase): (p: Part)
    requires phase == CopyBytes ==> pos <= |m|
    ensures Partway(p)
  {
    if phase != CopyBytes then Part(Zeros(64), 0, phase)
    else
      var filled: nat := if pos + 64 <= |m| then 64 else |m| - pos;
      Part(m[pos..pos + filled] + Zeros(64 - filled), filled, if pos + filled >= |m| then Add80 else CopyBytes)
  }

  function AddPart(p: Part): (r: Part)
    requires Partway(p)
    ensures Partway(r)
  {
    if p.filled < 64 && p.phase == Add80 then Part(p.chunk[p.filled := 0x80], p.filled + 1, ZeroPad) else p
  }

  function PadPart(p: Part): (r: Part)
    requires Partway(p)
    ensures Partway(r)
  {
    if p.filled < 64 && p.phase == ZeroPad then Part(p.chunk, if p.filled <= 56 then 56 else 64, WriteLen) else p
  }

  function LenPart(p: Part, l: nat): (r: Part)
    requires Partway(p)
    ensures Partway(r)
  {
    if p.filled < 64 && p.phase == WriteLen && p.filled <= 56 then Part(PutLength(p.chunk, p.filled, l), p.filled + 8, Finished) else p
  }

  /** One call of nextBlock from a phase other than Finished: the four guarded steps in order. */
  function Step(m: seq<int>, pos: nat, phase: Phase): (f: Feed)
    requires phase != Finished && (phase == CopyBytes ==> pos <= |m|)
    ensures |f.chunk| == 64 && (f.phase == CopyBytes ==> f.pos <= |m|)
  {
    var p := LenPart(PadPart(AddPart(CopyPart(m, pos, phase))), BitLength(|m|));
    Feed(p.chunk, pos + p.filled, p.phase)
  }

  function Rank(m: seq<int>, pos: nat, phase: Phase): (r: nat) {
    match phase
    case CopyBytes => if pos <= |m| then |m| - pos + 4 else 4
    case Add80 => 3
    case ZeroPad => 2
    case WriteLen => 1
    case Finished => 0
  }

  /** All blocks from here on, one after the other. */
  function Stream(m: seq<int>, pos: nat, phase: Phase): (s: seq<int>)
    requires phase == CopyBytes ==> pos <= |m|
    decreases Rank(m, pos, phase)
  {
    if phase == Finished then []
    else
      var f := Step(m, pos, phase);
      f.chunk + Stream(m, f.pos, f.phase)
  }

  /** What the feeder makes of the end of a message: as padded, except that for 56 to 62 bytes in
      the last block the length comes at the start of an extra block instead of at its end. */
  function Fed(m: seq<int>): (s: seq<int>) {
    if 56 <= |m| % 64 <= 62 then m + [0x80] + Zeros(63 - |m| % 64) + Big8(BitLength(|m|)) + Zeros(56)
    else Padded(m)
  }

  lemma LengthBlock(m: seq<int>, pos: nat)
    ensures Stream(m, pos, WriteLen) == Big8(BitLength(|m|)) + Zeros(56)
    ensures Stream(m, pos, ZeroPad) == Zeros(56) + Big8(BitLength(|m|))
    ensures Stream(m, pos, Add80) == [0x80] + Zeros(55) + Big8(BitLength(|m|))
  {
    var l := Big8(BitLength(|m|));
    var f, g, h := Step(m, pos, WriteLen), Step(m, pos, ZeroPad), Step(m, pos, Add80);
    assert f == Feed(PutLength(Zeros(64), 0, BitLength(|m|)), pos + 8, Finished);
    assert f.chunk == l + Zeros(56);
    assert g == Feed(PutLength(Zeros(64), 56, BitLength(|m|)), pos + 64, Finished);
    assert g.chunk == Zeros(56) + l;
    assert h == Feed(PutLength(Zeros(64)[0 := 0x80], 56, BitLength(|m|)), pos + 64, Finished);
    assert h.chunk == [0x80] + Zeros(55) + l;
    assert Stream(m, f.pos, Finished) == [] && Stream(m, g.pos, Finished) == [] && Stream(m, h.pos, Finished) == [];
  }

  /** The last, partial block and whatever follows it. */
  lemma LastBlock(m: seq<int>, pos: nat)
    requires pos <= |m| < pos + 64 && pos % 64 == 0
    ensures m[..pos] + Stream(m, pos, CopyBytes) == Fed(m)
  {
    var r, l := |m| - pos, Big8(BitLength(|m|));
    var chunk1 := m[pos..] + [0x80] + Zeros(63 - r);
    RemainderIs(|m|, pos);
    LastStep(m, pos, chunk1);
    LengthBlock(m, pos + 64);
    hide Stream;
    hide Step;
    hide Fed;
    StreamStep(m, pos, CopyBytes);
    if r <= 55 {
      StreamStep(m, pos + 64, Finished);
      LastShort(m, pos, r, l, chunk1);
    } else if r <= 62 {
      LastCrossing(m, pos, r, l);
    } else {
      LastFull(m, pos, l);
    }
  }

  lemma LastStep(m: seq<int>, pos: nat, chunk1: seq<int>)
    requires pos <= |m| < pos + 64 && chunk1 == m[pos..] + [0x80] + Zeros(63 - (|m| - pos))
    ensures Step(m, pos, CopyBytes) ==
            if |m| - pos <= 55 then Feed(PutLength(chunk1, 56, BitLength(|m|)), pos + 64, Finished)
            else if |m| - pos <= 62 then Feed(chunk1, pos + 64, WriteLen)
            else Feed(chunk1, pos + 64, ZeroPad)
  {
    var r := |m| - pos;
    assert m[pos..pos + r] == m[pos..];
    assert (m[pos..] + Zeros(64 - r))[r := 0x80] == chunk1;
  }

  lemma StreamStep(m: seq<int>, pos: nat, phase: Phase)
    requires phase == CopyBytes ==> pos <= |m|
    ensures phase == Finished ==> Stream(m, pos, phase) == []
    ensures phase != Finished ==> Stream(m, pos, phase) == Step(m, pos, phase).chunk + Stream(m, Step(m, pos, phase).pos, Step(m, pos, phase).phase)
  {
  }

  lemma RemainderIs(n: nat, pos: nat)
    requires pos <= n < pos + 64 && pos % 64 == 0
    ensures n % 64 == n - pos
  {
  }

  lemma LastShort(m: seq<int>, pos: nat, r: nat, l: seq<int>, chunk1: seq<int>)
    requires pos <= |m| && r == |m| - pos <= 55 && r == |m| % 64 && l == Big8(BitLength(|m|))
    requires chunk1 == m[pos..] + [0x80] + Zeros(63 - r)
    ensures m[..pos] + (PutLength(chunk1, 56, BitLength(|m|)) + []) == Fed(m)
  {
    assert chunk1[..56] == m[pos..] + [0x80] + Zeros(55 - r);
    assert chunk1[64..] == [];
    assert m[..pos] + m[pos..] == m;
  }

  lemma LastCrossing(m: seq<int>, pos: nat, r: nat, l: seq<int>)
    requires pos <= |m| && 56 <= r == |m| - pos <= 62 && r == |m| % 64 && l == Big8(BitLength(|m|))
    ensures m[..pos] + ((m[pos..] + [0x80] + Zeros(63 - r)) + (l + Zeros(56))) == Fed(m)
  {
    assert m[..pos] + m[pos..] == m;
  }

  lemma LastFull(m: seq<int>, pos: nat, l: seq<int>)
    requires pos <= |m| && |m| - pos == 63 == |m| % 64 && l == Big8(BitLength(|m|))
    ensures m[..pos] + ((m[pos..] + [0x80] + Zeros(0)) + (Zeros(56) + l)) == Fed(m)
  {
    assert m[..pos] + m[pos..] == m;
    assert Zeros(0) == [];
  }

  /** From any block boundary inside the message the feeder produces the rest of Fed. */
  lemma {:induction false} FeederProduces(m: seq<int>, pos: nat)
    requires pos <= |m| && pos % 64 == 0
    ensures m[..pos] + Stream(m, pos, CopyBytes) == Fed(m)
    decreases |m| - pos
  {
    if |m| < pos + 64 {
      LastBlock(m, pos);
    } else {
      if |m| > pos + 64 {
        FeederProduces(m, pos + 64);
      }
      FullBlock(m, pos);
    }
  }

  lemma FullBlock(m: seq<int>, pos: nat)
    requires pos + 64 <= |m| && pos % 64 == 0
    requires |m| > pos + 64 ==> m[..pos + 64] + Stream(m, pos + 64, CopyBytes) == Fed(m)
    ensures m[..pos] + Stream(m, pos, CopyBytes) == Fed(m)
  {
    hide Stream;
    hide Fed;
    var next := if |m| == pos + 64 then Add80 else CopyBytes;
    FullStep(m, pos);
    StreamStep(m, pos, CopyBytes);
    Assoc(m[..pos], m[pos..pos + 64], Stream(m, pos + 64, next));
    assert m[..pos] + m[pos..pos + 64] == m[..pos + 64];
    if |m| == pos + 64 {
      assert m[..pos + 64] == m;
      FullIsLast(m);
    }
  }

  lemma FullIsLast(m: seq<int>)
    requires |m| % 64 == 0 && |m| >= 64
    ensures m + Stream(m, |m|, Add80) == Fed(m)
  {
    LengthBlock(m, |m|);
    hide Stream;
    Assoc(m, [0x80] + Zeros(55), Big8(BitLength(|m|)));
    Assoc(m, [0x80], Zeros(55));
  }

  lemma FullStep(m: seq<int>, pos: nat)
    requires pos + 64 <= |m|
    ensures Step(m, pos, CopyBytes) == Feed(m[pos..pos + 64], pos + 64, if |m| == pos + 64 then Add80 else CopyBytes)
  {
    assert Zeros(0) == [];
    assert m[pos..pos + 64] + Zeros(0) == m[pos..pos + 64];
  }

  /** The blocks of the feeder are the padded message exactly when the last block does not hold
      56 to 62 message bytes. */
  lemma FeederPadsIff(m: seq<int>)
    ensures Stream(m, 0, CopyBytes) == Padded(m) <==> !(56 <= |m| % 64 <= 62)
  {
    FeederProduces(m, 0);
    assert m[..0] + Stream(m, 0, CopyBytes) == Stream(m, 0, CopyBytes);
    if 56 <= |m| % 64 <= 62 {
      FedDiffers(m);
    }
  }

  lemma FedDiffers(m: seq<int>)
    requires 56 <= |m| % 64 <= 62
    ensures Fed(m) != Padded(m)
  {
    var l, at := Big8(BitLength(|m|)), |m| + 64 - |m| % 64;
    LengthNotZero(|m|);
    var k :| 0 <= k < 8 && l[k] != 0;
    assert Fed(m)[at + k] == l[k];
    assert Padded(m)[at + k] == 0;
  }

  lemma LengthNotZero(n: nat)
    requires 56 <= n % 64
    ensures exists k :: 0 <= k < 8 && Big8(BitLength(n))[k] != 0
  {
    var l := BitLength(n);
    var low := Big8(l)[7];
    assert Pow256(0) == 1;
    assert low == l % 256;
    LowByte(n);
    assert low == n * 8 % 256;
    if n * 8 % 256 == 0 {
      MultipleOf32(n);
    }
  }

  lemma Pow256Factor(i: nat)
    requires i > 0
    ensures Pow256(i) == 256 * Pow256(i - 1)
  {
  }

  lemma LowByte(n: nat)
    ensures BitLength(n) % 256 == n * 8 % 256
  {
    var x, p := n * 8, Pow256(7);
    Pow256Factor(8);
    assert x == x / (256 * p) * (256 * p) + x % (256 * p);
    var q := x / (256 * p);
    assert q * (256 * p) == 256 * (q * p);
    ModOfSum(x % (256 * p), q * p);
  }

  lemma ModOfSum(a: nat, t: nat)
    ensures (256 * t + a) % 256 == a % 256
  {
  }

  lemma MultipleOf32(n: nat)
    requires n * 8 % 256 == 0
    ensures n % 64 == 0 || n % 64 == 32
  {
    var q := n * 8 / 256;
    assert n == 32 * q == 64 * (q / 2) + 32 * (q % 2);
  }

  // ----- the feeder itself -----

  class Sha1BlockFeeder {
    const bytes: seq<int>
    var pos: nat
    var phase: Phase

    constructor (bytes: seq<int>)
      ensures this.bytes == bytes && pos == 0 && phase == CopyBytes
    {
      this.bytes, pos, phase := bytes, 0, CopyBytes;
    }

    ghost predicate Valid()
      reads this
    {
      phase == CopyBytes ==> pos <= |bytes|
    }

    /** Fills the next block; false once the length has been written. */
    method NextBlock(chunk: array<int>) returns (more: bool)
      requires Valid() && chunk.Length == 64
      modifies this, chunk
      ensures Valid()
      ensures more <==> old(phase) != Finished
      ensures more ==> Feed(chunk[..], pos, phase) == Step(bytes, old(pos), old(phase))
      ensures !more ==> pos == old(pos) && phase == old(phase) && chunk[..] == old(chunk[..])
    {
      if phase == Finished {
        return false;
      }
      hide CopyPart;
      hide AddPart;
      hide PadPart;
      var filled := BeginBlock(chunk);
      filled := PadBlock(chunk, filled);
      if filled < 64 && phase == WriteLen {
        WriteLength(chunk, filled);
        filled := filled + 8;
        phase := Finished;
      }
      pos := pos + filled;
      return true;
    }

    /** The two middle steps: the byte 0x80 and the zeros. */
    method PadBlock(chunk: array<int>, begun: nat) returns (filled: nat)
      requires chunk.Length == 64 && Partway(Part(chunk[..], begun, phase))
      modifies this`phase, chunk
      ensures Part(chunk[..], filled, phase) == PadPart(AddPart(Part(old(chunk[..]), begun, old(phase))))
    {
      filled := begun;
      if filled < 64 && phase == Add80 {
        chunk[filled] := 0x80;
        filled := filled + 1;
        phase := ZeroPad;
      }
      if filled < 64 && phase == ZeroPad {
        filled := if filled <= 56 then 56 else 64;
        phase := WriteLen;
      }
    }

    method BeginBlock(chunk: array<int>) returns (filled: nat)
      requires Valid() && chunk.Length == 64
      modifies this`phase, chunk
      ensures Part(chunk[..], filled, phase) == CopyPart(bytes, pos, old(phase))
    {
      filled := 0;
      Fill(chunk);
      if phase == CopyBytes {
        filled := if pos + 64 <= |bytes| then 64 else |bytes| - pos;
        Copy(chunk, filled);
        if pos + filled >= |bytes| {
          phase := Add80;
        }
      }
    }

    method Fill(chunk: array<int>)
      requires chunk.Length == 64
      modifies chunk
      ensures chunk[..] == Zeros(64)
    {
      for i := 0 to 64
        invariant forall k :: 0 <= k < i ==> chunk[k] == 0
      {
        chunk[i] := 0;
      }
    }

    method Copy(chunk: array<int>, n: nat)
      requires chunk.Length == 64 && n <= 64 && pos + n <= |bytes| && chunk[..] == Zeros(64)
      modifies chunk
      ensures chunk[..] == bytes[pos..pos + n] + Zeros(64 - n)
    {
      for i := 0 to n
        invariant forall k :: 0 <= k < i ==> chunk[k] == bytes[pos + k]
        invariant forall k :: i <= k < 64 ==> chunk[k] == 0
      {
        chunk[i] := bytes[pos + i];
      }
    }

    /** Writes the bit length big-endian, most significant byte first. */
    method WriteLength(chunk: array<int>, at: nat)
      requires chunk.Length == 64 && at <= 56
      modifies chunk
      ensures chunk[..] == PutLength(old(chunk[..]), at, BitLength(|bytes|))
    {
      var bitLen := BitLength(|bytes|);
      ghost var l := Big8(bitLen);
      for k := 0 to 8
        invariant forall j :: at <= j < at + k ==> chunk[j] == l[j - at]
        invariant forall j :: 0 <= j < 64 && !(at <= j < at + k) ==> chunk[j] == old(chunk[j])
      {
        chunk[at + k] := bitLen / Pow256(7 - k) % 256;
      }
    }
  }

  /** Runs the feeder to the end and collects its blocks. */
  method AllBlocks(bytes: seq<int>) returns (blocks: seq<seq<int>>)
    ensures forall i :: 0 <= i < |blocks| ==> |blocks[i]| == 64
    ensures Concat(blocks) == Stream(bytes, 0, CopyBytes)
  {
    var feeder := new Sha1BlockFeeder(bytes);
    var chunk := new int[64];
    blocks := CollectBlocks(feeder, chunk);
  }

  method CollectBlocks(feeder: Sha1BlockFeeder, chunk: array<int>) returns (blocks: seq<seq<int>>)
    requires feeder.Valid() && chunk.Length == 64
    modifies feeder, chunk
    ensures forall i :: 0 <= i < |blocks| ==> |blocks[i]| == 64
    ensures Concat(blocks) == old(Stream(feeder.bytes, feeder.pos, feeder.phase))
  {
    hide Stream;
    hide Step;
    hide Concat;
    hide Rank;
    blocks := [];
    NoBlocks();
    ghost var all := Stream(feeder.bytes, feeder.pos, feeder.phase);
    assert [] + all == all;
    var more := NextOf(feeder, chunk, []);
    while more
      invariant feeder.Valid()
      invariant forall i :: 0 <= i < |blocks| ==> |blocks[i]| == 64
      invariant more ==> Concat(blocks) + (chunk[..] + Stream(feeder.bytes, feeder.pos, feeder.phase)) == all
      invariant !more ==> Concat(blocks) == all
      decreases more, Rank(feeder.bytes, feeder.pos, feeder.phase)
    {
      ConcatSnoc(blocks, chunk[..]);
      Assoc(Concat(blocks), chunk[..], Stream(feeder.bytes, feeder.pos, feeder.phase));
      blocks := blocks + [chunk[..]];
      more := NextOf(feeder, chunk, Concat(blocks));
    }
  }

  /** One more block of what is left. */
  method NextOf(feeder: Sha1BlockFeeder, chunk: array<int>, ghost done: seq<int>) returns (more: bool)
    requires feeder.Valid() && chunk.Length == 64
    modifies feeder, chunk
    ensures feeder.Valid()
    ensures more ==> done + (chunk[..] + Stream(feeder.bytes, feeder.pos, feeder.phase)) == done + old(Stream(feeder.bytes, feeder.pos, feeder.phase))
    ensures more ==> Rank(feeder.bytes, feeder.pos, feeder.phase) < old(Rank(feeder.bytes, feeder.pos, feeder.phase))
    ensures !more ==> feeder.phase == Finished && done == done + old(Stream(feeder.bytes, feeder.pos, feeder.phase))
  {
    hide Step;
    hide Stream;
    hide Rank;
    StreamStep(feeder.bytes, feeder.pos, feeder.phase);
    StepRank(feeder.bytes, feeder.pos, feeder.phase);
    more := feeder.NextBlock(chunk);
    assert done + [] == done;
  }

  lemma StepRank(m: seq<int>, pos: nat, phase: Phase)
    requires phase == CopyBytes ==> pos <= |m|
    ensures phase != Finished ==> Rank(m, Step(m, pos, phase).pos, Step(m, pos, phase).phase) < Rank(m, pos, phase)
  {
  }

  function Concat(blocks: seq<seq<int>>): (s: seq<int>) {
    if blocks == [] then [] else Concat(blocks[..|blocks| - 1]) + blocks[|blocks| - 1]
  }

  lemma NoBlocks()
    ensures Concat([]) == []
  {
  }

  lemma ConcatSnoc(blocks: seq<seq<int>>, b: seq<int>)
    ensures Concat(blocks + [b]) == Concat(blocks) + b
  {
    assert (blocks + [b])[..|blocks|] == blocks;
  }
}
