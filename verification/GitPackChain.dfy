/** Extracting an object from a pack: the chain of deltas down to a whole object, and back up. */
module GitPackChain {
  import opened Wrappers
  import opened GitPackCodes
  import opened GitPackDelta

  /** The file, zlib from a position on, and the position of an object by name. */
  datatype Pack = Pack(file: Bytes, inflate: nat -> Option<Bytes>, find: Bytes -> Option<nat>)

  /** What an offset holds. Hang: the header or offset loop runs past the end of the file, where every
      byte read has its continuation bit set. */
  datatype Entry =
    | Whole(kind: nat, pos: nat, size: nat)
    | Delta(pos: nat, size: nat, below: nat)
    | Broken(error: Error)
    | Hang

  function Rest(p: Pack, off: nat): (s: Bytes) {
    if off <= |p.file| then p.file[off..] else []
  }

  /** Where the unread rest starts. */
  function PosOf(p: Pack, rest: Bytes): (pos: nat) {
    if |rest| <= |p.file| then |p.file| - |rest| else 0
  }

  /** Unsigned subtraction in 64 bits. */
  function Back(off: nat, rel: nat): (r: nat) { (off - rel) % TWO64 }

  function EntryAt(p: Pack, off: nat): (e: Entry) {
    match HeaderFrom(Rest(p, off))
    case None => Hang
    case Some(h) =>
      if 1 <= h.kind <= 4 then Whole(h.kind, PosOf(p, h.rest), Cut(h.length))
      else if h.kind == 6 then
        match OffsetFrom(0, h.rest)
        case None => Hang
        case Some(r) => Delta(PosOf(p, r.rest), Cut(h.length), Back(off, r.num))
      else if h.kind == 7 then
        if |h.rest| < 20 then Broken(Truncated)
        else
          match p.find(h.rest[..20])
          case None => Broken(NotFound)
          case Some(base) => Delta(PosOf(p, h.rest[20..]), Cut(h.length), base)
      else Broken(BadKind)
  }

  // ----- the meaning of a packed object -----

  /** Following the bases reaches a whole object or an error within n entries. */
  predicate Ends(p: Pack, off: nat, n: nat)
    decreases n
  {
    n > 0 &&
    match EntryAt(p, off)
    case Hang => false
    case Delta(_, _, below) => Ends(p, below, n - 1)
    case _ => true
  }

  datatype Object = Object(kind: nat, data: Bytes)

  function Inflated(p: Pack, pos: nat, size: nat): (r: Result<Bytes, Error>) {
    match p.inflate(pos)
    case None => Err(Inflate)
    case Some(data) => if |data| != size then Err(LinkSize) else Ok(data)
  }

  /** Where the data is sought: positions are kept in unsigned 32-bit variables. */
  function Seek(pos: nat, narrow: bool): (r: nat) { if narrow then Cut(pos) else pos }

  /** A delta applied to the object below it. */
  function OnTop(p: Pack, pos: nat, size: nat, below: Result<Object, Error>): (r: Result<Object, Error>) {
    match below
    case Err(e) => Err(e)
    case Ok(o) =>
      match Inflated(p, pos, size)
      case Err(e) => Err(e)
      case Ok(delta) =>
        match ApplyDelta(o.data, delta)
        case Err(e) => Err(e)
        case Ok(data) => Ok(Object(o.kind, data))
  }

  /** Base data, or a delta applied to the meaning of its base; with or without the cut of positions. */
  function Meaning(p: Pack, off: nat, n: nat, narrow: bool): (r: Result<Object, Error>)
    requires Ends(p, off, n)
    decreases n
  {
    match EntryAt(p, off)
    case Broken(e) => Err(e)
    case Delta(pos, size, below) => OnTop(p, Seek(pos, narrow), size, Meaning(p, below, n - 1, narrow))
    case Whole(kind, pos, size) =>
      match Inflated(p, Seek(pos, narrow), size)
      case Err(e) => Err(e)
      case Ok(data) => Ok(Object(kind, data))
  }

  /** The meaning does not depend on the bound. */
  lemma {:induction false} MeaningIsUnique(p: Pack, off: nat, n: nat, m: nat, narrow: bool)
    requires Ends(p, off, n) && n <= m
    ensures Ends(p, off, m) && Meaning(p, off, n, narrow) == Meaning(p, off, m, narrow)
    decreases n
  {
    hide EntryAt;
    hide OnTop;
    hide Inflated;
    var e := EntryAt(p, off);
    if e.Delta? {
      MeaningIsUnique(p, e.below, n - 1, m - 1, narrow);
    }
  }

  lemma PositionsInFile(p: Pack, off: nat)
    requires |p.file| < TWO32
    ensures var e := EntryAt(p, off);
            e.Whole? || e.Delta? ==> Seek(e.pos, true) == e.pos
  {
    hide HeaderFrom;
    hide OffsetFrom;
  }

  /** In a pack of less than 4 GiB the cut of positions changes nothing. */
  lemma {:induction false} SmallPackIsRead(p: Pack, off: nat, n: nat)
    requires Ends(p, off, n) && |p.file| < TWO32
    ensures Meaning(p, off, n, true) == Meaning(p, off, n, false)
    decreases n
  {
    PositionsInFile(p, off);
    hide EntryAt;
    hide OnTop;
    hide Inflated;
    var e := EntryAt(p, off);
    if e.Delta? {
      SmallPackIsRead(p, e.below, n - 1);
    }
  }

  // ----- termination of chains -----

  /** The offsets at which objects start: each holds a readable header, and a delta refers back to an
      earlier one, as by a positive relative offset. */
  ghost predicate RefersBack(p: Pack, starts: set<nat>) {
    forall o: nat :: o in starts ==> Earlier(EntryAt(p, o), o, starts)
  }

  predicate Earlier(e: Entry, o: nat, starts: set<nat>) {
    !e.Hang? && (e.Delta? ==> e.below < o && e.below in starts)
  }

  /** Such chains end. */
  lemma {:induction false} OffsetChainsEnd(p: Pack, starts: set<nat>, off: nat)
    requires RefersBack(p, starts) && off in starts
    ensures Ends(p, off, off + 1)
    decreases off
  {
    var e := EntryAt(p, off);
    if e.Delta? {
      OffsetChainsEnd(p, starts, e.below);
      MeaningIsUnique(p, e.below, e.below + 1, off, true);
    }
  }

  /** A delta on itself never ends. */
  lemma {:induction false} ZeroOffsetNeverEnds(p: Pack, off: nat, n: nat)
    requires EntryAt(p, off).Delta? && EntryAt(p, off).below == off
    ensures !Ends(p, off, n)
    decreases n
  {
    if n > 0 {
      ZeroOffsetNeverEnds(p, off, n - 1);
    }
  }

  lemma BackStays(off: nat, rel: nat)
    requires rel <= off < TWO64
    ensures Back(off, rel) == off - rel
  {
  }

  /** An offset delta as git writes it is read back as such: positive distances go strictly back, a
      distance of zero refers to itself. */
  lemma OffsetEntryReads(p: Pack, off: nat, size: nat, rel: nat, tail: Bytes)
    requires off <= |p.file| < TWO64 && rel <= off && size < TWO32
    requires p.file[off..] == HeaderCode(6, size) + (Code(rel) + tail)
    ensures EntryAt(p, off) == Delta(|p.file| - |tail|, size, off - rel)
  {
    hide HeaderFrom;
    hide HeaderCode;
    hide OffsetFrom;
    hide Code;
    HeaderRoundTripIff(6, size, Code(rel) + tail);
    OffsetRoundTrip(rel, tail);
    BackStays(off, rel);
    hide Back;
  }

  // ----- the loops of extract -----

  /** kind 0 marks a delta. */
  datatype Link = Link(kind: nat, pos: nat, size: nat)

  /** A chain of deltas on top of a whole object, innermost last. */
  predicate IsChain(c: seq<Link>) {
    c != [] && c[|c| - 1].kind != 0 && forall i :: 0 <= i < |c| - 1 ==> c[i].kind == 0
  }

  function ChainFrom(p: Pack, off: nat, n: nat): (r: Result<seq<Link>, Error>)
    requires Ends(p, off, n)
    ensures r.Ok? ==> IsChain(r.value)
    decreases n
  {
    match EntryAt(p, off)
    case Broken(e) => Err(e)
    case Whole(kind, pos, size) => Ok([Link(kind, Cut(pos), size)])
    case Delta(pos, size, below) =>
      match ChainFrom(p, below, n - 1)
      case Err(e) => Err(e)
      case Ok(c) => Ok([Link(0, Cut(pos), size)] + c)
  }

  /** The meaning of a chain from its entry i on. */
  function Resolved(p: Pack, c: seq<Link>, i: nat): (r: Result<Object, Error>)
    requires IsChain(c) && i < |c|
    decreases |c| - i
  {
    if i == |c| - 1 then
      match Inflated(p, c[i].pos, c[i].size)
      case Err(e) => Err(e)
      case Ok(data) => Ok(Object(c[i].kind, data))
    else OnTop(p, c[i].pos, c[i].size, Resolved(p, c, i + 1))
  }

  lemma {:induction false} ResolvedShift(p: Pack, l: Link, c: seq<Link>, i: nat)
    requires IsChain(c) && l.kind == 0 && i < |c|
    ensures IsChain([l] + c) && Resolved(p, [l] + c, i + 1) == Resolved(p, c, i)
    decreases |c| - i
  {
    hide OnTop;
    hide Inflated;
    var d := [l] + c;
    assert d[i + 1] == c[i] && d[|d| - 1] == c[|c| - 1];
    if i < |c| - 1 {
      ResolvedShift(p, l, c, i + 1);
    }
  }

  /** Building the chain and resolving it gives the meaning. */
  lemma {:induction false} ChainMeans(p: Pack, off: nat, n: nat)
    requires Ends(p, off, n)
    ensures Meaning(p, off, n, true) == match ChainFrom(p, off, n) case Err(e) => Err(e) case Ok(c) => Resolved(p, c, 0)
    decreases n
  {
    hide EntryAt;
    hide Inflated;
    hide OnTop;
    hide Cut;
    var e := EntryAt(p, off);
    if e.Delta? {
      ChainMeans(p, e.below, n - 1);
      var c := ChainFrom(p, e.below, n - 1);
      if c.Ok? {
        ResolvedCons(p, Link(0, Cut(e.pos), e.size), c.value);
        hide Resolved;
      } else {
        OnTopOfError(p, Cut(e.pos), e.size, c.error);
      }
    }
  }

  lemma OnTopOfError(p: Pack, pos: nat, size: nat, e: Error)
    ensures OnTop(p, pos, size, Err(e)) == Err(e)
  {
  }

  lemma ResolvedCons(p: Pack, l: Link, c: seq<Link>)
    requires IsChain(c) && l.kind == 0
    ensures IsChain([l] + c) && Resolved(p, [l] + c, 0) == OnTop(p, l.pos, l.size, Resolved(p, c, 0))
  {
    hide OnTop;
    ResolvedShift(p, l, c, 0);
    assert ([l] + c)[0] == l;
  }

  function Prepend(c: seq<Link>, r: Result<seq<Link>, Error>): (q: Result<seq<Link>, Error>) {
    match r
    case Err(e) => Err(e)
    case Ok(d) => Ok(c + d)
  }

  /** The first loop: links are pushed from the object down to its base. */
  method BuildChain(p: Pack, start: nat, ghost n: nat) returns (r: Result<seq<Link>, Error>)
    requires Ends(p, start, n)
    ensures r == ChainFrom(p, start, n)
  {
    var deltaChain: seq<Link>, offset := [], start;
    ghost var left := n;
    if ChainFrom(p, start, n).Ok? {
      assert [] + ChainFrom(p, start, n).value == ChainFrom(p, start, n).value;
    }
    while true
      invariant Ends(p, offset, left)
      invariant ChainFrom(p, start, n) == Prepend(deltaChain, ChainFrom(p, offset, left))
      decreases left
    {
      hide EntryAt;
      var entry := ReadEntry(p, offset);
      match entry
      case Whole(kind, pos, size) =>
        return Ok(deltaChain + [Link(kind, Cut(pos), size)]);
      case Broken(e) =>
        return Err(e);
      case Delta(pos, size, below) =>
        ghost var c := ChainFrom(p, below, left - 1);
        if c.Ok? {
          assert deltaChain + ([Link(0, Cut(pos), size)] + c.value) == deltaChain + [Link(0, Cut(pos), size)] + c.value;
        }
        deltaChain, offset, left := deltaChain + [Link(0, Cut(pos), size)], below, left - 1;
    }
  }

  /** One header, with its byte loops. */
  method ReadEntry(p: Pack, offset: nat) returns (e: Entry)
    ensures e == EntryAt(p, offset)
  {
    var h := ReadHeader(Rest(p, offset));
    if h.None? {
      return Hang;
    }
    var rest := h.value.rest;
    if 1 <= h.value.kind <= 4 {
      return Whole(h.value.kind, PosOf(p, rest), Cut(h.value.length));
    } else if h.value.kind == 6 {
      var rel := ReadOffset(rest);
      return if rel.None? then Hang else Delta(PosOf(p, rel.value.rest), Cut(h.value.length), Back(offset, rel.value.num));
    } else if h.value.kind == 7 {
      if |rest| < 20 {
        return Broken(Truncated);
      }
      var base := p.find(rest[..20]);
      return if base.None? then Broken(NotFound) else Delta(PosOf(p, rest[20..]), Cut(h.value.length), base.value);
    } else {
      return Broken(BadKind);
    }
  }

  /** The second loop: links are popped from the base up. */
  method ResolveChain(p: Pack, chain: seq<Link>) returns (r: Result<Object, Error>)
    requires IsChain(chain)
    ensures r == Resolved(p, chain, 0)
  {
    var deltaChain, baseType: nat, result: Bytes := chain, 0, [];
    hide Inflated;
    while deltaChain != []
      invariant deltaChain == chain[..|deltaChain|]
      invariant |deltaChain| < |chain| ==> Resolved(p, chain, |deltaChain|) == Ok(Object(baseType, result))
      invariant |deltaChain| <= |chain|
      decreases |deltaChain|
    {
      var i := |deltaChain| - 1;
      var link := deltaChain[i];
      assert chain[..i + 1][..i] == chain[..i];
      deltaChain := deltaChain[..i];
      var decompressed := Inflated(p, link.pos, link.size);
      if decompressed.Err? {
        ErrorsRise(p, chain, i, decompressed.error);
        return Err(decompressed.error);
      }
      if link.kind == 0 {
        var patched := Patch(result, decompressed.value);
        if patched.Err? {
          ErrorsRise(p, chain, i, patched.error);
          return Err(patched.error);
        }
        result := patched.value;
      } else {
        baseType, result := link.kind, decompressed.value;
      }
    }
    r := Ok(Object(baseType, result));
  }

  lemma {:induction false} ErrorsRise(p: Pack, c: seq<Link>, i: nat, e: Error)
    requires IsChain(c) && i < |c| && Resolved(p, c, i) == Err(e)
    ensures Resolved(p, c, 0) == Err(e)
    decreases i
  {
    if i > 0 {
      ErrorsRise(p, c, i - 1, e);
    }
  }

  /** Extraction returns the meaning of the object, whenever its chain ends; positions are cut to 32
      bits, which matters only in packs of 4 GiB and more. */
  method Extract(p: Pack, offset: nat, ghost n: nat) returns (r: Result<Object, Error>)
    requires Ends(p, offset, n)
    ensures r == Meaning(p, offset, n, true)
    ensures |p.file| < TWO32 ==> r == Meaning(p, offset, n, false)
  {
    if |p.file| < TWO32 {
      SmallPackIsRead(p, offset, n);
    }
    ChainMeans(p, offset, n);
    var chain := BuildChain(p, offset, n);
    if chain.Err? {
      return Err(chain.error);
    }
    r := ResolveChain(p, chain.value);
  }
}
