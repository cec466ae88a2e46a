/** A pack as git writes it, and what extraction makes of its objects. */
module GitPackObjects {
  import opened Wrappers
  import opened GitPackCodes
  import opened GitPackDelta
  import opened GitPackChain
  import opened Seqs

  // ----- single entries -----

  /** An undeltified object is read from just after its header, with its own kind and size. */
  lemma WholeEntryReads(p: Pack, off: nat, kind: nat, size: nat, tail: Bytes)
    requires off <= |p.file| && 1 <= kind <= 4 && p.file[off..] == HeaderCode(kind, size) + tail
    ensures EntryAt(p, off) == if size < TWO32 then Whole(kind, |p.file| - |tail|, size) else Hang
  {
    hide HeaderFrom;
    hide HeaderCode;
    HeaderRoundTripIff(kind, size, tail);
  }

  /** A delta on a named object is read from just after the 20 bytes of the name. */
  lemma NameEntryReads(p: Pack, off: nat, size: nat, name: Bytes, tail: Bytes)
    requires off <= |p.file| && |name| == 20 && p.file[off..] == HeaderCode(7, size) + (name + tail)
    ensures EntryAt(p, off) == if size >= TWO32 then Hang
                               else if p.find(name).None? then Broken(NotFound)
                               else Delta(|p.file| - |tail|, size, p.find(name).value)
  {
    hide HeaderFrom;
    hide HeaderCode;
    HeaderRoundTripIff(7, size, name + tail);
    assert (name + tail)[..20] == name && (name + tail)[20..] == tail;
  }

  /** The one kind that git does not use is refused. */
  lemma BadEntryReads(p: Pack, off: nat, size: nat, tail: Bytes)
    requires off <= |p.file| && size < TWO32 && p.file[off..] == HeaderCode(5, size) + tail
    ensures EntryAt(p, off) == Broken(BadKind)
  {
    hide HeaderFrom;
    hide HeaderCode;
    HeaderRoundTripIff(5, size, tail);
  }

  /** Data that does not inflate to the size in its header is refused. */
  lemma SizeIsChecked(p: Pack, off: nat, kind: nat, size: nat, tail: Bytes, narrow: bool)
    requires off <= |p.file| < TWO32 && 1 <= kind <= 4 && size < TWO32 && p.file[off..] == HeaderCode(kind, size) + tail
    ensures Ends(p, off, 1)
    ensures var data := p.inflate(|p.file| - |tail|);
            Meaning(p, off, 1, narrow) == if data.None? then Err(Inflate)
                                          else if |data.value| != size then Err(LinkSize)
                                          else Ok(Object(kind, data.value))
  {
    hide HeaderCode;
    WholeEntryReads(p, off, kind, size, tail);
    hide EntryAt;
  }

  // ----- whole packs -----

  /** How an object is stored: as it is, or as changes to the object some bytes before or of some name. */
  datatype Item =
    | Plain(kind: nat, data: Bytes)
    | OnOffset(back: nat, ins: seq<Instr>)
    | OnName(name: Bytes, ins: seq<Instr>)

  /** The offset of the object that a delta changes. */
  function BaseOf(p: Pack, off: nat, i: Item): (b: int)
    requires !i.Plain?
  {
    match i
    case OnOffset(back, _) => off - back
    case OnName(name, _) => if p.find(name).Some? then p.find(name).value else -1
  }

  /** Deltas lead to other items, and not in circles: the rank goes down. */
  ghost predicate Grounded(p: Pack, items: map<nat, Item>, rank: nat -> nat) {
    forall off :: off in items ==> Leads(p, items, rank, off, items[off])
  }

  predicate Leads(p: Pack, items: map<nat, Item>, rank: nat -> nat, off: nat, i: Item) {
    if i.Plain? then 1 <= i.kind <= 4
    else
      var b := BaseOf(p, off, i);
      0 <= b && b in items && rank(b) < rank(off) && (i.OnName? ==> |i.name| == 20)
  }

  predicate AllSensible(base: Bytes, ins: seq<Instr>) {
    forall k :: 0 <= k < |ins| ==> Sensible(base, ins[k])
  }

  /** The object that an item stands for. */
  ghost function Value(p: Pack, items: map<nat, Item>, rank: nat -> nat, off: nat): (o: Object)
    requires Grounded(p, items, rank) && off in items
    decreases rank(off)
  {
    var i := items[off];
    assert Leads(p, items, rank, off, i);
    if i.Plain? then Object(i.kind, i.data)
    else
      var base := Value(p, items, rank, BaseOf(p, off, i));
      Object(base.kind, if AllSensible(base.data, i.ins) then DeltaMeaning(base.data, i.ins) else [])
  }

  /** What is compressed for an item: its data, or the delta for its base. */
  ghost function Payload(p: Pack, items: map<nat, Item>, rank: nat -> nat, off: nat): (s: Bytes)
    requires Grounded(p, items, rank) && off in items
  {
    var i := items[off];
    assert Leads(p, items, rank, off, i);
    if i.Plain? then i.data
    else
      var base := Value(p, items, rank, BaseOf(p, off, i));
      if AllSensible(base.data, i.ins) then DeltaFor(base.data, i.ins) else []
  }

  function ItemHeader(i: Item, size: nat): (s: Bytes)
    requires i.Plain? ==> 1 <= i.kind <= 4
  {
    match i
    case Plain(kind, _) => HeaderCode(kind, size)
    case OnOffset(back, _) => HeaderCode(6, size) + Code(back)
    case OnName(name, _) => HeaderCode(7, size) + name
  }

  /** The item stands at its offset: header, and then what inflates to its payload. */
  ghost predicate StandsAt(p: Pack, off: nat, i: Item, payload: Bytes, tail: Bytes)
    requires i.Plain? ==> 1 <= i.kind <= 4
  {
    && off <= |p.file| && |payload| < TWO32 && p.file[off..] == ItemHeader(i, |payload|) + tail
    && |tail| <= |p.file| && p.inflate(|p.file| - |tail|) == Some(payload)
  }

  /** The delta can be applied: copies lie in the base, and 32-bit sizes hold it. */
  ghost predicate Applies(base: Bytes, ins: seq<Instr>) {
    AllSensible(base, ins) && |base| < TWO31 && |DeltaMeaning(base, ins)| < TWO32
  }

  /** Every item is written at its offset. */
  ghost predicate Written(p: Pack, items: map<nat, Item>, rank: nat -> nat)
    requires Grounded(p, items, rank)
  {
    forall off :: off in items ==> IsWritten(p, items, rank, off)
  }

  ghost predicate IsWritten(p: Pack, items: map<nat, Item>, rank: nat -> nat, off: nat)
    requires Grounded(p, items, rank) && off in items
  {
    var i := items[off];
    assert Leads(p, items, rank, off, i);
    && (exists tail :: StandsAt(p, off, i, Payload(p, items, rank, off), tail))
    && (!i.Plain? ==> Applies(Value(p, items, rank, BaseOf(p, off, i)).data, i.ins))
  }

  lemma ItemReads(p: Pack, items: map<nat, Item>, rank: nat -> nat, off: nat) returns (pos: nat)
    requires |p.file| < TWO64 && Grounded(p, items, rank) && off in items && IsWritten(p, items, rank, off)
    ensures p.inflate(pos) == Some(Payload(p, items, rank, off)) && Leads(p, items, rank, off, items[off])
    ensures var i, n := items[off], |Payload(p, items, rank, off)|;
            EntryAt(p, off) == if i.Plain? then Whole(i.kind, pos, n) else Delta(pos, n, BaseOf(p, off, i))
  {
    hide EntryAt;
    hide HeaderCode;
    hide Code;
    var i, s := items[off], Payload(p, items, rank, off);
    assert Leads(p, items, rank, off, i);
    var tail :| StandsAt(p, off, i, s, tail);
    hide Payload;
    pos := |p.file| - |tail|;
    match i
    case Plain(kind, _) => WholeEntryReads(p, off, kind, |s|, tail);
    case OnOffset(back, _) =>
      Assoc(HeaderCode(6, |s|), Code(back), tail);
      OffsetEntryReads(p, off, |s|, back, tail);
    case OnName(name, _) =>
      Assoc(HeaderCode(7, |s|), name, tail);
      NameEntryReads(p, off, |s|, name, tail);
  }

  /** Every object of a written pack ends in a whole object and means what its item stands for, however
      its deltas are chained. */
  lemma {:induction false} PackMeans(p: Pack, items: map<nat, Item>, rank: nat -> nat, off: nat)
    requires |p.file| < TWO64 && Grounded(p, items, rank) && Written(p, items, rank) && off in items
    ensures Ends(p, off, rank(off) + 1)
    ensures Meaning(p, off, rank(off) + 1, false) == Ok(Value(p, items, rank, off))
    decreases rank(off)
  {
    hide EntryAt;
    assert IsWritten(p, items, rank, off);
    var pos := ItemReads(p, items, rank, off);
    var i := items[off];
    if !i.Plain? {
      var b := BaseOf(p, off, i);
      PackMeans(p, items, rank, b);
      MeaningIsUnique(p, b, rank(b) + 1, rank(off), false);
      DeltaRoundTripIff(Value(p, items, rank, b).data, i.ins);
    }
  }

  /** Extraction from a written pack of less than 4 GiB gives back every object. */
  method ExtractWritten(p: Pack, ghost items: map<nat, Item>, ghost rank: nat -> nat, offset: nat)
    returns (r: Result<Object, Error>)
    requires |p.file| < TWO32 && Grounded(p, items, rank) && Written(p, items, rank) && offset in items
    ensures r == Ok(Value(p, items, rank, offset))
  {
    PackMeans(p, items, rank, offset);
    r := Extract(p, offset, rank(offset) + 1);
  }
}
