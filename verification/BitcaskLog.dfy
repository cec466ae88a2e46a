/** The record format of the Bitcask log, and replay of a log that may be cut anywhere. */
module BitcaskLog {
  import opened Seqs

  type Bytes = seq<int>

  const TWO32 := 0x1_0000_0000
  const TSTAMP_MAX := TWO32 - 1
  const LOG_SIZE := 2000000000

  /** The checksum, as an arbitrary function to 32-bit values. */
  datatype Disk = Disk(crc: Bytes -> int)

  datatype Entry = Entry(tstamp: int, key: Bytes, val: Bytes)

  /** Sizes that the 32-bit fields can hold together with an offset in a log. */
  predicate Fits(e: Entry) {
    0 <= e.tstamp < TWO32 && LOG_SIZE + 16 + |e.key| + |e.val| < TWO32
  }

  function Le4(x: int): (s: Bytes)
    ensures |s| == 4
  {
    [x % 256, x / 256 % 256, x / 65536 % 256, x / 16777216 % 256]
  }

  function U32(s: Bytes, at: nat): (x: int)
    requires at + 4 <= |s|
  {
    s[at] + 256 * s[at + 1] + 65536 * s[at + 2] + 16777216 * s[at + 3]
  }

  /** The low byte comes first, whatever the machine. */
  lemma LowByteFirst(x: int, y: int)
    requires 0 <= x < 256 && 0 <= y < 256
    ensures Le4(x + 256 * y) == [x, y, 0, 0]
  {
    assert (x + 256 * y) / 256 == y;
  }

  lemma Le4Inverse(x: int)
    requires 0 <= x < TWO32
    ensures U32(Le4(x), 0) == x
  {
    var a := x / 256;
    var b := a / 256;
    var c := b / 256;
    assert x == 256 * a + x % 256 && a == 256 * b + a % 256 && b == 256 * c + b % 256;
    assert x / 65536 == b && x / 16777216 == c;
    assert c % 256 == c;
  }

  function Checksum(d: Disk, t: Bytes, ksz: Bytes, vsz: Bytes, key: Bytes, val: Bytes): (c: int) {
    d.crc(t + ksz + vsz + key + val) % TWO32
  }

  function Header(d: Disk, e: Entry): (s: Bytes)
    ensures |s| == 16
  {
    var t, k, v := Le4(e.tstamp), Le4(|e.key|), Le4(|e.val|);
    Le4(Checksum(d, t, k, v, e.key, e.val)) + t + k + v
  }

  /** The bytes that `write` appends. */
  function Encode(d: Disk, e: Entry): (s: Bytes)
    ensures |s| == 16 + |e.key| + |e.val|
  {
    Header(d, e) + e.key + e.val
  }

  function EncodeAll(d: Disk, es: seq<Entry>): (s: Bytes) {
    if es == [] then [] else EncodeAll(d, es[..|es| - 1]) + Encode(d, es[|es| - 1])
  }

  // ----- reading one record -----

  /** Eof: the stream hit its end inside the record; Corrupt: the checksum is wrong. */
  datatype Read = Eof | Corrupt | Got(entry: Entry, vstart: nat, next: nat)

  function ReadAt(d: Disk, file: Bytes, pos: nat): (r: Read)
    ensures r.Got? ==> pos + 16 <= r.next <= |file|
  {
    if pos + 16 > |file| then Eof
    else
      var tstamp, ksz, vsz := U32(file, pos + 4), U32(file, pos + 8), U32(file, pos + 12);
      if ksz < 0 || vsz < 0 || pos + 16 + ksz > |file| then Eof
      else
        var vstart := pos + 16 + ksz;
        if vsz > 0 && vstart + vsz > |file| then Eof
        else
          var key, val := file[pos + 16..vstart], file[vstart..vstart + vsz];
          if Checksum(d, file[pos + 4..pos + 8], file[pos + 8..pos + 12], file[pos + 12..pos + 16], key, val) == U32(file, pos)
          then Got(Entry(tstamp, key, val), vstart, vstart + vsz)
          else Corrupt
  }

  /** Where the record at pos would end, by the sizes in its header. */
  function RecordEnd(file: Bytes, pos: nat): (end: int)
    requires pos + 16 <= |file|
  {
    pos + 16 + U32(file, pos + 8) + U32(file, pos + 12)
  }

  /** A whole record is there. */
  predicate RecordThere(file: Bytes, pos: nat) {
    pos + 16 <= |file| && U32(file, pos + 8) >= 0 && U32(file, pos + 12) >= 0 && RecordEnd(file, pos) <= |file|
  }

  /** On arbitrary bytes: end of file exactly if no whole record is there; a record exactly if the number
      in front is the checksum of everything after it, timestamp, sizes, key and value. */
  lemma AcceptedIff(d: Disk, file: Bytes, pos: nat)
    ensures ReadAt(d, file, pos).Eof? <==> !RecordThere(file, pos)
    ensures ReadAt(d, file, pos).Got? <==>
              RecordThere(file, pos) && U32(file, pos) == d.crc(file[pos + 4..RecordEnd(file, pos)]) % TWO32
  {
    if RecordThere(file, pos) {
      var vstart, end := pos + 16 + U32(file, pos + 8), RecordEnd(file, pos);
      FivePieces(file, pos + 4, pos + 8, pos + 12, pos + 16, vstart, end);
    }
  }

  lemma FivePieces(s: Bytes, a: nat, b: nat, c: nat, d: nat, e: nat, f: nat)
    requires a <= b <= c <= d <= e <= f <= |s|
    ensures s[a..b] + s[b..c] + s[c..d] + s[d..e] + s[e..f] == s[a..f]
  {
  }

  lemma U32Slice(file: Bytes, at: nat, s: Bytes)
    requires at + 4 <= |file| && |s| == 4 && file[at..at + 4] == s
    ensures U32(file, at) == U32(s, 0)
  {
    assert file[at] == s[0] && file[at + 1] == s[1] && file[at + 2] == s[2] && file[at + 3] == s[3];
  }

  lemma FourFields(a: Bytes, b: Bytes, c: Bytes, d: Bytes)
    requires |a| == |b| == |c| == |d| == 4
    ensures var h := a + b + c + d;
            h[0..4] == a && h[4..8] == b && h[8..12] == c && h[12..16] == d
  {
  }

  /** Where the four header fields sit. */
  lemma HeaderFields(d: Disk, e: Entry, file: Bytes, pos: nat)
    requires Fits(e) && pos + 16 <= |file| && file[pos..pos + 16] == Header(d, e)
    ensures file[pos + 4..pos + 8] == Le4(e.tstamp) && U32(file, pos + 4) == e.tstamp
    ensures file[pos + 8..pos + 12] == Le4(|e.key|) && U32(file, pos + 8) == |e.key|
    ensures file[pos + 12..pos + 16] == Le4(|e.val|) && U32(file, pos + 12) == |e.val|
    ensures U32(file, pos) == Checksum(d, Le4(e.tstamp), Le4(|e.key|), Le4(|e.val|), e.key, e.val)
  {
    var h := Header(d, e);
    var c := Checksum(d, Le4(e.tstamp), Le4(|e.key|), Le4(|e.val|), e.key, e.val);
    FourFields(Le4(c), Le4(e.tstamp), Le4(|e.key|), Le4(|e.val|));
    hide Le4;
    hide U32;
    hide Header;
    SubSlice(file, pos, 16, 0, 4);
    SubSlice(file, pos, 16, 4, 8);
    SubSlice(file, pos, 16, 8, 12);
    SubSlice(file, pos, 16, 12, 16);
    U32Slice(file, pos, Le4(c));
    U32Slice(file, pos + 4, Le4(e.tstamp));
    U32Slice(file, pos + 8, Le4(|e.key|));
    U32Slice(file, pos + 12, Le4(|e.val|));
    Le4Inverse(c);
    Le4Inverse(e.tstamp);
    Le4Inverse(|e.key|);
    Le4Inverse(|e.val|);
  }

  /** Where the parts of a record sit. */
  lemma RecordParts(d: Disk, e: Entry, file: Bytes, pos: nat)
    requires pos + |Encode(d, e)| <= |file| && file[pos..pos + |Encode(d, e)|] == Encode(d, e)
    ensures var vstart := pos + 16 + |e.key|;
            && file[pos..pos + 16] == Header(d, e)
            && file[pos + 16..vstart] == e.key
            && file[vstart..vstart + |e.val|] == e.val
  {
    hide Header;
    var s, n := Encode(d, e), |e.key|;
    SubSlice(file, pos, |s|, 0, 16);
    SubSlice(file, pos, |s|, 16, 16 + n);
    SubSlice(file, pos, |s|, 16 + n, |s|);
    assert s[0..16] == Header(d, e) && s[16..16 + n] == e.key && s[16 + n..|s|] == e.val;
  }

  /** A record written whole is read back, with the offset of its value. */
  lemma ReadBack(d: Disk, e: Entry, file: Bytes, pos: nat)
    requires Fits(e) && pos + |Encode(d, e)| <= |file| && file[pos..pos + |Encode(d, e)|] == Encode(d, e)
    ensures ReadAt(d, file, pos) == Got(e, pos + 16 + |e.key|, pos + |Encode(d, e)|)
  {
    RecordParts(d, e, file, pos);
    hide Header;
    hide Encode;
    HeaderFields(d, e, file, pos);
    hide Checksum;
    hide Le4;
    hide U32;
  }

  /** A record cut short is read as end of file, never as a record or as corrupt. */
  lemma ReadTorn(d: Disk, e: Entry, file: Bytes, pos: nat)
    requires Fits(e) && pos <= |file| < pos + |Encode(d, e)| && file[pos..] == Encode(d, e)[..|file| - pos]
    ensures ReadAt(d, file, pos) == Eof
  {
    if pos + 16 <= |file| {
      var s := Encode(d, e);
      assert file[pos..pos + 16] == file[pos..][..16] == s[..16] == Header(d, e);
      HeaderFields(d, e, file, pos);
    }
  }

  // ----- replay -----

  datatype Slot = Slot(id: nat, vsize: nat, vpos: nat, tstamp: int)

  type KeyDir = map<Bytes, Slot>

  predicate Tombstone(e: Entry) {
    e.tstamp == TSTAMP_MAX && e.val == []
  }

  /** What a record read at replay does to the directory. */
  function Apply(kd: KeyDir, e: Entry, id: nat, vstart: nat): (r: KeyDir) {
    if Tombstone(e) then kd - {e.key}
    else if e.key !in kd || kd[e.key].tstamp < e.tstamp then kd[e.key := Slot(id, |e.val|, vstart, e.tstamp)]
    else kd
  }

  datatype Loaded = Loaded(kd: KeyDir, ok: bool)

  /** Replay of a file from pos on. */
  function LoadFrom(d: Disk, file: Bytes, id: nat, pos: nat, kd: KeyDir): (r: Loaded)
    decreases |file| - pos
  {
    match ReadAt(d, file, pos)
    case Eof => Loaded(kd, true)
    case Corrupt => Loaded(kd, false)
    case Got(e, vstart, next) => LoadFrom(d, file, id, next, Apply(kd, e, id, vstart))
  }

  /** The loop of loadFromFile. */
  method LoadFile(d: Disk, file: Bytes, id: nat, kd: KeyDir) returns (r: KeyDir, ok: bool)
    ensures Loaded(r, ok) == LoadFrom(d, file, id, 0, kd)
  {
    r := kd;
    var pos := 0;
    while true
      invariant 0 <= pos <= |file| && LoadFrom(d, file, id, pos, r) == LoadFrom(d, file, id, 0, kd)
      decreases |file| - pos
    {
      var newEntry := ReadAt(d, file, pos);
      if newEntry.Eof? {
        return r, true;
      } else if newEntry.Corrupt? {
        return r, false;
      } else if Tombstone(newEntry.entry) {
        r := r - {newEntry.entry.key};
      } else if newEntry.entry.key !in r || r[newEntry.entry.key].tstamp < newEntry.entry.tstamp {
        r := r[newEntry.entry.key := Slot(id, |newEntry.entry.val|, newEntry.vstart, newEntry.entry.tstamp)];
      }
      pos := newEntry.next;
    }
  }

  /** Replay of records known as records, starting at a byte offset. */
  function ApplyAll(d: Disk, es: seq<Entry>, id: nat, kd: KeyDir): (r: KeyDir) {
    if es == [] then kd
    else
      var n := |es| - 1;
      Apply(ApplyAll(d, es[..n], id, kd), es[n], id, |EncodeAll(d, es[..n])| + 16 + |es[n].key|)
  }

  predicate AllFit(es: seq<Entry>) {
    forall i :: 0 <= i < |es| ==> Fits(es[i])
  }

  lemma {:induction false} EncodeAllAppend(d: Disk, a: seq<Entry>, b: seq<Entry>)
    ensures EncodeAll(d, a + b) == EncodeAll(d, a) + EncodeAll(d, b)
    decreases |b|
  {
    if b == [] {
      assert a + b == a;
    } else {
      var n := |b| - 1;
      assert (a + b)[..|a| + n] == a + b[..n];
      EncodeAllAppend(d, a, b[..n]);
    }
  }

  /** The bytes of record n sit after those of the records before it. */
  lemma EncodeAllAt(d: Disk, es: seq<Entry>, n: nat)
    requires n < |es|
    ensures var at, s := |EncodeAll(d, es[..n])|, Encode(d, es[n]);
            at + |s| <= |EncodeAll(d, es)| && EncodeAll(d, es)[at..at + |s|] == s && |EncodeAll(d, es[..n + 1])| == at + |s|
  {
    assert es[..n + 1] == es[..n] + [es[n]] && es == es[..n + 1] + es[n + 1..];
    EncodeAllAppend(d, es[..n + 1], es[n + 1..]);
    assert es[..n + 1][..n] == es[..n];
  }

  /** Replaying a file that was cut at byte c gives the directory of the records that fit whole. */
  lemma {:induction false} LoadPrefix(d: Disk, es: seq<Entry>, id: nat, kd: KeyDir, c: nat, n: nat) returns (m: nat)
    requires AllFit(es) && c <= |EncodeAll(d, es)| && n <= |es| && |EncodeAll(d, es[..n])| <= c
    ensures n <= m <= |es| && |EncodeAll(d, es[..m])| <= c && (m < |es| ==> c < |EncodeAll(d, es[..m + 1])|)
    ensures LoadFrom(d, EncodeAll(d, es)[..c], id, |EncodeAll(d, es[..n])|, ApplyAll(d, es[..n], id, kd))
         == Loaded(ApplyAll(d, es[..m], id, kd), true)
    decreases |es| - n
  {
    hide LoadFrom;
    hide EncodeAll;
    hide ApplyAll;
    m := n;
    if n == |es| {
      assert es[..n] == es;
      LoadAtEnd(d, es, id, kd, c);
    } else {
      EncodeAllAt(d, es, n);
      if |EncodeAll(d, es[..n + 1])| <= c {
        LoadStep(d, es, id, kd, c, n);
        m := LoadPrefix(d, es, id, kd, c, n + 1);
      } else {
        LoadTorn(d, es, id, kd, c, n);
      }
    }
  }

  lemma LoadAtEnd(d: Disk, es: seq<Entry>, id: nat, kd: KeyDir, c: nat)
    requires c == |EncodeAll(d, es)|
    ensures es[..|es|] == es && LoadFrom(d, EncodeAll(d, es)[..c], id, c, ApplyAll(d, es, id, kd)) == Loaded(ApplyAll(d, es, id, kd), true)
  {
    hide EncodeAll;
    hide ApplyAll;
  }

  lemma LoadStep(d: Disk, es: seq<Entry>, id: nat, kd: KeyDir, c: nat, n: nat)
    requires AllFit(es) && c <= |EncodeAll(d, es)| && n < |es| && |EncodeAll(d, es[..n + 1])| <= c
    ensures LoadFrom(d, EncodeAll(d, es)[..c], id, |EncodeAll(d, es[..n])|, ApplyAll(d, es[..n], id, kd))
         == LoadFrom(d, EncodeAll(d, es)[..c], id, |EncodeAll(d, es[..n + 1])|, ApplyAll(d, es[..n + 1], id, kd))
  {
    hide EncodeAll;
    hide Encode;
    hide ApplyAll;
    hide Apply;
    hide ReadAt;
    hide LoadFrom;
    var all, s := EncodeAll(d, es), Encode(d, es[n]);
    var file, at := all[..c], |EncodeAll(d, es[..n])|;
    EncodeAllAt(d, es, n);
    assert file[at..at + |s|] == all[at..at + |s|];
    ReadBack(d, es[n], file, at);
    LoadUnfold(d, file, id, at, ApplyAll(d, es[..n], id, kd));
    ApplyAllSnoc(d, es, id, kd, n);
  }

  lemma LoadUnfold(d: Disk, file: Bytes, id: nat, pos: nat, kd: KeyDir)
    ensures var r := ReadAt(d, file, pos);
            r.Got? ==> LoadFrom(d, file, id, pos, kd) == LoadFrom(d, file, id, r.next, Apply(kd, r.entry, id, r.vstart))
  {
  }

  lemma ApplyAllSnoc(d: Disk, es: seq<Entry>, id: nat, kd: KeyDir, n: nat)
    requires n < |es|
    ensures ApplyAll(d, es[..n + 1], id, kd)
         == Apply(ApplyAll(d, es[..n], id, kd), es[n], id, |EncodeAll(d, es[..n])| + 16 + |es[n].key|)
  {
    assert es[..n + 1][..n] == es[..n];
  }

  lemma LoadTorn(d: Disk, es: seq<Entry>, id: nat, kd: KeyDir, c: nat, n: nat)
    requires AllFit(es) && n < |es| && |EncodeAll(d, es[..n])| <= c < |EncodeAll(d, es[..n + 1])| && c <= |EncodeAll(d, es)|
    ensures LoadFrom(d, EncodeAll(d, es)[..c], id, |EncodeAll(d, es[..n])|, ApplyAll(d, es[..n], id, kd))
         == Loaded(ApplyAll(d, es[..n], id, kd), true)
  {
    var all, s := EncodeAll(d, es), Encode(d, es[n]);
    var file, at := all[..c], |EncodeAll(d, es[..n])|;
    EncodeAllAt(d, es, n);
    SubSlice(all, at, |s|, 0, c - at);
    assert file[at..] == all[at..c];
    ReadTorn(d, es[n], file, at);
  }

  /** An uncut file replays to all its records. */
  lemma LoadWhole(d: Disk, es: seq<Entry>, id: nat, kd: KeyDir)
    requires AllFit(es)
    ensures LoadFrom(d, EncodeAll(d, es), id, 0, kd) == Loaded(ApplyAll(d, es, id, kd), true)
  {
    var all := EncodeAll(d, es);
    assert es[..0] == [] && all[..|all|] == all;
    var m := LoadPrefix(d, es, id, kd, |all|, 0);
    if m < |es| {
      EncodeAllAt(d, es, m);
    }
    assert es[..|es|] == es;
  }

  // ----- writing on after a torn record -----

  /** A file that starts with whole records replays them first, whatever follows. */
  lemma {:induction false} LoadRecords(d: Disk, es: seq<Entry>, n: nat, file: Bytes, id: nat, kd: KeyDir)
    requires AllFit(es) && n <= |es| && |EncodeAll(d, es[..n])| <= |file|
    requires file[..|EncodeAll(d, es[..n])|] == EncodeAll(d, es[..n])
    ensures LoadFrom(d, file, id, 0, kd) == LoadFrom(d, file, id, |EncodeAll(d, es[..n])|, ApplyAll(d, es[..n], id, kd))
    decreases n
  {
    hide LoadFrom;
    hide ApplyAll;
    hide ReadAt;
    hide EncodeAll;
    hide Encode;
    if n == 0 {
      NothingApplied(d, es, id, kd);
    } else {
      RecordIsAt(d, es, n - 1, file);
      var at := |EncodeAll(d, es[..n - 1])|;
      LoadRecords(d, es, n - 1, file, id, kd);
      ReadBack(d, es[n - 1], file, at);
      LoadUnfold(d, file, id, at, ApplyAll(d, es[..n - 1], id, kd));
      ApplyAllSnoc(d, es, id, kd, n - 1);
    }
  }

  lemma NothingApplied(d: Disk, es: seq<Entry>, id: nat, kd: KeyDir)
    ensures es[..0] == [] && EncodeAll(d, []) == [] && ApplyAll(d, [], id, kd) == kd
  {
  }

  lemma RecordIsAt(d: Disk, es: seq<Entry>, n: nat, file: Bytes)
    requires n < |es| && |EncodeAll(d, es[..n + 1])| <= |file|
    requires file[..|EncodeAll(d, es[..n + 1])|] == EncodeAll(d, es[..n + 1])
    ensures var at, s := |EncodeAll(d, es[..n])|, Encode(d, es[n]);
            && |EncodeAll(d, es[..n + 1])| == at + |s|
            && file[..at] == EncodeAll(d, es[..n]) && file[at..at + |s|] == s
  {
    var a, s := EncodeAll(d, es[..n]), Encode(d, es[n]);
    assert es[..n + 1][..n] == es[..n];
    assert EncodeAll(d, es[..n + 1]) == a + s;
    hide EncodeAll;
    hide Encode;
    assert file[..|a|] == (a + s)[..|a|] == a;
    assert file[|a|..|a| + |s|] == (a + s)[|a|..] == s;
  }

  /** How many records fit whole below byte c. */
  lemma {:induction false} WholeRecords(d: Disk, es: seq<Entry>, c: nat, n: nat) returns (m: nat)
    requires c <= |EncodeAll(d, es)| && n <= |es| && |EncodeAll(d, es[..n])| <= c
    ensures n <= m <= |es| && |EncodeAll(d, es[..m])| <= c && (m < |es| ==> c < |EncodeAll(d, es[..m + 1])|)
    decreases |es| - n
  {
    hide EncodeAll;
    m := n;
    if n < |es| && |EncodeAll(d, es[..n + 1])| <= c {
      m := WholeRecords(d, es, c, n + 1);
    }
  }

  lemma PrefixOfLog(d: Disk, es: seq<Entry>, m: nat, c: nat)
    requires m <= |es| && |EncodeAll(d, es[..m])| <= c <= |EncodeAll(d, es)|
    ensures EncodeAll(d, es)[..c][..|EncodeAll(d, es[..m])|] == EncodeAll(d, es[..m])
  {
    hide EncodeAll;
    assert es == es[..m] + es[m..];
    EncodeAllAppend(d, es[..m], es[m..]);
    PrefixOfPrefix(EncodeAll(d, es[..m]), EncodeAll(d, es[m..]), c);
  }

  /** Reopening a log cut at byte c and appending to it. On a record boundary the next replay sees the
      whole records and everything appended; elsewhere the torn record swallows what follows, so that,
      unless the spliced bytes happen to pass for a record, everything appended is lost. */
  lemma TornThenAppended(d: Disk, es: seq<Entry>, more: seq<Entry>, id: nat, kd: KeyDir, c: nat) returns (m: nat)
    requires AllFit(es) && AllFit(more) && c <= |EncodeAll(d, es)|
    ensures m <= |es| && |EncodeAll(d, es[..m])| <= c && (m < |es| ==> c < |EncodeAll(d, es[..m + 1])|)
    ensures var file, at := EncodeAll(d, es)[..c] + EncodeAll(d, more), |EncodeAll(d, es[..m])|;
            && (c == at ==> LoadFrom(d, file, id, 0, kd) == Loaded(ApplyAll(d, es[..m] + more, id, kd), true))
            && (c > at && !ReadAt(d, file, at).Got? ==>
                  LoadFrom(d, file, id, 0, kd) == Loaded(ApplyAll(d, es[..m], id, kd), ReadAt(d, file, at).Eof?))
  {
    hide EncodeAll;
    hide ApplyAll;
    hide ReadAt;
    NothingApplied(d, es, id, kd);
    m := WholeRecords(d, es, c, 0);
    var whole := EncodeAll(d, es[..m]);
    var torn, tail := EncodeAll(d, es)[..c], EncodeAll(d, more);
    PrefixOfLog(d, es, m, c);
    if c == |whole| {
      assert torn == whole;
      EncodeAllAppend(d, es[..m], more);
      LoadWhole(d, es[..m] + more, id, kd);
    } else {
      assert (torn + tail)[..|whole|] == torn[..|whole|];
      LoadRecords(d, es, m, torn + tail, id, kd);
      LoadStops(d, torn + tail, id, |whole|, ApplyAll(d, es[..m], id, kd));
    }
  }

  lemma LoadStops(d: Disk, file: Bytes, id: nat, pos: nat, kd: KeyDir)
    ensures var r := ReadAt(d, file, pos);
            !r.Got? ==> LoadFrom(d, file, id, pos, kd) == Loaded(kd, r.Eof?)
  {
    hide ReadAt;
  }

  /** Past its header, the torn record is completed by the bytes appended: with too few of them it is
      still the end of the file, with enough it is a record only if the checksum takes the splice for
      the original. */
  lemma TornRecordIsSpliced(d: Disk, e: Entry, file: Bytes, at: nat)
    requires Fits(e) && at + 16 <= |file| && file[at..at + 16] == Header(d, e)
    ensures var kend, vend := at + 16 + |e.key|, at + |Encode(d, e)|;
            && (|file| < vend ==> ReadAt(d, file, at) == Eof)
            && (|file| >= vend ==>
                  var key, val := file[at + 16..kend], file[kend..vend];
                  var t, k, v := Le4(e.tstamp), Le4(|e.key|), Le4(|e.val|);
                  ReadAt(d, file, at) == if Checksum(d, t, k, v, key, val) == Checksum(d, t, k, v, e.key, e.val)
                                         then Got(Entry(e.tstamp, key, val), kend, vend) else Corrupt)
  {
    HeaderFields(d, e, file, at);
    hide Header;
    hide Checksum;
    hide Le4;
    hide U32;
  }
}
