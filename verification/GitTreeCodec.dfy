/** Tree objects as bytes: sorted leaves, written one after the other and read by a state machine. */
module GitTreeCodec {
  import opened Wrappers
  import opened Lexicographic
  import opened Seqs

  /** A leaf: six-digit mode, file name, 20 bytes of hash. */
  datatype Leaf = Leaf(mode: string, path: string, sha: string)

  const NUL: char := '\0'

  function EncodeLeaf(l: Leaf): (s: string) { l.mode + " " + l.path + [NUL] + l.sha }

  function EncodeLeaves(ls: seq<Leaf>): (s: string) {
    if ls == [] then [] else EncodeLeaf(ls[0]) + EncodeLeaves(ls[1..])
  }

  /** The separators do not occur in what they end. */
  predicate Separated(l: Leaf) {
    ' ' !in l.mode && NUL !in l.path && |l.sha| == 20
  }

  /** Leaves as this program writes them, with all digits of the mode. */
  predicate Writable(l: Leaf) { Separated(l) && |l.mode| != 5 }

  // ----- reading -----

  datatype Phase = Start | ModeDone | PathDone

  /** The variables of the reading loop. */
  datatype Reader = Reader(phase: Phase, acc: string, mode: string, path: string, leaves: seq<Leaf>)

  function SixDigits(mode: string): (m: string) {
    if |mode| == 5 then "0" + mode else mode
  }

  /** A leaf as it is read: git leaves out a leading zero of the mode. */
  function ReadAs(l: Leaf): (r: Leaf) { l.(mode := SixDigits(l.mode)) }

  function AllReadAs(ls: seq<Leaf>): (rs: seq<Leaf>) {
    if ls == [] then [] else [ReadAs(ls[0])] + AllReadAs(ls[1..])
  }

  /** The loop from position i on; leaves are only added when their hash is complete. */
  function DecodeFrom(raw: string, i: nat, r: Reader): (q: Option<seq<Leaf>>)
    decreases |raw| - i
  {
    if i >= |raw| then Some(r.leaves)
    else
      match r.phase
      case Start =>
        if raw[i] != ' ' then DecodeFrom(raw, i + 1, r.(acc := r.acc + [raw[i]]))
        else DecodeFrom(raw, i + 1, r.(phase := ModeDone, acc := [], mode := SixDigits(r.acc)))
      case ModeDone =>
        if raw[i] != NUL then DecodeFrom(raw, i + 1, r.(acc := r.acc + [raw[i]]))
        else DecodeFrom(raw, i + 1, r.(phase := PathDone, acc := [], path := r.acc))
      case PathDone =>
        if i + 20 > |raw| then None
        else DecodeFrom(raw, i + 20, Reader(Start, [], [], [], r.leaves + [Leaf(r.mode, r.path, raw[i..i + 20])]))
  }

  function Decode(raw: string): (r: Option<seq<Leaf>>) {
    DecodeFrom(raw, 0, Reader(Start, [], [], [], []))
  }

  method Deserialize(raw: string) returns (r: Option<seq<Leaf>>)
    ensures r == Decode(raw)
  {
    var acc: string, mode: string, path: string, phase, data: seq<Leaf>, i := [], [], [], Start, [], 0;
    while i < |raw|
      invariant 0 <= i && Decode(raw) == DecodeFrom(raw, i, Reader(phase, acc, mode, path, data))
    {
      var ch := raw[i];
      if (phase == Start && ch != ' ') || (phase == ModeDone && ch != NUL) {
        acc := acc + [ch];
      } else if phase == Start {
        mode, acc, phase := acc, [], ModeDone;
        if |mode| == 5 {
          mode := "0" + mode;
        }
      } else if phase == ModeDone {
        path, acc, phase := acc, [], PathDone;
      } else {
        if i + 20 > |raw| {
          return None;
        }
        acc, i := raw[i..i + 20], i + 19;
        data := data + [Leaf(mode, path, acc)];
        mode, path, acc, phase := [], [], [], Start;
      }
      i := i + 1;
    }
    r := Some(data);
  }

  // ----- reading back what was written -----

  lemma {:induction false} ReadsMode(raw: string, i: nat, m: string, r: Reader)
    requires i + |m| <= |raw| && raw[i..i + |m|] == m && ' ' !in m && r.phase == Start
    ensures DecodeFrom(raw, i, r) == DecodeFrom(raw, i + |m|, r.(acc := r.acc + m))
    decreases |m|
  {
    if m == [] {
      assert r.acc + m == r.acc;
    } else {
      assert raw[i] == raw[i..i + |m|][0] == m[0] && raw[i + 1..i + |m|] == raw[i..i + |m|][1..];
      ReadsMode(raw, i + 1, m[1..], r.(acc := r.acc + [m[0]]));
      assert r.acc + [m[0]] + m[1..] == r.acc + m;
    }
  }

  lemma {:induction false} ReadsPath(raw: string, i: nat, p: string, r: Reader)
    requires i + |p| <= |raw| && raw[i..i + |p|] == p && NUL !in p && r.phase == ModeDone
    ensures DecodeFrom(raw, i, r) == DecodeFrom(raw, i + |p|, r.(acc := r.acc + p))
    decreases |p|
  {
    if p == [] {
      assert r.acc + p == r.acc;
    } else {
      assert raw[i] == raw[i..i + |p|][0] == p[0] && raw[i + 1..i + |p|] == raw[i..i + |p|][1..];
      ReadsPath(raw, i + 1, p[1..], r.(acc := r.acc + [p[0]]));
      assert r.acc + [p[0]] + p[1..] == r.acc + p;
    }
  }

  lemma EncodedParts(l: Leaf)
    ensures var m, p, e := |l.mode|, |l.path|, EncodeLeaf(l);
            && |e| == m + p + 2 + |l.sha| && e[0..m] == l.mode && e[m] == ' '
            && e[m + 1..m + 1 + p] == l.path && e[m + 1 + p] == NUL && e[m + 2 + p..|e|] == l.sha
  {
  }

  /** Where the parts of a written leaf lie. */
  lemma LeafParts(raw: string, i: nat, l: Leaf)
    requires i + |EncodeLeaf(l)| <= |raw| && raw[i..i + |EncodeLeaf(l)|] == EncodeLeaf(l)
    ensures var m := i + |l.mode|;
            var p := m + 1 + |l.path|;
            && p + 1 + |l.sha| == i + |EncodeLeaf(l)|
            && raw[i..m] == l.mode
            && raw[m] == ' '
            && raw[m + 1..p] == l.path
            && raw[p] == NUL
            && raw[p + 1..p + 1 + |l.sha|] == l.sha
  {
    var m, p, e := |l.mode|, |l.path|, EncodeLeaf(l);
    EncodedParts(l);
    hide EncodeLeaf;
    SubSlice(raw, i, |e|, 0, m);
    SubSlice(raw, i, |e|, m + 1, m + 1 + p);
    SubSlice(raw, i, |e|, m + 2 + p, |e|);
    assert raw[i + m] == raw[i..i + |e|][m] == e[m];
    assert raw[i + m + 1 + p] == raw[i..i + |e|][m + 1 + p] == e[m + 1 + p];
  }

  lemma ReadsLeaf(raw: string, i: nat, l: Leaf, done: seq<Leaf>)
    requires Separated(l) && i + |EncodeLeaf(l)| <= |raw| && raw[i..i + |EncodeLeaf(l)|] == EncodeLeaf(l)
    ensures DecodeFrom(raw, i, Reader(Start, [], [], [], done))
         == DecodeFrom(raw, i + |EncodeLeaf(l)|, Reader(Start, [], [], [], done + [ReadAs(l)]))
  {
    hide EncodeLeaf;
    hide DecodeFrom;
    LeafParts(raw, i, l);
    var m := i + |l.mode|;
    var p := m + 1 + |l.path|;
    ReadsModeFresh(raw, i, l.mode, done);
    EndsMode(raw, m, l.mode, done);
    ReadsPathFresh(raw, m + 1, l.mode, l.path, done);
    EndsPath(raw, p, l.mode, l.path, done);
    ReadsHash(raw, p + 1, l, done);
  }

  lemma ReadsModeFresh(raw: string, i: nat, m: string, done: seq<Leaf>)
    requires ' ' !in m && i + |m| <= |raw| && raw[i..i + |m|] == m
    ensures DecodeFrom(raw, i, Reader(Start, [], [], [], done)) == DecodeFrom(raw, i + |m|, Reader(Start, m, [], [], done))
  {
    hide DecodeFrom;
    assert [] + m == m;
    ReadsMode(raw, i, m, Reader(Start, [], [], [], done));
  }

  lemma EndsMode(raw: string, i: nat, m: string, done: seq<Leaf>)
    requires i < |raw| && raw[i] == ' '
    ensures DecodeFrom(raw, i, Reader(Start, m, [], [], done)) == DecodeFrom(raw, i + 1, Reader(ModeDone, [], SixDigits(m), [], done))
  {
  }

  lemma ReadsPathFresh(raw: string, i: nat, m: string, p: string, done: seq<Leaf>)
    requires NUL !in p && i + |p| <= |raw| && raw[i..i + |p|] == p
    ensures DecodeFrom(raw, i, Reader(ModeDone, [], SixDigits(m), [], done))
         == DecodeFrom(raw, i + |p|, Reader(ModeDone, p, SixDigits(m), [], done))
  {
    hide DecodeFrom;
    assert [] + p == p;
    ReadsPath(raw, i, p, Reader(ModeDone, [], SixDigits(m), [], done));
  }

  lemma EndsPath(raw: string, i: nat, m: string, p: string, done: seq<Leaf>)
    requires i < |raw| && raw[i] == NUL
    ensures DecodeFrom(raw, i, Reader(ModeDone, p, SixDigits(m), [], done))
         == DecodeFrom(raw, i + 1, Reader(PathDone, [], SixDigits(m), p, done))
  {
  }

  lemma ReadsHash(raw: string, i: nat, l: Leaf, done: seq<Leaf>)
    requires i + 20 <= |raw| && raw[i..i + 20] == l.sha
    ensures DecodeFrom(raw, i, Reader(PathDone, [], SixDigits(l.mode), l.path, done))
         == DecodeFrom(raw, i + 20, Reader(Start, [], [], [], done + [ReadAs(l)]))
  {
  }

  lemma SplitTail(raw: string, i: nat, e: string, t: string)
    requires i <= |raw| && raw[i..] == e + t
    ensures i + |e| <= |raw| && raw[i..i + |e|] == e && raw[i + |e|..] == t
  {
    assert raw[i..i + |e|] == raw[i..][..|e|] == e && raw[i + |e|..] == raw[i..][|e|..] == t;
  }

  // ----- what may stand in a tree object -----

  /** What follows the whole leaves: a mode without its space, a path without its zero byte, or a leaf
      with less than a whole hash. */
  datatype Rest = InMode(mode: string) | InPath(mode: string, path: string) | InHash(mode: string, path: string, part: string)

  predicate IsRest(t: Rest) {
    match t
    case InMode(m) => ' ' !in m
    case InPath(m, p) => ' ' !in m && NUL !in p
    case InHash(m, p, h) => ' ' !in m && NUL !in p && |h| < 20
  }

  function RestText(t: Rest): (s: string) {
    match t
    case InMode(m) => m
    case InPath(m, p) => m + (" " + p)
    case InHash(m, p, h) => m + (" " + (p + ([NUL] + h)))
  }

  /** Part of a hash is an error; less than that is silently dropped. */
  function Decoded(ls: seq<Leaf>, t: Rest): (r: Option<seq<Leaf>>) {
    if t.InHash? && t.part != [] then None else Some(AllReadAs(ls))
  }

  predicate IsTree(raw: string, ls: seq<Leaf>, t: Rest) {
    (forall k :: 0 <= k < |ls| ==> Separated(ls[k])) && IsRest(t) && raw == EncodeLeaves(ls) + RestText(t)
  }

  lemma ReadsRest(raw: string, i: nat, t: Rest, done: seq<Leaf>)
    requires IsRest(t) && i <= |raw| && raw[i..] == RestText(t)
    ensures DecodeFrom(raw, i, Reader(Start, [], [], [], done)) == if t.InHash? && t.part != [] then None else Some(done)
  {
    hide DecodeFrom;
    hide SixDigits;
    var m := t.mode;
    if t.InMode? {
      ReadsModeFresh(raw, i, m, done);
      AtTheEnd(raw, Reader(Start, m, [], [], done));
    } else if t.InPath? {
      assert t.path + "" == t.path;
      ReadsModeAndPath(raw, i, m, t.path, "", done);
      AtTheEnd(raw, Reader(ModeDone, t.path, SixDigits(m), [], done));
    } else {
      var e := i + |m| + 1 + |t.path|;
      ReadsModeAndPath(raw, i, m, t.path, [NUL] + t.part, done);
      assert raw[e] == raw[e..][0];
      EndsPath(raw, e, m, t.path, done);
      AtShortHash(raw, e + 1, Reader(PathDone, [], SixDigits(m), t.path, done));
    }
  }

  lemma ReadsModeAndPath(raw: string, i: nat, m: string, p: string, tail: string, done: seq<Leaf>)
    requires ' ' !in m && NUL !in p && i <= |raw| && raw[i..] == m + (" " + (p + tail))
    ensures var e := i + |m| + 1 + |p|;
            && e <= |raw| && raw[e..] == tail
            && DecodeFrom(raw, i, Reader(Start, [], [], [], done)) == DecodeFrom(raw, e, Reader(ModeDone, p, SixDigits(m), [], done))
  {
    hide DecodeFrom;
    hide SixDigits;
    SplitTail(raw, i, m, " " + (p + tail));
    SplitTail(raw, i + |m|, " ", p + tail);
    SplitTail(raw, i + |m| + 1, p, tail);
    ReadsModeFresh(raw, i, m, done);
    assert raw[i + |m|] == raw[i + |m|..i + |m| + 1][0];
    EndsMode(raw, i + |m|, m, done);
    ReadsPathFresh(raw, i + |m| + 1, m, p, done);
  }

  lemma AtTheEnd(raw: string, r: Reader)
    ensures DecodeFrom(raw, |raw|, r) == Some(r.leaves)
  {
  }

  lemma AtShortHash(raw: string, i: nat, r: Reader)
    requires i <= |raw| < i + 20 && r.phase == PathDone
    ensures DecodeFrom(raw, i, r) == if i < |raw| then None else Some(r.leaves)
  {
  }

  lemma {:induction false} ReadsLeaves(raw: string, i: nat, ls: seq<Leaf>, t: Rest, done: seq<Leaf>)
    requires (forall k :: 0 <= k < |ls| ==> Separated(ls[k])) && IsRest(t) && i <= |raw| && raw[i..] == EncodeLeaves(ls) + RestText(t)
    ensures DecodeFrom(raw, i, Reader(Start, [], [], [], done))
         == if t.InHash? && t.part != [] then None else Some(done + AllReadAs(ls))
    decreases |ls|
  {
    hide DecodeFrom;
    if ls == [] {
      assert EncodeLeaves(ls) + RestText(t) == RestText(t) && done + AllReadAs(ls) == done;
      ReadsRest(raw, i, t, done);
    } else {
      var e, s := EncodeLeaf(ls[0]), EncodeLeaves(ls[1..]);
      Assoc(e, s, RestText(t));
      hide EncodeLeaf;
      hide EncodeLeaves;
      SplitTail(raw, i, e, s + RestText(t));
      ReadsLeaf(raw, i, ls[0], done);
      ReadsLeaves(raw, i + |e|, ls[1..], t, done + [ReadAs(ls[0])]);
      Assoc(done, [ReadAs(ls[0])], AllReadAs(ls[1..]));
    }
  }

  lemma {:induction false} FirstOf(s: string, c: char) returns (a: string, more: string)
    ensures s == a + more && c !in a && (more == [] || more[0] == c)
    decreases |s|
  {
    if s == [] || s[0] == c {
      a, more := [], s;
    } else {
      a, more := FirstOf(s[1..], c);
      a := [s[0]] + a;
      assert s == [s[0]] + s[1..];
    }
  }

  lemma {:induction false} EveryTextIsATree(raw: string) returns (ls: seq<Leaf>, t: Rest)
    ensures IsTree(raw, ls, t)
    decreases |raw|
  {
    var m, r1 := FirstOf(raw, ' ');
    if r1 == [] {
      ls, t := [], InMode(m);
      assert EncodeLeaves([]) + m == m == raw;
    } else {
      assert r1 == " " + r1[1..];
      var p, r2 := FirstOf(r1[1..], NUL);
      if r2 == [] {
        ls, t := [], InPath(m, p);
        assert p + r2 == p;
        assert EncodeLeaves([]) + RestText(t) == RestText(t);
      } else {
        assert r2 == [NUL] + r2[1..];
        var h := r2[1..];
        if |h| < 20 {
          ls, t := [], InHash(m, p, h);
          assert EncodeLeaves([]) + RestText(t) == RestText(t);
        } else {
          var us, u := EveryTextIsATree(h[20..]);
          ls, t := [Leaf(m, p, h[..20])] + us, u;
          OneMoreLeaf(raw, m, p, h, us, u);
        }
      }
    }
  }

  lemma OneMoreLeaf(raw: string, m: string, p: string, h: string, us: seq<Leaf>, u: Rest)
    requires raw == m + (" " + (p + ([NUL] + h))) && |h| >= 20 && ' ' !in m && NUL !in p && IsTree(h[20..], us, u)
    ensures IsTree(raw, [Leaf(m, p, h[..20])] + us, u)
  {
    var l := Leaf(m, p, h[..20]);
    var rest := EncodeLeaves(us) + RestText(u);
    assert ([l] + us)[1..] == us;
    assert h == h[..20] + rest;
    hide RestText;
    assert EncodeLeaves([l] + us) == EncodeLeaf(l) + EncodeLeaves(us);
    Assoc(EncodeLeaf(l), EncodeLeaves(us), RestText(u));
    hide EncodeLeaves;
    assert raw == EncodeLeaf(l) + rest;
  }

  /** Reading a tree object, for all bytes: the leaves exactly if what follows the whole ones stops before
      the hash, and an error exactly if it stops inside it. */
  lemma DecodeIff(raw: string, rs: seq<Leaf>)
    ensures Decode(raw) == Some(rs) <==>
              exists ls, t :: IsTree(raw, ls, t) && !(t.InHash? && t.part != []) && rs == AllReadAs(ls)
    ensures Decode(raw) == None <==> exists ls, t :: IsTree(raw, ls, t) && t.InHash? && t.part != []
  {
    hide Decode;
    hide IsTree;
    var ls0, t0 := EveryTextIsATree(raw);
    forall ls, t | IsTree(raw, ls, t) ensures Decode(raw) == Decoded(ls, t) {
      TreeDecodes(raw, ls, t);
    }
  }

  lemma TreeDecodes(raw: string, ls: seq<Leaf>, t: Rest)
    requires IsTree(raw, ls, t)
    ensures Decode(raw) == Decoded(ls, t)
  {
    hide DecodeFrom;
    hide EncodeLeaves;
    hide RestText;
    WholeSlice(raw);
    ReadsLeaves(raw, 0, ls, t, []);
    assert [] + AllReadAs(ls) == AllReadAs(ls);
  }

  /** Reading undoes writing. */
  lemma TreeRoundTrip(ls: seq<Leaf>)
    requires forall k :: 0 <= k < |ls| ==> Writable(ls[k])
    ensures Decode(EncodeLeaves(ls)) == Some(ls)
  {
    var raw := EncodeLeaves(ls);
    assert raw == raw + RestText(InMode(""));
    hide EncodeLeaves;
    hide Decode;
    TreeDecodes(raw, ls, InMode(""));
    ReadAsWritten(ls);
  }

  lemma {:induction false} ReadAsWritten(ls: seq<Leaf>)
    requires forall k :: 0 <= k < |ls| ==> Writable(ls[k])
    ensures AllReadAs(ls) == ls
  {
    if ls != [] {
      ReadAsWritten(ls[1..]);
      assert ls == [ls[0]] + ls[1..];
    }
  }

  // ----- the order of leaves -----

  /** Everything but a regular file is compared as if its name ended in a slash. */
  function SortKey(l: Leaf): (k: string) {
    if |l.mode| >= 2 && l.mode[..2] == "10" then l.path else l.path + "/"
  }

  ghost predicate InOrder(ls: seq<Leaf>) {
    forall i, j :: 0 <= i < j < |ls| ==> Le(SortKey(ls[i]), SortKey(ls[j]))
  }

  function Insert(l: Leaf, ls: seq<Leaf>): (r: seq<Leaf>)
    ensures multiset(r) == multiset(ls) + multiset{l}
  {
    if ls == [] || Le(SortKey(l), SortKey(ls[0])) then [l] + ls
    else
      assert ls == [ls[0]] + ls[1..];
      [ls[0]] + Insert(l, ls[1..])
  }

  /** The leaves in the order in which they are written. */
  function Sort(ls: seq<Leaf>): (r: seq<Leaf>)
    ensures multiset(r) == multiset(ls)
  {
    if ls == [] then []
    else
      assert ls == [ls[0]] + ls[1..];
      Insert(ls[0], Sort(ls[1..]))
  }

  lemma {:induction false} InsertInOrder(l: Leaf, ls: seq<Leaf>)
    requires InOrder(ls)
    ensures InOrder(Insert(l, ls))
  {
    if ls == [] {
    } else if Le(SortKey(l), SortKey(ls[0])) {
      forall j | 0 <= j < |ls| ensures Le(SortKey(l), SortKey(ls[j])) {
        if j > 0 {
          LeTransitive(SortKey(l), SortKey(ls[0]), SortKey(ls[j]));
        }
      }
    } else {
      LeTotal(SortKey(l), SortKey(ls[0]));
      var r := Insert(l, ls[1..]);
      InsertInOrder(l, ls[1..]);
      forall j | 0 <= j < |r| ensures Le(SortKey(ls[0]), SortKey(r[j])) {
        assert r[j] in multiset(r);
        assert r[j] == l || r[j] in ls[1..];
      }
    }
  }

  lemma {:induction false} SortInOrder(ls: seq<Leaf>)
    ensures InOrder(Sort(ls))
  {
    if ls != [] {
      SortInOrder(ls[1..]);
      InsertInOrder(ls[0], Sort(ls[1..]));
    }
  }

  /** Sort keys tell the leaves of a directory apart. */
  ghost predicate KeysDiffer(ls: seq<Leaf>) {
    forall a, b :: a in ls && b in ls && SortKey(a) == SortKey(b) ==> a == b
  }

  lemma HeadIsLeast(a: seq<Leaf>, b: seq<Leaf>)
    requires InOrder(a) && a != [] && b != [] && multiset(a) == multiset(b)
    ensures b[0] in a && Le(SortKey(a[0]), SortKey(b[0]))
  {
    assert b[0] in multiset(a);
    LeSelf(SortKey(a[0]));
  }

  lemma HeadsAgree(a: seq<Leaf>, b: seq<Leaf>)
    requires InOrder(a) && InOrder(b) && a != [] && b != [] && multiset(a) == multiset(b) && KeysDiffer(a)
    ensures a[0] == b[0]
  {
    HeadIsLeast(a, b);
    HeadIsLeast(b, a);
    LeAntisymmetric(SortKey(a[0]), SortKey(b[0]));
  }

  lemma Tails(a: seq<Leaf>)
    requires InOrder(a) && a != []
    ensures InOrder(a[1..]) && (KeysDiffer(a) ==> KeysDiffer(a[1..])) && multiset(a[1..]) == multiset(a) - multiset{a[0]}
  {
    assert a == [a[0]] + a[1..];
  }

  lemma {:induction false} OrderIsUnique(a: seq<Leaf>, b: seq<Leaf>)
    requires InOrder(a) && InOrder(b) && multiset(a) == multiset(b) && KeysDiffer(a)
    ensures a == b
  {
    hide InOrder;
    hide KeysDiffer;
    assert |multiset(a)| == |a| && |multiset(b)| == |b|;
    if a != [] {
      HeadsAgree(a, b);
      Tails(a);
      Tails(b);
      OrderIsUnique(a[1..], b[1..]);
      assert a == [a[0]] + a[1..] && b == [b[0]] + b[1..];
    }
  }

  /** The bytes of a tree do not depend on the order in which its leaves were collected. */
  lemma SortIsCanonical(a: seq<Leaf>, b: seq<Leaf>)
    requires multiset(a) == multiset(b) && KeysDiffer(a)
    ensures Sort(a) == Sort(b)
  {
    SortInOrder(a);
    SortInOrder(b);
    forall x | x in Sort(a) ensures x in a {
      assert x in multiset(Sort(a));
    }
    OrderIsUnique(Sort(a), Sort(b));
  }
}
