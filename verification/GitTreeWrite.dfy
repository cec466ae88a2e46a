/** Writing an index as nested tree objects. */
module GitTreeWrite {
  import opened Wrappers
  import opened GitTreeCodec
  import opened GitTreeBuild

  /** The index, the naming of objects, and the order in which a hash set is iterated. */
  datatype Work = Work(entries: seq<Entry>, hash: string -> string, order: set<Path> -> seq<Path>)

  /** What an index file can hold: a relative name whose components have no slash and no zero byte, a
      mode of 4 and 9 bits, a 20-byte hash. */
  predicate GoodEntry(e: Entry) {
    && e.name != [] && (forall k :: 0 <= k < |e.name| ==> NUL !in e.name[k] && '/' !in e.name[k])
    && e.modeType < 16 && e.modePerms < 512 && |e.sha| == 20
  }

  ghost predicate Good(w: Work) {
    && (forall e :: e in w.entries ==> GoodEntry(e))
    && (forall s :: |w.hash(s)| == 20)
    && (forall s :: multiset(w.order(s)) == multiset(s))
  }

  function Octal(d: nat): (c: char)
    requires d < 8
  {
    '0' + d as char
  }

  function Mode(e: Entry): (m: string)
    requires e.modeType < 16 && e.modePerms < 512
  {
    [Octal(e.modeType / 8), Octal(e.modeType % 8), '0', Octal(e.modePerms / 64), Octal(e.modePerms / 8 % 8), Octal(e.modePerms % 8)]
  }

  /** The digits are those of type and permissions in octal, as git packs them in one number. */
  lemma ModeIsOctal(e: Entry)
    requires e.modeType < 16 && e.modePerms < 512
    ensures |Mode(e)| == 6 && FromOctal(Mode(e)) == e.modeType * 4096 + e.modePerms
  {
    SixOctalDigits(Mode(e));
    ModeDigits(e);
    hide Mode;
    hide FromOctal;
    ThreeDigits(e.modePerms);
  }

  lemma ThreeDigits(p: nat)
    ensures p == 64 * (p / 64) + 8 * (p / 8 % 8) + p % 8
  {
    var q := p / 8;
    assert p == 8 * q + p % 8 && q == 8 * (q / 8) + q % 8 && q / 8 == p / 64;
  }

  lemma ModeDigits(e: Entry)
    requires e.modeType < 16 && e.modePerms < 512
    ensures var m := Mode(e);
            && Digit(m[0]) == e.modeType / 8 && Digit(m[1]) == e.modeType % 8 && Digit(m[2]) == 0
            && Digit(m[3]) == e.modePerms / 64 && Digit(m[4]) == e.modePerms / 8 % 8 && Digit(m[5]) == e.modePerms % 8
  {
  }

  lemma SixOctalDigits(m: string)
    requires |m| == 6
    ensures FromOctal(m) == 32768 * Digit(m[0]) + 4096 * Digit(m[1]) + 512 * Digit(m[2]) + 64 * Digit(m[3]) + 8 * Digit(m[4]) + Digit(m[5])
  {
    assert FromOctal(m[..0]) == 0 && m[..6] == m;
    OctalPrefix(m, 0);
    OctalPrefix(m, 1);
    OctalPrefix(m, 2);
    OctalPrefix(m, 3);
    OctalPrefix(m, 4);
    OctalPrefix(m, 5);
    hide FromOctal;
  }

  lemma OctalPrefix(m: string, k: nat)
    requires k < |m|
    ensures FromOctal(m[..k + 1]) == 8 * FromOctal(m[..k]) + Digit(m[k])
  {
    assert m[..k + 1][..k] == m[..k];
  }

  function Digit(c: char): (d: int) { c as int - '0' as int }

  /** The value of a string of octal digits. */
  function FromOctal(s: string): (n: int) {
    if s == [] then 0 else 8 * FromOctal(s[..|s| - 1]) + Digit(s[|s| - 1])
  }

  /** A mode of five digits is read as the same number in six; other modes as they are. */
  lemma PaddingKeepsMode(m: string)
    ensures |m| == 5 ==> |SixDigits(m)| == 6 && FromOctal(SixDigits(m)) == FromOctal(m)
    ensures |m| != 5 ==> SixDigits(m) == m
  {
    ZeroInFront(m);
  }

  lemma {:induction false} ZeroInFront(m: string)
    ensures FromOctal("0" + m) == FromOctal(m)
    decreases |m|
  {
    if m == [] {
      assert ("0" + m)[..0] == [];
    } else {
      var n := |m| - 1;
      ZeroInFront(m[..n]);
      assert ("0" + m)[..n + 1] == "0" + m[..n];
    }
  }

  function FileName(p: Path): (s: string) {
    if p == [] then "" else p[|p| - 1]
  }

  // ----- the trees of an index -----

  ghost function All(w: Work): (r: set<Path>) { Names(w.entries) }

  ghost predicate IsDir(w: Work, p: Path) { p in Dirs(All(w)) }

  ghost predicate Known(w: Work, p: Path) { IsDir(w, p) || p in All(w) }

  function Depth(entries: seq<Entry>): (d: nat)
    ensures forall e :: e in entries ==> |e.name| <= d
  {
    if entries == [] then 0
    else
      var d := Depth(entries[1..]);
      assert forall e :: e in entries ==> e == entries[0] || e in entries[1..];
      if |entries[0].name| > d then |entries[0].name| else d
  }

  lemma KnownIsShallow(w: Work, p: Path)
    requires Known(w, p)
    ensures |p| <= Depth(w.entries) && (IsDir(w, p) ==> |p| < Depth(w.entries))
  {
    if IsDir(w, p) {
      var n :| n in All(w) && Above(p, n);
    }
  }

  /** The children of a directory are known, and one level below it. */
  lemma ChildIsKnown(w: Work, d: Path, c: Path)
    requires c in Children(All(w), d)
    ensures Known(w, c) && |c| == |d| + 1 && c[..|d|] == d
  {
    var n :| n in All(w) && Above(d, n) && c == n[..|d| + 1];
    assert c[..|d|] == n[..|d|];
    if |c| < |n| {
      assert Above(c, n);
    } else {
      assert c == n;
    }
  }

  ghost predicate Listed(w: Work, ps: seq<Path>, k: nat) {
    forall i :: 0 <= i < |ps| ==> Known(w, ps[i]) && |ps[i]| == k
  }

  lemma OrderLists(w: Work, d: Path)
    requires Good(w) && IsDir(w, d)
    ensures Listed(w, w.order(Children(All(w), d)), |d| + 1) && |d| < Depth(w.entries)
  {
    var kids := Children(All(w), d);
    KnownIsShallow(w, d);
    forall i | 0 <= i < |w.order(kids)| ensures Known(w, w.order(kids)[i]) && |w.order(kids)[i]| == |d| + 1 {
      assert w.order(kids)[i] in multiset(w.order(kids));
      ChildIsKnown(w, d, w.order(kids)[i]);
    }
  }

  /** How a path appears in its parent's tree. */
  ghost function LeafOf(w: Work, p: Path): (l: Leaf)
    requires Good(w) && Known(w, p)
    decreases Depth(w.entries) - |p|, 1, 0
  {
    KnownIsShallow(w, p);
    if IsDir(w, p) then Leaf("040000", FileName(p), w.hash(TreeBytes(w, p)))
    else
      LookupKeys(w.entries);
      var e := Lookup(w.entries)[p];
      Leaf(Mode(e), FileName(p), e.sha)
  }

  ghost function LeavesOf(w: Work, ps: seq<Path>, k: nat): (ls: seq<Leaf>)
    requires Good(w) && Listed(w, ps, k) && k <= Depth(w.entries)
    ensures |ls| == |ps|
    decreases Depth(w.entries) - k, 2, |ps|
  {
    if ps == [] then [] else LeavesOf(w, ps[..|ps| - 1], k) + [LeafOf(w, ps[|ps| - 1])]
  }

  /** The content of a directory's tree object. */
  ghost function TreeBytes(w: Work, d: Path): (s: string)
    requires Good(w) && IsDir(w, d)
    decreases Depth(w.entries) - |d|, 0, 0
  {
    OrderLists(w, d);
    EncodeLeaves(Sort(LeavesOf(w, w.order(Children(All(w), d)), |d| + 1)))
  }

  ghost function TreeName(w: Work, d: Path): (s: string)
    requires Good(w) && IsDir(w, d)
  {
    w.hash(TreeBytes(w, d))
  }

  lemma {:induction false} LeavesAt(w: Work, ps: seq<Path>, k: nat, i: nat)
    requires Good(w) && Listed(w, ps, k) && k <= Depth(w.entries) && i < |ps|
    ensures LeavesOf(w, ps, k)[i] == LeafOf(w, ps[i])
    decreases |ps|
  {
    if i < |ps| - 1 {
      LeavesAt(w, ps[..|ps| - 1], k, i);
    }
  }

  // ----- the object store -----

  /** Two trees of the index have one name only if they are one, and no stored object is in the way. */
  ghost predicate NoCollision(w: Work, objects: map<string, string>)
    requires Good(w)
  {
    && (forall d, e :: IsDir(w, d) && IsDir(w, e) && TreeName(w, d) == TreeName(w, e) ==> TreeBytes(w, d) == TreeBytes(w, e))
    && Agrees(w, objects)
  }

  ghost predicate Agrees(w: Work, objects: map<string, string>)
    requires Good(w)
  {
    forall d :: IsDir(w, d) && TreeName(w, d) in objects ==> objects[TreeName(w, d)] == TreeBytes(w, d)
  }

  predicate AtOrAbove(p: Path, q: Path) {
    |p| <= |q| && q[..|p|] == p
  }

  /** Every directory at or below p has been written. */
  ghost predicate WrittenBelow(w: Work, objects: map<string, string>, p: Path)
    requires Good(w)
  {
    forall d :: IsDir(w, d) && AtOrAbove(p, d) ==> TreeName(w, d) in objects
  }

  lemma WriteAgrees(w: Work, objects: map<string, string>, d: Path)
    requires Good(w) && NoCollision(w, objects) && IsDir(w, d)
    ensures NoCollision(w, objects[TreeName(w, d) := TreeBytes(w, d)])
  {
    hide TreeBytes;
  }

  /** What lies below a directory lies below one of its children. */
  lemma BelowAChild(w: Work, p: Path, d: Path)
    requires IsDir(w, d) && AtOrAbove(p, d) && |p| < |d|
    ensures d[..|p| + 1] in Children(All(w), p) && AtOrAbove(d[..|p| + 1], d)
  {
    var n :| n in All(w) && Above(d, n);
    assert n[..|p|] == n[..|d|][..|p|] == p && n[..|p| + 1] == n[..|d|][..|p| + 1] == d[..|p| + 1];
  }

  lemma BelowProperly(p: Path, d: Path)
    requires AtOrAbove(p, d)
    ensures d == p || |p| < |d|
  {
    assert d[..|d|] == d;
  }

  class Repository {
    var objects: map<string, string>

    constructor (store: map<string, string>)
      ensures objects == store
    {
      objects := store;
    }

    method WriteObject(w: Work, content: string) returns (sha: string)
      modifies this
      ensures sha == w.hash(content) && objects == old(objects)[sha := content]
    {
      sha := w.hash(content);
      objects := objects[sha := content];
    }

    /** Writes everything at or below a path, children before their parent, and returns its leaf. */
    method Backtrack(w: Work, directoryTree: DirTree, lookup: map<Path, Entry>, curr: Path) returns (leaf: Leaf)
      requires Good(w) && NoCollision(w, objects) && Known(w, curr)
      requires directoryTree == TreeOf(All(w)) && lookup == Lookup(w.entries)
      modifies this
      ensures leaf == LeafOf(w, curr)
      ensures NoCollision(w, objects) && WrittenBelow(w, objects, curr) && old(objects).Keys <= objects.Keys
      decreases Depth(w.entries) - |curr|, 1
    {
      KnownIsShallow(w, curr);
      LookupKeys(w.entries);
      if curr !in directoryTree {
        var entry := lookup[curr];
        NoDirsBelow(w, curr);
        return Leaf(Mode(entry), FileName(curr), entry.sha);
      }
      var leaves := WriteChildren(w, directoryTree, lookup, curr);
      ghost var before := objects;
      var sha := WriteObject(w, EncodeLeaves(Sort(leaves)));
      WriteAgrees(w, before, curr);
      ChildrenStay(w, before, objects, curr);
      leaf := Leaf("040000", FileName(curr), sha);
    }

    method WriteChildren(w: Work, directoryTree: DirTree, lookup: map<Path, Entry>, curr: Path) returns (leaves: seq<Leaf>)
      requires Good(w) && NoCollision(w, objects) && IsDir(w, curr)
      requires directoryTree == TreeOf(All(w)) && lookup == Lookup(w.entries)
      modifies this
      ensures Listed(w, w.order(Children(All(w), curr)), |curr| + 1) && |curr| < Depth(w.entries)
      ensures leaves == LeavesOf(w, w.order(Children(All(w), curr)), |curr| + 1)
      ensures NoCollision(w, objects) && old(objects).Keys <= objects.Keys
      ensures forall c :: c in Children(All(w), curr) ==> WrittenBelow(w, objects, c)
      decreases Depth(w.entries) - |curr|, 0
    {
      OrderLists(w, curr);
      var kids := w.order(directoryTree[curr]);
      leaves := [];
      hide Listed;
      hide Good;
      hide NoCollision;
      hide FirstWritten;
      hide WrittenBelow;
      NoneListed(w, kids, |curr| + 1);
      for i := 0 to |kids|
        invariant Listed(w, kids[..i], |curr| + 1) && leaves == LeavesOf(w, kids[..i], |curr| + 1)
        invariant NoCollision(w, objects) && old(objects).Keys <= objects.Keys
        invariant FirstWritten(w, objects, kids, i)
      {
        ListedSnoc(w, kids, |curr| + 1, i);
        hide LeavesOf;
        ghost var before := objects;
        var leaf := Backtrack(w, directoryTree, lookup, kids[i]);
        OneMoreWritten(w, before, objects, kids, i);
        leaves := leaves + [leaf];
      }
      assert kids[..|kids|] == kids;
      KidsAreChildren(w, curr, kids, objects);
    }

    /** The root's name; an empty index has no root and is an error. */
    method WriteIndexAsTree(w: Work) returns (r: Option<string>)
      requires Good(w) && NoCollision(w, objects)
      modifies this
      ensures r.None? <==> w.entries == []
      ensures r.Some? ==> IsDir(w, []) && r.value == TreeName(w, [])
      ensures r.Some? ==> Agrees(w, objects) && WrittenBelow(w, objects, [])
    {
      var directoryTree, lookup := BuildTree(w.entries);
      RootIsDir(w);
      if [] !in directoryTree && [] !in lookup {
        return None;
      }
      var leaf := Backtrack(w, directoryTree, lookup, []);
      r := Some(leaf.sha);
    }
  }

  lemma RootIsDir(w: Work)
    requires Good(w)
    ensures IsDir(w, []) <==> w.entries != []
    ensures [] !in Lookup(w.entries)
  {
    LookupKeys(w.entries);
    if w.entries != [] {
      var e := w.entries[0];
      assert e.name in All(w) && Above([], e.name);
    }
  }

  lemma AboveADir(w: Work, p: Path, d: Path)
    requires IsDir(w, d) && AtOrAbove(p, d)
    ensures IsDir(w, p)
  {
    var n :| n in All(w) && Above(d, n);
    assert n[..|p|] == n[..|d|][..|p|];
    assert Above(p, n);
  }

  lemma NoDirsBelow(w: Work, p: Path)
    requires !IsDir(w, p)
    ensures forall d :: IsDir(w, d) ==> !AtOrAbove(p, d)
  {
    forall d | IsDir(w, d) ensures !AtOrAbove(p, d) {
      if AtOrAbove(p, d) {
        AboveADir(w, p, d);
      }
    }
  }

  lemma NoneListed(w: Work, ps: seq<Path>, k: nat)
    requires Good(w) && k <= Depth(w.entries)
    ensures ps[..0] == [] && Listed(w, [], k) && LeavesOf(w, [], k) == [] && forall objects :: FirstWritten(w, objects, ps, 0)
  {
  }

  lemma ListedSnoc(w: Work, ps: seq<Path>, k: nat, i: nat)
    requires Good(w) && Listed(w, ps, k) && k <= Depth(w.entries) && i < |ps|
    ensures Listed(w, ps[..i], k) && Listed(w, ps[..i + 1], k) && Known(w, ps[i]) && |ps[i]| == k
    ensures LeavesOf(w, ps[..i + 1], k) == LeavesOf(w, ps[..i], k) + [LeafOf(w, ps[i])]
  {
    assert ps[..i + 1][..i] == ps[..i];
  }

  ghost predicate FirstWritten(w: Work, objects: map<string, string>, ps: seq<Path>, i: nat)
    requires Good(w) && i <= |ps|
  {
    forall k :: 0 <= k < i ==> WrittenBelow(w, objects, ps[k])
  }

  lemma OneMoreWritten(w: Work, before: map<string, string>, after: map<string, string>, ps: seq<Path>, i: nat)
    requires Good(w) && i < |ps| && before.Keys <= after.Keys
    requires FirstWritten(w, before, ps, i) && WrittenBelow(w, after, ps[i])
    ensures FirstWritten(w, after, ps, i + 1)
  {
    hide TreeName;
    forall k | 0 <= k < i ensures WrittenBelow(w, after, ps[k]) {
      assert WrittenBelow(w, before, ps[k]);
    }
  }

  lemma KidsAreChildren(w: Work, p: Path, ps: seq<Path>, objects: map<string, string>)
    requires Good(w) && ps == w.order(Children(All(w), p))
    requires FirstWritten(w, objects, ps, |ps|)
    ensures forall c :: c in Children(All(w), p) ==> WrittenBelow(w, objects, c)
  {
    forall c | c in Children(All(w), p) ensures WrittenBelow(w, objects, c) {
      assert c in multiset(ps);
    }
  }

  lemma ChildrenStay(w: Work, before: map<string, string>, after: map<string, string>, p: Path)
    requires Good(w) && IsDir(w, p) && before.Keys <= after.Keys && TreeName(w, p) in after
    requires forall c :: c in Children(All(w), p) ==> WrittenBelow(w, before, c)
    ensures WrittenBelow(w, after, p)
  {
    forall d | IsDir(w, d) && AtOrAbove(p, d) ensures TreeName(w, d) in after {
      BelowProperly(p, d);
      if d != p {
        BelowAChild(w, p, d);
      }
    }
  }
}
