/** What a reader of written trees sees: the full names, in which order. */
module GitTreeListing {
  import opened Wrappers
  import opened Lexicographic
  import opened Seqs
  import opened GitTreeCodec
  import opened GitTreeBuild
  import opened GitTreeWrite
  import opened GitTreeRead
  import GitTreeOrder

  /** A path as one string. */
  function Join(p: Path): (s: string) {
    if p == [] then "" else Under(p[..|p| - 1]) + p[|p| - 1]
  }

  /** What the names inside a directory start with. */
  function Under(d: Path): (s: string) {
    if d == [] then "" else Under(d[..|d| - 1]) + d[|d| - 1] + "/"
  }

  /** The files found depth first from a tree object, down to a given depth. */
  function Listing(objects: map<string, string>, sha: string, prefix: string, depth: nat): (names: seq<string>)
    decreases depth, 1, 0
  {
    if depth == 0 || sha !in objects then []
    else
      match Decode(objects[sha])
      case None => []
      case Some(ls) => ListLeaves(objects, ls, prefix, depth)
  }

  function ListLeaves(objects: map<string, string>, ls: seq<Leaf>, prefix: string, depth: nat): (names: seq<string>)
    requires depth > 0
    decreases depth, 0, |ls|
  {
    if ls == [] then [] else ListLeaf(objects, ls[0], prefix, depth) + ListLeaves(objects, ls[1..], prefix, depth)
  }

  function ListLeaf(objects: map<string, string>, l: Leaf, prefix: string, depth: nat): (names: seq<string>)
    requires depth > 0
    decreases depth, 0, 0
  {
    if DirMode(l.mode) then Listing(objects, l.sha, prefix + l.path + "/", depth - 1) else [prefix + l.path]
  }

  predicate Lt(a: string, b: string) { a != b && Le(a, b) }

  ghost predicate Ascending(names: seq<string>) {
    forall i, j :: 0 <= i < j < |names| ==> Lt(names[i], names[j])
  }

  // ----- lists of lists -----

  function Flat(bs: seq<seq<string>>): (s: seq<string>) {
    if bs == [] then [] else bs[0] + Flat(bs[1..])
  }

  ghost predicate Precedes(a: seq<string>, b: seq<string>) {
    forall x, y :: x in a && y in b ==> Lt(x, y)
  }

  ghost predicate Stepwise(bs: seq<seq<string>>) {
    forall i, j :: 0 <= i < j < |bs| ==> Precedes(bs[i], bs[j])
  }

  lemma AscendingConcat(a: seq<string>, b: seq<string>)
    ensures Ascending(a + b) <==> Ascending(a) && Ascending(b) && Precedes(a, b)
  {
    hide Lt;
    var c := a + b;
    if Ascending(c) {
      forall i, j | 0 <= i < j < |a| ensures Lt(a[i], a[j]) {
        assert a[i] == c[i] && a[j] == c[j];
      }
      forall i, j | 0 <= i < j < |b| ensures Lt(b[i], b[j]) {
        assert b[i] == c[|a| + i] && b[j] == c[|a| + j];
      }
      forall x, y | x in a && y in b ensures Lt(x, y) {
        var i :| 0 <= i < |a| && a[i] == x;
        var j :| 0 <= j < |b| && b[j] == y;
        assert c[i] == x && c[|a| + j] == y;
      }
    }
  }

  lemma {:induction false} FlatHas(bs: seq<seq<string>>, s: string)
    ensures s in Flat(bs) <==> exists i :: 0 <= i < |bs| && s in bs[i]
  {
    if bs != [] {
      FlatHas(bs[1..], s);
      if i :| 0 <= i < |bs| && s in bs[i] {
        if i > 0 {
          assert s in bs[1..][i - 1];
        }
      }
      if i :| 0 <= i < |bs[1..]| && s in bs[1..][i] {
        assert s in bs[i + 1];
      }
    }
  }

  lemma {:induction false} FlatAscends(bs: seq<seq<string>>)
    ensures Ascending(Flat(bs)) <==> (forall i :: 0 <= i < |bs| ==> Ascending(bs[i])) && Stepwise(bs)
  {
    if bs != [] {
      var rest := bs[1..];
      FlatAscends(rest);
      AscendingConcat(bs[0], Flat(rest));
      PrecedesFlat(bs[0], rest);
      StepwiseCons(bs);
      hide Ascending;
      hide Precedes;
      hide Stepwise;
      assert forall i :: 0 <= i < |rest| ==> rest[i] == bs[i + 1];
      assert (forall i :: 0 <= i < |bs| ==> Ascending(bs[i])) <==> Ascending(bs[0]) && forall i :: 0 <= i < |rest| ==> Ascending(rest[i]) by {
        assert forall i :: 1 <= i < |bs| ==> bs[i] == rest[i - 1];
      }
    }
  }

  lemma StepwiseCons(bs: seq<seq<string>>)
    requires bs != []
    ensures Stepwise(bs) <==> Stepwise(bs[1..]) && forall j :: 0 <= j < |bs[1..]| ==> Precedes(bs[0], bs[1..][j])
  {
    hide Precedes;
    var rest := bs[1..];
    if Stepwise(bs) {
      forall j | 0 <= j < |rest| ensures Precedes(bs[0], rest[j]) {
        assert rest[j] == bs[j + 1];
      }
      forall i, j | 0 <= i < j < |rest| ensures Precedes(rest[i], rest[j]) {
        assert rest[i] == bs[i + 1] && rest[j] == bs[j + 1];
      }
    }
    if Stepwise(rest) && forall j :: 0 <= j < |rest| ==> Precedes(bs[0], rest[j]) {
      forall i, j | 0 <= i < j < |bs| ensures Precedes(bs[i], bs[j]) {
        assert bs[j] == rest[j - 1];
        if i > 0 {
          assert bs[i] == rest[i - 1];
        }
      }
    }
  }

  lemma PrecedesFlat(a: seq<string>, bs: seq<seq<string>>)
    ensures Precedes(a, Flat(bs)) <==> forall j :: 0 <= j < |bs| ==> Precedes(a, bs[j])
  {
    hide Lt;
    if Precedes(a, Flat(bs)) {
      forall j, x, y | 0 <= j < |bs| && x in a && y in bs[j] ensures Lt(x, y) {
        FlatHas(bs, y);
      }
    }
    if forall j :: 0 <= j < |bs| ==> Precedes(a, bs[j]) {
      forall x, y | x in a && y in Flat(bs) ensures Lt(x, y) {
        FlatHas(bs, y);
        var j :| 0 <= j < |bs| && y in bs[j];
        assert Precedes(a, bs[j]);
      }
    }
  }

  lemma {:induction false} LeavesFlat(objects: map<string, string>, ls: seq<Leaf>, prefix: string, depth: nat)
    returns (bs: seq<seq<string>>)
    requires depth > 0
    ensures |bs| == |ls| && forall i :: 0 <= i < |ls| ==> bs[i] == ListLeaf(objects, ls[i], prefix, depth)
    ensures ListLeaves(objects, ls, prefix, depth) == Flat(bs)
    decreases |ls|
  {
    hide ListLeaf;
    if ls == [] {
      bs := [];
    } else {
      var cs := LeavesFlat(objects, ls[1..], prefix, depth);
      bs := [ListLeaf(objects, ls[0], prefix, depth)] + cs;
      assert bs[1..] == cs;
    }
  }

  // ----- sort keys against full names -----

  /** y goes on after x with a character below the slash. */
  predicate Cuts(x: string, y: string) {
    |x| < |y| && y[..|x|] == x && y[|x|] < '/'
  }

  function Key(x: string, slash: bool): (k: string) { if slash then x + "/" else x }

  /** Names are listed in the order of their keys, unless a name with a slash in its key only is cut. */
  lemma {:induction false} KeysAgainstNames(x: string, sx: bool, tx: string, y: string, sy: bool, ty: string)
    requires '/' !in x && '/' !in y && x != y
    requires (tx == [] || (sx && tx[0] == '/')) && (ty == [] || (sy && ty[0] == '/'))
    ensures Le(Key(x, sx), Key(y, sy)) && !(sx && tx == [] && Cuts(x, y)) && !(sy && ty == [] && Cuts(y, x)) ==> Lt(x + tx, y + ty)
    ensures sx && tx == [] && Cuts(x, y) ==> !Le(Key(x, sx), Key(y, sy)) && Lt(x + tx, y + ty)
    decreases |x|
  {
    if x != [] && y != [] && x[0] == y[0] {
      var c, x1, y1 := x[0], x[1..], y[1..];
      assert x == [c] + x1 && y == [c] + y1;
      KeysAgainstNames(x1, sx, tx, y1, sy, ty);
      hide Le;
      hide Lt;
      hide Cuts;
      KeyCons(c, x1, sx, tx);
      KeyCons(c, y1, sy, ty);
      hide Key;
      LeCons(c, Key(x1, sx), Key(y1, sy));
      LeCons(c, x1 + tx, y1 + ty);
      CutsCons(c, x1, y1);
      CutsCons(c, y1, x1);
    } else {
      KeysDiffer(x, sx, tx, y, sy, ty);
    }
  }

  lemma KeysDiffer(x: string, sx: bool, tx: string, y: string, sy: bool, ty: string)
    requires '/' !in x && '/' !in y && x != y && (x == [] || y == [] || x[0] != y[0])
    requires (tx == [] || (sx && tx[0] == '/')) && (ty == [] || (sy && ty[0] == '/'))
    ensures Le(Key(x, sx), Key(y, sy)) && !(sx && tx == [] && Cuts(x, y)) && !(sy && ty == [] && Cuts(y, x)) ==> Lt(x + tx, y + ty)
    ensures sx && tx == [] && Cuts(x, y) ==> !Le(Key(x, sx), Key(y, sy)) && Lt(x + tx, y + ty)
  {
    if x == [] {
      assert y[0] in y && y[0] != '/';
      assert x + tx == tx && y[..0] == [];
    } else if y == [] {
      assert x[0] in x && x[0] != '/';
      assert y + ty == ty && x[..0] == [];
    } else {
      assert |x| < |y| ==> y[..|x|][0] == y[0];
      assert |y| < |x| ==> x[..|y|][0] == x[0];
    }
  }

  lemma KeyCons(c: char, x: string, slash: bool, t: string)
    ensures Key([c] + x, slash) == [c] + Key(x, slash) && ([c] + x) + t == [c] + (x + t)
  {
  }

  lemma LeCons(c: char, a: string, b: string)
    ensures Le([c] + a, [c] + b) <==> Le(a, b)
    ensures Lt([c] + a, [c] + b) <==> Lt(a, b)
  {
    assert ([c] + a)[1..] == a && ([c] + b)[1..] == b;
  }

  lemma CutsCons(c: char, x: string, y: string)
    ensures Cuts([c] + x, [c] + y) <==> Cuts(x, y)
  {
    if |x| < |y| {
      assert ([c] + y)[..|x| + 1] == [c] + y[..|x|];
      if [c] + y[..|x|] == [c] + x {
        assert y[..|x|] == ([c] + y[..|x|])[1..] == x;
      }
    }
  }

  lemma {:induction false} LtPrefix(p: string, a: string, b: string)
    ensures Lt(p + a, p + b) <==> Lt(a, b)
  {
    if p == [] {
      assert p + a == a && p + b == b;
    } else {
      LtPrefix(p[1..], a, b);
      LeCons(p[0], p[1..] + a, p[1..] + b);
      assert p + a == [p[0]] + (p[1..] + a) && p + b == [p[0]] + (p[1..] + b);
    }
  }

  // ----- the leaves of one directory -----

  /** A file that the index gives the mode of a regular file. */
  ghost predicate Regular(w: Work, p: Path) {
    LookupKeys(w.entries);
    p in All(w) && Lookup(w.entries)[p].modeType == 8
  }

  lemma LeafKey(w: Work, d: Path, c: Path)
    requires Good(w) && c in Children(All(w), d)
    ensures Known(w, c) && SortKey(LeafOf(w, c)) == Key(FileName(c), IsDir(w, c) || !Regular(w, c)) && '/' !in FileName(c)
  {
    ChildIsKnown(w, d, c);
    GitTreeOrder.NoSlash(w, d, c);
    hide Children;
    if IsDir(w, c) {
      hide TreeBytes;
      var l := LeafOf(w, c);
      assert l.mode == "040000" && l.mode[..2] == "04";
    } else {
      LookupKeys(w.entries);
      var e := Lookup(w.entries)[c];
      assert GoodEntry(e);
      RegularMode(e);
    }
  }

  lemma RegularMode(e: Entry)
    requires e.modeType < 16 && e.modePerms < 512
    ensures |Mode(e)| == 6 && (Mode(e)[..2] == "10" <==> e.modeType == 8)
  {
    var m := Mode(e);
    assert m[..2] == [m[0], m[1]];
  }

  // ----- which names are listed -----

  lemma JoinChild(d: Path, c: Path)
    requires |c| == |d| + 1 && c[..|d|] == d
    ensures Join(c) == Under(d) + FileName(c) && Under(c) == Under(d) + FileName(c) + "/"
  {
    assert c[..|c| - 1] == d;
  }

  /** Full names below a directory start with it. */
  lemma {:induction false} JoinStarts(c: Path, n: Path) returns (t: string)
    requires Above(c, n)
    ensures Join(n) == Under(c) + t
    decreases |n|
  {
    var m := n[..|n| - 1];
    if |m| == |c| {
      assert m == n[..|c|];
      t := FileName(n);
    } else {
      assert m[..|c|] == n[..|c|];
      var t1 := UnderStarts(c, m);
      t := t1 + FileName(n);
      Assoc(Under(c), t1, FileName(n));
    }
  }

  lemma {:induction false} UnderStarts(c: Path, n: Path) returns (t: string)
    requires Above(c, n)
    ensures Under(n) == Under(c) + t
    decreases |n|
  {
    var m := n[..|n| - 1];
    t := FileName(n) + "/";
    assert Under(n) == Under(m) + t;
    if |m| == |c| {
      assert m == n[..|c|];
    } else {
      assert m[..|c|] == n[..|c|];
      var t1 := UnderStarts(c, m);
      Assoc(Under(c), t1, t);
      t := t1 + t;
    }
  }

  /** The full name of a surviving file at or below p. */
  ghost predicate Beneath(w: Work, p: Path, s: string) {
    exists n :: n in Expected(w) && AtOrAbove(p, n) && s == Join(n)
  }

  lemma FileBeneath(w: Work, c: Path, s: string)
    requires !IsDir(w, c) && c in Expected(w)
    ensures Beneath(w, c, s) <==> s == Join(c)
  {
    assert AtOrAbove(c, c) by { assert c[..|c|] == c; }
    if Beneath(w, c, s) {
      var n :| n in Expected(w) && AtOrAbove(c, n) && s == Join(n);
      OnlyItselfUnder(w, c, n);
    }
  }

  /** What is beneath a directory is beneath one of its children. */
  lemma BeneathChild(w: Work, d: Path, s: string)
    requires IsDir(w, d)
    ensures Beneath(w, d, s) <==> exists c :: c in Children(All(w), d) && Beneath(w, c, s)
  {
    if Beneath(w, d, s) {
      var n :| n in Expected(w) && AtOrAbove(d, n) && s == Join(n);
      BelowProperly(d, n);
      var c := n[..|d| + 1];
      assert Above(d, n) && c in Children(All(w), d) && AtOrAbove(c, n);
    }
    if c :| c in Children(All(w), d) && Beneath(w, c, s) {
      ChildIsKnown(w, d, c);
      var n :| n in Expected(w) && AtOrAbove(c, n) && s == Join(n);
      UnderChild(d, c, n);
    }
  }

  /** The tree of a directory, as a list of blocks, one for each of its children. */
  lemma Blocks(w: Work, objects: map<string, string>, d: Path, depth: nat)
    returns (ls: seq<Leaf>, qs: seq<Path>, bs: seq<seq<string>>)
    requires Good(w) && NoDirModes(w.entries) && Stored(w, objects) && IsDir(w, d) && depth > 0
    ensures Listing(objects, TreeName(w, d), Under(d), depth) == Flat(bs) && |bs| == |ls| == |qs|
    ensures forall i :: 0 <= i < |ls| ==> bs[i] == ListLeaf(objects, ls[i], Under(d), depth)
    ensures Stand(w, ls, qs) && InOrder(ls) && multiset(qs) == multiset(Children(All(w), d))
  {
    StoredTree(w, objects, d);
    ls, qs := TreeReads(w, d);
    hide Stored;
    hide Good;
    hide Decode;
    hide InOrder;
    hide ListLeaves;
    StandSizes(w, ls, qs);
    bs := LeavesFlat(objects, ls, Under(d), depth);
  }

  /** Exactly the surviving files are listed, under their full names. */
  lemma {:induction false} ListedNames(w: Work, objects: map<string, string>, d: Path, depth: nat, s: string)
    requires Good(w) && NoDirModes(w.entries) && Stored(w, objects) && IsDir(w, d) && |d| + depth >= Depth(w.entries)
    ensures s in Listing(objects, TreeName(w, d), Under(d), depth) <==> Beneath(w, d, s)
    decreases depth, 1
  {
    hide Stored;
    hide Good;
    hide Listing;
    hide ListLeaf;
    hide Stand;
    hide InOrder;
    hide Beneath;
    KnownIsShallow(w, d);
    var ls, qs, bs := Blocks(w, objects, d, depth);
    FlatHas(bs, s);
    forall i | 0 <= i < |bs| ensures s in bs[i] <==> Beneath(w, qs[i], s) {
      ListedInBlock(w, objects, d, ls, qs, i, depth, s);
    }
    BeneathChild(w, d, s);
    ListedOnce(qs, Children(All(w), d));
    hide Children;
    if c :| c in Children(All(w), d) && Beneath(w, c, s) {
      var i :| 0 <= i < |qs| && qs[i] == c;
    }
  }

  lemma ListedOnce(qs: seq<Path>, kids: set<Path>)
    requires multiset(qs) == multiset(kids)
    ensures forall c :: c in kids <==> c in qs
    ensures forall i, j :: 0 <= i < j < |qs| ==> qs[i] != qs[j]
  {
    forall c ensures c in kids <==> c in qs {
      assert c in multiset(qs) <==> c in multiset(kids);
    }
    forall i, j | 0 <= i < j < |qs| ensures qs[i] != qs[j] {
      OnlyOnce(qs, kids, i, j);
    }
  }

  lemma {:induction false} ListedInBlock(w: Work, objects: map<string, string>, d: Path, ls: seq<Leaf>, qs: seq<Path>, i: nat, depth: nat, s: string)
    requires Good(w) && NoDirModes(w.entries) && Stored(w, objects) && IsDir(w, d) && |d| + depth >= Depth(w.entries)
    requires Stand(w, ls, qs) && multiset(qs) == multiset(Children(All(w), d)) && i < |ls| && depth > 0
    ensures |ls| == |qs| && (s in ListLeaf(objects, ls[i], Under(d), depth) <==> Beneath(w, qs[i], s))
    decreases depth, 0
  {
    hide Stored;
    hide Good;
    hide Listing;
    hide Beneath;
    StandSizes(w, ls, qs);
    var l, c := ls[i], qs[i];
    ChildLeaf(w, objects, d, ls, qs, i, depth);
    hide Stand;
    hide Under;
    hide Join;
    hide Expected;
    hide ListLeaf;
    hide Children;
    if IsDir(w, c) {
      ListedNames(w, objects, c, depth - 1, s);
    } else {
      FileBeneath(w, c, s);
    }
  }

  /** What a leaf contributes to the listing, in terms of the child it stands for. */
  lemma ChildLeaf(w: Work, objects: map<string, string>, d: Path, ls: seq<Leaf>, qs: seq<Path>, i: nat, depth: nat)
    requires Good(w) && NoDirModes(w.entries) && Stand(w, ls, qs) && multiset(qs) == multiset(Children(All(w), d))
    requires i < |ls| && depth > 0
    ensures |ls| == |qs| && |qs[i]| == |d| + 1 && qs[i] in Children(All(w), d)
    ensures IsDir(w, qs[i]) ==>
              ListLeaf(objects, ls[i], Under(d), depth) == Listing(objects, TreeName(w, qs[i]), Under(qs[i]), depth - 1)
    ensures !IsDir(w, qs[i]) ==> qs[i] in Expected(w) && ListLeaf(objects, ls[i], Under(d), depth) == [Join(qs[i])]
  {
    hide Good;
    hide Listing;
    hide Expected;
    hide TreeName;
    StandSizes(w, ls, qs);
    LeafStands(w, d, ls, qs, i);
    ListedOnce(qs, Children(All(w), d));
    var l, c := ls[i], qs[i];
    assert c in qs;
    hide Stand;
    ChildIsKnown(w, d, c);
    hide Children;
    JoinChild(d, c);
    hide Join;
    hide Under;
    assert l.path == c[|d|] == FileName(c);
    hide FileName;
  }

  /** Below every known path there is a file that survives. */
  lemma {:induction false} SomeBeneath(w: Work, p: Path) returns (s: string)
    requires Known(w, p)
    ensures Beneath(w, p, s)
    decreases Depth(w.entries) - |p|
  {
    hide Join;
    hide Expected;
    KnownIsShallow(w, p);
    if IsDir(w, p) {
      var n :| n in All(w) && Above(p, n);
      KnownIsShallow(w, n);
      s := SomeBeneath(w, n);
      BeneathAbove(w, p, n, s);
    } else {
      s := Join(p);
      Survives(w, p);
    }
  }

  lemma BeneathAbove(w: Work, p: Path, n: Path, s: string)
    requires Above(p, n) && Beneath(w, n, s)
    ensures Beneath(w, p, s)
  {
    hide Join;
    hide Expected;
    var m :| m in Expected(w) && AtOrAbove(n, m) && s == Join(m);
    assert m[..|p|] == m[..|n|][..|p|];
  }

  lemma Survives(w: Work, p: Path)
    requires p in All(w) && !IsDir(w, p)
    ensures Beneath(w, p, Join(p))
  {
    hide Join;
    LookupKeys(w.entries);
    assert p in Expected(w);
    hide Expected;
    assert p[..|p|] == p && AtOrAbove(p, p);
  }

  // ----- the order of the listing -----

  /** A file that is not regular, and so sorted as a directory, next to a name that cuts in. */
  ghost predicate Disturbs(w: Work, a: Path, b: Path) {
    !IsDir(w, a) && !Regular(w, a) && Cuts(FileName(a), FileName(b))
  }

  ghost predicate Undisturbed(w: Work, d: Path) {
    forall a, b :: a in Children(All(w), d) && b in Children(All(w), d) ==> !Disturbs(w, a, b)
  }

  /** What follows the name of a child in the full names beneath it. */
  lemma NameBeneath(w: Work, d: Path, c: Path, s: string) returns (t: string)
    requires c in Children(All(w), d) && Beneath(w, c, s)
    ensures s == Under(d) + (FileName(c) + t) && (if IsDir(w, c) then t != [] && t[0] == '/' else t == [])
  {
    ChildIsKnown(w, d, c);
    JoinChild(d, c);
    hide Join;
    hide Under;
    hide Children;
    var n :| n in Expected(w) && AtOrAbove(c, n) && s == Join(n);
    assert n in All(w) && !IsDir(w, n);
    hide Expected;
    hide FileName;
    BelowProperly(c, n);
    if n == c {
      t := [];
      assert FileName(c) + t == FileName(c);
    } else {
      assert Above(c, n);
      var t1 := JoinStarts(c, n);
      t := "/" + t1;
      SlashMoves(Under(d), FileName(c), t1);
    }
  }

  lemma SlashMoves(u: string, f: string, t: string)
    ensures u + f + "/" + t == u + (f + ("/" + t))
  {
    Assoc(u, f, "/");
    Assoc(u, f + "/", t);
    Assoc(f, "/", t);
  }

  lemma NamesTellApart(w: Work, d: Path, a: Path, b: Path)
    requires a in Children(All(w), d) && b in Children(All(w), d) && a != b
    ensures FileName(a) != FileName(b)
  {
    ChildIsKnown(w, d, a);
    ChildIsKnown(w, d, b);
    assert a == d + [FileName(a)] && b == d + [FileName(b)];
  }

  lemma SiblingsCompare(w: Work, d: Path, a: Path, b: Path, x: string, y: string)
    requires Good(w) && a in Children(All(w), d) && b in Children(All(w), d) && a != b && Beneath(w, a, x) && Beneath(w, b, y)
    ensures Known(w, a) && Known(w, b)
    ensures Le(SortKey(LeafOf(w, a)), SortKey(LeafOf(w, b))) && !Disturbs(w, a, b) && !Disturbs(w, b, a) ==> Lt(x, y)
    ensures Disturbs(w, a, b) ==> !Le(SortKey(LeafOf(w, a)), SortKey(LeafOf(w, b))) && Lt(x, y)
  {
    var tx := NameBeneath(w, d, a, x);
    var ty := NameBeneath(w, d, b, y);
    hide Good;
    hide Children;
    hide Beneath;
    hide LeafOf;
    LeafKey(w, d, a);
    LeafKey(w, d, b);
    NamesTellApart(w, d, a, b);
    hide FileName;
    hide SortKey;
    hide Le;
    hide Lt;
    hide Cuts;
    hide Regular;
    hide IsDir;
    hide Known;
    hide Key;
    KeysAgainstNames(FileName(a), IsDir(w, a) || !Regular(w, a), tx, FileName(b), IsDir(w, b) || !Regular(w, b), ty);
    LtPrefix(Under(d), FileName(a) + tx, FileName(b) + ty);
  }

  lemma LtOneWay(x: string, y: string)
    requires Lt(x, y)
    ensures !Lt(y, x)
  {
    if Le(y, x) {
      LeAntisymmetric(x, y);
    }
  }

  /** A block lists what is beneath a child. */
  ghost predicate Lists(w: Work, b: seq<string>, c: Path) {
    forall s :: s in b <==> Beneath(w, c, s)
  }

  /** Of two siblings in the order of their keys, the first precedes the second unless it is cut. */
  lemma SiblingsPrecede(w: Work, d: Path, a: Path, b: Path, xs: seq<string>, ys: seq<string>)
    requires Good(w) && a in Children(All(w), d) && b in Children(All(w), d) && a != b && Known(w, a) && Known(w, b)
    requires Le(SortKey(LeafOf(w, a)), SortKey(LeafOf(w, b))) && Lists(w, xs, a) && Lists(w, ys, b)
    ensures !Disturbs(w, a, b) && (Precedes(xs, ys) <==> !Disturbs(w, b, a))
  {
    hide Good;
    hide Children;
    hide Beneath;
    hide LeafOf;
    hide SortKey;
    hide Disturbs;
    hide Known;
    hide Lt;
    hide Le;
    var x0 := SomeBeneath(w, a);
    var y0 := SomeBeneath(w, b);
    SiblingsCompare(w, d, a, b, x0, y0);
    SiblingsCompare(w, d, b, a, y0, x0);
    if Disturbs(w, b, a) {
      LtOneWay(y0, x0);
      assert x0 in xs && y0 in ys;
    } else {
      forall x, y | x in xs && y in ys ensures Lt(x, y) {
        SiblingsCompare(w, d, a, b, x, y);
      }
    }
  }

  /** The blocks of a directory precede one another exactly if none of its files is cut. */
  lemma BlocksPrecede(w: Work, d: Path, ls: seq<Leaf>, qs: seq<Path>, bs: seq<seq<string>>)
    requires Good(w) && Stand(w, ls, qs) && InOrder(ls) && multiset(qs) == multiset(Children(All(w), d)) && |bs| == |qs|
    requires forall i :: 0 <= i < |qs| ==> Lists(w, bs[i], qs[i])
    ensures Stepwise(bs) <==> Undisturbed(w, d)
  {
    ListedOnce(qs, Children(All(w), d));
    forall i, j | 0 <= i < j < |qs|
      ensures !Disturbs(w, qs[i], qs[j]) && (Precedes(bs[i], bs[j]) <==> !Disturbs(w, qs[j], qs[i]))
    {
      assert qs[i] in qs && qs[j] in qs && ls[i] == LeafOf(w, qs[i]) && ls[j] == LeafOf(w, qs[j]);
      SiblingsPrecede(w, d, qs[i], qs[j], bs[i], bs[j]);
    }
    hide Good;
    hide Stand;
    hide InOrder;
    hide Children;
    hide Lists;
    hide Precedes;
    if Undisturbed(w, d) {
      forall i, j | 0 <= i < j < |bs| ensures Precedes(bs[i], bs[j]) {
        assert qs[i] in qs && qs[j] in qs;
      }
    }
    if Stepwise(bs) {
      forall a, b | a in Children(All(w), d) && b in Children(All(w), d) ensures !Disturbs(w, a, b) {
        var i :| 0 <= i < |qs| && qs[i] == a;
        var j :| 0 <= j < |qs| && qs[j] == b;
        assert i > j ==> Precedes(bs[j], bs[i]);
      }
    }
  }

  ghost predicate UndisturbedBelow(w: Work, p: Path) {
    forall d :: IsDir(w, d) && AtOrAbove(p, d) ==> Undisturbed(w, d)
  }

  lemma UndisturbedByChildren(w: Work, d: Path)
    requires IsDir(w, d)
    ensures UndisturbedBelow(w, d) <==>
              Undisturbed(w, d) && forall c :: c in Children(All(w), d) ==> UndisturbedBelow(w, c)
  {
    hide Undisturbed;
    assert AtOrAbove(d, d) by { assert d[..|d|] == d; }
    if UndisturbedBelow(w, d) {
      forall c, e | c in Children(All(w), d) && IsDir(w, e) && AtOrAbove(c, e) ensures Undisturbed(w, e) {
        ChildIsKnown(w, d, c);
        UnderChild(d, c, e);
      }
    }
    if Undisturbed(w, d) && forall c :: c in Children(All(w), d) ==> UndisturbedBelow(w, c) {
      forall e | IsDir(w, e) && AtOrAbove(d, e) ensures Undisturbed(w, e) {
        BelowProperly(d, e);
        if e != d {
          BelowAChild(w, d, e);
          assert UndisturbedBelow(w, e[..|d| + 1]);
        }
      }
    }
  }

  lemma NothingBelowFile(w: Work, c: Path)
    requires !IsDir(w, c)
    ensures UndisturbedBelow(w, c)
  {
    NoDirsBelow(w, c);
  }

  /** The listing ascends in byte order exactly if in no directory a file that is not regular is cut. */
  lemma {:induction false} ListingAscendsIff(w: Work, objects: map<string, string>, d: Path, depth: nat)
    requires Good(w) && NoDirModes(w.entries) && Stored(w, objects) && IsDir(w, d) && |d| + depth >= Depth(w.entries)
    ensures Ascending(Listing(objects, TreeName(w, d), Under(d), depth)) <==> UndisturbedBelow(w, d)
    decreases depth, 1
  {
    hide Stored;
    hide Good;
    hide Listing;
    hide ListLeaf;
    hide InOrder;
    hide Beneath;
    hide Ascending;
    hide Stepwise;
    hide Undisturbed;
    hide UndisturbedBelow;
    KnownIsShallow(w, d);
    var ls, qs, bs := Blocks(w, objects, d, depth);
    hide Stand;
    FlatAscends(bs);
    forall i | 0 <= i < |bs| ensures Lists(w, bs[i], qs[i]) && (Ascending(bs[i]) <==> UndisturbedBelow(w, qs[i])) {
      BlockAscends(w, objects, d, ls, qs, i, depth);
    }
    hide Lists;
    BlocksPrecede(w, d, ls, qs, bs);
    UndisturbedByChildren(w, d);
    ListedOnce(qs, Children(All(w), d));
    hide Children;
    assert (forall c :: c in Children(All(w), d) ==> UndisturbedBelow(w, c)) <==>
           (forall i :: 0 <= i < |qs| ==> UndisturbedBelow(w, qs[i]));
  }

  lemma {:induction false} BlockAscends(w: Work, objects: map<string, string>, d: Path, ls: seq<Leaf>, qs: seq<Path>, i: nat, depth: nat)
    requires Good(w) && NoDirModes(w.entries) && Stored(w, objects) && IsDir(w, d) && |d| + depth >= Depth(w.entries)
    requires Stand(w, ls, qs) && multiset(qs) == multiset(Children(All(w), d)) && i < |ls| && depth > 0
    ensures |ls| == |qs| && Lists(w, ListLeaf(objects, ls[i], Under(d), depth), qs[i])
    ensures Ascending(ListLeaf(objects, ls[i], Under(d), depth)) <==> UndisturbedBelow(w, qs[i])
    decreases depth, 0
  {
    hide Stored;
    hide Good;
    hide Listing;
    hide ListLeaf;
    hide Beneath;
    hide UndisturbedBelow;
    StandSizes(w, ls, qs);
    var l, c := ls[i], qs[i];
    forall s ensures s in ListLeaf(objects, l, Under(d), depth) <==> Beneath(w, c, s) {
      ListedInBlock(w, objects, d, ls, qs, i, depth, s);
    }
    assert Lists(w, ListLeaf(objects, l, Under(d), depth), c);
    ChildLeaf(w, objects, d, ls, qs, i, depth);
    hide Stand;
    hide Join;
    hide Under;
    hide Expected;
    hide Lists;
    hide Children;
    if IsDir(w, c) {
      ListingAscendsIff(w, objects, c, depth - 1);
    } else {
      NothingBelowFile(w, c);
    }
  }

  /** An index of regular files: the listing of the written root has every file that survives, in
      ascending byte order of full names. */
  lemma RegularListing(w: Work, objects: map<string, string>, depth: nat)
    requires Good(w) && Stored(w, objects) && IsDir(w, []) && depth >= Depth(w.entries)
    requires forall e :: e in w.entries ==> e.modeType == 8
    ensures var names := Listing(objects, TreeName(w, []), "", depth);
            && Ascending(names)
            && forall s :: s in names <==> exists n :: n in Expected(w) && s == Join(n)
  {
    hide Stored;
    hide Ascending;
    hide Listing;
    assert Under([]) == "";
    assert UndisturbedBelow(w, []) by {
      forall d, a, b | a in Children(All(w), d) && b in Children(All(w), d) ensures !Disturbs(w, a, b) {
        AllRegular(w, d, a);
      }
    }
    ListingAscendsIff(w, objects, [], depth);
    forall s ensures s in Listing(objects, TreeName(w, []), "", depth) <==> exists n :: n in Expected(w) && s == Join(n) {
      ListedNames(w, objects, [], depth, s);
      assert forall n :: AtOrAbove([], n);
    }
  }

  lemma AllRegular(w: Work, d: Path, a: Path)
    requires (forall e :: e in w.entries ==> e.modeType == 8) && a in Children(All(w), d)
    ensures IsDir(w, a) || Regular(w, a)
  {
    ChildIsKnown(w, d, a);
    LookupKeys(w.entries);
  }

  /** A symbolic link `a` beside a file `a.b` is listed after it, although its name is the smaller. */
  lemma LinkIsMisplaced(w: Work, link: Entry, file: Entry)
    requires w.entries == [link, file] && link.modeType == 10
    requires link.name == ["a"] && file.name == ["a.b"]
    ensures IsDir(w, []) && !UndisturbedBelow(w, [])
  {
    var a, b := link.name, file.name;
    assert link in w.entries && file in w.entries;
    assert a in All(w) && b in All(w) && Above([], a) && Above([], b);
    assert a[..1] == a && b[..1] == b;
    assert a in Children(All(w), []) && b in Children(All(w), []);
    assert !IsDir(w, a);
    assert w.entries[..2] == w.entries;
    LookupIsFirst(w.entries, 2, 0);
    assert "a.b"[..1] == "a";
    assert Disturbs(w, a, b);
    assert AtOrAbove([], []);
  }
}
