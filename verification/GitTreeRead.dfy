/** Flattening HEAD's tree back to paths, and comparing it with the index. */
module GitTreeRead {
  import opened Wrappers
  import opened GitTreeCodec
  import opened GitTreeBuild
  import opened GitTreeWrite

  /** No index entry carries the mode of a directory. */
  predicate NoDirModes(entries: seq<Entry>) {
    forall e :: e in entries ==> e.modeType != 4
  }

  predicate DirMode(mode: string) { |mode| >= 2 && mode[..2] == "04" }

  /** What survives in the tree: the names that are not also directories, each with the hash of its
      first entry. */
  ghost function Expected(w: Work): (m: map<Path, string>) {
    LookupKeys(w.entries);
    map n | n in All(w) && !IsDir(w, n) :: Lookup(w.entries)[n].sha
  }

  // ----- reading one tree -----

  lemma LeafFacts(w: Work, d: Path, c: Path)
    requires Good(w) && NoDirModes(w.entries) && c in Children(All(w), d)
    ensures Known(w, c)
    ensures var l := LeafOf(w, c);
            && Writable(l)
            && d + [l.path] == c
            && (DirMode(l.mode) <==> IsDir(w, c))
            && (IsDir(w, c) ==> l.sha == TreeName(w, c))
            && (!IsDir(w, c) ==> c in Expected(w) && l.sha == Expected(w)[c])
  {
    ChildIsKnown(w, d, c);
    assert d + [c[|d|]] == c;
    ChildNameFits(w, d, c);
    hide Children;
    if IsDir(w, c) {
      DirLeaf(w, c);
    } else {
      FileLeaf(w, c);
    }
    hide LeafOf;
    hide Expected;
    hide Good;
    hide IsDir;
  }

  lemma DirLeaf(w: Work, c: Path)
    requires Good(w) && IsDir(w, c) && NUL !in FileName(c)
    ensures var l := LeafOf(w, c); Writable(l) && l.path == FileName(c) && DirMode(l.mode) && l.sha == TreeName(w, c)
  {
    hide TreeBytes;
    assert LeafOf(w, c).mode == "040000";
  }

  lemma FileLeaf(w: Work, c: Path)
    requires Good(w) && NoDirModes(w.entries) && Known(w, c) && !IsDir(w, c) && NUL !in FileName(c)
    ensures var l := LeafOf(w, c);
            && Writable(l)
            && l.path == FileName(c)
            && !DirMode(l.mode)
            && c in Expected(w)
            && l.sha == Expected(w)[c]
  {
    hide TreeBytes;
    LookupKeys(w.entries);
    var e := Lookup(w.entries)[c];
    assert GoodEntry(e);
    ModeFacts(e);
  }

  lemma ChildNameFits(w: Work, d: Path, c: Path)
    requires Good(w) && c in Children(All(w), d)
    ensures NUL !in FileName(c)
  {
    var n :| n in All(w) && Above(d, n) && c == n[..|d| + 1];
    var e :| e in w.entries && e.name == n;
    assert GoodEntry(e) && FileName(c) == n[|d|];
  }

  lemma ModeFacts(e: Entry)
    requires e.modeType < 16 && e.modePerms < 512
    ensures |Mode(e)| == 6 && ' ' !in Mode(e) && (DirMode(Mode(e)) <==> e.modeType == 4)
  {
    var m := Mode(e);
    assert m[..2] == [m[0], m[1]];
    if e.modeType == 4 {
      assert m[0] == '0' && m[1] == '4';
    } else if m[0] == '0' {
      assert e.modeType / 8 == 0;
      assert m[1] != '4';
    }
  }

  /** The leaves stand for the paths, one for one. */
  ghost predicate Stand(w: Work, ls: seq<Leaf>, ps: seq<Path>)
    requires Good(w)
  {
    |ls| == |ps| && forall i :: 0 <= i < |ls| ==> Known(w, ps[i]) && ls[i] == LeafOf(w, ps[i])
  }

  lemma {:induction false} InsertStands(w: Work, p: Path, ls: seq<Leaf>, ps: seq<Path>) returns (qs: seq<Path>)
    requires Good(w) && Stand(w, ls, ps) && Known(w, p)
    ensures Stand(w, Insert(LeafOf(w, p), ls), qs) && multiset(qs) == multiset(ps) + multiset{p}
    decreases |ls|
  {
    hide LeafOf;
    hide SortKey;
    hide Stand;
    hide Good;
    StandSizes(w, ls, ps);
    if ls == [] || Lexicographic.Le(SortKey(LeafOf(w, p)), SortKey(ls[0])) {
      StandCons(w, LeafOf(w, p), p, ls, ps);
      qs := [p] + ps;
    } else {
      StandTail(w, ls, ps);
      var rs := InsertStands(w, p, ls[1..], ps[1..]);
      StandCons(w, ls[0], ps[0], Insert(LeafOf(w, p), ls[1..]), rs);
      qs := [ps[0]] + rs;
      assert ps == [ps[0]] + ps[1..];
    }
  }

  lemma StandSizes(w: Work, ls: seq<Leaf>, ps: seq<Path>)
    requires Good(w) && Stand(w, ls, ps)
    ensures |ls| == |ps|
  {
  }

  lemma StandCons(w: Work, l: Leaf, p: Path, ls: seq<Leaf>, ps: seq<Path>)
    requires Good(w) && Stand(w, ls, ps) && Known(w, p) && l == LeafOf(w, p)
    ensures Stand(w, [l] + ls, [p] + ps)
  {
    hide LeafOf;
  }

  lemma StandTail(w: Work, ls: seq<Leaf>, ps: seq<Path>)
    requires Good(w) && Stand(w, ls, ps) && ls != []
    ensures |ps| == |ls| && Stand(w, ls[1..], ps[1..]) && Known(w, ps[0]) && ls[0] == LeafOf(w, ps[0])
  {
    hide LeafOf;
  }

  lemma {:induction false} SortStands(w: Work, ls: seq<Leaf>, ps: seq<Path>) returns (qs: seq<Path>)
    requires Good(w) && Stand(w, ls, ps)
    ensures Stand(w, Sort(ls), qs) && multiset(qs) == multiset(ps)
    decreases |ls|
  {
    if ls == [] {
      qs := [];
    } else {
      StandTail(w, ls, ps);
      var rs := SortStands(w, ls[1..], ps[1..]);
      qs := SortStandsStep(w, ls, ps, rs);
    }
  }

  lemma SortStandsStep(w: Work, ls: seq<Leaf>, ps: seq<Path>, rs: seq<Path>) returns (qs: seq<Path>)
    requires Good(w) && ls != [] && ps != [] && Known(w, ps[0]) && ls[0] == LeafOf(w, ps[0])
    requires Stand(w, Sort(ls[1..]), rs) && multiset(rs) == multiset(ps[1..])
    ensures Stand(w, Sort(ls), qs) && multiset(qs) == multiset(ps)
  {
    hide Stand;
    hide Good;
    hide LeafOf;
    hide Insert;
    qs := InsertStands(w, ps[0], Sort(ls[1..]), rs);
    assert ps == [ps[0]] + ps[1..];
  }

  lemma OnlyOnce(ps: seq<Path>, s: set<Path>, i: nat, j: nat)
    requires multiset(ps) == multiset(s) && i < j < |ps|
    ensures ps[i] != ps[j]
  {
    assert ps == ps[..i] + [ps[i]] + ps[i + 1..];
    assert ps[j] in ps[i + 1..];
    assert multiset(ps) == multiset(ps[..i]) + multiset{ps[i]} + multiset(ps[i + 1..]);
    assert multiset(s)[ps[i]] <= 1;
  }

  /** Reading a written tree gives a leaf for each child of its directory, once, in the order of keys. */
  lemma TreeReads(w: Work, d: Path) returns (ls: seq<Leaf>, qs: seq<Path>)
    requires Good(w) && NoDirModes(w.entries) && IsDir(w, d)
    ensures Decode(TreeBytes(w, d)) == Some(ls) && Stand(w, ls, qs) && InOrder(ls)
    ensures multiset(qs) == multiset(Children(All(w), d))
  {
    OrderLists(w, d);
    var kids := w.order(Children(All(w), d));
    var ms := LeavesOf(w, kids, |d| + 1);
    forall i | 0 <= i < |ms| ensures ms[i] == LeafOf(w, kids[i]) {
      LeavesAt(w, kids, |d| + 1, i);
    }
    ls := Sort(ms);
    SortInOrder(ms);
    qs := SortStands(w, ms, kids);
    forall i | 0 <= i < |ls| ensures Writable(ls[i]) {
      assert qs[i] in multiset(qs);
      LeafFacts(w, d, qs[i]);
    }
    TreeRoundTrip(ls);
  }

  // ----- the frontier of the flattening -----

  ghost predicate Reached(front: seq<Path>, p: Path) {
    exists i :: 0 <= i < |front| && AtOrAbove(front[i], p)
  }

  ghost predicate Apart(front: seq<Path>) {
    forall i, j :: 0 <= i < |front| && 0 <= j < |front| && i != j ==> !AtOrAbove(front[i], front[j])
  }

  /** The paths still to be read lie apart; the directories under them are pending; and every expected
      name is in the result or under one of them. */
  ghost predicate Frontier(w: Work, front: seq<Path>, head: map<Path, string>, pending: set<Path>) {
    && Apart(front)
    && (forall d :: IsDir(w, d) && Reached(front, d) ==> d in pending)
    && (forall p :: p in Expected(w) ==> p in head || Reached(front, p))
    && (forall p :: p in head ==> p in Expected(w) && head[p] == Expected(w)[p])
  }

  lemma ReachedSplit(a: seq<Path>, b: seq<Path>, p: Path)
    ensures Reached(a + b, p) <==> Reached(a, p) || Reached(b, p)
  {
    if Reached(a, p) {
      var i :| 0 <= i < |a| && AtOrAbove(a[i], p);
      assert (a + b)[i] == a[i];
    }
    if Reached(b, p) {
      var i :| 0 <= i < |b| && AtOrAbove(b[i], p);
      assert (a + b)[|a| + i] == b[i];
    }
    if Reached(a + b, p) {
      var i :| 0 <= i < |a + b| && AtOrAbove((a + b)[i], p);
      if i < |a| {
        assert a[i] == (a + b)[i];
      } else {
        assert b[i - |a|] == (a + b)[i];
      }
    }
  }

  /** What is under a child is properly under its directory. */
  lemma UnderChild(d: Path, c: Path, p: Path)
    requires |c| == |d| + 1 && c[..|d|] == d && AtOrAbove(c, p)
    ensures AtOrAbove(d, p) && p != d
  {
    assert p[..|d|] == p[..|c|][..|d|];
  }

  lemma NameUnder(w: Work, p: Path) returns (n: Path)
    requires Known(w, p)
    ensures n in All(w) && AtOrAbove(p, n)
  {
    if p in All(w) {
      assert p[..|p|] == p;
      n := p;
    } else {
      n :| n in All(w) && Above(p, n);
    }
  }

  /** What is properly under a directory is under one of its children. */
  lemma UnderSome(w: Work, d: Path, qs: seq<Path>, p: Path)
    requires Known(w, p) && AtOrAbove(d, p) && p != d && multiset(qs) == multiset(Children(All(w), d))
    ensures Reached(qs, p)
  {
    BelowProperly(d, p);
    var n := NameUnder(w, p);
    var c := p[..|d| + 1];
    assert n[..|d|] == n[..|p|][..|d|] == d && n[..|d| + 1] == n[..|p|][..|d| + 1] == c;
    assert Above(d, n);
    assert c in Children(All(w), d);
    assert c in multiset(qs);
    var i :| 0 <= i < |qs| && qs[i] == c;
  }

  lemma ChildrenApart(w: Work, d: Path, qs: seq<Path>)
    requires multiset(qs) == multiset(Children(All(w), d))
    ensures Apart(qs) && forall i :: 0 <= i < |qs| ==> qs[i] in Children(All(w), d) && |qs[i]| == |d| + 1 && qs[i][..|d|] == d
  {
    forall i | 0 <= i < |qs| ensures qs[i] in Children(All(w), d) && |qs[i]| == |d| + 1 && qs[i][..|d|] == d {
      assert qs[i] in multiset(qs);
      ChildIsKnown(w, d, qs[i]);
    }
    forall i, j | 0 <= i < |qs| && 0 <= j < |qs| && i != j ensures !AtOrAbove(qs[i], qs[j]) {
      if i < j {
        OnlyOnce(qs, Children(All(w), d), i, j);
      } else {
        OnlyOnce(qs, Children(All(w), d), j, i);
      }
      assert qs[j][..|qs[j]|] == qs[j];
    }
  }

  lemma ExpandApart(w: Work, front: seq<Path>, d: Path, qs: seq<Path>)
    requires Apart(front + [d]) && multiset(qs) == multiset(Children(All(w), d))
    ensures Apart(front + qs) && !Reached(front, d)
  {
    ChildrenApart(w, d, qs);
    var n := |front|;
    assert (front + [d])[n] == d;
    forall i | 0 <= i < n ensures !AtOrAbove(front[i], d) && !AtOrAbove(d, front[i]) {
      assert (front + [d])[i] == front[i];
    }
    forall i, j | 0 <= i < n && 0 <= j < n && i != j ensures !AtOrAbove(front[i], front[j]) {
      assert (front + [d])[i] == front[i] && (front + [d])[j] == front[j];
    }
    forall i, k | 0 <= i < n && 0 <= k < |qs| ensures !AtOrAbove(front[i], qs[k]) && !AtOrAbove(qs[k], front[i]) {
      if AtOrAbove(front[i], qs[k]) || AtOrAbove(qs[k], front[i]) {
        Comparable(front[i], d, qs[k]);
      }
    }
  }

  lemma Comparable(f: Path, d: Path, c: Path)
    requires |c| == |d| + 1 && c[..|d|] == d && (AtOrAbove(f, c) || AtOrAbove(c, f))
    ensures AtOrAbove(f, d) || AtOrAbove(d, f)
  {
    assert c[..|c|] == c && f[..|f|] == f;
    if AtOrAbove(c, f) {
      UnderChild(d, c, f);
    } else {
      assert d[..|f|] == c[..|d|][..|f|] == c[..|f|];
    }
  }

  /** A directory is replaced by its children. */
  lemma Expand(w: Work, front: seq<Path>, d: Path, qs: seq<Path>, head: map<Path, string>, pending: set<Path>)
    requires Frontier(w, front + [d], head, pending) && IsDir(w, d)
    requires multiset(qs) == multiset(Children(All(w), d))
    ensures d in pending && Frontier(w, front + qs, head, pending - {d})
  {
    ExpandApart(w, front, d, qs);
    ChildrenApart(w, d, qs);
    assert d[..|d|] == d && AtOrAbove(d, d);
    assert Reached([d], d) by {
      assert [d][0] == d;
    }
    ReachedSplit(front, [d], d);
    forall e | IsDir(w, e) && Reached(front + qs, e) ensures e in pending - {d} {
      ReachedSplit(front, qs, e);
      ReachedSplit(front, [d], e);
      if Reached(qs, e) {
        var i :| 0 <= i < |qs| && AtOrAbove(qs[i], e);
        UnderChild(d, qs[i], e);
        assert AtOrAbove([d][0], e);
      }
    }
    forall p | p in Expected(w) && p !in head ensures Reached(front + qs, p) {
      ReachedSplit(front, [d], p);
      ReachedSplit(front, qs, p);
      if Reached([d], p) {
        UnderSome(w, d, qs, p);
      }
    }
  }

  /** A file on the frontier goes to the result. */
  lemma Collect(w: Work, front: seq<Path>, q: Path, rest: seq<Path>, head: map<Path, string>, pending: set<Path>)
    requires Frontier(w, front + [q] + rest, head, pending) && !IsDir(w, q) && q in Expected(w)
    ensures Frontier(w, front + rest, if q in head then head else head[q := Expected(w)[q]], pending)
  {
    var all := front + [q] + rest;
    ApartWithout(front, q, rest);
    forall p ensures Reached(all, p) <==> Reached(front + rest, p) || AtOrAbove(q, p) {
      ReachedWithout(front, q, rest, p);
    }
    hide Apart;
    hide Reached;
    forall p | p in Expected(w) && AtOrAbove(q, p) ensures p == q {
      OnlyItselfUnder(w, q, p);
    }
  }

  lemma OnlyItselfUnder(w: Work, q: Path, p: Path)
    requires !IsDir(w, q) && p in Expected(w) && AtOrAbove(q, p)
    ensures p == q
  {
    BelowProperly(q, p);
    assert p in All(w) && !Above(q, p);
  }

  lemma ReachedWithout(front: seq<Path>, q: Path, rest: seq<Path>, p: Path)
    ensures Reached(front + [q] + rest, p) <==> Reached(front + rest, p) || AtOrAbove(q, p)
  {
    ReachedSplit(front, rest, p);
    ReachedSplit(front + [q], rest, p);
    ReachedSplit(front, [q], p);
    if AtOrAbove(q, p) {
      assert AtOrAbove([q][0], p);
    }
  }

  lemma ApartWithout(front: seq<Path>, q: Path, rest: seq<Path>)
    requires Apart(front + [q] + rest)
    ensures Apart(front + rest)
  {
    var all, some, n := front + [q] + rest, front + rest, |front|;
    forall i, j | 0 <= i < |some| && 0 <= j < |some| && i != j ensures !AtOrAbove(some[i], some[j]) {
      var i', j' := if i < n then i else i + 1, if j < n then j else j + 1;
      assert some[i] == all[i'] && some[j] == all[j'];
    }
  }

  // ----- the loop -----

  ghost function Paths(stack: seq<(string, Path)>): (ps: seq<Path>)
    ensures |ps| == |stack| && forall i :: 0 <= i < |ps| ==> ps[i] == stack[i].1
  {
    seq(|stack|, i requires 0 <= i < |stack| => stack[i].1)
  }

  ghost predicate Pushed(w: Work, stack: seq<(string, Path)>)
    requires Good(w)
  {
    forall i :: 0 <= i < |stack| ==> IsDir(w, stack[i].1) && stack[i].0 == TreeName(w, stack[i].1)
  }

  ghost predicate Stored(w: Work, objects: map<string, string>)
    requires Good(w)
  {
    Agrees(w, objects) && WrittenBelow(w, objects, [])
  }

  lemma StoredTree(w: Work, objects: map<string, string>, d: Path)
    requires Good(w) && Stored(w, objects) && IsDir(w, d)
    ensures TreeName(w, d) in objects && objects[TreeName(w, d)] == TreeBytes(w, d)
  {
    assert AtOrAbove([], d);
  }

  /** HEAD as a flat map, read with a work stack from the root tree of a written index. */
  method FlattenHead(w: Work, objects: map<string, string>, root: string) returns (head: map<Path, string>)
    requires Good(w) && NoDirModes(w.entries) && IsDir(w, []) && Stored(w, objects) && root == TreeName(w, [])
    ensures head == Expected(w)
  {
    head := map[];
    var stk: seq<(string, Path)> := [(root, [])];
    ghost var pending := Dirs(All(w));
    StartFrontier(w);
    assert Paths(stk) == [[]];
    while stk != []
      invariant Pushed(w, stk) && Frontier(w, Paths(stk), head, pending)
      decreases |pending|
    {
      hide Frontier;
      hide Expected;
      hide Good;
      hide IsDir;
      hide Decode;
      var ref, prefix := stk[|stk| - 1].0, stk[|stk| - 1].1;
      PopStack(w, stk);
      hide Pushed;
      stk := stk[..|stk| - 1];
      StoredTree(w, objects, prefix);
      hide Stored;
      var tree := Deserialize(objects[ref]);
      ghost var ls, qs := TreeReads(w, prefix);
      Expand(w, Paths(stk), prefix, qs, head, pending);
      pending := pending - {prefix};
      stk, head := ReadLeaves(w, prefix, tree.value, qs, stk, head, pending);
    }
    FrontierEmpty(w, head, pending);
  }

  /** The leaves of one tree: directories are pushed, files collected. */
  method ReadLeaves(w: Work, prefix: Path, tree: seq<Leaf>, ghost qs: seq<Path>, stk0: seq<(string, Path)>,
                    head0: map<Path, string>, ghost pending: set<Path>)
    returns (stk: seq<(string, Path)>, head: map<Path, string>)
    requires Good(w) && NoDirModes(w.entries) && Stand(w, tree, qs) && multiset(qs) == multiset(Children(All(w), prefix))
    requires Pushed(w, stk0) && Frontier(w, Paths(stk0) + qs, head0, pending)
    ensures Pushed(w, stk) && Frontier(w, Paths(stk), head, pending)
  {
    stk, head := stk0, head0;
    assert qs[0..] == qs;
    for i := 0 to |tree|
      invariant Pushed(w, stk) && Frontier(w, Paths(stk) + qs[i..], head, pending)
    {
      stk, head := ReadLeaf(w, prefix, tree, i, qs, stk, head, pending);
    }
    assert Paths(stk) + qs[|tree|..] == Paths(stk);
  }

  method ReadLeaf(w: Work, prefix: Path, tree: seq<Leaf>, i: nat, ghost qs: seq<Path>, stk0: seq<(string, Path)>,
                  head0: map<Path, string>, ghost pending: set<Path>)
    returns (stk: seq<(string, Path)>, head: map<Path, string>)
    requires Good(w) && NoDirModes(w.entries) && Stand(w, tree, qs) && multiset(qs) == multiset(Children(All(w), prefix))
    requires i < |tree| && Pushed(w, stk0) && Frontier(w, Paths(stk0) + qs[i..], head0, pending)
    ensures Pushed(w, stk) && Frontier(w, Paths(stk) + qs[i + 1..], head, pending)
  {
    LeafStands(w, prefix, tree, qs, i);
    SplitFront(Paths(stk0), qs, i);
    hide *;
    stk, head := stk0, head0;
    var leaf := tree[i];
    var fullPath := prefix + [leaf.path];
    if DirMode(leaf.mode) {
      PushStack(w, stk, leaf.sha, fullPath);
      stk := stk + [(leaf.sha, fullPath)];
    } else {
      Collect(w, Paths(stk), fullPath, qs[i + 1..], head, pending);
      if fullPath !in head {
        head := head[fullPath := leaf.sha];
      }
    }
  }

  lemma SplitFront(ps: seq<Path>, qs: seq<Path>, i: nat)
    requires i < |qs|
    ensures ps + qs[i..] == ps + [qs[i]] + qs[i + 1..]
  {
  }

  lemma PushStack(w: Work, stk: seq<(string, Path)>, sha: string, p: Path)
    requires Good(w) && Pushed(w, stk) && IsDir(w, p) && sha == TreeName(w, p)
    ensures Pushed(w, stk + [(sha, p)]) && Paths(stk + [(sha, p)]) == Paths(stk) + [p]
  {
    hide TreeName;
    hide IsDir;
    hide Good;
    assert |Paths(stk)| == |stk|;
  }

  lemma PopStack(w: Work, stk: seq<(string, Path)>)
    requires Good(w) && Pushed(w, stk) && stk != []
    ensures var n := |stk| - 1;
            && Pushed(w, stk[..n])
            && Paths(stk) == Paths(stk[..n]) + [stk[n].1]
            && IsDir(w, stk[n].1)
            && stk[n].0 == TreeName(w, stk[n].1)
  {
    hide TreeName;
    hide IsDir;
    hide Good;
    assert |Paths(stk)| == |stk|;
  }

  lemma LeafStands(w: Work, d: Path, ls: seq<Leaf>, qs: seq<Path>, i: nat)
    requires Good(w) && NoDirModes(w.entries) && Stand(w, ls, qs) && multiset(qs) == multiset(Children(All(w), d)) && i < |ls|
    ensures var l := ls[i];
            && d + [l.path] == qs[i]
            && (DirMode(l.mode) <==> IsDir(w, qs[i]))
            && (IsDir(w, qs[i]) ==> l.sha == TreeName(w, qs[i]))
            && (!IsDir(w, qs[i]) ==> qs[i] in Expected(w) && l.sha == Expected(w)[qs[i]])
  {
    assert qs[i] in multiset(qs);
    LeafFacts(w, d, qs[i]);
  }

  lemma StartFrontier(w: Work)
    requires IsDir(w, [])
    ensures Frontier(w, [[]], map[], Dirs(All(w)))
  {
    forall p ensures Reached([[]], p) {
      var front: seq<Path> := [[]];
      assert AtOrAbove(front[0], p);
    }
  }

  lemma FrontierEmpty(w: Work, head: map<Path, string>, pending: set<Path>)
    requires Frontier(w, [], head, pending)
    ensures head == Expected(w)
  {
    assert forall p :: p in Expected(w) ==> p in head;
  }

  // ----- comparing HEAD with the index -----

  predicate FirstOfName(entries: seq<Entry>, i: nat)
    requires i < |entries|
  {
    forall j :: 0 <= j < i ==> entries[j].name != entries[i].name
  }

  datatype Change = Unchanged | New | Modified

  /** What happened to an entry since HEAD. A name of HEAD is compared with its first entry only; a later
      one of the same name counts as new. */
  function ChangeOf(entries: seq<Entry>, head: map<Path, string>, i: nat): (c: Change)
    requires i < |entries|
  {
    var e := entries[i];
    if !FirstOfName(entries, i) || e.name !in head then New
    else if head[e.name] != e.sha then Modified
    else Unchanged
  }

  /** The names of the entries with a given change among the first n, in order. */
  function Changed(entries: seq<Entry>, head: map<Path, string>, n: nat, c: Change): (names: seq<Path>)
    requires n <= |entries|
  {
    if n == 0 then []
    else Changed(entries, head, n - 1, c) + (if ChangeOf(entries, head, n - 1) == c then [entries[n - 1].name] else [])
  }

  /** The changes to be committed: new and modified entries in the order of the index, and the names of
      HEAD without an entry. The loop strikes a name from HEAD once it is found. */
  method CompareHeadAndIndex(entries: seq<Entry>, head: map<Path, string>)
    returns (added: seq<Path>, modified: seq<Path>, deleted: set<Path>)
    ensures added == Changed(entries, head, |entries|, New)
    ensures modified == Changed(entries, head, |entries|, Modified)
    ensures deleted == head.Keys - Names(entries)
  {
    added, modified := [], [];
    var left := head;
    for i := 0 to |entries|
      invariant left == head - Names(entries[..i])
      invariant added == Changed(entries, head, i, New) && modified == Changed(entries, head, i, Modified)
    {
      NamesSnoc(entries, i);
      NamedBefore(entries, i);
      hide FirstOfName;
      var entry := entries[i];
      if entry.name in left {
        if left[entry.name] != entry.sha {
          modified := modified + [entry.name];
        }
        left := left - {entry.name};
      } else {
        added := added + [entry.name];
      }
    }
    assert entries[..|entries|] == entries;
    deleted := left.Keys;
  }

  lemma {:induction false} NothingChanged(entries: seq<Entry>, head: map<Path, string>, n: nat, c: Change)
    requires n <= |entries|
    ensures Changed(entries, head, n, c) == [] <==> forall i :: 0 <= i < n ==> ChangeOf(entries, head, i) != c
  {
    hide ChangeOf;
    if n > 0 {
      NothingChanged(entries, head, n - 1, c);
    }
  }

  lemma NamedBefore(entries: seq<Entry>, i: nat)
    requires i < |entries|
    ensures entries[i].name in Names(entries[..i]) <==> !FirstOfName(entries, i)
  {
    if !FirstOfName(entries, i) {
      var j :| 0 <= j < i && entries[j].name == entries[i].name;
      assert entries[..i][j] in entries[..i];
    }
  }

  lemma {:induction false} LookupIsFirst(entries: seq<Entry>, n: nat, i: nat)
    requires i < n <= |entries| && FirstOfName(entries, i)
    ensures entries[i].name in Lookup(entries[..n]) && Lookup(entries[..n])[entries[i].name] == entries[i]
    decreases n
  {
    assert entries[..n][..n - 1] == entries[..n - 1];
    if i < n - 1 {
      LookupIsFirst(entries, n - 1, i);
    } else {
      LookupKeys(entries[..i]);
      NamedBefore(entries, i);
    }
  }

  /** Names are distinct, and none is also a directory. */
  ghost predicate Plain(entries: seq<Entry>) {
    && (forall i :: 0 <= i < |entries| ==> FirstOfName(entries, i))
    && (forall e, f :: e in entries && f in entries ==> !Above(e.name, f.name))
  }

  /** After a commit no entry is modified, and an entry is new exactly if it is not the first of its name
      or its name is also a directory. */
  lemma ChangeAfterCommit(w: Work, i: nat)
    requires i < |w.entries|
    ensures var c := ChangeOf(w.entries, Expected(w), i);
            && c != Modified
            && (c == New <==> !FirstOfName(w.entries, i) || IsDir(w, w.entries[i].name))
  {
    var es := w.entries;
    LookupKeys(es);
    if FirstOfName(es, i) {
      assert es[..|es|] == es;
      LookupIsFirst(es, |es|, i);
      assert es[i] in es;
    }
  }

  /** All entries survive a commit unchanged exactly for a plain index, and no other name does. */
  lemma SurvivesIffPlain(w: Work)
    ensures (forall i :: 0 <= i < |w.entries| ==> ChangeOf(w.entries, Expected(w), i) == Unchanged) <==> Plain(w.entries)
    ensures Expected(w).Keys <= Names(w.entries)
  {
    var es := w.entries;
    forall i | 0 <= i < |es|
      ensures ChangeOf(es, Expected(w), i) == Unchanged <==> FirstOfName(es, i) && !IsDir(w, es[i].name)
    {
      ChangeAfterCommit(w, i);
    }
    hide ChangeOf;
    PlainIff(w);
    LookupKeys(es);
  }

  lemma PlainIff(w: Work)
    ensures Plain(w.entries) <==> forall i :: 0 <= i < |w.entries| ==> FirstOfName(w.entries, i) && !IsDir(w, w.entries[i].name)
  {
    var es := w.entries;
    if forall i :: 0 <= i < |es| ==> FirstOfName(es, i) && !IsDir(w, es[i].name) {
      forall e, f | e in es && f in es ensures !Above(e.name, f.name) {
        var i :| 0 <= i < |es| && es[i] == e;
        assert !IsDir(w, es[i].name) && f.name in All(w);
      }
    }
    if Plain(es) {
      forall i | 0 <= i < |es| ensures !IsDir(w, es[i].name) {
        assert es[i] in es;
      }
    }
  }

  /** Committing an index and asking for the status: nothing is modified or deleted, exactly the entries
      that could not survive are added, and so there is no change exactly for a plain index. */
  method StatusAfterCommit(repo: Repository, w: Work)
    returns (r: Option<(seq<Path>, seq<Path>, set<Path>)>)
    requires Good(w) && NoDirModes(w.entries) && NoCollision(w, repo.objects)
    modifies repo
    ensures r.None? <==> w.entries == []
    ensures r.Some? ==> r.value == (Changed(w.entries, Expected(w), |w.entries|, New), [], {})
    ensures r.Some? ==> (r.value == ([], [], {}) <==> Plain(w.entries))
  {
    hide NoCollision;
    hide Good;
    hide Expected;
    hide Plain;
    var root := repo.WriteIndexAsTree(w);
    if root.None? {
      return None;
    }
    var head := FlattenHead(w, repo.objects, root.value);
    var added, modified, deleted := CompareHeadAndIndex(w.entries, head);
    NoChangeIffPlain(w);
    assert deleted == {};
    r := Some((added, modified, deleted));
  }

  lemma NoChangeIffPlain(w: Work)
    ensures Changed(w.entries, Expected(w), |w.entries|, Modified) == []
    ensures Changed(w.entries, Expected(w), |w.entries|, New) == [] <==> Plain(w.entries)
    ensures Expected(w).Keys <= Names(w.entries)
  {
    var es := w.entries;
    forall i | 0 <= i < |es| ensures ChangeOf(es, Expected(w), i) != Modified {
      ChangeAfterCommit(w, i);
    }
    SurvivesIffPlain(w);
    hide ChangeOf;
    hide Plain;
    hide Expected;
    NothingChanged(es, Expected(w), |es|, New);
    NothingChanged(es, Expected(w), |es|, Modified);
  }
}
