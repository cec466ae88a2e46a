/** The directory tree of an index, built with an early exit at a known parent. */
module GitTreeBuild {

  /** A path as its components; the root is the empty path. */
  type Path = seq<string>

  datatype Entry = Entry(name: Path, modeType: nat, modePerms: nat, sha: string)

  type DirTree = map<Path, set<Path>>

  predicate Above(d: Path, n: Path) {
    |d| < |n| && n[..|d|] == d
  }

  function Parent(p: Path): (q: Path) {
    if p == [] then [] else p[..|p| - 1]
  }

  // ----- what the directory tree should be -----

  /** All directories on the way to a name. */
  ghost function Dirs(names: set<Path>): (r: set<Path>)
    ensures forall d :: d in r <==> exists n :: n in names && Above(d, n)
  {
    var r := set n, k | n in names && 0 <= k < |n| :: n[..k];
    assert forall d :: d in r ==> exists n :: n in names && Above(d, n) by {
      forall d | d in r ensures exists n :: n in names && Above(d, n) {
        var n, k :| n in names && 0 <= k < |n| && d == n[..k];
        assert Above(d, n);
      }
    }
    assert forall d, n :: n in names && Above(d, n) ==> n[..|d|] in r;
    r
  }

  /** The entries of a directory. */
  ghost function Children(names: set<Path>, d: Path): (r: set<Path>) {
    set n | n in names && Above(d, n) :: n[..|d| + 1]
  }

  ghost function TreeOf(names: set<Path>): (t: DirTree) {
    map d | d in Dirs(names) :: Children(names, d)
  }

  // ----- one name -----

  /** d lies on the way to n, at depth j or below. */
  predicate OnWay(d: Path, n: Path, j: nat) {
    j <= |d| && Above(d, n)
  }

  /** The entry that the way to n adds to d. */
  function WayEntry(d: Path, n: Path, j: nat): (s: set<Path>) {
    if OnWay(d, n, j) then {n[..|d| + 1]} else {}
  }

  /** The tree with the way to n added from depth j downwards only. */
  ghost predicate AddedFrom(t: DirTree, names: set<Path>, n: Path, j: nat) {
    && (forall d :: d in t <==> d in Dirs(names) || OnWay(d, n, j))
    && (forall d :: d in t ==> t[d] == Children(names, d) + WayEntry(d, n, j))
  }

  lemma ChildrenGrow(names: set<Path>, n: Path, d: Path)
    ensures Children(names + {n}, d) == Children(names, d) + WayEntry(d, n, 0)
  {
    var a, b := Children(names + {n}, d), Children(names, d) + WayEntry(d, n, 0);
    forall c | c in b ensures c in a {
      if c in Children(names, d) {
        var m :| m in names && Above(d, m) && c == m[..|d| + 1];
        assert m in names + {n};
      } else {
        assert n in names + {n};
      }
    }
  }

  /** Above a directory that was known already, nothing is missing. */
  lemma KnownAbove(names: set<Path>, n: Path, j: nat, d: Path)
    requires j <= |n| && n[..j] in Dirs(names) && Above(d, n) && |d| < j
    ensures d in Dirs(names) && n[..|d| + 1] in Children(names, d)
  {
    var m :| m in names && Above(n[..j], m);
    assert m[..j] == n[..j];
    assert d == n[..j][..|d|] == m[..j][..|d|] == m[..|d|];
    assert n[..|d| + 1] == n[..j][..|d| + 1] == m[..j][..|d| + 1] == m[..|d| + 1];
    assert Above(d, m);
  }

  lemma DirsGrow(names: set<Path>, n: Path, d: Path)
    ensures d in Dirs(names + {n}) <==> d in Dirs(names) || Above(d, n)
  {
    var all := names + {n};
    if d in Dirs(names) {
      var m :| m in names && Above(d, m);
      assert m in all;
    }
    if Above(d, n) {
      assert n in all;
    }
    if d in Dirs(all) {
      var m :| m in all && Above(d, m);
      assert m == n || m in names;
    }
  }

  /** On the way to n above depth j nothing is new. */
  lemma WayFromDepth(names: set<Path>, n: Path, j: nat, d: Path)
    requires j <= |n| && (j == 0 || n[..j] in Dirs(names))
    ensures d in Dirs(names) || OnWay(d, n, j) <==> d in Dirs(names) || Above(d, n)
    ensures Children(names, d) + WayEntry(d, n, j) == Children(names, d) + WayEntry(d, n, 0)
  {
    if Above(d, n) && |d| < j {
      KnownAbove(names, n, j, d);
    }
  }

  /** So the walk may stop there. */
  lemma EarlyExit(t: DirTree, names: set<Path>, n: Path, j: nat)
    requires j <= |n| && AddedFrom(t, names, n, j) && (j == 0 || n[..j] in Dirs(names))
    ensures t == TreeOf(names + {n})
  {
    hide Above;
    hide OnWay;
    hide WayEntry;
    hide Dirs;
    hide Children;
    forall d ensures d in t <==> d in Dirs(names + {n}) {
      DirsGrow(names, n, d);
      WayFromDepth(names, n, j, d);
    }
    forall d | d in t ensures t[d] == Children(names + {n}, d) {
      ChildrenGrow(names, n, d);
      WayFromDepth(names, n, j, d);
    }
  }

  lemma WayStep(n: Path, j: nat, d: Path)
    requires 0 < j <= |n|
    ensures OnWay(d, n, j - 1) <==> OnWay(d, n, j) || d == n[..j - 1]
  {
  }

  lemma NothingAdded(names: set<Path>, n: Path)
    ensures AddedFrom(TreeOf(names), names, n, |n|) && n[..|n|] == n
  {
  }

  /** Walks up from a name, and stops at the first parent that exists already. */
  method AddName(t0: DirTree, n: Path, ghost names: set<Path>) returns (t: DirTree)
    requires t0 == TreeOf(names)
    ensures t == TreeOf(names + {n})
  {
    t := t0;
    var curr := n;
    NothingAdded(names, n);
    hide AddedFrom;
    hide TreeOf;
    while curr != [] && curr != Parent(curr)
      invariant |curr| <= |n| && curr == n[..|curr|] && AddedFrom(t, names, n, |curr|)
      decreases |curr|
    {
      var parent := Parent(curr);
      var parentAlreadyExists := parent in t;
      ghost var t1 := t;
      assert parent == n[..|curr|][..|curr| - 1] == n[..|curr| - 1];
      t := t[parent := (if parent in t then t[parent] else {}) + {curr}];
      ParentAdded(t1, t, names, n, |curr|);
      if parentAlreadyExists {
        EarlyExit(t, names, n, |parent|);
        return;
      }
      curr := parent;
    }
    EarlyExit(t, names, n, 0);
  }

  lemma ParentAdded(t1: DirTree, t: DirTree, names: set<Path>, n: Path, j: nat)
    requires 0 < j <= |n| && AddedFrom(t1, names, n, j)
    requires var p := n[..j - 1]; t == t1[p := (if p in t1 then t1[p] else {}) + {n[..j]}]
    ensures AddedFrom(t, names, n, j - 1) && (n[..j - 1] in t1 <==> n[..j - 1] in Dirs(names))
  {
    var p := n[..j - 1];
    ParentOnWay(n, j);
    NoChildren(names, p);
    hide WayEntry;
    hide Dirs;
    hide Children;
    forall d ensures OnWay(d, n, j - 1) <==> OnWay(d, n, j) || d == p {
      WayStep(n, j, d);
    }
    hide OnWay;
    forall d | d in t ensures t[d] == Children(names, d) + WayEntry(d, n, j - 1) {
      if d != p {
        assert t[d] == t1[d];
        EntryStep(n, j, d);
      }
    }
  }

  lemma ParentOnWay(n: Path, j: nat)
    requires 0 < j <= |n|
    ensures var p := n[..j - 1];
            !OnWay(p, n, j) && WayEntry(p, n, j) == {} && WayEntry(p, n, j - 1) == {n[..j]}
  {
  }

  lemma EntryStep(n: Path, j: nat, d: Path)
    requires 0 < j <= |n| && d != n[..j - 1]
    ensures WayEntry(d, n, j) == WayEntry(d, n, j - 1)
  {
    WayStep(n, j, d);
  }

  lemma NoChildren(names: set<Path>, p: Path)
    ensures p !in Dirs(names) ==> Children(names, p) == {}
  {
    if p !in Dirs(names) {
      forall m | m in names ensures !Above(p, m) {
      }
    }
  }

  // ----- the whole index -----

  ghost function Names(entries: seq<Entry>): (r: set<Path>) {
    set e | e in entries :: e.name
  }

  /** The first entry of each name. */
  function Lookup(entries: seq<Entry>): (r: map<Path, Entry>)
    ensures forall p :: p in r ==> r[p] in entries && r[p].name == p
  {
    if entries == [] then map[]
    else
      var n, e := |entries| - 1, entries[|entries| - 1];
      var r := Lookup(entries[..n]);
      assert forall x :: x in entries[..n] ==> x in entries;
      if e.name in r then r else r[e.name := e]
  }

  lemma {:induction false} LookupKeys(entries: seq<Entry>)
    ensures Lookup(entries).Keys == Names(entries)
    decreases |entries|
  {
    if entries != [] {
      var n := |entries| - 1;
      LookupKeys(entries[..n]);
      NamesSnoc(entries, n);
      assert entries[..n + 1] == entries;
    }
  }

  lemma NamesSnoc(entries: seq<Entry>, n: nat)
    requires n < |entries|
    ensures Names(entries[..n + 1]) == Names(entries[..n]) + {entries[n].name}
  {
    var a, b := Names(entries[..n + 1]), Names(entries[..n]) + {entries[n].name};
    assert entries[..n + 1] == entries[..n] + [entries[n]];
    forall p | p in a ensures p in b {
      var e :| e in entries[..n + 1] && e.name == p;
    }
    forall p | p in b ensures p in a {
      if p == entries[n].name {
        assert entries[n] in entries[..n + 1];
      } else {
        var e :| e in entries[..n] && e.name == p;
        assert e in entries[..n + 1];
      }
    }
  }

  method BuildTree(entries: seq<Entry>) returns (directoryTree: DirTree, lookup: map<Path, Entry>)
    ensures directoryTree == TreeOf(Names(entries)) && lookup == Lookup(entries)
  {
    directoryTree, lookup := map[], map[];
    for i := 0 to |entries|
      invariant directoryTree == TreeOf(Names(entries[..i])) && lookup == Lookup(entries[..i])
    {
      assert entries[..i + 1][..i] == entries[..i];
      if entries[i].name !in lookup {
        lookup := lookup[entries[i].name := entries[i]];
      }
      NamesSnoc(entries, i);
      directoryTree := AddName(directoryTree, entries[i].name, Names(entries[..i]));
    }
    assert entries[..|entries|] == entries;
  }
}
