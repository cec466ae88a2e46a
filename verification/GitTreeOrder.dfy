/** The names of trees do not depend on the order in which hash sets are iterated. */
module GitTreeOrder {
  import opened GitTreeCodec
  import opened GitTreeBuild
  import opened GitTreeWrite

  lemma LeavesConcat(w: Work, a: seq<Path>, b: seq<Path>, k: nat)
    requires Good(w) && Listed(w, a, k) && Listed(w, b, k) && k <= Depth(w.entries)
    ensures Listed(w, a + b, k) && LeavesOf(w, a + b, k) == LeavesOf(w, a, k) + LeavesOf(w, b, k)
  {
    var l, m := LeavesOf(w, a + b, k), LeavesOf(w, a, k) + LeavesOf(w, b, k);
    forall i | 0 <= i < |a + b| ensures l[i] == m[i] {
      LeavesAt(w, a + b, k, i);
      if i < |a| {
        LeavesAt(w, a, k, i);
      } else {
        LeavesAt(w, b, k, i - |a|);
      }
    }
  }

  /** The leaves of a list with one path taken out. */
  lemma LeavesWithout(w: Work, ps: seq<Path>, k: nat, i: nat)
    requires Good(w) && Listed(w, ps, k) && k <= Depth(w.entries) && i < |ps|
    ensures var qs := ps[..i] + ps[i + 1..];
            && Listed(w, qs, k)
            && multiset(LeavesOf(w, ps, k)) == multiset(LeavesOf(w, qs, k)) + multiset{LeafOf(w, ps[i])}
  {
    var a, b, c := ps[..i], [ps[i]], ps[i + 1..];
    assert ps == a + b + c;
    LeavesConcat(w, a, b, k);
    LeavesConcat(w, a + b, c, k);
    LeavesConcat(w, a, c, k);
    assert b[..0] == [];
    assert LeavesOf(w, b, k) == [LeafOf(w, ps[i])];
  }

  lemma {:induction false} LeavesPermute(w: Work, ps: seq<Path>, qs: seq<Path>, k: nat)
    requires Good(w) && Listed(w, ps, k) && Listed(w, qs, k) && k <= Depth(w.entries) && multiset(ps) == multiset(qs)
    ensures multiset(LeavesOf(w, ps, k)) == multiset(LeavesOf(w, qs, k))
    decreases |ps|
  {
    hide Good;
    hide LeavesOf;
    hide LeafOf;
    hide Listed;
    if ps == [] {
      NoneInBoth(qs);
    } else {
      var j := Shared(ps, qs);
      LeavesWithout(w, ps, k, 0);
      LeavesWithout(w, qs, k, j);
      LeavesPermute(w, ps[..0] + ps[1..], qs[..j] + qs[j + 1..], k);
    }
  }

  lemma NoneInBoth(qs: seq<Path>)
    requires multiset(qs) == multiset([])
    ensures qs == []
  {
    assert |multiset(qs)| == 0;
  }

  /** The first path of one list is in the other; without it they are still permutations. */
  lemma Shared(ps: seq<Path>, qs: seq<Path>) returns (j: nat)
    requires ps != [] && multiset(ps) == multiset(qs)
    ensures j < |qs| && qs[j] == ps[0] && multiset(ps[..0] + ps[1..]) == multiset(qs[..j] + qs[j + 1..])
  {
    assert ps[0] in multiset(qs);
    j :| 0 <= j < |qs| && qs[j] == ps[0];
    WithoutOne(ps, 0);
    WithoutOne(qs, j);
  }

  lemma WithoutOne(ps: seq<Path>, i: nat)
    requires i < |ps|
    ensures multiset(ps[..i] + ps[i + 1..]) == multiset(ps) - multiset{ps[i]}
  {
    assert ps == ps[..i] + [ps[i]] + ps[i + 1..];
  }

  /** Two index runs that differ only in iteration order. */
  ghost predicate SameButOrder(w: Work, v: Work) {
    Good(w) && Good(v) && v == w.(order := v.order)
  }

  lemma LeafNames(w: Work, d: Path, a: Path, b: Path)
    requires Good(w) && a in Children(All(w), d) && b in Children(All(w), d)
    ensures Known(w, a) && Known(w, b)
    ensures SortKey(LeafOf(w, a)) == SortKey(LeafOf(w, b)) ==> a == b
  {
    ChildIsKnown(w, d, a);
    ChildIsKnown(w, d, b);
    NoSlash(w, d, a);
    NoSlash(w, d, b);
    hide Good;
    hide Children;
    hide All;
    hide Known;
    assert a == d + [FileName(a)] && b == d + [FileName(b)];
    hide SortKey;
    if SortKey(LeafOf(w, a)) == SortKey(LeafOf(w, b)) {
      KeyDecides(LeafOf(w, a), LeafOf(w, b));
    }
  }

  lemma NoSlash(w: Work, d: Path, c: Path)
    requires Good(w) && c in Children(All(w), d)
    ensures '/' !in FileName(c)
  {
    var n :| n in All(w) && Above(d, n) && c == n[..|d| + 1];
    var e :| e in w.entries && e.name == n;
    assert GoodEntry(e) && FileName(c) == n[|d|];
  }

  lemma KeyDecides(l: Leaf, m: Leaf)
    requires '/' !in l.path && '/' !in m.path && SortKey(l) == SortKey(m)
    ensures l.path == m.path
  {
    var a, b := SortKey(l), SortKey(m);
    if a == l.path + "/" {
      assert a[|a| - 1] == '/';
      assert b == m.path + "/";
      assert l.path == a[..|a| - 1] && m.path == b[..|b| - 1];
    }
  }

  lemma ChildLeavesDiffer(w: Work, d: Path)
    requires Good(w) && IsDir(w, d)
    ensures Listed(w, w.order(Children(All(w), d)), |d| + 1) && |d| < Depth(w.entries)
    ensures KeysDiffer(LeavesOf(w, w.order(Children(All(w), d)), |d| + 1))
  {
    OrderLists(w, d);
    var kids := w.order(Children(All(w), d));
    var ls := LeavesOf(w, kids, |d| + 1);
    forall x, y | x in ls && y in ls && SortKey(x) == SortKey(y) ensures x == y {
      var i :| 0 <= i < |ls| && ls[i] == x;
      var j :| 0 <= j < |ls| && ls[j] == y;
      LeavesAt(w, kids, |d| + 1, i);
      LeavesAt(w, kids, |d| + 1, j);
      assert kids[i] in multiset(kids) && kids[j] in multiset(kids);
      LeafNames(w, d, kids[i], kids[j]);
    }
  }

  /** The content of every tree, and so its name, is the same whatever the order. */
  lemma {:induction false} OrderIsIrrelevant(w: Work, v: Work, d: Path)
    requires SameButOrder(w, v) && IsDir(w, d)
    ensures TreeBytes(w, d) == TreeBytes(v, d)
    decreases Depth(w.entries) - |d|
  {
    OrderLists(w, d);
    OrderLists(v, d);
    var kids := Children(All(w), d);
    var ps, qs, k := w.order(kids), v.order(kids), |d| + 1;
    var ls, ms := LeavesOf(w, ps, k), LeavesOf(v, ps, k);
    forall i | 0 <= i < |ps| ensures ls[i] == ms[i] {
      LeavesAt(w, ps, k, i);
      LeavesAt(v, ps, k, i);
      if IsDir(w, ps[i]) {
        KnownIsShallow(w, ps[i]);
        OrderIsIrrelevant(w, v, ps[i]);
      }
    }
    assert ls == ms;
    LeavesPermute(v, ps, qs, k);
    ChildLeavesDiffer(w, d);
    SortIsCanonical(ls, LeavesOf(v, qs, k));
  }
}
