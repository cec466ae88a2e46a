/** The memo cache: recursive functions called through a bounded, recency-ordered cache. */
module LruCache {
  import opened Wrappers
  import opened OrderedMap

  // ----- recursive functions -----

  /** What a function does next, given the answers to its recursive calls so far. */
  datatype Next<K, V> = Done(value: V) | Ask(arg: K)

  /** A function written as an interaction, with a rank that its recursive calls lower and a bound
      on how many it makes; and the hash of its arguments. */
  datatype Func<!K, !V> = Func(step: (K, seq<V>) -> Next<K, V>, rank: K -> nat, limit: K -> nat, hash: K -> nat)

  ghost predicate WellFounded<K(!new), V(!new)>(f: Func<K, V>) {
    forall x, ans :: f.step(x, ans).Ask? ==> |ans| < f.limit(x) && f.rank(f.step(x, ans).arg) < f.rank(x)
  }

  /** The value of the function, computed without any cache. */
  ghost function Eval<K(!new), V(!new)>(f: Func<K, V>, x: K, ans: seq<V> := []): (v: V)
    requires WellFounded(f)
    decreases f.rank(x), if |ans| < f.limit(x) then f.limit(x) - |ans| else 0
  {
    match f.step(x, ans)
    case Done(v) => v
    case Ask(y) => Eval(f, x, ans + [Eval(f, y)])
  }

  /** Arguments with one hash have one value; a collision-free hash is the usual reason. */
  ghost predicate Compatible<K(!new), V(!new)>(f: Func<K, V>)
    requires WellFounded(f)
  {
    forall x, y :: f.hash(x) == f.hash(y) ==> Eval(f, x) == Eval(f, y)
  }

  // ----- recency -----

  function RemoveKey(s: seq<nat>, k: nat): (r: seq<nat>) {
    if s == [] then [] else (if s[0] == k then [] else [s[0]]) + RemoveKey(s[1..], k)
  }

  /** The keys used, each once, in order of last use. */
  ghost function Uses(log: seq<nat>): (r: seq<nat>) {
    if log == [] then []
    else RemoveKey(Uses(log[..|log| - 1]), log[|log| - 1]) + [log[|log| - 1]]
  }

  function Keys<V>(c: seq<(nat, V)>): (s: seq<nat>)
    ensures |s| == |c| && forall i :: 0 <= i < |c| ==> s[i] == c[i].0
  {
    seq(|c|, i requires 0 <= i < |c| => c[i].0)
  }

  ghost predicate IsSuffix(s: seq<nat>, t: seq<nat>) {
    exists a :: t == a + s
  }

  function Last<T>(s: seq<T>, n: nat): (r: seq<T>) {
    if |s| <= n then s else s[|s| - n..]
  }

  lemma {:induction false} RemoveKeyAppend(a: seq<nat>, b: seq<nat>, k: nat)
    ensures RemoveKey(a + b, k) == RemoveKey(a, k) + RemoveKey(b, k)
  {
    if a == [] {
      assert a + b == b;
    } else {
      assert (a + b)[1..] == a[1..] + b;
      RemoveKeyAppend(a[1..], b, k);
    }
  }

  lemma {:induction false} KeysWithout<V>(c: seq<(nat, V)>, k: nat)
    ensures Keys(Without(c, k)) == RemoveKey(Keys(c), k)
  {
    if c != [] {
      KeysWithout(c[1..], k);
      assert Keys(c)[1..] == Keys(c[1..]);
    }
  }

  /** Using a key moves it to the end of both the cache and the list of all keys by last use. */
  lemma SuffixUse(s: seq<nat>, u: seq<nat>, k: nat)
    requires IsSuffix(s, u)
    ensures IsSuffix(RemoveKey(s, k) + [k], RemoveKey(u, k) + [k])
  {
    var a :| u == a + s;
    RemoveKeyAppend(a, s, k);
    assert RemoveKey(u, k) + [k] == RemoveKey(a, k) + (RemoveKey(s, k) + [k]);
  }

  lemma SuffixLast(s: seq<nat>, u: seq<nat>, n: nat)
    requires IsSuffix(s, u)
    ensures IsSuffix(Last(s, n), u)
  {
    if |s| > n {
      var a :| u == a + s;
      assert u == (a + s[..|s| - n]) + s[|s| - n..];
    }
  }

  lemma UsesSnoc(log: seq<nat>, k: nat)
    ensures Uses(log + [k]) == RemoveKey(Uses(log), k) + [k]
  {
    assert (log + [k])[..|log|] == log;
  }

  lemma {:induction false} WithoutSubset<V>(c: seq<(nat, V)>, k: nat)
    ensures forall e :: e in Without(c, k) ==> e in c
    ensures |Without(c, k)| <= |c|
  {
    if c != [] {
      WithoutSubset(c[1..], k);
    }
  }

  // ----- what a call does -----

  /** The value a call returns and the entries it leaves, in order of use. */
  datatype After<V> = After(value: V, entries: seq<(nat, V)>)

  /** The value stored for a key. */
  function Stored<V>(c: seq<(nat, V)>, k: nat): (v: V)
    requires Has(c, k)
    ensures (k, v) in c
  {
    if c[0].0 == k then c[0].1
    else
      assert Has(c[1..], k) by {
        var i :| 0 <= i < |c| && c[i].0 == k;
        assert c[1..][i - 1].0 == k;
      }
      Stored(c[1..], k)
  }

  /** The entries after using a key: it becomes the newest, and the oldest beyond the capacity go. */
  function Use<V>(c: seq<(nat, V)>, k: nat, v: V, n: nat): (r: seq<(nat, V)>) {
    Last(Without(c, k) + [(k, v)], n)
  }

  /** A call on a cache with entries c and capacity n: a stored value, or the function run with its
      recursive calls going through the same cache. */
  ghost function CallOn<K(!new), V(!new)>(f: Func<K, V>, c: seq<(nat, V)>, x: K, n: nat): (r: After<V>)
    requires WellFounded(f)
    decreases f.rank(x), 1, 0
  {
    var key := f.hash(x);
    var r := if Has(c, key) then After(Stored(c, key), c) else RunOn(f, c, x, [], n);
    After(r.value, Use(r.entries, key, r.value, n))
  }

  ghost function RunOn<K(!new), V(!new)>(f: Func<K, V>, c: seq<(nat, V)>, x: K, ans: seq<V>, n: nat): (r: After<V>)
    requires WellFounded(f)
    decreases f.rank(x), 0, if |ans| < f.limit(x) then f.limit(x) - |ans| else 0
  {
    match f.step(x, ans)
    case Done(v) => After(v, c)
    case Ask(y) =>
      var a := CallOn(f, c, y, n);
      RunOn(f, a.entries, x, ans + [a.value], n)
  }

  /** How many calls, the recursive ones included, are served from the cache and how many are not. */
  datatype Tally = Tally(hits: nat, misses: nat)

  ghost function CallTally<K(!new), V(!new)>(f: Func<K, V>, c: seq<(nat, V)>, x: K, n: nat): (t: Tally)
    requires WellFounded(f)
    decreases f.rank(x), 1, 0
  {
    if Has(c, f.hash(x)) then Tally(1, 0)
    else
      var t := RunTally(f, c, x, [], n);
      Tally(t.hits, t.misses + 1)
  }

  ghost function RunTally<K(!new), V(!new)>(f: Func<K, V>, c: seq<(nat, V)>, x: K, ans: seq<V>, n: nat): (t: Tally)
    requires WellFounded(f)
    decreases f.rank(x), 0, if |ans| < f.limit(x) then f.limit(x) - |ans| else 0
  {
    match f.step(x, ans)
    case Done(_) => Tally(0, 0)
    case Ask(y) =>
      var a, t := CallOn(f, c, y, n), CallTally(f, c, y, n);
      var u := RunTally(f, a.entries, x, ans + [a.value], n);
      Tally(t.hits + u.hits, t.misses + u.misses)
  }

  lemma CallHits<K(!new), V(!new)>(f: Func<K, V>, c: seq<(nat, V)>, x: K, n: nat)
    requires WellFounded(f) && Has(c, f.hash(x))
    ensures var v := Stored(c, f.hash(x));
            CallOn(f, c, x, n) == After(v, Use(c, f.hash(x), v, n)) && CallTally(f, c, x, n) == Tally(1, 0)
  {
    hide Use;
    hide Stored;
  }

  lemma CallMisses<K(!new), V(!new)>(f: Func<K, V>, c: seq<(nat, V)>, x: K, n: nat)
    requires WellFounded(f) && !Has(c, f.hash(x))
    ensures var a, t := RunOn(f, c, x, [], n), RunTally(f, c, x, [], n);
            && CallOn(f, c, x, n) == After(a.value, Use(a.entries, f.hash(x), a.value, n))
            && CallTally(f, c, x, n) == Tally(t.hits, t.misses + 1)
  {
    hide RunOn;
    hide RunTally;
    hide Use;
  }

  /** The entry just used is the newest. */
  lemma UseIsNewest<V>(c: seq<(nat, V)>, k: nat, v: V, n: nat)
    requires n >= 1
    ensures var r := Use(c, k, v, n);
            0 < |r| <= n && r[|r| - 1] == (k, v) && forall e :: e in r ==> e == (k, v) || e in c
  {
    WithoutSubset(c, k);
    var w := Without(c, k) + [(k, v)];
    assert forall e :: e in Last(w, n) ==> e in w;
  }

  /** A call leaves its own entry as the newest, within capacity: it is never evicted. */
  lemma CallIsNewest<K(!new), V(!new)>(f: Func<K, V>, c: seq<(nat, V)>, x: K, n: nat)
    requires WellFounded(f) && n >= 1
    ensures var a := CallOn(f, c, x, n);
            0 < |a.entries| <= n && a.entries[|a.entries| - 1] == (f.hash(x), a.value)
  {
    var key := f.hash(x);
    var r := if Has(c, key) then After(Stored(c, key), c) else RunOn(f, c, x, [], n);
    UseIsNewest(r.entries, key, r.value, n);
    hide Use;
    hide RunOn;
  }

  /** Every entry holds the value of every argument with its key. */
  ghost predicate AllRight<K(!new), V(!new)>(f: Func<K, V>, c: seq<(nat, V)>)
    requires WellFounded(f)
  {
    forall e, x :: e in c && f.hash(x) == e.0 ==> e.1 == Eval(f, x)
  }

  /** With compatible hashes, a cache with right entries returns the function's value and stays right. */
  lemma {:induction false} CallIsRight<K(!new), V(!new)>(f: Func<K, V>, c: seq<(nat, V)>, x: K, n: nat)
    requires WellFounded(f) && Compatible(f) && AllRight(f, c) && n >= 1
    ensures CallOn(f, c, x, n).value == Eval(f, x) && AllRight(f, CallOn(f, c, x, n).entries)
    decreases f.rank(x), 1, 0
  {
    var key := f.hash(x);
    if !Has(c, key) {
      RunIsRight(f, c, x, [], n);
    }
    var r := if Has(c, key) then After(Stored(c, key), c) else RunOn(f, c, x, [], n);
    UseIsNewest(r.entries, key, r.value, n);
    hide Use;
    hide RunOn;
  }

  lemma {:induction false} RunIsRight<K(!new), V(!new)>(f: Func<K, V>, c: seq<(nat, V)>, x: K, ans: seq<V>, n: nat)
    requires WellFounded(f) && Compatible(f) && AllRight(f, c) && n >= 1
    ensures RunOn(f, c, x, ans, n).value == Eval(f, x, ans) && AllRight(f, RunOn(f, c, x, ans, n).entries)
    decreases f.rank(x), 0, if |ans| < f.limit(x) then f.limit(x) - |ans| else 0
  {
    EvalStep(f, x, ans);
    if f.step(x, ans).Ask? {
      var y := f.step(x, ans).arg;
      CallIsRight(f, c, y, n);
      var a := CallOn(f, c, y, n);
      hide CallOn;
      hide Compatible;
      hide AllRight;
      RunIsRight(f, a.entries, x, ans + [a.value], n);
    }
  }

  lemma RightIfCompatible<K(!new), V(!new)>(f: Func<K, V>, c: seq<(nat, V)>, x: K, n: nat)
    requires WellFounded(f) && n >= 1
    ensures var a := CallOn(f, c, x, n);
            Compatible(f) && AllRight(f, c) ==> a.value == Eval(f, x) && AllRight(f, a.entries)
  {
    if Compatible(f) && AllRight(f, c) {
      CallIsRight(f, c, x, n);
    }
  }

  /** Whatever the cache holds, a second call with the same hash repeats the value of the first. */
  lemma SameHashSameValue<K(!new), V(!new)>(f: Func<K, V>, c: seq<(nat, V)>, x: K, y: K, n: nat)
    requires WellFounded(f) && n >= 1 && f.hash(x) == f.hash(y)
    ensures CallOn(f, CallOn(f, c, x, n).entries, y, n).value == CallOn(f, c, x, n).value
  {
    var key := f.hash(x);
    var r := if Has(c, key) then After(Stored(c, key), c) else RunOn(f, c, x, [], n);
    var a := CallOn(f, c, x, n);
    UseIsNewest(r.entries, key, r.value, n);
    assert Has(a.entries, key);
    OnlyOneStored(r.entries, key, r.value, n);
  }

  lemma OnlyOneStored<V>(c: seq<(nat, V)>, k: nat, v: V, n: nat)
    requires n >= 1
    ensures Has(Use(c, k, v, n), k) && Stored(Use(c, k, v, n), k) == v
  {
    WithoutHasNot(c, k);
    var w, r := Without(c, k) + [(k, v)], Use(c, k, v, n);
    assert r[|r| - 1] == (k, v);
    assert forall e :: e in r ==> e in w;
    assert (k, Stored(r, k)) in r;
    assert forall i :: 0 <= i < |Without(c, k)| ==> Without(c, k)[i].0 != k;
  }

  /** All calls of a sequence return the function's values. */
  ghost predicate CallsRight<K(!new), V(!new)>(f: Func<K, V>, c: seq<(nat, V)>, xs: seq<K>, n: nat)
    requires WellFounded(f)
    decreases |xs|
  {
    xs == [] || (CallOn(f, c, xs[0], n).value == Eval(f, xs[0]) && CallsRight(f, CallOn(f, c, xs[0], n).entries, xs[1..], n))
  }

  lemma {:induction false} CompatibleCallsRight<K(!new), V(!new)>(f: Func<K, V>, c: seq<(nat, V)>, xs: seq<K>, n: nat)
    requires WellFounded(f) && Compatible(f) && AllRight(f, c) && n >= 1
    ensures CallsRight(f, c, xs, n)
    decreases |xs|
  {
    if xs != [] {
      CallIsRight(f, c, xs[0], n);
      CompatibleCallsRight(f, CallOn(f, c, xs[0], n).entries, xs[1..], n);
    }
  }

  /** Every sequence of calls on a fresh cache is right. */
  ghost predicate AlwaysRight<K(!new), V(!new)>(f: Func<K, V>, n: nat)
    requires WellFounded(f)
  {
    forall xs: seq<K> :: CallsRight(f, [], xs, n)
  }

  /** This is so exactly when arguments with equal hashes have equal values; otherwise two calls are
      enough to return a wrong one. */
  lemma AlwaysRightIffCompatible<K(!new), V(!new)>(f: Func<K, V>, n: nat)
    requires WellFounded(f) && n >= 1
    ensures AlwaysRight(f, n) <==> Compatible(f)
  {
    if Compatible(f) {
      forall xs: seq<K> ensures CallsRight(f, [], xs, n) {
        CompatibleCallsRight(f, [], xs, n);
      }
      assert AlwaysRight(f, n);
    }
    if AlwaysRight(f, n) {
      forall x, y | f.hash(x) == f.hash(y) ensures Eval(f, x) == Eval(f, y) {
        TwoCallsDecide(f, x, y, n);
      }
    }
  }

  /** If both of two calls with the same hash are right, the function's values are the same. */
  lemma TwoCallsDecide<K(!new), V(!new)>(f: Func<K, V>, x: K, y: K, n: nat)
    requires WellFounded(f) && n >= 1 && f.hash(x) == f.hash(y) && CallsRight(f, [], [x, y], n)
    ensures Eval(f, x) == Eval(f, y)
  {
    assert [x, y][1..] == [y];
    var a := CallOn(f, [], x, n);
    assert CallsRight(f, a.entries, [y], n);
    SameHashSameValue(f, [], x, y, n);
    hide CallOn;
  }

  // ----- the cache -----

  class Cache<K(!new), V(!new)> {
    const f: Func<K, V>
    const cache: OrderedMap<V>
    var hits: nat
    var miss: nat
    var capacity: nat
    /** Keys in the order in which their calls were served. */
    ghost var log: seq<nat>

    ghost predicate Valid()
      reads this, cache
    {
      && cache.Valid() && WellFounded(f)
      && capacity >= 1 && |cache.Contents()| <= capacity
      && IsSuffix(Keys(cache.Contents()), Uses(log))
    }

    /** The counters have grown by this much, and the log by one key for each call. */
    ghost predicate Counted(hits0: nat, miss0: nat, log0: seq<nat>, t: Tally)
      reads this
    {
      hits == hits0 + t.hits && miss == miss0 + t.misses && log0 <= log && |log| == |log0| + t.hits + t.misses
    }

    constructor (f: Func<K, V>)
      requires WellFounded(f)
      ensures Valid() && fresh(cache) && this.f == f && capacity == 128 && cache.Contents() == [] && log == []
      ensures hits == 0 && miss == 0
    {
      this.f := f;
      cache := new OrderedMap<V>();
      hits, miss, capacity, log := 0, 0, 128, [];
      new;
      assert [] == [] + Keys(cache.Contents());
    }

    /** So much of the tally of a run has been counted that the rest of the run is left. */
    ghost predicate Left(hits0: nat, miss0: nat, log0: seq<nat>, x: K, ans: seq<V>, t: Tally)
      requires Valid()
      reads this, cache
    {
      var u := RunTally(f, cache.Contents(), x, ans, capacity);
      u.hits <= t.hits && u.misses <= t.misses && Counted(hits0, miss0, log0, Tally(t.hits - u.hits, t.misses - u.misses))
    }

    /** Pops entries from the front until the size is within capacity. */
    method EnsureCapacity()
      requires cache.Valid()
      modifies cache
      ensures cache.Valid() && cache.Contents() == Last(old(cache.Contents()), capacity)
    {
      while |cache.data| > capacity
        invariant cache.Valid() && Last(cache.Contents(), capacity) == Last(old(cache.Contents()), capacity)
        decreases |cache.data|
      {
        ghost var c := cache.Contents();
        var key := cache.data[0].key;
        LinkedKeys(cache.data, cache.lookup, cache.nextId);
        WithoutAt(c, 0);
        assert c[..0] + c[1..] == c[1..];
        var _ := cache.Erase(key);
        LastOfTail(c, capacity);
      }
    }

    /** A call: served from the cache if its key is there, else computed through the cache. With
        compatible hashes and right entries it returns the function's value. */
    method Call(x: K) returns (r: V)
      requires Valid()
      modifies this, cache
      ensures Valid() && capacity == old(capacity)
      ensures After(r, cache.Contents()) == CallOn(f, old(cache.Contents()), x, capacity)
      ensures Compatible(f) && AllRight(f, old(cache.Contents())) ==> r == Eval(f, x) && AllRight(f, cache.Contents())
      ensures Counted(old(hits), old(miss), old(log), CallTally(f, old(cache.Contents()), x, capacity))
      ensures log != [] && log[|log| - 1] == f.hash(x)
      decreases f.rank(x), 3
    {
      RightIfCompatible(f, cache.Contents(), x, capacity);
      hide Eval;
      hide CallOn;
      hide CallTally;
      hide Compatible;
      hide AllRight;
      hide IsSuffix;
      hide Uses;
      hide Linked;
      r := Serve(x);
    }

    method Serve(x: K) returns (r: V)
      requires Valid()
      modifies this, cache
      ensures capacity == old(capacity) && Served(old(cache.Contents()), old(hits), old(miss), old(log), x, r)
      decreases f.rank(x), 2
    {
      var it := cache.Find(f.hash(x));
      if it.None? {
        r := Miss(x);
      } else {
        r := ServeHit(x);
      }
    }

    /** What a call leaves, given the entries, counters and log before it. */
    ghost predicate Served(c: seq<(nat, V)>, hits0: nat, miss0: nat, log0: seq<nat>, x: K, r: V)
      reads this, cache
    {
      && Valid()
      && After(r, cache.Contents()) == CallOn(f, c, x, capacity)
      && Counted(hits0, miss0, log0, CallTally(f, c, x, capacity))
      && log != [] && log[|log| - 1] == f.hash(x)
    }

    method ServeHit(x: K) returns (r: V)
      requires Valid() && Has(cache.Contents(), f.hash(x))
      modifies this, cache
      ensures capacity == old(capacity) && Served(old(cache.Contents()), old(hits), old(miss), old(log), x, r)
    {
      hide Use;
      hide Stored;
      hide IsSuffix;
      hide Uses;
      hide Linked;
      CallHits(f, cache.Contents(), x, capacity);
      hide CallOn;
      hide CallTally;
      r := Hit(f.hash(x));
    }

    /** Computes and stores what is not in the cache. */
    method Miss(x: K) returns (r: V)
      requires Valid() && !Has(cache.Contents(), f.hash(x))
      modifies this, cache
      ensures capacity == old(capacity) && Served(old(cache.Contents()), old(hits), old(miss), old(log), x, r)
      decreases f.rank(x), 1
    {
      hide RunOn;
      hide RunTally;
      hide Use;
      hide IsSuffix;
      hide Uses;
      hide Linked;
      CallMisses(f, cache.Contents(), x, capacity);
      hide CallOn;
      hide CallTally;
      miss := miss + 1;
      r := Compute(x);
      Store(f.hash(x), r);
    }

    /** Serves a key that is in the cache. */
    method Hit(key: nat) returns (r: V)
      requires Valid() && Has(cache.Contents(), key)
      modifies this, cache
      ensures Valid() && capacity == old(capacity) && r == Stored(old(cache.Contents()), key)
      ensures cache.Contents() == Use(old(cache.Contents()), key, r, capacity)
      ensures Counted(old(hits), old(miss), old(log), Tally(1, 0)) && log != [] && log[|log| - 1] == key
    {
      ghost var c := cache.Contents();
      hide Has;
      hide Stored;
      hide Without;
      hide Uses;
      HitFits(c, key, Stored(c, key), capacity);
      UsedKey(c, log, key, Stored(c, key), capacity);
      hide IsSuffix;
      hits := hits + 1;
      r := TouchStored(key);
      log := log + [key];
    }

    method TouchStored(key: nat) returns (r: V)
      requires cache.Valid() && Has(cache.Contents(), key)
      modifies cache
      ensures cache.Valid() && r == Stored(old(cache.Contents()), key)
      ensures cache.Contents() == Without(old(cache.Contents()), key) + [(key, r)]
    {
      ghost var c := cache.Contents();
      LinkedKeys(cache.data, cache.lookup, cache.nextId);
      hide Linked;
      hide Stored;
      hide Without;
      var v := cache.Touch(key);
      r := v.value;
      StoredOnce(c, key, r);
    }

    /** Runs the function, its recursive calls going through the cache. */
    method Compute(x: K) returns (r: V)
      requires Valid()
      modifies this, cache
      ensures Valid() && capacity == old(capacity)
      ensures After(r, cache.Contents()) == RunOn(f, old(cache.Contents()), x, [], capacity)
      ensures Counted(old(hits), old(miss), old(log), RunTally(f, old(cache.Contents()), x, [], capacity))
      decreases f.rank(x), 0
    {
      var ans: seq<V> := [];
      var next := f.step(x, ans);
      hide CallOn;
      hide CallTally;
      hide IsSuffix;
      hide Has;
      while next.Ask?
        invariant Valid() && capacity == old(capacity) && next == f.step(x, ans)
        invariant RunOn(f, cache.Contents(), x, ans, capacity) == RunOn(f, old(cache.Contents()), x, [], capacity)
        invariant old(log) <= log && Left(old(hits), old(miss), old(log), x, ans, RunTally(f, old(cache.Contents()), x, [], capacity))
        decreases if |ans| < f.limit(x) then f.limit(x) - |ans| else 0
      {
        EvalStep(f, x, ans);
        var a := Call(next.arg);
        ans := ans + [a];
        next := f.step(x, ans);
      }
      r := next.value;
    }

    /** Puts a computed value at the end of the cache and evicts from the front. */
    method Store(key: nat, v: V)
      requires Valid()
      modifies cache, this`log
      ensures Valid() && log == old(log) + [key]
      ensures cache.Contents() == Use(old(cache.Contents()), key, v, capacity)
    {
      ghost var c := cache.Contents();
      cache.Emplace(key, v);
      EnsureCapacity();
      UsedKey(c, log, key, v, capacity);
      log := log + [key];
    }

    /** Changes the capacity, evicting from the front; false is the exception for capacity 0. */
    method Resize(n: nat) returns (ok: bool)
      requires Valid()
      modifies this, cache
      ensures Valid() && (ok <==> n > 0) && log == old(log) && hits == old(hits) && miss == old(miss)
      ensures ok ==> capacity == n && cache.Contents() == Last(old(cache.Contents()), n)
      ensures !ok ==> capacity == old(capacity) && cache.Contents() == old(cache.Contents())
    {
      if n == 0 {
        return false;
      }
      capacity := n;
      ghost var c := cache.Contents();
      EnsureCapacity();
      KeysLast(c, n);
      SuffixLast(Keys(c), Uses(log), n);
      return true;
    }
  }

  lemma {:induction false} StoredOnce<V>(c: seq<(nat, V)>, k: nat, v: V)
    requires DistinctKeys(c) && Has(c, k) && (k, v) in c
    ensures Stored(c, k) == v
  {
    var i :| 0 <= i < |c| && c[i] == (k, v);
    var j :| 0 <= j < |c| && c[j] == (k, Stored(c, k));
  }

  lemma EvalStep<K(!new), V(!new)>(f: Func<K, V>, x: K, ans: seq<V>)
    requires WellFounded(f)
    ensures f.step(x, ans).Done? ==> Eval(f, x, ans) == f.step(x, ans).value
    ensures f.step(x, ans).Ask? ==> Eval(f, x, ans) == Eval(f, x, ans + [Eval(f, f.step(x, ans).arg)])
    ensures f.step(x, ans).Ask? ==> |ans| < f.limit(x) && f.rank(f.step(x, ans).arg) < f.rank(x)
  {
  }

  lemma HitFits<V>(c: seq<(nat, V)>, k: nat, v: V, n: nat)
    requires Has(c, k) && |c| <= n
    ensures Last(Without(c, k) + [(k, v)], n) == Without(c, k) + [(k, v)]
  {
    WithoutShorter(c, k);
  }

  lemma {:induction false} WithoutShorter<V>(c: seq<(nat, V)>, k: nat)
    requires Has(c, k)
    ensures |Without(c, k)| < |c|
  {
    WithoutSubset(c[1..], k);
    if c[0].0 != k {
      var i :| 0 <= i < |c| && c[i].0 == k;
      assert c[1..][i - 1].0 == k;
      WithoutShorter(c[1..], k);
    }
  }

  lemma LastOfTail<T>(c: seq<T>, n: nat)
    requires |c| > n
    ensures Last(c[1..], n) == Last(c, n)
  {
  }

  lemma KeysLast<V>(c: seq<(nat, V)>, n: nat)
    ensures Keys(Last(c, n)) == Last(Keys(c), n)
  {
  }

  lemma KeysUsed<V>(c: seq<(nat, V)>, key: nat, v: V)
    ensures Keys(Without(c, key) + [(key, v)]) == RemoveKey(Keys(c), key) + [key]
  {
    hide RemoveKey;
    KeysWithout(c, key);
    hide Without;
  }

  /** The entries after a use: within capacity, in order of last use, the used key last. */
  lemma UsedKey<V>(c: seq<(nat, V)>, log: seq<nat>, key: nat, v: V, n: nat)
    requires IsSuffix(Keys(c), Uses(log)) && n >= 1
    ensures var r := Use(c, key, v, n);
            0 < |r| <= n && r[|r| - 1] == (key, v) && IsSuffix(Keys(r), Uses(log + [key]))
  {
    hide Uses;
    hide IsSuffix;
    hide Keys;
    hide Without;
    var w := Without(c, key) + [(key, v)];
    KeysUsed(c, key, v);
    SuffixUse(Keys(c), Uses(log), key);
    UsesSnoc(log, key);
    SuffixLast(Keys(w), Uses(log + [key]), n);
    KeysLast(w, n);
  }
}
