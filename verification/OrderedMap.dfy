/** The insertion-ordered map: a linked list of entries and a table from keys to list positions. */
module OrderedMap {
  import opened Wrappers
  /** A list node; its id stands for the stable list iterator that the table stores. */
  datatype Node<+V> = Node(id: nat, key: nat, val: V)

  // ----- entry sequences: what the map means -----

  /** All entries but those with key k, in order. */
  function Without<V>(c: seq<(nat, V)>, k: nat): (r: seq<(nat, V)>) {
    if c == [] then [] else (if c[0].0 == k then [] else [c[0]]) + Without(c[1..], k)
  }

  predicate DistinctKeys<V>(c: seq<(nat, V)>) {
    forall i, j :: 0 <= i < j < |c| ==> c[i].0 != c[j].0
  }

  ghost predicate Has<V>(c: seq<(nat, V)>, k: nat) {
    exists i :: 0 <= i < |c| && c[i].0 == k
  }

  lemma {:induction false} WithoutAbsent<V>(c: seq<(nat, V)>, k: nat)
    requires !Has(c, k)
    ensures Without(c, k) == c
  {
    if c != [] {
      assert c[0].0 != k;
      forall i | 0 <= i < |c[1..]| ensures c[1..][i].0 != k {
        assert c[i + 1].0 != k;
      }
      WithoutAbsent(c[1..], k);
    }
  }

  lemma {:induction false} WithoutAppend<V>(a: seq<(nat, V)>, b: seq<(nat, V)>, k: nat)
    ensures Without(a + b, k) == Without(a, k) + Without(b, k)
  {
    if a == [] {
      assert a + b == b;
    } else {
      assert (a + b)[1..] == a[1..] + b;
      WithoutAppend(a[1..], b, k);
    }
  }

  /** With distinct keys, removing a key removes exactly its one entry. */
  lemma {:induction false} WithoutAt<V>(c: seq<(nat, V)>, i: nat)
    requires DistinctKeys(c) && i < |c|
    ensures Without(c, c[i].0) == c[..i] + c[i + 1..]
    decreases i
  {
    var k, t := c[i].0, c[1..];
    if i == 0 {
      WithoutAbsent(t, k);
    } else {
      assert t[i - 1] == c[i] && c[0].0 != k;
      WithoutAt(t, i - 1);
      FrontOf(c, i);
    }
  }

  lemma FrontOf<T>(c: seq<T>, i: nat)
    requires 0 < i < |c|
    ensures [c[0]] + (c[1..][..i - 1] + c[1..][i..]) == c[..i] + c[i + 1..]
  {
  }

  lemma {:induction false} WithoutHasNot<V>(c: seq<(nat, V)>, k: nat)
    ensures !Has(Without(c, k), k)
  {
    if c != [] {
      WithoutHasNot(c[1..], k);
      var r := Without(c[1..], k);
      assert forall i :: 0 <= i < |r| ==> r[i].0 != k;
    }
  }

  // ----- list and table kept in step -----

  ghost function KeysOf<V>(data: seq<Node<V>>): (s: set<nat>) {
    set i | 0 <= i < |data| :: data[i].key
  }

  function ContentsOf<V>(data: seq<Node<V>>): (c: seq<(nat, V)>)
    ensures |c| == |data| && forall i :: 0 <= i < |data| ==> c[i] == (data[i].key, data[i].val)
  {
    seq(|data|, i requires 0 <= i < |data| => (data[i].key, data[i].val))
  }

  /** Node ids are distinct, and the table points every key at its node. */
  ghost predicate Linked<V>(data: seq<Node<V>>, lookup: map<nat, nat>, nextId: nat) {
    && (forall i :: 0 <= i < |data| ==> data[i].id < nextId && data[i].key in lookup && lookup[data[i].key] == data[i].id)
    && (forall i, j :: 0 <= i < j < |data| ==> data[i].id != data[j].id)
    && lookup.Keys == KeysOf(data)
  }

  lemma LinkedKeys<V>(data: seq<Node<V>>, lookup: map<nat, nat>, nextId: nat)
    requires Linked(data, lookup, nextId)
    ensures DistinctKeys(ContentsOf(data))
    ensures forall k :: k in lookup <==> Has(ContentsOf(data), k)
    ensures forall i, j :: 0 <= i < j < |data| ==> data[i].key != data[j].key
  {
    var c := ContentsOf(data);
    forall i, j | 0 <= i < j < |data| ensures data[i].key != data[j].key && c[i].0 != c[j].0 {
      assert data[i].id != data[j].id;
    }
    forall k ensures k in lookup <==> Has(c, k) {
      if k in lookup {
        var i :| 0 <= i < |data| && data[i].key == k;
        assert c[i].0 == k;
      }
      if Has(c, k) {
        var i :| 0 <= i < |c| && c[i].0 == k;
        assert data[i].key == k;
      }
    }
  }

  lemma LinkedAppend<V>(data: seq<Node<V>>, lookup: map<nat, nat>, nextId: nat, key: nat, value: V)
    requires Linked(data, lookup, nextId) && key !in lookup
    ensures var data' := data + [Node(nextId, key, value)];
            && Linked(data', lookup[key := nextId], nextId + 1)
            && ContentsOf(data') == ContentsOf(data) + [(key, value)]
  {
    var data' := data + [Node(nextId, key, value)];
    assert KeysOf(data') == KeysOf(data) + {key} by {
      assert data'[|data|].key == key;
      assert forall i :: 0 <= i < |data| ==> data'[i].key == data[i].key;
    }
  }

  lemma LinkedRemove<V>(data: seq<Node<V>>, lookup: map<nat, nat>, nextId: nat, i: nat)
    requires Linked(data, lookup, nextId) && i < |data|
    ensures var data' := data[..i] + data[i + 1..];
            && Linked(data', lookup - {data[i].key}, nextId)
            && ContentsOf(data') == Without(ContentsOf(data), data[i].key)
  {
    LinkedKeys(data, lookup, nextId);
    RemovedKeys(data, i);
    RemovedLinks(data, lookup, nextId, i);
    hide KeysOf;
    hide Linked;
    hide Without;
    WithoutAt(ContentsOf(data), i);
    RemovedContents(data, i);
  }

  lemma RemovedContents<V>(data: seq<Node<V>>, i: nat)
    requires i < |data|
    ensures ContentsOf(data[..i] + data[i + 1..]) == ContentsOf(data)[..i] + ContentsOf(data)[i + 1..]
  {
  }

  lemma RemovedLinks<V>(data: seq<Node<V>>, lookup: map<nat, nat>, nextId: nat, i: nat)
    requires Linked(data, lookup, nextId) && i < |data|
    requires KeysOf(data[..i] + data[i + 1..]) == KeysOf(data) - {data[i].key}
    requires forall k, l :: 0 <= k < l < |data| ==> data[k].key != data[l].key
    ensures Linked(data[..i] + data[i + 1..], lookup - {data[i].key}, nextId)
  {
    var data' := data[..i] + data[i + 1..];
    hide KeysOf;
    assert forall k :: 0 <= k < |data'| ==> data'[k] == data[if k < i then k else k + 1];
  }

  lemma RemovedKeys<V>(data: seq<Node<V>>, i: nat)
    requires i < |data| && forall k, l :: 0 <= k < l < |data| ==> data[k].key != data[l].key
    ensures KeysOf(data[..i] + data[i + 1..]) == KeysOf(data) - {data[i].key}
  {
    var data' := data[..i] + data[i + 1..];
    assert forall k :: 0 <= k < |data'| ==> data'[k] == data[if k < i then k else k + 1];
    forall key | key in KeysOf(data) && key != data[i].key ensures key in KeysOf(data') {
      var k :| 0 <= k < |data| && data[k].key == key;
      assert data'[if k < i then k else k - 1].key == key;
    }
  }

  lemma LinkedTouch<V>(data: seq<Node<V>>, lookup: map<nat, nat>, nextId: nat, i: nat)
    requires Linked(data, lookup, nextId) && i < |data|
    ensures var key, val := data[i].key, data[i].val;
            var data1 := data + [Node(nextId, key, val)];
            var data' := data1[..i] + data1[i + 1..];
            && Linked(data', lookup[key := nextId], nextId + 1)
            && ContentsOf(data') == Without(ContentsOf(data), key) + [(key, val)]
  {
    var key, val := data[i].key, data[i].val;
    var rest, node := data[..i] + data[i + 1..], Node(nextId, key, val);
    LinkedRemove(data, lookup, nextId, i);
    hide Linked;
    hide ContentsOf;
    hide Without;
    LinkedAppend(rest, lookup - {key}, nextId, key, val);
    assert (data + [node])[..i] + (data + [node])[i + 1..] == rest + [node];
    assert lookup[key := nextId] == (lookup - {key})[key := nextId];
  }

  lemma LinkedUpdate<V>(data: seq<Node<V>>, lookup: map<nat, nat>, nextId: nat, i: nat, value: V)
    requires Linked(data, lookup, nextId) && i < |data|
    ensures Linked(data[i := data[i].(val := value)], lookup, nextId)
  {
    var data' := data[i := data[i].(val := value)];
    assert forall k :: 0 <= k < |data| ==> data'[k].key == data[k].key && data'[k].id == data[k].id;
    assert KeysOf(data') == KeysOf(data);
  }

  // ----- the map -----

  function IndexOf<V>(data: seq<Node<V>>, id: nat): (i: nat)
    requires exists k :: 0 <= k < |data| && data[k].id == id
    ensures i < |data| && data[i].id == id
  {
    if data[0].id == id then 0
    else
      var k :| 0 <= k < |data| && data[k].id == id;
      assert data[1..][k - 1].id == id;
      1 + IndexOf(data[1..], id)
  }

  /** A known key has exactly one node, the one its table entry points at. */
  lemma NodeOf<V>(data: seq<Node<V>>, lookup: map<nat, nat>, nextId: nat, key: nat)
    requires Linked(data, lookup, nextId) && key in lookup
    ensures exists k :: 0 <= k < |data| && data[k].id == lookup[key]
    ensures forall k :: 0 <= k < |data| && data[k].id == lookup[key] ==> data[k].key == key
  {
    var k :| 0 <= k < |data| && data[k].key == key;
    assert data[k].id == lookup[key];
    forall j | 0 <= j < |data| && data[j].id == lookup[key] ensures j == k {
    }
  }

  class OrderedMap<V> {
    var data: seq<Node<V>>
    var lookup: map<nat, nat>
    var nextId: nat

    ghost predicate Valid()
      reads this
    {
      Linked(data, lookup, nextId)
    }

    ghost function Contents(): (c: seq<(nat, V)>)
      reads this
    {
      ContentsOf(data)
    }

    constructor ()
      ensures Valid() && Contents() == []
    {
      data, lookup, nextId := [], map[], 0;
    }

    /** The list position of a key, if it has one. */
    method Find(key: nat) returns (it: Option<nat>)
      requires Valid()
      ensures it.Some? <==> Has(Contents(), key)
      ensures it.Some? <==> key in lookup
      ensures it.Some? ==> it.value < |data| && data[it.value].key == key
    {
      LinkedKeys(data, lookup, nextId);
      if key !in lookup {
        return None;
      }
      NodeOf(data, lookup, nextId, key);
      hide Linked;
      hide Has;
      hide IndexOf;
      return Some(IndexOf(data, lookup[key]));
    }

    method PushBack(key: nat, value: V)
      requires Valid() && key !in lookup
      modifies this
      ensures Valid() && Contents() == old(Contents()) + [(key, value)]
    {
      LinkedAppend(data, lookup, nextId, key, value);
      data, lookup, nextId := data + [Node(nextId, key, value)], lookup[key := nextId], nextId + 1;
    }

    method Erase(key: nat) returns (found: bool)
      requires Valid()
      modifies this
      ensures Valid() && found == Has(old(Contents()), key) && key !in lookup
      ensures Contents() == Without(old(Contents()), key)
    {
      var it := Find(key);
      if it.None? {
        WithoutAbsent(Contents(), key);
        return false;
      }
      LinkedRemove(data, lookup, nextId, it.value);
      lookup := lookup - {key};
      data := data[..it.value] + data[it.value + 1..];
      return true;
    }

    /** Sets the value of a key, appending the key if it is new. */
    method Insert(key: nat, value: V)
      requires Valid()
      modifies this
      ensures Valid()
      ensures !Has(old(Contents()), key) ==> Contents() == old(Contents()) + [(key, value)]
      ensures Has(old(Contents()), key) ==> exists i ::
                0 <= i < |old(Contents())| && old(Contents())[i].0 == key && Contents() == old(Contents())[i := (key, value)]
    {
      var it := Find(key);
      if it.Some? {
        var i := it.value;
        LinkedUpdate(data, lookup, nextId, i, value);
        data := data[i := data[i].(val := value)];
        assert old(Contents())[i].0 == key && Contents() == old(Contents())[i := (key, value)];
      } else {
        PushBack(key, value);
      }
    }

    /** Erases the key if present, then appends it. */
    method Emplace(key: nat, value: V)
      requires Valid()
      modifies this
      ensures Valid() && Contents() == Without(old(Contents()), key) + [(key, value)]
    {
      var it := Find(key);
      if it.Some? {
        var _ := Erase(key);
      } else {
        WithoutAbsent(Contents(), key);
      }
      PushBack(key, value);
    }

    /** Moves a key to the end and returns its value; None is the exception for a missing key. */
    method Touch(key: nat) returns (v: Option<V>)
      requires Valid()
      modifies this
      ensures Valid() && (v.Some? <==> Has(old(Contents()), key))
      ensures v.None? ==> Contents() == old(Contents())
      ensures v.Some? ==> (key, v.value) in old(Contents())
      ensures v.Some? ==> Contents() == Without(old(Contents()), key) + [(key, v.value)]
    {
      var it := Find(key);
      if it.None? {
        return None;
      }
      var i := it.value;
      var value := data[i].val;
      assert Contents()[i] == (key, value);
      LinkedTouch(data, lookup, nextId, i);
      data := data + [Node(nextId, key, value)];
      data := data[..i] + data[i + 1..];
      lookup := lookup[key := nextId];
      nextId := nextId + 1;
      return Some(value);
    }
  }
}
