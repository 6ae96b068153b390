/** `TreeStore.createAdjacencyMap` (src/tree-store.ts:58-69): for every record, the entry
    `{ item, children, parent }`, collected into a `Map` keyed by the record's id. */
module Adjacency {
  import opened Records

  /** `TreeStoreItemAdjacency`: the record itself, its resolved parent (`null` as `None`)
      and its direct children. */
  datatype Adjacency = Adjacency(item: Item, parent: Option<Item>, children: seq<Item>)

  /** `items.filter((i) => i.parent === k)`: the records whose parent is `k`, in input order. */
  function Filter(items: seq<Item>, k: Id): seq<Item> {
    if items == [] then []
    else if items[0].parent == k then [items[0]] + Filter(items[1..], k)
    else Filter(items[1..], k)
  }

  /** The filter holds exactly the records whose parent is `k`, and no more of them than
      the input has. */
  lemma {:induction false} FilterMembers(items: seq<Item>, k: Id)
    ensures forall x :: x in Filter(items, k) <==> x in items && x.parent == k
    ensures |Filter(items, k)| <= |items|
  {
    if items != [] {
      FilterMembers(items[1..], k);
      assert forall x :: x in items <==> x == items[0] || x in items[1..];
    }
  }

  /** Filtering distributes over concatenation, so the filter keeps the input order. */
  lemma {:induction false} FilterAppend(a: seq<Item>, b: seq<Item>, k: Id)
    ensures Filter(a + b, k) == Filter(a, k) + Filter(b, k)
  {
    if a == [] {
      assert a + b == b;
    } else {
      assert (a + b)[1..] == a[1..] + b;
      FilterAppend(a[1..], b, k);
    }
  }

  /** `items.find((i) => k === i.id) ?? null`: the first record whose id is `k`. */
  function Find(items: seq<Item>, k: Id): (r: Option<Item>)
    ensures r.None? <==> forall j :: 0 <= j < |items| ==> items[j].id != k
    ensures forall j :: FirstWithId(items, k, j) ==> r == Some(items[j])
    ensures r.Some? ==> r.value in items && r.value.id == k
  {
    if items == [] then None
    else if items[0].id == k then Some(items[0])
    else
      var r := Find(items[1..], k);
      assert forall j :: FirstWithId(items, k, j) ==> j > 0 && FirstWithId(items[1..], k, j - 1);
      r
  }

  /** The entry `createAdjacencyMap` builds for one record. */
  function Entry(items: seq<Item>, it: Item): Adjacency {
    Adjacency(it, Find(items, it.parent), Filter(items, it.id))
  }

  /** `new Map(prefix.map(...))` keyed by id: the pairs of `prefix` are set one after the
      other, so for a repeated id the last record wins. */
  function LastById(prefix: seq<Item>): (m: map<Id, Item>)
    ensures m.Keys == Ids(prefix)
    ensures forall k, j :: LastWithId(prefix, k, j) ==> k in m && m[k] == prefix[j]
    decreases |prefix|
  {
    if prefix == [] then map[]
    else
      var n := |prefix| - 1;
      var m := LastById(prefix[..n]);
      assert Ids(prefix) == Ids(prefix[..n]) + {prefix[n].id} by {
        assert forall j :: 0 <= j < n ==> prefix[..n][j] == prefix[j];
      }
      assert forall k, j :: LastWithId(prefix, k, j) && j < n ==> LastWithId(prefix[..n], k, j);
      m[prefix[n].id := prefix[n]]
  }

  /** `createAdjacencyMap(items)`: one entry per id, built from the last record with it. */
  function CreateAdjacencyMap(items: seq<Item>): (m: map<Id, Adjacency>)
    ensures m.Keys == Ids(items)
    ensures forall k, j :: LastWithId(items, k, j) ==> k in m && m[k].item == items[j]
    ensures forall k :: k in m ==> m[k].item.id == k && m[k].item in items
    ensures forall k :: k in m ==> m[k].children == Filter(items, k)
    ensures forall k :: k in m ==> m[k].parent == Find(items, m[k].item.parent)
  {
    var last := LastById(items);
    forall k | k in last
      ensures exists j :: LastWithId(items, k, j)
    {
      LastExists(items, k);
    }
    map k | k in last :: Entry(items, last[k])
  }

  /** An id that occurs in `s` has a last occurrence. */
  lemma {:induction false} LastExists(s: seq<Item>, k: Id)
    requires k in Ids(s)
    ensures exists j :: LastWithId(s, k, j)
  {
    var j :| 0 <= j < |s| && s[j].id == k;
    while exists i :: j < i < |s| && s[i].id == k
      invariant 0 <= j < |s| && s[j].id == k
      decreases |s| - j
    {
      var i :| j < i < |s| && s[i].id == k;
      j := i;
    }
    assert LastWithId(s, k, j);
  }

  /** The children lists a freshly built store holds, one per id. */
  function InitialChildren(items: seq<Item>): (ch: map<Id, seq<Item>>)
    ensures ch.Keys == Ids(items)
    ensures forall k :: k in ch ==> ch[k] == Filter(items, k)
  {
    var adj := CreateAdjacencyMap(items);
    map k | k in adj :: adj[k].children
  }
}
