/** The walk of `getAncestors` (src/tree-store.ts), stated over any map whose entries
    resolve to records of the input, so that facts about the walk do not depend on how
    the map was built. */
module Ancestors {
  import opened Records
  import opened Adjacency
  import opened Ranking

  /** The lookup `get` performs: the record stored under `k`, if any. */
  function Lookup(adj: map<Id, Adjacency>, k: Id): Option<Item> {
    if k in adj then Some(adj[k].item) else None
  }

  /** Every entry of `adj` holds a record of `items` with the entry's own id. */
  ghost predicate Resolves(items: seq<Item>, adj: map<Id, Adjacency>) {
    forall k :: k in adj ==> adj[k].item in items && adj[k].item.id == k
  }

  /** One hop of the walk from `p`: its `parent` looked up in `adj`, which lands on a
      record of higher rank. */
  lemma HopRaisesRank(items: seq<Item>, adj: map<Id, Adjacency>, p: Item)
    requires Acyclic(items) && Resolves(items, adj) && p in items
    ensures p.id in RankOf(items) && RankOf(items)[p.id] < |items|
    ensures var q := Lookup(adj, p.parent); q.Some? ==>
      && q.value in items && q.value.id == p.parent
      && q.value.id in RankOf(items) && RankOf(items)[p.id] < RankOf(items)[q.value.id] < |items|
  {
    RankBound(items, RankOf(items), p);
    var q := Lookup(adj, p.parent);
    if q.Some? {
      RankStep(items, RankOf(items), p, q.value);
      RankBound(items, RankOf(items), q.value);
    }
  }

  /** The records the loop of `getAncestors` collects once it holds the hop `p`: `p`
      itself, then the lookup of each collected record's `parent`, until a lookup fails. */
  ghost function Walk(items: seq<Item>, adj: map<Id, Adjacency>, p: Option<Item>): seq<Item>
    requires Acyclic(items) && Resolves(items, adj) && (p.Some? ==> p.value in items)
    decreases if p.Some? && p.value.id in RankOf(items) then |items| - RankOf(items)[p.value.id] else 0
  {
    if p.None? then []
    else
      HopRaisesRank(items, adj, p.value);
      [p.value] + Walk(items, adj, Lookup(adj, p.value.parent))
  }

  /** One turn of the loop: moving the hop `p` onto the collected records `r` keeps
      `r` followed by the rest of the walk unchanged. */
  lemma WalkStep(items: seq<Item>, adj: map<Id, Adjacency>, r: seq<Item>, p: Item)
    requires Acyclic(items) && Resolves(items, adj) && p in items
    ensures Lookup(adj, p.parent).Some? ==> Lookup(adj, p.parent).value in items
    ensures r + Walk(items, adj, Some(p)) == (r + [p]) + Walk(items, adj, Lookup(adj, p.parent))
  {
    HopRaisesRank(items, adj, p);
  }

  /** The walk starts at the hop it is given, each later record is the lookup of the
      previous record's `parent`, and the last record's `parent` does not resolve. */
  lemma {:induction false} WalkLinks(items: seq<Item>, adj: map<Id, Adjacency>, p: Option<Item>)
    requires Acyclic(items) && Resolves(items, adj) && (p.Some? ==> p.value in items)
    ensures var r := Walk(items, adj, p);
      && (r == [] <==> p.None?)
      && (p.Some? ==> r[0] == p.value)
      && (forall j :: 0 < j < |r| ==> Lookup(adj, r[j - 1].parent) == Some(r[j]))
      && (r != [] ==> Lookup(adj, r[|r| - 1].parent).None?)
    decreases if p.Some? && p.value.id in RankOf(items) then |items| - RankOf(items)[p.value.id] else 0
  {
    if p.Some? {
      var q := Lookup(adj, p.value.parent);
      HopRaisesRank(items, adj, p.value);
      WalkLinks(items, adj, q);
      var r := Walk(items, adj, p);
      assert forall j :: 0 < j < |r| ==> r[j] == Walk(items, adj, q)[j - 1];
    }
  }

  /** The clauses of `WalkLinks` determine the walk: any list that starts at the hop `p`,
      links each record to the lookup of the previous one's `parent` and ends where a
      lookup fails is the walk itself. */
  lemma {:induction false} WalkUnique(items: seq<Item>, adj: map<Id, Adjacency>, p: Option<Item>, r: seq<Item>)
    requires Acyclic(items) && Resolves(items, adj) && (p.Some? ==> p.value in items)
    requires r == [] <==> p.None?
    requires p.Some? ==> r[0] == p.value
    requires forall j :: 0 < j < |r| ==> Lookup(adj, r[j - 1].parent) == Some(r[j])
    requires r != [] ==> Lookup(adj, r[|r| - 1].parent).None?
    ensures r == Walk(items, adj, p)
    decreases |r|
  {
    if p.Some? {
      var q := Lookup(adj, p.value.parent);
      HopRaisesRank(items, adj, p.value);
      var t := r[1..];
      if |r| > 1 {
        assert q == Some(r[1]);
      }
      forall j | 0 < j < |t| ensures Lookup(adj, t[j - 1].parent) == Some(t[j]) {
        assert t[j - 1] == r[j] && t[j] == r[j + 1];
      }
      WalkUnique(items, adj, q, t);
      assert r == [p.value] + t;
    }
  }

  /** Every record of the walk after `p` lies above `p` in rank. */
  lemma {:induction false} WalkRises(items: seq<Item>, adj: map<Id, Adjacency>, p: Item)
    requires Acyclic(items) && Resolves(items, adj) && p in items
    ensures p.id in RankOf(items)
    ensures forall j :: 0 < j < |Walk(items, adj, Some(p))| ==>
      Walk(items, adj, Some(p))[j] in items &&
      Walk(items, adj, Some(p))[j].id in RankOf(items) &&
      RankOf(items)[p.id] < RankOf(items)[Walk(items, adj, Some(p))[j].id]
    decreases |items| - RankOf(items)[p.id]
  {
    HopRaisesRank(items, adj, p);
    var q := Lookup(adj, p.parent);
    var r := Walk(items, adj, Some(p));
    if q.Some? {
      WalkRises(items, adj, q.value);
      var t := Walk(items, adj, q);
      assert r == [p] + t;
      assert t[0] == q.value;
      forall j | 0 < j < |r| ensures r[j] in items && r[j].id in RankOf(items) && RankOf(items)[p.id] < RankOf(items)[r[j].id] {
        assert r[j] == t[j - 1];
      }
    } else {
      assert Walk(items, adj, q) == [];
    }
  }

  /** The walk never returns to an id: it visits each ancestor at most once. */
  lemma {:induction false} WalkDistinct(items: seq<Item>, adj: map<Id, Adjacency>, p: Option<Item>)
    requires Acyclic(items) && Resolves(items, adj) && (p.Some? ==> p.value in items)
    ensures forall j, k :: 0 <= j < k < |Walk(items, adj, p)| ==> Walk(items, adj, p)[j].id != Walk(items, adj, p)[k].id
    decreases if p.Some? && p.value.id in RankOf(items) then |items| - RankOf(items)[p.value.id] else 0
  {
    if p.Some? {
      HopRaisesRank(items, adj, p.value);
      var q := Lookup(adj, p.value.parent);
      WalkRises(items, adj, p.value);
      WalkDistinct(items, adj, q);
      var r := Walk(items, adj, p);
      var t := Walk(items, adj, q);
      assert r == [p.value] + t;
      forall j, k | 0 <= j < k < |r| ensures r[j].id != r[k].id {
        if j > 0 {
          assert r[j] == t[j - 1] && r[k] == t[k - 1];
        }
      }
    }
  }
}
