/** The `TreeStore` class of src/tree-store.ts. The adjacency map is built once; the
    records and each node's record and parent never change afterwards, while the stored
    children arrays are the mutable part: `getDescendants` pushes into them. */
module Store {
  import opened Records
  import opened Adjacency
  import opened Ranking
  import opened Descendants
  import opened DescendantsLaws
  import opened Ancestors
  import opened StoreShape

  /** The walk is about to visit index `i`: if the current pass is over, the next pass
      starts there and covers what the last one appended, with the bound one lower. */
  lemma PassTurn(items: seq<Item>, ch0: Children, ch: Children, id: Id, i: nat, end: nat, b: nat)
      returns (end': nat, b': nat)
    requires Turn(items, ch0, ch, id, i, end, b) && i < |ch[id]|
    ensures Turn(items, ch0, ch, id, i, end', b') && i < end'
    ensures (end' == end && b' == b) || b' < b
  {
    if i == end {
      NextPass(items, ch0, ch, id, i, end, b);
      end', b' := |ch[id]|, b - 1;
    } else {
      end', b' := end, b;
    }
  }

  class TreeStore {
    /** The records the store was built from, as given. */
    const items: seq<Item>
    /** Id to record, parent record and the children list as built. */
    const adjacencies: map<Id, Adjacency> := CreateAdjacencyMap(items)
    /** The current contents of the stored children arrays. */
    var children: Children

    /** The stored lists keep their shape (see `Shaped`). */
    ghost predicate Valid()
      reads this
    {
      Shaped(items, children)
    }

    /** No `getDescendants` call has extended any list yet. */
    ghost predicate Fresh()
      reads this
    {
      children == InitialChildren(items)
    }

    constructor (items: seq<Item>)
      ensures this.items == items
      ensures Valid() && Fresh()
    {
      this.items := items;
      children := InitialChildren(items);
      InitialShape(items);
      new;
      assert forall k :: k in children ==> Filter(items, k) <= children[k];
    }

    /** `getAll`: the records as given; `items` is never reassigned. */
    function GetAll(): (r: seq<Item>)
      ensures r == items
    {
      items
    }

    /** `get`: the last record in input order with exactly this id (no coercion between
        numbers and strings), or `None`. */
    function Get(id: Id): (r: Option<Item>)
      ensures r.None? <==> forall j :: 0 <= j < |items| ==> items[j].id != id
      ensures forall j :: LastWithId(items, id, j) ==> r == Some(items[j])
      ensures r.Some? ==> r.value in items && r.value.id == id
    {
      Lookup(adjacencies, id)
    }

    /** `getChildren`: the stored list of the id, or an empty list for an unknown id. It
        extends the direct-children filter, equals it on a fresh store, and holds only
        descendants of the id. */
    function GetChildren(id: Id): (r: seq<Item>)
      reads this
      requires Valid()
      ensures (forall j :: 0 <= j < |items| ==> items[j].id != id) ==> r == []
      ensures (exists j :: 0 <= j < |items| && items[j].id == id) ==> Filter(items, id) <= r
      ensures Fresh() && (exists j :: 0 <= j < |items| && items[j].id == id) ==> r == Filter(items, id)
      ensures forall e :: e in r ==> DescendsFrom(items, e, id)
    {
      if id in children then
        assert AllDescend(items, children[id], id);
        children[id]
      else []
    }

    /** `getDescendants`: the walk over the stored list of `id` that pushes each
        element's descendants onto that same list. An id with no stored list gets a
        fresh empty array and changes nothing. */
    method GetDescendants(id: Id) returns (r: seq<Item>)
      requires Valid() && Acyclic(items)
      modifies this
      ensures Valid()
      ensures id !in old(children) ==> r == [] && children == old(children)
      ensures id in old(children) ==> children == Expand(old(children), RankOf(items), id) && r == children[id]
      ensures id in old(children) ==> old(children)[id] <= r
      ensures id in old(children) ==> forall e :: e in r <==> DescendsFrom(items, e, id)
      decreases if id in children then RankOf(items)[id] else 0
    {
      ghost var rank := RankOf(items);
      if id !in children {
        r := [];
        return;
      }
      ghost var ch0 := children;
      StartTurn(items, ch0, id);
      var i := 0;
      ghost var end: nat := |children[id]|;
      ghost var b: nat := rank[id];
      while i < |children[id]|
        invariant Turn(items, ch0, children, id, i, end, b)
        decreases b, end - i
      {
        end, b := PassTurn(items, ch0, children, id, i, end, b);
        StepTurn(items, ch0, children, id, i, end, b);
        var child := children[id][i];
        var sub := GetDescendants(child.id);
        children := children[id := children[id] + sub];
        i := i + 1;
      }
      EndTurn(items, ch0, children, id, i, end, b);
      r := children[id];
    }

    /** Every entry of the map holds a record of the input under its own id. */
    lemma AdjacenciesResolve()
      ensures Resolves(items, adjacencies)
    {
    }

    /** `getAncestors`: the first hop uses the stored parent (the first record whose id is
        the node's `parent`); every later hop looks the previous record's `parent` up in the
        map (the last record with that id). The walk stops at the first hop that does not
        resolve, so the result runs from the nearest ancestor outwards; these clauses
        determine it. */
    method GetAncestors(id: Id) returns (r: seq<Item>)
      requires Acyclic(items)
      ensures r == [] <==> First(id).None?
      ensures First(id).Some? ==> r[0] == First(id).value
      ensures forall j :: 0 < j < |r| ==> Get(r[j - 1].parent) == Some(r[j])
      ensures r != [] ==> Get(r[|r| - 1].parent).None?
      ensures forall j, k :: 0 <= j < k < |r| ==> r[j].id != r[k].id
    {
      AdjacenciesResolve();
      var parent := First(id);
      r := [];
      while parent.Some?
        invariant parent.Some? ==> parent.value in items
        invariant r + Walk(items, adjacencies, parent) == Walk(items, adjacencies, First(id))
        decreases if parent.Some? && parent.value.id in RankOf(items) then |items| - RankOf(items)[parent.value.id] else 0
      {
        var p := parent.value;
        HopRaisesRank(items, adjacencies, p);
        WalkStep(items, adjacencies, r, p);
        r := r + [p];
        parent := Get(p.parent);
      }
      assert Walk(items, adjacencies, parent) == [];
      assert r == Walk(items, adjacencies, First(id));
      WalkLinks(items, adjacencies, First(id));
      WalkDistinct(items, adjacencies, First(id));
    }

    /** The first hop of `getAncestors`: the stored parent of the id, which is the first
        record whose id is the node's `parent`. */
    function First(id: Id): (r: Option<Item>)
      ensures Get(id).None? ==> r.None?
      ensures Get(id).Some? ==> r == Find(items, Get(id).value.parent)
      ensures r.Some? ==> r.value in items
    {
      if id in adjacencies then adjacencies[id].parent else None
    }
  }

}
