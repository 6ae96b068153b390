/** `Ranking.Acyclic` excludes exactly the inputs whose parent links close a cycle: the
    bound `rank < |items|` that `RankedBy` adds costs nothing, since counting descendants
    gives such a rank whenever no parent chain returns to an id it started from. */
module Cycles {
  import opened Records
  import opened Ranking
  import opened DescendantsLaws

  /** No parent chain of records of `items` ends at the id it started from. */
  ghost predicate NoParentCycle(items: seq<Item>) {
    forall path: seq<Item> :: ParentChain(items, path) && |path| > 1 ==> path[|path| - 1].id != path[0].id
  }

  /** The ids of the records that descend from `k`. */
  ghost function DescendantIds(items: seq<Item>, k: Id): set<Id> {
    set e | e in items && DescendsFrom(items, e, k) :: e.id
  }

  /** A ranked input has no parent cycle. */
  lemma AcyclicHasNoCycle(items: seq<Item>)
    requires Acyclic(items)
    ensures NoParentCycle(items)
  {
    forall path: seq<Item> | ParentChain(items, path) && |path| > 1 ensures path[|path| - 1].id != path[0].id {
      ChainRanksDecrease(items, RankOf(items), path);
    }
  }

  /** An input without a parent cycle is ranked: each id ranks by how many ids descend
      from it. */
  lemma NoCycleIsAcyclic(items: seq<Item>)
    requires NoParentCycle(items)
    ensures Acyclic(items)
  {
    var rank: Rank := map k | k in Ids(items) :: |DescendantIds(items, k)|;
    IdsBound(items);
    forall j | 0 <= j < |items|
      ensures items[j].id in rank && rank[items[j].id] < |items|
      ensures items[j].parent in rank ==> rank[items[j].id] < rank[items[j].parent]
    {
      var e := items[j];
      assert e.id in Ids(items);
      NotOwnDescendant(items, e);
      assert DescendantIds(items, e.id) <= Ids(items) - {e.id};
      StrictSubsetSmaller(DescendantIds(items, e.id), Ids(items));
      if e.parent in rank {
        ParentHasMore(items, e);
        StrictSubsetSmaller(DescendantIds(items, e.id), DescendantIds(items, e.parent));
      }
    }
    assert RankedBy(items, rank);
  }

  /** Both directions: the ranked inputs are exactly those without a parent cycle. */
  lemma AcyclicIffNoCycle(items: seq<Item>)
    ensures Acyclic(items) <==> NoParentCycle(items)
  {
    if Acyclic(items) {
      AcyclicHasNoCycle(items);
    }
    if NoParentCycle(items) {
      NoCycleIsAcyclic(items);
    }
  }

  /** Without a cycle, no record with the id of `e` descends from `e`. */
  lemma NotOwnDescendant(items: seq<Item>, e: Item)
    requires NoParentCycle(items) && e in items
    ensures e.id !in DescendantIds(items, e.id)
  {
    forall d | d in items && DescendsFrom(items, d, e.id) ensures d.id != e.id {
      var c: seq<Item> :| ParentChain(items, c) && |c| > 0 && c[0].parent == e.id && c[|c| - 1] == d;
      var path := [e] + c;
      assert ParentChain(items, path) by {
        forall k | 0 < k < |path| ensures path[k].parent == path[k - 1].id {
          if k > 1 {
            assert path[k] == c[k - 1] && path[k - 1] == c[k - 2];
          }
        }
      }
      assert path[|path| - 1] == d;
    }
  }

  /** The descendants of a record are descendants of its parent, and so is the record
      itself. */
  lemma ParentHasMore(items: seq<Item>, e: Item)
    requires NoParentCycle(items) && e in items
    ensures DescendantIds(items, e.id) < DescendantIds(items, e.parent)
  {
    assert ParentChain(items, [e]);
    assert DescendsFrom(items, e, e.parent);
    forall d | d in items && DescendsFrom(items, d, e.id) ensures DescendsFrom(items, d, e.parent) {
      DescendsTrans(items, e, d, e.parent);
    }
    assert e.id in DescendantIds(items, e.parent);
    NotOwnDescendant(items, e);
  }

  /** A strict subset has fewer elements. */
  lemma StrictSubsetSmaller(a: set<Id>, b: set<Id>)
    requires a < b
    ensures |a| < |b|
  {
    assert b == a + (b - a);
    assert !(b <= a);
  }

  /** There are no more ids than records. */
  lemma {:induction false} IdsBound(s: seq<Item>)
    ensures |Ids(s)| <= |s|
    decreases |s|
  {
    if s != [] {
      var n := |s| - 1;
      IdsBound(s[..n]);
      assert Ids(s) == Ids(s[..n]) + {s[n].id} by {
        assert forall j :: 0 <= j < n ==> s[..n][j] == s[j];
      }
    }
  }
}
