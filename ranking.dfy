/** Well-founded input: neither traversal of src/tree-store.ts guards against a parent
    cycle, so both are modelled for inputs whose parent links admit a rank. */
module Ranking {
  import opened Records

  type Rank = map<Id, nat>

  /** `rank` ranks every id of `items` below `|items|`, and a record's id strictly below
      its `parent` whenever that is ranked too (in particular whenever some record has
      that id). */
  ghost predicate RankedBy(items: seq<Item>, rank: Rank) {
    forall j :: 0 <= j < |items| ==>
      && items[j].id in rank && rank[items[j].id] < |items|
      && (items[j].parent in rank ==> rank[items[j].id] < rank[items[j].parent])
  }

  /** The parent links of `items` contain no cycle. */
  ghost predicate Acyclic(items: seq<Item>) {
    exists rank :: RankedBy(items, rank)
  }

  /** A fixed ranking of an acyclic input. */
  ghost function RankOf(items: seq<Item>): (rank: Rank)
    requires Acyclic(items)
    ensures RankedBy(items, rank)
  {
    var rank :| RankedBy(items, rank); rank
  }

  /** A parent chain `path[0] <- path[1] <- ...` of records of `items`. */
  ghost predicate ParentChain(items: seq<Item>, path: seq<Item>) {
    && (forall k :: 0 <= k < |path| ==> path[k] in items)
    && (forall k :: 0 < k < |path| ==> path[k].parent == path[k - 1].id)
  }

  /** Along a parent chain of an acyclic input the ranks strictly decrease, so no chain
      returns to an id it has left: there is no cycle of any length. */
  lemma {:induction false} ChainRanksDecrease(items: seq<Item>, rank: Rank, path: seq<Item>)
    requires RankedBy(items, rank) && ParentChain(items, path) && |path| > 1
    ensures path[0].id in rank && path[|path| - 1].id in rank
    ensures rank[path[|path| - 1].id] < rank[path[0].id]
    ensures path[|path| - 1].id != path[0].id
    decreases |path|
  {
    var n := |path| - 1;
    assert path[n] in items && path[n - 1] in items;
    var i :| 0 <= i < |items| && items[i] == path[n];
    var j :| 0 <= j < |items| && items[j] == path[n - 1];
    if n > 1 {
      ChainRanksDecrease(items, rank, path[..n]);
    }
  }

  /** Every record of a ranked input has a rank below `|items|`. */
  lemma RankBound(items: seq<Item>, rank: Rank, e: Item)
    requires RankedBy(items, rank) && e in items
    ensures e.id in rank && rank[e.id] < |items|
  {
    var a :| 0 <= a < |items| && items[a] == e;
  }

  /** One parent link raises the rank. */
  lemma RankStep(items: seq<Item>, rank: Rank, e: Item, p: Item)
    requires RankedBy(items, rank) && e in items && p in items && e.parent == p.id
    ensures e.id in rank && p.id in rank && rank[e.id] < rank[p.id]
  {
    var a :| 0 <= a < |items| && items[a] == e;
    var c :| 0 <= c < |items| && items[c] == p;
  }
}
