/** The shape the stored children lists of a tree store keep, and the state of the loop
    of `getDescendants` (src/tree-store.ts:36-44), stated over values. */
module StoreShape {
  import opened Records
  import opened Adjacency
  import opened Ranking
  import opened Descendants
  import opened DescendantsLaws

  /** The shape every fresh store has: the lists are the direct-children filters, so they
      hold only descendants and all direct children, and under an acyclic input they are
      ranked. */
  lemma InitialShape(items: seq<Item>)
    ensures Sound(InitialChildren(items), items)
    ensures Direct(InitialChildren(items), items)
    ensures Acyclic(items) ==> WellRanked(InitialChildren(items), RankOf(items))
  {
    var ch := InitialChildren(items);
    forall y | y in ch ensures AllDescend(items, ch[y], y) {
      FilterMembers(items, y);
      forall j | 0 <= j < |ch[y]| ensures DescendsFrom(items, ch[y][j], y) {
        assert ParentChain(items, [ch[y][j]]);
      }
    }
    PrefixDirect(items, ch);
    if Acyclic(items) {
      InitialRanked(items);
    }
  }

  /** The direct-children filters of an acyclic input are ranked. */
  lemma InitialRanked(items: seq<Item>)
    requires Acyclic(items)
    ensures WellRanked(InitialChildren(items), RankOf(items))
  {
    var ch: Children := InitialChildren(items);
    var rank: Rank := RankOf(items);
    forall k | k in ch ensures k in rank {
      var b :| 0 <= b < |items| && items[b].id == k;
    }
    forall y: Id, j: int | y in ch && 0 <= j < |ch[y]| ensures ch[y][j].id in ch && rank[ch[y][j].id] < rank[y] {
      var e := ch[y][j];
      FilterMembers(items, y);
      assert e in items && e.parent == y;
      var a :| 0 <= a < |items| && items[a] == e;
      assert e.id in Ids(items);
    }
  }

  /** Lists that extend the direct-children filters hold every direct child. */
  lemma PrefixDirect(items: seq<Item>, ch: Children)
    requires ch.Keys == Ids(items)
    requires forall k :: k in ch ==> Filter(items, k) <= ch[k]
    ensures Direct(ch, items)
  {
    forall y, d | y in ch && d in items && d.parent == y ensures d in ch[y] {
      FilterMembers(items, y);
      assert d in Filter(items, y);
    }
  }

  /** The shape the stored lists keep: one list per id of the input, each extending the
      direct-children filter it was built as and holding only descendants of its id, and
      ranked when the input is acyclic. */
  ghost predicate Shaped(items: seq<Item>, ch: Children) {
    && ch.Keys == Ids(items)
    && (forall k :: k in ch ==> Filter(items, k) <= ch[k])
    && Sound(ch, items)
    && (Acyclic(items) ==> WellRanked(ch, RankOf(items)))
  }

  /** The state of the loop of `getDescendants(id)` called on the lists `ch0`: the lists
      are now `ch` and keep their shape, the walk is at index `i` of a pass that ends at
      `end` with bound `b`, and finishing the walk from here gives what the call leaves. */
  ghost predicate Turn(items: seq<Item>, ch0: Children, ch: Children, id: Id, i: nat, end: nat, b: nat) {
    && Acyclic(items)
    && WellRanked(ch0, RankOf(items))
    && Shaped(items, ch)
    && PassOk(ch, RankOf(items), id, i, end, b)
    && ExpandFrom(ch, RankOf(items), id, i, end, b) == Expand(ch0, RankOf(items), id)
  }

  /** Before the loop: the first pass covers the stored list, and the walk it starts
      returns exactly the descendants of `id`, extending the list. */
  lemma StartTurn(items: seq<Item>, ch: Children, id: Id)
    requires Acyclic(items) && Shaped(items, ch) && id in ch
    ensures Turn(items, ch, ch, id, 0, |ch[id]|, RankOf(items)[id])
    ensures ch[id] <= Expand(ch, RankOf(items), id)[id]
    ensures forall e :: e in Expand(ch, RankOf(items), id)[id] <==> DescendsFrom(items, e, id)
  {
    var rank := RankOf(items);
    PrefixDirect(items, ch);
    ExpandExactlyDescendants(ch, rank, items, id);
    ExpandExtends(ch, rank, id);
    ExpandIsLoop(ch, rank, id);
    FirstPass(ch, rank, id);
  }

  /** The pass is over with elements left: the next one covers what it appended. */
  lemma NextPass(items: seq<Item>, ch0: Children, ch: Children, id: Id, i: nat, end: nat, b: nat)
    requires Turn(items, ch0, ch, id, i, end, b) && i == end < |ch[id]|
    ensures b >= 1 && Turn(items, ch0, ch, id, i, |ch[id]|, b - 1)
  {
    NewPass(ch, RankOf(items), id, i, end, b);
  }

  /** One turn of the loop at index `i`: the element there is a known id ranked below
      `id`, the recursive call on it leaves the list of `id` alone, and pushing what it
      returns is the visit, after which the loop state holds at `i + 1`. */
  lemma StepTurn(items: seq<Item>, ch0: Children, ch: Children, id: Id, i: nat, end: nat, b: nat)
    requires Turn(items, ch0, ch, id, i, end, b) && i < end
    ensures ch[id][i].id in ch && RankOf(items)[ch[id][i].id] < RankOf(items)[id]
    ensures var after := Expand(ch, RankOf(items), ch[id][i].id);
      Turn(items, ch0, after[id := after[id] + after[ch[id][i].id]], id, i + 1, end, b)
  {
    var rank := RankOf(items);
    PassStep(ch, rank, id, i, end, b);
    VisitSound(ch, rank, items, id, i);
    VisitExtends(ch, rank, id, i);
    ExpandKeeps(ch, rank, ch[id][i].id, id);
    var after := Expand(ch, rank, ch[id][i].id);
    assert after[id := after[id] + after[ch[id][i].id]] == Visit(ch, rank, id, i);
  }

  /** The loop has walked the whole list: the lists are those the call leaves. */
  lemma EndTurn(items: seq<Item>, ch0: Children, ch: Children, id: Id, i: nat, end: nat, b: nat)
    requires Turn(items, ch0, ch, id, i, end, b) && i == |ch[id]|
    ensures ch == Expand(ch0, RankOf(items), id)
  {
  }
}
