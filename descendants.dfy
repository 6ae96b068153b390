/** What `TreeStore.getDescendants` (src/tree-store.ts:36-44) does to the stored children
    lists. The call takes the stored array of `id` itself and, with `for...of`, walks it
    while pushing the result of the recursive call for each element onto that same array,
    so the walk also visits what it appended and every array it passes through keeps
    what was pushed into it. */
module Descendants {
  import opened Records
  import opened Ranking

  /** The mutable half of the adjacency map: one children list per id. */
  type Children = map<Id, seq<Item>>

  /** Every stored child is a known id ranked strictly below the list it is stored in.
      A fresh store of an acyclic input has this shape, and it is kept by every call. */
  ghost predicate WellRanked(ch: Children, rank: Rank) {
    && ch.Keys <= rank.Keys
    && forall y, j {:trigger ch[y][j]} :: y in ch && 0 <= j < |ch[y]| ==>
         ch[y][j].id in ch && rank[ch[y][j].id] < rank[y]
  }

  /** Every list only grows at its end, and no id is added or removed. */
  ghost predicate Grows(ch: Children, ch': Children) {
    ch'.Keys == ch.Keys && forall y {:trigger ch'[y]} :: y in ch ==> ch[y] <= ch'[y]
  }

  /** The children lists after `getDescendants(x)`; the call returns the new list of `x`.
      An unknown id changes nothing (its `getChildren` is a fresh empty array), and neither
      does a leaf, whose stored empty array comes back as it is. */
  ghost function Expand(ch: Children, rank: Rank, x: Id): (r: Children)
    requires WellRanked(ch, rank)
    ensures WellRanked(r, rank) && r.Keys == ch.Keys
    ensures x !in ch || ch[x] == [] ==> r == ch
    decreases if x in ch then rank[x] else 0, 1, 0, 0
  {
    if x !in ch then ch else ExpandFrom(ch, rank, x, 0, |ch[x]|, rank[x])
  }

  /** One visit of the `for...of` loop: recurse into the element at index `i` of `ch[x]`
      and push what that call returns onto the list of `x`. The recursive call leaves the
      list of `x` as it was (`DescendantsLaws.ExpandKeeps`), so the push extends `ch[x]`. */
  ghost function Visit(ch: Children, rank: Rank, x: Id, i: nat): (r: Children)
    requires WellRanked(ch, rank) && x in ch && i < |ch[x]|
    ensures WellRanked(r, rank) && r.Keys == ch.Keys && |r[x]| >= |ch[x]|
    decreases rank[x], 0, 0, 0
  {
    var c := ch[x][i];
    var ch1 := Expand(ch, rank, c.id);
    ch1[x := ch[x] + ch1[c.id]]
  }

  /** The `for...of` loop over the growing list `ch[x]` from index `i` on, split into
      passes so that it visibly ends: a pass runs up to index `end`, and the next pass
      covers what the current one appended, with the bound `b` one lower. Each visit
      appends only records ranked below the visited one, so when the walk starts with
      `end == |ch[x]|` and `b == rank[x]` the passes cover every element and the bound
      never runs out (`DescendantsLaws.PassIrrelevant`): the `b == 0` stop is never taken. */
  ghost function ExpandFrom(ch: Children, rank: Rank, x: Id, i: nat, end: nat, b: nat): (r: Children)
    requires WellRanked(ch, rank) && x in ch && i <= |ch[x]|
    ensures WellRanked(r, rank) && r.Keys == ch.Keys
    ensures i == |ch[x]| ==> r == ch
    decreases rank[x], 0, b, if i < end then end - i else 0
  {
    if i == |ch[x]| then ch
    else if end <= i then
      if b == 0 then ch else ExpandFrom(ch, rank, x, i, |ch[x]|, b - 1)
    else
      ExpandFrom(Visit(ch, rank, x, i), rank, x, i + 1, end, b)
  }

  /** The `for...of` loop of `getDescendants(x)` from index `i` on, over the list as it
      stands; `Expand` runs it from index 0. */
  ghost function Loop(ch: Children, rank: Rank, x: Id, i: nat): (r: Children)
    requires WellRanked(ch, rank) && x in ch && i <= |ch[x]|
    ensures WellRanked(r, rank) && r.Keys == ch.Keys
    ensures i == |ch[x]| ==> r == ch
  {
    ExpandFrom(ch, rank, x, i, |ch[x]|, rank[x])
  }
}
