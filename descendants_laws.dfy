/** Properties of the `getDescendants` model: how one loop step changes the state, what
    the walk leaves alone, and which records end up in the returned list. */
module DescendantsLaws {
  import opened Records
  import opened Ranking
  import opened Descendants

  // ----- the passes cover the whole growing list -----

  /** The ranks of `s[lo..hi]` are below `b`. */
  ghost predicate RanksBelow(s: seq<Item>, lo: int, hi: int, rank: Rank, b: int) {
    0 <= lo <= hi <= |s| && forall j :: lo <= j < hi ==> s[j].id in rank && rank[s[j].id] < b
  }

  /** The walk over `ch[x]` is at index `i` of a pass that ends at `end`: the elements still
      to visit in this pass rank below `b`, those appended during it below `b - 1`. */
  ghost predicate PassOk(ch: Children, rank: Rank, x: Id, i: nat, end: nat, b: nat) {
    && WellRanked(ch, rank)
    && x in ch
    && i <= end <= |ch[x]|
    && RanksBelow(ch[x], i, end, rank, b)
    && RanksBelow(ch[x], end, |ch[x]|, rank, b - 1)
  }

  /** The first pass of `getDescendants(x)` covers the stored list of `x`. */
  lemma FirstPass(ch: Children, rank: Rank, x: Id)
    requires WellRanked(ch, rank) && x in ch
    ensures PassOk(ch, rank, x, 0, |ch[x]|, rank[x])
  {
  }

  /** A visit keeps the list it walks and appends only records ranked below the visited one. */
  lemma VisitAppends(ch: Children, rank: Rank, x: Id, i: nat)
    requires WellRanked(ch, rank) && x in ch && i < |ch[x]|
    ensures var r := Visit(ch, rank, x, i);
      && (forall j :: 0 <= j < |ch[x]| ==> r[x][j] == ch[x][j])
      && (forall j :: |ch[x]| <= j < |r[x]| ==> rank[r[x][j].id] < rank[ch[x][i].id])
  {
    var c := ch[x][i];
    var ch1 := Expand(ch, rank, c.id);
    var r := Visit(ch, rank, x, i);
    assert r[x] == ch[x] + ch1[c.id];
    assert forall j :: |ch[x]| <= j < |r[x]| ==> r[x][j] == ch1[c.id][j - |ch[x]|];
  }

  /** The walk reaches the end of a pass with elements left: a new pass starts there. */
  lemma NewPass(ch: Children, rank: Rank, x: Id, i: nat, end: nat, b: nat)
    requires PassOk(ch, rank, x, i, end, b) && i == end < |ch[x]|
    ensures b >= 1 && PassOk(ch, rank, x, i, |ch[x]|, b - 1)
    ensures ExpandFrom(ch, rank, x, i, end, b) == ExpandFrom(ch, rank, x, i, |ch[x]|, b - 1)
  {
    assert rank[ch[x][i].id] < b - 1;
  }

  /** Inside a pass the walk visits the element at the index and moves on. */
  lemma PassStep(ch: Children, rank: Rank, x: Id, i: nat, end: nat, b: nat)
    requires PassOk(ch, rank, x, i, end, b) && i < end
    ensures PassOk(Visit(ch, rank, x, i), rank, x, i + 1, end, b)
    ensures ExpandFrom(ch, rank, x, i, end, b) == ExpandFrom(Visit(ch, rank, x, i), rank, x, i + 1, end, b)
  {
    VisitAppends(ch, rank, x, i);
  }

  /** The pass bookkeeping only witnesses termination: any two admissible choices give
      the same walk. */
  lemma {:induction false} PassIrrelevant(ch: Children, rank: Rank, x: Id, i: nat,
                                          e1: nat, b1: nat, e2: nat, b2: nat)
    requires PassOk(ch, rank, x, i, e1, b1) && PassOk(ch, rank, x, i, e2, b2)
    ensures ExpandFrom(ch, rank, x, i, e1, b1) == ExpandFrom(ch, rank, x, i, e2, b2)
    decreases b1 + b2, e1 + e2 - 2 * i, 1
  {
    if i == |ch[x]| {
    } else if i == e1 {
      NewPass(ch, rank, x, i, e1, b1);
      PassIrrelevant(ch, rank, x, i, |ch[x]|, b1 - 1, e2, b2);
    } else if i == e2 {
      NewPass(ch, rank, x, i, e2, b2);
      PassIrrelevant(ch, rank, x, i, e1, b1, |ch[x]|, b2 - 1);
    } else {
      StepIrrelevant(ch, rank, x, i, e1, b1, e2, b2);
    }
  }

  lemma {:induction false} StepIrrelevant(ch: Children, rank: Rank, x: Id, i: nat,
                                          e1: nat, b1: nat, e2: nat, b2: nat)
    requires PassOk(ch, rank, x, i, e1, b1) && PassOk(ch, rank, x, i, e2, b2)
    requires i < e1 && i < e2
    ensures ExpandFrom(ch, rank, x, i, e1, b1) == ExpandFrom(ch, rank, x, i, e2, b2)
    decreases b1 + b2, e1 + e2 - 2 * i, 0
  {
    PassStep(ch, rank, x, i, e1, b1);
    PassStep(ch, rank, x, i, e2, b2);
    PassIrrelevant(Visit(ch, rank, x, i), rank, x, i + 1, e1, b1, e2, b2);
  }

  // ----- one step of the loop -----

  /** `getDescendants(x)` is its loop run from index 0 over the list as it stands. */
  lemma ExpandIsLoop(ch: Children, rank: Rank, x: Id)
    requires WellRanked(ch, rank) && x in ch
    ensures Expand(ch, rank, x) == Loop(ch, rank, x, 0)
    ensures Expand(ch, rank, x) == ExpandFrom(ch, rank, x, 0, |ch[x]|, rank[x])
  {
  }

  /** One step of the `for...of` loop: while the index is inside the (growing) stored list,
      the loop visits the element there and goes on with the next index over the grown list. */
  lemma LoopStep(ch: Children, rank: Rank, x: Id, i: nat)
    requires WellRanked(ch, rank) && x in ch && i < |ch[x]|
    ensures Loop(ch, rank, x, i) == Loop(Visit(ch, rank, x, i), rank, x, i + 1)
  {
    var n := |ch[x]|;
    var ch2 := Visit(ch, rank, x, i);
    PassStep(ch, rank, x, i, n, rank[x]);
    VisitAppends(ch, rank, x, i);
    assert RanksBelow(ch2[x], i + 1, |ch2[x]|, rank, rank[x]);
    PassIrrelevant(ch2, rank, x, i + 1, n, rank[x], |ch2[x]|, rank[x]);
  }

  /** Visiting a leaf pushes its empty list: nothing changes. */
  lemma VisitLeaf(ch: Children, rank: Rank, x: Id, i: nat)
    requires WellRanked(ch, rank) && x in ch && i < |ch[x]| && ch[x][i].id in ch
    requires ch[ch[x][i].id] == []
    ensures Visit(ch, rank, x, i) == ch
  {
    assert ch[x] + [] == ch[x];
  }

  /** When every element from index `i` on is a leaf, the rest of the loop changes nothing. */
  lemma {:induction false} LoopOverLeaves(ch: Children, rank: Rank, x: Id, i: nat)
    requires WellRanked(ch, rank) && x in ch && i <= |ch[x]|
    requires forall j :: i <= j < |ch[x]| ==> ch[x][j].id in ch && ch[ch[x][j].id] == []
    ensures Loop(ch, rank, x, i) == ch
    decreases |ch[x]| - i
  {
    if i < |ch[x]| {
      LoopStep(ch, rank, x, i);
      VisitLeaf(ch, rank, x, i);
      LoopOverLeaves(ch, rank, x, i + 1);
    }
  }

  /** A node whose stored children are all leaves is left as it is. */
  lemma ExpandOverLeaves(ch: Children, rank: Rank, x: Id)
    requires WellRanked(ch, rank) && x in ch
    requires forall j :: 0 <= j < |ch[x]| ==> ch[x][j].id in ch && ch[ch[x][j].id] == []
    ensures Expand(ch, rank, x) == ch
  {
    LoopOverLeaves(ch, rank, x, 0);
  }

  // ----- what the walk leaves alone -----

  /** From `ch` to `ch'` the keys stay, every list only grows at its end, and no list of an
      id other than `x` ranked at least as high as `x` changes. */
  ghost predicate Extends(ch: Children, ch': Children, rank: Rank, x: Id)
    requires ch.Keys <= rank.Keys && x in rank
  {
    && Grows(ch, ch')
    && forall y {:trigger ch'[y]} :: y in ch && y != x && rank[y] >= rank[x] ==> ch'[y] == ch[y]
  }

  /** `Extends` composes. */
  lemma ExtendsTrans(ch: Children, ch2: Children, ch3: Children, rank: Rank, x: Id)
    requires ch.Keys <= rank.Keys && x in rank && Extends(ch, ch2, rank, x)
    requires Extends(ch2, ch3, rank, x)
    ensures Extends(ch, ch3, rank, x)
  {
    forall y | y in ch ensures ch[y] <= ch3[y] {
      assert ch[y] <= ch2[y] <= ch3[y];
    }
  }

  /** `getDescendants(x)` only grows lists at their ends and leaves the lists of ids
      outside its reach alone. */
  lemma {:induction false} ExpandExtends(ch: Children, rank: Rank, x: Id)
    requires WellRanked(ch, rank)
    ensures Grows(ch, Expand(ch, rank, x))
    ensures x in ch ==> Extends(ch, Expand(ch, rank, x), rank, x)
    decreases if x in ch then rank[x] else 0, 1, 0, 0, 0
  {
    if x in ch {
      ExpandFromExtends(ch, rank, x, 0, |ch[x]|, rank[x]);
    }
  }

  /** The rest of the loop extends the lists in the same way. */
  lemma {:induction false} ExpandFromExtends(ch: Children, rank: Rank, x: Id, i: nat, end: nat, b: nat)
    requires WellRanked(ch, rank) && x in ch && i <= |ch[x]|
    ensures Extends(ch, ExpandFrom(ch, rank, x, i, end, b), rank, x)
    decreases rank[x], 0, b, if i < end then end - i else 0, 1
  {
    if i == |ch[x]| {
    } else if end <= i {
      if b != 0 {
        ExpandFromExtends(ch, rank, x, i, |ch[x]|, b - 1);
      }
    } else {
      StepExtends(ch, rank, x, i, end, b);
    }
  }

  /** One visit followed by the rest of the loop extends the lists. */
  lemma {:induction false} StepExtends(ch: Children, rank: Rank, x: Id, i: nat, end: nat, b: nat)
    requires WellRanked(ch, rank) && x in ch && i < |ch[x]| && i < end
    ensures Extends(ch, ExpandFrom(ch, rank, x, i, end, b), rank, x)
    decreases rank[x], 0, b, end - i, 0
  {
    var ch2 := Visit(ch, rank, x, i);
    VisitExtends(ch, rank, x, i);
    ExpandFromExtends(ch2, rank, x, i + 1, end, b);
    ExtendsTrans(ch, ch2, ExpandFrom(ch2, rank, x, i + 1, end, b), rank, x);
  }

  /** One visit extends the lists. */
  lemma {:induction false} VisitExtends(ch: Children, rank: Rank, x: Id, i: nat)
    requires WellRanked(ch, rank) && x in ch && i < |ch[x]|
    ensures Extends(ch, Visit(ch, rank, x, i), rank, x)
    decreases rank[x], 0, 0, 0, 0
  {
    var c := ch[x][i];
    ExpandExtends(ch, rank, c.id);
  }

  /** The recursive call for a stored child leaves the list of its parent as it was: the
      push in `getDescendants` extends the list the loop is walking. */
  lemma ExpandKeeps(ch: Children, rank: Rank, x: Id, y: Id)
    requires WellRanked(ch, rank) && x in ch && y in ch && rank[x] < rank[y]
    ensures Expand(ch, rank, x)[y] == ch[y]
  {
    ExpandExtends(ch, rank, x);
  }

  // ----- which records the result holds -----

  /** `e` is reached from `y` by following parent links downwards at least once. */
  ghost predicate DescendsFrom(items: seq<Item>, e: Item, y: Id) {
    exists path: seq<Item> :: ParentChain(items, path) && |path| > 0 && path[0].parent == y && path[|path| - 1] == e
  }

  /** Every stored child descends from the id it is stored under. */
  ghost predicate Sound(ch: Children, items: seq<Item>) {
    forall y {:trigger AllDescend(items, ch[y], y)} :: y in ch ==> AllDescend(items, ch[y], y)
  }

  /** Every element of `s` descends from `y`. */
  ghost predicate AllDescend(items: seq<Item>, s: seq<Item>, y: Id) {
    forall j {:trigger DescendsFrom(items, s[j], y)} :: 0 <= j < |s| ==> DescendsFrom(items, s[j], y)
  }

  /** Every record of `items` whose parent is a stored id is in that id's list. */
  ghost predicate Direct(ch: Children, items: seq<Item>) {
    forall y, d :: y in ch && d in items && d.parent == y ==> d in ch[y]
  }

  /** The first `n` elements of `s` have all their direct children in `s`. */
  ghost predicate ClosedUpTo(s: seq<Item>, items: seq<Item>, n: int) {
    forall j, d :: 0 <= j < n && j < |s| && d in items && d.parent == s[j].id ==> d in s
  }

  /** Descent composes along parent chains. */
  lemma DescendsTrans(items: seq<Item>, c: Item, e: Item, y: Id)
    requires DescendsFrom(items, c, y) && DescendsFrom(items, e, c.id)
    ensures DescendsFrom(items, e, y)
  {
    var p1: seq<Item> :| ParentChain(items, p1) && |p1| > 0 && p1[0].parent == y && p1[|p1| - 1] == c;
    var p2: seq<Item> :| ParentChain(items, p2) && |p2| > 0 && p2[0].parent == c.id && p2[|p2| - 1] == e;
    var p: seq<Item> := p1 + p2;
    assert ParentChain(items, p) by {
      forall k | 0 < k < |p| ensures p[k].parent == p[k - 1].id {
        if k > |p1| {
          assert p[k] == p2[k - |p1|] && p[k - 1] == p2[k - 1 - |p1|];
        }
      }
    }
    assert p[|p| - 1] == e;
  }

  /** `getDescendants(x)` keeps every stored list made of descendants of its id. */
  lemma {:induction false} ExpandSound(ch: Children, rank: Rank, items: seq<Item>, x: Id)
    requires WellRanked(ch, rank) && Sound(ch, items)
    ensures Sound(Expand(ch, rank, x), items)
    decreases if x in ch then rank[x] else 0, 1, 0, 0, 0
  {
    if x in ch {
      ExpandFromSound(ch, rank, items, x, 0, |ch[x]|, rank[x]);
    }
  }

  /** The rest of the loop keeps `Sound`. */
  lemma {:induction false} ExpandFromSound(ch: Children, rank: Rank, items: seq<Item>, x: Id,
                                           i: nat, end: nat, b: nat)
    requires WellRanked(ch, rank) && x in ch && i <= |ch[x]| && Sound(ch, items)
    ensures Sound(ExpandFrom(ch, rank, x, i, end, b), items)
    decreases rank[x], 0, b, if i < end then end - i else 0, 1
  {
    if i == |ch[x]| {
    } else if end <= i {
      if b != 0 {
        ExpandFromSound(ch, rank, items, x, i, |ch[x]|, b - 1);
      }
    } else {
      StepSound(ch, rank, items, x, i, end, b);
    }
  }

  /** One visit followed by the rest of the loop keeps `Sound`. */
  lemma {:induction false} StepSound(ch: Children, rank: Rank, items: seq<Item>, x: Id,
                                     i: nat, end: nat, b: nat)
    requires WellRanked(ch, rank) && x in ch && i < |ch[x]| && i < end && Sound(ch, items)
    ensures Sound(ExpandFrom(ch, rank, x, i, end, b), items)
    decreases rank[x], 0, b, end - i, 0
  {
    VisitSound(ch, rank, items, x, i);
    ExpandFromSound(Visit(ch, rank, x, i), rank, items, x, i + 1, end, b);
  }

  /** A visit pushes descendants of the visited child, which descend from `x` too. */
  lemma {:induction false} VisitSound(ch: Children, rank: Rank, items: seq<Item>, x: Id, i: nat)
    requires WellRanked(ch, rank) && x in ch && i < |ch[x]| && Sound(ch, items)
    ensures Sound(Visit(ch, rank, x, i), items)
    decreases rank[x], 0, 0, 0, 0
  {
    var c := ch[x][i];
    var ch1 := Expand(ch, rank, c.id);
    ExpandSound(ch, rank, items, c.id);
    var r := ch1[x := ch[x] + ch1[c.id]];
    assert AllDescend(items, ch[x], x);
    assert AllDescend(items, ch1[c.id], c.id);
    forall j | 0 <= j < |r[x]| ensures DescendsFrom(items, r[x][j], x) {
      if j >= |ch[x]| {
        assert r[x][j] == ch1[c.id][j - |ch[x]|];
        DescendsTrans(items, c, r[x][j], x);
      }
    }
    assert AllDescend(items, r[x], x);
  }

  /** Lists that only grow keep every direct child they held. */
  lemma GrowsDirect(ch: Children, ch': Children, items: seq<Item>)
    requires Direct(ch, items) && Grows(ch, ch')
    ensures Direct(ch', items)
  {
    forall y, d | y in ch' && d in items && d.parent == y ensures d in ch'[y] {
      assert d in ch[y] && ch[y] <= ch'[y];
    }
  }

  /** The walk visits every element of the final list, and each visit appended at least the
      visited element's direct children. */
  lemma {:induction false} ExpandFromCloses(ch: Children, rank: Rank, items: seq<Item>, x: Id,
                                            i: nat, end: nat, b: nat)
    requires PassOk(ch, rank, x, i, end, b) && Direct(ch, items) && ClosedUpTo(ch[x], items, i)
    ensures ClosedUpTo(ExpandFrom(ch, rank, x, i, end, b)[x], items, |ExpandFrom(ch, rank, x, i, end, b)[x]|)
    decreases b, end - i, 1
  {
    if i == |ch[x]| {
    } else if i == end {
      NewPass(ch, rank, x, i, end, b);
      ExpandFromCloses(ch, rank, items, x, i, |ch[x]|, b - 1);
    } else {
      StepCloses(ch, rank, items, x, i, end, b);
    }
  }

  /** One visit followed by the rest of the loop closes the list. */
  lemma {:induction false} StepCloses(ch: Children, rank: Rank, items: seq<Item>, x: Id,
                                      i: nat, end: nat, b: nat)
    requires PassOk(ch, rank, x, i, end, b) && Direct(ch, items) && ClosedUpTo(ch[x], items, i)
    requires i < end
    ensures ClosedUpTo(ExpandFrom(ch, rank, x, i, end, b)[x], items, |ExpandFrom(ch, rank, x, i, end, b)[x]|)
    decreases b, end - i, 0
  {
    VisitCloses(ch, rank, items, x, i);
    PassStep(ch, rank, x, i, end, b);
    ExpandFromCloses(Visit(ch, rank, x, i), rank, items, x, i + 1, end, b);
  }

  /** A visit adds the direct children of the visited element and keeps `Direct`. */
  lemma VisitCloses(ch: Children, rank: Rank, items: seq<Item>, x: Id, i: nat)
    requires WellRanked(ch, rank) && x in ch && i < |ch[x]|
    requires Direct(ch, items) && ClosedUpTo(ch[x], items, i)
    ensures Direct(Visit(ch, rank, x, i), items)
    ensures ClosedUpTo(Visit(ch, rank, x, i)[x], items, i + 1)
  {
    var c := ch[x][i];
    var ch1 := Expand(ch, rank, c.id);
    var ch2 := Visit(ch, rank, x, i);
    VisitExtends(ch, rank, x, i);
    GrowsDirect(ch, ch2, items);
    assert ch2[x] == ch[x] + ch1[c.id];
    ExpandExtends(ch, rank, c.id);
    GrowsDirect(ch, ch1, items);
    forall j, d | 0 <= j < i + 1 && j < |ch2[x]| && d in items && d.parent == ch2[x][j].id
      ensures d in ch2[x]
    {
      assert ch2[x][j] == ch[x][j];
      if j < i {
        assert d in ch[x];
      } else {
        assert d in ch1[c.id];
      }
    }
  }

  /** A parent chain that starts in a list closed under direct children stays in it. */
  lemma {:induction false} ChainStaysIn(items: seq<Item>, s: seq<Item>, path: seq<Item>)
    requires ClosedUpTo(s, items, |s|) && ParentChain(items, path) && |path| > 0 && path[0] in s
    ensures path[|path| - 1] in s
    decreases |path|
  {
    if |path| > 1 {
      var n := |path| - 1;
      ChainStaysIn(items, s, path[..n]);
      var j :| 0 <= j < |s| && s[j] == path[n - 1];
    }
  }

  /** After `getDescendants(x)` the list of `x` holds the direct children of each of its
      elements. */
  lemma ExpandCloses(ch: Children, rank: Rank, items: seq<Item>, x: Id)
    requires WellRanked(ch, rank) && Direct(ch, items) && x in ch
    ensures x in Expand(ch, rank, x)
    ensures ClosedUpTo(Expand(ch, rank, x)[x], items, |Expand(ch, rank, x)[x]|)
  {
    ExpandFromCloses(ch, rank, items, x, 0, |ch[x]|, rank[x]);
  }

  /** A member of a stored list descends from the list's id. */
  lemma SoundIn(ch: Children, items: seq<Item>, y: Id, e: Item)
    requires Sound(ch, items) && y in ch && e in ch[y]
    ensures DescendsFrom(items, e, y)
  {
    assert AllDescend(items, ch[y], y);
    var j :| 0 <= j < |ch[y]| && ch[y][j] == e;
  }

  /** `getDescendants(x)` returns exactly the records that descend from `x`, given that
      the stored lists hold only descendants and hold all direct children; a record can
      occur in the result more than once. */
  lemma ExpandExactlyDescendants(ch: Children, rank: Rank, items: seq<Item>, x: Id)
    requires WellRanked(ch, rank) && Sound(ch, items) && Direct(ch, items) && x in ch
    ensures forall e :: e in Expand(ch, rank, x)[x] <==> DescendsFrom(items, e, x)
  {
    var r := Expand(ch, rank, x);
    ExpandSound(ch, rank, items, x);
    ExpandCloses(ch, rank, items, x);
    ExpandExtends(ch, rank, x);
    GrowsDirect(ch, r, items);
    forall e | e in r[x] ensures DescendsFrom(items, e, x) {
      SoundIn(r, items, x, e);
    }
    forall e | DescendsFrom(items, e, x) ensures e in r[x] {
      var path: seq<Item> :| ParentChain(items, path) && |path| > 0 && path[0].parent == x && path[|path| - 1] == e;
      ChainStaysIn(items, r[x], path);
    }
  }
}
