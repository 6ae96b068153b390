/** The fixture of src/tree-store.test.ts and what the store does on it: the lookups and
    children lists the tests expect, and what repeated `getDescendants` calls return once
    the stored lists have been extended. */
module Scenario {
  import opened Records
  import opened Adjacency
  import opened Ranking
  import opened Descendants
  import opened DescendantsLaws
  import opened StoreShape
  import opened Ancestors
  import opened Store

  const I1 := Item(Num(1), Str("root"), Absent)
  const I2 := Item(Num(2), Num(1), Text("test"))
  const I3 := Item(Num(3), Num(1), Text("test"))
  const I4 := Item(Num(4), Num(2), Text("test"))
  const I5 := Item(Num(5), Num(2), Text("test"))
  const I6 := Item(Num(6), Num(2), Text("test"))
  const I7 := Item(Num(7), Num(4), Null)
  const I8 := Item(Num(8), Num(4), Null)

  /** The eight records of the test fixture, in order. */
  const Fixture: seq<Item> := [I1, I2, I3, I4, I5, I6, I7, I8]

  /** The children lists a fresh store of the fixture holds. */
  const Fresh0: Children := map[
    Num(1) := [I2, I3], Num(2) := [I4, I5, I6], Num(3) := [], Num(4) := [I7, I8],
    Num(5) := [], Num(6) := [], Num(7) := [], Num(8) := []]

  /** The lists after one `getDescendants(2)` on a fresh store. */
  const AfterTwo: Children := Fresh0[Num(2) := [I4, I5, I6, I7, I8]]

  /** The fixture is a tree under the unknown id `"root"`. */
  lemma FixtureAcyclic()
    ensures Acyclic(Fixture)
  {
    var rank: Rank := map[
      Num(1) := 3, Num(2) := 2, Num(3) := 0, Num(4) := 1,
      Num(5) := 0, Num(6) := 0, Num(7) := 0, Num(8) := 0];
    assert RankedBy(Fixture, rank);
  }

  /** The ids of the fixture are 1 to 8. */
  lemma FixtureIds()
    ensures Ids(Fixture) == Fresh0.Keys
  {
    forall k | k in Ids(Fixture) ensures k in Fresh0 {
      var j :| 0 <= j < |Fixture| && Fixture[j].id == k;
    }
    assert Fixture[0].id in Ids(Fixture) && Fixture[1].id in Ids(Fixture);
    assert Fixture[2].id in Ids(Fixture) && Fixture[3].id in Ids(Fixture);
    assert Fixture[4].id in Ids(Fixture) && Fixture[5].id in Ids(Fixture);
    assert Fixture[6].id in Ids(Fixture) && Fixture[7].id in Ids(Fixture);
  }

  /** No record of the fixture has an id outside 1 to 8. */
  lemma Unknown(k: Id)
    requires k !in Fresh0
    ensures forall j :: 0 <= j < |Fixture| ==> Fixture[j].id != k
  {
    FixtureIds();
    forall j | 0 <= j < |Fixture| ensures Fixture[j].id != k {
      assert Fixture[j].id in Ids(Fixture);
    }
  }

  /** What a filter on `k` keeps of the single record `x`. */
  function Keep(x: Item, k: Id): seq<Item> {
    if x.parent == k then [x] else []
  }

  /** One step of the filter over a record and a rest. */
  lemma FilterCons(x: Item, rest: seq<Item>, k: Id)
    ensures Filter([x] + rest, k) == Keep(x, k) + Filter(rest, k)
  {
    assert ([x] + rest)[1..] == rest;
  }

  /** The filter of the fixture, record by record. */
  lemma FilterFixture(k: Id)
    ensures Filter(Fixture, k) ==
      Keep(I1, k) + (Keep(I2, k) + (Keep(I3, k) + (Keep(I4, k) +
      (Keep(I5, k) + (Keep(I6, k) + (Keep(I7, k) + Keep(I8, k)))))))
  {
    var s8 := [I8];
    var s7 := [I7] + s8;
    var s6 := [I6] + s7;
    var s5 := [I5] + s6;
    var s4 := [I4] + s5;
    var s3 := [I3] + s4;
    var s2 := [I2] + s3;
    var s1 := [I1] + s2;
    assert Fixture == s1;
    FilterCons(I8, [], k);
    assert s8 == [I8] + [];
    FilterCons(I7, s8, k);
    FilterCons(I6, s7, k);
    FilterCons(I5, s6, k);
    FilterCons(I4, s5, k);
    FilterCons(I3, s4, k);
    FilterCons(I2, s3, k);
    FilterCons(I1, s2, k);
  }

  /** The filter on each id of the fixture is the list `Fresh0` gives it. */
  lemma FixtureFilters()
    ensures forall k :: k in Fresh0 ==> Filter(Fixture, k) == Fresh0[k]
  {
    FilterFixture(Num(1));
    FilterFixture(Num(2));
    FilterFixture(Num(3));
    FilterFixture(Num(4));
    FilterFixture(Num(5));
    FilterFixture(Num(6));
    FilterFixture(Num(7));
    FilterFixture(Num(8));
  }

  /** A fresh store of the fixture holds the direct-children filters listed in `Fresh0`. */
  lemma FixtureChildren()
    ensures InitialChildren(Fixture) == Fresh0
  {
    FixtureIds();
    FixtureFilters();
  }

  /** Each of the listed elements has an empty stored list. */
  ghost predicate AllLeaves(ch: Children, s: seq<Item>) {
    forall j :: 0 <= j < |s| ==> s[j].id in ch && ch[s[j].id] == []
  }

  /** `getDescendants(4)` on a store whose lists of 7 and 8 are empty changes nothing. */
  lemma FourIsStable(ch: Children, rank: Rank)
    requires WellRanked(ch, rank) && Num(4) in ch && ch[Num(4)] == [I7, I8]
    requires Num(7) in ch && Num(8) in ch && ch[Num(7)] == [] && ch[Num(8)] == []
    ensures Expand(ch, rank, Num(4)) == ch
  {
    ExpandOverLeaves(ch, rank, Num(4));
  }

  /** A visit whose recursive call changes nothing just pushes the visited element's list. */
  lemma VisitOnStable(ch: Children, rank: Rank, x: Id, i: nat)
    requires WellRanked(ch, rank) && x in ch && i < |ch[x]|
    requires Expand(ch, rank, ch[x][i].id) == ch
    ensures ch[x][i].id in ch
    ensures Visit(ch, rank, x, i) == ch[x := ch[x] + ch[ch[x][i].id]]
  {
  }

  /** The loop of `getDescendants(x)` from index `i`, where the list holds 4 followed by
      leaves only: the call on 4 pushes 7 and 8, which are leaves too, so nothing else
      changes. */
  lemma PushFourAt(ch: Children, rank: Rank, x: Id, i: nat)
    requires WellRanked(ch, rank) && x in ch && i < |ch[x]| && ch[x][i] == I4
    requires Num(4) in ch && ch[Num(4)] == [I7, I8]
    requires Num(7) in ch && Num(8) in ch && ch[Num(7)] == [] && ch[Num(8)] == []
    requires AllLeaves(ch, ch[x][i + 1..])
    ensures Loop(ch, rank, x, i) == ch[x := ch[x] + [I7, I8]]
  {
    LoopStep(ch, rank, x, i);
    FourIsStable(ch, rank);
    VisitOnStable(ch, rank, x, i);
    var next: Children := ch[x := ch[x] + [I7, I8]];
    forall j: int | i + 1 <= j < |next[x]| ensures next[x][j].id in next && next[next[x][j].id] == [] {
      if j < |ch[x]| {
        assert ch[x][j] == ch[x][i + 1..][j - (i + 1)];
      }
    }
    LoopOverLeaves(next, rank, x, i + 1);
  }

  /** The test "Picking children recursively": on a fresh store `getDescendants(2)`
      returns `[4, 5, 6, 7, 8]`, and that list becomes the stored list of 2. */
  lemma DescendantsOfTwo(rank: Rank)
    requires WellRanked(Fresh0, rank)
    ensures Expand(Fresh0, rank, Num(2)) == AfterTwo
  {
    ExpandIsLoop(Fresh0, rank, Num(2));
    assert AllLeaves(Fresh0, [I5, I6]);
    assert Fresh0[Num(2)][1..] == [I5, I6];
    PushFourAt(Fresh0, rank, Num(2), 0);
    assert Fresh0[Num(2)] + [I7, I8] == [I4, I5, I6, I7, I8];
  }

  /** A second `getDescendants(2)` walks the extended list and pushes 7 and 8 again. */
  lemma DescendantsOfTwoAgain(rank: Rank)
    requires WellRanked(AfterTwo, rank)
    ensures Expand(AfterTwo, rank, Num(2)) == AfterTwo[Num(2) := [I4, I5, I6, I7, I8, I7, I8]]
  {
    ExpandIsLoop(AfterTwo, rank, Num(2));
    assert AllLeaves(AfterTwo, [I5, I6, I7, I8]);
    assert AfterTwo[Num(2)][1..] == [I5, I6, I7, I8];
    PushFourAt(AfterTwo, rank, Num(2), 0);
    assert AfterTwo[Num(2)] + [I7, I8] == [I4, I5, I6, I7, I8, I7, I8];
  }

  /** The lists after `getDescendants(2)` has been pushed onto the list of 1. */
  const RootPushed: Children := AfterTwo[Num(1) := [I2, I3, I4, I5, I6, I7, I8]]

  /** The first visit of `getDescendants(1)` on a fresh store is the call on 2. */
  lemma RootFirstVisit(rank: Rank)
    requires WellRanked(Fresh0, rank)
    ensures WellRanked(RootPushed, rank)
    ensures Expand(Fresh0, rank, Num(1)) == Loop(RootPushed, rank, Num(1), 1)
  {
    DescendantsOfTwo(rank);
    ExpandIsLoop(Fresh0, rank, Num(1));
    LoopStep(Fresh0, rank, Num(1), 0);
    assert Fresh0[Num(1)] + AfterTwo[Num(2)] == RootPushed[Num(1)];
    assert Visit(Fresh0, rank, Num(1), 0) == RootPushed;
  }

  /** The second visit of `getDescendants(1)`: 3 is a leaf, so nothing changes. */
  lemma RootSecondVisit(rank: Rank)
    requires WellRanked(RootPushed, rank)
    ensures Loop(RootPushed, rank, Num(1), 1) == Loop(RootPushed, rank, Num(1), 2)
  {
    LoopStep(RootPushed, rank, Num(1), 1);
    VisitLeaf(RootPushed, rank, Num(1), 1);
  }

  /** The rest of `getDescendants(1)`: the call on 4 pushes 7 and 8 again, and everything
      after is a leaf. */
  lemma RootRest(rank: Rank)
    requires WellRanked(RootPushed, rank)
    ensures Loop(RootPushed, rank, Num(1), 2) ==
      AfterTwo[Num(1) := [I2, I3, I4, I5, I6, I7, I8, I7, I8]]
  {
    assert AllLeaves(RootPushed, [I5, I6, I7, I8]);
    assert RootPushed[Num(1)][3..] == [I5, I6, I7, I8];
    PushFourAt(RootPushed, rank, Num(1), 2);
    assert RootPushed[Num(1)] + [I7, I8] == [I2, I3, I4, I5, I6, I7, I8, I7, I8];
  }

  /** On a fresh store `getDescendants(1)` returns 7 and 8 twice: once pushed by the call
      on 2, and once more when the walk reaches 4 in the list it has extended. The list of
      2 is left extended as well. */
  lemma DescendantsOfRoot(rank: Rank)
    requires WellRanked(Fresh0, rank)
    ensures Expand(Fresh0, rank, Num(1)) ==
      AfterTwo[Num(1) := [I2, I3, I4, I5, I6, I7, I8, I7, I8]]
  {
    RootFirstVisit(rank);
    RootSecondVisit(rank);
    RootRest(rank);
  }

  /** A new store of the fixture: its stored lists are those of `Fresh0`. */
  method FixtureStore() returns (s: TreeStore)
    ensures fresh(s) && s.items == Fixture && s.Valid() && s.children == Fresh0
  {
    FixtureChildren();
    s := new TreeStore(Fixture);
  }

  /** The test "Existing element by correct numeric id". */
  method GetSeven() returns (r: Option<Item>)
    ensures r == Some(I7)
  {
    var s := FixtureStore();
    assert LastWithId(Fixture, Num(7), 6);
    r := s.Get(Num(7));
  }

  /** The test "Retreiving by stringified correct id value failed": no coercion. */
  method GetText() returns (r: Option<Item>)
    ensures r.None?
  {
    var s := FixtureStore();
    Unknown(Str("7"));
    r := s.Get(Str("7"));
  }

  /** The test "Retreiving by non-existing id value failed with null". */
  method GetMissing() returns (r: Option<Item>)
    ensures r.None?
  {
    var s := FixtureStore();
    Unknown(Num(69));
    r := s.Get(Num(69));
  }

  /** The test "Only direct descendants": the children of 2, in input order. */
  method ChildrenOfTwo() returns (r: seq<Item>)
    ensures r == [I4, I5, I6]
  {
    var s := FixtureStore();
    r := s.GetChildren(Num(2));
  }

  /** The test "Only direct descendants": the children of 4, in input order. */
  method ChildrenOfFour() returns (r: seq<Item>)
    ensures r == [I7, I8]
  {
    var s := FixtureStore();
    r := s.GetChildren(Num(4));
  }

  /** The test "An empty array if there are no children". */
  method ChildrenOfLeaf() returns (r: seq<Item>)
    ensures r == []
  {
    var s := FixtureStore();
    r := s.GetChildren(Num(5));
  }

  /** The test "Using non-existing id will produce an empty array". */
  method ChildrenOfUnknown() returns (r: seq<Item>)
    ensures r == []
  {
    var s := FixtureStore();
    r := s.GetChildren(Num(69));
  }

  /** The id `"root"` occurs only as a `parent` value, so it has no stored list either. */
  method ChildrenOfParentOnly() returns (r: seq<Item>)
    ensures r == []
  {
    var s := FixtureStore();
    r := s.GetChildren(Str("root"));
  }

  /** `getDescendants(2)` on a fresh store, then `getChildren(2)`, then `getDescendants(2)`
      again: the first call gives the expected list, but it also becomes the stored
      children list, and the second call returns 7 and 8 twice. */
  method DescendantsScenario() returns (once: seq<Item>, children: seq<Item>, twice: seq<Item>)
    ensures once == [I4, I5, I6, I7, I8]
    ensures children == once
    ensures twice == [I4, I5, I6, I7, I8, I7, I8]
  {
    FixtureAcyclic();
    FixtureChildren();
    InitialShape(Fixture);
    var s := new TreeStore(Fixture);
    DescendantsOfTwo(RankOf(Fixture));
    once := s.GetDescendants(Num(2));
    children := s.GetChildren(Num(2));
    DescendantsOfTwoAgain(RankOf(Fixture));
    twice := s.GetDescendants(Num(2));
  }

  /** `getDescendants(1)` on a fresh store lists 7 and 8 twice. */
  method RootScenario() returns (all: seq<Item>)
    ensures all == [I2, I3, I4, I5, I6, I7, I8, I7, I8]
  {
    FixtureAcyclic();
    FixtureChildren();
    InitialShape(Fixture);
    var s := new TreeStore(Fixture);
    DescendantsOfRoot(RankOf(Fixture));
    all := s.GetDescendants(Num(1));
  }

  /** In the fixture the walk from 4 goes to 2, then to 1, whose parent is no record. */
  lemma WalkFromFour(adj: map<Id, Adjacency>)
    requires Acyclic(Fixture) && Resolves(Fixture, adj)
    requires Lookup(adj, Num(2)) == Some(I2) && Lookup(adj, Num(1)) == Some(I1)
    requires Lookup(adj, Str("root")).None?
    ensures I4 in Fixture && Walk(Fixture, adj, Some(I4)) == [I4, I2, I1]
  {
    assert Fixture[3] == I4 && Fixture[1] == I2 && Fixture[0] == I1;
    assert Walk(Fixture, adj, None) == [];
    assert Walk(Fixture, adj, Some(I1)) == [I1];
    assert Walk(Fixture, adj, Some(I2)) == [I2, I1];
  }

  /** The test "Ancestors order from the deepest to the root element". */
  method AncestorsOfSeven() returns (r: seq<Item>)
    ensures r == [I4, I2, I1]
  {
    FixtureAcyclic();
    var s := FixtureStore();
    FixtureLookups(s);
    r := s.GetAncestors(Num(7));
    s.AdjacenciesResolve();
    WalkUnique(Fixture, s.adjacencies, s.First(Num(7)), r);
    WalkFromFour(s.adjacencies);
  }

  /** The lookups the walk from 7 makes in a store of the fixture. */
  lemma FixtureLookups(s: TreeStore)
    requires s.items == Fixture
    ensures s.First(Num(7)) == Some(I4)
    ensures Lookup(s.adjacencies, Num(2)) == Some(I2) && Lookup(s.adjacencies, Num(1)) == Some(I1)
    ensures Lookup(s.adjacencies, Str("root")).None?
  {
    assert LastWithId(Fixture, Num(7), 6);
    assert LastWithId(Fixture, Num(2), 1);
    assert LastWithId(Fixture, Num(1), 0);
    assert FirstWithId(Fixture, Num(4), 3);
    Unknown(Str("root"));
    assert s.Get(Num(2)) == Some(I2) && s.Get(Num(1)) == Some(I1) && s.Get(Str("root")).None?;
  }

  /** The test "An empty array if there are no ancestors": the parent `"root"` of 1 is
      no record. */
  method AncestorsOfTop() returns (r: seq<Item>)
    ensures r == []
  {
    FixtureAcyclic();
    var s := FixtureStore();
    assert LastWithId(Fixture, Num(1), 0);
    Unknown(Str("root"));
    r := s.GetAncestors(Num(1));
  }

  /** The test "An empty array if non-existing id". */
  method AncestorsOfUnknown() returns (r: seq<Item>)
    ensures r == []
  {
    FixtureAcyclic();
    var s := FixtureStore();
    Unknown(Num(69));
    r := s.GetAncestors(Num(69));
  }
}
