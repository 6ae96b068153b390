# TreeStore in Dafny

This project models `TreeStore` (src/tree-store.ts) and proves properties of the model. `TreeStore` is an in-memory index over a flat list of `{ id, parent, type? }` records. At construction it builds a `Map` from each id to an entry `{ item, parent, children }`:

- `item` is the last record with that id;
- `parent` is the first record whose id is the item's `parent`;
- `children` is the in-order list of records whose `parent` is the id.

Five queries read the map: `getAll`, `get`, `getChildren`, `getDescendants` and `getAncestors`.

The model follows the code as written:

- **Data** (src/tree-store.ts:1-15).
  - `Records.Id` models `TreeStoreId`. It is a tagged union, so `Num(7)` and `Str("7")` are different keys, as they are for a JS `Map` and `===`.
  - `Records.Item` models `TreeStoreItem`. Records are values.
  - `Records.TypeTag` models the optional `type` field: absent, `null` or a string. It is opaque data.
  - `Adjacency.Adjacency` models `TreeStoreItemAdjacency`: the record, its parent record if any, and its children list.
- **The store** is a class (`Store.TreeStore`):
  - the records and the adjacency map are `const` fields;
  - the children arrays are a mutable field `children: map<Id, seq<Item>>`.
- **`getDescendants`** takes the stored array of `id` itself and pushes the result of each recursive call onto that array. Its `for...of` loop keeps walking the grown array, so:
  - the stored lists grow permanently. After `getDescendants(2)`, `getChildren(2)` returns `[4, 5, 6, 7, 8]`;
  - results come "children, then appended chunks", not in pre-order;
  - records repeat from depth 3 on. On a fresh store of the test data, `getDescendants(1)` is `[2, 3, 4, 5, 6, 7, 8, 7, 8]`;
  - a second call can return more than the first. It does when some child has children of its own (`getDescendants(2)` on the test data); for an id whose children are all leaves it returns the same list again (`getDescendants(4)`).

  The method is a recursive `while` loop proved against a value-level definition, `Descendants.Expand`, and every property is proved about that definition. `Expand` splits the growing loop into passes, so that its termination is visible.
- **`getAncestors`** is a `while` loop. The first hop uses the entry's stored `parent`, which resolves to the first record with that id. Every later hop looks the previous record's `parent` up in the map, which gives the last record with that id. The loop is proved against `Ancestors.Walk`.
- **Termination.** Neither traversal guards against a parent cycle. Both require `Ranking.Acyclic(items)`: some rank map puts every record's id strictly below its parent's id, and each rank is below the number of records. That rank is the termination measure. `Cycles.AcyclicIffNoCycle` shows that this holds exactly when no parent chain returns to the id it started from, so the bound on ranks excludes nothing else.

Points where the code's behaviour is easy to misread:

- `getDescendants` is not a depth-first pre-order, does not list each descendant once, and is not read-only. It lists children before grandchildren, can repeat records, and extends the stored lists. The test at src/tree-store.test.ts:67-75 expects `[4, 5, 6, 7, 8]` for id 2. That is the code's order; a pre-order walk would give `[4, 7, 8, 5, 6]`.
- `getAncestors` includes the top record. The test at src/tree-store.test.ts:87-93 expects `[4, 2, 1]` for id 7, and record 1 has parent `"root"`. The walk ends only at the sentinel `"root"`, which is no record's id.
- An id that occurs only as a `parent` value (such as `"root"`) has no entry. `getChildren` and `getDescendants` return `[]` for it.

## Model

| member | source | states |
|---|---|---|
| Records.Id | src/tree-store.ts:1 | `TreeStoreId`, a string or a number. The two cases are distinct values, so no id of one kind equals an id of the other |
| Records.TypeTag | src/tree-store.ts:14 | the optional `type` field: left out, `null`, or a string |
| Records.Item | src/tree-store.ts:11-15 | `TreeStoreItem`: an `id`, a `parent` id and the `type` field |
| Adjacency.Adjacency | src/tree-store.ts:3-7 | `TreeStoreItemAdjacency`: the record, its parent record or `None` for `null`, and its children list |
| Adjacency.Filter | src/tree-store.ts:64 | plain definition of `items.filter((i) => i.parent === k)`: the records of the input whose `parent` is `k`, in input order. Its properties are `FilterMembers` and `FilterAppend` |
| Adjacency.Find | src/tree-store.ts:65 | `items.find` on the id: `None` exactly when no record has the id, otherwise the first record with it |
| Adjacency.LastById | src/tree-store.ts:59-61 | the `Map` built from `items.map`: its keys are the ids of the input, and each id maps to the last record with that id |
| Adjacency.Entry | src/tree-store.ts:62-66 | plain definition of the entry literal built for one record: the record itself, `Find` of its `parent` as the parent, and `Filter` on its id as the children. `CreateAdjacencyMap` states what each entry holds |
| Adjacency.CreateAdjacencyMap | src/tree-store.ts:58-69 | keys: one entry per input id. `item`: the last record with the id (so it has that id and is a record of the input). `children`: the in-order filter of records whose `parent` is the id. `parent`: the first record whose id is the item's `parent` |
| Adjacency.FilterMembers | src/tree-store.ts:64 | the children filter holds exactly the records whose `parent` is the id, and no more elements than the input |
| Adjacency.FilterAppend | src/tree-store.ts:64 | the filter distributes over concatenation, so it keeps input order |
| Adjacency.LastExists | src/tree-store.ts:59-61 | every id of the input has a last occurrence, so the map has an entry for it |
| Adjacency.InitialChildren | src/tree-store.ts:64 | the children lists of a newly built map: one per input id, each the filter on that id |
| Ranking.ChainRanksDecrease | src/tree-store.ts:36-56 | along every parent chain of an acyclic input the ranks strictly decrease, so no chain returns to an id: there is no cycle of any length |
| Ranking.RankBound | src/tree-store.ts:36-56 | every record of a ranked input has a rank below the input length |
| Ranking.RankStep | src/tree-store.ts:50-53 | one parent link raises the rank |
| Cycles.AcyclicHasNoCycle | src/tree-store.ts:36-56 | a ranked input has no parent chain that ends at the id it started from |
| Cycles.NoCycleIsAcyclic | src/tree-store.ts:36-56 | conversely, an input without such a chain is ranked, with ranks below the number of records: each id ranks by how many distinct ids descend from it |
| Cycles.AcyclicIffNoCycle | src/tree-store.ts:36-56 | both directions: the precondition of both traversals holds exactly for the inputs without a parent cycle |
| Cycles.NotOwnDescendant | src/tree-store.ts:36-56 | without a cycle, no record with a record's id descends from that record |
| Cycles.ParentHasMore | src/tree-store.ts:64 | without a cycle, a record's parent has strictly more descendant ids than the record: all of the record's, and the record's own |
| Cycles.IdsBound | src/tree-store.ts:59-61 | the `Map` has no more keys than there are records |
| Store.TreeStore.constructor | src/tree-store.ts:20-22 | keeps the records as given and starts with the children lists of the adjacency map. The stored lists then have the invariant shape `Valid` |
| Store.TreeStore.GetAll | src/tree-store.ts:24-26 | returns the records exactly as given. No operation reassigns them |
| Store.TreeStore.Get | src/tree-store.ts:28-30 | `None` exactly when no record has the id (no coercion between `Num` and `Str`). Otherwise the last record with that id |
| Store.TreeStore.First | src/tree-store.ts:48 | the first hop of `getAncestors`: `None` for an unknown id. Otherwise the first record whose id is the node's `parent` |
| Store.TreeStore.GetChildren | src/tree-store.ts:32-34 | `[]` for an unknown id. For a known id: extends its direct-children filter, and on a fresh store equals it. Every element descends from the id |
| Store.TreeStore.GetDescendants | src/tree-store.ts:36-44 | for an unknown id: `[]`, with no state change. For a known id: the stored lists become `Expand` of the old lists, and the result is the new stored list of the id. That list extends the old one and holds exactly the descendants of the id. The invariant `Valid` is kept |
| Store.PassTurn | src/tree-store.ts:39-41 | when the loop index reaches the end of a pass, the next pass covers what the last one appended, under a lower bound |
| Store.TreeStore.AdjacenciesResolve | src/tree-store.ts:58-69 | every entry of the map holds a record of the input under its own id |
| Store.TreeStore.GetAncestors | src/tree-store.ts:46-56 | empty exactly when the first hop does not resolve. Otherwise it starts at the stored parent, each later element is `get` of the previous element's `parent`, and `get` of the last element's `parent` is `None`. No id repeats |
| Ancestors.Lookup | src/tree-store.ts:52 | plain definition of `adjacencies.get(k)?.item`: the record stored under `k`, or `None` when `k` has no entry. `Store.TreeStore.Get` states its contract for the store's own map |
| Ancestors.Walk | src/tree-store.ts:46-56 | plain definition of the records the loop collects once it holds a hop: the hop, then the walk from the lookup of its `parent`, until a lookup fails. Its properties are `WalkLinks`, `WalkUnique`, `WalkRises` and `WalkDistinct` |
| Ancestors.HopRaisesRank | src/tree-store.ts:52 | a map hop from a record lands on a record of the input, with the looked-up id, ranked strictly higher |
| Ancestors.WalkStep | src/tree-store.ts:50-53 | one turn of the loop moves the hop onto the collected list, and the collected list followed by the rest of the walk is unchanged |
| Ancestors.WalkLinks | src/tree-store.ts:46-56 | the walk is empty exactly when there is no first hop. It starts at the hop, links each record to the lookup of the previous record's `parent`, and ends where a lookup fails |
| Ancestors.WalkUnique | src/tree-store.ts:46-56 | any list with the four `WalkLinks` properties is the walk, so `getAncestors`' postconditions determine its result |
| Ancestors.WalkRises | src/tree-store.ts:50-53 | every record after the first ranks above the first |
| Ancestors.WalkDistinct | src/tree-store.ts:46-56 | the walk never visits an id twice |
| Descendants.Expand | src/tree-store.ts:36-44 | `getDescendants(x)` on the stored lists keeps them well ranked, with the same ids. For an unknown id or a leaf, nothing changes |
| Descendants.Visit | src/tree-store.ts:40 | one push: the lists stay well ranked with the same ids, and the list of `x` does not shrink |
| Descendants.ExpandFrom | src/tree-store.ts:39-41 | the rest of the loop keeps the lists well ranked with the same ids. At the end of the list it changes nothing |
| Descendants.Loop | src/tree-store.ts:39-41 | the loop from an index over the list as it stands, with the same guarantees |
| DescendantsLaws.FirstPass | src/tree-store.ts:37-39 | the first pass covers the stored list: everything in it ranks below the id |
| DescendantsLaws.VisitAppends | src/tree-store.ts:40 | a push keeps the walked list as a prefix and appends only records ranked below the visited child |
| DescendantsLaws.NewPass | src/tree-store.ts:39 | with elements left at the end of a pass, the bound is still positive, and the next pass gives the same result |
| DescendantsLaws.PassStep | src/tree-store.ts:39-41 | inside a pass, the loop is the visit at the index followed by the loop from the next index |
| DescendantsLaws.PassIrrelevant | src/tree-store.ts:39-41 | the result does not depend on how the growing list is split into passes |
| DescendantsLaws.StepIrrelevant | src/tree-store.ts:39-41 | the same, for a walk that is inside a pass |
| DescendantsLaws.ExpandIsLoop | src/tree-store.ts:37-43 | `getDescendants(x)` is its loop run from index 0 over the stored list |
| DescendantsLaws.LoopStep | src/tree-store.ts:39-41 | while the index is inside the growing list, the loop visits the element there and then goes on from the next index over the grown list |
| DescendantsLaws.VisitLeaf | src/tree-store.ts:40 | visiting a leaf pushes its empty list and changes nothing |
| DescendantsLaws.LoopOverLeaves | src/tree-store.ts:39-41 | when every remaining element is a leaf, the rest of the loop changes nothing |
| DescendantsLaws.ExpandOverLeaves | src/tree-store.ts:36-44 | a node whose stored children are all leaves is left as it is |
| DescendantsLaws.ExtendsTrans | src/tree-store.ts:39-41 | growth and "leaves higher ids alone" compose over successive steps |
| DescendantsLaws.ExpandExtends | src/tree-store.ts:36-44 | `getDescendants(x)` keeps the ids and only grows lists at their ends. It leaves alone the list of every other id ranked at least as high as `x` |
| DescendantsLaws.ExpandFromExtends | src/tree-store.ts:39-41 | the rest of the loop extends the lists in the same way |
| DescendantsLaws.StepExtends | src/tree-store.ts:39-41 | one visit followed by the rest of the loop extends the lists |
| DescendantsLaws.VisitExtends | src/tree-store.ts:40 | one push extends the lists |
| DescendantsLaws.ExpandKeeps | src/tree-store.ts:40 | the recursive call on a stored child leaves the parent's list alone, so the push extends the list being walked |
| DescendantsLaws.DescendsTrans | src/tree-store.ts:40 | a descendant of a descendant is a descendant |
| DescendantsLaws.ExpandSound | src/tree-store.ts:36-44 | after `getDescendants`, every stored list still holds only descendants of its id |
| DescendantsLaws.ExpandFromSound | src/tree-store.ts:39-41 | the rest of the loop keeps that |
| DescendantsLaws.StepSound | src/tree-store.ts:39-41 | one visit followed by the rest of the loop keeps that |
| DescendantsLaws.VisitSound | src/tree-store.ts:40 | a push adds descendants of the visited child, which descend from `x` too |
| DescendantsLaws.GrowsDirect | src/tree-store.ts:64 | lists that only grow keep every direct child they held |
| DescendantsLaws.ExpandFromCloses | src/tree-store.ts:39-41 | the loop visits every element of the final list, so the list holds the direct children of each element |
| DescendantsLaws.StepCloses | src/tree-store.ts:39-41 | the same, starting with a visit |
| DescendantsLaws.VisitCloses | src/tree-store.ts:40 | a visit adds the direct children of the visited element |
| DescendantsLaws.ChainStaysIn | src/tree-store.ts:36-44 | a parent chain that starts in a list closed under direct children stays in it |
| DescendantsLaws.ExpandCloses | src/tree-store.ts:36-44 | after `getDescendants(x)`, the list of `x` holds the direct children of each of its elements |
| DescendantsLaws.SoundIn | src/tree-store.ts:36-44 | a member of a stored list descends from that list's id |
| DescendantsLaws.ExpandExactlyDescendants | src/tree-store.ts:36-44 | the result of `getDescendants(x)` holds a record exactly when the record descends from `x`. A record may occur more than once |
| StoreShape.InitialShape | src/tree-store.ts:64 | the initial lists hold only direct children, hence descendants, and hold all of them. Under an acyclic input they are well ranked |
| StoreShape.InitialRanked | src/tree-store.ts:64 | the initial lists of an acyclic input are well ranked |
| StoreShape.PrefixDirect | src/tree-store.ts:64 | lists that extend the direct-children filters hold every direct child |
| StoreShape.StartTurn | src/tree-store.ts:37 | before the loop: the first pass covers the stored list, and the walk it starts returns exactly the descendants, extending the list |
| StoreShape.NextPass | src/tree-store.ts:39 | at the end of a pass with elements left, the next pass covers what was appended |
| StoreShape.StepTurn | src/tree-store.ts:39-41 | one turn of the loop: the element is a known id ranked below `id`, and pushing what its recursive call returns keeps the loop state |
| StoreShape.EndTurn | src/tree-store.ts:43 | once the loop has walked the whole list, the lists are those the call leaves |
| Scenario.FixtureAcyclic | src/tree-store.test.ts:3-14 | the test fixture has no parent cycle |
| Scenario.FixtureIds | src/tree-store.test.ts:3-14 | the fixture's ids are 1 to 8 |
| Scenario.Unknown | src/tree-store.test.ts:30-36 | no record of the fixture has an id other than 1 to 8 |
| Scenario.FilterFixture | src/tree-store.test.ts:3-14 | the children filter of the fixture, record by record |
| Scenario.FixtureFilters | src/tree-store.test.ts:40-55 | the children filter of each fixture id: 1 has 2 and 3; 2 has 4, 5 and 6; 4 has 7 and 8; the rest have none |
| Scenario.FixtureChildren | src/tree-store.test.ts:40-55 | a fresh store of the fixture holds exactly those lists |
| Scenario.FourIsStable | src/tree-store.test.ts:3-14 | `getDescendants(4)` changes nothing while 7 and 8 are leaves |
| Scenario.VisitOnStable | src/tree-store.ts:40 | a visit whose recursive call changes nothing just pushes the child's list |
| Scenario.PushFourAt | src/tree-store.ts:39-41 | reaching 4 pushes 7 and 8; when the rest are leaves, nothing else changes |
| Scenario.DescendantsOfTwo | src/tree-store.test.ts:67-75 | on a fresh store `getDescendants(2)` gives `[4, 5, 6, 7, 8]`, which becomes the stored list of 2 |
| Scenario.DescendantsOfTwoAgain | src/tree-store.ts:36-44 | a second `getDescendants(2)` gives `[4, 5, 6, 7, 8, 7, 8]` |
| Scenario.RootFirstVisit | src/tree-store.ts:39-41 | the first visit of `getDescendants(1)` pushes the result of the call on 2 |
| Scenario.RootSecondVisit | src/tree-store.ts:39-41 | the second visit, of the leaf 3, changes nothing |
| Scenario.RootRest | src/tree-store.ts:39-41 | the walk reaches 4 again in the grown list and pushes 7 and 8 a second time |
| Scenario.DescendantsOfRoot | src/tree-store.ts:36-44 | on a fresh store `getDescendants(1)` gives `[2, 3, 4, 5, 6, 7, 8, 7, 8]` and leaves the list of 2 extended |
| Scenario.FixtureStore | src/tree-store.test.ts:17 | `new TreeStore(SEQUENTAL_ITEMS)`: a new store whose records are the fixture. It satisfies `Valid`, and its stored lists are the fixture's direct-children lists |
| Scenario.GetSeven | src/tree-store.test.ts:26-28 | `get(7)` is the record with id 7 |
| Scenario.GetText | src/tree-store.test.ts:30-32 | `get("7")` is `null`: no coercion |
| Scenario.GetMissing | src/tree-store.test.ts:34-36 | `get(69)` is `null` |
| Scenario.ChildrenOfTwo | src/tree-store.test.ts:48-53 | `getChildren(2)` is `[4, 5, 6]` |
| Scenario.ChildrenOfFour | src/tree-store.test.ts:54 | `getChildren(4)` is `[7, 8]` |
| Scenario.ChildrenOfLeaf | src/tree-store.test.ts:44-46 | `getChildren(5)` is empty |
| Scenario.ChildrenOfUnknown | src/tree-store.test.ts:40-42 | `getChildren(69)` is empty |
| Scenario.ChildrenOfParentOnly | src/tree-store.ts:32-34 | `getChildren("root")` is empty: an id that is only a `parent` value has no entry |
| Scenario.DescendantsScenario | src/tree-store.test.ts:67-75 | `getDescendants(2)` gives `[4, 5, 6, 7, 8]`. The following `getChildren(2)` gives the same list. A second `getDescendants(2)` gives `[4, 5, 6, 7, 8, 7, 8]` |
| Scenario.RootScenario | src/tree-store.ts:36-44 | on a fresh store `getDescendants(1)` gives `[2, 3, 4, 5, 6, 7, 8, 7, 8]` |
| Scenario.WalkFromFour | src/tree-store.test.ts:87-93 | in the fixture the walk from 4 goes to 2, then to 1, and stops |
| Scenario.FixtureLookups | src/tree-store.test.ts:87-93 | the first hop from 7 is 4; the map lookups of 2 and 1 resolve; the lookup of `"root"` does not |
| Scenario.AncestorsOfSeven | src/tree-store.test.ts:87-93 | `getAncestors(7)` is `[4, 2, 1]` |
| Scenario.AncestorsOfTop | src/tree-store.test.ts:79-81 | `getAncestors(1)` is empty |
| Scenario.AncestorsOfUnknown | src/tree-store.test.ts:83-85 | `getAncestors(69)` is empty |

## Left out

- Cyclic input. A traversal that meets a parent cycle may not terminate. `getDescendants` recurses forever, until the stack overflows, once it reaches an id on a cycle. `getAncestors` can still stop, because its later hops take the last record with an id. On `[{1, 2}, {2, 1}, {2, "root"}]`, `getAncestors(1)` returns the records `{2, 1}`, `{1, 2}` and `{2, "root"}` and stops. The model requires the whole input to be acyclic. That also excludes calls that terminate on a cyclic input, such as `getAncestors(1)` or `getDescendants(1)` on `[{1, "root"}, {2, 3}, {3, 2}]`, which both return `[]`. No behaviour is stated for cyclic inputs.
- JS `Map` hashing and SameValueZero key equality. A map keyed by the tagged `Id` has the same lookup behaviour for strings and finite numbers. `NaN`, `-0` and non-integer numeric ids are not modelled: `Num` holds an integer.
- Object identity and aliasing. Records are values, and structural equality stands in for the tests' `toStrictEqual`. In the source, `getChildren` and `getDescendants` return the stored array itself, so a later `getDescendants` that pushes into that array also changes an array the caller already holds. For example, after `const c = store.getChildren(2); store.getDescendants(2);`, `c` is `[4, 5, 6, 7, 8]`. The model's results are values as of the return, and later growth of an array the caller holds is not modelled. In `Scenario.DescendantsScenario`, the three results are one array in the source, which ends as `[4, 5, 6, 7, 8, 7, 8]`. The model states each one as it was when returned. A caller that mutates a returned array itself is not modelled either.
- The `type` field is carried as opaque data (`Absent`, `Null` or a string). No operation reads it.
- JavaScript engine limits. `getDescendants` recurses once per tree level (src/tree-store.ts:40), so a deep enough chain overflows the call stack with a `RangeError`. `children.push(...sub)` passes `sub` as call arguments, so a long enough list throws a `RangeError`, and repeated calls keep growing the stored lists. Numeric ids are IEEE doubles, so distinct integers above 2^53 can collapse to one key. The model has unbounded recursion depth, unbounded lists and unbounded integer ids, and it returns a result in all of these cases.
- The Jest harness (`describe`/`it`/`expect`). The fixture and the expected values appear as the `Scenario` module. The "descendants" empty cases at src/tree-store.test.ts:59-65 actually call `getChildren`, and appear as `Scenario.ChildrenOfUnknown` and `Scenario.ChildrenOfLeaf`.
- The caller keeping a reference to the input array and mutating it after construction. The model's `items` is an immutable sequence.
- Store.TreeStore.GetAncestors: its postconditions determine the result only together with `Ancestors.WalkUnique`. Its contract states the links rather than naming the list, because the walk function needs the rank, which is ghost.
