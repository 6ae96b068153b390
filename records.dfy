/** The records a tree store is built from (src/tree-store.ts, `TreeStoreId` and `TreeStoreItem`). */
module Records {

  datatype Option<+T> = None | Some(value: T)

  /** `TreeStoreId = string | number`. The two cases never compare equal: the store's
      `Map` and `===` do not coerce, so `Num(7)` and `Str("7")` are different keys. */
  datatype Id = Str(s: string) | Num(n: int)

  /** The optional `type?: string | null` field, carried as opaque data:
      left out of the literal, present as `null`, or a string. */
  datatype TypeTag = Absent | Null | Text(s: string)

  /** One flat input record `{ id, parent, type? }`. */
  datatype Item = Item(id: Id, parent: Id, kind: TypeTag)

  /** The ids that occur in `s`. */
  function Ids(s: seq<Item>): set<Id> {
    set j | 0 <= j < |s| :: s[j].id
  }

  /** Index `j` holds the first record of `s` whose id is `k`. */
  predicate FirstWithId(s: seq<Item>, k: Id, j: int) {
    0 <= j < |s| && s[j].id == k && forall i :: 0 <= i < j ==> s[i].id != k
  }

  /** Index `j` holds the last record of `s` whose id is `k`. */
  predicate LastWithId(s: seq<Item>, k: Id, j: int) {
    0 <= j < |s| && s[j].id == k && forall i :: j < i < |s| ==> s[i].id != k
  }
}
