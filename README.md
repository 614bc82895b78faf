# debbie, modelled in Dafny

debbie is a small in-memory table with secondary indexes. A `Table` holds
records in insertion order. A record is addressed by a `Row`, which is its
position as a 32-bit number. Every `insert` and every `update_row` goes
through the table's indexer, and the indexer forwards the record to its
indexes. There are three kinds of index:

- a **unique** index maps a key to one row, and the last write wins;
- a **discrete** index maps a key to the selection of rows holding it;
- a **boolean** index keeps the selection of rows passing a test.

A `Selection` is a set of rows, backed by a compressed bitmap. A `Query`
narrows a selection with `and`, `or`, `only_row` and the index lookups. It
then reads the selected records in ascending row order (`iter`, `first`,
`collect`, `count`), or rewrites each of them with `apply`.

The files:

- `selection.dfy` (module `Selections`) has `Row` and the `Selection` class.
  The bitmap is a `set` of 32-bit numbers. `Rows()` is its ascending
  enumeration.
- `index.dfy` (module `Indexes`) has the three index classes. Each `Add` and
  `Remove` is proved to produce the state given by a pure function on the old
  state (`UniqueAdded`, `DiscreteAdded`, `BooleanRemoved`, ...).
- `consistency.dfy` (module `Consistency`) defines when an index agrees with
  the records. It proves that `insert` and `update_row` keep each kind of
  index in agreement. The discrete and boolean indexes always stay in
  agreement. The unique index never holds a stale entry: every key it holds
  names a stored row with that key. Starting from an index that names every
  row, each `insert` or `update_row` keeps it naming every row exactly when
  no other row holds the new id (`Consistency.UniqueInsertKeeps`,
  `Consistency.UniqueUpdateKeeps`). Distinct ids alone do not restore this
  once it is lost: see the swap below.
- `person.dfy` (module `People`) has the crate's `Person` record and its
  `PersonIndexer`: a unique index on `id`, a discrete index on `last_name`
  and a boolean index on "age at least 18".
- `table.dfy` (module `Tables`) has the `Table` and `Query` classes. Each is
  proved against the abstract `TableState` and its functions `Inserted`,
  `RowUpdated` and `Applied`.
- `scenarios.dfy` (module `Scenarios`) has the crate's own tests. Each test's
  checks are stated as the postcondition of a method that runs the same
  calls on the model.

One behaviour of the crate is worth knowing. `apply` runs `update_row` row by
row, and each `update_row` removes the old key and then adds the new one. So
the unique index can lose an entry even when the ids are distinct before and
after the `apply`. Swapping ids 1 and 2 of two records is an example: the
first update gives both records id 2 and takes over the second record's
entry, and the second update then deletes that entry.
`Tables.ApplySwappingIdsLosesAnId` proves this. The general statements are
`Tables.RowUpdatedIdsConsistent` and `Consistency.UniqueUpdateKeeps`: a single
update keeps the unique index in agreement exactly when no other row has the
new id.

## Model

| member | source | states |
|---|---|---|
| `Selections.Row.AsIndex` | src/selection.rs:29-31 | the position is below 2^32, and turning it back into a handle gives the same handle |
| `Selections.FromIndex` | src/selection.rs:22-27 | the handle's number is the position cast to 32 bits; positions below 2^32 come back unchanged |
| `Selections.AscendingLength` | src/selection.rs:87-89 | the ascending enumeration holds one entry per member below the bound |
| `Selections.Selection.Empty` | src/selection.rs:52-57 | the new selection has no rows |
| `Selections.Selection.Filled` | src/selection.rs:59-64 | the new selection holds exactly the rows `0 .. count-1` |
| `Selections.Selection.OfRow` | src/selection.rs:66-70 | the new selection holds exactly the given row |
| `Selections.Selection.FromRows` | src/selection.rs:134-138 | a row is in the new selection exactly when the sequence yields it |
| `Selections.Selection.Len` | src/selection.rs:79-81 | the length equals the number of rows the enumeration yields |
| `Selections.Selection.IsEmpty` | src/selection.rs:83-85 | the selection is empty exactly when its length is zero |
| `Selections.Selection.Rows` | src/selection.rs:87-89 | every member exactly once, only members, in strictly ascending order |
| `Selections.Selection.Add` | src/selection.rs:91-93 | the row becomes a member, and no other membership changes |
| `Selections.Selection.Remove` | src/selection.rs:95-97 | the row stops being a member, and no other membership changes |
| `Selections.Selection.Intersect` | src/selection.rs:106-112 | a new selection holding the rows in both operands |
| `Selections.Selection.Union` | src/selection.rs:114-120 | a new selection holding the rows in either operand |
| `Selections.Selection.IntersectWith` | src/selection.rs:122-126 | keeps only the rows also in the other selection, which is left unchanged |
| `Selections.Selection.UnionWith` | src/selection.rs:128-132 | adds the other selection's rows, which is left unchanged |
| `Selections.Selection.Clone` | src/selection.rs:45 | an independent new selection with the same rows |
| `Selections.AscendingHeadIsLeast` | src/table.rs:84-86 | the first row of the ascending enumeration is the least selected row |
| `Indexes.UniqueAdded` | src/index.rs:41-43 | the key now names the row whatever it named before; every other key is untouched |
| `Indexes.UniqueRemoved` | src/index.rs:45-47 | the key is gone whichever row it named; every other key is untouched |
| `Indexes.DiscreteAdded` | src/index.rs:82-92 | the row joins the key's group, which is created when absent; other groups are untouched |
| `Indexes.DiscreteRemoved` | src/index.rs:94-99 | the row leaves the key's group; an absent key changes nothing and an emptied group stays |
| `Indexes.BooleanAdded` | src/index.rs:123-127 | the row is a member afterwards exactly when the test held or it was one already |
| `Indexes.BooleanRemoved` | src/index.rs:129-131 | the row leaves the selection whatever the test says |
| `Indexes.UniqueIndex.constructor` | src/index.rs:25-30 | the index has the given key function and no entries |
| `Indexes.UniqueIndex.Get` | src/index.rs:32-34 | a row exactly when the key is present, and then the row it names |
| `Indexes.UniqueIndex.Add` | src/index.rs:41-43 | the new map is `UniqueAdded` of the old one under the record's key |
| `Indexes.UniqueIndex.Remove` | src/index.rs:45-47 | the new map is `UniqueRemoved` of the old one under the record's key |
| `Indexes.DiscreteIndex.constructor` | src/index.rs:65-71 | the index has the given key function and no groups |
| `Indexes.DiscreteIndex.Get` | src/index.rs:73-75 | the rows grouped under the key, and no rows for a key never added |
| `Indexes.DiscreteIndex.Add` | src/index.rs:82-92 | the new groups are `DiscreteAdded` of the old ones under the record's key |
| `Indexes.DiscreteIndex.Remove` | src/index.rs:94-99 | the new groups are `DiscreteRemoved` of the old ones under the record's key |
| `Indexes.BooleanIndex.constructor` | src/index.rs:110-115 | the index has the given test and an empty new selection |
| `Indexes.BooleanIndex.Get` | src/index.rs:117-119 | the selection the index itself owns, lent out rather than copied |
| `Indexes.BooleanIndex.Add` | src/index.rs:123-127 | the new selection is `BooleanAdded` of the old one with the test applied to the record |
| `Indexes.BooleanIndex.Remove` | src/index.rs:129-131 | the new selection is `BooleanRemoved` of the old one; the test is not consulted |
| `Consistency.UniqueReflectsDistinct` | src/index.rs:41-43 | a unique index can only agree with records whose keys are pairwise distinct |
| `Consistency.UniqueLookup` | src/index.rs:32-34 | in an agreeing unique index, a lookup names the one row with the key, and a miss means no row has it |
| `Consistency.EmptyReflects` | src/table.rs:143-148 | freshly built empty indexes agree with an empty table |
| `Consistency.DiscreteInsertKeeps` | src/index.rs:82-92 | adding the appended record keeps every group equal to the rows with that key |
| `Consistency.DiscreteUpdateKeeps` | src/table.rs:178-183 | remove with the old record, then add with the new one, keeps every group equal to the rows with that key |
| `Consistency.BooleanInsertKeeps` | src/index.rs:123-127 | adding the appended record keeps the selection equal to the rows passing the test |
| `Consistency.BooleanUpdateKeeps` | src/index.rs:123-131 | remove then add keeps the selection equal to the rows passing the test, although remove never tests |
| `Consistency.UniqueInsertSound` | src/index.rs:41-43 | after `insert`, every key of the unique index still names a stored row holding that key, even when the new key collides |
| `Consistency.UniqueUpdateSound` | src/table.rs:178-183 | after `update_row`, every key of the unique index still names a stored row holding that key, whatever the new key |
| `Consistency.UniqueInsertKeeps` | src/index.rs:41-43 | inserting keeps the unique index in agreement exactly when no stored record has the new key |
| `Consistency.UniqueUpdateKeeps` | src/index.rs:41-47 | an update keeps the unique index in agreement exactly when no other row has the new key |
| `People.IndexerState.Added` | src/lib.rs:41-45 | the id now names the row, the row joins its last name's group, and it is an adult row exactly when the record is an adult or it was one already |
| `People.IndexerState.Removed` | src/lib.rs:47-51 | the id is gone, the row leaves its last name's group, and it is no longer an adult row |
| `People.PersonIndexer.constructor` | src/lib.rs:29-37 | each index is built over its key or test (id, last name, age at least 18), all empty |
| `People.PersonIndexer.Add` | src/lib.rs:41-45 | the record reaches the id, last-name and adult indexes |
| `People.PersonIndexer.Remove` | src/lib.rs:47-51 | the record is removed from the id, last-name and adult indexes |
| `Tables.TableState.Inserted` | src/table.rs:157-161 | the record is appended after the old ones, and the indexes learn it under the next row |
| `Tables.TableState.RowUpdated` | src/table.rs:178-183 | only the row's record changes; afterwards its new id names the row, a changed id is gone, the row moves to its new last name's group, and it is an adult row exactly when the new record is an adult |
| `Tables.TableState.Applied` | src/table.rs:105-109 | updating rows never changes the number of records |
| `Tables.AppliedStep` | src/table.rs:105-109 | `apply` over one more row is `update_row` on that row after the earlier ones |
| `Tables.InsertedConsistent` | src/table.rs:157-161 | `insert` keeps the last-name and adult indexes in agreement with the records |
| `Tables.InsertedIdsConsistent` | src/table.rs:157-161 | `insert` keeps the id index in agreement exactly when the new id is not stored yet |
| `Tables.RowUpdatedConsistent` | src/table.rs:178-183 | `update_row` keeps the last-name and adult indexes in agreement, whatever the update does |
| `Tables.RowUpdatedIdsConsistent` | src/table.rs:178-183 | `update_row` keeps the id index in agreement exactly when no other row has the new id |
| `Tables.AppliedConsistent` | src/table.rs:105-109 | `apply` keeps the last-name and adult indexes in agreement |
| `Tables.AppliedItems` | src/table.rs:105-109 | over distinct rows, `apply` updates each selected record once and leaves the rest as they were |
| `Tables.AppliedPair` | src/table.rs:105-109 | `apply` over two rows is `update_row` on the first, then on the second |
| `Tables.ApplySwappingIdsLosesAnId` | src/table.rs:105-109 | swapping two distinct ids with `apply` keeps the ids distinct, but id 2 is lost from the id index |
| `Tables.Table.InMemory` | src/table.rs:143-148 | no records, empty indexes, and the indexes agree with the records |
| `Tables.Table.Len` | src/table.rs:170-172 | the number of records stored |
| `Tables.Table.IsEmpty` | src/table.rs:174-176 | empty exactly when the length is zero |
| `Tables.Table.Select` | src/table.rs:150-155 | a new query on this table selecting every row `0 .. len-1` |
| `Tables.Table.Update` | src/table.rs:163-168 | a new query on this table selecting every row `0 .. len-1` |
| `Tables.Table.Insert` | src/table.rs:157-161 | the record is appended under the next row, the indexes learn it, and they stay in agreement |
| `Tables.Table.UpdateRow` | src/table.rs:178-183 | the indexes forget the old record, the record is rewritten, the indexes learn the new record, and they stay in agreement |
| `Tables.Table.RetrieveRow` | src/table.rs:185-187 | the record stored at the row |
| `Tables.Table.RetrieveMany` | src/table.rs:189-195 | one record per row, in the order of the rows given |
| `Tables.Query.constructor` | src/table.rs:26-33 | the query holds the given selection over the given table |
| `Tables.Query.And` | src/table.rs:46-49 | keeps the selected rows that are also in the argument |
| `Tables.Query.Or` | src/table.rs:51-54 | adds the rows of the argument |
| `Tables.Query.None` | src/table.rs:56-59 | selects no row |
| `Tables.Query.OnlyRow` | src/table.rs:61-64 | selects exactly the given row |
| `Tables.Query.MaybeOnlyRow` | src/table.rs:66-71 | selects the given row when there is one, and nothing otherwise |
| `Tables.Query.Only` | src/table.rs:73-76 | the query takes over the given selection |
| `Tables.Query.Iter` | src/table.rs:80-82 | one record per selected row, in ascending row order |
| `Tables.Query.First` | src/table.rs:84-86 | nothing exactly when no row is selected, and otherwise the record at the lowest selected row |
| `Tables.Query.Collect` | src/table.rs:88-93 | the selected records, one per selected row, in ascending row order |
| `Tables.Query.Count` | src/table.rs:95-97 | the number of records the query would yield |
| `Tables.Query.Apply` | src/table.rs:105-109 | the table's new state is `update_row` on each row selected at the start, in ascending order; the selection is unchanged |
| `Tables.Query.ById` | src/lib.rs:58-60 | selects the row the id index names for the id, or nothing; any selected row holds the id, and while ids are distinct it is the one row holding it |
| `Tables.Query.ByLastName` | src/lib.rs:62-64 | keeps the selected rows whose record has the last name |
| `Tables.Query.Adults` | src/lib.rs:66-68 | keeps the selected rows whose record is 18 or older |
| `Scenarios.ThreePeopleIndexed` | src/lib.rs:71-96 | the three inserted people have distinct ids, so the id index agrees with the records |
| `Scenarios.PeopleFixture` | src/lib.rs:71-96 | the shared table holds Aleksei, Polina and Olivia, in that order |
| `Scenarios.CanSelectAdults` | src/lib.rs:98-106 | selecting the adults yields two records, with ids 1 and 2 |
| `Scenarios.CanSelectByLastName` | src/lib.rs:108-116 | selecting "Zhuravleva" yields two records, with ids 2 and 3 |
| `Scenarios.FirstById` | src/lib.rs:121 | `select().by_id(id).first()` is nothing exactly when the id index lacks the id, and otherwise the record at the row it names, which has the id; while ids are distinct, nothing exactly when no record has the id |
| `Scenarios.CanSelectById` | src/lib.rs:118-125 | looking up id 1 finds a record with id 1 |
| `Scenarios.Filter` | src/lib.rs:130 | keeps every record passing the test and nothing else, each occurrence once, in the original order |
| `Scenarios.PicksKeptCons` | src/lib.rs:130 | filtering one more record in front extends the kept positions by that record's position when the test accepts it |
| `Scenarios.CanIterate` | src/lib.rs:127-134 | filtering every record for age below one year yields the record with id 3 alone |
| `Scenarios.ApplyById` | src/lib.rs:142 | `update().by_id(id).apply(f)` is `update_row` on the one row holding the id |
| `Scenarios.UpdatingSavesNewInfo` | src/lib.rs:136-145 | the age is 28 before the update and 29 after it |
| `Scenarios.FirstByLastName` | src/lib.rs:151 | `select().by_last_name(name).first()` is nothing exactly when no record has the name, and otherwise the record at the lowest row with it |
| `Scenarios.ApplyByLastName` | src/lib.rs:154 | `update().by_last_name(name).apply(f)` is `update_row` on the one row with that name |
| `Scenarios.UpdatingUpdatesIndexes` | src/lib.rs:147-160 | after renaming Voronov to Smith, "Voronov" finds nothing and "Smith" finds a record |

## Left out

- The compressed bitmap library behind `Selection` is not part of this model. A bitmap is the set of 32-bit numbers it holds.
- `Selections.Selection.Len` returns an unbounded number where the crate returns a `u64`. No selection of 32-bit numbers can overflow it.
- `Tables.Table.Insert` requires the table to stay below 2^32 records. The crate casts lengths to 32 bits without a check. Its 2^32-th insert still gets row 2^32 - 1, but then `select()` and `update()` cast the length 2^32 to 0 (src/table.rs:152, 165) and select nothing, and the insert after that reuses row 0. `Selections.FromIndex` models the cast.
- `Tables.Table.UpdateRow`, `Tables.Table.RetrieveRow` and `Tables.Table.RetrieveMany` require their rows to be in range. `Tables.Query.Iter`, `Tables.Query.First`, `Tables.Query.Collect` and `Tables.Query.Apply` require every selected row to be in range (`InRange`). The crate reads the vector without a bounds check (src/table.rs:179, 186), so an out-of-range row is undefined behaviour there. Selections built by the table and its indexes only hold stored rows, but `Tables.Query.Or` and `Tables.Query.Only` can bring in any row, and the model does not say what reading such a row does.
- The table is generic over its record type in the crate, and the record type chooses the indexer. The model fixes `Table` to `Person` and `PersonIndexer`, the one record type and indexer the crate defines. `EmptyIndexer`, the indexer that ignores every call, is not part of this model.
- `Query` does not tell a query over `&Table` from one over `&mut Table`. `Apply` is simply available on every query.
- `Query::indexer` is a plain field access in the model (`table.indexer`).
- `Default` for `Selection` is `Selections.Selection.Empty`, and `Default` for `PersonIndexer` is its constructor.
- The `Row`'s type marker is not modelled. A row is the same value whatever record type it points into.
- Lazy iterators are finite sequences. `Iter`, `Collect` and `RetrieveMany` build the whole sequence at once.
- `Indexes.DiscreteIndex.Get`: the crate lends a reference to a selection owned by the map, or to a shared empty selection. The model keeps each group as a set value and hands out a fresh selection with the same rows. It has no `empty` field.
- `Scenarios.ApplyById` and `Scenarios.ApplyByLastName` take the one matching row as a ghost parameter. The crate's tests find it through the index.
- `Person`'s update closures mutate the record in place. Here they are functions from the old record to the new one.
- Tests that panic on a failed assertion are stated instead as postconditions of the scenario methods.
