/**
  The table: an append-only sequence of records plus the composite indexer
  that every insert and update goes through, and the query that narrows a
  selection of its rows and then reads or updates them.

  The table is generic over its record type in the crate, with the indexer
  chosen by the record type; here it is instantiated at `Person` and its
  `PersonIndexer`, the one record type the crate defines.
 */
module Tables {
  import opened Options
  import opened Selections
  import opened Indexes
  import opened Consistency
  import opened People

  /** The abstract state of a table: its records and the state of its indexes. */
  datatype TableState = TableState(items: seq<Person>, index: IndexerState)
  {
    /** The discrete and boolean indexes agree with the records, and the unique index has no stale entry. */
    ghost predicate Consistent()
    {
      index.Reflects(items)
    }

    /** The unique index agrees with the records. */
    ghost predicate IdsConsistent()
    {
      index.ByIdReflects(items)
    }

    /** `insert`: the indexer learns the record under the next row, then the record is appended. */
    function Inserted(item: Person): (r: TableState)
      ensures |r.items| == |items| + 1 && r.items[..|items|] == items && r.items[|items|] == item
      ensures item.id in r.index.byId && r.index.byId[item.id] == FromIndex(|items|)
      ensures FromIndex(|items|).value in GroupOf(r.index.byLastName, item.lastName)
      ensures IsAdult(item) ==> FromIndex(|items|).value in r.index.adults
    {
      TableState(items + [item], index.Added(FromIndex(|items|), item))
    }

    /** `update_row`: remove with the old record, replace the record, add with the new record. */
    function RowUpdated(row: Row, f: Person -> Person): (r: TableState)
      requires row.value < |items|
      ensures |r.items| == |items| && r.items[row.value] == f(items[row.value])
      ensures forall i :: 0 <= i < |items| && i != row.value ==> r.items[i] == items[i]
      ensures var y := f(items[row.value]); y.id in r.index.byId && r.index.byId[y.id] == row
      ensures var x, y := items[row.value], f(items[row.value]); x.id != y.id ==> x.id !in r.index.byId
      ensures row.value in GroupOf(r.index.byLastName, f(items[row.value]).lastName)
      ensures var x, y := items[row.value], f(items[row.value]);
        x.lastName != y.lastName ==> row.value !in GroupOf(r.index.byLastName, x.lastName)
      ensures row.value in r.index.adults <==> IsAdult(f(items[row.value]))
    {
      var before := items[row.value];
      var after := f(before);
      TableState(items[row.value := after], index.Removed(row, before).Added(row, after))
    }

    /** `apply`: `update_row` on each of `rows`, in the order given. */
    function Applied(rows: seq<Row>, f: Person -> Person): (r: TableState)
      requires forall i :: 0 <= i < |rows| ==> rows[i].value < |items|
      ensures |r.items| == |items|
      decreases |rows|
    {
      if rows == [] then this
      else Applied(rows[..|rows| - 1], f).RowUpdated(rows[|rows| - 1], f)
    }
  }

  /** `apply` over one more row is `update_row` on that row after the others. */
  lemma AppliedStep(st: TableState, rows: seq<Row>, i: nat, f: Person -> Person)
    requires i < |rows|
    requires forall j :: 0 <= j < |rows| ==> rows[j].value < |st.items|
    ensures rows[i].value < |st.Applied(rows[..i], f).items|
    ensures st.Applied(rows[..i + 1], f) == st.Applied(rows[..i], f).RowUpdated(rows[i], f)
  {
    assert rows[..i + 1][..i] == rows[..i];
  }

  /** Row `i` is one of `rows`. */
  ghost predicate Selected(rows: seq<Row>, i: int)
  {
    exists j :: 0 <= j < |rows| && rows[j].value == i
  }

  /** `insert` keeps the discrete and boolean indexes consistent and the unique index free of stale entries. */
  lemma InsertedConsistent(st: TableState, x: Person)
    requires |st.items| < U32Limit
    requires st.Consistent()
    ensures st.Inserted(x).Consistent()
  {
    DiscreteInsertKeeps(st.index.byLastName, LastNameOf, st.items, x);
    BooleanInsertKeeps(st.index.adults, IsAdult, st.items, x);
    UniqueInsertSound(st.index.byId, IdOf, st.items, x);
  }

  /** `insert` keeps the unique index consistent exactly when the new record's id is new. */
  lemma InsertedIdsConsistent(st: TableState, x: Person)
    requires |st.items| < U32Limit
    requires st.IdsConsistent()
    ensures st.Inserted(x).IdsConsistent() <==> forall i :: 0 <= i < |st.items| ==> st.items[i].id != x.id
  {
    UniqueInsertKeeps(st.index.byId, IdOf, st.items, x);
  }

  /** `update_row` keeps the discrete and boolean indexes consistent and the unique index free of stale entries, whatever the update does. */
  lemma RowUpdatedConsistent(st: TableState, row: Row, f: Person -> Person)
    requires row.value < |st.items|
    requires st.Consistent()
    ensures st.RowUpdated(row, f).Consistent()
  {
    var before := st.items[row.value];
    DiscreteUpdateKeeps(st.index.byLastName, LastNameOf, st.items, row.value, f(before));
    BooleanUpdateKeeps(st.index.adults, IsAdult, st.items, row.value, f(before));
    UniqueUpdateSound(st.index.byId, IdOf, st.items, row.value, f(before));
  }

  /** `update_row` keeps the unique index consistent exactly when no other row has the new id. */
  lemma RowUpdatedIdsConsistent(st: TableState, row: Row, f: Person -> Person)
    requires row.value < |st.items|
    requires st.IdsConsistent()
    ensures st.RowUpdated(row, f).IdsConsistent()
        <==> forall j :: 0 <= j < |st.items| && j != row.value ==> st.items[j].id != f(st.items[row.value]).id
  {
    UniqueUpdateKeeps(st.index.byId, IdOf, st.items, row.value, f(st.items[row.value]));
  }

  /** `apply` keeps the discrete and boolean indexes consistent. */
  lemma {:induction false} AppliedConsistent(st: TableState, rows: seq<Row>, f: Person -> Person)
    requires forall i :: 0 <= i < |rows| ==> rows[i].value < |st.items|
    requires st.Consistent()
    ensures st.Applied(rows, f).Consistent()
    decreases |rows|
  {
    if rows != [] {
      var prefix := rows[..|rows| - 1];
      AppliedConsistent(st, prefix, f);
      RowUpdatedConsistent(st.Applied(prefix, f), rows[|rows| - 1], f);
    }
  }

  /**
    `apply` over distinct rows updates each listed row once and leaves every
    other row as it was.
   */
  lemma {:induction false} AppliedItems(st: TableState, rows: seq<Row>, f: Person -> Person)
    requires forall i :: 0 <= i < |rows| ==> rows[i].value < |st.items|
    requires forall i, j :: 0 <= i < j < |rows| ==> rows[i] != rows[j]
    ensures forall i :: 0 <= i < |st.items| && Selected(rows, i) ==> st.Applied(rows, f).items[i] == f(st.items[i])
    ensures forall i :: 0 <= i < |st.items| && !Selected(rows, i) ==> st.Applied(rows, f).items[i] == st.items[i]
    decreases |rows|
  {
    if rows != [] {
      var prefix := rows[..|rows| - 1];
      var last := rows[|rows| - 1];
      AppliedItems(st, prefix, f);
      var mid := st.Applied(prefix, f);
      forall j | 0 <= j < |prefix| ensures prefix[j].value != last.value {
        assert prefix[j] == rows[j];
      }
      forall i | 0 <= i < |st.items| && i != last.value
        ensures Selected(rows, i) <==> Selected(prefix, i)
      {
        if Selected(rows, i) {
          var j :| 0 <= j < |rows| && rows[j].value == i;
          assert j < |prefix| && prefix[j] == rows[j];
        }
        if Selected(prefix, i) {
          var j :| 0 <= j < |prefix| && prefix[j].value == i;
          assert rows[j] == prefix[j];
        }
      }
      assert Selected(rows, last.value) by {
        assert rows[|rows| - 1] == last;
      }
    }
  }

  /** `apply` over two rows is `update_row` on the first, then on the second. */
  lemma AppliedPair(st: TableState, a: Row, b: Row, f: Person -> Person)
    requires a.value < |st.items| && b.value < |st.items|
    ensures st.Applied([a, b], f) == st.RowUpdated(a, f).RowUpdated(b, f)
  {
    assert [a, b][..1] == [a];
    assert [a][..0] == [];
    assert st.Applied([a], f) == st.RowUpdated(a, f);
  }

  /** Exchanges ids 1 and 2, leaving every other id alone. */
  function SwapIds(p: Person): Person
  {
    p.(id := if p.id == 1 then 2 else if p.id == 2 then 1 else p.id)
  }

  /** Two records with ids 1 and 2, inserted into an empty table. */
  function TwoPeople(): TableState
  {
    TableState([], EmptyIndexerState)
      .Inserted(Person(1, "Aleksei", "Voronov", 28))
      .Inserted(Person(2, "Polina", "Zhuravleva", 32))
  }

  lemma TwoPeopleIndexed()
    ensures TwoPeople().items == [Person(1, "Aleksei", "Voronov", 28), Person(2, "Polina", "Zhuravleva", 32)]
    ensures TwoPeople().index.byId == map[1 := Row(0), 2 := Row(1)]
    ensures TwoPeople().IdsConsistent()
  {
  }

  /** What `update_row` does to the unique index and the records, all other indexes aside. */
  lemma RowUpdatedById(st: TableState, row: Row, f: Person -> Person)
    requires row.value < |st.items|
    ensures st.RowUpdated(row, f).items == st.items[row.value := f(st.items[row.value])]
    ensures st.RowUpdated(row, f).index.byId
         == UniqueAdded(UniqueRemoved(st.index.byId, st.items[row.value].id), f(st.items[row.value]).id, row)
  {
  }

  /** Swapping the id of the first record takes over the second record's entry. */
  lemma SwapFirstRow()
    ensures TwoPeople().RowUpdated(Row(0), SwapIds).items
         == [Person(2, "Aleksei", "Voronov", 28), Person(2, "Polina", "Zhuravleva", 32)]
    ensures TwoPeople().RowUpdated(Row(0), SwapIds).index.byId == map[2 := Row(0)]
  {
    TwoPeopleIndexed();
    RowUpdatedById(TwoPeople(), Row(0), SwapIds);
    assert map[1 := Row(0), 2 := Row(1)] - {1} == map[2 := Row(1)];
  }

  /** Swapping the id of the second record then removes the entry the first record now holds. */
  lemma SwapSecondRow()
    ensures TwoPeople().RowUpdated(Row(0), SwapIds).RowUpdated(Row(1), SwapIds).items
         == [Person(2, "Aleksei", "Voronov", 28), Person(1, "Polina", "Zhuravleva", 32)]
    ensures TwoPeople().RowUpdated(Row(0), SwapIds).RowUpdated(Row(1), SwapIds).index.byId == map[1 := Row(1)]
  {
    SwapFirstRow();
    RowUpdatedById(TwoPeople().RowUpdated(Row(0), SwapIds), Row(1), SwapIds);
    assert map[2 := Row(0)] - {2} == map[];
  }

  /** `TwoPeople` after `apply(SwapIds)` over both of its rows. */
  function SwappedBoth(): TableState
  {
    TwoPeopleIndexed();
    TwoPeople().Applied([Row(0), Row(1)], SwapIds)
  }

  /** The records after swapping both ids with `apply`: the ids are still distinct. */
  lemma SwappedIdsDistinct()
    ensures |SwappedBoth().items| == 2
    ensures SwappedBoth().items[0].id == 2
    ensures SwappedBoth().items[1].id == 1
    ensures SwappedBoth().index.byId == map[1 := Row(1)]
  {
    TwoPeopleIndexed();
    AppliedPair(TwoPeople(), Row(0), Row(1), SwapIds);
    SwapSecondRow();
  }

  /**
    The unique index is not safe under `apply`: swapping the ids of two
    records row by row leaves the ids distinct before and after, yet the
    first `update_row` overwrites the second record's entry and the second
    `update_row` then removes the first record's entry, so id 2 is no longer
    found.
   */
  lemma ApplySwappingIdsLosesAnId()
    ensures TwoPeople().IdsConsistent()
    ensures KeysDistinct(IdOf, SwappedBoth().items)
    ensures 2 !in SwappedBoth().index.byId
    ensures !SwappedBoth().IdsConsistent()
  {
    TwoPeopleIndexed();
    SwappedIdsDistinct();
    var end := SwappedBoth();
    assert IdOf(end.items[0]) !in end.index.byId;
  }

  class Table {
    var items: seq<Person>
    const indexer: PersonIndexer

    /** The objects the table is made of: itself and its indexer. */
    ghost function Repr(): set<object>
    {
      {this} + indexer.Repr()
    }

    ghost predicate Valid()
      reads this, indexer.byId, indexer.byLastName, indexer.adults.selection
    {
      indexer.Valid() && |items| < U32Limit && State().Consistent()
    }

    /** The records and the state of the indexes. */
    ghost function State(): TableState
      reads this, indexer.byId, indexer.byLastName, indexer.adults.selection
    {
      TableState(items, indexer.State())
    }

    /** An empty table with a freshly built indexer. */
    constructor InMemory()
      ensures Valid() && fresh(Repr())
      ensures State() == TableState([], EmptyIndexerState)
    {
      items := [];
      indexer := new PersonIndexer();
      new;
      EmptyReflects(LastNameOf, IsAdult);
    }

    /** The number of records inserted so far. */
    function Len(): (n: nat)
      reads this
      ensures n == |items|
    {
      |items|
    }

    function IsEmpty(): (b: bool)
      reads this
      ensures b <==> Len() == 0
    {
      |items| == 0
    }

    /** A query over every row of the table. */
    method Select() returns (q: Query)
      requires Valid()
      ensures fresh(q) && fresh(q.selection)
      ensures q.table == this && q.Valid()
      ensures q.selection.bitmap == Range(|items|)
    {
      var all := new Selection.Filled(|items|);
      q := new Query(all, this);
    }

    /** A query over every row of the table, for `Apply`. */
    method Update() returns (q: Query)
      requires Valid()
      ensures fresh(q) && fresh(q.selection)
      ensures q.table == this && q.Valid()
      ensures q.selection.bitmap == Range(|items|)
    {
      var all := new Selection.Filled(|items|);
      q := new Query(all, this);
    }

    /**
      Appends `item` under the next row number. The indexer learns it
      before the record is stored.
     */
    method Insert(item: Person)
      requires Valid()
      requires |items| + 1 < U32Limit
      modifies Repr()
      ensures Valid()
      ensures State() == old(State()).Inserted(item)
      ensures old(State()).IdsConsistent() ==>
        (State().IdsConsistent() <==> forall i :: 0 <= i < |old(items)| ==> old(items)[i].id != item.id)
    {
      ghost var before := State();
      var row := FromIndex(|items|);
      indexer.Add(row, item);
      items := items + [item];
      assert State() == before.Inserted(item);
      InsertedConsistent(before, item);
      if before.IdsConsistent() {
        InsertedIdsConsistent(before, item);
      }
    }

    /**
      Updates the record at `row` in place: the indexer forgets it under its
      old value, `f` rewrites it, and the indexer learns its new value.
     */
    method UpdateRow(row: Row, f: Person -> Person)
      requires Valid()
      requires row.value < |items|
      modifies Repr()
      ensures Valid()
      ensures State() == old(State()).RowUpdated(row, f)
      ensures old(State()).IdsConsistent() ==>
        (State().IdsConsistent() <==> forall j :: 0 <= j < |old(items)| && j != row.value ==> old(items)[j].id != f(old(items)[row.value]).id)
    {
      ghost var before := State();
      var item := items[row.value];
      indexer.Remove(row, item);
      item := f(item);
      items := items[row.value := item];
      indexer.Add(row, item);
      assert State() == before.RowUpdated(row, f);
      RowUpdatedConsistent(before, row, f);
      if before.IdsConsistent() {
        RowUpdatedIdsConsistent(before, row, f);
      }
    }

    /** A copy of the record at `row`. */
    function RetrieveRow(row: Row): (item: Person)
      reads this
      requires row.value < |items|
      ensures item == items[row.value]
    {
      items[row.value]
    }

    /** Copies of the records at `rows`, one per row, in the order given. */
    function RetrieveMany(rows: seq<Row>): (r: seq<Person>)
      reads this
      requires forall i :: 0 <= i < |rows| ==> rows[i].value < |items|
      ensures |r| == |rows|
      ensures forall i :: 0 <= i < |rows| ==> r[i] == RetrieveRow(rows[i])
    {
      var stored := items;
      seq(|rows|, i requires 0 <= i < |rows| => stored[rows[i].value])
    }
  }

  /** A selection of rows of `table`, narrowed step by step, then read or updated. */
  class Query {
    var selection: Selection
    const table: Table

    ghost predicate Valid()
      reads this, table, table.indexer.byId, table.indexer.byLastName, table.indexer.adults.selection
    {
      table.Valid() && selection !in table.Repr()
    }

    /** Every selected row is a row of the table. */
    ghost predicate InRange()
      reads this, selection, table
    {
      forall x :: x in selection.bitmap ==> x < |table.items|
    }

    constructor (selection: Selection, table: Table)
      requires table.Valid() && selection !in table.Repr()
      ensures this.selection == selection && this.table == table && Valid()
    {
      this.selection := selection;
      this.table := table;
    }

    // Narrowing. Each step changes only the selection.

    /** Keeps the selected rows that are also in `s`. */
    method And(s: Selection)
      requires Valid()
      modifies selection
      ensures Valid() && selection == old(selection)
      ensures selection.bitmap == old(selection.bitmap) * old(s.bitmap)
    {
      selection.IntersectWith(s);
    }

    /** Adds the rows of `s` to the selection. */
    method Or(s: Selection)
      requires Valid()
      modifies selection
      ensures Valid() && selection == old(selection)
      ensures selection.bitmap == old(selection.bitmap) + old(s.bitmap)
    {
      selection.UnionWith(s);
    }

    /** Selects nothing. */
    method None()
      requires Valid()
      modifies this
      ensures Valid() && fresh(selection)
      ensures selection.bitmap == {}
    {
      selection := new Selection.Empty();
    }

    /** Selects `row` alone. */
    method OnlyRow(row: Row)
      requires Valid()
      modifies this
      ensures Valid() && fresh(selection)
      ensures selection.bitmap == {row.value}
    {
      selection := new Selection.OfRow(row);
    }

    /** Selects `row` alone when there is one, nothing otherwise. */
    method MaybeOnlyRow(maybeRow: Option<Row>)
      requires Valid()
      modifies this
      ensures Valid() && fresh(selection)
      ensures selection.bitmap == if maybeRow.Some? then {maybeRow.value.value} else {}
    {
      match maybeRow
      case Some(row) => OnlyRow(row);
      case None => this.None();
    }

    /** Replaces the selection by `s`, which the query takes over. */
    method Only(s: Selection)
      requires Valid()
      requires s !in table.Repr()
      modifies this
      ensures Valid() && selection == s
      ensures selection.bitmap == old(s.bitmap)
    {
      selection := s;
    }

    // Reading the selected records.

    /** Copies of the selected records, in ascending row order. */
    function Iter(): (r: seq<Person>)
      reads this, selection, table
      requires InRange()
      ensures |r| == selection.Len()
      ensures forall i :: 0 <= i < |r| ==> r[i] == table.items[selection.Rows()[i].value]
    {
      table.RetrieveMany(selection.Rows())
    }

    /** The record at the lowest selected row, if any row is selected. */
    function First(): (r: Option<Person>)
      reads this, selection, table
      requires InRange()
      ensures r.None? <==> selection.bitmap == {}
      ensures r.Some? ==> exists x :: x in selection.bitmap && r.value == table.items[x]
                                     && forall y :: y in selection.bitmap ==> x <= y
    {
      var all := Iter();
      if |all| == 0 then Option.None
      else
        var rows := selection.Rows();
        AscendingHeadIsLeast(rows, selection.bitmap);
        Some(all[0])
    }

    /** The selected records gathered into a sequence. */
    method Collect() returns (r: seq<Person>)
      requires InRange()
      ensures |r| == |selection.bitmap|
      ensures r == Iter()
    {
      r := Iter();
    }

    /** The number of selected rows, counted without reading any record. */
    function Count(): (n: nat)
      reads this, selection
      ensures n == |selection.Rows()|
    {
      selection.Len()
    }

    // Updating the selected records.

    /**
      Runs `UpdateRow(row, f)` for every row selected at the start, in
      ascending order. The selection itself does not change.
     */
    method Apply(f: Person -> Person)
      requires Valid() && InRange()
      modifies table.Repr()
      ensures Valid()
      ensures selection.bitmap == old(selection.bitmap)
      ensures table.State() == old(table.State()).Applied(old(selection.Rows()), f)
    {
      var rows := selection.Rows();
      ghost var start := table.State();
      assert this !in table.Repr();
      for i := 0 to |rows|
        invariant Valid()
        invariant selection.bitmap == old(selection.bitmap)
        invariant |table.items| == |start.items|
        invariant table.State() == start.Applied(rows[..i], f)
      {
        AppliedStep(start, rows, i, f);
        table.UpdateRow(rows[i], f);
      }
      assert rows[..|rows|] == rows;
    }

    // The lookups of the `Person` records.

    /**
      Selects the row the unique index gives for `id`, or nothing; the old
      selection plays no part. Whatever row it selects holds `id`, even when
      ids repeat.
     */
    method ById(id: U32)
      requires Valid()
      modifies this
      ensures Valid() && fresh(selection)
      ensures selection.bitmap == if id in table.indexer.byId.rows then {table.indexer.byId.rows[id].value} else {}
      ensures forall x :: x in selection.bitmap ==> x < |table.items| && table.items[x].id == id
      ensures table.State().IdsConsistent() ==> selection.bitmap == KeyRows(IdOf, table.items, id)
    {
      MaybeOnlyRow(table.indexer.byId.Get(id));
      if table.State().IdsConsistent() {
        UniqueLookup(table.indexer.byId.rows, IdOf, table.items, id);
      }
    }

    /** Keeps the selected rows whose record has last name `lastName`. */
    method ByLastName(lastName: string)
      requires Valid()
      modifies selection
      ensures Valid() && selection == old(selection)
      ensures selection.bitmap == old(selection.bitmap) * KeyRows(LastNameOf, table.items, lastName)
    {
      var group := table.indexer.byLastName.Get(lastName);
      And(group);
    }

    /** Keeps the selected rows whose record is an adult. */
    method Adults()
      requires Valid()
      modifies selection
      ensures Valid() && selection == old(selection)
      ensures selection.bitmap == old(selection.bitmap) * TestRows(IsAdult, table.items)
    {
      var adults := table.indexer.adults.Get();
      var copy := adults.Clone();
      And(copy);
    }
  }
}
