/**
  Secondary indexes over the records of a table. Each index is told about a
  record through `Add(row, item)` and forgets it through `Remove(row, item)`.
  The new state of every index after those calls is given by a function on
  its abstract state (`UniqueAdded`, `DiscreteAdded`, `BooleanAdded`, ...),
  and the methods are proved to produce exactly that state.
 */
module Indexes {
  import opened Options
  import opened Selections

  // Unique index: key -> row, last write wins.

  /** The unique-index map after `add`: the key now names `row`, whatever it named before. */
  function UniqueAdded<K(==,!new)>(rows: map<K, Row>, k: K, row: Row): (r: map<K, Row>)
    ensures k in r && r[k] == row
    ensures forall k' :: k' != k ==> (k' in r <==> k' in rows)
    ensures forall k' :: k' != k && k' in rows ==> r[k'] == rows[k']
  {
    rows[k := row]
  }

  /** The unique-index map after `remove`: the key is gone, whichever row it named. */
  function UniqueRemoved<K(==,!new)>(rows: map<K, Row>, k: K): (r: map<K, Row>)
    ensures k !in r
    ensures forall k' :: k' != k ==> (k' in r <==> k' in rows)
    ensures forall k' :: k' != k && k' in rows ==> r[k'] == rows[k']
  {
    rows - {k}
  }

  // Discrete index: key -> set of rows.

  /** The rows grouped under `k`; a key never added has the empty group. */
  function GroupOf<K(==,!new)>(groups: map<K, set<U32>>, k: K): set<U32>
  {
    if k in groups then groups[k] else {}
  }

  /** The groups after `add`: `row` joins the group of `k`, which is created when absent. */
  function DiscreteAdded<K(==,!new)>(groups: map<K, set<U32>>, k: K, row: U32): (r: map<K, set<U32>>)
    ensures GroupOf(r, k) == GroupOf(groups, k) + {row}
    ensures r.Keys == groups.Keys + {k}
    ensures forall k' :: k' != k ==> GroupOf(r, k') == GroupOf(groups, k')
  {
    groups[k := GroupOf(groups, k) + {row}]
  }

  /**
    The groups after `remove`: `row` leaves the group of `k`; an absent key is
    a no-op and a group that becomes empty stays in the map.
   */
  function DiscreteRemoved<K(==,!new)>(groups: map<K, set<U32>>, k: K, row: U32): (r: map<K, set<U32>>)
    ensures GroupOf(r, k) == GroupOf(groups, k) - {row}
    ensures r.Keys == groups.Keys
    ensures forall k' :: k' != k ==> GroupOf(r, k') == GroupOf(groups, k')
  {
    if k in groups then groups[k := groups[k] - {row}] else groups
  }

  // Boolean index: the rows whose record satisfies a test.

  /** The selection after `add`: `row` joins exactly when the test held of the record. */
  function BooleanAdded(selection: set<U32>, holds: bool, row: U32): (r: set<U32>)
    ensures row in r <==> holds || row in selection
    ensures forall x :: x != row ==> (x in r <==> x in selection)
  {
    if holds then selection + {row} else selection
  }

  /** The selection after `remove`: `row` leaves, whatever the test says now. */
  function BooleanRemoved(selection: set<U32>, row: U32): (r: set<U32>)
    ensures row !in r
    ensures forall x :: x != row ==> (x in r <==> x in selection)
  {
    selection - {row}
  }

  /** Maps the key of each record to the single row that holds it. */
  class UniqueIndex<T, K(==,!new)> {
    const key: T -> K
    var rows: map<K, Row>

    constructor (key: T -> K)
      ensures this.key == key && rows == map[]
    {
      this.key := key;
      rows := map[];
    }

    /** The row last added under `k`, if the key is present. */
    function Get(k: K): (r: Option<Row>)
      reads this
      ensures r.Some? <==> k in rows
      ensures r.Some? ==> rows[k] == r.value
    {
      if k in rows then Some(rows[k]) else None
    }

    method Add(row: Row, item: T)
      modifies this
      ensures rows == UniqueAdded(old(rows), key(item), row)
    {
      rows := rows[key(item) := row];
    }

    /** Deletes the key of `item`; the row argument plays no part. */
    method Remove(row: Row, item: T)
      modifies this
      ensures rows == UniqueRemoved(old(rows), key(item))
    {
      rows := rows - {key(item)};
    }
  }

  /**
    Maps the key of each record to the selection of rows holding that key.
    The map owns its selections, so each is kept here as the set of its rows.
   */
  class DiscreteIndex<T, K(==,!new)> {
    const key: T -> K
    var selections: map<K, set<U32>>

    constructor (key: T -> K)
      ensures this.key == key && selections == map[]
    {
      this.key := key;
      selections := map[];
    }

    /** A selection of the rows with key `k`, empty when the key has no group. */
    method Get(k: K) returns (s: Selection)
      ensures fresh(s)
      ensures s.bitmap == GroupOf(selections, k)
    {
      s := new Selection.Empty();
      if k in selections {
        s.bitmap := selections[k];
      }
    }

    method Add(row: Row, item: T)
      modifies this
      ensures selections == DiscreteAdded(old(selections), key(item), row.value)
    {
      var k := key(item);
      if k in selections {
        selections := selections[k := selections[k] + {row.value}];
      } else {
        var selection: set<U32> := {};
        selection := selection + {row.value};
        selections := selections[k := selection];
      }
    }

    method Remove(row: Row, item: T)
      modifies this
      ensures selections == DiscreteRemoved(old(selections), key(item), row.value)
    {
      var k := key(item);
      if k in selections {
        selections := selections[k := selections[k] - {row.value}];
      }
    }
  }

  /** Keeps the selection of rows whose record passes `test`. */
  class BooleanIndex<T> {
    const test: T -> bool
    const selection: Selection

    ghost function Repr(): set<object>
    {
      {this, selection}
    }

    constructor (test: T -> bool)
      ensures this.test == test && selection.bitmap == {} && fresh(selection)
    {
      this.test := test;
      selection := new Selection.Empty();
    }

    /** The selection the index owns, lent out rather than copied. */
    function Get(): (s: Selection)
      ensures s == selection
    {
      selection
    }

    method Add(row: Row, item: T)
      modifies selection
      ensures selection.bitmap == BooleanAdded(old(selection.bitmap), test(item), row.value)
    {
      if test(item) {
        selection.Add(row);
      }
    }

    /** Removes `row` without evaluating the test. */
    method Remove(row: Row, item: T)
      modifies selection
      ensures selection.bitmap == BooleanRemoved(old(selection.bitmap), row.value)
    {
      selection.Remove(row);
    }
  }
}
