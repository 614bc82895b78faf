/**
  When an index agrees with the records of a table, and why `insert` and
  `update_row` keep it so. An index is consistent with `items` when its state
  is exactly what one `add(i, items[i])` per row would give, with nothing
  left over from earlier values of a record.
 */
module Consistency {
  import opened Selections
  import opened Indexes

  /** The rows whose record has key `k`. */
  ghost function KeyRows<T, K>(key: T -> K, items: seq<T>, k: K): set<U32>
  {
    set i: U32 | i < |items| && key(items[i]) == k
  }

  /** The rows whose record passes `test`. */
  ghost function TestRows<T>(test: T -> bool, items: seq<T>): set<U32>
  {
    set i: U32 | i < |items| && test(items[i])
  }

  /** Every group of the discrete index is exactly the set of rows whose record has that key. */
  ghost predicate DiscreteReflects<T, K(!new)>(groups: map<K, set<U32>>, key: T -> K, items: seq<T>)
  {
    forall k :: GroupOf(groups, k) == KeyRows(key, items, k)
  }

  /** The boolean index holds exactly the rows whose record passes the test. */
  ghost predicate BooleanReflects<T>(selection: set<U32>, test: T -> bool, items: seq<T>)
  {
    selection == TestRows(test, items)
  }

  /** Every key of the unique index names a stored row whose record has that key: no entry is stale. */
  ghost predicate UniqueSound<T, K(!new)>(rows: map<K, Row>, key: T -> K, items: seq<T>)
  {
    forall k :: k in rows ==> rows[k].value < |items| && key(items[rows[k].value]) == k
  }

  /** Every key of the unique index names a row with that key, and every row is named by its key. */
  ghost predicate UniqueReflects<T, K(!new)>(rows: map<K, Row>, key: T -> K, items: seq<T>)
  {
    && UniqueSound(rows, key, items)
    && (forall i :: 0 <= i < |items| ==> key(items[i]) in rows && rows[key(items[i])].value == i)
  }

  /** No two records share a key. */
  ghost predicate KeysDistinct<T, K>(key: T -> K, items: seq<T>)
  {
    forall i, j :: 0 <= i < j < |items| ==> key(items[i]) != key(items[j])
  }

  /** A unique index can only agree with records whose keys are distinct. */
  lemma UniqueReflectsDistinct<T, K(!new)>(rows: map<K, Row>, key: T -> K, items: seq<T>)
    requires UniqueReflects(rows, key, items)
    ensures KeysDistinct(key, items)
  {
    forall i, j | 0 <= i < j < |items| ensures key(items[i]) != key(items[j]) {
      assert rows[key(items[i])].value == i;
    }
  }

  /**
    What a lookup in a consistent unique index means: the row it names is
    the one row whose record has the key, and a miss means no row has it.
   */
  lemma UniqueLookup<T, K(!new)>(rows: map<K, Row>, key: T -> K, items: seq<T>, k: K)
    requires UniqueReflects(rows, key, items)
    ensures KeyRows(key, items, k) == if k in rows then {rows[k].value} else {}
  {
    UniqueReflectsDistinct(rows, key, items);
    if k in rows {
      forall i: U32 | i < |items| && key(items[i]) == k ensures i == rows[k].value {
        assert rows[key(items[i])].value == i;
      }
    } else {
      forall i: U32 | i < |items| ensures key(items[i]) != k {
        assert key(items[i]) in rows;
      }
    }
  }

  /** With no records, the fresh (empty) indexes agree. */
  lemma EmptyReflects<T, K(!new)>(key: T -> K, test: T -> bool)
    ensures DiscreteReflects(map[], key, [])
    ensures BooleanReflects({}, test, [])
    ensures UniqueReflects(map[], key, [])
  {
    forall k ensures GroupOf(map[], k) == KeyRows(key, [], k) {
      assert KeyRows(key, [], k) == {};
    }
    assert TestRows(test, []) == {};
  }

  /** `insert`: adding the new last row to a consistent discrete index keeps it consistent. */
  lemma DiscreteInsertKeeps<T, K(!new)>(groups: map<K, set<U32>>, key: T -> K, items: seq<T>, x: T)
    requires |items| < U32Limit
    requires DiscreteReflects(groups, key, items)
    ensures DiscreteReflects(DiscreteAdded(groups, key(x), |items|), key, items + [x])
  {
    var after := DiscreteAdded(groups, key(x), |items|);
    var items' := items + [x];
    forall k ensures GroupOf(after, k) == KeyRows(key, items', k) {
      var n: U32 := |items|;
      if k == key(x) {
        assert KeyRows(key, items', k) == KeyRows(key, items, k) + {n};
      } else {
        assert KeyRows(key, items', k) == KeyRows(key, items, k);
      }
    }
  }

  /**
    `update_row`: removing row `r` with its old record, then adding it with
    the new record `y`, keeps a consistent discrete index consistent.
   */
  lemma DiscreteUpdateKeeps<T, K(!new)>(groups: map<K, set<U32>>, key: T -> K, items: seq<T>, r: U32, y: T)
    requires r < |items|
    requires DiscreteReflects(groups, key, items)
    ensures DiscreteReflects(DiscreteAdded(DiscreteRemoved(groups, key(items[r]), r), key(y), r), key, items[r := y])
  {
    var after := DiscreteAdded(DiscreteRemoved(groups, key(items[r]), r), key(y), r);
    var items' := items[r := y];
    forall k ensures GroupOf(after, k) == KeyRows(key, items', k) {
      var without := KeyRows(key, items, k) - {r};
      assert KeyRows(key, items', k) == if key(y) == k then without + {r} else without;
    }
  }

  /** `insert` keeps a consistent boolean index consistent. */
  lemma BooleanInsertKeeps<T>(selection: set<U32>, test: T -> bool, items: seq<T>, x: T)
    requires |items| < U32Limit
    requires BooleanReflects(selection, test, items)
    ensures BooleanReflects(BooleanAdded(selection, test(x), |items|), test, items + [x])
  {
    var n: U32 := |items|;
    assert TestRows(test, items + [x]) == TestRows(test, items) + if test(x) then {n} else {};
  }

  /** `update_row` keeps a consistent boolean index consistent, although `remove` never evaluates the test. */
  lemma BooleanUpdateKeeps<T>(selection: set<U32>, test: T -> bool, items: seq<T>, r: U32, y: T)
    requires r < |items|
    requires BooleanReflects(selection, test, items)
    ensures BooleanReflects(BooleanAdded(BooleanRemoved(selection, r), test(y), r), test, items[r := y])
  {
    var without := TestRows(test, items) - {r};
    assert TestRows(test, items[r := y]) == if test(y) then without + {r} else without;
  }

  /**
    `insert` never leaves a stale entry in the unique index, whether or not
    the new key collides: a colliding key is moved to the new row, which
    holds it.
   */
  lemma UniqueInsertSound<T, K(!new)>(rows: map<K, Row>, key: T -> K, items: seq<T>, x: T)
    requires |items| < U32Limit
    requires UniqueSound(rows, key, items)
    ensures UniqueSound(UniqueAdded(rows, key(x), FromIndex(|items|)), key, items + [x])
  {
    var after := UniqueAdded(rows, key(x), FromIndex(|items|));
    var items' := items + [x];
    forall k | k in after ensures after[k].value < |items'| && key(items'[after[k].value]) == k {
      if k != key(x) {
        assert items'[rows[k].value] == items[rows[k].value];
      }
    }
  }

  /**
    `update_row` never leaves a stale entry in the unique index, whatever the
    new key: the old key is dropped, and every surviving key names a row
    other than the updated one.
   */
  lemma UniqueUpdateSound<T, K(!new)>(rows: map<K, Row>, key: T -> K, items: seq<T>, r: U32, y: T)
    requires r < |items|
    requires UniqueSound(rows, key, items)
    ensures UniqueSound(UniqueAdded(UniqueRemoved(rows, key(items[r])), key(y), Row(r)), key, items[r := y])
  {
    var after := UniqueAdded(UniqueRemoved(rows, key(items[r])), key(y), Row(r));
    var items' := items[r := y];
    forall k | k in after ensures after[k].value < |items'| && key(items'[after[k].value]) == k {
      if k != key(y) {
        assert k != key(items[r]) && k in rows;
        assert rows[k].value != r;
      }
    }
  }

  /**
    `insert` keeps a consistent unique index consistent exactly when the new
    record's key is not already held by a row: a colliding key silently takes
    over the earlier row's entry.
   */
  lemma UniqueInsertKeeps<T, K(!new)>(rows: map<K, Row>, key: T -> K, items: seq<T>, x: T)
    requires |items| < U32Limit
    requires UniqueReflects(rows, key, items)
    ensures UniqueReflects(UniqueAdded(rows, key(x), FromIndex(|items|)), key, items + [x])
        <==> forall i :: 0 <= i < |items| ==> key(items[i]) != key(x)
  {
    var after := UniqueAdded(rows, key(x), FromIndex(|items|));
    var items' := items + [x];
    if forall i :: 0 <= i < |items| ==> key(items[i]) != key(x) {
      forall i | 0 <= i < |items'| ensures key(items'[i]) in after && after[key(items'[i])].value == i {
        if i < |items| {
          assert items'[i] == items[i];
        }
      }
    } else {
      var i :| 0 <= i < |items| && key(items[i]) == key(x);
      assert items'[i] == items[i];
      assert after[key(items'[i])].value == |items| != i;
    }
  }

  /**
    `update_row` keeps a consistent unique index consistent exactly when no
    other row holds the new record's key.
   */
  lemma UniqueUpdateKeeps<T, K(!new)>(rows: map<K, Row>, key: T -> K, items: seq<T>, r: U32, y: T)
    requires r < |items|
    requires UniqueReflects(rows, key, items)
    ensures UniqueReflects(UniqueAdded(UniqueRemoved(rows, key(items[r])), key(y), Row(r)), key, items[r := y])
        <==> forall j :: 0 <= j < |items| && j != r ==> key(items[j]) != key(y)
  {
    var after := UniqueAdded(UniqueRemoved(rows, key(items[r])), key(y), Row(r));
    var items' := items[r := y];
    UniqueReflectsDistinct(rows, key, items);
    if forall j :: 0 <= j < |items| && j != r ==> key(items[j]) != key(y) {
      forall k | k in after ensures after[k].value < |items'| && key(items'[after[k].value]) == k {
        if k != key(y) {
          assert k != key(items[r]) && k in rows;
          assert rows[k].value != r;
        }
      }
      forall i | 0 <= i < |items'| ensures key(items'[i]) in after && after[key(items'[i])].value == i {
        if i != r {
          assert key(items[i]) != key(items[r]);
        }
      }
    } else {
      var j :| 0 <= j < |items| && j != r && key(items[j]) == key(y);
      assert items'[j] == items[j];
      assert after[key(items'[j])].value == r != j;
    }
  }
}
