/**
  The record type the crate's tests store, and its composite indexer: one
  unique index on `id`, one discrete index on `last_name` and one boolean
  index on "is an adult". The composite forwards every `add` and `remove`
  to its three indexes in that fixed order.
 */
module People {
  import opened Selections
  import opened Indexes
  import opened Consistency

  type U8 = x: int | 0 <= x < 256

  datatype Person = Person(id: U32, firstName: string, lastName: string, age: U8)

  function IdOf(p: Person): U32
  {
    p.id
  }

  function LastNameOf(p: Person): string
  {
    p.lastName
  }

  function IsAdult(p: Person): bool
  {
    p.age >= 18
  }

  /** The abstract state of the three indexes of a `PersonIndexer`. */
  datatype IndexerState = IndexerState(byId: map<U32, Row>, byLastName: map<string, set<U32>>, adults: set<U32>)
  {
    /** The state after `add(row, item)` reaches each index. */
    function Added(row: Row, item: Person): (r: IndexerState)
      ensures item.id in r.byId && r.byId[item.id] == row
      ensures GroupOf(r.byLastName, item.lastName) == GroupOf(byLastName, item.lastName) + {row.value}
      ensures row.value in r.adults <==> IsAdult(item) || row.value in adults
    {
      IndexerState(
        UniqueAdded(byId, IdOf(item), row),
        DiscreteAdded(byLastName, LastNameOf(item), row.value),
        BooleanAdded(adults, IsAdult(item), row.value))
    }

    /** The state after `remove(row, item)` reaches each index. */
    function Removed(row: Row, item: Person): (r: IndexerState)
      ensures item.id !in r.byId
      ensures GroupOf(r.byLastName, item.lastName) == GroupOf(byLastName, item.lastName) - {row.value}
      ensures row.value !in r.adults
    {
      IndexerState(
        UniqueRemoved(byId, IdOf(item)),
        DiscreteRemoved(byLastName, LastNameOf(item), row.value),
        BooleanRemoved(adults, row.value))
    }

    /**
      What every insert and update keeps, whatever the records are: the
      discrete and boolean indexes agree with `items`, and the unique index
      has no stale entry.
     */
    ghost predicate Reflects(items: seq<Person>)
    {
      && DiscreteReflects(byLastName, LastNameOf, items)
      && BooleanReflects(adults, IsAdult, items)
      && UniqueSound(byId, IdOf, items)
    }

    /** The unique index agrees with `items`, which can only hold while ids are distinct. */
    ghost predicate ByIdReflects(items: seq<Person>)
    {
      UniqueReflects(byId, IdOf, items)
    }
  }

  /** The state of a freshly built indexer: every index empty. */
  const EmptyIndexerState := IndexerState(map[], map[], {})

  class PersonIndexer {
    const byId: UniqueIndex<Person, U32>
    const byLastName: DiscreteIndex<Person, string>
    const adults: BooleanIndex<Person>

    /** The objects the indexer is made of. */
    ghost function Repr(): set<object>
    {
      {this, byId, byLastName} + adults.Repr()
    }

    /** Each index is built over the key or test the crate gives it. */
    ghost predicate Valid()
    {
      byId.key == IdOf && byLastName.key == LastNameOf && adults.test == IsAdult
    }

    /** The abstract state of the three indexes. */
    ghost function State(): IndexerState
      reads byId, byLastName, adults.selection
    {
      IndexerState(byId.rows, byLastName.selections, adults.selection.bitmap)
    }

    /** The `Default` indexer: each index built over its key or test, all empty. */
    constructor ()
      ensures Valid() && fresh(Repr())
      ensures State() == EmptyIndexerState
    {
      byId := new UniqueIndex(IdOf);
      byLastName := new DiscreteIndex(LastNameOf);
      adults := new BooleanIndex(IsAdult);
    }

    /** Forwards `add(row, item)` to `byId`, `byLastName` and `adults`, in that order. */
    method Add(row: Row, item: Person)
      requires Valid()
      modifies Repr()
      ensures State() == old(State()).Added(row, item)
    {
      byId.Add(row, item);
      byLastName.Add(row, item);
      adults.Add(row, item);
    }

    /** Forwards `remove(row, item)` to `byId`, `byLastName` and `adults`, in that order. */
    method Remove(row: Row, item: Person)
      requires Valid()
      modifies Repr()
      ensures State() == old(State()).Removed(row, item)
    {
      byId.Remove(row, item);
      byLastName.Remove(row, item);
      adults.Remove(row, item);
    }
  }
}
