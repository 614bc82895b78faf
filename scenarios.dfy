/**
  The crate's own usage scenarios, run on the model: a table of three
  people, queried by the adult test, by last name and by id, iterated and
  filtered, and updated through `Apply`. Each method states as its
  postcondition what the scenario checks about the records it gets back.
 */
module Scenarios {
  import opened Options
  import opened Selections
  import opened Consistency
  import opened People
  import opened Tables

  const Aleksei := Person(1, "Aleksei", "Voronov", 28)
  const Polina := Person(2, "Polina", "Zhuravleva", 32)
  const Olivia := Person(3, "Olivia Alekseevna", "Zhuravleva", 0)

  /** A selection of exactly one row enumerates that row. */
  lemma RowsOfOne(s: Selection, a: U32)
    requires s.bitmap == {a}
    ensures s.Rows() == [Row(a)]
  {
    var r := s.Rows();
    assert r[0].value in s.bitmap;
  }

  /** A selection of exactly two rows enumerates the lower one first. */
  lemma RowsOfTwo(s: Selection, a: U32, b: U32)
    requires a < b && s.bitmap == {a, b}
    ensures s.Rows() == [Row(a), Row(b)]
  {
    var r := s.Rows();
    assert r[0].value in s.bitmap && r[1].value in s.bitmap;
  }

  /** The selection of the first three rows enumerates them in order. */
  lemma RowsOfThree(s: Selection)
    requires s.bitmap == {0, 1, 2}
    ensures s.Rows() == [Row(0), Row(1), Row(2)]
  {
    var r := s.Rows();
    assert r[0].value in s.bitmap && r[1].value in s.bitmap && r[2].value in s.bitmap;
  }

  /**
    `r` is picked from `ps` at the strictly increasing positions `idx`, and
    every position whose record `keep` accepts is among them.
   */
  ghost predicate PicksKept(idx: seq<nat>, ps: seq<Person>, r: seq<Person>, keep: Person -> bool)
  {
    && |idx| == |r|
    && (forall i :: 0 <= i < |r| ==> idx[i] < |ps| && r[i] == ps[idx[i]])
    && (forall i, j :: 0 <= i < j < |r| ==> idx[i] < idx[j])
    && (forall k :: 0 <= k < |ps| && keep(ps[k]) ==> k in idx)
  }

  /** Every position moved one place on. */
  function Shift(idx: seq<nat>): (r: seq<nat>)
    ensures |r| == |idx|
    ensures forall i :: 0 <= i < |idx| ==> r[i] == idx[i] + 1
  {
    seq(|idx|, i requires 0 <= i < |idx| => idx[i] + 1)
  }

  /** Positions picking `rest` from the tail of `ps`, moved one place on, pick `rest` from `ps` itself. */
  lemma PicksKeptTail(ps: seq<Person>, rest: seq<Person>, keep: Person -> bool, idx': seq<nat>)
    requires |ps| > 0 && PicksKept(idx', ps[1..], rest, keep)
    ensures forall i :: 0 <= i < |rest| ==> Shift(idx')[i] < |ps| && rest[i] == ps[Shift(idx')[i]]
    ensures forall i, j :: 0 <= i < j < |rest| ==> Shift(idx')[i] < Shift(idx')[j]
    ensures forall k :: 0 < k < |ps| && keep(ps[k]) ==> k in Shift(idx')
  {
    var shifted := Shift(idx');
    forall i | 0 <= i < |rest| ensures shifted[i] < |ps| && rest[i] == ps[shifted[i]] {
      assert ps[1..][idx'[i]] == ps[shifted[i]];
    }
    forall k | 0 < k < |ps| && keep(ps[k]) ensures k in shifted {
      assert ps[1..][k - 1] == ps[k];
      var j :| 0 <= j < |idx'| && idx'[j] == k - 1;
      assert shifted[j] == k;
    }
  }

  /** Positions picking `rest` from the tail of `ps` give positions picking `Filter`'s step from `ps`. */
  lemma PicksKeptCons(ps: seq<Person>, rest: seq<Person>, keep: Person -> bool, idx': seq<nat>)
    requires |ps| > 0 && PicksKept(idx', ps[1..], rest, keep)
    ensures keep(ps[0]) ==> exists idx :: PicksKept(idx, ps, [ps[0]] + rest, keep)
    ensures !keep(ps[0]) ==> exists idx :: PicksKept(idx, ps, rest, keep)
  {
    PicksKeptTail(ps, rest, keep, idx');
    var shifted := Shift(idx');
    if keep(ps[0]) {
      var idx := [0] + shifted;
      var r := [ps[0]] + rest;
      forall i | 0 < i < |r| ensures idx[i] < |ps| && r[i] == ps[idx[i]] {
        assert idx[i] == shifted[i - 1] && r[i] == rest[i - 1];
      }
      forall k | 0 < k < |ps| && keep(ps[k]) ensures k in idx {
        assert k in shifted;
      }
      assert PicksKept(idx, ps, r, keep);
    } else {
      assert PicksKept(shifted, ps, rest, keep);
    }
  }

  /** The records of `ps` that `keep` accepts, each once per occurrence, in their order. */
  function Filter(ps: seq<Person>, keep: Person -> bool): (r: seq<Person>)
    ensures |r| <= |ps|
    ensures forall i :: 0 <= i < |r| ==> keep(r[i]) && r[i] in ps
    ensures forall p :: p in ps && keep(p) ==> p in r
    ensures exists idx :: PicksKept(idx, ps, r, keep)
  {
    if ps == [] then
      assert PicksKept([], ps, [], keep);
      []
    else
      var rest := Filter(ps[1..], keep);
      assert forall p :: p in ps[1..] ==> p in ps;
      var r := if keep(ps[0]) then [ps[0]] + rest else rest;
      assert exists idx :: PicksKept(idx, ps, r, keep) by {
        var idx' :| PicksKept(idx', ps[1..], rest, keep);
        PicksKeptCons(ps, rest, keep, idx');
      }
      r
  }

  /** The state of the shared table: Aleksei, Polina and Olivia, inserted in that order. */
  function ThreePeople(): TableState
  {
    TableState([], EmptyIndexerState).Inserted(Aleksei).Inserted(Polina).Inserted(Olivia)
  }

  /** The first two inserts: Aleksei and Polina, with distinct ids. */
  lemma TwoInsertedIndexed()
    ensures TableState([], EmptyIndexerState).Inserted(Aleksei).Inserted(Polina).items == [Aleksei, Polina]
    ensures TableState([], EmptyIndexerState).Inserted(Aleksei).Inserted(Polina).IdsConsistent()
  {
    var empty := TableState([], EmptyIndexerState);
    EmptyReflects<Person, U32>(IdOf, IsAdult);
    InsertedIdsConsistent(empty, Aleksei);
    var one := empty.Inserted(Aleksei);
    assert one.items == [Aleksei];
    InsertedIdsConsistent(one, Polina);
  }

  /** The three ids are distinct, so the unique index agrees with the records. */
  lemma ThreePeopleIndexed()
    ensures ThreePeople().items == [Aleksei, Polina, Olivia]
    ensures ThreePeople().IdsConsistent()
  {
    TwoInsertedIndexed();
    var two := TableState([], EmptyIndexerState).Inserted(Aleksei).Inserted(Polina);
    assert two.items[0].id == 1 && two.items[1].id == 2;
    InsertedIdsConsistent(two, Olivia);
  }

  /** The table the scenarios share. */
  method PeopleFixture() returns (people: Table)
    ensures fresh(people.Repr()) && people.Valid()
    ensures people.items == [Aleksei, Polina, Olivia]
    ensures people.State().IdsConsistent()
  {
    people := new Table.InMemory();
    people.Insert(Aleksei);
    people.Insert(Polina);
    people.Insert(Olivia);
    ThreePeopleIndexed();
  }

  /** Aleksei and Polina are the adults. */
  lemma AdultRows()
    ensures TestRows(IsAdult, [Aleksei, Polina, Olivia]) == {0, 1}
  {
    var items := [Aleksei, Polina, Olivia];
    assert forall i: U32 :: i in TestRows(IsAdult, items) <==> i == 0 || i == 1;
  }

  /** Polina and Olivia are the Zhuravlevas. */
  lemma ZhuravlevaRows()
    ensures KeyRows(LastNameOf, [Aleksei, Polina, Olivia], "Zhuravleva") == {1, 2}
  {
    var items := [Aleksei, Polina, Olivia];
    assert items[0].lastName != "Zhuravleva" by {
      assert items[0].lastName[0] != "Zhuravleva"[0];
    }
    assert forall i: U32 :: i in KeyRows(LastNameOf, items, "Zhuravleva") <==> i == 1 || i == 2;
  }

  /** Selecting the adults yields Aleksei and Polina, in row order. */
  method CanSelectAdults() returns (adults: seq<Person>)
    ensures |adults| == 2
    ensures adults[0].id == 1 && adults[1].id == 2
  {
    var people := PeopleFixture();
    var q := people.Select();
    q.Adults();
    AdultRows();
    assert q.selection.bitmap == {0, 1};
    RowsOfTwo(q.selection, 0, 1);
    adults := q.Collect();
    assert adults[0] == Aleksei && adults[1] == Polina;
  }

  /** Selecting the last name "Zhuravleva" yields Polina and Olivia, in row order. */
  method CanSelectByLastName() returns (zhuravlevas: seq<Person>)
    ensures |zhuravlevas| == 2
    ensures zhuravlevas[0].id == 2 && zhuravlevas[1].id == 3
  {
    var people := PeopleFixture();
    var q := people.Select();
    q.ByLastName("Zhuravleva");
    ZhuravlevaRows();
    assert q.selection.bitmap == {1, 2};
    RowsOfTwo(q.selection, 1, 2);
    zhuravlevas := q.Collect();
    assert zhuravlevas[0] == Polina && zhuravlevas[1] == Olivia;
  }

  /** Selecting id 1 finds Aleksei. */
  method CanSelectById() returns (voronov: Option<Person>)
    ensures voronov.Some? && voronov.value.id == 1
  {
    var people := PeopleFixture();
    IdOneRows(people.items);
    voronov := FirstById(people, 1);
  }

  /** The test the iteration scenario filters by: younger than one year. */
  function IsBaby(p: Person): bool
  {
    p.age < 1
  }

  /** Filtering three records of which only the last is a baby keeps that one. */
  lemma FilterLastOfThree(all: seq<Person>)
    requires |all| == 3 && !IsBaby(all[0]) && !IsBaby(all[1]) && IsBaby(all[2])
    ensures Filter(all, IsBaby) == [all[2]]
  {
    assert all[2..][1..] == [];
    assert Filter(all[2..], IsBaby) == [all[2]];
    assert all[1..][1..] == all[2..];
    assert Filter(all[1..], IsBaby) == [all[2]];
  }

  /** Iterating over every record and keeping those younger than one year finds Olivia alone. */
  method CanIterate() returns (babies: seq<Person>)
    ensures |babies| == 1 && babies[0].id == 3
  {
    var people := PeopleFixture();
    var q := people.Select();
    assert q.selection.bitmap == {0, 1, 2};
    RowsOfThree(q.selection);
    var all := q.Iter();
    assert |all| == 3 && all[0] == Aleksei && all[1] == Polina && all[2] == Olivia;
    FilterLastOfThree(all);
    babies := Filter(all, IsBaby);
  }

  /** Sets the age to 29. */
  function TurnTwentyNine(p: Person): Person
  {
    p.(age := 29)
  }

  /** Sets the last name to "Smith". */
  function RenameToSmith(p: Person): Person
  {
    p.(lastName := "Smith")
  }

  /** `apply` over one row is `update_row` on that row. */
  lemma AppliedOne(st: TableState, a: Row, f: Person -> Person)
    requires a.value < |st.items|
    ensures st.Applied([a], f) == st.RowUpdated(a, f)
  {
    assert [a][..0] == [];
  }

  /**
    `select().by_id(id).first()`: the record at the row the unique index
    names for `id`, which holds `id` whether or not ids repeat. While ids are
    distinct that is the one record with the id, and nothing when none has it.
   */
  method FirstById(people: Table, id: U32) returns (r: Option<Person>)
    requires people.Valid()
    ensures r.None? <==> id !in people.indexer.byId.rows
    ensures r.Some? ==> r.value == people.items[people.indexer.byId.rows[id].value] && r.value.id == id
    ensures people.State().IdsConsistent() ==> (r.None? <==> KeyRows(IdOf, people.items, id) == {})
    ensures people.State().IdsConsistent() ==>
      forall x :: KeyRows(IdOf, people.items, id) == {x} ==> r == Some(people.items[x])
  {
    var q := people.Select();
    q.ById(id);
    ghost var selected := q.selection.bitmap;
    r := q.First();
    if id in people.indexer.byId.rows {
      var x := people.indexer.byId.rows[id].value;
      assert selected == {x};
      assert r == Some(people.items[x]);
    }
    if people.State().IdsConsistent() {
      assert selected == KeyRows(IdOf, people.items, id);
    }
  }

  /** `select().by_last_name(name).first()`: the record at the lowest row with that last name, if one is stored. */
  method FirstByLastName(people: Table, name: string) returns (r: Option<Person>)
    requires people.Valid()
    ensures r.None? <==> KeyRows(LastNameOf, people.items, name) == {}
    ensures r.Some? ==> r.value in people.items && r.value.lastName == name
    ensures r.Some? ==> exists x :: x in KeyRows(LastNameOf, people.items, name) && r.value == people.items[x]
                                  && forall y :: y in KeyRows(LastNameOf, people.items, name) ==> x <= y
    ensures forall x :: KeyRows(LastNameOf, people.items, name) == {x} ==> r == Some(people.items[x])
  {
    var q := people.Select();
    q.ByLastName(name);
    assert q.selection.bitmap == KeyRows(LastNameOf, people.items, name);
    r := q.First();
  }

  /** `update().by_id(id).apply(f)` where `x` is the one row holding `id`. */
  method ApplyById(people: Table, id: U32, ghost x: U32, f: Person -> Person)
    requires people.Valid() && people.State().IdsConsistent()
    requires KeyRows(IdOf, people.items, id) == {x}
    modifies people.Repr()
    ensures people.Valid()
    ensures people.State() == old(people.State()).RowUpdated(Row(x), f)
  {
    ghost var start := people.State();
    var u := people.Update();
    u.ById(id);
    RowsOfOne(u.selection, x);
    u.Apply(f);
    AppliedOne(start, Row(x), f);
  }

  /** `update().by_last_name(name).apply(f)` where `x` is the one row with that last name. */
  method ApplyByLastName(people: Table, name: string, ghost x: U32, f: Person -> Person)
    requires people.Valid()
    requires KeyRows(LastNameOf, people.items, name) == {x}
    modifies people.Repr()
    ensures people.Valid()
    ensures people.State() == old(people.State()).RowUpdated(Row(x), f)
  {
    ghost var start := people.State();
    var u := people.Update();
    u.ByLastName(name);
    assert u.selection.bitmap == {x};
    RowsOfOne(u.selection, x);
    u.Apply(f);
    AppliedOne(start, Row(x), f);
  }

  /** Aleksei alone has id 1. */
  lemma IdOneRows(items: seq<Person>)
    requires |items| == 3 && items[0].id == 1 && items[1] == Polina && items[2] == Olivia
    ensures KeyRows(IdOf, items, 1) == {0}
  {
    assert forall i: U32 :: i in KeyRows(IdOf, items, 1) <==> i == 0;
  }

  /** Changing Aleksei's age keeps every id where it was, so the unique index still agrees. */
  lemma AgeUpdated(st: TableState)
    requires |st.items| == 3 && st.items[0] == Aleksei && st.items[1] == Polina && st.items[2] == Olivia
    requires st.IdsConsistent()
    ensures var after := st.RowUpdated(Row(0), TurnTwentyNine);
      && |after.items| == 3 && after.items[0] == TurnTwentyNine(Aleksei)
      && after.items[1] == Polina && after.items[2] == Olivia
      && after.IdsConsistent()
  {
    RowUpdatedIdsConsistent(st, Row(0), TurnTwentyNine);
  }

  /** Updating Aleksei's age through `Apply` is seen by the next lookup of id 1. */
  method UpdatingSavesNewInfo() returns (before: Option<Person>, after: Option<Person>)
    ensures before.Some? && before.value.age == 28
    ensures after.Some? && after.value.age == 29
  {
    var people := PeopleFixture();
    IdOneRows(people.items);
    before := FirstById(people, 1);

    ghost var start := people.State();
    ApplyById(people, 1, 0, TurnTwentyNine);
    AgeUpdated(start);
    IdOneRows(people.items);
    after := FirstById(people, 1);
    assert people.items[0].age == 29;
  }

  /** Which rows carry the last names "Voronov" and "Smith" when Aleksei's is `name`. */
  lemma LastNameRows(items: seq<Person>, name: string)
    requires |items| == 3 && items[0].lastName == name && items[1] == Polina && items[2] == Olivia
    requires name == "Voronov" || name == "Smith"
    ensures KeyRows(LastNameOf, items, name) == {0}
    ensures name == "Smith" ==> KeyRows(LastNameOf, items, "Voronov") == {}
  {
    assert "Zhuravleva"[0] != name[0];
    assert forall i: U32 :: i in KeyRows(LastNameOf, items, name) <==> i == 0;
    if name == "Smith" {
      assert "Smith"[0] != "Voronov"[0];
    }
  }

  /** Renaming Voronov to Smith through `Apply` moves the record between the last-name groups. */
  method UpdatingUpdatesIndexes() returns (before: Option<Person>, voronov: Option<Person>, smith: Option<Person>)
    ensures before.Some? && before.value.lastName == "Voronov"
    ensures voronov.None?
    ensures smith.Some?
  {
    var people := PeopleFixture();
    LastNameRows(people.items, "Voronov");
    before := FirstByLastName(people, "Voronov");

    ApplyByLastName(people, "Voronov", 0, RenameToSmith);
    assert people.items[0] == RenameToSmith(Aleksei);
    assert people.items[1] == Polina && people.items[2] == Olivia;
    LastNameRows(people.items, "Smith");
    voronov := FirstByLastName(people, "Voronov");
    smith := FirstByLastName(people, "Smith");
  }
}
