/**
  Row handles and selections: sets of row numbers with the set algebra that
  queries are built from. A selection is backed by a compressed bitmap of
  32-bit row numbers; here the bitmap is the set of numbers it holds.
 */
module Selections {

  /** One past the largest 32-bit unsigned integer. */
  const U32Limit: nat := 0x1_0000_0000

  type U32 = x: int | 0 <= x < 0x1_0000_0000

  /** A typed handle on the record stored at position `value` of the table. */
  datatype Row = Row(value: U32) {

    /** The storage position this handle denotes; turning it back into a handle gives the same handle. */
    function AsIndex(): (i: nat)
      ensures i < U32Limit
      ensures FromIndex(i) == this
    {
      value
    }
  }

  /**
    The handle for storage position `i`. The position is cast to 32 bits,
    so only positions below 2^32 come back unchanged from `AsIndex`.
   */
  function FromIndex(i: nat): (r: Row)
    ensures i < U32Limit ==> r.value == i
    ensures r.value == i % U32Limit
  {
    Row(i % U32Limit)
  }

  /** The rows `0 .. n-1`. */
  function Range(n: nat): (r: set<U32>)
    requires n <= U32Limit
    ensures forall x: U32 :: x in r <==> x < n
    ensures |r| == n
  {
    if n == 0 then {}
    else
      var last: U32 := n - 1;
      Range(n - 1) + {last}
  }

  /** The members of `s` that are below `n`. */
  ghost function Below(s: set<U32>, n: nat): set<U32>
  {
    set x | x in s && x < n
  }

  /** The members of `s` below `n`, each once, in ascending order. */
  function Ascending(s: set<U32>, n: nat): (r: seq<U32>)
    requires n <= U32Limit
    ensures forall i :: 0 <= i < |r| ==> r[i] in s && r[i] < n
    ensures forall x :: x in s && x < n ==> x in r
    ensures forall i, j :: 0 <= i < j < |r| ==> r[i] < r[j]
  {
    if n == 0 then []
    else
      var last: U32 := n - 1;
      Ascending(s, n - 1) + if last in s then [last] else []
  }

  /** Raising the bound by one adds the old bound to `Below` exactly when it is a member. */
  lemma BelowStep(s: set<U32>, n: nat)
    requires 0 < n <= U32Limit
    ensures |Below(s, n)| == |Below(s, n - 1)| + if n - 1 in s then 1 else 0
  {
    var last: U32 := n - 1;
    var prev := Below(s, n - 1);
    if last in s {
      assert Below(s, n) == prev + {last};
    } else {
      assert Below(s, n) == prev;
    }
  }

  /** The ascending enumeration holds as many rows as there are members below the bound. */
  lemma {:induction false} AscendingLength(s: set<U32>, n: nat)
    requires n <= U32Limit
    ensures |Ascending(s, n)| == |Below(s, n)|
  {
    if n > 0 {
      AscendingLength(s, n - 1);
      BelowStep(s, n);
    }
  }

  /** The head of an ascending enumeration of `s` is the least member of `s`. */
  lemma AscendingHeadIsLeast(r: seq<Row>, s: set<U32>)
    requires |r| > 0
    requires forall x :: x in s ==> Row(x) in r
    requires forall i, j :: 0 <= i < j < |r| ==> r[i].value < r[j].value
    ensures forall y :: y in s ==> r[0].value <= y
  {
    forall y | y in s ensures r[0].value <= y {
      var j :| 0 <= j < |r| && r[j] == Row(y);
      assert j == 0 || r[0].value < r[j].value;
    }
  }

  /** The handles of the numbers in `a`, in the same order. */
  function ToRows(a: seq<U32>): (r: seq<Row>)
    ensures |r| == |a|
    ensures forall i :: 0 <= i < |a| ==> r[i] == Row(a[i])
  {
    seq(|a|, i requires 0 <= i < |a| => Row(a[i]))
  }

  /** Every number of `s` that `a` holds has its handle among `ToRows(a)`. */
  lemma ToRowsCovers(a: seq<U32>, s: set<U32>)
    requires forall x :: x in s ==> x in a
    ensures forall x :: x in s ==> Row(x) in ToRows(a)
  {
    forall x | x in s ensures Row(x) in ToRows(a) {
      var i :| 0 <= i < |a| && a[i] == x;
      assert ToRows(a)[i] == Row(x);
    }
  }

  /** A set of rows with in-place and value-returning set operations. */
  class Selection {
    var bitmap: set<U32>

    /** A selection with no rows; also what `Default` gives. */
    constructor Empty()
      ensures bitmap == {}
    {
      bitmap := {};
    }

    /** The rows `0 .. count-1`. */
    constructor Filled(count: U32)
      ensures bitmap == Range(count)
    {
      bitmap := Range(count);
    }

    /** The selection holding `row` alone, built as an empty selection plus `row`. */
    constructor OfRow(row: Row)
      ensures bitmap == {row.value}
    {
      bitmap := {};
      new;
      Add(row);
    }

    /** The selection of every row the sequence yields (`FromIterator`). */
    constructor FromRows(rows: seq<Row>)
      ensures forall x :: x in bitmap <==> Row(x) in rows
    {
      bitmap := {};
      new;
      for i := 0 to |rows|
        invariant forall x :: x in bitmap <==> Row(x) in rows[..i]
      {
        Add(rows[i]);
      }
    }

    /** The number of rows, which is also the number of rows `Rows` yields. */
    function Len(): (n: nat)
      reads this
      ensures n == |Rows()|
    {
      |bitmap|
    }

    /** Whether no row is selected. */
    function IsEmpty(): (b: bool)
      reads this
      ensures b <==> Len() == 0
    {
      bitmap == {}
    }

    /** Every selected row exactly once, in ascending order. */
    function Rows(): (r: seq<Row>)
      reads this
      ensures |r| == |bitmap|
      ensures forall i :: 0 <= i < |r| ==> r[i].value in bitmap
      ensures forall x :: x in bitmap ==> Row(x) in r
      ensures forall i, j :: 0 <= i < j < |r| ==> r[i].value < r[j].value
    {
      var a := Ascending(bitmap, U32Limit);
      AscendingLength(bitmap, U32Limit);
      assert Below(bitmap, U32Limit) == bitmap;
      ToRowsCovers(a, bitmap);
      ToRows(a)
    }

    /** Makes `row` a member; every other row keeps its membership. */
    method Add(row: Row)
      modifies this
      ensures bitmap == old(bitmap) + {row.value}
    {
      bitmap := bitmap + {row.value};
    }

    /** Makes `row` a non-member; every other row keeps its membership. */
    method Remove(row: Row)
      modifies this
      ensures bitmap == old(bitmap) - {row.value}
    {
      bitmap := bitmap - {row.value};
    }

    /** `self & other`: a new selection of the rows in both. */
    method Intersect(other: Selection) returns (r: Selection)
      ensures fresh(r)
      ensures r.bitmap == bitmap * other.bitmap
    {
      r := new Selection.Empty();
      r.bitmap := bitmap * other.bitmap;
    }

    /** `self | other`: a new selection of the rows in either. */
    method Union(other: Selection) returns (r: Selection)
      ensures fresh(r)
      ensures r.bitmap == bitmap + other.bitmap
    {
      r := new Selection.Empty();
      r.bitmap := bitmap + other.bitmap;
    }

    /** `self &= other`: keeps only the rows also in `other`, which is not changed. */
    method IntersectWith(other: Selection)
      modifies this
      ensures bitmap == old(bitmap) * old(other.bitmap)
      ensures other != this ==> other.bitmap == old(other.bitmap)
    {
      bitmap := bitmap * other.bitmap;
    }

    /** `self |= other`: adds the rows of `other`, which is not changed. */
    method UnionWith(other: Selection)
      modifies this
      ensures bitmap == old(bitmap) + old(other.bitmap)
      ensures other != this ==> other.bitmap == old(other.bitmap)
    {
      bitmap := bitmap + other.bitmap;
    }

    /** An independent copy with the same rows. */
    method Clone() returns (r: Selection)
      ensures fresh(r)
      ensures r.bitmap == bitmap
    {
      r := new Selection.Empty();
      r.bitmap := bitmap;
    }
  }
}
