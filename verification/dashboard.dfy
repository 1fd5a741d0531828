/** The filter panel of the location dashboard: the property-type choices,
    the bounds of the price and room sliders, and the rows that survive the
    chosen type and ranges. */
module Dashboard {
  import opened Wrappers
  import opened Records
  import opened Seqs

  /** The choice that switches type filtering off. */
  const AllTypes: string := "All"

  // ---------------------------------------------------------------------
  // Type choices: 'All' followed by the distinct types in sorted order

  /** Python's ordering of `str`: lexicographic by code point. */
  predicate LexLess(a: string, b: string) {
    if a == [] then b != []
    else if b == [] then false
    else a[0] < b[0] || (a[0] == b[0] && LexLess(a[1..], b[1..]))
  }

  lemma {:induction false} LexIrreflexive(a: string)
    ensures !LexLess(a, a)
  {
    if a != [] {
      LexIrreflexive(a[1..]);
    }
  }

  lemma {:induction false} LexTransitive(a: string, b: string, c: string)
    requires LexLess(a, b) && LexLess(b, c)
    ensures LexLess(a, c)
  {
    if a != [] && a[0] == b[0] && b[0] == c[0] {
      LexTransitive(a[1..], b[1..], c[1..]);
    }
  }

  lemma {:induction false} LexTotal(a: string, b: string)
    requires a != b
    ensures LexLess(a, b) || LexLess(b, a)
  {
    if a != [] && b != [] && a[0] == b[0] {
      assert a == [a[0]] + a[1..] && b == [b[0]] + b[1..];
      LexTotal(a[1..], b[1..]);
    }
  }

  lemma LexAsymmetric(a: string, b: string)
    requires LexLess(a, b)
    ensures !LexLess(b, a)
  {
    if LexLess(b, a) {
      LexTransitive(a, b, a);
      LexIrreflexive(a);
    }
  }

  /** Ascending with no repeats. */
  predicate StrictlySorted(s: seq<string>) {
    forall i, j :: 0 <= i < j < |s| ==> LexLess(s[i], s[j])
  }

  lemma SortedCons(h: string, t: seq<string>)
    requires StrictlySorted(t) && forall y :: y in t ==> LexLess(h, y)
    ensures StrictlySorted([h] + t)
  {
    var s := [h] + t;
    forall i, j | 0 <= i < j < |s| ensures LexLess(s[i], s[j]) {
      if i == 0 {
        assert s[j] == t[j - 1] && t[j - 1] in t;
      } else {
        assert s[i] == t[i - 1] && s[j] == t[j - 1];
      }
    }
  }

  /** Inserts `x` into an ascending list unless it is already there. */
  function Insert(x: string, s: seq<string>): (r: seq<string>)
    requires StrictlySorted(s)
    ensures StrictlySorted(r)
    ensures forall y :: y in r <==> y == x || y in s
  {
    if s == [] then [x]
    else if x == s[0] then s
    else if LexLess(x, s[0]) then
      assert forall y :: y in s ==> LexLess(x, y) by {
        forall y | y in s ensures LexLess(x, y) {
          var j :| 0 <= j < |s| && s[j] == y;
          if j > 0 { LexTransitive(x, s[0], y); }
        }
      }
      SortedCons(x, s);
      [x] + s
    else
      LexTotal(x, s[0]);
      var rest := Insert(x, s[1..]);
      assert forall y :: y in rest ==> LexLess(s[0], y) by {
        forall y | y in rest ensures LexLess(s[0], y) {
          if y != x {
            var j :| 0 <= j < |s[1..]| && s[1..][j] == y;
            assert s[j + 1] == y;
          }
        }
      }
      SortedCons(s[0], rest);
      assert forall y :: y in s ==> y == s[0] || y in s[1..] by {
        assert s == [s[0]] + s[1..];
      }
      [s[0]] + rest
  }

  /** `sorted(set(xs))`. */
  function SortedUnique(xs: seq<string>): (r: seq<string>)
    ensures StrictlySorted(r)
    ensures forall y :: y in r <==> y in xs
  {
    if xs == [] then []
    else
      var r := Insert(xs[|xs| - 1], SortedUnique(xs[..|xs| - 1]));
      assert forall y :: y in xs ==> y == xs[|xs| - 1] || y in xs[..|xs| - 1] by {
        assert xs == xs[..|xs| - 1] + [xs[|xs| - 1]];
      }
      r
  }

  /** The head of an ascending list is below everything after it, and the
      tail is ascending too. */
  lemma SortedHeadIsLeast(s: seq<string>)
    requires StrictlySorted(s) && s != []
    ensures forall y :: y in s[1..] ==> LexLess(s[0], y)
    ensures StrictlySorted(s[1..])
  {
    forall y | y in s[1..] ensures LexLess(s[0], y) {
      var k :| 0 <= k < |s[1..]| && s[1..][k] == y;
      assert s[k + 1] == y;
    }
  }

  lemma HeadIsMember(s: seq<string>)
    ensures s != [] ==> s[0] in s
  {
  }

  lemma TailMember(s: seq<string>, y: string)
    requires y in s && s != [] && y != s[0]
    ensures y in s[1..]
  {
    assert s == [s[0]] + s[1..];
  }

  /** A set has exactly one strictly ascending listing. */
  lemma {:induction false} SortedListingIsUnique(a: seq<string>, b: seq<string>)
    requires StrictlySorted(a) && StrictlySorted(b)
    requires forall y :: y in a <==> y in b
    ensures a == b
  {
    if a == [] {
      HeadIsMember(b);
    } else {
      assert a[0] in a;
      assert b != [] && b[0] in b;
      SortedHeadIsLeast(a);
      SortedHeadIsLeast(b);
      if a[0] != b[0] {
        TailMember(b, a[0]);
        TailMember(a, b[0]);
        LexAsymmetric(a[0], b[0]);
        assert false;
      }
      forall y ensures y in a[1..] <==> y in b[1..] {
        if y in a[1..] {
          LexIrreflexive(y);
          assert y in a;
          TailMember(b, y);
        }
        if y in b[1..] {
          LexIrreflexive(y);
          assert y in b;
          TailMember(a, y);
        }
      }
      SortedListingIsUnique(a[1..], b[1..]);
      assert a == [a[0]] + a[1..] && b == [b[0]] + b[1..];
    }
  }

  /** The `property_type` column. */
  function Types(df: seq<Record>): (r: seq<string>)
    ensures |r| == |df|
  {
    seq(|df|, i requires 0 <= i < |df| => df[i].propertyType)
  }

  /** The options of the type select box: 'All', then every distinct type
      once, in ascending order. */
  function TypeOptions(df: seq<Record>): (r: seq<string>)
    ensures |r| >= 1 && r[0] == AllTypes
    ensures StrictlySorted(r[1..])
    ensures forall t :: t in r[1..] <==> exists i :: 0 <= i < |df| && df[i].propertyType == t
  {
    var types := SortedUnique(Types(df));
    assert forall t :: t in types <==> exists i :: 0 <= i < |df| && df[i].propertyType == t by {
      forall t ensures t in types <==> exists i :: 0 <= i < |df| && df[i].propertyType == t {
        if t in types {
          var i :| 0 <= i < |df| && Types(df)[i] == t;
        }
        if exists i :: 0 <= i < |df| && df[i].propertyType == t {
          var i :| 0 <= i < |df| && df[i].propertyType == t;
          assert Types(df)[i] == t;
        }
      }
    }
    assert ([AllTypes] + types)[1..] == types;
    [AllTypes] + types
  }

  /** The listed types are the only ascending, repeat-free listing of the
      table's types. */
  lemma TypeOptionsAreTheSortedTypes(df: seq<Record>, listing: seq<string>)
    requires StrictlySorted(listing)
    requires forall t :: t in listing <==> exists i :: 0 <= i < |df| && df[i].propertyType == t
    ensures TypeOptions(df) == [AllTypes] + listing
  {
    var r := TypeOptions(df);
    SortedListingIsUnique(r[1..], listing);
    assert r == [r[0]] + r[1..];
  }

  // ---------------------------------------------------------------------
  // Slider bounds: int() of the column's minimum and maximum

  /** Python's `int()` on a float: rounds toward zero. */
  function Trunc(x: real): (n: int)
    ensures 0.0 <= x ==> n as real <= x < n as real + 1.0
    ensures x < 0.0 ==> n as real - 1.0 < x <= n as real
  {
    if x >= 0.0 then x.Floor else -((-x).Floor)
  }

  lemma TruncMonotone(x: real, y: real)
    requires x <= y
    ensures Trunc(x) <= Trunc(y)
  {
  }

  /** The non-NULL values of a column (pandas' `min` and `max` skip NaN). */
  function Present(col: seq<Option<real>>): (r: seq<real>)
    ensures forall v :: v in r <==> Some(v) in col
  {
    if col == [] then []
    else
      var rest := Present(col[1..]);
      assert forall o :: o in col <==> o == col[0] || o in col[1..] by {
        assert col == [col[0]] + col[1..];
      }
      match col[0]
      case None => rest
      case Some(v) => [v] + rest
  }

  function MinOf(s: seq<real>): (m: real)
    requires s != []
    ensures m in s && forall v :: v in s ==> m <= v
  {
    if |s| == 1 then s[0]
    else
      var m := MinOf(s[1..]);
      assert forall v :: v in s ==> v == s[0] || v in s[1..] by {
        assert s == [s[0]] + s[1..];
      }
      if s[0] <= m then s[0] else m
  }

  function MaxOf(s: seq<real>): (m: real)
    requires s != []
    ensures m in s && forall v :: v in s ==> v <= m
  {
    if |s| == 1 then s[0]
    else
      var m := MaxOf(s[1..]);
      assert forall v :: v in s ==> v == s[0] || v in s[1..] by {
        assert s == [s[0]] + s[1..];
      }
      if s[0] >= m then s[0] else m
  }

  /** A slider range `(lo, hi)`, both ends included. */
  datatype Bounds = Bounds(lo: int, hi: int)

  /** `int(col.min())` and `int(col.max())`; with no non-NULL value the
      minimum is NaN and `int()` raises, which `None` stands for. Each bound
      is the truncation of some value of the column, and every value's
      truncation lies between them. */
  function SliderBounds(col: seq<Option<real>>): (r: Option<Bounds>)
    ensures r.None? <==> forall o :: o in col ==> o.None?
    ensures r.Some? ==> r.value.lo <= r.value.hi
    ensures r.Some? ==> forall v :: Some(v) in col ==> r.value.lo <= Trunc(v) <= r.value.hi
    ensures r.Some? ==> exists v :: Some(v) in col && Trunc(v) == r.value.lo
    ensures r.Some? ==> exists v :: Some(v) in col && Trunc(v) == r.value.hi
  {
    var values := Present(col);
    if values == [] then
      assert forall o :: o in col ==> o.None? by {
        forall o | o in col ensures o.None? {
        }
      }
      None
    else
      assert values[0] in values;
      var lo, hi := MinOf(values), MaxOf(values);
      assert Some(lo) in col && Some(hi) in col;
      assert forall v :: Some(v) in col ==> Trunc(lo) <= Trunc(v) <= Trunc(hi) by {
        forall v | Some(v) in col ensures Trunc(lo) <= Trunc(v) <= Trunc(hi) {
          assert v in values;
          TruncMonotone(lo, v);
          TruncMonotone(v, hi);
        }
      }
      Some(Bounds(Trunc(lo), Trunc(hi)))
  }

  function Prices(df: seq<Record>): (r: seq<Option<real>>)
    ensures |r| == |df|
  {
    seq(|df|, i requires 0 <= i < |df| => df[i].price)
  }

  function Rooms(df: seq<Record>): (r: seq<Option<real>>)
    ensures |r| == |df|
  {
    seq(|df|, i requires 0 <= i < |df| => df[i].rooms)
  }

  // ---------------------------------------------------------------------
  // The filter

  /** `lo <= v <= hi`; a NULL value compares false and is dropped. */
  predicate Within(v: Option<real>, b: Bounds) {
    v.Some? && b.lo as real <= v.value <= b.hi as real
  }

  /** What a kept row satisfies: the chosen type unless 'All' is chosen, and
      both ranges. */
  predicate Matches(row: Record, selectedType: string, price: Bounds, rooms: Bounds) {
    (selectedType == AllTypes || row.propertyType == selectedType) &&
    Within(row.price, price) && Within(row.rooms, rooms)
  }

  /** `filtered_df` after the type mask and the range mask, each applied to
      the copy in turn. It is the one-pass filter by `Matches`: every kept
      row matches, every matching row is kept as often as it occurs, and
      the kept rows keep their order. */
  function FilterRows(df: seq<Record>, selectedType: string, price: Bounds, rooms: Bounds): (r: seq<Record>)
    ensures r == Filter(df, row => Matches(row, selectedType, price, rooms))
    ensures IsSubseq(r, df)
    ensures forall row :: row in r ==> row in df && Matches(row, selectedType, price, rooms)
    ensures forall row :: row in df && Matches(row, selectedType, price, rooms) ==> row in r
  {
    var inRanges := (row: Record) => Within(row.price, price) && Within(row.rooms, rooms);
    var matches := (row: Record) => Matches(row, selectedType, price, rooms);
    if selectedType != AllTypes then
      var ofType := (row: Record) => row.propertyType == selectedType;
      FilterFilter(df, ofType, inRanges, matches);
      FilterIsSubseq(df, matches);
      Filter(Filter(df, ofType), inRanges)
    else
      FilterExt(df, inRanges, matches);
      FilterIsSubseq(df, matches);
      Filter(df, inRanges)
  }

  /** The "Showing N properties" count is the number of matching rows. */
  lemma ShownCountIsMatchingRows(df: seq<Record>, selectedType: string, price: Bounds, rooms: Bounds)
    ensures |FilterRows(df, selectedType, price, rooms)|
         == Count(df, row => Matches(row, selectedType, price, rooms))
  {
    FilterCount(df, row => Matches(row, selectedType, price, rooms));
  }

  /** A present value with no fractional part. */
  predicate Whole(o: Option<real>) {
    o.Some? && o.value == o.value.Floor as real
  }

  lemma TruncWhole(v: real)
    requires v == v.Floor as real
    ensures Trunc(v) as real == v
  {
    var k := v.Floor;
    assert -v == (-k) as real;
    assert ((-k) as real).Floor == -k;
  }

  /** A whole value of a column lies within that column's slider bounds. */
  lemma WholeWithinBounds(col: seq<Option<real>>, i: nat, b: Bounds)
    requires i < |col| && Whole(col[i]) && SliderBounds(col) == Some(b)
    ensures Within(col[i], b)
  {
    var v := col[i].value;
    assert Some(v) in col;
    TruncWhole(v);
  }

  /** At the default selection ('All' and each slider at its full range) a
      non-empty table whose prices and room counts are all whole numbers is
      shown in full. */
  lemma DefaultSelectionKeepsWholeValues(df: seq<Record>)
    requires df != []
    requires forall row :: row in df ==> Whole(row.price) && Whole(row.rooms)
    ensures SliderBounds(Prices(df)).Some? && SliderBounds(Rooms(df)).Some?
    ensures FilterRows(df, AllTypes, SliderBounds(Prices(df)).value, SliderBounds(Rooms(df)).value) == df
  {
    assert df[0] in df && Prices(df)[0] in Prices(df) && Rooms(df)[0] in Rooms(df);
    var price := SliderBounds(Prices(df)).value;
    var rooms := SliderBounds(Rooms(df)).value;
    forall row | row in df ensures Matches(row, AllTypes, price, rooms) {
      var i :| 0 <= i < |df| && df[i] == row;
      WholeWithinBounds(Prices(df), i, price);
      WholeWithinBounds(Rooms(df), i, rooms);
    }
    FilterAll(df, row => Matches(row, AllTypes, price, rooms));
  }

  /** Because the bounds are truncated, the priciest row can fall outside
      even the default price range: prices 1.0 and 2.5 give the range 1..2.
      Room counts 1.0 and 2.0 keep the rooms slider's bounds distinct. */
  lemma TruncatedBoundDropsTopRow(cheap: Record, dear: Record)
    requires cheap.price == Some(1.0) && dear.price == Some(2.5)
    requires cheap.rooms == Some(1.0) && dear.rooms == Some(2.0)
    ensures SliderBounds(Prices([cheap, dear])) == Some(Bounds(1, 2))
    ensures SliderBounds(Rooms([cheap, dear])) == Some(Bounds(1, 2))
    ensures FilterRows([cheap, dear], AllTypes, Bounds(1, 2), Bounds(1, 2)) == [cheap]
  {
    var df := [cheap, dear];
    assert Prices(df) == [Some(1.0), Some(2.5)];
    assert Rooms(df) == [Some(1.0), Some(2.0)];
    assert Trunc(1.0) == 1 && Trunc(2.5) == 2 && Trunc(2.0) == 2;
    assert Some(1.0) in Prices(df) && Some(2.5) in Prices(df);
    assert forall v :: Some(v) in Prices(df) ==> v == 1.0 || v == 2.5;
    assert Some(1.0) in Rooms(df) && Some(2.0) in Rooms(df);
    assert forall v :: Some(v) in Rooms(df) ==> v == 1.0 || v == 2.0;
    assert !Matches(dear, AllTypes, Bounds(1, 2), Bounds(1, 2));
    assert Filter(df, row => Matches(row, AllTypes, Bounds(1, 2), Bounds(1, 2))) == [cheap];
  }
}
