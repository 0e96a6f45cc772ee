/**
 * Column statistics as pandas computes them on a column with missing cells:
 * max() and median() skip absent values and are absent themselves when no
 * value is present.
 */
module Stats {
  import opened Wrappers

  /** The present values of a column, in column order (dropna). */
  function Present(col: seq<Option<real>>): (r: seq<real>)
    ensures |r| <= |col|
    ensures forall x :: x in r <==> Some(x) in col
    ensures |r| == 0 <==> forall i :: 0 <= i < |col| ==> col[i].None?
  {
    if col == [] then []
    else
      assert col == [col[0]] + col[1..];
      match col[0]
      case Some(x) => [x] + Present(col[1..])
      case None => Present(col[1..])
  }

  /** Each present value occurs in Present as often as it occurs in the column. */
  lemma {:induction false} PresentCounts(col: seq<Option<real>>)
    ensures forall x :: multiset(Present(col))[x] == multiset(col)[Some(x)]
  {
    if col != [] {
      PresentCounts(col[1..]);
      assert col == [col[0]] + col[1..];
      assert multiset(col) == multiset{col[0]} + multiset(col[1..]);
    }
  }

  /** Series.max(): the largest present value, absent when none is present. */
  function ColumnMax(col: seq<Option<real>>): (r: Option<real>)
    ensures r.None? <==> forall i :: 0 <= i < |col| ==> col[i].None?
    ensures r.Some? ==> Some(r.value) in col
    ensures r.Some? ==> forall i :: 0 <= i < |col| && col[i].Some? ==> col[i].value <= r.value
  {
    if col == [] then None
    else
      var rest := ColumnMax(col[1..]);
      assert forall i :: 1 <= i < |col| ==> col[i] == col[1..][i - 1];
      match col[0]
      case None => rest
      case Some(x) =>
        if rest.Some? && rest.value > x then rest else Some(x)
  }

  /** The maximum is the present value that no present value exceeds. */
  lemma ColumnMaxUnique(col: seq<Option<real>>, i: nat)
    requires i < |col| && col[i].Some?
    requires forall j :: 0 <= j < |col| && col[j].Some? ==> col[j].value <= col[i].value
    ensures ColumnMax(col) == col[i]
  {
  }

  predicate SortedAsc(xs: seq<real>) {
    forall i, j :: 0 <= i < j < |xs| ==> xs[i] <= xs[j]
  }

  function InsertAsc(x: real, xs: seq<real>): (r: seq<real>)
    requires SortedAsc(xs)
    ensures SortedAsc(r)
    ensures multiset(r) == multiset(xs) + multiset{x}
    ensures r[0] == x || (xs != [] && r[0] == xs[0])
  {
    if xs == [] || x <= xs[0] then [x] + xs
    else
      var tail := xs[1..];
      var rest := InsertAsc(x, tail);
      assert xs == [xs[0]] + tail;
      assert xs[0] <= rest[0];
      [xs[0]] + rest
  }

  /** The values in ascending order (the ordering median() works on). */
  function SortAsc(xs: seq<real>): (r: seq<real>)
    ensures SortedAsc(r)
    ensures multiset(r) == multiset(xs)
  {
    if xs == [] then []
    else
      assert xs == [xs[0]] + xs[1..];
      InsertAsc(xs[0], SortAsc(xs[1..]))
  }

  /**
   * Series.median() of the present values: the middle value, or the mean of
   * the two middle values when their number is even; absent for none.
   */
  function Median(xs: seq<real>): (r: Option<real>)
    ensures r.None? <==> |xs| == 0
    ensures r.Some? ==> exists i, j :: 0 <= i < |xs| && 0 <= j < |xs| && xs[i] <= r.value <= xs[j]
  {
    if |xs| == 0 then None
    else
      var s := SortAsc(xs);
      var n := |s|;
      assert |s| == |multiset(s)| == |xs|;
      if n % 2 == 1 then
        assert s[n / 2] in multiset(xs);
        Some(s[n / 2])
      else
        assert s[n / 2 - 1] in multiset(xs) && s[n / 2] in multiset(xs);
        Some((s[n / 2 - 1] + s[n / 2]) / 2.0)
  }

  /** The median of 10 and 20 is 15. */
  lemma MedianOfTwo()
    ensures Median([10.0, 20.0]) == Some(15.0)
  {
    assert SortAsc([20.0]) == [20.0];
    assert SortAsc([10.0, 20.0]) == [10.0, 20.0];
  }

  /** The first value of an ascending sequence is its least. */
  lemma SortedHeadLeast(a: seq<real>, x: real)
    requires SortedAsc(a) && x in multiset(a)
    ensures a[0] <= x
  {
    var j :| 0 <= j < |a| && a[j] == x;
  }

  /** Two ascending orderings of the same values are the same sequence. */
  lemma {:induction false} SortedUnique(a: seq<real>, b: seq<real>)
    requires SortedAsc(a) && SortedAsc(b) && multiset(a) == multiset(b)
    ensures a == b
  {
    assert |b| == |multiset(b)| == |multiset(a)| == |a|;
    if a != [] {
      SortedHeadLeast(a, b[0]);
      SortedHeadLeast(b, a[0]);
      var a', b' := a[1..], b[1..];
      assert a == [a[0]] + a' && b == [b[0]] + b';
      assert a[0] == b[0];
      assert multiset(a') == multiset(a) - multiset{a[0]} == multiset(b) - multiset{b[0]} == multiset(b');
      assert SortedAsc(a') && SortedAsc(b');
      SortedUnique(a', b');
    }
  }

  /**
   * The median is fixed by any ascending ordering of the values: its middle
   * value for an odd count, the mean of its two middle values for an even one.
   */
  lemma MedianOfSorted(xs: seq<real>, s: seq<real>)
    requires SortedAsc(s) && multiset(s) == multiset(xs)
    ensures |s| == |xs|
    ensures |s| == 0 ==> Median(xs) == None
    ensures |s| % 2 == 1 ==> Median(xs) == Some(s[|s| / 2])
    ensures |s| > 0 && |s| % 2 == 0 ==> Median(xs) == Some((s[|s| / 2 - 1] + s[|s| / 2]) / 2.0)
  {
    assert |s| == |multiset(s)| == |multiset(xs)| == |xs|;
    SortedUnique(SortAsc(xs), s);
  }

  /** Repeated values count: the median of 1, 1 and 5 is 1. */
  lemma MedianCountsRepeats()
    ensures Median(Present([Some(1.0), Some(1.0), Some(5.0)])) == Some(1.0)
  {
    var p := [1.0, 1.0, 5.0];
    assert Present([Some(5.0)]) == [5.0];
    assert Present([Some(1.0), Some(5.0)]) == [1.0, 5.0];
    assert Present([Some(1.0), Some(1.0), Some(5.0)]) == p;
    MedianOfSorted(p, p);
  }

  /** A median of present values lies between their minimum and maximum. */
  lemma MedianWithinColumn(col: seq<Option<real>>)
    requires Present(col) != []
    ensures Median(Present(col)).Some?
    ensures ColumnMax(col).Some? && Median(Present(col)).value <= ColumnMax(col).value
    ensures exists i :: 0 <= i < |col| && col[i].Some? && col[i].value <= Median(Present(col)).value
  {
    var p := Present(col);
    var m := Median(p).value;
    var i, j :| 0 <= i < |p| && 0 <= j < |p| && p[i] <= m <= p[j];
    assert p[i] in p && p[j] in p;
    var a :| 0 <= a < |col| && col[a] == Some(p[i]);
    var b :| 0 <= b < |col| && col[b] == Some(p[j]);
  }

  /** fillna on one cell: a present value stays, an absent one takes the fill (which may itself be absent). */
  function FillCell(v: Option<real>, fill: Option<real>): Option<real> {
    if v.Some? then v else fill
  }

  /** fillna on a column: absent cells take the fill, present cells keep their value. */
  function FillColumn(col: seq<Option<real>>, fill: Option<real>): (r: seq<Option<real>>)
    ensures |r| == |col|
    ensures forall i :: 0 <= i < |col| ==> (col[i].Some? ==> r[i] == col[i]) && (col[i].None? ==> r[i] == fill)
  {
    seq(|col|, i requires 0 <= i < |col| => FillCell(col[i], fill))
  }

  /** Filling a column with its own median leaves its maximum as it was. */
  lemma FillMedianKeepsMax(col: seq<Option<real>>)
    ensures ColumnMax(FillColumn(col, Median(Present(col)))) == ColumnMax(col)
  {
    var filled := FillColumn(col, Median(Present(col)));
    if Present(col) == [] {
      assert forall i :: 0 <= i < |filled| ==> filled[i].None?;
    } else {
      MedianWithinColumn(col);
      var m := ColumnMax(col).value;
      var k :| 0 <= k < |col| && col[k] == Some(m);
      ColumnMaxUnique(filled, k);
    }
  }
}
