/** Median and outliers of hemistich lengths, over exact numbers. */
module Regularity {

  const MAD_SCALE: real := 1.4826
  const OUTLIER_THRESHOLD: real := 3.0

  // ---------------------------------------------------------------------------------------------
  // Sorting

  function Insert(sorted: seq<real>, x: real): seq<real> {
    if sorted == [] || x <= sorted[0] then [x] + sorted else [sorted[0]] + Insert(sorted[1..], x)
  }

  function Sorted(values: seq<real>): seq<real> {
    if values == [] then [] else Insert(Sorted(values[1..]), values[0])
  }

  lemma {:induction false} InsertLength(s: seq<real>, x: real)
    ensures |Insert(s, x)| == |s| + 1
  {
    if s == [] || x <= s[0] {
    } else {
      InsertLength(s[1..], x);
    }
  }

  lemma {:induction false} SortedLength(values: seq<real>)
    ensures |Sorted(values)| == |values|
  {
    if values == [] {
    } else {
      SortedLength(values[1..]);
      InsertLength(Sorted(values[1..]), values[0]);
    }
  }

  ghost predicate Ascending(s: seq<real>) {
    forall i, j :: 0 <= i < j < |s| ==> s[i] <= s[j]
  }

  function CountAbove(s: seq<real>, t: real): nat {
    if s == [] then 0 else (if s[0] > t then 1 else 0) + CountAbove(s[1..], t)
  }

  function CountBelow(s: seq<real>, t: real): nat {
    if s == [] then 0 else (if s[0] < t then 1 else 0) + CountBelow(s[1..], t)
  }

  lemma {:induction false} InsertAscends(s: seq<real>, x: real)
    requires Ascending(s)
    ensures Ascending(Insert(s, x))
    ensures Insert(s, x) != [] && (Insert(s, x)[0] == x || (s != [] && Insert(s, x)[0] == s[0]))
  {
    if s == [] || x <= s[0] {
    } else {
      InsertAscends(s[1..], x);
      var rest := Insert(s[1..], x);
      assert rest[0] >= s[0];
      forall j | 0 < j < |rest|
        ensures s[0] <= rest[j]
      {
        assert rest[0] <= rest[j];
      }
    }
  }

  lemma {:induction false} InsertCounts(s: seq<real>, x: real, t: real)
    ensures CountAbove(Insert(s, x), t) == CountAbove(s, t) + if x > t then 1 else 0
    ensures CountBelow(Insert(s, x), t) == CountBelow(s, t) + if x < t then 1 else 0
  {
    if s == [] || x <= s[0] {
      assert ([x] + s)[1..] == s;
    } else {
      InsertCounts(s[1..], x, t);
      assert Insert(s, x)[1..] == Insert(s[1..], x);
    }
  }

  /** Sorting is an ascending rearrangement: above and below any bound there are as many as before. */
  lemma {:induction false} SortedIsSorted(values: seq<real>, t: real)
    ensures Ascending(Sorted(values))
    ensures CountAbove(Sorted(values), t) == CountAbove(values, t)
    ensures CountBelow(Sorted(values), t) == CountBelow(values, t)
  {
    if values == [] {
    } else {
      SortedIsSorted(values[1..], t);
      InsertAscends(Sorted(values[1..]), values[0]);
      InsertCounts(Sorted(values[1..]), values[0], t);
    }
  }

  lemma {:induction false} AboveAtMost(s: seq<real>, t: real, k: nat)
    requires k <= |s| && forall i :: 0 <= i < k ==> s[i] <= t
    ensures CountAbove(s, t) <= |s| - k
  {
    if s == [] {
    } else {
      AboveAtMost(s[1..], t, if k > 0 then k - 1 else 0);
    }
  }

  lemma {:induction false} BelowAtMost(s: seq<real>, t: real, k: nat)
    requires k <= |s| && forall i :: k <= i < |s| ==> s[i] >= t
    ensures CountBelow(s, t) <= k
  {
    if s == [] {
    } else {
      BelowAtMost(s[1..], t, if k > 0 then k - 1 else 0);
    }
  }

  // ---------------------------------------------------------------------------------------------
  // The median

  function Median(values: seq<real>): real {
    if values == [] then 0.0
    else
      SortedLength(values);
      var sorted := Sorted(values);
      var middle := |sorted| / 2;
      if |sorted| % 2 == 1 then sorted[middle] else (sorted[middle - 1] + sorted[middle]) / 2.0
  }

  lemma Midpoint(low: real, high: real)
    requires low <= high
    ensures
      var middle := (low + high) / 2.0;
      low <= middle <= high && middle - low == high - middle
  {
  }

  /** Where the median stands in the sorted values. */
  lemma MedianAmongSorted(values: seq<real>)
    requires values != []
    ensures |Sorted(values)| == |values|
    ensures
      var s, middle := Sorted(values), |values| / 2;
      && (|values| % 2 == 1 ==> s[middle] == Median(values))
      && (|values| % 2 == 0 ==>
            s[middle - 1] <= Median(values) <= s[middle]
            && Median(values) - s[middle - 1] == s[middle] - Median(values))
  {
    hide Sorted;
    SortedLength(values);
    SortedIsSorted(values, 0.0);
    if |values| % 2 == 0 {
      Midpoint(Sorted(values)[|values| / 2 - 1], Sorted(values)[|values| / 2]);
    }
  }

  /** The median splits the values: at most half lie below it and at most half above. */
  lemma MedianSplits(values: seq<real>)
    ensures 2 * CountBelow(values, Median(values)) <= |values|
    ensures 2 * CountAbove(values, Median(values)) <= |values|
  {
    hide Median, Sorted;
    if values != [] {
      var m, s, middle := Median(values), Sorted(values), |values| / 2;
      SortedIsSorted(values, m);
      MedianAmongSorted(values);
      AboveAtMost(s, m, if |values| % 2 == 1 then middle + 1 else middle);
      BelowAtMost(s, m, middle);
    }
  }

  // ---------------------------------------------------------------------------------------------
  // Outliers are a minority

  function Abs(x: real): real {
    if x >= 0.0 then x else -x
  }

  function Deviations(values: seq<real>, centre: real): (deviations: seq<real>)
    ensures |deviations| == |values|
  {
    if values == [] then [] else [Abs(values[0] - centre)] + Deviations(values[1..], centre)
  }

  ghost predicate NonNegative(s: seq<real>) {
    forall i :: 0 <= i < |s| ==> s[i] >= 0.0
  }

  lemma {:induction false} DeviationsAreNonNegative(values: seq<real>, centre: real)
    ensures NonNegative(Deviations(values, centre))
  {
    if values == [] {
    } else {
      DeviationsAreNonNegative(values[1..], centre);
    }
  }

  lemma {:induction false} NoneBelowZero(s: seq<real>)
    ensures CountBelow(s, 0.0) == 0 <==> NonNegative(s)
  {
    if s == [] {
    } else {
      NoneBelowZero(s[1..]);
      assert s == [s[0]] + s[1..];
      if NonNegative(s) {
        assert forall i :: 0 <= i < |s[1..]| ==> s[1..][i] == s[i + 1];
      }
    }
  }

  /** Of non-negative numbers the middle one is at most twice the median, and zero with it. */
  lemma MiddleOfNonNegative(values: seq<real>)
    requires values != [] && NonNegative(values)
    ensures |Sorted(values)| == |values|
    ensures 0.0 <= Sorted(values)[|values| / 2] <= 2.0 * Median(values)
  {
    SortedLength(values);
    SortedIsSorted(values, 0.0);
    NoneBelowZero(values);
    NoneBelowZero(Sorted(values));
  }

  /** The median absolute deviation, or one if it is zero. */
  function Spread(values: seq<real>): real {
    var deviation := Median(Deviations(values, Median(values)));
    if deviation == 0.0 then 1.0 else deviation
  }

  lemma SpreadIsPositive(values: seq<real>)
    requires values != []
    ensures Spread(values) > 0.0
  {
    var deviations := Deviations(values, Median(values));
    DeviationsAreNonNegative(values, Median(values));
    MiddleOfNonNegative(deviations);
  }

  predicate IsOutlier(value: real, centre: real, spread: real)
    requires spread > 0.0
  {
    Abs(value - centre) / (MAD_SCALE * spread) > OUTLIER_THRESHOLD
  }

  function Outliers(values: seq<real>, centre: real, spread: real): seq<real>
    requires spread > 0.0
  {
    if values == [] then []
    else (if IsOutlier(values[0], centre, spread) then [values[0]] else []) + Outliers(values[1..], centre, spread)
  }

  function MadOutlierShare(values: seq<real>): real {
    if values == [] then 0.0
    else
      SpreadIsPositive(values);
      |Outliers(values, Median(values), Spread(values))| as real / |values| as real
  }

  lemma FarIsOutlier(x: real, scale: real)
    requires scale > 0.0
    ensures x / scale > OUTLIER_THRESHOLD <==> x > OUTLIER_THRESHOLD * scale
  {
    assert x == x / scale * scale;
    var q := x / scale;
    if q > OUTLIER_THRESHOLD {
      assert (q - OUTLIER_THRESHOLD) * scale > 0.0;
    } else {
      assert (OUTLIER_THRESHOLD - q) * scale >= 0.0;
    }
  }

  lemma {:induction false} OutliersAreFarDeviations(values: seq<real>, centre: real, spread: real)
    requires spread > 0.0
    ensures |Outliers(values, centre, spread)|
         == CountAbove(Deviations(values, centre), OUTLIER_THRESHOLD * (MAD_SCALE * spread))
  {
    if values == [] {
    } else {
      OutliersAreFarDeviations(values[1..], centre, spread);
      FarIsOutlier(Abs(values[0] - centre), MAD_SCALE * spread);
    }
  }

  lemma ShareOf(part: real, whole: real)
    requires 0.0 <= part && 2.0 * part < whole
    ensures 0.0 <= part / whole < 0.5
  {
    var q := part / whole;
    assert q * whole == part;
    assert (q - 0.5) * whole == part - 0.5 * whole;
  }

  /** Whatever the values, fewer than half of them are outliers: for odd and even counts, and also when
      the deviation is zero and one stands in for it. */
  lemma OutliersAreAMinority(values: seq<real>)
    requires values != []
    ensures Spread(values) > 0.0
    ensures 2 * |Outliers(values, Median(values), Spread(values))| < |values|
    ensures 0.0 <= MadOutlierShare(values) < 0.5
  {
    hide Median, Sorted, Outliers, Deviations, CountAbove;
    var centre, spread := Median(values), Spread(values);
    var deviations := Deviations(values, centre);
    var bound := OUTLIER_THRESHOLD * (MAD_SCALE * spread);
    SpreadIsPositive(values);
    DeviationsAreNonNegative(values, centre);
    MiddleOfNonNegative(deviations);
    OutliersAreFarDeviations(values, centre, spread);
    SortedIsSorted(deviations, bound);
    var middle := |values| / 2;
    assert Sorted(deviations)[middle] <= bound;
    AboveAtMost(Sorted(deviations), bound, middle + 1);
    var share := |Outliers(values, centre, spread)| as real;
    assert 2.0 * share < |values| as real;
    ShareOf(share, |values| as real);
  }

  lemma ShareIsQuotient(values: seq<real>)
    requires values != []
    ensures Spread(values) > 0.0
    ensures MadOutlierShare(values)
         == |Outliers(values, Median(values), Spread(values))| as real / |values| as real
  {
    hide Median, Outliers, Spread;
    SpreadIsPositive(values);
  }

  /** The share is that of the values farther from the median than three scaled deviations. */
  lemma ShareIsOfFarValues(values: seq<real>)
    requires values != []
    ensures
      var bound := OUTLIER_THRESHOLD * (MAD_SCALE * Spread(values));
      MadOutlierShare(values) == CountAbove(Deviations(values, Median(values)), bound) as real / |values| as real
  {
    hide Median, Outliers, Deviations, CountAbove, Spread, MadOutlierShare;
    ShareIsQuotient(values);
    OutliersAreFarDeviations(values, Median(values), Spread(values));
  }
}
