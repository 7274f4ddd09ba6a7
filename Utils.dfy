/** The two numeric helpers the evolutionary loop samples with: a cumulative
    distribution built from integer scores, and a bracketed binary search that
    maps a drawn value in [0, 1) to an index. Doubles are modelled as reals,
    without rounding. */
module Utils {

  // ------------------------------------------------------------ sums

  function Sum(v: seq<int>): int {
    if |v| == 0 then 0 else Sum(v[..|v| - 1]) + v[|v| - 1]
  }

  function SumReal(s: seq<real>): real {
    if |s| == 0 then 0.0 else SumReal(s[..|s| - 1]) + s[|s| - 1]
  }

  predicate NonNegative(v: seq<int>) {
    forall i :: 0 <= i < |v| ==> v[i] >= 0
  }

  predicate NonDecreasing(s: seq<real>) {
    forall i, j :: 0 <= i < j < |s| ==> s[i] <= s[j]
  }

  // ------------------------------------------------------------ CalcCDF

  /** The uniform cdf CalcCDF falls back to when the scores sum to zero:
      entry i is 1/n times (i + 1). */
  function Uniform(n: nat): (r: seq<real>)
    ensures |r| == n
  {
    seq(n, i requires 0 <= i < n => 1.0 / (n as real) * ((i + 1) as real))
  }

  /** The cdf CalcCDF builds from non-zero total scores, as written: entry i
      is v[i] / total plus the running sum of all earlier ENTRIES, so the
      shares are accumulated twice. */
  function Accumulated(v: seq<int>, total: int): (r: seq<real>)
    requires total != 0
    ensures |r| == |v|
  {
    if |v| == 0 then []
    else
      var p := Accumulated(v[..|v| - 1], total);
      p + [(v[|v| - 1] as real) / (total as real) + SumReal(p)]
  }

  function Cdf(v: seq<int>): (r: seq<real>)
    ensures |r| == |v|
  {
    if Sum(v) == 0 then Uniform(|v|) else Accumulated(v, Sum(v))
  }

  /** CalcCDF: sums the scores, then fills a fresh array with the uniform
      cdf when the sum is zero and with the accumulated cdf otherwise. */
  method CalcCDF(values: array<int>) returns (cdf: array<real>)
    ensures fresh(cdf) && cdf.Length == values.Length
    ensures cdf[..] == Cdf(values[..])
  {
    cdf := new real[values.Length];
    var total := SumValues(values);
    if total == 0 {
      FillUniform(cdf);
    } else {
      FillAccumulated(cdf, values, total);
    }
  }

  /** The first loop of CalcCDF: the total of the scores. */
  method SumValues(values: array<int>) returns (total: int)
    ensures total == Sum(values[..])
  {
    total := 0;
    var i := 0;
    while i < values.Length
      invariant 0 <= i <= values.Length
      invariant total == Sum(values[..i])
    {
      assert values[..i + 1][..i] == values[..i];
      total := total + values[i];
      i := i + 1;
    }
    assert values[..] == values[..i];
  }

  method FillUniform(cdf: array<real>)
    modifies cdf
    ensures cdf[..] == Uniform(cdf.Length)
  {
    var n := cdf.Length;
    ghost var u := Uniform(n);
    var i := 0;
    while i < n
      invariant 0 <= i <= n
      invariant forall k :: 0 <= k < i ==> cdf[k] == u[k]
    {
      cdf[i] := 1.0 / (n as real) * ((i + 1) as real);
      assert cdf[i] == u[i];
      i := i + 1;
    }
  }

  method FillAccumulated(cdf: array<real>, values: array<int>, total: int)
    requires total != 0 && cdf.Length == values.Length
    modifies cdf
    ensures cdf[..] == Accumulated(values[..], total)
  {
    var n := cdf.Length;
    ghost var vs := values[..];
    ghost var acc: seq<real> := [];
    var cumulative := 0.0;
    var i := 0;
    while i < n
      invariant 0 <= i <= n && |acc| == i
      invariant acc == Accumulated(vs[..i], total) && cumulative == SumReal(acc)
      invariant cdf[..i] == acc
    {
      var entry := AccumulateAt(cdf, values, total, i, cumulative, vs, acc);
      acc := acc + [entry];
      cumulative := cumulative + entry;
      i := i + 1;
    }
    assert cdf[..] == cdf[..n] && vs == vs[..n];
  }

  /** One pass of the accumulation loop: entry i is the share of value i
      plus the running sum of the entries before it. */
  method AccumulateAt(cdf: array<real>, values: array<int>, total: int, i: int, cumulative: real,
                      ghost vs: seq<int>, ghost acc: seq<real>) returns (entry: real)
    requires total != 0 && 0 <= i < cdf.Length == values.Length == |vs| && vs == values[..]
    requires acc == Accumulated(vs[..i], total) && cumulative == SumReal(acc) && cdf[..i] == acc
    modifies cdf
    ensures cdf[..i + 1] == acc + [entry] == Accumulated(vs[..i + 1], total)
    ensures cumulative + entry == SumReal(acc + [entry])
  {
    assert vs[..i + 1][..i] == vs[..i] && vs[i] == values[i];
    entry := (values[i] as real) / (total as real) + cumulative;
    AccumulatedAppend(vs[..i + 1], total, cumulative);
    cdf[i] := entry;
    assert cdf[..i + 1] == acc + [entry];
  }

  /** One more value appends its share plus the running sum of the entries
      so far, and the running sum grows by that entry. */
  lemma AccumulatedAppend(v: seq<int>, total: int, cumulative: real)
    requires total != 0 && |v| > 0 && cumulative == SumReal(Accumulated(v[..|v| - 1], total))
    ensures var entry := (v[|v| - 1] as real) / (total as real) + cumulative;
            Accumulated(v, total) == Accumulated(v[..|v| - 1], total) + [entry] &&
            SumReal(Accumulated(v, total)) == cumulative + entry
  {
    var r := Accumulated(v, total);
    assert r[..|r| - 1] == Accumulated(v[..|v| - 1], total);
  }

  /** The uniform cdf is strictly increasing and ends at 1. */
  lemma UniformIncreasing(n: nat)
    ensures forall i, j :: 0 <= i < j < n ==> Uniform(n)[i] < Uniform(n)[j]
    ensures n > 0 ==> Uniform(n)[n - 1] == 1.0
  {
    var u := Uniform(n);
    forall i, j | 0 <= i < j < n ensures u[i] < u[j] {
      var step := 1.0 / (n as real);
      assert step > 0.0;
      assert u[i] == step * ((i + 1) as real) && u[j] == step * ((j + 1) as real);
      assert step * ((j + 1) as real) - step * ((i + 1) as real) == step * ((j - i) as real);
    }
  }

  /** The sample scores of the repository's own unit test: the shares are
      0.1, 0.3, 0.1 and 0.5, and the cdf as written ends at 1.6. */
  lemma {:induction false} CdfExample()
    ensures Cdf([1, 3, 1, 5]) == [0.1, 0.4, 0.6, 1.6]
  {
    var v := [1, 3, 1, 5];
    assert v[..3] == [1, 3, 1] && v[..3][..2] == [1, 3] && v[..3][..2][..1] == [1];
    assert Sum([1]) == 1 && Sum([1, 3]) == 4 && Sum([1, 3, 1]) == 5 && Sum(v) == 10;
    var a1 := Accumulated([1], 10);
    assert a1 == [0.1];
    var a2 := Accumulated([1, 3], 10);
    assert a2 == [0.1, 0.4];
    var a3 := Accumulated([1, 3, 1], 10);
    assert a3 == [0.1, 0.4, 0.6];
  }

  /** Entry i of the accumulated cdf in closed form. */
  lemma {:induction false} AccumulatedAt(v: seq<int>, total: int, i: int)
    requires total != 0 && 0 <= i < |v|
    ensures Accumulated(v, total)[i] == (v[i] as real) / (total as real) + SumReal(Accumulated(v, total)[..i])
    decreases |v|
  {
    var p := Accumulated(v[..|v| - 1], total);
    var a := Accumulated(v, total);
    assert a[..|v| - 1] == p;
    if i < |v| - 1 {
      AccumulatedAt(v[..|v| - 1], total, i);
      assert a[..i] == p[..i];
    }
  }

  lemma {:induction false} SumRealNonNegative(s: seq<real>)
    requires forall i :: 0 <= i < |s| ==> s[i] >= 0.0
    ensures SumReal(s) >= 0.0
  {
    if |s| > 0 {
      SumRealNonNegative(s[..|s| - 1]);
    }
  }

  /** Sums of pointwise-smaller shares are smaller. */
  lemma {:induction false} SumRealAboveShares(s: seq<real>, v: seq<int>, total: int)
    requires total > 0 && |s| == |v|
    requires forall i :: 0 <= i < |s| ==> s[i] >= (v[i] as real) / (total as real)
    ensures SumReal(s) >= (Sum(v) as real) / (total as real)
  {
    if |s| > 0 {
      SumRealAboveShares(s[..|s| - 1], v[..|v| - 1], total);
      SharesAdd(Sum(v[..|v| - 1]), v[|v| - 1], total);
    }
  }

  /** With non-negative scores every accumulated entry is at least its own
      share, and so is non-negative. */
  lemma {:induction false} AccumulatedAboveShares(v: seq<int>, total: int)
    requires total > 0 && NonNegative(v)
    ensures forall i :: 0 <= i < |v| ==> Accumulated(v, total)[i] >= (v[i] as real) / (total as real) >= 0.0
    decreases |v|
  {
    if |v| > 0 {
      var w := v[..|v| - 1];
      var p := Accumulated(w, total);
      AccumulatedAboveShares(w, total);
      SumRealNonNegative(p);
      var a := Accumulated(v, total);
      forall i | 0 <= i < |v| ensures a[i] >= (v[i] as real) / (total as real) >= 0.0 {
        if i < |v| - 1 {
          assert a[i] == p[i] && w[i] == v[i];
        }
      }
    }
  }

  /** With non-negative scores each accumulated entry is at least the one
      before it. */
  lemma {:induction false} AccumulatedStep(v: seq<int>, total: int, j: int)
    requires total > 0 && NonNegative(v) && 0 < j < |v|
    ensures Accumulated(v, total)[j - 1] <= Accumulated(v, total)[j]
    decreases |v|
  {
    var w := v[..|v| - 1];
    var p := Accumulated(w, total);
    var a := Accumulated(v, total);
    if j < |v| - 1 {
      AccumulatedStep(w, total, j);
      assert a[j] == p[j] && a[j - 1] == p[j - 1];
    } else {
      AccumulatedAboveShares(w, total);
      var q := p[..j - 1];
      assert p[..j] == p;
      assert p == q + [p[j - 1]];
      SumRealNonNegative(q);
      assert a[j] == (v[j] as real) / (total as real) + SumReal(q) + p[j - 1];
    }
  }

  lemma {:induction false} AdjacentNonDecreasing(s: seq<real>)
    requires forall j :: 0 < j < |s| ==> s[j - 1] <= s[j]
    ensures NonDecreasing(s)
  {
    if |s| > 1 {
      var t := s[..|s| - 1];
      assert forall j :: 0 <= j < |t| ==> t[j] == s[j];
      AdjacentNonDecreasing(t);
      forall i, j | 0 <= i < j < |s| ensures s[i] <= s[j] {
        if j < |s| - 1 {
          assert s[i] == t[i] && s[j] == t[j];
        } else if i < j - 1 {
          assert s[i] == t[i] && s[j - 1] == t[j - 1];
        }
      }
    }
  }

  /** The cdf CalcCDF builds from non-negative scores is non-decreasing, so
      it is a valid input for the search. */
  lemma CdfNonDecreasing(v: seq<int>)
    requires NonNegative(v)
    ensures NonDecreasing(Cdf(v))
  {
    if Sum(v) == 0 {
      UniformIncreasing(|v|);
    } else {
      SumNonNegative(v);
      forall j | 0 < j < |v| ensures Cdf(v)[j - 1] <= Cdf(v)[j] {
        AccumulatedStep(v, Sum(v), j);
      }
      AdjacentNonDecreasing(Cdf(v));
    }
  }

  /** As written, with non-negative scores and a non-zero total every entry
      dominates the normalized prefix sum that a cumulative distribution
      holds, so the last entry is at least 1 rather than exactly 1. */
  lemma {:induction false} AccumulatedAbovePrefixShares(v: seq<int>, total: int, i: int)
    requires total > 0 && NonNegative(v) && 0 <= i < |v|
    ensures Accumulated(v, total)[i] >= (Sum(v[..i + 1]) as real) / (total as real)
  {
    var a := Accumulated(v, total);
    var w := v[..i];
    AccumulatedAt(v, total, i);
    AccumulatedAboveShares(v, total);
    assert v[..i + 1][..i] == w;
    assert forall k :: 0 <= k < i ==> a[..i][k] == a[k] && w[k] == v[k];
    SumRealAboveShares(a[..i], w, total);
    assert Sum(v[..i + 1]) == Sum(w) + v[i];
    SharesAdd(Sum(w), v[i], total);
  }

  lemma SharesAdd(x: int, y: int, total: int)
    requires total > 0
    ensures ((x + y) as real) / (total as real) == (x as real) / (total as real) + (y as real) / (total as real)
  {
  }

  lemma CdfEndsAtLeastOne(v: seq<int>)
    requires NonNegative(v) && |v| > 0
    ensures Cdf(v)[|v| - 1] >= 1.0
  {
    if Sum(v) == 0 {
      UniformIncreasing(|v|);
    } else {
      SumNonNegative(v);
      AccumulatedAbovePrefixShares(v, Sum(v), |v| - 1);
      assert v[..|v|] == v;
      assert (Sum(v) as real) / (Sum(v) as real) == 1.0;
    }
  }

  lemma {:induction false} SumNonNegative(v: seq<int>)
    requires NonNegative(v)
    ensures Sum(v) >= 0
  {
    if |v| > 0 {
      SumNonNegative(v[..|v| - 1]);
    }
  }

  // ------------------------------------------------------------ WeightedRandomIndex

  /** The index a bracketed search settles on for n >= 2 entries: the first
      index from 1 on whose entry is at least val, or the last index. */
  function Bracket(cdf: seq<real>, val: real): (r: int)
    requires |cdf| >= 2
    ensures 1 <= r < |cdf| && (r == |cdf| - 1 || val <= cdf[r])
    ensures forall j :: 1 <= j < r ==> cdf[j] < val
  {
    BracketFrom(cdf, val, 1)
  }

  function BracketFrom(cdf: seq<real>, val: real, k: int): (r: int)
    requires 1 <= k < |cdf|
    ensures k <= r < |cdf| && (r == |cdf| - 1 || val <= cdf[r])
    ensures forall j :: k <= j < r ==> cdf[j] < val
    decreases |cdf| - k
  {
    if k == |cdf| - 1 || val <= cdf[k] then k else BracketFrom(cdf, val, k + 1)
  }

  /** WeightedRandomIndex with the drawn value as a parameter. The bracket
      [low, high] keeps high at the last index or at an entry >= val, and low
      at 0 or at an entry < val; the search stops once the two are adjacent
      and answers high, so with three or more entries it never answers 0.
      With two entries a value at most cdf[0] collapses the bracket onto 0,
      the search never stops early, and 0 is the answer. */
  method WeightedRandomIndex(cdf: array<real>, val: real) returns (r: int)
    ensures cdf.Length == 0 ==> r == -1
    ensures cdf.Length > 0 ==> 0 <= r < cdf.Length && (r == cdf.Length - 1 || val <= cdf[r])
    ensures cdf.Length == 1 ==> r == 0
    ensures cdf.Length == 2 ==> (r == 0 <==> val <= cdf[0])
    ensures cdf.Length > 0 && (forall j :: 0 <= j < cdf.Length ==> cdf[j] < val) ==> r == cdf.Length - 1
    ensures cdf.Length >= 3 ==> 1 <= r && (r == 1 || cdf[r - 1] < val)
    ensures cdf.Length >= 3 && NonDecreasing(cdf[..]) ==> r == Bracket(cdf[..], val)
  {
    var n := cdf.Length;
    var low := 0;
    var high := n - 1;
    var i := 0;
    while i < n
      invariant 0 <= i <= n
      invariant n > 0 ==> 0 <= low <= high < n
      invariant n == 0 ==> high == -1
      invariant n > 0 ==> high == n - 1 || val <= cdf[high]
      invariant n > 0 ==> low == 0 || cdf[low] < val
      invariant n >= 3 ==> 2 <= high - low && high - low + i <= n - 1
      invariant n == 2 ==> low == 0 && ((i == 0 && high == 1) || (high == 0 && val <= cdf[0]))
    {
      var mid := (low + high) / 2;
      if cdf[mid] < val {
        low := mid;
      } else {
        high := mid;
      }
      if low == high - 1 {
        break;
      }
      i := i + 1;
    }
    r := high;
    if n >= 3 && NonDecreasing(cdf[..]) {
      BracketUnique(cdf[..], val, r);
    }
  }

  /** Bracket is the only index from 1 on that is bracketed by val in a
      non-decreasing cdf. */
  lemma BracketUnique(cdf: seq<real>, val: real, r: int)
    requires |cdf| >= 3 && NonDecreasing(cdf) && 1 <= r < |cdf|
    requires r == |cdf| - 1 || val <= cdf[r]
    requires r == 1 || cdf[r - 1] < val
    ensures r == Bracket(cdf, val)
  {
  }

  /** The search answers 1, not 0, for a draw below every entry: the first
      entry can never be picked. */
  lemma BracketSkipsFirst()
    ensures Bracket([0.1, 0.5, 0.9, 1.0], 0.05) == 1
  {
    BracketUnique([0.1, 0.5, 0.9, 1.0], 0.05, 1);
  }
}
