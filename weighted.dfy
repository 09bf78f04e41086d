/** Frequency-weighted choice of one option from an ordered option list. */
module Weighted {
  import opened Cells

  /** The total frequency of xs, accumulated from the front. */
  ghost function Sum(f: Tile -> real, xs: seq<Tile>): real
    decreases |xs|
  {
    if xs == [] then 0.0 else Sum(f, xs[..|xs| - 1]) + f(xs[|xs| - 1])
  }

  /** The prefix sum of frequencies up to and including xs[j]. */
  ghost function Through(f: Tile -> real, xs: seq<Tile>, j: nat): (r: real)
    requires j < |xs|
    ensures j == |xs| - 1 ==> r == Sum(f, xs)
  {
    assert j == |xs| - 1 ==> xs[..j + 1] == xs;
    Sum(f, xs[..j + 1])
  }

  /**
   * The index chosen for draw value: the first option whose prefix sum of
   * frequencies reaches value, or the last option when no prefix sum does.
   */
  ghost function SelectedIndex(f: Tile -> real, xs: seq<Tile>, value: real): (k: nat)
    requires |xs| > 0
    ensures k < |xs|
    ensures forall j :: 0 <= j < k ==> Through(f, xs, j) < value
    ensures value <= Through(f, xs, k) || k == |xs| - 1
  {
    SelectedFrom(f, xs, value, 0)
  }

  /** The index a weighted draw of fraction in [0, 1) selects: the value is fraction * total. */
  ghost function WeightedIndex(f: Tile -> real, xs: seq<Tile>, fraction: real): (k: nat)
    requires |xs| > 0
    ensures k < |xs|
  {
    SelectedIndex(f, xs, DrawValue(f, xs, fraction))
  }

  /** The draw value of a fraction in [0, 1): that fraction of the total frequency. */
  ghost function DrawValue(f: Tile -> real, xs: seq<Tile>, fraction: real): real
  {
    fraction * Sum(f, xs)
  }

  /** xs[k] is the first option whose prefix sum of frequencies reaches value. */
  ghost predicate FirstReaching(f: Tile -> real, xs: seq<Tile>, value: real, k: nat)
    requires k < |xs|
  {
    value <= Through(f, xs, k) && forall j :: 0 <= j < k ==> Through(f, xs, j) < value
  }

  ghost function SelectedFrom(f: Tile -> real, xs: seq<Tile>, value: real, i: nat): (k: nat)
    requires i < |xs|
    requires forall j :: 0 <= j < i ==> Through(f, xs, j) < value
    ensures i <= k < |xs|
    ensures forall j :: 0 <= j < k ==> Through(f, xs, j) < value
    ensures value <= Through(f, xs, k) || k == |xs| - 1
    decreases |xs| - i
  {
    if i == |xs| - 1 || value <= Through(f, xs, i) then i
    else SelectedFrom(f, xs, value, i + 1)
  }

  ghost predicate NonNegative(f: Tile -> real, xs: seq<Tile>)
  {
    forall k :: 0 <= k < |xs| ==> f(xs[k]) >= 0.0
  }

  lemma {:induction false} SumNonNegative(f: Tile -> real, xs: seq<Tile>)
    requires NonNegative(f, xs)
    ensures Sum(f, xs) >= 0.0
    decreases |xs|
  {
    if xs != [] {
      SumNonNegative(f, xs[..|xs| - 1]);
    }
  }

  lemma {:induction false} SumZero(f: Tile -> real, xs: seq<Tile>)
    requires forall k :: 0 <= k < |xs| ==> f(xs[k]) == 0.0
    ensures Sum(f, xs) == 0.0
    decreases |xs|
  {
    if xs != [] {
      SumZero(f, xs[..|xs| - 1]);
    }
  }

  /**
   * A draw value within the total is reached by some prefix sum, so the
   * fallback to the last option never decides the choice: the selected option
   * is the first whose prefix sum reaches the value.
   */
  lemma WithinTotalReaches(f: Tile -> real, xs: seq<Tile>, value: real)
    requires |xs| > 0 && value <= Sum(f, xs)
    ensures value <= Through(f, xs, SelectedIndex(f, xs, value))
  {
    assert xs[..|xs|] == xs;
    assert Through(f, xs, |xs| - 1) == Sum(f, xs);
  }

  lemma ScaledAtMost(fraction: real, total: real)
    requires 0.0 <= fraction < 1.0 && total >= 0.0
    ensures 0.0 <= fraction * total <= total
  {
    assert total - fraction * total == (1.0 - fraction) * total;
  }

  /** With every frequency zero the draw value is zero and the first option is chosen. */
  lemma AllZeroSelectsFirst(f: Tile -> real, xs: seq<Tile>, fraction: real)
    requires |xs| > 0
    requires forall k :: 0 <= k < |xs| ==> f(xs[k]) == 0.0
    ensures WeightedIndex(f, xs, fraction) == 0
  {
    SumZero(f, xs);
    assert DrawValue(f, xs, fraction) == 0.0;
    SumZero(f, xs[..1]);
    assert Through(f, xs, 0) == 0.0;
  }

  /** A draw value within the total selects exactly the first option whose prefix sum reaches it. */
  lemma SelectedIsFirstReaching(f: Tile -> real, xs: seq<Tile>, value: real, k: nat)
    requires |xs| > 0 && value <= Sum(f, xs) && k < |xs|
    ensures k == SelectedIndex(f, xs, value) <==> FirstReaching(f, xs, value, k)
  {
    WithinTotalReaches(f, xs, value);
  }

  /**
   * With non-negative frequencies a weighted draw selects exactly the first
   * option whose prefix sum of frequencies reaches fraction * total.
   */
  lemma WeightedIsFirstReaching(f: Tile -> real, xs: seq<Tile>, fraction: real, k: nat)
    requires |xs| > 0 && NonNegative(f, xs)
    requires 0.0 <= fraction < 1.0 && k < |xs|
    ensures k == WeightedIndex(f, xs, fraction) <==> FirstReaching(f, xs, DrawValue(f, xs, fraction), k)
  {
    DrawValueWithinTotal(f, xs, fraction);
    SelectedIsFirstReaching(f, xs, DrawValue(f, xs, fraction), k);
  }

  /** With non-negative frequencies the draw value of a fraction in [0, 1) lies between zero and the total. */
  lemma DrawValueWithinTotal(f: Tile -> real, xs: seq<Tile>, fraction: real)
    requires NonNegative(f, xs)
    requires 0.0 <= fraction < 1.0
    ensures 0.0 <= DrawValue(f, xs, fraction) <= Sum(f, xs)
  {
    var total := Sum(f, xs);
    SumNonNegative(f, xs);
    ScaledAtMost(fraction, total);
    assert DrawValue(f, xs, fraction) == fraction * total;
  }
}
