/**
 * Variance Threshold Filter (src/Transformers/VarianceThresholdFilter.php).
 *
 * A feature selector: `Fit` keeps every non-continuous column and every
 * continuous column whose population variance is strictly above the
 * threshold; `Transform` projects each sample onto the kept columns and
 * renumbers it.
 */
module VarianceThreshold {
  import opened Common

  // ---------------------------------------------------------------------
  // Population variance, over exact reals
  // ---------------------------------------------------------------------

  function Sum(xs: seq<real>): real
  {
    if |xs| == 0 then 0.0 else Sum(xs[..|xs| - 1]) + xs[|xs| - 1]
  }

  function Mean(xs: seq<real>): real
    requires |xs| > 0
  {
    Sum(xs) / (|xs| as real)
  }

  /** The squared distances of the values from their mean. */
  function SquaredDeviations(xs: seq<real>): seq<real>
    requires |xs| > 0
  {
    var m := Mean(xs);
    seq(|xs|, i requires 0 <= i < |xs| => (xs[i] - m) * (xs[i] - m))
  }

  /** The variance of the values, dividing by their count (not by count - 1). */
  function PopulationVariance(xs: seq<real>): real
    requires |xs| > 0
  {
    Sum(SquaredDeviations(xs)) / (|xs| as real)
  }

  lemma {:induction false} SumNonNegative(xs: seq<real>)
    requires forall i :: 0 <= i < |xs| ==> xs[i] >= 0.0
    ensures Sum(xs) >= 0.0
  {
    if |xs| > 0 {
      SumNonNegative(xs[..|xs| - 1]);
    }
  }

  lemma {:induction false} SumConstant(xs: seq<real>, x: real)
    requires forall i :: 0 <= i < |xs| ==> xs[i] == x
    ensures Sum(xs) == (|xs| as real) * x
  {
    if |xs| > 0 {
      SumConstant(xs[..|xs| - 1], x);
    }
  }

  /** A variance is never negative. */
  lemma VarianceNonNegative(xs: seq<real>)
    requires |xs| > 0
    ensures PopulationVariance(xs) >= 0.0
  {
    var d := SquaredDeviations(xs);
    forall i | 0 <= i < |d| ensures d[i] >= 0.0 {
      var y := xs[i] - Mean(xs);
      assert d[i] == y * y;
    }
    SumNonNegative(d);
  }

  /** A column holding one value throughout has variance 0. */
  lemma ConstantVariance(xs: seq<real>, x: real)
    requires |xs| > 0
    requires forall i :: 0 <= i < |xs| ==> xs[i] == x
    ensures PopulationVariance(xs) == 0.0
  {
    SumConstant(xs, x);
    assert Mean(xs) == x;
    SumConstant(SquaredDeviations(xs), 0.0);
  }

  lemma {:induction false} SumPositive(xs: seq<real>, k: nat)
    requires forall i :: 0 <= i < |xs| ==> xs[i] >= 0.0
    requires k < |xs| && xs[k] > 0.0
    ensures Sum(xs) > 0.0
  {
    var prev := xs[..|xs| - 1];
    if k == |xs| - 1 {
      SumNonNegative(prev);
    } else {
      SumPositive(prev, k);
    }
  }

  lemma SquarePositive(y: real, sq: real)
    requires y != 0.0 && sq == y * y
    ensures sq > 0.0
  {
    if y > 0.0 {
      calc { sq; == y * y; > 0.0; }
    } else {
      calc { sq; == y * y; == (-y) * (-y); > 0.0; }
    }
  }

  /** Values that are not all equal have a positive variance. */
  lemma VariancePositive(xs: seq<real>, k: nat, k': nat)
    requires k < |xs| && k' < |xs| && xs[k] != xs[k']
    ensures PopulationVariance(xs) > 0.0
  {
    var m := Mean(xs);
    var d := SquaredDeviations(xs);
    var j := if xs[k] != m then k else k';
    assert xs[j] - m != 0.0;
    SquarePositive(xs[j] - m, d[j]);
    forall i | 0 <= i < |d| ensures d[i] >= 0.0 {
      var y := xs[i] - m;
      assert d[i] == y * y;
    }
    SumPositive(d, j);
    var n := |xs| as real;
    assert Sum(d) / n > 0.0;
  }

  // ---------------------------------------------------------------------
  // The reference definition of `fit`
  // ---------------------------------------------------------------------

  /** The dataset can be fitted: continuous columns hold numbers, and there is data to measure. */
  predicate Fittable(samples: seq<seq<Value>>, types: seq<ColType>)
  {
    && HasColumns(samples, |types|)
    && (forall k, c :: 0 <= k < |samples| && 0 <= c < |types| && types[c] == Continuous ==> samples[k][c].Num?)
    && (|samples| > 0 || Continuous !in types)
  }

  /** The numbers of a continuous column, one per sample. */
  function ContinuousColumn(samples: seq<seq<Value>>, types: seq<ColType>, c: nat): (xs: seq<real>)
    requires Fittable(samples, types) && c < |types| && types[c] == Continuous
    ensures |xs| == |samples| > 0
  {
    var col := ColumnValues(samples, c);
    seq(|col|, k requires 0 <= k < |col| => col[k].n)
  }

  /** The population variance of continuous column `c`. */
  function ColumnVariance(samples: seq<seq<Value>>, types: seq<ColType>, c: nat): real
    requires Fittable(samples, types) && c < |types| && types[c] == Continuous
  {
    PopulationVariance(ContinuousColumn(samples, types, c))
  }

  lemma FittablePrefix(samples: seq<seq<Value>>, types: seq<ColType>, m: nat)
    requires Fittable(samples, types) && m <= |types|
    ensures Fittable(samples, types[..m])
    ensures forall c :: 0 <= c < m && types[c] == Continuous ==>
              ColumnVariance(samples, types[..m], c) == ColumnVariance(samples, types, c)
  {
    if Continuous in types[..m] {
      var i :| 0 <= i < m && types[..m][i] == Continuous;
      assert types[i] in types;
    }
  }

  /** The columns `fit` selects, in column order. */
  function Selection(samples: seq<seq<Value>>, types: seq<ColType>, threshold: real): seq<nat>
    requires Fittable(samples, types)
  {
    if |types| == 0 then []
    else
      var c := |types| - 1;
      FittablePrefix(samples, types, c);
      var prev := Selection(samples, types[..c], threshold);
      if types[c] == Continuous then
        if ColumnVariance(samples, types, c) > threshold then prev + [c] else prev
      else prev + [c]
  }

  /**
   * The keep rule: a column is selected exactly when it is not continuous or
   * its variance is strictly above the threshold (so a variance equal to the
   * threshold drops it); the selection lists columns in ascending order.
   */
  lemma {:induction false} SelectionSpec(samples: seq<seq<Value>>, types: seq<ColType>, threshold: real)
    requires Fittable(samples, types)
    ensures forall c :: c in Selection(samples, types, threshold) <==>
              0 <= c < |types| && (types[c] == Continuous ==> ColumnVariance(samples, types, c) > threshold)
    ensures forall a, b :: 0 <= a < b < |Selection(samples, types, threshold)| ==>
              Selection(samples, types, threshold)[a] < Selection(samples, types, threshold)[b]
  {
    if |types| > 0 {
      var c := |types| - 1;
      FittablePrefix(samples, types, c);
      SelectionSpec(samples, types[..c], threshold);
      var prev := Selection(samples, types[..c], threshold);
      assert forall a :: 0 <= a < |prev| ==> prev[a] in prev;
    }
  }

  /** A continuous column whose variance equals the threshold is dropped. */
  lemma VarianceAtThresholdDropped(samples: seq<seq<Value>>, types: seq<ColType>, threshold: real, c: nat)
    requires Fittable(samples, types) && c < |types| && types[c] == Continuous
    requires ColumnVariance(samples, types, c) == threshold
    ensures c !in Selection(samples, types, threshold)
  {
    SelectionSpec(samples, types, threshold);
  }

  /** With threshold 0, a constant continuous column is dropped. */
  lemma ConstantColumnDropped(samples: seq<seq<Value>>, types: seq<ColType>, c: nat, x: real)
    requires Fittable(samples, types) && c < |types| && types[c] == Continuous
    requires forall k :: 0 <= k < |samples| ==> samples[k][c] == Num(x)
    ensures c !in Selection(samples, types, 0.0)
  {
    var xs := ContinuousColumn(samples, types, c);
    assert forall k :: 0 <= k < |xs| ==> xs[k] == x;
    ConstantVariance(xs, x);
    SelectionSpec(samples, types, 0.0);
  }

  /** With threshold 0, a continuous column whose values are not all equal is kept. */
  lemma VaryingColumnKept(samples: seq<seq<Value>>, types: seq<ColType>, c: nat, k: nat, k': nat)
    requires Fittable(samples, types) && c < |types| && types[c] == Continuous
    requires k < |samples| && k' < |samples| && samples[k][c] != samples[k'][c]
    ensures c in Selection(samples, types, 0.0)
  {
    var xs := ContinuousColumn(samples, types, c);
    assert xs[k] != xs[k'];
    VariancePositive(xs, k, k');
    SelectionSpec(samples, types, 0.0);
  }

  /**
   * With threshold 0, a continuous column is selected exactly when two of
   * its values differ.
   */
  lemma ZeroThresholdSelection(samples: seq<seq<Value>>, types: seq<ColType>, c: nat)
    requires Fittable(samples, types) && c < |types| && types[c] == Continuous
    ensures c in Selection(samples, types, 0.0) <==>
              exists k, k' :: 0 <= k < |samples| && 0 <= k' < |samples| && samples[k][c] != samples[k'][c]
  {
    if exists k, k' :: 0 <= k < |samples| && 0 <= k' < |samples| && samples[k][c] != samples[k'][c] {
      var k, k' :| 0 <= k < |samples| && 0 <= k' < |samples| && samples[k][c] != samples[k'][c];
      VaryingColumnKept(samples, types, c, k, k');
    } else {
      assert samples[0][c].Num?;
      ConstantColumnDropped(samples, types, c, samples[0][c].n);
    }
  }

  /** The worked example: the values 1, 2, 3, 4 have population variance 1.25. */
  lemma VarianceExample()
    ensures PopulationVariance([1.0, 2.0, 3.0, 4.0]) == 1.25
  {
    var xs := [1.0, 2.0, 3.0, 4.0];
    assert Sum(xs[..1]) == 1.0 by { assert xs[..1][..0] == []; }
    assert Sum(xs[..2]) == 3.0 by { assert xs[..2][..1] == xs[..1]; }
    assert Sum(xs[..3]) == 6.0 by { assert xs[..3][..2] == xs[..2]; }
    assert Sum(xs) == 10.0;
    var d := SquaredDeviations(xs);
    assert d == [2.25, 0.25, 0.25, 2.25];
    assert Sum(d[..1]) == 2.25 by { assert d[..1][..0] == []; }
    assert Sum(d[..2]) == 2.5 by { assert d[..2][..1] == d[..1]; }
    assert Sum(d[..3]) == 2.75 by { assert d[..3][..2] == d[..2]; }
  }

  /**
   * A column whose variance equals the threshold is not "lower than the
   * threshold", yet it is dropped: the column 1, 2, 3, 4 has variance 1.25
   * and is not selected at threshold 1.25.
   */
  lemma ThresholdEqualExample()
    ensures var samples := [[Num(1.0)], [Num(2.0)], [Num(3.0)], [Num(4.0)]];
      && Fittable(samples, [Continuous])
      && ColumnVariance(samples, [Continuous], 0) == 1.25
      && 0 !in Selection(samples, [Continuous], 1.25)
  {
    var samples := [[Num(1.0)], [Num(2.0)], [Num(3.0)], [Num(4.0)]];
    assert Fittable(samples, [Continuous]);
    assert ContinuousColumn(samples, [Continuous], 0) == [1.0, 2.0, 3.0, 4.0];
    VarianceExample();
    VarianceAtThresholdDropped(samples, [Continuous], 1.25, 0);
  }

  // ---------------------------------------------------------------------
  // The transformer
  // ---------------------------------------------------------------------

  class VarianceThresholdFilter {
    /** The variance a continuous column must exceed to be kept. */
    const threshold: real
    /** The selected columns in column order; None until `Fit`. */
    var selected: Option<seq<nat>>

    constructor (threshold: real)
      requires threshold >= 0.0
      ensures this.threshold == threshold && selected == None
    {
      this.threshold := threshold;
      selected := None;
    }

    /** The public constructor: rejects a negative threshold, accepts 0. */
    static method Create(threshold: real) returns (r: Result<VarianceThresholdFilter>)
      ensures r.Err? <==> threshold < 0.0
      ensures r.Err? ==> r.error == InvalidArgument
      ensures r.Ok? ==> fresh(r.value) && r.value.threshold == threshold && r.value.selected == None
    {
      if threshold < 0.0 {
        return Err(InvalidArgument);
      }
      var filter := new VarianceThresholdFilter(threshold);
      return Ok(filter);
    }

    /** The selected columns, in column order; an empty list before `Fit`. */
    function Selected(): (cols: seq<nat>)
      reads this
      ensures selected.None? ==> cols == []
      ensures selected.Some? ==> cols == selected.value
    {
      match selected
      case None => []
      case Some(s) => s
    }

    /** Chooses the columns to keep, starting from an empty selection. */
    method Fit(dataset: Dataset)
      requires Fittable(dataset.samples, dataset.types)
      modifies this
      ensures selected == Some(Selection(dataset.samples, dataset.types, threshold))
    {
      var samples, types := dataset.samples, dataset.types;
      selected := Some([]);
      for c := 0 to |types|
        invariant selected == Some(Selection(samples, types[..c], threshold))
      {
        FittablePrefix(samples, types, c + 1);
        assert types[..c + 1][..c] == types[..c];
        if types[c] == Continuous {
          var values := ContinuousColumn(samples, types, c);
          var variance := PopulationVariance(values);
          if variance > threshold {
            selected := Some(selected.value + [c]);
          }
        } else {
          selected := Some(selected.value + [c]);
        }
      }
      assert types[..|types|] == types;
    }

    /**
     * Projects every sample of the batch in place onto the selected columns,
     * or fails without touching it when the filter has not been fitted.
     */
    method Transform(samples: array<seq<Value>>) returns (outcome: Outcome)
      modifies samples
      ensures selected.None? ==> outcome == Fail(NotFitted) && samples[..] == old(samples[..])
      ensures selected.Some? ==>
                && outcome == Pass
                && forall k :: 0 <= k < samples.Length ==>
                     samples[k] == KeepColumns(old(samples[k]), set c | c in selected.value)
    {
      if selected.None? {
        return Fail(NotFitted);
      }
      var keep := set c | c in selected.value;
      for k := 0 to samples.Length
        invariant forall i :: 0 <= i < k ==> samples[i] == KeepColumns(old(samples[i]), keep)
        invariant forall i :: k <= i < samples.Length ==> samples[i] == old(samples[i])
      {
        samples[k] := KeepColumns(samples[k], keep);
      }
      return Pass;
    }
  }
}
