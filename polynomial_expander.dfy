/**
 * Polynomial Expander (src/Transformers/PolynomialExpander.php).
 *
 * A stateless transformer: each column x_i of a sample becomes the powers
 * x_i^1, ..., x_i^d, column after column, so a sample of n columns becomes
 * one of n * d columns.
 */
module PolynomialExpansion {
  import opened Common

  /** The degree the expander is built with: at least 1. */
  type Degree = d: int | d >= 1 witness 1

  function Power(x: real, j: nat): real
  {
    if j == 0 then 1.0 else Power(x, j - 1) * x
  }

  /** x^1, ..., x^d, ascending. */
  function Powers(x: real, d: nat): (ps: seq<real>)
    ensures |ps| == d
    ensures forall j :: 1 <= j <= d ==> ps[j - 1] == Power(x, j)
  {
    if d == 0 then [] else Powers(x, d - 1) + [Power(x, d)]
  }

  /** The powers of the first `columns` columns of `sample`, column after column. */
  function Expand(sample: seq<real>, columns: nat, d: nat): seq<real>
    requires columns <= |sample|
  {
    if columns == 0 then [] else Expand(sample, columns - 1, d) + Powers(sample[columns - 1], d)
  }

  lemma {:induction false} ExpandLength(sample: seq<real>, columns: nat, d: nat)
    requires columns <= |sample|
    ensures |Expand(sample, columns, d)| == columns * d
  {
    if columns > 0 {
      ExpandLength(sample, columns - 1, d);
      assert (columns - 1) * d + d == columns * d;
    }
  }

  /** The output slot i * d + (j - 1) holds column i raised to the power j. */
  lemma {:induction false} ExpandAt(sample: seq<real>, columns: nat, d: nat, i: nat, j: nat)
    requires columns <= |sample|
    requires i < columns && 1 <= j <= d
    ensures |Expand(sample, columns, d)| == columns * d
    ensures i * d + (j - 1) < columns * d
    ensures Expand(sample, columns, d)[i * d + (j - 1)] == Power(sample[i], j)
  {
    ExpandLength(sample, columns, d);
    ExpandLength(sample, columns - 1, d);
    var prev := Expand(sample, columns - 1, d);
    assert Expand(sample, columns, d) == prev + Powers(sample[columns - 1], d);
    if i < columns - 1 {
      ExpandAt(sample, columns - 1, d, i, j);
      assert i * d + (j - 1) < |prev|;
    } else {
      assert i * d == |prev|;
    }
    assert i * d + (j - 1) < columns * d by {
      assert i * d + d <= columns * d;
    }
  }

  /** The expansion reads only the first `columns` columns of its own sample. */
  lemma {:induction false} ExpandLocal(s: seq<real>, t: seq<real>, columns: nat, d: nat)
    requires columns <= |s| && columns <= |t| && s[..columns] == t[..columns]
    ensures Expand(s, columns, d) == Expand(t, columns, d)
  {
    if columns > 0 {
      assert s[..columns - 1] == t[..columns - 1] && s[columns - 1] == t[columns - 1] by {
        assert s[..columns - 1] == s[..columns][..columns - 1];
        assert t[..columns - 1] == t[..columns][..columns - 1];
        assert s[..columns][columns - 1] == t[..columns][columns - 1];
      }
      ExpandLocal(s, t, columns - 1, d);
    }
  }

  /** With degree 1 the first `columns` columns come back unchanged. */
  lemma {:induction false} DegreeOnePrefix(sample: seq<real>, columns: nat)
    requires columns <= |sample|
    ensures Expand(sample, columns, 1) == sample[..columns]
  {
    if columns > 0 {
      DegreeOnePrefix(sample, columns - 1);
      var x := sample[columns - 1];
      assert Power(x, 1) == Power(x, 0) * x == x;
      assert Powers(x, 1) == Powers(x, 0) + [Power(x, 1)] == [x];
      assert sample[..columns] == sample[..columns - 1] + [sample[columns - 1]];
    }
  }

  /** With degree 1 the expander gives the sample back unchanged. */
  lemma DegreeOneIdentity(sample: seq<real>)
    ensures Expand(sample, |sample|, 1) == sample
  {
    DegreeOnePrefix(sample, |sample|);
    assert sample[..|sample|] == sample;
  }

  /** The worked example: degree 2 turns [2, 3] into [2, 4, 3, 9]. */
  lemma DegreeTwoExample()
    ensures Expand([2.0, 3.0], 2, 2) == [2.0, 4.0, 3.0, 9.0]
  {
    assert Powers(2.0, 2) == [2.0, 4.0];
    assert Powers(3.0, 2) == [3.0, 9.0];
  }

  class PolynomialExpander {
    const degree: Degree

    constructor (degree: Degree)
      ensures this.degree == degree
    {
      this.degree := degree;
    }

    /** The public constructor: rejects a degree below 1. */
    static method Create(degree: int) returns (r: Result<PolynomialExpander>)
      ensures r.Err? <==> degree < 1
      ensures r.Err? ==> r.error == InvalidArgument
      ensures r.Ok? ==> fresh(r.value) && r.value.degree == degree
    {
      if degree < 1 {
        return Err(InvalidArgument);
      }
      var expander := new PolynomialExpander(degree);
      return Ok(expander);
    }

    /**
     * The loop body of `transform` for one sample: the first `columns`
     * columns, each followed by its higher powers.
     */
    method ExpandSample(sample: seq<real>, columns: nat) returns (vector: seq<real>)
      requires columns <= |sample|
      ensures vector == Expand(sample, columns, degree)
    {
      vector := [];
      for i := 0 to columns
        invariant vector == Expand(sample, i, degree)
      {
        for j := 1 to degree + 1
          invariant vector == Expand(sample, i, degree) + Powers(sample[i], j - 1)
        {
          vector := vector + [Power(sample[i], j)];
        }
      }
    }

    /**
     * Replaces every sample of the batch in place by its expansion; the
     * column count is that of the first sample.
     */
    method Transform(samples: array<seq<real>>)
      requires forall k :: 0 <= k < samples.Length ==> |samples[0]| <= |samples[k]|
      modifies samples
      ensures samples.Length > 0 ==>
                forall k :: 0 <= k < samples.Length ==>
                  samples[k] == Expand(old(samples[k]), |old(samples[0])|, degree)
    {
      if samples.Length == 0 {
        return;
      }
      var columns := |samples[0]|;
      for k := 0 to samples.Length
        invariant columns == |old(samples[0])|
        invariant forall i :: 0 <= i < k ==> samples[i] == Expand(old(samples[i]), columns, degree)
        invariant forall i :: k <= i < samples.Length ==> samples[i] == old(samples[i])
      {
        samples[k] := ExpandSample(samples[k], columns);
      }
    }
  }
}
