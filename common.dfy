/**
 * Types shared by the three transformers: the value carried in a sample
 * column, the column type tags a dataset declares, the two error kinds the
 * transformers raise, and the column filter that PHP's `unset` /
 * `array_intersect_key` followed by re-indexing amount to.
 */
module Common {

  /** The fitted state of a stateful transformer: `None` means "not fitted". */
  datatype Option<T> = None | Some(value: T)

  /** The two exceptions the transformers throw. */
  datatype Error =
    | InvalidArgument  // a constructor parameter outside its domain
    | NotFitted        // `transform` called before `fit`

  /** Construction either yields a transformer or fails. */
  datatype Result<T> = Ok(value: T) | Err(error: Error)

  /** A `transform` call either rewrites the batch or fails without touching it. */
  datatype Outcome = Pass | Fail(error: Error)

  /** A scalar in one column of a sample: a number or a category label. */
  datatype Value = Num(n: real) | Cat(name: string)

  /** The type tag a dataset declares for each of its columns. */
  datatype ColType = Categorical | Continuous

  /** Every sample of the batch has at least the columns 0 .. n-1. */
  predicate HasColumns(samples: seq<seq<Value>>, n: nat)
  {
    forall k :: 0 <= k < |samples| ==> n <= |samples[k]|
  }

  /**
   * The training set `fit` reads: its samples, in order, and the type tag of
   * each column 0 .. |types|-1. Every sample has a value for every column.
   */
  datatype Dataset = Dataset(samples: seq<seq<Value>>, types: seq<ColType>) {
    predicate Valid() { HasColumns(samples, |types|) }
  }

  /** The values of column `c`, one per sample, in sample order. */
  function ColumnValues(samples: seq<seq<Value>>, c: nat): (col: seq<Value>)
    requires HasColumns(samples, c + 1)
    ensures |col| == |samples|
    ensures forall k :: 0 <= k < |samples| ==> col[k] == samples[k][c]
  {
    seq(|samples|, k requires 0 <= k < |samples| => samples[k][c])
  }

  /**
   * The values of `s` at the columns in `keep`, in their original order,
   * renumbered from 0: what keeping some keys of a PHP list and then
   * re-indexing it (`array_values`, `array_merge`) leaves.
   */
  function KeepColumns<T>(s: seq<T>, keep: set<nat>): seq<T>
  {
    if |s| == 0 then []
    else
      var r := KeepColumns(s[..|s| - 1], keep);
      if |s| - 1 in keep then r + [s[|s| - 1]] else r
  }

  /** The column numbers below `n` that are in `keep`, in ascending order. */
  function KeptIndices(n: nat, keep: set<nat>): seq<nat>
  {
    if n == 0 then []
    else
      var r := KeptIndices(n - 1, keep);
      if n - 1 in keep then r + [n - 1] else r
  }

  /** The columns of a sample of width `n` that a filter by `keep` retains. */
  function Retained(n: nat, keep: set<nat>): set<nat>
  {
    set j: nat | j < n && j in keep
  }

  /**
   * KeptIndices lists exactly the kept columns below `n`, strictly
   * ascending, one entry per retained column.
   */
  lemma {:induction false} KeptIndicesSpec(n: nat, keep: set<nat>)
    ensures forall j :: j in KeptIndices(n, keep) <==> j < n && j in keep
    ensures forall a, b :: 0 <= a < b < |KeptIndices(n, keep)| ==>
              KeptIndices(n, keep)[a] < KeptIndices(n, keep)[b]
    ensures |KeptIndices(n, keep)| == |Retained(n, keep)|
  {
    if n > 0 {
      KeptIndicesSpec(n - 1, keep);
      var prev := Retained(n - 1, keep);
      if n - 1 in keep {
        var r := KeptIndices(n - 1, keep);
        assert forall a :: 0 <= a < |r| ==> r[a] in r;
        assert Retained(n, keep) == prev + {n - 1};
        assert n - 1 !in prev;
      } else {
        assert Retained(n, keep) == prev;
      }
    } else {
      assert Retained(n, keep) == {};
    }
  }

  /**
   * The filtered sample holds, at its position i, the value of the i-th
   * retained column: nothing else, nothing reordered.
   */
  lemma {:induction false} KeepColumnsAt<T>(s: seq<T>, keep: set<nat>)
    ensures |KeepColumns(s, keep)| == |KeptIndices(|s|, keep)|
    ensures forall i :: 0 <= i < |KeepColumns(s, keep)| ==>
              KeptIndices(|s|, keep)[i] < |s| &&
              KeepColumns(s, keep)[i] == s[KeptIndices(|s|, keep)[i]]
  {
    if |s| > 0 {
      var s' := s[..|s| - 1];
      KeepColumnsAt(s', keep);
      KeptIndicesSpec(|s'|, keep);
      forall i | 0 <= i < |KeptIndices(|s'|, keep)|
        ensures KeptIndices(|s'|, keep)[i] < |s'|
      {
        assert KeptIndices(|s'|, keep)[i] in KeptIndices(|s'|, keep);
      }
    }
  }

  /**
   * The filtered sample is as long as the number of kept columns the
   * sample actually has.
   */
  lemma KeepColumnsLength<T>(s: seq<T>, keep: set<nat>)
    ensures |KeepColumns(s, keep)| == |Retained(|s|, keep)|
  {
    KeepColumnsAt(s, keep);
    KeptIndicesSpec(|s|, keep);
  }

  /** The columns 0 .. n-1 of a sample of width n. */
  function Below(n: nat): (cols: set<nat>)
    ensures forall j: nat :: j in cols <==> j < n
  {
    if n == 0 then {} else Below(n - 1) + {n - 1}
  }

  /** The set {0, ..., n-1} has n elements. */
  lemma {:induction false} BelowSize(n: nat)
    ensures |Below(n)| == n
  {
    if n > 0 {
      var prev := Below(n - 1);
      BelowSize(n - 1);
      assert n - 1 !in prev;
      assert Below(n) == prev + {n - 1};
    } else {
      assert Below(n) == {};
    }
  }

  /** Removing `drop`, a set of existing columns, shortens the sample by exactly |drop|. */
  lemma DropColumnsLength<T>(s: seq<T>, drop: set<nat>)
    requires forall c :: c in drop ==> c < |s|
    ensures |KeepColumns(s, Below(|s|) - drop)| == |s| - |drop|
  {
    var all := Below(|s|);
    KeepColumnsLength(s, all - drop);
    BelowSize(|s|);
    assert Retained(|s|, all - drop) == all - drop;
    SubsetDifferenceSize(all, drop);
  }

  lemma SubsetDifferenceSize(a: set<nat>, b: set<nat>)
    requires b <= a
    ensures |a - b| == |a| - |b|
  {
    assert a == (a - b) + b;
  }
}
