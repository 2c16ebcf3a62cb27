/**
 * One Hot Encoder (src/Transformers/OneHotEncoder.php).
 *
 * `Fit` learns, for every categorical column, the categories it holds in
 * first-seen order and gives each one a position from a single counter
 * shared by all columns. `Transform` replaces each categorical column of a
 * sample by an indicator block as wide as the column's category count and
 * appends the blocks, in fitted column order, after the surviving columns.
 */
module OneHotEncoding {
  import opened Common

  /**
   * What `fit` learns for one categorical column: the PHP dictionary
   * `$categories`, an insertion-ordered map from category to position,
   * given as its keys in insertion order and the map itself.
   */
  datatype ColumnCategories = ColumnCategories(column: nat, keys: seq<Value>, positions: map<Value, nat>)

  /** The value at the hot position of an indicator block, and everywhere else. */
  const One: Value := Num(1.0)
  const Zero: Value := Num(0.0)

  predicate Distinct<T(==)>(s: seq<T>)
  {
    forall i, j :: 0 <= i < j < |s| ==> s[i] != s[j]
  }

  /** The dictionary of one column is consistent: keys listed once, positions told apart. */
  predicate EntryValid(e: ColumnCategories)
  {
    && Distinct(e.keys)
    && (forall v :: v in e.positions ==> v in e.keys)
    && (forall i :: 0 <= i < |e.keys| ==> e.keys[i] in e.positions)
    && (forall i, j :: 0 <= i < j < |e.keys| ==> e.positions[e.keys[i]] != e.positions[e.keys[j]])
  }

  predicate WellFormed(entries: seq<ColumnCategories>)
  {
    forall idx :: 0 <= idx < |entries| ==> EntryValid(entries[idx])
  }

  /** A sample has every column that the fitted state names. */
  predicate Fits(entries: seq<ColumnCategories>, sample: seq<Value>)
  {
    forall idx :: 0 <= idx < |entries| ==> entries[idx].column < |sample|
  }

  predicate DistinctColumns(entries: seq<ColumnCategories>)
  {
    forall a, b :: 0 <= a < b < |entries| ==> entries[a].column != entries[b].column
  }

  // ---------------------------------------------------------------------
  // The reference definition of `fit`
  // ---------------------------------------------------------------------

  /** The distinct values of `s` in the order in which they are first seen. */
  function Dedup(s: seq<Value>): seq<Value>
  {
    if |s| == 0 then []
    else
      var d := Dedup(s[..|s| - 1]);
      if s[|s| - 1] in d then d else d + [s[|s| - 1]]
  }

  /** The dictionary that hands `keys[i]` the position `base + i`. */
  function PosMap(keys: seq<Value>, base: nat): map<Value, nat>
  {
    if |keys| == 0 then map[]
    else PosMap(keys[..|keys| - 1], base)[keys[|keys| - 1] := base + |keys| - 1]
  }

  /** The fitted dictionary of column `c` when the shared counter stands at `base`. */
  function Entry(samples: seq<seq<Value>>, c: nat, base: nat): ColumnCategories
    requires HasColumns(samples, c + 1)
  {
    var keys := Dedup(ColumnValues(samples, c));
    ColumnCategories(c, keys, PosMap(keys, base))
  }

  /** The number of positions the dictionaries hand out altogether. */
  function Width(entries: seq<ColumnCategories>): nat
  {
    if |entries| == 0 then 0
    else Width(entries[..|entries| - 1]) + |entries[|entries| - 1].keys|
  }

  /** The fitted state for columns typed `types`, walked in column order. */
  function Fitted(samples: seq<seq<Value>>, types: seq<ColType>): seq<ColumnCategories>
    requires HasColumns(samples, |types|)
  {
    if |types| == 0 then []
    else
      var prev := Fitted(samples, types[..|types| - 1]);
      if types[|types| - 1] == Categorical then prev + [Entry(samples, |types| - 1, Width(prev))]
      else prev
  }

  /** The categorical column numbers, in column order. */
  function CategoricalColumns(types: seq<ColType>): seq<nat>
  {
    if |types| == 0 then []
    else
      var prev := CategoricalColumns(types[..|types| - 1]);
      if types[|types| - 1] == Categorical then prev + [|types| - 1] else prev
  }

  function Columns(entries: seq<ColumnCategories>): seq<nat>
  {
    seq(|entries|, a requires 0 <= a < |entries| => entries[a].column)
  }

  /** The positions of all dictionaries, column after column, key after key. */
  function AllPositions(entries: seq<ColumnCategories>): seq<nat>
    requires WellFormed(entries)
  {
    if |entries| == 0 then []
    else
      var e := entries[|entries| - 1];
      AllPositions(entries[..|entries| - 1]) +
      seq(|e.keys|, i requires 0 <= i < |e.keys| => e.positions[e.keys[i]])
  }

  // ---------------------------------------------------------------------
  // The reference definition of `transform`
  // ---------------------------------------------------------------------

  /**
   * The indicator block of one column. PHP keys the zero-filled block by the
   * column's positions and sets the key `positions[category]` to 1 when the
   * category was seen; re-indexing then lists the slots in key order. The
   * test `e.keys[i] in e.positions` only makes the lookup total: it always
   * holds for a consistent dictionary (EntryValid).
   */
  function Block(e: ColumnCategories, category: Value): seq<Value>
  {
    seq(|e.keys|, i requires 0 <= i < |e.keys| =>
      if category in e.positions && e.keys[i] in e.positions && e.positions[e.keys[i]] == e.positions[category]
      then One else Zero)
  }

  /** The blocks of all fitted columns of `sample`, concatenated in fitted order. */
  function Blocks(entries: seq<ColumnCategories>, sample: seq<Value>): (blocks: seq<Value>)
    requires Fits(entries, sample)
    ensures |blocks| == Width(entries)
  {
    if |entries| == 0 then []
    else
      var e := entries[|entries| - 1];
      Blocks(entries[..|entries| - 1], sample) + Block(e, sample[e.column])
  }

  /** The columns the fitted state removes from a sample. */
  function ColumnSet(entries: seq<ColumnCategories>): (cols: set<nat>)
    ensures forall c :: c in cols <==> exists a :: 0 <= a < |entries| && entries[a].column == c
  {
    if |entries| == 0 then {}
    else
      var prev := ColumnSet(entries[..|entries| - 1]);
      assert forall a :: 0 <= a < |entries| - 1 ==> entries[..|entries| - 1][a] == entries[a];
      prev + {entries[|entries| - 1].column}
  }

  /** The columns of `sample` that `transform` leaves in place. */
  function Passthrough(entries: seq<ColumnCategories>, sample: seq<Value>): set<nat>
  {
    Below(|sample|) - ColumnSet(entries)
  }

  /** A sample after `transform`: its other columns in order, then the blocks. */
  function Encode(entries: seq<ColumnCategories>, sample: seq<Value>): seq<Value>
    requires Fits(entries, sample)
  {
    KeepColumns(sample, Passthrough(entries, sample)) + Blocks(entries, sample)
  }

  // ---------------------------------------------------------------------
  // Properties of the reference definitions
  // ---------------------------------------------------------------------

  /** Dedup lists every value of `s` exactly once. */
  lemma {:induction false} DedupSpec(s: seq<Value>)
    ensures Distinct(Dedup(s))
    ensures forall v :: v in Dedup(s) <==> v in s
  {
    if |s| > 0 {
      DedupSpec(s[..|s| - 1]);
      assert s == s[..|s| - 1] + [s[|s| - 1]];
    }
  }

  /** Reading more samples only appends to what Dedup has already listed. */
  lemma {:induction false} DedupPrefix(s: seq<Value>, m: nat)
    requires m <= |s|
    ensures Dedup(s[..m]) <= Dedup(s)
  {
    if m < |s| {
      DedupPrefix(s[..|s| - 1], m);
      assert s[..|s| - 1][..m] == s[..m];
    } else {
      assert s[..m] == s;
    }
  }

  /**
   * First-seen order: of two listed categories, the earlier one has always
   * already been seen by the time the later one is.
   */
  lemma DedupFirstSeen(s: seq<Value>)
    ensures forall i, j, m :: 0 <= i < j < |Dedup(s)| && 0 <= m <= |s| && Dedup(s)[j] in s[..m] ==>
              Dedup(s)[i] in s[..m]
  {
    var d := Dedup(s);
    DedupSpec(s);
    forall i, j, m | 0 <= i < j < |d| && 0 <= m <= |s| && d[j] in s[..m]
      ensures d[i] in s[..m]
    {
      var p := Dedup(s[..m]);
      DedupPrefix(s, m);
      DedupSpec(s[..m]);
      var j' :| 0 <= j' < |p| && p[j'] == d[j];
      assert d[j'] == d[j];
      assert j' == j;
      assert p[i] == d[i];
    }
  }

  /** A value has a position exactly when it is one of the keys. */
  lemma {:induction false} PosMapDomain(keys: seq<Value>, base: nat, v: Value)
    ensures v in PosMap(keys, base) <==> v in keys
  {
    if |keys| > 0 {
      PosMapDomain(keys[..|keys| - 1], base, v);
      assert keys == keys[..|keys| - 1] + [keys[|keys| - 1]];
    }
  }

  /** PosMap hands `keys[i]` the position `base + i`. */
  lemma {:induction false} PosMapSpec(keys: seq<Value>, base: nat)
    requires Distinct(keys)
    ensures forall i :: 0 <= i < |keys| ==> keys[i] in PosMap(keys, base) && PosMap(keys, base)[keys[i]] == base + i
  {
    if |keys| > 0 {
      var prev := keys[..|keys| - 1];
      PosMapSpec(prev, base);
      assert keys == prev + [keys[|keys| - 1]];
      assert keys[|keys| - 1] !in prev;
    }
  }

  /** The categorical columns are listed once each, ascending. */
  lemma {:induction false} CategoricalColumnsSpec(types: seq<ColType>)
    ensures forall c :: c in CategoricalColumns(types) <==> 0 <= c < |types| && types[c] == Categorical
    ensures forall a, b :: 0 <= a < b < |CategoricalColumns(types)| ==>
              CategoricalColumns(types)[a] < CategoricalColumns(types)[b]
  {
    if |types| > 0 {
      var prev := types[..|types| - 1];
      CategoricalColumnsSpec(prev);
      var cs := CategoricalColumns(prev);
      assert forall a :: 0 <= a < |cs| ==> cs[a] in cs;
    }
  }

  lemma {:induction false} WidthPrefix(entries: seq<ColumnCategories>, idx: nat)
    requires idx < |entries|
    ensures Width(entries[..idx + 1]) == Width(entries[..idx]) + |entries[idx].keys|
    ensures Width(entries[..idx]) + |entries[idx].keys| <= Width(entries)
  {
    assert entries[..idx + 1][..idx] == entries[..idx];
    if idx < |entries| - 1 {
      var prev := entries[..|entries| - 1];
      WidthPrefix(prev, idx);
      assert prev[..idx] == entries[..idx] && prev[..idx + 1] == entries[..idx + 1];
    } else {
      assert entries[..idx + 1] == entries;
    }
  }

  /**
   * The dictionary of column c holds the column's categories in first-seen
   * order, is consistent, and hands its i-th category the position base + i.
   */
  lemma EntrySpec(samples: seq<seq<Value>>, c: nat, base: nat)
    requires HasColumns(samples, c + 1)
    ensures var e := Entry(samples, c, base);
      && e.column == c
      && e.keys == Dedup(ColumnValues(samples, c))
      && EntryValid(e)
      && (forall i :: 0 <= i < |e.keys| ==> e.positions[e.keys[i]] == base + i)
  {
    var keys := Dedup(ColumnValues(samples, c));
    DedupSpec(ColumnValues(samples, c));
    PosMapSpec(keys, base);
    forall v | v in PosMap(keys, base) ensures v in keys {
      PosMapDomain(keys, base, v);
    }
  }

  /**
   * The idx-th fitted dictionary is that of a declared column, built when the
   * shared counter stood at the width of the dictionaries before it.
   */
  lemma {:induction false} FittedEntryAt(samples: seq<seq<Value>>, types: seq<ColType>, idx: nat)
    requires HasColumns(samples, |types|) && idx < |Fitted(samples, types)|
    ensures var F := Fitted(samples, types);
      && F[idx].column < |types|
      && HasColumns(samples, F[idx].column + 1)
      && F[idx] == Entry(samples, F[idx].column, Width(F[..idx]))
  {
    var n := |types|;
    var prev := Fitted(samples, types[..n - 1]);
    var F := Fitted(samples, types);
    if types[n - 1] == Categorical {
      assert F == prev + [Entry(samples, n - 1, Width(prev))];
      if idx < |prev| {
        FittedEntryAt(samples, types[..n - 1], idx);
        assert F[..idx] == prev[..idx];
      } else {
        assert F[..idx] == prev;
      }
    } else {
      FittedEntryAt(samples, types[..n - 1], idx);
    }
  }

  /** The idx-th fitted dictionary is consistent, and its positions start at the width of those before it. */
  lemma FittedEntryPositions(samples: seq<seq<Value>>, types: seq<ColType>, idx: nat)
    requires HasColumns(samples, |types|) && idx < |Fitted(samples, types)|
    ensures var F := Fitted(samples, types);
      && EntryValid(F[idx])
      && forall i :: 0 <= i < |F[idx].keys| ==> F[idx].positions[F[idx].keys[i]] == Width(F[..idx]) + i
  {
    var F := Fitted(samples, types);
    FittedEntryAt(samples, types, idx);
    EntrySpec(samples, F[idx].column, Width(F[..idx]));
  }

  /** Every fitted dictionary is consistent and names a declared column. */
  lemma FittedValid(samples: seq<seq<Value>>, types: seq<ColType>)
    requires HasColumns(samples, |types|)
    ensures WellFormed(Fitted(samples, types))
    ensures forall idx :: 0 <= idx < |Fitted(samples, types)| ==> Fitted(samples, types)[idx].column < |types|
  {
    var F := Fitted(samples, types);
    forall idx | 0 <= idx < |F| ensures EntryValid(F[idx]) && F[idx].column < |types| {
      FittedEntryAt(samples, types, idx);
      EntrySpec(samples, F[idx].column, Width(F[..idx]));
    }
  }

  /** The fitted dictionaries belong to the categorical columns, in column order. */
  lemma {:induction false} FittedColumns(samples: seq<seq<Value>>, types: seq<ColType>)
    requires HasColumns(samples, |types|)
    ensures Columns(Fitted(samples, types)) == CategoricalColumns(types)
  {
    if |types| > 0 {
      var n := |types|;
      var prev := Fitted(samples, types[..n - 1]);
      FittedColumns(samples, types[..n - 1]);
      if types[n - 1] == Categorical {
        var F := Fitted(samples, types);
        assert F == prev + [Entry(samples, n - 1, Width(prev))];
        assert Columns(F) == Columns(prev) + [n - 1];
      }
    }
  }

  /**
   * The shape of the fitted state: one dictionary per categorical column, in
   * column order; each lists its column's categories in first-seen order; its
   * positions continue the shared counter where the previous column left it.
   */
  lemma FittedShape(samples: seq<seq<Value>>, types: seq<ColType>)
    requires HasColumns(samples, |types|)
    ensures Columns(Fitted(samples, types)) == CategoricalColumns(types)
    ensures WellFormed(Fitted(samples, types))
    ensures forall idx :: 0 <= idx < |Fitted(samples, types)| ==>
              var e := Fitted(samples, types)[idx];
              e.column < |types| && e.keys == Dedup(ColumnValues(samples, e.column))
    ensures forall idx, i :: 0 <= idx < |Fitted(samples, types)| && 0 <= i < |Fitted(samples, types)[idx].keys| ==>
              var e := Fitted(samples, types)[idx];
              e.positions[e.keys[i]] == Width(Fitted(samples, types)[..idx]) + i
  {
    var F := Fitted(samples, types);
    FittedColumns(samples, types);
    FittedValid(samples, types);
    forall idx | 0 <= idx < |F|
      ensures && F[idx].column < |types| && F[idx].keys == Dedup(ColumnValues(samples, F[idx].column))
              && (forall i :: 0 <= i < |F[idx].keys| ==> F[idx].positions[F[idx].keys[i]] == Width(F[..idx]) + i)
    {
      FittedEntryAt(samples, types, idx);
      EntrySpec(samples, F[idx].column, Width(F[..idx]));
    }
  }

  lemma WellFormedAppend(prev: seq<ColumnCategories>, e: ColumnCategories)
    requires WellFormed(prev) && EntryValid(e)
    ensures WellFormed(prev + [e])
  {
    forall idx | 0 <= idx < |prev| + 1 ensures EntryValid((prev + [e])[idx]) {
      if idx < |prev| {
        assert (prev + [e])[idx] == prev[idx];
      }
    }
  }

  /** Appending a dictionary whose positions continue the counter keeps the positions 0 .. K-1. */
  lemma PositionsAppend(prev: seq<ColumnCategories>, e: ColumnCategories)
    requires WellFormed(prev) && EntryValid(e)
    requires AllPositions(prev) == seq(Width(prev), p => p)
    requires forall i :: 0 <= i < |e.keys| ==> e.positions[e.keys[i]] == Width(prev) + i
    ensures WellFormed(prev + [e])
    ensures AllPositions(prev + [e]) == seq(Width(prev + [e]), p => p)
  {
    var F := prev + [e];
    assert F[..|F| - 1] == prev;
    WellFormedAppend(prev, e);
    var block := seq(|e.keys|, i requires 0 <= i < |e.keys| => e.positions[e.keys[i]]);
    var all := AllPositions(prev) + block;
    assert AllPositions(F) == all;
    assert Width(F) == Width(prev) + |e.keys|;
    assert all == seq(Width(F), p => p) by {
      forall p | 0 <= p < Width(F) ensures all[p] == p {
        if p >= Width(prev) {
          assert all[p] == block[p - Width(prev)];
        }
      }
    }
  }

  /**
   * The positions handed out are exactly 0, 1, ..., K-1, each once, where K
   * is the number of distinct categories over all categorical columns.
   */
  lemma {:induction false} FittedPositions(samples: seq<seq<Value>>, types: seq<ColType>)
    requires HasColumns(samples, |types|)
    ensures WellFormed(Fitted(samples, types))
    ensures AllPositions(Fitted(samples, types)) == seq(Width(Fitted(samples, types)), p => p)
  {
    if |types| == 0 {
      assert Fitted(samples, types) == [];
    } else {
      var n := |types|;
      var prev := Fitted(samples, types[..n - 1]);
      FittedPositions(samples, types[..n - 1]);
      if types[n - 1] == Categorical {
        var e := Entry(samples, n - 1, Width(prev));
        assert Fitted(samples, types) == prev + [e];
        EntrySpec(samples, n - 1, Width(prev));
        PositionsAppend(prev, e);
      } else {
        assert Fitted(samples, types) == prev;
      }
    }
  }

  /** No two fitted dictionaries belong to the same column. */
  lemma FittedDistinct(samples: seq<seq<Value>>, types: seq<ColType>)
    requires HasColumns(samples, |types|)
    ensures DistinctColumns(Fitted(samples, types))
  {
    FittedColumns(samples, types);
    CategoricalColumnsSpec(types);
    var F := Fitted(samples, types);
    forall a, b | 0 <= a < b < |F| ensures F[a].column != F[b].column {
      assert Columns(F)[a] == F[a].column && Columns(F)[b] == F[b].column;
    }
  }

  /** There is one dictionary per categorical column, the columns differ, and K positions are handed out. */
  lemma FittedWidth(samples: seq<seq<Value>>, types: seq<ColType>)
    requires HasColumns(samples, |types|)
    ensures |Fitted(samples, types)| == |CategoricalColumns(types)|
    ensures DistinctColumns(Fitted(samples, types))
    ensures WellFormed(Fitted(samples, types))
    ensures |AllPositions(Fitted(samples, types))| == Width(Fitted(samples, types))
  {
    FittedColumns(samples, types);
    FittedDistinct(samples, types);
    FittedPositions(samples, types);
    assert |Columns(Fitted(samples, types))| == |Fitted(samples, types)|;
  }

  /**
   * An indicator block has one slot per fitted category of its column; the
   * slot of category `keys[i]` is 1 exactly when the sample holds that
   * category, and 0 otherwise, so an unseen value gives all zeros and no
   * block holds two ones.
   */
  lemma BlockIndicator(e: ColumnCategories, category: Value)
    requires EntryValid(e)
    ensures |Block(e, category)| == |e.keys|
    ensures forall i :: 0 <= i < |e.keys| ==>
              (Block(e, category)[i] == One <==> category == e.keys[i]) &&
              (Block(e, category)[i] == One || Block(e, category)[i] == Zero)
    ensures category !in e.keys ==> Block(e, category) == seq(|e.keys|, _ => Zero)
    ensures forall i, j ::
              (0 <= i < |e.keys| && 0 <= j < |e.keys| &&
               Block(e, category)[i] == One && Block(e, category)[j] == One) ==> i == j
  {
    var b := Block(e, category);
    forall i | 0 <= i < |e.keys| ensures b[i] == One <==> category == e.keys[i] {
      BlockSlot(e, category, i);
    }
  }

  /** Slot i of a block is 1 exactly when the category is the column's i-th. */
  lemma BlockSlot(e: ColumnCategories, category: Value, i: nat)
    requires EntryValid(e) && i < |e.keys|
    ensures Block(e, category)[i] == One <==> category == e.keys[i]
  {
    if category in e.positions && e.positions[e.keys[i]] == e.positions[category] {
      var i' :| 0 <= i' < |e.keys| && e.keys[i'] == category;
    }
  }

  /** The blocks are laid out one after another: column idx's block starts at Width(entries[..idx]). */
  lemma {:induction false} BlocksAt(entries: seq<ColumnCategories>, sample: seq<Value>, idx: nat, i: nat)
    requires Fits(entries, sample)
    requires idx < |entries| && i < |entries[idx].keys|
    ensures Width(entries[..idx]) + i < Width(entries)
    ensures Blocks(entries, sample)[Width(entries[..idx]) + i] == Block(entries[idx], sample[entries[idx].column])[i]
  {
    var n := |entries|;
    var prev := entries[..n - 1];
    WidthPrefix(entries, idx);
    if idx < n - 1 {
      assert prev[..idx] == entries[..idx];
      assert prev[idx] == entries[idx];
      BlocksAt(prev, sample, idx, i);
    } else {
      assert prev == entries[..idx];
    }
  }

  lemma {:induction false} ColumnSetSize(entries: seq<ColumnCategories>)
    requires DistinctColumns(entries)
    ensures |ColumnSet(entries)| == |entries|
  {
    if |entries| > 0 {
      var prev := entries[..|entries| - 1];
      ColumnSetSize(prev);
      assert entries[|entries| - 1].column !in ColumnSet(prev);
    }
  }

  /** The filtered part of an encoded sample is |sample| - |entries| long. */
  lemma PassthroughLength(entries: seq<ColumnCategories>, sample: seq<Value>)
    requires Fits(entries, sample) && DistinctColumns(entries)
    ensures |KeepColumns(sample, Passthrough(entries, sample))| == |sample| - |entries|
    ensures |KeptIndices(|sample|, Passthrough(entries, sample))| == |sample| - |entries|
    ensures |entries| <= |sample|
  {
    ColumnSetSize(entries);
    DropColumnsLength(sample, ColumnSet(entries));
    KeepColumnsAt(sample, Passthrough(entries, sample));
  }

  /**
   * A transformed sample starts with the values of its non-categorical
   * columns, in their original order: its i-th value is that of the i-th
   * column, in ascending order, that no fitted dictionary names. Its width
   * is (n - #categorical columns) + K.
   */
  lemma EncodePassthrough(entries: seq<ColumnCategories>, sample: seq<Value>)
    requires Fits(entries, sample) && DistinctColumns(entries)
    ensures |entries| <= |sample|
    ensures |Encode(entries, sample)| == |sample| - |entries| + Width(entries)
    ensures forall a, b :: 0 <= a < b < |KeptIndices(|sample|, Passthrough(entries, sample))| ==>
              KeptIndices(|sample|, Passthrough(entries, sample))[a] < KeptIndices(|sample|, Passthrough(entries, sample))[b]
    ensures forall c :: 0 <= c < |sample| && c !in ColumnSet(entries) ==>
              c in KeptIndices(|sample|, Passthrough(entries, sample))
    ensures |KeptIndices(|sample|, Passthrough(entries, sample))| == |sample| - |entries|
    ensures forall i :: 0 <= i < |sample| - |entries| ==>
              var c := KeptIndices(|sample|, Passthrough(entries, sample))[i];
              c < |sample| && c !in ColumnSet(entries) && Encode(entries, sample)[i] == sample[c]
  {
    var keep := Passthrough(entries, sample);
    var kept := KeepColumns(sample, keep);
    var ks := KeptIndices(|sample|, keep);
    PassthroughLength(entries, sample);
    KeepColumnsAt(sample, keep);
    KeptIndicesSpec(|sample|, keep);
    forall i | 0 <= i < |kept|
      ensures ks[i] < |sample| && ks[i] !in ColumnSet(entries) && Encode(entries, sample)[i] == sample[ks[i]]
    {
      assert ks[i] in ks;
      assert Encode(entries, sample)[i] == kept[i];
    }
  }

  /**
   * After the passthrough values come the blocks, in fitted column order:
   * slot i of column idx's block sits at (n - #categorical) + Width(entries[..idx]) + i.
   */
  lemma EncodeBlocks(entries: seq<ColumnCategories>, sample: seq<Value>, idx: nat, i: nat)
    requires Fits(entries, sample) && DistinctColumns(entries)
    requires idx < |entries| && i < |entries[idx].keys|
    ensures |entries| <= |sample|
    ensures |Encode(entries, sample)| == |sample| - |entries| + Width(entries)
    ensures |sample| - |entries| + Width(entries[..idx]) + i < |Encode(entries, sample)|
    ensures Encode(entries, sample)[|sample| - |entries| + Width(entries[..idx]) + i] ==
            Block(entries[idx], sample[entries[idx].column])[i]
  {
    var kept := KeepColumns(sample, Passthrough(entries, sample));
    var blocks := Blocks(entries, sample);
    PassthroughLength(entries, sample);
    BlocksAt(entries, sample, idx, i);
    assert Encode(entries, sample) == kept + blocks;
    var p := Width(entries[..idx]) + i;
    assert (kept + blocks)[|kept| + p] == blocks[p];
  }

  /**
   * When column idx's dictionary hands its i-th category the position
   * Width(entries[..idx]) + i, the slot of a category's position, after the
   * passthrough values, is 1 exactly when the sample holds that category.
   */
  lemma EncodeSlot(entries: seq<ColumnCategories>, sample: seq<Value>, idx: nat, v: Value)
    requires Fits(entries, sample) && DistinctColumns(entries)
    requires idx < |entries| && EntryValid(entries[idx]) && v in entries[idx].keys
    requires forall i :: 0 <= i < |entries[idx].keys| ==>
               entries[idx].positions[entries[idx].keys[i]] == Width(entries[..idx]) + i
    ensures var out := Encode(entries, sample);
      var slot := |sample| - |entries| + entries[idx].positions[v];
      0 <= slot < |out| && (out[slot] == One <==> sample[entries[idx].column] == v)
  {
    var e := entries[idx];
    var i :| 0 <= i < |e.keys| && e.keys[i] == v;
    assert e.positions[v] == Width(entries[..idx]) + i;
    EncodeBlocks(entries, sample, idx, i);
    BlockSlot(e, sample[e.column], i);
  }

  /**
   * The position `fit` hands a category is its slot in the indicator region
   * of every transformed sample: that slot is 1 exactly when the sample
   * holds the category in that column.
   */
  lemma OneHotAt(samples: seq<seq<Value>>, types: seq<ColType>, sample: seq<Value>, idx: nat, v: Value)
    requires HasColumns(samples, |types|) && |types| <= |sample|
    requires idx < |Fitted(samples, types)| && v in Fitted(samples, types)[idx].keys
    ensures WellFormed(Fitted(samples, types)) && Fits(Fitted(samples, types), sample)
    ensures var F := Fitted(samples, types); var out := Encode(F, sample);
      var slot := |sample| - |F| + F[idx].positions[v];
      0 <= slot < |out| && (out[slot] == One <==> sample[F[idx].column] == v)
  {
    FittedValid(samples, types);
    FittedDistinct(samples, types);
    FittedEntryPositions(samples, types, idx);
    EncodeSlot(Fitted(samples, types), sample, idx, v);
  }


  /**
   * The inner loop of `fit`: scans column `c` of every sample and gives
   * each category not seen before the next value of the shared counter.
   */
  method CollectCategories(samples: seq<seq<Value>>, c: nat, position: nat) returns (entry: ColumnCategories, next: nat)
    requires HasColumns(samples, c + 1)
    ensures entry == Entry(samples, c, position)
    ensures next == position + |entry.keys|
  {
    ghost var values := ColumnValues(samples, c);
    var keys: seq<Value> := [];
    var positions: map<Value, nat> := map[];
    next := position;
    for k := 0 to |samples|
      invariant keys == Dedup(values[..k])
      invariant positions == PosMap(keys, position)
      invariant next == position + |keys|
    {
      var category := samples[k][c];
      PosMapDomain(keys, position, category);
      assert values[..k + 1][..k] == values[..k];
      if category !in positions {
        positions := positions[category := next];
        next := next + 1;
        assert (keys + [category])[..|keys|] == keys;
        keys := keys + [category];
      }
    }
    assert values[..|samples|] == values;
    entry := ColumnCategories(c, keys, positions);
  }

  /**
   * The indicator block of one column: zero at every position the column's
   * dictionary hands out, then one at the position of the sample's category
   * when the dictionary holds it.
   */
  method IndicatorBlock(entry: ColumnCategories, category: Value) returns (temp: seq<Value>)
    requires EntryValid(entry)
    ensures temp == Block(entry, category)
  {
    temp := seq(|entry.keys|, _ => Zero);
    if category in entry.positions {
      var position := entry.positions[category];
      temp := seq(|temp|, i requires 0 <= i < |temp| =>
                    if entry.positions[entry.keys[i]] == position then One else temp[i]);
    }
  }

  /**
   * The body of `transform`'s loop for one sample: builds the blocks one
   * fitted column at a time, unsetting each categorical column, and appends
   * them after what is left of the sample.
   */
  method EncodeSample(entries: seq<ColumnCategories>, sample: seq<Value>) returns (out: seq<Value>)
    requires WellFormed(entries) && Fits(entries, sample)
    ensures out == Encode(entries, sample)
  {
    var vector: seq<Value> := [];
    var removed: set<nat> := {};
    for e := 0 to |entries|
      invariant vector == Blocks(entries[..e], sample)
      invariant removed == ColumnSet(entries[..e])
    {
      var entry := entries[e];
      var temp := IndicatorBlock(entry, sample[entry.column]);
      assert entries[..e + 1][..e] == entries[..e];
      vector := vector + temp;
      removed := removed + {entry.column};
    }
    assert entries[..|entries|] == entries;
    out := KeepColumns(sample, Below(|sample|) - removed) + vector;
  }

  // ---------------------------------------------------------------------
  // The transformer
  // ---------------------------------------------------------------------

  class OneHotEncoder {
    /** The per-column dictionaries, in fitted column order; None until `Fit`. */
    var categories: Option<seq<ColumnCategories>>

    ghost predicate Valid()
      reads this
    {
      categories.Some? ==> WellFormed(categories.value)
    }

    constructor ()
      ensures Valid() && categories == None
    {
      categories := None;
    }

    /**
     * Learns the dictionaries of the categorical columns, discarding any
     * earlier ones.
     */
    method Fit(dataset: Dataset)
      requires dataset.Valid()
      modifies this
      ensures Valid()
      ensures categories == Some(Fitted(dataset.samples, dataset.types))
    {
      var samples, types := dataset.samples, dataset.types;
      categories := Some([]);
      var position: nat := 0;
      for c := 0 to |types|
        invariant categories == Some(Fitted(samples, types[..c]))
        invariant position == Width(categories.value)
      {
        assert types[..c + 1][..c] == types[..c];
        if types[c] == Categorical {
          var entries := categories.value;
          var entry;
          entry, position := CollectCategories(samples, c, position);
          categories := Some(entries + [entry]);
          assert (entries + [entry])[..|entries|] == entries;
        }
      }
      assert types[..|types|] == types;
      FittedValid(samples, types);
    }

    /**
     * Rewrites every sample of the batch in place, or fails without touching
     * it when the encoder has not been fitted.
     */
    method Transform(samples: array<seq<Value>>) returns (outcome: Outcome)
      requires Valid()
      requires categories.Some? ==> forall k :: 0 <= k < samples.Length ==> Fits(categories.value, samples[k])
      modifies samples
      ensures categories.None? ==> outcome == Fail(NotFitted) && samples[..] == old(samples[..])
      ensures categories.Some? ==>
                && outcome == Pass
                && forall k :: 0 <= k < samples.Length ==> samples[k] == Encode(categories.value, old(samples[k]))
    {
      if categories.None? {
        return Fail(NotFitted);
      }
      var entries := categories.value;
      for k := 0 to samples.Length
        invariant forall i :: 0 <= i < k ==> samples[i] == Encode(entries, old(samples[i]))
        invariant forall i :: k <= i < samples.Length ==> samples[i] == old(samples[i])
      {
        samples[k] := EncodeSample(entries, samples[k]);
      }
      return Pass;
    }
  }
}
