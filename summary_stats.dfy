/** build_summary_stats: the counts reported after a merge or an anti-join. */
module SummaryStats {
  import opened Tables
  import opened AntiJoins
  import opened Merge

  const AntiAvsB := "anti_A_vs_B"
  const AntiBvsA := "anti_B_vs_A"

  datatype Stats = Stats(
    rowsA: nat,
    rowsB: nat,
    rowsResult: nat,
    uniqueKeysA: nat,   // distinct non-missing keys of A
    uniqueKeysB: nat,   // distinct non-missing keys of B
    keysMatched: nat,   // distinct non-missing keys found on both sides
    excludedRows: nat)  // for an anti-join, the rows of its side whose key the other side lacks

  /** The distinct keys of a column, missing values dropped. */
  function NonNullKeys(ks: seq<Value>): (r: set<Value>)
    ensures Null !in r
  {
    set v | v in ks && v != Null
  }

  /** How many entries of `ks` are not among `other`: the sum of the negated
      membership mask. */
  function CountAbsent(ks: seq<Value>, other: set<Value>): (r: nat)
    ensures r <= |ks|
  {
    if |ks| == 0 then 0
    else (if ks[0] !in other then 1 else 0) + CountAbsent(ks[1..], other)
  }

  /** build_summary_stats. Looking up a key column the table lacks is an error,
      A's first; the excluded-row count is zero unless `how` names an anti-join. */
  function BuildSummaryStats(a: Table, b: Table, keyA: string, keyB: string, how: string, result: Table)
    : (r: Result<Stats>)
    ensures r.Ok? <==> keyA in a.columns && keyB in b.columns
    ensures keyA !in a.columns ==> r == Err(ColumnNotFound(keyA))
    ensures r.Ok? ==> r.value.rowsA == |a.rows| && r.value.rowsB == |b.rows| && r.value.rowsResult == |result.rows|
    ensures r.Ok? && how != AntiAvsB && how != AntiBvsA ==> r.value.excludedRows == 0
    ensures r.Ok? && how == AntiAvsB ==> r.value.excludedRows <= |a.rows|
    ensures r.Ok? && how == AntiBvsA ==> r.value.excludedRows <= |b.rows|
  {
    match IndexOf(a.columns, keyA)
    case None => Err(ColumnNotFound(keyA))
    case Some(ia) =>
      match IndexOf(b.columns, keyB)
      case None => Err(ColumnNotFound(keyB))
      case Some(ib) =>
        var ka := Column(a, ia);
        var kb := Column(b, ib);
        var excluded :=
          if how == AntiAvsB then CountAbsent(ka, Values(kb))
          else if how == AntiBvsA then CountAbsent(kb, Values(ka))
          else 0;
        Ok(Stats(|a.rows|, |b.rows|, |result.rows|,
                 |NonNullKeys(ka)|, |NonNullKeys(kb)|,
                 |NonNullKeys(ka) * NonNullKeys(kb)|,
                 excluded))
  }

  /** A subset is no larger than the set containing it. */
  lemma {:induction false} SubsetCard<T>(x: set<T>, y: set<T>)
    requires x <= y
    ensures |x| <= |y|
    decreases y
  {
    if x != {} {
      var e :| e in x;
      SubsetCard(x - {e}, y - {e});
    }
  }

  /** A column has no more distinct keys than rows. */
  lemma {:induction false} NonNullKeysBound(ks: seq<Value>)
    ensures |NonNullKeys(ks)| <= |ks|
  {
    if |ks| > 0 {
      var n := |ks| - 1;
      NonNullKeysBound(ks[..n]);
      assert NonNullKeys(ks) <= NonNullKeys(ks[..n]) + {ks[n]} by {
        assert ks == ks[..n] + [ks[n]];
      }
      SubsetCard(NonNullKeys(ks), NonNullKeys(ks[..n]) + {ks[n]});
    } else {
      assert NonNullKeys(ks) == {};
    }
  }

  /** Distinct keys are bounded by the row counts, and matched keys by the
      distinct keys of either side. */
  lemma SummaryBounds(a: Table, b: Table, keyA: string, keyB: string, how: string, result: Table)
    requires BuildSummaryStats(a, b, keyA, keyB, how, result).Ok?
    ensures var s := BuildSummaryStats(a, b, keyA, keyB, how, result).value;
            && s.uniqueKeysA <= s.rowsA
            && s.uniqueKeysB <= s.rowsB
            && s.keysMatched <= s.uniqueKeysA
            && s.keysMatched <= s.uniqueKeysB
  {
    var ka := Column(a, IndexOf(a.columns, keyA).value);
    var kb := Column(b, IndexOf(b.columns, keyB).value);
    NonNullKeysBound(ka);
    NonNullKeysBound(kb);
    SubsetCard(NonNullKeys(ka) * NonNullKeys(kb), NonNullKeys(ka));
    SubsetCard(NonNullKeys(ka) * NonNullKeys(kb), NonNullKeys(kb));
  }

  /** Counting the rows whose key the other side lacks is counting the rows
      the anti-join keeps. */
  lemma {:induction false} CountAbsentIsKept(rows: seq<Row>, k: nat, other: set<Value>)
    ensures CountAbsent(Column(Table([], rows), k), other) == |KeepRows(rows, k, other, false)|
  {
    if |rows| > 0 {
      CountAbsentIsKept(rows[1..], k, other);
      assert Column(Table([], rows), k)[1..] == Column(Table([], rows[1..]), k);
    }
  }

  /** For an anti-join, the excluded-row count is the number of rows the
      anti-join of that direction returns. */
  lemma ExcludedIsAntiJoin(a: Table, b: Table, keyA: string, keyB: string, how: string, result: Table)
    requires BuildSummaryStats(a, b, keyA, keyB, how, result).Ok?
    ensures how == AntiAvsB ==>
              BuildSummaryStats(a, b, keyA, keyB, how, result).value.excludedRows
              == |AntiJoin(a, b, keyA, keyB, AnotInB).value.rows|
    ensures how == AntiBvsA ==>
              BuildSummaryStats(a, b, keyA, keyB, how, result).value.excludedRows
              == |AntiJoin(a, b, keyA, keyB, BnotInA).value.rows|
  {
    var ia := IndexOf(a.columns, keyA).value;
    var ib := IndexOf(b.columns, keyB).value;
    assert Column(a, ia) == Column(Table([], a.rows), ia);
    assert Column(b, ib) == Column(Table([], b.rows), ib);
    CountAbsentIsKept(a.rows, ia, Values(Column(b, ib)));
    CountAbsentIsKept(b.rows, ib, Values(Column(a, ia)));
  }

  /** When some key is on both sides, the inner merge on the same keys is not
      empty. */
  lemma MatchedKeysMeanInnerRows(a: Table, b: Table, keyA: string, keyB: string, how: string, result: Table,
                                 suffixA: string, suffixB: string)
    requires BuildSummaryStats(a, b, keyA, keyB, how, result).Ok?
    requires BuildSummaryStats(a, b, keyA, keyB, how, result).value.keysMatched > 0
    requires keyA != "" && keyB != ""
    ensures DoMerge(a, b, Some(keyA), Some(keyB), Inner, suffixA, suffixB).Ok?
    ensures |DoMerge(a, b, Some(keyA), Some(keyB), Inner, suffixA, suffixB).value.rows| > 0
  {
    var ia := IndexOf(a.columns, keyA).value;
    var ib := IndexOf(b.columns, keyB).value;
    var ka := Column(a, ia);
    var kb := Column(b, ib);
    var common := NonNullKeys(ka) * NonNullKeys(kb);
    assert common != {};
    var v :| v in common;
    var i :| 0 <= i < |ka| && ka[i] == v;
    var j :| 0 <= j < |kb| && kb[j] == v;
    assert Slot(Some(i), Some(j)) in MatchSet(ka, kb);
    var t := DoMerge(a, b, Some(keyA), Some(keyB), Inner, suffixA, suffixB).value;
    InnerJoinRows(a, b, keyA, keyB, suffixA, suffixB, t);
  }
}
