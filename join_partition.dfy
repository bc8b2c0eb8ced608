/** How the row counts of the merge kinds relate to one another through the
    anti-join: a left merge is the inner merge plus the anti-join of A against
    B, and so on. */
module JoinPartition {
  import opened Tables
  import opened AntiJoins
  import opened Merge

  /** The A rows whose key is absent from `other`, counted by index (the merge's
      view) or selected by mask (the anti-join's view), are as many. */
  lemma {:induction false} WhereIsKept(rows: seq<Row>, k: nat, other: set<Value>)
    ensures |Where(Column(Table([], rows), k), other, false)| == |KeepRows(rows, k, other, false)|
  {
    if |rows| > 0 {
      var n := |rows| - 1;
      WhereIsKept(rows[..n], k, other);
      assert Column(Table([], rows), k)[..n] == Column(Table([], rows[..n]), k);
      assert rows == rows[..n] + [rows[n]];
      KeepRowsAppend(rows[..n], [rows[n]], k, other, false);
      assert [rows[n]][1..] == [];
    }
  }

  /** Given both keys, a left merge has as many rows as the inner merge plus
      the anti-join of A against B, a right merge as the inner merge plus the
      anti-join of B against A, and an outer merge as all three together. */
  lemma MergeIsInnerPlusAntiJoins(a: Table, b: Table, keyA: string, keyB: string, suffixA: string, suffixB: string)
    requires keyA != "" && keyB != ""
    requires keyA in a.columns && keyB in b.columns
    ensures DoMerge(a, b, Some(keyA), Some(keyB), Inner, suffixA, suffixB).Ok?
    ensures AntiJoin(a, b, keyA, keyB, AnotInB).Ok? && AntiJoin(a, b, keyA, keyB, BnotInA).Ok?
    ensures var inner := |DoMerge(a, b, Some(keyA), Some(keyB), Inner, suffixA, suffixB).value.rows|;
            var aOnly := |AntiJoin(a, b, keyA, keyB, AnotInB).value.rows|;
            var bOnly := |AntiJoin(a, b, keyA, keyB, BnotInA).value.rows|;
            && |DoMerge(a, b, Some(keyA), Some(keyB), Left, suffixA, suffixB).value.rows| == inner + aOnly
            && |DoMerge(a, b, Some(keyA), Some(keyB), Right, suffixA, suffixB).value.rows| == inner + bOnly
            && |DoMerge(a, b, Some(keyA), Some(keyB), Outer, suffixA, suffixB).value.rows| == inner + aOnly + bOnly
  {
    var ia := IndexOf(a.columns, keyA).value;
    var ib := IndexOf(b.columns, keyB).value;
    var ka, kb := Column(a, ia), Column(b, ib);
    assert |Where(ka, Values(kb), false)| == |AntiJoin(a, b, keyA, keyB, AnotInB).value.rows| by {
      assert ka == Column(Table([], a.rows), ia);
      WhereIsKept(a.rows, ia, Values(kb));
    }
    assert |Where(kb, Values(ka), false)| == |AntiJoin(a, b, keyA, keyB, BnotInA).value.rows| by {
      assert kb == Column(Table([], b.rows), ib);
      WhereIsKept(b.rows, ib, Values(ka));
    }
    InnerJoinRows(a, b, keyA, keyB, suffixA, suffixB, DoMerge(a, b, Some(keyA), Some(keyB), Inner, suffixA, suffixB).value);
    LeftJoinRows(a, b, keyA, keyB, suffixA, suffixB, DoMerge(a, b, Some(keyA), Some(keyB), Left, suffixA, suffixB).value);
    RightJoinRows(a, b, keyA, keyB, suffixA, suffixB, DoMerge(a, b, Some(keyA), Some(keyB), Right, suffixA, suffixB).value);
    OuterJoinRows(a, b, keyA, keyB, suffixA, suffixB, DoMerge(a, b, Some(keyA), Some(keyB), Outer, suffixA, suffixB).value);
  }
}
