/** The anti-join: the rows of one table whose key value does not occur in
    the key column of the other table, in their original order. */
module AntiJoins {
  import opened Tables

  const AnotInB := "A_not_in_B"
  const BnotInA := "B_not_in_A"

  /** The rows whose cell at `k` is (when `present`) or is not (when `!present`)
      among `other`, in their original order: the boolean-mask selection. */
  function KeepRows(rows: seq<Row>, k: nat, other: set<Value>, present: bool): (r: seq<Row>)
    ensures |r| <= |rows|
  {
    if |rows| == 0 then []
    else
      (if (Cell(rows[0], k) in other) == present then [rows[0]] else [])
      + KeepRows(rows[1..], k, other, present)
  }

  /** The rows of `t` whose key (column `k`) is absent from `other`, with `t`'s columns. */
  function Exclude(t: Table, k: nat, other: set<Value>): (r: Table)
    ensures r.columns == t.columns && |r.rows| <= |t.rows|
  {
    Table(t.columns, KeepRows(t.rows, k, other, false))
  }

  /** A row is kept exactly when it is an input row whose key's membership in
      `other` is the one asked for. */
  lemma {:induction false} KeepRowsMembers(rows: seq<Row>, k: nat, other: set<Value>, present: bool)
    ensures forall row :: row in KeepRows(rows, k, other, present) ==>
              row in rows && (Cell(row, k) in other) == present
    ensures forall row :: row in rows && (Cell(row, k) in other) == present ==>
              row in KeepRows(rows, k, other, present)
  {
    if |rows| > 0 {
      KeepRowsMembers(rows[1..], k, other, present);
      assert rows == [rows[0]] + rows[1..];
    }
  }

  /** anti_join: rows of A whose key is not in B's key column ("A_not_in_B"), or the
      mirror image over B ("B_not_in_A"); any other direction is an error. */
  function AntiJoin(a: Table, b: Table, keyA: string, keyB: string, direction: string): (r: Result<Table>)
    ensures direction != AnotInB && direction != BnotInA ==> r == Err(InvalidDirection)
    ensures (direction == AnotInB || direction == BnotInA) ==>
              (r.Ok? <==> keyA in a.columns && keyB in b.columns)
    ensures r.Ok? && direction == AnotInB ==> r.value.columns == a.columns && |r.value.rows| <= |a.rows|
    ensures r.Ok? && direction == BnotInA ==> r.value.columns == b.columns && |r.value.rows| <= |b.rows|
  {
    if direction == AnotInB then
      match IndexOf(a.columns, keyA)
      case None => Err(ColumnNotFound(keyA))
      case Some(ia) =>
        match IndexOf(b.columns, keyB)
        case None => Err(ColumnNotFound(keyB))
        case Some(ib) => Ok(Exclude(a, ia, Values(Column(b, ib))))
    else if direction == BnotInA then
      match IndexOf(b.columns, keyB)
      case None => Err(ColumnNotFound(keyB))
      case Some(ib) =>
        match IndexOf(a.columns, keyA)
        case None => Err(ColumnNotFound(keyA))
        case Some(ia) => Ok(Exclude(b, ib, Values(Column(a, ia))))
    else
      Err(InvalidDirection)
  }

  /** The selection is order-preserving: filtering a concatenation is the
      concatenation of the filtered parts. */
  lemma {:induction false} KeepRowsAppend(xs: seq<Row>, ys: seq<Row>, k: nat, other: set<Value>, present: bool)
    ensures KeepRows(xs + ys, k, other, present)
         == KeepRows(xs, k, other, present) + KeepRows(ys, k, other, present)
  {
    if |xs| == 0 {
      assert xs + ys == ys;
    } else {
      var head := if (Cell(xs[0], k) in other) == present then [xs[0]] else [];
      assert (xs + ys)[0] == xs[0];
      assert (xs + ys)[1..] == xs[1..] + ys;
      calc {
        KeepRows(xs + ys, k, other, present);
        head + KeepRows(xs[1..] + ys, k, other, present);
        { KeepRowsAppend(xs[1..], ys, k, other, present); }
        head + (KeepRows(xs[1..], k, other, present) + KeepRows(ys, k, other, present));
        (head + KeepRows(xs[1..], k, other, present)) + KeepRows(ys, k, other, present);
        KeepRows(xs, k, other, present) + KeepRows(ys, k, other, present);
      }
    }
  }

  /** The rows kept and the rows dropped partition the input: together they are
      exactly the input rows, each row landing on one side. */
  lemma {:induction false} KeepRowsPartition(rows: seq<Row>, k: nat, other: set<Value>)
    ensures multiset(KeepRows(rows, k, other, false)) + multiset(KeepRows(rows, k, other, true))
         == multiset(rows)
    ensures |KeepRows(rows, k, other, false)| + |KeepRows(rows, k, other, true)| == |rows|
  {
    if |rows| > 0 {
      KeepRowsPartition(rows[1..], k, other);
      assert rows == [rows[0]] + rows[1..];
    }
  }

  /** The anti-join of A against B and the rows of A whose key does occur in B
      partition A. */
  lemma AntiJoinPartition(a: Table, b: Table, keyA: string, keyB: string)
    requires AntiJoin(a, b, keyA, keyB, AnotInB).Ok?
    ensures var ia := IndexOf(a.columns, keyA).value;
            var ib := IndexOf(b.columns, keyB).value;
            var anti := AntiJoin(a, b, keyA, keyB, AnotInB).value.rows;
            var semi := KeepRows(a.rows, ia, Values(Column(b, ib)), true);
            multiset(anti) + multiset(semi) == multiset(a.rows)
            && |anti| + |semi| == |a.rows|
  {
    var ia := IndexOf(a.columns, keyA).value;
    var ib := IndexOf(b.columns, keyB).value;
    KeepRowsPartition(a.rows, ia, Values(Column(b, ib)));
  }

  /** The anti-join of A against B keeps exactly the rows of A whose key value
      occurs nowhere in B's key column, in A's order. */
  lemma AntiJoinAnotInB(a: Table, b: Table, keyA: string, keyB: string)
    requires AntiJoin(a, b, keyA, keyB, AnotInB).Ok?
    ensures var ia := IndexOf(a.columns, keyA).value;
            var ib := IndexOf(b.columns, keyB).value;
            var t := AntiJoin(a, b, keyA, keyB, AnotInB).value;
            && t.columns == a.columns
            && (forall row :: row in t.rows ==>
                  row in a.rows && forall j :: 0 <= j < |b.rows| ==> Cell(row, ia) != Cell(b.rows[j], ib))
            && (forall i :: 0 <= i < |a.rows| &&
                  (forall j :: 0 <= j < |b.rows| ==> Cell(a.rows[i], ia) != Cell(b.rows[j], ib))
                  ==> a.rows[i] in t.rows)
  {
    var ia := IndexOf(a.columns, keyA).value;
    var ib := IndexOf(b.columns, keyB).value;
    var col := Column(b, ib);
    KeepRowsMembers(a.rows, ia, Values(col), false);
    forall row | row in AntiJoin(a, b, keyA, keyB, AnotInB).value.rows
      ensures forall j :: 0 <= j < |b.rows| ==> Cell(row, ia) != Cell(b.rows[j], ib)
    {
      forall j | 0 <= j < |b.rows| ensures Cell(row, ia) != Cell(b.rows[j], ib) {
        assert col[j] in Values(col);
      }
    }
  }

  /** The anti-join of B against A keeps exactly the rows of B whose key value
      occurs nowhere in A's key column, in B's order. */
  lemma AntiJoinBnotInA(a: Table, b: Table, keyA: string, keyB: string)
    requires AntiJoin(a, b, keyA, keyB, BnotInA).Ok?
    ensures var ia := IndexOf(a.columns, keyA).value;
            var ib := IndexOf(b.columns, keyB).value;
            var t := AntiJoin(a, b, keyA, keyB, BnotInA).value;
            && t.columns == b.columns
            && (forall row :: row in t.rows ==>
                  row in b.rows && forall i :: 0 <= i < |a.rows| ==> Cell(row, ib) != Cell(a.rows[i], ia))
            && (forall j :: 0 <= j < |b.rows| &&
                  (forall i :: 0 <= i < |a.rows| ==> Cell(b.rows[j], ib) != Cell(a.rows[i], ia))
                  ==> b.rows[j] in t.rows)
  {
    var ia := IndexOf(a.columns, keyA).value;
    var ib := IndexOf(b.columns, keyB).value;
    var col := Column(a, ia);
    KeepRowsMembers(b.rows, ib, Values(col), false);
    forall row | row in AntiJoin(a, b, keyA, keyB, BnotInA).value.rows
      ensures forall i :: 0 <= i < |a.rows| ==> Cell(row, ib) != Cell(a.rows[i], ia)
    {
      forall i | 0 <= i < |a.rows| ensures Cell(row, ib) != Cell(a.rows[i], ia) {
        assert col[i] in Values(col);
      }
    }
  }

  /** The concrete case: with A's keys 1, 2, 3, 4 and B's keys 2, 3, the
      anti-join keeps the rows with keys 1 and 4. */
  lemma AntiJoinExample(a: Table, b: Table)
    requires a == Table(["key", "value_a"], [[Num(1), Text("A")], [Num(2), Text("B")],
                                             [Num(3), Text("C")], [Num(4), Text("D")]])
    requires b == Table(["key", "value_b"], [[Num(2), Text("X")], [Num(3), Text("Y")]])
    ensures AntiJoin(a, b, "key", "key", AnotInB)
         == Ok(Table(["key", "value_a"], [[Num(1), Text("A")], [Num(4), Text("D")]]))
  {
    var keys := Values(Column(b, 0));
    var r4 := [[Num(4), Text("D")]];
    var r3 := [[Num(3), Text("C")]] + r4;
    var r2 := [[Num(2), Text("B")]] + r3;
    var r1 := [[Num(1), Text("A")]] + r2;
    assert KeepRows(r1, 0, keys, false) == [[Num(1), Text("A")]] + r4 by {
      assert Num(2) in keys && Num(3) in keys && Num(1) !in keys && Num(4) !in keys by {
        assert Column(b, 0) == [Num(2), Num(3)];
      }
      assert KeepRows(r4, 0, keys, false) == r4 by {
        assert r4[1..] == [];
      }
      assert KeepRows(r2, 0, keys, false) == r4 by {
        assert r2[1..] == r3;
        assert r3[1..] == r4;
      }
      assert r1[1..] == r2;
    }
    assert AntiJoin(a, b, "key", "key", AnotInB) == Ok(Exclude(a, 0, keys)) by {
      assert IndexOf(a.columns, "key") == Some(0);
      assert IndexOf(b.columns, "key") == Some(0);
    }
    assert a.rows == r1;
    assert [[Num(1), Text("A")]] + r4 == [[Num(1), Text("A")], [Num(4), Text("D")]];
  }
}
