/** filter_columns: after a merge, keep only the columns the user picked from
    each side, finding each picked name as it is or with its side's suffix. */
module ColumnFilter {
  import opened Tables

  /** `_with_suffix`: the column name followed by the suffix. */
  function WithSuffix(column: string, suffix: string): (r: string)
    ensures |r| == |column| + |suffix|
    ensures r[..|column|] == column && r[|column|..] == suffix
  {
    column + suffix
  }

  /** `resolve`: the merged column a requested name stands for; the exact name
      wins, then the name with the side's suffix; otherwise there is none. */
  function Resolve(cols: seq<string>, col: string, suffix: string): (r: Option<string>)
    ensures r.Some? ==> r.value in cols && (r.value == col || r.value == WithSuffix(col, suffix))
    ensures r.None? <==> col !in cols && WithSuffix(col, suffix) !in cols
    ensures col in cols ==> r == Some(col)
  {
    if col in cols then Some(col)
    else if WithSuffix(col, suffix) in cols then Some(WithSuffix(col, suffix))
    else None
  }

  /** The resolved names of the requests, in request order, unresolved ones skipped. */
  function ResolveAll(cols: seq<string>, reqs: seq<string>, suffix: string): (r: seq<string>)
    ensures |r| <= |reqs|
    ensures forall c :: c in r ==> c in cols
  {
    if |reqs| == 0 then []
    else
      var rest := ResolveAll(cols, reqs[..|reqs| - 1], suffix);
      match Resolve(cols, reqs[|reqs| - 1], suffix)
      case Some(c) => rest + [c]
      case None => rest
  }

  /** The names kept: those resolved from A's requests, then those from B's. */
  function Selection(cols: seq<string>, reqsA: seq<string>, reqsB: seq<string>,
                     suffixA: string, suffixB: string): (r: seq<string>)
    ensures |r| <= |reqsA| + |reqsB|
    ensures forall c :: c in r ==> c in cols
  {
    ResolveAll(cols, reqsA, suffixA) + ResolveAll(cols, reqsB, suffixB)
  }

  /** The names of `sel` that are columns of the table, in order. */
  function KeepPresent(sel: seq<string>, cols: seq<string>): (r: seq<string>)
    ensures forall c :: c in r <==> c in sel && c in cols
  {
    if |sel| == 0 then []
    else
      var rest := KeepPresent(sel[..|sel| - 1], cols);
      assert forall c :: c in sel <==> c in sel[..|sel| - 1] || c == sel[|sel| - 1] by {
        assert sel == sel[..|sel| - 1] + [sel[|sel| - 1]];
      }
      if sel[|sel| - 1] in cols then rest + [sel[|sel| - 1]] else rest
  }

  /** The table restricted to the columns `sel`, in that order, each row keeping
      the value it had under each selected name. */
  function Project(t: Table, sel: seq<string>): (r: Table)
    ensures r.columns == sel && |r.rows| == |t.rows|
    ensures forall i :: 0 <= i < |t.rows| ==> |r.rows[i]| == |sel|
  {
    Table(sel, seq(|t.rows|, i requires 0 <= i < |t.rows| =>
                 seq(|sel|, k requires 0 <= k < |sel| => Lookup(t.columns, t.rows[i], sel[k]))))
  }

  /** What filter_columns returns: the projection onto the selection, or the
      merged table untouched when nothing was selected. */
  function Filtered(merged: Table, reqsA: seq<string>, reqsB: seq<string>,
                    suffixA: string, suffixB: string): (r: Table)
    ensures |r.rows| == |merged.rows|
    ensures forall c :: c in r.columns ==> c in merged.columns
    ensures r == merged || |r.columns| <= |reqsA| + |reqsB|
  {
    var sel := Selection(merged.columns, reqsA, reqsB, suffixA, suffixB);
    if sel == [] then merged else Project(merged, sel)
  }

  /** An absent list of requests is an empty one. */
  function Requests(cols: Option<seq<string>>): (r: seq<string>)
    ensures cols.None? ==> |r| == 0
    ensures cols.Some? ==> r == cols.value
  {
    match cols
    case None => []
    case Some(c) => c
  }

  /** A name is resolved exactly when some request resolves to it. */
  lemma {:induction false} ResolveAllMembers(cols: seq<string>, reqs: seq<string>, suffix: string)
    ensures forall c :: c in ResolveAll(cols, reqs, suffix) <==>
              exists q :: q in reqs && Resolve(cols, q, suffix) == Some(c)
  {
    if |reqs| > 0 {
      var init := reqs[..|reqs| - 1];
      var q := reqs[|reqs| - 1];
      ResolveAllMembers(cols, init, suffix);
      assert reqs == init + [q];
      forall c ensures c in ResolveAll(cols, reqs, suffix) <==>
                       exists p :: p in reqs && Resolve(cols, p, suffix) == Some(c)
      {
        if exists p :: p in reqs && Resolve(cols, p, suffix) == Some(c) {
          var p :| p in reqs && Resolve(cols, p, suffix) == Some(c);
          if p != q {
            assert p in init;
          }
        }
      }
    }
  }

  /** The requests are resolved in order: resolving two lists one after the
      other is resolving their concatenation. */
  lemma {:induction false} ResolveAllAppend(cols: seq<string>, xs: seq<string>, ys: seq<string>, suffix: string)
    ensures ResolveAll(cols, xs + ys, suffix) == ResolveAll(cols, xs, suffix) + ResolveAll(cols, ys, suffix)
    decreases |ys|
  {
    if |ys| > 0 {
      var init := ys[..|ys| - 1];
      assert (xs + ys)[..|xs + ys| - 1] == xs + init;
      assert (xs + ys)[|xs + ys| - 1] == ys[|ys| - 1];
      ResolveAllAppend(cols, xs, init, suffix);
    } else {
      assert xs + ys == xs;
    }
  }

  /** Keeping only the present names changes nothing when all are present. */
  lemma {:induction false} KeepPresentAll(sel: seq<string>, cols: seq<string>)
    requires forall c :: c in sel ==> c in cols
    ensures KeepPresent(sel, cols) == sel
  {
    if |sel| > 0 {
      var init := sel[..|sel| - 1];
      assert sel[|sel| - 1] in sel;
      forall c | c in init ensures c in cols {
        assert c in sel;
      }
      KeepPresentAll(init, cols);
      assert sel == init + [sel[|sel| - 1]];
    }
  }

  /** filter_columns. The two loops resolve A's requests, then B's; the key
      step then adds a resolved key only when it is not selected yet, which
      never happens, because a requested key was resolved by the loop. */
  method FilterColumns(merged: Table, colsFromA: Option<seq<string>>, colsFromB: Option<seq<string>>,
                       keyA: Option<string>, keyB: Option<string>, suffixA: string, suffixB: string)
    returns (r: Table)
    ensures r == Filtered(merged, Requests(colsFromA), Requests(colsFromB), suffixA, suffixB)
  {
    var reqsA := Requests(colsFromA);
    var reqsB := Requests(colsFromB);
    var cols := merged.columns;
    var selected: seq<string> := [];

    var i := 0;
    while i < |reqsA|
      invariant 0 <= i <= |reqsA|
      invariant selected == ResolveAll(cols, reqsA[..i], suffixA)
    {
      assert reqsA[..i + 1][..i] == reqsA[..i];
      var resolved := Resolve(cols, reqsA[i], suffixA);
      if resolved.Some? {
        selected := selected + [resolved.value];
      }
      i := i + 1;
    }
    assert reqsA[..i] == reqsA;
    var fromA := selected;

    var j := 0;
    while j < |reqsB|
      invariant 0 <= j <= |reqsB|
      invariant selected == fromA + ResolveAll(cols, reqsB[..j], suffixB)
    {
      assert reqsB[..j + 1][..j] == reqsB[..j];
      var resolved := Resolve(cols, reqsB[j], suffixB);
      if resolved.Some? {
        selected := selected + [resolved.value];
      }
      j := j + 1;
    }
    assert reqsB[..j] == reqsB;
    assert selected == Selection(cols, reqsA, reqsB, suffixA, suffixB);

    if keyA.Some? && keyA.value != "" && keyA.value in reqsA {
      ResolveAllMembers(cols, reqsA, suffixA);
      match Resolve(cols, keyA.value, suffixA)
      case Some(k) =>
        if k != "" && k !in selected {
          selected := selected + [k];
        }
      case None =>
    }
    if keyB.Some? && keyB.value != "" && keyB.value in reqsB {
      ResolveAllMembers(cols, reqsB, suffixB);
      match Resolve(cols, keyB.value, suffixB)
      case Some(k) =>
        if k != "" && k !in selected {
          selected := selected + [k];
        }
      case None =>
    }

    if selected == [] {
      return merged;
    }
    assert forall c :: c in selected ==> c in cols;
    KeepPresentAll(selected, cols);
    r := Project(merged, KeepPresent(selected, cols));
  }

  /** Nothing is selected, and the merged table comes back whole, exactly when
      no request of either side names a column as it is or with its suffix. */
  lemma FallbackWhenNothingResolves(merged: Table, reqsA: seq<string>, reqsB: seq<string>,
                                    suffixA: string, suffixB: string)
    ensures Selection(merged.columns, reqsA, reqsB, suffixA, suffixB) == [] <==>
              (forall q :: q in reqsA ==> q !in merged.columns && WithSuffix(q, suffixA) !in merged.columns)
              && (forall q :: q in reqsB ==> q !in merged.columns && WithSuffix(q, suffixB) !in merged.columns)
    ensures Selection(merged.columns, reqsA, reqsB, suffixA, suffixB) == [] ==>
              Filtered(merged, reqsA, reqsB, suffixA, suffixB) == merged
  {
    var cols := merged.columns;
    ResolveAllMembers(cols, reqsA, suffixA);
    ResolveAllMembers(cols, reqsB, suffixB);
    var ra := ResolveAll(cols, reqsA, suffixA);
    var rb := ResolveAll(cols, reqsB, suffixB);
    if ra != [] {
      assert ra[0] in ra;
    }
    if rb != [] {
      assert rb[0] in rb;
    }
    forall q | q in reqsA && (q in cols || WithSuffix(q, suffixA) in cols)
      ensures ra != []
    {
      assert Resolve(cols, q, suffixA).value in ra;
    }
    forall q | q in reqsB && (q in cols || WithSuffix(q, suffixB) in cols)
      ensures rb != []
    {
      assert Resolve(cols, q, suffixB).value in rb;
    }
  }

  /** When something is selected, the result's columns are exactly the merged
      columns that some request of A (with A's suffix) or of B (with B's suffix)
      resolves to; a key column nobody asked for is not kept. */
  lemma FilteredColumns(merged: Table, reqsA: seq<string>, reqsB: seq<string>,
                        suffixA: string, suffixB: string)
    requires Selection(merged.columns, reqsA, reqsB, suffixA, suffixB) != []
    ensures var r := Filtered(merged, reqsA, reqsB, suffixA, suffixB);
            forall c :: c in r.columns <==>
              || (exists q :: q in reqsA && Resolve(merged.columns, q, suffixA) == Some(c))
              || (exists q :: q in reqsB && Resolve(merged.columns, q, suffixB) == Some(c))
  {
    ResolveAllMembers(merged.columns, reqsA, suffixA);
    ResolveAllMembers(merged.columns, reqsB, suffixB);
  }

  /** Each row keeps, under each selected name, the value it had in the merged table. */
  lemma ProjectKeepsValues(t: Table, sel: seq<string>)
    ensures var r := Project(t, sel);
            forall i, c :: 0 <= i < |t.rows| && c in sel ==>
              Lookup(r.columns, r.rows[i], c) == Lookup(t.columns, t.rows[i], c)
  {
    var r := Project(t, sel);
    forall i, c | 0 <= i < |t.rows| && c in sel
      ensures Lookup(r.columns, r.rows[i], c) == Lookup(t.columns, t.rows[i], c)
    {
      var k := IndexOf(sel, c).value;
      assert r.rows[i][k] == Lookup(t.columns, t.rows[i], sel[k]);
    }
  }

  /** The concrete case: from columns key, value_A, value_B, picking "value"
      on B's side finds B's suffixed column, and the key nobody asked for is
      dropped. */
  lemma FilterExample(merged: Table)
    requires merged.columns == ["key", "value_A", "value_B"]
    ensures Filtered(merged, [], ["value"], "_A", "_B").columns == ["value_B"]
  {
    assert Resolve(merged.columns, "value", "_B") == Some("value_B") by {
      assert WithSuffix("value", "_B") == "value_B";
      assert merged.columns[2] == "value_B";
    }
    assert ResolveAll(merged.columns, ["value"], "_B") == ["value_B"] by {
      assert ["value"][..0] == [];
    }
  }
}
