/** do_merge: the argument guard, then the relational join on key equality that
    the data-frame library performs, stated as which pairs of input rows make up
    each output row and how the output columns are named. */
module Merge {
  import opened Tables

  datatype JoinKind = Inner | Left | Right | Outer

  /** The rows an output row is made of: at most one row of A and at most one
      row of B, by position. A missing side is filled with missing values. */
  datatype Slot = Slot(left: Option<nat>, right: Option<nat>)

  /** Row `i` of A and row `j` of B have equal keys. */
  predicate Matches(ka: seq<Value>, kb: seq<Value>, i: int, j: int) {
    0 <= i < |ka| && 0 <= j < |kb| && ka[i] == kb[j]
  }

  /** The positions of `ks`, in increasing order, whose value is (when `member`)
      or is not (when `!member`) in `s`. */
  function Where(ks: seq<Value>, s: set<Value>, member: bool): (r: seq<nat>)
    ensures forall i :: i in r <==> 0 <= i < |ks| && ((ks[i] in s) == member)
    ensures forall x, y :: 0 <= x < y < |r| ==> r[x] < r[y]
  {
    if |ks| == 0 then []
    else
      var n := |ks| - 1;
      var rest := Where(ks[..n], s, member);
      assert forall x :: 0 <= x < |rest| ==> rest[x] < n by {
        forall x | 0 <= x < |rest| ensures rest[x] < n {
          assert rest[x] in rest;
        }
      }
      if (ks[n] in s) == member then rest + [n] else rest
  }

  /** Slot `x` comes before slot `y` in A-row order, then in B-row order. */
  predicate LeftOrdered(x: Slot, y: Slot) {
    && x.left.Some? && y.left.Some?
    && (|| x.left.value < y.left.value
        || (x.left.value == y.left.value && x.right.Some? && y.right.Some? && x.right.value < y.right.value))
  }

  predicate SortedByLeft(r: seq<Slot>) {
    forall x, y :: 0 <= x < y < |r| ==> LeftOrdered(r[x], r[y])
  }

  /** Row `i` of A paired with each of the rows `js` of B. */
  function PairSlots(i: nat, js: seq<nat>): (r: seq<Slot>)
    ensures |r| == |js|
    ensures forall k :: 0 <= k < |js| ==> r[k] == Slot(Some(i), Some(js[k]))
  {
    seq(|js|, k requires 0 <= k < |js| => Slot(Some(i), Some(js[k])))
  }

  /** Each of the rows `js` of B with no row of A. */
  function RightOnlySlots(js: seq<nat>): (r: seq<Slot>)
    ensures |r| == |js|
    ensures forall k :: 0 <= k < |js| ==> r[k] == Slot(None, Some(js[k]))
  {
    seq(|js|, k requires 0 <= k < |js| => Slot(None, Some(js[k])))
  }

  /** Slot `x` pairs an A row with a B row whose key equals its own. */
  predicate InnerPair(ka: seq<Value>, kb: seq<Value>, x: Slot) {
    x.left.Some? && x.right.Some? && Matches(ka, kb, x.left.value, x.right.value)
  }

  /** The B rows whose key equals that of A row `i`. */
  function Partners(ka: seq<Value>, kb: seq<Value>, i: nat): (r: seq<nat>)
    requires i < |ka|
    ensures forall j :: j in r <==> Matches(ka, kb, i, j)
    ensures r == [] <==> ka[i] !in kb
    ensures forall x, y :: 0 <= x < y < |r| ==> r[x] < r[y]
  {
    var js := Where(kb, {ka[i]}, true);
    assert js == [] <==> ka[i] !in kb by {
      if ka[i] in kb {
        var j :| 0 <= j < |kb| && kb[j] == ka[i];
        assert j in js;
      }
      if js != [] {
        assert js[0] in js;
        assert kb[js[0]] in kb;
      }
    }
    js
  }

  /** Row `n` of A paired with each of its partners, in B order. */
  lemma PairSlotsOfRow(ka: seq<Value>, kb: seq<Value>, n: nat)
    requires n < |ka|
    ensures var last := PairSlots(n, Partners(ka, kb, n));
            && (forall x :: x in last <==> InnerPair(ka, kb, x) && x.left.value == n)
            && SortedByLeft(last)
  {
    var js := Partners(ka, kb, n);
    var last := PairSlots(n, js);
    forall x | x in last ensures InnerPair(ka, kb, x) && x.left.value == n {
      var k :| 0 <= k < |last| && last[k] == x;
      assert js[k] in js;
    }
    forall x | InnerPair(ka, kb, x) && x.left.value == n ensures x in last {
      assert x.right.value in js;
      var k :| 0 <= k < |js| && js[k] == x.right.value;
      assert last[k] == x;
    }
  }

  /** Appending slots of A row `n` to slots of earlier A rows keeps A order. */
  lemma SortedAppend(rest: seq<Slot>, last: seq<Slot>, n: nat)
    requires SortedByLeft(rest) && SortedByLeft(last)
    requires forall x :: x in rest ==> x.left.Some? && x.left.value < n
    requires forall x :: x in last ==> x.left == Some(n)
    ensures SortedByLeft(rest + last)
  {
    forall x, y | 0 <= x < y < |rest + last| ensures LeftOrdered((rest + last)[x], (rest + last)[y]) {
      if y < |rest| {
      } else if x < |rest| {
        assert rest[x] in rest;
        assert last[y - |rest|] in last;
      } else {
        assert (rest + last)[x] == last[x - |rest|];
      }
    }
  }

  /** Restricted to the first `n` rows of A, the inner pairs are those with an A row before `n`. */
  lemma PrefixInnerPair(ka: seq<Value>, kb: seq<Value>, n: nat)
    requires n <= |ka|
    ensures forall x :: InnerPair(ka[..n], kb, x) <==> InnerPair(ka, kb, x) && x.left.value < n
  {
    forall x ensures InnerPair(ka[..n], kb, x) <==> InnerPair(ka, kb, x) && x.left.value < n {
      if x.left.Some? && x.left.value < n {
        assert ka[..n][x.left.value] == ka[x.left.value];
      }
    }
  }

  /** Inner join: every pair of an A row and a B row with equal keys, in A
      order and, for one A row, in B order. */
  function InnerSlots(ka: seq<Value>, kb: seq<Value>): (r: seq<Slot>)
    ensures forall x :: x in r <==> InnerPair(ka, kb, x)
    ensures SortedByLeft(r)
  {
    if |ka| == 0 then []
    else
      var n := |ka| - 1;
      var rest := InnerSlots(ka[..n], kb);
      var last := PairSlots(n, Partners(ka, kb, n));
      assert forall x :: x in rest <==> InnerPair(ka, kb, x) && x.left.value < n by {
        PrefixInnerPair(ka, kb, n);
      }
      assert (forall x :: x in last <==> InnerPair(ka, kb, x) && x.left.value == n) && SortedByLeft(last) by {
        PairSlotsOfRow(ka, kb, n);
      }
      assert SortedByLeft(rest + last) by {
        SortedAppend(rest, last, n);
      }
      rest + last
  }

  /** Slot `x` is a row of the left join: an A row with a B row whose key
      equals its own, or an A row whose key occurs nowhere in B, alone. */
  predicate LeftPair(ka: seq<Value>, kb: seq<Value>, x: Slot) {
    && x.left.Some? && x.left.value < |ka|
    && (if x.right.Some? then Matches(ka, kb, x.left.value, x.right.value)
        else ka[x.left.value] !in kb)
  }

  /** Restricted to the first `n` rows of A, the left pairs are those with an A row before `n`. */
  lemma PrefixLeftPair(ka: seq<Value>, kb: seq<Value>, n: nat)
    requires n <= |ka|
    ensures forall x :: LeftPair(ka[..n], kb, x) <==> LeftPair(ka, kb, x) && x.left.value < n
  {
    forall x ensures LeftPair(ka[..n], kb, x) <==> LeftPair(ka, kb, x) && x.left.value < n {
      if x.left.Some? && x.left.value < n {
        assert ka[..n][x.left.value] == ka[x.left.value];
      }
    }
  }

  /** The left-join slots of A row `n`: its pairs, or the row alone when it has no partner. */
  function LeftRowSlots(ka: seq<Value>, kb: seq<Value>, n: nat): (r: seq<Slot>)
    requires n < |ka|
    ensures forall x :: x in r <==> LeftPair(ka, kb, x) && x.left.value == n
    ensures SortedByLeft(r)
  {
    var js := Partners(ka, kb, n);
    PairSlotsOfRow(ka, kb, n);
    if js == [] then [Slot(Some(n), None)] else PairSlots(n, js)
  }

  /** Left join: the inner-join pairs, plus each A row that matches no B row on
      its own, in A order. */
  function LeftSlots(ka: seq<Value>, kb: seq<Value>): (r: seq<Slot>)
    ensures forall x :: x in r <==> LeftPair(ka, kb, x)
    ensures SortedByLeft(r)
  {
    if |ka| == 0 then []
    else
      var n := |ka| - 1;
      var rest := LeftSlots(ka[..n], kb);
      var last := LeftRowSlots(ka, kb, n);
      assert forall x :: x in rest <==> LeftPair(ka, kb, x) && x.left.value < n by {
        PrefixLeftPair(ka, kb, n);
      }
      assert SortedByLeft(rest + last) by {
        SortedAppend(rest, last, n);
      }
      rest + last
  }

  function Swap(x: Slot): Slot {
    Slot(x.right, x.left)
  }

  function SwapAll(s: seq<Slot>): (r: seq<Slot>)
    ensures |r| == |s|
    ensures forall k :: 0 <= k < |s| ==> r[k] == Swap(s[k])
  {
    seq(|s|, k requires 0 <= k < |s| => Swap(s[k]))
  }

  /** Slot `x` is a row of the right join: the mirror image of `LeftPair`. */
  predicate RightPair(ka: seq<Value>, kb: seq<Value>, x: Slot) {
    LeftPair(kb, ka, Swap(x))
  }

  /** Exchanging sides is undone by exchanging them again, and a slot is in
      the exchanged list exactly when its exchange is in the original. */
  lemma SwapAllMembers(l: seq<Slot>)
    ensures forall x :: x in SwapAll(l) <==> Swap(x) in l
    ensures SwapAll(SwapAll(l)) == l
  {
    var r := SwapAll(l);
    forall x | x in r ensures Swap(x) in l {
      var k :| 0 <= k < |r| && r[k] == x;
      assert Swap(x) == l[k];
    }
    forall x | Swap(x) in l ensures x in r {
      var k :| 0 <= k < |l| && l[k] == Swap(x);
      assert x == r[k];
    }
  }

  /** Right join: the mirror image of the left join, in B order. */
  function RightSlots(ka: seq<Value>, kb: seq<Value>): (r: seq<Slot>)
    ensures forall x :: x in r <==> RightPair(ka, kb, x)
    ensures SortedByLeft(SwapAll(r))
  {
    var l := LeftSlots(kb, ka);
    SwapAllMembers(l);
    SwapAll(l)
  }

  /** Slot `x` is a row of the outer join: a row of the left join, or a B row
      whose key occurs nowhere in A, alone. */
  predicate OuterPair(ka: seq<Value>, kb: seq<Value>, x: Slot) {
    || LeftPair(ka, kb, x)
    || (x.left.None? && x.right.Some? && x.right.value < |kb| && kb[x.right.value] !in ka)
  }

  /** Outer join: the left join, then each B row that matches no A row. The
      order of these rows is not the data-frame library's (see README). */
  function OuterSlots(ka: seq<Value>, kb: seq<Value>): (r: seq<Slot>)
    ensures forall x :: x in r <==> OuterPair(ka, kb, x)
  {
    var l := LeftSlots(ka, kb);
    var js := Where(kb, Values(ka), false);
    var o := RightOnlySlots(js);
    assert forall x :: x in o <==> x.left.None? && x.right.Some? && x.right.value < |kb| && kb[x.right.value] !in ka by {
      forall x | x in o ensures x.left.None? && x.right.Some? && x.right.value < |kb| && kb[x.right.value] !in ka {
        var k :| 0 <= k < |o| && o[k] == x;
        assert js[k] in js;
      }
      forall x: Slot | x.left.None? && x.right.Some? && x.right.value < |kb| && kb[x.right.value] !in ka
        ensures x in o
      {
        assert x.right.value in js;
        var k :| 0 <= k < |js| && js[k] == x.right.value;
        assert o[k] == x;
      }
    }
    l + o
  }

  /** The slots of a join of the given kind. */
  function Slots(how: JoinKind, ka: seq<Value>, kb: seq<Value>): (r: seq<Slot>)
    ensures forall x :: x in r ==>
              && (x.left.Some? ==> x.left.value < |ka|)
              && (x.right.Some? ==> x.right.value < |kb|)
  {
    match how
    case Inner => InnerSlots(ka, kb)
    case Left => LeftSlots(ka, kb)
    case Right => RightSlots(ka, kb)
    case Outer => OuterSlots(ka, kb)
  }

  /** `s` without its element at `k` (unchanged when there is none). */
  function RemoveAt<T>(s: seq<T>, k: nat): (r: seq<T>)
    ensures k < |s| ==> |r| == |s| - 1
    ensures k >= |s| ==> r == s
    ensures forall x :: x in r ==> x in s
    ensures k < |s| ==> forall x :: x in s && x != s[k] ==> x in r
  {
    if k < |s| then
      assert s == s[..k] + [s[k]] + s[k + 1..];
      s[..k] + s[k + 1..]
    else s
  }

  /** The columns B contributes: all of them, except B's key when both keys
      have the same name, since the two key columns are then one. */
  function RightColumns(b: Table, ib: nat, sameKey: bool): (r: seq<string>)
    ensures !sameKey ==> r == b.columns
    ensures sameKey && ib < |b.columns| ==> |r| == |b.columns| - 1
    ensures forall c :: c in r ==> c in b.columns
    ensures sameKey && ib < |b.columns| ==> forall c :: c in b.columns && c != b.columns[ib] ==> c in r
  {
    if sameKey then RemoveAt(b.columns, ib) else b.columns
  }

  /** The cells a row of B contributes, in the order of `RightColumns`: the
      whole row, or the row with its key cell taken out and the later cells
      moved up by one. */
  function RightCells(row: Row, ib: nat, sameKey: bool): (r: Row)
    ensures !sameKey || ib >= |row| ==> r == row
    ensures sameKey && ib < |row| ==> |r| + 1 == |row|
    ensures sameKey && ib < |row| ==>
              forall k :: 0 <= k < |r| ==> r[k] == (if k < ib then row[k] else row[k + 1])
  {
    if sameKey then RemoveAt(row, ib) else row
  }

  /** The names both sides would otherwise share. */
  function Overlap(left: seq<string>, right: seq<string>): set<string> {
    set c | c in left && c in right
  }

  /** A shared name gets the side's suffix; any other name is kept. */
  function Rename(c: string, overlap: set<string>, suffix: string): string {
    if c in overlap then c + suffix else c
  }

  function RenameAll(cols: seq<string>, overlap: set<string>, suffix: string): (r: seq<string>)
    ensures |r| == |cols|
    ensures forall k :: 0 <= k < |cols| ==> r[k] == Rename(cols[k], overlap, suffix)
  {
    seq(|cols|, k requires 0 <= k < |cols| => Rename(cols[k], overlap, suffix))
  }

  /** The names `left` then `right`, each name the two share suffixed by its side's suffix. */
  function Combine(left: seq<string>, right: seq<string>, suffixA: string, suffixB: string): (r: seq<string>)
    ensures |r| == |left| + |right|
  {
    var overlap := Overlap(left, right);
    RenameAll(left, overlap, suffixA) + RenameAll(right, overlap, suffixB)
  }

  /** The output columns: A's, then those B contributes, shared names suffixed. */
  function JoinColumns(a: Table, b: Table, ib: nat, sameKey: bool, suffixA: string, suffixB: string): seq<string> {
    Combine(a.columns, RightColumns(b, ib, sameKey), suffixA, suffixB)
  }

  /** The A side of a row that has no A row: missing values, except that when
      the keys share a name the single key column takes B's key value. */
  function MissingLeft(width: nat, ia: nat, key: Value, sameKey: bool): (r: Row)
    ensures |r| == width
    ensures forall k :: 0 <= k < width ==> r[k] == (if sameKey && k == ia then key else Null)
  {
    if sameKey && ia < width then NullRow(width)[ia := key] else NullRow(width)
  }

  /** The output row for one slot. */
  function JoinRow(a: Table, b: Table, ia: nat, ib: nat, sameKey: bool, x: Slot): Row
    requires x.left.Some? ==> x.left.value < |a.rows|
    requires x.right.Some? ==> x.right.value < |b.rows|
  {
    var leftPart :=
      match x.left
      case Some(i) => a.rows[i]
      case None =>
        if x.right.Some? then MissingLeft(|a.columns|, ia, Cell(b.rows[x.right.value], ib), sameKey)
        else NullRow(|a.columns|);
    var rightPart :=
      match x.right
      case Some(j) => RightCells(b.rows[j], ib, sameKey)
      case None => NullRow(|RightColumns(b, ib, sameKey)|);
    leftPart + rightPart
  }

  /** The joined table, for key columns at positions `ia` of A and `ib` of B. */
  function Join(a: Table, b: Table, ia: nat, ib: nat, sameKey: bool, how: JoinKind,
                suffixA: string, suffixB: string): (t: Table)
    ensures |t.columns| == |a.columns| + |RightColumns(b, ib, sameKey)|
  {
    var slots := Slots(how, Column(a, ia), Column(b, ib));
    Table(JoinColumns(a, b, ib, sameKey, suffixA, suffixB),
          seq(|slots|, k requires 0 <= k < |slots| => JoinRow(a, b, ia, ib, sameKey, slots[k])))
  }

  /** A key argument counts as given when it is neither None nor empty. */
  predicate Provided(key: Option<string>): (r: bool)
    ensures !r <==> key == None || key == Some("")
  {
    key.Some? && key.value != ""
  }

  /** do_merge: refuses a missing or empty key before merging; a key column the
      table does not have is an error too, B's checked first as the data-frame
      library looks up the right key before the left one; otherwise the join. */
  function DoMerge(a: Table, b: Table, keyA: Option<string>, keyB: Option<string>, how: JoinKind,
                   suffixA: string, suffixB: string): (r: Result<Table>)
    ensures r == Err(MissingKeyArgument) <==> !Provided(keyA) || !Provided(keyB)
    ensures r.Ok? <==> Provided(keyA) && Provided(keyB) && keyA.value in a.columns && keyB.value in b.columns
    ensures Provided(keyA) && Provided(keyB) && keyB.value !in b.columns ==> r == Err(ColumnNotFound(keyB.value))
    ensures Provided(keyA) && Provided(keyB) && keyB.value in b.columns && keyA.value !in a.columns
            ==> r == Err(ColumnNotFound(keyA.value))
  {
    if !Provided(keyA) || !Provided(keyB) then Err(MissingKeyArgument)
    else
      match IndexOf(b.columns, keyB.value)
      case None => Err(ColumnNotFound(keyB.value))
      case Some(ib) =>
        match IndexOf(a.columns, keyA.value)
        case None => Err(ColumnNotFound(keyA.value))
        case Some(ia) => Ok(Join(a, b, ia, ib, keyA.value == keyB.value, how, suffixA, suffixB))
  }

  /** The pairs of row positions whose keys are equal, as slots. */
  function MatchSet(ka: seq<Value>, kb: seq<Value>): set<Slot> {
    set i, j | 0 <= i < |ka| && 0 <= j < |kb| && ka[i] == kb[j] :: Slot(Some(i), Some(j))
  }

  /** A sequence without repeated elements has as many distinct elements as it is long. */
  lemma {:induction false} DistinctCard<T>(s: seq<T>)
    requires forall x, y :: 0 <= x < y < |s| ==> s[x] != s[y]
    ensures |set e | e in s| == |s|
  {
    if |s| == 0 {
      assert (set e | e in s) == {};
    } else {
      var n := |s| - 1;
      DistinctCard(s[..n]);
      assert (set e | e in s) == (set e | e in s[..n]) + {s[n]} by {
        assert s == s[..n] + [s[n]];
      }
      assert s[n] !in (set e | e in s[..n]);
    }
  }

  /** Exchanging the sides of every slot of a set keeps its size. */
  lemma {:induction false} SwapImageCard(slots: set<Slot>)
    ensures |set x | x in slots :: Swap(x)| == |slots|
    decreases slots
  {
    if slots != {} {
      var x :| x in slots;
      var rest := slots - {x};
      SwapImageCard(rest);
      assert (set y | y in slots :: Swap(y)) == (set y | y in rest :: Swap(y)) + {Swap(x)};
      assert Swap(x) !in (set y | y in rest :: Swap(y));
    } else {
      assert (set y | y in slots :: Swap(y)) == {};
    }
  }

  /** The inner join has one row per pair of rows with equal keys. */
  lemma InnerSlotsCount(ka: seq<Value>, kb: seq<Value>)
    ensures |InnerSlots(ka, kb)| == |MatchSet(ka, kb)|
  {
    var r := InnerSlots(ka, kb);
    assert (set e | e in r) == MatchSet(ka, kb) by {
      forall x | x in MatchSet(ka, kb) ensures x in r {
        var i, j :| 0 <= i < |ka| && 0 <= j < |kb| && ka[i] == kb[j] && x == Slot(Some(i), Some(j));
        assert InnerPair(ka, kb, x);
      }
      forall x | x in r ensures x in MatchSet(ka, kb) {
        assert InnerPair(ka, kb, x);
        assert x == Slot(Some(x.left.value), Some(x.right.value));
      }
    }
    assert forall x, y :: 0 <= x < y < |r| ==> r[x] != r[y] by {
      forall x, y | 0 <= x < y < |r| ensures r[x] != r[y] {
        assert LeftOrdered(r[x], r[y]);
      }
    }
    DistinctCard(r);
  }

  /** The number of key-equal pairs does not depend on which side is A. */
  lemma MatchSetSymmetric(ka: seq<Value>, kb: seq<Value>)
    ensures |MatchSet(kb, ka)| == |MatchSet(ka, kb)|
  {
    assert MatchSet(kb, ka) == set x | x in MatchSet(ka, kb) :: Swap(x) by {
      forall x | x in MatchSet(kb, ka) ensures x in set y | y in MatchSet(ka, kb) :: Swap(y) {
        var j, i :| 0 <= j < |kb| && 0 <= i < |ka| && kb[j] == ka[i] && x == Slot(Some(j), Some(i));
        assert Slot(Some(i), Some(j)) in MatchSet(ka, kb);
      }
    }
    SwapImageCard(MatchSet(ka, kb));
  }

  /** The left join has the inner join's rows plus one for each A row whose
      key occurs nowhere in B. */
  lemma {:induction false} LeftSlotsCount(ka: seq<Value>, kb: seq<Value>)
    ensures |LeftSlots(ka, kb)| == |InnerSlots(ka, kb)| + |Where(ka, Values(kb), false)|
  {
    if |ka| > 0 {
      var n := |ka| - 1;
      LeftSlotsCount(ka[..n], kb);
      assert Partners(ka, kb, n) == [] <==> ka[n] !in kb;
    }
  }

  /** The right join has one row per key-equal pair plus one for each B row
      whose key occurs nowhere in A. */
  lemma RightSlotsCount(ka: seq<Value>, kb: seq<Value>)
    ensures |RightSlots(ka, kb)| == |MatchSet(ka, kb)| + |Where(kb, Values(ka), false)|
  {
    LeftSlotsCount(kb, ka);
    InnerSlotsCount(kb, ka);
    MatchSetSymmetric(ka, kb);
  }

  /** The outer join has one row per key-equal pair plus one for each row of
      either side whose key occurs nowhere on the other side. */
  lemma OuterSlotsCount(ka: seq<Value>, kb: seq<Value>)
    ensures |OuterSlots(ka, kb)|
         == |MatchSet(ka, kb)| + |Where(ka, Values(kb), false)| + |Where(kb, Values(ka), false)|
  {
    LeftSlotsCount(ka, kb);
    InnerSlotsCount(ka, kb);
  }

  /** Every slot of the join becomes a row of the joined table. */
  lemma JoinHasRow(a: Table, b: Table, ia: nat, ib: nat, sameKey: bool, how: JoinKind,
                   suffixA: string, suffixB: string, x: Slot)
    requires x in Slots(how, Column(a, ia), Column(b, ib))
    ensures JoinRow(a, b, ia, ib, sameKey, x) in Join(a, b, ia, ib, sameKey, how, suffixA, suffixB).rows
  {
    var slots := Slots(how, Column(a, ia), Column(b, ib));
    var k :| 0 <= k < |slots| && slots[k] == x;
    assert Join(a, b, ia, ib, sameKey, how, suffixA, suffixB).rows[k] == JoinRow(a, b, ia, ib, sameKey, x);
  }

  /** Whatever the kind of join, each pair of rows with equal keys gives the
      row made of the A row's cells and the cells B contributes. */
  lemma JoinMatchedRows(a: Table, b: Table, ia: nat, ib: nat, sameKey: bool, how: JoinKind,
                        suffixA: string, suffixB: string)
    ensures forall i, j :: Matches(Column(a, ia), Column(b, ib), i, j) ==>
              a.rows[i] + RightCells(b.rows[j], ib, sameKey) in Join(a, b, ia, ib, sameKey, how, suffixA, suffixB).rows
  {
    var ka, kb := Column(a, ia), Column(b, ib);
    forall i, j | Matches(ka, kb, i, j)
      ensures a.rows[i] + RightCells(b.rows[j], ib, sameKey) in Join(a, b, ia, ib, sameKey, how, suffixA, suffixB).rows
    {
      var x := Slot(Some(i), Some(j));
      assert x in Slots(how, ka, kb) by {
        match how
        case Inner => assert InnerPair(ka, kb, x);
        case Left => assert LeftPair(ka, kb, x);
        case Right => assert RightPair(ka, kb, x);
        case Outer => assert OuterPair(ka, kb, x);
      }
      JoinHasRow(a, b, ia, ib, sameKey, how, suffixA, suffixB, x);
    }
  }

  /** A left or outer join keeps each A row whose key occurs nowhere in B,
      padded with missing values on B's side. */
  lemma JoinUnmatchedLeft(a: Table, b: Table, ia: nat, ib: nat, sameKey: bool, how: JoinKind,
                          suffixA: string, suffixB: string)
    requires how == Left || how == Outer
    ensures forall i :: 0 <= i < |a.rows| && Column(a, ia)[i] !in Column(b, ib) ==>
              a.rows[i] + NullRow(|RightColumns(b, ib, sameKey)|) in Join(a, b, ia, ib, sameKey, how, suffixA, suffixB).rows
  {
    var ka, kb := Column(a, ia), Column(b, ib);
    forall i | 0 <= i < |a.rows| && ka[i] !in kb
      ensures a.rows[i] + NullRow(|RightColumns(b, ib, sameKey)|) in Join(a, b, ia, ib, sameKey, how, suffixA, suffixB).rows
    {
      var x := Slot(Some(i), None);
      assert LeftPair(ka, kb, x);
      JoinHasRow(a, b, ia, ib, sameKey, how, suffixA, suffixB, x);
    }
  }

  /** A right or outer join keeps each B row whose key occurs nowhere in A,
      with a missing A side (which carries B's key when the keys share a name). */
  lemma JoinUnmatchedRight(a: Table, b: Table, ia: nat, ib: nat, sameKey: bool, how: JoinKind,
                           suffixA: string, suffixB: string)
    requires how == Right || how == Outer
    ensures forall j :: 0 <= j < |b.rows| && Column(b, ib)[j] !in Column(a, ia) ==>
              MissingLeft(|a.columns|, ia, Column(b, ib)[j], sameKey) + RightCells(b.rows[j], ib, sameKey)
              in Join(a, b, ia, ib, sameKey, how, suffixA, suffixB).rows
  {
    var ka, kb := Column(a, ia), Column(b, ib);
    forall j | 0 <= j < |b.rows| && kb[j] !in ka
      ensures MissingLeft(|a.columns|, ia, kb[j], sameKey) + RightCells(b.rows[j], ib, sameKey)
              in Join(a, b, ia, ib, sameKey, how, suffixA, suffixB).rows
    {
      var x := Slot(None, Some(j));
      if how == Right {
        assert RightPair(ka, kb, x);
      } else {
        assert OuterPair(ka, kb, x);
      }
      JoinHasRow(a, b, ia, ib, sameKey, how, suffixA, suffixB, x);
    }
  }

  /** `row` is an A row followed by the cells a B row with the same key contributes. */
  ghost predicate PairRow(a: Table, b: Table, ia: nat, ib: nat, sameKey: bool, row: Row) {
    exists i, j :: Matches(Column(a, ia), Column(b, ib), i, j) && row == a.rows[i] + RightCells(b.rows[j], ib, sameKey)
  }

  /** `row` is an A row whose key B lacks, padded with missing values on B's side. */
  ghost predicate UnmatchedLeftRow(a: Table, b: Table, ia: nat, ib: nat, sameKey: bool, row: Row) {
    exists i :: 0 <= i < |a.rows| && Column(a, ia)[i] !in Column(b, ib)
              && row == a.rows[i] + NullRow(|RightColumns(b, ib, sameKey)|)
  }

  /** `row` is a B row whose key A lacks, behind a missing A side. */
  ghost predicate UnmatchedRightRow(a: Table, b: Table, ia: nat, ib: nat, sameKey: bool, row: Row) {
    exists j :: 0 <= j < |b.rows| && Column(b, ib)[j] !in Column(a, ia)
              && row == MissingLeft(|a.columns|, ia, Column(b, ib)[j], sameKey) + RightCells(b.rows[j], ib, sameKey)
  }

  /** Every row of the join comes from a pair of rows with equal keys, or, for
      the kinds that keep them, from a row whose key the other side lacks. */
  lemma JoinRowOrigin(a: Table, b: Table, ia: nat, ib: nat, sameKey: bool, how: JoinKind,
                      suffixA: string, suffixB: string, m: nat)
    requires m < |Join(a, b, ia, ib, sameKey, how, suffixA, suffixB).rows|
    ensures var row := Join(a, b, ia, ib, sameKey, how, suffixA, suffixB).rows[m];
            || PairRow(a, b, ia, ib, sameKey, row)
            || ((how == Left || how == Outer) && UnmatchedLeftRow(a, b, ia, ib, sameKey, row))
            || ((how == Right || how == Outer) && UnmatchedRightRow(a, b, ia, ib, sameKey, row))
  {
    var ka, kb := Column(a, ia), Column(b, ib);
    var slots := Slots(how, ka, kb);
    var x := slots[m];
    assert x in slots;
    var row := JoinRow(a, b, ia, ib, sameKey, x);
    assert Join(a, b, ia, ib, sameKey, how, suffixA, suffixB).rows[m] == row;
    assert OuterPair(ka, kb, x) || RightPair(ka, kb, x) by {
      match how
      case Inner => assert InnerPair(ka, kb, x);
      case Left => assert LeftPair(ka, kb, x);
      case Right => assert RightPair(ka, kb, x);
      case Outer => assert OuterPair(ka, kb, x);
    }
    if x.left.Some? && x.right.Some? {
      var i, j := x.left.value, x.right.value;
      assert Matches(ka, kb, i, j) && row == a.rows[i] + RightCells(b.rows[j], ib, sameKey);
    } else if x.left.Some? {
      var i := x.left.value;
      assert how == Left || how == Outer;
      assert 0 <= i < |a.rows| && ka[i] !in kb && row == a.rows[i] + NullRow(|RightColumns(b, ib, sameKey)|);
    } else {
      var j := x.right.value;
      assert how == Right || how == Outer;
      assert 0 <= j < |b.rows| && kb[j] !in ka
             && row == MissingLeft(|a.columns|, ia, kb[j], sameKey) + RightCells(b.rows[j], ib, sameKey);
    }
  }

  /** A successful do_merge is the join on the first columns named by the keys. */
  lemma DoMergeIsJoin(a: Table, b: Table, keyA: string, keyB: string, how: JoinKind,
                      suffixA: string, suffixB: string, t: Table)
    requires DoMerge(a, b, Some(keyA), Some(keyB), how, suffixA, suffixB) == Ok(t)
    ensures IndexOf(a.columns, keyA).Some? && IndexOf(b.columns, keyB).Some?
    ensures t == Join(a, b, IndexOf(a.columns, keyA).value, IndexOf(b.columns, keyB).value,
                      keyA == keyB, how, suffixA, suffixB)
  {
  }

  /** An inner do_merge has exactly one row per pair of an A row and a B row
      with equal keys: the A row's cells followed by the cells B contributes. */
  lemma InnerJoinRows(a: Table, b: Table, keyA: string, keyB: string, suffixA: string, suffixB: string, t: Table)
    requires DoMerge(a, b, Some(keyA), Some(keyB), Inner, suffixA, suffixB) == Ok(t)
    ensures var ib := IndexOf(b.columns, keyB).value;
            var ka := Column(a, IndexOf(a.columns, keyA).value);
            var kb := Column(b, ib);
            && |t.rows| == |MatchSet(ka, kb)|
            && (forall m :: 0 <= m < |t.rows| ==>
                  exists i, j :: Matches(ka, kb, i, j) && t.rows[m] == a.rows[i] + RightCells(b.rows[j], ib, keyA == keyB))
            && (forall i, j :: Matches(ka, kb, i, j) ==>
                  a.rows[i] + RightCells(b.rows[j], ib, keyA == keyB) in t.rows)
  {
    DoMergeIsJoin(a, b, keyA, keyB, Inner, suffixA, suffixB, t);
    var ia := IndexOf(a.columns, keyA).value;
    var ib := IndexOf(b.columns, keyB).value;
    var ka := Column(a, ia);
    var kb := Column(b, ib);
    var same := keyA == keyB;
    var slots := InnerSlots(ka, kb);
    InnerSlotsCount(ka, kb);
    forall m | 0 <= m < |t.rows|
      ensures exists i, j :: Matches(ka, kb, i, j) && t.rows[m] == a.rows[i] + RightCells(b.rows[j], ib, same)
    {
      assert slots[m] in slots;
      var i, j := slots[m].left.value, slots[m].right.value;
      assert Matches(ka, kb, i, j) && t.rows[m] == a.rows[i] + RightCells(b.rows[j], ib, same);
    }
    JoinMatchedRows(a, b, ia, ib, same, Inner, suffixA, suffixB);
  }

  /** A left do_merge keeps every A row: once with each B row whose key equals
      its own, or once padded with missing values when there is none. */
  lemma LeftJoinRows(a: Table, b: Table, keyA: string, keyB: string, suffixA: string, suffixB: string, t: Table)
    requires DoMerge(a, b, Some(keyA), Some(keyB), Left, suffixA, suffixB) == Ok(t)
    ensures var ia := IndexOf(a.columns, keyA).value;
            var ib := IndexOf(b.columns, keyB).value;
            var ka := Column(a, ia);
            var kb := Column(b, ib);
            && |t.rows| == |MatchSet(ka, kb)| + |Where(ka, Values(kb), false)|
            && (forall m :: 0 <= m < |t.rows| ==>
                  PairRow(a, b, ia, ib, keyA == keyB, t.rows[m]) || UnmatchedLeftRow(a, b, ia, ib, keyA == keyB, t.rows[m]))
            && (forall i, j :: Matches(ka, kb, i, j) ==>
                  a.rows[i] + RightCells(b.rows[j], ib, keyA == keyB) in t.rows)
            && (forall i :: 0 <= i < |a.rows| && ka[i] !in kb ==>
                  a.rows[i] + NullRow(|RightColumns(b, ib, keyA == keyB)|) in t.rows)
  {
    DoMergeIsJoin(a, b, keyA, keyB, Left, suffixA, suffixB, t);
    var ia := IndexOf(a.columns, keyA).value;
    var ib := IndexOf(b.columns, keyB).value;
    var same := keyA == keyB;
    LeftSlotsCount(Column(a, ia), Column(b, ib));
    InnerSlotsCount(Column(a, ia), Column(b, ib));
    forall m | 0 <= m < |t.rows|
      ensures PairRow(a, b, ia, ib, same, t.rows[m]) || UnmatchedLeftRow(a, b, ia, ib, same, t.rows[m])
    {
      JoinRowOrigin(a, b, ia, ib, same, Left, suffixA, suffixB, m);
    }
    JoinMatchedRows(a, b, ia, ib, same, Left, suffixA, suffixB);
    JoinUnmatchedLeft(a, b, ia, ib, same, Left, suffixA, suffixB);
  }

  /** A right do_merge keeps every B row: once with each A row whose key equals
      its own, or once with a missing A side when there is none. */
  lemma RightJoinRows(a: Table, b: Table, keyA: string, keyB: string, suffixA: string, suffixB: string, t: Table)
    requires DoMerge(a, b, Some(keyA), Some(keyB), Right, suffixA, suffixB) == Ok(t)
    ensures var ia := IndexOf(a.columns, keyA).value;
            var ib := IndexOf(b.columns, keyB).value;
            var ka := Column(a, ia);
            var kb := Column(b, ib);
            && |t.rows| == |MatchSet(ka, kb)| + |Where(kb, Values(ka), false)|
            && (forall m :: 0 <= m < |t.rows| ==>
                  PairRow(a, b, ia, ib, keyA == keyB, t.rows[m]) || UnmatchedRightRow(a, b, ia, ib, keyA == keyB, t.rows[m]))
            && (forall i, j :: Matches(ka, kb, i, j) ==>
                  a.rows[i] + RightCells(b.rows[j], ib, keyA == keyB) in t.rows)
            && (forall j :: 0 <= j < |b.rows| && kb[j] !in ka ==>
                  MissingLeft(|a.columns|, ia, kb[j], keyA == keyB) + RightCells(b.rows[j], ib, keyA == keyB)
                  in t.rows)
  {
    DoMergeIsJoin(a, b, keyA, keyB, Right, suffixA, suffixB, t);
    var ia := IndexOf(a.columns, keyA).value;
    var ib := IndexOf(b.columns, keyB).value;
    var same := keyA == keyB;
    RightSlotsCount(Column(a, ia), Column(b, ib));
    forall m | 0 <= m < |t.rows|
      ensures PairRow(a, b, ia, ib, same, t.rows[m]) || UnmatchedRightRow(a, b, ia, ib, same, t.rows[m])
    {
      JoinRowOrigin(a, b, ia, ib, same, Right, suffixA, suffixB, m);
    }
    JoinMatchedRows(a, b, ia, ib, same, Right, suffixA, suffixB);
    JoinUnmatchedRight(a, b, ia, ib, same, Right, suffixA, suffixB);
  }

  /** The outer join of A and B on columns `ia` and `ib`, stated row by row. */
  lemma OuterJoinFacts(a: Table, b: Table, ia: nat, ib: nat, same: bool, suffixA: string, suffixB: string)
    ensures var t := Join(a, b, ia, ib, same, Outer, suffixA, suffixB);
            var ka, kb := Column(a, ia), Column(b, ib);
            && |t.rows| == |MatchSet(ka, kb)| + |Where(ka, Values(kb), false)| + |Where(kb, Values(ka), false)|
            && (forall m :: 0 <= m < |t.rows| ==>
                  || PairRow(a, b, ia, ib, same, t.rows[m])
                  || UnmatchedLeftRow(a, b, ia, ib, same, t.rows[m])
                  || UnmatchedRightRow(a, b, ia, ib, same, t.rows[m]))
            && (forall i, j :: Matches(ka, kb, i, j) ==> a.rows[i] + RightCells(b.rows[j], ib, same) in t.rows)
            && (forall i :: 0 <= i < |a.rows| && ka[i] !in kb ==>
                  a.rows[i] + NullRow(|RightColumns(b, ib, same)|) in t.rows)
            && (forall j :: 0 <= j < |b.rows| && kb[j] !in ka ==>
                  MissingLeft(|a.columns|, ia, kb[j], same) + RightCells(b.rows[j], ib, same) in t.rows)
  {
    var t := Join(a, b, ia, ib, same, Outer, suffixA, suffixB);
    var ka, kb := Column(a, ia), Column(b, ib);
    OuterSlotsCount(ka, kb);
    forall m | 0 <= m < |t.rows|
      ensures || PairRow(a, b, ia, ib, same, t.rows[m])
              || UnmatchedLeftRow(a, b, ia, ib, same, t.rows[m])
              || UnmatchedRightRow(a, b, ia, ib, same, t.rows[m])
    {
      JoinRowOrigin(a, b, ia, ib, same, Outer, suffixA, suffixB, m);
    }
    JoinMatchedRows(a, b, ia, ib, same, Outer, suffixA, suffixB);
    JoinUnmatchedLeft(a, b, ia, ib, same, Outer, suffixA, suffixB);
    JoinUnmatchedRight(a, b, ia, ib, same, Outer, suffixA, suffixB);
  }

  /** An outer do_merge keeps every row of both sides: the key-equal pairs, and
      each row whose key occurs nowhere on the other side, padded. */
  lemma OuterJoinRows(a: Table, b: Table, keyA: string, keyB: string, suffixA: string, suffixB: string, t: Table)
    requires DoMerge(a, b, Some(keyA), Some(keyB), Outer, suffixA, suffixB) == Ok(t)
    ensures var ia := IndexOf(a.columns, keyA).value;
            var ib := IndexOf(b.columns, keyB).value;
            var ka := Column(a, ia);
            var kb := Column(b, ib);
            && |t.rows| == |MatchSet(ka, kb)| + |Where(ka, Values(kb), false)| + |Where(kb, Values(ka), false)|
            && (forall m :: 0 <= m < |t.rows| ==>
                  || PairRow(a, b, ia, ib, keyA == keyB, t.rows[m])
                  || UnmatchedLeftRow(a, b, ia, ib, keyA == keyB, t.rows[m])
                  || UnmatchedRightRow(a, b, ia, ib, keyA == keyB, t.rows[m]))
            && (forall i, j :: Matches(ka, kb, i, j) ==>
                  a.rows[i] + RightCells(b.rows[j], ib, keyA == keyB) in t.rows)
            && (forall i :: 0 <= i < |a.rows| && ka[i] !in kb ==>
                  a.rows[i] + NullRow(|RightColumns(b, ib, keyA == keyB)|) in t.rows)
            && (forall j :: 0 <= j < |b.rows| && kb[j] !in ka ==>
                  MissingLeft(|a.columns|, ia, kb[j], keyA == keyB) + RightCells(b.rows[j], ib, keyA == keyB)
                  in t.rows)
  {
    DoMergeIsJoin(a, b, keyA, keyB, Outer, suffixA, suffixB, t);
    OuterJoinFacts(a, b, IndexOf(a.columns, keyA).value, IndexOf(b.columns, keyB).value, keyA == keyB, suffixA, suffixB);
  }

  /** Each output row of rows with one cell per column has one cell per output column. */
  lemma JoinRowLength(a: Table, b: Table, ia: nat, ib: nat, sameKey: bool, x: Slot)
    requires WellFormed(a) && WellFormed(b)
    requires x.left.Some? ==> x.left.value < |a.rows|
    requires x.right.Some? ==> x.right.value < |b.rows|
    ensures |JoinRow(a, b, ia, ib, sameKey, x)| == |a.columns| + |RightColumns(b, ib, sameKey)|
  {
    if x.left.Some? {
      assert a.rows[x.left.value] in a.rows;
    }
    if x.right.Some? {
      assert b.rows[x.right.value] in b.rows;
    }
  }

  /** Merging tables whose rows have one cell per column gives such a table. */
  lemma MergeWellFormed(a: Table, b: Table, keyA: string, keyB: string, how: JoinKind,
                        suffixA: string, suffixB: string, t: Table)
    requires WellFormed(a) && WellFormed(b)
    requires DoMerge(a, b, Some(keyA), Some(keyB), how, suffixA, suffixB) == Ok(t)
    ensures WellFormed(t)
  {
    DoMergeIsJoin(a, b, keyA, keyB, how, suffixA, suffixB, t);
    var ia := IndexOf(a.columns, keyA).value;
    var ib := IndexOf(b.columns, keyB).value;
    var same := keyA == keyB;
    var slots := Slots(how, Column(a, ia), Column(b, ib));
    forall k | 0 <= k < |t.rows| ensures |t.rows[k]| == |t.columns| {
      assert slots[k] in slots;
      JoinRowLength(a, b, ia, ib, same, slots[k]);
    }
  }

  /** A name found on only one side is kept as it is, and a name found on
      both sides appears twice, once with each side's suffix; nothing else appears. */
  lemma CombineNames(left: seq<string>, right: seq<string>, suffixA: string, suffixB: string)
    ensures var cols := Combine(left, right, suffixA, suffixB);
            && (forall c :: c in left && c !in right ==> c in cols)
            && (forall c :: c in right && c !in left ==> c in cols)
            && (forall c :: c in left && c in right ==> c + suffixA in cols && c + suffixB in cols)
            && (forall c :: c in cols ==>
                  || (c in left && c !in right)
                  || (c in right && c !in left)
                  || exists d :: d in left && d in right && (c == d + suffixA || c == d + suffixB))
  {
    var overlap := Overlap(left, right);
    var ra := RenameAll(left, overlap, suffixA);
    var rb := RenameAll(right, overlap, suffixB);
    var cols := ra + rb;
    forall c | c in left ensures Rename(c, overlap, suffixA) in cols {
      var k :| 0 <= k < |left| && left[k] == c;
      assert cols[k] == ra[k];
    }
    forall c | c in right ensures Rename(c, overlap, suffixB) in cols {
      var k :| 0 <= k < |right| && right[k] == c;
      assert cols[|ra| + k] == rb[k];
    }
    forall c | c in cols
      ensures || (c in left && c !in right)
              || (c in right && c !in left)
              || exists d :: d in left && d in right && (c == d + suffixA || c == d + suffixB)
    {
      var k :| 0 <= k < |cols| && cols[k] == c;
      if k < |ra| {
        assert left[k] in left;
      } else {
        assert right[k - |ra|] in right;
      }
    }
  }

  /** The output columns are A's columns combined with those B contributes:
      all of B's, less its key column when both keys have the same name. */
  lemma MergeColumnNames(a: Table, b: Table, keyA: string, keyB: string, how: JoinKind,
                         suffixA: string, suffixB: string, t: Table)
    requires DoMerge(a, b, Some(keyA), Some(keyB), how, suffixA, suffixB) == Ok(t)
    ensures var ib := IndexOf(b.columns, keyB).value;
            var right := if keyA == keyB then RemoveAt(b.columns, ib) else b.columns;
            && t.columns == Combine(a.columns, right, suffixA, suffixB)
            && |t.columns| == |a.columns| + |b.columns| - (if keyA == keyB then 1 else 0)
  {
    DoMergeIsJoin(a, b, keyA, keyB, how, suffixA, suffixB, t);
  }

  /** Keys 1, 2, 3 against keys 2, 3, 4 form two key-equal pairs. */
  lemma ExampleMatchCount(ka: seq<Value>, kb: seq<Value>)
    requires |ka| == 3 && ka[0] == Num(1) && ka[1] == Num(2) && ka[2] == Num(3)
    requires |kb| == 3 && kb[0] == Num(2) && kb[1] == Num(3) && kb[2] == Num(4)
    ensures |MatchSet(ka, kb)| == 2
  {
    assert MatchSet(ka, kb) == {Slot(Some(1), Some(0)), Slot(Some(2), Some(1))} by {
      forall x | x in MatchSet(ka, kb) ensures x == Slot(Some(1), Some(0)) || x == Slot(Some(2), Some(1)) {
        var i, j :| 0 <= i < |ka| && 0 <= j < |kb| && ka[i] == kb[j] && x == Slot(Some(i), Some(j));
      }
      assert Slot(Some(1), Some(0)) in MatchSet(ka, kb);
      assert Slot(Some(2), Some(1)) in MatchSet(ka, kb);
    }
  }

  /** With a shared key name, the example's columns combine to key, value_a, value_b. */
  lemma ExampleColumns(colsA: seq<string>, colsB: seq<string>)
    requires colsA == ["key", "value_a"] && colsB == ["key", "value_b"]
    ensures Combine(colsA, RemoveAt(colsB, 0), "_A", "_B") == ["key", "value_a", "value_b"]
  {
    assert RemoveAt(colsB, 0) == ["value_b"];
    assert Overlap(colsA, ["value_b"]) == {};
  }

  /** The example's tables, as the inner-join test builds them. */
  predicate ExampleTables(a: Table, b: Table) {
    && a == Table(["key", "value_a"], [[Num(1), Text("A")], [Num(2), Text("B")], [Num(3), Text("C")]])
    && b == Table(["key", "value_b"], [[Num(2), Text("X")], [Num(3), Text("Y")], [Num(4), Text("Z")]])
  }

  /** The example's inner join has two rows, for keys 2 and 3. */
  lemma ExampleRows(a: Table, b: Table, t: Table)
    requires ExampleTables(a, b)
    requires DoMerge(a, b, Some("key"), Some("key"), Inner, "_A", "_B") == Ok(t)
    ensures |t.rows| == 2
  {
    assert IndexOf(a.columns, "key") == Some(0);
    assert IndexOf(b.columns, "key") == Some(0);
    assert |t.rows| == |MatchSet(Column(a, 0), Column(b, 0))| by {
      InnerJoinRows(a, b, "key", "key", "_A", "_B", t);
    }
    var ka, kb := Column(a, 0), Column(b, 0);
    assert ka[0] == Num(1) && ka[1] == Num(2) && ka[2] == Num(3);
    assert kb[0] == Num(2) && kb[1] == Num(3) && kb[2] == Num(4);
    ExampleMatchCount(ka, kb);
  }

  /** The example's inner join has the columns key, value_a, value_b. */
  lemma ExampleJoinColumns(a: Table, b: Table, t: Table)
    requires ExampleTables(a, b)
    requires DoMerge(a, b, Some("key"), Some("key"), Inner, "_A", "_B") == Ok(t)
    ensures t.columns == ["key", "value_a", "value_b"]
  {
    assert IndexOf(b.columns, "key") == Some(0);
    var colsA, colsB := a.columns, b.columns;
    assert Combine(colsA, RemoveAt(colsB, 0), "_A", "_B") == ["key", "value_a", "value_b"] by {
      ExampleColumns(colsA, colsB);
    }
    MergeColumnNames(a, b, "key", "key", Inner, "_A", "_B", t);
  }

  /** The concrete case: A's keys 1, 2, 3 against B's keys 2, 3, 4 on a shared
      key name give two rows (keys 2 and 3) carrying both value columns. */
  lemma InnerJoinExample(a: Table, b: Table, t: Table)
    requires a == Table(["key", "value_a"], [[Num(1), Text("A")], [Num(2), Text("B")], [Num(3), Text("C")]])
    requires b == Table(["key", "value_b"], [[Num(2), Text("X")], [Num(3), Text("Y")], [Num(4), Text("Z")]])
    requires DoMerge(a, b, Some("key"), Some("key"), Inner, "_A", "_B") == Ok(t)
    ensures |t.rows| == 2
    ensures "value_a" in t.columns && "value_b" in t.columns
  {
    ExampleRows(a, b, t);
    ExampleJoinColumns(a, b, t);
    assert t.columns[1] == "value_a" && t.columns[2] == "value_b";
  }
}
