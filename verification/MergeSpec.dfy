/** What a K-way merge of keyed rows may emit, and when it must stop: the value-level theory. */
module MergeSpec {
  import opened SortKey

  type Row = seq<SortKeyValue>

  /** The sort columns of a row; the scan resolves them within the schema. */
  function KeyOf(row: Row, cols: seq<nat>): (key: Key)
    ensures |key| == |cols|
  {
    seq(|cols|, i requires 0 <= i < |cols| => if cols[i] < |row| then row[cols[i]] else Null)
  }

  predicate RowLe(a: Row, b: Row, cols: seq<nat>) {
    Le(KeyOf(a, cols), KeyOf(b, cols))
  }

  /** The value in a column; a column the row does not have counts as null. */
  function ValueIn(row: Row, c: nat): SortKeyValue {
    if c < |row| then row[c] else Null
  }

  /** At sort column `i` the rows differ for the first time, and there `a` has the earlier value. */
  ghost predicate EarlierIn(a: Row, b: Row, cols: seq<nat>, i: nat) {
    i < |cols| && (forall j | 0 <= j < i :: ValueIn(a, cols[j]) == ValueIn(b, cols[j])) && Before(ValueIn(a, cols[i]), ValueIn(b, cols[i]))
  }

  /** The rows agree on the sort columns, or `a` is earlier at the first on which they do not. */
  ghost predicate NotAfter(a: Row, b: Row, cols: seq<nat>) {
    || (forall i | 0 <= i < |cols| :: ValueIn(a, cols[i]) == ValueIn(b, cols[i]))
    || (exists i: nat :: EarlierIn(a, b, cols, i))
  }

  /** The order of rows is that of their sort columns, one after the other. */
  lemma RowLeMeans(a: Row, b: Row, cols: seq<nat>)
    ensures RowLe(a, b, cols) <==> NotAfter(a, b, cols)
  {
    hide Before, Le;
    var x, y := KeyOf(a, cols), KeyOf(b, cols);
    LeMeans(x, y);
    assert forall i | 0 <= i < |cols| :: x[i] == ValueIn(a, cols[i]) && y[i] == ValueIn(b, cols[i]);
    forall i: nat ensures EarlierAt(x, y, i) <==> EarlierIn(a, b, cols, i) {
      if i < |cols| {
        assert x[..i] == y[..i] <==> forall j | 0 <= j < i :: x[j] == y[j] by {
          if x[..i] == y[..i] {
            assert forall j | 0 <= j < i :: x[..i][j] == x[j] && y[..i][j] == y[j];
          }
        }
      }
    }
    assert x == y <==> forall i | 0 <= i < |cols| :: x[i] == y[i];
  }

  /** No row is after a later one. */
  ghost predicate Sorted(rows: seq<Row>, cols: seq<nat>) {
    forall a, b | 0 <= a < b < |rows| :: NotAfter(rows[a], rows[b], cols)
  }

  lemma InOrderMeans(rows: seq<Row>, cols: seq<nat>)
    ensures InOrder(rows, cols) <==> Sorted(rows, cols)
  {
    hide RowLe, NotAfter;
    if InOrder(rows, cols) {
      forall a, b | 0 <= a < b < |rows| ensures NotAfter(rows[a], rows[b], cols) {
        InOrderPairs(rows, cols, a, b);
        RowLeMeans(rows[a], rows[b], cols);
      }
    } else {
      var j :| 0 <= j < |rows| - 1 && !RowLe(rows[j], rows[j + 1], cols);
      RowLeMeans(rows[j], rows[j + 1], cols);
    }
  }

  /** Every row is at least the one before it. */
  ghost predicate InOrder(rows: seq<Row>, cols: seq<nat>) {
    forall j | 0 <= j < |rows| - 1 :: RowLe(rows[j], rows[j + 1], cols)
  }

  /** Neighbours in order means all pairs in order. */
  lemma {:induction false} InOrderPairs(rows: seq<Row>, cols: seq<nat>, a: nat, b: nat)
    requires InOrder(rows, cols) && a <= b < |rows|
    ensures RowLe(rows[a], rows[b], cols)
  {
    if a == b {
      LeTotal(KeyOf(rows[a], cols), KeyOf(rows[a], cols));
    } else {
      InOrderPairs(rows, cols, a, b - 1);
      assert RowLe(rows[b - 1], rows[b - 1 + 1], cols);
      LeTrans(KeyOf(rows[a], cols), KeyOf(rows[b - 1], cols), KeyOf(rows[b], cols));
    }
  }

  /** One emitted row and the source it came from. */
  datatype Emit = Emit(source: nat, row: Row)

  ghost function Emitted(out: seq<Emit>): (rows: seq<Row>)
    ensures |rows| == |out|
  {
    seq(|out|, k requires 0 <= k < |out| => out[k].row)
  }

  /** The rows of source `i` among those emitted, in order of emission. */
  ghost function Mine(out: seq<Emit>, i: nat): seq<Row> {
    if out == [] then []
    else
      var last := out[|out| - 1];
      Mine(out[..|out| - 1], i) + if last.source == i then [last.row] else []
  }

  lemma MineSnoc(out: seq<Emit>, e: Emit, i: nat)
    ensures Mine(out + [e], i) == Mine(out, i) + if e.source == i then [e.row] else []
  {
    assert (out + [e])[..|out|] == out;
  }

  /** A source's share of a sorted output is sorted, and its last row is at most the output's last. */
  lemma {:induction false} MineInOrder(out: seq<Emit>, cols: seq<nat>, i: nat)
    requires InOrder(Emitted(out), cols)
    ensures InOrder(Mine(out, i), cols)
    ensures Mine(out, i) != [] ==> RowLe(Mine(out, i)[|Mine(out, i)| - 1], out[|out| - 1].row, cols)
  {
    if out != [] {
      var front, last := out[..|out| - 1], out[|out| - 1];
      assert forall k | 0 <= k < |front| :: Emitted(front)[k] == Emitted(out)[k];
      MineInOrder(front, cols, i);
      LeTotal(KeyOf(last.row, cols), KeyOf(last.row, cols));
      var was := Mine(front, i);
      if was != [] {
        assert RowLe(Emitted(out)[|front| - 1], Emitted(out)[|front| - 1 + 1], cols);
        LeTrans(KeyOf(was[|was| - 1], cols), KeyOf(front[|front| - 1].row, cols), KeyOf(last.row, cols));
      }
    }
  }

  ghost function Union(all: seq<seq<Row>>): multiset<Row> {
    if all == [] then multiset{} else Union(all[..|all| - 1]) + multiset(all[|all| - 1])
  }

  ghost function Shares(out: seq<Emit>, n: nat): (shares: seq<seq<Row>>)
    ensures |shares| == n
  {
    seq(n, i requires 0 <= i < n => Mine(out, i))
  }

  lemma {:induction false} UnionAdd(all: seq<seq<Row>>, i: nat, row: Row)
    requires i < |all|
    ensures Union(all[i := all[i] + [row]]) == Union(all) + multiset{row}
  {
    var last := |all| - 1;
    var more := all[i := all[i] + [row]];
    if i < last {
      UnionAdd(all[..last], i, row);
      assert more[..last] == all[..last][i := all[i] + [row]];
    } else {
      assert more[..last] == all[..last];
    }
  }

  lemma {:induction false} UnionDrop(all: seq<seq<Row>>, i: nat)
    requires i < |all| && all[i] != []
    ensures |Union(all[i := all[i][1..]])| < |Union(all)|
  {
    var last := |all| - 1;
    var less := all[i := all[i][1..]];
    if i < last {
      UnionDrop(all[..last], i);
      assert less[..last] == all[..last][i := all[i][1..]];
    } else {
      assert less[..last] == all[..last];
      assert all[i] == [all[i][0]] + all[i][1..];
    }
  }

  /** The output is the multiset union of the sources' shares. */
  lemma {:induction false} UnionOfShares(out: seq<Emit>, n: nat)
    requires forall k | 0 <= k < |out| :: out[k].source < n
    ensures multiset(Emitted(out)) == Union(Shares(out, n))
  {
    if out == [] {
      UnionOfNothing(n);
      assert Shares(out, n) == seq(n, i => []);
    } else {
      var front, last := out[..|out| - 1], out[|out| - 1];
      UnionOfShares(front, n);
      assert Emitted(out) == Emitted(front) + [last.row];
      var was := Shares(front, n);
      assert out == front + [last];
      forall i | 0 <= i < n ensures Mine(out, i) == if last.source == i then was[i] + [last.row] else was[i] {
        MineSnoc(front, last, i);
      }
      assert Shares(out, n) == was[last.source := was[last.source] + [last.row]];
      UnionAdd(was, last.source, last.row);
    }
  }

  lemma {:induction false} UnionOfNothing(n: nat)
    ensures Union(seq(n, i => [])) == multiset{}
  {
    if n > 0 {
      UnionOfNothing(n - 1);
      var all: seq<seq<Row>> := seq(n, i => []);
      assert all[..n - 1] == seq(n - 1, i => []);
    }
  }

  // ---------- the invariant of a merge -----------------------------------------

  /** The last row emitted is at most the head of source `i`. */
  ghost predicate HeadAfterLast(out: seq<Emit>, rest: seq<seq<Row>>, cols: seq<nat>, i: nat)
    requires i < |rest|
  {
    out != [] && rest[i] != [] ==> RowLe(out[|out| - 1].row, rest[i][0], cols)
  }

  /** No head among the sources is below that of `i`. */
  ghost predicate IsLeast(rest: seq<seq<Row>>, cols: seq<nat>, i: nat)
    requires i < |rest|
  {
    rest[i] != [] && forall j | 0 <= j < |rest| && rest[j] != [] :: RowLe(rest[i][0], rest[j][0], cols)
  }

  /**
   `out` is sorted, each source is what it emitted followed by what it still holds, and only the
   source that emitted last can have a head below the last row.
   */
  ghost predicate Merging(all: seq<seq<Row>>, out: seq<Emit>, rest: seq<seq<Row>>, cols: seq<nat>) {
    && |rest| == |all|
    && (forall k | 0 <= k < |out| :: out[k].source < |all|)
    && (forall i | 0 <= i < |all| :: Mine(out, i) + rest[i] == all[i])
    && InOrder(Emitted(out), cols)
    && (forall i | 0 <= i < |all| && out != [] && i != out[|out| - 1].source :: HeadAfterLast(out, rest, cols, i))
  }

  lemma MergingStarts(all: seq<seq<Row>>, cols: seq<nat>)
    ensures Merging(all, [], all, cols)
  {
  }

  /** Emitting a least head that is not below the last row keeps the invariant. */
  lemma MergingStep(all: seq<seq<Row>>, out: seq<Emit>, rest: seq<seq<Row>>, cols: seq<nat>, i: nat)
    requires Merging(all, out, rest, cols) && i < |rest| && IsLeast(rest, cols, i) && HeadAfterLast(out, rest, cols, i)
    ensures Merging(all, out + [Emit(i, rest[i][0])], rest[i := rest[i][1..]], cols)
  {
    hide RowLe;
    var e := Emit(i, rest[i][0]);
    var now, left := out + [e], rest[i := rest[i][1..]];
    forall k | 0 <= k < |all| ensures Mine(now, k) + left[k] == all[k] {
      MineSnoc(out, e, k);
      if k == i {
        assert rest[i] == [rest[i][0]] + rest[i][1..];
        assert Mine(out, i) + [rest[i][0]] + rest[i][1..] == Mine(out, i) + rest[i];
      }
    }
    forall j | 0 <= j < |now| - 1 ensures RowLe(Emitted(now)[j], Emitted(now)[j + 1], cols) {
      if j < |out| - 1 {
        assert Emitted(now)[j] == Emitted(out)[j] && Emitted(now)[j + 1] == Emitted(out)[j + 1];
      }
    }
  }

  /** Source `i` has a row below the one before it, and has emitted just that one. */
  ghost predicate BreaksOrder(all: seq<seq<Row>>, out: seq<Emit>, cols: seq<nat>, i: nat) {
    && i < |all| && out != [] && out[|out| - 1].source == i
    && var p := |Mine(out, i)|;
       0 < p < |all[i]| && all[i][p - 1] == out[|out| - 1].row && !RowLe(all[i][p - 1], all[i][p], cols)
  }

  /** A least head is below the last row exactly when the source that emitted last breaks its own order. */
  lemma StopsAtInversion(all: seq<seq<Row>>, out: seq<Emit>, rest: seq<seq<Row>>, cols: seq<nat>, i: nat)
    requires Merging(all, out, rest, cols) && i < |rest| && IsLeast(rest, cols, i)
    ensures !HeadAfterLast(out, rest, cols, i) <==> BreaksOrder(all, out, cols, i)
    ensures forall j | 0 <= j < |all| :: BreaksOrder(all, out, cols, j) ==> j == i
  {
    forall j | 0 <= j < |all| && out != [] && out[|out| - 1].source == j
      ensures BreaksOrder(all, out, cols, j) <==> !HeadAfterLast(out, rest, cols, j)
    {
      var front, last := out[..|out| - 1], out[|out| - 1];
      assert out == front + [last];
      MineSnoc(front, last, j);
      assert all[j][|Mine(out, j)| - 1] == (Mine(out, j) + rest[j])[|Mine(out, j)| - 1];
    }
    forall j | 0 <= j < |all| && BreaksOrder(all, out, cols, j) ensures j == i {
      LeastIsLast(all, out, rest, cols, i, j);
    }
  }

  /** While source `j` has a head below the last row, no other head is least. */
  lemma LeastIsLast(all: seq<seq<Row>>, out: seq<Emit>, rest: seq<seq<Row>>, cols: seq<nat>, i: nat, j: nat)
    requires Merging(all, out, rest, cols) && i < |rest| && j < |rest| && IsLeast(rest, cols, i)
    requires !HeadAfterLast(out, rest, cols, j)
    ensures i == j
  {
    if i != j {
      assert HeadAfterLast(out, rest, cols, i);
      LeTrans(KeyOf(out[|out| - 1].row, cols), KeyOf(rest[i][0], cols), KeyOf(rest[j][0], cols));
    }
  }

  /** A merge that has emptied its sources has emitted them all, in order, and they were all in order. */
  lemma MergeComplete(all: seq<seq<Row>>, out: seq<Emit>, rest: seq<seq<Row>>, cols: seq<nat>)
    requires Merging(all, out, rest, cols) && forall i | 0 <= i < |rest| :: rest[i] == []
    ensures multiset(Emitted(out)) == Union(all)
    ensures forall i | 0 <= i < |all| :: Mine(out, i) == all[i] && InOrder(all[i], cols)
  {
    forall i | 0 <= i < |all| ensures Mine(out, i) == all[i] && InOrder(all[i], cols) {
      assert Mine(out, i) + [] == all[i];
      MineInOrder(out, cols, i);
    }
    UnionOfShares(out, |all|);
    assert Shares(out, |all|) == all;
  }
}
