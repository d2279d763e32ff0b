/**
 Cells, columnar batches and per-blob edits, together with the whole-blob meaning of a set of
 edits: override the updated rows, then drop the deleted ones.
 */
module Rows {
  import opened Wrappers

  datatype Cell = Null | Datum(word: int)

  type Row = seq<Cell>

  /** An Arrow array. */
  type Column = seq<Cell>

  /** A record batch; `numRows` is kept apart because a batch may have no columns. */
  datatype Batch = Batch(columns: seq<Column>, numRows: nat) {
    ghost predicate Valid() {
      forall c | 0 <= c < |columns| :: |columns[c]| == numRows
    }

    ghost function RowAt(i: nat): (row: Row)
      requires Valid() && i < numRows
    {
      seq(|columns|, c requires 0 <= c < |columns| => columns[c][i])
    }

    ghost function Rows(): (rows: seq<Row>)
      requires Valid()
      ensures |rows| == numRows
    {
      seq(numRows, i requires 0 <= i < numRows => RowAt(i))
    }
  }

  /** `values[c]` is a one-row array that replaces column `c`, or `None` to leave it. */
  datatype RowOverride = RowOverride(values: seq<Option<Column>>) {
    predicate Touches(c: nat) {
      c < |values| && values[c].Some?
    }
  }

  datatype BlobEdits = BlobEdits(deletes: set<nat>, updates: map<nat, RowOverride>)

  const NO_EDITS := BlobEdits({}, map[])

  /** The cell of column `c` in absolute row `abs` once the updates are applied. */
  function NewCell(was: Cell, abs: nat, c: nat, updates: map<nat, RowOverride>): Cell {
    if abs in updates && updates[abs].Touches(c) && |updates[abs].values[c].value| == 1
    then updates[abs].values[c].value[0]
    else was
  }

  ghost function NewRow(row: Row, abs: nat, updates: map<nat, RowOverride>): Row {
    seq(|row|, c requires 0 <= c < |row| => NewCell(row[c], abs, c, updates))
  }

  /** What absolute row `abs` contributes to the rewritten blob: nothing, or one row. */
  ghost function EditRow(row: Row, abs: nat, edits: BlobEdits): seq<Row> {
    if abs in edits.deletes then [] else [NewRow(row, abs, edits.updates)]
  }

  /** The rewritten rows of a run of rows whose first absolute row is `base`. */
  ghost function EditRows(rows: seq<Row>, base: nat, edits: BlobEdits): seq<Row> {
    if rows == [] then [] else EditRow(rows[0], base, edits) + EditRows(rows[1..], base + 1, edits)
  }

  lemma {:induction false} EditRowsAppend(a: seq<Row>, b: seq<Row>, base: nat, edits: BlobEdits)
    ensures EditRows(a + b, base, edits) == EditRows(a, base, edits) + EditRows(b, base + |a|, edits)
  {
    if a == [] {
      assert a + b == b;
    } else {
      assert (a + b)[1..] == a[1..] + b;
      EditRowsAppend(a[1..], b, base + 1, edits);
    }
  }

  /** Only the edits that fall on the run matter. */
  lemma {:induction false} EditRowsLocal(rows: seq<Row>, base: nat, e: BlobEdits, f: BlobEdits)
    requires forall k | base <= k < base + |rows| ::
               && (k in e.deletes <==> k in f.deletes)
               && (k in e.updates <==> k in f.updates)
               && (k in e.updates ==> e.updates[k] == f.updates[k])
    ensures EditRows(rows, base, e) == EditRows(rows, base, f)
  {
    if rows != [] {
      EditRowsLocal(rows[1..], base + 1, e, f);
      assert NewRow(rows[0], base, e.updates) == NewRow(rows[0], base, f.updates);
    }
  }

  lemma {:induction false} EditRowsNothing(rows: seq<Row>, base: nat, edits: BlobEdits)
    requires forall k | base <= k < base + |rows| :: k !in edits.deletes && k !in edits.updates
    ensures EditRows(rows, base, edits) == rows
  {
    if rows != [] {
      EditRowsNothing(rows[1..], base + 1, edits);
      assert NewRow(rows[0], base, edits.updates) == rows[0];
    }
  }

  /** A blob with rows is rewritten to nothing exactly when every row is deleted. */
  lemma {:induction false} EditRowsEmpty(rows: seq<Row>, base: nat, edits: BlobEdits)
    ensures EditRows(rows, base, edits) == [] <==>
            forall k | base <= k < base + |rows| :: k in edits.deletes
  {
    if rows != [] {
      EditRowsEmpty(rows[1..], base + 1, edits);
      if base in edits.deletes && EditRows(rows[1..], base + 1, edits) == [] {
        forall k | base <= k < base + |rows| ensures k in edits.deletes {
          assert k == base || base + 1 <= k < base + 1 + |rows[1..]|;
        }
      }
    }
  }

  // ---------- what an edit is ------------------------------------------------------------

  /** How many of the `n` rows from `base` on are not deleted. */
  ghost function Undeleted(base: nat, n: nat, deletes: set<nat>): nat {
    if n == 0 then 0 else Undeleted(base, n - 1, deletes) + if base + n - 1 in deletes then 0 else 1
  }

  /** `now` is `was` with the cells that absolute row `abs` is given, and no others, replaced. */
  ghost predicate RowEdited(was: Row, now: Row, abs: nat, updates: map<nat, RowOverride>) {
    && |now| == |was|
    && forall c | 0 <= c < |was| ::
         if abs in updates && c < |updates[abs].values| && updates[abs].values[c].Some?
         then updates[abs].values[c].value == [now[c]]
         else now[c] == was[c]
  }

  /** `now` holds exactly the rows of `was` that are not deleted, in order, each edited. */
  ghost predicate IsEdit(was: seq<Row>, base: nat, edits: BlobEdits, now: seq<Row>) {
    && |now| == Undeleted(base, |was|, edits.deletes)
    && forall k | 0 <= k < |was| && base + k !in edits.deletes ::
         && Undeleted(base, k, edits.deletes) < |now|
         && RowEdited(was[k], now[Undeleted(base, k, edits.deletes)], base + k, edits.updates)
  }

  /** Every value given to a cell of the row is one row long. */
  ghost predicate OneRowAt(row: Row, abs: nat, updates: map<nat, RowOverride>) {
    abs in updates ==>
      forall c | 0 <= c < |row| && c < |updates[abs].values| && updates[abs].values[c].Some? :: |updates[abs].values[c].value| == 1
  }

  ghost predicate OneRowEach(rows: seq<Row>, base: nat, updates: map<nat, RowOverride>) {
    forall k | 0 <= k < |rows| :: OneRowAt(rows[k], base + k, updates)
  }

  /** One more row of the input, and what it contributes. */
  lemma EditSnoc(was: seq<Row>, row: Row, base: nat, edits: BlobEdits, now: seq<Row>)
    requires IsEdit(was, base, edits, now) && OneRowAt(row, base + |was|, edits.updates)
    ensures IsEdit(was + [row], base, edits, now + EditRow(row, base + |was|, edits))
  {
    hide RowEdited, NewRow, OneRowAt;
    NewRowMeans(row, base + |was|, edits.updates);
  }

  /** The rewritten rows are the edit of the rows. */
  lemma {:induction false} EditRowsMeans(rows: seq<Row>, base: nat, edits: BlobEdits)
    requires OneRowEach(rows, base, edits.updates)
    ensures IsEdit(rows, base, edits, EditRows(rows, base, edits))
  {
    hide IsEdit, EditRow, OneRowAt;
    if rows == [] {
      EditNothing(base, edits);
    } else {
      var n := |rows| - 1;
      var front := rows[..n];
      assert rows == front + [rows[n]];
      assert forall k | 0 <= k < n :: front[k] == rows[k];
      EditRowsMeans(front, base, edits);
      EditRowsAppend(front, [rows[n]], base, edits);
      assert EditRows([rows[n]], base + n, edits) == EditRow(rows[n], base + n, edits);
      EditSnoc(front, rows[n], base, edits, EditRows(front, base, edits));
    }
  }

  lemma EditNothing(base: nat, edits: BlobEdits)
    ensures IsEdit([], base, edits, [])
  {
  }

  lemma NewRowMeans(row: Row, abs: nat, updates: map<nat, RowOverride>)
    requires OneRowAt(row, abs, updates)
    ensures RowEdited(row, NewRow(row, abs, updates), abs, updates)
  {
  }

  ghost predicate ValidBatches(batches: seq<Batch>) {
    forall i | 0 <= i < |batches| :: batches[i].Valid()
  }

  /** All rows of a blob, in order, whatever way its reader splits them into batches. */
  ghost function AllRows(batches: seq<Batch>): seq<Row>
    requires ValidBatches(batches)
  {
    if batches == [] then [] else batches[0].Rows() + AllRows(batches[1..])
  }

  lemma {:induction false} AllRowsSnoc(batches: seq<Batch>, last: Batch)
    requires ValidBatches(batches) && last.Valid()
    ensures AllRows(batches + [last]) == AllRows(batches) + last.Rows()
  {
    if batches == [] {
      assert [] + [last] == [last];
      assert AllRows([last]) == last.Rows() + AllRows([]);
    } else {
      assert (batches + [last])[1..] == batches[1..] + [last];
      AllRowsSnoc(batches[1..], last);
    }
  }
}
