/**
 The streaming rewrite kernel (src/fdw/modify/kernel.rs): per column, splice override cells between
 slices of the old column; then clear the mask bits of deleted rows and filter. Each batch is
 handled on its own under a running offset, and the result is the whole-blob rewrite of `Rows`.
 */
module Kernel {
  import opened Numbers
  import opened Wrappers
  import opened Rows

  /** An override in `[lo, hi)` that reaches one of `width` columns without being one row long. */
  ghost predicate BadOverride(updates: map<nat, RowOverride>, lo: nat, hi: nat, width: nat) {
    exists abs: nat, c: nat | lo <= abs < hi && c < width :: BadAt(updates, abs, c)
  }

  /** The elements of `keys` in `[lo, hi)`, ascending. */
  method AscendingIn(keys: set<nat>, lo: nat, hi: nat) returns (hits: seq<nat>)
    ensures forall i | 0 <= i < |hits| :: lo <= hits[i] < hi && hits[i] in keys
    ensures Ascending(hits)
    ensures forall k | lo <= k < hi && k in keys :: k in hits
  {
    hits := [];
    var k := lo;
    while k < hi
      invariant k >= lo
      invariant forall i | 0 <= i < |hits| :: lo <= hits[i] < k && hits[i] < hi && hits[i] in keys
      invariant Ascending(hits)
      invariant forall x | lo <= x < k && x < hi && x in keys :: x in hits
    {
      if k in keys {
        hits := hits + [k];
      }
      k := k + 1;
    }
  }

  /** Column `c` once the updates are applied. */
  ghost function NewColumn(col: Column, c: nat, base: nat, updates: map<nat, RowOverride>): (now: Column)
    ensures |now| == |col|
  {
    seq(|col|, i requires 0 <= i < |col| => NewCell(col[i], base + i, c, updates))
  }

  ghost predicate BadAt(updates: map<nat, RowOverride>, abs: nat, c: nat) {
    abs in updates && updates[abs].Touches(c) && |updates[abs].values[c].value| != 1
  }

  /** `now` is column `c` of the rows from `base` on with the cells they are given, and no others, replaced. */
  ghost predicate ColumnEdited(was: Column, now: Column, c: nat, base: nat, updates: map<nat, RowOverride>) {
    && |now| == |was|
    && forall i | 0 <= i < |was| ::
         if base + i in updates && c < |updates[base + i].values| && updates[base + i].values[c].Some?
         then updates[base + i].values[c].value == [now[i]]
         else now[i] == was[i]
  }

  lemma NewColumnMeans(col: Column, c: nat, base: nat, hits: seq<nat>, updates: map<nat, RowOverride>)
    requires forall k | base <= k < base + |col| && k in updates :: k in hits
    requires forall i | 0 <= i < |hits| :: !BadAt(updates, hits[i], c)
    ensures ColumnEdited(col, NewColumn(col, c, base, updates), c, base, updates)
  {
    forall i | 0 <= i < |col| && base + i in updates && c < |updates[base + i].values| && updates[base + i].values[c].Some?
      ensures updates[base + i].values[c].value == [NewColumn(col, c, base, updates)[i]]
    {
      assert base + i in hits;
      assert !BadAt(updates, base + i, c);
    }
  }

  /** The splice loop for one column. */
  method SpliceColumn(col: Column, c: nat, base: nat, hits: seq<nat>, updates: map<nat, RowOverride>)
    returns (r: Result<Column>)
    requires forall i | 0 <= i < |hits| :: base <= hits[i] < base + |col| && hits[i] in updates
    requires Ascending(hits)
    requires forall k | base <= k < base + |col| && k in updates :: k in hits
    ensures r.Success? ==> r.value == NewColumn(col, c, base, updates) && ColumnEdited(col, r.value, c, base, updates)
    ensures r.Failure? <==> exists i | 0 <= i < |hits| :: BadAt(updates, hits[i], c)
  {
    hide ColumnEdited;
    var spliced: Column := [];
    var cursor: nat := 0;
    for h := 0 to |hits|
      invariant cursor == if h == 0 then 0 else hits[h - 1] + 1 - base
      invariant cursor <= |col|
      invariant spliced == NewColumn(col, c, base, updates)[..cursor]
      invariant forall i | 0 <= i < h :: !BadAt(updates, hits[i], c)
    {
      var abs := hits[h];
      var local := abs - base;
      GapIsUntouched(col, c, base, hits, h, updates, cursor, local);
      spliced := spliced + col[cursor..local];
      if updates[abs].Touches(c) {
        var replacement := updates[abs].values[c].value;
        if |replacement| != 1 {
          assert BadAt(updates, hits[h], c);
          return Failure(SchemaMismatch);
        }
        spliced := spliced + replacement;
      } else {
        spliced := spliced + col[local..local + 1];
      }
      cursor := local + 1;
    }
    GapIsUntouched(col, c, base, hits, |hits|, updates, cursor, |col|);
    NewColumnMeans(col, c, base, hits, updates);
    assert spliced + col[cursor..] == NewColumn(col, c, base, updates);
    r := Success(spliced + col[cursor..]);
  }

  /** Between two neighbouring hits the column keeps its cells. */
  lemma GapIsUntouched(col: Column, c: nat, base: nat, hits: seq<nat>, h: nat, updates: map<nat, RowOverride>,
                       from: nat, to: nat)
    requires Ascending(hits) && h <= |hits| && to <= |col|
    requires forall k | base <= k < base + |col| && k in updates :: k in hits
    requires from == if h == 0 then 0 else hits[h - 1] + 1 - base
    requires h < |hits| ==> base + to == hits[h]
    ensures from <= to ==> col[from..to] == NewColumn(col, c, base, updates)[from..to]
    ensures h < |hits| && (forall i | 0 <= i < |hits| :: base <= hits[i]) ==> from <= to
  {
    forall i | from <= i < to ensures col[i] == NewColumn(col, c, base, updates)[i] {
      forall j | 0 <= j < |hits| ensures hits[j] != base + i {
        if j < h {
          assert hits[j] <= hits[h - 1];
        } else {
          assert hits[h] <= hits[j];
        }
      }
    }
  }

  /** The elements of `xs` whose mask bit is set: Arrow's `filter`. */
  function Filter<T>(xs: seq<T>, mask: seq<bool>): (kept: seq<T>)
    requires |xs| == |mask|
  {
    if xs == [] then [] else (if mask[0] then [xs[0]] else []) + Filter(xs[1..], mask[1..])
  }

  ghost function Count(mask: seq<bool>): nat {
    if mask == [] then 0 else (if mask[0] then 1 else 0) + Count(mask[1..])
  }

  lemma {:induction false} FilterLength<T>(xs: seq<T>, mask: seq<bool>)
    requires |xs| == |mask|
    ensures |Filter(xs, mask)| == Count(mask)
  {
    if xs != [] {
      FilterLength(xs[1..], mask[1..]);
    }
  }

  /** Filtering column by column and filtering row by row give the same rows. */
  lemma {:induction false} FilterAt(col: Column, rows: seq<Row>, c: nat, mask: seq<bool>, i: nat)
    requires |col| == |rows| == |mask|
    requires forall j | 0 <= j < |rows| :: c < |rows[j]| && rows[j][c] == col[j]
    requires i < Count(mask)
    ensures |Filter(col, mask)| == |Filter(rows, mask)| == Count(mask)
    ensures c < |Filter(rows, mask)[i]| && Filter(rows, mask)[i][c] == Filter(col, mask)[i]
  {
    FilterLength(col, mask);
    FilterLength(rows, mask);
    if mask[0] {
      if i > 0 {
        FilterAt(col[1..], rows[1..], c, mask[1..], i - 1);
      }
    } else {
      FilterAt(col[1..], rows[1..], c, mask[1..], i);
    }
  }

  lemma {:induction false} FilterMember<T>(xs: seq<T>, mask: seq<bool>, i: nat)
    requires |xs| == |mask| && i < |Filter(xs, mask)|
    ensures Filter(xs, mask)[i] in xs
  {
    if mask[0] {
      if i > 0 {
        FilterMember(xs[1..], mask[1..], i - 1);
      }
    } else {
      FilterMember(xs[1..], mask[1..], i);
    }
  }

  method FilterBatch(batch: Batch, mask: seq<bool>) returns (out: Batch)
    requires batch.Valid() && |mask| == batch.numRows
    ensures out.Valid() && |out.columns| == |batch.columns|
    ensures out.Rows() == Filter(batch.Rows(), mask)
  {
    var n: nat := 0;
    for i := 0 to |mask|
      invariant n == Count(mask[..i])
    {
      CountSnoc(mask[..i], mask[i]);
      assert mask[..i + 1] == mask[..i] + [mask[i]];
      if mask[i] {
        n := n + 1;
      }
    }
    assert mask[..|mask|] == mask;
    var columns: seq<Column> := [];
    for c := 0 to |batch.columns|
      invariant |columns| == c
      invariant forall d | 0 <= d < c :: columns[d] == Filter(batch.columns[d], mask)
    {
      columns := columns + [Filter(batch.columns[c], mask)];
    }
    forall c | 0 <= c < |columns| ensures |columns[c]| == n {
      FilterLength(batch.columns[c], mask);
    }
    out := Batch(columns, n);
    FilteredRows(batch, mask, out);
  }

  lemma {:induction false} CountSnoc(mask: seq<bool>, b: bool)
    ensures Count(mask + [b]) == Count(mask) + if b then 1 else 0
  {
    if mask == [] {
      assert [] + [b] == [b];
    } else {
      assert (mask + [b])[1..] == mask[1..] + [b];
      CountSnoc(mask[1..], b);
    }
  }

  lemma FilteredRows(batch: Batch, mask: seq<bool>, out: Batch)
    requires batch.Valid() && out.Valid() && |mask| == batch.numRows && out.numRows == Count(mask)
    requires |out.columns| == |batch.columns|
    requires forall c | 0 <= c < |out.columns| :: out.columns[c] == Filter(batch.columns[c], mask)
    ensures out.Rows() == Filter(batch.Rows(), mask)
  {
    hide Filter, Count;
    var rows := batch.Rows();
    FilterLength(rows, mask);
    forall i | 0 <= i < out.numRows ensures out.Rows()[i] == Filter(rows, mask)[i] {
      FilterMember(rows, mask, i);
      assert |Filter(rows, mask)[i]| == |batch.columns|;
      forall c | 0 <= c < |out.columns| ensures out.Rows()[i][c] == Filter(rows, mask)[i][c] {
        FilterAt(batch.columns[c], rows, c, mask, i);
      }
    }
  }

  /** Overriding all rows and then filtering by the delete mask is the row-by-row edit. */
  lemma {:induction false} FilterIsEdit(was: seq<Row>, now: seq<Row>, mask: seq<bool>, base: nat, edits: BlobEdits)
    requires |was| == |now| == |mask|
    requires forall i | 0 <= i < |was| :: now[i] == NewRow(was[i], base + i, edits.updates)
    requires forall i | 0 <= i < |mask| :: mask[i] <==> base + i !in edits.deletes
    ensures Filter(now, mask) == EditRows(was, base, edits)
  {
    if was != [] {
      FilterIsEdit(was[1..], now[1..], mask[1..], base + 1, edits);
    }
  }

  lemma {:induction false} FilterAll<T>(xs: seq<T>, mask: seq<bool>)
    requires |xs| == |mask| && forall i | 0 <= i < |mask| :: mask[i]
    ensures Filter(xs, mask) == xs
  {
    if xs != [] {
      FilterAll(xs[1..], mask[1..]);
    }
  }

  /** Step 1 of the kernel: the override columns. */
  method OverrideColumns(batch: Batch, base: nat, updates: map<nat, RowOverride>) returns (r: Result<seq<Column>>)
    requires batch.Valid()
    ensures r.Failure? <==> BadOverride(updates, base, base + batch.numRows, |batch.columns|)
    ensures r.Success? ==>
              && |r.value| == |batch.columns|
              && forall c | 0 <= c < |r.value| ::
                   r.value[c] == NewColumn(batch.columns[c], c, base, updates)
  {
    var columns := batch.columns;
    var hits := AscendingIn(updates.Keys, base, base + batch.numRows);
    for c := 0 to |columns|
      invariant |columns| == |batch.columns|
      invariant !BadOverride(updates, base, base + batch.numRows, c)
      invariant forall d | 0 <= d < |columns| ::
                  columns[d] == if d < c then NewColumn(batch.columns[d], d, base, updates) else batch.columns[d]
    {
      if exists h | 0 <= h < |hits| :: updates[hits[h]].Touches(c) {
        var spliced := SpliceColumn(columns[c], c, base, hits, updates);
        if spliced.Failure? {
          assert BadOverride(updates, base, base + batch.numRows, |batch.columns|);
          return Failure(spliced.error);
        }
        columns := columns[c := spliced.value];
      } else {
        assert forall k | base <= k < base + batch.numRows && k in updates :: !updates[k].Touches(c);
        assert columns[c] == NewColumn(batch.columns[c], c, base, updates);
      }
    }
    r := Success(columns);
  }

  /**
   One batch. Failure is exactly an override of the wrong length or a batch whose column count
   differs from the schema's; otherwise the output rows are the edit of the input rows.
   */
  method ApplyEditsBatch(batch: Batch, base: nat, width: nat, edits: BlobEdits) returns (r: Result<Batch>)
    requires batch.Valid()
    requires base + batch.numRows <= U32_MAX  // build_plan refuses larger blobs
    ensures r.Failure? <==>
            BadOverride(edits.updates, base, base + batch.numRows, |batch.columns|) || width != |batch.columns|
    ensures r.Success? ==>
              && r.value.Valid()
              && |r.value.columns| == width
              && r.value.Rows() == EditRows(batch.Rows(), base, edits)
  {
    var columns := OverrideColumns(batch, base, edits.updates);
    if columns.Failure? {
      return Failure(columns.error);
    }
    if width != |columns.value| {
      return Failure(SchemaMismatch);  // RecordBatch::try_new
    }
    var updated := Batch(columns.value, batch.numRows);
    forall i | 0 <= i < batch.numRows
      ensures updated.Rows()[i] == NewRow(batch.Rows()[i], base + i, edits.updates)
    {
      assert updated.RowAt(i) == NewRow(batch.RowAt(i), base + i, edits.updates);
    }

    var lo := base;
    var hi := if base + batch.numRows < U32_MAX then base + batch.numRows else U32_MAX;
    var deleted := AscendingIn(edits.deletes, lo, hi);
    var mask := seq(batch.numRows, i => true);
    for d := 0 to |deleted|
      invariant |mask| == batch.numRows
      invariant forall i | 0 <= i < |mask| :: mask[i] <==> base + i !in deleted[..d]
    {
      mask := mask[deleted[d] - base := false];
      assert deleted[..d + 1] == deleted[..d] + [deleted[d]];
    }
    assert deleted[..|deleted|] == deleted;
    FilterIsEdit(batch.Rows(), updated.Rows(), mask, base, edits);
    if deleted == [] {
      FilterAll(updated.Rows(), mask);
      return Success(updated);
    }
    var out := FilterBatch(updated, mask);
    r := Success(out);
  }

  /** All rows of a blob are as wide as its batches. */
  lemma {:induction false} AllRowsWidth(batches: seq<Batch>, width: nat)
    requires ValidBatches(batches) && forall i | 0 <= i < |batches| :: |batches[i].columns| == width
    ensures forall k | 0 <= k < |AllRows(batches)| :: |AllRows(batches)[k]| == width
  {
    if batches != [] {
      AllRowsWidth(batches[1..], width);
      forall i | 0 <= i < batches[0].numRows ensures |batches[0].Rows()[i]| == width {
        assert batches[0].Rows()[i] == batches[0].RowAt(i);
      }
    }
  }

  lemma RowIsOne(row: Row, abs: nat, updates: map<nat, RowOverride>)
    requires forall c | 0 <= c < |row| :: !BadAt(updates, abs, c)
    ensures OneRowAt(row, abs, updates)
  {
    if abs in updates {
      forall c | 0 <= c < |row| && c < |updates[abs].values| && updates[abs].values[c].Some? ensures |updates[abs].values[c].value| == 1 {
        assert !BadAt(updates, abs, c);
      }
    }
  }

  /** Without a malformed override the rewrite of a blob is its edit. */
  lemma WholeEdit(batches: seq<Batch>, width: nat, edits: BlobEdits)
    requires ValidBatches(batches) && forall i | 0 <= i < |batches| :: |batches[i].columns| == width
    requires !BadOverride(edits.updates, 0, |AllRows(batches)|, width)
    ensures IsEdit(AllRows(batches), 0, edits, EditRows(AllRows(batches), 0, edits))
  {
    hide AllRows, EditRows, IsEdit;
    var rows := AllRows(batches);
    AllRowsWidth(batches, width);
    forall k | 0 <= k < |rows| ensures OneRowAt(rows[k], 0 + k, edits.updates) {
      forall c | 0 <= c < width ensures !BadAt(edits.updates, k, c) {
        assert !BadOverride(edits.updates, 0, |rows|, width);
      }
      RowIsOne(rows[k], k, edits.updates);
    }
    EditRowsMeans(rows, 0, edits);
  }

  lemma NoBatches(edits: BlobEdits)
    ensures AllRows([]) == EditRows([], 0, edits) == []
  {
  }

  /**
   The streaming wrapper: whatever way the blob is split, the outputs together hold the whole-blob
   rewrite, batch for batch.
   */
  method ApplyEdits(input: seq<Batch>, width: nat, edits: BlobEdits) returns (r: Result<seq<Batch>>)
    requires ValidBatches(input) && |AllRows(input)| <= U32_MAX
    ensures r.Success? ==>
              && ValidBatches(r.value)
              && |r.value| == |input|
              && AllRows(r.value) == EditRows(AllRows(input), 0, edits)
              && IsEdit(AllRows(input), 0, edits, AllRows(r.value))
    ensures r.Failure? <==>
            || BadOverride(edits.updates, 0, |AllRows(input)|, width)
            || exists i | 0 <= i < |input| :: |input[i].columns| != width
  {
    hide NewRow, EditRow, AllRows, EditRows, Batch.Rows, IsEdit;
    NoBatches(edits);
    var out: seq<Batch> := [];
    var offset: nat := 0;
    for b := 0 to |input|
      invariant |out| == b && ValidBatches(out)
      invariant offset == |AllRows(input[..b])| <= |AllRows(input)|
      invariant AllRows(out) == EditRows(AllRows(input[..b]), 0, edits)
      invariant !BadOverride(edits.updates, 0, offset, width)
      invariant forall i | 0 <= i < b :: |input[i].columns| == width
    {
      assert input[..b + 1] == input[..b] + [input[b]];
      AllRowsSnoc(input[..b], input[b]);
      AllRowsPrefix(input, b + 1);
      EditRowsAppend(AllRows(input[..b]), input[b].Rows(), 0, edits);
      var one := ApplyEditsBatch(input[b], offset, width, edits);
      if one.Failure? {
        return Failure(one.error);
      }
      AllRowsSnoc(out, one.value);
      out := out + [one.value];
      offset := offset + input[b].numRows;
    }
    assert input[..|input|] == input;
    WholeEdit(input, width, edits);
    r := Success(out);
  }

  lemma {:induction false} AllRowsPrefix(batches: seq<Batch>, k: nat)
    requires ValidBatches(batches) && k <= |batches|
    ensures |AllRows(batches[..k])| <= |AllRows(batches)|
    ensures AllRows(batches[..k]) == AllRows(batches)[..|AllRows(batches[..k])|]
  {
    if k > 0 {
      assert batches[..k][1..] == batches[1..][..k - 1];
      AllRowsPrefix(batches[1..], k - 1);
    }
  }
}
