/** The streaming rewrite of one blob inside `commit_plan` (src/fdw/modify/update.rs). */
module Rewrite {
  import opened Numbers
  import opened Wrappers
  import opened Rows
  import opened Kernel
  import opened Store

  /** The rewrite goes through: batches fit the schema, overrides are one row long and in range. */
  ghost predicate Rewritable(body: Body, width: nat, edits: BlobEdits) {
    && !BadOverride(edits.updates, 0, |AllRows(body)|, width)
    && (forall i | 0 <= i < |body| :: |body[i].columns| == width)
    && (forall k | k in edits.updates :: k < |AllRows(body)|)
  }

  /** One batch through the kernel into the writer; an empty output is not written. */
  method WriteEdited(written: Body, batch: Batch, offset: nat, width: nat, edits: BlobEdits) returns (r: Result<Body>)
    requires batch.Valid() && offset + batch.numRows <= U32_MAX
    ensures r.Failure? <==> BadOverride(edits.updates, offset, offset + batch.numRows, width) || width != |batch.columns|
    ensures r.Success? ==> AllRows(r.value) == AllRows(written) + EditRows(batch.Rows(), offset, edits)
  {
    var out := ApplyEditsBatch(batch, offset, width, edits);
    if out.Failure? {
      return Failure(out.error);
    }
    if out.value.numRows == 0 {
      assert AllRows(written) + out.value.Rows() == AllRows(written);
      return Success(written);
    }
    AllRowsSnoc(written, out.value);
    return Success(written + [out.value]);
  }

  /** The writer's batches and the rows read so far. */
  datatype Streamed = Streamed(written: Body, offset: nat)

  /** How one more batch extends the rows read and their rewrite. */
  lemma ReadSnoc(body: Body, b: nat, edits: BlobEdits)
    requires b < |body|
    ensures |AllRows(body[..b])| + body[b].numRows == |AllRows(body[..b + 1])| <= |AllRows(body)|
    ensures EditRows(AllRows(body[..b + 1]), 0, edits) ==
            EditRows(AllRows(body[..b]), 0, edits) + EditRows(body[b].Rows(), |AllRows(body[..b])|, edits)
  {
    assert body[..b + 1] == body[..b] + [body[b]];
    AllRowsSnoc(body[..b], body[b]);
    AllRowsPrefix(body, b + 1);
    EditRowsAppend(AllRows(body[..b]), body[b].Rows(), 0, edits);
  }

  lemma ReadNothing(body: Body, edits: BlobEdits)
    ensures AllRows(body[..0]) == AllRows([]) == EditRows([], 0, edits) == []
  {
  }

  /** The streaming loop: one batch at a time through the kernel into the writer. */
  method StreamEdits(body: Body, width: nat, edits: BlobEdits) returns (r: Result<Streamed>)
    requires |AllRows(body)| <= U32_MAX
    ensures r.Success? <==>
            && !BadOverride(edits.updates, 0, |AllRows(body)|, width)
            && (forall i | 0 <= i < |body| :: |body[i].columns| == width)
    ensures r.Success? ==>
              && AllRows(r.value.written) == EditRows(AllRows(body), 0, edits)
              && IsEdit(AllRows(body), 0, edits, AllRows(r.value.written))
              && r.value.offset == |AllRows(body)|
  {
    hide AllRows, EditRows, IsEdit;
    var written: Body := [];
    var offset: nat := 0;
    ReadNothing(body, edits);
    for b := 0 to |body|
      invariant offset == |AllRows(body[..b])| <= |AllRows(body)|
      invariant AllRows(written) == EditRows(AllRows(body[..b]), 0, edits)
      invariant !BadOverride(edits.updates, 0, offset, width)
      invariant forall i | 0 <= i < b :: |body[i].columns| == width
    {
      ReadSnoc(body, b, edits);
      var out := WriteEdited(written, body[b], offset, width, edits);
      if out.Failure? {
        return Failure(out.error);
      }
      written := out.value;
      offset := offset + body[b].numRows;
    }
    assert body[..|body|] == body;
    WholeEdit(body, width, edits);
    r := Success(Streamed(written, offset));
  }

  /** The rewrite of one blob; an update key beyond its last row is refused. */
  method RewriteBlob(body: Body, width: nat, edits: BlobEdits) returns (r: Result<Body>)
    requires |AllRows(body)| <= U32_MAX
    ensures r.Success? <==> Rewritable(body, width, edits)
    ensures r.Success? ==> AllRows(r.value) == EditRows(AllRows(body), 0, edits) && IsEdit(AllRows(body), 0, edits, AllRows(r.value))
  {
    hide IsEdit;
    var streamed := StreamEdits(body, width, edits);
    if streamed.Failure? {
      return Failure(streamed.error);
    }
    if exists k | k in edits.updates.Keys :: k >= streamed.value.offset {
      return Failure(SchemaMismatch);
    }
    r := Success(streamed.value.written);
  }
}
