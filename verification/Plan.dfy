/** The modify plan (src/fdw/modify/update.rs): its chunk table and the per-row edit accumulator. */
module Plan {
  import opened Numbers
  import opened Wrappers
  import opened Rows
  import opened Names
  import opened RowIds
  import opened ChunkTable
  import opened Protocol
  import opened Store

  /** Per-statement cap on recorded edits. */
  const MAX_EDITS_PER_STATEMENT: nat := 10_000_000

  datatype RowEdit = DeleteRow | UpdateRow(values: RowOverride)

  /** The accumulator after one edit of row `abs` of the blob based at `base`. */
  function Record(edits: map<nat, BlobEdits>, base: nat, abs: nat, e: RowEdit): map<nat, BlobEdits> {
    var was := if base in edits then edits[base] else NO_EDITS;
    edits[base := match e
                  case DeleteRow => was.(deletes := was.deletes + {Wrap32(abs)})
                  case UpdateRow(o) => was.(updates := was.updates[abs := o])]
  }

  /** `n` is the row count of the listed version, if that version is still the live one. */
  ghost predicate CountOf(h: History, l: Listed, n: nat) {
    l.etag < |h| && h[l.etag].Put? && Live(h, l.name) == Some(l.etag) ==> n == |h[l.etag].rows|
  }

  lemma CountsLater(h: History, now: History, ls: seq<Listed>, ns: seq<nat>)
    requires h <= now && |ns| <= |ls| && forall i | 0 <= i < |ls| :: ls[i].etag < |h|
    requires forall i | 0 <= i < |ns| :: CountOf(h, ls[i], ns[i])
    ensures forall i | 0 <= i < |ns| :: CountOf(now, ls[i], ns[i])
  {
    forall i | 0 <= i < |ns| ensures CountOf(now, ls[i], ns[i]) {
      LiveEarlier(h, now, ls[i].name, ls[i].etag);
    }
  }

  /** The blob is there, and 32 bits number its rows. */
  ghost predicate Countable(blobs: map<Name, Version>, l: Listed) {
    l.name in blobs && |AllRows(blobs[l.name].body)| <= U32_MAX
  }

  /** Reads one footer and refuses a blob with more rows than a 32-bit row number can reach. */
  method CountRows(l: Listed, store: Container) returns (r: Result<nat>)
    requires store.Valid()
    modifies store
    ensures store.Valid() && OutsideOnly(old(store.history), store.history)
    ensures r.Success? ==> r.value <= U32_MAX && CountOf(store.history, l, r.value)
    ensures old(store.script) == [] ==>
              && store.script == [] && store.history == old(store.history) && store.blobs == old(store.blobs)
              && (r.Success? <==> l.name in store.blobs && |AllRows(store.blobs[l.name].body)| <= U32_MAX)
              && (r.Success? ==> r.value == |AllRows(store.blobs[l.name].body)|)
    ensures Faults(store.script) <= Faults(old(store.script))
    ensures r.Failure? && Faults(store.script) == Faults(old(store.script)) ==> !Countable(store.blobs, l)
  {
    r := store.RowCount(l.name);
    if r.Success? && r.value > U32_MAX {
      return Failure(SchemaMismatch);
    }
  }

  /** The entries of one blob. */
  method PushChunks(l: Listed, n: nat) returns (pushed: seq<BlobIdEntry>)
    ensures pushed == BlobChunks(l, Chunks(n))
  {
    pushed := [];
    for c := 0 to Chunks(n)
      invariant |pushed| == c
      invariant forall k | 0 <= k < c :: pushed[k] == BlobIdEntry(l.name, k * CHUNK_ROWS, l.etag)
    {
      pushed := pushed + [BlobIdEntry(l.name, c * CHUNK_ROWS, l.etag)];
    }
  }

  /**
   The table loop of `build_plan`. Footers are read from whatever version is current, so the counts
   are those of the listed versions only where these are still live.
   */
  method BuildTable(ls: seq<Listed>, store: Container) returns (r: Result<seq<BlobIdEntry>>, ghost ns: seq<nat>)
    requires store.Valid() && forall i | 0 <= i < |ls| :: ls[i].etag < |store.history|
    modifies store
    ensures store.Valid() && OutsideOnly(old(store.history), store.history)
    ensures r.Success? ==>
              && |ns| == |ls| && r.value == Table(ls, ns)
              && forall i | 0 <= i < |ls| :: ns[i] <= U32_MAX && CountOf(store.history, ls[i], ns[i])
    ensures old(store.script) == [] ==>
              && store.script == [] && store.history == old(store.history) && store.blobs == old(store.blobs)
              && (r.Success? <==> forall i | 0 <= i < |ls| ::
                    ls[i].name in store.blobs && |AllRows(store.blobs[ls[i].name].body)| <= U32_MAX)
              && (r.Success? ==> forall i | 0 <= i < |ls| && ls[i].name in store.blobs ::
                    ns[i] == |AllRows(store.blobs[ls[i].name].body)|)
    ensures Faults(store.script) <= Faults(old(store.script))
    ensures r.Failure? && Faults(store.script) == Faults(old(store.script)) ==>
              exists i | 0 <= i < |ls| :: !Countable(store.blobs, ls[i])
  {
    hide Live, Mirrors, TotalChunks, BlobChunks, Chunks, CountOf, AllRows, Countable, Faults;
    var table: seq<BlobIdEntry> := [];
    ns := [];
    for b := 0 to |ls|
      invariant store.Valid() && OutsideOnly(old(store.history), store.history)
      invariant |ns| == b && table == Table(ls[..b], ns) && Faults(store.script) <= Faults(old(store.script))
      invariant forall i | 0 <= i < b :: ns[i] <= U32_MAX && CountOf(store.history, ls[i], ns[i])
      invariant old(store.script) == [] ==>
                  && store.script == [] && store.history == old(store.history) && store.blobs == old(store.blobs)
                  && forall i | 0 <= i < b :: ls[i].name in store.blobs && ns[i] == |AllRows(store.blobs[ls[i].name].body)|
    {
      ghost var before := store.history;
      var n := CountRows(ls[b], store);
      if n.Failure? {
        return Failure(n.error), ns;
      }
      CountsLater(before, store.history, ls, ns);
      var pushed := PushChunks(ls[b], n.value);
      assert ls[..b + 1][..b] == ls[..b] && (ns + [n.value])[..b] == ns;
      table := table + pushed;
      ns := ns + [n.value];
    }
    assert ls[..|ls|] == ls;
    r := Success(table);
  }

  class ModifyPlan {
    const width: nat
    var table: seq<BlobIdEntry>
    var edits: map<nat, BlobEdits>
    var editCount: nat

    /** Every recorded base identifier is in the table. */
    ghost predicate Valid()
      reads this
    {
      forall b | b in edits :: b < |table|
    }

    constructor (table: seq<BlobIdEntry>, width: nat)
      ensures Valid() && this.table == table && this.width == width && edits == map[] && editCount == 0
    {
      this.table, this.width := table, width;
      edits, editCount := map[], 0;
    }

    /**
     Records one edit: refused at the cap or for an identifier outside the table, leaving the plan
     untouched; otherwise the edit lands on the row the identifier resolves to.
     */
    method RecordEdit(rid: RowId, e: RowEdit) returns (r: Result<()>)
      requires Valid()
      modifies this`edits, this`editCount
      ensures Valid()
      ensures r.Success? <==> old(editCount) < 10_000_000 && rid.blobId < |table|
      ensures r.Failure? ==> edits == old(edits) && editCount == old(editCount)
      ensures r.Success? ==>
                && editCount == old(editCount) + 1
                && var got := Resolved(table, rid).value;
                   edits == Record(old(edits), got.0, got.1, e)
    {
      if editCount >= MAX_EDITS_PER_STATEMENT {
        return Failure(SchemaMismatch);
      }
      var at := ResolveToSource(table, rid);
      if at.Failure? {
        return Failure(at.error);
      }
      edits := Record(edits, at.value.0, at.value.1, e);
      editCount := editCount + 1;
      r := Success(());
    }
  }
}
