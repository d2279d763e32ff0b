/**
 The sequential scan (src/fdw/scan.rs): `next_row` walks batches, streams and blobs; the iterate
 callback registers chunks lazily and stamps each emitted row with a synthetic item pointer.

 A stream is modelled by the absolute row numbers its batches carry, so an unfiltered stream of a
 blob with n rows flattens to 0, 1, ..., n-1 and a filtered one to a sub-sequence of that.
 */
module Scan {
  import opened Numbers
  import opened Wrappers
  import opened RowIds
  import opened ChunkTable

  ghost function Flat(batches: seq<seq<nat>>): seq<nat> {
    if batches == [] then [] else batches[0] + Flat(batches[1..])
  }

  /** One emitted row: which blob, which of its rows, and the counters its stamp is made from. */
  datatype Emitted = Emitted(blob: nat, row: nat, base: nat, index: nat) {
    function Ctid(): ItemPointer {
      Stamp(base, index)
    }
  }

  /** What a scan reads: the blobs it opens, and for each the batches its reader yields. */
  datatype World = World(blobs: seq<Listed>, streams: seq<seq<seq<nat>>>) {
    ghost predicate Valid() {
      |blobs| == |streams|
    }

    /** The rows of blob `i`, in stream order. */
    ghost function Rows(i: nat): seq<nat>
      requires i < |streams|
    {
      Flat(streams[i])
    }

    /** All blobs' rows. */
    ghost function Kept(): (kept: seq<seq<nat>>)
      ensures |kept| == |streams|
    {
      seq(|streams|, i requires 0 <= i < |streams| => Rows(i))
    }
  }

  /** A position of the scan: `c` blobs taken off the producer, `n` rows emitted from the last one. */
  ghost predicate At(w: World, c: nat, n: nat) {
    && w.Valid() && c <= |w.blobs|
    && n <= if c == 0 then 0 else |w.Rows(c - 1)|
  }

  /** The lazy push: an entry for row `n` when it is the first of a chunk that has none yet. */
  function Grow(table: seq<BlobIdEntry>, base: nat, n: nat): seq<BlobIdEntry> {
    if n == 0 || Rem(n) != 0 || |table| >= base + Quot(n) + 1 || base >= |table| then table
    else table + [BlobIdEntry(table[base].name, n, table[base].etag)]
  }

  /** The chunk table the scan has grown when it reaches a position. */
  ghost function Grown(w: World, c: nat, n: nat): seq<BlobIdEntry>
    requires At(w, c, n)
    decreases c, n, 1
  {
    if c == 0 then []
    else if n == 0 then Before(w, c - 1) + [BlobIdEntry(w.blobs[c - 1].name, 0, w.blobs[c - 1].etag)]
    else Grow(Grown(w, c, n - 1), BaseAt(w, c), n - 1)
  }

  /** The table once blob `c - 1` is drained, which is what opening blob `c` finds. */
  ghost function Before(w: World, c: nat): seq<BlobIdEntry>
    requires w.Valid() && c <= |w.blobs|
    decreases c, if c == 0 then 0 else |w.Rows(c - 1)|, 2
  {
    if c == 0 then [] else Grown(w, c, |w.Rows(c - 1)|)
  }

  /** Table index of the first chunk of blob `c - 1`. */
  ghost function BaseAt(w: World, c: nat): nat
    requires w.Valid() && 0 < c <= |w.blobs|
    decreases c, 0, 0
  {
    Wrap32(|Before(w, c - 1)|)
  }

  /** The rows emitted when the scan reaches a position. */
  ghost function EmitsAt(w: World, c: nat, n: nat): seq<Emitted>
    requires At(w, c, n)
    decreases c, n
  {
    if c == 0 then []
    else if n == 0 then (if c == 1 then [] else EmitsAt(w, c - 1, |w.Rows(c - 2)|))
    else EmitsAt(w, c, n - 1) + [Emitted(c - 1, w.Rows(c - 1)[n - 1], BaseAt(w, c), n - 1)]
  }

  /** Rows in the first `b` batches. */
  ghost function Through(batches: seq<seq<nat>>, b: nat): nat
    requires b <= |batches|
  {
    if b == 0 then 0 else Through(batches, b - 1) + |batches[b - 1]|
  }

  lemma {:induction false} ThroughTail(batches: seq<seq<nat>>, b: nat)
    requires 0 < b <= |batches|
    ensures Through(batches, b) == |batches[0]| + Through(batches[1..], b - 1)
  {
    if b > 1 {
      ThroughTail(batches, b - 1);
    }
  }

  /** Row `r` of batch `b`, in stream order. */
  lemma {:induction false} FlatAt(batches: seq<seq<nat>>, b: nat, r: nat)
    requires b < |batches| && r < |batches[b]|
    ensures Through(batches, b) + r < |Flat(batches)|
    ensures Flat(batches)[Through(batches, b) + r] == batches[b][r]
  {
    if b > 0 {
      FlatAt(batches[1..], b - 1, r);
      ThroughTail(batches, b);
    }
  }

  lemma {:induction false} ThroughAll(batches: seq<seq<nat>>)
    ensures Through(batches, |batches|) == |Flat(batches)|
  {
    if batches != [] {
      ThroughAll(batches[1..]);
      ThroughTail(batches, |batches|);
    }
  }

  class ScanState {
    const w: World
    var cursor: nat                    // the range producer's position
    var curStream: Option<seq<seq<nat>>>
    var curBatch: Option<seq<nat>>
    var curRow: nat
    var table: seq<BlobIdEntry>
    var curBase: nat
    var curRowInBlob: nat
    ghost var pulled: nat              // batches taken off the open stream

    /** The open stream, with `taken` rows handed out by `NextRow` and not yet counted as emitted. */
    ghost predicate Reading(taken: nat)
      reads this`cursor, this`curRowInBlob, this`curStream, this`curBatch, this`curRow, this`pulled
    {
      && w.Valid() && cursor <= |w.blobs|
      && (cursor == 0 ==> curStream.None? && curRowInBlob + taken == 0)
      && (curStream.None? ==> curBatch.None?)
      && (curBatch.None? ==> curRow == 0)
      && (cursor > 0 ==>
            var batches := w.streams[cursor - 1];
            if curStream.None? then curRowInBlob + taken == |w.Rows(cursor - 1)|
            else
              && pulled <= |batches| && curStream.value == batches[pulled..]
              && if curBatch.None? then curRowInBlob + taken == Through(batches, pulled)
                 else
                   && pulled > 0 && curBatch.value == batches[pulled - 1] && curRow <= |curBatch.value|
                   && curRowInBlob + taken == Through(batches, pulled - 1) + curRow)
    }

    /** The chunk table is the one grown up to the current position. */
    ghost predicate Tabled()
      reads this`cursor, this`curRowInBlob, this`table, this`curBase
    {
      && At(w, cursor, curRowInBlob)
      && table == Grown(w, cursor, curRowInBlob)
      && (cursor > 0 ==> curBase == BaseAt(w, cursor))
    }

    ghost predicate Inv(taken: nat)
      reads this
    {
      Reading(taken) && Tabled()
    }

    ghost function Emits(): seq<Emitted>
      requires At(w, cursor, curRowInBlob)
      reads this`cursor, this`curRowInBlob
    {
      EmitsAt(w, cursor, curRowInBlob)
    }

    constructor (w: World)
      requires w.Valid()
      ensures Inv(0) && cursor == 0 && this.w == w
    {
      this.w := w;
      cursor, curStream, curBatch, curRow := 0, None, None, 0;
      table, curBase, curRowInBlob := [], 0, 0;
    }

    /** The next row in scan order, or none once every blob is drained. */
    method NextRow() returns (row: Option<nat>)
      requires Inv(0)
      modifies this
      ensures At(w, cursor, curRowInBlob) && Emits() == old(Emits())
      ensures old(cursor) <= cursor && (cursor == old(cursor) ==> curRowInBlob == old(curRowInBlob))
      ensures row.None? ==> Inv(0) && cursor == |w.blobs| && (cursor > 0 ==> curRowInBlob == |w.Rows(cursor - 1)|)
      ensures row.Some? ==> Inv(1) && cursor > 0 && At(w, cursor, curRowInBlob + 1) && row.value == w.Rows(cursor - 1)[curRowInBlob]
    {
      hide Grown, BaseAt, EmitsAt;
      while true
        invariant Inv(0) && Emits() == old(Emits())
        invariant old(cursor) <= cursor && (cursor == old(cursor) ==> curRowInBlob == old(curRowInBlob))
        decreases |w.blobs| - cursor,
                  if curStream.Some? then 1 + |curStream.value| else 0,
                  if curBatch.Some? then 1 else 0
      {
        if curBatch.Some? {
          if curRow < |curBatch.value| {
            row := TakeRow();
            return;
          }
          DropBatch();
        }
        if curStream.Some? {
          PullBatch();
          continue;
        }
        if cursor == |w.blobs| {
          return None;
        }
        PullBlob();
      }
    }

    method TakeRow() returns (row: Option<nat>)
      requires Reading(0) && curBatch.Some? && curRow < |curBatch.value|
      modifies this`curRow
      ensures Reading(1) && cursor > 0 && curRowInBlob < |w.Rows(cursor - 1)|
      ensures row == Some(w.Rows(cursor - 1)[curRowInBlob])
    {
      FlatAt(w.streams[cursor - 1], pulled - 1, curRow);
      row := Some(curBatch.value[curRow]);
      curRow := curRow + 1;
    }

    method DropBatch()
      requires Reading(0) && curBatch.Some? && curRow == |curBatch.value|
      modifies this`curBatch, this`curRow
      ensures Reading(0) && curBatch.None?
    {
      curBatch := None;
      curRow := 0;
    }

    /** The next batch of the open stream, or the end of the stream. */
    method PullBatch()
      requires Reading(0) && curBatch.None? && curStream.Some?
      modifies this`curBatch, this`curStream, this`pulled
      ensures Reading(0)
      ensures curStream.Some? ==> |curStream.value| < |old(curStream).value|
    {
      if curStream.value != [] {
        curBatch := Some(curStream.value[0]);
        curStream := Some(curStream.value[1..]);
        pulled := pulled + 1;
      } else {
        ThroughAll(w.streams[cursor - 1]);
        curStream := None;
      }
    }

    /** Takes the next blob off the range producer and pushes its first chunk. */
    method PullBlob()
      requires Inv(0) && curStream.None? && cursor < |w.blobs|
      modifies this
      ensures Inv(0) && cursor == old(cursor) + 1 && Emits() == old(Emits())
    {
      var i := cursor;
      cursor := cursor + 1;
      curBase := Wrap32(|table|);
      table := table + [BlobIdEntry(w.blobs[i].name, 0, w.blobs[i].etag)];
      curRowInBlob := 0;
      curStream := Some(w.streams[i]);
      pulled := 0;
    }

    /** Pushes the chunk entry a row needs when it is the first of its chunk. */
    method RegisterChunkIfBoundary()
      requires curBase < |table|
      modifies this`table
      ensures table == Grow(old(table), curBase, curRowInBlob)
    {
      if curRowInBlob == 0 {
        return;
      }
      if Rem(curRowInBlob) != 0 {
        return;
      }
      var chunksSoFar := Quot(curRowInBlob);
      if |table| >= curBase + chunksSoFar + 1 {
        return;
      }
      table := table + [BlobIdEntry(table[curBase].name, curRowInBlob, table[curBase].etag)];
    }

    /** The iterate callback: one emitted row with its stamp, or the end of the scan. */
    method Iterate() returns (out: Option<Emitted>)
      requires Inv(0)
      modifies this
      ensures Inv(0)
      ensures out.Some? ==> Emits() == old(Emits()) + [out.value]
      ensures out.Some? ==> cursor > old(cursor) || (cursor == old(cursor) && curRowInBlob > old(curRowInBlob))
      ensures out.None? ==> Emits() == old(Emits())
      ensures out.None? ==> cursor == |w.blobs| && (cursor > 0 ==> curRowInBlob == |w.Rows(cursor - 1)|)
    {
      var row := NextRow();
      if row.None? {
        return None;
      }
      out := EmitRow(row.value);
    }

    /** Registers the chunk of the row just taken, stamps it and counts it. */
    method EmitRow(row: nat) returns (out: Option<Emitted>)
      requires Inv(1) && cursor > 0 && At(w, cursor, curRowInBlob + 1) && row == w.Rows(cursor - 1)[curRowInBlob]
      modifies this`table, this`curRowInBlob
      ensures Inv(0) && out.Some? && Emits() == old(Emits()) + [out.value] && curRowInBlob == old(curRowInBlob) + 1
    {
      hide Grown, BaseAt, EmitsAt, Through;
      BaseInTable(w, cursor, curRowInBlob);
      RegisterChunkIfBoundary();
      out := Some(Emitted(cursor - 1, row, curBase, curRowInBlob));
      EmitStep(w, cursor, curRowInBlob);
      curRowInBlob := curRowInBlob + 1;
    }
  }

  lemma EmitStep(w: World, c: nat, n: nat)
    requires At(w, c, n + 1) && c > 0
    ensures Grown(w, c, n + 1) == Grow(Grown(w, c, n), BaseAt(w, c), n)
    ensures EmitsAt(w, c, n + 1) == EmitsAt(w, c, n) + [Emitted(c - 1, w.Rows(c - 1)[n], BaseAt(w, c), n)]
  {
  }

  /** The first chunk of the open blob is in the table. */
  lemma {:induction false} BaseInTable(w: World, c: nat, n: nat)
    requires At(w, c, n) && c > 0
    ensures BaseAt(w, c) < |Grown(w, c, n)|
  {
    if n > 0 {
      BaseInTable(w, c, n - 1);
    } else {
      Wrap32Range(|Before(w, c - 1)|);
    }
  }

  /** The first `n` rows of blob `i`, stamped from table index `base`. */
  ghost function StampedBlob(i: nat, rows: seq<nat>, n: nat, base: nat): (es: seq<Emitted>)
    requires n <= |rows|
    ensures |es| == n
  {
    seq(n, j requires 0 <= j < n => Emitted(i, rows[j], base, j))
  }

  /** Every row of the first `c` blobs, each blob stamped from the chunk count of those before it. */
  ghost function Stamped(kept: seq<seq<nat>>, c: nat): seq<Emitted>
    requires c <= |kept|
  {
    if c == 0 then []
    else Stamped(kept, c - 1) +
         StampedBlob(c - 1, kept[c - 1], |kept[c - 1]|, TotalChunks(Lengths(kept[..c - 1])))
  }

  /** Rows in the blobs before blob `i`. */
  ghost function RowsBefore(kept: seq<seq<nat>>, i: nat): nat
    requires i <= |kept|
  {
    if i == 0 then 0 else RowsBefore(kept, i - 1) + |kept[i - 1]|
  }

  /** Row `j` of blob `i` comes after all rows of the blobs before it and the `j` before it, once, with its own stamp. */
  lemma {:induction false} StampedMeans(kept: seq<seq<nat>>, c: nat, i: nat, j: nat)
    requires i < c <= |kept| && j < |kept[i]|
    ensures |Stamped(kept, c)| == RowsBefore(kept, c) && RowsBefore(kept, i) + j < RowsBefore(kept, c)
    ensures Stamped(kept, c)[RowsBefore(kept, i) + j] == Emitted(i, kept[i][j], TotalChunks(Lengths(kept[..i])), j)
  {
    StampedLength(kept, c - 1);
    if i < c - 1 {
      StampedMeans(kept, c - 1, i, j);
    }
  }

  lemma {:induction false} StampedLength(kept: seq<seq<nat>>, c: nat)
    requires c <= |kept|
    ensures |Stamped(kept, c)| == RowsBefore(kept, c)
  {
    if c > 0 {
      StampedLength(kept, c - 1);
    }
  }

  /** Rows emitted from each of the first `c` blobs at a position. */
  ghost function Counts(w: World, c: nat, n: nat): (ns: seq<nat>)
    requires At(w, c, n) && c > 0
    ensures |ns| == c
  {
    Lengths(w.Kept()[..c - 1]) + [n]
  }

  ghost predicate Fits(w: World) {
    TotalChunks(Lengths(w.Kept())) <= U32_SIZE
  }

  /** The lazily grown table is the table of the rows emitted so far. */
  lemma {:induction false} GrownMeaning(w: World, c: nat, n: nat)
    requires At(w, c, n) && Fits(w) && c > 0
    ensures BaseAt(w, c) == TotalChunks(Lengths(w.Kept()[..c - 1]))
    ensures Grown(w, c, n) == Table(w.blobs[..c], Counts(w, c, n))
    decreases c, n, 0
  {
    if n == 0 {
      BeforeMeaning(w, c - 1);
      OpenMeaning(w, c);
    } else {
      GrownMeaning(w, c, n - 1);
      RowMeaning(w, c, n);
    }
  }

  lemma OpenMeaning(w: World, c: nat)
    requires w.Valid() && Fits(w) && 0 < c <= |w.blobs|
    requires Before(w, c - 1) == Table(w.blobs[..c - 1], Lengths(w.Kept()[..c - 1]))
    ensures BaseAt(w, c) == TotalChunks(Lengths(w.Kept()[..c - 1]))
    ensures Grown(w, c, 0) == Table(w.blobs[..c], Counts(w, c, 0))
  {
    var ls, ns, l := w.blobs[..c - 1], Lengths(w.Kept()[..c - 1]), w.blobs[c - 1];
    PrefixFits(w, c - 1);
    TableLength(ls, ns);
    Wrap32Range(TotalChunks(ns));
    TableSnoc(ls, ns, l, 0);
    assert ls + [l] == w.blobs[..c];
    assert BlobChunks(l, 1) == [BlobIdEntry(l.name, 0, l.etag)];
  }

  lemma RowMeaning(w: World, c: nat, n: nat)
    requires At(w, c, n) && c > 0 && n > 0
    requires BaseAt(w, c) == TotalChunks(Lengths(w.Kept()[..c - 1]))
    requires Grown(w, c, n - 1) == Table(w.blobs[..c], Counts(w, c, n - 1))
    ensures Grown(w, c, n) == Table(w.blobs[..c], Counts(w, c, n))
  {
    var ns := Counts(w, c, n - 1);
    TableGrows(w.blobs[..c], ns);
    assert ns[c - 1 := n] == Counts(w, c, n);
    assert ns[..c - 1] == Lengths(w.Kept()[..c - 1]);
  }

  lemma {:induction false} BeforeMeaning(w: World, c: nat)
    requires w.Valid() && c <= |w.blobs| && Fits(w)
    ensures Before(w, c) == Table(w.blobs[..c], Lengths(w.Kept()[..c]))
    decreases c, if c == 0 then 0 else |w.Rows(c - 1)|, 1
  {
    if c > 0 {
      GrownMeaning(w, c, |w.Rows(c - 1)|);
      assert Counts(w, c, |w.Rows(c - 1)|) == Lengths(w.Kept()[..c]);
    }
  }

  /** A proper prefix of the blobs leaves room for another entry in the 32-bit index space. */
  lemma PrefixFits(w: World, i: nat)
    requires w.Valid() && Fits(w) && i < |w.blobs|
    ensures TotalChunks(Lengths(w.Kept()[..i])) < U32_SIZE
  {
    var ms := Lengths(w.Kept());
    assert ms[..i] == Lengths(w.Kept()[..i]);
    TotalChunksPrefix(ms, i);
  }

  lemma TableSnoc(ls: seq<Listed>, ns: seq<nat>, l: Listed, n: nat)
    requires |ls| == |ns|
    ensures Table(ls + [l], ns + [n]) == Table(ls, ns) + BlobChunks(l, Chunks(n))
  {
    assert (ls + [l])[..|ls|] == ls && (ns + [n])[..|ns|] == ns;
  }

  /** The table grows by one entry exactly when the next row of the last blob starts a new chunk. */
  lemma TableGrows(ls: seq<Listed>, ns: seq<nat>)
    requires |ls| == |ns| > 0
    ensures var last := |ns| - 1;
            Table(ls, ns[last := ns[last] + 1]) == Grow(Table(ls, ns), TotalChunks(ns[..last]), ns[last])
  {
    var last := |ns| - 1;
    var n, base := ns[last], TotalChunks(ns[..last]);
    assert ns[last := n + 1][..last] == ns[..last];
    TableLength(ls[..last], ns[..last]);
    ChunksStep(n);
    if n > 0 && Rem(n) == 0 {
      QuotRem(n);
      GrowBoundary(Table(ls[..last], ns[..last]), ls[last], n);
    }
  }

  lemma GrowBoundary(before: seq<BlobIdEntry>, l: Listed, n: nat)
    requires n > 0 && Rem(n) == 0 && n == Quot(n) * CHUNK_ROWS
    ensures Grow(before + BlobChunks(l, Quot(n)), |before|, n) == before + BlobChunks(l, Quot(n) + 1)
  {
    BlobChunksSnoc(l, Quot(n), n);
    assert Quot(n) > 0;
    assert (before + BlobChunks(l, Quot(n)))[|before|] == BlobIdEntry(l.name, 0, l.etag);
  }

  lemma BlobChunksSnoc(l: Listed, k: nat, n: nat)
    requires n == k * CHUNK_ROWS
    ensures BlobChunks(l, k + 1) == BlobChunks(l, k) + [BlobIdEntry(l.name, n, l.etag)]
  {
  }

  lemma BaseMeaning(w: World, c: nat)
    requires w.Valid() && Fits(w) && 0 < c <= |w.blobs|
    ensures BaseAt(w, c) == TotalChunks(Lengths(w.Kept()[..c - 1]))
  {
    GrownMeaning(w, c, 0);
  }

  lemma {:induction false} EmitsMeaning(w: World, c: nat, n: nat)
    requires At(w, c, n) && Fits(w) && c > 0
    ensures EmitsAt(w, c, n) ==
            Stamped(w.Kept(), c - 1) + StampedBlob(c - 1, w.Rows(c - 1), n, TotalChunks(Lengths(w.Kept()[..c - 1])))
    decreases c, n
  {
    BaseMeaning(w, c);
    if n > 0 {
      EmitsMeaning(w, c, n - 1);
    } else if c > 1 {
      EmitsMeaning(w, c - 1, |w.Rows(c - 2)|);
    }
  }

  /**
   The executor drives the scan to its end: every row every stream yields is emitted, in order, and
   the lazily grown chunk table is the one those yields call for.
   */
  method RunScan(s: ScanState) returns (rows: seq<Emitted>)
    requires s.Inv(0) && s.cursor == 0 && Fits(s.w)
    modifies s
    ensures |s.w.blobs| == |s.w.streams|
    ensures s.table == Table(s.w.blobs, Lengths(s.w.Kept()))
    ensures rows == Stamped(s.w.Kept(), |s.w.streams|)
  {
    rows := [];
    while true
      invariant s.Inv(0) && rows == s.Emits()
      decreases |s.w.blobs| - s.cursor, (if s.cursor == 0 then 0 else |s.w.Rows(s.cursor - 1)|) - s.curRowInBlob
    {
      var out := s.Iterate();
      if out.None? {
        ghost var c := |s.w.blobs|;
        assert s.w.blobs[..c] == s.w.blobs && s.w.Kept()[..c] == s.w.Kept();
        BeforeMeaning(s.w, c);
        if c > 0 {
          EmitsMeaning(s.w, c, s.curRowInBlob);
        }
        return;
      }
      rows := rows + [out.value];
    }
  }
}
