/**
 The K-way merge of pre-sorted blobs (src/parquet_io/multifile.rs). The binary heap is a sequence from
 which any least entry may be taken, so nothing here depends on how it breaks ties.
 */
module Merge {
  import opened Wrappers
  import opened Names
  import opened SortKey
  import opened MergeSpec

  /** What a blob's reader yields: batches, possibly empty, or a read error. */
  datatype Item = Rows(rows: seq<Row>) | Broken

  datatype MergeError =
    | TooManyBlobs
    | LengthMismatch
    | ReadFailed
    | OutOfOrder(blob: Name)

  datatype MergeResult<+T> = Ok(value: T) | Err(error: MergeError)

  const MAX_MERGE_BLOBS := 256

  /** The rows of a stream up to its first read error. */
  ghost function RowsOf(items: seq<Item>): seq<Row> {
    if items == [] || items[0].Broken? then [] else items[0].rows + RowsOf(items[1..])
  }

  ghost predicate Clean(items: seq<Item>) {
    forall k | 0 <= k < |items| :: items[k].Rows?
  }

  datatype Pulled = Got(batch: seq<Row>, remaining: seq<Item>) | Exhausted | Failed

  /** Pulls until a batch with rows. */
  method PullNonEmpty(items: seq<Item>) returns (p: Pulled)
    ensures p.Got? ==> p.batch != [] && RowsOf(items) == p.batch + RowsOf(p.remaining)
    ensures p.Got? && Clean(items) ==> Clean(p.remaining)
    ensures p.Exhausted? ==> RowsOf(items) == []
    ensures p.Failed? ==> !Clean(items)
  {
    var left := items;
    while left != []
      invariant RowsOf(left) == RowsOf(items)
      invariant Clean(items) ==> Clean(left)
      decreases |left|
    {
      match left[0] {
        case Broken => return Failed;
        case Rows(rows) =>
          if rows != [] {
            return Got(rows, left[1..]);
          }
      }
      left := left[1..];
    }
    return Exhausted;
  }

  datatype HeapEntry = HeapEntry(key: Key, source: nat, batch: seq<Row>, row: nat)

  /** The entry holds the next row of its source: `rest` is what that source has not emitted. */
  ghost predicate Holds(e: HeapEntry, rest: seq<Row>, items: seq<Item>, cols: seq<nat>) {
    && e.row < |e.batch| && e.key == KeyOf(e.batch[e.row], cols)
    && rest == e.batch[e.row..] + RowsOf(items)
  }

  predicate LeastAt(heap: seq<HeapEntry>, k: nat)
    requires k < |heap|
  {
    forall m | 0 <= m < |heap| :: Le(heap[k].key, heap[m].key)
  }

  /** Removes a least entry. */
  method PopLeast(heap: seq<HeapEntry>) returns (e: HeapEntry, left: seq<HeapEntry>, ghost k: nat)
    requires heap != []
    ensures k < |heap| && e == heap[k] && left == heap[..k] + heap[k + 1..] && LeastAt(heap, k)
  {
    var _ := LeastExists(heap);
    var at :| 0 <= at < |heap| && LeastAt(heap, at);
    k := at;
    e, left := heap[at], heap[..at] + heap[at + 1..];
  }

  lemma {:induction false} LeastExists(heap: seq<HeapEntry>) returns (k: nat)
    requires heap != []
    ensures k < |heap| && LeastAt(heap, k)
  {
    hide Le;
    var last := |heap| - 1;
    LeTotal(heap[last].key, heap[last].key);
    if last == 0 {
      k := 0;
    } else {
      k := LeastExists(heap[..last]);
      LeTotal(heap[k].key, heap[last].key);
      if !Le(heap[k].key, heap[last].key) {
        forall m | 0 <= m < last ensures Le(heap[last].key, heap[m].key) {
          assert heap[..last][m] == heap[m];
          LeTrans(heap[last].key, heap[k].key, heap[m].key);
        }
        k := last;
      }
    }
  }

  /** One entry per source that still holds rows. */
  ghost predicate HeapOk(heap: seq<HeapEntry>, rest: seq<seq<Row>>, streams: seq<Option<seq<Item>>>, cols: seq<nat>) {
    && |streams| == |rest|
    && (forall k | 0 <= k < |heap| ::
          && heap[k].source < |rest| && streams[heap[k].source].Some?
          && Holds(heap[k], rest[heap[k].source], streams[heap[k].source].value, cols))
    && (forall k, m | 0 <= k < m < |heap| :: heap[k].source != heap[m].source)
    && (forall i | 0 <= i < |rest| && rest[i] != [] :: HasEntry(heap, i))
  }

  ghost predicate HasEntry(heap: seq<HeapEntry>, i: nat) {
    exists k | 0 <= k < |heap| :: heap[k].source == i
  }

  ghost predicate AllClean(streams: seq<Option<seq<Item>>>) {
    forall i | 0 <= i < |streams| && streams[i].Some? :: Clean(streams[i].value)
  }

  /** The least entry of the heap is the least head of the sources. */
  lemma LeastEntryIsLeast(heap: seq<HeapEntry>, rest: seq<seq<Row>>, streams: seq<Option<seq<Item>>>, cols: seq<nat>, k: nat)
    requires HeapOk(heap, rest, streams, cols) && k < |heap|
    requires LeastAt(heap, k)
    ensures rest[heap[k].source] != [] && rest[heap[k].source][0] == heap[k].batch[heap[k].row]
    ensures IsLeast(rest, cols, heap[k].source)
  {
    forall j | 0 <= j < |rest| && rest[j] != [] ensures RowLe(rest[heap[k].source][0], rest[j][0], cols) {
      assert HasEntry(heap, j);
      var m :| 0 <= m < |heap| && heap[m].source == j;
      assert Le(heap[k].key, heap[m].key);
    }
  }

  /** Taking entry `k` off, and its row off its source. */
  lemma HeapTake(heap: seq<HeapEntry>, rest: seq<seq<Row>>, streams: seq<Option<seq<Item>>>, cols: seq<nat>, k: nat,
                 left: seq<HeapEntry>, items: Option<seq<Item>>)
    requires HeapOk(heap, rest, streams, cols) && k < |heap| && left == heap[..k] + heap[k + 1..]
    requires rest[heap[k].source] != []
    requires var e := heap[k]; rest[e.source][1..] == []
    ensures var i := heap[k].source; HeapOk(left, rest[i := rest[i][1..]], streams[i := items], cols)
  {
    hide Holds;
    var i := heap[k].source;
    forall j | 0 <= j < |rest| && j != i && rest[j] != [] ensures HasEntry(left, j) {
      OtherEntry(heap, k, left, j);
    }
  }

  lemma OtherEntry(heap: seq<HeapEntry>, k: nat, left: seq<HeapEntry>, j: nat)
    requires k < |heap| && left == heap[..k] + heap[k + 1..] && heap[k].source != j && HasEntry(heap, j)
    ensures HasEntry(left, j)
  {
    var m :| 0 <= m < |heap| && heap[m].source == j;
    if m < k {
      assert left[m] == heap[m];
    } else {
      assert left[m - 1] == heap[m];
    }
  }

  /** Replacing entry `k` by the next one of its source. */
  lemma HeapReplace(heap: seq<HeapEntry>, rest: seq<seq<Row>>, streams: seq<Option<seq<Item>>>, cols: seq<nat>, k: nat,
                    left: seq<HeapEntry>, e: HeapEntry, items: seq<Item>)
    requires HeapOk(heap, rest, streams, cols) && k < |heap| && left == heap[..k] + heap[k + 1..]
    requires rest[heap[k].source] != [] && e.source == heap[k].source
    requires Holds(e, rest[e.source][1..], items, cols)
    ensures HeapOk(left + [e], rest[e.source := rest[e.source][1..]], streams[e.source := Some(items)], cols)
  {
    hide Holds;
    var i := e.source;
    forall j | 0 <= j < |rest| && rest[j] != [] ensures HasEntry(left + [e], j) {
      if j == i {
        assert (left + [e])[|left|].source == j;
      } else {
        OtherEntry(heap, k, left, j);
        var m :| 0 <= m < |left| && left[m].source == j;
        assert (left + [e])[m].source == j;
      }
    }
  }

  class MultiFileSortedStream {
    const blobNames: seq<Name>
    const cols: seq<nat>
    var streams: seq<Option<seq<Item>>>
    var heap: seq<HeapEntry>
    var lastEmitted: Option<Key>

    ghost const all: seq<seq<Row>>   // the rows of every source
    ghost var out: seq<Emit>         // emitted so far
    ghost var rest: seq<seq<Row>>    // not yet emitted

    ghost predicate Valid()
      reads this
    {
      && |blobNames| == |all|
      && HeapOk(heap, rest, streams, cols) && Merging(all, out, rest, cols)
      && lastEmitted == if out == [] then None else Some(KeyOf(out[|out| - 1].row, cols))
    }

    constructor (streams: seq<Option<seq<Item>>>, blobNames: seq<Name>, cols: seq<nat>, heap: seq<HeapEntry>,
                 ghost all: seq<seq<Row>>)
      requires |blobNames| == |all| && HeapOk(heap, all, streams, cols)
      ensures Valid() && this.streams == streams && this.blobNames == blobNames && this.cols == cols
      ensures this.all == all && out == []
    {
      this.streams, this.blobNames, this.cols, this.heap := streams, blobNames, cols, heap;
      lastEmitted := None;
      this.all, out, rest := all, [], all;
      MergingStarts(all, cols);
    }

    /** Puts the next row of the source of `e`, just taken off the heap, back on it. */
    method Advance(e: HeapEntry, left: seq<HeapEntry>, ghost was: seq<HeapEntry>, ghost k: nat) returns (ok: bool)
      requires HeapOk(was, rest, streams, cols) && k < |was| && e == was[k] && left == was[..k] + was[k + 1..]
      requires rest[e.source] != []
      modifies this`heap, this`streams
      ensures ok ==> HeapOk(heap, rest[e.source := rest[e.source][1..]], streams, cols)
      ensures old(AllClean(streams)) ==> ok && AllClean(streams)
    {
      assert Holds(e, rest[e.source], streams[e.source].value, cols);
      assert e.batch[e.row..][1..] == e.batch[e.row + 1..];
      ghost var items := streams[e.source].value;
      assert rest[e.source][1..] == e.batch[e.row + 1..] + RowsOf(items);
      if e.row + 1 < |e.batch| {
        var next := HeapEntry(KeyOf(e.batch[e.row + 1], cols), e.source, e.batch, e.row + 1);
        HeapReplace(was, rest, streams, cols, k, left, next, items);
        assert streams[e.source := Some(items)] == streams;
        heap := left + [next];
        return true;
      }
      var pulled := PullNonEmpty(streams[e.source].value);
      match pulled {
        case Failed => return false;
        case Exhausted =>
          HeapTake(was, rest, streams, cols, k, left, None);
          heap, streams := left, streams[e.source := None];
        case Got(batch, remaining) =>
          var next := HeapEntry(KeyOf(batch[0], cols), e.source, batch, 0);
          assert batch[0..] == batch;
          HeapReplace(was, rest, streams, cols, k, left, next, remaining);
          heap, streams := left + [next], streams[e.source := Some(remaining)];
      }
      return true;
    }

    /**
     The next row in merged order, or none. It fails for order exactly when the source that emitted
     last has an inversion at its next row, and then names that source's blob.
     */
    method NextRow() returns (r: MergeResult<Option<(seq<Row>, nat)>>, ghost from: nat)
      requires Valid()
      modifies this
      ensures r.Ok? ==> Valid()
      ensures |blobNames| == |all| && Merging(all, out, rest, cols)
      ensures r.Ok? && r.value.None? ==> out == old(out) && forall i | 0 <= i < |rest| :: rest[i] == []
      ensures r.Ok? && r.value.Some? ==>
                && r.value.value.1 < |r.value.value.0|
                && out == old(out) + [Emit(from, r.value.value.0[r.value.value.1])]
                && |Union(rest)| < |Union(old(rest))|
      ensures r.Err? ==> out == old(out) && (r.error.ReadFailed? || r.error.OutOfOrder?)
      ensures r.Err? && r.error.OutOfOrder? <==> Inverted(all, old(out), cols)
      ensures r.Err? && r.error.OutOfOrder? ==> BreaksOrder(all, out, cols, from) && r.error.blob == blobNames[from]
      ensures old(AllClean(streams)) ==> AllClean(streams) && (r.Err? ==> r.error.OutOfOrder?)
    {
      hide Merging, HeapOk, HeadAfterLast, IsLeast, BreaksOrder, Union, CmpKey, Inverted, LeastAt;
      if heap == [] {
        EmptyHeap(heap, rest, streams, all, out, cols);
        return Ok(None), 0;
      }
      ghost var was := heap;
      var e, left, k := PopLeast(heap);
      heap := left;
      from := e.source;
      Judge(was, rest, streams, all, out, cols, k);
      if lastEmitted.Some? && CmpKey(e.key, lastEmitted.value) < 0 {
        return Err(OutOfOrder(blobNames[e.source])), from;
      }
      lastEmitted := Some(e.key);
      var ok := Advance(e, left, was, k);
      if !ok {
        return Err(ReadFailed), from;
      }
      MergingStep(all, out, rest, cols, from);
      UnionDrop(rest, from);
      out, rest := out + [Emit(from, rest[from][0])], rest[from := rest[from][1..]];
      r := Ok(Some((e.batch, e.row)));
    }
  }

  /** Some source is out of order at its next row, having just emitted the one before. */
  ghost predicate Inverted(all: seq<seq<Row>>, out: seq<Emit>, cols: seq<nat>) {
    exists i | 0 <= i < |all| :: BreaksOrder(all, out, cols, i)
  }

  /** What the order check on a least entry decides. */
  lemma Judge(heap: seq<HeapEntry>, rest: seq<seq<Row>>, streams: seq<Option<seq<Item>>>,
              all: seq<seq<Row>>, out: seq<Emit>, cols: seq<nat>, k: nat)
    requires HeapOk(heap, rest, streams, cols) && Merging(all, out, rest, cols) && k < |heap| && LeastAt(heap, k)
    ensures var e := heap[k];
            && e.source < |rest| == |all| && e.row < |e.batch| && e.key == KeyOf(e.batch[e.row], cols)
            && rest[e.source] != [] && rest[e.source][0] == e.batch[e.row] && IsLeast(rest, cols, e.source)
            && if out != [] && CmpKey(e.key, KeyOf(out[|out| - 1].row, cols)) < 0
               then BreaksOrder(all, out, cols, e.source) && Inverted(all, out, cols)
               else HeadAfterLast(out, rest, cols, e.source) && !Inverted(all, out, cols)
  {
    var e := heap[k];
    LeastEntryIsLeast(heap, rest, streams, cols, k);
    StopsAtInversion(all, out, rest, cols, e.source);
    if out != [] {
      KeyOrder(e.key, KeyOf(out[|out| - 1].row, cols), e.key);
    }
  }

  lemma EmptyHeap(heap: seq<HeapEntry>, rest: seq<seq<Row>>, streams: seq<Option<seq<Item>>>,
                  all: seq<seq<Row>>, out: seq<Emit>, cols: seq<nat>)
    requires HeapOk(heap, rest, streams, cols) && Merging(all, out, rest, cols) && heap == []
    ensures forall i | 0 <= i < |rest| :: rest[i] == []
    ensures !Inverted(all, out, cols)
  {
    forall i | 0 <= i < |all| ensures !BreaksOrder(all, out, cols, i) {
      NoHeadNoInversion(all, out, rest, cols, i);
    }
  }

  /** With nothing left to emit there is no inversion to meet. */
  lemma NoHeadNoInversion(all: seq<seq<Row>>, out: seq<Emit>, rest: seq<seq<Row>>, cols: seq<nat>, i: nat)
    requires Merging(all, out, rest, cols) && forall j | 0 <= j < |rest| :: rest[j] == []
    ensures !BreaksOrder(all, out, cols, i)
  {
    if i < |all| {
      assert Mine(out, i) + rest[i] == all[i];
    }
  }

  // ---------- a whole merge -------------------------------------------------------

  ghost function Sources(streams: seq<seq<Item>>): (all: seq<seq<Row>>)
    ensures |all| == |streams|
  {
    seq(|streams|, i requires 0 <= i < |streams| => RowsOf(streams[i]))
  }

  ghost predicate CleanSources(streams: seq<seq<Item>>) {
    forall i | 0 <= i < |streams| :: Clean(streams[i])
  }

  /** Opens every stream at its first row. */
  method Open(streams: seq<seq<Item>>, blobNames: seq<Name>, cols: seq<nat>) returns (r: MergeResult<MultiFileSortedStream>)
    ensures |streams| > 256 ==> r == Err(TooManyBlobs)
    ensures |streams| <= 256 && |streams| != |blobNames| ==> r == Err(LengthMismatch)
    ensures |streams| <= 256 && |streams| == |blobNames| && r.Err? ==> r.error.ReadFailed? && !CleanSources(streams)
    ensures r.Ok? ==>
              && fresh(r.value) && r.value.Valid() && r.value.all == Sources(streams) && r.value.out == []
              && r.value.blobNames == blobNames && r.value.cols == cols
              && (CleanSources(streams) ==> AllClean(r.value.streams))
  {
    if |streams| > MAX_MERGE_BLOBS {
      return Err(TooManyBlobs);
    }
    if |streams| != |blobNames| {
      return Err(LengthMismatch);
    }
    var heap: seq<HeapEntry> := [];
    var wrapped: seq<Option<seq<Item>>> := [];
    for i := 0 to |streams|
      invariant |wrapped| == i && HeapOk(heap, Sources(streams)[..i], wrapped, cols)
      invariant CleanSources(streams) ==> AllClean(wrapped)
    {
      hide HeapOk, RowsOf;
      assert Sources(streams)[..i + 1] == Sources(streams)[..i] + [RowsOf(streams[i])];
      var pulled := PullNonEmpty(streams[i]);
      match pulled {
        case Failed => return Err(ReadFailed);
        case Exhausted =>
          HeapGrow(heap, Sources(streams)[..i], wrapped, cols, None, [], []);
          wrapped := wrapped + [Some([])];
        case Got(batch, remaining) =>
          var e := HeapEntry(KeyOf(batch[0], cols), i, batch, 0);
          assert batch[0..] == batch;
          HeapGrow(heap, Sources(streams)[..i], wrapped, cols, Some(e), remaining, RowsOf(streams[i]));
          heap, wrapped := heap + [e], wrapped + [Some(remaining)];
      }
    }
    assert Sources(streams)[..|streams|] == Sources(streams);
    var m := new MultiFileSortedStream(wrapped, blobNames, cols, heap, Sources(streams));
    r := Ok(m);
  }

  /** One more source, with its entry unless it has no rows. */
  lemma HeapGrow(heap: seq<HeapEntry>, rest: seq<seq<Row>>, streams: seq<Option<seq<Item>>>, cols: seq<nat>,
                 e: Option<HeapEntry>, items: seq<Item>, rows: seq<Row>)
    requires HeapOk(heap, rest, streams, cols)
    requires if e.None? then rows == [] else e.value.source == |rest| && Holds(e.value, rows, items, cols)
    ensures HeapOk(if e.None? then heap else heap + [e.value], rest + [rows], streams + [Some(items)], cols)
  {
    hide Holds;
    var now := if e.None? then heap else heap + [e.value];
    forall i | 0 <= i < |rest + [rows]| && (rest + [rows])[i] != [] ensures HasEntry(now, i) {
      if i < |rest| {
        assert HasEntry(heap, i);
        var k :| 0 <= k < |heap| && heap[k].source == i;
        assert now[k].source == i;
      } else {
        assert now[|heap|].source == i;
      }
    }
  }

  lemma InversionShows(all: seq<seq<Row>>, out: seq<Emit>, cols: seq<nat>, i: nat)
    requires BreaksOrder(all, out, cols, i)
    ensures i < |all| && !InOrder(all[i], cols)
  {
    var p := |Mine(out, i)|;
    assert !RowLe(all[i][p - 1], all[i][p - 1 + 1], cols);
  }

  /**
   Runs the merge to its end. Over readable streams it completes exactly when every blob is in order,
   and then the output is sorted, keeps each blob's own order and is the multiset union of all rows.
   Otherwise it stops with the name of a blob that is out of order, right after the row before the
   inversion, and everything emitted so far is sorted.
   */
  method Drain(m: MultiFileSortedStream) returns (rows: seq<Row>, r: MergeResult<()>, ghost out: seq<Emit>, ghost from: nat)
    requires m.Valid() && m.out == []
    modifies m
    ensures rows == Emitted(out) && Sorted(rows, m.cols)
    ensures r.Ok? ==> multiset(rows) == Union(m.all)
    ensures r.Ok? ==> forall i | 0 <= i < |m.all| :: Mine(out, i) == m.all[i] && Sorted(m.all[i], m.cols)
    ensures r.Err? && r.error.OutOfOrder? ==>
              BreaksOrder(m.all, out, m.cols, from) && from < |m.blobNames| && r.error.blob == m.blobNames[from]
    ensures old(AllClean(m.streams)) ==>
              && (r.Err? ==> r.error.OutOfOrder?)
              && (r.Ok? <==> forall i | 0 <= i < |m.all| :: Sorted(m.all[i], m.cols))
  {
    hide BreaksOrder, InOrder, Sorted, Union, RowsOf, Mine, AllClean, HeapOk, Inverted, KeyOf, HeadAfterLast;
    forall some: seq<Row> ensures InOrder(some, m.cols) <==> Sorted(some, m.cols) {
      InOrderMeans(some, m.cols);
    }
    rows, out, from := [], [], 0;
    ghost var clean := AllClean(m.streams);
    while true
      invariant m.Valid() && out == m.out && rows == Emitted(out)
      invariant clean ==> AllClean(m.streams)
      decreases |Union(m.rest)|
    {
      var next, at := m.NextRow();
      from := at;
      if next.Err? {
        if next.error.OutOfOrder? {
          InversionShows(m.all, out, m.cols, from);
        }
        return rows, Err(next.error), out, from;
      }
      if next.value.None? {
        MergeComplete(m.all, m.out, m.rest, m.cols);
        return rows, Ok(()), out, from;
      }
      rows := rows + [next.value.value.0[next.value.value.1]];
      out := m.out;
    }
  }
}
