/**
 The shared-memory blob list of a parallel scan and its cursor (src/fdw/parallel.rs): entries packed into a
 byte buffer through an advancing position, and an atomic counter that hands them out.
 */
module Dsm {
  import opened Numbers
  import opened Wrappers
  import opened Text
  import opened Pushdown
  import opened LikeRange

  datatype BlobRef = BlobRef(name: Bytes, etag: Bytes)

  const HEADER_BYTES: nat := 24

  // ---------- little-endian lengths -----------------------------------------------------

  function Le(n: nat, k: nat): (bs: Bytes)
    ensures |bs| == k
  {
    if k == 0 then [] else [n % 256] + Le(n / 256, k - 1)
  }

  function FromLe(bs: Bytes): nat {
    if bs == [] then 0 else bs[0] + 256 * FromLe(bs[1..])
  }

  function Pow256(k: nat): nat {
    if k == 0 then 1 else 256 * Pow256(k - 1)
  }

  lemma {:induction false} LeRoundTrip(n: nat, k: nat)
    requires n < Pow256(k)
    ensures FromLe(Le(n, k)) == n
  {
    if k > 0 {
      assert n / 256 < Pow256(k - 1);
      LeRoundTrip(n / 256, k - 1);
      assert Le(n, k)[1..] == Le(n / 256, k - 1);
    }
  }

  /** Four bytes, the lowest first. */
  lemma LengthBytes(n: nat)
    requires n < U32_SIZE
    ensures var bs := Le(n, 4); n == bs[0] as nat + 0x100 * (bs[1] as nat) + 0x1_0000 * (bs[2] as nat) + 0x100_0000 * (bs[3] as nat)
  {
    var bs := Le(n, 4);
    assert bs[1..] == Le(n / 256, 3) && bs[1..][1..] == Le(n / 256 / 256, 2) && bs[1..][1..][1..] == Le(n / 256 / 256 / 256, 1);
    assert bs[1] == n / 256 % 256 && bs[2] == n / 256 / 256 % 256 && bs[3] == n / 256 / 256 / 256 % 256;
  }

  lemma LengthRoundTrip(n: nat)
    requires n < U32_SIZE
    ensures FromLe(Le(n, 4)) == n
  {
    assert Pow256(1) == 256;
    assert Pow256(2) == 65536;
    assert Pow256(3) == 16777216;
    assert Pow256(4) == U32_SIZE;
    LeRoundTrip(n, 4);
  }

  // ---------- packing ---------------------------------------------------------------------

  function Entry(b: BlobRef): Bytes {
    Le(|b.name|, 4) + Le(|b.etag|, 4) + b.name + b.etag
  }

  ghost function Packed(blobs: seq<BlobRef>): Bytes {
    if blobs == [] then [] else Packed(blobs[..|blobs| - 1]) + Entry(blobs[|blobs| - 1])
  }

  /** The layout of an entry: the two lengths, then the name, then the etag. */
  lemma EntryLayout(b: BlobRef)
    ensures var e, at := Entry(b), 8 + |b.name|;
            && |e| == at + |b.etag| && e[..4] == Le(|b.name|, 4) && e[4..8] == Le(|b.etag|, 4)
            && e[8..at] == b.name && e[at..] == b.etag
  {
    hide Le;
    var e := Entry(b);
    assert e[..8] == Le(|b.name|, 4) + Le(|b.etag|, 4);
    assert e[..4] == e[..8][..4] && e[4..8] == e[..8][4..];
  }

  function PayloadSize(blobs: seq<BlobRef>): nat {
    if blobs == [] then 0
    else
      var last := blobs[|blobs| - 1];
      PayloadSize(blobs[..|blobs| - 1]) + 8 + |last.name| + |last.etag|
  }

  function DsmSizeFor(blobs: seq<BlobRef>): nat {
    HEADER_BYTES + PayloadSize(blobs)
  }

  /** The packed list fills exactly the size asked for. */
  lemma {:induction false} PackedSize(blobs: seq<BlobRef>)
    ensures HEADER_BYTES + |Packed(blobs)| == DsmSizeFor(blobs)
  {
    if blobs != [] {
      PackedSize(blobs[..|blobs| - 1]);
    }
  }

  lemma {:induction false} PackedPrefix(blobs: seq<BlobRef>, i: nat)
    requires i <= |blobs|
    ensures |Packed(blobs[..i])| <= |Packed(blobs)| && Packed(blobs[..i]) <= Packed(blobs)
  {
    if i < |blobs| {
      var front := blobs[..|blobs| - 1];
      PackedPrefix(front, i);
      assert front[..i] == blobs[..i];
    } else {
      assert blobs[..i] == blobs;
    }
  }

  /** Appends `bytes` to the `cur` bytes already written. */
  method CopyInto(dst: array<Byte>, cur: nat, bytes: Bytes) returns (next: nat)
    requires cur + |bytes| <= dst.Length
    modifies dst
    ensures next == cur + |bytes| && dst[..next] == old(dst[..cur]) + bytes
  {
    for k := 0 to |bytes|
      invariant dst[..cur + k] == old(dst[..cur]) + bytes[..k]
    {
      dst[cur + k] := bytes[k];
      assert dst[..cur + k + 1] == dst[..cur + k] + [bytes[k]];
      assert bytes[..k + 1] == bytes[..k] + [bytes[k]];
    }
    assert bytes[..|bytes|] == bytes;
    next := cur + |bytes|;
  }

  method WriteEntry(dst: array<Byte>, cur: nat, b: BlobRef) returns (next: nat)
    requires cur + |Entry(b)| <= dst.Length
    modifies dst
    ensures next == cur + |Entry(b)| && dst[..next] == old(dst[..cur]) + Entry(b)
  {
    hide Le;
    ghost var was := dst[..cur];
    next := CopyInto(dst, cur, Le(|b.name|, 4));
    next := CopyInto(dst, next, Le(|b.etag|, 4));
    next := CopyInto(dst, next, b.name);
    next := CopyInto(dst, next, b.etag);
    assert was + Le(|b.name|, 4) + Le(|b.etag|, 4) + b.name + b.etag == was + Entry(b);
  }

  /** Serializes the list into a buffer of exactly its size. */
  method SerializeBlobs(dst: array<Byte>, blobs: seq<BlobRef>)
    requires HEADER_BYTES + dst.Length == DsmSizeFor(blobs)
    modifies dst
    ensures dst[..] == Packed(blobs)
  {
    hide Entry;
    PackedSize(blobs);
    var cur: nat := 0;
    for i := 0 to |blobs|
      invariant cur == |Packed(blobs[..i])| <= dst.Length && dst[..cur] == Packed(blobs[..i])
    {
      PackedSnoc(blobs, i);
      cur := WriteEntry(dst, cur, blobs[i]);
    }
    assert blobs[..|blobs|] == blobs;
  }

  lemma PackedSnoc(blobs: seq<BlobRef>, i: nat)
    requires i < |blobs|
    ensures Packed(blobs[..i + 1]) == Packed(blobs[..i]) + Entry(blobs[i])
    ensures |Packed(blobs[..i])| + |Entry(blobs[i])| <= |Packed(blobs)|
  {
    assert blobs[..i + 1][..i] == blobs[..i];
    PackedPrefix(blobs, i + 1);
  }

  // ---------- unpacking ------------------------------------------------------------------------

  /** The entry at `pos`, and the position after it; refused if it would leave the payload or is not text. */
  function ReadEntry(payload: Bytes, pos: nat): Result<(BlobRef, nat)> {
    if pos + 8 > |payload| then Failure(SchemaMismatch)
    else
      var nl, el := FromLe(payload[pos..pos + 4]), FromLe(payload[pos + 4..pos + 8]);
      var at := pos + 8;
      if at + nl + el > |payload| then Failure(SchemaMismatch)
      else
        var name, etag := payload[at..at + nl], payload[at + nl..at + nl + el];
        if !ValidUtf8(name) || !ValidUtf8(etag) then Failure(SchemaMismatch)
        else Success((BlobRef(name, etag), at + nl + el))
  }

  ghost function Unpacked(payload: Bytes, n: nat): Result<(seq<BlobRef>, nat)> {
    if n == 0 then Success(([], 0))
    else
      var before := Unpacked(payload, n - 1);
      if before.Failure? then Failure(SchemaMismatch)
      else
        var one := ReadEntry(payload, before.value.1);
        if one.Failure? then Failure(SchemaMismatch)
        else Success((before.value.0 + [one.value.0], one.value.1))
  }

  /** Reads one entry; every index is within the declared size. */
  method ReadOne(src: array<Byte>, total: nat, pos: nat) returns (r: Result<(BlobRef, nat)>)
    requires total <= src.Length
    ensures r == ReadEntry(src[..total], pos)
  {
    hide FromLe, ValidUtf8;
    if pos + 8 > total {
      return Failure(SchemaMismatch);
    }
    var nl, el := FromLe(src[pos..pos + 4]), FromLe(src[pos + 4..pos + 8]);
    assert src[pos..pos + 4] == src[..total][pos..pos + 4] && src[pos + 4..pos + 8] == src[..total][pos + 4..pos + 8];
    var at := pos + 8;
    if at + nl + el > total {
      return Failure(SchemaMismatch);
    }
    var name, etag := src[at..at + nl], src[at + nl..at + nl + el];
    assert name == src[..total][at..at + nl] && etag == src[..total][at + nl..at + nl + el];
    if !ValidUtf8(name) || !ValidUtf8(etag) {
      return Failure(SchemaMismatch);
    }
    r := Success((BlobRef(name, etag), at + nl + el));
  }

  /** Deserializes any payload; one that does not parse within the declared size is an error. */
  method DeserializeBlobs(src: array<Byte>, total: nat, n: nat) returns (r: Result<seq<BlobRef>>)
    requires total <= src.Length
    ensures r.Success? <==> Unpacked(src[..total], n).Success?
    ensures r.Success? ==> r.value == Unpacked(src[..total], n).value.0
  {
    hide ReadEntry;
    var out: seq<BlobRef> := [];
    var pos: nat := 0;
    for i := 0 to n
      invariant Unpacked(src[..total], i) == Success((out, pos))
    {
      var one := ReadOne(src, total, pos);
      if one.Failure? {
        UnpackFails(src[..total], i + 1, n);
        return Failure(SchemaMismatch);
      }
      out, pos := out + [one.value.0], one.value.1;
    }
    r := Success(out);
  }

  lemma {:induction false} UnpackFails(payload: Bytes, i: nat, n: nat)
    requires i <= n && Unpacked(payload, i).Failure?
    ensures Unpacked(payload, n).Failure?
    decreases n
  {
    if i < n {
      UnpackFails(payload, i, n - 1);
    }
  }

  /** Names and etags are text whose lengths fit 32 bits. */
  ghost predicate Storable(blobs: seq<BlobRef>) {
    forall i | 0 <= i < |blobs| ::
      && ValidUtf8(blobs[i].name) && ValidUtf8(blobs[i].etag)
      && |blobs[i].name| < U32_SIZE && |blobs[i].etag| < U32_SIZE
  }

  lemma ReadBack(before: Bytes, b: BlobRef, after: Bytes)
    requires ValidUtf8(b.name) && ValidUtf8(b.etag) && |b.name| < U32_SIZE && |b.etag| < U32_SIZE
    ensures ReadEntry(before + Entry(b) + after, |before|) == Success((b, |before| + |Entry(b)|))
  {
    hide Le, FromLe, ValidUtf8;
    var payload, pos := before + Entry(b) + after, |before|;
    var nl, el := Le(|b.name|, 4), Le(|b.etag|, 4);
    assert payload[pos..pos + |Entry(b)|] == nl + el + b.name + b.etag;
    assert payload[pos..pos + 4] == nl;
    assert payload[pos + 4..pos + 8] == el;
    LengthRoundTrip(|b.name|);
    LengthRoundTrip(|b.etag|);
    var at := pos + 8;
    assert payload[at..at + |b.name|] == b.name;
    assert payload[at + |b.name|..at + |b.name| + |b.etag|] == b.etag;
  }

  lemma {:induction false} UnpackUpTo(blobs: seq<BlobRef>, i: nat)
    requires Storable(blobs) && i <= |blobs|
    ensures Unpacked(Packed(blobs), i) == Success((blobs[..i], |Packed(blobs[..i])|))
  {
    hide ReadEntry, Packed, Entry;
    if i > 0 {
      UnpackUpTo(blobs, i - 1);
      PackedSnoc(blobs, i - 1);
      PackedPrefix(blobs, i);
      var payload, before := Packed(blobs), Packed(blobs[..i - 1]);
      var after := payload[|Packed(blobs[..i])|..];
      assert payload == Packed(blobs[..i]) + after;
      ReadBack(before, blobs[i - 1], after);
      assert blobs[..i - 1] + [blobs[i - 1]] == blobs[..i];
    } else {
      PackedNothing();
    }
  }

  lemma PackedNothing()
    ensures Packed([]) == []
  {
  }

  /** Unpacking a packed list gives the list. */
  lemma PackRoundTrip(blobs: seq<BlobRef>)
    requires Storable(blobs)
    ensures Unpacked(Packed(blobs), |blobs|) == Success((blobs, |Packed(blobs)|))
  {
    UnpackUpTo(blobs, |blobs|);
    assert blobs[..|blobs|] == blobs;
  }

  // ---------- the cursor ---------------------------------------------------------------------------

  /** The segment header's cursor; each call is one atomic step, so a run is any sequence of calls. */
  class Cursor {
    var next: nat

    constructor ()
      ensures next == 0
    {
      next := 0;
    }

    /** Takes the next blob of the worker's own copy of the list. */
    method NextBlob(blobs: seq<BlobRef>) returns (r: Option<BlobRef>)
      modifies this
      ensures next == old(next) + 1
      ensures r == if old(next) < |blobs| then Some(blobs[old(next)]) else None
    {
      var idx := next;
      next := next + 1;
      r := if idx < |blobs| then Some(blobs[idx]) else None;
    }

    /** A rescan starts over. */
    method Reset()
      modifies this
      ensures next == 0
    {
      next := 0;
    }
  }

  /** What one call of one worker came back with. */
  datatype Taken = Taken(worker: nat, blob: Option<BlobRef>)

  /** The blobs handed out to the workers of `ws`, in the order of the calls. */
  ghost function Handed(taken: seq<Taken>, ws: iset<nat>): seq<BlobRef> {
    if taken == [] then []
    else
      var last := taken[|taken| - 1];
      Handed(taken[..|taken| - 1], ws) + if last.worker in ws && last.blob.Some? then [last.blob.value] else []
  }

  ghost predicate Exhausted(taken: seq<Taken>) {
    exists t | 0 <= t < |taken| :: taken[t].blob.None?
  }

  ghost const EVERYONE: iset<nat> := iset w: nat | true

  /** What goes to some workers and what goes to the others makes up what is handed out. */
  lemma {:induction false} SharesSplit(taken: seq<Taken>, ws: iset<nat>)
    ensures multiset(Handed(taken, ws)) + multiset(Handed(taken, EVERYONE - ws)) == multiset(Handed(taken, EVERYONE))
  {
    if taken != [] {
      SharesSplit(taken[..|taken| - 1], ws);
    }
  }

  /**
   The workers of `schedule` call in turn, each with the copy of the list it unpacked. The blobs are handed
   out in order, each to one call, and once any worker sees the end all have been.
   */
  method RunWorkers(cursor: Cursor, schedule: seq<nat>, copies: seq<seq<BlobRef>>, ghost blobs: seq<BlobRef>) returns (taken: seq<Taken>)
    requires cursor.next == 0 && forall w | 0 <= w < |copies| :: copies[w] == blobs
    requires forall t | 0 <= t < |schedule| :: schedule[t] < |copies|
    modifies cursor
    ensures |taken| == |schedule| && forall t | 0 <= t < |taken| :: taken[t].worker == schedule[t]
    ensures Handed(taken, EVERYONE) == blobs[..if |schedule| < |blobs| then |schedule| else |blobs|]
    ensures Exhausted(taken) ==> Handed(taken, EVERYONE) == blobs
    ensures Exhausted(taken) ==> forall ws :: multiset(Handed(taken, ws)) + multiset(Handed(taken, EVERYONE - ws)) == multiset(blobs)
  {
    taken := [];
    for i := 0 to |schedule|
      invariant cursor.next == i == |taken| && forall t | 0 <= t < i :: taken[t].worker == schedule[t]
      invariant Handed(taken, EVERYONE) == blobs[..if i < |blobs| then i else |blobs|]
      invariant Exhausted(taken) ==> i > |blobs|
    {
      var b := cursor.NextBlob(copies[schedule[i]]);
      assert (taken + [Taken(schedule[i], b)])[..i] == taken;
      taken := taken + [Taken(schedule[i], b)];
    }
    forall ws ensures multiset(Handed(taken, ws)) + multiset(Handed(taken, EVERYONE - ws)) == multiset(Handed(taken, EVERYONE)) {
      SharesSplit(taken, ws);
    }
  }
}
