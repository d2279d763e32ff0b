/**
 The chunk table shared, by construction only, between a scan and the modify plan: one entry per
 65,536-row chunk of every blob. The scan stamps rows with positions in its own table; the plan
 rebuilds a table from row counts and walks a position back to a blob and a row.
 */
module ChunkTable {
  import opened Numbers
  import opened Wrappers
  import opened RowIds
  import opened Names

  datatype Listed = Listed(name: Name, etag: Etag)

  datatype BlobIdEntry = BlobIdEntry(name: Name, chunkBaseRow: nat, etag: Etag)

  /** Chunks of a blob of `n` rows: rounded up, and never less than one. */
  function Chunks(n: nat): (k: nat)
    ensures k >= 1
  {
    if n <= CHUNK_ROWS then 1 else 1 + Chunks(n - CHUNK_ROWS)
  }

  lemma {:induction false} ChunksStep(n: nat)
    ensures Chunks(n + 1) == Quot(n) + 1
    ensures n > 0 && Rem(n) == 0 ==> Chunks(n) == Quot(n)
    ensures n == 0 || Rem(n) != 0 ==> Chunks(n) == Chunks(n + 1)
  {
    if n >= CHUNK_ROWS {
      ChunksStep(n - CHUNK_ROWS);
    }
  }

  /** The closed form: the row count divided by the chunk size, rounded up, at least one. */
  lemma ChunksClosedForm(n: nat)
    ensures Chunks(n) == if n == 0 then 1 else (n + 65535) / 65536
  {
    if n > 0 {
      ChunksStep(n - 1);
      DivMod(n - 1);
    }
  }

  lemma {:induction false} ChunksMonotone(m: nat, n: nat)
    requires m <= n
    ensures Chunks(m) <= Chunks(n)
  {
    if m > CHUNK_ROWS {
      ChunksMonotone(m - CHUNK_ROWS, n - CHUNK_ROWS);
    }
  }

  function BlobChunks(l: Listed, k: nat): (es: seq<BlobIdEntry>)
    ensures |es| == k
  {
    seq(k, c requires 0 <= c < k => BlobIdEntry(l.name, c * CHUNK_ROWS, l.etag))
  }

  /** The table for blobs `ls` with row counts `ns`. */
  ghost function Table(ls: seq<Listed>, ns: seq<nat>): seq<BlobIdEntry>
    requires |ls| == |ns|
  {
    if ls == [] then []
    else
      var last := |ls| - 1;
      Table(ls[..last], ns[..last]) + BlobChunks(ls[last], Chunks(ns[last]))
  }

  /** Table entries before the blob at the end of `ns`. */
  ghost function TotalChunks(ns: seq<nat>): nat {
    if ns == [] then 0 else TotalChunks(ns[..|ns| - 1]) + Chunks(ns[|ns| - 1])
  }

  lemma {:induction false} TableLength(ls: seq<Listed>, ns: seq<nat>)
    requires |ls| == |ns|
    ensures |Table(ls, ns)| == TotalChunks(ns)
  {
    if ls != [] {
      TableLength(ls[..|ls| - 1], ns[..|ns| - 1]);
    }
  }

  lemma {:induction false} TotalChunksPrefix(ns: seq<nat>, i: nat)
    requires i < |ns|
    ensures TotalChunks(ns[..i]) + Chunks(ns[i]) <= TotalChunks(ns)
  {
    var last := |ns| - 1;
    if i < last {
      TotalChunksPrefix(ns[..last], i);
      assert ns[..last][..i] == ns[..i];
    }
  }

  lemma {:induction false} TotalChunksMonotone(ms: seq<nat>, ns: seq<nat>)
    requires |ms| == |ns| && forall i | 0 <= i < |ms| :: ms[i] <= ns[i]
    ensures TotalChunks(ms) <= TotalChunks(ns)
    ensures TotalChunks(ms) == TotalChunks(ns) <==> forall i | 0 <= i < |ms| :: Chunks(ms[i]) == Chunks(ns[i])
  {
    if ms != [] {
      var last := |ms| - 1;
      TotalChunksMonotone(ms[..last], ns[..last]);
      ChunksMonotone(ms[last], ns[last]);
      if TotalChunks(ms) == TotalChunks(ns) {
        assert forall i | 0 <= i < last :: Chunks(ms[..last][i]) == Chunks(ns[..last][i]);
      }
    }
  }

  /** The entry of chunk `c` of blob `i`. */
  lemma {:induction false} TableAt(ls: seq<Listed>, ns: seq<nat>, i: nat, c: nat)
    requires |ls| == |ns| && i < |ls| && c < Chunks(ns[i])
    ensures TotalChunks(ns[..i]) + c < |Table(ls, ns)|
    ensures Table(ls, ns)[TotalChunks(ns[..i]) + c] == BlobIdEntry(ls[i].name, c * CHUNK_ROWS, ls[i].etag)
  {
    var last := |ls| - 1;
    TableLength(ls[..last], ns[..last]);
    if i < last {
      TableAt(ls[..last], ns[..last], i, c);
      assert ns[..last][..i] == ns[..i];
    }
  }

  /** First index of the run of equal names that ends at `k`. */
  ghost function RunStart(table: seq<BlobIdEntry>, k: nat): (start: nat)
    requires k < |table|
    ensures start <= k
  {
    if k > 0 && table[k - 1].name == table[k].name then RunStart(table, k - 1) else k
  }

  /** What `resolve_to_source` answers: base identifier and absolute row, or an error out of range. */
  ghost function Resolved(table: seq<BlobIdEntry>, r: RowId): Result<(nat, nat)> {
    if r.blobId >= |table| then Failure(SchemaMismatch)
    else Success((RunStart(table, r.blobId), table[r.blobId].chunkBaseRow + r.offset))
  }

  method ResolveToSource(table: seq<BlobIdEntry>, r: RowId) returns (res: Result<(nat, nat)>)
    ensures res == Resolved(table, r)
  {
    if r.blobId >= |table| {
      return Failure(SchemaMismatch);
    }
    var entry := table[r.blobId];
    var base: nat := r.blobId;
    while base > 0
      invariant base <= r.blobId && table[base].name == entry.name
      invariant RunStart(table, base) == RunStart(table, r.blobId)
    {
      if table[base - 1].name != entry.name {
        break;
      }
      base := base - 1;
    }
    res := Success((base, entry.chunkBaseRow + r.offset));
  }

  ghost predicate DistinctNames(ls: seq<Listed>) {
    forall i, j | 0 <= i < j < |ls| :: ls[i].name != ls[j].name
  }

  lemma {:induction false} RunStartsAtBlob(ls: seq<Listed>, ns: seq<nat>, i: nat, c: nat)
    requires |ls| == |ns| && DistinctNames(ls) && i < |ls| && c < Chunks(ns[i])
    ensures TotalChunks(ns[..i]) + c < |Table(ls, ns)|
    ensures RunStart(Table(ls, ns), TotalChunks(ns[..i]) + c) == TotalChunks(ns[..i])
  {
    TableAt(ls, ns, i, c);
    if c > 0 {
      TableAt(ls, ns, i, c - 1);
      RunStartsAtBlob(ls, ns, i, c - 1);
    } else if i > 0 {
      var prev := ns[..i];
      assert prev[..i - 1] == ns[..i - 1] && prev[|prev| - 1] == ns[i - 1];
      TableAt(ls, ns, i - 1, Chunks(ns[i - 1]) - 1);
    }
  }

  /** Resolving chunk `c`, offset `o` of blob `i` gives that blob and that row. */
  lemma ResolvedInTable(ls: seq<Listed>, ns: seq<nat>, i: nat, c: nat, o: u16)
    requires |ls| == |ns| && DistinctNames(ls) && i < |ls| && c < Chunks(ns[i])
    requires TotalChunks(ns) <= U32_SIZE
    ensures TotalChunks(ns[..i]) + c < U32_SIZE
    ensures Resolved(Table(ls, ns), RowId(TotalChunks(ns[..i]) + c, o)) ==
            Success((TotalChunks(ns[..i]), c * CHUNK_ROWS + o))
  {
    hide Chunks, Table, TotalChunks;
    TableLength(ls, ns);
    TableAt(ls, ns, i, c);
    RunStartsAtBlob(ls, ns, i, c);
  }

  /** The item pointer a scan stamps on its `j`-th emitted row of the blob based at `base`. */
  function Stamp(base: nat, j: nat): ItemPointer {
    Wrap32Range(base);
    ToCtid(FromAbsolute(Wrap32(base), j))
  }

  /**
   Row `j` emitted from blob `i` comes back as its own blob and absolute row. `kept[i]` lists the
   absolute rows the stream of blob `i` yields, `ns[i]` is that blob's row count.
   */
  ghost predicate ComesBack(ls: seq<Listed>, ns: seq<nat>, kept: seq<seq<nat>>, i: nat, j: nat)
    requires |ls| == |ns| == |kept| && i < |ls| && j < |kept[i]|
  {
    Resolved(Table(ls, ns), FromCtid(Stamp(TotalChunks(Lengths(kept[..i])), j))) ==
    Success((TotalChunks(ns[..i]), kept[i][j]))
  }

  ghost function Lengths(kept: seq<seq<nat>>): (ms: seq<nat>)
    ensures |ms| == |kept|
  {
    seq(|kept|, i requires 0 <= i < |kept| => |kept[i]|)
  }

  /** Strictly ascending rows of a blob with `n` rows: what any row filter can leave. */
  ghost predicate Subrows(rows: seq<nat>, n: nat) {
    && (forall i | 0 <= i < |rows| :: rows[i] < n)
    && (forall i, j | 0 <= i < j < |rows| :: rows[i] < rows[j])
  }

  lemma {:induction false} SubrowsBound(rows: seq<nat>, n: nat, j: nat)
    requires Subrows(rows, n) && j < |rows|
    ensures j <= rows[j] && |rows| <= n
  {
    if j > 0 {
      SubrowsBound(rows, n, j - 1);
    }
    if j < |rows| - 1 {
      SubrowsUpper(rows, n, j);
    }
  }

  lemma {:induction false} SubrowsUpper(rows: seq<nat>, n: nat, j: nat)
    requires Subrows(rows, n) && j < |rows|
    ensures rows[j] + |rows| - j <= n
    decreases |rows| - j
  {
    if j + 1 < |rows| {
      SubrowsUpper(rows, n, j + 1);
    }
  }

  /** The scan's base for blob `i` never exceeds the plan's, and equals it exactly when all chunk counts agree. */
  lemma BasesAgree(ns: seq<nat>, kept: seq<seq<nat>>, i: nat)
    requires |ns| == |kept| && i <= |ns|
    requires forall b | 0 <= b < |ns| :: Subrows(kept[b], ns[b])
    ensures TotalChunks(Lengths(kept[..i])) <= TotalChunks(ns[..i])
    ensures TotalChunks(Lengths(kept[..i])) == TotalChunks(ns[..i]) <==>
            forall b | 0 <= b < i :: Chunks(|kept[b]|) == Chunks(ns[b])
  {
    var ms := Lengths(kept[..i]);
    forall b | 0 <= b < i ensures ms[b] == |kept[b]| <= ns[b] == ns[..i][b] {
      if kept[b] != [] {
        SubrowsBound(kept[b], ns[b], 0);
      }
    }
    TotalChunksMonotone(ms, ns[..i]);
    assert (forall b | 0 <= b < i :: Chunks(ms[b]) == Chunks(ns[..i][b])) <==>
           forall b | 0 <= b < i :: Chunks(|kept[b]|) == Chunks(ns[b]);
  }

  /**
   A row comes back exactly when no row of its blob before it was filtered out and every earlier
   blob kept its chunk count. The scan counts emitted rows, so a pushed-down filter breaks this.
   */
  lemma ComesBackIff(ls: seq<Listed>, ns: seq<nat>, kept: seq<seq<nat>>, i: nat, j: nat)
    requires |ls| == |ns| == |kept| && DistinctNames(ls) && TotalChunks(ns) <= U32_SIZE
    requires forall b | 0 <= b < |ls| :: Subrows(kept[b], ns[b])
    requires i < |ls| && j < |kept[i]|
    ensures ComesBack(ls, ns, kept, i, j) <==>
            && kept[i][j] == j
            && forall b | 0 <= b < i :: Chunks(|kept[b]|) == Chunks(ns[b])
  {
    BasesAgree(ns, kept, i);
    SubrowsBound(kept[i], ns[i], j);
    ShiftedComesBack(ls, ns, i, TotalChunks(Lengths(kept[..i])), j, kept[i][j]);
  }

  /**
   Where an edit lands: the scan hands out `at`, and the edit goes to the blob `b` that owns that chunk in
   the plan. Of the scan's own blob with equal bases that is row `j`, whichever row was meant.
   */
  lemma LandsOn(ls: seq<Listed>, ns: seq<nat>, kept: seq<seq<nat>>, i: nat, j: nat, b: nat)
    requires |ls| == |ns| == |kept| && DistinctNames(ls) && TotalChunks(ns) <= U32_SIZE
    requires i < |ls| && j < |kept[i]| && b < |ls|
    requires TotalChunks(ns[..b]) <= TotalChunks(Lengths(kept[..i])) + Quot(j) < TotalChunks(ns[..b]) + Chunks(ns[b])
    ensures var base, at := TotalChunks(ns[..b]), TotalChunks(Lengths(kept[..i]));
            && Resolved(Table(ls, ns), FromCtid(Stamp(at, j))) == Success((base, (at + Quot(j) - base) * CHUNK_ROWS + Rem(j)))
            && (at == base ==> Resolved(Table(ls, ns), FromCtid(Stamp(at, j))) == Success((base, j)))
  {
    hide Chunks, Table, TotalChunks, Resolved, Stamp, FromCtid;
    var base, at := TotalChunks(ns[..b]), TotalChunks(Lengths(kept[..i]));
    TotalChunksPrefix(ns, b);
    TableLength(ls, ns);
    QuotRem(j);
    StampDecodes(at, j);
    ResolvedInTable(ls, ns, b, at + Quot(j) - base, Rem(j));
  }

  /** A filter keeps row 1 of a blob of two rows, and the edit meant for row 1 lands on row 0. */
  lemma FilteredEditLandsOnRowZero(l: Listed)
    ensures !ComesBack([l], [2], [[1]], 0, 0)
    ensures Resolved(Table([l], [2]), FromCtid(Stamp(TotalChunks(Lengths([[1]][..0])), 0))) == Success((0, 0))
  {
    var kept: seq<seq<nat>> := [[1]];
    assert Chunks(2) == 1;
    assert TotalChunks([2]) == 1 by {
      assert [2][..0] == [];
    }
    assert Quot(0) == 0;
    assert TotalChunks([2][..0]) == 0 && TotalChunks(Lengths(kept[..0])) == 0;
    ComesBackIff([l], [2], kept, 0, 0);
    LandsOn([l], [2], kept, 0, 0, 0);
  }

  /**
   A scan that skips blobs, here reading only those at the ascending positions `read`, hands out
   identifiers that come back exactly for the blobs before the first skipped one.
   */
  lemma SkippedBlobsShift(ls: seq<Listed>, ns: seq<nat>, read: seq<nat>, m: nat, j: nat)
    requires |ls| == |ns| && DistinctNames(ls) && TotalChunks(ns) <= U32_SIZE
    requires Subrows(read, |ls|) && m < |read| && j < ns[read[m]]
    ensures (Resolved(Table(ls, ns), FromCtid(Stamp(TotalChunks(Selected(ns, read[..m])), j))) ==
             Success((TotalChunks(ns[..read[m]]), j))) <==> read[m] == m
  {
    SubrowsBound(read, |ls|, m);
    SelectedBases(ns, read, m);
    ShiftedComesBack(ls, ns, read[m], TotalChunks(Selected(ns, read[..m])), j, j);
  }

  ghost function Selected(ns: seq<nat>, read: seq<nat>): (ms: seq<nat>)
    requires forall i | 0 <= i < |read| :: read[i] < |ns|
    ensures |ms| == |read|
  {
    seq(|read|, i requires 0 <= i < |read| => ns[read[i]])
  }

  lemma {:induction false} SelectedBases(ns: seq<nat>, read: seq<nat>, m: nat)
    requires Subrows(read, |ns|) && m < |read|
    ensures TotalChunks(Selected(ns, read[..m])) <= TotalChunks(ns[..read[m]])
    ensures TotalChunks(Selected(ns, read[..m])) == TotalChunks(ns[..read[m]]) <==> read[m] == m
  {
    SubrowsBound(read, |ns|, m);
    if m == 0 {
      if read[0] > 0 {
        TotalChunksPrefix(ns[..read[0]], 0);
      }
    } else {
      SelectedBases(ns, read, m - 1);
      SubrowsBound(read, |ns|, m - 1);
      var ms := Selected(ns, read[..m]);
      assert ms[..m - 1] == Selected(ns, read[..m - 1]) && ms[m - 1] == ns[read[m - 1]];
      var upTo := ns[..read[m]];
      TotalChunksPrefix(upTo, read[m - 1]);
      assert upTo[..read[m - 1]] == ns[..read[m - 1]];
      GapChunks(ns, read[m - 1], read[m]);
    }
  }

  /** Passing over blobs strictly adds chunks beyond those of the first. */
  lemma GapChunks(ns: seq<nat>, i: nat, j: nat)
    requires i < j <= |ns|
    ensures TotalChunks(ns[..i]) + Chunks(ns[i]) <= TotalChunks(ns[..j])
    ensures TotalChunks(ns[..i]) + Chunks(ns[i]) == TotalChunks(ns[..j]) <==> j == i + 1
  {
    var next := ns[..i + 1];
    assert next[..i] == ns[..i] && next[i] == ns[i];
    if j > i + 1 {
      TotalChunksPrefix(ns[..j], i + 1);
      assert ns[..j][..i + 1] == next;
    }
  }

  /** Row `j` of blob `i`, stamped from `mine`, leads to row `abs >= j` of blob `i` only from the true base. */
  lemma ShiftedComesBack(ls: seq<Listed>, ns: seq<nat>, i: nat, mine: nat, j: nat, abs: nat)
    requires |ls| == |ns| && DistinctNames(ls) && TotalChunks(ns) <= U32_SIZE
    requires i < |ls| && j < ns[i] && mine <= TotalChunks(ns[..i]) && j <= abs
    ensures Resolved(Table(ls, ns), FromCtid(Stamp(mine, j))) == Success((TotalChunks(ns[..i]), abs)) <==>
            mine == TotalChunks(ns[..i]) && abs == j
  {
    hide Chunks, Table, TotalChunks, Resolved, Quot, Rem, Stamp, FromCtid;
    LastChunk(j, ns[i]);
    ResolveShifted(ls, ns, i, mine, Quot(j), Rem(j), j);
    StampDecodes(mine, j);
  }

  lemma StampDecodes(base: nat, j: nat)
    requires base + Quot(j) < U32_SIZE
    ensures Rem(j) < CHUNK_ROWS
    ensures FromCtid(Stamp(base, j)) == RowId(base + Quot(j), Rem(j))
  {
    Wrap32Range(base);
    Wrap32Range(Quot(j));
    QuotRem(j);
    var r := FromAbsolute(base, j);
    CtidRoundTrip(r, ToCtid(r));
  }

  // ---------- when the plan counts other rows than the scan -----------------------------------

  /** The blob whose chunks hold entry `k`. */
  lemma {:induction false} OwnerOf(ns: seq<nat>, k: nat) returns (b: nat)
    requires k < TotalChunks(ns)
    ensures b < |ns| && TotalChunks(ns[..b]) <= k < TotalChunks(ns[..b]) + Chunks(ns[b])
  {
    var last := |ns| - 1;
    b := last;
    if k < TotalChunks(ns[..last]) {
      b := OwnerOf(ns[..last], k);
      assert ns[..last][..b] == ns[..b];
    }
  }

  lemma OneOwner(ns: seq<nat>, a: nat, b: nat)
    requires a < |ns| && b < |ns| && TotalChunks(ns[..a]) == TotalChunks(ns[..b])
    ensures a == b
  {
    if a < b {
      GapChunks(ns, a, b);
    } else if b < a {
      GapChunks(ns, b, a);
    }
  }

  /** An identifier leads to row `abs` of blob `i` exactly when it is the one the plan would give that row. */
  lemma ResolvesIff(ls: seq<Listed>, ns: seq<nat>, i: nat, k: nat, o: u16, abs: nat)
    requires |ls| == |ns| && DistinctNames(ls) && TotalChunks(ns) <= U32_SIZE && i < |ls| && k < U32_SIZE
    ensures Resolved(Table(ls, ns), RowId(k, o)) == Success((TotalChunks(ns[..i]), abs)) <==>
            k == TotalChunks(ns[..i]) + Quot(abs) && o == Rem(abs) && Quot(abs) < Chunks(ns[i])
  {
    hide Chunks, Table, TotalChunks, Quot, Rem, Resolved;
    TotalChunksPrefix(ns, i);
    TableLength(ls, ns);
    QuotRem(abs);
    if k < TotalChunks(ns) {
      var b := OwnerOf(ns, k);
      var base := TotalChunks(ns[..b]);
      ResolvedInTable(ls, ns, b, k - base, o);
      QuotRemOf(k - base, o);
      if TotalChunks(ns[..i]) == base {
        OneOwner(ns, i, b);
      } else if k == TotalChunks(ns[..i]) + Quot(abs) && Quot(abs) < Chunks(ns[i]) {
        ResolvedInTable(ls, ns, i, Quot(abs), o);
      }
    } else {
      OutsideTable(Table(ls, ns), RowId(k, o));
    }
  }

  lemma OutsideTable(table: seq<BlobIdEntry>, rid: RowId)
    requires rid.blobId >= |table|
    ensures Resolved(table, rid).Failure?
  {
  }

  lemma {:induction false} QuotRemOf(c: nat, o: u16)
    ensures Quot(c * CHUNK_ROWS + o) == c && Rem(c * CHUNK_ROWS + o) == o
  {
    if c > 0 {
      QuotRemOf(c - 1, o);
    }
  }

  /**
   Footers and rows may be read from different versions, so the plan's counts `ns` and the rows scanned need
   not have anything to do with each other. A row then comes back exactly when the scan numbered it as the
   plan does.
   */
  lemma ComesBackExactly(ls: seq<Listed>, ns: seq<nat>, kept: seq<seq<nat>>, i: nat, j: nat)
    requires |ls| == |ns| == |kept| && DistinctNames(ls) && TotalChunks(ns) <= U32_SIZE && i < |ls| && j < |kept[i]|
    requires TotalChunks(Lengths(kept[..i])) + Quot(j) < U32_SIZE
    ensures ComesBack(ls, ns, kept, i, j) <==>
            && TotalChunks(Lengths(kept[..i])) + Quot(j) == TotalChunks(ns[..i]) + Quot(kept[i][j])
            && Rem(j) == Rem(kept[i][j]) && Quot(kept[i][j]) < Chunks(ns[i])
  {
    hide Chunks, Table, TotalChunks, Quot, Rem, Resolved, Stamp, FromCtid;
    var mine := TotalChunks(Lengths(kept[..i]));
    StampDecodes(mine, j);
    ResolvesIff(ls, ns, i, mine + Quot(j), Rem(j), kept[i][j]);
  }

  /** Every blob was read whole, `ms[b]` rows of blob `b`. */
  ghost function Whole(ms: seq<nat>): (kept: seq<seq<nat>>)
    ensures |kept| == |ms| && forall b | 0 <= b < |ms| :: |kept[b]| == ms[b] && forall j | 0 <= j < ms[b] :: kept[b][j] == j
  {
    seq(|ms|, b requires 0 <= b < |ms| => seq(ms[b], j => j))
  }

  /** Row `j`, counted by both, of a scan without filter comes back if and only if the earlier blobs had equally many chunks in all. */
  lemma RereadComesBackIff(ls: seq<Listed>, ns: seq<nat>, ms: seq<nat>, i: nat, j: nat)
    requires |ls| == |ns| == |ms| && DistinctNames(ls) && TotalChunks(ns) <= U32_SIZE && TotalChunks(ms) <= U32_SIZE
    requires i < |ls| && j < ns[i] && j < ms[i]
    ensures ComesBack(ls, ns, Whole(ms), i, j) <==> TotalChunks(ms[..i]) == TotalChunks(ns[..i])
  {
    hide Chunks, Table, TotalChunks, Quot, Rem, Resolved, Stamp, FromCtid, ComesBack;
    assert Lengths(Whole(ms)[..i]) == ms[..i];
    LastChunk(j, ns[i]);
    LastChunk(j, ms[i]);
    TotalChunksPrefix(ms, i);
    ComesBackExactly(ls, ns, Whole(ms), i, j);
  }

  lemma {:induction false} SameTotals(ms: seq<nat>, ns: seq<nat>, i: nat)
    requires |ms| == |ns| && i <= |ms| && forall b | 0 <= b < i :: Chunks(ms[b]) == Chunks(ns[b])
    ensures TotalChunks(ms[..i]) == TotalChunks(ns[..i])
  {
    if i > 0 {
      SameTotals(ms, ns, i - 1);
      TotalSnoc(ms, i - 1);
      TotalSnoc(ns, i - 1);
    }
  }

  lemma TotalSnoc(ns: seq<nat>, i: nat)
    requires i < |ns|
    ensures TotalChunks(ns[..i + 1]) == TotalChunks(ns[..i]) + Chunks(ns[i])
  {
    assert ns[..i + 1][..i] == ns[..i];
  }

  /** The first row of every blob comes back. */
  ghost predicate FirstRowsComeBack(ls: seq<Listed>, ns: seq<nat>, ms: seq<nat>)
    requires |ls| == |ns| == |ms| && forall b | 0 <= b < |ms| :: ms[b] > 0
  {
    forall i | 0 <= i < |ls| :: ComesBack(ls, ns, Whole(ms), i, 0)
  }

  /** For blobs with rows at both reads: all rows come back if and only if every blob but the last had equally many chunks at both. */
  lemma AllComeBackIff(ls: seq<Listed>, ns: seq<nat>, ms: seq<nat>)
    requires |ls| == |ns| == |ms| && DistinctNames(ls) && TotalChunks(ns) <= U32_SIZE && TotalChunks(ms) <= U32_SIZE
    requires forall b | 0 <= b < |ms| :: ms[b] > 0 && ns[b] > 0
    ensures FirstRowsComeBack(ls, ns, ms) <==> forall b | 0 <= b < |ls| - 1 :: Chunks(ms[b]) == Chunks(ns[b])
    ensures FirstRowsComeBack(ls, ns, ms) <==>
            forall i, j | 0 <= i < |ls| && 0 <= j < ms[i] && j < ns[i] :: ComesBack(ls, ns, Whole(ms), i, j)
  {
    hide Chunks, TotalChunks, ComesBack;
    forall i, j | 0 <= i < |ls| && 0 <= j < ms[i] && j < ns[i]
      ensures ComesBack(ls, ns, Whole(ms), i, j) <==> TotalChunks(ms[..i]) == TotalChunks(ns[..i])
    {
      RereadComesBackIff(ls, ns, ms, i, j);
    }
    if FirstRowsComeBack(ls, ns, ms) {
      forall b | 0 <= b < |ls| - 1 ensures Chunks(ms[b]) == Chunks(ns[b]) {
        assert ComesBack(ls, ns, Whole(ms), b, 0) && ComesBack(ls, ns, Whole(ms), b + 1, 0);
        TotalSnoc(ms, b);
        TotalSnoc(ns, b);
      }
    }
    if forall b | 0 <= b < |ls| - 1 :: Chunks(ms[b]) == Chunks(ns[b]) {
      forall i | 0 <= i < |ls| ensures TotalChunks(ms[..i]) == TotalChunks(ns[..i]) {
        SameTotals(ms, ns, i);
      }
    }
  }

  /** An identifier at or before the last chunk of blob `i` leads into blob `i`, or before it. */
  lemma ResolveUpTo(ls: seq<Listed>, ns: seq<nat>, i: nat, k: nat, o: u16)
    requires |ls| == |ns| && DistinctNames(ls) && TotalChunks(ns) <= U32_SIZE
    requires i < |ls| && k < TotalChunks(ns[..i]) + Chunks(ns[i])
    ensures k < U32_SIZE
    ensures var got := Resolved(Table(ls, ns), RowId(k, o));
            var base := TotalChunks(ns[..i]);
            && (k >= base ==> got == Success((base, (k - base) * CHUNK_ROWS + o)))
            && (k < base ==> got.Success? && got.value.0 < base)
  {
    hide Chunks, Table, TotalChunks;
    var base := TotalChunks(ns[..i]);
    TotalChunksPrefix(ns, i);
    TableLength(ls, ns);
    if k >= base {
      ResolvedInTable(ls, ns, i, k - base, o);
    }
  }

  /** Where row `j`, at offset `o` of its chunk and stamped at or before the true base, leads. */
  lemma ResolveShifted(ls: seq<Listed>, ns: seq<nat>, i: nat, mine: nat, chunk: nat, o: u16, j: nat)
    requires |ls| == |ns| && DistinctNames(ls) && TotalChunks(ns) <= U32_SIZE
    requires i < |ls| && chunk < Chunks(ns[i]) && mine <= TotalChunks(ns[..i]) && j == chunk * CHUNK_ROWS + o
    ensures mine + chunk < U32_SIZE
    ensures var got := Resolved(Table(ls, ns), RowId(mine + chunk, o));
            var base := TotalChunks(ns[..i]);
            && (mine == base ==> got == Success((base, j)))
            && (mine < base ==> got.Success? && (got.value.0 == base ==> got.value.1 < j))
  {
    hide Chunks, Table, TotalChunks, Resolved;
    ResolveUpTo(ls, ns, i, mine + chunk, o);
  }

  lemma LastChunk(j: nat, n: nat)
    requires j < n
    ensures Quot(j) < Chunks(n)
    ensures j == Quot(j) * CHUNK_ROWS + Rem(j) && Rem(j) < CHUNK_ROWS
  {
    QuotRem(j);
    ChunksStep(j);
    ChunksMonotone(j + 1, n);
  }
}
