/**
 One UPDATE or DELETE from end to end: the scan's stamped rows come back from the executor with edits,
 the plan collects them, and the commit writes them (src/fdw/modify/mod.rs, src/fdw/modify/update.rs).
 */
module Statement {
  import opened Numbers
  import opened Wrappers
  import opened Rows
  import opened Names
  import opened RowIds
  import opened ChunkTable
  import opened Kernel
  import opened Scan
  import opened Protocol
  import opened Safety
  import opened Staging
  import opened Store
  import opened Rewrite
  import opened Coordinator
  import opened Plan
  import opened Commit
  import opened Xact

  /** A row the scan emitted and the executor handed back, with the edit the statement makes to it. */
  datatype Pick = Pick(row: Emitted, edit: RowEdit)

  // ---------- what the picks mean ---------------------------------------------------

  ghost function Extend(edits: BlobEdits, row: nat, e: RowEdit): BlobEdits {
    match e
    case DeleteRow => edits.(deletes := edits.deletes + {row})
    case UpdateRow(o) => edits.(updates := edits.updates[row := o])
  }

  /** The edits the picks make to blob `i`, by the row the user saw. */
  ghost function Meant(picks: seq<Pick>, i: nat): BlobEdits {
    if picks == [] then NO_EDITS
    else
      var last := picks[|picks| - 1];
      var before := Meant(picks[..|picks| - 1], i);
      if last.row.blob == i then Extend(before, last.row.row, last.edit) else before
  }

  ghost predicate Touched(picks: seq<Pick>, i: nat) {
    exists k | 0 <= k < |picks| :: picks[k].row.blob == i
  }

  lemma MeantSnoc(picks: seq<Pick>, p: Pick, i: nat)
    ensures Meant(picks + [p], i) ==
            if p.row.blob == i then Extend(Meant(picks, i), p.row.row, p.edit) else Meant(picks, i)
    ensures Touched(picks + [p], i) <==> Touched(picks, i) || p.row.blob == i
  {
    assert (picks + [p])[..|picks|] == picks;
    if Touched(picks, i) {
      var k :| 0 <= k < |picks| && picks[k].row.blob == i;
      assert (picks + [p])[k].row.blob == i;
    }
    assert (picks + [p])[|picks|] == p;
  }

  lemma {:induction false} UntouchedMeansNothing(picks: seq<Pick>, i: nat)
    requires !Touched(picks, i)
    ensures Meant(picks, i) == NO_EDITS
  {
    if picks != [] {
      var front, last := picks[..|picks| - 1], picks[|picks| - 1];
      assert picks == front + [last];
      MeantSnoc(front, last, i);
      UntouchedMeansNothing(front, i);
    }
  }

  /** Pick `k` deletes row `r` of blob `i`. */
  ghost predicate DeletesAt(picks: seq<Pick>, i: nat, r: nat, k: nat) {
    k < |picks| && picks[k].row.blob == i && picks[k].row.row == r && picks[k].edit.DeleteRow?
  }

  ghost predicate UpdatesAt(picks: seq<Pick>, i: nat, r: nat, k: nat) {
    k < |picks| && picks[k].row.blob == i && picks[k].row.row == r && picks[k].edit.UpdateRow?
  }

  lemma {:induction false} DeleteIsMeant(picks: seq<Pick>, i: nat, r: nat, k: nat)
    requires DeletesAt(picks, i, r, k)
    ensures r in Meant(picks, i).deletes
  {
    var n := |picks| - 1;
    if k < n {
      DeleteIsMeant(picks[..n], i, r, k);
    }
  }

  lemma {:induction false} MeantDelete(picks: seq<Pick>, i: nat, r: nat) returns (k: nat)
    requires r in Meant(picks, i).deletes
    ensures DeletesAt(picks, i, r, k)
  {
    k := |picks| - 1;
    if !DeletesAt(picks, i, r, k) {
      k := MeantDelete(picks[..k], i, r);
    }
  }

  /** The last update of a row is the one meant. */
  lemma {:induction false} UpdateIsMeant(picks: seq<Pick>, i: nat, r: nat, k: nat)
    requires UpdatesAt(picks, i, r, k) && forall m | k < m < |picks| :: !UpdatesAt(picks, i, r, m)
    ensures r in Meant(picks, i).updates && Meant(picks, i).updates[r] == picks[k].edit.values
  {
    var n := |picks| - 1;
    if k < n {
      assert !UpdatesAt(picks, i, r, n);
      assert forall m | k < m < n :: UpdatesAt(picks[..n], i, r, m) == UpdatesAt(picks, i, r, m);
      UpdateIsMeant(picks[..n], i, r, k);
    }
  }

  lemma {:induction false} MeantUpdate(picks: seq<Pick>, i: nat, r: nat) returns (k: nat)
    requires r in Meant(picks, i).updates
    ensures UpdatesAt(picks, i, r, k) && forall m | k < m < |picks| :: !UpdatesAt(picks, i, r, m)
  {
    var n := |picks| - 1;
    k := n;
    if !UpdatesAt(picks, i, r, n) {
      k := MeantUpdate(picks[..n], i, r);
      assert forall m | 0 <= m < n :: UpdatesAt(picks[..n], i, r, m) == UpdatesAt(picks, i, r, m);
    }
  }

  /** Pick `k` is the last to update row `r` of blob `i`. */
  ghost predicate LastUpdate(picks: seq<Pick>, i: nat, r: nat, k: nat) {
    UpdatesAt(picks, i, r, k) && forall m | k < m < |picks| :: !UpdatesAt(picks, i, r, m)
  }

  /** A row is deleted if some pick deletes it, and gets the values of the last pick that updates it. */
  lemma MeantMeans(picks: seq<Pick>, i: nat, r: nat)
    ensures r in Meant(picks, i).deletes <==> exists k: nat :: DeletesAt(picks, i, r, k)
    ensures r in Meant(picks, i).updates <==> exists k: nat :: LastUpdate(picks, i, r, k)
    ensures forall k: nat | LastUpdate(picks, i, r, k) :: r in Meant(picks, i).updates && Meant(picks, i).updates[r] == picks[k].edit.values
  {
    hide Meant;
    if r in Meant(picks, i).deletes {
      var k := MeantDelete(picks, i, r);
    }
    forall k: nat | DeletesAt(picks, i, r, k) ensures r in Meant(picks, i).deletes {
      DeleteIsMeant(picks, i, r, k);
    }
    if r in Meant(picks, i).updates {
      var k := MeantUpdate(picks, i, r);
      assert LastUpdate(picks, i, r, k);
    }
    forall k: nat | LastUpdate(picks, i, r, k) ensures r in Meant(picks, i).updates && Meant(picks, i).updates[r] == picks[k].edit.values {
      UpdateIsMeant(picks, i, r, k);
    }
  }

  // ---------- recording ---------------------------------------------------------------

  ghost function Base(ns: seq<nat>, i: nat): nat
    requires i <= |ns|
  {
    TotalChunks(ns[..i])
  }

  lemma BasesAscend(ns: seq<nat>, i: nat, j: nat)
    requires i < j <= |ns|
    ensures Base(ns, i) < Base(ns, j)
  {
    TotalChunksPrefix(ns[..j], i);
    assert ns[..j][..i] == ns[..i];
  }

  /** The accumulator holds exactly the meaning of the picks, under the base of each touched blob. */
  ghost predicate Recorded(edits: map<nat, BlobEdits>, ns: seq<nat>, picks: seq<Pick>) {
    && (forall i | 0 <= i < |ns| ::
          && (Base(ns, i) in edits <==> Touched(picks, i))
          && (Base(ns, i) in edits ==> edits[Base(ns, i)] == Meant(picks, i)))
    && (forall b | b in edits :: IsBase(ns, b))
  }

  ghost predicate IsBase(ns: seq<nat>, b: nat) {
    exists i | 0 <= i < |ns| :: Base(ns, i) == b
  }

  lemma RecordedNothing(ns: seq<nat>)
    ensures Recorded(map[], ns, [])
  {
  }

  lemma RecordStep(edits: map<nat, BlobEdits>, ns: seq<nat>, picks: seq<Pick>, p: Pick)
    requires Recorded(edits, ns, picks) && p.row.blob < |ns| && p.row.row <= U32_MAX
    ensures Recorded(Record(edits, Base(ns, p.row.blob), p.row.row, p.edit), ns, picks + [p])
  {
    var at := Base(ns, p.row.blob);
    var after := Record(edits, at, p.row.row, p.edit);
    Wrap32Range(p.row.row);
    if !Touched(picks, p.row.blob) {
      UntouchedMeansNothing(picks, p.row.blob);
    }
    forall i | 0 <= i < |ns|
      ensures Base(ns, i) in after <==> Touched(picks + [p], i)
      ensures Base(ns, i) in after ==> after[Base(ns, i)] == Meant(picks + [p], i)
    {
      MeantSnoc(picks, p, i);
      if i < p.row.blob {
        BasesAscend(ns, i, p.row.blob);
      } else if p.row.blob < i {
        BasesAscend(ns, p.row.blob, i);
      }
    }
  }

  /** `p` is a row of the scan whose blobs kept the rows `kept`, and it will come back as itself. */
  ghost predicate Faithful(ls: seq<Listed>, ns: seq<nat>, kept: seq<seq<nat>>, p: Pick)
    requires |ls| == |ns| == |kept|
  {
    var i, j := p.row.blob, p.row.index;
    && i < |ls| && j < |kept[i]| && kept[i][j] <= U32_MAX
    && p.row == Emitted(i, kept[i][j], TotalChunks(Lengths(kept[..i])), j)
    && ComesBack(ls, ns, kept, i, j)
  }

  /** A faithful pick resolves to its own blob and row. */
  lemma FaithfulResolves(ls: seq<Listed>, ns: seq<nat>, kept: seq<seq<nat>>, p: Pick)
    requires |ls| == |ns| == |kept| && Faithful(ls, ns, kept, p)
    ensures var rid := FromCtid(p.row.Ctid());
            && p.row.blob < |ns| && p.row.row <= U32_MAX && rid.blobId < |Table(ls, ns)|
            && Resolved(Table(ls, ns), rid) == Success((Base(ns, p.row.blob), p.row.row))
  {
    hide Table, TotalChunks, Lengths, RunStart, Stamp, FromCtid;
  }

  ghost predicate AllFaithful(ls: seq<Listed>, ns: seq<nat>, kept: seq<seq<nat>>, picks: seq<Pick>) {
    |ls| == |ns| == |kept| && forall k | 0 <= k < |picks| :: Faithful(ls, ns, kept, picks[k])
  }

  /** Every pick's identifier is in the table. */
  ghost predicate AllResolve(table: seq<BlobIdEntry>, picks: seq<Pick>) {
    forall k | 0 <= k < |picks| :: FromCtid(picks[k].row.Ctid()).blobId < |table|
  }

  /** The edits of the picks where their identifiers resolve to, whether or not that is where they were meant. */
  ghost function Landed(table: seq<BlobIdEntry>, picks: seq<Pick>): map<nat, BlobEdits> {
    if picks == [] then map[]
    else
      var last := picks[|picks| - 1];
      var before, at := Landed(table, picks[..|picks| - 1]), Resolved(table, FromCtid(last.row.Ctid()));
      if at.Failure? then before else Record(before, at.value.0, at.value.1, last.edit)
  }

  lemma LandedSnoc(table: seq<BlobIdEntry>, picks: seq<Pick>, p: Pick)
    requires FromCtid(p.row.Ctid()).blobId < |table|
    ensures var at := Resolved(table, FromCtid(p.row.Ctid())).value;
            Landed(table, picks + [p]) == Record(Landed(table, picks), at.0, at.1, p.edit)
  {
    assert (picks + [p])[..|picks|] == picks;
  }

  /** Picks that come back as themselves land exactly where they were meant. */
  lemma {:induction false} LandedIsMeant(ls: seq<Listed>, ns: seq<nat>, kept: seq<seq<nat>>, picks: seq<Pick>)
    requires AllFaithful(ls, ns, kept, picks)
    ensures AllResolve(Table(ls, ns), picks) && Recorded(Landed(Table(ls, ns), picks), ns, picks)
  {
    hide Table, Recorded, Faithful, Stamp, FromCtid, Record, Base, Resolved;
    if picks == [] {
      RecordedNothing(ns);
    } else {
      var front, last := picks[..|picks| - 1], picks[|picks| - 1];
      assert picks == front + [last];
      LandedIsMeant(ls, ns, kept, front);
      FaithfulResolves(ls, ns, kept, last);
      RecordStep(Landed(Table(ls, ns), front), ns, front, last);
      LandedSnoc(Table(ls, ns), front, last);
    }
  }

  lemma RecordSize(edits: map<nat, BlobEdits>, base: nat, abs: nat, e: RowEdit)
    ensures |Record(edits, base, abs, e)| <= |edits| + 1
  {
  }

  /** Records the picks in order; the first refusal stops the statement. */
  method RecordAll(plan: ModifyPlan, picks: seq<Pick>) returns (r: Result<()>)
    requires plan.Valid() && plan.edits == map[] && plan.editCount == 0
    modifies plan
    ensures plan.Valid() && plan.table == old(plan.table) && |plan.edits| <= |picks|
    ensures r.Success? <==> |picks| <= MAX_EDITS_PER_STATEMENT && AllResolve(plan.table, picks)
    ensures r.Success? ==> plan.edits == Landed(plan.table, picks)
  {
    hide FromCtid, Record;
    for k := 0 to |picks|
      invariant plan.Valid() && plan.table == old(plan.table)
      invariant plan.editCount == k <= MAX_EDITS_PER_STATEMENT && |plan.edits| <= k
      invariant plan.edits == Landed(plan.table, picks[..k]) && AllResolve(plan.table, picks[..k])
    {
      ghost var before := plan.edits;
      var rid := FromCtid(picks[k].row.Ctid());
      var one := plan.RecordEdit(rid, picks[k].edit);
      if one.Failure? {
        return one;
      }
      ghost var got := Resolved(plan.table, rid).value;
      RecordSize(before, got.0, got.1, picks[k].edit);
      LandedSnoc(plan.table, picks[..k], picks[k]);
      assert picks[..k + 1] == picks[..k] + [picks[k]];
    }
    assert picks[..|picks|] == picks;
    r := Success(());
  }

  // ---------- from the recorded edits to the commit ------------------------------------

  /** Every entry of the table belongs to a listed blob. */
  lemma {:induction false} TableEntry(ls: seq<Listed>, ns: seq<nat>, k: nat) returns (i: nat)
    requires |ls| == |ns| && k < |Table(ls, ns)|
    ensures i < |ls| && Table(ls, ns)[k].name == ls[i].name && Table(ls, ns)[k].etag == ls[i].etag
  {
    var last := |ls| - 1;
    if k < |Table(ls[..last], ns[..last])| {
      i := TableEntry(ls[..last], ns[..last], k);
    } else {
      i := last;
    }
  }

  /** Every version the scan listed was published under its name. */
  ghost predicate ListedIn(h: History, ls: seq<Listed>) {
    forall i | 0 <= i < |ls| :: ls[i].etag < |h| && h[ls[i].etag].Put? && h[ls[i].etag].name == ls[i].name
  }

  lemma EntriesScanned(h: History, ls: seq<Listed>, ns: seq<nat>, edits: map<nat, BlobEdits>, b: nat)
    requires |ls| == |ns| && ListedIn(h, ls) && b in edits && b < |Table(ls, ns)|
    requires forall i | 0 <= i < |ls| :: ns[i] <= U32_MAX && CountOf(h, ls[i], ns[i])
    ensures Published(h, TargetAt(Table(ls, ns), edits, b)) && Numbered(h, TargetAt(Table(ls, ns), edits, b))
  {
    var i := TableEntry(ls, ns, b);
    assert CountOf(h, ls[i], ns[i]);
  }

  lemma AllScanned(h: History, ls: seq<Listed>, ns: seq<nat>, edits: map<nat, BlobEdits>)
    requires |ls| == |ns| && ListedIn(h, ls) && forall k | k in edits :: k < |Table(ls, ns)|
    requires forall i | 0 <= i < |ls| :: ns[i] <= U32_MAX && CountOf(h, ls[i], ns[i])
    ensures forall k | k in edits :: Published(h, TargetAt(Table(ls, ns), edits, k)) && Numbered(h, TargetAt(Table(ls, ns), edits, k))
  {
    hide Published, Numbered, Table, CountOf, ListedIn;
    forall k | k in edits ensures Published(h, TargetAt(Table(ls, ns), edits, k)) && Numbered(h, TargetAt(Table(ls, ns), edits, k)) {
      EntriesScanned(h, ls, ns, edits, k);
    }
  }

  /** The target the statement makes of blob `i`. */
  ghost function Goal(ls: seq<Listed>, picks: seq<Pick>, i: nat): Target
    requires i < |ls|
  {
    Target(ls[i].name, ls[i].etag, Meant(picks, i))
  }

  /** The target behind a key is the goal of the blob with that base. */
  lemma KeyIsGoal(ls: seq<Listed>, ns: seq<nat>, picks: seq<Pick>, edits: map<nat, BlobEdits>, i: nat)
    requires |ls| == |ns| && i < |ls| && Recorded(edits, ns, picks) && Base(ns, i) in edits
    ensures Base(ns, i) < |Table(ls, ns)| && TargetAt(Table(ls, ns), edits, Base(ns, i)) == Goal(ls, picks, i)
  {
    TableAt(ls, ns, i, 0);
  }

  /** The blob behind each target, in key order. */
  ghost predicate Behind(ls: seq<Listed>, picks: seq<Pick>, targets: seq<Target>, blob: seq<nat>) {
    && |blob| == |targets|
    && (forall k | 0 <= k < |blob| :: blob[k] < |ls| && Touched(picks, blob[k]) && targets[k] == Goal(ls, picks, blob[k]))
    && (forall k, m | 0 <= k < m < |blob| :: blob[k] != blob[m])
    && (forall i | 0 <= i < |ls| && Touched(picks, i) :: i in blob)
  }

  lemma FindBlob(ls: seq<Listed>, ns: seq<nat>, picks: seq<Pick>, edits: map<nat, BlobEdits>, b: nat) returns (i: nat)
    requires |ls| == |ns| && Recorded(edits, ns, picks) && b in edits
    ensures i < |ls| && Base(ns, i) == b && Touched(picks, i)
    ensures b < |Table(ls, ns)| && TargetAt(Table(ls, ns), edits, b) == Goal(ls, picks, i)
  {
    assert IsBase(ns, b);
    i :| 0 <= i < |ns| && Base(ns, i) == b;
    KeyIsGoal(ls, ns, picks, edits, i);
  }

  /** The blobs behind the first `n` keys. */
  lemma {:induction false} BlobsOf(ls: seq<Listed>, ns: seq<nat>, picks: seq<Pick>, edits: map<nat, BlobEdits>,
                                   keys: seq<nat>, n: nat) returns (blob: seq<nat>)
    requires |ls| == |ns| && Recorded(edits, ns, picks) && n <= |keys|
    requires forall k | 0 <= k < |keys| :: keys[k] in edits
    ensures |blob| == n
    ensures forall k | 0 <= k < n :: blob[k] < |ls| && Base(ns, blob[k]) == keys[k] && Touched(picks, blob[k])
    ensures forall k | 0 <= k < n :: keys[k] < |Table(ls, ns)| && TargetAt(Table(ls, ns), edits, keys[k]) == Goal(ls, picks, blob[k])
  {
    if n == 0 {
      blob := [];
    } else {
      var front := BlobsOf(ls, ns, picks, edits, keys, n - 1);
      var i := FindBlob(ls, ns, picks, edits, keys[n - 1]);
      blob := front + [i];
    }
  }

  lemma BehindKeys(ls: seq<Listed>, ns: seq<nat>, picks: seq<Pick>, edits: map<nat, BlobEdits>,
                   keys: seq<nat>, targets: seq<Target>) returns (blob: seq<nat>)
    requires |ls| == |ns| && Recorded(edits, ns, picks) && TargetsInKeyOrder(Table(ls, ns), edits, keys, targets)
    ensures Behind(ls, picks, targets, blob)
  {
    blob := BlobsOf(ls, ns, picks, edits, keys, |keys|);
    forall k, m | 0 <= k < m < |blob| ensures blob[k] != blob[m] {
      assert keys[k] < keys[m];
    }
    forall i | 0 <= i < |ls| && Touched(picks, i) ensures i in blob {
      assert Base(ns, i) in keys;
      var k :| 0 <= k < |keys| && keys[k] == Base(ns, i);
      if blob[k] < i {
        BasesAscend(ns, blob[k], i);
      } else if i < blob[k] {
        BasesAscend(ns, i, blob[k]);
      }
      assert blob[k] == i;
    }
  }

  // ---------- the undisturbed statement ---------------------------------------------------

  /** Every SET value is one row long. */
  ghost predicate OneRowValues(picks: seq<Pick>) {
    forall k | 0 <= k < |picks| && picks[k].edit.UpdateRow? :: OneRow(picks[k].edit.values)
  }

  ghost predicate OneRow(o: RowOverride) {
    forall c: nat | o.Touches(c) :: |o.values[c].value| == 1
  }

  lemma {:induction false} MeantIsGood(picks: seq<Pick>, i: nat, n: nat, abs: nat)
    requires OneRowValues(picks) && forall k | 0 <= k < |picks| && picks[k].row.blob == i :: picks[k].row.row < n
    requires abs in Meant(picks, i).updates
    ensures abs < n && OneRow(Meant(picks, i).updates[abs])
  {
    var front, last := picks[..|picks| - 1], picks[|picks| - 1];
    if abs in Meant(front, i).updates {
      MeantIsGood(front, i, n, abs);
    }
  }

  lemma GoalIsRewritable(body: Body, width: nat, picks: seq<Pick>, i: nat)
    requires OneRowValues(picks) && forall b | 0 <= b < |body| :: |body[b].columns| == width
    requires forall k | 0 <= k < |picks| && picks[k].row.blob == i :: picks[k].row.row < |AllRows(body)|
    ensures Rewritable(body, width, Meant(picks, i))
  {
    forall abs | abs in Meant(picks, i).updates
      ensures abs < |AllRows(body)| && OneRow(Meant(picks, i).updates[abs])
    {
      MeantIsGood(picks, i, |AllRows(body)|, abs);
    }
  }

  /** Nothing but this statement touches the container, and its scan read every blob whole. */
  ghost predicate Calm(blobs: map<Name, Version>, ls: seq<Listed>, kept: seq<seq<nat>>, picks: seq<Pick>,
                       width: nat, uuids: seq<string>) {
    && |kept| == |ls| && DistinctNames(ls) && OneRowValues(picks)
    && (forall i | 0 <= i < |ls| ::
          && ls[i].name in blobs && blobs[ls[i].name].etag == ls[i].etag
          && |kept[i]| == |AllRows(blobs[ls[i].name].body)| <= U32_MAX
          && (forall j | 0 <= j < |kept[i]| :: kept[i][j] == j)
          && (forall b | 0 <= b < |blobs[ls[i].name].body| :: |blobs[ls[i].name].body[b].columns| == width))
    && TotalChunks(Lengths(kept)) <= U32_SIZE
    && (forall k, m | 0 <= k < m < |uuids| :: |uuids[k]| == |uuids[m]| && uuids[k] != uuids[m])
    && (forall i, k | 0 <= i < |ls| && 0 <= k < |uuids| :: MakeStagingName(ls[i].name, uuids[k]) !in blobs)
  }

  /** The picks are rows the scan emitted. */
  ghost predicate Emits(kept: seq<seq<nat>>, picks: seq<Pick>) {
    forall k | 0 <= k < |picks| ::
      var i, j := picks[k].row.blob, picks[k].row.index;
      i < |kept| && j < |kept[i]| && picks[k].row == Emitted(i, kept[i][j], TotalChunks(Lengths(kept[..i])), j)
  }

  /** What a whole scan returns is what can be picked. */
  lemma {:induction false} ScanEmits(kept: seq<seq<nat>>, c: nat, row: Emitted, e: RowEdit)
    requires c <= |kept|
    ensures row in Stamped(kept, c) <==> Emits(kept, [Pick(row, e)]) && row.blob < c
  {
    if c > 0 {
      ScanEmits(kept, c - 1, row, e);
      var mine := StampedBlob(c - 1, kept[c - 1], |kept[c - 1]|, TotalChunks(Lengths(kept[..c - 1])));
      if Emits(kept, [Pick(row, e)]) && row.blob == c - 1 {
        assert [Pick(row, e)][0].row == row;
        assert mine[row.index] == row;
      }
    }
  }

  lemma CalmIsFaithful(blobs: map<Name, Version>, ls: seq<Listed>, kept: seq<seq<nat>>, picks: seq<Pick>,
                       width: nat, uuids: seq<string>, ns: seq<nat>, p: Pick)
    requires Calm(blobs, ls, kept, picks, width, uuids) && Emits(kept, [p]) && |ns| == |ls|
    requires forall i | 0 <= i < |ls| :: ns[i] == |AllRows(blobs[ls[i].name].body)|
    ensures Faithful(ls, ns, kept, p)
  {
    assert ns == Lengths(kept);
    forall b | 0 <= b < |ls| ensures Subrows(kept[b], ns[b]) {}
    assert [p][0] == p;
    ComesBackIff(ls, ns, kept, p.row.blob, p.row.index);
  }

  lemma CalmAllFaithful(blobs: map<Name, Version>, ls: seq<Listed>, kept: seq<seq<nat>>, picks: seq<Pick>,
                        width: nat, uuids: seq<string>, ns: seq<nat>)
    requires Calm(blobs, ls, kept, picks, width, uuids) && Emits(kept, picks) && |ns| == |ls|
    requires forall i | 0 <= i < |ls| :: ns[i] == |AllRows(blobs[ls[i].name].body)|
    ensures AllFaithful(ls, ns, kept, picks)
  {
    hide Faithful, AllRows;
    forall k | 0 <= k < |picks| ensures Faithful(ls, ns, kept, picks[k]) {
      CalmIsFaithful(blobs, ls, kept, picks, width, uuids, ns, picks[k]);
    }
  }

  /** A target holds the edit of its rows under a fresh etag, or is gone when all of them were deleted. */
  ghost predicate Edited(was: map<Name, Version>, now: map<Name, Version>, issued: nat, t: Target) {
    t.name in was ==>
      var rows := AllRows(was[t.name].body);
      && (t.name in now <==> Undeleted(0, |rows|, t.edits.deletes) > 0)
      && (t.name in now ==> IsEdit(rows, 0, t.edits, AllRows(now[t.name].body)) && now[t.name].etag >= issued)
  }

  lemma RewroteIsEdited(was: map<Name, Version>, now: map<Name, Version>, issued: nat, t: Target, width: nat)
    requires Rewrote(was, now, issued, t) && t.name in was && Rewritable(was[t.name].body, width, t.edits)
    ensures Edited(was, now, issued, t)
  {
    hide EditRows, AllRows, BadOverride;
    WholeEdit(was[t.name].body, width, t.edits);
  }

  /** The edits, and nothing else, are in the store. */
  ghost predicate Executed(was: map<Name, Version>, now: map<Name, Version>, issued: nat, ls: seq<Listed>, picks: seq<Pick>) {
    && (forall i | 0 <= i < |ls| ::
          if Touched(picks, i) then Edited(was, now, issued, Goal(ls, picks, i)) else Kept(was, now, ls[i].name))
    && (forall n | forall i | 0 <= i < |ls| :: ls[i].name != n :: Kept(was, now, n))
  }

  lemma CalmIsUndisturbed(blobs: map<Name, Version>, ls: seq<Listed>, kept: seq<seq<nat>>, picks: seq<Pick>,
                          width: nat, uuids: seq<string>, targets: seq<Target>, blob: seq<nat>)
    requires Calm(blobs, ls, kept, picks, width, uuids) && Emits(kept, picks) && Behind(ls, picks, targets, blob)
    requires |targets| <= |uuids|
    ensures Undisturbed(blobs, targets, uuids, width)
  {
    forall k | 0 <= k < |targets| ensures Ready(blobs, targets[k], width) {
      GoalIsRewritable(blobs[ls[blob[k]].name].body, width, picks, blob[k]);
    }
    forall k, m | 0 <= k < m < |targets|
      ensures targets[k].name != targets[m].name
      ensures MakeStagingName(targets[k].name, uuids[k]) != MakeStagingName(targets[m].name, uuids[m])
    {
      if blob[k] < blob[m] {
        assert ls[blob[k]].name != ls[blob[m]].name;
      } else {
        assert ls[blob[m]].name != ls[blob[k]].name;
      }
      StagingNamesApart(targets[k].name, targets[m].name, uuids[k], uuids[m]);
    }
  }

  lemma OutcomeIsExecuted(was: map<Name, Version>, now: map<Name, Version>, issued: nat,
                          ls: seq<Listed>, picks: seq<Pick>, targets: seq<Target>, blob: seq<nat>, width: nat)
    requires DistinctNames(ls) && Behind(ls, picks, targets, blob) && Outcome(was, now, issued, targets)
    requires forall k | 0 <= k < |targets| :: Ready(was, targets[k], width)
    ensures Executed(was, now, issued, ls, picks)
  {
    hide Rewrote, Edited, Rewritable, EditRows, AllRows, Meant;
    forall i | 0 <= i < |ls|
      ensures if Touched(picks, i) then Edited(was, now, issued, Goal(ls, picks, i)) else Kept(was, now, ls[i].name)
    {
      if Touched(picks, i) {
        var k :| 0 <= k < |blob| && blob[k] == i;
        assert targets[k] == Goal(ls, picks, i) && Ready(was, targets[k], width);
        RewroteIsEdited(was, now, issued, targets[k], width);
      } else {
        forall k | 0 <= k < |targets| ensures targets[k].name != ls[i].name {
          assert targets[k] == Goal(ls, picks, blob[k]) && blob[k] != i;
        }
      }
    }
    forall n | forall i | 0 <= i < |ls| :: ls[i].name != n ensures Kept(was, now, n) {
      forall k | 0 <= k < |targets| ensures targets[k].name != n {
        assert targets[k] == Goal(ls, picks, blob[k]);
      }
    }
  }

  // ---------- the whole statement -----------------------------------------------------------

  /** The statement never began its commit, and all that happened was outside activity. */
  ghost predicate NeverBegan(sys: Sys, out: Sys, id: nat) {
    id !in out.stmts && out.stmts == sys.stmts && OutsideOnly(sys.history, out.history)
  }

  /** The statement failed in its commit, under a slot that is still in place. */
  ghost predicate FailedInCommit(out: Sys, id: nat, b: nat) {
    id in out.stmts && out.stmts[id].backend == b && out.stmts[id].phase.Failed? && Intact(out, id)
  }

  /** The start of a modify node: the plan's table, then the slot. */
  method BeginStatement(ls: seq<Listed>, width: nat, store: Container, backend: Backend, ghost sys: Sys, ghost b: nat)
    returns (r: Result<ModifyPlan>, ghost ns: seq<nat>, ghost at: Sys)
    requires InSync(store, backend, sys, b) && Idle(sys, b) && ListedIn(store.history, ls)
    modifies store, backend
    ensures InSync(store, backend, at, b) && Idle(at, b) && at.stmts == sys.stmts && OutsideOnly(sys.history, at.history)
    ensures r.Success? ==>
              && fresh(r.value) && r.value.Valid() && r.value.width == width && r.value.edits == map[] && r.value.editCount == 0
              && |ns| == |ls| && r.value.table == Table(ls, ns) && SerialOf(at, b).Some? && ListedIn(store.history, ls)
              && forall i | 0 <= i < |ls| :: ns[i] <= U32_MAX && CountOf(store.history, ls[i], ns[i])
    ensures Faults(store.script) <= Faults(old(store.script))
    ensures r.Failure? && Faults(store.script) == Faults(old(store.script)) ==>
              exists i | 0 <= i < |ls| :: !Countable(store.blobs, ls[i])
    ensures old(store.script) == [] ==>
              && store.script == [] && store.history == old(store.history) && store.blobs == old(store.blobs)
              && (r.Success? <==> forall i | 0 <= i < |ls| ::
                    ls[i].name in store.blobs && |AllRows(store.blobs[ls[i].name].body)| <= U32_MAX)
              && (r.Success? ==> forall i | 0 <= i < |ls| && ls[i].name in store.blobs ::
                    ns[i] == |AllRows(store.blobs[ls[i].name].body)|)
  {
    hide Live, Reachable, Mirrors, Table, CountOf, AllRows, Countable;
    var table;
    table, ns := BuildTable(ls, store);
    OutsideReachable(sys, store.history);
    at := sys.(history := store.history);
    if table.Failure? {
      return Failure(table.error), ns, at;
    }
    var plan := new ModifyPlan(table.value, width);
    backend.OpenStatement();
    ReachableStep(at, OpenSlot(b));
    at := Apply(at, OpenSlot(b));
    r := Success(plan);
  }

  /** The end of a modify node: the commit, and on success the end of the slot. */
  method EndStatement(plan: ModifyPlan, uuids: seq<string>, store: Container, backend: Backend, ghost sys: Sys, ghost id: nat, ghost b: nat)
    returns (r: Result<()>, ghost out: Sys, ghost keys: seq<nat>, ghost targets: seq<Target>)
    requires plan.Valid() && |plan.edits.Keys| <= |uuids|
    requires InSync(store, backend, sys, b) && Idle(sys, b) && id !in sys.stmts && SerialOf(sys, b).Some?
    requires forall k | k in plan.edits ::
               && Published(store.history, TargetAt(plan.table, plan.edits, k))
               && Numbered(store.history, TargetAt(plan.table, plan.edits, k))
    modifies store, backend
    ensures TargetsInKeyOrder(plan.table, plan.edits, keys, targets) && |targets| <= |uuids|
    ensures InSync(store, backend, out, b) && Idle(out, b) && id in out.stmts && out.stmts[id].targets == targets
    ensures r.Success? ==> out.stmts[id].phase.Done? && backend.active == None
    ensures r.Failure? ==> FailedInCommit(out, id, b)
    ensures Faults(store.script) <= Faults(old(store.script))
    ensures r.Failure? && Faults(store.script) == Faults(old(store.script)) ==> Blocked(store.blobs, out.stmts[id], plan.width, uuids)
    ensures r.Success? && Faults(store.script) == Faults(old(store.script)) ==> NothingStaged(out.history, id)
    ensures old(store.script) == [] && Undisturbed(old(store.blobs), targets, uuids, plan.width) ==>
              r.Success? && Outcome(old(store.blobs), store.blobs, |old(store.history)|, targets)
  {
    hide Live, Reachable, Mirrors, EditRows, Undisturbed, Outcome, Published, Numbered, TargetsInKeyOrder, Blocked, NothingStaged;
    r, out, keys, targets := CommitPlan(plan, uuids, store, backend, sys, id, b);
    if r.Success? {
      var _ := backend.CloseStatementSuccess();
      ReachableStep(out, CloseSlot(b));
      out := Apply(out, CloseSlot(b));
    }
  }

  /** The targets are the listed blobs the picks resolve to, in key order, with the edits that land there. */
  ghost predicate AsLanded(ls: seq<Listed>, ns: seq<nat>, picks: seq<Pick>, targets: seq<Target>) {
    |ns| == |ls| && exists keys :: TargetsInKeyOrder(Table(ls, ns), Landed(Table(ls, ns), picks), keys, targets)
  }

  /** Targets of picks that come back as themselves are the goals of the blobs touched, each once. */
  lemma LandedAsMeant(ls: seq<Listed>, ns: seq<nat>, kept: seq<seq<nat>>, picks: seq<Pick>, targets: seq<Target>) returns (blob: seq<nat>)
    requires AsLanded(ls, ns, picks, targets) && AllFaithful(ls, ns, kept, picks)
    ensures Behind(ls, picks, targets, blob)
  {
    hide Table, Recorded, Landed, TargetsInKeyOrder, Faithful, Behind;
    LandedIsMeant(ls, ns, kept, picks);
    var keys :| TargetsInKeyOrder(Table(ls, ns), Landed(Table(ls, ns), picks), keys, targets);
    blob := BehindKeys(ls, ns, picks, Landed(Table(ls, ns), picks), keys, targets);
  }

  /** A delete of row 0 of the middle one of three blobs, whose first was read with 65,537 rows. */
  ghost function LatePick(): Pick {
    Pick(Emitted(1, 0, TotalChunks([65537]), 0), DeleteRow)
  }

  lemma LateStamp()
    ensures FromCtid(LatePick().row.Ctid()) == RowId(2, 0)
    ensures Chunks(1) == 1 && TotalChunks([1, 1]) == 2 && TotalChunks([1, 1, 1]) == 3 && Quot(0) == 0 && Rem(0) == 0
  {
    assert Chunks(65537) == 2;
    assert [65537][..0] == [] && [1, 1, 1][..2] == [1, 1] && [1, 1][..1] == [1] && [1][..0] == [];
    assert TotalChunks([65537]) == 2 && TotalChunks([1]) == 1;
    StampDecodes(2, 0);
  }

  /** It is a row that a scan of the rewritten blob emits. */
  lemma LatePickIsEmitted()
    ensures Emits(Whole([65537, 1, 1]), [LatePick()])
  {
    var ms := [65537, 1, 1];
    assert ms[1] == 1 && Whole(ms)[1][0] == 0;
    assert Lengths(Whole(ms)[..1]) == [65537];
  }

  lemma LateTable(a: Listed, b: Listed, c: Listed)
    requires DistinctNames([a, b, c])
    ensures var table := Table([a, b, c], [1, 1, 1]);
            && |table| == 3 && table[2] == BlobIdEntry(c.name, 0, c.etag) && Resolved(table, RowId(2, 0)) == Success((2, 0))
  {
    hide Resolved, Table, TotalChunks, Chunks;
    var ls, ns := [a, b, c], [1, 1, 1];
    LateStamp();
    assert ns[..2] == [1, 1];
    TableLength(ls, ns);
    TableAt(ls, ns, 2, 0);
    ResolvesIff(ls, ns, 2, 2, 0, 0);
  }

  lemma LateLands(table: seq<BlobIdEntry>)
    requires |table| == 3 && Resolved(table, RowId(2, 0)) == Success((2, 0))
    ensures Landed(table, [LatePick()]) == map[2 := NO_EDITS.(deletes := {0})]
  {
    hide Resolved, FromCtid, Stamp;
    LateStamp();
    Wrap32Range(0);
    LandedSnoc(table, [], LatePick());
    assert [] + [LatePick()] == [LatePick()];
    assert Landed(table, []) == map[];
    assert NO_EDITS.deletes + {Wrap32(0)} == {0};
    assert Record(map[], 2, 0, DeleteRow) == map[2 := NO_EDITS.(deletes := {0})];
  }

  /**
   The footers of three blobs say one row each; then the first blob, which the statement does not touch, is
   rewritten with a second chunk before the scan reads it. The delete meant for the second blob goes to the
   third, whose etag still matches.
   */
  lemma RewrittenBlobMisdirects(a: Listed, b: Listed, c: Listed, targets: seq<Target>)
    requires DistinctNames([a, b, c]) && AsLanded([a, b, c], [1, 1, 1], [LatePick()], targets)
    ensures targets == [Target(c.name, c.etag, NO_EDITS.(deletes := {0}))]
    ensures Goal([a, b, c], [LatePick()], 1) == Target(b.name, b.etag, NO_EDITS.(deletes := {0}))
  {
    hide Resolved, Table, Landed;
    var table := Table([a, b, c], [1, 1, 1]);
    LateTable(a, b, c);
    LateLands(table);
    var keys :| TargetsInKeyOrder(table, Landed(table, [LatePick()]), keys, targets);
    OnlyKey(keys, 2);
    MeantSnoc([], LatePick(), 1);
    assert [] + [LatePick()] == [LatePick()] && Meant([], 1) == NO_EDITS;
  }

  lemma OnlyKey(keys: seq<nat>, k: nat)
    requires Ascending(keys) && forall x :: x in keys <==> x == k
    ensures keys == [k]
  {
    assert k in keys;
    forall i | 0 <= i < |keys| ensures keys[i] == k {
      assert keys[i] in keys;
    }
    AscendingSize(keys, {k});
  }

  /** Event `k` is the swap of target `t` by statement `id`: on top of exactly the version listed, with its edits. */
  ghost predicate SwapAt(h: History, id: nat, t: Target, k: nat) {
    && k < |h| && h[k].author == Swapper(id, t) && h[k].name == t.name
    && t.etag < k && h[t.etag].Put? && h[t.etag].name == t.name && (forall i | t.etag < i < k :: h[i].name != t.name)
    && var rows := EditRows(h[t.etag].rows, 0, t.edits);
       if rows == [] then h[k].Remove? else h[k].Put? && h[k].rows == rows
  }

  ghost predicate HasSwapped(h: History, id: nat, t: Target) {
    exists k :: SwapAt(h, id, t, k)
  }

  ghost predicate GoalOf(ls: seq<Listed>, picks: seq<Pick>, done: seq<nat>, t: Target) {
    exists m | 0 <= m < |done| :: done[m] < |ls| && t == Goal(ls, picks, done[m])
  }

  /** The statement has swapped the goals of `done`, and nothing else. */
  ghost predicate SwappedExactly(h: History, id: nat, ls: seq<Listed>, picks: seq<Pick>, done: seq<nat>) {
    && (forall m | 0 <= m < |done| :: done[m] < |ls| && HasSwapped(h, id, Goal(ls, picks, done[m])))
    && (forall k | 0 <= k < |h| && h[k].author.Swapper? && h[k].author.id == id :: GoalOf(ls, picks, done, h[k].author.target))
  }

  lemma {:induction false} SwapHappened(h: History, id: nat, t: Target) returns (k: nat)
    requires t in SwapsBy(h, id)
    ensures k < |h| && h[k].author == Swapper(id, t)
  {
    k := |h| - 1;
    if h[k].author != Swapper(id, t) {
      k := SwapHappened(h[..k], id, t);
    }
  }

  /** A target among the first swapped has its swap in the history. */
  lemma SwapOf(s: Sys, id: nat, m: nat) returns (k: nat)
    requires Reachable(s) && id in s.stmts && m < s.stmts[id].Swapped() <= |s.stmts[id].targets|
    ensures SwapAt(s.history, id, s.stmts[id].targets[m], k)
  {
    hide Reachable, EditRows, SwapsBy;
    SwapsArePrefix(s, id);
    assert s.stmts[id].targets[m] in s.stmts[id].targets[..s.stmts[id].Swapped()];
    k := SwapHappened(s.history, id, s.stmts[id].targets[m]);
    NoLostUpdate(s, k);
  }

  lemma SwapIsFirst(s: Sys, id: nat, k: nat) returns (m: nat)
    requires Reachable(s) && id in s.stmts && k < |s.history| && s.history[k].author.Swapper? && s.history[k].author.id == id
    ensures m < s.stmts[id].Swapped() <= |s.stmts[id].targets| && s.history[k].author.target == s.stmts[id].targets[m]
  {
    hide Reachable, SwapsBy;
    SwapsArePrefix(s, id);
    SwapIsRecorded(s.history, k);
    m :| 0 <= m < s.stmts[id].Swapped() && s.stmts[id].targets[m] == s.history[k].author.target;
  }

  /** In every reachable state the swaps of a statement that meant its targets are its picks' edits, and only those. */
  lemma SwapsArePicks(s: Sys, id: nat, ls: seq<Listed>, picks: seq<Pick>, blob: seq<nat>)
    requires Reachable(s) && id in s.stmts && Behind(ls, picks, s.stmts[id].targets, blob)
    ensures s.stmts[id].Swapped() <= |blob|
    ensures SwappedExactly(s.history, id, ls, picks, blob[..s.stmts[id].Swapped()])
  {
    hide Reachable, Goal, Touched, EditRows, SwapAt, SwapsBy;
    SwapsArePrefix(s, id);
    var h, targets, done := s.history, s.stmts[id].targets, blob[..s.stmts[id].Swapped()];
    forall m | 0 <= m < |done| ensures HasSwapped(h, id, Goal(ls, picks, done[m])) {
      var k := SwapOf(s, id, m);
      assert targets[m] == Goal(ls, picks, blob[m]) && done[m] == blob[m];
    }
    forall k | 0 <= k < |h| && h[k].author.Swapper? && h[k].author.id == id ensures GoalOf(ls, picks, done, h[k].author.target) {
      var m := SwapIsFirst(s, id, k);
      assert targets[m] == Goal(ls, picks, blob[m]) && done[m] == blob[m];
    }
  }

  /**
   Why a statement none of whose requests failed can fail: too many edits, a listed blob missing or too long, a
   pick outside the table, or something in the way of its next target.
   */
  ghost predicate Refusal(ls: seq<Listed>, ns: seq<nat>, picks: seq<Pick>, width: nat, uuids: seq<string>,
                          blobs: map<Name, Version>, out: Sys, id: nat) {
    || |picks| > MAX_EDITS_PER_STATEMENT
    || (exists i | 0 <= i < |ls| :: !Countable(blobs, ls[i]))
    || (|ns| == |ls| && !AllResolve(Table(ls, ns), picks))
    || (id in out.stmts && Blocked(blobs, out.stmts[id], width, uuids))
  }

  /**
   Begin, record and end one UPDATE or DELETE. In every environment the store and the slot stay in step
   with the protocol, its targets are where the picks resolve to, and an error leaves either nothing done or
   a failed commit under its own slot. A statement over the cap fails before it writes anything. An
   undisturbed one within the cap succeeds and leaves exactly its edits.
   */
  method ModifyStatement(ls: seq<Listed>, picks: seq<Pick>, width: nat, uuids: seq<string>, store: Container, backend: Backend,
                         ghost kept: seq<seq<nat>>, ghost sys: Sys, ghost id: nat, ghost b: nat)
    returns (r: Result<()>, ghost out: Sys, ghost ns: seq<nat>)
    requires InSync(store, backend, sys, b) && Idle(sys, b) && id !in sys.stmts
    requires ListedIn(store.history, ls) && |kept| == |ls| && |picks| <= |uuids| && Emits(kept, picks)
    modifies store, backend
    ensures InSync(store, backend, out, b) && Idle(out, b)
    ensures r.Success? ==> id in out.stmts && out.stmts[id].phase.Done? && backend.active == None
    ensures r.Failure? ==> NeverBegan(sys, out, id) || FailedInCommit(out, id, b)
    ensures Faults(store.script) <= Faults(old(store.script))
    ensures r.Failure? && Faults(store.script) == Faults(old(store.script)) ==> Refusal(ls, ns, picks, width, uuids, store.blobs, out, id)
    ensures r.Success? && Faults(store.script) == Faults(old(store.script)) ==> NothingStaged(out.history, id)
    ensures |picks| > MAX_EDITS_PER_STATEMENT ==> r.Failure? && NeverBegan(sys, out, id)
    ensures id in out.stmts ==> AsLanded(ls, ns, picks, out.stmts[id].targets)
    ensures old(store.script) == [] && Calm(old(store.blobs), ls, kept, picks, width, uuids)
            && |picks| <= MAX_EDITS_PER_STATEMENT
            ==> r.Success? && Executed(old(store.blobs), store.blobs, |old(store.history)|, ls, picks)
  {
    hide Live, Reachable, Mirrors, EditRows, Undisturbed, Outcome, Table, TotalChunks, Meant, Touched, Executed, Recorded, Numbered, Published, Faithful, TargetsInKeyOrder, CountOf, Countable, Blocked, NothingStaged, AllResolve;
    ghost var was, h := store.blobs, store.history;
    ghost var calm := store.script == [] && Calm(was, ls, kept, picks, width, uuids)
                      && |picks| <= MAX_EDITS_PER_STATEMENT;
    var begun;
    ghost var at;
    begun, ns, at := BeginStatement(ls, width, store, backend, sys, b);
    if begun.Failure? {
      return Failure(begun.error), at, ns;
    }
    var plan := begun.value;
    if calm {
      CalmAllFaithful(was, ls, kept, picks, width, uuids, ns);
      LandedIsMeant(ls, ns, kept, picks);
    }
    var recorded := RecordAll(plan, picks);
    if recorded.Failure? {
      return recorded, at, ns;
    }
    AllScanned(store.history, ls, ns, plan.edits);
    ghost var keys, targets;
    r, out, keys, targets := EndStatement(plan, uuids, store, backend, at, id, b);
    if calm {
      var blob := LandedAsMeant(ls, ns, kept, picks, targets);
      CalmIsUndisturbed(was, ls, kept, picks, width, uuids, targets, blob);
      OutcomeIsExecuted(was, store.blobs, |h|, ls, picks, targets, blob, width);
    }
  }

  /**
   A statement and, if it fails, the abort of its transaction, in every environment. The listable blobs the
   statement has touched are the first of its targets, each by its swap; if its picks come back as themselves,
   these swaps are exactly the edits of the picks, all of them on success; and unless the sweep warned of a
   failed delete, every staging blob left after a failure belongs to a swapped target.
   */
  method ModifyOrAbort(ls: seq<Listed>, picks: seq<Pick>, width: nat, uuids: seq<string>, store: Container, backend: Backend,
                       ghost kept: seq<seq<nat>>, ghost sys: Sys, ghost id: nat, ghost b: nat)
    returns (r: Result<()>, warned: set<Name>, ghost out: Sys, ghost ns: seq<nat>, ghost blob: seq<nat>)
    requires InSync(store, backend, sys, b) && Idle(sys, b) && id !in sys.stmts
    requires ListedIn(store.history, ls) && |kept| == |ls| && |picks| <= |uuids| && Emits(kept, picks)
    modifies store, backend
    ensures InSync(store, backend, out, b) && Idle(out, b) && backend.active == None
    ensures id in out.stmts ==> out.stmts[id].Swapped() <= |out.stmts[id].targets| && AsLanded(ls, ns, picks, out.stmts[id].targets)
    ensures r.Success? ==> id in out.stmts && out.stmts[id].phase.Done? && SwapsBy(out.history, id) == out.stmts[id].targets
    ensures r.Failure? && id in out.stmts ==>
              && out.stmts[id].phase.Failed? && SwapsBy(out.history, id) == out.stmts[id].targets[..out.stmts[id].phase.swapped]
              && (warned == {} ==> OnlySwappedLeft(out, id))
    ensures id in out.stmts ==>
              forall i | 0 <= i < |out.history| && out.history[i].author.IsStmt(id) && !IsStagingName(out.history[i].name) ::
                out.history[i].author.Swapper? && out.history[i].author.target in out.stmts[id].targets[..out.stmts[id].Swapped()]
    ensures id in out.stmts && AllFaithful(ls, ns, kept, picks) ==>
              && Behind(ls, picks, out.stmts[id].targets, blob)
              && SwappedExactly(out.history, id, ls, picks, blob[..out.stmts[id].Swapped()])
  {
    hide Live, Reachable, Mirrors, SwapsBy, OnlySwappedLeft, Calm, Executed, Emits, Stmt.Running, IsStagingName, AllFaithful, AsLanded, Behind, SwappedExactly;
    warned, blob := {}, [];
    r, out, ns := ModifyStatement(ls, picks, width, uuids, store, backend, kept, sys, id, b);
    if r.Failure? {
      ghost var failed := out;
      warned, out := XactCallback(AbortXact, store, backend, failed, b);
    }
    if id in out.stmts {
      FailureShape(out, id);
      SwapsArePrefix(out, id);
      if AllFaithful(ls, ns, kept, picks) {
        blob := LandedAsMeant(ls, ns, kept, picks, out.stmts[id].targets);
        SwapsArePicks(out, id, ls, picks, blob);
      }
    }
  }
}
