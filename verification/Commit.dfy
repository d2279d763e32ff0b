/**
 `commit_plan` (src/fdw/modify/update.rs): stage every rewritten blob, then swap them in order. The
 method is shown to be a run of the protocol in every environment, and to carry out exactly the
 planned rewrite in an undisturbed one.
 */
module Commit {
  import opened Numbers
  import opened Wrappers
  import opened Rows
  import opened Names
  import opened ChunkTable
  import opened Kernel
  import opened Protocol
  import opened Safety
  import opened Staging
  import opened Store
  import opened Rewrite
  import opened Coordinator
  import opened Plan
  import opened CalmLog

  // ---------- in step with the protocol -----------------------------------------

  /** The backend object holds what backend `b`'s slot holds. */
  ghost predicate SlotIs(active: Option<set<Name>>, sys: Sys, b: nat) {
    active == if b in sys.slots then Some(sys.slots[b].names) else None
  }

  /** The store and backend `b` are in a reachable state of the protocol. */
  ghost predicate InSync(store: Container, backend: Backend, sys: Sys, b: nat)
    reads store, backend
  {
    store.Valid() && Reachable(sys) && sys.history == store.history && SlotIs(backend.active, sys, b)
  }

  /** They are, and `id` is a statement of that backend. */
  ghost predicate InStep(store: Container, backend: Backend, sys: Sys, id: nat)
    reads store, backend
  {
    id in sys.stmts && InSync(store, backend, sys, sys.stmts[id].backend)
  }

  lemma {:induction false} OutsideReachable(sys: Sys, mid: History)
    requires Reachable(sys) && OutsideOnly(sys.history, mid)
    ensures Reachable(sys.(history := mid))
    decreases |mid|
  {
    if |mid| == |sys.history| {
      assert mid == sys.history;
    } else {
      var front, e := mid[..|mid| - 1], mid[|mid| - 1];
      OutsideReachable(sys, front);
      var before := sys.(history := front);
      assert mid == front + [e];
      if e.Put? {
        ReachableStep(before, OutsidePut(e.name, e.rows));
      } else {
        ReachableStep(before, OutsideRemove(e.name));
      }
    }
  }

  /** The state after outside writes up to `mid` and then one move of statement `id`. */
  ghost function Moved(sys: Sys, mid: History, id: nat, m: Move): Sys
    requires id in sys.stmts && Enabled(mid, sys.stmts[id], m)
  {
    Apply(sys.(history := mid), Step(id, m))
  }

  lemma MovedReachable(sys: Sys, mid: History, id: nat, m: Move)
    requires Reachable(sys) && OutsideOnly(sys.history, mid)
    requires id in sys.stmts && Enabled(mid, sys.stmts[id], m)
    ensures Reachable(Moved(sys, mid, id, m))
    ensures var s := sys.stmts[id];
            Moved(sys, mid, id, m) ==
            sys.(history := mid + Effect(mid, id, s, m), stmts := sys.stmts[id := After(mid, s, m)], slots := SlotsAfter(sys.slots, mid, s, m))
    ensures OnlyMoved(sys, Moved(sys, mid, id, m), id)
  {
    OutsideReachable(sys, mid);
    ReachableStep(sys.(history := mid), Step(id, m));
    StepFrame(sys.(history := mid), id, m);
  }

  // ---------- phase 1 -------------------------------------------------------------

  /** What `commit_plan` keeps of one blob between its phases. */
  datatype StagedBlob = StagedBlob(original: Name, etag: Etag, staging: Name, body: Body, emptyDelete: bool)

  /** The staged blob is target `t` as the protocol records it. */
  ghost predicate Holds(item: StagedBlob, t: Target, s: Staged) {
    && item.original == t.name && item.etag == t.etag
    && item.staging == s.staging && AllRows(item.body) == s.rows
    && (item.emptyDelete <==> s.rows == [])
  }

  /** Statement `s` is about to stage `t`. */
  ghost predicate NextIs(s: Stmt, t: Target) {
    s.phase.Fetching? && |s.staged| < |s.targets| && s.targets[|s.staged|] == t
  }

  /** The statement's targets, its backend and the slot it began under never change. */
  ghost predicate SamePlan(s: Stmt, was: Stmt) {
    s.targets == was.targets && s.backend == was.backend && s.serial == was.serial
  }

  /** If the target is still at its scanned version, 32 bits number that version's rows. */
  ghost predicate Numbered(h: History, t: Target) {
    Published(h, t) && Live(h, t.name) == Some(t.etag) ==> |h[t.etag].rows| <= U32_MAX
  }

  lemma FailMoves(sys: Sys, mid: History, id: nat)
    requires Reachable(sys) && OutsideOnly(sys.history, mid) && id in sys.stmts && sys.stmts[id].Running()
    ensures Enabled(mid, sys.stmts[id], Fail)
    ensures var out := Moved(sys, mid, id, Fail);
            && Reachable(out) && OnlyMoved(sys, out, id) && out.history == mid && out.slots == sys.slots && id in out.stmts
            && SamePlan(out.stmts[id], sys.stmts[id]) && out.stmts[id] == sys.stmts[id].(phase := Failed(sys.stmts[id].Swapped()))
  {
    hide Live, Reachable, OnlyMoved, Moved;
    MovedReachable(sys, mid, id, Fail);
  }

  /** The step of a GET that found the listed version. */
  lemma FetchMoves(sys: Sys, mid: History, id: nat, t: Target)
    requires Reachable(sys) && OutsideOnly(sys.history, mid) && id in sys.stmts && NextIs(sys.stmts[id], t)
    requires Published(sys.history, t) && Live(mid, t.name) == Some(t.etag)
    ensures Enabled(mid, sys.stmts[id], Fetch)
    ensures var out, rows := Moved(sys, mid, id, Fetch), Rewritten(sys.history, t);
            && Reachable(out) && OnlyMoved(sys, out, id) && out.history == mid && out.slots == sys.slots && id in out.stmts
            && out.stmts[id] == if rows == [] then sys.stmts[id].(staged := sys.stmts[id].staged + [Staged("", [])])
                                else sys.stmts[id].(phase := Fetched(rows))
  {
    hide Live, Reachable, OnlyMoved, Moved, EditRows;
    MovedReachable(sys, mid, id, Fetch);
    assert mid[t.etag] == sys.history[t.etag];
  }

  /** A version still live is the one published, and 32 bits number its rows. */
  lemma StillNumbered(h: History, mid: History, t: Target)
    requires OutsideOnly(h, mid) && Published(h, t) && Numbered(h, t) && Live(mid, t.name) == Some(t.etag)
    ensures mid[t.etag] == h[t.etag] && |h[t.etag].rows| <= U32_MAX && Rewritten(h, t) == EditRows(h[t.etag].rows, 0, t.edits)
  {
    hide Live, EditRows;
    LiveEarlier(h, mid, t.name, t.etag);
  }

  /** The conditional GET and the rewrite. */
  method FetchOne(t: Target, width: nat, store: Container, backend: Backend, ghost sys: Sys, ghost id: nat)
    returns (r: Result<Body>, ghost out: Sys)
    requires InStep(store, backend, sys, id) && NextIs(sys.stmts[id], t)
    requires Published(sys.history, t) && Numbered(sys.history, t)
    modifies store
    ensures InStep(store, backend, out, id) && sys.history <= out.history
    ensures SamePlan(out.stmts[id], sys.stmts[id]) && OnlyMoved(sys, out, id)
    ensures r.Failure? ==> out.stmts[id].phase.Failed? && out.stmts[id].staged == sys.stmts[id].staged
    ensures Faults(store.script) <= Faults(old(store.script))
    ensures r.Failure? && Faults(store.script) == Faults(old(store.script)) ==> !Ready(store.blobs, t, width)
    ensures r.Success? ==>
              && AllRows(r.value) == Rewritten(sys.history, t)
              && out.stmts[id] == if AllRows(r.value) == []
                                  then sys.stmts[id].(staged := sys.stmts[id].staged + [Staged("", [])])
                                  else sys.stmts[id].(phase := Fetched(AllRows(r.value)))
    ensures old(store.script) == [] ==> store.script == [] && store.blobs == old(store.blobs) && out.history == sys.history
    ensures old(store.script) == [] && t.name in store.blobs && store.blobs[t.name].etag == t.etag
            && Rewritable(store.blobs[t.name].body, width, t.edits)
            ==> r.Success?
  {
    hide EditRows, Reachable, Moved, OnlyMoved, Live, Rewritable, AllRows, Enabled, Rewritten, Published, Numbered;
    var got := store.GetBodyIfMatch(t.name, t.etag);
    if got.Failure? {
      FailMoves(sys, store.history, id);
      out := Moved(sys, store.history, id, Fail);
      return Failure(got.error), out;
    }
    StillNumbered(sys.history, store.history, t);
    r := RewriteBlob(got.value, width, t.edits);
    if r.Failure? {
      FailMoves(sys, store.history, id);
      out := Moved(sys, store.history, id, Fail);
    } else {
      FetchMoves(sys, store.history, id, t);
      out := Moved(sys, store.history, id, Fetch);
    }
  }

  /** The step of registering a staging name. */
  lemma RegisterMoves(sys: Sys, id: nat, uuid: string, b: nat)
    requires Reachable(sys) && id in sys.stmts && sys.stmts[id].phase.Fetched? && |sys.stmts[id].staged| < |sys.stmts[id].targets|
    requires sys.stmts[id].backend == b
    ensures Enabled(sys.history, sys.stmts[id], Register(uuid))
    ensures var out, s := Moved(sys, sys.history, id, Register(uuid)), sys.stmts[id];
            var staging := MakeStagingName(s.targets[|s.staged|].name, uuid);
            && Reachable(out) && OnlyMoved(sys, out, id) && out.history == sys.history && id in out.stmts
            && out.stmts[id] == s.(phase := Registered(staging, s.phase.rows), inFlight := s.inFlight + {staging})
            && (b in sys.slots <==> b in out.slots) && (b in out.slots ==> out.slots[b].names == sys.slots[b].names + {staging})
  {
    hide Live, Reachable, OnlyMoved, Moved, MakeStagingName;
    MovedReachable(sys, sys.history, id, Register(uuid));
  }

  /** The step of the PUT of a registered staging blob, whose reply may be lost. */
  lemma StagingMoves(sys: Sys, mid: History, id: nat, lost: bool)
    requires Reachable(sys) && OutsideOnly(sys.history, mid) && id in sys.stmts && sys.stmts[id].phase.Registered?
    requires Live(mid, sys.stmts[id].phase.staging).None?
    ensures Enabled(mid, sys.stmts[id], PutStaging(lost))
    ensures var out, s := Moved(sys, mid, id, PutStaging(lost)), sys.stmts[id];
            && Reachable(out) && OnlyMoved(sys, out, id) && out.slots == sys.slots && id in out.stmts
            && out.history == mid + [Put(s.phase.staging, s.phase.rows, Stager(id))] && SamePlan(out.stmts[id], s)
            && out.stmts[id].inFlight == s.inFlight && (lost ==> out.stmts[id].phase.Failed?)
            && (!lost ==> out.stmts[id].phase.Fetching? && out.stmts[id].staged == s.staged + [Staged(s.phase.staging, s.phase.rows)])
  {
    hide Live, Reachable, OnlyMoved, Moved, MakeStagingName;
    MovedReachable(sys, mid, id, PutStaging(lost));
  }

  /** Registering the staging name, then the conditional PUT of the staged body. */
  method PutStaged(staging: Name, body: Body, store: Container, backend: Backend,
                   ghost uuid: string, ghost sys: Sys, ghost id: nat)
    returns (r: Result<()>, ghost out: Sys)
    requires InStep(store, backend, sys, id)
    requires sys.stmts[id].phase == Fetched(AllRows(body)) && |sys.stmts[id].staged| < |sys.stmts[id].targets|
    requires staging == MakeStagingName(sys.stmts[id].targets[|sys.stmts[id].staged|].name, uuid)
    modifies store, backend
    ensures InStep(store, backend, out, id) && sys.history <= out.history
    ensures SamePlan(out.stmts[id], sys.stmts[id]) && OnlyMoved(sys, out, id)
    ensures r.Failure? ==> out.stmts[id].phase.Failed?
    ensures r.Success? ==> out.stmts[id].inFlight == sys.stmts[id].inFlight + {staging}
    ensures Faults(store.script) <= Faults(old(store.script))
    ensures r.Failure? && Faults(store.script) == Faults(old(store.script)) ==>
              staging in store.blobs && out.stmts[id].staged == sys.stmts[id].staged
    ensures r.Success? ==> out.stmts[id].phase.Fetching?
                           && out.stmts[id].staged == sys.stmts[id].staged + [Staged(staging, AllRows(body))]
    ensures old(store.script) == [] ==> store.script == [] && store.blobs - {staging} == old(store.blobs) - {staging}
    ensures old(store.script) == [] && Live(sys.history, staging).None? ==>
              r.Success? && out.history == sys.history + [Put(staging, AllRows(body), Stager(id))]
  {
    hide EditRows, Reachable, Moved, MakeStagingName, Mirrors, OnlyMoved, Enabled, Live;
    RegisterMoves(sys, id, uuid, sys.stmts[id].backend);
    backend.RegisterStaging(staging);
    ghost var at := Moved(sys, sys.history, id, Register(uuid));
    var put, mid := store.PutIfNoneMatch(staging, body, Stager(id));
    if put.Failure? {
      if store.history == mid {
        FailMoves(at, mid, id);
        out := Moved(at, mid, id, Fail);
      } else {
        StagingMoves(at, mid, id, true);
        out := Moved(at, mid, id, PutStaging(true));
      }
      OnlyMovedTrans(sys, at, out, id);
      return Failure(put.error), out;
    }
    StagingMoves(at, mid, id, false);
    out := Moved(at, mid, id, PutStaging(false));
    OnlyMovedTrans(sys, at, out, id);
    r := Success(());
  }

  lemma NotThere(h: History, blobs: map<Name, Version>, n: Name)
    requires Mirrors(h, blobs)
    ensures n !in blobs ==> Live(h, n).None?
  {
  }

  /** How the protocol records target `t` once it is staged under `uuid`. */
  ghost function StagedAs(h: History, t: Target, uuid: string): Staged {
    var rows := Rewritten(h, t);
    if rows == [] then Staged("", []) else Staged(MakeStagingName(t.name, uuid), rows)
  }

  /** The blob a target names is unchanged since its scan, and its rewrite goes through. */
  ghost predicate Ready(blobs: map<Name, Version>, t: Target, width: nat) {
    t.name in blobs && blobs[t.name].etag == t.etag && Rewritable(blobs[t.name].body, width, t.edits)
  }

  /** What stands in the way of staging a target: the listed version is gone or cannot be rewritten, or the name is taken. */
  ghost predicate StageBlocked(blobs: map<Name, Version>, t: Target, width: nat, uuid: string) {
    !Ready(blobs, t, width) || MakeStagingName(t.name, uuid) in blobs
  }

  /** Every registered name is that of a staged target. */
  ghost predicate InFlightStaged(s: Stmt) {
    forall n | n in s.inFlight :: exists j | 0 <= j < |s.staged| :: s.staged[j].staging == n && s.staged[j].rows != []
  }

  lemma StagedOneMore(was: Stmt, s: Stmt, rec: Staged)
    requires s.staged == was.staged + [rec]
    requires s.inFlight == was.inFlight || (s.inFlight == was.inFlight + {rec.staging} && rec.rows != [])
    ensures InFlightStaged(was) ==> InFlightStaged(s)
  {
    if InFlightStaged(was) {
      forall n | n in s.inFlight ensures exists j | 0 <= j < |s.staged| :: s.staged[j].staging == n && s.staged[j].rows != [] {
        if n in was.inFlight {
          var j :| 0 <= j < |was.staged| && was.staged[j].staging == n && was.staged[j].rows != [];
          assert s.staged[j] == was.staged[j];
        } else {
          assert s.staged[|was.staged|] == rec;
        }
      }
    }
  }

  /** One turn of the staging loop; `rec` is the record the protocol will keep of it. */
  method StageOne(t: Target, width: nat, uuid: string, store: Container, backend: Backend,
                  ghost sys: Sys, ghost id: nat, ghost rec: Staged)
    returns (r: Result<StagedBlob>, ghost out: Sys)
    requires InStep(store, backend, sys, id) && NextIs(sys.stmts[id], t)
    requires Published(sys.history, t) && Numbered(sys.history, t) && rec == StagedAs(sys.history, t, uuid)
    modifies store, backend
    ensures InStep(store, backend, out, id) && sys.history <= out.history
    ensures SamePlan(out.stmts[id], sys.stmts[id]) && OnlyMoved(sys, out, id)
    ensures r.Failure? ==> out.stmts[id].phase.Failed?
    ensures InFlightStaged(sys.stmts[id]) && r.Success? ==> InFlightStaged(out.stmts[id])
    ensures Faults(store.script) <= Faults(old(store.script))
    ensures r.Failure? && Faults(store.script) == Faults(old(store.script)) ==>
              StageBlocked(store.blobs, t, width, uuid) && out.stmts[id].staged == sys.stmts[id].staged
    ensures r.Success? ==>
              && out.stmts[id].phase.Fetching?
              && out.stmts[id].staged == sys.stmts[id].staged + [rec]
              && Holds(r.value, t, rec)
    ensures old(store.script) == [] ==>
              store.script == [] && var n := MakeStagingName(t.name, uuid); store.blobs - {n} == old(store.blobs) - {n}
    ensures old(store.script) == [] && Ready(old(store.blobs), t, width)
            && MakeStagingName(t.name, uuid) !in old(store.blobs)
            ==> r.Success? && out.history == sys.history + StageLog(id, [rec])
  {
    hide Live, Reachable, Mirrors, EditRows, MakeStagingName, OnlyMoved;
    var fetched, at := FetchOne(t, width, store, backend, sys, id);
    if fetched.Failure? {
      return Failure(fetched.error), at;
    }
    assert [rec][..0] == [];
    if TotalRows(fetched.value) == 0 {
      StagedOneMore(sys.stmts[id], at.stmts[id], rec);
      return Success(StagedBlob(t.name, t.etag, "", [], true)), at;
    }
    var staging := MakeStagingName(t.name, uuid);
    NotThere(store.history, store.blobs, staging);
    var put, done := PutStaged(staging, fetched.value, store, backend, uuid, at, id);
    OnlyMovedTrans(sys, at, done, id);
    if put.Failure? {
      return Failure(put.error), done;
    }
    StagedOneMore(sys.stmts[id], done.stmts[id], rec);
    r, out := Success(StagedBlob(t.name, t.etag, staging, fetched.value, false)), done;
  }

  // ---------- phase 2 -------------------------------------------------------------

  /** Statement `s` is about to swap target `k`, held in `item`. */
  ghost predicate SwapIs(s: Stmt, k: nat, item: StagedBlob) {
    && s.phase == Swapping(k) && k < |s.targets| == |s.staged|
    && Holds(item, s.targets[k], s.staged[k])
  }

  /** From `h` to `now` statement `id` has put no staging blob. */
  ghost predicate NoNewStaging(h: History, now: History, id: nat) {
    h <= now && forall i | |h| <= i < |now| :: now[i].author != Stager(id)
  }

  lemma {:induction false} StagedBefore(h: History, now: History, id: nat, n: Name)
    requires NoNewStaging(h, now, id)
    ensures StagedLive(now, id, n) ==> StagedLive(h, id, n)
    decreases |now|
  {
    if |now| == |h| {
      assert now == h;
    } else {
      var front, last := now[..|now| - 1], now[|now| - 1];
      assert now == front + [last];
      StagedBefore(h, front, id, n);
      StagedLiveSnoc(front, last, id, n);
    }
  }

  /** The conditional PUT of the new body over the original, or its conditional DELETE. */
  method SwapOriginal(item: StagedBlob, store: Container, backend: Backend, ghost sys: Sys, ghost id: nat, ghost k: nat)
    returns (r: Result<()>, ghost out: Sys)
    requires InStep(store, backend, sys, id) && SwapIs(sys.stmts[id], k, item)
    modifies store
    ensures InStep(store, backend, out, id)
    ensures SamePlan(out.stmts[id], sys.stmts[id]) && OnlyMoved(sys, out, id)
    ensures r.Failure? ==> out.stmts[id].phase.Failed? && out.stmts[id].staged == sys.stmts[id].staged
    ensures NoNewStaging(sys.history, out.history, id) && Faults(store.script) <= Faults(old(store.script))
    ensures r.Failure? && Faults(store.script) == Faults(old(store.script)) ==>
              out.stmts[id].phase == Failed(k) && !(item.original in store.blobs && store.blobs[item.original].etag == item.etag)
    ensures r.Success? ==>
              out.stmts[id] == sys.stmts[id].(phase := if item.emptyDelete then Swapping(k + 1) else Cleaning(k))
    ensures old(store.script) == [] ==> store.script == []
    ensures old(store.script) == [] && Live(sys.history, item.original) == Some(item.etag) ==>
              r.Success? && out.history == sys.history + [SwapEvent(id, sys.stmts[id].targets[k], sys.stmts[id].staged[k])]
  {
    hide Mirrors, Reachable, Moved, OnlyMoved;
    ghost var t := sys.stmts[id].targets[k];
    ghost var mid: History;
    if item.emptyDelete {
      r, mid := store.DeleteIfMatch(item.original, item.etag, Swapper(id, t));
    } else {
      var put, at := store.PutIfMatch(item.original, item.body, item.etag, Swapper(id, t));
      mid := at;
      r := if put.Success? then Success(()) else Failure(put.error);
    }
    ghost var m := if r.Failure? && store.history == mid then Fail else Swap(r.Failure?);
    out := Moved(sys, mid, id, m);
    MovedReachable(sys, mid, id, m);
  }

  /** The step of deleting a staging blob, which may find it gone or fail. */
  lemma CleanMoves(sys: Sys, mid: History, id: nat, k: nat, applied: bool)
    requires Reachable(sys) && OutsideOnly(sys.history, mid) && id in sys.stmts && sys.stmts[id].phase == Cleaning(k)
    requires k < |sys.stmts[id].staged| && (applied ==> Live(mid, sys.stmts[id].staged[k].staging).Some?)
    ensures Enabled(mid, sys.stmts[id], DeleteStaging(applied))
    ensures var out, s := Moved(sys, mid, id, DeleteStaging(applied)), sys.stmts[id];
            && Reachable(out) && OnlyMoved(sys, out, id) && out.slots == sys.slots && id in out.stmts && out.stmts[id] == s.(phase := Marking(k))
            && out.history == mid + if applied then [Remove(s.staged[k].staging, Cleaner(id))] else []
  {
    hide Live, Reachable, OnlyMoved, Moved;
    MovedReachable(sys, mid, id, DeleteStaging(applied));
  }

  /** The step of marking it committed. */
  lemma MarkMoves(sys: Sys, id: nat, k: nat, b: nat)
    requires Reachable(sys) && id in sys.stmts && sys.stmts[id].phase == Marking(k) && k < |sys.stmts[id].staged| && sys.stmts[id].backend == b
    ensures Enabled(sys.history, sys.stmts[id], MarkCommitted)
    ensures var out, s := Moved(sys, sys.history, id, MarkCommitted), sys.stmts[id];
            && Reachable(out) && OnlyMoved(sys, out, id) && out.history == sys.history && id in out.stmts
            && out.stmts[id] == s.(phase := Swapping(k + 1), inFlight := s.inFlight - {s.staged[k].staging})
            && (b in sys.slots <==> b in out.slots) && (b in out.slots ==> out.slots[b].names == sys.slots[b].names - {s.staged[k].staging})
  {
    hide Live, Reachable, OnlyMoved, Moved;
    MovedReachable(sys, sys.history, id, MarkCommitted);
  }

  /** The best-effort DELETE of the staging blob, and the slot's book-keeping. */
  method CleanUp(staging: Name, store: Container, backend: Backend, ghost sys: Sys, ghost id: nat, ghost k: nat)
    returns (ghost out: Sys)
    requires InStep(store, backend, sys, id) && sys.stmts[id].phase == Cleaning(k)
    requires k < |sys.stmts[id].staged| && sys.stmts[id].staged[k].staging == staging
    modifies store, backend
    ensures InStep(store, backend, out, id)
    ensures SamePlan(out.stmts[id], sys.stmts[id]) && OnlyMoved(sys, out, id)
    ensures out.stmts[id].phase == Swapping(k + 1) && out.stmts[id].staged == sys.stmts[id].staged
    ensures out.stmts[id].inFlight == sys.stmts[id].inFlight - {staging}
    ensures NoNewStaging(sys.history, out.history, id) && Faults(store.script) <= Faults(old(store.script))
    ensures Faults(store.script) == Faults(old(store.script)) ==> Live(out.history, staging).None?
    ensures old(store.script) == [] ==> store.script == []
    ensures old(store.script) == [] && Live(sys.history, staging).Some? ==>
              out.history == sys.history + [Remove(staging, Cleaner(id))]
  {
    hide Mirrors, Reachable, Moved, OnlyMoved, Live, EditRows, Enabled;
    var _, mid := store.DeleteUnconditional(staging, Cleaner(id));
    CleanMoves(sys, mid, id, k, store.history != mid);
    ghost var at := Moved(sys, mid, id, DeleteStaging(store.history != mid));
    backend.MarkCommitted(staging);
    MarkMoves(at, id, k, sys.stmts[id].backend);
    out := Moved(at, at.history, id, MarkCommitted);
    OnlyMovedTrans(sys, at, out, id);
  }

  /** One turn of the swap loop. */
  method SwapOne(item: StagedBlob, store: Container, backend: Backend, ghost sys: Sys, ghost id: nat, ghost k: nat)
    returns (r: Result<()>, ghost out: Sys)
    requires InStep(store, backend, sys, id) && SwapIs(sys.stmts[id], k, item)
    modifies store, backend
    ensures InStep(store, backend, out, id)
    ensures SamePlan(out.stmts[id], sys.stmts[id]) && OnlyMoved(sys, out, id)
    ensures r.Failure? ==> out.stmts[id].phase.Failed? && out.stmts[id].staged == sys.stmts[id].staged
    ensures NoNewStaging(sys.history, out.history, id) && Faults(store.script) <= Faults(old(store.script))
    ensures r.Failure? && Faults(store.script) == Faults(old(store.script)) ==>
              out.stmts[id].phase == Failed(k) && !(item.original in store.blobs && store.blobs[item.original].etag == item.etag)
    ensures r.Success? ==> out.stmts[id].inFlight == sys.stmts[id].inFlight - if item.emptyDelete then {} else {item.staging}
    ensures r.Success? && !item.emptyDelete && Faults(store.script) == Faults(old(store.script)) ==> Live(out.history, item.staging).None?
    ensures r.Success? ==> out.stmts[id].phase == Swapping(k + 1) && out.stmts[id].staged == sys.stmts[id].staged
    ensures old(store.script) == [] ==> store.script == []
    ensures old(store.script) == [] && Live(sys.history, item.original) == Some(item.etag)
            && (!item.emptyDelete ==> item.staging != item.original && Live(sys.history, item.staging).Some?)
            ==> r.Success? && out.history == sys.history + [SwapEvent(id, sys.stmts[id].targets[k], sys.stmts[id].staged[k])]
                                             + if item.emptyDelete then [] else [Remove(item.staging, Cleaner(id))]
  {
    hide Live, Reachable, Mirrors, OnlyMoved;
    var swapped, at := SwapOriginal(item, store, backend, sys, id, k);
    if swapped.Failure? || item.emptyDelete {
      return swapped, at;
    }
    LiveSnoc(sys.history, SwapEvent(id, sys.stmts[id].targets[k], sys.stmts[id].staged[k]), item.staging);
    out := CleanUp(item.staging, store, backend, at, id, k);
    OnlyMovedTrans(sys, at, out, id);
    r := Success(());
  }

  // ---------- the whole commit ----------------------------------------------------

  /** Every target's etag was issued for it, and the rows of an unchanged one fit 32 bits. */
  ghost predicate Scanned(h: History, targets: seq<Target>) {
    forall i | 0 <= i < |targets| :: Published(h, targets[i]) && Numbered(h, targets[i])
  }

  ghost function StagedAll(h: History, targets: seq<Target>, uuids: seq<string>): seq<Staged>
    requires |targets| <= |uuids|
  {
    seq(|targets|, i requires 0 <= i < |targets| => StagedAs(h, targets[i], uuids[i]))
  }

  /** All targets are distinct and ready, and the staging names are new and distinct. */
  ghost predicate Undisturbed(blobs: map<Name, Version>, targets: seq<Target>, uuids: seq<string>, width: nat)
    requires |targets| <= |uuids|
  {
    && (forall i | 0 <= i < |targets| :: Ready(blobs, targets[i], width))
    && (forall i | 0 <= i < |targets| :: MakeStagingName(targets[i].name, uuids[i]) !in blobs)
    && (forall i, j | 0 <= i < j < |targets| :: targets[i].name != targets[j].name)
    && (forall i, j | 0 <= i < j < |targets| ::
          MakeStagingName(targets[i].name, uuids[i]) != MakeStagingName(targets[j].name, uuids[j]))
  }

  /** The targets are as they were, and the staging names from `i` on are still free. */
  ghost predicate StillReady(now: map<Name, Version>, was: map<Name, Version>, targets: seq<Target>, uuids: seq<string>, i: nat)
    requires |targets| <= |uuids|
  {
    && (forall j | 0 <= j < |targets| :: targets[j].name in was && targets[j].name in now
                                         && now[targets[j].name] == was[targets[j].name])
    && (forall j | i <= j < |targets| :: MakeStagingName(targets[j].name, uuids[j]) !in now)
  }

  lemma StillReadyStep(now: map<Name, Version>, next: map<Name, Version>, was: map<Name, Version>,
                       targets: seq<Target>, uuids: seq<string>, width: nat, i: nat)
    requires i < |targets| <= |uuids| && Undisturbed(was, targets, uuids, width)
    requires StillReady(now, was, targets, uuids, i)
    requires var n := MakeStagingName(targets[i].name, uuids[i]); next - {n} == now - {n}
    ensures StillReady(next, was, targets, uuids, i + 1)
  {
    var n := MakeStagingName(targets[i].name, uuids[i]);
    forall j | 0 <= j < |targets| ensures targets[j].name in next && next[targets[j].name] == was[targets[j].name] {
      assert targets[j].name != n;
      assert targets[j].name in now - {n};
      assert (next - {n})[targets[j].name] == now[targets[j].name];
    }
    forall j | i + 1 <= j < |targets| ensures MakeStagingName(targets[j].name, uuids[j]) !in next {
      assert MakeStagingName(targets[j].name, uuids[j]) !in now - {n};
    }
  }

  /** What stands in the way of a failed statement going on: of staging its next target, or of swapping it. */
  ghost predicate Blocked(blobs: map<Name, Version>, s: Stmt, width: nat, uuids: seq<string>) {
    && s.phase.Failed?
    && if |s.staged| < |s.targets| then |s.staged| < |uuids| && StageBlocked(blobs, s.targets[|s.staged|], width, uuids[|s.staged|])
       else s.phase.swapped < |s.targets| && var t := s.targets[s.phase.swapped]; !(t.name in blobs && blobs[t.name].etag == t.etag)
  }

  /** The statement has staged the first `i` targets. */
  ghost predicate StagedTo(s: Stmt, targets: seq<Target>, all: seq<Staged>, i: nat)
    requires i <= |all|
  {
    s.targets == targets && s.phase.Fetching? && s.staged == all[..i]
  }

  /** Nothing has disturbed the commit while it staged the first `i` targets. */
  ghost predicate CalmTo(blobs: map<Name, Version>, now: History, was: map<Name, Version>, h: History, id: nat,
                         targets: seq<Target>, uuids: seq<string>, all: seq<Staged>, i: nat)
    requires i <= |all| == |targets| <= |uuids|
  {
    StillReady(blobs, was, targets, uuids, i) && now == h + StageLog(id, all[..i])
  }

  lemma CalmStart(was: map<Name, Version>, h: History, id: nat,
                  targets: seq<Target>, uuids: seq<string>, width: nat, all: seq<Staged>)
    requires |all| == |targets| <= |uuids| && Undisturbed(was, targets, uuids, width)
    ensures CalmTo(was, h, was, h, id, targets, uuids, all, 0)
  {
    assert h + StageLog(id, all[..0]) == h;
    forall i | 0 <= i < |targets| ensures targets[i].name in was {
      assert Ready(was, targets[i], width);
    }
  }

  lemma CalmStep(blobs: map<Name, Version>, now: History, next: map<Name, Version>, last: History,
                 was: map<Name, Version>, h: History, id: nat,
                 targets: seq<Target>, uuids: seq<string>, width: nat, all: seq<Staged>, i: nat)
    requires i < |all| == |targets| <= |uuids| && Undisturbed(was, targets, uuids, width)
    requires CalmTo(blobs, now, was, h, id, targets, uuids, all, i)
    requires var n := MakeStagingName(targets[i].name, uuids[i]); next - {n} == blobs - {n}
    requires last == now + StageLog(id, [all[i]])
    ensures CalmTo(next, last, was, h, id, targets, uuids, all, i + 1)
  {
    StillReadyStep(blobs, next, was, targets, uuids, width, i);
    StageLogSnoc(h, id, all, i);
  }

  /** `rec` is what staging the scanned target `t` under `uuid` will record. */
  ghost predicate PlannedAs(h: History, t: Target, uuid: string, rec: Staged) {
    Published(h, t) && Numbered(h, t) && rec == StagedAs(h, t, uuid)
  }

  /** Stages target `i`. `h` is the history and `was` the blobs before the first one. */
  method StageNext(targets: seq<Target>, i: nat, width: nat, uuids: seq<string>, store: Container, backend: Backend,
                   ghost h: History, ghost was: map<Name, Version>, ghost sys: Sys, ghost id: nat, ghost all: seq<Staged>)
    returns (r: Result<StagedBlob>, ghost out: Sys)
    requires i < |targets| == |all| <= |uuids| && InStep(store, backend, sys, id) && StagedTo(sys.stmts[id], targets, all, i)
    requires h <= sys.history && PlannedAs(h, targets[i], uuids[i], all[i])
    modifies store, backend
    ensures InStep(store, backend, out, id) && h <= out.history
    ensures SamePlan(out.stmts[id], sys.stmts[id]) && OnlyMoved(sys, out, id)
    ensures r.Failure? ==> out.stmts[id].phase.Failed?
    ensures InFlightStaged(sys.stmts[id]) && r.Success? ==> InFlightStaged(out.stmts[id])
    ensures Faults(store.script) <= Faults(old(store.script))
    ensures r.Failure? && Faults(store.script) == Faults(old(store.script)) ==>
              StageBlocked(store.blobs, targets[i], width, uuids[i]) && |out.stmts[id].staged| == i
    ensures r.Success? ==> StagedTo(out.stmts[id], targets, all, i + 1) && Holds(r.value, targets[i], all[i])
    ensures old(store.script) == [] && Undisturbed(was, targets, uuids, width)
            && CalmTo(old(store.blobs), sys.history, was, h, id, targets, uuids, all, i)
            ==> && r.Success? && store.script == []
                && CalmTo(store.blobs, out.history, was, h, id, targets, uuids, all, i + 1)
  {
    hide Live, Reachable, Mirrors, EditRows, MakeStagingName, StageLog, Undisturbed, StillReady, Ready, OnlyMoved, StageBlocked, InFlightStaged;
    SameVersion(h, sys.history, targets[i], uuids[i]);
    ghost var before := store.blobs;
    ghost var calm := store.script == [] && Undisturbed(was, targets, uuids, width)
                      && CalmTo(before, sys.history, was, h, id, targets, uuids, all, i);
    if calm {
      CalmIsReady(before, was, targets, uuids, width, i);
    }
    r, out := StageOne(targets[i], width, uuids[i], store, backend, sys, id, all[i]);
    if calm {
      CalmStep(before, sys.history, store.blobs, out.history, was, h, id, targets, uuids, width, all, i);
    }
    assert all[..i] + [all[i]] == all[..i + 1];
  }

  lemma CalmIsReady(blobs: map<Name, Version>, was: map<Name, Version>,
                    targets: seq<Target>, uuids: seq<string>, width: nat, i: nat)
    requires i < |targets| <= |uuids|
    requires Undisturbed(was, targets, uuids, width) && StillReady(blobs, was, targets, uuids, i)
    ensures Ready(blobs, targets[i], width) && MakeStagingName(targets[i].name, uuids[i]) !in blobs
  {
    assert Ready(was, targets[i], width);
  }

  /** Phase 1: stage every target in order; the first error stops it. */
  method StageAll(targets: seq<Target>, width: nat, uuids: seq<string>, store: Container, backend: Backend,
                  ghost sys: Sys, ghost id: nat, ghost all: seq<Staged>)
    returns (r: Result<seq<StagedBlob>>, ghost out: Sys)
    requires |targets| == |all| <= |uuids| && InStep(store, backend, sys, id) && StagedTo(sys.stmts[id], targets, all, 0)
    requires forall i | 0 <= i < |targets| :: PlannedAs(sys.history, targets[i], uuids[i], all[i])
    modifies store, backend
    ensures InStep(store, backend, out, id)
    ensures SamePlan(out.stmts[id], sys.stmts[id]) && OnlyMoved(sys, out, id)
    ensures r.Failure? ==> out.stmts[id].phase.Failed?
    ensures InFlightStaged(sys.stmts[id]) && r.Success? ==> InFlightStaged(out.stmts[id])
    ensures Faults(store.script) <= Faults(old(store.script))
    ensures r.Failure? && Faults(store.script) == Faults(old(store.script)) ==> Blocked(store.blobs, out.stmts[id], width, uuids)
    ensures r.Success? ==> StagedTo(out.stmts[id], targets, all, |targets|) && HoldsAll(r.value, targets, all)
    ensures old(store.script) == [] && Undisturbed(old(store.blobs), targets, uuids, width) ==>
              && r.Success? && store.script == []
              && CalmTo(store.blobs, out.history, old(store.blobs), sys.history, id, targets, uuids, all, |targets|)
  {
    hide Live, Reachable, Mirrors, EditRows, MakeStagingName, Undisturbed, StillReady, OnlyMoved, StageBlocked, InFlightStaged;
    var items: seq<StagedBlob> := [];
    out := sys;
    ghost var h, was := sys.history, store.blobs;
    ghost var calm := store.script == [] && Undisturbed(was, targets, uuids, width);
    if calm {
      CalmStart(was, h, id, targets, uuids, width, all);
    }
    OnlyMovedSelf(sys, id);
    for i := 0 to |targets|
      invariant InStep(store, backend, out, id) && h <= out.history
      invariant SamePlan(out.stmts[id], sys.stmts[id]) && OnlyMoved(sys, out, id)
      invariant StagedTo(out.stmts[id], targets, all, i) && (InFlightStaged(sys.stmts[id]) ==> InFlightStaged(out.stmts[id]))
      invariant Faults(store.script) <= Faults(old(store.script))
      invariant HoldsAll(items, targets[..i], all[..i])
      invariant calm ==> store.script == [] && CalmTo(store.blobs, out.history, was, h, id, targets, uuids, all, i)
    {
      var one, next := StageNext(targets, i, width, uuids, store, backend, h, was, out, id, all);
      OnlyMovedTrans(sys, out, next, id);
      if one.Failure? {
        return Failure(one.error), next;
      }
      HoldsSnoc(items, targets, all, one.value);
      items := items + [one.value];
      out := next;
    }
    assert targets[..|targets|] == targets && all[..|targets|] == all;
    r := Success(items);
  }

  /** A published version stays what it was as the history grows. */
  lemma SameVersion(h: History, now: History, t: Target, uuid: string)
    requires h <= now && Published(h, t)
    ensures Published(now, t) && now[t.etag] == h[t.etag] && StagedAs(now, t, uuid) == StagedAs(h, t, uuid)
    ensures Numbered(h, t) ==> Numbered(now, t)
  {
    LiveEarlier(h, now, t.name, t.etag);
  }

  ghost predicate HoldsAll(items: seq<StagedBlob>, targets: seq<Target>, staged: seq<Staged>) {
    |items| == |targets| == |staged| && forall i | 0 <= i < |items| :: Holds(items[i], targets[i], staged[i])
  }

  lemma StageLogSnoc(h: History, id: nat, all: seq<Staged>, i: nat)
    requires i < |all|
    ensures h + StageLog(id, all[..i]) + StageLog(id, [all[i]]) == h + StageLog(id, all[..i + 1])
  {
    assert all[..i + 1][..i] == all[..i];
    assert [all[i]][..0] == [];
  }

  /** Every original is at its scanned version and every staging blob is there. */
  ghost predicate Swappable(h: History, targets: seq<Target>, staged: seq<Staged>) {
    && |staged| == |targets| && Separate(targets, staged)
    && (forall i | 0 <= i < |targets| :: Live(h, targets[i].name) == Some(targets[i].etag))
    && (forall i | 0 <= i < |targets| && staged[i].rows != [] :: Live(h, staged[i].staging).Some?)
  }

  lemma SwappableStep(h: History, id: nat, targets: seq<Target>, staged: seq<Staged>, k: nat)
    requires Swappable(h, targets, staged) && k < |targets|
    ensures Live(h + SwapLog(id, targets, staged, k), targets[k].name) == Some(targets[k].etag)
    ensures staged[k].rows != [] ==> Live(h + SwapLog(id, targets, staged, k), staged[k].staging).Some?
    ensures staged[k].rows != [] ==> staged[k].staging != targets[k].name
  {
    SwapLeaves(h, id, targets, staged, k, targets[k].name);
    if staged[k].rows != [] {
      SwapLeaves(h, id, targets, staged, k, staged[k].staging);
    }
  }

  lemma HoldsSnoc(items: seq<StagedBlob>, targets: seq<Target>, staged: seq<Staged>, item: StagedBlob)
    requires |items| < |targets| == |staged| && HoldsAll(items, targets[..|items|], staged[..|items|])
    requires Holds(item, targets[|items|], staged[|items|])
    ensures HoldsAll(items + [item], targets[..|items| + 1], staged[..|items| + 1])
  {
  }

  /** Nothing has disturbed the commit during its first `k` swaps. */
  ghost predicate CalmSwaps(store: Container, h: History, id: nat, targets: seq<Target>, staged: seq<Staged>, k: nat)
    requires k <= |targets| == |staged|
    reads store
  {
    store.script == [] && Swappable(h, targets, staged) && store.history == h + SwapLog(id, targets, staged, k)
  }

  /** The staging blobs of the first `k` targets are gone, and the names of no others are registered. */
  ghost predicate CleanedTo(h: History, id: nat, s: Stmt, k: nat) {
    && (forall j | 0 <= j < k && j < |s.staged| && s.staged[j].rows != [] :: !StagedLive(h, id, s.staged[j].staging))
    && (forall n | n in s.inFlight :: exists j | k <= j < |s.staged| :: s.staged[j].staging == n && s.staged[j].rows != [])
  }

  lemma CleanedStep(h: History, now: History, id: nat, was: Stmt, s: Stmt, k: nat)
    requires CleanedTo(h, id, was, k) && k < |was.staged| && s.staged == was.staged && NoNewStaging(h, now, id)
    requires s.inFlight == was.inFlight - if was.staged[k].rows == [] then {} else {was.staged[k].staging}
    requires was.staged[k].rows != [] ==> Live(now, was.staged[k].staging).None?
    ensures CleanedTo(now, id, s, k + 1)
  {
    hide Live;
    forall j | 0 <= j < k + 1 && j < |s.staged| && s.staged[j].rows != [] ensures !StagedLive(now, id, s.staged[j].staging) {
      StagedBefore(h, now, id, s.staged[j].staging);
    }
  }

  /** Swaps target `k`. `h` is the history before the first swap. */
  method SwapNext(items: seq<StagedBlob>, k: nat, store: Container, backend: Backend,
                  ghost h: History, ghost sys: Sys, ghost id: nat)
    returns (r: Result<()>, ghost out: Sys)
    requires InStep(store, backend, sys, id) && k < |items| && sys.stmts[id].phase == Swapping(k)
    requires HoldsAll(items, sys.stmts[id].targets, sys.stmts[id].staged)
    modifies store, backend
    ensures InStep(store, backend, out, id)
    ensures SamePlan(out.stmts[id], sys.stmts[id]) && OnlyMoved(sys, out, id)
    ensures r.Failure? ==> out.stmts[id].phase.Failed? && out.stmts[id].staged == sys.stmts[id].staged
    ensures Faults(store.script) <= Faults(old(store.script))
    ensures r.Failure? && Faults(store.script) == Faults(old(store.script)) ==>
              && out.stmts[id].phase == Failed(k)
              && var t := sys.stmts[id].targets[k]; !(t.name in store.blobs && store.blobs[t.name].etag == t.etag)
    ensures r.Success? && CleanedTo(sys.history, id, sys.stmts[id], k) && Faults(store.script) == Faults(old(store.script)) ==>
              CleanedTo(out.history, id, out.stmts[id], k + 1)
    ensures r.Success? ==> out.stmts[id].phase == Swapping(k + 1) && out.stmts[id].staged == sys.stmts[id].staged
    ensures old(CalmSwaps(store, h, id, sys.stmts[id].targets, sys.stmts[id].staged, k)) ==>
              r.Success? && CalmSwaps(store, h, id, sys.stmts[id].targets, sys.stmts[id].staged, k + 1)
  {
    hide Live, Reachable, Mirrors, Separate, Swappable, OnlyMoved, CleanedTo;
    ghost var targets, staged := sys.stmts[id].targets, sys.stmts[id].staged;
    assert Holds(items[k], targets[k], staged[k]);
    ghost var calm := CalmSwaps(store, h, id, targets, staged, k);
    if calm {
      SwappableStep(h, id, targets, staged, k);
    }
    r, out := SwapOne(items[k], store, backend, sys, id, k);
    if r.Success? && CleanedTo(sys.history, id, sys.stmts[id], k) && Faults(store.script) == Faults(old(store.script)) {
      CleanedStep(sys.history, out.history, id, sys.stmts[id], out.stmts[id], k);
    }
    if calm {
      assert out.history == h + SwapLog(id, targets, staged, k + 1);
    }
  }

  /** Phase 2: swap every staged blob in order; the first error stops it. */
  method SwapAll(items: seq<StagedBlob>, store: Container, backend: Backend, ghost sys: Sys, ghost id: nat)
    returns (r: Result<()>, ghost out: Sys)
    requires InStep(store, backend, sys, id) && sys.stmts[id].phase == Swapping(0)
    requires HoldsAll(items, sys.stmts[id].targets, sys.stmts[id].staged)
    modifies store, backend
    ensures InStep(store, backend, out, id)
    ensures SamePlan(out.stmts[id], sys.stmts[id]) && OnlyMoved(sys, out, id)
    ensures if r.Success? then out.stmts[id].phase.Done? else out.stmts[id].phase.Failed?
    ensures Faults(store.script) <= Faults(old(store.script))
    ensures r.Failure? && Faults(store.script) == Faults(old(store.script)) ==> Blocked(store.blobs, out.stmts[id], 0, [])
    ensures r.Success? && CleanedTo(sys.history, id, sys.stmts[id], 0) && Faults(store.script) == Faults(old(store.script)) ==>
              CleanedTo(out.history, id, out.stmts[id], |out.stmts[id].staged|)
    ensures var s := sys.stmts[id];
            old(CalmSwaps(store, store.history, id, s.targets, s.staged, 0)) ==>
              r.Success? && CalmSwaps(store, old(store.history), id, s.targets, s.staged, |s.targets|)
  {
    hide Live, Reachable, Mirrors, SwapLog, Swappable, OnlyMoved;
    ghost var h, targets, staged := store.history, sys.stmts[id].targets, sys.stmts[id].staged;
    ghost var calm := CalmSwaps(store, h, id, targets, staged, 0);
    out := sys;
    OnlyMovedSelf(sys, id);
    for k := 0 to |items|
      invariant InStep(store, backend, out, id)
      invariant SamePlan(out.stmts[id], sys.stmts[id]) && OnlyMoved(sys, out, id)
      invariant out.stmts[id].phase == Swapping(k) && out.stmts[id].staged == staged
      invariant Faults(store.script) <= Faults(old(store.script))
      invariant CleanedTo(sys.history, id, sys.stmts[id], 0) && Faults(store.script) == Faults(old(store.script)) ==>
                  CleanedTo(out.history, id, out.stmts[id], k)
      invariant calm ==> CalmSwaps(store, h, id, targets, staged, k)
    {
      var one, next := SwapNext(items, k, store, backend, h, out, id);
      OnlyMovedTrans(sys, out, next, id);
      out := next;
      if one.Failure? {
        return one, out;
      }
    }
    ghost var at := out;
    out := Moved(at, at.history, id, Finish);
    MovedReachable(at, at.history, id, Finish);
    OnlyMovedTrans(sys, at, out, id);
    r := Success(());
  }

  /** The target a plan's key stands for. */
  function TargetAt(table: seq<BlobIdEntry>, edits: map<nat, BlobEdits>, key: nat): Target
    requires key in edits && key < |table|
  {
    Target(table[key].name, table[key].etag, edits[key])
  }

  /** The keys of the plan, each once and ascending, and the targets they stand for. */
  ghost predicate TargetsInKeyOrder(table: seq<BlobIdEntry>, edits: map<nat, BlobEdits>, keys: seq<nat>, targets: seq<Target>) {
    && Ascending(keys) && (forall k :: k in keys <==> k in edits)
    && |targets| == |keys|
    && forall i | 0 <= i < |keys| :: keys[i] in edits && keys[i] < |table| && targets[i] == TargetAt(table, edits, keys[i])
  }

  lemma {:induction false} AscendingSize(keys: seq<nat>, s: set<nat>)
    requires Ascending(keys) && forall i | 0 <= i < |keys| :: keys[i] in s
    ensures |keys| <= |s|
  {
    if keys != [] {
      var last := |keys| - 1;
      AscendingSize(keys[..last], s - {keys[last]});
    }
  }

  /** A target is rewritten under a fresh etag, or gone when no row is left. */
  ghost predicate Rewrote(was: map<Name, Version>, now: map<Name, Version>, issued: nat, t: Target) {
    t.name in was ==>
      var rows := EditRows(AllRows(was[t.name].body), 0, t.edits);
      && (t.name in now <==> rows != [])
      && (t.name in now ==> AllRows(now[t.name].body) == rows && now[t.name].etag >= issued)
  }

  /** A blob is at the version it had, or still absent. */
  ghost predicate Kept(was: map<Name, Version>, now: map<Name, Version>, n: Name) {
    && (n in now <==> n in was)
    && (n in now ==> now[n].etag == was[n].etag && AllRows(now[n].body) == AllRows(was[n].body))
  }

  ghost predicate IsTarget(targets: seq<Target>, n: Name) {
    exists j | 0 <= j < |targets| :: targets[j].name == n
  }

  /** What the commit leaves: every target rewritten, and every other blob as it was. */
  ghost predicate Outcome(was: map<Name, Version>, now: map<Name, Version>, issued: nat, targets: seq<Target>) {
    && (forall j | 0 <= j < |targets| :: Rewrote(was, now, issued, targets[j]))
    && (forall n | !IsTarget(targets, n) :: Kept(was, now, n))
  }

  lemma StagedSeparate(was: map<Name, Version>, h: History, targets: seq<Target>, uuids: seq<string>, width: nat)
    requires |targets| <= |uuids| && Undisturbed(was, targets, uuids, width)
    ensures Separate(targets, StagedAll(h, targets, uuids))
  {
    forall i, j | 0 <= i < |targets| && 0 <= j < |targets|
      ensures MakeStagingName(targets[i].name, uuids[i]) != targets[j].name
    {
      assert Ready(was, targets[j], width);
    }
  }

  /** After an undisturbed phase 1, every swap will go through. */
  lemma CalmIsSwappable(blobs: map<Name, Version>, now: History, was: map<Name, Version>, h: History, id: nat,
                        targets: seq<Target>, uuids: seq<string>, width: nat, all: seq<Staged>)
    requires |targets| <= |uuids| && Undisturbed(was, targets, uuids, width) && all == StagedAll(h, targets, uuids)
    requires Mirrors(now, blobs) && CalmTo(blobs, now, was, h, id, targets, uuids, all, |targets|)
    ensures Swappable(now, targets, all) && now == h + StageLog(id, all)
  {
    assert all[..|targets|] == all;
    StagedSeparate(was, h, targets, uuids, width);
    forall i | 0 <= i < |targets| ensures Live(now, targets[i].name) == Some(targets[i].etag) {
      assert Ready(was, targets[i], width);
    }
    forall i | 0 <= i < |targets| && all[i].rows != [] ensures Live(now, all[i].staging).Some? {
      StagePuts(h, id, all, i);
    }
  }

  /** The whole undisturbed run. */
  ghost predicate CalmRun(was: map<Name, Version>, h: History, now: map<Name, Version>, last: History, id: nat,
                          targets: seq<Target>, uuids: seq<string>, width: nat, all: seq<Staged>)
    requires |targets| <= |uuids|
  {
    && Undisturbed(was, targets, uuids, width) && all == StagedAll(h, targets, uuids)
    && Mirrors(h, was) && Mirrors(last, now) && Scanned(h, targets)
    && last == h + StageLog(id, all) + SwapLog(id, targets, all, |targets|)
  }

  lemma CalmRewrote(was: map<Name, Version>, h: History, now: map<Name, Version>, last: History, id: nat,
                    targets: seq<Target>, uuids: seq<string>, width: nat, all: seq<Staged>, j: nat)
    requires j < |targets| <= |uuids| && CalmRun(was, h, now, last, id, targets, uuids, width, all)
    ensures Rewrote(was, now, |h|, targets[j])
  {
    StagedSeparate(was, h, targets, uuids, width);
    StagingFree(was, h, targets, uuids, width, all);
    assert Ready(was, targets[j], width);
    CommitOutcome(h, id, targets, all, targets[j].name);
  }

  lemma CalmKept(was: map<Name, Version>, h: History, now: map<Name, Version>, last: History, id: nat,
                 targets: seq<Target>, uuids: seq<string>, width: nat, all: seq<Staged>, n: Name)
    requires |targets| <= |uuids| && CalmRun(was, h, now, last, id, targets, uuids, width, all)
    requires !IsTarget(targets, n)
    ensures Kept(was, now, n)
  {
    StagedSeparate(was, h, targets, uuids, width);
    StagingFree(was, h, targets, uuids, width, all);
    LastLive(h, id, targets, all, n);
    SameLive(was, h, now, last, n);
  }

  lemma LastLive(h: History, id: nat, targets: seq<Target>, all: seq<Staged>, n: Name)
    requires |all| == |targets| && Separate(targets, all) && !IsTarget(targets, n)
    requires forall j | 0 <= j < |all| && all[j].rows != [] :: Live(h, all[j].staging).None?
    ensures Live(h + StageLog(id, all) + SwapLog(id, targets, all, |targets|), n) == Live(h, n)
  {
    CommitOutcome(h, id, targets, all, n);
  }

  /** A blob whose live etag is unchanged is unchanged. */
  lemma SameLive(was: map<Name, Version>, h: History, now: map<Name, Version>, last: History, n: Name)
    requires Mirrors(h, was) && Mirrors(last, now) && h <= last && Live(last, n) == Live(h, n)
    ensures Kept(was, now, n)
  {
  }

  lemma StagingFree(was: map<Name, Version>, h: History, targets: seq<Target>, uuids: seq<string>, width: nat, all: seq<Staged>)
    requires |targets| <= |uuids| && Undisturbed(was, targets, uuids, width) && all == StagedAll(h, targets, uuids)
    requires Mirrors(h, was)
    ensures forall j | 0 <= j < |all| && all[j].rows != [] :: Live(h, all[j].staging).None?
  {
  }

  lemma CalmOutcome(was: map<Name, Version>, h: History, now: map<Name, Version>, last: History, id: nat,
                    targets: seq<Target>, uuids: seq<string>, width: nat, all: seq<Staged>)
    requires |targets| <= |uuids| && CalmRun(was, h, now, last, id, targets, uuids, width, all)
    ensures Outcome(was, now, |h|, targets)
  {
    forall j | 0 <= j < |targets| ensures Rewrote(was, now, |h|, targets[j]) {
      CalmRewrote(was, h, now, last, id, targets, uuids, width, all, j);
    }
    forall n | !IsTarget(targets, n) ensures Kept(was, now, n) {
      CalmKept(was, h, now, last, id, targets, uuids, width, all, n);
    }
  }

  /** No staging blob of the statement exists. */
  ghost predicate NothingStaged(h: History, id: nat) {
    forall n :: !StagedLive(h, id, n)
  }

  lemma NoneInFlight(s: Stmt)
    requires s.inFlight == {}
    ensures InFlightStaged(s)
  {
  }

  lemma StagedIsCleaned(h: History, id: nat, was: Stmt, s: Stmt)
    requires InFlightStaged(was) && s.staged == was.staged && s.inFlight == was.inFlight
    ensures CleanedTo(h, id, s, 0)
  {
    hide StagedLive;
  }

  /** A finished statement that has deleted what it staged has no staging blob left. */
  lemma DoneIsClean(s: Sys, id: nat)
    requires Reachable(s) && id in s.stmts && s.stmts[id].phase.Done? && CleanedTo(s.history, id, s.stmts[id], |s.stmts[id].staged|)
    ensures NothingStaged(s.history, id)
  {
    hide Live, StagedLive, Reachable, GoodHistory, IsStagingName, SwapsBy, Rewritten;
    ReachableInv(s);
    assert StmtOk(s.history, id, s.stmts[id]);
    EmptyIsNoStagingName();
    forall n ensures !StagedLive(s.history, id, n) {
      StagedIsStaging(s, id, n);
    }
  }

  lemma EmptyIsNoStagingName()
    ensures !IsStagingName("")
  {
  }

  lemma StagedIsStaging(s: Sys, id: nat, n: Name)
    requires Reachable(s) && id in s.stmts && Inv(s)
    ensures StagedLive(s.history, id, n) ==> IsStagingName(n)
  {
    if StagedLive(s.history, id, n) {
      LiveMeans(s.history, n);
      GoodAt(s.history, Live(s.history, n).value);
    }
  }

  /** Both phases for a statement that has just opened. */
  method RunPhases(targets: seq<Target>, width: nat, uuids: seq<string>, store: Container, backend: Backend,
                   ghost sys: Sys, ghost id: nat)
    returns (r: Result<()>, ghost out: Sys)
    requires |targets| <= |uuids| && InStep(store, backend, sys, id) && Scanned(sys.history, targets)
    requires sys.stmts[id] == Start(sys.stmts[id].backend, sys.stmts[id].serial, targets)
    modifies store, backend
    ensures InStep(store, backend, out, id)
    ensures SamePlan(out.stmts[id], sys.stmts[id]) && OnlyMoved(sys, out, id)
    ensures if r.Success? then out.stmts[id].phase.Done? else out.stmts[id].phase.Failed?
    ensures Faults(store.script) <= Faults(old(store.script))
    ensures r.Failure? && Faults(store.script) == Faults(old(store.script)) ==> Blocked(store.blobs, out.stmts[id], width, uuids)
    ensures r.Success? && Faults(store.script) == Faults(old(store.script)) ==> NothingStaged(out.history, id)
    ensures old(store.script) == [] && Undisturbed(old(store.blobs), targets, uuids, width) ==>
              r.Success? && store.script == [] && Outcome(old(store.blobs), store.blobs, |sys.history|, targets)
  {
    hide Live, Reachable, EditRows, StageLog, Undisturbed, OnlyMoved, CleanedTo, InFlightStaged, NothingStaged;
    ghost var h, was := sys.history, store.blobs;
    ghost var all := StagedAll(h, targets, uuids);
    ghost var calm := store.script == [] && Undisturbed(was, targets, uuids, width);
    assert InFlightStaged(sys.stmts[id]) by {
      NoneInFlight(sys.stmts[id]);
    }
    var items, at := StageAll(targets, width, uuids, store, backend, sys, id, all);
    if items.Failure? {
      return Failure(items.error), at;
    }
    assert all[..|targets|] == all;
    ghost var begun := Moved(at, at.history, id, BeginSwaps);
    MovedReachable(at, at.history, id, BeginSwaps);
    OnlyMovedTrans(sys, at, begun, id);
    ghost var mid := store.history;
    if calm {
      CalmIsSwappable(store.blobs, mid, was, h, id, targets, uuids, width, all);
      assert mid == mid + SwapLog(id, targets, all, 0);
    }
    StagedIsCleaned(begun.history, id, at.stmts[id], begun.stmts[id]);
    r, out := SwapAll(items.value, store, backend, begun, id);
    if r.Success? && Faults(store.script) == Faults(old(store.script)) {
      DoneIsClean(out, id);
    }
    OnlyMovedTrans(sys, begun, out, id);
    if calm {
      CalmOutcome(was, h, store.blobs, store.history, id, targets, uuids, width, all);
    }
  }

  /** The commit begins in an idle backend, and its statement is new. */
  lemma Begins(sys: Sys, id: nat, targets: seq<Target>, b: nat)
    requires Reachable(sys) && Idle(sys, b) && id !in sys.stmts && forall i | 0 <= i < |targets| :: Published(sys.history, targets[i])
    ensures var begun := Apply(sys, Open(id, targets, b));
            && Reachable(begun) && begun == sys.(stmts := sys.stmts[id := Start(b, SerialOf(sys, b), targets)])
  {
    hide Reachable, Published;
    ReachableStep(sys, Open(id, targets, b));
  }

  /** When its statement ends, the backend is idle again, under the same slot. */
  lemma EndsIdle(sys: Sys, start: Stmt, out: Sys, id: nat, b: nat)
    requires Idle(sys, b) && id !in sys.stmts && OnlyMoved(sys.(stmts := sys.stmts[id := start]), out, id) && !out.stmts[id].Running()
    ensures Idle(out, b) && out.sweeps == sys.sweeps && SerialOf(out, b) == SerialOf(sys, b)
  {
  }

  /**
   `commit_plan`. In every environment it is a run of one protocol statement, so everything proved of
   reachable states holds of it. In an undisturbed one it succeeds and the store is the planned rewrite.
   */
  method CommitPlan(plan: ModifyPlan, uuids: seq<string>, store: Container, backend: Backend, ghost sys: Sys, ghost id: nat, ghost b: nat)
    returns (r: Result<()>, ghost out: Sys, ghost keys: seq<nat>, ghost targets: seq<Target>)
    requires plan.Valid() && |plan.edits.Keys| <= |uuids|
    requires InSync(store, backend, sys, b) && Idle(sys, b) && id !in sys.stmts
    requires forall k | k in plan.edits ::
               && Published(store.history, TargetAt(plan.table, plan.edits, k))
               && Numbered(store.history, TargetAt(plan.table, plan.edits, k))
    modifies store, backend
    ensures TargetsInKeyOrder(plan.table, plan.edits, keys, targets) && |targets| <= |uuids|
    ensures InStep(store, backend, out, id) && out.stmts[id].targets == targets && out.stmts[id].backend == b
    ensures Idle(out, b) && out.sweeps == sys.sweeps && SerialOf(out, b) == SerialOf(sys, b) == out.stmts[id].serial
    ensures if r.Success? then out.stmts[id].phase.Done? else out.stmts[id].phase.Failed?
    ensures Faults(store.script) <= Faults(old(store.script))
    ensures r.Failure? && Faults(store.script) == Faults(old(store.script)) ==> Blocked(store.blobs, out.stmts[id], plan.width, uuids)
    ensures r.Success? && Faults(store.script) == Faults(old(store.script)) ==> NothingStaged(out.history, id)
    ensures old(store.script) == [] && Undisturbed(old(store.blobs), targets, uuids, plan.width) ==>
              r.Success? && store.script == [] && Outcome(old(store.blobs), store.blobs, |old(store.history)|, targets)
  {
    hide Live, Reachable, Mirrors, EditRows, Undisturbed, Outcome, Published, Numbered, OnlyMoved, Idle, Apply, Blocked, NothingStaged;
    var sorted := AscendingIn(plan.edits.Keys, 0, |plan.table|);
    AscendingSize(sorted, plan.edits.Keys);
    var ts := seq(|sorted|, i requires 0 <= i < |sorted| && sorted[i] in plan.edits && sorted[i] < |plan.table| reads plan =>
                    TargetAt(plan.table, plan.edits, sorted[i]));
    keys, targets := sorted, ts;
    Begins(sys, id, ts, b);
    ghost var begun := Apply(sys, Open(id, ts, b));
    r, out := RunPhases(ts, plan.width, uuids, store, backend, begun, id);
    EndsIdle(sys, begun.stmts[id], out, id, b);
  }
}
