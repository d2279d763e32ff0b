/** The transaction callback (src/fdw/modify/coordinator.rs): on abort, sweep the staging names in the slot. */
module Xact {
  import opened Wrappers
  import opened Names
  import opened Protocol
  import opened Safety
  import opened Staging
  import opened Store
  import opened Coordinator
  import opened Commit

  datatype XactEvent = CommitXact | AbortXact | ParallelCommit | ParallelAbort | OtherEvent {
    predicate IsAbort() { AbortXact? || ParallelAbort? }
    predicate IsCommit() { CommitXact? || ParallelCommit? }
  }

  /** The store is in a reachable state in which backend `b` is sweeping. */
  ghost predicate Sweeping(store: Container, sys: Sys, b: nat)
    reads store
  {
    store.Valid() && Reachable(sys) && sys.history == store.history && b in sys.sweeps
  }

  /** Everything but the history and backend `b`'s sweep is as it was. */
  ghost predicate OnlySwept(sys: Sys, out: Sys, b: nat) {
    && out.stmts == sys.stmts && out.slots == sys.slots && out.nextSerial == sys.nextSerial
    && b in sys.sweeps && b in out.sweeps && out.sweeps == sys.sweeps[b := out.sweeps[b]]
    && out.sweeps[b].serial == sys.sweeps[b].serial
  }

  /** Deletes one staging name; a failure is only a warning. */
  method SweepOne(n: Name, store: Container, ghost sys: Sys, ghost b: nat) returns (r: Result<()>, ghost out: Sys)
    requires Sweeping(store, sys, b) && n in sys.sweeps[b].names
    modifies store
    ensures Sweeping(store, out, b) && OnlySwept(sys, out, b)
    ensures out.sweeps[b].names == sys.sweeps[b].names - {n}
    ensures out.sweeps[b].warned <= sys.sweeps[b].warned + if r.Success? then {} else {n}
    ensures Faults(old(store.script)) == Faults(store.script) + if r.Success? then 0 else 1
    ensures old(store.script) == [] ==> store.script == [] && r.Success?
  {
    hide Live, Reachable, Mirrors;
    var deleted, mid := store.DeleteUnconditional(n, Sweeper(b));
    OutsideReachable(sys, mid);
    ghost var at := sys.(history := mid);
    ghost var a := SweepName(b, n, deleted.Success? || store.history != mid);
    ReachableStep(at, a);
    out := Apply(at, a);
    r := deleted;
  }

  /** The sweep loop over the pending names, in any order: every name is requested, and a failed request is one warning. */
  method SweepAll(pending: set<Name>, store: Container, ghost sys: Sys, ghost b: nat)
    returns (warned: set<Name>, ghost out: Sys)
    requires Sweeping(store, sys, b) && sys.sweeps[b].names == pending && sys.sweeps[b].warned == {}
    modifies store
    ensures Sweeping(store, out, b) && OnlySwept(sys, out, b)
    ensures out.sweeps[b].names == {} && out.sweeps[b].warned <= warned <= pending
    ensures Faults(old(store.script)) == Faults(store.script) + |warned|
    ensures old(store.script) == [] ==> warned == {}
  {
    hide Live, Reachable, Mirrors;
    var todo := pending;
    warned := {};
    out := sys;
    while todo != {}
      invariant Sweeping(store, out, b) && OnlySwept(sys, out, b)
      invariant out.sweeps[b].names == todo && out.sweeps[b].warned <= warned <= pending - todo && todo <= pending
      invariant Faults(old(store.script)) == Faults(store.script) + |warned|
      invariant old(store.script) == [] ==> store.script == [] && warned == {}
      decreases todo
    {
      var n :| n in todo;
      var r, next := SweepOne(n, store, out, b);
      if r.Failure? {
        warned := warned + {n};
      }
      todo := todo - {n};
      out := next;
    }
  }

  /**
   Takes the slot at the end of a transaction, whoever filled it. On abort it deletes every name in it; if no
   delete fails, no statement whose slot this was has a staging blob of an unswapped target left.
   */
  method XactCallback(event: XactEvent, store: Container, backend: Backend, ghost sys: Sys, ghost b: nat)
    returns (warned: set<Name>, ghost out: Sys)
    requires InSync(store, backend, sys, b) && Idle(sys, b)
    modifies store, backend
    ensures InSync(store, backend, out, b) && Idle(out, b) && out.stmts == sys.stmts
    ensures event in {CommitXact, AbortXact, ParallelCommit, ParallelAbort} ==> backend.active == None
    ensures event == OtherEvent ==> unchanged(backend) && out == sys
    ensures event in {CommitXact, ParallelCommit, OtherEvent} || old(backend.active).None? ==> unchanged(store) && warned == {}
    ensures Faults(old(store.script)) == Faults(store.script) + |warned|
    ensures old(backend.active).Some? ==> warned <= old(backend.active).value
    ensures event in {AbortXact, ParallelAbort} && warned == {} ==>
              forall id | id in sys.stmts && sys.stmts[id].backend == b && Intact(sys, id) :: OnlySwappedLeft(out, id)
    ensures old(store.script) == [] ==> warned == {}
  {
    hide Live, Reachable, Mirrors, OnlySwappedLeft;
    warned, out := {}, sys;
    if !event.IsAbort() && !event.IsCommit() {
      return;
    }
    var active := backend.active;
    backend.active := None;
    ghost var a := if event.IsAbort() then AbortEvent(b) else CommitEvent(b);
    ReachableStep(sys, a);
    out := Apply(sys, a);
    if active.None? || !event.IsAbort() {
      return;
    }
    ghost var taken := out;
    warned, out := SweepAll(active.value, store, taken, b);
    if warned == {} {
      forall id | id in sys.stmts && sys.stmts[id].backend == b && Intact(sys, id) ensures OnlySwappedLeft(out, id) {
        FinishedSweepLeaves(out, id);
      }
    }
  }
}
