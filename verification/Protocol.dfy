/**
 The copy-on-write commit protocol of UPDATE and DELETE as a state machine: any number of
 statements, outside writers that put or remove any blob at any time, requests whose reply is lost,
 and statements that fail at any step (src/fdw/modify/update.rs, src/azure/mod.rs,
 src/fdw/modify/coordinator.rs).

 The store is its history. Every put gets a fresh etag, here its index in the history, so etags are
 never reused. Conditional requests follow sections 13.1.1 (If-Match) and 13.1.2 (If-None-Match) of
 RFC 9110.
 */
module Protocol {
  import opened Wrappers
  import opened Rows
  import opened Names

  /** One blob a statement rewrites: its name, the etag its scan published, and the edits. */
  datatype Target = Target(name: Name, etag: Etag, edits: BlobEdits)

  datatype Author =
    | Outsider
    | Stager(id: nat)
    | Swapper(id: nat, target: Target)
    | Cleaner(id: nat)
    | Sweeper(backend: nat)
  {
    /** Statement `i` itself is the author. */
    predicate IsStmt(i: nat) {
      (Stager? || Swapper? || Cleaner?) && id == i
    }
  }

  datatype Event =
    | Put(name: Name, rows: seq<Row>, author: Author)
    | Remove(name: Name, author: Author)

  type History = seq<Event>

  /** The etag of the current version of a blob, if it exists. */
  ghost function Live(h: History, n: Name): Option<Etag> {
    if h == [] then None
    else
      var last := |h| - 1;
      if h[last].name != n then Live(h[..last], n)
      else if h[last].Put? then Some(last) else None
  }

  lemma LiveSnoc(h: History, e: Event, n: Name)
    ensures Live(h + [e], n) ==
            if e.name != n then Live(h, n) else if e.Put? then Some(|h|) else None
  {
    assert (h + [e])[..|h|] == h;
  }

  /** An etag names a put of that blob, and nothing has touched the blob since. */
  lemma {:induction false} LiveMeans(h: History, n: Name)
    ensures Live(h, n).Some? ==>
              var e := Live(h, n).value;
              && e < |h| && h[e].Put? && h[e].name == n
              && forall i | e < i < |h| :: h[i].name != n
    ensures Live(h, n).None? ==> forall i | 0 <= i < |h| && h[i].name == n && h[i].Put? ::
              exists j | i < j < |h| :: h[j].name == n && h[j].Remove?
  {
    if h != [] {
      var last := |h| - 1;
      LiveMeans(h[..last], n);
      if Live(h, n).None? {
        forall i | 0 <= i < |h| && h[i].name == n && h[i].Put?
          ensures exists j | i < j < |h| :: h[j].name == n && h[j].Remove?
        {
          if h[last].name == n {
            assert h[last].Remove?;
          } else {
            assert h[..last][i] == h[i];
            var j :| i < j < last && h[..last][j].name == n && h[..last][j].Remove?;
            assert h[j].Remove?;
          }
        }
      }
    }
  }

  /** A version that is live now and existed earlier was live then. */
  lemma {:induction false} LiveEarlier(h: History, now: History, n: Name, e: Etag)
    requires h <= now && e < |h|
    ensures Live(now, n) == Some(e) ==> Live(h, n) == Some(e)
    decreases |now|
  {
    if |now| == |h| {
      assert now == h;
    } else {
      LiveEarlier(h, now[..|now| - 1], n, e);
    }
  }

  /** The rewrite of the version a target names. */
  ghost function Rewritten(h: History, t: Target): seq<Row> {
    if t.etag < |h| && h[t.etag].Put? then EditRows(h[t.etag].rows, 0, t.edits) else []
  }

  /** The target's etag was issued for the target's blob. */
  ghost predicate Published(h: History, t: Target) {
    t.etag < |h| && h[t.etag].Put? && h[t.etag].name == t.name
  }

  // ---------- statements ----------------------------------------------------

  /** What a statement holds in memory for one blob between the two phases. */
  datatype Staged = Staged(staging: Name, rows: seq<Row>)

  datatype Phase =
    | Fetching                                // phase 1: about to GET the next target
    | Fetched(rows: seq<Row>)                 // rewritten, not yet staged
    | Registered(staging: Name, rows: seq<Row>)
    | Swapping(k: nat)                        // phase 2: about to swap target k
    | Cleaning(k: nat)                        // target k swapped, its staging blob not yet deleted
    | Marking(k: nat)                         // about to clear the staging name of target k
    | Done
    | Failed(swapped: nat)                    // raised an error with this many targets swapped

  /**
   `serial` names the coordinator slot that was in place in the statement's backend when its commit began,
   if there was one. `inFlight` are the staging names it has registered and not yet marked committed,
   whether or not a slot took note of them.
   */
  datatype Stmt = Stmt(backend: nat, serial: Option<nat>, targets: seq<Target>, phase: Phase, staged: seq<Staged>,
                       inFlight: set<Name>) {
    /** Targets swapped so far. */
    function Swapped(): nat {
      match phase
      case Swapping(k) => k
      case Cleaning(k) => k + 1
      case Marking(k) => k + 1
      case Done => |targets|
      case Failed(k) => k
      case _ => 0
    }

    predicate Running() {
      !phase.Done? && !phase.Failed?
    }
  }

  function Start(backend: nat, serial: Option<nat>, targets: seq<Target>): Stmt {
    Stmt(backend, serial, targets, Fetching, [], {})
  }

  /** The steps of a statement. A request whose reply is lost takes effect and fails the statement. */
  datatype Move =
    | Fetch
    | Register(uuid: string)
    | PutStaging(lost: bool)
    | BeginSwaps
    | Swap(lost: bool)
    | DeleteStaging(applied: bool)
    | MarkCommitted
    | Finish
    | Fail

  ghost predicate Enabled(h: History, s: Stmt, m: Move) {
    match m
    case Fetch =>
      && s.phase.Fetching? && |s.staged| < |s.targets|
      && Live(h, s.targets[|s.staged|].name) == Some(s.targets[|s.staged|].etag)
    case Register(_) => s.phase.Fetched? && |s.staged| < |s.targets|
    case PutStaging(_) => s.phase.Registered? && Live(h, s.phase.staging).None?
    case BeginSwaps => s.phase.Fetching? && |s.staged| == |s.targets|
    case Swap(_) =>
      && s.phase.Swapping? && s.phase.k < |s.targets| && |s.staged| == |s.targets|
      && Live(h, s.targets[s.phase.k].name) == Some(s.targets[s.phase.k].etag)
    case DeleteStaging(_) => s.phase.Cleaning? && s.phase.k < |s.staged|
    case MarkCommitted => s.phase.Marking? && s.phase.k < |s.staged|
    case Finish => s.phase.Swapping? && s.phase.k == |s.targets|
    case Fail => s.Running()
  }

  /** The events a step adds to the store. */
  ghost function Effect(h: History, id: nat, s: Stmt, m: Move): History
    requires Enabled(h, s, m)
  {
    match m
    case PutStaging(_) => [Put(s.phase.staging, s.phase.rows, Stager(id))]
    case Swap(_) =>
      var t := s.targets[s.phase.k];
      [if s.staged[s.phase.k].rows == [] then Remove(t.name, Swapper(id, t))
       else Put(t.name, s.staged[s.phase.k].rows, Swapper(id, t))]
    case DeleteStaging(applied) =>
      var n := s.staged[s.phase.k].staging;
      if applied && Live(h, n).Some? then [Remove(n, Cleaner(id))] else []
    case _ => []
  }

  ghost function After(h: History, s: Stmt, m: Move): Stmt
    requires Enabled(h, s, m)
  {
    match m
    case Fetch =>
      var rows := Rewritten(h, s.targets[|s.staged|]);
      if rows == [] then s.(staged := s.staged + [Staged("", [])]) else s.(phase := Fetched(rows))
    case Register(uuid) =>
      var n := MakeStagingName(s.targets[|s.staged|].name, uuid);
      s.(phase := Registered(n, s.phase.rows), inFlight := s.inFlight + {n})
    case PutStaging(lost) =>
      if lost then s.(phase := Failed(0))
      else s.(phase := Fetching, staged := s.staged + [Staged(s.phase.staging, s.phase.rows)])
    case BeginSwaps => s.(phase := Swapping(0))
    case Swap(lost) =>
      var k := s.phase.k;
      s.(phase := if lost then Failed(k + 1) else if s.staged[k].rows == [] then Swapping(k + 1) else Cleaning(k))
    case DeleteStaging(_) => s.(phase := Marking(s.phase.k))
    case MarkCommitted =>
      s.(phase := Swapping(s.phase.k + 1), inFlight := s.inFlight - {s.staged[s.phase.k].staging})
    case Finish => s.(phase := Done)
    case Fail => s.(phase := Failed(s.Swapped()))
  }

  // ---------- the coordinator's slot ------------------------------------------

  /** A backend's slot. Every opening gets a fresh serial number. */
  datatype Slot = Slot(serial: nat, names: set<Name>)

  /** A slot taken by an abort: the names still to delete, and those whose delete failed. */
  datatype Pending = Pending(serial: nat, names: set<Name>, warned: set<Name>)

  /** What a statement's step does to its backend's slot; without a slot, nothing. */
  ghost function SlotsAfter(slots: map<nat, Slot>, h: History, s: Stmt, m: Move): map<nat, Slot>
    requires Enabled(h, s, m)
  {
    if s.backend !in slots then slots
    else
      var slot := slots[s.backend];
      match m
      case Register(uuid) =>
        slots[s.backend := slot.(names := slot.names + {MakeStagingName(s.targets[|s.staged|].name, uuid)})]
      case MarkCommitted => slots[s.backend := slot.(names := slot.names - {s.staged[s.phase.k].staging})]
      case _ => slots
  }

  // ---------- the whole system ----------------------------------------------

  datatype Sys = Sys(history: History, stmts: map<nat, Stmt>, slots: map<nat, Slot>, sweeps: map<nat, Pending>, nextSerial: nat)

  /**
   What can happen. A backend's coordinator calls and transaction events come between its commits, never
   within one: `OpenSlot` and `CloseSlot` are the ends of a modify node, `CommitEvent` and `AbortEvent` the
   transaction callback. No callback is installed for a rollback to a savepoint.
   */
  datatype Action =
    | OutsidePut(name: Name, rows: seq<Row>)
    | OutsideRemove(name: Name)
    | OpenSlot(backend: nat)
    | CloseSlot(backend: nat)
    | CommitEvent(backend: nat)
    | AbortEvent(backend: nat)
    | SavepointRollback(backend: nat)
    | SweepName(backend: nat, name: Name, applied: bool)
    | Open(id: nat, targets: seq<Target>, backend: nat)
    | Step(id: nat, move: Move)

  /** The backend is neither committing nor sweeping. */
  ghost predicate Idle(s: Sys, b: nat) {
    && (forall id | id in s.stmts && s.stmts[id].backend == b :: !s.stmts[id].Running())
    && (b in s.sweeps ==> s.sweeps[b].names == {})
  }

  ghost predicate Legal(s: Sys, a: Action) {
    match a
    case OutsidePut(_, _) => true
    case OutsideRemove(_) => true
    case OpenSlot(b) => Idle(s, b)
    case CloseSlot(b) => Idle(s, b)
    case CommitEvent(b) => Idle(s, b)
    case AbortEvent(b) => Idle(s, b)
    case SavepointRollback(b) => Idle(s, b)
    case SweepName(b, n, _) => b in s.sweeps && n in s.sweeps[b].names
    case Open(id, targets, b) =>
      id !in s.stmts && Idle(s, b) && forall i | 0 <= i < |targets| :: Published(s.history, targets[i])
    case Step(id, m) => id in s.stmts && Enabled(s.history, s.stmts[id], m)
  }

  ghost function SerialOf(s: Sys, b: nat): Option<nat> {
    if b in s.slots then Some(s.slots[b].serial) else None
  }

  ghost function Apply(s: Sys, a: Action): Sys
    requires Legal(s, a)
  {
    match a
    case OutsidePut(n, rows) => s.(history := s.history + [Put(n, rows, Outsider)])
    case OutsideRemove(n) => s.(history := s.history + [Remove(n, Outsider)])
    case OpenSlot(b) => s.(slots := s.slots[b := Slot(s.nextSerial, {})], nextSerial := s.nextSerial + 1)
    case CloseSlot(b) => s.(slots := s.slots - {b})
    case CommitEvent(b) => s.(slots := s.slots - {b})
    case AbortEvent(b) =>
      if b !in s.slots then s
      else s.(slots := s.slots - {b}, sweeps := s.sweeps[b := Pending(s.slots[b].serial, s.slots[b].names, {})])
    case SavepointRollback(_) => s
    case SweepName(b, n, applied) =>
      var p := s.sweeps[b];
      s.(history := s.history + if applied && Live(s.history, n).Some? then [Remove(n, Sweeper(b))] else [],
         sweeps := s.sweeps[b := p.(names := p.names - {n}, warned := if applied then p.warned else p.warned + {n})])
    case Open(id, targets, b) => s.(stmts := s.stmts[id := Start(b, SerialOf(s, b), targets)])
    case Step(id, m) =>
      var was := s.stmts[id];
      s.(history := s.history + Effect(s.history, id, was, m), stmts := s.stmts[id := After(s.history, was, m)],
         slots := SlotsAfter(s.slots, s.history, was, m))
  }

  /** The state after a run of actions, each legal where it is taken; `None` for anything else. */
  ghost function Run(s: Sys, acts: seq<Action>): Option<Sys> {
    if acts == [] then Some(s)
    else
      var before := Run(s, acts[..|acts| - 1]);
      if before.None? || !Legal(before.value, acts[|acts| - 1]) then None
      else Some(Apply(before.value, acts[|acts| - 1]))
  }

  /** A store holding only what outside writers put there, and no statement and no slot yet. */
  ghost predicate Initial(s: Sys) {
    s.stmts == map[] && s.slots == map[] && s.sweeps == map[] && forall i | 0 <= i < |s.history| :: s.history[i].author == Outsider
  }

  ghost predicate Reachable(s: Sys) {
    exists init: Sys, acts: seq<Action> :: Initial(init) && Run(init, acts) == Some(s)
  }
}
