/**
 What the commit protocol keeps in every interleaving: no lost update, swaps in target order, nothing
 visible but whole versions, and every staging blob accounted for.
 */
module Safety {
  import opened Wrappers
  import opened Rows
  import opened Names
  import opened Protocol

  // ---------- the invariant -------------------------------------------------

  /** An event `e` that is in order right after history `h`. */
  ghost predicate GoodEvent(h: History, e: Event) {
    match e.author
    case Outsider => true
    case Stager(_) => e.Put? && IsStagingName(e.name)
    case Cleaner(_) => e.Remove? && IsStagingName(e.name)
    case Sweeper(_) => e.Remove? && IsStagingName(e.name)
    case Swapper(_, t) =>
      && e.name == t.name && Published(h, t) && Live(h, t.name) == Some(t.etag)
      && if e.Put? then e.rows == Rewritten(h, t) && e.rows != [] else Rewritten(h, t) == []
  }

  ghost predicate GoodHistory(h: History) {
    h == [] || (GoodHistory(h[..|h| - 1]) && GoodEvent(h[..|h| - 1], h[|h| - 1]))
  }

  /** The targets statement `id` has swapped, in the order it swapped them. */
  ghost function SwapsBy(h: History, id: nat): seq<Target> {
    if h == [] then []
    else
      var e := h[|h| - 1];
      SwapsBy(h[..|h| - 1], id) + if e.author.Swapper? && e.author.id == id then [e.author.target] else []
  }

  /** Blob `n` exists and statement `id` created it as a staging blob. */
  ghost predicate StagedLive(h: History, id: nat, n: Name) {
    Live(h, n).Some? && Live(h, n).value < |h| && h[Live(h, n).value].author == Stager(id)
  }

  /** `n` is the staging name of a target already swapped. */
  ghost predicate OfSwapped(s: Stmt, n: Name) {
    exists j | 0 <= j < |s.staged| && j < s.Swapped() :: s.staged[j].staging == n
  }

  /** Where an existing staging blob of a statement can be. */
  ghost predicate Accounted(s: Stmt, n: Name) {
    n in s.inFlight || OfSwapped(s, n)
  }

  ghost predicate PhaseOk(h: History, s: Stmt) {
    match s.phase
    case Fetching => true
    case Fetched(rows) => |s.staged| < |s.targets| && rows == Rewritten(h, s.targets[|s.staged|]) && rows != []
    case Registered(n, rows) =>
      && |s.staged| < |s.targets| && rows == Rewritten(h, s.targets[|s.staged|]) && rows != []
      && IsStagingName(n) && n in s.inFlight
    case Swapping(k) => |s.staged| == |s.targets| && k <= |s.targets|
    case Cleaning(k) => |s.staged| == |s.targets| && k < |s.targets| && s.staged[k].rows != []
    case Marking(k) => |s.staged| == |s.targets| && k < |s.targets| && s.staged[k].rows != []
    case Done => |s.staged| == |s.targets|
    case Failed(k) => k <= |s.targets| && (k > 0 ==> |s.staged| == |s.targets|)
  }

  /** What statement `id` holds is what it read, edited; and the store knows what it did. */
  ghost predicate StmtOk(h: History, id: nat, s: Stmt) {
    && (forall i | 0 <= i < |s.targets| :: Published(h, s.targets[i]))
    && |s.staged| <= |s.targets|
    && (forall i | 0 <= i < |s.staged| ::
          && s.staged[i].rows == Rewritten(h, s.targets[i])
          && (if s.staged[i].rows == [] then s.staged[i].staging == "" else IsStagingName(s.staged[i].staging)))
    && PhaseOk(h, s)
    && s.Swapped() <= |s.targets| && SwapsBy(h, id) == s.targets[..s.Swapped()]
    && (forall n | n in s.inFlight :: IsStagingName(n))
    && (forall n | StagedLive(h, id, n) :: Accounted(s, n))
  }

  ghost predicate AuthorsKnown(s: Sys) {
    forall i | 0 <= i < |s.history| ::
      s.history[i].author.Outsider? || s.history[i].author.Sweeper? || s.history[i].author.id in s.stmts
  }

  /** Slots and sweeps hold staging names only. */
  ghost predicate SlotNames(s: Sys) {
    && (forall b, n | b in s.slots && n in s.slots[b].names :: IsStagingName(n))
    && (forall b, n | b in s.sweeps && n in s.sweeps[b].names :: IsStagingName(n))
  }

  ghost predicate Inv(s: Sys) {
    && GoodHistory(s.history)
    && AuthorsKnown(s) && SlotNames(s)
    && forall id | id in s.stmts :: StmtOk(s.history, id, s.stmts[id])
  }

  // ---------- one more event ------------------------------------------------

  lemma GoodSnoc(h: History, e: Event)
    requires GoodHistory(h) && GoodEvent(h, e)
    ensures GoodHistory(h + [e])
  {
    assert (h + [e])[..|h|] == h;
  }

  lemma SwapsBySnoc(h: History, e: Event, id: nat)
    ensures SwapsBy(h + [e], id) ==
            SwapsBy(h, id) + if e.author.Swapper? && e.author.id == id then [e.author.target] else []
  {
    assert (h + [e])[..|h|] == h;
  }

  /** A staging blob of `id` that exists after an event existed before it, or is that event's. */
  lemma StagedLiveSnoc(h: History, e: Event, id: nat, n: Name)
    ensures StagedLive(h + [e], id, n) ==>
              (n != e.name && StagedLive(h, id, n)) || (n == e.name && e.Put? && e.author == Stager(id))
  {
    LiveSnoc(h, e, n);
    LiveMeans(h, n);
  }

  /** Others' events, and its own clean-ups, do not disturb a statement. */
  lemma StmtOkSnoc(h: History, e: Event, id: nat, s: Stmt)
    requires StmtOk(h, id, s)
    requires !e.author.IsStmt(id) || (e.Remove? && e.author.Cleaner?)
    ensures StmtOk(h + [e], id, s)
  {
    SwapsBySnoc(h, e, id);
    forall n | StagedLive(h + [e], id, n) ensures StagedLive(h, id, n) {
      StagedLiveSnoc(h, e, id, n);
    }
  }

  lemma {:induction false} UnknownDidNothing(h: History, id: nat)
    requires forall i | 0 <= i < |h| :: !h[i].author.IsStmt(id)
    ensures SwapsBy(h, id) == []
    ensures forall n :: !StagedLive(h, id, n)
  {
    if h != [] {
      UnknownDidNothing(h[..|h| - 1], id);
    }
    forall n | Live(h, n).Some? ensures !StagedLive(h, id, n) {
      LiveMeans(h, n);
    }
  }

  // ---------- one step ------------------------------------------------------

  /** Steps that only change what the statement remembers. */
  lemma QuietStep(h: History, id: nat, s: Stmt, m: Move)
    requires StmtOk(h, id, s) && Enabled(h, s, m)
    requires m.Fetch? || m.Register? || m.BeginSwaps? || m.Finish? || m.Fail?
    ensures StmtOk(h, id, After(h, s, m))
  {
    hide Live, SwapsBy, EditRows;
    var t := After(h, s, m);
    assert s.Swapped() == t.Swapped();
    forall n | StagedLive(h, id, n) ensures Accounted(t, n) {
      assert Accounted(s, n);
      KeepsSwapped(s, t, n);
    }
  }

  lemma MarkStep(h: History, id: nat, s: Stmt)
    requires StmtOk(h, id, s) && Enabled(h, s, MarkCommitted)
    ensures StmtOk(h, id, After(h, s, MarkCommitted))
  {
    hide Live, SwapsBy, EditRows;
    var t := After(h, s, MarkCommitted);
    forall n | StagedLive(h, id, n) ensures Accounted(t, n) {
      if n == s.staged[s.phase.k].staging {
        assert OfSwapped(t, n);
      } else {
        assert Accounted(s, n);
      }
    }
  }

  lemma PutStagingStep(h: History, id: nat, s: Stmt, lost: bool)
    requires GoodHistory(h) && StmtOk(h, id, s) && Enabled(h, s, PutStaging(lost))
    ensures var h' := h + Effect(h, id, s, PutStaging(lost));
            GoodHistory(h') && StmtOk(h', id, After(h, s, PutStaging(lost)))
  {
    hide Live, SwapsBy, GoodHistory, EditRows, MakeStagingName, IsStagingName;
    var e := Put(s.phase.staging, s.phase.rows, Stager(id));
    var t := After(h, s, PutStaging(lost));
    GoodSnoc(h, e);
    SwapsBySnoc(h, e, id);
    forall n | StagedLive(h + [e], id, n) ensures Accounted(t, n) {
      StagedLiveSnoc(h, e, id, n);
      if n != e.name {
        assert Accounted(s, n);
      }
    }
  }

  lemma SwapStep(h: History, id: nat, s: Stmt, lost: bool)
    requires GoodHistory(h) && StmtOk(h, id, s) && Enabled(h, s, Swap(lost))
    ensures var h' := h + Effect(h, id, s, Swap(lost));
            GoodHistory(h') && StmtOk(h', id, After(h, s, Swap(lost)))
  {
    hide Live, SwapsBy, GoodHistory, EditRows, MakeStagingName, IsStagingName;
    var k := s.phase.k;
    var target := s.targets[k];
    var e := Effect(h, id, s, Swap(lost))[0];
    var t := After(h, s, Swap(lost));
    GoodSnoc(h, e);
    SwapsBySnoc(h, e, id);
    assert s.targets[..k + 1] == s.targets[..k] + [target];
    forall n | StagedLive(h + [e], id, n) ensures Accounted(t, n) {
      StagedLiveSnoc(h, e, id, n);
      assert Accounted(s, n);
      KeepsSwapped(s, t, n);
    }
  }

  /** Deleting the staging blob of a swapped target, or failing to. */
  lemma DeleteStep(h: History, id: nat, s: Stmt, m: Move)
    requires GoodHistory(h) && StmtOk(h, id, s) && Enabled(h, s, m) && m.DeleteStaging?
    ensures var h' := h + Effect(h, id, s, m);
            GoodHistory(h') && StmtOk(h', id, After(h, s, m))
  {
    hide Live, SwapsBy, GoodHistory, EditRows, IsStagingName;
    var e := Remove(s.staged[s.phase.k].staging, Cleaner(id));
    var h', t := h + Effect(h, id, s, m), After(h, s, m);
    if Effect(h, id, s, m) == [] {
      assert h + [] == h;
    } else {
      GoodSnoc(h, e);
      StmtOkSnoc(h, e, id, s);
    }
    forall x | StagedLive(h', id, x) ensures Accounted(t, x) {
      assert Accounted(s, x);
      KeepsSwapped(s, t, x);
    }
  }

  lemma KeepsSwapped(s: Stmt, t: Stmt, n: Name)
    requires s.staged <= t.staged && s.Swapped() <= t.Swapped()
    ensures OfSwapped(s, n) ==> OfSwapped(t, n)
  {
    if OfSwapped(s, n) {
      var j :| 0 <= j < |s.staged| && j < s.Swapped() && s.staged[j].staging == n;
      assert t.staged[j].staging == n;
    }
  }

  lemma StepKeeps(h: History, id: nat, s: Stmt, m: Move)
    requires GoodHistory(h) && StmtOk(h, id, s) && Enabled(h, s, m)
    ensures GoodHistory(h + Effect(h, id, s, m))
    ensures StmtOk(h + Effect(h, id, s, m), id, After(h, s, m))
  {
    match m {
      case PutStaging(lost) => PutStagingStep(h, id, s, lost);
      case Swap(lost) => SwapStep(h, id, s, lost);
      case DeleteStaging(_) => DeleteStep(h, id, s, m);
      case MarkCommitted => MarkStep(h, id, s); assert h + [] == h;
      case _ => QuietStep(h, id, s, m); assert h + [] == h;
    }
  }

  /** At most one event per step, and it is the statement's own. */
  lemma EffectShape(h: History, id: nat, s: Stmt, m: Move)
    requires Enabled(h, s, m)
    ensures var es := Effect(h, id, s, m);
            es == [] || (|es| == 1 && es[0].author.IsStmt(id))
  {
  }

  /** A statement's step keeps slots to staging names. */
  lemma StepSlotNames(s: Sys, id: nat, m: Move)
    requires SlotNames(s) && Legal(s, Step(id, m))
    ensures SlotNames(Apply(s, Step(id, m)))
  {
    hide IsStagingName, Live, Effect, After;
    var t := Apply(s, Step(id, m));
    forall b, n | b in t.slots && n in t.slots[b].names ensures IsStagingName(n) {
      if b != s.stmts[id].backend || n !in s.slots[b].names {
        assert b == s.stmts[id].backend ==> m.Register?;
      }
    }
  }

  /** Every action keeps the invariant. */
  lemma ActionKeeps(s: Sys, a: Action)
    requires Inv(s) && Legal(s, a)
    ensures Inv(Apply(s, a))
  {
    hide GoodHistory, Live, Effect, After, SlotsAfter, PhaseOk, StmtOk, IsStagingName;
    var t := Apply(s, a);
    match a {
      case Open(id, targets, b) => OpenKeeps(s, id, targets, b);
      case Step(id, m) => StepActionKeeps(s, id, m);
      case OutsidePut(n, rows) => EventKeeps(s, Put(n, rows, Outsider));
      case OutsideRemove(n) => EventKeeps(s, Remove(n, Outsider));
      case SweepName(b, n, applied) =>
        if t.history != s.history {
          EventKeeps(s, Remove(n, Sweeper(b)));
        }
      case _ =>
    }
  }

  lemma OpenKeeps(s: Sys, id: nat, targets: seq<Target>, b: nat)
    requires Inv(s) && Legal(s, Open(id, targets, b))
    ensures Inv(Apply(s, Open(id, targets, b)))
  {
    hide GoodHistory, Live;
    var t := Apply(s, Open(id, targets, b));
    UnknownDidNothing(s.history, id);
    assert StmtOk(t.history, id, t.stmts[id]);
  }

  lemma StepActionKeeps(s: Sys, id: nat, m: Move)
    requires Inv(s) && Legal(s, Step(id, m))
    ensures Inv(Apply(s, Step(id, m)))
  {
    hide GoodHistory, Live, StmtOk, SlotNames, Enabled, Effect, After, SlotsAfter;
    var es := Effect(s.history, id, s.stmts[id], m);
    StepKeeps(s.history, id, s.stmts[id], m);
    EffectShape(s.history, id, s.stmts[id], m);
    OthersKeep(s, es, id);
    StepSlotNames(s, id, m);
    var t := Apply(s, Step(id, m));
    forall i | 0 <= i < |t.history|
      ensures t.history[i].author.Outsider? || t.history[i].author.Sweeper? || t.history[i].author.id in t.stmts
    {
      if i < |s.history| {
        assert t.history[i] == s.history[i];
      } else {
        assert t.history[i] == es[0];
      }
    }
  }

  /** An event that is no statement's own keeps the invariant. */
  lemma EventKeeps(s: Sys, e: Event)
    requires Inv(s) && GoodEvent(s.history, e) && (e.author.Outsider? || e.author.Sweeper?)
    ensures Inv(s.(history := s.history + [e]))
  {
    hide GoodHistory, Live, StmtOk;
    GoodSnoc(s.history, e);
    forall id | id in s.stmts ensures StmtOk(s.history + [e], id, s.stmts[id]) {
      StmtOkSnoc(s.history, e, id, s.stmts[id]);
    }
  }

  lemma OthersKeep(s: Sys, es: History, id: nat)
    requires Inv(s)
    requires es == [] || (|es| == 1 && es[0].author.IsStmt(id))
    ensures forall other | other in s.stmts && other != id :: StmtOk(s.history + es, other, s.stmts[other])
  {
    forall other | other in s.stmts && other != id ensures StmtOk(s.history + es, other, s.stmts[other]) {
      if es == [] {
        assert s.history + es == s.history;
      } else {
        assert es == [es[0]];
        StmtOkSnoc(s.history, es[0], other, s.stmts[other]);
      }
    }
  }

  lemma {:induction false} RunKeeps(s: Sys, acts: seq<Action>)
    requires Inv(s) && Run(s, acts).Some?
    ensures Inv(Run(s, acts).value)
  {
    if acts != [] {
      RunKeeps(s, acts[..|acts| - 1]);
      ActionKeeps(Run(s, acts[..|acts| - 1]).value, acts[|acts| - 1]);
    }
  }

  lemma {:induction false} OutsidersAreGood(h: History)
    requires forall i | 0 <= i < |h| :: h[i].author == Outsider
    ensures GoodHistory(h)
  {
    if h != [] {
      OutsidersAreGood(h[..|h| - 1]);
    }
  }

  /** The invariant holds in every reachable state. */
  lemma ReachableInv(s: Sys)
    requires Reachable(s)
    ensures Inv(s)
  {
    var init: Sys, acts: seq<Action> :| Initial(init) && Run(init, acts) == Some(s);
    OutsidersAreGood(init.history);
    RunKeeps(init, acts);
  }

  // ---------- the theorems --------------------------------------------------

  lemma {:induction false} GoodAt(h: History, k: nat)
    requires GoodHistory(h) && k < |h|
    ensures GoodEvent(h[..k], h[k])
  {
    if k < |h| - 1 {
      GoodAt(h[..|h| - 1], k);
      assert h[..|h| - 1][..k] == h[..k];
    }
  }

  lemma {:induction false} SwapIsRecorded(h: History, k: nat)
    requires k < |h| && h[k].author.Swapper?
    ensures h[k].author.target in SwapsBy(h, h[k].author.id)
  {
    if k < |h| - 1 {
      SwapIsRecorded(h[..|h| - 1], k);
    }
  }

  /**
   No lost update. In every interleaving, a swap by a statement replaces exactly the version its scan
   published: the etag names an earlier put of that blob, nothing touched the blob in between, and
   the swap leaves that version with the statement's edits applied (or removes the blob when no row
   is left).
   */
  lemma NoLostUpdate(s: Sys, k: nat)
    requires Reachable(s) && k < |s.history| && s.history[k].author.Swapper?
    ensures var e := s.history[k];
            var t := e.author.target;
            && e.author.id in s.stmts && t in s.stmts[e.author.id].targets
            && e.name == t.name
            && t.etag < k && s.history[t.etag].Put? && s.history[t.etag].name == t.name
            && (forall i | t.etag < i < k :: s.history[i].name != t.name)
            && var rows := EditRows(s.history[t.etag].rows, 0, t.edits);
               if rows == [] then e.Remove? else e.Put? && e.rows == rows
  {
    ReachableInv(s);
    var h, e := s.history, s.history[k];
    var t := e.author.target;
    GoodAt(h, k);
    LiveMeans(h[..k], t.name);
    assert h[..k][t.etag] == h[t.etag];
    forall i | t.etag < i < k ensures h[i].name != t.name {
      assert h[..k][i] == h[i];
    }
    SwapIsRecorded(h, k);
    assert StmtOk(h, e.author.id, s.stmts[e.author.id]);
  }

  /** Of all statements that scanned one version, at most one swaps it. */
  lemma OneWinner(s: Sys, j: nat, k: nat)
    requires Reachable(s) && j < |s.history| && k < |s.history|
    requires s.history[j].author.Swapper? && s.history[k].author.Swapper?
    requires s.history[j].author.target.name == s.history[k].author.target.name
    requires s.history[j].author.target.etag == s.history[k].author.target.etag
    ensures j == k
  {
    NoLostUpdate(s, j);
    NoLostUpdate(s, k);
  }

  /** Up to the end of phase 1 a statement has touched staging names only, whatever happened to it. */
  lemma PhaseOneTouchesNothing(s: Sys, id: nat)
    requires Reachable(s) && id in s.stmts && s.stmts[id].Swapped() == 0
    ensures forall i | 0 <= i < |s.history| && s.history[i].author.IsStmt(id) :: IsStagingName(s.history[i].name)
  {
    ReachableInv(s);
    var h := s.history;
    assert StmtOk(h, id, s.stmts[id]);
    forall i | 0 <= i < |h| && h[i].author.IsStmt(id) ensures IsStagingName(h[i].name) {
      GoodAt(h, i);
      if h[i].author.Swapper? {
        SwapIsRecorded(h, i);
        assert false;
      }
    }
  }

  /** The swaps a statement has made are a prefix of its targets, in order, each once. */
  lemma SwapsArePrefix(s: Sys, id: nat)
    requires Reachable(s) && id in s.stmts
    ensures s.stmts[id].Swapped() <= |s.stmts[id].targets|
    ensures SwapsBy(s.history, id) == s.stmts[id].targets[..s.stmts[id].Swapped()]
    ensures s.stmts[id].phase.Done? ==> SwapsBy(s.history, id) == s.stmts[id].targets
  {
    ReachableInv(s);
    assert StmtOk(s.history, id, s.stmts[id]);
    assert s.stmts[id].targets[..|s.stmts[id].targets|] == s.stmts[id].targets;
  }

  /** Wherever a statement stops, the listable blobs it has touched are the first of its targets, each by its swap. */
  lemma FailureShape(s: Sys, id: nat)
    requires Reachable(s) && id in s.stmts
    ensures s.stmts[id].Swapped() <= |s.stmts[id].targets|
    ensures SwapsBy(s.history, id) == s.stmts[id].targets[..s.stmts[id].Swapped()]
    ensures forall i | 0 <= i < |s.history| && s.history[i].author.IsStmt(id) && !IsStagingName(s.history[i].name) ::
              && s.history[i].author.Swapper? && s.history[i].name == s.history[i].author.target.name
              && s.history[i].author.target in s.stmts[id].targets[..s.stmts[id].Swapped()]
  {
    ReachableInv(s);
    SwapsArePrefix(s, id);
    forall i | 0 <= i < |s.history| && s.history[i].author.IsStmt(id) && !IsStagingName(s.history[i].name)
      ensures s.history[i].author.Swapper? && s.history[i].name == s.history[i].author.target.name
      ensures s.history[i].author.target in s.stmts[id].targets[..s.stmts[id].Swapped()]
    {
      GoodAt(s.history, i);
      SwapIsRecorded(s.history, i);
    }
  }

  /**
   What a reader can see. A blob with a listable name holds either what an outside writer put there
   or the complete rewrite of a published version; never a staged or partial state.
   */
  lemma VisibleVersions(s: Sys, n: Name)
    requires Reachable(s) && !IsStagingName(n) && Live(s.history, n).Some?
    ensures var e := Live(s.history, n).value;
            && e < |s.history| && s.history[e].Put? && s.history[e].name == n
            && var a := s.history[e].author;
               a.Outsider? || (a.Swapper? && a.target.etag < e && s.history[a.target.etag].Put?
                               && s.history[e].rows == EditRows(s.history[a.target.etag].rows, 0, a.target.edits))
  {
    ReachableInv(s);
    LiveMeans(s.history, n);
    var e := Live(s.history, n).value;
    GoodAt(s.history, e);
    if s.history[e].author.Swapper? {
      NoLostUpdate(s, e);
    }
  }

  // ---------- staging blobs -------------------------------------------------

  /** Every staging blob left by `id` belongs to a target it swapped. */
  ghost predicate OnlySwappedLeft(s: Sys, id: nat)
    requires id in s.stmts
  {
    forall n | StagedLive(s.history, id, n) :: OfSwapped(s.stmts[id], n)
  }

  /** One more legal action stays within the reachable states. */
  lemma ReachableStep(s: Sys, a: Action)
    requires Reachable(s) && Legal(s, a)
    ensures Reachable(Apply(s, a))
  {
    var init: Sys, acts: seq<Action> :| Initial(init) && Run(init, acts) == Some(s);
    assert (acts + [a])[..|acts|] == acts;
    assert Run(init, acts + [a]) == Some(Apply(s, a));
  }
}
