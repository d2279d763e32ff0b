/** Runs of coordinator calls after which an abort, with every delete applied, leaves a staging blob behind. */
module Leaks {
  import opened Wrappers
  import opened Rows
  import opened Names
  import opened Protocol
  import opened Safety
  import opened Staging

  /** A store with one blob of one row. */
  const BLOB := Put("a", [[Null]], Outsider)
  const START := Sys([BLOB], map[], map[], map[], 0)
  const TARGET := Target("a", 0, NO_EDITS)
  const STAGED_NAME := MakeStagingName("a", "u")

  /** A statement on backend 0 stages the blob's rewrite and fails before any swap. */
  ghost function StageThenFail(id: nat): seq<Action> {
    [Open(id, [TARGET], 0), Step(id, Fetch), Step(id, Register("u")), Step(id, PutStaging(false)), Step(id, Fail)]
  }

  /** Two modify nodes begin, the first ends and empties the slot, and the second stages and fails. */
  ghost function TwoNodes(): seq<Action> {
    FirstNode() + StageThenFail(1)
  }

  /** A statement fails inside a savepoint, and another modify node begins after the rollback to it. */
  ghost function Savepoint(): seq<Action> {
    [OpenSlot(0)] + StageThenFail(0) + [SavepointRollback(0), OpenSlot(0)]
  }

  /** The same, but the transaction commits after the rollback to the savepoint. */
  ghost function SavepointThenCommit(): seq<Action> {
    [OpenSlot(0)] + StageThenFail(0) + [SavepointRollback(0), CommitEvent(0)]
  }

  /** One more action of a run from the start. */
  lemma More(acts: seq<Action>, s: Sys, a: Action)
    requires Run(START, acts) == Some(s) && Legal(s, a)
    ensures Run(START, acts + [a]) == Some(Apply(s, a))
  {
    assert (acts + [a])[..|acts|] == acts;
  }

  lemma RunReaches(acts: seq<Action>, s: Sys)
    requires Run(START, acts) == Some(s)
    ensures Reachable(s)
  {
    assert Initial(START);
  }

  ghost predicate FailedOrphan(s: Sys, id: nat) {
    && s.history == [BLOB, Put(STAGED_NAME, [[Null]], Stager(id))] && s.sweeps == map[]
    && id in s.stmts && s.stmts[id].backend == 0 && s.stmts[id].phase == Failed(0)
    && s.stmts[id].inFlight == {STAGED_NAME}
    && forall x | x in s.stmts :: !s.stmts[x].Running()
  }

  lemma FailedOrphanIsOrphan(s: Sys, id: nat)
    requires FailedOrphan(s, id)
    ensures Orphan(s, id, STAGED_NAME)
  {
    var h := [BLOB];
    assert s.history == h + [Put(STAGED_NAME, [[Null]], Stager(id))];
    LiveSnoc(h, Put(STAGED_NAME, [[Null]], Stager(id)), STAGED_NAME);
  }

  /** The rewrite with no edits is the blob's own row. */
  lemma TargetRewritten(h: History)
    requires |h| > 0 && h[0] == BLOB
    ensures Rewritten(h, TARGET) == [[Null]]
  {
    EditRowsNothing([[Null]], 0, NO_EDITS);
  }

  lemma FetchReady(id: nat, serial: Option<nat>)
    ensures Enabled([BLOB], Start(0, serial, [TARGET]), Fetch)
    ensures After([BLOB], Start(0, serial, [TARGET]), Fetch) == Start(0, serial, [TARGET]).(phase := Fetched([[Null]]))
    ensures Live([BLOB], STAGED_NAME).None?
  {
    TargetRewritten([BLOB]);
    assert [BLOB][..0] == [];
    assert "a" != STAGED_NAME by {
      assert |STAGED_NAME| > 1;
    }
  }

  /** The statement has registered its staging name and is about to put. */
  ghost predicate AboutToPut(s: Sys, id: nat) {
    && s.history == [BLOB] && s.sweeps == map[] && id in s.stmts && s.stmts[id].backend == 0 && s.stmts[id].targets == [TARGET]
    && s.stmts[id].phase == Registered(STAGED_NAME, [[Null]]) && s.stmts[id].staged == [] && s.stmts[id].inFlight == {STAGED_NAME}
    && forall x | x in s.stmts && x != id :: !s.stmts[x].Running()
  }

  /** From `s` to `t` statement `id` is new or has moved, and nothing else but names in slots. */
  ghost predicate Beside(s: Sys, t: Sys, id: nat) {
    t.slots.Keys == s.slots.Keys && forall x | x in s.stmts && x != id :: x in t.stmts && t.stmts[x] == s.stmts[x]
  }

  lemma OpenToRegister(acts: seq<Action>, s: Sys, id: nat) returns (t: Sys)
    requires Run(START, acts) == Some(s) && s.history == [BLOB] && s.sweeps == map[] && id !in s.stmts
    requires forall x | x in s.stmts :: !s.stmts[x].Running()
    ensures Run(START, acts + [Open(id, [TARGET], 0), Step(id, Fetch), Step(id, Register("u"))]) == Some(t)
    ensures AboutToPut(t, id) && Beside(s, t, id) && t.stmts[id].serial == SerialOf(s, 0)
  {
    hide Live, Run, EditRows, MakeStagingName, Rewritten, IsStagingName;
    FetchReady(id, SerialOf(s, 0));
    assert Published([BLOB], TARGET);
    More(acts, s, Open(id, [TARGET], 0));
    var s1 := Apply(s, Open(id, [TARGET], 0));
    var a1 := acts + [Open(id, [TARGET], 0)];
    More(a1, s1, Step(id, Fetch));
    var s2 := Apply(s1, Step(id, Fetch));
    assert s2.history == [BLOB];
    More(a1 + [Step(id, Fetch)], s2, Step(id, Register("u")));
    t := Apply(s2, Step(id, Register("u")));
    assert t.history == [BLOB];
    assert acts + [Open(id, [TARGET], 0), Step(id, Fetch), Step(id, Register("u"))] ==
           a1 + [Step(id, Fetch)] + [Step(id, Register("u"))];
  }

  lemma PutToFail(acts: seq<Action>, s: Sys, id: nat) returns (t: Sys)
    requires Run(START, acts) == Some(s) && AboutToPut(s, id)
    ensures Run(START, acts + [Step(id, PutStaging(false)), Step(id, Fail)]) == Some(t)
    ensures FailedOrphan(t, id) && Beside(s, t, id) && t.stmts[id].serial == s.stmts[id].serial
  {
    hide Live, Run, EditRows, MakeStagingName, Rewritten, IsStagingName;
    FetchReady(id, None);
    More(acts, s, Step(id, PutStaging(false)));
    var s1 := Apply(s, Step(id, PutStaging(false)));
    More(acts + [Step(id, PutStaging(false))], s1, Step(id, Fail));
    t := Apply(s1, Step(id, Fail));
    assert acts + [Step(id, PutStaging(false)), Step(id, Fail)] == acts + [Step(id, PutStaging(false))] + [Step(id, Fail)];
    assert t.history == [BLOB, Put(STAGED_NAME, [[Null]], Stager(id))];
  }

  /** The five actions, from any state of the bare store in which the backend is idle. */
  lemma StageThenFailRuns(acts: seq<Action>, s: Sys, id: nat) returns (t: Sys)
    requires Run(START, acts) == Some(s) && s.history == [BLOB] && s.sweeps == map[] && id !in s.stmts
    requires forall x | x in s.stmts :: !s.stmts[x].Running()
    ensures Run(START, acts + StageThenFail(id)) == Some(t) && FailedOrphan(t, id)
    ensures t.slots.Keys == s.slots.Keys && t.stmts[id].serial == SerialOf(s, 0)
    ensures forall x | x in s.stmts :: x in t.stmts && t.stmts[x] == s.stmts[x]
  {
    hide Run, AboutToPut, Stmt.Running;
    var s1 := OpenToRegister(acts, s, id);
    var front := [Open(id, [TARGET], 0), Step(id, Fetch), Step(id, Register("u"))];
    t := PutToFail(acts + front, s1, id);
    assert acts + front + [Step(id, PutStaging(false)), Step(id, Fail)] == acts + StageThenFail(id);
  }

  /** An abort with nothing to sweep leaves the orphan where it is. */
  lemma AbortSweepsNothing(s: Sys, id: nat) returns (after: Sys)
    requires FailedOrphan(s, id) && (0 in s.slots ==> s.slots[0].names == {})
    ensures CleanAbort(s, 0, [], after) && FailedOrphan(after.(sweeps := map[]), id) && after.stmts == s.stmts
  {
    hide Live, FailedOrphan;
    assert Idle(s, 0) by {
      FailedIsIdle(s, id);
    }
    after := Apply(s, AbortEvent(0));
    var acts := [AbortEvent(0)] + SweepActions(0, []);
    assert acts == [AbortEvent(0)] && acts[..0] == [];
    assert Run(s, acts) == Some(after);
    AbortFrame(s, after, id);
  }

  lemma FailedIsIdle(s: Sys, id: nat)
    requires FailedOrphan(s, id)
    ensures Idle(s, 0)
  {
  }

  lemma AbortFrame(s: Sys, after: Sys, id: nat)
    requires FailedOrphan(s, id) && after.history == s.history && after.stmts == s.stmts
    ensures FailedOrphan(after.(sweeps := map[]), id)
  {
  }

  ghost function FirstNode(): seq<Action> {
    [OpenSlot(0), OpenSlot(0), Open(0, [], 0), Step(0, BeginSwaps), Step(0, Finish), CloseSlot(0)]
  }

  lemma TwoSlotsOpen() returns (s: Sys)
    ensures Run(START, [OpenSlot(0), OpenSlot(0)]) == Some(s)
    ensures s.history == [BLOB] && s.stmts == map[] && s.slots.Keys == {0} && s.sweeps == map[]
  {
    hide Live, Run;
    NoRun();
    var acts: seq<Action> := [];
    More(acts, START, OpenSlot(0));
    var s1 := Apply(START, OpenSlot(0));
    More(acts + [OpenSlot(0)], s1, OpenSlot(0));
    s := Apply(s1, OpenSlot(0));
    assert acts + [OpenSlot(0)] + [OpenSlot(0)] == [OpenSlot(0), OpenSlot(0)];
  }

  /** Both nodes have begun, and the first has ended without a target. */
  lemma FirstNodeEnds() returns (s: Sys)
    ensures Run(START, FirstNode()) == Some(s) && s.history == [BLOB] && s.slots == map[] && s.sweeps == map[]
    ensures s.stmts.Keys == {0} && !s.stmts[0].Running()
  {
    hide Live, Run;
    var s2 := TwoSlotsOpen();
    var two := [OpenSlot(0), OpenSlot(0)];
    More(two, s2, Open(0, [], 0));
    var s3 := Apply(s2, Open(0, [], 0));
    More(two + [Open(0, [], 0)], s3, Step(0, BeginSwaps));
    var s4 := Apply(s3, Step(0, BeginSwaps));
    var four := two + [Open(0, [], 0)] + [Step(0, BeginSwaps)];
    More(four, s4, Step(0, Finish));
    var s5 := Apply(s4, Step(0, Finish));
    More(four + [Step(0, Finish)], s5, CloseSlot(0));
    s := Apply(s5, CloseSlot(0));
    assert four + [Step(0, Finish)] + [CloseSlot(0)] == FirstNode();
  }

  /** Two modify nodes in one statement: the second one's staging blob survives the abort. */
  lemma TwoNodesLeak() returns (s: Sys, after: Sys)
    ensures Run(START, TwoNodes()) == Some(s) && Reachable(s) && CleanAbort(s, 0, [], after)
    ensures 1 in s.stmts && after.stmts == s.stmts && !Intact(s, 1) && !OnlySwappedLeft(after, 1)
  {
    hide Live, Run, StageThenFail, Stmt.Running;
    var begun := FirstNodeEnds();
    s := StageThenFailRuns(FirstNode(), begun, 1);
    assert FirstNode() + StageThenFail(1) == TwoNodes();
    RunReaches(TwoNodes(), s);
    after := AbortSweepsNothing(s, 1);
    FailedOrphanIsOrphan(after.(sweeps := map[]), 1);
  }

  lemma NoRun()
    ensures Run(START, []) == Some(START)
  {
  }

  /** The state after a statement has failed inside a savepoint. */
  lemma FailInSavepoint() returns (s: Sys)
    ensures Run(START, [OpenSlot(0)] + StageThenFail(0) + [SavepointRollback(0)]) == Some(s)
    ensures FailedOrphan(s, 0) && s.slots.Keys == {0} && s.stmts[0].serial == Some(0)
  {
    hide Live, EditRows, MakeStagingName, Run;
    NoRun();
    More([], START, OpenSlot(0));
    var s1 := Apply(START, OpenSlot(0));
    assert [] + [OpenSlot(0)] == [OpenSlot(0)];
    var s2 := StageThenFailRuns([OpenSlot(0)], s1, 0);
    More([OpenSlot(0)] + StageThenFail(0), s2, SavepointRollback(0));
    s := s2;
  }

  /** A failure inside a savepoint, then another modify node: the abort sweeps the wrong slot. */
  lemma SavepointLeak() returns (s: Sys, after: Sys)
    ensures Run(START, Savepoint()) == Some(s) && Reachable(s) && CleanAbort(s, 0, [], after)
    ensures 0 in s.stmts && after.stmts == s.stmts && !OnlySwappedLeft(after, 0)
  {
    hide Live, Run, FailedOrphan, StageThenFail;
    var s1 := FailInSavepoint();
    var acts := [OpenSlot(0)] + StageThenFail(0) + [SavepointRollback(0)];
    FailedIsIdle(s1, 0);
    More(acts, s1, OpenSlot(0));
    s := Apply(s1, OpenSlot(0));
    assert acts + [OpenSlot(0)] == Savepoint();
    RunReaches(Savepoint(), s);
    SlotFrame(s1, s, 0);
    after := AbortSweepsNothing(s, 0);
    FailedOrphanIsOrphan(after.(sweeps := map[]), 0);
  }

  lemma SlotFrame(s: Sys, t: Sys, id: nat)
    requires FailedOrphan(s, id) && t.history == s.history && t.stmts == s.stmts && t.sweeps == s.sweeps
    ensures FailedOrphan(t, id)
  {
  }

  /** A failure inside a savepoint, then a commit: the slot is taken without a sweep. */
  lemma SavepointCommitLeak() returns (s: Sys)
    ensures Run(START, SavepointThenCommit()) == Some(s) && Reachable(s)
    ensures 0 in s.stmts && 0 !in s.slots && !OnlySwappedLeft(s, 0)
  {
    hide Live, Run, FailedOrphan, StageThenFail;
    var s1 := FailInSavepoint();
    var acts := [OpenSlot(0)] + StageThenFail(0) + [SavepointRollback(0)];
    FailedIsIdle(s1, 0);
    More(acts, s1, CommitEvent(0));
    s := Apply(s1, CommitEvent(0));
    assert acts + [CommitEvent(0)] == SavepointThenCommit();
    RunReaches(SavepointThenCommit(), s);
    SlotFrame(s1, s, 0);
    FailedOrphanIsOrphan(s, 0);
  }
}
