/**
 Which staging blobs an abort cleans up. A backend has one coordinator slot, replaced by every modify node
 that begins and emptied by every one that ends, by a commit and by an abort; a failed statement's blobs
 are swept only if the slot it committed under is still there.
 */
module Staging {
  import opened Wrappers
  import opened Rows
  import opened Names
  import opened Protocol
  import opened Safety

  // ---------- the invariant of slots and sweeps ------------------------------------

  /** One commit at a time in a backend, under the slot that is in place, and serial numbers are fresh. */
  ghost predicate Discipline(s: Sys) {
    && (forall id, other | id in s.stmts && other in s.stmts && s.stmts[id].backend == s.stmts[other].backend
                           && s.stmts[id].Running() && s.stmts[other].Running() :: id == other)
    && (forall id | id in s.stmts && s.stmts[id].Running() :: s.stmts[id].serial == SerialOf(s, s.stmts[id].backend))
    && (forall id | id in s.stmts && s.stmts[id].serial.Some? :: s.stmts[id].serial.value < s.nextSerial)
    && (forall b | b in s.slots :: s.slots[b].serial < s.nextSerial)
    && (forall b | b in s.sweeps :: s.sweeps[b].serial < s.nextSerial)
    && (forall b | b in s.slots && b in s.sweeps :: s.slots[b].serial != s.sweeps[b].serial)
  }

  /** The slot statement `id` committed under is still in place. */
  ghost predicate Intact(s: Sys, id: nat)
    requires id in s.stmts
  {
    s.stmts[id].serial.Some? && SerialOf(s, s.stmts[id].backend) == s.stmts[id].serial
  }

  /** An intact slot knows every staging blob of its statements that is still in flight. */
  ghost predicate Covered(s: Sys) {
    forall id | id in s.stmts && Intact(s, id) :: CoveredBy(s.history, id, s.stmts[id], s.slots[s.stmts[id].backend].names)
  }

  ghost predicate CoveredBy(h: History, id: nat, t: Stmt, names: set<Name>) {
    && (forall n | StagedLive(h, id, n) && n in t.inFlight :: n in names)
    && (t.phase.Registered? ==> t.phase.staging in names)
  }

  /** What a running statement has staged is no other statement's of its backend. */
  ghost predicate Apart(s: Sys) {
    forall id, other | id in s.stmts && other in s.stmts && id != other && s.stmts[id].Running()
                       && s.stmts[id].backend == s.stmts[other].backend ::
      ApartFrom(s.history, s.stmts[id], other)
  }

  ghost predicate ApartFrom(h: History, t: Stmt, other: nat) {
    forall j | 0 <= j < |t.staged| && t.staged[j].rows != [] :: !StagedLive(h, other, t.staged[j].staging)
  }

  /** Name `n` was registered by a statement that committed under slot `serial` of backend `b`. */
  ghost predicate RegisteredIn(s: Sys, b: nat, serial: nat, n: Name) {
    exists id | id in s.stmts :: s.stmts[id].backend == b && s.stmts[id].serial == Some(serial) && n in s.stmts[id].inFlight
  }

  ghost predicate Traced(s: Sys) {
    forall b, n | b in s.slots && n in s.slots[b].names :: RegisteredIn(s, b, s.slots[b].serial, n)
  }

  /** A sweep has still to delete, or has reported, every staging blob in flight of the slot it took. */
  ghost predicate Swept(s: Sys) {
    forall id | id in s.stmts && s.stmts[id].backend in s.sweeps
                && s.stmts[id].serial == Some(s.sweeps[s.stmts[id].backend].serial) ::
      SweptBy(s.history, id, s.stmts[id], s.sweeps[s.stmts[id].backend])
  }

  ghost predicate SweptBy(h: History, id: nat, t: Stmt, p: Pending) {
    forall n | StagedLive(h, id, n) && n in t.inFlight :: n in p.names || n in p.warned
  }

  ghost predicate SlotInv(s: Sys) {
    Discipline(s) && Covered(s) && Apart(s) && Traced(s) && Swept(s)
  }

  // ---------- a statement's step -----------------------------------------------------

  /** Another statement's event creates no staging blob. */
  lemma Shrinks(h: History, es: History, other: nat, n: Name)
    requires es == [] || (|es| == 1 && !es[0].author.IsStmt(other))
    ensures StagedLive(h + es, other, n) ==> StagedLive(h, other, n)
  {
    if es == [] {
      assert h + es == h;
    } else {
      assert es == [es[0]];
      StagedLiveSnoc(h, es[0], other, n);
    }
  }

  /** From `s` to `t` only statement `id` moved: other statements, sweeps and all serial numbers are as they were. */
  ghost predicate OnlyMoved(s: Sys, t: Sys, id: nat) {
    && t.stmts.Keys == s.stmts.Keys && t.sweeps == s.sweeps && t.nextSerial == s.nextSerial
    && (forall x | x in s.stmts && x != id :: t.stmts[x] == s.stmts[x])
    && t.slots.Keys == s.slots.Keys && forall b | b in s.slots :: t.slots[b].serial == s.slots[b].serial
  }

  lemma OnlyMovedSelf(s: Sys, id: nat)
    ensures OnlyMoved(s, s, id)
  {
  }

  lemma OnlyMovedTrans(s: Sys, t: Sys, u: Sys, id: nat)
    requires OnlyMoved(s, t, id) && OnlyMoved(t, u, id)
    ensures OnlyMoved(s, u, id)
  {
  }

  /** A step starts from a running statement and leaves backends, serial numbers and sweeps alone. */
  lemma StepFrame(s: Sys, id: nat, m: Move)
    requires Legal(s, Step(id, m))
    ensures var t := Apply(s, Step(id, m));
            && OnlyMoved(s, t, id) && s.stmts[id].Running()
            && t.stmts[id].backend == s.stmts[id].backend && t.stmts[id].serial == s.stmts[id].serial
  {
    hide Live, Effect;
    forall b | b in s.slots ensures Apply(s, Step(id, m)).slots[b].serial == s.slots[b].serial {
      StepSlots(s, id, m, b);
    }
  }

  lemma StepDiscipline(s: Sys, id: nat, m: Move)
    requires Discipline(s) && Legal(s, Step(id, m))
    ensures Discipline(Apply(s, Step(id, m)))
  {
    hide Live, Effect, After, SlotsAfter, Enabled, Apply, Stmt.Running;
    StepFrame(s, id, m);
  }

  /** Only a registering and a marking step change a slot, and only by one name. */
  lemma StepSlots(s: Sys, id: nat, m: Move, b: nat)
    requires Legal(s, Step(id, m))
    ensures var t := Apply(s, Step(id, m));
            && (b in t.slots <==> b in s.slots)
            && (b in s.slots ==>
                  && t.slots[b].serial == s.slots[b].serial
                  && (b != s.stmts[id].backend || !(m.Register? || m.MarkCommitted?) ==> t.slots[b] == s.slots[b])
                  && (b == s.stmts[id].backend && m.Register? ==>
                        t.slots[b].names == s.slots[b].names + {t.stmts[id].phase.staging})
                  && (b == s.stmts[id].backend && m.MarkCommitted? ==>
                        t.slots[b].names == s.slots[b].names - {s.stmts[id].staged[s.stmts[id].phase.k].staging}))
  {
    hide Live, Effect;
  }

  /** The moving statement's own cover. */
  lemma StepCoversOwn(s: Sys, id: nat, m: Move)
    requires SlotInv(s) && Legal(s, Step(id, m)) && Intact(s, id)
    ensures var t := Apply(s, Step(id, m));
            Intact(t, id) && CoveredBy(t.history, id, t.stmts[id], t.slots[t.stmts[id].backend].names)
  {
    hide Live, Apart, Traced, Swept, Discipline;
    var t := Apply(s, Step(id, m));
    var b := s.stmts[id].backend;
    StepSlots(s, id, m, b);
    assert CoveredBy(s.history, id, s.stmts[id], s.slots[b].names);
    var es := Effect(s.history, id, s.stmts[id], m);
    forall n | StagedLive(t.history, id, n) && n in t.stmts[id].inFlight ensures n in t.slots[b].names {
      if es == [] {
        assert t.history == s.history;
      } else {
        assert t.history == s.history + [es[0]];
        StagedLiveSnoc(s.history, es[0], id, n);
      }
    }
  }

  lemma StepHistory(s: Sys, id: nat, m: Move)
    requires Legal(s, Step(id, m))
    ensures Apply(s, Step(id, m)).history == s.history + Effect(s.history, id, s.stmts[id], m)
  {
    hide Live, Effect, After, SlotsAfter, Enabled;
  }

  /** A live staging blob of another statement is not the one being marked. */
  lemma MarkedIsOwn(s: Sys, id: nat, other: nat, n: Name)
    requires Inv(s) && Apart(s) && Legal(s, Step(id, MarkCommitted)) && other in s.stmts && other != id
    requires s.stmts[id].backend == s.stmts[other].backend && StagedLive(s.history, other, n)
    ensures n != s.stmts[id].staged[s.stmts[id].phase.k].staging
  {
    hide Live, StagedLive, GoodHistory, AuthorsKnown, SlotNames, IsStagingName, SwapsBy, Rewritten;
    assert StmtOk(s.history, id, s.stmts[id]);
    assert s.stmts[id].Running() && ApartFrom(s.history, s.stmts[id], other);
  }

  /** A step leaves a staging blob of another statement in the slot that holds it. */
  lemma StillNamed(s: Sys, id: nat, m: Move, other: nat, n: Name)
    requires Inv(s) && Apart(s) && Legal(s, Step(id, m)) && other in s.stmts && other != id && s.stmts[other].backend in s.slots
    requires StagedLive(s.history, other, n) && n in s.slots[s.stmts[other].backend].names
    ensures var b := s.stmts[other].backend; b in Apply(s, Step(id, m)).slots && n in Apply(s, Step(id, m)).slots[b].names
  {
    hide Inv, Apart, Live, StagedLive, Effect, After, SlotsAfter, Enabled, Apply;
    StepSlots(s, id, m, s.stmts[other].backend);
    if m.MarkCommitted? && s.stmts[id].backend == s.stmts[other].backend {
      MarkedIsOwn(s, id, other, n);
    }
  }

  /** The cover of the others: a marked name is none of theirs. */
  lemma StepCoversOther(s: Sys, id: nat, m: Move, other: nat)
    requires Inv(s) && SlotInv(s) && Legal(s, Step(id, m)) && other in s.stmts && other != id && Intact(s, other)
    ensures var t := Apply(s, Step(id, m));
            Intact(t, other) && CoveredBy(t.history, other, t.stmts[other], t.slots[t.stmts[other].backend].names)
  {
    hide Inv, Live, StagedLive, Effect, After, SlotsAfter, Enabled, Apply, Apart, Traced, Swept;
    var t, b := Apply(s, Step(id, m)), s.stmts[other].backend;
    StepFrame(s, id, m);
    StepHistory(s, id, m);
    StepSlots(s, id, m, b);
    assert CoveredBy(s.history, other, s.stmts[other], s.slots[b].names);
    EffectShape(s.history, id, s.stmts[id], m);
    forall n | StagedLive(t.history, other, n) && n in t.stmts[other].inFlight ensures n in t.slots[b].names {
      Shrinks(s.history, Effect(s.history, id, s.stmts[id], m), other, n);
      StillNamed(s, id, m, other, n);
    }
  }

  lemma StepCovered(s: Sys, id: nat, m: Move)
    requires Inv(s) && SlotInv(s) && Legal(s, Step(id, m))
    ensures Covered(Apply(s, Step(id, m)))
  {
    hide Inv, SlotInv, CoveredBy, Effect, After, SlotsAfter, Live;
    var t := Apply(s, Step(id, m));
    forall other | other in t.stmts && Intact(t, other)
      ensures CoveredBy(t.history, other, t.stmts[other], t.slots[t.stmts[other].backend].names)
    {
      SameSerials(s, id, m, other);
      if other == id {
        StepCoversOwn(s, id, m);
      } else {
        StepCoversOther(s, id, m, other);
      }
    }
  }

  lemma SameSerials(s: Sys, id: nat, m: Move, other: nat)
    requires Legal(s, Step(id, m)) && other in s.stmts
    ensures Intact(Apply(s, Step(id, m)), other) <==> Intact(s, other)
  {
    hide Live, Effect;
    StepSlots(s, id, m, s.stmts[other].backend);
  }

  lemma StepApart(s: Sys, id: nat, m: Move)
    requires SlotInv(s) && Legal(s, Step(id, m))
    ensures Apart(Apply(s, Step(id, m)))
  {
    hide Live, Traced, Swept, Covered, SlotsAfter;
    var t := Apply(s, Step(id, m));
    var es := Effect(s.history, id, s.stmts[id], m);
    EffectShape(s.history, id, s.stmts[id], m);
    forall run, other | run in t.stmts && other in t.stmts && run != other && t.stmts[run].Running()
                        && t.stmts[run].backend == t.stmts[other].backend
      ensures ApartFrom(t.history, t.stmts[run], other)
    {
      assert s.stmts[run].Running() && ApartFrom(s.history, s.stmts[run], other);
      if run == id {
        StepApartOwn(s, id, m, other);
      } else {
        assert other != id;
        forall j | 0 <= j < |t.stmts[run].staged| && t.stmts[run].staged[j].rows != []
          ensures !StagedLive(t.history, other, t.stmts[run].staged[j].staging)
        {
          Shrinks(s.history, es, other, t.stmts[run].staged[j].staging);
        }
      }
    }
  }

  lemma StepApartOwn(s: Sys, id: nat, m: Move, other: nat)
    requires Legal(s, Step(id, m)) && other in s.stmts && other != id && ApartFrom(s.history, s.stmts[id], other)
    ensures var t := Apply(s, Step(id, m)); ApartFrom(t.history, t.stmts[id], other)
  {
    var t := Apply(s, Step(id, m));
    var es := Effect(s.history, id, s.stmts[id], m);
    EffectShape(s.history, id, s.stmts[id], m);
    forall j | 0 <= j < |t.stmts[id].staged| && t.stmts[id].staged[j].rows != []
      ensures !StagedLive(t.history, other, t.stmts[id].staged[j].staging)
    {
      var n := t.stmts[id].staged[j].staging;
      Shrinks(s.history, es, other, n);
      if j == |s.stmts[id].staged| {
        LiveSnoc(s.history, es[0], n);
      } else {
        assert t.stmts[id].staged[j] == s.stmts[id].staged[j];
      }
    }
  }

  lemma StepTraced(s: Sys, id: nat, m: Move)
    requires SlotInv(s) && Legal(s, Step(id, m))
    ensures Traced(Apply(s, Step(id, m)))
  {
    hide Live, Effect, Covered, Apart, Swept;
    var t := Apply(s, Step(id, m));
    forall b, n | b in t.slots && n in t.slots[b].names ensures RegisteredIn(t, b, t.slots[b].serial, n) {
      StepSlots(s, id, m, b);
      if b == s.stmts[id].backend && m.Register? && n == t.stmts[id].phase.staging {
        assert t.stmts[id].serial == Some(t.slots[b].serial) && n in t.stmts[id].inFlight;
      } else {
        assert RegisteredIn(s, b, s.slots[b].serial, n);
        var x :| x in s.stmts && s.stmts[x].backend == b && s.stmts[x].serial == Some(s.slots[b].serial) && n in s.stmts[x].inFlight;
        assert n in t.stmts[x].inFlight;
      }
    }
  }

  lemma StepSwept(s: Sys, id: nat, m: Move)
    requires SlotInv(s) && Legal(s, Step(id, m))
    ensures Swept(Apply(s, Step(id, m)))
  {
    hide Live, Covered, Apart, Traced, SlotsAfter;
    var t := Apply(s, Step(id, m));
    var es := Effect(s.history, id, s.stmts[id], m);
    EffectShape(s.history, id, s.stmts[id], m);
    forall other | other in t.stmts && t.stmts[other].backend in t.sweeps
                   && t.stmts[other].serial == Some(t.sweeps[t.stmts[other].backend].serial)
      ensures SweptBy(t.history, other, t.stmts[other], t.sweeps[t.stmts[other].backend])
    {
      assert SweptBy(s.history, other, s.stmts[other], s.sweeps[s.stmts[other].backend]);
      assert s.stmts[id].Running();
      assert other != id;
      forall n | StagedLive(t.history, other, n) ensures StagedLive(s.history, other, n) {
        Shrinks(s.history, es, other, n);
      }
    }
  }

  lemma StepKeepsSlots(s: Sys, id: nat, m: Move)
    requires Inv(s) && SlotInv(s) && Legal(s, Step(id, m))
    ensures SlotInv(Apply(s, Step(id, m)))
  {
    hide Inv, Legal, Apply, Discipline, Covered, Apart, Traced, Swept;
    StepDiscipline(s, id, m);
    StepCovered(s, id, m);
    StepApart(s, id, m);
    StepTraced(s, id, m);
    StepSwept(s, id, m);
  }

  // ---------- the other actions --------------------------------------------------------

  /** An event of nobody's own leaves every clause standing. */
  lemma EventKeepsSlots(s: Sys, e: Event)
    requires SlotInv(s) && (e.author.Outsider? || e.author.Sweeper?)
    ensures SlotInv(s.(history := s.history + [e]))
  {
    hide Live, StagedLive, Stmt.Running;
    var t := s.(history := s.history + [e]);
    forall id, n ensures StagedLive(t.history, id, n) ==> StagedLive(s.history, id, n) {
      Shrinks(s.history, [e], id, n);
    }
    forall id | id in t.stmts && Intact(t, id) ensures CoveredBy(t.history, id, t.stmts[id], t.slots[t.stmts[id].backend].names) {
      assert Intact(s, id);
      assert CoveredBy(s.history, id, s.stmts[id], s.slots[s.stmts[id].backend].names);
    }
    forall id, other | id in t.stmts && other in t.stmts && id != other && t.stmts[id].Running()
                       && t.stmts[id].backend == t.stmts[other].backend
      ensures ApartFrom(t.history, t.stmts[id], other)
    {
      assert ApartFrom(s.history, s.stmts[id], other);
    }
    forall b, n | b in t.slots && n in t.slots[b].names ensures RegisteredIn(t, b, t.slots[b].serial, n) {
      assert RegisteredIn(s, b, s.slots[b].serial, n);
    }
    forall id | id in t.stmts && t.stmts[id].backend in t.sweeps && t.stmts[id].serial == Some(t.sweeps[t.stmts[id].backend].serial)
      ensures SweptBy(t.history, id, t.stmts[id], t.sweeps[t.stmts[id].backend])
    {
      assert SweptBy(s.history, id, s.stmts[id], s.sweeps[s.stmts[id].backend]);
    }
  }

  /** Backend `b`'s slot becomes `slot`, new or none. */
  ghost function WithSlot(s: Sys, b: nat, slot: Option<Slot>): map<nat, Slot> {
    if slot.Some? then s.slots[b := slot.value] else s.slots - {b}
  }

  /** Putting an empty slot with a fresh serial number in place, or none. */
  lemma SlotChangeKeeps(s: Sys, b: nat, slot: Option<Slot>, next: nat)
    requires SlotInv(s) && Idle(s, b) && s.nextSerial <= next
    requires slot.Some? ==> slot.value == Slot(s.nextSerial, {}) && s.nextSerial < next
    ensures SlotInv(s.(slots := WithSlot(s, b, slot), nextSerial := next))
  {
    hide Discipline, Covered, Apart, Traced, Swept, WithSlot, Idle;
    SlotChangeDiscipline(s, b, slot, next);
    SlotChangeCovered(s, b, slot, next);
    SlotChangeTraced(s, b, slot, next);
    SlotsDoNotMatter(s, s.(slots := WithSlot(s, b, slot), nextSerial := next));
  }

  lemma SlotsDoNotMatter(s: Sys, t: Sys)
    requires t.history == s.history && t.stmts == s.stmts && t.sweeps == s.sweeps
    ensures Apart(s) ==> Apart(t)
    ensures Swept(s) ==> Swept(t)
  {
    hide StagedLive, Stmt.Running, ApartFrom, SweptBy;
  }

  lemma SlotChangeDiscipline(s: Sys, b: nat, slot: Option<Slot>, next: nat)
    requires Discipline(s) && Idle(s, b) && s.nextSerial <= next
    requires slot.Some? ==> slot.value == Slot(s.nextSerial, {}) && s.nextSerial < next
    ensures Discipline(s.(slots := WithSlot(s, b, slot), nextSerial := next))
  {
    hide Live;
  }

  lemma SlotChangeCovered(s: Sys, b: nat, slot: Option<Slot>, next: nat)
    requires Discipline(s) && Covered(s) && (slot.Some? ==> slot.value == Slot(s.nextSerial, {}))
    ensures Covered(s.(slots := WithSlot(s, b, slot), nextSerial := next))
  {
    hide CoveredBy, Stmt.Running;
    var t := s.(slots := WithSlot(s, b, slot), nextSerial := next);
    forall id | id in t.stmts && Intact(t, id) ensures Intact(s, id) && t.stmts[id].backend != b {
    }
  }

  lemma SlotChangeTraced(s: Sys, b: nat, slot: Option<Slot>, next: nat)
    requires Traced(s) && (slot.Some? ==> slot.value == Slot(s.nextSerial, {}))
    ensures Traced(s.(slots := WithSlot(s, b, slot), nextSerial := next))
  {
    var t := s.(slots := WithSlot(s, b, slot), nextSerial := next);
    forall x, n | x in t.slots && n in t.slots[x].names ensures RegisteredIn(t, x, t.slots[x].serial, n) {
      assert RegisteredIn(s, x, s.slots[x].serial, n);
    }
  }

  lemma AbortKeepsSlots(s: Sys, b: nat)
    requires SlotInv(s) && Legal(s, AbortEvent(b))
    ensures SlotInv(Apply(s, AbortEvent(b)))
  {
    hide Live, StagedLive, Stmt.Running, ApartFrom;
    if b in s.slots {
      var t := Apply(s, AbortEvent(b));
      forall id | id in t.stmts && Intact(t, id) ensures Intact(s, id) && t.stmts[id].backend != b {
      }
      forall x, n | x in t.slots && n in t.slots[x].names ensures RegisteredIn(t, x, t.slots[x].serial, n) {
        assert RegisteredIn(s, x, s.slots[x].serial, n);
      }
      forall id | id in t.stmts && t.stmts[id].backend in t.sweeps && t.stmts[id].serial == Some(t.sweeps[t.stmts[id].backend].serial)
        ensures SweptBy(t.history, id, t.stmts[id], t.sweeps[t.stmts[id].backend])
      {
        if t.stmts[id].backend == b {
          assert Intact(s, id);
          assert CoveredBy(s.history, id, s.stmts[id], s.slots[b].names);
        } else {
          assert SweptBy(s.history, id, s.stmts[id], s.sweeps[s.stmts[id].backend]);
        }
      }
    }
  }

  lemma SweepKeepsSlots(s: Sys, b: nat, n: Name, applied: bool)
    requires SlotInv(s) && Legal(s, SweepName(b, n, applied))
    ensures SlotInv(Apply(s, SweepName(b, n, applied)))
  {
    hide Live, Stmt.Running, Discipline, Covered, Apart, Traced, SweptBy;
    var e := Remove(n, Sweeper(b));
    var mid := if applied && Live(s.history, n).Some? then s.(history := s.history + [e]) else s;
    var t := Apply(s, SweepName(b, n, applied));
    if mid != s {
      EventKeepsSlots(s, e);
    } else {
      assert s.history + [] == s.history;
    }
    SweepFrame(mid, t, b);
    forall id | id in t.stmts && t.stmts[id].backend in t.sweeps && t.stmts[id].serial == Some(t.sweeps[t.stmts[id].backend].serial)
      ensures SweptBy(t.history, id, t.stmts[id], t.sweeps[t.stmts[id].backend])
    {
      assert SweptBy(mid.history, id, mid.stmts[id], mid.sweeps[mid.stmts[id].backend]);
      SweepOne(s.history, mid.history, n, b, applied, id);
      SweptLess(mid.history, id, mid.stmts[id], mid.sweeps[mid.stmts[id].backend], t.sweeps[t.stmts[id].backend], n);
    }
  }

  /** Changing only what one sweep has left to do leaves the clauses about slots alone. */
  lemma SweepFrame(s: Sys, t: Sys, b: nat)
    requires Discipline(s) && Covered(s) && Apart(s) && Traced(s)
    requires b in s.sweeps && b in t.sweeps && t == s.(sweeps := s.sweeps[b := t.sweeps[b]]) && t.sweeps[b].serial == s.sweeps[b].serial
    ensures Discipline(t) && Covered(t) && Apart(t) && Traced(t)
  {
    hide Live, StagedLive, Stmt.Running, CoveredBy, ApartFrom;
    forall id | id in t.stmts && Intact(t, id) ensures Intact(s, id) {
    }
    forall x, n | x in t.slots && n in t.slots[x].names ensures RegisteredIn(t, x, t.slots[x].serial, n) {
      assert RegisteredIn(s, x, s.slots[x].serial, n);
    }
  }

  /** An applied delete leaves nothing under the name. */
  lemma SweepOne(h: History, after: History, n: Name, b: nat, applied: bool, id: nat)
    requires after == if applied && Live(h, n).Some? then h + [Remove(n, Sweeper(b))] else h
    ensures applied ==> Live(after, n).None? && !StagedLive(after, id, n)
  {
    LiveSnoc(h, Remove(n, Sweeper(b)), n);
  }

  lemma SweptLess(h: History, id: nat, t: Stmt, p: Pending, q: Pending, n: Name)
    requires SweptBy(h, id, t, p) && q.serial == p.serial
    requires q == p || (q.names == p.names - {n} && (if n in q.warned then q.warned == p.warned + {n} else q.warned == p.warned && !StagedLive(h, id, n)))
    ensures SweptBy(h, id, t, q)
  {
  }

  lemma OpenDiscipline(s: Sys, id: nat, targets: seq<Target>, b: nat)
    requires Discipline(s) && Legal(s, Open(id, targets, b))
    ensures Discipline(Apply(s, Open(id, targets, b)))
  {
    hide Live;
  }

  lemma OpenKeepsSlots(s: Sys, id: nat, targets: seq<Target>, b: nat)
    requires Inv(s) && SlotInv(s) && Legal(s, Open(id, targets, b))
    ensures SlotInv(Apply(s, Open(id, targets, b)))
  {
    hide Live, StagedLive, GoodHistory, StmtOk, SlotNames, Discipline;
    var t := Apply(s, Open(id, targets, b));
    OpenDiscipline(s, id, targets, b);
    UnknownDidNothing(s.history, id);
    forall x | x in t.stmts && Intact(t, x) ensures CoveredBy(t.history, x, t.stmts[x], t.slots[t.stmts[x].backend].names) {
      if x != id {
        assert Intact(s, x);
      }
    }
    forall x, other | x in t.stmts && other in t.stmts && x != other && t.stmts[x].Running()
                      && t.stmts[x].backend == t.stmts[other].backend
      ensures ApartFrom(t.history, t.stmts[x], other)
    {
      if x != id && other != id {
        assert ApartFrom(s.history, s.stmts[x], other);
      }
    }
    forall x, n | x in t.slots && n in t.slots[x].names ensures RegisteredIn(t, x, t.slots[x].serial, n) {
      assert RegisteredIn(s, x, s.slots[x].serial, n);
      var y :| y in s.stmts && s.stmts[y].backend == x && s.stmts[y].serial == Some(s.slots[x].serial) && n in s.stmts[y].inFlight;
      assert t.stmts[y] == s.stmts[y];
    }
    forall x | x in t.stmts && t.stmts[x].backend in t.sweeps && t.stmts[x].serial == Some(t.sweeps[t.stmts[x].backend].serial)
      ensures SweptBy(t.history, x, t.stmts[x], t.sweeps[t.stmts[x].backend])
    {
      if x != id {
        assert SweptBy(s.history, x, s.stmts[x], s.sweeps[s.stmts[x].backend]);
      }
    }
  }

  lemma ActionKeepsSlots(s: Sys, a: Action)
    requires Inv(s) && SlotInv(s) && Legal(s, a)
    ensures SlotInv(Apply(s, a))
  {
    hide Inv, Discipline, Covered, Apart, Traced, Swept, Effect, After, SlotsAfter, Live, Enabled;
    match a {
      case OutsidePut(n, rows) => EventKeepsSlots(s, Put(n, rows, Outsider));
      case OutsideRemove(n) => EventKeepsSlots(s, Remove(n, Outsider));
      case OpenSlot(b) => SlotChangeKeeps(s, b, Some(Slot(s.nextSerial, {})), s.nextSerial + 1);
      case CloseSlot(b) => SlotChangeKeeps(s, b, None, s.nextSerial);
      case CommitEvent(b) => SlotChangeKeeps(s, b, None, s.nextSerial);
      case AbortEvent(b) => AbortKeepsSlots(s, b);
      case SavepointRollback(_) =>
      case SweepName(b, n, applied) => SweepKeepsSlots(s, b, n, applied);
      case Open(id, targets, b) => OpenKeepsSlots(s, id, targets, b);
      case Step(id, m) => StepKeepsSlots(s, id, m);
    }
  }

  lemma {:induction false} RunKeepsSlots(init: Sys, acts: seq<Action>)
    requires Initial(init) && Run(init, acts).Some?
    ensures SlotInv(Run(init, acts).value)
  {
    hide Inv, SlotInv, Legal, Apply;
    if acts == [] {
      InitialSlots(init);
    } else {
      var front := acts[..|acts| - 1];
      RunKeepsSlots(init, front);
      assert Reachable(Run(init, front).value);
      ReachableInv(Run(init, front).value);
      ActionKeepsSlots(Run(init, front).value, acts[|acts| - 1]);
    }
  }

  lemma InitialSlots(init: Sys)
    requires Initial(init)
    ensures SlotInv(init)
  {
  }

  lemma ReachableSlots(s: Sys)
    requires Reachable(s)
    ensures SlotInv(s)
  {
    hide SlotInv, Run;
    var init: Sys, acts: seq<Action> :| Initial(init) && Run(init, acts) == Some(s);
    RunKeepsSlots(init, acts);
  }

  // ---------- what a sweep leaves ---------------------------------------------------------

  /** Every staging blob of a statement is in flight or belongs to a swapped target. */
  lemma StagingAccounted(s: Sys, id: nat, n: Name)
    requires Reachable(s) && id in s.stmts && StagedLive(s.history, id, n)
    ensures n in s.stmts[id].inFlight || OfSwapped(s.stmts[id], n)
    ensures Intact(s, id) && !OfSwapped(s.stmts[id], n) ==> n in s.slots[s.stmts[id].backend].names
  {
    hide Live, StagedLive;
    ReachableInv(s);
    ReachableSlots(s);
    assert StmtOk(s.history, id, s.stmts[id]);
    if Intact(s, id) {
      assert CoveredBy(s.history, id, s.stmts[id], s.slots[s.stmts[id].backend].names);
    }
  }

  /** In any interleaving: once the sweep of its slot is over and warned of nothing, only swapped targets' blobs are left. */
  lemma FinishedSweepLeaves(s: Sys, id: nat)
    requires Reachable(s) && id in s.stmts
    requires var b := s.stmts[id].backend;
             b in s.sweeps && s.stmts[id].serial == Some(s.sweeps[b].serial) && s.sweeps[b].names == {} && s.sweeps[b].warned == {}
    ensures OnlySwappedLeft(s, id)
  {
    hide Live, StagedLive;
    ReachableSlots(s);
    assert SweptBy(s.history, id, s.stmts[id], s.sweeps[s.stmts[id].backend]);
    forall n | StagedLive(s.history, id, n) ensures OfSwapped(s.stmts[id], n) {
      StagingAccounted(s, id, n);
    }
  }

  ghost function SweepActions(b: nat, order: seq<Name>): seq<Action> {
    seq(|order|, i requires 0 <= i < |order| => SweepName(b, order[i], true))
  }

  /** `after` is `s` after an abort of backend `b` whose sweep, in some order, deletes every name. */
  ghost predicate CleanAbort(s: Sys, b: nat, order: seq<Name>, after: Sys) {
    && Run(s, [AbortEvent(b)] + SweepActions(b, order)) == Some(after)
    && (b in s.slots ==> b in after.sweeps && after.sweeps[b].names == {})
  }

  /** `t` is what an abort in `s` has come to after sweeping the names of `order`, as far as blob `n` goes. */
  ghost predicate AbortedTo(s: Sys, b: nat, order: seq<Name>, t: Sys, n: Name) {
    && s.history <= t.history && t.stmts == s.stmts
    && (b in s.slots ==> b in t.sweeps && t.sweeps[b].names == s.slots[b].names - (set x | x in order))
    && (b !in s.slots ==> b in t.sweeps ==> t.sweeps[b].names == {})
    && Live(t.history, n) == if b in s.slots && n in s.slots[b].names && n in order then None else Live(s.history, n)
  }

  lemma {:induction false} SweepLive(s: Sys, b: nat, order: seq<Name>, n: Name)
    requires Legal(s, AbortEvent(b)) && Run(s, [AbortEvent(b)] + SweepActions(b, order)).Some?
    ensures AbortedTo(s, b, order, Run(s, [AbortEvent(b)] + SweepActions(b, order)).value, n)
    decreases |order|
  {
    hide Live;
    var acts := [AbortEvent(b)] + SweepActions(b, order);
    if order == [] {
      assert acts == [AbortEvent(b)] && acts[..0] == [];
    } else {
      var front, last := order[..|order| - 1], order[|order| - 1];
      assert acts[..|acts| - 1] == [AbortEvent(b)] + SweepActions(b, front);
      SweepLive(s, b, front, n);
      assert order == front + [last];
      SweepStepLive(s, b, front, last, Run(s, acts[..|acts| - 1]).value, n);
    }
  }

  lemma SweepStepLive(s: Sys, b: nat, front: seq<Name>, last: Name, t: Sys, n: Name)
    requires AbortedTo(s, b, front, t, n) && Legal(t, SweepName(b, last, true))
    ensures AbortedTo(s, b, front + [last], Apply(t, SweepName(b, last, true)), n)
  {
    hide Live;
    LiveSnoc(t.history, Remove(last, Sweeper(b)), n);
    assert t.history + [] == t.history;
  }

  /** A staging blob of a target that `id` has not swapped. */
  ghost predicate Orphan(s: Sys, id: nat, n: Name)
    requires id in s.stmts
  {
    StagedLive(s.history, id, n) && !OfSwapped(s.stmts[id], n)
  }

  /** No other statement of the backend has registered a staging name of `id`: the random parts differ. */
  ghost predicate NamesApart(s: Sys, id: nat)
    requires id in s.stmts
  {
    forall other | other in s.stmts && other != id && s.stmts[other].backend == s.stmts[id].backend ::
      s.stmts[other].inFlight !! s.stmts[id].inFlight
  }

  /** The abort deletes an orphan exactly when the slot in place holds its name. */
  lemma OrphanAfterAbort(s: Sys, id: nat, order: seq<Name>, after: Sys, n: Name)
    requires Reachable(s) && id in s.stmts && Legal(s, AbortEvent(s.stmts[id].backend))
    requires CleanAbort(s, s.stmts[id].backend, order, after)
    ensures after.stmts == s.stmts
    ensures var b := s.stmts[id].backend;
            Orphan(after, id, n) <==> Orphan(s, id, n) && !(b in s.slots && n in s.slots[b].names)
  {
    var b := s.stmts[id].backend;
    SweepLive(s, b, order, n);
    LiveMeans(s.history, n);
    assert b in s.slots ==> (n in after.sweeps[b].names <==> n in s.slots[b].names && n !in order);
  }

  /**
   After an abort whose deletes all succeed, a failed statement that had left orphans has none if and only
   if the slot it committed under was still in place: neither replaced by another modify node nor emptied by
   the end of one, nor by a commit.
   */
  lemma AbortCleansIffIntact(s: Sys, id: nat, order: seq<Name>, after: Sys, orphan: Name)
    requires Reachable(s) && id in s.stmts && Legal(s, AbortEvent(s.stmts[id].backend))
    requires Orphan(s, id, orphan) && NamesApart(s, id)
    requires CleanAbort(s, s.stmts[id].backend, order, after)
    ensures id in after.stmts && (OnlySwappedLeft(after, id) <==> Intact(s, id))
  {
    hide Live, StagedLive, CleanAbort;
    var b := s.stmts[id].backend;
    OrphanAfterAbort(s, id, order, after, orphan);
    if Intact(s, id) {
      forall n | StagedLive(after.history, id, n) ensures OfSwapped(after.stmts[id], n) {
        OrphanAfterAbort(s, id, order, after, n);
        if Orphan(s, id, n) {
          StagingAccounted(s, id, n);
        }
      }
    } else {
      StagingAccounted(s, id, orphan);
      ReachableSlots(s);
      assert b in s.slots && orphan in s.slots[b].names ==> RegisteredIn(s, b, s.slots[b].serial, orphan);
      assert Orphan(after, id, orphan);
    }
  }
}
