/**
 The history an undisturbed commit writes, and what it leaves in the store: the staged blobs appear,
 each original is swapped or removed, and the staging blobs are gone again.
 */
module CalmLog {
  import opened Wrappers
  import opened Rows
  import opened Names
  import opened Protocol

  /** The staging puts of phase 1; a blob left with no rows stages nothing. */
  ghost function StageLog(id: nat, staged: seq<Staged>): History {
    if staged == [] then []
    else
      var last := staged[|staged| - 1];
      StageLog(id, staged[..|staged| - 1]) + if last.rows == [] then [] else [Put(last.staging, last.rows, Stager(id))]
  }

  ghost function SwapEvent(id: nat, t: Target, s: Staged): Event {
    if s.rows == [] then Remove(t.name, Swapper(id, t)) else Put(t.name, s.rows, Swapper(id, t))
  }

  /** The first `k` swaps of phase 2, each followed by the delete of its staging blob. */
  ghost function SwapLog(id: nat, targets: seq<Target>, staged: seq<Staged>, k: nat): History
    requires k <= |targets| == |staged|
  {
    if k == 0 then []
    else
      SwapLog(id, targets, staged, k - 1) + [SwapEvent(id, targets[k - 1], staged[k - 1])] +
      if staged[k - 1].rows == [] then [] else [Remove(staged[k - 1].staging, Cleaner(id))]
  }

  /** Originals are distinct, staging names are distinct, and no name is both. */
  ghost predicate Separate(targets: seq<Target>, staged: seq<Staged>) {
    && |staged| <= |targets|
    && (forall i, j | 0 <= i < j < |targets| :: targets[i].name != targets[j].name)
    && (forall i, j | 0 <= i < j < |staged| && staged[i].rows != [] && staged[j].rows != [] ::
          staged[i].staging != staged[j].staging)
    && (forall i, j | 0 <= i < |staged| && 0 <= j < |targets| && staged[i].rows != [] ::
          staged[i].staging != targets[j].name)
  }

  ghost predicate IsStagingOf(staged: seq<Staged>, n: Name) {
    exists j | 0 <= j < |staged| :: staged[j].rows != [] && staged[j].staging == n
  }

  /** Staging leaves every other blob alone. */
  lemma {:induction false} StageLeaves(h: History, id: nat, staged: seq<Staged>, n: Name)
    requires !IsStagingOf(staged, n)
    ensures Live(h + StageLog(id, staged), n) == Live(h, n)
  {
    if staged == [] {
      assert h + [] == h;
    } else {
      var front, last := staged[..|staged| - 1], staged[|staged| - 1];
      assert !IsStagingOf(front, n) by {
        forall j | 0 <= j < |front| && front[j].rows != [] ensures front[j].staging != n {
          assert staged[j] == front[j];
        }
      }
      StageLeaves(h, id, front, n);
      if last.rows == [] {
        assert StageLog(id, staged) == StageLog(id, front) + [];
        assert h + StageLog(id, staged) == h + StageLog(id, front);
      } else {
        var e := Put(last.staging, last.rows, Stager(id));
        assert h + StageLog(id, staged) == h + StageLog(id, front) + [e];
        assert last.staging != n;
        LiveSnoc(h + StageLog(id, front), e, n);
      }
    }
  }

  /** Every staged blob is there at the end of phase 1. */
  lemma {:induction false} StagePuts(h: History, id: nat, staged: seq<Staged>, j: nat)
    requires forall i, k | 0 <= i < k < |staged| && staged[i].rows != [] && staged[k].rows != [] ::
               staged[i].staging != staged[k].staging
    requires j < |staged| && staged[j].rows != []
    ensures Live(h + StageLog(id, staged), staged[j].staging).Some?
  {
    var front, last := staged[..|staged| - 1], staged[|staged| - 1];
    if last.rows != [] {
      var e := Put(last.staging, last.rows, Stager(id));
      assert h + StageLog(id, staged) == h + StageLog(id, front) + [e];
      LiveSnoc(h + StageLog(id, front), e, staged[j].staging);
    } else {
      assert h + StageLog(id, staged) == h + StageLog(id, front);
    }
    if j < |front| {
      StagePuts(h, id, front, j);
    }
  }

  /** How the `k`-th swap and its clean-up change what is live. */
  lemma SwapLogStep(h: History, id: nat, targets: seq<Target>, staged: seq<Staged>, k: nat, n: Name)
    requires 0 < k <= |targets| == |staged| && Separate(targets, staged)
    ensures var before, after := h + SwapLog(id, targets, staged, k - 1), h + SwapLog(id, targets, staged, k);
            var t, s := targets[k - 1], staged[k - 1];
            Live(after, n) == if n == t.name then (if s.rows == [] then None else Some(|before|))
                              else if s.rows != [] && n == s.staging then None
                              else Live(before, n)
    ensures var before, after := h + SwapLog(id, targets, staged, k - 1), h + SwapLog(id, targets, staged, k);
            |before| < |after| && before <= after && after[|before|] == SwapEvent(id, targets[k - 1], staged[k - 1])
  {
    var before := h + SwapLog(id, targets, staged, k - 1);
    var t, s := targets[k - 1], staged[k - 1];
    var swap := SwapEvent(id, t, s);
    LiveSnoc(before, swap, n);
    if s.rows == [] {
      assert h + SwapLog(id, targets, staged, k) == before + [swap];
    } else {
      var clean := Remove(s.staging, Cleaner(id));
      assert h + SwapLog(id, targets, staged, k) == before + [swap] + [clean];
      LiveSnoc(before + [swap], clean, n);
    }
  }

  /** What the first `k` swaps leave alone. */
  lemma {:induction false} SwapLeaves(h: History, id: nat, targets: seq<Target>, staged: seq<Staged>, k: nat, n: Name)
    requires k <= |targets| == |staged| && Separate(targets, staged)
    requires forall j | 0 <= j < k :: targets[j].name != n && (staged[j].rows != [] ==> staged[j].staging != n)
    ensures Live(h + SwapLog(id, targets, staged, k), n) == Live(h, n)
  {
    if k == 0 {
      assert h + [] == h;
    } else {
      SwapLeaves(h, id, targets, staged, k - 1, n);
      SwapLogStep(h, id, targets, staged, k, n);
    }
  }

  /** A swapped original holds its rewrite under a new etag, or is gone when no row is left. */
  lemma {:induction false} SwapReplaces(h: History, id: nat, targets: seq<Target>, staged: seq<Staged>, k: nat, j: nat)
    requires j < k <= |targets| == |staged| && Separate(targets, staged)
    ensures var after := h + SwapLog(id, targets, staged, k);
            var got := Live(after, targets[j].name);
            if staged[j].rows == [] then got.None?
            else got.Some? && |h| <= got.value < |after| && after[got.value].Put? && after[got.value].rows == staged[j].rows
  {
    SwapLogStep(h, id, targets, staged, k, targets[j].name);
    if j < k - 1 {
      SwapReplaces(h, id, targets, staged, k - 1, j);
    }
  }

  /** The staging blob of a swapped target is gone. */
  lemma {:induction false} SwapCleans(h: History, id: nat, targets: seq<Target>, staged: seq<Staged>, k: nat, j: nat)
    requires j < k <= |targets| == |staged| && Separate(targets, staged) && staged[j].rows != []
    ensures Live(h + SwapLog(id, targets, staged, k), staged[j].staging).None?
  {
    SwapLogStep(h, id, targets, staged, k, staged[j].staging);
    if j < k - 1 {
      SwapCleans(h, id, targets, staged, k - 1, j);
    }
  }

  /** The store after an undisturbed commit. */
  lemma CommitOutcome(h: History, id: nat, targets: seq<Target>, staged: seq<Staged>, n: Name)
    requires |staged| == |targets| && Separate(targets, staged)
    requires forall j | 0 <= j < |staged| && staged[j].rows != [] :: Live(h, staged[j].staging).None?
    ensures var after := h + StageLog(id, staged) + SwapLog(id, targets, staged, |targets|);
            && (forall j | 0 <= j < |targets| && targets[j].name == n ::
                  var got := Live(after, n);
                  if staged[j].rows == [] then got.None?
                  else got.Some? && |h| <= got.value < |after| && after[got.value].Put? && after[got.value].rows == staged[j].rows)
            && ((forall j | 0 <= j < |targets| :: targets[j].name != n) ==> Live(after, n) == Live(h, n))
  {
    var mid := h + StageLog(id, staged);
    var m := |targets|;
    forall j | 0 <= j < |targets| && targets[j].name == n
      ensures var got := Live(mid + SwapLog(id, targets, staged, m), n);
              if staged[j].rows == [] then got.None?
              else got.Some? && |h| <= got.value < |mid + SwapLog(id, targets, staged, m)|
                   && (mid + SwapLog(id, targets, staged, m))[got.value].Put?
                   && (mid + SwapLog(id, targets, staged, m))[got.value].rows == staged[j].rows
    {
      SwapReplaces(mid, id, targets, staged, m, j);
    }
    if forall j | 0 <= j < |targets| :: targets[j].name != n {
      if IsStagingOf(staged, n) {
        var j :| 0 <= j < |staged| && staged[j].rows != [] && staged[j].staging == n;
        SwapCleans(mid, id, targets, staged, m, j);
      } else {
        forall j | 0 <= j < m && staged[j].rows != [] ensures staged[j].staging != n {}
        SwapLeaves(mid, id, targets, staged, m, n);
        StageLeaves(h, id, staged, n);
      }
    }
  }
}
