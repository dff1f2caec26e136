/** Conservation of locks between the chain of progress states of one thread and the lock table:
  the count of every item the thread owns is the number of times its id is stored in the chain,
  through every call on the chain and whatever other threads do with the table.
 */
module StateLocks {
  import opened LockTable
  import opened LockAccounting
  import opened StateSpec

  /** All ids stored in the chain, with multiplicity. */
  ghost function Held(chain: seq<Snapshot>): multiset<nat> {
    if chain == [] then multiset{}
    else Held(chain[..|chain| - 1]) + multiset(chain[|chain| - 1].lockIds)
  }

  /** The count of the item with this id if the thread owns it, else 0. */
  function Share(t: Table, thread: Thread, id: nat): nat {
    if OwnedBy(t, id, thread) then Refcount(t, id) else 0
  }

  ghost predicate Conserved(w: World, thread: Thread) {
    Valid(w.table) && forall id :: Share(w.table, thread, id) == Held(w.chain)[id]
  }

  // --------------------------------------------------------- the held multiset

  lemma {:induction false} SameLocksSameHeld(a: seq<Snapshot>, b: seq<Snapshot>)
    requires |a| == |b| && forall i :: 0 <= i < |a| ==> a[i].lockIds == b[i].lockIds
    ensures Held(a) == Held(b)
  {
    if a != [] {
      SameLocksSameHeld(a[..|a| - 1], b[..|b| - 1]);
    }
  }

  /** States without locks at the end of the chain do not count. */
  lemma {:induction false} ClearedTail(chain: seq<Snapshot>, k: nat)
    requires k <= |chain| && forall i :: k <= i < |chain| ==> chain[i].lockIds == []
    ensures Held(chain) == Held(chain[..k])
  {
    if k == |chain| {
      assert chain[..k] == chain;
    } else {
      var init := chain[..|chain| - 1];
      ClearedTail(init, k);
      assert init[..k] == chain[..k];
      assert Held(chain) == Held(init) + multiset([]);
    }
  }

  lemma HeldStep(chain: seq<Snapshot>, k: nat)
    requires k < |chain|
    ensures Held(chain[..k + 1]) == Held(chain[..k]) + multiset(chain[k].lockIds)
  {
    assert chain[..k + 1][..k] == chain[..k];
  }

  lemma {:induction false} HeldAdd(chain: seq<Snapshot>, k: nat, id: nat)
    requires k < |chain|
    ensures Held(chain[k := chain[k].(lockIds := chain[k].lockIds + [id])]) == Held(chain) + multiset{id}
  {
    var more := chain[k := chain[k].(lockIds := chain[k].lockIds + [id])];
    var n := |chain| - 1;
    if k == n {
      assert more[..n] == chain[..n];
    } else {
      HeldAdd(chain[..n], k, id);
      assert more[..n] == chain[..n][k := chain[k].(lockIds := chain[k].lockIds + [id])];
    }
  }

  // ---------------------------------------------------------------- releasing

  /** Releasing ids a thread has enough of succeeds and lowers each share by its multiplicity. */
  lemma {:induction false} ReleaseIdsLowers(t: Table, thread: Thread, ids: seq<nat>, rest: multiset<nat>)
    requires Valid(t) && forall id :: Share(t, thread, id) == (rest + multiset(ids))[id]
    ensures var (u, ok) := ReleaseIds(t, thread, ids);
      ok && Valid(u) && forall id :: Share(u, thread, id) == rest[id]
    decreases |ids|
  {
    hide Release;
    if ids != [] {
      var first, others := ids[0], ids[1..];
      assert ids == [first] + others;
      assert multiset(ids) == multiset{first} + multiset(others);
      var (u, ok) := Release(t, thread, first, true);
      assert Share(t, thread, first) > 0;
      ReleaseKeepsValid(t, thread, first, true);
      ReleaseAccounts(t, thread, first, true, first);
      forall id ensures Share(u, thread, id) == (rest + multiset(others))[id] {
        ReleaseAccounts(t, thread, first, true, id);
        assert (rest + multiset(ids))[id] == (rest + multiset(others))[id] + (if id == first then 1 else 0);
        assert Share(u, thread, id) == Share(t, thread, id) - (if id == first then 1 else 0);
      }
      ReleaseIdsLowers(u, thread, others, rest);
    }
  }

  /** Ids are released in order, and none after the first that fails. */
  lemma {:induction false} ReleaseStops(t: Table, thread: Thread, ids: seq<nat>, bad: nat, rest: seq<nat>)
    requires ReleaseIds(t, thread, ids).1 && !Release(ReleaseIds(t, thread, ids).0, thread, bad, true).1
    ensures ReleaseIds(t, thread, ids + [bad] + rest) ==
            (Release(ReleaseIds(t, thread, ids).0, thread, bad, true).0, false)
    decreases |ids|
  {
    hide Release;
    if ids == [] {
      assert [] + [bad] + rest == [bad] + rest;
    } else {
      var all := ids + [bad] + rest;
      assert all[0] == ids[0] && all[1..] == ids[1..] + [bad] + rest;
      ReleaseStops(Release(t, thread, ids[0], true).0, thread, ids[1..], bad, rest);
    }
  }

  /** A state forgets its ids exactly when all of them have been released. */
  lemma ReleaseForgets(w: World, thread: Thread, k: nat)
    requires k < |w.chain|
    ensures var (v, ok) := ReleaseLocks(w, thread, k);
            v.chain[k].lockIds == if ok then [] else w.chain[k].lockIds
  {
    hide ReleaseIds;
    if k + 1 < |w.chain| {
      var inner := ReleaseLocks(w, thread, k + 1).0;
      assert inner.chain[k] == inner.chain[..k + 1][k] == w.chain[..k + 1][k];
    }
  }

  /** Releasing the locks of a state succeeds, empties the whole chain from that state down, and
      lowers each count by exactly what was stored there. */
  lemma {:induction false} ReleaseLocksConserves(w: World, thread: Thread, k: nat)
    requires Conserved(w, thread) && k < |w.chain|
    ensures var (v, ok) := ReleaseLocks(w, thread, k);
      && ok && Conserved(v, thread)
      && (forall i :: k <= i < |v.chain| ==> v.chain[i].lockIds == [])
      && (forall id :: Share(v.table, thread, id) == Held(w.chain[..k])[id])
    decreases |w.chain| - k
  {
    hide ReleaseIds, Share, Valid;
    var v := w;
    if k + 1 < |w.chain| {
      v := ReleaseLocks(w, thread, k + 1).0;
      ReleaseLocksConserves(w, thread, k + 1);
      assert v.chain[k] == v.chain[..k + 1][k] == w.chain[k];
    } else {
      assert w.chain[..k + 1] == w.chain;
    }
    HeldStep(w.chain, k);
    ReleaseIdsLowers(v.table, thread, v.chain[k].lockIds, Held(w.chain[..k]));
    var after := ReleaseLocks(w, thread, k).0;
    ClearedTail(after.chain, k);
  }

  // -------------------------------------------------------------- each call

  lemma TakeLockConserves(w: World, thread: Thread, k: nat, lockType: LockType, mode: LockMode, claimable: bool)
    requires Conserved(w, thread) && k < |w.chain|
    ensures Conserved(TakeLock(w, thread, k, lockType, mode, claimable).0, thread)
  {
    hide Take;
    var (u, id) := Take(w.table, thread, lockType, mode, claimable);
    TakeKeepsValid(w.table, thread, lockType, mode, claimable);
    if id != 0 {
      HeldAdd(w.chain, k, id);
    }
    forall other
      ensures Share(u, thread, other) == Share(w.table, thread, other) + (if other == id && id != 0 then 1 else 0)
    {
      TakeAccounts(w.table, thread, lockType, mode, claimable, other);
    }
  }

  lemma KeepsLocks(w: World, v: World, thread: Thread)
    requires Conserved(w, thread) && v.table == w.table
    requires |v.chain| == |w.chain| && forall i :: 0 <= i < |w.chain| ==> v.chain[i].lockIds == w.chain[i].lockIds
    ensures Conserved(v, thread)
  {
    SameLocksSameHeld(w.chain, v.chain);
  }

  lemma {:induction false} SetPercentageConserves(w: World, thread: Thread, k: nat, percentage: nat)
    requires Conserved(w, thread) && WellFormed(w) && k < |w.chain|
    ensures Conserved(SetPercentage(w, thread, k, percentage).0, thread)
    decreases k, 0
  {
    hide ReleaseLocks, Conserved, ChildPercentageChanged;
    var s := w.chain[k];
    if s.report && s.last < percentage <= 100 {
      ReleaseLocksConserves(w, thread, k);
      var v := if percentage == 100 then ReleaseLocks(w, thread, k).0 else w;
      var u := Emitted(v, k, percentage);
      KeepsLocks(v, u, thread);
      if k > 0 {
        ChildPercentageChangedConserves(u, thread, k - 1, percentage);
      }
    }
  }

  lemma {:induction false} ChildPercentageChangedConserves(w: World, thread: Thread, k: nat, percentage: nat)
    requires Conserved(w, thread) && WellFormed(w) && k < |w.chain| && percentage <= 100
    ensures Conserved(ChildPercentageChanged(w, thread, k, percentage), thread)
    decreases k, 1
  {
    hide SetPercentage, ParentPercentage, Conserved;
    var own := ParentPercentage(w.chain[k], percentage);
    if own.Some? {
      SetPercentageConserves(w, thread, k, own.value);
    }
  }

  lemma {:induction false} FinalizeConserves(w: World, thread: Thread, k: nat)
    requires Conserved(w, thread) && WellFormed(w) && k < |w.chain|
    ensures Conserved(Finalize(w, thread, k), thread)
    decreases |w.chain| - k, 1
  {
    hide ReleaseLocks, Reset, Share, Valid;
    var v := ReleaseLocks(w, thread, k).0;
    ReleaseLocksConserves(w, thread, k);
    ResetConserves(v, thread, k);
    var u := Reset(v, thread, k);
    ClearedTail(u.chain, k);
  }

  lemma {:induction false} ResetConserves(w: World, thread: Thread, k: nat)
    requires Conserved(w, thread) && WellFormed(w) && k < |w.chain|
    ensures Conserved(Reset(w, thread, k), thread)
    ensures (forall i :: k <= i < |w.chain| ==> w.chain[i].lockIds == []) ==>
      forall i :: k <= i < |Reset(w, thread, k).chain| ==> Reset(w, thread, k).chain[i].lockIds == []
    decreases |w.chain| - k, 0
  {
    hide ReleaseLocks, Finalize, Conserved;
    if w.chain[k].report {
      var cleared := Cleared(w, k);
      KeepsLocks(w, cleared, thread);
      var v := cleared;
      if k + 1 < |w.chain| {
        FinalizeConserves(cleared, thread, k + 1);
        v := Finalize(cleared, thread, k + 1);
      }
      ReleaseLocksConserves(v, thread, k);
      var u := ReleaseLocks(v, thread, k).0;
      KeepsLocks(u, Reset(w, thread, k), thread);
    }
  }

  lemma GetChildConserves(w: World, thread: Thread, k: nat)
    requires Conserved(w, thread) && WellFormed(w) && k < |w.chain|
    ensures Conserved(GetChild(w, thread, k), thread)
  {
    hide Finalize, Share, Valid;
    if w.chain[k].report {
      var v := w;
      if k + 1 < |w.chain| {
        FinalizeConserves(w, thread, k + 1);
        v := Finalize(w, thread, k + 1);
      }
      assert v.chain == w.chain[..k + 1];
      var chain := v.chain + [Fresh(true)];
      assert chain[..|chain| - 1] == v.chain && multiset(Fresh(true).lockIds) == multiset{};
      assert GetChild(w, thread, k).chain == chain;
    }
  }

  lemma DoneConserves(w: World, thread: Thread, k: nat)
    requires Conserved(w, thread) && WellFormed(w) && k < |w.chain|
    ensures Conserved(Done(w, thread, k).0, thread)
  {
    hide SetPercentage, Reset, Conserved;
    var s := w.chain[k];
    if s.report && s.current < s.steps {
      var u := Advanced(w, k, s.current + 1);
      KeepsLocks(w, u, thread);
      var percentage := DonePercentage(u.chain[k]);
      SetPercentageConserves(u, thread, k, percentage);
      var v := SetPercentage(u, thread, k, percentage).0;
      if k + 1 < |v.chain| {
        ResetConserves(v, thread, k + 1);
      }
    }
  }

  lemma FinishedConserves(w: World, thread: Thread, k: nat)
    requires Conserved(w, thread) && WellFormed(w) && k < |w.chain|
    ensures Conserved(Finished(w, thread, k), thread)
  {
    hide SetPercentage, Conserved;
    var u := Advanced(w, k, w.chain[k].steps);
    KeepsLocks(w, u, thread);
    SetPercentageConserves(u, thread, k, 100);
  }

  /** A call that another thread makes on the lock object, and that does not fail to delete a file. */
  lemma ForeignConserves(w: World, thread: Thread, op: Op)
    requires Conserved(w, thread) && op.thread != thread && !Fails(w.table, op)
    ensures Conserved(w.(table := Apply(w.table, op)), thread)
  {
    hide Take, Release;
    match op
    case TakeOp(other, lockType, mode, claimable) =>
      TakeKeepsValid(w.table, other, lockType, mode, claimable);
      forall id ensures Share(Apply(w.table, op), thread, id) == Share(w.table, thread, id) {
        TakeAccounts(w.table, other, lockType, mode, claimable, id);
      }
    case ReleaseOp(other, released, deletable) =>
      ReleaseKeepsValid(w.table, other, released, deletable);
      forall id ensures Share(Apply(w.table, op), thread, id) == Share(w.table, thread, id) {
        ReleaseAccounts(w.table, other, released, deletable, id);
      }
  }
}
