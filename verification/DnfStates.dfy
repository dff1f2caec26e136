/** The progress state of dnf-state.cpp as an object. A state has at most one child; the child
  calls its listener when its percentage changes, and all states share one lock object.

  Every method takes the chain it is part of, its own position in it and the values the chain
  shows as ghost arguments, and is proved to do to the whole chain and to the lock table what the
  function of the same name in StateSpec says.
 */
module DnfStates {
  import opened Options
  import opened LockTable
  import Spec = StateSpec

  class DnfState {
    const reportProgress: bool
    const lock: DnfLock
    var current: nat
    var lastPercentage: nat
    var steps: nat
    var stepData: seq<nat>
    var child: DnfState?
    var listener: DnfState?
    var lockIds: seq<nat>
    ghost var emitted: seq<nat>

    constructor (reportProgress: bool, lock: DnfLock)
      ensures this.reportProgress == reportProgress && this.lock == lock
      ensures child == null && listener == null
      ensures Snapshot() == Spec.Fresh(reportProgress)
    {
      this.reportProgress, this.lock := reportProgress, lock;
      current, lastPercentage, steps, stepData := 0, 0, 0, [];
      child, listener, lockIds, emitted := null, null, [], [];
    }

    ghost function Snapshot(): Spec.Snapshot
      reads this
    {
      Spec.Snapshot(reportProgress, current, lastPercentage, steps, stepData, lockIds, emitted)
    }

    // ----------------------------------------------------------------- locks

    method TakeLock(ghost chain: seq<DnfState>, ghost w: Spec.World, ghost k: nat,
                    thread: Thread, lockType: LockType, mode: LockMode, claimable: bool)
        returns (ok: bool)
      requires Shows(chain, lock, w) && k < |chain| && chain[k] == this
      modifies this`lockIds, lock
      ensures (var r := Spec.TakeLock(w, thread, k, lockType, mode, claimable);
               ok == r.1 && Shows(chain, lock, r.0))
    {
      hide Take, Shows;
      Known(chain, lock, w, k);
      var id := Acquire(chain, w, thread, lockType, mode, claimable);
      if id == 0 {
        return false;
      }
      StoreLock(chain, w.(table := Take(w.table, thread, lockType, mode, claimable).0), k, id);
      ok := true;
    }

    /** Takes from the lock object, which no state of the chain is. */
    method Acquire(ghost chain: seq<DnfState>, ghost w: Spec.World,
                   thread: Thread, lockType: LockType, mode: LockMode, claimable: bool)
        returns (id: nat)
      requires Shows(chain, lock, w)
      modifies lock
      ensures id == Take(w.table, thread, lockType, mode, claimable).1
      ensures Shows(chain, lock, w.(table := Take(w.table, thread, lockType, mode, claimable).0))
    {
      hide Take;
      id := lock.TakeLock(thread, lockType, mode, claimable);
    }

    method StoreLock(ghost chain: seq<DnfState>, ghost w: Spec.World, ghost k: nat, id: nat)
      requires Shows(chain, lock, w) && k < |chain| && chain[k] == this
      modifies this`lockIds
      ensures Shows(chain, lock, w.(chain := w.chain[k := w.chain[k].(lockIds := w.chain[k].lockIds + [id])]))
    {
      lockIds := lockIds + [id];
    }

    method ReleaseLocks(ghost chain: seq<DnfState>, ghost w: Spec.World, ghost k: nat, thread: Thread)
        returns (ok: bool)
      requires Shows(chain, lock, w) && k < |chain| && chain[k] == this
      modifies chain[k..], lock
      ensures ok == Spec.ReleaseLocks(w, thread, k).1
      ensures Shows(chain, lock, Spec.ReleaseLocks(w, thread, k).0)
      decreases |chain| - k
    {
      hide Spec.ReleaseIds;
      assert Snapshot() == w.chain[k];
      ghost var v := w;
      if child != null {
        assert chain[k..][1..] == chain[k + 1..];
        v := Spec.ReleaseLocks(w, thread, k + 1).0;
        var _ := child.ReleaseLocks(chain, w, k + 1, thread);
      }
      ok := ReleaseOwn(chain, v, k, thread);
    }

    method ReleaseOwn(ghost chain: seq<DnfState>, ghost w: Spec.World, ghost k: nat, thread: Thread) returns (ok: bool)
      requires Shows(chain, lock, w) && k < |chain| && chain[k] == this
      modifies this`lockIds, lock
      ensures var (t, all) := Spec.ReleaseIds(w.table, thread, w.chain[k].lockIds);
        && ok == all
        && Shows(chain, lock, Spec.World(if all then w.chain[k := w.chain[k].(lockIds := [])] else w.chain, t))
    {
      hide Spec.ReleaseIds;
      assert Snapshot() == w.chain[k];
      ok := ReleaseEach(thread);
      if ok {
        lockIds := [];
      }
    }

    method ReleaseEach(thread: Thread) returns (ok: bool)
      modifies lock
      ensures (lock.Contents(), ok) == Spec.ReleaseIds(old(lock.Contents()), thread, lockIds)
    {
      hide Release;
      var i := 0;
      while i < |lockIds|
        invariant i <= |lockIds|
        invariant Spec.ReleaseIds(old(lock.Contents()), thread, lockIds) ==
                  Spec.ReleaseIds(lock.Contents(), thread, lockIds[i..])
      {
        var released := lock.ReleaseLock(thread, lockIds[i], true);
        if !released {
          return false;
        }
        assert lockIds[i..][1..] == lockIds[i + 1..];
        i := i + 1;
      }
      ok := true;
    }

    // -------------------------------------------------------------- progress

    method SetPercentage(ghost chain: seq<DnfState>, ghost w: Spec.World, ghost k: nat, thread: Thread, percentage: nat)
        returns (ok: bool)
      requires Shows(chain, lock, w) && k < |chain| && chain[k] == this && Spec.WellFormed(w)
      modifies chain, lock
      ensures ok == Spec.SetPercentage(w, thread, k, percentage).1
      ensures Shows(chain, lock, Spec.SetPercentage(w, thread, k, percentage).0)
      decreases k, 0
    {
      hide Spec.ReleaseLocks, Spec.ChildPercentageChanged, Shows;
      Known(chain, lock, w, k);
      if !reportProgress {
        return true;
      }
      if percentage == lastPercentage {
        return false;
      }
      if percentage > 100 {
        return false;
      }
      if percentage < lastPercentage {
        return false;
      }
      ghost var v := w;
      if percentage == 100 {
        var released := ReleaseLocks(chain, w, k, thread);
        v := Spec.ReleaseLocks(w, thread, k).0;
        if !released {
          return false;
        }
      }
      Emit(chain, v, k, percentage);
      ghost var u := Spec.Emitted(v, k, percentage);
      Known(chain, lock, u, k);
      if listener != null {
        listener.ChildPercentageChanged(chain, u, k - 1, thread, percentage);
      }
      ok := true;
    }

    method Emit(ghost chain: seq<DnfState>, ghost w: Spec.World, ghost k: nat, percentage: nat)
      requires Shows(chain, lock, w) && k < |chain| && chain[k] == this
      modifies this`lastPercentage, this`emitted
      ensures Shows(chain, lock, Spec.Emitted(w, k, percentage))
    {
      lastPercentage := percentage;
      emitted := emitted + [percentage];
    }

    method ChildPercentageChanged(ghost chain: seq<DnfState>, ghost w: Spec.World, ghost k: nat, thread: Thread,
                                  percentage: nat)
      requires Shows(chain, lock, w) && k < |chain| && chain[k] == this && Spec.WellFormed(w)
      requires percentage <= 100
      modifies chain, lock
      ensures Shows(chain, lock, Spec.ChildPercentageChanged(w, thread, k, percentage))
      decreases k, 1
    {
      hide Spec.ParentPercentage, Spec.SetPercentage;
      assert Snapshot() == w.chain[k];
      var own := ParentPercentage(percentage);
      if own.Some? {
        var _ := SetPercentage(chain, w, k, thread, own.value);
      }
    }

    /** The percentage to set when the child reports this one, None when it is ignored. */
    method ParentPercentage(percentage: nat) returns (own: Option<nat>)
      requires percentage <= 100 && (stepData == [] || steps <= |stepData|)
      ensures own == Spec.ParentPercentage(Snapshot(), percentage)
    {
      hide Spec.Interpolate, Spec.Floor;
      if steps == 1 {
        return Some(percentage);
      }
      if steps == 0 {
        return None;
      }
      if current >= steps {
        return None;
      }
      if stepData != [] {
        if current == 0 {
          return Some(FromZero(stepData[current], percentage));
        }
        return Some(Spec.Interpolate(stepData[current - 1], stepData[current], percentage));
      }
      if steps > 10000 {
        return None;
      }
      own := Some(Spec.Floor(100 * current + percentage, steps));
    }

    method SetNumberSteps(ghost chain: seq<DnfState>, ghost w: Spec.World, ghost k: nat, steps: nat) returns (ok: bool)
      requires Shows(chain, lock, w) && k < |chain| && chain[k] == this
      modifies this`steps
      ensures (var r := Spec.SetNumberSteps(w, k, steps); ok == r.1 && Shows(chain, lock, r.0))
    {
      assert Snapshot() == w.chain[k];
      if steps == 0 {
        return true;
      }
      if !reportProgress {
        return true;
      }
      if this.steps != 0 {
        return false;
      }
      this.steps := steps;
      ok := true;
    }

    method SetSteps(ghost chain: seq<DnfState>, ghost w: Spec.World, ghost k: nat, weights: seq<Spec.Gint>)
        returns (ok: bool)
      requires Shows(chain, lock, w) && k < |chain| && chain[k] == this
      requires weights != []
      modifies this`steps, this`stepData
      ensures (var r := Spec.SetSteps(w, k, weights); ok == r.1 && Shows(chain, lock, r.0))
    {
      assert Snapshot() == w.chain[k];
      if !reportProgress {
        return true;
      }
      var total := 0;
      for i := 0 to |weights|
        invariant total == Spec.Total(weights[..i]) % Spec.GUINT_RANGE
      {
        assert weights[..i + 1][..i] == weights[..i];
        total := (total + weights[i]) % Spec.GUINT_RANGE;
      }
      assert weights[..|weights|] == weights;
      if total != 100 {
        return false;
      }
      ok := SetNumberSteps(chain, w, k, |weights|);
      if !ok {
        return;
      }
      SaveWeights(weights);
    }

    method SaveWeights(weights: seq<Spec.Gint>)
      modifies this`stepData
      ensures stepData == Spec.Cumulative(weights)
    {
      hide Spec.Total, Spec.Cumulative;
      var total := 0;
      stepData := [];
      Sums([], 0);
      for i := 0 to |weights|
        invariant total == Spec.Total(weights[..i]) % Spec.GUINT_RANGE
        invariant stepData == Spec.Cumulative(weights[..i])
      {
        assert weights[..i + 1] == weights[..i] + [weights[i]];
        Sums(weights[..i], weights[i]);
        total := (total + weights[i]) % Spec.GUINT_RANGE;
        stepData := stepData + [total];
      }
      assert weights[..|weights|] == weights;
    }

    method Done(ghost chain: seq<DnfState>, ghost w: Spec.World, ghost k: nat, thread: Thread)
        returns (ok: bool, ghost after: seq<DnfState>)
      requires Shows(chain, lock, w) && k < |chain| && chain[k] == this && Spec.WellFormed(w)
      modifies chain, lock
      ensures after <= chain
      ensures ok == Spec.Done(w, thread, k).1
      ensures Shows(after, lock, Spec.Done(w, thread, k).0)
    {
      hide Spec.SetPercentage, Spec.Reset, Shows, Spec.DonePercentage;
      Known(chain, lock, w, k);
      after := chain;
      if !reportProgress {
        return true, chain;
      }
      if steps == 0 {
        return false, chain;
      }
      if current >= steps {
        return false, chain;
      }
      ghost var u := Spec.Advanced(w, k, current + 1);
      SetCurrent(chain, w, k, current + 1);
      Known(chain, lock, u, k);
      var percentage := DonePercentage();
      var _ := SetPercentage(chain, u, k, thread, percentage);
      Known(chain, lock, Spec.SetPercentage(u, thread, k, percentage).0, k);
      if child != null {
        after := child.Reset(chain, Spec.SetPercentage(u, thread, k, percentage).0, k + 1, thread);
      }
      ok := true;
    }

    /** The percentage after the step that was counted last. */
    method DonePercentage() returns (percentage: nat)
      requires 0 < current <= steps && (stepData == [] || steps <= |stepData|)
      ensures percentage == Spec.DonePercentage(Snapshot())
    {
      hide Spec.Floor;
      if stepData == [] {
        percentage := Spec.Floor(100 * current, steps);
      } else {
        percentage := stepData[current - 1];
      }
    }

    method SetCurrent(ghost chain: seq<DnfState>, ghost w: Spec.World, ghost k: nat, current: nat)
      requires Shows(chain, lock, w) && k < |chain| && chain[k] == this
      modifies this`current
      ensures this.current == current && Shows(chain, lock, Spec.Advanced(w, k, current))
    {
      this.current := current;
    }

    method Finished(ghost chain: seq<DnfState>, ghost w: Spec.World, ghost k: nat, thread: Thread)
      requires Shows(chain, lock, w) && k < |chain| && chain[k] == this && Spec.WellFormed(w)
      modifies chain, lock
      ensures Shows(chain, lock, Spec.Finished(w, thread, k))
    {
      hide Spec.SetPercentage, Shows;
      Known(chain, lock, w, k);
      if current == steps {
        return;
      }
      SetCurrent(chain, w, k, steps);
      var _ := SetPercentage(chain, Spec.Advanced(w, k, steps), k, thread, 100);
    }

    // ------------------------------------------------------------- the chain

    /** What unreferencing a child does: release the locks of the sub-chain and reset it. */
    method Finalize(ghost chain: seq<DnfState>, ghost w: Spec.World, ghost k: nat, thread: Thread)
      requires Shows(chain, lock, w) && k < |chain| && chain[k] == this && Spec.WellFormed(w)
      modifies chain[k..], lock
      ensures lock.Contents() == Spec.Finalize(w, thread, k).table
      decreases |chain| - k, 2
    {
      hide Spec.ReleaseLocks, Spec.Reset;
      assert Snapshot() == w.chain[k];
      var _ := ReleaseLocks(chain, w, k, thread);
      ghost var after := Reset(chain, Spec.ReleaseLocks(w, thread, k).0, k, thread);
    }

    /** Unreferences the child, if there is one; the chain then ends here. */
    method DropChild(ghost chain: seq<DnfState>, ghost w: Spec.World, ghost k: nat, thread: Thread)
      requires Shows(chain, lock, w) && k < |chain| && chain[k] == this && Spec.WellFormed(w)
      modifies this`child, chain[k + 1..], lock
      ensures Shows(chain[..k + 1], lock, if k + 1 < |chain| then Spec.Finalize(w, thread, k + 1) else w)
      decreases |chain| - k, 0
    {
      hide Spec.Finalize;
      assert Snapshot() == w.chain[k];
      if child != null {
        child.Finalize(chain, w, k + 1, thread);
        child := null;
      } else {
        assert chain[..k + 1] == chain;
      }
    }

    method ClearProgress(ghost chain: seq<DnfState>, ghost w: Spec.World, ghost k: nat)
      requires Shows(chain, lock, w) && k < |chain| && chain[k] == this
      modifies this`steps, this`current, this`lastPercentage, this`emitted
      ensures Shows(chain, lock, Spec.Cleared(w, k))
    {
      steps := 0;
      current := 0;
      lastPercentage := 0;
      emitted := [];
    }

    method Reset(ghost chain: seq<DnfState>, ghost w: Spec.World, ghost k: nat, thread: Thread)
        returns (ghost after: seq<DnfState>)
      requires Shows(chain, lock, w) && k < |chain| && chain[k] == this && Spec.WellFormed(w)
      modifies chain[k..], lock
      ensures after <= chain
      ensures Shows(after, lock, Spec.Reset(w, thread, k))
      decreases |chain| - k, 1
    {
      hide Spec.ReleaseLocks, Spec.Finalize, Shows;
      Known(chain, lock, w, k);
      if !reportProgress {
        return chain;
      }
      ClearProgress(chain, w, k);
      ghost var v := Spec.Cleared(w, k);
      assert chain[k..][1..] == chain[k + 1..];
      DropChild(chain, v, k, thread);
      after := chain[..k + 1];
      v := if k + 1 < |chain| then Spec.Finalize(v, thread, k + 1) else v;
      assert after[k..] == [this];
      var _ := ReleaseLocks(after, v, k, thread);
      ForgetWeights(after, Spec.ReleaseLocks(v, thread, k).0, k);
    }

    method ForgetWeights(ghost chain: seq<DnfState>, ghost w: Spec.World, ghost k: nat)
      requires Shows(chain, lock, w) && k < |chain| && chain[k] == this
      modifies this`stepData
      ensures Shows(chain, lock, w.(chain := w.chain[k := w.chain[k].(stepData := [])]))
    {
      stepData := [];
    }

    method GetChild(ghost chain: seq<DnfState>, ghost w: Spec.World, ghost k: nat, thread: Thread)
        returns (state: DnfState, ghost after: seq<DnfState>)
      requires Shows(chain, lock, w) && k < |chain| && chain[k] == this && Spec.WellFormed(w)
      modifies chain[k..], lock
      ensures Shows(after, lock, Spec.GetChild(w, thread, k))
      ensures if reportProgress then fresh(state) && after == chain[..k + 1] + [state]
              else state == this && after == chain
    {
      hide Spec.Finalize, Shows;
      Known(chain, lock, w, k);
      if !reportProgress {
        return this, chain;
      }
      assert chain[k..][1..] == chain[k + 1..];
      DropChild(chain, w, k, thread);
      ghost var v := if k + 1 < |chain| then Spec.Finalize(w, thread, k + 1) else w;
      Known(chain[..k + 1], lock, v, k);
      assert v.chain[..k + 1] == v.chain;
      state := AddChild(chain[..k + 1], v);
      after := chain[..k + 1] + [state];
    }

    /** A new child at the end of the chain. */
    method AddChild(ghost chain: seq<DnfState>, ghost w: Spec.World) returns (state: DnfState)
      requires Shows(chain, lock, w) && chain != [] && chain[|chain| - 1] == this
      modifies this`child
      ensures fresh(state) && Shows(chain + [state], lock, w.(chain := w.chain + [Spec.Fresh(true)]))
    {
      assert Snapshot() == w.chain[|chain| - 1];
      state := new DnfState(true, lock);
      state.listener := this;
      child := state;
    }
  }

  /** The interpolation when no step is done yet: the source does not store the leading zero. */
  function FromZero(b: nat, percentage: nat): (r: nat)
    requires percentage <= 100
    ensures r == Spec.Interpolate(0, b, percentage)
  {
    percentage * b % Spec.GUINT_RANGE / 100
  }

  /** The states form a chain, each the child of the one before it and heard by it, share the lock
      object, and show these values. */
  ghost predicate Shows(chain: seq<DnfState>, lock: DnfLock, w: Spec.World)
    reads chain, lock
  {
    && |w.chain| == |chain| && w.table == lock.Contents()
    && (forall i, j :: 0 <= i < j < |chain| ==> chain[i] != chain[j])
    && (forall i {:trigger w.chain[i]} {:trigger chain[i].Snapshot()} :: 0 <= i < |chain| ==>
          chain[i].Snapshot() == w.chain[i])
    && (forall i :: 0 <= i < |chain| ==> chain[i].lock == lock && chain[i] as object != lock)
    && (forall i {:trigger chain[i].child} :: 0 <= i < |chain| ==>
          chain[i].child == if i + 1 < |chain| then chain[i + 1] else null)
    && (forall i {:trigger chain[i].listener} :: 0 <= i < |chain| ==>
          chain[i].listener == if i > 0 then chain[i - 1] else null)
  }

  /** One more weight. */
  lemma Sums(weights: seq<Spec.Gint>, weight: Spec.Gint)
    ensures Spec.Total([]) == 0 && Spec.Cumulative([]) == []
    ensures Spec.Total(weights + [weight]) == Spec.Total(weights) + weight
    ensures Spec.Cumulative(weights + [weight]) ==
            Spec.Cumulative(weights) + [(Spec.Total(weights) + weight) % Spec.GUINT_RANGE]
  {
    assert (weights + [weight])[..|weights|] == weights;
  }

  /** What a chain shows of one state and its neighbours. */
  lemma Known(chain: seq<DnfState>, lock: DnfLock, w: Spec.World, k: nat)
    requires Shows(chain, lock, w) && k < |chain|
    ensures |w.chain| == |chain| && w.table == lock.Contents()
    ensures chain[k].Snapshot() == w.chain[k] && chain[k].lock == lock && chain[k] as object != lock
    ensures chain[k].child == (if k + 1 < |chain| then chain[k + 1] else null)
    ensures chain[k].listener == (if k > 0 then chain[k - 1] else null)
    ensures k + 1 < |chain| ==> chain[k + 1].lock == lock
    ensures k > 0 ==> chain[k - 1].lock == lock
  {
  }
}
