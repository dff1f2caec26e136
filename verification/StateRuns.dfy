/** Whole runs of calls on the progress states of one thread, beside any calls other threads make
  on the shared lock object.
 */
module StateRuns {
  import opened Options
  import opened LockTable
  import opened LockAccounting
  import opened StateSpec
  import opened StateLocks
  import opened StateProgress

  datatype Call =
    | TakeLockCall(k: nat, lockType: LockType, mode: LockMode, claimable: bool)
    | ReleaseLocksCall(k: nat)
    | SetNumberStepsCall(k: nat, steps: nat)
    | SetStepsCall(k: nat, weights: seq<Gint>)
    | SetPercentageCall(k: nat, percentage: nat)
    | DoneCall(k: nat)
    | FinishedCall(k: nat)
    | GetChildCall(k: nat)
    | ResetCall(k: nat)
    | ForeignCall(op: Op)

  /** The call addresses a state of the chain, or comes from another thread and does not fail to delete a
      lock file. */
  predicate Possible(w: World, thread: Thread, call: Call) {
    if call.ForeignCall? then call.op.thread != thread && !Fails(w.table, call.op)
    else call.k < |w.chain|
  }

  /** No weight is negative, and they add up to 100. */
  predicate AddUp(weights: seq<Gint>) {
    (forall i :: 0 <= i < |weights| ==> weights[i] >= 0) && Total(weights) == 100
  }

  /** The sum that the source computes of the weights is 100. */
  predicate Accepted(weights: seq<Gint>) {
    weights != [] && Total(weights) % GUINT_RANGE == 100
  }

  /** The caller keeps to the documented use: weights that really add up to 100 if they are accepted,
      steps set before any percentage, and a percentage set by hand only on a state without steps. */
  predicate Disciplined(w: World, call: Call) {
    match call
    case SetNumberStepsCall(k, _) => k < |w.chain| ==> w.chain[k].last == 0
    case SetStepsCall(k, weights) => k < |w.chain| ==> w.chain[k].last == 0 && (Accepted(weights) ==> AddUp(weights))
    case SetPercentageCall(k, _) => k < |w.chain| ==> w.chain[k].steps == 0
    case _ => true
  }

  function Perform(w: World, thread: Thread, call: Call): World
    requires WellFormed(w) && Possible(w, thread, call)
  {
    match call
    case TakeLockCall(k, lockType, mode, claimable) => TakeLock(w, thread, k, lockType, mode, claimable).0
    case ReleaseLocksCall(k) => ReleaseLocks(w, thread, k).0
    case SetNumberStepsCall(k, steps) => SetNumberSteps(w, k, steps).0
    case SetStepsCall(k, weights) => SetSteps(w, k, weights).0
    case SetPercentageCall(k, percentage) => SetPercentage(w, thread, k, percentage).0
    case DoneCall(k) => Done(w, thread, k).0
    case FinishedCall(k) => Finished(w, thread, k)
    case GetChildCall(k) => GetChild(w, thread, k)
    case ResetCall(k) => Reset(w, thread, k)
    case ForeignCall(op) => w.(table := Apply(w.table, op))
  }

  /** The number of steps is never set twice without a reset, so weights keep their number. */
  predicate Shaped(w: World) {
    WellFormed(w) && forall i :: 0 <= i < |w.chain| && w.chain[i].steps == 0 ==> w.chain[i].stepData == []
  }

  // ------------------------------------------------------------------ sound

  ghost predicate Good(w: World, thread: Thread) {
    && WellFormed(w) && Conserved(w, thread) && AllSound(w.chain)
    && forall i :: 0 <= i < |w.chain| ==> w.chain[i].report || |w.chain| == 1
  }

  /** What the total of weights is. */
  lemma {:induction false} TotalMeans(a: seq<Gint>, b: seq<Gint>, weight: Gint)
    ensures Total([]) == 0 && Total([weight]) == weight
    ensures Total(a + b) == Total(a) + Total(b)
  {
    assert [weight][..0] == [];
    if b == [] {
      assert a + b == a;
    } else {
      var n := |b| - 1;
      TotalMeans(a, b[..n], weight);
      assert (a + b)[..|a + b| - 1] == a + b[..n];
    }
  }

  lemma {:induction false} CumulativeTotals(weights: seq<Gint>, i: nat)
    requires i < |weights|
    ensures Cumulative(weights)[i] == Total(weights[..i + 1]) % GUINT_RANGE
  {
    var n := |weights| - 1;
    if i < n {
      CumulativeTotals(weights[..n], i);
      assert weights[..n][..i + 1] == weights[..i + 1];
    } else {
      assert weights[..i + 1] == weights;
    }
  }

  lemma {:induction false} TotalRises(weights: seq<Gint>, i: nat, j: nat)
    requires i <= j <= |weights| && forall k :: 0 <= k < |weights| ==> weights[k] >= 0
    ensures 0 <= Total(weights[..i]) <= Total(weights[..j])
  {
    if i < j {
      TotalRises(weights, i, j - 1);
      assert weights[..j][..j - 1] == weights[..j - 1];
    } else if i > 0 {
      TotalRises(weights, i - 1, i - 1);
      assert weights[..i][..i - 1] == weights[..i - 1];
    }
  }

  lemma CumulativeIsWeighted(weights: seq<Gint>, s: Snapshot)
    requires weights != [] && AddUp(weights)
    requires s.stepData == Cumulative(weights) && s.steps == |weights|
    ensures WellWeighted(s)
  {
    hide Total, Cumulative;
    assert weights[..|weights|] == weights;
    forall i | 0 <= i < |weights| ensures s.stepData[i] == Total(weights[..i + 1]) {
      CumulativeTotals(weights, i);
      TotalRises(weights, i + 1, |weights|);
    }
    forall i, j | 0 <= i <= j < |weights| ensures s.stepData[i] <= s.stepData[j] {
      TotalRises(weights, i + 1, j + 1);
    }
  }

  /** Stored sums that never fall and end at 100 never wrapped around. */
  lemma {:induction false} NeverWrapped(weights: seq<Gint>, s: Snapshot, i: nat)
    requires i <= |weights| && weights != []
    requires s.stepData == Cumulative(weights) && s.steps == |weights| && WellWeighted(s)
    ensures Total(weights[..i]) == if i == 0 then 0 else s.stepData[i - 1]
    ensures forall k :: 0 <= k < i ==> weights[k] >= 0
  {
    if i > 0 {
      hide Cumulative;
      NeverWrapped(weights, s, i - 1);
      CumulativeTotals(weights, i - 1);
      assert weights[..i][..i - 1] == weights[..i - 1];
      assert s.stepData[i - 1] <= s.stepData[s.steps - 1] == 100;
    }
  }

  /** Of the weights that the source accepts, the stored sums are right exactly for those that are not
      negative and really add up to 100. */
  lemma WeightedExactly(weights: seq<Gint>, s: Snapshot)
    requires Accepted(weights) && s.stepData == Cumulative(weights) && s.steps == |weights|
    ensures WellWeighted(s) <==> AddUp(weights)
  {
    if WellWeighted(s) {
      NeverWrapped(weights, s, |weights|);
      assert weights[..|weights|] == weights;
    }
    if AddUp(weights) {
      CumulativeIsWeighted(weights, s);
    }
  }

  /** Setting steps by weights on a state that has neither steps nor a percentage is refused and changes
      nothing unless the weights are accepted, and then leaves the state sound exactly when they really
      add up to 100. */
  lemma SetStepsSoundExactly(w: World, k: nat, weights: seq<Gint>)
    requires k < |w.chain| && Sound(w.chain[k]) && w.chain[k].report
    requires w.chain[k].last == 0 && w.chain[k].steps == 0
    ensures var (v, ok) := SetSteps(w, k, weights);
            && (ok <==> Accepted(weights))
            && (!ok ==> v == w)
            && (ok ==> (Sound(v.chain[k]) <==> AddUp(weights)))
  {
    hide Total, Cumulative, WellWeighted, Rising, InBand;
    var s := w.chain[k];
    if Accepted(weights) {
      var t := s.(steps := |weights|, stepData := Cumulative(weights));
      assert SetSteps(w, k, weights).0.chain[k] == t;
      WeightedExactly(weights, t);
      if AddUp(weights) {
        SetStepsSound(s, weights);
      }
    }
  }

  /** The prefix sums of a state with weights that add up are those of its weights. */
  lemma PrefixIsTotal(weights: seq<Gint>, s: Snapshot, k: nat)
    requires weights != [] && AddUp(weights) && k <= |weights|
    requires s.stepData == Cumulative(weights) && s.steps == |weights|
    ensures Prefix(s, k) == Total(weights[..k])
  {
    hide Total, Cumulative;
    assert weights[..|weights|] == weights;
    TotalMeans([], [], 0);
    if k > 0 {
      CumulativeTotals(weights, k - 1);
      TotalRises(weights, k, |weights|);
    } else {
      assert weights[..0] == [];
    }
  }

  lemma SetNumberStepsSound(s: Snapshot, steps: nat)
    requires Sound(s) && s.last == 0 && s.steps == 0 && s.stepData == [] && steps > 0
    ensures Sound(s.(steps := steps))
  {
    var t := s.(steps := steps);
    assert Prefix(t, 0) == 0;
  }

  lemma SetStepsSound(s: Snapshot, weights: seq<Gint>)
    requires Sound(s) && s.last == 0 && s.steps == 0 && weights != [] && AddUp(weights)
    ensures Sound(s.(steps := |weights|, stepData := Cumulative(weights)))
  {
    var t := s.(steps := |weights|, stepData := Cumulative(weights));
    CumulativeIsWeighted(weights, t);
    assert Prefix(t, 0) == 0;
  }

  lemma NextStepAcceptable(s: Snapshot)
    requires Sound(s) && s.report && s.current < s.steps
    ensures var t := s.(current := s.current + 1);
      var done := DonePercentage(t);
      && done == Prefix(s, s.current + 1) && s.last <= done
      && Acceptable(t, done)
  {
    var t := s.(current := s.current + 1);
    PrefixRises(s, s.current);
    assert Prefix(t, t.current) == Prefix(s, t.current);
    if t.current < t.steps {
      PrefixRises(t, t.current);
    }
  }

  /** Counting a step and setting its percentage, before the child is reset. */
  lemma StepLands(w: World, thread: Thread, k: nat)
    requires Good(w, thread) && k < |w.chain|
    requires w.chain[k].report && w.chain[k].current < w.chain[k].steps
    ensures var u := Advanced(w, k, w.chain[k].current + 1);
      var v := SetPercentage(u, thread, k, DonePercentage(u.chain[k])).0;
      && AllSound(v.chain) && Conserved(v, thread)
      && v.chain[k].last == Prefix(w.chain[k], w.chain[k].current + 1)
      && (forall i :: 0 <= i < |w.chain| ==> Kept(v.chain[i], u.chain[i]))
  {
    hide SetPercentage, Conserved;
    var u := Advanced(w, k, w.chain[k].current + 1);
    KeepsLocks(w, u, thread);
    NextStepAcceptable(w.chain[k]);
    var percentage := DonePercentage(u.chain[k]);
    SetPercentageSound(u, thread, k, percentage);
    SetPercentageTakes(u, thread, k, percentage);
    SetPercentageFrame(u, thread, k, percentage);
    SetPercentageConserves(u, thread, k, percentage);
  }

  lemma FreshSound()
    ensures Sound(Fresh(true))
  {
  }

  /** A done step lands exactly on its prefix sum, at 100 after the last one, and the child, if
      there is one, is left reset and without children. */
  lemma DoneLands(w: World, thread: Thread, k: nat)
    requires Good(w, thread) && k < |w.chain|
    requires w.chain[k].report && w.chain[k].current < w.chain[k].steps
    ensures var (v, ok) := Done(w, thread, k);
      && ok && AllSound(v.chain) && k < |v.chain| == (if k + 1 < |w.chain| then k + 2 else k + 1)
      && v.chain[k].current == w.chain[k].current + 1
      && v.chain[k].last == Prefix(w.chain[k], w.chain[k].current + 1)
      && (v.chain[k].current == v.chain[k].steps ==> v.chain[k].last == 100)
      && (k + 1 < |w.chain| ==> v.chain[k + 1] == Fresh(true))
  {
    hide SetPercentage, Reset, Conserved, Rising, InBand;
    var s := w.chain[k];
    StepLands(w, thread, k);
    PrefixRises(s, s.current);
    FreshSound();
    var u := Advanced(w, k, s.current + 1);
    var v := SetPercentage(u, thread, k, DonePercentage(u.chain[k])).0;
    if k + 1 < |w.chain| {
      ResetFresh(v, thread, k + 1);
    }
  }

  /** Exactly when a done step is refused, without effect: no steps were set, or all are done. A state that
      does not report accepts it without effect. */
  lemma DoneExactly(w: World, thread: Thread, k: nat)
    requires WellFormed(w) && k < |w.chain|
    ensures var s, (v, ok) := w.chain[k], Done(w, thread, k);
      && (!ok <==> s.report && (s.steps == 0 || s.current >= s.steps))
      && (!ok || !s.report ==> v == w)
  {
    hide SetPercentage, Reset;
  }

  /** Finishing early: all steps are done, at 100, and nothing below holds a lock; the states outside follow.
      Nothing changes when all steps are done already. */
  lemma FinishedLands(w: World, thread: Thread, k: nat)
    requires Good(w, thread) && k < |w.chain|
    ensures var s, v := w.chain[k], Finished(w, thread, k);
      && |v.chain| == |w.chain| && v.chain[k].current == s.steps
      && (s.current == s.steps ==> v == w)
      && (s.current != s.steps && s.report ==> v.chain[k].last == 100)
      && (s.current != s.steps && s.report && s.last < 100 ==>
            forall i :: k <= i < |v.chain| ==> v.chain[i].lockIds == [])
  {
    hide SetPercentage, Conserved, Sound, Framed;
    var s := w.chain[k];
    if s.current != s.steps {
      var u := Advanced(w, k, s.steps);
      KeepsLocks(w, u, thread);
      SetPercentageFrame(u, thread, k, 100);
      FramedKeeps(SetPercentage(u, thread, k, 100).0, u, k);
      SoundLast(s);
      if s.report {
        SetPercentageTakes(u, thread, k, 100);
      }
    }
  }

  lemma SoundLast(s: Snapshot)
    requires Sound(s)
    ensures s.last <= 100
  {
  }

  lemma FramedKeeps(v: World, w: World, k: nat)
    requires Framed(v, w, k) && k < |w.chain|
    ensures |v.chain| == |w.chain| && v.chain[k].current == w.chain[k].current
  {
    assert Kept(v.chain[k], w.chain[k]);
  }

  /** Setting a number of steps: refused when it has been set, ignored when it is 0 or the state does not
      report, and nothing else changes. */
  lemma SetNumberStepsExactly(w: World, k: nat, steps: nat)
    requires k < |w.chain|
    ensures var s, (v, ok) := w.chain[k], SetNumberSteps(w, k, steps);
      && (!ok <==> steps != 0 && s.report && s.steps != 0)
      && v.table == w.table && |v.chain| == |w.chain|
      && (forall i :: 0 <= i < |w.chain| && i != k ==> v.chain[i] == w.chain[i])
      && v.chain[k].steps == (if s.report && s.steps == 0 then steps else s.steps)
      && v.chain[k].(steps := s.steps) == s
  {
  }

  /** Taking a lock through a state: exactly when the lock object grants it, the id is added to the state, and
      the thread has it once more. */
  lemma TakeLockStores(w: World, thread: Thread, k: nat, lockType: LockType, mode: LockMode, claimable: bool)
    requires Valid(w.table) && k < |w.chain|
    ensures var (t, id) := Take(w.table, thread, lockType, mode, claimable);
      var (v, ok) := TakeLock(w, thread, k, lockType, mode, claimable);
      && (ok <==> id != 0) && v.table == t && |v.chain| == |w.chain|
      && (forall i :: 0 <= i < |w.chain| && i != k ==> v.chain[i] == w.chain[i])
      && multiset(v.chain[k].lockIds) == multiset(w.chain[k].lockIds) + (if ok then multiset{id} else multiset{})
      && (ok ==> Share(t, thread, id) == (if Present(w.table, id) then Share(w.table, thread, id) else 0) + 1)
  {
    hide Take;
    var id := Take(w.table, thread, lockType, mode, claimable).1;
    TakeAccounts(w.table, thread, lockType, mode, claimable, id);
    assert multiset(w.chain[k].lockIds + [id]) == multiset(w.chain[k].lockIds) + multiset{id};
  }

  /** The sum of the weights is checked in unsigned arithmetic: weights that add up to 100 only
      after a wrap-around are accepted, and the first done step then has no valid percentage. */
  lemma WrappedWeights(w: World, thread: Thread)
    requires w.chain == [Fresh(true)]
    ensures var weights := [0x7FFF_FFFF, 0x7FFF_FFFF, 102];
      var (v, ok) := SetSteps(w, 0, weights);
      && ok && WellFormed(v)
      && Done(v, thread, 0).1 && Done(v, thread, 0).0.chain[0].current == 1 && Done(v, thread, 0).0.chain[0].last == 0
  {
    var weights := [0x7FFF_FFFF, 0x7FFF_FFFF, 102];
    var two, one := [0x7FFF_FFFF, 0x7FFF_FFFF], [0x7FFF_FFFF];
    assert weights[..2] == two && two[..1] == one && weights[..1] == one && one[..0] == [];
    assert Total(one) == 0x7FFF_FFFF;
    assert Total(two) == 0xFFFF_FFFE;
    assert Total(weights) == 0x1_0000_0064;
    CumulativeTotals(weights, 0);
    assert Cumulative(weights)[0] == 0x7FFF_FFFF;
  }

  /** A reset state is as good as new and its chain ends with it. */
  lemma ResetFresh(w: World, thread: Thread, k: nat)
    requires WellFormed(w) && Conserved(w, thread) && k < |w.chain| && w.chain[k].report
    ensures Reset(w, thread, k).chain == w.chain[..k] + [Fresh(true)]
  {
    hide ReleaseLocks, Finalize, Conserved;
    var cleared := Cleared(w, k);
    KeepsLocks(w, cleared, thread);
    var v := cleared;
    if k + 1 < |w.chain| {
      FinalizeConserves(cleared, thread, k + 1);
      v := Finalize(cleared, thread, k + 1);
    }
    ReleaseLocksConserves(v, thread, k);
    assert v.chain[k] == cleared.chain[k];
  }

  // ------------------------------------------------------- one call of a run

  lemma ResetShaped(w: World, thread: Thread, k: nat)
    requires Shaped(w) && k < |w.chain|
    ensures Shaped(Reset(w, thread, k))
  {
    hide ReleaseLocks, Finalize;
    if w.chain[k].report {
      var v := Reset(w, thread, k);
      forall i | 0 <= i < |v.chain| && v.chain[i].steps == 0 ensures v.chain[i].stepData == [] {
        if i < k {
          assert v.chain[i] == v.chain[..k][i] == w.chain[..k][i];
        }
      }
    }
  }

  lemma DoneShaped(w: World, thread: Thread, k: nat)
    requires Shaped(w) && k < |w.chain|
    ensures Shaped(Done(w, thread, k).0)
  {
    hide SetPercentage, Reset, Floor;
    var s := w.chain[k];
    if s.report && s.current < s.steps {
      var u := Advanced(w, k, s.current + 1);
      AdvancedShaped(w, k, s.current + 1);
      SetPercentageShaped(u, thread, k, DonePercentage(u.chain[k]));
      if k + 1 < |w.chain| {
        ResetShaped(SetPercentage(u, thread, k, DonePercentage(u.chain[k])).0, thread, k + 1);
      }
    }
  }

  lemma FramedShaped(v: World, w: World, k: nat)
    requires Framed(v, w, k) && Shaped(w)
    ensures Shaped(v)
  {
    assert forall i :: 0 <= i < |w.chain| ==> Kept(v.chain[i], w.chain[i]);
  }

  lemma SetPercentageShaped(w: World, thread: Thread, k: nat, percentage: nat)
    requires Shaped(w) && k < |w.chain|
    ensures Shaped(SetPercentage(w, thread, k, percentage).0)
  {
    hide SetPercentage, Framed, Shaped;
    ShapedParts(w);
    SetPercentageFrame(w, thread, k, percentage);
    FramedShaped(SetPercentage(w, thread, k, percentage).0, w, k);
  }

  lemma ShapedParts(w: World)
    requires Shaped(w)
    ensures WellFormed(w)
  {
  }

  lemma AdvancedShaped(w: World, k: nat, current: nat)
    requires Shaped(w) && k < |w.chain|
    ensures Shaped(Advanced(w, k, current))
  {
  }

  lemma FinishedShaped(w: World, thread: Thread, k: nat)
    requires Shaped(w) && k < |w.chain|
    ensures Shaped(Finished(w, thread, k))
  {
    hide SetPercentage, Shaped, Advanced;
    ShapedParts(w);
    AdvancedShaped(w, k, w.chain[k].steps);
    AdvancedLength(w, k, w.chain[k].steps);
    SetPercentageShaped(Advanced(w, k, w.chain[k].steps), thread, k, 100);
  }

  lemma AdvancedLength(w: World, k: nat, current: nat)
    requires k < |w.chain|
    ensures |Advanced(w, k, current).chain| == |w.chain|
  {
  }

  lemma PerformShaped(w: World, thread: Thread, call: Call)
    requires Shaped(w) && Possible(w, thread, call)
    ensures Shaped(Perform(w, thread, call))
  {
    hide ReleaseLocks, SetPercentage, Done, Finished, Reset, Take, Apply, Finalize;
    match call
    case SetPercentageCall(k, percentage) => SetPercentageShaped(w, thread, k, percentage);
    case DoneCall(k) => DoneShaped(w, thread, k);
    case FinishedCall(k) => FinishedShaped(w, thread, k);
    case ResetCall(k) => ResetShaped(w, thread, k);
    case _ =>
  }

  lemma PerformConserves(w: World, thread: Thread, call: Call)
    requires WellFormed(w) && Conserved(w, thread) && Possible(w, thread, call)
    ensures Conserved(Perform(w, thread, call), thread)
  {
    hide Conserved, Take, ReleaseLocks, SetPercentage, Done, Finished, GetChild, Reset, Apply;
    match call
    case TakeLockCall(k, lockType, mode, claimable) => TakeLockConserves(w, thread, k, lockType, mode, claimable);
    case ReleaseLocksCall(k) => ReleaseLocksConserves(w, thread, k);
    case SetNumberStepsCall(k, steps) => KeepsLocks(w, Perform(w, thread, call), thread);
    case SetStepsCall(k, weights) => KeepsLocks(w, Perform(w, thread, call), thread);
    case SetPercentageCall(k, percentage) => SetPercentageConserves(w, thread, k, percentage);
    case DoneCall(k) => DoneConserves(w, thread, k);
    case FinishedCall(k) => FinishedConserves(w, thread, k);
    case GetChildCall(k) => GetChildConserves(w, thread, k);
    case ResetCall(k) => ResetConserves(w, thread, k);
    case ForeignCall(op) => ForeignConserves(w, thread, op);
  }

  lemma SetPercentageGood(w: World, thread: Thread, k: nat, percentage: nat)
    requires Good(w, thread) && k < |w.chain| && w.chain[k].steps == 0
    ensures Good(SetPercentage(w, thread, k, percentage).0, thread)
  {
    hide Conserved, ReleaseLocks, ChildPercentageChanged, Framed;
    SetPercentageConserves(w, thread, k, percentage);
    SetPercentageFrame(w, thread, k, percentage);
    FramedReports(SetPercentage(w, thread, k, percentage).0, w, k);
    if w.chain[k].report && percentage <= 100 {
      SetPercentageSound(w, thread, k, percentage);
    }
  }

  lemma FinishedAcceptable(s: Snapshot)
    requires Sound(s)
    ensures if s.report then Acceptable(s.(current := s.steps), 100) else Sound(s.(current := s.steps))
  {
  }

  lemma FinishedGood(w: World, thread: Thread, k: nat)
    requires Good(w, thread) && k < |w.chain|
    ensures Good(Finished(w, thread, k), thread)
  {
    hide Conserved, ReleaseLocks, ChildPercentageChanged, Sound, Acceptable, Framed;
    var s := w.chain[k];
    if s.current != s.steps {
      var u := Advanced(w, k, s.steps);
      KeepsLocks(w, u, thread);
      SetPercentageConserves(u, thread, k, 100);
      SetPercentageFrame(u, thread, k, 100);
      FramedReports(SetPercentage(u, thread, k, 100).0, u, k);
      FinishedAcceptable(s);
      if s.report {
        SetPercentageSound(u, thread, k, 100);
      }
    }
  }

  lemma ResetGood(w: World, thread: Thread, k: nat)
    requires Good(w, thread) && k < |w.chain|
    ensures Good(Reset(w, thread, k), thread)
  {
    hide Conserved, Reset;
    ResetConserves(w, thread, k);
    if w.chain[k].report {
      ResetFresh(w, thread, k);
    } else {
      ResetSilent(w, thread, k);
    }
  }

  lemma ResetSilent(w: World, thread: Thread, k: nat)
    requires WellFormed(w) && k < |w.chain| && !w.chain[k].report
    ensures Reset(w, thread, k) == w
  {
  }

  lemma GetChildGood(w: World, thread: Thread, k: nat)
    requires Good(w, thread) && k < |w.chain|
    ensures Good(GetChild(w, thread, k), thread)
    ensures w.chain[k].report ==> GetChild(w, thread, k).chain == w.chain[..k + 1] + [Fresh(true)]
    ensures !w.chain[k].report ==> GetChild(w, thread, k) == w
  {
    hide Conserved, Finalize;
    GetChildConserves(w, thread, k);
  }

  lemma FramedReports(v: World, w: World, k: nat)
    requires Framed(v, w, k)
    ensures |v.chain| == |w.chain| && forall i :: 0 <= i < |w.chain| ==> v.chain[i].report == w.chain[i].report
  {
    assert forall i :: 0 <= i < |w.chain| ==> Kept(v.chain[i], w.chain[i]);
  }

  lemma DoneGood(w: World, thread: Thread, k: nat)
    requires Good(w, thread) && k < |w.chain|
    ensures Good(Done(w, thread, k).0, thread)
  {
    hide Conserved, SetPercentage, Reset, Floor, Rising, InBand, Framed;
    var s := w.chain[k];
    if s.report && s.current < s.steps {
      DoneConserves(w, thread, k);
      DoneLands(w, thread, k);
      var u := Advanced(w, k, s.current + 1);
      SetPercentageFrame(u, thread, k, DonePercentage(u.chain[k]));
      var v := SetPercentage(u, thread, k, DonePercentage(u.chain[k])).0;
      FramedReports(v, u, k);
      var done := Done(w, thread, k).0;
      forall i | 0 <= i < |done.chain| ensures done.chain[i].report || |done.chain| == 1 {
        if i <= k {
          assert done.chain[i] == v.chain[i];
        }
      }
    }
  }

  lemma SetStepsGood(w: World, thread: Thread, k: nat, weights: seq<Gint>)
    requires Good(w, thread) && k < |w.chain| && w.chain[k].last == 0
    requires Accepted(weights) ==> AddUp(weights)
    ensures Good(SetSteps(w, k, weights).0, thread)
  {
    hide Conserved, Sound;
    var v := SetSteps(w, k, weights).0;
    if v != w {
      KeepsLocks(w, v, thread);
      SetStepsSound(w.chain[k], weights);
    }
  }

  /** For a state without steps and percentage in a good chain: the chain stays good exactly when the
      weights are refused or really add up to 100. */
  lemma SetStepsGoodExactly(w: World, thread: Thread, k: nat, weights: seq<Gint>)
    requires Good(w, thread) && k < |w.chain| && w.chain[k].report
    requires w.chain[k].last == 0 && w.chain[k].steps == 0
    ensures Good(SetSteps(w, k, weights).0, thread) <==> (Accepted(weights) ==> AddUp(weights))
  {
    hide Conserved, Sound;
    SetStepsSoundExactly(w, k, weights);
    if Accepted(weights) ==> AddUp(weights) {
      SetStepsGood(w, thread, k, weights);
    }
  }

  lemma SetNumberStepsGood(w: World, thread: Thread, k: nat, steps: nat)
    requires Good(w, thread) && k < |w.chain| && w.chain[k].last == 0
    ensures Good(SetNumberSteps(w, k, steps).0, thread)
  {
    hide Conserved;
    var v := SetNumberSteps(w, k, steps).0;
    if v != w {
      KeepsLocks(w, v, thread);
      SetNumberStepsSound(w.chain[k], steps);
    }
  }

  lemma LocksOnlyGood(w: World, v: World, thread: Thread)
    requires Good(w, thread) && Conserved(v, thread) && |v.chain| == |w.chain|
    requires forall i :: 0 <= i < |w.chain| ==> v.chain[i].(lockIds := []) == w.chain[i].(lockIds := [])
    ensures Good(v, thread)
  {
    hide Conserved, Sound;
    forall i | 0 <= i < |w.chain| ensures Sound(v.chain[i]) && v.chain[i].report == w.chain[i].report
      && v.chain[i].stepData == w.chain[i].stepData && v.chain[i].steps == w.chain[i].steps
    {
      SameSound(v.chain[i]);
      SameSound(w.chain[i]);
      SameShape(v.chain[i], w.chain[i]);
    }
  }

  lemma SameShape(a: Snapshot, b: Snapshot)
    requires a.(lockIds := []) == b.(lockIds := [])
    ensures a.report == b.report && a.stepData == b.stepData && a.steps == b.steps
  {
    assert a.(lockIds := []).report == b.(lockIds := []).report;
    assert a.(lockIds := []).stepData == b.(lockIds := []).stepData;
    assert a.(lockIds := []).steps == b.(lockIds := []).steps;
  }

  lemma PerformGood(w: World, thread: Thread, call: Call)
    requires Good(w, thread) && Possible(w, thread, call) && Disciplined(w, call)
    ensures Good(Perform(w, thread, call), thread)
  {
    hide Good, Take, ReleaseLocks, SetPercentage, SetSteps, SetNumberSteps, Done, Finished, GetChild, Reset, Apply;
    GoodParts(w, thread);
    PerformConserves(w, thread, call);
    match call
    case TakeLockCall(k, lockType, mode, claimable) => LocksOnlyGood(w, Perform(w, thread, call), thread);
    case ReleaseLocksCall(k) => LocksOnlyGood(w, Perform(w, thread, call), thread);
    case SetNumberStepsCall(k, steps) => SetNumberStepsGood(w, thread, k, steps);
    case SetStepsCall(k, weights) => SetStepsGood(w, thread, k, weights);
    case SetPercentageCall(k, percentage) => SetPercentageGood(w, thread, k, percentage);
    case DoneCall(k) => DoneGood(w, thread, k);
    case FinishedCall(k) => FinishedGood(w, thread, k);
    case GetChildCall(k) => GetChildGood(w, thread, k);
    case ResetCall(k) => ResetGood(w, thread, k);
    case ForeignCall(op) => LocksOnlyGood(w, Perform(w, thread, call), thread);
  }

  lemma GoodParts(w: World, thread: Thread)
    requires Good(w, thread)
    ensures WellFormed(w) && Conserved(w, thread)
  {
  }

  // ------------------------------------------------------------------- runs

  /** The world after these calls, or None when one of them was not possible. */
  function Run(start: World, thread: Thread, calls: seq<Call>): (r: Option<World>)
    requires Shaped(start)
    ensures r.Some? ==> Shaped(r.value)
  {
    if calls == [] then Some(start)
    else
      match Run(start, thread, calls[..|calls| - 1])
      case None => None
      case Some(w) =>
        var call := calls[|calls| - 1];
        if !Possible(w, thread, call) then None
        else
          PerformShaped(w, thread, call);
          Some(Perform(w, thread, call))
  }

  /** Every call of the run kept to the documented use. */
  predicate RunDisciplined(start: World, thread: Thread, calls: seq<Call>)
    requires Shaped(start)
  {
    calls == [] ||
    (var before := Run(start, thread, calls[..|calls| - 1]);
     && RunDisciplined(start, thread, calls[..|calls| - 1])
     && (before.Some? ==> Disciplined(before.value, calls[|calls| - 1])))
  }

  /** A new outermost state, beside a table in which the thread holds nothing. */
  predicate Beginning(w: World, thread: Thread, report: bool) {
    w.chain == [Fresh(report)] && Valid(w.table) &&
    forall i :: 0 <= i < |w.table.items| ==> w.table.items[i].owner != thread
  }

  lemma BeginningConserved(w: World, thread: Thread, report: bool)
    requires Beginning(w, thread, report)
    ensures Conserved(w, thread) && Good(w, thread)
  {
    assert w.chain[..0] == [] && Held(w.chain) == Held([]) + multiset([]);
    forall id ensures Share(w.table, thread, id) == 0 {
      LookupIndex(w.table.items, id);
    }
  }

  /** In every run, however the calls are used and whatever other threads take and release, the
      count of each item the thread owns is the number of times its id is stored in the chain. */
  lemma {:induction false} LockConservation(start: World, thread: Thread, report: bool, calls: seq<Call>)
    requires Beginning(start, thread, report) && Run(start, thread, calls).Some?
    ensures Conserved(Run(start, thread, calls).value, thread)
  {
    hide Conserved, Perform;
    if calls == [] {
      BeginningConserved(start, thread, report);
    } else {
      LockConservation(start, thread, report, calls[..|calls| - 1]);
      PerformConserves(Run(start, thread, calls[..|calls| - 1]).value, thread, calls[|calls| - 1]);
    }
  }

  /** In every disciplined run each state of the chain is sound: in the band of its step, and its
      emitted percentages rise strictly up to 100. */
  lemma {:induction false} ProgressInvariant(start: World, thread: Thread, report: bool, calls: seq<Call>)
    requires Beginning(start, thread, report) && Run(start, thread, calls).Some?
    requires RunDisciplined(start, thread, calls)
    ensures Good(Run(start, thread, calls).value, thread)
  {
    hide Good, Perform;
    if calls == [] {
      BeginningConserved(start, thread, report);
    } else {
      ProgressInvariant(start, thread, report, calls[..|calls| - 1]);
      PerformGood(Run(start, thread, calls[..|calls| - 1]).value, thread, calls[|calls| - 1]);
    }
  }
}
