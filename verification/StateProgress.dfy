/** Progress of a chain of states: the percentage of a state stays in the band of its current
  step, and the percentages it emits rise strictly up to 100, whatever its children do.
 */
module StateProgress {
  import opened Options
  import opened LockTable
  import opened StateSpec
  import opened StateLocks

  /** The percentage at which k steps are done: the k-th prefix sum of the weights. */
  function Prefix(s: Snapshot, k: nat): nat
    requires k <= s.steps && (s.stepData == [] || s.steps <= |s.stepData|)
  {
    if k == 0 then 0 else if s.stepData == [] then Floor(100 * k, s.steps) else s.stepData[k - 1]
  }

  /** The cumulative weights never fall and end at 100. */
  predicate WellWeighted(s: Snapshot) {
    s.stepData != [] ==>
      && |s.stepData| == s.steps && s.stepData[s.steps - 1] == 100
      && forall i, j :: 0 <= i <= j < s.steps ==> s.stepData[i] <= s.stepData[j]
  }

  /** The emitted percentages rise strictly within 1..100; the last one is the current one. */
  predicate Rising(s: Snapshot) {
    && (forall i, j :: 0 <= i < j < |s.emitted| ==> s.emitted[i] < s.emitted[j])
    && (forall i :: 0 <= i < |s.emitted| ==> 0 < s.emitted[i] <= 100)
    && s.last == if s.emitted == [] then 0 else s.emitted[|s.emitted| - 1]
  }

  /** With this percentage, the state is between its current prefix sum and the next one, and at
      exactly 100 when all steps are done. */
  predicate InBand(s: Snapshot, percentage: nat)
    requires WellWeighted(s)
  {
    s.steps > 0 ==>
      && s.current <= s.steps
      && (if s.current == s.steps then percentage == 100
          else Prefix(s, s.current) <= percentage <= Prefix(s, s.current + 1))
  }

  predicate Sound(s: Snapshot) {
    && WellWeighted(s) && Rising(s) && (s.steps == 0 ==> s.current == 0)
    && (s.report ==> InBand(s, s.last))
  }

  predicate AllSound(chain: seq<Snapshot>) {
    forall i :: 0 <= i < |chain| ==> Sound(chain[i])
  }

  function Max(a: nat, b: nat): nat {
    if a < b then b else a
  }

  // ------------------------------------------------------------- prefix sums

  lemma FloorRises(a: nat, b: nat, d: nat)
    requires a <= b && d > 0
    ensures Floor(a, d) <= Floor(b, d)
  {
    var q, r := a / d, b / d;
    assert d * q <= a <= b < d * r + d;
    if q > r {
      Smaller(d, r + 1, q);
    }
  }

  lemma Smaller(d: nat, a: nat, b: nat)
    requires a <= b
    ensures d * a <= d * b
  {
  }

  lemma FloorExact(d: nat)
    requires d > 0
    ensures Floor(100 * d, d) == 100
  {
  }

  lemma PrefixRises(s: Snapshot, k: nat)
    requires WellWeighted(s) && k < s.steps
    ensures Prefix(s, k) <= Prefix(s, k + 1) <= 100
    ensures Prefix(s, s.steps) == 100
  {
    hide Floor;
    if s.stepData == [] {
      FloorRises(100 * k, 100 * (k + 1), s.steps);
      FloorRises(100 * (k + 1), 100 * s.steps, s.steps);
      FloorExact(s.steps);
    }
  }

  lemma FloorMeans(n: nat, d: nat)
    requires d > 0
    ensures d * Floor(n, d) <= n < d * (Floor(n, d) + 1)
  {
  }

  /** Of equal steps, the percentage after k of them is 100 k / steps, rounded down. */
  lemma EqualSteps(s: Snapshot, k: nat)
    requires s.stepData == [] && 0 < k <= s.steps
    ensures s.steps * Prefix(s, k) <= 100 * k < s.steps * (Prefix(s, k) + 1)
  {
    hide Floor;
    FloorMeans(100 * k, s.steps);
  }

  /** When a state ignores its child, and what it derives otherwise: with one step what the child has; with
      equal steps the share of the child added to the steps done; with weights the value at that percentage
      of the way between its prefix sums. All are rounded down. */
  lemma ParentPercentageExactly(s: Snapshot, percentage: nat)
    requires WellWeighted(s) && percentage <= 100
    ensures ParentPercentage(s, percentage).None? <==>
      s.steps == 0 || (s.steps > 1 && (s.current >= s.steps || (s.stepData == [] && s.steps > 10000)))
    ensures s.steps == 1 ==> ParentPercentage(s, percentage) == Some(percentage)
    ensures ParentPercentage(s, percentage).Some? && s.steps > 1 ==>
      var own := ParentPercentage(s, percentage).value;
      if s.stepData == [] then s.steps * own <= 100 * s.current + percentage < s.steps * (own + 1)
      else
        var a, b := Prefix(s, s.current), Prefix(s, s.current + 1);
        100 * own <= (100 - percentage) * a + percentage * b < 100 * (own + 1)
  {
    hide Floor, Interpolate;
    if s.steps > 1 && s.current < s.steps {
      if s.stepData == [] {
        FloorMeans(100 * s.current + percentage, s.steps);
      } else {
        PrefixRises(s, s.current);
        InterpolateMeans(Prefix(s, s.current), Prefix(s, s.current + 1), percentage);
      }
    }
  }

  lemma InterpolateMeans(a: nat, b: nat, percentage: nat)
    requires a <= b <= 100 && percentage <= 100
    ensures var own := Interpolate(a, b, percentage);
      100 * own <= (100 - percentage) * a + percentage * b < 100 * (own + 1)
  {
    Smaller(percentage, b, 100);
    Smaller(100 - percentage, a, 100);
    Hundredths((100 - percentage) * a, percentage * b);
  }

  lemma Hundredths(x: nat, y: nat)
    requires x + y <= 10000
    ensures 100 * ((x + y) % GUINT_RANGE / 100) <= x + y < 100 * ((x + y) % GUINT_RANGE / 100 + 1)
  {
  }

  /** What a state derives from its child's percentage lies in the band of its current step. */
  lemma ParentStaysInBand(s: Snapshot, percentage: nat)
    requires Sound(s) && s.report && percentage <= 100 && ParentPercentage(s, percentage).Some?
    ensures var own := ParentPercentage(s, percentage).value;
      own <= 100 && InBand(s, Max(s.last, own))
  {
    hide Floor, Interpolate;
    if s.steps == 1 {
      PrefixRises(s, 0);
    } else {
      PrefixRises(s, s.current);
      if s.stepData == [] {
        FloorRises(100 * s.current, 100 * s.current + percentage, s.steps);
        FloorRises(100 * s.current + percentage, 100 * (s.current + 1), s.steps);
        FloorRises(0, 100 * s.current + percentage, s.steps);
      } else {
        Interpolated(if s.current == 0 then 0 else s.stepData[s.current - 1], s.stepData[s.current], percentage);
      }
    }
  }

  lemma Interpolated(a: nat, b: nat, percentage: nat)
    requires a <= b <= 100 && percentage <= 100
    ensures a <= Interpolate(a, b, percentage) <= b
  {
    var sum := (100 - percentage) * a + percentage * b;
    Smaller(percentage, a, b);
    Smaller(100 - percentage, a, b);
    Distributes(percentage, a);
    Distributes(percentage, b);
    assert 100 * a <= sum <= 100 * b;
    assert sum % GUINT_RANGE == sum;
  }

  lemma Distributes(percentage: nat, a: nat)
    requires percentage <= 100
    ensures (100 - percentage) * a + percentage * a == 100 * a
  {
  }

  // ------------------------------------------------------------- percentages

  lemma ReleaseLocksKeepsSound(w: World, thread: Thread, k: nat)
    requires k < |w.chain|
    ensures forall i :: 0 <= i < |w.chain| ==> Sound(ReleaseLocks(w, thread, k).0.chain[i]) == Sound(w.chain[i])
    ensures ReleaseLocks(w, thread, k).0.chain[k].last == w.chain[k].last
    ensures ReleaseLocks(w, thread, k).0.chain[k].emitted == w.chain[k].emitted
  {
    hide ReleaseLocks;
    var v := ReleaseLocks(w, thread, k).0;
    forall i | 0 <= i < |w.chain| ensures Sound(v.chain[i]) == Sound(w.chain[i]) {
      SameSound(w.chain[i]);
    }
  }

  lemma SameSound(s: Snapshot)
    ensures Sound(s.(lockIds := [])) == Sound(s)
  {
    var t := s.(lockIds := []);
    if WellWeighted(s) {
      assert InBand(t, t.last) == InBand(s, s.last);
    }
  }

  lemma EmittedSound(s: Snapshot, percentage: nat)
    requires WellWeighted(s) && Rising(s) && (s.steps == 0 ==> s.current == 0)
    requires s.last < percentage <= 100 && (s.report ==> InBand(s, percentage))
    ensures Sound(s.(last := percentage, emitted := s.emitted + [percentage]))
  {
    var t := s.(last := percentage, emitted := s.emitted + [percentage]);
    assert InBand(t, percentage) == InBand(s, percentage);
  }

  lemma KeptSound(s: Snapshot, percentage: nat)
    requires WellWeighted(s) && Rising(s) && (s.steps == 0 ==> s.current == 0)
    requires percentage <= s.last && InBand(s, Max(s.last, percentage))
    ensures Sound(s)
  {
  }

  /** What no change of percentage touches. */
  predicate Kept(a: Snapshot, b: Snapshot) {
    && a.report == b.report && a.steps == b.steps && a.stepData == b.stepData && a.current == b.current
    && (a.lockIds == b.lockIds || a.lockIds == [])
  }

  /** What a change of percentage from the state at k outwards leaves alone. */
  predicate Framed(v: World, w: World, k: nat) {
    && |v.chain| == |w.chain|
    && (forall i :: 0 <= i < |w.chain| ==> Kept(v.chain[i], w.chain[i]))
    && (forall i :: k < i < |w.chain| ==>
          v.chain[i].last == w.chain[i].last && v.chain[i].emitted == w.chain[i].emitted)
  }

  lemma SameFramed(w: World, k: nat)
    ensures Framed(w, w, k)
  {
  }

  lemma FramedTwice(u: World, v: World, w: World, j: nat, k: nat)
    requires Framed(u, v, j) && Framed(v, w, k) && j <= k
    ensures Framed(u, w, k)
  {
  }

  lemma EmittedFramed(w: World, thread: Thread, k: nat, percentage: nat, releases: bool)
    requires k < |w.chain|
    ensures var v := if releases then ReleaseLocks(w, thread, k).0 else w;
            Framed(v, w, k) && Framed(Emitted(v, k, percentage), w, k)
  {
    hide ReleaseLocks;
  }

  lemma {:induction false} SetPercentageFrame(w: World, thread: Thread, k: nat, percentage: nat)
    requires WellFormed(w) && k < |w.chain|
    ensures Framed(SetPercentage(w, thread, k, percentage).0, w, k)
    decreases k, 0
  {
    hide ReleaseLocks, ChildPercentageChanged, Framed;
    SameFramed(w, k);
    EmittedFramed(w, thread, k, percentage, percentage == 100);
    var s := w.chain[k];
    if s.report && s.last < percentage <= 100 {
      var (v, ok) := if percentage == 100 then ReleaseLocks(w, thread, k) else (w, true);
      var u := Emitted(v, k, percentage);
      if ok && k > 0 {
        ChildPercentageChangedFrame(u, thread, k - 1, percentage);
        FramedTwice(SetPercentage(w, thread, k, percentage).0, u, w, k - 1, k);
      }
    }
  }

  lemma {:induction false} ChildPercentageChangedFrame(w: World, thread: Thread, k: nat, percentage: nat)
    requires WellFormed(w) && k < |w.chain| && percentage <= 100
    ensures Framed(ChildPercentageChanged(w, thread, k, percentage), w, k)
    decreases k, 1
  {
    hide SetPercentage, ParentPercentage, Framed;
    SameFramed(w, k);
    var own := ParentPercentage(w.chain[k], percentage);
    if own.Some? {
      SetPercentageFrame(w, thread, k, own.value);
    }
  }

  /** A percentage the state at k may take: the larger of it and the present one is in its band. */
  predicate Acceptable(s: Snapshot, percentage: nat) {
    && s.report && WellWeighted(s) && Rising(s) && (s.steps == 0 ==> s.current == 0)
    && percentage <= 100 && InBand(s, Max(s.last, percentage))
  }

  predicate OthersSound(chain: seq<Snapshot>, k: nat) {
    && (forall i :: 0 <= i < |chain| && i != k ==> Sound(chain[i]))
    && (forall i :: 0 <= i < k && i < |chain| ==> chain[i].report)
  }

  /** Setting an acceptable percentage keeps every state of the chain sound: the states above stay
      in their bands. */
  lemma {:induction false} SetPercentageSound(w: World, thread: Thread, k: nat, percentage: nat)
    requires WellFormed(w) && Conserved(w, thread) && k < |w.chain|
    requires OthersSound(w.chain, k) && Acceptable(w.chain[k], percentage)
    ensures AllSound(SetPercentage(w, thread, k, percentage).0.chain)
    decreases k, 0
  {
    hide ReleaseLocks, Conserved, ChildPercentageChanged, Sound, InBand, WellWeighted, Rising;
    var s := w.chain[k];
    if s.last < percentage {
      ReleaseLocksConserves(w, thread, k);
      ReleaseLocksKeepsSound(w, thread, k);
      var v := if percentage == 100 then ReleaseLocks(w, thread, k).0 else w;
      var u := Emitted(v, k, percentage);
      KeepsLocks(v, u, thread);
      EmittedUnlocked(s, percentage);
      assert AllSound(u.chain);
      if k > 0 {
        ChildPercentageChangedSound(u, thread, k - 1, percentage);
      }
    } else {
      KeptSound(s, percentage);
    }
  }

  lemma EmittedUnlocked(s: Snapshot, percentage: nat)
    requires Acceptable(s, percentage) && s.last < percentage
    ensures Sound(s.(last := percentage, emitted := s.emitted + [percentage]))
    ensures Sound(s.(lockIds := [], last := percentage, emitted := s.emitted + [percentage]))
  {
    EmittedSound(s, percentage);
    SameSound(s.(last := percentage, emitted := s.emitted + [percentage]));
  }

  lemma {:induction false} ChildPercentageChangedSound(w: World, thread: Thread, k: nat, percentage: nat)
    requires WellFormed(w) && Conserved(w, thread) && k < |w.chain| && percentage <= 100
    requires AllSound(w.chain) && forall i :: 0 <= i <= k ==> w.chain[i].report
    ensures AllSound(ChildPercentageChanged(w, thread, k, percentage).chain)
    decreases k, 1
  {
    hide SetPercentage, ParentPercentage, Conserved;
    var own := ParentPercentage(w.chain[k], percentage);
    if own.Some? {
      ParentStaysInBand(w.chain[k], percentage);
      SetPercentageSound(w, thread, k, own.value);
    }
  }

  /** The state itself then shows the larger percentage; at 100 it and all below hold no lock. */
  lemma SetPercentageTakes(w: World, thread: Thread, k: nat, percentage: nat)
    requires WellFormed(w) && Conserved(w, thread) && k < |w.chain| && w.chain[k].report && percentage <= 100
    ensures var v := SetPercentage(w, thread, k, percentage).0;
      && v.chain[k].last == Max(w.chain[k].last, percentage)
      && (percentage == 100 && w.chain[k].last < 100 ==>
            forall i :: k <= i < |w.chain| ==> v.chain[i].lockIds == [])
  {
    hide ReleaseLocks, Conserved, ChildPercentageChanged;
    var s := w.chain[k];
    if s.last < percentage {
      ReleaseLocksConserves(w, thread, k);
      var v := if percentage == 100 then ReleaseLocks(w, thread, k).0 else w;
      var u := Emitted(v, k, percentage);
      if k > 0 {
        ChildPercentageChangedFrame(u, thread, k - 1, percentage);
      }
    }
  }

  /** The percentage of a state once it has heard of its child's. */
  function Heard(s: Snapshot, percentage: nat): nat
    requires (s.stepData == [] || s.steps <= |s.stepData|) && percentage <= 100
  {
    match ParentPercentage(s, percentage)
    case None => s.last
    case Some(own) => if own <= 100 then Max(s.last, own) else s.last
  }

  /** The state has emitted its new percentage if it changed, and else nothing. */
  predicate EmitsChange(t: Snapshot, s: Snapshot) {
    t.emitted == if t.last == s.last then s.emitted else s.emitted + [t.last]
  }

  /** From the state at k outwards, each state has heard of the one inside it if that changed. */
  predicate Follows(v: World, w: World, k: nat)
    requires WellFormed(w) && |v.chain| == |w.chain| && k < |w.chain|
  {
    EmitsChange(v.chain[k], w.chain[k]) && forall j :: 0 <= j < k ==> FollowsAt(v, w, j)
  }

  /** The state at j has heard of the one at j + 1 if that changed. */
  predicate FollowsAt(v: World, w: World, j: int)
    requires WellFormed(w) && |v.chain| == |w.chain| && 0 <= j < |w.chain| - 1
  {
    && EmitsChange(v.chain[j], w.chain[j])
    && v.chain[j + 1].last <= 100
    && v.chain[j].last == if v.chain[j + 1].last == w.chain[j + 1].last then w.chain[j].last
                          else Heard(w.chain[j], v.chain[j + 1].last)
  }

  predicate Reporting(w: World, k: nat)
    requires k < |w.chain|
  {
    forall i :: 0 <= i <= k ==> w.chain[i].report && w.chain[i].last <= 100
  }

  lemma FollowsFrom(v: World, u: World, w: World, k: nat)
    requires WellFormed(w) && WellFormed(u) && |v.chain| == |w.chain| == |u.chain| && 0 < k < |w.chain|
    requires u.chain[..k] == w.chain[..k] && Follows(v, u, k - 1)
    requires EmitsChange(v.chain[k], w.chain[k]) && v.chain[k].last <= 100 && v.chain[k].last != w.chain[k].last
    requires v.chain[k - 1].last == Heard(w.chain[k - 1], v.chain[k].last)
    ensures Follows(v, w, k)
  {
    hide Heard, EmitsChange;
    assert forall j :: 0 <= j < k ==> u.chain[j] == u.chain[..k][j] == w.chain[..k][j];
    forall j | 0 <= j < k ensures FollowsAt(v, w, j) {
      if j < k - 1 {
        assert FollowsAt(v, u, j);
      }
    }
  }

  lemma FollowsNothing(v: World, w: World, k: nat)
    requires WellFormed(w) && |v.chain| == |w.chain| && 0 < k < |w.chain| && Reporting(w, k)
    requires v.chain[..k] == w.chain[..k]
    requires EmitsChange(v.chain[k], w.chain[k]) && v.chain[k].last <= 100 && v.chain[k].last != w.chain[k].last
    requires Heard(w.chain[k - 1], v.chain[k].last) == w.chain[k - 1].last
    ensures Follows(v, w, k)
  {
    hide Heard;
    assert forall j :: 0 <= j < k ==> v.chain[j] == v.chain[..k][j] == w.chain[..k][j];
  }

  /** A percentage that rises is emitted, and every state outside follows: it takes what it derives from the
      state inside it, if that has changed and this is more than it has. */
  lemma {:induction false} ChainFollows(w: World, thread: Thread, k: nat, percentage: nat)
    requires WellFormed(w) && Conserved(w, thread) && k < |w.chain| && Reporting(w, k)
    requires w.chain[k].last < percentage <= 100
    ensures var v := SetPercentage(w, thread, k, percentage).0;
            v.chain[k].last == percentage && Follows(v, w, k)
    decreases k, 1
  {
    hide ReleaseLocks, Conserved, ChildPercentageChanged, ParentPercentage, Reporting, Follows;
    ReleaseLocksConserves(w, thread, k);
    var v0 := if percentage == 100 then ReleaseLocks(w, thread, k).0 else w;
    var u := Emitted(v0, k, percentage);
    KeepsLocks(v0, u, thread);
    ReportingParts(w, k);
    if k == 0 {
      FollowsAtTop(u, w);
    } else {
      OuterFollows(w, u, thread, k, percentage);
    }
  }

  lemma ReportingParts(w: World, k: nat)
    requires k < |w.chain| && Reporting(w, k)
    ensures w.chain[k].report && (k > 0 ==> Reporting(w, k - 1))
  {
  }

  lemma FollowsAtTop(v: World, w: World)
    requires WellFormed(w) && |v.chain| == |w.chain| > 0 && EmitsChange(v.chain[0], w.chain[0])
    ensures Follows(v, w, 0)
  {
  }

  lemma {:induction false} OuterFollows(w: World, u: World, thread: Thread, k: nat, percentage: nat)
    requires WellFormed(w) && WellFormed(u) && Conserved(u, thread) && |u.chain| == |w.chain|
    requires 0 < k < |w.chain| && Reporting(w, k) && w.chain[k].last < percentage <= 100
    requires u.chain[..k] == w.chain[..k]
    requires u.chain[k].last == percentage && u.chain[k].emitted == w.chain[k].emitted + [percentage]
    ensures var v := ChildPercentageChanged(u, thread, k - 1, percentage);
            v.chain[k].last == percentage && Follows(v, w, k)
    decreases k, 0
  {
    hide ReleaseLocks, Conserved, SetPercentage, ParentPercentage, Follows, Framed;
    assert u.chain[k - 1] == u.chain[..k][k - 1] == w.chain[..k][k - 1] == w.chain[k - 1];
    var v := ChildPercentageChanged(u, thread, k - 1, percentage);
    ChildPercentageChangedFrame(u, thread, k - 1, percentage);
    FramedInside(v, u, k - 1, k);
    var own := ParentPercentage(w.chain[k - 1], percentage);
    if own.Some? && w.chain[k - 1].last < own.value <= 100 {
      SameReporting(u, w, k);
      ChainFollows(u, thread, k - 1, own.value);
      FollowsFrom(v, u, w, k);
    } else {
      if own.Some? {
        RefusedChanges(u, thread, k - 1, own.value);
      }
      FollowsNothing(v, w, k);
    }
  }

  lemma SameReporting(u: World, w: World, k: nat)
    requires 0 < k < |w.chain| == |u.chain| && Reporting(w, k) && u.chain[..k] == w.chain[..k]
    ensures Reporting(u, k - 1)
  {
    assert forall j :: 0 <= j < k ==> u.chain[j] == u.chain[..k][j] == w.chain[..k][j] == w.chain[j];
  }

  lemma FramedInside(v: World, w: World, k: nat, i: nat)
    requires Framed(v, w, k) && k < i < |w.chain|
    ensures |v.chain| == |w.chain| && v.chain[i].last == w.chain[i].last && v.chain[i].emitted == w.chain[i].emitted
  {
  }

  /** A percentage that does not rise, or is too large, is refused; a state that does not report ignores it.
      Neither changes anything. */
  lemma RefusedChanges(w: World, thread: Thread, k: nat, percentage: nat)
    requires WellFormed(w) && k < |w.chain| && (!w.chain[k].report || !(w.chain[k].last < percentage <= 100))
    ensures SetPercentage(w, thread, k, percentage) == (w, !w.chain[k].report)
  {
  }
}
