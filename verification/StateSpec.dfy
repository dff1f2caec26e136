/** What the calls of dnf-state.cpp do to a chain of progress states and to the lock table they
  share, as functions on values. Position 0 is the outermost state; the state at k + 1 is the
  child of the state at k and reports its percentage to it. DnfStates proves the class against
  these functions, StateLocks, StateProgress and StateRuns prove what they keep.

  Percentages of unweighted steps are computed with exact rationals, rounded down as the source
  rounds when it converts to an integer.
 */
module StateSpec {
  import opened Options
  import opened LockTable

  const GUINT_RANGE := 0x1_0000_0000

  /** One state. `stepData` holds the cumulative weights, [] for the null pointer; `emitted` the
      percentages the state has emitted since it was created or reset. */
  datatype Snapshot = Snapshot(
    report: bool,
    current: nat,
    last: nat,
    steps: nat,
    stepData: seq<nat>,
    lockIds: seq<nat>,
    emitted: seq<nat>)

  datatype World = World(chain: seq<Snapshot>, table: Table)

  function Fresh(report: bool): Snapshot {
    Snapshot(report, 0, 0, 0, [], [], [])
  }

  predicate WellFormed(w: World) {
    forall i :: 0 <= i < |w.chain| ==> w.chain[i].stepData == [] || w.chain[i].steps <= |w.chain[i].stepData|
  }

  // ------------------------------------------------------------------- locks

  function TakeLock(w: World, thread: Thread, k: nat, lockType: LockType, mode: LockMode, claimable: bool): (World,
                    bool)
    requires k < |w.chain|
  {
    var (t, id) := Take(w.table, thread, lockType, mode, claimable);
    if id == 0 then (w.(table := t), false)
    else (World(w.chain[k := w.chain[k].(lockIds := w.chain[k].lockIds + [id])], t), true)
  }

  /** Releases the ids in order, up to and including the first one that fails. */
  function ReleaseIds(t: Table, thread: Thread, ids: seq<nat>): (Table, bool)
    decreases |ids|
  {
    if ids == [] then (t, true)
    else
      var (u, ok) := Release(t, thread, ids[0], true);
      if ok then ReleaseIds(u, thread, ids[1..]) else (u, false)
  }

  /** The state at k releases its locks, children first; a failure of a child is ignored. */
  function ReleaseLocks(w: World, thread: Thread, k: nat): (r: (World, bool))
    requires k < |w.chain|
    ensures |r.0.chain| == |w.chain|
    ensures forall i :: 0 <= i < |w.chain| ==>
      r.0.chain[i] == w.chain[i] || r.0.chain[i] == w.chain[i].(lockIds := [])
    ensures r.0.chain[..k] == w.chain[..k]
    decreases |w.chain| - k
  {
    var v := if k + 1 < |w.chain| then ReleaseLocks(w, thread, k + 1).0 else w;
    var (t, ok) := ReleaseIds(v.table, thread, v.chain[k].lockIds);
    if ok then (World(v.chain[k := v.chain[k].(lockIds := [])], t), true) else (v.(table := t), false)
  }

  // ---------------------------------------------------------------- progress

  function Floor(n: nat, d: nat): nat
    requires d > 0
  {
    n / d
  }

  /** The value at this percentage of the way from `a` to `b`, rounded down; the sum of the products is
      unsigned. */
  function Interpolate(a: nat, b: nat, percentage: nat): nat
    requires percentage <= 100
  {
    ((100 - percentage) * a + percentage * b) % GUINT_RANGE / 100
  }

  /** The percentage a state derives from its child's, None when it ignores the child. */
  function ParentPercentage(s: Snapshot, percentage: nat): Option<nat>
    requires s.stepData == [] || s.steps <= |s.stepData|
    requires percentage <= 100
  {
    if s.steps == 1 then Some(percentage)
    else if s.steps == 0 || s.current >= s.steps then None
    else if s.stepData != [] then
      Some(Interpolate(if s.current == 0 then 0 else s.stepData[s.current - 1], s.stepData[s.current], percentage))
    else if s.steps > 10000 then None // the range of one step is below 0.01
    else Some(Floor(100 * s.current + percentage, s.steps))
  }

  function Emitted(w: World, k: nat, percentage: nat): World
    requires k < |w.chain|
  {
    w.(chain := w.chain[k := w.chain[k].(last := percentage, emitted := w.chain[k].emitted + [percentage])])
  }

  function SetPercentage(w: World, thread: Thread, k: nat, percentage: nat): (r: (World, bool))
    requires WellFormed(w) && k < |w.chain|
    ensures WellFormed(r.0) && |r.0.chain| == |w.chain|
    decreases k, 0
  {
    var s := w.chain[k];
    if !s.report then (w, true)
    else if percentage == s.last || percentage > 100 || percentage < s.last then (w, false)
    else
      var (v, ok) := if percentage == 100 then ReleaseLocks(w, thread, k) else (w, true);
      if !ok then (v, false)
      else
        var u := Emitted(v, k, percentage);
        (if k == 0 then u else ChildPercentageChanged(u, thread, k - 1, percentage), true)
  }

  /** The state at k hears the percentage its child has emitted. */
  function ChildPercentageChanged(w: World, thread: Thread, k: nat, percentage: nat): (r: World)
    requires WellFormed(w) && k < |w.chain| && percentage <= 100
    ensures WellFormed(r) && |r.chain| == |w.chain|
    decreases k, 1
  {
    match ParentPercentage(w.chain[k], percentage)
    case None => w
    case Some(own) => SetPercentage(w, thread, k, own).0
  }

  function SetNumberSteps(w: World, k: nat, steps: nat): (World, bool)
    requires k < |w.chain|
  {
    if steps == 0 || !w.chain[k].report then (w, true)
    else if w.chain[k].steps != 0 then (w, false)
    else (w.(chain := w.chain[k := w.chain[k].(steps := steps)]), true)
  }

  /** A C int, the type of a weight. */
  type Gint = x: int | -0x8000_0000 <= x < 0x8000_0000

  function Total(weights: seq<Gint>): int {
    if weights == [] then 0 else Total(weights[..|weights| - 1]) + weights[|weights| - 1]
  }

  /** The cumulative weights, as the unsigned sums the source stores. */
  function Cumulative(weights: seq<Gint>): (sums: seq<nat>)
    ensures |sums| == |weights|
  {
    if weights == [] then []
    else Cumulative(weights[..|weights| - 1]) + [Total(weights) % GUINT_RANGE]
  }

  function SetSteps(w: World, k: nat, weights: seq<Gint>): (World, bool)
    requires k < |w.chain|
  {
    if !w.chain[k].report then (w, true)
    else if weights == [] || Total(weights) % GUINT_RANGE != 100 then (w, false)
    else
      var (v, ok) := SetNumberSteps(w, k, |weights|);
      if !ok then (w, false)
      else (v.(chain := v.chain[k := v.chain[k].(stepData := Cumulative(weights))]), true)
  }

  /** The percentage of a state when its current step has just been done. */
  function DonePercentage(s: Snapshot): nat
    requires 0 < s.current <= s.steps && (s.stepData == [] || s.steps <= |s.stepData|)
  {
    if s.stepData == [] then Floor(100 * s.current, s.steps) else s.stepData[s.current - 1]
  }

  function Advanced(w: World, k: nat, current: nat): World
    requires k < |w.chain|
  {
    w.(chain := w.chain[k := w.chain[k].(current := current)])
  }

  function Done(w: World, thread: Thread, k: nat): (World, bool)
    requires WellFormed(w) && k < |w.chain|
  {
    var s := w.chain[k];
    if !s.report then (w, true)
    else if s.steps == 0 || s.current >= s.steps then (w, false)
    else
      var u := Advanced(w, k, s.current + 1);
      var v := SetPercentage(u, thread, k, DonePercentage(u.chain[k])).0;
      (if k + 1 < |v.chain| then Reset(v, thread, k + 1) else v, true)
  }

  function Finished(w: World, thread: Thread, k: nat): World
    requires WellFormed(w) && k < |w.chain|
  {
    var s := w.chain[k];
    if s.current == s.steps then w
    else SetPercentage(Advanced(w, k, s.steps), thread, k, 100).0
  }

  /** The state at k goes away, and with it everything below: the chain ends above it. */
  function Finalize(w: World, thread: Thread, k: nat): (r: World)
    requires WellFormed(w) && k < |w.chain|
    ensures WellFormed(r) && r.chain == w.chain[..k]
    decreases |w.chain| - k, 1
  {
    var v := Reset(ReleaseLocks(w, thread, k).0, thread, k);
    v.(chain := v.chain[..k])
  }

  function Cleared(w: World, k: nat): World
    requires k < |w.chain|
  {
    w.(chain := w.chain[k := w.chain[k].(steps := 0, current := 0, last := 0, emitted := [])])
  }

  function Reset(w: World, thread: Thread, k: nat): (r: World)
    requires WellFormed(w) && k < |w.chain|
    ensures WellFormed(r) && k < |r.chain| && r.chain[..k] == w.chain[..k]
    ensures |r.chain| == if w.chain[k].report then k + 1 else |w.chain|
    decreases |w.chain| - k, 0
  {
    if !w.chain[k].report then w
    else
      var cleared := Cleared(w, k);
      var v := if k + 1 < |w.chain| then Finalize(cleared, thread, k + 1) else cleared;
      var u := ReleaseLocks(v, thread, k).0;
      u.(chain := u.chain[k := u.chain[k].(stepData := [])])
  }

  function GetChild(w: World, thread: Thread, k: nat): (r: World)
    requires WellFormed(w) && k < |w.chain|
    ensures WellFormed(r)
  {
    if !w.chain[k].report then w
    else
      var v := if k + 1 < |w.chain| then Finalize(w, thread, k + 1) else w;
      v.(chain := v.chain[..k + 1] + [Fresh(true)])
  }
}
