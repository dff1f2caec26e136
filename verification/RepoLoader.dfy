/** The two-thread repository loader of `Context::load_rpm_repos`.

  The main thread prepares repositories one by one and pushes each prepared one to a shared
  vector; the loader thread takes them in order and loads them into the solvable sack. The
  vector is guarded by a mutex, the loader sleeps on a condition variable, a null entry marks
  the end, and an atomic flag with an exception pointer carries failures between the threads.

  The protocol is modelled as a step system with one program counter for each thread. Locking,
  testing, waiting, pushing, unlocking, notifying, loading, counting, storing the exception,
  raising the flag and joining are separate steps, and a schedule says which thread steps next.
 */
module RepoLoader {
  import opened Options

  /** A repository of the query, with the answers its environment gives in this run: whether
      its metadata can be prepared, whether its failure may be skipped, and whether the sack
      accepts it. */
  datatype Repo = Repo(id: nat, prepares: bool, skipIfUnavailable: bool, loads: bool)

  /** An element of `prepared_repos`; `Stop` is the null pointer. */
  datatype Item = Entry(repo: Repo) | Stop

  datatype Cause = PrepareFailed(repo: Repo) | SackFailed(repo: Repo)

  datatype MainPc =
    | CheckException | JoinFailed | Prepare
    | LockToPush | Push | UnlockPushed | Notify
    | RaiseFlag | LockToFinish | PushStop | UnlockFinished | NotifyFinish | Join
    | FinalCheck | Rethrow
    | Returned | Failed(cause: Cause)

  datatype LoaderPc =
    | Lock | Test | Wait | Relock | Read | Unlock | Examine
    | Load | Count | StoreException | SetFlag | Done

  datatype Owner = Nobody | Main | Loader

  datatype State = State(
    mainPc: MainPc,
    next: nat,               // index of the repository main works on
    throwing: bool,          // main is finishing because a preparation failed
    loaderPc: LoaderPc,
    item: Item,              // the loader's local `repo`
    prepared: seq<Item>,     // prepared_repos
    loaded: nat,             // num_repos_loaded_to_solv_sack
    except: bool,
    exceptPtr: Option<Repo>, // the repository whose load threw
    owner: Owner,            // prepared_repos_mutex
    sack: seq<Repo>,         // what the sack received, in order
    joins: nat)

  datatype Actor = MainThread | LoaderThread | SpuriousWakeUp

  function Init(): State {
    State(CheckException, 0, false, Lock, Stop, [], 0, false, None, Nobody, [], 0)
  }

  predicate Final(s: State) {
    s.mainPc.Returned? || s.mainPc.Failed?
  }

  // ------------------------------------------------------------------ steps

  function MainStep(repos: seq<Repo>, s: State): Option<State> {
    if InLoop(s.mainPc) then LoopStep(repos, s) else FinishStep(repos, s)
  }

  /** Main is in its loop over the repositories. */
  predicate InLoop(pc: MainPc) {
    pc.CheckException? || pc.JoinFailed? || pc.Prepare? || pc.LockToPush? || pc.Push? || pc.UnlockPushed? || pc.Notify?
  }

  function LoopStep(repos: seq<Repo>, s: State): Option<State>
    requires InLoop(s.mainPc)
  {
    match s.mainPc
    case CheckException =>
      if s.next >= |repos| then Some(s.(mainPc := LockToFinish))
      else if s.except then Some(s.(mainPc := JoinFailed))
      else Some(s.(mainPc := Prepare))
    case JoinFailed =>
      if s.loaderPc.Done? then Some(s.(mainPc := Rethrow, joins := s.joins + 1)) else None
    case Prepare =>
      if s.next >= |repos| then None
      else if repos[s.next].prepares then Some(s.(mainPc := LockToPush))
      else if repos[s.next].skipIfUnavailable then Some(s.(mainPc := CheckException, next := s.next + 1))
      else Some(s.(mainPc := RaiseFlag, throwing := true))
    case LockToPush =>
      if s.owner.Nobody? then Some(s.(mainPc := Push, owner := Main)) else None
    case Push =>
      if s.next >= |repos| then None
      else Some(s.(mainPc := UnlockPushed, prepared := s.prepared + [Entry(repos[s.next])]))
    case UnlockPushed => Some(s.(mainPc := Notify, owner := Nobody))
    case Notify => Some(Wake(s).(mainPc := CheckException, next := s.next + 1))
  }

  function FinishStep(repos: seq<Repo>, s: State): Option<State>
    requires !InLoop(s.mainPc)
  {
    match s.mainPc
    case RaiseFlag => Some(s.(mainPc := LockToFinish, except := true))
    case LockToFinish =>
      if s.owner.Nobody? then Some(s.(mainPc := PushStop, owner := Main)) else None
    case PushStop => Some(s.(mainPc := UnlockFinished, prepared := s.prepared + [Stop]))
    case UnlockFinished => Some(s.(mainPc := NotifyFinish, owner := Nobody))
    case NotifyFinish => Some(Wake(s).(mainPc := Join))
    case Join =>
      if !s.loaderPc.Done? then None
      else if s.throwing && s.next < |repos| then
        Some(s.(mainPc := Failed(PrepareFailed(repos[s.next])), joins := s.joins + 1))
      else Some(s.(mainPc := FinalCheck, joins := s.joins + 1))
    case FinalCheck =>
      // The loader has been joined already, so it is no longer joinable here.
      Some(s.(mainPc := if s.except then Rethrow else Returned))
    case Rethrow =>
      if s.exceptPtr.Some? && s.loaded < |s.prepared| && s.prepared[s.loaded].Entry? then
        Some(s.(mainPc := Failed(SackFailed(s.prepared[s.loaded].repo))))
      else None
    case Returned => None
    case Failed(_) => None
  }

  /** notify_one: wakes the loader if it is blocked on the condition variable, else is lost. */
  function Wake(s: State): State {
    if s.loaderPc.Wait? then s.(loaderPc := Relock) else s
  }

  function LoaderStep(s: State): Option<State> {
    match s.loaderPc
    case Lock | Relock =>
      if s.owner.Nobody? then Some(s.(loaderPc := Test, owner := Loader)) else None
    case Test =>
      if |s.prepared| <= s.loaded then Some(s.(loaderPc := Wait, owner := Nobody))
      else Some(s.(loaderPc := Read))
    case Wait => None
    case Read =>
      if s.loaded < |s.prepared| then Some(s.(loaderPc := Unlock, item := s.prepared[s.loaded])) else None
    case Unlock => Some(s.(loaderPc := Examine, owner := Nobody))
    case Examine => Some(s.(loaderPc := if s.item.Stop? || s.except then Done else Load))
    case Load =>
      if s.item.Stop? then None
      else if s.item.repo.loads then Some(s.(loaderPc := Count, sack := s.sack + [s.item.repo]))
      else Some(s.(loaderPc := StoreException))
    case Count => Some(s.(loaderPc := Lock, loaded := s.loaded + 1))
    case StoreException =>
      if s.item.Stop? then None else Some(s.(loaderPc := SetFlag, exceptPtr := Some(s.item.repo)))
    case SetFlag => Some(s.(loaderPc := Done, except := true))
    case Done => None
  }

  function Step(repos: seq<Repo>, s: State, actor: Actor): Option<State> {
    match actor
    case MainThread => MainStep(repos, s)
    case LoaderThread => LoaderStep(s)
    case SpuriousWakeUp => if s.loaderPc.Wait? then Some(Wake(s)) else None
  }

  /** The state a schedule leads to, or None when some scheduled thread could not step. */
  function Execute(repos: seq<Repo>, schedule: seq<Actor>): Option<State> {
    if schedule == [] then Some(Init())
    else
      match Execute(repos, schedule[..|schedule| - 1])
      case None => None
      case Some(s) => Step(repos, s, schedule[|schedule| - 1])
  }

  // -------------------------------------------------------- what is expected

  /** The repositories among the first `i` that can be prepared, in order. */
  function PreparedUpTo(repos: seq<Repo>, i: nat): seq<Repo>
    requires i <= |repos|
  {
    if i == 0 then []
    else PreparedUpTo(repos, i - 1) + (if repos[i - 1].prepares then [repos[i - 1]] else [])
  }

  function Entries(repos: seq<Repo>): seq<Item> {
    seq(|repos|, k requires 0 <= k < |repos| => Entry(repos[k]))
  }

  predicate NoFatalUpTo(repos: seq<Repo>, i: nat)
    requires i <= |repos|
  {
    forall j :: 0 <= j < i ==> repos[j].prepares || repos[j].skipIfUnavailable
  }

  /** How many repositories main has handled, counting one that is already pushed. */
  function Handled(pc: MainPc, next: nat): nat {
    if pc.UnlockPushed? || pc.Notify? then next + 1 else next
  }

  predicate MainHolds(pc: MainPc) {
    pc.Push? || pc.UnlockPushed? || pc.PushStop? || pc.UnlockFinished?
  }

  predicate LoaderHolds(pc: LoaderPc) {
    pc.Test? || pc.Read? || pc.Unlock?
  }

  predicate NotifyPending(pc: MainPc) {
    pc.UnlockPushed? || pc.Notify? || pc.UnlockFinished? || pc.NotifyFinish?
  }

  predicate Joined(pc: MainPc) {
    pc.FinalCheck? || pc.Rethrow? || pc.Returned? || pc.Failed?
  }

  /** Main is between the choice to finish and the join. */
  predicate Finishing(pc: MainPc) {
    pc.LockToFinish? || pc.PushStop? || pc.UnlockFinished? || pc.NotifyFinish? || pc.Join?
  }

  predicate StopPushed(pc: MainPc) {
    pc.UnlockFinished? || pc.NotifyFinish? || pc.Join? || pc.FinalCheck? || pc.Returned?
    || (pc.Failed? && pc.cause.PrepareFailed?)
  }

  predicate HasItem(pc: LoaderPc) {
    pc.Unlock? || pc.Examine? || pc.Done? || HasEntry(pc)
  }

  predicate HasEntry(pc: LoaderPc) {
    pc.Load? || pc.Count? || pc.StoreException? || pc.SetFlag?
  }

  // -------------------------------------------------------------- invariant

  predicate MainInv(repos: seq<Repo>, pc: MainPc, next: nat, throwing: bool) {
    && next <= |repos|
    && NoFatalUpTo(repos, next)
    && (pc.Prepare? || pc.JoinFailed? ==> next < |repos|)
    && (pc.LockToPush? || pc.Push? || pc.UnlockPushed? || pc.Notify? ==> next < |repos| && repos[next].prepares)
    && (throwing <==> pc.RaiseFlag? || (Finishing(pc) && next < |repos|) || (pc.Failed? && pc.cause.PrepareFailed?))
    && (throwing ==> next < |repos| && !repos[next].prepares && !repos[next].skipIfUnavailable)
    && (pc.FinalCheck? || pc.Returned? ==> next == |repos|)
    && (pc.Failed? && pc.cause.PrepareFailed? ==> pc.cause.repo == repos[next])
  }

  predicate VectorInv(repos: seq<Repo>, pc: MainPc, next: nat, prepared: seq<Item>) {
    && Handled(pc, next) <= |repos|
    && var entries := Entries(PreparedUpTo(repos, Handled(pc, next)));
       if StopPushed(pc) then prepared == entries + [Stop]
       else prepared == entries || (Joined(pc) && prepared == entries + [Stop])
  }

  predicate MutexInv(owner: Owner, mainPc: MainPc, loaderPc: LoaderPc) {
    && (owner.Main? <==> MainHolds(mainPc))
    && (owner.Loader? <==> LoaderHolds(loaderPc))
  }

  /** The sack holds the repositories of the first entries, in order, and accepted each. */
  predicate SackMirrors(sack: seq<Repo>, prepared: seq<Item>) {
    |sack| <= |prepared|
    && forall k :: 0 <= k < |sack| ==> prepared[k] == Entry(sack[k]) && sack[k].loads
  }

  predicate LoaderInv(pc: LoaderPc, item: Item, prepared: seq<Item>, loaded: nat, sack: seq<Repo>) {
    && |sack| == (if pc.Count? then loaded + 1 else loaded)
    && SackMirrors(sack, prepared)
    && (pc.Read? ==> loaded < |prepared|)
    && (HasItem(pc) ==> loaded < |prepared| && item == prepared[loaded])
    && (HasEntry(pc) ==> item.Entry?)
    && (pc.StoreException? || pc.SetFlag? ==> !item.repo.loads)
  }

  predicate ExceptionInv(mainPc: MainPc, throwing: bool, loaderPc: LoaderPc, item: Item,
                         except: bool, exceptPtr: Option<Repo>) {
    && (exceptPtr.Some? ==>
          (loaderPc.SetFlag? || loaderPc.Done?) && item == Entry(exceptPtr.value) && !exceptPtr.value.loads)
    && (loaderPc.SetFlag? ==> exceptPtr.Some?)
    && (except <==> (throwing && !mainPc.RaiseFlag?) || (loaderPc.Done? && exceptPtr.Some?))
    && (loaderPc.Done? ==> exceptPtr.Some? || item.Stop? || (throwing && !mainPc.RaiseFlag?))
    && (mainPc.JoinFailed? || mainPc.Rethrow? ==> loaderPc.Done? && exceptPtr.Some?)
    && (mainPc.Failed? && mainPc.cause.SackFailed? ==> exceptPtr == Some(mainPc.cause.repo))
    && (mainPc.Returned? ==> exceptPtr.None?)
  }

  predicate JoinInv(mainPc: MainPc, loaderPc: LoaderPc, joins: nat) {
    && (Joined(mainPc) ==> loaderPc.Done?)
    && joins == (if Joined(mainPc) then 1 else 0)
  }

  /** No wake-up is lost: while the loader sleeps beside an unread item, main holds a
      notification it has yet to send. */
  predicate WakeInv(mainPc: MainPc, loaderPc: LoaderPc, prepared: seq<Item>, loaded: nat) {
    loaderPc.Wait? && loaded < |prepared| ==> NotifyPending(mainPc)
  }

  predicate Inv(repos: seq<Repo>, s: State) {
    && MainInv(repos, s.mainPc, s.next, s.throwing)
    && VectorInv(repos, s.mainPc, s.next, s.prepared)
    && MutexInv(s.owner, s.mainPc, s.loaderPc)
    && LoaderInv(s.loaderPc, s.item, s.prepared, s.loaded, s.sack)
    && ExceptionInv(s.mainPc, s.throwing, s.loaderPc, s.item, s.except, s.exceptPtr)
    && JoinInv(s.mainPc, s.loaderPc, s.joins)
    && WakeInv(s.mainPc, s.loaderPc, s.prepared, s.loaded)
  }

  lemma InitInv(repos: seq<Repo>)
    ensures Inv(repos, Init())
  {
  }

  lemma LoadKeepsMirror(sack: seq<Repo>, prepared: seq<Item>)
    requires SackMirrors(sack, prepared) && |sack| < |prepared|
    requires prepared[|sack|].Entry? && prepared[|sack|].repo.loads
    ensures SackMirrors(sack + [prepared[|sack|].repo], prepared)
  {
  }

  lemma MirrorIsShort(sack: seq<Repo>, prepared: seq<Item>)
    requires SackMirrors(sack, prepared)
    ensures |sack| <= |prepared|
  {
  }

  lemma PushKeepsLoaderInv(pc: LoaderPc, item: Item, prepared: seq<Item>, loaded: nat, sack: seq<Repo>, more: Item)
    requires LoaderInv(pc, item, prepared, loaded, sack)
    ensures LoaderInv(pc, item, prepared + [more], loaded, sack)
  {
  }

  lemma LoopStepControl(repos: seq<Repo>, s: State)
    requires InLoop(s.mainPc)
    requires MainInv(repos, s.mainPc, s.next, s.throwing)
    requires ExceptionInv(s.mainPc, s.throwing, s.loaderPc, s.item, s.except, s.exceptPtr)
    requires LoopStep(repos, s).Some?
    ensures var t := LoopStep(repos, s).value; MainInv(repos, t.mainPc, t.next, t.throwing)
  {
  }

  lemma FinishStepControl(repos: seq<Repo>, s: State)
    requires !InLoop(s.mainPc)
    requires MainInv(repos, s.mainPc, s.next, s.throwing)
    requires ExceptionInv(s.mainPc, s.throwing, s.loaderPc, s.item, s.except, s.exceptPtr)
    requires FinishStep(repos, s).Some?
    ensures var t := FinishStep(repos, s).value; MainInv(repos, t.mainPc, t.next, t.throwing)
  {
  }

  lemma MainStepControl(repos: seq<Repo>, s: State)
    requires MainInv(repos, s.mainPc, s.next, s.throwing)
    requires ExceptionInv(s.mainPc, s.throwing, s.loaderPc, s.item, s.except, s.exceptPtr)
    requires MainStep(repos, s).Some?
    ensures var t := MainStep(repos, s).value; MainInv(repos, t.mainPc, t.next, t.throwing)
  {
    if InLoop(s.mainPc) {
      LoopStepControl(repos, s);
    } else {
      FinishStepControl(repos, s);
    }
  }

  lemma OneMorePrepared(repos: seq<Repo>, i: nat)
    requires i < |repos|
    ensures Entries(PreparedUpTo(repos, i + 1)) ==
            Entries(PreparedUpTo(repos, i)) + (if repos[i].prepares then [Entry(repos[i])] else [])
  {
  }

  lemma LoopStepVector(repos: seq<Repo>, s: State)
    requires InLoop(s.mainPc)
    requires MainInv(repos, s.mainPc, s.next, s.throwing)
    requires VectorInv(repos, s.mainPc, s.next, s.prepared)
    requires ExceptionInv(s.mainPc, s.throwing, s.loaderPc, s.item, s.except, s.exceptPtr)
    requires LoopStep(repos, s).Some?
    ensures var t := LoopStep(repos, s).value; VectorInv(repos, t.mainPc, t.next, t.prepared)
  {
    hide Entries, PreparedUpTo, NoFatalUpTo;
    if s.next < |repos| {
      OneMorePrepared(repos, s.next);
    }
  }

  lemma FinishStepVector(repos: seq<Repo>, s: State)
    requires !InLoop(s.mainPc)
    requires MainInv(repos, s.mainPc, s.next, s.throwing)
    requires VectorInv(repos, s.mainPc, s.next, s.prepared)
    requires ExceptionInv(s.mainPc, s.throwing, s.loaderPc, s.item, s.except, s.exceptPtr)
    requires FinishStep(repos, s).Some?
    ensures var t := FinishStep(repos, s).value; VectorInv(repos, t.mainPc, t.next, t.prepared)
  {
  }

  lemma MainStepVector(repos: seq<Repo>, s: State)
    requires MainInv(repos, s.mainPc, s.next, s.throwing)
    requires VectorInv(repos, s.mainPc, s.next, s.prepared)
    requires ExceptionInv(s.mainPc, s.throwing, s.loaderPc, s.item, s.except, s.exceptPtr)
    requires MainStep(repos, s).Some?
    ensures var t := MainStep(repos, s).value; VectorInv(repos, t.mainPc, t.next, t.prepared)
  {
    if InLoop(s.mainPc) {
      LoopStepVector(repos, s);
    } else {
      FinishStepVector(repos, s);
    }
  }

  lemma LoopStepMutex(repos: seq<Repo>, s: State)
    requires InLoop(s.mainPc)
    requires MutexInv(s.owner, s.mainPc, s.loaderPc)
    requires LoopStep(repos, s).Some?
    ensures var t := LoopStep(repos, s).value; MutexInv(t.owner, t.mainPc, t.loaderPc)
  {
  }

  lemma FinishStepMutex(repos: seq<Repo>, s: State)
    requires !InLoop(s.mainPc)
    requires MutexInv(s.owner, s.mainPc, s.loaderPc)
    requires FinishStep(repos, s).Some?
    ensures var t := FinishStep(repos, s).value; MutexInv(t.owner, t.mainPc, t.loaderPc)
  {
  }

  lemma MainStepMutex(repos: seq<Repo>, s: State)
    requires MutexInv(s.owner, s.mainPc, s.loaderPc)
    requires MainStep(repos, s).Some?
    ensures var t := MainStep(repos, s).value; MutexInv(t.owner, t.mainPc, t.loaderPc)
  {
    if InLoop(s.mainPc) {
      LoopStepMutex(repos, s);
    } else {
      FinishStepMutex(repos, s);
    }
  }

  lemma MainStepLoader(repos: seq<Repo>, s: State)
    requires LoaderInv(s.loaderPc, s.item, s.prepared, s.loaded, s.sack)
    requires MainStep(repos, s).Some?
    ensures var t := MainStep(repos, s).value; LoaderInv(t.loaderPc, t.item, t.prepared, t.loaded, t.sack)
  {
    hide SackMirrors;
    match s.mainPc {
      case Push =>
        if s.next < |repos| {
          PushKeepsLoaderInv(s.loaderPc, s.item, s.prepared, s.loaded, s.sack, Entry(repos[s.next]));
        }
      case PushStop => PushKeepsLoaderInv(s.loaderPc, s.item, s.prepared, s.loaded, s.sack, Stop);
      case _ =>
    }
  }

  lemma LoopStepException(repos: seq<Repo>, s: State)
    requires InLoop(s.mainPc)
    requires MainInv(repos, s.mainPc, s.next, s.throwing)
    requires VectorInv(repos, s.mainPc, s.next, s.prepared)
    requires LoaderInv(s.loaderPc, s.item, s.prepared, s.loaded, s.sack)
    requires ExceptionInv(s.mainPc, s.throwing, s.loaderPc, s.item, s.except, s.exceptPtr)
    requires JoinInv(s.mainPc, s.loaderPc, s.joins)
    requires LoopStep(repos, s).Some?
    ensures var t := LoopStep(repos, s).value;
            ExceptionInv(t.mainPc, t.throwing, t.loaderPc, t.item, t.except, t.exceptPtr)
  {
  }

  lemma FinishStepException(repos: seq<Repo>, s: State)
    requires !InLoop(s.mainPc)
    requires MainInv(repos, s.mainPc, s.next, s.throwing)
    requires VectorInv(repos, s.mainPc, s.next, s.prepared)
    requires LoaderInv(s.loaderPc, s.item, s.prepared, s.loaded, s.sack)
    requires ExceptionInv(s.mainPc, s.throwing, s.loaderPc, s.item, s.except, s.exceptPtr)
    requires JoinInv(s.mainPc, s.loaderPc, s.joins)
    requires FinishStep(repos, s).Some?
    ensures var t := FinishStep(repos, s).value;
            ExceptionInv(t.mainPc, t.throwing, t.loaderPc, t.item, t.except, t.exceptPtr)
  {
    hide NoFatalUpTo, SackMirrors, PreparedUpTo;
  }

  lemma MainStepException(repos: seq<Repo>, s: State)
    requires MainInv(repos, s.mainPc, s.next, s.throwing)
    requires VectorInv(repos, s.mainPc, s.next, s.prepared)
    requires LoaderInv(s.loaderPc, s.item, s.prepared, s.loaded, s.sack)
    requires ExceptionInv(s.mainPc, s.throwing, s.loaderPc, s.item, s.except, s.exceptPtr)
    requires JoinInv(s.mainPc, s.loaderPc, s.joins)
    requires MainStep(repos, s).Some?
    ensures var t := MainStep(repos, s).value;
            ExceptionInv(t.mainPc, t.throwing, t.loaderPc, t.item, t.except, t.exceptPtr)
  {
    if InLoop(s.mainPc) {
      LoopStepException(repos, s);
    } else {
      FinishStepException(repos, s);
    }
  }

  lemma LoopStepJoin(repos: seq<Repo>, s: State)
    requires InLoop(s.mainPc)
    requires ExceptionInv(s.mainPc, s.throwing, s.loaderPc, s.item, s.except, s.exceptPtr)
    requires JoinInv(s.mainPc, s.loaderPc, s.joins)
    requires LoopStep(repos, s).Some?
    ensures var t := LoopStep(repos, s).value; JoinInv(t.mainPc, t.loaderPc, t.joins)
  {
  }

  lemma FinishStepJoin(repos: seq<Repo>, s: State)
    requires !InLoop(s.mainPc)
    requires ExceptionInv(s.mainPc, s.throwing, s.loaderPc, s.item, s.except, s.exceptPtr)
    requires JoinInv(s.mainPc, s.loaderPc, s.joins)
    requires FinishStep(repos, s).Some?
    ensures var t := FinishStep(repos, s).value; JoinInv(t.mainPc, t.loaderPc, t.joins)
  {
  }

  lemma MainStepJoin(repos: seq<Repo>, s: State)
    requires ExceptionInv(s.mainPc, s.throwing, s.loaderPc, s.item, s.except, s.exceptPtr)
    requires JoinInv(s.mainPc, s.loaderPc, s.joins)
    requires MainStep(repos, s).Some?
    ensures var t := MainStep(repos, s).value; JoinInv(t.mainPc, t.loaderPc, t.joins)
  {
    if InLoop(s.mainPc) {
      LoopStepJoin(repos, s);
    } else {
      FinishStepJoin(repos, s);
    }
  }

  lemma MainStepWake(repos: seq<Repo>, s: State)
    requires WakeInv(s.mainPc, s.loaderPc, s.prepared, s.loaded)
    requires MainStep(repos, s).Some?
    ensures var t := MainStep(repos, s).value; WakeInv(t.mainPc, t.loaderPc, t.prepared, t.loaded)
  {
  }

  lemma MainStepInv(repos: seq<Repo>, s: State)
    requires Inv(repos, s) && MainStep(repos, s).Some?
    ensures Inv(repos, MainStep(repos, s).value)
  {
    MainStepControl(repos, s);
    MainStepVector(repos, s);
    MainStepMutex(repos, s);
    MainStepLoader(repos, s);
    MainStepException(repos, s);
    MainStepJoin(repos, s);
    MainStepWake(repos, s);
  }

  lemma LoaderStepMutex(s: State)
    requires MutexInv(s.owner, s.mainPc, s.loaderPc)
    requires LoaderStep(s).Some?
    ensures var t := LoaderStep(s).value; MutexInv(t.owner, t.mainPc, t.loaderPc)
  {
  }

  lemma LoaderStepLoader(s: State)
    requires LoaderInv(s.loaderPc, s.item, s.prepared, s.loaded, s.sack)
    requires LoaderStep(s).Some?
    ensures var t := LoaderStep(s).value; LoaderInv(t.loaderPc, t.item, t.prepared, t.loaded, t.sack)
  {
    hide SackMirrors;
    MirrorIsShort(s.sack, s.prepared);
    if s.loaderPc.Load? && s.item.repo.loads {
      LoadKeepsMirror(s.sack, s.prepared);
    }
  }

  lemma LoaderStepException(s: State)
    requires LoaderInv(s.loaderPc, s.item, s.prepared, s.loaded, s.sack)
    requires ExceptionInv(s.mainPc, s.throwing, s.loaderPc, s.item, s.except, s.exceptPtr)
    requires JoinInv(s.mainPc, s.loaderPc, s.joins)
    requires LoaderStep(s).Some?
    ensures var t := LoaderStep(s).value;
            && ExceptionInv(t.mainPc, t.throwing, t.loaderPc, t.item, t.except, t.exceptPtr)
            && JoinInv(t.mainPc, t.loaderPc, t.joins)
  {
  }

  lemma LoaderStepWake(s: State)
    requires MutexInv(s.owner, s.mainPc, s.loaderPc)
    requires WakeInv(s.mainPc, s.loaderPc, s.prepared, s.loaded)
    requires LoaderStep(s).Some?
    ensures var t := LoaderStep(s).value; WakeInv(t.mainPc, t.loaderPc, t.prepared, t.loaded)
  {
  }

  lemma LoaderStepFrame(s: State)
    requires LoaderStep(s).Some?
    ensures var t := LoaderStep(s).value;
      t.mainPc == s.mainPc && t.next == s.next && t.throwing == s.throwing && t.prepared == s.prepared
  {
  }

  lemma LoaderStepInv(repos: seq<Repo>, s: State)
    requires Inv(repos, s) && LoaderStep(s).Some?
    ensures Inv(repos, LoaderStep(s).value)
  {
    LoaderStepFrame(s);
    LoaderStepMutex(s);
    LoaderStepLoader(s);
    LoaderStepException(s);
    LoaderStepWake(s);
  }

  /** Every state of every schedule satisfies the invariant. */
  lemma {:induction false} ReachableInv(repos: seq<Repo>, schedule: seq<Actor>)
    requires Execute(repos, schedule).Some?
    ensures Inv(repos, Execute(repos, schedule).value)
  {
    if schedule == [] {
      InitInv(repos);
    } else {
      var before := schedule[..|schedule| - 1];
      ReachableInv(repos, before);
      var s := Execute(repos, before).value;
      match schedule[|schedule| - 1]
      case MainThread => MainStepInv(repos, s);
      case LoaderThread => LoaderStepInv(repos, s);
      case SpuriousWakeUp =>
    }
  }

  // ------------------------------------------------------ safety of every run

  /** In every reachable state the vector holds the prepared repositories in order with at most
      one null entry, at its end, and stays within the reserved capacity; every index read is in
      range; the two threads are never both inside the mutex; and when the exception is rethrown
      it is set, the loader has ended, and the repository to name is in the vector. */
  lemma {:induction false} Safety(repos: seq<Repo>, schedule: seq<Actor>)
    requires Execute(repos, schedule).Some?
    ensures var s := Execute(repos, schedule).value;
      && (exists k: nat :: k <= |repos|
            && (s.prepared == Entries(PreparedUpTo(repos, k)) ||
                s.prepared == Entries(PreparedUpTo(repos, k)) + [Stop]))
      && |s.prepared| <= |repos| + 1
      && (s.mainPc.Prepare? || s.mainPc.Push? ==> s.next < |repos|)
      && (s.loaderPc.Read? ==> s.loaded < |s.prepared|)
      && !(MainHolds(s.mainPc) && LoaderHolds(s.loaderPc))
      && (s.mainPc.Rethrow? ==>
            && s.exceptPtr.Some? && s.loaderPc.Done?
            && s.loaded < |s.prepared| && s.prepared[s.loaded] == Entry(s.exceptPtr.value))
  {
    ReachableInv(repos, schedule);
    var s := Execute(repos, schedule).value;
    var k := Handled(s.mainPc, s.next);
    PreparedLength(repos, k);
  }

  lemma {:induction false} PreparedLength(repos: seq<Repo>, i: nat)
    requires i <= |repos|
    ensures |PreparedUpTo(repos, i)| <= i
  {
    if i > 0 {
      PreparedLength(repos, i - 1);
    }
  }

  /** A sleeping loader with an unread item is about to be notified, in every reachable state. */
  lemma {:induction false} NoLostWakeUp(repos: seq<Repo>, schedule: seq<Actor>)
    requires Execute(repos, schedule).Some?
    ensures var s := Execute(repos, schedule).value;
      s.loaderPc.Wait? && s.loaded < |s.prepared| ==> NotifyPending(s.mainPc)
  {
    ReachableInv(repos, schedule);
  }

  /** Until the call is over, some thread can step without the help of a spurious wake-up. */
  lemma {:induction false} NoDeadlock(repos: seq<Repo>, schedule: seq<Actor>)
    requires Execute(repos, schedule).Some?
    requires !Final(Execute(repos, schedule).value)
    ensures var s := Execute(repos, schedule).value;
      Step(repos, s, MainThread).Some? || Step(repos, s, LoaderThread).Some?
  {
    ReachableInv(repos, schedule);
    var s := Execute(repos, schedule).value;
    if s.mainPc.Join? && s.loaderPc.Wait? {
      StopUnread(repos, s);
    }
  }

  /** While the loader still runs, it has not counted past the null entry. */
  lemma StopUnread(repos: seq<Repo>, s: State)
    requires Inv(repos, s) && StopPushed(s.mainPc)
    ensures s.loaded < |s.prepared|
  {
    var n := |s.prepared| - 1;
    assert s.prepared[n].Stop?;
  }

  /** The loader thread is joined exactly once on every way out, thrown or not, and never twice. */
  lemma {:induction false} JoinedOnce(repos: seq<Repo>, schedule: seq<Actor>)
    requires Execute(repos, schedule).Some?
    ensures var s := Execute(repos, schedule).value;
      && s.joins <= 1
      && (Final(s) ==> s.joins == 1 && s.loaderPc.Done? && s.owner.Nobody?)
  {
    ReachableInv(repos, schedule);
  }

  // ------------------------------------------------------------- termination

  /** What main may still do, in steps. */
  function MainWork(repos: seq<Repo>, s: State): nat {
    (if s.next <= |repos| then 10 * (|repos| - s.next) else 0) +
    match s.mainPc
    case CheckException => 20 case Prepare => 19 case LockToPush => 18 case Push => 17
    case UnlockPushed => 16 case Notify => 15
    case RaiseFlag => 12 case LockToFinish => 11 case PushStop => 10 case UnlockFinished => 9
    case NotifyFinish => 8 case Join => 7 case FinalCheck => 6
    case JoinFailed => 6 case Rethrow => 5 case Returned => 0 case Failed(_) => 0
  }

  /** What the loader may still do before it sleeps again, in steps. */
  function LoaderWork(repos: seq<Repo>, s: State): nat {
    (if s.loaded <= |repos| + 1 then 20 * (|repos| + 1 - s.loaded) else 0) +
    match s.loaderPc
    case Lock => 10 case Relock => 9 case Test => 8 case Read => 7 case Unlock => 6
    case Examine => 5 case Load => 4 case Count => 3 case StoreException => 3 case SetFlag => 2
    case Wait => 1 case Done => 0
  }

  function Work(repos: seq<Repo>, s: State): nat {
    10 * MainWork(repos, s) + LoaderWork(repos, s)
  }

  lemma MainStepWorks(repos: seq<Repo>, s: State)
    requires MainInv(repos, s.mainPc, s.next, s.throwing) && MainStep(repos, s).Some?
    ensures MainWork(repos, MainStep(repos, s).value) < MainWork(repos, s)
  {
  }

  lemma MainStepWakes(repos: seq<Repo>, s: State)
    requires MainStep(repos, s).Some?
    ensures LoaderWork(repos, MainStep(repos, s).value) <= LoaderWork(repos, s) + 8
  {
  }

  lemma LoaderStepWorks(repos: seq<Repo>, s: State)
    requires s.loaded <= |repos| && LoaderStep(s).Some?
    ensures LoaderWork(repos, LoaderStep(s).value) < LoaderWork(repos, s)
  {
  }

  lemma LoaderStepKeepsMainWork(repos: seq<Repo>, s: State)
    requires LoaderStep(s).Some?
    ensures MainWork(repos, LoaderStep(s).value) == MainWork(repos, s)
  {
    hide LoaderStep, MainWork;
    LoaderStepFrame(s);
    SameMainWork(repos, s, LoaderStep(s).value);
  }

  lemma SameMainWork(repos: seq<Repo>, s: State, t: State)
    requires t.mainPc == s.mainPc && t.next == s.next
    ensures MainWork(repos, t) == MainWork(repos, s)
  {
  }

  lemma LoadedBound(repos: seq<Repo>, s: State)
    requires Inv(repos, s)
    ensures s.loaded <= |repos|
  {
    var k := Handled(s.mainPc, s.next);
    PreparedLength(repos, k);
    if s.prepared != Entries(PreparedUpTo(repos, k)) {
      var n := |s.prepared| - 1;
      assert s.prepared[n].Stop?;
    }
  }

  /** A step takes at least one unit of work away; a spurious wake-up gives back at most eight. */
  lemma StepWorks(repos: seq<Repo>, s: State, actor: Actor)
    requires Inv(repos, s) && Step(repos, s, actor).Some?
    ensures var t := Step(repos, s, actor).value;
      Work(repos, t) < Work(repos, s) + (if actor.SpuriousWakeUp? then 9 else 0)
  {
    match actor
    case MainThread =>
      MainStepWorks(repos, s);
      MainStepWakes(repos, s);
    case LoaderThread =>
      LoadedBound(repos, s);
      LoaderStepWorks(repos, s);
      LoaderStepKeepsMainWork(repos, s);
    case SpuriousWakeUp =>
  }

  function SpuriousWakeUps(schedule: seq<Actor>): nat {
    if schedule == [] then 0
    else SpuriousWakeUps(schedule[..|schedule| - 1]) + (if schedule[|schedule| - 1].SpuriousWakeUp? then 1 else 0)
  }

  /** Every run is finite but for spurious wake-ups: its length is bounded by a linear function
      of the number of repositories and of the spurious wake-ups in it. */
  lemma {:induction false} RunsAreBounded(repos: seq<Repo>, schedule: seq<Actor>)
    requires Execute(repos, schedule).Some?
    ensures |schedule| + Work(repos, Execute(repos, schedule).value)
            <= 120 * |repos| + 230 + 9 * SpuriousWakeUps(schedule)
  {
    if schedule != [] {
      var before := schedule[..|schedule| - 1];
      RunsAreBounded(repos, before);
      ReachableInv(repos, before);
      StepWorks(repos, Execute(repos, before).value, schedule[|schedule| - 1]);
    }
  }

  lemma ExecuteOneMore(repos: seq<Repo>, schedule: seq<Actor>, actor: Actor)
    requires Execute(repos, schedule).Some?
    ensures Execute(repos, schedule + [actor]) == Step(repos, Execute(repos, schedule).value, actor)
  {
    assert (schedule + [actor])[..|schedule|] == schedule;
  }

  /** Short of the end, one of the two threads can take a unit of work away. */
  lemma OneStepOn(repos: seq<Repo>, schedule: seq<Actor>) returns (longer: seq<Actor>)
    requires Execute(repos, schedule).Some? && !Final(Execute(repos, schedule).value)
    ensures longer == schedule + [MainThread] || longer == schedule + [LoaderThread]
    ensures Execute(repos, longer).Some?
    ensures Work(repos, Execute(repos, longer).value) < Work(repos, Execute(repos, schedule).value)
  {
    NoDeadlock(repos, schedule);
    ReachableInv(repos, schedule);
    var s := Execute(repos, schedule).value;
    var actor := if Step(repos, s, MainThread).Some? then MainThread else LoaderThread;
    StepWorks(repos, s, actor);
    ExecuteOneMore(repos, schedule, actor);
    longer := schedule + [actor];
  }

  /** From every reachable state the two threads alone bring the call to its end. */
  lemma {:induction false} RunsCanFinish(repos: seq<Repo>, schedule: seq<Actor>) returns (rest: seq<Actor>)
    requires Execute(repos, schedule).Some?
    ensures Execute(repos, schedule + rest).Some? && Final(Execute(repos, schedule + rest).value)
    ensures SpuriousWakeUp !in rest
    decreases Work(repos, Execute(repos, schedule).value)
  {
    hide Step, Work;
    if Final(Execute(repos, schedule).value) {
      rest := [];
      assert schedule + [] == schedule;
    } else {
      var longer := OneStepOn(repos, schedule);
      var tail := RunsCanFinish(repos, longer);
      rest := longer[|schedule|..] + tail;
      assert schedule + rest == longer + tail;
    }
  }

  // -------------------------------------------- refinement of the sequential form

  datatype SequentialOutcome = Completed(sack: seq<Repo>) | Aborted(repo: Repo, sack: seq<Repo>)

  /** The single-threaded loop from repository `i` on: prepare, load, and skip or throw. */
  function SequentialFrom(repos: seq<Repo>, i: nat, sack: seq<Repo>): SequentialOutcome
    requires i <= |repos|
    decreases |repos| - i
  {
    if i == |repos| then Completed(sack)
    else if repos[i].prepares && repos[i].loads then SequentialFrom(repos, i + 1, sack + [repos[i]])
    else if repos[i].skipIfUnavailable then SequentialFrom(repos, i + 1, sack)
    else Aborted(repos[i], sack)
  }

  method LoadSequentially(repos: seq<Repo>) returns (outcome: SequentialOutcome)
    ensures outcome == SequentialFrom(repos, 0, [])
    ensures outcome.Completed? <==>
      forall j :: 0 <= j < |repos| ==> repos[j].skipIfUnavailable || (repos[j].prepares && repos[j].loads)
  {
    var sack: seq<Repo> := [];
    var i := 0;
    while i < |repos|
      invariant i <= |repos|
      invariant SequentialFrom(repos, 0, []) == SequentialFrom(repos, i, sack)
      invariant forall j :: 0 <= j < i ==> repos[j].skipIfUnavailable || (repos[j].prepares && repos[j].loads)
    {
      if repos[i].prepares && repos[i].loads {
        sack := sack + [repos[i]];
      } else if !repos[i].skipIfUnavailable {
        return Aborted(repos[i], sack);
      }
      i := i + 1;
    }
    outcome := Completed(sack);
  }

  predicate SackAcceptsAll(repos: seq<Repo>) {
    forall j :: 0 <= j < |repos| && repos[j].prepares ==> repos[j].loads
  }

  /** The sack accepts the prepared repositories before the first one whose preparation is fatal. */
  predicate SackAcceptsReached(repos: seq<Repo>) {
    forall j :: 0 <= j < |repos| && repos[j].prepares && NoFatalUpTo(repos, j) ==> repos[j].loads
  }

  lemma {:induction false} SequentialPrefix(repos: seq<Repo>, i: nat)
    requires i <= |repos| && NoFatalUpTo(repos, i) && SackAcceptsReached(repos)
    ensures SequentialFrom(repos, 0, []) == SequentialFrom(repos, i, PreparedUpTo(repos, i))
  {
    if i > 0 {
      assert NoFatalUpTo(repos, i - 1);
      SequentialPrefix(repos, i - 1);
      assert PreparedUpTo(repos, i - 1) + [] == PreparedUpTo(repos, i - 1);
    }
  }

  /** What a finished run has loaded, whichever way it ended. */
  lemma {:induction false} FinalSack(repos: seq<Repo>, schedule: seq<Actor>)
    requires Execute(repos, schedule).Some? && Final(Execute(repos, schedule).value)
    ensures var s := Execute(repos, schedule).value;
      && s.next <= |repos| && NoFatalUpTo(repos, s.next)
      && (match s.mainPc
          case Returned => s.next == |repos| && s.sack == PreparedUpTo(repos, |repos|)
                           && (forall k :: 0 <= k < |s.sack| ==> s.sack[k].loads)
          case Failed(PrepareFailed(repo)) =>
            && s.next < |repos| && repo == repos[s.next] && !repo.prepares && !repo.skipIfUnavailable
            && s.sack <= PreparedUpTo(repos, s.next)
          case Failed(SackFailed(repo)) =>
            && s.sack + [repo] <= PreparedUpTo(repos, s.next)
            && !repo.loads && (forall k :: 0 <= k < |s.sack| ==> s.sack[k].loads)
          case _ => true)
  {
    hide Execute, Entries, PreparedUpTo, SackMirrors, NoFatalUpTo;
    ReachableInv(repos, schedule);
    var s := Execute(repos, schedule).value;
    SackIsPrefix(s.sack, s.prepared, PreparedUpTo(repos, s.next));
  }

  /** The sack holds the first entries of the vector; it holds them all when the next one is the end. */
  lemma SackIsPrefix(sack: seq<Repo>, items: seq<Item>, prepared: seq<Repo>)
    requires SackMirrors(sack, items)
    requires items == Entries(prepared) || items == Entries(prepared) + [Stop]
    ensures sack <= prepared && forall k :: 0 <= k < |sack| ==> sack[k].loads
    ensures |sack| < |items| && items[|sack|].Stop? ==> sack == prepared
    ensures |sack| < |items| && items[|sack|].Entry? ==> sack + [items[|sack|].repo] <= prepared
  {
    assert forall k :: 0 <= k < |prepared| ==> items[k] == Entry(prepared[k]);
    assert |items| > |prepared| ==> items[|prepared|].Stop?;
    assert forall k :: 0 <= k < |sack| ==> items[k].Entry?;
    forall k | 0 <= k < |sack| ensures sack[k] == prepared[k] {
      assert items[k] == Entry(sack[k]);
    }
  }

  /** When the sack accepts the repositories it can get to see, the threaded loader ends as the
      sequential one does: it returns with the same repositories in the same order, or it throws for
      the same repository and has loaded a prefix of what the sequential loop had loaded by then. */
  lemma {:induction false} RefinesSequential(repos: seq<Repo>, schedule: seq<Actor>)
    requires Execute(repos, schedule).Some? && Final(Execute(repos, schedule).value)
    requires SackAcceptsReached(repos)
    ensures var s := Execute(repos, schedule).value;
      match SequentialFrom(repos, 0, [])
      case Completed(sack) => s.mainPc == Returned && s.sack == sack
      case Aborted(repo, sack) => s.mainPc == Failed(PrepareFailed(repo)) && s.sack <= sack
  {
    FinalSack(repos, schedule);
    var s := Execute(repos, schedule).value;
    SequentialPrefix(repos, s.next);
    if s.mainPc.Failed? && s.mainPc.cause.SackFailed? {
      var repo := s.mainPc.cause.repo;
      assert repo == (s.sack + [repo])[|s.sack|];
      PreparedMembers(repos, s.next, repo);
    }
  }

  lemma {:induction false} PreparedMembers(repos: seq<Repo>, i: nat, repo: Repo)
    requires i <= |repos|
    ensures repo in PreparedUpTo(repos, i) <==> exists j :: 0 <= j < i && repos[j] == repo && repo.prepares
  {
    if i > 0 {
      PreparedMembers(repos, i - 1, repo);
    }
  }

  /** With sack failures too: the threaded loader returns normally exactly when every repository
      is prepared or may be skipped, and every prepared one is accepted by the sack. */
  lemma {:induction false} ReturnsExactlyWhen(repos: seq<Repo>, schedule: seq<Actor>)
    requires Execute(repos, schedule).Some? && Final(Execute(repos, schedule).value)
    ensures Execute(repos, schedule).value.mainPc.Returned? <==> NoFatalUpTo(repos, |repos|) && SackAcceptsAll(repos)
  {
    FinalSack(repos, schedule);
    var s := Execute(repos, schedule).value;
    if s.mainPc.Returned? {
      forall j | 0 <= j < |repos| && repos[j].prepares ensures repos[j].loads {
        PreparedMembers(repos, |repos|, repos[j]);
      }
    } else if s.mainPc.cause.SackFailed? {
      var repo := s.mainPc.cause.repo;
      assert repo == (s.sack + [repo])[|s.sack|];
      PreparedMembers(repos, s.next, repo);
    }
  }

  /** The two forms agree on whether the call returns normally exactly when the sequential one does not
      skip a repository that the sack rejects. */
  lemma {:induction false} AgreesOnReturning(repos: seq<Repo>, schedule: seq<Actor>)
    requires Execute(repos, schedule).Some? && Final(Execute(repos, schedule).value)
    ensures var sequential := SequentialFrom(repos, 0, []);
      (Execute(repos, schedule).value.mainPc.Returned? <==> sequential.Completed?) <==>
      (sequential.Completed? ==> SackAcceptsAll(repos))
  {
    ReturnsExactlyWhen(repos, schedule);
    CompletesExactlyWhen(repos, 0, []);
  }

  lemma {:induction false} CompletesExactlyWhen(repos: seq<Repo>, i: nat, sack: seq<Repo>)
    requires i <= |repos|
    ensures SequentialFrom(repos, i, sack).Completed? <==>
      forall j :: i <= j < |repos| ==> repos[j].skipIfUnavailable || (repos[j].prepares && repos[j].loads)
    decreases |repos| - i
  {
    if i < |repos| {
      CompletesExactlyWhen(repos, i + 1, if repos[i].prepares && repos[i].loads then sack + [repos[i]] else sack);
    }
  }

  /** The sequential text skips a sack failure that the threaded loader reports: with one
      skippable repository the sack rejects, the former completes and the latter always throws. */
  lemma {:induction false} SwallowedSackFailure(schedule: seq<Actor>)
    ensures var repos := [Repo(7, true, true, false)];
      && SequentialFrom(repos, 0, []) == Completed([])
      && (Execute(repos, schedule).Some? && Final(Execute(repos, schedule).value) ==>
            Execute(repos, schedule).value.mainPc == Failed(SackFailed(repos[0])))
  {
    var repos := [Repo(7, true, true, false)];
    assert SequentialFrom(repos, 0, []) == SequentialFrom(repos, 1, []);
    if Execute(repos, schedule).Some? && Final(Execute(repos, schedule).value) {
      ReturnsExactlyWhen(repos, schedule);
      FinalSack(repos, schedule);
      var s := Execute(repos, schedule).value;
      assert !repos[0].loads;
      if s.mainPc.cause.SackFailed? {
        var repo := s.mainPc.cause.repo;
        assert repo == (s.sack + [repo])[|s.sack|];
        PreparedMembers(repos, s.next, repo);
      }
    }
  }

  // --------------------------------------------------------- who hears of a failure

  lemma ExecuteMore(repos: seq<Repo>, before: seq<Actor>, after: seq<Actor>)
    requires after != [] && Execute(repos, before + after).Some?
    ensures var n := |after| - 1;
            && Execute(repos, before + after[..n]).Some?
            && Execute(repos, before + after) == Step(repos, Execute(repos, before + after[..n]).value, after[n])
  {
    var n := |after| - 1;
    assert (before + after)[..|before + after| - 1] == before + after[..n];
  }

  /** Main is on the way to throwing what the loader failed with, at this repository. */
  predicate Stopping(repos: seq<Repo>, s: State, failed: Repo, next: nat) {
    && s.next == next && !s.throwing && s.exceptPtr == Some(failed) && (s.loaderPc.Done? || s.loaderPc.SetFlag?)
    && !s.mainPc.Returned?
    && (s.mainPc.Failed? ==> s.mainPc == Failed(SackFailed(failed)))
    && (InLoop(s.mainPc) ==> s.mainPc.CheckException? || s.mainPc.JoinFailed?)
    && (next == |repos| ||
        (s.except && (InLoop(s.mainPc) || s.mainPc.Rethrow? || s.mainPc.Failed?)))
  }

  lemma StoppingStep(repos: seq<Repo>, s: State, actor: Actor, failed: Repo, next: nat)
    requires Inv(repos, s) && Stopping(repos, s, failed, next) && Step(repos, s, actor).Some?
    ensures Stopping(repos, Step(repos, s, actor).value, failed, next)
  {
    hide MainStep, LoaderStep, Stopping, Inv;
    match actor
    case MainThread => StoppingMain(repos, s, failed, next);
    case LoaderThread => StoppingLoader(repos, s, failed, next);
    case SpuriousWakeUp => StoppingLoaderEnds(repos, s, failed, next);
  }

  lemma StoppingMain(repos: seq<Repo>, s: State, failed: Repo, next: nat)
    requires Inv(repos, s) && Stopping(repos, s, failed, next) && MainStep(repos, s).Some?
    ensures Stopping(repos, MainStep(repos, s).value, failed, next)
  {
    hide PreparedUpTo, NoFatalUpTo, SackMirrors, VectorInv, MutexInv, WakeInv;
  }

  lemma StoppingLoader(repos: seq<Repo>, s: State, failed: Repo, next: nat)
    requires Stopping(repos, s, failed, next) && LoaderStep(s).Some?
    ensures Stopping(repos, LoaderStep(s).value, failed, next)
  {
  }

  lemma StoppingLoaderEnds(repos: seq<Repo>, s: State, failed: Repo, next: nat)
    requires Stopping(repos, s, failed, next)
    ensures !s.loaderPc.Wait?
  {
  }

  lemma {:induction false} KeepsStopping(repos: seq<Repo>, before: seq<Actor>, after: seq<Actor>, failed: Repo,
                                         next: nat)
    requires Execute(repos, before + after).Some?
    requires Execute(repos, before).Some? && Stopping(repos, Execute(repos, before).value, failed, next)
    ensures Stopping(repos, Execute(repos, before + after).value, failed, next)
  {
    hide Step, Stopping, Inv;
    if after == [] {
      assert before + after == before;
    } else {
      ExecuteMore(repos, before, after);
      var n := |after| - 1;
      KeepsStopping(repos, before, after[..n], failed, next);
      ReachableInv(repos, before + after[..n]);
      StoppingStep(repos, Execute(repos, before + after[..n]).value, after[n], failed, next);
    }
  }

  /** Main has passed the look at the flag for this repository. */
  predicate Beyond(s: State, next: nat) {
    || s.next > next
    || (s.next == next && (s.throwing || (InLoop(s.mainPc) && !s.mainPc.CheckException? && !s.mainPc.JoinFailed?)))
  }

  lemma BeyondStep(repos: seq<Repo>, s: State, actor: Actor, next: nat)
    requires Inv(repos, s) && Beyond(s, next) && Step(repos, s, actor).Some?
    ensures Beyond(Step(repos, s, actor).value, next)
  {
    hide MainStep, LoaderStep, Beyond, Inv;
    match actor
    case MainThread => BeyondMain(repos, s, next);
    case LoaderThread =>
      LoaderStepFrame(s);
      SameBeyond(s, LoaderStep(s).value, next);
    case SpuriousWakeUp => SameBeyond(s, Wake(s), next);
  }

  lemma SameBeyond(s: State, t: State, next: nat)
    requires Beyond(s, next) && t.mainPc == s.mainPc && t.next == s.next && t.throwing == s.throwing
    ensures Beyond(t, next)
  {
  }

  lemma BeyondMain(repos: seq<Repo>, s: State, next: nat)
    requires Inv(repos, s) && Beyond(s, next) && MainStep(repos, s).Some?
    ensures Beyond(MainStep(repos, s).value, next)
  {
    hide VectorInv, LoaderInv, MutexInv, WakeInv, JoinInv, ExceptionInv, NoFatalUpTo;
  }

  lemma {:induction false} StaysBeyond(repos: seq<Repo>, before: seq<Actor>, after: seq<Actor>, next: nat)
    requires Execute(repos, before + after).Some?
    requires Execute(repos, before).Some? && Beyond(Execute(repos, before).value, next)
    ensures Beyond(Execute(repos, before + after).value, next)
  {
    hide Step, Beyond, Inv;
    if after == [] {
      assert before + after == before;
    } else {
      ExecuteMore(repos, before, after);
      var n := |after| - 1;
      StaysBeyond(repos, before, after[..n], next);
      ReachableInv(repos, before + after[..n]);
      BeyondStep(repos, Execute(repos, before + after[..n]).value, after[n], next);
    }
  }

  /** Every finished continuation throws the failed load, and main touches no other repository. */
  ghost predicate AlwaysThrows(repos: seq<Repo>, before: seq<Actor>, failed: Repo, next: nat) {
    forall after :: Execute(repos, before + after).Some? && Final(Execute(repos, before + after).value) ==>
      var t := Execute(repos, before + after).value;
      t.mainPc == Failed(SackFailed(failed)) && t.next == next
  }

  /** A load has failed and main is about to look at the flag. Every finished continuation then throws
      that failure, and main touches no other repository, exactly when the loader has raised the flag or
      no repository is left. */
  lemma {:induction false} FailureIsThrown(repos: seq<Repo>, before: seq<Actor>)
    requires Execute(repos, before).Some?
    requires Execute(repos, before).value.mainPc.CheckException? && Execute(repos, before).value.exceptPtr.Some?
    ensures var s := Execute(repos, before).value;
            AlwaysThrows(repos, before, s.exceptPtr.value, s.next) <==> s.except || s.next == |repos|
  {
    hide Step, Inv, Stopping, Beyond;
    ReachableInv(repos, before);
    var s := Execute(repos, before).value;
    var failed := s.exceptPtr.value;
    if s.except || s.next == |repos| {
      StartsStopping(repos, s);
      forall after | Execute(repos, before + after).Some? && Final(Execute(repos, before + after).value)
        ensures var t := Execute(repos, before + after).value;
                t.mainPc == Failed(SackFailed(failed)) && t.next == s.next
      {
        KeepsStopping(repos, before, after, failed, s.next);
        StoppedEnds(repos, Execute(repos, before + after).value, failed, s.next);
      }
    } else {
      var after := GoesOn(repos, before);
      var t := Execute(repos, before + after).value;
      assert !(t.mainPc == Failed(SackFailed(failed)) && t.next == s.next);
    }
  }

  lemma StartsStopping(repos: seq<Repo>, s: State)
    requires Inv(repos, s) && s.mainPc.CheckException? && s.exceptPtr.Some?
    requires s.except || s.next == |repos|
    ensures Stopping(repos, s, s.exceptPtr.value, s.next)
  {
  }

  lemma StoppedEnds(repos: seq<Repo>, t: State, failed: Repo, next: nat)
    requires Stopping(repos, t, failed, next) && Final(t)
    ensures t.mainPc == Failed(SackFailed(failed)) && t.next == next
  {
  }

  /** While the flag is down and a repository is left, main can go on to it. */
  lemma {:induction false} GoesOn(repos: seq<Repo>, before: seq<Actor>) returns (after: seq<Actor>)
    requires Execute(repos, before).Some?
    requires var s := Execute(repos, before).value;
             s.mainPc.CheckException? && !s.except && s.next != |repos|
    ensures Execute(repos, before + after).Some? && Final(Execute(repos, before + after).value)
    ensures var s, t := Execute(repos, before).value, Execute(repos, before + after).value;
            t.next > s.next || (t.mainPc.Failed? && t.mainPc.cause.PrepareFailed?)
  {
    hide Inv, Step, Beyond, Work, Execute;
    ReachableInv(repos, before);
    var s := Execute(repos, before).value;
    LooksOnce(repos, s);
    ExecuteOneMore(repos, before, MainThread);
    var longer := before + [MainThread];
    var rest := RunsCanFinish(repos, longer);
    after := [MainThread] + rest;
    assert before + after == longer + rest;
    StaysBeyond(repos, longer, rest, s.next);
    ReachableInv(repos, longer + rest);
    BeyondEnds(repos, Execute(repos, longer + rest).value, s.next);
  }

  lemma LooksOnce(repos: seq<Repo>, s: State)
    requires Inv(repos, s) && s.mainPc.CheckException? && !s.except && s.next != |repos|
    ensures Step(repos, s, MainThread).Some? && Beyond(Step(repos, s, MainThread).value, s.next)
  {
  }

  lemma BeyondEnds(repos: seq<Repo>, t: State, next: nat)
    requires Inv(repos, t) && Beyond(t, next) && Final(t)
    ensures t.next > next || (t.mainPc.Failed? && t.mainPc.cause.PrepareFailed?)
  {
  }

  /** What the sack still gets once the flag is up: the item that is being loaded, and nothing else. */
  predicate Winding(s: State, sack: seq<Repo>, item: Item) {
    && s.except
    && (|| s.sack == sack
        || (item.Entry? && s.sack == sack + [item.repo] && !s.loaderPc.Load?))
    && (s.loaderPc.Load? ==> s.item == item && s.sack == sack)
  }

  lemma WindingStep(repos: seq<Repo>, s: State, actor: Actor, sack: seq<Repo>, item: Item)
    requires Winding(s, sack, item) && Step(repos, s, actor).Some?
    ensures Winding(Step(repos, s, actor).value, sack, item)
  {
  }

  /** After either thread has raised the flag, the loader finishes the load it is at, if any, and starts
      no other. */
  lemma {:induction false} FlagStopsLoading(repos: seq<Repo>, before: seq<Actor>, after: seq<Actor>)
    requires Execute(repos, before + after).Some?
    requires Execute(repos, before).Some? && Execute(repos, before).value.except
    ensures var s, t := Execute(repos, before).value, Execute(repos, before + after).value;
            t.sack == s.sack || (s.loaderPc.Load? && s.item.Entry? && t.sack == s.sack + [s.item.repo])
  {
    hide Step;
    var s := Execute(repos, before).value;
    var item := if s.loaderPc.Load? then s.item else Stop;
    KeepsWinding(repos, before, after, s.sack, item);
  }

  lemma {:induction false} KeepsWinding(repos: seq<Repo>, before: seq<Actor>, after: seq<Actor>, sack: seq<Repo>,
                                        item: Item)
    requires Execute(repos, before + after).Some?
    requires Execute(repos, before).Some? && Winding(Execute(repos, before).value, sack, item)
    ensures Winding(Execute(repos, before + after).value, sack, item)
  {
    hide Step, Winding;
    if after == [] {
      assert before + after == before;
    } else {
      ExecuteMore(repos, before, after);
      var n := |after| - 1;
      KeepsWinding(repos, before, after[..n], sack, item);
      WindingStep(repos, Execute(repos, before + after[..n]).value, after[n], sack, item);
    }
  }
}
