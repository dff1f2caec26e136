/** Lock tables of several processes that share one directory of lock files. A process lock is
  backed by a file holding the pid of its owner; a file whose pid no longer runs is taken over.

  Each take and each release is one step. Processes start, exit or crash at any time; a crash
  leaves the files of the process behind, and pids may be used again.
 */
module LockFiles {
  import opened Options
  import opened LockTable
  import opened LockAccounting

  type Pid = nat

  /** The tables of the processes that use the lock object, all running pids, and for each lock
      file that exists the pid read from it, 0 when it cannot be read as one. */
  datatype System = System(tables: map<Pid, Table>, live: set<Pid>, files: map<LockType, Pid>)

  datatype Event =
    | TakeEvent(pid: Pid, thread: Thread, lockType: LockType, mode: LockMode, writable: bool)
    | ReleaseEvent(pid: Pid, thread: Thread, id: nat, deletable: bool)
    | Start(pid: Pid, usesLocks: bool)
    | Exit(pid: Pid)

  function Init(): System {
    System(map[], {}, map[])
  }

  /** No lock file of this type, or one whose pid can be read and does not run any more. */
  predicate Claimable(s: System, lockType: LockType) {
    lockType in s.files ==> s.files[lockType] != 0 && s.files[lockType] !in s.live
  }

  predicate Enabled(s: System, e: Event) {
    match e
    case TakeEvent(pid, _, _, _, _) => pid in s.tables
    case ReleaseEvent(pid, _, _, _) => pid in s.tables
    case Start(pid, _) => pid != 0 && pid !in s.live
    case Exit(pid) => pid in s.live
  }

  /** The lock type whose file a release would have to delete. */
  function FileToDelete(t: Table, thread: Thread, id: nat): Option<LockType> {
    var i := IndexById(t.items, id);
    if id != 0 && i < |t.items| && t.items[i].owner == thread && t.items[i].refcount == 1 &&
       t.items[i].mode.ProcessMode?
    then Some(t.items[i].lockType)
    else None
  }

  function Next(s: System, e: Event): System
    requires Enabled(s, e)
  {
    match e
    case TakeEvent(pid, thread, lockType, mode, writable) =>
      var (t, id) := Take(s.tables[pid], thread, lockType, mode, Claimable(s, lockType) && writable);
      var created := mode.ProcessMode? && |t.items| > |s.tables[pid].items|;
      s.(tables := s.tables[pid := t], files := if created then s.files[lockType := pid] else s.files)
    case ReleaseEvent(pid, thread, id, deletable) =>
      var file := FileToDelete(s.tables[pid], thread, id);
      var deletes := file.Some? && deletable && file.value in s.files;
      var t := Release(s.tables[pid], thread, id, deletes).0;
      s.(tables := s.tables[pid := t], files := if deletes then s.files - {file.value} else s.files)
    case Start(pid, usesLocks) =>
      s.(live := s.live + {pid}, tables := if usesLocks then s.tables[pid := Table([], 1)] else s.tables)
    case Exit(pid) => s.(live := s.live - {pid}, tables := s.tables - {pid})
  }

  /** The system a sequence of events leads to, or None when some event could not happen. */
  function Execute(events: seq<Event>): Option<System> {
    if events == [] then Some(Init())
    else
      match Execute(events[..|events| - 1])
      case None => None
      case Some(s) => if Enabled(s, events[|events| - 1]) then Some(Next(s, events[|events| - 1])) else None
  }

  // --------------------------------------------------------------- invariant

  /** No two items have one id. */
  predicate Numbered(t: Table) {
    DistinctIds(t.items) && 1 <= t.nextId && forall i :: 0 <= i < |t.items| ==> 1 <= t.items[i].id < t.nextId
  }

  /** The process has at most one item of each type and mode, and its process items are backed by
      files with its pid. */
  predicate Backed(t: Table, pid: Pid, files: map<LockType, Pid>) {
    && DistinctKinds(t.items)
    && forall i :: 0 <= i < |t.items| && t.items[i].mode.ProcessMode? ==>
         t.items[i].lockType in files && files[t.items[i].lockType] == pid
  }

  predicate Inv(s: System) {
    && s.tables.Keys <= s.live && 0 !in s.live
    && forall pid :: pid in s.tables ==> Backed(s.tables[pid], pid, s.files) && Numbered(s.tables[pid])
  }

  lemma TakeNumbered(t: Table, thread: Thread, lockType: LockType, mode: LockMode, claimable: bool)
    requires Numbered(t)
    ensures Numbered(Take(t, thread, lockType, mode, claimable).0)
  {
    hide TakeIndex;
  }

  lemma ReleaseNumbered(t: Table, thread: Thread, id: nat, deletable: bool)
    requires Numbered(t)
    ensures Numbered(Release(t, thread, id, deletable).0)
  {
    hide IndexById;
    var i := IndexById(t.items, id);
    var u := Release(t, thread, id, deletable).0;
    if |u.items| < |t.items| {
      assert forall j :: 0 <= j < |u.items| ==> u.items[j] == t.items[if j < i then j else j + 1];
    }
  }

  lemma TakeBacked(s: System, pid: Pid, thread: Thread, lockType: LockType, mode: LockMode, claimable: bool)
    requires Inv(s) && pid in s.tables
    ensures var (t, id) := Take(s.tables[pid], thread, lockType, mode, claimable);
      var created := mode.ProcessMode? && |t.items| > |s.tables[pid].items|;
      && (created ==> claimable)
      && Backed(t, pid, if created then s.files[lockType := pid] else s.files)
  {
    hide TakeIndex, Claimable, Numbered;
    var t := s.tables[pid];
    var i := TakeIndex(t.items, lockType, mode);
    if i == |t.items| {
      NewKind(t.items, lockType, mode);
    }
  }

  lemma RemoveBacked(t: Table, i: nat, pid: Pid, files: map<LockType, Pid>, deletes: bool)
    requires Backed(t, pid, files) && i < |t.items|
    requires t.items[i].mode.ProcessMode? || !deletes
    ensures Backed(t.(items := t.items[..i] + t.items[i + 1..]), pid,
                   if deletes then files - {t.items[i].lockType} else files)
  {
    var items := t.items[..i] + t.items[i + 1..];
    assert forall j :: 0 <= j < |items| ==> items[j] == t.items[if j < i then j else j + 1];
  }

  lemma ReleaseBacked(s: System, pid: Pid, thread: Thread, id: nat, deletable: bool)
    requires Inv(s) && pid in s.tables
    ensures var file := FileToDelete(s.tables[pid], thread, id);
      var deletes := file.Some? && deletable && file.value in s.files;
      && (deletes ==> s.files[file.value] == pid)
      && Backed(Release(s.tables[pid], thread, id, deletes).0, pid, if deletes then s.files - {file.value} else s.files)
  {
    hide IndexById, Numbered;
    var t := s.tables[pid];
    var i := IndexById(t.items, id);
    var file := FileToDelete(t, thread, id);
    var deletes := file.Some? && deletable && file.value in s.files;
    var u := Release(t, thread, id, deletes).0;
    if |u.items| < |t.items| {
      RemoveBacked(t, i, pid, s.files, deletes);
    }
  }

  lemma NewNumbered()
    ensures Numbered(Table([], 1))
  {
  }

  lemma StepInv(s: System, e: Event)
    requires Inv(s) && Enabled(s, e)
    ensures Inv(Next(s, e))
  {
    hide Take, Release, FileToDelete, Numbered;
    NewNumbered();
    match e
    case TakeEvent(pid, thread, lockType, mode, writable) =>
      TakeBacked(s, pid, thread, lockType, mode, Claimable(s, lockType) && writable);
      TakeNumbered(s.tables[pid], thread, lockType, mode, Claimable(s, lockType) && writable);
    case ReleaseEvent(pid, thread, id, deletable) =>
      ReleaseBacked(s, pid, thread, id, deletable);
      var file := FileToDelete(s.tables[pid], thread, id);
      ReleaseNumbered(s.tables[pid], thread, id, file.Some? && deletable && file.value in s.files);
    case Start(pid, usesLocks) =>
    case Exit(pid) =>
  }

  lemma {:induction false} ReachableInv(events: seq<Event>)
    requires Execute(events).Some?
    ensures Inv(Execute(events).value)
  {
    if events != [] {
      ReachableInv(events[..|events| - 1]);
      StepInv(Execute(events[..|events| - 1]).value, events[|events| - 1]);
    }
  }

  // ---------------------------------------------------------------- theorems

  /** In every run, with any crashes, stale files, reused pids and failed writes or deletions: two
      running processes never hold a process lock of one type at once, and inside a process no
      type and mode has two items, hence not two owners. */
  lemma {:induction false} MutualExclusion(events: seq<Event>, p: Pid, q: Pid, lockType: LockType)
    requires Execute(events).Some?
    requires p in Execute(events).value.tables && q in Execute(events).value.tables
    ensures var t, u := Execute(events).value.tables[p], Execute(events).value.tables[q];
      && (HoldsMode(t.items, lockType, ProcessMode) && HoldsMode(u.items, lockType, ProcessMode) ==> p == q)
      && DistinctKinds(t.items)
  {
    ReachableInv(events);
  }

  /** While a process holds a process lock, no other process can take it; once the holder is gone
      without releasing it, any process that can write the file gets it. */
  lemma {:induction false} CrashFreesTheLock(events: seq<Event>, p: Pid, q: Pid, thread: Thread, lockType: LockType)
    requires Execute(events).Some?
    requires p in Execute(events).value.tables && q in Execute(events).value.tables && p != q
    requires HoldsMode(Execute(events).value.tables[p].items, lockType, ProcessMode)
    ensures var s, take := Execute(events).value, TakeEvent(q, thread, lockType, ProcessMode, true);
      && Enabled(s, Exit(p))
      && Next(s, take) == s
      && HoldsMode(Next(Next(s, Exit(p)), take).tables[q].items, lockType, ProcessMode)
  {
    ReachableInv(events);
    MutualExclusion(events, p, q, lockType);
    var s := Execute(events).value;
    var t := s.tables[q];
    assert TakeIndex(t.items, lockType, ProcessMode) == |t.items|;
    assert s.tables[q := t] == s.tables;
    var gone := Next(s, Exit(p));
    var u := Next(gone, TakeEvent(q, thread, lockType, ProcessMode, true)).tables[q];
    assert u.items[|t.items|] == Item(thread, t.nextId, 1, ProcessMode, lockType);
  }

  /** Without permission to write the file a process cannot take a process lock that it does not hold, and a
      process that ends leaves its files behind. */
  lemma FilesStay(s: System, p: Pid, q: Pid, thread: Thread, lockType: LockType)
    requires Inv(s) && p in s.tables && q in s.tables && !HoldsMode(s.tables[q].items, lockType, ProcessMode)
    ensures Next(s, TakeEvent(q, thread, lockType, ProcessMode, false)) == s
    ensures Next(s, Exit(p)).files == s.files
  {
    var t := s.tables[q];
    assert TakeIndex(t.items, lockType, ProcessMode) == |t.items|;
    assert s.tables[q := t] == s.tables;
  }

  /** The owner's release of a process lock keeps it while it was taken more than once, and else frees it
      for any other process that can write the file. */
  lemma {:induction false} ReleaseFreesTheLock(events: seq<Event>, p: Pid, i: nat, q: Pid, thread: Thread)
    requires Execute(events).Some?
    requires p in Execute(events).value.tables && q in Execute(events).value.tables && p != q
    requires i < |Execute(events).value.tables[p].items|
    requires var item := Execute(events).value.tables[p].items[i]; item.mode.ProcessMode? && item.refcount >= 1
    ensures var s := Execute(events).value;
      var item := s.tables[p].items[i];
      var released := Next(s, ReleaseEvent(p, item.owner, item.id, true));
      && (HoldsMode(released.tables[p].items, item.lockType, ProcessMode) <==> item.refcount > 1)
      && (item.refcount == 1 ==>
            HoldsMode(Next(released, TakeEvent(q, thread, item.lockType, ProcessMode, true)).tables[q].items,
                      item.lockType, ProcessMode))
  {
    hide Execute, Inv, Next, Take, Release, HoldsMode;
    ReachableInv(events);
    var s := Execute(events).value;
    var item := s.tables[p].items[i];
    var release := ReleaseEvent(p, item.owner, item.id, true);
    ReleasedByOwner(s, p, i);
    StepInv(s, release);
    if item.refcount == 1 {
      OtherTables(s, release, q);
      TakeHolds(Next(s, release), q, thread, item.lockType);
      TakeIsNext(Next(s, release), q, thread, item.lockType);
    }
  }

  lemma ReleasedByOwner(s: System, p: Pid, i: nat)
    requires Inv(s) && p in s.tables && i < |s.tables[p].items|
    requires s.tables[p].items[i].mode.ProcessMode? && s.tables[p].items[i].refcount >= 1
    ensures var item := s.tables[p].items[i];
      var released := Next(s, ReleaseEvent(p, item.owner, item.id, true));
      && p in released.tables
      && (HoldsMode(released.tables[p].items, item.lockType, ProcessMode) <==> item.refcount > 1)
      && (item.refcount == 1 ==> Claimable(released, item.lockType))
  {
    var t := s.tables[p];
    var item := t.items[i];
    SoleId(t.items, i);
    var u := Next(s, ReleaseEvent(p, item.owner, item.id, true)).tables[p];
    if item.refcount > 1 {
      assert u.items[i].lockType == item.lockType && u.items[i].mode.ProcessMode?;
    } else {
      assert forall j :: 0 <= j < |u.items| ==> u.items[j] == t.items[if j < i then j else j + 1];
    }
  }

  lemma OtherTables(s: System, e: Event, q: Pid)
    requires e.ReleaseEvent? && e.pid in s.tables && q in s.tables
    ensures q in Next(s, e).tables
  {
  }

  lemma TakeIsNext(s: System, q: Pid, thread: Thread, lockType: LockType)
    requires q in s.tables
    ensures Next(s, TakeEvent(q, thread, lockType, ProcessMode, true)).tables[q] ==
            Take(s.tables[q], thread, lockType, ProcessMode, Claimable(s, lockType)).0
  {
  }

  lemma SoleId(items: seq<Item>, i: nat)
    requires DistinctIds(items) && i < |items|
    ensures IndexById(items, items[i].id) == i
  {
  }

  /** Two processes that take a lock of one type, both looking at the directory before either writes its
      file. In every reachable system both then hold the lock exactly when it was free to take: that a
      take is one step is what MutualExclusion rests on. */
  lemma {:induction false} LookThenWriteRaces(events: seq<Event>, p: Pid, q: Pid, thread: Thread, thread': Thread,
                                              lockType: LockType)
    requires Execute(events).Some?
    requires p in Execute(events).value.tables && q in Execute(events).value.tables && p != q
    ensures var s := Execute(events).value;
      var a := Take(s.tables[p], thread, lockType, ProcessMode, Claimable(s, lockType)).0;
      var b := Take(s.tables[q], thread', lockType, ProcessMode, Claimable(s, lockType)).0;
      HoldsMode(a.items, lockType, ProcessMode) && HoldsMode(b.items, lockType, ProcessMode) <==> Claimable(s, lockType)
  {
    ReachableInv(events);
    var s := Execute(events).value;
    TakeHolds(s, p, thread, lockType);
    TakeHolds(s, q, thread', lockType);
    if !Claimable(s, lockType) {
      MutualExclusion(events, p, q, lockType);
    }
  }

  /** After a take a process holds the lock exactly when it held it before or the file let it. */
  lemma TakeHolds(s: System, pid: Pid, thread: Thread, lockType: LockType)
    requires Inv(s) && pid in s.tables
    ensures HoldsMode(s.tables[pid].items, lockType, ProcessMode) ==> !Claimable(s, lockType)
    ensures var u := Take(s.tables[pid], thread, lockType, ProcessMode, Claimable(s, lockType)).0;
            HoldsMode(u.items, lockType, ProcessMode) <==>
            HoldsMode(s.tables[pid].items, lockType, ProcessMode) || Claimable(s, lockType)
  {
    var t := s.tables[pid];
    var i := TakeIndex(t.items, lockType, ProcessMode);
    var u := Take(t, thread, lockType, ProcessMode, Claimable(s, lockType)).0;
    if i < |t.items| {
      assert u.items[i].mode == ProcessMode && u.items[i].lockType == lockType;
    } else if Claimable(s, lockType) {
      assert u.items[i] == Item(thread, t.nextId, 1, ProcessMode, lockType);
    }
  }
}
