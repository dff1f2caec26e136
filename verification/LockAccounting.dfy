/** What the lock table keeps over any history of takes and releases: ids are unique and never
  come back, each count is the balance of its id, and when the reported bit field is right. */
module LockAccounting {
  import opened Options
  import opened LockTable

  predicate DistinctIds(items: seq<Item>) {
    forall i, j :: 0 <= i < j < |items| ==> items[i].id != items[j].id
  }

  predicate DistinctKinds(items: seq<Item>) {
    forall i, j :: 0 <= i < j < |items| ==> items[i].lockType != items[j].lockType || items[i].mode != items[j].mode
  }

  predicate Valid(t: Table) {
    && 1 <= t.nextId
    && (forall i :: 0 <= i < |t.items| ==> 1 <= t.items[i].id < t.nextId && t.items[i].refcount >= 1)
    && DistinctIds(t.items) && DistinctKinds(t.items)
  }

  function Lookup(items: seq<Item>, id: nat): Option<Item> {
    if items == [] then None else if items[0].id == id then Some(items[0]) else Lookup(items[1..], id)
  }

  predicate Present(t: Table, id: nat) {
    Lookup(t.items, id).Some?
  }

  /** The count of the item with this id, 0 if there is none. */
  function Refcount(t: Table, id: nat): nat {
    match Lookup(t.items, id) case Some(item) => item.refcount case None => 0
  }

  predicate OwnedBy(t: Table, id: nat, thread: Thread) {
    Present(t, id) && Lookup(t.items, id).value.owner == thread
  }

  // ------------------------------------------------------------------ lookup

  lemma {:induction false} LookupIndex(items: seq<Item>, id: nat)
    ensures Lookup(items, id) ==
      if IndexById(items, id) < |items| then Some(items[IndexById(items, id)]) else None
  {
    if items != [] {
      LookupIndex(items[1..], id);
    }
  }

  lemma {:induction false} LookupAppend(items: seq<Item>, item: Item, id: nat)
    ensures Lookup(items + [item], id) ==
      if Lookup(items, id).Some? then Lookup(items, id) else if item.id == id then Some(item) else None
  {
    if items != [] {
      assert (items + [item])[1..] == items[1..] + [item];
      LookupAppend(items[1..], item, id);
    }
  }

  lemma {:induction false} LookupUpdate(items: seq<Item>, i: nat, item: Item, id: nat)
    requires i < |items| && items[i].id == item.id && DistinctIds(items)
    ensures Lookup(items[i := item], id) == if id == item.id then Some(item) else Lookup(items, id)
  {
    if i > 0 {
      assert items[i := item][1..] == items[1..][i - 1 := item];
      LookupUpdate(items[1..], i - 1, item, id);
    }
  }

  lemma {:induction false} LookupRemove(items: seq<Item>, i: nat, id: nat)
    requires i < |items| && DistinctIds(items)
    ensures Lookup(items[..i] + items[i + 1..], id) == if id == items[i].id then None else Lookup(items, id)
  {
    if i == 0 {
      assert items[..0] + items[1..] == items[1..];
      LookupAbsent(items[1..], items[0].id);
    } else {
      var rest := items[1..];
      assert DistinctIds(rest);
      LookupRemove(rest, i - 1, id);
      assert items[..i] + items[i + 1..] == [items[0]] + (rest[..i - 1] + rest[i..]);
      assert ([items[0]] + (rest[..i - 1] + rest[i..]))[1..] == rest[..i - 1] + rest[i..];
    }
  }

  lemma {:induction false} LookupAbsent(items: seq<Item>, id: nat)
    requires forall i :: 0 <= i < |items| ==> items[i].id != id
    ensures Lookup(items, id).None?
  {
    if items != [] {
      LookupAbsent(items[1..], id);
    }
  }

  // ------------------------------------------------------------------- takes

  lemma NewKind(items: seq<Item>, lockType: LockType, mode: LockMode)
    requires TakeIndex(items, lockType, mode) == |items|
    ensures forall i :: 0 <= i < |items| ==> items[i].lockType != lockType || items[i].mode != mode
  {
  }

  lemma TakeKeepsValid(t: Table, thread: Thread, lockType: LockType, mode: LockMode, claimable: bool)
    requires Valid(t)
    ensures Valid(Take(t, thread, lockType, mode, claimable).0)
  {
    var i := TakeIndex(t.items, lockType, mode);
    if i == |t.items| {
      NewKind(t.items, lockType, mode);
    }
  }

  /** A successful take returns an id that the thread then owns, either a new one or one it owned
      before, and raises that count alone by one; an error changes nothing. The clauses speak of
      any id `other`. */
  lemma TakeAccounts(t: Table, thread: Thread, lockType: LockType, mode: LockMode, claimable: bool, other: nat)
    requires Valid(t)
    ensures var (u, id) := Take(t, thread, lockType, mode, claimable);
      && (id == 0 ==> u == t)
      && (id != 0 ==>
            && OwnedBy(u, id, thread)
            && (if Present(t, id) then OwnedBy(t, id, thread) && u.nextId == t.nextId
                else id == t.nextId && u.nextId == t.nextId + 1))
      && Refcount(u, other) == Refcount(t, other) + (if other == id && id != 0 then 1 else 0)
      && (Present(u, other) <==> Present(t, other) || (other == id && id != 0))
      && (Present(t, other) ==> Lookup(u.items, other).value.owner == Lookup(t.items, other).value.owner)
  {
    var i := TakeIndex(t.items, lockType, mode);
    var (u, id) := Take(t, thread, lockType, mode, claimable);
    if id != 0 {
      if i == |t.items| {
        LookupAppend(t.items, u.items[i], other);
        LookupAppend(t.items, u.items[i], id);
        LookupAbsent(t.items, id);
      } else {
        LookupUpdate(t.items, i, t.items[i], id);
        LookupUpdate(t.items, i, t.items[i], other);
        assert t.items[i := t.items[i]] == t.items;
        LookupUpdate(t.items, i, u.items[i], id);
        LookupUpdate(t.items, i, u.items[i], other);
      }
    }
  }

  /** The item that a take joins: the one of this type and mode, or, for a thread take when there is none,
      the process lock of the type. */
  predicate Joined(items: seq<Item>, lockType: LockType, mode: LockMode, i: int) {
    && 0 <= i < |items| && items[i].lockType == lockType
    && (items[i].mode == mode || (mode.ThreadMode? && !HoldsMode(items, lockType, ThreadMode)))
  }

  lemma JoinedIndex(items: seq<Item>, lockType: LockType, mode: LockMode, i: int)
    requires DistinctKinds(items) && Joined(items, lockType, mode, i)
    ensures TakeIndex(items, lockType, mode) == i
  {
    var same := IndexByTypeMode(items, lockType, mode);
    assert same < |items| ==> HoldsMode(items, lockType, mode);
    if items[i].mode != mode {
      assert items[i].mode.ProcessMode?;
    }
  }

  lemma JoinedIfFound(items: seq<Item>, lockType: LockType, mode: LockMode)
    requires TakeIndex(items, lockType, mode) < |items|
    ensures Joined(items, lockType, mode, TakeIndex(items, lockType, mode))
  {
    var same := IndexByTypeMode(items, lockType, mode);
    if same == |items| {
      assert !HoldsMode(items, lockType, mode);
    }
  }

  /** A take where there is an item to join succeeds exactly for the owner of that item, and then raises its
      count and returns its id. */
  lemma TakeJoins(t: Table, thread: Thread, lockType: LockType, mode: LockMode, claimable: bool, i: nat)
    requires Valid(t) && Joined(t.items, lockType, mode, i)
    ensures t.items[i].id != 0
    ensures Take(t, thread, lockType, mode, claimable) ==
      (if t.items[i].owner == thread
       then (t.(items := t.items[i := t.items[i].(refcount := t.items[i].refcount + 1)]), t.items[i].id)
       else (t, 0))
  {
    hide TakeIndex, Joined;
    JoinedIndex(t.items, lockType, mode, i);
    assert Joined(t.items, lockType, mode, i) ==> i < |t.items| by { JoinedBound(t.items, lockType, mode, i); }
  }

  lemma JoinedBound(items: seq<Item>, lockType: LockType, mode: LockMode, i: int)
    requires Joined(items, lockType, mode, i)
    ensures 0 <= i < |items|
  {
  }

  /** A take where there is none succeeds always for a thread lock, and for a process lock exactly when the
      file can be claimed; it then appends a new item of the thread, counted once. */
  lemma TakeCreates(t: Table, thread: Thread, lockType: LockType, mode: LockMode, claimable: bool)
    requires Valid(t) && forall i :: !Joined(t.items, lockType, mode, i)
    ensures t.nextId != 0
    ensures Take(t, thread, lockType, mode, claimable) ==
      (if mode.ThreadMode? || claimable
       then (Table(t.items + [Item(thread, t.nextId, 1, mode, lockType)], t.nextId + 1), t.nextId)
       else (t, 0))
  {
    hide TakeIndex, Joined;
    if TakeIndex(t.items, lockType, mode) < |t.items| {
      JoinedIfFound(t.items, lockType, mode);
    }
  }

  // ---------------------------------------------------------------- releases

  /** The last release of a process lock whose file could not be deleted. */
  predicate DeleteFails(t: Table, thread: Thread, id: nat, deletable: bool) {
    && OwnedBy(t, id, thread) && Refcount(t, id) == 1 && !deletable
    && Lookup(t.items, id).value.mode.ProcessMode?
  }

  lemma RemoveKeepsValid(t: Table, i: nat)
    requires Valid(t) && i < |t.items|
    ensures Valid(t.(items := t.items[..i] + t.items[i + 1..]))
  {
    var items := t.items[..i] + t.items[i + 1..];
    assert forall j :: 0 <= j < |items| ==> items[j] == t.items[if j < i then j else j + 1];
  }

  lemma UpdateKeepsValid(t: Table, i: nat, item: Item)
    requires Valid(t) && i < |t.items|
    requires item.id == t.items[i].id && item.lockType == t.items[i].lockType && item.mode == t.items[i].mode
    ensures Valid(t.(items := t.items[i := item])) <==> item.refcount >= 1
  {
    assert t.items[i := item][i] == item;
  }

  /** A release leaves a valid table unless the deletion of a lock file fails; the item is then
      left behind with count 0. */
  lemma ReleaseKeepsValid(t: Table, thread: Thread, id: nat, deletable: bool)
    requires Valid(t)
    ensures Valid(Release(t, thread, id, deletable).0) <==> !DeleteFails(t, thread, id, deletable)
    ensures Release(t, thread, id, deletable).0.nextId == t.nextId
  {
    var i := IndexById(t.items, id);
    LookupIndex(t.items, id);
    var u := Release(t, thread, id, deletable).0;
    if |u.items| < |t.items| {
      RemoveKeepsValid(t, i);
    } else if u != t {
      UpdateKeepsValid(t, i, u.items[i]);
    }
  }

  /** A release succeeds exactly for the owner of a present id whose file, if it has to go, can be
      deleted; it lowers that count alone by one, and the id is gone at 0. Otherwise nothing
      changes, but for the count a failed deletion leaves at 0. */
  lemma ReleaseAccounts(t: Table, thread: Thread, id: nat, deletable: bool, other: nat)
    requires Valid(t)
    ensures var (u, ok) := Release(t, thread, id, deletable);
      && (ok <==> OwnedBy(t, id, thread) && !DeleteFails(t, thread, id, deletable))
      && (!ok && !DeleteFails(t, thread, id, deletable) ==> u == t)
      && (DeleteFails(t, thread, id, deletable) ==> Present(u, id) && Refcount(u, id) == 0)
      && (ok ==> Refcount(u, id) == Refcount(t, id) - 1 && (Present(u, id) <==> Refcount(u, id) > 0))
      && (other != id ==> Lookup(u.items, other) == Lookup(t.items, other))
      && (Present(u, other) ==>
            Present(t, other) && Lookup(u.items, other).value.owner == Lookup(t.items, other).value.owner)
  {
    var i := IndexById(t.items, id);
    LookupIndex(t.items, id);
    var (u, ok) := Release(t, thread, id, deletable);
    if |u.items| < |t.items| {
      LookupRemove(t.items, i, id);
      LookupRemove(t.items, i, other);
    } else if u != t {
      LookupUpdate(t.items, i, u.items[i], id);
      LookupUpdate(t.items, i, u.items[i], other);
    }
  }

  // -------------------------------------------------------------- histories

  datatype Op =
    | TakeOp(thread: Thread, lockType: LockType, mode: LockMode, claimable: bool)
    | ReleaseOp(thread: Thread, id: nat, deletable: bool)

  function Apply(t: Table, op: Op): Table {
    match op
    case TakeOp(thread, lockType, mode, claimable) => Take(t, thread, lockType, mode, claimable).0
    case ReleaseOp(thread, id, deletable) => Release(t, thread, id, deletable).0
  }

  /** +1 for a take that returned this id, -1 for a successful release of it. */
  function Change(t: Table, op: Op, id: nat): int {
    match op
    case TakeOp(thread, lockType, mode, claimable) =>
      if id != 0 && Take(t, thread, lockType, mode, claimable).1 == id then 1 else 0
    case ReleaseOp(thread, released, deletable) =>
      if released == id && Release(t, thread, released, deletable).1 then -1 else 0
  }

  function Run(ops: seq<Op>): Table {
    if ops == [] then Table([], 1) else Apply(Run(ops[..|ops| - 1]), ops[|ops| - 1])
  }

  /** Successful takes minus successful releases of the id over the history. */
  function Balance(ops: seq<Op>, id: nat): int {
    if ops == [] then 0
    else Balance(ops[..|ops| - 1], id) + Change(Run(ops[..|ops| - 1]), ops[|ops| - 1], id)
  }

  /** The operation is the last release of a process lock, and its file cannot be deleted. */
  predicate Fails(t: Table, op: Op) {
    op.ReleaseOp? && DeleteFails(t, op.thread, op.id, op.deletable)
  }

  /** The history never fails to delete a lock file that has to go. */
  predicate DeletesSucceed(ops: seq<Op>) {
    forall k :: 0 <= k < |ops| ==> !Fails(Run(ops[..k]), ops[k])
  }

  lemma PrefixSucceeds(ops: seq<Op>, n: nat)
    requires n <= |ops| && DeletesSucceed(ops)
    ensures DeletesSucceed(ops[..n])
  {
    hide Fails, Run;
    forall k | 0 <= k < n ensures !Fails(Run(ops[..n][..k]), ops[..n][k]) {
      assert ops[..n][..k] == ops[..k];
    }
  }

  lemma ApplyAccounts(t: Table, op: Op, id: nat)
    requires Valid(t) && !Fails(t, op)
    ensures Valid(Apply(t, op))
    ensures Refcount(Apply(t, op), id) == Refcount(t, id) + Change(t, op, id)
    ensures t.nextId <= Apply(t, op).nextId
    ensures !Present(t, id) && id < t.nextId ==> !Present(Apply(t, op), id)
  {
    match op
    case TakeOp(thread, lockType, mode, claimable) =>
      TakeAccounts(t, thread, lockType, mode, claimable, id);
      TakeKeepsValid(t, thread, lockType, mode, claimable);
    case ReleaseOp(thread, released, deletable) =>
      ReleaseAccounts(t, thread, released, deletable, id);
      ReleaseKeepsValid(t, thread, released, deletable);
  }

  lemma AbsentUnchanged(t: Table, op: Op, id: nat)
    requires Valid(t) && !Present(t, id) && id < t.nextId
    ensures Change(t, op, id) == 0
  {
    match op
    case TakeOp(thread, lockType, mode, claimable) =>
      TakeAccounts(t, thread, lockType, mode, claimable, id);
    case ReleaseOp(thread, released, deletable) =>
      ReleaseAccounts(t, thread, released, deletable, id);
  }

  lemma PresentIsCounted(t: Table, id: nat)
    requires Valid(t)
    ensures Present(t, id) <==> Refcount(t, id) > 0
  {
    LookupIndex(t.items, id);
  }

  /** As long as no deletion fails the table stays valid and the count of every id is its balance. */
  lemma {:induction false} RefcountIsBalance(ops: seq<Op>, id: nat)
    requires DeletesSucceed(ops)
    ensures Valid(Run(ops))
    ensures Refcount(Run(ops), id) == Balance(ops, id)
  {
    hide Apply, Change, Fails;
    if ops != [] {
      var n := |ops| - 1;
      PrefixSucceeds(ops, n);
      RefcountIsBalance(ops[..n], id);
      ApplyAccounts(Run(ops[..n]), ops[n], id);
    }
  }

  /** The first failure leaves a count of 0 where the balance is 1, and an invalid table. */
  lemma FailureShows(ops: seq<Op>, k: nat)
    requires k < |ops| && DeletesSucceed(ops[..k]) && Fails(Run(ops[..k]), ops[k])
    ensures Refcount(Run(ops[..k + 1]), ops[k].id) == 0 && Balance(ops[..k + 1], ops[k].id) == 1
    ensures !Valid(Run(ops[..k + 1]))
  {
    hide Valid, Release;
    var t, op := Run(ops[..k]), ops[k];
    assert ops[..k + 1][..k] == ops[..k];
    RefcountIsBalance(ops[..k], op.id);
    ReleaseAccounts(t, op.thread, op.id, op.deletable, op.id);
    ReleaseKeepsValid(t, op.thread, op.id, op.deletable);
  }

  lemma {:induction false} FirstFailure(ops: seq<Op>) returns (k: nat)
    requires !DeletesSucceed(ops)
    ensures k < |ops| && DeletesSucceed(ops[..k]) && Fails(Run(ops[..k]), ops[k]) && ops[k].ReleaseOp?
  {
    hide DeleteFails, Run;
    var n := |ops| - 1;
    if DeletesSucceed(ops[..n]) {
      assert forall i :: 0 <= i < n ==> ops[..n][..i] == ops[..i] && ops[..n][i] == ops[i];
      k := n;
    } else {
      k := FirstFailure(ops[..n]);
      assert ops[..n][..k] == ops[..k];
    }
  }

  /** Counts and balances agree all the way through a history exactly when it never fails to delete a
      lock file that has to go, and so does the table stay valid. */
  lemma {:induction false} BalancedExactly(ops: seq<Op>)
    ensures DeletesSucceed(ops) <==>
      forall k: nat, id: nat :: k <= |ops| ==> Refcount(Run(ops[..k]), id) == Balance(ops[..k], id)
    ensures DeletesSucceed(ops) <==> forall k: nat :: k <= |ops| ==> Valid(Run(ops[..k]))
  {
    hide Fails, Run, Balance, Refcount, Valid, DeletesSucceed;
    if DeletesSucceed(ops) {
      forall k: nat, id: nat | k <= |ops|
        ensures Valid(Run(ops[..k])) && Refcount(Run(ops[..k]), id) == Balance(ops[..k], id)
      {
        PrefixSucceeds(ops, k);
        RefcountIsBalance(ops[..k], id);
      }
      forall k: nat | k <= |ops| ensures Valid(Run(ops[..k])) {
        PrefixSucceeds(ops, k);
        RefcountIsBalance(ops[..k], 0);
      }
    } else {
      var k := FirstFailure(ops);
      FailureShows(ops, k);
      var j, id := k + 1, ops[k].id;
      assert Refcount(Run(ops[..j]), id) != Balance(ops[..j], id) && !Valid(Run(ops[..j]));
    }
  }

  /** An id that has been given out and fully released is never valid again: no later take
      returns it and no later release of it succeeds. */
  lemma {:induction false} ReleasedIdsStayDead(ops: seq<Op>, more: seq<Op>, id: nat)
    requires DeletesSucceed(ops + more)
    requires id < Run(ops).nextId && Balance(ops, id) == 0
    ensures !Present(Run(ops + more), id) && Balance(ops + more, id) == 0
    ensures id < Run(ops + more).nextId
    ensures forall op :: Change(Run(ops + more), op, id) == 0
    decreases more, 1
  {
    hide Apply, Change, Fails, DeletesSucceed, Valid;
    PrefixSucceeds(ops + more, |ops|);
    assert (ops + more)[..|ops|] == ops;
    RefcountIsBalance(ops, id);
    PresentIsCounted(Run(ops), id);
    if more == [] {
      assert ops + more == ops;
    } else {
      StaysDeadOnce(ops, more, id);
    }
    RefcountIsBalance(ops + more, id);
    forall op ensures Change(Run(ops + more), op, id) == 0 {
      AbsentUnchanged(Run(ops + more), op, id);
    }
  }

  lemma {:induction false} StaysDeadOnce(ops: seq<Op>, more: seq<Op>, id: nat)
    requires DeletesSucceed(ops + more) && more != []
    requires id < Run(ops).nextId && Balance(ops, id) == 0
    ensures !Present(Run(ops + more), id) && id < Run(ops + more).nextId
    ensures Balance(ops + more, id) == 0
    decreases more, 0
  {
    hide Apply, Change, Fails, Valid;
    var all, n := ops + more, |ops + more| - 1;
    var before := more[..|more| - 1];
    assert all[..n] == ops + before && all[n] == more[|more| - 1];
    PrefixSucceeds(all, n);
    ReleasedIdsStayDead(ops, before, id);
    RefcountIsBalance(ops + before, id);
    ApplyAccounts(Run(ops + before), all[n], id);
    AbsentUnchanged(Run(ops + before), all[n], id);
  }

  // -------------------------------------------------------------- the bit field

  function CountTypeMode(items: seq<Item>, lockType: LockType, mode: LockMode): nat {
    if items == [] then 0
    else
      CountTypeMode(items[..|items| - 1], lockType, mode) +
      (if items[|items| - 1].lockType == lockType && items[|items| - 1].mode == mode then 1 else 0)
  }

  lemma {:induction false} CountsOnce(items: seq<Item>, lockType: LockType, mode: LockMode)
    requires DistinctKinds(items)
    ensures CountTypeMode(items, lockType, mode) == if HoldsMode(items, lockType, mode) then 1 else 0
  {
    if items != [] {
      CountsOnce(items[..|items| - 1], lockType, mode);
    }
  }

  function CountType(items: seq<Item>, lockType: LockType): nat {
    CountTypeMode(items, lockType, ThreadMode) + CountTypeMode(items, lockType, ProcessMode)
  }

  lemma {:induction false} BitSumByType(items: seq<Item>)
    ensures BitSum(items) ==
      CountType(items, Rpmdb) + 2 * CountType(items, Repo) +
      4 * CountType(items, Metadata) + 8 * CountType(items, Config)
  {
    if items != [] {
      BitSumByType(items[..|items| - 1]);
    }
  }

  lemma CountOfType(items: seq<Item>, lockType: LockType)
    requires DistinctKinds(items)
    ensures CountType(items, lockType) == (if Holds(items, lockType) then 1 else 0)
      + (if HoldsMode(items, lockType, ThreadMode) && HoldsMode(items, lockType, ProcessMode) then 1 else 0)
  {
    CountsOnce(items, lockType, ThreadMode);
    CountsOnce(items, lockType, ProcessMode);
    if Holds(items, lockType) {
      var i :| 0 <= i < |items| && items[i].lockType == lockType;
      assert HoldsMode(items, lockType, items[i].mode);
    }
  }

  /** The sum reported by dnf_lock_get_state is the bit set of the held types exactly when no
      type is held as a thread lock and as a process lock at once. */
  lemma StateIsBitSetExactlyWhen(t: Table)
    requires Valid(t)
    ensures BitSum(t.items) == HeldBits(t.items) <==>
      forall lockType :: !(HoldsMode(t.items, lockType, ThreadMode) && HoldsMode(t.items, lockType, ProcessMode))
  {
    hide CountType, HoldsMode;
    BitSumByType(t.items);
    CountOfType(t.items, Rpmdb);
    CountOfType(t.items, Repo);
    CountOfType(t.items, Metadata);
    CountOfType(t.items, Config);
    if BitSum(t.items) == HeldBits(t.items) {
      forall lockType ensures !(HoldsMode(t.items, lockType, ThreadMode) && HoldsMode(t.items, lockType, ProcessMode)) {
        match lockType case Rpmdb => case Repo => case Metadata => case Config =>
      }
    }
  }

  /** The two modes of one type can be held at once, even by two threads: a process take does not
      look for a thread lock of its type, and the reported sum is then not the bit set. */
  lemma BothModesAtOnce(t: Table, thread: Thread, lockType: LockType)
    requires Valid(t) && HoldsMode(t.items, lockType, ThreadMode)
    ensures var u := Take(t, thread, lockType, ProcessMode, true).0;
      && HoldsMode(u.items, lockType, ThreadMode) && HoldsMode(u.items, lockType, ProcessMode)
      && BitSum(u.items) != HeldBits(u.items)
  {
    hide BitSum, HeldBits;
    var u := Take(t, thread, lockType, ProcessMode, true).0;
    var i := IndexByTypeMode(t.items, lockType, ProcessMode);
    assert u.items[i].lockType == lockType && u.items[i].mode == ProcessMode;
    var j :| 0 <= j < |t.items| && t.items[j].lockType == lockType && t.items[j].mode == ThreadMode;
    assert u.items[j].lockType == lockType && u.items[j].mode == ThreadMode;
    TakeKeepsValid(t, thread, lockType, ProcessMode, true);
    StateIsBitSetExactlyWhen(u);
  }
}
