/** The lock object of dnf-lock.cpp: a table of counted lock items, shared by the threads of one
  process. `Table` and the functions on it are the specification of the class `DnfLock`.

  Not modelled as part of the table: the lock files. `claimable` stands for the answer the file
  system gives to a process lock that is not held yet (no file, or a stale one, and writable),
  and `deletable` for whether the file can be deleted at the last release. LockFiles computes
  the former from a shared directory.
 */
module LockTable {

  datatype LockType = Rpmdb | Repo | Metadata | Config

  datatype LockMode = ThreadMode | ProcessMode

  type Thread = nat

  datatype Item = Item(owner: Thread, id: nat, refcount: nat, mode: LockMode, lockType: LockType)

  datatype Table = Table(items: seq<Item>, nextId: nat)

  // ----------------------------------------------------------- specification

  /** The first item of this type and mode, or the number of items if there is none. */
  function IndexByTypeMode(items: seq<Item>, lockType: LockType, mode: LockMode): (i: nat)
    ensures i <= |items|
    ensures i < |items| ==> items[i].lockType == lockType && items[i].mode == mode
    ensures forall j :: 0 <= j < i ==> !(items[j].lockType == lockType && items[j].mode == mode)
  {
    if items == [] || (items[0].lockType == lockType && items[0].mode == mode) then 0
    else 1 + IndexByTypeMode(items[1..], lockType, mode)
  }

  function IndexById(items: seq<Item>, id: nat): (i: nat)
    ensures i <= |items|
    ensures i < |items| ==> items[i].id == id
    ensures forall j :: 0 <= j < i ==> items[j].id != id
  {
    if items == [] || items[0].id == id then 0 else 1 + IndexById(items[1..], id)
  }

  /** The item a take of this type and mode joins: one of the same mode, or for a thread lock
      also the process lock of the type. */
  function TakeIndex(items: seq<Item>, lockType: LockType, mode: LockMode): (i: nat)
    ensures i <= |items|
    ensures i < |items| ==> items[i].lockType == lockType
  {
    var same := IndexByTypeMode(items, lockType, mode);
    if same == |items| && mode.ThreadMode? then IndexByTypeMode(items, lockType, ProcessMode) else same
  }

  /** The table after a take, and the id returned; 0 is an error. */
  function Take(t: Table, thread: Thread, lockType: LockType, mode: LockMode, claimable: bool): (Table, nat) {
    var i := TakeIndex(t.items, lockType, mode);
    if i == |t.items| then
      if mode.ProcessMode? && !claimable then (t, 0)
      else (Table(t.items + [Item(thread, t.nextId, 1, mode, lockType)], t.nextId + 1), t.nextId)
    else if t.items[i].owner != thread then (t, 0)
    else (t.(items := t.items[i := t.items[i].(refcount := t.items[i].refcount + 1)]), t.items[i].id)
  }

  /** The table after a release, and whether it succeeded. The count of an item is a guint, so
      releasing an item that a failed deletion left at 0 wraps it around. */
  function Release(t: Table, thread: Thread, id: nat, deletable: bool): (Table, bool) {
    var i := IndexById(t.items, id);
    if id == 0 || i == |t.items| || t.items[i].owner != thread then (t, false)
    else
      var count := if t.items[i].refcount == 0 then 0xFFFF_FFFF else t.items[i].refcount - 1;
      if count > 0 then (t.(items := t.items[i := t.items[i].(refcount := count)]), true)
      else if t.items[i].mode.ProcessMode? && !deletable then
        (t.(items := t.items[i := t.items[i].(refcount := 0)]), false)
      else (t.(items := t.items[..i] + t.items[i + 1..]), true)
  }

  function TypeBit(lockType: LockType): nat {
    match lockType case Rpmdb => 1 case Repo => 2 case Metadata => 4 case Config => 8
  }

  /** The sum that dnf_lock_get_state builds with `+=`. */
  function BitSum(items: seq<Item>): nat {
    if items == [] then 0 else BitSum(items[..|items| - 1]) + TypeBit(items[|items| - 1].lockType)
  }

  /** The bit set of the types that are held in some mode. */
  function HeldBits(items: seq<Item>): nat {
    (if Holds(items, Rpmdb) then 1 else 0) + (if Holds(items, Repo) then 2 else 0) +
    (if Holds(items, Metadata) then 4 else 0) + (if Holds(items, Config) then 8 else 0)
  }

  predicate Holds(items: seq<Item>, lockType: LockType) {
    exists i :: 0 <= i < |items| && items[i].lockType == lockType
  }

  predicate HoldsMode(items: seq<Item>, lockType: LockType, mode: LockMode) {
    exists i :: 0 <= i < |items| && items[i].lockType == lockType && items[i].mode == mode
  }

  // --------------------------------------------------------------- the class

  class DnfLock {
    var itemArray: seq<Item>
    var nextId: nat

    constructor ()
      ensures Contents() == Table([], 1)
    {
      itemArray := [];
      nextId := 1;
    }

    ghost function Contents(): Table
      reads this
    {
      Table(itemArray, nextId)
    }

    method GetItemByTypeMode(lockType: LockType, mode: LockMode) returns (i: nat)
      ensures i == IndexByTypeMode(itemArray, lockType, mode)
    {
      i := 0;
      while i < |itemArray|
        invariant i <= |itemArray|
        invariant IndexByTypeMode(itemArray, lockType, mode) == i + IndexByTypeMode(itemArray[i..], lockType, mode)
      {
        if itemArray[i].lockType == lockType && itemArray[i].mode == mode {
          return;
        }
        i := i + 1;
      }
    }

    method GetItemById(id: nat) returns (i: nat)
      ensures i == IndexById(itemArray, id)
    {
      i := 0;
      while i < |itemArray|
        invariant i <= |itemArray|
        invariant IndexById(itemArray, id) == i + IndexById(itemArray[i..], id)
      {
        if itemArray[i].id == id {
          return;
        }
        i := i + 1;
      }
    }

    method CreateItem(thread: Thread, lockType: LockType, mode: LockMode) returns (id: nat)
      modifies this
      ensures id == old(nextId) && nextId == old(nextId) + 1
      ensures itemArray == old(itemArray) + [Item(thread, id, 1, mode, lockType)]
    {
      id := nextId;
      nextId := nextId + 1;
      itemArray := itemArray + [Item(thread, id, 1, mode, lockType)];
    }

    method GetState() returns (bitfield: nat)
      ensures bitfield == BitSum(itemArray)
    {
      bitfield := 0;
      var i := 0;
      while i < |itemArray|
        invariant i <= |itemArray|
        invariant bitfield == BitSum(itemArray[..i])
      {
        assert itemArray[..i + 1][..i] == itemArray[..i];
        bitfield := bitfield + TypeBit(itemArray[i].lockType);
        i := i + 1;
      }
      assert itemArray[..i] == itemArray;
    }

    method TakeLock(thread: Thread, lockType: LockType, mode: LockMode, claimable: bool) returns (id: nat)
      modifies this
      ensures (Contents(), id) == Take(old(Contents()), thread, lockType, mode, claimable)
    {
      var i := GetItemByTypeMode(lockType, mode);
      if i == |itemArray| && mode.ThreadMode? {
        i := GetItemByTypeMode(lockType, ProcessMode);
      }
      if i == |itemArray| && mode.ProcessMode? {
        if !claimable {
          return 0;
        }
      }
      if i == |itemArray| {
        id := CreateItem(thread, lockType, mode);
        return;
      }
      if itemArray[i].owner != thread {
        return 0;
      }
      itemArray := itemArray[i := itemArray[i].(refcount := itemArray[i].refcount + 1)];
      id := itemArray[i].id;
    }

    method ReleaseLock(thread: Thread, id: nat, deletable: bool) returns (ok: bool)
      modifies this
      ensures (Contents(), ok) == Release(old(Contents()), thread, id, deletable)
    {
      if id == 0 {
        return false;
      }
      var i := GetItemById(id);
      if i == |itemArray| {
        return false;
      }
      if itemArray[i].owner != thread {
        return false;
      }
      var count := if itemArray[i].refcount == 0 then 0xFFFF_FFFF else itemArray[i].refcount - 1;
      itemArray := itemArray[i := itemArray[i].(refcount := count)];
      if itemArray[i].refcount == 0 && itemArray[i].mode.ProcessMode? {
        if !deletable {
          return false;
        }
      }
      if itemArray[i].refcount == 0 {
        itemArray := itemArray[..i] + itemArray[i + 1..];
      }
      ok := true;
    }
  }
}
