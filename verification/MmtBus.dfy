// The one-slot publish/subscribe bus of src/modules/dynamic_conf/mmt_bus.c.

/** The shared structure as a value, and each critical section as a function on it. */
module BusModel {
  import opened Common

  const MAX_SUBSCRIBERS: nat := 3
  const MAX_MESSAGE_SIZE: nat := 10004  // sizeof(command_t): 2 + 2 + 10000
  const REPLY_DO_NOTHING := 1000
  const NO_PROCESS := 0                 // a slot whose pid is 0 is free
  const NO_CALLBACK := 0                // a NULL function pointer

  type Message = seq<char>

  datatype Subscriber = Subscriber(pid: nat, consumed: bool, callback: int, userData: int)

  datatype Bus = Bus(slots: seq<Subscriber>, nb: int, message: Message, reply: int) {
    predicate Valid() {
      && |slots| == MAX_SUBSCRIBERS
      && |message| <= MAX_MESSAGE_SIZE
    }
  }

  datatype PublishCode = Success | OverMessageSize | LockError | OldMessageNotConsumed

  datatype SubscribeCode = Registered | NoFreeSlot | CalledTwice

  // Memory filled with zeros, as mmap and memset leave it.
  function Created(): Bus {
    Bus(seq(MAX_SUBSCRIBERS, _ => Subscriber(NO_PROCESS, false, NO_CALLBACK, 0)), 0, [], 0)
  }

  function Unconsumed(slots: seq<Subscriber>): (r: seq<Subscriber>) {
    seq(|slots|, i requires 0 <= i < |slots| => slots[i].(consumed := false))
  }

  predicate Accepts(b: Bus, m: Message) {
    |m| <= MAX_MESSAGE_SIZE && b.reply != REPLY_DO_NOTHING
  }

  function Publish(b: Bus, m: Message): (r: (Bus, PublishCode)) {
    if |m| > MAX_MESSAGE_SIZE then (b, OverMessageSize)
    else if b.reply == REPLY_DO_NOTHING then (b, OldMessageNotConsumed)
    else (b.(slots := Unconsumed(b.slots), message := m, reply := REPLY_DO_NOTHING), Success)
  }

  // Index of the first slot held by pid, or |slots|.
  function Find(slots: seq<Subscriber>, pid: nat): (i: nat)
    ensures i <= |slots|
    ensures i < |slots| ==> slots[i].pid == pid
    ensures forall k :: 0 <= k < i ==> slots[k].pid != pid
  {
    if slots == [] then 0
    else if slots[0].pid == pid then 0
    else
      var i := Find(slots[1..], pid);
      assert forall k :: 1 <= k < |slots| ==> slots[k] == slots[1..][k - 1];
      1 + i
  }

  // Where a process is found depends only on which slots carry its pid.
  lemma FindByPid(a: seq<Subscriber>, b: seq<Subscriber>, pid: nat)
    requires |a| == |b|
    requires forall k :: 0 <= k < |a| ==> (a[k].pid == pid <==> b[k].pid == pid)
    ensures Find(a, pid) == Find(b, pid)
  {
    var i, j := Find(a, pid), Find(b, pid);
    assert i < |a| ==> b[i].pid == pid;
    assert j < |b| ==> a[j].pid == pid;
  }

  predicate IsRegistered(slots: seq<Subscriber>, pid: nat) {
    Find(slots, pid) < |slots|
  }

  // First critical section of a check: what, if anything, is handed to the callback.
  function Copy(b: Bus, pid: nat): (r: Option<nat>) {
    var i := Find(b.slots, pid);
    if i < |b.slots| && b.slots[i].callback != NO_CALLBACK && !b.slots[i].consumed then Some(i) else None
  }

  // Second critical section of a check.
  function Mark(b: Bus, slot: nat, ret: int): (r: Bus)
    requires slot < |b.slots|
  {
    b.(slots := b.slots[slot := b.slots[slot].(consumed := true)],
       reply := if b.reply == REPLY_DO_NOTHING then ret else b.reply)
  }

  // What a waiting publisher finds when it looks.
  function TakeReply(b: Bus): (r: Option<int>) {
    if b.reply == REPLY_DO_NOTHING then None else Some(b.reply)
  }

  // The scan of a subscription stops at whichever comes first: the caller's own slot or a free one.
  function Subscribe(b: Bus, pid: nat, callback: int, userData: int): (r: (Bus, SubscribeCode)) {
    var own := Find(b.slots, pid);
    var free := Find(b.slots, NO_PROCESS);
    if own < |b.slots| && own <= free then (b, CalledTwice)
    else if free < |b.slots| then
      (b.(slots := b.slots[free := Subscriber(pid, true, callback, userData)], nb := (b.nb + 1) % 256), Registered)
    else (b, NoFreeSlot)
  }

  function Unsubscribe(b: Bus, pid: nat): (r: (Bus, bool)) {
    var i := Find(b.slots, pid);
    if i < |b.slots| then
      (b.(slots := b.slots[i := b.slots[i].(pid := NO_PROCESS)], nb := (b.nb - 1) % 256), true)
    else (b, false)
  }

  function Occupied(slots: seq<Subscriber>): (n: nat)
    ensures n <= |slots|
  {
    if slots == [] then 0
    else Occupied(slots[..|slots| - 1]) + (if slots[|slots| - 1].pid == NO_PROCESS then 0 else 1)
  }

  lemma {:induction false} OccupiedUpdate(slots: seq<Subscriber>, i: nat, s: Subscriber)
    requires i < |slots|
    ensures Occupied(slots[i := s]) ==
            Occupied(slots) - (if slots[i].pid == NO_PROCESS then 0 else 1) + (if s.pid == NO_PROCESS then 0 else 1)
  {
    var n := |slots| - 1;
    var after := slots[i := s];
    if i == n {
      assert after[..n] == slots[..n];
    } else {
      assert after[..n] == slots[..n][i := s];
      OccupiedUpdate(slots[..n], i, s);
    }
  }

  lemma {:induction false} OccupiedUnconsumed(slots: seq<Subscriber>)
    ensures Occupied(Unconsumed(slots)) == Occupied(slots)
  {
    if slots != [] {
      var n := |slots| - 1;
      assert Unconsumed(slots)[..n] == Unconsumed(slots[..n]);
      OccupiedUnconsumed(slots[..n]);
    }
  }
}

/** The structure as the C code keeps it in shared memory, updated in place under the mutex. */
module MmtBus {
  import opened Common
  import opened BusModel

  class SharedBus {
    const subLst: array<Subscriber>
    const message: array<char>
    var nbSubscribers: int
    var messageSize: nat
    var replyCode: int

    ghost predicate Valid()
      reads this
    {
      subLst.Length == MAX_SUBSCRIBERS && message.Length == MAX_MESSAGE_SIZE && messageSize <= MAX_MESSAGE_SIZE
    }

    ghost function State(): (b: Bus)
      requires Valid()
      reads this, subLst, message
      ensures b.Valid()
    {
      Bus(subLst[..], nbSubscribers, message[..messageSize], replyCode)
    }

    // mmt_bus_create
    constructor ()
      ensures Valid() && fresh(subLst) && fresh(message)
      ensures State() == Created()
    {
      subLst := new Subscriber[MAX_SUBSCRIBERS](_ => Subscriber(NO_PROCESS, false, NO_CALLBACK, 0));
      message := new char[MAX_MESSAGE_SIZE](_ => 0 as char);
      nbSubscribers, messageSize, replyCode := 0, 0, 0;
    }

    // The first critical section of mmt_bus_publish, preceded by the size test; locked says whether the lock succeeds.
    method Publish(m: array<char>, size: nat, locked: bool) returns (code: PublishCode)
      requires Valid() && size <= m.Length && m != message
      modifies this, subLst, message
      ensures Valid()
      ensures (State(), code) ==
              if size <= MAX_MESSAGE_SIZE && !locked then (old(State()), LockError)
              else BusModel.Publish(old(State()), old(m[..size]))
    {
      if size > MAX_MESSAGE_SIZE {
        return OverMessageSize;
      }
      if !locked {
        return LockError;
      }
      if replyCode == REPLY_DO_NOTHING {
        return OldMessageNotConsumed;
      }
      ghost var before := subLst[..];
      forall k | 0 <= k < size {
        message[k] := m[k];
      }
      messageSize := size;
      replyCode := REPLY_DO_NOTHING;
      for i := 0 to MAX_SUBSCRIBERS
        invariant Valid() && messageSize == size && replyCode == REPLY_DO_NOTHING
        invariant nbSubscribers == old(nbSubscribers)
        invariant message[..size] == old(m[..size])
        invariant forall k :: 0 <= k < i ==> subLst[k] == before[k].(consumed := false)
        invariant forall k :: i <= k < MAX_SUBSCRIBERS ==> subLst[k] == before[k]
      {
        subLst[i] := subLst[i].(consumed := false);
      }
      assert subLst[..] == Unconsumed(before);
      code := Success;
    }

    // One pass of the loop in which a publisher waits for a reply.
    method TakeReply() returns (r: Option<int>)
      requires Valid()
      ensures r == BusModel.TakeReply(State())
    {
      r := None;
      if replyCode != REPLY_DO_NOTHING {
        return Some(replyCode);
      }
    }

    // mmt_bus_subcriber_check up to the end of its first critical section.
    method CopyMessage(pid: nat) returns (slot: Option<nat>, copy: seq<char>)
      requires Valid()
      ensures slot == Copy(State(), pid)
      ensures slot.Some? ==> copy == State().message
    {
      slot, copy := None, [];
      for i := 0 to MAX_SUBSCRIBERS
        invariant forall k :: 0 <= k < i ==> subLst[k].pid != pid
      {
        if subLst[i].pid == pid {
          if subLst[i].callback != NO_CALLBACK {
            if !subLst[i].consumed {
              return Some(i), message[..messageSize];
            }
          }
          return None, [];
        }
      }
    }

    // The second critical section of mmt_bus_subcriber_check.
    method MarkConsumed(slot: nat, ret: int)
      requires Valid() && slot < MAX_SUBSCRIBERS
      modifies this`replyCode, subLst
      ensures Valid()
      ensures State() == Mark(old(State()), slot, ret)
    {
      subLst[slot] := subLst[slot].(consumed := true);
      if replyCode == REPLY_DO_NOTHING {
        replyCode := ret;
      }
    }

    // mmt_bus_subscribe
    method Subscribe(pid: nat, callback: int, userData: int) returns (code: SubscribeCode)
      requires Valid() && pid != NO_PROCESS
      modifies this`nbSubscribers, subLst
      ensures Valid()
      ensures (State(), code) == BusModel.Subscribe(old(State()), pid, callback, userData)
    {
      for i := 0 to MAX_SUBSCRIBERS
        invariant Valid() && State() == old(State())
        invariant forall k :: 0 <= k < i ==> subLst[k].pid != pid && subLst[k].pid != NO_PROCESS
      {
        if subLst[i].pid == pid {
          return CalledTwice;
        }
        if subLst[i].pid == NO_PROCESS {
          subLst[i] := Subscriber(pid, true, callback, userData);
          nbSubscribers := (nbSubscribers + 1) % 256;
          return Registered;
        }
      }
      code := NoFreeSlot;
    }

    // mmt_bus_unsubscribe
    method Unsubscribe(pid: nat) returns (found: bool)
      requires Valid()
      modifies this`nbSubscribers, subLst
      ensures Valid()
      ensures (State(), found) == BusModel.Unsubscribe(old(State()), pid)
    {
      for i := 0 to MAX_SUBSCRIBERS
        invariant Valid() && State() == old(State())
        invariant forall k :: 0 <= k < i ==> subLst[k].pid != pid
      {
        if subLst[i].pid == pid {
          subLst[i] := subLst[i].(pid := NO_PROCESS);
          nbSubscribers := (nbSubscribers - 1) % 256;
          return true;
        }
      }
      found := false;
    }
  }
}
