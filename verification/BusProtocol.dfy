// The bus as a transition system: publishers and subscribers interleaved at the granularity of its critical sections.

module BusProtocol {
  import opened Common
  import opened BusModel

  // A process between the two critical sections of mmt_bus_subcriber_check.
  datatype Check =
    | Copied(slot: nat, msg: Message)
    | Answered(slot: nat, msg: Message, ret: int)

  datatype Event =
    | Accepted(msg: Message, prev: int, members: set<nat>)  // prev: the reply code it overwrote
    | Polled(pid: nat)
    | Called(pid: nat, msg: Message, ret: int)
    | Replied(pid: nat, ret: int)
    | Left(pid: nat)

  datatype System = System(bus: Bus, checks: map<nat, Check>, log: seq<Event>)

  datatype Step =
    | Publish(msg: Message)
    | Poll(pid: nat)
    | Callback(pid: nat, ret: int)
    | Mark(pid: nat)
    | MarkLockFails(pid: nat)
    | Subscribe(pid: nat, callback: int, userData: int)
    | Unsubscribe(pid: nat)

  function Members(slots: seq<Subscriber>): (r: set<nat>) {
    set i | 0 <= i < |slots| && slots[i].pid != NO_PROCESS :: slots[i].pid
  }

  predicate Enabled(s: System, step: Step) {
    match step
    case Publish(m) => Accepts(s.bus, m)
    case Poll(p) =>
      var i := Find(s.bus.slots, p);
      p != NO_PROCESS && p !in s.checks && i < |s.bus.slots| && s.bus.slots[i].callback != NO_CALLBACK
    case Callback(p, _) => p in s.checks && s.checks[p].Copied?
    case Mark(p) => p in s.checks && s.checks[p].Answered?
    case MarkLockFails(p) => p in s.checks && s.checks[p].Answered?
    case Subscribe(p, _, _) => p != NO_PROCESS && p !in s.checks
    case Unsubscribe(p) => p != NO_PROCESS && p !in s.checks && IsRegistered(s.bus.slots, p)
  }

  function Events(s: System, step: Step): (r: seq<Event>)
    requires Enabled(s, step)
  {
    match step
    case Publish(m) => [Accepted(m, s.bus.reply, Members(s.bus.slots))]
    case Poll(p) => [Polled(p)]
    case Callback(p, ret) => [Called(p, s.checks[p].msg, ret)]
    case Mark(p) => [Replied(p, s.checks[p].ret)]
    case MarkLockFails(p) => []
    case Subscribe(p, cb, ud) => []
    case Unsubscribe(p) => [Left(p)]
  }

  function NextBus(s: System, step: Step): (b: Bus)
    requires Valid(s) && Enabled(s, step)
    ensures b.Valid()
  {
    match step
    case Publish(m) => BusModel.Publish(s.bus, m).0
    case Mark(p) => BusModel.Mark(s.bus, s.checks[p].slot, s.checks[p].ret)
    case Subscribe(p, cb, ud) => BusModel.Subscribe(s.bus, p, cb, ud).0
    case Unsubscribe(p) => BusModel.Unsubscribe(s.bus, p).0
    case _ => s.bus
  }

  function NextChecks(s: System, step: Step): (c: map<nat, Check>)
    requires Valid(s) && Enabled(s, step)
    ensures forall p :: p in c ==> c[p].slot < MAX_SUBSCRIBERS
  {
    match step
    case Poll(p) =>
      var slot := Copy(s.bus, p);
      if slot.Some? then s.checks[p := Copied(slot.value, s.bus.message)] else s.checks
    case Callback(p, ret) => s.checks[p := Answered(s.checks[p].slot, s.checks[p].msg, ret)]
    case Mark(p) => s.checks - {p}
    case MarkLockFails(p) => s.checks - {p}
    case _ => s.checks
  }

  // A step that its process cannot take in the current state changes nothing.
  function Apply(s: System, step: Step): (t: System)
    requires Valid(s)
    ensures Valid(t)
  {
    if Enabled(s, step) then System(NextBus(s, step), NextChecks(s, step), s.log + Events(s, step)) else s
  }

  predicate Valid(s: System) {
    && s.bus.Valid()
    && forall p :: p in s.checks ==> s.checks[p].slot < MAX_SUBSCRIBERS
  }

  function Run(s: System, steps: seq<Step>): (t: System)
    requires Valid(s)
    ensures Valid(t)
  {
    if steps == [] then s else Apply(Run(s, steps[..|steps| - 1]), steps[|steps| - 1])
  }

  lemma {:induction false} RunConcat(s: System, a: seq<Step>, b: seq<Step>)
    requires Valid(s)
    ensures Run(s, a + b) == Run(Run(s, a), b)
  {
    hide Apply;
    if b == [] {
      assert a + b == a;
    } else {
      assert (a + b)[..|a + b| - 1] == a + b[..|b| - 1];
      RunConcat(s, a, b[..|b| - 1]);
    }
  }

  const INITIAL := System(Created(), map[], [])

  // ----- what a publisher is told -----

  // The code that mmt_bus_publish returns to a publisher that does not wait.
  function CodeFor(s: System, m: Message): (code: PublishCode) {
    BusModel.Publish(s.bus, m).1
  }

  // Success is told exactly if the message is accepted. With any other code nothing has changed, and each of
  // them has its own reason: the size, or that the reply to the last message is still awaited.
  lemma ToldExactly(s: System, m: Message)
    requires Valid(s)
    ensures var t := Apply(s, Publish(m));
      && (CodeFor(s, m) == Success <==> t.log == s.log + [Accepted(m, s.bus.reply, Members(s.bus.slots))])
      && (CodeFor(s, m) == Success ==> t.bus.message == m && t.bus.reply == REPLY_DO_NOTHING && t.checks == s.checks)
      && (CodeFor(s, m) != Success ==> t == s)
    ensures CodeFor(s, m) == OverMessageSize <==> |m| > 10004
    ensures CodeFor(s, m) == OldMessageNotConsumed <==> |m| <= 10004 && s.bus.reply == REPLY_DO_NOTHING
    ensures CodeFor(s, m) != LockError
  {
    assert s.log + [Accepted(m, s.bus.reply, Members(s.bus.slots))] != s.log;
  }

  // ----- what a subscriber is told -----

  // The slot that decides for a process that subscribes: the first one that is its own or free.
  ghost predicate Decides(slots: seq<Subscriber>, i: int, pid: nat) {
    && 0 <= i < |slots| && (slots[i].pid == pid || slots[i].pid == NO_PROCESS)
    && forall k :: 0 <= k < i ==> slots[k].pid != pid && slots[k].pid != NO_PROCESS
  }

  // A process is registered exactly if that slot is free: it is a member then, and has consumed the old message. If the
  // slot is its own it has called twice; if there is none, three others are registered. In both cases nothing changes.
  lemma SubscribedExactly(b: Bus, pid: nat, callback: int, userData: int)
    requires b.Valid() && pid != NO_PROCESS
    ensures var (after, code) := BusModel.Subscribe(b, pid, callback, userData);
      && (code == Registered <==> exists i :: Decides(b.slots, i, pid) && b.slots[i].pid == NO_PROCESS)
      && (code == CalledTwice <==> exists i :: Decides(b.slots, i, pid) && b.slots[i].pid == pid)
      && (code == NoFreeSlot <==> forall k :: 0 <= k < 3 ==> b.slots[k].pid != pid && b.slots[k].pid != NO_PROCESS)
      && (code != Registered ==> after == b)
      && (code == Registered ==>
            && Members(after.slots) == Members(b.slots) + {pid} && after == b.(slots := after.slots, nb := (b.nb + 1) % 256)
            && forall i :: Decides(b.slots, i, pid) ==> after.slots == b.slots[i := Subscriber(pid, true, callback, userData)])
  {
    hide Find;
    var own, free := Find(b.slots, pid), Find(b.slots, NO_PROCESS);
    var (after, code) := BusModel.Subscribe(b, pid, callback, userData);
    var i := if own < free then own else free;
    if i < 3 {
      assert Decides(b.slots, i, pid);
    }
    if code == Registered {
      MemberAdded(b.slots, free, Subscriber(pid, true, callback, userData));
    }
  }

  lemma MemberAdded(slots: seq<Subscriber>, i: nat, s: Subscriber)
    requires i < |slots| && slots[i].pid == NO_PROCESS && s.pid != NO_PROCESS
    ensures Members(slots[i := s]) == Members(slots) + {s.pid}
  {
    var after := slots[i := s];
    assert after[i].pid == s.pid;
    assert forall k :: 0 <= k < |slots| && k != i ==> after[k] == slots[k];
  }

  // It is told whether it was registered; if so, and but once, it is no member any more.
  lemma UnsubscribedExactly(b: Bus, pid: nat)
    requires b.Valid() && pid != NO_PROCESS
    requires forall i, j :: 0 <= i < j < 3 && b.slots[i].pid == pid ==> b.slots[j].pid != pid
    ensures var (after, found) := BusModel.Unsubscribe(b, pid);
      && (found <==> pid in Members(b.slots)) && Members(after.slots) == Members(b.slots) - {pid}
      && (!found ==> after == b) && (found ==> after == b.(slots := after.slots, nb := (b.nb - 1) % 256))
  {
    hide Find;
    var i := Find(b.slots, pid);
    if i < 3 {
      var after := b.slots[i := b.slots[i].(pid := NO_PROCESS)];
      assert forall k :: 0 <= k < 3 && k != i ==> after[k] == b.slots[k];
    }
  }

  // A check hands out the message exactly to a process whose first slot has a callback and has not consumed.
  lemma HandedExactly(b: Bus, pid: nat)
    requires b.Valid()
    ensures forall i: nat ::
      Copy(b, pid) == Some(i) <==>
        && i < 3 && b.slots[i].pid == pid && (forall k :: 0 <= k < i ==> b.slots[k].pid != pid)
        && b.slots[i].callback != NO_CALLBACK && !b.slots[i].consumed
  {
    hide Find;
    var first := Find(b.slots, pid);
    forall i: nat | i < 3 && b.slots[i].pid == pid && forall k :: 0 <= k < i ==> b.slots[k].pid != pid
      ensures i == first
    {
      assert first <= i;
      assert b.slots[first].pid == pid;
    }
  }

  // ----- what no step of any process can break -----

  // nb_subscribers counts the occupied slots.
  ghost predicate Counted(b: Bus) {
    b.Valid() && b.nb == Occupied(b.slots)
  }

  lemma CountedStep(s: System, step: Step)
    requires Valid(s) && Counted(s.bus)
    ensures Counted(Apply(s, step).bus)
  {
    hide Find;
    hide Occupied;
    if Enabled(s, step) {
      match step
      case Publish(m) => OccupiedUnconsumed(s.bus.slots);
      case Mark(p) => CountedMark(s.bus, s.checks[p].slot, s.checks[p].ret);
      case Subscribe(p, cb, ud) => CountedSubscribe(s.bus, p, cb, ud);
      case Unsubscribe(p) => CountedUnsubscribe(s.bus, p);
      case _ =>
    }
  }

  lemma CountedMark(b: Bus, slot: nat, ret: int)
    requires Counted(b) && slot < MAX_SUBSCRIBERS
    ensures Counted(BusModel.Mark(b, slot, ret))
  {
    hide Occupied;
    OccupiedUpdate(b.slots, slot, b.slots[slot].(consumed := true));
  }

  lemma CountedSubscribe(b: Bus, pid: nat, callback: int, userData: int)
    requires Counted(b) && pid != NO_PROCESS
    ensures Counted(BusModel.Subscribe(b, pid, callback, userData).0)
  {
    hide Occupied;
    var free := Find(b.slots, NO_PROCESS);
    if free < |b.slots| {
      OccupiedUpdate(b.slots, free, Subscriber(pid, true, callback, userData));
    }
  }

  lemma CountedUnsubscribe(b: Bus, pid: nat)
    requires Counted(b) && pid != NO_PROCESS
    ensures Counted(BusModel.Unsubscribe(b, pid).0)
  {
    hide Occupied;
    var i := Find(b.slots, pid);
    if i < |b.slots| {
      OccupiedUpdate(b.slots, i, b.slots[i].(pid := NO_PROCESS));
    }
  }

  lemma {:induction false} SubscriberCountExact(steps: seq<Step>)
    ensures var b := Run(INITIAL, steps).bus; b.nb == Occupied(b.slots) <= MAX_SUBSCRIBERS
  {
    if steps == [] {
      assert Created().slots[..2][..1][..0] == [];
      assert Created().slots[..2][..1] == Created().slots[..1];
    } else {
      SubscriberCountExact(steps[..|steps| - 1]);
      CountedStep(Run(INITIAL, steps[..|steps| - 1]), steps[|steps| - 1]);
    }
  }

  // Acceptances in a history.
  function Acceptances(log: seq<Event>): (n: nat) {
    if log == [] then 0
    else Acceptances(log[..|log| - 1]) + (if log[|log| - 1].Accepted? then 1 else 0)
  }

  // As long as no publish is accepted, the message stays and a reply, once given, stays.
  lemma {:induction false} AcceptancesConcat(log: seq<Event>, more: seq<Event>)
    ensures Acceptances(log + more) == Acceptances(log) + Acceptances(more)
  {
    if more == [] {
      assert log + more == log;
    } else {
      var n := |more| - 1;
      assert (log + more)[..|log| + n] == log + more[..n];
      AcceptancesConcat(log, more[..n]);
    }
  }

  lemma StableStep(s: System, step: Step)
    requires Valid(s)
    ensures Acceptances(Apply(s, step).log) >= Acceptances(s.log)
    ensures Acceptances(Apply(s, step).log) == Acceptances(s.log) ==>
              && Apply(s, step).bus.message == s.bus.message
              && (s.bus.reply != REPLY_DO_NOTHING ==> Apply(s, step).bus.reply == s.bus.reply)
  {
    if Enabled(s, step) {
      AcceptancesConcat(s.log, Events(s, step));
      if step.Publish? {
        assert Acceptances(Events(s, step)[..0]) == 0;
      }
    }
  }

  // From any moment of any run: as long as no publish is accepted, the message stays and a reply,
  // once it differs from REPLY_DO_NOTHING, is never replaced by another.
  lemma {:induction false} MessageAndReplyAreStable(s: System, steps: seq<Step>)
    requires Valid(s)
    ensures Acceptances(Run(s, steps).log) >= Acceptances(s.log)
    ensures Acceptances(Run(s, steps).log) == Acceptances(s.log) ==>
              && Run(s, steps).bus.message == s.bus.message
              && (s.bus.reply != REPLY_DO_NOTHING ==> Run(s, steps).bus.reply == s.bus.reply)
  {
    hide Apply;
    if steps != [] {
      MessageAndReplyAreStable(s, steps[..|steps| - 1]);
      StableStep(Run(s, steps[..|steps| - 1]), steps[|steps| - 1]);
    }
  }
}
