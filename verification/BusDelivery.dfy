// One polling subscriber on the bus, as deployed: only the main process ever checks it.

module SinglePoller {
  import opened BusModel
  import opened BusProtocol

  // Only q checks the bus, q stays subscribed, and every lock succeeds. Anybody may publish;
  // other processes may subscribe and unsubscribe.
  predicate Allowed(q: nat, step: Step) {
    match step
    case Poll(p) => p == q
    case MarkLockFails(_) => false
    case Subscribe(p, _, _) => p != q
    case Unsubscribe(p) => p != q
    case _ => true
  }

  ghost predicate AllAllowed(q: nat, steps: seq<Step>) {
    forall k :: 0 <= k < |steps| ==> Allowed(q, steps[k])
  }

  // q has subscribed with a callback before the first publish; the bus is open.
  ghost predicate Start(s: System, q: nat) {
    && Valid(s) && q != NO_PROCESS
    && IsRegistered(s.bus.slots, q)
    && s.bus.slots[Find(s.bus.slots, q)].callback != NO_CALLBACK
    && s.bus.slots[Find(s.bus.slots, q)].consumed
    && s.bus.reply != REPLY_DO_NOTHING
    && s.checks == map[] && s.log == []
  }

  predicate Relevant(e: Event) { e.Accepted? || e.Called? }

  // The acceptances and callbacks of a history, in order.
  function Deliveries(log: seq<Event>): (d: seq<Event>)
    ensures forall k :: 0 <= k < |d| ==> Relevant(d[k])
  {
    if log == [] then []
    else
      var e := log[|log| - 1];
      Deliveries(log[..|log| - 1]) + (if Relevant(e) then [e] else [])
  }

  // Acceptances and callbacks of q strictly alternate; a callback gets the message just accepted;
  // the reply code found by the next publisher is what that callback returned.
  ghost predicate DeliveryAt(d: seq<Event>, k: nat, q: nat)
    requires k < |d|
  {
    if k % 2 == 0 then
      d[k].Accepted? && (k > 0 ==> d[k - 1].Called? && d[k].prev == d[k - 1].ret && d[k].prev != REPLY_DO_NOTHING)
    else
      d[k].Called? && d[k].pid == q && d[k - 1].Accepted? && d[k].msg == d[k - 1].msg
  }

  ghost predicate Alternates(d: seq<Event>, q: nat) {
    forall k :: 0 <= k < |d| ==> DeliveryAt(d, k, q)
  }

  // The history ends with a callback of q that returned ret.
  ghost predicate EndsWithCall(d: seq<Event>, ret: int) {
    |d| > 0 && |d| % 2 == 0 && d[|d| - 1].Called? && d[|d| - 1].ret == ret
  }

  // The history ends with the acceptance of msg.
  ghost predicate EndsWithAcceptance(d: seq<Event>, msg: Message) {
    |d| % 2 == 1 && d[|d| - 1].Accepted? && d[|d| - 1].msg == msg
  }

  ghost predicate Invariant(s: System, q: nat) {
    && Valid(s) && q != NO_PROCESS
    && IsRegistered(s.bus.slots, q)
    && var own := s.bus.slots[Find(s.bus.slots, q)];
    && own.callback != NO_CALLBACK
    && s.checks.Keys <= {q}
    && var d := Deliveries(s.log);
    && Alternates(d, q)
    && (s.bus.reply != REPLY_DO_NOTHING ==> own.consumed)
    && (own.consumed ==> q !in s.checks && if d == [] then s.bus.reply != REPLY_DO_NOTHING else EndsWithCall(d, s.bus.reply))
    && (!own.consumed && q !in s.checks ==> EndsWithAcceptance(d, s.bus.message))
    && (q in s.checks ==>
          && s.checks[q].slot == Find(s.bus.slots, q)
          && s.checks[q].msg == s.bus.message
          && (s.checks[q].Copied? ==> EndsWithAcceptance(d, s.bus.message))
          && (s.checks[q].Answered? ==> EndsWithCall(d, s.checks[q].ret)))
  }

  lemma DeliveriesAppend(log: seq<Event>, more: seq<Event>)
    requires |more| <= 1
    ensures Deliveries(log + more) == Deliveries(log) + (if more != [] && Relevant(more[0]) then more else [])
  {
    if more == [] {
      assert log + more == log;
    } else {
      assert (log + more)[..|log|] == log;
    }
  }

  lemma AlternatesAppend(d: seq<Event>, e: Event, q: nat)
    requires Alternates(d, q)
    requires |d| % 2 == 0 ==>
               e.Accepted? && (|d| > 0 ==> EndsWithCall(d, e.prev) && e.prev != REPLY_DO_NOTHING)
    requires |d| % 2 == 1 ==> e.Called? && e.pid == q && EndsWithAcceptance(d, e.msg)
    ensures Alternates(d + [e], q)
  {
    forall k | 0 <= k < |d + [e]|
      ensures DeliveryAt(d + [e], k, q)
    {
      assert k < |d| ==> DeliveryAt(d, k, q);
    }
  }

  lemma StepKeepsInvariant(s: System, q: nat, step: Step)
    requires Invariant(s, q) && Allowed(q, step) && Enabled(s, step)
    ensures Invariant(Apply(s, step), q)
  {
    hide Invariant;
    hide Apply;
    hide Enabled;
    if step.Publish? {
      PublishKeepsInvariant(s, q, step);
    } else if step.Callback? {
      CallbackKeepsInvariant(s, q, step);
    } else if step.Poll? || step.Mark? {
      CheckKeepsInvariant(s, q, step);
    } else {
      MembershipKeepsInvariant(s, q, step);
    }
  }

  lemma PublishKeepsInvariant(s: System, q: nat, step: Step)
    requires Invariant(s, q) && Allowed(q, step) && Enabled(s, step) && step.Publish?
    ensures Invariant(Apply(s, step), q)
  {
    hide Alternates;
    hide Deliveries;
    hide Find;
    hide Members;
    var t := Apply(s, step);
    DeliveriesAppend(s.log, Events(s, step));
    FindByPid(s.bus.slots, t.bus.slots, q);
    AlternatesAppend(Deliveries(s.log), Events(s, step)[0], q);
    assert Deliveries(t.log) == Deliveries(s.log) + [Events(s, step)[0]];
    assert !t.bus.slots[Find(t.bus.slots, q)].consumed;
  }

  lemma CallbackKeepsInvariant(s: System, q: nat, step: Step)
    requires Invariant(s, q) && Allowed(q, step) && Enabled(s, step) && step.Callback?
    ensures Invariant(Apply(s, step), q)
  {
    hide Alternates;
    hide Deliveries;
    hide Find;
    var t := Apply(s, step);
    assert step.pid == q && t.bus == s.bus;
    DeliveriesAppend(s.log, Events(s, step));
    AlternatesAppend(Deliveries(s.log), Events(s, step)[0], q);
    assert Deliveries(t.log) == Deliveries(s.log) + [Called(q, s.checks[q].msg, step.ret)];
  }

  lemma CheckKeepsInvariant(s: System, q: nat, step: Step)
    requires Invariant(s, q) && Allowed(q, step) && Enabled(s, step)
    requires step.Poll? || step.Mark?
    ensures Invariant(Apply(s, step), q)
  {
    hide Alternates;
    hide Deliveries;
    DeliveriesAppend(s.log, Events(s, step));
    FindByPid(s.bus.slots, NextBus(s, step).slots, q);
    var t := Apply(s, step);
    assert step.pid == q && Deliveries(t.log) == Deliveries(s.log);
    if step.Poll? {
      assert t.bus == s.bus;
      assert q in t.checks || t.checks == s.checks;
    } else {
      assert s.bus.reply == REPLY_DO_NOTHING && t.bus.reply == s.checks[q].ret && q !in t.checks;
      assert Find(t.bus.slots, q) == s.checks[q].slot && t.bus.slots[s.checks[q].slot].consumed;
    }
  }

  lemma MembershipKeepsInvariant(s: System, q: nat, step: Step)
    requires Invariant(s, q) && Allowed(q, step) && Enabled(s, step)
    requires step.Subscribe? || step.Unsubscribe?
    ensures Invariant(Apply(s, step), q)
  {
    hide Alternates;
    hide Deliveries;
    DeliveriesAppend(s.log, Events(s, step));
    FindByPid(s.bus.slots, NextBus(s, step).slots, q);
    var t := Apply(s, step);
    assert Deliveries(t.log) == Deliveries(s.log) && t.checks == s.checks;
    assert t.bus.slots[Find(s.bus.slots, q)] == s.bus.slots[Find(s.bus.slots, q)];
    assert t.bus.reply == s.bus.reply && t.bus.message == s.bus.message;
  }

  // The deployed order: the bus is created and the main process subscribes before anything else.
  lemma SubscribedFirst(q: nat, callback: int, userData: int)
    requires q != NO_PROCESS && callback != NO_CALLBACK
    ensures Start(Run(INITIAL, [Subscribe(q, callback, userData)]), q)
  {
    assert [Subscribe(q, callback, userData)][..0] == [];
    assert Find(Created().slots, NO_PROCESS) == 0;
    assert Find(Created().slots, q) == MAX_SUBSCRIBERS;
  }

  // Exactly-once delivery, for every interleaving: no matter how the steps of publishers, of q and of
  // joining or leaving processes are mixed.
  lemma {:induction false} ExactlyOnce(s: System, q: nat, steps: seq<Step>)
    requires Start(s, q) && AllAllowed(q, steps)
    ensures Alternates(Deliveries(Run(s, steps).log), q)
    ensures Run(s, steps).bus.reply != REPLY_DO_NOTHING && Deliveries(Run(s, steps).log) != [] ==>
              EndsWithCall(Deliveries(Run(s, steps).log), Run(s, steps).bus.reply)
    ensures Invariant(Run(s, steps), q)
  {
    if steps != [] {
      ExactlyOnce(s, q, steps[..|steps| - 1]);
      if Enabled(Run(s, steps[..|steps| - 1]), steps[|steps| - 1]) {
        StepKeepsInvariant(Run(s, steps[..|steps| - 1]), q, steps[|steps| - 1]);
      }
    }
  }

  lemma {:induction false} DeliveriesGrow(s: System, a: seq<Step>, b: seq<Step>)
    requires Valid(s)
    ensures Deliveries(Run(s, a).log) <= Deliveries(Run(s, a + b).log)
  {
    hide Apply;
    hide Deliveries;
    if b == [] {
      assert a + b == a;
    } else {
      var n := |b| - 1;
      assert (a + b)[..|a + b| - 1] == a + b[..n] && (a + b)[|a + b| - 1] == b[n];
      DeliveriesGrow(s, a, b[..n]);
      OneMoreDelivery(Run(s, a + b[..n]), b[n]);
    }
  }

  lemma OneMoreDelivery(s: System, step: Step)
    requires Valid(s)
    ensures Deliveries(s.log) <= Deliveries(Apply(s, step).log)
  {
    hide Deliveries;
    if Enabled(s, step) {
      DeliveriesAppend(s.log, Events(s, step));
    }
  }

  // What a publisher is told is true, in every interleaving: after Success its message is the next delivery, and
  // the next callback, if there is one by now, is that of q with this message; after any other code the step of the
  // publisher has changed nothing.
  lemma SuccessIsDelivered(s: System, q: nat, before: seq<Step>, m: Message, later: seq<Step>)
    requires Start(s, q) && AllAllowed(q, before + [Publish(m)] + later)
    ensures var x := Run(s, before);
      var i, d := |Deliveries(x.log)|, Deliveries(Run(s, before + [Publish(m)] + later).log);
      if CodeFor(x, m) == Success then
        && i < |d| && i % 2 == 0 && d[i].Accepted? && d[i].msg == m
        && (i + 1 < |d| ==> d[i + 1].Called? && d[i + 1].pid == q && d[i + 1].msg == m)
      else
        Run(s, before + [Publish(m)]) == x
  {
    hide Deliveries;
    hide Apply;
    hide Alternates;
    var x, steps := Run(s, before), before + [Publish(m)];
    assert steps[..|before|] == before && steps[|steps| - 1] == Publish(m);
    assert forall k :: 0 <= k < |before| ==> before[k] == (steps + later)[k];
    ToldExactly(x, m);
    ExactlyOnce(s, q, before);
    ExactlyOnce(s, q, steps + later);
    if CodeFor(x, m) == Success {
      var e := Accepted(m, x.bus.reply, Members(x.bus.slots));
      DeliveriesAppend(x.log, [e]);
      DeliveriesGrow(s, steps, later);
      NextIsCall(Deliveries(Run(s, steps + later).log), Deliveries(x.log), e, q);
    }
  }

  lemma NextIsCall(d: seq<Event>, before: seq<Event>, e: Event, q: nat)
    requires Alternates(d, q) && before + [e] <= d && e.Accepted?
    ensures var i := |before|;
      i % 2 == 0 && d[i] == e && (i + 1 < |d| ==> d[i + 1].Called? && d[i + 1].pid == q && d[i + 1].msg == e.msg)
  {
    var i := |before|;
    assert d[i] == (before + [e])[i];
    assert DeliveryAt(d, i, q);
    assert i + 1 < |d| ==> DeliveryAt(d, i + 1, q);
  }

  lemma PollHandsOver(s: System, q: nat, m: Message)
    requires Invariant(s, q) && EndsWithAcceptance(Deliveries(s.log), m) && q !in s.checks
    ensures var t := Apply(s, Poll(q));
      && t.log == s.log + [Polled(q)] && q in t.checks && t.checks[q].Copied? && t.checks[q].msg == m
  {
    hide Deliveries;
    hide Alternates;
    hide Find;
    assert EndsWithAcceptance(Deliveries(s.log), s.bus.message);
  }

  lemma CallbackCalls(s: System, q: nat, r: int)
    requires Valid(s) && q in s.checks && s.checks[q].Copied?
    ensures Apply(s, Callback(q, r)).log == s.log + [Called(q, s.checks[q].msg, r)]
  {
    hide Find;
  }

  // It only takes the next check of q: as long as the accepted message has not been delivered, q is handed it.
  lemma NextCheckDelivers(s: System, q: nat, m: Message, r: int)
    requires Invariant(s, q) && EndsWithAcceptance(Deliveries(s.log), m) && q !in s.checks
    ensures var t := Run(s, [Poll(q), Callback(q, r)]);
      Deliveries(t.log) == Deliveries(s.log) + [Called(q, m, r)]
  {
    hide Invariant;
    hide Deliveries;
    hide Apply;
    InvariantIsValid(s, q);
    var s1 := Apply(s, Poll(q));
    TwoStepRun(s, Poll(q), Callback(q, r));
    PollHandsOver(s, q, m);
    CallbackCalls(s1, q, r);
    DeliveriesAppend(s.log, [Polled(q)]);
    DeliveriesAppend(s1.log, [Called(q, m, r)]);
  }

  lemma InvariantIsValid(s: System, q: nat)
    requires Invariant(s, q)
    ensures Valid(s)
  {
  }

  lemma TwoStepRun(s: System, a: Step, b: Step)
    requires Valid(s)
    ensures Run(s, [a, b]) == Apply(Apply(s, a), b)
  {
    hide Apply;
    hide Run;
    RunConcat(s, [a], [b]);
    OneStepRun(s, a);
    OneStepRun(Apply(s, a), b);
    assert [a] + [b] == [a, b];
  }

  lemma OneStepRun(s: System, step: Step)
    requires Valid(s)
    ensures Run(s, [step]) == Apply(s, step)
  {
    hide Apply;
    assert [step][..0] == [];
  }
}
