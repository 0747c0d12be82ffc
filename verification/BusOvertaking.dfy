// What happens if a publish is accepted between the two critical sections of a check.

module Overtaking {
  import opened Common
  import opened BusModel
  import opened BusProtocol
  import opened ManyPollers

  // A continuation in which nothing more is published, locks succeed and nobody subscribes twice.
  ghost predicate Continues(s: System, steps: seq<Step>)
    requires Valid(s)
  {
    steps == [] ||
    var before, step := Run(s, steps[..|steps| - 1]), steps[|steps| - 1];
    Continues(s, steps[..|steps| - 1]) && Quiet(before, step) && !step.Publish?
  }

  // However things go on after m has been published, it has been delivered as it should be once all checks are finished.
  ghost predicate AlwaysDelivered(s: System, m: Message)
    requires Valid(s) && Accepts(s.bus, m)
  {
    forall steps :: Continues(Apply(s, Publish(m)), steps) ==>
      var t := Run(Apply(s, Publish(m)), steps);
      t.checks == map[] ==> |Window(t.log)| < |t.log| && Delivered(LastAcceptance(t.log), Window(t.log))
  }

  // ----- no check is unfinished -----

  lemma {:induction false} ContinuationKeeps(s: System, steps: seq<Step>)
    requires Valid(s) && Invariant(s) && |Window(s.log)| < |s.log| && Continues(s, steps)
    ensures Invariant(Run(s, steps)) && |Window(Run(s, steps).log)| < |Run(s, steps).log|
  {
    hide Invariant;
    hide Enabled;
    hide Quiet;
    hide Window;
    if steps != [] {
      var before, step := Run(s, steps[..|steps| - 1]), steps[|steps| - 1];
      ContinuationKeeps(s, steps[..|steps| - 1]);
      if Enabled(before, step) {
        OtherStepKeepsInvariant(before, step);
        WindowKept(before, step);
      }
    }
  }

  lemma QuietPublishDelivers(s: System, m: Message)
    requires Valid(s) && Invariant(s) && Accepts(s.bus, m) && s.checks == map[]
    ensures AlwaysDelivered(s, m)
  {
    hide Invariant;
    hide Window;
    hide Delivered;
    var t := Apply(s, Publish(m));
    InvariantDistinct(s);
    PublishKeepsInvariant(s, Publish(m));
    WindowAppend(s.log, Events(s, Publish(m))[0]);
    forall steps | Continues(t, steps) && Run(t, steps).checks == map[]
      ensures |Window(Run(t, steps).log)| < |Run(t, steps).log|
      ensures Delivered(LastAcceptance(Run(t, steps).log), Window(Run(t, steps).log))
    {
      ContinuationKeeps(t, steps);
      WindowIsDelivered(Run(t, steps));
    }
  }

  // ----- some check is unfinished -----

  lemma {:induction false} ContinuesConcat(s: System, a: seq<Step>, b: seq<Step>)
    requires Valid(s) && Continues(s, a) && Continues(Run(s, a), b)
    ensures Continues(s, a + b)
  {
    hide Apply;
    hide Quiet;
    if b == [] {
      assert a + b == a;
    } else {
      assert (a + b)[..|a + b| - 1] == a + b[..|b| - 1];
      ContinuesConcat(s, a, b[..|b| - 1]);
      RunConcat(s, a, b[..|b| - 1]);
    }
  }

  // The steps that finish the check of p.
  function Finish(s: System, p: nat): (steps: seq<Step>)
    requires p in s.checks
  {
    if s.checks[p].Copied? then [Callback(p, 0), Mark(p)] else [Mark(p)]
  }

  // What they add to the history.
  function Finished(s: System, p: nat): (more: seq<Event>)
    requires p in s.checks
  {
    if s.checks[p].Copied? then [Called(p, s.checks[p].msg, 0), Replied(p, 0)] else [Replied(p, s.checks[p].ret)]
  }

  lemma FinishWorks(s: System, p: nat)
    requires Valid(s) && p in s.checks
    ensures Continues(s, Finish(s, p))
    ensures var t := Run(s, Finish(s, p)); t.checks == s.checks - {p} && t.log == s.log + Finished(s, p)
  {
    hide Find;
    hide Run;
    hide Continues;
    if s.checks[p].Copied? {
      TwoSteps(s, Callback(p, 0), Mark(p));
    } else {
      OneStep(s, Mark(p));
    }
  }

  lemma OneStep(s: System, a: Step)
    requires Valid(s) && Quiet(s, a) && !a.Publish?
    ensures Continues(s, [a]) && Run(s, [a]) == Apply(s, a)
  {
    hide Apply;
    hide Quiet;
    assert [a][..0] == [];
  }

  lemma TwoSteps(s: System, a: Step, b: Step)
    requires Valid(s) && Quiet(s, a) && !a.Publish? && Quiet(Apply(s, a), b) && !b.Publish?
    ensures Continues(s, [a, b]) && Run(s, [a, b]) == Apply(Apply(s, a), b)
  {
    hide Apply;
    hide Quiet;
    OneStep(s, a);
    assert [a, b][..1] == [a];
  }

  // Only callbacks and replies of these processes.
  ghost predicate OnlyAnswers(more: seq<Event>, ps: set<nat>) {
    forall k :: 0 <= k < |more| ==> (more[k].Called? || more[k].Replied?) && more[k].pid in ps
  }

  // All checks can be finished.
  lemma {:induction false} Drain(s: System) returns (steps: seq<Step>, more: seq<Event>)
    requires Valid(s)
    ensures Continues(s, steps) && Run(s, steps).checks == map[]
    ensures Run(s, steps).log == s.log + more && OnlyAnswers(more, s.checks.Keys)
    decreases |s.checks|
  {
    hide Apply;
    if s.checks == map[] {
      steps, more := [], [];
      assert s.log + [] == s.log;
    } else {
      var p :| p in s.checks;
      FinishWorks(s, p);
      var t := Run(s, Finish(s, p));
      assert |t.checks| < |s.checks| by {
        Fewer(s.checks, p);
      }
      var rest, added := Drain(t);
      steps, more := Finish(s, p) + rest, Finished(s, p) + added;
      ContinuesConcat(s, Finish(s, p), rest);
      RunConcat(s, Finish(s, p), rest);
      assert s.log + (Finished(s, p) + added) == (s.log + Finished(s, p)) + added;
    }
  }

  lemma Fewer(m: map<nat, Check>, p: nat)
    requires p in m
    ensures |m - {p}| < |m|
  {
    var n := m - {p};
    assert n.Keys == m.Keys - {p};
    assert |n.Keys| == |m.Keys| - 1;
    assert |n| == |n.Keys| && |m| == |m.Keys|;
  }

  lemma AcceptanceKept(log: seq<Event>, e: Event)
    requires !e.Accepted? && |Window(log)| < |log|
    ensures |Window(log + [e])| < |log + [e]| && LastAcceptance(log + [e]) == LastAcceptance(log)
  {
    hide Window;
    WindowAppend(log, e);
  }

  // The window of a history that goes on without acceptances.
  lemma {:induction false} WindowGrows(log: seq<Event>, more: seq<Event>)
    requires |Window(log)| < |log| && forall k :: 0 <= k < |more| ==> !more[k].Accepted?
    ensures Window(log + more) == Window(log) + more && |Window(log + more)| < |log + more|
    ensures LastAcceptance(log + more) == LastAcceptance(log)
  {
    hide Window;
    hide LastAcceptance;
    if more == [] {
      assert log + more == log && Window(log) + more == Window(log);
    } else {
      var n := |more| - 1;
      WindowGrows(log, more[..n]);
      assert log + more == (log + more[..n]) + [more[n]];
      assert Window(log) + more == (Window(log) + more[..n]) + [more[n]];
      WindowAppend(log + more[..n], more[n]);
      AcceptanceKept(log + more[..n], more[n]);
    }
  }

  // After the publish: an acceptance with an empty window.
  lemma Published(s: System, m: Message)
    requires Valid(s) && Accepts(s.bus, m)
    ensures var t := Apply(s, Publish(m));
      && t.checks == s.checks && |Window(t.log)| == 0 < |t.log|
      && LastAcceptance(t.log) == Accepted(m, s.bus.reply, Members(s.bus.slots))
      && t.log == s.log + [Accepted(m, s.bus.reply, Members(s.bus.slots))]
  {
    hide Window;
    WindowAppend(s.log, Accepted(m, s.bus.reply, Members(s.bus.slots)));
  }

  // What follows the publish is the window.
  lemma WindowOfPublish(s: System, m: Message, t: System, more: seq<Event>)
    requires Valid(s) && Accepts(s.bus, m) && t.log == Apply(s, Publish(m)).log + more
    requires forall k :: 0 <= k < |more| ==> !more[k].Accepted?
    ensures Window(t.log) == more && |more| < |t.log|
    ensures LastAcceptance(t.log) == Accepted(m, s.bus.reply, Members(s.bus.slots))
  {
    hide Apply;
    hide Window;
    hide Members;
    Published(s, m);
    WindowGrows(Apply(s, Publish(m)).log, more);
    assert [] + more == more;
  }

  // p has copied the old message: its callback gets that one, after the new one has been accepted.
  lemma CopiedIsOvertaken(s: System, p: nat, m: Message) returns (steps: seq<Step>)
    requires Valid(s) && Accepts(s.bus, m) && p in s.checks && s.checks[p].Copied? && s.checks[p].msg != m
    ensures var t := Run(Apply(s, Publish(m)), steps);
      && Continues(Apply(s, Publish(m)), steps) && t.checks == map[]
      && |Window(t.log)| < |t.log| && LastAcceptance(t.log).msg == m
      && (exists k :: 0 <= k < |Window(t.log)| && Window(t.log)[k] == Called(p, s.checks[p].msg, 0))
      && !Delivered(LastAcceptance(t.log), Window(t.log))
  {
    hide Apply;
    hide Window;
    hide LastAcceptance;
    hide Run;
    hide Continues;
    hide Calls;
    hide Members;
    var s1 := Apply(s, Publish(m));
    Published(s, m);
    FinishWorks(s1, p);
    var rest, added := Drain(Run(s1, Finish(s1, p)));
    steps := Finish(s1, p) + rest;
    ContinuesConcat(s1, Finish(s1, p), rest);
    RunConcat(s1, Finish(s1, p), rest);
    var more := Finished(s1, p) + added;
    assert s1.log + Finished(s1, p) + added == s1.log + more;
    WindowOfPublish(s, m, Run(s1, steps), more);
    assert more[0] == Called(p, s.checks[p].msg, 0);
  }

  // p has answered the old message but not yet marked its slot: its answer becomes the reply to the new one, its
  // slot counts as consumed, and when it polls it is not called.
  lemma AnsweredIsOvertaken(s: System, p: nat, m: Message) returns (steps: seq<Step>)
    requires Valid(s) && Accepts(s.bus, m) && p in s.checks && s.checks[p].Answered? && ProcessIsFound(s, p)
    ensures var t := Run(Apply(s, Publish(m)), steps);
      && Continues(Apply(s, Publish(m)), steps) && t.checks == map[]
      && |Window(t.log)| < |t.log| && LastAcceptance(t.log).msg == m && p in LastAcceptance(t.log).members
      && Polled(p) in Window(t.log) && Left(p) !in Window(t.log) && Calls(Window(t.log), p) == 0
      && !Delivered(LastAcceptance(t.log), Window(t.log))
  {
    hide Apply;
    hide Window;
    hide LastAcceptance;
    hide Members;
    hide Calls;
    hide Delivered;
    hide ProcessIsFound;
    hide Run;
    hide Continues;
    MemberFound(s, p);
    var added;
    steps, added := PollInVain(s, p, m);
    var more := [Replied(p, s.checks[p].ret), Polled(p)] + added;
    var t := Run(Apply(s, Publish(m)), steps);
    WindowOfPublish(s, m, t, more);
    assert more[1] == Polled(p);
    Uncalled(LastAcceptance(t.log), more, p);
  }

  lemma PollInVain(s: System, p: nat, m: Message) returns (steps: seq<Step>, added: seq<Event>)
    requires Valid(s) && Accepts(s.bus, m) && p in s.checks && s.checks[p].Answered? && ProcessIsFound(s, p)
    ensures var s1 := Apply(s, Publish(m)); var t := Run(s1, steps);
      && Continues(s1, steps) && t.checks == map[] && OnlyAnswers(added, s.checks.Keys - {p})
      && t.log == s1.log + ([Replied(p, s.checks[p].ret), Polled(p)] + added)
  {
    hide Apply;
    hide ProcessIsFound;
    hide Run;
    hide Continues;
    var s1, first := Apply(s, Publish(m)), [Mark(p), Poll(p)];
    MarkThenPoll(s, p, m);
    var rest;
    rest, added := Drain(Run(s1, first));
    steps := first + rest;
    ContinuesConcat(s1, first, rest);
    RunConcat(s1, first, rest);
    var begun := [Replied(p, s.checks[p].ret), Polled(p)];
    assert s1.log + begun + added == s1.log + (begun + added);
  }

  lemma Uncalled(a: Event, w: seq<Event>, p: nat)
    requires a.Accepted? && p != NO_PROCESS && p in a.members && Polled(p) in w
    requires forall k :: 0 <= k < |w| ==> w[k] != Left(p) && !(w[k].Called? && w[k].pid == p)
    ensures Left(p) !in w && Calls(w, p) == 0 && !Delivered(a, w)
  {
    hide Calls;
    NeverCalledIn(w, p);
  }

  // The check of p is that of its own slot, which has a callback.
  ghost predicate ProcessIsFound(s: System, p: nat)
    requires Valid(s) && p in s.checks
  {
    var i := Find(s.bus.slots, p);
    p != NO_PROCESS && i < MAX_SUBSCRIBERS && s.checks[p].slot == i && s.bus.slots[i].callback != NO_CALLBACK
  }

  lemma MemberFound(s: System, p: nat)
    requires Valid(s) && p in s.checks && ProcessIsFound(s, p)
    ensures p != NO_PROCESS && p in Members(s.bus.slots)
  {
  }

  lemma MarkThenPoll(s: System, p: nat, m: Message)
    requires Valid(s) && Accepts(s.bus, m) && p in s.checks && s.checks[p].Answered? && ProcessIsFound(s, p)
    ensures var s1 := Apply(s, Publish(m));
      && Continues(s1, [Mark(p), Poll(p)])
      && Run(s1, [Mark(p), Poll(p)]).log == s1.log + [Replied(p, s.checks[p].ret), Polled(p)]
      && Run(s1, [Mark(p), Poll(p)]).checks == s.checks - {p}
  {
    var s1 := Apply(s, Publish(m));
    var s2 := Apply(s1, Mark(p));
    FindByPid(s.bus.slots, s1.bus.slots, p);
    FindByPid(s.bus.slots, s2.bus.slots, p);
    hide Find;
    var s3 := Apply(s2, Poll(p));
    assert s2.log == s1.log + [Replied(p, s.checks[p].ret)] && s2.checks == s.checks - {p};
    assert s3.log == s2.log + [Polled(p)] && s3.checks == s2.checks;
    TwoSteps(s1, Mark(p), Poll(p));
  }

  lemma {:induction false} NeverCalledIn(w: seq<Event>, p: nat)
    requires forall k :: 0 <= k < |w| ==> !(w[k].Called? && w[k].pid == p)
    ensures Calls(w, p) == 0
  {
    if w != [] {
      NeverCalledIn(w[..|w| - 1], p);
    }
  }

  lemma CheckIsFound(s: System, p: nat)
    requires Invariant(s) && p in s.checks
    ensures ProcessIsFound(s, p)
  {
    hide Window;
    hide LastMembers;
    hide Calls;
    hide HasCall;
    hide Find;
    assert ProcessOk(s, Window(s.log), LastMembers(s.log), p);
  }

  // ----- exactly -----

  // On an open bus, in whatever state a run may be: every message published next is delivered as it should be,
  // however things go on, if and only if no check is unfinished.
  lemma DeliveryExactly(s: System)
    requires Valid(s) && Invariant(s) && s.bus.reply != REPLY_DO_NOTHING
    ensures s.checks == map[] <==> forall m :: Accepts(s.bus, m) ==> AlwaysDelivered(s, m)
  {
    hide Invariant;
    hide Delivered;
    hide Window;
    hide Apply;
    if s.checks == map[] {
      forall m | Accepts(s.bus, m)
        ensures AlwaysDelivered(s, m)
      {
        QuietPublishDelivers(s, m);
      }
    } else {
      var p :| p in s.checks;
      CheckIsFound(s, p);
      var m := Another(s.checks[p].msg);
      var steps;
      if s.checks[p].Copied? {
        steps := CopiedIsOvertaken(s, p, m);
      } else {
        steps := AnsweredIsOvertaken(s, p, m);
      }
      assert Accepts(s.bus, m) && !AlwaysDelivered(s, m);
    }
  }

  function Another(m: Message): (other: Message)
    ensures other != m && |other| <= 1
  {
    if m == "" then "x" else ""
  }

  // In particular in every state that is reached by publishing only when no check is unfinished.
  lemma DeliveryInRuns(steps: seq<Step>)
    requires QuietRun(INITIAL, steps) && Run(INITIAL, steps).bus.reply != REPLY_DO_NOTHING
    ensures var s := Run(INITIAL, steps);
      s.checks == map[] <==> forall m :: Accepts(s.bus, m) ==> AlwaysDelivered(s, m)
  {
    hide Invariant;
    hide AlwaysDelivered;
    ManyPollers.EveryRunKeepsInvariant(steps);
    DeliveryExactly(Run(INITIAL, steps));
  }

  // ----- a run -----

  // Processes 1 and 2 are subscribed.
  function Two(consumed1: bool, consumed2: bool): seq<Subscriber> {
    [Subscriber(1, consumed1, 1, 0), Subscriber(2, consumed2, 1, 0), Subscriber(NO_PROCESS, false, NO_CALLBACK, 0)]
  }

  // The publish of "b" overtakes process 1 between its two critical sections.
  const OVERTAKEN: seq<Step> :=
    [Publish("a"), Poll(1), Poll(2), Callback(2, 0), Mark(2), Publish("b"), Callback(1, 7), Mark(1), Poll(1), Publish("c")]

  const HISTORY: seq<Event> :=
    [Accepted("a", 0, {1, 2}), Polled(1), Polled(2), Called(2, "a", 0), Replied(2, 0),
     Accepted("b", 0, {1, 2}), Called(1, "a", 7), Replied(1, 7), Polled(1), Accepted("c", 7, {1, 2})]

  const TRACE: seq<System> :=
    [System(Bus(Two(true, true), 2, "", 0), map[], []),
     System(Bus(Two(false, false), 2, "a", REPLY_DO_NOTHING), map[], HISTORY[..1]),
     System(Bus(Two(false, false), 2, "a", REPLY_DO_NOTHING), map[1 := Copied(0, "a")], HISTORY[..2]),
     System(Bus(Two(false, false), 2, "a", REPLY_DO_NOTHING), map[1 := Copied(0, "a"), 2 := Copied(1, "a")], HISTORY[..3]),
     System(Bus(Two(false, false), 2, "a", REPLY_DO_NOTHING), map[1 := Copied(0, "a"), 2 := Answered(1, "a", 0)], HISTORY[..4]),
     System(Bus(Two(false, true), 2, "a", 0), map[1 := Copied(0, "a")], HISTORY[..5]),
     System(Bus(Two(false, false), 2, "b", REPLY_DO_NOTHING), map[1 := Copied(0, "a")], HISTORY[..6]),
     System(Bus(Two(false, false), 2, "b", REPLY_DO_NOTHING), map[1 := Answered(0, "a", 7)], HISTORY[..7]),
     System(Bus(Two(true, false), 2, "b", 7), map[], HISTORY[..8]),
     System(Bus(Two(true, false), 2, "b", 7), map[], HISTORY[..9]),
     System(Bus(Two(false, false), 2, "c", REPLY_DO_NOTHING), map[], HISTORY)]

  lemma TwoFacts(consumed1: bool, consumed2: bool)
    ensures Find(Two(consumed1, consumed2), 1) == 0 && Find(Two(consumed1, consumed2), 2) == 1
    ensures Members(Two(consumed1, consumed2)) == {1, 2}
    ensures Unconsumed(Two(consumed1, consumed2)) == Two(false, false)
  {
    var slots := Two(consumed1, consumed2);
    assert slots[0].pid == 1 && slots[1].pid == 2;
  }

  lemma OvertakenBeginning()
    ensures forall k :: 0 <= k < 3 ==> TRACE[k + 1] == Apply(TRACE[k], OVERTAKEN[k])
  {
    hide Find;
    hide Members;
    hide Unconsumed;
    TwoFacts(true, true);
    TwoFacts(false, false);
    assert TRACE[1] == Apply(TRACE[0], OVERTAKEN[0]);
    assert TRACE[2] == Apply(TRACE[1], OVERTAKEN[1]);
    assert TRACE[3] == Apply(TRACE[2], OVERTAKEN[2]);
  }

  lemma OvertakenFirstHalf()
    ensures forall k :: 0 <= k < 5 ==> TRACE[k + 1] == Apply(TRACE[k], OVERTAKEN[k])
  {
    OvertakenBeginning();
    hide Find;
    hide Members;
    hide Unconsumed;
    TwoFacts(false, false);
    TwoFacts(false, true);
    assert TRACE[4] == Apply(TRACE[3], OVERTAKEN[3]);
    assert TRACE[5] == Apply(TRACE[4], OVERTAKEN[4]);
  }

  lemma OvertakenSecondHalf()
    ensures forall k :: 5 <= k < 10 ==> TRACE[k + 1] == Apply(TRACE[k], OVERTAKEN[k])
  {
    hide Find;
    hide Members;
    hide Unconsumed;
    TwoFacts(false, true);
    TwoFacts(false, false);
    TwoFacts(true, false);
    assert TRACE[6] == Apply(TRACE[5], OVERTAKEN[5]);
    assert TRACE[7] == Apply(TRACE[6], OVERTAKEN[6]);
    assert TRACE[8] == Apply(TRACE[7], OVERTAKEN[7]);
    assert TRACE[9] == Apply(TRACE[8], OVERTAKEN[8]);
    assert TRACE[10] == Apply(TRACE[9], OVERTAKEN[9]);
  }

  const SUBSCRIPTIONS: seq<Step> := [Subscribe(1, 1, 0), Subscribe(2, 1, 0)]

  lemma FindIn(slots: seq<Subscriber>, pid: nat, i: nat)
    requires i <= |slots| && forall k :: 0 <= k < i ==> slots[k].pid != pid
    requires i < |slots| ==> slots[i].pid == pid
    ensures Find(slots, pid) == i
  {
  }

  lemma SubscribeInto(b: Bus, pid: nat, free: nat)
    requires b.Valid() && free < MAX_SUBSCRIBERS && pid != NO_PROCESS && b.slots[free].pid == NO_PROCESS
    requires forall k :: 0 <= k < MAX_SUBSCRIBERS ==> b.slots[k].pid != pid && (k < free ==> b.slots[k].pid != NO_PROCESS)
    ensures BusModel.Subscribe(b, pid, 1, 0).0 ==
            Bus(b.slots[free := Subscriber(pid, true, 1, 0)], (b.nb + 1) % 256, b.message, b.reply)
  {
    FindIn(b.slots, NO_PROCESS, free);
    FindIn(b.slots, pid, MAX_SUBSCRIBERS);
    hide Find;
  }

  // Two subscriptions lead to the state in which the trace begins.
  lemma BothSubscribed()
    ensures Run(INITIAL, SUBSCRIPTIONS) == TRACE[0]
  {
    hide Find;
    var b0 := Created();
    var b1 := BusModel.Subscribe(b0, 1, 1, 0).0;
    SubscribeInto(b0, 1, 0);
    SubscribeInto(b1, 2, 1);
    var s1 := Apply(INITIAL, Subscribe(1, 1, 0));
    var s2 := Apply(s1, Subscribe(2, 1, 0));
    hide BusModel.Subscribe;
    assert s1.bus == b1 && s1.log == [] && s1.checks == map[];
    assert s2.bus.slots == Two(true, true) && s2.log == [] && s2.checks == map[];
    TraceIsRun([INITIAL, s1, s2], SUBSCRIPTIONS);
  }

  // From the beginning: two subscriptions, and then a publish that overtakes process 1. That process, which polled,
  // is never given "b", and the reply recorded for "b" is what a callback answered to "a".
  lemma OvertakenMessageIsLost()
    ensures Run(INITIAL, SUBSCRIPTIONS + OVERTAKEN).log == HISTORY
    ensures Consecutive(HISTORY, 5, 9) && HISTORY[5].msg == "b" && 1 in HISTORY[5].members && Polled(1) in HISTORY[6..9]
    ensures forall k :: 0 <= k < |HISTORY| && HISTORY[k].Called? ==> HISTORY[k].msg == "a"
    ensures HISTORY[9].prev == 7 && !Served(HISTORY[5], HISTORY[6..9], HISTORY[9].prev)
  {
    hide Delivered;
    hide Run;
    hide Apply;
    BothSubscribed();
    RunConcat(INITIAL, SUBSCRIPTIONS, OVERTAKEN);
    OvertakenFirstHalf();
    OvertakenSecondHalf();
    TraceIsRun(TRACE, OVERTAKEN);
    assert HISTORY[6..9][0] == HISTORY[6];
    assert HISTORY[6..9][2] == HISTORY[8];
    NotDelivered(HISTORY[5], HISTORY[6..9], 0);
  }

  lemma NotDelivered(a: Event, w: seq<Event>, k: nat)
    requires a.Accepted? && k < |w| && w[k].Called? && w[k].msg != a.msg
    ensures !Delivered(a, w)
  {
  }
}
