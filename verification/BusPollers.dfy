// Any number of polling subscribers on the bus of src/modules/dynamic_conf/mmt_bus.c.

module ManyPollers {
  import opened BusModel
  import opened BusProtocol

  ghost predicate DistinctPids(slots: seq<Subscriber>) {
    forall i, j :: 0 <= i < j < |slots| && slots[i].pid != NO_PROCESS ==> slots[i].pid != slots[j].pid
  }

  // Locks succeed, nobody subscribes twice, and no publish is accepted while a check is unfinished.
  ghost predicate Quiet(s: System, step: Step) {
    match step
    case Publish(m) => Accepts(s.bus, m) ==> s.checks == map[]
    case MarkLockFails(_) => false
    case Subscribe(p, _, _) => !IsRegistered(s.bus.slots, p)
    case _ => true
  }

  ghost predicate QuietRun(s: System, steps: seq<Step>)
    requires Valid(s)
  {
    steps == [] ||
    (QuietRun(s, steps[..|steps| - 1]) && Quiet(Run(s, steps[..|steps| - 1]), steps[|steps| - 1]))
  }

  // What happened since the last acceptance.
  function Window(log: seq<Event>): (w: seq<Event>)
    ensures |w| <= |log| && forall k :: 0 <= k < |w| ==> w[k] == log[|log| - |w| + k] && !w[k].Accepted?
    ensures |w| < |log| ==> log[|log| - |w| - 1].Accepted?
  {
    if log == [] || log[|log| - 1].Accepted? then []
    else Window(log[..|log| - 1]) + [log[|log| - 1]]
  }

  function Calls(w: seq<Event>, p: nat): (n: nat) {
    if w == [] then 0
    else Calls(w[..|w| - 1], p) + (if w[|w| - 1].Called? && w[|w| - 1].pid == p then 1 else 0)
  }

  // The first reply other than REPLY_DO_NOTHING.
  function FirstReply(w: seq<Event>): (r: int) {
    if w == [] then REPLY_DO_NOTHING
    else
      var r := FirstReply(w[..|w| - 1]);
      if r == REPLY_DO_NOTHING && w[|w| - 1].Replied? then w[|w| - 1].ret else r
  }

  ghost predicate HasCall(w: seq<Event>, p: nat, ret: int) {
    exists k :: 0 <= k < |w| && w[k].Called? && w[k].pid == p && w[k].ret == ret
  }

  // Every reply was returned by a callback of the same process before.
  ghost predicate RepliesMatch(w: seq<Event>) {
    w == [] ||
    var before, e := w[..|w| - 1], w[|w| - 1];
    RepliesMatch(before) && (e.Replied? ==> HasCall(before, e.pid, e.ret))
  }

  lemma {:induction false} ReplyMatches(w: seq<Event>, k: nat)
    requires RepliesMatch(w) && k < |w| && w[k].Replied?
    ensures HasCall(w[..k], w[k].pid, w[k].ret)
  {
    hide HasCall;
    if k < |w| - 1 {
      ReplyMatches(w[..|w| - 1], k);
      assert w[..|w| - 1][..k] == w[..k];
    }
  }

  // What the deliveries of a message must be like, once every check is finished.
  ghost predicate Delivered(a: Event, w: seq<Event>)
    requires a.Accepted?
  {
    && (forall k :: 0 <= k < |w| && w[k].Called? ==> w[k].msg == a.msg)
    && (forall p :: p != NO_PROCESS ==> Calls(w, p) <= 1)
    && (forall p :: p != NO_PROCESS && p in a.members && Left(p) !in w && Polled(p) in w ==> Calls(w, p) == 1)
    && RepliesMatch(w)
  }

  // What a message met between its acceptance and the next one.
  ghost predicate Served(a: Event, w: seq<Event>, reply: int)
    requires a.Accepted?
  {
    Delivered(a, w) && reply == FirstReply(w) && reply != REPLY_DO_NOTHING
  }

  // What is known of one process p, given the window w and the processes registered when w began.
  ghost predicate ProcessOk(s: System, w: seq<Event>, members: set<nat>, p: nat)
    requires s.bus.Valid()
  {
    var i := Find(s.bus.slots, p);
    var registered := i < |s.bus.slots|;
    && Calls(w, p) <= 1
    && (if p in s.checks then
          && registered && !s.bus.slots[i].consumed && s.bus.slots[i].callback != NO_CALLBACK
          && s.checks[p].slot == i && s.checks[p].msg == s.bus.message
          && (s.checks[p].Copied? ==> Calls(w, p) == 0)
          && (s.checks[p].Answered? ==> Calls(w, p) == 1 && HasCall(w, p, s.checks[p].ret))
        else
          registered && Calls(w, p) == 1 ==> s.bus.slots[i].consumed)
    && (p in members && Left(p) !in w ==>
          && registered
          && (s.bus.slots[i].consumed ==> Calls(w, p) == 1)
          && (Polled(p) in w ==> p in s.checks || Calls(w, p) == 1))
  }

  ghost predicate WindowOk(s: System, w: seq<Event>) {
    RepliesMatch(w) && forall k :: 0 <= k < |w| && w[k].Called? ==> w[k].msg == s.bus.message
  }

  function LastMembers(log: seq<Event>): (r: set<nat>) {
    var w := Window(log);
    if |w| < |log| then log[|log| - |w| - 1].members else {}
  }

  ghost predicate BusOk(s: System, w: seq<Event>)
    requires s.bus.Valid() && |w| <= |s.log|
  {
    && DistinctPids(s.bus.slots)
    && if |w| < |s.log| then
         var a := s.log[|s.log| - |w| - 1];
         a.Accepted? && a.msg == s.bus.message && s.bus.reply == FirstReply(w)
       else
         AllConsumed(s.bus)
  }

  ghost predicate AllConsumed(b: Bus)
    requires b.Valid()
  {
    forall k :: 0 <= k < MAX_SUBSCRIBERS && b.slots[k].pid != NO_PROCESS ==> b.slots[k].consumed
  }

  ghost predicate Invariant(s: System) {
    && Valid(s) && NO_PROCESS !in s.checks
    && var w := Window(s.log);
    && WindowOk(s, w) && BusOk(s, w)
    && forall p :: p != NO_PROCESS ==> ProcessOk(s, w, LastMembers(s.log), p)
  }

  lemma WindowAppend(log: seq<Event>, e: Event)
    ensures Window(log + [e]) == if e.Accepted? then [] else Window(log) + [e]
    ensures !e.Accepted? ==> LastMembers(log + [e]) == LastMembers(log)
  {
    assert (log + [e])[..|log|] == log;
  }

  lemma CallsAppend(w: seq<Event>, e: Event, p: nat)
    ensures Calls(w + [e], p) == Calls(w, p) + (if e.Called? && e.pid == p then 1 else 0)
  {
    assert (w + [e])[..|w|] == w;
  }

  lemma FirstReplyAppend(w: seq<Event>, e: Event)
    ensures FirstReply(w + [e]) == if FirstReply(w) == REPLY_DO_NOTHING && e.Replied? then e.ret else FirstReply(w)
  {
    assert (w + [e])[..|w|] == w;
  }

  lemma HasCallAppend(w: seq<Event>, e: Event, p: nat, ret: int)
    ensures HasCall(w, p, ret) ==> HasCall(w + [e], p, ret)
    ensures e.Called? && e.pid == p && e.ret == ret ==> HasCall(w + [e], p, ret)
  {
    assert (w + [e])[|w|] == e;
    if HasCall(w, p, ret) {
      var k :| 0 <= k < |w| && w[k].Called? && w[k].pid == p && w[k].ret == ret;
      assert (w + [e])[k] == w[k];
    }
  }

  lemma WindowOkAppend(s: System, w: seq<Event>, e: Event)
    requires WindowOk(s, w)
    requires e.Called? ==> e.msg == s.bus.message
    requires e.Replied? ==> HasCall(w, e.pid, e.ret)
    ensures WindowOk(s, w + [e])
  {
    hide HasCall;
    assert (w + [e])[..|w|] == w;
  }

  // A process that the step does not concern sees no difference.
  lemma OtherProcess(s: System, t: System, w: seq<Event>, more: seq<Event>, members: set<nat>, p: nat)
    requires s.bus.Valid() && t.bus.Valid() && ProcessOk(s, w, members, p) && p != NO_PROCESS
    requires forall k :: 0 <= k < MAX_SUBSCRIBERS ==> (s.bus.slots[k].pid == p <==> t.bus.slots[k].pid == p)
    requires forall k :: 0 <= k < MAX_SUBSCRIBERS && s.bus.slots[k].pid == p ==> t.bus.slots[k] == s.bus.slots[k]
    requires p in s.checks <==> p in t.checks
    requires p in s.checks ==> t.checks[p] == s.checks[p] && t.bus.message == s.bus.message
    requires |more| <= 1 && (more != [] ==> !more[0].Accepted? && more[0].pid != p)
    ensures ProcessOk(t, w + more, members, p)
  {
    FindByPid(s.bus.slots, t.bus.slots, p);
    hide Find;
    hide Calls;
    hide HasCall;
    if more == [] {
      assert w + more == w;
    } else {
      assert more == [more[0]];
      CallsAppend(w, more[0], p);
      if p in s.checks && s.checks[p].Answered? {
        HasCallAppend(w, more[0], p, s.checks[p].ret);
      }
    }
  }

  lemma OwnPoll(s: System, step: Step, w: seq<Event>, members: set<nat>)
    requires Valid(s) && Enabled(s, step) && step.Poll? && ProcessOk(s, w, members, step.pid)
    ensures ProcessOk(Apply(s, step), w + Events(s, step), members, step.pid)
  {
    CallsAppend(w, Polled(step.pid), step.pid);
    hide Calls;
    hide HasCall;
    hide Find;
  }

  lemma OwnCallback(s: System, step: Step, w: seq<Event>, members: set<nat>)
    requires Valid(s) && Enabled(s, step) && step.Callback? && ProcessOk(s, w, members, step.pid)
    ensures ProcessOk(Apply(s, step), w + Events(s, step), members, step.pid)
    ensures s.checks[step.pid].msg == s.bus.message
  {
    CallsAppend(w, Events(s, step)[0], step.pid);
    HasCallAppend(w, Events(s, step)[0], step.pid, step.ret);
    hide Calls;
    hide HasCall;
    hide Find;
  }

  lemma OwnMark(s: System, step: Step, w: seq<Event>, members: set<nat>)
    requires Valid(s) && Enabled(s, step) && step.Mark? && ProcessOk(s, w, members, step.pid)
    ensures ProcessOk(Apply(s, step), w + Events(s, step), members, step.pid)
    ensures HasCall(w, step.pid, s.checks[step.pid].ret)
  {
    FindByPid(s.bus.slots, Apply(s, step).bus.slots, step.pid);
    CallsAppend(w, Events(s, step)[0], step.pid);
    hide Calls;
    hide HasCall;
    hide Find;
  }

  lemma OwnMembership(s: System, step: Step, w: seq<Event>, members: set<nat>)
    requires Valid(s) && Enabled(s, step) && (step.Subscribe? || step.Unsubscribe?)
    requires DistinctPids(s.bus.slots) && ProcessOk(s, w, members, step.pid)
    requires step.Subscribe? ==> !IsRegistered(s.bus.slots, step.pid)
    ensures ProcessOk(Apply(s, step), w + Events(s, step), members, step.pid)
    ensures DistinctPids(Apply(s, step).bus.slots)
  {
    var p, t := step.pid, Apply(s, step);
    if step.Unsubscribe? {
      CallsAppend(w, Left(p), p);
      assert (w + [Left(p)])[|w|] == Left(p);
      assert !IsRegistered(t.bus.slots, p);
    } else {
      assert w + [] == w;
    }
  }

  // An accepted publish starts a window in which nobody has been called.
  lemma PublishKeepsInvariant(s: System, step: Step)
    requires Valid(s) && DistinctPids(s.bus.slots)
    requires step.Publish? && Enabled(s, step) && s.checks == map[]
    ensures Invariant(Apply(s, step))
  {
    hide Window;
    hide Find;
    hide Unconsumed;
    hide Members;
    hide DistinctPids;
    var t, e := Apply(s, step), Events(s, step)[0];
    assert t.log == s.log + [e] && t.bus.slots == Unconsumed(s.bus.slots);
    WindowAppend(s.log, e);
    assert LastMembers(t.log) == Members(s.bus.slots);
    DistinctPidsUnconsumed(s.bus.slots);
    forall p | p != NO_PROCESS
      ensures ProcessOk(t, [], LastMembers(t.log), p)
    {
      FreshProcess(s, t, p);
    }
    hide ProcessOk;
  }

  lemma DistinctPidsUnconsumed(slots: seq<Subscriber>)
    requires DistinctPids(slots)
    ensures DistinctPids(Unconsumed(slots))
  {
  }

  lemma FreshProcess(s: System, t: System, p: nat)
    requires s.bus.Valid() && p != NO_PROCESS
    requires t.bus.slots == Unconsumed(s.bus.slots) && t.bus.Valid() && t.checks == map[]
    ensures ProcessOk(t, [], Members(s.bus.slots), p)
  {
    FindByPid(s.bus.slots, t.bus.slots, p);
  }

  // Every other step continues the window.
  lemma WindowKept(s: System, step: Step)
    requires Valid(s) && !step.Publish? && Enabled(s, step)
    ensures Window(Apply(s, step).log) == Window(s.log) + Events(s, step)
    ensures LastMembers(Apply(s, step).log) == LastMembers(s.log)
    ensures |Window(Apply(s, step).log)| < |Apply(s, step).log| <==> |Window(s.log)| < |s.log|
  {
    hide Window;
    hide LastMembers;
    hide Enabled;
    hide NextBus;
    hide NextChecks;
    LogContinued(s.log, Events(s, step));
  }

  lemma LogContinued(log: seq<Event>, more: seq<Event>)
    requires |more| <= 1 && (more != [] ==> !more[0].Accepted?)
    ensures Window(log + more) == Window(log) + more
    ensures LastMembers(log + more) == LastMembers(log)
    ensures |Window(log + more)| < |log + more| <==> |Window(log)| < |log|
  {
    if more == [] {
      assert log + more == log && Window(log) + more == Window(log);
    } else {
      assert more == [more[0]];
      WindowAppend(log, more[0]);
    }
  }

  lemma ProcessKept(s: System, step: Step, w: seq<Event>, members: set<nat>, p: nat)
    requires Valid(s) && !step.Publish? && Enabled(s, step) && Quiet(s, step) && DistinctPids(s.bus.slots)
    requires step.pid != NO_PROCESS && p != NO_PROCESS
    requires ProcessOk(s, w, members, p) && ProcessOk(s, w, members, step.pid)
    ensures ProcessOk(Apply(s, step), w + Events(s, step), members, p)
  {
    if p != step.pid {
      hide Calls;
      hide HasCall;
      OtherProcess(s, Apply(s, step), w, Events(s, step), members, p);
    } else if step.Subscribe? || step.Unsubscribe? {
      OwnMembership(s, step, w, members);
    } else if step.Poll? {
      OwnPoll(s, step, w, members);
    } else if step.Callback? {
      OwnCallback(s, step, w, members);
    } else {
      OwnMark(s, step, w, members);
    }
  }

  lemma WindowStaysOk(s: System, step: Step, w: seq<Event>, members: set<nat>)
    requires Valid(s) && !step.Publish? && Enabled(s, step) && Quiet(s, step)
    requires ProcessOk(s, w, members, step.pid) && WindowOk(s, w)
    ensures WindowOk(Apply(s, step), w + Events(s, step))
  {
    var t, more := Apply(s, step), Events(s, step);
    if step.Callback? {
      OwnCallback(s, step, w, members);
    } else if step.Mark? {
      OwnMark(s, step, w, members);
    }
    assert WindowOk(t, w);
    if more == [] {
      assert w + more == w;
    } else {
      assert more == [more[0]];
      WindowOkAppend(t, w, more[0]);
    }
  }

  lemma DistinctKept(s: System, step: Step, w: seq<Event>, members: set<nat>)
    requires Valid(s) && !step.Publish? && Enabled(s, step) && Quiet(s, step)
    requires DistinctPids(s.bus.slots) && ProcessOk(s, w, members, step.pid)
    ensures DistinctPids(Apply(s, step).bus.slots)
  {
    if step.Subscribe? || step.Unsubscribe? {
      OwnMembership(s, step, w, members);
    } else if step.Mark? {
      var slots, after := s.bus.slots, Apply(s, step).bus.slots;
      assert forall k :: 0 <= k < |slots| ==> after[k].pid == slots[k].pid;
    }
  }

  lemma ReplyKept(s: System, step: Step, w: seq<Event>)
    requires Valid(s) && !step.Publish? && Enabled(s, step) && s.bus.reply == FirstReply(w)
    ensures Apply(s, step).bus.reply == FirstReply(w + Events(s, step))
    ensures Apply(s, step).bus.message == s.bus.message
  {
    var more := Events(s, step);
    if more == [] {
      assert w + more == w;
    } else {
      assert more == [more[0]];
      FirstReplyAppend(w, more[0]);
    }
    hide FirstReply;
  }

  lemma BusKept(s: System, step: Step, w: seq<Event>, members: set<nat>)
    requires Valid(s) && !step.Publish? && Enabled(s, step) && Quiet(s, step) && w == Window(s.log)
    requires BusOk(s, w) && ProcessOk(s, w, members, step.pid)
    ensures BusOk(Apply(s, step), w + Events(s, step))
  {
    hide DistinctPids;
    hide Window;
    hide Calls;
    hide HasCall;
    hide FirstReply;
    DistinctKept(s, step, w, members);
    if |w| < |s.log| {
      ReplyKept(s, step, w);
    } else {
      ConsumedKept(s, step);
    }
    hide ProcessOk;
    hide NextBus;
    hide AllConsumed;
  }

  lemma ConsumedKept(s: System, step: Step)
    requires Valid(s) && !step.Publish? && Enabled(s, step) && AllConsumed(s.bus)
    ensures AllConsumed(NextBus(s, step))
  {
  }

  lemma OtherStepKeepsInvariant(s: System, step: Step)
    requires Invariant(s) && !step.Publish? && Enabled(s, step) && Quiet(s, step)
    ensures Invariant(Apply(s, step))
  {
    hide ProcessOk;
    hide WindowOk;
    hide BusOk;
    hide Window;
    hide LastMembers;
    hide Find;
    hide NextBus;
    var t, w, members := Apply(s, step), Window(s.log), LastMembers(s.log);
    assert step.pid != NO_PROCESS && NO_PROCESS !in t.checks;
    InvariantDistinct(s);
    WindowKept(s, step);
    WindowStaysOk(s, step, w, members);
    BusKept(s, step, w, members);
    forall p | p != NO_PROCESS
      ensures ProcessOk(t, w + Events(s, step), members, p)
    {
      ProcessKept(s, step, w, members, p);
    }
  }

  lemma {:induction false} EveryRunKeepsInvariant(steps: seq<Step>)
    requires QuietRun(INITIAL, steps)
    ensures Invariant(Run(INITIAL, steps))
  {
    hide Invariant;
    if steps == [] {
      NothingYet(INITIAL);
    } else {
      var s, step := Run(INITIAL, steps[..|steps| - 1]), steps[|steps| - 1];
      EveryRunKeepsInvariant(steps[..|steps| - 1]);
      if Enabled(s, step) {
        if step.Publish? {
          InvariantDistinct(s);
          PublishKeepsInvariant(s, step);
        } else {
          OtherStepKeepsInvariant(s, step);
        }
      }
    }
  }

  lemma InvariantDistinct(s: System)
    requires Invariant(s)
    ensures DistinctPids(s.bus.slots)
  {
  }

  lemma NothingYet(s: System)
    requires Valid(s) && s.log == [] && s.checks == map[]
    requires forall k :: 0 <= k < MAX_SUBSCRIBERS ==> s.bus.slots[k].pid == NO_PROCESS
    ensures Invariant(s)
  {
    hide Window;
    hide LastMembers;
    hide Find;
    hide ProcessOk;
    EmptyLog();
    forall p | p != NO_PROCESS
      ensures ProcessOk(s, [], {}, p)
    {
      NeverCalled(s, p);
    }
  }

  lemma EmptyLog()
    ensures Window([]) == [] && LastMembers([]) == {}
  {
  }

  lemma NeverCalled(s: System, p: nat)
    requires s.bus.Valid() && s.checks == map[]
    ensures ProcessOk(s, [], {}, p)
  {
  }

  // Delivery with any number of subscribers: for two consecutive acceptances in the history of a quiet run,
  // the first message is served as it should be before the second is accepted.
  lemma {:induction false} EachMessageServed(steps: seq<Step>, i: nat, j: nat)
    requires QuietRun(INITIAL, steps)
    requires i < j < |Run(INITIAL, steps).log| && Consecutive(Run(INITIAL, steps).log, i, j)
    ensures Served(Run(INITIAL, steps).log[i], Run(INITIAL, steps).log[i + 1..j], Run(INITIAL, steps).log[j].prev)
  {
    hide Invariant;
    hide Served;
    hide Enabled;
    if steps != [] {
      var s, step := Run(INITIAL, steps[..|steps| - 1]), steps[|steps| - 1];
      var log := Run(INITIAL, steps).log;
      assert log == s.log || (Enabled(s, step) && log == s.log + Events(s, step));
      if j < |s.log| {
        assert forall k :: 0 <= k < |s.log| ==> s.log[k] == log[k];
        EachMessageServed(steps[..|steps| - 1], i, j);
        assert s.log == log[..|s.log|];
        assert log[..|s.log|][i + 1..j] == log[i + 1..j];
      } else {
        EveryRunKeepsInvariant(steps[..|steps| - 1]);
        ServedByAcceptance(s, step, i);
        assert log[i + 1..j] == s.log[i + 1..];
      }
    }
  }

  lemma ServedByAcceptance(s: System, step: Step, i: nat)
    requires Invariant(s) && Enabled(s, step) && Quiet(s, step)
    requires Events(s, step) != [] && Events(s, step)[0].Accepted?
    requires i < |s.log| && s.log[i].Accepted? && forall k :: i < k < |s.log| ==> !s.log[k].Accepted?
    ensures Served(s.log[i], s.log[i + 1..], Events(s, step)[0].prev)
  {
    hide Invariant;
    hide Delivered;
    hide FirstReply;
    hide Window;
    hide LastMembers;
    hide Find;
    hide Members;
    WindowBetween(s.log, i);
    WindowIsDelivered(s);
  }

  ghost predicate Consecutive(log: seq<Event>, i: nat, j: nat)
    requires i < j < |log|
  {
    log[i].Accepted? && log[j].Accepted? && forall k :: i < k < j ==> !log[k].Accepted?
  }

  lemma {:induction false} WindowBetween(log: seq<Event>, i: nat)
    requires i < |log| && log[i].Accepted? && forall k :: i < k < |log| ==> !log[k].Accepted?
    ensures Window(log) == log[i + 1..]
  {
    hide Window;
    var n := |log| - 1;
    LastOfWindow(log);
    if i < n {
      WindowBetween(log[..n], i);
      assert log[..n][i + 1..] + [log[n]] == log[i + 1..];
    }
  }

  lemma LastOfWindow(log: seq<Event>)
    requires log != []
    ensures var n := |log| - 1; Window(log) == if log[n].Accepted? then [] else Window(log[..n]) + [log[n]]
  {
  }

  function LastAcceptance(log: seq<Event>): (a: Event)
    requires |Window(log)| < |log|
    ensures a.Accepted?
  {
    log[|log| - |Window(log)| - 1]
  }

  // When no check is unfinished, the message has been delivered as it should be.
  lemma WindowIsDelivered(s: System)
    requires Invariant(s) && s.checks == map[] && |Window(s.log)| < |s.log|
    ensures Delivered(LastAcceptance(s.log), Window(s.log))
    ensures s.bus.reply == FirstReply(Window(s.log))
  {
    var w, members := Window(s.log), LastMembers(s.log);
    hide Window;
    hide Calls;
    hide HasCall;
    hide FirstReply;
    assert WindowOk(s, w) && BusOk(s, w);
    assert members == LastAcceptance(s.log).members;
    forall p | p != NO_PROCESS
      ensures Calls(w, p) <= 1
      ensures p in members && Left(p) !in w && Polled(p) in w ==> Calls(w, p) == 1
    {
      assert ProcessOk(s, w, members, p);
    }
  }

  lemma {:induction false} TraceIsRun(trace: seq<System>, steps: seq<Step>)
    requires |trace| == |steps| + 1 && forall k :: 0 <= k < |trace| ==> Valid(trace[k])
    requires forall k :: 0 <= k < |steps| ==> trace[k + 1] == Apply(trace[k], steps[k])
    ensures Run(trace[0], steps) == trace[|steps|]
  {
    hide Apply;
    if steps != [] {
      TraceIsRun(trace[..|steps|], steps[..|steps| - 1]);
    }
  }
}
