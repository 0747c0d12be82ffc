// Publishers that wait for a reply: mmt_bus_publish with a place for the reply code.

module WaitingPublishers {
  import opened Common
  import opened BusModel
  import opened BusProtocol
  import opened ManyPollers

  // A reply taken by publisher w, whose message is event number `at` of the history, when the history had `upto` events.
  datatype Taken = Taken(w: nat, at: nat, reply: int, upto: nat)

  // waiting: the publishers in their loop, with the numbers of their acceptances.
  datatype World = World(s: System, waiting: map<nat, nat>, taken: seq<Taken>)

  datatype Act =
    | Other(step: Step)
    | PublishAndWait(w: nat, m: Message)
    | Look(w: nat)  // one pass of the loop

  const START := World(INITIAL, map[], [])

  function ApplyAct(x: World, a: Act): (y: World)
    requires Valid(x.s)
    ensures Valid(y.s)
  {
    match a
    case Other(step) => x.(s := Apply(x.s, step))
    case PublishAndWait(w, m) =>
      if w in x.waiting || !Accepts(x.s.bus, m) then x
      else x.(s := Apply(x.s, Publish(m)), waiting := x.waiting[w := |x.s.log|])
    case Look(w) =>
      var r := TakeReply(x.s.bus);
      if w !in x.waiting || r == None then x
      else x.(waiting := x.waiting - {w}, taken := x.taken + [Taken(w, x.waiting[w], r.value, |x.s.log|)])
  }

  function RunActs(acts: seq<Act>): (y: World)
    ensures Valid(y.s)
  {
    if acts == [] then START else ApplyAct(RunActs(acts[..|acts| - 1]), acts[|acts| - 1])
  }

  // Nothing is published while a check is unfinished, locks succeed, and nobody subscribes twice.
  ghost predicate QuietAct(x: World, a: Act) {
    match a
    case Other(step) => Quiet(x.s, step)
    case PublishAndWait(_, m) => Quiet(x.s, Publish(m))
    case Look(_) => true
  }

  ghost predicate QuietActs(acts: seq<Act>) {
    acts == [] || (QuietActs(acts[..|acts| - 1]) && QuietAct(RunActs(acts[..|acts| - 1]), acts[|acts| - 1]))
  }

  // In history h a reply to its last accepted message is there, and it is the first effective answer to that message.
  ghost predicate IsReply(h: seq<Event>, reply: int) {
    && |Window(h)| < |h| && reply == FirstReply(Window(h)) && reply != REPLY_DO_NOTHING
    && exists k :: 0 <= k < |Window(h)| && Window(h)[k].Called? && Window(h)[k].ret == reply
                   && Window(h)[k].msg == LastAcceptance(h).msg
  }

  // The position of the last acceptance.
  function LastAt(h: seq<Event>): (k: nat)
    requires |Window(h)| < |h|
    ensures k < |h| && h[k] == LastAcceptance(h)
    ensures forall j :: k < j < |h| ==> !h[j].Accepted?
  {
    assert forall j :: |h| - |Window(h)| <= j < |h| ==> h[j] == Window(h)[j - (|h| - |Window(h)|)];
    |h| - |Window(h)| - 1
  }

  ghost predicate TakenOk(log: seq<Event>, t: Taken) {
    && t.at < t.upto <= |log| && log[t.at].Accepted?
    && IsReply(log[..t.upto], t.reply) && t.at <= LastAt(log[..t.upto])
  }

  ghost predicate WaitingOk(x: World) {
    forall w :: w in x.waiting ==> x.waiting[w] < |x.s.log| && x.s.log[x.waiting[w]].Accepted?
  }

  lemma {:induction false} FirstReplyIs(w: seq<Event>)
    requires FirstReply(w) != REPLY_DO_NOTHING
    ensures exists k :: 0 <= k < |w| && w[k].Replied? && w[k].ret == FirstReply(w)
  {
    var n := |w| - 1;
    if FirstReply(w[..n]) != REPLY_DO_NOTHING {
      FirstReplyIs(w[..n]);
      var k :| 0 <= k < n && w[..n][k].Replied? && w[..n][k].ret == FirstReply(w[..n]);
      assert w[k].Replied? && w[k].ret == FirstReply(w);
    } else {
      assert w[n].Replied? && w[n].ret == FirstReply(w);
    }
  }

  // A window in which every reply is that of a callback to msg.
  lemma AnswerIn(w: seq<Event>, msg: Message)
    requires FirstReply(w) != REPLY_DO_NOTHING
    requires forall k :: 0 <= k < |w| && w[k].Called? ==> w[k].msg == msg
    requires RepliesMatch(w)
    ensures exists k :: 0 <= k < |w| && w[k].Called? && w[k].ret == FirstReply(w) && w[k].msg == msg
  {
    hide FirstReply;
    FirstReplyIs(w);
    var k :| 0 <= k < |w| && w[k].Replied? && w[k].ret == FirstReply(w);
    ReplyMatches(w, k);
    var j :| 0 <= j < k && w[..k][j].Called? && w[..k][j].pid == w[k].pid && w[..k][j].ret == w[k].ret;
    assert w[j].Called? && w[j].ret == FirstReply(w);
  }

  lemma InvariantWindow(s: System)
    requires Invariant(s) && |Window(s.log)| < |s.log|
    ensures var w := Window(s.log);
      WindowOk(s, w) && s.bus.reply == FirstReply(w) && LastAcceptance(s.log).msg == s.bus.message
  {
    hide Window;
    hide LastMembers;
    hide FirstReply;
    hide ProcessOk;
    hide HasCall;
  }

  lemma OpenBusHasReply(s: System)
    requires Invariant(s) && s.bus.reply != REPLY_DO_NOTHING && |Window(s.log)| < |s.log|
    ensures IsReply(s.log, s.bus.reply)
  {
    hide Invariant;
    hide Window;
    hide LastAcceptance;
    hide FirstReply;
    hide HasCall;
    InvariantWindow(s);
    AnswerIn(Window(s.log), s.bus.message);
  }

  lemma LogGrows(s: System, step: Step)
    requires Valid(s)
    ensures s.log <= Apply(s, step).log
  {
  }

  lemma StepQuietly(s: System, step: Step)
    requires Valid(s) && Invariant(s) && Quiet(s, step)
    ensures Invariant(Apply(s, step))
  {
    hide Invariant;
    hide Quiet;
    hide Enabled;
    if Enabled(s, step) {
      if step.Publish? {
        InvariantDistinct(s);
        NoCheck(s, step);
        PublishKeepsInvariant(s, step);
      } else {
        OtherStepKeepsInvariant(s, step);
      }
    }
  }

  lemma NoCheck(s: System, step: Step)
    requires Quiet(s, step) && step.Publish? && Enabled(s, step)
    ensures s.checks == map[]
  {
  }

  lemma WaitingFor(x: World, w: nat)
    requires WaitingOk(x) && w in x.waiting
    ensures |Window(x.s.log)| < |x.s.log| && x.waiting[w] <= LastAt(x.s.log)
  {
    NotInWindow(x.s.log, x.waiting[w]);
  }

  lemma NotInWindow(log: seq<Event>, at: nat)
    requires at < |log|
    ensures log[at].Accepted? ==> at < |log| - |Window(log)|
  {
    hide Window;
    var start := |log| - |Window(log)|;
    if at >= start {
      assert Window(log)[at - start] == log[at];
    }
  }

  lemma TakenStays(log: seq<Event>, more: seq<Event>, t: Taken)
    requires TakenOk(log, t) && log <= more
    ensures TakenOk(more, t)
  {
    assert more[..t.upto] == log[..t.upto];
  }

  // Whoever takes a reply, in whatever quiet run, takes the first effective answer to the message accepted last.
  lemma {:induction false} EveryReplyTaken(acts: seq<Act>)
    requires QuietActs(acts)
    ensures var x := RunActs(acts);
      Invariant(x.s) && WaitingOk(x) && forall k :: 0 <= k < |x.taken| ==> TakenOk(x.s.log, x.taken[k])
  {
    hide Invariant;
    hide Apply;
    hide TakenOk;
    hide Quiet;
    if acts == [] {
      NothingYet(INITIAL);
    } else {
      var x, a := RunActs(acts[..|acts| - 1]), acts[|acts| - 1];
      EveryReplyTaken(acts[..|acts| - 1]);
      ActKeeps(x, a);
    }
  }

  lemma ActKeeps(x: World, a: Act)
    requires Valid(x.s) && Invariant(x.s) && WaitingOk(x) && QuietAct(x, a)
    requires forall k :: 0 <= k < |x.taken| ==> TakenOk(x.s.log, x.taken[k])
    ensures var y := ApplyAct(x, a);
      Invariant(y.s) && WaitingOk(y) && forall k :: 0 <= k < |y.taken| ==> TakenOk(y.s.log, y.taken[k])
  {
    hide Invariant;
    hide Apply;
    hide TakenOk;
    hide Quiet;
    hide Accepts;
    hide IsReply;
    hide Window;
    var y := ApplyAct(x, a);
    if a.Look? {
      LookKeeps(x, a.w);
    } else {
      var step := if a.Other? then a.step else Publish(a.m);
      StepQuietly(x.s, step);
      LogGrows(x.s, step);
      AcceptedNow(x.s, step);
      forall k | 0 <= k < |y.taken|
        ensures TakenOk(y.s.log, y.taken[k])
      {
        TakenStays(x.s.log, y.s.log, x.taken[k]);
      }
    }
  }

  lemma AcceptedNow(s: System, step: Step)
    requires Valid(s)
    ensures step.Publish? && Accepts(s.bus, step.msg) ==>
              |Apply(s, step).log| == |s.log| + 1 && Apply(s, step).log[|s.log|].Accepted? && Apply(s, step).log[|s.log|].msg == step.msg
  {
  }

  lemma LookKeeps(x: World, w: nat)
    requires Valid(x.s) && Invariant(x.s) && WaitingOk(x)
    requires forall k :: 0 <= k < |x.taken| ==> TakenOk(x.s.log, x.taken[k])
    ensures var y := ApplyAct(x, Look(w));
      y.s == x.s && WaitingOk(y) && forall k :: 0 <= k < |y.taken| ==> TakenOk(y.s.log, y.taken[k])
  {
    hide Invariant;
    hide IsReply;
    hide Window;
    hide LastAt;
    if w in x.waiting && TakeReply(x.s.bus).Some? {
      WaitingFor(x, w);
      OpenBusHasReply(x.s);
      assert x.s.log[..|x.s.log|] == x.s.log;
    }
  }

  // Nothing else was accepted between its own acceptance and the moment it took the reply.
  ghost predicate NoneSince(log: seq<Event>, t: Taken)
    requires t.upto <= |log|
  {
    forall j :: t.at < j < t.upto ==> !log[j].Accepted?
  }

  // The reply is the first effective answer to its own message.
  ghost predicate AnswersOwn(log: seq<Event>, t: Taken)
    requires t.at < t.upto <= |log| && log[t.at].Accepted?
  {
    && t.reply == FirstReply(log[t.at + 1..t.upto])
    && exists j :: t.at < j < t.upto && log[j].Called? && log[j].ret == t.reply && log[j].msg == log[t.at].msg
  }

  lemma LastIfNoneSince(log: seq<Event>, t: Taken)
    requires t.at < t.upto <= |log| && log[t.at].Accepted? && |Window(log[..t.upto])| < t.upto && t.at <= LastAt(log[..t.upto])
    ensures NoneSince(log, t) <==> LastAt(log[..t.upto]) == t.at
  {
    hide Window;
    hide FirstReply;
    var h := log[..t.upto];
    var i := LastAt(h);
    assert log[i] == h[i] && h[i].Accepted?;
    assert forall j :: t.at < j < t.upto ==> h[j] == log[j];
  }

  lemma OwnIfNoneSince(log: seq<Event>, t: Taken)
    requires TakenOk(log, t)
    ensures NoneSince(log, t) <==> LastAt(log[..t.upto]) == t.at
    ensures NoneSince(log, t) ==> AnswersOwn(log, t)
  {
    hide FirstReply;
    hide Window;
    hide LastAt;
    hide NoneSince;
    hide AnswersOwn;
    hide LastAcceptance;
    LastIfNoneSince(log, t);
    var h := log[..t.upto];
    WindowIs(h);
    if LastAt(h) == t.at {
      assert h[t.at + 1..] == log[t.at + 1..t.upto];
      AnswerFromWindow(log, t, Window(h));
    }
  }

  lemma AnswerFromWindow(log: seq<Event>, t: Taken, w: seq<Event>)
    requires t.at < t.upto <= |log| && log[t.at].Accepted? && w == log[t.at + 1..t.upto] && t.reply == FirstReply(w)
    requires exists k :: 0 <= k < |w| && w[k].Called? && w[k].ret == t.reply && w[k].msg == log[t.at].msg
    ensures AnswersOwn(log, t)
  {
    hide FirstReply;
    var k :| 0 <= k < |w| && w[k].Called? && w[k].ret == t.reply && w[k].msg == log[t.at].msg;
    assert log[t.at + 1 + k] == w[k];
  }

  lemma WindowIs(h: seq<Event>)
    requires |Window(h)| < |h|
    ensures Window(h) == h[LastAt(h) + 1..] && LastAcceptance(h) == h[LastAt(h)]
  {
  }

  // A reply that a publisher takes answers the message accepted last: that is its own if and only if no other publish
  // was accepted since.
  lemma OwnReply(acts: seq<Act>, k: nat)
    requires QuietActs(acts) && k < |RunActs(acts).taken|
    ensures var log, t := RunActs(acts).s.log, RunActs(acts).taken[k];
      && TakenOk(log, t)
      && (NoneSince(log, t) <==> LastAt(log[..t.upto]) == t.at)
      && (NoneSince(log, t) ==> AnswersOwn(log, t))
  {
    hide Invariant;
    hide TakenOk;
    hide NoneSince;
    hide AnswersOwn;
    EveryReplyTaken(acts);
    OwnIfNoneSince(RunActs(acts).s.log, RunActs(acts).taken[k]);
  }

  // And that happens: whenever the bus is open and nothing is unfinished, another message can be published, answered
  // by a subscriber that polls, and a publisher that still waits for the reply to its own message takes that answer.
  lemma AnothersReply(x: World, w: nat, q: nat, m: Message, r: int) returns (acts: seq<Act>)
    requires Valid(x.s) && Invariant(x.s) && x.s.checks == map[] && w in x.waiting
    requires Accepts(x.s.bus, m) && r != REPLY_DO_NOTHING
    requires q != NO_PROCESS && IsRegistered(x.s.bus.slots, q) && x.s.bus.slots[Find(x.s.bus.slots, q)].callback != NO_CALLBACK
    ensures acts == [Other(Publish(m)), Other(Poll(q)), Other(Callback(q, r)), Other(Mark(q)), Look(w)]
    ensures var x1 := ApplyAct(x, acts[0]); var x2 := ApplyAct(x1, acts[1]); var x3 := ApplyAct(x2, acts[2]); var x4 := ApplyAct(x3, acts[3]);
      var y := ApplyAct(x4, acts[4]);
      && QuietAct(x, acts[0]) && QuietAct(x1, acts[1]) && QuietAct(x2, acts[2]) && QuietAct(x3, acts[3])
      && y.taken == x.taken + [Taken(w, x.waiting[w], r, |y.s.log|)]
      && y.s.log == x.s.log + [Accepted(m, x.s.bus.reply, Members(x.s.bus.slots)), Polled(q), Called(q, m, r), Replied(q, r)]
  {
    hide Invariant;
    acts := [Other(Publish(m)), Other(Poll(q)), Other(Callback(q, r)), Other(Mark(q)), Look(w)];
    var s1 := Apply(x.s, Publish(m));
    FindByPid(x.s.bus.slots, s1.bus.slots, q);
    hide Find;
    hide Members;
    var s2 := Apply(s1, Poll(q));
    assert s2.checks == map[q := Copied(Find(s1.bus.slots, q), m)];
    var s3 := Apply(s2, Callback(q, r));
    var s4 := Apply(s3, Mark(q));
    assert s4.bus.reply == r;
    assert s4.log == x.s.log + [Accepted(m, x.s.bus.reply, Members(x.s.bus.slots)), Polled(q), Called(q, m, r), Replied(q, r)];
  }
}
