// When the bus of src/modules/dynamic_conf/mmt_bus.c is stuck for good.

module StuckBus {
  import opened BusModel
  import opened BusProtocol
  import opened ManyPollers

  // A check under way is that of a subscriber whose message is still to be marked.
  ghost predicate CheckOk(s: System, p: nat)
    requires s.bus.Valid() && p in s.checks
  {
    && p != NO_PROCESS
    && s.checks[p].slot == Find(s.bus.slots, p) < MAX_SUBSCRIBERS
    && s.bus.slots[s.checks[p].slot].callback != NO_CALLBACK
    && !s.bus.slots[s.checks[p].slot].consumed
  }

  ghost predicate Sound(s: System) {
    Valid(s) && DistinctPids(s.bus.slots) && forall p :: p in s.checks ==> CheckOk(s, p)
  }

  predicate SubscribesOnce(s: System, step: Step) {
    step.Subscribe? ==> !IsRegistered(s.bus.slots, step.pid)
  }

  // Nothing can come any more from this slot.
  ghost predicate Spent(s: System, k: nat)
    requires k < |s.bus.slots|
  {
    var slot := s.bus.slots[k];
    || slot.pid == NO_PROCESS || slot.callback == NO_CALLBACK || slot.consumed
    || (slot.pid in s.checks && s.checks[slot.pid].Answered? && s.checks[slot.pid].ret == REPLY_DO_NOTHING)
  }

  ghost predicate Exhausted(s: System)
    requires s.bus.Valid()
  {
    s.bus.reply == REPLY_DO_NOTHING && forall k :: 0 <= k < MAX_SUBSCRIBERS ==> Spent(s, k)
  }

  lemma SoundStep(s: System, step: Step)
    requires Sound(s) && SubscribesOnce(s, step)
    ensures Sound(Apply(s, step))
  {
    if Enabled(s, step) {
      var t := Apply(s, step);
      DistinctPidsKept(s, step);
      hide DistinctPids;
      forall p | p in t.checks
        ensures CheckOk(t, p)
      {
        if step.Poll? && p == step.pid {
          assert p !in s.checks ==> t.checks[p] == Copied(Find(s.bus.slots, p), s.bus.message);
        } else {
          CheckKept(s, step, p);
        }
      }
    }
  }

  lemma DistinctPidsKept(s: System, step: Step)
    requires Valid(s) && DistinctPids(s.bus.slots) && Enabled(s, step) && SubscribesOnce(s, step)
    ensures DistinctPids(Apply(s, step).bus.slots)
  {
    var slots, after := s.bus.slots, NextBus(s, step).slots;
    match step
    case Subscribe(p, _, _) =>
      assert forall k :: 0 <= k < |slots| ==> slots[k].pid != p;
    case Unsubscribe(p) =>
    case _ =>
      assert forall k :: 0 <= k < |slots| ==> after[k].pid == slots[k].pid;
  }

  lemma CheckKept(s: System, step: Step, p: nat)
    requires Valid(s) && Enabled(s, step)
    requires p in s.checks && CheckOk(s, p) && (step.Mark? ==> CheckOk(s, step.pid))
    requires p in NextChecks(s, step) && (step.Poll? ==> p != step.pid)
    ensures CheckOk(Apply(s, step), p)
  {
    hide Find;
    var slots, after := s.bus.slots, NextBus(s, step).slots;
    assert forall k :: 0 <= k < |slots| ==> (slots[k].pid == p <==> after[k].pid == p);
    FindByPid(slots, after, p);
  }

  lemma ExhaustedStep(s: System, step: Step)
    requires Sound(s) && Exhausted(s) && !step.MarkLockFails?
    ensures Exhausted(Apply(s, step))
  {
    if Enabled(s, step) {
      var t := Apply(s, step);
      if step.Mark? || step.Callback? {
        assert CheckOk(s, step.pid);
        assert Spent(s, s.checks[step.pid].slot);
      } else if step.Poll? {
        assert Spent(s, Find(s.bus.slots, step.pid));
      }
      forall k | 0 <= k < MAX_SUBSCRIBERS
        ensures Spent(t, k)
      {
        assert Spent(s, k);
      }
    }
  }

  ghost predicate Continuation(s: System, steps: seq<Step>)
    requires Valid(s)
  {
    steps != [] ==>
      && Continuation(s, steps[..|steps| - 1])
      && SubscribesOnce(Run(s, steps[..|steps| - 1]), steps[|steps| - 1])
      && !steps[|steps| - 1].MarkLockFails?
  }

  lemma {:induction false} StaysExhausted(s: System, steps: seq<Step>)
    requires Sound(s) && Exhausted(s) && Continuation(s, steps)
    ensures Sound(Run(s, steps)) && Exhausted(Run(s, steps))
  {
    if steps != [] {
      var before, step := Run(s, steps[..|steps| - 1]), steps[|steps| - 1];
      StaysExhausted(s, steps[..|steps| - 1]);
      SoundStep(before, step);
      ExhaustedStep(before, step);
    }
  }

  // A run that reopens a bus which is not exhausted: some subscriber still has an answer to give.
  ghost function Reopening(s: System, k: nat): (steps: seq<Step>)
    requires Sound(s) && k < MAX_SUBSCRIBERS
  {
    var p := s.bus.slots[k].pid;
    if p in s.checks && s.checks[p].Answered? then [Mark(p)]
    else if p in s.checks then [Callback(p, 0), Mark(p)]
    else [Poll(p), Callback(p, 0), Mark(p)]
  }

  lemma ReopeningWorks(s: System, k: nat)
    requires Sound(s) && k < MAX_SUBSCRIBERS && !Spent(s, k) && s.bus.reply == REPLY_DO_NOTHING
    ensures Continuation(s, Reopening(s, k))
    ensures Run(s, Reopening(s, k)).bus.reply != REPLY_DO_NOTHING
  {
    var p := s.bus.slots[k].pid;
    ChecksContinue(s, Reopening(s, k));
    OwnSlot(s, k);
    if p in s.checks {
      assert CheckOk(s, p);
      FinishCheck(s, p);
    } else {
      var s1 := Apply(s, Poll(p));
      FinishCheck(s1, p);
      PollFirst(s, p);
    }
  }

  lemma OwnSlot(s: System, k: nat)
    requires Sound(s) && k < MAX_SUBSCRIBERS && s.bus.slots[k].pid != NO_PROCESS
    ensures Find(s.bus.slots, s.bus.slots[k].pid) == k
  {
  }

  // The rest of a check that still has an effective answer to give.
  ghost function Finish(s: System, p: nat): (steps: seq<Step>)
    requires p in s.checks
  {
    if s.checks[p].Answered? then [Mark(p)] else [Callback(p, 0), Mark(p)]
  }

  lemma FinishCheck(s: System, p: nat)
    requires Valid(s) && p in s.checks && s.bus.reply == REPLY_DO_NOTHING
    requires s.checks[p].Answered? ==> s.checks[p].ret != REPLY_DO_NOTHING
    ensures Run(s, Finish(s, p)).bus.reply != REPLY_DO_NOTHING
  {
    var s2 := if s.checks[p].Answered? then s else Apply(s, Callback(p, 0));
    var s3 := Apply(s2, Mark(p));
    assert s3.bus.reply == s2.checks[p].ret != REPLY_DO_NOTHING;
    hide Apply;
    hide Run;
    if s.checks[p].Answered? {
      TraceIsRun([s, s3], [Mark(p)]);
    } else {
      TraceIsRun([s, s2, s3], [Callback(p, 0), Mark(p)]);
    }
  }

  lemma PollFirst(s: System, p: nat)
    requires Valid(s)
    ensures Run(s, [Poll(p), Callback(p, 0), Mark(p)]) == Run(Apply(s, Poll(p)), [Callback(p, 0), Mark(p)])
  {
    hide Apply;
    RunConcat(s, [Poll(p)], [Callback(p, 0), Mark(p)]);
    assert [Poll(p)] + [Callback(p, 0), Mark(p)] == [Poll(p), Callback(p, 0), Mark(p)];
    assert [Poll(p)][..0] == [];
  }

  lemma {:induction false} ChecksContinue(s: System, steps: seq<Step>)
    requires Valid(s)
    requires forall k :: 0 <= k < |steps| ==> !steps[k].Subscribe? && !steps[k].MarkLockFails?
    ensures Continuation(s, steps)
  {
    if steps != [] {
      ChecksContinue(s, steps[..|steps| - 1]);
    }
  }

  // The bus is stuck exactly when no slot has anything left to give: otherwise some continuation
  // reopens it; then none does, whoever joins, leaves or publishes.
  lemma StuckExactly(s: System)
    requires Sound(s)
    ensures Exhausted(s) <==>
            forall steps, m :: Continuation(s, steps) ==> !Accepts(Run(s, steps).bus, m)
  {
    if Exhausted(s) {
      forall steps, m | Continuation(s, steps)
        ensures !Accepts(Run(s, steps).bus, m)
      {
        StaysExhausted(s, steps);
      }
    } else if s.bus.reply != REPLY_DO_NOTHING {
      Reopened(s, []);
    } else {
      var k :| 0 <= k < MAX_SUBSCRIBERS && !Spent(s, k);
      ReopeningWorks(s, k);
      Reopened(s, Reopening(s, k));
    }
  }

  lemma Reopened(s: System, steps: seq<Step>)
    requires Valid(s) && Continuation(s, steps) && Run(s, steps).bus.reply != REPLY_DO_NOTHING
    ensures exists steps, m :: Continuation(s, steps) && Accepts(Run(s, steps).bus, m)
  {
    var m: Message := "";
    assert Continuation(s, steps) && Accepts(Run(s, steps).bus, m);
  }
}
