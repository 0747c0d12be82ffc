// The composed system: control process, main process and processing children, with the bus between them.

module DynamicConf {
  import opened Common
  import opened BusModel
  import BusProtocol
  import SinglePoller
  import Identities
  import SupervisorModel
  import Supervision

  // s: the bus and its users; w: the main process and its children.
  // checked: the main process has begun its check of this turn.
  // missed: some command has been answered with REPLY_DO_NOTHING.
  datatype State = State(s: BusProtocol.System, w: Supervision.World, checked: bool, missed: bool)

  datatype Act =
    | Bus(step: BusProtocol.Step)  // another process publishes, subscribes or unsubscribes
    | Os(call: Supervision.Step)   // the main process forks or waits, or a child exits
    | CheckBegins
    | CheckAnswers
    | CheckEnds
    | Sleep

  function CommandOf(m: Message, table: Identities.Table): (c: SupervisorModel.Command) {
    var c := SupervisorModel.ReadMessage(m, |table.identities|);
    if c.Some? then c.value else SupervisorModel.Unknown(0)
  }

  // The callback of the main process, run now on message m.
  function Answer(st: State, m: Message): (o: SupervisorModel.Outcome)
    requires |st.w.cells| == 2
  {
    SupervisorModel.Receive(st.w.cells[0], st.w.config, st.w.table, CommandOf(m, st.w.table))
  }

  ghost predicate Possible(st: State, q: nat, a: Act)
    requires BusProtocol.Valid(st.s)
  {
    match a
    case Bus(step) =>
      && (step.Publish? || step.Subscribe? || step.Unsubscribe?)
      && (step.Publish? ==> Supervision.BuiltByServer(CommandOf(step.msg, st.w.table)))
      && SinglePoller.Allowed(q, step) && BusProtocol.Enabled(st.s, step)
    case Os(call) => (call.Fork? || call.Wait? || call.Exit?) && Supervision.Possible(st.w, call)
    case CheckBegins => st.w.place == Supervision.AtPoll && !st.checked
    case CheckAnswers => q in st.s.checks && st.s.checks[q].Copied?
    case CheckEnds => q in st.s.checks && st.s.checks[q].Answered?
    case Sleep => st.w.place == Supervision.AtPoll && st.checked && q !in st.s.checks
  }

  ghost function Apply(st: State, q: nat, a: Act): (t: State)
    requires BusProtocol.Valid(st.s) && |st.w.cells| == 2 && Possible(st, q, a)
    ensures BusProtocol.Valid(t.s) && |t.w.cells| == 2
  {
    match a
    case Bus(step) => st.(s := BusProtocol.Apply(st.s, step))
    case Os(call) => st.(w := Supervision.Apply(st.w, call))
    case CheckBegins => st.(s := BusProtocol.Apply(st.s, BusProtocol.Poll(q)), checked := true)
    case CheckAnswers =>
      var m := st.s.checks[q].msg;
      var reply := Answer(st, m).reply;
      State(BusProtocol.Apply(st.s, BusProtocol.Callback(q, reply)),
            Supervision.ReceiveStep(st.w, CommandOf(m, st.w.table)),
            st.checked, st.missed || reply == REPLY_DO_NOTHING)
    case CheckEnds => st.(s := BusProtocol.Apply(st.s, BusProtocol.Mark(q)))
    case Sleep => st.(w := Supervision.Apply(st.w, Supervision.Sleep), checked := false)
  }

  // The bus is created and the main process subscribes before the loop starts.
  ghost predicate Start(st: State, q: nat) {
    && SinglePoller.Start(st.s, q)
    && (exists table, config :: st.w == Supervision.Initial(true, table, config))
    && !st.checked && !st.missed
  }

  ghost predicate IsRun(trace: seq<State>, q: nat, acts: seq<Act>) {
    && |trace| == |acts| + 1
    && (forall k :: 0 <= k < |trace| ==> BusProtocol.Valid(trace[k].s) && |trace[k].w.cells| == 2)
    && forall k :: 0 <= k < |acts| ==> Possible(trace[k], q, acts[k]) && trace[k + 1] == Apply(trace[k], q, acts[k])
  }

  // The slot of the main process.
  function Own(st: State, q: nat): (slot: Subscriber)
    requires BusProtocol.Valid(st.s) && IsRegistered(st.s.bus.slots, q)
  {
    st.s.bus.slots[Find(st.s.bus.slots, q)]
  }

  // A message is waiting for the main process, or being processed with an effective reply to come.
  ghost predicate Pending(st: State, q: nat)
    requires BusProtocol.Valid(st.s) && IsRegistered(st.s.bus.slots, q)
  {
    !Own(st, q).consumed
    && (q in st.s.checks && st.s.checks[q].Answered? ==> st.s.checks[q].ret != REPLY_DO_NOTHING)
  }

  // The processing child was reaped in this very turn, and had not exited successfully: it crashed, or it
  // restarts itself because an update told it to.
  ghost predicate JustFailed(w: Supervision.World) {
    |w.log| > 0 && w.log[|w.log| - 1].Reaped? && w.log[|w.log| - 1].kind == Supervision.Processing && !w.log[|w.log| - 1].ok
  }

  ghost predicate Invariant(st: State, q: nat) {
    && SinglePoller.Invariant(st.s, q)
    && Supervision.Invariant(st.w) && st.w.enabled
    && (q in st.s.checks ==> st.w.place == Supervision.AtPoll && st.checked)
    && (st.checked ==> st.w.place == Supervision.AtPoll)
    // before the callback of this turn, an empty cell means a failed exit reaped in this turn
    && (st.w.place == Supervision.AtPoll && (!st.checked || (q in st.s.checks && st.s.checks[q].Copied?)) ==>
          (st.w.cells[0] == SupervisorModel.PID_NEED_TO_CREATE ==> JustFailed(st.w)))
    // what is not consumed was built by the server
    && (!Own(st, q).consumed ==> Supervision.BuiltByServer(CommandOf(st.s.bus.message, st.w.table)))
    // the bus is closed without anything pending exactly when a command was missed
    && (st.s.bus.reply == REPLY_DO_NOTHING ==> (st.missed <==> !Pending(st, q)))
    && (st.s.bus.reply != REPLY_DO_NOTHING ==> !st.missed)
  }

  lemma OsKeeps(st: State, q: nat, a: Act)
    requires Invariant(st, q) && a.Os? && Possible(st, q, a)
    ensures Invariant(Apply(st, q, a), q)
  {
    hide SinglePoller.Invariant;
    hide Find;
    SinglePollerFacts(st, q);
    Supervision.StepKeeps(st.w, a.call);
    FailureShows(st.w, a.call);
    hide Supervision.Invariant;
    hide Supervision.Apply;
  }

  // What the proofs here need of the bus invariant.
  lemma SinglePollerFacts(st: State, q: nat)
    requires SinglePoller.Invariant(st.s, q)
    ensures BusProtocol.Valid(st.s) && q != NO_PROCESS && IsRegistered(st.s.bus.slots, q)
    ensures Own(st, q).callback != NO_CALLBACK
    ensures st.s.bus.reply != REPLY_DO_NOTHING ==> Own(st, q).consumed
    ensures Own(st, q).consumed ==> q !in st.s.checks
    ensures q in st.s.checks ==> st.s.checks[q].slot == Find(st.s.bus.slots, q) && st.s.checks[q].msg == st.s.bus.message
  {
  }

  // A wait that leaves the cell empty has just reaped a processing child that did not exit successfully.
  lemma FailureShows(w: Supervision.World, step: Supervision.Step)
    requires Supervision.Invariant(w) && Supervision.Possible(w, step) && (step.Fork? || step.Wait? || step.Exit?)
    ensures var t := Supervision.Apply(w, step);
      && t.enabled == w.enabled && t.table == w.table
      && (step.Exit? ==> t.place == w.place && t.cells == w.cells && t.log == w.log)
      && (!step.Exit? ==> w.place != Supervision.AtPoll)
      && (t.place == Supervision.AtPoll && w.place != Supervision.AtPoll ==>
            (t.cells[0] == SupervisorModel.PID_NEED_TO_CREATE ==> JustFailed(t)))
  {
    if step.Wait? && step.pid > 0 {
      var e := Supervision.Reaped(w.children[step.pid].kind, step.pid, w.children[step.pid].exited.value);
      Supervision.SettleSlot(w.cells, SupervisorModel.Managed(w.enabled), step.pid,
                             SupervisorModel.ExitStatus(e.ok), Supervision.SlotOf(e.kind));
    }
  }

  lemma WorldFacts(w: Supervision.World)
    requires Supervision.Invariant(w)
    ensures |w.cells| == 2 && w.cells[0] >= -1
  {
  }

  // Acts of other processes on the bus.
  lemma BusKeeps(st: State, q: nat, a: Act)
    requires Invariant(st, q) && a.Bus? && Possible(st, q, a)
    ensures Invariant(Apply(st, q, a), q)
  {
    hide SinglePoller.Invariant;
    hide Supervision.Invariant;
    hide Supervision.BuiltByServer;
    SinglePollerFacts(st, q);
    WorldFacts(st.w);
    var t := Apply(st, q, a);
    SinglePoller.StepKeepsInvariant(st.s, q, a.step);
    SinglePollerFacts(t, q);
    OthersLeaveOwnSlot(st.s, q, a.step);
    hide Find;
  }

  lemma OthersLeaveOwnSlot(s: BusProtocol.System, q: nat, step: BusProtocol.Step)
    requires BusProtocol.Valid(s) && q != NO_PROCESS && IsRegistered(s.bus.slots, q)
    requires (step.Publish? || step.Subscribe? || step.Unsubscribe?) && SinglePoller.Allowed(q, step)
    requires BusProtocol.Enabled(s, step)
    ensures var t := BusProtocol.Apply(s, step);
      && IsRegistered(t.bus.slots, q) && t.checks == s.checks
      && var before, after := s.bus.slots[Find(s.bus.slots, q)], t.bus.slots[Find(t.bus.slots, q)];
      && (step.Publish? ==> !after.consumed && t.bus.message == step.msg && t.bus.reply == REPLY_DO_NOTHING)
      && (!step.Publish? ==> after == before && t.bus.message == s.bus.message && t.bus.reply == s.bus.reply)
  {
    FindByPid(s.bus.slots, BusProtocol.Apply(s, step).bus.slots, q);
  }

  lemma CheckBeginsKeeps(st: State, q: nat)
    requires Invariant(st, q) && Possible(st, q, CheckBegins)
    ensures Invariant(Apply(st, q, CheckBegins), q)
  {
    hide SinglePoller.Invariant;
    hide Supervision.Invariant;
    hide Supervision.BuiltByServer;
    hide Find;
    SinglePollerFacts(st, q);
    WorldFacts(st.w);
    var t := Apply(st, q, CheckBegins);
    SinglePoller.StepKeepsInvariant(st.s, q, BusProtocol.Poll(q));
    SinglePollerFacts(t, q);
    assert t.s.bus == st.s.bus;
  }

  lemma CheckEndsKeeps(st: State, q: nat)
    requires Invariant(st, q) && Possible(st, q, CheckEnds)
    ensures Invariant(Apply(st, q, CheckEnds), q)
  {
    hide SinglePoller.Invariant;
    hide Supervision.Invariant;
    hide Supervision.BuiltByServer;
    SinglePollerFacts(st, q);
    WorldFacts(st.w);
    var t := Apply(st, q, CheckEnds);
    SinglePoller.StepKeepsInvariant(st.s, q, BusProtocol.Mark(q));
    SinglePollerFacts(t, q);
    FindByPid(st.s.bus.slots, t.s.bus.slots, q);
    hide Find;
    assert Own(t, q).consumed && t.s.bus.message == st.s.bus.message;
    assert st.s.bus.reply == REPLY_DO_NOTHING && t.s.bus.reply == st.s.checks[q].ret;
  }

  // The callback answers REPLY_DO_NOTHING exactly to an update that meets an empty cell.
  lemma CheckAnswersKeeps(st: State, q: nat)
    requires Invariant(st, q) && Possible(st, q, CheckAnswers)
    ensures Invariant(Apply(st, q, CheckAnswers), q)
    ensures Apply(st, q, CheckAnswers).missed <==>
            CommandOf(st.s.checks[q].msg, st.w.table).Update? && st.w.cells[0] == SupervisorModel.PID_NEED_TO_CREATE
    ensures Apply(st, q, CheckAnswers).missed ==> JustFailed(st.w)
  {
    hide SinglePoller.Invariant;
    hide Supervision.Invariant;
    hide Supervision.BuiltByServer;
    hide SupervisorModel.Receive;
    hide CommandOf;
    hide Find;
    SinglePollerFacts(st, q);
    WorldFacts(st.w);
    var t, c := Apply(st, q, CheckAnswers), CommandOf(st.s.bus.message, st.w.table);
    var reply := Answer(st, st.s.bus.message).reply;
    SinglePoller.StepKeepsInvariant(st.s, q, BusProtocol.Callback(q, reply));
    SinglePollerFacts(t, q);
    Supervision.StepKeeps(st.w, Supervision.Receive(c));
    Supervision.EffectiveReplyExactly(st.w.cells[0], st.w.config, st.w.table, c);
    assert !st.missed;
  }

  lemma SleepKeeps(st: State, q: nat)
    requires Invariant(st, q) && Possible(st, q, Sleep)
    ensures Invariant(Apply(st, q, Sleep), q)
  {
    hide SinglePoller.Invariant;
    hide Supervision.Invariant;
    hide Supervision.BuiltByServer;
    hide Find;
    SinglePollerFacts(st, q);
    WorldFacts(st.w);
    Supervision.StepKeeps(st.w, Supervision.Sleep);
  }

  lemma StartIsFine(st: State, q: nat)
    requires Start(st, q)
    ensures Invariant(st, q)
  {
    hide Find;
    SinglePoller.ExactlyOnce(st.s, q, []);
    var table, config :| st.w == Supervision.Initial(true, table, config);
    Supervision.StartIsFine(true, table, config);
  }

  lemma ActKeeps(st: State, q: nat, a: Act)
    requires Invariant(st, q) && Possible(st, q, a)
    ensures Invariant(Apply(st, q, a), q)
  {
    hide Invariant;
    match a
    case Bus(_) => BusKeeps(st, q, a);
    case Os(_) => OsKeeps(st, q, a);
    case CheckBegins => CheckBeginsKeeps(st, q);
    case CheckAnswers => CheckAnswersKeeps(st, q);
    case CheckEnds => CheckEndsKeeps(st, q);
    case Sleep => SleepKeeps(st, q);
  }

  lemma {:induction false} EveryRunKeepsInvariant(trace: seq<State>, q: nat, acts: seq<Act>)
    requires IsRun(trace, q, acts) && Invariant(trace[0], q)
    ensures forall k :: 0 <= k <= |acts| ==> Invariant(trace[k], q)
  {
    hide Invariant;
    hide Possible;
    if acts != [] {
      var n := |acts| - 1;
      EveryRunKeepsInvariant(trace[..n + 1], q, acts[..n]);
      assert forall k :: 0 <= k <= n ==> trace[..n + 1][k] == trace[k];
      ActKeeps(trace[n], q, acts[n]);
    }
  }

  // ----- when dynamic configuration stops working -----

  // The only way to miss a command: the processing child exited without success, the main process reaped it,
  // and an update was waiting on the bus before the child could be created again.
  lemma MissedExactlyAfterFailure(trace: seq<State>, q: nat, acts: seq<Act>, k: nat)
    requires IsRun(trace, q, acts) && Start(trace[0], q) && k < |acts| && !trace[k].missed
    ensures trace[k + 1].missed <==>
              && acts[k] == CheckAnswers
              && CommandOf(trace[k].s.checks[q].msg, trace[k].w.table).Update?
              && trace[k].w.cells[0] == SupervisorModel.PID_NEED_TO_CREATE
    ensures trace[k + 1].missed ==> JustFailed(trace[k].w)
  {
    StartIsFine(trace[0], q);
    EveryRunKeepsInvariant(trace, q, acts);
    hide Invariant;
    hide JustFailed;
    hide Start;
    if acts[k] == CheckAnswers {
      CheckAnswersKeeps(trace[k], q);
    }
  }

  // Once that has happened the bus never accepts another command, whatever anybody does.
  lemma {:induction false} MissedForever(trace: seq<State>, q: nat, acts: seq<Act>, m: Message)
    requires IsRun(trace, q, acts) && Invariant(trace[0], q) && trace[0].missed
    ensures trace[|acts|].missed && !Accepts(trace[|acts|].s.bus, m)
  {
    EveryRunKeepsInvariant(trace, q, acts);
    StaysMissed(trace, q, acts);
    ClosedIfMissed(trace[|acts|], q);
  }

  lemma {:induction false} StaysMissed(trace: seq<State>, q: nat, acts: seq<Act>)
    requires IsRun(trace, q, acts) && trace[0].missed
    ensures trace[|acts|].missed
  {
    if acts != [] {
      StaysMissed(trace[..|acts|], q, acts[..|acts| - 1]);
    }
  }

  lemma ClosedIfMissed(st: State, q: nat)
    requires Invariant(st, q) && st.missed
    ensures st.s.bus.reply == REPLY_DO_NOTHING
  {
  }

  // As long as it has not happened, a closed bus is reopened by the next check: the waiting command is
  // carried out and answered, unless it is an update that meets an empty cell.
  lemma NextCheckReopens(st: State, q: nat) returns (t: State)
    requires Invariant(st, q) && !st.missed && st.s.bus.reply == REPLY_DO_NOTHING
    requires st.w.place == Supervision.AtPoll && !st.checked
    ensures Possible(st, q, CheckBegins)
    ensures var st1 := Apply(st, q, CheckBegins);
      Possible(st1, q, CheckAnswers) && Possible(Apply(st1, q, CheckAnswers), q, CheckEnds)
      && t == Apply(Apply(st1, q, CheckAnswers), q, CheckEnds)
    ensures var o := Answer(st, st.s.bus.message);
      t.w.cells == st.w.cells[0 := o.cell] && t.w.config == o.config && t.s.bus.reply == o.reply
    ensures t.s.bus.reply != REPLY_DO_NOTHING <==>
            !(CommandOf(st.s.bus.message, st.w.table).Update? && st.w.cells[0] == SupervisorModel.PID_NEED_TO_CREATE)
  {
    hide SinglePoller.Invariant;
    hide Supervision.Invariant;
    hide Supervision.BuiltByServer;
    hide SupervisorModel.Receive;
    hide CommandOf;
    hide Find;
    SinglePollerFacts(st, q);
    WorldFacts(st.w);
    Supervision.EffectiveReplyExactly(st.w.cells[0], st.w.config, st.w.table, CommandOf(st.s.bus.message, st.w.table));
    var st1 := Apply(st, q, CheckBegins);
    var st2 := Apply(st1, q, CheckAnswers);
    t := Apply(st2, q, CheckEnds);
  }

  // It does happen: whenever the processing child exits without success while an update is waiting, and the
  // main process is about to wait for its children, the update is missed in that turn.
  lemma UpdateAfterFailureIsMissed(st: State, q: nat) returns (acts: seq<Act>, trace: seq<State>)
    requires Invariant(st, q) && !st.missed && st.s.bus.reply == REPLY_DO_NOTHING
    requires CommandOf(st.s.bus.message, st.w.table).Update?
    requires st.w.place == Supervision.AtWait && st.w.cells[0] > 0 && st.w.children[st.w.cells[0]].exited == None
    ensures IsRun(trace, q, acts) && trace[0] == st && trace[|acts|].missed
    ensures acts == [Os(Supervision.Exit(st.w.cells[0], false)), Os(Supervision.Wait(st.w.cells[0])), CheckBegins, CheckAnswers]
  {
    hide SinglePoller.Invariant;
    hide Supervision.Invariant;
    hide SupervisorModel.Receive;
    hide CommandOf;
    hide Find;
    SinglePollerFacts(st, q);
    WorldFacts(st.w);
    var p := st.w.cells[0];
    var st1 := ExitAct(st, q, p);
    var st2 := FailureReaped(st1, q, p);
    var st3 := Apply(st2, q, CheckBegins);
    CheckBeginsKeeps(st2, q);
    var st4 := Apply(st3, q, CheckAnswers);
    CheckAnswersKeeps(st3, q);
    acts := [Os(Supervision.Exit(p, false)), Os(Supervision.Wait(p)), CheckBegins, CheckAnswers];
    trace := [st, st1, st2, st3, st4];
  }

  // The child in the cell exits without success.
  lemma ExitAct(st: State, q: nat, p: int) returns (t: State)
    requires Invariant(st, q) && st.w.cells[0] == p > 0 && st.w.children[p].exited == None
    ensures Possible(st, q, Os(Supervision.Exit(p, false))) && t == Apply(st, q, Os(Supervision.Exit(p, false)))
    ensures Invariant(t, q) && t.s == st.s && t.checked == st.checked && t.missed == st.missed && t.w.table == st.w.table
    ensures t.w.place == st.w.place && t.w.cells == st.w.cells
    ensures p in t.w.children && t.w.children[p].exited == Some(false)
  {
    hide SinglePoller.Invariant;
    hide Find;
    SinglePollerFacts(st, q);
    t := Apply(st, q, Os(Supervision.Exit(p, false)));
    OsKeeps(st, q, Os(Supervision.Exit(p, false)));
  }

  lemma FailureReaped(st: State, q: nat, p: int) returns (t: State)
    requires Invariant(st, q) && st.w.place == Supervision.AtWait && st.w.cells[0] == p > 0
    requires p in st.w.children && st.w.children[p].exited == Some(false)
    ensures Possible(st, q, Os(Supervision.Wait(p))) && t == Apply(st, q, Os(Supervision.Wait(p)))
    ensures Invariant(t, q) && t.s == st.s && t.checked == st.checked && t.missed == st.missed && t.w.table == st.w.table
    ensures t.w.place == Supervision.AtPoll && t.w.cells[0] == SupervisorModel.PID_NEED_TO_CREATE
  {
    hide SinglePoller.Invariant;
    hide Find;
    SinglePollerFacts(st, q);
    var a := Os(Supervision.Wait(p));
    t := Apply(st, q, a);
    OsKeeps(st, q, a);
    Supervision.SettleSlot(st.w.cells, SupervisorModel.Managed(st.w.enabled), p, SupervisorModel.ExitStatus(false), 0);
  }

  // ----- two updates in quick succession -----

  lemma JoinRuns(a: seq<State>, q: nat, acts: seq<Act>, b: seq<State>, more: seq<Act>)
    requires IsRun(a, q, acts) && IsRun(b, q, more) && a[|acts|] == b[0]
    ensures IsRun(a + b[1..], q, acts + more)
    ensures (a + b[1..])[0] == a[0] && (a + b[1..])[|acts + more|] == b[|more|]
    ensures forall k :: 0 <= k < |acts + more| ==> (a + b[1..])[k] == if k < |acts| then a[k] else b[k - |acts|]
  {
    hide Possible;
    hide Apply;
    var trace, all := a + b[1..], acts + more;
    forall k | 0 <= k < |all|
      ensures Possible(trace[k], q, all[k]) && trace[k + 1] == Apply(trace[k], q, all[k])
    {
      if k < |acts| {
        assert Possible(a[k], q, acts[k]) && a[k + 1] == Apply(a[k], q, acts[k]);
      } else {
        assert Possible(b[k - |acts|], q, more[k - |acts|]);
      }
    }
  }

  // The main process creates a child, or passes by, in a world in which pid is free.
  lemma ForkAct(st: State, q: nat, pid: int) returns (t: State)
    requires Invariant(st, q) && st.w.place in {Supervision.AtFork, Supervision.AtForkControl}
    requires pid > 0 && pid !in st.w.children
    ensures Possible(st, q, Os(Supervision.Fork(pid))) && t == Apply(st, q, Os(Supervision.Fork(pid)))
    ensures Invariant(t, q) && t.s == st.s && t.checked == st.checked && t.missed == st.missed
    ensures t.w.place == (if st.w.place == Supervision.AtFork then Supervision.AtForkControl else Supervision.AtWait)
    ensures var slot := if st.w.place == Supervision.AtFork then 0 else 1;
      if st.w.cells[slot] == SupervisorModel.PID_NEED_TO_CREATE then
        && t.w.cells == st.w.cells[slot := pid]
        && t.w.children == st.w.children[pid := Supervision.Child(Supervision.KindOf(slot), None)]
      else t.w.cells == st.w.cells && t.w.children == st.w.children
    ensures t.w.table == st.w.table && t.w.signals == st.w.signals && t.w.enabled
  {
    hide SinglePoller.Invariant;
    hide Find;
    SinglePollerFacts(st, q);
    t := Apply(st, q, Os(Supervision.Fork(pid)));
    OsKeeps(st, q, Os(Supervision.Fork(pid)));
  }

  lemma PublishAct(st: State, q: nat, m: Message) returns (t: State)
    requires Invariant(st, q) && st.s.bus.reply != REPLY_DO_NOTHING && |m| <= MAX_MESSAGE_SIZE
    requires Supervision.BuiltByServer(CommandOf(m, st.w.table))
    ensures Possible(st, q, Act.Bus(BusProtocol.Publish(m))) && t == Apply(st, q, Act.Bus(BusProtocol.Publish(m)))
    ensures Invariant(t, q) && t.w == st.w && t.checked == st.checked && !t.missed
    ensures t.s.bus.message == m && t.s.bus.reply == REPLY_DO_NOTHING && t.s.checks == st.s.checks
  {
    hide SinglePoller.Invariant;
    hide Supervision.Invariant;
    hide Supervision.BuiltByServer;
    hide CommandOf;
    hide Find;
    SinglePollerFacts(st, q);
    WorldFacts(st.w);
    t := Apply(st, q, Act.Bus(BusProtocol.Publish(m)));
    BusKeeps(st, q, Act.Bus(BusProtocol.Publish(m)));
  }

  // A whole check, in which an update tells the running child to restart itself.
  lemma CheckRestarts(st: State, q: nat) returns (acts: seq<Act>, trace: seq<State>)
    requires Invariant(st, q) && !st.missed && st.s.bus.reply == REPLY_DO_NOTHING
    requires st.w.place == Supervision.AtPoll && !st.checked
    requires CommandOf(st.s.bus.message, st.w.table).Update? && st.w.cells[0] > 0
    requires Supervision.BuiltByServer(CommandOf(st.s.bus.message, st.w.table))
    ensures acts == [CheckBegins, CheckAnswers, CheckEnds] && IsRun(trace, q, acts) && trace[0] == st
    ensures var t := trace[3];
      && Invariant(t, q) && t.s.bus.reply != REPLY_DO_NOTHING && !t.missed && t.checked && q !in t.s.checks
      && t.w.cells == st.w.cells && t.w.children == st.w.children && t.w.table == st.w.table
      && t.w.place == Supervision.AtPoll && SupervisorModel.SigRes(st.w.cells[0]) in t.w.signals
  {
    hide SinglePoller.Invariant;
    hide Supervision.Invariant;
    hide Supervision.BuiltByServer;
    hide SupervisorModel.Receive;
    hide CommandOf;
    hide Find;
    SinglePollerFacts(st, q);
    WorldFacts(st.w);
    var t := NextCheckReopens(st, q);
    var st1 := Apply(st, q, CheckBegins);
    CheckBeginsKeeps(st, q);
    var st2 := Apply(st1, q, CheckAnswers);
    CheckAnswersKeeps(st1, q);
    CheckEndsKeeps(st2, q);
    RestartSignalled(st.w, CommandOf(st.s.bus.message, st.w.table));
    acts, trace := [CheckBegins, CheckAnswers, CheckEnds], [st, st1, st2, t];
  }

  lemma RestartSignalled(w: Supervision.World, c: SupervisorModel.Command)
    requires |w.cells| == 2 && c.Update? && Supervision.BuiltByServer(c) && w.cells[0] > 0
    ensures var t := Supervision.ReceiveStep(w, c);
      && SupervisorModel.SigRes(w.cells[0]) in t.signals && t.cells == w.cells
      && t.children == w.children && t.place == w.place && t.table == w.table
  {
    assert SupervisorModel.NeedsRestart(c.params[0].ident);
    var t := Supervision.ReceiveStep(w, c);
    assert t.signals[|w.signals|] == SupervisorModel.SigRes(w.cells[0]);
  }

  // From the start: both children are created and the first update is published.
  lemma FirstUpdate(st: State, q: nat, m: Message, p0: int, p1: int) returns (acts: seq<Act>, trace: seq<State>)
    requires Start(st, q) && 0 < p0 && 0 < p1 && p0 != p1 && |m| <= MAX_MESSAGE_SIZE
    requires Supervision.BuiltByServer(CommandOf(m, st.w.table))
    ensures acts == [Os(Supervision.Fork(p0)), Os(Supervision.Fork(p1)), Os(Supervision.Wait(0)), Act.Bus(BusProtocol.Publish(m))]
    ensures IsRun(trace, q, acts) && trace[0] == st
    ensures var t := trace[4];
      && Invariant(t, q) && t.s.bus.message == m && t.s.bus.reply == REPLY_DO_NOTHING && !t.missed && !t.checked
      && t.w.cells == [p0, p1] && t.w.table == st.w.table && t.w.place == Supervision.AtPoll
      && t.w.children == map[p0 := Supervision.Child(Supervision.Processing, None), p1 := Supervision.Child(Supervision.Control, None)]
  {
    hide SinglePoller.Invariant;
    hide Supervision.BuiltByServer;
    hide CommandOf;
    hide Find;
    StartIsFine(st, q);
    assert st.s.bus.reply != REPLY_DO_NOTHING;
    var st1 := ForkAct(st, q, p0);
    var st2 := ForkAct(st1, q, p1);
    var st3 := WaitForNobody(st2, q);
    var st4 := PublishAct(st3, q, m);
    acts := [Os(Supervision.Fork(p0)), Os(Supervision.Fork(p1)), Os(Supervision.Wait(0)), Act.Bus(BusProtocol.Publish(m))];
    trace := [st, st1, st2, st3, st4];
  }

  lemma WaitForNobody(st: State, q: nat) returns (t: State)
    requires Invariant(st, q) && st.w.place == Supervision.AtWait && forall p :: !Supervision.Terminated(st.w, p)
    ensures Possible(st, q, Os(Supervision.Wait(0))) && t == Apply(st, q, Os(Supervision.Wait(0)))
    ensures Invariant(t, q) && t.s == st.s && t.checked == st.checked && t.missed == st.missed
    ensures t.w == st.w.(place := Supervision.AtPoll)
  {
    hide SinglePoller.Invariant;
    hide Supervision.Invariant;
    hide Find;
    SinglePollerFacts(st, q);
    WorldFacts(st.w);
    Supervision.WaitAnswers(st.w);
    t := Apply(st, q, Os(Supervision.Wait(0)));
    OsKeeps(st, q, Os(Supervision.Wait(0)));
  }

  // The second update is published before the first one's restart shows, and the next turn begins.
  lemma SecondUpdate(st: State, q: nat, m: Message, free: int) returns (acts: seq<Act>, trace: seq<State>)
    requires Invariant(st, q) && st.s.bus.reply != REPLY_DO_NOTHING && |m| <= MAX_MESSAGE_SIZE && st.checked && q !in st.s.checks
    requires Supervision.BuiltByServer(CommandOf(m, st.w.table)) && st.w.place == Supervision.AtPoll
    requires free > 0 && free !in st.w.children && st.w.cells[0] > 0 && st.w.cells[1] > 0
    ensures acts == [Act.Bus(BusProtocol.Publish(m)), Sleep, Os(Supervision.Fork(free)), Os(Supervision.Fork(free))]
    ensures IsRun(trace, q, acts) && trace[0] == st
    ensures var t := trace[4];
      && Invariant(t, q) && t.s.bus.message == m && t.s.bus.reply == REPLY_DO_NOTHING && !t.missed
      && t.w.cells == st.w.cells && t.w.children == st.w.children && t.w.table == st.w.table
      && t.w.place == Supervision.AtWait && t.w.signals == st.w.signals
  {
    hide SinglePoller.Invariant;
    hide Supervision.Invariant;
    hide Supervision.BuiltByServer;
    hide CommandOf;
    hide Find;
    SinglePollerFacts(st, q);
    WorldFacts(st.w);
    var st1 := PublishAct(st, q, m);
    var st2 := Apply(st1, q, Sleep);
    SleepKeeps(st1, q);
    var st3 := ForkAct(st2, q, free);
    var st4 := ForkAct(st3, q, free);
    acts := [Act.Bus(BusProtocol.Publish(m)), Sleep, Os(Supervision.Fork(free)), Os(Supervision.Fork(free))];
    trace := [st, st1, st2, st3, st4];
  }

  // No crash is needed. From every start, any two updates lead to a run that misses the second one: the only
  // exit in it is that of the processing child, which the first update told to restart itself.
  lemma TwoUpdatesAreEnough(st: State, q: nat, m1: Message, m2: Message) returns (acts: seq<Act>, trace: seq<State>)
    requires Start(st, q) && |m1| <= MAX_MESSAGE_SIZE && |m2| <= MAX_MESSAGE_SIZE
    requires CommandOf(m1, st.w.table).Update? && Supervision.BuiltByServer(CommandOf(m1, st.w.table))
    requires CommandOf(m2, st.w.table).Update? && Supervision.BuiltByServer(CommandOf(m2, st.w.table))
    ensures IsRun(trace, q, acts) && trace[0] == st && trace[|acts|].missed
    ensures forall k :: 0 <= k < |acts| && acts[k].Os? && acts[k].call.Exit? ==>
              SupervisorModel.SigRes(acts[k].call.pid) in trace[k].w.signals
    ensures forall k :: 0 <= k < |acts| && acts[k].Bus? ==> k == 3 || k == 7
    ensures |acts| == 15 && acts[3] == Act.Bus(BusProtocol.Publish(m1)) && acts[7] == Act.Bus(BusProtocol.Publish(m2))
  {
    hide Invariant;
    hide Possible;
    hide Apply;
    hide Start;
    hide Supervision.BuiltByServer;
    hide CommandOf;
    var a1, t1 := FirstUpdate(st, q, m1, 1, 2);
    var a2, t2 := CheckRestarts(t1[4], q);
    var a3, t3 := SecondUpdate(t2[3], q, m2, 3);
    var a4, t4 := UpdateAfterFailureIsMissed(t3[4], q);
    JoinRuns(t1, q, a1, t2, a2);
    var b := t1 + t2[1..];
    JoinRuns(b, q, a1 + a2, t3, a3);
    var c := b + t3[1..];
    JoinRuns(c, q, a1 + a2 + a3, t4, a4);
    acts, trace := a1 + a2 + a3 + a4, c + t4[1..];
  }
}
