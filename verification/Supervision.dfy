// Runs of the supervision loop: the main process, its children, and the commands it receives.

module Supervision {
  import opened Common
  import opened Identities
  import opened SupervisorModel

  datatype Kind = Processing | Control

  // A child that has terminated stays in the process table until it is reaped.
  datatype Child = Child(kind: Kind, exited: Option<bool>)

  // Where the main process stands in its loop.
  datatype Place = AtFork | AtForkControl | AtWait | AtPoll | Broken | ForkFailed | WaitFailed

  datatype Event = Forked(kind: Kind, pid: int) | Reaped(kind: Kind, pid: int, ok: bool)

  datatype World = World(
    enabled: bool, table: Table,
    cells: seq<int>, config: Config, place: Place,
    children: map<int, Child>, log: seq<Event>, signals: seq<Signal>)

  datatype Step =
    | Fork(pid: int)             // what fork returns, if the place asks for a child
    | Wait(pid: int)             // what waitpid returns
    | Receive(command: Command)  // dynamic_conf_check fires the callback
    | Sleep
    | Exit(pid: int, ok: bool)   // a child terminates, whenever it does

  function SlotOf(kind: Kind): (slot: nat) {
    if kind == Processing then 0 else 1
  }

  function KindOf(slot: nat): (kind: Kind) {
    if slot == 0 then Processing else Control
  }

  function Initial(enabled: bool, table: Table, config: Config): (w: World) {
    World(enabled, table, [PID_NEED_TO_CREATE, PID_NEED_TO_CREATE], config, AtFork, map[], [], [])
  }

  predicate Terminated(w: World, pid: int) {
    pid in w.children && w.children[pid].exited.Some?
  }

  // What the operating system may answer, and which step the program counter allows.
  ghost predicate Possible(w: World, step: Step) {
    match step
    case Fork(pid) => w.place in {AtFork, AtForkControl} && pid != 0 && pid !in w.children
    case Wait(pid) =>
      && w.place == AtWait
      && (pid == -1 <==> w.children == map[])
      && (pid == 0 ==> forall p :: !Terminated(w, p))
      && (pid > 0 ==> Terminated(w, pid))
      && pid >= -1
    case Receive(_) => w.place == AtPoll && w.enabled
    case Sleep => w.place == AtPoll
    case Exit(pid, _) => pid in w.children && w.children[pid].exited == None
  }

  function ForkStep(w: World, slot: nat, pid: int): (t: World)
    requires |w.cells| == 2 && slot < 2
  {
    var next := if slot == 0 then AtForkControl else AtWait;
    if !NeedsFork(w.cells, slot, w.enabled) then w.(place := next)
    else if pid < 0 then w.(place := ForkFailed)
    else w.(cells := AfterFork(w.cells, slot, w.enabled, pid), place := next,
            children := w.children[pid := Child(KindOf(slot), None)], log := w.log + [Forked(KindOf(slot), pid)])
  }

  function WaitStep(w: World, pid: int): (t: World)
    requires |w.cells| == 2 && (pid > 0 ==> Terminated(w, pid))
  {
    if pid < 0 then w.(place := WaitFailed)
    else if pid == 0 then w.(place := AtPoll)
    else
      var child := w.children[pid];
      var ok := child.exited.value;
      var settled := Settle(w.cells, Managed(w.enabled), pid, ExitStatus(ok));
      w.(cells := settled, children := w.children - {pid}, log := w.log + [Reaped(child.kind, pid, ok)],
         place := if Stopped(settled, Managed(w.enabled)) == Managed(w.enabled) then Broken else AtPoll)
  }

  function ReceiveStep(w: World, c: Command): (t: World)
    requires |w.cells| == 2
  {
    var o := SupervisorModel.Receive(w.cells[0], w.config, w.table, c);
    w.(cells := w.cells[0 := o.cell], config := o.config, signals := w.signals + [o.signal])
  }

  ghost function Apply(w: World, step: Step): (t: World)
    requires |w.cells| == 2 && Possible(w, step)
    ensures |t.cells| == 2
  {
    match step
    case Fork(pid) => ForkStep(w, if w.place == AtFork then 0 else 1, pid)
    case Wait(pid) => WaitStep(w, pid)
    case Receive(c) => ReceiveStep(w, c)
    case Sleep => w.(place := AtFork)
    case Exit(pid, ok) => w.(children := w.children[pid := Child(w.children[pid].kind, Some(ok))])
  }

  // A run: every step is possible where it is taken.
  ghost predicate IsRun(trace: seq<World>, steps: seq<Step>) {
    && |trace| == |steps| + 1
    && (forall k :: 0 <= k < |trace| ==> |trace[k].cells| == 2)
    && forall k :: 0 <= k < |steps| ==> Possible(trace[k], steps[k]) && trace[k + 1] == Apply(trace[k], steps[k])
  }

  // ----- the invariant -----

  // The last thing that happened to the child of a kind.
  function Last(log: seq<Event>, kind: Kind): (r: Option<Event>) {
    if log == [] then None
    else if log[|log| - 1].kind == kind then Some(log[|log| - 1])
    else Last(log[..|log| - 1], kind)
  }

  // What the cell of a slot says about the child of its kind.
  ghost predicate SlotOk(w: World, slot: nat)
    requires |w.cells| == 2 && slot < 2
  {
    var cell, kind := w.cells[slot], KindOf(slot);
    && cell >= -1
    && (cell > 0 ==> cell in w.children && w.children[cell].kind == kind && Last(w.log, kind) == Some(Forked(kind, cell)))
    && (cell <= 0 ==> forall p :: p in w.children ==> w.children[p].kind != kind)
    && (cell == PID_NEED_TO_STOP ==> Last(w.log, kind).Some? && Last(w.log, kind).value.Reaped? && Last(w.log, kind).value.ok)
  }

  ghost predicate Invariant(w: World) {
    && |w.cells| == 2
    && SlotOk(w, 0) && SlotOk(w, 1)
    && (forall p :: p in w.children ==> p > 0 && w.cells[SlotOf(w.children[p].kind)] == p)
    && (!w.enabled ==> w.cells[1] == PID_NEED_TO_CREATE)
    && (w.place in {AtForkControl, AtWait} ==> w.cells[0] != PID_NEED_TO_CREATE)
    && (w.place == AtWait && w.enabled ==> w.cells[1] != PID_NEED_TO_CREATE)
    && (Stopped(w.cells, Managed(w.enabled)) == Managed(w.enabled) <==> w.place == Broken)
    && w.place != WaitFailed
  }

  lemma LastAppend(log: seq<Event>, e: Event, kind: Kind)
    ensures Last(log + [e], kind) == if e.kind == kind then Some(e) else Last(log, kind)
  {
    assert (log + [e])[..|log|] == log;
  }

  lemma ForkKeeps(w: World, pid: int)
    requires Invariant(w) && Possible(w, Step.Fork(pid))
    ensures Invariant(Apply(w, Step.Fork(pid)))
  {
    hide Invariant;
    if w.place == AtFork {
      ForkProcessing(w, pid);
    } else {
      ForkControl(w, pid);
    }
  }

  lemma ForkProcessing(w: World, pid: int)
    requires Invariant(w) && Possible(w, Step.Fork(pid)) && w.place == AtFork
    ensures Invariant(Apply(w, Step.Fork(pid)))
  {
    LastAppend(w.log, Forked(Processing, pid), Processing);
    LastAppend(w.log, Forked(Processing, pid), Control);
  }

  lemma ForkControl(w: World, pid: int)
    requires Invariant(w) && Possible(w, Step.Fork(pid)) && w.place == AtForkControl
    ensures Invariant(Apply(w, Step.Fork(pid)))
  {
    LastAppend(w.log, Forked(Control, pid), Processing);
    LastAppend(w.log, Forked(Control, pid), Control);
  }

  lemma WaitKeeps(w: World, pid: int)
    requires Invariant(w) && Possible(w, Step.Wait(pid))
    ensures Invariant(Apply(w, Step.Wait(pid)))
  {
    if pid > 0 {
      var e := Event.Reaped(w.children[pid].kind, pid, w.children[pid].exited.value);
      LastAppend(w.log, e, Processing);
      LastAppend(w.log, e, Control);
      SettleSlot(w.cells, Managed(w.enabled), pid, ExitStatus(e.ok), SlotOf(e.kind));
    }
  }

  // The cell that is settled is the one of the child.
  lemma SettleSlot(cells: seq<int>, n: nat, pid: int, status: int, slot: nat)
    requires |cells| == 2 && slot < n <= 2 && cells[slot] == pid && cells[1 - slot] != pid
    ensures Settle(cells, n, pid, status) == cells[slot := status]
  {
    if slot == 1 {
      assert cells[1..][0] == cells[1];
    }
  }

  lemma ReceiveKeeps(w: World, c: Command)
    requires Invariant(w) && Possible(w, Step.Receive(c))
    ensures Invariant(Apply(w, Step.Receive(c)))
  {
  }

  lemma OtherKeeps(w: World, step: Step)
    requires Invariant(w) && Possible(w, step) && (step.Exit? || step.Sleep?)
    ensures Invariant(Apply(w, step))
  {
  }

  lemma StepKeeps(w: World, step: Step)
    requires Invariant(w) && Possible(w, step)
    ensures Invariant(Apply(w, step))
  {
    hide Invariant;
    match step
    case Fork(pid) => ForkKeeps(w, pid);
    case Wait(pid) => WaitKeeps(w, pid);
    case Receive(c) => ReceiveKeeps(w, c);
    case _ => OtherKeeps(w, step);
  }

  // ----- what a run guarantees -----

  // A cell holds a positive pid exactly when the child of its kind is alive or unreaped, and it is that pid.
  ghost predicate CellsTrackChildren(w: World)
    requires |w.cells| == 2
  {
    forall p, kind :: (p > 0 && w.cells[SlotOf(kind)] == p) <==> (p in w.children && w.children[p].kind == kind)
  }

  ghost predicate LastExitedWell(w: World, kind: Kind) {
    Last(w.log, kind).Some? && Last(w.log, kind).value.Reaped? && Last(w.log, kind).value.ok
  }

  ghost predicate Safe(w: World)
    requires |w.cells| == 2
  {
    && CellsTrackChildren(w)
    // at most one child of each kind
    && (forall p, q :: p in w.children && q in w.children && w.children[p].kind == w.children[q].kind ==> p == q)
    // there is always a child to wait for
    && (w.place == AtWait ==> w.children != map[]) && w.place != WaitFailed
    // the loop breaks only when the last incarnation of every managed child exited successfully
    && (w.place == Broken ==> LastExitedWell(w, Processing) && (w.enabled ==> LastExitedWell(w, Control)))
  }

  lemma InvariantIsSafe(w: World)
    requires Invariant(w)
    ensures Safe(w)
  {
    forall p, kind
      ensures (p > 0 && w.cells[SlotOf(kind)] == p) <==> (p in w.children && w.children[p].kind == kind)
    {
      assert SlotOk(w, SlotOf(kind)) && KindOf(SlotOf(kind)) == kind;
    }
    if w.place == Broken {
      assert w.cells[0] == PID_NEED_TO_STOP;
      assert w.enabled ==> w.cells[1] == PID_NEED_TO_STOP;
    }
    if w.place == AtWait {
      assert SlotOk(w, 0) && SlotOk(w, 1);
      assert w.cells[if w.cells[0] > 0 then 0 else 1] in w.children;
    }
  }

  // Every world of every run is safe.
  lemma {:induction false} EveryRunIsSafe(trace: seq<World>, steps: seq<Step>, enabled: bool, table: Table, config: Config)
    requires IsRun(trace, steps) && trace[0] == Initial(enabled, table, config)
    ensures Invariant(trace[|steps|]) && Safe(trace[|steps|])
  {
    hide Invariant;
    hide Safe;
    hide Possible;
    if steps == [] {
      StartIsFine(enabled, table, config);
    } else {
      var n := |steps| - 1;
      EveryRunIsSafe(trace[..n + 1], steps[..n], enabled, table, config);
      StepKeeps(trace[n], steps[n]);
    }
    InvariantIsSafe(trace[|steps|]);
  }

  lemma StartIsFine(enabled: bool, table: Table, config: Config)
    ensures Invariant(Initial(enabled, table, config))
  {
  }

  // A command never forgets a child nor signals a process that is not the current processing child:
  // START leaves a live pid alone, and the only pid ever signalled is that of a child not yet reaped.
  lemma CommandsAreHarmless(w: World, c: Command)
    requires Invariant(w) && Possible(w, Step.Receive(c))
    ensures var t := Apply(w, Step.Receive(c));
      && t.children == w.children
      && (w.cells[0] > 0 ==> t.cells == w.cells)
      && t.signals[..|w.signals|] == w.signals
      && (match t.signals[|w.signals|]
          case NoSignal => true
          case SigInt(p) => p in w.children && w.children[p].kind == Processing
          case SigRes(p) => p in w.children && w.children[p].kind == Processing)
  {
    assert SlotOk(w, 0);
  }

  // ----- the commands the control process can build -----

  ghost predicate BuiltByServer(c: Command) {
    match c
    case Start => true
    case Stop => true
    case Update(ps) => ps != [] && forall k :: 0 <= k < |ps| ==> ps[k].ident != 0
    case Unknown(_) => false
  }

  // Such a command gets an effective reply unless it is an update that meets an empty cell.
  lemma EffectiveReplyExactly(cell: int, config: Config, table: Table, c: Command)
    requires BuiltByServer(c)
    ensures SupervisorModel.Receive(cell, config, table, c).reply != REPLY_DO_NOTHING <==> !(c.Update? && cell == PID_NEED_TO_CREATE)
  {
    if c.Update? {
      assert NeedsRestart(c.params[0].ident);
    }
  }

  // ----- what the commands do -----

  ghost predicate IsProcessing(w: World, p: int) {
    p in w.children && w.children[p].kind == Processing
  }

  // What the callback answers in a world.
  function ReplyTo(w: World, c: Command): (reply: int)
    requires |w.cells| == 2
  {
    SupervisorModel.Receive(w.cells[0], w.config, w.table, c).reply
  }

  // With a processing child p: START is refused, STOP interrupts p and nobody else, an update that needs it tells p to
  // restart. The cells do not change.
  lemma CommandsToChild(w: World, p: int, c: Command)
    requires Invariant(w) && Possible(w, Step.Receive(c)) && IsProcessing(w, p)
    ensures var t, told := Apply(w, Step.Receive(c)), c.Update? && exists k :: 0 <= k < |c.params| && c.params[k].ident != 0;
      && t == w.(config := t.config, signals := t.signals) && (!c.Update? ==> t.config == w.config)
      && t.signals == w.signals + [if c == Stop then SigInt(p) else if told then SigRes(p) else NoSignal]
      && ReplyTo(w, c) == if c == Start then 1 else if c == Stop || told then 0 else 1000
  {
    assert w.cells[0] == p && SlotOk(w, 0);
    assert w.cells[0 := w.cells[0]] == w.cells;
    if c.Update? {
      assert AnyNeedsRestart(c.params) <==> exists k :: 0 <= k < |c.params| && c.params[k].ident != 0;
    }
  }

  // Without one nobody is signalled: START asks for a child, STOP is refused, and an update is taken over, with an
  // effective reply if and only if no child is asked for.
  lemma CommandsWithoutChild(w: World, c: Command)
    requires Invariant(w) && Possible(w, Step.Receive(c)) && forall p :: !IsProcessing(w, p)
    ensures var t := Apply(w, Step.Receive(c));
      && t == w.(cells := t.cells, config := t.config, signals := w.signals + [NoSignal])
      && t.cells == (if c == Start then [0, w.cells[1]] else w.cells) && (!c.Update? ==> t.config == w.config)
      && ReplyTo(w, c) == match c
           case Start => 0
           case Stop => 1
           case Update(_) => if w.cells[0] == 0 then 1000 else 0
           case Unknown(_) => 1000
  {
    assert SlotOk(w, 0);
    assert w.cells[0] > 0 ==> IsProcessing(w, w.cells[0]);
    assert w.cells[0 := w.cells[0]] == w.cells && w.cells[0 := 0] == [0, w.cells[1]];
  }

  // START starts a child: in the next turn, as soon as fork succeeds, there is one, and its pid is in the cell.
  lemma StartCreatesChild(w: World, p: int)
    requires Invariant(w) && Possible(w, Step.Receive(Start)) && forall x :: !IsProcessing(w, x)
    requires p > 0 && p !in w.children
    ensures var w1 := Apply(w, Step.Receive(Start)); var w2 := Apply(w1, Sleep);
      && Possible(w1, Sleep) && Possible(w2, Step.Fork(p))
      && var w3 := Apply(w2, Step.Fork(p));
      && w3.children == w.children[p := Child(Processing, None)] && w3.cells == [p, w.cells[1]]
      && w3.log == w.log + [Forked(Processing, p)] && w3.place == AtForkControl
  {
    CommandsWithoutChild(w, Start);
  }

  // A child that is reaped is gone; its cell says whether it exited successfully, the other cell stays as it is, and
  // the loop ends exactly if all managed children have exited successfully.
  lemma ReapedSettles(w: World, pid: int)
    requires Invariant(w) && Possible(w, Step.Wait(pid)) && pid > 0
    ensures var t, child, slot := Apply(w, Step.Wait(pid)), w.children[pid], SlotOf(w.children[pid].kind);
      && t.children == w.children - {pid} && t.signals == w.signals && t.config == w.config
      && t.cells[slot] == (if child.exited == Some(true) then -1 else 0) && t.cells[1 - slot] == w.cells[1 - slot]
      && t.place == if t.cells[0] == -1 && (w.enabled ==> t.cells[1] == -1) then Broken else AtPoll
  {
    var child := w.children[pid];
    assert SlotOk(w, 0) && SlotOk(w, 1);
    SettleSlot(w.cells, Managed(w.enabled), pid, ExitStatus(child.exited.value), SlotOf(child.kind));
  }

  // A processing child that exits without success is created again in the next turn.
  lemma FailureRestarts(w: World, pid: int, p: int)
    requires Invariant(w) && Possible(w, Step.Wait(pid)) && pid > 0 && w.children[pid] == Child(Processing, Some(false))
    requires p > 0 && (p !in w.children || p == pid)
    ensures var w1 := Apply(w, Step.Wait(pid)); var w2 := w1.(place := AtFork);
      && Possible(w1, Sleep) && w2 == Apply(w1, Sleep) && Possible(w2, Step.Fork(p))
      && Apply(w2, Step.Fork(p)).children == w.children - {pid} + map[p := Child(Processing, None)]
      && Apply(w2, Step.Fork(p)).cells[0] == p
  {
    hide Invariant;
    ReapedSettles(w, pid);
  }

  // A child that has been stopped stays stopped: in every run without START no other one is created.
  lemma {:induction false} StoppedStays(trace: seq<World>, steps: seq<Step>)
    requires IsRun(trace, steps) && Invariant(trace[0]) && trace[0].cells[0] == -1
    requires Step.Receive(Start) !in steps
    ensures var w := trace[|steps|];
      Invariant(w) && w.cells[0] == -1 && (forall p :: !IsProcessing(w, p)) && Last(w.log, Processing) == Last(trace[0].log, Processing)
  {
    hide Invariant;
    if steps == [] {
      NoChildInCell(trace[0]);
    } else {
      var n := |steps| - 1;
      StoppedStays(trace[..n + 1], steps[..n]);
      StepKeeps(trace[n], steps[n]);
      StillStopped(trace[n], steps[n]);
      NoChildInCell(trace[n + 1]);
    }
  }

  lemma NoChildInCell(w: World)
    requires Invariant(w) && w.cells[0] <= 0
    ensures forall p :: !IsProcessing(w, p)
  {
    assert SlotOk(w, 0);
  }

  lemma StillStopped(w: World, step: Step)
    requires Invariant(w) && Possible(w, step) && w.cells[0] == -1 && step != Step.Receive(Start)
    ensures Apply(w, step).cells[0] == -1 && Last(Apply(w, step).log, Processing) == Last(w.log, Processing)
  {
    match step
    case Fork(pid) =>
      LastAppend(w.log, Forked(Control, pid), Processing);
    case Wait(pid) =>
      if pid > 0 {
        NoChildInCell(w);
        ReapedSettles(w, pid);
        LastAppend(w.log, Event.Reaped(w.children[pid].kind, pid, w.children[pid].exited.value), Processing);
      }
    case _ =>
  }

  // ----- a turn of the loop as steps -----

  // Both creations of a turn, and none of them fails.
  ghost predicate Created(w: World, w1: World, w2: World, forked0: int, forked1: int)
    requires |w.cells| == 2 && |w1.cells| == 2
  {
    && Possible(w, Step.Fork(forked0)) && w1 == Apply(w, Step.Fork(forked0)) && w1.place == AtForkControl
    && Possible(w1, Step.Fork(forked1)) && w2 == Apply(w1, Step.Fork(forked1)) && w2.place == AtWait
  }

  lemma CreatedCells(w: World, w1: World, w2: World, forked0: int, forked1: int)
    requires |w.cells| == 2 && |w1.cells| == 2 && w.place == AtFork && Created(w, w1, w2, forked0, forked1)
    ensures w2.cells == AfterFork(AfterFork(w.cells, 0, w.enabled, forked0), 1, w.enabled, forked1)
    ensures w2.config == w.config && w2.table == w.table && w2.enabled == w.enabled
  {
  }

  lemma WaitedCells(w: World, t: World, waited: int, ok: bool)
    requires Invariant(w) && Possible(w, Step.Wait(waited)) && t == Apply(w, Step.Wait(waited))
    requires waited > 0 ==> w.children[waited].exited == Some(ok)
    ensures waited >= 0 && t.config == w.config && t.table == w.table && t.enabled == w.enabled
    ensures t.cells == if waited == 0 then w.cells else Settle(w.cells, Managed(w.enabled), waited, ExitStatus(ok))
    ensures if waited != 0 && Stopped(t.cells, Managed(w.enabled)) == Managed(w.enabled) then t.place == Broken
            else t.place == AtPoll
  {
    hide Invariant;
    hide Settle;
    hide Stopped;
    hide Last;
    WaitAnswers(w);
  }

  lemma WaitAnswers(w: World)
    requires Invariant(w) && w.place == AtWait
    ensures w.children != map[]
  {
    hide Invariant;
    InvariantIsSafe(w);
  }

  // The turn that the code takes is made of these steps: two creations, the reaping of a child and, if the loop
  // goes on and there is a command, its reception. Cells, configuration, break and reply agree.
  lemma TurnIsSteps(w: World, w1: World, w2: World, w3: World, forked0: int, forked1: int, waited: int, ok: bool,
                    c: Option<Command>)
    requires Invariant(w) && w.place == AtFork && |w1.cells| == 2 && Created(w, w1, w2, forked0, forked1)
    requires Possible(w2, Step.Wait(waited)) && w3 == Apply(w2, Step.Wait(waited))
    requires waited > 0 ==> w2.children[waited].exited == Some(ok)
    ensures var t := Turn(w.cells, w.config, w.table, w.enabled, forked0, forked1, waited, ok, c);
      && (t.2 <==> w3.place == Broken)
      && if t.2 || !w.enabled || c == None then (t.0, t.1, t.3) == (w3.cells, w3.config, REPLY_DO_NOTHING)
         else
           && Possible(w3, Step.Receive(c.value))
           && (t.0, t.1) == (Apply(w3, Step.Receive(c.value)).cells, Apply(w3, Step.Receive(c.value)).config)
           && t.3 == SupervisorModel.Receive(w3.cells[0], w3.config, w3.table, c.value).reply
  {
    hide Invariant;
    hide Settle;
    hide Stopped;
    hide AfterFork;
    hide SupervisorModel.Receive;
    hide WaitStep;
    CreatedCells(w, w1, w2, forked0, forked1);
    StepKeeps(w, Step.Fork(forked0));
    StepKeeps(w1, Step.Fork(forked1));
    WaitedCells(w2, w3, waited, ok);
  }
}
