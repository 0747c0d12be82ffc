// The main process: the supervision loop of src/main.c and the command callback of
// src/modules/dynamic_conf/dynamic_conf.c, which share the cell holding the pid of the processing child.

/** What the code does to the pid cells and to the configuration, as functions. */
module SupervisorModel {
  import opened Common
  import opened CStrings
  import opened Identities
  import opened UpdateCodec

  const PID_NEED_TO_CREATE := 0
  const PID_NEED_TO_STOP := -1

  const CMD_STOP: nat := 1
  const CMD_START: nat := 2
  const CMD_UPDATE: nat := 3

  const REPLY_OK := 0
  const REPLY_CHILD_RUNNING := 1
  const REPLY_CHILD_STOPPING := 1
  const REPLY_DO_NOTHING := 1000

  datatype Signal = NoSignal | SigInt(pid: int) | SigRes(pid: int)

  // Raw values by identity; what a value is converted to is not part of this model.
  type Config = map<nat, string>

  datatype Command = Start | Stop | Update(params: seq<Param>) | Unknown(id: nat)

  // A message is a command_t: two bytes of id, two of parameter length, then the parameters.
  function Message(id: nat, parameter: string): (m: string) {
    Bytes16(id) + Bytes16(|parameter|) + parameter
  }

  // The callback's reading of a message, with room for size parameters.
  function ReadMessage(m: string, size: nat): (c: Option<Command>) {
    if |m| < 4 then None
    else
      var id, len := Value16(m[0], m[1]), Value16(m[2], m[3]);
      if id == CMD_START then Some(Start)
      else if id == CMD_STOP then Some(Stop)
      else if id != CMD_UPDATE then Some(Unknown(id))
      else if |m| < 4 + len || Decode(m[4..4 + len], size) == None then None
      else Some(Update(Decode(m[4..4 + len], size).value))
  }

  // conf_override_element_by_id: an unknown identity and a refused value change nothing.
  function Override(config: Config, table: Table, p: Param): (c: Config) {
    if p.ident < |table.identities| && Overridable(table, p.ident, CString(p.data)) then config[p.ident := CString(p.data)]
    else config
  }

  function OverrideAll(config: Config, table: Table, ps: seq<Param>): (c: Config) {
    if ps == [] then config else Override(OverrideAll(config, table, ps[..|ps| - 1]), table, ps[|ps| - 1])
  }

  // dynamic_conf_need_to_restart_to_update
  predicate NeedsRestart(ident: nat) {
    ident != 0
  }

  predicate AnyNeedsRestart(ps: seq<Param>) {
    exists k :: 0 <= k < |ps| && NeedsRestart(ps[k].ident)
  }

  datatype Outcome = Outcome(cell: int, config: Config, reply: int, signal: Signal)

  // _receive_message
  function Receive(cell: int, config: Config, table: Table, c: Command): (o: Outcome) {
    match c
    case Start =>
      if cell > 0 then Outcome(cell, config, REPLY_CHILD_RUNNING, NoSignal)
      else Outcome(PID_NEED_TO_CREATE, config, REPLY_OK, NoSignal)
    case Stop =>
      if cell <= 0 then Outcome(cell, config, REPLY_CHILD_STOPPING, NoSignal)
      else Outcome(cell, config, REPLY_OK, SigInt(cell))
    case Update(ps) =>
      var after := OverrideAll(config, table, ps);
      if cell > 0 && AnyNeedsRestart(ps) then Outcome(cell, after, REPLY_OK, SigRes(cell))
      else if cell < 0 then Outcome(cell, after, REPLY_OK, NoSignal)
      else Outcome(cell, after, REPLY_DO_NOTHING, NoSignal)
    case Unknown(_) => Outcome(cell, config, REPLY_DO_NOTHING, NoSignal)
  }

  function Managed(enabled: bool): (n: nat) {
    if enabled then 2 else 1
  }

  // The first of the first n cells that holds pid gets the status.
  function Settle(cells: seq<int>, n: nat, pid: int, status: int): (r: seq<int>)
    requires n <= |cells|
    ensures |r| == |cells|
  {
    if n == 0 then cells
    else if cells[0] == pid then cells[0 := status]
    else [cells[0]] + Settle(cells[1..], n - 1, pid, status)
  }

  // One turn of the supervision loop: cells, configuration, whether the loop breaks, and the reply given.
  function Turn(cells: seq<int>, config: Config, table: Table, enabled: bool, forked0: int, forked1: int, waited: int,
                ok: bool, c: Option<Command>): (r: (seq<int>, Config, bool, int))
    requires |cells| == 2
  {
    var created := AfterFork(AfterFork(cells, 0, enabled, forked0), 1, enabled, forked1);
    var settled := if waited == 0 then created else Settle(created, Managed(enabled), waited, ExitStatus(ok));
    if waited != 0 && Stopped(settled, Managed(enabled)) == Managed(enabled) then
      (settled, config, true, REPLY_DO_NOTHING)
    else if enabled && c.Some? then
      var o := Receive(settled[0], config, table, c.value);
      (settled[0 := o.cell], o.config, false, o.reply)
    else (settled, config, false, REPLY_DO_NOTHING)
  }

  function Stopped(cells: seq<int>, n: nat): (r: nat)
    requires n <= |cells|
    ensures r <= n
    ensures r == n <==> forall k :: 0 <= k < n ==> cells[k] == PID_NEED_TO_STOP
  {
    if n == 0 then 0 else Stopped(cells, n - 1) + (if cells[n - 1] == PID_NEED_TO_STOP then 1 else 0)
  }

  // The cell of a slot after the creation step, fork having returned forked in the parent.
  function AfterFork(cells: seq<int>, slot: nat, enabled: bool, forked: int): (r: seq<int>)
    requires slot < |cells|
    ensures |r| == |cells|
  {
    if NeedsFork(cells, slot, enabled) then cells[slot := forked] else cells
  }

  predicate NeedsFork(cells: seq<int>, slot: nat, enabled: bool)
    requires slot < |cells|
  {
    cells[slot] == PID_NEED_TO_CREATE && (slot == 0 || enabled)
  }

  function ExitStatus(ok: bool): (status: int) {
    if ok then PID_NEED_TO_STOP else PID_NEED_TO_CREATE
  }
}

/** The code itself, over the array children_pids and the configuration it updates in place. */
module Supervisor {
  import opened Common
  import opened Identities
  import opened UpdateCodec
  import opened SupervisorModel

  class MainProcess {
    const childrenPids: array<int>
    const enabled: bool      // dynamic-config.enable, held constant
    const table: Table       // the configuration parameters
    var config: Config

    ghost predicate Valid() {
      childrenPids.Length == 2
    }

    constructor (enabled: bool, table: Table, config: Config)
      ensures Valid() && fresh(childrenPids)
      ensures this.enabled == enabled && this.table == table && this.config == config
      ensures childrenPids[..] == [PID_NEED_TO_CREATE, PID_NEED_TO_CREATE]
    {
      this.childrenPids := new int[2](_ => PID_NEED_TO_CREATE);
      this.enabled := enabled;
      this.table := table;
      this.config := config;
    }

    // One of the two creations at the top of the loop; forked is what fork returned to the parent.
    method Create(slot: nat, forked: int)
      requires Valid() && slot < 2
      modifies childrenPids
      ensures childrenPids[..] == AfterFork(old(childrenPids[..]), slot, enabled, forked)
    {
      if slot == 0 {
        if childrenPids[0] == PID_NEED_TO_CREATE {
          childrenPids[0] := forked;
        }
      } else if enabled && childrenPids[1] == PID_NEED_TO_CREATE {
        childrenPids[1] := forked;
      }
    }

    // A child has been reaped: mark its cell, and tell whether the loop breaks.
    method Reaped(childPid: int, ok: bool) returns (done: bool)
      requires Valid()
      modifies childrenPids
      ensures childrenPids[..] == Settle(old(childrenPids[..]), Managed(enabled), childPid, ExitStatus(ok))
      ensures done <==> Stopped(childrenPids[..], Managed(enabled)) == Managed(enabled)
    {
      var nbChildrenProcesses := 1;
      if enabled {
        nbChildrenProcesses := 2;
      }
      var status := if ok then PID_NEED_TO_STOP else PID_NEED_TO_CREATE;
      ghost var before := childrenPids[..];
      var i := 0;
      while i < nbChildrenProcesses && childrenPids[i] != childPid
        invariant 0 <= i <= nbChildrenProcesses
        invariant before == childrenPids[..]
        invariant Settle(before, nbChildrenProcesses, childPid, status)
               == before[..i] + Settle(before[i..], nbChildrenProcesses - i, childPid, status)
      {
        assert before[i..][1..] == before[i + 1..];
        i := i + 1;
      }
      if i < nbChildrenProcesses {
        childrenPids[i] := status;
        assert before[i..][0] == childPid;
      }
      assert childrenPids[..] == Settle(before, nbChildrenProcesses, childPid, status);
      var nbChildrenNeedToStop := 0;
      for k := 0 to nbChildrenProcesses
        invariant nbChildrenNeedToStop == Stopped(childrenPids[..], k)
      {
        if childrenPids[k] == PID_NEED_TO_STOP {
          nbChildrenNeedToStop := nbChildrenNeedToStop + 1;
        }
      }
      done := nbChildrenNeedToStop == nbChildrenProcesses;
    }

    // The update branch of _receive_message: decodes the parameters and overrides the configuration.
    method ApplyUpdate(message: array<char>, parameterLength: nat) returns (isNeedToRestart: bool)
      requires 4 + parameterLength <= message.Length
      requires Decode(message[4..4 + parameterLength], |table.identities|).Some?
      modifies this`config
      ensures var ps := Decode(message[4..4 + parameterLength], |table.identities|).value;
        config == OverrideAll(old(config), table, ps) && (isNeedToRestart <==> AnyNeedsRestart(ps))
    {
      hide Decode;
      hide Override;
      var params := new Param[|table.identities|](_ => Param(0, 0, ""));
      var size := ParseCommandParameters(message, 4, parameterLength, params);
      ghost var ps := params[..size];
      isNeedToRestart := false;
      for i := 0 to size
        invariant params[..size] == ps
        invariant config == OverrideAll(old(config), table, params[..i])
        invariant isNeedToRestart <==> AnyNeedsRestart(params[..i])
      {
        assert params[..i + 1][..i] == params[..i] && params[..i + 1][i] == params[i];
        assert forall k :: 0 <= k < i ==> params[..i + 1][k] == params[..i][k];
        config := Override(config, table, params[i]);
        if NeedsRestart(params[i].ident) {
          isNeedToRestart := true;
        }
      }
    }

    // _receive_message
    method ReceiveMessage(message: array<char>, messageSize: nat) returns (reply: int, signal: Signal)
      requires Valid() && messageSize <= message.Length
      requires ReadMessage(message[..messageSize], |table.identities|).Some?
      modifies this`config, childrenPids
      ensures var c := ReadMessage(message[..messageSize], |table.identities|).value;
        Outcome(childrenPids[0], config, reply, signal) == Receive(old(childrenPids[0]), old(config), table, c)
      ensures childrenPids[1] == old(childrenPids[1])
    {
      hide Value16;
      hide Decode;
      hide OverrideAll;
      hide AnyNeedsRestart;
      ghost var m := message[..messageSize];
      var id := Value16(message[0], message[1]);
      if id == CMD_START {
        if childrenPids[0] > 0 {
          return REPLY_CHILD_RUNNING, NoSignal;
        }
        childrenPids[0] := PID_NEED_TO_CREATE;
        return REPLY_OK, NoSignal;
      }
      if id == CMD_STOP {
        if childrenPids[0] <= 0 {
          return REPLY_CHILD_STOPPING, NoSignal;
        }
        return REPLY_OK, SigInt(childrenPids[0]);
      }
      if id != CMD_UPDATE {
        return REPLY_DO_NOTHING, NoSignal;
      }
      var parameterLength := Value16(message[2], message[3]);
      assert m[4..4 + parameterLength] == message[4..4 + parameterLength];
      var isNeedToRestart := ApplyUpdate(message, parameterLength);
      if childrenPids[0] > 0 && isNeedToRestart {
        return REPLY_OK, SigRes(childrenPids[0]);
      }
      if childrenPids[0] < 0 {
        return REPLY_OK, NoSignal;
      }
      return REPLY_DO_NOTHING, NoSignal;
    }

    // One turn of the loop of _create_sub_processes. The arguments are what the system calls answered:
    // the pids of new children, the pid of a terminated child (0 if there is none) and how it exited,
    // and the message handed to the callback, if dynamic_conf_check found one.
    method Iterate(forked0: int, forked1: int, waited: int, ok: bool, hasMessage: bool, message: array<char>, size: nat)
      returns (done: bool, reply: int)
      requires Valid() && size <= message.Length
      requires hasMessage ==> ReadMessage(message[..size], |table.identities|).Some?
      modifies this`config, childrenPids
      ensures var c := if hasMessage then ReadMessage(message[..size], |table.identities|) else None;
        (childrenPids[..], config, done, reply)
        == Turn(old(childrenPids[..]), old(config), table, enabled, forked0, forked1, waited, ok, c)
    {
      hide ReadMessage;
      hide Receive;
      hide Settle;
      hide Stopped;
      done, reply := false, REPLY_DO_NOTHING;
      Create(0, forked0);
      Create(1, forked1);
      if waited != 0 {
        done := Reaped(waited, ok);
        if done {
          return;
        }
      }
      if enabled && hasMessage {
        var signal;
        ghost var before := childrenPids[..];
        reply, signal := ReceiveMessage(message, size);
        assert childrenPids[..] == before[0 := childrenPids[0]];
      }
    }
  }
}
