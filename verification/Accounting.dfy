// Session reports of src/modules/dpi/report/session_report.c and the callbacks of src/modules/dpi/dpi.c
// that decide, for each session, between a report and the micro-flow aggregate.

/** One session: what was reported last, and the differences a report prints. */
module SessionReportModel {
  import opened Common

  datatype Counters = Counters(ulPackets: u64, dlPackets: u64, ulVolume: u64, dlVolume: u64, ulPayload: u64, dlPayload: u64)

  const NOTHING := Counters(0, 0, 0, 0, 0, 0)

  // The nine differences of a report line.
  datatype Line = Line(volume: u64, payload: u64, packets: u64,
                       ulVolume: u64, ulPayload: u64, ulPackets: u64,
                       dlVolume: u64, dlPayload: u64, dlPackets: u64)

  function Add(a: u64, b: u64): (c: u64) {
    (a + b) % TWO_64
  }

  function Subtract(a: u64, b: u64): (c: u64) {
    (a - b) % TWO_64
  }

  predicate HasNews(last: Counters, now: Counters) {
    Add(now.ulPackets, now.dlPackets) != Add(last.ulPackets, last.dlPackets)
  }

  function Difference(last: Counters, now: Counters): (l: Line) {
    Line(Subtract(Add(now.ulVolume, now.dlVolume), Add(last.ulVolume, last.dlVolume)),
         Subtract(Add(now.ulPayload, now.dlPayload), Add(last.ulPayload, last.dlPayload)),
         Subtract(Add(now.ulPackets, now.dlPackets), Add(last.ulPackets, last.dlPackets)),
         Subtract(now.ulVolume, last.ulVolume), Subtract(now.ulPayload, last.ulPayload), Subtract(now.ulPackets, last.ulPackets),
         Subtract(now.dlVolume, last.dlVolume), Subtract(now.dlPayload, last.dlPayload), Subtract(now.dlPackets, last.dlPackets))
  }

  // _print_ip_session_report: what is remembered afterwards, and the line printed, if any.
  function Report(last: Counters, now: Counters): (r: (Counters, Option<Line>)) {
    if HasNews(last, now) then (now, Some(Difference(last, now))) else (last, None)
  }
}

module SessionReport {
  import opened Common
  import opened SessionReportModel

  datatype FlowData = FlowData(upload: u64, download: u64)

  class SessionStat {
    var volumes: FlowData
    var payload: FlowData
    var packets: FlowData

    function Last(): (c: Counters)
      reads this
    {
      Counters(packets.upload, packets.download, volumes.upload, volumes.download, payload.upload, payload.download)
    }

    // session_report_callback_on_starting_session
    constructor ()
      ensures Last() == NOTHING
    {
      volumes, payload, packets := FlowData(0, 0), FlowData(0, 0), FlowData(0, 0);
    }

    // session_report_do_report
    method DoReport(now: Counters) returns (line: Option<Line>)
      modifies this
      ensures (Last(), line) == Report(old(Last()), now)
    {
      var totalPackets := Add(now.ulPackets, now.dlPackets);
      if totalPackets == Add(packets.upload, packets.download) {
        return None;
      }
      var totalVolumes := Add(now.ulVolume, now.dlVolume);
      var totalPayload := Add(now.ulPayload, now.dlPayload);
      line := Some(Line(
        Subtract(totalVolumes, Add(volumes.upload, volumes.download)),
        Subtract(totalPayload, Add(payload.upload, payload.download)),
        Subtract(totalPackets, Add(packets.upload, packets.download)),
        Subtract(now.ulVolume, volumes.upload),
        Subtract(now.ulPayload, payload.upload),
        Subtract(now.ulPackets, packets.upload),
        Subtract(now.dlVolume, volumes.download),
        Subtract(now.dlPayload, payload.download),
        Subtract(now.dlPackets, packets.download)));
      volumes := FlowData(now.ulVolume, now.dlVolume);
      payload := FlowData(now.ulPayload, now.dlPayload);
      packets := FlowData(now.ulPackets, now.dlPackets);
    }
  }
}

/** The callbacks: what they do to the sessions known, to the micro-flow aggregate and to the output. */
module DpiModel {
  import opened Common
  import opened SessionReportModel
  import Micro = MicroFlowModel

  // What DPI tells about a session: captured counters, and those the micro-flow test and aggregate use.
  datatype Session = Session(captured: Counters, whole: Micro.Session, app: nat)

  datatype Settings = Settings(sessionReports: bool, microFlows: bool, micro: Micro.Config)

  datatype Context = Context(last: map<nat, Counters>, micro: Micro.State, output: seq<(nat, Line)>)

  function Start(x: Context, id: nat): (y: Context) {
    if id in x.last then x else x.(last := x.last[id := NOTHING])
  }

  // A report of session id, which is known.
  function DoReport(x: Context, id: nat, s: Session): (y: Context)
    requires id in x.last
  {
    var (next, line) := Report(x.last[id], s.captured);
    Context(x.last[id := next], x.micro, if line.Some? then x.output + [(id, line.value)] else x.output)
  }

  predicate IsMicro(c: Settings, s: Session) {
    c.microFlows && Micro.IsMicro(c.micro, s.whole)
  }

  // _period_session_report, called only if session reports are enabled
  function Period(c: Settings, x: Context, id: nat, s: Session): (y: Context)
    requires id in x.last
  {
    if c.sessionReports && !IsMicro(c, s) then DoReport(x, id, s) else x
  }

  // _ending_session_handler
  function End(c: Settings, x: Context, id: nat, s: Session): (y: Context)
    requires id in x.last && s.app < |x.micro.pending|
  {
    var y := if IsMicro(c, s) then x.(micro := Micro.Update(c.micro, x.micro, s.app, s.whole)) else x;
    var z := if c.sessionReports && !IsMicro(c, s) then DoReport(y, id, s) else y;
    z.(last := z.last - {id})
  }
}

module Dpi {
  import opened Common
  import opened SessionReportModel
  import opened SessionReport
  import Micro = MicroFlowModel
  import MicroFlow
  import DpiModel

  class DpiContext {
    const settings: DpiModel.Settings
    const micro: MicroFlow.MicroFlowReport
    var sessions: map<nat, SessionStat>
    var output: seq<(nat, Line)>

    ghost predicate Valid()
      reads this, micro
    {
      && micro.Valid() && micro.config == settings.micro
      && (forall i, j :: i in sessions && j in sessions && i != j ==> sessions[i] != sessions[j])
    }

    ghost function Value(): (x: DpiModel.Context)
      reads this, micro, micro.stats, sessions.Values
    {
      DpiModel.Context(map i | i in sessions :: sessions[i].Last(), micro.State(), output)
    }

    constructor (settings: DpiModel.Settings, n: nat)
      ensures Valid() && this.settings == settings && fresh(micro) && fresh(micro.stats)
      ensures Value() == DpiModel.Context(map[], Micro.Initial(n), [])
    {
      this.settings := settings;
      micro := new MicroFlow.MicroFlowReport(settings.micro, n);
      sessions, output := map[], [];
    }

    // _starting_session_handler, and the same test in _packet_handler
    method StartSession(id: nat)
      requires Valid()
      modifies this`sessions
      ensures Valid() && Value() == DpiModel.Start(old(Value()), id)
      ensures forall i :: i in sessions ==> (i in old(sessions) && sessions[i] == old(sessions[i])) || fresh(sessions[i])
    {
      if id !in sessions {
        var stat := new SessionStat();
        sessions := sessions[id := stat];
      }
    }

    method DoReport(id: nat, s: DpiModel.Session)
      requires Valid() && id in sessions
      modifies this`output, sessions[id]
      ensures Valid() && Value() == DpiModel.DoReport(old(Value()), id, s)
    {
      var line := sessions[id].DoReport(s.captured);
      if line.Some? {
        output := output + [(id, line.value)];
      }
    }

    method PeriodReport(id: nat, s: DpiModel.Session)
      requires Valid() && id in sessions
      modifies this`output, sessions[id]
      ensures Valid() && Value() == DpiModel.Period(settings, old(Value()), id, s)
    {
      if settings.sessionReports {
        var isMicro := false;
        if settings.microFlows {
          isMicro := Micro.IsMicro(settings.micro, s.whole);
        }
        if !isMicro {
          DoReport(id, s);
        }
      }
    }

    method EndSession(id: nat, s: DpiModel.Session)
      requires Valid() && id in sessions && s.app < micro.stats.Length
      modifies this`output, this`sessions, sessions[id], micro, micro.stats
      ensures Valid() && Value() == DpiModel.End(settings, old(Value()), id, s)
    {
      hide Micro.Update;
      hide Micro.IsMicro;
      hide DpiModel.DoReport;
      var isMicro := false;
      if settings.microFlows {
        isMicro := Micro.IsMicro(settings.micro, s.whole);
        if isMicro {
          AddToAggregate(s);
        }
      }
      if settings.sessionReports && !isMicro {
        DoReport(id, s);
      }
      Forget(id);
    }

    method AddToAggregate(s: DpiModel.Session)
      requires Valid() && s.app < micro.stats.Length
      modifies micro, micro.stats
      ensures Valid()
      ensures Value() == old(Value()).(micro := Micro.Update(settings.micro, old(micro.State()), s.app, s.whole))
    {
      hide Micro.Update;
      micro.Update(s.app, s.whole);
    }

    // The memory of the session is freed.
    method Forget(id: nat)
      requires Valid() && id in sessions
      modifies this`sessions
      ensures Valid() && Value() == old(Value()).(last := old(Value()).last - {id})
    {
      sessions := sessions - {id};
    }
  }
}
