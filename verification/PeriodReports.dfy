// What the output shows right after a report of src/modules/dpi/dpi.c in mid-stream, at any moment of any run.

module PeriodReports {
  import opened Common
  import opened SessionReportModel
  import opened DpiModel
  import opened Traffic

  // A report prints a line exactly if the packet counters have moved since the last one.
  lemma NewsExactly(last: Counters, now: Counters)
    requires Earlier(last, now)
    ensures Report(last, now).1.Some? <==> TotalsOf(now).packets > TotalsOf(last).packets
  {
    hide Difference;
    hide Add;
    Exact(now.ulPackets, now.dlPackets);
    Exact(last.ulPackets, last.dlPackets);
  }

  // A report of a session whose lines add up to what was remembered of it.
  lemma ReportShows(x: Context, id: nat, s: Session)
    requires id in x.last && Earlier(x.last[id], s.captured) && Sum(x.output, id) == TotalsOf(x.last[id])
    ensures var y := DoReport(x, id, s);
      && Sum(y.output, id) == TotalsOf(s.captured) && Follows(x.output, y.output, id)
      && |y.output| == |x.output| + (if TotalsOf(s.captured).packets > Sum(x.output, id).packets then 1 else 0)
  {
    hide Sum;
    hide Lines;
    hide Earlier;
    hide TotalsOf;
    hide Report;
    DoReportOk(x, id, s);
    NewsExactly(x.last[id], s.captured);
  }

  // A live session at any moment of a run, and what its packets have carried so far.
  lemma LiveSessionSoFar(c: Settings, n: nat, trace: seq<World>, events: seq<Event>, id: nat)
    requires n > 0 && IsRun(c, n, trace, events) && trace[0] == Begin(n) && id in trace[|events|].live
    ensures var w := trace[|events|];
      && id in w.context.last && Earlier(w.context.last[id], w.live[id].captured)
      && Sum(w.context.output, id) == TotalsOf(w.context.last[id])
      && TotalsOf(w.live[id].captured) == Carried(events, id)
  {
    hide Apply;
    hide Possible;
    hide TotalsOf;
    hide Sum;
    hide Lines;
    hide Earlier;
    hide Carried;
    hide IsMicro;
    EveryRunKeepsInvariant(c, n, trace, events);
    assert LiveOk(c, trace[|events|], id);
    RunCarries(c, n, trace, events, id);
  }

  // What a report leaves in the output: the lines of the session add up to what its packets have carried, and there
  // is one more of them if and only if packets have come since the last one. Nothing else has changed.
  ghost predicate UpToDate(before: seq<(nat, Line)>, after: seq<(nat, Line)>, id: nat, carried: Totals) {
    && Sum(after, id) == carried && Follows(before, after, id)
    && |after| == |before| + (if carried.packets > Sum(before, id).packets then 1 else 0)
  }

  // Right after the statistics timer has reached a session: with session reports, and if it is no micro flow so far,
  // its lines are up to date. Otherwise nothing is printed.
  lemma PeriodShows(c: Settings, n: nat, trace: seq<World>, events: seq<Event>, id: nat)
    requires n > 0 && IsRun(c, n, trace, events + [PeriodEnds(id)]) && trace[0] == Begin(n)
    ensures var w, t := trace[|events|], trace[|events| + 1];
      && id in w.live && t.live == w.live
      && if c.sessionReports && !IsMicro(c, w.live[id]) then
           UpToDate(w.context.output, t.context.output, id, Carried(events, id))
         else t.context.output == w.context.output
  {
    hide IsMicro;
    hide DoReport;
    hide Sum;
    hide Earlier;
    hide TotalsOf;
    hide Carried;
    var k := |events|;
    RunBegins(c, n, trace, events, PeriodEnds(id));
    LiveSessionSoFar(c, n, trace[..k + 1], events, id);
    ReportShows(trace[k].context, id, trace[k].live[id]);
  }

  // A further HTTP request brings the lines up to date, micro flow or not.
  lemma RequestUpdates(c: Settings, n: nat, trace: seq<World>, events: seq<Event>, id: nat)
    requires n > 0 && IsRun(c, n, trace, events + [HttpRequest(id)]) && trace[0] == Begin(n)
    ensures var w, t := trace[|events|], trace[|events| + 1];
      t.live == w.live && UpToDate(w.context.output, t.context.output, id, Carried(events, id))
  {
    hide IsMicro;
    hide DoReport;
    hide Sum;
    hide Earlier;
    hide TotalsOf;
    hide Carried;
    var k := |events|;
    RunBegins(c, n, trace, events, HttpRequest(id));
    LiveSessionSoFar(c, n, trace[..k + 1], events, id);
    ReportShows(trace[k].context, id, trace[k].live[id]);
  }

  // The end of a session brings them up to date as well, with session reports and if it is no micro flow.
  lemma EndShows(c: Settings, n: nat, trace: seq<World>, events: seq<Event>, id: nat)
    requires n > 0 && IsRun(c, n, trace, events + [SessionEnds(id)]) && trace[0] == Begin(n)
    ensures var w, t := trace[|events|], trace[|events| + 1];
      && id in w.live && id !in t.live
      && if c.sessionReports && !IsMicro(c, w.live[id]) then
           UpToDate(w.context.output, t.context.output, id, Carried(events, id))
         else t.context.output == w.context.output
  {
    hide IsMicro;
    hide DoReport;
    hide Sum;
    hide Earlier;
    hide TotalsOf;
    hide Carried;
    var k := |events|;
    RunBegins(c, n, trace, events, SessionEnds(id));
    LiveSessionSoFar(c, n, trace[..k + 1], events, id);
    SameReport(c, trace[k], id);
    ReportShows(trace[k].context, id, trace[k].live[id]);
  }

  lemma SameReport(c: Settings, w: World, id: nat)
    requires id in w.context.last && id in w.live && w.live[id].app < |w.context.micro.pending|
    ensures var out := End(c, w.context, id, w.live[id]).output;
      out == if c.sessionReports && !IsMicro(c, w.live[id]) then DoReport(w.context, id, w.live[id]).output else w.context.output
  {
    hide IsMicro;
    hide Report;
  }

  lemma RunBegins(c: Settings, n: nat, trace: seq<World>, events: seq<Event>, e: Event)
    requires n > 0 && IsRun(c, n, trace, events + [e])
    ensures var k := |events|;
      IsRun(c, n, trace[..k + 1], events) && Possible(c, n, trace[k], e) && trace[k + 1] == Apply(c, n, trace[k], e)
  {
    hide Apply;
    hide Possible;
    assert forall j :: 0 <= j < |events| ==> events[j] == (events + [e])[j];
    assert (events + [e])[|events|] == e;
  }

  // Two periods without a packet in between: the second one prints nothing.
  lemma NoPacketNoLine(c: Settings, n: nat, trace: seq<World>, events: seq<Event>, id: nat)
    requires n > 0 && IsRun(c, n, trace, events + [PeriodEnds(id)] + [PeriodEnds(id)]) && trace[0] == Begin(n)
    requires c.sessionReports && !IsMicro(c, trace[|events|].live[id])
    ensures trace[|events| + 2].context.output == trace[|events| + 1].context.output
  {
    hide IsMicro;
    hide Apply;
    hide Possible;
    hide Sum;
    hide Carried;
    hide TotalsOf;
    var first := events + [PeriodEnds(id)];
    RunBegins(c, n, trace, first, PeriodEnds(id));
    PeriodShows(c, n, trace[..|events| + 2], events, id);
    PeriodShows(c, n, trace, first, id);
    NotCarried(events, PeriodEnds(id), id);
  }

  lemma NotCarried(events: seq<Event>, e: Event, id: nat)
    requires !e.Packet?
    ensures Carried(events + [e], id) == Carried(events, id)
  {
    assert (events + [e])[..|events|] == events;
  }

  // What counts as a micro flow: it is within one of both thresholds, if there are micro flows at all.
  lemma MicroExactly(c: Settings, s: Session)
    ensures IsMicro(c, s) <==>
              c.microFlows && (s.whole.dlBytes + s.whole.ulBytes <= c.micro.byteThreshold
                               || s.whole.dlPackets + s.whole.ulPackets <= c.micro.packetThreshold)
  {
  }

  // Without micro flows, every session that has ended is in the reports, with everything its packets carried.
  lemma AllReportedWithoutMicroFlows(c: Settings, n: nat, trace: seq<World>, events: seq<Event>, k: nat)
    requires n > 0 && c.sessionReports && !c.microFlows && IsRun(c, n, trace, events) && trace[0] == Begin(n)
    requires k < |trace[|events|].ended|
    ensures var w, id := trace[|events|], trace[|events|].ended[k].id; Sum(w.context.output, id) == Carried(events, id)
  {
    hide IsMicro;
    hide Apply;
    hide Possible;
    MicroExactly(c, trace[|events|].ended[k].final);
    ReportsCarryPackets(c, n, trace, events, k);
  }
}
