// Whole runs of the DPI callbacks: where the traffic of every session ends up.

module Traffic {
  import opened Common
  import opened SessionReportModel
  import opened DpiModel
  import Micro = MicroFlowModel
  import MicroRuns = MicroFlowProperties

  // An ended session: its final counters, whether it went to the micro-flow aggregate, and how many
  // lines the HTTP handler printed for it in mid-stream.
  datatype Ended = Ended(id: nat, final: Session, micro: bool, http: nat)

  datatype World = World(context: Context, live: map<nat, Session>, http: map<nat, nat>, ended: seq<Ended>)

  datatype Event =
    | Packet(id: nat, upload: bool, volume: nat, payload: nat, bytes: nat, app: nat)
    | PeriodEnds(id: nat)   // the statistics timer reaches this session
    | HttpRequest(id: nat)  // a further request in the same TCP session: reported without the micro-flow test
    | SessionEnds(id: nat)

  const NEW_SESSION := Session(NOTHING, Micro.Session(0, 0, 0, 0), 0)

  predicate Bounded(c: Counters) {
    c.ulPackets + c.dlPackets < TWO_64 && c.ulVolume + c.dlVolume < TWO_64 && c.ulPayload + c.dlPayload < TWO_64
  }

  // Room for one more packet in the 64-bit counters.
  predicate Room(c: Counters, e: Event)
    requires e.Packet?
  {
    && c.ulPackets + c.dlPackets + 1 < TWO_64
    && c.ulVolume + c.dlVolume + e.volume < TWO_64
    && c.ulPayload + c.dlPayload + e.payload < TWO_64
  }

  function Count(c: Counters, e: Event): (d: Counters)
    requires e.Packet? && Room(c, e)
  {
    if e.upload then
      c.(ulPackets := c.ulPackets + 1, ulVolume := c.ulVolume + e.volume, ulPayload := c.ulPayload + e.payload)
    else
      c.(dlPackets := c.dlPackets + 1, dlVolume := c.dlVolume + e.volume, dlPayload := c.dlPayload + e.payload)
  }

  function CountWhole(s: Micro.Session, e: Event): (t: Micro.Session)
    requires e.Packet?
  {
    if e.upload then s.(ulPackets := s.ulPackets + 1, ulBytes := s.ulBytes + e.bytes)
    else s.(dlPackets := s.dlPackets + 1, dlBytes := s.dlBytes + e.bytes)
  }

  function Current(w: World, id: nat): (s: Session) {
    if id in w.live then w.live[id] else NEW_SESSION
  }

  // Session identifiers are not used again, and application identifiers are below n.
  ghost predicate Possible(c: Settings, n: nat, w: World, e: Event) {
    match e
    case Packet(id, _, _, _, _, app) =>
      app < n && Room(Current(w, id).captured, e) && forall k :: 0 <= k < |w.ended| ==> w.ended[k].id != id
    case PeriodEnds(id) => id in w.live
    case HttpRequest(id) => id in w.live && c.sessionReports
    case SessionEnds(id) => id in w.live
  }

  ghost predicate Known(n: nat, w: World) {
    w.live.Keys == w.context.last.Keys == w.http.Keys && |w.context.micro.pending| == n
    && forall id :: id in w.live ==> w.live[id].app < n
  }

  ghost function Apply(c: Settings, n: nat, w: World, e: Event): (t: World)
    requires Known(n, w) && n > 0 && Possible(c, n, w, e)
    ensures Known(n, t)
  {
    match e
    case Packet(id, _, _, _, _, app) =>
      var s := Current(w, id);
      w.(context := Start(w.context, id),
         live := w.live[id := Session(Count(s.captured, e), CountWhole(s.whole, e), app)],
         http := w.http[id := if id in w.http then w.http[id] else 0])
    case PeriodEnds(id) => w.(context := Period(c, w.context, id, w.live[id]))
    case HttpRequest(id) =>
      var after := DoReport(w.context, id, w.live[id]);
      w.(context := after, http := w.http[id := w.http[id] + (|after.output| - |w.context.output|)])
    case SessionEnds(id) =>
      var s := w.live[id];
      World(End(c, w.context, id, s), w.live - {id}, w.http - {id}, w.ended + [Ended(id, s, IsMicro(c, s), w.http[id])])
  }

  ghost predicate IsRun(c: Settings, n: nat, trace: seq<World>, events: seq<Event>) {
    && |trace| == |events| + 1
    && (forall k :: 0 <= k < |trace| ==> Known(n, trace[k]))
    && forall k :: 0 <= k < |events| ==>
         Possible(c, n, trace[k], events[k]) && trace[k + 1] == Apply(c, n, trace[k], events[k])
  }

  function Begin(n: nat): (w: World) {
    World(Context(map[], Micro.Initial(n), []), map[], map[], [])
  }

  // ----- sums of report lines -----

  // Mathematical sums of the nine columns.
  datatype Totals = Totals(volume: nat, payload: nat, packets: nat,
                           ulVolume: nat, ulPayload: nat, ulPackets: nat,
                           dlVolume: nat, dlPayload: nat, dlPackets: nat)

  function Accumulate(t: Totals, l: Line): (u: Totals) {
    Totals(t.volume + l.volume, t.payload + l.payload, t.packets + l.packets,
           t.ulVolume + l.ulVolume, t.ulPayload + l.ulPayload, t.ulPackets + l.ulPackets,
           t.dlVolume + l.dlVolume, t.dlPayload + l.dlPayload, t.dlPackets + l.dlPackets)
  }

  // The lines printed for a session, summed up; all zero at first.
  function Sum(output: seq<(nat, Line)>, id: nat): (t: Totals) {
    if output == [] then TotalsOf(NOTHING)
    else
      var n := |output| - 1;
      if output[n].0 == id then Accumulate(Sum(output[..n], id), output[n].1) else Sum(output[..n], id)
  }

  function Lines(output: seq<(nat, Line)>, id: nat): (k: nat) {
    if output == [] then 0
    else Lines(output[..|output| - 1], id) + (if output[|output| - 1].0 == id then 1 else 0)
  }

  // What the columns must sum up to.
  function TotalsOf(c: Counters): (t: Totals) {
    Totals(c.ulVolume + c.dlVolume, c.ulPayload + c.dlPayload, c.ulPackets + c.dlPackets,
           c.ulVolume, c.ulPayload, c.ulPackets, c.dlVolume, c.dlPayload, c.dlPackets)
  }

  lemma SumAppend(output: seq<(nat, Line)>, x: (nat, Line), id: nat)
    ensures Sum(output + [x], id) == if x.0 == id then Accumulate(Sum(output, id), x.1) else Sum(output, id)
    ensures Lines(output + [x], id) == Lines(output, id) + (if x.0 == id then 1 else 0)
  {
    assert (output + [x])[..|output|] == output;
  }

  // ----- one session -----

  predicate Below(a: Counters, b: Counters) {
    && a.ulPackets <= b.ulPackets && a.dlPackets <= b.dlPackets
    && a.ulVolume <= b.ulVolume && a.dlVolume <= b.dlVolume
    && a.ulPayload <= b.ulPayload && a.dlPayload <= b.dlPayload
  }

  // last is an earlier moment of now, and no counter moves without a packet.
  predicate Earlier(last: Counters, now: Counters) {
    Below(last, now) && Bounded(now) && (last.ulPackets + last.dlPackets == now.ulPackets + now.dlPackets ==> last == now)
  }

  lemma Exact(a: u64, b: u64)
    ensures a + b < TWO_64 ==> Add(a, b) == a + b
    ensures b <= a ==> Subtract(a, b) == a - b
  {
  }

  // One pair of counters: the differences of both and of their sum are exact.
  lemma ExactPair(ul: u64, dl: u64, lastUl: u64, lastDl: u64)
    requires lastUl <= ul && lastDl <= dl && ul + dl < TWO_64
    ensures Subtract(ul, lastUl) == ul - lastUl && Subtract(dl, lastDl) == dl - lastDl
    ensures Add(ul, dl) == ul + dl && Add(lastUl, lastDl) == lastUl + lastDl
    ensures Subtract(Add(ul, dl), Add(lastUl, lastDl)) == ul + dl - lastUl - lastDl
  {
    hide Add;
    hide Subtract;
    Exact(ul, lastUl);
    Exact(dl, lastDl);
    Exact(ul, dl);
    Exact(lastUl, lastDl);
    Exact(Add(ul, dl), Add(lastUl, lastDl));
  }

  lemma ReportTelescopes(last: Counters, now: Counters)
    requires Earlier(last, now)
    ensures Report(last, now).0 == now
    ensures Report(last, now).1.Some? ==> Accumulate(TotalsOf(last), Report(last, now).1.value) == TotalsOf(now)
    ensures Report(last, now).1 == None ==> last == now
  {
    hide Add;
    hide Subtract;
    ExactPair(now.ulVolume, now.dlVolume, last.ulVolume, last.dlVolume);
    ExactPair(now.ulPayload, now.dlPayload, last.ulPayload, last.dlPayload);
    ExactPair(now.ulPackets, now.dlPackets, last.ulPackets, last.dlPackets);
  }

  // A flow that is no longer micro never becomes micro again.
  lemma MicroIsLost(c: Settings, s: Session, e: Event)
    requires e.Packet? && Room(s.captured, e) && !IsMicro(c, s)
    ensures !IsMicro(c, Session(Count(s.captured, e), CountWhole(s.whole, e), e.app))
  {
  }

  ghost predicate LiveOk(c: Settings, w: World, id: nat)
    requires id in w.live && id in w.context.last && id in w.http
  {
    var s, out := w.live[id], w.context.output;
    && Earlier(w.context.last[id], s.captured)
    && Sum(out, id) == TotalsOf(w.context.last[id])
    && w.http[id] <= Lines(out, id)
    && (Lines(out, id) > w.http[id] ==> !IsMicro(c, s))
  }

  ghost predicate EndedOk(c: Settings, w: World, e: Ended) {
    var out := w.context.output;
    && e.id !in w.live
    && e.micro == IsMicro(c, e.final)
    && if e.micro then Lines(out, e.id) == e.http
       else c.sessionReports ==> Sum(out, e.id) == TotalsOf(e.final.captured)
  }

  // The sessions that went to the aggregate, in the order in which they ended.
  function MicroFlows(ended: seq<Ended>): (f: seq<MicroRuns.Flow>) {
    if ended == [] then []
    else
      var e := ended[|ended| - 1];
      MicroFlows(ended[..|ended| - 1]) + (if e.micro then [MicroRuns.Flow(e.final.app, e.final.whole)] else [])
  }

  // ----- the invariant of whole runs -----

  ghost predicate Seen(w: World, id: nat) {
    id in w.live || exists j :: 0 <= j < |w.ended| && w.ended[j].id == id
  }

  ghost predicate Invariant(c: Settings, n: nat, w: World) {
    && Known(n, w)
    && (forall id :: id in w.live ==> LiveOk(c, w, id))
    && (forall k :: 0 <= k < |w.ended| ==> EndedOk(c, w, w.ended[k]))
    && (forall k :: 0 <= k < |w.context.output| ==> Seen(w, w.context.output[k].0))
    && MicroRuns.Fits(MicroFlows(w.ended), n)
    && w.context.micro == MicroRuns.Run(c.micro, n, MicroFlows(w.ended))
  }

  // out is followed in more by at most one line, of session id.
  ghost predicate Follows(out: seq<(nat, Line)>, more: seq<(nat, Line)>, id: nat) {
    more == out || (|more| == |out| + 1 && more[..|out|] == out && more[|out|].0 == id)
  }

  lemma DoReportOk(x: Context, id: nat, s: Session)
    requires id in x.last && Earlier(x.last[id], s.captured) && Sum(x.output, id) == TotalsOf(x.last[id])
    ensures var y := DoReport(x, id, s);
      && y.last == x.last[id := s.captured] && y.micro == x.micro
      && Sum(y.output, id) == TotalsOf(s.captured)
      && Lines(y.output, id) == Lines(x.output, id) + |y.output| - |x.output|
      && Follows(x.output, y.output, id)
  {
    hide Sum;
    hide Lines;
    hide Earlier;
    hide Accumulate;
    hide TotalsOf;
    hide Report;
    ReportTelescopes(x.last[id], s.captured);
    var line := Report(x.last[id], s.captured).1;
    if line.Some? {
      SumAppend(x.output, (id, line.value), id);
    }
  }

  lemma OtherLines(out: seq<(nat, Line)>, more: seq<(nat, Line)>, id: nat, other: nat)
    requires Follows(out, more, id) && other != id
    ensures Sum(more, other) == Sum(out, other) && Lines(more, other) == Lines(out, other)
  {
    hide Accumulate;
  }

  lemma {:induction false} NoLines(output: seq<(nat, Line)>, id: nat)
    requires forall k :: 0 <= k < |output| ==> output[k].0 != id
    ensures Sum(output, id) == TotalsOf(NOTHING) && Lines(output, id) == 0
  {
    hide Accumulate;
    if output != [] {
      NoLines(output[..|output| - 1], id);
    }
  }

  lemma PacketKeeps(c: Settings, n: nat, w: World, e: Event)
    requires Invariant(c, n, w) && n > 0 && e.Packet? && Possible(c, n, w, e)
    ensures Invariant(c, n, Apply(c, n, w, e))
  {
    hide Sum;
    hide Lines;
    hide MicroFlows;
    hide MicroRuns.Run;
    hide IsMicro;
    hide Count;
    hide CountWhole;
    hide Room;
    hide Earlier;
    hide TotalsOf;
    var t := Apply(c, n, w, e);
    PacketOfSession(c, n, w, e);
    forall id | id in t.live && id != e.id
      ensures LiveOk(c, t, id)
    {
      assert LiveOk(c, w, id);
    }
    forall k | 0 <= k < |t.ended|
      ensures EndedOk(c, t, t.ended[k])
    {
      assert EndedOk(c, w, w.ended[k]);
    }
  }

  lemma PacketOfSession(c: Settings, n: nat, w: World, e: Event)
    requires Invariant(c, n, w) && n > 0 && e.Packet? && Possible(c, n, w, e)
    ensures LiveOk(c, Apply(c, n, w, e), e.id)
  {
    hide Sum;
    hide Lines;
    hide MicroFlows;
    hide MicroRuns.Run;
    hide IsMicro;
    hide Count;
    hide CountWhole;
    hide Room;
    hide Earlier;
    hide TotalsOf;
    if e.id in w.live {
      assert LiveOk(c, w, e.id);
      CountsLater(w.context.last[e.id], w.live[e.id].captured, e);
      if !IsMicro(c, w.live[e.id]) {
        MicroIsLost(c, w.live[e.id], e);
      }
    } else {
      NotSeen(c, n, w, e.id);
      NoLines(w.context.output, e.id);
      NothingYet();
      CountsLater(NOTHING, NOTHING, e);
    }
  }

  lemma NotSeen(c: Settings, n: nat, w: World, id: nat)
    requires Invariant(c, n, w) && id !in w.live && forall k :: 0 <= k < |w.ended| ==> w.ended[k].id != id
    ensures forall k :: 0 <= k < |w.context.output| ==> w.context.output[k].0 != id
  {
    hide EndedOk;
    hide LiveOk;
  }

  lemma UploadLater(last: Counters, now: Counters, e: Event)
    requires e.Packet? && Room(now, e) && Earlier(last, now) && e.upload
    ensures Earlier(last, Count(now, e))
  {
  }

  lemma DownloadLater(last: Counters, now: Counters, e: Event)
    requires e.Packet? && Room(now, e) && Earlier(last, now) && !e.upload
    ensures Earlier(last, Count(now, e))
  {
  }

  lemma CountsLater(last: Counters, now: Counters, e: Event)
    requires e.Packet? && Room(now, e) && Earlier(last, now)
    ensures Earlier(last, Count(now, e))
  {
    hide Earlier;
    hide Count;
    hide Room;
    if e.upload {
      UploadLater(last, now, e);
    } else {
      DownloadLater(last, now, e);
    }
  }

  lemma NothingYet()
    ensures Earlier(NOTHING, NOTHING)
  {
  }

  // What a report of session id may do to the count of lines printed by the HTTP handler.
  ghost predicate Noted(c: Settings, w: World, id: nat, http: map<nat, nat>)
    requires id in w.live && id in w.context.last && id in w.http
  {
    || (http == w.http && !IsMicro(c, w.live[id]))
    || http == w.http[id := w.http[id] + (|DoReport(w.context, id, w.live[id]).output| - |w.context.output|)]
  }

  lemma ReportOfSession(c: Settings, n: nat, w: World, id: nat, http: map<nat, nat>)
    requires Known(n, w) && id in w.live && LiveOk(c, w, id) && Noted(c, w, id, http)
    ensures var t := w.(context := DoReport(w.context, id, w.live[id]), http := http);
      Known(n, t) && LiveOk(c, t, id)
  {
    hide Sum;
    hide Lines;
    hide IsMicro;
    hide DoReport;
    hide Earlier;
    DoReportOk(w.context, id, w.live[id]);
    EarlierSelf(w.context.last[id], w.live[id].captured);
  }

  // A report of a live session leaves everything else as it was.
  lemma ReportKeeps(c: Settings, n: nat, w: World, id: nat, http: map<nat, nat>)
    requires Invariant(c, n, w) && id in w.live && Noted(c, w, id, http)
    ensures Invariant(c, n, w.(context := DoReport(w.context, id, w.live[id]), http := http))
  {
    hide Sum;
    hide Lines;
    hide MicroFlows;
    hide MicroRuns.Run;
    hide IsMicro;
    hide DoReport;
    hide Earlier;
    hide TotalsOf;
    var x := w.context;
    var y := DoReport(x, id, w.live[id]);
    var t := w.(context := y, http := http);
    assert LiveOk(c, w, id);
    DoReportOk(x, id, w.live[id]);
    ReportOfSession(c, n, w, id, http);
    forall other | other in t.live && other != id
      ensures LiveOk(c, t, other)
    {
      assert LiveOk(c, w, other);
      OtherLines(x.output, y.output, id, other);
    }
    forall k | 0 <= k < |t.ended|
      ensures EndedOk(c, t, t.ended[k])
    {
      assert EndedOk(c, w, w.ended[k]);
      OtherLines(x.output, y.output, id, w.ended[k].id);
    }
  }

  lemma EarlierSelf(last: Counters, now: Counters)
    requires Earlier(last, now)
    ensures Earlier(now, now)
  {
  }

  // ----- the end of a session -----

  // w is followed by t, in which session id has ended as e.
  ghost predicate Ends(w: World, t: World, e: Ended) {
    && e.id in w.live && t.live == w.live - {e.id} && t.http == w.http - {e.id}
    && t.context.last == w.context.last - {e.id} && Follows(w.context.output, t.context.output, e.id)
    && t.ended == w.ended + [e]
  }

  lemma OthersKeep(c: Settings, n: nat, w: World, t: World, e: Ended)
    requires Invariant(c, n, w) && Ends(w, t, e)
    ensures forall id :: id in t.live ==> LiveOk(c, t, id)
    ensures forall k :: 0 <= k < |w.ended| ==> EndedOk(c, t, t.ended[k])
  {
    hide Sum;
    hide Lines;
    hide MicroFlows;
    hide MicroRuns.Run;
    hide IsMicro;
    hide Earlier;
    hide TotalsOf;
    forall id | id in t.live
      ensures LiveOk(c, t, id)
    {
      assert LiveOk(c, w, id);
      OtherLines(w.context.output, t.context.output, e.id, id);
    }
    forall k | 0 <= k < |w.ended|
      ensures EndedOk(c, t, t.ended[k])
    {
      assert EndedOk(c, w, w.ended[k]);
      OtherLines(w.context.output, t.context.output, e.id, w.ended[k].id);
    }
  }

  lemma StillSeen(c: Settings, n: nat, w: World, t: World, e: Ended)
    requires Invariant(c, n, w) && Ends(w, t, e)
    ensures forall k :: 0 <= k < |t.context.output| ==> Seen(t, t.context.output[k].0)
  {
    hide EndedOk;
    hide LiveOk;
    assert t.ended[|w.ended|] == e;
    forall id | Seen(w, id)
      ensures Seen(t, id)
    {
      if id !in w.live {
        var j :| 0 <= j < |w.ended| && w.ended[j].id == id;
        assert t.ended[j].id == id;
      }
    }
    forall k | 0 <= k < |t.context.output|
      ensures Seen(t, t.context.output[k].0)
    {
      if k < |w.context.output| {
        assert t.context.output[k] == w.context.output[k];
      }
    }
  }

  lemma MicroFlowsExtend(ended: seq<Ended>, e: Ended)
    ensures MicroFlows(ended + [e])
         == MicroFlows(ended) + (if e.micro then [MicroRuns.Flow(e.final.app, e.final.whole)] else [])
  {
    assert (ended + [e])[..|ended|] == ended;
  }

  lemma EndOfMicro(c: Settings, n: nat, w: World, id: nat, e: Ended)
    requires Known(n, w) && n > 0 && id in w.live
    requires e == Ended(id, w.live[id], IsMicro(c, w.live[id]), w.http[id]) && e.micro
    requires Invariant(c, n, w)
    ensures var t := Apply(c, n, w, SessionEnds(id));
      && Ends(w, t, e) && EndedOk(c, t, e)
      && MicroRuns.Fits(MicroFlows(t.ended), n) && t.context.micro == MicroRuns.Run(c.micro, n, MicroFlows(t.ended))
  {
    hide Sum;
    hide Lines;
    hide Earlier;
    hide TotalsOf;
    hide IsMicro;
    hide MicroFlows;
    hide MicroRuns.Run;
    hide Micro.Update;
    assert LiveOk(c, w, id);
    MicroFlowsExtend(w.ended, e);
    MicroRuns.RunExtend(c.micro, n, MicroFlows(w.ended), MicroRuns.Flow(e.final.app, e.final.whole));
  }

  lemma EndOfReported(c: Settings, n: nat, w: World, id: nat, e: Ended)
    requires Known(n, w) && n > 0 && id in w.live
    requires e == Ended(id, w.live[id], IsMicro(c, w.live[id]), w.http[id]) && !e.micro
    requires Invariant(c, n, w)
    ensures var t := Apply(c, n, w, SessionEnds(id));
      && Ends(w, t, e) && EndedOk(c, t, e)
      && MicroFlows(t.ended) == MicroFlows(w.ended) && t.context.micro == w.context.micro
  {
    hide Sum;
    hide Lines;
    hide Earlier;
    hide TotalsOf;
    hide IsMicro;
    hide DoReport;
    hide MicroFlows;
    hide MicroRuns.Run;
    assert LiveOk(c, w, id);
    MicroFlowsExtend(w.ended, e);
    DoReportOk(w.context, id, w.live[id]);
  }

  lemma EndKeeps(c: Settings, n: nat, w: World, id: nat)
    requires Invariant(c, n, w) && n > 0 && id in w.live
    ensures Invariant(c, n, Apply(c, n, w, SessionEnds(id)))
  {
    hide EndedOk;
    hide LiveOk;
    hide End;
    hide IsMicro;
    hide MicroFlows;
    hide MicroRuns.Run;
    hide Follows;
    hide Seen;
    var t, e := Apply(c, n, w, SessionEnds(id)), Ended(id, w.live[id], IsMicro(c, w.live[id]), w.http[id]);
    if e.micro {
      EndOfMicro(c, n, w, id, e);
    } else {
      EndOfReported(c, n, w, id, e);
    }
    OthersKeep(c, n, w, t, e);
    StillSeen(c, n, w, t, e);
  }

  lemma StepKeeps(c: Settings, n: nat, w: World, e: Event)
    requires Invariant(c, n, w) && n > 0 && Possible(c, n, w, e)
    ensures Invariant(c, n, Apply(c, n, w, e))
  {
    hide EndedOk;
    hide LiveOk;
    hide Seen;
    hide MicroFlows;
    hide MicroRuns.Run;
    hide IsMicro;
    hide Report;
    match e
    case Packet(_, _, _, _, _, _) => PacketKeeps(c, n, w, e);
    case SessionEnds(id) => EndKeeps(c, n, w, id);
    case PeriodEnds(id) =>
      if c.sessionReports && !IsMicro(c, w.live[id]) {
        ReportKeeps(c, n, w, id, w.http);
      }
    case HttpRequest(id) =>
      var after := DoReport(w.context, id, w.live[id]);
      ReportKeeps(c, n, w, id, w.http[id := w.http[id] + (|after.output| - |w.context.output|)]);
  }

  // ----- main results -----

  lemma {:induction false} EveryRunKeepsInvariant(c: Settings, n: nat, trace: seq<World>, events: seq<Event>)
    requires n > 0 && IsRun(c, n, trace, events) && trace[0] == Begin(n)
    ensures Invariant(c, n, trace[|events|])
  {
    if events == [] {
    } else {
      var k := |events| - 1;
      EveryRunKeepsInvariant(c, n, trace[..k + 1], events[..k]);
      StepKeeps(c, n, trace[k], events[k]);
    }
  }

  // In every run, an ended session is either entirely in the micro-flow aggregate, with no line but those the
  // HTTP handler printed, or the lines printed for it sum up exactly to its final counters.
  lemma EverySessionIsAccounted(c: Settings, n: nat, trace: seq<World>, events: seq<Event>, k: nat)
    requires n > 0 && IsRun(c, n, trace, events) && trace[0] == Begin(n)
    requires k < |trace[|events|].ended|
    ensures var w, e := trace[|events|], trace[|events|].ended[k];
      && (IsMicro(c, e.final) ==> Lines(w.context.output, e.id) == e.http)
      && (!IsMicro(c, e.final) && c.sessionReports ==> Sum(w.context.output, e.id) == TotalsOf(e.final.captured))
  {
    EveryRunKeepsInvariant(c, n, trace, events);
    assert EndedOk(c, trace[|events|], trace[|events|].ended[k]);
  }

  // What the aggregate prints, up to and including its release, is what the micro flows brought, per application.
  lemma AggregateIsConserved(c: Settings, n: nat, trace: seq<World>, events: seq<Event>, app: nat)
    requires n > 0 && IsRun(c, n, trace, events) && trace[0] == Begin(n)
    requires app < n && c.micro.reportFlows < TWO_32 - 1
    ensures var w := trace[|events|];
      && MicroRuns.Fits(MicroFlows(w.ended), n) && |w.context.micro.pending| == n
      && var st := Micro.Release(w.context.micro, n);
         |st.lines| == |st.apps| && MicroRuns.Printed(st.lines, st.apps, app) == MicroRuns.Passed(MicroFlows(w.ended), app)
  {
    EveryRunKeepsInvariant(c, n, trace, events);
    MicroRuns.ConservesIfRoom(c.micro, n, MicroFlows(trace[|events|].ended));
  }

  ghost predicate NoHttp(w: World, id: nat) {
    && (id in w.http ==> w.http[id] == 0)
    && forall k :: 0 <= k < |w.ended| && w.ended[k].id == id ==> w.ended[k].http == 0
  }

  lemma {:induction false} WithoutHttp(c: Settings, n: nat, trace: seq<World>, events: seq<Event>, id: nat)
    requires n > 0 && IsRun(c, n, trace, events) && trace[0] == Begin(n) && HttpRequest(id) !in events
    ensures NoHttp(trace[|events|], id)
  {
    hide IsMicro;
    hide Start;
    hide End;
    hide DoReport;
    hide Period;
    hide Count;
    hide CountWhole;
    if events == [] {
    } else {
      var k := |events| - 1;
      WithoutHttp(c, n, trace[..k + 1], events[..k], id);
      assert events[k] != HttpRequest(id);
    }
  }

  // ----- a request always shows -----

  ghost predicate HasPackets(w: World) {
    forall id :: id in w.live ==> w.live[id].captured.ulPackets + w.live[id].captured.dlPackets > 0
  }

  lemma {:induction false} LiveHasPackets(c: Settings, n: nat, trace: seq<World>, events: seq<Event>)
    requires n > 0 && IsRun(c, n, trace, events) && trace[0] == Begin(n)
    ensures HasPackets(trace[|events|])
  {
    hide IsMicro;
    hide Start;
    hide End;
    hide DoReport;
    hide Period;
    hide CountWhole;
    if events == [] {
    } else {
      var k := |events| - 1;
      LiveHasPackets(c, n, trace[..k + 1], events[..k]);
    }
  }

  lemma {:induction false} NoLineNoSum(output: seq<(nat, Line)>, id: nat)
    requires Lines(output, id) == 0
    ensures Sum(output, id) == TotalsOf(NOTHING)
  {
    hide Accumulate;
    hide TotalsOf;
    if output != [] {
      NoLineNoSum(output[..|output| - 1], id);
    }
  }

  lemma {:induction false} LinesGrow(output: seq<(nat, Line)>, more: seq<(nat, Line)>, id: nat)
    requires output <= more
    ensures Lines(output, id) <= Lines(more, id)
  {
    if output == more {
    } else {
      LinesGrow(output, more[..|more| - 1], id);
    }
  }

  lemma NoPackets(last: Counters)
    requires TotalsOf(last) == TotalsOf(NOTHING)
    ensures last.ulPackets == 0 && last.dlPackets == 0
  {
    assert TotalsOf(last).ulPackets == last.ulPackets && TotalsOf(NOTHING).ulPackets == 0;
    assert TotalsOf(last).dlPackets == last.dlPackets && TotalsOf(NOTHING).dlPackets == 0;
  }

  // The first report of a session with packets prints a line.
  lemma FirstReportPrints(last: Counters, now: Counters)
    requires now.ulPackets + now.dlPackets < TWO_64 && now.ulPackets + now.dlPackets > 0
    requires last.ulPackets == 0 && last.dlPackets == 0
    ensures Report(last, now).1.Some?
  {
    hide Difference;
    hide Add;
    Exact(now.ulPackets, now.dlPackets);
    Exact(0, 0);
  }

  lemma RequestPrints(x: Context, id: nat, s: Session)
    requires id in x.last && Sum(x.output, id) == TotalsOf(x.last[id])
    requires 0 < s.captured.ulPackets + s.captured.dlPackets < TWO_64
    ensures Lines(DoReport(x, id, s).output, id) > 0
  {
    hide TotalsOf;
    hide Accumulate;
    hide Report;
    hide Sum;
    hide Lines;
    if Lines(x.output, id) == 0 {
      NoLineNoSum(x.output, id);
      NoPackets(x.last[id]);
      FirstReportPrints(x.last[id], s.captured);
      SumAppend(x.output, (id, Report(x.last[id], s.captured).1.value), id);
    } else {
      LinesGrow(x.output, DoReport(x, id, s).output, id);
    }
  }

  // A live session, at any moment of a run.
  lemma LiveSession(c: Settings, n: nat, trace: seq<World>, events: seq<Event>, id: nat)
    requires n > 0 && IsRun(c, n, trace, events) && trace[0] == Begin(n) && id in trace[|events|].live
    ensures var w := trace[|events|]; id in w.context.last && Sum(w.context.output, id) == TotalsOf(w.context.last[id])
    ensures var s := trace[|events|].live[id].captured; 0 < s.ulPackets + s.dlPackets < TWO_64
  {
    hide Apply;
    hide Possible;
    hide TotalsOf;
    hide Sum;
    hide IsMicro;
    EveryRunKeepsInvariant(c, n, trace, events);
    LiveHasPackets(c, n, trace, events);
    assert LiveOk(c, trace[|events|], id);
  }

  lemma OutputGrows(c: Settings, n: nat, w: World, e: Event)
    requires Known(n, w) && n > 0 && Possible(c, n, w, e)
    ensures w.context.output <= Apply(c, n, w, e).context.output
  {
    hide IsMicro;
    hide Report;
    hide Micro.Update;
    hide Count;
    hide CountWhole;
  }

  lemma {:induction false} RequestShows(c: Settings, n: nat, trace: seq<World>, events: seq<Event>, id: nat)
    requires n > 0 && IsRun(c, n, trace, events) && trace[0] == Begin(n) && HttpRequest(id) in events
    ensures Lines(trace[|events|].context.output, id) > 0
  {
    hide Lines;
    hide Invariant;
    hide HasPackets;
    hide DoReport;
    hide IsMicro;
    hide End;
    hide Period;
    hide Count;
    hide CountWhole;
    var k := |events| - 1;
    if events[k] == HttpRequest(id) {
      LiveSession(c, n, trace[..k + 1], events[..k], id);
      RequestPrints(trace[k].context, id, trace[k].live[id]);
    } else {
      RequestShows(c, n, trace[..k + 1], events[..k], id);
      OutputGrows(c, n, trace[k], events[k]);
      LinesGrow(trace[k].context.output, trace[k + 1].context.output, id);
    }
  }

  // The partition: an ended micro flow has no line if and only if there was no further HTTP request in it.
  lemma PartitionExactly(c: Settings, n: nat, trace: seq<World>, events: seq<Event>, k: nat)
    requires n > 0 && IsRun(c, n, trace, events) && trace[0] == Begin(n)
    requires k < |trace[|events|].ended| && IsMicro(c, trace[|events|].ended[k].final)
    ensures var id := trace[|events|].ended[k].id;
      Lines(trace[|events|].context.output, id) == 0 <==> HttpRequest(id) !in events
  {
    hide Lines;
    hide Apply;
    hide Possible;
    hide IsMicro;
    hide Invariant;
    var id := trace[|events|].ended[k].id;
    if HttpRequest(id) in events {
      RequestShows(c, n, trace, events, id);
    } else {
      EverySessionIsAccounted(c, n, trace, events, k);
      WithoutHttp(c, n, trace, events, id);
    }
  }

  // Hence, as long as the HTTP handler prints nothing for it, a session is on one side only.
  lemma EitherAggregateOrReports(c: Settings, n: nat, trace: seq<World>, events: seq<Event>, k: nat)
    requires n > 0 && IsRun(c, n, trace, events) && trace[0] == Begin(n)
    requires k < |trace[|events|].ended| && HttpRequest(trace[|events|].ended[k].id) !in events
    ensures var w, e := trace[|events|], trace[|events|].ended[k];
      if IsMicro(c, e.final) then Lines(w.context.output, e.id) == 0
      else c.sessionReports ==> Sum(w.context.output, e.id) == TotalsOf(e.final.captured)
  {
    EverySessionIsAccounted(c, n, trace, events, k);
    WithoutHttp(c, n, trace, events, trace[|events|].ended[k].id);
  }

  const FIRST := Packet(0, true, 60, 0, 60, 0)

  // The session after that packet.
  const ONE_PACKET := Session(Counters(1, 0, 60, 0, 0, 0), Micro.Session(0, 1, 0, 60), 0)

  lemma FirstPacketArrives(c: Settings)
    ensures Known(1, Begin(1)) && Possible(c, 1, Begin(1), FIRST)
    ensures Apply(c, 1, Begin(1), FIRST)
         == World(Context(map[0 := NOTHING], Micro.Initial(1), []), map[0 := ONE_PACKET], map[0 := 0], [])
  {
    hide IsMicro;
  }

  // A line of that session.
  function FirstLine(): (l: Line) {
    Difference(NOTHING, ONE_PACKET.captured)
  }

  lemma RequestIsReported(c: Settings, w: World)
    requires c.sessionReports && w == World(Context(map[0 := NOTHING], Micro.Initial(1), []), map[0 := ONE_PACKET], map[0 := 0], [])
    ensures Known(1, w) && Possible(c, 1, w, HttpRequest(0))
    ensures Apply(c, 1, w, HttpRequest(0))
         == World(Context(map[0 := ONE_PACKET.captured], Micro.Initial(1), [(0, FirstLine())]), map[0 := ONE_PACKET], map[0 := 1], [])
  {
    hide IsMicro;
    hide Difference;
  }

  lemma SessionIsAggregated(c: Settings, w: World)
    requires c.microFlows && c.micro.packetThreshold >= 1
    requires w == World(Context(map[0 := ONE_PACKET.captured], Micro.Initial(1), [(0, FirstLine())]), map[0 := ONE_PACKET], map[0 := 1], [])
    ensures Known(1, w) && Possible(c, 1, w, SessionEnds(0)) && IsMicro(c, ONE_PACKET)
    ensures Apply(c, 1, w, SessionEnds(0)).ended == [Ended(0, ONE_PACKET, true, 1)]
    ensures Apply(c, 1, w, SessionEnds(0)).context.output == [(0, FirstLine())]
  {
    hide Difference;
    hide Micro.Update;
    hide FirstLine;
    assert IsMicro(c, ONE_PACKET);
  }

  lemma OneOfEach(l: Line, e: Ended)
    requires e.micro
    ensures Lines([(e.id, l)], e.id) == 1 && |MicroFlows([e])| == 1
  {
    hide Sum;
    SumAppend([], (e.id, l), e.id);
    assert [] + [(e.id, l)] == [(e.id, l)];
    MicroFlowsExtend([], e);
    assert [] + [e] == [e];
  }

  // With such a request, wherever one packet makes a micro flow, a session can be in the aggregate and have a line as well.
  lemma HttpBreaksPartition(c: Settings) returns (trace: seq<World>, events: seq<Event>)
    requires c.sessionReports && c.microFlows && c.micro.packetThreshold >= 1
    ensures IsRun(c, 1, trace, events) && trace[0] == Begin(1) && |trace[|events|].ended| == 1
    ensures var w, e := trace[|events|], trace[|events|].ended[0];
      IsMicro(c, e.final) && |MicroFlows(w.ended)| == 1 && Lines(w.context.output, e.id) == 1
  {
    hide Apply;
    hide Possible;
    hide IsMicro;
    hide Lines;
    hide MicroFlows;
    hide FirstLine;
    FirstPacketArrives(c);
    var w1 := Apply(c, 1, Begin(1), FIRST);
    RequestIsReported(c, w1);
    var w2 := Apply(c, 1, w1, HttpRequest(0));
    SessionIsAggregated(c, w2);
    var w3 := Apply(c, 1, w2, SessionEnds(0));
    trace, events := [Begin(1), w1, w2, w3], [FIRST, HttpRequest(0), SessionEnds(0)];
    OneOfEach(FirstLine(), w3.ended[0]);
  }

  // ----- from packets to reports -----

  function AddPacket(t: Totals, e: Event): (u: Totals)
    requires e.Packet?
  {
    var v := t.(volume := t.volume + e.volume, payload := t.payload + e.payload, packets := t.packets + 1);
    if e.upload then
      v.(ulVolume := t.ulVolume + e.volume, ulPayload := t.ulPayload + e.payload, ulPackets := t.ulPackets + 1)
    else
      v.(dlVolume := t.dlVolume + e.volume, dlPayload := t.dlPayload + e.payload, dlPackets := t.dlPackets + 1)
  }

  // What the packets of a session add up to.
  function Carried(events: seq<Event>, id: nat): (t: Totals) {
    if events == [] then TotalsOf(NOTHING)
    else
      var e, before := events[|events| - 1], Carried(events[..|events| - 1], id);
      if e.Packet? && e.id == id then AddPacket(before, e) else before
  }

  lemma UploadCarried(c: Counters, e: Event)
    requires e.Packet? && Room(c, e) && e.upload
    ensures TotalsOf(Count(c, e)) == AddPacket(TotalsOf(c), e)
  {
  }

  lemma DownloadCarried(c: Counters, e: Event)
    requires e.Packet? && Room(c, e) && !e.upload
    ensures TotalsOf(Count(c, e)) == AddPacket(TotalsOf(c), e)
  {
  }

  lemma PacketCarried(c: Counters, e: Event)
    requires e.Packet? && Room(c, e)
    ensures TotalsOf(Count(c, e)) == AddPacket(TotalsOf(c), e)
  {
    hide Count;
    hide TotalsOf;
    hide AddPacket;
    hide Room;
    if e.upload {
      UploadCarried(c, e);
    } else {
      DownloadCarried(c, e);
    }
  }

  // The counters of session id, live or ended, hold what its packets carried.
  ghost predicate Holds(w: World, id: nat, t: Totals) {
    && (id in w.live ==> TotalsOf(w.live[id].captured) == t)
    && (forall k :: 0 <= k < |w.ended| && w.ended[k].id == id ==> TotalsOf(w.ended[k].final.captured) == t)
    && (id !in w.live && (forall k :: 0 <= k < |w.ended| ==> w.ended[k].id != id) ==> TotalsOf(NOTHING) == t)
  }

  lemma StepCarries(c: Settings, n: nat, w: World, e: Event, id: nat, t: Totals)
    requires Known(n, w) && n > 0 && Possible(c, n, w, e) && Holds(w, id, t)
    ensures Holds(Apply(c, n, w, e), id, if e.Packet? && e.id == id then AddPacket(t, e) else t)
  {
    hide IsMicro;
    hide Start;
    hide End;
    hide DoReport;
    hide Period;
    hide Count;
    hide CountWhole;
    hide Room;
    hide TotalsOf;
    hide AddPacket;
    if e.Packet? {
      PacketCarried(Current(w, e.id).captured, e);
    } else if e.SessionEnds? {
      var ended := Apply(c, n, w, e).ended;
      assert ended[|w.ended|].id == e.id;
      assert forall k :: 0 <= k < |w.ended| ==> ended[k] == w.ended[k];
    }
  }

  lemma {:induction false} RunCarries(c: Settings, n: nat, trace: seq<World>, events: seq<Event>, id: nat)
    requires n > 0 && IsRun(c, n, trace, events) && trace[0] == Begin(n)
    ensures Holds(trace[|events|], id, Carried(events, id))
  {
    hide Apply;
    hide Possible;
    hide TotalsOf;
    hide AddPacket;
    if events == [] {
    } else {
      var k := |events| - 1;
      RunCarries(c, n, trace[..k + 1], events[..k], id);
      StepCarries(c, n, trace[k], events[k], id, Carried(events[..k], id));
    }
  }

  // Nothing is lost or counted twice between the packets of a session and the lines of its reports.
  lemma ReportsCarryPackets(c: Settings, n: nat, trace: seq<World>, events: seq<Event>, k: nat)
    requires n > 0 && c.sessionReports && IsRun(c, n, trace, events) && trace[0] == Begin(n)
    requires k < |trace[|events|].ended| && !IsMicro(c, trace[|events|].ended[k].final)
    ensures var w, e := trace[|events|], trace[|events|].ended[k];
      Sum(w.context.output, e.id) == Carried(events, e.id)
  {
    hide Apply;
    hide Possible;
    hide TotalsOf;
    hide Sum;
    hide Lines;
    hide Carried;
    hide IsMicro;
    EverySessionIsAccounted(c, n, trace, events, k);
    RunCarries(c, n, trace, events, trace[|events|].ended[k].id);
  }
}
