// Aggregation of micro flows: src/modules/dpi/report/micro_flow_report.c and micro_flow_report.h.

module MicroFlowModel {
  import opened Common

  // The five counters of an application, in 32-bit arithmetic.
  datatype Counts = Counts(flows: u32, dlPackets: u32, ulPackets: u32, dlBytes: u32, ulBytes: u32)

  const ZERO := Counts(0, 0, 0, 0, 0)

  function Add(a: u32, b: u32): (c: u32) {
    (a + b) % TWO_32
  }

  function Plus(a: Counts, b: Counts): (c: Counts) {
    Counts(Add(a.flows, b.flows), Add(a.dlPackets, b.dlPackets), Add(a.ulPackets, b.ulPackets),
           Add(a.dlBytes, b.dlBytes), Add(a.ulBytes, b.ulBytes))
  }

  datatype Config = Config(packetThreshold: u32, byteThreshold: u32, reportPackets: u32, reportBytes: u32, reportFlows: u32)

  // The counters DPI keeps for a session.
  datatype Session = Session(dlPackets: nat, ulPackets: nat, dlBytes: nat, ulBytes: nat)

  // is_micro_flow
  predicate IsMicro(c: Config, s: Session) {
    c.byteThreshold >= s.dlBytes + s.ulBytes || c.packetThreshold >= s.dlPackets + s.ulPackets
  }

  // What one session adds to the counters of its application.
  function CountsOf(s: Session): (c: Counts) {
    Counts(1, s.dlPackets % TWO_32, s.ulPackets % TWO_32, s.dlBytes % TWO_32, s.ulBytes % TWO_32)
  }

  // The test after an update. The second line is the code's: it adds the download packets twice.
  predicate MustReport(c: Config, x: Counts) {
    || (x.dlBytes + x.ulBytes) % TWO_32 > c.reportBytes
    || (x.dlPackets + x.dlPackets) % TWO_32 > c.reportPackets
    || x.flows > c.reportFlows
  }

  // application_id is printed from a field that nothing ever assigns.
  datatype Line = Line(applicationId: u32, counts: Counts)

  // pending: the counters by application; lines: what has been printed; apps: for which application.
  datatype State = State(pending: seq<Counts>, lines: seq<Line>, apps: seq<nat>)

  function Initial(n: nat): (st: State) {
    State(seq(n, _ => ZERO), [], [])
  }

  function Update(c: Config, st: State, app: nat, s: Session): (t: State)
    requires app < |st.pending|
    ensures |t.pending| == |st.pending|
  {
    var x := Plus(st.pending[app], CountsOf(s));
    if MustReport(c, x) then State(st.pending[app := ZERO], st.lines + [Line(0, x)], st.apps + [app])
    else st.(pending := st.pending[app := x])
  }

  // micro_flow_report_release, up to application n.
  function Release(st: State, n: nat): (t: State)
    requires n <= |st.pending|
    ensures t.pending == st.pending
    ensures |st.lines| == |st.apps| ==> |t.lines| == |t.apps|
  {
    if n == 0 then st
    else
      var t := Release(st, n - 1);
      if st.pending[n - 1].flows > 0 then State(t.pending, t.lines + [Line(0, st.pending[n - 1])], t.apps + [n - 1]) else t
  }
}

module MicroFlow {
  import opened Common
  import opened MicroFlowModel

  class MicroFlowReport {
    const config: Config
    const stats: array<Counts>
    var lines: seq<Line>         // reports written
    ghost var apps: seq<nat>

    ghost predicate Valid()
      reads this
    {
      |lines| == |apps|
    }

    ghost function State(): (st: MicroFlowModel.State)
      reads this, stats
    {
      MicroFlowModel.State(stats[..], lines, apps)
    }

    // micro_flow_report_alloc_init for n protocol identifiers
    constructor (config: Config, n: nat)
      ensures Valid() && fresh(stats) && this.config == config && State() == Initial(n)
    {
      this.config := config;
      stats := new Counts[n](_ => ZERO);
      lines, apps := [], [];
    }

    method Print(x: Counts, ghost app: nat)
      requires Valid()
      modifies this`lines, this`apps
      ensures Valid() && lines == old(lines) + [Line(0, x)] && apps == old(apps) + [app]
    {
      lines, apps := lines + [Line(0, x)], apps + [app];
    }

    // micro_flow_report__update
    method Update(app: nat, s: Session)
      requires Valid() && app < stats.Length
      modifies this`lines, this`apps, stats
      ensures Valid() && State() == MicroFlowModel.Update(config, old(State()), app, s)
    {
      var x := stats[app];
      x := x.(dlPackets := (x.dlPackets + s.dlPackets) % TWO_32);
      x := x.(dlBytes := (x.dlBytes + s.dlBytes) % TWO_32);
      x := x.(ulPackets := (x.ulPackets + s.ulPackets) % TWO_32);
      x := x.(ulBytes := (x.ulBytes + s.ulBytes) % TWO_32);
      x := x.(flows := (x.flows + 1) % TWO_32);
      PlusCounts(stats[app], s);
      if MustReport(config, x) {
        Print(x, app);
        x := ZERO;
      }
      stats[app] := x;
    }

    // micro_flow_report_release
    method Release()
      requires Valid()
      modifies this`lines, this`apps
      ensures Valid() && State() == MicroFlowModel.Release(old(State()), stats.Length)
    {
      for i := 0 to stats.Length
        invariant Valid() && stats[..] == old(stats[..])
        invariant State() == MicroFlowModel.Release(old(State()), i)
      {
        if stats[i].flows > 0 {
          Print(stats[i], i);
        }
      }
    }
  }

  lemma PlusCounts(x: Counts, s: Session)
    ensures Plus(x, CountsOf(s)) ==
            Counts((x.flows + 1) % TWO_32, (x.dlPackets + s.dlPackets) % TWO_32, (x.ulPackets + s.ulPackets) % TWO_32,
                   (x.dlBytes + s.dlBytes) % TWO_32, (x.ulBytes + s.ulBytes) % TWO_32)
  {
    AddMod(x.dlPackets, s.dlPackets);
    AddMod(x.ulPackets, s.ulPackets);
    AddMod(x.dlBytes, s.dlBytes);
    AddMod(x.ulBytes, s.ulBytes);
  }

  lemma AddMod(a: int, b: int)
    ensures (a + b % TWO_32) % TWO_32 == (a + b) % TWO_32
  {
    var q := b / TWO_32;
    assert a + b == (a + b % TWO_32) + TWO_32 * q;
  }
}
