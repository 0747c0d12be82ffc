// Micro flows over whole runs: thresholds and conservation.

module MicroFlowProperties {
  import opened Common
  import opened MicroFlowModel

  datatype Flow = Flow(app: nat, session: Session)

  ghost predicate Fits(flows: seq<Flow>, n: nat) {
    forall k :: 0 <= k < |flows| ==> flows[k].app < n
  }

  function Run(c: Config, n: nat, flows: seq<Flow>): (st: State)
    requires forall k :: 0 <= k < |flows| ==> flows[k].app < n
    ensures |st.pending| == n
  {
    if flows == [] then Initial(n)
    else Update(c, Run(c, n, flows[..|flows| - 1]), flows[|flows| - 1].app, flows[|flows| - 1].session)
  }

  // What was passed in for an application.
  function Passed(flows: seq<Flow>, app: nat): (x: Counts) {
    if flows == [] then ZERO
    else
      var f := flows[|flows| - 1];
      if f.app == app then Plus(Passed(flows[..|flows| - 1], app), CountsOf(f.session))
      else Passed(flows[..|flows| - 1], app)
  }

  // What was printed for an application.
  function Printed(lines: seq<Line>, apps: seq<nat>, app: nat): (x: Counts)
    requires |lines| == |apps|
  {
    if lines == [] then ZERO
    else
      var n := |lines| - 1;
      if apps[n] == app then Plus(Printed(lines[..n], apps[..n], app), lines[n].counts)
      else Printed(lines[..n], apps[..n], app)
  }

  // Everything the updates and the final release print.
  ghost predicate Conserves(c: Config, n: nat, flows: seq<Flow>)
    requires Fits(flows, n)
  {
    var st := Release(Run(c, n, flows), n);
    |st.lines| == |st.apps| && forall app :: 0 <= app < n ==> Printed(st.lines, st.apps, app) == Passed(flows, app)
  }

  // The sessions passed in for an application, added up without any bound, and how many they were.
  function Total(flows: seq<Flow>, app: nat): (s: Session) {
    if flows == [] then Session(0, 0, 0, 0)
    else
      var before, f := Total(flows[..|flows| - 1], app), flows[|flows| - 1];
      if f.app != app then before
      else Session(before.dlPackets + f.session.dlPackets, before.ulPackets + f.session.ulPackets,
                   before.dlBytes + f.session.dlBytes, before.ulBytes + f.session.ulBytes)
  }

  function Number(flows: seq<Flow>, app: nat): (n: nat) {
    if flows == [] then 0 else Number(flows[..|flows| - 1], app) + (if flows[|flows| - 1].app == app then 1 else 0)
  }

  // Every column is the sum of that column over the sessions, in 32 bits, and the first one their number.
  lemma {:induction false} PassedExactly(flows: seq<Flow>, app: nat)
    ensures var s := Total(flows, app);
      Passed(flows, app) == Counts(Number(flows, app) % 0x1_0000_0000, s.dlPackets % 0x1_0000_0000, s.ulPackets % 0x1_0000_0000,
                                   s.dlBytes % 0x1_0000_0000, s.ulBytes % 0x1_0000_0000)
  {
    hide Add;
    if flows != [] {
      var init, f := flows[..|flows| - 1], flows[|flows| - 1];
      PassedExactly(init, app);
      if f.app == app {
        var s := Total(init, app);
        AddExactly(Number(init, app), 1);
        AddExactly(s.dlPackets, f.session.dlPackets);
        AddExactly(s.ulPackets, f.session.ulPackets);
        AddExactly(s.dlBytes, f.session.dlBytes);
        AddExactly(s.ulBytes, f.session.ulBytes);
      }
    }
  }

  lemma AddExactly(a: nat, b: nat)
    ensures Add(a % TWO_32, b % TWO_32) == (a + b) % TWO_32
  {
    var p, q := a / TWO_32, b / TWO_32;
    assert a + b == (a % TWO_32 + b % TWO_32) + (p + q) * TWO_32;
  }

  lemma AddModAssociative(a: u32, b: u32, c: u32)
    ensures Add(Add(a, b), c) == Add(a, Add(b, c))
  {
  }

  lemma PlusAssociative(a: Counts, b: Counts, c: Counts)
    ensures Plus(Plus(a, b), c) == Plus(a, Plus(b, c))
  {
    hide Add;
    AddModAssociative(a.flows, b.flows, c.flows);
    AddModAssociative(a.dlPackets, b.dlPackets, c.dlPackets);
    AddModAssociative(a.ulPackets, b.ulPackets, c.ulPackets);
    AddModAssociative(a.dlBytes, b.dlBytes, c.dlBytes);
    AddModAssociative(a.ulBytes, b.ulBytes, c.ulBytes);
  }

  lemma PlusZero(a: Counts)
    ensures Plus(a, ZERO) == a && Plus(ZERO, a) == a
  {
  }

  lemma PrintedAppend(lines: seq<Line>, apps: seq<nat>, l: Line, a: nat, app: nat)
    requires |lines| == |apps|
    ensures Printed(lines + [l], apps + [a], app)
         == if a == app then Plus(Printed(lines, apps, app), l.counts) else Printed(lines, apps, app)
  {
    assert (lines + [l])[..|lines|] == lines && (apps + [a])[..|apps|] == apps;
  }

  // Printed and pending together are what was passed in, and nothing is ever pending above a threshold.
  lemma {:induction false} PrintedPlusPending(c: Config, n: nat, flows: seq<Flow>, app: nat)
    requires Fits(flows, n) && app < n
    ensures var st := Run(c, n, flows);
      && |st.lines| == |st.apps|
      && Plus(Printed(st.lines, st.apps, app), st.pending[app]) == Passed(flows, app)
  {
    hide Plus;
    hide CountsOf;
    hide MustReport;
    if flows == [] {
      PlusZero(ZERO);
    } else {
      var f, before := flows[|flows| - 1], Run(c, n, flows[..|flows| - 1]);
      PrintedPlusPending(c, n, flows[..|flows| - 1], app);
      var printed := Printed(before.lines, before.apps, app);
      var x := Plus(before.pending[f.app], CountsOf(f.session));
      PrintedAppend(before.lines, before.apps, Line(0, x), f.app, app);
      if f.app == app {
        PlusAssociative(printed, before.pending[app], CountsOf(f.session));
        PlusZero(Plus(printed, x));
      }
    }
  }

  // The counters that can stay pending respect the three tests.
  lemma {:induction false} PendingWithinThresholds(c: Config, n: nat, flows: seq<Flow>, app: nat)
    requires Fits(flows, n) && app < n
    ensures var x := Run(c, n, flows).pending[app];
      (x.dlBytes + x.ulBytes) % TWO_32 <= c.reportBytes && x.flows <= c.reportFlows
  {
    hide Plus;
    hide CountsOf;
    if flows != [] {
      PendingWithinThresholds(c, n, flows[..|flows| - 1], app);
    }
  }

  // When a line is printed: exactly if, with the session that has ended, the bytes, twice the download packets or the
  // number of the flows pending exceed their thresholds. The line holds all that was pending, and the other
  // applications are left alone.
  lemma LineExactly(c: Config, n: nat, flows: seq<Flow>, f: Flow)
    requires Fits(flows + [f], n) && f.app < n
    ensures Fits(flows, n)
    ensures var st, t := Run(c, n, flows), Run(c, n, flows + [f]);
      var x := Plus(st.pending[f.app], CountsOf(f.session));
      && (forall app :: 0 <= app < n && app != f.app ==> t.pending[app] == st.pending[app])
      && if (x.dlBytes + x.ulBytes) % 0x1_0000_0000 > c.reportBytes || 2 * x.dlPackets % 0x1_0000_0000 > c.reportPackets
            || x.flows > c.reportFlows
         then t.lines == st.lines + [Line(0, x)] && t.apps == st.apps + [f.app] && t.pending[f.app] == Counts(0, 0, 0, 0, 0)
         else t.lines == st.lines && t.apps == st.apps && t.pending[f.app] == x
  {
    hide Plus;
    hide CountsOf;
    assert forall k :: 0 <= k < |flows| ==> flows[k] == (flows + [f])[k];
    assert (flows + [f])[..|flows|] == flows && (flows + [f])[|flows|] == f;
  }

  // A session as DPI counts it: it has packets, each of at least one byte, and no bytes without packets.
  predicate Whole(s: Session) {
    && s.dlPackets + s.ulPackets > 0
    && s.dlPackets <= s.dlBytes && s.ulPackets <= s.ulBytes
    && (s.dlPackets == 0 ==> s.dlBytes == 0) && (s.ulPackets == 0 ==> s.ulBytes == 0)
  }

  ghost predicate AllWhole(flows: seq<Flow>) {
    forall k :: 0 <= k < |flows| ==> Whole(flows[k].session)
  }

  // The pending packets of all applications respect the packet threshold.
  ghost predicate PacketsBounded(c: Config, n: nat, flows: seq<Flow>)
    requires Fits(flows, n)
  {
    forall app :: 0 <= app < n ==>
      Run(c, n, flows).pending[app].dlPackets + Run(c, n, flows).pending[app].ulPackets <= c.reportPackets
  }

  lemma {:induction false} NothingStaysPending(c: Config, n: nat, flows: seq<Flow>, app: nat)
    requires Fits(flows, n) && app < n && c.reportFlows == 0
    ensures Run(c, n, flows).pending[app] == ZERO
  {
    if flows != [] {
      NothingStaysPending(c, n, flows[..|flows| - 1], app);
      NothingStaysPending(c, n, flows[..|flows| - 1], flows[|flows| - 1].app);
    }
  }

  // One session over the packet threshold that none of the three tests sees.
  function Unseen(c: Config): (s: Session) {
    if c.reportPackets < TWO_32 - 1 then Session(0, c.reportPackets + 1, 0, TWO_32)
    else Session(1, TWO_32 - 1, 1, 2 * TWO_32 - 1)
  }

  lemma UnseenStays(c: Config)
    requires c.reportFlows > 0
    ensures Whole(Unseen(c)) && !MustReport(c, Plus(ZERO, CountsOf(Unseen(c))))
    ensures var x := Plus(ZERO, CountsOf(Unseen(c))); x.dlPackets + x.ulPackets > c.reportPackets
  {
  }

  // The packet threshold is not among them, for upload packets are never looked at: it is respected in all
  // sequences of sessions if and only if every single flow is reported at once.
  lemma PacketBoundExactly(c: Config, n: nat)
    requires n > 0
    ensures (forall flows :: Fits(flows, n) && AllWhole(flows) ==> PacketsBounded(c, n, flows)) <==> c.reportFlows == 0
  {
    hide MustReport;
    hide Plus;
    if c.reportFlows == 0 {
      forall flows | Fits(flows, n) && AllWhole(flows)
        ensures PacketsBounded(c, n, flows)
      {
        forall app | 0 <= app < n
          ensures Run(c, n, flows).pending[app] == ZERO
        {
          NothingStaysPending(c, n, flows, app);
        }
      }
    } else {
      var flows := [Flow(0, Unseen(c))];
      UnseenStays(c);
      OneFlow(c, n, Unseen(c));
      assert Fits(flows, n) && AllWhole(flows) && !PacketsBounded(c, n, flows);
    }
  }

  lemma OneFlow(c: Config, n: nat, s: Session)
    requires n > 0 && !MustReport(c, Plus(ZERO, CountsOf(s)))
    ensures Run(c, n, [Flow(0, s)]).pending[0] == Plus(ZERO, CountsOf(s))
  {
    hide MustReport;
    hide Plus;
    assert [Flow(0, s)][..0] == [];
  }

  // With room for one more flow, a pending application always shows at least one flow.
  lemma {:induction false} PendingIsVisible(c: Config, n: nat, flows: seq<Flow>, app: nat)
    requires Fits(flows, n) && app < n && c.reportFlows < TWO_32 - 1
    ensures var x := Run(c, n, flows).pending[app]; x.flows == 0 ==> x == ZERO
  {
    hide Plus;
    hide CountsOf;
    hide MustReport;
    if flows != [] {
      var f, before := flows[|flows| - 1], flows[..|flows| - 1];
      PendingIsVisible(c, n, before, app);
      PendingWithinThresholds(c, n, before, f.app);
      FlowIsCounted(c, Run(c, n, before).pending[f.app], f.session);
    }
  }

  lemma FlowIsCounted(c: Config, x: Counts, s: Session)
    requires x.flows <= c.reportFlows < TWO_32 - 1
    ensures Plus(x, CountsOf(s)).flows == x.flows + 1
  {
  }

  lemma {:induction false} ReleasePrintsPending(st: State, n: nat, app: nat)
    requires n <= |st.pending| && app < |st.pending| && |st.lines| == |st.apps|
    ensures var t := Release(st, n);
      && |t.lines| == |t.apps|
      && Printed(t.lines, t.apps, app)
         == if app < n && st.pending[app].flows > 0 then Plus(Printed(st.lines, st.apps, app), st.pending[app])
            else Printed(st.lines, st.apps, app)
  {
    hide Plus;
    hide Printed;
    if n > 0 {
      var t := Release(st, n - 1);
      ReleasePrintsPending(st, n - 1, app);
      PrintedAppend(t.lines, t.apps, Line(0, st.pending[n - 1]), n - 1, app);
    }
  }

  // If whatever is pending shows in the flow counter, the release prints it.
  lemma ConservesIfVisible(c: Config, n: nat, flows: seq<Flow>)
    requires Fits(flows, n)
    requires forall app :: 0 <= app < n && Run(c, n, flows).pending[app].flows == 0 ==> Run(c, n, flows).pending[app] == ZERO
    ensures Conserves(c, n, flows)
  {
    hide Plus;
    hide Printed;
    hide Passed;
    hide Run;
    var st := Run(c, n, flows);
    LinesHaveApps(c, n, flows);
    forall app | 0 <= app < n
      ensures |Release(st, n).lines| == |Release(st, n).apps|
      ensures Printed(Release(st, n).lines, Release(st, n).apps, app) == Passed(flows, app)
    {
      PrintedPlusPending(c, n, flows, app);
      ReleasePrintsPending(st, n, app);
      PlusZero(Printed(st.lines, st.apps, app));
    }
  }

  lemma ConservesIfRoom(c: Config, n: nat, flows: seq<Flow>)
    requires Fits(flows, n) && c.reportFlows < TWO_32 - 1
    ensures Conserves(c, n, flows)
  {
    hide Conserves;
    hide Run;
    forall app | 0 <= app < n
      ensures Run(c, n, flows).pending[app].flows == 0 ==> Run(c, n, flows).pending[app] == ZERO
    {
      PendingIsVisible(c, n, flows, app);
    }
    ConservesIfVisible(c, n, flows);
  }

  lemma {:induction false} LinesHaveApps(c: Config, n: nat, flows: seq<Flow>)
    requires Fits(flows, n)
    ensures |Run(c, n, flows).lines| == |Run(c, n, flows).apps|
  {
    if flows != [] {
      LinesHaveApps(c, n, flows[..|flows| - 1]);
    }
  }

  // ----- when the flow counter comes round -----

  lemma RunExtend(c: Config, n: nat, flows: seq<Flow>, f: Flow)
    requires Fits(flows, n) && f.app < n
    ensures Run(c, n, flows + [f]) == Update(c, Run(c, n, flows), f.app, f.session)
    ensures Passed(flows + [f], f.app) == Plus(Passed(flows, f.app), CountsOf(f.session))
  {
    assert (flows + [f])[..|flows|] == flows;
  }

  // So many flows of application 0 have left nothing but x pending.
  ghost predicate Only(c: Config, n: nat, flows: seq<Flow>, x: Counts) {
    n > 0 && Fits(flows, n) && Run(c, n, flows) == State(Initial(n).pending[0 := x], [], []) && Passed(flows, 0) == x
  }

  lemma OnlyNext(c: Config, n: nat, flows: seq<Flow>, x: Counts, s: Session)
    requires Only(c, n, flows, x) && !MustReport(c, Plus(x, CountsOf(s)))
    ensures Only(c, n, flows + [Flow(0, s)], Plus(x, CountsOf(s)))
  {
    hide Plus;
    hide MustReport;
    hide Passed;
    hide Run;
    RunExtend(c, n, flows, Flow(0, s));
  }

  // What is pending with a flow counter of zero is never printed.
  lemma HiddenIsLost(c: Config, n: nat, flows: seq<Flow>, x: Counts)
    requires Only(c, n, flows, x) && x.flows == 0 && x != ZERO
    ensures !Conserves(c, n, flows)
  {
    hide Passed;
    hide Run;
    hide Release;
    ReleasePrintsPending(Run(c, n, flows), n, 0);
    assert Printed([], [], 0) == ZERO;
  }

  // Sessions of one packet whose bytes go round in steps: with a period of p the pending bytes are 0, 1, ..., p - 1, 0, ...
  function Round(p: nat, k: nat): (s: Session)
    requires 0 < p <= TWO_32
  {
    Session(0, 1, 0, if k % p == p - 1 then TWO_32 - (p - 1) else 1)
  }

  lemma AddSmall(a: u32, b: nat)
    requires a + b < TWO_32
    ensures b % TWO_32 == b && Add(a, b % TWO_32) == a + b
  {
  }

  lemma AddRound(a: u32, b: nat)
    requires a + b == TWO_32
    ensures Add(a, b % TWO_32) == 0
  {
  }

  lemma RoundBytes(p: nat, k: nat)
    requires 0 < p <= TWO_32
    ensures k % p < TWO_32 && Add(k % p, Round(p, k).ulBytes % TWO_32) == (k + 1) % p
  {
    hide Add;
    NextRemainder(k, p);
    assert k % p < p;
    if k % p == p - 1 {
      AddRound(k % p, TWO_32 - (p - 1));
    } else {
      AddSmall(k % p, 1);
    }
  }

  lemma RoundStep(c: Config, p: nat, k: nat)
    requires c.reportFlows == TWO_32 - 1 && 0 < p <= c.reportBytes + 1 && k < TWO_32 - 1
    ensures Plus(Counts(k, 0, k, 0, k % p), CountsOf(Round(p, k))) == Counts(k + 1, 0, k + 1, 0, (k + 1) % p)
    ensures !MustReport(c, Counts(k + 1, 0, k + 1, 0, (k + 1) % p))
  {
    hide Add;
    RoundBytes(p, k);
    AddSmall(k, 1);
    AddSmall(0, 0);
    assert (k + 1) % p <= c.reportBytes;
  }

  lemma NextRemainder(k: nat, p: nat)
    requires p > 0
    ensures (k + 1) % p == if k % p == p - 1 then 0 else k % p + 1
  {
    var q := k / p;
    assert k == p * q + k % p;
    if k % p == p - 1 {
      assert k + 1 == p * (q + 1) + 0;
      RemainderIs(k + 1, p, q + 1, 0);
    } else {
      RemainderIs(k + 1, p, q, k % p + 1);
    }
  }

  lemma RemainderIs(a: nat, p: nat, q: nat, r: nat)
    requires r < p && a == p * q + r
    ensures a % p == r
  {
    var d := a / p;
    assert a == p * d + a % p;
    if d < q {
      MultipleGrows(p, d, q);
    } else if d > q {
      MultipleGrows(p, q, d);
    }
  }

  lemma MultipleGrows(p: nat, a: nat, b: nat)
    requires a < b
    ensures p * a + p <= p * b
  {
    assert p * (a + 1) == p * a + p;
  }

  ghost function Rounds(p: nat, k: nat): (flows: seq<Flow>)
    requires 0 < p <= TWO_32
  {
    seq(k, i requires 0 <= i < k => Flow(0, Round(p, i)))
  }

  lemma {:induction false} AfterRounds(c: Config, n: nat, p: nat, k: nat)
    requires n > 0 && c.reportFlows == TWO_32 - 1 && 0 < p <= c.reportBytes + 1 && k < TWO_32
    ensures Only(c, n, Rounds(p, k), Counts(k, 0, k, 0, k % p))
  {
    hide Plus;
    hide CountsOf;
    hide MustReport;
    if k == 0 {
      assert Initial(n).pending[0 := ZERO] == Initial(n).pending;
    } else {
      hide Only;
      AfterRounds(c, n, p, k - 1);
      RoundStep(c, p, k - 1);
      OnlyNext(c, n, Rounds(p, k - 1), Counts(k - 1, 0, k - 1, 0, (k - 1) % p), Round(p, k - 1));
      assert Rounds(p, k - 1) + [Flow(0, Round(p, k - 1))] == Rounds(p, k);
    }
  }

  // After 2^32 - 1 such flows, one more brings the flow counter to zero while something is pending.
  lemma LastFlowHides(c: Config, n: nat, p: nat, last: Session) returns (flows: seq<Flow>)
    requires n > 0 && c.reportFlows == TWO_32 - 1 && 0 < p <= c.reportBytes + 1
    requires var x := Plus(Counts(TWO_32 - 1, 0, TWO_32 - 1, 0, (TWO_32 - 1) % p), CountsOf(last));
      x != ZERO && !MustReport(c, x)
    ensures flows == Rounds(p, TWO_32 - 1) + [Flow(0, last)] && Fits(flows, n) && !Conserves(c, n, flows)
  {
    hide MustReport;
    hide Only;
    var x := Counts(TWO_32 - 1, 0, TWO_32 - 1, 0, (TWO_32 - 1) % p);
    AfterRounds(c, n, p, TWO_32 - 1);
    OnlyNext(c, n, Rounds(p, TWO_32 - 1), x, last);
    flows := Rounds(p, TWO_32 - 1) + [Flow(0, last)];
    OnlyFits(c, n, flows, Plus(x, CountsOf(last)));
    HiddenIsLost(c, n, flows, Plus(x, CountsOf(last)));
  }

  lemma OnlyFits(c: Config, n: nat, flows: seq<Flow>, x: Counts)
    requires Only(c, n, flows, x)
    ensures Fits(flows, n)
  {
  }

  // For all sequences of sessions: what is passed in is printed if and only if the flow threshold leaves room for
  // one more flow.
  lemma ConservationExactly(c: Config, n: nat)
    requires n > 0
    ensures (forall flows :: Fits(flows, n) && AllWhole(flows) ==> Conserves(c, n, flows)) <==> c.reportFlows < TWO_32 - 1
  {
    hide Conserves;
    hide Run;
    if c.reportFlows < TWO_32 - 1 {
      forall flows | Fits(flows, n)
        ensures Conserves(c, n, flows)
      {
        ConservesIfRoom(c, n, flows);
      }
    } else {
      var flows := LastFlowHides(c, n, 1, Session(0, 2, 0, TWO_32));
      assert Fits(flows, n) && AllWhole(flows) && !Conserves(c, n, flows);
    }
  }

  // ----- only micro flows -----

  // What the callbacks pass in: sessions that are micro.
  ghost predicate AllMicro(c: Config, flows: seq<Flow>) {
    forall k :: 0 <= k < |flows| ==> Whole(flows[k].session) && IsMicro(c, flows[k].session)
  }

  // The settings with which micro flows can bring the flow counter round unnoticed: either by their packets, with
  // sessions whose bytes are a multiple of 2^32, or by their bytes, if the byte threshold of a micro flow is large
  // enough to step over the values that are reported. In both cases the last flow must also leave something behind.
  predicate CanLose(c: Config) {
    c.reportFlows == TWO_32 - 1
    && ((c.packetThreshold >= 1 && (c.packetThreshold >= 2 || c.reportBytes >= 1 || c.reportPackets >= 2))
        || (c.byteThreshold + c.reportBytes >= TWO_32 && (c.byteThreshold >= 2 || c.reportPackets >= 2)))
  }

  lemma RoundsAreMicro(c: Config, p: nat, k: nat)
    requires 0 < p <= TWO_32
    requires c.packetThreshold >= 1 || (c.byteThreshold >= 1 && c.byteThreshold + (p - 1) >= TWO_32)
    ensures AllMicro(c, Rounds(p, k))
  {
  }

  // The last flow, if micro flows are recognised by their packets.
  function LastByPackets(c: Config): (s: Session) {
    if c.packetThreshold >= 2 then Session(0, 2, 0, TWO_32)
    else if c.reportBytes >= 1 then Session(0, 1, 0, TWO_32 + 1)
    else Session(1, 0, TWO_32, 0)
  }

  lemma LastByPacketsHides(c: Config)
    requires c.reportFlows == TWO_32 - 1
    requires c.packetThreshold >= 1 && (c.packetThreshold >= 2 || c.reportBytes >= 1 || c.reportPackets >= 2)
    ensures var x := Plus(Counts(TWO_32 - 1, 0, TWO_32 - 1, 0, 0), CountsOf(LastByPackets(c)));
      x != ZERO && !MustReport(c, x)
    ensures Whole(LastByPackets(c)) && IsMicro(c, LastByPackets(c))
  {
  }

  lemma LosesByPackets(c: Config, n: nat) returns (flows: seq<Flow>)
    requires n > 0 && c.reportFlows == TWO_32 - 1
    requires c.packetThreshold >= 1 && (c.packetThreshold >= 2 || c.reportBytes >= 1 || c.reportPackets >= 2)
    ensures Fits(flows, n) && AllMicro(c, flows) && !Conserves(c, n, flows)
  {
    hide Conserves;
    hide Run;
    hide Plus;
    hide MustReport;
    hide LastByPackets;
    LastByPacketsHides(c);
    assert (TWO_32 - 1) % 1 == 0;
    flows := LastFlowHides(c, n, 1, LastByPackets(c));
    RoundsAreMicro(c, 1, TWO_32 - 1);
  }

  // The last flow, if they are recognised by their bytes; b is what is pending before it.
  function LastByBytes(c: Config, b: nat): (s: Session)
    requires b <= c.reportBytes
  {
    if b < c.reportBytes then Session(0, 1, 0, 1)
    else if c.byteThreshold == 1 then Session(1, 0, 1, 0)
    else if c.reportBytes < TWO_32 - 1 then Session(0, 2, 0, TWO_32 - b)
    else Session(0, 2, 0, 2)
  }

  lemma LastByBytesHides(c: Config, b: nat)
    requires c.reportFlows == TWO_32 - 1 && b <= c.reportBytes
    requires c.byteThreshold + c.reportBytes >= TWO_32 && (c.byteThreshold >= 2 || c.reportPackets >= 2)
    ensures var x := Plus(Counts(TWO_32 - 1, 0, TWO_32 - 1, 0, b), CountsOf(LastByBytes(c, b)));
      x != ZERO && !MustReport(c, x)
    ensures Whole(LastByBytes(c, b)) && IsMicro(c, LastByBytes(c, b))
  {
  }

  lemma LosesByBytes(c: Config, n: nat) returns (flows: seq<Flow>)
    requires n > 0 && c.reportFlows == TWO_32 - 1
    requires c.byteThreshold + c.reportBytes >= TWO_32 && (c.byteThreshold >= 2 || c.reportPackets >= 2)
    ensures Fits(flows, n) && AllMicro(c, flows) && !Conserves(c, n, flows)
  {
    hide Conserves;
    hide Run;
    hide Plus;
    hide MustReport;
    hide LastByBytes;
    var p := c.reportBytes + 1;
    var b := (TWO_32 - 1) % p;
    LastByBytesHides(c, b);
    flows := LastFlowHides(c, n, p, LastByBytes(c, b));
    RoundsAreMicro(c, p, TWO_32 - 1);
  }

  // What can be pending with the other settings, all of which keep the flow counter away from zero.
  predicate Harmless(c: Config, x: Counts) {
    if c.packetThreshold == 0 && c.byteThreshold + c.reportBytes < TWO_32 then
      x.flows <= x.dlBytes + x.ulBytes <= c.reportBytes && (x.flows == 0 ==> x == ZERO)
    else if c.packetThreshold == 0 then x == Counts(x.flows, 0, x.flows, 0, x.flows)
    else x == Counts(x.flows, 0, x.flows, 0, 0)
  }

  lemma HarmlessByBytes(c: Config, x: Counts, s: Session)
    requires c.packetThreshold == 0 && c.byteThreshold + c.reportBytes < TWO_32 && Harmless(c, x)
    requires Whole(s) && IsMicro(c, s)
    ensures var y := Plus(x, CountsOf(s)); !MustReport(c, y) ==> Harmless(c, y)
  {
    hide Add;
    assert 1 <= s.dlBytes + s.ulBytes <= c.byteThreshold;
    AddSmall(x.dlBytes, s.dlBytes);
    AddSmall(x.ulBytes, s.ulBytes);
    AddSmall(x.flows, 1);
  }

  lemma HarmlessOneByte(c: Config, x: Counts, s: Session)
    requires c.packetThreshold == 0 && c.byteThreshold == 1 && c.reportBytes == TWO_32 - 1 && c.reportPackets < 2
    requires Harmless(c, x) && Whole(s) && IsMicro(c, s)
    ensures var y := Plus(x, CountsOf(s)); !MustReport(c, y) ==> Harmless(c, y)
  {
  }

  lemma HarmlessOnePacket(c: Config, x: Counts, s: Session)
    requires c.packetThreshold == 1 && c.reportBytes == 0 && c.reportPackets < 2
    requires Harmless(c, x) && Whole(s) && IsMicro(c, s)
    ensures var y := Plus(x, CountsOf(s)); !MustReport(c, y) ==> Harmless(c, y)
  {
    hide Add;
    AddZero(s.dlPackets);
    AddZero(s.dlBytes);
    AddZero(s.ulBytes);
    if s.dlPackets + s.ulPackets == 1 {
      AddZero(0);
    } else {
      SmallSum(s.dlBytes, s.ulBytes);
    }
  }

  lemma AddZero(b: nat)
    ensures Add(0, b % TWO_32) == b % TWO_32
  {
  }

  lemma SmallSum(a: nat, b: nat)
    requires 0 < a + b < TWO_32
    ensures a % TWO_32 == a && b % TWO_32 == b && (a + b) % TWO_32 > 0
  {
  }

  lemma HarmlessStays(c: Config, x: Counts, s: Session)
    requires c.reportFlows == TWO_32 - 1 && !CanLose(c) && Harmless(c, x) && Whole(s) && IsMicro(c, s)
    ensures var y := Plus(x, CountsOf(s)); !MustReport(c, y) ==> Harmless(c, y)
  {
    hide Harmless;
    hide MustReport;
    hide Plus;
    hide IsMicro;
    hide Whole;
    if c.packetThreshold == 0 && c.byteThreshold + c.reportBytes < TWO_32 {
      HarmlessByBytes(c, x, s);
    } else if c.packetThreshold == 0 {
      HarmlessOneByte(c, x, s);
    } else {
      HarmlessOnePacket(c, x, s);
    }
  }

  lemma {:induction false} OnlyHarmless(c: Config, n: nat, flows: seq<Flow>, app: nat)
    requires c.reportFlows == TWO_32 - 1 && !CanLose(c) && Fits(flows, n) && AllMicro(c, flows) && app < n
    ensures Harmless(c, Run(c, n, flows).pending[app])
  {
    hide CanLose;
    hide MustReport;
    hide Plus;
    hide IsMicro;
    hide Whole;
    if flows != [] {
      var f := flows[|flows| - 1];
      OnlyHarmless(c, n, flows[..|flows| - 1], app);
      OnlyHarmless(c, n, flows[..|flows| - 1], f.app);
      hide Harmless;
      HarmlessStays(c, Run(c, n, flows[..|flows| - 1]).pending[f.app], f.session);
      HarmlessZero(c);
    } else {
      HarmlessZero(c);
    }
  }

  lemma HarmlessZero(c: Config)
    ensures Harmless(c, ZERO)
  {
  }

  // For all sequences of micro flows: what is passed in is printed if and only if the settings are not among these.
  lemma MicroConservationExactly(c: Config, n: nat)
    requires n > 0
    ensures (forall flows :: Fits(flows, n) && AllMicro(c, flows) ==> Conserves(c, n, flows)) <==> !CanLose(c)
  {
    hide Conserves;
    hide Run;
    hide AllMicro;
    hide Harmless;
    if c.reportFlows < TWO_32 - 1 {
      forall flows | Fits(flows, n)
        ensures Conserves(c, n, flows)
      {
        ConservesIfRoom(c, n, flows);
      }
    } else if CanLose(c) {
      var flows;
      if c.packetThreshold >= 1 && (c.packetThreshold >= 2 || c.reportBytes >= 1 || c.reportPackets >= 2) {
        flows := LosesByPackets(c, n);
      } else {
        flows := LosesByBytes(c, n);
      }
      assert Fits(flows, n) && AllMicro(c, flows) && !Conserves(c, n, flows);
    } else {
      forall flows | Fits(flows, n) && AllMicro(c, flows)
        ensures Conserves(c, n, flows)
      {
        forall app | 0 <= app < n
          ensures Run(c, n, flows).pending[app].flows == 0 ==> Run(c, n, flows).pending[app] == ZERO
        {
          OnlyHarmless(c, n, flows, app);
          if Run(c, n, flows).pending[app].flows == 0 {
            HarmlessShows(c, Run(c, n, flows).pending[app]);
          }
        }
        ConservesIfVisible(c, n, flows);
      }
    }
  }

  lemma HarmlessShows(c: Config, x: Counts)
    requires Harmless(c, x) && x.flows == 0
    ensures x == ZERO
  {
  }
}
