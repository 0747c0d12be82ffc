// The round-trip statistics that src/modules/dpi/report/session_report.c keeps between two reports, and what they
// say about the samples.

module RttStats {
  import opened Common
  import opened RttModel

  // ----- which numbers of a packet are tracked -----

  datatype Base = Sender | PreferSender | Captor

  // What the packet carries: timestamp value and echo, acknowledgement and sequence number, payload length.
  datatype TcpFields = TcpFields(tsVal: Option<u32>, tsEcr: Option<u32>, ackNb: Option<u32>, seqNb: Option<u32>, payload: Option<u32>)

  datatype Numbers = Numbers(seqNumber: u32, ackNumber: u32, dataLen: u32)

  function Choose(base: Base, f: TcpFields): (n: Numbers) {
    var seq0 := if base != Captor && f.tsVal.Some? then f.tsVal.value else 0;
    var ack0 := if base != Captor && f.tsEcr.Some? then (f.tsEcr.value + 1) % TWO_32 else 0;
    if base == Sender then Numbers(seq0, ack0, 0)
    else
      Numbers(
        if f.seqNb.Some? && (base == Captor || seq0 == 0) then f.seqNb.value else seq0,
        if f.ackNb.Some? && (base == Captor || ack0 == 0) then f.ackNb.value else ack0,
        if base == Captor && f.payload.Some? then f.payload.value else 0)
  }

  // Only packets with both numbers are tracked.
  predicate Tracked(n: Numbers) {
    n.ackNumber != 0 && n.seqNumber != 0
  }

  // A packet is tracked if and only if it has both timestamps, the first is not zero and the echo, plus one, does not wrap.
  lemma SenderModeTracks(f: TcpFields)
    ensures Tracked(Choose(Sender, f)) <==>
              f.tsVal.Some? && f.tsVal.value != 0 && f.tsEcr.Some? && f.tsEcr.value != TWO_32 - 1
  {
  }

  // When round trips are based on the sender's timestamps, a tracked packet acknowledges exactly the tracked
  // packets whose timestamp it echoes.
  lemma SenderModeMatchesEcho(data: TcpFields, ack: TcpFields, time: Time)
    requires Tracked(Choose(Sender, data)) && Tracked(Choose(Sender, ack))
    ensures data.tsVal.Some? && ack.tsEcr.Some?
    ensures var d, a := Choose(Sender, data), Choose(Sender, ack);
      Key(Segment(d.seqNumber, d.dataLen, time)) == a.ackNumber <==> data.tsVal.value == ack.tsEcr.value
  {
  }

  // The echo of the largest timestamp is never tracked, although a packet that carries that timestamp is.
  lemma WrappedEchoIsIgnored(data: TcpFields, ack: TcpFields)
    requires data.tsVal == Some(TWO_32 - 1) && data.tsEcr.Some? && data.tsEcr.value != TWO_32 - 1
    requires ack.tsEcr == data.tsVal
    ensures Tracked(Choose(Sender, data)) && !Tracked(Choose(Sender, ack))
  {
  }

  // Based on the captured packets, the numbers are those of the TCP header: a packet acknowledges exactly the segments
  // whose last byte and one more its acknowledgement number stands for.
  lemma CaptorModeMatchesSegment(data: TcpFields, ack: TcpFields, time: Time)
    requires data.seqNb.Some? && data.payload.Some? && data.payload.value < 0x1_0000 && ack.ackNb.Some?
    ensures var d, a := Choose(Captor, data), Choose(Captor, ack);
      && d.seqNumber == data.seqNb.value
      && (Key(Segment(d.seqNumber, d.dataLen, time)) == a.ackNumber <==>
            ack.ackNb.value == (data.seqNb.value + data.payload.value + 1) % TWO_32)
  {
  }

  lemma CaptorModeTracks(f: TcpFields)
    ensures Tracked(Choose(Captor, f)) <==>
              f.seqNb.Some? && f.seqNb.value != 0 && f.ackNb.Some? && f.ackNb.value != 0
  {
  }

  // The sender's timestamps are preferred, each for itself: the numbers of the TCP header stand in for a timestamp that
  // is missing or zero, and for an echo that is missing or wraps. The length of the segment is left out in any case, so
  // an acknowledgement number matches only segments without payload then.
  lemma PreferSenderFallsBack(f: TcpFields)
    ensures var n, s, c := Choose(PreferSender, f), Choose(Sender, f), Choose(Captor, f);
      && n.seqNumber == (if f.tsVal.Some? && f.tsVal.value != 0 then f.tsVal.value else if f.seqNb.Some? then f.seqNb.value else 0)
      && n.ackNumber == (if f.tsEcr.Some? && f.tsEcr.value != TWO_32 - 1 then f.tsEcr.value + 1
                         else if f.ackNb.Some? then f.ackNb.value else 0)
      && n.dataLen == 0
      && (Tracked(s) ==> n == s)
      && (f.tsVal == None && f.tsEcr == None ==> n == c.(dataLen := 0))
  {
  }

  // ----- the statistics of one direction -----

  datatype Stat = Stat(sum: u64, max: u64, min: u64, counter: u64)

  const NO_STAT := Stat(0, 0, 0, 0)

  // One acknowledgement: counter segments, each with the interval usec.
  datatype Sample = Sample(usec: u64, counter: u32)

  function Update(s: Stat, x: Sample): (t: Stat) {
    if x.counter == 0 then s
    else
      Stat((s.sum + x.usec * x.counter) % TWO_64,
           if s.max < x.usec then x.usec else s.max,
           if s.min == 0 || s.min > x.usec then x.usec else s.min,
           (s.counter + x.counter) % TWO_64)
  }

  // What is left in the structure after a history of samples that began with a report.
  function After(xs: seq<Sample>): (s: Stat) {
    if xs == [] then NO_STAT else Update(After(xs[..|xs| - 1]), xs[|xs| - 1])
  }

  function Average(s: Stat): (a: nat) {
    if s.counter == 0 then 0 else s.sum / s.counter
  }

  /** The four arrays of the structure, updated in place. */
  class SessionRtt {
    const sum: array<u64>
    const max: array<u64>
    const min: array<u64>
    const counter: array<u64>

    ghost predicate Valid() {
      && sum.Length == 2 && max.Length == 2 && min.Length == 2 && counter.Length == 2
      && sum != max && sum != min && sum != counter && max != min && max != counter && min != counter
    }

    ghost function Of(d: nat): (s: Stat)
      requires Valid() && d < 2
      reads sum, max, min, counter
    {
      Stat(sum[d], max[d], min[d], counter[d])
    }

    constructor ()
      ensures Valid() && Of(0) == Of(1) == NO_STAT
      ensures fresh(sum) && fresh(max) && fresh(min) && fresh(counter)
    {
      sum, max := new u64[2](_ => 0), new u64[2](_ => 0);
      min, counter := new u64[2](_ => 0), new u64[2](_ => 0);
    }

    // A packet of direction dir has acknowledged n segments of the other direction.
    method Record(dir: nat, n: u32, usec: u64)
      requires Valid() && dir < 2
      modifies sum, max, min, counter
      ensures Of(Other(dir)) == Update(old(Of(Other(dir))), Sample(usec, n))
      ensures Of(dir) == old(Of(dir))
    {
      if n != 0 {
        var d := if dir == 0 then 1 else 0;
        counter[d] := (counter[d] + n) % TWO_64;
        sum[d] := (sum[d] + usec * n) % TWO_64;
        if max[d] < usec {
          max[d] := usec;
        }
        if min[d] == 0 || min[d] > usec {
          min[d] := usec;
        }
      }
    }

    // After a report has been printed.
    method Reset()
      requires Valid()
      modifies sum, max, min, counter
      ensures Of(0) == Of(1) == NO_STAT
    {
      min[0], min[1] := 0, 0;
      max[0], max[1] := 0, 0;
      sum[0], sum[1] := 0, 0;
      counter[0], counter[1] := 0, 0;
    }
  }

  // ----- what the statistics mean -----

  ghost predicate Effective(xs: seq<Sample>) {
    forall k :: 0 <= k < |xs| ==> xs[k].counter > 0
  }

  function Count(xs: seq<Sample>): (n: nat) {
    if xs == [] then 0 else Count(xs[..|xs| - 1]) + xs[|xs| - 1].counter
  }

  function Weight(xs: seq<Sample>): (n: nat) {
    if xs == [] then 0 else Weight(xs[..|xs| - 1]) + xs[|xs| - 1].usec * xs[|xs| - 1].counter
  }

  ghost predicate IsMaximum(m: nat, xs: seq<Sample>) {
    (forall k :: 0 <= k < |xs| ==> xs[k].usec <= m) && exists k :: 0 <= k < |xs| && xs[k].usec == m
  }

  ghost predicate IsMinimum(m: nat, xs: seq<Sample>) {
    (forall k :: 0 <= k < |xs| ==> m <= xs[k].usec) && exists k :: 0 <= k < |xs| && xs[k].usec == m
  }

  lemma AddRemainder(a: nat, b: nat)
    ensures (a % TWO_64 + b) % TWO_64 == (a + b) % TWO_64
  {
    var q := a / TWO_64;
    assert a + b == (a % TWO_64 + b) + TWO_64 * q;
  }

  lemma UpdateModulo(s: Stat, x: Sample, c: nat, w: nat, added: nat)
    requires s.counter == c % TWO_64 && s.sum == w % TWO_64 && added == x.usec * x.counter
    ensures Update(s, x).counter == (c + x.counter) % TWO_64 && Update(s, x).sum == (w + added) % TWO_64
  {
    AddRemainder(c, x.counter);
    AddRemainder(w, added);
  }

  // For all histories, counter and sum are the weighted count and the weighted sum, modulo 2^64.
  lemma {:induction false} CountAndSumExact(xs: seq<Sample>)
    ensures After(xs).counter == Count(xs) % TWO_64 && After(xs).sum == Weight(xs) % TWO_64
  {
    hide Update;
    if xs != [] {
      var before, x := xs[..|xs| - 1], xs[|xs| - 1];
      CountAndSumExact(before);
      UpdateModulo(After(before), x, Count(before), Weight(before), x.usec * x.counter);
    }
  }

  // max is the largest interval.
  lemma {:induction false} MaxExact(xs: seq<Sample>)
    requires xs != [] && Effective(xs)
    ensures IsMaximum(After(xs).max, xs)
  {
    var n := |xs| - 1;
    assert forall j :: 0 <= j < n ==> xs[j] == xs[..n][j];
    if n == 0 {
      assert xs[..0] == [];
    } else {
      MaxExact(xs[..n]);
      var k :| 0 <= k < n && xs[..n][k].usec == After(xs[..n]).max;
      assert xs[k].usec == After(xs[..n]).max;
    }
  }

  lemma {:induction false} MinOfPositive(xs: seq<Sample>)
    requires xs != [] && Effective(xs) && forall k :: 0 <= k < |xs| ==> xs[k].usec > 0
    ensures IsMinimum(After(xs).min, xs)
  {
    var n := |xs| - 1;
    assert forall j :: 0 <= j < n ==> xs[j] == xs[..n][j];
    if n == 0 {
      assert xs[..0] == [];
    } else {
      MinOfPositive(xs[..n]);
      var k :| 0 <= k < n && xs[..n][k].usec == After(xs[..n]).min;
      assert xs[k].usec == After(xs[..n]).min;
    }
  }

  // min doubles as the mark "no sample yet", so a zero interval is forgotten by the next sample:
  // min is the smallest interval if and only if no interval was zero or the last one was.
  lemma MinExactly(xs: seq<Sample>)
    requires xs != [] && Effective(xs)
    ensures IsMinimum(After(xs).min, xs) <==>
            ((exists k :: 0 <= k < |xs| && xs[k].usec == 0) ==> xs[|xs| - 1].usec == 0)
  {
    assert After(xs) == Update(After(xs[..|xs| - 1]), xs[|xs| - 1]);
    hide After;
    if forall k :: 0 <= k < |xs| ==> xs[k].usec > 0 {
      MinOfPositive(xs);
    } else if xs[|xs| - 1].usec == 0 {
      assert After(xs).min == 0;
    } else {
      assert After(xs).min > 0;
    }
  }

  lemma MulMonotone(a: nat, b: nat, n: nat)
    requires a <= b
    ensures a * n <= b * n
  {
  }

  lemma MulCancel(a: nat, b: nat, n: nat)
    requires a * n < b * n
    ensures a < b
  {
    if b <= a {
      MulMonotone(b, a, n);
    }
  }

  lemma Distribute(a: nat, m: nat, n: nat)
    ensures a * (m + n) == a * m + a * n
  {
  }

  lemma {:induction false} WeightBetween(xs: seq<Sample>, low: nat, high: nat)
    requires forall k :: 0 <= k < |xs| ==> low <= xs[k].usec <= high
    ensures low * Count(xs) <= Weight(xs) <= high * Count(xs)
  {
    if xs != [] {
      var before, x := xs[..|xs| - 1], xs[|xs| - 1];
      WeightBetween(before, low, high);
      MulMonotone(low, x.usec, x.counter);
      MulMonotone(x.usec, high, x.counter);
      Distribute(low, Count(before), x.counter);
      Distribute(high, Count(before), x.counter);
    }
  }

  lemma DivideBetween(low: nat, w: nat, high: nat, n: nat)
    requires n > 0 && low * n <= w <= high * n
    ensures low <= w / n <= high
  {
    var q := w / n;
    assert q * n <= w < q * n + n == (q + 1) * n;
    assert (high + 1) * n == high * n + n;
    MulCancel(low, q + 1, n);
    MulCancel(q, high + 1, n);
  }

  // Hence the reported integer average lies between the reported minimum and maximum.
  lemma AverageBetween(xs: seq<Sample>)
    requires xs != [] && Effective(xs) && Count(xs) < TWO_64 && Weight(xs) < TWO_64
    requires forall k :: 0 <= k < |xs| ==> xs[k].usec > 0
    ensures After(xs).min <= Average(After(xs)) <= After(xs).max
  {
    hide Count;
    hide Weight;
    hide After;
    CountAndSumExact(xs);
    MaxExact(xs);
    MinOfPositive(xs);
    WeightBetween(xs, After(xs).min, After(xs).max);
    CountPositive(xs);
    assert After(xs).counter == Count(xs) && After(xs).sum == Weight(xs);
    DivideBetween(After(xs).min, Weight(xs), After(xs).max, Count(xs));
  }

  // The average is the integer part of the weighted mean.
  lemma AverageExactly(xs: seq<Sample>)
    requires xs != [] && Effective(xs) && Count(xs) < TWO_64 && Weight(xs) < TWO_64
    ensures Average(After(xs)) * Count(xs) <= Weight(xs) < (Average(After(xs)) + 1) * Count(xs)
  {
    hide Count;
    hide Weight;
    hide After;
    CountAndSumExact(xs);
    CountPositive(xs);
    assert After(xs).counter == Count(xs) && After(xs).sum == Weight(xs);
    Quotient(Weight(xs), Count(xs));
  }

  // Without any sample there is nothing to report.
  lemma NothingToReport()
    ensures After([]) == Stat(0, 0, 0, 0) && Average(After([])) == 0
  {
  }

  lemma Quotient(w: nat, n: nat)
    requires n > 0
    ensures (w / n) * n <= w < (w / n + 1) * n
  {
    Distribute(n, w / n, 1);
  }

  lemma CountPositive(xs: seq<Sample>)
    requires xs != [] && Effective(xs)
    ensures Count(xs) > 0
  {
  }
}
