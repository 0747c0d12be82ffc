// What the round-trip lists guarantee over whole runs, and what an acknowledgement removes.

module RttProperties {
  import opened Common
  import opened RttModel

  // Strictly descending expected acknowledgement numbers, as 32-bit numbers.
  ghost predicate Descending(l: seq<Segment>) {
    forall j, k :: 0 <= j < k < |l| ==> Key(l[j]) > Key(l[k])
  }

  // A list as a finite map from expected acknowledgement number to segment.
  ghost function MapOf(l: seq<Segment>): (m: map<u32, Segment>)
    ensures forall key :: key in m <==> exists k :: 0 <= k < |l| && Key(l[k]) == key
    ensures Descending(l) ==> forall k :: 0 <= k < |l| ==> m[Key(l[k])] == l[k]
  {
    map key: u32 | key in (set k | 0 <= k < |l| :: Key(l[k])) :: l[Match(l, key)]
  }

  lemma InsertKeepsOrder(l: seq<Segment>, s: Segment)
    requires Descending(l)
    ensures Descending(Insert(l, s))
    ensures |Insert(l, s)| == |l| + (if exists k :: 0 <= k < |l| && Key(l[k]) == Key(s) then 0 else 1)
  {
    var i := Position(l, Key(s));
    hide Position;
    if i < |l| {
      assert forall k :: i < k < |l| ==> Key(l[k]) < Key(l[i]);
    }
  }

  lemma MapIs(l: seq<Segment>, m: map<u32, Segment>)
    requires Descending(l)
    requires forall key :: key in m ==> exists k :: 0 <= k < |l| && Key(l[k]) == key
    requires forall k :: 0 <= k < |l| ==> Key(l[k]) in m && m[Key(l[k])] == l[k]
    ensures MapOf(l) == m
  {
    forall key
      ensures key in MapOf(l) <==> key in m
      ensures key in m ==> MapOf(l)[key] == m[key]
    {
      if key in m {
        var k :| 0 <= k < |l| && Key(l[k]) == key;
        assert MapOf(l)[Key(l[k])] == l[k] == m[Key(l[k])];
      }
    }
  }

  function Stored(m: map<u32, Segment>, s: Segment): (r: map<u32, Segment>) {
    m[Key(s) := if Key(s) in m then m[Key(s)].(time := Later(m[Key(s)].time, s.time)) else s]
  }

  // Storing a segment adds its key, or keeps the later time of the segment already there.
  lemma InsertUpdatesMap(l: seq<Segment>, s: Segment)
    requires Descending(l)
    ensures MapOf(Insert(l, s)) == Stored(MapOf(l), s)
  {
    hide MapOf;
    hide Insert;
    hide Stored;
    hide Descending;
    InsertKeepsOrder(l, s);
    var r, m := Insert(l, s), Stored(MapOf(l), s);
    forall k | 0 <= k < |r|
      ensures Key(r[k]) in m && m[Key(r[k])] == r[k]
    {
      InsertedElement(l, s, k);
    }
    forall key | key in m
      ensures exists k :: 0 <= k < |r| && Key(r[k]) == key
    {
      StoredKey(l, s, key);
    }
    MapIs(r, m);
  }

  lemma StoredKey(l: seq<Segment>, s: Segment, key: u32)
    requires key in Stored(MapOf(l), s)
    ensures exists k :: 0 <= k < |Insert(l, s)| && Key(Insert(l, s)[k]) == key
  {
    hide MapOf;
    hide Position;
    var i, r := Position(l, Key(s)), Insert(l, s);
    if key == Key(s) {
      assert r[i] == s || Key(r[i]) == Key(l[i]) == Key(s);
    } else {
      assert key in MapOf(l);
      var j :| 0 <= j < |l| && Key(l[j]) == key;
      if |r| == |l| || j < i {
        assert Key(r[j]) == Key(l[j]);
      } else {
        assert r[j + 1] == l[j];
      }
    }
  }

  lemma KeyStored(l: seq<Segment>, s: Segment)
    requires Descending(l)
    ensures var i := Position(l, Key(s));
      Key(s) in MapOf(l) <==> i < |l| && Key(l[i]) == Key(s)
  {
    hide Position;
    hide MapOf;
    var i := Position(l, Key(s));
    assert i < |l| ==> forall k :: i < k < |l| ==> Key(l[k]) < Key(l[i]);
  }

  lemma InsertedElement(l: seq<Segment>, s: Segment, k: nat)
    requires Descending(l) && k < |Insert(l, s)|
    ensures var r, m := Insert(l, s), Stored(MapOf(l), s);
      Key(r[k]) in m && m[Key(r[k])] == r[k]
  {
    hide MapOf;
    hide Position;
    hide Descending;
    KeyStored(l, s);
    var i, r := Position(l, Key(s)), Insert(l, s);
    if |r| == |l| && k == i {
      assert Key(r[i]) == Key(s);
    } else {
      var j := if |r| == |l| || k < i then k else k - 1;
      if |r| > |l| && k == i {
        assert r[k] == s;
      } else {
        assert r[k] == l[j] && (j < i || |r| > |l| || j > i);
        DifferentKey(l, s, j);
      }
    }
  }

  lemma DifferentKey(l: seq<Segment>, s: Segment, j: nat)
    requires Descending(l) && j < |l|
    requires var i := Position(l, Key(s)); j != i || Key(l[i]) != Key(s)
    ensures Key(l[j]) != Key(s)
  {
    hide Key;
    var i := Position(l, Key(s));
    assert j > i ==> Key(l[j]) < Key(l[i]);
  }

  // The moment a time stands for, in microseconds.
  function Moment(t: Time): (m: int) {
    t.sec * 1000000 + t.usec
  }

  predicate Before(a: Time, b: Time) {
    a.sec < b.sec || (a.sec == b.sec && a.usec < b.usec)
  }

  // What is stored for a segment: the segment itself, or the one already there with one of both times, and with none
  // of them that is later. Whatever else is stored stays as it is.
  lemma InsertKeepsLaterTime(l: seq<Segment>, s: Segment)
    requires Descending(l)
    ensures var m, r := MapOf(l), MapOf(Insert(l, s));
      && r.Keys == m.Keys + {Key(s)} && (forall key :: key in m && key != Key(s) ==> r[key] == m[key])
      && (Key(s) !in m ==> r[Key(s)] == s)
      && (Key(s) in m ==>
            && r[Key(s)] == m[Key(s)].(time := r[Key(s)].time)
            && (r[Key(s)].time == s.time || r[Key(s)].time == m[Key(s)].time)
            && !Before(r[Key(s)].time, s.time) && !Before(r[Key(s)].time, m[Key(s)].time))
  {
    hide MapOf;
    hide Insert;
    hide Descending;
    hide Key;
    InsertUpdatesMap(l, s);
  }

  lemma MatchIsUnique(l: seq<Segment>, s: Segment)
    requires Descending(l) && s in l
    ensures var i := Match(l, Key(s)); i < |l| && l[i] == s
  {
    hide Match;
    var k :| 0 <= k < |l| && l[k] == s;
    var i := Match(l, Key(s));
    assert i <= k;
    SameKey(l, i, k);
  }

  lemma SameKey(l: seq<Segment>, i: nat, k: nat)
    requires Descending(l) && i < |l| && k < |l| && Key(l[i]) == Key(l[k])
    ensures i == k
  {
  }

  // The interval that a packet yields: added to the moment of the segment it acknowledges, it gives the moment of the
  // packet, in 64 bits, and exactly if the segment is not later and the interval fits.
  lemma IntervalExactly(r: Rtt, p: Packet, usec: u64, s: Segment)
    requires |r.lists| == 2 && p.direction < 2 && p.ack != 0
    requires Descending(r.lists[1 - p.direction]) && s in r.lists[1 - p.direction] && Key(s) == p.ack
    ensures var interval := AddPacket(r, p, usec).2;
      && (Moment(s.time) + interval) % TWO_64 == Moment(p.segment.time) % TWO_64
      && (0 <= Moment(p.segment.time) - Moment(s.time) < TWO_64 ==> Moment(s.time) + interval == Moment(p.segment.time))
  {
    hide Match;
    hide Descending;
    hide Acknowledge;
    hide AckCount;
    hide Insert;
    MatchIsUnique(r.lists[1 - p.direction], s);
    Difference(Moment(p.segment.time), Moment(s.time));
    SameDifference(p.segment.time, s.time);
  }

  lemma SameDifference(end: Time, start: Time)
    ensures (end.sec - start.sec) * 1000000 + (end.usec - start.usec) == Moment(end) - Moment(start)
  {
  }

  lemma Difference(a: int, b: int)
    ensures (b + (a - b) % TWO_64) % TWO_64 == a % TWO_64
  {
    var q := (a - b) / TWO_64;
    assert a - b == q * TWO_64 + (a - b) % TWO_64;
    assert a == (b + (a - b) % TWO_64) + q * TWO_64;
    ModuloStep(b + (a - b) % TWO_64, q);
  }

  lemma ModuloStep(x: int, q: int)
    ensures (x + q * TWO_64) % TWO_64 == x % TWO_64
  {
  }

  // A packet that acknowledges nothing leaves the variable of its caller and the other direction alone.
  lemma NoInterval(r: Rtt, p: Packet, usec: u64)
    requires |r.lists| == 2 && p.direction < 2
    requires p.ack == 0 || forall s :: s in r.lists[1 - p.direction] ==> Key(s) != p.ack
    ensures var x := AddPacket(r, p, usec);
      x.1 == 0 && x.2 == usec && x.0.lists[1 - p.direction] == r.lists[1 - p.direction]
  {
    hide Insert;
    hide Match;
    hide Key;
    hide Microseconds;
    hide Acknowledge;
    hide AckCount;
    if p.ack != 0 {
      NothingMatches(r.lists[1 - p.direction], p.ack);
    }
  }

  lemma NothingMatches(l: seq<Segment>, ack: u32)
    requires forall s :: s in l ==> Key(s) != ack
    ensures Match(l, ack) == |l| && AckCount(l, ack) == 0 && Acknowledge(l, ack) == l
  {
    hide Key;
    NoMatch(l, ack);
    assert l[..|l|] + l[|l|..] == l;
  }

  lemma {:induction false} NoMatch(l: seq<Segment>, ack: u32)
    requires forall s :: s in l ==> Key(s) != ack
    ensures Match(l, ack) == |l|
  {
    hide Key;
    if l != [] {
      assert l[0] in l;
      NoMatch(l[1..], ack);
    }
  }

  lemma AcknowledgeKeepsOrder(l: seq<Segment>, ack: u32)
    requires Descending(l)
    ensures Descending(Acknowledge(l, ack))
    ensures |Acknowledge(l, ack)| + AckCount(l, ack) == |l|
  {
  }

  // ----- what one acknowledgement removes -----

  // From position i on, each of n elements is expected by the sequence number of the one before it.
  ghost predicate IsChain(l: seq<Segment>, i: nat, n: nat) {
    i + n <= |l| && forall k :: i < k < i + n ==> Key(l[k]) == l[k - 1].seqNumber
  }

  // The removed run starts at the element that expects ack, is a chain, and is the longest one there.
  lemma {:induction false} RunIsLongestChain(l: seq<Segment>, i: nat, ack: u32)
    requires i < |l| && Key(l[i]) == ack
    ensures var n := RunLength(l, i, ack);
      && n > 0 && IsChain(l, i, n)
      && (forall m: nat :: IsChain(l, i, m) && m > 0 ==> m <= n)
    decreases |l| - i
  {
    hide Key;
    var n := RunLength(l, i, ack);
    if n > 1 {
      RunIsLongestChain(l, i + 1, l[i].seqNumber);
      assert IsChain(l, i + 1, n - 1);
    }
    forall m: nat | IsChain(l, i, m) && m > 0
      ensures m <= n
    {
      if m > 1 {
        assert Key(l[i + 1]) == l[i].seqNumber;
        assert IsChain(l, i + 1, m - 1);
      }
    }
  }

  // The keys of the run.
  ghost function RemovedKeys(l: seq<Segment>, ack: u32): (r: set<u32>)
    ensures forall key :: key in r <==> InRun(l, ack, key)
  {
    set k | Match(l, ack) <= k < Match(l, ack) + AckCount(l, ack) :: Key(l[k])
  }

  ghost predicate InRun(l: seq<Segment>, ack: u32, key: u32) {
    exists k :: Match(l, ack) <= k < Match(l, ack) + AckCount(l, ack) && Key(l[k]) == key
  }

  // Exactly the keys of the run leave the map; nothing else changes.
  lemma AcknowledgeRemovesRun(l: seq<Segment>, ack: u32)
    requires Descending(l)
    ensures MapOf(Acknowledge(l, ack)) == MapOf(l) - RemovedKeys(l, ack)
  {
    hide MapOf;
    hide RemovedKeys;
    hide InRun;
    hide Acknowledge;
    hide Key;
    hide Descending;
    var r, m := Acknowledge(l, ack), MapOf(l) - RemovedKeys(l, ack);
    AcknowledgeKeepsOrder(l, ack);
    forall k | 0 <= k < |r|
      ensures Key(r[k]) in m && m[Key(r[k])] == r[k]
    {
      KeptElement(l, ack, k);
    }
    forall key | key in m
      ensures exists k :: 0 <= k < |r| && Key(r[k]) == key
    {
      KeptKey(l, ack, key);
    }
    MapIs(r, m);
  }

  lemma KeptElement(l: seq<Segment>, ack: u32, k: nat)
    requires Descending(l) && k < |Acknowledge(l, ack)|
    ensures var key := Key(Acknowledge(l, ack)[k]);
      key in MapOf(l) && !InRun(l, ack, key) && MapOf(l)[key] == Acknowledge(l, ack)[k]
  {
    hide MapOf;
    hide Match;
    hide RunLength;
    hide Key;
    var i, n := Match(l, ack), AckCount(l, ack);
    var j := if k < i then k else k + n;
    assert Acknowledge(l, ack)[k] == l[j];
  }

  lemma KeptKey(l: seq<Segment>, ack: u32, key: u32)
    requires key in MapOf(l) && !InRun(l, ack, key)
    ensures exists k :: 0 <= k < |Acknowledge(l, ack)| && Key(Acknowledge(l, ack)[k]) == key
  {
    hide MapOf;
    hide Match;
    hide RunLength;
    hide Key;
    var i, n := Match(l, ack), AckCount(l, ack);
    var j :| 0 <= j < |l| && Key(l[j]) == key;
    assert Acknowledge(l, ack)[if j < i then j else j - n] == l[j];
  }

  // ----- the run as reachability -----

  // No stored segment runs past 2^32, and no two of them overlap.
  ghost predicate Disjoint(l: seq<Segment>) {
    && (forall k :: 0 <= k < |l| ==> l[k].seqNumber < Key(l[k]))
    && (forall j, k :: 0 <= j < k < |l| ==> l[j].seqNumber >= Key(l[k]))
  }

  // A path of links in the map, from the element that expects ack to the one that expects the last key.
  ghost predicate Path(m: map<u32, Segment>, ack: u32, path: seq<u32>) {
    && path != [] && path[0] == ack
    && (forall k :: 0 <= k < |path| ==> path[k] in m)
    && (forall k :: 0 < k < |path| ==> path[k] == m[path[k - 1]].seqNumber)
  }

  ghost predicate Reachable(m: map<u32, Segment>, ack: u32, key: u32) {
    exists path :: Path(m, ack, path) && path[|path| - 1] == key
  }

  // The last element the run removes.
  function LastRemoved(l: seq<Segment>, ack: u32): (s: Segment)
    requires Match(l, ack) < |l|
  {
    l[Match(l, ack) + AckCount(l, ack) - 1]
  }

  lemma StepReachable(m: map<u32, Segment>, ack: u32, from: u32, to: u32)
    requires Reachable(m, ack, from) && from in m && to == m[from].seqNumber && to in m
    ensures Reachable(m, ack, to)
  {
    var path :| Path(m, ack, path) && path[|path| - 1] == from;
    var longer := path + [to];
    assert Path(m, ack, longer) && longer[|longer| - 1] == to;
  }

  // Everything removed is reachable.
  lemma {:induction false} RunIsReachable(l: seq<Segment>, ack: u32, k: nat)
    requires Descending(l) && Match(l, ack) <= k < Match(l, ack) + AckCount(l, ack)
    ensures Reachable(MapOf(l), ack, Key(l[k]))
  {
    hide Key;
    hide MapOf;
    hide Match;
    hide RunLength;
    if k == Match(l, ack) {
      assert Path(MapOf(l), ack, [ack]);
    } else {
      RunIsReachable(l, ack, k - 1);
      RunIsLongestChain(l, Match(l, ack), ack);
      StepReachable(MapOf(l), ack, Key(l[k - 1]), Key(l[k]));
    }
  }

  // A path never leaves the run, unless from its last element to a key that is stored elsewhere.
  lemma {:induction false} PathStaysInRun(l: seq<Segment>, ack: u32, path: seq<u32>)
    requires Descending(l) && Path(MapOf(l), ack, path) && Match(l, ack) < |l|
    requires var next := LastRemoved(l, ack).seqNumber; next in MapOf(l) ==> InRun(l, ack, next)
    ensures InRun(l, ack, path[|path| - 1])
  {
    hide Key;
    hide MapOf;
    hide Match;
    hide RunLength;
    var i, n := Match(l, ack), |path| - 1;
    if n == 0 {
      assert Key(l[i]) == ack;
    } else {
      PathStaysInRun(l, ack, path[..n]);
      var k :| i <= k < i + AckCount(l, ack) && Key(l[k]) == path[n - 1];
      assert path[n] == l[k].seqNumber;
      if k + 1 < i + AckCount(l, ack) {
        RunIsLongestChain(l, i, ack);
        assert Key(l[k + 1]) == path[n];
      }
    }
  }

  // The removed keys are exactly the reachable ones if and only if the last removed segment does not
  // start where another stored segment, one that was not removed, ends.
  lemma RunIsReachableSetExactly(l: seq<Segment>, ack: u32)
    requires Descending(l) && Match(l, ack) < |l|
    ensures (forall key :: InRun(l, ack, key) <==> Reachable(MapOf(l), ack, key))
       <==> (var next := LastRemoved(l, ack).seqNumber; next in MapOf(l) ==> InRun(l, ack, next))
  {
    hide Key;
    hide MapOf;
    hide Match;
    hide RunLength;
    var i, n := Match(l, ack), AckCount(l, ack);
    var next := LastRemoved(l, ack).seqNumber;
    forall key | InRun(l, ack, key)
      ensures Reachable(MapOf(l), ack, key)
    {
      var k :| i <= k < i + n && Key(l[k]) == key;
      RunIsReachable(l, ack, k);
    }
    if next in MapOf(l) {
      RunIsReachable(l, ack, i + n - 1);
      StepReachable(MapOf(l), ack, Key(l[i + n - 1]), next);
    }
    if next in MapOf(l) ==> InRun(l, ack, next) {
      forall key | Reachable(MapOf(l), ack, key)
        ensures InRun(l, ack, key)
      {
        var path :| Path(MapOf(l), ack, path) && path[|path| - 1] == key;
        PathStaysInRun(l, ack, path);
      }
    }
  }

  // Without wrapping or overlapping segments an acknowledgement removes exactly what is reachable.
  lemma RunIsReachableSet(l: seq<Segment>, ack: u32, key: u32)
    requires Descending(l) && Disjoint(l) && Match(l, ack) < |l|
    ensures InRun(l, ack, key) <==> Reachable(MapOf(l), ack, key)
  {
    hide Key;
    hide Match;
    hide RunLength;
    hide Descending;
    hide Disjoint;
    NothingEndsWhereRunStarts(l, ack);
    RunIsReachableSetExactly(l, ack);
  }

  lemma NothingEndsWhereRunStarts(l: seq<Segment>, ack: u32)
    requires Descending(l) && Disjoint(l) && Match(l, ack) < |l|
    ensures LastRemoved(l, ack).seqNumber !in MapOf(l)
  {
    hide Key;
    hide Match;
    hide RunLength;
    hide Descending;
    hide Disjoint;
    hide MapOf;
    var last := Match(l, ack) + AckCount(l, ack) - 1;
    RunStops(l, Match(l, ack), ack);
    forall j | 0 <= j < |l|
      ensures Key(l[j]) != l[last].seqNumber
    {
      NotWhereItStarts(l, j, last);
    }
    NotAKey(l, l[last].seqNumber);
  }

  lemma NotAKey(l: seq<Segment>, key: u32)
    requires forall j :: 0 <= j < |l| ==> Key(l[j]) != key
    ensures key !in MapOf(l)
  {
  }

  lemma NotWhereItStarts(l: seq<Segment>, j: nat, last: nat)
    requires Descending(l) && Disjoint(l) && j < |l| && last < |l|
    requires last + 1 < |l| ==> Key(l[last + 1]) != l[last].seqNumber
    ensures Key(l[j]) != l[last].seqNumber
  {
    hide Key;
    if j <= last {
      assert Key(l[j]) >= Key(l[last]);
    } else {
      assert l[last].seqNumber >= Key(l[last + 1]) && (j > last + 1 ==> Key(l[last + 1]) > Key(l[j]));
    }
  }

  lemma {:induction false} RunStops(l: seq<Segment>, i: nat, ack: u32)
    requires i < |l| && Key(l[i]) == ack
    ensures var n := RunLength(l, i, ack); i + n < |l| ==> Key(l[i + n]) != l[i + n - 1].seqNumber
    decreases |l| - i
  {
    hide Key;
    if RunLength(l, i, ack) > 1 {
      RunStops(l, i + 1, l[i].seqNumber);
    }
  }

  // With overlapping segments it may remove less: the segment in between breaks the run.
  lemma OverlapCutsRun()
    ensures var l := [Segment(10, 19, Time(0, 0)), Segment(15, 4, Time(0, 0)), Segment(5, 4, Time(0, 0))];
      && Descending(l) && AckCount(l, 30) == 1
      && Reachable(MapOf(l), 30, 10) && !InRun(l, 30, 10)
  {
    var l := [Segment(10, 19, Time(0, 0)), Segment(15, 4, Time(0, 0)), Segment(5, 4, Time(0, 0))];
    assert Key(l[0]) == 30 && Key(l[1]) == 20 && Key(l[2]) == 10;
    hide Key;
    hide MapOf;
    assert Match(l, 30) == 0 && RunLength(l, 1, 10) == 0;
    assert Path(MapOf(l), 30, [30, 10]);
  }

  // ----- whole runs -----

  function Empty(): Rtt {
    Rtt([[], []])
  }

  ghost predicate ValidPackets(ps: seq<Packet>) {
    forall k :: 0 <= k < |ps| ==> ps[k].direction < 2
  }

  function Run(ps: seq<Packet>): (r: Rtt)
    requires forall k :: 0 <= k < |ps| ==> ps[k].direction < 2
    ensures |r.lists| == 2
  {
    if ps == [] then Empty() else AddPacket(Run(ps[..|ps| - 1]), ps[|ps| - 1], 0).0
  }

  // Nodes created for a direction.
  function Inserted(ps: seq<Packet>, d: nat): (n: int)
    requires forall k :: 0 <= k < |ps| ==> ps[k].direction < 2
    requires d < 2
  {
    if ps == [] then 0
    else
      var p, before := ps[|ps| - 1], Run(ps[..|ps| - 1]);
      Inserted(ps[..|ps| - 1], d)
      + (if p.direction == d then |Insert(before.lists[d], p.segment)| - |before.lists[d]| else 0)
  }

  // The sum of the counters returned for a direction, that is, by the packets of the other one.
  function Acknowledged(ps: seq<Packet>, d: nat): (n: nat)
    requires forall k :: 0 <= k < |ps| ==> ps[k].direction < 2
    requires d < 2
  {
    if ps == [] then 0
    else
      var p, before := ps[|ps| - 1], Run(ps[..|ps| - 1]);
      Acknowledged(ps[..|ps| - 1], d) + (if p.direction != d then AddPacket(before, p, 0).1 else 0)
  }

  // A list never holds more segments than there are keys.
  lemma {:induction false} NoMoreThanKeys(l: seq<Segment>)
    requires Descending(l)
    ensures l != [] ==> |l| <= Key(l[0]) + 1
    ensures |l| <= TWO_32
  {
    hide Key;
    if |l| > 1 {
      NoMoreThanKeys(l[1..]);
    }
  }

  // The counter is exact, unless one packet acknowledges a segment for each of the 2^32 keys.
  lemma CounterIsExact(l: seq<Segment>, ack: u32)
    requires Descending(l)
    ensures AckCount(l, ack) % TWO_32 == AckCount(l, ack) <==> !(|l| == TWO_32 && AckCount(l, ack) == |l|)
  {
    hide Descending;
    hide RunLength;
    hide Match;
    NoMoreThanKeys(l);
  }

  // What the last packet changes in one direction.
  lemma LastPacket(ps: seq<Packet>, d: nat)
    requires ValidPackets(ps) && d < 2 && ps != []
    ensures var init, p := ps[..|ps| - 1], ps[|ps| - 1];
      var l := Run(init).lists[d];
      if p.direction == d then
        && Run(ps).lists[d] == Insert(l, p.segment)
        && Inserted(ps, d) == Inserted(init, d) + |Insert(l, p.segment)| - |l| && Acknowledged(ps, d) == Acknowledged(init, d)
      else
        && Run(ps).lists[d] == (if p.ack == 0 then l else Acknowledge(l, p.ack))
        && Inserted(ps, d) == Inserted(init, d)
        && Acknowledged(ps, d) == Acknowledged(init, d) + (if p.ack == 0 then 0 else AckCount(l, p.ack) % TWO_32)
  {
    hide Insert;
    hide Acknowledge;
    hide AckCount;
    hide Match;
    hide Microseconds;
  }

  lemma NothingYet(d: nat)
    requires d < 2
    ensures Run([]).lists[d] == [] && Inserted([], d) == 0 && Acknowledged([], d) == 0 && Descending([])
  {
  }

  // Over every sequence of packets both lists stay in order, and what was put in is what was
  // acknowledged plus what is still waiting: modulo 2^32, and exactly for less than 2^32 packets.
  lemma {:induction false} RunsConserveSegments(ps: seq<Packet>, d: nat)
    requires ValidPackets(ps) && d < 2
    ensures Descending(Run(ps).lists[d]) && |Run(ps).lists[d]| <= |ps|
    ensures (Inserted(ps, d) - Acknowledged(ps, d) - |Run(ps).lists[d]|) % TWO_32 == 0
    ensures |ps| < TWO_32 ==> Inserted(ps, d) == Acknowledged(ps, d) + |Run(ps).lists[d]|
  {
    hide Insert;
    hide Acknowledge;
    hide AckCount;
    hide Match;
    hide Descending;
    hide Run;
    hide Inserted;
    hide Acknowledged;
    if ps == [] {
      NothingYet(d);
    } else {
      var init, p := ps[..|ps| - 1], ps[|ps| - 1];
      var l := Run(init).lists[d];
      RunsConserveSegments(init, d);
      LastPacket(ps, d);
      if p.direction == d {
        InsertKeepsOrder(l, p.segment);
      } else if p.ack != 0 {
        AcknowledgeKeepsOrder(l, p.ack);
        Remainders(Inserted(init, d) - Acknowledged(init, d), |l|, AckCount(l, p.ack));
      }
    }
  }

  lemma Remainders(total: int, waiting: nat, n: nat)
    requires (total - waiting) % TWO_32 == 0 && n <= waiting
    ensures (total - n % TWO_32 - (waiting - n)) % TWO_32 == 0
  {
    var q, k := (total - waiting) / TWO_32, n / TWO_32;
    assert total - n % TWO_32 - (waiting - n) == (q + k) * TWO_32;
    Multiple(q + k);
  }

  lemma Multiple(k: int)
    ensures (k * TWO_32) % TWO_32 == 0
  {
  }
}
