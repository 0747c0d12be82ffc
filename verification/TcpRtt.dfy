// Round-trip tracking of src/modules/dpi/report/tcp_rtt.c: per direction a linked list of segments
// waiting for their acknowledgement, in descending order of the acknowledgement number they expect.

/** The lists as sequences, and what the code does to them as functions. */
module RttModel {
  import opened Common

  datatype Time = Time(sec: int, usec: int)

  datatype Segment = Segment(seqNumber: u32, dataLen: u16, time: Time)

  // expected_ack_number, in 32-bit arithmetic
  function Key(s: Segment): (k: u32) {
    (s.seqNumber + s.dataLen + 1) % TWO_32
  }

  function Later(a: Time, b: Time): (t: Time) {
    if a.sec < b.sec || (a.usec < b.usec && a.sec == b.sec) then b else a
  }

  // u_second_diff, stored in an unsigned 64-bit variable
  function Microseconds(end: Time, start: Time): (d: u64) {
    ((end.sec - start.sec) * 1000000 + (end.usec - start.usec)) % TWO_64
  }

  // First position whose key is not above key.
  function Position(l: seq<Segment>, key: u32): (i: nat)
    ensures i <= |l|
    ensures forall k :: 0 <= k < i ==> Key(l[k]) > key
    ensures i < |l| ==> Key(l[i]) <= key
  {
    if l == [] || Key(l[0]) <= key then 0
    else
      var i := Position(l[1..], key);
      assert forall k :: 1 <= k < |l| ==> l[k] == l[1..][k - 1];
      i + 1
  }

  function Insert(l: seq<Segment>, s: Segment): (r: seq<Segment>) {
    var i := Position(l, Key(s));
    if i < |l| && Key(l[i]) == Key(s) then l[i := l[i].(time := Later(l[i].time, s.time))]
    else l[..i] + [s] + l[i..]
  }

  // First position whose key is ack, or |l|.
  function Match(l: seq<Segment>, ack: u32): (i: nat)
    ensures i <= |l|
    ensures forall k :: 0 <= k < i ==> Key(l[k]) != ack
    ensures i < |l| ==> Key(l[i]) == ack
  {
    if l == [] || Key(l[0]) == ack then 0
    else
      var i := Match(l[1..], ack);
      assert forall k :: 1 <= k < |l| ==> l[k] == l[1..][k - 1];
      i + 1
  }

  // How many elements, from position i on, the loop removes for ack: each next one must be expected
  // by the sequence number of the one before.
  function RunLength(l: seq<Segment>, i: nat, ack: u32): (n: nat)
    requires i <= |l|
    ensures i + n <= |l|
    ensures n == 0 <==> i == |l| || Key(l[i]) != ack
    decreases |l| - i
  {
    if i < |l| && Key(l[i]) == ack then 1 + RunLength(l, i + 1, l[i].seqNumber) else 0
  }

  function Acknowledge(l: seq<Segment>, ack: u32): (r: seq<Segment>) {
    var i := Match(l, ack);
    l[..i] + l[i + RunLength(l, i, ack)..]
  }

  function AckCount(l: seq<Segment>, ack: u32): (n: nat)
    ensures n <= |l|
  {
    RunLength(l, Match(l, ack), ack)
  }

  datatype Rtt = Rtt(lists: seq<seq<Segment>>)

  datatype Packet = Packet(direction: nat, ack: u32, segment: Segment)

  function Other(direction: nat): (d: nat) {
    if direction == 0 then 1 else 0
  }

  // tcp_rtt_add_packet: the lists after it, the counter of 32 bits, and the interval if something is acknowledged.
  function AddPacket(r: Rtt, p: Packet, usec: u64): (x: (Rtt, u32, u64))
    requires |r.lists| == 2 && p.direction < 2
    ensures |x.0.lists| == 2
  {
    var d, o := p.direction, Other(p.direction);
    var inserted := r.lists[d := Insert(r.lists[d], p.segment)];
    if p.ack == 0 then (Rtt(inserted), 0, usec)
    else
      var l := r.lists[o];
      var i := Match(l, p.ack);
      (Rtt(inserted[o := Acknowledge(l, p.ack)]), AckCount(l, p.ack) % TWO_32,
       if i < |l| then Microseconds(p.segment.time, l[i].time) else usec)
  }
}

/** The linked lists themselves. */
module TcpRtt {
  import opened Common
  import opened RttModel

  class Node {
    var seqNumber: u32
    var dataLen: u16
    var time: Time
    var next: Node?

    constructor (seqNumber: u32, dataLen: u16, time: Time)
      ensures this.seqNumber == seqNumber && this.dataLen == dataLen && this.time == time && next == null
    {
      this.seqNumber, this.dataLen, this.time, this.next := seqNumber, dataLen, time, null;
    }

    function Segment(): (s: RttModel.Segment)
      reads this
    {
      RttModel.Segment(seqNumber, dataLen, time)
    }
  }

  ghost predicate Distinct(chain: seq<Node>) {
    forall j, k :: 0 <= j < k < |chain| ==> chain[j] != chain[k]
  }

  // The nodes of chain, all different and linked in this order from head to null, hold the segments l.
  ghost predicate Stores(head: Node?, chain: seq<Node>, l: seq<Segment>)
    reads chain
  {
    && |chain| == |l| && Distinct(chain)
    && (if chain == [] then head == null else head == chain[0] && chain[|chain| - 1].next == null)
    && (forall k {:trigger chain[k].next} :: 0 <= k < |chain| - 1 ==> chain[k].next == chain[k + 1])
    && (forall k {:trigger l[k]} {:trigger chain[k].seqNumber} :: 0 <= k < |chain| ==> chain[k].Segment() == l[k])
  }

  ghost predicate Apart(a: seq<Node>, b: seq<Node>) {
    (forall n :: n in a ==> n !in b) && (forall n :: n in b ==> n !in a)
  }

  // The pointer to position i of a chain.
  ghost function At(chain: seq<Node>, i: nat): (p: Node?)
    requires i <= |chain|
  {
    if i < |chain| then chain[i] else null
  }

  // The list of the other direction, which an operation on this one leaves alone.
  datatype Rest = Rest(head: Node?, chain: seq<Node>, l: seq<Segment>)

  ghost predicate Untouched(r: Rest)
    reads r.chain
  {
    Stores(r.head, r.chain, r.l)
  }

  // Walks down a list to the first node whose key is not above expected.
  method Locate(head: Node?, expected: u32, ghost chain: seq<Node>, ghost l: seq<Segment>)
    returns (p: Node?, prev: Node?)
    requires Stores(head, chain, l)
    ensures |chain| == |l| && p == At(chain, Position(l, expected))
    ensures p != null ==> p.Segment() == l[Position(l, expected)]
    ensures if Position(l, expected) == 0 then prev == null else prev == chain[Position(l, expected) - 1]
  {
    p, prev := head, null;
    ghost var i := 0;
    while p != null && Key(p.Segment()) > expected
      invariant i <= |chain| && p == At(chain, i)
      invariant if i == 0 then prev == null else prev == chain[i - 1]
      invariant forall k :: 0 <= k < i ==> Key(l[k]) > expected
      decreases |chain| - i
    {
      prev := p;
      p := p.next;
      i := i + 1;
    }
    PositionIs(l, expected, i);
  }

  lemma PositionIs(l: seq<Segment>, key: u32, i: nat)
    requires i <= |l| && (forall k :: 0 <= k < i ==> Key(l[k]) > key) && (i < |l| ==> Key(l[i]) <= key)
    ensures i == Position(l, key)
  {
  }

  // A retransmission: the node keeps the more recent of the two times.
  method Refresh(p: Node, time: Time, ghost head: Node?, ghost chain: seq<Node>, ghost l: seq<Segment>, ghost i: nat,
                 ghost rest: Rest)
    requires Stores(head, chain, l) && i < |chain| && p == chain[i]
    requires Untouched(rest) && p !in rest.chain
    modifies p
    ensures Stores(head, chain, l[i := l[i].(time := Later(l[i].time, time))])
    ensures Untouched(rest)
  {
    if p.time.sec < time.sec || (p.time.usec < time.usec && p.time.sec == time.sec) {
      p.time := time;
    }
  }

  // Links node in front of p, the node at position i, and behind prev.
  method Splice(head: Node?, p: Node?, prev: Node?, node: Node, ghost chain: seq<Node>, ghost l: seq<Segment>, ghost i: nat,
                ghost rest: Rest)
    returns (newHead: Node?)
    requires Stores(head, chain, l) && i <= |chain| && p == At(chain, i)
    requires if i == 0 then prev == null else prev == chain[i - 1]
    requires node !in chain
    requires Untouched(rest) && node !in rest.chain && (prev != null ==> prev !in rest.chain)
    modifies node`next, if prev == null then {} else {prev}
    ensures Stores(newHead, chain[..i] + [node] + chain[i..], l[..i] + [node.Segment()] + l[i..])
    ensures Untouched(rest)
  {
    node.next := p;
    if prev == null {
      newHead := node;
    } else {
      prev.next := node;
      newHead := head;
    }
  }

  // Stores a segment in one list.
  method InsertInto(head: Node?, seqNumber: u32, dataLen: u16, time: Time, ghost chain: seq<Node>, ghost l: seq<Segment>,
                    ghost rest: Rest)
    returns (newHead: Node?, ghost longer: seq<Node>)
    requires Stores(head, chain, l)
    requires Untouched(rest) && Apart(chain, rest.chain)
    modifies chain
    ensures Untouched(rest)
    ensures Stores(newHead, longer, Insert(l, RttModel.Segment(seqNumber, dataLen, time)))
    ensures forall n :: n in longer ==> n in chain || fresh(n)
  {
    hide Position;
    hide Stores;
    newHead, longer := head, chain;
    var expected := (seqNumber + dataLen + 1) % TWO_32;
    var p, prev := Locate(head, expected, chain, l);
    ghost var i := Position(l, expected);
    if p != null && Key(p.Segment()) == expected {
      Refresh(p, time, head, chain, l, i, rest);
    } else {
      newHead, longer := InsertNew(head, p, prev, seqNumber, dataLen, time, chain, l, i, rest);
    }
  }

  // A new key.
  method InsertNew(head: Node?, p: Node?, prev: Node?, seqNumber: u32, dataLen: u16, time: Time,
                   ghost chain: seq<Node>, ghost l: seq<Segment>, ghost i: nat, ghost rest: Rest)
    returns (newHead: Node?, ghost longer: seq<Node>)
    requires Stores(head, chain, l) && i <= |chain| && p == At(chain, i)
    requires if i == 0 then prev == null else prev == chain[i - 1]
    requires Untouched(rest) && (prev != null ==> prev !in rest.chain)
    modifies if prev == null then {} else {prev}
    ensures Untouched(rest)
    ensures Stores(newHead, longer, l[..i] + [RttModel.Segment(seqNumber, dataLen, time)] + l[i..])
    ensures forall n :: n in longer ==> n in chain || fresh(n)
  {
    hide Distinct;
    var node := new Node(seqNumber, dataLen, time);
    newHead := Splice(head, p, prev, node, chain, l, i, rest);
    longer := chain[..i] + [node] + chain[i..];
  }

  // Walks down a list to the node that expects ack.
  method LocateAck(head: Node?, ack: u32, ghost chain: seq<Node>, ghost l: seq<Segment>)
    returns (p: Node?, prev: Node?)
    requires Stores(head, chain, l)
    ensures |chain| == |l| && p == At(chain, Match(l, ack))
    ensures p != null ==> p.Segment() == l[Match(l, ack)]
    ensures if Match(l, ack) == 0 then prev == null else prev == chain[Match(l, ack) - 1]
  {
    p, prev := head, null;
    ghost var i := 0;
    while p != null && Key(p.Segment()) != ack
      invariant i <= |chain| && p == At(chain, i)
      invariant if i == 0 then prev == null else prev == chain[i - 1]
      invariant forall k :: 0 <= k < i ==> Key(l[k]) != ack
      decreases |chain| - i
    {
      prev := p;
      p := p.next;
      i := i + 1;
    }
    MatchIs(l, ack, i);
  }

  lemma MatchIs(l: seq<Segment>, ack: u32, i: nat)
    requires i <= |l| && (forall k :: 0 <= k < i ==> Key(l[k]) != ack) && (i < |l| ==> Key(l[i]) == ack)
    ensures i == Match(l, ack)
  {
  }

  // Passes over the nodes acknowledged in one go; C frees each of them.
  method SkipRun(start: Node?, ack: u32, ghost head: Node?, ghost chain: seq<Node>, ghost l: seq<Segment>, ghost i: nat)
    returns (p: Node?, counter: u32, ghost n: nat)
    requires Stores(head, chain, l) && i <= |chain| && start == At(chain, i)
    ensures n == RunLength(l, i, ack) && i + n <= |chain| && p == At(chain, i + n)
    ensures counter == n % TWO_32
  {
    hide Key;
    p, counter, n := start, 0, 0;
    var ackNum := ack;
    while p != null && Key(p.Segment()) == ackNum
      invariant i + n <= |chain| && p == At(chain, i + n)
      invariant RunLength(l, i, ack) == n + RunLength(l, i + n, ackNum)
      invariant counter == n % TWO_32
      decreases |chain| - i - n
    {
      ackNum := p.seqNumber;
      p := p.next;
      CountOne(counter, n);
      counter, n := (counter + 1) % TWO_32, n + 1;
    }
  }

  lemma CountOne(counter: u32, n: nat)
    requires counter == n % TWO_32
    ensures (counter + 1) % TWO_32 == (n + 1) % TWO_32
  {
  }

  // Links prev, the node before position i, or the head to p, the node at position j.
  method Unlink(head: Node?, p: Node?, prev: Node?, ghost chain: seq<Node>, ghost l: seq<Segment>, ghost i: nat, ghost j: nat,
                ghost rest: Rest)
    returns (newHead: Node?)
    requires Stores(head, chain, l) && i <= j <= |chain| && p == At(chain, j)
    requires if i == 0 then prev == null else prev == chain[i - 1]
    requires Untouched(rest) && (prev != null ==> prev !in rest.chain)
    modifies if prev == null then {} else {prev}
    ensures Stores(newHead, chain[..i] + chain[j..], l[..i] + l[j..])
    ensures Untouched(rest)
  {
    if prev == null {
      newHead := p;
    } else {
      prev.next := p;
      newHead := head;
    }
  }

  // Removes from one list what ack acknowledges.
  method RemoveFrom(head: Node?, ack: u32, time: Time, usec: u64, ghost chain: seq<Node>, ghost l: seq<Segment>, ghost rest: Rest)
    returns (newHead: Node?, counter: u32, interval: u64, ghost shorter: seq<Node>)
    requires Stores(head, chain, l)
    requires Untouched(rest) && Apart(chain, rest.chain)
    modifies chain
    ensures Untouched(rest)
    ensures Stores(newHead, shorter, Acknowledge(l, ack))
    ensures forall n :: n in shorter ==> n in chain
    ensures counter == AckCount(l, ack) % TWO_32
    ensures interval == if Match(l, ack) < |l| then Microseconds(time, l[Match(l, ack)].time) else usec
  {
    hide Match;
    hide RunLength;
    hide Stores;
    newHead, counter, interval, shorter := head, 0, usec, chain;
    var p, prev := LocateAck(head, ack, chain, l);
    ghost var i := Match(l, ack);
    if p != null && Key(p.Segment()) == ack {
      interval := Microseconds(time, p.time);
      ghost var n: nat;
      p, counter, n := SkipRun(p, ack, head, chain, l, i);
      newHead := Unlink(head, p, prev, chain, l, i, i + n, rest);
      shorter := chain[..i] + chain[i + n..];
    } else {
      assert l[..i] + l[i..] == l;
    }
  }

  class Tracker {
    const pkts: array<Node?>
    ghost var up: seq<Node>
    ghost var down: seq<Node>
    ghost var state: Rtt       // what the two lists hold
    ghost var repr: set<Node>  // every node ever linked

    ghost predicate Valid()
      reads this, pkts, repr
    {
      && pkts.Length == 2 && |state.lists| == 2
      && (forall n :: n in up ==> n in repr) && (forall n :: n in down ==> n in repr)
      && Stores(pkts[0], up, state.lists[0]) && Stores(pkts[1], down, state.lists[1])
      && Apart(up, down)
    }

    // tcp_rtt_init
    constructor ()
      ensures Valid() && fresh(pkts) && repr == {}
      ensures state == Rtt([[], []])
    {
      pkts := new Node?[2](_ => null);
      up, down := [], [];
      state := Rtt([[], []]);
      repr := {};
    }

    // First half of tcp_rtt_add_packet.
    method Store(direction: nat, seqNumber: u32, dataLen: u16, time: Time)
      requires Valid() && direction < 2
      modifies this, pkts, repr
      ensures Valid()
      ensures var s := RttModel.Segment(seqNumber, dataLen, time);
        state.lists == old(state.lists)[direction := Insert(old(state.lists[direction]), s)]
      ensures fresh(repr - old(repr))
    {
      hide Insert;
      hide Stores;
      ghost var l := state.lists[direction];
      if direction == 0 {
        var head, longer := InsertInto(pkts[0], seqNumber, dataLen, time, up, l, Rest(pkts[1], down, state.lists[1]));
        pkts[0], up, repr := head, longer, repr + (set n | n in longer);
      } else {
        var head, longer := InsertInto(pkts[1], seqNumber, dataLen, time, down, l, Rest(pkts[0], up, state.lists[0]));
        pkts[1], down, repr := head, longer, repr + (set n | n in longer);
      }
      state := Rtt(state.lists[direction := Insert(l, RttModel.Segment(seqNumber, dataLen, time))]);
    }

    // Second half of tcp_rtt_add_packet.
    method Remove(direction: nat, ack: u32, time: Time, usec: u64) returns (counter: u32, interval: u64)
      requires Valid() && direction < 2
      modifies this, pkts, repr
      ensures Valid()
      ensures var l := old(state.lists[direction]);
        && state.lists == old(state.lists)[direction := Acknowledge(l, ack)]
        && counter == AckCount(l, ack) % TWO_32
        && interval == if Match(l, ack) < |l| then Microseconds(time, l[Match(l, ack)].time) else usec
      ensures repr == old(repr)
    {
      hide Match;
      hide Acknowledge;
      hide AckCount;
      hide Stores;
      ghost var l := state.lists[direction];
      if direction == 0 {
        var head, c, d, shorter := RemoveFrom(pkts[0], ack, time, usec, up, l, Rest(pkts[1], down, state.lists[1]));
        pkts[0], up, counter, interval := head, shorter, c, d;
      } else {
        var head, c, d, shorter := RemoveFrom(pkts[1], ack, time, usec, down, l, Rest(pkts[0], up, state.lists[0]));
        pkts[1], down, counter, interval := head, shorter, c, d;
      }
      state := Rtt(state.lists[direction := Acknowledge(l, ack)]);
    }

    // tcp_rtt_add_packet; usec is what the caller's variable holds, interval what it holds afterwards.
    method AddPacket(direction: nat, ack: u32, seqNumber: u32, dataLen: u16, time: Time, usec: u64)
      returns (counter: u32, interval: u64)
      requires Valid() && direction < 2
      modifies this, pkts, repr
      ensures Valid()
      ensures (state, counter, interval)
           == RttModel.AddPacket(old(state), Packet(direction, ack, RttModel.Segment(seqNumber, dataLen, time)), usec)
      ensures fresh(repr - old(repr))
    {
      hide Match;
      hide Acknowledge;
      hide AckCount;
      hide Insert;
      hide Stores;
      Store(direction, seqNumber, dataLen, time);
      if ack == 0 {
        return 0, usec;
      }
      counter, interval := Remove(if direction == 0 then 1 else 0, ack, time, usec);
    }
  }
}
