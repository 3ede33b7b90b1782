/**
  common/GapIdentifier.h on values: the expected sequence number, the queue of packets that came
  too early, and what each operation does to them and asks of the client.
 */
module GapSpec {
  import opened Bytes

  datatype Packet = Packet(seqNum: nat, payload: seq<byte>, ts: nat, msgType: int)

  /** What happens to the queue when a packet arrives and it is full. */
  datatype Overflow = MinSeq | MaxSeq

  /** One GapIdentifier's fixed parameters: policy, number of slots, and bytes in a slot. */
  datatype Config = Config(overflow: Overflow, slots: nat, slotBytes: nat)

  datatype Gap = Gap(expected: nat, maxSeq: nat, queue: seq<Packet>, requestGap: bool, packetNum: nat)

  /** A call of the client's onPacketGap. */
  datatype Request = Request(first: nat, buffered: nat, incoming: nat)

  /** The new state, the returned flag, the packets replayed to the client, and what was requested. */
  datatype Outcome = Outcome(gap: Gap, ok: bool, replayed: seq<Packet>, requested: seq<Request>)

  const INITIAL := Gap(1, 0, [], true, 0)

  /** Ask for a gap if requests are enabled; an accepted request disables further ones. */
  function Ask(g: Gap, buffered: nat, incoming: nat, accept: bool, ok: bool): Outcome {
    if g.requestGap then
      Outcome(g.(requestGap := !accept), ok, [], [Request(g.expected, buffered, incoming)])
    else
      Outcome(g, ok, [], [])
  }

  function Push(g: Gap, p: Packet): Gap {
    g.(queue := g.queue + [p], maxSeq := p.seqNum)
  }

  /** The live path; `accept` is what the client's onPacketGap answers if it is called. */
  function Update(c: Config, g: Gap, p: Packet, packetNum: nat, accept: bool): Outcome
    requires c.slots > 0
  {
    if |p.payload| > c.slotBytes then
      Outcome(g, false, [], [])
    else if p.seqNum <= g.maxSeq || p.seqNum < g.expected then
      Outcome(g, false, [], [])
    else if p.seqNum == g.expected then
      Outcome(g.(packetNum := packetNum), true, [], [])
    else if |g.queue| >= c.slots then
      var g' := if |p.payload| > 0 && c.overflow.MinSeq? then Push(g.(queue := g.queue[1..]), p) else g;
      Ask(g', g'.queue[0].seqNum, p.seqNum, accept, false)
    else
      var g' := if |p.payload| > 0 then Push(g, p) else g;
      Ask(g', if g'.queue != [] then g'.queue[0].seqNum else p.seqNum, p.seqNum, accept, true)
  }

  /** A drain's result: what stays queued, the next expected number, and what was replayed. */
  datatype Drained = Drained(queue: seq<Packet>, expected: nat, replayed: seq<Packet>)

  /** The result of a drain that replayed `done` before reaching `d`. */
  function After(done: seq<Packet>, d: Drained): Drained {
    d.(replayed := done + d.replayed)
  }

  /** Discard what is below `expected`, replay what is at it, stop at what is above. */
  function Drain(queue: seq<Packet>, expected: nat): Drained {
    if queue == [] || queue[0].seqNum > expected then Drained(queue, expected, [])
    else if queue[0].seqNum < expected then Drain(queue[1..], expected)
    else After([queue[0]], Drain(queue[1..], expected + 1))
  }

  /** Replay while the front is exactly the expected number. */
  function ReplayRun(queue: seq<Packet>, expected: nat): Drained {
    if queue == [] || queue[0].seqNum != expected then Drained(queue, expected, [])
    else After([queue[0]], ReplayRun(queue[1..], expected + 1))
  }

  function DropThrough(queue: seq<Packet>, last: nat): seq<Packet> {
    if queue == [] || queue[0].seqNum > last then queue else DropThrough(queue[1..], last)
  }

  function DrainAndReplay(g: Gap): Outcome {
    var d := Drain(g.queue, g.expected);
    Outcome(g.(queue := d.queue, expected := d.expected), true, d.replayed, [])
  }

  function UpdateSeqNum(g: Gap, seqNum: nat): Outcome {
    Outcome(g.(expected := seqNum + 1), true, [], [])
  }

  function UpdateSeqNumFlush(g: Gap, seqNum: nat): Outcome {
    DrainAndReplay(g.(expected := seqNum + 1))
  }

  function ReplayPacket(g: Gap, seqNum: nat, accept: bool): Outcome {
    var d := ReplayRun(g.queue, seqNum);
    var g' := g.(queue := d.queue, expected := d.expected, requestGap := true);
    if d.queue == [] then Outcome(g', true, d.replayed, [])
    else Ask(g', d.queue[0].seqNum, d.queue[0].seqNum, accept, true).(replayed := d.replayed)
  }

  predicate IsInSeq(g: Gap, seqNum: nat) {
    g.expected == seqNum
  }

  predicate IsDuplicate(g: Gap, seqNum: nat) {
    g.expected > seqNum
  }

  // ---------------------------------------------------------------- drains in progress

  /** A drain started at `g0` has replayed `done` and is now at `g`. */
  ghost predicate Draining(g0: Gap, g: Gap, done: seq<Packet>) {
    && g == g0.(queue := g.queue, expected := g.expected)
    && Drain(g0.queue, g0.expected) == After(done, Drain(g.queue, g.expected))
  }

  /** The same for replayPacket's loop. */
  ghost predicate Replaying(g0: Gap, g: Gap, done: seq<Packet>) {
    && g == g0.(queue := g.queue, expected := g.expected)
    && ReplayRun(g0.queue, g0.expected) == After(done, ReplayRun(g.queue, g.expected))
  }

  lemma NothingDoneYet(g: Gap)
    ensures Draining(g, g, []) && Replaying(g, g, [])
  {}

  lemma DrainingDrops(g0: Gap, g: Gap, done: seq<Packet>)
    requires Draining(g0, g, done) && g.queue != [] && g.queue[0].seqNum < g.expected
    ensures Draining(g0, g.(queue := g.queue[1..]), done)
  {}

  lemma DrainingReplays(g0: Gap, g: Gap, done: seq<Packet>)
    requires Draining(g0, g, done) && g.queue != [] && g.queue[0].seqNum == g.expected
    ensures Draining(g0, g.(queue := g.queue[1..], expected := g.expected + 1), done + [g.queue[0]])
  {}

  lemma ReplayingReplays(g0: Gap, g: Gap, done: seq<Packet>)
    requires Replaying(g0, g, done) && g.queue != [] && g.queue[0].seqNum == g.expected
    ensures Replaying(g0, g.(queue := g.queue[1..], expected := g.expected + 1), done + [g.queue[0]])
  {}

  lemma DrainingEnds(g0: Gap, g: Gap, done: seq<Packet>)
    requires Draining(g0, g, done) && (g.queue == [] || g.queue[0].seqNum > g.expected)
    ensures DrainAndReplay(g0) == Outcome(g, true, done, [])
  {}

  lemma ReplayingEnds(g0: Gap, g: Gap, done: seq<Packet>)
    requires Replaying(g0, g, done) && (g.queue == [] || g.queue[0].seqNum != g.expected)
    ensures ReplayRun(g0.queue, g0.expected) == Drained(g.queue, g.expected, done)
  {}

  // ---------------------------------------------------------------- the queue

  ghost predicate Increasing(queue: seq<Packet>) {
    forall i, j :: 0 <= i < j < |queue| ==> queue[i].seqNum < queue[j].seqNum
  }

  /** Queued numbers strictly increase, start above 0 and never exceed `maxSeq`. */
  ghost predicate Ordered(g: Gap) {
    && Increasing(g.queue)
    && forall p :: p in g.queue ==> 0 < p.seqNum <= g.maxSeq
  }

  /** The queue holds only packets that are still too early. */
  ghost predicate Ahead(g: Gap) {
    forall p :: p in g.queue ==> g.expected < p.seqNum
  }

  /** The stated meaning of Drain: it splits the queue in three. */
  ghost predicate IsDrain(queue: seq<Packet>, expected: nat, dropped: seq<Packet>, d: Drained) {
    && queue == dropped + d.replayed + d.queue
    && (forall p :: p in dropped ==> p.seqNum < expected)
    && (forall i :: 0 <= i < |d.replayed| ==> d.replayed[i].seqNum == expected + i)
    && d.expected == expected + |d.replayed|
    && (forall p :: p in d.queue ==> p.seqNum > d.expected)
  }

  lemma IncreasingTail(queue: seq<Packet>)
    requires queue != [] && Increasing(queue)
    ensures Increasing(queue[1..])
    ensures forall p :: p in queue[1..] ==> queue[0].seqNum < p.seqNum
  {}

  lemma TailOrdered(g: Gap)
    requires Ordered(g) && g.queue != []
    ensures Ordered(g.(queue := g.queue[1..]))
  {}

  lemma PushOrdered(g: Gap, p: Packet)
    requires Ordered(g) && g.maxSeq < p.seqNum
    ensures Ordered(Push(g, p))
  {}

  lemma ReplaceOrdered(g: Gap, p: Packet)
    requires Ordered(g) && g.queue != [] && g.maxSeq < p.seqNum
    ensures Ordered(Push(g.(queue := g.queue[1..]), p))
  {}

  lemma HeadOrTail(queue: seq<Packet>)
    requires queue != []
    ensures forall p :: p in queue <==> p == queue[0] || p in queue[1..]
  {}

  /** A drain of the tail extends to one of the whole queue, whose front is dropped or replayed. */
  lemma DropFront(queue: seq<Packet>, expected: nat, dropped: seq<Packet>, d: Drained)
    requires queue != [] && queue[0].seqNum < expected && IsDrain(queue[1..], expected, dropped, d)
    ensures IsDrain(queue, expected, [queue[0]] + dropped, d)
  {}

  lemma ReplayFront(queue: seq<Packet>, expected: nat, d: Drained)
    requires queue != [] && queue[0].seqNum == expected && IsDrain(queue[1..], expected + 1, [], d)
    ensures IsDrain(queue, expected, [], After([queue[0]], d))
  {}

  /**
    drainAndReplay discards exactly the queued packets below the expected number, replays the
    longest run expected, expected + 1, ... and leaves only packets that are still too early.
   */
  lemma {:induction false} DrainSplits(queue: seq<Packet>, expected: nat) returns (dropped: seq<Packet>)
    requires Increasing(queue)
    ensures IsDrain(queue, expected, dropped, Drain(queue, expected))
  {
    dropped := [];
    if queue != [] {
      IncreasingTail(queue);
      HeadOrTail(queue);
      if queue[0].seqNum < expected {
        var rest := DrainSplits(queue[1..], expected);
        DropFront(queue, expected, rest, Drain(queue[1..], expected));
        dropped := [queue[0]] + rest;
      } else if queue[0].seqNum == expected {
        var rest := DrainSplits(queue[1..], expected + 1);
        PrefixShares(rest, queue[1..]);
        ReplayFront(queue, expected, Drain(queue[1..], expected + 1));
      }
    }
  }

  lemma PrefixShares(dropped: seq<Packet>, tail: seq<Packet>)
    requires dropped <= tail
    ensures dropped != [] ==> exists p :: p in dropped && p in tail
  {
    if dropped != [] {
      var p := dropped[0];
      assert p == tail[0];
      assert p in dropped && p in tail;
    }
  }

  /** The meaning of ReplayRun: the front of the queue that counts up from `expected`. */
  ghost predicate IsRun(queue: seq<Packet>, expected: nat, d: Drained) {
    && queue == d.replayed + d.queue
    && (forall i :: 0 <= i < |d.replayed| ==> d.replayed[i].seqNum == expected + i)
    && d.expected == expected + |d.replayed|
    && (d.queue != [] ==> d.queue[0].seqNum != d.expected)
  }

  lemma RunFront(queue: seq<Packet>, expected: nat, d: Drained)
    requires queue != [] && queue[0].seqNum == expected && IsRun(queue[1..], expected + 1, d)
    ensures IsRun(queue, expected, After([queue[0]], d))
  {}

  /** The same for replayPacket's loop, which drops nothing and stops at any other number. */
  lemma {:induction false} ReplayRunSplits(queue: seq<Packet>, expected: nat)
    ensures IsRun(queue, expected, ReplayRun(queue, expected))
  {
    if queue != [] && queue[0].seqNum == expected {
      ReplayRunSplits(queue[1..], expected + 1);
      RunFront(queue, expected, ReplayRun(queue[1..], expected + 1));
    }
  }

  /** drainPacket(last) removes exactly the queued packets numbered at most `last`. */
  lemma {:induction false} DropThroughKeeps(queue: seq<Packet>, last: nat)
    requires Increasing(queue)
    ensures var kept := DropThrough(queue, last);
      && |kept| <= |queue| && kept == queue[|queue| - |kept|..]
      && (forall p :: p in queue ==> (p in kept <==> p.seqNum > last))
  {
    if queue != [] {
      IncreasingTail(queue);
      if queue[0].seqNum <= last {
        DropThroughKeeps(queue[1..], last);
        var kept := DropThrough(queue, last);
        forall p | p in queue
          ensures p in kept <==> p.seqNum > last
        {
          assert p == queue[0] || p in queue[1..];
        }
      } else {
        forall p | p in queue
          ensures p.seqNum > last
        {
          assert p == queue[0] || p in queue[1..];
        }
      }
    }
  }
}
