/** What the gap requests of a run ask for, and when they ask for what is missing. */
module GapRequests {
  import opened Bytes
  import opened GapSpec
  import opened GapRuns

  function RequestsOf(c: Config, w: World, e: Event): seq<Request>
    requires c.slots > 0
  {
    match e
    case Live(p, packetNum, accept, _) => Update(c, w.g, p, packetNum, accept).requested
    case ReplayExpected(accept) => ReplayPacket(w.g, w.g.expected, accept).requested
    case _ => []
  }

  /** The request names a real gap: it starts at the expected number and nothing in it is at hand. */
  ghost predicate NamesGap(w: World, r: Request) {
    && r.first == w.g.expected && r.first < r.buffered <= r.incoming
    && (forall p :: p in w.g.queue ==> !(r.first <= p.seqNum < r.buffered))
    && (forall p :: p in w.delivered ==> p.seqNum < r.first)
  }

  // ---------------------------------------------------------------- one event

  lemma FrontIsLeast(g: Gap)
    requires Ordered(g) && g.queue != []
    ensures g.queue[0] in g.queue
    ensures forall p :: p in g.queue ==> g.queue[0].seqNum <= p.seqNum <= g.maxSeq
  {}

  /**
    Update asks for a gap exactly when requests are on and a fresh packet is too early, buffered or
    not; it asks from the expected number to the front of the queue.
   */
  lemma UpdateAsks(c: Config, g: Gap, p: Packet, packetNum: nat, accept: bool)
    requires c.slots > 0 && Ordered(g) && |g.queue| <= c.slots
    ensures Update(c, g, p, packetNum, accept).requested != [] <==>
            g.requestGap && |p.payload| <= c.slotBytes && g.expected < p.seqNum && g.maxSeq < p.seqNum
    ensures var o := Update(c, g, p, packetNum, accept);
      var front := if o.gap.queue != [] then o.gap.queue[0].seqNum else p.seqNum;
      o.requested != [] ==> o.requested == [Request(g.expected, front, p.seqNum)]
  {}

  /** A request names a gap when it starts at the expected number and ends at the front of the queue behind it. */
  lemma FrontRequest(c: Config, w: World, incoming: nat)
    requires RunInv(c, w) && (w.g.queue != [] ==> w.g.queue[0].seqNum <= incoming)
    requires w.g.queue == [] ==> w.g.expected < incoming
    ensures var front := if w.g.queue != [] then w.g.queue[0].seqNum else incoming;
      NamesGap(w, Request(w.g.expected, front, incoming)) <==> (w.g.queue != [] ==> w.g.expected < front)
  {
    if w.g.queue != [] {
      FrontIsLeast(w.g);
    }
  }

  /** A live packet's request names a gap exactly when the front of the queue is not already at hand. */
  lemma LiveRequestNamesGapIff(c: Config, w: World, e: Event, r: Request)
    requires c.slots > 0 && RunInv(c, w) && e.Live? && r in RequestsOf(c, w, e)
    ensures var w' := Step(c, w, e);
      NamesGap(w', r) <==> (w'.g.queue != [] ==> w.g.expected < w'.g.queue[0].seqNum)
  {
    var o, w' := Update(c, w.g, e.p, e.packetNum, e.accept), Step(c, w, e);
    UpdateEffect(c, w.g, e.p, e.packetNum, e.accept);
    UpdateAsks(c, w.g, e.p, e.packetNum, e.accept);
    StepKeepsRunInv(c, w, e);
    assert !IsInSeq(o.gap, e.p.seqNum);
    assert w'.g == o.gap;
    hide Update;
    if w'.g.queue != [] {
      FrontIsLeast(w'.g);
    }
    FrontRequest(c, w', e.p.seqNum);
  }

  /** replayPacket asks for what is before the next queued packet; that is a gap unless the packet is stale. */
  lemma ReplayRequestNamesGapIff(c: Config, w: World, e: Event, r: Request)
    requires c.slots > 0 && RunInv(c, w) && e.ReplayExpected? && r in RequestsOf(c, w, e)
    ensures NamesGap(Step(c, w, e), r) <==> NoneStale(w.g)
  {
    var d, w' := ReplayRun(w.g.queue, w.g.expected), Step(c, w, e);
    ReplayRunSplits(w.g.queue, w.g.expected);
    StepKeepsRunInv(c, w, e);
    assert w'.g.queue == d.queue != [] && w'.g.expected == d.expected;
    assert r == Request(d.expected, d.queue[0].seqNum, d.queue[0].seqNum);
    FrontRequest(c, w', d.queue[0].seqNum);
    FrontIsLeast(w.g);
    hide ReplayRun, NamesGap, Step;
    if d.replayed == [] {
      assert w.g.queue == d.queue;
    } else {
      assert w.g.queue[0] == d.replayed[0];
      assert d.queue[0] == w.g.queue[|d.replayed|];
      RunBelow(w.g.queue, w.g.expected, d);
    }
  }

  lemma RunBelow(queue: seq<Packet>, expected: nat, d: Drained)
    requires Increasing(queue) && IsRun(queue, expected, d) && d.replayed != [] && d.queue != []
    ensures d.expected < d.queue[0].seqNum
  {
    var n := |d.replayed|;
    assert queue[n - 1] == d.replayed[n - 1] && queue[n] == d.queue[0];
  }

  /** No queued packet has been handled already. */
  ghost predicate NoneStale(g: Gap) {
    forall p :: p in g.queue ==> g.expected <= p.seqNum
  }

  // ---------------------------------------------------------------- every event

  /** Whatever event comes next, its request names a gap. */
  ghost predicate RequestsSound(c: Config, w: World)
    requires c.slots > 0
  {
    forall e, r :: r in RequestsOf(c, w, e) ==> NamesGap(Step(c, w, e), r)
  }

  /** A live packet without payload, above all seen, that asks for a gap and leaves the queue alone. */
  function Probe(w: World): Event {
    Live(Packet((if w.g.maxSeq < w.g.expected then w.g.expected else w.g.maxSeq) + 1, [], 0, 0), 0, false, true)
  }

  lemma ProbeAsks(c: Config, w: World) returns (r: Request)
    requires c.slots > 0 && RunInv(c, w) && w.g.requestGap
    ensures r in RequestsOf(c, w, Probe(w)) && Step(c, w, Probe(w)).g.queue == w.g.queue
  {
    var e := Probe(w);
    UpdateAsks(c, w.g, e.p, e.packetNum, e.accept);
    r := Update(c, w.g, e.p, e.packetNum, e.accept).requested[0];
  }

  /**
    Exactly when every possible next request names a gap: with requests on, when the queue is
    strictly ahead of the expected number; with requests off only replayPacket asks, and the
    expected packet itself may be queued.
   */
  lemma RequestsSoundIff(c: Config, w: World)
    requires c.slots > 0 && RunInv(c, w)
    ensures RequestsSound(c, w) <==> if w.g.requestGap then Ahead(w.g) else NoneStale(w.g)
  {
    if w.g.requestGap {
      if !Ahead(w.g) {
        StaleIsAsked(c, w);
      } else {
        AheadIsSound(c, w);
      }
    } else {
      if !NoneStale(w.g) {
        StaleIsReplayed(c, w);
      } else {
        MutedIsSound(c, w);
      }
    }
  }

  lemma StaleIsAsked(c: Config, w: World)
    requires c.slots > 0 && RunInv(c, w) && w.g.requestGap && !Ahead(w.g)
    ensures !RequestsSound(c, w)
  {
    var r := ProbeAsks(c, w);
    LiveRequestNamesGapIff(c, w, Probe(w), r);
    FrontIsLeast(w.g);
  }

  lemma AheadIsSound(c: Config, w: World)
    requires c.slots > 0 && RunInv(c, w) && Ahead(w.g)
    ensures RequestsSound(c, w)
  {
    forall e, r | r in RequestsOf(c, w, e)
      ensures NamesGap(Step(c, w, e), r)
    {
      if e.Live? {
        LiveRequestNamesGapIff(c, w, e, r);
        AheadOfLive(c, w, e);
      } else {
        ReplayRequestNamesGapIff(c, w, e, r);
      }
    }
  }

  /** A live packet leaves the queue ahead of the number expected before it. */
  lemma AheadOfLive(c: Config, w: World, e: Event)
    requires c.slots > 0 && RunInv(c, w) && Ahead(w.g) && e.Live? && RequestsOf(c, w, e) != []
    ensures Ahead(Step(c, w, e).g) && Step(c, w, e).g.expected == w.g.expected
  {
    UpdateEffect(c, w.g, e.p, e.packetNum, e.accept);
    UpdateAsks(c, w.g, e.p, e.packetNum, e.accept);
    StepKeepsRunInv(c, w, e);
  }

  lemma StaleIsReplayed(c: Config, w: World)
    requires c.slots > 0 && RunInv(c, w) && !NoneStale(w.g)
    ensures !RequestsSound(c, w)
  {
    var e := ReplayExpected(false);
    FrontIsLeast(w.g);
    assert ReplayRun(w.g.queue, w.g.expected) == Drained(w.g.queue, w.g.expected, []);
    var r := Request(w.g.expected, w.g.queue[0].seqNum, w.g.queue[0].seqNum);
    assert r in RequestsOf(c, w, e);
    ReplayRequestNamesGapIff(c, w, e, r);
  }

  lemma MutedIsSound(c: Config, w: World)
    requires c.slots > 0 && RunInv(c, w) && !w.g.requestGap && NoneStale(w.g)
    ensures RequestsSound(c, w)
  {
    forall e, r | r in RequestsOf(c, w, e)
      ensures NamesGap(Step(c, w, e), r)
    {
      if e.Live? {
        UpdateAsks(c, w.g, e.p, e.packetNum, e.accept);
      } else {
        ReplayRequestNamesGapIff(c, w, e, r);
      }
    }
  }

  // ---------------------------------------------------------------- every run

  /** Every unflushed delivery of the run found the number behind it not in the buffer. */
  ghost predicate CarefulRun(c: Config, events: seq<Event>)
    requires c.slots > 0
  {
    forall i :: 0 <= i < |events| ==> Careful(c, Run(c, events[..i]), events[i])
  }

  lemma {:induction false} CarefulStaysAhead(c: Config, events: seq<Event>, i: nat)
    requires c.slots > 0 && CarefulRun(c, events) && i <= |events|
    ensures Ahead(Run(c, events[..i]).g)
  {
    hide Step, Careful;
    if i > 0 {
      CarefulStaysAhead(c, events, i - 1);
      RunKeepsRunInv(c, events[..i - 1]);
      RunOneMore(c, events, i - 1);
      StepKeepsRunInv(c, Run(c, events[..i - 1]), events[i - 1]);
    }
  }

  /**
    With requests on, every request that could be made at any moment of a run names a gap exactly
    when the run is careful.
   */
  lemma RequestsSoundIffCareful(c: Config, events: seq<Event>)
    requires c.slots > 0
    ensures CarefulRun(c, events) <==>
            forall i :: 0 <= i <= |events| ==> RequestsSound(c, Step(c, Run(c, events[..i]), Unmute))
  {
    forall i | 0 <= i <= |events|
      ensures RequestsSound(c, Step(c, Run(c, events[..i]), Unmute)) <==> Ahead(Run(c, events[..i]).g)
    {
      RunKeepsRunInv(c, events[..i]);
      StepKeepsRunInv(c, Run(c, events[..i]), Unmute);
      RequestsSoundIff(c, Step(c, Run(c, events[..i]), Unmute));
    }
    if CarefulRun(c, events) {
      forall i | 0 <= i <= |events|
        ensures Ahead(Run(c, events[..i]).g)
      {
        CarefulStaysAhead(c, events, i);
      }
    } else {
      var i :| 0 <= i < |events| && !Careful(c, Run(c, events[..i]), events[i]);
      RunKeepsRunInv(c, events[..i]);
      RunOneMore(c, events, i);
      StepKeepsRunInv(c, Run(c, events[..i]), events[i]);
    }
  }

  /** On a careful run each onPacketGap call (a, b, c) has a = expected < b <= c, with nothing of [a, b) at hand. */
  lemma RequestsNameGaps(c: Config, events: seq<Event>, e: Event)
    requires c.slots > 0 && CarefulRun(c, events)
    ensures forall r :: r in RequestsOf(c, Run(c, events), e) ==> NamesGap(Run(c, events + [e]), r)
  {
    RunKeepsRunInv(c, events);
    CarefulStaysAhead(c, events, |events|);
    assert events[..|events|] == events && (events + [e])[..|events|] == events;
    AheadIsSound(c, Run(c, events));
  }

  /**
    The flush is needed: after a delivery reported by updateSeqNum alone, the next live packet
    requests a range that starts at a packet already in the buffer.
   */
  lemma WithoutFlushRequestsBuffered(payload: seq<byte>)
    requires 0 < |payload| <= 8
    ensures var c := Config(MaxSeq, 4, 8);
      var events := [Live(Packet(2, payload, 0, 0), 0, false, true), Recovered(Packet(1, payload, 0, 0), false)];
      var e := Live(Packet(3, payload, 0, 0), 0, false, true);
      RequestsOf(c, Run(c, events), e) == [Request(2, 2, 3)]
  {
    var c := Config(MaxSeq, 4, 8);
    var live := Live(Packet(2, payload, 0, 0), 0, false, true);
    var w := Run(c, [live]);
    assert [live][..0] == [] && Run(c, [live]) == Step(c, Run(c, []), live);
    assert w.g.queue == [live.p] && w.g.expected == 1;
    var recovered := Recovered(Packet(1, payload, 0, 0), false);
    assert [live, recovered][..1] == [live];
    assert Run(c, [live, recovered]) == Step(c, w, recovered);
  }
}
