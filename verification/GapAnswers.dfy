/** What each operation answers, for every argument it can be given. */
module GapAnswers {
  import opened Bytes
  import opened GapSpec
  import opened GapRuns
  import opened GapKept
  import opened GapRequests

  // ---------------------------------------------------------------- update

  /** The packet fits its slot and its number has not been seen. */
  predicate Fresh(c: Config, g: Gap, p: Packet) {
    |p.payload| <= c.slotBytes && g.maxSeq < p.seqNum && g.expected <= p.seqNum
  }

  /** Update refuses what does not fit, what is not new, and what is too early for a full buffer, and nothing else. */
  lemma UpdateAcceptsIff(c: Config, g: Gap, p: Packet, packetNum: nat, accept: bool)
    requires c.slots > 0 && Ordered(g) && |g.queue| <= c.slots
    ensures Update(c, g, p, packetNum, accept).ok <==>
            Fresh(c, g, p) && (p.seqNum == g.expected || |g.queue| < c.slots)
  {}

  /**
    The new state: the expected packet records its packet number and nothing else; one too early is
    queued if it has a payload and a place, and turns requests off if it asks and is heard; any
    other changes nothing.
   */
  lemma UpdateLeaves(c: Config, g: Gap, p: Packet, packetNum: nat, accept: bool)
    requires c.slots > 0 && Ordered(g) && |g.queue| <= c.slots
    ensures var g' := Update(c, g, p, packetNum, accept).gap;
      && (!Fresh(c, g, p) ==> g' == g)
      && (Fresh(c, g, p) && p.seqNum == g.expected ==> g' == g.(packetNum := packetNum))
      && (Fresh(c, g, p) && p.seqNum > g.expected ==>
            var full, stored := |g.queue| == c.slots, p.payload != [] && (|g.queue| < c.slots || c.overflow.MinSeq?);
            g' == g.(queue := if !stored then g.queue else (if full then g.queue[1..] else g.queue) + [p],
                     maxSeq := if stored then p.seqNum else g.maxSeq,
                     requestGap := g.requestGap && !accept))
  {}

  /** Live packets 1, 2, ..., each fitting its slot. */
  predicate InOrderFeed(c: Config, events: seq<Event>) {
    forall i :: 0 <= i < |events| ==>
      events[i].Live? && events[i].p.seqNum == i + 1 && |events[i].p.payload| <= c.slotBytes
  }

  function PacketsOf(events: seq<Event>): seq<Packet>
    requires forall e :: e in events ==> e.Live?
  {
    seq(|events|, i requires 0 <= i < |events| => assert events[i] in events; events[i].p)
  }

  /** A feed without gaps is delivered as it comes, with nothing buffered and nothing requested. */
  lemma {:induction false} InOrderFeedIsDelivered(c: Config, events: seq<Event>)
    requires c.slots > 0 && InOrderFeed(c, events)
    ensures (forall e :: e in events ==> e.Live?) && Run(c, events).delivered == PacketsOf(events)
    ensures Run(c, events).g.queue == [] && Run(c, events).g.maxSeq == 0 && Run(c, events).log == []
    decreases |events|
  {
    if events != [] {
      var earlier, e := events[..|events| - 1], events[|events| - 1];
      InOrderFeedIsDelivered(c, earlier);
      RunKeepsRunInv(c, earlier);
      var w := Run(c, earlier);
      UpdateAcceptsIff(c, w.g, e.p, e.packetNum, e.accept);
      UpdateLeaves(c, w.g, e.p, e.packetNum, e.accept);
      UpdateAsks(c, w.g, e.p, e.packetNum, e.accept);
      hide Update, Run;
      assert w.log + [] == w.log;
      assert PacketsOf(events) == PacketsOf(earlier) + [e.p];
    }
  }

  /** On a careful run nothing is held back: once all numbers up to `n` are at hand, all are delivered. */
  lemma NothingHeldBack(c: Config, events: seq<Event>, n: nat)
    requires c.slots > 0 && CarefulRun(c, events)
    requires forall s: nat :: s <= n ==> AtHand(Run(c, events), s)
    ensures |Run(c, events).delivered| >= n
  {
    CarefulStaysAhead(c, events, |events|);
    RunKeepsRunInv(c, events);
    assert events[..|events|] == events;
    var w := Run(c, events);
    assert w.g.expected <= n ==> AtHand(w, w.g.expected);
  }

  // ---------------------------------------------------------------- drains and replays

  /** updateSeqNumFlush, given any number `s`: it drains from `s + 1` and touches nothing else. */
  lemma FlushDrains(g: Gap, s: nat) returns (dropped: seq<Packet>)
    requires Increasing(g.queue)
    ensures var o := UpdateSeqNumFlush(g, s);
      && IsDrain(g.queue, s + 1, dropped, Drained(o.gap.queue, o.gap.expected, o.replayed))
      && o.requested == [] && o.gap == g.(queue := o.gap.queue, expected := o.gap.expected)
  {
    dropped := DrainSplits(g.queue, s + 1);
  }

  /** updateSeqNum, given any number `s`: `s + 1` is in sequence, all before it duplicates, and the queue waits. */
  lemma UpdateSeqNumMoves(g: Gap, s: nat, t: nat)
    ensures var o := UpdateSeqNum(g, s);
      && (IsInSeq(o.gap, t) <==> t == s + 1) && (IsDuplicate(o.gap, t) <==> t <= s)
      && o.gap.(expected := g.expected) == g && o.replayed == [] && o.requested == []
  {}

  /**
    replayPacket, given any number `s`: it replays the run at the front of the queue that begins
    with `s`, turns requests on, and asks for what is missing before the next queued packet.
   */
  lemma ReplayPacketReplays(g: Gap, s: nat, accept: bool)
    ensures var o := ReplayPacket(g, s, accept);
      && IsRun(g.queue, s, Drained(o.gap.queue, o.gap.expected, o.replayed))
      && o.requested == (if o.gap.queue == [] then [] else
           [Request(s + |o.replayed|, o.gap.queue[0].seqNum, o.gap.queue[0].seqNum)])
      && o.gap == g.(queue := o.gap.queue, expected := o.gap.expected, requestGap := o.gap.queue == [] || !accept)
  {
    ReplayRunSplits(g.queue, s);
  }

  // ---------------------------------------------------------------- the request flag

  /** The event's request is made and heard. */
  predicate Heard(c: Config, w: World, e: Event)
    requires c.slots > 0
  {
    RequestsOf(c, w, e) != [] && (e.Live? || e.ReplayExpected?) && e.accept
  }

  /** Requests are on after an event exactly when it turned them on, or they were on, and it neither muted them nor was heard. */
  lemma RequestsOnIff(c: Config, w: World, e: Event)
    requires c.slots > 0
    ensures Step(c, w, e).g.requestGap <==>
            (w.g.requestGap || e.Unmute? || e.ReplayExpected?) && !e.Mute? && !Heard(c, w, e)
  {
    hide Drain, ReplayRun, DropThrough;
  }

  /**
    So over a run that never mutes them by hand, requests are on exactly when none has been accepted
    since the last reset: one that the client declines leaves them on.
   */
  lemma {:induction false} RequestsOnIffOpen(c: Config, events: seq<Event>)
    requires c.slots > 0 && forall e :: e in events ==> !e.Mute?
    ensures Run(c, events).g.requestGap <==> Open(Run(c, events).log)
    decreases |events|
  {
    if events != [] {
      var earlier, e := events[..|events| - 1], events[|events| - 1];
      RequestsOnIffOpen(c, earlier);
      StepKeepsOpen(c, Run(c, earlier), e);
    }
  }

  lemma StepKeepsOpen(c: Config, w: World, e: Event)
    requires c.slots > 0 && !e.Mute? && (w.g.requestGap <==> Open(w.log))
    ensures Step(c, w, e).g.requestGap <==> Open(Step(c, w, e).log)
  {
    RequestsOnIff(c, w, e);
    match e
    case Live(p, packetNum, accept, _) => AskedOpen(w.log, Update(c, w.g, p, packetNum, accept).requested, accept);
    case ReplayExpected(accept) =>
      SpacedAppend(w.log, Reset);
      AskedOpen(w.log + [Reset], ReplayPacket(w.g, w.g.expected, accept).requested, accept);
    case Unmute => SpacedAppend(w.log, Reset);
    case _ =>
  }

  lemma AskedOpen(log: seq<Entry>, requests: seq<Request>, accept: bool)
    requires |requests| <= 1
    ensures Open(log + AskedAll(requests, accept)) <==> Open(log) && !(requests != [] && accept)
  {
    if requests == [] {
      assert log + [] == log;
    } else {
      assert AskedAll(requests, accept) == [Asked(requests[0], accept)];
      SpacedAppend(log, Asked(requests[0], accept));
    }
  }
}
