/** That no accepted packet is lost silently: which events, and only which, throw one away. */
module GapKept {
  import opened Bytes
  import opened GapSpec
  import opened GapRuns

  /** The number has been handled, or its packet is in the buffer. */
  ghost predicate AtHand(w: World, s: nat) {
    s < w.g.expected || exists p :: p in w.g.queue && p.seqNum == s
  }

  /** The packet takes the place of the front of a full buffer. */
  predicate Replaces(c: Config, g: Gap, p: Packet) {
    && c.overflow.MinSeq? && |g.queue| >= c.slots && 0 < |p.payload| <= c.slotBytes
    && g.expected < p.seqNum && g.maxSeq < p.seqNum
  }

  /** The event throws away number `s`, which has not been handled yet. */
  predicate Loses(c: Config, w: World, e: Event, s: nat) {
    w.g.expected <= s &&
    match e
    case DrainAll => true
    case DrainUpTo(last) => s <= last
    case Live(p, _, _, _) => Replaces(c, w.g, p) && w.g.queue != [] && w.g.queue[0].seqNum == s
    case _ => false
  }

  lemma DrainKeepsAtHand(queue: seq<Packet>, expected: nat, s: nat)
    requires Increasing(queue)
    ensures var d := Drain(queue, expected);
      s < expected || (exists p :: p in queue && p.seqNum == s) ==>
      s < d.expected || (exists p :: p in d.queue && p.seqNum == s)
  {
    var dropped := DrainSplits(queue, expected);
    var d := Drain(queue, expected);
    hide Drain;
    if p :| p in queue && p.seqNum == s {
      assert p in dropped || p in d.replayed || p in d.queue;
      if p in d.replayed {
        var i :| 0 <= i < |d.replayed| && d.replayed[i] == p;
      }
    }
  }

  lemma DeliverKeepsAtHand(w: World, p: Packet, flush: bool, s: nat)
    requires Ordered(w.g) && IsInSeq(w.g, p.seqNum) && AtHand(w, s)
    ensures AtHand(Deliver(w, p, flush), s)
  {
    if flush {
      DrainKeepsAtHand(w.g.queue, p.seqNum + 1, s);
    }
  }

  lemma ReplayKeepsAtHand(c: Config, w: World, e: Event, s: nat)
    requires c.slots > 0 && RunInv(c, w) && AtHand(w, s) && e.ReplayExpected?
    ensures AtHand(Step(c, w, e), s)
  {
    var d := ReplayRun(w.g.queue, w.g.expected);
    ReplayRunSplits(w.g.queue, w.g.expected);
    assert Step(c, w, e).g.queue == d.queue && Step(c, w, e).g.expected == d.expected;
    hide ReplayRun, Step;
    if p :| p in w.g.queue && p.seqNum == s {
      assert p in d.replayed || p in d.queue;
      if p in d.replayed {
        var i :| 0 <= i < |d.replayed| && d.replayed[i] == p;
      }
    }
  }

  lemma LiveKeepsAtHand(c: Config, w: World, e: Event, s: nat)
    requires c.slots > 0 && RunInv(c, w) && AtHand(w, s) && e.Live?
    ensures AtHand(Step(c, w, e), s) <==> !Loses(c, w, e, s)
  {
    var o := Update(c, w.g, e.p, e.packetNum, e.accept);
    UpdateEffect(c, w.g, e.p, e.packetNum, e.accept);
    var w' := w.(g := o.gap);
    if w.g.expected <= s {
      QueueAfterLive(c, w.g, e.p, e.packetNum, e.accept, s);
    }
    assert AtHand(w', s) <==> !Loses(c, w, e, s);
    hide Update;
    if o.ok && IsInSeq(o.gap, e.p.seqNum) {
      assert e.p.seqNum == w.g.expected;
      if AtHand(w', s) {
        DeliverKeepsAtHand(w', e.p, e.flush, s);
      }
    }
  }

  /** What update does to the queue. */
  lemma QueueAfterUpdate(c: Config, g: Gap, p: Packet, packetNum: nat, accept: bool)
    requires c.slots > 0 && Ordered(g) && |g.queue| <= c.slots
    ensures var queue := Update(c, g, p, packetNum, accept).gap.queue;
      if Replaces(c, g, p) then queue == g.queue[1..] + [p] && g.maxSeq < p.seqNum
      else queue == g.queue || queue == g.queue + [p]
  {
    hide Ordered;
  }

  /** What update does to a queued number. */
  lemma QueueAfterLive(c: Config, g: Gap, p: Packet, packetNum: nat, accept: bool, s: nat)
    requires c.slots > 0 && Ordered(g) && |g.queue| <= c.slots && exists q :: q in g.queue && q.seqNum == s
    ensures var o := Update(c, g, p, packetNum, accept);
      (exists q :: q in o.gap.queue && q.seqNum == s) <==> !(Replaces(c, g, p) && g.queue[0].seqNum == s)
  {
    var queue := Update(c, g, p, packetNum, accept).gap.queue;
    QueueAfterUpdate(c, g, p, packetNum, accept);
    hide Update, Replaces;
    var q :| q in g.queue && q.seqNum == s;
    HeadOrTail(g.queue);
    IncreasingTail(g.queue);
    if queue == g.queue[1..] + [p] {
      assert forall u :: u in queue <==> u in g.queue[1..] || u == p;
    } else {
      assert q in queue;
    }
  }

  /** A number at hand stays at hand, but for the events that throw its queued packet away. */
  lemma AtHandUntilLost(c: Config, w: World, e: Event, s: nat)
    requires c.slots > 0 && RunInv(c, w) && AtHand(w, s)
    ensures AtHand(Step(c, w, e), s) <==> !Loses(c, w, e, s)
  {
    hide Update, ReplayPacket, DropThrough, Drain;
    match e
    case Live(_, _, _, _) => LiveKeepsAtHand(c, w, e, s);
    case Recovered(p, flush) =>
      if IsInSeq(w.g, p.seqNum) {
        DeliverKeepsAtHand(w, p, flush, s);
      }
    case ReplayExpected(_) => ReplayKeepsAtHand(c, w, e, s);
    case DrainReplay => DrainKeepsAtHand(w.g.queue, w.g.expected, s);
    case DrainUpTo(last) =>
      QueueIncreases(c, w);
      DropThroughKeeps(w.g.queue, last);
    case _ =>
  }

  /**
    Update accepts a packet with a payload exactly when its number was not at hand, is now, and
    cost no other packet its place.
   */
  lemma AcceptedIffNew(c: Config, w: World, e: Event)
    requires c.slots > 0 && RunInv(c, w) && e.Live? && e.p.payload != []
    ensures var s := e.p.seqNum;
      Update(c, w.g, e.p, e.packetNum, e.accept).ok <==>
      !AtHand(w, s) && AtHand(Step(c, w, e), s) && !Replaces(c, w.g, e.p)
  {
    var o, s := Update(c, w.g, e.p, e.packetNum, e.accept), e.p.seqNum;
    if o.ok && IsInSeq(o.gap, s) {
      StepKeepsRunInv(c, w, e);
      DeliveredIsAtHand(c, w, e);
    } else if o.ok {
      assert o.gap.queue == w.g.queue + [e.p];
      assert e.p in o.gap.queue;
    }
  }

  lemma DeliveredIsAtHand(c: Config, w: World, e: Event)
    requires c.slots > 0 && RunInv(c, w) && Delivers(c, w, e)
    ensures AtHand(Step(c, w, e), e.p.seqNum)
  {
    StepKeepsRunInv(c, w, e);
  }

  /**
    A packet with a payload that update accepted stays at hand through the rest of the run, until
    an event throws it away from the buffer.
   */
  lemma {:induction false} AcceptedUntilLost(c: Config, events: seq<Event>, i: nat, k: nat)
    requires c.slots > 0 && i < k <= |events| && events[i].Live? && events[i].p.payload != []
    requires Accepted(c, events, i)
    ensures !AtHand(Run(c, events[..i]), events[i].p.seqNum)
    ensures (forall j :: i < j < k ==> !Loses(c, Run(c, events[..j]), events[j], events[i].p.seqNum)) ==>
            AtHand(Run(c, events[..k]), events[i].p.seqNum)
  {
    hide Step, Run, RunInv, AtHand, Loses, Update, Replaces;
    var s := events[i].p.seqNum;
    RunKeepsRunInv(c, events[..i]);
    AcceptedIffNew(c, Run(c, events[..i]), events[i]);
    RunOneMore(c, events, k - 1);
    if i < k - 1 {
      AcceptedUntilLost(c, events, i, k - 1);
      RunKeepsRunInv(c, events[..k - 1]);
      if AtHand(Run(c, events[..k - 1]), s) {
        AtHandUntilLost(c, Run(c, events[..k - 1]), events[k - 1], s);
      }
    }
  }

  predicate Accepted(c: Config, events: seq<Event>, i: nat)
    requires c.slots > 0 && i < |events| && events[i].Live?
  {
    var e := events[i];
    Update(c, Run(c, events[..i]).g, e.p, e.packetNum, e.accept).ok
  }
}
