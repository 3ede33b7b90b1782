/** Whole runs of a feed: a client, its live and recovery streams, and one GapIdentifier. */
module GapRuns {
  import opened Bytes
  import opened GapSpec

  /** One thing that happens; `flush` tells which of the two update calls follows a delivery. */
  datatype Event =
    | Live(p: Packet, packetNum: nat, accept: bool, flush: bool)   // a packet of the live stream
    | Recovered(p: Packet, flush: bool)                            // a packet of the recovery stream
    | ReplayExpected(accept: bool)                                 // replayPacket at the expected number
    | DrainReplay
    | DrainAll
    | DrainUpTo(last: nat)
    | Mute                                                         // setReRequestFlag
    | Unmute                                                       // unsetReRequestFlag

  datatype Entry = Asked(request: Request, accepted: bool) | Reset

  /**
    The GapIdentifier and the history of the run: the packets the client has handled in order,
    those of them that were replayed, those ever put in the buffer, and the request log.
   */
  datatype World = World(g: Gap, delivered: seq<Packet>, replayed: seq<Packet>, buffered: seq<Packet>, log: seq<Entry>)

  const START := World(INITIAL, [], [], [], [])

  function AskedAll(requests: seq<Request>, accepted: bool): seq<Entry> {
    if requests == [] then [] else [Asked(requests[0], accepted)] + AskedAll(requests[1..], accepted)
  }

  /** The operation's replays reach the client. */
  function Absorb(w: World, o: Outcome): World {
    w.(g := o.gap, delivered := w.delivered + o.replayed, replayed := w.replayed + o.replayed)
  }

  /** The world after update, before the client delivers. */
  function AfterUpdate(w: World, e: Event, o: Outcome): World
    requires e.Live?
  {
    w.(g := o.gap, log := w.log + AskedAll(o.requested, e.accept),
       buffered := if o.gap.maxSeq > w.g.maxSeq then w.buffered + [e.p] else w.buffered)
  }

  /** The client handles an in-sequence packet and reports it. */
  function Deliver(w: World, p: Packet, flush: bool): World {
    var w' := w.(delivered := w.delivered + [p]);
    Absorb(w', if flush then UpdateSeqNumFlush(w.g, p.seqNum) else UpdateSeqNum(w.g, p.seqNum))
  }

  function Step(c: Config, w: World, e: Event): World
    requires c.slots > 0
  {
    match e
    case Live(p, packetNum, accept, flush) =>
      var o := Update(c, w.g, p, packetNum, accept);
      var w' := AfterUpdate(w, e, o);
      if o.ok && IsInSeq(o.gap, p.seqNum) then Deliver(w', p, flush) else w'
    case Recovered(p, flush) =>
      if IsInSeq(w.g, p.seqNum) then Deliver(w, p, flush) else w
    case ReplayExpected(accept) =>
      var o := ReplayPacket(w.g, w.g.expected, accept);
      Absorb(w, o).(log := w.log + [Reset] + AskedAll(o.requested, accept))
    case DrainReplay => Absorb(w, DrainAndReplay(w.g))
    case DrainAll => w.(g := w.g.(queue := []))
    case DrainUpTo(last) => w.(g := w.g.(queue := DropThrough(w.g.queue, last)))
    case Mute => w.(g := w.g.(requestGap := false))
    case Unmute => w.(g := w.g.(requestGap := true), log := w.log + [Reset])
  }

  function Run(c: Config, events: seq<Event>): World
    requires c.slots > 0
    decreases |events|
  {
    if events == [] then START else Step(c, Run(c, events[..|events| - 1]), events[|events| - 1])
  }

  // ---------------------------------------------------------------- delivery

  /** Packets numbered first, first + 1, ... */
  ghost predicate Consecutive(ps: seq<Packet>, first: nat) {
    forall i :: 0 <= i < |ps| ==> ps[i].seqNum == first + i
  }

  lemma ConsecutiveAppend(ps: seq<Packet>, qs: seq<Packet>, first: nat)
    requires Consecutive(ps, first) && Consecutive(qs, first + |ps|)
    ensures Consecutive(ps + qs, first)
  {}

  ghost predicate Subset(ps: seq<Packet>, qs: seq<Packet>) {
    forall p :: p in ps ==> p in qs
  }

  /** Delivered in order without gap or repetition; queued and replayed packets as they were given. */
  ghost predicate RunInv(c: Config, w: World) {
    && Ordered(w.g) && |w.g.queue| <= c.slots
    && Consecutive(w.delivered, 1) && w.g.expected == |w.delivered| + 1
    && Increasing(w.buffered) && (forall p :: p in w.buffered ==> p.seqNum <= w.g.maxSeq)
    && Subset(w.g.queue, w.buffered) && Subset(w.replayed, w.buffered)
  }

  lemma AbsorbDrain(c: Config, w: World)
    requires RunInv(c, w)
    ensures RunInv(c, Absorb(w, DrainAndReplay(w.g)))
    ensures Ahead(Absorb(w, DrainAndReplay(w.g)).g)
  {
    var d := Drain(w.g.queue, w.g.expected);
    var dropped := DrainSplits(w.g.queue, w.g.expected);
    SuffixOrdered(w.g, dropped + d.replayed, d.queue);
    assert Consecutive(d.replayed, 1 + |w.delivered|);
    ConsecutiveAppend(w.delivered, d.replayed, 1);
  }

  lemma SuffixOrdered(g: Gap, front: seq<Packet>, back: seq<Packet>)
    requires Ordered(g) && g.queue == front + back
    ensures Ordered(g.(queue := back))
    ensures Subset(front, g.queue) && Subset(back, g.queue)
  {
    forall i, j | 0 <= i < j < |back|
      ensures back[i].seqNum < back[j].seqNum
    {
      assert back[i] == g.queue[|front| + i] && back[j] == g.queue[|front| + j];
    }
  }

  /** The packet was too early and above all buffered before; a full buffer lost its front for it. */
  ghost predicate Appends(c: Config, g: Gap, p: Packet, o: Outcome) {
    && g.maxSeq < p.seqNum == o.gap.maxSeq && g.expected < p.seqNum
    && if |g.queue| < c.slots then o.gap.queue == g.queue + [p]
       else c.overflow.MinSeq? && g.queue != [] && o.gap.queue == g.queue[1..] + [p] && !o.ok
  }

  /** Update never moves the expected number, and leaves the queue alone or appends to it. */
  lemma UpdateEffect(c: Config, g: Gap, p: Packet, packetNum: nat, accept: bool)
    requires c.slots > 0 && Ordered(g) && |g.queue| <= c.slots
    ensures var o := Update(c, g, p, packetNum, accept);
      && Ordered(o.gap) && o.gap.expected == g.expected && o.replayed == [] && |o.gap.queue| <= c.slots
      && (Appends(c, g, p, o) || (o.gap.maxSeq == g.maxSeq && o.gap.queue == g.queue))
  {
    if g.maxSeq < p.seqNum {
      PushOrdered(g, p);
      if g.queue != [] {
        ReplaceOrdered(g, p);
      }
    }
  }

  lemma IncreasingAppend(ps: seq<Packet>, p: Packet, top: nat)
    requires Increasing(ps) && (forall q :: q in ps ==> q.seqNum <= top) && top < p.seqNum
    ensures Increasing(ps + [p])
  {}

  lemma DeliverKeepsRunInv(c: Config, w: World, p: Packet, flush: bool)
    requires RunInv(c, w) && IsInSeq(w.g, p.seqNum)
    ensures RunInv(c, Deliver(w, p, flush))
    ensures flush ==> Ahead(Deliver(w, p, flush).g)
    ensures !flush && Ahead(w.g) ==>
      (Ahead(Deliver(w, p, flush).g) <==> forall q :: q in w.g.queue ==> q.seqNum != p.seqNum + 1)
  {
    var w' := w.(delivered := w.delivered + [p], g := w.g.(expected := p.seqNum + 1));
    ConsecutiveAppend(w.delivered, [p], 1);
    assert RunInv(c, w');
    if flush {
      AbsorbDrain(c, w');
      assert Deliver(w, p, flush) == Absorb(w', DrainAndReplay(w'.g));
    } else {
      assert Deliver(w, p, flush) == w';
    }
  }

  lemma UpdateKeepsRunInv(c: Config, w: World, e: Event, o: Outcome)
    requires c.slots > 0 && RunInv(c, w) && e.Live? && o == Update(c, w.g, e.p, e.packetNum, e.accept)
    ensures RunInv(c, AfterUpdate(w, e, o))
    ensures Ahead(w.g) ==> Ahead(o.gap)
    ensures IsInSeq(o.gap, e.p.seqNum) ==> o.gap.queue == w.g.queue
  {
    UpdateEffect(c, w.g, e.p, e.packetNum, e.accept);
    hide Update;
    if o.gap.maxSeq > w.g.maxSeq {
      IncreasingAppend(w.buffered, e.p, w.g.maxSeq);
    }
  }

  lemma LiveKeepsRunInv(c: Config, w: World, e: Event)
    requires c.slots > 0 && RunInv(c, w) && e.Live?
    ensures RunInv(c, Step(c, w, e))
    ensures Ahead(w.g) ==> (Ahead(Step(c, w, e).g) <==> Careful(c, w, e))
  {
    var o := Update(c, w.g, e.p, e.packetNum, e.accept);
    var w' := AfterUpdate(w, e, o);
    UpdateKeepsRunInv(c, w, e, o);
    hide Update, RunInv;
    if o.ok && IsInSeq(o.gap, e.p.seqNum) {
      DeliverKeepsRunInv(c, w', e.p, e.flush);
    }
  }

  lemma AheadReplaysNothing(g: Gap)
    requires Ahead(g)
    ensures ReplayRun(g.queue, g.expected) == Drained(g.queue, g.expected, [])
  {}

  lemma AbsorbReplayRun(c: Config, w: World, d: Drained)
    requires RunInv(c, w) && d == ReplayRun(w.g.queue, w.g.expected)
    ensures RunInv(c, w.(g := w.g.(queue := d.queue, expected := d.expected),
                         delivered := w.delivered + d.replayed, replayed := w.replayed + d.replayed))
  {
    ReplayRunSplits(w.g.queue, w.g.expected);
    SuffixOrdered(w.g, d.replayed, d.queue);
    ConsecutiveAppend(w.delivered, d.replayed, 1);
  }

  lemma ReplayKeepsRunInv(c: Config, w: World, e: Event)
    requires c.slots > 0 && RunInv(c, w) && e.ReplayExpected?
    ensures RunInv(c, Step(c, w, e))
    ensures Ahead(w.g) ==> Ahead(Step(c, w, e).g)
  {
    var d := ReplayRun(w.g.queue, w.g.expected);
    AbsorbReplayRun(c, w, d);
    var o := ReplayPacket(w.g, w.g.expected, e.accept);
    assert o.replayed == d.replayed && o.gap.queue == d.queue && o.gap.expected == d.expected;
    if Ahead(w.g) {
      AheadReplaysNothing(w.g);
    }
  }

  lemma DropKeepsRunInv(c: Config, w: World, kept: seq<Packet>)
    requires RunInv(c, w) && |kept| <= |w.g.queue| && kept == w.g.queue[|w.g.queue| - |kept|..]
    ensures RunInv(c, w.(g := w.g.(queue := kept)))
    ensures Ahead(w.g) ==> Ahead(w.g.(queue := kept))
  {}

  lemma QueueIncreases(c: Config, w: World)
    requires RunInv(c, w)
    ensures Increasing(w.g.queue)
  {}

  lemma FlagKeepsRunInv(c: Config, w: World, flag: bool)
    requires RunInv(c, w)
    ensures forall log :: RunInv(c, w.(g := w.g.(requestGap := flag), log := log))
    ensures Ahead(w.g) ==> Ahead(w.g.(requestGap := flag))
  {}

  /** The event's packet is handled in sequence: it is the expected one and, if live, accepted. */
  predicate Delivers(c: Config, w: World, e: Event)
    requires c.slots > 0
  {
    match e
    case Live(p, packetNum, accept, _) =>
      var o := Update(c, w.g, p, packetNum, accept);
      o.ok && IsInSeq(o.gap, p.seqNum)
    case Recovered(p, _) => IsInSeq(w.g, p.seqNum)
    case _ => false
  }

  predicate Flushes(e: Event) {
    match e
    case Live(_, _, _, flush) => flush
    case Recovered(_, flush) => flush
    case _ => true
  }

  /** A delivery may go without flush only while the number behind it is not in the buffer. */
  predicate Careful(c: Config, w: World, e: Event)
    requires c.slots > 0
  {
    Delivers(c, w, e) && !Flushes(e) ==> forall q :: q in w.g.queue ==> q.seqNum != e.p.seqNum + 1
  }

  /** Every event keeps the invariant, and exactly the careful ones keep the queue ahead. */
  lemma StepKeepsRunInv(c: Config, w: World, e: Event)
    requires c.slots > 0 && RunInv(c, w)
    ensures RunInv(c, Step(c, w, e))
    ensures Ahead(w.g) ==> (Ahead(Step(c, w, e).g) <==> Careful(c, w, e))
  {
    hide Update, ReplayPacket, DropThrough, Drain, Ordered, Increasing, Consecutive, Subset;
    match e
    case Live(p, packetNum, accept, flush) =>
      LiveKeepsRunInv(c, w, e);
    case Recovered(p, flush) =>
      if IsInSeq(w.g, p.seqNum) {
        DeliverKeepsRunInv(c, w, p, flush);
      }
    case ReplayExpected(accept) => ReplayKeepsRunInv(c, w, e);
    case DrainReplay => AbsorbDrain(c, w);
    case DrainAll => DropKeepsRunInv(c, w, []);
    case DrainUpTo(last) =>
      QueueIncreases(c, w);
      DropThroughKeeps(w.g.queue, last);
      DropKeepsRunInv(c, w, DropThrough(w.g.queue, last));
    case Mute => FlagKeepsRunInv(c, w, false);
    case Unmute => FlagKeepsRunInv(c, w, true);
  }

  // ---------------------------------------------------------------- theorems over every run

  lemma {:induction false} RunKeepsRunInv(c: Config, events: seq<Event>)
    requires c.slots > 0
    ensures RunInv(c, Run(c, events))
    decreases |events|
  {
    if events != [] {
      var earlier, e := events[..|events| - 1], events[|events| - 1];
      RunKeepsRunInv(c, earlier);
      StepKeepsRunInv(c, Run(c, earlier), e);
    }
  }

  lemma RunOneMore(c: Config, events: seq<Event>, i: nat)
    requires c.slots > 0 && i < |events|
    ensures Run(c, events[..i + 1]) == Step(c, Run(c, events[..i]), events[i])
  {
    assert events[..i + 1][..i] == events[..i];
  }

  /**
    Whatever comes in, in whatever order, the client handles the numbers 1, 2, 3, ... up to just
    below the expected one, each once; so a number is a duplicate exactly when it was handled.
   */
  lemma DeliveredInOrderOnce(c: Config, events: seq<Event>)
    requires c.slots > 0
    ensures var w := Run(c, events);
      && Consecutive(w.delivered, 1) && w.g.expected == |w.delivered| + 1
      && forall s: nat :: s >= 1 ==>
           (IsDuplicate(w.g, s) <==> exists i :: 0 <= i < |w.delivered| && w.delivered[i].seqNum == s)
  {
    RunKeepsRunInv(c, events);
    var w := Run(c, events);
    forall s: nat | s >= 1 && IsDuplicate(w.g, s)
      ensures exists i :: 0 <= i < |w.delivered| && w.delivered[i].seqNum == s
    {
      assert w.delivered[s - 1].seqNum == s;
    }
  }

  ghost predicate GivenLive(events: seq<Event>, p: Packet) {
    exists i :: 0 <= i < |events| && events[i].Live? && events[i].p == p
  }

  lemma {:induction false} BufferedWereGiven(c: Config, events: seq<Event>)
    requires c.slots > 0
    ensures forall p :: p in Run(c, events).buffered ==> GivenLive(events, p)
    decreases |events|
  {
    if events != [] {
      var earlier, e := events[..|events| - 1], events[|events| - 1];
      BufferedWereGiven(c, earlier);
      forall p | p in Run(c, events).buffered
        ensures GivenLive(events, p)
      {
        if p in Run(c, earlier).buffered {
          assert GivenLive(earlier, p);
          var i :| 0 <= i < |earlier| && earlier[i].Live? && earlier[i].p == p;
          assert events[i] == earlier[i];
        } else {
          assert events[|events| - 1].p == p;
        }
      }
    }
  }

  /**
    A replayed packet is, byte for byte, one that update was given, and the only one ever buffered
    under its number.
   */
  lemma ReplayedAsGiven(c: Config, events: seq<Event>, p: Packet)
    requires c.slots > 0 && p in Run(c, events).replayed
    ensures GivenLive(events, p)
    ensures forall q :: q in Run(c, events).buffered && q.seqNum == p.seqNum ==> q == p
  {
    RunKeepsRunInv(c, events);
    BufferedWereGiven(c, events);
    forall q | q in Run(c, events).buffered && q.seqNum == p.seqNum
      ensures q == p
    {
      OneByNumber(Run(c, events).buffered, p, q);
    }
  }

  lemma OneByNumber(ps: seq<Packet>, p: Packet, q: Packet)
    requires Increasing(ps) && p in ps && q in ps && p.seqNum == q.seqNum
    ensures p == q
  {
    var i, j :| 0 <= i < |ps| && ps[i] == p && 0 <= j < |ps| && ps[j] == q;
    assert !(i < j) && !(j < i);
  }

  // ---------------------------------------------------------------- the request log

  /** No request has been accepted since the last reset of the flag. */
  predicate Open(log: seq<Entry>) {
    log == [] ||
    match log[|log| - 1]
    case Reset => true
    case Asked(_, accepted) => !accepted && Open(log[..|log| - 1])
  }

  predicate Spaced(log: seq<Entry>) {
    log == [] || (Spaced(log[..|log| - 1]) && (log[|log| - 1].Asked? && log[|log| - 1].accepted ==> Open(log[..|log| - 1])))
  }

  lemma SpacedAppend(log: seq<Entry>, entry: Entry)
    ensures Spaced(log + [entry]) <==> Spaced(log) && (entry.Asked? && entry.accepted ==> Open(log))
    ensures Open(log + [entry]) <==> (entry.Reset? || (!entry.accepted && Open(log)))
  {}

  /** The log is spaced, and while the flag is on no accepted request is outstanding. */
  ghost predicate LogInv(w: World) {
    Spaced(w.log) && (w.g.requestGap ==> Open(w.log))
  }

  lemma AskKeepsLog(log: seq<Entry>, g: Gap, o: Outcome, accept: bool)
    requires Spaced(log) && (g.requestGap ==> Open(log))
    requires |o.requested| <= 1 && (o.requested != [] ==> g.requestGap)
    requires o.gap.requestGap == (g.requestGap && (o.requested != [] ==> !accept))
    ensures Spaced(log + AskedAll(o.requested, accept))
    ensures o.gap.requestGap ==> Open(log + AskedAll(o.requested, accept))
  {
    if o.requested == [] {
      assert log + [] == log;
    } else {
      assert AskedAll(o.requested, accept) == [Asked(o.requested[0], accept)];
      SpacedAppend(log, Asked(o.requested[0], accept));
    }
  }

  lemma StepKeepsLogInv(c: Config, w: World, e: Event)
    requires c.slots > 0 && LogInv(w)
    ensures LogInv(Step(c, w, e))
  {
    match e
    case Live(p, packetNum, accept, flush) =>
      AskKeepsLog(w.log, w.g, Update(c, w.g, p, packetNum, accept), accept);
    case ReplayExpected(accept) =>
      SpacedAppend(w.log, Reset);
      AskKeepsLog(w.log + [Reset], w.g.(requestGap := true), ReplayPacket(w.g, w.g.expected, accept), accept);
    case Unmute => SpacedAppend(w.log, Reset);
    case _ =>
  }

  lemma {:induction false} RunKeepsLogInv(c: Config, events: seq<Event>)
    requires c.slots > 0
    ensures LogInv(Run(c, events))
    decreases |events|
  {
    if events != [] {
      RunKeepsLogInv(c, events[..|events| - 1]);
      StepKeepsLogInv(c, Run(c, events[..|events| - 1]), events[|events| - 1]);
    }
  }

  lemma {:induction false} OpenNeedsReset(log: seq<Entry>, i: nat)
    requires Open(log) && i < |log| && log[i].Asked? && log[i].accepted
    ensures exists k :: i < k < |log| && log[k].Reset?
    decreases |log|
  {
    var last := |log| - 1;
    if !log[last].Reset? {
      OpenNeedsReset(log[..last], i);
      var k :| i < k < last && log[..last][k].Reset?;
      assert log[k].Reset?;
    }
  }

  lemma {:induction false} SpacedMeans(log: seq<Entry>, i: nat, j: nat)
    requires Spaced(log) && i < j < |log|
    requires log[i].Asked? && log[i].accepted && log[j].Asked? && log[j].accepted
    ensures exists k :: i < k < j && log[k].Reset?
    decreases |log|
  {
    var last := |log| - 1;
    if j == last {
      OpenNeedsReset(log[..last], i);
      var k :| i < k < last && log[..last][k].Reset?;
      assert log[k].Reset?;
    } else {
      SpacedMeans(log[..last], i, j);
      var k :| i < k < j && log[..last][k].Reset?;
      assert log[k].Reset?;
    }
  }

  /** Between any two accepted requests of any run, the re-request flag was reset. */
  lemma OneAcceptedRequestPerReset(c: Config, events: seq<Event>, i: nat, j: nat)
    requires c.slots > 0 && i < j < |Run(c, events).log|
    requires Run(c, events).log[i].Asked? && Run(c, events).log[i].accepted
    requires Run(c, events).log[j].Asked? && Run(c, events).log[j].accepted
    ensures exists k :: i < k < j && Run(c, events).log[k].Reset?
  {
    RunKeepsLogInv(c, events);
    SpacedMeans(Run(c, events).log, i, j);
  }
}
