/** What holds over every run of the concurrent byte ring, and the one way it can go wrong. */
module RingRuns {
  import opened Bytes
  import opened Circular
  import opened RingProtocol

  /** `acts` can be carried out one after the other from `s`. */
  ghost predicate Runs(s: State, acts: seq<Action>)
    decreases |acts|
  {
    acts != [] ==> |s.mem| > 0 && Enabled(s, acts[0]) && Runs(Apply(s, acts[0]), acts[1..])
  }

  ghost function Exec(s: State, acts: seq<Action>): State
    requires Runs(s, acts)
    decreases |acts|
  {
    if acts == [] then s else Exec(Apply(s, acts[0]), acts[1..])
  }

  /** Stream position `k` lives in the `i`-th cell of the producer's window. */
  ghost predicate Holds(s: State, i: nat, k: nat)
    requires s.cap > 0 && s.producer.Writing?
  {
    (s.producer.at + i) % s.cap == k % s.cap
  }

  /** No cell of the window the producer may write holds a byte not yet released. */
  ghost predicate WindowIsFree(s: State) {
    s.cap > 0 && s.producer.Writing? ==>
      forall i: nat, k: nat ::
        i < s.producer.len && s.released <= k < |s.committed| ==> !Holds(s, i, k)
  }

  /** `WindowIsFree` in every state of the run. */
  ghost predicate AlwaysFree(s: State, acts: seq<Action>)
    requires Runs(s, acts)
    decreases |acts|
  {
    WindowIsFree(s) && (acts != [] ==> AlwaysFree(Apply(s, acts[0]), acts[1..]))
  }

  /** No step of the run is a write-index load in a `StaleFull` state. */
  ghost predicate NoStaleLoad(s: State, acts: seq<Action>)
    requires Runs(s, acts)
    decreases |acts|
  {
    acts != [] ==>
      && !(acts[0].ProducerLoadsWrite? && StaleFull(s))
      && NoStaleLoad(Apply(s, acts[0]), acts[1..])
  }

  /** Whenever write_buffer loads the read index, the buffer has a free byte. */
  ghost predicate RoomAtLoads(s: State, acts: seq<Action>)
    requires Runs(s, acts)
    decreases |acts|
  {
    acts != [] ==>
      && (acts[0].ProducerLoadsRead? ==> Occupancy(s) < s.cap)
      && RoomAtLoads(Apply(s, acts[0]), acts[1..])
  }

  /** The consumer does nothing between the two loads of a write_buffer call. */
  ghost predicate LoadsTogether(s: State, acts: seq<Action>)
    requires Runs(s, acts)
    decreases |acts|
  {
    acts != [] ==>
      && (s.producer.LoadedRead? ==> acts[0].ProducerLoadsWrite?)
      && LoadsTogether(Apply(s, acts[0]), acts[1..])
  }

  /** The bytes the consumer has copied out, then those it sees in the window it holds. */
  ghost function Seen(s: State): seq<byte>
    requires |s.mem| > 0
  {
    match s.consumer
    case Reading(at, len) => s.taken + View(s.mem, at, len)
    case Releasing(_, n, at, rest) => s.taken + View(s.mem, at + n, rest)
    case HalfWrapped(at, len) => s.taken + View(s.mem, at, len)
    case _ => s.taken
  }

  // ---------------------------------------------------------------- safety

  lemma InvIsFree(s: State)
    requires Inv(s)
    ensures WindowIsFree(s)
  {
    if s.producer.Writing? {
      forall i: nat, k: nat | i < s.producer.len && s.released <= k < |s.committed|
        ensures !Holds(s, i, k)
      {
        FreeCell(s, i, k);
      }
    }
  }

  /** A stale load hands the producer a window over an unread byte. */
  lemma StaleLoadIsUnsafe(s: State)
    requires Inv(s) && StaleFull(s)
    ensures !WindowIsFree(Apply(s, ProducerLoadsWrite))
  {
    LoadsWriteKeepsInv(s);
    var s' := Apply(s, ProducerLoadsWrite);
    IndexCells(s);
    var k := s.released;
    var i := s.released + s.cap - |s.committed|;
    assert 0 <= i < s'.producer.len;
    ShiftMod(s.writeIdx, |s.committed|, i, s.cap);
    ModAddLaps(k, 1, s.cap);
    assert Holds(s', i, k);
  }

  lemma {:induction false} RunKeepsInv(s: State, acts: seq<Action>)
    requires Inv(s) && Runs(s, acts) && NoStaleLoad(s, acts)
    ensures Inv(Exec(s, acts))
    decreases |acts|
  {
    if acts != [] {
      StepKeepsInv(s, acts[0]);
      RunKeepsInv(Apply(s, acts[0]), acts[1..]);
    }
  }

  lemma {:induction false} SafeFrom(s: State, acts: seq<Action>)
    requires Inv(s) && Runs(s, acts)
    ensures AlwaysFree(s, acts) <==> NoStaleLoad(s, acts)
    decreases |acts|
  {
    InvIsFree(s);
    if acts != [] {
      var s' := Apply(s, acts[0]);
      if acts[0].ProducerLoadsWrite? && StaleFull(s) {
        StaleLoadIsUnsafe(s);
        assert !AlwaysFree(s', acts[1..]);
      } else {
        StepKeepsInv(s, acts[0]);
        SafeFrom(s', acts[1..]);
      }
    }
  }

  /**
    Safety, exactly: over any interleaving the producer never owns an unread byte if and only if
    write_buffer never loads the write index after a stale full read index.
   */
  lemma SafeIffNoStaleLoad(cap: nat, mem: seq<byte>, acts: seq<Action>)
    requires 0 < cap < TWO_31 && |mem| == cap && Runs(Init(cap, mem), acts)
    ensures AlwaysFree(Init(cap, mem), acts) <==> NoStaleLoad(Init(cap, mem), acts)
  {
    InitInv(cap, mem);
    SafeFrom(Init(cap, mem), acts);
  }

  lemma {:induction false} RoomAvoidsStaleLoad(s: State, acts: seq<Action>)
    requires Inv(s) && Runs(s, acts) && RoomAtLoads(s, acts)
    requires s.producer.LoadedRead? ==> |s.committed| < s.producer.seenReleased + s.cap
    ensures NoStaleLoad(s, acts)
    decreases |acts|
  {
    if acts != [] {
      StepKeepsInv(s, acts[0]);
      RoomAvoidsStaleLoad(Apply(s, acts[0]), acts[1..]);
    }
  }

  /** With a free byte at every read-index load, every window of the whole run is safe. */
  lemma RoomAtLoadsIsSafe(cap: nat, mem: seq<byte>, acts: seq<Action>)
    requires 0 < cap < TWO_31 && |mem| == cap && Runs(Init(cap, mem), acts)
    requires RoomAtLoads(Init(cap, mem), acts)
    ensures AlwaysFree(Init(cap, mem), acts) && NoStaleLoad(Init(cap, mem), acts)
  {
    InitInv(cap, mem);
    RoomAvoidsStaleLoad(Init(cap, mem), acts);
    SafeIffNoStaleLoad(cap, mem, acts);
  }

  lemma {:induction false} TogetherAvoidsStaleLoad(s: State, acts: seq<Action>)
    requires Inv(s) && Runs(s, acts) && LoadsTogether(s, acts)
    requires s.producer.LoadedRead? ==> s.producer.seenLap == s.readLap
    ensures NoStaleLoad(s, acts)
    decreases |acts|
  {
    if acts != [] {
      StepKeepsInv(s, acts[0]);
      TogetherAvoidsStaleLoad(Apply(s, acts[0]), acts[1..]);
    }
  }

  /** Single-threaded use is safe without any hypothesis on the occupancy. */
  lemma UninterruptedCallsAreSafe(cap: nat, mem: seq<byte>, acts: seq<Action>)
    requires 0 < cap < TWO_31 && |mem| == cap && Runs(Init(cap, mem), acts)
    requires LoadsTogether(Init(cap, mem), acts)
    ensures AlwaysFree(Init(cap, mem), acts) && NoStaleLoad(Init(cap, mem), acts)
  {
    InitInv(cap, mem);
    TogetherAvoidsStaleLoad(Init(cap, mem), acts);
    SafeIffNoStaleLoad(cap, mem, acts);
  }

  // ---------------------------------------------------------------- the stream

  lemma TakenThenShown(stream: seq<byte>, taken: seq<byte>, shown: seq<byte>, i: nat, j: nat)
    requires i <= j <= |stream| && taken == stream[..i] && shown == stream[i..j]
    ensures taken + shown <= stream
  {}

  lemma RestOfWindow(s: State, at: nat, n: nat, rest: nat)
    requires Indices(s) && UnreadInMemory(s) && WindowOk(s, at, n + rest)
    ensures View(s.mem, at + n, rest) == s.committed[s.released + n..s.released + n + rest]
  {
    WindowShowsStream(s, at, n + rest, n + rest);
    ViewSplit(s.mem, at, n, rest);
    var shown := s.committed[s.released..s.released + n + rest];
    assert View(s.mem, at + n, rest) == shown[n..];
  }

  lemma SeenIsPrefix(s: State)
    requires Inv(s)
    ensures Seen(s) <= s.committed
  {
    hide UnreadInMemory, View;
    match s.consumer
    case Reading(at, len) => ShownIsPrefix(s, at, 0, len);
    case HalfWrapped(at, len) => ShownIsPrefix(s, at, 0, len);
    case Releasing(_, n, at, rest) => ShownIsPrefix(s, at, n, rest);
    case _ =>
  }

  lemma ShownIsPrefix(s: State, at: nat, n: nat, rest: nat)
    requires Indices(s) && UnreadInMemory(s) && WindowOk(s, at, n + rest)
    requires s.taken == s.committed[..s.released + n]
    ensures s.taken + View(s.mem, at + n, rest) <= s.committed
  {
    RestOfWindow(s, at, n, rest);
    TakenThenShown(s.committed, s.taken, View(s.mem, at + n, rest), s.released + n, s.released + n + rest);
  }

  /**
    First in, first out: after any run without a stale load, what the consumer has copied out
    followed by what it sees in its window is a prefix of what the producer published.
   */
  lemma ConsumerSeesPrefix(cap: nat, mem: seq<byte>, acts: seq<Action>)
    requires 0 < cap < TWO_31 && |mem| == cap && Runs(Init(cap, mem), acts)
    requires NoStaleLoad(Init(cap, mem), acts)
    ensures |Exec(Init(cap, mem), acts).mem| > 0
    ensures Seen(Exec(Init(cap, mem), acts)) <= Exec(Init(cap, mem), acts).committed
  {
    InitInv(cap, mem);
    RunKeepsInv(Init(cap, mem), acts);
    SeenIsPrefix(Exec(Init(cap, mem), acts));
  }

  // ---------------------------------------------------------------- the indices

  /** Every window lies inside the double mapping and both indices inside their ranges. */
  ghost predicate InBounds(s: State) {
    && s.readIdx <= s.cap && s.writeIdx <= 2 * s.cap
    && (s.producer.Writing? ==> s.producer.at + s.producer.len <= 2 * s.cap)
    && (s.consumer.Reading? ==> s.consumer.at + s.consumer.len <= 2 * s.cap)
    && (s.consumer.Releasing? ==> s.consumer.at + s.consumer.n + s.consumer.rest <= 2 * s.cap)
    && (s.consumer.HalfWrapped? ==> s.consumer.at + s.consumer.len <= 2 * s.cap)
  }

  /** No 32-bit read-modify-write of an index wraps: each equals its exact integer result. */
  ghost predicate ExactStep(s: State, a: Action)
    requires |s.mem| > 0 && Enabled(s, a)
  {
    var s' := Apply(s, a);
    match a
    case ProducerAdvances(count) => s'.writeIdx == s.writeIdx + count
    case ConsumerMovesRead =>
      s'.readIdx == s.readIdx + s.consumer.n - (if s.readIdx + s.consumer.n > s.cap then s.cap else 0)
    case ConsumerMovesWrite => s'.writeIdx == s.writeIdx - s.cap
    case ConsumerLoadsWrite =>
      s'.consumer.at == s.readIdx && s'.consumer.len == s.writeIdx - s.readIdx
    case _ => s'.readIdx == s.readIdx && s'.writeIdx == s.writeIdx
  }

  lemma InvInBounds(s: State)
    requires Inv(s)
    ensures InBounds(s)
  {}

  lemma InvExactStep(s: State, a: Action)
    requires Inv(s) && Enabled(s, a)
    ensures ExactStep(s, a)
  {}

  /**
    In every state of such a run, also between the two subtractions of a wrap, the indices and
    windows are in range, the next step computes exact indices, and at most one wrap has begun
    since the read index was loaded.
   */
  lemma IndicesStayInRange(cap: nat, mem: seq<byte>, acts: seq<Action>, a: Action)
    requires 0 < cap < TWO_31 && |mem| == cap && Runs(Init(cap, mem), acts)
    requires NoStaleLoad(Init(cap, mem), acts)
    ensures var s := Exec(Init(cap, mem), acts);
      && |s.mem| > 0
      && InBounds(s)
      && (Enabled(s, a) ==> ExactStep(s, a))
      && (s.producer.LoadedRead? ==> s.readLap - s.producer.seenLap in {0, s.cap})
  {
    InitInv(cap, mem);
    RunKeepsInv(Init(cap, mem), acts);
    var s := Exec(Init(cap, mem), acts);
    InvInBounds(s);
    if Enabled(s, a) {
      InvExactStep(s, a);
    }
  }

  /**
    What the spin test makes of every pair of loads.  With `used` the bytes unread when the read
    index was loaded: a pair from one lap gives the exact window; a pair torn by a wrap spins,
    except that a read index loaded in mid-wrap over an empty buffer yields an empty window, and
    a read index loaded from a full buffer, with the wrap over, yields a window of `cap`.
   */
  lemma SpinTestOutcome(s: State)
    requires Inv(s) && s.producer.LoadedRead?
    ensures var used := |s.committed| - s.producer.seenReleased;
      Apply(s, ProducerLoadsWrite).producer ==
        if s.writeLap == s.producer.seenLap then Writing(s.writeIdx, s.cap - used)
        else if s.writeLap < s.producer.seenLap then
          if used == 0 then Writing(s.writeIdx, 0) else Outside
        else
          if used == s.cap then Writing(s.writeIdx, s.cap) else Outside
  {}

  // ---------------------------------------------------------------- calls without interleaving

  /** write_buffer, then advance_write(n). */
  function PublishCall(n: nat): seq<Action> {
    [ProducerLoadsRead, ProducerLoadsWrite, ProducerAdvances(n)]
  }

  /** advance_read(n): the second subtraction only when the read index wraps. */
  function ReleaseCall(n: nat, wraps: bool): seq<Action> {
    if wraps then [ConsumerBeginsAdvance(n), ConsumerMovesRead, ConsumerMovesWrite]
    else [ConsumerBeginsAdvance(n), ConsumerMovesRead]
  }

  /** read_buffer, then advance_read(n). */
  function ConsumeCall(n: nat, wraps: bool): seq<Action> {
    [ConsumerLoadsRead, ConsumerLoadsWrite] + ReleaseCall(n, wraps)
  }

  lemma {:induction false} RunsConcat(s: State, first: seq<Action>, second: seq<Action>)
    requires Runs(s, first) && Runs(Exec(s, first), second)
    ensures Runs(s, first + second)
    ensures Exec(s, first + second) == Exec(Exec(s, first), second)
    decreases |first|
  {
    if first == [] {
      assert first + second == second;
    } else {
      assert (first + second)[1..] == first[1..] + second;
      RunsConcat(Apply(s, first[0]), first[1..], second);
    }
  }

  lemma RunsCons(s: State, a: Action, s': State, rest: seq<Action>)
    requires |s.mem| > 0 && Enabled(s, a) && Apply(s, a) == s' && Runs(s', rest)
    ensures Runs(s, [a] + rest) && Exec(s, [a] + rest) == Exec(s', rest)
  {}

  lemma RunsTwo(s: State, a: Action, b: Action)
    requires |s.mem| > 0 && Enabled(s, a) && |Apply(s, a).mem| > 0 && Enabled(Apply(s, a), b)
    ensures Runs(s, [a, b]) && Exec(s, [a, b]) == Apply(Apply(s, a), b)
  {
    var s1 := Apply(s, a);
    RunsCons(s1, b, Apply(s1, b), []);
    RunsCons(s, a, s1, [b] + []);
    assert [a] + ([b] + []) == [a, b];
  }

  lemma RunsThree(s: State, a: Action, b: Action, c: Action)
    requires |s.mem| > 0 && Enabled(s, a)
    requires |Apply(s, a).mem| > 0 && Enabled(Apply(s, a), b)
    requires |Apply(Apply(s, a), b).mem| > 0 && Enabled(Apply(Apply(s, a), b), c)
    ensures Runs(s, [a, b, c]) && Exec(s, [a, b, c]) == Apply(Apply(Apply(s, a), b), c)
  {
    var s1 := Apply(s, a);
    RunsTwo(s1, b, c);
    RunsCons(s, a, s1, [b, c]);
    assert [a] + [b, c] == [a, b, c];
  }

  /** The state after a whole publish call of `n` bytes. */
  function Published(s: State, n: nat): State
    requires |s.mem| > 0 && n <= s.cap - Occupancy(s)
  {
    s.(writeIdx := s.writeIdx + n, producer := Writing(s.writeIdx + n, s.cap - Occupancy(s) - n),
       committed := s.committed + View(s.mem, s.writeIdx, n))
  }

  lemma PublishSteps(s: State, n: nat)
    requires Inv(s) && !s.producer.LoadedRead? && !s.consumer.HalfWrapped?
    requires n <= s.cap - Occupancy(s)
    ensures var loaded := Apply(Apply(s, ProducerLoadsRead), ProducerLoadsWrite);
      Enabled(loaded, ProducerAdvances(n)) && Apply(loaded, ProducerAdvances(n)) == Published(s, n)
  {}

  lemma PublishCallRuns(s: State, n: nat)
    requires Inv(s) && !s.producer.LoadedRead? && !s.consumer.HalfWrapped?
    requires n <= s.cap - Occupancy(s)
    ensures Runs(s, PublishCall(n)) && Exec(s, PublishCall(n)) == Published(s, n)
  {
    PublishSteps(s, n);
    RunsThree(s, ProducerLoadsRead, ProducerLoadsWrite, ProducerAdvances(n));
  }

  /** The state after a whole consume call of `n` bytes. */
  function Consumed(s: State, n: nat): State
    requires |s.mem| > 0 && n <= Occupancy(s)
    requires s.readIdx + n > s.cap ==> s.writeIdx >= s.cap
  {
    var lap := if s.readIdx + n > s.cap then s.cap else 0;
    s.(readIdx := s.readIdx + n - lap, writeIdx := s.writeIdx - lap,
       consumer := Reading(s.readIdx + n, Occupancy(s) - n),
       taken := s.taken + View(s.mem, s.readIdx, n), released := s.released + n,
       readLap := s.readLap + lap, writeLap := s.writeLap + lap)
  }

  /** advance_read in steps, when the read index passes the capacity and when it does not. */
  lemma ReleaseWithWrap(s: State, n: nat)
    requires Inv(s) && s.consumer == Reading(s.readIdx, Occupancy(s)) && n <= Occupancy(s)
    requires s.readIdx + n > s.cap
    ensures s.writeIdx >= s.cap
    ensures Apply(Apply(Apply(s, ConsumerBeginsAdvance(n)), ConsumerMovesRead), ConsumerMovesWrite) == Consumed(s, n)
  {}

  lemma ReleaseWithoutWrap(s: State, n: nat)
    requires Inv(s) && s.consumer == Reading(s.readIdx, Occupancy(s)) && n <= Occupancy(s)
    requires s.readIdx + n <= s.cap
    ensures Apply(Apply(s, ConsumerBeginsAdvance(n)), ConsumerMovesRead) == Consumed(s, n)
  {}

  lemma ReleaseCallRuns(s: State, n: nat, wraps: bool)
    requires Inv(s) && s.consumer == Reading(s.readIdx, Occupancy(s)) && n <= Occupancy(s)
    requires wraps == (s.readIdx + n > s.cap)
    ensures wraps ==> s.writeIdx >= s.cap
    ensures Runs(s, ReleaseCall(n, wraps)) && Exec(s, ReleaseCall(n, wraps)) == Consumed(s, n)
  {
    if wraps {
      ReleaseWithWrap(s, n);
      RunsThree(s, ConsumerBeginsAdvance(n), ConsumerMovesRead, ConsumerMovesWrite);
    } else {
      ReleaseWithoutWrap(s, n);
      RunsTwo(s, ConsumerBeginsAdvance(n), ConsumerMovesRead);
    }
  }

  lemma ReadsWindow(s: State)
    requires Inv(s) && (s.consumer.Waiting? || s.consumer.Reading?)
    ensures Apply(Apply(s, ConsumerLoadsRead), ConsumerLoadsWrite) ==
            s.(consumer := Reading(s.readIdx, Occupancy(s)))
    ensures Inv(s.(consumer := Reading(s.readIdx, Occupancy(s))))
  {
    ConsumerLoadsKeepInv(s, ConsumerLoadsRead);
    ConsumerLoadsKeepInv(Apply(s, ConsumerLoadsRead), ConsumerLoadsWrite);
  }

  lemma ConsumeComposes(s: State, mid: State, n: nat, wraps: bool)
    requires |s.mem| > 0 && Enabled(s, ConsumerLoadsRead)
    requires Apply(Apply(s, ConsumerLoadsRead), ConsumerLoadsWrite) == mid
    requires Runs(mid, ReleaseCall(n, wraps))
    ensures Runs(s, ConsumeCall(n, wraps))
    ensures Exec(s, ConsumeCall(n, wraps)) == Exec(mid, ReleaseCall(n, wraps))
  {}

  lemma ConsumeCallRuns(s: State, n: nat, wraps: bool)
    requires Inv(s) && (s.consumer.Waiting? || s.consumer.Reading?) && n <= Occupancy(s)
    requires wraps == (s.readIdx + n > s.cap)
    ensures wraps ==> s.writeIdx >= s.cap
    ensures Runs(s, ConsumeCall(n, wraps)) && Exec(s, ConsumeCall(n, wraps)) == Consumed(s, n)
  {
    var mid := s.(consumer := Reading(s.readIdx, Occupancy(s)));
    ReadsWindow(s);
    ReleaseCallRuns(mid, n, wraps);
    ConsumeComposes(s, mid, n, wraps);
    hide Runs, Exec, Inv, Apply, View;
    assert Consumed(mid, n) == Consumed(s, n);
  }

  // ---------------------------------------------------------------- the stale load can happen

  function Zeros(n: nat): (z: seq<byte>)
    ensures |z| == n
  {
    seq(n, _ => 0)
  }

  lemma ZeroView(cap: nat, at: nat, len: nat)
    requires cap > 0
    ensures View(Zeros(cap), at, len) == Zeros(len)
  {}

  /** Fill the ring, give back two bytes, publish two more: full again, away from position 0. */
  function FillTwice(cap: nat): seq<Action> {
    PublishCall(cap) + ConsumeCall(2, false) + PublishCall(2)
  }

  /** The producer loads the read index; the consumer releases all but one byte; then the rest. */
  function LoadAcrossWrap(cap: nat): seq<Action>
    requires cap >= 2
  {
    [ProducerLoadsRead] + ConsumeCall(cap - 1, true) + [ProducerLoadsWrite, ProducerStores(cap - 1, 1)]
  }

  /** After FillTwice: full, with both indices past the first two positions. */
  function RefilledState(cap: nat): State
    requires cap >= 2
  {
    State(cap, Zeros(cap), 2, cap + 2, Writing(cap + 2, 0), Reading(2, cap - 2),
          Zeros(cap + 2), Zeros(2), 2, 0, 0)
  }

  /** After the first PublishCall of FillTwice. */
  function FilledState(cap: nat): State {
    State(cap, Zeros(cap), 0, cap, Writing(cap, 0), Waiting, Zeros(cap), [], 0, 0, 0)
  }

  lemma FillRuns(cap: nat)
    requires 2 <= cap < TWO_31
    ensures Inv(FilledState(cap))
    ensures Runs(Init(cap, Zeros(cap)), PublishCall(cap))
    ensures Exec(Init(cap, Zeros(cap)), PublishCall(cap)) == FilledState(cap)
  {
    PublishCallRuns(Init(cap, Zeros(cap)), cap);
    ZeroView(cap, 0, cap);
  }

  /** After the ConsumeCall of FillTwice. */
  function DrainedState(cap: nat): State
    requires cap >= 2
  {
    State(cap, Zeros(cap), 2, cap, Writing(cap, 0), Reading(2, cap - 2), Zeros(cap), Zeros(2), 2, 0, 0)
  }

  lemma DrainRuns(cap: nat)
    requires 2 <= cap < TWO_31 && Inv(FilledState(cap))
    ensures Runs(FilledState(cap), ConsumeCall(2, false))
    ensures Exec(FilledState(cap), ConsumeCall(2, false)) == DrainedState(cap)
  {}

  lemma DrainedInv(cap: nat)
    requires 2 <= cap < TWO_31
    ensures Inv(DrainedState(cap))
  {}

  lemma RefillRuns(cap: nat)
    requires 2 <= cap < TWO_31 && Inv(DrainedState(cap))
    ensures Runs(DrainedState(cap), PublishCall(2))
    ensures Exec(DrainedState(cap), PublishCall(2)) == RefilledState(cap)
  {}

  lemma RefilledInv(cap: nat)
    requires 2 <= cap < TWO_31
    ensures Inv(RefilledState(cap))
  {}

  lemma FillTwiceRuns(cap: nat)
    requires 2 <= cap < TWO_31
    ensures Runs(Init(cap, Zeros(cap)), FillTwice(cap))
    ensures Exec(Init(cap, Zeros(cap)), FillTwice(cap)) == RefilledState(cap)
  {
    var s0, s1 := Init(cap, Zeros(cap)), FilledState(cap);
    FillRuns(cap);
    DrainRuns(cap);
    DrainedInv(cap);
    RefillRuns(cap);
    RunsConcat(s0, PublishCall(cap), ConsumeCall(2, false));
    RunsConcat(s0, PublishCall(cap) + ConsumeCall(2, false), PublishCall(2));
  }

  /** The last store lands on the one byte the consumer still has to read. */
  lemma LoadAcrossWrapRuns(cap: nat)
    requires 2 <= cap < TWO_31
    ensures Runs(RefilledState(cap), LoadAcrossWrap(cap))
    ensures var s := Exec(RefilledState(cap), LoadAcrossWrap(cap));
      && s.committed == Zeros(cap + 2) && s.taken == Zeros(cap + 1)
      && s.consumer == Reading(cap + 1, 1) && s.mem == Zeros(cap)[1 := 1]
  {
    var s0 := RefilledState(cap);
    RefilledInv(cap);
    var s1 := Apply(s0, ProducerLoadsRead);
    StepKeepsInv(s0, ProducerLoadsRead);
    ConsumeCallRuns(s1, cap - 1, true);
    var s2 := Exec(s1, ConsumeCall(cap - 1, true));
    ZeroView(cap, 2, cap - 1);
    assert Zeros(2) + Zeros(cap - 1) == Zeros(cap + 1);
    var s3 := Apply(s2, ProducerLoadsWrite);
    assert s3.producer == Writing(2, cap);
    ModIs(cap + 1, 1, 1, cap);
    var store := ProducerStores(cap - 1, 1);
    var s4 := Apply(s3, store);
    RunsCons(s3, store, s4, []);
    assert [store] + [] == [store];
    RunsCons(s2, ProducerLoadsWrite, s3, [store]);
    assert [ProducerLoadsWrite] + [store] == [ProducerLoadsWrite, store];
    RunsConcat(s1, ConsumeCall(cap - 1, true), [ProducerLoadsWrite, store]);
    RunsCons(s0, ProducerLoadsRead, s1, ConsumeCall(cap - 1, true) + [ProducerLoadsWrite, store]);
    assert LoadAcrossWrap(cap) ==
           [ProducerLoadsRead] + (ConsumeCall(cap - 1, true) + [ProducerLoadsWrite, store]);
  }

  /**
    The hypothesis is needed: for every capacity there is a run, each step of it allowed, in which
    the producer loads the read index of a full buffer, the consumer wraps, and the producer then
    overwrites a published byte before the consumer has read it.
   */
  lemma StaleFullLosesData(cap: nat)
    requires 2 <= cap < TWO_31
    ensures var s, acts := Init(cap, Zeros(cap)), FillTwice(cap) + LoadAcrossWrap(cap);
      Runs(s, acts) && |Exec(s, acts).mem| > 0 && !(Seen(Exec(s, acts)) <= Exec(s, acts).committed)
  {
    FillTwiceRuns(cap);
    LoadAcrossWrapRuns(cap);
    RunsConcat(Init(cap, Zeros(cap)), FillTwice(cap), LoadAcrossWrap(cap));
    var s := Exec(Init(cap, Zeros(cap)), FillTwice(cap) + LoadAcrossWrap(cap));
    ModIs(cap + 1, 1, 1, cap);
    assert Seen(s)[cap + 1] == 1;
    assert s.committed[cap + 1] == 0;
  }
}
