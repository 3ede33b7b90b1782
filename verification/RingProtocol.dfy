/**
  The byte ring of common/RingBuffer.cpp as one producer and one consumer running
  concurrently.  Every action is a single atomic load, fetch_add or fetch_sub, or the store of
  one byte; actions of the two sides interleave freely.  Atomics are sequentially consistent.

  The mapping is twice the capacity long, and position `v` of it is the cell `v % cap`.
 */
module RingProtocol {
  import opened Bytes
  import opened Circular

  /** What the producer is in the middle of. */
  datatype Producer =
    | Outside                                                      // owns nothing
    | LoadedRead(readIdx: nat, seenReleased: nat, seenLap: nat)    // write_buffer, after its first load
    | Writing(at: nat, len: nat)                                   // owns positions at .. at + len

  /** What the consumer is in the middle of. */
  datatype Consumer =
    | Waiting                                                      // owns nothing
    | LoadedOwn(readIdx: nat)                                      // read_buffer, after its first load
    | Reading(at: nat, len: nat)                                   // owns positions at .. at + len
    | Releasing(readIdx: nat, n: nat, at: nat, rest: nat)          // advance_read(n), after its load
    | HalfWrapped(at: nat, len: nat)                               // advance_read, between its subtractions

  /**
    The shared memory and the two indices, and, after them, the history a correctness statement
    needs: the bytes ever published by advance_write, the bytes the consumer copied out of its
    windows, how many bytes it has given back, and how much has been subtracted from either index.
   */
  datatype State = State(
    cap: nat, mem: seq<byte>, readIdx: nat, writeIdx: nat,
    producer: Producer, consumer: Consumer,
    committed: seq<byte>, taken: seq<byte>, released: nat, readLap: nat, writeLap: nat)

  datatype Action =
    | ProducerLoadsRead
    | ProducerLoadsWrite
    | ProducerStores(offset: nat, b: byte)
    | ProducerAdvances(count: nat)
    | ConsumerLoadsRead
    | ConsumerLoadsWrite
    | ConsumerBeginsAdvance(count: nat)
    | ConsumerMovesRead
    | ConsumerMovesWrite

  function Init(cap: nat, mem: seq<byte>): State {
    State(cap, mem, 0, 0, Outside, Waiting, [], [], 0, 0, 0)
  }

  /** Program order of each side, and the callers' duty to advance by no more than the window. */
  predicate Enabled(s: State, a: Action) {
    match a
    case ProducerLoadsRead => !s.producer.LoadedRead?
    case ProducerLoadsWrite => s.producer.LoadedRead?
    case ProducerStores(offset, _) => s.producer.Writing? && offset < s.producer.len
    case ProducerAdvances(count) => s.producer.Writing? && count <= s.producer.len
    case ConsumerLoadsRead => s.consumer.Waiting? || s.consumer.Reading?
    case ConsumerLoadsWrite => s.consumer.LoadedOwn?
    case ConsumerBeginsAdvance(count) => s.consumer.Reading? && count <= s.consumer.len
    case ConsumerMovesRead => s.consumer.Releasing?
    case ConsumerMovesWrite => s.consumer.HalfWrapped?
  }

  /** The window write_buffer hands out for a pair of loaded indices, or `Outside` to spin again. */
  function AfterSpinTest(cap: nat, readIdx: nat, writeIdx: nat): Producer {
    var used := U32(writeIdx - readIdx);
    if used > cap then Outside else Writing(writeIdx, U32(cap - used))
  }

  function Apply(s: State, a: Action): State
    requires |s.mem| > 0 && Enabled(s, a)
  {
    match a
    case ProducerLoadsRead =>
      s.(producer := LoadedRead(s.readIdx, s.released, s.readLap))
    case ProducerLoadsWrite =>
      s.(producer := AfterSpinTest(s.cap, s.producer.readIdx, s.writeIdx))
    case ProducerStores(offset, b) =>
      s.(mem := s.mem[(s.producer.at + offset) % |s.mem| := b])
    case ProducerAdvances(count) =>
      s.(writeIdx := U32(s.writeIdx + count),
         producer := Writing(s.producer.at + count, s.producer.len - count),
         committed := s.committed + View(s.mem, s.producer.at, count))
    case ConsumerLoadsRead =>
      s.(consumer := LoadedOwn(s.readIdx))
    case ConsumerLoadsWrite =>
      s.(consumer := Reading(s.consumer.readIdx, U32(s.writeIdx - s.consumer.readIdx)))
    case ConsumerBeginsAdvance(count) =>
      s.(consumer := Releasing(s.readIdx, count, s.consumer.at, s.consumer.len - count),
         taken := s.taken + View(s.mem, s.consumer.at, count))
    case ConsumerMovesRead =>
      var c := s.consumer;
      if U32(c.readIdx + c.n) > s.cap then
        s.(readIdx := U32(s.readIdx - U32(s.cap - c.n)), consumer := HalfWrapped(c.at + c.n, c.rest),
           released := s.released + c.n, readLap := s.readLap + s.cap)
      else
        s.(readIdx := U32(s.readIdx + c.n), consumer := Reading(c.at + c.n, c.rest),
           released := s.released + c.n)
    case ConsumerMovesWrite =>
      s.(writeIdx := U32(s.writeIdx - s.cap), consumer := Reading(s.consumer.at, s.consumer.len),
         writeLap := s.writeLap + s.cap)
  }

  function Occupancy(s: State): int {
    |s.committed| - s.released
  }

  // ---------------------------------------------------------------- invariant

  ghost predicate Indices(s: State) {
    && 0 < s.cap < TWO_31 && |s.mem| == s.cap
    && s.readLap == s.writeLap + (if s.consumer.HalfWrapped? then s.cap else 0)
    && s.readLap % s.cap == 0 && s.writeLap % s.cap == 0
    && s.released <= |s.committed| <= s.released + s.cap
    && s.released == s.readIdx + s.readLap && s.readIdx <= s.cap
    && |s.committed| == s.writeIdx + s.writeLap && s.writeIdx <= 2 * s.cap
  }

  ghost predicate UnreadInMemory(s: State)
    requires 0 < s.cap == |s.mem|
  {
    forall k :: s.released <= k < |s.committed| ==> s.mem[k % s.cap] == s.committed[k]
  }

  ghost predicate ProducerOk(s: State)
    requires 0 < s.cap
  {
    match s.producer
    case Outside => true
    case LoadedRead(readIdx, seenReleased, seenLap) =>
      && seenReleased == readIdx + seenLap && readIdx <= s.cap
      && seenReleased <= s.released && |s.committed| <= seenReleased + s.cap
      && (s.readLap == seenLap || s.readLap == seenLap + s.cap)
      && (s.writeLap == seenLap || s.writeLap + s.cap == seenLap || s.writeLap == seenLap + s.cap)
    case Writing(at, len) =>
      && at % s.cap == |s.committed| % s.cap
      && at + len <= 2 * s.cap && s.writeIdx + len <= 2 * s.cap
      && |s.committed| + len <= s.released + s.cap
  }

  ghost predicate WindowOk(s: State, at: nat, len: nat)
    requires 0 < s.cap
  {
    at % s.cap == s.released % s.cap && at + len <= 2 * s.cap && s.released + len <= |s.committed|
  }

  ghost predicate ConsumerOk(s: State)
    requires 0 < s.cap && s.released <= |s.committed|
  {
    match s.consumer
    case Waiting => s.taken == s.committed[..s.released]
    case LoadedOwn(readIdx) => readIdx == s.readIdx && s.taken == s.committed[..s.released]
    case Reading(at, len) => WindowOk(s, at, len) && s.taken == s.committed[..s.released]
    case Releasing(readIdx, n, at, rest) =>
      WindowOk(s, at, n + rest) && readIdx == s.readIdx && s.taken == s.committed[..s.released + n]
    case HalfWrapped(at, len) => WindowOk(s, at, len) && s.taken == s.committed[..s.released]
  }

  ghost predicate Inv(s: State) {
    Indices(s) && UnreadInMemory(s) && ProducerOk(s) && ConsumerOk(s)
  }

  /**
    The one dangerous moment: write_buffer is about to load the write index, the buffer was full
    when it loaded the read index, a whole wrap has happened since, and bytes remain unread.
   */
  predicate StaleFull(s: State) {
    && s.producer.LoadedRead?
    && |s.committed| == s.producer.seenReleased + s.cap
    && s.producer.seenLap < s.writeLap
    && s.released < |s.committed|
  }

  // ---------------------------------------------------------------- the steps keep the invariant

  lemma InitInv(cap: nat, mem: seq<byte>)
    requires 0 < cap < TWO_31 && |mem| == cap
    ensures Inv(Init(cap, mem))
  {}

  lemma WholeLaps(idx: nat, laps: nat, cap: nat)
    requires 0 < cap && laps % cap == 0
    ensures (idx + laps) % cap == idx % cap
  {
    assert laps == cap * (laps / cap);
    ModAddLaps(idx, laps / cap, cap);
  }

  /** Both indices name the cell of the stream position they stand for. */
  lemma IndexCells(s: State)
    requires Indices(s)
    ensures s.readIdx % s.cap == s.released % s.cap
    ensures s.writeIdx % s.cap == |s.committed| % s.cap
  {
    WholeLaps(s.readIdx, s.readLap, s.cap);
    WholeLaps(s.writeIdx, s.writeLap, s.cap);
  }

  lemma LoadsReadKeepsInv(s: State)
    requires Inv(s) && Enabled(s, ProducerLoadsRead)
    ensures Inv(Apply(s, ProducerLoadsRead))
  {}

  /** What the pair of loads yields, in terms of the stream. */
  lemma LoadsWriteKeepsInv(s: State)
    requires Inv(s) && Enabled(s, ProducerLoadsWrite)
    ensures !StaleFull(s) ==> Inv(Apply(s, ProducerLoadsWrite))
    ensures StaleFull(s) ==> Apply(s, ProducerLoadsWrite).producer == Writing(s.writeIdx, s.cap)
  {
    IndexCells(s);
  }

  /** A cell of the producer's window holds no unread byte. */
  lemma FreeCell(s: State, i: nat, k: nat)
    requires Inv(s) && s.producer.Writing? && i < s.producer.len
    requires s.released <= k < |s.committed|
    ensures (s.producer.at + i) % s.cap != k % s.cap
  {
    ShiftMod(s.producer.at, |s.committed|, i, s.cap);
    DistinctCells(k, |s.committed| + i, s.cap);
  }

  lemma StoresKeepsInv(s: State, i: nat, b: byte)
    requires Inv(s) && Enabled(s, ProducerStores(i, b))
    ensures Inv(Apply(s, ProducerStores(i, b)))
  {
    forall k | s.released <= k < |s.committed|
      ensures (s.producer.at + i) % s.cap != k % s.cap
    {
      FreeCell(s, i, k);
    }
  }

  /** The newly published bytes are in memory where the stream says. */
  lemma AdvancesKeepsMemory(s: State, n: nat)
    requires Inv(s) && Enabled(s, ProducerAdvances(n))
    ensures UnreadInMemory(Apply(s, ProducerAdvances(n)))
  {
    var s' := Apply(s, ProducerAdvances(n));
    forall k | s.released <= k < |s'.committed|
      ensures s'.mem[k % s.cap] == s'.committed[k]
    {
      if k >= |s.committed| {
        ShiftMod(s.producer.at, |s.committed|, k - |s.committed|, s.cap);
      }
    }
  }

  lemma AdvancesKeepsInv(s: State, n: nat)
    requires Inv(s) && Enabled(s, ProducerAdvances(n))
    ensures Inv(Apply(s, ProducerAdvances(n)))
  {
    AdvancesKeepsMemory(s, n);
    ShiftMod(s.producer.at, |s.committed|, n, s.cap);
    PrefixesStay(s, n);
  }

  lemma PrefixesStay(s: State, n: nat)
    requires Inv(s) && Enabled(s, ProducerAdvances(n))
    ensures ConsumerOk(Apply(s, ProducerAdvances(n)))
  {}

  /** The bytes of the consumer's window are the next unread bytes of the stream. */
  lemma WindowShowsStream(s: State, at: nat, len: nat, n: nat)
    requires Indices(s) && UnreadInMemory(s) && WindowOk(s, at, len) && n <= len
    ensures View(s.mem, at, n) == s.committed[s.released..s.released + n]
  {
    forall i | 0 <= i < n
      ensures View(s.mem, at, n)[i] == s.committed[s.released + i]
    {
      ShiftMod(at, s.released, i, s.cap);
    }
  }

  lemma ConsumerLoadsKeepInv(s: State, a: Action)
    requires Inv(s) && Enabled(s, a) && (a.ConsumerLoadsRead? || a.ConsumerLoadsWrite?)
    ensures Inv(Apply(s, a))
  {
    IndexCells(s);
  }

  lemma BeginsAdvanceKeepsInv(s: State, n: nat)
    requires Inv(s) && Enabled(s, ConsumerBeginsAdvance(n))
    ensures Inv(Apply(s, ConsumerBeginsAdvance(n)))
  {
    WindowShowsStream(s, s.consumer.at, s.consumer.len, n);
  }

  lemma MovesReadKeepsInv(s: State)
    requires Inv(s) && Enabled(s, ConsumerMovesRead)
    ensures Inv(Apply(s, ConsumerMovesRead))
  {
    ShiftMod(s.consumer.at, s.released, s.consumer.n, s.cap);
    if s.readIdx + s.consumer.n > s.cap {
      ModAddLaps(s.readLap, 1, s.cap);
    }
  }

  lemma MovesWriteKeepsInv(s: State)
    requires Inv(s) && Enabled(s, ConsumerMovesWrite)
    ensures Inv(Apply(s, ConsumerMovesWrite))
  {}

  lemma StepKeepsInv(s: State, a: Action)
    requires Inv(s) && Enabled(s, a) && !(a.ProducerLoadsWrite? && StaleFull(s))
    ensures Inv(Apply(s, a))
  {
    match a
    case ProducerLoadsRead => LoadsReadKeepsInv(s);
    case ProducerLoadsWrite => LoadsWriteKeepsInv(s);
    case ProducerStores(offset, b) => StoresKeepsInv(s, offset, b);
    case ProducerAdvances(count) => AdvancesKeepsInv(s, count);
    case ConsumerLoadsRead => ConsumerLoadsKeepInv(s, a);
    case ConsumerLoadsWrite => ConsumerLoadsKeepInv(s, a);
    case ConsumerBeginsAdvance(count) => BeginsAdvanceKeepsInv(s, count);
    case ConsumerMovesRead => MovesReadKeepsInv(s);
    case ConsumerMovesWrite => MovesWriteKeepsInv(s);
  }
}
