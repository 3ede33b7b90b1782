/**
  The class of common/GapIdentifier.h: slots in a circular array between a read and a write index.
  Its methods are proved against the value operations of GapSpec.
 */
module GapIdentifiers {
  import opened Bytes
  import opened Circular
  import opened GapSpec

  /** A slot as memset leaves it. */
  const EMPTY_SLOT := Packet(0, [], 0, 0)

  /** The front of the queue can be removed: position `read` is one lap before the free stretch's end. */
  lemma ClearFront(slots: seq<Packet>, read: nat, write: nat)
    requires |slots| > 0 && read < write <= read + |slots|
    ensures View(slots, read, write - read)[1..] == View(slots, read + 1, write - read - 1)
    ensures var slots' := slots[read % |slots| := slots[read % |slots|].(seqNum := 0)];
      && View(slots', read + 1, write - read - 1) == View(slots, read + 1, write - read - 1)
      && View(slots', write, |slots| - (write - read - 1)) ==
         View(slots, write, |slots| - (write - read)) + [slots[read % |slots|].(seqNum := 0)]
  {
    var n := |slots|;
    var x := slots[read % n].(seqNum := 0);
    ViewSplit(slots, read, 1, write - read - 1);
    ModAddLaps(read, 1, n);
    StoreOutside(slots, read + 1, write - read - 1, read + n, x);
    StoreOutside(slots, write, n - (write - read), read + n, x);
    ViewSplit(slots[read % n := x], write, n - (write - read), 1);
  }

  /** A store at the write index extends the queue and uses up the first free position. */
  lemma StoreBack(slots: seq<Packet>, read: nat, write: nat, p: Packet)
    requires |slots| > 0 && read <= write < read + |slots|
    ensures var slots' := slots[write % |slots| := p];
      && View(slots', read, write + 1 - read) == View(slots, read, write - read) + [p]
      && View(slots', write + 1, |slots| - (write + 1 - read)) ==
         View(slots, write, |slots| - (write - read))[1..]
  {
    var n := |slots|;
    StoreOutside(slots, read, write - read, write, p);
    ViewSplit(slots[write % n := p], read, write - read, 1);
    ModAddLaps(write, 1, n);
    StoreOutside(slots, write + 1, n - (write + 1 - read), write + n, p);
    ViewSplit(slots, write, 1, n - (write + 1 - read));
  }

  /** In a full store, a packet at the write index takes the place of the front. */
  lemma StoreOverFront(slots: seq<Packet>, read: nat, write: nat, p: Packet)
    requires 0 < |slots| && write == read + |slots|
    ensures View(slots[write % |slots| := p], read + 1, |slots|) == View(slots, read, |slots|)[1..] + [p]
  {
    ViewSplit(slots, read, 1, |slots| - 1);
    StoreBack(slots, read + 1, write, p);
  }

  /**
    The loops test `readIndex < writeIndex` on 32-bit indices.  With `read` slots consumed out of
    `written` in all, that test means "not empty" exactly until one index wraps before the other.
   */
  lemma IndexTestMeansNonempty(read: nat, written: nat)
    requires read <= written < read + TWO_32
    ensures (U32(read) < U32(written) <==> read < written) <==>
            (read == written || read / TWO_32 == written / TWO_32)
  {}

  class GapIdentifier {
    const config: Config
    var expectedSeqNum: nat
    var maxIndex: nat
    var maxSeqNum: nat
    var writeIndex: nat
    var readIndex: nat
    var packetNum: nat
    var requestGap: bool
    var slots: array<Packet>

    /** What the client has been told so far. */
    var replayed: seq<Packet>
    var requested: seq<Request>

    ghost function Queue(): (q: seq<Packet>)
      requires slots.Length > 0 && readIndex <= writeIndex
      reads this, slots
      ensures |q| == writeIndex - readIndex
    {
      View(slots[..], readIndex, writeIndex - readIndex)
    }

    /** The slots outside the window from readIndex to writeIndex. */
    ghost function Free(): seq<Packet>
      requires slots.Length > 0 && readIndex <= writeIndex <= readIndex + slots.Length
      reads this, slots
    {
      View(slots[..], writeIndex, slots.Length - (writeIndex - readIndex))
    }

    ghost predicate Valid()
      reads this, slots
    {
      && 0 < slots.Length == config.slots == maxIndex + 1
      && readIndex <= writeIndex <= readIndex + slots.Length && writeIndex < TWO_32
      && (forall p :: p in Free() ==> p.seqNum == 0)
      && Ordered(State())
    }

    ghost function State(): (g: Gap)
      requires slots.Length > 0 && readIndex <= writeIndex
      reads this, slots
    {
      Gap(expectedSeqNum, maxSeqNum, Queue(), requestGap, packetNum)
    }

    /** The method in progress has taken the client and the state to `o`, counting from `replays` and `requests`. */
    ghost predicate Reached(o: Outcome, replays: seq<Packet>, requests: seq<Request>)
      requires slots.Length > 0 && readIndex <= writeIndex
      reads this, slots
    {
      && State() == o.gap
      && replayed == replays + o.replayed
      && requested == requests + o.requested
    }

    constructor (overflow: Overflow, slotBytes: nat, size: nat)
      requires 0 < size < TWO_32
      ensures Valid() && fresh(slots) && config == Config(overflow, size, slotBytes)
      ensures State() == INITIAL && replayed == [] && requested == []
    {
      config := Config(overflow, size, slotBytes);
      expectedSeqNum, maxIndex, maxSeqNum, writeIndex, readIndex, packetNum := 1, size - 1, 0, 0, 0, 0;
      requestGap := true;
      slots := new Packet[size](_ => EMPTY_SLOT);
      replayed, requested := [], [];
    }

    function GetIndex(index: nat): (slot: nat)
      reads this
    {
      index % (maxIndex + 1)
    }

    /** The slot at the read index: the front of the queue, or a zero number when it is empty. */
    lemma FrontSlot()
      requires Valid()
      ensures Queue() != [] ==> slots[readIndex % slots.Length] == Queue()[0] && Queue()[0].seqNum > 0
      ensures Queue() == [] ==> slots[readIndex % slots.Length].seqNum == 0
    {
      if Queue() != [] {
        assert Queue()[0] in Queue();
      } else {
        assert Free()[0] in Free();
      }
    }

    method OnPacketGap(first: nat, buffered: nat, incoming: nat, accept: bool) returns (success: bool)
      modifies this`requested
      ensures success == accept && requested == old(requested) + [Request(first, buffered, incoming)]
    {
      requested := requested + [Request(first, buffered, incoming)];
      success := accept;
    }

    /** The client's callback without a timestamp, which it records as 0. */
    method Replay(payload: seq<byte>, seqNum: nat, msgType: int)
      modifies this`replayed
      ensures replayed == old(replayed) + [Packet(seqNum, payload, 0, msgType)]
    {
      replayed := replayed + [Packet(seqNum, payload, 0, msgType)];
    }

    method ReplayStamped(payload: seq<byte>, seqNum: nat, ts: nat, msgType: int)
      modifies this`replayed
      ensures replayed == old(replayed) + [Packet(seqNum, payload, ts, msgType)]
    {
      replayed := replayed + [Packet(seqNum, payload, ts, msgType)];
    }

    method SetReRequestFlag()
      modifies this`requestGap
      ensures !requestGap
    {
      requestGap := false;
    }

    method UnsetReRequestFlag()
      modifies this`requestGap
      ensures requestGap
    {
      requestGap := true;
    }

    /** Writes the packet into the slot of the write index. */
    method Store(p: Packet)
      requires Valid() && maxSeqNum < p.seqNum && writeIndex + 1 < TWO_32
      requires writeIndex < readIndex + slots.Length
      modifies slots, this`writeIndex, this`maxSeqNum
      ensures Valid() && State() == Push(old(State()), p)
    {
      StoreBack(slots[..], readIndex, writeIndex, p);
      ghost var free := Free();
      SetSlot(writeIndex, p);
      writeIndex := writeIndex + 1;
      maxSeqNum := p.seqNum;
      assert Free() == free[1..];
      PushOrdered(old(State()), p);
    }

    /** Under MinSeq, when every slot is taken: the new packet replaces the oldest. */
    method Replace(p: Packet)
      requires Valid() && maxSeqNum < p.seqNum && writeIndex + 1 < TWO_32
      requires writeIndex == readIndex + slots.Length
      modifies slots, this`writeIndex, this`readIndex, this`maxSeqNum
      ensures Valid() && State() == Push(old(State()).(queue := old(State()).queue[1..]), p)
    {
      StoreOverFront(slots[..], readIndex, writeIndex, p);
      ReplaceOrdered(State(), p);
      hide Ordered, View;
      SetSlot(writeIndex, p);
      writeIndex := writeIndex + 1;
      readIndex := readIndex + 1;
      maxSeqNum := p.seqNum;
    }

    method SetSlot(index: nat, p: Packet)
      requires 0 < slots.Length == maxIndex + 1
      modifies slots
      ensures slots[..] == old(slots[..])[index % slots.Length := p]
    {
      var idx := GetIndex(index);
      slots[idx] := p;
    }

    /** Calls onPacketGap and disables further requests if the client accepts. */
    method RequestGap(buffered: nat, incoming: nat, accept: bool)
      requires Valid()
      modifies this`requestGap, this`requested
      ensures Valid() && State() == old(State()).(requestGap := old(requestGap) && !accept)
      ensures requested == old(requested) + [Request(expectedSeqNum, buffered, incoming)]
    {
      var success := OnPacketGap(expectedSeqNum, buffered, incoming, accept);
      if success {
        SetReRequestFlag();
      }
    }

    /** The request both branches of Update end with. */
    method AskClient(buffered: nat, incoming: nat, accept: bool)
      requires Valid()
      modifies this`requestGap, this`requested
      ensures Valid()
      ensures var o := Ask(old(State()), buffered, incoming, accept, true);
        State() == o.gap && requested == old(requested) + o.requested
    {
      if requestGap {
        RequestGap(buffered, incoming, accept);
      }
    }

    /** Update's branch for a full buffer. */
    method UpdateFull(p: Packet, accept: bool)
      requires Valid() && writeIndex + 1 < TWO_32 && writeIndex - readIndex > maxIndex
      requires p.seqNum > maxSeqNum && p.seqNum > expectedSeqNum && |p.payload| <= config.slotBytes
      modifies this, slots
      ensures Valid() && slots == old(slots)
      ensures Reached(GapSpec.Update(config, old(State()), p, 0, accept), old(replayed), old(requested))
    {
      ghost var g := State();
      if |p.payload| > 0 && config.overflow.MinSeq? {
        Replace(p);
        g := Push(g.(queue := g.queue[1..]), p);
      }
      assert g.queue != [] && State() == g;
      FrontSlot();
      hide Ordered, View, Push;
      var front := slots[GetIndex(readIndex)].seqNum;
      assert front == g.queue[0].seqNum;
      AskClient(front, p.seqNum, accept);
    }

    /** Update's branch for a packet that is too early and fits. */
    method UpdateEarly(p: Packet, accept: bool)
      requires Valid() && writeIndex + 1 < TWO_32 && writeIndex - readIndex <= maxIndex
      requires p.seqNum > maxSeqNum && p.seqNum > expectedSeqNum && |p.payload| <= config.slotBytes
      modifies this, slots
      ensures Valid() && slots == old(slots)
      ensures Reached(GapSpec.Update(config, old(State()), p, 0, accept), old(replayed), old(requested))
    {
      if |p.payload| > 0 {
        Store(p);
      }
      FrontSlot();
      if slots[GetIndex(readIndex)].seqNum != 0 {
        AskClient(slots[GetIndex(readIndex)].seqNum, p.seqNum, accept);
      } else {
        AskClient(p.seqNum, p.seqNum, accept);
      }
    }

    method Update(p: Packet, packetNum: nat, accept: bool) returns (ok: bool)
      requires Valid() && writeIndex + 1 < TWO_32
      modifies this, slots
      ensures Valid() && slots == old(slots)
      ensures ok == GapSpec.Update(config, old(State()), p, packetNum, accept).ok
      ensures Reached(GapSpec.Update(config, old(State()), p, packetNum, accept), old(replayed), old(requested))
    {
      if |p.payload| > config.slotBytes {
        return false;
      }
      if p.seqNum <= maxSeqNum || p.seqNum < expectedSeqNum {
        return false;
      }
      if p.seqNum > expectedSeqNum {
        if writeIndex - readIndex > maxIndex {
          UpdateFull(p, accept);
          return false;
        }
        UpdateEarly(p, accept);
      } else {
        this.packetNum := packetNum;
      }
      return true;
    }

    /** Zeroes the front slot and steps over it. */
    method DropFront()
      requires Valid() && readIndex < writeIndex
      modifies slots, this`readIndex
      ensures Valid() && State() == old(State()).(queue := old(Queue())[1..])
    {
      ClearFront(slots[..], readIndex, writeIndex);
      ghost var g := State();
      ghost var free := Free();
      var idx := GetIndex(readIndex);
      ghost var cleared := slots[idx].(seqNum := 0);
      slots[idx] := slots[idx].(seqNum := 0);
      assert slots[..] == old(slots[..])[readIndex % slots.Length := cleared];
      readIndex := readIndex + 1;
      assert Free() == free + [cleared];
      TailOrdered(g);
    }

    method ProcessBuffer()
      requires Valid() && readIndex < writeIndex
      modifies slots, this`readIndex, this`expectedSeqNum, this`replayed
      ensures Valid()
      ensures State() == old(State()).(queue := old(Queue())[1..], expected := old(expectedSeqNum) + 1)
      ensures replayed == old(replayed) + [old(Queue())[0]]
    {
      FrontSlot();
      hide Ordered;
      var idx := GetIndex(readIndex);
      if slots[idx].ts == 0 {
        Replay(slots[idx].payload, slots[idx].seqNum, slots[idx].msgType);
      } else {
        ReplayStamped(slots[idx].payload, slots[idx].seqNum, slots[idx].ts, slots[idx].msgType);
      }
      DropFront();
      expectedSeqNum := expectedSeqNum + 1;
    }

    method DrainPacket()
      requires Valid()
      modifies slots, this`readIndex
      ensures Valid() && slots == old(slots)
      ensures State() == old(State()).(queue := [])
    {
      while readIndex < writeIndex
        invariant Valid() && slots == old(slots)
        invariant State() == old(State()).(queue := Queue())
        decreases writeIndex - readIndex
      {
        DropFront();
      }
    }

    method DrainPacketThrough(seqNum: nat)
      requires Valid()
      modifies slots, this`readIndex
      ensures Valid() && slots == old(slots)
      ensures State() == old(State()).(queue := DropThrough(old(Queue()), seqNum))
    {
      FrontSlot();
      while readIndex < writeIndex && slots[GetIndex(readIndex)].seqNum <= seqNum
        invariant Valid() && slots == old(slots)
        invariant State() == old(State()).(queue := Queue())
        invariant DropThrough(Queue(), seqNum) == DropThrough(old(Queue()), seqNum)
        decreases writeIndex - readIndex
      {
        FrontSlot();
        DropFront();
      }
      FrontSlot();
    }

    method DrainAndReplay()
      requires Valid()
      modifies slots, this`readIndex, this`expectedSeqNum, this`replayed
      ensures Valid() && slots == old(slots)
      ensures Reached(GapSpec.DrainAndReplay(old(State())), old(replayed), old(requested))
    {
      hide Ordered, GapSpec.Drain, GapSpec.ReplayRun;
      ghost var g0, g, done: seq<Packet> := State(), State(), [];
      NothingDoneYet(g0);
      while readIndex < writeIndex
        invariant Valid() && slots == old(slots)
        invariant State() == g && Draining(g0, g, done)
        invariant replayed == old(replayed) + done
        decreases writeIndex - readIndex
      {
        FrontSlot();
        if slots[GetIndex(readIndex)].seqNum < expectedSeqNum {
          DrainingDrops(g0, g, done);
          DropFront();
          g := g.(queue := g.queue[1..]);
        } else if slots[GetIndex(readIndex)].seqNum == expectedSeqNum {
          DrainingReplays(g0, g, done);
          ProcessBuffer();
          g, done := g.(queue := g.queue[1..], expected := g.expected + 1), done + [g.queue[0]];
        } else {
          break;
        }
      }
      DrainingEnds(g0, g, done);
    }

    method UpdateSeqNum(seqNum: nat)
      requires Valid()
      modifies this`expectedSeqNum
      ensures Valid() && State() == GapSpec.UpdateSeqNum(old(State()), seqNum).gap
    {
      expectedSeqNum := seqNum + 1;
    }

    method UpdateSeqNumFlush(seqNum: nat)
      requires Valid()
      modifies slots, this`readIndex, this`expectedSeqNum, this`replayed
      ensures Valid() && slots == old(slots)
      ensures Reached(GapSpec.UpdateSeqNumFlush(old(State()), seqNum), old(replayed), old(requested))
    {
      expectedSeqNum := seqNum + 1;
      if readIndex < writeIndex {
        DrainAndReplay();
      }
    }

    /** replayPacket's loop over the run of expected packets. */
    method ReplayRun()
      requires Valid()
      modifies slots, this`readIndex, this`expectedSeqNum, this`replayed
      ensures Valid() && slots == old(slots)
      ensures var d := GapSpec.ReplayRun(old(Queue()), old(expectedSeqNum));
        && State() == old(State()).(queue := d.queue, expected := d.expected)
        && replayed == old(replayed) + d.replayed
    {
      hide Ordered, GapSpec.Drain, GapSpec.ReplayRun;
      ghost var g0, g, done: seq<Packet> := State(), State(), [];
      NothingDoneYet(g0);
      FrontSlot();
      while readIndex < writeIndex && slots[GetIndex(readIndex)].seqNum == expectedSeqNum
        invariant Valid() && slots == old(slots)
        invariant State() == g && Replaying(g0, g, done)
        invariant replayed == old(replayed) + done
        decreases writeIndex - readIndex
      {
        FrontSlot();
        ReplayingReplays(g0, g, done);
        ProcessBuffer();
        g, done := g.(queue := g.queue[1..], expected := g.expected + 1), done + [g.queue[0]];
      }
      FrontSlot();
      ReplayingEnds(g0, g, done);
    }

    method StartReplay(seqNum: nat)
      requires Valid()
      modifies this`expectedSeqNum, this`requestGap
      ensures Valid() && State() == old(State()).(expected := seqNum, requestGap := true)
    {
      expectedSeqNum := seqNum;
      UnsetReRequestFlag();
    }

    method ReplayPacket(seqNum: nat, accept: bool)
      requires Valid()
      modifies this, slots
      ensures Valid() && slots == old(slots)
      ensures Reached(GapSpec.ReplayPacket(old(State()), seqNum, accept), old(replayed), old(requested))
    {
      StartReplay(seqNum);
      ReplayRun();
      FrontSlot();
      if readIndex < writeIndex {
        var front := slots[GetIndex(readIndex)].seqNum;
        RequestGap(front, front, accept);
      }
    }

    method NumElements() returns (n: nat)
      requires Valid()
      ensures n == |Queue()|
    {
      n := writeIndex - readIndex;
    }
  }
}
