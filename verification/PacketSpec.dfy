/**
  The packet codec of common/Packet.cpp on values: what each put appends, what each get takes, and
  the queue of typed values it implements.
 */
module PacketSpec {
  import opened Bytes

  const MAX_PACKET_SIZE: nat := 1024 * 1024

  /** Size of the length prefix, and of the `size_t` the array put asks room for instead. */
  const PREFIX: nat := 2
  const SIZE_T: nat := 8

  /** The written bytes and how many of them have been read. */
  datatype Buffer = Buffer(bytes: seq<byte>, read: nat)

  /** A value to put: the memory of a fixed-size type, a string, or a byte array. */
  datatype Value = Fixed(raw: seq<byte>) | Text(chars: seq<byte>) | Blob(data: seq<byte>)

  /** What a get asks for: so many bytes, a string, or an array into a buffer of `room` bytes. */
  datatype Kind = FixedKind(size: nat) | TextKind | BlobKind(room: nat)

  /** What a get returns; `TooLong` reports the length of an array the caller's buffer cannot take. */
  datatype Got = Missing | TooLong(len: nat) | Got(value: seq<byte>)

  // ---------------------------------------------------------------- encoding

  /** A `uint16_t` in memory, low byte first. */
  function Encode16(n: nat): (b: seq<byte>)
    requires n < TWO_16
    ensures |b| == PREFIX
  {
    [(n % 256) as byte, (n / 256) as byte]
  }

  function Decode16(b: seq<byte>): (n: nat)
    requires |b| == PREFIX
    ensures n < TWO_16
  {
    b[0] as nat + 256 * (b[1] as nat)
  }

  /** The string up to its first NUL: what strlen and memcpy see. */
  function CString(s: seq<byte>): (c: seq<byte>)
    ensures |c| <= |s|
  {
    if s == [] || s[0] == 0 then [] else [s[0]] + CString(s[1..])
  }

  predicate NulFree(s: seq<byte>) {
    forall i :: 0 <= i < |s| ==> s[i] != 0
  }

  lemma {:induction false} CStringKeepsNulFree(s: seq<byte>)
    ensures CString(s) == s <==> NulFree(s)
  {
    if s != [] {
      CStringKeepsNulFree(s[1..]);
      assert s == [s[0]] + s[1..];
    }
  }

  /** The characters a string put stores: their number is cut to 16 bits. */
  function Stored(s: seq<byte>): (c: seq<byte>)
    ensures |c| < TWO_16
  {
    CString(s)[..|CString(s)| % TWO_16]
  }

  function Encode(v: Value): seq<byte> {
    match v
    case Fixed(raw) => raw
    case Text(chars) => Encode16(|Stored(chars)|) + Stored(chars)
    case Blob(data) => Encode16(|data| % TWO_16) + data
  }

  /** The free space a put insists on. */
  function Room(v: Value): nat {
    match v
    case Fixed(raw) => |raw|
    case Text(chars) => PREFIX + |Stored(chars)|
    case Blob(data) => SIZE_T + |data|
  }

  /** The put and get operations. */
  function Put(b: Buffer, v: Value): (r: (bool, Buffer))
    requires |b.bytes| <= MAX_PACKET_SIZE
    ensures b.bytes <= r.1.bytes && |r.1.bytes| <= MAX_PACKET_SIZE && r.1.read == b.read
  {
    if MAX_PACKET_SIZE - |b.bytes| < Room(v) then (false, b)
    else (true, b.(bytes := b.bytes + Encode(v)))
  }

  ghost predicate Valid(b: Buffer) {
    b.read <= |b.bytes| <= MAX_PACKET_SIZE
  }

  function Unread(b: Buffer): seq<byte>
    requires Valid(b)
  {
    b.bytes[b.read..]
  }

  function Get(b: Buffer, k: Kind): (r: (Got, Buffer))
    requires Valid(b)
    ensures Valid(r.1)
  {
    var u := Unread(b);
    if k.FixedKind? then
      if |u| < k.size then (Missing, b) else (Got(u[..k.size]), b.(read := b.read + k.size))
    else if |u| < PREFIX then (Missing, b)
    else
      var len := Decode16(u[..PREFIX]);
      if |u| - PREFIX < len then (Missing, b)
      else if k.BlobKind? && len > k.room then (TooLong(len), b)
      else (Got(u[PREFIX..PREFIX + len]), b.(read := b.read + PREFIX + len))
  }

  // ---------------------------------------------------------------- the queue of values

  /** Values in order, and how many bytes were ever put since the last reset. */
  datatype Queue = Queue(items: seq<Value>, used: nat)

  /** The values that come back as they were put. */
  predicate Faithful(v: Value) {
    match v
    case Fixed(raw) => raw != []
    case Text(chars) => NulFree(chars) && |chars| < TWO_16
    case Blob(data) => |data| < TWO_16
  }

  predicate Fits(k: Kind, v: Value) {
    match v
    case Fixed(raw) => k == FixedKind(|raw|)
    case Text(_) => k.TextKind?
    case Blob(_) => k.BlobKind?
  }

  function Content(v: Value): seq<byte> {
    match v
    case Fixed(raw) => raw
    case Text(chars) => chars
    case Blob(data) => data
  }

  function PutQueue(q: Queue, v: Value): (bool, Queue) {
    if q.used + Room(v) > MAX_PACKET_SIZE then (false, q)
    else (true, Queue(q.items + [v], q.used + |Encode(v)|))
  }

  /** The front value, unless there is none or the caller's buffer is too short for it. */
  function GetQueue(q: Queue, k: Kind): (Got, Queue) {
    if q.items == [] then (Missing, q)
    else
      var c := Content(q.items[0]);
      if k.BlobKind? && |c| > k.room then (TooLong(|c|), q)
      else (Got(c), q.(items := q.items[1..]))
  }

  function EncodeAll(items: seq<Value>): seq<byte> {
    if items == [] then [] else Encode(items[0]) + EncodeAll(items[1..])
  }

  ghost predicate Represents(b: Buffer, q: Queue) {
    && Valid(b) && |b.bytes| == q.used && Unread(b) == EncodeAll(q.items)
    && forall v :: v in q.items ==> Faithful(v)
  }

  lemma {:induction false} EncodeAllAppend(items: seq<Value>, v: Value)
    ensures EncodeAll(items + [v]) == EncodeAll(items) + Encode(v)
  {
    if items == [] {
      assert [] + [v] == [v];
    } else {
      assert (items + [v])[1..] == items[1..] + [v];
      EncodeAllAppend(items[1..], v);
    }
  }

  lemma PutRefines(b: Buffer, q: Queue, v: Value)
    requires Represents(b, q) && Faithful(v)
    ensures Put(b, v).0 == PutQueue(q, v).0 && Represents(Put(b, v).1, PutQueue(q, v).1)
  {
    EncodeAllAppend(q.items, v);
    hide Encode, EncodeAll, Faithful;
    var b' := Put(b, v).1;
    if Put(b, v).0 {
      assert Unread(b') == Unread(b) + Encode(v);
    }
  }

  /** A length-prefixed value at the front of the unread bytes. */
  lemma FrameAtFront(u: seq<byte>, body: seq<byte>, rest: seq<byte>)
    requires |body| < TWO_16 && u == Encode16(|body|) + body + rest
    ensures |u| >= PREFIX + |body| && Decode16(u[..PREFIX]) == |body|
    ensures u[PREFIX..PREFIX + |body|] == body
  {}

  lemma FaithfulEncoding(v: Value)
    requires Faithful(v)
    ensures Encode(v) == (if v.Fixed? then v.raw else Encode16(|Content(v)|) + Content(v))
    ensures |Content(v)| < TWO_16 || v.Fixed?
  {
    if v.Text? {
      StoredWhole(v.chars);
    }
  }

  /** Reading the front of the unread bytes yields the front value, whatever follows it. */
  lemma GetFront(b: Buffer, v: Value, rest: seq<byte>, k: Kind)
    requires Valid(b) && Faithful(v) && Fits(k, v) && Unread(b) == Encode(v) + rest
    ensures var c := Content(v);
      Get(b, k) == if k.BlobKind? && |c| > k.room then (TooLong(|c|), b)
                   else (Got(c), b.(read := b.read + |Encode(v)|))
  {
    FaithfulEncoding(v);
    if v.Fixed? {
      assert Unread(b)[..|v.raw|] == v.raw;
    } else {
      hide Encode16, Encode, Decode16;
      FrameAtFront(Unread(b), Content(v), rest);
    }
  }

  lemma GetRefines(b: Buffer, q: Queue, k: Kind)
    requires Represents(b, q)
    requires if q.items == [] then k.FixedKind? ==> k.size > 0 else Fits(k, q.items[0])
    ensures Get(b, k).0 == GetQueue(q, k).0 && Represents(Get(b, k).1, GetQueue(q, k).1)
  {
    if q.items != [] {
      var v := q.items[0];
      assert v in q.items;
      GetFront(b, v, EncodeAll(q.items[1..]), k);
      var b' := Get(b, k).1;
      if GetQueue(q, k).0.Got? {
        assert Unread(b') == Unread(b)[|Encode(v)|..];
      }
    }
  }

  // ---------------------------------------------------------------- runs

  datatype Op = PutOp(v: Value) | GetOp(k: Kind) | ResetOp

  /** What the caller sees of an operation. */
  datatype Seen = Answer(ok: bool) | Received(got: Got) | Nothing

  function StepBuffer(b: Buffer, op: Op): (r: (Seen, Buffer))
    requires Valid(b)
    ensures Valid(r.1)
  {
    match op
    case PutOp(v) => var (ok, b') := Put(b, v); (Answer(ok), b')
    case GetOp(k) => var (got, b') := Get(b, k); (Received(got), b')
    case ResetOp => (Nothing, Buffer([], 0))
  }

  function StepQueue(q: Queue, op: Op): (Seen, Queue) {
    match op
    case PutOp(v) => var (ok, q') := PutQueue(q, v); (Answer(ok), q')
    case GetOp(k) => var (got, q') := GetQueue(q, k); (Received(got), q')
    case ResetOp => (Nothing, Queue([], 0))
  }

  function RunBuffer(b: Buffer, ops: seq<Op>): seq<Seen>
    requires Valid(b)
    decreases |ops|
  {
    if ops == [] then [] else [StepBuffer(b, ops[0]).0] + RunBuffer(StepBuffer(b, ops[0]).1, ops[1..])
  }

  function RunQueue(q: Queue, ops: seq<Op>): seq<Seen>
    decreases |ops|
  {
    if ops == [] then [] else [StepQueue(q, ops[0]).0] + RunQueue(StepQueue(q, ops[0]).1, ops[1..])
  }

  /** Faithful values are put, and each get asks for the kind at the front of the queue. */
  ghost predicate Matched(q: Queue, ops: seq<Op>)
    decreases |ops|
  {
    ops != [] ==>
      && (ops[0].PutOp? ==> Faithful(ops[0].v))
      && (ops[0].GetOp? ==> if q.items == [] then ops[0].k.FixedKind? ==> ops[0].k.size > 0
                            else Fits(ops[0].k, q.items[0]))
      && Matched(StepQueue(q, ops[0]).1, ops[1..])
  }

  lemma {:induction false} RunsAgree(b: Buffer, q: Queue, ops: seq<Op>)
    requires Represents(b, q) && Matched(q, ops)
    ensures RunBuffer(b, ops) == RunQueue(q, ops)
    decreases |ops|
  {
    if ops != [] {
      match ops[0] {
        case PutOp(v) => PutRefines(b, q, v);
        case GetOp(k) => GetRefines(b, q, k);
        case ResetOp =>
      }
      RunsAgree(StepBuffer(b, ops[0]).1, StepQueue(q, ops[0]).1, ops[1..]);
    }
  }

  /**
    Over any interleaving of puts, matching gets and resets, including those that fail for lack of
    room, of bytes or of space at the caller, a new packet answers as a queue of typed values would.
   */
  lemma CodecIsQueue(ops: seq<Op>)
    requires Matched(Queue([], 0), ops)
    ensures RunBuffer(Buffer([], 0), ops) == RunQueue(Queue([], 0), ops)
  {
    RunsAgree(Buffer([], 0), Queue([], 0), ops);
  }

  // ---------------------------------------------------------------- which values survive

  /**
    A string put into a buffer with nothing unread and then got comes back exactly when it has no
    NUL and its length fits in 16 bits; otherwise it is cut short.
   */
  lemma StringRoundTrip(b: Buffer, s: seq<byte>)
    requires Valid(b) && b.read == |b.bytes| && Put(b, Text(s)).0
    ensures Get(Put(b, Text(s)).1, TextKind).0 == Got(Stored(s))
    ensures Stored(s) == s <==> NulFree(s) && |s| < TWO_16
  {
    var b' := Put(b, Text(s)).1;
    assert Unread(b') == Encode16(|Stored(s)|) + Stored(s) + [];
    GetFrame(b', Stored(s), [], TextKind);
    StoredWhole(s);
  }

  lemma StoredWhole(s: seq<byte>)
    ensures Stored(s) == s <==> NulFree(s) && |s| < TWO_16
  {
    CStringKeepsNulFree(s);
    if Stored(s) == s {
      assert |CString(s)| == |s|;
      CStringIsPrefix(s);
    }
  }

  /** What strlen counts: the characters before the first NUL, or all if there is none. */
  lemma {:induction false} CStringIsPrefix(s: seq<byte>)
    ensures CString(s) <= s && NulFree(CString(s)) && (|CString(s)| < |s| ==> s[|CString(s)|] == 0)
  {
    if s != [] {
      CStringIsPrefix(s[1..]);
    }
  }

  lemma ArrayFrame(b: Buffer, data: seq<byte>, cut: nat)
    requires Valid(b) && b.read == |b.bytes| && Put(b, Blob(data)).0 && cut == |data| % TWO_16
    ensures Unread(Put(b, Blob(data)).1) == Encode16(cut) + data[..cut] + data[cut..]
  {
    hide Encode16;
    assert data == data[..cut] + data[cut..];
  }

  /**
    A byte array comes back whole, with nothing left over, exactly when its length fits in 16 bits.
    A longer one is written whole under a truncated length, and its tail is left to be misread.
   */
  lemma ArrayRoundTrip(b: Buffer, data: seq<byte>, room: nat, cut: nat)
    requires Valid(b) && b.read == |b.bytes| && Put(b, Blob(data)).0 && |data| <= room && cut == |data| % TWO_16
    ensures var (got, b') := Get(Put(b, Blob(data)).1, BlobKind(room));
      && got == Got(data[..cut]) && Unread(b') == data[cut..]
      && (got == Got(data) && Unread(b') == [] <==> |data| < TWO_16)
  {
    hide Put, Get, Unread, Encode16;
    ArrayFrame(b, data, cut);
    GetFrame(Put(b, Blob(data)).1, data[..cut], data[cut..], BlobKind(room));
    assert cut == |data| <==> data[cut..] == [];
    assert cut == |data| ==> data[..cut] == data;
  }

  /** A get takes the frame at the front and leaves the rest unread. */
  lemma GetFrame(b: Buffer, body: seq<byte>, rest: seq<byte>, k: Kind)
    requires Valid(b) && |body| < TWO_16 && Unread(b) == Encode16(|body|) + body + rest
    requires k.TextKind? || (k.BlobKind? && |body| <= k.room)
    ensures Get(b, k).0 == Got(body) && Unread(Get(b, k).1) == rest
  {}

  // ---------------------------------------------------------------- which operations succeed

  /**
    A put succeeds exactly when the free space holds the value and what is put or asked for in
    front of it; it then appends the value's bytes behind their length, and otherwise changes nothing.
   */
  lemma PutSucceedsIff(b: Buffer, v: Value)
    requires |b.bytes| <= MAX_PACKET_SIZE
    ensures var (ok, b') := Put(b, v);
      && (ok <==> |b.bytes| + (match v
            case Fixed(raw) => |raw|
            case Text(chars) => 2 + |CString(chars)| % 65536
            case Blob(data) => 8 + |data|) <= MAX_PACKET_SIZE)
      && (!ok ==> b' == b) && b'.read == b.read && b.bytes <= b'.bytes
  {}

  lemma PutAppends(b: Buffer, v: Value)
    requires |b.bytes| <= MAX_PACKET_SIZE && Put(b, v).0
    ensures var added := Put(b, v).1.bytes[|b.bytes|..];
      match v
      case Fixed(raw) => added == raw
      case Text(chars) => |added| >= 2 && added[2..] == CString(chars)[..|CString(chars)| % 65536] &&
                          added[0] as int + 256 * (added[1] as int) == |added| - 2
      case Blob(data) => |added| >= 2 && added[2..] == data && added[0] as int + 256 * (added[1] as int) == |data| % 65536
  {
    assert Put(b, v).1.bytes[|b.bytes|..] == Encode(v);
  }

  /** The length a prefix announces, when there is one. */
  predicate Announces(u: seq<byte>, len: nat) {
    |u| >= 2 && u[0] as int + 256 * (u[1] as int) == len
  }

  /**
    What a get takes: nothing if the unread bytes are fewer than asked for, or than announced, or
    than announce anything; nothing but the length if the caller's buffer is too short for it.
   */
  lemma GetTakes(b: Buffer, k: Kind)
    requires Valid(b)
    ensures var ((got, b'), u) := (Get(b, k), Unread(b));
      && (got == Missing <==> if k.FixedKind? then |u| < k.size else forall len: nat :: Announces(u, len) ==> |u| < 2 + len)
      && (forall len: nat :: got == TooLong(len) <==> k.BlobKind? && Announces(u, len) && |u| >= 2 + len > 2 + k.room)
      && (got.Got? && k.FixedKind? ==> |got.value| == k.size && u == got.value + Unread(b'))
      && (got.Got? && !k.FixedKind? ==> Announces(u, |got.value|) && u == u[..2] + got.value + Unread(b'))
      && (got.Got? ==> b' == b.(read := b'.read))
      && (!got.Got? ==> b' == b)
  {
    var u := Unread(b);
    assert forall len: nat :: Announces(u, len) ==> len == Decode16(u[..PREFIX]);
    if !k.FixedKind? && |u| >= 2 {
      assert Announces(u, Decode16(u[..PREFIX]));
    }
  }

  /** A value cut short anywhere is not taken in part: the get answers that it is missing and waits. */
  lemma CutValueIsMissing(b: Buffer, v: Value, cut: nat, k: Kind)
    requires Valid(b) && Faithful(v) && Fits(k, v) && cut < |Encode(v)| && Unread(b) == Encode(v)[..cut]
    ensures Get(b, k) == (Missing, b)
  {
    FaithfulEncoding(v);
    if !v.Fixed? && cut >= PREFIX {
      var frame := Encode16(|Content(v)|) + Content(v);
      FrameAtFront(frame, Content(v), []);
      assert frame + [] == frame;
      assert Unread(b)[..PREFIX] == frame[..PREFIX];
    }
  }
}
