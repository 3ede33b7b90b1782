/** The class of common/Packet.cpp over its byte array, proved against PacketSpec. */
module Packets {
  import opened Bytes
  import opened PacketSpec

  /** Length of the string before its first NUL. */
  method StrLen(s: seq<byte>) returns (n: nat)
    ensures n == |CString(s)| && s[..n] == CString(s)
  {
    n := 0;
    while n < |s| && s[n] != 0
      invariant 0 <= n <= |s|
      invariant CString(s) == s[..n] + CString(s[n..])
    {
      assert s[n..][0] == s[n] && s[n..][1..] == s[n + 1..];
      n := n + 1;
    }
  }

  /** A slice of the unread bytes is a slice of the buffer. */
  lemma UnreadSlice(cells: seq<byte>, size: nat, read: nat, i: nat, j: nat)
    requires i <= j && read + j <= size <= |cells|
    ensures cells[..size][read..][i..j] == cells[read + i..read + j]
  {
    var a, b := cells[..size][read..][i..j], cells[read + i..read + j];
    assert forall k :: 0 <= k < |a| ==> a[k] == cells[read + i + k] == b[k];
  }

  class NPacket {
    var buf: array<byte>
    var size: nat
    var readIdx: nat

    ghost predicate Valid()
      reads this
    {
      buf.Length == MAX_PACKET_SIZE && readIdx <= size <= MAX_PACKET_SIZE
    }

    ghost function State(): (b: Buffer)
      requires Valid()
      reads this, buf
      ensures PacketSpec.Valid(b)
    {
      Buffer(buf[..size], readIdx)
    }

    constructor ()
      ensures Valid() && fresh(buf) && State() == Buffer([], 0)
    {
      buf := new byte[MAX_PACKET_SIZE];
      size, readIdx := 0, 0;
    }

    method ResetRead()
      requires Valid()
      modifies this`size, this`readIdx
      ensures Valid() && State() == Buffer([], 0)
    {
      size := 0;
      readIdx := 0;
    }

    function WriteSize(): (n: nat)
      requires Valid()
      reads this
      ensures n == MAX_PACKET_SIZE - size
    {
      MAX_PACKET_SIZE - size
    }

    function ReadSize(): (n: nat)
      requires Valid()
      reads this
      ensures n == size - readIdx
    {
      size - readIdx
    }

    /** memcpy to the end of the content, and the size moved past it. */
    method CopyIn(raw: seq<byte>)
      requires Valid() && |raw| <= MAX_PACKET_SIZE - size
      modifies buf, this`size
      ensures Valid() && State() == old(State()).(bytes := old(State()).bytes + raw)
    {
      forall k | 0 <= k < |raw| {
        buf[size + k] := raw[k];
      }
      size := size + |raw|;
      assert buf[..size] == old(buf[..size]) + raw;
    }

    /** `put` of a fixed-size value; `raw` is its memory. */
    method PutFixed(raw: seq<byte>) returns (ok: bool)
      requires Valid()
      modifies buf, this`size
      ensures Valid() && (ok, State()) == Put(old(State()), Fixed(raw))
      ensures !ok ==> State() == old(State())
    {
      if WriteSize() < |raw| {
        return false;
      }
      CopyIn(raw);
      return true;
    }

    /** `put` of a C string, and of a std::string by its C string. */
    method PutString(s: seq<byte>) returns (ok: bool)
      requires Valid()
      modifies buf, this`size
      ensures Valid() && (ok, State()) == Put(old(State()), Text(s))
      ensures !ok ==> State() == old(State())
    {
      var n := StrLen(s);
      var len := n % TWO_16;
      assert s[..len] == Stored(s);
      if WriteSize() < PREFIX + len {
        return false;
      }
      var _ := PutFixed(Encode16(len));
      CopyIn(s[..len]);
      assert State().bytes == old(State()).bytes + (Encode16(len) + s[..len]);
      return true;
    }

    /** `put` of a byte array: asks room for a `size_t` but writes a 16-bit length. */
    method PutArray(data: seq<byte>) returns (ok: bool)
      requires Valid()
      modifies buf, this`size
      ensures Valid() && (ok, State()) == Put(old(State()), Blob(data))
      ensures !ok ==> State() == old(State())
    {
      if WriteSize() < SIZE_T + |data| {
        return false;
      }
      var _ := PutFixed(Encode16(|data| % TWO_16));
      CopyIn(data);
      assert State().bytes == old(State()).bytes + (Encode16(|data| % TWO_16) + data);
      return true;
    }

    /** `get` of a fixed-size value of `n` bytes. */
    method GetFixed(n: nat) returns (ok: bool, raw: seq<byte>)
      requires Valid()
      modifies this`readIdx
      ensures Valid()
      ensures (if ok then Got(raw) else Missing, State()) == Get(old(State()), FixedKind(n))
      ensures !ok ==> State() == old(State())
    {
      if ReadSize() < n {
        return false, [];
      }
      raw := buf[readIdx..readIdx + n];
      assert raw == Unread(State())[..n];
      readIdx := readIdx + n;
      return true, raw;
    }

    /** `get` of a string: reads the length, and steps back over it when the string is not all there. */
    method GetString() returns (ok: bool, s: seq<byte>)
      requires Valid()
      modifies this`readIdx
      ensures Valid()
      ensures (if ok then Got(s) else Missing, State()) == Get(old(State()), TextKind)
      ensures !ok ==> State() == old(State())
    {
      ghost var u := Unread(State());
      var got, prefix := GetFixed(PREFIX);
      if !got {
        return false, [];
      }
      assert prefix == u[..PREFIX];
      var len := Decode16(prefix);
      if ReadSize() < len {
        readIdx := readIdx - PREFIX;
        return false, [];
      }
      s := buf[readIdx..readIdx + len];
      UnreadSlice(buf[..], size, readIdx - PREFIX, PREFIX, PREFIX + len);
      assert s == u[PREFIX..PREFIX + len];
      readIdx := readIdx + len;
      return true, s;
    }

    /**
      `get` of a byte array into `out`.  Returns -1 when it is not all there, its length when it is
      longer than `out`, both without reading anything, and its length after copying it otherwise.
     */
    method GetArray(out: array<byte>) returns (n: int)
      requires Valid() && out != buf
      modifies this`readIdx, out
      ensures Valid()
      ensures var (got, after) := Get(old(State()), BlobKind(out.Length));
        && State() == after
        && (!got.Got? ==> State() == old(State()))
        && (got.Missing? ==> n == -1)
        && (got.TooLong? ==> n == got.len > out.Length)
        && (got.Got? ==> n == |got.value| <= out.Length && out[..n] == got.value)
        && out[if got.Got? then |got.value| else 0..] == old(out[..])[if got.Got? then |got.value| else 0..]
    {
      ghost var u := Unread(State());
      var got, prefix := GetFixed(PREFIX);
      if !got {
        return -1;
      }
      assert prefix == u[..PREFIX];
      var len := Decode16(prefix);
      if ReadSize() < len {
        readIdx := readIdx - PREFIX;
        return -1;
      }
      if len > out.Length {
        readIdx := readIdx - PREFIX;
        return len;
      }
      var value := buf[readIdx..readIdx + len];
      UnreadSlice(buf[..], size, readIdx - PREFIX, PREFIX, PREFIX + len);
      assert value == u[PREFIX..PREFIX + len];
      forall k | 0 <= k < len {
        out[k] := value[k];
      }
      assert out[..len] == value;
      readIdx := readIdx + len;
      return len;
    }
  }
}
