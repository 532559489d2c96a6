/** java.nio.ByteBuffer: a fixed-capacity byte array with a position and a
    limit.  `BufferState` is the value of a buffer and the functions over it
    say what each buffer operation does; the class `ByteBuffer` is the mutable
    buffer itself, whose methods are proved to behave as those functions. */
module Buffers {
  import opened Results
  import opened Bytes

  /** The bytes a buffer holds, kept apart from its position and limit. */
  datatype Memory = Memory(bytes: seq<byte>)

  datatype BufferState = BufferState(memory: Memory, position: nat, limit: nat) {
    const data: seq<byte> := memory.bytes
    ghost predicate Valid() { position <= limit <= |data| }
    function Capacity(): nat { |data| }
  }

  function Remaining(b: BufferState): int { b.limit - b.position }

  /** ByteBuffer.allocate(n): n zero bytes, position 0, limit n. */
  function Allocate(n: nat): (b: BufferState)
    ensures b.Valid() && b.Capacity() == n && Remaining(b) == n
  {
    BufferState(Memory(seq(n, _ => 0 as byte)), 0, n)
  }

  /** clear(): ready to be filled again; contents are left as they are. */
  function Clear(b: BufferState): (r: BufferState)
    ensures r.Valid() && r.data == b.data && r.position == 0 && r.limit == |b.data|
  {
    b.(position := 0, limit := |b.data|)
  }

  /** flip(): what was written so far becomes what is to be read. */
  function Flip(b: BufferState): (r: BufferState)
    requires b.Valid()
    ensures r.Valid() && r.data == b.data && r.position == 0 && r.limit == b.position
  {
    b.(limit := b.position, position := 0)
  }

  /** compact(): the unread bytes move to the front, the buffer is ready to be
      filled after them. */
  function Compact(b: BufferState): (r: BufferState)
    requires b.Valid()
    ensures r.Valid() && |r.data| == |b.data|
    ensures r.data[..Remaining(b)] == b.data[b.position..b.limit]
    ensures r.data[Remaining(b)..] == b.data[Remaining(b)..]
    ensures r.position == Remaining(b) && r.limit == |b.data|
  {
    var n := b.limit - b.position;
    BufferState(Memory(b.data[b.position..b.limit] + b.data[n..]), n, |b.data|)
  }

  /** `data` with `bytes` written over it from p on, one byte at a time. */
  function Overwrite(data: seq<byte>, p: nat, bytes: seq<byte>): (r: seq<byte>)
    requires p + |bytes| <= |data|
    ensures |r| == |data|
    decreases |bytes|
  {
    if bytes == [] then data else Overwrite(data[p := bytes[0]], p + 1, bytes[1..])
  }

  /** Overwriting keeps every byte outside the written range. */
  lemma {:induction false} OverwriteIsSplice(data: seq<byte>, p: nat, bytes: seq<byte>)
    requires p + |bytes| <= |data|
    ensures Overwrite(data, p, bytes) == data[..p] + bytes + data[p + |bytes|..]
    decreases |bytes|
  {
    if bytes != [] {
      var n := |bytes|;
      var d := data[p := bytes[0]];
      OverwriteIsSplice(d, p + 1, bytes[1..]);
      assert d[..p + 1] == data[..p] + [bytes[0]];
      assert d[p + 1 + (n - 1)..] == data[p + n..];
      assert [bytes[0]] + bytes[1..] == bytes;
    }
  }

  /** Two overwrites end to end are one overwrite with both runs of bytes. */
  lemma {:induction false} OverwriteTwice(data: seq<byte>, p: nat, x: seq<byte>, y: seq<byte>)
    requires p + |x| + |y| <= |data|
    ensures Overwrite(Overwrite(data, p, x), p + |x|, y) == Overwrite(data, p, x + y)
    decreases |x|
  {
    if x == [] {
      assert x + y == y;
    } else {
      OverwriteTwice(data[p := x[0]], p + 1, x[1..], y);
      assert (x + y)[0] == x[0] && (x + y)[1..] == x[1..] + y;
    }
  }

  /** put(byte[]): all of `bytes` at the position, or BufferOverflowException
      with nothing written. */
  function Put(b: BufferState, bytes: seq<byte>): (r: Result<BufferState>)
    requires b.Valid()
    ensures r.Ok? <==> |bytes| <= Remaining(b)
    ensures r.Err? ==> r.error == BufferOverflow
    ensures r.Ok? ==> r.value.Valid() && |r.value.data| == |b.data| && r.value.limit == b.limit
                      && r.value.position == b.position + |bytes|
  {
    if |bytes| > b.limit - b.position then Err(BufferOverflow)
    else
      Ok(b.(memory := Memory(Overwrite(b.data, b.position, bytes)), position := b.position + |bytes|))
  }

  /** What `Put` leaves in the buffer: `bytes` at the old position, and every
      other byte as it was. */
  lemma PutContents(b: BufferState, bytes: seq<byte>)
    requires b.Valid() && |bytes| <= Remaining(b)
    ensures var r := Put(b, bytes).value;
            var p := b.position;
            r.data[p..p + |bytes|] == bytes
            && r.data[..p] == b.data[..p]
            && r.data[p + |bytes|..] == b.data[p + |bytes|..]
  {
    OverwriteIsSplice(b.data, b.position, bytes);
  }

  /** Two puts in a row are one put of both sequences. */
  lemma PutTwice(b: BufferState, x: seq<byte>, y: seq<byte>)
    requires b.Valid() && |x| + |y| <= Remaining(b)
    ensures Put(Put(b, x).value, y) == Put(b, x + y)
  {
    OverwriteTwice(b.data, b.position, x, y);
  }

  /** get(byte[n]): the next n bytes, or BufferUnderflowException. */
  function Get(b: BufferState, n: nat): (r: Result<(seq<byte>, BufferState)>)
    requires b.Valid()
    ensures r.Ok? <==> n <= Remaining(b)
    ensures r.Err? ==> r.error == BufferUnderflow
    ensures r.Ok? ==> r.value.0 == b.data[b.position..b.position + n]
                      && r.value.1 == b.(position := b.position + n) && r.value.1.Valid()
  {
    if n > b.limit - b.position then Err(BufferUnderflow)
    else Ok((b.data[b.position..b.position + n], b.(position := b.position + n)))
  }

  /** position(p): IllegalArgumentException unless 0 <= p <= limit. */
  function SetPosition(b: BufferState, p: int): (r: Result<BufferState>)
    requires b.Valid()
    ensures r.Ok? <==> 0 <= p <= b.limit
    ensures r.Err? ==> r.error == IllegalArgument
    ensures r.Ok? ==> r.value == b.(position := p) && r.value.Valid()
  {
    if p < 0 || p > b.limit then Err(IllegalArgument) else Ok(b.(position := p))
  }

  function PutInt(b: BufferState, x: Int32): (r: Result<BufferState>)
    requires b.Valid()
    ensures r.Ok? ==> r.value.Valid()
  {
    Put(b, EncodeInt32(x))
  }

  function PutLong(b: BufferState, x: Int64): (r: Result<BufferState>)
    requires b.Valid()
    ensures r.Ok? ==> r.value.Valid()
  {
    Put(b, EncodeInt64(x))
  }

  function PutByte(b: BufferState, x: byte): (r: Result<BufferState>)
    requires b.Valid()
    ensures r.Ok? ==> r.value.Valid()
  {
    Put(b, [x])
  }

  function GetInt(b: BufferState): (r: Result<(Int32, BufferState)>)
    requires b.Valid()
    ensures r.Ok? ==> r.value.1.Valid() && r.value.1.data == b.data && r.value.1.limit == b.limit
                      && r.value.1.position == b.position + 4
  {
    if b.limit - b.position < 4 then Err(BufferUnderflow)
    else Ok((Int32At(b.data, b.position), b.(position := b.position + 4)))
  }

  function GetLong(b: BufferState): (r: Result<(Int64, BufferState)>)
    requires b.Valid()
    ensures r.Ok? ==> r.value.1.Valid() && r.value.1.data == b.data && r.value.1.limit == b.limit
                      && r.value.1.position == b.position + 8
  {
    if b.limit - b.position < 8 then Err(BufferUnderflow)
    else Ok((Int64At(b.data, b.position), b.(position := b.position + 8)))
  }

  function GetByte(b: BufferState): (r: Result<(byte, BufferState)>)
    requires b.Valid()
    ensures r.Ok? ==> r.value.1.Valid() && r.value.1.data == b.data && r.value.1.limit == b.limit
                      && r.value.1.position == b.position + 1
  {
    if b.limit - b.position < 1 then Err(BufferUnderflow)
    else Ok((b.data[b.position], b.(position := b.position + 1)))
  }

  /** Writing then reading back: what `Put` stored is what `Get` returns from
      the same position, whatever else the buffer holds. */
  lemma PutThenGet(b: BufferState, bytes: seq<byte>)
    requires b.Valid() && |bytes| <= Remaining(b)
    ensures Put(b, bytes).Ok?
    ensures var b' := Put(b, bytes).value;
            Get(b'.(position := b.position), |bytes|) == Ok((bytes, b'))
  {
    PutContents(b, bytes);
  }

  lemma PutIntThenGetInt(b: BufferState, x: Int32)
    requires b.Valid() && 4 <= Remaining(b)
    ensures PutInt(b, x).Ok?
    ensures var b' := PutInt(b, x).value;
            GetInt(b'.(position := b.position)) == Ok((x, b'))
  {
    PutContents(b, EncodeInt32(x));
    Int32RoundTrip(x);
  }

  lemma PutLongThenGetLong(b: BufferState, x: Int64)
    requires b.Valid() && 8 <= Remaining(b)
    ensures PutLong(b, x).Ok?
    ensures var b' := PutLong(b, x).value;
            GetLong(b'.(position := b.position)) == Ok((x, b'))
  {
    PutContents(b, EncodeInt64(x));
    Int64RoundTrip(x);
  }

}

/** The buffer object.  Its backing array never changes identity or size. */
module ByteBuffers {
  import opened Results
  import opened Bytes
  import Buffers

  class ByteBuffer {
    const data: array<byte>
    var position: nat
    var limit: nat

    ghost predicate Valid()
      reads this
    {
      position <= limit <= data.Length
    }

    function State(): (s: Buffers.BufferState)
      reads this, data
    {
      Buffers.BufferState(Buffers.Memory(data[..]), position, limit)
    }

    constructor Allocate(capacity: nat)
      ensures Valid() && fresh(data)
      ensures State() == Buffers.Allocate(capacity)
    {
      data := new byte[capacity](_ => 0 as byte);
      position := 0;
      limit := capacity;
      new;
      assert data[..] == seq(capacity, _ => 0 as byte);
    }

    method Clear()
      modifies this
      ensures Valid() && State() == Buffers.Clear(old(State()))
    {
      position := 0;
      limit := data.Length;
    }

    method Flip()
      requires Valid()
      modifies this
      ensures Valid() && State() == Buffers.Flip(old(State()))
    {
      limit := position;
      position := 0;
    }

    method Compact()
      requires Valid()
      modifies this, data
      ensures Valid() && State() == Buffers.Compact(old(State()))
    {
      var n := limit - position;
      var p := position;
      forall i | 0 <= i < n {
        data[i] := data[p + i];
      }
      assert data[..] == old(data[..])[p..p + n] + old(data[..])[n..];
      position := n;
      limit := data.Length;
    }

    function Remaining(): (n: nat)
      reads this
      requires Valid()
      ensures n == Buffers.Remaining(State())
    {
      limit - position
    }

    method Put(bytes: seq<byte>) returns (o: Outcome)
      requires Valid()
      modifies this, data
      ensures Valid()
      ensures Buffers.Put(old(State()), bytes).Ok? ==> o == Pass && State() == Buffers.Put(old(State()), bytes).value
      ensures Buffers.Put(old(State()), bytes).Err? ==> o == Fail(BufferOverflow) && unchanged(this, data)
    {
      if |bytes| > limit - position {
        return Fail(BufferOverflow);
      }
      var p := position;
      forall i | 0 <= i < |bytes| {
        data[p + i] := bytes[i];
      }
      assert data[..] == old(data[..])[..p] + bytes + old(data[..])[p + |bytes|..];
      Buffers.OverwriteIsSplice(old(data[..]), p, bytes);
      position := p + |bytes|;
      o := Pass;
    }

    method Get(n: nat) returns (r: Result<seq<byte>>)
      requires Valid()
      modifies this
      ensures Valid()
      ensures Buffers.Get(old(State()), n).Ok? ==>
                r == Ok(Buffers.Get(old(State()), n).value.0) && State() == Buffers.Get(old(State()), n).value.1
      ensures Buffers.Get(old(State()), n).Err? ==> r == Err(BufferUnderflow) && unchanged(this)
    {
      if n > limit - position {
        return Err(BufferUnderflow);
      }
      r := Ok(data[position..position + n]);
      position := position + n;
    }

    /** getInt(): the next four bytes as a big-endian int. */
    method GetInt() returns (r: Result<Int32>)
      requires Valid()
      modifies this
      ensures Valid()
      ensures var g := Buffers.GetInt(old(State()));
              (g.Ok? ==> r == Ok(g.value.0) && State() == g.value.1)
              && (g.Err? ==> r == Err(BufferUnderflow) && unchanged(this))
    {
      if limit - position < 4 {
        return Err(BufferUnderflow);
      }
      r := Ok(Int32At(data[..], position));
      position := position + 4;
    }

    /** getLong(): the next eight bytes as a big-endian long. */
    method GetLong() returns (r: Result<Int64>)
      requires Valid()
      modifies this
      ensures Valid()
      ensures var g := Buffers.GetLong(old(State()));
              (g.Ok? ==> r == Ok(g.value.0) && State() == g.value.1)
              && (g.Err? ==> r == Err(BufferUnderflow) && unchanged(this))
    {
      if limit - position < 8 {
        return Err(BufferUnderflow);
      }
      r := Ok(Int64At(data[..], position));
      position := position + 8;
    }

    /** get(): the next byte. */
    method GetByte() returns (r: Result<byte>)
      requires Valid()
      modifies this
      ensures Valid()
      ensures var g := Buffers.GetByte(old(State()));
              (g.Ok? ==> r == Ok(g.value.0) && State() == g.value.1)
              && (g.Err? ==> r == Err(BufferUnderflow) && unchanged(this))
    {
      if limit - position < 1 {
        return Err(BufferUnderflow);
      }
      r := Ok(data[position]);
      position := position + 1;
    }

    method SetPosition(p: int) returns (o: Outcome)
      requires Valid()
      modifies this
      ensures Valid()
      ensures Buffers.SetPosition(old(State()), p).Ok? ==> o == Pass && State() == Buffers.SetPosition(old(State()), p).value
      ensures Buffers.SetPosition(old(State()), p).Err? ==> o == Fail(IllegalArgument) && unchanged(this)
    {
      if p < 0 || p > limit {
        return Fail(IllegalArgument);
      }
      position := p;
      o := Pass;
    }
  }
}
