/** Column types of the store (package `types`): 64-bit integers, bounded
    length-prefixed byte strings and booleans, each with a fixed-width binary
    field.  A field is written at a buffer's position and read back from it. */
module DataTypes {
  import opened Results
  import opened Bytes
  import opened Buffers

  /** IntegerDataType, StringDataType(maximumLength), BooleanDataType. */
  datatype DataType = IntegerType | StringType(maximumLength: Int32) | BooleanType

  /** The Java objects a row holds: Long, String (as its bytes) and Boolean. */
  datatype Value = IntValue(i: Int64) | StrValue(s: seq<byte>) | BoolValue(b: bool)

  /** The three classes a type test (`instanceof`) can tell apart. */
  datatype Kind = IntegerKind | StringKind | BooleanKind

  function KindOf(t: DataType): Kind
  {
    match t
    case IntegerType => IntegerKind
    case StringType(_) => StringKind
    case BooleanType => BooleanKind
  }

  function ValueKind(v: Value): Kind
  {
    match v
    case IntValue(_) => IntegerKind
    case StrValue(_) => StringKind
    case BoolValue(_) => BooleanKind
  }

  /** A value the type can store: of the type's class and, for strings, no
      longer than the maximum length. */
  predicate Fits(t: DataType, v: Value)
  {
    ValueKind(v) == KindOf(t) && (t.StringType? ==> |v.s| <= t.maximumLength)
  }

  /** A type the server can declare: a string type's maximum length is not negative. */
  predicate ValidType(t: DataType)
  {
    t.StringType? ==> t.maximumLength >= 0
  }

  /** getSize(): the width of the type's field in bytes. */
  function GetSize(t: DataType): (n: int)
    ensures ValidType(t) ==> n >= 1
  {
    match t
    case IntegerType => 8
    case StringType(m) => 4 + m
    case BooleanType => 1
  }

  /** isComparable: two types compare exactly when they are of the same class.
      BooleanDataType declares this; for the other two it is an assumption. */
  predicate IsComparable(t: DataType, other: DataType)
  {
    KindOf(t) == KindOf(other)
  }

  /** getName(): only BooleanDataType declares one. */
  function GetName(t: DataType): (r: Option<string>)
    ensures r.Some? <==> t.BooleanType?
    ensures t.BooleanType? ==> r.value == "boolean"
  {
    if t.BooleanType? then Some("boolean") else None
  }

  /** The bytes a field starts with: the value's own pattern.  A string field
      is followed by maximumLength - |s| bytes that serializing skips over. */
  function Pattern(v: Value): (r: seq<byte>)
    requires v.StrValue? ==> |v.s| < TWO_31
  {
    match v
    case IntValue(x) => EncodeInt64(x)
    case StrValue(s) => EncodeInt32(|s|) + s
    case BoolValue(x) => [if x then 1 else 0]
  }

  /** What a write into a caller's buffer leaves behind: the buffer as the
      write left it, and whether it completed.  A failing write keeps what it
      wrote before failing, exactly as the Java buffer does. */
  datatype Effect = Effect(state: BufferState, outcome: Outcome)

  function Apply(b: BufferState, r: Result<BufferState>): Effect
  {
    match r
    case Ok(b') => Effect(b', Pass)
    case Err(e) => Effect(b, Fail(e))
  }

  /** serialize(buffer, o). */
  function Serialize(t: DataType, v: Value, b: BufferState): (e: Effect)
    requires b.Valid()
    ensures e.state.Valid() && |e.state.data| == |b.data| && e.state.limit == b.limit
    ensures b.position <= e.state.position
    ensures e.outcome.Pass? ==> e.state.position == b.position + GetSize(t)
  {
    match t
    case IntegerType =>
      if !v.IntValue? then Effect(b, Fail(ClassCast))
      else Apply(b, PutLong(b, v.i))
    case BooleanType =>
      if !v.BoolValue? then Effect(b, Fail(ClassCast))
      else Apply(b, PutByte(b, if v.b then 1 else 0))
    case StringType(m) =>
      if !v.StrValue? then Effect(b, Fail(ClassCast))
      else if |v.s| > m then Effect(b, Fail(Serialization))
      else
        match PutInt(b, |v.s|)
        case Err(err) => Effect(b, Fail(err))
        case Ok(b1) =>
          match Put(b1, v.s)
          case Err(err) => Effect(b1, Fail(err))
          case Ok(b2) => Apply(b2, SetPosition(b2, b2.position + m - |v.s|))
  }

  /** deserialize(buffer). */
  function Deserialize(t: DataType, b: BufferState): (r: Result<(Value, BufferState)>)
    requires b.Valid()
    ensures r.Ok? ==> r.value.1.Valid() && r.value.1.data == b.data && r.value.1.limit == b.limit
                      && r.value.1.position == b.position + GetSize(t) && GetSize(t) >= 1
  {
    var p := b.position;
    match t
    case IntegerType =>
      if Remaining(b) < 8 then Err(BufferUnderflow)
      else Ok((IntValue(Int64At(b.data, p)), b.(position := p + 8)))
    case BooleanType =>
      if Remaining(b) < 1 then Err(BufferUnderflow)
      else Ok((BoolValue(b.data[p] != 0), b.(position := p + 1)))
    case StringType(m) => DeserializeString(m, b)
  }

  /** StringDataType.deserialize, step by step: getInt (underflow), the two
      length checks, get(bytes) (underflow), then position() past the unused
      tail (IllegalArgument when that is beyond the limit). */
  function DeserializeString(m: Int32, b: BufferState): (r: Result<(Value, BufferState)>)
    requires b.Valid()
  {
    var p := b.position;
    if Remaining(b) < 4 then Err(BufferUnderflow)
    else
      var length := Int32At(b.data, p);
      if length > m then Err(Deserialization)
      else if length < 0 then Err(NegativeArraySize)
      else if p + 4 + length > b.limit then Err(BufferUnderflow)
      else if p + 4 + m > b.limit then Err(IllegalArgument)
      else Ok((StrValue(b.data[p + 4..p + 4 + length]), b.(position := p + 4 + m)))
  }

  /** Serializing succeeds exactly when the value fits its type and the field
      fits the remaining space; otherwise the error says which check failed. */
  lemma SerializeSucceedsIff(t: DataType, v: Value, b: BufferState)
    requires b.Valid()
    ensures Serialize(t, v, b).outcome.Pass? <==> Fits(t, v) && GetSize(t) <= Remaining(b)
    ensures ValueKind(v) != KindOf(t) ==> Serialize(t, v, b) == Effect(b, Fail(ClassCast))
    ensures t.StringType? && v.StrValue? && |v.s| > t.maximumLength ==>
              Serialize(t, v, b) == Effect(b, Fail(Serialization))
  {
  }

  /** A successful write places the value's pattern at the old position,
      leaves every other byte as it was, and moves the position past the
      whole field. */
  lemma SerializeLayout(t: DataType, v: Value, b: BufferState)
    requires b.Valid() && Serialize(t, v, b).outcome.Pass?
    ensures Fits(t, v)
    ensures var b' := Serialize(t, v, b).state;
            var p := Pattern(v);
            b'.position == b.position + GetSize(t) && b.position + |p| <= b'.position
            && b'.data[b.position..b.position + |p|] == p
            && b'.data[..b.position] == b.data[..b.position]
            && b'.data[b.position + |p|..] == b.data[b.position + |p|..]
  {
    SerializeSucceedsIff(t, v, b);
    match t
    case IntegerType => FixedLayout(t, v, b);
    case BooleanType => FixedLayout(t, v, b);
    case StringType(m) => StringLayout(m, v.s, b);
  }

  /** An integer or boolean write is one put of the value's pattern. */
  lemma FixedLayout(t: DataType, v: Value, b: BufferState)
    requires b.Valid() && !t.StringType? && Serialize(t, v, b).outcome.Pass?
    ensures !v.StrValue? && Serialize(t, v, b).state == Put(b, Pattern(v)).value
    ensures var b' := Serialize(t, v, b).state;
            var p := Pattern(v);
            b'.data[b.position..b.position + |p|] == p
            && b'.data[..b.position] == b.data[..b.position]
            && b'.data[b.position + |p|..] == b.data[b.position + |p|..]
  {
    assert !v.StrValue?;
    PutContents(b, Pattern(v));
  }

  lemma StringLayout(m: Int32, s: seq<byte>, b: BufferState)
    requires b.Valid() && Serialize(StringType(m), StrValue(s), b).outcome.Pass?
    ensures var b' := Serialize(StringType(m), StrValue(s), b).state;
            var p := EncodeInt32(|s|) + s;
            b'.data[b.position..b.position + |p|] == p
            && b'.data[..b.position] == b.data[..b.position]
            && b'.data[b.position + |p|..] == b.data[b.position + |p|..]
  {
    var p := b.position;
    var n := |s|;
    var b1 := PutInt(b, n).value;
    var b2 := Put(b1, s).value;
    PutTwice(b, EncodeInt32(n), s);
    PutContents(b, EncodeInt32(n) + s);
    assert Serialize(StringType(m), StrValue(s), b).state.data == b2.data;
  }

  /** A write never touches the bytes before the position it starts from. */
  lemma SerializeKeepsPrefix(t: DataType, v: Value, b: BufferState)
    requires b.Valid()
    ensures var b' := Serialize(t, v, b).state;
            b'.data[..b.position] == b.data[..b.position]
  {
    var p := b.position;
    if t.StringType? && v.StrValue? && |v.s| <= t.maximumLength && PutInt(b, |v.s|).Ok? {
      var b1 := PutInt(b, |v.s|).value;
      PutContents(b, EncodeInt32(|v.s|));
      if Put(b1, v.s).Ok? {
        PutContents(b1, v.s);
        assert Put(b1, v.s).value.data[..p] == Put(b1, v.s).value.data[..p + 4][..p];
        assert b1.data[..p] == b1.data[..p + 4][..p];
      }
    } else if t.IntegerType? && v.IntValue? && PutLong(b, v.i).Ok? {
      PutContents(b, EncodeInt64(v.i));
    } else if t.BooleanType? && v.BoolValue? && PutByte(b, if v.b then 1 else 0).Ok? {
      PutContents(b, [if v.b then 1 else 0]);
    }
  }

  /** Reading at the position a successful write started from returns the
      value and ends where the write ended. */
  lemma RoundTrip(t: DataType, v: Value, b: BufferState)
    requires b.Valid() && Serialize(t, v, b).outcome.Pass?
    ensures var b' := Serialize(t, v, b).state;
            Deserialize(t, b'.(position := b.position)) == Ok((v, b'))
  {
    SerializeSucceedsIff(t, v, b);
    match t
    case IntegerType => PutLongThenGetLong(b, v.i);
    case BooleanType =>
      var x: byte := if v.b then 1 else 0;
      PutContents(b, [x]);
      var e := PutByte(b, x).value;
      assert e.data[b.position] == e.data[b.position..b.position + 1][0];
    case StringType(m) => StringRoundTrip(m, v.s, b);
  }

  lemma StringRoundTrip(m: Int32, s: seq<byte>, b: BufferState)
    requires b.Valid() && Serialize(StringType(m), StrValue(s), b).outcome.Pass?
    ensures var b' := Serialize(StringType(m), StrValue(s), b).state;
            Deserialize(StringType(m), b'.(position := b.position)) == Ok((StrValue(s), b'))
  {
    var p := b.position;
    var b' := Serialize(StringType(m), StrValue(s), b).state;
    StringWritten(m, s, b);
    StringRead(m, b'.(position := p), s);
    assert b'.(position := p).(position := p + 4 + m) == b';
  }

  /** What a successful string write leaves for a read from its start: the
      length word, the bytes, and room for the whole field. */
  lemma StringWritten(m: Int32, s: seq<byte>, b: BufferState)
    requires b.Valid() && Serialize(StringType(m), StrValue(s), b).outcome.Pass?
    ensures var b' := Serialize(StringType(m), StrValue(s), b).state;
            var p := b.position;
            0 <= |s| <= m && b'.position == p + 4 + m && p + 4 + m <= b'.limit
            && Int32At(b'.data, p) == |s| && b'.data[p + 4..p + 4 + |s|] == s
  {
    SerializeSucceedsIff(StringType(m), StrValue(s), b);
    var n := |s|;
    var p := b.position;
    var b1 := PutInt(b, n).value;
    var b2 := Put(b1, s).value;
    assert Serialize(StringType(m), StrValue(s), b).state == b2.(position := p + 4 + m);
    PutIntThenGetInt(b, n);
    PutContents(b1, s);
    AtPrefix(b2.data, b1.data, p + 4, p);
  }

  /** A successful read consumes exactly one field and yields a value that
      fits the type. */
  lemma DeserializeFits(t: DataType, b: BufferState)
    requires b.Valid() && Deserialize(t, b).Ok?
    ensures Fits(t, Deserialize(t, b).value.0)
    ensures b.position + GetSize(t) <= b.limit
  {
  }

  /** The reads that fail: a stored string length above the maximum, and a
      negative one (which `new byte[n]` refuses). */
  lemma DeserializeRejectsLength(m: Int32, b: BufferState)
    requires b.Valid() && 4 <= Remaining(b)
    ensures var length := Int32At(b.data, b.position);
            (length > m ==> Deserialize(StringType(m), b) == Err(Deserialization))
            && (length <= m && length < 0 ==> Deserialize(StringType(m), b) == Err(NegativeArraySize))
  {
  }

  /** A read looks only at its own field: two buffers that agree on the
      field's bytes read the same value from it. */
  lemma DeserializeLocal(t: DataType, b: BufferState, c: BufferState)
    requires b.Valid() && c.Valid() && b.position == c.position && b.limit == c.limit
    requires Deserialize(t, b).Ok?
    requires c.data[b.position..b.position + GetSize(t)] == b.data[b.position..b.position + GetSize(t)]
    ensures Deserialize(t, c) == Ok((Deserialize(t, b).value.0, c.(position := b.position + GetSize(t))))
  {
    match t
    case IntegerType => FixedLocal(t, b, c);
    case BooleanType => FixedLocal(t, b, c);
    case StringType(m) => StringLocal(m, b, c);
  }

  /** A field read back from a later buffer that still holds, up to the
      field's end, the bytes its write left. */
  lemma ReadBackAfter(t: DataType, v: Value, b: BufferState, g: BufferState)
    requires b.Valid() && g.Valid() && Serialize(t, v, b).outcome.Pass?
    requires |g.data| == |b.data| && g.limit == b.limit
    requires var e := Serialize(t, v, b).state;
             g.data[..e.position] == e.data[..e.position]
    ensures var e := Serialize(t, v, b).state;
            Deserialize(t, g.(position := b.position)) == Ok((v, g.(position := e.position)))
  {
    var e := Serialize(t, v, b).state;
    RoundTrip(t, v, b);
    PrefixAgree(g.data, e.data, b.position, e.position);
    DeserializeLocal(t, e.(position := b.position), g.(position := b.position));
  }

  /** Integers and booleans read their field with one get of its width. */
  lemma FixedLocal(t: DataType, b: BufferState, c: BufferState)
    requires b.Valid() && c.Valid() && b.position == c.position && b.limit == c.limit
    requires !t.StringType? && b.position + GetSize(t) <= b.limit
    requires c.data[b.position..b.position + GetSize(t)] == b.data[b.position..b.position + GetSize(t)]
    ensures Deserialize(t, c) == Ok((Deserialize(t, b).value.0, c.(position := b.position + GetSize(t))))
  {
    var p := b.position;
    if t.BooleanType? {
      assert c.data[p] == c.data[p..p + 1][0] == b.data[p..p + 1][0] == b.data[p];
    } else {
    }
  }

  lemma StringLocal(m: Int32, b: BufferState, c: BufferState)
    requires b.Valid() && c.Valid() && b.position == c.position && b.limit == c.limit
    requires Deserialize(StringType(m), b).Ok?
    requires c.data[b.position..b.position + 4 + m] == b.data[b.position..b.position + 4 + m]
    ensures Deserialize(StringType(m), c)
            == Ok((Deserialize(StringType(m), b).value.0, c.(position := b.position + 4 + m)))
  {
    StringDecoded(m, b);
    StringAgree(m, b, c, Deserialize(StringType(m), b).value.0.s);
  }

  /** A buffer that agrees with a string field's bytes reads the same string. */
  lemma StringAgree(m: Int32, b: BufferState, c: BufferState, s: seq<byte>)
    requires b.Valid() && c.Valid() && b.position == c.position && b.limit == c.limit
    requires 0 <= |s| <= m && b.position + 4 + m <= b.limit
    requires Int32At(b.data, b.position) == |s|
    requires b.data[b.position + 4..b.position + 4 + |s|] == s
    requires c.data[b.position..b.position + 4 + m] == b.data[b.position..b.position + 4 + m]
    ensures Deserialize(StringType(m), c) == Ok((StrValue(s), c.(position := c.position + 4 + m)))
  {
    var p := b.position;
    AtAgree(c.data, b.data, p, 4 + m);
    SubSliceAgree(c.data, b.data, p, p + 4 + m, 4, 4 + |s|);
    StringRead(m, c, s);
  }

  /** What a successful string read has seen: a length word, that many bytes,
      and room for the whole field. */
  lemma StringDecoded(m: Int32, b: BufferState)
    requires b.Valid() && Deserialize(StringType(m), b).Ok?
    ensures var p := b.position;
            var r := Deserialize(StringType(m), b).value;
            r.0.StrValue? && 0 <= |r.0.s| <= m && p + 4 + m <= b.limit
            && Int32At(b.data, p) == |r.0.s| && b.data[p + 4..p + 4 + |r.0.s|] == r.0.s
            && r.1 == b.(position := p + 4 + m)
  {
  }

  /** Bytes holding a length word and that many bytes, with room for the
      whole field, read as that string. */
  lemma StringRead(m: Int32, c: BufferState, s: seq<byte>)
    requires c.Valid() && 0 <= |s| <= m && c.position + 4 + m <= c.limit
    requires Int32At(c.data, c.position) == |s|
    requires c.data[c.position + 4..c.position + 4 + |s|] == s
    ensures Deserialize(StringType(m), c) == Ok((StrValue(s), c.(position := c.position + 4 + m)))
  {
  }

  /** Integers and booleans read successfully whenever their field is there:
      neither codec rejects any bit pattern. */
  lemma FixedReadsTotal(t: DataType, b: BufferState)
    requires b.Valid() && !t.StringType? && GetSize(t) <= Remaining(b)
    ensures Deserialize(t, b).Ok?
  {
  }

  /** Booleans: any non-zero byte reads as true, and writing back what was
      read normalises the byte to 0 or 1. */
  lemma BooleanNormalises(b: BufferState)
    requires b.Valid() && 1 <= Remaining(b)
    ensures var x := b.data[b.position];
            Deserialize(BooleanType, b).Ok? && Deserialize(BooleanType, b).value.0 == BoolValue(x != 0)
            && Pattern(Deserialize(BooleanType, b).value.0) == [if x == 0 then 0 else 1]
  {
  }
}
