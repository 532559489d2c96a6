/** The earlier column type (`DataType` in the top-level package): a raw type,
    INTEGER or STRING, with a signedness flag and a maximum length.  Its string
    field is written with an 8-byte length word but read with a 4-byte one. */
module LegacyDataType {
  import opened Results
  import opened Bytes
  import opened Buffers
  import DataTypes

  datatype RawType = Integer | String

  datatype DataType = DataType(rawType: RawType, isSigned: bool, maximumLength: Int32)

  /** DataType.integer(isSigned). */
  function IntegerOf(isSigned: bool): (t: DataType)
    ensures t.rawType == Integer && t.isSigned == isSigned && t.maximumLength == 0
  {
    DataType(Integer, isSigned, 0)
  }

  /** DataType.string(maximumLength). */
  function StringOf(maximumLength: Int32): (t: DataType)
    ensures t.rawType == String && !t.isSigned && t.maximumLength == maximumLength
  {
    DataType(String, false, maximumLength)
  }

  /** getSize(): 8 for integers, a 4-byte length plus the maximum length for strings. */
  function GetSize(t: DataType): int
  {
    match t.rawType
    case Integer => 8
    case String => 4 + t.maximumLength
  }

  function Serialize(t: DataType, v: DataTypes.Value, b: BufferState): (e: DataTypes.Effect)
    requires b.Valid()
    ensures e.state.Valid() && |e.state.data| == |b.data| && e.state.limit == b.limit
  {
    match t.rawType
    case Integer =>
      if !v.IntValue? then DataTypes.Effect(b, Fail(ClassCast))
      else DataTypes.Apply(b, PutLong(b, v.i))
    case String =>
      var m := t.maximumLength;
      if !v.StrValue? then DataTypes.Effect(b, Fail(ClassCast))
      else if |v.s| > m then DataTypes.Effect(b, Fail(Serialization))
      else
        match PutLong(b, |v.s|)
        case Err(err) => DataTypes.Effect(b, Fail(err))
        case Ok(b1) =>
          match Put(b1, v.s)
          case Err(err) => DataTypes.Effect(b1, Fail(err))
          case Ok(b2) => DataTypes.Apply(b2, SetPosition(b2, b2.position + m - |v.s|))
  }

  function Deserialize(t: DataType, b: BufferState): (r: Result<(DataTypes.Value, BufferState)>)
    requires b.Valid()
    ensures r.Ok? ==> r.value.1.Valid() && r.value.1.data == b.data
                      && r.value.1.position == b.position + GetSize(t)
  {
    match t.rawType
    case Integer =>
      var (x, b1) :- GetLong(b);
      Ok((DataTypes.IntValue(x), b1))
    case String =>
      var m := t.maximumLength;
      var (length, b1) :- GetInt(b);
      if length < 0 || length > m then Err(InvalidLength)
      else
        var (s, b2) :- Get(b1, length);
        var b3 :- SetPosition(b2, b2.position + m - length);
        Ok((DataTypes.StrValue(s), b3))
  }

  /** INTEGER fields round-trip every long and advance by getSize both ways. */
  lemma IntegerRoundTrip(isSigned: bool, x: Int64, b: BufferState)
    requires b.Valid() && 8 <= Remaining(b)
    ensures var t := IntegerOf(isSigned);
            var e := Serialize(t, DataTypes.IntValue(x), b);
            e.outcome.Pass? && e.state.position == b.position + GetSize(t)
            && Deserialize(t, e.state.(position := b.position)) == Ok((DataTypes.IntValue(x), e.state))
  {
    PutLongThenGetLong(b, x);
  }

  /** The checks of the STRING codec: a length outside 0..maximumLength is
      refused when reading, a string above maximumLength when writing. */
  lemma StringRejections(m: Int32, s: seq<byte>, b: BufferState)
    requires b.Valid()
    ensures |s| > m ==> Serialize(StringOf(m), DataTypes.StrValue(s), b).outcome == Fail(Serialization)
    ensures 4 <= Remaining(b) ==>
              var length := Int32At(b.data, b.position);
              (length < 0 || length > m) ==> Deserialize(StringOf(m), b) == Err(InvalidLength)
  {
  }

  /** What the STRING codec does as written.  A successful write covers
      8 + maximumLength bytes, four more than getSize; reading it back sees the
      upper half of the 8-byte length word, which is zero, so it yields the
      empty string and stops four bytes short of the written field. */
  lemma StringMisread(m: Int32, s: seq<byte>, b: BufferState)
    requires b.Valid()
    requires Serialize(StringOf(m), DataTypes.StrValue(s), b).outcome.Pass?
    ensures var e := Serialize(StringOf(m), DataTypes.StrValue(s), b);
            e.state.position == b.position + GetSize(StringOf(m)) + 4
            && Deserialize(StringOf(m), e.state.(position := b.position))
               == Ok((DataTypes.StrValue([]), e.state.(position := b.position + GetSize(StringOf(m)))))
  {
    var p := b.position;
    ZeroLengthWritten(m, s, b);
    ZeroLengthRead(m, Serialize(StringOf(m), DataTypes.StrValue(s), b).state.(position := p));
  }

  /** The first four bytes of the 8-byte length word of a Java string are zero. */
  lemma ZeroLengthWritten(m: Int32, s: seq<byte>, b: BufferState)
    requires b.Valid()
    requires Serialize(StringOf(m), DataTypes.StrValue(s), b).outcome.Pass?
    ensures var e := Serialize(StringOf(m), DataTypes.StrValue(s), b);
            e.state.position == b.position + 8 + m && 0 <= m
            && e.state.data[b.position..b.position + 4] == [0, 0, 0, 0]
  {
    var n := |s|;
    var p := b.position;
    var w := EncodeInt64(n);
    PutTwice(b, w, s);
    PutContents(b, w + s);
    var e := Serialize(StringOf(m), DataTypes.StrValue(s), b).state;
    assert e.data == Put(b, w + s).value.data;
    assert e.data[p..p + 4] == e.data[p..p + |w + s|][..4];
    assert (w + s)[..4] == w[..4];
    HighHalfOfSmallLong(n);
  }

  /** Reading a STRING field whose length word is zero gives the empty string
      and moves four bytes plus the maximum length on. */
  lemma ZeroLengthRead(m: Int32, c: BufferState)
    requires c.Valid() && 0 <= m && c.position + 8 + m <= c.limit
    requires c.data[c.position..c.position + 4] == [0, 0, 0, 0]
    ensures Deserialize(StringOf(m), c) == Ok((DataTypes.StrValue([]), c.(position := c.position + 4 + m)))
  {
    var p := c.position;
    ZeroWord();
    var after := c.(position := p + 4);
    assert GetInt(c) == Ok((0, after));
    assert after.data[p + 4..p + 4] == [];
    assert Get(after, 0) == Ok(([], after));
  }

  lemma ZeroWord()
    ensures DecodeInt32([0, 0, 0, 0]) == 0
  {
    ZeroEncoding(4);
    Int32RoundTrip(0);
    assert EncodeInt32(0) == seq(4, _ => 0 as byte) == [0, 0, 0, 0];
  }

  /** The smallest witness: writing "a" as a STRING of maximum length 1 into
      a fresh 9-byte buffer, then reading it back, gives "". */
  lemma StringMisreadExample()
    ensures var b := Allocate(9);
            var e := Serialize(StringOf(1), DataTypes.StrValue([97]), b);
            e.outcome.Pass?
            && Deserialize(StringOf(1), e.state.(position := 0)).Ok?
            && Deserialize(StringOf(1), e.state.(position := 0)).value.0 == DataTypes.StrValue([])
  {
    var b := Allocate(9);
    var e := Serialize(StringOf(1), DataTypes.StrValue([97]), b);
    assert PutLong(b, 1).Ok?;
    StringMisread(1, [97], b);
  }
}
