/** The column codecs as the source runs them: reading and writing one field
    at the position of a live buffer object, which they advance in place. */
module FieldIO {
  import opened Results
  import opened Bytes
  import Buffers
  import opened ByteBuffers
  import opened DataTypes

  /** DataType.serialize(buffer, o) on a buffer object: the buffer ends up as
      `Serialize` says, including the bytes a failing write has already put. */
  method WriteField(t: DataType, v: Value, buf: ByteBuffer) returns (o: Outcome)
    requires buf.Valid()
    modifies buf, buf.data
    ensures buf.Valid()
    ensures buf.State() == Serialize(t, v, old(buf.State())).state
    ensures o == Serialize(t, v, old(buf.State())).outcome
  {
    match t
    case IntegerType =>
      if !v.IntValue? {
        return Fail(ClassCast);
      }
      o := buf.Put(EncodeInt64(v.i));
    case BooleanType =>
      if !v.BoolValue? {
        return Fail(ClassCast);
      }
      o := buf.Put([if v.b then 1 else 0]);
    case StringType(m) =>
      if !v.StrValue? {
        return Fail(ClassCast);
      }
      if |v.s| > m {
        return Fail(Serialization);
      }
      o := buf.Put(EncodeInt32(|v.s|));
      if o.Fail? {
        return;
      }
      o := buf.Put(v.s);
      if o.Fail? {
        return;
      }
      o := buf.SetPosition(buf.position + m - |v.s|);
  }

  /** DataType.deserialize(buffer) on a buffer object: each column type
      reads its own way. */
  method ReadField(t: DataType, buf: ByteBuffer) returns (r: Result<Value>)
    requires buf.Valid()
    modifies buf
    ensures buf.Valid()
    ensures Deserialize(t, old(buf.State())).Ok? ==>
              r == Ok(Deserialize(t, old(buf.State())).value.0)
              && buf.State() == Deserialize(t, old(buf.State())).value.1
    ensures Deserialize(t, old(buf.State())).Err? ==> r == Err(Deserialize(t, old(buf.State())).error)
  {
    match t
    case IntegerType => r := ReadInteger(buf);
    case BooleanType => r := ReadBoolean(buf);
    case StringType(m) => r := ReadString(m, buf);
  }

  /** IntegerDataType.deserialize: getLong(). */
  method ReadInteger(buf: ByteBuffer) returns (r: Result<Value>)
    requires buf.Valid()
    modifies buf
    ensures buf.Valid()
    ensures var d := Deserialize(IntegerType, old(buf.State()));
            (d.Ok? ==> r == Ok(d.value.0) && buf.State() == d.value.1) && (d.Err? ==> r == Err(d.error))
  {
    var x := buf.GetLong();
    if x.Err? {
      return Err(x.error);
    }
    r := Ok(IntValue(x.value));
  }

  /** BooleanDataType.deserialize: get() != 0. */
  method ReadBoolean(buf: ByteBuffer) returns (r: Result<Value>)
    requires buf.Valid()
    modifies buf
    ensures buf.Valid()
    ensures var d := Deserialize(BooleanType, old(buf.State()));
            (d.Ok? ==> r == Ok(d.value.0) && buf.State() == d.value.1) && (d.Err? ==> r == Err(d.error))
  {
    var x := buf.GetByte();
    if x.Err? {
      return Err(x.error);
    }
    r := Ok(BoolValue(x.value != 0));
  }

  /** StringDataType.deserialize: the length word, its two checks, the bytes,
      then past the unused tail of the field. */
  method ReadString(m: Int32, buf: ByteBuffer) returns (r: Result<Value>)
    requires buf.Valid()
    modifies buf
    ensures buf.Valid()
    ensures var d := Deserialize(StringType(m), old(buf.State()));
            (d.Ok? ==> r == Ok(d.value.0) && buf.State() == d.value.1) && (d.Err? ==> r == Err(d.error))
  {
    var w := buf.GetInt();
    if w.Err? {
      return Err(w.error);
    }
    var length := w.value;
    if length > m {
      return Err(Deserialization);
    }
    if length < 0 {
      return Err(NegativeArraySize);
    }
    var s := buf.Get(length);
    if s.Err? {
      return Err(s.error);
    }
    var o := buf.SetPosition(buf.position + m - length);
    if o.Fail? {
      return Err(o.error);
    }
    r := Ok(StrValue(s.value));
  }
}
