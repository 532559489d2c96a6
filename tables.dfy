/** A table: a name, its columns, and a file of fixed-size row slots.  Slot
    `id` holds the row's fields one after another, at byte id * rowSize. */
module Tables {
  import opened Results
  import opened Bytes
  import opened Buffers
  import opened ByteBuffers
  import opened DataTypes
  import opened FieldIO

  /** A column knows its name, its type and its index among the table's columns. */
  datatype Column = Column(name: string, columnType: DataType, position: nat)

  /** The table's file: its bytes, or a file whose size and contents cannot be read. */
  datatype TableFile = Readable(bytes: seq<byte>) | Unreadable

  datatype Table = Table(name: string, columns: seq<Column>, file: TableFile)

  /** The byte offset of column n's field within a row: the widths of the
      columns before it. */
  function FieldOffset(columns: seq<Column>, n: nat): int
    requires n <= |columns|
    decreases n
  {
    if n == 0 then 0
    else FieldOffset(columns, n - 1) + GetSize(columns[n - 1].columnType)
  }

  /** rowSize: the sum of the columns' sizes. */
  function RowSize(columns: seq<Column>): int
  {
    FieldOffset(columns, |columns|)
  }

  /** The tables the server builds: at least one column, fields of positive
      width, a row size that is a Java int, and each column's position its index. */
  predicate WellFormed(t: Table)
  {
    |t.columns| > 0
    && (forall i | 0 <= i < |t.columns| :: ValidType(t.columns[i].columnType))
    && (forall i | 0 <= i < |t.columns| :: t.columns[i].position == i)
    && 0 < RowSize(t.columns) < TWO_31
  }

  /** Every field is at least one byte wide, so the first n fields take at
      least n bytes, and no earlier field starts later than field n. */
  lemma {:induction false} OffsetAtLeast(columns: seq<Column>, n: nat)
    requires forall i | 0 <= i < |columns| :: ValidType(columns[i].columnType)
    requires n <= |columns|
    ensures FieldOffset(columns, n) >= n
    ensures forall m | 0 <= m <= n :: FieldOffset(columns, m) <= FieldOffset(columns, n)
  {
    if n > 0 {
      OffsetAtLeast(columns, n - 1);
      assert ValidType(columns[n - 1].columnType);
    }
  }

  /** Field offsets grow with the column index: the fields are laid out in
      column order without overlap, and every field lies within rowSize. */
  lemma {:induction false} FieldOffsetsIncrease(columns: seq<Column>, i: nat, j: nat)
    requires forall k | 0 <= k < |columns| :: ValidType(columns[k].columnType)
    requires i < j <= |columns|
    ensures FieldOffset(columns, i) + GetSize(columns[i].columnType) <= FieldOffset(columns, j)
    ensures FieldOffset(columns, j) <= RowSize(columns)
  {
    if i < j - 1 {
      FieldOffsetsIncrease(columns, i, j - 1);
      assert ValidType(columns[j - 1].columnType);
    }
    OffsetAtLeast(columns, |columns|);
  }

  /** The inner loop of fetch, over its first n columns: each column, in
      order, decoded from the buffer. */
  function DecodeFields(columns: seq<Column>, n: nat, b: BufferState): (r: Result<(seq<Value>, BufferState)>)
    requires b.Valid() && n <= |columns|
    ensures r.Ok? ==> |r.value.0| == n && r.value.1.Valid() && r.value.1.data == b.data
                      && r.value.1.limit == b.limit && r.value.1.position == b.position + FieldOffset(columns, n)
                      && FieldOffset(columns, n) >= 0
    decreases n
  {
    if n == 0 then Ok(([], b))
    else
      match DecodeFields(columns, n - 1, b)
      case Err(e) => Err(e)
      case Ok((values, b1)) =>
        match Deserialize(columns[n - 1].columnType, b1)
        case Err(e) => Err(e)
        case Ok((v, b2)) => Ok((values + [v], b2))
  }

  /** All the columns of a row, decoded. */
  function DecodeColumns(columns: seq<Column>, b: BufferState): (r: Result<(seq<Value>, BufferState)>)
    requires b.Valid()
  {
    DecodeFields(columns, |columns|, b)
  }

  /** Decoding n columns is decoding the first n - 1, then the last one read
      where those ended. */
  lemma DecodeFieldsSplit(columns: seq<Column>, n: nat, b: BufferState)
    requires b.Valid() && 0 < n <= |columns| && DecodeFields(columns, n, b).Ok?
    ensures var b1 := b.(position := b.position + FieldOffset(columns, n - 1));
            DecodeFields(columns, n - 1, b).Ok? && DecodeFields(columns, n - 1, b).value.1 == b1 && b1.Valid()
            && Deserialize(columns[n - 1].columnType, b1).Ok?
            && DecodeFields(columns, n, b).value.0
               == DecodeFields(columns, n - 1, b).value.0 + [Deserialize(columns[n - 1].columnType, b1).value.0]
  {
  }

  /** Value i of `values` is what column i's type reads from its field in a
      row starting at b's position. */
  predicate ReadsValue(columns: seq<Column>, i: nat, values: seq<Value>, b: BufferState)
    requires b.Valid() && i < |columns|
  {
    var q := b.position + FieldOffset(columns, i);
    i < |values| && 0 <= FieldOffset(columns, i) && q <= b.limit
    && var d := Deserialize(columns[i].columnType, b.(position := q));
       d.Ok? && d.value.0 == values[i]
  }

  /** Decoding a row yields, for each column, the value its own type reads
      from the column's field. */
  lemma DecodeFieldsValues(columns: seq<Column>, n: nat, b: BufferState, i: nat)
    requires b.Valid() && n <= |columns| && DecodeFields(columns, n, b).Ok? && i < n
    ensures ReadsValue(columns, i, DecodeFields(columns, n, b).value.0, b)
  {
    DecodePrefix(columns, i + 1, n, b);
    ValueAtOwnIndex(columns, i, n, b);
  }

  /** The first k values of a decode of the first n columns are a decode of
      the first k. */
  predicate DecodesPrefix(columns: seq<Column>, k: nat, n: nat, b: BufferState)
    requires b.Valid() && k <= n <= |columns|
  {
    DecodeFields(columns, n, b).Ok? && DecodeFields(columns, k, b).Ok?
    && DecodeFields(columns, k, b).value.0 == DecodeFields(columns, n, b).value.0[..k]
  }

  /** Decoding the first k columns of a row that decodes yields the first k
      values of the whole decode. */
  lemma {:induction false} DecodePrefix(columns: seq<Column>, k: nat, n: nat, b: BufferState)
    requires b.Valid() && k <= n <= |columns| && DecodeFields(columns, n, b).Ok?
    ensures DecodesPrefix(columns, k, n, b)
    decreases n
  {
    if k < n {
      DecodeFieldsSplit(columns, n, b);
      DecodePrefix(columns, k, n - 1, b);
      PrefixOfSnoc(DecodeFields(columns, n, b).value.0, DecodeFields(columns, n - 1, b).value.0,
                   Deserialize(columns[n - 1].columnType, DecodeFields(columns, n - 1, b).value.1).value.0, k);
    } else {
      assert DecodeFields(columns, n, b).value.0[..n] == DecodeFields(columns, n, b).value.0;
    }
  }

  lemma PrefixOfSnoc<T>(all: seq<T>, vs: seq<T>, x: T, k: nat)
    requires all == vs + [x] && k <= |vs|
    ensures all[..k] == vs[..k]
  {
  }

  /** Value i of a decode of the first n columns, which a decode of the
      first i + 1 ends with, is what column i's type reads from its field. */
  lemma ValueAtOwnIndex(columns: seq<Column>, i: nat, n: nat, b: BufferState)
    requires b.Valid() && i + 1 <= n <= |columns| && DecodesPrefix(columns, i + 1, n, b)
    ensures ReadsValue(columns, i, DecodeFields(columns, n, b).value.0, b)
  {
    DecodeOneMore(columns, i, b);
    ReadsValueKept(columns, i, DecodeFields(columns, i + 1, b).value.0, DecodeFields(columns, n, b).value.0, b);
  }

  /** A decode of the first i + 1 columns ends with column i's read at its
      field. */
  lemma DecodeOneMore(columns: seq<Column>, i: nat, b: BufferState)
    requires b.Valid() && i < |columns| && DecodeFields(columns, i + 1, b).Ok?
    ensures ReadsValue(columns, i, DecodeFields(columns, i + 1, b).value.0, b)
  {
    var c := b.(position := b.position + FieldOffset(columns, i));
    DecodeOneMoreSplit(columns, i, b);
    LastRead(columns, i, DecodeFields(columns, i + 1, b).value.0, DecodeFields(columns, i, b).value.0, b, c);
  }

  lemma DecodeOneMoreSplit(columns: seq<Column>, i: nat, b: BufferState)
    requires b.Valid() && i < |columns| && DecodeFields(columns, i + 1, b).Ok?
    ensures var c := b.(position := b.position + FieldOffset(columns, i));
            DecodeFields(columns, i, b).Ok? && DecodeFields(columns, i, b).value.1 == c && c.Valid()
            && |DecodeFields(columns, i, b).value.0| == i && 0 <= FieldOffset(columns, i)
            && Deserialize(columns[i].columnType, c).Ok?
            && DecodeFields(columns, i + 1, b).value.0
               == DecodeFields(columns, i, b).value.0 + [Deserialize(columns[i].columnType, c).value.0]
  {
  }

  lemma LastRead(columns: seq<Column>, i: nat, values: seq<Value>, vs: seq<Value>, b: BufferState, c: BufferState)
    requires b.Valid() && i < |columns| && |vs| == i && 0 <= FieldOffset(columns, i)
    requires c == b.(position := b.position + FieldOffset(columns, i)) && c.Valid()
    requires Deserialize(columns[i].columnType, c).Ok? && values == vs + [Deserialize(columns[i].columnType, c).value.0]
    ensures ReadsValue(columns, i, values, b)
  {
  }

  /** ReadsValue for index i depends only on value i. */
  lemma ReadsValueKept(columns: seq<Column>, i: nat, pre: seq<Value>, all: seq<Value>, b: BufferState)
    requires b.Valid() && i < |columns| && ReadsValue(columns, i, pre, b)
    requires |pre| <= |all| && pre == all[..|pre|]
    ensures ReadsValue(columns, i, all, b)
  {
    assert all[..|pre|][i] == all[i];
  }

  /** Column i's field, read from a buffer holding a row that starts at the
      buffer's position, yields value i and ends where column i + 1's field
      starts. */
  predicate ReadsField(columns: seq<Column>, i: nat, values: seq<Value>, c: BufferState)
    requires i < |columns| && c.Valid()
  {
    var q := c.position + FieldOffset(columns, i);
    var q' := c.position + FieldOffset(columns, i + 1);
    i < |values| && 0 <= q <= c.limit && 0 <= q'
    && Deserialize(columns[i].columnType, c.(position := q)) == Ok((values[i], c.(position := q')))
  }

  /** Decoding the first k columns from c yields the first k values and ends
      where field k starts. */
  predicate Decoded(columns: seq<Column>, k: nat, values: seq<Value>, c: BufferState)
    requires c.Valid() && k <= |columns|
  {
    k <= |values| && 0 <= c.position + FieldOffset(columns, k)
    && DecodeFields(columns, k, c) == Ok((values[..k], c.(position := c.position + FieldOffset(columns, k))))
  }

  /** When each of the first k fields reads back its value, decoding the
      first k columns yields those values and ends after field k - 1. */
  lemma {:induction false} DecodeAll(columns: seq<Column>, k: nat, values: seq<Value>, c: BufferState)
    requires c.Valid() && k <= |columns|
    requires forall i | 0 <= i < k :: ReadsField(columns, i, values, c)
    ensures Decoded(columns, k, values, c)
    decreases k
  {
    if k == 0 {
      DecodeNone(columns, values, c);
    } else {
      DecodeAll(columns, k - 1, values, c);
      DecodeNext(columns, k, values, c);
    }
  }

  lemma DecodeNone(columns: seq<Column>, values: seq<Value>, c: BufferState)
    requires c.Valid()
    ensures Decoded(columns, 0, values, c)
  {
    assert values[..0] == [];
    assert c.(position := c.position + 0) == c;
  }

  /** ReadsField for the last of the first k fields, with the offsets of
      fields k - 1 and k. */
  lemma ReadsLast(columns: seq<Column>, k: nat, values: seq<Value>, c: BufferState)
    requires c.Valid() && 0 < k <= |columns| && ReadsField(columns, k - 1, values, c)
    ensures k - 1 < |values| && c.position + FieldOffset(columns, k - 1) <= c.limit && 0 <= c.position + FieldOffset(columns, k)
    ensures Deserialize(columns[k - 1].columnType, c.(position := c.position + FieldOffset(columns, k - 1)))
            == Ok((values[k - 1], c.(position := c.position + FieldOffset(columns, k))))
  {
  }

  lemma DecodeNext(columns: seq<Column>, k: nat, values: seq<Value>, c: BufferState)
    requires c.Valid() && 0 < k <= |columns|
    requires Decoded(columns, k - 1, values, c) && ReadsField(columns, k - 1, values, c)
    ensures Decoded(columns, k, values, c)
  {
    ReadsLast(columns, k, values, c);
    DecodedBefore(columns, k, values, c);
    DecodeLast(columns, k, values, c, c.position + FieldOffset(columns, k - 1), c.position + FieldOffset(columns, k));
  }

  /** Decoded(k - 1) written out. */
  lemma DecodedBefore(columns: seq<Column>, k: nat, values: seq<Value>, c: BufferState)
    requires c.Valid() && 0 < k <= |columns| && Decoded(columns, k - 1, values, c)
    ensures 0 <= c.position + FieldOffset(columns, k - 1)
    ensures DecodeFields(columns, k - 1, c) == Ok((values[..k - 1], c.(position := c.position + FieldOffset(columns, k - 1))))
  {
  }

  /** One more column decoded after the first k - 1. */
  lemma DecodeLast(columns: seq<Column>, k: nat, values: seq<Value>, c: BufferState, q: nat, q': nat)
    requires c.Valid() && 0 < k <= |columns| && k <= |values| && q <= c.limit
    requires DecodeFields(columns, k - 1, c) == Ok((values[..k - 1], c.(position := q)))
    requires Deserialize(columns[k - 1].columnType, c.(position := q)) == Ok((values[k - 1], c.(position := q')))
    ensures DecodeFields(columns, k, c) == Ok((values[..k], c.(position := q')))
  {
    TakeSnoc(values, k);
  }

  lemma TakeSnoc<T>(s: seq<T>, k: nat)
    requires 0 < k <= |s|
    ensures s[..k - 1] + [s[k - 1]] == s[..k]
  {
  }

  /** getTotalCount(): the number of whole slots in the file, as a Java int;
      0 when the file size cannot be read. */
  function TotalCount(t: Table): (n: Int32)
    requires WellFormed(t)
    ensures t.file.Readable? ==> n <= |t.file.bytes| / RowSize(t.columns)
    ensures t.file.Readable? && |t.file.bytes| / RowSize(t.columns) < TWO_31 ==> n == |t.file.bytes| / RowSize(t.columns)
    ensures t.file.Unreadable? ==> n == 0
  {
    match t.file
    case Unreadable => 0
    case Readable(bytes) =>
      var q := |bytes| / RowSize(t.columns);
      QuotientNonNegative(|bytes|, RowSize(t.columns));
      Wrap32(q)
  }

  /** A slot's offset has the sign of its id and ends one row further on. */
  lemma SlotOffset(id: int, size: int)
    requires size > 0
    ensures id * size < 0 <==> id < 0
    ensures (id + 1) * size == id * size + size
  {
    if id < 0 {
      NonNegativeProduct(-id - 1, size);
      assert id * size == -((-id - 1) * size) - size;
    } else {
      NonNegativeProduct(id, size);
    }
  }

  lemma {:induction false} NonNegativeProduct(n: nat, size: int)
    requires size > 0
    ensures n * size >= 0
  {
    if n > 0 {
      NonNegativeProduct(n - 1, size);
      assert n * size == (n - 1) * size + size;
    }
  }

  lemma QuotientNonNegative(a: nat, b: int)
    requires 0 < b
    ensures 0 <= a / b
  {
  }

  /** fetch(id) as a value: the slot's bytes, when the file holds all of
      them, decoded column by column.  The offset is computed in 64 bits,
      where id * rowSize cannot overflow. */
  function Fetch(t: Table, id: Int32): (r: Result<seq<Value>>)
    requires WellFormed(t)
    ensures id < 0 ==> r == Err(IllegalArgument)
    ensures 0 <= id && t.file.Unreadable? ==> r == Err(InputOutput)
    ensures 0 <= id && t.file.Readable? && (id + 1) * RowSize(t.columns) > |t.file.bytes| ==> r == Err(EndOfFile)
    ensures r.Ok? ==> |r.value| == |t.columns|
  {
    var size := RowSize(t.columns);
    var offset := id * size;
    SlotOffset(id, size);
    if offset < 0 then Err(IllegalArgument)
    else if t.file.Unreadable? then Err(InputOutput)
    else if offset + size > |t.file.bytes| then Err(EndOfFile)
    else
      var (values, _) :- DecodeColumns(t.columns, BufferState(Memory(t.file.bytes[offset..offset + size]), 0, size));
      Ok(values)
  }

  /** A fetch that succeeds read a slot lying wholly in the file and
      returns what decoding that slot gives. */
  lemma FetchDecodes(t: Table, id: Int32)
    requires WellFormed(t) && Fetch(t, id).Ok?
    ensures var size := RowSize(t.columns);
            t.file.Readable? && 0 <= id * size && id * size + size <= |t.file.bytes|
            && var slot := BufferState(Memory(t.file.bytes[id * size..id * size + size]), 0, size);
               DecodeColumns(t.columns, slot).Ok? && Fetch(t, id).value == DecodeColumns(t.columns, slot).value.0
  {
  }

  /** Every value a successful decode yields fits its column's type. */
  lemma {:induction false} DecodedValuesFit(columns: seq<Column>, n: nat, b: BufferState)
    requires b.Valid() && n <= |columns| && DecodeFields(columns, n, b).Ok?
    ensures forall j | 0 <= j < n :: Fits(columns[j].columnType, DecodeFields(columns, n, b).value.0[j])
    decreases n
  {
    if n > 0 {
      var e := DecodeFields(columns, n - 1, b).value;
      var d := Deserialize(columns[n - 1].columnType, e.1);
      DecodedValuesFit(columns, n - 1, b);
      DeserializeFits(columns[n - 1].columnType, e.1);
      FitsSnoc(columns, n, e.0, d.value.0, DecodeFields(columns, n, b).value.0);
    }
  }

  lemma FitsSnoc(columns: seq<Column>, n: nat, prefix: seq<Value>, v: Value, all: seq<Value>)
    requires 0 < n <= |columns| && |prefix| == n - 1 && all == prefix + [v]
    requires forall j | 0 <= j < n - 1 :: Fits(columns[j].columnType, prefix[j])
    requires Fits(columns[n - 1].columnType, v)
    ensures forall j | 0 <= j < n :: Fits(columns[j].columnType, all[j])
  {
  }

  /** Every slot below getTotalCount lies wholly inside the file, so fetching
      it can fail only by a column refusing its field. */
  lemma FetchBelowTotalCount(t: Table, id: Int32)
    requires WellFormed(t) && 0 <= id < TotalCount(t)
    ensures Fetch(t, id).Ok? || Fetch(t, id).error == Deserialization || Fetch(t, id).error == NegativeArraySize
  {
    var size := RowSize(t.columns);
    var bytes := t.file.bytes;
    SlotInside(id, size, |bytes|);
    var slot := BufferState(Memory(bytes[id * size..id * size + size]), 0, size);
    if DecodeColumns(t.columns, slot).Err? {
      DecodeErrors(t.columns, |t.columns|, slot);
    }
  }

  /** A slot index below len / size has its whole slot below len. */
  lemma SlotInside(id: int, size: int, len: int)
    requires 0 <= id && 0 < size && 0 <= len && id < len / size
    ensures id * size + size <= len
  {
    var q := len / size;
    assert q * size <= len;
    var k := q - id - 1;
    assert k >= 0;
    assert q * size == id * size + size + k * size;
    assert k * size >= 0;
  }

  /** With the whole row in the buffer, decoding fails only because a stored
      string length is out of range. */
  lemma {:induction false} DecodeErrors(columns: seq<Column>, n: nat, b: BufferState)
    requires b.Valid() && n <= |columns| && b.position + FieldOffset(columns, n) <= b.limit
    requires forall i | 0 <= i < |columns| :: ValidType(columns[i].columnType)
    requires DecodeFields(columns, n, b).Err?
    ensures DecodeFields(columns, n, b).error == Deserialization || DecodeFields(columns, n, b).error == NegativeArraySize
  {
    var last := columns[n - 1].columnType;
    assert ValidType(last);
    if DecodeFields(columns, n - 1, b).Err? {
      DecodeErrors(columns, n - 1, b);
    } else {
      var b1 := DecodeFields(columns, n - 1, b).value.1;
      assert b1.position + GetSize(last) <= b1.limit;
      if !last.StringType? {
        FixedReadsTotal(last, b1);
      } else {
        StringReadErrors(last.maximumLength, b1);
      }
    }
  }

  lemma StringReadErrors(m: Int32, b: BufferState)
    requires b.Valid() && b.position + 4 + m <= b.limit && m >= 0
    ensures Deserialize(StringType(m), b).Ok? || Deserialize(StringType(m), b).error == Deserialization
            || Deserialize(StringType(m), b).error == NegativeArraySize
  {
  }

  /** channel.read(buffer, offset): copies the file's bytes from `offset` into
      the buffer, as many as fit, and returns how many; -1 at end of file. */
  method ReadAt(bytes: seq<byte>, offset: nat, buffer: ByteBuffer) returns (count: int)
    requires buffer.Valid()
    modifies buffer, buffer.data
    ensures buffer.Valid()
    ensures offset >= |bytes| ==> count == -1 && unchanged(buffer, buffer.data)
    ensures offset < |bytes| ==>
              var n := if |bytes| - offset < old(buffer.Remaining()) then |bytes| - offset else old(buffer.Remaining());
              count == n && buffer.State() == Put(old(buffer.State()), bytes[offset..offset + n]).value
  {
    if offset >= |bytes| {
      return -1;
    }
    var n := if |bytes| - offset < buffer.limit - buffer.position then |bytes| - offset else buffer.limit - buffer.position;
    var o := buffer.Put(bytes[offset..offset + n]);
    count := n;
  }

  /** Table.fetch(id): allocate a row buffer, read the slot into it, and
      decode the columns in order, appending each value. */
  method FetchRow(t: Table, id: Int32) returns (r: Result<seq<Value>>)
    requires WellFormed(t)
    ensures r == Fetch(t, id)
  {
    var size := RowSize(t.columns);
    var offset := id * size;
    if offset < 0 {
      return Err(IllegalArgument);
    }
    if t.file.Unreadable? {
      return Err(InputOutput);
    }
    var buffer := new ByteBuffer.Allocate(size);
    var readLength := ReadAt(t.file.bytes, offset, buffer);
    if readLength != size {
      return Err(EndOfFile);
    }
    Buffers.OverwriteIsSplice(Buffers.Allocate(size).data, 0, t.file.bytes[offset..offset + size]);
    buffer.Flip();
    assert buffer.State() == BufferState(Memory(t.file.bytes[offset..offset + size]), 0, size);
    r := DecodeRow(t.columns, buffer);
  }

  /** The column loop of fetch: each value is read from the buffer and
      appended; the first failing column fails the whole row. */
  method DecodeRow(columns: seq<Column>, buffer: ByteBuffer) returns (r: Result<seq<Value>>)
    requires buffer.Valid()
    modifies buffer
    ensures var d := DecodeColumns(columns, old(buffer.State()));
            (d.Ok? ==> r == Ok(d.value.0)) && (d.Err? ==> r == Err(d.error))
  {
    ghost var start := buffer.State();
    var values: seq<Value> := [];
    var i := 0;
    while i < |columns|
      invariant 0 <= i <= |columns| && buffer.Valid() && start.Valid()
      invariant DecodeFields(columns, i, start) == Ok((values, buffer.State()))
    {
      DecodeStep(columns, i, start, values, buffer.State());
      var v := ReadField(columns[i].columnType, buffer);
      if v.Err? {
        DecodeEndsWith(columns, start, i + 1, v.error);
        return Err(v.error);
      }
      values := values + [v.value];
      i := i + 1;
    }
    return Ok(values);
  }

  /** Decoding one more column after the first i. */
  lemma DecodeStep(columns: seq<Column>, i: nat, b: BufferState, values: seq<Value>, c: BufferState)
    requires b.Valid() && c.Valid() && i < |columns| && DecodeFields(columns, i, b) == Ok((values, c))
    ensures var d := Deserialize(columns[i].columnType, c);
            DecodeFields(columns, i + 1, b) == if d.Ok? then Ok((values + [d.value.0], d.value.1)) else Err(d.error)
  {
  }

  /** A decode of the first k columns that fails is the decode of the whole row. */
  lemma DecodeEndsWith(columns: seq<Column>, b: BufferState, k: nat, e: Error)
    requires b.Valid() && k <= |columns| && DecodeFields(columns, k, b) == Err(e)
    ensures DecodeColumns(columns, b) == Err(e)
  {
    DecodeStopsAtError(columns, b, k, |columns|);
  }

  /** Once the first k columns fail to decode, so do the first n >= k,
      with the same error. */
  lemma {:induction false} DecodeStopsAtError(columns: seq<Column>, b: BufferState, k: nat, n: nat)
    requires b.Valid() && k <= n <= |columns| && DecodeFields(columns, k, b).Err?
    ensures DecodeFields(columns, n, b) == Err(DecodeFields(columns, k, b).error)
    decreases n
  {
    if k < n {
      DecodeStopsAtError(columns, b, k, n - 1);
    }
  }
}
