/** A row: the table it belongs to, its slot id and one value per column.
    All three are fixed when the row is built. */
module Rows {
  import opened Results
  import opened Bytes
  import opened Buffers
  import opened ByteBuffers
  import opened DataTypes
  import opened FieldIO
  import opened Tables

  datatype Row = Row(table: Table, id: Int32, values: seq<Value>)

  /** getValueForColumn(c): the value at the column's position in the row. */
  function GetValueForColumn(r: Row, c: Column): (v: Result<Value>)
  {
    if c.position < |r.values| then Ok(r.values[c.position]) else Err(IndexOutOfBounds)
  }

  /** For a row fetched from its table, every column of that table finds its
      value, of the column's type, read from that column's field of the slot. */
  lemma FetchedRowValues(t: Table, id: Int32, i: nat)
    requires WellFormed(t) && Fetch(t, id).Ok? && i < |t.columns|
    ensures var r := Row(t, id, Fetch(t, id).value);
            var v := GetValueForColumn(r, t.columns[i]);
            v.Ok? && v.value == Fetch(t, id).value[i] && Fits(t.columns[i].columnType, v.value)
  {
    FetchDecodes(t, id);
    var size := RowSize(t.columns);
    DecodedValuesFit(t.columns, |t.columns|, BufferState(Memory(t.file.bytes[id * size..id * size + size]), 0, size));
  }

  /** serialize(buffer) as a value, over the first n columns: each column's
      type writes the value at the same index, in column order, stopping at
      the first failure. */
  function SerializeFields(columns: seq<Column>, n: nat, values: seq<Value>, b: BufferState): (e: Effect)
    requires b.Valid() && n <= |columns|
    ensures e.state.Valid() && |e.state.data| == |b.data| && e.state.limit == b.limit
    ensures b.position <= e.state.position
    ensures e.outcome.Pass? ==> e.state.position == b.position + FieldOffset(columns, n)
    decreases n
  {
    if n == 0 then Effect(b, Pass)
    else
      var e := SerializeFields(columns, n - 1, values, b);
      if e.outcome.Fail? then e
      else if n - 1 >= |values| then Effect(e.state, Fail(IndexOutOfBounds))
      else Serialize(columns[n - 1].columnType, values[n - 1], e.state)
  }

  /** The whole row written. */
  function SerializeValues(columns: seq<Column>, values: seq<Value>, b: BufferState): (e: Effect)
    requires b.Valid()
  {
    SerializeFields(columns, |columns|, values, b)
  }

  /** Each of the first n values exists and fits its column. */
  predicate FirstFit(columns: seq<Column>, n: nat, values: seq<Value>)
    requires n <= |columns|
  {
    n <= |values| && forall i | 0 <= i < n :: Fits(columns[i].columnType, values[i])
  }

  /** Writing the first n fields succeeds exactly when each of their values
      fits its column and the buffer has room for them; it then writes
      exactly their width. */
  lemma {:induction false} SerializeSucceedsIffFit(columns: seq<Column>, n: nat, values: seq<Value>, b: BufferState)
    requires b.Valid() && n <= |columns|
    ensures SerializeFields(columns, n, values, b).outcome.Pass?
            <==> FirstFit(columns, n, values) && FieldOffset(columns, n) <= Remaining(b)
    decreases n
  {
    if n > 0 {
      SerializeSucceedsIffFit(columns, n - 1, values, b);
      FirstFitNext(columns, n, values);
      var e := SerializeFields(columns, n - 1, values, b);
      if e.outcome.Pass? && n - 1 < |values| {
        SerializeSucceedsIff(columns[n - 1].columnType, values[n - 1], e.state);
      }
    }
  }

  lemma FirstFitNext(columns: seq<Column>, n: nat, values: seq<Value>)
    requires 0 < n <= |columns|
    ensures FirstFit(columns, n, values)
            <==> FirstFit(columns, n - 1, values) && n - 1 < |values| && Fits(columns[n - 1].columnType, values[n - 1])
  {
  }

  /** The first n fields written from some position read back, column by
      column, from that position: the values (one per column) and the end
      position. */
  lemma RowRoundTrip(columns: seq<Column>, n: nat, values: seq<Value>, b: BufferState)
    requires b.Valid() && n <= |columns| && SerializeFields(columns, n, values, b).outcome.Pass?
    ensures var f := SerializeFields(columns, n, values, b).state;
            n <= |values| && DecodeFields(columns, n, f.(position := b.position)) == Ok((values[..n], f))
  {
    FieldsReadBack(columns, n, values, b);
    DecodeWritten(columns, n, values, SerializeFields(columns, n, values, b).state, b.position);
  }

  /** Every field of a written row reads back from the final buffer. */
  lemma FieldsReadBack(columns: seq<Column>, n: nat, values: seq<Value>, b: BufferState)
    requires b.Valid() && n <= |columns| && SerializeFields(columns, n, values, b).outcome.Pass?
    ensures var f := SerializeFields(columns, n, values, b).state;
            f.position == b.position + FieldOffset(columns, n)
            && forall i | 0 <= i < n :: ReadsField(columns, i, values, f.(position := b.position))
  {
    var f := SerializeFields(columns, n, values, b).state;
    forall i | 0 <= i < n
      ensures ReadsField(columns, i, values, f.(position := b.position))
    {
      FieldReadBack(columns, i, n, values, b);
    }
  }

  /** A buffer whose fields each read back decodes, from the row's start, to
      the values and ends where the row ends. */
  lemma DecodeWritten(columns: seq<Column>, n: nat, values: seq<Value>, f: BufferState, p: nat)
    requires f.Valid() && n <= |columns| && p <= f.limit && f.position == p + FieldOffset(columns, n)
    requires forall i | 0 <= i < n :: ReadsField(columns, i, values, f.(position := p))
    ensures n <= |values| && DecodeFields(columns, n, f.(position := p)) == Ok((values[..n], f))
  {
    DecodeAll(columns, n, values, f.(position := p));
    EndsAt(DecodeFields(columns, n, f.(position := p)), values[..n], f, p, p + FieldOffset(columns, n));
  }

  /** A decoding that ends at f's own position ends at f. */
  lemma EndsAt(r: Result<(seq<Value>, BufferState)>, vs: seq<Value>, f: BufferState, p: nat, q: nat)
    requires f.position == q && r == Ok((vs, f.(position := p).(position := q)))
    ensures r == Ok((vs, f))
  {
    assert f.(position := p).(position := q) == f;
  }

  /** A later write keeps what the earlier fields wrote: after writing the
      first n fields, the bytes up to the end of field k are those the write
      of the first k fields left. */
  lemma {:induction false} SerializeKeepsEarlier(columns: seq<Column>, k: nat, n: nat, values: seq<Value>, b: BufferState)
    requires b.Valid() && k <= n <= |columns| && SerializeFields(columns, n, values, b).outcome.Pass?
    ensures var ek := SerializeFields(columns, k, values, b);
            var en := SerializeFields(columns, n, values, b).state;
            ek.outcome.Pass? && ek.state.position <= en.position
            && en.data[..ek.state.position] == ek.state.data[..ek.state.position]
    decreases n
  {
    if k < n {
      var e := SerializeFields(columns, n - 1, values, b);
      SerializeKeepsEarlier(columns, k, n - 1, values, b);
      SerializeKeepsPrefix(columns[n - 1].columnType, values[n - 1], e.state);
      var pk := SerializeFields(columns, k, values, b).state.position;
      var en := SerializeFields(columns, n, values, b).state;
      assert en.data[..pk] == en.data[..e.state.position][..pk];
      assert e.state.data[..pk] == e.state.data[..e.state.position][..pk];
    }
  }

  /** Field i of a written row reads back, from where its write started in
      the final buffer, as the value written, ending where the next field
      starts. */
  lemma FieldReadBack(columns: seq<Column>, i: nat, n: nat, values: seq<Value>, b: BufferState)
    requires b.Valid() && i < n <= |columns| && SerializeFields(columns, n, values, b).outcome.Pass?
    ensures ReadsField(columns, i, values, SerializeFields(columns, n, values, b).state.(position := b.position))
  {
    SerializeKeepsEarlier(columns, i + 1, n, values, b);
    FieldStep(columns, i, values, b);
    ReadsFieldAt(columns, i, values, SerializeFields(columns, n, values, b).state, b.position,
                 SerializeFields(columns, i, values, b).state);
  }

  /** Writing field i after the first i: when the first i + 1 fields are
      written, the first i were, and field i's write came after them. */
  lemma FieldStep(columns: seq<Column>, i: nat, values: seq<Value>, b: BufferState)
    requires b.Valid() && i < |columns| && SerializeFields(columns, i + 1, values, b).outcome.Pass?
    ensures i < |values| && SerializeFields(columns, i, values, b).outcome.Pass?
    ensures SerializeFields(columns, i + 1, values, b)
            == Serialize(columns[i].columnType, values[i], SerializeFields(columns, i, values, b).state)
  {
  }

  /** A field written at p + (offset of column i) and still held by g reads
      back from g. */
  lemma ReadsFieldAt(columns: seq<Column>, i: nat, values: seq<Value>, g: BufferState, p: nat, ei: BufferState)
    requires g.Valid() && ei.Valid() && i < |columns| && i < |values| && p <= g.limit
    requires ei.position == p + FieldOffset(columns, i)
    requires var e := Serialize(columns[i].columnType, values[i], ei);
             e.outcome.Pass? && e.state.position == p + FieldOffset(columns, i + 1)
             && |g.data| == |ei.data| && g.limit == ei.limit
             && g.data[..e.state.position] == e.state.data[..e.state.position]
    ensures ReadsField(columns, i, values, g.(position := p))
  {
    ReadBackAfter(columns[i].columnType, values[i], ei, g);
    ReadsFieldFrom(columns, i, values, g, p, ei.position, p + FieldOffset(columns, i + 1));
  }

  /** Field i read from g at its offset from p, as ReadsField states it. */
  lemma ReadsFieldFrom(columns: seq<Column>, i: nat, values: seq<Value>, g: BufferState, p: nat, q: nat, q': nat)
    requires g.Valid() && i < |columns| && i < |values| && p <= g.limit && q <= g.limit
    requires q == p + FieldOffset(columns, i) && q' == p + FieldOffset(columns, i + 1)
    requires Deserialize(columns[i].columnType, g.(position := q)) == Ok((values[i], g.(position := q')))
    ensures ReadsField(columns, i, values, g.(position := p))
  {
    var c := g.(position := p);
    assert c.(position := q) == g.(position := q);
    assert c.(position := q') == g.(position := q');
  }

  /** No rollback: when writing the first n fields fails at some column k,
      the fields before k stay written exactly as a successful write of them
      leaves them. */
  lemma {:induction false} FailureKeepsPrefix(columns: seq<Column>, n: nat, values: seq<Value>, b: BufferState)
    returns (k: nat)
    requires b.Valid() && n <= |columns| && SerializeFields(columns, n, values, b).outcome.Fail?
    ensures k < n
    ensures SerializeFields(columns, k, values, b).outcome.Pass?
    ensures SerializeFields(columns, k + 1, values, b).outcome == SerializeFields(columns, n, values, b).outcome
    ensures var done := SerializeFields(columns, k, values, b).state;
            SerializeFields(columns, n, values, b).state.data[..done.position] == done.data[..done.position]
    decreases n
  {
    var e := SerializeFields(columns, n - 1, values, b);
    if e.outcome.Fail? {
      k := FailureKeepsPrefix(columns, n - 1, values, b);
    } else {
      k := n - 1;
      if n - 1 < |values| {
        SerializeKeepsPrefix(columns[n - 1].columnType, values[n - 1], e.state);
      }
    }
  }

  /** Row.serialize(buffer): the column loop over a live buffer.  The buffer
      ends up as `SerializeValues` says, failure included. */
  method SerializeRow(r: Row, buffer: ByteBuffer) returns (o: Outcome)
    requires buffer.Valid()
    modifies buffer, buffer.data
    ensures buffer.Valid()
    ensures buffer.State() == SerializeValues(r.table.columns, r.values, old(buffer.State())).state
    ensures o == SerializeValues(r.table.columns, r.values, old(buffer.State())).outcome
  {
    var columns := r.table.columns;
    ghost var start := buffer.State();
    var i := 0;
    while i < |columns|
      invariant 0 <= i <= |columns| && buffer.Valid() && start.Valid()
      invariant SerializeFields(columns, i, r.values, start) == Effect(buffer.State(), Pass)
    {
      SerializeNext(columns, i, r.values, start);
      if i >= |r.values| {
        StopsWith(columns, r.values, start, i + 1, buffer.State(), Fail(IndexOutOfBounds));
        return Fail(IndexOutOfBounds);
      }
      o := WriteField(columns[i].columnType, r.values[i], buffer);
      if o.Fail? {
        StopsWith(columns, r.values, start, i + 1, buffer.State(), o);
        return;
      }
      i := i + 1;
    }
    return Pass;
  }

  /** A write of the first k fields that fails is the write of the whole row. */
  lemma StopsWith(columns: seq<Column>, values: seq<Value>, b: BufferState, k: nat, f: BufferState, o: Outcome)
    requires b.Valid() && k <= |columns| && o.Fail?
    requires SerializeFields(columns, k, values, b) == Effect(f, o)
    ensures SerializeValues(columns, values, b) == Effect(f, o)
  {
    SerializeStopsAtFailure(columns, values, b, k, |columns|);
  }

  /** Writing one more field after the first i that were written. */
  lemma SerializeNext(columns: seq<Column>, i: nat, values: seq<Value>, b: BufferState)
    requires b.Valid() && i < |columns| && SerializeFields(columns, i, values, b).outcome.Pass?
    ensures var e := SerializeFields(columns, i, values, b).state;
            SerializeFields(columns, i + 1, values, b)
            == if i < |values| then Serialize(columns[i].columnType, values[i], e) else Effect(e, Fail(IndexOutOfBounds))
  {
  }

  /** Once writing the first k fields fails, writing the first n >= k ends
      in the same state with the same failure. */
  lemma {:induction false} SerializeStopsAtFailure(columns: seq<Column>, values: seq<Value>, b: BufferState, k: nat, n: nat)
    requires b.Valid() && k <= n <= |columns| && SerializeFields(columns, k, values, b).outcome.Fail?
    ensures SerializeFields(columns, n, values, b) == SerializeFields(columns, k, values, b)
    decreases n
  {
    if k < n {
      SerializeStopsAtFailure(columns, values, b, k, n - 1);
    }
  }
}
