/** A client connection.  The state shared by every phase (the channel, its
    selection key, the 4096-byte I/O buffer and the first error) is one
    object; the key's attachment is the handler that runs when the key is
    selected: the request reader, the error-reply writer, the text response
    writer, or the earlier binary-row writer.  The socket and the parser are
    parameters: a read delivers some bytes, the end of the stream or an
    IOException, a write accepts some prefix of what is pending or fails, and
    the parser turns a request line into a statement or an exception. */
module Connections {
  import opened Results
  import opened Bytes
  import opened Buffers
  import opened ByteBuffers
  import opened DataTypes
  import opened Tables
  import opened Rows
  import opened Expressions
  import opened FullScan
  import opened SortingCursors
  import opened Cursors
  import opened Formatting
  import Sorting

  /** ByteBuffer.allocate(4096). */
  const CAPACITY: nat := 4096
  /** SelectionKey.OP_READ and OP_WRITE. */
  const OP_READ: int := 1
  const OP_WRITE: int := 4

  /** What channel.read(buffer) does this time: bytes arrive (those that fit
      the free space are taken), the peer has closed the stream, or the read
      throws an IOException. */
  datatype ReadResult = Received(bytes: seq<byte>) | EndOfStream | ReadFailed

  /** What channel.write(buffer) does this time: it takes up to `count` of the
      pending bytes, or throws an IOException. */
  datatype WriteResult = Accepted(count: nat) | WriteFailed

  /** The bytes a write may take; a failing write takes none. */
  function Accepts(w: WriteResult): nat
  {
    if w.Accepted? then w.count else 0
  }

  /** A parsed statement: the table name and, when the statement has them,
      what the column-list, where and order-by visitors make of their parse
      trees against the named table. */
  datatype Statement = Statement(
    tableName: string,
    columnList: Option<Table -> Result<seq<Column>>>,
    whereFilter: Option<Table -> Result<Expression>>,
    orderList: Option<Table -> Result<seq<Expression>>>)

  /** What a resolved statement asks for: the table, the projected columns,
      the filter and the sort keys. */
  datatype Plan = Plan(table: Table, columns: seq<Column>, filter: Option<Expression>, order: Option<seq<Expression>>)

  /** The key's attachment. */
  datatype Handler =
    | Detached
    | Reading(reader: SocketConnectionReader)
    | ErrorWriting(errorWriter: SocketConnectionErrorWriter)
    | Responding(responseWriter: SocketConnectionResponseWriter)
    | Writing(writer: SocketConnectionWriter)

  /** The server's table registry: each table under its own name, as addTable
      stores it. */
  predicate Registry(tables: map<string, Table>)
  {
    forall name | name in tables :: tables[name].name == name && WellFormed(tables[name])
  }

  /** The error the state records when `e` is reported: the first one. */
  function FirstError(current: Option<Error>, e: Error): (r: Option<Error>)
    ensures r.Some? && (current.Some? ==> r == current) && (current.None? ==> r == Some(e))
  {
    if current.Some? then current else Some(e)
  }

  /** setFilter's verdict on a filter: what the cursor refuses it with, if
      anything. */
  function FilterCheck(f: Expression): (o: Outcome)
    ensures o.Pass? <==> Validate(f).Pass? && TypeOf(f) == BooleanKind
  {
    if Validate(f).Fail? then Validate(f)
    else if TypeOf(f) != BooleanKind then Fail(InvalidExpression("expected boolean expression"))
    else Pass
  }

  /** Resolving a statement against the registry, in the reader's order: the
      table, then the column list, then the where filter (which setFilter must
      accept), then the order list; the first failure is the answer. */
  function Resolve(tables: map<string, Table>, s: Statement): (p: Result<Plan>)
    ensures s.tableName !in tables ==> p == Err(ParseCancellation("no such table: " + s.tableName))
    ensures p.Ok? ==> s.tableName in tables && p.value.table == tables[s.tableName]
    ensures p.Ok? ==> (s.columnList.None? ==> p.value.columns == p.value.table.columns)
                      && (s.whereFilter.None? <==> p.value.filter.None?)
                      && (s.orderList.None? <==> p.value.order.None?)
                      && (p.value.filter.Some? ==> FilterCheck(p.value.filter.value).Pass?)
  {
    if s.tableName !in tables then Err(ParseCancellation("no such table: " + s.tableName))
    else ResolveIn(tables[s.tableName], s)
  }

  /** The rest of the statement against its table. */
  function ResolveIn(t: Table, s: Statement): (p: Result<Plan>)
    ensures p.Ok? ==> p.value.table == t
  {
    var columns :- if s.columnList.None? then Ok(t.columns) else s.columnList.value(t);
    var filter :- ResolveFilter(t, s.whereFilter);
    var order :- if s.orderList.None? then Ok(None) else (var o :- s.orderList.value(t); Ok(Some(o)));
    Ok(Plan(t, columns, filter, order))
  }

  function ResolveFilter(t: Table, whereFilter: Option<Table -> Result<Expression>>): (r: Result<Option<Expression>>)
    ensures r.Ok? ==> (whereFilter.None? <==> r.value.None?) && (r.value.Some? ==> FilterCheck(r.value.value).Pass?)
  {
    match whereFilter
    case None => Ok(None)
    case Some(visit) =>
      var f :- visit(t);
      var o := FilterCheck(f);
      if o.Fail? then Err(o.error) else Ok(Some(f))
  }

  /** A request line that ends: parse it, then resolve it. */
  function Interpret(tables: map<string, Table>, parse: string -> Result<Statement>, request: string): Result<Plan>
  {
    var s :- parse(request);
    Resolve(tables, s)
  }

  /** A cursor just built for a plan: a scan of the plan's table with the
      plan's filter installed before the first fetch, wrapped in a sorting
      cursor on the plan's keys when the plan orders its rows; nothing has
      been handed out. */
  ghost predicate Built(c: CursorRef, p: Plan)
    reads c.Footprint()
  {
    var s := if c.Scan? then c.scan else c.sorting.base;
    (p.order.None? <==> c.Scan?) && WellFormed(p.table)
    && s.table == p.table && s.fetch == TableFetch(p.table) && s.total == TotalCount(p.table)
    && s.since == 0 && s.earlier == [] && s.emitted == []
    && s.filter == (if p.filter.Some? then Some(JudgeOf(p.filter.value)) else None)
    && (c.Sorted? ==>
          c.sorting.fields == p.order.value && c.sorting.sorter == Sorting.SortWith(p.order.value)
          && c.sorting.sortedRows.None? && c.sorting.before == [])
  }

  /** compact(), a read of `bytes` (as many as fit the free space) and flip():
      the buffer the reader scans for a newline. */
  function AfterRead(b: BufferState, bytes: seq<byte>): (r: BufferState)
    requires b.Valid()
    ensures r.Valid() && |r.data| == |b.data|
  {
    var c := Compact(b);
    Flip(Put(c, bytes[..Taken(|bytes|, Remaining(c))]).value)
  }

  /** After a read, the bytes to scan are the unread ones, then those that
      arrived and fit: nothing unread is lost and the arrivals keep their
      order. */
  lemma AfterReadPending(b: BufferState, bytes: seq<byte>)
    requires b.Valid()
    ensures var k := Taken(|bytes|, |b.data| - Remaining(b));
            Pending(AfterRead(b, bytes)) == Pending(b) + bytes[..k]
  {
    var c := Compact(b);
    var k := Taken(|bytes|, Remaining(c));
    PutContents(c, bytes[..k]);
    var p := Put(c, bytes[..k]).value;
    assert p.data[..p.position] == p.data[..c.position] + p.data[c.position..c.position + k];
  }

  /** The binary writer's fill: each row's values serialized after the
      previous row's, stopping at the first failure. */
  function SerializeRows(rows: seq<Row>, b: BufferState): (e: Effect)
    requires b.Valid()
    ensures e.state.Valid() && |e.state.data| == |b.data| && e.state.limit == b.limit
    decreases |rows|
  {
    if rows == [] then Effect(b, Pass)
    else
      var e := SerializeRows(rows[..|rows| - 1], b);
      if e.outcome.Fail? then e
      else SerializeValues(rows[|rows| - 1].table.columns, rows[|rows| - 1].values, e.state)
  }

  /** The bytes a buffer in fill mode has been given and not yet sent. */
  function Unsent(b: BufferState): seq<byte>
    requires b.Valid()
  {
    b.data[..b.position]
  }

  lemma PutNothing(b: BufferState)
    requires b.Valid()
    ensures Put(b, []) == Ok(b)
  {
    assert b.(memory := Memory(b.data), position := b.position) == b;
  }

  /** One more line written after the lines written so far. */
  lemma FilledMore(b: BufferState, columns: seq<Column>, rows: seq<Row>, r: Row)
    requires b.Valid() && RowsText(columns, rows).Ok? && Put(b, RowsText(columns, rows).value).Ok?
    requires RowText(columns, r).Ok? && Put(Put(b, RowsText(columns, rows).value).value, RowText(columns, r).value).Ok?
    ensures RowsText(columns, rows + [r]) == Ok(RowsText(columns, rows).value + RowText(columns, r).value)
    ensures Put(b, RowsText(columns, rows + [r]).value) == Put(Put(b, RowsText(columns, rows).value).value, RowText(columns, r).value)
  {
    RowsTextSnoc(columns, rows, r);
    PutTwice(b, RowsText(columns, rows).value, RowText(columns, r).value);
  }

  /** One more row serialized after the rows serialized so far. */
  lemma SerializedMore(b: BufferState, rows: seq<Row>, r: Row)
    requires b.Valid()
    ensures SerializeRows(rows + [r], b) ==
              (var e := SerializeRows(rows, b);
               if e.outcome.Fail? then e else SerializeValues(r.table.columns, r.values, e.state))
  {
    assert (rows + [r])[..|rows|] == rows;
  }

  /** A write moves bytes from pending to sent: nothing is lost or repeated. */
  lemma WriteAccount(sent: seq<byte>, b: BufferState, accepted: nat)
    requires b.Valid()
    ensures var (out, after) := Write(b, accepted);
            sent + out + Pending(after) == sent + Pending(b)
  {
    var (out, after) := Write(b, accepted);
    assert sent + out + Pending(after) == sent + (out + Pending(after));
  }

  /** Bytes sent, then bytes still unsent, after one more send. */
  lemma SentAccount(sent: seq<byte>, out: seq<byte>, unsent: seq<byte>, before: seq<byte>, text: seq<byte>)
    requires out + unsent == before + text
    ensures sent + out + unsent == sent + before + text
  {
    assert sent + out + unsent == sent + (out + unsent);
  }

  /** Rows delivered before, then the rows fetched so far, then one more. */
  lemma DeliveredOneMore(before: seq<Row>, fetched: seq<Row>, row: Row)
    ensures before + fetched + [row] == before + (fetched + [row])
  {
  }

  /** The state every phase of a connection shares. */
  class SocketConnectionState {
    /** The I/O buffer. */
    const buffer: ByteBuffer
    /** The server's tables, by name. */
    const tables: map<string, Table>
    /** The first error reported, if any. */
    var error: Option<Error>
    /** The channel has not been closed. */
    var channelOpen: bool
    /** The selection key has been cancelled. */
    var keyCancelled: bool
    /** The key's interest set. */
    var interestOps: int
    /** The handler attached to the key. */
    var attachment: Handler
    /** Every byte the channel has accepted, in order. */
    var sent: seq<byte>

    /** The buffer is 4096 bytes, the registry is well formed, and once an
        error is recorded the channel is closed and the key cancelled. */
    ghost predicate Valid()
      reads this, buffer
    {
      buffer.Valid() && buffer.data.Length == CAPACITY && Registry(tables)
      && (error.Some? ==> !channelOpen && keyCancelled)
    }

    /** SelectionKey.isValid(): neither cancelled nor closed with its channel. */
    predicate KeyValid()
      reads this
    {
      channelOpen && !keyCancelled
    }

    /** A new connection: no error, registered for reading, and a fresh
        buffer. */
    constructor (tables: map<string, Table>)
      requires Registry(tables)
      ensures Valid() && KeyValid() && fresh(buffer) && fresh(buffer.data)
      ensures this.tables == tables && error.None? && interestOps == OP_READ && attachment == Detached && sent == []
      ensures buffer.State() == Buffers.Allocate(CAPACITY)
    {
      buffer := new ByteBuffer.Allocate(CAPACITY);
      this.tables := tables;
      error := None;
      channelOpen, keyCancelled := true, false;
      interestOps := OP_READ;
      attachment := Detached;
      sent := [];
    }

    /** enterErrorState(e): the first error is recorded and closes the
        channel and cancels the key; a later one changes nothing. */
    method EnterErrorState(e: Error)
      requires Valid()
      modifies this`error, this`channelOpen, this`keyCancelled
      ensures Valid() && !KeyValid() && error == FirstError(old(error), e)
      ensures old(error).Some? ==> unchanged(this)
    {
      if error.None? {
        error := Some(e);
        channelOpen := false;
        keyCancelled := true;
      }
    }

    /** hasError(). */
    function HasError(): (b: bool)
      reads this
      ensures b <==> error.Some?
    {
      error.Some?
    }

    /** channel.read(buffer): the bytes that fit the free space go in; the
        count, -1 at the end of the stream, or an IOException. */
    method ChannelRead(incoming: ReadResult) returns (n: Result<int>)
      requires Valid() && channelOpen
      modifies buffer, buffer.data
      ensures Valid()
      ensures incoming.Received? ==>
                var k := Taken(|incoming.bytes|, Remaining(old(buffer.State())));
                n == Ok(k) && buffer.State() == Put(old(buffer.State()), incoming.bytes[..k]).value
      ensures incoming.EndOfStream? ==> n == Ok(-1) && buffer.State() == old(buffer.State())
      ensures incoming.ReadFailed? ==> n == Err(InputOutput) && buffer.State() == old(buffer.State())
    {
      match incoming
      case Received(bytes) =>
        var k := Taken(|bytes|, buffer.Remaining());
        var o := buffer.Put(bytes[..k]);
        n := Ok(k);
      case EndOfStream =>
        n := Ok(-1);
      case ReadFailed =>
        n := Err(InputOutput);
    }

    /** channel.write(buffer): the accepted prefix of the pending bytes goes
        out and the position moves past it, or an IOException. */
    method ChannelWrite(w: WriteResult) returns (o: Outcome)
      requires Valid() && channelOpen
      modifies this`sent, buffer
      ensures Valid()
      ensures w.WriteFailed? ==> o == Fail(InputOutput) && sent == old(sent) && buffer.State() == old(buffer.State())
      ensures w.Accepted? ==>
                o == Pass && sent == old(sent) + Write(old(buffer.State()), w.count).0
                && buffer.State() == Write(old(buffer.State()), w.count).1
    {
      if w.WriteFailed? {
        return Fail(InputOutput);
      }
      var k := Taken(w.count, buffer.Remaining());
      sent := sent + buffer.data[buffer.position..buffer.position + k];
      buffer.position := buffer.position + k;
      o := Pass;
    }

    /** A write from a handler: what the channel accepts goes out; an
        IOException enters the error state. */
    method Send(w: WriteResult) returns (ok: bool)
      requires Valid() && KeyValid()
      modifies this`sent, this`error, this`channelOpen, this`keyCancelled, buffer
      ensures Valid()
      ensures ok <==> w.Accepted?
      ensures ok ==> error.None? && KeyValid()
                     && sent == old(sent) + Write(old(buffer.State()), w.count).0
                     && buffer.State() == Write(old(buffer.State()), w.count).1
      ensures !ok ==> error == Some(InputOutput) && sent == old(sent)
    {
      var o := ChannelWrite(w);
      if o.Fail? {
        EnterErrorState(o.error);
        return false;
      }
      return true;
    }

    /** key.attach(new SocketConnectionReader(state)::process). */
    method AttachReader()
      requires Valid() && KeyValid()
      modifies this`attachment, this`interestOps, buffer
      ensures Valid() && KeyValid() && ReadingAfresh(this) && fresh(attachment.reader)
      ensures buffer.State() == Flip(Clear(old(buffer.State())))
    {
      var reader := new SocketConnectionReader(this);
      attachment := Reading(reader);
    }
  }

  /** A fresh reader, just attached: read interest and nothing to read. */
  ghost predicate ReadingAfresh(s: SocketConnectionState)
    reads s, s.buffer
    reads if s.attachment.Reading? then {s.attachment.reader} else {}
  {
    s.attachment.Reading? && s.attachment.reader.state == s && s.attachment.reader.currentRequest == []
    && s.interestOps == OP_READ && s.buffer.position == 0 && s.buffer.limit == 0
  }

  /** Reads the request line by line and answers each one by attaching the
      writer that sends the reply. */
  class SocketConnectionReader {
    const state: SocketConnectionState
    /** The request read so far: every byte up to the newline, as a char. */
    var currentRequest: string

    /** Read interest, and the buffer emptied and flipped: nothing to read. */
    constructor (state: SocketConnectionState)
      requires state.Valid() && state.KeyValid()
      modifies state`interestOps, state.buffer
      ensures this.state == state && currentRequest == []
      ensures state.Valid() && state.interestOps == OP_READ
      ensures state.buffer.State() == Flip(Clear(old(state.buffer.State())))
    {
      this.state := state;
      currentRequest := [];
      new;
      state.interestOps := OP_READ;
      state.buffer.Clear();
      state.buffer.Flip();
    }

    /** process(): on a key that is no longer valid, the error state; on a
        readable key, compact, read and flip, then take bytes up to the first
        newline into the request.  A newline ends the request, which is
        answered; without one the request waits for more bytes.  An
        IOException or the end of the stream enters the error state.  Only an
        error reply too long for the buffer, and a StackOverflowError or
        OutOfMemoryError met while answering, escape. */
    method Process(readable: bool, incoming: ReadResult, parse: string -> Result<Statement>) returns (r: Result<bool>)
      requires state.Valid()
      modifies this`currentRequest, state, state.buffer, state.buffer.data
      ensures state.Valid() && (r.Ok? ==> r.value)
      ensures !old(state.KeyValid()) ==>
                r == Ok(true) && state.error == FirstError(old(state.error), ClosedChannel)
                && currentRequest == old(currentRequest) && state.attachment == old(state.attachment)
      ensures old(state.KeyValid()) && !readable ==>
                r == Ok(true) && unchanged(this, state) && state.buffer.State() == old(state.buffer.State())
      ensures old(state.KeyValid()) && readable && incoming.EndOfStream? ==>
                r == Ok(true) && state.error == Some(EndOfFile) && state.attachment == old(state.attachment)
      ensures old(state.KeyValid()) && readable && incoming.ReadFailed? ==>
                r == Ok(true) && state.error == Some(InputOutput) && state.attachment == old(state.attachment)
      ensures old(state.KeyValid()) && readable && incoming.Received? ==>
                var line := Pending(AfterRead(old(state.buffer.State()), incoming.bytes));
                var k := NewlineAt(line);
                state.error.None? && currentRequest == old(currentRequest) + Chars(line[..k])
                && (k == |line| ==>
                      r == Ok(true) && state.attachment == old(state.attachment) && state.interestOps == old(state.interestOps)
                      && state.buffer.State() == AfterRead(old(state.buffer.State()), incoming.bytes).(position := |line|))
                && (k < |line| ==> Answered(this, Interpret(state.tables, parse, currentRequest), r))
    {
      if !state.KeyValid() {
        state.EnterErrorState(ClosedChannel);
        r := Ok(true);
      } else if !readable {
        r := Ok(true);
      } else {
        r := Receive(incoming, parse);
      }
    }

    /** A readable key: read, then scan for the end of the request. */
    method Receive(incoming: ReadResult, parse: string -> Result<Statement>) returns (r: Result<bool>)
      requires state.Valid() && state.KeyValid()
      modifies this`currentRequest, state, state.buffer, state.buffer.data
      ensures state.Valid() && (r.Ok? ==> r.value)
      ensures incoming.EndOfStream? ==>
                r == Ok(true) && state.error == Some(EndOfFile) && state.attachment == old(state.attachment)
      ensures incoming.ReadFailed? ==>
                r == Ok(true) && state.error == Some(InputOutput) && state.attachment == old(state.attachment)
      ensures incoming.Received? ==>
                var line := Pending(AfterRead(old(state.buffer.State()), incoming.bytes));
                var k := NewlineAt(line);
                state.error.None? && currentRequest == old(currentRequest) + Chars(line[..k])
                && (k == |line| ==>
                      r == Ok(true) && state.attachment == old(state.attachment) && state.interestOps == old(state.interestOps)
                      && state.buffer.State() == AfterRead(old(state.buffer.State()), incoming.bytes).(position := |line|))
                && (k < |line| ==> Answered(this, Interpret(state.tables, parse, currentRequest), r))
    {
      var ok := ReadInto(incoming);
      if ok {
        r := Scan(parse);
      } else {
        r := Ok(true);
      }
    }

    /** compact(), read(), and flip() after a read that brought bytes; an
        IOException or the end of the stream enters the error state. */
    method ReadInto(incoming: ReadResult) returns (ok: bool)
      requires state.Valid() && state.KeyValid()
      modifies state`error, state`channelOpen, state`keyCancelled, state.buffer, state.buffer.data
      ensures state.Valid() && state.attachment == old(state.attachment) && state.interestOps == old(state.interestOps)
      ensures ok <==> incoming.Received?
      ensures incoming.EndOfStream? ==> state.error == Some(EndOfFile)
      ensures incoming.ReadFailed? ==> state.error == Some(InputOutput)
      ensures ok ==>
                state.error.None? && state.KeyValid() && state.buffer.State() == AfterRead(old(state.buffer.State()), incoming.bytes)
    {
      state.buffer.Compact();
      var n := state.ChannelRead(incoming);
      ok := false;
      if n.Err? {
        state.EnterErrorState(n.error);
      } else if n.value == -1 {
        state.EnterErrorState(EndOfFile);
      } else {
        state.buffer.Flip();
        ok := true;
      }
    }

    /** The bytes read so far, up to a newline, go into the request; a
        finished request is answered. */
    method Scan(parse: string -> Result<Statement>) returns (r: Result<bool>)
      requires state.Valid() && state.KeyValid()
      modifies this`currentRequest, state`attachment, state`interestOps, state.buffer, state.buffer.data
      ensures state.Valid() && (r.Ok? ==> r.value) && state.error == old(state.error)
      ensures var line := Pending(old(state.buffer.State()));
              var k := NewlineAt(line);
              currentRequest == old(currentRequest) + Chars(line[..k])
              && (k == |line| ==>
                    r == Ok(true) && state.attachment == old(state.attachment) && state.interestOps == old(state.interestOps)
                    && state.buffer.State() == old(state.buffer.State()).(position := old(state.buffer.position) + |line|))
              && (k < |line| ==> Answered(this, Interpret(state.tables, parse, currentRequest), r))
    {
      var found := ReadLine();
      if found {
        r := Answer(parse);
      } else {
        r := Ok(true);
      }
    }

    /** The line loop: bytes go into the request, as chars, until a newline,
        which is taken from the buffer but not added; later bytes stay in the
        buffer. */
    method ReadLine() returns (found: bool)
      requires state.Valid()
      modifies this`currentRequest, state.buffer
      ensures state.Valid()
      ensures var p := Pending(old(state.buffer.State()));
              var k := NewlineAt(p);
              found == (k < |p|) && currentRequest == old(currentRequest) + Chars(p[..k])
              && state.buffer.State() == old(state.buffer.State()).(position := old(state.buffer.position) + if found then k + 1 else k)
    {
      var request;
      found, request := ScanLine(state.buffer, currentRequest);
      currentRequest := request;
    }

    /** Resolving the finished request into the next handler: the response
        writer over a new cursor, or, when anything fails, the error writer
        with "ERROR: " and the exception's text. */
    method Answer(parse: string -> Result<Statement>) returns (r: Result<bool>)
      requires state.Valid() && state.KeyValid()
      modifies state`attachment, state`interestOps, state.buffer, state.buffer.data
      ensures state.Valid() && Answered(this, Interpret(state.tables, parse, currentRequest), r)
    {
      var s := parse(currentRequest);
      if s.Err? {
        r := Refuse(s.error);
      } else if s.value.tableName !in state.tables {
        r := Refuse(ParseCancellation("no such table: " + s.value.tableName));
      } else {
        r := Open(state.tables[s.value.tableName], s.value);
      }
    }

    /** The statement against its table: a response writer over the cursor
        built for it, or the error writer for the first failure. */
    method Open(table: Table, s: Statement) returns (r: Result<bool>)
      requires state.Valid() && state.KeyValid() && WellFormed(table)
      modifies state`attachment, state`interestOps, state.buffer, state.buffer.data
      ensures state.Valid() && Answered(this, ResolveIn(table, s), r)
    {
      var b := Build(table, s);
      if b.Err? {
        r := Refuse(b.error);
      } else {
        r := Respond(b.value.0, b.value.1, ResolveIn(table, s).value);
      }
    }

    /** The response writer takes over the connection. */
    method Respond(columns: seq<Column>, cursor: CursorRef, ghost p: Plan) returns (r: Result<bool>)
      requires state.Valid() && state.KeyValid() && cursor.Valid() && Built(cursor, p) && columns == p.columns
      requires {state, state.buffer, state.buffer.data} !! cursor.Footprint()
      modifies state`attachment, state`interestOps, state.buffer
      ensures state.Valid() && r == Ok(true) && state.error == old(state.error)
      ensures state.attachment.Responding? && state.interestOps == OP_WRITE
      ensures state.buffer.position == 0 && state.buffer.limit == CAPACITY
      ensures var w := state.attachment.responseWriter;
              fresh(w) && w.state == state && w.columns == columns && w.cursor == cursor && w.Ready() && Built(cursor, p)
    {
      var w := new SocketConnectionResponseWriter(state, cursor, columns);
      state.attachment := Responding(w);
      r := Ok(true);
    }

    /** The catch block: attach an error writer with the exception's text. */
    method Refuse(e: Error) returns (r: Result<bool>)
      requires state.Valid() && state.KeyValid()
      modifies state`attachment, state`interestOps, state.buffer, state.buffer.data
      ensures state.Valid() && Refused(this, e, r)
    {
      if Uncaught(e) {
        return Err(e);
      }
      var w := SocketConnectionErrorWriter.Create(state, ErrorMessage(e));
      if w.Err? {
        return Err(w.error);
      }
      state.attachment := ErrorWriting(w.value);
      return Ok(true);
    }
  }

  /** The cursor the reader builds for `s` over `table`, with the projected
      columns: a scan, its filter installed, wrapped in a sorting cursor when
      the statement orders its rows.  The first visitor or setFilter failure
      is the answer; the scan is allocated once the column list resolves,
      which nothing else observes. */
  method Build(table: Table, s: Statement) returns (b: Result<(seq<Column>, CursorRef)>)
    requires WellFormed(table)
    ensures b.Err? ==> ResolveIn(table, s) == Err(b.error)
    ensures b.Ok? ==>
              ResolveIn(table, s).Ok? && b.value.0 == ResolveIn(table, s).value.columns
              && fresh(b.value.1.Footprint()) && b.value.1.Valid() && Built(b.value.1, ResolveIn(table, s).value)
  {
    var columns := if s.columnList.None? then Ok(table.columns) else s.columnList.value(table);
    if columns.Err? {
      return Err(columns.error);
    }
    var scan := Filtered(table, s.whereFilter);
    if scan.Err? {
      return Err(scan.error);
    }
    var cursor := Scan(scan.value);
    if s.orderList.Some? {
      var keys := s.orderList.value(table);
      if keys.Err? {
        return Err(keys.error);
      }
      var sorting := new SortingCursor(scan.value, keys.value);
      cursor := Sorted(sorting);
    }
    return Ok((columns.value, cursor));
  }

  /** new FullScanCursor(table), then setFilter on the where clause's
      expression when there is one. */
  method Filtered(table: Table, whereFilter: Option<Table -> Result<Expression>>) returns (r: Result<FullScanCursor>)
    requires WellFormed(table)
    ensures r.Err? ==> ResolveFilter(table, whereFilter) == Err(r.error)
    ensures r.Ok? ==>
              var c := r.value;
              ResolveFilter(table, whereFilter).Ok? && fresh(c) && fresh(c.rows) && c.Valid() && c.Faithful()
              && c.table == table && c.fetch == TableFetch(table) && c.total == TotalCount(table)
              && c.since == 0 && c.earlier == [] && c.emitted == []
              && c.filter == (if whereFilter.Some? then Some(JudgeOf(ResolveFilter(table, whereFilter).value.value)) else None)
  {
    var scan := new FullScanCursor(table);
    if whereFilter.Some? {
      var f := whereFilter.value(table);
      if f.Err? {
        return Err(f.error);
      }
      var o := scan.SetFilter(f.value);
      if o.Fail? {
        return Err(o.error);
      }
    }
    return Ok(scan);
  }

  /** A java.lang.Error rather than an Exception: `catch(Exception e)` does
      not catch it, so it leaves process() and the selector loop. */
  predicate Uncaught(e: Error)
  {
    e.StackOverflow? || e.OutOfMemory?
  }

  /** The reader has answered a failed request with error writer for `e`: the
      reply line is pending, or, when it does not fit the buffer, the
      BufferOverflowException escapes with the reader still attached.  A
      java.lang.Error is not answered at all: it escapes as it is, and the
      reader stays attached with its interest unchanged. */
  twostate predicate Refused(reader: SocketConnectionReader, e: Error, new r: Result<bool>)
    reads reader.state, reader.state.buffer, reader.state.buffer.data
    reads if reader.state.attachment.ErrorWriting? then {reader.state.attachment.errorWriter} else {}
  {
    var s := reader.state;
    var m := Utf8(ErrorMessage(e));
    s.error == old(s.error) && s.buffer.Valid()
    && (Uncaught(e) ==>
          r == Err(e) && s.attachment == old(s.attachment) && s.interestOps == old(s.interestOps))
    && (!Uncaught(e) ==> s.interestOps == OP_WRITE)
    && (!Uncaught(e) && |m| < CAPACITY ==>
          r == Ok(true) && s.attachment.ErrorWriting? && fresh(s.attachment.errorWriter)
          && s.attachment.errorWriter.state == s
          && s.buffer.position == 0 && Pending(s.buffer.State()) == m + [NEWLINE])
    && (!Uncaught(e) && |m| >= CAPACITY ==> r == Err(BufferOverflow) && s.attachment == old(s.attachment))
  }

  /** The reader has answered a finished request whose resolution is `p`:
      with an error reply for a failure, and otherwise with a response writer
      over a new cursor built for the plan, the buffer cleared for filling. */
  twostate predicate Answered(reader: SocketConnectionReader, p: Result<Plan>, new r: Result<bool>)
    reads reader.state, reader.state.buffer, reader.state.buffer.data
    reads if reader.state.attachment.ErrorWriting? then {reader.state.attachment.errorWriter} else {}
    reads if reader.state.attachment.Responding? then {reader.state.attachment.responseWriter} else {}
    reads if reader.state.attachment.Responding? then reader.state.attachment.responseWriter.cursor.Footprint() else {}
  {
    var s := reader.state;
    (p.Err? ==> Refused(reader, p.error, r))
    && (p.Ok? ==>
          r == Ok(true) && s.attachment.Responding? && s.interestOps == OP_WRITE && s.error == old(s.error)
          && s.buffer.position == 0 && s.buffer.limit == CAPACITY
          && var w := s.attachment.responseWriter;
          fresh(w) && w.state == s && w.columns == p.value.columns
          && fresh(w.cursor.Footprint()) && w.Ready() && Built(w.cursor, p.value))
  }

  /** The line loop over the buffer: bytes go after `prefix`, as chars,
      until a newline, which is taken from the buffer but not added; later
      bytes stay in the buffer. */
  method ScanLine(buffer: ByteBuffer, prefix: string) returns (found: bool, request: string)
    requires buffer.Valid()
    modifies buffer
    ensures buffer.Valid()
    ensures var p := Pending(old(buffer.State()));
            var k := NewlineAt(p);
            found == (k < |p|) && request == prefix + Chars(p[..k])
            && buffer.State() == old(buffer.State()).(position := old(buffer.position) + if found then k + 1 else k)
  {
    ghost var b0 := buffer.State();
    ghost var p := Pending(b0);
    ghost var n := 0;
    request := prefix;
    found := false;
    while !found && buffer.Remaining() > 0
      invariant buffer.Valid() && b0.position <= buffer.position <= buffer.limit == b0.limit
      invariant buffer.data[..] == b0.data
      invariant !found ==> n == buffer.position - b0.position
      invariant found ==> n + 1 == buffer.position - b0.position && NewlineAt(p) == n
      invariant n <= |p| && (forall j | 0 <= j < n :: p[j] != NEWLINE)
      invariant request == prefix + Chars(p[..n])
      decreases buffer.limit - buffer.position, if found then 0 else 1
    {
      var b := buffer.GetByte();
      var ch := RequestChar(b.value);
      if ch != '\n' {
        MoreChars(p, n, b.value);
        request := request + [ch];
        n := n + 1;
      } else {
        NewlineFound(p, n);
        found := true;
      }
    }
    if !found {
      NewlineFound(p, n);
    }
  }

  /** One more char taken into the request. */
  lemma MoreChars(p: seq<byte>, i: nat, b: byte)
    requires i < |p| && p[i] == b && RequestChar(b) != '\n'
    ensures b != NEWLINE && Chars(p[..i + 1]) == Chars(p[..i]) + [RequestChar(b)]
  {
    assert p[..i + 1][..i] == p[..i];
  }

  /** Where the scan stopped is where the first newline is. */
  lemma NewlineFound(p: seq<byte>, i: nat)
    requires i <= |p| && (forall j | 0 <= j < i :: p[j] != NEWLINE) && (i < |p| ==> p[i] == NEWLINE)
    ensures NewlineAt(p) == i
  {
  }

  /** Sends the one-line error reply, then hands the connection back to a new
      reader. */
  class SocketConnectionErrorWriter {
    const state: SocketConnectionState

    constructor (state: SocketConnectionState)
      ensures this.state == state
    {
      this.state := state;
    }

    /** The constructor's work: write interest, the buffer cleared, the
        message's bytes and a newline put in and flipped for sending.  A
        message too long for the buffer throws BufferOverflowException. */
    static method Create(state: SocketConnectionState, message: string) returns (r: Result<SocketConnectionErrorWriter>)
      requires state.Valid()
      modifies state`interestOps, state.buffer, state.buffer.data
      ensures state.Valid() && state.interestOps == OP_WRITE
      ensures r.Ok? <==> |Utf8(message)| < CAPACITY
      ensures r.Err? ==> r.error == BufferOverflow
      ensures r.Ok? ==>
                fresh(r.value) && r.value.state == state
                && state.buffer.position == 0 && Pending(state.buffer.State()) == Utf8(message) + [NEWLINE]
    {
      state.interestOps := OP_WRITE;
      state.buffer.Clear();
      ghost var b0 := state.buffer.State();
      var bytes := Utf8(message);
      var o := state.buffer.Put(bytes);
      if o.Fail? {
        return Err(o.error);
      }
      o := state.buffer.Put([NEWLINE]);
      if o.Fail? {
        return Err(o.error);
      }
      PutTwice(b0, bytes, [NEWLINE]);
      PutContents(b0, bytes + [NEWLINE]);
      state.buffer.Flip();
      var w := new SocketConnectionErrorWriter(state);
      r := Ok(w);
    }

    /** process(): write while bytes are pending; once none are, attach a new
        reader.  A failed write enters the error state. */
    method Process(w: WriteResult) returns (removed: bool)
      requires state.Valid() && state.KeyValid()
      modifies state, state.buffer
      ensures removed && state.Valid()
      ensures var b := old(state.buffer.State());
              (Remaining(b) > 0 && w.WriteFailed? ==>
                 state.error == Some(InputOutput) && state.attachment == old(state.attachment))
              && (Remaining(b) > 0 && w.Accepted? ==>
                    state.error.None? && state.attachment == old(state.attachment)
                    && state.sent + Pending(state.buffer.State()) == old(state.sent) + Pending(b)
                    && state.sent == old(state.sent) + Write(b, w.count).0 && state.buffer.State() == Write(b, w.count).1)
              && (Remaining(b) == 0 ==>
                    state.error.None? && state.sent == old(state.sent)
                    && ReadingAfresh(state) && fresh(state.attachment.reader))
    {
      if state.buffer.Remaining() > 0 {
        ghost var b := state.buffer.State();
        var ok := state.Send(w);
        if !ok {
          return true;
        }
        WriteAccount(old(state.sent), b, w.count);
      } else {
        state.AttachReader();
      }
      return true;
    }
  }

  /** The selector runs a writer's handler on a valid key, over a usable
      cursor that shares no object with the connection's state. */
  ghost predicate Serving(state: SocketConnectionState, cursor: CursorRef)
    reads state, state.buffer, cursor.Footprint()
  {
    state.Valid() && state.KeyValid() && cursor.Valid()
    && {state, state.buffer, state.buffer.data} !! cursor.Footprint()
  }

  // ---------------------------------------------------------------------
  // the steps both writers take

  /** buffer.flip(), which leaves the cursor alone. */
  method Turn(state: SocketConnectionState, cursor: CursorRef)
    requires Serving(state, cursor)
    modifies state.buffer
    ensures Serving(state, cursor) && cursor.Delivered() == old(cursor.Delivered())
    ensures state.buffer.State() == Flip(old(state.buffer.State()))
  {
    state.buffer.Flip();
    CursorKept(cursor);
  }

  /** channel.write(buffer), which leaves the cursor alone. */
  method Transmit(state: SocketConnectionState, cursor: CursorRef, w: WriteResult) returns (o: Outcome)
    requires Serving(state, cursor)
    modifies state`sent, state.buffer
    ensures state.Valid()
    ensures o.Pass? ==>
              Serving(state, cursor) && cursor.Delivered() == old(cursor.Delivered())
              && state.sent == old(state.sent) + Write(old(state.buffer.State()), Accepts(w)).0
              && state.buffer.State() == Write(old(state.buffer.State()), Accepts(w)).1
  {
    o := state.ChannelWrite(w);
    CursorKept(cursor);
  }

  /** A cursor that ran out before its end: drop write interest and wait on
      await(). */
  method Park(state: SocketConnectionState, cursor: CursorRef) returns (o: Outcome)
    requires Serving(state, cursor)
    modifies state`interestOps, cursor.Footprint()
    ensures state.Valid() && state.buffer.State() == old(state.buffer.State())
    ensures o.Pass? ==> Serving(state, cursor) && cursor.Delivered() == old(cursor.Delivered()) && cursor.AtEnd()
  {
    var end := cursor.IsAtEnd();
    if end.Err? {
      return Fail(end.error);
    }
    if !end.value {
      state.interestOps := 0;
      var stage := cursor.Await();
      if stage.Err? {
        return Fail(stage.error);
      }
      // thenRun on a null stage
      assert stage.value.None?;
      return Fail(NullPointer);
    }
    return Pass;
  }

  /** Nothing is pending after the flip: park a cursor that ran out. */
  method Idle(state: SocketConnectionState, cursor: CursorRef, ranOut: bool) returns (o: Outcome)
    requires Serving(state, cursor)
    modifies state`interestOps, cursor.Footprint()
    ensures state.Valid() && unchanged(state`sent, state`error, state`attachment)
    ensures state.buffer.State() == old(state.buffer.State())
    ensures o.Pass? ==> Serving(state, cursor) && cursor.Delivered() == old(cursor.Delivered())
  {
    o := Pass;
    if ranOut {
      o := Park(state, cursor);
    }
  }

  /** isAtEnd(), which leaves the connection's state alone. */
  method Ends(state: SocketConnectionState, cursor: CursorRef) returns (r: Result<bool>)
    requires Serving(state, cursor)
    modifies cursor.Footprint()
    ensures state.Valid() && state.buffer.State() == old(state.buffer.State())
    ensures r.Ok? ==> Serving(state, cursor) && cursor.Delivered() == old(cursor.Delivered()) && r.value == cursor.AtEnd()
  {
    r := cursor.IsAtEnd();
  }

  /** The loop's condition: not at the end, and a binary row's size free. */
  method Room(state: SocketConnectionState, cursor: CursorRef) returns (o: Outcome, go: bool)
    requires Serving(state, cursor)
    modifies cursor.Footprint()
    ensures state.Valid() && state.buffer.State() == old(state.buffer.State())
    ensures o.Pass? ==>
              Serving(state, cursor) && cursor.Delivered() == old(cursor.Delivered())
              && (go <==> !cursor.AtEnd() && state.buffer.Remaining() >= RowSize(cursor.GetTable().columns))
              && cursor.Phase() <= old(cursor.Phase()) && (cursor.Phase() == old(cursor.Phase()) ==> cursor.Left() == old(cursor.Left()))
  {
    var end := cursor.IsAtEnd();
    if end.Err? {
      return Fail(end.error), false;
    }
    return Pass, !end.value && state.buffer.Remaining() >= RowSize(cursor.GetTable().columns);
  }

  /** getNext() on the cursor, which moves on past the row it hands out. */
  method Next(state: SocketConnectionState, cursor: CursorRef) returns (o: Outcome, row: Option<Row>)
    requires Serving(state, cursor)
    modifies cursor.Footprint()
    ensures state.Valid()
    ensures state.buffer.State() == old(state.buffer.State())
    ensures o.Pass? ==> Serving(state, cursor)
    ensures o.Pass? && row.None? ==> cursor.Delivered() == old(cursor.Delivered())
    ensures o.Pass? && row.Some? ==>
              cursor.Delivered() == old(cursor.Delivered()) + [row.value]
              && (cursor.Phase() < old(cursor.Phase()) || (cursor.Phase() == old(cursor.Phase()) && cursor.Left() < old(cursor.Left())))
  {
    var next := cursor.GetNext();
    if next.Err? {
      return Fail(next.error), None;
    }
    return Pass, next.value;
  }

  /** Sends the rows of a response as text lines, then hands the connection
      back to a new reader. */
  class SocketConnectionResponseWriter {
    const state: SocketConnectionState
    const cursor: CursorRef
    const columns: seq<Column>

    /** Write interest, and the buffer cleared for filling. */
    constructor (state: SocketConnectionState, cursor: CursorRef, columns: seq<Column>)
      requires state.Valid() && state.KeyValid()
      modifies state`interestOps, state.buffer
      ensures this.state == state && this.cursor == cursor && this.columns == columns
      ensures state.Valid() && state.interestOps == OP_WRITE
      ensures state.buffer.State() == Clear(old(state.buffer.State()))
    {
      this.state := state;
      this.cursor := cursor;
      this.columns := columns;
      new;
      state.interestOps := OP_WRITE;
      state.buffer.Clear();
    }

    /** The selector runs the handler of a valid key, over a usable cursor
        that shares no object with the connection's state. */
    ghost predicate Ready()
      reads this, state, state.buffer, cursor.Footprint()
    {
      Serving(state, cursor)
    }

    /** process() as written: fill, flip and write what is pending; with
        nothing pending, a cursor that ran out without being at its end is
        parked on await(); at the end a new reader is attached.  Any throwable
        enters the error state.  The buffer is never turned back for filling
        after a write: it stays as SendAsWritten leaves it. */
    method Process(w: WriteResult) returns (removed: bool, ghost fetched: seq<Row>)
      requires Ready()
      modifies state, state.buffer, state.buffer.data, cursor.Footprint()
      ensures removed && state.Valid()
      ensures state.error.Some? ==> state.attachment == old(state.attachment)
      ensures state.error.None? ==>
                cursor.Valid() && cursor.Delivered() == old(cursor.Delivered()) + fetched
                && RowsText(columns, fetched).Ok?
                && Put(old(state.buffer.State()), RowsText(columns, fetched).value).Ok?
      ensures state.error.None? ==>
                var (out, after) := SendAsWritten(Put(old(state.buffer.State()), RowsText(columns, fetched).value).value, Accepts(w));
                state.sent == old(state.sent) + out
                && (state.attachment == old(state.attachment) ==> state.buffer.State() == after && !cursor.AtEnd())
                && (state.attachment != old(state.attachment) ==>
                      cursor.AtEnd() && ReadingAfresh(state) && fresh(state.attachment.reader))
    {
      var o;
      o, fetched := Deliver(w);
      if o.Pass? {
        o := Finish();
      }
      if o.Fail? {
        state.EnterErrorState(o.error);
      }
      return true, fetched;
    }

    /** The fill loop, then the send step as written. */
    method Deliver(w: WriteResult) returns (o: Outcome, ghost fetched: seq<Row>)
      requires Ready()
      modifies state`sent, state`interestOps, state.buffer, state.buffer.data, cursor.Footprint()
      ensures state.Valid() && state.attachment == old(state.attachment) && state.error == old(state.error)
      ensures o.Pass? ==>
                Ready() && cursor.Delivered() == old(cursor.Delivered()) + fetched
                && RowsText(columns, fetched).Ok?
                && Put(old(state.buffer.State()), RowsText(columns, fetched).value).Ok?
                && var (out, after) := SendAsWritten(Put(old(state.buffer.State()), RowsText(columns, fetched).value).value, Accepts(w));
                   state.sent == old(state.sent) + out && state.buffer.State() == after
    {
      var ranOut;
      o, ranOut, fetched := Fill();
      if o.Pass? {
        o := Flush(w, ranOut);
      }
    }

    /** The send step as written: flip, then write what is pending; with
        nothing pending, a cursor that ran out before its end is parked on
        await(), which fails for both cursors (the scan refuses, the sorting
        cursor's null stage makes thenRun throw).  Nothing turns the buffer
        back for filling. */
    method Flush(w: WriteResult, ranOut: bool) returns (o: Outcome)
      requires Ready()
      modifies state`sent, state`interestOps, state.buffer, cursor.Footprint()
      ensures state.Valid() && state.attachment == old(state.attachment) && state.error == old(state.error)
      ensures o.Pass? ==>
                Ready() && cursor.Delivered() == old(cursor.Delivered())
                && state.sent == old(state.sent) + SendAsWritten(old(state.buffer.State()), Accepts(w)).0
                && state.buffer.State() == SendAsWritten(old(state.buffer.State()), Accepts(w)).1
    {
      ghost var filled := state.buffer.State();
      Turn(state, cursor);
      if state.buffer.Remaining() > 0 {
        o := Transmit(state, cursor, w);
      } else {
        assert Write(Flip(filled), Accepts(w)) == ([], Flip(filled));
        o := Idle(state, cursor, ranOut);
      }
    }

    /** At the end of the cursor a new reader is attached. */
    method Finish() returns (o: Outcome)
      requires Ready()
      modifies state`attachment, state`interestOps, state.buffer, cursor.Footprint()
      ensures state.Valid() && state.sent == old(state.sent) && state.error == old(state.error)
      ensures o.Fail? ==> state.attachment == old(state.attachment)
      ensures o.Pass? ==> cursor.Valid() && cursor.Delivered() == old(cursor.Delivered())
      ensures o.Pass? && state.attachment == old(state.attachment) ==>
                state.buffer.State() == old(state.buffer.State()) && !cursor.AtEnd()
      ensures o.Pass? && state.attachment != old(state.attachment) ==>
                cursor.AtEnd() && ReadingAfresh(state) && fresh(state.attachment.reader)
    {
      var end := cursor.IsAtEnd();
      if end.Err? {
        return Fail(end.error);
      }
      if end.value {
        state.AttachReader();
      }
      return Pass;
    }

    /** process() with the write step corrected: after the write (or when
        nothing was pending) the buffer is compacted, so the unsent bytes move
        to the front and filling resumes after them, and a new reader is
        attached only at the end and once nothing is left unsent.  Every call
        keeps the account: what was sent, then what is unsent, is what was
        unsent before followed by the lines of the rows fetched. */
    method ProcessCorrected(w: WriteResult) returns (removed: bool, ghost fetched: seq<Row>)
      requires Ready() && state.buffer.limit == CAPACITY
      modifies state, state.buffer, state.buffer.data, cursor.Footprint()
      ensures removed && state.Valid()
      ensures state.error.Some? ==> state.attachment == old(state.attachment)
      ensures state.error.None? ==>
                cursor.Valid() && cursor.Delivered() == old(cursor.Delivered()) + fetched
                && RowsText(columns, fetched).Ok?
      ensures state.error.None? && state.attachment == old(state.attachment) ==>
                state.buffer.limit == CAPACITY
                && state.sent + Unsent(state.buffer.State())
                     == old(state.sent) + Unsent(old(state.buffer.State())) + RowsText(columns, fetched).value
      ensures state.error.None? && state.attachment != old(state.attachment) ==>
                cursor.AtEnd()
                && state.sent == old(state.sent) + Unsent(old(state.buffer.State())) + RowsText(columns, fetched).value
                && ReadingAfresh(state) && fresh(state.attachment.reader)
    {
      ghost var b0, s0 := state.buffer.State(), state.sent;
      var o;
      o, fetched := Deliver(w);
      if o.Pass? {
        o := Settle(b0, s0, RowsText(columns, fetched).value, w);
      }
      if o.Fail? {
        state.EnterErrorState(o.error);
      }
      return true, fetched;
    }

    /** After the send step of a fill that put `text` after the bytes of
        `b0`: compact, then attach a new reader once the cursor is at its
        end and nothing is left unsent.  Sent and unsent bytes together are
        what was pending, then `text`. */
    method Settle(ghost b0: BufferState, ghost s0: seq<byte>, ghost text: seq<byte>, w: WriteResult) returns (o: Outcome)
      requires Ready() && b0.Valid() && b0.limit == |b0.data| && |text| <= Remaining(b0)
      requires var (out, after) := SendAsWritten(Put(b0, text).value, Accepts(w));
               state.sent == s0 + out && state.buffer.State() == after
      modifies state`attachment, state`interestOps, state.buffer, state.buffer.data, cursor.Footprint()
      ensures state.Valid() && state.error == old(state.error) && state.sent == old(state.sent)
      ensures o.Fail? ==> state.attachment == old(state.attachment)
      ensures o.Pass? ==> cursor.Valid() && cursor.Delivered() == old(cursor.Delivered())
      ensures o.Pass? && state.attachment == old(state.attachment) ==>
                state.buffer.limit == CAPACITY && state.sent + Unsent(state.buffer.State()) == s0 + Unsent(b0) + text
      ensures o.Pass? && state.attachment != old(state.attachment) ==>
                cursor.AtEnd() && state.sent == s0 + Unsent(b0) + text
                && ReadingAfresh(state) && fresh(state.attachment.reader)
    {
      Reclaim();
      CorrectedKeepsOrder(b0, text, Accepts(w));
      SentAccount(s0, SendCorrected(Put(b0, text).value, Accepts(w)).0, Unsent(state.buffer.State()), Unsent(b0), text);
      o := FinishCorrected();
    }

    /** buffer.compact(), which leaves the cursor alone. */
    method Reclaim()
      requires Ready()
      modifies state.buffer, state.buffer.data
      ensures Ready() && cursor.Delivered() == old(cursor.Delivered()) && unchanged(state)
      ensures state.buffer.State() == Compact(old(state.buffer.State()))
    {
      state.buffer.Compact();
      CursorKept(cursor);
    }

    /** At the end of the cursor, and once nothing is left unsent, a new
        reader is attached. */
    method FinishCorrected() returns (o: Outcome)
      requires Ready()
      modifies state`attachment, state`interestOps, state.buffer, cursor.Footprint()
      ensures state.Valid() && state.sent == old(state.sent) && state.error == old(state.error)
      ensures o.Fail? ==> state.attachment == old(state.attachment)
      ensures o.Pass? ==> cursor.Valid() && cursor.Delivered() == old(cursor.Delivered())
      ensures o.Pass? && state.attachment == old(state.attachment) ==>
                state.buffer.State() == old(state.buffer.State())
      ensures o.Pass? && state.attachment != old(state.attachment) ==>
                cursor.AtEnd() && old(state.buffer.position) == 0 && ReadingAfresh(state) && fresh(state.attachment.reader)
    {
      var end := cursor.IsAtEnd();
      if end.Err? {
        return Fail(end.error);
      }
      if end.value && state.buffer.position == 0 {
        state.AttachReader();
      }
      return Pass;
    }

    /** The fill loop: while the cursor is not at its end and at least a
        binary row's size is free, take the next row and put its line; a null
        row means the cursor ran out for now. */
    method Fill() returns (o: Outcome, ranOut: bool, ghost fetched: seq<Row>)
      requires Ready()
      modifies state.buffer, state.buffer.data, cursor.Footprint()
      ensures state.Valid() && unchanged(state)
      ensures o.Pass? ==>
                Ready() && cursor.Delivered() == old(cursor.Delivered()) + fetched
                && RowsText(columns, fetched).Ok?
                && Put(old(state.buffer.State()), RowsText(columns, fetched).value).Ok?
                && state.buffer.State() == Put(old(state.buffer.State()), RowsText(columns, fetched).value).value
      ensures o.Pass? && !ranOut ==>
                !cursor.AtEnd() ==> state.buffer.Remaining() < RowSize(cursor.GetTable().columns)
    {
      ghost var b0 := state.buffer.State();
      fetched, ranOut := [], false;
      PutNothing(b0);
      o := Pass;
      var more := true;
      while more
        invariant state.Valid()
        invariant o.Pass? ==>
                    Ready() && cursor.Delivered() == old(cursor.Delivered()) + fetched
                    && RowsText(columns, fetched).Ok? && Put(b0, RowsText(columns, fetched).value).Ok?
                    && state.buffer.State() == Put(b0, RowsText(columns, fetched).value).value
        invariant o.Pass? && !more && !ranOut ==>
                    !cursor.AtEnd() ==> state.buffer.Remaining() < RowSize(cursor.GetTable().columns)
        invariant more ==> o.Pass? && !ranOut
        decreases more, if o.Pass? then cursor.Phase() else 0, if o.Pass? then cursor.Left() else 0
      {
        ghost var row, text;
        o, more, ranOut, row, text := FillStep();
        if more {
          FilledMore(b0, columns, fetched, row.value);
          DeliveredOneMore(old(cursor.Delivered()), fetched, row.value);
          fetched := fetched + [row.value];
        }
      }
    }

    /** One round of the fill loop: stop at the end of the cursor or when less
        than a binary row's size is free; otherwise take the next row, and put
        its line unless it is null. */
    method FillStep() returns (o: Outcome, more: bool, ranOut: bool, ghost row: Option<Row>, ghost text: seq<byte>)
      requires Ready()
      modifies state.buffer, state.buffer.data, cursor.Footprint()
      ensures state.Valid() && (more ==> o.Pass? && !ranOut)
      ensures o.Pass? && !more ==>
                Ready() && cursor.Delivered() == old(cursor.Delivered()) && state.buffer.State() == old(state.buffer.State())
                && (!ranOut ==> !cursor.AtEnd() ==> state.buffer.Remaining() < RowSize(cursor.GetTable().columns))
      ensures more ==>
                Ready() && row.Some? && cursor.Delivered() == old(cursor.Delivered()) + [row.value]
                && (cursor.Phase() < old(cursor.Phase()) || (cursor.Phase() == old(cursor.Phase()) && cursor.Left() < old(cursor.Left())))
                && RowText(columns, row.value) == Ok(text) && Put(old(state.buffer.State()), text).Ok?
                && state.buffer.State() == Put(old(state.buffer.State()), text).value
    {
      var go;
      o, go := Room(state, cursor);
      if o.Fail? || !go {
        return o, false, false, None, [];
      }
      o, ranOut, row, text := Take();
      more := o.Pass? && !ranOut;
    }

    /** The loop's body: the next row, and its line unless it is null. */
    method Take() returns (o: Outcome, ranOut: bool, row: Option<Row>, ghost text: seq<byte>)
      requires Ready()
      modifies state.buffer, state.buffer.data, cursor.Footprint()
      ensures state.Valid()
      ensures o.Pass? && ranOut ==>
                Ready() && cursor.Delivered() == old(cursor.Delivered()) && state.buffer.State() == old(state.buffer.State())
      ensures o.Pass? && !ranOut ==>
                Ready() && row.Some? && cursor.Delivered() == old(cursor.Delivered()) + [row.value]
                && (cursor.Phase() < old(cursor.Phase()) || (cursor.Phase() == old(cursor.Phase()) && cursor.Left() < old(cursor.Left())))
                && RowText(columns, row.value) == Ok(text) && Put(old(state.buffer.State()), text).Ok?
                && state.buffer.State() == Put(old(state.buffer.State()), text).value
    {
      o, row := Next(state, cursor);
      text := [];
      if o.Fail? || row.None? {
        return o, o.Pass?, row, text;
      }
      o := PutLine(row.value);
      if o.Pass? {
        text := RowText(columns, row.value).value;
      }
      return o, false, row, text;
    }

    /** PutRow, which leaves the cursor alone. */
    method PutLine(row: Row) returns (o: Outcome)
      requires Ready()
      modifies state.buffer, state.buffer.data
      ensures state.Valid()
      ensures Ready() && cursor.Delivered() == old(cursor.Delivered())
      ensures cursor.Phase() == old(cursor.Phase()) && cursor.Left() == old(cursor.Left())
      ensures o.Pass? <==> RowText(columns, row).Ok? && Put(old(state.buffer.State()), RowText(columns, row).value).Ok?
      ensures o.Pass? ==> state.buffer.State() == Put(old(state.buffer.State()), RowText(columns, row).value).value
    {
      o := PutRow(row);
      CursorKept(cursor);
    }

    /** One row's line: each projected value's text and a comma, then a
        newline.  It goes in whole exactly when it can be formed and fits;
        otherwise the first failing put or lookup stops it. */
    method PutRow(row: Row) returns (o: Outcome)
      requires state.Valid()
      modifies state.buffer, state.buffer.data
      ensures state.Valid()
      ensures o.Pass? <==> RowText(columns, row).Ok? && Put(old(state.buffer.State()), RowText(columns, row).value).Ok?
      ensures o.Pass? ==> state.buffer.State() == Put(old(state.buffer.State()), RowText(columns, row).value).value
      ensures o.Fail? ==> o.error == BufferOverflow || o.error == IndexOutOfBounds
    {
      ghost var b0 := state.buffer.State();
      o := PutFields(state.buffer, columns, row);
      if o.Pass? {
        ghost var fields := FieldsText(columns, |columns|, row).value;
        o := state.buffer.Put([NEWLINE]);
        if o.Pass? {
          PutTwice(b0, fields, [NEWLINE]);
        }
      }
    }

  }

  /** The fields of the line, each followed by a comma. */
  method PutFields(buffer: ByteBuffer, columns: seq<Column>, row: Row) returns (o: Outcome)
    requires buffer.Valid()
    modifies buffer, buffer.data
    ensures buffer.Valid()
    ensures var fields := FieldsText(columns, |columns|, row);
            (o.Pass? <==> fields.Ok? && Put(old(buffer.State()), fields.value).Ok?)
            && (o.Pass? ==> buffer.State() == Put(old(buffer.State()), fields.value).value)
    ensures o.Fail? ==> o.error == BufferOverflow || o.error == IndexOutOfBounds
  {
    ghost var b0 := buffer.State();
    PutNothing(b0);
    o := Pass;
    var i := 0;
    while i < |columns| && o.Pass?
      invariant 0 <= i <= |columns| && buffer.Valid()
      invariant o.Pass? ==>
                  FieldsText(columns, i, row).Ok? && Put(b0, FieldsText(columns, i, row).value).Ok?
                  && buffer.State() == Put(b0, FieldsText(columns, i, row).value).value
      invariant o.Fail? ==>
                  (FieldsText(columns, |columns|, row).Err? || Put(b0, FieldsText(columns, |columns|, row).value).Err?)
                  && (o.error == BufferOverflow || o.error == IndexOutOfBounds)
      decreases |columns| - i, if o.Pass? then 1 else 0
    {
      ghost var before := FieldsText(columns, i, row).value;
      o := PutField(buffer, row, columns[i]);
      if o.Fail? {
        if GetValueForColumn(row, columns[i]).Err? {
          LineFails(columns, i, row);
        } else {
          LineTooLong(b0, columns, i, row);
        }
      } else {
        ghost var field := ValueText(GetValueForColumn(row, columns[i]).value) + [COMMA];
        FieldsMore(columns, i, row);
        PutTwice(b0, before, field);
        i := i + 1;
      }
    }
  }

  /** One field: the column's value as text, then a comma. */
  method PutField(buffer: ByteBuffer, row: Row, column: Column) returns (o: Outcome)
    requires buffer.Valid()
    modifies buffer, buffer.data
    ensures buffer.Valid()
    ensures GetValueForColumn(row, column).Err? ==> o == Fail(GetValueForColumn(row, column).error)
    ensures GetValueForColumn(row, column).Ok? ==>
              var t := ValueText(GetValueForColumn(row, column).value) + [COMMA];
              (o.Pass? <==> Put(old(buffer.State()), t).Ok?)
              && (o.Pass? ==> buffer.State() == Put(old(buffer.State()), t).value)
              && (o.Fail? ==> o.error == BufferOverflow)
  {
    var v := GetValueForColumn(row, column);
    if v.Err? {
      return Fail(v.error);
    }
    ghost var b := buffer.State();
    var text := ValueText(v.value);
    o := buffer.Put(text);
    if o.Pass? {
      o := buffer.Put([COMMA]);
      if o.Pass? {
        PutTwice(b, text, [COMMA]);
      }
    }
  }

  /** A cursor whose objects a step leaves alone keeps its state. */
  twostate lemma CursorKept(c: CursorRef)
    requires old(c.Valid()) && unchanged(c.Footprint())
    ensures c.Valid() && c.Delivered() == old(c.Delivered()) && c.AtEnd() == old(c.AtEnd())
    ensures c.Phase() == old(c.Phase()) && c.Left() == old(c.Left())
  {
  }

  /** A missing column makes the whole line fail. */
  lemma LineFails(columns: seq<Column>, i: nat, row: Row)
    requires i < |columns| && GetValueForColumn(row, columns[i]).Err?
    ensures FieldsText(columns, |columns|, row).Err?
  {
    if FieldsText(columns, |columns|, row).Ok? {
      FieldsTextPrefix(columns, i + 1, |columns|, row);
    }
  }

  /** One more field after the fields before it. */
  lemma FieldsMore(columns: seq<Column>, i: nat, row: Row)
    requires i < |columns| && FieldsText(columns, i, row).Ok? && GetValueForColumn(row, columns[i]).Ok?
    ensures FieldsText(columns, i + 1, row)
            == Ok(FieldsText(columns, i, row).value + (ValueText(GetValueForColumn(row, columns[i]).value) + [COMMA]))
  {
    var before, text := FieldsText(columns, i, row).value, ValueText(GetValueForColumn(row, columns[i]).value);
    assert before + text + [COMMA] == before + (text + [COMMA]);
  }

  /** A field that does not fit means the line does not fit either. */
  lemma LineTooLong(b: BufferState, columns: seq<Column>, i: nat, row: Row)
    requires b.Valid() && i < |columns| && FieldsText(columns, i + 1, row).Ok?
    requires |FieldsText(columns, i + 1, row).value| > Remaining(b)
    ensures FieldsText(columns, |columns|, row).Err? || Put(b, FieldsText(columns, |columns|, row).value).Err?
  {
    if FieldsText(columns, |columns|, row).Ok? {
      FieldsTextPrefix(columns, i + 1, |columns|, row);
    }
  }

  /** The earlier writer: sends the rows in their binary form, and closes the
      connection once the cursor is at its end. */
  class SocketConnectionWriter {
    const state: SocketConnectionState
    const cursor: CursorRef
    const columns: seq<Column>

    /** Write interest, and the buffer cleared for filling. */
    constructor (state: SocketConnectionState, cursor: CursorRef, columns: seq<Column>)
      requires state.Valid() && state.KeyValid()
      modifies state`interestOps, state.buffer
      ensures this.state == state && this.cursor == cursor && this.columns == columns
      ensures state.Valid() && state.interestOps == OP_WRITE
      ensures state.buffer.State() == Clear(old(state.buffer.State()))
    {
      this.state := state;
      this.cursor := cursor;
      this.columns := columns;
      new;
      state.interestOps := OP_WRITE;
      state.buffer.Clear();
    }

    ghost predicate Ready()
      reads this, state, state.buffer, cursor.Footprint()
    {
      Serving(state, cursor)
    }

    /** process(): fill with serialized rows, flip and write what is pending,
        park a cursor that ran out on await(), and at the end close the
        channel and cancel the key.  A failing fetch, serialization or write
        enters the error state; what isAtEnd() and await() throw lies outside
        every try block and escapes. */
    method Process(w: WriteResult) returns (r: Result<bool>, ghost fetched: seq<Row>)
      requires Ready()
      modifies state, state.buffer, state.buffer.data, cursor.Footprint()
      ensures state.Valid() && state.attachment == old(state.attachment) && (r.Ok? ==> r.value)
      ensures r.Ok? && state.error.None? ==>
                cursor.Valid() && cursor.Delivered() == old(cursor.Delivered()) + fetched
                && SerializeRows(fetched, old(state.buffer.State())).outcome.Pass?
                && var (out, after) := SendAsWritten(SerializeRows(fetched, old(state.buffer.State())).state, Accepts(w));
                   state.sent == old(state.sent) + out && state.buffer.State() == after
                   && (cursor.AtEnd() <==> !state.channelOpen) && (cursor.AtEnd() <==> state.keyCancelled)
    {
      var escaped, ranOut;
      escaped, ranOut, fetched := Fill();
      if escaped.Some? {
        return Err(escaped.value), fetched;
      }
      if state.HasError() {
        return Ok(true), fetched;
      }
      escaped := Flush(w, ranOut);
      if escaped.Some? {
        return Err(escaped.value), fetched;
      }
      if state.HasError() {
        return Ok(true), fetched;
      }
      escaped := Close();
      if escaped.Some? {
        return Err(escaped.value), fetched;
      }
      return Ok(true), fetched;
    }

    /** Flip, then write what is pending, where an IOException enters the
        error state; with nothing pending, park a cursor that ran out before
        its end, which escapes for both cursors. */
    method Flush(w: WriteResult, ranOut: bool) returns (escaped: Option<Error>)
      requires Ready()
      modifies state`sent, state`interestOps, state`error, state`channelOpen, state`keyCancelled, state.buffer, cursor.Footprint()
      ensures state.Valid() && state.attachment == old(state.attachment)
      ensures escaped.None? && state.error.None? ==>
                Ready() && cursor.Delivered() == old(cursor.Delivered())
                && state.sent == old(state.sent) + SendAsWritten(old(state.buffer.State()), Accepts(w)).0
                && state.buffer.State() == SendAsWritten(old(state.buffer.State()), Accepts(w)).1
    {
      ghost var filled := state.buffer.State();
      Turn(state, cursor);
      escaped := None;
      if state.buffer.Remaining() > 0 {
        Send(w);
      } else {
        assert Write(Flip(filled), Accepts(w)) == ([], Flip(filled));
        var o := Idle(state, cursor, ranOut);
        if o.Fail? {
          escaped := Some(o.error);
        }
      }
    }

    /** channel.write(buffer), where an IOException enters the error state. */
    method Send(w: WriteResult)
      requires Ready()
      modifies state`sent, state`error, state`channelOpen, state`keyCancelled, state.buffer
      ensures state.Valid() && state.attachment == old(state.attachment) && state.interestOps == old(state.interestOps)
      ensures state.error.None? ==>
                Ready() && cursor.Delivered() == old(cursor.Delivered())
                && state.sent == old(state.sent) + Write(old(state.buffer.State()), Accepts(w)).0
                && state.buffer.State() == Write(old(state.buffer.State()), Accepts(w)).1
    {
      var o := Transmit(state, cursor, w);
      if o.Fail? {
        state.EnterErrorState(o.error);
      }
    }

    /** At the end of the cursor: close the channel and cancel the key. */
    method Close() returns (escaped: Option<Error>)
      requires Ready()
      modifies state`channelOpen, state`keyCancelled, cursor.Footprint()
      ensures state.Valid() && state.error == old(state.error) && state.sent == old(state.sent)
      ensures state.buffer.State() == old(state.buffer.State())
      ensures escaped.None? ==>
                cursor.Valid() && cursor.Delivered() == old(cursor.Delivered())
                && (cursor.AtEnd() <==> !state.channelOpen) && (cursor.AtEnd() <==> state.keyCancelled)
    {
      escaped := None;
      var end := Ends(state, cursor);
      if end.Err? {
        escaped := Some(end.error);
      } else if end.value {
        state.channelOpen := false;
        state.keyCancelled := true;
      }
    }

    /** The fill loop: while the cursor is not at its end and at least a row's
        size is free, serialize the next row.  What the loop condition's
        isAtEnd() throws escapes (`escaped`); what the body throws, the
        loop's try block turns into the error state. */
    method Fill() returns (escaped: Option<Error>, ranOut: bool, ghost fetched: seq<Row>)
      requires Ready()
      modifies state`error, state`channelOpen, state`keyCancelled, state.buffer, state.buffer.data, cursor.Footprint()
      ensures state.Valid() && state.sent == old(state.sent) && state.interestOps == old(state.interestOps)
      ensures state.attachment == old(state.attachment)
      ensures escaped.Some? ==> state.error == old(state.error)
      ensures escaped.None? && state.error.None? ==>
                Ready() && cursor.Delivered() == old(cursor.Delivered()) + fetched
                && SerializeRows(fetched, old(state.buffer.State())).outcome.Pass?
                && state.buffer.State() == SerializeRows(fetched, old(state.buffer.State())).state
      ensures escaped.None? && state.error.None? && !ranOut ==>
                !cursor.AtEnd() ==> state.buffer.Remaining() < RowSize(cursor.GetTable().columns)
    {
      ghost var b0 := state.buffer.State();
      fetched, ranOut, escaped := [], false, None;
      var more := true;
      while more
        invariant state.Valid() && state.sent == old(state.sent) && state.interestOps == old(state.interestOps)
        invariant state.attachment == old(state.attachment)
        invariant escaped.Some? ==> state.error == old(state.error)
        invariant escaped.None? && state.error.None? ==>
                    Ready() && cursor.Delivered() == old(cursor.Delivered()) + fetched
                    && SerializeRows(fetched, b0).outcome.Pass? && state.buffer.State() == SerializeRows(fetched, b0).state
        invariant escaped.None? && state.error.None? && !more && !ranOut ==>
                    !cursor.AtEnd() ==> state.buffer.Remaining() < RowSize(cursor.GetTable().columns)
        invariant more ==> escaped.None? && state.error.None? && !ranOut
        decreases more, if more then cursor.Phase() else 0, if more then cursor.Left() else 0
      {
        var row;
        escaped, more, ranOut, row := FillStep();
        if more {
          SerializedMore(b0, fetched, row.value);
          DeliveredOneMore(old(cursor.Delivered()), fetched, row.value);
          fetched := fetched + [row.value];
        }
      }
    }

    /** One round of the fill loop. */
    method FillStep() returns (escaped: Option<Error>, more: bool, ranOut: bool, row: Option<Row>)
      requires Ready()
      modifies state`error, state`channelOpen, state`keyCancelled, state.buffer, state.buffer.data, cursor.Footprint()
      ensures state.Valid() && state.sent == old(state.sent) && state.interestOps == old(state.interestOps)
      ensures state.attachment == old(state.attachment)
      ensures escaped.Some? ==> state.error == old(state.error)
      ensures more ==> escaped.None? && state.error.None? && !ranOut
      ensures escaped.None? && state.error.None? && !more ==>
                Ready() && cursor.Delivered() == old(cursor.Delivered()) && state.buffer.State() == old(state.buffer.State())
                && (!ranOut ==> !cursor.AtEnd() ==> state.buffer.Remaining() < RowSize(cursor.GetTable().columns))
      ensures more ==>
                Ready() && row.Some? && cursor.Delivered() == old(cursor.Delivered()) + [row.value]
                && (cursor.Phase() < old(cursor.Phase()) || (cursor.Phase() == old(cursor.Phase()) && cursor.Left() < old(cursor.Left())))
                && SerializeValues(row.value.table.columns, row.value.values, old(state.buffer.State())).outcome.Pass?
                && state.buffer.State() == SerializeValues(row.value.table.columns, row.value.values, old(state.buffer.State())).state
    {
      var o, go := Room(state, cursor);
      if o.Fail? {
        return Some(o.error), false, false, None;
      }
      if !go {
        return None, false, false, None;
      }
      o, ranOut, row := Take();
      if o.Fail? {
        state.EnterErrorState(o.error);
        return None, false, false, row;
      }
      return None, !ranOut, ranOut, row;
    }

    /** The loop's body: the next row, serialized unless it is null. */
    method Take() returns (o: Outcome, ranOut: bool, row: Option<Row>)
      requires Ready()
      modifies state.buffer, state.buffer.data, cursor.Footprint()
      ensures state.Valid() && unchanged(state)
      ensures o.Pass? && ranOut ==>
                Ready() && cursor.Delivered() == old(cursor.Delivered()) && state.buffer.State() == old(state.buffer.State())
      ensures o.Pass? && !ranOut ==>
                Ready() && row.Some? && cursor.Delivered() == old(cursor.Delivered()) + [row.value]
                && (cursor.Phase() < old(cursor.Phase()) || (cursor.Phase() == old(cursor.Phase()) && cursor.Left() < old(cursor.Left())))
                && SerializeValues(row.value.table.columns, row.value.values, old(state.buffer.State())).outcome.Pass?
                && state.buffer.State() == SerializeValues(row.value.table.columns, row.value.values, old(state.buffer.State())).state
    {
      o, row := Next(state, cursor);
      if o.Fail? || row.None? {
        return o, o.Pass?, row;
      }
      o := PutRecord(row.value);
      return o, false, row;
    }

    /** r.serialize(buffer), which leaves the cursor alone. */
    method PutRecord(row: Row) returns (o: Outcome)
      requires Ready()
      modifies state.buffer, state.buffer.data
      ensures Ready() && cursor.Delivered() == old(cursor.Delivered())
      ensures cursor.Phase() == old(cursor.Phase()) && cursor.Left() == old(cursor.Left())
      ensures o == SerializeValues(row.table.columns, row.values, old(state.buffer.State())).outcome
      ensures state.buffer.State() == SerializeValues(row.table.columns, row.values, old(state.buffer.State())).state
    {
      o := SerializeRow(row, state.buffer);
      CursorKept(cursor);
    }
  }
}
