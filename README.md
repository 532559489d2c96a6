# A model of the collinmay/db storage and connection core

This project models the core of a small Java database server. The server stores
fixed-width rows in one file per table. It answers single-line MiniQL `select`
statements over a TCP socket. The model covers these parts:

- **Column types** (`DataTypes`, over `types/`). The integer, boolean and string
  codecs turn one value into one fixed-width field and back. The older `DataType.java`
  codec is modelled on its own as `LegacyDataType`.
- **Rows and tables** (`Rows`, `Tables`). A row is written column by column. A
  table maps a slot id to the bytes of that slot. `fetch` decodes the fields of a
  slot, and `getTotalCount` counts the whole slots.
- **The B-tree index** (`BTreeNodes`, `BTreeIndex`). `BTreeNodes` is the node
  record codec (`load` and `store`) over the index file's bytes. `BTreeIndex` is
  the header, `search`, `iterate` and the stack-based iterator over a map from
  location to node.
- **Expressions** (`Expressions`). These are column references, literals and
  comparisons, with `getOperator`, `evaluate`, `evaluateAsInteger`,
  `evaluateAsBoolean` and `validate`.
- **Cursors** (`FullScan`, `Sorting`, `SortingCursors`, `Cursors`).
  - The full-table scan refills a 16-row buffer and skips rows the filter rejects.
  - The sorting cursor drains its base cursor and sorts by the `order by` columns.
  - `Cursors.CursorRef` dispatches the `Cursor` interface to one of the two.
- **The connection state machine** (`Connections`, `Formatting`).
  - The reader accumulates a request line and resolves the statement.
  - The error writer sends `ERROR: ...`.
  - The text writer (`SocketConnectionResponseWriter`) and the binary writer
    (`SocketConnectionWriter`) drain a cursor into the connection buffer.
- **Supporting modules.** `Bytes` holds the big-endian encodings and Java's integer
  wrap-around. `Buffers` is `java.nio.ByteBuffer` as a value. `ByteBuffers.ByteBuffer`
  is the same buffer as an object over an array. `FieldIO` runs the column
  codecs on that object. `Results` holds the error and result types.

Objects whose fields the Java code updates in place are Dafny classes with
`modifies` clauses. Each method's `ensures` ties its new state to the pure
functions above. Those classes are the full-scan cursor, the sorting cursor, the
B-tree iterator, the connection state, the four handlers and the byte buffer.

Where the code and its description disagree, the model follows the code:

- **`Column.java` has no position.** `Column.java:8` declares the older
  `DataType`, and `Column` has no `getPosition`, although `Row.getValueForColumn`
  calls it. The model gives columns the `types/` interface and adds a position
  field.
- **`Table.fetch` is synchronous here.** It returns a `CompletionStage` at
  `Table.java:50`, but `FullScanCursor.java:42` uses what it returns as a `Row`.
  The model makes the fetch synchronous and builds the row from the fetched values.
- **Expression types are kinds.** `IntegerDataType.DEFAULT`, `StringDataType.DEFAULT`
  and the `isComparable` and `getName` declarations of those two classes are
  missing. Expression types are therefore kinds (integer, string, boolean). Two
  types are comparable exactly when they are of the same kind. That is what
  `BooleanDataType` does, and it is an assumption for the other two.
- **`SocketConnectionWriter` lets cursor errors escape.** An exception from
  `isAtEnd` (lines 27, 51 and 61) leaves `process` uncaught. `Writer.Process` returns
  it as an `Err`.
- **Parking a cursor always fails.** When a writer runs out of rows before the
  cursor ends, it parks on `cursor.await().thenRun(...)`. On a full scan,
  `await` throws `IllegalStateException`. On a sorting cursor, `await` returns
  null, so `thenRun` throws `NullPointerException`. `Connections.Park` gives
  exactly those two results.

## Model

| member | source | states |
|---|---|---|
| Bytes.Wrap32 | src/com/collinswebsite/db/Table.java:78 | Java's `(int)` cast: identity inside the int range, minus 2^32 just above it |
| Bytes.Wrap64 | src/com/collinswebsite/db/SortingCursor.java:64 | 64-bit wrap-around of a `long` result: identity inside the long range |
| Bytes.DecodeEncodeUnsigned | src/com/collinswebsite/db/types/IntegerDataType.java:12-14 | an unsigned number below 256^n, encoded big-endian in n bytes, decodes back to itself |
| Bytes.EncodeDecodeUnsigned | src/com/collinswebsite/db/types/IntegerDataType.java:7-9 | every byte sequence is the n-byte encoding of the number it decodes to |
| Bytes.Int32RoundTrip | src/com/collinswebsite/db/types/StringDataType.java:37 | the 4-byte big-endian encoding of an int decodes back to it |
| Bytes.Int32Injective | src/com/collinswebsite/db/types/StringDataType.java:37 | every 4-byte pattern is the encoding of the int it decodes to, so the encoding is a bijection |
| Bytes.Int64RoundTrip | src/com/collinswebsite/db/types/IntegerDataType.java:12-14 | the 8-byte big-endian encoding of a long decodes back to it |
| Bytes.Int64Injective | src/com/collinswebsite/db/types/IntegerDataType.java:12-14 | every 8-byte pattern is the encoding of the long it decodes to |
| Bytes.HighHalfOfSmallLong | src/com/collinswebsite/db/DataType.java:60 | for 0 <= n < 2^32 the first four bytes of `putLong(n)` are zero and the last four are `putInt((int) n)` |
| Bytes.CompareZeroIffEqual | src/com/collinswebsite/db/BTreeIndex.java:25-35 | the unsigned lexicographic key comparison is 0 exactly for equal keys |
| Bytes.CompareAntisymmetric | src/com/collinswebsite/db/BTreeIndex.java:25-35 | swapping the keys flips the sign of the comparison |
| Bytes.CompareTransitive | src/com/collinswebsite/db/BTreeIndex.java:25-35 | the "below" relation of the comparison is transitive |
| Bytes.CompareFirstDifference | src/com/collinswebsite/db/BTreeIndex.java:26-31 | with equal prefixes up to k: at a difference at k the result is the unsigned byte difference; when one key ends at k it is the length difference |
| Bytes.Compare | src/com/collinswebsite/db/BTreeIndex.java:25-35 | `BTreeIndex.compare`; CompareZeroIffEqual, CompareAntisymmetric, CompareTransitive and CompareFirstDifference give its properties |
| Buffers.Allocate | src/com/collinswebsite/db/SocketConnectionState.java:18 | a buffer of the capacity with all of it remaining |
| Buffers.Clear | src/com/collinswebsite/db/SocketConnectionResponseWriter.java:22 | position 0 and limit = capacity; contents untouched |
| Buffers.Flip | src/com/collinswebsite/db/SocketConnectionResponseWriter.java:42 | limit := position, position := 0; contents untouched |
| Buffers.Compact | src/com/collinswebsite/db/SocketConnectionReader.java:47 | the unread bytes move to the front; position = their count; limit = capacity; later bytes untouched |
| Buffers.Put | src/com/collinswebsite/db/types/StringDataType.java:38 | succeeds iff the bytes fit the remaining space and then writes them at the position; otherwise BufferOverflow with the buffer untouched |
| Buffers.PutContents | src/com/collinswebsite/db/types/StringDataType.java:38 | after a put the bytes at the old position are the bytes put and nothing else changed |
| Buffers.PutTwice | src/com/collinswebsite/db/Row.java:20-22 | two puts in a row equal one put of both byte runs |
| Buffers.Get | src/com/collinswebsite/db/types/StringDataType.java:24 | succeeds iff n bytes remain; returns them and advances; otherwise BufferUnderflow |
| Buffers.SetPosition | src/com/collinswebsite/db/types/StringDataType.java:25 | `position(p)` succeeds iff 0 <= p <= limit; otherwise IllegalArgument |
| Buffers.PutThenGet | src/com/collinswebsite/db/types/StringDataType.java:38 | reading back from where a put started returns the bytes put |
| Buffers.PutIntThenGetInt | src/com/collinswebsite/db/types/StringDataType.java:37 | `getInt` after `putInt` at the same position returns the int |
| Buffers.PutLongThenGetLong | src/com/collinswebsite/db/types/IntegerDataType.java:12-14 | `getLong` after `putLong` at the same position returns the long |
| Buffers.OverwriteIsSplice | src/com/collinswebsite/db/types/StringDataType.java:38 | writing at an offset replaces exactly that range of the data |
| Buffers.OverwriteTwice | src/com/collinswebsite/db/Row.java:20-22 | two adjacent writes equal one write of the concatenation |
| ByteBuffers.ByteBuffer.Allocate | src/com/collinswebsite/db/SocketConnectionState.java:18 | the array-backed buffer starts in state Allocate(capacity) |
| ByteBuffers.ByteBuffer.Clear | src/com/collinswebsite/db/SocketConnectionResponseWriter.java:22 | the object's new state is Clear of the old one |
| ByteBuffers.ByteBuffer.Flip | src/com/collinswebsite/db/SocketConnectionResponseWriter.java:42 | the object's new state is Flip of the old one |
| ByteBuffers.ByteBuffer.Compact | src/com/collinswebsite/db/SocketConnectionReader.java:47 | the object's new state is Compact of the old one |
| ByteBuffers.ByteBuffer.Remaining | src/com/collinswebsite/db/SocketConnectionResponseWriter.java:58 | limit minus position |
| ByteBuffers.ByteBuffer.Put | src/com/collinswebsite/db/types/StringDataType.java:38 | outcome and new state are those of the value-level Put |
| ByteBuffers.ByteBuffer.Get | src/com/collinswebsite/db/types/StringDataType.java:24 | result and new state are those of the value-level Get |
| ByteBuffers.ByteBuffer.GetInt | src/com/collinswebsite/db/types/StringDataType.java:18 | result and new state are those of the value-level GetInt |
| ByteBuffers.ByteBuffer.GetLong | src/com/collinswebsite/db/types/IntegerDataType.java:7-9 | result and new state are those of the value-level GetLong |
| ByteBuffers.ByteBuffer.GetByte | src/com/collinswebsite/db/types/BooleanDataType.java:12-14 | result and new state are those of the value-level GetByte |
| ByteBuffers.ByteBuffer.SetPosition | src/com/collinswebsite/db/types/StringDataType.java:25 | the value-level SetPosition on the object |
| DataTypes.GetSize | src/com/collinswebsite/db/types/StringDataType.java:43-45 | every declarable type has a field of at least one byte |
| DataTypes.GetName | src/com/collinswebsite/db/types/BooleanDataType.java:32-34 | a name exists exactly for the boolean type, and it is "boolean" |
| DataTypes.Serialize | src/com/collinswebsite/db/types/StringDataType.java:31-40 | a write keeps capacity and limit, never moves backwards, and on success advances by exactly getSize |
| DataTypes.Deserialize | src/com/collinswebsite/db/types/StringDataType.java:17-28 | a successful read advances by exactly getSize and changes nothing else |
| DataTypes.SerializeSucceedsIff | src/com/collinswebsite/db/types/StringDataType.java:31-40 | a write succeeds iff the value fits the type and the field fits the remaining space; a value of the wrong class fails with ClassCast and a string that is too long with Serialization, both with the buffer untouched |
| DataTypes.SerializeLayout | src/com/collinswebsite/db/types/StringDataType.java:31-40 | a successful write puts the value's pattern at the position, changes no other byte, and ends one field further on |
| DataTypes.FixedLayout | src/com/collinswebsite/db/types/IntegerDataType.java:12-14 | integer and boolean writes are a single put of the value's bytes |
| DataTypes.StringLayout | src/com/collinswebsite/db/types/StringDataType.java:37-38 | a string write is the 4-byte length followed by the bytes; the rest of the field keeps its bytes |
| DataTypes.SerializeKeepsPrefix | src/com/collinswebsite/db/types/StringDataType.java:31-40 | no write, failing or not, touches bytes before its start |
| DataTypes.RoundTrip | src/com/collinswebsite/db/types/DataType.java:12-13 | reading at the start of a successful write yields the value and ends where the write ended |
| DataTypes.StringRoundTrip | src/com/collinswebsite/db/types/StringDataType.java:17-40 | the same round trip for string fields |
| DataTypes.StringWritten | src/com/collinswebsite/db/types/StringDataType.java:31-40 | after a string write the field holds the length word and the bytes and spans 4 + maximumLength |
| DataTypes.DeserializeFits | src/com/collinswebsite/db/types/StringDataType.java:17-28 | a successful read yields a value of the type within its maximum length, from a whole field |
| DataTypes.DeserializeRejectsLength | src/com/collinswebsite/db/types/StringDataType.java:19-21 | a stored length above the maximum fails with Deserialization; a negative one fails with NegativeArraySize |
| DataTypes.DeserializeLocal | src/com/collinswebsite/db/types/StringDataType.java:17-28 | a read depends only on the bytes of its own field |
| DataTypes.ReadBackAfter | src/com/collinswebsite/db/Table.java:61-63 | a field reads back from any later buffer that still holds the bytes up to the field's end |
| DataTypes.FixedReadsTotal | src/com/collinswebsite/db/types/BooleanDataType.java:12-14 | integer and boolean reads succeed whenever their field is present |
| DataTypes.BooleanNormalises | src/com/collinswebsite/db/types/BooleanDataType.java:12-19 | any non-zero byte reads as true, and writing that back stores 1 |
| LegacyDataType.IntegerOf | src/com/collinswebsite/db/DataType.java:89-91 | the INTEGER raw type with the signedness and maximum length 0 |
| LegacyDataType.StringOf | src/com/collinswebsite/db/DataType.java:97-99 | the STRING raw type, unsigned, with the maximum length |
| LegacyDataType.Serialize | src/com/collinswebsite/db/DataType.java:15-63 | a write keeps the buffer valid, its capacity and its limit |
| LegacyDataType.Deserialize | src/com/collinswebsite/db/DataType.java:11-52 | a successful read advances by exactly getSize |
| LegacyDataType.IntegerRoundTrip | src/com/collinswebsite/db/DataType.java:26-34 | every long written as INTEGER reads back and both directions advance by 8 |
| LegacyDataType.StringRejections | src/com/collinswebsite/db/DataType.java:44-59 | writes longer than the maximum fail with Serialization; reads of a length outside 0..maximum fail with InvalidLength |
| LegacyDataType.StringMisread | src/com/collinswebsite/db/DataType.java:44-62 | a STRING write spans getSize + 4 bytes and reading it back yields the empty string |
| LegacyDataType.ZeroLengthWritten | src/com/collinswebsite/db/DataType.java:60 | the 8-byte length word starts with four zero bytes |
| LegacyDataType.ZeroLengthRead | src/com/collinswebsite/db/DataType.java:44-51 | a field starting with four zero bytes reads as the empty string |
| LegacyDataType.StringMisreadExample | src/com/collinswebsite/db/DataType.java:44-62 | writing "a" with maximum length 1 and reading it back gives "" |
| FieldIO.WriteField | src/com/collinswebsite/db/types/DataType.java:13 | the buffer object ends as Serialize says, including what a failing write already put |
| FieldIO.ReadField | src/com/collinswebsite/db/types/DataType.java:12 | result and buffer as Deserialize says, error included |
| FieldIO.ReadInteger | src/com/collinswebsite/db/types/IntegerDataType.java:7-9 | `getLong` on the object equals the integer codec |
| FieldIO.ReadBoolean | src/com/collinswebsite/db/types/BooleanDataType.java:12-14 | `get() != 0` on the object equals the boolean codec |
| FieldIO.ReadString | src/com/collinswebsite/db/types/StringDataType.java:17-28 | the loop-free read on the object equals the string codec, both error cases included |
| Tables.OffsetAtLeast | src/com/collinswebsite/db/Table.java:24 | the first n fields take at least n bytes, and no earlier field starts after field n |
| Tables.FieldOffsetsIncrease | src/com/collinswebsite/db/Table.java:24 | field i ends no later than any later field starts, so fields do not overlap, and every field starts within rowSize |
| Tables.RowSize | src/com/collinswebsite/db/Table.java:24 | rowSize, the sum of the columns' getSize; OffsetAtLeast and FieldOffsetsIncrease show it holds every field, at least one byte per column |
| Tables.DecodeFields | src/com/collinswebsite/db/Table.java:61-63 | decoding n columns yields n values and ends n fields further on |
| Tables.DecodeFieldsSplit | src/com/collinswebsite/db/Table.java:61-63 | decoding n+1 columns is decoding n, then one more |
| Tables.DecodeFieldsValues | src/com/collinswebsite/db/Table.java:58-63 | value i is what column i's type reads at field i's offset |
| Tables.DecodePrefix | src/com/collinswebsite/db/Table.java:61-63 | a successful decode of n columns decoded every shorter prefix too |
| Tables.DecodeAll | src/com/collinswebsite/db/Table.java:58-63 | a buffer from which every field reads back its value decodes to those values |
| Tables.TotalCount | src/com/collinswebsite/db/Table.java:76-82 | at most the number of whole slots; exactly that when it is below 2^31; 0 when the file size cannot be read |
| Tables.FetchDecodes | src/com/collinswebsite/db/Table.java:50-70 | a successful fetch read a slot lying wholly in the file and returns its decoded fields |
| Tables.Fetch | src/com/collinswebsite/db/Table.java:50-70 | a negative id fails with IllegalArgument, an unreadable file with IOException, a slot reaching past the end of the file with EOFException; a successful fetch has one value per column |
| Tables.DecodedValuesFit | src/com/collinswebsite/db/Table.java:61-63 | every decoded value fits its column's type |
| Tables.FetchBelowTotalCount | src/com/collinswebsite/db/Table.java:53-66 | a slot below getTotalCount is wholly in the file, so fetch fails only by a field being refused |
| Tables.DecodeErrors | src/com/collinswebsite/db/Table.java:61-66 | with the whole row present, decoding fails only with Deserialization or NegativeArraySize |
| Tables.ReadAt | src/com/collinswebsite/db/Table.java:53 | at or past the end of the file the read returns -1; otherwise it copies as many bytes as fit and returns that count |
| Tables.FetchRow | src/com/collinswebsite/db/Table.java:50-70 | the imperative fetch (read, length check, flip, column loop) returns Fetch(t, id) |
| Tables.DecodeRow | src/com/collinswebsite/db/Table.java:58-67 | the column loop over the buffer object returns DecodeColumns of its state |
| Tables.DecodeStopsAtError | src/com/collinswebsite/db/Table.java:64-66 | the first failing column's error is the fetch's error |
| Rows.FetchedRowValues | src/com/collinswebsite/db/Row.java:25-27 | every column of a fetched row finds its value, of its type, read from its own field |
| Rows.GetValueForColumn | src/com/collinswebsite/db/Row.java:25-27 | the value at the column's position, IndexOutOfBounds past the end; FetchedRowValues shows every column of a fetched row finds its typed value |
| Rows.SerializeFields | src/com/collinswebsite/db/Row.java:18-23 | writing n columns keeps the buffer's size and on success advances by their offset |
| Rows.SerializeValues | src/com/collinswebsite/db/Row.java:18-23 | serialize() on a buffer value; SerializeSucceedsIffFit, RowRoundTrip and FailureKeepsPrefix give its outcome, round-trip and partial writes |
| Rows.SerializeSucceedsIffFit | src/com/collinswebsite/db/Row.java:18-23 | writing a row succeeds iff every value fits its column and the row fits the space left |
| Rows.RowRoundTrip | src/com/collinswebsite/db/Row.java:18-23 | a written row decodes back to its values, as fetch would decode it |
| Rows.FieldsReadBack | src/com/collinswebsite/db/Row.java:18-23 | every field of a written row reads back at its offset |
| Rows.SerializeKeepsEarlier | src/com/collinswebsite/db/Row.java:20-22 | writing later fields leaves earlier ones intact |
| Rows.FieldReadBack | src/com/collinswebsite/db/Row.java:20-22 | field i reads back as value i |
| Rows.FailureKeepsPrefix | src/com/collinswebsite/db/Row.java:18-23 | a failing write keeps what the fields before the failure wrote; there is no rollback |
| Rows.SerializeRow | src/com/collinswebsite/db/Row.java:18-23 | the column loop on the buffer object ends in the state and outcome of SerializeValues |
| Rows.SerializeStopsAtFailure | src/com/collinswebsite/db/Row.java:20-22 | the loop's outcome is the first failing column's error |
| Expressions.GetOperator | src/com/collinswebsite/db/miniql/ComparisonExpression.java:13-20 | an operator exactly when the comparator holds EQ, NE, LT or GT; otherwise "unrecognized operator: " + text |
| Expressions.GetOperatorOfToken | src/com/collinswebsite/db/miniql/ComparisonExpression.java:13-20 | a comparator holding one operator's token yields that operator |
| Expressions.Evaluate | src/com/collinswebsite/db/miniql/ComparisonExpression.java:42-44 | comparisons give booleans; literals give their own value |
| Expressions.TypeOf | src/com/collinswebsite/db/miniql/ColumnExpression.java:16-19 | getType() as a kind: the column's type, integer and string for literals, boolean for comparisons; EvaluateTotal shows evaluation yields a value of that kind |
| Expressions.EvaluateAsInteger | src/com/collinswebsite/db/miniql/Expression.java:11-13 | any expression not of integer type fails with "can't evaluate as integer" |
| Expressions.EvaluateAsBoolean | src/com/collinswebsite/db/miniql/ComparisonExpression.java:47-59 | any expression not of boolean type fails with "can't evaluate as boolean" |
| Expressions.Validate | src/com/collinswebsite/db/miniql/ComparisonExpression.java:62-68 | a failure is always an InvalidExpression |
| Expressions.ValidateIffComparable | src/com/collinswebsite/db/miniql/ComparisonExpression.java:62-68 | validate passes iff every comparison inside compares sides of comparable types |
| Expressions.LiteralIgnoresRow | src/com/collinswebsite/db/miniql/IntegerLiteral.java:20-27 | an expression without column references evaluates the same on every row |
| Expressions.EvaluateTotal | src/com/collinswebsite/db/miniql/ColumnExpression.java:22-42 | over a row holding typed values for its columns, an expression whose ordering comparisons are on integers evaluates to a value of its static type |
| Expressions.ValidatedYetFails | src/com/collinswebsite/db/miniql/ComparisonExpression.java:49-50 | `'a' < 'b'` validates yet fails with "can't evaluate as integer" |
| Expressions.NotEqualNegates | src/com/collinswebsite/db/miniql/ComparisonExpression.java:53-56 | NOT_EQUAL is EQUAL negated and fails exactly when EQUAL does |
| Expressions.ComparisonsSwap | src/com/collinswebsite/db/miniql/ComparisonExpression.java:49-52 | `a < b` equals `b > a` where both sides evaluate |
| Expressions.EqualSymmetric | src/com/collinswebsite/db/miniql/ComparisonExpression.java:53-54 | equality is symmetric where both sides evaluate |
| BTreeNodes.SaneGeometry | src/com/collinswebsite/db/BTreeIndex.java:167-191 | maxKeys = 2t-1, maxChildren = 2t, nodeSize by the formula, at least 37 |
| BTreeNodes.NodeOffsetsDisjoint | src/com/collinswebsite/db/BTreeIndex.java:56 | node i is at 16 + nodeSize·i, and distinct nodes do not overlap |
| BTreeNodes.Layout | src/com/collinswebsite/db/BTreeIndex.java:63-81 | a record has 2 + 2·maxKeys + maxChildren fields |
| BTreeNodes.GetField | src/com/collinswebsite/db/BTreeIndex.java:66-72 | a successful field read yields a field of the slot's kind and advances by the slot's width |
| BTreeNodes.GetFields | src/com/collinswebsite/db/BTreeIndex.java:63-81 | successful reads yield fields matching the layout |
| BTreeNodes.PutField | src/com/collinswebsite/db/BTreeIndex.java:88-92 | a successful field write advances by the slot's width |
| BTreeNodes.PutFields | src/com/collinswebsite/db/BTreeIndex.java:86-99 | a successful record write advances by the fields' total width |
| BTreeNodes.FromFields | src/com/collinswebsite/db/BTreeIndex.java:63-81 | the node built from a record has exactly its geometry's slots |
| BTreeNodes.Load | src/com/collinswebsite/db/BTreeIndex.java:54-83 | a loaded node has exactly its geometry's slots |
| BTreeNodes.ReadRecord | src/com/collinswebsite/db/BTreeIndex.java:55-58 | a successful read yields exactly nodeSize bytes |
| BTreeNodes.DecodeNode | src/com/collinswebsite/db/BTreeIndex.java:59-81 | a decoded node has exactly its geometry's slots |
| BTreeNodes.FileWrite | src/com/collinswebsite/db/BTreeIndex.java:101 | the channel writes the remaining bytes at the offset, zero-filling a gap, and reports their count |
| BTreeNodes.FieldRoundTrip | src/com/collinswebsite/db/BTreeIndex.java:66-99 | each field reads back as written |
| BTreeNodes.KeyRoundTrip | src/com/collinswebsite/db/BTreeIndex.java:66-92 | a key slot (length word, bytes, padding) reads back as the key |
| BTreeNodes.FieldsRoundTrip | src/com/collinswebsite/db/BTreeIndex.java:63-99 | a record's fields read back in order |
| BTreeNodes.StoreAsWrittenFails | src/com/collinswebsite/db/BTreeIndex.java:85-103 | store as written always fails, with Serialization when the keys fit their slots |
| BTreeNodes.StoreAsWritten | src/com/collinswebsite/db/BTreeIndex.java:85-103 | store() without a flip; StoreAsWrittenFails shows it always fails |
| BTreeNodes.Store | src/com/collinswebsite/db/BTreeIndex.java:85-103 | store() with the flip; StoreWritesRecord and StoreThenLoad show it writes the record at the node's offset and loads back as the node |
| BTreeNodes.StoreThenLoad | src/com/collinswebsite/db/BTreeIndex.java:54-104 | the corrected store succeeds and loading the same location yields the node |
| BTreeNodes.StoreWritesRecord | src/com/collinswebsite/db/BTreeIndex.java:101 | the corrected store puts the record's bytes at the node's offset |
| BTreeNodes.LoadRecord | src/com/collinswebsite/db/BTreeIndex.java:54-83 | a file holding a node's record loads as that node |
| BTreeNodes.ReadWholeRecord | src/com/collinswebsite/db/BTreeIndex.java:56 | with the whole record in the file, load reads exactly that record |
| BTreeNodes.LoadShortRead | src/com/collinswebsite/db/BTreeIndex.java:56-58 | a record the file does not hold in full fails with Deserialization |
| BTreeIndex.ReadHeader | src/com/collinswebsite/db/BTreeIndex.java:158-165 | the header reads iff the file holds its 16 bytes |
| BTreeIndex.Open | src/com/collinswebsite/db/BTreeIndex.java:153-175 | a short file fails with Deserialization; an opened root has its geometry's slots |
| BTreeIndex.Scan | src/com/collinswebsite/db/BTreeIndex.java:110-113 | the scan stops between the start and the number of keys |
| BTreeIndex.ScanStops | src/com/collinswebsite/db/BTreeIndex.java:110-113 | it stops at the first key not below the searched key |
| BTreeIndex.FirstNotLess | src/com/collinswebsite/db/BTreeIndex.java:108-113 | the while loop returns the first index whose key is not below the searched key |
| BTreeIndex.Search | src/com/collinswebsite/db/BTreeIndex.java:106-130 | the result says whether the descent meets the key, and the path gains exactly the descent's frames |
| BTreeIndex.SearchFindsStored | src/com/collinswebsite/db/BTreeIndex.java:106-130 | search finds the key iff some stored entry has it |
| BTreeIndex.Iterate | src/com/collinswebsite/db/BTreeIndex.java:199-203 | the new iterator has left exactly the stored entries not below start, in order |
| BTreeIndex.IterateYields | src/com/collinswebsite/db/BTreeIndex.java:199-245 | those entries ascend and are exactly the stored entries not below start |
| BTreeIndex.BTreeIterator.HasNext | src/com/collinswebsite/db/BTreeIndex.java:221-223 | true iff entries are left |
| BTreeIndex.BTreeIterator.Next | src/com/collinswebsite/db/BTreeIndex.java:226-245 | an empty stack fails with EmptyStack; otherwise the next entry is returned and removed from what is left |
| BTreeIndex.AtLeastAscending | src/com/collinswebsite/db/BTreeIndex.java:199-203 | dropping the entries below start keeps an ascending sequence ascending |
| BTreeIndex.RestPush | src/com/collinswebsite/db/BTreeIndex.java:237-240 | pushing a frame puts its node's remaining entries in front of what was left |
| BTreeIndex.RestPop | src/com/collinswebsite/db/BTreeIndex.java:231-234 | what is left is the top frame's remaining entries, then the frames below |
| FullScan.Limit | src/com/collinswebsite/db/FullScanCursor.java:41 | the slots a scan visits: getTotalCount, or none when that is negative |
| FullScan.TableFetch | src/com/collinswebsite/db/FullScanCursor.java:42 | the cursor's fetch is Fetch of the table |
| FullScan.JudgeOf | src/com/collinswebsite/db/FullScanCursor.java:43 | the filter is evaluateAsBoolean of the expression |
| FullScan.Admit | src/com/collinswebsite/db/FullScanCursor.java:42-47 | succeeds iff the fetch and the filter do; keeps the fetched row iff there is no filter or it says true |
| FullScan.AdmitRow | src/com/collinswebsite/db/FullScanCursor.java:42-47 | one fetch-and-filter step returns Admit's verdict |
| FullScan.SelectedRows | src/com/collinswebsite/db/FullScanCursor.java:39-70 | the selection over [lo, hi) is in slot order and holds exactly the admitted rows of those slots |
| FullScan.Selected | src/com/collinswebsite/db/FullScanCursor.java:39-49 | the admitted rows of a slot range; SelectedRows and SelectedFails give its rows and its error, and ScanYieldsSelection ties the cursor to it |
| FullScan.SelectedFails | src/com/collinswebsite/db/FullScanCursor.java:42-43 | the selection fails with the first failing fetch or filter |
| FullScan.CopyWithin | src/com/collinswebsite/db/FullScanCursor.java:33 | System.arraycopy within one array moves the range and leaves every other element |
| FullScan.FullScanCursor.constructor | src/com/collinswebsite/db/FullScanCursor.java:26-29 | a fresh cursor on the table: its fetch, getTotalCount, no filter, nothing fetched or emitted |
| FullScan.FullScanCursor.IsAtEnd | src/com/collinswebsite/db/FullScanCursor.java:51-54 | at end: no row pending, every slot fetched, and the emitted rows are everything admitted |
| FullScan.FullScanCursor.Compact | src/com/collinswebsite/db/FullScanCursor.java:31-37 | the unread rows move to the front of the array; the pending rows are unchanged |
| FullScan.FullScanCursor.FetchRows | src/com/collinswebsite/db/FullScanCursor.java:39-49 | on success the buffer is full or the table exhausted, and the pending rows gain the selection of the slots fetched; on failure the error is the last slot's |
| FullScan.FullScanCursor.Fill | src/com/collinswebsite/db/FullScanCursor.java:41-48 | the loop stops when the buffer is full or the table is exhausted, or at a failing slot |
| FullScan.FullScanCursor.GetNext | src/com/collinswebsite/db/FullScanCursor.java:56-70 | null when at end; a row returned joins the emitted rows; null leaves the cursor at end; an error is a failing slot's |
| FullScan.FullScanCursor.Pop | src/com/collinswebsite/db/FullScanCursor.java:66-69 | null iff nothing is pending; otherwise the first pending row, which is emitted |
| FullScan.FullScanCursor.Await | src/com/collinswebsite/db/FullScanCursor.java:72-75 | always fails with IllegalState |
| FullScan.FullScanCursor.SetFilter | src/com/collinswebsite/db/FullScanCursor.java:82-88 | accepted iff it validates and is of boolean type, with the validation error or "expected boolean expression" otherwise; a refused filter leaves the old one |
| FullScan.ScanYieldsSelection | src/com/collinswebsite/db/FullScanCursor.java:39-70 | the rows a scan emits are the selection over every slot below getTotalCount |
| Sorting.KeyOf | src/com/collinswebsite/db/SortingCursor.java:62-72 | an integer key for an integer expression, a string key for a string one, and no key (the field is skipped) for a boolean one |
| Sorting.IntegerOrder | src/com/collinswebsite/db/SortingCursor.java:63-66 | the corrected integer comparison: negative, zero or positive exactly when a < b, a = b or a > b |
| Sorting.IntegerOrderAsWritten | src/com/collinswebsite/db/SortingCursor.java:63-66 | the sign of the wrapped `long` difference a - b; it agrees with IntegerOrder when the difference does not overflow |
| Sorting.AsWrittenIntransitive | src/com/collinswebsite/db/SortingCursor.java:63-66 | -2^63 compares below 0 and 0 below 2^63-1, yet -2^63 compares above 2^63-1 |
| Sorting.KeyZeroIffEqual | src/com/collinswebsite/db/SortingCursor.java:61-75 | one key's comparison is 0 exactly for equal keys |
| Sorting.KeyAntisymmetric | src/com/collinswebsite/db/SortingCursor.java:61-75 | swapping two keys flips the sign |
| Sorting.KeyTransitive | src/com/collinswebsite/db/SortingCursor.java:61-75 | one key's order is transitive |
| Sorting.KeysZeroIffEqual | src/com/collinswebsite/db/SortingCursor.java:61-75 | the comparison of key lists is 0 exactly for equal lists |
| Sorting.KeysAntisymmetric | src/com/collinswebsite/db/SortingCursor.java:61-75 | swapping two key lists flips the sign |
| Sorting.KeysTransitive | src/com/collinswebsite/db/SortingCursor.java:61-75 | the comparison of key lists is transitive, so it is a valid sort order |
| Sorting.NotAboveTransitive | src/com/collinswebsite/db/SortingCursor.java:61-75 | "not above" on key lists is transitive |
| Sorting.CompareKeyAsWritten | src/com/collinswebsite/db/SortingCursor.java:63-71 | one field's step as written is 0 exactly for equal keys, and equals the corrected step when the integer difference does not overflow |
| Sorting.KeysAgree | src/com/collinswebsite/db/SortingCursor.java:61-75 | on key lists whose integer differences do not overflow, the comparator as written equals the corrected one |
| Sorting.KeysAsWrittenZeroIffEqual | src/com/collinswebsite/db/SortingCursor.java:61-75 | even with overflow, the comparator as written ties two key lists exactly when they are equal |
| Sorting.EntriesSafe | src/com/collinswebsite/db/SortingCursor.java:61-75 | rows whose integer keys do not overflow give entries that are pairwise safe to compare |
| Sorting.OverflowKeepsOrder | src/com/collinswebsite/db/SortingCursor.java:61-66 | keys 1 then Long.MIN_VALUE stay in that order, because the wrapped difference ranks Long.MIN_VALUE above 1 |
| Sorting.RowKeys | src/com/collinswebsite/db/SortingCursor.java:62-72 | one key per order-by expression, or the first key that fails |
| Sorting.CompareRowsByKeys | src/com/collinswebsite/db/SortingCursor.java:61-75 | on rows whose keys all evaluate, the comparator compares their key lists with the wrapped integer step: the first that differs decides |
| Sorting.CompareRows | src/com/collinswebsite/db/SortingCursor.java:61-75 | the comparator lambda; CompareRowsByKeys reduces it to the rows' keys, and SortRowsOrdered shows the sorted rows ordered by it |
| Sorting.InsertSorted | src/com/collinswebsite/db/SortingCursor.java:61 | inserting into a sorted sequence keeps it sorted, when the new entry's integer keys do not overflow against any entry's |
| Sorting.InsertPermutes | src/com/collinswebsite/db/SortingCursor.java:61 | inserting adds exactly the one entry, and its row |
| Sorting.SortSorted | src/com/collinswebsite/db/SortingCursor.java:61 | List.sort's result is ordered, when no two entries' integer keys overflow |
| Sorting.SortPermutes | src/com/collinswebsite/db/SortingCursor.java:61 | List.sort's result is a permutation of its input |
| Sorting.SortStable | src/com/collinswebsite/db/SortingCursor.java:61 | entries with equal keys keep their relative order |
| Sorting.SortedPairs | src/com/collinswebsite/db/SortingCursor.java:61 | in sorted entries every earlier entry is not above every later one |
| Sorting.SortRows | src/com/collinswebsite/db/SortingCursor.java:61-75 | sorts with the comparator as written; succeeds iff there are fewer than two rows or every row's keys evaluate; keeps the number of rows |
| Sorting.SortRowsPermutes | src/com/collinswebsite/db/SortingCursor.java:61-75 | the sorted rows are a permutation of the input |
| Sorting.SortRowsOrdered | src/com/collinswebsite/db/SortingCursor.java:61-75 | when no two rows' integer keys differ by 2^63 or more, every earlier sorted row compares not above every later one under the comparator as written |
| Sorting.SortRowsStable | src/com/collinswebsite/db/SortingCursor.java:61-75 | rows with equal keys keep their input order |
| SortingCursors.Drained | src/com/collinswebsite/db/SortingCursor.java:57-59 | the drained list: the rows taken, in order, then a null when the base ended |
| SortingCursors.FlattenDrained | src/com/collinswebsite/db/SortingCursor.java:57-59 | without the nulls, the drained rows are the base cursor's rows |
| SortingCursors.FlattenPermutes | src/com/collinswebsite/db/SortingCursor.java:55-78 | permuting the drained list permutes its non-null rows |
| SortingCursors.SortingCursor.constructor | src/com/collinswebsite/db/SortingCursor.java:19-22 | the cursor wraps its base and sort fields with no sorted rows yet |
| SortingCursors.SortingCursor.Sort | src/com/collinswebsite/db/SortingCursor.java:55-78 | on success the sorted rows are set, and the cursor's invariant ties them to SortRows of the drained list; on failure there are none |
| SortingCursors.SortingCursor.Drain | src/com/collinswebsite/db/SortingCursor.java:57-59 | the loop takes the base cursor's rows until it is at end; the list is Drained of the rows taken, which are what the base emitted |
| SortingCursors.SortingCursor.Ensure | src/com/collinswebsite/db/SortingCursor.java:26-28 | sorts on first use and never again |
| SortingCursors.SortingCursor.IsAtEnd | src/com/collinswebsite/db/SortingCursor.java:25-30 | at end iff the read head has passed every drained entry |
| SortingCursors.SortingCursor.GetNext | src/com/collinswebsite/db/SortingCursor.java:32-38 | the sorted entry at the read head, which then moves on; past the end, IndexOutOfBounds |
| SortingCursors.SortingCursor.Advance | src/com/collinswebsite/db/SortingCursor.java:37 | the entry at the read head, which moves by one; past the end, IndexOutOfBounds |
| SortingCursors.SortingCursor.GetTable | src/com/collinswebsite/db/SortingCursor.java:40-43 | the base cursor's table |
| SortingCursors.SortingCursor.SetFilter | src/com/collinswebsite/db/SortingCursor.java:50-53 | the filter goes to the base, accepted under the same conditions |
| SortingCursors.SortingCursor.Await | src/com/collinswebsite/db/SortingCursor.java:45-48 | always null |
| SortingCursors.SortedSelection | src/com/collinswebsite/db/SortingCursor.java:55-78 | the sorted rows are a permutation of the base's selection and stable; when no integer key difference overflows, they are ordered by the fields |
| Cursors.CursorRef.GetTable | src/com/collinswebsite/db/Cursor.java:11 | the table of the cursor behind the reference |
| Cursors.CursorRef.IsAtEnd | src/com/collinswebsite/db/Cursor.java:9 | hands out no row; the result is whether everything has been handed out |
| Cursors.CursorRef.GetNext | src/com/collinswebsite/db/Cursor.java:10 | a row handed out extends the delivered rows and brings the cursor closer to its end |
| Cursors.CursorRef.Await | src/com/collinswebsite/db/Cursor.java:12 | IllegalState for a scan, null for a sorting cursor |
| Formatting.Digits | src/com/collinswebsite/db/SocketConnectionResponseWriter.java:36 | decimal digits without leading zeros; a single digit exactly below 10 |
| Formatting.DigitsRoundTrip | src/com/collinswebsite/db/SocketConnectionResponseWriter.java:36 | the digits read back as the number |
| Formatting.Decimal | src/com/collinswebsite/db/SocketConnectionResponseWriter.java:36 | `toString()` of a long: a minus sign exactly for negatives, then digits |
| Formatting.DecimalRoundTrip | src/com/collinswebsite/db/SocketConnectionResponseWriter.java:36 | parsing the decimal text gives back the long |
| Formatting.RequestChar | src/com/collinswebsite/db/SocketConnectionReader.java:56 | `(char) byte`: bytes below 128 keep their value; higher bytes sign-extend to 0xFF00 + b |
| Formatting.Chars | src/com/collinswebsite/db/SocketConnectionReader.java:55-58 | one char per request byte, each as RequestChar |
| Formatting.EncodeChar | src/com/collinswebsite/db/SocketConnectionErrorWriter.java:19 | one to four bytes; one byte exactly for ASCII |
| Formatting.CharRoundTrip | src/com/collinswebsite/db/SocketConnectionErrorWriter.java:19 | decoding a char's UTF-8 bytes gives the char back |
| Formatting.Utf8 | src/com/collinswebsite/db/SocketConnectionErrorWriter.java:19 | `getBytes()`: at least one byte per character |
| Formatting.Utf8Ascii | src/com/collinswebsite/db/SocketConnectionErrorWriter.java:19 | ASCII text encodes one byte per char, of the same value |
| Formatting.Utf8Append | src/com/collinswebsite/db/SocketConnectionErrorWriter.java:19 | encoding distributes over concatenation |
| Formatting.ErrorMessage | src/com/collinswebsite/db/SocketConnectionReader.java:102 | "ERROR: " followed by the exception's text |
| Formatting.ErrorText | src/com/collinswebsite/db/SocketConnectionReader.java:102 | Throwable.toString(): the class name, then ": " and the message |
| Formatting.FieldsText | src/com/collinswebsite/db/SocketConnectionResponseWriter.java:35-38 | a missing column fails with IndexOutOfBounds; otherwise at least one byte per field |
| Formatting.ValueText | src/com/collinswebsite/db/SocketConnectionResponseWriter.java:36 | `o.toString().getBytes()`; DecimalRoundTrip and FixedTextsClean show integer texts parse back and integer and boolean texts hold no comma |
| Formatting.FieldsTextPrefix | src/com/collinswebsite/db/SocketConnectionResponseWriter.java:35-38 | when all fields format, every prefix of the fields formats, to no more bytes |
| Formatting.RowText | src/com/collinswebsite/db/SocketConnectionResponseWriter.java:35-39 | a row's line ends with a newline |
| Formatting.RowsTextSnoc | src/com/collinswebsite/db/SocketConnectionResponseWriter.java:28-40 | the text of one more row is the old text followed by its line, or the first error |
| Formatting.RowsText | src/com/collinswebsite/db/SocketConnectionResponseWriter.java:28-40 | the lines of several rows; RowsTextSnoc and FilledMore show each filled row appends its line |
| Formatting.IndexOf | src/com/collinswebsite/db/SocketConnectionReader.java:54-62 | the first position of the byte, or the length when it is absent |
| Formatting.NewlineAt | src/com/collinswebsite/db/SocketConnectionReader.java:54-62 | the request line ends at the first newline, or at the end of the bytes |
| Formatting.SplitJoined | src/com/collinswebsite/db/SocketConnectionResponseWriter.java:35-39 | splitting comma-terminated fields that hold no comma gives them back |
| Formatting.FieldsJoined | src/com/collinswebsite/db/SocketConnectionResponseWriter.java:35-38 | the fields text is each value's text followed by a comma |
| Formatting.RowTextSplits | src/com/collinswebsite/db/SocketConnectionResponseWriter.java:35-39 | a client splitting a line at the commas gets each projected value's text, in column order |
| Formatting.ValueTextsAt | src/com/collinswebsite/db/SocketConnectionResponseWriter.java:36 | field i of the line is the text of column i's value |
| Formatting.FixedTextsClean | src/com/collinswebsite/db/SocketConnectionResponseWriter.java:36 | integer and boolean texts hold no comma |
| Formatting.Taken | src/com/collinswebsite/db/SocketConnectionReader.java:48 | a write takes what the channel accepts, at most what remains |
| Formatting.Write | src/com/collinswebsite/db/SocketConnectionResponseWriter.java:45 | a write moves bytes from pending to sent, conserving their concatenation |
| Formatting.SendAsWritten | src/com/collinswebsite/db/SocketConnectionResponseWriter.java:42-45 | flip, then write, with nothing that frees the bytes sent |
| Formatting.SendCorrected | src/com/collinswebsite/db/SocketConnectionResponseWriter.java:42-45 | flip, write, then compact: the buffer is ready to be filled again |
| Formatting.CorrectedKeepsOrder | src/com/collinswebsite/db/SocketConnectionResponseWriter.java:42-49 | with compaction, bytes sent followed by bytes still buffered are the old buffered bytes followed by the new text |
| Formatting.AsWrittenResends | src/com/collinswebsite/db/SocketConnectionResponseWriter.java:42-49 | without it, a text sent in full leaves nothing pending and no room, and the next turn sends the same text again |
| Formatting.AsWrittenResendsExample | src/com/collinswebsite/db/SocketConnectionResponseWriter.java:42-49 | the line "1,\n" in a 4-byte buffer is sent twice |
| Connections.FirstError | src/com/collinswebsite/db/SocketConnectionState.java:28-45 | an error is recorded, and an earlier one is kept |
| Connections.FilterCheck | src/com/collinswebsite/db/FullScanCursor.java:82-88 | the filter is refused iff it does not validate or is not boolean |
| Connections.Resolve | src/com/collinswebsite/db/SocketConnectionReader.java:72-92 | a missing table gives "no such table: " + name; otherwise the plan's table is the named one, all columns when none are listed, and a filter or order exactly when the statement has one; a filter always passes setFilter |
| Connections.ResolveIn | src/com/collinswebsite/db/SocketConnectionReader.java:77-92 | the plan is against the given table |
| Connections.ResolveFilter | src/com/collinswebsite/db/SocketConnectionReader.java:86-88 | a filter exactly when the statement has one, and it passes setFilter |
| Connections.AfterRead | src/com/collinswebsite/db/SocketConnectionReader.java:47-52 | compact, read, flip keeps the buffer's size |
| Connections.AfterReadPending | src/com/collinswebsite/db/SocketConnectionReader.java:47-52 | after compact, read and flip, the unread bytes are the old ones followed by those received that fit |
| Connections.SerializeRows | src/com/collinswebsite/db/SocketConnectionWriter.java:27-40 | writing records keeps the buffer's size and limit |
| Connections.FilledMore | src/com/collinswebsite/db/SocketConnectionResponseWriter.java:28-40 | one more row appends its line to the text, and putting the text is putting the old text then the line |
| Connections.SerializedMore | src/com/collinswebsite/db/SocketConnectionWriter.java:27-40 | one more row appends its record, unless an earlier one failed |
| Connections.WriteAccount | src/com/collinswebsite/db/SocketConnectionResponseWriter.java:45 | sent plus pending is the same across a write: nothing is lost or repeated |
| Connections.Build | src/com/collinswebsite/db/SocketConnectionReader.java:77-92 | a failure is the statement's resolution error; otherwise the resolved columns and a fresh cursor built as the plan says |
| Connections.Filtered | src/com/collinswebsite/db/SocketConnectionReader.java:77-88 | a fresh scan of the table, with the statement's filter when it has one, or the filter's error |
| Connections.ScanLine | src/com/collinswebsite/db/SocketConnectionReader.java:54-62 | the loop consumes bytes up to and including the first newline, and the request gains the chars before it |
| Connections.Turn | src/com/collinswebsite/db/SocketConnectionResponseWriter.java:42 | the buffer is flipped and the cursor left alone |
| Connections.Transmit | src/com/collinswebsite/db/SocketConnectionResponseWriter.java:43-49 | a write moves what the channel accepts from pending to sent |
| Connections.Park | src/com/collinswebsite/db/SocketConnectionResponseWriter.java:50-59 | the buffer is unchanged; a successful park leaves the cursor at its end with nothing more delivered |
| Connections.Idle | src/com/collinswebsite/db/SocketConnectionResponseWriter.java:50-59 | the buffer, the sent bytes, the error and the attachment are unchanged; a pass delivers no row |
| Connections.Ends | src/com/collinswebsite/db/SocketConnectionResponseWriter.java:61 | the cursor's isAtEnd, leaving the buffer alone |
| Connections.Room | src/com/collinswebsite/db/SocketConnectionResponseWriter.java:28 | the loop goes on iff the cursor is not at end and a whole row's size is free |
| Connections.Next | src/com/collinswebsite/db/SocketConnectionResponseWriter.java:29-34 | the next row from the cursor, which joins the delivered rows; null delivers nothing |
| Connections.PutFields | src/com/collinswebsite/db/SocketConnectionResponseWriter.java:35-38 | succeeds iff every field formats and the text fits; then the buffer holds the fields text; a failure is BufferOverflow or IndexOutOfBounds |
| Connections.PutField | src/com/collinswebsite/db/SocketConnectionResponseWriter.java:36-37 | a missing column gives its error; otherwise the value's text and a comma, or BufferOverflow |
| Connections.LineFails | src/com/collinswebsite/db/SocketConnectionResponseWriter.java:35-39 | a missing column makes the whole line fail |
| Connections.LineTooLong | src/com/collinswebsite/db/SocketConnectionResponseWriter.java:35-39 | a field that does not fit means the whole line does not fit |
| Connections.SocketConnectionState.constructor | src/com/collinswebsite/db/SocketConnectionState.java:21-26 | a 4096-byte buffer, no error, read interest, nothing attached, nothing sent |
| Connections.SocketConnectionState.EnterErrorState | src/com/collinswebsite/db/SocketConnectionState.java:28-45 | the first error is kept; the channel is closed and the key cancelled |
| Connections.SocketConnectionState.HasError | src/com/collinswebsite/db/SocketConnectionState.java:50-52 | true iff an error was recorded |
| Connections.SocketConnectionState.ChannelRead | src/com/collinswebsite/db/SocketConnectionReader.java:48 | received bytes go into the buffer as far as they fit; end of stream returns -1; a failed read is an IOException; neither of the last two changes the buffer |
| Connections.SocketConnectionState.ChannelWrite | src/com/collinswebsite/db/SocketConnectionResponseWriter.java:45 | an accepted write moves bytes from the buffer to sent; a failed write changes nothing |
| Connections.SocketConnectionState.Send | src/com/collinswebsite/db/SocketConnectionErrorWriter.java:26-31 | true iff the write was accepted, and then the bytes are sent; otherwise the error state holds an IOException |
| Connections.SocketConnectionState.AttachReader | src/com/collinswebsite/db/SocketConnectionErrorWriter.java:33 | a fresh reader is attached with read interest; the buffer is cleared and flipped, so nothing is left to read |
| Connections.SocketConnectionReader.constructor | src/com/collinswebsite/db/SocketConnectionReader.java:23-33 | an empty request, read interest, and the buffer cleared and flipped |
| Connections.SocketConnectionReader.Process | src/com/collinswebsite/db/SocketConnectionReader.java:39-112 | an invalid key records a ClosedChannel error; a key that is not readable changes nothing; end of stream and a failed read are errors; otherwise the request gains the chars up to the first newline, and a complete line is answered; a StackOverflowError or OutOfMemoryError met while answering escapes with the reader still attached |
| Connections.SocketConnectionReader.Receive | src/com/collinswebsite/db/SocketConnectionReader.java:46-106 | the readable case of process with the same outcomes, the escaping java.lang.Errors included |
| Connections.SocketConnectionReader.ReadInto | src/com/collinswebsite/db/SocketConnectionReader.java:46-52 | succeeds iff bytes were received, leaving the buffer as AfterRead says; otherwise the error |
| Connections.SocketConnectionReader.Scan | src/com/collinswebsite/db/SocketConnectionReader.java:54-106 | the request gains the chars up to the first newline; a complete line is answered, an incomplete one waits; a java.lang.Error met while answering escapes |
| Connections.SocketConnectionReader.ReadLine | src/com/collinswebsite/db/SocketConnectionReader.java:54-62 | true iff a newline was found; consumes it and the chars before it, which join the request |
| Connections.SocketConnectionReader.Answer | src/com/collinswebsite/db/SocketConnectionReader.java:64-103 | the request's parse and resolution decide between a response writer and an error writer; a StackOverflowError or OutOfMemoryError is not caught and escapes with the attachment and interest unchanged |
| Connections.SocketConnectionReader.Open | src/com/collinswebsite/db/SocketConnectionReader.java:77-97 | the statement resolved against its table decides the answer; a java.lang.Error from the visitors escapes uncaught |
| Connections.SocketConnectionReader.Respond | src/com/collinswebsite/db/SocketConnectionReader.java:94-97 | a fresh response writer with the cursor and columns takes over; write interest; the buffer cleared |
| Connections.SocketConnectionReader.Refuse | src/com/collinswebsite/db/SocketConnectionReader.java:98-103 | an error writer takes over with the message "ERROR: " + the error text; a java.lang.Error (StackOverflowError, OutOfMemoryError) is not caught by `catch(Exception e)` and escapes with nothing changed |
| Connections.SocketConnectionErrorWriter.Create | src/com/collinswebsite/db/SocketConnectionErrorWriter.java:10-22 | succeeds iff the message's bytes are below the capacity, leaving the message and a newline pending with OP_WRITE interest; otherwise BufferOverflow |
| Connections.SocketConnectionErrorWriter.Process | src/com/collinswebsite/db/SocketConnectionErrorWriter.java:24-36 | with bytes pending, one write or the error state; with none left, a reader is attached |
| Connections.SocketConnectionResponseWriter.constructor | src/com/collinswebsite/db/SocketConnectionResponseWriter.java:13-23 | write interest, and the buffer cleared for filling |
| Connections.SocketConnectionResponseWriter.Process | src/com/collinswebsite/db/SocketConnectionResponseWriter.java:25-69 | as written: the cursor delivers the rows whose lines were buffered, the buffer is flipped and sent without compaction, and at the end of the cursor a reader is attached |
| Connections.SocketConnectionResponseWriter.Deliver | src/com/collinswebsite/db/SocketConnectionResponseWriter.java:28-49 | fill, then the send step as written |
| Connections.SocketConnectionResponseWriter.Flush | src/com/collinswebsite/db/SocketConnectionResponseWriter.java:42-59 | flip and write as written, or park when nothing is pending |
| Connections.SocketConnectionResponseWriter.Finish | src/com/collinswebsite/db/SocketConnectionResponseWriter.java:61-63 | at the end of the cursor a fresh reader is attached, otherwise nothing changes |
| Connections.SocketConnectionResponseWriter.ProcessCorrected | src/com/collinswebsite/db/SocketConnectionResponseWriter.java:25-69 | with a compaction after the write, bytes sent plus bytes still buffered are the old ones followed by the lines of the rows delivered |
| Connections.SocketConnectionResponseWriter.Fill | src/com/collinswebsite/db/SocketConnectionResponseWriter.java:28-40 | the loop puts the lines of the rows it delivers; unless the rows ran out, it stops at the end or short of a row's size |
| Connections.SocketConnectionResponseWriter.PutRow | src/com/collinswebsite/db/SocketConnectionResponseWriter.java:35-39 | succeeds iff the row's line formats and fits, and then puts it; a failure is BufferOverflow or IndexOutOfBounds |
| Connections.SocketConnectionWriter.constructor | src/com/collinswebsite/db/SocketConnectionWriter.java:12-22 | write interest, and the buffer cleared for filling |
| Connections.SocketConnectionWriter.Process | src/com/collinswebsite/db/SocketConnectionWriter.java:24-70 | the attachment never changes; the cursor delivers the rows whose records were buffered, the buffer is sent as written, and the channel closes and the key is cancelled exactly when the cursor is at end |
| Connections.SocketConnectionWriter.Flush | src/com/collinswebsite/db/SocketConnectionWriter.java:42-59 | flip and write as written, or park when nothing is pending |
| Connections.SocketConnectionWriter.Close | src/com/collinswebsite/db/SocketConnectionWriter.java:61-68 | the channel closes and the key is cancelled exactly when the cursor is at end |
| Connections.SocketConnectionWriter.Fill | src/com/collinswebsite/db/SocketConnectionWriter.java:27-40 | the loop serializes the records of the rows it delivers; unless the rows ran out, it stops at the end or short of a row's size |
| Connections.SocketConnectionWriter.PutRecord | src/com/collinswebsite/db/SocketConnectionWriter.java:35 | the buffer and outcome are those of serializing the row |

## Left out

- Sockets, the selector loop and `DatabaseServer` are not modelled beyond a map of tables. Channel reads and writes are parameters: `ReadResult` (Received, EndOfStream, ReadFailed) and `WriteResult` (Accepted(count), WriteFailed).
- ANTLR lexing and parsing are not modelled. The parser is a function parameter from the request line to a statement. `MiniQLInterpreterListener`, `ColumnListVisitor`, `ExpressionListVisitor` and `ExpressionVisitor` are not part of this model.
- Futures and completion stages are not modelled. They are reduced to synchronous results. `await().thenRun` is modelled only down to the IllegalState and NullPointer outcomes it produces.
- File channels are not modelled. The table file and the index file are byte sequences, and a table file whose size cannot be read is `Unreadable`.
- The B-tree's insertion, deletion and free list are not modelled, because the source has none. `Row.delete` is not modelled either: `Table.deleteRow` is not part of the source.
- `getMinKeys` and `getMinChildren` are not modelled, because nothing in the core uses them.
- `dumpIterationState`, `printStackTrace` and `System.out` are left out. They are diagnostics only.
- Java strings are modelled as bytes, with ASCII text. `String.length()` is taken as the byte count, and `compareTo` as unsigned byte order. UTF-16 semantics are not modelled.
- List.sort is modelled by a stable insertion sort. The TimSort "comparison method violates its general contract" exception is not modelled.
- Sorting.SortRows: the sort uses the comparator as written, with the wrapped `a - b`. When two integer keys' difference overflows, that comparator is not a total order. TimSort's exact output order is then not modelled, and ordering is proved only under `NoOverflow`.
- Expressions.Validate: the failure message is "can't compare" without the " <type> with <type>" tail. That tail is the types' `Object.toString`, which includes an identity hash code that cannot be determined.
- BTreeIndex.BTreeIterator.Next: the RuntimeException from a failing child fetch is not modelled. The index is a map that holds every node it refers to.
- BTreeIndex: the B-tree's validity is the ghost predicate `Shape` with a height, together with `Ascending` on the entries of the tree in order. The index file is not checked for either.
- SortingCursors.SortingCursor: the base cursor is always a full scan, the only base the reader builds.
- Connections.SocketConnectionReader.Answer: the model states that the buffer is cleared (position 0, limit 4096), not the stale bytes it still holds.
- Connections.Build: the scan is created after the column list resolves. The source creates it first. The order cannot be observed.
- FullScan.FullScanCursor.GetNext: after a fetch or filter error, the model promises nothing about later calls. The source has already advanced its write index past the failing slot.
- Table's `getName` and `getColumns`, Row's `getId`, and Column's `getType` and position are datatype fields, not separate members. `getRowSize` is `Tables.RowSize`, `Expression.getType` is `Expressions.TypeOf`, and `BooleanDataType.getName` is `DataTypes.GetName`.
- BTreeNodes.FileWrite: a write that starts past the end of the file fills the gap with zero bytes. FileChannel leaves the gap's contents unspecified.
- Tables.TotalCount: states the exact count only below 2^31. Above that, the `(int)` cast wraps, and the contract bounds the result without giving it.

## Findings

| source | as written | input that shows it | evidently intended | confidence | as-written member | corrected member |
|---|---|---|---|---|---|---|
| src/com/collinswebsite/db/DataType.java:60 | STRING serialize writes the length with `putLong`, while deserialize reads it with `getInt` at line 44 | "a" with maximum length 1: the field reads back as "" and the read stops 4 bytes short | a 4-byte length word in both directions, as in `types/StringDataType.java` | not executed | LegacyDataType.StringMisread, LegacyDataType.StringMisreadExample | DataTypes.StringRoundTrip |
| src/com/collinswebsite/db/SortingCursor.java:63-66 | the integer comparator takes `long r = a - b`, which wraps, and returns the sign of the wrapped difference | a = -2^63, b = 0, c = 2^63 - 1: a compares below b and b below c, yet a compares above c, so the order is not transitive | compare the longs' order (`Long.compare`) | not executed | Sorting.IntegerOrderAsWritten, Sorting.AsWrittenIntransitive | Sorting.IntegerOrder, Sorting.KeysTransitive |
| src/com/collinswebsite/db/BTreeIndex.java:85-103 | store() writes the node buffer without `flip()`, so the channel gets the bytes after the record | any node: the write hands over 0 bytes, which is not nodeSize, so store always throws | flip before the write | not executed | BTreeNodes.StoreAsWritten, BTreeNodes.StoreAsWrittenFails | BTreeNodes.Store, BTreeNodes.StoreThenLoad |
| src/com/collinswebsite/db/SocketConnectionResponseWriter.java:42-49 | after a write the buffer is never compacted or cleared, so the next turn flips it again and sends the bytes already sent once more | the line "1,\n" in a 4-byte buffer, all of it accepted: the next call of process sends the same line again | compact after the write, as the reader does at line 47 of SocketConnectionReader.java; SocketConnectionWriter.java:42-49 has the same pattern | not executed | Formatting.AsWrittenResends, Formatting.AsWrittenResendsExample, Connections.SocketConnectionResponseWriter.Process | Formatting.CorrectedKeepsOrder, Connections.SocketConnectionResponseWriter.ProcessCorrected |
