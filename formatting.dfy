/** The text the connection layer produces: Long.toString, String.getBytes
    (UTF-8), the `(char)` conversion of request bytes, the exception texts
    of the error replies, and the comma-separated row lines of a response.
    The last part is the pure account of how the response writer hands its
    buffer to the channel, as written and corrected. */
module Formatting {
  import opened Results
  import opened Bytes
  import opened Buffers
  import opened DataTypes
  import opened Tables
  import opened Rows

  const NEWLINE: byte := 10
  const COMMA: byte := 44
  const MINUS: byte := 45
  const ZERO: byte := 48

  predicate IsDigit(b: byte) { 48 <= b as int <= 57 }

  // ---------------------------------------------------------------------
  // decimal numbers

  /** The decimal digits of n, most significant first, without leading zeros. */
  function Digits(n: nat): (s: seq<byte>)
    ensures 1 <= |s| && (forall i | 0 <= i < |s| :: IsDigit(s[i]))
    ensures 1 < |s| ==> s[0] != ZERO
    ensures n < 10 <==> |s| == 1
    decreases n
  {
    if n < 10 then [(48 + n) as byte] else Digits(n / 10) + [(48 + n % 10) as byte]
  }

  /** Reading a run of decimal digits: the reference the digits are checked against. */
  function DigitsValue(s: seq<byte>): nat
    requires forall i | 0 <= i < |s| :: IsDigit(s[i])
    decreases |s|
  {
    if s == [] then 0
    else
      var d := s[|s| - 1];
      assert IsDigit(d);
      DigitsValue(s[..|s| - 1]) * 10 + (d as int - 48)
  }

  lemma {:induction false} DigitsRoundTrip(n: nat)
    ensures DigitsValue(Digits(n)) == n
    decreases n
  {
    if n >= 10 {
      DigitsRoundTrip(n / 10);
      var s := Digits(n);
      assert s[..|s| - 1] == Digits(n / 10);
    }
  }

  /** Long.toString(x): a minus sign for a negative number, then the digits
      of its magnitude. */
  function Decimal(x: Int64): (s: seq<byte>)
    ensures 1 <= |s| && (forall i | 0 < i < |s| :: IsDigit(s[i]))
    ensures IsDigit(s[0]) <==> x >= 0
    ensures x < 0 <==> s[0] == MINUS
  {
    if x < 0 then [MINUS] + Digits(-(x as int)) else Digits(x)
  }

  /** Long.parseLong on the texts Decimal produces. */
  function ParseDecimal(s: seq<byte>): int
    requires 1 <= |s| && forall i | 0 < i < |s| :: IsDigit(s[i])
    requires s[0] == MINUS || IsDigit(s[0])
  {
    if s[0] == MINUS then -(DigitsValue(s[1..]) as int) else DigitsValue(s)
  }

  /** A client that parses the decimal text gets the number back. */
  lemma DecimalRoundTrip(x: Int64)
    ensures ParseDecimal(Decimal(x)) == x
  {
    if x < 0 {
      DigitsRoundTrip(-(x as int));
      assert Decimal(x)[1..] == Digits(-(x as int));
    } else {
      DigitsRoundTrip(x);
    }
  }

  // ---------------------------------------------------------------------
  // characters

  /** `(char) b` on a Java byte: sign extension, so bytes 128..255 become
      the characters U+FF80..U+FFFF. */
  function RequestChar(b: byte): (c: char)
    ensures b < 128 ==> c as int == b as int
    ensures b >= 128 ==> c as int == 0xFF00 + b as int
  {
    if b < 128 then (b as int) as char else (0xFF00 + b as int) as char
  }

  /** The characters a run of request bytes appends to the request. */
  function Chars(s: seq<byte>): (r: string)
    ensures |r| == |s| && forall i | 0 <= i < |s| :: r[i] == RequestChar(s[i])
  {
    seq(|s|, i requires 0 <= i < |s| => RequestChar(s[i]))
  }

  /** The UTF-8 encoding of one character. */
  function EncodeChar(c: char): (s: seq<byte>)
    ensures 1 <= |s| <= 4
    ensures |s| == 1 <==> c as int < 0x80
  {
    var n := c as int;
    if n < 0x80 then [n as byte]
    else if n < 0x800 then [(0xC0 + n / 0x40) as byte, (0x80 + n % 0x40) as byte]
    else if n < 0x1_0000 then
      [(0xE0 + n / 0x1000) as byte, (0x80 + n / 0x40 % 0x40) as byte, (0x80 + n % 0x40) as byte]
    else
      [(0xF0 + n / 0x4_0000) as byte, (0x80 + n / 0x1000 % 0x40) as byte,
       (0x80 + n / 0x40 % 0x40) as byte, (0x80 + n % 0x40) as byte]
  }

  /** The code point a UTF-8 sequence of one to four bytes stands for. */
  function DecodeCodePoint(s: seq<byte>): int
    requires 1 <= |s| <= 4
  {
    if |s| == 1 then s[0] as int
    else if |s| == 2 then (s[0] as int - 0xC0) * 0x40 + (s[1] as int - 0x80)
    else if |s| == 3 then (s[0] as int - 0xE0) * 0x1000 + (s[1] as int - 0x80) * 0x40 + (s[2] as int - 0x80)
    else (s[0] as int - 0xF0) * 0x4_0000 + (s[1] as int - 0x80) * 0x1000
         + (s[2] as int - 0x80) * 0x40 + (s[3] as int - 0x80)
  }

  lemma SplitBase64(n: nat)
    ensures n == n / 0x40 * 0x40 + n % 0x40
    ensures n / 0x40 / 0x40 == n / 0x1000 && n / 0x1000 / 0x40 == n / 0x4_0000
  {
  }

  /** Decoding a character's UTF-8 bytes gives the character back. */
  lemma CharRoundTrip(c: char)
    ensures DecodeCodePoint(EncodeChar(c)) == c as int
  {
    var n := c as int;
    SplitBase64(n);
    SplitBase64(n / 0x40);
    SplitBase64(n / 0x1000);
  }

  /** String.getBytes(): every character's UTF-8 bytes, in order. */
  function Utf8(s: string): (r: seq<byte>)
    ensures |r| >= |s|
    decreases |s|
  {
    if s == [] then [] else Utf8(s[..|s| - 1]) + EncodeChar(s[|s| - 1])
  }

  /** For ASCII text the encoding is one byte per character, of the same value. */
  lemma {:induction false} Utf8Ascii(s: string)
    requires forall i | 0 <= i < |s| :: s[i] as int < 0x80
    ensures |Utf8(s)| == |s| && forall i | 0 <= i < |s| :: Utf8(s)[i] as int == s[i] as int
    decreases |s|
  {
    if s != [] {
      Utf8Ascii(s[..|s| - 1]);
    }
  }

  lemma {:induction false} Utf8Append(s: string, t: string)
    ensures Utf8(s + t) == Utf8(s) + Utf8(t)
    decreases |t|
  {
    if t == [] {
      assert s + t == s;
    } else {
      Utf8Append(s, t[..|t| - 1]);
      assert (s + t)[..|s + t| - 1] == s + t[..|t| - 1];
      assert (s + t)[|s + t| - 1] == t[|t| - 1];
    }
  }

  // ---------------------------------------------------------------------
  // exception texts

  /** Throwable.toString(): the class name, then ": " and the message when
      there is one.  An empty message in the model stands for none. */
  function ErrorText(e: Error): string
  {
    match e
    case BufferOverflow => "java.nio.BufferOverflowException"
    case BufferUnderflow => "java.nio.BufferUnderflowException"
    case IllegalArgument => "java.lang.IllegalArgumentException"
    case NegativeArraySize => "java.lang.NegativeArraySizeException"
    case IndexOutOfBounds => "java.lang.IndexOutOfBoundsException"
    case NullPointer => "java.lang.NullPointerException"
    case ClassCast => "java.lang.ClassCastException"
    case Serialization => "com.collinswebsite.db.SerializationException"
    case Deserialization => "com.collinswebsite.db.DeserializationException"
    case InvalidLength => "com.collinswebsite.db.InvalidLengthException"
    case EndOfFile => "java.io.EOFException"
    case InputOutput => "java.io.IOException"
    case ClosedChannel => "java.nio.channels.ClosedChannelException"
    case IllegalState(m) => WithMessage("java.lang.IllegalStateException", m)
    case InvalidExpression(m) => WithMessage("com.collinswebsite.db.miniql.InvalidExpressionException", m)
    case ParseCancellation(m) => WithMessage("org.antlr.v4.runtime.misc.ParseCancellationException", m)
    case EmptyStack => "java.util.EmptyStackException"
    case StackOverflow => "java.lang.StackOverflowError"
    case OutOfMemory => "java.lang.OutOfMemoryError"
  }

  function WithMessage(name: string, message: string): string
  {
    if message == "" then name else name + ": " + message
  }

  /** The reply the reader sends for a request that fails: "ERROR: " and the
      exception's text. */
  function ErrorMessage(e: Error): (m: string)
    ensures |m| >= 7 && m[..7] == "ERROR: " && m[7..] == ErrorText(e)
  {
    "ERROR: " + ErrorText(e)
  }

  // ---------------------------------------------------------------------
  // response lines

  /** `o.toString().getBytes()` for the value of a column: a long in
      decimal, a string as its bytes, a boolean as "true" or "false". */
  function ValueText(v: Value): seq<byte>
  {
    match v
    case IntValue(i) => Decimal(i)
    case StrValue(s) => s
    case BoolValue(b) => Utf8(if b then "true" else "false")
  }

  /** The first n projected values of a row, each followed by a comma; a
      column the row has no value for fails as List.get does. */
  function FieldsText(columns: seq<Column>, n: nat, r: Row): (t: Result<seq<byte>>)
    requires n <= |columns|
    ensures t.Err? ==> t.error == IndexOutOfBounds
    ensures t.Ok? ==> |t.value| >= n
    decreases n
  {
    if n == 0 then Ok([])
    else
      var before :- FieldsText(columns, n - 1, r);
      var v :- GetValueForColumn(r, columns[n - 1]);
      Ok(before + ValueText(v) + [COMMA])
  }

  /** A line's first fields are a prefix of all of them: when the whole line
      can be formed, so can each shorter run of fields, and it is no longer. */
  lemma {:induction false} FieldsTextPrefix(columns: seq<Column>, i: nat, n: nat, r: Row)
    requires i <= n <= |columns| && FieldsText(columns, n, r).Ok?
    ensures FieldsText(columns, i, r).Ok? && |FieldsText(columns, i, r).value| <= |FieldsText(columns, n, r).value|
    decreases n
  {
    if i < n {
      var v := GetValueForColumn(r, columns[n - 1]);
      assert FieldsText(columns, n - 1, r).Ok? && v.Ok?;
      assert FieldsText(columns, n, r).value == FieldsText(columns, n - 1, r).value + ValueText(v.value) + [COMMA];
      FieldsTextPrefix(columns, i, n - 1, r);
    }
  }

  /** One response line: the projected values, then a newline. */
  function RowText(columns: seq<Column>, r: Row): (t: Result<seq<byte>>)
    ensures t.Ok? ==> 1 <= |t.value| && t.value[|t.value| - 1] == NEWLINE
  {
    var fields :- FieldsText(columns, |columns|, r);
    Ok(fields + [NEWLINE])
  }

  /** The lines of several rows, one after the other. */
  function RowsText(columns: seq<Column>, rows: seq<Row>): Result<seq<byte>>
    decreases |rows|
  {
    if rows == [] then Ok([])
    else
      var before :- RowsText(columns, rows[..|rows| - 1]);
      var line :- RowText(columns, rows[|rows| - 1]);
      Ok(before + line)
  }

  lemma RowsTextSnoc(columns: seq<Column>, rows: seq<Row>, r: Row)
    ensures RowsText(columns, rows + [r]) ==
              (if RowsText(columns, rows).Err? then RowsText(columns, rows)
               else if RowText(columns, r).Err? then RowText(columns, r)
               else Ok(RowsText(columns, rows).value + RowText(columns, r).value))
  {
    assert (rows + [r])[..|rows|] == rows;
  }

  /** The index of the first byte equal to x, or |s| when there is none. */
  function IndexOf(s: seq<byte>, x: byte): (k: nat)
    ensures k <= |s| && (forall i | 0 <= i < k :: s[i] != x) && (k < |s| ==> s[k] == x)
    decreases |s|
  {
    if s == [] then 0 else if s[0] == x then 0 else 1 + IndexOf(s[1..], x)
  }

  /** Where a request line ends: the first newline, or the end. */
  function NewlineAt(s: seq<byte>): (k: nat)
    ensures k <= |s| && (forall i | 0 <= i < k :: s[i] != NEWLINE) && (k < |s| ==> s[k] == NEWLINE)
  {
    IndexOf(s, NEWLINE)
  }

  /** How a client splits a line into its comma-terminated fields. */
  function SplitFields(s: seq<byte>): seq<seq<byte>>
    decreases |s|
  {
    var k := IndexOf(s, COMMA);
    if k == |s| then [] else [s[..k]] + SplitFields(s[k + 1..])
  }

  predicate Clean(s: seq<byte>) { forall i | 0 <= i < |s| :: s[i] != COMMA }

  /** The texts of the first n projected values. */
  function ValueTexts(columns: seq<Column>, n: nat, r: Row): (ts: seq<seq<byte>>)
    requires n <= |columns| && FieldsText(columns, n, r).Ok?
    ensures |ts| == n
    decreases n
  {
    if n == 0 then []
    else ValueTexts(columns, n - 1, r) + [ValueText(GetValueForColumn(r, columns[n - 1]).value)]
  }

  /** Splitting comma-terminated fields that hold no comma gives them back. */
  lemma {:induction false} SplitJoined(ts: seq<seq<byte>>, rest: seq<byte>)
    requires forall i | 0 <= i < |ts| :: Clean(ts[i])
    requires Clean(rest)
    ensures SplitFields(Joined(ts) + rest) == ts
    decreases |ts|
  {
    if ts == [] {
      assert Joined(ts) + rest == rest;
      assert IndexOf(rest, COMMA) == |rest|;
    } else {
      var s := Joined(ts) + rest;
      var t := ts[0];
      var after := Joined(ts[1..]) + rest;
      assert s == t + [COMMA] + after by { JoinedHead(ts); }
      IndexOfClean(t, after);
      assert s[..|t|] == t;
      assert s[|t| + 1..] == after;
      SplitJoined(ts[1..], rest);
      assert SplitFields(s) == [t] + SplitFields(after);
      assert ts == [t] + ts[1..];
    }
  }

  /** Each text followed by a comma. */
  function Joined(ts: seq<seq<byte>>): seq<byte>
    decreases |ts|
  {
    if ts == [] then [] else Joined(ts[..|ts| - 1]) + ts[|ts| - 1] + [COMMA]
  }

  lemma {:induction false} JoinedHead(ts: seq<seq<byte>>)
    requires ts != []
    ensures Joined(ts) == ts[0] + [COMMA] + Joined(ts[1..])
    decreases |ts|
  {
    if |ts| > 1 {
      JoinedHead(ts[..|ts| - 1]);
      assert ts[..|ts| - 1][1..] == ts[1..][..|ts| - 2];
    } else {
      assert ts[1..] == [];
    }
  }

  lemma IndexOfClean(t: seq<byte>, u: seq<byte>)
    requires Clean(t)
    ensures IndexOf(t + [COMMA] + u, COMMA) == |t|
  {
    var s := t + [COMMA] + u;
    assert s[|t|] == COMMA;
    assert forall i | 0 <= i < |t| :: s[i] == t[i];
  }

  lemma {:induction false} FieldsJoined(columns: seq<Column>, n: nat, r: Row)
    requires n <= |columns| && FieldsText(columns, n, r).Ok?
    ensures FieldsText(columns, n, r).value == Joined(ValueTexts(columns, n, r))
    decreases n
  {
    if n > 0 {
      FieldsJoined(columns, n - 1, r);
      var ts := ValueTexts(columns, n, r);
      assert ts[..n - 1] == ValueTexts(columns, n - 1, r);
    }
  }

  /** A client reading a response line back: when no projected value holds a
      comma, splitting the line before its newline yields each column's
      value text, in column order. */
  lemma RowTextSplits(columns: seq<Column>, r: Row)
    requires RowText(columns, r).Ok?
    requires forall i | 0 <= i < |columns| :: Clean(ValueTexts(columns, |columns|, r)[i])
    ensures var t := RowText(columns, r).value;
            SplitFields(t[..|t| - 1]) == ValueTexts(columns, |columns|, r)
            && forall i | 0 <= i < |columns| ::
                 GetValueForColumn(r, columns[i]).Ok?
                 && ValueTexts(columns, |columns|, r)[i] == ValueText(GetValueForColumn(r, columns[i]).value)
  {
    var t := RowText(columns, r).value;
    FieldsJoined(columns, |columns|, r);
    assert t[..|t| - 1] == Joined(ValueTexts(columns, |columns|, r)) + [];
    SplitJoined(ValueTexts(columns, |columns|, r), []);
    ValueTextsAt(columns, |columns|, r);
  }

  lemma {:induction false} ValueTextsAt(columns: seq<Column>, n: nat, r: Row)
    requires n <= |columns| && FieldsText(columns, n, r).Ok?
    ensures forall i | 0 <= i < n :: GetValueForColumn(r, columns[i]).Ok?
                                     && ValueTexts(columns, n, r)[i] == ValueText(GetValueForColumn(r, columns[i]).value)
    decreases n
  {
    if n > 0 {
      ValueTextsAt(columns, n - 1, r);
    }
  }

  /** Number and boolean texts never hold a comma. */
  lemma FixedTextsClean(v: Value)
    requires !v.StrValue?
    ensures Clean(ValueText(v))
  {
    if v.BoolValue? {
      Utf8Ascii("true");
      Utf8Ascii("false");
    }
  }

  // ---------------------------------------------------------------------
  // handing the buffer to the channel

  /** The bytes a buffer still has to hand out. */
  function Pending(b: BufferState): seq<byte>
    requires b.Valid()
  {
    b.data[b.position..b.limit]
  }

  /** How many bytes a write takes: what the channel accepts, at most what remains. */
  function Taken(accepted: nat, available: nat): (k: nat)
    ensures k <= available && (k == accepted || k == available)
  {
    if accepted < available then accepted else available
  }

  /** channel.write(buffer) when the channel accepts up to `accepted` bytes:
      the bytes sent, and the buffer moved past them. */
  function Write(b: BufferState, accepted: nat): (r: (seq<byte>, BufferState))
    requires b.Valid()
    ensures r.1.Valid() && r.1.data == b.data && r.1.limit == b.limit
    ensures r.0 + Pending(r.1) == Pending(b)
  {
    var k := Taken(accepted, b.limit - b.position);
    (b.data[b.position..b.position + k], b.(position := b.position + k))
  }

  /** The response writer's send step as written: flip the filled buffer and
      write from it.  Nothing turns the buffer back for filling. */
  function SendAsWritten(b: BufferState, accepted: nat): (r: (seq<byte>, BufferState))
    requires b.Valid()
    ensures r.1.Valid()
  {
    Write(Flip(b), accepted)
  }

  /** The send step corrected: after the write, compact, so that the unsent
      bytes move to the front and the buffer is ready to be filled after them. */
  function SendCorrected(b: BufferState, accepted: nat): (r: (seq<byte>, BufferState))
    requires b.Valid()
    ensures r.1.Valid()
  {
    var (out, f) := Write(Flip(b), accepted);
    (out, Compact(f))
  }

  /** With the correction, what was pending before a fill, then the text the
      fill added, is exactly what went out followed by what is pending after:
      no byte is lost, repeated or reordered, and the buffer is again ready
      to be filled. */
  lemma CorrectedKeepsOrder(b: BufferState, text: seq<byte>, accepted: nat)
    requires b.Valid() && b.limit == |b.data| && |text| <= Remaining(b)
    ensures var (out, c) := SendCorrected(Put(b, text).value, accepted);
            c.limit == |c.data| == |b.data|
            && out + c.data[..c.position] == b.data[..b.position] + text
  {
    var p := Put(b, text).value;
    PutContents(b, text);
    assert Pending(Flip(p)) == p.data[..p.position];
    assert p.data[..p.position] == b.data[..b.position] + text;
    var (out, f) := Write(Flip(p), accepted);
    var c := Compact(f);
    assert c.data[..c.position] == Pending(f);
  }

  /** As written, a chunk the channel took in full goes out again: the next
      process() cannot fill (no space remains before the limit), and its flip
      makes the same bytes pending once more. */
  lemma AsWrittenResends(b: BufferState, text: seq<byte>, accepted: nat)
    requires b.Valid() && b.position == 0 && b.limit == |b.data|
    requires 0 < |text| <= Remaining(b) && |text| <= accepted
    ensures var (out, c) := SendAsWritten(Put(b, text).value, accepted);
            out == text && Pending(c) == [] && Remaining(c) == 0
            && SendAsWritten(c, accepted).0 == text
  {
    PutContents(b, text);
  }

  /** A concrete instance: one response line "1,\n" in a buffer of four bytes
      is sent twice. */
  lemma AsWrittenResendsExample()
    ensures var b := Allocate(4);
            var line: seq<byte> := [ZERO + 1, COMMA, NEWLINE];
            var (out, c) := SendAsWritten(Put(b, line).value, 4);
            out == line && SendAsWritten(c, 4).0 == line
  {
    AsWrittenResends(Allocate(4), [ZERO + 1, COMMA, NEWLINE], 4);
  }
}
