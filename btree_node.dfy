/** The on-disk node record of the B-tree index: the index geometry read from
    the file header, the fixed layout of one node, and `load`/`store` of a
    node through the index's single node buffer. */
module BTreeNodes {
  import opened Results
  import opened Bytes
  import opened Buffers

  const VALUE_SIZE: int := 8
  const LOCATION_SIZE: int := 8
  /** The header: minimum degree (4 bytes), key size (4 bytes), root location (8 bytes). */
  const HEADER_SIZE: int := 4 + 4 + LOCATION_SIZE

  /** The two header numbers every node size depends on. */
  datatype Geometry = Geometry(minimumDegree: Int32, keySize: Int32)

  /** getMaxKeys() = 2t - 1, in 32-bit arithmetic. */
  function MaxKeys(g: Geometry): Int32 { Wrap32(2 * g.minimumDegree - 1) }

  /** getMaxChildren() = 2t, in 32-bit arithmetic. */
  function MaxChildren(g: Geometry): Int32 { Wrap32(2 * g.minimumDegree) }

  /** The node size computed by the index constructor, in 32-bit arithmetic.
      Wrapping once at the end gives what Java's step-by-step wrapping gives,
      since reduction modulo 2^32 commutes with + and *. */
  function NodeSize(g: Geometry): Int32
  {
    Wrap32(4 + MaxKeys(g) * (8 + g.keySize) + MaxKeys(g) * VALUE_SIZE
           + MaxChildren(g) * LOCATION_SIZE + 1)
  }

  /** A geometry whose sizes do not overflow: at least one key per node, a
      non-negative key size and a node size that fits an `int`. */
  predicate Sane(g: Geometry)
  {
    var t := g.minimumDegree;
    1 <= t && 0 <= g.keySize
    && 4 + (2 * t - 1) * (8 + g.keySize) + (2 * t - 1) * VALUE_SIZE + 2 * t * LOCATION_SIZE + 1 < TWO_31
  }

  lemma SaneGeometry(g: Geometry)
    requires Sane(g)
    ensures MaxKeys(g) == 2 * g.minimumDegree - 1 && MaxChildren(g) == MaxKeys(g) + 1
    ensures NodeSize(g) == 4 + MaxKeys(g) * (8 + g.keySize) + MaxKeys(g) * VALUE_SIZE
                           + MaxChildren(g) * LOCATION_SIZE + 1
    ensures NodeSize(g) >= 37
  {
    var t := g.minimumDegree;
    var mk := 2 * t - 1;
    var keyBytes := mk * (8 + g.keySize);
    MulNonNegative(mk, 8 + g.keySize);
    assert 32 * t - 3 <= 4 + keyBytes + mk * 8 + 2 * t * 8 + 1 < TWO_31;
    assert MaxKeys(g) == mk;
    assert MaxChildren(g) == 2 * t;
    assert MaxKeys(g) * (8 + g.keySize) == keyBytes;
  }

  lemma MulNonNegative(x: int, y: int)
    requires 0 <= x && 0 <= y
    ensures 0 <= x * y
  {
  }

  lemma MulStep(n: nat, a: nat, b: nat)
    requires a < b
    ensures n * a + n <= n * b
  {
    assert n * b == n * a + n * (b - a);
    MulNonNegative(n, b - a - 1);
    assert n * (b - a) == n + n * (b - a - 1);
  }

  /** Node `loc` starts at HEADER_SIZE + nodeSize * loc, in 64-bit arithmetic. */
  function NodeOffset(g: Geometry, loc: Int64): Int64
  {
    Wrap64(HEADER_SIZE + NodeSize(g) * loc)
  }

  /** Under a sane geometry, distinct non-negative locations hold disjoint
      records, laid out one after the other from the end of the header. */
  lemma NodeOffsetsDisjoint(g: Geometry, loc1: Int64, loc2: Int64)
    requires Sane(g) && 0 <= loc1 < loc2 && HEADER_SIZE + NodeSize(g) * (loc2 + 1) < TWO_63
    ensures NodeOffset(g, loc1) == HEADER_SIZE + NodeSize(g) * loc1
    ensures NodeOffset(g, loc2) == HEADER_SIZE + NodeSize(g) * loc2
    ensures HEADER_SIZE <= NodeOffset(g, loc1)
    ensures NodeOffset(g, loc1) + NodeSize(g) <= NodeOffset(g, loc2)
  {
    SaneGeometry(g);
    var n := NodeSize(g);
    MulNonNegative(n, loc1);
    MulStep(n, loc1, loc2);
    MulStep(n, loc2, loc2 + 1);
  }

  /** A key is a Java byte array. */
  type Key = k: seq<byte> | |k| < TWO_31

  /** One node record.  A node loaded from the file holds all getMaxKeys()
      key and value slots and getMaxChildren() child slots; the first
      `numKeys` keys are the live ones. */
  datatype Node = Node(numKeys: Int32, keys: seq<Key>, values: seq<Int64>, children: seq<Int64>, isLeaf: bool)

  /** The node has exactly the slots its geometry gives it. */
  predicate Fitted(g: Geometry, n: Node)
  {
    |n.keys| == MaxKeys(g) && |n.values| == MaxKeys(g) && |n.children| == MaxChildren(g)
  }

  /** The fields of the record layout, in file order. */
  datatype Slot = IntSlot | KeySlot | LongSlot | ByteSlot
  datatype Field = IntField(i: Int32) | KeyField(k: Key) | LongField(l: Int64) | ByteField(b: byte)

  function SlotOf(f: Field): Slot
  {
    match f
    case IntField(_) => IntSlot
    case KeyField(_) => KeySlot
    case LongField(_) => LongSlot
    case ByteField(_) => ByteSlot
  }

  /** A key slot is an 8-byte length followed by keySize bytes. */
  function SlotSize(s: Slot, keySize: int): int
  {
    match s
    case IntSlot => 4
    case KeySlot => 8 + keySize
    case LongSlot => 8
    case ByteSlot => 1
  }

  function SlotsSize(slots: seq<Slot>, keySize: int): int
  {
    if slots == [] then 0 else SlotSize(slots[0], keySize) + SlotsSize(slots[1..], keySize)
  }

  function FieldsSize(fields: seq<Field>, keySize: int): (n: int)
    ensures keySize >= 0 ==> n >= 0
  {
    if fields == [] then 0 else SlotSize(SlotOf(fields[0]), keySize) + FieldsSize(fields[1..], keySize)
  }

  /** Every key among the fields fits its slot. */
  predicate KeysFit(fields: seq<Field>, keySize: int)
  {
    forall j | 0 <= j < |fields| :: fields[j].KeyField? ==> |fields[j].k| <= keySize
  }

  predicate Matches(slots: seq<Slot>, fields: seq<Field>)
  {
    |slots| == |fields| && forall j | 0 <= j < |slots| :: slots[j] == SlotOf(fields[j])
  }

  /** The record layout: numKeys, the key slots, the values, the children,
      the leaf flag. */
  function Layout(g: Geometry): (slots: seq<Slot>)
    requires MaxKeys(g) >= 0 && MaxChildren(g) >= 0
    ensures |slots| == 2 + 2 * MaxKeys(g) + MaxChildren(g)
  {
    [IntSlot] + seq(MaxKeys(g), _ => KeySlot) + seq(MaxKeys(g), _ => LongSlot)
    + seq(MaxChildren(g), _ => LongSlot) + [ByteSlot]
  }

  /** Reading one field at the buffer position.  A key slot reads its length
      as `(int) getLong()`, refuses a negative one (NegativeArraySizeException),
      reads that many bytes and moves to the end of the slot. */
  function GetField(s: Slot, keySize: Int32, b: BufferState): (r: Result<(Field, BufferState)>)
    requires b.Valid()
    ensures r.Ok? ==> SlotOf(r.value.0) == s && r.value.1.Valid() && r.value.1.data == b.data
                      && r.value.1.limit == b.limit
    ensures r.Ok? && b.limit < TWO_31 ==> r.value.1.position == b.position + SlotSize(s, keySize)
  {
    match s
    case IntSlot =>
      (match GetInt(b)
       case Err(e) => Err(e)
       case Ok((x, b1)) => Ok((IntField(x), b1)))
    case LongSlot =>
      (match GetLong(b)
       case Err(e) => Err(e)
       case Ok((x, b1)) => Ok((LongField(x), b1)))
    case ByteSlot =>
      (match GetByte(b)
       case Err(e) => Err(e)
       case Ok((x, b1)) => Ok((ByteField(x), b1)))
    case KeySlot => GetKey(keySize, b)
  }

  function GetKey(keySize: Int32, b: BufferState): (r: Result<(Field, BufferState)>)
    requires b.Valid()
    ensures r.Ok? ==> r.value.0.KeyField? && r.value.1.Valid() && r.value.1.data == b.data
                      && r.value.1.limit == b.limit
    ensures r.Ok? && b.limit < TWO_31 ==> r.value.1.position == b.position + 8 + keySize
  {
    var p := b.position;
    if b.limit - p < 8 then Err(BufferUnderflow)
    else
      var length := Wrap32(Int64At(b.data, p));
      if length < 0 then Err(NegativeArraySize)
      else if length > b.limit - (p + 8) then Err(BufferUnderflow)
      else
        var end := Wrap32(p + 8 + length + (keySize - length));
        if end < 0 || end > b.limit then Err(IllegalArgument)
        else Ok((KeyField(b.data[p + 8..p + 8 + length]), b.(position := end)))
  }

  /** Reading the fields of `slots` in order, stopping at the first failure. */
  function GetFields(slots: seq<Slot>, keySize: Int32, b: BufferState): (r: Result<(seq<Field>, BufferState)>)
    requires b.Valid()
    ensures r.Ok? ==> Matches(slots, r.value.0) && r.value.1.Valid() && r.value.1.data == b.data
                      && r.value.1.limit == b.limit
  {
    if slots == [] then Ok(([], b))
    else
      match GetField(slots[0], keySize, b)
      case Err(e) => Err(e)
      case Ok((f, b1)) =>
        match GetFields(slots[1..], keySize, b1)
        case Err(e) => Err(e)
        case Ok((fs, b2)) => Ok(([f] + fs, b2))
  }

  /** Writing one field at the buffer position; a key slot writes the 8-byte
      length, the key bytes, and moves to the end of the slot without writing
      the unused tail. */
  function PutField(f: Field, keySize: Int32, b: BufferState): (r: Result<BufferState>)
    requires b.Valid()
    ensures r.Ok? ==> r.value.Valid() && |r.value.data| == |b.data| && r.value.limit == b.limit
    ensures r.Ok? && b.limit < TWO_31 ==> r.value.position == b.position + SlotSize(SlotOf(f), keySize)
  {
    match f
    case IntField(x) => PutInt(b, x)
    case LongField(x) => PutLong(b, x)
    case ByteField(x) => PutByte(b, x)
    case KeyField(k) => PutKey(k, keySize, b)
  }

  function PutKey(k: Key, keySize: Int32, b: BufferState): (r: Result<BufferState>)
    requires b.Valid()
    ensures r.Ok? ==> r.value.Valid() && |r.value.data| == |b.data| && r.value.limit == b.limit
    ensures r.Ok? && b.limit < TWO_31 ==> r.value.position == b.position + 8 + keySize
  {
    match PutLong(b, |k|)
    case Err(e) => Err(e)
    case Ok(b1) =>
      match Put(b1, k)
      case Err(e) => Err(e)
      case Ok(b2) => SetPosition(b2, Wrap32(b2.position + (keySize - |k|)))
  }

  function PutFields(fields: seq<Field>, keySize: Int32, b: BufferState): (r: Result<BufferState>)
    requires b.Valid()
    ensures r.Ok? ==> r.value.Valid() && |r.value.data| == |b.data| && r.value.limit == b.limit
    ensures r.Ok? && b.limit < TWO_31 ==> r.value.position == b.position + FieldsSize(fields, keySize)
  {
    if fields == [] then Ok(b)
    else
      match PutField(fields[0], keySize, b)
      case Err(e) => Err(e)
      case Ok(b1) => PutFields(fields[1..], keySize, b1)
  }

  function IntOf(f: Field): Int32 { if f.IntField? then f.i else 0 }
  function KeyOf(f: Field): Key { if f.KeyField? then f.k else [] }
  function LongOf(f: Field): Int64 { if f.LongField? then f.l else 0 }
  function ByteOf(f: Field): byte { if f.ByteField? then f.b else 0 }

  function KeysOf(fs: seq<Field>): (r: seq<Key>)
    ensures |r| == |fs| && forall j | 0 <= j < |fs| :: r[j] == KeyOf(fs[j])
  {
    if fs == [] then [] else [KeyOf(fs[0])] + KeysOf(fs[1..])
  }

  function LongsOf(fs: seq<Field>): (r: seq<Int64>)
    ensures |r| == |fs| && forall j | 0 <= j < |fs| :: r[j] == LongOf(fs[j])
  {
    if fs == [] then [] else [LongOf(fs[0])] + LongsOf(fs[1..])
  }

  /** The node whose record has these fields (a non-zero leaf byte is true). */
  function FromFields(g: Geometry, fs: seq<Field>): (n: Node)
    requires MaxKeys(g) >= 0 && MaxChildren(g) >= 0 && |fs| == 2 + 2 * MaxKeys(g) + MaxChildren(g)
    ensures Fitted(g, n)
  {
    var mk := MaxKeys(g);
    Node(IntOf(fs[0]), KeysOf(fs[1..1 + mk]), LongsOf(fs[1 + mk..1 + 2 * mk]),
         LongsOf(fs[1 + 2 * mk..|fs| - 1]), ByteOf(fs[|fs| - 1]) != 0)
  }

  function KeyFields(keys: seq<Key>): (fs: seq<Field>)
    ensures |fs| == |keys| && forall j | 0 <= j < |keys| :: fs[j] == KeyField(keys[j])
  {
    if keys == [] then [] else [KeyField(keys[0])] + KeyFields(keys[1..])
  }

  function LongFields(xs: seq<Int64>): (fs: seq<Field>)
    ensures |fs| == |xs| && forall j | 0 <= j < |xs| :: fs[j] == LongField(xs[j])
  {
    if xs == [] then [] else [LongField(xs[0])] + LongFields(xs[1..])
  }

  /** The fields `store` writes for a node. */
  function ToFields(n: Node): seq<Field>
  {
    [IntField(n.numKeys)] + KeyFields(n.keys) + LongFields(n.values) + LongFields(n.children)
    + [ByteField(if n.isLeaf then 1 else 0)]
  }

  /** Every key of the node fits a key slot. */
  predicate KeysWithin(g: Geometry, n: Node)
  {
    forall j | 0 <= j < |n.keys| :: |n.keys[j]| <= g.keySize
  }

  /** How many bytes FileChannel.read(buffer, pos) transfers into a buffer
      with `room` bytes free from a file of these bytes: -1 at or past the
      end, otherwise as many as both allow. */
  function FileRead(file: seq<byte>, pos: nat, room: nat): int
  {
    if pos >= |file| then -1 else if |file| - pos < room then |file| - pos else room
  }

  /** fetchNode(loc): a new BTreeNode, then load(): read the record, then
      decode it from the flipped node buffer. */
  function Load(file: seq<byte>, g: Geometry, loc: Int64): (r: Result<Node>)
    ensures r.Ok? ==> Fitted(g, r.value)
  {
    match ReadRecord(file, g, loc)
    case Err(e) => Err(e)
    case Ok(record) => DecodeNode(g, record)
  }

  /** The reading half of load(): nodeSize bytes at the node's offset, anything
      shorter being a DeserializationException.  A negative node size means the
      node buffer could never be allocated (IllegalArgumentException in the
      index constructor); negative slot counts make the node's arrays fail to
      allocate. */
  function ReadRecord(file: seq<byte>, g: Geometry, loc: Int64): (r: Result<seq<byte>>)
    ensures r.Ok? ==> MaxKeys(g) >= 0 && MaxChildren(g) >= 0 && |r.value| == NodeSize(g)
  {
    if NodeSize(g) < 0 then Err(IllegalArgument)
    else if MaxKeys(g) < 0 || MaxChildren(g) < 0 then Err(NegativeArraySize)
    else
      var n := NodeSize(g);
      var pos := NodeOffset(g, loc);
      if pos < 0 then Err(IllegalArgument)
      else if FileRead(file, pos, n) != n then Err(Deserialization)
      else Ok(file[pos..pos + n])
  }

  /** Decoding a whole record read into the flipped node buffer. */
  function DecodeNode(g: Geometry, record: seq<byte>): (r: Result<Node>)
    requires MaxKeys(g) >= 0 && MaxChildren(g) >= 0
    ensures r.Ok? ==> Fitted(g, r.value)
  {
    match GetFields(Layout(g), g.keySize, BufferState(Memory(record), 0, |record|))
    case Err(e) => Err(e)
    case Ok((fs, _)) => Ok(FromFields(g, fs))
  }

  /** FileChannel.write(buffer, pos): the buffer's remaining bytes replace the
      file's bytes from `pos`, growing the file when they reach past its end
      (a gap before `pos` reads as zeros). Returns the count and the new file. */
  function FileWrite(file: seq<byte>, pos: nat, b: BufferState): (r: (int, seq<byte>))
    requires b.Valid()
    ensures r.0 == Remaining(b)
    ensures r.0 > 0 ==> |r.1| >= pos + r.0 && r.1[pos..pos + r.0] == b.data[b.position..b.limit]
                        && r.1[..pos] == (file + seq(pos, _ => 0 as byte))[..pos]
    ensures r.0 == 0 ==> r.1 == file
  {
    var bytes := b.data[b.position..b.limit];
    if bytes == [] then (0, file)
    else
      var padded := file + seq(pos, _ => 0 as byte);
      var after := if pos + |bytes| <= |file| then file[pos + |bytes|..] else [];
      (|bytes|, padded[..pos] + bytes + after)
  }

  /** BTreeNode.store() as written: the record is put into the cleared node
      buffer, which is then handed to the channel without a flip, so the
      channel sees the buffer's remaining bytes from the end of the record. */
  function StoreAsWritten(file: seq<byte>, g: Geometry, loc: Int64, n: Node, nodeBuffer: BufferState)
    : (r: Result<seq<byte>>)
    requires nodeBuffer.Valid()
  {
    match PutFields(ToFields(n), g.keySize, Clear(nodeBuffer))
    case Err(e) => Err(e)
    case Ok(b) =>
      var pos := NodeOffset(g, loc);
      if pos < 0 then Err(IllegalArgument)
      else
        var (count, file') := FileWrite(file, pos, b);
        if count != NodeSize(g) then Err(Serialization) else Ok(file')
  }

  /** store() with the flip that hands the channel the record just written. */
  function Store(file: seq<byte>, g: Geometry, loc: Int64, n: Node, nodeBuffer: BufferState)
    : (r: Result<seq<byte>>)
    requires nodeBuffer.Valid()
  {
    match PutFields(ToFields(n), g.keySize, Clear(nodeBuffer))
    case Err(e) => Err(e)
    case Ok(b) =>
      var pos := NodeOffset(g, loc);
      if pos < 0 then Err(IllegalArgument)
      else
        var (count, file') := FileWrite(file, pos, Flip(b));
        if count != NodeSize(g) then Err(Serialization) else Ok(file')
  }

  /** Writing a field and reading it back from the same position gives the
      field and the same end state. */
  lemma FieldRoundTrip(f: Field, keySize: Int32, b: BufferState)
    requires b.Valid() && b.limit < TWO_31 && 0 <= keySize && KeysFit([f], keySize)
    requires PutField(f, keySize, b).Ok?
    ensures var e := PutField(f, keySize, b).value;
            GetField(SlotOf(f), keySize, e.(position := b.position)) == Ok((f, e))
  {
    match f
    case IntField(x) => IntRoundTrip(x, keySize, b);
    case LongField(x) => LongRoundTrip(x, keySize, b);
    case ByteField(x) => ByteRoundTrip(x, keySize, b);
    case KeyField(k) =>
      assert [f][0] == f;
      KeyRoundTrip(k, keySize, b);
  }

  lemma KeyRoundTrip(k: Key, keySize: Int32, b: BufferState)
    requires b.Valid() && b.limit < TWO_31 && |k| <= keySize && PutKey(k, keySize, b).Ok?
    ensures var e := PutKey(k, keySize, b).value;
            GetKey(keySize, e.(position := b.position)) == Ok((KeyField(k), e))
  {
    KeyWritten(k, keySize, b);
    var e := PutKey(k, keySize, b).value;
    Int64RoundTrip(|k|);
    KeyRead(k, keySize, e.(position := b.position));
  }

  lemma IntRoundTrip(x: Int32, keySize: Int32, b: BufferState)
    requires b.Valid() && PutInt(b, x).Ok?
    ensures var e := PutInt(b, x).value;
            GetField(IntSlot, keySize, e.(position := b.position)) == Ok((IntField(x), e))
  {
    PutIntThenGetInt(b, x);
  }

  lemma LongRoundTrip(x: Int64, keySize: Int32, b: BufferState)
    requires b.Valid() && PutLong(b, x).Ok?
    ensures var e := PutLong(b, x).value;
            GetField(LongSlot, keySize, e.(position := b.position)) == Ok((LongField(x), e))
  {
    PutLongThenGetLong(b, x);
  }

  lemma ByteRoundTrip(x: byte, keySize: Int32, b: BufferState)
    requires b.Valid() && PutByte(b, x).Ok?
    ensures var e := PutByte(b, x).value;
            GetField(ByteSlot, keySize, e.(position := b.position)) == Ok((ByteField(x), e))
  {
    PutThenGet(b, [x]);
    var e := PutByte(b, x).value;
    assert GetByte(e.(position := b.position)) == Ok((x, e));
  }

  /** What a key write leaves: the 8-byte length, then the key bytes, with
      the position at the end of the slot. */
  lemma KeyWritten(k: Key, keySize: Int32, b: BufferState)
    requires b.Valid() && b.limit < TWO_31 && PutKey(k, keySize, b).Ok?
    ensures var e := PutKey(k, keySize, b).value;
            var p := b.position;
            p + 8 + |k| <= e.limit
            && e.data[p..p + 8] == EncodeInt64(|k|) && e.data[p + 8..p + 8 + |k|] == k
            && e.data[..p] == b.data[..p]
  {
    var p := b.position;
    var b1 := PutLong(b, |k|).value;
    PutContents(b, EncodeInt64(|k|));
    PutContents(b1, k);
    var e := PutKey(k, keySize, b).value;
    assert e.data[p..p + 8] == b1.data[p..p + 8] by {
      assert e.data[p..p + 8] == e.data[..p + 8][p..];
      assert b1.data[p..p + 8] == b1.data[..p + 8][p..];
    }
    assert e.data[..p] == b1.data[..p + 8][..p];
  }

  /** Reading a key slot whose length word says |k| and whose bytes are those of `k`. */
  lemma KeyRead(k: Key, keySize: Int32, c: BufferState)
    requires c.Valid() && c.limit < TWO_31 && |k| <= keySize
    requires c.position + 8 + keySize <= c.limit
    requires Wrap32(Int64At(c.data, c.position)) == |k|
    requires c.data[c.position + 8..c.position + 8 + |k|] == k
    ensures GetKey(keySize, c) == Ok((KeyField(k), c.(position := c.position + 8 + keySize)))
  {
  }

  /** What a successful key read has seen. */
  lemma KeyDecoded(keySize: Int32, c: BufferState)
    requires c.Valid() && c.limit < TWO_31 && GetKey(keySize, c).Ok?
    ensures var r := GetKey(keySize, c).value;
            var p := c.position;
            var k := r.0.k;
            p + 8 + |k| <= c.limit && p + 8 + keySize <= c.limit
            && Wrap32(Int64At(c.data, p)) == |k| && c.data[p + 8..p + 8 + |k|] == k
            && r.1 == c.(position := p + 8 + keySize)
  {
  }

  /** Reading a field depends only on the bytes of its slot. */
  lemma GetFieldLocal(s: Slot, keySize: Int32, c1: BufferState, c2: BufferState)
    requires c1.Valid() && c2.Valid() && c1.position == c2.position && c1.limit == c2.limit
    requires c1.limit < TWO_31 && 0 <= keySize
    requires GetField(s, keySize, c1).Ok?
    requires GetField(s, keySize, c1).value.0.KeyField? ==> |GetField(s, keySize, c1).value.0.k| <= keySize
    requires var q := GetField(s, keySize, c1).value.1.position;
             c1.data[c1.position..q] == c2.data[c1.position..q]
    ensures var r := GetField(s, keySize, c1).value;
            GetField(s, keySize, c2) == Ok((r.0, c2.(position := r.1.position)))
  {
    match s
    case IntSlot => WordLocal(s, keySize, c1, c2);
    case LongSlot => WordLocal(s, keySize, c1, c2);
    case ByteSlot => WordLocal(s, keySize, c1, c2);
    case KeySlot => KeySlotLocal(keySize, c1, c2);
  }

  lemma KeySlotLocal(keySize: Int32, c1: BufferState, c2: BufferState)
    requires c1.Valid() && c2.Valid() && c1.position == c2.position && c1.limit == c2.limit
    requires c1.limit < TWO_31 && 0 <= keySize
    requires GetKey(keySize, c1).Ok? && |GetKey(keySize, c1).value.0.k| <= keySize
    requires var q := GetKey(keySize, c1).value.1.position;
             c1.data[c1.position..q] == c2.data[c1.position..q]
    ensures var r := GetKey(keySize, c1).value;
            GetKey(keySize, c2) == Ok((r.0, c2.(position := r.1.position)))
  {
    var r := GetKey(keySize, c1).value;
    KeyDecoded(keySize, c1);
    var p := c1.position;
    assert r.1.position == p + 8 + keySize;
    KeyLocal(r.0.k, keySize, c1, c2);
  }

  /** The fixed-width slots read exactly their own bytes. */
  lemma WordLocal(s: Slot, keySize: Int32, c1: BufferState, c2: BufferState)
    requires s != KeySlot
    requires c1.Valid() && c2.Valid() && c1.position == c2.position && c1.limit == c2.limit
    requires var n := SlotSize(s, keySize);
             c1.position + n <= c1.limit && c1.data[c1.position..c1.position + n] == c2.data[c1.position..c1.position + n]
    ensures GetField(s, keySize, c1).Ok? && GetField(s, keySize, c2).Ok?
    ensures GetField(s, keySize, c2) == Ok((GetField(s, keySize, c1).value.0,
                                             c2.(position := GetField(s, keySize, c1).value.1.position)))
  {
    AtAgree(c1.data, c2.data, c1.position, SlotSize(s, keySize));
  }

  /** A key slot read from bytes that agree, over the slot, with bytes a
      read of `k` has seen. */
  lemma KeyLocal(k: Key, keySize: Int32, c1: BufferState, c2: BufferState)
    requires c1.Valid() && c2.Valid() && c1.position == c2.position && c1.limit == c2.limit
    requires c1.limit < TWO_31 && |k| <= keySize && c1.position + 8 + keySize <= c1.limit
    requires Wrap32(Int64At(c1.data, c1.position)) == |k|
    requires c1.data[c1.position + 8..c1.position + 8 + |k|] == k
    requires var p := c1.position;
             c1.data[p..p + 8 + keySize] == c2.data[p..p + 8 + keySize]
    ensures GetKey(keySize, c2) == Ok((KeyField(k), c2.(position := c2.position + 8 + keySize)))
  {
    var p := c1.position;
    var q := p + 8 + keySize;
    AtAgree(c1.data, c2.data, p, 8 + keySize);
    SubSliceAgree(c1.data, c2.data, p, q, 8, 8 + |k|);
    KeyRead(k, keySize, c2);
  }

  /** A field write changes nothing before the position it starts at. */
  lemma PutFieldKeepsPrefix(f: Field, keySize: Int32, b: BufferState)
    requires b.Valid() && b.limit < TWO_31 && PutField(f, keySize, b).Ok?
    ensures PutField(f, keySize, b).value.data[..b.position] == b.data[..b.position]
  {
    match f
    case IntField(x) => PutContents(b, EncodeInt32(x));
    case LongField(x) => PutContents(b, EncodeInt64(x));
    case ByteField(x) => PutContents(b, [x]);
    case KeyField(k) => KeyWritten(k, keySize, b);
  }

  lemma {:induction false} PutFieldsKeepsPrefix(fields: seq<Field>, keySize: Int32, b: BufferState)
    requires b.Valid() && b.limit < TWO_31 && 0 <= keySize && PutFields(fields, keySize, b).Ok?
    ensures b.position <= PutFields(fields, keySize, b).value.position
    ensures PutFields(fields, keySize, b).value.data[..b.position] == b.data[..b.position]
  {
    if fields != [] {
      var b1 := PutField(fields[0], keySize, b).value;
      PutFieldKeepsPrefix(fields[0], keySize, b);
      PutFieldsKeepsPrefix(fields[1..], keySize, b1);
      var e := PutFields(fields, keySize, b).value;
      assert e.data[..b.position] == e.data[..b1.position][..b.position];
    }
  }

  /** Writing fields in order and reading them back with the matching slots
      gives the same fields and the same end state. */
  lemma {:induction false} FieldsRoundTrip(fields: seq<Field>, slots: seq<Slot>, keySize: Int32, b: BufferState)
    requires b.Valid() && b.limit < TWO_31 && 0 <= keySize
    requires Matches(slots, fields) && KeysFit(fields, keySize) && PutFields(fields, keySize, b).Ok?
    ensures var e := PutFields(fields, keySize, b).value;
            GetFields(slots, keySize, e.(position := b.position)) == Ok((fields, e))
  {
    if fields != [] {
      var p := b.position;
      var b1 := PutField(fields[0], keySize, b).value;
      var e := PutFields(fields, keySize, b).value;
      assert KeysFit([fields[0]], keySize);
      FieldsRoundTrip(fields[1..], slots[1..], keySize, b1);
      FieldRoundTrip(fields[0], keySize, b);
      PutFieldsKeepsPrefix(fields[1..], keySize, b1);
      assert e.data[p..b1.position] == b1.data[p..b1.position] by {
        assert e.data[p..b1.position] == e.data[..b1.position][p..];
        assert b1.data[p..b1.position] == b1.data[..b1.position][p..];
      }
      assert fields[0].KeyField? ==> |fields[0].k| <= keySize;
      GetFieldLocal(slots[0], keySize, b1.(position := p), e.(position := p));
      assert [fields[0]] + fields[1..] == fields;
    }
  }

  lemma {:induction false} FieldsSizeAppend(a: seq<Field>, b: seq<Field>, keySize: int)
    ensures FieldsSize(a + b, keySize) == FieldsSize(a, keySize) + FieldsSize(b, keySize)
  {
    if a != [] {
      assert (a + b)[0] == a[0];
      assert (a + b)[1..] == a[1..] + b;
      FieldsSizeAppend(a[1..], b, keySize);
      calc {
        FieldsSize(a + b, keySize);
        SlotSize(SlotOf(a[0]), keySize) + FieldsSize(a[1..] + b, keySize);
        SlotSize(SlotOf(a[0]), keySize) + FieldsSize(a[1..], keySize) + FieldsSize(b, keySize);
        FieldsSize(a, keySize) + FieldsSize(b, keySize);
      }
    } else {
      assert a + b == b;
    }
  }

  lemma {:induction false} FieldsSizeUniform(fs: seq<Field>, s: Slot, keySize: int)
    requires forall j | 0 <= j < |fs| :: SlotOf(fs[j]) == s
    ensures FieldsSize(fs, keySize) == |fs| * SlotSize(s, keySize)
  {
    if fs != [] {
      FieldsSizeUniform(fs[1..], s, keySize);
      assert (|fs| - 1) * SlotSize(s, keySize) + SlotSize(s, keySize) == |fs| * SlotSize(s, keySize);
    }
  }

  lemma MatchesAppend(s1: seq<Slot>, f1: seq<Field>, s2: seq<Slot>, f2: seq<Field>)
    requires Matches(s1, f1) && Matches(s2, f2)
    ensures Matches(s1 + s2, f1 + f2)
  {
  }

  /** The fields of a fitted node follow the record layout, fill exactly
      nodeSize bytes, and give the node back. */
  lemma NodeFields(g: Geometry, n: Node)
    requires Sane(g) && Fitted(g, n)
    ensures Matches(Layout(g), ToFields(n))
    ensures FieldsSize(ToFields(n), g.keySize) == NodeSize(g)
    ensures FromFields(g, ToFields(n)) == n
    ensures KeysWithin(g, n) ==> KeysFit(ToFields(n), g.keySize)
  {
    SaneGeometry(g);
    NodeMatchesLayout(g, n);
    NodeFieldsSize(g, n);
    FromToFields(g, n);
    if KeysWithin(g, n) {
      var fs := ToFields(n);
      assert forall j | 1 <= j < 1 + |n.keys| :: fs[j] == KeyField(n.keys[j - 1]);
    }
  }

  lemma NodeMatchesLayout(g: Geometry, n: Node)
    requires MaxKeys(g) >= 0 && MaxChildren(g) >= 0 && Fitted(g, n)
    ensures Matches(Layout(g), ToFields(n))
  {
    var mk := MaxKeys(g);
    var head := [IntField(n.numKeys)];
    var kf := KeyFields(n.keys);
    var vf := LongFields(n.values);
    var cf := LongFields(n.children);
    var tail := [ByteField(if n.isLeaf then 1 else 0)];
    var s1 := [IntSlot];
    var s2 := seq(mk, _ => KeySlot);
    var s3 := seq(mk, _ => LongSlot);
    var s4 := seq(MaxChildren(g), _ => LongSlot);
    MatchesAppend(s1, head, s2, kf);
    MatchesAppend(s1 + s2, head + kf, s3, vf);
    MatchesAppend(s1 + s2 + s3, head + kf + vf, s4, cf);
    MatchesAppend(s1 + s2 + s3 + s4, head + kf + vf + cf, [ByteSlot], tail);
  }

  lemma NodeFieldsSize(g: Geometry, n: Node)
    requires Sane(g) && Fitted(g, n)
    ensures FieldsSize(ToFields(n), g.keySize) == NodeSize(g)
  {
    SaneGeometry(g);
    var ks := g.keySize;
    var head := [IntField(n.numKeys)];
    var kf := KeyFields(n.keys);
    var vf := LongFields(n.values);
    var cf := LongFields(n.children);
    var tail := [ByteField(if n.isLeaf then 1 else 0)];
    FieldsSizeUniform(kf, KeySlot, ks);
    FieldsSizeUniform(vf, LongSlot, ks);
    FieldsSizeUniform(cf, LongSlot, ks);
    FieldsSizeAppend(head, kf, ks);
    FieldsSizeAppend(head + kf, vf, ks);
    FieldsSizeAppend(head + kf + vf, cf, ks);
    FieldsSizeAppend(head + kf + vf + cf, tail, ks);
  }

  lemma FromToFields(g: Geometry, n: Node)
    requires MaxKeys(g) >= 0 && MaxChildren(g) >= 0 && Fitted(g, n)
    ensures FromFields(g, ToFields(n)) == n
  {
    var kf := KeyFields(n.keys);
    var vf := LongFields(n.values);
    var cf := LongFields(n.children);
    FromSegments(g, IntField(n.numKeys), kf, vf, cf, ByteField(if n.isLeaf then 1 else 0));
    KeysBack(n.keys);
    LongsBack(n.values);
    LongsBack(n.children);
  }

  /** Decoding a record made of its runs decodes each run. */
  lemma FromSegments(g: Geometry, h: Field, kf: seq<Field>, vf: seq<Field>, cf: seq<Field>, t: Field)
    requires MaxKeys(g) >= 0 && MaxChildren(g) >= 0
    requires |kf| == |vf| == MaxKeys(g) && |cf| == MaxChildren(g)
    ensures FromFields(g, [h] + kf + vf + cf + [t])
            == Node(IntOf(h), KeysOf(kf), LongsOf(vf), LongsOf(cf), ByteOf(t) != 0)
  {
    Segments(h, kf, vf, cf, [t]);
  }

  lemma KeysBack(keys: seq<Key>)
    ensures KeysOf(KeyFields(keys)) == keys
  {
  }

  lemma LongsBack(xs: seq<Int64>)
    ensures LongsOf(LongFields(xs)) == xs
  {
  }

  /** Slicing a record of a head field and four runs of fields back into its runs. */
  lemma Segments(h: Field, b: seq<Field>, c: seq<Field>, d: seq<Field>, e: seq<Field>)
    ensures var s := [h] + b + c + d + e;
            var i, j, k := 1 + |b|, 1 + |b| + |c|, 1 + |b| + |c| + |d|;
            s[0] == h && s[1..i] == b && s[i..j] == c && s[j..k] == d && s[k..] == e
  {
  }

  /** Writing fields that fit the room left succeeds. */
  lemma {:induction false} PutFieldsSucceeds(fields: seq<Field>, keySize: Int32, b: BufferState)
    requires b.Valid() && b.limit < TWO_31 && 0 <= keySize && KeysFit(fields, keySize)
    requires b.position + FieldsSize(fields, keySize) <= b.limit
    ensures PutFields(fields, keySize, b).Ok?
  {
    if fields != [] {
      assert KeysFit(fields[1..], keySize);
      var f := fields[0];
      assert f.KeyField? ==> |f.k| <= keySize;
      var b1 := PutField(f, keySize, b);
      assert b1.Ok?;
      PutFieldsSucceeds(fields[1..], keySize, b1.value);
    }
  }

  /** store() as written never reaches the file: after the record is put, the
      buffer's position is at its limit, so the channel is given no bytes and
      the count check throws. */
  lemma StoreAsWrittenFails(file: seq<byte>, g: Geometry, loc: Int64, n: Node, nodeBuffer: BufferState)
    requires Sane(g) && Fitted(g, n) && nodeBuffer.Valid() && |nodeBuffer.data| == NodeSize(g)
    ensures StoreAsWritten(file, g, loc, n, nodeBuffer).Err?
    ensures KeysWithin(g, n) && NodeOffset(g, loc) >= 0 ==>
              StoreAsWritten(file, g, loc, n, nodeBuffer) == Err(Serialization)
  {
    NodeFields(g, n);
    SaneGeometry(g);
    if KeysWithin(g, n) {
      PutFieldsSucceeds(ToFields(n), g.keySize, Clear(nodeBuffer));
    }
  }

  /** store() followed by load() gives the node back, whatever the node
      buffer held before, when every key fits its slot. */
  lemma StoreThenLoad(file: seq<byte>, g: Geometry, loc: Int64, n: Node, nodeBuffer: BufferState)
    requires Sane(g) && Fitted(g, n) && KeysWithin(g, n)
    requires nodeBuffer.Valid() && |nodeBuffer.data| == NodeSize(g) && NodeOffset(g, loc) >= 0
    ensures Store(file, g, loc, n, nodeBuffer).Ok?
    ensures Load(Store(file, g, loc, n, nodeBuffer).value, g, loc) == Ok(n)
  {
    NodeFields(g, n);
    SaneGeometry(g);
    var b0 := Clear(nodeBuffer);
    PutFieldsSucceeds(ToFields(n), g.keySize, b0);
    StoreWritesRecord(file, g, loc, n, nodeBuffer);
    LoadRecord(Store(file, g, loc, n, nodeBuffer).value, g, loc, n, b0);
  }

  /** A successful corrected store leaves the whole record in the file at the
      node's offset. */
  lemma StoreWritesRecord(file: seq<byte>, g: Geometry, loc: Int64, n: Node, nodeBuffer: BufferState)
    requires Sane(g) && nodeBuffer.Valid() && |nodeBuffer.data| == NodeSize(g) && NodeOffset(g, loc) >= 0
    requires PutFields(ToFields(n), g.keySize, Clear(nodeBuffer)).Ok?
    requires PutFields(ToFields(n), g.keySize, Clear(nodeBuffer)).value.position == NodeSize(g)
    ensures Store(file, g, loc, n, nodeBuffer).Ok?
    ensures var file' := Store(file, g, loc, n, nodeBuffer).value;
            var pos := NodeOffset(g, loc);
            |file'| >= pos + NodeSize(g)
            && file'[pos..pos + NodeSize(g)] == PutFields(ToFields(n), g.keySize, Clear(nodeBuffer)).value.data
  {
    SaneGeometry(g);
  }

  /** A file holding a node's record at its offset loads as that node. */
  lemma LoadRecord(file: seq<byte>, g: Geometry, loc: Int64, n: Node, b0: BufferState)
    requires Sane(g) && Fitted(g, n) && KeysWithin(g, n)
    requires b0.Valid() && b0.position == 0 && b0.limit == |b0.data| == NodeSize(g)
    requires PutFields(ToFields(n), g.keySize, b0).Ok?
    requires NodeOffset(g, loc) >= 0 && |file| >= NodeOffset(g, loc) + NodeSize(g)
    requires file[NodeOffset(g, loc)..NodeOffset(g, loc) + NodeSize(g)]
             == PutFields(ToFields(n), g.keySize, b0).value.data
    ensures Load(file, g, loc) == Ok(n)
  {
    SaneGeometry(g);
    RecordDecodes(g, n, b0);
    ReadWholeRecord(file, g, loc);
  }

  /** The bytes store() puts in the node buffer decode as the node. */
  lemma RecordDecodes(g: Geometry, n: Node, b0: BufferState)
    requires Sane(g) && Fitted(g, n) && KeysWithin(g, n)
    requires b0.Valid() && b0.position == 0 && b0.limit == |b0.data| == NodeSize(g)
    requires PutFields(ToFields(n), g.keySize, b0).Ok?
    ensures DecodeNode(g, PutFields(ToFields(n), g.keySize, b0).value.data) == Ok(n)
  {
    NodeFields(g, n);
    SaneGeometry(g);
    var e := PutFields(ToFields(n), g.keySize, b0).value;
    FieldsRoundTrip(ToFields(n), Layout(g), g.keySize, b0);
    assert BufferState(Memory(e.data), 0, |e.data|) == e.(position := 0);
  }

  /** When the whole record is there, load() reads exactly that record. */
  lemma ReadWholeRecord(file: seq<byte>, g: Geometry, loc: Int64)
    requires NodeSize(g) > 0 && MaxKeys(g) >= 0 && MaxChildren(g) >= 0
    requires NodeOffset(g, loc) >= 0 && |file| >= NodeOffset(g, loc) + NodeSize(g)
    ensures ReadRecord(file, g, loc) == Ok(file[NodeOffset(g, loc)..NodeOffset(g, loc) + NodeSize(g)])
  {
  }

  /** load() refuses a record the file does not hold in full. */
  lemma LoadShortRead(file: seq<byte>, g: Geometry, loc: Int64)
    requires NodeSize(g) >= 0 && MaxKeys(g) >= 0 && MaxChildren(g) >= 0
    requires NodeOffset(g, loc) >= 0 && NodeOffset(g, loc) + NodeSize(g) > |file|
    ensures Load(file, g, loc) == Err(Deserialization)
  {
    assert ReadRecord(file, g, loc) == Err(Deserialization);
  }
}
