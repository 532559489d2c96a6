/** FullScanCursor: a scan over every slot of a table, in id order, through
    a sixteen-row buffer that is refilled once half of it has been read and
    that pushes the filter down, so that rejected rows are never buffered. */
module FullScan {
  import opened Results
  import opened Bytes
  import opened DataTypes
  import opened Tables
  import opened Rows
  import opened Expressions

  const BUFFER_SIZE: nat := 16
  const REFILL_THRESHOLD: nat := BUFFER_SIZE / 2

  /** The ids a scan visits: getTotalCount, or none when that is negative. */
  function Limit(t: Table): (n: nat)
    requires WellFormed(t)
    ensures TotalCount(t) <= n && (n == 0 || n == TotalCount(t))
  {
    if TotalCount(t) < 0 then 0 else TotalCount(t)
  }

  /** Table.fetch, as the function from a slot id to the slot's values. */
  type Fetcher = Int32 -> Result<seq<Value>>

  /** The fetch function of a table: Tables.Fetch, which FetchRow computes. */
  function TableFetch(t: Table): (f: Fetcher)
    requires WellFormed(t)
    ensures forall id: Int32 :: f(id) == Fetch(t, id)
  {
    (id: Int32) => Fetch(t, id)
  }

  /** An installed filter, as what the cursor does with it: evaluate it as
      a boolean on a fetched row. */
  type Judge = Row -> Result<bool>

  /** The filter expression `f`, evaluated as a boolean on a row. */
  function JudgeOf(f: Expression): (j: Judge)
    ensures forall r: Row :: j(r) == EvaluateAsBoolean(f, Some(r))
  {
    (r: Row) => EvaluateAsBoolean(f, Some(r))
  }

  /** What fetchRows does with slot `id`: the fetched row when there is no
      filter or the filter holds on it, nothing when the filter rejects it;
      a failing fetch or a failing evaluation of the filter fails. */
  function Admit(t: Table, fetch: Fetcher, filter: Option<Judge>, id: Int32): (r: Result<Option<Row>>)
    ensures r.Ok? <==> fetch(id).Ok? && (filter.Some? ==> filter.value(Row(t, id, fetch(id).value)).Ok?)
    ensures r.Ok? && r.value.Some? ==> r.value.value == Row(t, id, fetch(id).value)
    ensures r.Ok? ==> (r.value.Some? <==> filter.None? || filter.value(Row(t, id, fetch(id).value)) == Ok(true))
  {
    var values :- fetch(id);
    var row := Row(t, id, values);
    if filter.None? then Ok(Some(row))
    else
      var keep :- filter.value(row);
      Ok(if keep then Some(row) else None)
  }

  /** The rows of slots lo..hi-1 that pass the filter, in id order; the first
      slot whose fetch or filter fails fails the whole range. */
  function Selected(t: Table, fetch: Fetcher, filter: Option<Judge>, lo: nat, hi: nat): Result<seq<Row>>
    requires hi <= TWO_31
    decreases hi
  {
    if hi <= lo then Ok([])
    else
      var before :- Selected(t, fetch, filter, lo, hi - 1);
      var a :- Admit(t, fetch, filter, hi - 1);
      Ok(before + Admitted(a))
  }

  /** The rows an admission contributes: the admitted row, or none. */
  function Admitted(a: Option<Row>): (s: seq<Row>)
    ensures (a.None? <==> s == []) && (a.Some? ==> s == [a.value])
  {
    if a.Some? then [a.value] else []
  }

  /** fetchRows' admission of one slot, by calling fetch and then the filter. */
  method AdmitRow(t: Table, fetch: Fetcher, filter: Option<Judge>, id: Int32) returns (a: Result<Option<Row>>)
    ensures a == Admit(t, fetch, filter, id)
  {
    var values := fetch(id);
    if values.Err? {
      return Err(values.error);
    }
    var row := Row(t, id, values.value);
    if filter.None? {
      return Ok(Some(row));
    }
    var keep := filter.value(row);
    if keep.Err? {
      return Err(keep.error);
    }
    return Ok(if keep.value then Some(row) else None);
  }

  /** A successful range holds, in strictly ascending id order, exactly the
      rows of the range that the filter admits. */
  lemma {:induction false} SelectedRows(t: Table, fetch: Fetcher, filter: Option<Judge>, lo: nat, hi: nat)
    requires hi <= TWO_31 && Selected(t, fetch, filter, lo, hi).Ok?
    ensures var s := Selected(t, fetch, filter, lo, hi).value;
            (forall i, j | 0 <= i < j < |s| :: s[i].id < s[j].id)
            && (forall k | 0 <= k < |s| :: lo <= s[k].id < hi && Admit(t, fetch, filter, s[k].id) == Ok(Some(s[k])))
            && (forall id: Int32 | lo <= id < hi :: Admit(t, fetch, filter, id).Ok?
                  && (Admit(t, fetch, filter, id).value.Some? ==> Admit(t, fetch, filter, id).value.value in s))
    decreases hi
  {
    if lo < hi {
      SelectedRows(t, fetch, filter, lo, hi - 1);
    }
  }

  /** A failing range fails with the error of its first failing slot. */
  lemma {:induction false} SelectedFails(t: Table, fetch: Fetcher, filter: Option<Judge>, lo: nat, hi: nat)
    requires hi <= TWO_31 && Selected(t, fetch, filter, lo, hi).Err?
    ensures exists id: Int32 | lo <= id < hi ::
              Admit(t, fetch, filter, id) == Err(Selected(t, fetch, filter, lo, hi).error)
              && forall k: Int32 | lo <= k < id :: Admit(t, fetch, filter, k).Ok?
    decreases hi
  {
    if Selected(t, fetch, filter, lo, hi - 1).Err? {
      SelectedFails(t, fetch, filter, lo, hi - 1);
    } else {
      SelectedRows(t, fetch, filter, lo, hi - 1);
      var id: Int32 := hi - 1;
      assert Admit(t, fetch, filter, id) == Err(Selected(t, fetch, filter, lo, hi).error);
    }
  }

  /** The buffered slots all hold a row. */
  predicate Filled(s: seq<Option<Row>>)
  {
    forall i | 0 <= i < |s| :: s[i].Some?
  }

  /** The rows held by filled slots. */
  function Unwrap(s: seq<Option<Row>>): (rs: seq<Row>)
    requires Filled(s)
    ensures |rs| == |s| && forall i | 0 <= i < |s| :: s[i] == Some(rs[i])
  {
    seq(|s|, i requires 0 <= i < |s| => s[i].value)
  }

  lemma UnwrapSnoc(s: seq<Option<Row>>, row: Row)
    requires Filled(s)
    ensures Filled(s + [Some(row)]) && Unwrap(s + [Some(row)]) == Unwrap(s) + [row]
  {
    assert Filled(s + [Some(row)]);
    assert Unwrap(s + [Some(row)]) == Unwrap(s) + [row];
  }

  lemma UnwrapDrop(s: seq<Option<Row>>)
    requires Filled(s) && |s| > 0
    ensures Filled(s[1..]) && Unwrap(s) == [s[0].value] + Unwrap(s[1..])
  {
    assert Unwrap(s) == [s[0].value] + Unwrap(s[1..]);
  }

  /** System.arraycopy(a, src, a, dst, len) within one array, towards its
      front: the `len` elements from `src` move to `dst` and every other
      element stays. */
  method CopyWithin<T>(a: array<T>, src: nat, dst: nat, len: nat)
    requires dst <= src && src + len <= a.Length
    modifies a
    ensures forall k | 0 <= k < a.Length :: a[k] == if dst <= k < dst + len then old(a[k - dst + src]) else old(a[k])
  {
    var i := 0;
    while i < len
      invariant 0 <= i <= len
      invariant forall k | 0 <= k < a.Length :: a[k] == if dst <= k < dst + i then old(a[k - dst + src]) else old(a[k])
    {
      a[dst + i] := a[src + i];
      i := i + 1;
    }
  }

  /** The rows a run of admissions contributes, in order. */
  function Flatten(adms: seq<Option<Row>>): (s: seq<Row>)
    ensures |s| <= |adms|
  {
    if adms == [] then [] else Flatten(adms[..|adms| - 1]) + Admitted(adms[|adms| - 1])
  }

  lemma FlattenSnoc(adms: seq<Option<Row>>, a: Option<Row>)
    ensures Flatten(adms + [a]) == Flatten(adms) + Admitted(a)
  {
    assert (adms + [a])[..|adms|] == adms;
  }

  /** The admissions are the filter's verdicts on consecutive slots from `lo`. */
  predicate AdmitsFrom(t: Table, fetch: Fetcher, filter: Option<Judge>, lo: nat, adms: seq<Option<Row>>)
  {
    lo + |adms| <= TWO_31 && forall id: Int32 | lo <= id < lo + |adms| :: Admit(t, fetch, filter, id) == Ok(adms[id - lo])
  }

  lemma AdmitsSnoc(t: Table, fetch: Fetcher, filter: Option<Judge>, lo: nat, adms: seq<Option<Row>>, a: Option<Row>)
    requires AdmitsFrom(t, fetch, filter, lo, adms) && lo + |adms| < TWO_31
    requires Admit(t, fetch, filter, lo + |adms|) == Ok(a)
    ensures AdmitsFrom(t, fetch, filter, lo, adms + [a])
  {
    forall id: Int32 | lo <= id < lo + |adms| + 1
      ensures Admit(t, fetch, filter, id) == Ok((adms + [a])[id - lo])
    {
      if id < lo + |adms| {
        assert (adms + [a])[id - lo] == adms[id - lo];
      }
    }
  }

  /** The verdicts on a run of slots give that run's selection. */
  lemma {:induction false} AdmissionsSelect(t: Table, fetch: Fetcher, filter: Option<Judge>, lo: nat, adms: seq<Option<Row>>)
    requires AdmitsFrom(t, fetch, filter, lo, adms)
    ensures Selected(t, fetch, filter, lo, lo + |adms|) == Ok(Flatten(adms))
    decreases |adms|
  {
    if adms != [] {
      var n := |adms| - 1;
      assert AdmitsFrom(t, fetch, filter, lo, adms[..n]) by {
        forall id: Int32 | lo <= id < lo + n
          ensures Admit(t, fetch, filter, id) == Ok(adms[..n][id - lo])
        {
          assert adms[..n][id - lo] == adms[id - lo];
        }
      }
      AdmissionsSelect(t, fetch, filter, lo, adms[..n]);
      var last: Int32 := lo + n;
      assert Admit(t, fetch, filter, last) == Ok(adms[n]);
    }
  }

  class FullScanCursor {
    const table: Table
    /** The table's fetch, from a slot id to the slot's values. */
    const fetch: Fetcher
    /** getTotalCount(), which stays the same while the cursor scans. */
    const total: Int32
    /** The row buffer; the slots from `readBufferHead` up to
        `writeBufferHead` hold the rows not yet read out. */
    const rows: array<Option<Row>>
    /** How many slots of the buffer have been written. */
    var writeBufferHead: int
    /** How many slots of the buffer have been read out. */
    var readBufferHead: int
    /** The next slot id to fetch. */
    var writeIndex: int
    /** How many rows have been read out or skipped. */
    var readIndex: int
    /** The installed filter, if any. */
    var filter: Option<Judge>

    /** The rows getNext has returned, in order. */
    ghost var emitted: seq<Row>
    /** The rows buffered under the filters in force before the current one. */
    ghost var earlier: seq<Row>
    /** The value of writeIndex when the current filter was installed. */
    ghost var since: nat
    /** The current filter's verdicts on the slots fetched since then. */
    ghost var admissions: seq<Option<Row>>
    /** The buffered rows not yet read out, oldest first. */
    ghost var pending: seq<Row>

    /** The counters stay inside the buffer and the table, every fetched
        slot has been skipped, read out or is still buffered, and what has
        been read out followed by what is buffered is what the filters
        admitted, in fetch order. */
    ghost predicate Valid()
      reads this, rows
    {
      rows.Length == BUFFER_SIZE
      && 0 <= readBufferHead <= writeBufferHead <= BUFFER_SIZE
      && 0 <= readIndex && (writeIndex <= total || writeIndex == 0)
      && writeIndex == readIndex + (writeBufferHead - readBufferHead)
      && since + |admissions| == writeIndex
      && Filled(rows[readBufferHead..writeBufferHead])
      && Unwrap(rows[readBufferHead..writeBufferHead]) == pending
      && emitted + pending == earlier + Flatten(admissions)
    }

    /** The recorded verdicts are the current filter's on those slots. */
    ghost predicate Faithful()
      reads this`admissions, this`filter, this`since
    {
      AdmitsFrom(table, fetch, filter, since, admissions)
    }

    constructor (table: Table)
      requires WellFormed(table)
      ensures Valid() && Faithful() && fresh(rows)
      ensures this.table == table && fetch == TableFetch(table) && total == TotalCount(table) && filter.None?
      ensures writeIndex == 0 && readIndex == 0 && pending == []
      ensures emitted == [] && earlier == [] && since == 0
    {
      this.table := table;
      fetch := TableFetch(table);
      total := TotalCount(table);
      rows := new Option<Row>[BUFFER_SIZE](_ => None);
      writeBufferHead, readBufferHead := 0, 0;
      writeIndex, readIndex := 0, 0;
      filter := None;
      emitted, earlier, since, admissions, pending := [], [], 0, [], [];
    }

    /** isAtEnd(): every slot has been read out or skipped.  At the end
        nothing is buffered, every slot has been fetched and every admitted
        row has been read out. */
    function IsAtEnd(): (b: bool)
      reads this, rows
      ensures Valid() && b ==>
                pending == [] && (writeIndex == total || writeIndex == 0 > total)
                && emitted == earlier + Flatten(admissions)
    {
      readIndex >= total
    }

    /** compact(): move the unread rows to the front of the buffer. */
    method Compact()
      requires Valid()
      modifies this`readBufferHead, this`writeBufferHead, rows
      ensures Valid() && pending == old(pending)
      ensures readBufferHead == 0 && writeBufferHead == old(writeBufferHead - readBufferHead)
      ensures forall k | 0 <= k < BUFFER_SIZE ::
                rows[k] == if k < BUFFER_SIZE - old(readBufferHead) then old(rows[k + readBufferHead]) else old(rows[k])
    {
      if readBufferHead > 0 {
        ghost var slots := rows[readBufferHead..writeBufferHead];
        CopyWithin(rows, readBufferHead, 0, rows.Length - readBufferHead);
        writeBufferHead := writeBufferHead - readBufferHead;
        readBufferHead := 0;
        assert rows[0..writeBufferHead] == slots;
      }
    }

    /** What one turn of fetchRows' loop does with a slot's admission:
        count the slot as requested, then buffer the admitted row or count
        the slot as skipped. */
    method Record(a: Option<Row>)
      requires Valid() && writeBufferHead < BUFFER_SIZE && writeIndex < total
      modifies this`writeBufferHead, this`writeIndex, this`readIndex, this`admissions, this`pending, rows
      ensures Valid() && readBufferHead == old(readBufferHead) && old(readIndex) <= readIndex
      ensures writeIndex == old(writeIndex) + 1 && admissions == old(admissions) + [a]
      ensures pending == old(pending) + Admitted(a)
    {
      if a.Some? {
        Buffer(a.value);
      } else {
        Skip();
      }
    }

    /** Record's admitted case: the row goes into the next free slot. */
    method Buffer(row: Row)
      requires Valid() && writeBufferHead < BUFFER_SIZE && writeIndex < total
      modifies this`writeBufferHead, this`writeIndex, this`admissions, this`pending, rows
      ensures Valid() && readBufferHead == old(readBufferHead) && readIndex == old(readIndex)
      ensures writeIndex == old(writeIndex) + 1 && admissions == old(admissions) + [Some(row)]
      ensures pending == old(pending) + [row]
    {
      writeIndex := writeIndex + 1;
      ghost var slots := rows[readBufferHead..writeBufferHead];
      rows[writeBufferHead] := Some(row);
      writeBufferHead := writeBufferHead + 1;
      assert rows[readBufferHead..writeBufferHead] == slots + [Some(row)];
      UnwrapSnoc(slots, row);
      FlattenSnoc(admissions, Some(row));
      Extend(emitted, pending, [row], earlier, Flatten(admissions));
      admissions := admissions + [Some(row)];
      pending := pending + [row];
    }

    /** Record's rejected case: the slot counts as read. */
    method Skip()
      requires Valid() && writeIndex < total
      modifies this`writeIndex, this`readIndex, this`admissions
      ensures Valid() && readIndex == old(readIndex) + 1
      ensures writeIndex == old(writeIndex) + 1 && admissions == old(admissions) + [None]
    {
      writeIndex := writeIndex + 1;
      readIndex := readIndex + 1;
      FlattenSnoc(admissions, None);
      assert Flatten(admissions + [None]) == Flatten(admissions);
      admissions := admissions + [None];
    }

    /** One turn of fetchRows' loop: fetch slot writeIndex and record the
        filter's verdict on it.  A failing slot is counted as requested and
        recorded nowhere. */
    method FetchOne() returns (o: Outcome, ghost a: Option<Row>)
      requires Valid() && Faithful() && writeBufferHead < BUFFER_SIZE && writeIndex < total
      modifies this`writeBufferHead, this`writeIndex, this`readIndex, this`admissions, this`pending, rows
      ensures writeIndex == old(writeIndex) + 1
      ensures o.Fail? ==> Admit(table, fetch, filter, old(writeIndex)) == Err(o.error)
      ensures o.Pass? ==>
                Valid() && Faithful() && readBufferHead == old(readBufferHead) && old(readIndex) <= readIndex
                && admissions == old(admissions) + [a] && pending == old(pending) + Admitted(a)
    {
      var id: Int32 := writeIndex;
      var admission := AdmitRow(table, fetch, filter, id);
      if admission.Err? {
        writeIndex := writeIndex + 1;
        return Fail(admission.error), None;
      }
      AdmitsSnoc(table, fetch, filter, since, admissions, admission.value);
      Record(admission.value);
      return Pass, admission.value;
    }

    /** fetchRows(): compact, then fetch slot after slot while the buffer
        has room and slots remain.  The rows buffered are the admitted ones
        among the slots fetched, in order. */
    method FetchRows() returns (o: Outcome)
      requires Valid() && Faithful()
      modifies this`readBufferHead, this`writeBufferHead, this`writeIndex, this`readIndex, this`admissions, this`pending, rows
      ensures o.Pass? ==> Valid() && Faithful() && readBufferHead == 0 && old(readIndex) <= readIndex
      ensures o.Pass? ==> writeBufferHead == BUFFER_SIZE || writeIndex >= total
      ensures o.Pass? ==>
                old(writeIndex) <= writeIndex && old(admissions) <= admissions
                && pending == old(pending) + Flatten(admissions[|old(admissions)|..])
      ensures o.Fail? ==>
                old(writeIndex) < writeIndex <= total
                && Admit(table, fetch, filter, writeIndex - 1) == Err(o.error)
    {
      Compact();
      ghost var before, start := pending, admissions;
      o := Fill();
      if o.Pass? {
        Refilled(emitted, earlier, before, pending, start, admissions);
      }
    }

    /** fetchRows' loop: fetch slot after slot while the buffer has room and
        slots remain. */
    method Fill() returns (o: Outcome)
      requires Valid() && Faithful()
      modifies this`writeBufferHead, this`writeIndex, this`readIndex, this`admissions, this`pending, rows
      ensures o.Pass? ==> Valid() && Faithful() && old(readIndex) <= readIndex
      ensures o.Pass? ==> writeBufferHead == BUFFER_SIZE || writeIndex >= total
      ensures o.Pass? ==> old(writeIndex) <= writeIndex && old(admissions) <= admissions
      ensures o.Fail? ==>
                old(writeIndex) < writeIndex <= total
                && Admit(table, fetch, filter, writeIndex - 1) == Err(o.error)
    {
      ghost var start := admissions;
      ghost var added: seq<Option<Row>> := [];
      while writeBufferHead < rows.Length && writeIndex < total
        invariant Valid() && Faithful() && old(writeIndex) <= writeIndex && old(readIndex) <= readIndex
        invariant admissions == start + added
        decreases total - writeIndex
      {
        ghost var previous := admissions;
        ghost var a;
        o, a := FetchOne();
        if o.Fail? {
          return;
        }
        Grow(admissions, previous, start, added, a);
        added := added + [a];
      }
      return Pass;
    }

    /** getNext(): refill once at most half a buffer is unread; then hand
        out the oldest buffered row, or null when none is left.  A cursor at
        its end hands out null, and a null leaves the cursor at its end. */
    method GetNext() returns (r: Result<Option<Row>>)
      requires Valid() && Faithful()
      modifies this`readBufferHead, this`writeBufferHead, this`writeIndex, this`readIndex, this`emitted, this`admissions, this`pending, rows
      ensures r.Ok? ==> Valid() && Faithful() && filter == old(filter)
      ensures r.Ok? ==> old(readIndex) <= readIndex && (r.value.Some? ==> old(readIndex) < readIndex)
      ensures r.Ok? && old(IsAtEnd()) ==> r.value.None?
      ensures r.Ok? && r.value.None? ==> IsAtEnd() && emitted == old(emitted)
      ensures r.Ok? && r.value.Some? ==> emitted == old(emitted) + [r.value.value]
      ensures r.Err? ==> exists id: Int32 | old(writeIndex) <= id < total :: Admit(table, fetch, filter, id) == Err(r.error)
    {
      if writeBufferHead - readBufferHead <= REFILL_THRESHOLD {
        var o := FetchRows();
        if o.Fail? {
          var id: Int32 := writeIndex - 1;
          return Err(o.error);
        }
      }
      r := Pop();
    }

    /** The second half of getNext(): the oldest buffered row, or null. */
    method Pop() returns (r: Result<Option<Row>>)
      requires Valid()
      modifies this`readBufferHead, this`readIndex, this`emitted, this`pending
      ensures r.Ok? && Valid()
      ensures r.value.None? <==> old(pending) == []
      ensures r.value.None? ==> readIndex == old(readIndex) && emitted == old(emitted)
      ensures r.value.Some? ==>
                old(pending) == [r.value.value] + pending && readIndex == old(readIndex) + 1
                && emitted == old(emitted) + [r.value.value]
    {
      if readBufferHead >= writeBufferHead {
        return Ok(None);
      }
      ghost var slots := rows[readBufferHead..writeBufferHead];
      UnwrapDrop(slots);
      var row := rows[readBufferHead].value;
      assert rows[readBufferHead + 1..writeBufferHead] == slots[1..];
      readBufferHead := readBufferHead + 1;
      readIndex := readIndex + 1;
      Extend2(emitted, row, Unwrap(slots[1..]), earlier + Flatten(admissions));
      emitted := emitted + [row];
      pending := Unwrap(slots[1..]);
      return Ok(Some(row));
    }

    /** await(): never needed by this synchronous cursor, and refused. */
    method Await() returns (r: Outcome)
      ensures r == Fail(IllegalState(""))
    {
      return Fail(IllegalState(""));
    }

    /** setFilter(f): validate f, insist that it is boolean, and only then
        install it; a refused filter leaves the old one in force. */
    method SetFilter(f: Expression) returns (o: Outcome)
      requires Valid() && Faithful()
      modifies this`filter, this`earlier, this`since, this`admissions
      ensures Valid() && Faithful()
      ensures o.Pass? <==> Validate(f).Pass? && TypeOf(f) == BooleanKind
      ensures Validate(f).Fail? ==> o == Validate(f)
      ensures Validate(f).Pass? && TypeOf(f) != BooleanKind ==> o == Fail(InvalidExpression("expected boolean expression"))
      ensures o.Pass? ==> filter == Some(JudgeOf(f)) && since == writeIndex && admissions == []
      ensures o.Pass? ==> earlier == old(earlier) + Flatten(old(admissions))
      ensures o.Fail? ==> filter == old(filter) && since == old(since) && earlier == old(earlier) && admissions == old(admissions)
    {
      var v := Validate(f);
      if v.Fail? {
        return v;
      }
      if TypeOf(f) != BooleanKind {
        return Fail(InvalidExpression("expected boolean expression"));
      }
      earlier := earlier + Flatten(admissions);
      since := writeIndex;
      admissions := [];
      filter := Some(JudgeOf(f));
      return Pass;
    }
  }

  /** A cursor whose filter was installed before the first fetch hands out,
      by the time it is at its end, exactly the table's rows that the filter
      admits, in ascending id order. */
  lemma ScanYieldsSelection(c: FullScanCursor)
    requires WellFormed(c.table) && c.fetch == TableFetch(c.table) && c.total == TotalCount(c.table)
    requires c.Valid() && c.Faithful() && c.IsAtEnd() && c.since == 0 && c.earlier == []
    ensures Selected(c.table, TableFetch(c.table), c.filter, 0, Limit(c.table)) == Ok(c.emitted)
  {
    var adms := c.admissions;
    assert c.emitted == Flatten(adms);
    assert |adms| == c.writeIndex;
    assert |adms| == Limit(c.table);
    AdmissionsSelect(c.table, c.fetch, c.filter, 0, adms);
  }

  lemma Grow<T>(s': seq<T>, s: seq<T>, b: seq<T>, f: seq<T>, x: T)
    requires s == b + f && s' == s + [x]
    ensures s' == b + (f + [x])
  {
  }

  /** Flatten distributes over concatenation. */
  lemma {:induction false} FlattenAppend(adms: seq<Option<Row>>, more: seq<Option<Row>>)
    ensures Flatten(adms + more) == Flatten(adms) + Flatten(more)
    decreases |more|
  {
    if more == [] {
      assert adms + more == adms;
    } else {
      var n := |more| - 1;
      var front, last := more[..n], more[n];
      assert more == front + [last];
      assert adms + more == (adms + front) + [last];
      FlattenAppend(adms, front);
      FlattenSnoc(adms + front, last);
      FlattenSnoc(front, last);
    }
  }

  /** With the same rows read out before and after, the buffered rows grow
      by the rows the new admissions contribute. */
  lemma {:induction false} Refilled(e: seq<Row>, b: seq<Row>, p: seq<Row>, p': seq<Row>, adms: seq<Option<Row>>, adms': seq<Option<Row>>)
    requires e + p == b + Flatten(adms) && e + p' == b + Flatten(adms') && adms <= adms'
    ensures p' == p + Flatten(adms'[|adms|..])
  {
    var more := adms'[|adms|..];
    assert adms' == adms + more;
    FlattenAppend(adms, more);
    Cancel(e, p, p', b + Flatten(adms), Flatten(more));
  }

  lemma Cancel(e: seq<Row>, p: seq<Row>, p': seq<Row>, s: seq<Row>, x: seq<Row>)
    requires e + p == s && e + p' == s + x
    ensures p' == p + x
  {
    assert e + p' == e + (p + x);
    assert p' == (e + p')[|e|..];
    assert p + x == (e + (p + x))[|e|..];
  }

  lemma Extend2(e: seq<Row>, x: Row, p: seq<Row>, s: seq<Row>)
    requires e + ([x] + p) == s
    ensures (e + [x]) + p == s
  {
    assert (e + [x]) + p == e + ([x] + p);
  }

  lemma Extend(e: seq<Row>, p: seq<Row>, x: seq<Row>, b: seq<Row>, s: seq<Row>)
    requires e + p == b + s
    ensures e + (p + x) == b + (s + x)
  {
    assert e + (p + x) == (e + p) + x;
    assert b + (s + x) == (b + s) + x;
  }
}
