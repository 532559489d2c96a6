/** SortingCursor: a cursor that, on first use, drains its base cursor into
    a list, sorts the list with the composite comparator of `Sorting`, and
    then hands the sorted rows out one by one.  The base is the full-table
    scan the statement reader builds. */
module SortingCursors {
  import opened Results
  import opened DataTypes
  import opened Tables
  import opened Rows
  import opened Expressions
  import opened Sorting
  import opened FullScan

  /** The list sort() drains: every row the base handed out, in order, then
      the null that ended the drain, if one did. */
  function Drained(rows: seq<Row>, ended: bool): (s: seq<Option<Row>>)
    ensures |s| == |rows| + (if ended then 1 else 0)
    ensures forall i | 0 <= i < |rows| :: s[i] == Some(rows[i])
    ensures ended ==> s[|rows|] == None
  {
    seq(|rows|, i requires 0 <= i < |rows| => Some(rows[i])) + (if ended then [None] else [])
  }

  /** Taking one more row extends the drained list by it. */
  lemma DrainedSnoc(rows: seq<Row>, r: Row)
    ensures Drained(rows, false) + [Some(r)] == Drained(rows + [r], false)
  {
  }

  /** The null that ends the drain closes the list. */
  lemma DrainedEnd(rows: seq<Row>)
    ensures Drained(rows, false) + [None] == Drained(rows, true)
  {
  }

  /** Leaving out the nulls of a drained list gives back the rows. */
  lemma {:induction false} FlattenDrained(rows: seq<Row>, ended: bool)
    ensures Flatten(Drained(rows, ended)) == rows
    decreases |rows|, ended
  {
    if ended {
      FlattenDrained(rows, false);
      assert Drained(rows, true) == Drained(rows, false) + [None];
      FlattenSnoc(Drained(rows, false), None);
    } else if rows != [] {
      var n := |rows| - 1;
      FlattenDrained(rows[..n], false);
      assert Drained(rows, false) == Drained(rows[..n], false) + [Some(rows[n])];
      FlattenSnoc(Drained(rows[..n], false), Some(rows[n]));
    }
  }

  /** Each row occurs among the non-null slots as often as it occurs as a slot. */
  lemma {:induction false} FlattenCounts(s: seq<Option<Row>>, r: Row)
    ensures multiset(Flatten(s))[r] == multiset(s)[Some(r)]
    decreases |s|
  {
    if s != [] {
      var n := |s| - 1;
      var front, last := s[..n], s[n];
      FlattenCounts(front, r);
      assert s == front + [last];
      var here := if last == Some(r) then 1 else 0;
      assert multiset(Admitted(last))[r] == here;
      calc {
        multiset(Flatten(s))[r];
        multiset(Flatten(front) + Admitted(last))[r];
        multiset(Flatten(front))[r] + here;
        multiset(front)[Some(r)] + multiset([last])[Some(r)];
        multiset(front + [last])[Some(r)];
      }
    }
  }

  /** Rearranging the slots rearranges their rows. */
  lemma FlattenPermutes(s: seq<Option<Row>>, t: seq<Option<Row>>)
    requires multiset(s) == multiset(t)
    ensures multiset(Flatten(s)) == multiset(Flatten(t))
  {
    forall r: Row
      ensures multiset(Flatten(s))[r] == multiset(Flatten(t))[r]
    {
      FlattenCounts(s, r);
      FlattenCounts(t, r);
    }
  }

  /** A completion stage a cursor hands out to be waited on. */
  datatype Stage = Stage

  class SortingCursor {
    const base: FullScanCursor
    const fields: seq<Expression>
    /** The sort the cursor applies to the drained list: `input.sort` with the
        composite comparator over `fields`, as a function value, so that the
        cursor's invariant does not unfold the sort itself. */
    const sorter: seq<Option<Row>> -> Result<seq<Option<Row>>>
    /** The sorted rows, or null before the first sort. */
    var sortedRows: Option<seq<Option<Row>>>
    /** How many sorted rows have been asked for. */
    var readHead: nat

    /** The rows the base had handed out before this cursor was built. */
    ghost const before: seq<Row>
    /** The list the sort drained from the base. */
    ghost var drained: seq<Option<Row>>

    /** Before the sort the base is untouched; after it the base is at its
        end, it has handed out exactly the drained rows, and the sorted rows
        are the drained list, sorted. */
    ghost predicate Valid()
      reads this`sortedRows, this`drained, base, base.rows
    {
      base.Valid() && base.Faithful()
      && (sortedRows.None? ==> base.emitted == before)
      && (sortedRows.Some? ==>
            base.IsAtEnd() && base.emitted == before + Flatten(drained)
            && sorter(drained) == Ok(sortedRows.value))
    }

    /** Nothing has been asked for before the sort. */
    predicate Counted()
      reads this`sortedRows, this`readHead
    {
      sortedRows.None? ==> readHead == 0
    }

    /** The rows getNext has handed out: the sorted rows before readHead,
        nulls left out. */
    ghost function Delivered(): seq<Row>
      reads this
    {
      if sortedRows.None? then []
      else Flatten(sortedRows.value[..if readHead < |sortedRows.value| then readHead else |sortedRows.value|])
    }

    constructor (base: FullScanCursor, fields: seq<Expression>)
      requires base.Valid() && base.Faithful()
      ensures Valid() && this.base == base && this.fields == fields && sorter == SortWith(fields)
      ensures sortedRows.None? && readHead == 0 && before == base.emitted
    {
      this.base := base;
      this.fields := fields;
      sorter := SortWith(fields);
      sortedRows := None;
      readHead := 0;
      before := base.emitted;
      drained := [];
    }

    /** sort(): take rows from the base until it is at its end, then sort
        them.  A failing fetch or a key that fails to evaluate fails the
        sort, and the rows stay unsorted. */
    method Sort() returns (o: Outcome)
      requires Valid() && sortedRows.None?
      modifies this`sortedRows, this`drained, base, base.rows
      ensures o.Pass? ==> Valid() && sortedRows.Some?
      ensures o.Fail? ==> sortedRows.None?
    {
      var input;
      ghost var collected, ended;
      o, input, collected, ended := Drain();
      if o.Fail? {
        return;
      }
      var sorted := sorter(input);
      if sorted.Err? {
        return Fail(sorted.error);
      }
      FlattenDrained(collected, ended);
      sortedRows := Some(sorted.value);
      drained := input;
      return Pass;
    }

    /** sort()'s loop: take rows from the base until it is at its end.  The
        list holds the rows the base hands out, then the null that ended the
        loop, if one did. */
    method Drain() returns (o: Outcome, input: seq<Option<Row>>, ghost collected: seq<Row>, ghost ended: bool)
      requires base.Valid() && base.Faithful()
      modifies base, base.rows
      ensures o.Pass? ==> base.Valid() && base.Faithful() && base.IsAtEnd()
      ensures o.Pass? ==> input == Drained(collected, ended) && base.emitted == old(base.emitted) + collected
    {
      input, collected, ended := [], [], false;
      while !base.IsAtEnd()
        invariant base.Valid() && base.Faithful()
        invariant input == Drained(collected, ended) && base.emitted == old(base.emitted) + collected
        invariant ended ==> base.IsAtEnd()
        decreases base.total - base.readIndex
      {
        var r := base.GetNext();
        if r.Err? {
          return Fail(r.error), input, collected, ended;
        }
        if r.value.Some? {
          DrainedSnoc(collected, r.value.value);
          collected := collected + [r.value.value];
        } else {
          DrainedEnd(collected);
          ended := true;
        }
        input := input + [r.value];
      }
      return Pass, input, collected, ended;
    }

    /** What isAtEnd() and getNext() do first: sort, unless already sorted. */
    method Ensure() returns (o: Outcome)
      requires Valid()
      modifies this`sortedRows, this`drained, base, base.rows
      ensures o.Pass? ==> Valid() && sortedRows.Some?
      ensures o.Fail? ==> sortedRows.None?
      ensures old(sortedRows).Some? ==> o.Pass? && sortedRows == old(sortedRows)
    {
      if sortedRows.None? {
        o := Sort();
      } else {
        o := Pass;
      }
    }

    /** isAtEnd(): sort on first use, then whether every sorted row has been
        asked for. */
    method IsAtEnd() returns (r: Result<bool>)
      requires Valid() && Counted()
      modifies this`sortedRows, this`drained, base, base.rows
      ensures r.Ok? ==> Valid() && Counted() && sortedRows.Some? && r.value == (readHead >= |sortedRows.value|)
      ensures r.Ok? ==> Delivered() == old(Delivered())
      ensures old(sortedRows).Some? ==> r.Ok? && sortedRows == old(sortedRows)
    {
      var o := Ensure();
      if o.Fail? {
        return Err(o.error);
      }
      return Ok(readHead >= |sortedRows.value|);
    }

    /** getNext(): sort on first use, then the sorted row at readHead, which
        moves on by one whether or not there is such a row. */
    method GetNext() returns (r: Result<Option<Row>>)
      requires Valid() && Counted()
      modifies this`sortedRows, this`drained, this`readHead, base, base.rows
      ensures sortedRows.Some? ==> Valid() && Counted() && readHead == old(readHead) + 1
      ensures sortedRows.Some? ==>
                (r.Ok? <==> old(readHead) < |sortedRows.value|)
                && (r.Ok? ==> r.value == sortedRows.value[old(readHead)])
                && (r.Err? ==> r.error == IndexOutOfBounds && Delivered() == old(Delivered()))
      ensures old(sortedRows).Some? ==> sortedRows == old(sortedRows)
      ensures sortedRows.None? ==> r.Err?
      ensures r.Ok? && r.value.None? ==> Delivered() == old(Delivered())
      ensures r.Ok? && r.value.Some? ==> Delivered() == old(Delivered()) + [r.value.value]
    {
      var o := Ensure();
      if o.Fail? {
        return Err(o.error);
      }
      r := Advance();
    }

    /** The second half of getNext(): the sorted row at readHead, with
        readHead moved on by one either way. */
    method Advance() returns (r: Result<Option<Row>>)
      requires sortedRows.Some?
      modifies this`readHead
      ensures readHead == old(readHead) + 1
      ensures r.Ok? <==> old(readHead) < |sortedRows.value|
      ensures r.Ok? ==> r.value == sortedRows.value[old(readHead)]
      ensures r.Ok? && r.value.None? ==> Delivered() == old(Delivered())
      ensures r.Ok? && r.value.Some? ==> Delivered() == old(Delivered()) + [r.value.value]
      ensures r.Err? ==> r.error == IndexOutOfBounds && Delivered() == old(Delivered())
    {
      var rows := sortedRows.value;
      var i := readHead;
      readHead := readHead + 1;
      if i >= |rows| {
        return Err(IndexOutOfBounds);
      }
      assert rows[..i + 1] == rows[..i] + [rows[i]];
      FlattenSnoc(rows[..i], rows[i]);
      return Ok(rows[i]);
    }

    /** getTable(): the base's table. */
    function GetTable(): (t: Table)
      ensures t == base.table
    {
      base.table
    }

    /** setFilter(f): installed on the base. */
    method SetFilter(f: Expression) returns (o: Outcome)
      requires Valid()
      modifies base`filter, base`earlier, base`since, base`admissions
      ensures Valid()
      ensures o.Pass? <==> Validate(f).Pass? && TypeOf(f) == BooleanKind
      ensures o.Pass? ==> base.filter == Some(JudgeOf(f))
      ensures o.Fail? ==> base.filter == old(base.filter)
    {
      o := base.SetFilter(f);
    }

    /** await(): this cursor hands out no stage to wait on (null). */
    method Await() returns (stage: Option<Stage>)
      ensures stage.None?
    {
      return None;
    }
  }

  /** Sorting a scan whose filter was installed before its first fetch: the
      sorted rows, nulls left out, are the table's rows that the filter
      admits, rearranged; where no integer key subtraction overflows, no
      sorted row compares above a later one; and rows whose keys tie keep
      the ascending id order of the scan. */
  lemma SortedSelection(c: SortingCursor, ks: seq<Key>)
    requires WellFormed(c.base.table) && c.base.fetch == TableFetch(c.base.table) && c.base.total == TotalCount(c.base.table)
    requires c.Valid() && c.sortedRows.Some? && c.before == [] && c.base.since == 0 && c.base.earlier == []
    requires c.sorter == SortWith(c.fields) && NoOverflow(c.fields, c.drained)
    ensures var sel := Selected(c.base.table, c.base.fetch, c.base.filter, 0, Limit(c.base.table));
            var sorted := c.sortedRows.value;
            sel.Ok? && sel.value == Flatten(c.drained)
            && multiset(Flatten(sorted)) == multiset(sel.value)
            && (forall i, j | 0 <= i < j < |sorted| ::
                  CompareRows(c.fields, sorted[i], sorted[j]).Ok? && CompareRows(c.fields, sorted[i], sorted[j]).value <= 0)
            && Tied(c.fields, sorted, ks) == Tied(c.fields, c.drained, ks)
  {
    ScanYieldsSelection(c.base);
    assert c.base.emitted == Flatten(c.drained);
    SortRowsPermutes(c.fields, c.drained);
    FlattenPermutes(c.sortedRows.value, c.drained);
    SortRowsOrdered(c.fields, c.drained);
    SortRowsStable(c.fields, c.drained, ks);
  }
}
