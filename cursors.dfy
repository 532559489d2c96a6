/** The Cursor interface: a source of rows that the response writers drain.
    The statement reader builds a full-table scan and wraps it in a sorting
    cursor when the statement orders its rows, so a cursor is one of those
    two. */
module Cursors {
  import opened Results
  import opened Tables
  import opened Rows
  import opened Expressions
  import opened FullScan
  import opened SortingCursors

  datatype CursorRef = Scan(scan: FullScanCursor) | Sorted(sorting: SortingCursor) {
    /** The objects the cursor's operations may change. */
    ghost function Footprint(): set<object>
    {
      match this
      case Scan(s) => {s, s.rows}
      case Sorted(s) => {s, s.base, s.base.rows}
    }

    ghost predicate Valid()
      reads Footprint()
    {
      match this
      case Scan(s) => s.Valid() && s.Faithful()
      case Sorted(s) => s.Valid() && s.Counted()
    }

    /** The rows getNext() has handed out so far, nulls left out. */
    ghost function Delivered(): seq<Row>
      reads Footprint()
    {
      match this
      case Scan(s) => s.emitted
      case Sorted(s) => s.Delivered()
    }

    /** Whether every row has been handed out: the scan's isAtEnd(), or a
        sorting cursor that has sorted and asked for every sorted row. */
    ghost predicate AtEnd()
      reads Footprint()
    {
      match this
      case Scan(s) => s.IsAtEnd()
      case Sorted(s) => s.sortedRows.Some? && s.readHead >= |s.sortedRows.value|
    }

    /** With Left(), what a row handed out uses up: a sorting cursor that has
        not sorted yet is one phase before every other cursor. */
    ghost function Phase(): nat
      reads Footprint()
    {
      if Sorted? && sorting.sortedRows.None? then 1 else 0
    }

    /** The rows the cursor can still hand out within its phase. */
    ghost function Left(): nat
      reads Footprint()
    {
      match this
      case Scan(s) => if s.readIndex <= s.total then s.total - s.readIndex else 0
      case Sorted(s) =>
        if s.sortedRows.Some? && s.readHead <= |s.sortedRows.value| then |s.sortedRows.value| - s.readHead else 0
    }

    /** getTable(). */
    function GetTable(): (t: Table)
      ensures t == if Scan? then scan.table else sorting.base.table
    {
      match this
      case Scan(s) => s.table
      case Sorted(s) => s.GetTable()
    }

    /** isAtEnd(): hands out no row. */
    method IsAtEnd() returns (r: Result<bool>)
      requires Valid()
      modifies Footprint()
      ensures r.Ok? ==> Valid() && Delivered() == old(Delivered()) && r.value == AtEnd()
      ensures r.Ok? ==> Phase() <= old(Phase()) && (Phase() == old(Phase()) ==> Left() == old(Left()))
      ensures Scan? ==> r == Ok(scan.IsAtEnd()) && unchanged(scan)
    {
      match this
      case Scan(s) =>
        r := Ok(s.IsAtEnd());
      case Sorted(s) =>
        r := s.IsAtEnd();
    }

    /** getNext(): the next row, or null; a row handed out joins Delivered(). */
    method GetNext() returns (r: Result<Option<Row>>)
      requires Valid()
      modifies Footprint()
      ensures r.Ok? ==> Valid()
      ensures r.Ok? && r.value.None? ==> Delivered() == old(Delivered())
      ensures r.Ok? && r.value.Some? ==>
                Delivered() == old(Delivered()) + [r.value.value]
                && (Phase() < old(Phase()) || (Phase() == old(Phase()) && Left() < old(Left())))
    {
      match this
      case Scan(s) =>
        r := s.GetNext();
      case Sorted(s) =>
        r := s.GetNext();
    }

    /** await(): the scan refuses with an IllegalStateException; the sorting
        cursor hands out null. */
    method Await() returns (r: Result<Option<Stage>>)
      ensures Scan? ==> r == Err(IllegalState(""))
      ensures Sorted? ==> r == Ok(None)
    {
      match this
      case Scan(s) =>
        var o := s.Await();
        r := Err(o.error);
      case Sorted(s) =>
        var stage := s.Await();
        r := Ok(stage);
    }
  }
}
