/** The composite comparator of SortingCursor and the stable sort it hands
    that comparator to (`List.sort`).  Rows may be absent: the drained list
    holds whatever the base cursor's getNext returned, null included. */
module Sorting {
  import opened Results
  import opened Bytes
  import opened DataTypes
  import opened Rows
  import opened Expressions

  /** What one sort field contributes to a comparison of two rows. */
  datatype Key = IntKey(n: Int64) | StrKey(s: seq<byte>) | NoKey

  /** One sort field on one row: an integer-typed field by evaluateAsInteger,
      a string-typed field by evaluate and a cast to String; a field of any
      other type contributes nothing and is not evaluated. */
  function KeyOf(e: Expression, r: Option<Row>): (k: Result<Key>)
    ensures k.Ok? ==> (k.value.IntKey? <==> TypeOf(e) == IntegerKind) && (k.value.StrKey? <==> TypeOf(e) == StringKind)
    ensures TypeOf(e) == BooleanKind ==> k == Ok(NoKey)
  {
    match TypeOf(e)
    case IntegerKind =>
      var n :- EvaluateAsInteger(e, r);
      Ok(IntKey(n))
    case StringKind =>
      var v :- Evaluate(e, r);
      if v.StrValue? then Ok(StrKey(v.s)) else Err(ClassCast)
    case BooleanKind => Ok(NoKey)
  }

  // ---------------------------------------------------------------------
  // comparing keys

  /** The integer step of the comparator, as evidently intended: the sign of
      `a - b` taken over the mathematical integers. */
  function IntegerOrder(a: Int64, b: Int64): (c: int)
    ensures (c < 0 <==> a < b) && (c == 0 <==> a == b) && (c > 0 <==> a > b)
  {
    if a > b then 1 else if a < b then -1 else 0
  }

  /** The integer step as written: the sign of `long r = a - b`, whose
      64-bit subtraction wraps around. */
  function IntegerOrderAsWritten(a: Int64, b: Int64): (c: int)
    ensures -TWO_63 <= a - b < TWO_63 ==> c == IntegerOrder(a, b)
  {
    var r := Wrap64(a - b);
    if r > 0 then 1 else if r < 0 then -1 else 0
  }

  /** Long.MIN_VALUE < 0 < Long.MAX_VALUE, and the step as written agrees
      on both of those pairs, yet it ranks Long.MIN_VALUE above
      Long.MAX_VALUE: as written the comparator is not transitive. */
  lemma AsWrittenIntransitive()
    ensures IntegerOrderAsWritten(-TWO_63, 0) < 0 && IntegerOrderAsWritten(0, TWO_63 - 1) < 0
    ensures IntegerOrderAsWritten(-TWO_63, TWO_63 - 1) > 0
  {
    assert Wrap64(-TWO_63 - (TWO_63 - 1)) == 1;
  }

  /** For variants that never meet: the keys of one field are all of one
      variant, so keys of different variants are never compared; ranking
      the variants only makes CompareKey total. */
  function Rank(k: Key): int
  {
    match k
    case NoKey => 0
    case IntKey(_) => 1
    case StrKey(_) => 2
  }

  /** One field's step of the comparator: integers by IntegerOrder, strings
      by compareTo; the keys of non-integer, non-string fields tie. */
  function CompareKey(a: Key, b: Key): int
  {
    if a.IntKey? && b.IntKey? then IntegerOrder(a.n, b.n)
    else if a.StrKey? && b.StrKey? then Compare(a.s, b.s)
    else Rank(a) - Rank(b)
  }

  lemma KeyZeroIffEqual(a: Key, b: Key)
    ensures CompareKey(a, b) == 0 <==> a == b
  {
    if a.StrKey? && b.StrKey? {
      CompareZeroIffEqual(a.s, b.s);
    }
  }

  lemma KeyAntisymmetric(a: Key, b: Key)
    ensures CompareKey(a, b) < 0 <==> CompareKey(b, a) > 0
  {
    if a.StrKey? && b.StrKey? {
      CompareAntisymmetric(a.s, b.s);
    }
  }

  lemma KeyTransitive(a: Key, b: Key, c: Key)
    requires CompareKey(a, b) < 0 && CompareKey(b, c) < 0
    ensures CompareKey(a, c) < 0
  {
    if a.StrKey? && b.StrKey? && c.StrKey? {
      CompareTransitive(a.s, b.s, c.s);
    }
  }

  /** The comparator's loop over the sort fields with the corrected integer
      step: the first field whose keys do not tie decides, and the rows tie
      when every field ties. */
  function CompareKeys(a: seq<Key>, b: seq<Key>): int
  {
    if |a| == 0 || |b| == 0 then 0
    else
      var c := CompareKey(a[0], b[0]);
      if c != 0 then c else CompareKeys(a[1..], b[1..])
  }

  /** Two keys of one field whose integer difference fits in a long, both
      ways round: the wrapped subtraction does not overflow on them. */
  predicate KeySafe(a: Key, b: Key)
  {
    a.IntKey? && b.IntKey? ==> -TWO_63 < a.n - b.n < TWO_63
  }

  /** Two rows' keys, field by field, are safe to subtract. */
  predicate KeysSafe(a: seq<Key>, b: seq<Key>)
  {
    forall p | 0 <= p < |a| && p < |b| :: KeySafe(a[p], b[p])
  }

  /** One field's step of the comparator as written: integers by the sign
      of the wrapped `a - b`, strings by compareTo; the keys of other fields
      tie.  Where the subtraction does not overflow it is CompareKey. */
  function CompareKeyAsWritten(a: Key, b: Key): (c: int)
    ensures KeySafe(a, b) ==> c == CompareKey(a, b)
    ensures c == 0 <==> a == b
  {
    KeyZeroIffEqual(a, b);
    if a.IntKey? && b.IntKey? then IntegerOrderAsWritten(a.n, b.n)
    else CompareKey(a, b)
  }

  /** The comparator's loop over the sort fields, with the integer step as
      written: this is the comparator the sorting cursor hands to List.sort. */
  function CompareKeysAsWritten(a: seq<Key>, b: seq<Key>): int
  {
    if |a| == 0 || |b| == 0 then 0
    else
      var c := CompareKeyAsWritten(a[0], b[0]);
      if c != 0 then c else CompareKeysAsWritten(a[1..], b[1..])
  }

  /** Where no field's subtraction overflows, the comparator as written and
      the corrected one agree. */
  lemma {:induction false} KeysAgree(a: seq<Key>, b: seq<Key>)
    requires KeysSafe(a, b)
    ensures CompareKeysAsWritten(a, b) == CompareKeys(a, b)
  {
    if |a| > 0 && |b| > 0 {
      assert KeySafe(a[0], b[0]);
      assert KeysSafe(a[1..], b[1..]) by {
        forall p | 0 <= p < |a[1..]| && p < |b[1..]|
          ensures KeySafe(a[1..][p], b[1..][p])
        {
          assert KeySafe(a[p + 1], b[p + 1]);
        }
      }
      KeysAgree(a[1..], b[1..]);
    }
  }

  /** Even with overflow, the comparator as written ties two rows' keys
      exactly when they are the same keys. */
  lemma {:induction false} KeysAsWrittenZeroIffEqual(a: seq<Key>, b: seq<Key>)
    requires |a| == |b|
    ensures CompareKeysAsWritten(a, b) == 0 <==> a == b
  {
    if |a| > 0 {
      KeysAsWrittenZeroIffEqual(a[1..], b[1..]);
      if a[0] == b[0] && a[1..] == b[1..] {
        assert a == [a[0]] + a[1..] && b == [b[0]] + b[1..];
      }
    }
  }

  /** Two rows' keys tie exactly when they are the same keys. */
  lemma {:induction false} KeysZeroIffEqual(a: seq<Key>, b: seq<Key>)
    requires |a| == |b|
    ensures CompareKeys(a, b) == 0 <==> a == b
  {
    if |a| > 0 {
      KeyZeroIffEqual(a[0], b[0]);
      KeysZeroIffEqual(a[1..], b[1..]);
      if a[0] == b[0] && a[1..] == b[1..] {
        assert a == [a[0]] + a[1..] && b == [b[0]] + b[1..];
      }
    }
  }

  /** Swapping the rows flips the comparison. */
  lemma {:induction false} KeysAntisymmetric(a: seq<Key>, b: seq<Key>)
    ensures CompareKeys(a, b) < 0 <==> CompareKeys(b, a) > 0
  {
    if |a| > 0 && |b| > 0 {
      KeyAntisymmetric(a[0], b[0]);
      KeyAntisymmetric(b[0], a[0]);
      KeysAntisymmetric(a[1..], b[1..]);
    }
  }

  lemma {:induction false} KeysTransitive(a: seq<Key>, b: seq<Key>, c: seq<Key>)
    requires |a| == |b| == |c|
    requires CompareKeys(a, b) < 0 && CompareKeys(b, c) < 0
    ensures CompareKeys(a, c) < 0
  {
    var ab, bc := CompareKey(a[0], b[0]), CompareKey(b[0], c[0]);
    KeyZeroIffEqual(a[0], b[0]);
    KeyZeroIffEqual(b[0], c[0]);
    if ab < 0 && bc < 0 {
      KeyTransitive(a[0], b[0], c[0]);
    } else if ab == 0 && bc == 0 {
      KeysTransitive(a[1..], b[1..], c[1..]);
    }
  }

  /** The comparator orders the rows' keys as a total preorder: "not above"
      is transitive. */
  lemma {:induction false} NotAboveTransitive(a: seq<Key>, b: seq<Key>, c: seq<Key>)
    requires |a| == |b| == |c|
    requires CompareKeys(a, b) <= 0 && CompareKeys(b, c) <= 0
    ensures CompareKeys(a, c) <= 0
  {
    KeysZeroIffEqual(a, b);
    KeysZeroIffEqual(b, c);
    if CompareKeys(a, b) < 0 && CompareKeys(b, c) < 0 {
      KeysTransitive(a, b, c);
    }
  }

  // ---------------------------------------------------------------------
  // the comparator on rows

  /** Every sort field on one row, in order; the first field that fails to
      evaluate fails. */
  function RowKeys(fields: seq<Expression>, r: Option<Row>): (ks: Result<seq<Key>>)
    ensures ks.Ok? ==> |ks.value| == |fields|
  {
    if fields == [] then Ok([])
    else
      var k :- KeyOf(fields[0], r);
      var rest :- RowKeys(fields[1..], r);
      Ok([k] + rest)
  }

  /** The lambda handed to `input.sort`: field by field, evaluate the field
      on `a`, then on `b`, and return the first comparison that is not 0,
      integers compared by the sign of their wrapped difference. */
  function CompareRows(fields: seq<Expression>, a: Option<Row>, b: Option<Row>): Result<int>
  {
    if fields == [] then Ok(0)
    else
      var ka :- KeyOf(fields[0], a);
      var kb :- KeyOf(fields[0], b);
      var c := CompareKeyAsWritten(ka, kb);
      if c != 0 then Ok(c) else CompareRows(fields[1..], a, b)
  }

  /** On rows whose every key evaluates, the comparator compares their keys. */
  lemma {:induction false} CompareRowsByKeys(fields: seq<Expression>, a: Option<Row>, b: Option<Row>)
    requires RowKeys(fields, a).Ok? && RowKeys(fields, b).Ok?
    ensures CompareRows(fields, a, b) == Ok(CompareKeysAsWritten(RowKeys(fields, a).value, RowKeys(fields, b).value))
  {
    if fields != [] {
      CompareRowsByKeys(fields[1..], a, b);
    }
  }

  // ---------------------------------------------------------------------
  // a stable sort

  /** A drained row with its keys. */
  datatype Entry<R> = Entry(row: R, keys: seq<Key>)

  /** Every entry has `n` keys, one per sort field. */
  predicate Uniform<R(==)>(s: seq<Entry<R>>, n: nat)
  {
    forall e | e in s :: |e.keys| == n
  }

  /** Every two entries' keys are safe to subtract. */
  predicate Safe<R(==)>(s: seq<Entry<R>>)
  {
    forall e, f | e in s && f in s :: KeysSafe(e.keys, f.keys)
  }

  /** No entry compares above the next one, by the corrected comparator. */
  predicate SortedBy<R>(s: seq<Entry<R>>)
  {
    forall i | 0 < i < |s| :: CompareKeys(s[i - 1].keys, s[i].keys) <= 0
  }

  /** The entries holding exactly the keys `k`, in order. */
  function Ties<R(==)>(s: seq<Entry<R>>, k: seq<Key>): (t: seq<Entry<R>>)
    ensures |t| <= |s|
  {
    if s == [] then []
    else Ties(s[..|s| - 1], k) + (if s[|s| - 1].keys == k then [s[|s| - 1]] else [])
  }

  /** The rows of the entries. */
  function RowsOf<R(==)>(s: seq<Entry<R>>): (rs: seq<R>)
    ensures |rs| == |s| && forall i | 0 <= i < |s| :: rs[i] == s[i].row
  {
    seq(|s|, i requires 0 <= i < |s| => s[i].row)
  }

  /** Where a stable insertion puts `x` into `s`: after the last entry that
      the comparator as written does not rank above it. */
  function Position<R(==)>(s: seq<Entry<R>>, x: Entry<R>): (i: nat)
    ensures i <= |s|
    ensures forall j | i <= j < |s| :: CompareKeysAsWritten(s[j].keys, x.keys) > 0
    ensures 0 < i ==> CompareKeysAsWritten(s[i - 1].keys, x.keys) <= 0
  {
    if s == [] || CompareKeysAsWritten(s[|s| - 1].keys, x.keys) <= 0 then |s|
    else Position(s[..|s| - 1], x)
  }

  function Insert<R(==)>(s: seq<Entry<R>>, x: Entry<R>): (t: seq<Entry<R>>)
    ensures |t| == |s| + 1
  {
    var i := Position(s, x);
    s[..i] + [x] + s[i..]
  }

  /** A stable sort: insert the entries one after the other, each behind
      the entries it ties with. */
  function Sort<R(==)>(s: seq<Entry<R>>): (t: seq<Entry<R>>)
    ensures |t| == |s|
  {
    if s == [] then [] else Insert(Sort(s[..|s| - 1]), s[|s| - 1])
  }

  lemma {:induction false} TiesAppend<R>(s: seq<Entry<R>>, t: seq<Entry<R>>, k: seq<Key>)
    ensures Ties(s + t, k) == Ties(s, k) + Ties(t, k)
    decreases |t|
  {
    if t == [] {
      assert s + t == s;
    } else {
      var n := |t| - 1;
      assert (s + t)[..|s + t| - 1] == s + t[..n];
      TiesAppend(s, t[..n], k);
    }
  }

  lemma {:induction false} TiesNone<R>(s: seq<Entry<R>>, k: seq<Key>)
    requires forall e | e in s :: e.keys != k
    ensures Ties(s, k) == []
  {
    if s != [] {
      TiesNone(s[..|s| - 1], k);
    }
  }

  lemma {:induction false} RowsOfAppend<R>(s: seq<Entry<R>>, t: seq<Entry<R>>)
    ensures RowsOf(s + t) == RowsOf(s) + RowsOf(t)
  {
  }

  lemma {:induction false} RowsOfTake<R>(s: seq<Entry<R>>, m: nat)
    requires m <= |s|
    ensures RowsOf(s)[..m] == RowsOf(s[..m])
  {
  }

  /** Inserting keeps the entries sorted, where the new entry's keys are
      safe to subtract from every entry's keys. */
  lemma {:induction false} InsertSorted<R>(s: seq<Entry<R>>, x: Entry<R>)
    requires SortedBy(s)
    requires forall e | e in s :: KeysSafe(e.keys, x.keys)
    ensures SortedBy(Insert(s, x))
  {
    var i := Position(s, x);
    var t := Insert(s, x);
    forall p | 0 < p < |t|
      ensures CompareKeys(t[p - 1].keys, t[p].keys) <= 0
    {
      InsertAt(s, x, p - 1);
      InsertAt(s, x, p);
      if p == i {
        assert s[i - 1] in s;
        KeysAgree(s[i - 1].keys, x.keys);
      } else if p == i + 1 {
        assert s[i] in s;
        KeysAgree(s[i].keys, x.keys);
        KeysAntisymmetric(s[i].keys, x.keys);
      }
    }
  }

  /** The entries after the insertion point all compare above the new one. */
  lemma {:induction false} AfterPosition<R>(s: seq<Entry<R>>, x: Entry<R>)
    ensures forall e | e in s[Position(s, x)..] :: CompareKeysAsWritten(e.keys, x.keys) > 0
  {
    var i := Position(s, x);
    forall e | e in s[i..]
      ensures CompareKeysAsWritten(e.keys, x.keys) > 0
    {
      var j :| 0 <= j < |s[i..]| && s[i..][j] == e;
      assert s[i + j] == e;
    }
  }

  lemma {:induction false} InsertAt<R>(s: seq<Entry<R>>, x: Entry<R>, p: nat)
    requires p <= |s|
    ensures var i := Position(s, x);
            Insert(s, x)[p] == if p < i then s[p] else if p == i then x else s[p - 1]
  {
  }

  /** Inserting adds the entry to the multiset and its row to the rows. */
  lemma {:induction false} InsertPermutes<R>(s: seq<Entry<R>>, x: Entry<R>)
    ensures multiset(Insert(s, x)) == multiset(s) + multiset{x}
    ensures multiset(RowsOf(Insert(s, x))) == multiset(RowsOf(s)) + multiset{x.row}
  {
    var i := Position(s, x);
    SplicePermutes(s[..i], x, s[i..]);
    Split(s, i);
  }

  lemma {:induction false} SplicePermutes<R>(a: seq<Entry<R>>, x: Entry<R>, b: seq<Entry<R>>)
    ensures multiset(a + [x] + b) == multiset(a + b) + multiset{x}
    ensures multiset(RowsOf(a + [x] + b)) == multiset(RowsOf(a + b)) + multiset{x.row}
  {
    RowsOfAppend(a, b);
    RowsOfAppend(a + [x], b);
    RowsOfAppend(a, [x]);
  }

  /** Inserting keeps every group of tying entries in order, the new entry
      last in its group. */
  lemma {:induction false} InsertTies<R>(s: seq<Entry<R>>, x: Entry<R>, k: seq<Key>)
    requires forall e | e in s :: |e.keys| == |x.keys|
    ensures Ties(Insert(s, x), k) == Ties(s, k) + Ties([x], k)
  {
    var i := Position(s, x);
    AfterPosition(s, x);
    forall e | e in s[i..]
      ensures x.keys == k ==> e.keys != k
    {
      KeysAsWrittenZeroIffEqual(e.keys, x.keys);
    }
    TiesSplice(s[..i], x, s[i..], k);
    Split(s, i);
  }

  /** Splicing `x` in before entries none of which tie with it, when it
      ties with `k`, puts it last among the entries tying with `k`. */
  lemma {:induction false} TiesSplice<R>(a: seq<Entry<R>>, x: Entry<R>, b: seq<Entry<R>>, k: seq<Key>)
    requires x.keys == k ==> forall e | e in b :: e.keys != k
    ensures Ties(a + [x] + b, k) == Ties(a + b, k) + Ties([x], k)
  {
    TiesAppend(a + [x], b, k);
    TiesAppend(a, [x], k);
    TiesAppend(a, b, k);
    if x.keys == k {
      TiesNone(b, k);
    } else {
      assert [x][..0] == [];
    }
  }

  lemma LastSplit<T>(s: seq<T>)
    requires |s| > 0
    ensures s == s[..|s| - 1] + [s[|s| - 1]]
  {
  }

  lemma Split<T>(s: seq<T>, i: nat)
    requires i <= |s|
    ensures s == s[..i] + s[i..]
  {
  }

  /** In sorted entries no entry compares above any later one. */
  lemma {:induction false} SortedPairs<R>(s: seq<Entry<R>>, n: nat)
    requires SortedBy(s) && Uniform(s, n)
    ensures forall i, j | 0 <= i < j < |s| :: CompareKeys(s[i].keys, s[j].keys) <= 0
  {
    if s != [] {
      var m := |s| - 1;
      var front := s[..m];
      assert SortedBy(front);
      assert Uniform(front, n) by {
        forall e | e in front ensures |e.keys| == n {
          assert e in s;
        }
      }
      SortedPairs(front, n);
      forall i | 0 <= i < m - 1
        ensures CompareKeys(s[i].keys, s[m].keys) <= 0
      {
        assert front[i] == s[i] && front[m - 1] == s[m - 1];
        assert s[i] in s && s[m - 1] in s && s[m] in s;
        NotAboveTransitive(s[i].keys, s[m - 1].keys, s[m].keys);
      }
      forall i, j | 0 <= i < j < |s|
        ensures CompareKeys(s[i].keys, s[j].keys) <= 0
      {
        if j < m {
          assert front[i] == s[i] && front[j] == s[j];
        }
      }
    }
  }

  /** The sort orders the entries, where every two entries' keys are safe
      to subtract. */
  lemma {:induction false} SortSorted<R>(s: seq<Entry<R>>)
    requires Safe(s)
    ensures SortedBy(Sort(s))
  {
    if s != [] {
      var m := |s| - 1;
      var front, x := s[..m], s[m];
      assert Safe(front) by {
        forall e, f | e in front && f in front
          ensures KeysSafe(e.keys, f.keys)
        {
          assert e in s && f in s;
        }
      }
      SortSorted(front);
      SortPermutes(front);
      forall e | e in Sort(front)
        ensures KeysSafe(e.keys, x.keys)
      {
        assert e in multiset(Sort(front));
        assert e in s && x in s;
      }
      InsertSorted(Sort(front), x);
    }
  }

  /** The sort permutes the entries, and so their rows. */
  lemma {:induction false} SortPermutes<R>(s: seq<Entry<R>>)
    ensures multiset(Sort(s)) == multiset(s)
    ensures multiset(RowsOf(Sort(s))) == multiset(RowsOf(s))
  {
    if s != [] {
      var m := |s| - 1;
      var front, x := s[..m], s[m];
      SortPermutes(front);
      InsertPermutes(Sort(front), x);
      LastSplit(s);
      PermutesStep(s, front, x, Sort(front), Sort(s));
      RowsOfAppend(front, [x]);
      assert RowsOf([x]) == [x.row];
      PermutesStep(RowsOf(s), RowsOf(front), x.row, RowsOf(Sort(front)), RowsOf(Sort(s)));
    }
  }

  lemma PermutesStep<T>(s: seq<T>, front: seq<T>, x: T, sorted: seq<T>, t: seq<T>)
    requires s == front + [x] && multiset(sorted) == multiset(front)
    requires multiset(t) == multiset(sorted) + multiset{x}
    ensures multiset(t) == multiset(s)
  {
  }

  /** The sort keeps every group of tying entries in its original order. */
  lemma {:induction false} SortStable<R>(s: seq<Entry<R>>, n: nat, k: seq<Key>)
    requires Uniform(s, n)
    ensures Ties(Sort(s), k) == Ties(s, k)
  {
    if s != [] {
      var m := |s| - 1;
      var front, x := s[..m], s[m];
      assert Uniform(front, n) by {
        forall e | e in front ensures |e.keys| == n {
          assert e in s;
        }
      }
      SortStable(front, n, k);
      SortPermutes(front);
      var sorted := Sort(front);
      forall e | e in sorted
        ensures |e.keys| == |x.keys|
      {
        assert e in multiset(sorted);
        assert x in s;
      }
      InsertTies(sorted, x, k);
      TiesAppend(front, [x], k);
      LastSplit(s);
    }
  }

  // ---------------------------------------------------------------------
  // sorting the drained rows

  /** Each drained row with its keys. */
  function Entries(fields: seq<Expression>, rows: seq<Option<Row>>): (es: Result<seq<Entry<Option<Row>>>>)
    ensures es.Ok? <==> forall i | 0 <= i < |rows| :: RowKeys(fields, rows[i]).Ok?
    ensures es.Ok? ==>
              |es.value| == |rows|
              && forall i | 0 <= i < |rows| :: es.value[i] == Entry(rows[i], RowKeys(fields, rows[i]).value)
  {
    if rows == [] then Ok([])
    else
      var ks :- RowKeys(fields, rows[0]);
      var rest :- Entries(fields, rows[1..]);
      Ok([Entry(rows[0], ks)] + rest)
  }

  /** `input.sort(comparator)`: fewer than two rows are left as they are
      without a comparison; otherwise the rows come out in stable order of
      their keys, and a key that fails to evaluate fails the sort. */
  function SortRows(fields: seq<Expression>, rows: seq<Option<Row>>): (r: Result<seq<Option<Row>>>)
    ensures r.Ok? <==> |rows| < 2 || forall i | 0 <= i < |rows| :: RowKeys(fields, rows[i]).Ok?
    ensures r.Ok? ==> |r.value| == |rows|
  {
    if |rows| < 2 then Ok(rows)
    else
      var es :- Entries(fields, rows);
      Ok(RowsOf(Sort(es)))
  }

  /** SortRows over `fields`, as a function value. */
  function SortWith(fields: seq<Expression>): (f: seq<Option<Row>> -> Result<seq<Option<Row>>>)
    ensures forall rows :: f(rows) == SortRows(fields, rows)
  {
    rows => SortRows(fields, rows)
  }

  /** The rows among `rows` whose keys are exactly `ks`, in order. */
  function Tied(fields: seq<Expression>, rows: seq<Option<Row>>, ks: seq<Key>): (t: seq<Option<Row>>)
    ensures |t| <= |rows|
  {
    if rows == [] then []
    else Tied(fields, rows[..|rows| - 1], ks) + (if RowKeys(fields, rows[|rows| - 1]) == Ok(ks) then [rows[|rows| - 1]] else [])
  }

  /** Every entry holds its row's keys. */
  predicate Keyed(fields: seq<Expression>, es: seq<Entry<Option<Row>>>)
  {
    forall e | e in es :: RowKeys(fields, e.row) == Ok(e.keys)
  }

  /** The entries' rows are the drained rows, and each entry holds its row's
      keys, one per field. */
  lemma {:induction false} EntriesOf(fields: seq<Expression>, rows: seq<Option<Row>>)
    requires Entries(fields, rows).Ok?
    ensures var es := Entries(fields, rows).value;
            RowsOf(es) == rows && Keyed(fields, es) && Uniform(es, |fields|)
  {
    var es := Entries(fields, rows).value;
    assert RowsOf(es) == rows;
    forall e | e in es
      ensures RowKeys(fields, e.row) == Ok(e.keys) && |e.keys| == |fields|
    {
      var i :| 0 <= i < |es| && es[i] == e;
    }
  }

  /** Entries drawn from keyed, uniform entries are keyed and uniform. */
  lemma {:induction false} KeyedWithin(fields: seq<Expression>, es: seq<Entry<Option<Row>>>, t: seq<Entry<Option<Row>>>)
    requires Keyed(fields, es) && Uniform(es, |fields|) && multiset(t) == multiset(es)
    ensures Keyed(fields, t) && Uniform(t, |fields|)
  {
    forall e | e in t
      ensures RowKeys(fields, e.row) == Ok(e.keys) && |e.keys| == |fields|
    {
      assert e in multiset(t);
      assert e in es;
    }
  }

  /** The sorted rows are the drained rows, rearranged. */
  lemma {:induction false} SortRowsPermutes(fields: seq<Expression>, rows: seq<Option<Row>>)
    requires SortRows(fields, rows).Ok?
    ensures multiset(SortRows(fields, rows).value) == multiset(rows)
  {
    if |rows| >= 2 {
      var es := Entries(fields, rows).value;
      EntriesOf(fields, rows);
      SortPermutes(es);
    }
  }

  /** The integer keys of each field, taken on any two of the rows, differ
      by less than 2^63: the comparator's `long r = a - b` never wraps. */
  predicate NoOverflow(fields: seq<Expression>, rows: seq<Option<Row>>)
  {
    forall i, j | 0 <= i < |rows| && 0 <= j < |rows| ::
      RowKeys(fields, rows[i]).Ok? && RowKeys(fields, rows[j]).Ok? ==>
        KeysSafe(RowKeys(fields, rows[i]).value, RowKeys(fields, rows[j]).value)
  }

  /** Entries of rows without overflow are safe to sort. */
  lemma EntriesSafe(fields: seq<Expression>, rows: seq<Option<Row>>)
    requires Entries(fields, rows).Ok? && NoOverflow(fields, rows)
    ensures Safe(Entries(fields, rows).value)
  {
    var es := Entries(fields, rows).value;
    forall e, f | e in es && f in es
      ensures KeysSafe(e.keys, f.keys)
    {
      var i :| 0 <= i < |es| && es[i] == e;
      var j :| 0 <= j < |es| && es[j] == f;
    }
  }

  /** Where no integer subtraction overflows, no sorted row compares above
      a later one: the comparator evaluates on every pair and returns at
      most 0. */
  lemma {:induction false} SortRowsOrdered(fields: seq<Expression>, rows: seq<Option<Row>>)
    requires SortRows(fields, rows).Ok? && NoOverflow(fields, rows)
    ensures var r := SortRows(fields, rows).value;
            forall i, j | 0 <= i < j < |r| :: CompareRows(fields, r[i], r[j]).Ok? && CompareRows(fields, r[i], r[j]).value <= 0
  {
    if |rows| >= 2 {
      var es := Entries(fields, rows).value;
      var t := Sort(es);
      EntriesOf(fields, rows);
      EntriesSafe(fields, rows);
      SortPermutes(es);
      SortSorted(es);
      KeyedWithin(fields, es, t);
      SortedPairs(t, |fields|);
      var r := RowsOf(t);
      forall i, j | 0 <= i < j < |r|
        ensures CompareRows(fields, r[i], r[j]).Ok? && CompareRows(fields, r[i], r[j]).value <= 0
      {
        assert t[i] in t && t[j] in t;
        assert t[i] in multiset(t) && t[j] in multiset(t);
        assert t[i] in es && t[j] in es;
        CompareRowsByKeys(fields, t[i].row, t[j].row);
        KeysAgree(t[i].keys, t[j].keys);
      }
    }
  }

  /** With the wrapped subtraction, a row whose key is 1 and a later row
      whose key is Long.MIN_VALUE stay in that order: `MIN_VALUE - 1` wraps
      to a positive difference, so the later row ranks above the first. */
  lemma OverflowKeepsOrder()
    ensures var a, b := Entry(0, [IntKey(1)]), Entry(1, [IntKey(-TWO_63)]);
            Sort([a, b]) == [a, b]
  {
    var a, b := Entry(0, [IntKey(1)]), Entry(1, [IntKey(-TWO_63)]);
    assert [a, b][..1] == [a];
    assert Wrap64(1 - (-TWO_63)) == -TWO_63 + 1;
    assert CompareKeysAsWritten(a.keys, b.keys) < 0;
  }

  /** Rows whose keys tie keep the order they were drained in. */
  lemma {:induction false} SortRowsStable(fields: seq<Expression>, rows: seq<Option<Row>>, ks: seq<Key>)
    requires SortRows(fields, rows).Ok?
    ensures Tied(fields, SortRows(fields, rows).value, ks) == Tied(fields, rows, ks)
  {
    if |rows| >= 2 {
      var es := Entries(fields, rows).value;
      var t := Sort(es);
      EntriesOf(fields, rows);
      SortPermutes(es);
      KeyedWithin(fields, es, t);
      SortStable(es, |fields|, ks);
      TiedRows(fields, t, ks);
      TiedRows(fields, es, ks);
    }
  }

  /** For keyed entries, tying by keys is tying by the rows' keys. */
  lemma {:induction false} TiedRows(fields: seq<Expression>, es: seq<Entry<Option<Row>>>, ks: seq<Key>)
    requires Keyed(fields, es)
    ensures RowsOf(Ties(es, ks)) == Tied(fields, RowsOf(es), ks)
  {
    if es != [] {
      var m := |es| - 1;
      var front, x := es[..m], es[m];
      KeyedFront(fields, es);
      TiedRows(fields, front, ks);
      var extra := if x.keys == ks then [x] else [];
      assert Ties(es, ks) == Ties(front, ks) + extra;
      RowsOfAppend(Ties(front, ks), extra);
      assert RowsOf(extra) == if RowKeys(fields, x.row) == Ok(ks) then [x.row] else [];
      RowsOfTake(es, m);
      TiedLast(fields, RowsOf(es), ks);
    }
  }

  /** The entries before the last are keyed, and so is the last one. */
  lemma KeyedFront(fields: seq<Expression>, es: seq<Entry<Option<Row>>>)
    requires Keyed(fields, es) && es != []
    ensures Keyed(fields, es[..|es| - 1]) && RowKeys(fields, es[|es| - 1].row) == Ok(es[|es| - 1].keys)
  {
    forall e | e in es[..|es| - 1] ensures RowKeys(fields, e.row) == Ok(e.keys) {
      assert e in es;
    }
    assert es[|es| - 1] in es;
  }

  /** The last row ties or not, after the rows before it. */
  lemma TiedLast(fields: seq<Expression>, rows: seq<Option<Row>>, ks: seq<Key>)
    requires rows != []
    ensures var m := |rows| - 1;
            Tied(fields, rows, ks) == Tied(fields, rows[..m], ks) + (if RowKeys(fields, rows[m]) == Ok(ks) then [rows[m]] else [])
  {
  }
}
