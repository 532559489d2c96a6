/** MiniQL expressions (package `miniql`): column references, integer and
    string literals and comparisons, with their static types, their typed
    evaluation over a row (the row is absent when a statement evaluates
    literals on their own) and validation. */
module Expressions {
  import opened Results
  import opened Bytes
  import opened DataTypes
  import opened Tables
  import opened Rows

  /** ComparisonExpression.Operator. */
  datatype Operator = LessThan | GreaterThan | Equal | NotEqual

  /** A parsed comparator: which of the EQ, NE, LT and GT tokens it holds,
      and its text. */
  datatype Comparator = Comparator(eq: bool, ne: bool, lt: bool, gt: bool, text: string)

  /** The implementations of Expression. */
  datatype Expression =
    | ColumnRef(column: Column)
    | IntegerLiteral(value: Int64)
    | StringLiteral(text: seq<byte>)
    | Comparison(left: Expression, op: Operator, right: Expression)

  const CANT_INTEGER := IllegalState("can't evaluate as integer")
  const CANT_BOOLEAN := IllegalState("can't evaluate as boolean")

  /** getOperator: the first of EQ, NE, LT and GT that the comparator holds. */
  function GetOperator(c: Comparator): (r: Result<Operator>)
    ensures r.Ok? <==> c.eq || c.ne || c.lt || c.gt
    ensures r.Err? ==> r.error == ParseCancellation("unrecognized operator: " + c.text)
  {
    if c.eq then Ok(Equal)
    else if c.ne then Ok(NotEqual)
    else if c.lt then Ok(LessThan)
    else if c.gt then Ok(GreaterThan)
    else Err(ParseCancellation("unrecognized operator: " + c.text))
  }

  /** The comparator the grammar produces for an operator: its one token. */
  function TokenOf(o: Operator, text: string): Comparator
  {
    Comparator(o == Equal, o == NotEqual, o == LessThan, o == GreaterThan, text)
  }

  /** getOperator inverts the grammar: a comparator holding one token yields
      that token's operator. */
  lemma GetOperatorOfToken(o: Operator, text: string)
    ensures GetOperator(TokenOf(o, text)) == Ok(o)
  {
  }

  /** getType(), as the class of the type object: the column's declared
      type, integer and string for the literals, boolean for a comparison. */
  function TypeOf(e: Expression): Kind
  {
    match e
    case ColumnRef(c) => KindOf(c.columnType)
    case IntegerLiteral(_) => IntegerKind
    case StringLiteral(_) => StringKind
    case Comparison(_, _, _) => BooleanKind
  }

  /** ColumnExpression.evaluate(r): r.getValueForColumn(column), on a row
      that may be absent. */
  function ColumnValue(c: Column, r: Option<Row>): Result<Value>
  {
    if r.None? then Err(NullPointer) else GetValueForColumn(r.value, c)
  }

  /** evaluate(r). */
  function Evaluate(e: Expression, r: Option<Row>): (v: Result<Value>)
    ensures v.Ok? && e.Comparison? ==> v.value.BoolValue?
    ensures e.IntegerLiteral? ==> v == Ok(IntValue(e.value))
    ensures e.StringLiteral? ==> v == Ok(StrValue(e.text))
    decreases e, 1
  {
    match e
    case ColumnRef(c) => ColumnValue(c, r)
    case IntegerLiteral(n) => Ok(IntValue(n))
    case StringLiteral(s) => Ok(StrValue(s))
    case Comparison(_, _, _) =>
      var b :- EvaluateAsBoolean(e, r);
      Ok(BoolValue(b))
  }

  /** evaluateAsInteger(r): an integer column's value (cast to Long), the
      integer literal's value, and otherwise the failing default. */
  function EvaluateAsInteger(e: Expression, r: Option<Row>): (v: Result<Int64>)
    ensures TypeOf(e) != IntegerKind ==> v == Err(CANT_INTEGER)
    decreases e, 1
  {
    match e
    case ColumnRef(c) =>
      if c.columnType.IntegerType? then
        var x :- ColumnValue(c, r);
        if x.IntValue? then Ok(x.i) else Err(ClassCast)
      else Err(CANT_INTEGER)
    case IntegerLiteral(n) => Ok(n)
    case _ => Err(CANT_INTEGER)
  }

  /** evaluateAsBoolean(r): a boolean column's value (cast to Boolean), a
      comparison's outcome, and otherwise the failing default.  The ordering
      operators compare the sides' integers, left side first; equality
      compares the sides' objects. */
  function EvaluateAsBoolean(e: Expression, r: Option<Row>): (v: Result<bool>)
    ensures TypeOf(e) != BooleanKind ==> v == Err(CANT_BOOLEAN)
    decreases e, 0
  {
    match e
    case ColumnRef(c) =>
      if c.columnType.BooleanType? then
        var x :- ColumnValue(c, r);
        if x.BoolValue? then Ok(x.b) else Err(ClassCast)
      else Err(CANT_BOOLEAN)
    case Comparison(left, op, right) =>
      (match op
       case LessThan =>
         var a :- EvaluateAsInteger(left, r);
         var b :- EvaluateAsInteger(right, r);
         Ok(a < b)
       case GreaterThan =>
         var a :- EvaluateAsInteger(left, r);
         var b :- EvaluateAsInteger(right, r);
         Ok(a > b)
       case Equal =>
         var a :- Evaluate(left, r);
         var b :- Evaluate(right, r);
         Ok(a == b)
       case NotEqual =>
         var a :- Evaluate(left, r);
         var b :- Evaluate(right, r);
         Ok(a != b))
    case _ => Err(CANT_BOOLEAN)
  }

  /** validate(): a comparison validates its left side, then its right side,
      then requires the sides' types to be comparable; everything else
      validates without a check.  The failure message stops before the
      types' texts, which carry identity hash codes. */
  function Validate(e: Expression): (o: Outcome)
    ensures o.Fail? ==> o.error.InvalidExpression?
  {
    match e
    case Comparison(left, _, right) =>
      var l := Validate(left);
      if l.Fail? then l
      else
        var rr := Validate(right);
        if rr.Fail? then rr
        else if TypeOf(left) == TypeOf(right) then Pass
        else Fail(InvalidExpression("can't compare"))
    case _ => Pass
  }

  // ---------------------------------------------------------------------
  // properties

  /** Every subexpression, the expression itself first. */
  function Subterms(e: Expression): (s: seq<Expression>)
    ensures |s| >= 1 && s[0] == e
  {
    match e
    case Comparison(left, _, right) => [e] + Subterms(left) + Subterms(right)
    case _ => [e]
  }

  /** A comparison whose sides have comparable (same-class) types. */
  predicate Comparable(e: Expression)
  {
    e.Comparison? ==> TypeOf(e.left) == TypeOf(e.right)
  }

  /** validate() passes exactly when every comparison inside compares sides
      of comparable types. */
  lemma {:induction false} ValidateIffComparable(e: Expression)
    ensures Validate(e).Pass? <==> forall d | d in Subterms(e) :: Comparable(d)
  {
    match e
    case Comparison(left, _, right) =>
      ValidateIffComparable(left);
      ValidateIffComparable(right);
      assert Validate(e).Pass? <==> Validate(left).Pass? && Validate(right).Pass? && Comparable(e);
      assert forall d :: d in Subterms(e) <==> d == e || d in Subterms(left) || d in Subterms(right);
    case _ =>
  }

  /** An expression without column references. */
  predicate Literal(e: Expression)
  {
    match e
    case ColumnRef(_) => false
    case Comparison(left, _, right) => Literal(left) && Literal(right)
    case _ => true
  }

  /** An expression without column references evaluates the same on any row,
      the absent row included. */
  lemma {:induction false} LiteralIgnoresRow(e: Expression, r: Option<Row>, r': Option<Row>)
    requires Literal(e)
    ensures Evaluate(e, r) == Evaluate(e, r')
    ensures EvaluateAsInteger(e, r) == EvaluateAsInteger(e, r')
    ensures EvaluateAsBoolean(e, r) == EvaluateAsBoolean(e, r')
  {
    if e.Comparison? {
      LiteralIgnoresRow(e.left, r, r');
      LiteralIgnoresRow(e.right, r, r');
    }
  }

  /** The row has, for every column the expression refers to, a value of
      the column's type. */
  predicate Serves(r: Row, e: Expression)
  {
    match e
    case ColumnRef(c) => c.position < |r.values| && Fits(c.columnType, r.values[c.position])
    case Comparison(left, _, right) => Serves(r, left) && Serves(r, right)
    case _ => true
  }

  /** The ordering comparisons inside compare integer-typed sides. */
  predicate OrdersIntegers(e: Expression)
  {
    match e
    case Comparison(left, op, right) =>
      (op == LessThan || op == GreaterThan ==> TypeOf(left) == IntegerKind && TypeOf(right) == IntegerKind)
      && OrdersIntegers(left) && OrdersIntegers(right)
    case _ => true
  }

  /** Over a row serving its columns, an expression whose ordering
      comparisons are on integers evaluates without failure to a value of
      its static type, and its typed evaluation of that type agrees. */
  lemma {:induction false} EvaluateTotal(e: Expression, r: Row)
    requires Serves(r, e) && OrdersIntegers(e)
    ensures Evaluate(e, Some(r)).Ok? && ValueKind(Evaluate(e, Some(r)).value) == TypeOf(e)
    ensures TypeOf(e) == IntegerKind ==> EvaluateAsInteger(e, Some(r)) == Ok(Evaluate(e, Some(r)).value.i)
    ensures TypeOf(e) == BooleanKind ==> EvaluateAsBoolean(e, Some(r)) == Ok(Evaluate(e, Some(r)).value.b)
  {
    match e
    case Comparison(left, op, right) =>
      EvaluateTotal(left, r);
      EvaluateTotal(right, r);
    case ColumnRef(c) =>
    case _ =>
  }

  /** Passing validate() does not make evaluation total: two string literals
      compared with `<` validate, yet the comparison fails, as strings do not
      evaluate as integers. */
  lemma ValidatedYetFails()
    ensures var e := Comparison(StringLiteral([97]), LessThan, StringLiteral([98]));
            Validate(e) == Pass && EvaluateAsBoolean(e, None) == Err(CANT_INTEGER)
  {
  }

  /** NOT_EQUAL is the negation of EQUAL, failing exactly when it does. */
  lemma NotEqualNegates(left: Expression, right: Expression, r: Option<Row>)
    ensures var eq := EvaluateAsBoolean(Comparison(left, Equal, right), r);
            var ne := EvaluateAsBoolean(Comparison(left, NotEqual, right), r);
            eq.Ok? == ne.Ok? && (eq.Ok? ==> ne.value == !eq.value) && (eq.Err? ==> ne.error == eq.error)
  {
  }

  /** Where both sides evaluate, `a < b` and `b > a` agree, and equality is
      symmetric. */
  lemma ComparisonsSwap(left: Expression, right: Expression, r: Option<Row>)
    requires EvaluateAsInteger(left, r).Ok? && EvaluateAsInteger(right, r).Ok?
    ensures EvaluateAsBoolean(Comparison(left, LessThan, right), r)
            == EvaluateAsBoolean(Comparison(right, GreaterThan, left), r)
  {
  }

  lemma EqualSymmetric(left: Expression, right: Expression, r: Option<Row>)
    requires Evaluate(left, r).Ok? && Evaluate(right, r).Ok?
    ensures EvaluateAsBoolean(Comparison(left, Equal, right), r)
            == EvaluateAsBoolean(Comparison(right, Equal, left), r)
  {
  }
}
