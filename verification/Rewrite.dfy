/** pkg/sensor/syscall.go and pkg/sensor/process.go: the static "bounded by syscall id" analysis
    and the rewriting of deprecated filter fields into expressions. */
module Rewrite {
  import opened Wrappers
  import opened Api
  import opened Validate
  import opened Evaluate
  import opened KernelFilter
  import opened FilterMeaning

  // --- containsIDFilter ---

  predicate ContainsIDFilter(node: Expression)
    requires Shaped(node)
  {
    if node.typ.LOGICAL_AND? then ContainsIDFilter(node.Lhs()) || ContainsIDFilter(node.Rhs())
    else if node.typ.LOGICAL_OR? then ContainsIDFilter(node.Lhs()) && ContainsIDFilter(node.Rhs())
    else node.typ.EQ? && node.Lhs().typ.IDENTIFIER? && node.Lhs().GetIdentifier() == "id"
  }

  /** containsIDFilter as it is called, on a tree that nothing has checked yet: None is the panic of
      following a nil BinaryOp. A nil operand is not followed. */
  function AnalyseID(expr: Option<Expression>): Option<bool> {
    match expr
    case None => Some(false)
    case Some(node) =>
      if !IsLogical(node.typ) && !node.typ.EQ? then Some(false)
      else if !node.expr.BinaryOf? then None
      else if node.typ.EQ? then Some(IsIDField(node.expr.left))
      else
        match AnalyseID(node.expr.left)
        case None => None
        case Some(b) => if b == node.typ.LOGICAL_AND? then Some(b) else AnalyseID(node.expr.right)
  }

  predicate IsIDField(expr: Option<Expression>) {
    expr.Some? && expr.value.typ.IDENTIFIER? && expr.value.GetIdentifier() == "id"
  }

  /** On a tree whose nodes carry what they should the analysis does not panic. */
  lemma {:induction false} ShapedIsAnalysed(node: Expression)
    requires Shaped(node)
    ensures AnalyseID(Some(node)) == Some(ContainsIDFilter(node))
  {
    if IsLogical(node.typ) {
      ShapedIsAnalysed(node.Lhs());
      ShapedIsAnalysed(node.Rhs());
    }
  }

  /** The constants that an accepted filter compares "id" with. */
  function IDConstants(node: Expression): set<Value>
    requires KernelValid(node) && ContainsIDFilter(node)
  {
    if IsLogical(node.typ) then
      KernelOperands(node);
      if node.typ.LOGICAL_OR? then IDConstants(node.Lhs()) + IDConstants(node.Rhs())
      else if ContainsIDFilter(node.Lhs()) then IDConstants(node.Lhs())
      else IDConstants(node.Rhs())
    else {node.Rhs().GetValue()}
  }

  /** Soundness of the analysis: whenever Evaluate finds an accepted kernel-valid filter true,
      "id" has one of finitely many values fixed by the tree. */
  lemma {:induction false} IDFilterBoundsID(node: Expression, types: FieldTypeMap, values: FieldValueMap)
    requires KernelValid(node) && ContainsIDFilter(node)
    requires EvaluatesTrue(node, types, values)
    ensures var id := IdentifierValue("id", types, values);
            id.Success? && id.value in IDConstants(node)
    decreases node
  {
    if IsLogical(node.typ) {
      KernelOperands(node);
      if ContainsIDFilter(node.Lhs()) && EvaluatesTrue(node.Lhs(), types, values) {
        IDFilterBoundsID(node.Lhs(), types, values);
      }
      if ContainsIDFilter(node.Rhs()) && EvaluatesTrue(node.Rhs(), types, values) {
        IDFilterBoundsID(node.Rhs(), types, values);
      }
    } else {
      KernelTest(node);
      assert Shaped(node.Rhs());
      assert Eval(node.Lhs(), types, values) == IdentifierValue("id", types, values);
      assert Eval(node.Rhs(), types, values) == Success(node.Rhs().GetValue());
      EqualValuesAreSame(IdentifierValue("id", types, values).value, node.Rhs().GetValue());
    }
  }

  /** Two well-formed strings or integers of one type that compare equal are one value. */
  lemma EqualValuesAreSame(l: Value, r: Value)
    requires l.typ.UNSPECIFIED? || ValidateValue(l).Pass?
    requires ValidateValue(r).Pass? && ValidateKernelValue(r).Pass?
    requires ComparisonValue(EQ, l, r) == Success(BoolOf(true))
    ensures l == r
  {
  }

  /** Kernel validity is needed: `id == id` passes the analysis and is true of every id. */
  lemma SelfComparisonIsUnbounded(n: int64)
    ensures var node := Binary(EQ, Identifier("id"), Identifier("id"));
            && Accepted(node) && Shaped(node) && !KernelValid(node)
            && ContainsIDFilter(node)
            && EvaluatesTrue(node, map["id" := SINT64], map["id" := GoInt64(n)])
  {
    var id := Identifier("id");
    assert ValidateNode(id, false).Pass?;
    assert Eval(id, map["id" := SINT64], map["id" := GoInt64(n)]) == Success(Value(SINT64, SignedValue(n)));
  }

  // --- What the kernel makes of an accepted filter ---

  /** The analysis, on a filter as it was read. */
  predicate BoundsID(f: Filter) {
    match f
    case And(l, r) => BoundsID(l) || BoundsID(r)
    case Or(l, r) => BoundsID(l) && BoundsID(r)
    case Test(op, lhs, _) => op.EQ? && lhs == Field("id")
    case _ => false
  }

  /** The literals that such a filter compares "id" with. */
  function IDLiterals(f: Filter): set<Filter>
    requires BoundsID(f)
  {
    match f
    case And(l, r) => if BoundsID(l) then IDLiterals(l) else IDLiterals(r)
    case Or(l, r) => IDLiterals(l) + IDLiterals(r)
    case Test(_, _, literal) => {literal}
  }

  ghost predicate IDIsOneOf(literals: set<Filter>, values: FieldValueMap) {
    exists c :: c in literals && Holds(Test(EQ, Field("id"), c), values)
  }

  /** Every part of a filter holds, not looking at its tests of what "id" is equal to. */
  ghost predicate OthersHold(f: Filter, values: FieldValueMap) {
    match f
    case And(l, r) => OthersHold(l, values) && OthersHold(r, values)
    case Or(l, r) => OthersHold(l, values) && OthersHold(r, values)
    case _ => BoundsID(f) || Holds(f, values)
  }

  /** On filters the analysis is exact: one that passes lets through only finitely many values of
      "id"; one that does not lets through whatever its other parts hold of, whatever is compared
      with "id". */
  lemma {:induction false} BoundedExactly(f: Filter, values: FieldValueMap)
    ensures BoundsID(f) && Holds(f, values) ==> IDIsOneOf(IDLiterals(f), values)
    ensures !BoundsID(f) && OthersHold(f, values) ==> Holds(f, values)
  {
    match f
    case And(l, r) =>
      BoundedExactly(l, values);
      BoundedExactly(r, values);
    case Or(l, r) =>
      BoundedExactly(l, values);
      BoundedExactly(r, values);
    case _ =>
  }

  /** With && binding tighter a tree is read as a disjunction of segments. Do the segments before
      the last all bound "id", and does the last? */
  function Segments(node: Expression): (bool, bool)
    requires Shaped(node)
  {
    if IsLogical(node.typ) then
      var l, r := Segments(node.Lhs()), Segments(node.Rhs());
      if node.typ.LOGICAL_AND? then (l.0, l.1 || (r.0 && r.1)) else (l.0 && l.1, r.0 && r.1)
    else (true, ContainsIDFilter(node))
  }

  predicate TighterBounds(node: Expression)
    requires Shaped(node)
  {
    Segments(node).0 && Segments(node).1
  }

  lemma {:induction false} SegmentsExactly(node: Expression)
    requires KernelValid(node)
    ensures var c := ChainOf(AndTighter, node);
            && (Segments(node).0 <==> c.before.None? || BoundsID(c.before.value))
            && (Segments(node).1 <==> BoundsID(c.last))
            && (TighterBounds(node) <==> BoundsID(c.Close()))
  {
    if IsLogical(node.typ) {
      KernelOperands(node);
      SegmentsExactly(node.Lhs());
      SegmentsExactly(node.Rhs());
    } else {
      TestBounds(node);
    }
  }

  lemma TestBounds(node: Expression)
    requires KernelValid(node) && !IsLogical(node.typ)
    ensures BoundsID(Collapse(node)) <==> ContainsIDFilter(node)
  {
    if !node.typ.IDENTIFIER? && !node.typ.VALUE? {
      KernelTest(node);
      if node.typ.NE? && node.Lhs().typ.BITWISE_AND? {
        KernelTest(node.Lhs());
      }
    }
  }

  lemma {:induction false} CollapseBounds(node: Expression)
    requires KernelValid(node)
    ensures BoundsID(Collapse(node)) <==> ContainsIDFilter(node)
  {
    if IsLogical(node.typ) {
      KernelOperands(node);
      CollapseBounds(node.Lhs());
      CollapseBounds(node.Rhs());
    } else {
      TestBounds(node);
    }
  }

  /** Soundness of the analysis for the filter that the kernel reads. With && and || at one level
      what is read is bounded exactly when the analysis says so. With && binding tighter it is
      exactly when each of its segments is, which is more than the analysis asks, and the same
      unless some && has a || immediately to its left. */
  lemma ReadIsBoundedExactly(node: Expression)
    requires KernelValid(node)
    ensures var one, tighter := Read(OneLevel, Print(node)), Read(AndTighter, Print(node));
            && one.Some? && (BoundsID(one.value) <==> ContainsIDFilter(node))
            && tighter.Some? && (BoundsID(tighter.value) <==> TighterBounds(node))
    ensures TighterBounds(node) ==> ContainsIDFilter(node)
    ensures NoOrLeftOfAnd(node) ==> (TighterBounds(node) <==> ContainsIDFilter(node))
  {
    OneLevelRoundTrip(node);
    CollapseBounds(node);
    ReadsBack(AndTighter, node);
    SegmentsExactly(node);
    AndTighterChain(node);
    if TighterBounds(node) {
      TighterIsMore(node);
    }
  }

  lemma {:induction false} TighterIsMore(node: Expression)
    requires KernelValid(node) && TighterBounds(node)
    ensures ContainsIDFilter(node)
  {
    if IsLogical(node.typ) {
      KernelOperands(node);
      if TighterBounds(node.Lhs()) {
        TighterIsMore(node.Lhs());
      }
      if TighterBounds(node.Rhs()) {
        TighterIsMore(node.Rhs());
      }
    }
  }

  /** A filter that passes the analysis and both checks, and that the kernel reads as one which is
      true of every id: `(arg0 == 1 || arg1 == 1) && id == n`. */
  lemma AcceptedButUnbounded(n: int64, id: int64)
    ensures var node := TwoArgumentsAndID(n);
            && Accepted(node) && KernelValid(node) && ContainsIDFilter(node) && !TighterBounds(node)
            && Read(AndTighter, Print(node)).Some?
            && Holds(Read(AndTighter, Print(node)).value, map["arg0" := GoUint64(1), "id" := GoInt64(id)])
  {
    TwoArgumentsAreRegistrable(n);
    TwoArgumentsAreRead(n);
    ReadIsBoundedExactly(TwoArgumentsAndID(n));
  }

  lemma TwoArgumentsAreRead(n: int64)
    requires KernelValid(TwoArgumentsAndID(n))
    ensures ContainsIDFilter(TwoArgumentsAndID(n))
    ensures Read(AndTighter, Print(TwoArgumentsAndID(n)))
         == Some(Or(Test(EQ, Field("arg0"), Number(1)),
                    And(Test(EQ, Field("arg1"), Number(1)), Test(EQ, Field("id"), Number(n)))))
  {
    TwoArgumentsAreRegistrable(n);
    ReadsBack(AndTighter, TwoArgumentsAndID(n));
    OrOnTheLeft(Argument("arg0"), Argument("arg1"), FieldEquals("id", Int64(n)));
  }

  function Argument(name: string): Expression {
    FieldEquals(name, Value(UINT64, UnsignedValue(1)))
  }

  function TwoArgumentsAndID(n: int64): Expression {
    Binary(LOGICAL_AND, Binary(LOGICAL_OR, Argument("arg0"), Argument("arg1")), FieldEquals("id", Int64(n)))
  }

  lemma TwoArgumentsAreRegistrable(n: int64)
    ensures var x, y, z := Argument("arg0"), Argument("arg1"), FieldEquals("id", Int64(n));
            && Registrable(Some(x)) && Registrable(Some(y)) && Registrable(Some(z))
            && Registrable(Some(Binary(LOGICAL_OR, x, y))) && Registrable(Some(TwoArgumentsAndID(n)))
  {
    var x, y, z := Argument("arg0"), Argument("arg1"), FieldEquals("id", Int64(n));
    TestIsRegistrable(x);
    TestIsRegistrable(y);
    TestIsRegistrable(z);
    LogicalIsRegistrable(LOGICAL_OR, x, y);
    LogicalIsRegistrable(LOGICAL_AND, Binary(LOGICAL_OR, x, y), z);
  }

  /** What is read of three tests in `(x || y) && z`. */
  lemma OrOnTheLeft(x: Expression, y: Expression, z: Expression)
    requires KernelValid(x) && KernelValid(y) && KernelValid(z)
    requires !IsLogical(x.typ) && !IsLogical(y.typ) && !IsLogical(z.typ)
    requires KernelValid(Binary(LOGICAL_OR, x, y))
    requires KernelValid(Binary(LOGICAL_AND, Binary(LOGICAL_OR, x, y), z))
    ensures ChainOf(AndTighter, Binary(LOGICAL_AND, Binary(LOGICAL_OR, x, y), z))
         == Chain(Some(Collapse(x)), And(Collapse(y), Collapse(z)))
  {
    assert ChainOf(AndTighter, Binary(LOGICAL_OR, x, y)) == Chain(Some(Collapse(x)), Collapse(y));
  }

  // --- Deprecated fields ---

  /** Is the filter's expression, if it has one, true? No expression filters nothing out. */
  predicate Passes(expr: Option<Expression>, types: FieldTypeMap, values: FieldValueMap)
    requires expr.Some? ==> Shaped(expr.value)
  {
    expr.Some? ==> EvaluatesTrue(expr.value, types, values)
  }

  /** Both checks that a subscription's filter must pass to be registered. */
  predicate Registrable(expr: Option<Expression>) {
    expr.Some? ==> Accepted(expr.value) && KernelValid(expr.value)
  }

  function FieldEquals(name: string, v: Value): Expression {
    Binary(EQ, Identifier(name), Literal(v))
  }

  function FieldLike(name: string, pattern: string): Expression {
    Binary(LIKE, Identifier(name), Literal(Value(STRING, StringValue(pattern))))
  }

  function Conjoin(test: Expression, expr: Option<Expression>): Option<Expression> {
    Logical(LOGICAL_AND, Some(test), expr)
  }

  lemma ConjoinMeans(test: Expression, expr: Option<Expression>, types: FieldTypeMap, values: FieldValueMap)
    requires Shaped(test) && (expr.Some? ==> Shaped(expr.value))
    ensures var both := Conjoin(test, expr);
            && both.Some? && Shaped(both.value)
            && (Passes(both, types, values) <==> EvaluatesTrue(test, types, values) && Passes(expr, types, values))
            && (ContainsIDFilter(both.value)
                <==> ContainsIDFilter(test) || (expr.Some? && ContainsIDFilter(expr.value)))
  {
  }

  lemma ConjoinIsRegistrable(test: Expression, expr: Option<Expression>)
    requires Registrable(Some(test))
    ensures Registrable(Conjoin(test, expr)) <==> Registrable(expr)
  {
    if expr.Some? {
      var both := Binary(LOGICAL_AND, test, expr.value);
      assert ValidateNode(both, true) == ValidateOperands(both, true) == ValidateNode(expr.value, true);
      if Accepted(expr.value) {
        ValidatedIsShaped(expr.value, true);
        assert ValidateKernelFilterTree(both) == ValidateKernelFilterNode(both)
            == ValidateKernelFilterTree(expr.value);
      }
    }
  }

  lemma LogicalIsRegistrable(op: ExpressionType, l: Expression, r: Expression)
    requires IsLogical(op) && Registrable(Some(l)) && Registrable(Some(r))
    ensures Registrable(Some(Binary(op, l, r)))
  {
    var both := Binary(op, l, r);
    assert ValidateNode(both, true) == ValidateOperands(both, true);
    ValidatedIsShaped(both, true);
    assert ValidateKernelFilterTree(both) == ValidateKernelFilterNode(both);
  }

  /** A comparison of a well-named field with a kernel literal passes both checks. */
  lemma TestIsRegistrable(test: Expression)
    requires (test.typ.EQ? || test.typ.LIKE?) && test.HasOperands()
    requires test.Lhs() == Identifier(test.Lhs().GetIdentifier())
    requires ValidateIdentifier(test.Lhs().GetIdentifier()).Pass?
    requires test.Rhs() == Literal(test.Rhs().GetValue())
    requires ValidateValue(test.Rhs().GetValue()).Pass? && ValidateKernelValue(test.Rhs().GetValue()).Pass?
    requires test.typ.LIKE? ==> test.Rhs().GetValue().typ.STRING?
    ensures Registrable(Some(test)) && Shaped(test)
  {
    assert ValidateNode(test.Lhs(), false).Pass? && ValidateNode(test.Rhs(), false).Pass?;
    assert ValidateOperands(test, false).Pass?;
    assert ValidateNode(test, true).Pass?;
    ValidatedIsShaped(test, true);
    assert ValidateKernelFilterNode(test).Pass?;
    assert ValidateKernelFilterTree(test).Pass?;
  }

  lemma FieldEqualsMeans(name: string, v: Value, types: FieldTypeMap, values: FieldValueMap)
    requires ValidateIdentifier(name).Pass? && ValidateValue(v).Pass? && ValidateKernelValue(v).Pass?
    ensures var test := FieldEquals(name, v);
            && Registrable(Some(test)) && Shaped(test)
            && (ContainsIDFilter(test) <==> name == "id")
            && (EvaluatesTrue(test, types, values) <==> IdentifierValue(name, types, values) == Success(v))
  {
    var test := FieldEquals(name, v);
    TestIsRegistrable(test);
    var field := Eval(test.Lhs(), types, values);
    assert field == IdentifierValue(name, types, values);
    assert Eval(test.Rhs(), types, values) == Success(v);
    if field.Success? && ComparisonValue(EQ, field.value, v) == Success(BoolOf(true)) {
      EqualValuesAreSame(field.value, v);
    }
  }

  /** The field is a string that the pattern matches; on "*" evaluation panics instead. */
  ghost predicate FieldMatches(name: string, pattern: string, types: FieldTypeMap, values: FieldValueMap) {
    var v := IdentifierValue(name, types, values);
    v.Success? && v.value.typ.STRING? && pattern != "*" && LikeMeaning(v.value.GetString(), pattern)
  }

  lemma FieldLikeMeans(name: string, pattern: string, types: FieldTypeMap, values: FieldValueMap)
    requires ValidateIdentifier(name).Pass?
    ensures var test := FieldLike(name, pattern);
            && Registrable(Some(test)) && Shaped(test)
            && (EvaluatesTrue(test, types, values) <==> FieldMatches(name, pattern, types, values))
  {
    var test := FieldLike(name, pattern);
    TestIsRegistrable(test);
    var field, p := Eval(test.Lhs(), types, values), Value(STRING, StringValue(pattern));
    assert field == IdentifierValue(name, types, values);
    assert Eval(test.Rhs(), types, values) == Success(p);
    if field.Success? && field.value.typ.STRING? {
      LikeIsItsMeaning(field.value.GetString(), pattern);
    }
  }

  // --- Syscall filters ---

  datatype SyscallEventType = SYSCALL_ENTER | SYSCALL_EXIT | SYSCALL_OTHER(code: int)

  /** The value of a SyscallEventFilter message. */
  datatype SyscallFilter = SyscallFilter(
    typ: SyscallEventType, id: Option<int64>, ret: Option<int64>, expr: Option<Expression>)

  function Int64(n: int64): Value {
    Value(SINT64, SignedValue(n))
  }

  function RewriteSyscall(f: SyscallFilter): SyscallFilter {
    var f1 := if f.id.Some? then f.(expr := Conjoin(FieldEquals("id", Int64(f.id.value)), f.expr), id := None) else f;
    if f.typ.SYSCALL_EXIT? && f.ret.Some? then
      f1.(expr := Conjoin(FieldEquals("ret", Int64(f.ret.value)), f1.expr), ret := None)
    else f1
  }

  class SyscallEventFilter {
    var typ: SyscallEventType
    var id: Option<int64>
    var ret: Option<int64>
    var filterExpression: Option<Expression>

    function View(): SyscallFilter
      reads this
    {
      SyscallFilter(typ, id, ret, filterExpression)
    }

    method Rewrite()
      modifies this
      ensures View() == RewriteSyscall(old(View()))
    {
      if id.Some? {
        var newExpr := FieldEquals("id", Int64(id.value));
        filterExpression := Logical(LOGICAL_AND, Some(newExpr), filterExpression);
        id := None;
      }
      if typ.SYSCALL_EXIT? {
        if ret.Some? {
          var newExpr := FieldEquals("ret", Int64(ret.value));
          filterExpression := Logical(LOGICAL_AND, Some(newExpr), filterExpression);
          ret := None;
        }
      }
    }
  }

  lemma KnownIdentifiers()
    ensures ValidateIdentifier("id").Pass? && ValidateIdentifier("ret").Pass?
    ensures ValidateIdentifier("filename").Pass? && ValidateIdentifier("code").Pass?
  {
  }

  /** A test put in front of an expression is read as one of two conjuncts, however && and || are
      grouped. */
  lemma ConjoinReads(g: Grouping, test: Expression, expr: Option<Expression>)
    requires KernelValid(test) && !IsLogical(test.typ)
    requires expr.Some? ==> KernelValid(expr.value)
    ensures var both := Conjoin(test, expr);
            && both.Some? && KernelValid(both.value)
            && Read(g, Print(both.value)) ==
                 Some(if expr.None? then Collapse(test) else And(Collapse(test), ChainOf(g, expr.value).Close()))
  {
    var both := Conjoin(test, expr).value;
    if expr.Some? {
      assert ValidateKernelFilterTree(both) == ValidateKernelFilterNode(both);
    }
    ReadsBack(g, both);
  }

  lemma IDTestHolds(n: int, values: FieldValueMap)
    ensures Holds(Test(EQ, Field("id"), Number(n)), values) <==> "id" in values && NumberIn(values["id"]) == Some(n)
  {
  }

  /** What rewriting makes of a filter that had an id is bounded by that id for the kernel too,
      however it groups, and whatever the old expression was. */
  lemma RewrittenIsBounded(g: Grouping, f: SyscallFilter, values: FieldValueMap)
    requires f.id.Some? && Registrable(f.expr)
    ensures var e := RewriteSyscall(f).expr;
            && e.Some? && KernelValid(e.value)
            && var r := Read(g, Print(e.value));
               && r.Some? && BoundsID(r.value)
               && (Holds(r.value, values) ==>
                     "id" in values && NumberIn(values["id"]) == Some(f.id.value))
  {
    KnownIdentifiers();
    var test := FieldEquals("id", Int64(f.id.value));
    TestIsRegistrable(test);
    ConjoinReads(g, test, f.expr);
    assert Collapse(test) == Test(EQ, Field("id"), Number(f.id.value));
    IDTestHolds(f.id.value, values);
    var e := Conjoin(test, f.expr);
    ReadsBack(g, e.value);
    var inner := Read(g, Print(e.value)).value;
    assert Holds(inner, values) ==> Holds(Collapse(test), values);
    if f.typ.SYSCALL_EXIT? && f.ret.Some? {
      var returned := FieldEquals("ret", Int64(f.ret.value));
      TestIsRegistrable(returned);
      ConjoinReads(g, returned, e);
      var both := Conjoin(returned, e);
      assert RewriteSyscall(f).expr == both;
      assert Read(g, Print(both.value)) == Some(And(Collapse(returned), inner));
    } else {
      assert RewriteSyscall(f).expr == e;
    }
  }

  /** On a filter that gave an id the analysis does not panic, and says yes, whatever the old
      expression is: it does not get that far. */
  lemma RewrittenIsAnalysed(f: SyscallFilter)
    requires f.id.Some?
    ensures AnalyseID(RewriteSyscall(f).expr) == Some(true)
  {
    var e := Conjoin(FieldEquals("id", Int64(f.id.value)), f.expr);
    assert AnalyseID(Some(FieldEquals("id", Int64(f.id.value)))) == Some(true);
    assert AnalyseID(e) == Some(true);
    if f.typ.SYSCALL_EXIT? && f.ret.Some? {
      assert AnalyseID(Some(FieldEquals("ret", Int64(f.ret.value)))) == Some(false);
    }
  }

  lemma RewrittenIsTight(f: SyscallFilter)
    requires f.id.Some? && Registrable(f.expr)
    ensures var e := RewriteSyscall(f).expr;
            e.Some? && KernelValid(e.value) && TighterBounds(e.value)
  {
    RewrittenIsBounded(AndTighter, f, map[]);
    ReadIsBoundedExactly(RewriteSyscall(f).expr.value);
  }

  lemma RewriteSyscallIsRegistrable(f: SyscallFilter)
    ensures Registrable(RewriteSyscall(f).expr) <==> Registrable(f.expr)
  {
    KnownIdentifiers();
    var e := f.expr;
    if f.id.Some? {
      var test := FieldEquals("id", Int64(f.id.value));
      TestIsRegistrable(test);
      ConjoinIsRegistrable(test, e);
      e := Conjoin(test, e);
    }
    if f.typ.SYSCALL_EXIT? && f.ret.Some? {
      var test := FieldEquals("ret", Int64(f.ret.value));
      TestIsRegistrable(test);
      ConjoinIsRegistrable(test, e);
    }
  }

  /** Rewriting a syscall filter: the new expression is true exactly when every applicable
      deprecated field matches and the old expression, if any, is true; it is registrable
      exactly when the old one was; a filter that had an id is bounded by id afterwards; and
      rewriting again changes nothing. */
  lemma RewriteSyscallKeepsMeaning(f: SyscallFilter, types: FieldTypeMap, values: FieldValueMap)
    requires f.expr.Some? ==> Shaped(f.expr.value)
    ensures var g := RewriteSyscall(f);
            && (g.expr.Some? ==> Shaped(g.expr.value))
            && (Passes(g.expr, types, values) <==>
                  && (f.id.Some? ==> IdentifierValue("id", types, values) == Success(Int64(f.id.value)))
                  && (f.typ.SYSCALL_EXIT? && f.ret.Some? ==>
                        IdentifierValue("ret", types, values) == Success(Int64(f.ret.value)))
                  && Passes(f.expr, types, values))
            && (Registrable(g.expr) <==> Registrable(f.expr))
            && (f.id.Some? ==> g.expr.Some? && ContainsIDFilter(g.expr.value))
            && g.typ == f.typ && g.id == None && g.ret == (if f.typ == SYSCALL_EXIT then None else f.ret)
            && RewriteSyscall(g) == g
  {
    KnownIdentifiers();
    var e := f.expr;
    if f.id.Some? {
      var test := FieldEquals("id", Int64(f.id.value));
      FieldEqualsMeans("id", Int64(f.id.value), types, values);
      ConjoinMeans(test, e, types, values);
      ConjoinIsRegistrable(test, e);
      e := Conjoin(test, e);
    }
    if f.typ.SYSCALL_EXIT? && f.ret.Some? {
      var test := FieldEquals("ret", Int64(f.ret.value));
      FieldEqualsMeans("ret", Int64(f.ret.value), types, values);
      ConjoinMeans(test, e, types, values);
      ConjoinIsRegistrable(test, e);
    }
  }

  /** The deprecated fields that apply match what the kernel has of the event. */
  ghost predicate SyscallFieldsMatch(f: SyscallFilter, values: FieldValueMap) {
    && (f.id.Some? ==> "id" in values && NumberIn(values["id"]) == Some(f.id.value))
    && (f.typ == SYSCALL_EXIT && f.ret.Some? ==> "ret" in values && NumberIn(values["ret"]) == Some(f.ret.value))
  }

  /** What rewriting makes of a syscall filter is read, however && and || are grouped, as one that
      lets an event through exactly when the deprecated fields that apply match and what is read of
      the old expression, if any, lets it through. */
  lemma RewriteSyscallReads(g: Grouping, f: SyscallFilter, values: FieldValueMap)
    requires Registrable(f.expr) && RewriteSyscall(f).expr.Some?
    ensures var e := RewriteSyscall(f).expr.value;
            && KernelValid(e)
            && (Holds(ChainOf(g, e).Close(), values) <==>
                  && SyscallFieldsMatch(f, values)
                  && (f.expr.Some? ==> Holds(ChainOf(g, f.expr.value).Close(), values)))
  {
    KnownIdentifiers();
    var e := f.expr;
    if f.id.Some? {
      var test := FieldEquals("id", Int64(f.id.value));
      TestReads(g, test, e, values);
      TestIsRegistrable(test);
      ConjoinIsRegistrable(test, e);
      e := Conjoin(test, e);
    }
    if f.typ.SYSCALL_EXIT? && f.ret.Some? {
      TestReads(g, FieldEquals("ret", Int64(f.ret.value)), e, values);
    }
  }

  // --- Process filters ---

  datatype ProcessEventType = PROCESS_FORK | PROCESS_EXEC | PROCESS_EXIT | PROCESS_OTHER(code: int)

  /** The value of a ProcessEventFilter message. */
  datatype ProcessFilter = ProcessFilter(
    typ: ProcessEventType, execFilename: Option<string>, execFilenamePattern: Option<string>,
    exitCode: Option<int32>, expr: Option<Expression>)

  function Text(s: string): Value {
    Value(STRING, StringValue(s))
  }

  function RewriteProcess(f: ProcessFilter): ProcessFilter {
    if f.typ.PROCESS_EXEC? && f.execFilename.Some? then
      f.(expr := Conjoin(FieldEquals("filename", Text(f.execFilename.value)), f.expr),
         execFilename := None, execFilenamePattern := None)
    else if f.typ.PROCESS_EXEC? && f.execFilenamePattern.Some? then
      f.(expr := Conjoin(FieldLike("filename", f.execFilenamePattern.value), f.expr), execFilenamePattern := None)
    else if f.typ.PROCESS_EXIT? && f.exitCode.Some? then
      f.(expr := Conjoin(FieldEquals("code", Value(SINT32, SignedValue(f.exitCode.value))), f.expr), exitCode := None)
    else f
  }

  class ProcessEventFilter {
    var typ: ProcessEventType
    var execFilename: Option<string>
    var execFilenamePattern: Option<string>
    var exitCode: Option<int32>
    var filterExpression: Option<Expression>

    function View(): ProcessFilter
      reads this
    {
      ProcessFilter(typ, execFilename, execFilenamePattern, exitCode, filterExpression)
    }

    method Rewrite()
      modifies this
      ensures View() == RewriteProcess(old(View()))
    {
      match typ {
        case PROCESS_EXEC =>
          if execFilename.Some? {
            var newExpr := FieldEquals("filename", Text(execFilename.value));
            filterExpression := Logical(LOGICAL_AND, Some(newExpr), filterExpression);
            execFilename := None;
            execFilenamePattern := None;
          } else if execFilenamePattern.Some? {
            var newExpr := FieldLike("filename", execFilenamePattern.value);
            filterExpression := Logical(LOGICAL_AND, Some(newExpr), filterExpression);
            execFilenamePattern := None;
          }
        case PROCESS_EXIT =>
          if exitCode.Some? {
            var newExpr := FieldEquals("code", Value(SINT32, SignedValue(exitCode.value)));
            filterExpression := Logical(LOGICAL_AND, Some(newExpr), filterExpression);
            exitCode := None;
          }
        case _ =>
      }
    }
  }

  /** The deprecated fields that apply to the filter's event type all match. A file name given
      outright makes the pattern irrelevant. */
  ghost predicate DeprecatedFieldsMatch(f: ProcessFilter, types: FieldTypeMap, values: FieldValueMap) {
    match f.typ
    case PROCESS_EXEC =>
      if f.execFilename.Some? then
        IdentifierValue("filename", types, values) == Success(Text(f.execFilename.value))
      else f.execFilenamePattern.Some? ==> FieldMatches("filename", f.execFilenamePattern.value, types, values)
    case PROCESS_EXIT =>
      f.exitCode.Some? ==>
        IdentifierValue("code", types, values) == Success(Value(SINT32, SignedValue(f.exitCode.value)))
    case _ => true
  }

  /** The deprecated fields that apply match what the kernel has of the event: the text of its file
      name, or the number that its exit code is, whatever its width. */
  ghost predicate KernelFieldsMatch(f: ProcessFilter, values: FieldValueMap) {
    match f.typ
    case PROCESS_EXEC =>
      if f.execFilename.Some? then "filename" in values && values["filename"] == GoString(f.execFilename.value)
      else
        f.execFilenamePattern.Some? ==>
          && "filename" in values && values["filename"].GoString?
          && LikeMeaning(values["filename"].s, f.execFilenamePattern.value)
    case PROCESS_EXIT =>
      f.exitCode.Some? ==> "code" in values && NumberIn(values["code"]) == Some(f.exitCode.value)
    case _ => true
  }

  /** What rewriting makes of a process filter is read, however && and || are grouped, as one that
      lets an event through exactly when the deprecated fields that apply match and what is read of
      the old expression, if any, lets it through. */
  lemma RewriteProcessReads(g: Grouping, f: ProcessFilter, values: FieldValueMap)
    requires Registrable(f.expr) && RewriteProcess(f).expr.Some?
    ensures var e := RewriteProcess(f).expr.value;
            && KernelValid(e)
            && (Holds(ChainOf(g, e).Close(), values) <==>
                  && KernelFieldsMatch(f, values)
                  && (f.expr.Some? ==> Holds(ChainOf(g, f.expr.value).Close(), values)))
  {
    KnownIdentifiers();
    var e := RewriteProcess(f).expr.value;
    if f.typ.PROCESS_EXEC? && f.execFilename.Some? {
      TestReads(g, FieldEquals("filename", Text(f.execFilename.value)), f.expr, values);
    } else if f.typ.PROCESS_EXEC? && f.execFilenamePattern.Some? {
      TestReads(g, FieldLike("filename", f.execFilenamePattern.value), f.expr, values);
    } else if f.typ.PROCESS_EXIT? && f.exitCode.Some? {
      TestReads(g, FieldEquals("code", Value(SINT32, SignedValue(f.exitCode.value))), f.expr, values);
    }
  }

  /** A test in front of an expression, as it is read: both must hold. */
  lemma TestReads(g: Grouping, test: Expression, expr: Option<Expression>, values: FieldValueMap)
    requires (test.typ.EQ? || test.typ.LIKE?) && test.HasOperands()
    requires test.Lhs() == Identifier(test.Lhs().GetIdentifier())
    requires ValidateIdentifier(test.Lhs().GetIdentifier()).Pass?
    requires test.Rhs() == Literal(test.Rhs().GetValue())
    requires ValidateValue(test.Rhs().GetValue()).Pass? && ValidateKernelValue(test.Rhs().GetValue()).Pass?
    requires test.typ.LIKE? ==> test.Rhs().GetValue().typ.STRING?
    requires Registrable(expr)
    ensures var both := Conjoin(test, expr);
            && both.Some? && KernelValid(both.value)
            && (Holds(ChainOf(g, both.value).Close(), values) <==>
                  && Holds(Test(test.typ, Field(test.Lhs().GetIdentifier()), LiteralFilter(test.Rhs().GetValue())),
                           values)
                  && (expr.Some? ==> Holds(ChainOf(g, expr.value).Close(), values)))
  {
    TestIsRegistrable(test);
    ConjoinReads(g, test, expr);
    ReadsBack(g, Conjoin(test, expr).value);
    KernelTest(test);
    assert Collapse(test) == Test(test.typ, Field(test.Lhs().GetIdentifier()), LiteralFilter(test.Rhs().GetValue()));
  }

  /** The kernel's exit code has 64 bits and the literal put in for it 32. So where the field is
      declared as what it is, the rewritten filter does not pass Validate, and Evaluate fails on it;
      only as the kernel reads it, without widths, does it do what was meant. */
  lemma ExitCodeTypesDiffer(code: int32, n: int64)
    ensures var test := FieldEquals("code", Value(SINT32, SignedValue(code)));
            var types, values := map["code" := SINT64], map["code" := GoInt64(n)];
            && Registrable(Some(test)) && KernelValid(test)
            && ValidateTypes(test, types) == Failure(TypeMismatch(SINT64, SINT32))
            && Eval(test, types, values) == Failure(TypesDiffer(EQ, SINT64, SINT32))
            && (Holds(Collapse(test), values) <==> n == code)
  {
    KnownIdentifiers();
    var test := FieldEquals("code", Value(SINT32, SignedValue(code)));
    var types, values := map["code" := SINT64], map["code" := GoInt64(n)];
    TestIsRegistrable(test);
    assert Eval(test.Lhs(), types, values) == Success(Value(SINT64, SignedValue(n)));
    assert Eval(test.Rhs(), types, values) == Success(Value(SINT32, SignedValue(code)));
    assert ValidateTypes(test.Lhs(), types) == Success(SINT64);
    assert Collapse(test) == Test(EQ, Field("code"), Number(code));
  }

  lemma RewriteProcessIsRegistrable(f: ProcessFilter)
    ensures Registrable(RewriteProcess(f).expr) <==> Registrable(f.expr)
  {
    KnownIdentifiers();
    if f.typ.PROCESS_EXEC? && f.execFilename.Some? {
      var test := FieldEquals("filename", Text(f.execFilename.value));
      TestIsRegistrable(test);
      ConjoinIsRegistrable(test, f.expr);
    } else if f.typ.PROCESS_EXEC? && f.execFilenamePattern.Some? {
      var test := FieldLike("filename", f.execFilenamePattern.value);
      TestIsRegistrable(test);
      ConjoinIsRegistrable(test, f.expr);
    } else if f.typ.PROCESS_EXIT? && f.exitCode.Some? {
      var test := FieldEquals("code", Value(SINT32, SignedValue(f.exitCode.value)));
      TestIsRegistrable(test);
      ConjoinIsRegistrable(test, f.expr);
    }
  }

  /** Rewriting a process filter keeps its meaning, and doing it twice is doing it once. */
  lemma RewriteProcessKeepsMeaning(f: ProcessFilter, types: FieldTypeMap, values: FieldValueMap)
    requires f.expr.Some? ==> Shaped(f.expr.value)
    ensures var g := RewriteProcess(f);
            && (g.expr.Some? ==> Shaped(g.expr.value))
            && (Passes(g.expr, types, values) <==>
                  DeprecatedFieldsMatch(f, types, values) && Passes(f.expr, types, values))
            && (Registrable(g.expr) <==> Registrable(f.expr))
            && g.typ == f.typ
            && g.execFilename == (if f.typ == PROCESS_EXEC then None else f.execFilename)
            && g.execFilenamePattern == (if f.typ == PROCESS_EXEC then None else f.execFilenamePattern)
            && g.exitCode == (if f.typ == PROCESS_EXIT then None else f.exitCode)
            && RewriteProcess(g) == g
  {
    KnownIdentifiers();
    if f.typ.PROCESS_EXEC? && f.execFilename.Some? {
      FieldEqualsMeans("filename", Text(f.execFilename.value), types, values);
      ConjoinMeans(FieldEquals("filename", Text(f.execFilename.value)), f.expr, types, values);
      ConjoinIsRegistrable(FieldEquals("filename", Text(f.execFilename.value)), f.expr);
    } else if f.typ.PROCESS_EXEC? && f.execFilenamePattern.Some? {
      FieldLikeMeans("filename", f.execFilenamePattern.value, types, values);
      ConjoinMeans(FieldLike("filename", f.execFilenamePattern.value), f.expr, types, values);
      ConjoinIsRegistrable(FieldLike("filename", f.execFilenamePattern.value), f.expr);
    } else if f.typ.PROCESS_EXIT? && f.exitCode.Some? {
      var v := Value(SINT32, SignedValue(f.exitCode.value));
      FieldEqualsMeans("code", v, types, values);
      ConjoinMeans(FieldEquals("code", v), f.expr, types, values);
      ConjoinIsRegistrable(FieldEquals("code", v), f.expr);
    }
  }
}
