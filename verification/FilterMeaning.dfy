/** The meaning of a kernel filter as its text shows it, and its agreement with Evaluate on the
    tree that was printed. */
module FilterMeaning {
  import opened Wrappers
  import opened Api
  import opened Validate
  import opened Evaluate
  import opened KernelFilter

  /** The number in a field of any integer type; widths play no part in a filter. */
  function NumberIn(v: GoValue): Option<int> {
    match v
    case GoInt8(i) => Some(i)
    case GoInt16(i) => Some(i)
    case GoInt32(i) => Some(i)
    case GoInt64(i) => Some(i)
    case GoUint8(u) => Some(u)
    case GoUint16(u) => Some(u)
    case GoUint32(u) => Some(u)
    case GoUint64(u) => Some(u)
    case _ => None
  }

  predicate IsFieldTrue(v: GoValue) {
    match v
    case GoString(s) => s != ""
    case GoBool(b) => b
    case GoFloat64(f) => !f.Equals(Finite(0.0))
    case GoOther => false
    case GoNil => false
    case _ => NumberIn(v) != Some(0)
  }

  predicate NumberTest(op: ExpressionType, field: int, n: int) {
    match op
    case EQ => field == n
    case NE => field != n
    case LT => field < n
    case LE => field <= n
    case GT => field > n
    case GE => field >= n
    case BITWISE_AND => BitAnd(field % TWO_TO_THE_64, n % TWO_TO_THE_64) != 0
    case _ => false
  }

  ghost predicate TextTest(op: ExpressionType, field: string, text: string) {
    match op
    case EQ => field == text
    case NE => field != text
    case LIKE => LikeMeaning(field, text)
    case _ => false
  }

  /** Does a filter let an event with these fields through? A test of an absent field fails. */
  ghost predicate Holds(f: Filter, values: FieldValueMap) {
    match f
    case Field(x) => x in values && IsFieldTrue(values[x])
    case Number(n) => n != 0
    case Quoted(s) => s != ""
    case And(l, r) => Holds(l, values) && Holds(r, values)
    case Or(l, r) => Holds(l, values) || Holds(r, values)
    case Test(op, Field(x), Number(n)) =>
      x in values && NumberIn(values[x]).Some? && NumberTest(op, NumberIn(values[x]).value, n)
    case Test(op, Field(x), Quoted(s)) =>
      x in values && values[x].GoString? && TextTest(op, values[x].s, s)
    case Test(_, _, _) => false
  }

  lemma FieldMeansIdentifier(x: string, types: FieldTypeMap, values: FieldValueMap)
    requires IdentifierValue(x, types, values).Success?
    ensures IsValueTrue(IdentifierValue(x, types, values).value) <==> Holds(Field(x), values)
  {
    if x in values && types[x].TIMESTAMP? {
      TimestampRoundTrip(values[x].u64);
    }
  }

  lemma SignedAndIsZero(l: int64, r: int64)
    ensures SignedAnd(l, r) == 0 <==> BitAnd(l % TWO_TO_THE_64, r % TWO_TO_THE_64) == 0
  {
    var bits := BitAnd(l % TWO_TO_THE_64, r % TWO_TO_THE_64);
    assert bits <= l % TWO_TO_THE_64 < TWO_TO_THE_64;
  }

  /** One test of a field against a literal of the field's own type. */
  lemma TestMeansOperator(op: ExpressionType, x: string, v: Value, values: FieldValueMap)
    requires IsTest(op) && ValidateValue(v).Pass? && ValidateKernelValue(v).Pass?
    requires op.LIKE? ==> v.typ.STRING?
    requires op.BITWISE_AND? ==> IsInteger(v.typ)
    requires x in values && HasGoType(values[x], v.typ)
    requires OperatorValue(op, Value(v.typ, PayloadOf(values[x], v.typ)), v).Success?
    ensures IsValueTrue(OperatorValue(op, Value(v.typ, PayloadOf(values[x], v.typ)), v).value)
       <==> Holds(Test(op, Field(x), LiteralFilter(v)), values)
  {
    var l := Value(v.typ, PayloadOf(values[x], v.typ));
    if v.typ.STRING? {
      if op.LIKE? {
        LikeIsItsMeaning(l.GetString(), v.GetString());
      }
    } else {
      assert NumberIn(values[x]) == Some(NumberOf(l));
      if op.BITWISE_AND? {
        IntegerAnd(l, v);
      } else {
        IntegerComparison(op, l, v);
      }
    }
  }

  function NumberOf(v: Value): int {
    if IsSigned(v.typ) then v.GetSigned() else v.GetUnsigned()
  }

  lemma IntegerComparison(op: ExpressionType, l: Value, r: Value)
    requires IsComparison(op) && !op.LIKE? && IsInteger(l.typ) && l.typ == r.typ
    ensures ComparisonValue(op, l, r) == Success(BoolOf(NumberTest(op, NumberOf(l), NumberOf(r))))
  {
  }

  lemma IntegerAnd(l: Value, r: Value)
    requires IsInteger(l.typ) && l.typ == r.typ
    ensures BitwiseAndValues(l, r).Success?
    ensures IsValueTrue(BitwiseAndValues(l, r).value) <==> NumberTest(BITWISE_AND, NumberOf(l), NumberOf(r))
  {
    if IsSigned(l.typ) {
      SignedAndIsZero(l.GetSigned(), r.GetSigned());
    } else {
      UnsignedIsItself(l.GetUnsigned());
      UnsignedIsItself(r.GetUnsigned());
    }
  }

  lemma UnsignedIsItself(u: uint64)
    ensures u % TWO_TO_THE_64 == u
  {
  }

  /** A kernel test evaluates to what its text means. */
  lemma TestMeansTree(node: Expression, types: FieldTypeMap, values: FieldValueMap)
    requires Shaped(node) && IsTest(node.typ)
    requires node.Lhs().typ.IDENTIFIER? && node.Rhs().typ.VALUE?
    requires ValidateKernelValue(node.Rhs().GetValue()).Pass?
    requires node.typ.LIKE? ==> node.Rhs().GetValue().typ.STRING?
    requires node.typ.BITWISE_AND? ==> IsInteger(node.Rhs().GetValue().typ)
    requires Eval(node, types, values).Success?
    ensures IsValueTrue(Eval(node, types, values).value)
       <==> Holds(Test(node.typ, Field(node.Lhs().GetIdentifier()), LiteralFilter(node.Rhs().GetValue())), values)
  {
    var x, v := node.Lhs().GetIdentifier(), node.Rhs().GetValue();
    assert Eval(node.Lhs(), types, values) == IdentifierValue(x, types, values);
    assert Eval(node.Rhs(), types, values) == Success(v);
    var l := IdentifierValue(x, types, values).value;
    assert Eval(node, types, values) == OperatorValue(node.typ, l, v);
    if x in values {
      TestMeansOperator(node.typ, x, v, values);
    }
  }

  /** Whenever Evaluate succeeds on a kernel-valid tree, its truth is what the collapsed filter
      means. */
  lemma {:induction false} CollapseKeepsTruth(node: Expression, types: FieldTypeMap, values: FieldValueMap)
    requires KernelValid(node)
    requires Eval(node, types, values).Success?
    ensures EvaluatesTrue(node, types, values) <==> Holds(Collapse(node), values)
    decreases node
  {
    if node.typ.IDENTIFIER? {
      FieldMeansIdentifier(node.GetIdentifier(), types, values);
    } else if node.typ.VALUE? {
      assert ValidateKernelFilterNode(node).Pass?;
    } else if IsLogical(node.typ) {
      KernelOperands(node);
      CollapseKeepsTruth(node.Lhs(), types, values);
      if Eval(node.Rhs(), types, values).Success? {
        CollapseKeepsTruth(node.Rhs(), types, values);
      }
    } else {
      KernelTest(node);
      if node.typ.NE? && node.Lhs().typ.BITWISE_AND? {
        CollapseKeepsTruth(node.Lhs(), types, values);
        NotZeroIsTrue(node, types, values);
      } else {
        TestShape(node);
        TestMeansTree(node, types, values);
      }
    }
  }

  lemma TestShape(node: Expression)
    requires KernelValid(node) && IsTest(node.typ) && !(node.typ.NE? && node.Lhs().typ.BITWISE_AND?)
    ensures node.typ.LIKE? ==> node.Rhs().typ.VALUE? && node.Rhs().GetValue().typ.STRING?
    ensures node.typ.BITWISE_AND? ==> node.Rhs().typ.VALUE? && IsInteger(node.Rhs().GetValue().typ)
  {
    assert node.typ.BITWISE_AND? || ValidateKernelFilterNode(node).Pass?;
  }

  /** `x & m != 0` is true exactly when `x & m` is. */
  lemma NotZeroIsTrue(node: Expression, types: FieldTypeMap, values: FieldValueMap)
    requires Shaped(node) && node.typ.NE? && node.Lhs().typ.BITWISE_AND? && node.Rhs().typ.VALUE?
    requires IsZero(node.Rhs().GetValue())
    requires Eval(node, types, values).Success?
    ensures Eval(node.Lhs(), types, values).Success?
    ensures EvaluatesTrue(node, types, values) <==> EvaluatesTrue(node.Lhs(), types, values)
  {
    assert Eval(node.Rhs(), types, values) == Success(node.Rhs().GetValue());
    var l := Eval(node.Lhs(), types, values).value;
    assert Eval(node, types, values) == ComparisonValue(NE, l, node.Rhs().GetValue());
  }

  /** End to end: the printed filter, read at one level, lets an event through exactly when
      Evaluate finds the expression true of it. */
  lemma PrintedFilterMeansTree(node: Expression, types: FieldTypeMap, values: FieldValueMap)
    requires KernelValid(node)
    requires Eval(node, types, values).Success?
    ensures var f := Read(OneLevel, Print(node));
            f.Some? && (Holds(f.value, values) <==> EvaluatesTrue(node, types, values))
  {
    OneLevelRoundTrip(node);
    CollapseKeepsTruth(node, types, values);
  }

  /** With && binding tighter no event is lost: the filter that is read lets through every event
      the expression is true of. */
  lemma TighterReadingOnlyAdds(node: Expression, types: FieldTypeMap, values: FieldValueMap)
    requires KernelValid(node)
    requires EvaluatesTrue(node, types, values)
    ensures var f := Read(AndTighter, Print(node));
            f.Some? && Holds(f.value, values)
  {
    ReadsBack(AndTighter, node);
    CollapseKeepsTruth(node, types, values);
    ChainHolds(node, values);
  }

  lemma {:induction false} ChainHolds(node: Expression, values: FieldValueMap)
    requires KernelValid(node) && Holds(Collapse(node), values)
    ensures Holds(ChainOf(AndTighter, node).Close(), values)
  {
    if IsLogical(node.typ) {
      KernelOperands(node);
      if Holds(Collapse(node.Lhs()), values) {
        ChainHolds(node.Lhs(), values);
      }
      if Holds(Collapse(node.Rhs()), values) {
        ChainHolds(node.Rhs(), values);
      }
    }
  }

  /** But events can be added: `(x || y) && z` prints without its parentheses, and the tighter
      reading of that lets through every event of x, whatever z says. */
  lemma TighterReadingDropsParentheses(x: Expression, y: Expression, z: Expression,
                                       types: FieldTypeMap, values: FieldValueMap)
    requires KernelValid(x) && KernelValid(y) && KernelValid(z)
    requires EvaluatesTrue(x, types, values)
    requires Eval(z, types, values).Success? && !EvaluatesTrue(z, types, values)
    ensures var node := Binary(LOGICAL_AND, Binary(LOGICAL_OR, x, y), z);
            && KernelValid(node)
            && Eval(node, types, values).Success? && !EvaluatesTrue(node, types, values)
            && Read(AndTighter, Print(node)).Some?
            && Holds(Read(AndTighter, Print(node)).value, values)
  {
    var either := Binary(LOGICAL_OR, x, y);
    assert ValidateKernelFilterNode(either).Pass?;
    var node := Binary(LOGICAL_AND, either, z);
    assert ValidateKernelFilterNode(node).Pass?;
    assert Eval(either, types, values) == Eval(x, types, values);
    ReadsBack(AndTighter, node);
    CollapseKeepsTruth(x, types, values);
    ChainHolds(x, values);
    assert ChainOf(AndTighter, either).before == Some(ChainOf(AndTighter, x).Close());
  }
}
