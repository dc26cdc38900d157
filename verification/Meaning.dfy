/** What Evaluate gives for each kind of node, said of the values of its operands and of nothing that
    the evaluator works with; and which types and operators there are. */
module Meaning {
  import opened Wrappers
  import opened Api
  import opened Validate
  import opened Evaluate
  import opened Soundness

  // --- Which operators and types there are ---

  datatype OperatorKind = Leaf | Connective | Equality | Ordering | Pattern | NullTest | Mask | NoOperator

  function KindOf(op: ExpressionType): OperatorKind {
    match op
    case IDENTIFIER => Leaf
    case VALUE => Leaf
    case LOGICAL_AND => Connective
    case LOGICAL_OR => Connective
    case EQ => Equality
    case NE => Equality
    case LT => Ordering
    case LE => Ordering
    case GT => Ordering
    case GE => Ordering
    case LIKE => Pattern
    case IS_NULL => NullTest
    case IS_NOT_NULL => NullTest
    case BITWISE_AND => Mask
    case UnknownExpression(_) => NoOperator
  }

  datatype TypeKind = Signed | Unsigned | Text | Truths | Reals | Times | NoType

  function KindOfType(t: ValueType): TypeKind {
    match t
    case STRING => Text
    case SINT8 => Signed
    case SINT16 => Signed
    case SINT32 => Signed
    case SINT64 => Signed
    case UINT8 => Unsigned
    case UINT16 => Unsigned
    case UINT32 => Unsigned
    case UINT64 => Unsigned
    case BOOL => Truths
    case DOUBLE => Reals
    case TIMESTAMP => Times
    case UNSPECIFIED => NoType
    case UnknownType(_) => NoType
  }

  predicate Compares(op: ExpressionType) {
    KindOf(op).Equality? || KindOf(op).Ordering? || KindOf(op).Pattern?
  }

  /** A value has the payload of its type. */
  predicate WellFormed(v: Value) {
    match KindOfType(v.typ)
    case Signed => v.payload.SignedValue?
    case Unsigned => v.payload.UnsignedValue?
    case Text => v.payload.StringValue?
    case Truths => v.payload.BoolValue?
    case Reals => v.payload.DoubleValue?
    case Times => v.payload.TimestampValue?
    case NoType => false
  }

  lemma {:induction false} ValuesExactly(v: Value)
    ensures ValidateValue(v).Pass? <==> WellFormed(v)
  {
  }

  /** The payloads that the kinds of node call for, all the way down. */
  lemma {:induction false} ShapedExactly(node: Expression)
    ensures Shaped(node) <==>
              match KindOf(node.typ)
              case Leaf =>
                if node.typ.VALUE? then node.expr.ValueOf? && WellFormed(node.expr.val) else node.expr.IdentifierOf?
              case NullTest => node.expr.UnaryOf? && Shaped(node.expr.arg)
              case NoOperator => false
              case _ =>
                && node.expr.BinaryOf? && node.expr.left.Some? && node.expr.right.Some?
                && Shaped(node.expr.left.value) && Shaped(node.expr.right.value)
  {
  }

  // --- Identifiers and literals ---

  /** The names that Go has for the native types. */
  function GoTypeName(v: GoValue): string {
    match v
    case GoString(_) => "string"
    case GoInt8(_) => "int8"
    case GoInt16(_) => "int16"
    case GoInt32(_) => "int32"
    case GoInt64(_) => "int64"
    case GoUint8(_) => "uint8"
    case GoUint16(_) => "uint16"
    case GoUint32(_) => "uint32"
    case GoUint64(_) => "uint64"
    case GoBool(_) => "bool"
    case GoFloat64(_) => "float64"
    case GoOther => "another type"
    case GoNil => "<nil>"
  }

  /** typeStrings: the names wanted for each type of field. */
  function TypeString(t: ValueType): string {
    match t
    case STRING => "string"
    case SINT8 => "int8"
    case SINT16 => "int16"
    case SINT32 => "int32"
    case SINT64 => "int64"
    case UINT8 => "uint8"
    case UINT16 => "uint16"
    case UINT32 => "uint32"
    case UINT64 => "uint64"
    case BOOL => "bool"
    case DOUBLE => "float64"
    case TIMESTAMP => "uint64"
    case _ => ""
  }

  lemma {:induction false} GoTypesByName(v: GoValue, t: ValueType)
    ensures HasGoType(v, t) <==> GoTypeName(v) == TypeString(t)
  {
    match t
    case STRING =>
    case SINT8 =>
    case SINT16 =>
    case SINT32 =>
    case SINT64 =>
    case UINT8 =>
    case UINT16 =>
    case UINT32 =>
    case UINT64 =>
    case BOOL =>
    case DOUBLE =>
    case TIMESTAMP =>
    case _ =>
  }

  /** The nanoseconds of a timestamp, as a uint64 has them. */
  function Count(t: Timestamp): int {
    (t.seconds * 1_000_000_000 + t.nanos) % TWO_TO_THE_64
  }

  lemma {:induction false} CountIsNanos(t: Timestamp)
    ensures TimestampNanos(t) == Count(t)
  {
    var seconds, nanos := t.seconds % TWO_TO_THE_64, t.nanos % TWO_TO_THE_64;
    var s, n := if t.seconds < 0 then 1 else 0, if t.nanos < 0 then 1 else 0;
    assert seconds == t.seconds + s * TWO_TO_THE_64 && nanos == t.nanos + n * TWO_TO_THE_64;
    WholeTurns(t.seconds * 1_000_000_000 + t.nanos, s * 1_000_000_000 + n);
  }

  lemma {:induction false} WholeTurns(x: int, turns: int)
    ensures (x + turns * TWO_TO_THE_64) % TWO_TO_THE_64 == x % TWO_TO_THE_64
  {
    assert (x + turns * TWO_TO_THE_64) / TWO_TO_THE_64 == x / TWO_TO_THE_64 + turns;
  }

  /** Does a value of its type stand for this native one? */
  predicate StandsFor(v: Value, native: GoValue) {
    match native
    case GoString(s) => v.payload == StringValue(s)
    case GoInt8(i) => v.payload == SignedValue(i)
    case GoInt16(i) => v.payload == SignedValue(i)
    case GoInt32(i) => v.payload == SignedValue(i)
    case GoInt64(i) => v.payload == SignedValue(i)
    case GoUint8(u) => v.payload == UnsignedValue(u)
    case GoUint16(u) => v.payload == UnsignedValue(u)
    case GoUint32(u) => v.payload == UnsignedValue(u)
    case GoUint64(u) =>
      v.payload == UnsignedValue(u) ||
      (v.payload.TimestampValue? && Count(v.payload.stamp) == u && 0 <= v.payload.stamp.nanos < 1_000_000_000)
    case GoBool(b) => v.payload == BoolValue(b)
    case GoFloat64(f) => v.payload == DoubleValue(f)
    case GoOther => false
    case GoNil => false
  }

  /** An identifier: an error if it is not declared, NULL if it is not supplied, and otherwise the
      value supplied, in the type declared, if its Go type is the one wanted. */
  lemma {:induction false} IdentifierMeans(x: string, types: FieldTypeMap, values: FieldValueMap)
    ensures var got := Eval(Identifier(x), types, values);
            if x !in types then got == Failure(UndefinedField(x))
            else if x !in values then got.Success? && got.value.typ.UNSPECIFIED?
            else if values[x].GoNil? then got == Failure(NilTypePanic)
            else if GoTypeName(values[x]) != TypeString(types[x]) then got == Failure(DataTypeMismatch(x))
            else
              && got.Success? && got.value.typ == types[x] && WellFormed(got.value)
              && StandsFor(got.value, values[x])
  {
    if x in types && x in values {
      GoTypesByName(values[x], types[x]);
      if values[x].GoUint64? {
        CountIsNanos(TimestampOf(values[x].u64));
        TimestampRoundTrip(values[x].u64);
      }
    }
  }

  lemma {:induction false} LiteralMeans(v: Value, types: FieldTypeMap, values: FieldValueMap)
    requires WellFormed(v)
    ensures Shaped(Literal(v)) && Eval(Literal(v), types, values) == Success(v)
  {
  }

  /** Whatever a shaped tree evaluates to is NULL or has the payload of its type. */
  lemma {:induction false} ResultsAreWellFormed(node: Expression, types: FieldTypeMap, values: FieldValueMap)
    requires Shaped(node) && Eval(node, types, values).Success?
    ensures var v := Eval(node, types, values).value;
            v.typ.UNSPECIFIED? || WellFormed(v)
  {
    if node.typ.IDENTIFIER? {
      var x := node.GetIdentifier();
      IdentifierMeans(x, types, values);
      assert Eval(node, types, values) == Eval(Identifier(x), types, values);
    } else if !node.typ.VALUE? && !IsNullTest(node.typ) {
      var l, r := Eval(node.Lhs(), types, values), Eval(node.Rhs(), types, values);
      ResultsAreWellFormed(node.Lhs(), types, values);
      if r.Success? {
        ResultsAreWellFormed(node.Rhs(), types, values);
        OperatorIsWellFormed(node.typ, l.value, r.value);
      }
    }
  }

  lemma {:induction false} OperatorIsWellFormed(op: ExpressionType, l: Value, r: Value)
    requires IsLogical(op) || IsComparison(op) || op.BITWISE_AND?
    requires l.typ.UNSPECIFIED? || WellFormed(l)
    requires r.typ.UNSPECIFIED? || WellFormed(r)
    ensures var got := OperatorValue(op, l, r);
            got.Success? ==> got.value.typ.UNSPECIFIED? || WellFormed(got.value)
  {
  }

  // --- Comparisons ---

  /** Two values of one type, as what they are. */
  predicate Same(l: Value, r: Value) {
    match (l.payload, r.payload)
    case (DoubleValue(a), DoubleValue(b)) => !a.NaN? && a == b
    case (TimestampValue(a), TimestampValue(b)) => Count(a) == Count(b)
    case _ => l.payload == r.payload
  }

  predicate Less(l: Value, r: Value) {
    match (l.payload, r.payload)
    case (SignedValue(a), SignedValue(b)) => a < b
    case (UnsignedValue(a), UnsignedValue(b)) => a < b
    case (DoubleValue(Finite(a)), DoubleValue(Finite(b))) => a < b
    case (DoubleValue(NegInf), DoubleValue(b)) => b.Finite? || b.PosInf?
    case (DoubleValue(Finite(_)), DoubleValue(b)) => b.PosInf?
    case (TimestampValue(a), TimestampValue(b)) => Count(a) < Count(b)
    case _ => false
  }

  /** What each operator says of two values of one type. */
  ghost predicate Related(op: ExpressionType, l: Value, r: Value) {
    match op
    case EQ => Same(l, r)
    case NE => !Same(l, r)
    case LT => Less(l, r)
    case LE => Less(l, r) || Same(l, r)
    case GT => Less(r, l)
    case GE => Less(r, l) || Same(l, r)
    case LIKE => l.payload.StringValue? && r.payload.StringValue? && LikeMeaning(l.payload.text, r.payload.text)
    case _ => false
  }

  /** Has the operator a meaning on values of this type? */
  predicate Applies(op: ExpressionType, r: Value) {
    && (KindOf(op).Ordering? ==> !r.typ.STRING? && !r.typ.BOOL?)
    && (op.LIKE? ==> r.typ.STRING? && r.payload != StringValue("*"))
  }

  lemma {:induction false} CompareIsRelated(op: ExpressionType, l: Value, r: Value)
    requires Compares(op) && l.typ == r.typ && Applies(op, r)
    requires WellFormed(l) && WellFormed(r)
    ensures Compare(op, l, r) == Success(Related(op, l, r))
  {
    match op
    case LIKE => LikeIsItsMeaning(l.GetString(), r.GetString());
    case _ =>
      if l.typ.TIMESTAMP? {
        CountIsNanos(l.GetTimestamp());
        CountIsNanos(r.GetTimestamp());
      }
  }

  /** A comparison whose operands evaluate, whatever kinds of node they are: FALSE when either is
      NULL, an error when their types differ, and otherwise the relation between the two values. */
  lemma {:induction false} ComparisonMeans(node: Expression, types: FieldTypeMap, values: FieldValueMap)
    requires Compares(node.typ) && Shaped(node)
    requires Eval(node.Lhs(), types, values).Success? && Eval(node.Rhs(), types, values).Success?
    ensures var l, r := Eval(node.Lhs(), types, values).value, Eval(node.Rhs(), types, values).value;
            var got := Eval(node, types, values);
            if l.typ.UNSPECIFIED? || r.typ.UNSPECIFIED? then got == Success(Value(BOOL, BoolValue(false)))
            else if l.typ != r.typ then got == Failure(TypesDiffer(node.typ, l.typ, r.typ))
            else if Applies(node.typ, r) then got == Success(Value(BOOL, BoolValue(Related(node.typ, l, r))))
            else if node.typ.LIKE? && l.typ.STRING? then got == Failure(SliceBoundsPanic)
            else got == Failure(CannotCompare(l.typ))
  {
    var l, r := Eval(node.Lhs(), types, values).value, Eval(node.Rhs(), types, values).value;
    ResultsAreWellFormed(node.Lhs(), types, values);
    ResultsAreWellFormed(node.Rhs(), types, values);
    assert Eval(node, types, values) == ComparisonValue(node.typ, l, r);
    if !l.typ.UNSPECIFIED? && l.typ == r.typ {
      CompareFailsExactly(node.typ, l, r);
      if Applies(node.typ, r) {
        CompareIsRelated(node.typ, l, r);
      } else if node.typ.LIKE? && l.typ.STRING? {
        LikeFailsOnStar(l, r);
      }
    }
  }

  /** An operand that fails to evaluate makes its comparison or mask fail likewise, the left one
      first. */
  lemma {:induction false} FirstErrorCounts(node: Expression, types: FieldTypeMap, values: FieldValueMap)
    requires (Compares(node.typ) || node.typ.BITWISE_AND?) && Shaped(node)
    ensures var l, r := Eval(node.Lhs(), types, values), Eval(node.Rhs(), types, values);
            var got := Eval(node, types, values);
            && (l.Failure? ==> got == Failure(l.error))
            && (l.Success? && r.Failure? ==> got == Failure(r.error))
  {
  }

  /** An operand that IsNullOperand tells of is NULL, if it evaluates at all. */
  lemma {:induction false} NullOperandIsNull(node: Expression, types: FieldTypeMap, values: FieldValueMap)
    requires Shaped(node) && IsNullOperand(node, values) && Eval(node, types, values).Success?
    ensures Eval(node, types, values).value.typ.UNSPECIFIED?
  {
    if node.typ.BITWISE_AND? {
      NullOperandIsNull(node.Lhs(), types, values);
    }
  }

  /** So an operand that is NULL, on whichever side, makes a comparison FALSE. */
  lemma {:induction false} NullComparesFalse(node: Expression, types: FieldTypeMap, values: FieldValueMap)
    requires Compares(node.typ) && Shaped(node)
    requires Eval(node.Lhs(), types, values).Success? && Eval(node.Rhs(), types, values).Success?
    requires IsNullOperand(node.Lhs(), values) || IsNullOperand(node.Rhs(), values)
    ensures Eval(node, types, values) == Success(Value(BOOL, BoolValue(false)))
  {
    if IsNullOperand(node.Lhs(), values) {
      NullOperandIsNull(node.Lhs(), types, values);
    } else {
      NullOperandIsNull(node.Rhs(), types, values);
    }
    ComparisonMeans(node, types, values);
  }

  // --- The other operators ---

  function Number(v: Value): int {
    match v.payload
    case SignedValue(n) => n
    case UnsignedValue(n) => n
    case _ => 0
  }

  /** A mask whose operands evaluate: NULL when both are, an error when one is, when their types
      differ or are not integers, and otherwise the integer of that type with exactly the bits that
      both have. */
  lemma {:induction false} MaskMeans(node: Expression, types: FieldTypeMap, values: FieldValueMap, k: nat)
    requires node.typ == BITWISE_AND && Shaped(node)
    requires Eval(node.Lhs(), types, values).Success? && Eval(node.Rhs(), types, values).Success?
    ensures var l, r := Eval(node.Lhs(), types, values).value, Eval(node.Rhs(), types, values).value;
            var got := Eval(node, types, values);
            if l.typ != r.typ then got == Failure(TypesDiffer(BITWISE_AND, l.typ, r.typ))
            else if l.typ.UNSPECIFIED? then got == Success(Value(UNSPECIFIED, NoPayload))
            else if !KindOfType(l.typ).Signed? && !KindOfType(l.typ).Unsigned? then got == Failure(NotAnInteger(l.typ))
            else got.Success? && HasCommonBit(got.value, l, r, k)
  {
    var l, r := Eval(node.Lhs(), types, values).value, Eval(node.Rhs(), types, values).value;
    ResultsAreWellFormed(node.Lhs(), types, values);
    ResultsAreWellFormed(node.Rhs(), types, values);
    assert Eval(node, types, values) == BitwiseAndValues(l, r);
    if l.typ == r.typ && KindOfType(l.typ).Signed? {
      SignedMask(l, r, k);
    } else if l.typ == r.typ && KindOfType(l.typ).Unsigned? {
      UnsignedMask(l, r, k);
    }
  }

  /** Has a masked value the type of both sides, and of its bits this one exactly when both have it? */
  predicate HasCommonBit(got: Value, l: Value, r: Value, k: nat) {
    && got.typ == l.typ && WellFormed(got)
    && (Bit(Number(got) % TWO_TO_THE_64, k)
        <==> Bit(Number(l) % TWO_TO_THE_64, k) && Bit(Number(r) % TWO_TO_THE_64, k))
  }

  lemma {:induction false} SignedMask(l: Value, r: Value, k: nat)
    requires l.typ == r.typ && KindOfType(l.typ).Signed? && WellFormed(l) && WellFormed(r)
    ensures BitwiseAndValues(l, r).Success? && HasCommonBit(BitwiseAndValues(l, r).value, l, r, k)
  {
    SignedAndKeepsCommonBits(l.payload.signed, r.payload.signed, k);
  }

  lemma {:induction false} UnsignedMask(l: Value, r: Value, k: nat)
    requires l.typ == r.typ && KindOfType(l.typ).Unsigned? && WellFormed(l) && WellFormed(r)
    ensures BitwiseAndValues(l, r).Success? && HasCommonBit(BitwiseAndValues(l, r).value, l, r, k)
  {
    var a, b := l.payload.unsigned, r.payload.unsigned;
    assert a % TWO_TO_THE_64 == a && b % TWO_TO_THE_64 == b && BitAnd(a, b) % TWO_TO_THE_64 == BitAnd(a, b);
    BitAndKeepsCommonBits(a, b, k);
  }

  /** A null test says whether its operand's value is NULL, or is not. */
  lemma {:induction false} NullTestMeans(node: Expression, types: FieldTypeMap, values: FieldValueMap)
    requires KindOf(node.typ).NullTest? && Shaped(node)
    ensures match Eval(node.expr.arg, types, values)
            case Failure(e) => Eval(node, types, values) == Failure(e)
            case Success(v) =>
              var isNull := v.typ == UNSPECIFIED;
              Eval(node, types, values)
              == Success(Value(BOOL, BoolValue(if node.typ.IS_NULL? then isNull else !isNull)))
  {
  }

  /** On a field, it says whether the field is supplied. */
  lemma {:induction false} NullTestOfField(x: string, types: FieldTypeMap, values: FieldValueMap)
    requires x in types && (x in values ==> HasGoType(values[x], types[x]))
    ensures var isNull, isNotNull := Unary(IS_NULL, Identifier(x)), Unary(IS_NOT_NULL, Identifier(x));
            && Shaped(isNull) && Shaped(isNotNull)
            && Eval(isNull, types, values) == Success(Value(BOOL, BoolValue(x !in values)))
            && Eval(isNotNull, types, values) == Success(Value(BOOL, BoolValue(x in values)))
  {
    var field := Identifier(x);
    IdentifierMeans(x, types, values);
    if x in values {
      GoTypesByName(values[x], types[x]);
    }
    NullTestMeans(Unary(IS_NULL, field), types, values);
    NullTestMeans(Unary(IS_NOT_NULL, field), types, values);
  }

  /** Is a value true? A string that is not empty, a number that is not zero, TRUE itself. */
  predicate Truth(v: Value) {
    match v.payload
    case NoPayload => false
    case SignedValue(n) => n != 0
    case UnsignedValue(n) => n != 0
    case StringValue(s) => s != ""
    case BoolValue(b) => b
    case DoubleValue(d) => d != Finite(0.0)
    case TimestampValue(t) => Count(t) != 0
  }

  lemma {:induction false} TruthIsTruth(v: Value)
    requires v.typ.UNSPECIFIED? || WellFormed(v)
    ensures IsValueTrue(v) <==> !v.typ.UNSPECIFIED? && Truth(v)
  {
    if v.typ.TIMESTAMP? {
      CountIsNanos(v.GetTimestamp());
    }
  }

  /** A logical node gives its left side's value when that decides, an error of the left side, and
      otherwise whatever its right side gives. */
  lemma {:induction false} LogicalMeans(node: Expression, types: FieldTypeMap, values: FieldValueMap)
    requires KindOf(node.typ).Connective? && Shaped(node)
    ensures var l := Eval(node.Lhs(), types, values);
            Eval(node, types, values) ==
              if l.Failure? then l
              else if IsValueTrue(l.value) == (node.typ == LOGICAL_OR) then l
              else Eval(node.Rhs(), types, values)
  {
  }
}
