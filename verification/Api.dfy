/** The protobuf types of api/v0/expression.proto, with the Go accessors' behaviour on
    absent or mismatched oneof members. Enumerations are open in protobuf, so both carry a
    constructor for codes the program does not know. */
module Api {
  import opened Wrappers

  const TWO_TO_THE_63: int := 0x8000_0000_0000_0000
  const TWO_TO_THE_64: int := 0x1_0000_0000_0000_0000

  type int8 = x: int | -0x80 <= x < 0x80
  type int16 = x: int | -0x8000 <= x < 0x8000
  type int32 = x: int | -0x8000_0000 <= x < 0x8000_0000
  type int64 = x: int | -0x8000_0000_0000_0000 <= x < 0x8000_0000_0000_0000
  type uint8 = x: int | 0 <= x < 0x100
  type uint16 = x: int | 0 <= x < 0x1_0000
  type uint32 = x: int | 0 <= x < 0x1_0000_0000
  type uint64 = x: int | 0 <= x < 0x1_0000_0000_0000_0000

  /** float64 as far as comparisons can tell its values apart. */
  datatype Double = NaN | NegInf | Finite(r: real) | PosInf {

    predicate Equals(that: Double) {
      !this.NaN? && this == that
    }

    predicate LessThan(that: Double) {
      match (this, that)
      case (NegInf, Finite(_)) => true
      case (NegInf, PosInf) => true
      case (Finite(_), PosInf) => true
      case (Finite(a), Finite(b)) => a < b
      case _ => false
    }
  }

  datatype Timestamp = Timestamp(seconds: int64, nanos: int32)

  datatype ValueType =
    | UNSPECIFIED | STRING
    | SINT8 | SINT16 | SINT32 | SINT64
    | UINT8 | UINT16 | UINT32 | UINT64
    | BOOL | DOUBLE | TIMESTAMP
    | UnknownType(code: int)

  datatype Payload =
    | NoPayload
    | SignedValue(signed: int64)
    | UnsignedValue(unsigned: uint64)
    | StringValue(text: string)
    | BoolValue(b: bool)
    | DoubleValue(d: Double)
    | TimestampValue(stamp: Timestamp)

  datatype Value = Value(typ: ValueType, payload: Payload) {

    function GetSigned(): int64 {
      if payload.SignedValue? then payload.signed else 0
    }

    function GetUnsigned(): uint64 {
      if payload.UnsignedValue? then payload.unsigned else 0
    }

    function GetString(): string {
      if payload.StringValue? then payload.text else ""
    }

    function GetBool(): bool {
      payload.BoolValue? && payload.b
    }

    function GetDouble(): Double {
      if payload.DoubleValue? then payload.d else Finite(0.0)
    }

    function GetTimestamp(): Timestamp {
      if payload.TimestampValue? then payload.stamp else Timestamp(0, 0)
    }
  }

  datatype ExpressionType =
    | IDENTIFIER | VALUE
    | LOGICAL_AND | LOGICAL_OR
    | EQ | NE | LT | LE | GT | GE | LIKE
    | IS_NULL | IS_NOT_NULL
    | BITWISE_AND
    | UnknownExpression(code: int)

  /** A nil pointer inside the oneof reads exactly like an unset oneof, so only the two
      operands of a BinaryOp need an Option of their own. */
  datatype ExpressionPayload =
    | NoExpr
    | IdentifierOf(name: string)
    | ValueOf(val: Value)
    | BinaryOf(left: Option<Expression>, right: Option<Expression>)
    | UnaryOf(arg: Expression)

  datatype Expression = Expression(typ: ExpressionType, expr: ExpressionPayload) {

    function GetIdentifier(): string {
      if expr.IdentifierOf? then expr.name else ""
    }

    function GetValue(): Value {
      if expr.ValueOf? then expr.val else Value(UNSPECIFIED, NoPayload)
    }

    predicate HasOperands() {
      expr.BinaryOf? && expr.left.Some? && expr.right.Some?
    }

    function Lhs(): Expression
      requires HasOperands()
    {
      expr.left.value
    }

    function Rhs(): Expression
      requires HasOperands()
    {
      expr.right.value
    }
  }

  predicate IsLogical(t: ExpressionType) {
    t.LOGICAL_AND? || t.LOGICAL_OR?
  }

  predicate IsOrdering(t: ExpressionType) {
    t.LT? || t.LE? || t.GT? || t.GE?
  }

  predicate IsComparison(t: ExpressionType) {
    t.EQ? || t.NE? || IsOrdering(t) || t.LIKE?
  }

  predicate IsNullTest(t: ExpressionType) {
    t.IS_NULL? || t.IS_NOT_NULL?
  }

  predicate IsSigned(t: ValueType) {
    t.SINT8? || t.SINT16? || t.SINT32? || t.SINT64?
  }

  predicate IsUnsigned(t: ValueType) {
    t.UINT8? || t.UINT16? || t.UINT32? || t.UINT64?
  }

  predicate IsInteger(t: ValueType) {
    IsSigned(t) || IsUnsigned(t)
  }

  predicate IsNumeric(t: ValueType) {
    IsInteger(t) || t.DOUBLE? || t.TIMESTAMP?
  }

  // --- Node constructors (pkg/expression/expression.go) ---

  function Identifier(name: string): Expression {
    Expression(IDENTIFIER, IdentifierOf(name))
  }

  function Literal(v: Value): Expression {
    Expression(VALUE, ValueOf(v))
  }

  function Binary(op: ExpressionType, lhs: Expression, rhs: Expression): Expression {
    Expression(op, BinaryOf(Some(lhs), Some(rhs)))
  }

  function Unary(op: ExpressionType, arg: Expression): Expression {
    Expression(op, UnaryOf(arg))
  }

  /** LogicalAnd and LogicalOr: a nil side yields the other side. */
  function Logical(op: ExpressionType, lhs: Option<Expression>, rhs: Option<Expression>): Option<Expression> {
    if lhs.None? then rhs
    else if rhs.None? then lhs
    else Some(Binary(op, lhs.value, rhs.value))
  }
}
