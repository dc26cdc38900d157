/** pkg/expression/validate.go: the structural, kernel-filter and type checks. */
module Validate {
  import opened Wrappers
  import opened Api

  type FieldTypeMap = map<string, ValueType>

  datatype ValidationError =
    | InvalidIdentifier | IdentifierMissing
    | ValueMissing | PayloadMissing(t: ValueType) | UnrecognizedValueType(t: ValueType)
    | UnexpectedLogical | BinaryOpMissing | LhsMissing | RhsMissing | UnaryOpMissing
    | UnrecognizedExpression(op: ExpressionType)
    | BitAndLhsNotIdentifier | BitAndRhsNotInteger
    | ValueNotKernelType | LhsNotIdentifier | RhsNotValue | RhsNotZero
    | RhsNotInteger | RhsNotString | InvalidExpression(op: ExpressionType)
    | UndefinedIdentifier(name: string)
    | OperandNotBool(t: ValueType) | OperandNotNumeric(t: ValueType)
    | OperandNotString(t: ValueType) | OperandNotInteger(t: ValueType)
    | TypeMismatch(l: ValueType, r: ValueType)

  /** The letters and decimal digits beyond ASCII, which Go takes from the Unicode tables and the
      model leaves open. */
  const OTHER_LETTERS: set<char>
  const OTHER_DIGITS: set<char>

  predicate IsAscii(c: char) {
    c as int < 0x80
  }

  predicate IsLetter(c: char) {
    'a' <= c <= 'z' || 'A' <= c <= 'Z' || (!IsAscii(c) && c in OTHER_LETTERS)
  }

  predicate IsDigit(c: char) {
    '0' <= c <= '9' || (!IsAscii(c) && c in OTHER_DIGITS)
  }

  predicate IsWordCharacter(c: char) {
    IsDigit(c) || IsLetter(c) || c == '_'
  }

  /** The first byte of a character in UTF-8 (section 3 of RFC 3629). */
  function FirstByte(c: char): int {
    var code := c as int;
    if code < 0x80 then code
    else if code < 0x800 then 0xC0 + code / 0x40
    else if code < 0x1_0000 then 0xE0 + code / 0x1000
    else 0xF0 + code / 0x4_0000
  }

  /** unicode.IsLetter of a byte, taken for a character of Latin-1. */
  predicate IsLatin1Letter(b: int) {
    || 0x41 <= b <= 0x5A || 0x61 <= b <= 0x7A || b == 0xAA || b == 0xB5 || b == 0xBA
    || (0xC0 <= b <= 0xFF && b != 0xD7 && b != 0xF7)
  }

  /** The first test looks at the first byte, the second at every character. */
  function ValidateIdentifier(ident: string): Outcome<ValidationError> {
    if |ident| == 0 then Fail(InvalidIdentifier)
    else if !(IsLatin1Letter(FirstByte(ident[0])) || ident[0] == '_') then Fail(InvalidIdentifier)
    else if exists i :: 0 <= i < |ident| && !IsWordCharacter(ident[i]) then Fail(InvalidIdentifier)
    else Pass
  }

  /** Which identifiers are accepted. What was meant is a letter or an underscore followed by
      letters, digits and underscores, and on ASCII that is so. Beyond ASCII the first byte is
      nearly always taken for a letter: an identifier may then begin with a digit, but not with
      a letter whose first byte is 0xD7, as those of Hebrew are. */
  lemma IdentifiersExactly(ident: string)
    ensures ValidateIdentifier(ident).Pass? <==>
              && ident != ""
              && (forall c :: c in ident ==>
                    if c as int < 0x80 then '0' <= c <= '9' || 'A' <= c <= 'Z' || 'a' <= c <= 'z' || c == '_'
                    else c in OTHER_LETTERS + OTHER_DIGITS)
              && (if ident[0] as int < 0x80 then !('0' <= ident[0] <= '9') else !(0x5C0 <= ident[0] as int < 0x600))
  {
    if ident != "" {
      FirstBytes(ident[0]);
    }
    if i :| 0 <= i < |ident| && !IsWordCharacter(ident[i]) {
      assert ident[i] in ident;
    }
  }

  lemma FirstBytes(c: char)
    ensures IsAscii(c) ==> (IsLatin1Letter(FirstByte(c)) <==> IsLetter(c))
    ensures !IsAscii(c) ==> (IsLatin1Letter(FirstByte(c)) <==> !(0x5C0 <= c as int < 0x600))
  {
  }

  function ValidateValue(v: Value): Outcome<ValidationError> {
    if v.typ.STRING? then
      if v.payload.StringValue? then Pass else Fail(PayloadMissing(v.typ))
    else if IsSigned(v.typ) then
      if v.payload.SignedValue? then Pass else Fail(PayloadMissing(v.typ))
    else if IsUnsigned(v.typ) then
      if v.payload.UnsignedValue? then Pass else Fail(PayloadMissing(v.typ))
    else if v.typ.BOOL? then
      if v.payload.BoolValue? then Pass else Fail(PayloadMissing(v.typ))
    else if v.typ.DOUBLE? then
      if v.payload.DoubleValue? then Pass else Fail(PayloadMissing(v.typ))
    else if v.typ.TIMESTAMP? then
      if v.payload.TimestampValue? then Pass else Fail(PayloadMissing(v.typ))
    else Fail(UnrecognizedValueType(v.typ))
  }

  function ValidateNode(node: Expression, logical: bool): Outcome<ValidationError>
    decreases node, 1
  {
    if node.typ.IDENTIFIER? then
      if node.GetIdentifier() == "" then Fail(IdentifierMissing)
      else ValidateIdentifier(node.GetIdentifier())
    else if node.typ.VALUE? then
      if !node.expr.ValueOf? then Fail(ValueMissing)
      else ValidateValue(node.expr.val)
    else if IsLogical(node.typ) then
      if !logical then Fail(UnexpectedLogical)
      else ValidateOperands(node, true)
    else if IsComparison(node.typ) || node.typ.BITWISE_AND? then
      ValidateOperands(node, false)
    else if IsNullTest(node.typ) then
      if !node.expr.UnaryOf? then Fail(UnaryOpMissing)
      else ValidateNode(node.expr.arg, false)
    else Fail(UnrecognizedExpression(node.typ))
  }

  /** The check of both operands, the same in every binary case of validateNode. */
  function ValidateOperands(node: Expression, logical: bool): Outcome<ValidationError>
    decreases node, 0
  {
    if !node.expr.BinaryOf? then Fail(BinaryOpMissing)
    else if node.expr.left.None? then Fail(LhsMissing)
    else if node.expr.right.None? then Fail(RhsMissing)
    else
      match ValidateNode(node.expr.left.value, logical)
      case Fail(e) => Fail(e)
      case Pass => ValidateNode(node.expr.right.value, logical)
  }

  /** validateTree and NewExpression; a nil tree has the unspecified expression type. */
  function ValidateTree(tree: Option<Expression>): Outcome<ValidationError> {
    match tree
    case None => Fail(UnrecognizedExpression(UnknownExpression(0)))
    case Some(node) => ValidateNode(node, true)
  }

  predicate Accepted(node: Expression) {
    ValidateNode(node, true).Pass?
  }

  /** What evaluation, typing and printing rely on: each node carries the payload its type
      calls for, all the way down. It says nothing of where logical nodes may stand. */
  predicate Shaped(node: Expression) {
    if node.typ.IDENTIFIER? then node.expr.IdentifierOf?
    else if node.typ.VALUE? then node.expr.ValueOf? && ValidateValue(node.expr.val).Pass?
    else if IsNullTest(node.typ) then node.expr.UnaryOf? && Shaped(node.expr.arg)
    else if IsLogical(node.typ) || IsComparison(node.typ) || node.typ.BITWISE_AND? then
      node.HasOperands() && Shaped(node.expr.left.value) && Shaped(node.expr.right.value)
    else false
  }

  lemma {:induction false} ValidatedIsShaped(node: Expression, logical: bool)
    requires ValidateNode(node, logical).Pass?
    ensures Shaped(node)
  {
    if IsLogical(node.typ) {
      ValidatedIsShaped(node.Lhs(), true);
      ValidatedIsShaped(node.Rhs(), true);
    } else if IsComparison(node.typ) || node.typ.BITWISE_AND? {
      ValidatedIsShaped(node.Lhs(), false);
      ValidatedIsShaped(node.Rhs(), false);
    } else if IsNullTest(node.typ) {
      ValidatedIsShaped(node.expr.arg, false);
    }
  }

  predicate IdentifiersValid(node: Expression)
    requires Shaped(node)
  {
    if node.typ.IDENTIFIER? then ValidateIdentifier(node.GetIdentifier()).Pass?
    else if node.typ.VALUE? then true
    else if IsNullTest(node.typ) then IdentifiersValid(node.expr.arg)
    else IdentifiersValid(node.Lhs()) && IdentifiersValid(node.Rhs())
  }

  /** No && or || anywhere inside. */
  predicate NoLogical(node: Expression)
    requires Shaped(node)
  {
    if node.typ.IDENTIFIER? || node.typ.VALUE? then true
    else if IsNullTest(node.typ) then NoLogical(node.expr.arg)
    else !IsLogical(node.typ) && NoLogical(node.Lhs()) && NoLogical(node.Rhs())
  }

  /** && and || only at the top, over parts that have none. */
  predicate LogicalOnTop(node: Expression)
    requires Shaped(node)
  {
    if IsLogical(node.typ) then LogicalOnTop(node.Lhs()) && LogicalOnTop(node.Rhs()) else NoLogical(node)
  }

  /** NewExpression accepts exactly the trees whose nodes carry what their types call for, whose
      identifiers are well formed and whose logical nodes are all on top. */
  lemma {:induction false} AcceptedExactly(node: Expression)
    ensures Accepted(node) <==> Shaped(node) && IdentifiersValid(node) && LogicalOnTop(node)
  {
    if !IsLogical(node.typ) {
      OperandExactly(node);
      assert ValidateNode(node, true) == ValidateNode(node, false);
    } else {
      assert ValidateNode(node, true) == ValidateOperands(node, true);
      if node.HasOperands() {
        AcceptedExactly(node.Lhs());
        AcceptedExactly(node.Rhs());
        assert ValidateOperands(node, true).Pass? <==> Accepted(node.Lhs()) && Accepted(node.Rhs());
      }
    }
  }

  lemma {:induction false} OperandExactly(node: Expression)
    ensures ValidateNode(node, false).Pass? <==> Shaped(node) && IdentifiersValid(node) && NoLogical(node)
  {
    if IsNullTest(node.typ) && node.expr.UnaryOf? {
      OperandExactly(node.expr.arg);
    } else if (IsComparison(node.typ) || node.typ.BITWISE_AND?) && node.HasOperands() {
      OperandExactly(node.Lhs());
      OperandExactly(node.Rhs());
    }
  }

  // --- Kernel filters ---

  function ValidateBitwiseAnd(node: Expression): Outcome<ValidationError>
    requires Shaped(node) && node.typ.BITWISE_AND?
  {
    if !node.Lhs().typ.IDENTIFIER? then Fail(BitAndLhsNotIdentifier)
    else if !(node.Rhs().typ.VALUE? && IsInteger(node.Rhs().GetValue().typ)) then Fail(BitAndRhsNotInteger)
    else Pass
  }

  function ValidateKernelValue(v: Value): Outcome<ValidationError> {
    if v.typ.STRING? || IsInteger(v.typ) then Pass else Fail(ValueNotKernelType)
  }

  predicate IsZero(v: Value) {
    (IsSigned(v.typ) && v.GetSigned() == 0) || (IsUnsigned(v.typ) && v.GetUnsigned() == 0)
  }

  /** Zero is an integer literal of either sign. */
  lemma ZeroExactly(v: Value)
    requires ValidateValue(v).Pass?
    ensures IsZero(v) <==> v.payload == SignedValue(0) || v.payload == UnsignedValue(0)
  {
  }

  function ValidateKernelFilterNode(node: Expression): Outcome<ValidationError>
    requires Shaped(node)
    decreases node, 0
  {
    if node.typ.IDENTIFIER? then Pass
    else if node.typ.VALUE? then ValidateKernelValue(node.GetValue())
    else if IsLogical(node.typ) then
      match ValidateKernelFilterTree(node.Lhs())
      case Fail(e) => Fail(e)
      case Pass => ValidateKernelFilterTree(node.Rhs())
    else if !IsComparison(node.typ) then Fail(InvalidExpression(node.typ))
    else if node.typ.NE? && node.Lhs().typ.BITWISE_AND? then
      match ValidateBitwiseAnd(node.Lhs())
      case Fail(e) => Fail(e)
      case Pass =>
        if node.Rhs().typ.VALUE? && IsZero(node.Rhs().GetValue()) then Pass else Fail(RhsNotZero)
    else if !node.Lhs().typ.IDENTIFIER? then Fail(LhsNotIdentifier)
    else if node.typ.LIKE? then
      if node.Rhs().typ.VALUE? && node.Rhs().GetValue().typ.STRING? then Pass else Fail(RhsNotString)
    else if IsOrdering(node.typ) then
      if node.Rhs().typ.VALUE? && IsInteger(node.Rhs().GetValue().typ) then Pass else Fail(RhsNotInteger)
    else if !node.Rhs().typ.VALUE? then Fail(RhsNotValue)
    else ValidateKernelValue(node.Rhs().GetValue())
  }

  function ValidateKernelFilterTree(node: Expression): Outcome<ValidationError>
    requires Shaped(node)
    decreases node, 1
  {
    if node.typ.BITWISE_AND? then ValidateBitwiseAnd(node) else ValidateKernelFilterNode(node)
  }

  predicate KernelValid(node: Expression) {
    Shaped(node) && ValidateKernelFilterTree(node).Pass?
  }

  lemma KernelOperands(node: Expression)
    requires KernelValid(node) && IsLogical(node.typ)
    ensures KernelValid(node.Lhs()) && KernelValid(node.Rhs())
  {
    assert ValidateKernelFilterNode(node).Pass?;
  }

  /** A string or an integer given outright. */
  predicate KernelLiteral(node: Expression) {
    node.typ.VALUE? && (node.GetValue().typ.STRING? || IsInteger(node.GetValue().typ))
  }

  /** A field masked with an integer. */
  predicate KernelMask(node: Expression)
    requires Shaped(node)
  {
    && node.typ.BITWISE_AND?
    && node.Lhs().typ.IDENTIFIER?
    && node.Rhs().typ.VALUE? && IsInteger(node.Rhs().GetValue().typ)
  }

  /** A field compared with a literal that the operator can be used on. */
  predicate KernelComparison(node: Expression)
    requires Shaped(node)
  {
    && IsComparison(node.typ)
    && node.Lhs().typ.IDENTIFIER? && KernelLiteral(node.Rhs())
    && (IsOrdering(node.typ) ==> IsInteger(node.Rhs().GetValue().typ))
    && (node.typ.LIKE? ==> node.Rhs().GetValue().typ.STRING?)
  }

  /** The grammar of filters that the kernel takes. */
  predicate KernelForm(node: Expression)
    requires Shaped(node)
  {
    || node.typ.IDENTIFIER? || KernelLiteral(node)
    || KernelMask(node) || KernelComparison(node)
    || (node.typ.NE? && KernelMask(node.Lhs()) && node.Rhs().typ.VALUE? && IsZero(node.Rhs().GetValue()))
    || (IsLogical(node.typ) && KernelForm(node.Lhs()) && KernelForm(node.Rhs()))
  }

  /** The kernel check accepts exactly the trees of that grammar. */
  lemma {:induction false} KernelValidExactly(node: Expression)
    requires Shaped(node)
    ensures KernelValid(node) <==> KernelForm(node)
  {
    if node.typ.BITWISE_AND? {
    } else {
      assert ValidateKernelFilterTree(node) == ValidateKernelFilterNode(node);
      if IsLogical(node.typ) {
        KernelValidExactly(node.Lhs());
        KernelValidExactly(node.Rhs());
      } else if node.typ.NE? && node.Lhs().typ.BITWISE_AND? {
        assert KernelMask(node.Lhs()) <==> ValidateBitwiseAnd(node.Lhs()).Pass?;
      }
    }
  }

  // --- Types ---

  function ValidateTypes(node: Expression, types: FieldTypeMap): Result<ValueType, ValidationError>
    requires Shaped(node)
  {
    if node.typ.IDENTIFIER? then
      if node.GetIdentifier() !in types then Failure(UndefinedIdentifier(node.GetIdentifier()))
      else Success(types[node.GetIdentifier()])
    else if node.typ.VALUE? then Success(node.GetValue().typ)
    else if IsNullTest(node.typ) then
      var _ :- ValidateTypes(node.expr.arg, types);
      Success(BOOL)
    else
      var lhs :- ValidateTypes(node.Lhs(), types);
      if IsLogical(node.typ) && !lhs.BOOL? then Failure(OperandNotBool(lhs))
      else if IsOrdering(node.typ) && !IsNumeric(lhs) then Failure(OperandNotNumeric(lhs))
      else if node.typ.LIKE? && !lhs.STRING? then Failure(OperandNotString(lhs))
      else if node.typ.BITWISE_AND? && !IsInteger(lhs) then Failure(OperandNotInteger(lhs))
      else
        var rhs :- ValidateTypes(node.Rhs(), types);
        if IsLogical(node.typ) && !rhs.BOOL? then Failure(OperandNotBool(rhs))
        else if !IsLogical(node.typ) && lhs != rhs then Failure(TypeMismatch(lhs, rhs))
        else if node.typ.BITWISE_AND? then Success(lhs)
        else Success(BOOL)
  }

  /** The typing rules, stated as a relation. */
  ghost predicate HasType(node: Expression, types: FieldTypeMap, t: ValueType)
    requires Shaped(node)
  {
    if node.typ.IDENTIFIER? then node.GetIdentifier() in types && types[node.GetIdentifier()] == t
    else if node.typ.VALUE? then node.GetValue().typ == t
    else if IsNullTest(node.typ) then t.BOOL? && exists u :: HasType(node.expr.arg, types, u)
    else if node.typ.BITWISE_AND? then
      IsInteger(t) && HasType(node.Lhs(), types, t) && HasType(node.Rhs(), types, t)
    else
      t.BOOL? && exists u :: FitsOperator(node.typ, u) && HasType(node.Lhs(), types, u) && HasType(node.Rhs(), types, u)
  }

  /** The types that the two operands of a logical node or a comparison may have in common. */
  predicate FitsOperator(op: ExpressionType, u: ValueType) {
    && (IsLogical(op) ==> u.BOOL?)
    && (IsOrdering(op) ==> IsNumeric(u))
    && (op.LIKE? ==> u.STRING?)
  }

  /** The type checker finds a type if and only if the rules give it, and then it is the only one. */
  lemma {:induction false} TypesExactly(node: Expression, types: FieldTypeMap, t: ValueType)
    requires Shaped(node)
    ensures ValidateTypes(node, types) == Success(t) <==> HasType(node, types, t)
    decreases node, 0
  {
    if IsNullTest(node.typ) {
      TypesExactlySome(node.expr.arg, types);
    } else if !node.typ.IDENTIFIER? && !node.typ.VALUE? {
      TypesExactlySome(node.Lhs(), types);
      TypesExactlySome(node.Rhs(), types);
    }
  }

  lemma {:induction false} TypesExactlySome(node: Expression, types: FieldTypeMap)
    requires Shaped(node)
    ensures forall u :: ValidateTypes(node, types) == Success(u) <==> HasType(node, types, u)
    ensures ValidateTypes(node, types).Success? ==> HasType(node, types, ValidateTypes(node, types).value)
    decreases node, 1
  {
    forall u
      ensures ValidateTypes(node, types) == Success(u) <==> HasType(node, types, u)
    {
      TypesExactly(node, types, u);
    }
  }
}
