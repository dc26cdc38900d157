/** What the validators guarantee about evaluation: type soundness with the exact condition
    under which it holds, and the harmlessness of short-circuiting. */
module Soundness {
  import opened Wrappers
  import opened Api
  import opened Validate
  import opened Evaluate

  /** Evaluation that always works out both operands of AND and OR. */
  function EvalStrict(node: Expression, types: FieldTypeMap, values: FieldValueMap): Result<Value, EvalError>
    requires Shaped(node)
  {
    if node.typ.IDENTIFIER? then IdentifierValue(node.GetIdentifier(), types, values)
    else if node.typ.VALUE? then Success(node.GetValue())
    else if IsNullTest(node.typ) then
      var v :- EvalStrict(node.expr.arg, types, values);
      Success(BoolOf(v.typ.UNSPECIFIED? == node.typ.IS_NULL?))
    else
      var l :- EvalStrict(node.Lhs(), types, values);
      var r :- EvalStrict(node.Rhs(), types, values);
      if node.typ.LOGICAL_AND? then Success(BoolOf(IsValueTrue(l) && IsValueTrue(r)))
      else if node.typ.LOGICAL_OR? then Success(BoolOf(IsValueTrue(l) || IsValueTrue(r)))
      else OperatorValue(node.typ, l, r)
  }

  /** Below a comparison there is nothing to short-circuit. */
  lemma {:induction false} OperandsAreStrict(node: Expression, types: FieldTypeMap, values: FieldValueMap)
    requires ValidateNode(node, false).Pass?
    ensures Shaped(node) && EvalStrict(node, types, values) == Eval(node, types, values)
  {
    ValidatedIsShaped(node, false);
    if IsComparison(node.typ) || node.typ.BITWISE_AND? {
      OperandsAreStrict(node.Lhs(), types, values);
      OperandsAreStrict(node.Rhs(), types, values);
    } else if IsNullTest(node.typ) {
      OperandsAreStrict(node.expr.arg, types, values);
    }
  }

  /** Short-circuiting never changes a truth value: where evaluating everything succeeds, so
      does Evaluate, and the two agree on truth. */
  lemma {:induction false} ShortCircuitKeepsTruth(node: Expression, types: FieldTypeMap, values: FieldValueMap)
    requires Accepted(node)
    ensures Shaped(node)
    ensures EvalStrict(node, types, values).Success? ==>
              && Eval(node, types, values).Success?
              && (IsValueTrue(Eval(node, types, values).value)
                  <==> IsValueTrue(EvalStrict(node, types, values).value))
  {
    ValidatedIsShaped(node, true);
    if IsLogical(node.typ) {
      ShortCircuitKeepsTruth(node.Lhs(), types, values);
      ShortCircuitKeepsTruth(node.Rhs(), types, values);
    } else {
      assert ValidateNode(node, false).Pass?;
      OperandsAreStrict(node, types, values);
    }
  }

  // --- Type soundness ---

  /** Every supplied value has the Go type that its field's declared type demands. */
  ghost predicate WellTyped(types: FieldTypeMap, values: FieldValueMap) {
    forall name | name in types && name in values :: HasGoType(values[name], types[name])
  }

  /** Will this operand of a comparison or of & be NULL? */
  predicate IsNullOperand(node: Expression, values: FieldValueMap)
    requires Shaped(node)
  {
    if node.typ.IDENTIFIER? then node.GetIdentifier() !in values
    else node.typ.BITWISE_AND? && IsNullOperand(node.Lhs(), values)
  }

  /** Is this operand the one-character string "*"? */
  predicate IsStar(node: Expression, values: FieldValueMap) {
    if node.typ.IDENTIFIER? then
      node.GetIdentifier() in values && values[node.GetIdentifier()] == GoString("*")
    else node.typ.VALUE? && node.GetValue().GetString() == "*"
  }

  /** The check a caller could make before evaluating: both operands of every & are NULL or
      neither is, and no LIKE applies the pattern "*" to a string that is there. */
  predicate Safe(node: Expression, values: FieldValueMap)
    requires Shaped(node)
  {
    if node.typ.IDENTIFIER? || node.typ.VALUE? then true
    else if IsNullTest(node.typ) then Safe(node.expr.arg, values)
    else
      && Safe(node.Lhs(), values)
      && Safe(node.Rhs(), values)
      && (node.typ.BITWISE_AND? ==> IsNullOperand(node.Lhs(), values) == IsNullOperand(node.Rhs(), values))
      && (node.typ.LIKE? ==> IsNullOperand(node.Lhs(), values) || !IsStar(node.Rhs(), values))
  }

  predicate AllSupplied(node: Expression, values: FieldValueMap)
    requires Shaped(node)
  {
    if node.typ.IDENTIFIER? then node.GetIdentifier() in values
    else if node.typ.VALUE? then true
    else if IsNullTest(node.typ) then AllSupplied(node.expr.arg, values)
    else AllSupplied(node.Lhs(), values) && AllSupplied(node.Rhs(), values)
  }

  /** A result of a declared type, or NULL. */
  predicate NullOr(v: Value, t: ValueType) {
    v.typ == UNSPECIFIED || v.typ == t
  }

  /** The only two ways a well-typed evaluation can fail. */
  predicate KnownFailure(e: EvalError) {
    e.SliceBoundsPanic? || (e.TypesDiffer? && e.op.BITWISE_AND?)
  }

  ghost predicate OperandResult(node: Expression, types: FieldTypeMap, values: FieldValueMap)
    requires Shaped(node) && ValidateTypes(node, types).Success?
  {
    match Eval(node, types, values)
    case Success(v) =>
      && Safe(node, values)
      && NullOr(v, ValidateTypes(node, types).value)
      && (v.typ.UNSPECIFIED? <==> IsNullOperand(node, values))
      && (v.typ.STRING? ==> (v.GetString() == "*" <==> IsStar(node, values)))
    case Failure(e) => !Safe(node, values) && KnownFailure(e)
  }

  /** One operator applied to operands that are NULL or of the validated type t. */
  lemma OperatorSound(op: ExpressionType, l: Value, r: Value, t: ValueType)
    requires IsComparison(op) || op.BITWISE_AND?
    requires NullOr(l, t) && NullOr(r, t) && !l.typ.UnknownType?
    requires op.BITWISE_AND? ==> IsInteger(t)
    requires op.LIKE? ==> t.STRING?
    requires IsOrdering(op) ==> IsNumeric(t)
    ensures var oneNull := l.typ.UNSPECIFIED? != r.typ.UNSPECIFIED?;
            var star := !l.typ.UNSPECIFIED? && r.typ.STRING? && r.GetString() == "*";
            match OperatorValue(op, l, r)
            case Success(v) =>
              if op.BITWISE_AND? then !oneNull && v.typ == l.typ else !(op.LIKE? && star) && v.typ == BOOL
            case Failure(e) =>
              KnownFailure(e) && if op.BITWISE_AND? then oneNull else op.LIKE? && star
  {
    if op.LIKE? && !l.typ.UNSPECIFIED? && !r.typ.UNSPECIFIED? {
      LikeFailsOnStar(l, r);
    }
  }

  /** Operands, where there is no logical node: success is exactly Safe, NULL exactly
      IsNullOperand, and anything else has the declared type. */
  lemma {:induction false} OperandSound(node: Expression, types: FieldTypeMap, values: FieldValueMap)
    requires ValidateNode(node, false).Pass? && WellTyped(types, values)
    requires Shaped(node) && ValidateTypes(node, types).Success?
    ensures OperandResult(node, types, values)
  {
    if node.typ.IDENTIFIER? || node.typ.VALUE? {
    } else if IsNullTest(node.typ) {
      OperandSound(node.expr.arg, types, values);
    } else {
      OperandSound(node.Lhs(), types, values);
      OperandSound(node.Rhs(), types, values);
      TestSound(node, types, values);
    }
  }

  lemma TestSound(node: Expression, types: FieldTypeMap, values: FieldValueMap)
    requires Shaped(node) && (IsComparison(node.typ) || node.typ.BITWISE_AND?)
    requires ValidateTypes(node, types).Success?
    requires OperandResult(node.Lhs(), types, values) && OperandResult(node.Rhs(), types, values)
    ensures OperandResult(node, types, values)
  {
    var l, r := Eval(node.Lhs(), types, values), Eval(node.Rhs(), types, values);
    if l.Success? && r.Success? {
      OperatorSound(node.typ, l.value, r.value, ValidateTypes(node.Lhs(), types).value);
    }
  }

  /** Safe, as far as evaluation gets: the right side of a logical node counts only where the
      truth of the left side does not decide. */
  predicate SafeReached(node: Expression, types: FieldTypeMap, values: FieldValueMap)
    requires Shaped(node)
  {
    if IsLogical(node.typ) then
      && SafeReached(node.Lhs(), types, values)
      && (EvaluatesTrue(node.Lhs(), types, values) == node.typ.LOGICAL_AND? ==>
            SafeReached(node.Rhs(), types, values))
    else Safe(node, values)
  }

  /** Type soundness. For a tree that NewExpression and Validate accept, on well-typed values:
      Evaluate succeeds if and only if the tree is safe as far as evaluation gets; working out
      every operand succeeds if and only if it is Safe altogether; a result is NULL or has the
      validated type, and exactly that type when every identifier is supplied; and the only
      failures possible are the one-sided NULL under & and the LIKE pattern "*". */
  lemma {:induction false} TypeSoundness(node: Expression, types: FieldTypeMap, values: FieldValueMap)
    requires Accepted(node) && WellTyped(types, values)
    requires Shaped(node) && ValidateTypes(node, types).Success?
    ensures EvalStrict(node, types, values).Success? <==> Safe(node, values)
    ensures Safe(node, values) ==> SafeReached(node, types, values)
    ensures var r := Eval(node, types, values);
            && (r.Success? <==> SafeReached(node, types, values))
            && (r.Success? ==> NullOr(r.value, ValidateTypes(node, types).value))
            && (r.Success? && AllSupplied(node, values) ==> r.value.typ == ValidateTypes(node, types).value)
            && (r.Failure? ==> KnownFailure(r.error))
  {
    if IsLogical(node.typ) {
      assert ValidateOperands(node, true).Pass?;
      TypeSoundness(node.Lhs(), types, values);
      TypeSoundness(node.Rhs(), types, values);
    } else {
      assert ValidateNode(node, false).Pass?;
      OperandSound(node, types, values);
      OperandsAreStrict(node, types, values);
      if AllSupplied(node, values) {
        SuppliedIsNotNull(node, values);
      }
    }
  }

  lemma {:induction false} SuppliedIsNotNull(node: Expression, values: FieldValueMap)
    requires Shaped(node) && AllSupplied(node, values)
    ensures !IsNullOperand(node, values)
  {
    if node.typ.BITWISE_AND? {
      SuppliedIsNotNull(node.Lhs(), values);
    }
  }

  /** Validation alone does not rule out failure: an accepted tree for each of the two ways. */
  lemma OneSidedNullFails(mask: uint32)
    ensures var e := Binary(BITWISE_AND, Identifier("flags"), Literal(Value(UINT32, UnsignedValue(mask))));
            && Accepted(e) && Shaped(e)
            && ValidateTypes(e, map["flags" := UINT32]) == Success(UINT32)
            && Eval(e, map["flags" := UINT32], map[]) == Failure(TypesDiffer(BITWISE_AND, UNSPECIFIED, UINT32))
  {
    var flags, m := Identifier("flags"), Literal(Value(UINT32, UnsignedValue(mask)));
    assert ValidateNode(flags, false).Pass? && ValidateNode(m, false).Pass?;
  }

  lemma StarPatternPanics(path: string)
    ensures var e := Binary(LIKE, Identifier("path"), Literal(Value(STRING, StringValue("*"))));
            && Accepted(e) && Shaped(e)
            && ValidateTypes(e, map["path" := STRING]) == Success(BOOL)
            && Eval(e, map["path" := STRING], map["path" := GoString(path)]) == Failure(SliceBoundsPanic)
  {
    var field, star := Identifier("path"), Literal(Value(STRING, StringValue("*")));
    assert ValidateNode(field, false).Pass? && ValidateNode(star, false).Pass?;
    LikeFailsOnStar(Value(STRING, StringValue(path)), star.GetValue());
  }
}
