/** pkg/expression/evaluate.go: value comparison, a stackless recursive meaning of
    expressions, and the stack machine that is proved to compute it. */
module Evaluate {
  import opened Wrappers
  import opened Api
  import opened Validate

  /** A Go interface{} holding one of the native types the evaluator knows, or some other, or
      nothing. */
  datatype GoValue =
    | GoString(s: string)
    | GoInt8(i8: int8) | GoInt16(i16: int16) | GoInt32(i32: int32) | GoInt64(i64: int64)
    | GoUint8(u8: uint8) | GoUint16(u16: uint16) | GoUint32(u32: uint32) | GoUint64(u64: uint64)
    | GoBool(b: bool)
    | GoFloat64(f: Double)
    | GoOther
    | GoNil

  type FieldValueMap = map<string, GoValue>

  datatype EvalError =
    | UndefinedField(name: string)
    | DataTypeMismatch(name: string)
    | TypesDiffer(op: ExpressionType, l: ValueType, r: ValueType)
    | CannotCompare(t: ValueType)
    | UnknownValueType(t: ValueType)
    | NotAnInteger(t: ValueType)
    | SliceBoundsPanic           // the Go run-time panic of s[1:0]
    | NilTypePanic               // and that of asking a nil interface for its type
    | Unreachable                // "internal error: unreachable condition"
    | EmptyStack                 // "internal error: empty stack ..."
    | ExtraStack                 // "internal error: more than one value ..."

  // --- Values ---

  const NANOS_PER_SECOND: int := 1_000_000_000

  const NULL_VALUE := Value(UNSPECIFIED, NoPayload)

  function BoolOf(b: bool): Value {
    Value(BOOL, BoolValue(b))
  }

  /** Nanoseconds in uint64 arithmetic: the conversions and the sum all wrap. */
  function TimestampNanos(t: Timestamp): uint64 {
    ((t.seconds % TWO_TO_THE_64) * NANOS_PER_SECOND + t.nanos % TWO_TO_THE_64) % TWO_TO_THE_64
  }

  function TimestampOf(ns: uint64): Timestamp {
    Timestamp(ns / NANOS_PER_SECOND, ns % NANOS_PER_SECOND)
  }

  /** Splitting a uint64 field into seconds and nanoseconds loses nothing. */
  lemma TimestampRoundTrip(ns: uint64)
    ensures TimestampNanos(TimestampOf(ns)) == ns
  {
    var s, n := ns / NANOS_PER_SECOND, ns % NANOS_PER_SECOND;
    assert s % TWO_TO_THE_64 == s && n % TWO_TO_THE_64 == n;
    assert s * NANOS_PER_SECOND + n == ns;
  }

  function IsValueTrue(v: Value): bool {
    if v.typ.STRING? then |v.GetString()| > 0
    else if v.typ.BOOL? then v.GetBool()
    else if v.typ.DOUBLE? then !v.GetDouble().Equals(Finite(0.0))
    else if v.typ.TIMESTAMP? then TimestampNanos(v.GetTimestamp()) != 0
    else if IsSigned(v.typ) then v.GetSigned() != 0
    else if IsUnsigned(v.typ) then v.GetUnsigned() != 0
    else false
  }

  // --- Comparison of two values of one type ---

  function CompareEqual(l: Value, r: Value): Result<bool, EvalError> {
    if l.typ.STRING? then Success(l.GetString() == r.GetString())
    else if l.typ.BOOL? then Success(l.GetBool() == r.GetBool())
    else if l.typ.DOUBLE? then Success(l.GetDouble().Equals(r.GetDouble()))
    else if l.typ.TIMESTAMP? then Success(TimestampNanos(l.GetTimestamp()) == TimestampNanos(r.GetTimestamp()))
    else if IsSigned(l.typ) then Success(l.GetSigned() == r.GetSigned())
    else if IsUnsigned(l.typ) then Success(l.GetUnsigned() == r.GetUnsigned())
    else Failure(UnknownValueType(l.typ))
  }

  function CompareNotEqual(l: Value, r: Value): Result<bool, EvalError> {
    if l.typ.STRING? then Success(l.GetString() != r.GetString())
    else if l.typ.BOOL? then Success(l.GetBool() != r.GetBool())
    else if l.typ.DOUBLE? then Success(!l.GetDouble().Equals(r.GetDouble()))
    else if l.typ.TIMESTAMP? then Success(TimestampNanos(l.GetTimestamp()) != TimestampNanos(r.GetTimestamp()))
    else if IsSigned(l.typ) then Success(l.GetSigned() != r.GetSigned())
    else if IsUnsigned(l.typ) then Success(l.GetUnsigned() != r.GetUnsigned())
    else Failure(UnknownValueType(l.typ))
  }

  function CompareLessThan(l: Value, r: Value): Result<bool, EvalError> {
    if l.typ.STRING? then Failure(CannotCompare(l.typ))
    else if l.typ.BOOL? then Failure(CannotCompare(l.typ))
    else if l.typ.DOUBLE? then Success(l.GetDouble().LessThan(r.GetDouble()))
    else if l.typ.TIMESTAMP? then Success(TimestampNanos(l.GetTimestamp()) < TimestampNanos(r.GetTimestamp()))
    else if IsSigned(l.typ) then Success(l.GetSigned() < r.GetSigned())
    else if IsUnsigned(l.typ) then Success(l.GetUnsigned() < r.GetUnsigned())
    else Failure(UnknownValueType(l.typ))
  }

  function CompareLessThanEqualTo(l: Value, r: Value): Result<bool, EvalError> {
    if l.typ.STRING? then Failure(CannotCompare(l.typ))
    else if l.typ.BOOL? then Failure(CannotCompare(l.typ))
    else if l.typ.DOUBLE? then Success(l.GetDouble().LessThan(r.GetDouble()) || l.GetDouble().Equals(r.GetDouble()))
    else if l.typ.TIMESTAMP? then Success(TimestampNanos(l.GetTimestamp()) <= TimestampNanos(r.GetTimestamp()))
    else if IsSigned(l.typ) then Success(l.GetSigned() <= r.GetSigned())
    else if IsUnsigned(l.typ) then Success(l.GetUnsigned() <= r.GetUnsigned())
    else Failure(UnknownValueType(l.typ))
  }

  function CompareGreaterThan(l: Value, r: Value): Result<bool, EvalError> {
    if l.typ.STRING? then Failure(CannotCompare(l.typ))
    else if l.typ.BOOL? then Failure(CannotCompare(l.typ))
    else if l.typ.DOUBLE? then Success(r.GetDouble().LessThan(l.GetDouble()))
    else if l.typ.TIMESTAMP? then Success(TimestampNanos(l.GetTimestamp()) > TimestampNanos(r.GetTimestamp()))
    else if IsSigned(l.typ) then Success(l.GetSigned() > r.GetSigned())
    else if IsUnsigned(l.typ) then Success(l.GetUnsigned() > r.GetUnsigned())
    else Failure(UnknownValueType(l.typ))
  }

  function CompareGreaterThanEqualTo(l: Value, r: Value): Result<bool, EvalError> {
    if l.typ.STRING? then Failure(CannotCompare(l.typ))
    else if l.typ.BOOL? then Failure(CannotCompare(l.typ))
    else if l.typ.DOUBLE? then Success(r.GetDouble().LessThan(l.GetDouble()) || l.GetDouble().Equals(r.GetDouble()))
    else if l.typ.TIMESTAMP? then Success(TimestampNanos(l.GetTimestamp()) >= TimestampNanos(r.GetTimestamp()))
    else if IsSigned(l.typ) then Success(l.GetSigned() >= r.GetSigned())
    else if IsUnsigned(l.typ) then Success(l.GetUnsigned() >= r.GetUnsigned())
    else Failure(UnknownValueType(l.typ))
  }

  predicate HasPrefix(s: string, p: string) {
    |p| <= |s| && s[..|p|] == p
  }

  predicate HasSuffix(s: string, p: string) {
    |p| <= |s| && s[|s| - |p|..] == p
  }

  predicate Contains(s: string, p: string) {
    exists i :: 0 <= i <= |s| && HasPrefix(s[i..], p)
  }

  /** The pattern "*" is both prefixed and suffixed by its one star, and Go then slices
      pattern[1:0]. */
  function CompareLike(l: Value, r: Value): Result<bool, EvalError> {
    if l.typ.STRING? then
      var s, pattern := l.GetString(), r.GetString();
      if HasPrefix(pattern, "*") then
        if HasSuffix(pattern, "*") then
          if |pattern| < 2 then Failure(SliceBoundsPanic)
          else Success(Contains(s, pattern[1..|pattern| - 1]))
        else Success(HasSuffix(s, pattern[1..]))
      else if HasSuffix(pattern, "*") then Success(HasPrefix(s, pattern[..|pattern| - 1]))
      else Success(s == pattern)
    else if l.typ.UNSPECIFIED? || l.typ.UnknownType? then Failure(UnknownValueType(l.typ))
    else Failure(CannotCompare(l.typ))
  }

  /** s is core, with anything before it if lead and anything after it if trail. */
  ghost predicate Matches(s: string, core: string, lead: bool, trail: bool) {
    exists i: nat | i <= |s| :: MatchesAt(s, core, i, lead, trail)
  }

  predicate MatchesAt(s: string, core: string, i: nat, lead: bool, trail: bool)
    requires i <= |s|
  {
    && HasPrefix(s[i..], core)
    && (lead || i == 0)
    && (trail || i + |core| == |s|)
  }

  /** What LIKE means: a star at either end of the pattern stands for any string there, and
      the rest of the pattern stands for itself. */
  ghost predicate LikeMeaning(s: string, pattern: string) {
    var lead := pattern != "" && pattern[0] == '*';
    var rest := if lead then pattern[1..] else pattern;
    var trail := rest != "" && rest[|rest| - 1] == '*';
    Matches(s, if trail then rest[..|rest| - 1] else rest, lead, trail)
  }

  predicate SplitAs(s: string, before: string, core: string, after: string) {
    s == before + core + after
  }

  lemma MatchesSplits(s: string, core: string, lead: bool, trail: bool)
    ensures Matches(s, core, lead, trail)
       <==> exists before, after :: SplitAs(s, before, core, after) && (lead || before == "") && (trail || after == "")
  {
    if Matches(s, core, lead, trail) {
      var i: nat :| i <= |s| && MatchesAt(s, core, i, lead, trail);
      assert SplitAs(s, s[..i], core, s[i + |core|..]);
    }
    if before, after :| SplitAs(s, before, core, after) && (lead || before == "") && (trail || after == "") {
      assert s[|before|..] == core + after;
      assert MatchesAt(s, core, |before|, lead, trail);
    }
  }

  lemma MatchesDecides(s: string, core: string, lead: bool, trail: bool)
    ensures Matches(s, core, lead, trail)
       <==> if lead && trail then Contains(s, core)
            else if lead then HasSuffix(s, core)
            else if trail then HasPrefix(s, core)
            else s == core
  {
    assert s[0..] == s;
    if Matches(s, core, lead, trail) {
      var i: nat :| i <= |s| && MatchesAt(s, core, i, lead, trail);
    } else if |core| <= |s| {
      assert !MatchesAt(s, core, |s| - |core|, lead, trail);
      assert !MatchesAt(s, core, 0, lead, trail);
    }
    if lead && trail && Contains(s, core) {
      var i :| 0 <= i <= |s| && HasPrefix(s[i..], core);
      assert MatchesAt(s, core, i, lead, trail);
    }
  }

  /** Where the stars of a pattern are, and what is left between them. */
  lemma PatternParts(pattern: string)
    requires |pattern| > 1
    ensures HasPrefix(pattern, "*") <==> pattern[0] == '*'
    ensures HasSuffix(pattern, "*") <==> pattern[|pattern| - 1] == '*'
    ensures pattern[1..][|pattern| - 2] == pattern[|pattern| - 1]
    ensures pattern[1..][..|pattern| - 2] == pattern[1..|pattern| - 1]
  {
    assert pattern[|pattern| - 1..] == [pattern[|pattern| - 1]];
  }

  lemma LongPattern(s: string, pattern: string)
    requires |pattern| > 1
    ensures CompareLike(Value(STRING, StringValue(s)), Value(STRING, StringValue(pattern)))
         == Success(LikeMeaning(s, pattern))
  {
    PatternParts(pattern);
    var lead, trail := pattern[0] == '*', pattern[|pattern| - 1] == '*';
    var rest := if lead then pattern[1..] else pattern;
    var core := if trail then rest[..|rest| - 1] else rest;
    MatchesDecides(s, core, lead, trail);
    assert rest != [] && (rest[|rest| - 1] == '*' <==> trail);
    assert LikeMeaning(s, pattern) == Matches(s, core, lead, trail);
  }

  /** LIKE panics on exactly one pattern, and on every other decides its meaning. */
  lemma LikeIsItsMeaning(s: string, pattern: string)
    ensures var got := CompareLike(Value(STRING, StringValue(s)), Value(STRING, StringValue(pattern)));
            && (got.Failure? <==> pattern == "*")
            && (pattern != "*" ==> got == Success(LikeMeaning(s, pattern)))
  {
    if |pattern| <= 1 {
      MatchesDecides(s, pattern, false, false);
    } else {
      LongPattern(s, pattern);
    }
  }

  function Compare(op: ExpressionType, l: Value, r: Value): Result<bool, EvalError>
    requires IsComparison(op)
  {
    match op
    case EQ => CompareEqual(l, r)
    case NE => CompareNotEqual(l, r)
    case LT => CompareLessThan(l, r)
    case LE => CompareLessThanEqualTo(l, r)
    case GT => CompareGreaterThan(l, r)
    case GE => CompareGreaterThanEqualTo(l, r)
    case LIKE => CompareLike(l, r)
  }

  /** Which comparisons of two values of one type fail: any of an unknown type, orderings of what
      has no order, LIKE of anything but strings, and LIKE with the pattern "*". On every known
      type != is the negation of ==. */
  lemma CompareFailsExactly(op: ExpressionType, l: Value, r: Value)
    requires IsComparison(op) && l.typ == r.typ
    ensures Compare(op, l, r).Failure? <==>
              || l.typ.UNSPECIFIED? || l.typ.UnknownType?
              || (IsOrdering(op) && !IsNumeric(l.typ))
              || (op.LIKE? && (!l.typ.STRING? || r.GetString() == "*"))
    ensures op.NE? && Compare(op, l, r).Success? ==> CompareEqual(l, r) == Success(!Compare(op, l, r).value)
  {
    match op
    case LIKE =>
      if l.typ.STRING? {
        LikeFailsOnStar(l, r);
      }
    case _ =>
  }

  lemma LikeFailsOnStar(l: Value, r: Value)
    requires l.typ.STRING? && r.typ.STRING?
    ensures CompareLike(l, r).Failure? <==> r.GetString() == "*"
    ensures CompareLike(l, r).Failure? ==> CompareLike(l, r).error == SliceBoundsPanic
  {
    LikeIsItsMeaning(l.GetString(), r.GetString());
  }

  /** Well-formed strings, booleans and integers are equal exactly when they are the same value. */
  lemma EqualIsSame(l: Value, r: Value)
    requires ValidateValue(l).Pass? && ValidateValue(r).Pass? && l.typ == r.typ
    requires !l.typ.DOUBLE? && !l.typ.TIMESTAMP?
    ensures CompareEqual(l, r) == Success(l == r)
  {
  }

  /** On numeric values of one type the six comparisons are those of one order: it is total
      apart from NaN, and each operator is what its name says of it. */
  lemma OrderLaws(l: Value, r: Value)
    requires IsNumeric(l.typ) && l.typ == r.typ
    ensures CompareEqual(l, r).Success? && CompareLessThan(l, r).Success? && CompareGreaterThan(l, r).Success?
    ensures var eq, lt, gt := CompareEqual(l, r).value, CompareLessThan(l, r).value, CompareGreaterThan(l, r).value;
            && CompareNotEqual(l, r) == Success(!eq)
            && CompareLessThanEqualTo(l, r) == Success(lt || eq)
            && CompareGreaterThanEqualTo(l, r) == Success(gt || eq)
            && !(lt && eq) && !(lt && gt) && !(eq && gt)
            && (lt || eq || gt <==> !(l.typ.DOUBLE? && (l.GetDouble().NaN? || r.GetDouble().NaN?)))
            && CompareLessThan(r, l) == Success(gt)
  {
    if l.typ.DOUBLE? {
      DoublesCompare(l.GetDouble(), r.GetDouble());
    }
  }

  lemma DoublesCompare(a: Double, b: Double)
    ensures a.LessThan(b) ==> !b.LessThan(a) && !a.Equals(b)
    ensures a.LessThan(b) || b.LessThan(a) || a.Equals(b) <==> !a.NaN? && !b.NaN?
    ensures a.Finite? && b.Finite? ==> (a.LessThan(b) <==> a.r < b.r)
  {
  }

  /** Two timestamp fields compare as the nanosecond counts they were given as. */
  lemma TimestampsCompareAsCounts(a: uint64, b: uint64)
    ensures var l := Value(TIMESTAMP, TimestampValue(TimestampOf(a)));
            var r := Value(TIMESTAMP, TimestampValue(TimestampOf(b)));
            && CompareLessThan(l, r) == Success(a < b)
            && CompareEqual(l, r) == Success(a == b)
            && CompareGreaterThan(l, r) == Success(a > b)
  {
    TimestampRoundTrip(a);
    TimestampRoundTrip(b);
  }

  // --- Bitwise and ---

  function BitAnd(a: nat, b: nat): (r: nat)
    ensures r <= a && r <= b
  {
    if a == 0 || b == 0 then 0 else (a % 2) * (b % 2) + 2 * BitAnd(a / 2, b / 2)
  }

  predicate Bit(a: nat, k: nat) {
    if k == 0 then a % 2 == 1 else Bit(a / 2, k - 1)
  }

  lemma {:induction false} ZeroHasNoBits(k: nat)
    ensures !Bit(0, k)
  {
    if k > 0 { ZeroHasNoBits(k - 1); }
  }

  /** & keeps exactly the bits set on both sides. */
  lemma {:induction false} BitAndKeepsCommonBits(a: nat, b: nat, k: nat)
    ensures Bit(BitAnd(a, b), k) <==> Bit(a, k) && Bit(b, k)
  {
    if a == 0 || b == 0 {
      ZeroHasNoBits(k);
    } else {
      var low := (a % 2) * (b % 2);
      assert low == if a % 2 == 1 && b % 2 == 1 then 1 else 0;
      assert BitAnd(a, b) % 2 == low && BitAnd(a, b) / 2 == BitAnd(a / 2, b / 2);
      if k > 0 {
        BitAndKeepsCommonBits(a / 2, b / 2, k - 1);
      }
    }
  }

  /** A number is what its bits make it. */
  lemma {:induction false} BitsDetermine(a: nat, b: nat)
    requires forall k: nat :: Bit(a, k) <==> Bit(b, k)
    ensures a == b
    decreases a + b
  {
    assert Bit(a, 0) <==> Bit(b, 0);
    if a + b > 0 {
      forall k: nat
        ensures Bit(a / 2, k) <==> Bit(b / 2, k)
      {
        assert Bit(a, k + 1) <==> Bit(b, k + 1);
      }
      BitsDetermine(a / 2, b / 2);
    }
  }

  /** int64 & int64 on the two's complement representations. */
  function SignedAnd(l: int64, r: int64): int64 {
    var bits := BitAnd(l % TWO_TO_THE_64, r % TWO_TO_THE_64);
    if bits < TWO_TO_THE_63 then bits else bits - TWO_TO_THE_64
  }

  /** The result's representation has exactly the bits that both operands' have. */
  lemma SignedAndKeepsCommonBits(l: int64, r: int64, k: nat)
    ensures Bit(SignedAnd(l, r) % TWO_TO_THE_64, k) <==> Bit(l % TWO_TO_THE_64, k) && Bit(r % TWO_TO_THE_64, k)
  {
    var bits := BitAnd(l % TWO_TO_THE_64, r % TWO_TO_THE_64);
    assert bits < TWO_TO_THE_64;
    assert SignedAnd(l, r) % TWO_TO_THE_64 == bits;
    BitAndKeepsCommonBits(l % TWO_TO_THE_64, r % TWO_TO_THE_64, k);
  }

  function BitwiseAndValues(l: Value, r: Value): Result<Value, EvalError> {
    if l.typ != r.typ then Failure(TypesDiffer(BITWISE_AND, l.typ, r.typ))
    else if IsSigned(l.typ) then Success(Value(l.typ, SignedValue(SignedAnd(l.GetSigned(), r.GetSigned()))))
    else if IsUnsigned(l.typ) then
      Success(Value(l.typ, UnsignedValue(BitAnd(l.GetUnsigned(), r.GetUnsigned()))))
    else if l.typ.UNSPECIFIED? || l.typ.UnknownType? then Success(Value(l.typ, NoPayload))
    else Failure(NotAnInteger(l.typ))
  }

  /** A comparison node's value once both operands are known: NULL on either side is FALSE. */
  function ComparisonValue(op: ExpressionType, l: Value, r: Value): Result<Value, EvalError>
    requires IsComparison(op)
  {
    if l.typ.UNSPECIFIED? || r.typ.UNSPECIFIED? then Success(BoolOf(false))
    else if l.typ != r.typ then Failure(TypesDiffer(op, l.typ, r.typ))
    else
      var b :- Compare(op, l, r);
      Success(BoolOf(b))
  }

  /** A binary node's value once both operands are known and neither short-circuits. */
  function OperatorValue(op: ExpressionType, l: Value, r: Value): Result<Value, EvalError>
    requires IsLogical(op) || IsComparison(op) || op.BITWISE_AND?
  {
    if IsLogical(op) then Success(r)
    else if op.BITWISE_AND? then BitwiseAndValues(l, r)
    else ComparisonValue(op, l, r)
  }

  // --- Identifiers ---

  /** Does a native value have the Go type that the field type demands? */
  predicate HasGoType(v: GoValue, t: ValueType) {
    match t
    case STRING => v.GoString?
    case SINT8 => v.GoInt8?
    case SINT16 => v.GoInt16?
    case SINT32 => v.GoInt32?
    case SINT64 => v.GoInt64?
    case UINT8 => v.GoUint8?
    case UINT16 => v.GoUint16?
    case UINT32 => v.GoUint32?
    case UINT64 => v.GoUint64?
    case BOOL => v.GoBool?
    case DOUBLE => v.GoFloat64?
    case TIMESTAMP => v.GoUint64?
    case _ => false
  }

  function PayloadOf(v: GoValue, t: ValueType): Payload
    requires HasGoType(v, t)
  {
    match v
    case GoString(s) => StringValue(s)
    case GoInt8(i) => SignedValue(i)
    case GoInt16(i) => SignedValue(i)
    case GoInt32(i) => SignedValue(i)
    case GoInt64(i) => SignedValue(i)
    case GoUint8(u) => UnsignedValue(u)
    case GoUint16(u) => UnsignedValue(u)
    case GoUint32(u) => UnsignedValue(u)
    case GoUint64(u) => if t.TIMESTAMP? then TimestampValue(TimestampOf(u)) else UnsignedValue(u)
    case GoBool(b) => BoolValue(b)
    case GoFloat64(f) => DoubleValue(f)
  }

  function IdentifierValue(ident: string, types: FieldTypeMap, values: FieldValueMap): Result<Value, EvalError> {
    if ident !in types then Failure(UndefinedField(ident))
    else if ident !in values then Success(NULL_VALUE)
    else if values[ident].GoNil? then Failure(NilTypePanic)
    else if !HasGoType(values[ident], types[ident]) then Failure(DataTypeMismatch(ident))
    else Success(Value(types[ident], PayloadOf(values[ident], types[ident])))
  }

  // --- The meaning of an expression, without a stack ---

  function Eval(node: Expression, types: FieldTypeMap, values: FieldValueMap): Result<Value, EvalError>
    requires Shaped(node)
  {
    if node.typ.IDENTIFIER? then IdentifierValue(node.GetIdentifier(), types, values)
    else if node.typ.VALUE? then Success(node.GetValue())
    else if IsNullTest(node.typ) then
      var v :- Eval(node.expr.arg, types, values);
      Success(BoolOf(v.typ.UNSPECIFIED? == node.typ.IS_NULL?))
    else
      var l :- Eval(node.Lhs(), types, values);
      if node.typ.LOGICAL_AND? && !IsValueTrue(l) then Success(l)
      else if node.typ.LOGICAL_OR? && IsValueTrue(l) then Success(l)
      else
        var r :- Eval(node.Rhs(), types, values);
        OperatorValue(node.typ, l, r)
  }

  /** The truth of an evaluation that succeeded. */
  predicate EvaluatesTrue(node: Expression, types: FieldTypeMap, values: FieldValueMap)
    requires Shaped(node)
  {
    var r := Eval(node, types, values);
    r.Success? && IsValueTrue(r.value)
  }

  lemma OperatorIsNotInternal(op: ExpressionType, l: Value, r: Value)
    requires IsLogical(op) || IsComparison(op) || op.BITWISE_AND?
    ensures var v := OperatorValue(op, l, r);
            v.Failure? ==> v.error !in {Unreachable, EmptyStack, ExtraStack}
  {
  }

  /** None of the evaluator's three "internal error" results can come out of a shaped tree. */
  lemma {:induction false} NoInternalErrors(node: Expression, types: FieldTypeMap, values: FieldValueMap)
    requires Shaped(node)
    ensures var r := Eval(node, types, values);
            r.Failure? ==> r.error !in {Unreachable, EmptyStack, ExtraStack}
  {
    if IsNullTest(node.typ) {
      NoInternalErrors(node.expr.arg, types, values);
    } else if !node.typ.IDENTIFIER? && !node.typ.VALUE? {
      NoInternalErrors(node.Lhs(), types, values);
      NoInternalErrors(node.Rhs(), types, values);
      var l, r := Eval(node.Lhs(), types, values), Eval(node.Rhs(), types, values);
      if l.Success? && r.Success? {
        OperatorIsNotInternal(node.typ, l.value, r.value);
      }
    }
  }

  // --- The stack machine ---

  class EvalContext {
    const types: FieldTypeMap
    const values: FieldValueMap
    var stack: seq<Value>

    constructor (types: FieldTypeMap, values: FieldValueMap)
      ensures this.types == types && this.values == values && stack == []
    {
      this.types, this.values, stack := types, values, [];
    }

    method PushIdentifier(ident: string) returns (err: Outcome<EvalError>)
      modifies this`stack
      ensures match IdentifierValue(ident, types, values)
              case Success(v) => err == Pass && stack == old(stack) + [v]
              case Failure(e) => err == Fail(e) && stack == old(stack)
    {
      if ident !in types {
        return Fail(UndefinedField(ident));
      }
      var t := types[ident];
      if ident !in values {
        t := UNSPECIFIED;
      } else if values[ident].GoNil? {
        return Fail(NilTypePanic);
      } else if !HasGoType(values[ident], t) {
        return Fail(DataTypeMismatch(ident));
      }
      var value := Value(t, NoPayload);
      if ident in values {
        value := value.(payload := PayloadOf(values[ident], t));
      }
      stack := stack + [value];
      return Pass;
    }

    method PushComparison(op: ExpressionType, lhs: Value, rhs: Value) returns (err: Outcome<EvalError>)
      requires IsComparison(op)
      modifies this`stack
      ensures match ComparisonValue(op, lhs, rhs)
              case Success(v) => err == Pass && stack == old(stack) + [v]
              case Failure(e) => err == Fail(e) && stack == old(stack)
    {
      var result := false;
      if !lhs.typ.UNSPECIFIED? && !rhs.typ.UNSPECIFIED? {
        if lhs.typ != rhs.typ {
          return Fail(TypesDiffer(op, lhs.typ, rhs.typ));
        }
        var compared := Compare(op, lhs, rhs);
        if compared.Failure? {
          return Fail(compared.error);
        }
        result := compared.value;
      }
      stack := stack + [BoolOf(result)];
      return Pass;
    }

    method PushBitwiseAnd(lhs: Value, rhs: Value) returns (err: Outcome<EvalError>)
      modifies this`stack
      ensures match BitwiseAndValues(lhs, rhs)
              case Success(v) => err == Pass && stack == old(stack) + [v]
              case Failure(e) => err == Fail(e) && stack == old(stack)
    {
      var t := lhs.typ;
      if t != rhs.typ {
        return Fail(TypesDiffer(BITWISE_AND, t, rhs.typ));
      }
      var v := Value(t, NoPayload);
      if t.STRING? || t.BOOL? || t.DOUBLE? || t.TIMESTAMP? {
        return Fail(NotAnInteger(t));
      } else if IsSigned(t) {
        v := v.(payload := SignedValue(SignedAnd(lhs.GetSigned(), rhs.GetSigned())));
      } else if IsUnsigned(t) {
        v := v.(payload := UnsignedValue(BitAnd(lhs.GetUnsigned(), rhs.GetUnsigned())));
      }
      stack := stack + [v];
      return Pass;
    }

    /** Success pushes exactly the expression's meaning; failure reports the meaning's error
        and leaves what was on the stack before below whatever it had pushed. */
    method EvaluateNode(node: Expression) returns (err: Outcome<EvalError>)
      requires Shaped(node)
      modifies this`stack
      ensures match Eval(node, types, values)
              case Success(v) => err == Pass && stack == old(stack) + [v]
              case Failure(e) => err == Fail(e) && old(stack) <= stack
      decreases node
    {
      var op := node.typ;
      if op.IDENTIFIER? {
        err := PushIdentifier(node.GetIdentifier());
      } else if op.VALUE? {
        stack := stack + [node.GetValue()];
        err := Pass;
      } else if IsLogical(op) {
        :- EvaluateNode(node.Lhs());
        var v := stack[|stack| - 1];
        if IsValueTrue(v) == op.LOGICAL_OR? {
          return Pass;
        }
        stack := stack[..|stack| - 1];
        assert stack == old(stack);
        err := EvaluateNode(node.Rhs());
      } else if IsComparison(op) || op.BITWISE_AND? {
        :- EvaluateNode(node.Lhs());
        :- EvaluateNode(node.Rhs());
        var lhs, rhs := stack[|stack| - 2], stack[|stack| - 1];
        stack := stack[..|stack| - 2];
        assert stack == old(stack);
        if op.BITWISE_AND? {
          err := PushBitwiseAnd(lhs, rhs);
        } else {
          err := PushComparison(op, lhs, rhs);
        }
      } else if IsNullTest(op) {
        :- EvaluateNode(node.expr.arg);
        var top := |stack| - 1;
        stack := stack[top := BoolOf(stack[top].typ.UNSPECIFIED? == op.IS_NULL?)];
        err := Pass;
      } else {
        err := Fail(Unreachable);
      }
    }
  }

  /** Evaluate on an expression that NewExpression accepted: the meaning, whatever the stack
      discipline, so the two checks of the final stack never fire. */
  method EvaluateExpression(expr: Expression, types: FieldTypeMap, values: FieldValueMap)
    returns (r: Result<Value, EvalError>)
    requires Accepted(expr)
    ensures Shaped(expr) && r == Eval(expr, types, values)
  {
    ValidatedIsShaped(expr, true);
    var c := new EvalContext(types, values);
    var err := c.EvaluateNode(expr);
    if err.Pass? {
      if |c.stack| == 0 {
        err := Fail(EmptyStack);
      } else if |c.stack| > 1 {
        err := Fail(ExtraStack);
      }
    }
    if err.Fail? {
      return Failure(err.error);
    }
    return Success(c.stack[0]);
  }
}
