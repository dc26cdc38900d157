/** pkg/expression/string.go at token level: the kernel-filter printer, readers of what it
    prints, and what a filter that is read back means. */
module KernelFilter {
  import opened Wrappers
  import opened Api
  import opened Validate

  datatype Token =
    | TName(name: string)
    | TNumber(n: int)
    | TQuoted(text: string)
    | TOther(v: Value)              // TRUE, FALSE, doubles, timestamps, <<invalid>>
    | TOp(op: ExpressionType)
    | TOpen
    | TClose

  // --- The printer ---

  function ValueToken(v: Value): Token {
    if v.typ.STRING? then TQuoted(v.GetString())
    else if IsSigned(v.typ) then TNumber(v.GetSigned())
    else if IsUnsigned(v.typ) then TNumber(v.GetUnsigned())
    else TOther(v)
  }

  /** expressionAsKernelFilterString. A right operand that is itself logical is put in
      parentheses, a left operand never is; a null test prints as nothing at all; and
      `x & m != 0` prints as `x & m`. */
  function Print(node: Expression): seq<Token>
    requires Shaped(node)
  {
    if node.typ.IDENTIFIER? then [TName(node.GetIdentifier())]
    else if node.typ.VALUE? then [ValueToken(node.GetValue())]
    else if IsNullTest(node.typ) then []
    else if node.typ.NE? && node.Lhs().typ.BITWISE_AND? then Print(node.Lhs())
    else
      var nested := IsLogical(node.typ) && IsLogical(node.Rhs().typ);
      Print(node.Lhs()) + [TOp(node.typ)] + Parenthesized(nested, Print(node.Rhs()))
  }

  function Parenthesized(nested: bool, toks: seq<Token>): seq<Token> {
    if nested then [TOpen] + toks + [TClose] else toks
  }

  /** A tree prints as the empty string, which callers take to mean "no filter", exactly when
      it is a null test. */
  lemma PrintsNothing(node: Expression)
    requires Shaped(node)
    ensures Print(node) == [] <==> IsNullTest(node.typ)
  {
    if node.typ.NE? && node.Lhs().typ.BITWISE_AND? {
      assert |Print(node.Lhs())| > 0;
    }
  }

  // --- What a reader of filters builds ---

  /** A filter as its text shows it: integers have lost their widths. */
  datatype Filter =
    | Field(name: string)
    | Number(n: int)
    | Quoted(text: string)
    | Test(op: ExpressionType, lhs: Filter, rhs: Filter)
    | And(left: Filter, right: Filter)
    | Or(left: Filter, right: Filter)

  function Join(op: ExpressionType, l: Filter, r: Filter): Filter {
    if op.LOGICAL_AND? then And(l, r) else Or(l, r)
  }

  function LiteralFilter(v: Value): Filter {
    if v.typ.STRING? then Quoted(v.GetString())
    else if IsSigned(v.typ) then Number(v.GetSigned())
    else Number(v.GetUnsigned())
  }

  /** The filter a kernel-valid tree stands for, with `x & m != 0` collapsed to `x & m`. */
  function Collapse(node: Expression): Filter
    requires KernelValid(node)
  {
    if node.typ.IDENTIFIER? then Field(node.GetIdentifier())
    else if node.typ.VALUE? then LiteralFilter(node.GetValue())
    else if IsLogical(node.typ) then
      KernelOperands(node);
      Join(node.typ, Collapse(node.Lhs()), Collapse(node.Rhs()))
    else
      KernelTest(node);
      if node.typ.NE? && node.Lhs().typ.BITWISE_AND? then Collapse(node.Lhs())
      else Test(node.typ, Field(node.Lhs().GetIdentifier()), LiteralFilter(node.Rhs().GetValue()))
  }

  // --- Readers ---

  /** How a reader groups a chain of && and ||: strictly left to right at one level, or with
      && binding tighter. */
  datatype Grouping = OneLevel | AndTighter

  /** A chain read so far: what precedes the last || (if anything is still waiting there for
      a tighter && to its right), and what follows it. */
  datatype Chain = Chain(before: Option<Filter>, last: Filter) {

    function Close(): Filter {
      if before.None? then last else Or(before.value, last)
    }

    function Extend(g: Grouping, op: ExpressionType, f: Filter): Chain {
      if op.LOGICAL_OR? then
        if g.AndTighter? then Chain(Some(Close()), f) else Chain(None, Or(Close(), f))
      else Chain(before, And(last, f))
    }
  }

  function ReadOperand(toks: seq<Token>): Option<(Filter, seq<Token>)> {
    if toks == [] then None
    else match toks[0]
      case TName(x) => Some((Field(x), toks[1..]))
      case TNumber(n) => Some((Number(n), toks[1..]))
      case TQuoted(s) => Some((Quoted(s), toks[1..]))
      case _ => None
  }

  predicate IsTest(op: ExpressionType) {
    IsComparison(op) || op.BITWISE_AND?
  }

  /** An operand, a test of two operands, or a whole filter in parentheses. */
  function ReadTerm(g: Grouping, toks: seq<Token>): (r: Option<(Filter, seq<Token>)>)
    ensures r.Some? ==> |r.value.1| < |toks|
    decreases |toks|, 0
  {
    if toks != [] && toks[0].TOpen? then
      match ReadFilter(g, toks[1..])
      case None => None
      case Some((f, rest)) =>
        if rest != [] && rest[0].TClose? then Some((f, rest[1..])) else None
    else
      match ReadOperand(toks)
      case None => None
      case Some((l, rest)) =>
        if rest != [] && rest[0].TOp? && IsTest(rest[0].op) then
          match ReadOperand(rest[1..])
          case None => None
          case Some((r, rest')) => Some((Test(rest[0].op, l, r), rest'))
        else Some((l, rest))
  }

  function ReadFilter(g: Grouping, toks: seq<Token>): (r: Option<(Filter, seq<Token>)>)
    ensures r.Some? ==> |r.value.1| < |toks|
    decreases |toks|, 1
  {
    match ReadTerm(g, toks)
    case None => None
    case Some((f, rest)) => ReadChain(g, Chain(None, f), rest)
  }

  function ReadChain(g: Grouping, chain: Chain, toks: seq<Token>): (r: Option<(Filter, seq<Token>)>)
    ensures r.Some? ==> |r.value.1| <= |toks|
    decreases |toks|, 1
  {
    if toks != [] && toks[0].TOp? && IsLogical(toks[0].op) then
      match ReadTerm(g, toks[1..])
      case None => None
      case Some((f, rest)) => ReadChain(g, chain.Extend(g, toks[0].op, f), rest)
    else Some((chain.Close(), toks))
  }

  /** Read a whole filter string. */
  function Read(g: Grouping, toks: seq<Token>): Option<Filter> {
    match ReadFilter(g, toks)
    case None => None
    case Some((f, rest)) => if rest == [] then Some(f) else None
  }

  // --- What is read back from a printed tree ---

  /** The chain a reader holds after a printed tree: the left spine of logical nodes is the
      chain, everything else is a term of it. */
  function ChainOf(g: Grouping, node: Expression): Chain
    requires KernelValid(node)
  {
    if IsLogical(node.typ) then
      KernelOperands(node);
      ChainOf(g, node.Lhs()).Extend(g, node.typ, ChainOf(g, node.Rhs()).Close())
    else Chain(None, Collapse(node))
  }

  /** After a term comes the end, a closing parenthesis or another logical operator. */
  predicate EndsTerm(rest: seq<Token>) {
    rest == [] || rest[0].TClose? || (rest[0].TOp? && IsLogical(rest[0].op))
  }

  /** What the kernel validator leaves of a node that is neither logical nor an operand. */
  lemma KernelTest(node: Expression)
    requires KernelValid(node) && !IsLogical(node.typ) && !node.typ.IDENTIFIER? && !node.typ.VALUE?
    ensures node.HasOperands() && IsTest(node.typ)
    ensures if node.typ.NE? && node.Lhs().typ.BITWISE_AND? then
              KernelValid(node.Lhs()) && node.Rhs().typ.VALUE? && IsZero(node.Rhs().GetValue())
            else
              && node.Lhs().typ.IDENTIFIER?
              && node.Rhs().typ.VALUE?
              && ValidateKernelValue(node.Rhs().GetValue()).Pass?
  {
    assert node.typ.BITWISE_AND? || ValidateKernelFilterNode(node).Pass?;
  }

  /** A printed non-logical tree is read as one term. */
  lemma {:induction false} ReadsTerm(g: Grouping, node: Expression, rest: seq<Token>)
    requires KernelValid(node) && !IsLogical(node.typ) && EndsTerm(rest)
    ensures ReadTerm(g, Print(node) + rest) == Some((Collapse(node), rest))
  {
    if node.typ.IDENTIFIER? || node.typ.VALUE? {
      assert ValidateKernelFilterNode(node).Pass?;
      assert (Print(node) + rest)[1..] == rest;
    } else {
      KernelTest(node);
      if node.typ.NE? && node.Lhs().typ.BITWISE_AND? {
        ReadsTerm(g, node.Lhs(), rest);
      } else {
        var l, r := TName(node.Lhs().GetIdentifier()), ValueToken(node.Rhs().GetValue());
        var toks := [l, TOp(node.typ), r] + rest;
        assert Print(node.Lhs()) == [l] && Print(node.Rhs()) == [r];
        assert Print(node) + rest == toks;
        assert toks[1..] == [TOp(node.typ), r] + rest;
        assert toks[1..][1..] == [r] + rest;
        assert toks[1..][1..][1..] == rest;
      }
    }
  }

  /** What a test is printed as: the field, the operator and the literal, a mask without its
      comparison with zero. */
  lemma TestPrintsAs(x: string, op: ExpressionType, v: Value, zero: Value)
    requires KernelValid(Binary(op, Identifier(x), Literal(v))) && IsTest(op)
    ensures Print(Binary(op, Identifier(x), Literal(v)))
         == [TName(x), TOp(op), LiteralToken(v)]
    ensures op.BITWISE_AND? && KernelValid(Binary(NE, Binary(op, Identifier(x), Literal(v)), Literal(zero))) ==>
              Print(Binary(NE, Binary(op, Identifier(x), Literal(v)), Literal(zero)))
              == [TName(x), TOp(BITWISE_AND), LiteralToken(v)]
  {
    var test := Binary(op, Identifier(x), Literal(v));
    KernelTest(test);
    assert Shaped(test.Lhs()) && Shaped(test.Rhs());
    assert Print(test.Lhs()) == [TName(x)];
    assert Print(test.Rhs()) == [ValueToken(v)];
  }

  function LiteralToken(v: Value): Token {
    match v.payload
    case StringValue(s) => TQuoted(s)
    case SignedValue(n) => TNumber(n)
    case UnsignedValue(n) => TNumber(n)
    case _ => TOther(v)
  }

  lemma ReadsParentheses(g: Grouping, inner: seq<Token>, f: Filter, rest: seq<Token>)
    requires ReadFilter(g, inner + ([TClose] + rest)) == Some((f, [TClose] + rest))
    ensures ReadTerm(g, Parenthesized(true, inner) + rest) == Some((f, rest))
  {
    var toks := Parenthesized(true, inner) + rest;
    assert toks[1..] == inner + ([TClose] + rest);
    assert ([TClose] + rest)[1..] == rest;
  }

  /** The right operand of a printed logical node is read as one term. */
  lemma {:induction false} ReadsRight(g: Grouping, node: Expression, rest: seq<Token>)
    requires KernelValid(node) && EndsTerm(rest)
    ensures ReadTerm(g, Parenthesized(IsLogical(node.typ), Print(node)) + rest)
         == Some((ChainOf(g, node).Close(), rest))
    decreases node, 1
  {
    if IsLogical(node.typ) {
      var after := [TClose] + rest;
      ReadsChain(g, node, after);
      assert ReadChain(g, ChainOf(g, node), after) == Some((ChainOf(g, node).Close(), after));
      ReadsParentheses(g, Print(node), ChainOf(g, node).Close(), rest);
    } else {
      ReadsTerm(g, node, rest);
    }
  }

  /** A printed tree is read as its chain, whatever follows. */
  lemma {:induction false} ReadsChain(g: Grouping, node: Expression, rest: seq<Token>)
    requires KernelValid(node) && EndsTerm(rest)
    ensures ReadFilter(g, Print(node) + rest) == ReadChain(g, ChainOf(g, node), rest)
    decreases node, 0
  {
    if !IsLogical(node.typ) {
      ReadsTerm(g, node, rest);
    } else {
      KernelOperands(node);
      var l, r := node.Lhs(), node.Rhs();
      var right := Parenthesized(IsLogical(r.typ), Print(r)) + rest;
      assert Print(node) + rest == Print(l) + ([TOp(node.typ)] + right);
      ReadsChain(g, l, [TOp(node.typ)] + right);
      assert ([TOp(node.typ)] + right)[1..] == right;
      ReadsRight(g, r, rest);
    }
  }

  lemma ReadsBack(g: Grouping, node: Expression)
    requires KernelValid(node)
    ensures Read(g, Print(node)) == Some(ChainOf(g, node).Close())
  {
    ReadsChain(g, node, []);
    assert Print(node) + [] == Print(node);
  }

  /** Read at one level, every printed tree comes back as itself (collapsed). */
  lemma {:induction false} OneLevelRoundTrip(node: Expression)
    requires KernelValid(node)
    ensures Read(OneLevel, Print(node)) == Some(Collapse(node))
  {
    ReadsBack(OneLevel, node);
    OneLevelChain(node);
  }

  lemma {:induction false} OneLevelChain(node: Expression)
    requires KernelValid(node)
    ensures ChainOf(OneLevel, node) == Chain(None, Collapse(node))
  {
    if IsLogical(node.typ) {
      KernelOperands(node);
      OneLevelChain(node.Lhs());
      OneLevelChain(node.Rhs());
    }
  }

  /** No && node has a || node as its immediate left operand. */
  predicate NoOrLeftOfAnd(node: Expression)
    requires Shaped(node)
  {
    IsLogical(node.typ) ==>
      && !(node.typ.LOGICAL_AND? && node.Lhs().typ.LOGICAL_OR?)
      && NoOrLeftOfAnd(node.Lhs())
      && NoOrLeftOfAnd(node.Rhs())
  }

  /** Read with && binding tighter, as the kernel does, a printed tree comes back as itself if
      and only if no && has a || immediately to its left. */
  lemma AndTighterRoundTrip(node: Expression)
    requires KernelValid(node)
    ensures Read(AndTighter, Print(node)) == Some(Collapse(node)) <==> NoOrLeftOfAnd(node)
  {
    ReadsBack(AndTighter, node);
    AndTighterChain(node);
  }

  lemma {:induction false} AndTighterChain(node: Expression)
    requires KernelValid(node)
    ensures ChainOf(AndTighter, node).Close() == Collapse(node) <==> NoOrLeftOfAnd(node)
    ensures NoOrLeftOfAnd(node) ==> (ChainOf(AndTighter, node).before.Some? <==> node.typ.LOGICAL_OR?)
    ensures ChainOf(AndTighter, node).before.None? ==> !node.typ.LOGICAL_OR?
  {
    if IsLogical(node.typ) {
      KernelOperands(node);
      AndTighterChain(node.Lhs());
      AndTighterChain(node.Rhs());
    }
  }
}
