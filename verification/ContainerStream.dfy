/** NewEventStream of pkg/sensor/container.go: the container events of a subscription, by type and
    by expression. It is the one user of the type checker and of the evaluator. */
module ContainerStream {
  import opened Wrappers
  import opened Api
  import opened Validate
  import opened Evaluate
  import opened Soundness
  import opened Containers

  const CONTAINER_TYPES: FieldTypeMap := map[
    "name" := STRING, "image_id" := STRING, "image_name" := STRING,
    "host_pid" := SINT32, "exit_code" := SINT32, "exit_status" := UINT32,
    "exit_signal" := UINT32, "exit_core_dumped" := BOOL]

  /** convertEvent: what expressions can ask of an event. */
  function ConvertEvent(cev: ContainerEvent): FieldValueMap {
    var values := map["image_id" := GoString(cev.imageID), "image_name" := GoString(cev.imageName),
                      "host_pid" := GoInt32(cev.hostPid)];
    if cev.typ.EXITED? then
      values["exit_code" := GoInt32(cev.exitCode)]["exit_status" := GoUint32(cev.exitStatus)]
            ["exit_signal" := GoUint32(cev.exitSignal)]["exit_core_dumped" := GoBool(cev.coreDumped)]
    else values
  }

  /** Every field of a container event can be named in an expression. */
  lemma FieldsCanBeNamed(x: string)
    requires x in CONTAINER_TYPES
    ensures Accepted(Identifier(x)) && ValidateTypes(Identifier(x), CONTAINER_TYPES) == Success(CONTAINER_TYPES[x])
  {
    IdentifiersExactly(x);
  }

  /** What an expression sees in an event's field. */
  function FieldOf(cev: ContainerEvent, x: string): Result<Value, EvalError> {
    Eval(Identifier(x), CONTAINER_TYPES, ConvertEvent(cev))
  }

  /** It is the event's own field, and there is never a name. */
  lemma FieldsOfEvents(cev: ContainerEvent)
    ensures FieldOf(cev, "image_id") == Success(Value(STRING, StringValue(cev.imageID)))
    ensures FieldOf(cev, "image_name") == Success(Value(STRING, StringValue(cev.imageName)))
    ensures FieldOf(cev, "host_pid") == Success(Value(SINT32, SignedValue(cev.hostPid)))
    ensures FieldOf(cev, "name") == Success(Value(UNSPECIFIED, NoPayload))
  {
  }

  function ExitField(cev: ContainerEvent, v: Value): Result<Value, EvalError> {
    Success(if cev.typ == EXITED then v else Value(UNSPECIFIED, NoPayload))
  }

  /** The fields of an exit are there only when there was one. */
  lemma FieldsOfExits(cev: ContainerEvent)
    ensures FieldOf(cev, "exit_code")
         == ExitField(cev, Value(SINT32, SignedValue(cev.exitCode)))
    ensures FieldOf(cev, "exit_status")
         == ExitField(cev, Value(UINT32, UnsignedValue(cev.exitStatus)))
    ensures FieldOf(cev, "exit_signal")
         == ExitField(cev, Value(UINT32, UnsignedValue(cev.exitSignal)))
    ensures FieldOf(cev, "exit_core_dumped")
         == ExitField(cev, Value(BOOL, BoolValue(cev.coreDumped)))
  {
  }

  /** Every value has the type that its field is declared with, so that what the checks guarantee
      holds of any event. */
  lemma ConvertedIsWellTyped(cev: ContainerEvent)
    ensures WellTyped(CONTAINER_TYPES, ConvertEvent(cev))
  {
  }

  /** The name is declared and never supplied: whatever it is compared with, the test is false of
      every event. */
  lemma NameIsNeverThere(cev: ContainerEvent, op: ExpressionType, v: Value)
    requires IsComparison(op) && ValidateValue(v).Pass?
    ensures var test := Binary(op, Identifier("name"), Literal(v));
            && Accepted(test) && Shaped(test)
            && Eval(test, CONTAINER_TYPES, ConvertEvent(cev)) == Success(BoolOf(false))
  {
    var name, literal := Identifier("name"), Literal(v);
    var test := Binary(op, name, literal);
    assert ValidateNode(name, false).Pass? && ValidateNode(literal, false).Pass?;
    assert ValidateNode(test, true) == ValidateOperands(test, false);
    ValidatedIsShaped(test, true);
    assert Eval(name, CONTAINER_TYPES, ConvertEvent(cev)) == Success(NULL_VALUE);
    assert Eval(literal, CONTAINER_TYPES, ConvertEvent(cev)) == Success(v);
  }

  // --- Building the filters ---

  /** One filter of a subscription: the type of event it is for, whether it asks for the full view,
      and its expression if it has one. */
  datatype EventFilter = EventFilter(typ: EventType, full: bool, expr: Option<Expression>)

  /** What is kept for one type. */
  datatype TypeFilter = TypeFilter(full: bool, expr: Option<Expression>)

  predicate Asked(events: seq<EventFilter>, t: EventType) {
    exists i :: 0 <= i < |events| && events[i].typ == t
  }

  predicate FullAsked(events: seq<EventFilter>, t: EventType) {
    exists i :: 0 <= i < |events| && events[i].typ == t && events[i].full
  }

  /** The expressions of the filters for one type, in order. */
  function ExprsOf(events: seq<EventFilter>, t: EventType): seq<Expression> {
    if events == [] then [] else
    var n := |events| - 1;
    ExprsOf(events[..n], t) +
    if events[n].typ == t && events[n].expr.Some? then [events[n].expr.value] else []
  }

  /** LogicalOr of expressions, from the left. */
  function OrOf(es: seq<Expression>): Option<Expression> {
    if es == [] then None else Logical(LOGICAL_OR, OrOf(es[..|es| - 1]), Some(es[|es| - 1]))
  }

  /** Accepted by NewExpression and by Validate. */
  predicate IsValid(e: Expression) {
    Accepted(e) && (ValidatedIsShaped(e, true); ValidateTypes(e, CONTAINER_TYPES).Success?)
  }

  /** Is anything kept for this type? One expression that is not valid takes all of them away. */
  predicate Kept(events: seq<EventFilter>, t: EventType) {
    Asked(events, t) && (ExprsOf(events, t) == [] || IsValid(OrOf(ExprsOf(events, t)).value))
  }

  lemma OrOfAppend(es: seq<Expression>, e: Expression)
    ensures OrOf(es + [e]) == Logical(LOGICAL_OR, OrOf(es), Some(e))
  {
    assert (es + [e])[..|es|] == es;
  }

  /** exprs and filters of the original. */
  datatype Tables = Tables(exprs: map<EventType, Option<Expression>>, filters: map<EventType, TypeFilter>)

  function ExprAt(p: Tables, t: EventType): Option<Expression> {
    if t in p.exprs then p.exprs[t] else None
  }

  function FileFilter(p: Tables, cef: EventFilter): Tables {
    Tables(
      p.exprs[cef.typ := Logical(LOGICAL_OR, ExprAt(p, cef.typ), cef.expr)],
      p.filters[cef.typ := TypeFilter(cef.full || (cef.typ in p.filters && p.filters[cef.typ].full), None)])
  }

  function FileFilters(events: seq<EventFilter>): Tables {
    if events == [] then Tables(map[], map[])
    else FileFilter(FileFilters(events[..|events| - 1]), events[|events| - 1])
  }

  ghost predicate NoExprs(filters: map<EventType, TypeFilter>) {
    forall t :: t in filters ==> filters[t].expr.None?
  }

  method CollectExprs(events: seq<EventFilter>) returns (p: Tables)
    ensures p == FileFilters(events)
  {
    var exprs: map<EventType, Option<Expression>>, filters: map<EventType, TypeFilter> := map[], map[];
    for i := 0 to |events|
      invariant Tables(exprs, filters) == FileFilters(events[..i])
      invariant NoExprs(filters)
    {
      assert events[..i + 1][..i] == events[..i];
      var cef := events[i];
      var before := if cef.typ in exprs then exprs[cef.typ] else None;
      exprs := exprs[cef.typ := Logical(LOGICAL_OR, before, cef.expr)];
      if cef.typ in filters {
        var f := filters[cef.typ];
        if cef.full {
          f := f.(full := true);
        }
        filters := filters[cef.typ := f];
      } else {
        filters := filters[cef.typ := TypeFilter(cef.full, None)];
      }
    }
    assert events[..|events|] == events;
    p := Tables(exprs, filters);
  }

  lemma LastAsked(events: seq<EventFilter>, t: EventType)
    requires events != []
    ensures var n := |events| - 1;
            && (Asked(events, t) <==> Asked(events[..n], t) || events[n].typ == t)
            && (FullAsked(events, t) <==> FullAsked(events[..n], t) || (events[n].typ == t && events[n].full))
  {
    var n := |events| - 1;
    assert forall j :: 0 <= j < n ==> events[..n][j] == events[j];
  }

  lemma LastExpr(events: seq<EventFilter>, t: EventType)
    requires events != []
    ensures var n := |events| - 1;
            OrOf(ExprsOf(events, t)) ==
              if events[n].typ == t then Logical(LOGICAL_OR, OrOf(ExprsOf(events[..n], t)), events[n].expr)
              else OrOf(ExprsOf(events[..n], t))
  {
    var n := |events| - 1;
    var before := ExprsOf(events[..n], t);
    if events[n].typ == t && events[n].expr.Some? {
      OrOfAppend(before, events[n].expr.value);
    } else {
      assert ExprsOf(events, t) == before;
    }
  }

  /** What is filed for a type: its expressions joined, and whether the full view was asked for. */
  lemma {:induction false} FiledAt(events: seq<EventFilter>, t: EventType)
    ensures var p := FileFilters(events);
            && (t in p.exprs <==> Asked(events, t)) && (t in p.filters <==> Asked(events, t))
            && ExprAt(p, t) == OrOf(ExprsOf(events, t))
            && (t in p.filters ==> p.filters[t] == TypeFilter(FullAsked(events, t), None))
            && (FullAsked(events, t) ==> Asked(events, t))
    decreases |events|
  {
    if events != [] {
      FiledAt(events[..|events| - 1], t);
      LastAsked(events, t);
      LastExpr(events, t);
    }
  }

  predicate IsBad(expr: Option<Expression>) {
    expr.Some? && !IsValid(expr.value)
  }

  /** What is left for a type after the check: nothing if its expression is not valid. */
  method CheckExprs(p: Tables) returns (filters: map<EventType, TypeFilter>)
    requires p.exprs.Keys == p.filters.Keys && NoExprs(p.filters)
    ensures forall t :: t in filters <==> t in p.exprs && !IsBad(p.exprs[t])
    ensures forall t :: t in filters ==> filters[t] == p.filters[t].(expr := p.exprs[t])
  {
    filters := p.filters;
    var left, badTypes: set<EventType> := p.exprs.Keys, {};
    while left != {}
      invariant left <= p.exprs.Keys && filters.Keys == p.exprs.Keys
      invariant badTypes <= p.exprs.Keys - left
      invariant forall t :: t in p.exprs.Keys - left ==> (t in badTypes <==> IsBad(p.exprs[t]))
      invariant forall t :: t in left ==> filters[t] == p.filters[t]
      invariant forall t :: t in p.exprs.Keys - left - badTypes ==> filters[t] == p.filters[t].(expr := p.exprs[t])
      decreases left
    {
      var t :| t in left;
      left := left - {t};
      var expr := p.exprs[t];
      if IsBad(expr) {
        badTypes := badTypes + {t};
      } else if expr.Some? {
        filters := filters[t := filters[t].(expr := expr)];
      } else {
        assert p.filters[t].expr == expr;
      }
    }
    filters := filters - badTypes;
  }

  /** The filters of a stream. Without any there is no stream. */
  method NewEventStream(events: seq<EventFilter>) returns (filters: map<EventType, TypeFilter>)
    ensures forall t :: t in filters <==> Kept(events, t)
    ensures forall t :: t in filters ==> filters[t] == TypeFilter(FullAsked(events, t), OrOf(ExprsOf(events, t)))
  {
    var p := CollectExprs(events);
    forall t
      ensures t in p.exprs <==> Asked(events, t)
      ensures t in p.filters <==> Asked(events, t)
      ensures t in p.filters ==> p.filters[t] == TypeFilter(FullAsked(events, t), None)
      ensures t in p.exprs ==> p.exprs[t] == OrOf(ExprsOf(events, t))
      ensures Kept(events, t) <==> Asked(events, t) && !IsBad(OrOf(ExprsOf(events, t)))
    {
      FiledAt(events, t);
      OrOfSome(ExprsOf(events, t));
    }
    assert p.exprs.Keys == p.filters.Keys;
    filters := CheckExprs(p);
  }

  lemma OrOfSome(es: seq<Expression>)
    ensures OrOf(es).None? <==> es == []
  {
  }

  // --- Filtering ---

  /** The stream's filter on one event, which loses its configurations unless the full view was
      asked for. */
  method FilterEvent(events: seq<EventFilter>, filters: map<EventType, TypeFilter>, cev: ContainerEvent)
    returns (accepted: bool, out: ContainerEvent)
    requires forall t :: t in filters <==> Kept(events, t)
    requires forall t :: t in filters ==> filters[t] == TypeFilter(FullAsked(events, t), OrOf(ExprsOf(events, t)))
    ensures accepted <==> StreamAccepts(events, cev)
    ensures out == if accepted && !FullAsked(events, cev.typ) then cev.(ociConfig := "", dockerConfig := "") else cev
  {
    out := cev;
    if cev.typ !in filters {
      return false, out;
    }
    OrOfSome(ExprsOf(events, cev.typ));
    var cef := filters[cev.typ];
    if cef.expr.Some? {
      var v := EvaluateExpression(cef.expr.value, CONTAINER_TYPES, ConvertEvent(cev));
      if v.Failure? || !IsValueTrue(v.value) {
        return false, out;
      }
    }
    if !cef.full {
      out := out.(ociConfig := "", dockerConfig := "");
    }
    return true, out;
  }

  predicate StreamAccepts(events: seq<EventFilter>, cev: ContainerEvent) {
    && Kept(events, cev.typ)
    && (ExprsOf(events, cev.typ) == [] || IsTrueOf(OrOf(ExprsOf(events, cev.typ)).value, cev))
  }

  /** The expression is true of an event. */
  predicate IsTrueOf(e: Expression, cev: ContainerEvent) {
    Shaped(e) && EvaluatesTrue(e, CONTAINER_TYPES, ConvertEvent(cev))
  }

  predicate Fails(e: Expression, cev: ContainerEvent) {
    Shaped(e) && Eval(e, CONTAINER_TYPES, ConvertEvent(cev)).Failure?
  }

  // --- When it accepts what was asked for ---

  /** Some filter asks for the event: it is for its type, and has no expression, or a valid one that
      is true of it. */
  predicate Wanted(events: seq<EventFilter>, cev: ContainerEvent) {
    exists i :: 0 <= i < |events| && Wants(events[i], cev)
  }

  predicate Wants(f: EventFilter, cev: ContainerEvent) {
    f.typ == cev.typ && (f.expr.Some? ==> IsValid(f.expr.value) && IsTrueOf(f.expr.value, cev))
  }

  /** The valid type of an expression is BOOL. */
  predicate IsBoolean(e: Expression) {
    IsValid(e) && (ValidatedIsShaped(e, true); ValidateTypes(e, CONTAINER_TYPES) == Success(BOOL))
  }

  predicate AllBoolean(es: seq<Expression>) {
    forall i :: 0 <= i < |es| ==> IsBoolean(es[i])
  }

  /** Joined, the expressions are valid if and only if each is, and, when there are several, each is
      of type BOOL. */
  lemma {:induction false} OrIsValidExactly(es: seq<Expression>)
    requires es != []
    ensures IsValid(OrOf(es).value) <==> if |es| == 1 then IsValid(es[0]) else AllBoolean(es)
    ensures |es| > 1 ==> (IsBoolean(OrOf(es).value) <==> AllBoolean(es))
    decreases |es|
  {
    var n := |es| - 1;
    if n > 0 {
      var init, e := es[..n], es[n];
      OrOfSome(init);
      OrIsValidExactly(init);
      OrOfTwo(OrOf(init).value, e);
      assert forall i :: 0 <= i < n ==> init[i] == es[i];
      assert AllBoolean(es) <==> AllBoolean(init) && IsBoolean(e);
      assert OrOf(es) == Some(Binary(LOGICAL_OR, OrOf(init).value, e));
      if n == 1 {
        assert OrOf(init) == Some(init[0]);
      }
    }
  }

  lemma OrOfTwo(l: Expression, r: Expression)
    ensures var both := Binary(LOGICAL_OR, l, r);
            && (IsValid(both) <==> IsBoolean(l) && IsBoolean(r))
            && (IsValid(both) <==> IsBoolean(both))
  {
    var both := Binary(LOGICAL_OR, l, r);
    assert ValidateNode(both, true) == ValidateOperands(both, true);
    if Accepted(l) && Accepted(r) {
      ValidatedIsShaped(l, true);
      ValidatedIsShaped(r, true);
      ValidatedIsShaped(both, true);
    }
  }

  /** Some expression is true of the event, and evaluation does not fail at one before it. */
  predicate ReachesTrue(es: seq<Expression>, cev: ContainerEvent) {
    exists k :: 0 <= k < |es| && IsTrueOf(es[k], cev) && NoneFails(es[..k], cev)
  }

  predicate NoneFails(es: seq<Expression>, cev: ContainerEvent) {
    forall j :: 0 <= j < |es| ==> !Fails(es[j], cev)
  }

  predicate AllShaped(es: seq<Expression>) {
    forall i :: 0 <= i < |es| ==> Shaped(es[i])
  }

  /** Evaluating the joined expressions: true if a true one is reached, and no failure if one is or
      none fails. */
  lemma {:induction false} OrEvaluates(es: seq<Expression>, cev: ContainerEvent)
    requires es != [] && AllShaped(es)
    ensures Shaped(OrOf(es).value)
    ensures IsTrueOf(OrOf(es).value, cev) <==> ReachesTrue(es, cev)
    ensures Fails(OrOf(es).value, cev) <==> !ReachesTrue(es, cev) && !NoneFails(es, cev)
    decreases |es|
  {
    var n := |es| - 1;
    var init, e := es[..n], es[n];
    LastReached(es, cev);
    if n == 0 {
      assert OrOf(es) == Some(e);
    } else {
      OrOfSome(init);
      assert forall i :: 0 <= i < n ==> init[i] == es[i];
      OrEvaluates(init, cev);
      assert OrOf(es) == Some(Binary(LOGICAL_OR, OrOf(init).value, e));
    }
  }

  lemma LastReached(es: seq<Expression>, cev: ContainerEvent)
    requires es != []
    ensures var n := |es| - 1;
            && (ReachesTrue(es, cev) <==>
                  ReachesTrue(es[..n], cev) || (NoneFails(es[..n], cev) && IsTrueOf(es[n], cev)))
            && (NoneFails(es, cev) <==> NoneFails(es[..n], cev) && !Fails(es[n], cev))
  {
    var n := |es| - 1;
    var init := es[..n];
    assert forall k :: 0 <= k < n ==> init[k] == es[k] && init[..k] == es[..k];
  }

  /** Exactly which events a stream accepts: those of a type that was asked for, where no filter has
      an expression, or the expressions are valid together and a true one is reached. */
  lemma StreamAcceptsExactly(events: seq<EventFilter>, cev: ContainerEvent)
    ensures var es := ExprsOf(events, cev.typ);
            StreamAccepts(events, cev) <==>
              Asked(events, cev.typ) &&
              (es == [] || ((if |es| == 1 then IsValid(es[0]) else AllBoolean(es)) && ReachesTrue(es, cev)))
  {
    var es := ExprsOf(events, cev.typ);
    if es != [] {
      OrOfSome(es);
      OrIsValidExactly(es);
      if IsValid(OrOf(es).value) {
        forall i | 0 <= i < |es|
          ensures Shaped(es[i])
        {
          assert IsValid(es[i]) by {
            assert |es| > 1 ==> IsBoolean(es[i]);
          }
          ValidatedIsShaped(es[i], true);
        }
        OrEvaluates(es, cev);
      }
    }
  }

  /** Which filters of the list have these expressions. */
  lemma {:induction false} ExprIsAsked(events: seq<EventFilter>, t: EventType, e: Expression)
    ensures e in ExprsOf(events, t)
       <==> exists i :: 0 <= i < |events| && events[i] == EventFilter(t, events[i].full, Some(e))
    decreases |events|
  {
    if events != [] {
      var n := |events| - 1;
      ExprIsAsked(events[..n], t, e);
      assert forall j :: 0 <= j < n ==> events[..n][j] == events[j];
      assert e in ExprsOf(events, t) <==>
             e in ExprsOf(events[..n], t) || events[n] == EventFilter(t, events[n].full, Some(e));
    }
  }

  /** A filter for this type without an expression. */
  predicate AsksForAny(events: seq<EventFilter>, t: EventType) {
    exists i :: 0 <= i < |events| && events[i].typ == t && events[i].expr.None?
  }

  /** Nothing is accepted that no filter asked for. */
  lemma StreamOnlyWanted(events: seq<EventFilter>, cev: ContainerEvent)
    requires StreamAccepts(events, cev)
    ensures Wanted(events, cev)
  {
    var es, t := ExprsOf(events, cev.typ), cev.typ;
    StreamAcceptsExactly(events, cev);
    if es == [] {
      var i :| 0 <= i < |events| && events[i].typ == t;
      if events[i].expr.Some? {
        ExprIsAsked(events, t, events[i].expr.value);
      }
      assert Wants(events[i], cev);
    } else {
      var k :| 0 <= k < |es| && IsTrueOf(es[k], cev) && NoneFails(es[..k], cev);
      assert es[k] in es && (|es| > 1 ==> IsBoolean(es[k]));
      ExprIsAsked(events, t, es[k]);
      var i :| 0 <= i < |events| && events[i] == EventFilter(t, events[i].full, Some(es[k]));
      assert Wants(events[i], cev);
    }
  }

  /** Some expression of the list is true of the event. */
  predicate SomeTrue(es: seq<Expression>, cev: ContainerEvent) {
    exists k :: 0 <= k < |es| && IsValid(es[k]) && IsTrueOf(es[k], cev)
  }

  lemma WantedExactly(events: seq<EventFilter>, cev: ContainerEvent)
    ensures Wanted(events, cev) <==> AsksForAny(events, cev.typ) || SomeTrue(ExprsOf(events, cev.typ), cev)
  {
    var es, t := ExprsOf(events, cev.typ), cev.typ;
    if i :| 0 <= i < |events| && Wants(events[i], cev) {
      if events[i].expr.Some? {
        var e := events[i].expr.value;
        assert events[i] == EventFilter(t, events[i].full, Some(e));
        ExprIsAsked(events, t, e);
        var k :| 0 <= k < |es| && es[k] == e;
      }
    }
    if i :| 0 <= i < |events| && events[i].typ == t && events[i].expr.None? {
      assert Wants(events[i], cev);
    }
    if k :| 0 <= k < |es| && IsValid(es[k]) && IsTrueOf(es[k], cev) {
      assert es[k] in es;
      ExprIsAsked(events, t, es[k]);
      var i :| 0 <= i < |events| && events[i] == EventFilter(t, events[i].full, Some(es[k]));
      assert Wants(events[i], cev);
    }
  }

  /** An event that some filter asks for is lost in exactly three ways: a filter without an
      expression stands beside expressions of which no true one is reached; or one expression of
      the type is not valid, or not BOOL beside others; or one fails on the event before a true one
      is reached. Without expressions, nothing is lost. */
  lemma LostExactly(events: seq<EventFilter>, cev: ContainerEvent)
    requires Wanted(events, cev)
    ensures var es := ExprsOf(events, cev.typ);
            !StreamAccepts(events, cev) <==>
              es != [] && (!(if |es| == 1 then IsValid(es[0]) else AllBoolean(es)) || !ReachesTrue(es, cev))
  {
    StreamAcceptsExactly(events, cev);
    var i :| 0 <= i < |events| && Wants(events[i], cev);
  }

  /** So where every filter of the type has an expression, all valid together, and none fails on the
      event, the stream accepts it exactly when some filter asks for it. */
  lemma StreamMeansWanted(events: seq<EventFilter>, cev: ContainerEvent)
    requires !AsksForAny(events, cev.typ)
    requires var es := ExprsOf(events, cev.typ);
             (|es| == 1 ==> IsValid(es[0])) && (|es| > 1 ==> AllBoolean(es)) && NoneFails(es, cev)
    ensures StreamAccepts(events, cev) <==> Wanted(events, cev)
  {
    var es := ExprsOf(events, cev.typ);
    WantedExactly(events, cev);
    StreamAcceptsExactly(events, cev);
    if StreamAccepts(events, cev) {
      StreamOnlyWanted(events, cev);
    }
    if k :| 0 <= k < |es| && IsValid(es[k]) && IsTrueOf(es[k], cev) {
      assert NoneFails(es[..k], cev);
      assert es[k] in es;
      ExprIsAsked(events, cev.typ, es[k]);
    }
  }

  /** A valid expression fails on an event only in the two known ways, and exactly when it is not safe
      as far as evaluation gets. */
  lemma FailsExactly(e: Expression, cev: ContainerEvent)
    requires IsValid(e)
    ensures Shaped(e) && (Fails(e, cev) <==> !SafeReached(e, CONTAINER_TYPES, ConvertEvent(cev)))
  {
    ValidatedIsShaped(e, true);
    ConvertedIsWellTyped(cev);
    TypeSoundness(e, CONTAINER_TYPES, ConvertEvent(cev));
  }
}
