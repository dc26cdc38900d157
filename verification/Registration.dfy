/** registerProcessEvents of pkg/sensor/process.go and registerSyscallEvents of
    pkg/sensor/syscall.go: from the filters of a subscription to the one that the kernel is given
    for each type of event. */
module Registration {
  import opened Wrappers
  import opened Api
  import opened Validate
  import opened Evaluate
  import opened KernelFilter
  import opened FilterMeaning
  import opened FilterSet
  import opened Rewrite

  // --- Process events ---

  datatype ProcessTables = ProcessTables(
    fork: bool,
    execWildcard: bool, execFilters: set<Text>,
    exitWildcard: bool, exitFilters: set<Text>)

  function FileProcess(p: ProcessTables, f: ProcessFilter): ProcessTables {
    var expr := RewriteProcess(f).expr;
    match f.typ
    case PROCESS_FORK => p.(fork := true)
    case PROCESS_EXEC =>
      if expr.None? then p.(execWildcard := true)
      else if Registrable(expr) then p.(execFilters := p.execFilters + {Print(expr.value)})
      else p
    case PROCESS_EXIT =>
      if expr.None? then p.(exitWildcard := true)
      else if Registrable(expr) then p.(exitFilters := p.exitFilters + {Print(expr.value)})
      else p
    case PROCESS_OTHER(_) => p
  }

  function FileProcesses(events: seq<ProcessFilter>): ProcessTables {
    if events == [] then ProcessTables(false, false, {}, false, {})
    else FileProcess(FileProcesses(events[..|events| - 1]), events[|events| - 1])
  }

  /** The loop over the filters, each rewritten first. */
  method CollectProcessFilters(events: seq<ProcessFilter>) returns (p: ProcessTables)
    ensures p == FileProcesses(events)
  {
    var forkFilter, execWildcard, exitWildcard := false, false, false;
    var execFilters: set<Text>, exitFilters: set<Text> := {}, {};
    for i := 0 to |events|
      invariant ProcessTables(forkFilter, execWildcard, execFilters, exitWildcard, exitFilters)
             == FileProcesses(events[..i])
    {
      assert events[..i + 1][..i] == events[..i];
      var pef := RewriteProcess(events[i]);
      match pef.typ {
        case PROCESS_FORK =>
          forkFilter := true;
        case PROCESS_EXEC =>
          if pef.expr.None? {
            execWildcard := true;
          } else if Registrable(pef.expr) {
            execFilters := execFilters + {Print(pef.expr.value)};
          }
        case PROCESS_EXIT =>
          if pef.expr.None? {
            exitWildcard := true;
          } else if Registrable(pef.expr) {
            exitFilters := exitFilters + {Print(pef.expr.value)};
          }
        case PROCESS_OTHER(_) =>
      }
    }
    assert events[..|events|] == events;
    p := ProcessTables(forkFilter, execWildcard, execFilters, exitWildcard, exitFilters);
  }

  /** The types of event whose filters are collected. */
  predicate IsFiltered(t: ProcessEventType) {
    t.PROCESS_EXEC? || t.PROCESS_EXIT?
  }

  function FiltersOf(p: ProcessTables, t: ProcessEventType): set<Text> {
    if t.PROCESS_EXEC? then p.execFilters else p.exitFilters
  }

  predicate WildcardOf(p: ProcessTables, t: ProcessEventType) {
    if t.PROCESS_EXEC? then p.execWildcard else p.exitWildcard
  }

  /** A filter with neither an expression nor a deprecated field that applies. */
  predicate AsksForAll(f: ProcessFilter) {
    && f.expr.None?
    && (f.typ.PROCESS_EXEC? ==> f.execFilename.None? && f.execFilenamePattern.None?)
    && (f.typ.PROCESS_EXIT? ==> f.exitCode.None?)
  }

  /** What was filed for one type, as expressions. */
  function ProcessExprs(events: seq<ProcessFilter>, t: ProcessEventType): seq<Expression> {
    if events == [] then [] else
    var n := |events| - 1;
    var expr := RewriteProcess(events[n]).expr;
    ProcessExprs(events[..n], t) +
    if IsFiled(events[n], t) then [expr.value] else []
  }

  lemma SomePrintsAsAppend(nodes: seq<Expression>, node: Expression, s: Text)
    ensures SomePrintsAs(nodes + [node], s) <==> SomePrintsAs(nodes, s) || PrintsAs(node, s)
  {
    var more := nodes + [node];
    assert forall i :: 0 <= i < |nodes| ==> more[i] == nodes[i];
    assert more[|nodes|] == node;
  }

  /** What is filed for a type is the prints of the filters that are registrable. */
  lemma {:induction false} FiledProcesses(events: seq<ProcessFilter>, t: ProcessEventType, s: Text)
    requires IsFiltered(t)
    ensures s in FiltersOf(FileProcesses(events), t) <==> SomePrintsAs(ProcessExprs(events, t), s)
    decreases |events|
  {
    if events != [] {
      var n := |events| - 1;
      var expr := RewriteProcess(events[n]).expr;
      FiledProcesses(events[..n], t, s);
      if IsFiled(events[n], t) {
        SomePrintsAsAppend(ProcessExprs(events[..n], t), expr.value, s);
      } else {
        assert ProcessExprs(events, t) == ProcessExprs(events[..n], t);
      }
    }
  }

  ghost predicate SomeAsksForAll(events: seq<ProcessFilter>, t: ProcessEventType) {
    exists i :: 0 <= i < |events| && events[i].typ == t && AsksForAll(events[i])
  }

  /** Its wildcard is set exactly when some filter asks for all. */
  lemma {:induction false} WildcardProcesses(events: seq<ProcessFilter>, t: ProcessEventType)
    requires IsFiltered(t)
    ensures WildcardOf(FileProcesses(events), t) <==> SomeAsksForAll(events, t)
    decreases |events|
  {
    if events != [] {
      var n := |events| - 1;
      var init, f := events[..n], events[n];
      WildcardProcesses(init, t);
      assert RewriteProcess(f).expr.None? <==> AsksForAll(f);
      assert forall i :: 0 <= i < n ==> init[i] == events[i];
      assert SomeAsksForAll(events, t) <==> SomeAsksForAll(init, t) || (f.typ == t && AsksForAll(f));
    }
  }

  /** Forks are asked for exactly when some filter is for them, whatever its expression. */
  lemma {:induction false} ForksExactly(events: seq<ProcessFilter>)
    ensures FileProcesses(events).fork <==> exists i :: 0 <= i < |events| && events[i].typ == PROCESS_FORK
    decreases |events|
  {
    if events != [] {
      ForksExactly(events[..|events| - 1]);
    }
  }

  /** A well-formed filter for this type that the event matches: its deprecated fields that apply,
      and its expression if it has one. */
  ghost predicate Wants(f: ProcessFilter, t: ProcessEventType, types: FieldTypeMap, values: FieldValueMap) {
    && f.typ == t && Registrable(f.expr) && !AsksForAll(f)
    && DeprecatedFieldsMatch(f, types, values) && Passes(f.expr, types, values)
  }

  ghost predicate SomeWants(events: seq<ProcessFilter>, t: ProcessEventType,
                            types: FieldTypeMap, values: FieldValueMap)
  {
    exists i :: 0 <= i < |events| && Wants(events[i], t, types, values)
  }

  lemma {:induction false} ProcessExprsMean(events: seq<ProcessFilter>, t: ProcessEventType,
                                            types: FieldTypeMap, values: FieldValueMap)
    requires IsFiltered(t)
    ensures AnyTrue(ProcessExprs(events, t), types, values) <==> SomeWants(events, t, types, values)
    decreases |events|
  {
    if events != [] {
      var n := |events| - 1;
      var init, f := events[..n], events[n];
      var before, expr := ProcessExprs(init, t), RewriteProcess(f).expr;
      ProcessExprsMean(init, t, types, values);
      LastWants(events, t, types, values);
      FiledMeansWanted(f, t, types, values);
      if IsFiled(f, t) {
        AnyTrueAppend(before, expr.value, types, values);
      } else {
        assert ProcessExprs(events, t) == before;
      }
    }
  }

  lemma LastWants(events: seq<ProcessFilter>, t: ProcessEventType, types: FieldTypeMap, values: FieldValueMap)
    requires events != []
    ensures var n := |events| - 1;
            SomeWants(events, t, types, values)
            <==> SomeWants(events[..n], t, types, values) || Wants(events[n], t, types, values)
  {
    var n := |events| - 1;
    assert forall i :: 0 <= i < n ==> events[..n][i] == events[i];
  }

  predicate IsFiled(f: ProcessFilter, t: ProcessEventType) {
    var expr := RewriteProcess(f).expr;
    f.typ == t && expr.Some? && Registrable(expr)
  }

  lemma FiledMeansWanted(f: ProcessFilter, t: ProcessEventType, types: FieldTypeMap, values: FieldValueMap)
    requires IsFiltered(t)
    ensures Wants(f, t, types, values) <==> IsFiled(f, t) && IsTrue(RewriteProcess(f).expr.value, types, values)
  {
    RewriteProcessIsRegistrable(f);
    if Registrable(f.expr) {
      RewriteProcessKeepsMeaning(f, types, values);
    }
  }

  // --- The same, as the kernel reads it ---

  /** A well-formed filter for this type that the event matches as the kernel has it: its deprecated
      fields that apply, and what is read of its expression if it has one. */
  ghost predicate KernelWants(g: Grouping, f: ProcessFilter, t: ProcessEventType, values: FieldValueMap) {
    && f.typ == t && Registrable(f.expr) && !AsksForAll(f)
    && KernelFieldsMatch(f, values) && (f.expr.Some? ==> Lets(g, f.expr.value, values))
  }

  ghost predicate SomeKernelWants(g: Grouping, events: seq<ProcessFilter>, t: ProcessEventType, values: FieldValueMap) {
    exists i :: 0 <= i < |events| && KernelWants(g, events[i], t, values)
  }

  lemma FiledMeansKernelWanted(g: Grouping, f: ProcessFilter, t: ProcessEventType, values: FieldValueMap)
    requires IsFiltered(t)
    ensures KernelWants(g, f, t, values) <==> IsFiled(f, t) && Lets(g, RewriteProcess(f).expr.value, values)
  {
    RewriteProcessIsRegistrable(f);
    if Registrable(f.expr) && RewriteProcess(f).expr.Some? {
      RewriteProcessReads(g, f, values);
    }
  }

  lemma LastKernelWants(g: Grouping, events: seq<ProcessFilter>, t: ProcessEventType, values: FieldValueMap)
    requires events != []
    ensures var n := |events| - 1;
            SomeKernelWants(g, events, t, values)
            <==> SomeKernelWants(g, events[..n], t, values) || KernelWants(g, events[n], t, values)
  {
    var n := |events| - 1;
    assert forall i :: 0 <= i < n ==> events[..n][i] == events[i];
  }

  lemma SomeLetsAppend(g: Grouping, nodes: seq<Expression>, node: Expression, values: FieldValueMap)
    ensures SomeLets(g, nodes + [node], values) <==> SomeLets(g, nodes, values) || Lets(g, node, values)
  {
    var more := nodes + [node];
    assert forall i :: 0 <= i < |nodes| ==> more[i] == nodes[i];
    assert more[|nodes|] == node;
  }

  lemma {:induction false} ProcessExprsRead(g: Grouping, events: seq<ProcessFilter>, t: ProcessEventType,
                                            values: FieldValueMap)
    requires IsFiltered(t)
    ensures AllKernelValid(ProcessExprs(events, t))
    ensures SomeLets(g, ProcessExprs(events, t), values) <==> SomeKernelWants(g, events, t, values)
    decreases |events|
  {
    if events != [] {
      var n := |events| - 1;
      var before, expr := ProcessExprs(events[..n], t), RewriteProcess(events[n]).expr;
      ProcessExprsRead(g, events[..n], t, values);
      LastKernelWants(g, events, t, values);
      FiledMeansKernelWanted(g, events[n], t, values);
      if IsFiled(events[n], t) {
        SomeLetsAppend(g, before, expr.value, values);
      } else {
        assert ProcessExprs(events, t) == before;
      }
    }
  }

  /** From a subscription to the kernel: for any list of process filters, malformed ones included,
      in whatever order the set is ranged over, and however && and || are grouped, the filter given
      to the kernel for a type lets an event through exactly when some filter of the subscription,
      as it was before rewriting, wants it. */
  lemma {:induction false} ProcessFilterIsAny(g: Grouping, events: seq<ProcessFilter>, t: ProcessEventType,
                                              order: seq<Text>, values: FieldValueMap)
    requires IsFiltered(t) && order != []
    requires IsListing(order, FiltersOf(FileProcesses(events), t))
    ensures var f := Read(g, JoinParts(order));
            f.Some? && (Holds(f.value, values) <==> SomeKernelWants(g, events, t, values))
  {
    ProcessExprsRead(g, events, t, values);
    forall s
      ensures s in order <==> SomePrintsAs(ProcessExprs(events, t), s)
    {
      FiledProcesses(events, t, s);
    }
    ListingIsAny(g, ProcessExprs(events, t), order, values);
  }

  // --- And as Evaluate has it, where that succeeds ---

  lemma AnyTrueAppend(nodes: seq<Expression>, node: Expression, types: FieldTypeMap, values: FieldValueMap)
    ensures AnyTrue(nodes + [node], types, values) <==> AnyTrue(nodes, types, values) || IsTrue(node, types, values)
  {
    var more := nodes + [node];
    assert forall i :: 0 <= i < |nodes| ==> more[i] == nodes[i];
    assert more[|nodes|] == node;
  }

  /** Where every expression filed is plain, the filter given to the kernel for a type lets an event
      through exactly when some filter of the subscription evaluates true of it. */
  lemma {:induction false} ProcessFilterMeansAny(g: Grouping, events: seq<ProcessFilter>, t: ProcessEventType,
                                                 order: seq<Text>, types: FieldTypeMap, values: FieldValueMap)
    requires IsFiltered(t) && order != []
    requires IsListing(order, FiltersOf(FileProcesses(events), t))
    requires AllPlain(g, ProcessExprs(events, t), types, values)
    ensures var f := Read(g, JoinParts(order));
            f.Some? && (Holds(f.value, values) <==> SomeWants(events, t, types, values))
  {
    forall s
      ensures s in order <==> SomePrintsAs(ProcessExprs(events, t), s)
    {
      FiledProcesses(events, t, s);
    }
    ListingMeansAny(g, ProcessExprs(events, t), order, types, values);
    ProcessExprsMean(events, t, types, values);
  }

  // --- Syscall events ---

  datatype SyscallTables = SyscallTables(enter: set<Text>, exit: set<Text>)

  /** Registrable, and bounded by id as far as the analysis can tell. */
  predicate IsTaken(expr: Option<Expression>) {
    expr.Some? && Registrable(expr) && IsTakenNode(expr.value)
  }

  predicate IsTakenNode(node: Expression) {
    KernelValid(node) && ContainsIDFilter(node)
  }

  predicate AnalysisPanics(f: SyscallFilter) {
    AnalyseID(RewriteSyscall(f).expr).None?
  }

  /** Analysing first and then checking takes the same expressions as the other way round, exactly
      when the analysis does not panic. */
  lemma TakenInOrder(expr: Option<Expression>)
    ensures AnalyseID(expr).Some? ==>
              (IsTaken(expr) <==> expr.Some? && AnalyseID(expr).value && Registrable(expr))
    ensures IsTaken(expr) ==> AnalyseID(expr).Some?
  {
    if expr.Some? && Registrable(expr) {
      ShapedIsAnalysed(expr.value);
    }
  }

  /** A bare AND makes the analysis panic, where the check would have refused it. A filter that gave
      an id never does, nor one whose expression passes the check. */
  lemma AnalysisPanicsOnBareAnd(t: SyscallEventType)
    ensures var f := SyscallFilter(t, None, None, Some(Expression(LOGICAL_AND, NoExpr)));
            AnalysisPanics(f) && FileSyscalls([f]) == SyscallTables({}, {})
  {
    var f := SyscallFilter(t, None, None, Some(Expression(LOGICAL_AND, NoExpr)));
    assert [f][..0] == [];
    assert !Accepted(f.expr.value);
  }

  lemma NoPanic(f: SyscallFilter)
    requires f.id.Some? || Registrable(f.expr)
    ensures !AnalysisPanics(f)
  {
    if f.id.Some? {
      RewrittenIsAnalysed(f);
    } else {
      RewriteSyscallIsRegistrable(f);
      if RewriteSyscall(f).expr.Some? {
        ShapedIsAnalysed(RewriteSyscall(f).expr.value);
      }
    }
  }

  function FileSyscall(p: SyscallTables, f: SyscallFilter): SyscallTables {
    var expr := RewriteSyscall(f).expr;
    if !IsTaken(expr) then p
    else
      match f.typ
      case SYSCALL_ENTER => p.(enter := p.enter + {Print(expr.value)})
      case SYSCALL_EXIT => p.(exit := p.exit + {Print(expr.value)})
      case SYSCALL_OTHER(_) => p
  }

  function FileSyscalls(events: seq<SyscallFilter>): SyscallTables {
    if events == [] then SyscallTables({}, {})
    else FileSyscall(FileSyscalls(events[..|events| - 1]), events[|events| - 1])
  }

  /** The loop over the filters, each rewritten first, in the order of the original: the analysis
      comes before any check, and panics on some malformed trees. The loop panics exactly when the
      analysis does on some filter, and otherwise files what it should. */
  method CollectSyscallFilters(events: seq<SyscallFilter>) returns (p: SyscallTables, panicked: bool)
    ensures panicked <==> exists i :: 0 <= i < |events| && AnalysisPanics(events[i])
    ensures !panicked ==> p == FileSyscalls(events)
  {
    var enterFilters: set<Text>, exitFilters: set<Text> := {}, {};
    for i := 0 to |events|
      invariant forall j :: 0 <= j < i ==> !AnalysisPanics(events[j])
      invariant SyscallTables(enterFilters, exitFilters) == FileSyscalls(events[..i])
    {
      assert events[..i + 1][..i] == events[..i];
      var sef := RewriteSyscall(events[i]);
      var contains := AnalyseID(sef.expr);
      if contains.None? {
        return SyscallTables(enterFilters, exitFilters), true;
      }
      TakenInOrder(sef.expr);
      if !contains.value {
        continue;
      }
      if !Registrable(sef.expr) {
        continue;
      }
      var s := Print(sef.expr.value);
      match sef.typ {
        case SYSCALL_ENTER =>
          enterFilters := enterFilters + {s};
        case SYSCALL_EXIT =>
          exitFilters := exitFilters + {s};
        case SYSCALL_OTHER(_) =>
      }
    }
    assert events[..|events|] == events;
    p, panicked := SyscallTables(enterFilters, exitFilters), false;
  }

  function SyscallsOf(p: SyscallTables, t: SyscallEventType): set<Text> {
    match t
    case SYSCALL_ENTER => p.enter
    case SYSCALL_EXIT => p.exit
    case SYSCALL_OTHER(_) => {}
  }

  function SyscallExprs(events: seq<SyscallFilter>, t: SyscallEventType): (nodes: seq<Expression>)
    ensures forall i :: 0 <= i < |nodes| ==> IsTakenNode(nodes[i])
  {
    if events == [] then [] else
    var n := |events| - 1;
    var expr := RewriteSyscall(events[n]).expr;
    SyscallExprs(events[..n], t) + if events[n].typ == t && IsTaken(expr) then [expr.value] else []
  }

  lemma {:induction false} FiledSyscalls(events: seq<SyscallFilter>, t: SyscallEventType, s: Text)
    requires !t.SYSCALL_OTHER?
    ensures s in SyscallsOf(FileSyscalls(events), t) <==> SomePrintsAs(SyscallExprs(events, t), s)
    decreases |events|
  {
    if events != [] {
      var n := |events| - 1;
      var expr := RewriteSyscall(events[n]).expr;
      FiledSyscalls(events[..n], t, s);
      if events[n].typ == t && IsTaken(expr) {
        SomePrintsAsAppend(SyscallExprs(events[..n], t), expr.value, s);
      } else {
        assert SyscallExprs(events, t) == SyscallExprs(events[..n], t);
      }
    }
  }

  /** The filter that the kernel is given for a type lets an event through exactly when what is
      read of some filter of the subscription does. */
  lemma {:induction false} SyscallFilterIsAny(g: Grouping, events: seq<SyscallFilter>, t: SyscallEventType,
                                              order: seq<Text>, values: FieldValueMap)
    requires !t.SYSCALL_OTHER? && order != []
    requires IsListing(order, SyscallsOf(FileSyscalls(events), t))
    ensures var f := Read(g, JoinParts(order));
            f.Some? && (Holds(f.value, values) <==> SomeLets(g, SyscallExprs(events, t), values))
  {
    var nodes := SyscallExprs(events, t);
    assert forall i :: 0 <= i < |nodes| ==> IsTakenNode(nodes[i]) && KernelValid(nodes[i]);
    forall s
      ensures s in order <==> SomePrintsAs(nodes, s)
    {
      FiledSyscalls(events, t, s);
    }
    ListingIsAny(g, nodes, order, values);
  }

  /** A well-formed filter that names an id, or whose expression passes the analysis. */
  predicate IsBounded(f: SyscallFilter) {
    && Registrable(f.expr)
    && (f.id.Some? || (f.expr.Some? && ContainsIDFilter(f.expr.value)))
  }

  /** The rewritten filters that are taken are those that are well-formed and bounded as given. */
  lemma TakenExactly(f: SyscallFilter)
    ensures IsTaken(RewriteSyscall(f).expr) <==> IsBounded(f)
  {
    RewriteSyscallIsRegistrable(f);
    if Registrable(f.expr) {
      RewriteSyscallKeepsMeaning(f, map[], map[]);
      if f.id.None? && f.typ.SYSCALL_EXIT? && f.ret.Some? {
        KnownIdentifiers();
        FieldEqualsMeans("ret", Int64(f.ret.value), map[], map[]);
        ConjoinMeans(FieldEquals("ret", Int64(f.ret.value)), f.expr, map[], map[]);
      }
    }
  }

  /** A bounded filter for this type that the event matches as the kernel has it: its deprecated
      fields that apply, and what is read of its expression if it has one. */
  ghost predicate SyscallWants(g: Grouping, f: SyscallFilter, t: SyscallEventType, values: FieldValueMap) {
    && f.typ == t && IsBounded(f)
    && SyscallFieldsMatch(f, values) && (f.expr.Some? ==> Lets(g, f.expr.value, values))
  }

  ghost predicate SomeSyscallWants(g: Grouping, events: seq<SyscallFilter>, t: SyscallEventType,
                                   values: FieldValueMap)
  {
    exists i :: 0 <= i < |events| && SyscallWants(g, events[i], t, values)
  }

  lemma TakenMeansWanted(g: Grouping, f: SyscallFilter, t: SyscallEventType, values: FieldValueMap)
    ensures var expr := RewriteSyscall(f).expr;
            SyscallWants(g, f, t, values) <==> f.typ == t && IsTaken(expr) && Lets(g, expr.value, values)
  {
    TakenExactly(f);
    if IsBounded(f) {
      RewriteSyscallReads(g, f, values);
    }
  }

  lemma LastSyscallWants(g: Grouping, events: seq<SyscallFilter>, t: SyscallEventType, values: FieldValueMap)
    requires events != []
    ensures var n := |events| - 1;
            SomeSyscallWants(g, events, t, values)
            <==> SomeSyscallWants(g, events[..n], t, values) || SyscallWants(g, events[n], t, values)
  {
    var n := |events| - 1;
    assert forall i :: 0 <= i < n ==> events[..n][i] == events[i];
  }

  lemma {:induction false} SyscallExprsRead(g: Grouping, events: seq<SyscallFilter>, t: SyscallEventType,
                                            values: FieldValueMap)
    ensures SomeLets(g, SyscallExprs(events, t), values) <==> SomeSyscallWants(g, events, t, values)
    decreases |events|
  {
    if events != [] {
      var n := |events| - 1;
      var before, expr := SyscallExprs(events[..n], t), RewriteSyscall(events[n]).expr;
      SyscallExprsRead(g, events[..n], t, values);
      LastSyscallWants(g, events, t, values);
      TakenMeansWanted(g, events[n], t, values);
      if events[n].typ == t && IsTaken(expr) {
        SomeLetsAppend(g, before, expr.value, values);
      } else {
        assert SyscallExprs(events, t) == before;
      }
    }
  }

  /** From a subscription to the kernel: for any list of syscall filters, the filter given to the
      kernel for a type lets an event through exactly when some filter of the subscription, as it
      was before rewriting, is well-formed and bounded and wants it. */
  lemma SyscallFilterIsWanted(g: Grouping, events: seq<SyscallFilter>, t: SyscallEventType,
                              order: seq<Text>, values: FieldValueMap)
    requires !t.SYSCALL_OTHER? && order != []
    requires IsListing(order, SyscallsOf(FileSyscalls(events), t))
    ensures var f := Read(g, JoinParts(order));
            f.Some? && (Holds(f.value, values) <==> SomeSyscallWants(g, events, t, values))
  {
    SyscallFilterIsAny(g, events, t, order, values);
    SyscallExprsRead(g, events, t, values);
  }

  ghost predicate AllBounded(nodes: seq<Expression>) {
    forall i :: 0 <= i < |nodes| ==> IsTakenNode(nodes[i]) && TighterBounds(nodes[i])
  }

  /** The id is one that the filter names. */
  ghost predicate NamesID(node: Expression, values: FieldValueMap) {
    && KernelValid(node) && BoundsID(ReadingOf(AndTighter, node))
    && IDIsOneOf(IDLiterals(ReadingOf(AndTighter, node)), values)
  }

  ghost predicate SomeNamesID(nodes: seq<Expression>, values: FieldValueMap) {
    exists i :: 0 <= i < |nodes| && NamesID(nodes[i], values)
  }

  /** Some filter has a segment without an id, and everything but its ids holds. */
  ghost predicate SomeUnboundedHolds(nodes: seq<Expression>, values: FieldValueMap) {
    exists i :: 0 <= i < |nodes| && IsTakenNode(nodes[i]) && !TighterBounds(nodes[i])
             && OthersHold(ReadingOf(AndTighter, nodes[i]), values)
  }

  /** What was meant by taking no wildcards, for the filter that the kernel reads: if each filter
      filed is bounded segment by segment, every event let through has an id that one of them
      names; but one that is not lets through whatever its other parts hold of, whatever the id. */
  lemma {:induction false} SyscallFilterBoundsID(events: seq<SyscallFilter>, t: SyscallEventType, order: seq<Text>,
                                                 values: FieldValueMap)
    requires !t.SYSCALL_OTHER? && order != []
    requires IsListing(order, SyscallsOf(FileSyscalls(events), t))
    ensures var nodes, f := SyscallExprs(events, t), Read(AndTighter, JoinParts(order));
            && f.Some?
            && (AllBounded(nodes) && Holds(f.value, values) ==> SomeNamesID(nodes, values))
            && (SomeUnboundedHolds(nodes, values) ==> Holds(f.value, values))
  {
    var nodes := SyscallExprs(events, t);
    SyscallFilterIsAny(AndTighter, events, t, order, values);
    if AllBounded(nodes) && SomeLets(AndTighter, nodes, values) {
      var i :| 0 <= i < |nodes| && Lets(AndTighter, nodes[i], values);
      SegmentsExactly(nodes[i]);
      BoundedExactly(ReadingOf(AndTighter, nodes[i]), values);
      assert NamesID(nodes[i], values);
    }
    if SomeUnboundedHolds(nodes, values) {
      var i :| 0 <= i < |nodes| && IsTakenNode(nodes[i]) && !TighterBounds(nodes[i])
            && OthersHold(ReadingOf(AndTighter, nodes[i]), values);
      SegmentsExactly(nodes[i]);
      BoundedExactly(ReadingOf(AndTighter, nodes[i]), values);
      assert Lets(AndTighter, nodes[i], values);
    }
  }
}
