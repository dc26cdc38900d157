/** pkg/sensor/network.go and pkg/sensor/process.go: collecting printed filters and joining
    them into the one filter that is given to the kernel. */
module FilterSet {
  import opened Wrappers
  import opened Api
  import opened Validate
  import opened Evaluate
  import opened KernelFilter
  import opened FilterMeaning
  import opened Sequences

  type Text = seq<Token>

  datatype NetworkEventType =
    | ACCEPT_ATTEMPT | ACCEPT_RESULT | BIND_ATTEMPT | BIND_RESULT
    | CONNECT_ATTEMPT | CONNECT_RESULT | LISTEN_ATTEMPT | LISTEN_RESULT
    | RECVFROM_ATTEMPT | RECVFROM_RESULT | SENDTO_ATTEMPT | SENDTO_RESULT
    | NETWORK_OTHER(code: int)

  datatype Request = Request(typ: NetworkEventType, expr: Option<Expression>)

  /** One counting table per event type; a type without a table has a nil map. */
  type Tables = map<NetworkEventType, map<Text, nat>>

  /** What a request is filed under: nothing if its expression is malformed, the empty string
      if it has none. */
  function FilterString(expr: Option<Expression>): Option<Text> {
    match expr
    case None => Some([])
    case Some(node) =>
      if Accepted(node) then
        ValidatedIsShaped(node, true);
        Some(Print(node))
      else None
  }

  function TableOf(tables: Tables, t: NetworkEventType): map<Text, nat> {
    if t in tables then tables[t] else map[]
  }

  function CountOf(table: map<Text, nat>, s: Text): nat {
    if s in table then table[s] else 0
  }

  function AddRequest(tables: Tables, req: Request): Tables {
    match FilterString(req.expr)
    case None => tables
    case Some(s) =>
      if req.typ.NETWORK_OTHER? then tables
      else
        var table := TableOf(tables, req.typ);
        tables[req.typ := table[s := CountOf(table, s) + 1]]
  }

  class NetworkFilterSet {
    var filters: Tables

    constructor ()
      ensures filters == map[]
    {
      filters := map[];
    }

    method Add(req: Request)
      modifies this
      ensures filters == AddRequest(old(filters), req)
    {
      var filterString: Text := [];
      if req.expr.Some? {
        if !Accepted(req.expr.value) {
          return;
        }
        ValidatedIsShaped(req.expr.value, true);
        filterString := Print(req.expr.value);
      }
      if req.typ.NETWORK_OTHER? {
        return;
      }
      if req.typ !in filters {
        filters := filters[req.typ := map[]];
      }
      var table := filters[req.typ];
      filters := filters[req.typ := table[filterString := CountOf(table, filterString) + 1]];
      assert filters == AddRequest(old(filters), req);
    }
  }

  // --- Joining ---

  function Parens(s: Text): Text {
    [TOpen] + s + [TClose]
  }

  /** strings.Join(parts, " || ") where each part is a filter in parentheses. */
  function JoinParts(order: seq<Text>): Text {
    if |order| == 0 then []
    else if |order| == 1 then Parens(order[0])
    else JoinParts(order[..|order| - 1]) + [TOp(LOGICAL_OR)] + Parens(order[|order| - 1])
  }

  ghost predicate IsListing(order: seq<Text>, s: set<Text>) {
    && (forall i, j :: 0 <= i < j < |order| ==> order[i] != order[j])
    && (forall x :: x in order <==> x in s)
  }

  ghost function Active(table: map<Text, nat>): set<Text> {
    set s | s in table && table[s] > 0
  }

  /** fullFilterString, for whichever order the map is ranged over: inactive when nothing is
      counted, the empty wildcard when the empty string is, and otherwise every counted
      string once, in some order, in parentheses and joined by ||. */
  method FullFilterString(filters: Option<map<Text, nat>>) returns (s: Text, active: bool, ghost order: seq<Text>)
    ensures filters.None? ==> !active && s == []
    ensures filters.Some? ==> (active <==> Active(filters.value) != {})
    ensures filters.Some? && [] in Active(filters.value) ==> active && s == []
    ensures filters.Some? && [] !in Active(filters.value) ==>
              IsListing(order, Active(filters.value)) && s == JoinParts(order)
  {
    order := [];
    if filters.None? {
      return [], false, order;
    }
    var table := filters.value;
    var parts: seq<Text> := [];
    var left := table.Keys;
    while left != {}
      invariant left <= table.Keys
      invariant IsListing(parts, Active(table) - left)
      invariant [] !in Active(table) - left
      decreases left
    {
      var f :| f in left;
      left := left - {f};
      if table[f] <= 0 {
        continue;
      }
      if f == [] {
        assert f in Active(table);
        return [], true, order;
      }
      parts := parts + [f];
    }
    order := parts;
    assert Active(table) - left == Active(table);
    if |parts| > 0 {
      assert parts[0] in parts;
      return JoinParts(parts), true, order;
    }
    assert Active(table) == {} by {
      assert forall s :: s in Active(table) ==> s in parts;
    }
    return [], false, order;
  }

  /** processFilterString over a set of filters; the caller has checked that there is one. */
  method ProcessFilterString(wildcard: bool, filters: set<Text>) returns (s: Text, ghost order: seq<Text>)
    ensures wildcard ==> s == []
    ensures !wildcard ==> IsListing(order, filters) && s == JoinParts(order)
  {
    order := [];
    if wildcard {
      return [], order;
    }
    var parts: seq<Text> := [];
    var left := filters;
    while left != {}
      invariant left <= filters
      invariant IsListing(parts, filters - left)
      decreases left
    {
      var f :| f in left;
      left := left - {f};
      parts := parts + [f];
    }
    return JoinParts(parts), parts;
  }

  // --- Reading a joined filter ---

  /** In parentheses, and whatever follows, this text is read as that filter. */
  ghost predicate PartReads(g: Grouping, s: Text, f: Filter) {
    forall rest: Text :: ReadTerm(g, Parens(s) + rest) == Some((f, rest))
  }

  ghost predicate PartsRead(g: Grouping, order: seq<Text>, parts: seq<Filter>) {
    |parts| == |order| && forall k :: 0 <= k < |order| ==> PartReads(g, order[k], parts[k])
  }

  function JoinedChain(g: Grouping, parts: seq<Filter>): Chain
    requires parts != []
  {
    var n := |parts| - 1;
    if n == 0 then Chain(None, parts[0]) else JoinedChain(g, parts[..n]).Extend(g, LOGICAL_OR, parts[n])
  }

  lemma ReadsNextPart(g: Grouping, chain: Chain, s: Text, f: Filter, rest: Text)
    requires PartReads(g, s, f)
    ensures ReadChain(g, chain, [TOp(LOGICAL_OR)] + (Parens(s) + rest))
         == ReadChain(g, chain.Extend(g, LOGICAL_OR, f), rest)
  {
    assert ([TOp(LOGICAL_OR)] + (Parens(s) + rest))[1..] == Parens(s) + rest;
  }

  lemma JoinOneMore(order: seq<Text>, rest: Text)
    requires |order| > 1
    ensures JoinParts(order) + rest
         == JoinParts(order[..|order| - 1]) + ([TOp(LOGICAL_OR)] + (Parens(order[|order| - 1]) + rest))
  {
    var init, last := JoinParts(order[..|order| - 1]), Parens(order[|order| - 1]);
    assert JoinParts(order) == init + [TOp(LOGICAL_OR)] + last;
    assert init + [TOp(LOGICAL_OR)] + last + rest == init + ([TOp(LOGICAL_OR)] + (last + rest));
  }

  /** The parts of a joined filter are read as one chain. */
  lemma {:induction false} ReadsJoined(g: Grouping, order: seq<Text>, parts: seq<Filter>, rest: Text)
    requires PartsRead(g, order, parts) && order != []
    ensures ReadFilter(g, JoinParts(order) + rest) == ReadChain(g, JoinedChain(g, parts), rest)
    decreases |order|
  {
    var n := |order| - 1;
    if n > 0 {
      var next := [TOp(LOGICAL_OR)] + (Parens(order[n]) + rest);
      JoinOneMore(order, rest);
      ReadsJoined(g, order[..n], parts[..n], next);
      ReadsNextPart(g, JoinedChain(g, parts[..n]), order[n], parts[n], rest);
    }
  }

  /** A joined filter means the disjunction of its parts. */
  lemma {:induction false} JoinedHolds(g: Grouping, parts: seq<Filter>, values: FieldValueMap)
    requires parts != []
    ensures Holds(JoinedChain(g, parts).Close(), values) <==> exists k :: 0 <= k < |parts| && Holds(parts[k], values)
    decreases |parts|
  {
    var n := |parts| - 1;
    if n > 0 {
      var init := parts[..n];
      JoinedHolds(g, init, values);
      assert JoinedChain(g, parts).Close() == Or(JoinedChain(g, init).Close(), parts[n]);
      assert forall k :: 0 <= k < n ==> init[k] == parts[k];
    }
  }

  /** Does this way of grouping read the tree's print as the tree? One level always does. */
  predicate ReadFaithfully(g: Grouping, node: Expression)
    requires Shaped(node)
  {
    g.OneLevel? || NoOrLeftOfAnd(node)
  }

  /** A kernel-valid expression that is read faithfully and evaluates without error. */
  ghost predicate IsPlain(g: Grouping, node: Expression, types: FieldTypeMap, values: FieldValueMap) {
    KernelValid(node) && ReadFaithfully(g, node) && Eval(node, types, values).Success?
  }

  ghost predicate AllPlain(g: Grouping, nodes: seq<Expression>, types: FieldTypeMap, values: FieldValueMap) {
    forall i :: 0 <= i < |nodes| ==> IsPlain(g, nodes[i], types, values)
  }

  ghost predicate AnyTrue(nodes: seq<Expression>, types: FieldTypeMap, values: FieldValueMap) {
    exists i :: 0 <= i < |nodes| && IsTrue(nodes[i], types, values)
  }

  predicate IsTrue(node: Expression, types: FieldTypeMap, values: FieldValueMap) {
    Shaped(node) && EvaluatesTrue(node, types, values)
  }

  /** Any kernel-valid expression's print can be read. */
  lemma PrintIsReadable(g: Grouping, node: Expression)
    requires KernelValid(node)
    ensures Read(g, Print(node)) == Some(ChainOf(g, node).Close())
    ensures PartReads(g, Print(node), ChainOf(g, node).Close())
  {
    ReadsBack(g, node);
    forall rest: Text
      ensures ReadTerm(g, Parens(Print(node)) + rest) == Some((ChainOf(g, node).Close(), rest))
    {
      ReadsPart(g, node, rest);
    }
  }

  lemma FaithfulChain(g: Grouping, node: Expression)
    requires KernelValid(node) && ReadFaithfully(g, node)
    ensures ChainOf(g, node).Close() == Collapse(node)
  {
    if g.OneLevel? {
      OneLevelChain(node);
    } else {
      AndTighterChain(node);
    }
  }

  lemma ReadsPart(g: Grouping, node: Expression, rest: Text)
    requires KernelValid(node)
    ensures ReadTerm(g, Parens(Print(node)) + rest) == Some((ChainOf(g, node).Close(), rest))
  {
    var after := [TClose] + rest;
    ReadsChain(g, node, after);
    assert ReadChain(g, ChainOf(g, node), after) == Some((ChainOf(g, node).Close(), after));
    ReadsParentheses(g, Print(node), ChainOf(g, node).Close(), rest);
  }

  predicate PrintsAs(node: Expression, s: Text) {
    Shaped(node) && Print(node) == s
  }

  ghost predicate SomePrintsAs(nodes: seq<Expression>, s: Text) {
    exists i :: 0 <= i < |nodes| && PrintsAs(nodes[i], s)
  }

  /** A text that can be read, by itself or in parentheses, as one filter. */
  ghost predicate IsReadable(g: Grouping, s: Text) {
    Read(g, s).Some? && PartReads(g, s, Read(g, s).value)
  }

  ghost predicate LetsThrough(g: Grouping, s: Text, values: FieldValueMap) {
    Read(g, s).Some? && Holds(Read(g, s).value, values)
  }

  function ReadAll(g: Grouping, order: seq<Text>): (parts: seq<Filter>)
    requires forall k :: 0 <= k < |order| ==> Read(g, order[k]).Some?
    ensures |parts| == |order| && forall k :: 0 <= k < |order| ==> parts[k] == Read(g, order[k]).value
  {
    seq(|order|, k requires 0 <= k < |order| && Read(g, order[k]).Some? => Read(g, order[k]).value)
  }

  /** Joined texts are read as the disjunction of what each is read as. */
  lemma JoinedIsAny(g: Grouping, order: seq<Text>, values: FieldValueMap)
    requires order != [] && forall k :: 0 <= k < |order| ==> IsReadable(g, order[k])
    ensures var f := Read(g, JoinParts(order));
            f.Some? && (Holds(f.value, values) <==> exists k :: 0 <= k < |order| && LetsThrough(g, order[k], values))
  {
    assert forall k :: 0 <= k < |order| ==> IsReadable(g, order[k]) && Read(g, order[k]).Some?;
    var parts := ReadAll(g, order);
    ReadsJoined(g, order, parts, []);
    assert JoinParts(order) + [] == JoinParts(order);
    JoinedHolds(g, parts, values);
    assert forall k :: 0 <= k < |order| ==> (LetsThrough(g, order[k], values) <==> Holds(parts[k], values));
  }

  /** What is read of a kernel-valid expression's print. */
  function ReadingOf(g: Grouping, node: Expression): Filter
    requires KernelValid(node)
  {
    ChainOf(g, node).Close()
  }

  /** Does what is read of the expression let the event through? */
  ghost predicate Lets(g: Grouping, node: Expression, values: FieldValueMap) {
    KernelValid(node) && Holds(ReadingOf(g, node), values)
  }

  ghost predicate SomeLets(g: Grouping, nodes: seq<Expression>, values: FieldValueMap) {
    exists i :: 0 <= i < |nodes| && Lets(g, nodes[i], values)
  }

  ghost predicate AllKernelValid(nodes: seq<Expression>) {
    forall i :: 0 <= i < |nodes| ==> KernelValid(nodes[i])
  }

  /** Expressions that print alike, and so are filed together, are read alike. */
  lemma PrintedAlike(g: Grouping, a: Expression, b: Expression)
    requires KernelValid(a) && KernelValid(b) && Print(a) == Print(b)
    ensures ReadingOf(g, a) == ReadingOf(g, b)
  {
    PrintIsReadable(g, a);
    PrintIsReadable(g, b);
  }

  lemma TextLets(g: Grouping, node: Expression, values: FieldValueMap)
    requires KernelValid(node)
    ensures IsReadable(g, Print(node))
    ensures LetsThrough(g, Print(node), values) <==> Lets(g, node, values)
  {
    PrintIsReadable(g, node);
  }

  /** However many expressions print alike and are filed together, and in whatever order their
      prints are listed: the joined filter lets an event through exactly when what is read of some
      expression does. */
  lemma {:induction false} ListingIsAny(g: Grouping, nodes: seq<Expression>, order: seq<Text>, values: FieldValueMap)
    requires AllKernelValid(nodes) && order != []
    requires forall s :: s in order <==> SomePrintsAs(nodes, s)
    ensures var f := Read(g, JoinParts(order));
            f.Some? && (Holds(f.value, values) <==> SomeLets(g, nodes, values))
  {
    forall k | 0 <= k < |order|
      ensures IsReadable(g, order[k])
      ensures LetsThrough(g, order[k], values) ==> SomeLets(g, nodes, values)
    {
      assert order[k] in order;
      var i :| 0 <= i < |nodes| && PrintsAs(nodes[i], order[k]);
      assert KernelValid(nodes[i]);
      TextLets(g, nodes[i], values);
    }
    JoinedIsAny(g, order, values);
    if i :| 0 <= i < |nodes| && Lets(g, nodes[i], values) {
      TextLets(g, nodes[i], values);
      assert PrintsAs(nodes[i], Print(nodes[i])) && SomePrintsAs(nodes, Print(nodes[i]));
      var k :| 0 <= k < |order| && order[k] == Print(nodes[i]);
      assert LetsThrough(g, order[k], values);
    }
  }

  /** What is read of a plain expression lets an event through exactly when the expression evaluates
      true of it. */
  lemma PlainLets(g: Grouping, node: Expression, types: FieldTypeMap, values: FieldValueMap)
    requires IsPlain(g, node, types, values)
    ensures Lets(g, node, values) <==> IsTrue(node, types, values)
  {
    FaithfulChain(g, node);
    CollapseKeepsTruth(node, types, values);
  }

  /** So a joined filter of plain expressions lets an event through exactly when some expression
      evaluates true of it. */
  lemma {:induction false} ListingMeansAny(g: Grouping, nodes: seq<Expression>, order: seq<Text>,
                                           types: FieldTypeMap, values: FieldValueMap)
    requires AllPlain(g, nodes, types, values) && order != []
    requires forall s :: s in order <==> SomePrintsAs(nodes, s)
    ensures var f := Read(g, JoinParts(order));
            f.Some? && (Holds(f.value, values) <==> AnyTrue(nodes, types, values))
  {
    assert forall i :: 0 <= i < |nodes| ==> IsPlain(g, nodes[i], types, values) && KernelValid(nodes[i]);
    ListingIsAny(g, nodes, order, values);
    forall i | 0 <= i < |nodes|
      ensures Lets(g, nodes[i], values) <==> IsTrue(nodes[i], types, values)
    {
      PlainLets(g, nodes[i], types, values);
    }
  }

  // --- Whole histories of requests ---

  function TablesAfter(history: seq<Request>): Tables {
    if history == [] then map[] else AddRequest(TablesAfter(history[..|history| - 1]), history[|history| - 1])
  }

  predicate FilesUnder(req: Request, t: NetworkEventType, s: Text) {
    req.typ == t && FilterString(req.expr) == Some(s)
  }

  /** A string is counted in a type's table exactly when some request was filed under it. */
  lemma {:induction false} CountedMeansRequested(history: seq<Request>, t: NetworkEventType, s: Text)
    requires !t.NETWORK_OTHER?
    ensures s in Active(TableOf(TablesAfter(history), t))
       <==> exists i :: 0 <= i < |history| && FilesUnder(history[i], t, s)
    decreases |history|
  {
    if history != [] {
      var n := |history| - 1;
      var init, req := history[..n], history[n];
      CountedMeansRequested(init, t, s);
      assert forall i :: 0 <= i < n ==> init[i] == history[i];
      assert FilesUnder(req, t, s) <==> FilesUnder(history[n], t, s);
      var before, after := TablesAfter(init), TablesAfter(history);
      assert after == AddRequest(before, req);
      assert s in Active(TableOf(after, t)) <==> s in Active(TableOf(before, t)) || FilesUnder(req, t, s);
    }
  }

  /** A string's count is the number of requests filed under it. */
  lemma {:induction false} CountIsNumber(history: seq<Request>, t: NetworkEventType, s: Text)
    requires !t.NETWORK_OTHER?
    ensures CountOf(TableOf(TablesAfter(history), t), s) == |Places(history, (req: Request) => FilesUnder(req, t, s))|
    decreases |history|
  {
    var filed := (req: Request) => FilesUnder(req, t, s);
    if history == [] {
      assert Places(history, filed) == {};
    } else {
      var n := |history| - 1;
      CountIsNumber(history[..n], t, s);
      PlacesNext(history, filed);
      CountAfter(TablesAfter(history[..n]), history[n], t, s);
    }
  }

  lemma CountAfter(tables: Tables, req: Request, t: NetworkEventType, s: Text)
    requires !t.NETWORK_OTHER?
    ensures CountOf(TableOf(AddRequest(tables, req), t), s)
         == CountOf(TableOf(tables, t), s) + if FilesUnder(req, t, s) then 1 else 0
  {
  }

  /** After any history, a type's filter is the wildcard exactly when some request for it had
      no expression or had a well-formed null test for one, which prints as nothing. */
  lemma {:induction false} WildcardExactly(history: seq<Request>, t: NetworkEventType)
    requires !t.NETWORK_OTHER?
    ensures [] in Active(TableOf(TablesAfter(history), t))
       <==> exists i :: 0 <= i < |history| && history[i].typ == t &&
              (history[i].expr.None? || (Accepted(history[i].expr.value) && IsNullTest(history[i].expr.value.typ)))
  {
    CountedMeansRequested(history, t, []);
    forall i | 0 <= i < |history| && history[i].typ == t
      ensures FilesUnder(history[i], t, []) <==>
                history[i].expr.None? || (Accepted(history[i].expr.value) && IsNullTest(history[i].expr.value.typ))
    {
      if history[i].expr.Some? && Accepted(history[i].expr.value) {
        ValidatedIsShaped(history[i].expr.value, true);
        PrintsNothing(history[i].expr.value);
      }
    }
  }

  /** The well-formed expressions among the requests for one type. */
  function Requested(history: seq<Request>, t: NetworkEventType): seq<Expression> {
    if history == [] then [] else
    var n := |history| - 1;
    Requested(history[..n], t) +
    if IsRequested(history[n], t) then [history[n].expr.value] else []
  }

  predicate IsRequested(req: Request, t: NetworkEventType) {
    req.typ == t && req.expr.Some? && Accepted(req.expr.value)
  }

  /** Apart from the empty string, the strings filed are the prints of those expressions. */
  lemma {:induction false} FiledMeansPrinted(history: seq<Request>, t: NetworkEventType, s: Text)
    ensures SomePrintsAs(Requested(history, t), s) ==> exists i :: 0 <= i < |history| && FilesUnder(history[i], t, s)
    ensures s != [] && (exists i :: 0 <= i < |history| && FilesUnder(history[i], t, s)) ==>
              SomePrintsAs(Requested(history, t), s)
    decreases |history|
  {
    if history != [] {
      var n := |history| - 1;
      var init, req := history[..n], history[n];
      assert forall i :: 0 <= i < n ==> init[i] == history[i];
      FiledMeansPrinted(init, t, s);
      var before, after := Requested(init, t), Requested(history, t);
      assert forall i :: 0 <= i < |before| ==> after[i] == before[i];
      assert SomePrintsAs(before, s) ==> SomePrintsAs(after, s);
      if IsRequested(req, t) {
        ValidatedIsShaped(req.expr.value, true);
        assert after[|before|] == req.expr.value;
        assert FilesUnder(history[n], t, s) <==> PrintsAs(after[|before|], s);
      } else {
        assert after == before;
      }
    }
  }

  /** A request for this type whose print, as it is read, lets the event through. */
  ghost predicate RequestLets(g: Grouping, req: Request, t: NetworkEventType, values: FieldValueMap) {
    IsRequested(req, t) && LetsThrough(g, PrintOf(req), values)
  }

  function PrintOf(req: Request): Text
    requires req.expr.Some? && Accepted(req.expr.value)
  {
    ValidatedIsShaped(req.expr.value, true);
    Print(req.expr.value)
  }

  /** No request for this type asks for all, and what each prints can be read, as it can if it is
      kernel-valid, though nothing checks that. */
  ghost predicate AllReadable(g: Grouping, history: seq<Request>, t: NetworkEventType) {
    forall i :: 0 <= i < |history| && history[i].typ == t ==>
      history[i].expr.Some? && (Accepted(history[i].expr.value) ==> IsReadable(g, PrintOf(history[i])))
  }

  ghost predicate SomeRequestLets(g: Grouping, history: seq<Request>, t: NetworkEventType, values: FieldValueMap) {
    exists i :: 0 <= i < |history| && RequestLets(g, history[i], t, values)
  }

  lemma {:induction false} ActiveTextLets(g: Grouping, history: seq<Request>, t: NetworkEventType, s: Text,
                                          values: FieldValueMap)
    requires !t.NETWORK_OTHER? && AllReadable(g, history, t)
    requires s in Active(TableOf(TablesAfter(history), t))
    ensures IsReadable(g, s)
    ensures LetsThrough(g, s, values) ==> SomeRequestLets(g, history, t, values)
  {
    CountedMeansRequested(history, t, s);
    var i :| 0 <= i < |history| && FilesUnder(history[i], t, s);
    assert IsRequested(history[i], t) && PrintOf(history[i]) == s;
  }

  lemma {:induction false} RequestIsActive(g: Grouping, history: seq<Request>, t: NetworkEventType, i: nat)
    requires !t.NETWORK_OTHER? && i < |history| && IsRequested(history[i], t)
    ensures PrintOf(history[i]) in Active(TableOf(TablesAfter(history), t))
  {
    assert FilesUnder(history[i], t, PrintOf(history[i]));
    CountedMeansRequested(history, t, PrintOf(history[i]));
  }

  /** The filter handed to the kernel for a type, after any history of requests, malformed ones
      included, and in whatever order its map is ranged over: an event gets through exactly when
      what is read of some request's print lets it. No types and no evaluation are involved. */
  lemma {:induction false} FullFilterIsAnyRequest(g: Grouping, history: seq<Request>, t: NetworkEventType,
                                                  order: seq<Text>, values: FieldValueMap)
    requires !t.NETWORK_OTHER? && order != []
    requires IsListing(order, Active(TableOf(TablesAfter(history), t)))
    requires AllReadable(g, history, t)
    ensures var f := Read(g, JoinParts(order));
            f.Some? && (Holds(f.value, values) <==> SomeRequestLets(g, history, t, values))
  {
    forall k | 0 <= k < |order|
      ensures IsReadable(g, order[k])
      ensures LetsThrough(g, order[k], values) ==> SomeRequestLets(g, history, t, values)
    {
      assert order[k] in order;
      ActiveTextLets(g, history, t, order[k], values);
    }
    JoinedIsAny(g, order, values);
    if i :| 0 <= i < |history| && RequestLets(g, history[i], t, values) {
      RequestIsActive(g, history, t, i);
      var k :| 0 <= k < |order| && order[k] == PrintOf(history[i]);
      assert LetsThrough(g, order[k], values);
    }
  }

  /** Kernel-valid requests are readable. */
  lemma KernelValidIsReadable(g: Grouping, history: seq<Request>, t: NetworkEventType)
    requires forall i :: 0 <= i < |history| && history[i].typ == t ==>
               history[i].expr.Some? && (Accepted(history[i].expr.value) ==> KernelValid(history[i].expr.value))
    ensures AllReadable(g, history, t)
  {
    forall i | 0 <= i < |history| && history[i].typ == t && Accepted(history[i].expr.value)
      ensures IsReadable(g, PrintOf(history[i]))
    {
      PrintIsReadable(g, history[i].expr.value);
    }
  }

  /** The filter handed to the kernel for a type when it is neither inactive nor the wildcard,
      after any history of requests, malformed ones included, and in whatever order its map is
      ranged over: an event gets through exactly when some request's expression is true of it. */
  lemma {:induction false} FullFilterMeansAnyRequest(g: Grouping, history: seq<Request>, t: NetworkEventType,
                                                     order: seq<Text>, types: FieldTypeMap, values: FieldValueMap)
    requires !t.NETWORK_OTHER? && order != []
    requires IsListing(order, Active(TableOf(TablesAfter(history), t)))
    requires [] !in order && AllPlain(g, Requested(history, t), types, values)
    ensures var f := Read(g, JoinParts(order));
            f.Some? && (Holds(f.value, values) <==> AnyTrue(Requested(history, t), types, values))
  {
    forall s
      ensures s in order <==> SomePrintsAs(Requested(history, t), s)
    {
      CountedMeansRequested(history, t, s);
      FiledMeansPrinted(history, t, s);
    }
    ListingMeansAny(g, Requested(history, t), order, types, values);
  }
}
