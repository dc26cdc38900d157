/** Join of pkg/stream/stream.go: the joiner for a fixed list of inputs, with a loop that counts
    the inputs still open. */
module Join {
  import opened Joiner
  import opened Sequences

  datatype JoinEvent =
    | ControlMessage
    | ControlClose
    | Input(i: nat)
    | InputClose(i: nat)

  datatype JoinState<T> = JoinState(
    ctrlCase: bool,                  // cases[0].Chan is not nil
    inputCases: seq<bool>,           // cases[1 + i].Chan is not nil
    activeInputs: int,
    output: seq<Item<T>>,
    taken: map<nat, nat>,            // how much was received from each data channel
    closed: set<nat>,                // control channels that are closed
    panicked: bool,
    messaged: bool)                  // a message was ever received on the control channel

  function Start<T>(n: nat, foreign: set<nat>): JoinState<T> {
    JoinState(true, seq(n, _ => true), n, [], map[], foreign, false, false)
  }

  /** The loop goes on while it counts an active input; a case whose channel is nil is never
      ready. */
  ghost predicate Ready<T>(ins: seq<Stream>, source: Sources<T>, s: JoinState<T>, ev: JoinEvent)
    requires |s.inputCases| == |ins|
  {
    s.activeInputs > 0 && !s.panicked &&
    match ev
    case ControlMessage => s.ctrlCase
    case ControlClose => s.ctrlCase
    case Input(i) =>
      i < |ins| && s.inputCases[i] && Taken(s.taken, ins[i].data) < |SourceOf(source, ins[i].data)|
    case InputClose(i) =>
      i < |ins| && s.inputCases[i] && Taken(s.taken, ins[i].data) == |SourceOf(source, ins[i].data)|
  }

  ghost function Turn<T>(ins: seq<Stream>, source: Sources<T>, s: JoinState<T>, ev: JoinEvent): JoinState<T>
    requires |s.inputCases| == |ins| && Ready(ins, source, s, ev)
  {
    match ev
    case Input(i) =>
      var c := ins[i].data;
      var k := Taken(s.taken, c);
      s.(output := s.output + [Item(c, SourceOf(source, c)[k])], taken := s.taken[c := k + 1])
    case ControlClose =>
      var (closed, panic) := CloseEach(ins, s.closed);
      s.(closed := closed, panicked := panic, ctrlCase := panic)
    // Everything else is taken for the close of an input.
    case ControlMessage => s.(ctrlCase := false, activeInputs := s.activeInputs - 1, messaged := true)
    case InputClose(i) => s.(inputCases := s.inputCases[i := false], activeInputs := s.activeInputs - 1)
  }

  function CountOpen(cases: seq<bool>): nat {
    if cases == [] then 0 else (if cases[0] then 1 else 0) + CountOpen(cases[1..])
  }

  lemma {:induction false} CountAfterClose(cases: seq<bool>, i: nat)
    requires i < |cases| && cases[i]
    ensures CountOpen(cases[i := false]) == CountOpen(cases) - 1
  {
    if i > 0 {
      CountAfterClose(cases[1..], i - 1);
      assert cases[i := false][1..] == cases[1..][i - 1 := false];
    } else {
      assert cases[i := false][1..] == cases[1..];
    }
  }

  lemma {:induction false} CountPositive(cases: seq<bool>)
    ensures CountOpen(cases) > 0 <==> exists i :: 0 <= i < |cases| && cases[i]
  {
    if cases != [] {
      var tail := cases[1..];
      CountPositive(tail);
      if i :| 0 <= i < |tail| && tail[i] {
        assert cases[i + 1];
      }
      if i :| 0 <= i < |cases| && cases[i] {
        assert i > 0 ==> tail[i - 1];
      }
    }
  }

  lemma {:induction false} CountAll(n: nat)
    ensures CountOpen(seq(n, _ => true)) == n
  {
    if n > 0 {
      CountAll(n - 1);
      assert seq(n, _ => true)[1..] == seq(n - 1, _ => true);
    }
  }

  /** Closed cases are those of inputs read to their end. */
  ghost predicate ClosedAreFinished<T>(ins: seq<Stream>, source: Sources<T>, cases: seq<bool>, taken: map<nat, nat>)
    requires |cases| == |ins|
  {
    forall i :: 0 <= i < |ins| && !cases[i] ==> Taken(taken, ins[i].data) == |SourceOf(source, ins[i].data)|
  }

  /** What has become of the control channels. */
  ghost predicate ControlRelayed<T>(ins: seq<Stream>, foreign: set<nat>, s: JoinState<T>) {
    if s.panicked then s.ctrlCase && !s.messaged && !CanClose(ins, foreign)
    else if s.ctrlCase || s.messaged then s.closed == foreign && !(s.ctrlCase && s.messaged)
    else CanClose(ins, foreign) && s.closed == foreign + Elements(CtrlsOf(ins))
  }

  /** The count is one too low exactly when a message came in on the control channel. */
  ghost predicate JoinInv<T>(ins: seq<Stream>, source: Sources<T>, foreign: set<nat>, s: JoinState<T>) {
    && |s.inputCases| == |ins|
    && s.activeInputs >= 0
    && s.activeInputs == CountOpen(s.inputCases) - (if s.messaged then 1 else 0)
    && ClosedAreFinished(ins, source, s.inputCases, s.taken)
    && Interleaves(source, s.output, s.taken)
    && ControlRelayed(ins, foreign, s)
  }

  lemma StartsWell<T>(ins: seq<Stream>, source: Sources<T>, foreign: set<nat>)
    ensures JoinInv(ins, source, foreign, Start(|ins|, foreign))
  {
    CountAll(|ins|);
  }

  /** The count after any turn. */
  lemma TurnKeepsCount<T>(ins: seq<Stream>, source: Sources<T>, s: JoinState<T>, ev: JoinEvent)
    requires |s.inputCases| == |ins| && Ready(ins, source, s, ev)
    requires s.activeInputs == CountOpen(s.inputCases) - (if s.messaged then 1 else 0)
    requires s.ctrlCase ==> !s.messaged
    ensures var t := Turn(ins, source, s, ev);
            t.activeInputs >= 0 && t.activeInputs == CountOpen(t.inputCases) - (if t.messaged then 1 else 0)
  {
    if ev.InputClose? {
      CountAfterClose(s.inputCases, ev.i);
    }
  }

  /** Receiving does not change what a closed case says: its channel has nothing left to receive. */
  lemma ReceiveKeepsFinished<T>(ins: seq<Stream>, source: Sources<T>, cases: seq<bool>, taken: map<nat, nat>, c: nat)
    requires |cases| == |ins| && ClosedAreFinished(ins, source, cases, taken)
    requires Taken(taken, c) < |SourceOf(source, c)|
    ensures ClosedAreFinished(ins, source, cases, taken[c := Taken(taken, c) + 1])
  {
    forall i | 0 <= i < |ins| && !cases[i]
      ensures Taken(taken[c := Taken(taken, c) + 1], ins[i].data) == |SourceOf(source, ins[i].data)|
    {
      assert ins[i].data != c;
    }
  }

  lemma TurnKeepsFinished<T>(ins: seq<Stream>, source: Sources<T>, s: JoinState<T>, ev: JoinEvent)
    requires |s.inputCases| == |ins| && Ready(ins, source, s, ev)
    requires ClosedAreFinished(ins, source, s.inputCases, s.taken)
    ensures var t := Turn(ins, source, s, ev);
            ClosedAreFinished(ins, source, t.inputCases, t.taken)
  {
    if ev.Input? {
      ReceiveKeepsFinished(ins, source, s.inputCases, s.taken, ins[ev.i].data);
    }
  }

  lemma TurnKeepsControl<T>(ins: seq<Stream>, source: Sources<T>, foreign: set<nat>, s: JoinState<T>, ev: JoinEvent)
    requires |s.inputCases| == |ins| && Ready(ins, source, s, ev)
    requires ControlRelayed(ins, foreign, s)
    ensures ControlRelayed(ins, foreign, Turn(ins, source, s, ev))
  {
    if ev.ControlClose? {
      ClosePanicsExactly(ins, s.closed);
    }
  }

  /** Only a turn that receives changes what was received or sent. */
  lemma TurnReceives<T>(ins: seq<Stream>, source: Sources<T>, s: JoinState<T>, ev: JoinEvent)
    requires |s.inputCases| == |ins| && Ready(ins, source, s, ev)
    ensures var t := Turn(ins, source, s, ev);
            if ev.Input? then
              var c := ins[ev.i].data;
              && t.output == s.output + [Item(c, SourceOf(source, c)[Taken(s.taken, c)])]
              && t.taken == s.taken[c := Taken(s.taken, c) + 1]
            else t.output == s.output && t.taken == s.taken
  {
  }

  lemma TurnInterleaves<T>(ins: seq<Stream>, source: Sources<T>, s: JoinState<T>, ev: JoinEvent)
    requires |s.inputCases| == |ins| && Ready(ins, source, s, ev)
    requires Interleaves(source, s.output, s.taken)
    ensures Interleaves(source, Turn(ins, source, s, ev).output, Turn(ins, source, s, ev).taken)
  {
    TurnReceives(ins, source, s, ev);
    if ev.Input? {
      ReceiveInterleaves(source, s.output, s.taken, ins[ev.i].data);
    }
  }

  lemma TurnKeepsInv<T>(ins: seq<Stream>, source: Sources<T>, foreign: set<nat>, s: JoinState<T>, ev: JoinEvent)
    requires JoinInv(ins, source, foreign, s) && Ready(ins, source, s, ev)
    ensures JoinInv(ins, source, foreign, Turn(ins, source, s, ev))
  {
    TurnKeepsCount(ins, source, s, ev);
    TurnKeepsFinished(ins, source, s, ev);
    TurnInterleaves(ins, source, s, ev);
    TurnKeepsControl(ins, source, foreign, s, ev);
  }

  /** When the count reaches zero, so that the output is closed: if no message ever came in on the
      control channel, everything that every input had to give has come out, in order; and if one
      did, there is an input that was still open. */
  lemma JoinEndsComplete<T>(ins: seq<Stream>, source: Sources<T>, foreign: set<nat>, s: JoinState<T>)
    requires JoinInv(ins, source, foreign, s) && s.activeInputs == 0
    ensures (forall i :: 0 <= i < |ins| ==> !s.inputCases[i]) <==> !s.messaged
    ensures !s.messaged ==>
              forall i :: 0 <= i < |ins| ==> Project(s.output, ins[i].data) == SourceOf(source, ins[i].data)
  {
    CountPositive(s.inputCases);
    if !s.messaged {
      forall i | 0 <= i < |ins|
        ensures Project(s.output, ins[i].data) == SourceOf(source, ins[i].data)
      {
        var src := SourceOf(source, ins[i].data);
        assert !s.inputCases[i] && src[..|src|] == src;
      }
    }
  }

  // --- Termination ---

  /** How many turns there are still to come: elements, closes of inputs, and one for control. */
  function Measure<T>(ins: seq<Stream>, source: Sources<T>, s: JoinState<T>): int {
    CountOpen(s.inputCases) + Unread(source, s.taken, ChannelsOf(ins)) + if s.ctrlCase && !s.panicked then 1 else 0
  }

  lemma MeasureIsNatural<T>(ins: seq<Stream>, source: Sources<T>, foreign: set<nat>, s: JoinState<T>)
    requires JoinInv(ins, source, foreign, s)
    ensures Measure(ins, source, s) >= 0
  {
    UnreadIsNatural(source, s.taken, ChannelsOf(ins));
  }

  /** Every turn uses up one of them. */
  lemma TurnUsesUp<T>(ins: seq<Stream>, source: Sources<T>, s: JoinState<T>, ev: JoinEvent)
    requires |s.inputCases| == |ins| && Ready(ins, source, s, ev)
    ensures Measure(ins, source, Turn(ins, source, s, ev)) == Measure(ins, source, s) - 1
  {
    match ev
    case Input(i) =>
      assert ChannelsOf(ins)[i] == ins[i].data;
      UnreadAfterReceive(source, s.taken, ChannelsOf(ins), ins[i].data);
    case InputClose(i) => CountAfterClose(s.inputCases, i);
    case ControlClose =>
    case ControlMessage =>
  }

  /** While an input is counted there is always a turn to take: some open input has an element or
      its close to give. */
  lemma JoinProgresses<T>(ins: seq<Stream>, source: Sources<T>, foreign: set<nat>, s: JoinState<T>)
    returns (ev: JoinEvent)
    requires JoinInv(ins, source, foreign, s) && s.activeInputs > 0 && !s.panicked
    ensures Ready(ins, source, s, ev) && (ev.Input? || ev.InputClose?)
  {
    CountPositive(s.inputCases);
    var i :| 0 <= i < |ins| && s.inputCases[i];
    var c := ins[i].data;
    ev := if Taken(s.taken, c) < |SourceOf(source, c)| then Input(i) else InputClose(i);
  }

  // --- Whole runs ---

  /** The state after a script of what Select may return; what is not ready is passed over. */
  ghost function After<T>(ins: seq<Stream>, source: Sources<T>, foreign: set<nat>, run: seq<JoinEvent>)
    : (s: JoinState<T>)
    ensures |s.inputCases| == |ins|
  {
    if run == [] then Start(|ins|, foreign)
    else
      var s, ev := After(ins, source, foreign, run[..|run| - 1]), run[|run| - 1];
      if Ready(ins, source, s, ev) then Turn(ins, source, s, ev) else s
  }

  /** A run of the loop: every event was ready when it came. */
  ghost predicate IsJoinRun<T>(ins: seq<Stream>, source: Sources<T>, foreign: set<nat>, run: seq<JoinEvent>) {
    if run == [] then true else
    var init := run[..|run| - 1];
    IsJoinRun(ins, source, foreign, init) && Ready(ins, source, After(ins, source, foreign, init), run[|run| - 1])
  }

  lemma {:induction false} RunsKeepJoinInv<T>(ins: seq<Stream>, source: Sources<T>, foreign: set<nat>,
                                              run: seq<JoinEvent>)
    ensures var s := After(ins, source, foreign, run);
            && JoinInv(ins, source, foreign, s)
            && (s.messaged ==> ControlMessage in run)
            && (s.panicked || s.closed != foreign ==> ControlClose in run)
    decreases |run|
  {
    if run == [] {
      StartsWell(ins, source, foreign);
    } else {
      var init, ev := run[..|run| - 1], run[|run| - 1];
      RunsKeepJoinInv(ins, source, foreign, init);
      if Ready(ins, source, After(ins, source, foreign, init), ev) {
        TurnKeepsInv(ins, source, foreign, After(ins, source, foreign, init), ev);
      }
    }
  }

  /** In any run, what has come out of each channel is in order and without gaps; if the count has
      reached zero without a control message, it is everything; and the loop has panicked only if
      control was closed and the inputs' control channels could not all be. */
  lemma JoinDelivers<T>(ins: seq<Stream>, source: Sources<T>, foreign: set<nat>, run: seq<JoinEvent>)
    ensures var s := After(ins, source, foreign, run);
            && s.activeInputs >= 0
            && (forall c :: Project(s.output, c) <= SourceOf(source, c))
            && (s.activeInputs == 0 && !s.messaged ==>
                  forall i :: 0 <= i < |ins| ==> Project(s.output, ins[i].data) == SourceOf(source, ins[i].data))
            && (s.messaged ==> ControlMessage in run)
            && (s.panicked ==> ControlClose in run && !CanClose(ins, foreign))
            && (s.closed != foreign ==> ControlClose in run)
  {
    var s := After(ins, source, foreign, run);
    RunsKeepJoinInv(ins, source, foreign, run);
    if s.activeInputs == 0 {
      JoinEndsComplete(ins, source, foreign, s);
    }
  }

  lemma {:induction false} RunUsesUp<T>(ins: seq<Stream>, source: Sources<T>, foreign: set<nat>, run: seq<JoinEvent>)
    requires IsJoinRun(ins, source, foreign, run)
    ensures |run| + Measure(ins, source, After(ins, source, foreign, run))
         == Measure(ins, source, Start(|ins|, foreign))
    decreases |run|
  {
    if run != [] {
      var n := |run| - 1;
      RunUsesUp(ins, source, foreign, run[..n]);
      TurnUsesUp(ins, source, After(ins, source, foreign, run[..n]), run[n]);
    }
  }

  /** With finite inputs the loop ends: a run has no more turns than the inputs have elements and
      closes, and one for control; and until the count reaches zero, or the loop panics, there is
      always another turn. */
  lemma JoinTerminates<T>(ins: seq<Stream>, source: Sources<T>, foreign: set<nat>, run: seq<JoinEvent>)
    requires IsJoinRun(ins, source, foreign, run)
    ensures var s := After(ins, source, foreign, run);
            && |run| <= |ins| + Unread(source, map[], ChannelsOf(ins)) + 1
            && (s.activeInputs == 0 || s.panicked || exists ev :: Ready(ins, source, s, ev))
  {
    var s := After(ins, source, foreign, run);
    RunUsesUp(ins, source, foreign, run);
    RunsKeepJoinInv(ins, source, foreign, run);
    MeasureIsNatural(ins, source, foreign, s);
    CountAll(|ins|);
    if s.activeInputs > 0 && !s.panicked {
      var ev := JoinProgresses(ins, source, foreign, s);
    }
  }

  // --- The goroutine ---

  /** Close the control channel of every input, which panics at one that is closed. */
  method CloseUpstream(ins: seq<Stream>, before: set<nat>) returns (closed: set<nat>, panic: bool)
    ensures (closed, panic) == CloseEach(ins, before)
  {
    closed := before;
    for i := 0 to |ins|
      invariant CloseEach(ins[i..], closed) == CloseEach(ins, before)
    {
      assert ins[i..][0] == ins[i] && ins[i..][1..] == ins[i + 1..];
      if ins[i].ctrl in closed {
        return closed, true;
      }
      closed := closed + {ins[i].ctrl};
    }
    return closed, false;
  }

  /** reflect.Select: as long as some case is ready, it returns one that is. No state comes twice
      in a run, so that any choices it may make are those of a function of the state. */
  ghost predicate Selects<T(!new)>(ins: seq<Stream>, source: Sources<T>, select: JoinState<T> -> JoinEvent) {
    forall s: JoinState<T> | |s.inputCases| == |ins| && exists ev :: Ready(ins, source, s, ev) ::
      Ready(ins, source, s, select(s))
  }

  /** The goroutine, whichever ready case Select returns at each turn: the loop ends, and what it
      did is a run. If no message came in on the control channel and it did not panic, it has
      delivered every input entirely, each in its own order. Each input's control channel is
      closed at most once, and only when the loop's own is. */
  method Loop<T(!new)>(ins: seq<Stream>, source: Sources<T>, foreign: set<nat>, select: JoinState<T> -> JoinEvent)
    returns (output: seq<Item<T>>, closed: set<nat>, panicked: bool, messaged: bool, ghost run: seq<JoinEvent>)
    requires Selects(ins, source, select)
    ensures IsJoinRun(ins, source, foreign, run)
    ensures |run| <= |ins| + Unread(source, map[], ChannelsOf(ins)) + 1
    ensures var s := After(ins, source, foreign, run);
            && output == s.output && closed == s.closed && panicked == s.panicked && messaged == s.messaged
            && (panicked || s.activeInputs == 0)
    ensures forall c :: Project(output, c) <= SourceOf(source, c)
    ensures !panicked && !messaged ==>
              forall i :: 0 <= i < |ins| ==> Project(output, ins[i].data) == SourceOf(source, ins[i].data)
    ensures panicked ==> ControlClose in run && !CanClose(ins, foreign)
    ensures closed != foreign ==> ControlClose in run
  {
    var s: JoinState<T> := Start(|ins|, foreign);
    run := [];
    while s.activeInputs > 0 && !s.panicked
      invariant IsJoinRun(ins, source, foreign, run)
      invariant s == After(ins, source, foreign, run)
      decreases Measure(ins, source, s)
    {
      var chosen := select(s);
      TakesTurn(ins, source, foreign, run, select);
      s := Handle(ins, source, s, chosen);
      run := run + [chosen];
    }
    JoinTerminates(ins, source, foreign, run);
    JoinDelivers(ins, source, foreign, run);
    output, closed, panicked, messaged := s.output, s.closed, s.panicked, s.messaged;
  }

  /** The body of the loop, for the case that was chosen. */
  method Handle<T>(ins: seq<Stream>, source: Sources<T>, s: JoinState<T>, ev: JoinEvent) returns (t: JoinState<T>)
    requires |s.inputCases| == |ins| && Ready(ins, source, s, ev)
    ensures t == Turn(ins, source, s, ev)
  {
    t := s;
    match ev {
      case Input(i) =>
        var c := ins[i].data;
        var k := Taken(s.taken, c);
        t := t.(output := t.output + [Item(c, SourceOf(source, c)[k])], taken := t.taken[c := k + 1]);
      case ControlClose =>
        var closed, panic := CloseUpstream(ins, s.closed);
        t := t.(closed := closed, panicked := panic);
        if !panic {
          t := t.(ctrlCase := false);
        }
      case ControlMessage =>
        t := t.(ctrlCase := false, messaged := true);
        t := t.(activeInputs := t.activeInputs - 1);
      case InputClose(i) =>
        t := t.(inputCases := t.inputCases[i := false]);
        t := t.(activeInputs := t.activeInputs - 1);
    }
  }

  /** One more turn of the loop, as Select has it. */
  lemma TakesTurn<T(!new)>(ins: seq<Stream>, source: Sources<T>, foreign: set<nat>, run: seq<JoinEvent>,
                           select: JoinState<T> -> JoinEvent)
    requires Selects(ins, source, select) && IsJoinRun(ins, source, foreign, run)
    requires var s := After(ins, source, foreign, run);
             s.activeInputs > 0 && !s.panicked
    ensures var s := After(ins, source, foreign, run);
            && Ready(ins, source, s, select(s))
            && IsJoinRun(ins, source, foreign, run + [select(s)])
            && After(ins, source, foreign, run + [select(s)]) == Turn(ins, source, s, select(s))
            && 0 <= Measure(ins, source, Turn(ins, source, s, select(s))) < Measure(ins, source, s)
  {
    var s := After(ins, source, foreign, run);
    RunsKeepJoinInv(ins, source, foreign, run);
    var ready := JoinProgresses(ins, source, foreign, s);
    RunGoesOn(ins, source, foreign, run, select(s));
    TurnUsesUp(ins, source, s, select(s));
    TurnKeepsInv(ins, source, foreign, s, select(s));
    MeasureIsNatural(ins, source, foreign, Turn(ins, source, s, select(s)));
  }

  lemma RunGoesOn<T>(ins: seq<Stream>, source: Sources<T>, foreign: set<nat>, run: seq<JoinEvent>, ev: JoinEvent)
    requires IsJoinRun(ins, source, foreign, run)
    requires Ready(ins, source, After(ins, source, foreign, run), ev)
    ensures IsJoinRun(ins, source, foreign, run + [ev])
    ensures After(ins, source, foreign, run + [ev])
         == Turn(ins, source, After(ins, source, foreign, run), ev)
  {
    var longer := run + [ev];
    assert longer[..|run|] == run;
  }
}
