/** pkg/stream/repeater.go: one goroutine that copies its input to outputs which come and go.
    Channels are numbers; reflect.Select is a choice among the cases that are ready, so a turn of
    the loop is given the case that was chosen. */
module Repeater {
  import opened Sequences

  datatype Output = Output(ctrl: nat, data: nat)

  /** What Select may return: a message or a close on the control channel, an element or a close
      on the input, a message or a close on an output's control channel. */
  datatype Event<T> =
    | NewStream
    | ControlClosed
    | Element(e: T)
    | InputClosed
    | OutputMessage(ctrl: nat)
    | OutputClosed(ctrl: nat)

  /** The repeater, the channels it has touched, and, for the record, all it ever received and
      where in that each output began and ended. */
  datatype State<T> = State(
    ctrlOpen: bool,                  // r.ctrl != nil
    inputOpen: bool,                 // r.in.Data != nil
    out: seq<Output>,
    nextChan: nat,
    sent: map<nat, seq<T>>,          // data channel : what went through it
    closed: set<nat>,                // data channels that were closed
    upstreamClosed: bool,            // r.in.Ctrl was closed
    input: seq<T>,
    start: map<nat, nat>,
    stop: map<nat, nat>)

  function Initial<T>(): State<T> {
    State(true, true, [], 0, map[], {}, false, [], map[], map[])
  }

  function DataOf(out: seq<Output>): set<nat> {
    set o | o in out :: o.data
  }

  function CtrlOf(out: seq<Output>): set<nat> {
    set o | o in out :: o.ctrl
  }

  ghost predicate Enabled<T>(s: State<T>, ev: Event<T>) {
    match ev
    case NewStream => s.ctrlOpen
    case ControlClosed => s.ctrlOpen
    case Element(_) => s.inputOpen
    case InputClosed => s.inputOpen
    case OutputMessage(c) => c in CtrlOf(s.out)
    case OutputClosed(c) => c in CtrlOf(s.out)
  }

  /** The place of the first output with this control channel, from place i on, or the length. */
  function FindFrom(out: seq<Output>, ctrl: nat, i: nat): (place: nat)
    requires i <= |out|
    ensures i <= place <= |out|
    ensures place < |out| ==> out[place].ctrl == ctrl
    ensures forall j :: i <= j < place ==> out[j].ctrl != ctrl
    decreases |out| - i
  {
    if i == |out| || out[i].ctrl == ctrl then i else FindFrom(out, ctrl, i + 1)
  }

  function Find(out: seq<Output>, ctrl: nat): nat {
    FindFrom(out, ctrl, 0)
  }

  /** Send an element through each of some channels. */
  function Feed<T>(sent: map<nat, seq<T>>, to: set<nat>, e: T): (fed: map<nat, seq<T>>)
    ensures fed.Keys == sent.Keys
    ensures forall d :: d in sent ==> fed[d] == if d in to then sent[d] + [e] else sent[d]
  {
    map d | d in sent :: if d in to then sent[d] + [e] else sent[d]
  }

  lemma FeedOneMore<T>(sent: map<nat, seq<T>>, to: set<nat>, d: nat, e: T)
    requires d in sent && d !in to
    ensures var fed := Feed(sent, to, e);
            fed[d := fed[d] + [e]] == Feed(sent, to + {d}, e)
  {
  }

  /** What one turn of the loop does. */
  function Step<T>(s: State<T>, ev: Event<T>): State<T> {
    match ev
    case NewStream =>
      var o := Output(s.nextChan, s.nextChan + 1);
      s.(out := s.out + [o], nextChan := s.nextChan + 2,
         sent := s.sent[o.data := []], start := s.start[o.data := |s.input|])
    case ControlClosed => s.(ctrlOpen := false, upstreamClosed := true)
    case Element(e) =>
      s.(input := s.input + [e], sent := Feed(s.sent, DataOf(s.out), e))
    case InputClosed =>
      s.(inputOpen := false, out := [], closed := s.closed + DataOf(s.out),
         stop := s.stop + map d | d in DataOf(s.out) :: |s.input|)
    case OutputMessage(_) => s
    case OutputClosed(c) =>
      var i := Find(s.out, c);
      if i == |s.out| then s
      else s.(out := RemoveAt(s.out, i), closed := s.closed + {s.out[i].data},
              stop := s.stop[s.out[i].data := |s.input|])
  }

  /** Where in the input an output's segment ends: where it was removed, or now. */
  function EndOf<T>(s: State<T>, d: nat): nat {
    if d in s.stop then s.stop[d] else |s.input|
  }

  ghost predicate Segment<T>(s: State<T>, d: nat)
    requires d in s.sent
  {
    && d in s.start && s.start[d] <= EndOf(s, d) <= |s.input|
    && s.sent[d] == s.input[s.start[d]..EndOf(s, d)]
  }

  ghost predicate DistinctOutputs(out: seq<Output>, limit: nat) {
    && (forall o :: o in out ==> o.ctrl < limit && o.data < limit)
    && (forall i, j :: 0 <= i < j < |out| ==> out[i].ctrl != out[j].ctrl && out[i].data != out[j].data)
  }

  ghost predicate Segments<T>(s: State<T>) {
    forall d :: d in s.sent ==> Segment(s, d)
  }

  ghost predicate Channels<T>(s: State<T>) {
    && DistinctOutputs(s.out, s.nextChan)
    && (forall d :: d in s.sent ==> d < s.nextChan)
    && DataOf(s.out) !! s.closed && DataOf(s.out) + s.closed == s.sent.Keys
    && s.start.Keys == s.sent.Keys && s.stop.Keys == s.closed
    && (s.upstreamClosed <==> !s.ctrlOpen)
  }

  /** Every output ever made has received exactly its segment of the input; its channel is open
      exactly while it is an output; and upstream has been closed once, with the control channel. */
  ghost predicate Inv<T>(s: State<T>) {
    Channels(s) && Segments(s)
  }

  lemma AddedData(out: seq<Output>, o: Output)
    ensures DataOf(out + [o]) == DataOf(out) + {o.data}
  {
    assert forall p :: p in out + [o] <==> p in out || p == o;
  }

  lemma RemovedKeepsDistinct(out: seq<Output>, i: nat, limit: nat)
    requires i < |out| && DistinctOutputs(out, limit)
    ensures DistinctOutputs(RemoveAt(out, i), limit)
  {
    var rest := RemoveAt(out, i);
    assert forall o :: o in rest ==> o in out;
  }

  lemma RemovedData(out: seq<Output>, i: nat, limit: nat)
    requires i < |out| && DistinctOutputs(out, limit)
    ensures DataOf(RemoveAt(out, i)) == DataOf(out) - {out[i].data}
  {
    var rest := RemoveAt(out, i);
    forall o | o in out && o.data != out[i].data
      ensures o in rest
    {
      var j :| 0 <= j < |out| && out[j] == o;
      assert rest[if j < i then j else j - 1] == o;
    }
    forall o | o in rest
      ensures o in out && o.data != out[i].data
    {
      var k :| 0 <= k < |rest| && rest[k] == o;
      assert out[if k < i then k else k + 1] == o;
    }
  }

  lemma NewStreamKeepsChannels<T>(s: State<T>)
    requires Channels(s)
    ensures Channels(Step(s, NewStream))
  {
    AddedData(s.out, Output(s.nextChan, s.nextChan + 1));
  }

  lemma InputClosedKeepsChannels<T>(s: State<T>)
    requires Channels(s)
    ensures Channels(Step(s, InputClosed))
  {
  }

  lemma OutputClosedKeepsChannels<T>(s: State<T>, c: nat)
    requires Channels(s) && c in CtrlOf(s.out)
    ensures Channels(Step(s, OutputClosed(c)))
    ensures Find(s.out, c) < |s.out| && s.out[Find(s.out, c)].data !in s.stop
  {
    var i := Find(s.out, c);
    assert s.out[i].data in DataOf(s.out);
    RemovedKeepsDistinct(s.out, i, s.nextChan);
    RemovedData(s.out, i, s.nextChan);
  }

  lemma StepKeepsChannels<T>(s: State<T>, ev: Event<T>)
    requires Channels(s) && Enabled(s, ev)
    ensures Channels(Step(s, ev))
  {
    match ev
    case NewStream => NewStreamKeepsChannels(s);
    case InputClosed => InputClosedKeepsChannels(s);
    case OutputClosed(c) => OutputClosedKeepsChannels(s, c);
    case ControlClosed =>
    case Element(_) =>
    case OutputMessage(_) =>
  }

  lemma ElementExtendsSegment<T>(s: State<T>, e: T, d: nat)
    requires d in s.sent && Segment(s, d) && (d in s.stop <==> d !in DataOf(s.out))
    ensures Segment(Step(s, Element(e)), d)
  {
    var t := Step(s, Element(e));
    if d in DataOf(s.out) {
      assert t.input[s.start[d]..] == s.input[s.start[d]..] + [e];
    } else {
      assert t.input[s.start[d]..s.stop[d]] == s.input[s.start[d]..s.stop[d]];
    }
  }

  /** Where an output begins and ends, so far, and what it got, in a turn that removes one output. */
  lemma OutputClosedKeepsSegment<T>(s: State<T>, c: nat, d: nat)
    requires Channels(s) && c in CtrlOf(s.out) && d in s.sent && Segment(s, d)
    ensures Segment(Step(s, OutputClosed(c)), d)
  {
    var t := Step(s, OutputClosed(c));
    OutputClosedKeepsChannels(s, c);
    assert t.sent == s.sent && t.start == s.start && t.input == s.input;
    assert EndOf(t, d) == EndOf(s, d);
  }

  lemma InputClosedKeepsSegment<T>(s: State<T>, d: nat)
    requires Channels(s) && d in s.sent && Segment(s, d)
    ensures Segment(Step(s, InputClosed), d)
  {
    var t := Step(s, InputClosed);
    assert t.sent == s.sent && t.start == s.start && t.input == s.input;
    assert EndOf(t, d) == EndOf(s, d);
  }

  /** A turn that receives no element leaves every segment as it is. */
  lemma OtherKeepsSegment<T>(s: State<T>, ev: Event<T>, d: nat)
    requires Channels(s) && Enabled(s, ev) && !ev.Element? && d in s.sent && Segment(s, d)
    ensures d in Step(s, ev).sent && Segment(Step(s, ev), d)
  {
    match ev
    case OutputClosed(c) => OutputClosedKeepsSegment(s, c, d);
    case InputClosed => InputClosedKeepsSegment(s, d);
    case NewStream =>
    case ControlClosed =>
    case OutputMessage(_) =>
  }

  lemma StepKeepsInv<T>(s: State<T>, ev: Event<T>)
    requires Inv(s) && Enabled(s, ev)
    ensures Inv(Step(s, ev))
  {
    StepKeepsChannels(s, ev);
    forall d | d in Step(s, ev).sent
      ensures Segment(Step(s, ev), d)
    {
      if d in s.sent {
        if ev.Element? {
          assert d in s.closed <==> d !in DataOf(s.out);
          ElementExtendsSegment(s, ev.e, d);
        } else {
          OtherKeepsSegment(s, ev, d);
        }
      }
    }
  }

  function Run<T>(run: seq<Event<T>>): State<T> {
    if run == [] then Initial() else Step(Run(run[..|run| - 1]), run[|run| - 1])
  }

  /** Every case was ready when it was chosen. */
  ghost predicate IsRun<T>(run: seq<Event<T>>) {
    run != [] ==>
      var n := |run| - 1;
      IsRun(run[..n]) && Enabled(Run(run[..n]), run[n])
  }

  lemma {:induction false} RunsKeepInv<T>(run: seq<Event<T>>)
    requires IsRun(run)
    ensures Inv(Run(run))
    decreases |run|
  {
    if run != [] {
      var init := run[..|run| - 1];
      RunsKeepInv(init);
      StepKeepsInv(Run(init), run[|run| - 1]);
    }
  }

  /** What the record records: the input is the elements received, in order, and an output that
      a turn makes or removes begins or ends at the length of the input just then. */
  lemma StepRecords<T>(s: State<T>, ev: Event<T>)
    requires Channels(s) && Enabled(s, ev)
    ensures var t := Step(s, ev);
            && t.input == s.input + (if ev.Element? then [ev.e] else [])
            && (forall d :: d in s.start ==> d in t.start && t.start[d] == s.start[d])
            && (forall d :: d in DataOf(t.out) - DataOf(s.out) ==> d in t.start && t.start[d] == |s.input|)
            && (forall d :: d in s.stop ==> d in t.stop && t.stop[d] == s.stop[d])
            && (forall d :: d in DataOf(s.out) - DataOf(t.out) ==> d in t.stop && t.stop[d] == |s.input|)
  {
    if ev.OutputClosed? {
      RemovedData(s.out, Find(s.out, ev.ctrl), s.nextChan);
    }
  }

  // --- The goroutine ---

  /** A case given to Select. */
  datatype Case = ControlCase | InputCase | OutputCase(ctrl: nat)

  /** The case that an event is of. */
  function CaseOf<T>(ev: Event<T>): Case {
    match ev
    case NewStream => ControlCase
    case ControlClosed => ControlCase
    case Element(_) => InputCase
    case InputClosed => InputCase
    case OutputMessage(c) => OutputCase(c)
    case OutputClosed(c) => OutputCase(c)
  }

  class Looper<T> {
    var ctrlOpen: bool
    var inputOpen: bool
    var out: seq<Output>
    var nextChan: nat
    var sent: map<nat, seq<T>>         // what the outputs' consumers were handed
    var closed: set<nat>
    var upstreamClosed: bool
    ghost var input: seq<T>
    ghost var start: map<nat, nat>
    ghost var stop: map<nat, nat>

    ghost function View(): State<T>
      reads this
    {
      State(ctrlOpen, inputOpen, out, nextChan, sent, closed, upstreamClosed, input, start, stop)
    }

    constructor ()
      ensures View() == Initial()
    {
      ctrlOpen, inputOpen, out, nextChan := true, true, [], 0;
      sent, closed, upstreamClosed := map[], {}, false;
      input, start, stop := [], map[], map[];
    }

    /** close(data) panics on a closed channel. */
    method CloseData(d: nat)
      requires d !in closed
      modifies this`closed
      ensures closed == old(closed) + {d}
    {
      closed := closed + {d};
    }

    /** So does sending on one. */
    method Send(d: nat, e: T)
      requires d !in closed && d in sent
      modifies this`sent
      ensures sent == old(sent)[d := old(sent)[d] + [e]]
    {
      sent := sent[d := sent[d] + [e]];
    }

    method Add() returns (o: Output)
      modifies this`out, this`nextChan, this`sent, this`start
      ensures View() == Step(old(View()), NewStream)
    {
      o := Output(nextChan, nextChan + 1);
      nextChan := nextChan + 2;
      out := out + [o];
      sent := sent[o.data := []];
      start := start[o.data := |input|];
    }

    method Remove(o: Output) returns (removed: bool)
      modifies this`out
      ensures removed <==> o in old(out)
      ensures removed ==> exists i :: 0 <= i < |old(out)| && old(out)[i] == o
                            && out == RemoveAt(old(out), i)
      ensures !removed ==> out == old(out)
    {
      for i := 0 to |out|
        invariant o !in out[..i] && out == old(out)
      {
        if out[i] == o {
          out := out[..i] + out[i + 1..];
          return true;
        }
      }
      return false;
    }

    method CloseAll()
      requires DataOf(out) !! closed && DistinctOutputs(out, nextChan)
      modifies this`out, this`closed
      ensures out == [] && closed == old(closed) + DataOf(old(out))
    {
      for i := 0 to |out|
        invariant out == old(out)
        invariant closed == old(closed) + DataOf(out[..i])
      {
        assert out[..i + 1] == out[..i] + [out[i]];
        AddedData(out[..i], out[i]);
        assert out[i].data in DataOf(out) && out[i].data !in DataOf(out[..i]);
        CloseData(out[i].data);
      }
      assert out[..|out|] == out;
      out := [];
    }

    /** Select over a send to each output until every one has taken the element, in whatever order
        they are ready; a chosen case is disabled, so none takes it twice. */
    method DataHandler(e: T)
      requires DataOf(out) !! closed && DataOf(out) <= sent.Keys && DistinctOutputs(out, nextChan)
      modifies this`sent
      ensures sent == Feed(old(sent), DataOf(out), e)
    {
      var waiting := DataOf(out);
      ghost var served: set<nat> := {};
      while waiting != {}
        invariant served + waiting == DataOf(out) && served !! waiting
        invariant sent == Feed(old(sent), served, e)
        decreases waiting
      {
        var chosen :| chosen in waiting;
        FeedOneMore(old(sent), served, chosen, e);
        Send(chosen, e);
        served, waiting := served + {chosen}, waiting - {chosen};
      }
    }

    /** The cases of one turn: the control channel and the input while they are open, and the control
        channel of every output. Without any the loop is done. */
    method SelectCases() returns (cases: seq<Case>)
      ensures ControlCase in cases <==> ctrlOpen
      ensures InputCase in cases <==> inputOpen
      ensures forall c :: OutputCase(c) in cases <==> exists o :: o in out && o.ctrl == c
      ensures forall ev :: Enabled(View(), ev) <==> CaseOf(ev) in cases
      ensures cases == [] <==> !ctrlOpen && !inputOpen && out == []
    {
      cases := if ctrlOpen then [ControlCase] else [];
      if inputOpen {
        cases := cases + [InputCase];
      }
      for i := 0 to |out|
        invariant ControlCase in cases <==> ctrlOpen
        invariant InputCase in cases <==> inputOpen
        invariant forall c :: OutputCase(c) in cases <==> exists k :: 0 <= k < i && out[k].ctrl == c
        invariant cases == [] <==> !ctrlOpen && !inputOpen && i == 0
      {
        cases := cases + [OutputCase(out[i].ctrl)];
      }
    }

    /** One turn of the loop, for the case that Select chose: exactly the step of the
        specification, with no channel closed twice or sent on after its close. */
    method Turn(ev: Event<T>)
      requires Inv(View()) && Enabled(View(), ev)
      modifies this
      ensures View() == Step(old(View()), ev)
      ensures Inv(View())
    {
      StepKeepsInv(View(), ev);
      Handle(ev);
    }

    method Handle(ev: Event<T>)
      requires DistinctOutputs(out, nextChan) && DataOf(out) !! closed && DataOf(out) <= sent.Keys
      requires upstreamClosed <==> !ctrlOpen
      requires Enabled(View(), ev)
      modifies this
      ensures View() == Step(old(View()), ev)
    {
      match ev {
        case NewStream =>
          var o := Add();
        case ControlClosed =>
          assert !upstreamClosed;
          upstreamClosed := true;
          ctrlOpen := false;
        case Element(e) =>
          DataHandler(e);
          input := input + [e];
        case InputClosed =>
          stop := stop + map d | d in DataOf(out) :: |input|;
          CloseAll();
          inputOpen := false;
        case OutputMessage(_) =>
        case OutputClosed(ctrl) =>
          RemoveOutput(ctrl);
      }
    }

    method RemoveOutput(ctrl: nat)
      requires DistinctOutputs(out, nextChan) && DataOf(out) !! closed && ctrl in CtrlOf(out)
      modifies this`out, this`closed, this`stop
      ensures var was, i := old(out), Find(old(out), ctrl);
              && i < |was|
              && out == RemoveAt(was, i)
              && closed == old(closed) + {was[i].data}
              && stop == old(stop)[was[i].data := |input|]
    {
      for i := 0 to |out|
        invariant unchanged(`out, `closed, `stop)
        invariant forall j :: 0 <= j < i ==> out[j].ctrl != ctrl
      {
        var o := out[i];
        if o.ctrl == ctrl {
          assert i == Find(out, ctrl) && o.data in DataOf(out);
          var removed := Remove(o);
          CloseData(o.data);
          stop := stop[o.data := |input|];
          return;
        }
      }
    }
  }
}
