/** pkg/stream/joiner.go: a goroutine that merges streams, which come and go, into one. Channels
    are numbers; `source` gives all the elements that will ever be sent on a data channel before
    it is closed, and `foreign` the control channels that others close before the joiner does.
    reflect.Select is a choice among the ready cases. */
module Joiner {
  import opened Sequences
  import opened Wrappers

  /** A *Stream: which one it is, and its two channels. A stream that an operator such as Map or
      Filter makes has the control channel of the stream it was made from. */
  datatype Stream = Stream(id: nat, ctrl: nat, data: nat)

  /** An element, and the data channel it came from. */
  datatype Item<T> = Item(from: nat, elem: T)

  /** What came from one channel into a merged output, in order. */
  function Project<T>(output: seq<Item<T>>, chan: nat): seq<T> {
    if output == [] then [] else
    var n := |output| - 1;
    Project(output[..n], chan) + if output[n].from == chan then [output[n].elem] else []
  }

  lemma ProjectAppend<T>(output: seq<Item<T>>, item: Item<T>, chan: nat)
    ensures Project(output + [item], chan) == Project(output, chan) + if item.from == chan then [item.elem] else []
  {
    assert (output + [item])[..|output|] == output;
  }

  /** The channels that a merged output came from, in order. */
  function FromOf<T>(output: seq<Item<T>>): (from: seq<nat>)
    ensures |from| == |output| && forall k :: 0 <= k < |output| ==> from[k] == output[k].from
  {
    seq(|output|, k requires 0 <= k < |output| => output[k].from)
  }

  function CtrlsOf(ins: seq<Stream>): (ctrls: seq<nat>)
    ensures |ctrls| == |ins| && forall i :: 0 <= i < |ins| ==> ctrls[i] == ins[i].ctrl
  {
    seq(|ins|, i requires 0 <= i < |ins| => ins[i].ctrl)
  }

  function ChannelsOf(ins: seq<Stream>): (chans: seq<nat>)
    ensures |chans| == |ins| && forall i :: 0 <= i < |ins| ==> chans[i] == ins[i].data
  {
    seq(|ins|, i requires 0 <= i < |ins| => ins[i].data)
  }

  // --- Closing upstream ---

  /** close() on the control channel of each stream in turn, which panics at one that is closed:
      the channels closed by then, and whether it panicked. */
  function CloseEach(ins: seq<Stream>, closed: set<nat>): (set<nat>, bool) {
    if ins == [] then (closed, false)
    else if ins[0].ctrl in closed then (closed, true)
    else CloseEach(ins[1..], closed + {ins[0].ctrl})
  }

  /** The streams have control channels of their own, none of them closed yet. */
  ghost predicate CanClose(ins: seq<Stream>, closed: set<nat>) {
    Distinct(CtrlsOf(ins)) && Elements(CtrlsOf(ins)) !! closed
  }

  /** Closing panics exactly when two of the streams share a control channel, as a stream that was
      added twice does with itself, or when one is closed already. */
  lemma {:induction false} ClosePanicsExactly(ins: seq<Stream>, closed: set<nat>)
    ensures CloseEach(ins, closed).1 <==> !CanClose(ins, closed)
    ensures CanClose(ins, closed) ==> CloseEach(ins, closed).0 == closed + Elements(CtrlsOf(ins))
    ensures closed <= CloseEach(ins, closed).0 <= closed + Elements(CtrlsOf(ins))
  {
    if ins != [] {
      var c, tail := ins[0].ctrl, ins[1..];
      ClosePanicsExactly(tail, closed + {c});
      DistinctFirst(c, CtrlsOf(tail));
      assert CtrlsOf(ins) == [c] + CtrlsOf(tail);
    }
  }

  lemma DistinctFirst(c: nat, rest: seq<nat>)
    ensures Distinct([c] + rest) <==> Distinct(rest) && c !in rest
    ensures Elements([c] + rest) == {c} + Elements(rest)
  {
    var all := [c] + rest;
    if Distinct(all) {
      forall i, j | 0 <= i < j < |rest|
        ensures rest[i] != rest[j]
      {
        assert all[i + 1] != all[j + 1];
      }
      forall k | 0 <= k < |rest|
        ensures rest[k] != c
      {
        assert all[0] != all[k + 1];
      }
    }
  }

  // --- The joiner's steps ---

  datatype Event =
    | AddStream(s: Stream)
    | RemoveStream(s: Stream)
    | SetEnable(on: bool)
    | ControlClosed
    | Receive(chan: nat)
    | InputClosed(chan: nat)
    | Finish

  datatype State<T> = State(
    ctrlOpen: bool,                  // j.ctrl != nil
    enable: bool,
    ins: seq<Stream>,
    output: seq<Item<T>>,            // what was sent to j.data
    dataClosed: bool,
    closed: set<nat>,                // control channels that are closed
    panicked: bool,
    taken: map<nat, nat>)            // how much was received from each data channel

  function Initial<T>(foreign: set<nat>): State<T> {
    State(true, true, [], [], false, foreign, false, map[])
  }

  function Taken(taken: map<nat, nat>, chan: nat): nat {
    if chan in taken then taken[chan] else 0
  }

  type Sources<T> = map<nat, seq<T>>

  function SourceOf<T>(source: Sources<T>, chan: nat): seq<T> {
    if chan in source then source[chan] else []
  }

  /** The cases that Select is given and that can be ready; the loop finishes when it has none.
      Any stream may be added, any number of times. */
  ghost predicate Enabled<T>(source: Sources<T>, s: State<T>, ev: Event) {
    !s.dataClosed && !s.panicked &&
    match ev
    case AddStream(_) => s.ctrlOpen
    case RemoveStream(_) => s.ctrlOpen
    case SetEnable(_) => s.ctrlOpen
    case ControlClosed => s.ctrlOpen
    case Receive(c) => s.enable && c in ChannelsOf(s.ins) && Taken(s.taken, c) < |SourceOf(source, c)|
    case InputClosed(c) => s.enable && c in ChannelsOf(s.ins) && Taken(s.taken, c) == |SourceOf(source, c)|
    case Finish => !s.ctrlOpen && !(s.enable && s.ins != [])
  }

  /** The first place of a stream, from place i on, or the length. */
  function IndexFrom(ins: seq<Stream>, s: Stream, i: nat): (place: nat)
    requires i <= |ins|
    ensures i <= place <= |ins|
    ensures place < |ins| ==> ins[place] == s
    ensures forall j :: i <= j < place ==> ins[j] != s
    decreases |ins| - i
  {
    if i == |ins| || ins[i] == s then i else IndexFrom(ins, s, i + 1)
  }

  function IndexOf(ins: seq<Stream>, s: Stream): nat {
    IndexFrom(ins, s, 0)
  }

  /** The first place of a stream with this data channel, from place i on, or the length. */
  function ChannelFrom(ins: seq<Stream>, chan: nat, i: nat): (place: nat)
    requires i <= |ins|
    ensures i <= place <= |ins|
    ensures place < |ins| ==> ins[place].data == chan
    ensures forall j :: i <= j < place ==> ins[j].data != chan
    decreases |ins| - i
  {
    if i == |ins| || ins[i].data == chan then i else ChannelFrom(ins, chan, i + 1)
  }

  function ChannelIndex(ins: seq<Stream>, chan: nat): nat {
    ChannelFrom(ins, chan, 0)
  }

  function Without(ins: seq<Stream>, i: nat): seq<Stream> {
    if i < |ins| then RemoveAt(ins, i) else ins
  }

  function Step<T>(source: Sources<T>, s: State<T>, ev: Event): State<T> {
    match ev
    case AddStream(st) => s.(ins := s.ins + [st])
    case RemoveStream(st) => s.(ins := Without(s.ins, IndexOf(s.ins, st)))
    case SetEnable(on) => s.(enable := on)
    case ControlClosed =>
      var (closed, panic) := CloseEach(s.ins, s.closed);
      s.(closed := closed, panicked := panic, ctrlOpen := panic)
    case Receive(c) =>
      if Taken(s.taken, c) < |SourceOf(source, c)| then
        s.(output := s.output + [Item(c, SourceOf(source, c)[Taken(s.taken, c)])],
           taken := s.taken[c := Taken(s.taken, c) + 1])
      else s
    case InputClosed(c) => s.(ins := Without(s.ins, ChannelIndex(s.ins, c)))
    case Finish => s.(dataClosed := true)
  }

  /** The output is an interleaving of what was taken from each channel, each element once and in
      order. */
  ghost predicate Interleaves<T>(source: Sources<T>, output: seq<Item<T>>, taken: map<nat, nat>) {
    && (forall c :: Taken(taken, c) <= |SourceOf(source, c)|)
    && (forall c :: Project(output, c) == SourceOf(source, c)[..Taken(taken, c)])
  }

  /** The output interleaves the inputs; the joiner closes upstream control channels only when its
      own was closed; and it closes its output only after that. */
  ghost predicate Inv<T>(source: Sources<T>, foreign: set<nat>, s: State<T>) {
    && Interleaves(source, s.output, s.taken)
    && (s.ctrlOpen && !s.panicked ==> s.closed == foreign)
    && (s.panicked ==> s.ctrlOpen)
    && (s.dataClosed ==> !s.ctrlOpen)
  }

  /** Receiving the next element from a channel and relaying it. */
  lemma ReceiveInterleaves<T>(source: Sources<T>, output: seq<Item<T>>, taken: map<nat, nat>, c: nat)
    requires Interleaves(source, output, taken) && Taken(taken, c) < |SourceOf(source, c)|
    ensures Interleaves(source, output + [Item(c, SourceOf(source, c)[Taken(taken, c)])],
                        taken[c := Taken(taken, c) + 1])
  {
    var src, k := SourceOf(source, c), Taken(taken, c);
    var item := Item(c, src[k]);
    forall c'
      ensures Project(output + [item], c') == SourceOf(source, c')[..Taken(taken[c := k + 1], c')]
    {
      ProjectAppend(output, item, c');
      if c' == c {
        assert src[..k + 1] == src[..k] + [src[k]];
      }
    }
  }

  lemma OthersRelayNothing<T>(source: Sources<T>, s: State<T>, ev: Event)
    requires ev.Receive? ==> Taken(s.taken, ev.chan) >= |SourceOf(source, ev.chan)|
    ensures Step(source, s, ev).output == s.output && Step(source, s, ev).taken == s.taken
  {
  }

  /** Whatever the turn is, the output goes on being an interleaving of what was taken. */
  lemma StepInterleaves<T>(source: Sources<T>, s: State<T>, ev: Event)
    requires Interleaves(source, s.output, s.taken)
    ensures Interleaves(source, Step(source, s, ev).output, Step(source, s, ev).taken)
  {
    if ev.Receive? && Taken(s.taken, ev.chan) < |SourceOf(source, ev.chan)| {
      ReceiveInterleaves(source, s.output, s.taken, ev.chan);
    } else {
      OthersRelayNothing(source, s, ev);
    }
  }

  lemma StepKeepsInv<T>(source: Sources<T>, foreign: set<nat>, s: State<T>, ev: Event)
    requires Inv(source, foreign, s) && Enabled(source, s, ev)
    ensures Inv(source, foreign, Step(source, s, ev))
  {
    StepInterleaves(source, s, ev);
  }

  function Run<T>(source: Sources<T>, s: State<T>, run: seq<Event>): State<T> {
    if run == [] then s else Step(source, Run(source, s, run[..|run| - 1]), run[|run| - 1])
  }

  /** Every case was ready when it was chosen. */
  ghost predicate IsRun<T>(source: Sources<T>, s: State<T>, run: seq<Event>) {
    run != [] ==>
      var n := |run| - 1;
      IsRun(source, s, run[..n]) && Enabled(source, Run(source, s, run[..n]), run[n])
  }

  lemma {:induction false} RunsKeepInv<T>(source: Sources<T>, foreign: set<nat>, run: seq<Event>)
    requires IsRun(source, Initial(foreign), run)
    ensures Inv(source, foreign, Run(source, Initial(foreign), run))
    decreases |run|
  {
    if run != [] {
      RunsKeepInv(source, foreign, run[..|run| - 1]);
      StepKeepsInv(source, foreign, Run(source, Initial(foreign), run[..|run| - 1]), run[|run| - 1]);
    }
  }

  // --- The panic ---

  /** At place i of a run control is closed, while the streams listed cannot all be closed. */
  ghost predicate ClosesBadly<T>(source: Sources<T>, foreign: set<nat>, run: seq<Event>, i: nat)
    requires i < |run|
  {
    run[i].ControlClosed? && !CanClose(Run(source, Initial<T>(foreign), run[..i]).ins, foreign)
  }

  ghost predicate SomeClosesBadly<T>(source: Sources<T>, foreign: set<nat>, run: seq<Event>) {
    exists i :: 0 <= i < |run| && ClosesBadly(source, foreign, run, i)
  }

  lemma LastClosesBadly<T>(source: Sources<T>, foreign: set<nat>, run: seq<Event>)
    requires run != []
    ensures var n := |run| - 1;
            SomeClosesBadly(source, foreign, run)
            <==> SomeClosesBadly(source, foreign, run[..n]) || ClosesBadly(source, foreign, run, n)
  {
    var n := |run| - 1;
    var init := run[..n];
    forall i | 0 <= i < n
      ensures ClosesBadly(source, foreign, run, i) <==> ClosesBadly(source, foreign, init, i)
    {
      assert init[..i] == run[..i] && init[i] == run[i];
    }
  }

  /** A run ends in the panic if and only if control is closed while two streams listed share a
      control channel, or one's is closed already. */
  lemma {:induction false} RunsPanicExactly<T>(source: Sources<T>, foreign: set<nat>, run: seq<Event>)
    requires IsRun(source, Initial(foreign), run)
    ensures Run(source, Initial(foreign), run).panicked <==> SomeClosesBadly(source, foreign, run)
    decreases |run|
  {
    if run != [] {
      var n := |run| - 1;
      var init, s := run[..n], Run(source, Initial(foreign), run[..n]);
      RunsPanicExactly(source, foreign, init);
      RunsKeepInv(source, foreign, init);
      ClosePanicsExactly(s.ins, s.closed);
      LastClosesBadly(source, foreign, run);
    }
  }

  lemma OneMore<T>(source: Sources<T>, s: State<T>, run: seq<Event>, ev: Event)
    ensures Run(source, s, run + [ev]) == Step(source, Run(source, s, run), ev)
    ensures IsRun(source, s, run + [ev]) <==> IsRun(source, s, run) && Enabled(source, Run(source, s, run), ev)
  {
    assert (run + [ev])[..|run|] == run;
  }

  /** Adding a stream twice, or two streams of which one was made from the other by an operator,
      and then closing the joiner, panics. */
  lemma SharedControlPanics<T>(source: Sources<T>, a: Stream, b: Stream)
    requires a.ctrl == b.ctrl
    ensures var run := [AddStream(a), AddStream(b), ControlClosed];
            IsRun(source, Initial({}), run) && Run(source, Initial({}), run).panicked
  {
    var s: State<T> := Initial({});
    var one, two := [AddStream(a)], [AddStream(a), AddStream(b)];
    OneMore(source, s, [], AddStream(a));
    assert [] + one == one;
    OneMore(source, s, one, AddStream(b));
    assert one + [AddStream(b)] == two;
    OneMore(source, s, two, ControlClosed);
    assert two + [ControlClosed] == [AddStream(a), AddStream(b), ControlClosed];
    ClosePanicsExactly([a, b], {});
    assert CtrlsOf([a, b])[0] == CtrlsOf([a, b])[1];
  }

  // --- Termination once control has closed ---

  /** What is left to receive from some channels, each counted once. */
  function Unread<T>(source: Sources<T>, taken: map<nat, nat>, chans: seq<nat>): int {
    if chans == [] then 0 else
    UnreadAt(source, taken, chans[0], chans[1..]) + Unread(source, taken, chans[1..])
  }

  /** What a channel has left, unless it is listed again later. */
  function UnreadAt<T>(source: Sources<T>, taken: map<nat, nat>, c: nat, later: seq<nat>): int {
    if c in later then 0 else |SourceOf(source, c)| - Taken(taken, c)
  }

  lemma {:induction false} UnreadIsNatural<T>(source: Sources<T>, taken: map<nat, nat>, chans: seq<nat>)
    requires forall c :: Taken(taken, c) <= |SourceOf(source, c)|
    ensures Unread(source, taken, chans) >= 0
  {
    if chans != [] {
      UnreadIsNatural(source, taken, chans[1..]);
    }
  }

  /** Receiving leaves one less, from whichever places the channel is listed at. */
  lemma {:induction false} UnreadAfterReceive<T>(source: Sources<T>, taken: map<nat, nat>, chans: seq<nat>, c: nat)
    ensures Unread(source, taken[c := Taken(taken, c) + 1], chans)
         == Unread(source, taken, chans) - if c in chans then 1 else 0
  {
    if chans != [] {
      UnreadAfterReceive(source, taken, chans[1..], c);
    }
  }

  lemma StillListed(chans: seq<nat>, i: nat, c: nat)
    requires i < |chans| && c != chans[i]
    ensures c in RemoveAt(chans, i) <==> c in chans
  {
    if k :| 0 <= k < |chans| && chans[k] == c {
      assert RemoveAt(chans, i)[if k < i then k else k - 1] == c;
    }
  }

  /** A channel that was read to its end does not count. */
  lemma {:induction false} UnreadWithout<T>(source: Sources<T>, taken: map<nat, nat>, chans: seq<nat>, i: nat)
    requires i < |chans| && Taken(taken, chans[i]) == |SourceOf(source, chans[i])|
    ensures Unread(source, taken, RemoveAt(chans, i)) == Unread(source, taken, chans)
  {
    var c, tail, left := chans[0], chans[1..], RemoveAt(chans, i);
    if i == 0 {
      assert left == tail;
    } else {
      var rest := RemoveAt(tail, i - 1);
      UnreadWithout(source, taken, tail, i - 1);
      assert left[0] == c && left[1..] == rest;
      assert UnreadAt(source, taken, c, rest) == UnreadAt(source, taken, c, tail) by {
        if c != chans[i] {
          StillListed(tail, i - 1, c);
        }
      }
    }
  }

  /** How many turns there are still to come from the inputs: an element or a close each. */
  function Remaining<T>(source: Sources<T>, s: State<T>): int {
    |s.ins| + Unread(source, s.taken, ChannelsOf(s.ins))
  }

  /** Once control has closed, every turn but the last uses up some of what is left. */
  lemma TurnUsesUp<T>(source: Sources<T>, foreign: set<nat>, s: State<T>, ev: Event)
    requires Inv(source, foreign, s) && Enabled(source, s, ev) && !s.ctrlOpen
    ensures var t := Step(source, s, ev);
            && !t.ctrlOpen && !t.panicked && (t.dataClosed <==> ev.Finish?)
            && (!ev.Finish? ==> Remaining(source, t) == Remaining(source, s) - 1)
  {
    match ev
    case Receive(c) => UnreadAfterReceive(source, s.taken, ChannelsOf(s.ins), c);
    case InputClosed(c) =>
      var i := ChannelIndex(s.ins, c);
      UnreadWithout(source, s.taken, ChannelsOf(s.ins), i);
      assert ChannelsOf(RemoveAt(s.ins, i)) == RemoveAt(ChannelsOf(s.ins), i);
    case Finish =>
  }

  /** The loop is never stuck: after control has closed, the end is near or some input has an
      element or its close to give. */
  lemma ClosedJoinerProgresses<T>(source: Sources<T>, foreign: set<nat>, s: State<T>) returns (ev: Event)
    requires Inv(source, foreign, s) && !s.ctrlOpen && !s.dataClosed
    ensures Enabled(source, s, ev)
  {
    if s.enable && s.ins != [] {
      var c := s.ins[0].data;
      assert ChannelsOf(s.ins)[0] == c;
      ev := if Taken(s.taken, c) < |SourceOf(source, c)| then Receive(c) else InputClosed(c);
    } else {
      ev := Finish;
    }
  }

  /** Once control has closed the loop ends: the number of turns left is bounded by what the
      remaining inputs have left. */
  lemma {:induction false} ClosedJoinerTerminates<T>(source: Sources<T>, foreign: set<nat>, s: State<T>,
                                                     run: seq<Event>)
    requires Inv(source, foreign, s) && !s.ctrlOpen && !s.dataClosed
    requires IsRun(source, s, run)
    ensures var t := Run(source, s, run);
            && Inv(source, foreign, t) && !t.ctrlOpen
            && |run| <= Remaining(source, s) + 1
            && (t.dataClosed || |run| + Remaining(source, t) == Remaining(source, s))
    decreases |run|
  {
    UnreadIsNatural(source, s.taken, ChannelsOf(s.ins));
    if run != [] {
      var init, ev := run[..|run| - 1], run[|run| - 1];
      ClosedJoinerTerminates(source, foreign, s, init);
      var u := Run(source, s, init);
      StepKeepsInv(source, foreign, u, ev);
      TurnUsesUp(source, foreign, u, ev);
      UnreadIsNatural(source, u.taken, ChannelsOf(u.ins));
      UnreadIsNatural(source, Step(source, u, ev).taken, ChannelsOf(Step(source, u, ev).ins));
    }
  }

  // --- The goroutine ---

  /** A case given to Select. */
  datatype Case = ControlCase | InputCase(chan: nat)

  class Looper<T> {
    var ctrlOpen: bool
    var enable: bool
    var ins: seq<Stream>
    var data: seq<Item<T>>
    var dataClosed: bool
    var closed: set<nat>
    var panicked: bool
    ghost var taken: map<nat, nat>

    ghost function View(): State<T>
      reads this
    {
      State(ctrlOpen, enable, ins, data, dataClosed, closed, panicked, taken)
    }

    constructor (foreign: set<nat>)
      ensures View() == Initial(foreign)
    {
      ctrlOpen, enable, ins, data, dataClosed := true, true, [], [], false;
      closed, panicked, taken := foreign, false, map[];
    }

    method Add(s: Stream) returns (ok: bool)
      modifies this`ins
      ensures ins == old(ins) + [s] && ok
    {
      ins := ins + [s];
      return true;
    }

    method Remove(s: Stream) returns (removed: bool)
      modifies this`ins
      ensures ins == Without(old(ins), IndexOf(old(ins), s))
      ensures removed <==> s in old(ins)
    {
      for i := 0 to |ins|
        invariant ins == old(ins) && s !in ins[..i]
      {
        if ins[i] == s {
          assert i == IndexOf(ins, s);
          ins := ins[..i] + ins[i + 1..];
          return true;
        }
      }
      return false;
    }

    method RemoveChannel(chan: nat)
      modifies this`ins
      ensures ins == Without(old(ins), ChannelIndex(old(ins), chan))
    {
      for i := 0 to |ins|
        invariant ins == old(ins)
        invariant forall j :: 0 <= j < i ==> ins[j].data != chan
      {
        if ins[i].data == chan {
          assert i == ChannelIndex(ins, chan) == IndexOf(ins, ins[i]);
          var removed := Remove(ins[i]);
          return;
        }
      }
    }

    /** close() of a channel that is open. */
    method CloseControl(c: nat)
      requires c !in closed
      modifies this`closed
      ensures closed == old(closed) + {c}
    {
      closed := closed + {c};
    }

    /** Relay the close upstream. */
    method Close() returns (panic: bool)
      modifies this`closed
      ensures (closed, panic) == CloseEach(ins, old(closed))
    {
      for i := 0 to |ins|
        invariant CloseEach(ins[i..], closed) == CloseEach(ins, old(closed))
      {
        assert ins[i..][0] == ins[i] && ins[i..][1..] == ins[i + 1..];
        if ins[i].ctrl in closed {
          return true;
        }
        CloseControl(ins[i].ctrl);
      }
      return false;
    }

    /** The cases of one turn: the control channel while it is open, and the inputs' data channels
        while the joiner is enabled, but not otherwise. Without any the loop is done. */
    method SelectCases(ghost source: Sources<T>, ghost foreign: set<nat>) returns (cases: seq<Case>)
      requires Inv(source, foreign, View()) && !dataClosed && !panicked
      ensures ControlCase in cases <==> ctrlOpen
      ensures forall c :: InputCase(c) in cases <==> enable && c in ChannelsOf(ins)
      ensures cases == [] <==> !ctrlOpen && !(enable && ins != [])
      ensures forall c :: InputCase(c) in cases <==>
                Enabled(source, View(), Receive(c)) || Enabled(source, View(), InputClosed(c))
      ensures ControlCase in cases <==> Enabled(source, View(), ControlClosed)
      ensures cases == [] <==> Enabled(source, View(), Finish)
    {
      cases := if ctrlOpen then [ControlCase] else [];
      if enable {
        for i := 0 to |ins|
          invariant ControlCase in cases <==> ctrlOpen
          invariant forall c :: InputCase(c) in cases <==> c in ChannelsOf(ins)[..i]
          invariant cases == [] <==> !ctrlOpen && i == 0
        {
          assert ChannelsOf(ins)[..i + 1] == ChannelsOf(ins)[..i] + [ins[i].data];
          cases := cases + [InputCase(ins[i].data)];
        }
        assert ChannelsOf(ins)[..|ins|] == ChannelsOf(ins);
      }
    }

    /** One turn of the loop, for the case that Select chose, or the end of the loop. */
    method Turn(ghost source: Sources<T>, ghost foreign: set<nat>, ev: Event, received: Option<T>)
      requires Inv(source, foreign, View()) && Enabled(source, View(), ev)
      requires ev.Receive? ==> received == Some(SourceOf(source, ev.chan)[Taken(taken, ev.chan)])
      modifies this
      ensures View() == Step(source, old(View()), ev)
      ensures Inv(source, foreign, View())
    {
      StepKeepsInv(source, foreign, View(), ev);
      match ev {
        case AddStream(s) =>
          var ok := Add(s);
        case RemoveStream(s) =>
          var ok := Remove(s);
        case SetEnable(on) =>
          enable := on;
        case ControlClosed =>
          panicked := Close();
          if !panicked {
            ctrlOpen := false;
          }
        case Receive(c) =>
          data := data + [Item(c, received.value)];
          taken := taken[c := Taken(taken, c) + 1];
        case InputClosed(c) =>
          RemoveChannel(c);
        case Finish =>
          dataClosed := true;
      }
    }
  }
}
