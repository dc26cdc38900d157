/** What a repeater has done after any run, in terms of what Select returned: which outputs are
    there, what each was sent and whether its channel is closed. */
module RepeaterRuns {
  import opened Sequences
  import opened Repeater

  /** The elements received from place i of a run to place j, in order. */
  function ElementsBetween<T>(run: seq<Event<T>>, i: nat, j: nat): seq<T>
    requires j <= |run|
  {
    if j <= i then [] else ElementsBetween(run, i, j - 1) + if run[j - 1].Element? then [run[j - 1].e] else []
  }

  /** How many outputs were made before place j. */
  function NewStreams<T>(run: seq<Event<T>>, j: nat): nat
    requires j <= |run|
  {
    if j == 0 then 0 else NewStreams(run, j - 1) + if run[j - 1].NewStream? then 1 else 0
  }

  lemma {:induction false} SamePrefix<T>(run: seq<Event<T>>, longer: seq<Event<T>>, i: nat, j: nat)
    requires j <= |run| <= |longer| && forall k :: 0 <= k < j ==> run[k] == longer[k]
    ensures ElementsBetween(run, i, j) == ElementsBetween(longer, i, j)
    ensures NewStreams(run, j) == NewStreams(longer, j)
  {
    if j > 0 {
      SamePrefix(run, longer, i, j - 1);
    }
  }

  /** The output made at place i: channels are numbered as they are made, two for each output. */
  function OutputAt<T>(run: seq<Event<T>>, i: nat): Output
    requires i < |run|
  {
    var k := NewStreams(run, i);
    Output(2 * k, 2 * k + 1)
  }

  /** An output ends when its own control channel closes, or with the input. */
  predicate Ends<T>(ev: Event<T>, o: Output) {
    ev.InputClosed? || (ev.OutputClosed? && ev.ctrl == o.ctrl)
  }

  /** The output was made at place i and nothing before place j ended it. */
  ghost predicate LivesUntil<T>(run: seq<Event<T>>, i: nat, j: nat, o: Output) {
    && i < j <= |run| && run[i].NewStream? && o == OutputAt(run, i)
    && forall k :: i < k < j ==> !Ends(run[k], o)
  }

  // --- One turn ---

  ghost predicate InOrder(out: seq<Output>) {
    forall i, j :: 0 <= i < j < |out| ==> out[i].ctrl < out[j].ctrl
  }

  lemma RemovedExactly(out: seq<Output>, limit: nat, c: nat, o: Output)
    requires DistinctOutputs(out, limit) && c in CtrlOf(out)
    ensures var i := Find(out, c);
            && i < |out|
            && (o in RemoveAt(out, i) <==> o in out && o.ctrl != c)
            && (o in out && o.ctrl == c ==> o == out[i])
  {
    var i := Find(out, c);
    var rest := RemoveAt(out, i);
    if o in out && o.ctrl != c {
      var j :| 0 <= j < |out| && out[j] == o;
      assert rest[if j < i then j else j - 1] == o;
    }
  }

  lemma OutputClosedEnds<T>(s: State<T>, c: nat, o: Output)
    requires Channels(s) && c in CtrlOf(s.out)
    ensures var t := Step(s, OutputClosed(c));
            && (o in t.out <==> o in s.out && o.ctrl != c)
            && (o in s.out && o.ctrl == c ==> o.data in t.closed)
            && s.closed <= t.closed
            && (InOrder(s.out) ==> InOrder(t.out))
  {
    RemovedExactly(s.out, s.nextChan, c, o);
  }

  /** Exactly the outputs that the turn ends go, and the others keep their order. */
  lemma TurnEnds<T>(s: State<T>, ev: Event<T>, o: Output)
    requires Channels(s) && Enabled(s, ev)
    ensures var t := Step(s, ev);
            && (o in t.out <==>
                  (ev.NewStream? && o == Output(s.nextChan, s.nextChan + 1)) || (o in s.out && !Ends(ev, o)))
            && (o in s.out && Ends(ev, o) ==> o.data in t.closed)
            && s.closed <= t.closed
            && (InOrder(s.out) ==> InOrder(t.out))
  {
    match ev
    case OutputClosed(c) => OutputClosedEnds(s, c, o);
    case InputClosed =>
    case NewStream =>
    case Element(_) =>
    case ControlClosed =>
    case OutputMessage(_) =>
  }

  /** An output is sent each element while it is there, and nothing once its channel is closed. */
  lemma TurnSends<T>(s: State<T>, ev: Event<T>, o: Output)
    requires Channels(s) && Enabled(s, ev) && o.data in s.sent
    ensures var t := Step(s, ev);
            && o.data in t.sent
            && (o in s.out ==> t.sent[o.data] == s.sent[o.data] + if ev.Element? then [ev.e] else [])
            && (o.data in s.closed || !ev.Element? ==> t.sent[o.data] == s.sent[o.data])
  {
  }

  lemma OutputsAreOpen<T>(s: State<T>, o: Output)
    requires Channels(s) && o in s.out
    ensures o.data !in s.closed
  {
  }

  // --- Whole runs ---

  lemma RunPrefix<T>(run: seq<Event<T>>)
    requires IsRun(run) && run != []
    ensures var n := |run| - 1;
            IsRun(run[..n]) && Enabled(Run(run[..n]), run[n]) && Channels(Run(run[..n]))
  {
    RunsKeepInv(run[..|run| - 1]);
  }

  lemma PrefixLives<T>(run: seq<Event<T>>, i: nat, j: nat, o: Output)
    requires j < |run|
    ensures LivesUntil(run, i, j, o) <==> LivesUntil(run[..|run| - 1], i, j, o)
  {
    if i < j {
      SamePrefix(run[..|run| - 1], run, i, i);
    }
  }

  /** Who lives to the end of a run. */
  lemma LivesToEnd<T>(run: seq<Event<T>>, i: nat, o: Output)
    requires run != []
    ensures var n := |run| - 1;
            LivesUntil(run, i, |run|, o)
            <==> if i == n then run[n].NewStream? && o == OutputAt(run, n)
                 else LivesUntil(run[..n], i, n, o) && !Ends(run[n], o)
  {
    PrefixLives(run, i, |run| - 1, o);
  }

  lemma TurnControls<T>(s: State<T>, ev: Event<T>)
    ensures Step(s, ev).ctrlOpen <==> s.ctrlOpen && !ev.ControlClosed?
    ensures Step(s, ev).upstreamClosed <==> s.upstreamClosed || ev.ControlClosed?
    ensures Step(s, ev).inputOpen <==> s.inputOpen && !ev.InputClosed?
  {
  }

  /** The control channel and upstream are open until control closes. */
  lemma {:induction false} ControlCloses<T>(run: seq<Event<T>>)
    ensures Run(run).ctrlOpen <==> ControlClosed !in run
    ensures Run(run).upstreamClosed <==> ControlClosed in run
    decreases |run|
  {
    if run != [] {
      var n := |run| - 1;
      ControlCloses(run[..n]);
      InLonger(run, ControlClosed);
      TurnControls(Run(run[..n]), run[n]);
    }
  }

  lemma {:induction false} InputCloses<T>(run: seq<Event<T>>)
    ensures Run(run).inputOpen <==> InputClosed !in run
    decreases |run|
  {
    if run != [] {
      var n := |run| - 1;
      InputCloses(run[..n]);
      InLonger(run, InputClosed);
      TurnControls(Run(run[..n]), run[n]);
    }
  }

  /** What was received, and how far channels are numbered. */
  lemma {:induction false} InputAndChannels<T>(run: seq<Event<T>>)
    ensures Run(run).input == ElementsBetween(run, 0, |run|)
    ensures Run(run).nextChan == 2 * NewStreams(run, |run|)
    decreases |run|
  {
    if run != [] {
      var n := |run| - 1;
      InputAndChannels(run[..n]);
      SamePrefix(run[..n], run, 0, n);
      TurnCounts(Run(run[..n]), run[n]);
    }
  }

  lemma TurnCounts<T>(s: State<T>, ev: Event<T>)
    ensures Step(s, ev).input == s.input + if ev.Element? then [ev.e] else []
    ensures Step(s, ev).nextChan == s.nextChan + if ev.NewStream? then 2 else 0
  {
  }

  /** An output is there from its making until its control channel or the input closes, and there
      are no others. */
  lemma {:induction false} OutputsExactly<T>(run: seq<Event<T>>, o: Output)
    requires IsRun(run)
    ensures o in Run(run).out <==> exists i: nat :: LivesUntil(run, i, |run|, o)
    decreases |run|
  {
    if run != [] {
      var n := |run| - 1;
      RunPrefix(run);
      OutputsExactly(run[..n], o);
      LastTurn(run, o);
      if i: nat :| LivesUntil(run[..n], i, n, o) && !Ends(run[n], o) {
        LivesToEnd(run, i, o);
      }
      if i: nat :| LivesUntil(run, i, |run|, o) {
        LivesToEnd(run, i, o);
      }
      LivesToEnd(run, n, o);
    }
  }

  /** What the last turn of a run makes of the outputs. */
  lemma LastTurn<T>(run: seq<Event<T>>, o: Output)
    requires IsRun(run) && run != []
    ensures var n := |run| - 1;
            o in Run(run).out
            <==> (run[n].NewStream? && o == OutputAt(run, n)) || (o in Run(run[..n]).out && !Ends(run[n], o))
  {
    var n := |run| - 1;
    RunPrefix(run);
    InputAndChannels(run[..n]);
    SamePrefix(run[..n], run, 0, n);
    OneTurn(Run(run[..n]), Run(run), run[n], OutputAt(run, n), o);
  }

  lemma OneTurn<T>(s: State<T>, t: State<T>, ev: Event<T>, made: Output, o: Output)
    requires Channels(s) && Enabled(s, ev) && t == Step(s, ev) && made == Output(s.nextChan, s.nextChan + 1)
    ensures o in t.out <==> (ev.NewStream? && o == made) || (o in s.out && !Ends(ev, o))
  {
    TurnEnds(s, ev, o);
  }

  /** The outputs are in the order of their making. */
  lemma {:induction false} OutputsInOrder<T>(run: seq<Event<T>>)
    requires IsRun(run)
    ensures InOrder(Run(run).out)
    decreases |run|
  {
    if run != [] {
      var n := |run| - 1;
      RunPrefix(run);
      OutputsInOrder(run[..n]);
      TurnEnds(Run(run[..n]), run[n], Output(0, 0));
    }
  }

  /** This is all that was ever sent to the output. */
  ghost predicate HasSent<T>(s: State<T>, o: Output, all: seq<T>) {
    o.data in s.sent && s.sent[o.data] == all
  }

  lemma NothingSentYet<T>(run: seq<Event<T>>, o: Output)
    requires run != [] && run[|run| - 1].NewStream? && o == OutputAt(run, |run| - 1)
    ensures HasSent(Run(run), o, [])
  {
    var n := |run| - 1;
    InputAndChannels(run[..n]);
    SamePrefix(run[..n], run, 0, n);
    NewOutputIsEmpty(Run(run[..n]), Run(run), o);
  }

  lemma NewOutputIsEmpty<T>(s: State<T>, t: State<T>, o: Output)
    requires t == Step(s, NewStream) && o == Output(s.nextChan, s.nextChan + 1)
    ensures HasSent(t, o, [])
  {
  }

  /** What an output that is still there has been sent. */
  lemma {:induction false} SentSoFar<T>(run: seq<Event<T>>, i: nat, o: Output)
    requires IsRun(run) && LivesUntil(run, i, |run|, o)
    ensures HasSent(Run(run), o, ElementsBetween(run, i, |run|))
    decreases |run|
  {
    var n := |run| - 1;
    if i == n {
      NothingSentYet(run, o);
    } else {
      RunPrefix(run);
      LivesToEnd(run, i, o);
      SentSoFar(run[..n], i, o);
      SamePrefix(run[..n], run, i, n);
      LivingIsThere(run[..n], i, o);
      SentOneMore(Run(run[..n]), Run(run), run[n], o, ElementsBetween(run, i, |run|));
    }
  }

  lemma LivingIsThere<T>(run: seq<Event<T>>, i: nat, o: Output)
    requires IsRun(run) && LivesUntil(run, i, |run|, o)
    ensures o in Run(run).out
  {
    OutputsExactly(run, o);
  }

  lemma SentOneMore<T>(s: State<T>, t: State<T>, ev: Event<T>, o: Output, all: seq<T>)
    requires Channels(s) && Enabled(s, ev) && t == Step(s, ev)
    requires o in s.out && o.data in s.sent && all == s.sent[o.data] + if ev.Element? then [ev.e] else []
    ensures HasSent(t, o, all)
  {
    TurnSends(s, ev, o);
  }

  /** What one that ends now was sent. */
  lemma SentAtEnd<T>(run: seq<Event<T>>, i: nat, j: nat, o: Output)
    requires IsRun(run) && j == |run| - 1 && LivesUntil(run, i, j, o) && Ends(run[j], o)
    ensures o.data in Run(run).sent && Run(run).sent[o.data] == ElementsBetween(run, i, j)
    ensures o.data in Run(run).closed
  {
    RunPrefix(run);
    PrefixLives(run, i, j, o);
    SentSoFar(run[..j], i, o);
    SamePrefix(run[..j], run, i, j);
    OutputsExactly(run[..j], o);
    TurnSends(Run(run[..j]), run[j], o);
    TurnEnds(Run(run[..j]), run[j], o);
  }

  /** A channel that is closed stays closed, with nothing more sent on it. */
  lemma {:induction false} ClosedForGood<T>(run: seq<Event<T>>, j: nat, o: Output, all: seq<T>)
    requires IsRun(run) && j <= |run| && HasEnded(Run(run[..j]), o, all)
    ensures HasEnded(Run(run), o, all)
    decreases |run|
  {
    var n := |run| - 1;
    if j == |run| {
      assert run[..j] == run;
    } else {
      assert run[..n][..j] == run[..j];
      RunPrefix(run);
      ClosedForGood(run[..n], j, o, all);
      EndedForGood(Run(run[..n]), Run(run), run[n], o, all);
    }
  }

  /** The output's channel is closed, and this is all that was sent on it. */
  ghost predicate HasEnded<T>(s: State<T>, o: Output, all: seq<T>) {
    o.data in s.closed && HasSent(s, o, all)
  }

  lemma EndedForGood<T>(s: State<T>, t: State<T>, ev: Event<T>, o: Output, all: seq<T>)
    requires Channels(s) && Enabled(s, ev) && t == Step(s, ev) && HasEnded(s, o, all)
    ensures HasEnded(t, o, all)
  {
    TurnSends(s, ev, o);
    TurnEnds(s, ev, o);
  }

  lemma {:induction false} AnyPrefix<T>(run: seq<Event<T>>, j: nat)
    requires IsRun(run) && j <= |run|
    ensures IsRun(run[..j])
    decreases |run|
  {
    if j == |run| {
      assert run[..j] == run;
    } else {
      assert run[..|run| - 1][..j] == run[..j];
      AnyPrefix(run[..|run| - 1], j);
    }
  }

  lemma LivesInPrefix<T>(run: seq<Event<T>>, i: nat, j: nat, o: Output)
    requires LivesUntil(run, i, j, o) && j < |run|
    ensures LivesUntil(run[..j + 1], i, j, o)
    ensures ElementsBetween(run[..j + 1], i, j) == ElementsBetween(run, i, j)
  {
    SamePrefix(run[..j + 1], run, i, i);
    SamePrefix(run[..j + 1], run, i, j);
  }

  lemma SentAtPlace<T>(run: seq<Event<T>>, i: nat, j: nat, o: Output)
    requires IsRun(run) && LivesUntil(run, i, j, o) && j < |run| && Ends(run[j], o)
    ensures HasEnded(Run(run[..j + 1]), o, ElementsBetween(run, i, j))
  {
    AnyPrefix(run, j + 1);
    LivesInPrefix(run, i, j, o);
    SentAtEnd(run[..j + 1], i, j, o);
  }

  /** What one that has ended was sent. */
  lemma SentBeforeEnd<T>(run: seq<Event<T>>, i: nat, j: nat, o: Output)
    requires IsRun(run) && LivesUntil(run, i, j, o) && j < |run| && Ends(run[j], o)
    ensures HasEnded(Run(run), o, ElementsBetween(run, i, j))
  {
    SentAtPlace(run, i, j, o);
    ClosedForGood(run, j + 1, o, ElementsBetween(run, i, j));
  }

  lemma LivingIsOpen<T>(run: seq<Event<T>>, i: nat, o: Output)
    requires IsRun(run) && LivesUntil(run, i, |run|, o)
    ensures o.data !in Run(run).closed
  {
    OutputsExactly(run, o);
    RunsKeepInv(run);
    OutputsAreOpen(Run(run), o);
  }

  /** An output made at place i that lives until place j has been sent exactly the elements received
      from i to j, and its channel is closed exactly when something ended it there. */
  lemma OutputReceives<T>(run: seq<Event<T>>, i: nat, j: nat, o: Output)
    requires IsRun(run) && LivesUntil(run, i, j, o) && (j < |run| ==> Ends(run[j], o))
    ensures var s := Run(run);
            && o.data in s.sent && s.sent[o.data] == ElementsBetween(run, i, j)
            && (o.data in s.closed <==> j < |run|)
  {
    if j < |run| {
      SentBeforeEnd(run, i, j, o);
    } else {
      LivingIsOpen(run, i, o);
      SentSoFar(run, i, o);
    }
  }

  lemma TurnMakes<T>(s: State<T>, ev: Event<T>, d: nat)
    requires d in Step(s, ev).sent
    ensures d in s.sent || (ev.NewStream? && d == s.nextChan + 1)
  {
  }

  /** Every channel that anything was ever sent on is that of an output made in the run. */
  lemma {:induction false} ChannelsAreOutputs<T>(run: seq<Event<T>>, d: nat)
    requires d in Run(run).sent
    ensures exists i: nat :: i < |run| && run[i].NewStream? && OutputAt(run, i).data == d
    decreases |run|
  {
    var n := |run| - 1;
    InputAndChannels(run[..n]);
    SamePrefix(run[..n], run, 0, n);
    TurnMakes(Run(run[..n]), run[n], d);
    if d in Run(run[..n]).sent {
      ChannelsAreOutputs(run[..n], d);
      var i: nat :| i < n && run[..n][i].NewStream? && OutputAt(run[..n], i).data == d;
      SamePrefix(run[..n], run, 0, i);
      assert run[i].NewStream?;
    } else {
      assert OutputAt(run, n).data == d;
    }
  }
}
