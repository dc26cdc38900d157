/** What a joiner has done after any run, in terms of what Select returned: whether it is enabled,
    which streams it lists and what it has relayed. */
module JoinerRuns {
  import opened Sequences
  import opened Joiner

  function After<T>(source: Sources<T>, foreign: set<nat>, run: seq<Event>): State<T> {
    Run(source, Initial(foreign), run)
  }

  // --- On and off ---

  /** It was turned off at place i and not on again since. */
  ghost predicate OffSince(run: seq<Event>, i: nat) {
    && i < |run| && run[i] == SetEnable(false)
    && forall j :: i < j < |run| ==> run[j] != SetEnable(true)
  }

  /** The joiner is enabled unless it was turned off and not on again. */
  lemma {:induction false} EnabledExactly<T>(source: Sources<T>, foreign: set<nat>, run: seq<Event>)
    ensures After(source, foreign, run).enable <==> !exists i: nat :: OffSince(run, i)
    decreases |run|
  {
    if run != [] {
      var n := |run| - 1;
      EnabledExactly(source, foreign, run[..n]);
      assert OffSince(run, n) <==> run[n] == SetEnable(false);
      assert forall i: nat | i < n :: OffSince(run, i) <==> OffSince(run[..n], i) && run[n] != SetEnable(true);
    }
  }

  lemma {:induction false} AnyPrefix<T>(source: Sources<T>, foreign: set<nat>, run: seq<Event>, k: nat)
    requires IsRun(source, Initial<T>(foreign), run) && k <= |run|
    ensures IsRun(source, Initial<T>(foreign), run[..k])
    ensures k < |run| ==> Enabled(source, After(source, foreign, run[..k]), run[k])
    decreases |run|
  {
    if k < |run| {
      assert run[..|run| - 1][..k] == run[..k];
      AnyPrefix(source, foreign, run[..|run| - 1], k);
    } else {
      assert run[..k] == run;
    }
  }

  /** Between off and on again nothing is received from any input, and no close of one either. */
  lemma OffReceivesNothing<T>(source: Sources<T>, foreign: set<nat>, run: seq<Event>, i: nat, k: nat)
    requires IsRun(source, Initial<T>(foreign), run)
    requires i < k < |run| && run[i] == SetEnable(false) && forall j :: i < j < k ==> run[j] != SetEnable(true)
    ensures !run[k].Receive? && !run[k].InputClosed?
  {
    EnabledExactly<T>(source, foreign, run[..k]);
    assert OffSince(run[..k], i);
    AnyPrefix(source, foreign, run, k);
  }

  // --- What was relayed ---

  function Receives(run: seq<Event>, c: nat): nat {
    if run == [] then 0 else Receives(run[..|run| - 1], c) + if run[|run| - 1] == Receive(c) then 1 else 0
  }

  /** The channels received from, in order. */
  function ReceivedFrom(run: seq<Event>): seq<nat> {
    if run == [] then []
    else ReceivedFrom(run[..|run| - 1]) + if run[|run| - 1].Receive? then [run[|run| - 1].chan] else []
  }

  /** One element is relayed for each that was received, in the order of receiving. With
      RunsKeepInv, which says that those of each channel are its first ones in order, this is the
      whole output. */
  lemma {:induction false} RelayedExactly<T>(source: Sources<T>, foreign: set<nat>, run: seq<Event>, c: nat)
    requires IsRun(source, Initial<T>(foreign), run)
    ensures var s := After(source, foreign, run);
            Taken(s.taken, c) == Receives(run, c) && FromOf(s.output) == ReceivedFrom(run)
    decreases |run|
  {
    if run != [] {
      RelayedExactly(source, foreign, run[..|run| - 1], c);
    }
  }

  // --- What is closed ---

  lemma TurnCloses<T>(source: Sources<T>, s: State<T>, ev: Event)
    ensures var t := Step(source, s, ev);
            && (t.dataClosed <==> s.dataClosed || ev.Finish?)
            && (!ev.ControlClosed? ==> t.ctrlOpen == s.ctrlOpen && t.panicked == s.panicked && t.closed == s.closed)
  {
  }

  /** The output is open until the loop finishes. */
  lemma {:induction false} FinishedExactly<T>(source: Sources<T>, foreign: set<nat>, run: seq<Event>)
    ensures After(source, foreign, run).dataClosed <==> Finish in run
    decreases |run|
  {
    if run != [] {
      var n := |run| - 1;
      FinishedExactly(source, foreign, run[..n]);
      InLonger(run, Finish);
      TurnCloses(source, After(source, foreign, run[..n]), run[n]);
    }
  }

  /** Until control closes, it is open, and nothing upstream was closed. */
  lemma {:induction false} OpenUntilControlCloses<T>(source: Sources<T>, foreign: set<nat>, run: seq<Event>)
    requires ControlClosed !in run
    ensures var s := After(source, foreign, run);
            s.ctrlOpen && !s.panicked && s.closed == foreign
    decreases |run|
  {
    if run != [] {
      var n := |run| - 1;
      InLonger(run, ControlClosed);
      OpenUntilControlCloses(source, foreign, run[..n]);
      TurnCloses(source, After(source, foreign, run[..n]), run[n]);
    }
  }

  lemma ControlCloses<T>(source: Sources<T>, foreign: set<nat>, s: State<T>)
    requires Inv(source, foreign, s) && Enabled(source, s, ControlClosed)
    ensures var t := Step(source, s, ControlClosed);
            && (t.ctrlOpen <==> t.panicked)
            && (t.panicked <==> !CanClose(s.ins, foreign))
            && (!t.panicked ==> t.closed == foreign + Elements(CtrlsOf(s.ins)))
  {
    ClosePanicsExactly(s.ins, s.closed);
  }

  lemma StaysClosed<T>(source: Sources<T>, s: State<T>, ev: Event)
    requires Enabled(source, s, ev) && !s.ctrlOpen
    ensures var t := Step(source, s, ev);
            !t.ctrlOpen && !t.panicked && t.closed == s.closed
  {
  }

  /** A run ends at the panic, and otherwise what is closed with control stays so, and no more. */
  lemma {:induction false} ClosedForGood<T>(source: Sources<T>, foreign: set<nat>, run: seq<Event>, k: nat)
    requires IsRun(source, Initial<T>(foreign), run) && k <= |run|
    requires !After(source, foreign, run[..k]).ctrlOpen && !After(source, foreign, run[..k]).panicked
    ensures var s := After(source, foreign, run);
            !s.ctrlOpen && !s.panicked && s.closed == After(source, foreign, run[..k]).closed
    decreases |run|
  {
    if k < |run| {
      var n := |run| - 1;
      assert run[..n][..k] == run[..k];
      ClosedForGood(source, foreign, run[..n], k);
      StaysClosed(source, After(source, foreign, run[..n]), run[n]);
    } else {
      assert run[..k] == run;
    }
  }

  lemma ControlClosesAt<T>(source: Sources<T>, foreign: set<nat>, run: seq<Event>, i: nat)
    requires IsRun(source, Initial<T>(foreign), run) && i < |run| && run[i] == ControlClosed
    ensures var s, ins := After(source, foreign, run[..i + 1]), After(source, foreign, run[..i]).ins;
            && (s.ctrlOpen <==> s.panicked)
            && (s.panicked <==> !CanClose(ins, foreign))
            && (!s.panicked ==> s.closed == foreign + Elements(CtrlsOf(ins)))
  {
    AnyPrefix(source, foreign, run, i);
    RunsKeepInv(source, foreign, run[..i]);
    ControlCloses(source, foreign, After(source, foreign, run[..i]));
    OneMore(source, Initial<T>(foreign), run[..i], ControlClosed);
    assert run[..i + 1] == run[..i] + [ControlClosed];
  }

  /** Control closes once, and unless that panics, which ends the run, what is closed then, for good,
      is the control channels of the streams listed at that time. */
  lemma UpstreamClosedExactly<T>(source: Sources<T>, foreign: set<nat>, run: seq<Event>, i: nat)
    requires IsRun(source, Initial<T>(foreign), run) && i < |run| && run[i] == ControlClosed
    ensures var s, ins := After(source, foreign, run), After(source, foreign, run[..i]).ins;
            && (s.ctrlOpen <==> s.panicked)
            && (s.panicked <==> !CanClose(ins, foreign))
            && (!s.panicked ==> s.closed == foreign + Elements(CtrlsOf(ins)))
            && (s.panicked ==> i == |run| - 1)
  {
    ControlClosesAt(source, foreign, run, i);
    AnyPrefix(source, foreign, run, i + 1);
    if After(source, foreign, run[..i + 1]).panicked {
      assert run[..i + 1] == run;
    } else {
      ClosedForGood(source, foreign, run, i + 1);
    }
  }

  // --- Which streams are listed ---

  /** A removal or a close that this stream would answer to. */
  predicate Matches(ev: Event, st: Stream) {
    ev == RemoveStream(st) || (ev.InputClosed? && ev.chan == st.data)
  }

  /** The stream added at place i is still listed just before place k. */
  ghost predicate Listed(run: seq<Event>, i: nat, k: nat)
    requires k <= |run|
    decreases k, 0
  {
    i < k && run[i].AddStream? && forall j :: i < j < k ==> !Takes(run, j, i)
  }

  /** What comes at place j takes the stream added at place i off the list: of the streams listed
      that answer to it, that is the one added first. */
  ghost predicate Takes(run: seq<Event>, j: nat, i: nat)
    requires j < |run|
    decreases j, 1
  {
    && Listed(run, i, j) && Matches(run[j], run[i].s)
    && forall h: nat :: h < i && Listed(run, h, j) ==> !Matches(run[j], run[h].s)
  }

  lemma {:induction false} PrefixLists(run: seq<Event>, i: nat, k: nat)
    requires k < |run|
    ensures Listed(run, i, k) <==> Listed(run[..|run| - 1], i, k)
    decreases k
  {
    var init := run[..|run| - 1];
    forall j: nat | i < j < k
      ensures Takes(run, j, i) <==> Takes(init, j, i)
    {
      PrefixLists(run, i, j);
      forall h: nat | h < i
        ensures Listed(run, h, j) <==> Listed(init, h, j)
      {
        PrefixLists(run, h, j);
      }
    }
  }

  /** The places at which the streams listed were added, in order. */
  ghost predicate PlacesOf(places: seq<nat>, ins: seq<Stream>, run: seq<Event>) {
    && |places| == |ins|
    && (forall a, b :: 0 <= a < b < |places| ==> places[a] < places[b])
    && (forall a :: 0 <= a < |places| ==> Listed(run, places[a], |run|) && ins[a] == run[places[a]].s)
    && (forall i: nat :: Listed(run, i, |run|) ==> i in places)
  }

  /** A removal or close takes out the first entry that answers to it, if there is one. */
  lemma TurnTakes<T>(source: Sources<T>, s: State<T>, ev: Event) returns (first: nat)
    requires !ev.AddStream?
    ensures first <= |s.ins| && Step(source, s, ev).ins == if first < |s.ins| then RemoveAt(s.ins, first) else s.ins
    ensures first < |s.ins| ==> Matches(ev, s.ins[first])
    ensures forall m :: 0 <= m < first ==> !Matches(ev, s.ins[m])
  {
    if ev.RemoveStream? {
      first := IndexOf(s.ins, ev.s);
    } else if ev.InputClosed? {
      first := ChannelIndex(s.ins, ev.chan);
    } else {
      first := |s.ins|;
    }
  }

  lemma PlacesAfterAdd(was: seq<nat>, ins: seq<Stream>, run: seq<Event>)
    requires run != [] && PlacesOf(was, ins, run[..|run| - 1])
    requires run[|run| - 1].AddStream?
    ensures PlacesOf(was + [|run| - 1], ins + [run[|run| - 1].s], run)
  {
    var n := |run| - 1;
    forall i: nat
      ensures Listed(run, i, n + 1) <==> Listed(run[..n], i, n) || i == n
    {
      PrefixLists(run, i, n);
    }
    assert (was + [n])[|was|] == n;
    assert forall i: nat :: i in was ==> i in was + [n];
  }

  lemma ListedAreInPlaces(was: seq<nat>, ins: seq<Stream>, run: seq<Event>, h: nat)
    requires run != [] && PlacesOf(was, ins, run[..|run| - 1])
    ensures Listed(run, h, |run| - 1) <==> h in was
  {
    PrefixLists(run, h, |run| - 1);
  }

  /** Nothing that was added earlier answers. */
  lemma NoneEarlier(was: seq<nat>, ins: seq<Stream>, run: seq<Event>, first: nat, h: nat)
    requires run != [] && PlacesOf(was, ins, run[..|run| - 1])
    requires first < |ins| && forall m :: 0 <= m < first ==> !Matches(run[|run| - 1], ins[m])
    requires h in was && h < was[first]
    ensures !Matches(run[|run| - 1], run[h].s)
  {
    var m :| 0 <= m < |was| && was[m] == h;
    assert m < first && ins[m] == run[..|run| - 1][was[m]].s;
  }

  lemma FirstIsTaken(was: seq<nat>, ins: seq<Stream>, run: seq<Event>, first: nat)
    requires run != [] && PlacesOf(was, ins, run[..|run| - 1])
    requires first < |ins| && Matches(run[|run| - 1], ins[first])
    requires forall m :: 0 <= m < first ==> !Matches(run[|run| - 1], ins[m])
    ensures Takes(run, |run| - 1, was[first])
  {
    var n := |run| - 1;
    ListedAreInPlaces(was, ins, run, was[first]);
    forall h: nat | h < was[first] && Listed(run, h, n)
      ensures !Matches(run[n], run[h].s)
    {
      ListedAreInPlaces(was, ins, run, h);
      NoneEarlier(was, ins, run, first, h);
    }
  }

  lemma ListedNext(run: seq<Event>, i: nat, n: nat)
    requires n < |run|
    ensures Listed(run, i, n + 1) <==> (i == n && run[n].AddStream?) || (Listed(run, i, n) && !Takes(run, n, i))
  {
  }

  lemma ListedAfterTake(was: seq<nat>, ins: seq<Stream>, run: seq<Event>, first: nat, i: nat)
    requires run != [] && PlacesOf(was, ins, run[..|run| - 1])
    requires first < |ins| && Matches(run[|run| - 1], ins[first])
    requires forall m :: 0 <= m < first ==> !Matches(run[|run| - 1], ins[m])
    ensures Listed(run, i, |run|) <==> i in RemoveAt(was, first)
  {
    var n := |run| - 1;
    FirstIsTaken(was, ins, run, first);
    ListedAreInPlaces(was, ins, run, i);
    ListedNext(run, i, n);
    if i == was[first] {
      GoneFromPlaces(was, first);
    } else {
      StillListed(was, first, i);
      OneIsTaken(run, n, was[first], i);
    }
  }

  lemma GoneFromPlaces(was: seq<nat>, first: nat)
    requires first < |was| && forall a, b :: 0 <= a < b < |was| ==> was[a] < was[b]
    ensures was[first] !in RemoveAt(was, first)
  {
  }

  lemma OneIsTaken(run: seq<Event>, n: nat, h: nat, i: nat)
    requires n < |run| && Takes(run, n, h) && h != i
    ensures !Takes(run, n, i)
  {
  }

  lemma PlacesAfterTake(was: seq<nat>, ins: seq<Stream>, run: seq<Event>, first: nat)
    requires run != [] && PlacesOf(was, ins, run[..|run| - 1])
    requires first < |ins| && Matches(run[|run| - 1], ins[first])
    requires forall m :: 0 <= m < first ==> !Matches(run[|run| - 1], ins[m])
    ensures PlacesOf(RemoveAt(was, first), RemoveAt(ins, first), run)
  {
    var places := RemoveAt(was, first);
    forall i: nat
      ensures Listed(run, i, |run|) <==> i in places
    {
      ListedAfterTake(was, ins, run, first, i);
    }
    forall a | 0 <= a < |places|
      ensures Listed(run, places[a], |run|)
    {
      assert places[a] in places;
    }
  }

  lemma PlacesStay(was: seq<nat>, ins: seq<Stream>, run: seq<Event>)
    requires run != [] && PlacesOf(was, ins, run[..|run| - 1])
    requires !run[|run| - 1].AddStream? && forall m :: 0 <= m < |ins| ==> !Matches(run[|run| - 1], ins[m])
    ensures PlacesOf(was, ins, run)
  {
    var n := |run| - 1;
    forall i: nat
      ensures Listed(run, i, n) <==> i in was
      ensures Listed(run, i, n + 1) <==> i in was
    {
      PrefixLists(run, i, n);
    }
  }

  /** The list holds exactly the streams that were added and not taken off since, in the order of
      their adding, each as often. */
  lemma {:induction false} ListedExactly<T>(source: Sources<T>, foreign: set<nat>, run: seq<Event>)
    returns (places: seq<nat>)
    ensures PlacesOf(places, After(source, foreign, run).ins, run)
    decreases |run|
  {
    if run == [] {
      places := [];
    } else {
      var n := |run| - 1;
      var s := After(source, foreign, run[..n]);
      var was := ListedExactly(source, foreign, run[..n]);
      if run[n].AddStream? {
        places := was + [n];
        PlacesAfterAdd(was, s.ins, run);
      } else {
        var first := TurnTakes(source, s, run[n]);
        if first < |s.ins| {
          places := RemoveAt(was, first);
          PlacesAfterTake(was, s.ins, run, first);
        } else {
          places := was;
          PlacesStay(was, s.ins, run);
        }
      }
    }
  }
}
