/** What Join's loop has done after any run, in terms of what Select returned. */
module JoinRuns {
  import opened Sequences
  import opened Joiner
  import opened Join

  /** A case is disabled by the close of its own input and by nothing else. */
  lemma {:induction false} CasesExactly<T>(ins: seq<Stream>, source: Sources<T>, foreign: set<nat>,
                                           run: seq<JoinEvent>, i: nat)
    requires IsJoinRun(ins, source, foreign, run) && i < |ins|
    ensures After(ins, source, foreign, run).inputCases[i] <==> InputClose(i) !in run
    decreases |run|
  {
    if run != [] {
      var n := |run| - 1;
      CasesExactly(ins, source, foreign, run[..n], i);
      InLonger(run, InputClose(i));
      TurnKeepsCase(ins, source, After(ins, source, foreign, run[..n]), run[n], i);
    }
  }

  lemma TurnKeepsCase<T>(ins: seq<Stream>, source: Sources<T>, s: JoinState<T>, ev: JoinEvent, i: nat)
    requires |s.inputCases| == |ins| && i < |ins| && Ready(ins, source, s, ev)
    ensures Turn(ins, source, s, ev).inputCases[i] <==> s.inputCases[i] && ev != InputClose(i)
  {
  }

  function CountOf(run: seq<JoinEvent>, counts: JoinEvent -> bool): nat {
    if run == [] then 0
    else CountOf(run[..|run| - 1], counts) + if counts(run[|run| - 1]) then 1 else 0
  }

  /** The inputs left to count: one less for each close, and for each message on control. */
  lemma {:induction false} ActiveExactly<T>(ins: seq<Stream>, source: Sources<T>, foreign: set<nat>,
                                            run: seq<JoinEvent>)
    requires IsJoinRun(ins, source, foreign, run)
    ensures After(ins, source, foreign, run).activeInputs
         == |ins| - CountOf(run, (ev: JoinEvent) => ev.InputClose? || ev.ControlMessage?)
    decreases |run|
  {
    if run != [] {
      ActiveExactly(ins, source, foreign, run[..|run| - 1]);
    }
  }

  function ReceivedFrom(ins: seq<Stream>, run: seq<JoinEvent>): seq<nat> {
    if run == [] then []
    else
      var ev := run[|run| - 1];
      ReceivedFrom(ins, run[..|run| - 1]) + if ev.Input? && ev.i < |ins| then [ins[ev.i].data] else []
  }

  /** One element is relayed for each that was received, in the order of receiving. */
  lemma {:induction false} RelayedExactly<T>(ins: seq<Stream>, source: Sources<T>, foreign: set<nat>,
                                             run: seq<JoinEvent>)
    requires IsJoinRun(ins, source, foreign, run)
    ensures FromOf(After(ins, source, foreign, run).output) == ReceivedFrom(ins, run)
    decreases |run|
  {
    if run != [] {
      var n := |run| - 1;
      RelayedExactly(ins, source, foreign, run[..n]);
      TurnReceives(ins, source, After(ins, source, foreign, run[..n]), run[n]);
    }
  }

  /** The control case is gone after a message, or after a close that did not panic; and after such
      a close, and only then, the control channels of all inputs are closed. */
  lemma {:induction false} ControlExactly<T>(ins: seq<Stream>, source: Sources<T>, foreign: set<nat>,
                                             run: seq<JoinEvent>)
    requires IsJoinRun(ins, source, foreign, run)
    ensures var s := After(ins, source, foreign, run);
            && (s.messaged <==> ControlMessage in run)
            && (s.panicked <==> ControlClose in run && !CanClose(ins, foreign))
            && (s.ctrlCase <==> ControlMessage !in run && (ControlClose in run ==> s.panicked))
            && (!s.panicked ==>
                  s.closed == if ControlClose in run then foreign + Elements(CtrlsOf(ins)) else foreign)
    decreases |run|
  {
    if run != [] {
      var n := |run| - 1;
      ControlExactly(ins, source, foreign, run[..n]);
      InLonger(run, ControlMessage);
      InLonger(run, ControlClose);
      ClosePanicsExactly(ins, foreign);
    }
  }
}
