/** What the event monitor's tables hold after any sequence of registrations and unregistrations, in
    terms of what was asked for and what the kernel answered. */
module MonitorRuns {
  import opened Sequences
  import opened Wrappers
  import opened Monitor

  /** The kernel refused nothing: the tracepoint's id was read, every group was opened, with its
      filter if there was one, and every descriptor has a stream id. */
  ghost predicate Granted(r: Registration, a: Answers) {
    && a.tracepoint.Some?
    && |a.streams| == |a.opens|
    && forall k :: 0 <= k < |a.opens| ==>
         a.opens[k].Opened? && (r.filtered ==> a.opens[k].filterOk) && a.streams[k].Some?
  }

  lemma GrantedIsSuccess(r: Registration, a: Answers)
    ensures Granted(r, a) <==> Succeeds(r, a)
  {
  }

  /** What the tables hold of an event is what was asked for and answered: its name and kind; its
      descriptors, in order, each with its index and its stream; and each stream with the event's id
      and the attribute asked for. */
  ghost predicate RegisteredAs(s: State, e: nat, r: Registration, a: Answers)
    requires Granted(r, a)
  {
    && e in s.events
    && s.events[e].name == r.name && s.events[e].kind == r.kind
    && |s.events[e].fds| == |a.opens|
    && forall k :: 0 <= k < |a.opens| ==> StreamRecorded(s, e, s.events[e].fds[k], k, r, a)
  }

  ghost predicate StreamRecorded(s: State, e: nat, fd: int, k: nat, r: Registration, a: Answers)
    requires Granted(r, a) && k < |a.opens|
  {
    var id := a.streams[k].value;
    && fd == a.opens[k].fd && fd in s.openFds
    && fd in s.eventfds && s.eventfds[fd] == k
    && fd in s.eventids && s.eventids[fd] == id
    && id in s.attrs && s.attrs[id].config == a.tracepoint.value && s.attrs[id].disabled == r.disabled
    && id in s.ids && s.ids[id] == e
  }

  // --- One command ---

  lemma {:induction false} IndicesAt(fds: seq<int>, n: nat, k: nat)
    requires k < n <= |fds| && Distinct(fds)
    ensures fds[k] in Indices(fds, n) && Indices(fds, n)[fds[k]] == k
  {
    if k < n - 1 {
      IndicesAt(fds, n - 1, k);
    }
  }

  lemma CommitRecords(s: State, event: RegisteredEvent, attr: EventAttr, m: map<int, nat>, k: nat,
                      r: Registration, a: Answers)
    requires Granted(r, a) && k < |event.fds| == |a.opens| && Distinct(event.fds) && m.Keys == Elements(event.fds)
    requires event.fds[k] == a.opens[k].fd && m[event.fds[k]] == a.streams[k].value
    requires attr == EventAttr(a.tracepoint.value, r.disabled)
    ensures StreamRecorded(Commit(s, event, attr, m), s.nextEventID, event.fds[k], k, r, a)
  {
    IndicesAt(event.fds, |event.fds|, k);
    assert event.fds[k] in m && m[event.fds[k]] in IdsIn(m);
  }

  lemma CommitRecordsAll(s: State, event: RegisteredEvent, attr: EventAttr, r: Registration, a: Answers)
    requires Granted(r, a) && event == RegisteredEvent(r.name, FdsOf(a.opens), r.kind) && Distinct(event.fds)
    requires attr == EventAttr(a.tracepoint.value, r.disabled)
    ensures RegisteredAs(Commit(s, event, attr, Streams(event.fds, a.streams, |event.fds|)), s.nextEventID, r, a)
  {
    var m := Streams(event.fds, a.streams, |event.fds|);
    FirstOfAll(event.fds);
    forall k | 0 <= k < |event.fds|
      ensures StreamRecorded(Commit(s, event, attr, m), s.nextEventID, event.fds[k], k, r, a)
    {
      StreamsAt(event.fds, a.streams, |event.fds|, k);
      CommitRecords(s, event, attr, m, k, r, a);
    }
  }

  lemma RegisterRecords(s: State, r: Registration, a: Answers)
    requires Honest(s, a) && Granted(r, a)
    ensures RegisteredAs(Register(s, r, a), s.nextEventID, r, a)
  {
    FdsAreNew(s, a);
    CommitRecordsAll(s, RegisteredEvent(r.name, FdsOf(a.opens), r.kind),
                     EventAttr(a.tracepoint.value, r.disabled), r, a);
  }

  /** A registration, granted or not, leaves what is held of every other event as it is. */
  lemma RegisterKeepsOthers(s: State, base: set<int>, r: Registration, a: Answers,
                            e: nat, r0: Registration, a0: Answers)
    requires Consistent(s, base) && Honest(s, a) && Granted(r0, a0) && RegisteredAs(s, e, r0, a0)
    ensures RegisteredAs(Register(s, r, a), e, r0, a0)
  {
    if Succeeds(r, a) {
      var fds := FdsOf(a.opens);
      HonestIsFresh(s, r, a);
      CommitKeepsOthers(s, base, RegisteredEvent(r.name, fds, r.kind), EventAttr(a.tracepoint.value, r.disabled),
                        Streams(fds, a.streams, |fds|), e, r0, a0);
    } else {
      DecodersAreNotRecorded(s, Register(s, r, a).decoders, e, r0, a0);
    }
  }

  lemma DecodersAreNotRecorded(s: State, decoders: map<string, nat>, e: nat, r0: Registration, a0: Answers)
    requires Granted(r0, a0) && RegisteredAs(s, e, r0, a0)
    ensures RegisteredAs(s.(decoders := decoders), e, r0, a0)
  {
    forall k | 0 <= k < |a0.opens|
      ensures StreamRecorded(s.(decoders := decoders), e, s.events[e].fds[k], k, r0, a0)
    {
      assert StreamRecorded(s, e, s.events[e].fds[k], k, r0, a0);
    }
  }

  lemma CommitKeepsOthers(s: State, base: set<int>, event: RegisteredEvent, attr: EventAttr, m: map<int, nat>,
                          e: nat, r0: Registration, a0: Answers)
    requires Consistent(s, base) && Fresh(s, event.fds, m)
    requires Granted(r0, a0) && RegisteredAs(s, e, r0, a0)
    ensures RegisteredAs(Commit(s, event, attr, m), e, r0, a0)
  {
    forall k | 0 <= k < |a0.opens|
      ensures StreamRecorded(Commit(s, event, attr, m), e, s.events[e].fds[k], k, r0, a0)
    {
      CommitKeepsStream(s, base, event, attr, m, e, s.events[e].fds[k], k, r0, a0);
    }
  }

  lemma CommitKeepsStream(s: State, base: set<int>, event: RegisteredEvent, attr: EventAttr, m: map<int, nat>,
                          e: nat, fd: int, k: nat, r0: Registration, a0: Answers)
    requires KernelAgrees(s, base) && Fresh(s, event.fds, m)
    requires Granted(r0, a0) && k < |a0.opens| && StreamRecorded(s, e, fd, k, r0, a0)
    ensures StreamRecorded(Commit(s, event, attr, m), e, fd, k, r0, a0)
  {
    FirstOfAll(event.fds);
  }

  /** So does the unregistration of another event. */
  lemma UnregisterKeepsOthers(s: State, base: set<int>, gone: nat, e: nat, r0: Registration, a0: Answers)
    requires Consistent(s, base) && gone != e && Granted(r0, a0) && RegisteredAs(s, e, r0, a0)
    ensures RegisteredAs(Unregister(s, gone), e, r0, a0)
  {
    if gone in s.events {
      forall k | 0 <= k < |a0.opens|
        ensures StreamRecorded(Unregister(s, gone), e, s.events[e].fds[k], k, r0, a0)
      {
        var fd := s.events[e].fds[k];
        assert StreamRecorded(s, e, fd, k, r0, a0);
        StreamGoesWithFd(s, base, gone, fd);
      }
    }
  }

  // --- Whole runs ---

  ghost predicate GrantedAt(run: seq<Command>, i: nat) {
    i < |run| && run[i].RegisterCommand? && Granted(run[i].r, run[i].a)
  }

  ghost function GrantedCount(run: seq<Command>): nat {
    if run == [] then 0
    else GrantedCount(run[..|run| - 1]) + if GrantedAt(run, |run| - 1) then 1 else 0
  }

  /** The id given out at place i of a run: granted registrations are numbered from 1. */
  ghost function IDAt(run: seq<Command>, i: nat): nat
    requires i < |run|
  {
    1 + GrantedCount(run[..i])
  }

  /** The registration at place i was granted, and its event not unregistered since. */
  ghost predicate LivesFrom(run: seq<Command>, i: nat) {
    GrantedAt(run, i) && forall j :: i < j < |run| ==> run[j] != UnregisterCommand(IDAt(run, i))
  }

  lemma {:induction false} NextID(base: set<int>, run: seq<Command>)
    ensures Run(base, run).nextEventID == 1 + GrantedCount(run)
    decreases |run|
  {
    if run != [] {
      var n := |run| - 1;
      NextID(base, run[..n]);
      if run[n].RegisterCommand? {
        GrantedIsSuccess(run[n].r, run[n].a);
      }
    }
  }

  lemma PrefixLives(run: seq<Command>, i: nat)
    requires i < |run| - 1
    ensures var init, last := run[..|run| - 1], run[|run| - 1];
            && IDAt(run, i) == IDAt(init, i)
            && (LivesFrom(run, i) <==> LivesFrom(init, i) && last != UnregisterCommand(IDAt(init, i)))
  {
    var init := run[..|run| - 1];
    assert init[..i] == run[..i];
    assert forall j :: 0 <= j < |init| ==> init[j] == run[j];
  }

  /** So what is held of an event stays as it is until it is unregistered. */
  lemma StepKeepsOthers(s: State, base: set<int>, c: Command, e: nat, r0: Registration, a0: Answers)
    requires Consistent(s, base) && (c.RegisterCommand? ==> Honest(s, c.a)) && c != UnregisterCommand(e)
    requires Granted(r0, a0) && RegisteredAs(s, e, r0, a0)
    ensures RegisteredAs(Step(s, c), e, r0, a0)
  {
    match c
    case RegisterCommand(r, a) => RegisterKeepsOthers(s, base, r, a, e, r0, a0);
    case UnregisterCommand(gone) => UnregisterKeepsOthers(s, base, gone, e, r0, a0);
  }

  lemma LastIsRegistered(base: set<int>, run: seq<Command>, n: nat)
    requires HonestRun(base, run) && n == |run| - 1 && GrantedAt(run, n)
    ensures RegisteredAs(Run(base, run), IDAt(run, n), run[n].r, run[n].a)
  {
    NextID(base, run[..n]);
    RegisteredNow(Run(base, run[..n]), Run(base, run), IDAt(run, n), run[n].r, run[n].a);
  }

  lemma RegisteredNow(s: State, t: State, e: nat, r: Registration, a: Answers)
    requires Honest(s, a) && Granted(r, a) && t == Register(s, r, a) && e == s.nextEventID
    ensures RegisteredAs(t, e, r, a)
  {
    RegisterRecords(s, r, a);
  }

  /** Whatever came before and after, an event that was registered and not unregistered since is
      held as it was asked for and answered. */
  lemma {:induction false} EventsAreAsRegistered(base: set<int>, run: seq<Command>, i: nat)
    requires HonestRun(base, run) && LivesFrom(run, i)
    ensures RegisteredAs(Run(base, run), IDAt(run, i), run[i].r, run[i].a)
    decreases |run|
  {
    var n := |run| - 1;
    if i == n {
      LastIsRegistered(base, run, n);
    } else {
      PrefixLives(run, i);
      EventsAreAsRegistered(base, run[..n], i);
      RunsAreConsistent(base, run[..n]);
      StepKeepsOthers(Run(base, run[..n]), base, run[n], IDAt(run, i), run[i].r, run[i].a);
    }
  }

  lemma {:induction false} EventsComeFromRegistrations(base: set<int>, run: seq<Command>, e: nat)
    requires e in Run(base, run).events
    ensures exists i: nat :: LivesFrom(run, i) && IDAt(run, i) == e
    decreases |run|
  {
    var n := |run| - 1;
    var s := Run(base, run[..n]);
    if e in s.events && run[n] != UnregisterCommand(e) {
      EventsComeFromRegistrations(base, run[..n], e);
      var i: nat :| LivesFrom(run[..n], i) && IDAt(run[..n], i) == e;
      PrefixLives(run, i);
    } else {
      NextID(base, run[..n]);
      GrantedIsSuccess(run[n].r, run[n].a);
      assert LivesFrom(run, n) && IDAt(run, n) == e;
    }
  }

  /** And there are no other events. */
  lemma LiveEventsExactly(base: set<int>, run: seq<Command>, e: nat)
    requires HonestRun(base, run)
    ensures e in Run(base, run).events <==> exists i: nat :: LivesFrom(run, i) && IDAt(run, i) == e
  {
    if e in Run(base, run).events {
      EventsComeFromRegistrations(base, run, e);
    }
    if i: nat :| LivesFrom(run, i) && IDAt(run, i) == e {
      EventsAreAsRegistered(base, run, i);
    }
  }

  // --- Decoders ---

  /** Does the command at place j decide the decoder of this name? A registration does once the
      tracepoint's id is read, and the unregistration of a live event of that name. */
  ghost predicate Touches(base: set<int>, run: seq<Command>, j: nat, name: string)
    requires j < |run|
  {
    match run[j]
    case RegisterCommand(r, a) => r.name == name && a.tracepoint.Some?
    case UnregisterCommand(e) =>
      var events := Run(base, run[..j]).events;
      e in events && events[e].name == name
  }

  /** A registration under this name was granted at place i, with this tracepoint id, and no command
      after it touched the name. */
  ghost predicate DecoderFrom(base: set<int>, run: seq<Command>, i: nat, name: string, id: nat) {
    && GrantedAt(run, i) && run[i].r.name == name && run[i].a.tracepoint == Some(id)
    && forall j :: i < j < |run| ==> !Touches(base, run, j, name)
  }

  /** The decoder of a name is that of the last command that touched it, if that was granted. */
  lemma {:induction false} DecodersExactly(base: set<int>, run: seq<Command>, name: string, id: nat)
    ensures var decoders := Run(base, run).decoders;
            name in decoders && decoders[name] == id
            <==> exists i: nat :: DecoderFrom(base, run, i, name, id)
    decreases |run|
  {
    if run != [] {
      var n := |run| - 1;
      var init := run[..n];
      DecodersExactly(base, init, name, id);
      forall j: nat | j < n
        ensures init[j] == run[j] && (Touches(base, init, j, name) <==> Touches(base, run, j, name))
      {
        assert init[..j] == run[..j];
      }
      if run[n].RegisterCommand? {
        GrantedIsSuccess(run[n].r, run[n].a);
      }
      if Touches(base, run, n, name) {
        assert DecoderFrom(base, run, n, name, id)
          <==> GrantedAt(run, n) && run[n].a.tracepoint == Some(id);
      } else {
        assert forall i: nat | i < n :: DecoderFrom(base, run, i, name, id) <==> DecoderFrom(base, init, i, name, id);
      }
    }
  }
}
