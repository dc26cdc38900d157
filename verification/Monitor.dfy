/** pkg/sys/perf/monitor.go: the tables of an event monitor, updated by registration (with
    rollback on failure), unregistration and close. The kernel is a source of answers: fresh
    file descriptors, unique stream ids, or errors. */
module Monitor {
  import opened Sequences
  import opened Wrappers

  datatype EventKind = Tracepoint | Kprobe

  datatype EventAttr = EventAttr(config: nat, disabled: bool)

  datatype RegisteredEvent = RegisteredEvent(name: string, fds: seq<int>, kind: EventKind)

  datatype RegisterError = NoDecoder | OpenFailed | FilterFailed | NoStreamID

  /** What perf_event_open and, for a non-empty filter, the filter ioctl answer for one group. */
  datatype OpenAnswer = OpenError | Opened(fd: int, filterOk: bool)

  /** Everything the kernel answers during one registration: the tracepoint's id (None if it
      cannot be read), one answer a group, and one stream id (or an error) a descriptor. */
  datatype Answers = Answers(tracepoint: Option<nat>, opens: seq<OpenAnswer>, streams: seq<Option<nat>>)

  datatype Registration = Registration(name: string, kind: EventKind, disabled: bool, filtered: bool)

  /** The monitor's tables, and the descriptors that the kernel holds open for this process. */
  datatype State = State(
    nextEventID: nat,
    events: map<nat, RegisteredEvent>,
    eventfds: map<int, nat>,           // fd : cpu index
    eventids: map<int, nat>,           // fd : stream id
    attrs: map<nat, EventAttr>,        // stream id : event attr
    ids: map<nat, nat>,                // stream id : event id
    decoders: map<string, nat>,        // trace name : tracepoint id
    openFds: set<int>)

  // --- What the operations do, as functions on tables ---

  function FdsOf(opens: seq<OpenAnswer>): (fds: seq<int>)
    requires forall i :: 0 <= i < |opens| ==> opens[i].Opened?
    ensures |fds| == |opens| && forall i :: 0 <= i < |opens| ==> fds[i] == opens[i].fd
  {
    seq(|opens|, i requires 0 <= i < |opens| && opens[i].Opened? => opens[i].fd)
  }

  predicate OpenSucceeds(a: OpenAnswer, filtered: bool) {
    a.Opened? && (filtered ==> a.filterOk)
  }

  ghost predicate AllOpen(opens: seq<OpenAnswer>, filtered: bool) {
    forall i :: 0 <= i < |opens| ==> OpenSucceeds(opens[i], filtered)
  }

  /** The i-th group is the first that is refused, and this is why. */
  ghost predicate RefusedAt(opens: seq<OpenAnswer>, filtered: bool, i: nat, error: RegisterError) {
    && i < |opens| && AllOpen(opens[..i], filtered)
    && match opens[i]
       case OpenError => error == OpenFailed
       case Opened(_, filterOk) => filtered && !filterOk && error == FilterFailed
  }

  /** The first thing that is refused decides the error. */
  ghost predicate Refusal(r: Registration, a: Answers, error: RegisterError) {
    match error
    case NoDecoder => a.tracepoint.None?
    case NoStreamID => a.tracepoint.Some? && AllOpen(a.opens, r.filtered) && None in a.streams
    case _ => a.tracepoint.Some? && exists i: nat :: RefusedAt(a.opens, r.filtered, i, error)
  }

  /** A registration goes through when the kernel refuses nothing. */
  ghost predicate Succeeds(r: Registration, a: Answers) {
    && a.tracepoint.Some?
    && AllOpen(a.opens, r.filtered)
    && |a.streams| == |a.opens| && KnownUpTo(a.streams, |a.streams|)
  }

  function FirstOf(fds: seq<int>, n: nat): set<int>
    requires n <= |fds|
  {
    set i | 0 <= i < n :: fds[i]
  }

  lemma FirstOfAll(fds: seq<int>)
    ensures FirstOf(fds, |fds|) == Elements(fds)
  {
    assert forall fd :: fd in fds ==> exists i :: 0 <= i < |fds| && fds[i] == fd;
  }

  /** The stream ids in a map from descriptors. */
  ghost function IdsIn(streams: map<int, nat>): set<nat> {
    set fd | fd in streams :: streams[fd]
  }

  /** fd : its place in the event's list, for the first n descriptors. */
  function Indices(fds: seq<int>, n: nat): (m: map<int, nat>)
    requires n <= |fds|
    ensures m.Keys == FirstOf(fds, n)
  {
    if n == 0 then map[] else Indices(fds, n - 1)[fds[n - 1] := n - 1]
  }

  ghost predicate KnownUpTo(streams: seq<Option<nat>>, n: nat) {
    n <= |streams| && forall i :: 0 <= i < n ==> streams[i].Some?
  }

  /** fd : its stream id, for the first n descriptors. */
  ghost function Streams(fds: seq<int>, streams: seq<Option<nat>>, n: nat): (m: map<int, nat>)
    requires n <= |fds| && KnownUpTo(streams, n)
    ensures m.Keys == FirstOf(fds, n)
  {
    if n == 0 then map[] else Streams(fds, streams, n - 1)[fds[n - 1] := streams[n - 1].value]
  }

  ghost function ForAll<V>(ids: set<nat>, v: V): map<nat, V> {
    map id | id in ids :: v
  }

  ghost predicate IsForAll<V>(m: map<nat, V>, ids: set<nat>, v: V) {
    m.Keys == ids && forall id :: id in m ==> m[id] == v
  }

  /** The tables once an event with these descriptors and streams is committed to. */
  ghost function Commit(s: State, event: RegisteredEvent, attr: EventAttr, streams: map<int, nat>): State {
    State(
      s.nextEventID + 1,
      s.events[s.nextEventID := event],
      s.eventfds + Indices(event.fds, |event.fds|),
      s.eventids + streams,
      s.attrs + ForAll(IdsIn(streams), attr),
      s.ids + ForAll(IdsIn(streams), s.nextEventID),
      s.decoders[event.name := attr.config],
      s.openFds + streams.Keys)
  }

  /** The tables after a registration. A refusal leaves every table as it was, except that the
      decoder of that name is gone if the refusal came after it was added. */
  ghost function Register(s: State, r: Registration, a: Answers): State {
    if a.tracepoint.None? then s
    else if !Succeeds(r, a) then s.(decoders := s.decoders - {r.name})
    else
      var fds := FdsOf(a.opens);
      Commit(s, RegisteredEvent(r.name, fds, r.kind), EventAttr(a.tracepoint.value, r.disabled),
             Streams(fds, a.streams, |fds|))
  }

  /** The stream ids of an event that the tables know. */
  ghost function StreamsOf(s: State, event: RegisteredEvent): set<nat> {
    set fd | fd in event.fds && fd in s.eventids :: s.eventids[fd]
  }

  /** The tables after removeRegisteredEvent, which leaves `events` to its caller. */
  ghost function Remove(s: State, event: RegisteredEvent): State {
    var fds, gone := Elements(event.fds), StreamsOf(s, event);
    s.(eventfds := s.eventfds - fds, eventids := s.eventids - fds,
       attrs := s.attrs - gone, ids := s.ids - gone,
       decoders := s.decoders - {event.name}, openFds := s.openFds - fds)
  }

  ghost function Unregister(s: State, eventid: nat): State {
    if eventid !in s.events then s
    else Remove(s.(events := s.events - {eventid}), s.events[eventid])
  }

  // --- Consistency of the tables ---

  /** A descriptor's stream is attributed to this event. */
  ghost predicate OwnedBy(s: State, fd: int, eventid: nat) {
    && fd in s.eventids && s.eventids[fd] in s.ids
    && s.ids[s.eventids[fd]] == eventid
  }

  ghost predicate EventsOwnTheirFds(s: State) {
    && (forall e :: e in s.events ==> e < s.nextEventID && Distinct(s.events[e].fds))
    && (forall e, fd :: e in s.events && fd in s.events[e].fds ==> OwnedBy(s, fd, e))
  }

  /** A descriptor's stream is attributed to a live event that lists the descriptor. */
  ghost predicate HasEvent(s: State, fd: int)
    requires fd in s.eventids
  {
    var id := s.eventids[fd];
    id in s.ids && s.ids[id] in s.events && fd in s.events[s.ids[id]].fds
  }

  ghost predicate FdsHaveEvents(s: State) {
    forall fd :: fd in s.eventids ==> HasEvent(s, fd)
  }

  ghost predicate IsStreamOf(s: State, fd: int, id: nat) {
    fd in s.eventids && s.eventids[fd] == id
  }

  ghost predicate StreamsAreUnique(s: State) {
    forall fd, fd', id :: IsStreamOf(s, fd, id) && IsStreamOf(s, fd', id) ==> fd == fd'
  }

  /** The stream tables hold only the stream ids of live descriptors. */
  ghost predicate StreamsAreLive(s: State) {
    && (forall id :: id in s.ids ==> exists fd :: IsStreamOf(s, fd, id))
    && s.attrs.Keys == s.ids.Keys
  }

  ghost predicate KernelAgrees(s: State, base: set<int>) {
    && s.eventfds.Keys == s.eventids.Keys
    && s.eventids.Keys !! base
    && s.openFds == s.eventids.Keys + base
  }

  /** The six tables agree with each other, and with the kernel on what is open besides `base`
      (the group leaders' descriptors and whatever else the process has open). */
  ghost predicate Consistent(s: State, base: set<int>) {
    && EventsOwnTheirFds(s) && FdsHaveEvents(s)
    && StreamsAreUnique(s) && StreamsAreLive(s)
    && KernelAgrees(s, base)
  }

  /** The kernel hands out descriptors that are not open and stream ids that are not in use. */
  ghost predicate Honest(s: State, a: Answers) {
    && (forall i :: 0 <= i < |a.opens| && a.opens[i].Opened? ==> a.opens[i].fd !in s.openFds)
    && (forall i, j :: 0 <= i < j < |a.opens| && a.opens[i].Opened? && a.opens[j].Opened? ==>
          a.opens[i].fd != a.opens[j].fd)
    && |a.streams| == |a.opens|
    && (forall i :: 0 <= i < |a.streams| && a.streams[i].Some? ==> a.streams[i].value !in s.ids)
    && (forall i, j :: 0 <= i < j < |a.streams| && a.streams[i].Some? && a.streams[j].Some? ==>
          a.streams[i] != a.streams[j])
  }

  /** Two live events never share a descriptor. */
  lemma EventsAreDisjoint(s: State, base: set<int>, e: nat, e': nat)
    requires Consistent(s, base) && e in s.events && e' in s.events && e != e'
    ensures Elements(s.events[e].fds) !! Elements(s.events[e'].fds)
  {
    forall fd | fd in s.events[e].fds
      ensures fd !in s.events[e'].fds
    {
      assert OwnedBy(s, fd, e) && !OwnedBy(s, fd, e');
    }
  }

  /** Descriptors and streams that are new to the tables and to the kernel. */
  ghost predicate Fresh(s: State, fds: seq<int>, streams: map<int, nat>) {
    && Distinct(fds) && streams.Keys == Elements(fds)
    && (forall fd, fd' :: fd in streams && fd' in streams && streams[fd] == streams[fd'] ==> fd == fd')
    && streams.Keys !! s.openFds
    && IdsIn(streams) !! s.ids.Keys
  }

  lemma {:induction false} StreamsAt(fds: seq<int>, streams: seq<Option<nat>>, n: nat, i: nat)
    requires i < n <= |fds| && KnownUpTo(streams, n) && Distinct(fds)
    ensures Streams(fds, streams, n)[fds[i]] == streams[i].value
  {
    if i < n - 1 {
      StreamsAt(fds, streams, n - 1, i);
    }
  }

  lemma StreamOf(fds: seq<int>, streams: seq<Option<nat>>, fd: int) returns (i: nat)
    requires KnownUpTo(streams, |fds|) && Distinct(fds) && fd in fds
    ensures i < |fds| && fds[i] == fd && fd in Streams(fds, streams, |fds|)
    ensures Streams(fds, streams, |fds|)[fd] == streams[i].value
  {
    i :| 0 <= i < |fds| && fds[i] == fd;
    StreamsAt(fds, streams, |fds|, i);
  }

  lemma FdsAreNew(s: State, a: Answers)
    requires Honest(s, a) && forall i :: 0 <= i < |a.opens| ==> a.opens[i].Opened?
    ensures Distinct(FdsOf(a.opens)) && Elements(FdsOf(a.opens)) !! s.openFds
  {
  }

  lemma StreamIsNew(s: State, a: Answers, fds: seq<int>, fd: int)
    requires Honest(s, a) && KnownUpTo(a.streams, |fds|) && Distinct(fds) && fd in fds
    ensures fd in Streams(fds, a.streams, |fds|) && Streams(fds, a.streams, |fds|)[fd] !in s.ids
  {
    var i := StreamOf(fds, a.streams, fd);
  }

  lemma StreamsDiffer(s: State, a: Answers, fds: seq<int>, fd: int, fd': int)
    requires Honest(s, a) && KnownUpTo(a.streams, |fds|) && Distinct(fds) && fd in fds && fd' in fds
    ensures var m := Streams(fds, a.streams, |fds|);
            fd in m && fd' in m && (m[fd] == m[fd'] ==> fd == fd')
  {
    var i := StreamOf(fds, a.streams, fd);
    var j := StreamOf(fds, a.streams, fd');
  }

  lemma HonestIsFresh(s: State, r: Registration, a: Answers)
    requires Honest(s, a) && Succeeds(r, a)
    ensures Fresh(s, FdsOf(a.opens), Streams(FdsOf(a.opens), a.streams, |a.opens|))
  {
    var fds := FdsOf(a.opens);
    var m := Streams(fds, a.streams, |fds|);
    FdsAreNew(s, a);
    FirstOfAll(fds);
    forall fd | fd in m
      ensures m[fd] !in s.ids
    {
      StreamIsNew(s, a, fds, fd);
    }
    forall fd, fd' | fd in m && fd' in m && m[fd] == m[fd']
      ensures fd == fd'
    {
      StreamsDiffer(s, a, fds, fd, fd');
    }
  }

  lemma CommitKeepsOwnership(s: State, base: set<int>, event: RegisteredEvent, attr: EventAttr, m: map<int, nat>)
    requires EventsOwnTheirFds(s) && KernelAgrees(s, base) && Fresh(s, event.fds, m)
    ensures EventsOwnTheirFds(Commit(s, event, attr, m))
  {
    var t := Commit(s, event, attr, m);
    forall e, fd | e in t.events && fd in t.events[e].fds
      ensures OwnedBy(t, fd, e)
    {
      if e == s.nextEventID {
        assert fd in m && m[fd] in IdsIn(m);
      } else {
        assert OwnedBy(s, fd, e);
      }
    }
  }

  lemma CommitKeepsEvents(s: State, base: set<int>, event: RegisteredEvent, attr: EventAttr, m: map<int, nat>)
    requires EventsOwnTheirFds(s) && FdsHaveEvents(s) && KernelAgrees(s, base) && Fresh(s, event.fds, m)
    ensures FdsHaveEvents(Commit(s, event, attr, m))
  {
    var t := Commit(s, event, attr, m);
    forall fd | fd in t.eventids
      ensures HasEvent(t, fd)
    {
      if fd in m {
        assert m[fd] in IdsIn(m) && fd in Elements(event.fds);
      } else {
        assert HasEvent(s, fd);
      }
    }
  }

  lemma CommitKeepsUnique(s: State, event: RegisteredEvent, attr: EventAttr, m: map<int, nat>)
    requires FdsHaveEvents(s) && StreamsAreUnique(s) && Fresh(s, event.fds, m)
    ensures StreamsAreUnique(Commit(s, event, attr, m))
  {
    var t := Commit(s, event, attr, m);
    forall fd | fd in t.eventids
      ensures if fd in m then t.eventids[fd] !in s.ids else IsStreamOf(s, fd, t.eventids[fd]) && t.eventids[fd] in s.ids
    {
      assert fd in m ==> m[fd] in IdsIn(m);
      assert fd !in m ==> HasEvent(s, fd);
    }
  }

  lemma CommitAddsStreams(s: State, event: RegisteredEvent, attr: EventAttr, m: map<int, nat>)
    ensures var t := Commit(s, event, attr, m);
            t.ids.Keys == s.ids.Keys + IdsIn(m) && t.attrs.Keys == s.attrs.Keys + IdsIn(m)
  {
  }

  lemma CommitKeepsLive(s: State, event: RegisteredEvent, attr: EventAttr, m: map<int, nat>)
    requires StreamsAreLive(s) && s.eventids.Keys !! m.Keys
    ensures StreamsAreLive(Commit(s, event, attr, m))
  {
    var t := Commit(s, event, attr, m);
    CommitAddsStreams(s, event, attr, m);
    forall id | id in s.ids.Keys + IdsIn(m)
      ensures exists fd :: IsStreamOf(t, fd, id)
    {
      if id in IdsIn(m) {
        var fd :| fd in m && m[fd] == id;
        assert IsStreamOf(t, fd, id);
      } else {
        var fd :| IsStreamOf(s, fd, id);
        assert IsStreamOf(t, fd, id);
      }
    }
  }

  lemma CommitKeepsKernel(s: State, base: set<int>, event: RegisteredEvent, attr: EventAttr, m: map<int, nat>)
    requires KernelAgrees(s, base) && m.Keys == Elements(event.fds) && m.Keys !! s.openFds
    ensures KernelAgrees(Commit(s, event, attr, m), base)
  {
    var t := Commit(s, event, attr, m);
    FirstOfAll(event.fds);
    assert t.eventfds.Keys == s.eventfds.Keys + m.Keys;
    assert t.eventids.Keys == s.eventids.Keys + m.Keys;
  }

  lemma CommitKeepsConsistent(s: State, base: set<int>, event: RegisteredEvent, attr: EventAttr, m: map<int, nat>)
    requires Consistent(s, base) && Fresh(s, event.fds, m)
    ensures Consistent(Commit(s, event, attr, m), base)
  {
    CommitKeepsOwnership(s, base, event, attr, m);
    CommitKeepsEvents(s, base, event, attr, m);
    CommitKeepsUnique(s, event, attr, m);
    CommitKeepsLive(s, event, attr, m);
    CommitKeepsKernel(s, base, event, attr, m);
  }

  lemma RegisterKeepsConsistent(s: State, base: set<int>, r: Registration, a: Answers)
    requires Consistent(s, base) && Honest(s, a)
    ensures Consistent(Register(s, r, a), base)
  {
    if Succeeds(r, a) {
      HonestIsFresh(s, r, a);
      var fds := FdsOf(a.opens);
      CommitKeepsConsistent(s, base, RegisteredEvent(r.name, fds, r.kind),
                            EventAttr(a.tracepoint.value, r.disabled), Streams(fds, a.streams, |fds|));
    } else {
      DecodersDoNotMatter(s, base, Register(s, r, a).decoders);
    }
  }

  lemma DecodersDoNotMatter(s: State, base: set<int>, decoders: map<string, nat>)
    ensures Consistent(s.(decoders := decoders), base) <==> Consistent(s, base)
  {
    var t := s.(decoders := decoders);
    assert forall e, fd :: OwnedBy(s, fd, e) <==> OwnedBy(t, fd, e);
    assert forall fd, id :: IsStreamOf(s, fd, id) <==> IsStreamOf(t, fd, id);
    assert forall fd :: fd in s.eventids ==> (HasEvent(s, fd) <==> HasEvent(t, fd));
  }

  lemma RemoveKeepsConsistent(s: State, base: set<int>, eventid: nat)
    requires Consistent(s, base) && eventid in s.events
    ensures Consistent(Unregister(s, eventid), base)
  {
    var event, t := s.events[eventid], Unregister(s, eventid);
    assert forall fd :: fd in event.fds ==> OwnedBy(s, fd, eventid);
    assert forall fd :: fd in Elements(event.fds) ==> fd in s.eventids.Keys;
    RemoveKeepsEvents(s, base, eventid);
    RemoveKeepsStreams(s, base, eventid);
  }

  /** Removing an event forgets a descriptor, and its stream, exactly when the event owns it. */
  lemma StreamGoesWithFd(s: State, base: set<int>, eventid: nat, fd: int)
    requires Consistent(s, base) && eventid in s.events && fd in s.eventids
    ensures fd in s.events[eventid].fds <==> s.ids[s.eventids[fd]] == eventid
    ensures s.eventids[fd] in StreamsOf(s, s.events[eventid]) <==> fd in s.events[eventid].fds
  {
    assert HasEvent(s, fd) && IsStreamOf(s, fd, s.eventids[fd]);
    if fd in s.events[eventid].fds {
      assert OwnedBy(s, fd, eventid);
    } else if s.eventids[fd] in StreamsOf(s, s.events[eventid]) {
      var fd' :| fd' in s.events[eventid].fds && fd' in s.eventids && s.eventids[fd'] == s.eventids[fd];
      assert IsStreamOf(s, fd', s.eventids[fd]);
    }
  }

  lemma RemoveKeepsEvents(s: State, base: set<int>, eventid: nat)
    requires Consistent(s, base) && eventid in s.events
    ensures EventsOwnTheirFds(Unregister(s, eventid)) && FdsHaveEvents(Unregister(s, eventid))
  {
    var event, t := s.events[eventid], Unregister(s, eventid);
    forall e, fd | e in t.events && fd in t.events[e].fds
      ensures OwnedBy(t, fd, e)
    {
      assert OwnedBy(s, fd, e);
      StreamGoesWithFd(s, base, eventid, fd);
    }
    forall fd | fd in t.eventids
      ensures HasEvent(t, fd)
    {
      assert HasEvent(s, fd);
      StreamGoesWithFd(s, base, eventid, fd);
    }
  }

  lemma RemoveKeepsStreams(s: State, base: set<int>, eventid: nat)
    requires Consistent(s, base) && eventid in s.events
    ensures StreamsAreUnique(Unregister(s, eventid)) && StreamsAreLive(Unregister(s, eventid))
  {
    var event, t := s.events[eventid], Unregister(s, eventid);
    assert forall fd, id :: IsStreamOf(t, fd, id) ==> IsStreamOf(s, fd, id);
    forall id | id in t.ids
      ensures exists fd :: IsStreamOf(t, fd, id)
    {
      var fd :| IsStreamOf(s, fd, id);
      StreamGoesWithFd(s, base, eventid, fd);
      assert IsStreamOf(t, fd, id);
    }
  }

  // --- Whole runs ---

  /** A monitor as NewEventMonitor leaves it, with `base` open. */
  function Initial(base: set<int>): State {
    State(1, map[], map[], map[], map[], map[], map[], base)
  }

  datatype Command = RegisterCommand(r: Registration, a: Answers) | UnregisterCommand(eventid: nat)

  ghost function Step(s: State, c: Command): State {
    match c
    case RegisterCommand(r, a) => Register(s, r, a)
    case UnregisterCommand(eventid) => Unregister(s, eventid)
  }

  ghost function Run(base: set<int>, run: seq<Command>): State {
    if run == [] then Initial(base) else Step(Run(base, run[..|run| - 1]), run[|run| - 1])
  }

  /** At each registration of the run, the kernel's answers are honest. */
  ghost predicate HonestRun(base: set<int>, run: seq<Command>) {
    run != [] ==>
      var n := |run| - 1;
      HonestRun(base, run[..n]) && (run[n].RegisterCommand? ==> Honest(Run(base, run[..n]), run[n].a))
  }

  /** In every state that any sequence of registrations, failing wherever they may, and
      unregistrations reaches, the tables are consistent. */
  lemma {:induction false} RunsAreConsistent(base: set<int>, run: seq<Command>)
    requires HonestRun(base, run)
    ensures Consistent(Run(base, run), base)
    decreases |run|
  {
    if run != [] {
      var n := |run| - 1;
      var init := run[..n];
      RunsAreConsistent(base, init);
      match run[n]
      case RegisterCommand(r, a) => RegisterKeepsConsistent(Run(base, init), base, r, a);
      case UnregisterCommand(e) =>
        if e in Run(base, init).events {
          RemoveKeepsConsistent(Run(base, init), base, e);
        }
    }
  }

  /** Consistent tables without events are empty, and nothing but `base` is open. */
  lemma NoEventsNoStrays(s: State, base: set<int>)
    requires Consistent(s, base) && s.events == map[]
    ensures s.eventfds == map[] && s.eventids == map[] && s.attrs == map[] && s.ids == map[]
    ensures s.openFds == base
  {
    forall fd
      ensures fd !in s.eventids
    {
      assert fd in s.eventids ==> HasEvent(s, fd);
    }
    forall id
      ensures id !in s.ids
    {
      assert id in s.ids ==> exists fd :: IsStreamOf(s, fd, id);
    }
    assert s.eventids.Keys == {} && s.ids.Keys == {};
  }

  lemma FdsAreOpen(s: State, base: set<int>, eventid: nat)
    requires Consistent(s, base) && eventid in s.events
    ensures Distinct(s.events[eventid].fds) && Elements(s.events[eventid].fds) <= s.openFds
  {
    forall fd | fd in s.events[eventid].fds
      ensures fd in s.openFds
    {
      assert OwnedBy(s, fd, eventid);
    }
  }

  // --- Decoders, which are removed by name without counting ---

  ghost predicate DecodersCover(s: State) {
    forall e :: e in s.events ==> s.events[e].name in s.decoders
  }

  /** Some other live event was registered under the same name. */
  ghost predicate SharesName(s: State, name: string, eventid: nat) {
    exists e :: e in s.events && e != eventid && s.events[e].name == name
  }

  /** Unregistering leaves every remaining event its decoder if and only if no other live event
      has the name of the one removed. */
  lemma UnregisterKeepsDecoders(s: State, eventid: nat)
    requires DecodersCover(s) && eventid in s.events
    ensures DecodersCover(Unregister(s, eventid)) <==> !SharesName(s, s.events[eventid].name, eventid)
  {
    var t := Unregister(s, eventid);
    if e :| e in s.events && e != eventid && s.events[e].name == s.events[eventid].name {
      assert e in t.events && t.events[e].name !in t.decoders;
    }
  }

  /** A registration keeps every event's decoder unless it is refused after its own decoder was
      added, and a live event has its name. */
  lemma RegisterKeepsDecoders(s: State, base: set<int>, r: Registration, a: Answers)
    requires Consistent(s, base) && DecodersCover(s)
    ensures DecodersCover(Register(s, r, a)) <==>
              a.tracepoint.None? || Succeeds(r, a) || !SharesName(s, r.name, s.nextEventID)
  {
    var t := Register(s, r, a);
    if a.tracepoint.Some? && !Succeeds(r, a) {
      if e :| e in s.events && e != s.nextEventID && s.events[e].name == r.name {
        assert e in t.events && t.events[e].name !in t.decoders;
      }
    }
  }

  // --- The monitor ---

  datatype Stray = StrayFds | StrayIds | StrayAttrs | StrayEventIDs

  class EventMonitor {
    var nextEventID: nat
    var events: map<nat, RegisteredEvent>
    var eventfds: map<int, nat>
    var eventids: map<int, nat>
    var eventAttrMap: map<nat, EventAttr>
    var eventIDMap: map<nat, nat>
    var decoders: map<string, nat>
    var openFds: set<int>              // the kernel's side

    function Tables(): State
      reads this
    {
      State(nextEventID, events, eventfds, eventids, eventAttrMap, eventIDMap, decoders, openFds)
    }

    constructor (base: set<int>)
      ensures Tables() == Initial(base)
    {
      nextEventID, events, eventfds, eventids := 1, map[], map[], map[];
      eventAttrMap, eventIDMap, decoders, openFds := map[], map[], map[], base;
    }

    /** unix.Close: the precondition is that nothing is closed twice or by mistake. */
    method CloseFd(fd: int)
      requires fd in openFds
      modifies this`openFds
      ensures openFds == old(openFds) - {fd}
    {
      openFds := openFds - {fd};
    }

    method CloseAll(fds: seq<int>)
      requires Distinct(fds) && Elements(fds) <= openFds
      modifies this`openFds
      ensures openFds == old(openFds) - Elements(fds)
    {
      var j := |fds| - 1;
      while j >= 0
        invariant -1 <= j < |fds|
        invariant openFds == old(openFds) - Elements(fds[j + 1..])
        invariant forall i :: 0 <= i <= j ==> fds[i] in openFds
      {
        CloseFd(fds[j]);
        assert fds[j..] == [fds[j]] + fds[j + 1..];
        j := j - 1;
      }
      assert fds[0..] == fds;
    }

    /** One descriptor a group, or none at all: whatever was opened before a refusal is closed. */
    method PerfEventOpen(opens: seq<OpenAnswer>, filtered: bool) returns (r: Result<seq<int>, RegisterError>)
      requires forall i :: 0 <= i < |opens| && opens[i].Opened? ==> opens[i].fd !in openFds
      requires forall i, j :: 0 <= i < j < |opens| && opens[i].Opened? && opens[j].Opened? ==>
                 opens[i].fd != opens[j].fd
      modifies this`openFds
      ensures r.Success? <==> AllOpen(opens, filtered)
      ensures r.Success? ==> r.value == FdsOf(opens) && openFds == old(openFds) + Elements(r.value)
      ensures r.Failure? ==> openFds == old(openFds)
      ensures r.Failure? ==> exists i: nat :: RefusedAt(opens, filtered, i, r.error)
    {
      var newfds: seq<int> := [];
      for g := 0 to |opens|
        invariant |newfds| == g
        invariant forall i :: 0 <= i < g ==> OpenSucceeds(opens[i], filtered)
        invariant forall i :: 0 <= i < g ==> newfds[i] == opens[i].fd
        invariant Distinct(newfds)
        invariant openFds == old(openFds) + Elements(newfds)
      {
        if opens[g].OpenError? {
          CloseAll(newfds);
          assert openFds == old(openFds) && RefusedAt(opens, filtered, g, OpenFailed);
          return Failure(OpenFailed);
        }
        ElementsAppend(newfds, opens[g].fd);
        openFds := openFds + {opens[g].fd};
        newfds := newfds + [opens[g].fd];
        if filtered && !opens[g].filterOk {
          CloseAll(newfds);
          assert openFds == old(openFds) && RefusedAt(opens, filtered, g, FilterFailed);
          return Failure(FilterFailed);
        }
      }
      return Success(newfds);
    }

    method RollBack(newfds: seq<int>)
      requires Distinct(newfds) && Elements(newfds) <= openFds
      modifies this`eventids, this`openFds
      ensures eventids == old(eventids) - Elements(newfds)
      ensures openFds == old(openFds) - Elements(newfds)
    {
      CloseAll(newfds);
      eventids := eventids - Elements(newfds);
    }

    /** The stream id of each new descriptor, or, when one cannot be read, the rollback. */
    method ReadStreamIDs(newfds: seq<int>, streams: seq<Option<nat>>, attr: EventAttr, eventid: nat)
      returns (err: Outcome<RegisterError>, newAttrs: map<nat, EventAttr>, newIDs: map<nat, nat>)
      requires |streams| == |newfds| && Distinct(newfds) && Elements(newfds) <= openFds
      requires Elements(newfds) !! eventids.Keys
      modifies this`eventids, this`openFds
      ensures err.Pass? <==> KnownUpTo(streams, |streams|)
      ensures err.Pass? ==>
                var m := Streams(newfds, streams, |newfds|);
                && eventids == old(eventids) + m && openFds == old(openFds)
                && IsForAll(newAttrs, IdsIn(m), attr) && IsForAll(newIDs, IdsIn(m), eventid)
      ensures err.Fail? ==> eventids == old(eventids) && openFds == old(openFds) - Elements(newfds)
      ensures err.Fail? ==> err.error == NoStreamID && None in streams
    {
      newAttrs, newIDs := map[], map[];
      ghost var m: map<int, nat>, found: set<nat> := map[], {};
      assert old(eventids) + m == old(eventids);
      for i := 0 to |newfds|
        invariant KnownUpTo(streams, i) && m == Streams(newfds, streams, i)
        invariant found == IdsIn(m)
        invariant openFds == old(openFds)
        invariant eventids == old(eventids) + m
        invariant IsForAll(newAttrs, found, attr) && IsForAll(newIDs, found, eventid)
      {
        if streams[i].None? {
          RollBack(newfds);
          assert eventids == old(eventids);
          return Fail(NoStreamID), newAttrs, newIDs;
        }
        var fd, id := newfds[i], streams[i].value;
        NextStream(newfds, streams, i);
        newAttrs := newAttrs[id := attr];
        newIDs := newIDs[id := eventid];
        MergeStep(old(eventids), m, fd, id);
        eventids := eventids[fd := id];
        m, found := m[fd := id], found + {id};
      }
      return Pass, newAttrs, newIDs;
    }

    method RecordIndices(newfds: seq<int>)
      modifies this`eventfds
      ensures eventfds == old(eventfds) + Indices(newfds, |newfds|)
    {
      for i := 0 to |newfds|
        invariant eventfds == old(eventfds) + Indices(newfds, i)
      {
        eventfds := eventfds[newfds[i] := i];
      }
    }

    /** Descriptors and stream ids for a new event, or, at any refusal, neither. */
    method OpenStreams(r: Registration, a: Answers, attr: EventAttr, eventid: nat)
      returns (answer: Result<seq<int>, RegisterError>, newAttrs: map<nat, EventAttr>, newIDs: map<nat, nat>)
      requires Honest(Tables(), a) && eventids.Keys <= openFds && a.tracepoint.Some?
      modifies this`eventids, this`openFds
      ensures answer.Success? <==> Succeeds(r, a)
      ensures answer.Success? ==>
                var m := Streams(FdsOf(a.opens), a.streams, |a.opens|);
                && answer.value == FdsOf(a.opens)
                && eventids == old(eventids) + m && openFds == old(openFds) + m.Keys
                && IsForAll(newAttrs, IdsIn(m), attr) && IsForAll(newIDs, IdsIn(m), eventid)
      ensures answer.Failure? ==> eventids == old(eventids) && openFds == old(openFds) && Refusal(r, a, answer.error)
    {
      answer := PerfEventOpen(a.opens, r.filtered);
      if answer.Failure? {
        return answer, map[], map[];
      }
      var newfds, err := answer.value, Pass;
      err, newAttrs, newIDs := ReadStreamIDs(newfds, a.streams, attr, eventid);
      if err.Fail? {
        assert openFds == old(openFds);
        return Failure(err.error), newAttrs, newIDs;
      }
      FirstOfAll(newfds);
    }

    method NewRegisteredEvent(r: Registration, a: Answers) returns (result: Result<nat, RegisterError>)
      requires Honest(Tables(), a) && eventids.Keys <= openFds
      modifies this
      ensures Tables() == Register(old(Tables()), r, a)
      ensures result.Success? <==> Succeeds(r, a)
      ensures result.Success? ==> result.value == old(nextEventID)
      ensures result.Failure? ==> Refusal(r, a, result.error)
    {
      if a.tracepoint.None? {
        return Failure(NoDecoder);
      }
      decoders := decoders[r.name := a.tracepoint.value];
      var attr, eventid := EventAttr(a.tracepoint.value, r.disabled), nextEventID;
      var answer, newAttrs, newIDs := OpenStreams(r, a, attr, eventid);
      if answer.Failure? {
        decoders := decoders - {r.name};
        assert decoders == old(decoders) - {r.name};
        return Failure(answer.error);
      }
      ghost var s, m := old(Tables()), Streams(FdsOf(a.opens), a.streams, |a.opens|);
      var event := RegisteredEvent(r.name, answer.value, r.kind);
      CommitEvent(eventid, event, attr, newAttrs, newIDs, s, m);
      return Success(eventid);
    }

    /** The part of the registration that nothing can go wrong in any more. */
    method CommitEvent(eventid: nat, event: RegisteredEvent, ghost attr: EventAttr,
                       newAttrs: map<nat, EventAttr>, newIDs: map<nat, nat>, ghost s: State, ghost m: map<int, nat>)
      requires eventid == s.nextEventID
      requires Tables() == s.(eventids := s.eventids + m, openFds := s.openFds + m.Keys,
                              decoders := s.decoders[event.name := attr.config])
      requires IsForAll(newAttrs, IdsIn(m), attr) && IsForAll(newIDs, IdsIn(m), eventid)
      modifies this`nextEventID, this`eventAttrMap, this`eventIDMap, this`eventfds, this`events
      ensures Tables() == Commit(s, event, attr, m)
    {
      nextEventID := nextEventID + 1;
      eventAttrMap := eventAttrMap + newAttrs;
      eventIDMap := eventIDMap + newIDs;
      RecordIndices(event.fds);
      events := events[eventid := event];
      AttrsAndIDs(newAttrs, newIDs, m, attr, eventid);
    }

    method RemoveRegisteredEvent(event: RegisteredEvent)
      requires Distinct(event.fds) && Elements(event.fds) <= openFds
      modifies this
      ensures Tables() == Remove(old(Tables()), event)
    {
      var ids: set<nat> := {};
      for i := 0 to |event.fds|
        invariant unchanged(`nextEventID, `events, `eventAttrMap, `eventIDMap, `decoders)
        invariant eventfds == old(eventfds) - Elements(event.fds[..i])
        invariant eventids == old(eventids) - Elements(event.fds[..i])
        invariant openFds == old(openFds) - Elements(event.fds[..i])
        invariant ids == set fd | fd in event.fds[..i] && fd in old(eventids) :: old(eventids)[fd]
      {
        var fd := event.fds[i];
        assert event.fds[..i + 1] == event.fds[..i] + [fd];
        assert fd !in event.fds[..i];
        eventfds := eventfds - {fd};
        if fd in eventids {
          ids := ids + {eventids[fd]};
          eventids := eventids - {fd};
        }
        CloseFd(fd);
      }
      assert event.fds[..|event.fds|] == event.fds;
      eventAttrMap := eventAttrMap - ids;
      eventIDMap := eventIDMap - ids;
      decoders := decoders - {event.name};
    }

    method UnregisterEvent(eventid: nat, ghost base: set<int>) returns (ok: bool)
      requires Consistent(Tables(), base)
      modifies this
      ensures Tables() == Unregister(old(Tables()), eventid)
      ensures ok <==> eventid in old(events)
    {
      if eventid !in events {
        return false;
      }
      var event := events[eventid];
      events := events - {eventid};
      FdsAreOpen(old(Tables()), base, eventid);
      RemoveRegisteredEvent(event);
      return true;
    }

    /** Removing every event, in whatever order the map is ranged over, leaves no stray in any
        table: none of the four panics fires, and only `base` is still open. */
    method Close(ghost base: set<int>) returns (panic: Option<Stray>)
      requires Consistent(Tables(), base)
      modifies this
      ensures panic.None?
      ensures openFds == base
    {
      var left := events.Keys;
      ghost var s := Tables();
      while left != {}
        invariant unchanged(`events)
        invariant Consistent(s, base) && s == Tables().(events := s.events)
        invariant s.events.Keys == left <= events.Keys
        invariant forall e :: e in left ==> s.events[e] == events[e]
        decreases left
      {
        var e :| e in left;
        FdsAreOpen(s, base, e);
        RemoveKeepsConsistent(s, base, e);
        RemoveRegisteredEvent(events[e]);
        s := Unregister(s, e);
        left := left - {e};
      }
      NoEventsNoStrays(s, base);
      events := map[];
      if |eventfds| != 0 {
        return Some(StrayFds);
      }
      if |eventids| != 0 {
        return Some(StrayIds);
      }
      if |eventAttrMap| != 0 {
        return Some(StrayAttrs);
      }
      if |eventIDMap| != 0 {
        return Some(StrayEventIDs);
      }
      return None;
    }
  }

  lemma AttrsAndIDs(newAttrs: map<nat, EventAttr>, newIDs: map<nat, nat>, m: map<int, nat>,
                    attr: EventAttr, eventid: nat)
    requires IsForAll(newAttrs, IdsIn(m), attr) && IsForAll(newIDs, IdsIn(m), eventid)
    ensures newAttrs == ForAll(IdsIn(m), attr) && newIDs == ForAll(IdsIn(m), eventid)
  {
  }

  lemma MergeStep<K, V>(a: map<K, V>, b: map<K, V>, k: K, v: V)
    ensures (a + b)[k := v] == a + b[k := v]
    ensures a + map[] == a
  {
  }

  lemma NextStream(fds: seq<int>, streams: seq<Option<nat>>, i: nat)
    requires i < |fds| && KnownUpTo(streams, i + 1) && Distinct(fds)
    ensures var m, m', id := Streams(fds, streams, i), Streams(fds, streams, i + 1), streams[i].value;
            m' == m[fds[i] := id] && IdsIn(m') == IdsIn(m) + {id}
  {
    var m, m' := Streams(fds, streams, i), Streams(fds, streams, i + 1);
    assert fds[i] !in m;
    assert m'[fds[i]] == streams[i].value && forall k :: k in m ==> k in m' && m'[k] == m[k];
  }
}
