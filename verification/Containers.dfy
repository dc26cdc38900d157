/** pkg/sensor/container.go: merging the two reports of a container's creation and of its start,
    and filtering events by container with a memory. */
module Containers {
  import opened Api
  import opened Wrappers

  datatype RuntimeState = Created | Started | Stopped | Removed

  /** container.Event, as Docker or the OCI run time reports it. */
  datatype Report = Report(
    id: string, name: string, state: RuntimeState, imageID: string, image: string,
    pid: uint32, dockerConfig: string, ociConfig: string, exitCode: int32)

  datatype EventType = CREATED | RUNNING | EXITED | DESTROYED

  /** api.ContainerEvent. */
  datatype ContainerEvent = ContainerEvent(
    typ: EventType, name: string, imageID: string, imageName: string, hostPid: int32,
    dockerConfig: string, ociConfig: string,
    exitCode: int32, exitStatus: uint32, exitSignal: uint32, coreDumped: bool)

  function NewEvent(typ: EventType): ContainerEvent {
    ContainerEvent(typ, "", "", "", 0, "", "", 0, 0, 0, false)
  }

  /** int32(uint32). */
  function ToInt32(pid: uint32): (n: int32)
    ensures (n - pid) % 0x1_0000_0000 == 0
  {
    if pid < 0x8000_0000 then pid else pid - 0x1_0000_0000
  }

  // --- The wait status of Linux, of which the exit code is one ---

  function Status(code: int32): uint32 {
    code % 0x1_0000_0000
  }

  predicate Exited(ws: nat) {
    ws % 0x80 == 0
  }

  predicate Signaled(ws: nat) {
    ws % 0x80 != 0x7f && ws % 0x80 != 0
  }

  // --- What one report does ---

  datatype Pending = Pending(created: map<string, ContainerEvent>, started: map<string, ContainerEvent>)

  /** Take over what a report of a start knows. */
  function MergeStart(e: ContainerEvent, r: Report): ContainerEvent {
    var e1 := if r.pid != 0 then e.(hostPid := ToInt32(r.pid)) else e;
    WithConfigs(e1, r)
  }

  function WithConfigs(e: ContainerEvent, r: Report): ContainerEvent {
    var e1 := if r.dockerConfig != "" then e.(dockerConfig := r.dockerConfig) else e;
    if r.ociConfig != "" then e1.(ociConfig := r.ociConfig) else e1
  }

  function FirstCreated(r: Report): ContainerEvent {
    NewEvent(CREATED).(name := r.name, imageID := r.imageID, imageName := r.image)
  }

  /** The longer of two Docker configurations. */
  function MergeCreate(e: ContainerEvent, r: Report): ContainerEvent {
    if |r.dockerConfig| > |e.dockerConfig| then e.(dockerConfig := r.dockerConfig) else e
  }

  function ExitEvent(r: Report): ContainerEvent {
    var e := NewEvent(EXITED).(
      hostPid := if r.pid != 0 then ToInt32(r.pid) else 0,
      dockerConfig := r.dockerConfig,
      name := r.name, imageID := r.imageID, imageName := r.image, exitCode := r.exitCode);
    var ws := Status(r.exitCode);
    if Exited(ws) then e.(exitStatus := (ws / 0x100) % 0x100)
    else if Signaled(ws) then e.(exitSignal := ws % 0x80, coreDumped := (ws / 0x80) % 2 == 1)
    else e
  }

  /** The pending events after a report, and the event emitted if there is one. */
  function Translate(p: Pending, r: Report): (Pending, Option<ContainerEvent>) {
    match r.state
    case Created =>
      if r.id in p.created then
        (p.(created := p.created - {r.id}), Some(WithConfigs(MergeCreate(p.created[r.id], r), r)))
      else (p.(created := p.created[r.id := MergeCreate(FirstCreated(r), r)]), None)
    case Started =>
      if r.id in p.started then
        (p.(started := p.started - {r.id}), Some(WithConfigs(MergeStart(p.started[r.id], r), r)))
      else (p.(started := p.started[r.id := MergeStart(NewEvent(RUNNING), r)]), None)
    case Stopped => (p, Some(WithConfigs(ExitEvent(r), r)))
    case Removed => (p, Some(WithConfigs(NewEvent(DESTROYED), r)))
  }

  class Repeater {
    var createdMap: map<string, ContainerEvent>
    var startedMap: map<string, ContainerEvent>

    function View(): Pending
      reads this
    {
      Pending(createdMap, startedMap)
    }

    constructor ()
      ensures View() == Pending(map[], map[])
    {
      createdMap, startedMap := map[], map[];
    }

    method TranslateContainerEvent(r: Report) returns (emitted: Option<ContainerEvent>)
      modifies this
      ensures (View(), emitted) == Translate(old(View()), r)
    {
      var e := NewEvent(DESTROYED);
      match r.state {
        case Created =>
          var first := r.id !in createdMap;
          e := if first then FirstCreated(r) else createdMap[r.id];
          if |r.dockerConfig| > |e.dockerConfig| {
            e := e.(dockerConfig := r.dockerConfig);
          }
          if first {
            createdMap := createdMap[r.id := e];
            return None;
          }
          createdMap := createdMap - {r.id};
        case Started =>
          var first := r.id !in startedMap;
          e := if first then NewEvent(RUNNING) else startedMap[r.id];
          if r.pid != 0 {
            e := e.(hostPid := ToInt32(r.pid));
          }
          if |r.dockerConfig| > 0 {
            e := e.(dockerConfig := r.dockerConfig);
          }
          if |r.ociConfig| > 0 {
            e := e.(ociConfig := r.ociConfig);
          }
          if first {
            startedMap := startedMap[r.id := e];
            return None;
          }
          startedMap := startedMap - {r.id};
        case Stopped =>
          e := NewEvent(EXITED);
          if r.pid != 0 {
            e := e.(hostPid := ToInt32(r.pid));
          }
          if |r.dockerConfig| > 0 {
            e := e.(dockerConfig := r.dockerConfig);
          }
          e := e.(name := r.name, imageID := r.imageID, imageName := r.image, exitCode := r.exitCode);
          var ws := Status(r.exitCode);
          if Exited(ws) {
            e := e.(exitStatus := (ws / 0x100) % 0x100);
          } else if Signaled(ws) {
            e := e.(exitSignal := ws % 0x80, coreDumped := (ws / 0x80) % 2 == 1);
          }
        case Removed =>
      }
      if |r.dockerConfig| > 0 {
        e := e.(dockerConfig := r.dockerConfig);
      }
      if |r.ociConfig| > 0 {
        e := e.(ociConfig := r.ociConfig);
      }
      return Some(e);
    }
  }

  // --- Pairing over whole traces ---

  datatype Trace = Trace(pending: Pending, emitted: seq<(string, ContainerEvent)>)

  function Run(reports: seq<Report>): Trace {
    if reports == [] then Trace(Pending(map[], map[]), [])
    else
      var n := |reports| - 1;
      var before := Run(reports[..n]);
      var (p, e) := Translate(before.pending, reports[n]);
      Trace(p, if e.Some? then before.emitted + [(reports[n].id, e.value)] else before.emitted)
  }

  function CountReports(reports: seq<Report>, id: string, state: RuntimeState): nat {
    if reports == [] then 0 else
    var n := |reports| - 1;
    CountReports(reports[..n], id, state) + if reports[n].id == id && reports[n].state == state then 1 else 0
  }

  function CountEmitted(emitted: seq<(string, ContainerEvent)>, id: string, typ: EventType): nat {
    if emitted == [] then 0 else
    var n := |emitted| - 1;
    CountEmitted(emitted[..n], id, typ) + if emitted[n].0 == id && emitted[n].1.typ == typ then 1 else 0
  }

  ghost predicate TypesMatch(p: Pending) {
    && (forall id :: id in p.created ==> p.created[id].typ == CREATED)
    && (forall id :: id in p.started ==> p.started[id].typ == RUNNING)
  }

  lemma {:induction false} PendingTypes(reports: seq<Report>)
    ensures TypesMatch(Run(reports).pending)
    decreases |reports|
  {
    if reports != [] {
      PendingTypes(reports[..|reports| - 1]);
    }
  }

  /** What a report emits has the type that belongs to its state. */
  lemma EmittedType(p: Pending, r: Report)
    requires TypesMatch(p)
    ensures var (_, e) := Translate(p, r);
            e.Some? ==> e.value.typ == match r.state
                                       case Created => CREATED
                                       case Started => RUNNING
                                       case Stopped => EXITED
                                       case Removed => DESTROYED
  {
  }

  lemma CountOneMore(emitted: seq<(string, ContainerEvent)>, id: string, e: ContainerEvent, id': string, typ: EventType)
    ensures CountEmitted(emitted + [(id, e)], id', typ)
         == CountEmitted(emitted, id', typ) + if id == id' && e.typ == typ then 1 else 0
  {
    assert (emitted + [(id, e)])[..|emitted|] == emitted;
  }

  /** The counts before the last report of a trace, and what that report adds. */
  lemma LastReport(reports: seq<Report>, id: string, typ: EventType)
    requires reports != []
    ensures var n := |reports| - 1;
            var before, r := Run(reports[..n]), reports[n];
            var e := Translate(before.pending, r).1;
            && TypesMatch(before.pending)
            && CountEmitted(Run(reports).emitted, id, typ)
               == CountEmitted(before.emitted, id, typ) + if e.Some? && r.id == id && e.value.typ == typ then 1 else 0
  {
    var n := |reports| - 1;
    var before, r := Run(reports[..n]), reports[n];
    PendingTypes(reports[..n]);
    var e := Translate(before.pending, r).1;
    if e.Some? {
      CountOneMore(before.emitted, r.id, e.value, id, typ);
    }
  }

  /** Over any trace, the reports of one container's creation are paired: one event comes out for
      every two, and one is pending exactly when their number is odd, whatever happens to other
      containers meanwhile. */
  lemma {:induction false} CreationsArePaired(reports: seq<Report>, id: string)
    ensures CountEmitted(Run(reports).emitted, id, CREATED) == CountReports(reports, id, Created) / 2
    ensures id in Run(reports).pending.created <==> CountReports(reports, id, Created) % 2 == 1
    decreases |reports|
  {
    if reports != [] {
      var n := |reports| - 1;
      CreationsArePaired(reports[..n], id);
      LastReport(reports, id, CREATED);
      EmittedType(Run(reports[..n]).pending, reports[n]);
    }
  }

  /** So are the reports of its start. */
  lemma {:induction false} StartsArePaired(reports: seq<Report>, id: string)
    ensures CountEmitted(Run(reports).emitted, id, RUNNING) == CountReports(reports, id, Started) / 2
    ensures id in Run(reports).pending.started <==> CountReports(reports, id, Started) % 2 == 1
    decreases |reports|
  {
    if reports != [] {
      var n := |reports| - 1;
      StartsArePaired(reports[..n], id);
      LastReport(reports, id, RUNNING);
      EmittedType(Run(reports[..n]).pending, reports[n]);
    }
  }

  /** Its other reports come out one for one. */
  lemma {:induction false} EndsAreNotPaired(reports: seq<Report>, id: string)
    ensures CountEmitted(Run(reports).emitted, id, EXITED) == CountReports(reports, id, Stopped)
    ensures CountEmitted(Run(reports).emitted, id, DESTROYED) == CountReports(reports, id, Removed)
    decreases |reports|
  {
    if reports != [] {
      var n := |reports| - 1;
      EndsAreNotPaired(reports[..n], id);
      LastReport(reports, id, EXITED);
      LastReport(reports, id, DESTROYED);
      EmittedType(Run(reports[..n]).pending, reports[n]);
    }
  }

  function OnlyOf(reports: seq<Report>, id: string): seq<Report> {
    if reports == [] then [] else
    var n := |reports| - 1;
    OnlyOf(reports[..n], id) + if reports[n].id == id then [reports[n]] else []
  }

  function EmittedFor(emitted: seq<(string, ContainerEvent)>, id: string): seq<ContainerEvent> {
    if emitted == [] then [] else
    var n := |emitted| - 1;
    EmittedFor(emitted[..n], id) + if emitted[n].0 == id then [emitted[n].1] else []
  }

  lemma EmittedForAppend(emitted: seq<(string, ContainerEvent)>, id: string, e: ContainerEvent, id': string)
    ensures EmittedFor(emitted + [(id, e)], id') == EmittedFor(emitted, id') + if id == id' then [e] else []
  {
    assert (emitted + [(id, e)])[..|emitted|] == emitted;
  }

  predicate SamePending(p: Pending, q: Pending, id: string) {
    && (id in p.created <==> id in q.created) && (id in p.created ==> p.created[id] == q.created[id])
    && (id in p.started <==> id in q.started) && (id in p.started ==> p.started[id] == q.started[id])
  }

  /** What a report does to a container depends only on what is pending for that container. */
  lemma ReactsAlike(p: Pending, q: Pending, r: Report, id: string)
    requires SamePending(p, q, id)
    ensures SamePending(Translate(p, r).0, if r.id == id then Translate(q, r).0 else q, id)
    ensures r.id == id ==> Translate(p, r).1 == Translate(q, r).1
  {
  }

  lemma LastEmitted(reports: seq<Report>, id: string)
    requires reports != []
    ensures var n := |reports| - 1;
            var before, r := Run(reports[..n]), reports[n];
            var (p, e) := Translate(before.pending, r);
            && Run(reports).pending == p
            && EmittedFor(Run(reports).emitted, id)
               == EmittedFor(before.emitted, id) + if e.Some? && r.id == id then [e.value] else []
  {
    var n := |reports| - 1;
    var before, r := Run(reports[..n]), reports[n];
    var e := Translate(before.pending, r).1;
    if e.Some? {
      EmittedForAppend(before.emitted, r.id, e.value, id);
    }
  }

  /** Containers do not interfere: the very events that come out for one, in their order, and what
      is pending for it, are those of a trace in which its reports are the only ones. */
  lemma {:induction false} ContainersDoNotInterfere(reports: seq<Report>, id: string)
    ensures SamePending(Run(reports).pending, Run(OnlyOf(reports, id)).pending, id)
    ensures EmittedFor(Run(reports).emitted, id) == EmittedFor(Run(OnlyOf(reports, id)).emitted, id)
    decreases |reports|
  {
    if reports != [] {
      var init, r := reports[..|reports| - 1], reports[|reports| - 1];
      var own := OnlyOf(init, id);
      ContainersDoNotInterfere(init, id);
      LastEmitted(reports, id);
      ReactsAlike(Run(init).pending, Run(own).pending, r, id);
      if r.id == id {
        assert OnlyOf(reports, id) == own + [r] && (own + [r])[..|own|] == own;
        LastEmitted(own + [r], id);
      } else {
        assert OnlyOf(reports, id) == own;
      }
    }
  }

  /** Two reports of one start, in either order, make the same event if and only if they do not
      contradict each other: where both say something, they say the same. */
  lemma StartsCommute(a: Report, b: Report)
    ensures WithConfigs(MergeStart(MergeStart(NewEvent(RUNNING), a), b), b)
         == WithConfigs(MergeStart(MergeStart(NewEvent(RUNNING), b), a), a)
       <==> && (a.pid != 0 && b.pid != 0 ==> ToInt32(a.pid) == ToInt32(b.pid))
            && (a.dockerConfig != "" && b.dockerConfig != "" ==> a.dockerConfig == b.dockerConfig)
            && (a.ociConfig != "" && b.ociConfig != "" ==> a.ociConfig == b.ociConfig)
  {
  }

  /** What comes out for two reports of one creation: the names are the first report's, and the
      Docker configuration is the second's unless that is empty. So it is the longer of the two,
      which the merging set out to keep, if and only if the second is empty or no shorter. */
  lemma CreationsMerge(p: Pending, a: Report, b: Report)
    requires a.state == Created && b.state == Created && a.id == b.id && a.id !in p.created
    ensures var (p1, e1) := Translate(p, a);
            var (p2, e2) := Translate(p1, b);
            var dockerConfig := if b.dockerConfig != "" then b.dockerConfig else a.dockerConfig;
            && e1 == None && p2 == p
            && e2 == Some(ContainerEvent(CREATED, a.name, a.imageID, a.image, 0, dockerConfig, b.ociConfig,
                                         0, 0, 0, false))
            && (|dockerConfig| >= |a.dockerConfig| <==> b.dockerConfig == "" || |b.dockerConfig| >= |a.dockerConfig|)
  {
    var (p1, e1) := Translate(p, a);
    var (p2, e2) := Translate(p1, b);
    assert p2.created == p.created;
  }

  /** What comes out for two reports of one start: the process id and the configurations, each as
      the second report has it, or the first where the second says nothing; and no names. */
  lemma StartsMerge(p: Pending, a: Report, b: Report)
    requires a.state == Started && b.state == Started && a.id == b.id && a.id !in p.started
    ensures var (p1, e1) := Translate(p, a);
            var (p2, e2) := Translate(p1, b);
            && e1 == None && p2 == p
            && e2 == Some(ContainerEvent(RUNNING, "", "", "",
                                         ToInt32(if b.pid != 0 then b.pid else a.pid),
                                         if b.dockerConfig != "" then b.dockerConfig else a.dockerConfig,
                                         if b.ociConfig != "" then b.ociConfig else a.ociConfig,
                                         0, 0, 0, false))
  {
    var (p1, e1) := Translate(p, a);
    var (p2, e2) := Translate(p1, b);
    assert p2.started == p.started;
  }

  /** What comes out for a removal: nothing but the configurations. */
  lemma RemovalIsReported(p: Pending, r: Report)
    requires r.state == Removed
    ensures Translate(p, r)
         == (p, Some(ContainerEvent(DESTROYED, "", "", "", 0, r.dockerConfig, r.ociConfig, 0, 0, 0, false)))
  {
  }

  /** A wait status is taken apart as Linux puts it together, whatever its upper half: seven bits of
      signal, a core dump flag and eight bits of status. No signal is an exit, with the status;
      seven ones are a stop, which is neither; and any other signal is a death, with the flag. */
  lemma ExitStatusExactly(r: Report, upper: nat, status: nat, core: nat, signal: nat)
    requires status < 0x100 && core < 2 && signal < 0x80
    requires r.exitCode % 0x1_0000_0000 == upper * 0x1_0000 + status * 0x100 + core * 0x80 + signal
    ensures var e := ExitEvent(r);
            && e.exitStatus == (if signal == 0 then status else 0)
            && e.exitSignal == (if signal == 0x7f then 0 else signal)
            && (e.coreDumped <==> 0 < signal < 0x7f && core == 1)
  {
    var ws := Status(r.exitCode);
    SignalBits(ws, upper * 0x100 + status, core, signal);
    StatusBits(ws, upper, status, core * 0x80 + signal);
  }

  lemma SignalBits(ws: nat, upper: nat, core: nat, signal: nat)
    requires core < 2 && signal < 0x80 && ws == upper * 0x100 + core * 0x80 + signal
    ensures ws % 0x80 == signal && (ws / 0x80) % 2 == core
  {
    assert ws / 0x80 == upper * 2 + core;
  }

  lemma StatusBits(ws: nat, upper: nat, status: nat, lower: nat)
    requires status < 0x100 && lower < 0x100 && ws == upper * 0x1_0000 + status * 0x100 + lower
    ensures (ws / 0x100) % 0x100 == status
  {
    assert ws / 0x100 == upper * 0x100 + status;
  }

  /** What comes out for a stop: everything that is reported, and the wait status taken apart. */
  lemma StopIsReported(p: Pending, r: Report, upper: nat, status: nat, core: nat, signal: nat)
    requires r.state == Stopped
    requires status < 0x100 && core < 2 && signal < 0x80
    requires r.exitCode % 0x1_0000_0000 == upper * 0x1_0000 + status * 0x100 + core * 0x80 + signal
    ensures Translate(p, r)
         == (p, Some(ContainerEvent(EXITED, r.name, r.imageID, r.image, ToInt32(r.pid),
                                    r.dockerConfig, r.ociConfig, r.exitCode,
                                    if signal == 0 then status else 0,
                                    if signal == 0x7f then 0 else signal,
                                    0 < signal < 0x7f && core == 1)))
  {
    ExitStatusExactly(r, upper, status, core, signal);
  }

  /** Every exit status, signal and flag put into a wait status is taken out again. */
  lemma ExitStatusRoundTrip(r: Report, status: nat, signal: nat, core: bool)
    requires status < 0x100 && 0 < signal < 0x7f
    ensures var e := ExitEvent(r.(exitCode := status * 0x100));
            e.exitStatus == status && e.exitSignal == 0 && !e.coreDumped
    ensures var e := ExitEvent(r.(exitCode := signal + if core then 0x80 else 0));
            e.exitStatus == 0 && e.exitSignal == signal && e.coreDumped == core
  {
    ExitStatusExactly(r.(exitCode := status * 0x100), 0, status, 0, 0);
    ExitStatusExactly(r.(exitCode := signal + if core then 0x80 else 0), 0, 0, if core then 1 else 0, signal);
  }

  // --- The container filter ---

  /** An event of a subscription: a container event or any other kind. */
  datatype Event = Event(containerID: string, container: Option<ContainerEvent>)

  /** A filter as configured. Glob matching is given by the names that each glob matches. */
  datatype Config = Config(ids: set<string>, names: set<string>, imageIDs: set<string>, globs: set<string>,
                           matches: (string, string) -> bool)

  /** A container event that matches by name, by image id or by image name. */
  predicate MatchesBy(c: Config, e: Event) {
    && e.container.Some?
    && var cev := e.container.value;
       || (cev.name != "" && cev.name in c.names)
       || (cev.imageID != "" && cev.imageID in c.imageIDs)
       || (cev.imageName != "" && exists g :: g in c.globs && g != "" && c.matches(g, cev.imageName))
  }

  /** A container event matches by nothing else, and anything empty matches nothing. */
  lemma MatchesExactly(c: Config, id: string, cev: ContainerEvent)
    ensures !MatchesBy(c, Event(id, None))
    ensures MatchesBy(c, Event(id, Some(cev))) <==>
              || cev.name in c.names - {""}
              || cev.imageID in c.imageIDs - {""}
              || (cev.imageName != "" && exists g :: g in c.globs - {""} && c.matches(g, cev.imageName))
  {
  }

  predicate IsDestroyed(e: Event) {
    e.container.Some? && e.container.value.typ == DESTROYED
  }

  class ContainerFilter {
    var containerIds: set<string>
    const containerNames: set<string>
    const imageIds: set<string>
    const imageGlobs: set<string>
    const matches: (string, string) -> bool

    constructor (c: Config)
      ensures Valid()
      ensures containerIds == c.ids - {""} && containerNames == c.names - {""}
      ensures imageIds == c.imageIDs - {""} && imageGlobs == c.globs - {""} && matches == c.matches
    {
      containerIds, containerNames := c.ids - {""}, c.names - {""};
      imageIds, imageGlobs, matches := c.imageIDs - {""}, c.globs - {""}, c.matches;
    }

    /** Nothing is configured under the empty string. */
    predicate Valid()
      reads this
    {
      "" !in containerIds && "" !in containerNames && "" !in imageIds && "" !in imageGlobs
    }

    function View(): Config
      reads this
    {
      Config(containerIds, containerNames, imageIds, imageGlobs, matches)
    }

    method AddContainerId(cid: string)
      modifies this`containerIds
      ensures containerIds == old(containerIds) + (if cid != "" then {cid} else {})
    {
      if |cid| > 0 {
        containerIds := containerIds + {cid};
      }
    }

    method FilterFunc(e: Event) returns (accepted: bool)
      requires Valid()
      modifies this`containerIds
      ensures Valid()
      ensures accepted <==> e.containerID in old(containerIds) || MatchesBy(View(), e)
      ensures containerIds == old(containerIds) +
                (if MatchesBy(View(), e) && e.containerID != "" then {e.containerID} else {})
    {
      if e.containerID in containerIds {
        return true;
      }
      if e.container.Some? {
        var cev := e.container.value;
        if cev.name in containerNames || cev.imageID in imageIds {
          AddContainerId(e.containerID);
          return true;
        }
        if cev.imageName != "" {
          var left := imageGlobs;
          while left != {}
            invariant left <= imageGlobs && containerIds == old(containerIds)
            invariant forall g :: g in imageGlobs - left ==> !matches(g, cev.imageName)
            decreases left
          {
            var g :| g in left;
            if matches(g, cev.imageName) {
              AddContainerId(e.containerID);
              return true;
            }
            left := left - {g};
          }
        }
      }
      return false;
    }

    method DoFunc(e: Event)
      requires Valid()
      modifies this`containerIds
      ensures Valid()
      ensures containerIds == if IsDestroyed(e) then old(containerIds) - {e.containerID} else old(containerIds)
    {
      if e.container.Some? {
        if e.container.value.typ == DESTROYED {
          containerIds := containerIds - {e.containerID};
        }
      }
    }

    /** An event on its way through the filter, and through DoFunc if it is accepted. */
    method Process(e: Event) returns (accepted: bool)
      requires Valid()
      modifies this`containerIds
      ensures Valid()
      ensures accepted <==> Accepts(old(View()), e)
      ensures View() == After(old(View()), e)
    {
      accepted := FilterFunc(e);
      if accepted {
        DoFunc(e);
      }
    }
  }

  predicate Accepts(c: Config, e: Event) {
    e.containerID in c.ids || MatchesBy(c, e)
  }

  /** The filter after one event. */
  function After(c: Config, e: Event): Config {
    var found := c.ids + if MatchesBy(c, e) && e.containerID != "" then {e.containerID} else {};
    c.(ids := if Accepts(c, e) && IsDestroyed(e) then found - {e.containerID} else found)
  }

  function AfterAll(c: Config, history: seq<Event>): Config {
    if history == [] then c else After(AfterAll(c, history[..|history| - 1]), history[|history| - 1])
  }

  /** No container of this id was reported destroyed at or after place k. */
  ghost predicate AliveSince(history: seq<Event>, id: string, k: int) {
    forall j :: 0 <= j < |history| && k <= j && history[j].container.Some? && history[j].containerID == id ==>
      history[j].container.value.typ != DESTROYED
  }

  /** The id was configured, or matched at some earlier event, and not destroyed since. */
  ghost predicate Remembered(c: Config, history: seq<Event>, id: string) {
    || (id in c.ids && AliveSince(history, id, 0))
    || (id != "" && exists k :: 0 <= k < |history| && MatchedAt(c, history, id, k) && AliveSince(history, id, k))
  }

  predicate MatchedAt(c: Config, history: seq<Event>, id: string, k: nat)
    requires k < |history|
  {
    history[k].containerID == id && MatchesBy(c, history[k])
  }

  lemma {:induction false} OnlyIdsChange(c: Config, history: seq<Event>)
    ensures AfterAll(c, history) == c.(ids := AfterAll(c, history).ids)
    decreases |history|
  {
    if history != [] {
      OnlyIdsChange(c, history[..|history| - 1]);
    }
  }

  lemma {:induction false} MemoryIsHistory(c: Config, history: seq<Event>, id: string)
    ensures id in AfterAll(c, history).ids <==> Remembered(c, history, id)
    decreases |history|
  {
    if history != [] {
      var n := |history| - 1;
      var init, e := history[..n], history[n];
      MemoryIsHistory(c, init, id);
      OnlyIdsChange(c, init);
      var gone := IsDestroyed(e) && e.containerID == id;
      assert forall k :: AliveSince(history, id, k) <==> AliveSince(init, id, k) && (k <= n ==> !gone);
      assert forall k :: 0 <= k < n ==> (MatchedAt(c, history, id, k) <==> MatchedAt(c, init, id, k));
      assert MatchedAt(c, history, id, n) <==> e.containerID == id && MatchesBy(c, e);
      assert AliveSince(init, id, n);
      if MatchedAt(c, history, id, n) && id != "" && !gone {
        assert AliveSince(history, id, n);
      }
    }
  }

  /** The filter with its memory accepts an event if and only if it matches by itself, or its
      container was configured or matched before and has not been destroyed since. */
  lemma FilterMeansHistory(c: Config, history: seq<Event>, e: Event)
    ensures Accepts(AfterAll(c, history), e) <==> MatchesBy(c, e) || Remembered(c, history, e.containerID)
  {
    MemoryIsHistory(c, history, e.containerID);
    OnlyIdsChange(c, history);
  }
}
