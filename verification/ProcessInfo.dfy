/** pkg/sensor/process_info.go: two caches of tasks behind one interface, and the walks up the
    parent graph that answer for a process. */
module ProcessInfo {
  import opened Wrappers

  const CACHE_SIZE: nat := 32768

  const CLONE_THREAD: nat := 0x10000

  type Cred = (bool, nat, nat)      // initialized, uid, gid

  datatype Task = Task(
    pid: int, tgid: int, ppid: int, cloneFlags: nat, command: string,
    commandLine: seq<string>, creds: Cred, containerId: string)

  const ZERO_TASK := Task(0, 0, 0, 0, "", [], (false, 0, 0), "")

  /** What a cache holds, as far as look-ups can tell. */
  type Tasks = map<int, Task>

  // --- The abstract operations ---

  datatype Setter = ContainerId(cid: string) | Credentials(creds: Cred) | CommandLine(line: seq<string>)

  function Apply(t: Task, s: Setter): Task {
    match s
    case ContainerId(cid) => t.(containerId := cid)
    case Credentials(creds) => t.(creds := creds)
    case CommandLine(line) => t.(commandLine := line)
  }

  /** A setter changes a task that is there, and nothing else. */
  function Set(tasks: Tasks, pid: int, s: Setter): Tasks {
    if pid in tasks then tasks[pid := Apply(tasks[pid], s)] else tasks
  }

  // --- The two caches ---

  class ArrayTaskCache {
    const entries: array<Task>

    ghost predicate Valid()
      reads this, entries
    {
      entries.Length == CACHE_SIZE
    }

    /** An entry without a tgid is a miss. */
    ghost function View(): Tasks
      requires Valid()
      reads this, entries
    {
      map pid | 0 <= pid < CACHE_SIZE && entries[pid].tgid != 0 :: entries[pid]
    }

    constructor ()
      ensures Valid() && View() == map[] && fresh(entries)
      ensures forall pid :: 0 <= pid < CACHE_SIZE ==> entries[pid] == ZERO_TASK
    {
      entries := new Task[CACHE_SIZE](_ => ZERO_TASK);
    }

    method LookupTask(pid: int) returns (t: Task, ok: bool)
      requires Valid() && 0 <= pid < CACHE_SIZE
      ensures ok <==> pid in View()
      ensures t == entries[pid] && (ok ==> t == View()[pid])
    {
      t := entries[pid];
      ok := t.tgid != 0;
    }

    method InsertTask(pid: int, t: Task)
      requires Valid() && 0 <= pid < CACHE_SIZE
      modifies entries
      ensures Valid() && entries[..] == old(entries[..])[pid := t]
      ensures View() == if t.tgid != 0 then old(View())[pid := t] else old(View()) - {pid}
    {
      entries[pid] := t;
    }

    method SetTask(pid: int, s: Setter)
      requires Valid() && 0 <= pid < CACHE_SIZE
      modifies entries
      ensures Valid() && entries[..] == old(entries[..])[pid := Apply(old(entries[pid]), s)]
      ensures View() == Set(old(View()), pid, s)
    {
      entries[pid] := Apply(entries[pid], s);
    }
  }

  class MapTaskCache {
    var entries: map<int, Task>

    constructor ()
      ensures entries == map[]
    {
      entries := map[];
    }

    method LookupTask(pid: int) returns (t: Task, ok: bool)
      ensures ok <==> pid in entries
      ensures if ok then t == entries[pid] else t == ZERO_TASK
    {
      if pid in entries {
        t, ok := entries[pid], true;
      } else {
        t, ok := ZERO_TASK, false;
      }
    }

    method InsertTask(pid: int, t: Task)
      modifies this
      ensures entries == old(entries)[pid := t]
    {
      entries := entries[pid := t];
    }

    method SetTask(pid: int, s: Setter)
      modifies this
      ensures entries == Set(old(entries), pid, s)
    {
      if pid in entries {
        var t := entries[pid];
        t := Apply(t, s);
        entries := entries[pid := t];
      }
    }
  }

  /** The two caches differ in what a look-up that misses leaves in the task: a setter for an
      absent pid is remembered by the array, and forgotten by the map. */
  method MissesDiffer(pid: int, cid: string) returns (fromArray: Task, fromMap: Task)
    requires 0 <= pid < CACHE_SIZE
    ensures fromArray.containerId == cid && fromMap == ZERO_TASK
  {
    var a := new ArrayTaskCache();
    var m := new MapTaskCache();
    a.SetTask(pid, ContainerId(cid));
    m.SetTask(pid, ContainerId(cid));
    var ok: bool;
    fromArray, ok := a.LookupTask(pid);
    fromMap, ok := m.LookupTask(pid);
  }

  // --- The parent graph ---

  /** Following parents from p leaves the cache within n steps. */
  ghost predicate Escapes(tasks: Tasks, p: int, n: nat)
    decreases n
  {
    p !in tasks || (n > 0 && Escapes(tasks, tasks[p].ppid, n - 1))
  }

  ghost predicate Terminates(tasks: Tasks, p: int) {
    exists n: nat :: Escapes(tasks, p, n)
  }

  /** No walk up the parent graph goes on for ever. */
  ghost predicate Acyclic(tasks: Tasks) {
    forall p :: p in tasks ==> Terminates(tasks, p)
  }

  /** The k-th task reached by following parents from p, which need not be cached itself. */
  function Ancestor(tasks: Tasks, p: int, k: nat): Option<int>
    decreases k
  {
    if k == 0 then Some(p)
    else if p !in tasks then None
    else Ancestor(tasks, tasks[p].ppid, k - 1)
  }

  ghost predicate OnChain(tasks: Tasks, p: int, x: int) {
    exists k: nat :: Ancestor(tasks, p, k) == Some(x)
  }

  lemma ChainGoesOn(tasks: Tasks, p: int, x: int)
    requires p in tasks && !OnChain(tasks, p, x)
    ensures p != x && !OnChain(tasks, tasks[p].ppid, x)
  {
    assert Ancestor(tasks, p, 0) == Some(p);
    forall k: nat
      ensures Ancestor(tasks, tasks[p].ppid, k) != Some(x)
    {
      assert Ancestor(tasks, p, k + 1) == Ancestor(tasks, tasks[p].ppid, k);
    }
  }

  /** Off the chain, an insertion is not noticed. */
  lemma {:induction false} EscapesAsBefore(tasks: Tasks, pid: int, t: Task, p: int, n: nat)
    requires Escapes(tasks, p, n) && !OnChain(tasks, p, pid)
    ensures Escapes(tasks[pid := t], p, n)
    decreases n
  {
    assert Ancestor(tasks, p, 0) == Some(p);
    if p in tasks {
      ChainGoesOn(tasks, p, pid);
      EscapesAsBefore(tasks, pid, t, tasks[p].ppid, n - 1);
    }
  }

  lemma {:induction false} EscapesThrough(tasks: Tasks, pid: int, t: Task, p: int, n: nat, m: nat)
    requires Escapes(tasks, p, n) && Escapes(tasks[pid := t], t.ppid, m)
    ensures Escapes(tasks[pid := t], p, n + m + 1)
    decreases n
  {
    if p == pid {
      EscapesLater(tasks[pid := t], t.ppid, m, n + m);
    } else if p in tasks {
      EscapesThrough(tasks, pid, t, tasks[p].ppid, n - 1, m);
    }
  }

  lemma {:induction false} EscapesLater(tasks: Tasks, p: int, n: nat, m: nat)
    requires Escapes(tasks, p, n) && n <= m
    ensures Escapes(tasks, p, m)
    decreases n
  {
    if p in tasks {
      EscapesLater(tasks, tasks[p].ppid, n - 1, m - 1);
    }
  }

  /** A walk that leaves the cache and on whose way pid lies passes pid first. */
  lemma {:induction false} PassesPid(tasks: Tasks, pid: int, t: Task, p: int, k: nat, n: nat) returns (n': nat)
    requires Ancestor(tasks, p, k) == Some(pid) && Escapes(tasks[pid := t], p, n)
    ensures n' <= n && Escapes(tasks[pid := t], pid, n')
    decreases k
  {
    if p == pid {
      n' := n;
    } else {
      n' := PassesPid(tasks, pid, t, tasks[p].ppid, k - 1, n - 1);
    }
  }

  lemma {:induction false} NeverEscapes(tasks: Tasks, pid: int, t: Task, k: nat, n: nat)
    requires Ancestor(tasks, t.ppid, k) == Some(pid)
    ensures !Escapes(tasks[pid := t], pid, n)
    decreases n
  {
    if n > 0 && Escapes(tasks[pid := t], t.ppid, n - 1) {
      var n' := PassesPid(tasks, pid, t, t.ppid, k, n - 1);
      NeverEscapes(tasks, pid, t, k, n');
    }
  }

  /** Inserting a task keeps the graph acyclic if and only if its pid is not on its parent's
      chain of ancestors. */
  lemma InsertKeepsAcyclic(tasks: Tasks, pid: int, t: Task)
    requires Acyclic(tasks)
    ensures Acyclic(tasks[pid := t]) <==> !OnChain(tasks, t.ppid, pid)
  {
    var after := tasks[pid := t];
    if k: nat :| Ancestor(tasks, t.ppid, k) == Some(pid) {
      forall n: nat
        ensures !Escapes(after, pid, n)
      {
        NeverEscapes(tasks, pid, t, k, n);
      }
      assert pid in after && !Terminates(after, pid);
    } else {
      var m := StepsOut(tasks, t.ppid);
      EscapesAsBefore(tasks, pid, t, t.ppid, m);
      forall p | p in after
        ensures Terminates(after, p)
      {
        var n := StepsOut(tasks, p);
        EscapesThrough(tasks, pid, t, p, n, m);
      }
    }
  }

  lemma StepsOut(tasks: Tasks, p: int) returns (n: nat)
    requires Acyclic(tasks)
    ensures Escapes(tasks, p, n)
  {
    if p in tasks {
      assert Terminates(tasks, p);
      n :| Escapes(tasks, p, n);
    } else {
      n := 0;
    }
  }

  /** Taking a task out only shortens walks. */
  lemma DropKeepsAcyclic(tasks: Tasks, pid: int)
    requires Acyclic(tasks)
    ensures Acyclic(tasks - {pid})
  {
    forall p | p in tasks - {pid}
      ensures Terminates(tasks - {pid}, p)
    {
      var n := StepsOut(tasks, p);
      DropKeepsEscape(tasks, pid, p, n);
    }
  }

  lemma {:induction false} DropKeepsEscape(tasks: Tasks, pid: int, p: int, n: nat)
    requires Escapes(tasks, p, n)
    ensures Escapes(tasks - {pid}, p, n)
    decreases n
  {
    if p in tasks && p != pid {
      DropKeepsEscape(tasks, pid, tasks[p].ppid, n - 1);
    }
  }

  /** Setters do not touch the graph. */
  lemma SetKeepsAcyclic(tasks: Tasks, pid: int, s: Setter)
    requires Acyclic(tasks)
    ensures Acyclic(Set(tasks, pid, s))
  {
    forall p | p in tasks
      ensures Terminates(Set(tasks, pid, s), p)
    {
      var n := StepsOut(tasks, p);
      SetKeepsEscape(tasks, pid, s, p, n);
    }
  }

  lemma {:induction false} SetKeepsEscape(tasks: Tasks, pid: int, s: Setter, p: int, n: nat)
    requires Escapes(tasks, p, n)
    ensures Escapes(Set(tasks, pid, s), p, n)
    decreases n
  {
    if p in tasks {
      SetKeepsEscape(tasks, pid, s, tasks[p].ppid, n - 1);
    }
  }

  /** Since a pid is never forgotten, its reuse by a descendant closes a cycle, and the walk from
      it never ends: here b is a child of a, and then a is a child of b. */
  lemma PidReuseCloses(a: int, b: int, ta: Task, tb: Task)
    requires a != b && tb.ppid == a && ta.ppid == b
    ensures Acyclic(map[b := tb]) && !Terminates(map[b := tb][a := ta], a)
  {
    var before, after := map[b := tb], map[b := tb][a := ta];
    assert Escapes(before, b, 1);
    assert Ancestor(before, b, 1) == Some(a);
    forall n: nat
      ensures !Escapes(after, a, n)
    {
      NeverEscapes(before, a, ta, 1, n);
    }
  }

  // --- Answers ---

  /** What the walk to the leader comes to: the pid and ppid that a process id is derived from, or
      a pid that is not cached. */
  datatype Answer = Found(pid: int, ppid: int) | Missing(at: int)

  ghost function LeaderWithin(tasks: Tasks, p: int, n: nat): Answer
    requires Escapes(tasks, p, n)
    decreases n
  {
    if p !in tasks then Missing(p)
    else if tasks[p].pid == tasks[p].tgid then Found(tasks[p].pid, tasks[p].ppid)
    else LeaderWithin(tasks, tasks[p].ppid, n - 1)
  }

  /** The nearest container id up the chain, or none. */
  ghost function ContainerWithin(tasks: Tasks, p: int, n: nat): string
    requires Escapes(tasks, p, n)
    decreases n
  {
    if p !in tasks then ""
    else if tasks[p].containerId != "" then tasks[p].containerId
    else ContainerWithin(tasks, tasks[p].ppid, n - 1)
  }

  /** How many steps are allowed does not matter. */
  lemma {:induction false} AnswersAgree(tasks: Tasks, p: int, n: nat, m: nat)
    requires Escapes(tasks, p, n) && Escapes(tasks, p, m)
    ensures LeaderWithin(tasks, p, n) == LeaderWithin(tasks, p, m)
    ensures ContainerWithin(tasks, p, n) == ContainerWithin(tasks, p, m)
    decreases n
  {
    if p in tasks {
      AnswersAgree(tasks, tasks[p].ppid, n - 1, m - 1);
    }
  }

  ghost function Leader(tasks: Tasks, p: int): Answer
    requires Terminates(tasks, p)
  {
    var n: nat :| Escapes(tasks, p, n);
    LeaderWithin(tasks, p, n)
  }

  ghost function Container(tasks: Tasks, p: int): string
    requires Terminates(tasks, p)
  {
    var n: nat :| Escapes(tasks, p, n);
    ContainerWithin(tasks, p, n)
  }

  /** One step of either walk. */
  lemma AnswersStep(tasks: Tasks, p: int)
    requires Terminates(tasks, p)
    ensures p in tasks ==> Terminates(tasks, tasks[p].ppid)
    ensures Leader(tasks, p) ==
              if p !in tasks then Missing(p)
              else if tasks[p].pid == tasks[p].tgid then Found(tasks[p].pid, tasks[p].ppid)
              else Leader(tasks, tasks[p].ppid)
    ensures Container(tasks, p) ==
              if p !in tasks then ""
              else if tasks[p].containerId != "" then tasks[p].containerId
              else Container(tasks, tasks[p].ppid)
  {
    var n: nat :| Escapes(tasks, p, n) && Leader(tasks, p) == LeaderWithin(tasks, p, n);
    var m: nat :| Escapes(tasks, p, m) && Container(tasks, p) == ContainerWithin(tasks, p, m);
    AnswersAgree(tasks, p, n, m);
    if p in tasks {
      var q := tasks[p].ppid;
      assert Escapes(tasks, q, n - 1);
      var n': nat :| Escapes(tasks, q, n') && Leader(tasks, q) == LeaderWithin(tasks, q, n');
      var m': nat :| Escapes(tasks, q, m') && Container(tasks, q) == ContainerWithin(tasks, q, m');
      AnswersAgree(tasks, q, n - 1, n');
      AnswersAgree(tasks, q, n - 1, m');
    }
  }

  /** Off the chain, answers stay as they were. */
  lemma {:induction false} AnswersAsBefore(tasks: Tasks, pid: int, t: Task, p: int, n: nat)
    requires Escapes(tasks, p, n) && !OnChain(tasks, p, pid)
    ensures Terminates(tasks, p) && Terminates(tasks[pid := t], p)
    ensures Leader(tasks[pid := t], p) == Leader(tasks, p)
    ensures Container(tasks[pid := t], p) == Container(tasks, p)
    decreases n
  {
    EscapesAsBefore(tasks, pid, t, p, n);
    AnswersStep(tasks, p);
    AnswersStep(tasks[pid := t], p);
    assert Ancestor(tasks, p, 0) == Some(p);
    if p in tasks {
      ChainGoesOn(tasks, p, pid);
      AnswersAsBefore(tasks, pid, t, tasks[p].ppid, n - 1);
    }
  }

  predicate IsThread(cloneFlags: nat) {
    (cloneFlags / CLONE_THREAD) % 2 == 1
  }

  /** CLONE_THREAD is the bit of value 0x10000. */
  lemma ThreadBit(upper: nat, bit: nat, lower: nat)
    requires bit < 2 && lower < 0x1_0000
    ensures IsThread(upper * 0x2_0000 + bit * 0x1_0000 + lower) <==> bit == 1
  {
    assert (upper * 0x2_0000 + bit * 0x1_0000 + lower) / CLONE_THREAD == upper * 2 + bit;
  }

  /** The task that decodeNewTask caches for a child, given its parent's container. */
  function NewTask(parent: int, child: int, cloneFlags: nat, command: string, container: string): Task {
    Task(child, if IsThread(cloneFlags) then parent else child, parent, cloneFlags, command,
         [], (false, 0, 0), container)
  }

  /** A new task that is not its own ancestor: a thread has its creator's process id, a process
      its own; both are in the parent's container; and every pid whose chain does not pass the
      new one gets the answers it got before. */
  lemma NewTaskAnswers(tasks: Tasks, parent: int, child: int, cloneFlags: nat, command: string)
    requires Acyclic(tasks) && !OnChain(tasks, parent, child)
    ensures Terminates(tasks, parent)
    ensures var after := tasks[child := NewTask(parent, child, cloneFlags, command, Container(tasks, parent))];
            && Acyclic(after)
            && Leader(after, child) == (if IsThread(cloneFlags) then Leader(tasks, parent) else Found(child, parent))
            && Container(after, child) == Container(tasks, parent)
            && after[child].pid == child && after[child].ppid == parent
            && after[child].cloneFlags == cloneFlags && after[child].command == command
            && after[child].commandLine == [] && !after[child].creds.0
            && (forall p :: !OnChain(tasks, p, child) ==>
                  && Terminates(tasks, p) && Terminates(after, p)
                  && Leader(after, p) == Leader(tasks, p)
                  && Container(after, p) == Container(tasks, p))
  {
    var m := StepsOut(tasks, parent);
    var t := NewTask(parent, child, cloneFlags, command, Container(tasks, parent));
    var after := tasks[child := t];
    InsertKeepsAcyclic(tasks, child, t);
    AnswersAsBefore(tasks, child, t, parent, m);
    assert Ancestor(tasks, parent, 0) == Some(parent);
    assert Terminates(after, child);
    AnswersStep(after, child);
    forall p | !OnChain(tasks, p, child)
      ensures Terminates(tasks, p) && Terminates(after, p)
      ensures Leader(after, p) == Leader(tasks, p) && Container(after, p) == Container(tasks, p)
    {
      var n := StepsOut(tasks, p);
      AnswersAsBefore(tasks, child, t, p, n);
    }
  }

  /** If no cached task has the new pid for its parent, only the new pid's own chain passes it. */
  lemma {:induction false} UnreferencedIsOffChains(tasks: Tasks, child: int, p: int, k: nat)
    requires p != child && forall q :: q in tasks ==> tasks[q].ppid != child
    ensures Ancestor(tasks, p, k) != Some(child)
    decreases k
  {
    if k > 0 && p in tasks {
      UnreferencedIsOffChains(tasks, child, tasks[p].ppid, k - 1);
    }
  }

  // --- Whole runs ---

  predicate HasZeroNumbers(t: Task) {
    t.pid == t.tgid == t.ppid == 0
  }

  datatype Operation = Insert(pid: int, t: Task) | Change(pid: int, s: Setter)

  function Perform(tasks: Tasks, op: Operation): Tasks {
    match op
    case Insert(pid, t) => tasks[pid := t]
    case Change(pid, s) => Set(tasks, pid, s)
  }

  function After(ops: seq<Operation>): Tasks {
    if ops == [] then map[] else Perform(After(ops[..|ops| - 1]), ops[|ops| - 1])
  }

  /** In no insertion of the run is the new pid on its parent's chain of ancestors. */
  ghost predicate NoOwnAncestor(ops: seq<Operation>) {
    forall i :: 0 <= i < |ops| && ops[i].Insert? ==> !OnChain(After(ops[..i]), ops[i].t.ppid, ops[i].pid)
  }

  /** In every state of such a run, every walk up the parent graph ends. */
  lemma {:induction false} RunsStayAcyclic(ops: seq<Operation>)
    requires NoOwnAncestor(ops)
    ensures Acyclic(After(ops))
    decreases |ops|
  {
    if ops != [] {
      var n := |ops| - 1;
      var init := ops[..n];
      assert forall i :: 0 <= i < n ==> init[..i] == ops[..i] && init[i] == ops[i];
      RunsStayAcyclic(init);
      match ops[n]
      case Insert(pid, t) => InsertKeepsAcyclic(After(init), pid, t);
      case Change(pid, s) => SetKeepsAcyclic(After(init), pid, s);
    }
  }

  /** A pid is cached from its first insertion on. */
  lemma {:induction false} CachedExactly(ops: seq<Operation>, pid: int)
    ensures pid in After(ops) <==> exists i :: 0 <= i < |ops| && ops[i].Insert? && ops[i].pid == pid
    decreases |ops|
  {
    if ops != [] {
      CachedExactly(ops[..|ops| - 1], pid);
    }
  }

  predicate SameKind(a: Setter, b: Setter) {
    match a
    case ContainerId(_) => b.ContainerId?
    case Credentials(_) => b.Credentials?
    case CommandLine(_) => b.CommandLine?
  }

  /** The task has what the setter sets. */
  predicate Shows(t: Task, s: Setter) {
    match s
    case ContainerId(cid) => t.containerId == cid
    case Credentials(creds) => t.creds == creds
    case CommandLine(line) => t.commandLine == line
  }

  /** Nothing after place i inserts this pid again. */
  ghost predicate LastInserted(ops: seq<Operation>, pid: int, i: nat) {
    && i < |ops| && ops[i].Insert? && ops[i].pid == pid
    && forall k :: i < k < |ops| && ops[k].Insert? ==> ops[k].pid != pid
  }

  /** What the cache holds of a pid is what was inserted last, but for what setters change. */
  lemma {:induction false} NumbersAreLast(ops: seq<Operation>, pid: int, i: nat)
    requires LastInserted(ops, pid, i)
    ensures pid in After(ops)
    ensures var t, was := After(ops)[pid], ops[i].t;
            && t.pid == was.pid && t.tgid == was.tgid && t.ppid == was.ppid
            && t.cloneFlags == was.cloneFlags && t.command == was.command
    decreases |ops|
  {
    if i < |ops| - 1 {
      NumbersAreLast(ops[..|ops| - 1], pid, i);
    }
  }

  /** Nothing after place j says anything of what this setter sets, for this pid. */
  ghost predicate LastSaid(ops: seq<Operation>, pid: int, j: nat, s: Setter) {
    && j < |ops| && ops[j].pid == pid
    && (if ops[j].Insert? then Shows(ops[j].t, s) else ops[j].s == s && pid in After(ops[..j]))
    && forall k :: j < k < |ops| && ops[k].pid == pid ==> ops[k].Change? && !SameKind(ops[k].s, s)
  }

  /** A container id, credentials or a command line are those set, or inserted, last. */
  lemma {:induction false} SettersAreLast(ops: seq<Operation>, pid: int, j: nat, s: Setter)
    requires LastSaid(ops, pid, j, s)
    ensures pid in After(ops) && Shows(After(ops)[pid], s)
    decreases |ops|
  {
    var n := |ops| - 1;
    if j < n {
      assert ops[..n][..j] == ops[..j];
      SettersAreLast(ops[..n], pid, j, s);
    }
  }

  ghost predicate InRange(ops: seq<Operation>) {
    forall i :: 0 <= i < |ops| ==> 0 <= ops[i].pid < CACHE_SIZE
  }

  /** The entry of the array and the map's task are the same where the map has one, and the entry has
      zero numbers elsewhere. */
  predicate SameTask(entry: Task, tasks: Tasks, pid: int) {
    if pid in tasks then entry == tasks[pid] else HasZeroNumbers(entry)
  }

  /** Both caches after the same operations. */
  method RunBoth(ops: seq<Operation>) returns (a: ArrayTaskCache, m: MapTaskCache)
    requires InRange(ops)
    ensures fresh(a) && fresh(a.entries) && fresh(m)
    ensures a.Valid() && m.entries == After(ops)
    ensures forall p :: 0 <= p < CACHE_SIZE ==> SameTask(a.entries[p], After(ops), p)
  {
    a := new ArrayTaskCache();
    m := new MapTaskCache();
    for i := 0 to |ops|
      invariant a.Valid() && fresh(a) && fresh(a.entries) && fresh(m)
      invariant m.entries == After(ops[..i])
      invariant forall p :: 0 <= p < CACHE_SIZE ==> SameTask(a.entries[p], m.entries, p)
    {
      assert ops[..i + 1][..i] == ops[..i];
      ghost var before := a.entries[..];
      match ops[i] {
        case Insert(p, t) =>
          a.InsertTask(p, t);
          m.InsertTask(p, t);
        case Change(p, s) =>
          a.SetTask(p, s);
          m.SetTask(p, s);
      }
      assert forall p :: 0 <= p < CACHE_SIZE && p != ops[i].pid ==> a.entries[p] == a.entries[..][p] == before[p];
      assert a.entries[ops[i].pid] == a.entries[..][ops[i].pid];
    }
    assert ops[..|ops|] == ops;
  }

  /** Both caches, given the same operations and then asked the same: the map hits what was
      inserted, the array what was inserted with a tgid, so that they agree on hit or miss if and
      only if the task they are asked for has one. Where the map hits, both show the same task; and
      where it misses, both show the zero numbers that the walks go by. */
  method Lockstep(ops: seq<Operation>, pid: int) returns (fromArray: Task, inArray: bool, fromMap: Task, inMap: bool)
    requires 0 <= pid < CACHE_SIZE && InRange(ops)
    ensures inMap <==> pid in After(ops)
    ensures inArray == inMap <==> (pid in After(ops) ==> After(ops)[pid].tgid != 0)
    ensures inMap ==> fromArray == fromMap == After(ops)[pid]
    ensures !inMap ==> HasZeroNumbers(fromArray) && HasZeroNumbers(fromMap)
  {
    var a, m := RunBoth(ops);
    fromArray, inArray := a.LookupTask(pid);
    fromMap, inMap := m.LookupTask(pid);
  }

  // --- The cache of process information ---

  /** The taskCache interface: one of its two implementations. */
  datatype TaskCache = ArrayCache(a: ArrayTaskCache) | MapCache(m: MapTaskCache) {

    ghost function Footprint(): set<object> {
      match this
      case ArrayCache(a) => {a, a.entries}
      case MapCache(m) => {m}
    }

    ghost predicate Valid()
      reads Footprint()
    {
      ArrayCache? ==> a.Valid()
    }

    predicate InRange(pid: int) {
      ArrayCache? ==> 0 <= pid < CACHE_SIZE
    }

    ghost function View(): Tasks
      requires Valid()
      reads Footprint()
    {
      match this
      case ArrayCache(a) => a.View()
      case MapCache(m) => m.entries
    }

    /** Every pid that a walk can come to is one that the cache can be asked for. */
    ghost predicate Closed()
      requires Valid()
      reads Footprint()
    {
      forall p :: p in View() ==> InRange(View()[p].ppid)
    }

    /** What a look-up shows of a pid that is not cached. */
    ghost function Missed(pid: int): Task
      requires Valid() && InRange(pid)
      reads Footprint()
    {
      match this
      case ArrayCache(a) => a.entries[pid]
      case MapCache(m) => ZERO_TASK
    }

    /** The tasks after an insertion: the array does not know a task without a tgid. */
    function Inserted(tasks: Tasks, pid: int, t: Task): Tasks {
      if ArrayCache? && t.tgid == 0 then tasks - {pid} else tasks[pid := t]
    }

    method LookupTask(pid: int) returns (t: Task, ok: bool)
      requires Valid() && InRange(pid)
      ensures ok <==> pid in View()
      ensures t == if ok then View()[pid] else Missed(pid)
    {
      match this {
        case ArrayCache(a) => t, ok := a.LookupTask(pid);
        case MapCache(m) => t, ok := m.LookupTask(pid);
      }
    }

    method InsertTask(pid: int, t: Task)
      requires Valid() && InRange(pid)
      modifies Footprint()
      ensures Valid() && View() == Inserted(old(View()), pid, t)
    {
      match this {
        case ArrayCache(a) => a.InsertTask(pid, t);
        case MapCache(m) => m.InsertTask(pid, t);
      }
    }
  }

  class ProcessInfoCache {
    const cache: TaskCache

    constructor (cache: TaskCache)
      ensures this.cache == cache
    {
      this.cache := cache;
    }

    /** On an acyclic graph the walk ends. If it comes to a thread group leader it gives that one;
        if it comes to a pid that is not cached it gives what the look-up showed there, and reports
        that as found exactly when its numbers are equal, as those of the zero task are. */
    method LookupLeader(pid: int) returns (t: Task, ok: bool)
      requires cache.Valid() && cache.Closed() && cache.InRange(pid)
      requires Terminates(cache.View(), pid)
      ensures match Leader(cache.View(), pid)
              case Found(p, pp) => ok && t.pid == p && t.ppid == pp
              case Missing(p) => cache.InRange(p) && t == cache.Missed(p) && (ok <==> t.pid == t.tgid)
      ensures Leader(cache.View(), pid).Missing? && cache.MapCache? ==> ok && t == ZERO_TASK
    {
      var p, found := pid, false;
      ghost var n: nat :| Escapes(cache.View(), p, n);
      t, found := cache.LookupTask(p);
      AnswersStep(cache.View(), p);
      while found && t.pid != t.tgid
        invariant Escapes(cache.View(), p, n) && Terminates(cache.View(), p)
        invariant cache.InRange(p) && (found <==> p in cache.View())
        invariant t == if found then cache.View()[p] else cache.Missed(p)
        invariant Leader(cache.View(), pid) == Leader(cache.View(), p)
        decreases n
      {
        AnswersStep(cache.View(), p);
        p := t.ppid;
        n := n - 1;
        t, found := cache.LookupTask(p);
      }
      AnswersStep(cache.View(), p);
      ok := t.pid == t.tgid;
    }

    method ProcessContainerId(pid: int) returns (cid: string, ok: bool)
      requires cache.Valid() && cache.Closed() && cache.InRange(pid)
      requires Terminates(cache.View(), pid)
      ensures cid == Container(cache.View(), pid) && (ok <==> cid != "")
    {
      var p := pid;
      ghost var n: nat :| Escapes(cache.View(), p, n);
      var t, found := cache.LookupTask(p);
      while found
        invariant Escapes(cache.View(), p, n) && Terminates(cache.View(), p)
        invariant found <==> p in cache.View()
        invariant found ==> t == cache.View()[p]
        invariant Container(cache.View(), pid) == Container(cache.View(), p)
        decreases n, found
      {
        AnswersStep(cache.View(), p);
        if |t.containerId| > 0 {
          return t.containerId, true;
        }
        p := t.ppid;
        n := n - 1;
        t, found := cache.LookupTask(p);
      }
      AnswersStep(cache.View(), p);
      return "", false;
    }

    method DecodeNewTask(parentPid: int, childPid: int, cloneFlags: nat, command: string)
      requires cache.Valid() && cache.Closed() && cache.InRange(parentPid) && cache.InRange(childPid)
      requires Terminates(cache.View(), parentPid)
      modifies cache.Footprint()
      ensures cache.Valid() && cache.Closed()
      ensures var was := old(cache.View());
              var t := NewTask(parentPid, childPid, cloneFlags, command, Container(was, parentPid));
              && cache.View() == cache.Inserted(was, childPid, t)
              && (Acyclic(was) ==>
                    (Acyclic(cache.View()) <==>
                       (cache.ArrayCache? && t.tgid == 0) || !OnChain(was, parentPid, childPid)))
    {
      var tgid := if IsThread(cloneFlags) then parentPid else childPid;
      var containerId, _ := ProcessContainerId(parentPid);
      var t := Task(childPid, tgid, parentPid, cloneFlags, command, [], (false, 0, 0), containerId);
      if Acyclic(cache.View()) {
        InsertKeepsAcyclic(cache.View(), childPid, t);
        DropKeepsAcyclic(cache.View(), childPid);
      }
      cache.InsertTask(t.pid, t);
    }
  }

  // --- The answers of the two caches ---

  lemma {:induction false} AfterInRange(ops: seq<Operation>)
    requires InRange(ops) && forall i :: 0 <= i < |ops| && ops[i].Insert? ==> 0 <= ops[i].t.ppid < CACHE_SIZE
    ensures forall p :: p in After(ops) ==> 0 <= p < CACHE_SIZE && 0 <= After(ops)[p].ppid < CACHE_SIZE
    decreases |ops|
  {
    if ops != [] {
      AfterInRange(ops[..|ops| - 1]);
    }
  }

  /** In a run without an insertion that closes a cycle, the walks from any pid end. */
  lemma WalksEnd(ops: seq<Operation>, pid: int)
    requires NoOwnAncestor(ops)
    ensures Terminates(After(ops), pid)
  {
    RunsStayAcyclic(ops);
    var n := StepsOut(After(ops), pid);
  }

  /** A walk to the leader that does not find one has come to a pid that is not cached. */
  lemma {:induction false} MissingIsAbsent(tasks: Tasks, p: int, n: nat)
    requires Escapes(tasks, p, n) && Terminates(tasks, p)
    ensures Leader(tasks, p).Missing? ==> Leader(tasks, p).at !in tasks
    decreases n
  {
    AnswersStep(tasks, p);
    if p in tasks {
      MissingIsAbsent(tasks, tasks[p].ppid, n - 1);
    }
  }

  /** If every task inserted has a tgid, so has every task cached. */
  lemma {:induction false} TasksHaveTgids(ops: seq<Operation>)
    requires forall i :: 0 <= i < |ops| && ops[i].Insert? ==> ops[i].t.tgid != 0
    ensures forall p :: p in After(ops) ==> After(ops)[p].tgid != 0
    decreases |ops|
  {
    if ops != [] {
      TasksHaveTgids(ops[..|ops| - 1]);
    }
  }

  /** What a process is known by: whether it is reported as found, the numbers that its process id
      is derived from, and its container. */
  datatype Answers = Answers(found: bool, pid: int, ppid: int, containerId: string, contained: bool)

  method Ask(cache: TaskCache, pid: int) returns (answers: Answers)
    requires cache.Valid() && cache.Closed() && cache.InRange(pid)
    requires Terminates(cache.View(), pid)
    ensures match Leader(cache.View(), pid)
            case Found(p, pp) => answers.found && answers.pid == p && answers.ppid == pp
            case Missing(p) =>
              cache.InRange(p) &&
              var t := cache.Missed(p);
              answers.pid == t.pid && answers.ppid == t.ppid && (answers.found <==> t.pid == t.tgid)
    ensures answers.containerId == Container(cache.View(), pid)
    ensures answers.contained <==> answers.containerId != ""
  {
    var pc := new ProcessInfoCache(cache);
    var leader, found := pc.LookupLeader(pid);
    var cid, contained := pc.ProcessContainerId(pid);
    answers := Answers(found, leader.pid, leader.ppid, cid, contained);
  }

  /** The array cache refines the map cache: after the same operations, with every task that is
      cached in the end having a tgid, ProcessId and ProcessContainerId give the same answers,
      whichever cache they walk, for any pid from which the walks end, as they do from all pids in
      a run without an insertion that closes a cycle. */
  method SameAnswers(ops: seq<Operation>, pid: int) returns (fromArray: Answers, fromMap: Answers)
    requires 0 <= pid < CACHE_SIZE && InRange(ops)
    requires forall i :: 0 <= i < |ops| && ops[i].Insert? ==> 0 <= ops[i].t.ppid < CACHE_SIZE
    requires forall p :: p in After(ops) ==> After(ops)[p].tgid != 0
    requires Terminates(After(ops), pid)
    ensures fromArray == fromMap
    ensures fromMap.containerId == Container(After(ops), pid)
    ensures fromMap.found && match Leader(After(ops), pid)
                             case Found(p, pp) => fromMap.pid == p && fromMap.ppid == pp
                             case Missing(_) => fromMap.pid == fromMap.ppid == 0
  {
    var a, m := RunBoth(ops);
    AfterInRange(ops);
    assert a.View() == After(ops);
    ghost var n: nat :| Escapes(After(ops), pid, n);
    MissingIsAbsent(After(ops), pid, n);
    fromArray := Ask(ArrayCache(a), pid);
    fromMap := Ask(MapCache(m), pid);
  }
}
