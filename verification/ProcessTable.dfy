/** Process handles, signals and waiting on Unix, interleaved with everything the kernel does.

    A handle is a process id with a creation time. The kernel reuses ids, so every library call may
    meet a process that is not the one the handle was made for. The model gives each process a serial
    number that no library call can see, and the results compare what the library says with it. */
module ProcessTable {
  import opened Wrappers

  type Pid = p: int | p > 0 witness 1

  datatype UniqueId = UniqueId(pid: Pid, createTime: nat)

  datatype ProcessError = NoSuchProcess(pid: Pid) | AccessDenied(pid: Pid) | Load

  datatype Reply<+T> = Done(value: T) | Failed(error: ProcessError)

  // ----- the process table and the calls that look at it -----

  /** `start` is in ticks since boot; `child` says whether it is a child of this program. */
  datatype Process = Process(start: nat, serial: nat, zombie: bool, child: bool)

  datatype World = World(table: map<Pid, Process>, lastStart: map<Pid, nat>, nextSerial: nat, boot: nat)

  /** `get`: an id without a `stat` file is `NoSuchProcess`; any other failed read is `Load`. */
  function Get(w: World, pid: Pid, readable: bool): Reply<UniqueId> {
    if !readable then Failed(Load)
    else if pid !in w.table then Failed(NoSuchProcess(pid))
    else Done(UniqueId(pid, w.boot + w.table[pid].start))
  }

  /** `is_running`: the handle is compared with the one its id has now. */
  function IsRunning(w: World, h: UniqueId, readable: bool): Reply<bool> {
    match Get(w, h.pid, readable)
    case Done(other) => Done(other == h)
    case Failed(e) => Failed(e)
  }

  /** The part of `_signal` in front of the kill: `Done` means that the kill follows. */
  function CheckBeforeKill(h: UniqueId, running: Reply<bool>): Reply<()> {
    match running
    case Done(true) => Done(())
    case Done(false) => Failed(NoSuchProcess(h.pid))
    case Failed(e) => Failed(e)
  }

  function PidKill(w: World, pid: Pid, permitted: bool): Reply<()> {
    if pid !in w.table then Failed(NoSuchProcess(pid))
    else if !permitted then Failed(AccessDenied(pid))
    else Done(())
  }

  predicate PidExists(table: map<Pid, Process>, pid: Pid) {
    pid in table
  }

  /** `pid_wait` over the tables that the ticks of its interval find; `reaped` is what `waitpid` says. */
  method PidWait(pid: Pid, reaped: bool, ticks: seq<map<Pid, Process>>) returns (r: Reply<()>, ghost polls: nat)
    ensures polls <= |ticks|
    ensures r == Done(()) <==> reaped || exists i | 0 <= i < |ticks| :: pid !in ticks[i]
    ensures r.Failed? ==> r.error == Load && polls == |ticks|
    ensures reaped ==> polls == 0
    ensures !reaped && r.Done? ==>
              polls > 0 && pid !in ticks[polls - 1] && forall i | 0 <= i < polls - 1 :: pid in ticks[i]
  {
    polls := 0;
    if reaped {
      return Done(()), 0;
    }
    for i := 0 to |ticks|
      invariant forall k | 0 <= k < i :: pid in ticks[k]
    {
      if !PidExists(ticks[i], pid) {
        return Done(()), i + 1;
      }
    }
    return Failed(Load), |ticks|;
  }

  // ----- runs -----

  /** What the kernel is relied on for: a reused id gets a later start tick, and boot time does not move. */
  datatype Rules = Rules(laterStarts: bool, steadyBoot: bool)

  const RELIABLE := Rules(true, true)

  datatype Action =
    // the kernel and other programs
    | Spawn(pid: Pid, start: nat, child: bool)
    | Exit(pid: Pid)
    | Reap(pid: Pid)
    | SetBoot(boot: nat)
    // calls of this program; `task` names a call that goes on over several steps
    | CallGet(pid: Pid, readable: bool)
    | CallIsRunning(handle: UniqueId, readable: bool)
    | SignalCheck(task: nat, handle: UniqueId, readable: bool)
    | SignalKill(task: nat, permitted: bool)
    | WaitReaps(handle: UniqueId)
    | WaitFallsBack(task: nat, handle: UniqueId)
    | WaitPolls(task: nat)

  /** `present` records whether the process that the handle was made for was in the table, and
      `occupied` whether any process had its id;
      `check` is the position of the check that a kill followed, `hit` the serial number that has
      the id at the kill, and `permitted` whether the kernel lets this program signal it. */
  datatype Event =
    | Removed(pid: Pid, serial: nat)
    | Got(handle: UniqueId, serial: nat)
    | Answered(handle: UniqueId, readable: bool, answer: Reply<bool>, present: bool, occupied: bool)
    | Refused(handle: UniqueId, readable: bool, error: ProcessError, present: bool)
    | Approved(handle: UniqueId, present: bool)
    | Killed(handle: UniqueId, check: nat, hit: Option<nat>, permitted: bool, reply: Reply<()>)
    | WaitOk(handle: UniqueId)

  datatype Task = Killing(handle: UniqueId, check: nat) | Polling(handle: UniqueId)

  /** `issued` gives for every handle the serial number of the process it was made for. */
  datatype System = System(
    rules: Rules, world: World, issued: map<UniqueId, nat>, tasks: map<nat, Task>, log: seq<Event>)

  function Init(rules: Rules, boot: nat): System {
    System(rules, World(map[], map[], 0, boot), map[], map[], [])
  }

  function Logged(s: System, e: Event): System {
    s.(log := s.log + [e])
  }

  predicate Present(w: World, issued: map<UniqueId, nat>, h: UniqueId)
    requires h in issued
  {
    h.pid in w.table && w.table[h.pid].serial == issued[h]
  }

  predicate CanSpawn(s: System, pid: Pid, start: nat) {
    && pid !in s.world.table
    && (s.rules.laterStarts && pid in s.world.lastStart ==> start > s.world.lastStart[pid])
  }

  function WithNew(w: World, pid: Pid, start: nat, child: bool): World {
    World(w.table[pid := Process(start, w.nextSerial, false, child)],
          w.lastStart[pid := start], w.nextSerial + 1, w.boot)
  }

  function WithZombie(w: World, pid: Pid): World
    requires pid in w.table
  {
    w.(table := w.table[pid := w.table[pid].(zombie := true)])
  }

  function Reaped(s: System, pid: Pid): System
    requires pid in s.world.table
  {
    Logged(s.(world := s.world.(table := s.world.table - {pid})), Removed(pid, s.world.table[pid].serial))
  }

  function Issue(s: System, h: UniqueId): System
    requires h.pid in s.world.table
  {
    var serial := s.world.table[h.pid].serial;
    Logged(s.(issued := if h in s.issued then s.issued else s.issued[h := serial]), Got(h, serial))
  }

  function Check(s: System, task: nat, h: UniqueId, readable: bool): System
    requires h in s.issued
  {
    match CheckBeforeKill(h, IsRunning(s.world, h, readable))
    case Done(_) =>
      Logged(s.(tasks := s.tasks[task := Killing(h, |s.log|)]), Approved(h, Present(s.world, s.issued, h)))
    case Failed(e) =>
      Logged(s, Refused(h, readable, e, Present(s.world, s.issued, h)))
  }

  function Kill(s: System, task: nat, permitted: bool): System
    requires task in s.tasks && s.tasks[task].Killing?
  {
    var Killing(h, check) := s.tasks[task];
    var hit := if h.pid in s.world.table then Some(s.world.table[h.pid].serial) else None;
    Logged(s.(tasks := s.tasks - {task}), Killed(h, check, hit, permitted, PidKill(s.world, h.pid, permitted)))
  }

  function Poll(s: System, task: nat): System
    requires task in s.tasks && s.tasks[task].Polling?
  {
    var h := s.tasks[task].handle;
    if PidExists(s.world.table, h.pid) then s else Logged(s.(tasks := s.tasks - {task}), WaitOk(h))
  }

  /** A zombie is an entry that has exited but has not been reaped. */
  predicate IsZombie(s: System, pid: Pid) {
    pid in s.world.table && s.world.table[pid].zombie
  }

  predicate Enabled(s: System, a: Action) {
    match a
    case Spawn(pid, start, _) => CanSpawn(s, pid, start)
    case Exit(pid) => pid in s.world.table && !s.world.table[pid].zombie
    case Reap(pid) => IsZombie(s, pid)
    case SetBoot(_) => !s.rules.steadyBoot
    case CallGet(_, _) => true
    case CallIsRunning(h, _) => h in s.issued
    case SignalCheck(task, h, _) => h in s.issued && task !in s.tasks
    case SignalKill(task, _) => task in s.tasks && s.tasks[task].Killing?
    case WaitReaps(h) => h in s.issued && IsZombie(s, h.pid) && s.world.table[h.pid].child
    case WaitFallsBack(task, h) => h in s.issued && task !in s.tasks
    case WaitPolls(task) => task in s.tasks && s.tasks[task].Polling?
  }

  function Apply(s: System, a: Action): System
    requires Enabled(s, a)
  {
    match a
    case Spawn(pid, start, child) => s.(world := WithNew(s.world, pid, start, child))
    case Exit(pid) => s.(world := WithZombie(s.world, pid))
    case Reap(pid) => Reaped(s, pid)
    case SetBoot(boot) => s.(world := s.world.(boot := boot))
    case CallGet(pid, readable) =>
      (match Get(s.world, pid, readable)
       case Done(h) => Issue(s, h)
       case Failed(_) => s)
    case CallIsRunning(h, readable) =>
      Logged(s, Answered(h, readable, IsRunning(s.world, h, readable),
                         Present(s.world, s.issued, h), h.pid in s.world.table))
    case SignalCheck(task, h, readable) => Check(s, task, h, readable)
    case SignalKill(task, permitted) => Kill(s, task, permitted)
    case WaitReaps(h) => Logged(Reaped(s, h.pid), WaitOk(h))
    case WaitFallsBack(task, h) => s.(tasks := s.tasks[task := Polling(h)])
    case WaitPolls(task) => Poll(s, task)
  }

  /** The system after a run, or `None` when a step was not enabled. */
  function Run(s: System, actions: seq<Action>): Option<System>
    decreases |actions|
  {
    if actions == [] then Some(s)
    else if Enabled(s, actions[0]) then Run(Apply(s, actions[0]), actions[1..])
    else None
  }

  // ----- what every step keeps -----

  predicate Live(w: World, h: UniqueId) {
    h.pid in w.table && h == UniqueId(h.pid, w.boot + w.table[h.pid].start)
  }

  /** An event after which the handle can only be stale. */
  predicate Denies(e: Event, h: UniqueId) {
    match e
    case WaitOk(handle) => handle == h
    case Answered(handle, _, answer, _, _) =>
      handle == h && (answer == Done(false) || answer == Failed(NoSuchProcess(h.pid)))
    case Refused(handle, _, error, _) => handle == h && error == NoSuchProcess(h.pid)
    case _ => false
  }

  /** An event in which the library takes the handle for a running process. */
  predicate Confirms(e: Event, h: UniqueId) {
    match e
    case Answered(handle, _, answer, _, _) => handle == h && answer == Done(true)
    case Approved(handle, _) => handle == h
    case _ => false
  }

  ghost predicate WorldKept(w: World) {
    && (forall p <- w.table :: p in w.lastStart && w.lastStart[p] == w.table[p].start && w.table[p].serial < w.nextSerial)
    && (forall p, q | p in w.table && q in w.table && w.table[p].serial == w.table[q].serial :: p == q)
  }

  /** A handle is dated no later than the last start under its id, and it compares equal to the
      entry with its id exactly if that is the process it was made for. */
  ghost predicate HandleKept(w: World, issued: map<UniqueId, nat>, h: UniqueId)
    requires h in issued
  {
    && h.pid in w.lastStart
    && h.createTime <= w.boot + w.lastStart[h.pid]
    && issued[h] < w.nextSerial
    && (Live(w, h) <==> Present(w, issued, h))
    && (forall p <- w.table | issued[h] == w.table[p].serial :: h.pid == p)
  }

  ghost predicate IssuedKept(w: World, issued: map<UniqueId, nat>) {
    && (forall h <- issued :: HandleKept(w, issued, h))
    && (forall h, k | h in issued && k in issued && issued[h] == issued[k] :: h == k)
  }

  /** The process was not removed between the two positions of the log. */
  predicate Untouched(log: seq<Event>, from: nat, to: nat, pid: Pid, serial: nat)
    requires from <= to <= |log|
  {
    forall k | from <= k < to :: log[k] != Removed(pid, serial)
  }

  ghost predicate TaskKept(w: World, issued: map<UniqueId, nat>, log: seq<Event>, task: Task) {
    && task.handle in issued
    && (task.Killing? ==>
          && task.check < |log| && log[task.check] == Approved(task.handle, true)
          && (Untouched(log, task.check, |log|, task.handle.pid, issued[task.handle]) <==> Present(w, issued, task.handle)))
  }

  ghost predicate TasksKept(w: World, issued: map<UniqueId, nat>, log: seq<Event>, tasks: map<nat, Task>) {
    forall t <- tasks :: TaskKept(w, issued, log, tasks[t])
  }

  /** What is true of an event, and stays true whatever happens later. */
  ghost predicate EventKept(w: World, issued: map<UniqueId, nat>, log: seq<Event>, i: nat)
    requires i < |log|
  {
    match log[i]
    case Removed(_, serial) => serial < w.nextSerial && forall p <- w.table :: w.table[p].serial != serial
    case Got(h, serial) => h in issued && issued[h] == serial
    case Answered(h, readable, answer, present, occupied) =>
      && h in issued && (present ==> occupied)
      && answer == if !readable then Failed(Load) else if !occupied then Failed(NoSuchProcess(h.pid)) else Done(present)
    case Refused(h, readable, error, present) =>
      h in issued && (if readable then error == NoSuchProcess(h.pid) && !present else error == Load)
    case Approved(h, present) => h in issued && present
    case Killed(h, check, hit, permitted, reply) =>
      && h in issued && check < i && log[check] == Approved(h, true)
      && (reply == Done(()) <==> hit.Some? && permitted)
      && (reply == Failed(AccessDenied(h.pid)) <==> hit.Some? && !permitted)
      && (reply == Failed(NoSuchProcess(h.pid)) <==> hit == None)
      && (Untouched(log, check, i, h.pid, issued[h]) <==> hit == Some(issued[h]))
    case WaitOk(h) => h in issued
  }

  ghost predicate EventsKept(w: World, issued: map<UniqueId, nat>, log: seq<Event>) {
    forall i | 0 <= i < |log| :: EventKept(w, issued, log, i)
  }

  ghost predicate DeniedAreGone(w: World, issued: map<UniqueId, nat>, log: seq<Event>) {
    forall i, h | 0 <= i < |log| && Denies(log[i], h) :: h in issued && !Live(w, h)
  }

  ghost predicate DeniedStayDenied(log: seq<Event>) {
    forall i, j, h | 0 <= i < j < |log| && Denies(log[i], h) :: !Confirms(log[j], h)
  }

  ghost predicate Kept(s: System) {
    && s.rules == RELIABLE
    && WorldKept(s.world)
    && IssuedKept(s.world, s.issued)
    && TasksKept(s.world, s.issued, s.log, s.tasks)
    && EventsKept(s.world, s.issued, s.log)
    && DeniedAreGone(s.world, s.issued, s.log)
    && DeniedStayDenied(s.log)
  }

  // ----- a new event -----

  lemma UntouchedLogged(log: seq<Event>, e: Event, from: nat, pid: Pid, serial: nat)
    requires from <= |log|
    ensures Untouched(log + [e], from, |log| + 1, pid, serial)
            <==> Untouched(log, from, |log|, pid, serial) && e != Removed(pid, serial)
  {
    var longer := log + [e];
    assert forall k | 0 <= k < |log| :: longer[k] == log[k];
    assert longer[|log|] == e;
  }

  lemma UntouchedFront(log: seq<Event>, e: Event, from: nat, to: nat, pid: Pid, serial: nat)
    requires from <= to <= |log|
    ensures Untouched(log + [e], from, to, pid, serial) <==> Untouched(log, from, to, pid, serial)
  {
    assert forall k | 0 <= k < |log| :: (log + [e])[k] == log[k];
  }

  lemma {:induction false} EventsLogged(w: World, issued: map<UniqueId, nat>, log: seq<Event>, e: Event)
    requires EventsKept(w, issued, log) && EventKept(w, issued, log + [e], |log|)
    ensures EventsKept(w, issued, log + [e])
  {
    forall i | 0 <= i < |log|
      ensures EventKept(w, issued, log + [e], i)
    {
      assert EventKept(w, issued, log, i) && (log + [e])[i] == log[i];
      if log[i].Killed? {
        var Killed(h, check, _, _, _) := log[i];
        UntouchedFront(log, e, check, i, h.pid, issued[h]);
      }
    }
  }

  lemma {:induction false} DeniedLogged(w: World, issued: map<UniqueId, nat>, log: seq<Event>, e: Event)
    requires DeniedAreGone(w, issued, log) && DeniedStayDenied(log)
    requires forall h | Denies(e, h) :: h in issued && !Live(w, h)
    requires forall h | Confirms(e, h) :: Live(w, h)
    ensures DeniedAreGone(w, issued, log + [e]) && DeniedStayDenied(log + [e])
  {
    var longer := log + [e];
    forall i, h | 0 <= i < |longer| && Denies(longer[i], h)
      ensures h in issued && !Live(w, h)
    {
      assert i < |log| ==> longer[i] == log[i];
    }
    forall i, j, h | 0 <= i < j < |longer| && Denies(longer[i], h)
      ensures !Confirms(longer[j], h)
    {
      assert longer[i] == log[i] && (j < |log| ==> longer[j] == log[j]);
    }
  }

  lemma {:induction false} TasksLogged(w: World, issued: map<UniqueId, nat>, log: seq<Event>, tasks: map<nat, Task>, e: Event)
    requires TasksKept(w, issued, log, tasks) && !e.Removed?
    ensures TasksKept(w, issued, log + [e], tasks)
  {
    forall t <- tasks
      ensures TaskKept(w, issued, log + [e], tasks[t])
    {
      var task := tasks[t];
      assert TaskKept(w, issued, log, task);
      if task.Killing? {
        UntouchedLogged(log, e, task.check, task.handle.pid, issued[task.handle]);
      }
    }
  }

  lemma {:induction false} KeptLogged(s: System, e: Event)
    requires Kept(s) && !e.Removed?
    requires EventKept(s.world, s.issued, s.log + [e], |s.log|)
    requires forall h | Denies(e, h) :: h in s.issued && !Live(s.world, h)
    requires forall h | Confirms(e, h) :: Live(s.world, h)
    ensures Kept(Logged(s, e))
  {
    EventsLogged(s.world, s.issued, s.log, e);
    DeniedLogged(s.world, s.issued, s.log, e);
    TasksLogged(s.world, s.issued, s.log, s.tasks, e);
  }

  // ----- a change of the process table -----

  /** Handles mean what they meant, and no serial number comes back. */
  ghost predicate Unnoticed(w: World, v: World, issued: map<UniqueId, nat>) {
    && w.nextSerial <= v.nextSerial
    && (forall h <- issued :: Live(v, h) == Live(w, h) && Present(v, issued, h) == Present(w, issued, h))
    && (forall p <- v.table :: v.table[p].serial >= w.nextSerial || (p in w.table && v.table[p].serial == w.table[p].serial))
  }

  lemma {:induction false} KeptUnnoticed(s: System, v: World)
    requires Kept(s) && Unnoticed(s.world, v, s.issued)
    requires WorldKept(v) && IssuedKept(v, s.issued)
    ensures Kept(s.(world := v))
  {
    forall i | 0 <= i < |s.log|
      ensures EventKept(v, s.issued, s.log, i)
    {
      assert EventKept(s.world, s.issued, s.log, i);
    }
    forall t <- s.tasks
      ensures TaskKept(v, s.issued, s.log, s.tasks[t])
    {
      assert TaskKept(s.world, s.issued, s.log, s.tasks[t]);
    }
  }

  lemma {:induction false} NewKeepsWorld(w: World, pid: Pid, start: nat, child: bool)
    requires WorldKept(w) && pid !in w.table
    ensures WorldKept(WithNew(w, pid, start, child))
  {
    var v := WithNew(w, pid, start, child);
    assert forall p <- v.table :: p == pid || (p in w.table && v.table[p] == w.table[p]);
  }

  /** A later start is later than the creation time of every handle with the same id. */
  lemma {:induction false} NewKeepsHandle(
    w: World, issued: map<UniqueId, nat>, pid: Pid, start: nat, child: bool, h: UniqueId)
    requires h in issued && HandleKept(w, issued, h)
    requires pid !in w.table && (pid in w.lastStart ==> start > w.lastStart[pid])
    ensures var v := WithNew(w, pid, start, child);
            HandleKept(v, issued, h) && Live(v, h) == Live(w, h) && Present(v, issued, h) == Present(w, issued, h)
  {
    var v := WithNew(w, pid, start, child);
    assert forall p <- v.table :: p == pid || (p in w.table && v.table[p] == w.table[p]);
  }

  lemma {:induction false} NewIsUnnoticed(w: World, issued: map<UniqueId, nat>, pid: Pid, start: nat, child: bool)
    requires WorldKept(w) && IssuedKept(w, issued)
    requires pid !in w.table && (pid in w.lastStart ==> start > w.lastStart[pid])
    ensures var v := WithNew(w, pid, start, child); WorldKept(v) && IssuedKept(v, issued) && Unnoticed(w, v, issued)
  {
    NewKeepsWorld(w, pid, start, child);
    var v := WithNew(w, pid, start, child);
    assert forall p <- v.table :: p == pid || (p in w.table && v.table[p] == w.table[p]);
    forall h <- issued
      ensures HandleKept(v, issued, h)
      ensures Live(v, h) == Live(w, h) && Present(v, issued, h) == Present(w, issued, h)
    {
      NewKeepsHandle(w, issued, pid, start, child, h);
    }
  }

  lemma {:induction false} ZombieIsUnnoticed(w: World, issued: map<UniqueId, nat>, pid: Pid)
    requires WorldKept(w) && IssuedKept(w, issued) && pid in w.table
    ensures var v := WithZombie(w, pid); WorldKept(v) && IssuedKept(v, issued) && Unnoticed(w, v, issued)
  {
    var v := WithZombie(w, pid);
    assert forall p <- v.table :: p in w.table && v.table[p].start == w.table[p].start && v.table[p].serial == w.table[p].serial;
    forall h <- issued
      ensures Live(v, h) == Live(w, h) && Present(v, issued, h) == Present(w, issued, h)
      ensures HandleKept(v, issued, h)
    {
      assert HandleKept(w, issued, h);
    }
  }

  lemma {:induction false} KeptReaped(s: System, pid: Pid)
    requires Kept(s) && pid in s.world.table
    ensures Kept(Reaped(s, pid))
    ensures forall h | h in s.issued && h.pid == pid :: !Live(Reaped(s, pid).world, h)
  {
    var w, v := s.world, Reaped(s, pid).world;
    var e := Removed(pid, w.table[pid].serial);
    forall h <- s.issued
      ensures Live(v, h) == (Live(w, h) && h.pid != pid)
      ensures HandleKept(v, s.issued, h)
    {
      assert HandleKept(w, s.issued, h);
    }
    forall i | 0 <= i < |s.log|
      ensures EventKept(v, s.issued, s.log, i)
    {
      assert EventKept(w, s.issued, s.log, i);
    }
    EventsLogged(v, s.issued, s.log, e);
    DeniedLogged(v, s.issued, s.log, e);
    forall t <- s.tasks
      ensures TaskKept(v, s.issued, s.log + [e], s.tasks[t])
    {
      var task := s.tasks[t];
      assert TaskKept(w, s.issued, s.log, task);
      if task.Killing? {
        UntouchedLogged(s.log, e, task.check, task.handle.pid, s.issued[task.handle]);
      }
    }
  }

  // ----- the calls -----

  lemma {:induction false} KeptNewHandle(s: System, h: UniqueId, serial: nat)
    requires Kept(s) && Live(s.world, h) && h !in s.issued && serial == s.world.table[h.pid].serial
    ensures Kept(s.(issued := s.issued[h := serial]))
  {
    var issued := s.issued[h := serial];
    forall k <- s.issued
      ensures s.issued[k] != serial
    {
      assert HandleKept(s.world, s.issued, k);
      assert s.issued[k] == serial ==> k.pid == h.pid;
      assert Live(s.world, k) <==> Present(s.world, s.issued, k);
    }
    forall k <- issued
      ensures HandleKept(s.world, issued, k)
    {
      assert k in s.issued ==> HandleKept(s.world, s.issued, k);
    }
    forall i | 0 <= i < |s.log|
      ensures EventKept(s.world, issued, s.log, i)
    {
      assert EventKept(s.world, s.issued, s.log, i);
    }
    forall t <- s.tasks
      ensures TaskKept(s.world, issued, s.log, s.tasks[t])
    {
      assert TaskKept(s.world, s.issued, s.log, s.tasks[t]);
    }
  }

  lemma {:induction false} KeptIssue(s: System, h: UniqueId)
    requires Kept(s) && Live(s.world, h)
    ensures Kept(Issue(s, h))
  {
    var serial := s.world.table[h.pid].serial;
    if h in s.issued {
      assert Present(s.world, s.issued, h);
      KeptLogged(s, Got(h, serial));
    } else {
      KeptNewHandle(s, h, serial);
      KeptLogged(s.(issued := s.issued[h := serial]), Got(h, serial));
    }
  }

  lemma {:induction false} KeptCheck(s: System, task: nat, h: UniqueId, readable: bool)
    requires Kept(s) && h in s.issued && task !in s.tasks
    ensures Kept(Check(s, task, h, readable))
  {
    match CheckBeforeKill(h, IsRunning(s.world, h, readable))
    case Done(_) =>
      var e := Approved(h, Present(s.world, s.issued, h));
      KeptLogged(s, e);
      UntouchedLogged(s.log, e, |s.log|, h.pid, s.issued[h]);
      assert TaskKept(s.world, s.issued, s.log + [e], Killing(h, |s.log|));
    case Failed(e) =>
      KeptLogged(s, Refused(h, readable, e, Present(s.world, s.issued, h)));
  }

  lemma {:induction false} KeptKill(s: System, task: nat, permitted: bool)
    requires Kept(s) && task in s.tasks && s.tasks[task].Killing?
    ensures Kept(Kill(s, task, permitted))
  {
    var Killing(h, check) := s.tasks[task];
    assert TaskKept(s.world, s.issued, s.log, s.tasks[task]);
    var t := s.(tasks := s.tasks - {task});
    var hit := if h.pid in s.world.table then Some(s.world.table[h.pid].serial) else None;
    var e := Killed(h, check, hit, permitted, PidKill(s.world, h.pid, permitted));
    UntouchedFront(s.log, e, check, |s.log|, h.pid, s.issued[h]);
    assert (s.log + [e])[check] == s.log[check];
    KeptLogged(t, e);
  }

  lemma {:induction false} KeptPoll(s: System, task: nat)
    requires Kept(s) && task in s.tasks && s.tasks[task].Polling?
    ensures Kept(Poll(s, task))
  {
    var h := s.tasks[task].handle;
    assert TaskKept(s.world, s.issued, s.log, s.tasks[task]);
    if !PidExists(s.world.table, h.pid) {
      KeptLogged(s.(tasks := s.tasks - {task}), WaitOk(h));
    }
  }

  lemma {:induction false} KeptApply(s: System, a: Action)
    requires Kept(s) && Enabled(s, a)
    ensures Kept(Apply(s, a))
  {
    match a
    case Spawn(pid, start, child) =>
      NewIsUnnoticed(s.world, s.issued, pid, start, child);
      KeptUnnoticed(s, WithNew(s.world, pid, start, child));
    case Exit(pid) =>
      ZombieIsUnnoticed(s.world, s.issued, pid);
      KeptUnnoticed(s, WithZombie(s.world, pid));
    case Reap(pid) => KeptReaped(s, pid);
    case SetBoot(boot) =>
    case CallGet(pid, readable) =>
      if Get(s.world, pid, readable).Done? {
        KeptIssue(s, Get(s.world, pid, readable).value);
      }
    case CallIsRunning(h, readable) =>
      KeptLogged(s, Answered(h, readable, IsRunning(s.world, h, readable),
                             Present(s.world, s.issued, h), h.pid in s.world.table));
    case SignalCheck(task, h, readable) => KeptCheck(s, task, h, readable);
    case SignalKill(task, permitted) => KeptKill(s, task, permitted);
    case WaitReaps(h) =>
      KeptReaped(s, h.pid);
      KeptLogged(Reaped(s, h.pid), WaitOk(h));
    case WaitFallsBack(task, h) =>
      assert TaskKept(s.world, s.issued, s.log, Polling(h));
    case WaitPolls(task) => KeptPoll(s, task);
  }

  /** Every run from a new system keeps all of it. */
  lemma {:induction false} KeptRun(s: System, actions: seq<Action>)
    requires Kept(s) && Run(s, actions).Some?
    ensures Kept(Run(s, actions).value)
    decreases |actions|
  {
    if actions != [] {
      KeptApply(s, actions[0]);
      KeptRun(Apply(s, actions[0]), actions[1..]);
    }
  }

  // ----- whole runs -----

  ghost predicate Reaches(actions: seq<Action>, boot: nat, log: seq<Event>) {
    var end := Run(Init(RELIABLE, boot), actions);
    end.Some? && end.value.log == log
  }

  lemma {:induction false} ReachedIsKept(actions: seq<Action>, boot: nat, log: seq<Event>) returns (s: System)
    requires Reaches(actions, boot, log)
    ensures Kept(s) && s.log == log
  {
    KeptRun(Init(RELIABLE, boot), actions);
    s := Run(Init(RELIABLE, boot), actions).value;
  }

  /** In every run, a handle that `is_running`, a signal or `wait` has found dead is never taken for a
      running process again, by whichever call, however often its id is reused. */
  lemma {:induction false} StalenessIsPermanent(actions: seq<Action>, boot: nat, log: seq<Event>, i: nat, j: nat, h: UniqueId)
    requires Reaches(actions, boot, log)
    requires i < j < |log| && Denies(log[i], h)
    ensures !Confirms(log[j], h)
  {
    var s := ReachedIsKept(actions, boot, log);
  }

  /** In every run, `is_running` answers exactly whether the process that the handle was made for is in
      the table, with an error when no process has its id or the table cannot be read; the check of a
      signal is the same with one error for both kinds of absence. */
  lemma {:induction false} ChecksTellTheTruth(actions: seq<Action>, boot: nat, log: seq<Event>, i: nat)
    requires Reaches(actions, boot, log) && i < |log|
    ensures log[i].Answered? ==>
              log[i].answer == if !log[i].readable then Failed(Load)
                               else if !log[i].occupied then Failed(NoSuchProcess(log[i].handle.pid))
                               else Done(log[i].present)
    ensures log[i].Answered? && log[i].present ==> log[i].occupied
    ensures log[i].Refused? ==>
              if log[i].readable then !log[i].present && log[i].error == NoSuchProcess(log[i].handle.pid)
              else log[i].error == Load
    ensures log[i].Approved? ==> log[i].present
  {
    var s := ReachedIsKept(actions, boot, log);
    assert EventKept(s.world, s.issued, s.log, i);
  }

  /** In every run, once `wait` has returned on a handle, every later signal through it is refused
      before the kill, with `NoSuchProcess` when the table can be read; a kill that still comes
      belongs to a signal that was checked before `wait` returned. */
  lemma {:induction false} WaitThenSignal(actions: seq<Action>, boot: nat, log: seq<Event>, i: nat, j: nat, h: UniqueId)
    requires Reaches(actions, boot, log)
    requires i < j < |log| && log[i] == WaitOk(h)
    ensures !(log[j].Approved? && log[j].handle == h)
    ensures log[j].Killed? && log[j].handle == h ==> log[j].check < i
    ensures log[j].Refused? && log[j].handle == h ==>
              log[j].error == if log[j].readable then NoSuchProcess(h.pid) else Load
  {
    var s := ReachedIsKept(actions, boot, log);
    assert EventKept(s.world, s.issued, s.log, j);
    assert Denies(log[i], h) && !Confirms(log[j], h);
    if log[j].Killed? && log[j].handle == h {
      var c := log[j].check;
      assert Confirms(log[c], h);
    }
  }

  /** In every run, a kill follows a check that found the process of the handle, and it reaches that
      process if and only if the process was not removed between the check and the kill. `owner` is
      the serial number that the handle was made for. It is reported as done,
      denied or without a process exactly when the kernel delivers it, forbids it or finds nothing. */
  lemma {:induction false} SignalTarget(actions: seq<Action>, boot: nat, log: seq<Event>, g: nat, j: nat)
    requires Reaches(actions, boot, log)
    requires g < |log| && j < |log| && log[g].Got? && log[j].Killed? && log[g].handle == log[j].handle
    ensures var Killed(h, check, hit, permitted, reply) := log[j];
            var owner := log[g].serial;
            && check < j
            && (reply == Done(()) <==> hit.Some? && permitted)
            && (reply == Failed(AccessDenied(h.pid)) <==> hit.Some? && !permitted)
            && (reply == Failed(NoSuchProcess(h.pid)) <==> hit == None)
            && log[check] == Approved(h, true)
            && (hit == Some(owner) <==> Untouched(log, check, j, h.pid, owner))
  {
    var s := ReachedIsKept(actions, boot, log);
    assert EventKept(s.world, s.issued, s.log, j) && EventKept(s.world, s.issued, s.log, g);
  }

  /** In every run, two handles are equal exactly if they were made for the same process. */
  lemma {:induction false} HandlesIdentifyProcesses(actions: seq<Action>, boot: nat, log: seq<Event>, i: nat, j: nat)
    requires Reaches(actions, boot, log)
    requires i < |log| && j < |log| && log[i].Got? && log[j].Got?
    ensures log[i].handle == log[j].handle <==> log[i].serial == log[j].serial
  {
    var s := ReachedIsKept(actions, boot, log);
    assert EventKept(s.world, s.issued, s.log, i) && EventKept(s.world, s.issued, s.log, j);
  }

  /** In every reached state, a poll of a waiting call returns exactly when no process has the id, dead
      or alive, and then the process of the handle is gone. */
  lemma {:induction false} WaitReturnsExact(actions: seq<Action>, boot: nat, s: System, task: nat)
    requires Run(Init(RELIABLE, boot), actions) == Some(s)
    requires task in s.tasks && s.tasks[task].Polling?
    ensures var h := s.tasks[task].handle;
            var t := Apply(s, WaitPolls(task));
            && h in s.issued
            && (h.pid in s.world.table ==> t == s)
            && (h.pid !in s.world.table ==>
                  t.log == s.log + [WaitOk(h)] && task !in t.tasks && !Present(t.world, t.issued, h))
  {
    KeptRun(Init(RELIABLE, boot), actions);
    assert TaskKept(s.world, s.issued, s.log, s.tasks[task]);
  }

  // ----- where the guarantees end -----

  lemma RunStep(s: System, actions: seq<Action>)
    requires actions != [] && Enabled(s, actions[0])
    ensures Run(s, actions) == Run(Apply(s, actions[0]), actions[1..])
  {
  }

  /** A process 7 that starts at tick 10, and a handle for it. */
  function Started(rules: Rules, child: bool): System {
    System(rules, World(map[7 := Process(10, 0, false, child)], map[7 := 10], 1, 0),
           map[UniqueId(7, 10) := 0], map[], [Got(UniqueId(7, 10), 0)])
  }

  lemma StartAndGet(rules: Rules, child: bool, actions: seq<Action>)
    requires [Spawn(7, 10, child), CallGet(7, true)] <= actions
    ensures Run(Init(rules, 0), actions) == Run(Started(rules, child), actions[2..])
  {
    assert actions[0] == Spawn(7, 10, child) && actions[1] == CallGet(7, true);
    var s := TwoSteps(Init(rules, 0), actions);
    assert s == Started(rules, child);
  }

  /** A signal that is already past its check when `wait` returns can reach a process that reuses the id. */
  lemma {:induction false} SignalInFlight() returns (actions: seq<Action>, log: seq<Event>)
    ensures Reaches(actions, 0, log)
    ensures var h := UniqueId(7, 10);
            log == [Got(h, 0), Approved(h, true), Removed(7, 0), WaitOk(h), Killed(h, 1, Some(1), true, Done(()))]
  {
    var h := UniqueId(7, 10);
    actions := [Spawn(7, 10, true), CallGet(7, true), SignalCheck(0, h, true), Exit(7), WaitReaps(h),
                Spawn(7, 20, false), SignalKill(0, true)];
    StartAndGet(RELIABLE, true, actions);
    var s := TwoSteps(Started(RELIABLE, true), actions[2..]);
    assert s.world.table == map[7 := Process(10, 0, true, true)] && s.tasks == map[0 := Killing(h, 1)];
    var end := FlightEnds(s, actions[4..]);
    log := end.log;
  }

  lemma {:induction false} FlightEnds(s: System, actions: seq<Action>) returns (end: System)
    requires var h := UniqueId(7, 10);
             && s.rules == RELIABLE && h in s.issued && 7 in s.world.lastStart && s.world.lastStart[7] < 20
             && s.world.table == map[7 := Process(10, 0, true, true)] && s.world.nextSerial == 1
             && s.tasks == map[0 := Killing(h, 1)]
             && actions == [WaitReaps(h), Spawn(7, 20, false), SignalKill(0, true)]
    ensures Run(s, actions) == Some(end)
    ensures var h := UniqueId(7, 10); end.log == s.log + [Removed(7, 0), WaitOk(h), Killed(h, 1, Some(1), true, Done(()))]
  {
    var t := TwoSteps(s, actions);
    assert t.world.table == map[7 := Process(20, 1, false, false)];
    RunStep(t, actions[2..]);
    end := Apply(t, actions[2]);
  }

  lemma TwoSteps(s: System, actions: seq<Action>) returns (t: System)
    requires |actions| >= 2 && Enabled(s, actions[0]) && Enabled(Apply(s, actions[0]), actions[1])
    ensures t == Apply(Apply(s, actions[0]), actions[1])
    ensures Run(s, actions) == Run(t, actions[2..])
  {
    t := Apply(Apply(s, actions[0]), actions[1]);
    RunStep(s, actions);
    RunStep(Apply(s, actions[0]), actions[1..]);
    assert actions[1..][1..] == actions[2..];
  }

  /** If a reused id can get the same start tick, a dead handle comes back to life as another process. */
  lemma {:induction false} EqualStartsMislead() returns (actions: seq<Action>, end: System)
    ensures Run(Init(Rules(false, true), 0), actions) == Some(end)
    ensures var h := UniqueId(7, 10);
            end.log == [Got(h, 0), Removed(7, 0), Answered(h, true, Done(true), false, true)]
  {
    var h := UniqueId(7, 10);
    actions := [Spawn(7, 10, false), CallGet(7, true), Exit(7), Reap(7), Spawn(7, 10, false), CallIsRunning(h, true)];
    StartAndGet(Rules(false, true), false, actions);
    var s4 := TwoSteps(Started(Rules(false, true), false), actions[2..]);
    end := TwoSteps(s4, actions[4..]);
  }

  /** If boot time moves, the handle of a running process is found dead, and alive again later. */
  lemma {:induction false} MovingBootMisleads() returns (actions: seq<Action>, end: System)
    ensures Run(Init(Rules(true, false), 0), actions) == Some(end)
    ensures var h := UniqueId(7, 10);
            end.log == [Got(h, 0), Answered(h, true, Done(false), true, true), Answered(h, true, Done(true), true, true)]
  {
    var h := UniqueId(7, 10);
    actions := [Spawn(7, 10, false), CallGet(7, true), SetBoot(1), CallIsRunning(h, true), SetBoot(0), CallIsRunning(h, true)];
    StartAndGet(Rules(true, false), false, actions);
    var s4 := TwoSteps(Started(Rules(true, false), false), actions[2..]);
    end := TwoSteps(s4, actions[4..]);
  }
}
