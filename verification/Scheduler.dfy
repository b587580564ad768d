/** The scheduler of lib/scheduler.c as a state machine over its queues, with the
    system calls of lib/exception.c that drive it as steps. */
module Scheduler {
  import opened Sequences

  /** A created task: its identity, and its pid, which may be used again. */
  datatype Thread = Thread(id: nat, pid: int)

  const IDLE := Thread(0, 1)

  /** The queues and static variables. `live` holds the threads created and not
      reaped, `handlers` those that may run the end of a signal handler. */
  datatype Sched = Sched(current: Thread, run: seq<Thread>, zombies: seq<Thread>, parked: seq<Thread>,
                         nextPid: int, signalExit: bool, signalPid: int,
                         nextId: nat, live: set<Thread>, handlers: set<Thread>)

  /** What `schedule` does when it is called: switches, enters the shell, or
      switches to NULL. */
  datatype Outcome = Switched(s: Sched) | EntersShell | NullSwitch

  /** Where a thread is. */
  datatype Place = Current | Queued | Zombie | Parked | Nowhere

  datatype Event =
    Fork | Schedule | ShellRun | Exit | Kill(pid: int) | SignalKill(pid: int) | AddBack | ClearSignal | Reap

  // -------------------------------------------------------------------- steps

  /** The first thread of that pid, or the length of the queue. */
  function FirstIndex(q: seq<Thread>, pid: int): (k: nat)
    ensures k <= |q| && (k < |q| ==> q[k].pid == pid) && forall j | 0 <= j < k :: q[j].pid != pid
  {
    if q == [] || q[0].pid == pid then 0 else 1 + FirstIndex(q[1..], pid)
  }

  /** `task_create`. */
  function Create(s: Sched): (r: Sched) {
    var t := Thread(s.nextId, s.nextPid);
    s.(run := s.run + [t], nextPid := s.nextPid + 1, nextId := s.nextId + 1, live := s.live + {t})
  }

  function Newest(s: Sched): Thread { Thread(s.nextId, s.nextPid) }

  /** `schedule`, for a current task that has exited or not. */
  function Scheduled(s: Sched, exited: bool): (o: Outcome) {
    if s.run == [] then (if s.current.pid == 1 then EntersShell else NullSwitch)
    else
      var rest := s.(current := s.run[0], run := s.run[1..]);
      Switched(if exited then rest.(zombies := s.zombies + [s.current]) else rest.(run := s.run[1..] + [s.current]))
  }

  /** `kill_thread`. */
  function Killed(s: Sched, pid: int): (r: Sched) {
    var k := FirstIndex(s.run, pid);
    if k == |s.run| then s else s.(run := RemoveAt(s.run, k), zombies := s.zombies + [s.run[k]])
  }

  /** `sysc_exit` before its call of `schedule`. */
  function ExitKills(s: Sched): (r: Sched) {
    if s.signalExit then Killed(s.(signalExit := false), s.signalPid) else s
  }

  /** `sysc_signal_kill`: the target is parked and a handler task is created. */
  function SignalKilled(s: Sched, pid: int): (r: Sched)
    requires FirstIndex(s.run, pid) < |s.run|
  {
    var k := FirstIndex(s.run, pid);
    var r := Create(s.(run := RemoveAt(s.run, k), parked := [s.run[k]], signalPid := pid, signalExit := true));
    r.(handlers := s.handlers + {Newest(s)})
  }

  /** Idle was dequeued with nothing left to run: `pid` is reset, and the `run`
      command of the shell creates a task and starts idle again. */
  function ShellRan(s: Sched): (r: Sched) {
    Create(s.(nextPid := 2))
  }

  /** Which steps can be taken: idle neither exits nor is named by a kill, and
      `remove_task` is called for a task behind the head while none is parked. Only a
      task that entered through the handler wrapper, or was forked there, calls
      `add_to_queue`. */
  predicate Enabled(s: Sched, e: Event) {
    match e
    case Fork => true
    case Schedule => !(s.current.pid == 1 && s.run == [])
    case ShellRun => s.current.pid == 1 && s.run == []
    case Exit => s.current.pid != 1
    case Kill(pid) => pid != 1
    case SignalKill(pid) => pid != 1 && 0 < FirstIndex(s.run, pid) < |s.run| && s.parked == []
    case AddBack => s.current in s.handlers
    case ClearSignal => true
    case Reap => true
  }

  /** What `schedule` answers in a step that calls it. */
  function Asked(s: Sched, e: Event): (o: Outcome) {
    if e == Exit then Scheduled(ExitKills(s), true) else Scheduled(s, false)
  }

  function Step(s: Sched, e: Event): (r: Sched)
    requires Enabled(s, e) && (e == Schedule || e == Exit ==> Asked(s, e).Switched?)
  {
    match e
    case Fork =>
      var r := Create(s);
      if s.current in s.handlers then r.(handlers := s.handlers + {Newest(s)}) else r
    case Schedule => Asked(s, e).s
    case ShellRun => ShellRan(s)
    case Exit => Asked(s, e).s
    case Kill(pid) => Killed(s, pid)
    case SignalKill(pid) => SignalKilled(s, pid)
    case AddBack => s.(run := s.run + s.parked, parked := [])
    case ClearSignal => s.(signalExit := false)
    case Reap => if s.zombies == [] then s else s.(zombies := s.zombies[1..], live := s.live - {s.zombies[0]})
  }

  /** Idle has entered the shell for the first time. */
  const BOOT := Sched(IDLE, [], [], [], 2, false, 0, 1, {IDLE}, {})

  // --------------------------------------------------------------- invariants

  /** Everywhere a thread can be, with how often it is there. */
  function Places(s: Sched): (m: multiset<Thread>) {
    multiset{s.current} + multiset(s.run) + multiset(s.zombies) + multiset(s.parked)
  }

  /** Every thread created and not reaped is in exactly one place, once. */
  predicate Partition(s: Sched) {
    Places(s) == multiset(s.live) && |s.parked| <= 1 && forall t | t in s.live :: t.id < s.nextId
  }

  function Runnable(s: Sched): (r: set<Thread>) {
    {s.current} + (set t | t in s.run)
  }

  predicate IdleRuns(s: Sched) {
    IDLE in Runnable(s) && (forall t | t in s.live :: t.pid == 1 <==> t == IDLE) &&
    IDLE !in s.handlers && (forall t | t in s.handlers :: t.id < s.nextId) && s.signalPid != 1 && s.nextPid >= 2 &&
    s.nextId >= 1
  }

  predicate PidsDistinct(ts: set<Thread>) {
    forall t, u | t in ts && u in ts && t.pid == u.pid :: t == u
  }

  predicate PidsBelow(ts: set<Thread>, n: int) {
    forall t | t in ts :: t.pid < n
  }

  /** No runnable task is left that could bring the parked one back. */
  predicate Stranded(s: Sched) {
    Runnable(s) !! s.handlers
  }

  /** Threads whose pids must differ: the runnable ones, and a parked one that can
      still come back. */
  function Contenders(s: Sched): (r: set<Thread>) {
    Runnable(s) + (if Stranded(s) then {} else set t | t in s.parked)
  }

  predicate Pids(s: Sched) {
    PidsDistinct(Contenders(s)) && PidsBelow(Contenders(s), s.nextPid)
  }

  predicate Inv(s: Sched) {
    Partition(s) && IdleRuns(s) && Pids(s)
  }

  // --------------------------------------------------------- what steps keep

  lemma CutPlaces(q: seq<Thread>, k: nat)
    requires k < |q|
    ensures multiset(q) == multiset(RemoveAt(q, k)) + multiset{q[k]}
    ensures forall t | t in RemoveAt(q, k) :: t in q
    ensures forall t | t in q && t != q[k] :: t in RemoveAt(q, k)
  {
    assert q == q[..k] + [q[k]] + q[k + 1..];
    forall t | t in q && t != q[k] ensures t in RemoveAt(q, k) {
      assert multiset(q)[t] > 0;
      assert t in multiset(RemoveAt(q, k));
    }
  }

  lemma HeadPlaces(q: seq<Thread>)
    requires q != []
    ensures multiset(q) == multiset{q[0]} + multiset(q[1..])
    ensures (set t | t in q) == {q[0]} + (set t | t in q[1..])
  {
    assert q == [q[0]] + q[1..];
  }

  /** Every place holds live threads only, and a live thread is in one place. */
  lemma LiveInPlaces(s: Sched, t: Thread)
    requires Partition(s)
    ensures t in s.live <==> t == s.current || t in s.run || t in s.zombies || t in s.parked
    ensures Places(s)[t] <= 1
  {
    assert t in multiset(s.run) <==> t in s.run;
    assert t in multiset(s.zombies) <==> t in s.zombies;
    assert t in multiset(s.parked) <==> t in s.parked;
    assert t in Places(s) <==> t in multiset(s.live);
  }

  lemma RunnableLive(s: Sched)
    requires Partition(s)
    ensures Runnable(s) <= s.live && forall t | t in s.parked :: t in s.live
  {
    forall t | t in Runnable(s) || t in s.parked ensures t in s.live {
      LiveInPlaces(s, t);
    }
  }

  lemma CreateKeeps(s: Sched)
    requires Inv(s)
    ensures Partition(Create(s)) && IdleRuns(Create(s)) && Newest(s) !in s.live
    ensures Runnable(Create(s)) == Runnable(s) + {Newest(s)}
  {
    var r, t := Create(s), Newest(s);
    RunnableLive(s);
    assert multiset(r.run) == multiset(s.run) + multiset{t};
    assert multiset(r.live) == multiset(s.live) + multiset{t};
  }

  lemma PidsShrink(a: set<Thread>, b: set<Thread>, n: int)
    requires PidsDistinct(a) && PidsBelow(a, n) && b <= a
    ensures PidsDistinct(b) && PidsBelow(b, n)
  {
  }

  lemma PidsGrow(a: set<Thread>, b: set<Thread>, t: Thread)
    requires PidsDistinct(a) && PidsBelow(a, t.pid) && b <= a + {t}
    ensures PidsDistinct(b) && PidsBelow(b, t.pid + 1)
  {
  }

  lemma ForkKeeps(s: Sched)
    requires Inv(s)
    ensures Inv(Step(s, Fork))
  {
    CreateKeeps(s);
    var r, t := Step(s, Fork), Newest(s);
    assert Places(r) == Places(Create(s)) && Runnable(r) == Runnable(Create(s));
    if s.current in s.handlers {
      assert s.current in Runnable(s) && !Stranded(s);
    } else {
      assert Stranded(s) ==> Stranded(r);
    }
    assert Contenders(r) <= Contenders(s) + {t};
    PidsGrow(Contenders(s), Contenders(r), t);
  }

  /** Idle is current or queued, so `schedule` never switches to NULL. */
  lemma NeverNull(s: Sched, exited: bool)
    requires Inv(s)
    ensures !Scheduled(s, exited).NullSwitch?
    ensures Scheduled(s, exited).EntersShell? <==> s.run == []
  {
    RunnableLive(s);
    if s.run == [] {
      assert s.current == IDLE;
    }
  }

  lemma ScheduleKeeps(s: Sched, exited: bool)
    requires Inv(s) && s.run != [] && (exited ==> s.current.pid != 1)
    ensures Inv(Scheduled(s, exited).s)
  {
    var r := Scheduled(s, exited).s;
    HeadPlaces(s.run);
    assert Places(r) == Places(s);
    assert Runnable(r) <= Runnable(s);
    assert !exited ==> Runnable(r) == Runnable(s);
    assert Contenders(r) <= Contenders(s);
    PidsShrink(Contenders(s), Contenders(r), s.nextPid);
  }

  lemma KillKeeps(s: Sched, pid: int)
    requires Inv(s) && pid != 1
    ensures Inv(Killed(s, pid)) && IDLE in Runnable(Killed(s, pid)) && Killed(s, pid).current == s.current
  {
    var r, k := Killed(s, pid), FirstIndex(s.run, pid);
    if k < |s.run| {
      CutPlaces(s.run, k);
      assert Places(r) == Places(s);
      assert Runnable(r) <= Runnable(s);
      assert s.run[k] != IDLE;
      assert Contenders(r) <= Contenders(s);
      PidsShrink(Contenders(s), Contenders(r), s.nextPid);
    }
  }

  lemma ExitKeeps(s: Sched)
    requires Inv(s) && s.current.pid != 1
    ensures Asked(s, Exit).Switched? && Inv(Asked(s, Exit).s)
  {
    if s.signalExit {
      assert Inv(s.(signalExit := false));
      KillKeeps(s.(signalExit := false), s.signalPid);
    }
    var t := ExitKills(s);
    NeverNull(t, true);
    assert t.current == s.current && t.current != IDLE && IDLE in Runnable(t);
    ScheduleKeeps(t, true);
  }

  lemma SignalKeeps(s: Sched, pid: int)
    requires Inv(s) && Enabled(s, SignalKill(pid))
    ensures Inv(SignalKilled(s, pid))
  {
    var k := FirstIndex(s.run, pid);
    var target := s.run[k];
    var r := SignalKilled(s, pid);
    CutPlaces(s.run, k);
    RunnableLive(s);
    assert multiset(r.run) == multiset(RemoveAt(s.run, k)) + multiset{Newest(s)};
    assert multiset(r.live) == multiset(s.live) + multiset{Newest(s)};
    assert Places(r) == multiset(r.live);
    assert Runnable(s) == Contenders(s);
    assert Contenders(r) <= Contenders(s) + {Newest(s)};
    PidsGrow(Contenders(s), Contenders(r), Newest(s));
    assert target != IDLE;
  }

  lemma AddBackKeeps(s: Sched)
    requires Inv(s) && s.current in s.handlers
    ensures Inv(Step(s, AddBack)) && s.run != []
  {
    var r := Step(s, AddBack);
    assert multiset(r.run) == multiset(s.run) + multiset(s.parked);
    assert s.current in Runnable(s) && !Stranded(s);
    assert Runnable(r) == Contenders(s);
    assert Contenders(r) == Contenders(s);
    assert s.current != IDLE;
  }

  lemma ShellKeeps(s: Sched)
    requires Inv(s) && Enabled(s, ShellRun)
    ensures Inv(Step(s, ShellRun)) && s.current == IDLE
  {
    RunnableLive(s);
    assert s.current == IDLE;
    var t := s.(nextPid := 2);
    assert Runnable(t) == {IDLE} && Contenders(t) == {IDLE};
    assert Inv(t);
    CreateKeeps(t);
    var r := Create(t);
    assert Runnable(r) == {IDLE, Newest(t)} && Stranded(r);
    PidsGrow(Contenders(t), Contenders(r), Newest(t));
  }
}
