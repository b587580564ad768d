/** Where every thread is after every step of the scheduler, which zombie is reaped
    when, and which pids new threads get. */
module SchedulerPlaces {
  import opened Sequences
  import opened Scheduler
  import opened SchedulerRuns

  /** The place of a thread; in a state that keeps the invariants it has only one. */
  function PlaceOf(s: Sched, t: Thread): (p: Place) {
    if s.current == t then Current else if t in s.run then Queued
    else if t in s.zombies then Zombie else if t in s.parked then Parked else Nowhere
  }

  lemma PlaceIs(s: Sched, t: Thread)
    requires Inv(s)
    ensures forall p :: IsAt(s, t, p) <==> p == PlaceOf(s, t)
  {
    var q := OnePlace(s, t);
    LiveInPlaces(s, t);
    assert IsAt(s, t, PlaceOf(s, t));
  }

  /** A queued thread of that pid. */
  predicate Hit(s: Sched, t: Thread, pid: int) {
    t in s.run && t.pid == pid
  }

  /** The thread that a pending kill takes at an exit, */
  predicate Victim(s: Sched, t: Thread) {
    s.signalExit && Hit(s, t, s.signalPid)
  }

  /** and the one that runs next: the first that is not taken. */
  predicate NextAfterExit(s: Sched, t: Thread) {
    s.run != [] &&
    if !Victim(s, s.run[0]) then t == s.run[0] else |s.run| >= 2 && t == s.run[1]
  }

  /** Where thread t goes in a step. A thread that no case names stays where it is. */
  function PlaceAfter(s: Sched, e: Event, t: Thread): (p: Place) {
    match e
    case Fork => if t == Thread(s.nextId, s.nextPid) then Queued else PlaceOf(s, t)
    case ShellRun => if t == Thread(s.nextId, 2) then Queued else PlaceOf(s, t)
    case Schedule =>
      if s.run != [] && t == s.run[0] then Current else if t == s.current then Queued else PlaceOf(s, t)
    case Exit =>
      if t == s.current || Victim(s, t) then Zombie else if NextAfterExit(s, t) then Current else PlaceOf(s, t)
    case Kill(pid) => if Hit(s, t, pid) then Zombie else PlaceOf(s, t)
    case SignalKill(pid) =>
      if Hit(s, t, pid) then Parked else if t == Thread(s.nextId, s.nextPid) then Queued else PlaceOf(s, t)
    case AddBack => if t in s.parked then Queued else PlaceOf(s, t)
    case ClearSignal => PlaceOf(s, t)
    case Reap => if s.zombies != [] && t == s.zombies[0] then Nowhere else PlaceOf(s, t)
  }

  // ------------------------------------------------------------------ step by step

  /** Queued threads differ, and so do their pids; none is anywhere else. */
  lemma QueueDistinct(s: Sched, i: nat, j: nat)
    requires Inv(s) && i < |s.run| && j < |s.run| && s.run[i].pid == s.run[j].pid
    ensures i == j
  {
    assert s.run[i] in Runnable(s) && s.run[j] in Runnable(s);
    if i != j {
      TwicePlaces(s.run, i, j);
      LiveInPlaces(s, s.run[i]);
    }
  }

  lemma TwicePlaces(q: seq<Thread>, i: nat, j: nat)
    requires i < |q| && j < |q| && i != j && q[i] == q[j]
    ensures multiset(q)[q[i]] >= 2
  {
    CutPlaces(q, i);
    var rest := RemoveAt(q, i);
    assert q[j] in rest by {
      if j < i { assert rest[j] == q[j]; } else { assert rest[j - 1] == q[j]; }
    }
  }

  /** The first queued thread of a pid is the only one of it. */
  lemma HitIs(s: Sched, pid: int, t: Thread)
    requires Inv(s)
    ensures var k := FirstIndex(s.run, pid); Hit(s, t, pid) <==> k < |s.run| && t == s.run[k]
  {
    if Hit(s, t, pid) {
      var j :| 0 <= j < |s.run| && s.run[j] == t;
      QueueDistinct(s, FirstIndex(s.run, pid), j);
    }
  }

  /** A queue with one place removed holds every thread but that one. */
  lemma CutHolds(s: Sched, k: nat, t: Thread)
    requires Inv(s) && k < |s.run|
    ensures t in RemoveAt(s.run, k) <==> t in s.run && t != s.run[k]
  {
    CutPlaces(s.run, k);
    if t == s.run[k] && t in RemoveAt(s.run, k) {
      var i :| 0 <= i < |s.run| - 1 && RemoveAt(s.run, k)[i] == t;
      QueueDistinct(s, Skip(k, i), k);
    }
  }

  lemma KillPlaces(s: Sched, pid: int, t: Thread)
    requires Inv(s)
    ensures PlaceOf(Killed(s, pid), t) == if Hit(s, t, pid) then Zombie else PlaceOf(s, t)
  {
    PlaceIs(s, t);
    HitIs(s, pid, t);
    var k := FirstIndex(s.run, pid);
    if k < |s.run| {
      CutHolds(s, k, t);
      assert t in s.run ==> IsAt(s, t, Queued) && !IsAt(s, t, Current);
    }
  }

  lemma SchedulePlaces(s: Sched, exited: bool, t: Thread)
    requires Inv(s) && s.run != []
    ensures PlaceOf(Scheduled(s, exited).s, t) ==
            if t == s.run[0] then Current
            else if t == s.current then (if exited then Zombie else Queued) else PlaceOf(s, t)
  {
    PlaceIs(s, t);
    CutHolds(s, 0, t);
    assert s.run[1..] == RemoveAt(s.run, 0);
    assert t in s.run ==> IsAt(s, t, Queued) && !IsAt(s, t, Current);
  }

  lemma NewThread(s: Sched, t: Thread)
    requires Inv(s) && t.id == s.nextId
    ensures PlaceOf(s, t) == Nowhere
  {
    PlaceIs(s, t);
    LiveInPlaces(s, t);
  }

  lemma ExitState(s: Sched)
    requires Inv(s) && s.current.pid != 1
    ensures var r := ExitKills(s); Inv(r) && r.current == s.current && r.run != []
  {
    if s.signalExit {
      assert Inv(s.(signalExit := false));
      KillKeeps(s.(signalExit := false), s.signalPid);
    }
    NeverNull(ExitKills(s), true);
    assert IDLE in Runnable(ExitKills(s));
  }

  lemma VictimPlaces(s: Sched, t: Thread)
    requires Inv(s)
    ensures PlaceOf(ExitKills(s), t) == if Victim(s, t) then Zombie else PlaceOf(s, t)
  {
    if s.signalExit {
      assert Inv(s.(signalExit := false));
      KillPlaces(s.(signalExit := false), s.signalPid, t);
    }
  }

  lemma NextIs(s: Sched)
    requires Inv(s) && ExitKills(s).run != []
    ensures NextAfterExit(s, ExitKills(s).run[0])
  {
    var k := FirstIndex(s.run, s.signalPid);
    if s.signalExit && k < |s.run| && |s.run| >= 2 {
      HitIs(s, s.signalPid, s.run[0]);
      if k > 0 {
        DistinctHeads(s, k);
      }
    }
  }

  lemma DistinctHeads(s: Sched, k: nat)
    requires Inv(s) && 0 < k < |s.run|
    ensures s.run[0] != s.run[k]
  {
    if s.run[0] == s.run[k] {
      QueueDistinct(s, 0, k);
    }
  }

  lemma ExitPlaces(s: Sched, t: Thread)
    requires Inv(s) && s.current.pid != 1 && CanStep(s, Exit)
    ensures PlaceOf(Step(s, Exit), t) == PlaceAfter(s, Exit, t)
  {
    var r := ExitKills(s);
    ExitState(s);
    VictimPlaces(s, t);
    NextIs(s);
    NextOnly(s, t, r.run[0]);
    SchedulePlaces(r, true, t);
    PlaceIs(r, r.run[0]);
    assert IsAt(r, r.run[0], Queued);
  }

  lemma NextOnly(s: Sched, t: Thread, u: Thread)
    requires NextAfterExit(s, u)
    ensures NextAfterExit(s, t) <==> t == u
  {
  }

  lemma SignalPlaces(s: Sched, pid: int, t: Thread)
    requires Inv(s) && Enabled(s, SignalKill(pid))
    ensures PlaceOf(SignalKilled(s, pid), t) == PlaceAfter(s, SignalKill(pid), t)
  {
    var k := FirstIndex(s.run, pid);
    PlaceIs(s, t);
    HitIs(s, pid, t);
    CutHolds(s, k, t);
    LiveInPlaces(s, t);
    if t.id == s.nextId {
      NewThread(s, t);
    }
    assert t in s.run ==> IsAt(s, t, Queued) && !IsAt(s, t, Current) && !IsAt(s, t, Zombie);
    assert multiset(RemoveAt(s.run, k) + [Newest(s)]) == multiset(RemoveAt(s.run, k)) + multiset{Newest(s)};
  }

  lemma CreatePlaces(s: Sched, t: Thread)
    requires Inv(s)
    ensures PlaceOf(Create(s), t) == if t == Thread(s.nextId, s.nextPid) then Queued else PlaceOf(s, t)
  {
    if t == Newest(s) {
      NewThread(s, t);
    }
  }

  lemma ReapPlaces(s: Sched, t: Thread)
    requires Inv(s) && s.zombies != []
    ensures PlaceOf(Step(s, Reap), t) == if t == s.zombies[0] then Nowhere else PlaceOf(s, t)
  {
    PlaceIs(s, t);
    HeadPlaces(s.zombies);
    LiveInPlaces(s, s.zombies[0]);
    assert multiset(s.zombies)[s.zombies[0]] <= Places(s)[s.zombies[0]] <= 1;
    assert s.zombies[0] !in multiset(s.zombies[1..]);
    assert t == s.zombies[0] ==>
             IsAt(s, t, Zombie) && !IsAt(s, t, Current) && !IsAt(s, t, Queued) && !IsAt(s, t, Parked);
  }

  lemma AddBackPlaces(s: Sched, t: Thread)
    requires Inv(s)
    ensures PlaceOf(s.(run := s.run + s.parked, parked := []), t) == if t in s.parked then Queued else PlaceOf(s, t)
  {
    PlaceIs(s, t);
    assert t in s.parked ==> IsAt(s, t, Parked) && !IsAt(s, t, Current);
  }

  lemma ShellPlaces(s: Sched, t: Thread)
    requires Inv(s)
    ensures PlaceOf(ShellRan(s), t) == if t == Thread(s.nextId, 2) then Queued else PlaceOf(s, t)
  {
    if t == Thread(s.nextId, 2) {
      NewThread(s, t);
    }
  }

  /** Every step moves exactly the threads that it is about, and each to its place. */
  lemma StepPlaces(s: Sched, e: Event, t: Thread)
    requires Inv(s) && CanStep(s, e)
    ensures PlaceOf(Step(s, e), t) == PlaceAfter(s, e, t)
  {
    match e
    case Fork => CreatePlaces(s, t);
    case ShellRun => ShellPlaces(s, t);
    case Schedule => SchedulePlaces(s, false, t);
    case Exit => ExitPlaces(s, t);
    case Kill(pid) => KillPlaces(s, pid, t);
    case SignalKill(pid) => SignalPlaces(s, pid, t);
    case AddBack => AddBackPlaces(s, t);
    case ClearSignal =>
    case Reap => if s.zombies != [] { ReapPlaces(s, t); }
  }

  /** So at an exit with a kill pending, a target that is queued again and the task that
      exits both become zombies. */
  lemma PendingKillDone(s: Sched, t: Thread)
    requires Inv(s) && CanStep(s, Exit) && s.signalExit && t in s.run && t.pid == s.signalPid
    ensures PlaceOf(Step(s, Exit), t) == Zombie && PlaceOf(Step(s, Exit), s.current) == Zombie
    ensures !Step(s, Exit).signalExit
  {
    StepPlaces(s, Exit, t);
    StepPlaces(s, Exit, s.current);
  }

  /** Only an exit, the end of the handler or another signal ends a pending kill. */
  predicate LeavesPending(e: Event) {
    !e.SignalKill? && e != Exit && e != ClearSignal
  }

  lemma {:induction false} PendingStays(s: Sched, es: seq<Event>, pid: int)
    requires CanRun(s, es) && s.signalExit && s.signalPid == pid && forall k | 0 <= k < |es| :: LeavesPending(es[k])
    ensures RunTo(s, es).signalExit && RunTo(s, es).signalPid == pid
    decreases |es|
  {
    if es != [] {
      assert LeavesPending(es[0]);
      forall k | 0 <= k < |es[1..]| ensures LeavesPending(es[1..][k]) {
        assert es[1..][k] == es[k + 1];
      }
      PendingStays(Step(s, es[0]), es[1..], pid);
    }
  }

  /** After a signal to a pid, a task of that pid that is queued again when the next exit
      comes becomes a zombie. */
  lemma SignalledDies(s: Sched, pid: int, es: seq<Event>, t: Thread)
    requires Inv(s) && CanStep(s, SignalKill(pid)) && CanRun(Step(s, SignalKill(pid)), es)
    requires forall k | 0 <= k < |es| :: LeavesPending(es[k])
    requires var u := RunTo(Step(s, SignalKill(pid)), es); CanStep(u, Exit) && t in u.run && t.pid == pid
    ensures PlaceOf(Step(RunTo(Step(s, SignalKill(pid)), es), Exit), t) == Zombie
  {
    var r := Step(s, SignalKill(pid));
    StepKeeps(s, SignalKill(pid));
    PendingStays(r, es, pid);
    RunKeeps(r, es);
    PendingKillDone(RunTo(r, es), t);
  }

  /** The tasks that may call `add_to_queue`: those created for a signal, and what they
      fork. */
  lemma HandlersAre(s: Sched, e: Event, t: Thread)
    requires CanStep(s, e)
    ensures t in Step(s, e).handlers <==>
            t in s.handlers ||
            (t == Thread(s.nextId, s.nextPid) && (e.SignalKill? || (e == Fork && s.current in s.handlers)))
  {
  }

  /** The task that a signal parks can come back: the handler task created with it is
      runnable, and may call `add_to_queue`. */
  lemma SignalCanReturn(s: Sched, pid: int, t: Thread)
    requires Inv(s) && CanStep(s, SignalKill(pid)) && Hit(s, t, pid)
    ensures var r := Step(s, SignalKill(pid)); t in r.parked && exists es :: Returns(r, es, t)
  {
    var r := Step(s, SignalKill(pid));
    HitIs(s, pid, t);
    StepKeeps(s, SignalKill(pid));
    assert Newest(s) in Runnable(r) && Newest(s) in r.handlers;
    ParkedReturnsIff(r, t);
  }

  // -------------------------------------------------------------------- reaping

  function ReapCount(es: seq<Event>): (n: nat)
    ensures n <= |es|
  {
    if es == [] then 0 else (if es[0] == Reap then 1 else 0) + ReapCount(es[1..])
  }

  /** Zombies only come behind those there are, and go from the front, by reaping. */
  lemma ZombiesMove(s: Sched, e: Event)
    requires CanStep(s, e)
    ensures e == Reap && s.zombies != [] ==> Step(s, e).zombies == s.zombies[1..]
    ensures e != Reap ==> s.zombies <= Step(s, e).zombies
  {
  }

  /** A thread that is gone stays gone: numbers are not used again. */
  lemma {:induction false} GoneStays(s: Sched, es: seq<Event>, t: Thread)
    requires Inv(s) && CanRun(s, es) && t !in s.live && t.id < s.nextId
    ensures PlaceOf(RunTo(s, es), t) == Nowhere
    decreases |es|
  {
    if es == [] {
      LiveInPlaces(s, t);
    } else {
      var r := Step(s, es[0]);
      GoneStep(s, es[0], t);
      StepKeeps(s, es[0]);
      GoneStays(r, es[1..], t);
    }
  }

  lemma GoneStep(s: Sched, e: Event, t: Thread)
    requires Inv(s) && CanStep(s, e) && t !in s.live && t.id < s.nextId
    ensures t !in Step(s, e).live && t.id < Step(s, e).nextId
  {
  }

  /** What was a zombie at place k before n zombies were reaped: gone, or that much
      nearer to the front. */
  predicate Reaped(r: Sched, t: Thread, k: nat, n: nat) {
    if n > k then PlaceOf(r, t) == Nowhere
    else PlaceOf(r, t) == Zombie && k - n < |r.zombies| && r.zombies[k - n] == t
  }

  /** A zombie at place k is gone once more than k zombies were reaped, whatever else
      happens meanwhile, and until then moves to the front by one place a time. */
  lemma {:induction false} ZombieReaped(s: Sched, es: seq<Event>, k: nat, t: Thread)
    requires Inv(s) && CanRun(s, es) && k < |s.zombies| && s.zombies[k] == t
    ensures Reaped(RunTo(s, es), t, k, ReapCount(es))
    decreases |es|
  {
    if es == [] {
      PlaceIs(s, t);
      assert IsAt(s, t, Zombie);
    } else {
      var r, rest := Step(s, es[0]), es[1..];
      StepKeeps(s, es[0]);
      ZombiesMove(s, es[0]);
      if es[0] != Reap {
        ZombieReaped(r, rest, k, t);
      } else if k > 0 {
        ZombieReaped(r, rest, k - 1, t);
      } else {
        LiveInPlaces(s, t);
        GoneStays(r, rest, t);
      }
    }
  }

  // ----------------------------------------------------------------------- pids

  /** How many tasks were created since the shell last created its first. */
  function CreatedSince(es: seq<Event>, n: nat): (m: nat) {
    if es == [] then n
    else CreatedSince(es[1..], match es[0]
                               case ShellRun => 1
                               case Fork => n + 1
                               case SignalKill(_) => n + 1
                               case _ => n)
  }

  /** Pids are given in a row: the shell's first task gets 2, and each one created after
      it the next pid. */
  lemma {:induction false} NextPid(s: Sched, es: seq<Event>, n: nat)
    requires CanRun(s, es) && s.nextPid == 2 + n
    ensures RunTo(s, es).nextPid == 2 + CreatedSince(es, n)
    decreases |es|
  {
    if es != [] {
      var m := match es[0] case ShellRun => 1 case Fork => n + 1 case SignalKill(_) => n + 1 case _ => n;
      assert Step(s, es[0]).nextPid == 2 + m;
      NextPid(Step(s, es[0]), es[1..], m);
    }
  }

  /** So after any run from boot the next task created gets pid 2 + n, where n is how
      many were created since the last reset. */
  lemma NewestPid(es: seq<Event>)
    requires CanRun(BOOT, es) && CanStep(RunTo(BOOT, es), Fork)
    ensures var s := RunTo(BOOT, es); var t := Thread(s.nextId, 2 + CreatedSince(es, 0));
            PlaceOf(s, t) == Nowhere && PlaceOf(Step(s, Fork), t) == Queued
  {
    EveryRun(es);
    NextPid(BOOT, es, 0);
    var s := RunTo(BOOT, es);
    var t := Thread(s.nextId, 2 + CreatedSince(es, 0));
    NewThread(s, t);
    StepPlaces(s, Fork, t);
  }
}
