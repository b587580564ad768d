/** Whole runs of the scheduler: what every reachable state satisfies, how long a
    queued task waits, and when a parked task is lost. */
module SchedulerRuns {
  import opened Scheduler
  import opened Sequences

  predicate Calls(e: Event) { e == Schedule || e == Exit }

  /** The step is enabled and, where it calls `schedule`, that switches to a task. */
  predicate CanStep(s: Sched, e: Event) {
    Enabled(s, e) && (Calls(e) ==> Asked(s, e).Switched?)
  }

  predicate CanRun(s: Sched, es: seq<Event>)
    decreases |es|
  {
    es == [] || (CanStep(s, es[0]) && CanRun(Step(s, es[0]), es[1..]))
  }

  function RunTo(s: Sched, es: seq<Event>): (r: Sched)
    requires CanRun(s, es)
    decreases |es|
  {
    if es == [] then s else RunTo(Step(s, es[0]), es[1..])
  }

  /** The enabled steps are all there are: in a state that keeps the invariants no
      call of `schedule` switches to NULL, and none in `sysc_exit` enters the shell. */
  lemma EnabledCanStep(s: Sched, e: Event)
    requires Inv(s) && Enabled(s, e)
    ensures CanStep(s, e)
  {
    match e
    case Schedule =>
      NeverNull(s, false);
      RunnableLive(s);
    case Exit => ExitKeeps(s);
    case _ =>
  }

  lemma ReapKeeps(s: Sched)
    requires Inv(s)
    ensures Inv(Step(s, Reap))
  {
    if s.zombies != [] {
      var z, r := s.zombies[0], Step(s, Reap);
      HeadPlaces(s.zombies);
      LiveInPlaces(s, z);
      RunnableLive(s);
      assert z in multiset(s.zombies);
      assert multiset(r.live) == multiset(s.live) - multiset{z};
      assert Places(s) == Places(r) + multiset{z};
    }
  }

  lemma StepKeeps(s: Sched, e: Event)
    requires Inv(s) && CanStep(s, e)
    ensures Inv(Step(s, e))
  {
    match e
    case Fork => ForkKeeps(s);
    case Schedule =>
      NeverNull(s, false);
      ScheduleKeeps(s, false);
    case ShellRun => ShellKeeps(s);
    case Exit => ExitKeeps(s);
    case Kill(pid) => KillKeeps(s, pid);
    case SignalKill(pid) => SignalKeeps(s, pid);
    case AddBack => AddBackKeeps(s);
    case ClearSignal =>
    case Reap => ReapKeeps(s);
  }

  lemma BootHolds()
    ensures Inv(BOOT)
  {
    assert Runnable(BOOT) == {IDLE} && Contenders(BOOT) == {IDLE};
    assert Places(BOOT) == multiset(BOOT.live);
  }

  /** In every run from boot each thread created and not reaped is in exactly one
      place, idle is current or queued, and the pids of the runnable threads differ,
      across any number of resets of `pid`. */
  lemma {:induction false} RunKeeps(s: Sched, es: seq<Event>)
    requires Inv(s) && CanRun(s, es)
    ensures Inv(RunTo(s, es)) && PidsDistinct(Runnable(RunTo(s, es)))
    decreases |es|
  {
    if es == [] {
      PidsShrink(Contenders(s), Runnable(s), s.nextPid);
    } else {
      StepKeeps(s, es[0]);
      RunKeeps(Step(s, es[0]), es[1..]);
    }
  }

  lemma EveryRun(es: seq<Event>)
    requires CanRun(BOOT, es)
    ensures Inv(RunTo(BOOT, es)) && PidsDistinct(Runnable(RunTo(BOOT, es)))
  {
    BootHolds();
    RunKeeps(BOOT, es);
  }

  // ---------------------------------------------------------------- one place

  predicate IsAt(s: Sched, t: Thread, p: Place) {
    match p
    case Current => s.current == t
    case Queued => t in s.run
    case Zombie => t in s.zombies
    case Parked => t in s.parked
    case Nowhere => t !in s.live
  }

  /** A thread is in exactly one place, which is none exactly when it is not live. */
  lemma OnePlace(s: Sched, t: Thread) returns (p: Place)
    requires Inv(s)
    ensures forall q :: IsAt(s, t, q) <==> q == p
    ensures p == Nowhere <==> t !in s.live
  {
    LiveInPlaces(s, t);
    assert Places(s)[t] == multiset{s.current}[t] + multiset(s.run)[t] + multiset(s.zombies)[t] + multiset(s.parked)[t];
    assert t in s.run ==> multiset(s.run)[t] >= 1;
    assert t in s.zombies ==> multiset(s.zombies)[t] >= 1;
    assert t in s.parked ==> multiset(s.parked)[t] >= 1;
    p := if s.current == t then Current else if t in s.run then Queued
         else if t in s.zombies then Zombie else if t in s.parked then Parked else Nowhere;
  }

  // ------------------------------------------------------------ bounded waiting

  function CallCount(es: seq<Event>): (n: nat)
    ensures n <= |es|
  {
    if es == [] then 0 else (if Calls(es[0]) then 1 else 0) + CallCount(es[1..])
  }

  /** The pid that the step takes out of the run queue, if any. */
  predicate TakesPid(s: Sched, e: Event, pid: int) {
    match e
    case Kill(p) => p == pid
    case SignalKill(p) => p == pid
    case Exit => s.signalExit && s.signalPid == pid
    case _ => false
  }

  /** No step of the run kills or parks thread t. */
  predicate Spared(s: Sched, es: seq<Event>, t: Thread)
    requires CanRun(s, es)
    decreases |es|
  {
    es == [] || (!TakesPid(s, es[0], t.pid) && Spared(Step(s, es[0]), es[1..], t))
  }

  lemma {:induction false} CanRunPrefix(s: Sched, es: seq<Event>, n: nat)
    requires CanRun(s, es) && n <= |es|
    ensures CanRun(s, es[..n])
    decreases |es|
  {
    if n > 0 {
      assert es[..n][1..] == es[1..][..n - 1];
      CanRunPrefix(Step(s, es[0]), es[1..], n - 1);
    }
  }

  /** A kill in front of a thread moves it up, and one behind leaves it. */
  lemma KillMovesUp(s: Sched, pid: int, k: nat)
    returns (j: nat)
    requires k < |s.run| && s.run[k].pid != pid
    ensures j <= k && j < |Killed(s, pid).run| && Killed(s, pid).run[j] == s.run[k]
  {
    j := if FirstIndex(s.run, pid) < k then k - 1 else k;
  }

  /** Where a thread at place k is after a step: nearer to the front by one call of
      `schedule`, or current. */
  lemma StepMovesUp(s: Sched, e: Event, k: nat)
    returns (j: nat)
    requires CanStep(s, e) && k < |s.run| && !TakesPid(s, e, s.run[k].pid)
    ensures var r := Step(s, e);
            if Calls(e) then (k == 0 ==> r.current == s.run[0]) &&
                             (r.current == s.run[k] || (j + 1 <= k && j < |r.run| && r.run[j] == s.run[k]))
            else j <= k && j < |r.run| && r.run[j] == s.run[k]
  {
    j := k;
    match e
    case Kill(pid) => j := KillMovesUp(s, pid, k);
    case SignalKill(pid) => j := if FirstIndex(s.run, pid) < k then k - 1 else k;
    case Schedule => if k > 0 { j := k - 1; }
    case Exit =>
      if s.signalExit {
        j := KillMovesUp(s.(signalExit := false), s.signalPid, k);
      }
      if j > 0 { j := j - 1; }
    case _ =>
  }

  /** Bounded waiting: a thread at place k of the run queue that nobody kills or
      parks is current after at most k + 1 calls of `schedule`, whatever other
      threads are created, exit, are killed, parked or added back meanwhile. */
  lemma {:induction false} BoundedWaiting(s: Sched, es: seq<Event>, k: nat)
    returns (n: nat)
    requires CanRun(s, es) && k < |s.run| && Spared(s, es, s.run[k]) && CallCount(es) > k
    ensures n <= |es| && CanRun(s, es[..n]) && CallCount(es[..n]) <= k + 1
    ensures RunTo(s, es[..n]).current == s.run[k]
    decreases |es|
  {
    var e, rest, t := es[0], es[1..], s.run[k];
    var r := Step(s, e);
    var j := StepMovesUp(s, e, k);
    if r.current == t && Calls(e) {
      n := 1;
      assert es[..1] == [e] && [e][1..] == [];
    } else {
      var m := BoundedWaiting(r, rest, j);
      n := m + 1;
      assert es[..n][0] == e && es[..n][1..] == rest[..m];
    }
    CanRunPrefix(s, es, n);
  }

  // ------------------------------------------------------- a parked task's fate

  /** When idle enters the shell, nothing is left that could bring a parked task
      back, */
  lemma ResetStrands(s: Sched)
    requires Inv(s) && Enabled(s, ShellRun)
    ensures Stranded(s)
  {
    RunnableLive(s);
    assert Runnable(s) == {IDLE};
  }

  lemma StrandedStep(s: Sched, e: Event)
    requires Inv(s) && s.parked != [] && Stranded(s) && CanStep(s, e)
    ensures Step(s, e).parked == s.parked && Stranded(Step(s, e))
  {
    var r := Step(s, e);
    assert s.current in Runnable(s);
    RunnableLive(s);
    match e
    case Fork => assert Runnable(r) <= Runnable(s) + {Newest(s)};
    case ShellRun => assert Runnable(r) <= Runnable(s) + {Newest(s.(nextPid := 2))};
    case Kill(pid) => KilledRuns(s, pid);
    case Exit =>
      if s.signalExit { KilledRuns(s.(signalExit := false), s.signalPid); }
      assert Runnable(r) <= Runnable(ExitKills(s));
    case Schedule => assert Runnable(r) <= Runnable(s);
    case ClearSignal => assert Runnable(r) <= Runnable(s);
    case Reap => assert Runnable(r) <= Runnable(s);
    case SignalKill(_) =>
    case AddBack =>
  }

  lemma KilledRuns(s: Sched, pid: int)
    ensures Runnable(Killed(s, pid)) <= Runnable(s) && Killed(s, pid).parked == s.parked &&
            Killed(s, pid).current == s.current
  {
    var k := FirstIndex(s.run, pid);
    if k < |s.run| {
      CutPlaces(s.run, k);
    }
  }

  /** and then it stays parked for good: a task whose handler task is gone never runs
      again. */
  lemma {:induction false} StrandedForever(s: Sched, es: seq<Event>)
    requires Inv(s) && s.parked != [] && Stranded(s) && CanRun(s, es)
    ensures RunTo(s, es).parked == s.parked && Stranded(RunTo(s, es))
    ensures s.parked[0] !in Runnable(RunTo(s, es))
    decreases |es|
  {
    if es == [] {
      RunnableLive(s);
      var t := s.parked[0];
      var p := OnePlace(s, t);
      assert IsAt(s, t, Parked);
      assert !IsAt(s, t, Current) && !IsAt(s, t, Queued);
    } else {
      StrandedStep(s, es[0]);
      StepKeeps(s, es[0]);
      StrandedForever(Step(s, es[0]), es[1..]);
    }
  }

  /** How many calls of `schedule` a runnable thread waits for, if nothing else happens. */
  function Wait(s: Sched, h: Thread): (n: nat)
    requires h in Runnable(s)
    ensures n <= |s.run|
  {
    if s.current == h then 0 else 1 + FirstPlace(s.run, h)
  }

  /** But while a task that can call `add_to_queue` is runnable, it can come to do so:
      after at most as many calls of `schedule` as it has tasks to wait for. */
  lemma {:induction false} HandlerComes(s: Sched, h: Thread)
    returns (es: seq<Event>)
    requires h in Runnable(s)
    ensures CanRun(s, es) && |es| == Wait(s, h) <= |s.run| && forall e | e in es :: e == Schedule
    ensures var r := RunTo(s, es); r.current == h && r.parked == s.parked && r.handlers == s.handlers
    decreases Wait(s, h)
  {
    es := [];
    if s.current != h {
      var r := Step(s, Schedule);
      if s.run[0] == h {
        assert r.current == h;
      } else {
        FirstPlaceOn(s.run, s.current, h);
      }
      var rest := HandlerComes(r, h);
      es := [Schedule] + rest;
      assert es[1..] == rest;
    }
  }

  /** The first place of a thread in a queue, or its length. */
  function FirstPlace(q: seq<Thread>, t: Thread): (k: nat)
    ensures k <= |q| && (k < |q| <==> t in q)
  {
    if q == [] || q[0] == t then 0 else 1 + FirstPlace(q[1..], t)
  }

  lemma {:induction false} FirstPlaceOn(q: seq<Thread>, c: Thread, t: Thread)
    requires t in q && q[0] != t
    ensures FirstPlace(q[1..] + [c], t) == FirstPlace(q, t) - 1
  {
    FirstPlaceIn(q[1..], [c], t);
  }

  lemma {:induction false} FirstPlaceIn(a: seq<Thread>, b: seq<Thread>, t: Thread)
    requires t in a
    ensures FirstPlace(a + b, t) == FirstPlace(a, t)
    decreases |a|
  {
    if a[0] != t {
      assert (a + b)[1..] == a[1..] + b;
      FirstPlaceIn(a[1..], b, t);
    }
  }

  lemma {:induction false} RunOn(s: Sched, es: seq<Event>, e: Event)
    requires CanRun(s, es) && CanStep(RunTo(s, es), e)
    ensures CanRun(s, es + [e]) && RunTo(s, es + [e]) == Step(RunTo(s, es), e)
    decreases |es|
  {
    if es == [] {
      assert es + [e] == [e] && [e][1..] == [];
    } else {
      assert (es + [e])[1..] == es[1..] + [e];
      RunOn(Step(s, es[0]), es[1..], e);
    }
  }

  lemma ParkedReturns(s: Sched, t: Thread, h: Thread)
    returns (es: seq<Event>)
    requires h in Runnable(s) && h in s.handlers && t in s.parked
    ensures CanRun(s, es) && |es| == Wait(s, h) + 1 && t in Runnable(RunTo(s, es))
  {
    var wait := HandlerComes(s, h);
    RunOn(s, wait, AddBack);
    es := wait + [AddBack];
  }

  lemma StrandedStays(s: Sched, t: Thread, es: seq<Event>)
    requires Inv(s) && t in s.parked && Stranded(s) && CanRun(s, es)
    ensures t !in Runnable(RunTo(s, es))
  {
    assert |s.parked| == 1 && s.parked[0] == t;
    StrandedForever(s, es);
  }

  predicate Returns(s: Sched, es: seq<Event>, t: Thread) {
    CanRun(s, es) && t in Runnable(RunTo(s, es))
  }

  /** So a parked task can run again exactly while it is not stranded. */
  lemma ParkedReturnsIff(s: Sched, t: Thread)
    requires Inv(s) && t in s.parked
    ensures (exists es :: Returns(s, es, t)) <==> !Stranded(s)
  {
    if Stranded(s) {
      forall es | CanRun(s, es) ensures !Returns(s, es, t) {
        StrandedStays(s, t, es);
      }
    } else {
      var h :| h in Runnable(s) && h in s.handlers;
      var es := ParkedReturns(s, t, h);
      assert Returns(s, es, t);
    }
  }

  // ------------------------------------------------- what callers have to keep

  /** `remove_task` forgets a task that is parked already: the partition survives a
      signal exactly when none is. */
  lemma SignalNeedsNoneParked(s: Sched, pid: int)
    requires Inv(s) && FirstIndex(s.run, pid) < |s.run|
    ensures Partition(SignalKilled(s, pid)) <==> s.parked == []
  {
    var r, k := SignalKilled(s, pid), FirstIndex(s.run, pid);
    CutPlaces(s.run, k);
    RunnableLive(s);
    assert multiset(r.run) == multiset(RemoveAt(s.run, k)) + multiset{Newest(s)};
    assert multiset(r.live) == multiset(s.live) + multiset{Newest(s)};
    assert Places(r) + multiset(s.parked) == Places(s) + multiset{Newest(s)};
    if s.parked != [] {
      assert s.parked[0] in multiset(s.parked);
      assert Places(r)[s.parked[0]] ==
             Places(s)[s.parked[0]] + multiset{Newest(s)}[s.parked[0]] - multiset(s.parked)[s.parked[0]];
      assert (Places(s) + multiset{Newest(s)})[s.parked[0]] != Places(r)[s.parked[0]];
    }
  }

  /** A kill of pid 1 leaves idle runnable only while idle is the current task. */
  lemma KillOfIdle(s: Sched)
    requires Inv(s)
    ensures IDLE in Runnable(Killed(s, 1)) <==> s.current == IDLE
  {
    RunnableLive(s);
    var k := FirstIndex(s.run, 1);
    if s.current != IDLE {
      assert IDLE in s.run;
      assert k < |s.run| && s.run[k] in s.live && s.run[k] == IDLE;
      CutPlaces(s.run, k);
      LiveInPlaces(s, IDLE);
      assert multiset(s.run)[IDLE] == multiset(RemoveAt(s.run, k))[IDLE] + 1;
      assert Places(s)[IDLE] >= multiset(s.run)[IDLE];
      assert IDLE !in multiset(RemoveAt(s.run, k));
    }
  }

  /** Where the first task that the shell creates kills pid 1, the next switch is to
      NULL. */
  lemma IdleKilledSample()
    ensures var o := Scheduled(ShellRan(BOOT), false);
            o.Switched? && o.s.current == Thread(1, 2) && IDLE in Runnable(o.s) &&
            IDLE !in Runnable(Killed(o.s, 1)) && Scheduled(Killed(o.s, 1), false).NullSwitch?
  {
    var s := Scheduled(ShellRan(BOOT), false).s;
    assert s.run == [IDLE] && s.current == Thread(1, 2);
    assert FirstIndex(s.run, 1) == 0;
    assert RemoveAt([IDLE], 0) == [];
  }
}
