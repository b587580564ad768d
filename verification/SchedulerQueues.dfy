/** The linked queues of lib/scheduler.c, updated in place, and the steps of
    Scheduler as methods on them. */
module SchedulerQueues {
  import opened Scheduler
  import opened Sequences

  class Task {
    const pid: int
    /** state == EXIT */
    var exited: bool
    var next: Task?
    ghost const id: nat
    ghost var place: Place

    constructor (pid: int, ghost id: nat)
      ensures this.pid == pid && this.id == id && next == null && !exited && place == Nowhere
    {
      this.pid, this.id := pid, id;
      next, exited, place := null, false, Nowhere;
    }
  }

  ghost function ThreadOf(t: Task): Thread { Thread.Thread(t.id, t.pid) }

  ghost function Threads(q: seq<Task>): (r: seq<Thread>)
    ensures |r| == |q|
  {
    if q == [] then [] else [ThreadOf(q[0])] + Threads(q[1..])
  }

  lemma ThreadsConcat(a: seq<Task>, b: seq<Task>)
    ensures Threads(a + b) == Threads(a) + Threads(b)
  {
    if a == [] {
      assert a + b == b;
    } else {
      assert (a + b)[1..] == a[1..] + b;
      ThreadsConcat(a[1..], b);
    }
  }

  lemma ThreadsAt(q: seq<Task>, k: nat)
    requires k < |q|
    ensures Threads(q)[k] == ThreadOf(q[k])
  {
    if k > 0 {
      ThreadsAt(q[1..], k - 1);
    }
  }

  // ------------------------------------------------- links of a queue, as values

  /** From `head`, following the links of its tasks, the list is the queue q, each
      task once. */
  ghost predicate Linked(head: Task?, q: seq<Task>, links: seq<Task?>)
    decreases |q|
  {
    |links| == |q| &&
    if q == [] then head == null
    else head == q[0] && q[0] !in q[1..] && Linked(links[0], q[1..], links[1..])
  }

  lemma LinkedAt(head: Task?, q: seq<Task>, links: seq<Task?>, k: nat)
    requires Linked(head, q, links) && k < |q|
    ensures links[k] == if k + 1 < |q| then q[k + 1] else null
    ensures forall i | 0 <= i < |q| && i != k :: q[i] != q[k]
    decreases |q|
  {
    if k > 0 {
      LinkedAt(links[0], q[1..], links[1..], k - 1);
      forall i | 0 <= i < |q| && i != k ensures q[i] != q[k] {
        if i > 0 { assert q[1..][i - 1] == q[i]; }
      }
    } else {
      forall i | 0 < i < |q| ensures q[i] != q[0] {
        assert q[i] in q[1..];
      }
    }
  }

  /** The links when t comes behind the last task. */
  ghost function Relinked(links: seq<Task?>, t: Task): (r: seq<Task?>)
    ensures |r| == |links| + 1
    ensures forall i | 0 <= i < |r| :: r[i] == if i == |links| then null else if i == |links| - 1 then t else links[i]
  {
    if links == [] then [null] else links[..|links| - 1] + [t, null]
  }

  lemma LinkedAppend(head: Task?, q: seq<Task>, links: seq<Task?>, t: Task)
    requires Linked(head, q, links) && t !in q
    ensures Linked(if q == [] then t else head, q + [t], Relinked(links, t))
    decreases |q|
  {
    var r, all := Relinked(links, t), q + [t];
    if q == [] {
      assert all[1..] == [] && all[0] == t;
    } else {
      assert all[1..] == q[1..] + [t];
      LinkedAppend(links[0], q[1..], links[1..], t);
      assert r[1..] == Relinked(links[1..], t);
      assert links[1..] == [] ==> links[0] == null;
    }
  }

  lemma ThreadsRemoved(q: seq<Task>, k: nat)
    requires k < |q|
    ensures Threads(RemoveAt(q, k)) == RemoveAt(Threads(q), k)
    decreases k
  {
    if k == 0 {
      RemoveFirst(q);
    } else {
      ThreadsRemoved(q[1..], k - 1);
      RemoveLater(q, k);
      assert RemoveAt(Threads(q), k) == [Threads(q)[0]] + RemoveAt(Threads(q)[1..], k - 1);
    }
  }

  /** The links when the task before k is linked past it. */
  ghost function Bypass(links: seq<Task?>, k: nat): (r: seq<Task?>)
    requires k < |links|
  {
    RemoveAt(links, if k == 0 then 0 else k - 1)
  }

  lemma LinkedRemoved(head: Task?, q: seq<Task>, links: seq<Task?>, k: nat)
    requires Linked(head, q, links) && k < |q|
    ensures Linked(if k == 0 then links[0] else head, RemoveAt(q, k), Bypass(links, k))
    ensures q[k] !in RemoveAt(q, k)
    decreases k
  {
    if k == 0 {
      RemoveFirst(q);
      RemoveFirst(links);
    } else {
      LinkedRemoved(links[0], q[1..], links[1..], k - 1);
      RemoveLater(q, k);
      RemoveKeeps(q[1..], k - 1);
      if k == 1 {
        RemoveFirst(links);
        RemoveFirst(links[1..]);
        LinkedAt(links[0], q[1..], links[1..], 0);
      } else {
        RemoveLater(links, k - 1);
      }
    }
  }

  // ----------------------------------------------------------- lists in the heap

  /** The tasks of q hold these links, and are in the queue p. */
  ghost predicate Holds(q: seq<Task>, links: seq<Task?>, p: Place)
    requires |links| == |q|
    reads q
  {
    forall i | 0 <= i < |q| :: q[i].next == links[i] && q[i].place == p && (p != Zombie ==> !q[i].exited)
  }

  ghost predicate OnQueue(head: Task?, q: seq<Task>, links: seq<Task?>, p: Place)
    reads q
  {
    Linked(head, q, links) && Holds(q, links, p)
  }

  ghost function Last(q: seq<Task>): (s: set<Task>) { if q == [] then {} else {q[|q| - 1]} }

  /** `enqueue`: to the end of the list. */
  method Enqueue(head: Task?, t: Task, ghost q: seq<Task>, ghost links: seq<Task?>, ghost p: Place)
    returns (first: Task?)
    requires OnQueue(head, q, links, p) && t !in q && (p != Zombie ==> !t.exited)
    modifies t`next, t`place, Last(q)`next
    ensures OnQueue(first, q + [t], Relinked(links, t), p)
  {
    var cur := head;
    var prev := cur;
    t.next, t.place := null, p;
    LinkedAppend(head, q, links, t);
    if head == null {
      first := t;
    } else {
      ghost var i := 0;
      while cur != null
        invariant 0 <= i <= |q| && Holds(q, links, p) && t.next == null && t.place == p
        invariant cur == if i < |q| then q[i] else null
        invariant i > 0 ==> prev == q[i - 1]
        decreases |q| - i
      {
        prev := cur;
        LinkedAt(head, q, links, i);
        cur := cur.next;
        i := i + 1;
      }
      LinkedAt(head, q, links, |q| - 1);
      prev.next := t;
      first := head;
    }
  }

  /** `dequeue`: from the front of the list. */
  method Dequeue(head: Task?, ghost q: seq<Task>, ghost links: seq<Task?>, ghost p: Place)
    returns (popped: Task?, first: Task?)
    requires OnQueue(head, q, links, p)
    ensures q == [] ==> popped == null && first == null
    ensures q != [] ==> popped == q[0] && OnQueue(first, q[1..], links[1..], p) && q[0] !in q[1..]
  {
    popped, first := head, head;
    if popped != null {
      first := popped.next;
    }
  }

  /** The task that a search met just before the one at k. */
  ghost function Before(q: seq<Task>, k: nat): (t: Task?)
    requires k <= |q|
  {
    if k == 0 then null else q[k - 1]
  }

  /** Taking the task `cur` behind `pre` out of the list. */
  method Unlink(head: Task?, pre: Task?, cur: Task, ghost q: seq<Task>, ghost links: seq<Task?>, ghost k: nat,
                ghost p: Place)
    returns (first: Task?, ghost newLinks: seq<Task?>)
    requires OnQueue(head, q, links, p) && k < |q| && cur == q[k] && pre == Before(q, k)
    modifies (if k == 0 then {} else {q[k - 1]})`next
    ensures OnQueue(first, RemoveAt(q, k), newLinks, p) && cur !in RemoveAt(q, k)
  {
    LinkedRemoved(head, q, links, k);
    newLinks := Bypass(links, k);
    if pre != null {
      LinkedAt(head, q, links, k - 1);
      pre.next := cur.next;
      first := head;
    } else {
      first := cur.next;
    }
  }

  /** The first task of that pid: the search loop that `kill_thread`, `remove_task`
      and `find_task` share. */
  method Search(head: Task?, pid: int, ghost q: seq<Task>, ghost links: seq<Task?>, ghost p: Place)
    returns (cur: Task?, pre: Task?, ghost k: nat)
    requires OnQueue(head, q, links, p)
    ensures k == FirstIndex(Threads(q), pid)
    ensures cur == (if k < |q| then q[k] else null) && pre == Before(q, k)
    ensures if cur == null then forall t | t in q :: t.pid != pid else cur in q && cur.pid == pid
  {
    cur, pre, k := head, null, 0;
    assert q[0..] == q;
    while cur != null
      invariant 0 <= k <= |q| && FirstIndex(Threads(q), pid) == k + FirstIndex(Threads(q[k..]), pid)
      invariant cur == (if k < |q| then q[k] else null) && pre == Before(q, k)
      invariant forall i | 0 <= i < k :: q[i].pid != pid
      decreases |q| - k
    {
      assert q[k..][0] == q[k] && q[k..][1..] == q[k + 1..];
      if cur.pid == pid {
        return;
      }
      LinkedAt(head, q, links, k);
      pre := cur;
      cur := cur.next;
      k := k + 1;
    }
  }

  predicate Inside(q: seq<Task>, tasks: set<Task>) {
    forall i | 0 <= i < |q| :: q[i] in tasks
  }

  class Queues {
    var current: Task
    var runQueue: Task?
    var zombiesQueue: Task?
    var tempQueue: Task?
    var pid: int
    var signalExit: bool
    var signalPid: int
    /** What the lists hold. */
    ghost var run: seq<Task>
    ghost var runLinks: seq<Task?>
    ghost var zombies: seq<Task>
    ghost var zombieLinks: seq<Task?>
    ghost var parked: seq<Task>
    /** The state they stand for, and every task there ever was. */
    ghost var model: Sched
    ghost var tasks: set<Task>

    ghost predicate TempOk()
      reads this, tempQueue
    {
      if tempQueue == null then parked == []
      else parked == [tempQueue] && tempQueue.next == null && tempQueue.place == Parked && !tempQueue.exited
    }

    ghost predicate Shape()
      reads this, run, zombies, tempQueue
    {
      OnQueue(runQueue, run, runLinks, Queued) && OnQueue(zombiesQueue, zombies, zombieLinks, Zombie) && TempOk()
    }

    ghost predicate OthersStand()
      reads this
    {
      model.current == ThreadOf(current) && model.zombies == Threads(zombies) && model.parked == Threads(parked) &&
      model.nextPid == pid && model.signalExit == signalExit && model.signalPid == signalPid
    }

    ghost predicate Stands()
      reads this
    {
      model.run == Threads(run) && OthersStand()
    }

    ghost predicate Known()
      reads this
    {
      Inside(run, tasks) && Inside(zombies, tasks) && Inside(parked, tasks) && current in tasks
    }

    /** The current task may have exited, and `schedule` be on its way. */
    ghost predicate Going()
      reads this, run, zombies, tempQueue, current
    {
      Shape() && Known() && current.place == Current && Stands()
    }

    ghost predicate Valid()
      reads this, run, zombies, tempQueue, current
    {
      Going() && !current.exited
    }

    /** The model follows what the lists came to hold. */
    ghost method Follow(m: Sched)
      requires Shape() && Known()
      modifies this`model
      ensures Shape() && Known() && model == m
    {
      model := m;
    }

    /** The lists and variables are those of the state m. */
    ghost predicate StandsFor(m: Sched)
      reads this
    {
      m.run == Threads(run) && m.current == ThreadOf(current) && m.zombies == Threads(zombies) &&
      m.parked == Threads(parked) && m.nextPid == pid && m.signalExit == signalExit && m.signalPid == signalPid
    }

    /** The model follows, at the end of an operation. */
    ghost method Settle(m: Sched)
      requires Shape() && Known() && current.place == Current && !current.exited && StandsFor(m)
      modifies this`model
      ensures Valid() && model == m
    {
      model := m;
    }

    ghost method Admit(t: Task)
      requires Shape() && Inside(run, tasks + {t}) && Inside(zombies, tasks) && Inside(parked, tasks) &&
               current in tasks
      modifies this`tasks
      ensures Shape() && Known() && tasks == old(tasks) + {t}
    {
      tasks := tasks + {t};
    }

    method SetPid(n: int)
      requires Shape() && Known()
      modifies this`pid
      ensures Shape() && Known() && pid == n
    {
      pid := n;
    }

    method SetSignal(exit: bool, pid: int)
      requires Shape() && Known()
      modifies this`signalExit, this`signalPid
      ensures Shape() && Known() && signalExit == exit && signalPid == pid
    {
      signalExit, signalPid := exit, pid;
    }

    /** Only new tasks came to the old ones. */
    twostate predicate Kept()
      reads this
    {
      old(tasks) <= tasks && fresh(tasks - old(tasks))
    }

    /** `thread_init` and the start of idle, which is dequeued at once. */
    constructor ()
      ensures Valid() && model == BOOT && fresh(tasks)
    {
      var idle := new Task(1, 0);
      current := idle;
      runQueue, zombiesQueue, tempQueue := null, null, null;
      pid, signalExit, signalPid := 2, false, 0;
      run, runLinks, zombies, zombieLinks, parked := [], [], [], [], [];
      model, tasks := BOOT, {idle};
      new;
      current.place := Current;
    }

    ghost predicate Unqueued(t: Task)
      reads this
    {
      t !in run && t !in zombies && t !in parked
    }

    /** `enqueue(&run_queue, t)`. */
    method EnqueueRun(t: Task)
      requires Shape() && Unqueued(t) && !t.exited
      modifies this`runQueue, this`run, this`runLinks, t`next, t`place, Last(run)`next
      ensures Shape() && run == old(run) + [t] && Threads(run) == old(Threads(run)) + [ThreadOf(t)]
    {
      ThreadsConcat(run, [t]);
      runQueue := Enqueue(runQueue, t, run, runLinks, Queued);
      run, runLinks := run + [t], Relinked(runLinks, t);
    }

    /** `enqueue(&zombies_queue, t)`. */
    method EnqueueZombie(t: Task)
      requires Shape() && Unqueued(t)
      modifies this`zombiesQueue, this`zombies, this`zombieLinks, t`next, t`place, Last(zombies)`next
      ensures Shape() && zombies == old(zombies) + [t] && Threads(zombies) == old(Threads(zombies)) + [ThreadOf(t)]
    {
      ThreadsConcat(zombies, [t]);
      zombiesQueue := Enqueue(zombiesQueue, t, zombies, zombieLinks, Zombie);
      zombies, zombieLinks := zombies + [t], Relinked(zombieLinks, t);
    }

    /** Takes the task that a search of the run queue stopped at out of it. */
    method UnlinkRun(pre: Task?, cur: Task, ghost k: nat)
      requires Shape() && k < |run| && cur == run[k] && pre == Before(run, k)
      modifies this`runQueue, this`run, this`runLinks, (if k == 0 then {} else {run[k - 1]})`next
      ensures Shape() && run == RemoveAt(old(run), k) && Unqueued(cur) && Threads(run) == RemoveAt(old(Threads(run)), k)
    {
      ThreadsRemoved(run, k);
      ghost var newLinks;
      runQueue, newLinks := Unlink(runQueue, pre, cur, run, runLinks, k, Queued);
      run, runLinks := RemoveAt(run, k), newLinks;
    }

    /** The bookkeeping of a task that was just queued. */
    method Record(t: Task)
      requires Shape() && Inside(run, tasks + {t}) && Inside(zombies, tasks) && Inside(parked, tasks)
      requires current in tasks && current.place == Current && !current.exited
      requires ThreadOf(t) == Newest(model) && Threads(run) == model.run + [ThreadOf(t)] && OthersStand()
      modifies this`pid, this`tasks, this`model
      ensures Valid() && tasks == old(tasks) + {t} && model == Create(old(model))
    {
      pid := pid + 1;
      tasks := tasks + {t};
      model := Create(model);
    }

    /** `task_create`, with its bookkeeping. */
    method TaskCreate() returns (t: Task)
      requires Valid()
      modifies this, tasks
      ensures Valid() && Kept() && model == Create(old(model)) && ThreadOf(t) == Newest(old(model)) && t in tasks
      ensures current == old(current)
    {
      t := new Task(pid, model.nextId);
      QueueAndRecord(t);
    }

    method QueueAndRecord(t: Task)
      requires Valid() && Unqueued(t) && !t.exited && t.place == Nowhere && ThreadOf(t) == Newest(model)
      modifies this`pid, this`tasks, this`model, this`runQueue, this`run, this`runLinks, tasks, t
      ensures Valid() && tasks == old(tasks) + {t} && model == Create(old(model))
    {
      EnqueueRun(t);
      Record(t);
    }

    /** `sysc_fork`, apart from the registers and stacks it copies: a child of a
        task in a signal handler is in it too. */
    method Fork() returns (childPid: int)
      requires Valid()
      modifies this, tasks
      ensures Valid() && Kept() && model == Step(old(model), Event.Fork) && childPid == old(model.nextPid)
    {
      ghost var s := model;
      var t := TaskCreate();
      childPid := t.pid;
      Follow(Step(s, Event.Fork));
    }

    /** A task found in the run queue becomes a zombie. */
    method MakeZombie(pre: Task?, cur: Task, ghost k: nat)
      requires Shape() && Known() && k < |run| && cur == run[k] && pre == Before(run, k) && current.place == Current
      modifies this`runQueue, this`run, this`runLinks, this`zombiesQueue, this`zombies, this`zombieLinks, tasks
      ensures Shape() && Known() && current.place == Current && current.exited == old(current.exited)
      ensures Threads(run) == RemoveAt(old(Threads(run)), k) &&
              Threads(zombies) == old(Threads(zombies)) + [ThreadOf(cur)]
    {
      TakeOut(pre, cur, k);
      EnqueueZombie(cur);
    }

    /** Takes a task found in the run queue out of it. */
    method TakeOut(pre: Task?, cur: Task, ghost k: nat)
      requires Shape() && Known() && k < |run| && cur == run[k] && pre == Before(run, k) && current.place == Current
      modifies this`runQueue, this`run, this`runLinks, (if k == 0 then {} else {run[k - 1]})`next
      ensures Shape() && Known() && Unqueued(cur) && cur in tasks && cur != current && !cur.exited
      ensures Threads(run) == RemoveAt(old(Threads(run)), k)
    {
      RemoveKeeps(run, k);
      UnlinkRun(pre, cur, k);
    }

    /** `kill_thread`. */
    method KillThread(pid: int)
      requires Valid()
      modifies this, tasks
      ensures Valid() && tasks == old(tasks) && current == old(current) && model == Killed(old(model), pid)
    {
      var cur, pre;
      ghost var k;
      cur, pre, k := Search(runQueue, pid, run, runLinks, Queued);
      if cur != null {
        KillFound(pid, pre, cur, k);
      }
    }

    method KillFound(ghost pid: int, pre: Task?, cur: Task, ghost k: nat)
      requires Valid() && k < |run| && cur == run[k] && pre == Before(run, k) && k == FirstIndex(model.run, pid)
      modifies this`runQueue, this`run, this`runLinks, this`zombiesQueue, this`zombies, this`zombieLinks, this`model,
               tasks
      ensures Valid() && current == old(current) && model == Killed(old(model), pid)
    {
      ThreadsAt(run, k);
      MakeZombie(pre, cur, k);
      Settle(Killed(model, pid));
    }

    /** `dequeue(&run_queue)`. */
    method DequeueRun() returns (popped: Task?)
      requires Shape()
      modifies this`runQueue, this`run, this`runLinks
      ensures Shape()
      ensures old(run) == [] ==> popped == null && run == []
      ensures old(run) != [] ==> popped == old(run[0]) && run == old(run[1..]) && Unqueued(popped)
    {
      popped, runQueue := Dequeue(runQueue, run, runLinks, Queued);
      if run != [] {
        run, runLinks := run[1..], runLinks[1..];
      }
    }

    /** The branch of `schedule` for the task that goes. */
    method PutAway(cur: Task)
      requires Shape() && Unqueued(cur)
      modifies this`runQueue, this`run, this`runLinks, this`zombiesQueue, this`zombies, this`zombieLinks,
               cur`next, cur`place, Last(run)`next, Last(zombies)`next
      ensures Shape() && cur.exited == old(cur.exited)
      ensures if cur.exited
              then run == old(run) && zombies == old(zombies) + [cur] &&
                   Threads(zombies) == old(Threads(zombies)) + [ThreadOf(cur)]
              else zombies == old(zombies) && run == old(run) + [cur] &&
                   Threads(run) == old(Threads(run)) + [ThreadOf(cur)]
    {
      if !cur.exited {
        EnqueueRun(cur);
      } else {
        EnqueueZombie(cur);
      }
    }

    /** `switch_to` and `write_current`. */
    method MakeCurrent(next: Task)
      requires Shape() && Unqueued(next)
      modifies this`current, next`place
      ensures Shape() && current == next && next.place == Current && next.exited == old(next.exited)
    {
      current := next;
      next.place := Current;
    }

    /** The end of `schedule`. */
    method SwitchTo(next: Task)
      requires Shape() && Known() && next in tasks && !next.exited && Unqueued(next) && Unqueued(current) &&
               next != current
      modifies this`runQueue, this`run, this`runLinks, this`zombiesQueue, this`zombies, this`zombieLinks, this`current,
               tasks
      ensures Shape() && Known() && current == next && current.place == Current && !current.exited
      ensures if old(current.exited)
              then run == old(run) && Threads(zombies) == old(Threads(zombies)) + [ThreadOf(old(current))]
              else zombies == old(zombies) && Threads(run) == old(Threads(run)) + [ThreadOf(old(current))]
    {
      PutAwayCurrent();
      MakeCurrent(next);
    }

    method PutAwayCurrent()
      requires Shape() && Known() && Unqueued(current)
      modifies this`runQueue, this`run, this`runLinks, this`zombiesQueue, this`zombies, this`zombieLinks,
               current`next, current`place, Last(run)`next, Last(zombies)`next
      ensures Shape() && Known() && current.exited == old(current.exited)
      ensures if current.exited
              then run == old(run) && zombies == old(zombies) + [current] &&
                   Threads(zombies) == old(Threads(zombies)) + [ThreadOf(current)]
              else zombies == old(zombies) && run == old(run) + [current] &&
                   Threads(run) == old(Threads(run)) + [ThreadOf(current)]
    {
      PutAway(current);
    }

    method SwitchAndRecord(next: Task)
      requires Shape() && Known() && next in tasks && !next.exited && Unqueued(next) && Unqueued(current) &&
               next != current
      requires OthersStand() && model.run == [ThreadOf(next)] + Threads(run)
      modifies this`runQueue, this`run, this`runLinks, this`zombiesQueue, this`zombies, this`zombieLinks, this`current,
               this`model, tasks
      ensures Valid() && model == Scheduled(old(model), old(current.exited)).s
    {
      ghost var exited := current.exited;
      SwitchTo(next);
      Settle(Scheduled(model, exited).s);
    }

    /** The current task is in no queue. */
    lemma CurrentUnqueued()
      requires Shape() && current.place == Current
      ensures Unqueued(current)
    {
    }

    /** `schedule`: never to NULL, as the caller has to know. */
    method Schedule()
      requires Going() && !Scheduled(model, current.exited).NullSwitch? && (current.exited ==> model.run != [])
      modifies this, tasks
      ensures Valid() && Kept()
      ensures model == match Scheduled(old(model), old(current.exited))
                       case Switched(s) => s
                       case _ => ShellRan(old(model))
    {
      var next := TakeNext();
      if current.pid == 1 && next == null {
        EnterShell();
        return;
      }
      SwitchAndRecord(next);
    }

    /** The start of `schedule`. */
    method TakeNext() returns (next: Task?)
      requires Going()
      modifies this`runQueue, this`run, this`runLinks, current`next
      ensures Shape() && Known() && OthersStand() && current.place == Current && Unqueued(current)
      ensures old(run) == [] ==> next == null && run == []
      ensures old(run) != [] ==> next == old(run[0]) && Threads(run) == old(Threads(run))[1..] && Unqueued(next) &&
                                 next in tasks && !next.exited && next != current
    {
      CurrentUnqueued();
      next := DequeueRun();
      current.next := null;
    }

    /** Idle in the shell, and the `run` command there. */
    method EnterShell()
      requires Valid() && run == []
      modifies this, tasks
      ensures Valid() && Kept() && model == ShellRan(old(model))
    {
      QueueIdle();
      RunCommand();
      FollowShell();
    }

    method QueueIdle()
      requires Valid() && run == []
      modifies this`pid, this`runQueue, this`run, this`runLinks, current`next, current`place
      ensures Shape() && Known() && run == [current] && pid == 2
    {
      CurrentUnqueued();
      SetPid(2);
      EnqueueRun(current);
    }

    method FollowShell()
      requires Shape() && Known() && pid == 2 && current.place == Current && !current.exited
      requires Threads(run) == [Thread.Thread(model.nextId, 2)] && model.run == []
      requires model.current == ThreadOf(current) && model.zombies == Threads(zombies) &&
               model.parked == Threads(parked)
      requires model.signalExit == signalExit && model.signalPid == signalPid
      modifies this`pid, this`model
      ensures Valid() && model == ShellRan(old(model))
    {
      SetPid(pid + 1);
      Follow(ShellRan(model));
    }

    /** `task_create` in the shell, and idle dequeued again. */
    method RunCommand()
      requires Shape() && Known() && run == [current] && pid == 2
      modifies this`runQueue, this`run, this`runLinks, this`tasks, this`current, tasks
      ensures Shape() && Known() && Kept() && current == old(current) && current.place == Current && !current.exited
      ensures Threads(run) == [Thread.Thread(model.nextId, 2)]
    {
      QueueNew();
      var idle := DequeueRun();
      MakeCurrent(idle);
    }

    method QueueNew()
      requires Shape() && Known() && run == [current] && pid == 2
      modifies this`runQueue, this`run, this`runLinks, this`tasks, tasks
      ensures Shape() && Known() && Kept() && current.exited == old(current.exited)
      ensures |run| == 2 && run[0] == current && ThreadOf(run[1]) == Thread.Thread(model.nextId, 2)
    {
      var t := new Task(pid, model.nextId);
      EnqueueRun(t);
      Admit(t);
    }

    /** `sysc_exit`, and the call of `schedule` after it. */
    method Exit()
      requires Valid() && current.pid != 1 && Asked(model, Event.Exit).Switched?
      modifies this, tasks
      ensures Valid() && Kept() && model == Asked(old(model), Event.Exit).s
    {
      PendingKill();
      MarkExited();
      Schedule();
    }

    /** The start of `sysc_exit`: a kill that is pending is done. */
    method PendingKill()
      requires Valid()
      modifies this, tasks
      ensures Valid() && tasks == old(tasks) && current == old(current) && model == ExitKills(old(model))
    {
      if signalExit {
        SetSignal(false, signalPid);
        Settle(model.(signalExit := false));
        KillThread(signalPid);
      }
    }

    method MarkExited()
      requires Valid()
      modifies current`exited
      ensures Going() && current.exited
    {
      CurrentUnqueued();
      current.exited := true;
    }

    /** `remove_task`: its target must not be the head of the queue. A task that was
        parked before is forgotten. */
    method RemoveTask(pid: int)
      requires Shape() && Known() && current.place == Current && (run == [] || 0 < FirstIndex(Threads(run), pid))
      modifies this`runQueue, this`run, this`runLinks, this`tempQueue, this`parked, tasks
      ensures Shape() && Known() && current.place == Current && current.exited == old(current.exited)
      ensures var k := FirstIndex(old(Threads(run)), pid);
              if k < |old(run)|
              then Threads(run) == RemoveAt(old(Threads(run)), k) && Threads(parked) == [old(Threads(run))[k]]
              else Threads(run) == old(Threads(run)) && parked == old(parked)
    {
      var cur, pre;
      ghost var k;
      cur, pre, k := Search(runQueue, pid, run, runLinks, Queued);
      if cur != null {
        ThreadsAt(run, k);
        TakeOut(pre, cur, k);
        Park(cur);
      }
    }

    method Park(cur: Task)
      requires Shape() && Unqueued(cur) && !cur.exited
      modifies this`tempQueue, this`parked, cur`next, cur`place
      ensures Shape() && parked == [cur]
    {
      tempQueue := cur;
      tempQueue.next := null;
      tempQueue.place := Parked;
      parked := [cur];
    }

    /** `sysc_signal_kill`, apart from the handler's address. */
    method SignalKill(pid: int)
      requires Valid() && 0 < FirstIndex(model.run, pid) < |model.run|
      modifies this, tasks
      ensures Valid() && Kept() && model == SignalKilled(old(model), pid)
    {
      ParkTarget(pid);
      ghost var s := model;
      var t := TaskCreate();
      Follow(model.(handlers := s.handlers + {ThreadOf(t)}));
    }

    method ParkTarget(pid: int)
      requires Valid() && 0 < FirstIndex(model.run, pid) < |model.run|
      modifies this, tasks
      ensures Valid() && tasks == old(tasks)
      ensures var s := old(model); var k := FirstIndex(s.run, pid);
              model == s.(run := RemoveAt(s.run, k), parked := [s.run[k]], signalPid := pid, signalExit := true)
    {
      SetSignal(true, pid);
      RemoveAndFollow(pid);
    }

    method RemoveAndFollow(pid: int)
      requires Shape() && Known() && current.place == Current && !current.exited
      requires 0 < FirstIndex(Threads(run), pid) < |run|
      requires model.run == Threads(run) && model.current == ThreadOf(current) && model.zombies == Threads(zombies)
      modifies this`runQueue, this`run, this`runLinks, this`tempQueue, this`parked, this`model, tasks
      ensures Shape() && Known() && current.place == Current && !current.exited
      ensures model.run == Threads(run) && model.parked == Threads(parked)
      ensures var s := old(model); var k := FirstIndex(s.run, pid);
              model == s.(run := RemoveAt(s.run, k), parked := [s.run[k]], signalPid := pid, signalExit := true)
    {
      RemoveTask(pid);
      ghost var k := FirstIndex(model.run, pid);
      Follow(model.(run := RemoveAt(model.run, k), parked := [model.run[k]], signalPid := pid, signalExit := true));
    }

    /** `add_to_queue`: the parked task goes to the end of a queue that holds idle. */
    method AddToQueue()
      requires Valid() && run != []
      modifies this, tasks
      ensures Valid() && tasks == old(tasks) &&
              model == old(model).(run := old(model).run + old(model).parked, parked := [])
    {
      if tempQueue != null {
        var t := Unpark();
        QueueParked(t);
      } else {
        assert model.parked == [] && model.run + [] == model.run;
      }
    }

    /** The task that was parked, at the end of the queue. */
    method QueueParked(t: Task)
      requires Shape() && Known() && Unqueued(t) && !t.exited && t in tasks && t.place == Parked
      requires current.place == Current && !current.exited && parked == []
      requires model.parked == [ThreadOf(t)] && StandsFor(model.(parked := []))
      modifies this`runQueue, this`run, this`runLinks, this`model, t`next, t`place, Last(run)`next
      ensures Valid() && model == old(model).(run := old(model).run + old(model).parked, parked := [])
    {
      EnqueueRun(t);
      Settle(model.(run := model.run + model.parked, parked := []));
    }

    method Unpark() returns (t: Task)
      requires Shape() && Known() && tempQueue != null
      modifies this`tempQueue, this`parked
      ensures Shape() && Known() && parked == [] && old(parked) == [t] && Unqueued(t) && !t.exited && t in tasks &&
              t.place == Parked
    {
      t := tempQueue;
      assert parked[0] == t;
      tempQueue := null;
      parked := [];
    }

    /** `kill_zombies`: the first zombie, if there is one, leaves the list for good. */
    method KillZombies()
      requires Valid()
      modifies this, tasks
      ensures Valid() && tasks == old(tasks) && model == Step(old(model), Reap)
      ensures old(zombies) == [] ==> zombies == [] && model == old(model)
      ensures old(zombies) != [] ==>
                zombies == old(zombies[1..]) && Threads(zombies) == old(Threads(zombies))[1..] &&
                model.live == old(model.live) - {old(ThreadOf(zombies[0]))}
    {
      if zombies != [] {
        ThreadsAt(zombies, 0);
      }
      var cur := DequeueZombie();
      if cur != null {
        Settle(Step(model, Reap));
      }
    }

    /** `dequeue(&zombies_queue)`. */
    method DequeueZombie() returns (popped: Task?)
      requires Shape()
      modifies this`zombiesQueue, this`zombies, this`zombieLinks
      ensures Shape()
      ensures old(zombies) == [] ==> popped == null && zombies == []
      ensures old(zombies) != [] ==>
              popped != null && zombies == old(zombies[1..]) && Threads(zombies) == old(Threads(zombies))[1..]
    {
      popped, zombiesQueue := Dequeue(zombiesQueue, zombies, zombieLinks, Zombie);
      if zombies != [] {
        zombies, zombieLinks := zombies[1..], zombieLinks[1..];
      }
    }

    /** `signal_exit = 0` at the end of the handler wrapper. */
    method ClearSignalExit()
      requires Valid()
      modifies this
      ensures Valid() && tasks == old(tasks) && model == Step(old(model), ClearSignal)
    {
      SetSignal(false, signalPid);
      Follow(model.(signalExit := false));
    }
  }
}
