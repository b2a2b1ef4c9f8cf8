/**
 The scheduler (task.c): the timer's task switch over the ready queue, sleeping, and the
 next-task hint. Which task runs next is specified by a function of the scheduler's state, and
 what that promises over whole runs is proved about the function.
 */
module Scheduling {
  import opened LinkedList
  import opened Basics

  //  Task states are bit sets; TASK_WAKING_UP has both of the first two bits.
  const RUNNING: nat := 1
  const SLEEPING: nat := 2
  const WAKING_UP: nat := 3
  const IOWAIT: nat := 4

  const TIMER_HZ: nat := 100
  const WORD: nat := 0x1_0000_0000

  datatype Task = Task(state: nat, wakeup: nat, didExecve: bool)

  predicate Runnable(t: Task) { t.state % 2 == 1 }
  predicate SleepingBit(t: Task) { t.state / 2 % 2 == 1 }

  datatype Sched = Sched(
    queue: seq<nat>, tasks: map<nat, Task>, current: nat, hint: Option<nat>, idle: nat, kernel: nat, switching: bool)

  ghost predicate NoRepeats(q: seq<nat>) {
    forall i, j :: 0 <= i < j < |q| ==> q[i] != q[j]
  }

  ghost predicate Sound(s: Sched) {
    && s.current in s.tasks && s.idle in s.tasks
    && (s.hint.Some? ==> s.hint.value in s.tasks)
    && (forall i :: 0 <= i < |s.queue| ==> s.queue[i] in s.tasks)
  }

  //  What one call does

  /** The call returns at once: switching is off, or the kernel task is alone. */
  ghost predicate Frozen(s: Sched) {
    !s.switching || (s.current == s.kernel && |s.queue| == 1)
  }

  /** The call looks through the ready queue. */
  ghost predicate Searches(s: Sched)
    requires s.current in s.tasks
  {
    !Frozen(s) && s.hint.None? && !s.tasks[s.current].didExecve
  }

  function Woken(t: Task, ticks: nat): Task {
    if t.state == SLEEPING && t.wakeup <= ticks then t.(state := WAKING_UP, wakeup := 0) else t
  }

  ghost function WakeAll(s: Sched, ticks: nat): Sched {
    s.(tasks := WokenTasks(s.tasks, s.queue, ticks))
  }

  ghost function WokenTasks(tasks: map<nat, Task>, q: seq<nat>, ticks: nat): map<nat, Task> {
    map x | x in tasks :: if x in q then Woken(tasks[x], ticks) else tasks[x]
  }

  lemma NoneWoken(tasks: map<nat, Task>, ticks: nat)
    ensures WokenTasks(tasks, [], ticks) == tasks
  {
  }

  lemma WokenKeys(tasks: map<nat, Task>, q: seq<nat>, ticks: nat)
    ensures WokenTasks(tasks, q, ticks).Keys == tasks.Keys
  {
  }

  lemma WakeOne(tasks: map<nat, Task>, q: seq<nat>, k: nat, ticks: nat)
    requires k < |q| && q[k] in tasks
    ensures var done := WokenTasks(tasks, q[..k], ticks);
      WokenTasks(tasks, q[..k + 1], ticks) == done[q[k] := Woken(done[q[k]], ticks)]
  {
    assert q[..k + 1] == q[..k] + [q[k]];
  }

  ghost function Position(q: seq<nat>, x: nat): (k: nat)
    ensures k <= |q|
    ensures x !in q[..k] && (k < |q| ==> q[k] == x)
  {
    if q == [] || q[0] == x then 0 else var k := Position(q[1..], x); assert q[..k + 1] == [q[0]] + q[1..][..k]; k + 1
  }

  ghost predicate RunnableAt(s: Sched, k: nat, d: nat)
    requires Sound(s) && k < |s.queue| && d <= |s.queue|
  {
    Runnable(s.tasks[s.queue[RingIndex(|s.queue|, k, d)]])
  }

  /** The least distance from d on at which a task can run; the queue's length when there is none. */
  ghost function Nearest(s: Sched, k: nat, d: nat): (r: nat)
    requires Sound(s) && k < |s.queue| && d <= |s.queue|
    ensures d <= r <= |s.queue|
    ensures forall e :: d <= e < r ==> !RunnableAt(s, k, e)
    ensures r < |s.queue| ==> RunnableAt(s, k, r)
    decreases |s.queue| - d
  {
    if d == |s.queue| || RunnableAt(s, k, d) then d else Nearest(s, k, d + 1)
  }

  lemma {:induction false} PositionIs(q: seq<nat>, x: nat, k: nat)
    requires k < |q| && q[k] == x && x !in q[..k]
    ensures Position(q, x) == k
  {
    if k > 0 {
      assert q[..k][0] == q[0] && q[1..][..k - 1] == q[..k][1..];
      PositionIs(q[1..], x, k - 1);
    }
  }

  lemma PositionAbsent(q: seq<nat>, x: nat)
    requires x !in q
    ensures Position(q, x) == |q|
  {
  }

  /** task_running_predicate on the tasks as they stand. */
  function CanRun(tasks: map<nat, Task>): nat -> bool {
    x => x in tasks && Runnable(tasks[x])
  }

  /** The list's ring search with the running predicate finds the nearest task that can run. */
  lemma {:induction false} SearchIsNearest(s: Sched, k: nat, d: nat)
    requires Sound(s) && k < |s.queue| && d <= |s.queue|
    ensures RingFirst(s.queue, CanRun(s.tasks), k, d) == Nearest(s, k, d)
    decreases |s.queue| - d
  {
    if d < |s.queue| {
      SearchIsNearest(s, k, d + 1);
    }
  }

  ghost function Chosen(s: Sched): nat
    requires Sound(s) && s.queue != []
  {
    var k := Position(s.queue, s.current);
    if k == |s.queue| then s.queue[0]
    else
      var d := Nearest(s, k, 1);
      if d < |s.queue| then s.queue[RingIndex(|s.queue|, k, d)]
      else if Runnable(s.tasks[s.current]) then s.current
      else s.idle
  }

  ghost function Switched(s: Sched, x: nat): Sched
    requires x in s.tasks
  {
    if x == s.current then s
    else
      var t := s.tasks[x];
      s.(current := x, tasks := s.tasks[x := if t.state == WAKING_UP then t.(state := RUNNING) else t])
  }

  /** An assertion of the source fails, and the machine stops. */
  ghost predicate Stuck(s: Sched, ticks: nat)
    requires Sound(s)
  {
    && Searches(s)
    && (s.queue == [] ||
        var w := WakeAll(s, ticks);
        if s.current !in s.queue then !Runnable(w.tasks[s.queue[0]])
        else Chosen(w) == s.idle && w.tasks[s.idle].state == SLEEPING)
  }

  ghost function AfterSwitch(s: Sched, ticks: nat): Sched
    requires Sound(s) && !Stuck(s, ticks)
  {
    if Frozen(s) then s
    else if s.hint.Some? then
      var x := s.hint.value;
      var t := s.tasks[x];
      var t' := if SleepingBit(t) then t.(state := RUNNING, wakeup := 0) else t;
      Switched(s.(hint := None, tasks := s.tasks[x := t']), x)
    else if s.tasks[s.current].didExecve then
      s.(tasks := s.tasks[s.current := s.tasks[s.current].(didExecve := false)])
    else
      Switched(WakeAll(s, ticks), Chosen(WakeAll(s, ticks)))
  }

  class Scheduler {
    const queue: List<nat>
    const idle: nat
    const kernel: nat
    var tasks: map<nat, Task>
    var current: nat
    var hint: Option<nat>
    var switching: bool

    ghost function State(): Sched
      reads this, queue, queue.nodes
    {
      Sched(queue.Contents(), tasks, current, hint, idle, kernel, switching)
    }

    ghost predicate Valid()
      reads this, queue, queue.nodes
    {
      queue.Valid() && Sound(State())
    }

    constructor (queue: List<nat>, idle: nat, kernel: nat, tasks: map<nat, Task>)
      requires queue.Valid() && idle in tasks && kernel in tasks
      requires forall i :: 0 <= i < |queue.nodes| ==> queue.nodes[i].data in tasks
      ensures Valid() && State() == Sched(queue.Contents(), tasks, kernel, None, idle, kernel, true)
    {
      this.queue, this.idle, this.kernel, this.tasks := queue, idle, kernel, tasks;
      current, hint, switching := kernel, None, true;
    }

    method SetNextTask(x: nat)
      requires Valid() && x in tasks
      modifies this
      ensures Valid()
      ensures State() == Hinted(old(State()), x)
    {
      hint := Some(x);
      tasks := tasks[x := tasks[x].(state := RUNNING, wakeup := 0)];
    }

    method SwitchTask(x: nat) returns (ok: bool)
      requires Valid() && x in tasks
      modifies this
      ensures ok == (old(switching) && old(tasks)[x].state != SLEEPING)
      ensures Valid() && State() == if ok then Switched(old(State()), x) else old(State())
    {
      if !switching || tasks[x].state == SLEEPING {
        return false;
      }
      if x == current {
        return true;
      }
      if tasks[x].state == WAKING_UP {
        tasks := tasks[x := tasks[x].(state := RUNNING)];
      }
      current := x;
      return true;
    }

    method WakeSleepers(ticks: nat)
      requires Valid()
      modifies this
      ensures Valid() && State() == WakeAll(old(State()), ticks)
    {
      hide WokenTasks;
      var it := queue.head;
      ghost var k := 0;
      ghost var q := queue.Contents();
      assert WokenTasks(tasks, q[..0], ticks) == tasks by {
        NoneWoken(tasks, ticks);
      }
      while it != null
        invariant k <= |queue.nodes| && it == (if k < |queue.nodes| then queue.nodes[k] else null)
        invariant current == old(current) && hint == old(hint) && switching == old(switching)
        invariant tasks == WokenTasks(old(tasks), q[..k], ticks)
        decreases |queue.nodes| - k
      {
        assert queue.LinkedAt(k);
        var x := it.data;
        assert x == q[k];
        WakeOne(old(tasks), q, k, ticks);
        WokenKeys(old(tasks), q[..k], ticks);
        ghost var t := tasks[x];
        ghost var done := tasks;
        assert x in done && done[x := done[x]] == done;
        if tasks[x].state == SLEEPING && tasks[x].wakeup <= ticks {
          tasks := tasks[x := tasks[x].(wakeup := 0)];
          tasks := tasks[x := tasks[x].(state := WAKING_UP)];
          assert tasks == done[x := Woken(t, ticks)];
        }
        it, k := it.next, k + 1;
      }
      assert q[..k] == q;
      WokenKeys(old(tasks), q, ticks);
    }

    /** scheduler_taskSwitch; a false result means that an assertion stopped the machine. */
    method TaskSwitch(ticks: nat) returns (ok: bool)
      requires Valid()
      modifies this
      ensures Valid()
      ensures ok == !Stuck(old(State()), ticks)
      ensures ok ==> State() == AfterSwitch(old(State()), ticks)
      ensures !Frozen(old(State())) && old(hint).Some? ==> ok && current == old(hint).value && hint == None
      ensures !Frozen(old(State())) && old(hint).None? && old(tasks[current].didExecve) ==> ok && current == old(current)
    {
      if !switching || (current == kernel && queue.count == 1) {
        return true;
      }
      if hint.Some? {
        var x := hint.value;
        hint := None;
        if SleepingBit(tasks[x]) {
          tasks := tasks[x := tasks[x].(state := RUNNING, wakeup := 0)];
        }
        ok := SwitchTask(x);
        return;
      }
      if tasks[current].didExecve {
        tasks := tasks[current := tasks[current].(didExecve := false)];
        return true;
      }
      if queue.count == 0 {
        return false;
      }
      WakeSleepers(ticks);
      ok := PickAndSwitch();
    }

    method PickAndSwitch() returns (ok: bool)
      requires Valid() && queue.nodes != [] && switching
      modifies this
      ensures Valid()
      ensures ok == if old(current) !in queue.Contents() then Runnable(old(tasks)[queue.Contents()[0]])
                    else !(Chosen(old(State())) == idle && old(tasks)[idle].state == SLEEPING)
      ensures ok ==> State() == Switched(old(State()), Chosen(old(State())))
    {
      hide RingFirst, Nearest, CanRun, Position;
      var node, k := queue.FindFirst(current);
      ghost var q := queue.Contents();
      assert q[0] == queue.head.data;
      if node == null {
        PositionAbsent(q, current);
        if !Runnable(tasks[queue.head.data]) {
          return false;
        }
        ok := SwitchTask(queue.head.data);
        return;
      }
      var next := queue.FindNext(node, CanRun(tasks), k);
      PositionIs(q, current, k);
      SearchIsNearest(State(), k, 1);
      if next == null {
        if Runnable(tasks[node.data]) {
          return true;
        }
        ok := SwitchTask(idle);
        return;
      }
      if next.data == current {
        return true;
      }
      ok := SwitchTask(next.data);
    }

    /** sleep(), up to the forced switch that follows it. */
    method Sleep(milliseconds: nat, ticks: nat)
      requires Valid() && current in tasks && milliseconds < WORD && ticks < WORD
      requires milliseconds > 0 ==>
        tasks[current].state != SLEEPING && tasks[current].state != IOWAIT && tasks[current].wakeup == 0
      modifies this
      ensures Valid()
      ensures milliseconds == 0 ==> State() == old(State())
      ensures milliseconds > 0 ==>
        State() == old(State()).(tasks := old(tasks)[old(current) := old(tasks[current]).(
          state := SLEEPING, wakeup := TickAfter(ticks, TicksFor(milliseconds)))])
    {
      if milliseconds == 0 {
        return;
      }
      var wait := milliseconds / (1000 / TIMER_HZ);
      if wait == 0 {
        wait := 1;
      }
      tasks := tasks[current := tasks[current].(state := SLEEPING, wakeup := (ticks + wait) % WORD)];
    }
  }

  /** At least one tick, and otherwise the whole ticks in the time asked for. */
  ghost function TicksFor(milliseconds: nat): (r: nat)
    requires milliseconds > 0
    ensures r >= 1 && (milliseconds >= 10 ==> 10 * r <= milliseconds < 10 * r + 10)
  {
    if milliseconds < 10 then 1 else milliseconds / 10
  }

  /** The 32-bit tick count after so many more ticks. */
  function TickAfter(ticks: nat, more: nat): nat {
    (ticks + more) % WORD
  }

  //  Whole runs. Between two calls the tasks, and interrupt handlers, may change other states.

  datatype Call = Call(before: Sched, ticks: nat, after: Sched)

  ghost predicate IsCall(c: Call) {
    Sound(c.before) && !Stuck(c.before, c.ticks) && c.after == AfterSwitch(c.before, c.ticks)
  }

  ghost function CurrentAt(run: seq<Call>, start: nat, i: nat): nat
    requires i <= |run|
  {
    if i == 0 then start else run[i - 1].after.current
  }

  /** A call with the given queue, no hint and no pending execve, before which x can run. */
  ghost predicate FairCall(c: Call, q: seq<nat>, x: nat) {
    && IsCall(c)
    && c.before.queue == q && c.before.switching && c.before.hint.None?
    && !c.before.tasks[c.before.current].didExecve
    && x in c.before.tasks && Runnable(c.before.tasks[x])
  }

  ghost predicate FairRun(run: seq<Call>, start: nat, q: seq<nat>, x: nat) {
    forall i :: 0 <= i < |run| ==> FairCall(run[i], q, x) && run[i].before.current == CurrentAt(run, start, i)
  }

  ghost predicate AtDistance(q: seq<nat>, c: nat, x: nat, d: nat) {
    && Position(q, c) < |q| && d < |q|
    && RingIndex(|q|, Position(q, c), d) == Position(q, x)
  }

  /** One call brings the turn of a task that can run strictly nearer. */
  lemma Progress(c: Call, q: seq<nat>, x: nat, d: nat) returns (d': nat)
    requires FairCall(c, q, x) && NoRepeats(q) && x in q
    requires AtDistance(q, c.before.current, x, d) && d > 0
    ensures d' < d && AtDistance(q, c.after.current, x, d')
  {
    var s, n := c.before, |q|;
    var w := WakeAll(s, c.ticks);
    var k := Position(q, s.current);
    PresentPosition(q, x);
    assert n > 1 && !Frozen(s);
    assert RunnableAt(w, k, d);
    var m := Nearest(w, k, 1);
    assert m <= d;
    d' := d - m;
    RingCompose(n, k, m, d');
    PositionAt(q, RingIndex(n, k, m));
    assert c.after.current == q[RingIndex(n, k, m)];
  }

  lemma PositionAt(q: seq<nat>, i: nat)
    requires NoRepeats(q) && i < |q|
    ensures Position(q, q[i]) == i
  {
    PositionIs(q, q[i], i);
  }

  lemma PresentPosition(q: seq<nat>, x: nat)
    requires x in q
    ensures Position(q, x) < |q|
  {
  }

  lemma RestIsFair(run: seq<Call>, start: nat, q: seq<nat>, x: nat)
    requires FairRun(run, start, q, x) && run != []
    ensures FairRun(run[1..], run[0].after.current, q, x)
  {
    hide FairCall;
    var rest := run[1..];
    forall j | 0 <= j < |rest|
      ensures FairCall(rest[j], q, x) && rest[j].before.current == CurrentAt(rest, run[0].after.current, j)
    {
      assert rest[j] == run[j + 1];
    }
  }

  lemma {:induction false} Waits(run: seq<Call>, start: nat, q: seq<nat>, x: nat, d: nat) returns (i: nat)
    requires FairRun(run, start, q, x) && NoRepeats(q) && x in q
    requires AtDistance(q, start, x, d) && d <= |run|
    ensures i <= d && CurrentAt(run, start, i) == x
    decreases d
  {
    hide FairCall, Position;
    if d == 0 {
      PresentPosition(q, x);
      i := 0;
    } else {
      var d' := Progress(run[0], q, x, d);
      RestIsFair(run, start, q, x);
      i := Waits(run[1..], run[0].after.current, q, x, d');
      i := i + 1;
    }
  }

  /** Bounded waiting: with N queued tasks, a task that can run is current within N - 1 calls. */
  lemma BoundedWaiting(run: seq<Call>, start: nat, q: seq<nat>, x: nat) returns (i: nat)
    requires FairRun(run, start, q, x) && NoRepeats(q) && x in q && start in q
    requires |run| >= |q| - 1
    ensures i <= |q| - 1 && CurrentAt(run, start, i) == x
  {
    PresentPosition(q, x);
    PresentPosition(q, start);
    var k, j := Position(q, start), Position(q, x);
    var d := 0;
    if k != j {
      d := RingDistance(|q|, k, j);
    }
    i := Waits(run, start, q, x, d);
  }

  /** When the current task has left the queue, one more call is enough. */
  lemma BoundedWaitingAfterExit(run: seq<Call>, start: nat, q: seq<nat>, x: nat) returns (i: nat)
    requires FairRun(run, start, q, x) && NoRepeats(q) && x in q && start !in q
    requires |run| >= |q| && (|q| > 1 || run[0].before.kernel != start)
    ensures i <= |q| && CurrentAt(run, start, i) == x
  {
    PositionAbsent(q, start);
    var first := run[0].after.current;
    assert first == q[0];
    RestIsFair(run, start, q, x);
    i := BoundedWaiting(run[1..], first, q, x);
    i := i + 1;
  }

  //  Hints and execve

  /** What set_next_task does. */
  ghost function Hinted(s: Sched, x: nat): Sched
    requires x in s.tasks
  {
    s.(hint := Some(x), tasks := s.tasks[x := s.tasks[x].(state := RUNNING, wakeup := 0)])
  }

  /** Two states that differ at most in the given task, the hint and the current task. */
  ghost predicate OnlyTask(s: Sched, s': Sched, x: nat) {
    && s'.queue == s.queue && s'.idle == s.idle && s'.kernel == s.kernel && s'.switching == s.switching
    && s'.tasks.Keys == s.tasks.Keys && (forall y :: y in s.tasks && y != x ==> s'.tasks[y] == s.tasks[y])
  }

  /** A call with a hint switches to the task hinted, wakes it if it slept, forgets the hint, and does nothing else. */
  lemma HintTaken(c: Call)
    requires IsCall(c) && !Frozen(c.before) && c.before.hint.Some?
    ensures c.after.current == c.before.hint.value && c.after.hint == None
    ensures OnlyTask(c.before, c.after, c.after.current)
    ensures var t, t' := c.before.tasks[c.after.current], c.after.tasks[c.after.current];
      t' == if SleepingBit(t) then Task(RUNNING, 0, t.didExecve) else t
  {
    var x, t := c.before.hint.value, c.before.tasks[c.before.hint.value];
    assert SleepingBit(t) || t.state != WAKING_UP;
  }

  /** The task that set_next_task names is current after the next call, and can run. */
  lemma HintedRuns(s: Sched, x: nat, ticks: nat)
    requires Sound(s) && x in s.tasks && !Frozen(s)
    ensures var c := Call(Hinted(s, x), ticks, AfterSwitch(Hinted(s, x), ticks));
      && IsCall(c) && c.after.current == x && c.after.hint == None
      && c.after.tasks[x] == Task(RUNNING, 0, s.tasks[x].didExecve) && OnlyTask(s, c.after, x)
  {
    var before := Hinted(s, x);
    assert !Searches(before);
    HintTaken(Call(before, ticks, AfterSwitch(before, ticks)));
  }

  /** After execve the current task goes on for one call; the call after that looks for the next task. */
  lemma ExecveTaken(c: Call)
    requires IsCall(c) && !Frozen(c.before) && c.before.hint == None && c.before.tasks[c.before.current].didExecve
    ensures c.after.current == c.before.current && c.after.hint == None && OnlyTask(c.before, c.after, c.before.current)
    ensures c.after.tasks[c.after.current] == c.before.tasks[c.before.current].(didExecve := false)
    ensures Searches(c.after)
  {
  }

  /** A search wakes the sleepers that are due, turns the task it switches to from waking up to running, and does nothing else. */
  lemma SearchChanges(c: Call, y: nat)
    requires IsCall(c) && Searches(c.before) && y in c.before.tasks
    ensures c.after.hint == None && c.after.tasks.Keys == c.before.tasks.Keys && c.after.queue == c.before.queue
    ensures var t, t' := c.before.tasks[y], c.after.tasks[y];
      var due := y in c.before.queue && t.state == SLEEPING && t.wakeup <= c.ticks;
      var taken := c.after.current == y && c.before.current != y;
      && t'.didExecve == t.didExecve && t'.wakeup == (if due then 0 else t.wakeup)
      && t'.state == (if due && taken then RUNNING else if due then WAKING_UP
                      else if t.state == WAKING_UP && taken then RUNNING else t.state)
  {
    hide Position;
    WokenKeys(c.before.tasks, c.before.queue, c.ticks);
  }

  //  Whole runs with hints and execve

  /** How many steps round the queue from c to x; one more than the most when c is not queued. */
  ghost function Distance(q: seq<nat>, c: nat, x: nat): (d: nat)
    requires x in q
    ensures c in q ==> d < |q| && AtDistance(q, c, x, d)
    ensures c !in q ==> d == |q|
    ensures d == 0 <==> c == x
  {
    PresentPosition(q, x);
    var k, j := Position(q, c), Position(q, x);
    if k == |q| then |q| else if k <= j then j - k else |q| - k + j
  }

  /** A call with the given queue, with or without a hint or a pending execve, before which x can run. */
  ghost predicate MixedCall(c: Call, q: seq<nat>, x: nat) {
    && IsCall(c) && c.before.queue == q && c.before.switching
    && (|q| > 1 || c.before.current != c.before.kernel)
    && x in c.before.tasks && Runnable(c.before.tasks[x])
  }

  ghost predicate MixedRun(run: seq<Call>, start: nat, q: seq<nat>, x: nat) {
    forall i :: 0 <= i < |run| ==> MixedCall(run[i], q, x) && run[i].before.current == CurrentAt(run, start, i)
  }

  ghost predicate HasHint(c: Call) { c.before.hint.Some? }

  ghost predicate HasExecve(c: Call) {
    c.before.hint.None? && c.before.current in c.before.tasks && c.before.tasks[c.before.current].didExecve
  }

  ghost function Hints(run: seq<Call>): nat {
    if run == [] then 0 else Hints(run[1..]) + if HasHint(run[0]) then 1 else 0
  }

  ghost function Execves(run: seq<Call>): nat {
    if run == [] then 0 else Execves(run[1..]) + if HasExecve(run[0]) then 1 else 0
  }

  ghost function Delay(run: seq<Call>, far: nat): nat {
    if run == [] then 0 else Delay(run[1..], far) + if HasHint(run[0]) then far else if HasExecve(run[0]) then 1 else 0
  }

  /** What one call does to the distance: a search shortens it, a hint sets it, an execve leaves it. */
  lemma MixedStep(c: Call, q: seq<nat>, x: nat)
    requires MixedCall(c, q, x) && NoRepeats(q) && x in q && c.before.current != x
    ensures HasHint(c) ==> c.after.current == c.before.hint.value
    ensures HasExecve(c) ==> c.after.current == c.before.current
    ensures !HasHint(c) && !HasExecve(c) ==> Distance(q, c.after.current, x) < Distance(q, c.before.current, x)
  {
    hide Position, Nearest, Chosen;
    if HasHint(c) {
      HintTaken(c);
    } else if HasExecve(c) {
      ExecveTaken(c);
    } else if c.before.current in q {
      var d := Distance(q, c.before.current, x);
      var d' := Progress(c, q, x, d);
      OneDistance(q, c.after.current, x, d');
    } else {
      FromOutside(c, q);
    }
  }

  lemma FromOutside(c: Call, q: seq<nat>)
    requires IsCall(c) && c.before.queue == q && Searches(c.before) && c.before.current !in q
    ensures c.after.current in q
  {
    PositionAbsent(q, c.before.current);
  }

  lemma OneDistance(q: seq<nat>, c: nat, x: nat, d: nat)
    requires NoRepeats(q) && x in q && AtDistance(q, c, x, d)
    ensures c in q && Distance(q, c, x) == d
  {
    hide Position;
    assert c == q[Position(q, c)];
  }

  lemma RestIsMixed(run: seq<Call>, start: nat, q: seq<nat>, x: nat)
    requires MixedRun(run, start, q, x) && run != []
    ensures MixedRun(run[1..], run[0].after.current, q, x)
  {
    hide MixedCall;
    var rest := run[1..];
    forall j | 0 <= j < |rest|
      ensures MixedCall(rest[j], q, x) && rest[j].before.current == CurrentAt(rest, run[0].after.current, j)
    {
      assert rest[j] == run[j + 1];
    }
  }

  /** Every task hinted in the run is at most so far from x. */
  ghost predicate HintsWithin(run: seq<Call>, q: seq<nat>, x: nat, far: nat)
    requires x in q
  {
    forall i :: 0 <= i < |run| && HasHint(run[i]) ==> Distance(q, run[i].before.hint.value, x) <= far
  }

  /** No hint in the run moves the turn of x further away. */
  ghost predicate HintsNotBack(run: seq<Call>, q: seq<nat>, x: nat)
    requires x in q
  {
    forall i :: 0 <= i < |run| && HasHint(run[i]) ==>
      Distance(q, run[i].before.hint.value, x) <= Distance(q, run[i].before.current, x)
  }

  lemma {:induction false} WaitsWithHints(run: seq<Call>, start: nat, q: seq<nat>, x: nat, far: nat) returns (i: nat)
    requires MixedRun(run, start, q, x) && NoRepeats(q) && x in q && HintsWithin(run, q, x, far)
    requires |run| >= Distance(q, start, x) + Delay(run, far)
    ensures i <= |run| && i <= Distance(q, start, x) + Delay(run, far) && CurrentAt(run, start, i) == x
  {
    hide MixedCall, Distance, Position;
    if start == x {
      i := 0;
    } else {
      var c, rest := run[0], run[1..];
      MixedStep(c, q, x);
      RestIsMixed(run, start, q, x);
      assert HintsWithin(rest, q, x, far) by {
        forall j | 0 <= j < |rest| && HasHint(rest[j]) ensures Distance(q, rest[j].before.hint.value, x) <= far {
          assert rest[j] == run[j + 1];
        }
      }
      i := WaitsWithHints(rest, c.after.current, q, x, far);
      i := i + 1;
    }
  }

  lemma {:induction false} DelayIs(run: seq<Call>, far: nat)
    ensures Delay(run, far) == far * Hints(run) + Execves(run)
  {
    if run != [] {
      DelayIs(run[1..], far);
      Times(far, Hints(run[1..]));
    }
  }

  lemma Times(a: nat, b: nat)
    ensures a * (b + 1) == a * b + a && (b + 1) * a == a * b + a
  {
  }

  /**
   Bounded waiting with hints and execves: with N queued tasks, h hints of queued tasks and e pending execves, a
   task that can run is current within (h + 1) * (N - 1) + e calls.
   */
  lemma BoundedWaitingWithHints(run: seq<Call>, start: nat, q: seq<nat>, x: nat) returns (i: nat)
    requires MixedRun(run, start, q, x) && NoRepeats(q) && x in q && start in q
    requires forall j :: 0 <= j < |run| && HasHint(run[j]) ==> run[j].before.hint.value in q
    requires |run| >= (Hints(run) + 1) * (|q| - 1) + Execves(run)
    ensures i <= |run| && i <= (Hints(run) + 1) * (|q| - 1) + Execves(run) && CurrentAt(run, start, i) == x
  {
    hide MixedRun, Hints, Execves, CurrentAt, Delay, Distance, NoRepeats;
    var far := |q| - 1;
    Times(far, Hints(run));
    DelayIs(run, far);
    i := WaitsWithHints(run, start, q, x, far);
  }

  /** The same when hints, or the task current at first, may be off the queue: within (h + 1) * N + e calls. */
  lemma BoundedWaitingAnyHints(run: seq<Call>, start: nat, q: seq<nat>, x: nat) returns (i: nat)
    requires MixedRun(run, start, q, x) && NoRepeats(q) && x in q
    requires |run| >= (Hints(run) + 1) * |q| + Execves(run)
    ensures i <= |run| && i <= (Hints(run) + 1) * |q| + Execves(run) && CurrentAt(run, start, i) == x
  {
    hide MixedRun, Hints, Execves, CurrentAt, Delay, Distance, NoRepeats;
    var far := |q|;
    Times(far, Hints(run));
    DelayIs(run, far);
    i := WaitsWithHints(run, start, q, x, far);
  }

  /** Hints that do not move its turn further away cost a task one call each: N - 1 + h + e calls are enough. */
  lemma {:induction false} BoundedWaitingNotBack(run: seq<Call>, start: nat, q: seq<nat>, x: nat) returns (i: nat)
    requires MixedRun(run, start, q, x) && NoRepeats(q) && x in q && start in q && HintsNotBack(run, q, x)
    requires |run| >= Distance(q, start, x) + Hints(run) + Execves(run)
    ensures i <= |run| && i <= |q| - 1 + Hints(run) + Execves(run) && CurrentAt(run, start, i) == x
    ensures i <= Distance(q, start, x) + Hints(run) + Execves(run)
  {
    hide MixedCall, Distance, Position;
    if start == x {
      i := 0;
    } else {
      var c, rest := run[0], run[1..];
      MixedStep(c, q, x);
      RestIsMixed(run, start, q, x);
      assert HintsNotBack(rest, q, x) by {
        forall j | 0 <= j < |rest| && HasHint(rest[j])
          ensures Distance(q, rest[j].before.hint.value, x) <= Distance(q, rest[j].before.current, x)
        {
          assert rest[j] == run[j + 1];
        }
      }
      NearerIsQueued(q, start, c.after.current, x);
      i := BoundedWaitingNotBack(rest, c.after.current, q, x);
      i := i + 1;
    }
  }

  lemma NearerIsQueued(q: seq<nat>, c: nat, c': nat, x: nat)
    requires x in q && c in q && Distance(q, c', x) <= Distance(q, c, x)
    ensures c' in q
  {
    hide Position;
  }

  //  The bound is exact: n tasks that can all run, and hints that come back to the first one each time

  ghost function Everyone(n: nat): (m: map<nat, Task>)
    ensures forall x :: x in m <==> 0 <= x <= n
    ensures forall x :: x in m ==> m[x] == Task(RUNNING, 0, false)
  {
    (if n == 0 then map[] else Everyone(n - 1))[n := Task(RUNNING, 0, false)]
  }

  ghost function Ring(n: nat): (q: seq<nat>)
    ensures |q| == n && NoRepeats(q) && forall i :: 0 <= i < n ==> q[i] == i + 1
  {
    seq(n, i requires 0 <= i => i + 1)
  }

  ghost function Full(n: nat, c: nat, hint: Option<nat>): Sched {
    Sched(Ring(n), Everyone(n), c, hint, 0, 0, true)
  }

  ghost function SearchCall(n: nat, c: nat): Call { Call(Full(n, c, None), 0, Full(n, c + 1, None)) }

  ghost function HintCall(n: nat, c: nat): Call { Call(Full(n, c, Some(1)), 0, Full(n, 1, None)) }

  ghost function ExecveCall(n: nat, c: nat): Call {
    Call(Full(n, c, None).(tasks := Everyone(n)[c := Task(RUNNING, 0, true)]), 0, Full(n, c, None))
  }

  lemma SearchCallIs(n: nat, c: nat)
    requires 1 <= c < n
    ensures MixedCall(SearchCall(n, c), Ring(n), n) && !HasHint(SearchCall(n, c)) && !HasExecve(SearchCall(n, c))
  {
    hide Position, Ring;
    var s := Full(n, c, None);
    assert WokenTasks(Everyone(n), Ring(n), 0) == Everyone(n);
    assert WakeAll(s, 0) == s;
    PositionAt(Ring(n), c - 1);
    assert RunnableAt(s, c - 1, 1);
    assert Chosen(s) == c + 1;
    assert Everyone(n)[c + 1 := Task(RUNNING, 0, false)] == Everyone(n);
  }

  lemma HintCallIs(n: nat, c: nat)
    requires 1 <= c <= n
    ensures MixedCall(HintCall(n, c), Ring(n), n) && HasHint(HintCall(n, c))
  {
    hide Ring;
    var t := Task(RUNNING, 0, false);
    assert Everyone(n)[1 := t] == Everyone(n) && Everyone(n)[1 := t][1 := t] == Everyone(n);
  }

  lemma ExecveCallIs(n: nat, c: nat)
    requires 1 <= c <= n
    ensures MixedCall(ExecveCall(n, c), Ring(n), n) && !HasHint(ExecveCall(n, c)) && HasExecve(ExecveCall(n, c))
  {
    hide Ring;
    var t := Task(RUNNING, 0, false);
    assert Everyone(n)[c := Task(RUNNING, 0, true)][c := t] == Everyone(n);
  }

  /** A run in which the last task of the ring never gets its turn. */
  ghost predicate Starved(run: seq<Call>, n: nat, c: nat) {
    && n >= 1 && c < n && MixedRun(run, c, Ring(n), n)
    && (forall i :: 0 <= i < |run| && HasHint(run[i]) ==> run[i].before.hint.value in Ring(n))
    && (forall i :: 0 <= i <= |run| ==> CurrentAt(run, c, i) != n)
  }

  lemma StarvedLonger(call: Call, run: seq<Call>, n: nat)
    requires MixedCall(call, Ring(n), n) && Starved(run, n, call.after.current) && call.before.current < n
    requires HasHint(call) ==> call.before.hint.value in Ring(n)
    ensures Starved([call] + run, n, call.before.current)
    ensures Hints([call] + run) == Hints(run) + (if HasHint(call) then 1 else 0)
    ensures Execves([call] + run) == Execves(run) + (if HasExecve(call) then 1 else 0)
  {
    hide MixedCall, Ring, HasExecve;
    var all, c := [call] + run, call.before.current;
    assert all[1..] == run;
    forall i | 0 <= i < |all|
      ensures MixedCall(all[i], Ring(n), n) && all[i].before.current == CurrentAt(all, c, i)
      ensures HasHint(all[i]) ==> all[i].before.hint.value in Ring(n)
    {
      if i > 0 {
        assert all[i] == run[i - 1] && CurrentAt(all, c, i) == CurrentAt(run, call.after.current, i - 1);
      }
    }
    forall i | 0 <= i <= |all| ensures CurrentAt(all, c, i) != n {
      if i > 0 {
        assert CurrentAt(all, c, i) == CurrentAt(run, call.after.current, i - 1);
      }
    }
  }

  /** With n queued tasks, h hints and e execves there is a run one call short of the bound without a turn for the last task. */
  lemma {:induction false} NoSooner(n: nat, c: nat, h: nat, e: nat) returns (run: seq<Call>)
    requires 1 <= c < n
    ensures Starved(run, n, c) && Hints(run) == h && Execves(run) == e
    ensures |run| == n - 1 - c + h * (n - 1) + e
    decreases h, n - c, e
  {
    hide MixedCall, Starved, Hints, Execves, HasHint, HasExecve, SearchCall, HintCall, ExecveCall;
    if e > 0 {
      run := NoSooner(n, c, h, e - 1);
      run := ExtendedBy(ExecveCall(n, c), run, n, c, c, 2);
    } else if c < n - 1 {
      run := NoSooner(n, c + 1, h, 0);
      run := ExtendedBy(SearchCall(n, c), run, n, c, c + 1, 0);
    } else if h > 0 {
      run := NoSooner(n, 1, h - 1, 0);
      run := ExtendedBy(HintCall(n, c), run, n, c, 1, 1);
      Times(n - 1, h - 1);
    } else {
      run := [];
      NothingStarves(n, c);
    }
  }

  /** One more call for each hint and each execve is enough if and only if there are at most two tasks, or no hint. */
  lemma OneCallPerHint(n: nat, h: nat, e: nat) returns (run: seq<Call>)
    requires n >= 2
    ensures n <= 2 || h == 0 ==> (h + 1) * (n - 1) + e <= n - 1 + h + e
    ensures n > 2 && h > 0 ==> Starved(run, n, 1) && Hints(run) == h && Execves(run) == e && |run| >= n - 1 + h + e
  {
    hide Starved, Hints, Execves;
    run := NoSooner(n, 1, h, e);
    Times(n - 1, h);
    if n > 2 && h > 0 {
      AtLeast(h, n - 2);
      Times(h, n - 2);
    }
  }

  lemma AtLeast(a: nat, b: nat)
    requires a > 0 && b > 0
    ensures a * b >= 1
  {
  }

  lemma NothingStarves(n: nat, c: nat)
    requires c < n
    ensures Starved([], n, c) && Hints([]) == 0 && Execves([]) == 0
  {
  }

  lemma ExtendedBy(call: Call, run: seq<Call>, n: nat, c: nat, c': nat, kind: nat) returns (all: seq<Call>)
    requires 1 <= c < n && Starved(run, n, c')
    requires call == if kind == 0 then SearchCall(n, c) else if kind == 1 then HintCall(n, c) else ExecveCall(n, c)
    requires c' == if kind == 0 then c + 1 else if kind == 1 then 1 else c
    ensures Starved(all, n, c) && |all| == |run| + 1
    ensures Hints(all) == Hints(run) + (if kind == 1 then 1 else 0)
    ensures Execves(all) == Execves(run) + (if kind > 1 then 1 else 0)
  {
    hide MixedCall, Starved, Hints, Execves;
    if kind == 0 {
      SearchCallIs(n, c);
    } else if kind == 1 {
      HintCallIs(n, c);
      assert Ring(n)[0] == 1;
    } else {
      ExecveCallIs(n, c);
    }
    StarvedLonger(call, run, n);
    all := [call] + run;
  }

  ghost predicate Asleep(s: Sched, x: nat, wakeup: nat) {
    x in s.tasks && s.tasks[x].state == SLEEPING && s.tasks[x].wakeup == wakeup
  }

  /** One call before the wakeup tick leaves a sleeper asleep and does not pick it. */
  lemma SleeperNotPicked(c: Call, x: nat, wakeup: nat)
    requires IsCall(c) && Asleep(c.before, x, wakeup) && c.ticks < wakeup && c.before.hint != Some(x)
    ensures Asleep(c.after, x, wakeup)
    ensures c.after.current == x ==> c.before.current == x && !Searches(c.before)
  {
    var s := c.before;
    if Searches(s) {
      var w := WakeAll(s, c.ticks);
      assert w.tasks[x] == s.tasks[x];
      assert Chosen(w) != x;
    }
  }

  /** Nothing but the scheduler touches the sleeper. */
  ghost predicate SleepRun(run: seq<Call>, x: nat, wakeup: nat) {
    && (forall i :: 0 <= i < |run| ==>
      IsCall(run[i]) && run[i].ticks < wakeup && run[i].before.hint != Some(x))
    && (|run| > 0 ==> Asleep(run[0].before, x, wakeup))
    && (forall i :: 0 < i < |run| ==>
      Asleep(run[i - 1].after, x, wakeup) ==> Asleep(run[i].before, x, wakeup))
  }

  /** Over every run that stays before its wakeup tick, a sleeper is never picked. */
  lemma {:induction false} SleeperSleepsOn(run: seq<Call>, x: nat, wakeup: nat, i: nat)
    requires SleepRun(run, x, wakeup) && i < |run|
    ensures Asleep(run[i].before, x, wakeup) && Asleep(run[i].after, x, wakeup)
    ensures run[i].after.current == x ==> run[i].before.current == x && !Searches(run[i].before)
  {
    if i > 0 {
      SleeperSleepsOn(run, x, wakeup, i - 1);
    }
    SleeperNotPicked(run[i], x, wakeup);
  }

  /** The first search at or after the wakeup tick makes a queued sleeper able to run. */
  lemma SleeperWakes(c: Call, x: nat, wakeup: nat)
    requires IsCall(c) && Asleep(c.before, x, wakeup) && c.ticks >= wakeup
    requires Searches(c.before) && x in c.before.queue
    ensures x in c.after.tasks && Runnable(c.after.tasks[x]) && c.after.tasks[x].wakeup == 0
  {
  }

  /** The ticks asked for have not passed, in a run of calls after sleep() was called at the given tick. */
  ghost predicate StillDue(run: seq<Call>, elapsed: seq<nat>, ticks: nat, due: nat) {
    && |elapsed| == |run|
    && forall i :: 0 <= i < |run| ==> elapsed[i] < due && run[i].ticks == TickAfter(ticks, elapsed[i])
  }

  /**
   A search before the ticks asked for have passed leaves the sleeper asleep, unless the wakeup tick
   lies past the end of the tick counter and the count has not wrapped yet: then it wakes at once.
   */
  lemma SleepKept(c: Call, x: nat, ticks: nat, elapsed: nat, due: nat)
    requires ticks < WORD && elapsed < due < WORD
    requires IsCall(c) && c.ticks == TickAfter(ticks, elapsed) && Searches(c.before) && x in c.before.queue
    requires Asleep(c.before, x, TickAfter(ticks, due))
    ensures Asleep(c.after, x, TickAfter(ticks, due)) <==> ticks + due < WORD || ticks + elapsed >= WORD
    ensures !Asleep(c.after, x, TickAfter(ticks, due)) ==> Runnable(c.after.tasks[x])
  {
    var wakeup := TickAfter(ticks, due);
    Wrapped(ticks, elapsed);
    Wrapped(ticks, due);
    if c.ticks < wakeup {
      SleeperNotPicked(c, x, wakeup);
    } else {
      SleeperWakes(c, x, wakeup);
    }
  }

  lemma Wrapped(ticks: nat, more: nat)
    requires ticks < WORD && more < WORD
    ensures TickAfter(ticks, more) == if ticks + more < WORD then ticks + more else ticks + more - WORD
  {
  }

  /** sleep() lasts: as long as the ticks asked for have not passed, no run of the scheduler picks the task, if the count does not wrap. */
  lemma SleepLasts(run: seq<Call>, elapsed: seq<nat>, x: nat, ticks: nat, due: nat, i: nat)
    requires ticks + due < WORD && StillDue(run, elapsed, ticks, due) && i < |run|
    requires forall j :: 0 <= j < |run| ==> IsCall(run[j]) && run[j].before.hint != Some(x)
    requires Asleep(run[0].before, x, TickAfter(ticks, due))
    requires forall j :: 0 < j < |run| && Asleep(run[j - 1].after, x, TickAfter(ticks, due)) ==>
      Asleep(run[j].before, x, TickAfter(ticks, due))
    ensures IsCall(run[i]) && Asleep(run[i].after, x, TickAfter(ticks, due))
    ensures run[i].after.current == x ==> run[i].before.current == x && !Searches(run[i].before)
  {
    hide IsCall, Asleep, Searches, TickAfter;
    forall j | 0 <= j < |run|
      ensures run[j].ticks < TickAfter(ticks, due)
    {
      Wrapped(ticks, elapsed[j]);
      Wrapped(ticks, due);
    }
    SleeperSleepsOn(run, x, TickAfter(ticks, due), i);
  }

  /** A search ends on a task that can run if and only if a queued task can run; else on the idle task. */
  lemma IdleOnlyWhenNothingRuns(c: Call)
    requires IsCall(c) && Searches(c.before)
    requires !Runnable(WakeAll(c.before, c.ticks).tasks[c.before.idle])
    ensures c.after.current in c.after.tasks
    ensures Runnable(c.after.tasks[c.after.current]) <==>
      exists i :: 0 <= i < |c.before.queue| && Runnable(WakeAll(c.before, c.ticks).tasks[c.before.queue[i]])
    ensures !Runnable(c.after.tasks[c.after.current]) ==> c.after.current == c.before.idle
  {
    var s := c.before;
    var w, q := WakeAll(s, c.ticks), s.queue;
    var k := Position(q, s.current);
    if k < |q| {
      var d := Nearest(w, k, 1);
      if d == |q| && !Runnable(w.tasks[s.current]) {
        forall i | 0 <= i < |q|
          ensures !Runnable(w.tasks[q[i]])
        {
          if i != k {
            var e := RingDistance(|q|, k, i);
            assert !RunnableAt(w, k, e);
          }
        }
      } else if d == |q| {
        assert Runnable(w.tasks[q[k]]);
      }
    } else {
      assert Runnable(w.tasks[q[0]]);
    }
  }
}
