/**
 Lazy FPU context switching through the TS bit (fpu.c and switch_task in task.c). The registers are
 those that fxsave saves; fninit is a function of them, since it resets only some of them.
 */
module LazyFpu {

  type Task = nat
  datatype Owner = Nobody | Last(task: Task)

  /** What happens on the processor: a task switch, or an FPU instruction of the current task. */
  datatype Event<!R> = Switch(to: Task) | Instruction(effect: R -> R)

  //  Whole runs, as the tasks see them

  /** The registers an instruction of the task starts from: its own, or on first use what fninit leaves of the last user's. */
  ghost function Start<R>(t: Task, own: map<Task, R>, left: R, fninit: R -> R): R {
    if t in own then own[t] else fninit(left)
  }

  /** Every task with registers of its own from its first instruction on: the contents each instruction starts from. */
  ghost function Private<R>(events: seq<Event<R>>, current: Task, own: map<Task, R>, left: R, fninit: R -> R): (seen: seq<R>) {
    if events == [] then []
    else match events[0]
      case Switch(to) => Private(events[1..], to, own, left, fninit)
      case Instruction(effect) =>
        var r := Start(current, own, left, fninit);
        [r] + Private(events[1..], current, own[current := effect(r)], effect(r), fninit)
  }

  ghost function CurrentAfter<R>(events: seq<Event<R>>, current: Task): Task {
    if events == [] then current
    else CurrentAfter(events[1..], if events[0].Switch? then events[0].to else current)
  }

  lemma OneEvent<R>(events: seq<Event<R>>, i: nat, current: Task, own: map<Task, R>, left: R, fninit: R -> R)
    requires i < |events|
    ensures match events[i]
      case Switch(to) =>
        && Private(events[i..], current, own, left, fninit) == Private(events[i + 1..], to, own, left, fninit)
        && CurrentAfter(events[i..], current) == CurrentAfter(events[i + 1..], to)
      case Instruction(effect) =>
        var r := Start(current, own, left, fninit);
        && Private(events[i..], current, own, left, fninit)
           == [r] + Private(events[i + 1..], current, own[current := effect(r)], effect(r), fninit)
        && CurrentAfter(events[i..], current) == CurrentAfter(events[i + 1..], current)
  {
    assert events[i..][0] == events[i] && events[i..][1..] == events[i + 1..];
  }

  lemma NoEvents<R>(current: Task, own: map<Task, R>, left: R, fninit: R -> R)
    ensures Private<R>([], current, own, left, fninit) == [] && CurrentAfter<R>([], current) == current
  {
  }

  /** The task that executes each instruction of a run, and what the instruction does. */
  ghost function Executors<R>(events: seq<Event<R>>, current: Task): seq<Task> {
    if events == [] then []
    else match events[0]
      case Switch(to) => Executors(events[1..], to)
      case Instruction(_) => [current] + Executors(events[1..], current)
  }

  ghost function Effects<R>(events: seq<Event<R>>): seq<R -> R> {
    if events == [] then []
    else match events[0]
      case Switch(_) => Effects(events[1..])
      case Instruction(effect) => [effect] + Effects(events[1..])
  }

  lemma {:induction false} SameLength<R>(events: seq<Event<R>>, current: Task, own: map<Task, R>, left: R, fninit: R -> R)
    ensures |Private(events, current, own, left, fninit)| == |Executors(events, current)| == |Effects(events)|
  {
    if events != [] {
      match events[0] {
        case Switch(to) =>
          SameLength(events[1..], to, own, left, fninit);
        case Instruction(effect) =>
          var r := Start(current, own, left, fninit);
          SameLength(events[1..], current, own[current := effect(r)], effect(r), fninit);
      }
    }
  }

  //  Instruction by instruction

  /** The last instruction before k of the task that executes k, or -1. */
  ghost function Previous(executors: seq<Task>, t: Task, k: nat): (j: int)
    requires k <= |executors|
    ensures -1 <= j < k && (j >= 0 ==> executors[j] == t)
    ensures forall i :: j < i < k ==> executors[i] != t
  {
    if k == 0 then -1 else if executors[k - 1] == t then k - 1 else Previous(executors, t, k - 1)
  }

  /** Instruction k starts from what the same task's previous one left; the task's first from its registers or from fninit. */
  ghost predicate SeesOwn<R>(
    seen: seq<R>, executors: seq<Task>, effects: seq<R -> R>, own: map<Task, R>, left: R, fninit: R -> R, k: nat)
    requires |seen| == |executors| == |effects| && k < |seen|
  {
    var j := Previous(executors, executors[k], k);
    seen[k] ==
      if j >= 0 then effects[j](seen[j])
      else Start(executors[k], own, if k == 0 then left else effects[k - 1](seen[k - 1]), fninit)
  }

  /**
   What instruction k of any run starts from: what the same task's previous instruction left, or the
   registers the task had before the run; and on the task's first use of the FPU, fninit of what the
   instruction just before left, whichever task that was.
   */
  lemma {:induction false} SeenAt<R>(
    events: seq<Event<R>>, current: Task, own: map<Task, R>, left: R, fninit: R -> R, k: nat)
    requires k < |Private(events, current, own, left, fninit)|
    ensures |Executors(events, current)| == |Effects(events)| == |Private(events, current, own, left, fninit)|
    ensures SeesOwn(Private(events, current, own, left, fninit), Executors(events, current), Effects(events), own, left, fninit, k)
  {
    hide SeesOwn, Previous;
    SameLength(events, current, own, left, fninit);
    match events[0] {
      case Switch(to) =>
        SeenAt(events[1..], to, own, left, fninit, k);
      case Instruction(effect) =>
        var r := Start(current, own, left, fninit);
        var own' := own[current := effect(r)];
        var seen := Private(events[1..], current, own', effect(r), fninit);
        SameLength(events[1..], current, own', effect(r), fninit);
        if k > 0 {
          SeenAt(events[1..], current, own', effect(r), fninit, k - 1);
        }
        SeesAfter(r, seen, current, Executors(events[1..], current), effect, Effects(events[1..]), own, left, fninit, k);
    }
  }

  lemma SeesAfter<R>(r: R, seen: seq<R>, t: Task, executors: seq<Task>, effect: R -> R, effects: seq<R -> R>,
                     own: map<Task, R>, left: R, fninit: R -> R, k: nat)
    requires |seen| == |executors| == |effects| && k <= |seen| && r == Start(t, own, left, fninit)
    requires k > 0 ==> SeesOwn(seen, executors, effects, own[t := effect(r)], effect(r), fninit, k - 1)
    ensures SeesOwn([r] + seen, [t] + executors, [effect] + effects, own, left, fninit, k)
  {
    hide Previous;
    if k > 0 {
      var j := Previous(executors, executors[k - 1], k - 1);
      PreviousAfter(t, executors, executors[k - 1], k - 1);
      assert ([r] + seen)[k] == seen[k - 1] && ([t] + executors)[k] == executors[k - 1];
      assert j >= 0 ==> ([r] + seen)[j + 1] == seen[j] && ([effect] + effects)[j + 1] == effects[j];
      assert k > 1 ==> ([r] + seen)[k - 1] == seen[k - 2] && ([effect] + effects)[k - 1] == effects[k - 2];
    }
  }

  lemma {:induction false} PreviousAfter(first: Task, rest: seq<Task>, t: Task, k: nat)
    requires k <= |rest|
    ensures Previous([first] + rest, t, k + 1) ==
      var j := Previous(rest, t, k); if j >= 0 then j + 1 else if first == t then 0 else -1
  {
    if k > 0 {
      PreviousAfter(first, rest, t, k - 1);
    }
  }

  //  Task by task

  /** The instructions task t executes in a run. */
  ghost function InstructionsOf<R>(events: seq<Event<R>>, current: Task, t: Task): seq<R -> R> {
    if events == [] then []
    else match events[0]
      case Switch(to) => InstructionsOf(events[1..], to, t)
      case Instruction(effect) =>
        var rest := InstructionsOf(events[1..], current, t);
        if current == t then [effect] + rest else rest
  }

  /** What task t sees: the places of a run where it is the one that executes. */
  ghost function SeenBy<R>(seen: seq<R>, executors: seq<Task>, t: Task): seq<R>
    requires |seen| == |executors|
  {
    if seen == [] then []
    else
      var rest := SeenBy(seen[1..], executors[1..], t);
      if executors[0] == t then [seen[0]] + rest else rest
  }

  lemma SeenFirst<R>(r: R, seen: seq<R>, executor: Task, executors: seq<Task>, t: Task)
    requires |seen| == |executors|
    ensures SeenBy([r] + seen, [executor] + executors, t)
      == if executor == t then [r] + SeenBy(seen, executors, t) else SeenBy(seen, executors, t)
  {
    assert ([r] + seen)[1..] == seen && ([executor] + executors)[1..] == executors;
  }

  /** A task alone on the machine. */
  ghost function Solo<R>(effects: seq<R -> R>, registers: R): seq<R> {
    if effects == [] then [] else [registers] + Solo(effects[1..], effects[0](registers))
  }

  //  What can be told of the registers through a view, say their x87 part

  ghost function Viewed<R, V>(view: R -> V, rs: seq<R>): (vs: seq<V>)
    ensures |vs| == |rs|
  {
    seq(|rs|, i requires 0 <= i < |rs| => view(rs[i]))
  }

  /** fninit leaves one image in view, whatever was there. */
  ghost predicate Resets<R(!new), V>(fninit: R -> R, view: R -> V) {
    forall r, r' :: view(fninit(r)) == view(fninit(r'))
  }

  /** What an instruction leaves in view depends only on what is in view. */
  ghost predicate Respects<R(!new), V>(effect: R -> R, view: R -> V) {
    forall r, r' :: view(r) == view(r') ==> view(effect(r)) == view(effect(r'))
  }

  ghost predicate AllRespect<R(!new), V>(events: seq<Event<R>>, view: R -> V) {
    forall i :: 0 <= i < |events| && events[i].Instruction? ==> Respects(events[i].effect, view)
  }

  /** In view, every task sees what it would see alone on the machine, started with the registers as they were before the run. */
  ghost predicate EachAlone<R, V>(
    seen: seq<R>, events: seq<Event<R>>, current: Task, own: map<Task, R>, left: R, fninit: R -> R, view: R -> V)
  {
    && |seen| == |Executors(events, current)|
    && forall t ::
         Viewed(view, SeenBy(seen, Executors(events, current), t))
         == Viewed(view, Solo(InstructionsOf(events, current, t), Start(t, own, left, fninit)))
  }

  lemma ViewedFirst<R, V>(view: R -> V, r: R, rs: seq<R>)
    ensures Viewed(view, [r] + rs) == [view(r)] + Viewed(view, rs)
  {
  }

  lemma RestRespects<R(!new), V>(events: seq<Event<R>>, view: R -> V)
    requires events != [] && AllRespect(events, view)
    ensures AllRespect(events[1..], view) && (events[0].Instruction? ==> Respects(events[0].effect, view))
  {
    hide Respects;
    forall i | 0 <= i < |events[1..]| && events[1..][i].Instruction?
      ensures Respects(events[1..][i].effect, view)
    {
      assert events[1..][i] == events[i + 1];
    }
  }

  /** In a view that fninit resets, one task's part of a run shows it what it would see alone, whatever the others do between. */
  lemma {:induction false} SeenAlone<R(!new), V>(
    events: seq<Event<R>>, current: Task, own: map<Task, R>, left: R, start: R, fninit: R -> R, view: R -> V, t: Task)
    requires Resets(fninit, view) && AllRespect(events, view) && view(start) == view(Start(t, own, left, fninit))
    ensures |Private(events, current, own, left, fninit)| == |Executors(events, current)|
    ensures Viewed(view, SeenBy(Private(events, current, own, left, fninit), Executors(events, current), t))
      == Viewed(view, Solo(InstructionsOf(events, current, t), start))
  {
    hide Respects;
    SameLength(events, current, own, left, fninit);
    if events != [] {
      RestRespects(events, view);
      match events[0] {
        case Switch(to) =>
          SeenAlone(events[1..], to, own, left, start, fninit, view, t);
        case Instruction(effect) =>
          var r := Start(current, own, left, fninit);
          var own' := own[current := effect(r)];
          var seen := Private(events[1..], current, own', effect(r), fninit);
          var who := Executors(events[1..], current);
          SameLength(events[1..], current, own', effect(r), fninit);
          SeenFirst(r, seen, current, who, t);
          if current == t {
            RespectsStep(effect, view, start, r);
            SeenAlone(events[1..], current, own', effect(r), effect(start), fninit, view, t);
            SoloFirst(effect, InstructionsOf(events[1..], current, t), start);
            ViewedFirst(view, r, SeenBy(seen, who, t));
            ViewedFirst(view, start, Solo(InstructionsOf(events[1..], current, t), effect(start)));
          } else {
            assert Start(t, own', effect(r), fninit) == if t in own then own[t] else fninit(effect(r));
            SeenAlone(events[1..], current, own', effect(r), start, fninit, view, t);
          }
      }
    }
  }

  lemma RespectsStep<R(!new), V>(effect: R -> R, view: R -> V, r: R, r': R)
    requires Respects(effect, view) && view(r) == view(r')
    ensures view(effect(r)) == view(effect(r'))
  {
  }

  lemma SoloFirst<R>(effect: R -> R, effects: seq<R -> R>, registers: R)
    ensures Solo([effect] + effects, registers) == [registers] + Solo(effects, effect(registers))
  {
    assert ([effect] + effects)[1..] == effects;
  }

  lemma PrivateIsAlone<R(!new), V>(
    events: seq<Event<R>>, current: Task, own: map<Task, R>, left: R, fninit: R -> R, view: R -> V)
    requires Resets(fninit, view) && AllRespect(events, view)
    ensures EachAlone(Private(events, current, own, left, fninit), events, current, own, left, fninit, view)
  {
    hide Resets, AllRespect;
    SameLength(events, current, own, left, fninit);
    forall t: Task {
      SeenAlone(events, current, own, left, Start(t, own, left, fninit), fninit, view, t);
    }
  }

  //  The whole registers

  ghost function All<R>(): R -> R { r => r }

  /** Every run from boot shows every task the whole registers as if it were alone. */
  ghost predicate AlwaysAlone<R(!new)>(fninit: R -> R) {
    forall events: seq<Event<R>>, current, boot ::
      var left := fninit(boot);
      EachAlone(Private(events, current, map[], left, fninit), events, current, map[], left, fninit, All<R>())
  }

  /** Lazy switching keeps the tasks' whole registers apart in every run if and only if fninit resets all of them. */
  lemma AloneExactly<R(!new)>(fninit: R -> R)
    ensures AlwaysAlone(fninit) <==> Resets(fninit, All<R>())
  {
    if Resets(fninit, All<R>()) {
      forall events: seq<Event<R>>, current, boot
        ensures var left := fninit(boot);
          EachAlone(Private(events, current, map[], left, fninit), events, current, map[], left, fninit, All<R>())
      {
        PrivateIsAlone(events, current, map[], fninit(boot), fninit, All<R>());
      }
    } else {
      var r, r' :| All<R>()(fninit(r)) != All<R>()(fninit(r'));
      var other := if fninit(r') != fninit(fninit(r)) then r' else r;
      NotAlone(fninit(r), other, fninit);
    }
  }

  /** Task 0 leaves r' in the registers, and task 1 uses the FPU for the first time. */
  ghost function Leaves<R>(r': R): seq<Event<R>> { [Instruction(r => r'), Switch(1), Instruction(r => r)] }

  lemma LeavesSeen<R>(r: R, r': R, fninit: R -> R)
    ensures Private(Leaves(r'), 0, map[], r, fninit) == [fninit(r), fninit(r')]
    ensures Executors(Leaves(r'), 0) == [0, 1]
    ensures |InstructionsOf(Leaves(r'), 0, 1)| == 1
  {
    var events := Leaves(r');
    assert events[1..] == [Switch(1), Instruction(r => r)] && events[1..][1..] == [Instruction(r => r)];
    assert events[1..][1..][1..] == [];
    var own: map<Task, R> := map[0 := r'];
    assert Private(events[1..][1..], 1, own, r', fninit) == [fninit(r')];
    assert Private(events[1..], 0, own, r', fninit) == [fninit(r')];
    assert Executors(events[1..][1..], 1) == [1];
    assert Executors(events[1..], 0) == [1];
    assert |InstructionsOf(events[1..][1..], 1, 1)| == 1;
    assert |InstructionsOf(events[1..], 0, 1)| == 1;
  }

  lemma NotAlone<R(!new)>(r: R, r': R, fninit: R -> R)
    requires fninit(r) != fninit(r')
    ensures !EachAlone(Private(Leaves(r'), 0, map[], r, fninit), Leaves(r'), 0, map[], r, fninit, All<R>())
  {
    LeavesSeen(r, r', fninit);
    var events, seen := Leaves(r'), [fninit(r), fninit(r')];
    assert seen[1..] == [fninit(r')] && [0, 1][1..] == [1] && seen[1..][1..] == [];
    assert SeenBy(seen[1..], [0, 1][1..], 1) == [fninit(r')];
    assert SeenBy(seen, [0, 1], 1) == [fninit(r')];
    var solo := Solo(InstructionsOf(events, 0, 1), Start(1, map[], r, fninit));
    assert solo[0] == fninit(r);
    assert Viewed(All<R>(), SeenBy(seen, Executors(events, 0), 1))[0] == fninit(r');
    assert Viewed(All<R>(), solo)[0] == fninit(r);
  }

  //  The processor's own fninit

  /** The x87 control, status and tag words, and the registers that fninit leaves alone: data, XMM and MXCSR. */
  datatype Registers = Registers(control: nat, status: nat, tag: nat, xmm0: nat)

  function Fninit(r: Registers): Registers { r.(control := 0x37f, status := 0, tag := 0xffff) }

  /** Of task 0's xmm0, a task that has not used the FPU sees the value; of its x87 words it sees nothing. */
  lemma XmmSeen(boot: Registers, x: nat)
    ensures var r' := Fninit(boot).(control := 0, xmm0 := x);
      Private(Leaves(r'), 0, map[], boot, Fninit) == [Fninit(boot), Registers(0x37f, 0, 0xffff, x)]
    ensures Resets(Fninit, (r: Registers) => (r.control, r.status, r.tag)) && !Resets(Fninit, All<Registers>())
  {
    LeavesSeen(boot, Fninit(boot).(control := 0, xmm0 := x), Fninit);
    var a, b := Registers(0, 0, 0, 0), Registers(0, 0, 0, 1);
    assert All<Registers>()(Fninit(a)) != All<Registers>()(Fninit(b));
  }

  class Cpu<R(!new)> {
    const fninit: R -> R           // what the fninit instruction makes of the registers
    var ts: bool                   // CR0.TS
    var registers: R
    var lastFpuTask: Owner
    var current: Task
    var saved: map<Task, R>        // fpu_state of each task, once something was saved there
    var hasUsedFpu: set<Task>
    ghost var own: map<Task, R>    // the registers of every task that has used the FPU

    /** TS is set exactly when the registers are not the current task's; the other tasks' registers are saved. */
    ghost predicate Valid()
      reads this
    {
      && (ts <==> lastFpuTask != Last(current))
      && hasUsedFpu == own.Keys
      && (lastFpuTask.Last? ==> lastFpuTask.task in own && registers == own[lastFpuTask.task])
      && (forall t :: t in own && lastFpuTask != Last(t) ==> t in saved && saved[t] == own[t])
    }

    /** The state fpu_init leaves, with the registers as the machine had them. */
    constructor (fninit: R -> R, boot: R, current: Task)
      ensures Valid() && own == map[] && this.current == current && this.fninit == fninit && ts
      ensures registers == fninit(boot)
    {
      this.fninit := fninit;
      registers := fninit(boot);
      ts := true;
      lastFpuTask := Nobody;
      this.current := current;
      saved, hasUsedFpu, own := map[], {}, map[];
    }

    /** The part of switch_task that concerns the FPU. */
    method SwitchTask(to: Task)
      requires Valid()
      modifies this`ts, this`current
      ensures Valid() && current == to
    {
      if lastFpuTask != Last(to) {
        ts := true;
      } else {
        ts := false;
      }
      if to == current {
        return;
      }
      current := to;
    }

    /** no_fpu_interrupt_handler, entered on #NM. */
    method DeviceNotAvailable()
      requires Valid() && ts
      modifies this
      ensures Valid() && !ts && current == old(current) && lastFpuTask == Last(current)
      ensures registers == Start(current, old(own), old(registers), fninit)
      ensures own == old(own)[current := registers]
    {
      ts := false;
      if lastFpuTask.Last? {
        saved := saved[lastFpuTask.task := registers];
      }
      if current !in hasUsedFpu {
        registers := fninit(registers);
        saved := saved[current := registers];
        hasUsedFpu := hasUsedFpu + {current};
      } else {
        registers := saved[current];
      }
      lastFpuTask := Last(current);
      own := own[current := registers];
    }

    /** An FPU instruction of the current task, with the trap it may take first. */
    method Execute(effect: R -> R) returns (seen: R)
      requires Valid()
      modifies this
      ensures Valid() && current == old(current)
      ensures seen == Start(current, old(own), old(registers), fninit)
      ensures own == old(own)[current := effect(seen)] && registers == effect(seen)
    {
      if ts {
        DeviceNotAvailable();
      }
      seen := registers;
      registers := effect(registers);
      own := own[current := registers];
    }

    /**
     Over every run, each task has registers of its own from its first FPU instruction on. In a view of
     them that fninit resets and the instructions respect, each task sees what it would see alone.
     */
    method Run<V>(events: seq<Event<R>>, ghost view: R -> V) returns (seen: seq<R>)
      requires Valid()
      modifies this
      ensures Valid() && seen == Private(events, old(current), old(own), old(registers), fninit)
      ensures current == CurrentAfter(events, old(current))
      ensures Resets(fninit, view) && AllRespect(events, view) ==>
                EachAlone(seen, events, old(current), old(own), old(registers), fninit, view)
    {
      hide Private, CurrentAfter, Valid, EachAlone, Resets, AllRespect;
      seen := [];
      var i := 0;
      ghost var all, last := Private(events, current, own, registers, fninit), CurrentAfter(events, current);
      assert events[0..] == events;
      while i < |events|
        invariant 0 <= i <= |events| && Valid()
        invariant seen + Private(events[i..], current, own, registers, fninit) == all
        invariant CurrentAfter(events[i..], current) == last
      {
        OneEvent(events, i, current, own, registers, fninit);
        if events[i].Switch? {
          SwitchTask(events[i].to);
        } else {
          var r := Execute(events[i].effect);
          ghost var rest := Private(events[i + 1..], current, own, registers, fninit);
          assert seen + ([r] + rest) == seen + [r] + rest;
          seen := seen + [r];
        }
        i := i + 1;
      }
      NoEvents(current, own, registers, fninit);
      assert events[i..] == [] && seen + [] == seen;
      if Resets(fninit, view) && AllRespect(events, view) {
        PrivateIsAlone(events, old(current), old(own), old(registers), fninit, view);
      }
    }
  }
}
