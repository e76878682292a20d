/** Task switches on several CPUs as a transition system. A switch is two steps:
    the choice is published under the scheduler lock, and only later does the
    CPU leave the old stack; other CPUs may act in between. */
module SchedulerRuns {
  import opened Bytes
  import opened Scheduler

  /** Where a CPU executes: on a task's stack, or still on the stack of `from`
      after publishing a switch to `to`. */
  datatype Exec = Offline | On(slot: nat) | Leaving(from: nat, to: nat)

  /** `anchor[c]`: the task of CPU `c` that never blocks, sleeps or exits. */
  datatype World = World(tasks: Tasks, current: seq<nat>, last: seq<seq<nat>>, exec: seq<Exec>, anchor: seq<nat>)

  datatype Why = Yield | Block | Sleep(until: nat) | Exit

  datatype Step =
    | Publish(cpu: nat, why: Why, next: Option<nat>)
    | SwitchStacks(cpu: nat)
    | Wake(slot: nat)
    | Spawn(cpu: nat, priority: nat, slot: nat, space: bool)
    | InitAp(cpu: nat, slot: nat, space: bool)
    | Reap(cpu: nat)

  predicate Shape(w: World) {
    && |w.tasks| == MAX_TASKS && |w.current| == MAX_CPUS && |w.last| == MAX_CPUS && |w.exec| == MAX_CPUS &&
       |w.anchor| == MAX_CPUS
    && (forall c | 0 <= c < MAX_CPUS ::
          |w.last[c]| == PRIORITIES && w.current[c] < MAX_TASKS && w.anchor[c] < MAX_TASKS)
  }

  function StateAfter(why: Why, t: Task): Task {
    match why
    case Yield => t
    case Block => t.(state := Blocked)
    case Sleep(until) => t.(state := Sleeping, wakeTick := until)
    case Exit => t.(state := Dead)
  }

  // ---------------------------------------------------------------- steps

  ghost predicate Next(w: World, w': World, step: Step) {
    Shape(w) && Shape(w') &&
    match step
    case Publish(c, why, next) =>
      && c < MAX_CPUS && w.exec[c] == On(w.current[c]) && (why.Yield? || w.current[c] != w.anchor[c])
      && var tasks := w.tasks[w.current[c] := StateAfter(why, w.tasks[w.current[c]])];
      && Prepared(tasks, w.current, w.last, w'.tasks, w'.current, w'.last, c, next)
      && w'.exec == (if Entered(w'.tasks, next).Some? then w.exec[c := Leaving(w.current[c], next.value)]
         else w.exec) && w'.anchor == w.anchor
    case SwitchStacks(c) =>
      && c < MAX_CPUS && w.exec[c].Leaving? && w.exec[c].from < MAX_TASKS && w.exec[c].to < MAX_TASKS
      && var from, to := w.exec[c].from, w.exec[c].to;
      && var saved := w.tasks[from := w.tasks[from].(saved := true)];
      && w' == w.(tasks := saved[to := saved[to].(saved := false)], exec := w.exec[c := On(to)])
    case Wake(slot) =>
      && slot < MAX_TASKS && w.tasks[slot].state in {Blocked, Sleeping}
      && w' == w.(tasks := w.tasks[slot := w.tasks[slot].(state := Ready, wakeTick := 0)])
    case Spawn(c, p, slot, space) =>
      && c < MAX_CPUS && !w.exec[c].Offline? && p < PRIORITIES && slot < MAX_TASKS && w.tasks[slot].state == Empty
      && w' == w.(tasks := w.tasks[slot := Task(Ready, p, c, 0, TaskStack(slot), true, space)])
    case InitAp(c, slot, space) =>
      && c < MAX_CPUS && w.exec[c].Offline? && slot < MAX_TASKS && w.tasks[slot].state == Empty
      && w' == w.(tasks := w.tasks[slot := Task(Running, 0, c, 0, BootStack(c), false, space)],
         current := w.current[c := slot],
                  exec := w.exec[c := On(slot)], anchor := w.anchor[c := slot])
    case Reap(c) =>
      && c < MAX_CPUS && w.exec[c] == On(w.current[c]) && w' == w.(tasks := Reaped(w.tasks, c, w.current[c]))
  }

  // ------------------------------------------------------------ invariant

  /** The task whose stack the CPU is executing on. */
  function Physical(e: Exec): nat
    requires !e.Offline?
  {
    match e case On(s) => s case Leaving(f, _) => f
  }

  /** Some CPU executes on this task's stack. */
  ghost predicate Executing(w: World, slot: nat)
    requires Shape(w)
  {
    exists c :: 0 <= c < MAX_CPUS && !w.exec[c].Offline? && Physical(w.exec[c]) == slot
  }

  /** One CPU's own view is right. */
  ghost predicate CpuOk(w: World, c: nat)
    requires Shape(w) && c < MAX_CPUS
  {
    !w.exec[c].Offline? ==>
      && var cur := w.current[c];
      && w.tasks[cur].state == Running && w.tasks[cur].cpu == c
      && w.tasks[w.anchor[c]].cpu == c && w.tasks[w.anchor[c]].state in {Ready, Running}
      && match w.exec[c]
         case On(s) => s == cur
         case Leaving(f, t) => t == cur && f < MAX_TASKS && f != t && w.tasks[f].cpu == c &&
             w.tasks[f].state !in {Empty, Running} && w.tasks[t].saved
         case Offline => true
  }

  /** One task slot is right. */
  ghost predicate TaskOk(w: World, i: nat)
    requires Shape(w) && i < MAX_TASKS
  {
    var t := w.tasks[i];
    && t.priority < PRIORITIES
    && (t.state != Empty ==>
          && t.space && t.cpu < MAX_CPUS && !w.exec[t.cpu].Offline?
          && (t.stack == TaskStack(i) || (t.stack == BootStack(t.cpu) && w.anchor[t.cpu] == i)))
    && (t.state == Running ==> w.current[t.cpu] == i)
    && (t.state !in {Empty, Dead} && Physical(w.exec[t.cpu]) != i ==> t.saved)
  }

  ghost predicate Inv(w: World) {
    Shape(w) && (forall c :: 0 <= c < MAX_CPUS ==> CpuOk(w, c)) && (forall i :: 0 <= i < MAX_TASKS ==> TaskOk(w, i))
  }

  // ------------------------------------------------- what the invariant says

  /** Each CPU has exactly one running task, its current one. */
  lemma OneRunning(w: World, c: nat, i: nat)
    requires Inv(w) && c < MAX_CPUS && !w.exec[c].Offline? && i < MAX_TASKS
    ensures w.tasks[i].state == Running && w.tasks[i].cpu == c <==> i == w.current[c]
  {
    assert CpuOk(w, c) && TaskOk(w, i);
  }

  /** No two CPUs execute on one stack. */
  lemma StacksApart(w: World, c: nat, d: nat)
    requires Inv(w) && c < d < MAX_CPUS && !w.exec[c].Offline? && !w.exec[d].Offline?
    ensures Physical(w.exec[c]) < MAX_TASKS && Physical(w.exec[d]) < MAX_TASKS
    ensures w.tasks[Physical(w.exec[c])].stack != w.tasks[Physical(w.exec[d])].stack
  {
    assert CpuOk(w, c) && CpuOk(w, d);
    assert TaskOk(w, Physical(w.exec[c])) && TaskOk(w, Physical(w.exec[d]));
  }

  /** A slot that may be initialised anew is executed on by nobody, so its stack may be overwritten. */
  lemma EmptyIsUnused(w: World, slot: nat)
    requires Inv(w) && slot < MAX_TASKS && w.tasks[slot].state == Empty
    ensures !Executing(w, slot)
  {
    forall c | 0 <= c < MAX_CPUS && !w.exec[c].Offline? ensures Physical(w.exec[c]) != slot {
      assert CpuOk(w, c);
    }
  }

  /** A switch resumes a context that has been saved. */
  lemma ResumesSaved(w: World, c: nat)
    requires Inv(w) && c < MAX_CPUS && w.exec[c].Leaving?
    ensures w.exec[c].to < MAX_TASKS && w.tasks[w.exec[c].to].saved
  {
    assert CpuOk(w, c);
  }

  // -------------------------------------------------- every step keeps it

  /** The tasks a publishing CPU chooses from. */
  ghost function Offered(w: World, c: nat, why: Why): Tasks
    requires Shape(w) && c < MAX_CPUS
  {
    Reaped(w.tasks[w.current[c] := StateAfter(why, w.tasks[w.current[c]])], c, w.current[c])
  }

  /** A task that blocks, sleeps or exits always finds another to hand over to. */
  lemma NeverStuck(w: World, w': World, c: nat, why: Why, next: Option<nat>)
    requires Inv(w) && Next(w, w', Publish(c, why, next)) && !why.Yield?
    ensures next.Some?
  {
    assert CpuOk(w, c) && TaskOk(w, w.anchor[c]);
    assert ReadyOn(Offered(w, c, why)[w.anchor[c]], c);
  }

  /** The chosen task was ready, is another than the one left, and its context is saved. */
  lemma ChosenIsSaved(w: World, w': World, c: nat, why: Why, slot: nat)
    requires Inv(w) && Next(w, w', Publish(c, why, Some(slot)))
    ensures slot != w.current[c] && w.tasks[slot].state == Ready && w.tasks[slot].cpu == c && w.tasks[slot].saved
    ensures w'.tasks == Switched(Offered(w, c, why), w.current[c], slot) && w'.current == w.current[c := slot]
    ensures w'.exec == w.exec[c := Leaving(w.current[c], slot)]
  {
    assert CpuOk(w, c) && TaskOk(w, slot);
  }

  lemma PublishKeepsTask(w: World, w': World, c: nat, why: Why, next: Option<nat>, i: nat)
    requires Inv(w) && Next(w, w', Publish(c, why, next)) && i < MAX_TASKS
    ensures TaskOk(w', i)
  {
    assert CpuOk(w, c) && TaskOk(w, i);
    if next.Some? { ChosenIsSaved(w, w', c, why, next.value); }
  }

  lemma PublishKeepsCpu(w: World, w': World, c: nat, why: Why, next: Option<nat>, d: nat)
    requires Inv(w) && Next(w, w', Publish(c, why, next)) && d < MAX_CPUS
    ensures CpuOk(w', d)
  {
    assert CpuOk(w, c) && CpuOk(w, d) && TaskOk(w, w.current[c]);
    if next.Some? { ChosenIsSaved(w, w', c, why, next.value); }
    if !why.Yield? { NeverStuck(w, w', c, why, next); }
  }

  /** A task that is created has an address space, as it has once paging is set up. */
  ghost predicate Mapped(step: Step) {
    (step.Spawn? ==> step.space) && (step.InitAp? ==> step.space)
  }

  lemma OtherKeepsTask(w: World, w': World, step: Step, i: nat)
    requires Inv(w) && Next(w, w', step) && !step.Publish? && Mapped(step) && i < MAX_TASKS
    ensures TaskOk(w', i)
  {
    assert TaskOk(w, i);
    match step
    case SwitchStacks(c) => assert CpuOk(w, c);
    case Spawn(c, _, slot, _) => assert CpuOk(w, c);
    case InitAp(c, slot, _) =>
    case Reap(c) => assert CpuOk(w, c);
    case Wake(slot) => assert TaskOk(w, slot);
  }

  lemma OtherKeepsCpu(w: World, w': World, step: Step, d: nat)
    requires Inv(w) && Next(w, w', step) && !step.Publish? && d < MAX_CPUS
    ensures CpuOk(w', d)
  {
    assert CpuOk(w, d);
    match step
    case SwitchStacks(c) => assert CpuOk(w, c);
    case Spawn(c, _, slot, _) => assert CpuOk(w, c);
    case InitAp(c, slot, _) =>
    case Reap(c) => assert CpuOk(w, c);
    case Wake(slot) => assert TaskOk(w, slot);
  }

  /** Every step keeps the invariant, if and only if it creates no task without an address space. */
  lemma StepKeepsInv(w: World, w': World, step: Step)
    requires Inv(w) && Next(w, w', step)
    ensures Inv(w') <==> Mapped(step)
  {
    if Mapped(step) {
      forall i | 0 <= i < MAX_TASKS ensures TaskOk(w', i) {
        if step.Publish? {
          PublishKeepsTask(w, w', step.cpu, step.why, step.next, i);
        } else {
          OtherKeepsTask(w, w', step, i);
        }
      }
      forall d | 0 <= d < MAX_CPUS ensures CpuOk(w', d) {
        if step.Publish? {
          PublishKeepsCpu(w, w', step.cpu, step.why, step.next, d);
        } else {
          OtherKeepsCpu(w, w', step, d);
        }
      }
    } else {
      assert !TaskOk(w', step.slot);
    }
  }

  /** Such a task becomes current when it is chosen, while the CPU stays on the stack of the one before. */
  lemma UnmappedTaskMisleads(w: World, w': World, c: nat, why: Why, slot: nat)
    requires Next(w, w', Publish(c, why, Some(slot))) && slot != w.current[c] && !w.tasks[slot].space
    ensures w'.exec[c] == On(w.current[c]) && w'.current[c] == slot && w'.tasks[slot].state == Running && !Inv(w')
  {
    assert !CpuOk(w', c);
  }

  // ------------------------------------------------------------- all runs

  /** After `initialize`: the kernel runs on the boot stack of CPU 0, the idle task is ready. */
  ghost predicate Initial(w: World) {
    && Shape(w) && w.current[0] == 0 && w.anchor[0] == 0
    && w.exec == [On(0), Offline, Offline, Offline]
    && w.tasks[0] == Task(Running, 2, 0, 0, BootStack(0), false, true)
    && w.tasks[1] == Task(Ready, 0, 0, 0, TaskStack(1), true, true)
    && forall i :: 2 <= i < MAX_TASKS ==> w.tasks[i] == EMPTY
  }

  lemma InitialInv(w: World)
    requires Initial(w)
    ensures Inv(w)
  {
  }

  /** `ws` is a run: each world follows from the one before by a step, and no task is created without an address
      space. */
  ghost predicate IsRun(ws: seq<World>, steps: seq<Step>) {
    |ws| == |steps| + 1 && forall k :: 0 <= k < |steps| ==> Next(ws[k], ws[k + 1], steps[k]) && Mapped(steps[k])
  }

  /** In every run, at every point: one running task per CPU, CPUs on different
      stacks, switches to saved contexts only, and no slot in reuse that a CPU
      still executes on. */
  lemma {:induction false} SafeInEveryRun(ws: seq<World>, steps: seq<Step>, k: nat)
    requires IsRun(ws, steps) && Inv(ws[0]) && k < |ws|
    ensures Inv(ws[k])
    ensures forall c, d :: 0 <= c < d < MAX_CPUS && !ws[k].exec[c].Offline? && !ws[k].exec[d].Offline? ==>
              var p, q := Physical(ws[k].exec[c]), Physical(ws[k].exec[d]);
              p < MAX_TASKS && q < MAX_TASKS && ws[k].tasks[p].stack != ws[k].tasks[q].stack
    ensures forall c :: 0 <= c < MAX_CPUS && ws[k].exec[c].Leaving? ==>
              ws[k].exec[c].to < MAX_TASKS && ws[k].tasks[ws[k].exec[c].to].saved
    ensures forall slot :: 0 <= slot < MAX_TASKS && ws[k].tasks[slot].state == Empty ==> !Executing(ws[k], slot)
  {
    if k > 0 {
      SafeInEveryRun(ws, steps, k - 1);
      assert Next(ws[k - 1], ws[k], steps[k - 1]);
      StepKeepsInv(ws[k - 1], ws[k], steps[k - 1]);
    }
    var w := ws[k];
    forall c, d | 0 <= c < d < MAX_CPUS && !w.exec[c].Offline? && !w.exec[d].Offline?
      ensures Physical(w.exec[c]) < MAX_TASKS && Physical(w.exec[d]) < MAX_TASKS &&
              w.tasks[Physical(w.exec[c])].stack != w.tasks[Physical(w.exec[d])].stack {
      StacksApart(w, c, d);
    }
    forall c | 0 <= c < MAX_CPUS && w.exec[c].Leaving? ensures w.exec[c].to < MAX_TASKS && w.tasks[w.exec[c].to].saved {
      ResumesSaved(w, c);
    }
    forall slot | 0 <= slot < MAX_TASKS && w.tasks[slot].state == Empty ensures !Executing(w, slot) {
      EmptyIsUnused(w, slot);
    }
  }

  // ------------------------------------------------------ bounded waiting

  /** The step chooses a task of priority `p` on CPU `c`. */
  ghost predicate Selects(w: World, w': World, step: Step, c: nat, p: nat)
    requires Shape(w) && c < MAX_CPUS
  {
    step.Publish? && step.cpu == c && step.next.Some? && IsBest(Offered(w, c, step.why), c, p)
  }

  ghost function Selections(ws: seq<World>, steps: seq<Step>, c: nat, p: nat): nat
    requires |ws| == |steps| + 1 && (forall k :: 0 <= k < |ws| ==> Shape(ws[k])) && c < MAX_CPUS
  {
    if steps == [] then 0
    else (if Selects(ws[0], ws[1], steps[0], c, p) then 1 else 0) + Selections(ws[1..], steps[1..], c, p)
  }

  /** The best priority is one priority. */
  lemma BestUnique(tasks: Tasks, c: nat, p: nat, q: nat)
    requires IsBest(tasks, c, p) && IsBest(tasks, c, q)
    ensures p == q
  {
  }

  lemma StillOffered(w: World, step: Step, c: nat, p: nat, t: nat)
    requires Inv(w) && step.Publish? && step.cpu == c < MAX_CPUS && w.exec[c] == On(w.current[c]) && t < MAX_TASKS &&
             ReadyAt(w.tasks[t], c, p)
    ensures ReadyAt(Offered(w, c, step.why)[t], c, p)
  {
    assert CpuOk(w, c);
  }

  /** A step that leaves task `t` ready brings it nearer if it selects at `t`'s
      priority, and otherwise does not move the round-robin mark. */
  lemma WaitStep(w: World, w': World, step: Step, c: nat, p: nat, t: nat)
    requires Inv(w) && Next(w, w', step) && c < MAX_CPUS && p < PRIORITIES && t < MAX_TASKS
    requires ReadyAt(w.tasks[t], c, p) && ReadyAt(w'.tasks[t], c, p)
    ensures if Selects(w, w', step, c, p) then Ahead(w'.last[c][p], t) < Ahead(w.last[c][p], t)
            else w'.last[c][p] == w.last[c][p]
  {
    if step.Publish? && step.next.Some? {
      var d, slot := step.cpu, step.next.value;
      var offered := Offered(w, d, step.why);
      var q :| 0 <= q < PRIORITIES && Chosen(offered, w.last, d, q, slot) && w'.last == Recorded(w.last, d, q, slot);
      if d == c {
        StillOffered(w, step, c, p, t);
        if Selects(w, w', step, c, p) {
          BestUnique(offered, c, p, q);
          ChosenIsSaved(w, w', c, step.why, slot);
          NearerOrChosen(offered, w.last, c, p, slot, t);
        }
      }
    }
  }

  lemma RunTail(ws: seq<World>, steps: seq<Step>)
    requires IsRun(ws, steps) && steps != []
    ensures IsRun(ws[1..], steps[1..])
  {
    forall k | 0 <= k < |steps[1..]| ensures Next(ws[1..][k], ws[1..][k + 1], steps[1..][k]) {
      assert Next(ws[k + 1], ws[k + 2], steps[k + 1]);
    }
  }

  /** Bounded waiting: while a task stays ready, at most `MAX_TASKS - 1` selections
      are made at its priority on its CPU before it is chosen. */
  lemma {:induction false} BoundedWaiting(ws: seq<World>, steps: seq<Step>, c: nat, p: nat, t: nat)
    requires IsRun(ws, steps) && Inv(ws[0]) && c < MAX_CPUS && p < PRIORITIES && t < MAX_TASKS
    requires forall k :: 0 <= k < |ws| ==> Shape(ws[k]) && ReadyAt(ws[k].tasks[t], c, p)
    ensures Selections(ws, steps, c, p) <= Ahead(ws[0].last[c][p], t) < MAX_TASKS
    decreases |steps|
  {
    if steps != [] {
      assert Next(ws[0], ws[1], steps[0]);
      StepKeepsInv(ws[0], ws[1], steps[0]);
      WaitStep(ws[0], ws[1], steps[0], c, p, t);
      RunTail(ws, steps);
      assert forall k :: 0 <= k < |ws[1..]| ==> ws[1..][k] == ws[k + 1];
      BoundedWaiting(ws[1..], steps[1..], c, p, t);
    }
  }
}
