/** The scheduler's choice of the next task on a CPU. */
module Scheduler {
  import opened Bytes

  const MAX_TASKS: nat := 32
  const MAX_CPUS: nat := 4
  const PRIORITIES: nat := 3

  datatype TaskState = Empty | Ready | Running | Blocked | Sleeping | Dead

  /** The memory a task runs on: its slot's stack, or the stack a CPU booted on. */
  datatype StackId = TaskStack(slot: nat) | BootStack(cpu: nat)

  /** `saved`: the stored stack pointer is that of a suspended context; `space`: the task has an address space. */
  datatype Task = Task(state: TaskState, priority: nat, cpu: nat, wakeTick: nat, stack: StackId, saved: bool,
      space: bool)

  const EMPTY: Task := Task(Empty, 1, 0, 0, BootStack(0), false, false)

  type Tasks = seq<Task>

  predicate ReadyOn(t: Task, c: nat) { t.state == Ready && t.cpu == c }

  predicate ReadyAt(t: Task, c: nat, p: nat) { ReadyOn(t, c) && t.priority == p }

  // -------------------------------------------------------------- reaping

  /** Dead tasks of CPU `c`, other than its current one, give up their slots. */
  ghost function Reaped(tasks: Tasks, c: nat, cur: nat): Tasks {
    seq(|tasks|, i requires 0 <= i < |tasks| => if i != cur && tasks[i].state == Dead && tasks[i].cpu == c then EMPTY
    else tasks[i])
  }

  // ------------------------------------------------------------ selection

  /** `p` is the highest priority of a ready task on `c`. */
  ghost predicate IsBest(tasks: Tasks, c: nat, p: nat) {
    && (exists i :: 0 <= i < |tasks| && ReadyAt(tasks[i], c, p))
    && (forall i :: 0 <= i < |tasks| && ReadyOn(tasks[i], c) ==> tasks[i].priority <= p)
  }

  function Ring(start: nat, offset: nat): (slot: nat)
    ensures slot < MAX_TASKS
  {
    (start + offset) % MAX_TASKS
  }

  /** `offset` is the first round-robin offset after `start` with a ready task of priority `p`. */
  ghost predicate FirstReady(tasks: Tasks, c: nat, p: nat, start: nat, offset: nat)
    requires |tasks| == MAX_TASKS
  {
    && 1 <= offset <= MAX_TASKS && ReadyAt(tasks[Ring(start, offset)], c, p)
    && forall o :: 1 <= o < offset ==> !ReadyAt(tasks[Ring(start, o)], c, p)
  }

  /** Every slot lies at exactly one round-robin offset. */
  lemma RingCovers(start: nat, slot: nat) returns (offset: nat)
    requires slot < MAX_TASKS
    ensures 1 <= offset <= MAX_TASKS && Ring(start, offset) == slot
  {
    var d := (slot + MAX_TASKS - start % MAX_TASKS) % MAX_TASKS;
    offset := if d == 0 then MAX_TASKS else d;
  }

  /** `slot` is what round robin picks on `c`. */
  ghost predicate Chosen(tasks: Tasks, last: seq<seq<nat>>, c: nat, p: nat, slot: nat)
    requires |tasks| == MAX_TASKS && c < |last| && p < |last[c]|
  {
    && IsBest(tasks, c, p)
    && exists offset :: FirstReady(tasks, c, p, last[c][p], offset) && slot == Ring(last[c][p], offset)
  }

  /** The tasks after a switch from `previous` to `slot`. */
  ghost function Switched(tasks: Tasks, previous: nat, slot: nat): Tasks
    requires previous < |tasks| && slot < |tasks|
  {
    var t1 := if tasks[previous].state == Running then tasks[previous := tasks[previous].(state := Ready)] else tasks;
    t1[slot := t1[slot].(state := Running)]
  }

  function Recorded(last: seq<seq<nat>>, c: nat, p: nat, slot: nat): seq<seq<nat>>
    requires c < |last| && p < |last[c]|
  {
    var row: seq<nat> := last[c][p := slot];
    last[c := row]
  }

  /** The task whose stack the CPU goes to. */
  function Entered(tasks: Tasks, next: Option<nat>): Option<nat> {
    if next.Some? && next.value < |tasks| && tasks[next.value].space then next else None
  }

  /** What `prepare_switch` does to the state. */
  ghost predicate Prepared(tasks: Tasks, current: seq<nat>, last: seq<seq<nat>>, tasks': Tasks, current': seq<nat>,
                           last': seq<seq<nat>>, c: nat, next: Option<nat>)
    requires |tasks| == MAX_TASKS && c < |current| && c < |last| && |last[c]| == PRIORITIES && current[c] < MAX_TASKS
  {
    var reaped := Reaped(tasks, c, current[c]);
    match next
    case None => tasks' == reaped && current' == current && last' == last && forall i :: 0 <= i < MAX_TASKS ==>
          !ReadyOn(reaped[i], c)
    case Some(slot) =>
      && slot < MAX_TASKS && tasks' == Switched(reaped, current[c], slot) && current' == current[c := slot]
      && exists p :: 0 <= p < PRIORITIES && Chosen(reaped, last, c, p, slot) && last' == Recorded(last, c, p, slot)
  }

  /** The scheduler's shared state. */
  class SchedulerState {
    var tasks: Tasks
    var current: seq<nat>
    var last: seq<seq<nat>>

    ghost predicate Shape()
      reads this
    {
      && |tasks| == MAX_TASKS && |current| == MAX_CPUS && |last| == MAX_CPUS
      && (forall c {:trigger last[c]} :: 0 <= c < MAX_CPUS ==> |last[c]| == PRIORITIES)
      && (forall c {:trigger current[c]} :: 0 <= c < MAX_CPUS ==> current[c] < MAX_TASKS)
      && (forall i {:trigger tasks[i]} :: 0 <= i < MAX_TASKS ==> tasks[i].priority < PRIORITIES)
    }

    constructor ()
      ensures Shape() && forall i :: 0 <= i < MAX_TASKS ==> tasks[i] == EMPTY
    {
      tasks := seq(MAX_TASKS, _ => EMPTY);
      current := seq(MAX_CPUS, _ => 0);
      last := seq(MAX_CPUS, _ => [0, 0, 0]);
    }

    /** `reap_dead`. */
    method ReapDead(c: nat)
      requires Shape() && c < MAX_CPUS
      modifies this`tasks
      ensures Shape() && tasks == Reaped(old(tasks), c, current[c])
    {
      for i := 0 to MAX_TASKS
        invariant Shape()
        invariant forall j :: 0 <= j < MAX_TASKS ==>
                    tasks[j] == if j < i then Reaped(old(tasks), c, current[c])[j] else old(tasks)[j]
      {
        if i != current[c] && tasks[i].state == Dead && tasks[i].cpu == c {
          tasks := tasks[i := EMPTY];
        }
      }
    }

    method BestPriority(c: nat) returns (r: Option<nat>)
      requires Shape()
      ensures r.None? <==> forall i :: 0 <= i < MAX_TASKS ==> !ReadyOn(tasks[i], c)
      ensures r.Some? ==> IsBest(tasks, c, r.value) && r.value < PRIORITIES
    {
      r := None;
      for i := 0 to MAX_TASKS
        invariant r.None? <==> forall j :: 0 <= j < i ==> !ReadyOn(tasks[j], c)
        invariant r.Some? ==> r.value < PRIORITIES && (exists j :: 0 <= j < i && ReadyAt(tasks[j], c, r.value))
        invariant r.Some? ==> forall j :: 0 <= j < i && ReadyOn(tasks[j], c) ==> tasks[j].priority <= r.value
      {
        if ReadyOn(tasks[i], c) && (r.None? || r.value < tasks[i].priority) {
          r := Some(tasks[i].priority);
          assert ReadyAt(tasks[i], c, r.value);
        }
      }
    }

    method NextReady(c: nat, p: nat, start: nat) returns (offset: nat)
      requires Shape() && exists i :: 0 <= i < MAX_TASKS && ReadyAt(tasks[i], c, p)
      ensures FirstReady(tasks, c, p, start, offset)
    {
      offset := 1;
      ghost var i :| 0 <= i < MAX_TASKS && ReadyAt(tasks[i], c, p);
      ghost var bound := RingCovers(start, i);
      while !ReadyAt(tasks[Ring(start, offset)], c, p)
        invariant 1 <= offset <= bound
        invariant forall o :: 1 <= o < offset ==> !ReadyAt(tasks[Ring(start, o)], c, p)
        decreases bound - offset
      {
        offset := offset + 1;
      }
    }

    /** `prepare_switch`: nothing when no task of the CPU is ready; otherwise the
        next one round robin among those of the highest priority becomes the
        running, current task, and the one that was running becomes ready. A switch of
        stacks follows only if that task has an address space. */
    method PrepareSwitch(c: nat) returns (switch: Option<nat>, ghost next: Option<nat>)
      requires Shape() && c < MAX_CPUS
      modifies this
      ensures Shape()
      ensures Prepared(old(tasks), old(current), old(last), tasks, current, last, c, next)
      ensures switch == Entered(tasks, next)
    {
      ReapDead(c);
      ghost var reaped := tasks;
      var best := BestPriority(c);
      if best.None? {
        switch, next := None, None;
      } else {
        var p := best.value;
        var offset := NextReady(c, p, last[c][p]);
        var slot, previous := Ring(last[c][p], offset), current[c];
        last := Recorded(last, c, p, slot);
        if tasks[previous].state == Running {
          tasks := tasks[previous := tasks[previous].(state := Ready)];
        }
        tasks := tasks[slot := tasks[slot].(state := Running)];
        current := current[c := slot];
        next := Some(slot);
        switch := if tasks[slot].space then Some(slot) else None;
        assert Chosen(reaped, old(last), c, p, slot) by { assert FirstReady(reaped, c, p, old(last)[c][p], offset); }
      }
    }
  }

  // ------------------------------------------------------ bounded waiting

  /** How many other slots round robin visits before `slot`, starting after `start`. */
  function Ahead(start: nat, slot: nat): (d: nat)
    requires slot < MAX_TASKS
    ensures d < MAX_TASKS
  {
    (slot + 2 * MAX_TASKS - 1 - start % MAX_TASKS) % MAX_TASKS
  }

  lemma AheadOfOffset(start: nat, offset: nat)
    requires 1 <= offset <= MAX_TASKS
    ensures Ahead(start, Ring(start, offset)) == offset - 1
  {
  }

  lemma RingValue(start: nat, a: nat)
    requires 1 <= a <= MAX_TASKS
    ensures var s := start % MAX_TASKS; Ring(start, a) == if s + a < MAX_TASKS then s + a else s + a - MAX_TASKS
  {
  }

  lemma AheadValue(x: nat, y: nat)
    requires x < MAX_TASKS && y < MAX_TASKS
    ensures Ahead(x, y) == if y > x then y - x - 1 else y + MAX_TASKS - x - 1
  {
  }

  lemma RingShift(start: nat, a: nat, b: nat)
    requires 1 <= a < b <= MAX_TASKS
    ensures Ahead(Ring(start, a), Ring(start, b)) == b - a - 1
  {
    RingValue(start, a);
    RingValue(start, b);
    AheadValue(Ring(start, a), Ring(start, b));
  }

  /** A selection at the priority of a ready task either picks it or brings it strictly nearer. */
  lemma NearerOrChosen(tasks: Tasks, last: seq<seq<nat>>, c: nat, p: nat, slot: nat, t: nat)
    requires |tasks| == MAX_TASKS && c < |last| && p < |last[c]| && t < MAX_TASKS
    requires Chosen(tasks, last, c, p, slot) && ReadyAt(tasks[t], c, p) && slot != t
    ensures Ahead(slot, t) < Ahead(last[c][p], t)
  {
    var start := last[c][p];
    var offset :| FirstReady(tasks, c, p, start, offset) && slot == Ring(start, offset);
    var at := RingCovers(start, t);
    assert at > offset;
    AheadOfOffset(start, offset);
    AheadOfOffset(start, at);
    RingShift(start, offset, at);
  }
}
