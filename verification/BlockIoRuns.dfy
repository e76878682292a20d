/** Submitters, the worker and the device as a transition system. Operations that
    do not go through the queue reach the device directly. */
module BlockIoRuns {
  import opened Bytes
  import opened BlockQueue

  /** A call: the `n`-th accepted by the queue, or the `n`-th direct one. */
  datatype Call = Queued(n: nat) | Direct(n: nat)

  /** One execution on the device. */
  datatype Run = Run(call: Call, op: Op, reply: Reply)

  datatype Worker = Free | Took(slot: nat, r: Request) | Ran(slot: nat, r: Request, reply: Reply)

  /** `disks` is the disk before and after every execution so far. `owner[i]`:
      which accepted call slot `i` belongs to. `invoked` and
      `returned` say how many executions there had been at those moments. */
  datatype State = State(
    disks: seq<seq<Sector>>, slots: Slots, owner: seq<nat>, pushes: nat, worker: Worker,
    waiting: set<nat>, direct: set<nat>, ran: map<nat, Reply>, directs: nat,
    log: seq<Run>, ops: map<Call, Op>, invoked: map<Call, nat>, returned: map<Call, (Reply, nat)>)

  /** What the device may do with an operation: a successful read returns the
      sector, a successful write replaces it, a failed write may leave anything
      in that one sector. */
  ghost predicate DeviceStep(disk: seq<Sector>, op: Op, reply: Reply, disk': seq<Sector>) {
    && |disk'| == |disk|
    && match op
       case Read(lba) => disk' == disk && (reply.ok ==> lba < |disk| && reply.data == disk[lba])
       case Write(lba, data) =>
         && (reply.ok ==> lba < |disk| && disk' == disk[lba := data])
         && (forall i :: 0 <= i < |disk| && i != lba ==> disk'[i] == disk[i])
       case Flush => disk' == disk
  }

  /** The log is a sequential history of the plain disk: `disks[k]` is the disk before run `k`. */
  ghost predicate Legal(disks: seq<seq<Sector>>, log: seq<Run>) {
    && |disks| == |log| + 1
    && forall k {:trigger log[k]} :: 0 <= k < |log| ==> DeviceStep(disks[k], log[k].op, log[k].reply, disks[k + 1])
  }

  ghost function Disk(s: State): seq<Sector>
    requires s.disks != []
  {
    s.disks[|s.disks| - 1]
  }

  datatype Step =
    | Submit(op: Op, data: Sector, slot: nat)
    | Reject(op: Op)
    | Take(slot: nat)
    | Execute(reply: Reply, disk: seq<Sector>)
    | Finish
    | Collect(ticket: nat, slot: nat)
    | InvokeDirect(op: Op)
    | ExecuteDirect(n: nat, reply: Reply, disk: seq<Sector>)
    | ReturnDirect(n: nat)

  /** No submitter has been waiting for a whole round of identifiers. */
  ghost predicate Window(s: State) {
    forall t :: t in s.waiting ==> s.pushes < t + ID_COUNT
  }

  ghost predicate Enabled(s: State, step: Step) {
    |s.slots| == MAX_REQUESTS && |s.owner| == MAX_REQUESTS && s.disks != [] &&
    match step
    case Submit(op, _, slot) => FirstAt(s.slots, slot, (e: Option<Request>) => e.None?) && Window(s)
    case Reject(_) => forall i :: 0 <= i < MAX_REQUESTS ==> s.slots[i].Some?
    case Take(slot) => s.worker.Free? && FirstAt(s.slots, slot, IsPending)
    case Execute(reply, disk) => s.worker.Took? && s.worker.slot < MAX_REQUESTS &&
        DeviceStep(Disk(s), s.worker.r.op, reply, disk)
    case Finish => s.worker.Ran?
    case Collect(t, slot) => t in s.waiting && FirstAt(s.slots, slot, (e: Option<Request>) => IsDone(e, IdOf(t)))
    case InvokeDirect(_) => true
    case ExecuteDirect(n, reply, disk) => n in s.direct && Direct(n) in s.ops &&
        DeviceStep(Disk(s), s.ops[Direct(n)], reply, disk)
    case ReturnDirect(n) => n in s.ran
  }

  /** `finish` on the slots. */
  function Finished(slots: Slots, slot: nat, id: nat, reply: Reply): Slots {
    if slot < |slots| && slots[slot].Some? && slots[slot].value.id == id && slots[slot].value.state == InProgress
    then slots[slot := Some(slots[slot].value.(reply := reply, state := Complete))] else slots
  }

  ghost function Apply(s: State, step: Step): State
    requires Enabled(s, step)
  {
    match step
    case Submit(op, data, slot) =>
      s.(slots := s.slots[slot := Some(Request(IdOf(s.pushes), op, Pending, Reply(true, data)))],
      owner := s.owner[slot := s.pushes],
         pushes := s.pushes + 1, waiting := s.waiting + {s.pushes},
         ops := s.ops[Queued(s.pushes) := op], invoked := s.invoked[Queued(s.pushes) := |s.log|])
    case Reject(_) => s
    case Take(slot) =>
      var r := s.slots[slot].value.(state := InProgress);
      s.(slots := s.slots[slot := Some(r)], worker := Took(slot, r))
    case Execute(reply, disk) =>
      s.(disks := s.disks + [disk], worker := Ran(s.worker.slot, s.worker.r, reply),
      log := s.log + [Run(Queued(s.owner[s.worker.slot]), s.worker.r.op, reply)])
    case Finish =>
      s.(slots := Finished(s.slots, s.worker.slot, s.worker.r.id, s.worker.reply), worker := Free)
    case Collect(t, slot) =>
      s.(slots := s.slots[slot := None], waiting := s.waiting - {t},
      returned := s.returned[Queued(t) := (s.slots[slot].value.reply, |s.log|)])
    case InvokeDirect(op) =>
      s.(direct := s.direct + {s.directs}, directs := s.directs + 1, ops := s.ops[Direct(s.directs) := op],
      invoked := s.invoked[Direct(s.directs) := |s.log|])
    case ExecuteDirect(n, reply, disk) =>
      s.(disks := s.disks + [disk], direct := s.direct - {n}, ran := s.ran[n := reply],
      log := s.log + [Run(Direct(n), s.ops[Direct(n)], reply)])
    case ReturnDirect(n) =>
      s.(ran := s.ran - {n}, returned := s.returned[Direct(n) := (s.ran[n], |s.log|)])
  }

  // ------------------------------------------------------------- invariant

  ghost predicate Unlogged(log: seq<Run>, c: Call) {
    forall k :: 0 <= k < |log| ==> log[k].call != c
  }

  ghost predicate RanAt(log: seq<Run>, k: int, c: Call, reply: Reply) {
    0 <= k < |log| && log[k].call == c && log[k].reply == reply
  }

  /** `c` ran on the device exactly once, with this reply. */
  ghost predicate LoggedOnce(log: seq<Run>, c: Call, reply: Reply) {
    exists k :: RanAt(log, k, c, reply) && forall j :: 0 <= j < |log| && log[j].call == c ==> j == k
  }

  ghost predicate SlotsInv(s: State) {
    && |s.slots| == MAX_REQUESTS && |s.owner| == MAX_REQUESTS
    && (forall i {:trigger s.slots[i]} :: 0 <= i < MAX_REQUESTS && s.slots[i].Some? ==>
          && s.owner[i] in s.waiting && s.slots[i].value.id == IdOf(s.owner[i])
          && Queued(s.owner[i]) in s.ops && s.ops[Queued(s.owner[i])] == s.slots[i].value.op)
    && (forall i, j {:trigger s.slots[i], s.slots[j]} ::
       0 <= i < j < MAX_REQUESTS && s.slots[i].Some? && s.slots[j].Some? ==> s.owner[i] != s.owner[j])
    && (forall t {:trigger t in s.waiting} :: t in s.waiting ==> t < s.pushes <= t + ID_COUNT)
  }

  ghost predicate WorkerInv(s: State)
    requires |s.slots| == MAX_REQUESTS
  {
    && (!s.worker.Free? ==>
       s.worker.slot < MAX_REQUESTS && s.slots[s.worker.slot] == Some(s.worker.r) && s.worker.r.state == InProgress)
    && (forall i {:trigger s.slots[i]} ::
       0 <= i < MAX_REQUESTS && s.slots[i].Some? && s.slots[i].value.state == InProgress ==>
       !s.worker.Free? && s.worker.slot == i)
  }

  /** What the log must say about the call in slot `i`. */
  ghost predicate SlotLogged(s: State, i: nat)
    requires i < |s.slots| && i < |s.owner| && s.slots[i].Some?
  {
    var r, c := s.slots[i].value, Queued(s.owner[i]);
    if r.state == Complete then LoggedOnce(s.log, c, r.reply)
    else if s.worker.Ran? && s.worker.slot == i then LoggedOnce(s.log, c, s.worker.reply)
    else Unlogged(s.log, c)
  }

  ghost predicate SlotsLogged(s: State)
    requires |s.slots| == MAX_REQUESTS && |s.owner| == MAX_REQUESTS
  {
    forall i {:trigger s.slots[i]} :: 0 <= i < MAX_REQUESTS && s.slots[i].Some? ==> SlotLogged(s, i)
  }

  /** Direct calls have run exactly once when they are through, and not before. */
  ghost predicate DirectsLogged(s: State) {
    && (forall n {:trigger n in s.direct} :: n in s.direct ==>
       n < s.directs && n !in s.ran && Direct(n) in s.ops && Unlogged(s.log, Direct(n)))
    && (forall n {:trigger n in s.ran} :: n in s.ran ==> n < s.directs && LoggedOnce(s.log, Direct(n), s.ran[n]))
  }

  /** Every run belongs to a call that was made before it, with that operation. */
  ghost predicate RunsKnown(s: State) {
    forall k {:trigger s.log[k]} :: 0 <= k < |s.log| ==>
      && (match s.log[k].call case Queued(n) => n < s.pushes case Direct(n) => n < s.directs)
      && s.log[k].call in s.ops && s.ops[s.log[k].call] == s.log[k].op
      && s.log[k].call in s.invoked && s.invoked[s.log[k].call] <= k
  }

  /** Every call that returned ran exactly once, before it returned, with the reply it returned. */
  ghost predicate ReturnsLogged(s: State) {
    && (forall c {:trigger c in s.returned} :: c in s.returned ==>
       LoggedOnce(s.log, c, s.returned[c].0) && s.returned[c].1 <= |s.log|)
    && (forall c, k {:trigger c in s.returned, s.log[k]} ::
       c in s.returned && 0 <= k < |s.log| && s.log[k].call == c ==> k < s.returned[c].1)
  }

  /** Every call made is on record with the moment it was made. */
  ghost predicate CallsKnown(s: State) {
    && s.ops.Keys == s.invoked.Keys
    && forall c {:trigger c in s.invoked} :: c in s.invoked ==> s.invoked[c] <= |s.log|
  }

  ghost predicate LogInv(s: State)
    requires |s.slots| == MAX_REQUESTS && |s.owner| == MAX_REQUESTS
  {
    SlotsLogged(s) && DirectsLogged(s) && RunsKnown(s) && ReturnsLogged(s) && CallsKnown(s)
  }

  ghost predicate Inv(s: State) {
    SlotsInv(s) && WorkerInv(s) && LogInv(s) && Legal(s.disks, s.log)
  }

  // -------------------------------------------------- every step keeps it

  lemma SmallMultiple(d: nat)
    requires d < ID_COUNT && d % ID_COUNT == 0
    ensures d == 0
  {
  }

  /** The only completed request with a submitter's identifier is its own. */
  lemma CollectsOwn(s: State, t: nat, slot: nat)
    requires Inv(s) && Enabled(s, Collect(t, slot))
    ensures s.owner[slot] == t
  {
    var o := s.owner[slot];
    assert s.slots[slot].Some?;
    if o < t { SameIdIff(o, t); SmallMultiple(t - o); } else if t < o { SameIdIff(t, o); SmallMultiple(o - t); }
  }

  lemma SlotsKept(s: State, step: Step)
    requires Inv(s) && Enabled(s, step)
    ensures SlotsInv(Apply(s, step))
  {
    if step.Collect? { CollectsOwn(s, step.ticket, step.slot); }
  }

  lemma WorkerKept(s: State, step: Step)
    requires Inv(s) && Enabled(s, step)
    ensures SlotsInv(Apply(s, step)) && WorkerInv(Apply(s, step))
  {
    SlotsKept(s, step);
  }

  lemma LegalKept(s: State, step: Step)
    requires Inv(s) && Enabled(s, step)
    ensures Legal(Apply(s, step).disks, Apply(s, step).log)
  {
  }

  // The log grows by one run of a call that had none.

  lemma LoggedStays(log: seq<Run>, run: Run, c: Call, reply: Reply)
    requires LoggedOnce(log, c, reply) && run.call != c
    ensures LoggedOnce(log + [run], c, reply)
  {
    var k :| RanAt(log, k, c, reply) && forall j :: 0 <= j < |log| && log[j].call == c ==> j == k;
    assert RanAt(log + [run], k, c, reply);
  }

  lemma LoggedNow(log: seq<Run>, run: Run)
    requires Unlogged(log, run.call)
    ensures LoggedOnce(log + [run], run.call, run.reply)
  {
    assert RanAt(log + [run], |log|, run.call, run.reply);
  }

  /** A call the log mentions is not unlogged. */
  lemma LoggedNotUnlogged(log: seq<Run>, c: Call, reply: Reply)
    requires LoggedOnce(log, c, reply)
    ensures !Unlogged(log, c)
  {
  }

  /** Calls not made yet have not run. */
  lemma FutureUnlogged(s: State, n: nat)
    requires RunsKnown(s)
    ensures n >= s.pushes ==> Unlogged(s.log, Queued(n))
    ensures n >= s.directs ==> Unlogged(s.log, Direct(n))
  {
  }

  /** The one call that runs in this step, if any, had not run. */
  lemma RunsFresh(s: State, step: Step)
    requires Inv(s) && Enabled(s, step)
    ensures step.Execute? ==> Unlogged(s.log, Queued(s.owner[s.worker.slot]))
    ensures step.ExecuteDirect? ==> Unlogged(s.log, Direct(step.n))
  {
    if step.Execute? { assert SlotLogged(s, s.worker.slot); }
  }

  lemma SlotLoggedKept(s: State, step: Step, i: nat)
    requires Inv(s) && Enabled(s, step) && SlotsInv(Apply(s, step)) && i < MAX_REQUESTS && Apply(s, step).slots[i].Some?
    ensures SlotLogged(Apply(s, step), i)
  {
    var s' := Apply(s, step);
    RunsFresh(s, step);
    if step.Submit? && step.slot == i {
      FutureUnlogged(s, s.pushes);
    } else {
      assert s.slots[i].Some? && SlotLogged(s, i);
      var c := Queued(s.owner[i]);
      if step.Execute? && s.worker.slot == i {
        LoggedNow(s.log, Run(c, s.worker.r.op, step.reply));
      } else if step.Execute? || step.ExecuteDirect? {
        var run := s'.log[|s.log|];
        assert run.call != c;
        if s.slots[i].value.state == Complete { LoggedStays(s.log, run, c, s.slots[i].value.reply); }
        else if s.worker.Ran? && s.worker.slot == i { LoggedStays(s.log, run, c, s.worker.reply); }
      }
    }
  }

  lemma DirectsKept(s: State, step: Step)
    requires Inv(s) && Enabled(s, step)
    ensures DirectsLogged(Apply(s, step))
  {
    var s' := Apply(s, step);
    RunsFresh(s, step);
    forall n | n in s'.direct ensures n < s'.directs && n !in s'.ran && Direct(n) in s'.ops &&
        Unlogged(s'.log, Direct(n)) {
      if step.InvokeDirect? && n == s.directs { FutureUnlogged(s, n); }
    }
    forall n | n in s'.ran ensures n < s'.directs && LoggedOnce(s'.log, Direct(n), s'.ran[n]) {
      if step.ExecuteDirect? && step.n == n {
        LoggedNow(s.log, Run(Direct(n), s.ops[Direct(n)], step.reply));
      } else {
        assert n in s.ran && LoggedOnce(s.log, Direct(n), s.ran[n]);
        if step.Execute? || step.ExecuteDirect? { LoggedStays(s.log, s'.log[|s.log|], Direct(n), s.ran[n]); }
      }
    }
  }

  /** One run on record keeps its place as calls are added and the log grows. */
  ghost predicate RunKnown(s: State, k: nat)
    requires k < |s.log|
  {
    var run := s.log[k];
    && (match run.call case Queued(n) => n < s.pushes case Direct(n) => n < s.directs)
    && run.call in s.ops && s.ops[run.call] == run.op
    && run.call in s.invoked && s.invoked[run.call] <= k
  }

  lemma RunKnownKept(s: State, step: Step, k: nat)
    requires Inv(s) && Enabled(s, step) && k < |Apply(s, step).log|
    ensures RunKnown(Apply(s, step), k)
  {
    var s' := Apply(s, step);
    if k < |s.log| {
      assert s'.log[k] == s.log[k] && RunKnown(s, k);
    } else if step.Execute? {
      assert s.slots[s.worker.slot].Some?;
      assert Queued(s.owner[s.worker.slot]) in s.invoked;
    } else {
      assert Direct(step.n) in s.invoked;
    }
  }

  lemma CallsKnownKept(s: State, step: Step)
    requires Inv(s) && Enabled(s, step)
    ensures CallsKnown(Apply(s, step))
  {
    var s' := Apply(s, step);
    assert s'.ops.Keys == s'.invoked.Keys;
    assert |s.log| <= |s'.log|;
  }

  lemma ReturnLogged(s: State, step: Step, c: Call)
    requires Inv(s) && Enabled(s, step) && c in Apply(s, step).returned
    ensures LoggedOnce(Apply(s, step).log, c, Apply(s, step).returned[c].0)
  {
    var s' := Apply(s, step);
    RunsFresh(s, step);
    if step.Collect? && c == Queued(step.ticket) {
      CollectsOwn(s, step.ticket, step.slot);
      assert SlotLogged(s, step.slot);
    } else if step.Execute? || step.ExecuteDirect? {
      LoggedNotUnlogged(s.log, c, s.returned[c].0);
      LoggedStays(s.log, s'.log[|s.log|], c, s.returned[c].0);
    }
  }

  /** A call that returned does not run again. */
  lemma ReturnedRunsNoMore(s: State, step: Step, c: Call)
    requires Inv(s) && Enabled(s, step) && c in s.returned
    ensures forall k :: |s.log| <= k < |Apply(s, step).log| ==> Apply(s, step).log[k].call != c
  {
    RunsFresh(s, step);
    LoggedNotUnlogged(s.log, c, s.returned[c].0);
  }

  lemma ReturnBounds(s: State, step: Step, c: Call, k: nat)
    requires Inv(s) && Enabled(s, step) && c in Apply(s, step).returned
    requires k < |Apply(s, step).log| && Apply(s, step).log[k].call == c
    ensures k < Apply(s, step).returned[c].1
  {
    var s' := Apply(s, step);
    if c in s.returned { ReturnedRunsNoMore(s, step, c); }
  }

  lemma ReturnsKept(s: State, step: Step)
    requires Inv(s) && Enabled(s, step)
    ensures ReturnsLogged(Apply(s, step))
  {
    var s' := Apply(s, step);
    forall c | c in s'.returned ensures LoggedOnce(s'.log, c, s'.returned[c].0) && s'.returned[c].1 <= |s'.log| {
      ReturnLogged(s, step, c);
    }
    forall c, k: nat | c in s'.returned && k < |s'.log| && s'.log[k].call == c ensures k < s'.returned[c].1 {
      ReturnBounds(s, step, c, k);
    }
  }

  /** Every step of submitters, worker and device keeps the invariant. */
  lemma StepKeepsInv(s: State, step: Step)
    requires Inv(s) && Enabled(s, step)
    ensures Inv(Apply(s, step))
  {
    var s' := Apply(s, step);
    WorkerKept(s, step);
    LegalKept(s, step);
    forall i: nat | i < MAX_REQUESTS && s'.slots[i].Some? ensures SlotLogged(s', i) { SlotLoggedKept(s, step, i); }
    DirectsKept(s, step);
    forall k: nat | k < |s'.log| ensures RunKnown(s', k) { RunKnownKept(s, step, k); }
    ReturnsKept(s, step);
    CallsKnownKept(s, step);
  }

  // -------------------------------------------------------------- every run

  ghost predicate Initial(s: State) {
    && |s.disks| == 1 && s.slots == seq(MAX_REQUESTS, i => None) && |s.owner| == MAX_REQUESTS
    && s.pushes == 0 && s.worker.Free? && s.waiting == {} && s.direct == {} && s.ran == map[]
    && s.directs == 0 && s.log == [] && s.ops == map[] && s.invoked == map[] && s.returned == map[]
  }

  lemma InitialInv(s: State)
    requires Initial(s)
    ensures Inv(s)
  {
  }

  ghost predicate IsRun(run: seq<State>, steps: seq<Step>) {
    && |run| == |steps| + 1 && Initial(run[0])
    && forall i {:trigger steps[i]} :: 0 <= i < |steps| ==>
         Enabled(run[i], steps[i]) && run[i + 1] == Apply(run[i], steps[i])
  }

  lemma {:induction false} InvInEveryRun(run: seq<State>, steps: seq<Step>, i: nat)
    requires IsRun(run, steps) && i < |run|
    ensures Inv(run[i])
  {
    if i == 0 {
      InitialInv(run[0]);
    } else {
      InvInEveryRun(run, steps, i - 1);
      var step := steps[i - 1];
      StepKeepsInv(run[i - 1], step);
    }
  }

  /** `order` is the place in the log at which each returned call took effect. */
  ghost predicate TookEffect(s: State, c: Call, k: nat) {
    && c in s.returned && c in s.ops && c in s.invoked && k < |s.log|
    && s.log[k] == Run(c, s.ops[c], s.returned[c].0)
    && s.invoked[c] <= k < s.returned[c].1
  }

  /** Linearizable: in every run, each call that returned took effect on the plain disk
      exactly once, between its invocation and its return, with the reply it
      returned; and the log of effects is a sequential history of that disk. */
  lemma EveryCallOnce(run: seq<State>, steps: seq<Step>, i: nat, c: Call) returns (k: nat)
    requires IsRun(run, steps) && i < |run| && c in run[i].returned
    ensures Legal(run[i].disks, run[i].log)
    ensures TookEffect(run[i], c, k)
    ensures forall j :: 0 <= j < |run[i].log| && run[i].log[j].call == c ==> j == k
  {
    var s := run[i];
    InvInEveryRun(run, steps, i);
    var at :| RanAt(s.log, at, c, s.returned[c].0) && forall j :: 0 <= j < |s.log| && s.log[j].call == c ==> j == at;
    k := at;
  }

  /** The log only grows, and later calls are recorded as made after what it held. */
  lemma {:induction false} LogGrows(run: seq<State>, steps: seq<Step>, i: nat, j: nat, b: Call)
    requires IsRun(run, steps) && i <= j < |run|
    ensures run[i].log <= run[j].log && run[i].returned.Keys <= run[j].returned.Keys
    ensures b !in run[i].invoked && b in run[j].invoked ==> |run[i].log| <= run[j].invoked[b]
  {
    if i < j {
      LogGrows(run, steps, i, j - 1, b);
      var step := steps[j - 1];
      assert run[j] == Apply(run[j - 1], step);
    }
  }

  /** Real-time order: what a call did to the disk precedes what any call made after its return did. */
  lemma RealTimeOrder(run: seq<State>, steps: seq<Step>, i: nat, j: nat, a: Call, b: Call, ka: nat, kb: nat)
    requires IsRun(run, steps) && i <= j < |run|
    requires a in run[i].returned && b !in run[i].invoked
    requires ka < |run[j].log| && run[j].log[ka].call == a
    requires kb < |run[j].log| && run[j].log[kb].call == b
    ensures ka < kb
  {
    LogGrows(run, steps, i, j, b);
    InvInEveryRun(run, steps, j);
    var k := EveryCallOnce(run, steps, i, a);
    assert run[j].log[k].call == a;
    var k' := EveryCallOnce(run, steps, j, a);
    assert k' == k == ka;
    assert run[j].log[kb].call in run[j].invoked;
  }

  // --------------------------------------------- the queue makes these steps

  /** The queue as the state has it. */
  ghost predicate InState(q: Queue, s: State)
    reads q
  {
    q.Valid() && q.entries == s.slots && |s.owner| == MAX_REQUESTS && s.disks != [] && q.nextId == IdOf(s.pushes)
  }

  /** Pushing is a submission, or, when the queue is full, a rejection. */
  method SubmitStep(q: Queue, op: Op, data: Sector, ghost s: State) returns (id: Option<nat>, ghost step: Step)
    requires InState(q, s) && Window(s)
    modifies q
    ensures Enabled(s, step) && InState(q, Apply(s, step))
    ensures if id.Some? then step.Submit? && id.value == IdOf(s.pushes) else step == Reject(op)
  {
    ghost var slot;
    id, slot := q.Push(op, data);
    step := if id.Some? then Submit(op, data, slot) else Reject(op);
    NextIdCounts(s.pushes);
  }

  /** Taking work is the worker's first step; without pending work nothing happens. */
  method TakeStep(q: Queue, ghost s: State) returns (work: Option<(nat, Request)>, ghost step: Step)
    requires InState(q, s) && s.worker.Free?
    modifies q
    ensures work.None? ==> InState(q, s) && forall i :: 0 <= i < MAX_REQUESTS ==> !IsPending(s.slots[i])
    ensures work.Some? ==>
              step == Take(work.value.0) && Enabled(s, step) && InState(q, Apply(s, step)) &&
              Apply(s, step).worker == Took(work.value.0, work.value.1)
  {
    work := q.TakePending();
    step := if work.Some? then Take(work.value.0) else Finish;
  }

  /** Finishing is the worker's last step. */
  method FinishStep(q: Queue, slot: nat, r: Request, reply: Reply, ghost s: State)
    requires InState(q, s) && s.worker == Ran(slot, r, reply)
    modifies q
    ensures Enabled(s, Finish) && InState(q, Apply(s, Finish))
  {
    q.Finish(slot, r.id, reply);
  }

  /** Taking a result is the collection of one's own request, with the reply it returns. */
  method CollectStep(q: Queue, ghost ticket: nat, id: nat, ghost s: State) returns (r: Option<Reply>, ghost step: Step)
    requires InState(q, s) && Inv(s) && ticket in s.waiting && id == IdOf(ticket)
    modifies q
    ensures r.None? ==> InState(q, s)
    ensures r.Some? ==> step.Collect? && step.ticket == ticket && Enabled(s, step) && InState(q, Apply(s, step))
    ensures r.Some? ==> s.owner[step.slot] == ticket && Apply(s, step).returned[Queued(ticket)] == (r.value, |s.log|)
  {
    ghost var slot;
    r, slot := q.TakeResult(id);
    step := Collect(ticket, slot);
    if r.Some? { CollectsOwn(s, ticket, slot); }
  }
}
