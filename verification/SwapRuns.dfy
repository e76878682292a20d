/** Tasks swapping pages out and in at the same time. The slot table is only
    touched under its lock; the sector transfers happen outside it. */
module SwapRuns {
  import opened Bytes
  import opened Swap

  /** A page of slot `index` on its way to the disk, `done` sectors written. */
  datatype Writer = Writer(index: nat, generation: nat, lba: nat, bytes: Page, done: nat, failed: bool)

  /** A page on its way back: `taken` counts how often the slot had been taken when the read began. */
  datatype Reader = Reader(index: nat, taken: nat, lba: nat, buffer: seq<Byte>, done: nat)

  /** `taken[i]` counts how often slot `i` was taken; `given` has the bytes of each use of a slot. */
  datatype State = State(
    slots: Slots, disk: Option<DiskBacking>, device: seq<Sector>,
    writers: map<nat, Writer>, readers: map<nat, Reader>,
    taken: seq<nat>, given: map<(nat, nat), Page>)

  datatype Step =
    | Configure(startLba: nat, sectors: nat)
    | Reserve(task: nat, bytes: Page, slot: nat)
    | WriteSector(task: nat, ok: bool, left: Sector)
    | Publish(task: nat)
    | Cancel(task: nat)
    | AllocateRam(bytes: Page, slot: nat)
    | Share(h: Handle)
    | Release(h: Handle)
    | BeginRead(task: nat, h: Handle)
    | ReadSector(task: nat)
    | EndRead(task: nat)

  ghost predicate Enabled(s: State, step: Step) {
    |s.taken| == MAX_SWAP_SLOTS &&
    match step
    case Configure(_, sectors) => Unused(s.slots) && sectors >= SECTORS_PER_PAGE
    case Reserve(t, _, i) => t !in s.writers && FirstFree(s.slots, i) && DiskLba(s.disk, i).Some?
    case WriteSector(t, ok, _) =>
      && t in s.writers && s.writers[t].done < SECTORS_PER_PAGE && !s.writers[t].failed
      && (ok ==> s.writers[t].lba + s.writers[t].done < |s.device|)
    case Publish(t) => t in s.writers && s.writers[t].done == SECTORS_PER_PAGE && !s.writers[t].failed
    case Cancel(t) => t in s.writers
    case AllocateRam(_, i) => FirstFree(s.slots, i)
    case Share(_) => true
    case Release(_) => true
    case BeginRead(t, h) => t !in s.readers && Live(s.slots, h) && s.slots[h.index].backing == OnDisk &&
        DiskLba(s.disk, h.index).Some?
    case ReadSector(t) => t in s.readers && s.readers[t].done < SECTORS_PER_PAGE &&
        s.readers[t].lba + s.readers[t].done < |s.device|
    case EndRead(t) => t in s.readers
  }

  function Take(taken: seq<nat>, i: nat): seq<nat>
    requires i < |taken|
  {
    taken[i := taken[i] + 1]
  }

  ghost function Apply(s: State, step: Step): State
    requires Enabled(s, step)
  {
    match step
    case Configure(start, sectors) => s.(disk := Some(Backings(start, sectors)))
    case Reserve(t, bytes, i) =>
      var slot := ReservedSlot(s.slots[i]);
      s.(slots := s.slots[i := slot], taken := Take(s.taken, i),
         writers := s.writers[t := Writer(i, slot.generation, DiskLba(s.disk, i).value, bytes, 0, false)])
    case WriteSector(t, ok, left) =>
      var w := s.writers[t];
      s.(device := Stored(s.device, w.lba + w.done, if ok then SectorOf(w.bytes, w.done) else left),
         writers := s.writers[t := if ok then w.(done := w.done + 1) else w.(failed := true)])
    case Publish(t) =>
      var w := s.writers[t];
      s.(slots := PublishedSlots(s.slots, w.index, w.generation), writers := s.writers - {t},
         given := if w.index < MAX_SWAP_SLOTS then s.given[(w.index, s.taken[w.index]) := w.bytes] else s.given)
    case Cancel(t) =>
      var w := s.writers[t];
      s.(slots := CancelledSlots(s.slots, w.index, w.generation), writers := s.writers - {t})
    case AllocateRam(bytes, i) =>
      s.(slots := s.slots[i := RamSlot(s.slots[i], bytes)], taken := Take(s.taken, i),
      given := s.given[(i, s.taken[i] + 1) := bytes])
    case Share(h) => s.(slots := SharedSlots(s.slots, h))
    case Release(h) => s.(slots := ReleasedSlots(s.slots, h))
    case BeginRead(t, h) =>
      s.(readers := s.readers[t := Reader(h.index, s.taken[h.index], DiskLba(s.disk, h.index).value, [], 0)])
    case ReadSector(t) =>
      var r := s.readers[t];
      s.(readers := s.readers[t := r.(buffer := r.buffer + s.device[r.lba + r.done], done := r.done + 1)])
    case EndRead(t) => s.(readers := s.readers - {t})
  }

  // -------------------------------------------------------------- invariant

  /** What slot `i` is being used for. */
  ghost predicate SlotOk(s: State, i: nat)
    requires i < MAX_SWAP_SLOTS == |s.taken|
  {
    var slot := s.slots[i];
    && slot.generation == GenerationOf(s.taken[i])
    && (slot.occupied && slot.refcount > 0 ==>
          && (i, s.taken[i]) in s.given
          && var p := s.given[(i, s.taken[i])];
             if slot.backing == Ram then slot.data == p
             else DiskLba(s.disk, i).Some? && HoldsPage(s.device, DiskLba(s.disk, i).value, p, SECTORS_PER_PAGE))
  }

  ghost predicate WriterOk(s: State, t: nat)
    requires t in s.writers && |s.taken| == MAX_SWAP_SLOTS
  {
    var w := s.writers[t];
    && w.index < MAX_SWAP_SLOTS && w.generation > 0 && Pending(s.slots, w.index, w.generation)
    && DiskLba(s.disk, w.index) == Some(w.lba)
    && (w.done > 0 ==> HoldsPage(s.device, w.lba, w.bytes, w.done))
  }

  /** The `n`-th use of slot `i` holds a page with references. */
  ghost predicate InUse(s: State, i: nat, n: nat) {
    i < MAX_SWAP_SLOTS == |s.taken| && s.slots[i].occupied && s.slots[i].refcount > 0 && s.taken[i] == n
  }

  /** While the slot is still used as it was when the read began, what was read is its page's. */
  ghost predicate ReaderOk(s: State, t: nat)
    requires t in s.readers && |s.taken| == MAX_SWAP_SLOTS
  {
    var r := s.readers[t];
    && r.index < MAX_SWAP_SLOTS && r.taken <= s.taken[r.index] && r.done <= SECTORS_PER_PAGE
    && (s.slots[r.index].occupied && s.slots[r.index].refcount == 0 ==> r.taken < s.taken[r.index])
    && (InUse(s, r.index, r.taken) ==>
          && (r.index, r.taken) in s.given && s.slots[r.index].backing == OnDisk &&
             DiskLba(s.disk, r.index) == Some(r.lba)
          && r.buffer == s.given[(r.index, r.taken)][..r.done * SECTOR_SIZE])
  }

  ghost predicate Inv(s: State) {
    && |s.taken| == MAX_SWAP_SLOTS
    && (forall i: nat {:trigger s.slots[i]} :: i < MAX_SWAP_SLOTS ==> SlotOk(s, i))
    && (forall t {:trigger t in s.writers} :: t in s.writers ==> WriterOk(s, t))
    && (forall t, u {:trigger t in s.writers, u in s.writers} :: t in s.writers && u in s.writers && t != u ==>
       s.writers[t].index != s.writers[u].index)
    && (forall t {:trigger t in s.readers} :: t in s.readers ==> ReaderOk(s, t))
  }

  // --------------------------------------------------- every step keeps it

  /** Setting the disk up leaves the place of every page that is on its way there. */
  ghost predicate Settled(s: State, step: Step) {
    step.Configure? ==> forall t {:trigger t in s.writers} :: t in s.writers ==>
      DiskLba(Some(Backings(step.startLba, step.sectors)), s.writers[t].index) == Some(s.writers[t].lba)
  }

  lemma StoredElsewhere(device: seq<Sector>, at: nat, data: Sector, lba: nat, p: Page, n: nat)
    requires HoldsPage(device, lba, p, n) && !(lba <= at < lba + n)
    ensures HoldsPage(Stored(device, at, data), lba, p, n)
  {
  }

  lemma StoredNext(device: seq<Sector>, lba: nat, p: Page, n: nat)
    requires n < SECTORS_PER_PAGE && lba + n < |device| && (n > 0 ==> HoldsPage(device, lba, p, n))
    ensures HoldsPage(Stored(device, lba + n, SectorOf(p, n)), lba, p, n + 1)
  {
  }

  /** Different slots have different places on the disk. */
  lemma PlacesApart(disk: Option<DiskBacking>, i: nat, j: nat, k: nat)
    requires DiskLba(disk, i).Some? && DiskLba(disk, j).Some? && i != j && k < SECTORS_PER_PAGE
    ensures var at := DiskLba(disk, j).value + k; var lba := DiskLba(disk, i).value;
            !(lba <= at < lba + SECTORS_PER_PAGE)
  {
  }

  lemma SlotSurvivesWrite(s: State, step: Step, i: nat)
    requires |s.taken| == MAX_SWAP_SLOTS && step.WriteSector? && Enabled(s, step) && i < MAX_SWAP_SLOTS &&
             SlotOk(s, i) && WriterOk(s, step.task)
    ensures SlotOk(Apply(s, step), i)
  {
    var w, slot := s.writers[step.task], s.slots[i];
    if slot.occupied && slot.refcount > 0 && slot.backing == OnDisk {
      PlacesApart(s.disk, i, w.index, w.done);
      StoredElsewhere(s.device, w.lba + w.done, if step.ok then SectorOf(w.bytes, w.done) else step.left,
                      DiskLba(s.disk, i).value, s.given[(i, s.taken[i])], SECTORS_PER_PAGE);
    }
  }

  lemma SlotKept(s: State, step: Step, i: nat)
    requires Inv(s) && Enabled(s, step) && Settled(s, step) && i < MAX_SWAP_SLOTS
    ensures |Apply(s, step).taken| == MAX_SWAP_SLOTS && SlotOk(Apply(s, step), i)
  {
    NextGenerationCounts(s.taken[i]);
    assert SlotOk(s, i);
    match step {
      case WriteSector(t, ok, left) => assert WriterOk(s, t); SlotSurvivesWrite(s, step, i);
      case Publish(t) => assert WriterOk(s, t);
      case Cancel(t) => assert WriterOk(s, t);
      case _ =>
    }
  }

  lemma WriterSurvivesWrite(s: State, step: Step, t: nat)
    requires |s.taken| == MAX_SWAP_SLOTS && step.WriteSector? && Enabled(s, step) && t in s.writers && WriterOk(s, t) &&
             WriterOk(s, step.task)
    requires t != step.task ==> s.writers[t].index != s.writers[step.task].index
    ensures WriterOk(Apply(s, step), t)
  {
    var v, w := s.writers[t], s.writers[step.task];
    var data := if step.ok then SectorOf(w.bytes, w.done) else step.left;
    if t == step.task {
      if step.ok { StoredNext(s.device, w.lba, w.bytes, w.done); }
      else if w.done > 0 { StoredElsewhere(s.device, w.lba + w.done, data, w.lba, w.bytes, w.done); }
    } else if v.done > 0 {
      PlacesApart(s.disk, v.index, w.index, w.done);
      StoredElsewhere(s.device, w.lba + w.done, data, v.lba, v.bytes, v.done);
    }
  }

  lemma WriterKept(s: State, step: Step, t: nat)
    requires Inv(s) && Enabled(s, step) && Settled(s, step) && t in Apply(s, step).writers
    ensures |Apply(s, step).taken| == MAX_SWAP_SLOTS && WriterOk(Apply(s, step), t)
  {
    if t in s.writers {
      assert WriterOk(s, t);
      match step {
        case WriteSector(u, ok, left) => assert WriterOk(s, u); WriterSurvivesWrite(s, step, t);
        case Publish(u) => assert WriterOk(s, u);
        case Cancel(u) => assert WriterOk(s, u);
        case _ =>
      }
    }
  }

  lemma BufferGrows(s: State, t: nat)
    requires |s.taken| == MAX_SWAP_SLOTS && Enabled(s, ReadSector(t)) && ReaderOk(s, t) && SlotOk(s, s.readers[t].index)
    ensures ReaderOk(Apply(s, ReadSector(t)), t)
  {
    var r := s.readers[t];
    if InUse(s, r.index, r.taken) {
      var p := s.given[(r.index, r.taken)];
      NextSector(p, r.done);
      assert s.device[r.lba + r.done] == SectorOf(p, r.done);
    }
  }

  lemma ReaderKept(s: State, step: Step, t: nat)
    requires Inv(s) && Enabled(s, step) && Settled(s, step) && t in Apply(s, step).readers
    ensures |Apply(s, step).taken| == MAX_SWAP_SLOTS && ReaderOk(Apply(s, step), t)
  {
    if step.BeginRead? && step.task == t {
      assert SlotOk(s, step.h.index);
    } else {
      var r := s.readers[t];
      assert ReaderOk(s, t) && SlotOk(s, r.index);
      match step {
        case ReadSector(u) => if u == t { BufferGrows(s, t); }
        case Publish(u) => assert WriterOk(s, u);
        case Cancel(u) => assert WriterOk(s, u);
        case _ =>
      }
    }
  }

  lemma WritersApart(s: State, step: Step, t: nat, u: nat)
    requires Inv(s) && Enabled(s, step) && t != u && t in Apply(s, step).writers && u in Apply(s, step).writers
    ensures Apply(s, step).writers[t].index != Apply(s, step).writers[u].index
  {
    if t in s.writers { assert WriterOk(s, t); }
    if u in s.writers { assert WriterOk(s, u); }
  }

  /** Every step of every task keeps the invariant, if and only if it leaves the places of pages that are on their
      way. */
  lemma StepKeepsInv(s: State, step: Step)
    requires Inv(s) && Enabled(s, step)
    ensures Inv(Apply(s, step)) <==> Settled(s, step)
  {
    var s' := Apply(s, step);
    if Settled(s, step) {
      forall i: nat | i < MAX_SWAP_SLOTS ensures |s'.taken| == MAX_SWAP_SLOTS && SlotOk(s', i) { SlotKept(s, step, i); }
      forall t | t in s'.writers ensures WriterOk(s', t) { WriterKept(s, step, t); }
      forall t, u | t in s'.writers && u in s'.writers && t != u ensures s'.writers[t].index != s'.writers[u].index {
        WritersApart(s, step, t, u);
      }
      forall t | t in s'.readers ensures ReaderOk(s', t) { ReaderKept(s, step, t); }
    } else {
      var t :| t in s.writers && DiskLba(s'.disk, s.writers[t].index) != Some(s.writers[t].lba);
      assert !WriterOk(s', t);
    }
  }

  // -------------------------------------------------------------- every run

  ghost predicate Initial(s: State) {
    && (forall i {:trigger s.slots[i]} :: 0 <= i < MAX_SWAP_SLOTS ==> s.slots[i] == EMPTY_SLOT)
    && s.disk.None? && s.writers == map[] && s.readers == map[] && s.taken == seq(MAX_SWAP_SLOTS, _ => 0) &&
       s.given == map[]
  }

  /** Each state follows from the one before by an enabled step. */
  ghost predicate IsPath(run: seq<State>, steps: seq<Step>) {
    && |run| == |steps| + 1
    && forall k {:trigger steps[k]} :: 0 <= k < |steps| ==>
         Enabled(run[k], steps[k]) && run[k + 1] == Apply(run[k], steps[k])
  }

  ghost predicate AllSettled(run: seq<State>, steps: seq<Step>) {
    |run| == |steps| + 1 && forall k {:trigger steps[k]} :: 0 <= k < |steps| ==> Settled(run[k], steps[k])
  }

  ghost predicate IsRun(run: seq<State>, steps: seq<Step>) {
    IsPath(run, steps) && Initial(run[0]) && AllSettled(run, steps)
  }

  lemma InitialInv(s: State)
    requires Initial(s)
    ensures Inv(s)
  {
    forall i: nat | i < MAX_SWAP_SLOTS ensures SlotOk(s, i) { assert s.taken[i] == 0; }
  }

  lemma {:induction false} InvInEveryRun(run: seq<State>, steps: seq<Step>, k: nat)
    requires IsRun(run, steps) && k < |run|
    ensures Inv(run[k])
  {
    if k == 0 {
      InitialInv(run[0]);
    } else {
      InvInEveryRun(run, steps, k - 1);
      var step := steps[k - 1];
      StepKeepsInv(run[k - 1], step);
    }
  }

  /** The invariant holds throughout if and only if the disk is never set up so that a page on its way loses its
      place. */
  lemma InvThroughoutIff(run: seq<State>, steps: seq<Step>)
    requires IsPath(run, steps) && Initial(run[0])
    ensures (forall k {:trigger run[k]} :: 0 <= k < |run| ==> Inv(run[k])) <==> AllSettled(run, steps)
  {
    if AllSettled(run, steps) {
      forall k | 0 <= k < |run| ensures Inv(run[k]) { InvInEveryRun(run, steps, k); }
    }
    if forall k {:trigger run[k]} :: 0 <= k < |run| ==> Inv(run[k]) {
      forall k | 0 <= k < |steps| ensures Settled(run[k], steps[k]) {
        var step := steps[k];
        assert Inv(run[k]) && Inv(run[k + 1]);
        StepKeepsInv(run[k], step);
      }
    }
  }

  /** A finished transfer always finds its reservation pending, so publishing never refuses. */
  lemma PublishSucceeds(run: seq<State>, steps: seq<Step>, k: nat)
    requires IsRun(run, steps) && k < |steps| && steps[k].Publish?
    ensures var w := run[k].writers[steps[k].task];
            Live(run[k + 1].slots, Handle(w.index, w.generation)) && InUse(run[k + 1], w.index, run[k].taken[w.index])
  {
    InvInEveryRun(run, steps, k);
    assert WriterOk(run[k], steps[k].task);
  }

  /** At step `a` a page was allocated in slot `i`: in memory, or on disk once its transfer is through. */
  ghost predicate Allocates(run: seq<State>, steps: seq<Step>, a: nat, i: nat, bytes: Page) {
    && a < |steps| && |run| == |steps| + 1 && i < MAX_SWAP_SLOTS
    && match steps[a]
       case AllocateRam(p, slot) => p == bytes && slot == i
       case Publish(t) => t in run[a].writers && run[a].writers[t].index == i && run[a].writers[t].bytes == bytes
       case _ => false
  }

  /** How often slot `i` has been taken. */
  ghost function UseOf(s: State, i: nat): nat {
    if i < |s.taken| then s.taken[i] else 0
  }

  /** Use `n` of slot `i` is over, or still has its bytes. */
  ghost predicate Kept(s: State, i: nat, n: nat, bytes: Page) {
    && |s.taken| == MAX_SWAP_SLOTS && i < MAX_SWAP_SLOTS && n <= s.taken[i]
    && (i, n) in s.given && s.given[(i, n)] == bytes
    && (s.taken[i] == n ==> InUse(s, i, n) || !s.slots[i].occupied)
  }

  lemma KeptStep(s: State, step: Step, i: nat, n: nat, bytes: Page)
    requires Inv(s) && Enabled(s, step) && Kept(s, i, n, bytes)
    ensures Kept(Apply(s, step), i, n, bytes)
    ensures InUse(Apply(s, step), i, n) ==> InUse(s, i, n)
  {
    if step.Publish? || step.Cancel? { assert WriterOk(s, step.task); }
  }

  lemma AllocatedNow(s: State, step: Step, i: nat, bytes: Page)
    requires Inv(s) && Enabled(s, step) && Allocates([s, Apply(s, step)], [step], 0, i, bytes)
    ensures Kept(Apply(s, step), i, UseOf(Apply(s, step), i), bytes) &&
            InUse(Apply(s, step), i, UseOf(Apply(s, step), i))
    ensures 1 <= UseOf(Apply(s, step), i)
  {
    assert SlotOk(s, i);
    if step.Publish? { assert WriterOk(s, step.task); }
  }

  /** What a use of a slot was given never changes, and a use that is over stays over. */
  lemma {:induction false} KeptInEveryRun(run: seq<State>, steps: seq<Step>, a: nat, k: nat, i: nat, bytes: Page)
    requires IsRun(run, steps) && Allocates(run, steps, a, i, bytes) && a < k < |run|
    ensures Inv(run[a + 1]) && 1 <= UseOf(run[a + 1], i) && InUse(run[a + 1], i, UseOf(run[a + 1], i))
    ensures Kept(run[k], i, UseOf(run[a + 1], i), bytes)
  {
    InvInEveryRun(run, steps, a);
    InvInEveryRun(run, steps, a + 1);
    if k == a + 1 {
      AllocatedNow(run[a], steps[a], i, bytes);
    } else {
      KeptInEveryRun(run, steps, a, k - 1, i, bytes);
      InvInEveryRun(run, steps, k - 1);
      var step := steps[k - 1];
      KeptStep(run[k - 1], step, i, UseOf(run[a + 1], i), bytes);
    }
  }

  /** While its handle has references, a page in memory is the one that was given. */
  lemma MemoryKeepsPage(run: seq<State>, steps: seq<Step>, a: nat, k: nat, i: nat, bytes: Page)
    requires IsRun(run, steps) && Allocates(run, steps, a, i, bytes) && a < k < |run|
    requires InUse(run[k], i, UseOf(run[a + 1], i)) && run[k].slots[i].backing == Ram
    ensures run[k].slots[i].data == bytes
  {
    KeptInEveryRun(run, steps, a, k, i, bytes);
    InvInEveryRun(run, steps, k);
    assert SlotOk(run[k], i);
  }

  /** A read under way keeps to the slot and the use it began with. */
  lemma {:induction false} ReaderStays(run: seq<State>, steps: seq<Step>, j: nat, k: nat, t: nat, h: Handle)
    requires IsRun(run, steps) && j < k < |run| && steps[j] == BeginRead(t, h)
    requires forall m {:trigger steps[m]} :: j < m < k ==> steps[m] != EndRead(t)
    ensures t in run[k].readers && run[k].readers[t].index == h.index &&
            run[k].readers[t].taken == UseOf(run[j], h.index)
  {
    if k == j + 1 {
      assert Enabled(run[j], steps[j]);
    } else {
      ReaderStays(run, steps, j, k - 1, t, h);
      var step := steps[k - 1];
      assert Enabled(run[k - 1], step) && run[k] == Apply(run[k - 1], step);
    }
  }

  lemma {:induction false} TakenGrows(run: seq<State>, steps: seq<Step>, j: nat, k: nat, i: nat)
    requires IsRun(run, steps) && j <= k < |run|
    ensures UseOf(run[j], i) <= UseOf(run[k], i)
  {
    if j < k {
      TakenGrows(run, steps, j, k - 1, i);
      var step := steps[k - 1];
      assert Enabled(run[k - 1], step) && run[k] == Apply(run[k - 1], step);
    }
  }

  /** A page read back from disk is the one its handle was given, however other reservations,
      transfers and releases interleave, if the handle still has references at the end. */
  lemma ReadsWhatWasGiven(run: seq<State>, steps: seq<Step>, a: nat, j: nat, k: nat, t: nat, h: Handle, bytes: Page)
    requires IsRun(run, steps) && Allocates(run, steps, a, h.index, bytes) && a < j < k < |run|
    requires steps[j] == BeginRead(t, h) && forall m {:trigger steps[m]} :: j < m < k ==> steps[m] != EndRead(t)
    requires t in run[k].readers && run[k].readers[t].done == SECTORS_PER_PAGE
    requires InUse(run[k], h.index, UseOf(run[a + 1], h.index))
    ensures run[k].readers[t].buffer == bytes
  {
    KeptInEveryRun(run, steps, a, k, h.index, bytes);
    ReaderStays(run, steps, j, k, t, h);
    TakenGrows(run, steps, a + 1, j, h.index);
    TakenGrows(run, steps, j, k, h.index);
    InvInEveryRun(run, steps, k);
    assert ReaderOk(run[k], t);
    assert bytes[..SECTORS_PER_PAGE * SECTOR_SIZE] == bytes;
  }

  /** A handle names a live page if and only if its slot holds one and a whole number of
      rounds of generations has passed since the handle was made. So once its own page is
      fully released it reads nothing until the generation wraps. */
  lemma LiveIff(run: seq<State>, steps: seq<Step>, a: nat, k: nat, h: Handle, bytes: Page)
    requires IsRun(run, steps) && Allocates(run, steps, a, h.index, bytes) && a < k < |run|
    requires h.generation == run[a + 1].slots[h.index].generation
    ensures UseOf(run[a + 1], h.index) <= UseOf(run[k], h.index)
    ensures Live(run[k].slots, h) <==>
      InUse(run[k], h.index, UseOf(run[k], h.index)) &&
      (UseOf(run[k], h.index) - UseOf(run[a + 1], h.index)) % GENERATIONS == 0
  {
    KeptInEveryRun(run, steps, a, k, h.index, bytes);
    InvInEveryRun(run, steps, k);
    assert SlotOk(run[a + 1], h.index) && SlotOk(run[k], h.index);
    SameGenerationIff(UseOf(run[a + 1], h.index), UseOf(run[k], h.index));
  }

  // ------------------------------------------- setting the disk up in flight

  /** A page whose place moved while it was on its way is published all the same, and reads as
      whatever lies at the new place. */
  lemma MovedPageIsLost(s: State, start: nat, sectors: nat, t: nat, found: Page)
    requires Inv(s) && Enabled(s, Configure(start, sectors)) && Enabled(s, Publish(t))
    requires var lba := DiskLba(Some(Backings(start, sectors)), s.writers[t].index);
             lba.Some? && lba.value != s.writers[t].lba && HoldsPage(s.device, lba.value, found, SECTORS_PER_PAGE)
    ensures var s' := Apply(Apply(s, Configure(start, sectors)), Publish(t)); var w := s.writers[t];
            && Live(s'.slots, Handle(w.index, w.generation)) && s'.given[(w.index, UseOf(s', w.index))] == w.bytes
            && HoldsPage(s'.device, DiskLba(s'.disk, w.index).value, found, SECTORS_PER_PAGE)
  {
    assert WriterOk(s, t);
  }
}
