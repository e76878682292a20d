/** The operations on the slot table and the device as steps of the swapping tasks. */
module SwapSteps {
  import opened Bytes
  import opened BlockCache
  import opened Swap
  import opened SwapRuns

  // ------------------------------------------------------------------ paths

  ghost predicate Leads(run: seq<State>, steps: seq<Step>, s: State, s': State) {
    IsPath(run, steps) && AllSettled(run, steps) && run[0] == s && run[|steps|] == s'
  }

  /** Some steps that leave the places of pages on their way lead from `s` to `s'`. */
  ghost predicate Reaches(s: State, s': State) {
    exists run, steps :: Leads(run, steps, s, s')
  }

  lemma ReachesSelf(s: State)
    ensures Reaches(s, s)
  {
    assert Leads([s], [], s, s);
  }

  lemma ReachesOn(s: State, s': State, step: Step)
    requires Reaches(s, s') && Enabled(s', step) && Settled(s', step)
    ensures Reaches(s, Apply(s', step))
  {
    var run, steps :| Leads(run, steps, s, s');
    assert Leads(run + [Apply(s', step)], steps + [step], s, Apply(s', step));
  }

  lemma {:induction false} ReachesAlong(s: State, run: seq<State>, steps: seq<Step>, k: nat)
    requires IsPath(run, steps) && AllSettled(run, steps) && Reaches(s, run[0]) && k <= |steps|
    ensures Reaches(s, run[k])
  {
    if k > 0 {
      ReachesAlong(s, run, steps, k - 1);
      var step := steps[k - 1];
      ReachesOn(s, run[k - 1], step);
    }
  }

  lemma ReachesFurther(s: State, s': State, s'': State)
    requires Reaches(s, s') && Reaches(s', s'')
    ensures Reaches(s, s'')
  {
    var run, steps :| Leads(run, steps, s', s'');
    ReachesAlong(s, run, steps, |steps|);
  }

  lemma {:induction false} PathKeepsInv(run: seq<State>, steps: seq<Step>, k: nat)
    requires IsPath(run, steps) && AllSettled(run, steps) && Inv(run[0]) && k <= |steps|
    ensures Inv(run[k])
  {
    if k > 0 {
      PathKeepsInv(run, steps, k - 1);
      var step := steps[k - 1];
      StepKeepsInv(run[k - 1], step);
    }
  }

  lemma ReachesInv(s: State, s': State)
    requires Reaches(s, s') && Inv(s)
    ensures Inv(s')
  {
    var run, steps :| Leads(run, steps, s, s');
    PathKeepsInv(run, steps, |steps|);
  }

  /** The state once the writer has `n` sectors through. */
  ghost function Wrote(s: State, t: nat, n: nat): State
    requires t in s.writers && n <= SECTORS_PER_PAGE
  {
    var w := s.writers[t];
    s.(device := Written(s.device, w.lba, w.bytes, n), writers := s.writers[t := w.(done := n)])
  }

  lemma {:induction false} WriterAdvances(s: State, t: nat, n: nat)
    requires |s.taken| == MAX_SWAP_SLOTS && t in s.writers && s.writers[t].done == 0 && !s.writers[t].failed
    requires n <= SECTORS_PER_PAGE && (n > 0 ==> s.writers[t].lba + n <= |s.device|)
    ensures Reaches(s, Wrote(s, t, n))
  {
    if n == 0 {
      assert s.writers[t := s.writers[t]] == s.writers;
      ReachesSelf(s);
    } else {
      WriterAdvances(s, t, n - 1);
      var step := SwapRuns.Step.WriteSector(t, true, Zeros(SECTOR_SIZE));
      var before, w := Wrote(s, t, n - 1), s.writers[t];
      ReachesOn(s, before, step);
      assert before.writers[t := w.(done := n)] == s.writers[t := w.(done := n)];
    }
  }

  // ------------------------------------------------------------- operations

  /** The table and the device as the state has them. */
  ghost predicate InState(swap: SwapState, device: CachedDevice, s: State)
    reads swap, device
  {
    device.Valid() && swap.slots == s.slots && swap.disk == s.disk && device.view == s.device &&
    |s.taken| == MAX_SWAP_SLOTS
  }

  /** The page a handle's slot was given at its present use. */
  ghost function GivenTo(s: State, h: Handle): Option<Page> {
    if (h.index, UseOf(s, h.index)) in s.given then Some(s.given[(h.index, UseOf(s, h.index))]) else None
  }

  method ConfigureStep(swap: SwapState, device: CachedDevice, start: nat, sectors: nat, ghost s: State)
    returns (r: Option<nat>)
    requires InState(swap, device, s)
    modifies swap`disk
    ensures r.Some? <==> Enabled(s, Configure(start, sectors))
    ensures InState(swap, device, if r.Some? then Apply(s, Configure(start, sectors)) else s)
  {
    r := swap.ConfigureDisk(start, sectors);
  }

  method ShareStep(swap: SwapState, device: CachedDevice, h: Handle, ghost s: State) returns (ok: bool)
    requires InState(swap, device, s)
    modifies swap`slots
    ensures InState(swap, device, Apply(s, SwapRuns.Step.Share(h))) && (ok ==> Live(s.slots, h))
  {
    ok := swap.Share(h);
  }

  method ReleaseStep(swap: SwapState, device: CachedDevice, h: Handle, ghost s: State) returns (ok: bool)
    requires InState(swap, device, s)
    modifies swap`slots
    ensures InState(swap, device, Apply(s, SwapRuns.Step.Release(h))) && (ok <==> Live(s.slots, h))
  {
    ok := swap.Release(h);
  }

  /** The page goes to its place outside the lock: as many writer's steps as sectors were tried. */
  method TransferOut(device: CachedDevice, present: bool, bytes: Page, lba: nat, ghost t: nat, ghost s: State)
    returns (wrote: bool, ghost s': State)
    requires device.Valid() && device.view == s.device && |s.taken| == MAX_SWAP_SLOTS
    requires t in s.writers && s.writers[t].lba == lba && s.writers[t].bytes == bytes && s.writers[t].done == 0 &&
             !s.writers[t].failed
    modifies device
    ensures device.Valid() && device.view == s'.device && Reaches(s, s') && t in s'.writers
    ensures s' == s.(device := s'.device, writers := s.writers[t := s'.writers[t]])
    ensures s'.writers[t] == s.writers[t].(done := s'.writers[t].done, failed := s'.writers[t].failed)
    ensures wrote ==> Enabled(s', Publish(t))
  {
    ReachesSelf(s);
    s' := s;
    wrote := false;
    assert s.writers[t := s.writers[t]] == s.writers;
    if present {
      ghost var done, left;
      var r;
      r, done, left := WritePage(device, lba, bytes);
      WriterAdvances(s, t, done);
      s' := Wrote(s, t, done);
      if r.Err? {
        ReachesOn(s, s', SwapRuns.Step.WriteSector(t, false, left));
        s' := Apply(s', SwapRuns.Step.WriteSector(t, false, left));
      } else {
        var f := device.Flush();
        wrote := f.Ok?;
      }
    }
  }

  /** A writer's reservation, its transfer, and what ends it. */
  lemma WholeTransfer(s: State, t: nat, bytes: Page, i: nat, s1: State, s2: State, end: Step)
    requires Inv(s) && Enabled(s, Reserve(t, bytes, i)) && s1 == Apply(s, Reserve(t, bytes, i)) && Reaches(s1, s2)
    requires (end == Publish(t) || end == Cancel(t)) && Enabled(s2, end)
    requires t in s2.writers && s2 == s1.(device := s2.device, writers := s1.writers[t := s2.writers[t]])
    requires s2.writers[t] == s1.writers[t].(done := s2.writers[t].done, failed := s2.writers[t].failed)
    ensures Reaches(s, Apply(s2, end)) && Inv(Apply(s2, end)) && Pending(s2.slots, i, s1.slots[i].generation)
    ensures Apply(s2, end).writers == s.writers && Apply(s2, end).readers == s.readers
  {
    ReachesSelf(s);
    ReachesOn(s, s, Reserve(t, bytes, i));
    ReachesFurther(s, s1, s2);
    ReachesOn(s, s2, end);
    ReachesInv(s, Apply(s2, end));
    ReachesInv(s, s2);
    assert WriterOk(s2, t);
    assert s.writers[t := s1.writers[t]][t := s2.writers[t]] - {t} == s.writers;
  }

  /** Memory takes the page when the disk does not, unless every slot is taken. */
  method AllocateInMemory(swap: SwapState, device: CachedDevice, bytes: Page, ghost s: State)
    returns (h: Option<Handle>, ghost s': State)
    requires InState(swap, device, s) && Inv(s)
    modifies swap`slots
    ensures InState(swap, device, s') && Inv(s') && Reaches(s, s') && s'.writers == s.writers && s'.readers == s.readers
    ensures h.Some? ==>
              Live(s'.slots, h.value) && GivenTo(s', h.value) == Some(bytes) && !s.slots[h.value.index].occupied
    ensures h.None? ==> s' == s && Full(s.slots)
  {
    ReachesSelf(s);
    s' := s;
    h := swap.AllocateRam(bytes);
    if h.Some? {
      ghost var step := SwapRuns.Step.AllocateRam(bytes, h.value.index);
      ReachesOn(s, s, step);
      StepKeepsInv(s, step);
      s' := Apply(s, step);
    }
  }

  /** A slot on the disk takes the page, or nothing stays reserved. */
  method AllocateOnDisk(swap: SwapState, device: CachedDevice, present: bool, bytes: Page, ghost t: nat, ghost s: State)
    returns (h: Option<Handle>, ghost s': State)
    requires InState(swap, device, s) && Inv(s) && t !in s.writers
    modifies swap`slots, device
    ensures InState(swap, device, s') && Inv(s') && Reaches(s, s') && s'.writers == s.writers && s'.readers == s.readers
    ensures h.Some? ==> Live(s'.slots, h.value) && GivenTo(s', h.value) == Some(bytes) && !Full(s.slots)
    ensures h.None? ==> (Full(s'.slots) <==> Full(s.slots))
  {
    ReachesSelf(s);
    var reserved := swap.ReserveDisk();
    if reserved.None? { return None, s; }
    var i, generation, lba := reserved.value.0, reserved.value.1, reserved.value.2;
    assert !s.slots[i].occupied;
    ghost var s1 := Apply(s, Reserve(t, bytes, i));
    var wrote;
    ghost var s2;
    wrote, s2 := TransferOut(device, present, bytes, lba, t, s1);
    if wrote {
      WholeTransfer(s, t, bytes, i, s1, s2, Publish(t));
      s' := Apply(s2, Publish(t));
      h := swap.PublishReservedDisk(i, generation);
    } else {
      WholeTransfer(s, t, bytes, i, s1, s2, Cancel(t));
      s' := Apply(s2, Cancel(t));
      swap.CancelReserved(i, generation);
      assert !s'.slots[i].occupied;
      h := None;
    }
  }

  /** A page is taken in by the disk if all goes well there, and by memory otherwise; either way the handle is
      live and its slot was given these bytes. It is refused only when every slot is taken. */
  method AllocatePage(swap: SwapState, device: CachedDevice, present: bool, bytes: Page, ghost t: nat, ghost s: State)
    returns (h: Option<Handle>, ghost s': State)
    requires InState(swap, device, s) && Inv(s) && t !in s.writers
    modifies swap`slots, device
    ensures InState(swap, device, s') && Inv(s') && Reaches(s, s') && s'.writers == s.writers && s'.readers == s.readers
    ensures h.Some? ==> Live(s'.slots, h.value) && GivenTo(s', h.value) == Some(bytes)
    ensures h.None? <==> Full(s.slots)
  {
    h, s' := AllocateOnDisk(swap, device, present, bytes, t, s);
    if h.None? {
      ghost var s1 := s';
      h, s' := AllocateInMemory(swap, device, bytes, s1);
      ReachesFurther(s, s1, s');
    }
  }

  /** A page is read back as it was given, from memory or from the disk; a handle that is not live reads nothing. */
  method FetchPage(swap: SwapState, device: CachedDevice, present: bool, h: Handle, ghost s: State)
    returns (r: Option<Page>)
    requires InState(swap, device, s) && Inv(s)
    modifies device
    ensures InState(swap, device, s)
    ensures !Live(s.slots, h) ==> r.None?
    ensures Live(s.slots, h) && s.slots[h.index].backing == Ram ==> r.Some?
    ensures r.Some? ==> r == GivenTo(s, h)
  {
    if !Live(swap.slots, h) { return None; }
    var slot := swap.slots[h.index];
    assert SlotOk(s, h.index);
    if slot.backing == Ram { return Some(slot.data); }
    var lba := DiskLba(swap.disk, h.index);
    if lba.None? || !present { return None; }
    var page := ReadPage(device, lba.value);
    if page.Err? { return None; }
    PageIsUnique(s.device, lba.value, page.value, s.given[(h.index, s.taken[h.index])]);
    return Some(page.value);
  }

  // --------------------------------------------------- a run that loses a page

  lemma {:induction false} WrittenElsewhere(device: seq<Sector>, lba: nat, bytes: Page, n: nat, at: nat)
    requires n <= SECTORS_PER_PAGE && at < |device| && !(lba <= at < lba + n)
    ensures Written(device, lba, bytes, n)[at] == device[at]
  {
    if n > 0 { WrittenElsewhere(device, lba, bytes, n - 1, at); }
  }

  /** Boot with an empty device of 16 sectors, set up one slot at its beginning, and begin a transfer there. */
  lemma TransferUnderWay(bytes: Page) returns (s0: State, s: State)
    ensures Initial(s0) && s0.device == seq(16, _ => Zeros(SECTOR_SIZE)) && Reaches(s0, s)
    ensures Unused(s.slots) && s.writers == map[0 := Writer(0, 1, 0, bytes, 0, false)] && s.device == s0.device &&
            |s.taken| == MAX_SWAP_SLOTS
  {
    s0 := State(seq(32, _ => EMPTY_SLOT), None, seq(16, _ => Zeros(SECTOR_SIZE)), map[], map[],
        seq(MAX_SWAP_SLOTS, _ => 0), map[]);
    ReachesSelf(s0);
    ReachesOn(s0, s0, Configure(0, 8));
    var s1 := Apply(s0, Configure(0, 8));
    assert DiskLba(s1.disk, 0) == Some(0) && FirstFree(s1.slots, 0);
    ReachesOn(s0, s1, Reserve(0, bytes, 0));
    s := Apply(s1, Reserve(0, bytes, 0));
  }

  lemma ZerosBehind(bytes: Page)
    ensures HoldsPage(Written(seq(16, _ => Zeros(SECTOR_SIZE)), 0, bytes, SECTORS_PER_PAGE), 8, Zeros(PAGE_SIZE),
            SECTORS_PER_PAGE)
  {
    var device := seq(16, _ => Zeros(SECTOR_SIZE));
    forall k | 0 <= k < SECTORS_PER_PAGE ensures Written(device, 0, bytes, SECTORS_PER_PAGE)[8 + k] ==
        SectorOf(Zeros(PAGE_SIZE), k) {
      WrittenElsewhere(device, 0, bytes, SECTORS_PER_PAGE, 8 + k);
    }
  }

  /** From boot, a run whose disk is set up again while a page is on its way: the page is published,
      its handle is live, and its place holds something else. */
  lemma PageIsLostInARun(bytes: Page) returns (s0: State, s: State)
    requires bytes != Zeros(PAGE_SIZE)
    ensures Initial(s0) && Reaches(s0, s) && Enabled(s, Configure(8, 8)) && !Settled(s, Configure(8, 8))
    ensures var s' := Apply(s, Configure(8, 8));
            && Enabled(s', Publish(0)) && Live(Apply(s', Publish(0)).slots, Handle(0, 1))
            && GivenTo(Apply(s', Publish(0)), Handle(0, 1)) == Some(bytes)
            && DiskLba(Apply(s', Publish(0)).disk, 0).Some?
            && !HoldsPage(Apply(s', Publish(0)).device, DiskLba(Apply(s', Publish(0)).disk, 0).value, bytes,
               SECTORS_PER_PAGE)
  {
    var s2;
    s0, s2 := TransferUnderWay(bytes);
    WriterAdvances(s2, 0, SECTORS_PER_PAGE);
    s := Wrote(s2, 0, SECTORS_PER_PAGE);
    ReachesFurther(s0, s2, s);
    InitialInv(s0);
    ReachesInv(s0, s);
    ZerosBehind(bytes);
    MovedPageIsLost(s, 8, 8, 0, Zeros(PAGE_SIZE));
    var s' := Apply(Apply(s, Configure(8, 8)), Publish(0));
    if HoldsPage(s'.device, 8, bytes, SECTORS_PER_PAGE) { PageIsUnique(s'.device, 8, bytes, Zeros(PAGE_SIZE)); }
  }
}
