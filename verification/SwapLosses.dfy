/** Runs from boot in which a handle reads what it was not given: its last reference goes during a read,
    or its generation comes round again. */
module SwapLosses {
  import opened Bytes
  import opened Swap
  import opened SwapRuns
  import opened SwapSteps

  // ------------------------------------------------ a slot reused during a read

  /** The state once the reader has `n` sectors of `bytes`. */
  ghost function Fetched(s: State, t: nat, bytes: Page, n: nat): State
    requires t in s.readers && n <= SECTORS_PER_PAGE
  {
    s.(readers := s.readers[t := s.readers[t].(buffer := bytes[..n * SECTOR_SIZE], done := n)])
  }

  lemma {:induction false} ReaderAdvances(s: State, t: nat, bytes: Page, n: nat)
    requires |s.taken| == MAX_SWAP_SLOTS && t in s.readers && s.readers[t].done == 0 && s.readers[t].buffer == []
    requires n <= SECTORS_PER_PAGE && HoldsPage(s.device, s.readers[t].lba, bytes, SECTORS_PER_PAGE)
    ensures Reaches(s, Fetched(s, t, bytes, n))
  {
    if n == 0 {
      assert s.readers[t := s.readers[t].(buffer := bytes[..0], done := 0)] == s.readers;
      ReachesSelf(s);
    } else {
      ReaderAdvances(s, t, bytes, n - 1);
      var before, r := Fetched(s, t, bytes, n - 1), s.readers[t];
      var step := SwapRuns.Step.ReadSector(t);
      ReachesOn(s, before, step);
      NextSector(bytes, n - 1);
      assert s.device[r.lba + (n - 1)] == SectorOf(bytes, n - 1);
      var now := r.(buffer := bytes[..n * SECTOR_SIZE], done := n);
      assert before.readers[t := now] == s.readers[t := now];
    }
  }

  /** Slot 0 has a place at the beginning of the device. */
  ghost predicate Placed(s: State) {
    |s.taken| == MAX_SWAP_SLOTS && DiskLba(s.disk, 0) == Some(0) && |s.device| >= SECTORS_PER_PAGE && 0 !in s.writers
  }

  /** Slot 0 holds a page of the device, which it was given. */
  ghost predicate Holding(s: State, bytes: Page) {
    && Placed(s) && s.slots[0].occupied && s.slots[0].refcount == 1 && s.slots[0].backing == OnDisk
    && (0, s.taken[0]) in s.given && s.given[(0, s.taken[0])] == bytes
    && HoldsPage(s.device, 0, bytes, SECTORS_PER_PAGE)
  }

  /** A page is reserved, written and published in slot 0. */
  lemma PageStored(s: State, bytes: Page) returns (s': State)
    requires Placed(s) && !s.slots[0].occupied
    ensures Reaches(s, s') && Holding(s', bytes) && s'.disk == s.disk && s'.readers == s.readers
    ensures s'.taken == Take(s.taken, 0) && s'.slots[0].generation == NextGeneration(s.slots[0].generation)
  {
    var reserve := Reserve(0, bytes, 0);
    assert FirstFree(s.slots, 0);
    var s1 := Apply(s, reserve);
    ReachesSelf(s);
    ReachesOn(s, s, reserve);
    WriterAdvances(s1, 0, SECTORS_PER_PAGE);
    var s2 := Wrote(s1, 0, SECTORS_PER_PAGE);
    ReachesFurther(s, s1, s2);
    WrittenHolds(s1.device, 0, bytes, SECTORS_PER_PAGE);
    ReachesOn(s, s2, Publish(0));
    s' := Apply(s2, Publish(0));
  }

  /** Boot with an empty device of 8 sectors, set up as one slot. */
  lemma OneSlot() returns (s0: State, s: State)
    ensures Initial(s0) && Reaches(s0, s) && Placed(s) && !s.slots[0].occupied && s.readers == map[] && s.taken[0] == 0
    ensures s.slots[0].generation == 0
  {
    s0 := State(seq(32, _ => EMPTY_SLOT), None, seq(8, _ => Zeros(SECTOR_SIZE)), map[], map[],
        seq(MAX_SWAP_SLOTS, _ => 0), map[]);
    ReachesSelf(s0);
    ReachesOn(s0, s0, Configure(0, 8));
    s := Apply(s0, Configure(0, 8));
  }

  lemma ReleasedAfter(s: State, bytes: Page, h: Handle) returns (s': State)
    requires Holding(s, bytes) && 1 !in s.readers && h == Handle(0, s.slots[0].generation)
    ensures Enabled(s, BeginRead(1, h)) && Reaches(Apply(s, BeginRead(1, h)), s')
    ensures Placed(s') && !s'.slots[0].occupied && s'.taken == s.taken && s'.slots[0].generation == h.generation
    ensures 1 in s'.readers && s'.readers[1] == Reader(0, s.taken[0], 0, [], 0)
  {
    var s1 := Apply(s, BeginRead(1, h));
    ReachesSelf(s1);
    ReachesOn(s1, s1, SwapRuns.Step.Release(h));
    s' := Apply(s1, SwapRuns.Step.Release(h));
  }

  /** From boot, a run in which a read of a live handle ends with the bytes of another page: the last reference goes
      while the read is under way, and the slot is given to that page. */
  lemma ReadEndsWithAnother(bytes: Page, other: Page) returns (s0: State, begun: State, s: State, h: Handle)
    ensures Initial(s0) && Reaches(s0, begun) && Live(begun.slots, h) && GivenTo(begun, h) == Some(bytes)
    ensures Enabled(begun, BeginRead(1, h)) && Reaches(Apply(begun, BeginRead(1, h)), s) && Reaches(s0, s)
    ensures 1 in s.readers && s.readers[1].done == SECTORS_PER_PAGE && s.readers[1].buffer == other
    ensures !Live(s.slots, h) && Enabled(s, EndRead(1))
  {
    var s1, s2, s3;
    s0, s1 := OneSlot();
    begun := PageStored(s1, bytes);
    h := Handle(0, 1);
    ReachesFurther(s0, s1, begun);
    s2 := ReleasedAfter(begun, bytes, h);
    ReachesSelf(begun);
    ReachesOn(begun, begun, BeginRead(1, h));
    s3 := PageStored(s2, other);
    ReaderAdvances(s3, 1, other, SECTORS_PER_PAGE);
    s := Fetched(s3, 1, other, SECTORS_PER_PAGE);
    var reading := Apply(begun, BeginRead(1, h));
    ReachesFurther(reading, s2, s3);
    ReachesFurther(reading, s3, s);
    ReachesFurther(s0, begun, reading);
    ReachesFurther(s0, reading, s);
    assert other[..PAGE_SIZE] == other;
  }

  // --------------------------------------------- generations that come round

  /** Slot 0 is free after `n` uses. */
  ghost predicate FreeAfter(s: State, n: nat) {
    |s.taken| == MAX_SWAP_SLOTS && s.taken[0] == n && !s.slots[0].occupied && s.slots[0].generation == GenerationOf(n)
  }

  /** Memory takes a page in slot 0. */
  lemma TakenNext(s: State, n: nat, bytes: Page) returns (s': State)
    requires FreeAfter(s, n)
    ensures Reaches(s, s') && |s'.taken| == MAX_SWAP_SLOTS && s'.taken[0] == n + 1
    ensures Live(s'.slots, Handle(0, GenerationOf(n + 1))) && s'.slots[0].refcount == 1
    ensures GivenTo(s', Handle(0, GenerationOf(n + 1))) == Some(bytes)
  {
    assert FirstFree(s.slots, 0);
    NextGenerationCounts(n);
    var step := SwapRuns.Step.AllocateRam(bytes, 0);
    ReachesSelf(s);
    ReachesOn(s, s, step);
    s' := Apply(s, step);
  }

  /** And it is released. */
  lemma FreedNext(s: State, n: nat)
    requires |s.taken| == MAX_SWAP_SLOTS && s.taken[0] == n && Live(s.slots, Handle(0, GenerationOf(n)))
    requires s.slots[0].refcount == 1
    ensures var step := SwapRuns.Step.Release(Handle(0, GenerationOf(n)));
            Enabled(s, step) && Reaches(s, Apply(s, step)) && FreeAfter(Apply(s, step), n)
  {
    ReachesSelf(s);
    ReachesOn(s, s, SwapRuns.Step.Release(Handle(0, GenerationOf(n))));
  }

  lemma {:induction false} UsedAgain(s: State, n: nat, k: nat, bytes: Page) returns (s': State)
    requires FreeAfter(s, n)
    ensures Reaches(s, s') && FreeAfter(s', n + k)
    decreases k
  {
    if k == 0 {
      ReachesSelf(s);
      s' := s;
    } else {
      var s1 := UsedAgain(s, n, k - 1, bytes);
      var s2 := TakenNext(s1, n + k - 1, bytes);
      FreedNext(s2, n + k);
      s' := Apply(s2, SwapRuns.Step.Release(Handle(0, GenerationOf(n + k))));
      ReachesFurther(s, s1, s2);
      ReachesFurther(s, s2, s');
    }
  }

  /** From boot, a run in which a handle whose page is fully released is live again, for another page: after 65535
      further uses its slot has the same generation. */
  lemma StaleHandleRevives(bytes: Page, other: Page)
    returns (s0: State, given: State, stale: State, s: State, h: Handle)
    ensures Initial(s0) && Reaches(s0, given) && Live(given.slots, h) && GivenTo(given, h) == Some(bytes)
    ensures Reaches(given, stale) && !Live(stale.slots, h)
    ensures Reaches(stale, s) && Live(s.slots, h) && GivenTo(s, h) == Some(other)
    ensures UseOf(s, h.index) == UseOf(given, h.index) + GENERATIONS
  {
    s0 := State(seq(32, _ => EMPTY_SLOT), None, [], map[], map[], seq(MAX_SWAP_SLOTS, _ => 0), map[]);
    h := Handle(0, 1);
    given := TakenNext(s0, 0, bytes);
    FreedNext(given, 1);
    stale := Apply(given, SwapRuns.Step.Release(h));
    var s1 := UsedAgain(stale, 1, GENERATIONS - 1, other);
    SameGenerationIff(1, GENERATIONS + 1);
    s := TakenNext(s1, GENERATIONS, other);
    ReachesFurther(stale, s1, s);
  }
}
