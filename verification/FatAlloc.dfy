/** Validating, freeing and allocating cluster chains, and the FSInfo hints that
    follow along. */
module FatAlloc {
  import opened Counting
  import opened Bytes
  import opened FatChain
  import opened FatVolume

  // ------------------------------------------------- validation by Floyd

  /** Floyd's tortoise and hare, advanced one step per link walked. */
  class ChainCycleGuard {
    var tortoise: nat
    var hare: nat
    var active: bool
    var steps: nat

    constructor (start: nat)
      ensures tortoise == start && hare == start && active && steps == 0
    {
      tortoise, hare, active, steps := start, start, true, 0;
    }

    /** After `t` advances: tortoise at `t`, hare at `2t`, never met; or the hare fell off the end. */
    ghost predicate Tracks(fat: Fat, lim: nat, start: nat, t: nat)
      requires lim <= |fat|
      reads this
    {
      && (active ==>
            && steps == t
            && Walk(fat, lim, start, t) == At(tortoise)
            && Walk(fat, lim, start, 2 * t) == At(hare)
            && forall s: nat {:trigger Walk(fat, lim, start, 2 * s)} :: 1 <= s <= t ==>
               Walk(fat, lim, start, s) != Walk(fat, lim, start, 2 * s))
      && (!active ==> Terminates(fat, lim, start))
    }

    /** `ChainCycleGuard::advance`. The step limit never fires. */
    method Advance(v: Volume, ghost start: nat, ghost t: nat) returns (r: Result<()>)
      requires v.Valid() && Tracks(v.fat, v.g.Limit(), start, t)
      modifies this
      ensures r.Ok? ==> Tracks(v.fat, v.g.Limit(), start, t + 1)
      ensures r.Err? ==>
        || (r.error == ChainLoop && Cycles(v.fat, v.g.Limit(), start))
        || (r.error == CorruptChain && Breaks(v.fat, v.g.Limit(), start))
    {
      if !active { return Ok(()); }
      ghost var fat, lim := v.fat, v.g.Limit();
      WithinLimit(fat, lim, start, this, t);
      steps := steps + 1;
      if steps > v.g.clusterCount {
        assert false;
        return Err(ChainTooLong);
      }
      var tortoiseLink := v.NextCluster(tortoise);
      assert Walk(fat, lim, start, t + 1) ==
             match tortoiseLink case Next(n) => At(n) case End => Ended case Corrupt => Broken;
      if tortoiseLink.Corrupt? { return Err(CorruptChain); }
      if tortoiseLink.End? {
        active := false;
        ghost var ch := WalkIsChain(fat, lim, start, t + 1);
        return Ok(());
      }
      var firstHare := v.NextCluster(hare);
      assert Walk(fat, lim, start, 2 * t + 1) ==
             match firstHare case Next(n) => At(n) case End => Ended case Corrupt => Broken;
      if firstHare.Corrupt? { return Err(CorruptChain); }
      if firstHare.End? {
        tortoise, active := tortoiseLink.cluster, false;
        ghost var ch := WalkIsChain(fat, lim, start, 2 * t + 1);
        return Ok(());
      }
      var secondHare := v.NextCluster(firstHare.cluster);
      assert Walk(fat, lim, start, 2 * t + 2) ==
             match secondHare case Next(n) => At(n) case End => Ended case Corrupt => Broken;
      if secondHare.Corrupt? { return Err(CorruptChain); }
      if secondHare.End? {
        tortoise, hare, active := tortoiseLink.cluster, firstHare.cluster, false;
        ghost var ch := WalkIsChain(fat, lim, start, 2 * t + 2);
        return Ok(());
      }
      tortoise, hare := tortoiseLink.cluster, secondHare.cluster;
      if tortoise == hare {
        MeetingMeansCycle(fat, lim, start, t + 1);
        return Err(ChainLoop);
      }
      return Ok(());
    }
  }

  /** A guard that has not met keeps every walk shorter than the volume. */
  lemma WithinLimit(fat: Fat, lim: nat, start: nat, guard: ChainCycleGuard, t: nat)
    requires 3 <= lim <= |fat| && Walk(fat, lim, start, t).At?
    requires guard.Tracks(fat, lim, start, t)
    ensures t < lim - 2
  {
    if t >= lim - 2 {
      if guard.active {
        WalkMonotone(fat, lim, start, 2 * (lim - 2), 2 * t);
        var s := FloydMeets(fat, lim, start);
        assert false;
      } else {
        var ch :| IsChain(fat, lim, ch) && ch[0] == start;
        ChainNoDuplicates(fat, lim, ch);
        ChainWalk(fat, lim, ch, t);
        assert false;
      }
    }
  }

  /** `validate_cluster_chain`: succeeds exactly on proper chains, reports a loop
      exactly on cyclic ones and corruption exactly on broken ones. The length
      limit never fires. */
  method ValidateClusterChain(v: Volume, start: nat) returns (r: Result<()>)
    requires v.Valid()
    ensures r.Ok? <==> Terminates(v.fat, v.g.Limit(), start)
    ensures r == Err(ChainLoop) <==> Cycles(v.fat, v.g.Limit(), start)
    ensures r == Err(CorruptChain) <==> Breaks(v.fat, v.g.Limit(), start)
  {
    ghost var fat, lim := v.fat, v.g.Limit();
    Trichotomy(fat, lim, start);
    var cluster := start;
    var guard := new ChainCycleGuard(start);
    var traversed := 0;
    while true
      invariant traversed <= v.g.clusterCount
      invariant Walk(fat, lim, start, traversed) == At(cluster)
      invariant guard.Tracks(fat, lim, start, traversed)
      decreases v.g.clusterCount - traversed
    {
      WithinLimit(fat, lim, start, guard, traversed);
      if traversed + 1 > v.g.clusterCount {
        assert false;
        return Err(ChainTooLong);
      }
      var link := v.NextCluster(cluster);
      assert Walk(fat, lim, start, traversed + 1) ==
             match link case Next(n) => At(n) case End => Ended case Corrupt => Broken;
      if link.Corrupt? { return Err(CorruptChain); }
      if link.End? {
        ghost var ch := WalkIsChain(fat, lim, start, traversed + 1);
        return Ok(());
      }
      var advanced := guard.Advance(v, start, traversed);
      if advanced.Err? { return advanced; }
      cluster := link.cluster;
      traversed := traversed + 1;
    }
  }

  // ------------------------------------------------------ counting free entries

  /** The number of free clusters below `n`. */
  ghost function CountFree(fat: Fat, n: nat): nat
    requires n <= |fat|
  {
    if n <= 2 then 0 else CountFree(fat, n - 1) + (if fat[n - 1] == 0 then 1 else 0)
  }

  lemma {:induction false} CountFreeBound(fat: Fat, n: nat)
    requires 2 <= n <= |fat|
    ensures CountFree(fat, n) <= n - 2
    ensures CountFree(fat, n) == 0 <==> forall c :: 2 <= c < n ==> fat[c] != 0
  {
    if n > 2 {
      CountFreeBound(fat, n - 1);
    }
  }

  lemma {:induction false} CountFreeUpdate(fat: Fat, n: nat, c: nat, value: nat)
    requires n <= |fat| && 2 <= c < |fat|
    ensures CountFree(fat[c := value], n) ==
            CountFree(fat, n) + (if c < n && value == 0 then 1 else 0) - (if c < n && fat[c] == 0 then 1 else 0)
  {
    if n > 2 {
      CountFreeUpdate(fat, n - 1, c, value);
    }
  }

  /** Freeing a chain returns exactly its clusters to the count. */
  lemma {:induction false} CountFreeCleared(fat: Fat, lim: nat, ch: seq<nat>)
    requires lim <= |fat| && NoDuplicates(ch)
    requires forall i :: 0 <= i < |ch| ==> 2 <= ch[i] < lim && fat[ch[i]] != 0
    ensures CountFree(Cleared(fat, ch), lim) == CountFree(fat, lim) + |ch|
    decreases |ch|
  {
    if ch == [] {
      assert Cleared(fat, ch) == fat;
    } else {
      var rest, last := ch[..|ch| - 1], ch[|ch| - 1];
      CountFreeCleared(fat, lim, rest);
      assert Cleared(fat, ch) == Cleared(fat, rest)[last := 0];
      CountFreeUpdate(Cleared(fat, rest), lim, last, 0);
    }
  }

  // ------------------------------------------------------------ the hints

  function NextHint(g: Geometry, c: nat): nat {
    if IsAllocatable(g, c + 1) then c + 1 else 2
  }

  /** `update_fs_info_after_alloc`. */
  function AfterAlloc(g: Geometry, info: Option<FsInfo>, c: nat): Option<FsInfo> {
    match ReadInfo(g, info)
    case None => info
    case Some(i) =>
      Some(FsInfo(if i.freeCount == FSINFO_UNKNOWN then FSINFO_UNKNOWN
                  else if i.freeCount == 0 then 0 else i.freeCount - 1,
                  NextHint(g, c)))
  }

  /** `update_fs_info_after_free`. */
  function AfterFree(g: Geometry, info: Option<FsInfo>, freed: nat, first: nat): Option<FsInfo> {
    match ReadInfo(g, info)
    case None => info
    case Some(i) =>
      Some(FsInfo(if i.freeCount == FSINFO_UNKNOWN then FSINFO_UNKNOWN
                  else if i.freeCount + freed <= g.clusterCount then i.freeCount + freed else g.clusterCount,
                  if IsAllocatable(g, first) then first else i.nextFree))
  }

  /** The stored free count is unknown, or is the number of free clusters. */
  ghost predicate CountMatches(g: Geometry, info: Option<FsInfo>, fat: Fat)
    requires g.Limit() <= |fat|
  {
    match ReadInfo(g, info)
    case None => true
    case Some(i) => i.freeCount == FSINFO_UNKNOWN || i.freeCount == CountFree(fat, g.Limit())
  }

  lemma AllocKeepsCount(g: Geometry, info: Option<FsInfo>, fat: Fat, c: nat)
    requires g.Limit() <= |fat| && IsAllocatable(g, c) && fat[c] == 0
    requires CountMatches(g, info, fat)
    ensures CountMatches(g, AfterAlloc(g, info, c), fat[c := FAT_END_MIN])
  {
    CountFreeUpdate(fat, g.Limit(), c, FAT_END_MIN);
    CountFreeBound(fat, g.Limit());
  }

  /** No member of a chain is a free cluster. */
  lemma ChainEntriesUsed(fat: Fat, lim: nat, ch: seq<nat>)
    requires lim <= |fat| && IsChain(fat, lim, ch)
    ensures forall i :: 0 <= i < |ch| ==> fat[ch[i]] >= 2
  {
    forall i | 0 <= i < |ch| ensures fat[ch[i]] >= 2 {
      if i + 1 < |ch| {
        assert LinkOf(fat, lim, ch[i]) == Next(ch[i + 1]);
      }
    }
  }

  lemma FreeKeepsCount(g: Geometry, info: Option<FsInfo>, fat: Fat, ch: seq<nat>)
    requires g.Limit() <= |fat| && IsChain(fat, g.Limit(), ch) && g.Limit() <= FAT_BAD
    requires CountMatches(g, info, fat)
    ensures CountMatches(g, AfterFree(g, info, |ch|, ch[0]), Cleared(fat, ch))
  {
    ChainNoDuplicates(fat, g.Limit(), ch);
    ChainEntriesUsed(fat, g.Limit(), ch);
    CountFreeCleared(fat, g.Limit(), ch);
    CountFreeBound(Cleared(fat, ch), g.Limit());
  }

  method UpdateFsInfoAfterAlloc(v: Volume, c: nat)
    requires v.Valid() && IsAllocatable(v.g, c)
    modifies v
    ensures v.Valid() && v.fat == old(v.fat) && v.data == old(v.data) && v.dataWrites == old(v.dataWrites)
    ensures v.info == AfterAlloc(v.g, old(v.info), c)
  {
    var hints := v.ReadFsInfo();
    if hints.None? { return; }
    var free := hints.value.freeCount;
    if free != FSINFO_UNKNOWN && free != 0 { free := free - 1; }
    v.WriteFsInfo(FsInfo(free, NextHint(v.g, c)));
  }

  method UpdateFsInfoAfterFree(v: Volume, freed: nat, first: nat)
    requires v.Valid()
    modifies v
    ensures v.Valid() && v.fat == old(v.fat) && v.data == old(v.data) && v.dataWrites == old(v.dataWrites)
    ensures v.info == AfterFree(v.g, old(v.info), freed, first)
  {
    var hints := v.ReadFsInfo();
    if hints.None? { return; }
    var free, next := hints.value.freeCount, hints.value.nextFree;
    if free != FSINFO_UNKNOWN {
      free := if free + freed <= v.g.clusterCount then free + freed else v.g.clusterCount;
    }
    if IsAllocatable(v.g, first) { next := first; }
    v.WriteFsInfo(FsInfo(free, next));
  }

  // --------------------------------------------------------------- freeing

  lemma ClearedStep(fat: Fat, lim: nat, ch: seq<nat>, i: nat)
    requires lim <= |fat| && IsChain(fat, lim, ch) && i < |ch|
    ensures Cleared(fat, ch[..i])[ch[i] := 0] == Cleared(fat, ch[..i + 1])
    ensures LinkOf(Cleared(fat, ch[..i]), lim, ch[i]) == if i + 1 < |ch| then Next(ch[i + 1]) else End
  {
    ChainNoDuplicates(fat, lim, ch);
    assert ch[..i + 1] == ch[..i] + [ch[i]];
    assert ch[i] !in ch[..i];
    if i + 1 < |ch| {
      assert LinkOf(fat, lim, ch[i]) == Next(ch[i + 1]);
    }
  }

  /** The clearing loop of `free_cluster_chain`: each link is read before its entry is cleared. */
  method ClearChain(v: Volume, start: nat, ghost ch: seq<nat>)
    requires v.Valid() && IsChain(v.fat, v.g.Limit(), ch) && ch[0] == start
    modifies v
    ensures v.Valid() && v.data == old(v.data) && v.dataWrites == old(v.dataWrites)
    ensures v.fat == Cleared(old(v.fat), ch) && v.info == AfterFree(v.g, old(v.info), |ch|, start)
  {
    ghost var fat0, lim := v.fat, v.g.Limit();
    ChainNoDuplicates(fat0, lim, ch);
    var cluster, freed := start, 0;
    assert Cleared(fat0, ch[..0]) == fat0;
    while true
      invariant 0 <= freed < |ch| && cluster == ch[freed]
      invariant v.Valid() && v.data == old(v.data) && v.info == old(v.info) && v.dataWrites == old(v.dataWrites)
      invariant v.fat == Cleared(fat0, ch[..freed])
      decreases |ch| - freed
    {
      assert freed + 1 <= v.g.clusterCount;  // the source's length limit never fires
      ClearedStep(fat0, lim, ch, freed);
      var link := v.NextCluster(cluster);
      var cleared := v.WriteFatEntry(cluster, 0);
      freed := freed + 1;
      if link.Next? {
        cluster := link.cluster;
      } else {
        assert ch[..freed] == ch;
        UpdateFsInfoAfterFree(v, freed, start);
        return;
      }
    }
  }

  /** `free_cluster_chain`: clears exactly the entries of a proper chain; refuses
      every other start before writing anything. */
  method FreeClusterChain(v: Volume, start: nat) returns (r: Result<()>)
    requires v.Valid()
    modifies v
    ensures v.Valid() && v.data == old(v.data) && v.dataWrites == old(v.dataWrites)
    ensures r.Ok? <==> start < 2 || Terminates(old(v.fat), v.g.Limit(), start)
    ensures r.Err? || start < 2 ==> v.fat == old(v.fat) && v.info == old(v.info)
    ensures r.Ok? && start >= 2 ==>
              forall ch {:trigger IsChain(old(v.fat), v.g.Limit(), ch)} ::
                IsChain(old(v.fat), v.g.Limit(), ch) && ch[0] == start ==>
                  v.fat == Cleared(old(v.fat), ch) && v.info == AfterFree(v.g, old(v.info), |ch|, start)
  {
    if start < 2 { return Ok(()); }
    r := ValidateClusterChain(v, start);
    if r.Err? { return; }
    ghost var ch :| IsChain(v.fat, v.g.Limit(), ch) && ch[0] == start;
    forall other | IsChain(v.fat, v.g.Limit(), other) && other[0] == start ensures other == ch {
      ChainUnique(v.fat, v.g.Limit(), other, ch);
    }
    ClearChain(v, start, ch);
  }

  // ------------------------------------------------------------ allocation

  /** `fs_info_next_free_hint`. */
  function AllocHint(g: Geometry, info: Option<FsInfo>): (h: nat) {
    match ReadInfo(g, info)
    case None => 2
    case Some(i) => if IsAllocatable(g, i.nextFree) then i.nextFree else 2
  }

  /** `allocate_cluster_in_range`: first fit in `[start, end)`. */
  method AllocateInRange(v: Volume, start: nat, end: nat) returns (r: Result<nat>)
    requires v.Valid() && 2 <= start <= end <= v.g.Limit()
    modifies v
    ensures v.Valid() && v.data == old(v.data) && v.dataWrites == old(v.dataWrites)
    ensures r.Err? ==> r == Err(NoSpace) && v.fat == old(v.fat) && v.info == old(v.info)
    ensures r.Err? ==> forall c :: start <= c < end ==> old(v.fat)[c] != 0
    ensures r.Ok? ==> start <= r.value < end && old(v.fat)[r.value] == 0
    ensures r.Ok? ==> forall c :: start <= c < r.value ==> old(v.fat)[c] != 0
    ensures r.Ok? ==> v.fat == old(v.fat)[r.value := FAT_END_MIN] && v.info == AfterAlloc(v.g, old(v.info), r.value)
  {
    for cluster := start to end
      invariant v.Valid() && unchanged(v)
      invariant forall c :: start <= c < cluster ==> v.fat[c] != 0
    {
      var entry := v.ReadFatEntry(cluster);
      if entry.value == 0 {
        var marked := v.WriteFatEntry(cluster, FAT_END_MIN);
        UpdateFsInfoAfterAlloc(v, cluster);
        return Ok(cluster);
      }
    }
    return Err(NoSpace);
  }

  /** `allocate_cluster`: from the hint to the end, then from the start to the
      hint. `NoSpace` means no cluster is free, whatever the hint says. */
  method AllocateCluster(v: Volume) returns (r: Result<nat>)
    requires v.Valid()
    modifies v
    ensures v.Valid() && v.data == old(v.data) && v.dataWrites == old(v.dataWrites)
    ensures r.Err? <==> forall c :: 2 <= c < v.g.Limit() ==> old(v.fat)[c] != 0
    ensures r.Err? ==> r == Err(NoSpace) && v.fat == old(v.fat) && v.info == old(v.info)
    ensures r.Ok? ==> IsAllocatable(v.g, r.value) && old(v.fat)[r.value] == 0
    ensures r.Ok? ==> v.fat == old(v.fat)[r.value := FAT_END_MIN] && v.info == AfterAlloc(v.g, old(v.info), r.value)
    // cyclic first fit: nothing free was passed over on the way from the hint
    ensures r.Ok? ==> var h := AllocHint(v.g, old(v.info));
                      forall c ::
                        2 <= c < v.g.Limit() && (if r.value >= h then h <= c < r.value else c >= h || c < r.value) ==>
                          old(v.fat)[c] != 0
  {
    var hints := v.ReadFsInfo();
    var start := if hints.Some? && IsAllocatable(v.g, hints.value.nextFree) then hints.value.nextFree else 2;
    r := AllocateInRange(v, start, v.g.Limit());
    if r.Err? && start > 2 {
      r := AllocateInRange(v, 2, start);
    }
  }

  /** `ch` is a chain of `fat'` made of clusters that were free in `fat`, and
      nothing else differs. */
  ghost predicate GrownBy(fat: Fat, fat': Fat, lim: nat, ch: seq<nat>)
    requires lim <= |fat| == |fat'|
  {
    && (ch != [] ==> IsChain(fat', lim, ch))
    && (forall i {:trigger ch[i]} :: 0 <= i < |ch| ==> 2 <= ch[i] < lim && fat[ch[i]] == 0)
    && (forall c {:trigger fat'[c]} :: 0 <= c < |fat| && c !in ch ==> fat'[c] == fat[c])
  }

  /** Clearing the grown chain undoes the growth. */
  lemma ClearedGrowth(fat: Fat, fat': Fat, lim: nat, ch: seq<nat>)
    requires lim <= |fat| == |fat'| && GrownBy(fat, fat', lim, ch)
    ensures Cleared(fat', ch) == fat
  {
    forall c | 0 <= c < |fat| ensures Cleared(fat', ch)[c] == fat[c] {
      if c in ch {
        var i :| 0 <= i < |ch| && ch[i] == c;
      }
    }
  }

  lemma GrowthCount(fat: Fat, fat': Fat, lim: nat, ch: seq<nat>)
    requires lim <= |fat| == |fat'| && GrownBy(fat, fat', lim, ch)
    ensures CountFree(fat, lim) == CountFree(fat', lim) + |ch|
  {
    ClearedGrowth(fat, fat', lim, ch);
    if ch != [] {
      ChainNoDuplicates(fat', lim, ch);
      ChainEntriesUsed(fat', lim, ch);
    }
    CountFreeCleared(fat', lim, ch);
  }

  lemma GrowthStep(fat: Fat, fat': Fat, lim: nat, ch: seq<nat>, c: nat)
    requires lim <= |fat| == |fat'| && GrownBy(fat, fat', lim, ch) && lim <= FAT_BAD
    requires 2 <= c < lim && fat'[c] == 0
    ensures c !in ch
    ensures ch == [] ==> GrownBy(fat, fat'[c := FAT_END_MIN], lim, [c])
    ensures ch != [] ==> GrownBy(fat, fat'[c := FAT_END_MIN][ch[|ch| - 1] := c], lim, ch + [c])
  {
    if ch != [] {
      ChainEntriesUsed(fat', lim, ch);
    }
    assert c !in ch;
    if ch != [] {
      ChainAppend(fat', fat'[c := FAT_END_MIN][ch[|ch| - 1] := c], lim, ch, c);
    }
  }

  /** Linking behind an allocated cluster leaves the set of free clusters alone. */
  lemma LinkKeepsCount(g: Geometry, info: Option<FsInfo>, fat: Fat, c: nat, value: nat)
    requires g.Limit() <= |fat| && IsAllocatable(g, c) && fat[c] != 0 && value != 0
    requires CountMatches(g, info, fat)
    ensures CountMatches(g, info, fat[c := value])
  {
    CountFreeUpdate(fat, g.Limit(), c, value);
  }

  /** One round of `allocate_file_chain`: allocate a cluster and link it behind `previous`. */
  method GrowChain(v: Volume, ghost fat0: Fat, previous: nat, ghost ch: seq<nat>) returns (r: Result<nat>)
    requires v.Valid() && |fat0| == |v.fat| && GrownBy(fat0, v.fat, v.g.Limit(), ch)
    requires if ch == [] then previous == 0 else previous == ch[|ch| - 1]
    modifies v
    ensures v.Valid() && v.data == old(v.data) && v.dataWrites == old(v.dataWrites)
    ensures r.Err? <==> forall c :: 2 <= c < v.g.Limit() ==> old(v.fat)[c] != 0
    ensures r.Err? ==> r == Err(NoSpace) && v.fat == old(v.fat) && v.info == old(v.info)
    ensures r.Ok? ==> r.value >= 2 && GrownBy(fat0, v.fat, v.g.Limit(), ch + [r.value])
    ensures CountMatches(v.g, old(v.info), old(v.fat)) ==> CountMatches(v.g, v.info, v.fat)
  {
    ghost var before, hints, lim := v.fat, v.info, v.g.Limit();
    r := AllocateCluster(v);
    if r.Err? { return; }
    GrowthStep(fat0, before, lim, ch, r.value);
    if CountMatches(v.g, hints, before) {
      AllocKeepsCount(v.g, hints, before, r.value);
    }
    assert ch == [] ==> ch + [r.value] == [r.value];
    if previous != 0 {
      ChainEntriesUsed(before, lim, ch);
      if CountMatches(v.g, v.info, v.fat) {
        LinkKeepsCount(v.g, v.info, v.fat, previous, r.value);
      }
      var linked := v.WriteFatEntry(previous, r.value);
    }
  }

  /** Give a freshly grown chain back. */
  method UndoGrowth(v: Volume, ghost fat0: Fat, first: nat, ghost ch: seq<nat>)
    requires v.Valid() && |fat0| == |v.fat| && ch != [] && ch[0] == first && GrownBy(fat0, v.fat, v.g.Limit(), ch)
    modifies v
    ensures v.Valid() && v.data == old(v.data) && v.dataWrites == old(v.dataWrites)
    ensures v.fat == fat0
    ensures CountMatches(v.g, old(v.info), old(v.fat)) ==> CountMatches(v.g, v.info, v.fat)
  {
    ClearedGrowth(fat0, v.fat, v.g.Limit(), ch);
    if CountMatches(v.g, v.info, v.fat) {
      FreeKeepsCount(v.g, v.info, v.fat, ch);
    }
    var freed := FreeClusterChain(v, first);
    assert IsChain(old(v.fat), v.g.Limit(), ch);
  }

  /** `allocate_file_chain`: a fresh chain of `needed` clusters, or, exactly when
      fewer are free, no change to the FAT at all. */
  method AllocateFileChain(v: Volume, needed: nat) returns (r: Result<nat>, ghost ch: seq<nat>)
    requires v.Valid()
    modifies v
    ensures v.Valid() && v.data == old(v.data) && v.dataWrites == old(v.dataWrites)
    ensures r.Err? <==> CountFree(old(v.fat), v.g.Limit()) < needed
    ensures r.Err? ==> r == Err(NoSpace) && v.fat == old(v.fat)
    ensures r.Ok? ==>
              |ch| == needed && GrownBy(old(v.fat), v.fat, v.g.Limit(), ch) && r.value == if needed == 0 then 0
              else ch[0]
    ensures CountMatches(v.g, old(v.info), old(v.fat)) ==> CountMatches(v.g, v.info, v.fat)
  {
    ghost var fat0, lim := v.fat, v.g.Limit();
    var first, previous := 0, 0;
    ch := [];
    for index := 0 to needed
      invariant v.Valid() && v.data == old(v.data) && v.dataWrites == old(v.dataWrites)
      invariant |ch| == index && GrownBy(fat0, v.fat, lim, ch)
      invariant if index == 0 then first == 0 && previous == 0 else first == ch[0] && previous == ch[index - 1]
      invariant CountMatches(v.g, old(v.info), fat0) ==> CountMatches(v.g, v.info, v.fat)
    {
      GrowthCount(fat0, v.fat, lim, ch);
      CountFreeBound(v.fat, lim);
      var taken := GrowChain(v, fat0, previous, ch);
      if taken.Err? {
        if first >= 2 {
          UndoGrowth(v, fat0, first, ch);
        }
        return taken, ch;
      }
      if index == 0 {
        first := taken.value;
      }
      previous := taken.value;
      ch := ch + [taken.value];
    }
    GrowthCount(fat0, v.fat, lim, ch);
    return Ok(first), ch;
  }

  // ------------------------------------------------------------ space info

  /** One sector's share of the count: entries `first .. 128`, stopping at the end of the volume. */
  method CountSector(v: Volume, sector: Sector, base: nat, first: nat, sofar: nat) returns (free: nat)
    requires v.Valid() && base % 128 == 0 && first < 128 && 2 <= base + first < v.g.Limit()
    requires sector == SectorAt(v.sectors, v.g.firstFatSector + base / 128)
    requires sofar == CountFree(v.fat, base + first)
    ensures free == CountFree(v.fat, if base + 128 < v.g.Limit() then base + 128 else v.g.Limit())
  {
    free := sofar;
    for index := first to 128
      invariant base + index <= v.g.Limit() && free == CountFree(v.fat, base + index)
    {
      if base + index >= v.g.Limit() { break; }
      assert FatSector(v.g, 0, base + index) == v.g.firstFatSector + base / 128;
      assert WordAt(v.sectors, v.g, 0, base + index) % WORD28 == v.fat[base + index];
      if Le32(sector, 4 * index) % WORD28 == 0 {
        free := free + 1;
      }
    }
  }

  /** The counting loop of `space_info`, one FAT sector at a time, counts exactly
      the free clusters. */
  method CountFreeClusters(v: Volume) returns (free: nat)
    requires v.Valid()
    ensures free == CountFree(v.fat, v.g.Limit())
  {
    var end := v.g.Limit();
    var cluster := 2;
    free := 0;
    while cluster < end
      invariant 2 <= cluster && (cluster < end ==> free == CountFree(v.fat, cluster))
      invariant cluster >= end ==> free == CountFree(v.fat, end)
    {
      var fatSector := v.g.firstFatSector + cluster / 128;
      var sector := v.sectors[fatSector];
      var base := 128 * (cluster / 128);
      free := CountSector(v, sector, base, cluster - base, free);
      cluster := base + 128;
    }
  }
}
