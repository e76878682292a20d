/** Deleting a file or an empty directory. */
module FatDelete {
  import opened Bytes
  import opened FatChain
  import opened FatVolume
  import opened FatAlloc
  import opened FatFile
  import opened FatDirectory
  import opened FatTree
  import opened FatSpace
  import opened FatPlan
  import opened FatReserve
  import opened FatMoves
  import opened FatCreate
  import opened FatOutcome
  import opened FatLookups
  import opened FatFiles

  // ----------------------------------------------- is the directory empty?

  /** The first slot at or after `k` that owns something, or the end mark. */
  function ScanOwner(content: seq<Byte>, k: nat): (s: Scan)
    ensures s.Found? ==> k <= s.k && OwnerSlot(content, s.k)
    ensures s.EndAt? ==> k <= s.k && 32 * s.k + 32 <= |content| && SlotAt(content, s.k)[0] == 0
    ensures forall j :: k <= j < StopOf(s, content) && 32 * j + 32 <= |content| ==>
              SlotAt(content, j)[0] != 0 && !OwnerSlot(content, j)
    decreases |content| - 32 * k
  {
    if 32 * k + 32 > |content| then Exhausted
    else if SlotAt(content, k)[0] == 0 then EndAt(k)
    else if IsOwner(SlotAt(content, k)) then Found(k)
    else ScanOwner(content, k + 1)
  }

  /** The scan of `directory_is_empty` over one sector, whose first slot is number `base` of the cluster. */
  method ScanOwnerSector(sector: Sector, base: nat, ghost d: seq<Byte>) returns (s: Scan)
    requires 32 * base + 512 <= |d| && d[32 * base..32 * base + 512] == sector
    ensures ScanOwner(d, base) == if s.Exhausted? then ScanOwner(d, base + 16) else s
  {
    for index := 0 to 16
      invariant ScanOwner(d, base) == ScanOwner(d, base + index)
    {
      var slot: Slot := sector[32 * index..32 * index + 32];
      SlotInSector(sector, base, index, d);
      if slot[0] == 0 { return EndAt(base + index); }
      if IsOwner(slot) { return Found(base + index); }
    }
    s := Exhausted;
  }

  method ScanOwnerCluster(v: Volume, c: nat) returns (s: Scan)
    requires v.Valid() && IsAllocatable(v.g, c)
    ensures s == ScanOwner(v.data[c], 0)
  {
    ghost var d := v.data[c];
    for i := 0 to v.g.sectorsPerCluster
      invariant ScanOwner(d, 0) == ScanOwner(d, 16 * i)
    {
      var sector := v.ReadSector(c, i);
      s := ScanOwnerSector(sector, 16 * i, d);
      if !s.Exhausted? { return; }
    }
    s := Exhausted;
  }

  /** No owner slot and no end mark among the slots of `content`. */
  ghost predicate OwnerFree(content: seq<Byte>) {
    forall j: nat :: 32 * j + 32 <= |content| ==> SlotAt(content, j)[0] != 0 && !OwnerSlot(content, j)
  }

  lemma SlotInConcat(a: seq<Byte>, d: seq<Byte>, j: nat)
    requires |a| % 32 == 0 && 32 * j + 32 <= |a + d|
    ensures 32 * j + 32 <= |a| ==> SlotAt(a + d, j) == SlotAt(a, j)
    ensures 32 * j + 32 > |a| ==> j >= |a| / 32 && SlotAt(a + d, j) == SlotAt(d, j - |a| / 32)
  {
  }

  lemma OwnerFreeConcat(a: seq<Byte>, d: seq<Byte>)
    requires |a| % 32 == 0 && OwnerFree(a) && OwnerFree(d)
    ensures OwnerFree(a + d)
  {
    forall j: nat | 32 * j + 32 <= |a + d| ensures SlotAt(a + d, j)[0] != 0 && !OwnerSlot(a + d, j) {
      SlotInConcat(a, d, j);
    }
  }

  lemma OwnerInMiddle(a: seq<Byte>, d: seq<Byte>, b: seq<Byte>, k: nat)
    requires |a| % 32 == 0 && 32 * k + 32 <= |d|
    ensures 32 * (|a| / 32 + k) + 32 <= |a + d + b| && SlotAt(a + d + b, |a| / 32 + k) == SlotAt(d, k)
  {
    assert a + d + b == a + (d + b);
    SlotInConcat(a, d + b, |a| / 32 + k);
    assert SlotAt(d + b, k) == SlotAt(d, k);
  }

  lemma EndInMiddle(a: seq<Byte>, d: seq<Byte>, b: seq<Byte>, k: nat)
    requires |a| % 32 == 0 && OwnerFree(a) && EndTail(a + d + b) && ScanOwner(d, 0) == EndAt(k)
    ensures EmptyContent(a + d + b)
  {
    var content := a + d + b;
    assert content == a + (d + b);
    OwnerInMiddle(a, d, b, k);
    forall j: nat ensures !OwnerSlot(content, j) {
      if 32 * j + 32 <= |content| && j < |a| / 32 + k {
        SlotInConcat(a, d + b, j);
        if j >= |a| / 32 { OwnerInMiddle(a, d, b, j - |a| / 32); }
      }
    }
  }

  /** Behind an owner-free front `a`, what the scan of the next cluster `d` says
      decides whether the directory owns anything. */
  lemma ScanDecides(a: seq<Byte>, d: seq<Byte>, b: seq<Byte>)
    requires |a| % 32 == 0 && OwnerFree(a) && EndTail(a + d + b)
    ensures ScanOwner(d, 0).Found? ==> !EmptyContent(a + d + b)
    ensures ScanOwner(d, 0).EndAt? ==> EmptyContent(a + d + b)
    ensures ScanOwner(d, 0).Exhausted? ==> OwnerFree(a + d)
  {
    match ScanOwner(d, 0) {
      case Found(k) =>
        OwnerInMiddle(a, d, b, k);
        assert OwnerSlot(a + d + b, |a| / 32 + k);
      case EndAt(k) => EndInMiddle(a, d, b, k);
      case Exhausted => OwnerFreeConcat(a, d);
    }
  }

  /** The directory scan has passed the first `|visited|` clusters of its chain. */
  ghost predicate EmptySoFar(data: Clusters, ch: seq<nat>, visited: seq<nat>, cluster: nat) {
    && |visited| < |ch| && visited == ch[..|visited|] && cluster == ch[|visited|]
    && InData(data, visited) && OwnerFree(Content(data, visited))
  }

  /** One cluster of the scan. */
  lemma EmptyStep(fat: Fat, lim: nat, data: Clusters, ch: seq<nat>, visited: seq<nat>, cluster: nat)
    requires lim <= |fat| && |data| == lim && IsChain(fat, lim, ch) && Aligned(data) && InData(data, ch) &&
             EndTail(Content(data, ch))
    requires EmptySoFar(data, ch, visited, cluster)
    ensures 2 <= cluster < lim && cluster !in visited
    ensures ScanOwner(data[cluster], 0).Found? ==> !EmptyContent(Content(data, ch))
    ensures ScanOwner(data[cluster], 0).EndAt? ==> EmptyContent(Content(data, ch))
    ensures ScanOwner(data[cluster], 0).Exhausted? ==>
              match LinkOf(fat, lim, cluster)
              case Next(n) => EmptySoFar(data, ch, visited + [cluster], n)
              case End => EmptyContent(Content(data, ch))
              case Corrupt => false
  {
    var i := |visited|;
    ChainNoDuplicates(fat, lim, ch);
    ContentSplit(data, ch, i);
    ContentAligned(data, visited);
    ScanDecides(Content(data, visited), data[cluster], Content(data, ch[i + 1..]));
    assert visited + [cluster] == ch[..i + 1];
    if i + 1 < |ch| {
      assert LinkOf(fat, lim, ch[i]) == Next(ch[i + 1]);
    } else {
      assert ch[..i + 1] == ch;
    }
  }

  /** What `directory_is_empty` answers on any FAT, cycles and broken links included. */
  function EmptyFrom(fat: Fat, lim: nat, data: Clusters, c: nat, seen: seq<nat>): Result<bool>
    requires lim <= |fat| && |data| == lim && |seen| <= MAX_DIRECTORY_CLUSTERS
    decreases MAX_DIRECTORY_CLUSTERS - |seen|
  {
    if |seen| == MAX_DIRECTORY_CLUSTERS then Err(ChainTooLong)
    else if c in seen then Err(ChainLoop)
    else if !(2 <= c < lim) then Err(CorruptChain)
    else
      match ScanOwner(data[c], 0)
      case Found(_) => Ok(false)
      case EndAt(_) => Ok(true)
      case Exhausted =>
        match LinkOf(fat, lim, c)
        case Next(n) => EmptyFrom(fat, lim, data, n, seen + [c])
        case End => Ok(true)
        case Corrupt => Err(CorruptChain)
  }

  /** On a proper chain of at most 128 clusters that is whether no slot but "." and ".." is live. */
  lemma {:induction false} EmptyFromMeans(fat: Fat, lim: nat, data: Clusters, ch: seq<nat>, visited: seq<nat>,
                                          cluster: nat)
    requires lim <= |fat| && |data| == lim && IsChain(fat, lim, ch) && Aligned(data) && InData(data, ch) &&
             EndTail(Content(data, ch))
    requires |visited| <= MAX_DIRECTORY_CLUSTERS && EmptySoFar(data, ch, visited, cluster)
    ensures var r := EmptyFrom(fat, lim, data, cluster, visited);
            if r.Ok? then r.value <==> EmptyContent(Content(data, ch))
            else r == Err(ChainTooLong) && |ch| > MAX_DIRECTORY_CLUSTERS
    decreases MAX_DIRECTORY_CLUSTERS - |visited|
  {
    if |visited| < MAX_DIRECTORY_CLUSTERS {
      EmptyStep(fat, lim, data, ch, visited, cluster);
      if ScanOwner(data[cluster], 0).Exhausted? && LinkOf(fat, lim, cluster).Next? {
        EmptyFromMeans(fat, lim, data, ch, visited + [cluster], LinkOf(fat, lim, cluster).cluster);
      }
    }
  }

  /** `directory_is_empty`, on any volume. */
  method DirectoryIsEmpty(v: Volume, dir: nat, ghost ch: seq<nat>) returns (r: Result<bool>)
    requires v.Valid()
    ensures r == EmptyFrom(v.fat, v.g.Limit(), v.data, dir, [])
    ensures IsChain(v.fat, v.g.Limit(), ch) && ch[0] == dir && InData(v.data, ch) && EndTail(Content(v.data, ch)) ==>
              && (r.Ok? ==> (r.value <==> EmptyContent(Content(v.data, ch))))
              && (r.Err? ==> r == Err(ChainTooLong) && |ch| > MAX_DIRECTORY_CLUSTERS)
  {
    if IsChain(v.fat, v.g.Limit(), ch) && ch[0] == dir && InData(v.data, ch) && EndTail(Content(v.data, ch)) {
      VolumeAligned(v);
      EmptyFromMeans(v.fat, v.g.Limit(), v.data, ch, [], dir);
    }
    var cluster, visited := dir, [];
    while true
      invariant |visited| <= MAX_DIRECTORY_CLUSTERS
      invariant EmptyFrom(v.fat, v.g.Limit(), v.data, dir, []) ==
                EmptyFrom(v.fat, v.g.Limit(), v.data, cluster, visited)
      decreases MAX_DIRECTORY_CLUSTERS - |visited|
    {
      if |visited| == MAX_DIRECTORY_CLUSTERS { return Err(ChainTooLong); }
      if cluster in visited { return Err(ChainLoop); }
      if !IsAllocatable(v.g, cluster) { return Err(CorruptChain); }
      var s := ScanOwnerCluster(v, cluster);
      match s {
        case Found(_) => return Ok(false);
        case EndAt(_) => return Ok(true);
        case Exhausted =>
      }
      var link := v.NextCluster(cluster);
      if link.Corrupt? { return Err(CorruptChain); }
      if link.End? { return Ok(true); }
      visited := visited + [cluster];
      cluster := link.cluster;
    }
  }

  // ------------------------------------------------------ finding the slot

  datatype Located = Located(cluster: nat, index: nat, entry: Entry)

  /** `directory_entry_from_sector`: a live entry without a chain must be an empty file. */
  function CheckedEntry(s: Slot): Result<Entry> {
    if ClusterField(s) < 2 && (SizeField(s) != 0 || IsDirectory(s[11])) then Err(CorruptDirectory)
        else Ok(DecodeEntry(s))
  }

  ghost function LocatedBy(data: Clusters, p: Plan): Result<Located> {
    match p
    case Existing(c, k) =>
      if c < |data| && 32 * k + 32 <= |data[c]| then
        match CheckedEntry(SlotAt(data[c], k))
        case Ok(e) => Ok(Located(c, k, e))
        case Err(e) => Err(e)
      else Err(CorruptDirectory)
    case Vacant(_, _) => Err(NotFound)
    case Extend(_) => Err(NotFound)
    case Refuse(e) => Err(e)
  }

  /** `find_existing_directory_slot`. */
  method FindExistingSlot(v: Volume, dir: nat, name: ShortName) returns (r: Result<Located>)
    requires v.Valid()
    ensures r == LocatedBy(v.data, SlotFor(v.fat, v.g.Limit(), v.data, dir, [], name, None))
    ensures r.Ok? ==> IsAllocatable(v.g, r.value.cluster) && 32 * r.value.index + 32 <= |v.data[r.value.cluster]|
  {
    var cluster, visited := dir, [];
    ghost var deleted: Option<(nat, nat)> := None;
    while true
      invariant |visited| <= MAX_DIRECTORY_CLUSTERS
      invariant SlotFor(v.fat, v.g.Limit(), v.data, dir, [], name, None) ==
                SlotFor(v.fat, v.g.Limit(), v.data, cluster, visited, name, deleted)
      decreases MAX_DIRECTORY_CLUSTERS - |visited|
    {
      if |visited| == MAX_DIRECTORY_CLUSTERS { return Err(ChainTooLong); }
      if cluster in visited { return Err(ChainLoop); }
      if !IsAllocatable(v.g, cluster) { return Err(CorruptChain); }
      var s, _ := ScanCluster(v, cluster, name);
      match s {
        case Found(k) =>
          var sector := v.ReadSector(cluster, k / 16);
          var slot: Slot := sector[32 * (k % 16)..32 * (k % 16) + 32];
          SlotInSector(sector, 16 * (k / 16), k % 16, v.data[cluster]);
          var e := CheckedEntry(slot);
          return if e.Ok? then Ok(Located(cluster, k, e.value)) else Err(e.error);
        case EndAt(_) => return Err(NotFound);
        case Exhausted =>
      }
      var link := v.NextCluster(cluster);
      if link.Corrupt? { return Err(CorruptChain); }
      if link.End? { return Err(NotFound); }
      deleted := Remember(v.data[cluster], cluster, name, deleted);
      visited := visited + [cluster];
      cluster := link.cluster;
    }
  }

  // ------------------------------------------------------------ the steps

  function Marked(s: Slot): Slot { s[0 := DELETED] }

  /** A delete that went through. */
  ghost predicate DeleteSteps(g: Geometry, fat: Fat, data: Clusters, fat': Fat, data': Clusters, dir: nat,
                              short: ShortName, at: Located, removed: seq<nat>)
    requires g.Limit() <= |fat| && |data| == g.Limit()
  {
    && LocatedBy(data, SlotFor(fat, g.Limit(), data, dir, [], short, None)) == Ok(at)
    && 2 <= at.cluster < g.Limit() && 32 * at.index + 32 <= |data[at.cluster]|
    && (if at.entry.firstCluster < 2 then removed == []
       else IsChain(fat, g.Limit(), removed) && removed[0] == at.entry.firstCluster)
    && data' == data[at.cluster := Splice(data[at.cluster], 32 * at.index, Marked(SlotAt(data[at.cluster], at.index)))]
    && fat' == Cleared(fat, removed)
  }

  /** Why a chain cannot be freed. */
  ghost function ChainRefusal(fat: Fat, lim: nat, start: nat): Option<Error>
    requires lim <= |fat|
  {
    if Cycles(fat, lim, start) then Some(ChainLoop) else if Breaks(fat, lim, start) then Some(CorruptChain) else None
  }

  /** Why an entry that was found cannot be deleted, in the order in which it is found out. */
  ghost function EntryKept(fat: Fat, lim: nat, data: Clusters, e: Entry): Option<Error>
    requires lim <= |fat| && |data| == lim
  {
    if HasBit(e.attributes, ATTR_READ_ONLY) then Some(ReadOnly)
    else if IsDirectory(e.attributes) then
      match EmptyFrom(fat, lim, data, e.firstCluster, [])
      case Err(error) => Some(error)
      case Ok(empty) => if empty then ChainRefusal(fat, lim, e.firstCluster) else Some(DirectoryNotEmpty)
    else if e.firstCluster >= 2 then ChainRefusal(fat, lim, e.firstCluster)
    else None
  }

  /** Why a name of directory `dir` cannot be deleted. */
  ghost function DeleteRefusal(fat: Fat, lim: nat, data: Clusters, dir: nat, short: ShortName): Option<Error>
    requires lim <= |fat| && |data| == lim
  {
    match LocatedBy(data, SlotFor(fat, lim, data, dir, [], short, None))
    case Err(error) => Some(error)
    case Ok(at) => EntryKept(fat, lim, data, at.entry)
  }

  /** What may be deleted: a file, or a directory whose content is empty, not read-only, with a proper chain. */
  method CheckDeletable(v: Volume, e: Entry, ghost ch: seq<nat>) returns (r: Result<()>)
    requires v.Valid()
    ensures Foretold(EntryKept(v.fat, v.g.Limit(), v.data, e), r, false)
    ensures r.Ok? ==>
              !HasBit(e.attributes, ATTR_READ_ONLY) && (e.firstCluster >= 2 || IsDirectory(e.attributes) ==>
              Terminates(v.fat, v.g.Limit(), e.firstCluster))
    ensures IsDirectory(e.attributes) && IsChain(v.fat, v.g.Limit(), ch) && ch[0] == e.firstCluster &&
            InData(v.data, ch) && EndTail(Content(v.data, ch)) ==>
              && (r.Ok? ==> EmptyContent(Content(v.data, ch)))
              && (!HasBit(e.attributes, ATTR_READ_ONLY) && |ch| <= MAX_DIRECTORY_CLUSTERS ==>
                    if EmptyContent(Content(v.data, ch)) then r.Ok? else r == Err(DirectoryNotEmpty))
    ensures
      !IsDirectory(e.attributes) && !HasBit(e.attributes, ATTR_READ_ONLY) &&
      (e.firstCluster >= 2 ==> Terminates(v.fat, v.g.Limit(), e.firstCluster)) ==>
        r.Ok?
  {
    Trichotomy(v.fat, v.g.Limit(), e.firstCluster);
    if HasBit(e.attributes, ATTR_READ_ONLY) { return Err(ReadOnly); }
    if IsDirectory(e.attributes) {
      var empty := DirectoryIsEmpty(v, e.firstCluster, ch);
      if empty.Err? { return Err(empty.error); }
      if !empty.value { return Err(DirectoryNotEmpty); }
      assert IsChain(v.fat, v.g.Limit(), ch) && ch[0] == e.firstCluster ==>
               Terminates(v.fat, v.g.Limit(), e.firstCluster);
      r := ValidateClusterChain(v, e.firstCluster);
    } else if e.firstCluster >= 2 {
      r := ValidateClusterChain(v, e.firstCluster);
    } else {
      r := Ok(());
    }
  }

  /** As far as the tree can tell, the entry may be deleted. */
  ghost predicate Deletable(g: Geometry, b: Disk, e: Entry) {
    && !HasBit(e.attributes, ATTR_READ_ONLY)
    && (IsDirectory(e.attributes) && e.firstCluster in b.chains ==>
          var ch := b.chains[e.firstCluster];
          g.Limit() <= |b.fat| && IsChain(b.fat, g.Limit(), ch) && ch[0] == e.firstCluster && InData(b.data, ch) &&
          EndTail(Content(b.data, ch)) ==>
            EmptyContent(Content(b.data, ch)))
  }

  method MarkAndFree(v: Volume, at: Located, ghost removed: seq<nat>) returns (r: Result<()>)
    requires v.Valid() && IsAllocatable(v.g, at.cluster) && 32 * at.index + 32 <= |v.data[at.cluster]|
    requires if at.entry.firstCluster < 2 then removed == []
             else IsChain(v.fat, v.g.Limit(), removed) && removed[0] == at.entry.firstCluster
    modifies v
    ensures v.Valid()
    ensures CountMatches(v.g, old(v.info), old(v.fat)) ==> CountMatches(v.g, v.info, v.fat)
    ensures r.Err? ==> r == Err(Block) && v.fat == old(v.fat) && v.data == old(v.data) && exists n :: v.faults(n)
    ensures r.Ok? ==>
      && v.data == old(v.data)[at.cluster := Splice(old(v.data)[at.cluster], 32 * at.index,
         Marked(SlotAt(old(v.data)[at.cluster], at.index)))]
      && v.fat == Cleared(old(v.fat), removed)
  {
    var sector := v.ReadSector(at.cluster, at.index / 16);
    var slot: Slot := sector[32 * (at.index % 16)..32 * (at.index % 16) + 32];
    SlotInSector(sector, 16 * (at.index / 16), at.index % 16, v.data[at.cluster]);
    r := WriteSlot(v, at.cluster, at.index, Marked(slot));
    if r.Ok? {
      assert Cleared(v.fat, []) == v.fat;
      if at.entry.firstCluster >= 2 {
        if CountMatches(v.g, v.info, v.fat) { FreeKeepsCount(v.g, v.info, v.fat, removed); }
        assert IsChain(v.fat, v.g.Limit(), removed);
        r := FreeClusterChain(v, at.entry.firstCluster);
      }
    }
  }

  // ---------------------------------------------------------- the outcome

  /** Everything a delete means: one slot is marked, the chain it owned is free,
      and nothing else changed. */
  ghost predicate EntryDeleted(g: Geometry, b: Disk, a: Disk, dir: nat, k: nat, gone: set<nat>) {
    && dir in b.tree.dirs && 32 * k + 32 <= |b.tree.dirs[dir]| && gone == Owned(SlotAt(b.tree.dirs[dir], k)) &&
       dir !in gone
    && a.tree.dirs == b.tree.dirs[dir := Splice(b.tree.dirs[dir], 32 * k, Marked(SlotAt(b.tree.dirs[dir], k)))] - gone
    && a.chains == b.chains - gone && OthersUntouched(b, a, dir, gone)
    && (forall h, c :: h in gone && h in b.chains && c in b.chains[h] && c < |a.fat| ==> a.fat[c] == 0)
    && (forall o :: o in gone && o in b.tree.dirs ==> EmptyContent(b.tree.dirs[o]))
  }

  lemma MarkedOwnsNothing(s: Slot)
    ensures Marked(s)[0] == DELETED && !IsOwner(Marked(s)) && Owned(Marked(s)) == {}
  {
  }

  lemma ReadySlot(g: Geometry, b: Disk, dir: nat, short: ShortName, res: Reservation, i: nat, k: nat)
    requires Good(g, b) && dir in b.tree.dirs && SlotReady(b.data, b.chains[dir], b.tree.dirs[dir], short, res, i, k)
    ensures SlotAt(b.tree.dirs[dir], k) == SlotAt(b.data[res.cluster], res.index)
  {
    ChainNoDuplicates(b.fat, g.Limit(), b.chains[dir]);
    PutContent(b.data, b.chains[dir], i, res.index, SlotAt(b.data[res.cluster], res.index));
  }

  /** The slot found, as a reservation of itself. */
  lemma LocatedReady(g: Geometry, b: Disk, dir: nat, short: ShortName, at: Located)
    returns (res: Reservation, i: nat, k: nat)
    requires Good(g, b) && dir in b.tree.dirs && Proper(short)
    requires LocatedBy(b.data, SlotFor(b.fat, g.Limit(), b.data, dir, [], short, None)) == Ok(at)
    requires 2 <= at.cluster < g.Limit() && 32 * at.index + 32 <= |b.data[at.cluster]|
    ensures res == Reservation(at.cluster, at.index, Some(at.entry), None)
    ensures SlotReady(b.data, b.chains[dir], b.tree.dirs[dir], short, res, i, k) && i < MAX_DIRECTORY_CLUSTERS
    ensures SlotAt(b.tree.dirs[dir], k) == SlotAt(b.data[at.cluster], at.index)
  {
    var p := SlotFor(b.fat, g.Limit(), b.data, dir, [], short, None);
    res := Reservation(at.cluster, at.index, Some(at.entry), None);
    assert b.chains[dir][0] == dir;
    PlanMeaning(b.fat, g.Limit(), b.data, b.chains[dir], short);
    i, k := StayMove(g, b.fat, b.data, b.chains, b.tree, dir, short, p, res);
    ReadySlot(g, b, dir, short, res, i, k);
  }

  /** The chain of a located entry is one of the volume's. */
  lemma LocatedChain(g: Geometry, b: Disk, dir: nat, short: ShortName, at: Located)
    requires Good(g, b) && dir in b.tree.dirs && Proper(short)
    requires LocatedBy(b.data, SlotFor(b.fat, g.Limit(), b.data, dir, [], short, None)) == Ok(at)
    requires 2 <= at.cluster < g.Limit() && 32 * at.index + 32 <= |b.data[at.cluster]|
    ensures at.entry.firstCluster >= 2 ==>
              var h := at.entry.firstCluster;
              && h in b.chains && IsChain(b.fat, g.Limit(), b.chains[h]) && b.chains[h][0] == h &&
                 InData(b.data, b.chains[h])
              && Terminates(b.fat, g.Limit(), h)
              && (IsDirectory(at.entry.attributes) ==>
                 h in b.tree.dirs && b.tree.dirs[h] == Content(b.data, b.chains[h]) && EndTail(b.tree.dirs[h]))
  {
    var res, i, k := LocatedReady(g, b, dir, short, at);
    SlotOwner(g.rootCluster, b.tree, dir, b.data, b.chains[dir], short, res, i, k);
    if at.entry.firstCluster >= 2 {
      assert IsChain(b.fat, g.Limit(), b.chains[at.entry.firstCluster]);
    }
  }

  /** The name leads to something that may be deleted. */
  ghost predicate MayDelete(g: Geometry, b: Disk, dir: nat, short: ShortName)
    requires g.Limit() <= |b.fat| && |b.data| == g.Limit()
  {
    var found := LocatedBy(b.data, SlotFor(b.fat, g.Limit(), b.data, dir, [], short, None));
    && found.Ok? && !HasBit(found.value.entry.attributes, ATTR_READ_ONLY)
    && var h := found.value.entry.firstCluster;
       IsDirectory(found.value.entry.attributes) ==>
         h in b.tree.dirs && h in b.chains && EmptyContent(b.tree.dirs[h]) && |b.chains[h]| <= MAX_DIRECTORY_CLUSTERS
  }

  /** On a volume that represents a tree, an entry that is not read-only is refused only as a directory: one that owns
      something, or one too long to be searched. */
  lemma DeleteRefusalMeans(g: Geometry, b: Disk, dir: nat, short: ShortName, at: Located)
    requires Good(g, b) && dir in b.tree.dirs && Proper(short)
    requires LocatedBy(b.data, SlotFor(b.fat, g.Limit(), b.data, dir, [], short, None)) == Ok(at)
    requires 2 <= at.cluster < g.Limit() && 32 * at.index + 32 <= |b.data[at.cluster]|
    requires !HasBit(at.entry.attributes, ATTR_READ_ONLY)
    ensures var refusal, h := DeleteRefusal(b.fat, g.Limit(), b.data, dir, short), at.entry.firstCluster;
            if !IsDirectory(at.entry.attributes) then refusal.None?
            else
              && h in b.tree.dirs && h in b.chains
              && refusal in {None, Some(DirectoryNotEmpty), Some(ChainTooLong)}
              && (refusal == Some(ChainTooLong) ==> |b.chains[h]| > MAX_DIRECTORY_CLUSTERS)
              && (refusal != Some(ChainTooLong) ==> (refusal.None? <==> EmptyContent(b.tree.dirs[h])))
  {
    LocatedChain(g, b, dir, short, at);
    var h := at.entry.firstCluster;
    Trichotomy(b.fat, g.Limit(), h);
    if IsDirectory(at.entry.attributes) { EmptyFromMeans(b.fat, g.Limit(), b.data, b.chains[h], [], h); }
  }

  /** The body of `delete_path`, below the directory that holds the name. */
  method DeleteStepwise(v: Volume, dir: nat, short: ShortName, ghost b: Disk)
    returns (r: Result<()>, ghost at: Located, ghost removed: seq<nat>)
    requires v.Valid() && b.fat == v.fat && b.data == v.data
    modifies v
    ensures v.Valid()
    ensures CountMatches(v.g, old(v.info), old(v.fat)) ==> CountMatches(v.g, v.info, v.fat)
    ensures r.Err? ==> v.fat == old(v.fat) && v.data == old(v.data)
    ensures r.Ok? ==>
              DeleteSteps(v.g, b.fat, b.data, v.fat, v.data, dir, short, at, removed) && Deletable(v.g, b, at.entry)
    ensures Foretold(DeleteRefusal(old(v.fat), v.g.Limit(), old(v.data), dir, short), r, exists n :: v.faults(n))
    ensures r.Err? && Good(v.g, b) && dir in b.tree.dirs && Proper(short) && MayDelete(v.g, b, dir, short) ==>
              r == Err(Block) && exists n :: v.faults(n)
  {
    at, removed := Located(0, 0, Entry(short, 0, 0, 0)), [];
    var found := FindExistingSlot(v, dir, short);
    if found.Err? { return Err(found.error), at, removed; }
    at := found.value;
    if Good(v.g, b) && dir in b.tree.dirs && Proper(short) { LocatedChain(v.g, b, dir, short, at); }
    r := CheckDeletable(v, found.value.entry, if at.entry.firstCluster in b.chains then b.chains[at.entry.firstCluster]
        else []);
    if r.Ok? {
      if at.entry.firstCluster >= 2 {
        removed :| IsChain(v.fat, v.g.Limit(), removed) && removed[0] == at.entry.firstCluster;
      }
      r := MarkAndFree(v, found.value, removed);
    }
  }

  /** What the located slot owns. */
  lemma LocatedOwns(root: nat, t: Tree, dir: nat, data: Clusters, ch: seq<nat>, short: ShortName, res: Reservation,
                    i: nat, k: nat)
    requires TreeOk(root, t) && dir in t.dirs && Proper(short) && res.existing.Some? &&
             SlotReady(data, ch, t.dirs[dir], short, res, i, k)
    ensures OwnerSlot(t.dirs[dir], k) && DecodeEntry(SlotAt(t.dirs[dir], k)) == res.existing.value
    ensures Owned(SlotAt(t.dirs[dir], k)) == if res.existing.value.firstCluster < 2 then {}
            else {res.existing.value.firstCluster}
  {
    SlotOwner(root, t, dir, data, ch, short, res, i, k);
  }

  /** Marking the slot keeps the volume good. */
  lemma DeleteMark(g: Geometry, b: Disk, dir: nat, short: ShortName, res: Reservation, i: nat, k: nat)
    requires Settled(g, b, dir, short, res, i, k)
    ensures Good(g, Published(b, dir, res, k, Marked(SlotAt(b.tree.dirs[dir], k))))
  {
    MarkedOwnsNothing(SlotAt(b.tree.dirs[dir], k));
    PublishedGood(g, b, dir, short, res, i, k, Marked(SlotAt(b.tree.dirs[dir], k)));
  }

  /** What marking does to the tree. */
  lemma MarkedTree(b: Disk, dir: nat, res: Reservation, k: nat)
    requires b.tree.orphans == {} && dir in b.tree.dirs && 32 * k + 32 <= |b.tree.dirs[dir]|
    requires res.cluster < |b.data| && 32 * res.index + 32 <= |b.data[res.cluster]|
    ensures var d3 := Published(b, dir, res, k, Marked(SlotAt(b.tree.dirs[dir], k)));
            && d3.fat == b.fat && d3.tree.orphans == Owned(SlotAt(b.tree.dirs[dir], k))
            && d3.tree.dirs.Keys == b.tree.dirs.Keys &&
               (forall d :: d in b.tree.dirs && d != dir ==> d3.tree.dirs[d] == b.tree.dirs[d])
  {
    MarkedOwnsNothing(SlotAt(b.tree.dirs[dir], k));
  }

  /** Freeing what the marked slot owned keeps the volume good. */
  lemma DeleteFree(g: Geometry, b: Disk, d3: Disk, dir: nat, removed: seq<nat>)
    requires Good(g, d3) && d3.fat == b.fat && d3.tree.orphans == GoneSet(removed)
    requires removed != [] ==> IsChain(b.fat, g.Limit(), removed) && removed[0] != dir
    requires d3.tree.dirs.Keys == b.tree.dirs.Keys &&
             (forall d :: d in b.tree.dirs && d != dir ==> d3.tree.dirs[d] == b.tree.dirs[d])
    requires forall o :: o in GoneSet(removed) && o in b.tree.dirs ==> EmptyContent(b.tree.dirs[o])
    ensures Good(g, Freed(d3, removed)) && Freed(d3, removed).tree.orphans == {} &&
            Freed(d3, removed).fat == Cleared(b.fat, removed)
  {
    assert Cleared(b.fat, []) == b.fat;
    FreedGood(g, d3, removed);
  }

  /** A removed directory owns nothing, and is not the directory it is removed from. */
  lemma EmptyRemoved(g: Geometry, b: Disk, dir: nat, at: Located, removed: seq<nat>, k: nat)
    requires Good(g, b) && dir in b.tree.dirs && OwnerSlot(b.tree.dirs[dir], k) &&
             DecodeEntry(SlotAt(b.tree.dirs[dir], k)) == at.entry
    requires Deletable(g, b, at.entry) && (removed != [] ==> removed[0] == at.entry.firstCluster >= 2)
    ensures removed != [] ==> removed[0] != dir
    ensures removed != [] && removed[0] in b.tree.dirs ==> EmptyContent(b.tree.dirs[removed[0]])
  {
    assert SlotSound(g.rootCluster, b.tree, SlotAt(b.tree.dirs[dir], k));
    if removed != [] && removed[0] in b.tree.dirs {
      assert b.chains[removed[0]][0] == removed[0];
      assert EmptyContent(b.tree.dirs[removed[0]]);
    }
  }

  /** Marking the slot and freeing its chain keeps the volume good. */
  lemma DeleteGood(g: Geometry, b: Disk, dir: nat, short: ShortName, at: Located, removed: seq<nat>, res: Reservation,
                   i: nat, k: nat)
    returns (a: Disk)
    requires Settled(g, b, dir, short, res, i, k) && b.tree.orphans == {} && Proper(short)
    requires if at.entry.firstCluster < 2 then removed == []
             else IsChain(b.fat, g.Limit(), removed) && removed[0] == at.entry.firstCluster
    requires Deletable(g, b, at.entry) && res.existing == Some(at.entry)
    ensures a == Freed(Published(b, dir, res, k, Marked(SlotAt(b.tree.dirs[dir], k))), removed)
    ensures Good(g, a) && a.tree.orphans == {} && a.fat == Cleared(b.fat, removed)
    ensures Owned(SlotAt(b.tree.dirs[dir], k)) == GoneSet(removed) && dir !in GoneSet(removed)
    ensures forall o :: o in GoneSet(removed) && o in b.tree.dirs ==> EmptyContent(b.tree.dirs[o])
  {
    LocatedOwns(g.rootCluster, b.tree, dir, b.data, b.chains[dir], short, res, i, k);
    EmptyRemoved(g, b, dir, at, removed, k);
    DeleteMark(g, b, dir, short, res, i, k);
    MarkedTree(b, dir, res, k);
    var d3 := Published(b, dir, res, k, Marked(SlotAt(b.tree.dirs[dir], k)));
    DeleteFree(g, b, d3, dir, removed);
    a := Freed(d3, removed);
  }

  lemma DeleteChanged(b: Disk, a: Disk, dir: nat, res: Reservation, k: nat, removed: seq<nat>)
    requires dir in b.tree.dirs && 32 * k + 32 <= |b.tree.dirs[dir]| && res.cluster < |b.data| &&
             32 * res.index + 32 <= |b.data[res.cluster]|
    requires a == Freed(Published(b, dir, res, k, Marked(SlotAt(b.tree.dirs[dir], k))), removed)
    ensures a.tree.dirs == b.tree.dirs[dir := Splice(b.tree.dirs[dir], 32 * k,
            Marked(SlotAt(b.tree.dirs[dir], k)))] - GoneSet(removed)
    ensures a.chains == b.chains - GoneSet(removed)
    ensures OnlyClusters(b.data, a.data, [res.cluster])
  {
    MinusNone(b.chains);
    var dirs := b.tree.dirs[dir := Splice(b.tree.dirs[dir], 32 * k, Marked(SlotAt(b.tree.dirs[dir], k)))];
    if removed == [] {
      assert dirs - {} == dirs;
    }
  }

  lemma DeleteOthers(g: Geometry, b: Disk, a: Disk, dir: nat, c: nat, gone: set<nat>)
    requires Good(g, b) && dir in b.tree.dirs && c in b.chains[dir] && OnlyClusters(b.data, a.data, [c]) &&
             a.chains == b.chains - gone
    ensures OthersUntouched(b, a, dir, gone)
  {
    forall h | h in b.chains && h !in gone && h != dir
      ensures InData(b.data, b.chains[h]) && InData(a.data, b.chains[h]) &&
              Content(a.data, b.chains[h]) == Content(b.data, b.chains[h])
      ensures forall m :: 0 <= m < |b.chains[h]| ==> a.data[b.chains[h][m]] == b.data[b.chains[h][m]]
    {
      PublishedElsewhere(g, b, dir, c, a.data, h);
      forall m | 0 <= m < |b.chains[h]| ensures a.data[b.chains[h][m]] == b.data[b.chains[h][m]] {
        assert b.chains[h][m] in b.chains[h];
      }
    }
  }

  lemma LiveIsOwner(s: Slot, short: ShortName)
    requires LiveNamed(s, short) && Proper(short)
    ensures IsOwner(s)
  {
    assert s[..11][0] == s[0];
    assert DOT[0] == 0x2e && DOT_DOT[0] == 0x2e;
  }

  /** The deleted name is gone; every other name is as before. */
  lemma MarkedVerdicts(content: seq<Byte>, k: nat, short: ShortName, name: ShortName)
    requires 32 * k + 32 <= |content| && IsFirst(content, short, k) && OwnerSlot(content, k) && UniqueNames(content) &&
             Proper(short)
    ensures var c' := Splice(content, 32 * k, Marked(SlotAt(content, k)));
            Verdict(c', name) == if name == short then Err(NotFound) else Verdict(content, name)
  {
    var s := Marked(SlotAt(content, k));
    var c' := Splice(content, 32 * k, s);
    forall j: nat ensures 32 * j + 32 <= |content| ==> SlotAt(c', j) == if j == k then s else SlotAt(content, j) {
      SpliceSlots(content, k, s, j);
    }
    if name == short {
      forall j: nat ensures !IsFirst(c', short, j) {
        if IsFirst(c', short, j) && j != k {
          LiveIsOwner(SlotAt(content, j), short);
          assert OwnerSlot(content, j);
        }
      }
      VerdictNone(c', short);
    } else {
      forall j: nat ensures IsFirst(c', name, j) <==> IsFirst(content, name, j) {
      }
      SameVerdict(content, c', name);
    }
  }

  lemma MarkedNames(content: seq<Byte>, k: nat)
    requires 32 * k + 32 <= |content| && UniqueNames(content)
    ensures UniqueNames(Splice(content, 32 * k, Marked(SlotAt(content, k))))
  {
    var s := Marked(SlotAt(content, k));
    var c' := Splice(content, 32 * k, s);
    forall j: nat | OwnerSlot(c', j) ensures j != k && OwnerSlot(content, j) && SlotAt(c', j) == SlotAt(content, j) {
      SpliceSlots(content, k, s, j);
    }
  }

  ghost predicate LookupsAfterDelete(g: Geometry, b: Disk, a: Disk, dir: nat, short: ShortName, gone: set<nat>)
    requires g.Limit() <= |b.fat| && |b.data| == g.Limit() && g.Limit() <= |a.fat| && |a.data| == g.Limit() &&
             dir in b.chains
  {
    && (|b.chains[dir]| <= MAX_DIRECTORY_CLUSTERS ==>
          forall name :: Find(g, a, dir, name) == if name == short then Err(NotFound) else Find(g, b, dir, name))
    && (forall d, name :: d in b.tree.dirs && d != dir && d !in gone ==> Find(g, a, d, name) == Find(g, b, d, name))
  }

  /** One name of the directory, after the mark. */
  lemma DeleteReader(g: Geometry, b: Disk, a: Disk, dir: nat, short: ShortName, k: nat, name: ShortName)
    requires Good(g, b) && Good(g, a) && dir in b.tree.dirs && dir in a.tree.dirs && Proper(short) &&
             UniqueNames(b.tree.dirs[dir])
    requires IsFirst(b.tree.dirs[dir], short, k) && OwnerSlot(b.tree.dirs[dir], k)
    requires a.tree.dirs[dir] == Splice(b.tree.dirs[dir], 32 * k, Marked(SlotAt(b.tree.dirs[dir], k)))
    requires a.chains[dir] == b.chains[dir] && |b.chains[dir]| <= MAX_DIRECTORY_CLUSTERS
    ensures Find(g, a, dir, name) == if name == short then Err(NotFound) else Find(g, b, dir, name)
  {
    FindShort(g, a, dir, name);
    FindShort(g, b, dir, name);
    MarkedVerdicts(b.tree.dirs[dir], k, short, name);
  }

  lemma DeleteReaders(g: Geometry, b: Disk, a: Disk, dir: nat, short: ShortName, k: nat, gone: set<nat>)
    requires Good(g, b) && Good(g, a) && Unambiguous(b.tree) && dir in b.tree.dirs && Proper(short)
    requires IsFirst(b.tree.dirs[dir], short, k) && OwnerSlot(b.tree.dirs[dir], k) &&
             EntryDeleted(g, b, a, dir, k, gone)
    ensures LookupsAfterDelete(g, b, a, dir, short, gone)
  {
    if |b.chains[dir]| <= MAX_DIRECTORY_CLUSTERS {
      forall name ensures Find(g, a, dir, name) == if name == short then Err(NotFound) else Find(g, b, dir, name) {
        DeleteReader(g, b, a, dir, short, k, name);
      }
    }
    forall d, name | d in b.tree.dirs && d != dir && d !in gone ensures Find(g, a, d, name) == Find(g, b, d, name) {
      CreatedKeepsDirectories(g, b, a, dir, d, name, gone);
    }
  }

  lemma DeleteKeepsNames(g: Geometry, b: Disk, a: Disk, dir: nat, k: nat, gone: set<nat>)
    requires Unambiguous(b.tree) && EntryDeleted(g, b, a, dir, k, gone)
    ensures Unambiguous(a.tree)
  {
    MarkedNames(b.tree.dirs[dir], k);
  }

  /** Everything a successful delete means. */
  lemma DeleteTheorem(g: Geometry, b: Disk, fat': Fat, data': Clusters, dir: nat, short: ShortName, at: Located,
                      removed: seq<nat>)
    returns (a: Disk, k: nat)
    requires Represents(g, b) && dir in b.tree.dirs && Proper(short)
    requires DeleteSteps(g, b.fat, b.data, fat', data', dir, short, at, removed) && Deletable(g, b, at.entry)
    ensures a.fat == fat' && a.data == data' && Represents(g, a)
    ensures EntryDeleted(g, b, a, dir, k, GoneSet(removed)) && IsFirst(b.tree.dirs[dir], short, k)
    ensures LookupsAfterDelete(g, b, a, dir, short, GoneSet(removed))
  {
    var res, i;
    res, i, k := LocatedReady(g, b, dir, short, at);
    a := DeleteGood(g, b, dir, short, at, removed, res, i, k);
    DeleteChanged(b, a, dir, res, k, removed);
    assert b.chains[dir][i] == at.cluster;
    DeleteOthers(g, b, a, dir, at.cluster, GoneSet(removed));
    forall h, c | h in GoneSet(removed) && h in b.chains && c in b.chains[h] && c < |a.fat| ensures a.fat[c] == 0 {
      GoneIsFree(g, b, removed, b.fat, h, c);
    }
    SlotOwner(g.rootCluster, b.tree, dir, b.data, b.chains[dir], short, res, i, k);
    DeleteReaders(g, b, a, dir, short, k, GoneSet(removed));
    DeleteKeepsNames(g, b, a, dir, k, GoneSet(removed));
  }

  /** `delete_path` for a name of directory `dir`: a failure changes nothing at
      all; success marks the slot, frees its chain and changes nothing else. A
      directory that still owns something is never deleted. */
  method DeleteEntry(v: Volume, dir: nat, name: seq<Byte>, ghost b: Disk)
    returns (r: Result<()>, ghost a: Disk, ghost gone: set<nat>, ghost k: nat)
    requires v.Valid() && b.fat == v.fat && b.data == v.data
    modifies v
    ensures v.Valid()
    ensures CountMatches(v.g, old(v.info), old(v.fat)) ==> CountMatches(v.g, v.info, v.fat)
    ensures r.Err? ==> v.fat == old(v.fat) && v.data == old(v.data) && a == b
    ensures EncodeShortName(name).None? ==> r == Err(NameTooLong)
    ensures EncodeShortName(name).Some? ==>
              Foretold(DeleteRefusal(b.fat, v.g.Limit(), b.data, dir, EncodeShortName(name).value), r,
              exists n :: v.faults(n))
    ensures a.fat == v.fat && a.data == v.data
    ensures Represents(v.g, b) && dir in b.tree.dirs ==> Represents(v.g, a)
    ensures Represents(v.g, b) && dir in b.tree.dirs && EncodeShortName(name).Some? &&
            MayDelete(v.g, b, dir, EncodeShortName(name).value) && r.Err? ==>
              r == Err(Block) && exists n :: v.faults(n)
    ensures r.Ok? && Represents(v.g, b) && dir in b.tree.dirs ==>
              && EntryDeleted(v.g, b, a, dir, k, gone) && IsFirst(b.tree.dirs[dir], EncodeShortName(name).value, k)
              && LookupsAfterDelete(v.g, b, a, dir, EncodeShortName(name).value, gone)
  {
    a, gone, k := b, {}, 0;
    var encoded := EncodeShortName(name);
    if encoded.None? {
      r := Err(NameTooLong);
    } else {
      ghost var at, removed;
      r, at, removed := DeleteStepwise(v, dir, encoded.value, b);
      if r.Ok? {
        gone := GoneSet(removed);
        a := Disk(v.fat, v.data, b.chains, b.tree);
        if Represents(v.g, b) && dir in b.tree.dirs {
          a, k := DeleteTheorem(v.g, b, v.fat, v.data, dir, encoded.value, at, removed);
        }
      }
    }
  }
}
