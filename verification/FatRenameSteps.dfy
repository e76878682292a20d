/** Renaming step by step, and taking the steps back when one fails. */
module FatRenameSteps {
  import opened Bytes
  import opened FatChain
  import opened FatVolume
  import opened FatAlloc
  import opened FatFile
  import opened FatDirectory
  import opened FatTree
  import opened FatSpace
  import opened FatPlan
  import opened FatReserve
  import opened FatMoves
  import opened FatCreate
  import opened FatOutcome
  import opened FatLookups
  import opened FatFiles
  import opened FatDelete
  import opened FatRename

  // ----------------------------------------------------------- unharmed

  /** The volume represents a tree with the same entries on the same chains. */
  ghost predicate Unharmed(g: Geometry, b: Disk, a: Disk) {
    Represents(g, a) && SameEntries(b.tree, a.tree) && a.chains == b.chains
  }

  lemma QuietNamesTree(t: Tree, d: nat, k: nat, s: Slot)
    requires Unambiguous(t) && d in t.dirs && 32 * k + 32 <= |t.dirs[d]| && !IsOwner(s)
    ensures Unambiguous(WithSlot(t, d, k, s))
  {
    QuietNames(t.dirs[d], k, s);
  }

  /** A slot that owned nothing may say anything that owns nothing. */
  lemma QuietWrite(g: Geometry, b: Disk, dir: nat, i: nat, j: nat, k: nat, s: Slot)
    requires Represents(g, b) && Placed(b, dir, i, j, k) && !IsOwner(SlotAt(b.tree.dirs[dir], k)) && !IsOwner(s) &&
             s[0] != 0
    requires SlotAt(b.tree.dirs[dir], k)[0] == 0 ==> forall m :: 0 <= m < k ==> SlotAt(b.tree.dirs[dir], m)[0] != 0
    ensures Unharmed(g, b, Written(b, dir, i, j, k, s))
  {
    WrittenGood(g, b, dir, i, j, k, s);
    QuietPut(b.tree, dir, k, s);
    QuietNamesTree(b.tree, dir, k, s);
  }

  /** The FAT is as it was, and the cluster the directory was extended by is free again. */
  lemma ExtensionUndone(g: Geometry, b: Disk, fat1: Fat, data1: Clusters, p: Plan, res: Reservation, s: Slot)
    requires g.Limit() <= |b.fat| && |b.data| == g.Limit() && Reserved(g, b.fat, b.data, fat1, data1, p, res) &&
             res.extension.Some?
    ensures Restored(g.Limit(), b.fat, b.data, Undone(b.fat, res), Put(data1, res.cluster, res.index, s))
  {
    var fat', data' := Undone(b.fat, res), Put(data1, res.cluster, res.index, s);
    forall c | 2 <= c < g.Limit()
      ensures LinkOf(fat', g.Limit(), c) == LinkOf(b.fat, g.Limit(), c) && (fat'[c] == 0 <==> b.fat[c] == 0) &&
              (fat'[c] == FAT_BAD <==> b.fat[c] == FAT_BAD)
    {
      if fat'[c] != b.fat[c] { assert LinkOf(b.fat, g.Limit(), c) == End; }
    }
    forall c | 2 <= c < g.Limit() && b.fat[c] != 0 ensures data'[c] == b.data[c] {
      assert data1[c] == b.data[c];
    }
  }

  /** The new slot is taken back: it is marked, or its cluster is gone. */
  lemma SlotWithdrawn(g: Geometry, b: Disk, nd: nat, new': ShortName, fat1: Fat, data1: Clusters, p: Plan,
                      res: Reservation, s: Slot, marked: bool)
    returns (m: Disk)
    requires Represents(g, b) && nd in b.tree.dirs && p == SlotFor(b.fat, g.Limit(), b.data, nd, [], new', None)
    requires Reserved(g, b.fat, b.data, fat1, data1, p, res) && res.existing.None? && (marked || res.extension.Some?)
    ensures m.fat == Undone(b.fat, res) && m.data == Put(data1, res.cluster, res.index, if marked then Marked(s) else s)
    ensures Unharmed(g, b, m)
  {
    var u := if marked then Marked(s) else s;
    if res.extension.Some? {
      ExtensionUndone(g, b, fat1, data1, p, res, u);
      m := Disk(Undone(b.fat, res), Put(data1, res.cluster, res.index, u), b.chains, b.tree);
      ReservedAligned(g, b.fat, b.data, p, res, fat1, data1);
      AlignedPut(data1, res.cluster, res.index, u);
      RestoredRepresents(g, b, m.fat, m.data);
      SameEntriesSelf(b.tree);
    } else {
      var i, k := NewPlace(g, b, nd, new', fat1, data1, p, res);
      assert Grown(g, b, nd, fat1, data1, res) == b;
      MarkedOwnsNothing(s);
      QuietWrite(g, b, nd, i, res.index, k, Marked(s));
      m := Written(b, nd, i, res.index, k, Marked(s));
    }
  }

  /** Another parent in ".." harms nothing. */
  lemma DotUnharmed(g: Geometry, b: Disk, m: Disk, x: nat, dot: nat, parent: nat) returns (a: Disk)
    requires Unharmed(g, b, m) && x in b.tree.dirs && x < |m.data| && 32 * dot + 32 <= |m.data[x]| &&
             SlotAt(m.data[x], dot)[..11] == DOT_DOT
    requires parent < 0x1_0000_0000
    ensures Unharmed(g, b, a) && a.fat == m.fat &&
            a.data == Put(m.data, x, dot, Pointed(SlotAt(m.data[x], dot), parent))
  {
    FirstPlaced(g, m, x, dot);
    PlacedSlot(g, m, x, 0, dot, dot);
    var s := SlotAt(m.data[x], dot);
    DotOwnsNothing(s);
    PointedIsDot(s, parent);
    QuietWrite(g, m, x, 0, dot, dot, Pointed(s, parent));
    a := Written(m, x, 0, dot, dot, Pointed(s, parent));
    SameEntriesOn(b.tree, m.tree, a.tree);
  }

  // ------------------------------------------------------------ the steps

  ghost function PlaceRefusal(g: Geometry, fat: Fat, p: Plan): Option<Error>
    requires g.Limit() <= |fat|
  {
    if !SlotAvailable(g, fat, p) then Some(if p.Refuse? then p.error else NoSpace)
    else if p.Existing? then Some(AlreadyExists) else None
  }

  /** Reserve a slot of `nd` and write the entry there under its new name; a failure changes nothing. */
  method PlaceEntry(v: Volume, nd: nat, new': ShortName, s: Slot)
    returns (r: Result<Reservation>, ghost data1: Clusters)
    requires v.Valid()
    modifies v
    ensures v.Valid()
    ensures CountMatches(v.g, old(v.info), old(v.fat)) ==> CountMatches(v.g, v.info, v.fat)
    ensures r.Err? ==> Restored(v.g.Limit(), old(v.fat), old(v.data), v.fat, v.data)
    ensures var p := SlotFor(old(v.fat), v.g.Limit(), old(v.data), nd, [], new', None);
            && (r.Ok? ==> Reserved(v.g, old(v.fat), old(v.data), v.fat, data1, p, r.value) && r.value.existing.None?
                          && v.data == Put(data1, r.value.cluster, r.value.index, Renamed(s, new')))
            && Foretold(PlaceRefusal(v.g, old(v.fat), p), r, exists n :: v.faults(n))
  {
    ghost var fat0, data0 := v.fat, v.data;
    ghost var p := SlotFor(v.fat, v.g.Limit(), v.data, nd, [], new', None);
    var res := FindDirectorySlot(v, nd, new');
    data1 := v.data;
    if res.Err? { return Err(res.error), data1; }
    RestoredSame(v.g.Limit(), fat0, data0);
    if res.value.existing.Some? { return Err(AlreadyExists), data1; }
    var wrote := WriteSlot(v, res.value.cluster, res.value.index, Renamed(s, new'));
    if wrote.Err? {
      RollbackReservedSlot(v, res.value, p, fat0, data0, data1, []);
      return Err(wrote.error), data1;
    }
    r := Ok(res.value);
  }

  method MarkSlot(v: Volume, c: nat, k: nat) returns (r: Result<()>)
    requires v.Valid() && IsAllocatable(v.g, c) && 32 * k + 32 <= |v.data[c]|
    modifies v
    ensures v.Valid() && v.fat == old(v.fat) && v.info == old(v.info)
    ensures r.Err? ==> r == Err(Block) && v.data == old(v.data) && exists n :: v.faults(n)
    ensures r.Ok? ==> v.data == Put(old(v.data), c, k, Marked(SlotAt(old(v.data)[c], k)))
  {
    var sector := v.ReadSector(c, k / 16);
    var slot: Slot := sector[32 * (k % 16)..32 * (k % 16) + 32];
    SlotInSector(sector, 16 * (k / 16), k % 16, v.data[c]);
    r := WriteSlot(v, c, k, Marked(slot));
  }

  /** The clusters after the new slot was marked, or not, and the old parent put back, or not. */
  ghost function Withdrawn(data: Clusters, c: nat, j: nat, marked: bool, back: bool, x: nat, dot: nat,
                           od: nat): Clusters
    requires c < |data| && 32 * j + 32 <= |data[c]| && od < 0x1_0000_0000 &&
             (back ==> x < |data| && 32 * dot + 32 <= |data[x]|)
  {
    var here := if marked then Put(data, c, j, Marked(SlotAt(data[c], j))) else data;
    if back then Put(here, x, dot, Pointed(SlotAt(here[x], dot), od)) else here
  }

  /** Take the new slot back, and the parent's entry if it was changed; what fails on the way is ignored. */
  method TakeBack(v: Volume, res: Reservation, repointed: bool, x: nat, od: nat, ghost p: Plan, ghost fat0: Fat,
                  ghost data0: Clusters, ghost data1: Clusters)
    returns (ghost marked: bool, ghost back: bool, ghost dot: nat)
    requires v.Valid() && v.g.Limit() <= |fat0| && |data0| == v.g.Limit() &&
             Reserved(v.g, fat0, data0, v.fat, data1, p, res)
    requires 32 * res.index + 32 <= |v.data[res.cluster]| && od < 0x1_0000_0000
    modifies v
    ensures v.Valid() && v.fat == Undone(fat0, res)
    ensures CountMatches(v.g, old(v.info), old(v.fat)) ==> CountMatches(v.g, v.info, v.fat)
    ensures back ==> repointed && 2 <= x < |old(v.data)| && 32 * dot + 32 <= |old(v.data)[x]|
    ensures v.data == Withdrawn(old(v.data), res.cluster, res.index, marked, back, x, dot, od)
    ensures back ==>
              SlotAt((if marked then Put(old(v.data), res.cluster, res.index,
              Marked(SlotAt(old(v.data)[res.cluster], res.index))) else old(v.data))[x], dot)[..11] == DOT_DOT
    ensures !marked ==> exists n :: v.faults(n)
  {
    var r := MarkSlot(v, res.cluster, res.index);
    marked, back, dot := r.Ok?, false, 0;
    if repointed {
      var u;
      u, dot := UpdateDotDot(v, x, od);
      back := u.Ok?;
    }
    UnlinkReserved(v, res, p, fat0, data0, data1);
  }

  // ------------------------------------------------------ a step that fails

  /** Marking the new slot after ".." was changed is the same as before. */
  lemma MarkedLate(data: Clusters, c: nat, j: nat, s: Slot, isDir: bool, x: nat, dot: nat, parent: nat)
    requires c < |data| && 32 * j + 32 <= |data[c]| && parent < 0x1_0000_0000
    requires isDir ==> x < |data| && 32 * dot + 32 <= |data[x]| && !(x == c && dot == j)
    ensures var there := NewData(data, c, j, s, isDir, x, dot, parent);
            SlotAt(there[c], j) == s && Put(there, c, j, Marked(s)) ==
            NewData(data, c, j, Marked(s), isDir, x, dot, parent)
  {
    var placed := Put(data, c, j, s);
    PutSlot(data, c, j, s, c, j);
    PutTwice(data, c, j, s, Marked(s));
    if isDir {
      var dd := Pointed(SlotAt(placed[x], dot), parent);
      PutSlot(placed, x, dot, dd, c, j);
      PutsCommute(placed, x, dot, dd, c, j, Marked(s));
      PutSlot(data, c, j, s, x, dot);
      PutSlot(data, c, j, Marked(s), x, dot);
    }
  }

  /** The new slot and ".." are different slots. */
  lemma NewIsNotDot(data: Clusters, c: nat, j: nat, s: Slot, short: ShortName, x: nat, dot: nat)
    requires c < |data| && 32 * j + 32 <= |data[c]| && x < |data| && 32 * dot + 32 <= |data[x]| && Proper(short)
    requires SlotAt(Put(data, c, j, Renamed(s, short))[x], dot)[..11] == DOT_DOT
    ensures !(x == c && dot == j)
  {
    PutSlot(data, c, j, Renamed(s, short), x, dot);
    DotOwnsNothing(SlotAt(Put(data, c, j, Renamed(s, short))[x], dot));
    assert Renamed(s, short)[..11] == short && short[0] == Renamed(s, short)[0];
  }

  /** What is known once the entry has been placed. */
  ghost predicate PlacedNew(g: Geometry, b: Disk, nd: nat, new': ShortName, fat1: Fat, data1: Clusters,
                            res: Reservation)
    requires g.Limit() <= |b.fat| && |b.data| == g.Limit()
  {
    && Represents(g, b) && nd in b.tree.dirs && Proper(new')
    && Reserved(g, b.fat, b.data, fat1, data1, SlotFor(b.fat, g.Limit(), b.data, nd, [], new', None), res) &&
       res.existing.None?
  }

  /** The writes of a move that was taken back: the entry's new slot, ".." if it was changed, and what undid them. */
  ghost predicate BackWrites(data1: Clusters, data': Clusters, s: Slot, res: Reservation, new': ShortName, isDir: bool,
                             x: nat, dot: nat, nd: nat,
                             marked: bool, back: bool, dot2: nat, od: nat) {
    && res.cluster < |data1| && 32 * res.index + 32 <= |data1[res.cluster]| && nd < 0x1_0000_0000 && od < 0x1_0000_0000
    && (isDir ==>
       x < |data1| && 32 * dot + 32 <= |data1[x]| &&
       SlotAt(Put(data1, res.cluster, res.index, Renamed(s, new'))[x], dot)[..11] == DOT_DOT)
    && (back ==> isDir && 32 * dot2 + 32 <= |data1[x]|)
    && var there := NewData(data1, res.cluster, res.index, Renamed(s, new'), isDir, x, dot, nd);
       && data' == Withdrawn(there, res.cluster, res.index, marked, back, x, dot2, od)
       && (back ==>
          SlotAt((if marked then Put(there, res.cluster, res.index, Marked(SlotAt(there[res.cluster], res.index)))
          else there)[x], dot2)[..11] == DOT_DOT)
  }

  /** Unless the new slot stays as it is in a cluster the directory had before, taking back leaves no harm. */
  lemma TakenBack(g: Geometry, b: Disk, nd: nat, new': ShortName, fat1: Fat, data1: Clusters, res: Reservation, s: Slot,
                  isDir: bool, x: nat, dot: nat, marked: bool, back: bool, dot2: nat, od: nat,
                  data': Clusters) returns (a: Disk)
    requires g.Limit() <= |b.fat| && |b.data| == g.Limit() && PlacedNew(g, b, nd, new', fat1, data1, res) &&
             (isDir ==> x in b.tree.dirs)
    requires BackWrites(data1, data', s, res, new', isDir, x, dot, nd, marked, back, dot2, od) &&
             (marked || res.extension.Some?)
    ensures Unharmed(g, b, a) && a.fat == Undone(b.fat, res) && a.data == data'
  {
    var p := SlotFor(b.fat, g.Limit(), b.data, nd, [], new', None);
    var s1 := Renamed(s, new');
    var u := if marked then Marked(s1) else s1;
    if isDir { NewIsNotDot(data1, res.cluster, res.index, s, new', x, dot); }
    MarkedLate(data1, res.cluster, res.index, s1, isDir, x, dot, nd);
    a := SlotWithdrawn(g, b, nd, new', fat1, data1, p, res, s1, marked);
    if isDir {
      PutSlot(data1, res.cluster, res.index, s1, x, dot);
      PutSlot(data1, res.cluster, res.index, u, x, dot);
      a := DotUnharmed(g, b, a, x, dot, nd);
      if back { a := DotUnharmed(g, b, a, x, dot2, od); }
    }
  }

  // --------------------------------------------------- ".." before and after

  lemma VacantThere(g: Geometry, b: Disk, nd: nat, new': ShortName, fat1: Fat, data1: Clusters, res: Reservation)
    requires g.Limit() <= |b.fat| && |b.data| == g.Limit() && PlacedNew(g, b, nd, new', fat1, data1, res)
    ensures res.cluster < |data1| && 32 * res.index + 32 <= |data1[res.cluster]| &&
            SlotAt(data1[res.cluster], res.index)[0] in {0, DELETED}
  {
    var i, k := NewPlace(g, b, nd, new', fat1, data1, SlotFor(b.fat, g.Limit(), b.data, nd, [], new', None), res);
    PlacedSlot(g, Grown(g, b, nd, fat1, data1, res), nd, i, res.index, k);
  }

  lemma NotExtended(g: Geometry, b: Disk, nd: nat, fat1: Fat, data1: Clusters, p: Plan, res: Reservation, x: nat)
    requires Good(g, b) && Reserved(g, b.fat, b.data, fat1, data1, p, res) && x in b.tree.dirs && res.cluster == x
    ensures data1 == b.data
  {
    if p.Extend? {
      assert b.chains[x][0] == x;
      FreeOnNoChain(b.fat, g.Limit(), b.chains, x);
    }
  }

  lemma SameCluster(g: Geometry, b: Disk, nd: nat, fat1: Fat, data1: Clusters, p: Plan, res: Reservation, x: nat)
    requires Good(g, b) && Reserved(g, b.fat, b.data, fat1, data1, p, res) && x in b.tree.dirs && x < |b.data| &&
             res.cluster != x
    ensures data1[x] == b.data[x]
  {
  }

  /** The cluster `x` before and after the new slot was written. */
  lemma FirstClusters(g: Geometry, b: Disk, nd: nat, new': ShortName, fat1: Fat, data1: Clusters, res: Reservation,
                      x: nat)
    requires g.Limit() <= |b.fat| && |b.data| == g.Limit() && PlacedNew(g, b, nd, new', fat1, data1, res) &&
             x in b.tree.dirs && x < |b.data|
    ensures |data1| == |b.data| && data1[x] == b.data[x]
  {
    var p := SlotFor(b.fat, g.Limit(), b.data, nd, [], new', None);
    if res.cluster == x {
      NotExtended(g, b, nd, fat1, data1, p, res, x);
    } else {
      SameCluster(g, b, nd, fat1, data1, p, res, x);
    }
  }

  lemma VacancyAsideAt(d: seq<Byte>, j: nat, s: Slot, m: nat)
    requires 32 * j + 32 <= |d| && SlotAt(d, j)[0] in {0, DELETED} && s[0] != 0 && s[..11] != DOT_DOT
    requires forall i: nat, m: nat {:trigger SlotAt(d, i), SlotAt(d, m)} ::
               i < m && 32 * m + 32 <= |d| && SlotAt(d, i)[0] == 0 ==> SlotAt(d, m)[0] == 0
    ensures DotDotAt(Splice(d, 32 * j, s), m) <==> DotDotAt(d, m)
  {
    var d' := Splice(d, 32 * j, s);
    forall i: nat ensures 32 * i + 32 <= |d| ==>
          SlotAt(d', i) == if i == j then s else SlotAt(d, i) { SpliceSlots(d, j, s, i); }
    if 32 * m + 32 <= |d| && SlotAt(d, m)[..11] == DOT_DOT { DotOwnsNothing(SlotAt(d, m)); }
  }

  lemma VacancyAside(d: seq<Byte>, j: nat, s: Slot)
    requires 32 * j + 32 <= |d| && SlotAt(d, j)[0] in {0, DELETED} && s[0] != 0 && s[..11] != DOT_DOT
    requires forall i: nat, m: nat {:trigger SlotAt(d, i), SlotAt(d, m)} ::
               i < m && 32 * m + 32 <= |d| && SlotAt(d, i)[0] == 0 ==> SlotAt(d, m)[0] == 0
    ensures (exists m :: DotDotAt(Splice(d, 32 * j, s), m)) <==> (exists m :: DotDotAt(d, m))
  {
    var d' := Splice(d, 32 * j, s);
    forall m: nat ensures DotDotAt(d', m) <==> DotDotAt(d, m) {
      VacancyAsideAt(d, j, s, m);
    }
  }

  /** The new slot, wherever it is, does not hide or show a "..". */
  lemma DotDotSame(data: Clusters, c: nat, j: nat, s: Slot, x: nat)
    requires c < |data| && 32 * j + 32 <= |data[c]| && SlotAt(data[c], j)[0] in {0, DELETED} && s[0] != 0 &&
             s[..11] != DOT_DOT && x < |data|
    requires forall i: nat, m: nat {:trigger SlotAt(data[x], i), SlotAt(data[x], m)} ::
               i < m && 32 * m + 32 <= |data[x]| && SlotAt(data[x], i)[0] == 0 ==> SlotAt(data[x], m)[0] == 0
    ensures (exists m :: DotDotAt(Put(data, c, j, s)[x], m)) <==> (exists m :: DotDotAt(data[x], m))
  {
    assert Put(data, c, j, s)[x] == if c == x then Splice(data[x], 32 * j, s) else data[x];
    if c == x { VacancyAside(data[x], j, s); }
  }

  /** After an end mark in a directory's first cluster, every slot of it is one. */
  lemma FirstTail(g: Geometry, b: Disk, x: nat)
    requires Good(g, b) && x in b.tree.dirs && x < |b.data|
    ensures forall j: nat, m: nat {:trigger SlotAt(b.data[x], j), SlotAt(b.data[x], m)} ::
              j < m && 32 * m + 32 <= |b.data[x]| && SlotAt(b.data[x], j)[0] == 0 ==> SlotAt(b.data[x], m)[0] == 0
  {
    forall j: nat, m: nat | j < m && 32 * m + 32 <= |b.data[x]| && SlotAt(b.data[x], j)[0] == 0
        ensures SlotAt(b.data[x], m)[0] == 0 {
      FirstPlaced(g, b, x, j);
      FirstPlaced(g, b, x, m);
      PlacedSlot(g, b, x, 0, j, j);
      PlacedSlot(g, b, x, 0, m, m);
    }
  }

  // ----------------------------------------------------------- the move

  /** The entry that is moved, where it was found. */
  ghost predicate FoundAt(g: Geometry, b: Disk, od: nat, old': ShortName, at: Located)
    requires g.Limit() <= |b.fat| && |b.data| == g.Limit()
  {
    && Represents(g, b) && od in b.tree.dirs && Proper(old')
    && LocatedBy(b.data, SlotFor(b.fat, g.Limit(), b.data, od, [], old', None)) == Ok(at)
    && 2 <= at.cluster < g.Limit() && 32 * at.index + 32 <= |b.data[at.cluster]|
  }

  /** A directory that was found is one of the tree. */
  lemma FoundIsDirectory(g: Geometry, b: Disk, od: nat, old': ShortName, at: Located)
    requires g.Limit() <= |b.fat| && |b.data| == g.Limit() && FoundAt(g, b, od, old', at)
    ensures IsDirectory(at.entry.attributes) <==> at.entry.firstCluster in b.tree.dirs
    ensures IsDirectory(at.entry.attributes) ==> 2 <= at.entry.firstCluster < g.Limit()
  {
    var res, i, k := LocatedReady(g, b, od, old', at);
    LocatedOwns(g.rootCluster, b.tree, od, b.data, b.chains[od], old', res, i, k);
    assert SlotSound(g.rootCluster, b.tree, SlotAt(b.tree.dirs[od], k));
    if at.entry.firstCluster in b.tree.dirs { assert b.chains[at.entry.firstCluster][0] == at.entry.firstCluster; }
  }

  ghost function DotRefusal(data: Clusters, e: Entry): Option<Error> {
    if IsDirectory(e.attributes) && e.firstCluster < |data| then DotMissing(data[e.firstCluster]) else None
  }

  /** Why an entry cannot be moved to another directory. */
  ghost function MoveRefusal(g: Geometry, b: Disk, at: Located, nd: nat, new': ShortName): Option<Error>
    requires g.Limit() <= |b.fat| && |b.data| == g.Limit()
  {
    var full := PlaceRefusal(g, b.fat, SlotFor(b.fat, g.Limit(), b.data, nd, [], new', None));
    if full.Some? then full else DotRefusal(b.data, at.entry)
  }

  ghost predicate InsideData(data: Clusters, c: nat, j: nat) {
    c < |data| && 32 * j + 32 <= |data[c]|
  }

  /** Two live slots name the same chain. */
  ghost predicate Doubled(data: Clusters, at: Located, s: Slot, new': ShortName) {
    && at.cluster < |data| && 32 * at.index + 32 <= |data[at.cluster]| && SlotAt(data[at.cluster], at.index) == s
    && exists c: nat, j: nat ::
         InsideData(data, c, j) && !(c == at.cluster && j == at.index) && SlotAt(data[c], j) == Renamed(s, new')
  }

  /** What a failed move leaves: no harm, or, if the device refused to mark the new slot too, the entry in both
      places. */
  ghost predicate MoveFailed(g: Geometry, b: Disk, a: Disk, at: Located, s: Slot, new': ShortName, stuck: bool) {
    if stuck then Doubled(a.data, at, s, new') else Unharmed(g, b, a)
  }

  /** Slot `dot` of cluster `x` is a ".." once the new slot is written. */
  ghost predicate DotShown(data: Clusters, res: Reservation, s: Slot, x: nat, dot: nat) {
    && InsideData(data, res.cluster, res.index) && InsideData(data, x, dot)
    && SlotAt(Put(data, res.cluster, res.index, s)[x], dot)[..11] == DOT_DOT
  }

  /** How the steps after the new slot ended: with the mark over the old slot, or taken back. */
  datatype Ending = Through(dot: nat) | Back(repointed: bool, dot: nat, marked: bool, back: bool, dot2: nat)

  ghost predicate Ended(fat0: Fat, fat1: Fat, data1: Clusters, fat': Fat, data': Clusters, od: nat, at: Located,
                        s: Slot, nd: nat, new': ShortName, res: Reservation, e: Ending) {
    match e
    case Through(dot) => fat' == fat1 && MoveWrites(data1, data', s, at, res, new', dot, nd)
    case Back(repointed, dot, marked, back, dot2) =>
      && fat' == Undone(fat0, res) && (repointed ==> IsDirectory(at.entry.attributes))
      && BackWrites(data1, data', s, res, new', repointed, at.entry.firstCluster, dot, nd, marked, back, dot2, od)
  }

  /** Take the steps back; `repointed` when ".." had been changed. */
  method Abandon(v: Volume, od: nat, at: Located, nd: nat, new': ShortName, s: Slot, res: Reservation, repointed: bool,
                 ghost dot: nat,
                 ghost p: Plan, ghost fat0: Fat, ghost data0: Clusters, ghost data1: Clusters) returns (ghost e: Ending)
    requires v.Valid() && v.g.Limit() <= |fat0| && |data0| == v.g.Limit() && od < 0x1_0000_0000 && nd < 0x1_0000_0000
    requires Reserved(v.g, fat0, data0, v.fat, data1, p, res)
    requires repointed ==>
               IsDirectory(at.entry.attributes) && DotShown(data1, res, Renamed(s, new'), at.entry.firstCluster, dot)
    requires v.data == NewData(data1, res.cluster, res.index, Renamed(s, new'), repointed, at.entry.firstCluster, dot,
             nd)
    modifies v
    ensures v.Valid()
    ensures CountMatches(v.g, old(v.info), old(v.fat)) ==> CountMatches(v.g, v.info, v.fat)
    ensures e.Back? && Ended(fat0, old(v.fat), data1, v.fat, v.data, od, at, s, nd, new', res, e)
    ensures !e.marked ==> exists n :: v.faults(n)
  {
    ghost var marked, back, dot2;
    marked, back, dot2 := TakeBack(v, res, repointed, at.entry.firstCluster, od, p, fat0, data0, data1);
    e := Back(repointed, dot, marked, back, dot2);
  }

  /** Changing ".." leaves both slots of the entry. */
  lemma DotWritten(data: Clusters, x: nat, dot: nat, parent: nat, at: Located, s: Slot, res: Reservation,
                   new': ShortName)
    requires x < |data| && 32 * dot + 32 <= |data[x]| && SlotAt(data[x], dot)[..11] == DOT_DOT &&
             parent < 0x1_0000_0000 && Proper(new')
    requires InsideData(data, at.cluster, at.index) && SlotAt(data[at.cluster], at.index) == s && IsOwner(s)
    requires InsideData(data, res.cluster, res.index) && SlotAt(data[res.cluster], res.index) == Renamed(s, new')
    ensures var d' := Put(data, x, dot, Pointed(SlotAt(data[x], dot), parent));
            SlotAt(d'[at.cluster], at.index) == s && SlotAt(d'[res.cluster], res.index) == Renamed(s, new')
  {
    DotOwnsNothing(SlotAt(data[x], dot));
    RenamedSays(s, new');
    PutSlot(data, x, dot, Pointed(SlotAt(data[x], dot), parent), at.cluster, at.index);
    PutSlot(data, x, dot, Pointed(SlotAt(data[x], dot), parent), res.cluster, res.index);
  }

  lemma OldSlotApart(g: Geometry, b: Disk, od: nat, old': ShortName, at: Located, nd: nat, new': ShortName, fat1: Fat,
                     data1: Clusters, res: Reservation)
    requires g.Limit() <= |b.fat| && |b.data| == g.Limit() && FoundAt(g, b, od, old', at) && od != nd &&
             PlacedNew(g, b, nd, new', fat1, data1, res)
    ensures at.cluster != res.cluster && at.cluster < |data1| && data1[at.cluster] == b.data[at.cluster] &&
            IsOwner(SlotAt(b.data[at.cluster], at.index))
  {
    var p := SlotFor(b.fat, g.Limit(), b.data, nd, [], new', None);
    var i1, k1 := OldPlace(g, b, od, old', at, nd, fat1, data1, p, res);
    var i2, k2 := NewPlace(g, b, nd, new', fat1, data1, p, res);
    var d := Grown(g, b, nd, fat1, data1, res);
    assert at.cluster in d.chains[od] && res.cluster in d.chains[nd];
  }

  /** The entry stays in both places. */
  lemma StaysDoubled(g: Geometry, b: Disk, od: nat, old': ShortName, at: Located, nd: nat, new': ShortName, fat1: Fat,
                     data1: Clusters, res: Reservation, s: Slot,
                     isDir: bool, dot: nat, back: bool, dot2: nat, data': Clusters)
    requires g.Limit() <= |b.fat| && |b.data| == g.Limit() && FoundAt(g, b, od, old', at) && od != nd &&
             s == SlotAt(b.data[at.cluster], at.index)
    requires PlacedNew(g, b, nd, new', fat1, data1, res)
    requires BackWrites(data1, data', s, res, new', isDir, at.entry.firstCluster, dot, nd, false, back, dot2, od)
    ensures Doubled(data', at, s, new')
  {
    var x := at.entry.firstCluster;
    var there := NewData(data1, res.cluster, res.index, Renamed(s, new'), isDir, x, dot, nd);
    OldSlotApart(g, b, od, old', at, nd, new', fat1, data1, res);
    PutSlot(data1, res.cluster, res.index, Renamed(s, new'), at.cluster, at.index);
    PutSlot(data1, res.cluster, res.index, Renamed(s, new'), res.cluster, res.index);
    if isDir { DotWritten(Put(data1, res.cluster, res.index, Renamed(s, new')), x, dot, nd, at, s, res, new'); }
    if back { DotWritten(there, x, dot2, od, at, s, res, new'); }
    assert InsideData(data', res.cluster, res.index);
  }

  /** Everything that must hold of a move across directories. */
  ghost predicate Sound(g: Geometry, b: Disk, od: nat, old': ShortName, at: Located, nd: nat, new': ShortName, s: Slot)
    requires g.Limit() <= |b.fat| && |b.data| == g.Limit()
  {
    FoundAt(g, b, od, old', at) && nd in b.tree.dirs && od != nd && Proper(new') &&
    s == SlotAt(b.data[at.cluster], at.index)
  }

  /** ".." can be found in the moved directory exactly when it could be before. */
  lemma DotDotForetold(g: Geometry, b: Disk, nd: nat, new': ShortName, fat1: Fat, data1: Clusters, res: Reservation,
                       s: Slot, x: nat)
    requires g.Limit() <= |b.fat| && |b.data| == g.Limit() && PlacedNew(g, b, nd, new', fat1, data1, res) &&
             x in b.tree.dirs && x < |b.data|
    ensures res.cluster < |data1| && 32 * res.index + 32 <= |data1[res.cluster]| && x < |data1|
    ensures (exists m :: DotDotAt(Put(data1, res.cluster, res.index, Renamed(s, new'))[x], m)) <==>
              (exists m :: DotDotAt(b.data[x], m))
  {
    VacantThere(g, b, nd, new', fat1, data1, res);
    FirstClusters(g, b, nd, new', fat1, data1, res, x);
    FirstTail(g, b, x);
    assert Renamed(s, new')[..11] == new' && new'[0] == Renamed(s, new')[0] && DOT_DOT[0] == 0x2e;
    DotDotSame(data1, res.cluster, res.index, Renamed(s, new'), x);
  }

  lemma SameDotRefusal(g: Geometry, b: Disk, od: nat, old': ShortName, at: Located, nd: nat, new': ShortName, s: Slot,
                       fat1: Fat, data1: Clusters, res: Reservation)
    requires g.Limit() <= |b.fat| && |b.data| == g.Limit() && Sound(g, b, od, old', at, nd, new', s) &&
             PlacedNew(g, b, nd, new', fat1, data1, res)
    ensures InsideData(data1, res.cluster, res.index)
    ensures DotRefusal(Put(data1, res.cluster, res.index, Renamed(s, new')), at.entry) == DotRefusal(b.data, at.entry)
    ensures IsDirectory(at.entry.attributes) ==> IsAllocatable(g, at.entry.firstCluster)
  {
    FoundIsDirectory(g, b, od, old', at);
    if IsDirectory(at.entry.attributes) { DotDotForetold(g, b, nd, new', fat1, data1, res, s, at.entry.firstCluster); }
    else { VacantThere(g, b, nd, new', fat1, data1, res); }
  }

  /** The last step: the mark over the old slot. */
  method LeaveOld(v: Volume, od: nat, at: Located, s: Slot, nd: nat, new': ShortName, res: Reservation, ghost dot: nat,
                  ghost p: Plan, ghost fat0: Fat, ghost data0: Clusters, ghost data1: Clusters)
    returns (r: Result<()>, ghost e: Ending)
    requires v.Valid() && v.g.Limit() <= |fat0| && |data0| == v.g.Limit() && od < 0x1_0000_0000 && nd < 0x1_0000_0000
    requires IsAllocatable(v.g, at.cluster) && 32 * at.index + 32 <= |v.data[at.cluster]| &&
             Reserved(v.g, fat0, data0, v.fat, data1, p, res)
    requires IsDirectory(at.entry.attributes) ==> DotShown(data1, res, Renamed(s, new'), at.entry.firstCluster, dot)
    requires v.data == NewData(data1, res.cluster, res.index, Renamed(s, new'), IsDirectory(at.entry.attributes),
             at.entry.firstCluster, dot, nd)
    modifies v
    ensures v.Valid()
    ensures CountMatches(v.g, old(v.info), old(v.fat)) ==> CountMatches(v.g, v.info, v.fat)
    ensures Ended(fat0, old(v.fat), data1, v.fat, v.data, od, at, s, nd, new', res, e) && (r.Ok? <==> e.Through?)
    ensures r.Err? ==> r == Err(Block) && exists n :: v.faults(n)
  {
    e := Through(dot);
    r := MarkSlot(v, at.cluster, at.index);
    if r.Err? { e := Abandon(v, od, at, nd, new', s, res, IsDirectory(at.entry.attributes), dot, p, fat0, data0, data1);
        }
  }

  /** Of a directory, ".." is changed first. */
  method FinishDirectory(v: Volume, od: nat, at: Located, s: Slot, nd: nat, new': ShortName, res: Reservation,
                         ghost p: Plan, ghost fat0: Fat, ghost data0: Clusters, ghost data1: Clusters)
    returns (r: Result<()>, ghost e: Ending)
    requires v.Valid() && v.g.Limit() <= |fat0| && |data0| == v.g.Limit() && od < 0x1_0000_0000 && nd < 0x1_0000_0000
    requires IsAllocatable(v.g, at.cluster) && 32 * at.index + 32 <= |v.data[at.cluster]| &&
             Reserved(v.g, fat0, data0, v.fat, data1, p, res)
    requires v.data == Put(data1, res.cluster, res.index, Renamed(s, new')) && IsDirectory(at.entry.attributes)
    modifies v
    ensures v.Valid()
    ensures CountMatches(v.g, old(v.info), old(v.fat)) ==> CountMatches(v.g, v.info, v.fat)
    ensures Ended(fat0, old(v.fat), data1, v.fat, v.data, od, at, s, nd, new', res, e) && (r.Ok? <==> e.Through?)
    ensures e.Back? && !e.marked ==> exists n :: v.faults(n)
    ensures IsAllocatable(v.g, at.entry.firstCluster) ==>
              Foretold(DotRefusal(old(v.data), at.entry), r, exists n :: v.faults(n))
  {
    ghost var dot;
    r, dot := UpdateDotDot(v, at.entry.firstCluster, nd);
    if r.Err? {
      e := Abandon(v, od, at, nd, new', s, res, false, dot, p, fat0, data0, data1);
    } else {
      r, e := LeaveOld(v, od, at, s, nd, new', res, dot, p, fat0, data0, data1);
    }
  }

  /** The steps once the new slot is written: the new parent in the ".." of a directory, and then the mark over the old
      slot. */
  method FinishMove(v: Volume, od: nat, at: Located, s: Slot, nd: nat, new': ShortName, res: Reservation,
                    ghost p: Plan, ghost fat0: Fat, ghost data0: Clusters, ghost data1: Clusters)
    returns (r: Result<()>, ghost e: Ending)
    requires v.Valid() && v.g.Limit() <= |fat0| && |data0| == v.g.Limit() && od < 0x1_0000_0000 && nd < 0x1_0000_0000
    requires IsAllocatable(v.g, at.cluster) && 32 * at.index + 32 <= |v.data[at.cluster]| &&
             Reserved(v.g, fat0, data0, v.fat, data1, p, res)
    requires v.data == Put(data1, res.cluster, res.index, Renamed(s, new'))
    modifies v
    ensures v.Valid()
    ensures CountMatches(v.g, old(v.info), old(v.fat)) ==> CountMatches(v.g, v.info, v.fat)
    ensures Ended(fat0, old(v.fat), data1, v.fat, v.data, od, at, s, nd, new', res, e) && (r.Ok? <==> e.Through?)
    ensures e.Back? && !e.marked ==> exists n :: v.faults(n)
    ensures (IsDirectory(at.entry.attributes) ==> IsAllocatable(v.g, at.entry.firstCluster)) ==>
              Foretold(DotRefusal(old(v.data), at.entry), r, exists n :: v.faults(n))
  {
    if IsDirectory(at.entry.attributes) {
      r, e := FinishDirectory(v, od, at, s, nd, new', res, p, fat0, data0, data1);
    } else {
      r, e := LeaveOld(v, od, at, s, nd, new', res, 0, p, fat0, data0, data1);
    }
  }

  /** The entry `s` has its new place and name, and, of a directory that moved, ".." names its new parent. */
  ghost predicate Done(g: Geometry, b: Disk, a: Disk, od: nat, at: Located, s: Slot, nd: nat, new': ShortName, k1: nat,
                       k2: nat) {
    && Represents(g, a) && Relabelled(b.tree, a.tree, od, k1, nd, k2, new') && SlotAt(b.tree.dirs[od], k1) == s
    && (IsDirectory(at.entry.attributes) && od != nd ==> Parented(a.data, at.entry.firstCluster, nd))
  }

  /** How a rename ended. */
  ghost predicate Finished(g: Geometry, b: Disk, a: Disk, od: nat, at: Located, s: Slot, nd: nat, new': ShortName,
                           ok: bool, k1: nat, k2: nat, stuck: bool) {
    FilesKept(b, a) && if ok then Done(g, b, a, od, at, s, nd, new', k1, k2)
    else MoveFailed(g, b, a, at, s, new', stuck)
  }

  lemma FilesSelf(g: Geometry, b: Disk)
    requires Good(g, b)
    ensures FilesKept(b, b)
  {
    FilesOutside(g, b, b, []);
  }

  /** Nothing was done. */
  lemma NothingDone(g: Geometry, b: Disk, od: nat, at: Located, s: Slot, nd: nat, new': ShortName, k1: nat, k2: nat)
    requires Represents(g, b)
    ensures Finished(g, b, b, od, at, s, nd, new', false, k1, k2, false)
  {
    SameEntriesSelf(b.tree);
    FilesSelf(g, b);
  }

  // ------------------------------------------------- files through a rename

  /** The clusters the steps write. */
  ghost function Touched(at: Located, res: Reservation): seq<nat> {
    [at.cluster, res.cluster] + if IsDirectory(at.entry.attributes) then [at.entry.firstCluster] else []
  }

  lemma ReservedTouches(g: Geometry, fat: Fat, data: Clusters, fat1: Fat, data1: Clusters, p: Plan, res: Reservation)
    requires g.Limit() <= |fat| && |data| == g.Limit() && Reserved(g, fat, data, fat1, data1, p, res)
    ensures OnlyClusters(data, data1, [res.cluster])
  {
  }

  lemma EndedTouches(fat0: Fat, fat1: Fat, data: Clusters, data1: Clusters, fat': Fat, data': Clusters, od: nat,
                     at: Located, s: Slot, nd: nat, new': ShortName, res: Reservation, e: Ending)
    requires OnlyClusters(data, data1, [res.cluster]) &&
             Ended(fat0, fat1, data1, fat', data', od, at, s, nd, new', res, e)
    ensures OnlyClusters(data, data', Touched(at, res))
  {
  }

  lemma OldOffFiles(g: Geometry, b: Disk, od: nat, old': ShortName, at: Located)
    requires g.Limit() <= |b.fat| && |b.data| == g.Limit() && FoundAt(g, b, od, old', at)
    ensures OffFiles(b, at.cluster)
  {
    var res, i, k := LocatedReady(g, b, od, old', at);
    DirectoryOffFiles(g, b, od, i);
  }

  lemma NewOffFiles(g: Geometry, b: Disk, nd: nat, new': ShortName, fat1: Fat, data1: Clusters, res: Reservation)
    requires g.Limit() <= |b.fat| && |b.data| == g.Limit() && PlacedNew(g, b, nd, new', fat1, data1, res)
    ensures OffFiles(b, res.cluster)
  {
    if res.extension.Some? {
      FreeOffFiles(g, b, res.cluster);
    } else {
      var i, k := NewPlace(g, b, nd, new', fat1, data1, SlotFor(b.fat, g.Limit(), b.data, nd, [], new', None), res);
      DirectoryOffFiles(g, b, nd, i);
    }
  }

  lemma FirstOffFiles(g: Geometry, b: Disk, x: nat)
    requires Good(g, b) && x in b.tree.dirs
    ensures OffFiles(b, x)
  {
    assert b.chains[x][0] == x;
    DirectoryOffFiles(g, b, x, 0);
  }

  lemma MovedOffFiles(g: Geometry, b: Disk, od: nat, old': ShortName, at: Located)
    requires g.Limit() <= |b.fat| && |b.data| == g.Limit() && FoundAt(g, b, od, old', at) &&
             IsDirectory(at.entry.attributes)
    ensures OffFiles(b, at.entry.firstCluster)
  {
    FoundIsDirectory(g, b, od, old', at);
    FirstOffFiles(g, b, at.entry.firstCluster);
  }

  lemma TouchedOffFiles(g: Geometry, b: Disk, od: nat, old': ShortName, at: Located, nd: nat, new': ShortName, s: Slot,
                        fat1: Fat, data1: Clusters, res: Reservation)
    requires g.Limit() <= |b.fat| && |b.data| == g.Limit() && Sound(g, b, od, old', at, nd, new', s) &&
             PlacedNew(g, b, nd, new', fat1, data1, res)
    ensures forall c :: c in Touched(at, res) ==> OffFiles(b, c)
  {
    OldOffFiles(g, b, od, old', at);
    NewOffFiles(g, b, nd, new', fat1, data1, res);
    if IsDirectory(at.entry.attributes) { MovedOffFiles(g, b, od, old', at); }
  }

  /** However the steps end, no file is touched. */
  lemma EndedKeepsFiles(g: Geometry, b: Disk, od: nat, old': ShortName, at: Located, nd: nat, new': ShortName, s: Slot,
                        fat1: Fat, data1: Clusters, res: Reservation, e: Ending, a: Disk)
    requires g.Limit() <= |b.fat| && |b.data| == g.Limit() && Sound(g, b, od, old', at, nd, new', s) &&
             PlacedNew(g, b, nd, new', fat1, data1, res)
    requires Ended(b.fat, fat1, data1, a.fat, a.data, od, at, s, nd, new', res, e)
    requires nd in b.chains && (a.chains == b.chains || a.chains == ReservedChains(b.chains, nd, res))
    ensures FilesKept(b, a)
  {
    ReservedTouches(g, b.fat, b.data, fat1, data1, SlotFor(b.fat, g.Limit(), b.data, nd, [], new', None), res);
    EndedTouches(b.fat, fat1, b.data, data1, a.fat, a.data, od, at, s, nd, new', res, e);
    TouchedOffFiles(g, b, od, old', at, nd, new', s, fat1, data1, res);
    FilesOutside(g, b, a, Touched(at, res));
  }

  /** Stuck: the device refused to mark the new slot, and it stays in a cluster the directory had before. */
  ghost predicate Stuck(res: Reservation, e: Ending) {
    e.Back? && !e.marked && res.extension.None?
  }

  /** What the steps mean for the tree. */
  lemma EndingMeans(g: Geometry, b: Disk, od: nat, old': ShortName, at: Located, nd: nat, new': ShortName, s: Slot,
                    fat1: Fat, data1: Clusters, res: Reservation, e: Ending, fat': Fat,
                    data': Clusters) returns (a: Disk, k1: nat, k2: nat)
    requires g.Limit() <= |b.fat| && |b.data| == g.Limit() && Sound(g, b, od, old', at, nd, new', s) &&
             PlacedNew(g, b, nd, new', fat1, data1, res)
    requires Ended(b.fat, fat1, data1, fat', data', od, at, s, nd, new', res, e)
    ensures a.fat == fat' && a.data == data' && Finished(g, b, a, od, at, s, nd, new', e.Through?, k1, k2,
            Stuck(res, e))
  {
    FoundIsDirectory(g, b, od, old', at);
    k1, k2 := 0, 0;
    if e.Through? {
      a, k1, k2 := MoveTheorem(g, b, od, old', at, nd, new', fat1, data1, data',
          SlotFor(b.fat, g.Limit(), b.data, nd, [], new', None), res, e.dot);
    } else if Stuck(res, e) {
      StaysDoubled(g, b, od, old', at, nd, new', fat1, data1, res, s, e.repointed, e.dot, e.back, e.dot2, data');
      a := Disk(fat', data', b.chains, b.tree);
    } else {
      a := TakenBack(g, b, nd, new', fat1, data1, res, s, e.repointed, at.entry.firstCluster, e.dot, e.marked, e.back,
          e.dot2, od, data');
    }
    EndedKeepsFiles(g, b, od, old', at, nd, new', s, fat1, data1, res, e, a);
  }

  lemma RestoredFiles(g: Geometry, b: Disk, fat': Fat, data': Clusters)
    requires Good(g, b) && Restored(g.Limit(), b.fat, b.data, fat', data')
    ensures FilesKept(b, Disk(fat', data', b.chains, b.tree))
  {
    forall h | IsFile(b, h) ensures SameChain(b, Disk(fat', data', b.chains, b.tree), h) {
      RestoredChain(g.Limit(), b.fat, b.data, fat', data', b.chains[h]);
    }
  }

  lemma PlacedNothing(v: Volume, b: Disk, od: nat, at: Located, s: Slot, nd: nat, new': ShortName, k1: nat, k2: nat)
    requires v.Valid() && v.g.Limit() <= |b.fat| && Represents(v.g, b) &&
             Restored(v.g.Limit(), b.fat, b.data, v.fat, v.data)
    ensures Finished(v.g, b, Disk(v.fat, v.data, b.chains, b.tree), od, at, s, nd, new', false, k1, k2, false)
  {
    VolumeAligned(v);
    RestoredRepresents(v.g, b, v.fat, v.data);
    SameEntriesSelf(b.tree);
    RestoredFiles(v.g, b, v.fat, v.data);
  }

  /** From one directory to another. */
  method MoveAcross(v: Volume, od: nat, at: Located, s: Slot, nd: nat, new': ShortName, ghost old': ShortName,
                    ghost b: Disk)
    returns (r: Result<()>, ghost a: Disk, ghost k1: nat, ghost k2: nat, ghost stuck: bool)
    requires v.Valid() && b.fat == v.fat && b.data == v.data && od < 0x1_0000_0000 && nd < 0x1_0000_0000
    requires IsAllocatable(v.g, at.cluster) && 32 * at.index + 32 <= |v.data[at.cluster]|
    modifies v
    ensures v.Valid() && a.fat == v.fat && a.data == v.data
    ensures CountMatches(v.g, old(v.info), old(v.fat)) ==> CountMatches(v.g, v.info, v.fat)
    ensures stuck ==> r.Err? && exists n :: v.faults(n)
    ensures Sound(v.g, b, od, old', at, nd, new', s) ==>
              Foretold(MoveRefusal(v.g, b, at, nd, new'), r, exists n :: v.faults(n))
    ensures Sound(v.g, b, od, old', at, nd, new', s) ==> Finished(v.g, b, a, od, at, s, nd, new', r.Ok?, k1, k2, stuck)
  {
    k1, k2, stuck := 0, 0, false;
    ghost var p := SlotFor(v.fat, v.g.Limit(), v.data, nd, [], new', None);
    ghost var data1;
    var placed;
    placed, data1 := PlaceEntry(v, nd, new', s);
    a := Disk(v.fat, v.data, b.chains, b.tree);
    if placed.Err? {
      if Represents(v.g, b) { PlacedNothing(v, b, od, at, s, nd, new', k1, k2); }
      r := Err(placed.error);
    } else {
      ghost var e;
      ghost var fat1 := v.fat;
      if Sound(v.g, b, od, old', at, nd, new', s) { SameDotRefusal(v.g, b, od, old', at, nd, new', s, fat1, data1,
          placed.value); }
      r, e := FinishMove(v, od, at, s, nd, new', placed.value, p, b.fat, b.data, data1);
      stuck := Stuck(placed.value, e);
      a := Disk(v.fat, v.data, b.chains, b.tree);
      if Sound(v.g, b, od, old', at, nd, new', s) {
        a, k1, k2 := EndingMeans(v.g, b, od, old', at, nd, new', s, fat1, data1, placed.value, e, v.fat, v.data);
      }
    }
  }

  // --------------------------------------------------- both parents known

  /** Why an entry that was found cannot be renamed. */
  ghost function RenameRefusal(g: Geometry, b: Disk, od: nat, old': ShortName, at: Located, nd: nat,
                               new': ShortName): Option<Error>
    requires g.Limit() <= |b.fat| && |b.data| == g.Limit()
  {
    if od == nd && old' == new' then None
    else
      match LocatedBy(b.data, SlotFor(b.fat, g.Limit(), b.data, nd, [], new', None))
      case Ok(_) => Some(AlreadyExists)
      case Err(e) => if e != NotFound then Some(e) else if od == nd then None else MoveRefusal(g, b, at, nd, new')
  }

  ghost predicate Renames(g: Geometry, b: Disk, od: nat, old': ShortName, at: Located, nd: nat, new': ShortName)
    requires g.Limit() <= |b.fat| && |b.data| == g.Limit()
  {
    FoundAt(g, b, od, old', at) && nd in b.tree.dirs && Proper(new')
  }

  lemma RelabelledSelf(t: Tree, d: nat, k: nat, name: ShortName)
    requires HasEntry(t, d, k) && SlotAt(t.dirs[d], k)[..11] == name
    ensures Relabelled(t, t, d, k, d, k, name)
  {
    assert Renamed(SlotAt(t.dirs[d], k), name) == SlotAt(t.dirs[d], k);
  }

  /** An entry that stays where it is under its name. */
  lemma SameNameStays(g: Geometry, b: Disk, od: nat, old': ShortName, at: Located) returns (k: nat)
    requires g.Limit() <= |b.fat| && |b.data| == g.Limit() && FoundAt(g, b, od, old', at)
    ensures Finished(g, b, b, od, at, SlotAt(b.data[at.cluster], at.index), od, old', true, k, k, false)
  {
    var res, i;
    res, i, k := LocatedReady(g, b, od, old', at);
    LocatedOwns(g.rootCluster, b.tree, od, b.data, b.chains[od], old', res, i, k);
    RelabelledSelf(b.tree, od, k, old');
    FilesSelf(g, b);
  }

  /** Another name in the same directory: one slot is rewritten. */
  method RenameInPlace(v: Volume, od: nat, at: Located, s: Slot, new': ShortName, ghost old': ShortName, ghost b: Disk)
    returns (r: Result<()>, ghost a: Disk, ghost k: nat)
    requires v.Valid() && b.fat == v.fat && b.data == v.data && od < 0x1_0000_0000
    requires IsAllocatable(v.g, at.cluster) && 32 * at.index + 32 <= |v.data[at.cluster]| &&
             s == SlotAt(v.data[at.cluster], at.index)
    modifies v
    ensures v.Valid() && a.fat == v.fat && a.data == v.data && v.fat == old(v.fat) && v.info == old(v.info)
    ensures r.Err? ==> r == Err(Block) && exists n :: v.faults(n)
    ensures Renames(v.g, b, od, old', at, od, new') && Absent(b.tree.dirs[od], new') ==>
              Finished(v.g, b, a, od, at, s, od, new', r.Ok?, k, k, false)
  {
    k := 0;
    r := WriteSlot(v, at.cluster, at.index, Renamed(s, new'));
    a := if r.Ok? then Disk(v.fat, v.data, b.chains, b.tree) else b;
    if Renames(v.g, b, od, old', at, od, new') && Absent(b.tree.dirs[od], new') {
      if r.Ok? {
        a, k := InPlaceTheorem(v.g, b, od, old', at, new');
      } else {
        NothingDone(v.g, b, od, at, s, od, new', k, k);
      }
    }
  }

  /** The new name is free. */
  method RenameFree(v: Volume, od: nat, at: Located, nd: nat, ghost old': ShortName, new': ShortName, ghost b: Disk)
    returns (r: Result<()>, ghost a: Disk, ghost k1: nat, ghost k2: nat, ghost stuck: bool)
    requires v.Valid() && b.fat == v.fat && b.data == v.data && od < 0x1_0000_0000 && nd < 0x1_0000_0000
    requires IsAllocatable(v.g, at.cluster) && 32 * at.index + 32 <= |v.data[at.cluster]|
    requires Renames(v.g, b, od, old', at, nd, new') ==> Absent(b.tree.dirs[nd], new')
    modifies v
    ensures v.Valid() && a.fat == v.fat && a.data == v.data
    ensures CountMatches(v.g, old(v.info), old(v.fat)) ==> CountMatches(v.g, v.info, v.fat)
    ensures stuck ==> r.Err? && exists n :: v.faults(n)
    ensures Renames(v.g, b, od, old', at, nd, new') ==>
              Foretold(if od == nd then None else MoveRefusal(v.g, b, at, nd, new'), r, exists n :: v.faults(n))
    ensures Renames(v.g, b, od, old', at, nd, new') ==>
              Finished(v.g, b, a, od, at, SlotAt(b.data[at.cluster], at.index), nd, new', r.Ok?, k1, k2, stuck)
  {
    stuck := false;
    var sector := v.ReadSector(at.cluster, at.index / 16);
    var slot: Slot := sector[32 * (at.index % 16)..32 * (at.index % 16) + 32];
    SlotInSector(sector, 16 * (at.index / 16), at.index % 16, v.data[at.cluster]);
    if od == nd {
      r, a, k1 := RenameInPlace(v, od, at, slot, new', old', b);
      k2 := k1;
    } else {
      r, a, k1, k2, stuck := MoveAcross(v, od, at, slot, nd, new', old', b);
    }
  }

  /** The end of `rename_path`, once both parents are known and the entry is found. */
  method RenameResolved(v: Volume, od: nat, at: Located, nd: nat, old': ShortName, new': ShortName, ghost b: Disk)
    returns (r: Result<()>, ghost a: Disk, ghost k1: nat, ghost k2: nat, ghost stuck: bool)
    requires v.Valid() && b.fat == v.fat && b.data == v.data && od < 0x1_0000_0000 && nd < 0x1_0000_0000
    requires IsAllocatable(v.g, at.cluster) && 32 * at.index + 32 <= |v.data[at.cluster]|
    modifies v
    ensures v.Valid() && a.fat == v.fat && a.data == v.data
    ensures CountMatches(v.g, old(v.info), old(v.fat)) ==> CountMatches(v.g, v.info, v.fat)
    ensures stuck ==> r.Err? && exists n :: v.faults(n)
    ensures Renames(v.g, b, od, old', at, nd, new') ==>
              Foretold(RenameRefusal(v.g, b, od, old', at, nd, new'), r, exists n :: v.faults(n))
    ensures Renames(v.g, b, od, old', at, nd, new') ==>
              Finished(v.g, b, a, od, at, SlotAt(b.data[at.cluster], at.index), nd, new', r.Ok?, k1, k2, stuck)
  {
    a, k1, k2, stuck := b, 0, 0, false;
    if Renames(v.g, b, od, old', at, nd, new') { NothingDone(v.g, b, od, at, SlotAt(b.data[at.cluster], at.index), nd,
        new', 0, 0); }
    if od == nd && old' == new' {
      if Renames(v.g, b, od, old', at, nd, new') {
        k1 := SameNameStays(v.g, b, od, old', at);
        k2 := k1;
      }
      return Ok(()), a, k1, k2, stuck;
    }
    var taken := FindExistingSlot(v, nd, new');
    if taken.Ok? { return Err(AlreadyExists), a, k1, k2, stuck; }
    if taken.error != NotFound { return Err(taken.error), a, k1, k2, stuck; }
    if Renames(v.g, b, od, old', at, nd, new') { NotLocatedIsAbsent(v.g, b, nd, new'); }
    r, a, k1, k2, stuck := RenameFree(v, od, at, nd, old', new', b);
  }
}
