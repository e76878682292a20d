/** What a successful create means for the whole volume. */
module FatOutcome {
  import opened Bytes
  import opened FatChain
  import opened FatVolume
  import opened FatAlloc
  import opened FatFile
  import opened FatDirectory
  import opened FatTree
  import opened FatSpace
  import opened FatPlan
  import opened FatReserve
  import opened FatMoves
  import opened FatCreate

  /** A volume together with the tree it represents. */
  datatype Disk = Disk(fat: Fat, data: Clusters, chains: Chains, tree: Tree)

  ghost predicate Good(g: Geometry, d: Disk) {
    && g.Limit() <= |d.fat| && |d.data| == g.Limit() <= FAT_BAD && Aligned(d.data)
    && g.ClusterBytes() % 32 == 0 && g.ClusterBytes() >= 32
    && WellFormed(g, d.fat, d.data, d.chains, d.tree)
  }

  /** A short name `encode_short_name` can produce starts like a live slot. */
  predicate Proper(short: ShortName) { short[0] !in {0, 0x2e, DELETED} }

  lemma NewSlotIsOwner(short: ShortName, first: nat, size: nat, isDir: bool)
    requires Proper(short) && first < 0x1_0000_0000 && size <= MAX_FILE_SIZE
    ensures var s := NewSlot(short, first, size, isDir);
            && LiveNamed(s, short) && IsOwner(s) && IsDirectory(s[11]) == isDir && ClusterField(s) == first
            && (!isDir ==> SizeField(s) == size)
  {
    var s := NewSlot(short, first, size, isDir);
    assert DecodeEntry(s) == NewEntry(short, first, size, isDir);
    assert s[..11][0] == s[0];
    assert DOT[0] == 0x2e && DOT_DOT[0] == 0x2e;
  }

  /** The reserved slot, seen from the tree. */
  lemma SlotOwner(root: nat, t: Tree, dir: nat, data: Clusters, ch: seq<nat>, short: ShortName, res: Reservation,
                  i: nat, k: nat)
    requires TreeOk(root, t) && dir in t.dirs && Proper(short) && SlotReady(data, ch, t.dirs[dir], short, res, i, k)
    ensures var s := SlotAt(t.dirs[dir], k);
            && (res.existing.None? ==> Owned(s) == {})
            && (res.existing.Some? ==>
               Owns(t, dir, k, res.existing.value.firstCluster) && SlotSound(root, t, s) && IsOwner(s)
                                       && Owned(s) == if res.existing.value.firstCluster < 2 then {}
                                          else {res.existing.value.firstCluster})
  {
    var s := SlotAt(t.dirs[dir], k);
    if res.existing.Some? {
      assert s[..11][0] == s[0];
      assert DOT[0] == 0x2e && DOT_DOT[0] == 0x2e;
      assert OwnerSlot(t.dirs[dir], k);
    }
  }

  /** The states of a create read as trees. */
  ghost function Tree1(g: Geometry, b: Disk, dir: nat, tr: Trace): Disk
    requires dir in b.chains && dir in b.tree.dirs && dir in b.tree.caps
  {
    Disk(tr.fat1, tr.data1, ReservedChains(b.chains, dir, tr.res), ReservedTree(g, b.tree, dir, tr.res))
  }

  ghost function Tree2(d: Disk, tr: Trace): Disk {
    Disk(tr.fat2, tr.data2, PreparedChains(d.chains, tr.ch), PreparedTree(d.tree, tr.data2, tr.ch, tr.isDir))
  }

  ghost predicate Settled(g: Geometry, d: Disk, dir: nat, short: ShortName, res: Reservation, i: nat, k: nat) {
    && Good(g, d) && dir in d.tree.dirs && SlotReady(d.data, d.chains[dir], d.tree.dirs[dir], short, res, i, k)
  }

  /** Changes off the directory's chain do not move the slot. */
  lemma SlotReadyFrame(data: Clusters, data': Clusters, ch: seq<nat>, touched: seq<nat>, content: seq<Byte>,
                       short: ShortName, res: Reservation, i: nat, k: nat)
    requires SlotReady(data, ch, content, short, res, i, k) && OnlyClusters(data, data', touched)
    requires forall c :: c in ch ==> c !in touched
    ensures SlotReady(data', ch, content, short, res, i, k)
  {
    assert ch[i] in ch;
    forall c | c in ch[..i] ensures c !in touched {
      assert c in ch;
    }
    SameOutside(data, data', ch[..i], touched);
  }

  /** A new directory's chain holds exactly its bytes. */
  lemma DirContent(g: Geometry, bytes: seq<Byte>, tr: Trace)
    requires g.Limit() <= |tr.fat1| && |tr.data1| == g.Limit() &&
             Prepared(g, tr.fat1, tr.data1, tr.fat2, tr.data2, tr.ch, tr.first, bytes)
    ensures InData(tr.data2, tr.ch)
    ensures |tr.ch| == 1 && DirBytes(g, bytes) ==> Content(tr.data2, tr.ch) == bytes
  {
    if |tr.ch| == 1 && DirBytes(g, bytes) {
      ContentLength(tr.data2, tr.ch, g.ClusterBytes());
    }
  }

  /** The directories a create adds. */
  ghost function AddedDirs(first: nat, bytes: seq<Byte>, isDir: bool): map<nat, seq<Byte>> {
    if isDir then map[first := bytes] else map[]
  }

  ghost predicate KindOk(g: Geometry, bytes: seq<Byte>, tr: Trace) {
    tr.isDir ==> |tr.ch| == 1 && DirBytes(g, bytes)
  }

  lemma PreparedSame(g: Geometry, d: Disk, bytes: seq<Byte>, tr: Trace, dir: nat)
    requires g.Limit() <= |tr.fat1| && |tr.data1| == g.Limit() &&
             Prepared(g, tr.fat1, tr.data1, tr.fat2, tr.data2, tr.ch, tr.first, bytes)
    requires dir in d.chains && (tr.ch != [] ==> tr.ch[0] !in d.chains) && KindOk(g, bytes, tr)
    ensures dir in Tree2(d, tr).chains && Tree2(d, tr).chains[dir] == d.chains[dir] && Tree2(d, tr).data == tr.data2
    ensures Tree2(d, tr).tree.dirs == d.tree.dirs + AddedDirs(tr.first, bytes, tr.isDir) &&
            (tr.isDir ==> tr.first != dir)
  {
    DirContent(g, bytes, tr);
  }

  /** After the chain is prepared, the reserved slot is where it was. */
  lemma PreparedSettled(g: Geometry, d: Disk, dir: nat, short: ShortName, bytes: seq<Byte>, tr: Trace, i: nat, k: nat)
    requires Settled(g, d, dir, short, tr.res, i, k) && d.fat == tr.fat1 && d.data == tr.data1
    requires Prepared(g, tr.fat1, tr.data1, tr.fat2, tr.data2, tr.ch, tr.first, bytes) && KindOk(g, bytes, tr)
    requires Aligned(tr.data2)
    ensures Settled(g, Tree2(d, tr), dir, short, tr.res, i, k)
    ensures tr.ch != [] ==> tr.ch[0] !in d.chains
  {
    DirContent(g, bytes, tr);
    PrepareMove(g, tr.fat1, tr.data1, tr.fat2, tr.data2, d.chains, d.tree, tr.ch, tr.isDir);
    PreparedSame(g, d, bytes, tr, dir);
    SlotReadyFrame(tr.data1, tr.data2, d.chains[dir], tr.ch, d.tree.dirs[dir], short, tr.res, i, k);
    assert Good(g, Tree2(d, tr));
  }

  ghost function Published(d: Disk, dir: nat, res: Reservation, k: nat, s: Slot): Disk {
    if !(dir in d.tree.dirs && 32 * k + 32 <= |d.tree.dirs[dir]| && res.cluster < |d.data| &&
        32 * res.index + 32 <= |d.data[res.cluster]|) then d
    else Disk(d.fat, d.data[res.cluster := Splice(d.data[res.cluster], 32 * res.index, s)], d.chains,
        WithSlot(d.tree, dir, k, s))
  }

  lemma PublishedGood(g: Geometry, d: Disk, dir: nat, short: ShortName, res: Reservation, i: nat, k: nat, s: Slot)
    requires Settled(g, d, dir, short, res, i, k) && s[0] != 0 && Adoptable(d.tree, s)
    ensures Good(g, Published(d, dir, res, k, s))
  {
    PublishMove(g, d.fat, d.data, d.chains, d.tree, dir, i, res.index, k, s);
  }

  /** Publishing touches no other chain. */
  lemma PublishedElsewhere(g: Geometry, d: Disk, dir: nat, c: nat, data': Clusters, h: nat)
    requires Good(g, d) && dir in d.tree.dirs && c in d.chains[dir] && OnlyClusters(d.data, data', [c])
    requires h in d.chains && h != dir
    ensures InData(data', d.chains[h]) && Content(data', d.chains[h]) == Content(d.data, d.chains[h])
  {
    SameOutside(d.data, data', d.chains[h], [c]);
  }

  /** Freeing the one orphan a replaced slot left behind. */
  ghost function Freed(d: Disk, replaced: seq<nat>): Disk {
    if replaced == [] then d
    else Disk(Cleared(d.fat, replaced), d.data, d.chains - {replaced[0]}, WithoutOrphan(d.tree, replaced[0]))
  }

  lemma FreedGood(g: Geometry, d: Disk, replaced: seq<nat>)
    requires Good(g, d)
    requires replaced != [] ==> IsChain(d.fat, g.Limit(), replaced) && replaced[0] in d.tree.orphans
    requires replaced != [] && replaced[0] in d.tree.dirs ==> forall k :: !OwnerSlot(d.tree.dirs[replaced[0]], k)
    ensures Good(g, Freed(d, replaced)) && (replaced != [] ==> d.chains[replaced[0]] == replaced)
  {
    if replaced != [] {
      assert replaced[0] in d.chains;
      ChainUnique(d.fat, g.Limit(), replaced, d.chains[replaced[0]]);
      FreeMove(g, d.fat, d.data, d.chains, d.tree, replaced[0]);
    }
  }

  // ----------------------------------------------------------- the outcome

  /** The chain the name led to before, if any. */
  ghost function Replaced(g: Geometry, b: Disk, dir: nat, short: ShortName): set<nat>
    requires g.Limit() <= |b.fat| && |b.data| == g.Limit()
  {
    match Lookup(b.fat, g.Limit(), b.data, dir, [], short)
    case Ok(e) => if e.firstCluster >= 2 then {e.firstCluster} else {}
    case Err(_) => {}
  }

  /** The directory `dir` gained or rewrote one slot; `added` directories appeared; no other directory changed. */
  ghost predicate OneSlot(b: Tree, a: Tree, dir: nat, k: nat, s: Slot, added: map<nat, seq<Byte>>) {
    && dir in b.dirs && dir in a.dirs && a.dirs.Keys == b.dirs.Keys + added.Keys
    && (forall d :: d in b.dirs && d != dir ==> a.dirs[d] == b.dirs[d])
    && (forall d :: d in added ==> d !in b.dirs && a.dirs[d] == added[d])
    && |b.dirs[dir]| <= |a.dirs[dir]| && 32 * k + 32 <= |a.dirs[dir]|
    && a.dirs[dir] == Splice(b.dirs[dir] + Zeros(|a.dirs[dir]| - |b.dirs[dir]|), 32 * k, s)
  }

  /** Every chain but the replaced one and the directory's is untouched, to the byte. */
  ghost predicate OthersUntouched(b: Disk, a: Disk, dir: nat, gone: set<nat>) {
    forall h :: h in b.chains && h !in gone && h != dir ==>
      && h in a.chains && a.chains[h] == b.chains[h] && InData(b.data, b.chains[h]) && InData(a.data, a.chains[h])
      && (forall m :: 0 <= m < |b.chains[h]| ==> a.data[b.chains[h][m]] == b.data[b.chains[h][m]])
      && Content(a.data, a.chains[h]) == Content(b.data, b.chains[h])
  }

  /** The bytes are stored: in no cluster when there are none, else at the start of a fresh chain. */
  ghost predicate Stored(b: Disk, a: Disk, first: nat, bytes: seq<Byte>) {
    if bytes == [] then first == 0
    else
      && first !in b.chains && first in a.chains && InData(a.data, a.chains[first])
      && |bytes| <= |Content(a.data, a.chains[first])| && Content(a.data, a.chains[first])[..|bytes|] == bytes
  }

  /** The directory's own chain is as it was, or one cluster longer. */
  ghost predicate Grew(b: Disk, a: Disk, dir: nat) {
    dir in b.chains && dir in a.chains && b.chains[dir] <= a.chains[dir] && |a.chains[dir]| <= |b.chains[dir]| + 1
  }

  /** What became of the chains. */
  ghost predicate ChainsAfter(b: Disk, a: Disk, dir: nat, bytes: seq<Byte>, first: nat, gone: set<nat>) {
    && Stored(b, a, first, bytes)
    && a.chains.Keys == b.chains.Keys - gone + (if bytes == [] then {} else {first})
    && OthersUntouched(b, a, dir, gone) && Grew(b, a, dir)
    && (forall h, c :: h in gone && h in b.chains && c in b.chains[h] && c < |a.fat| ==> a.fat[c] == 0)
  }

  /** Everything a create means for the volume, but for what lookups answer. */
  ghost predicate Created(g: Geometry, b: Disk, a: Disk, dir: nat, short: ShortName, bytes: seq<Byte>, first: nat,
                          isDir: bool, k: nat)
    requires g.Limit() <= |b.fat| && |b.data| == g.Limit()
  {
    && Good(g, a) && a.tree.orphans == {} && first < 0x1_0000_0000 && |bytes| <= MAX_FILE_SIZE
    && OneSlot(b.tree, a.tree, dir, k, NewSlot(short, first, |bytes|, isDir), AddedDirs(first, bytes, isDir)) &&
       IsFirst(a.tree.dirs[dir], short, k)
    && ChainsAfter(b, a, dir, bytes, first, Replaced(g, b, dir, short))
  }

  lemma ReservedAligned(g: Geometry, fat: Fat, data: Clusters, p: Plan, res: Reservation, fat1: Fat, data1: Clusters)
    requires Aligned(data) && g.ClusterBytes() % 32 == 0 && g.Limit() <= |fat| && |data| == g.Limit()
    requires Reserved(g, fat, data, fat1, data1, p, res)
    ensures Aligned(data1)
  {
    forall c | 2 <= c < |data1| ensures |data1[c]| % 32 == 0 {
      assert |data[c]| % 32 == 0;
    }
  }

  lemma PreparedAligned(g: Geometry, bytes: seq<Byte>, tr: Trace)
    requires Aligned(tr.data1) && g.Limit() <= |tr.fat1| && |tr.data1| == g.Limit() && g.ClusterBytes() % 32 == 0
    requires Prepared(g, tr.fat1, tr.data1, tr.fat2, tr.data2, tr.ch, tr.first, bytes)
    ensures Aligned(tr.data2)
  {
    forall c | 2 <= c < |tr.data2| ensures |tr.data2[c]| % 32 == 0 {
      if c in tr.ch {
        var i :| 0 <= i < |tr.ch| && tr.ch[i] == c;
      } else {
        assert |tr.data1[c]| % 32 == 0;
      }
    }
  }

  /** The first half of a create. */
  lemma ReservedSettled(g: Geometry, b: Disk, dir: nat, short: ShortName, tr: Trace) returns (i: nat, k: nat)
    requires Good(g, b) && dir in b.tree.dirs && tr.plan == SlotFor(b.fat, g.Limit(), b.data, dir, [], short, None)
    requires Reserved(g, b.fat, b.data, tr.fat1, tr.data1, tr.plan, tr.res)
    ensures Settled(g, Tree1(g, b, dir, tr), dir, short, tr.res, i, k)
    ensures i < MAX_DIRECTORY_CLUSTERS <==> !(tr.plan.Extend? && |b.chains[dir]| == MAX_DIRECTORY_CLUSTERS)
  {
    i, k := ReserveMove(g, b.fat, b.data, tr.fat1, tr.data1, b.chains, b.tree, dir, short, tr.plan, tr.res);
    ReservedAligned(g, b.fat, b.data, tr.plan, tr.res, tr.fat1, tr.data1);
  }

  lemma NewAdoptable(d: Disk, short: ShortName, bytes: seq<Byte>, g: Geometry, tr: Trace)
    requires d.tree.dirs.Keys <= d.chains.Keys && Proper(short) && |bytes| <= MAX_FILE_SIZE && tr.first < 0x1_0000_0000
    requires g.Limit() <= |tr.fat1| && |tr.data1| == g.Limit() &&
             Prepared(g, tr.fat1, tr.data1, tr.fat2, tr.data2, tr.ch, tr.first, bytes)
    requires (tr.ch != [] ==> tr.ch[0] !in d.chains) && KindOk(g, bytes, tr)
    ensures InData(tr.data2, tr.ch) && Adoptable(Tree2(d, tr).tree, NewSlot(short, tr.first, |bytes|, tr.isDir))
  {
    DirContent(g, bytes, tr);
    NewSlotIsOwner(short, tr.first, |bytes|, tr.isDir);
  }

  /** The replaced file's chain survives the growth of the new one. */
  lemma StillChain(g: Geometry, fat: Fat, data: Clusters, bytes: seq<Byte>, tr: Trace)
    requires g.Limit() <= |fat| && |data| == g.Limit() && Reserved(g, fat, data, tr.fat1, tr.data1, tr.plan, tr.res)
    requires Replaceable(fat, g.Limit(), tr.res, tr.replaced) && tr.replaced != []
    requires Prepared(g, tr.fat1, tr.data1, tr.fat2, tr.data2, tr.ch, tr.first, bytes)
    ensures IsChain(tr.fat2, g.Limit(), tr.replaced)
  {
    assert tr.fat1 == fat;
    ChainEntriesUsed(fat, g.Limit(), tr.replaced);
    forall c | c in tr.replaced && 0 <= c < |fat| ensures tr.fat2[c] == fat[c] {
    }
    ProperFrame(fat, tr.fat2, g.Limit(), tr.replaced);
  }

  /** Publishing leaves exactly the replaced chain behind. */
  lemma LeftBehind(root: nat, t: Tree, dir: nat, short: ShortName, res: Reservation, i: nat, k: nat, data: Clusters,
                   ch: seq<nat>,
                   t2: Tree, first: nat, s: Slot, replaced: seq<nat>, fat: Fat, lim: nat)
    requires TreeOk(root, t) && t.orphans == {} && dir in t.dirs && Proper(short) &&
             SlotReady(data, ch, t.dirs[dir], short, res, i, k)
    requires lim <= |fat| && Replaceable(fat, lim, res, replaced) && IsOwner(s) && ClusterField(s) == first
    requires dir in t2.dirs && t2.dirs[dir] == t.dirs[dir] && t2.dirs.Keys <= t.dirs.Keys + {first}
    requires t2.orphans == (if first < 2 then {} else {first}) && first !in t.caps
    ensures var t3 := WithSlot(t2, dir, k, s);
            && t3.orphans == (if replaced == [] then {} else {replaced[0]})
            && (replaced != [] ==>
               replaced[0] in t.caps && replaced[0] !in t3.dirs && replaced[0] !in t.dirs && replaced[0] != dir)
  {
    SlotOwner(root, t, dir, data, ch, short, res, i, k);
  }

  /** What the name led to is what the reservation found. */
  lemma ReplacedIs(g: Geometry, b: Disk, dir: nat, short: ShortName, fat1: Fat, data1: Clusters, p: Plan,
                   res: Reservation, replaced: seq<nat>, i: nat, k: nat)
    requires g.Limit() <= |b.fat| && |b.data| == g.Limit() && dir in b.chains && TreeOk(g.rootCluster, b.tree) &&
             dir in b.tree.dirs && Proper(short) && p == SlotFor(b.fat, g.Limit(), b.data, dir, [], short, None)
    requires Reserved(g, b.fat, b.data, fat1, data1, p, res) && Replaceable(b.fat, g.Limit(), res, replaced)
    requires res.existing.Some? ==> SlotReady(b.data, b.chains[dir], b.tree.dirs[dir], short, res, i, k)
    ensures Replaced(g, b, dir, short) == if replaced == [] then {} else {replaced[0]}
  {
    SearchAgreesWithLookup(b.fat, g.Limit(), b.data, dir, [], short, None);
    if res.existing.Some? {
      SlotOwner(g.rootCluster, b.tree, dir, b.data, b.chains[dir], short, res, i, k);
      assert FoundEntry(SlotAt(b.data[res.cluster], res.index)) == Ok(res.existing.value);
    }
  }

  /** Preparing and publishing keeps the volume good. */
  lemma CreatePublish(g: Geometry, d1: Disk, dir: nat, short: ShortName, bytes: seq<Byte>, tr: Trace, i: nat, k: nat)
    requires Settled(g, d1, dir, short, tr.res, i, k) && Proper(short)
    requires d1.fat == tr.fat1 && d1.data == tr.data1 && |bytes| <= MAX_FILE_SIZE && tr.first < 0x1_0000_0000
    requires Prepared(g, tr.fat1, tr.data1, tr.fat2, tr.data2, tr.ch, tr.first, bytes) && Aligned(tr.data2) &&
             KindOk(g, bytes, tr)
    ensures tr.ch != [] ==> tr.ch[0] !in d1.chains
    ensures Good(g, Published(Tree2(d1, tr), dir, tr.res, k, NewSlot(short, tr.first, |bytes|, tr.isDir)))
  {
    PreparedSettled(g, d1, dir, short, bytes, tr, i, k);
    NewAdoptable(d1, short, bytes, g, tr);
    NewSlotIsOwner(short, tr.first, |bytes|, tr.isDir);
    PublishedGood(g, Tree2(d1, tr), dir, short, tr.res, i, k, NewSlot(short, tr.first, |bytes|, tr.isDir));
  }

  lemma FreshOrphan(g: Geometry, d: Disk, bytes: seq<Byte>, tr: Trace)
    requires g.Limit() <= |tr.fat1| && |tr.data1| == g.Limit() &&
             Prepared(g, tr.fat1, tr.data1, tr.fat2, tr.data2, tr.ch, tr.first, bytes)
    requires d.tree.orphans == {} && d.chains.Keys == d.tree.caps.Keys && forall h :: h in d.tree.caps ==> h >= 2
    requires tr.ch != [] ==> tr.ch[0] !in d.chains
    ensures InData(tr.data2, tr.ch) && tr.first !in d.tree.caps &&
            Tree2(d, tr).tree.orphans == (if tr.first < 2 then {} else {tr.first})
  {
    if tr.ch != [] {
      assert {} + {tr.first} == {tr.first};
    }
  }

  /** What publishing orphans. */
  lemma CreateLeaves(g: Geometry, fat: Fat, d1: Disk, dir: nat, short: ShortName, bytes: seq<Byte>, tr: Trace, i: nat,
                     k: nat)
    requires g.Limit() <= |tr.fat1| && |tr.data1| == g.Limit() && TreeOk(g.rootCluster, d1.tree) &&
             d1.chains.Keys == d1.tree.caps.Keys
    requires dir in d1.tree.dirs && dir in d1.chains &&
             SlotReady(d1.data, d1.chains[dir], d1.tree.dirs[dir], short, tr.res, i, k)
    requires d1.tree.orphans == {} && Proper(short) && |bytes| <= MAX_FILE_SIZE && tr.first < 0x1_0000_0000
    requires g.Limit() <= |fat| && Replaceable(fat, g.Limit(), tr.res, tr.replaced)
    requires Prepared(g, tr.fat1, tr.data1, tr.fat2, tr.data2, tr.ch, tr.first, bytes) && KindOk(g, bytes, tr)
    requires tr.ch != [] ==> tr.ch[0] !in d1.chains
    requires tr.res.cluster < |tr.data2| && 32 * tr.res.index + 32 <= |tr.data2[tr.res.cluster]|
    ensures var d3 := Published(Tree2(d1, tr), dir, tr.res, k, NewSlot(short, tr.first, |bytes|, tr.isDir));
            && d3.fat == tr.fat2 && d3.tree.orphans == (if tr.replaced == [] then {} else {tr.replaced[0]})
            && (tr.replaced != [] ==>
               tr.replaced[0] in d1.chains && tr.replaced[0] !in d3.tree.dirs && tr.replaced[0] !in d1.tree.dirs)
  {
    FreshOrphan(g, d1, bytes, tr);
    PreparedSame(g, d1, bytes, tr, dir);
    NewSlotIsOwner(short, tr.first, |bytes|, tr.isDir);
    LeftBehind(g.rootCluster, d1.tree, dir, short, tr.res, i, k, d1.data, d1.chains[dir], Tree2(d1, tr).tree, tr.first,
               NewSlot(short, tr.first, |bytes|, tr.isDir), tr.replaced, fat, g.Limit());
  }

  /** Freeing what was replaced keeps the volume good and leaves no orphan. */
  lemma CreateFree(g: Geometry, fat: Fat, data: Clusters, d3: Disk, bytes: seq<Byte>, tr: Trace)
    requires g.Limit() <= |fat| && |data| == g.Limit() && Reserved(g, fat, data, tr.fat1, tr.data1, tr.plan, tr.res)
    requires Replaceable(fat, g.Limit(), tr.res, tr.replaced)
    requires Prepared(g, tr.fat1, tr.data1, tr.fat2, tr.data2, tr.ch, tr.first, bytes)
    requires Good(g, d3) && d3.fat == tr.fat2 && d3.tree.orphans == (if tr.replaced == [] then {} else {tr.replaced[0]})
    requires tr.replaced != [] ==> tr.replaced[0] !in d3.tree.dirs
    ensures Good(g, Freed(d3, tr.replaced)) && Freed(d3, tr.replaced).tree.orphans == {}
    ensures Freed(d3, tr.replaced).fat == Cleared(tr.fat2, tr.replaced)
  {
    if tr.replaced != [] {
      StillChain(g, fat, data, bytes, tr);
    } else {
      assert Cleared(tr.fat2, []) == tr.fat2;
    }
    FreedGood(g, d3, tr.replaced);
  }

  /** The directory's new content. */
  lemma CreatedSlot(g: Geometry, b: Disk, d1: Disk, t2: Tree, a: Tree, dir: nat, short: ShortName, res: Reservation,
                    i: nat, k: nat, s: Slot,
                    replaced: seq<nat>, added: map<nat, seq<Byte>>)
    requires dir in b.tree.dirs && dir in b.tree.caps && d1.tree == ReservedTree(g, b.tree, dir, res) &&
             dir in d1.tree.dirs && dir in d1.chains
    requires SlotReady(d1.data, d1.chains[dir], d1.tree.dirs[dir], short, res, i, k)
    requires t2.dirs == d1.tree.dirs + added && LiveNamed(s, short) && forall d :: d in added ==> d !in d1.tree.dirs
    requires replaced != [] ==> replaced[0] !in t2.dirs
    requires a == if replaced == [] then WithSlot(t2, dir, k, s)
             else WithoutOrphan(WithSlot(t2, dir, k, s), replaced[0])
    ensures OneSlot(b.tree, a, dir, k, s, added) && IsFirst(a.dirs[dir], short, k) &&
            |a.dirs[dir]| == |d1.tree.dirs[dir]|
  {
    NewNameFound(d1.tree.dirs[dir], k, s, short);
    assert a.dirs == t2.dirs[dir := Splice(d1.tree.dirs[dir], 32 * k, s)];
    var n := |d1.tree.dirs[dir]| - |b.tree.dirs[dir]|;
    assert d1.tree.dirs[dir] == b.tree.dirs[dir] + Zeros(n);
    assert d1.tree.dirs.Keys == b.tree.dirs.Keys;
  }

  /** Neither reserving nor preparing touches a cluster in use. */
  lemma UsedClusterKept(g: Geometry, fat: Fat, data: Clusters, tr: Trace, bytes: seq<Byte>, c: nat)
    requires g.Limit() <= |fat| && |data| == g.Limit() && Reserved(g, fat, data, tr.fat1, tr.data1, tr.plan, tr.res)
    requires Prepared(g, tr.fat1, tr.data1, tr.fat2, tr.data2, tr.ch, tr.first, bytes)
    requires 2 <= c < g.Limit() && fat[c] != 0
    ensures tr.data2[c] == data[c] && tr.fat2[c] != 0
  {
    assert tr.data1[c] == data[c];
    assert tr.fat1[c] != 0;
    assert c !in tr.ch;
  }

  lemma UntouchedCluster(g: Geometry, fat: Fat, data: Clusters, chains: Chains, dir: nat, h: nat, tr: Trace,
                         bytes: seq<Byte>, x: seq<Byte>, m: nat)
    requires g.Limit() <= |fat| && |data| == g.Limit() && dir in chains &&
             Reserved(g, fat, data, tr.fat1, tr.data1, tr.plan, tr.res)
    requires Prepared(g, tr.fat1, tr.data1, tr.fat2, tr.data2, tr.ch, tr.first, bytes)
    requires h in chains && h != dir && IsChain(fat, g.Limit(), chains[h]) && m < |chains[h]|
    requires ChainsDisjoint(ReservedChains(chains, dir, tr.res)) &&
             tr.res.cluster in ReservedChains(chains, dir, tr.res)[dir]
    ensures tr.res.cluster < |tr.data2| && tr.data2[tr.res.cluster := x][chains[h][m]] == data[chains[h][m]]
  {
    var c := chains[h][m];
    ChainEntriesUsed(fat, g.Limit(), chains[h]);
    UsedClusterKept(g, fat, data, tr, bytes, c);
    assert c in ReservedChains(chains, dir, tr.res)[h];
  }

  lemma UntouchedContent(g: Geometry, b: Disk, dir: nat, h: nat, tr: Trace, bytes: seq<Byte>, x: seq<Byte>)
    requires Good(g, b) && dir in b.chains && Reserved(g, b.fat, b.data, tr.fat1, tr.data1, tr.plan, tr.res)
    requires Prepared(g, tr.fat1, tr.data1, tr.fat2, tr.data2, tr.ch, tr.first, bytes)
    requires h in b.chains && h != dir
    requires ChainsDisjoint(ReservedChains(b.chains, dir, tr.res)) &&
             tr.res.cluster in ReservedChains(b.chains, dir, tr.res)[dir]
    ensures InData(b.data, b.chains[h]) && tr.res.cluster < |tr.data2| &&
            InData(tr.data2[tr.res.cluster := x], b.chains[h])
    ensures forall m :: 0 <= m < |b.chains[h]| ==>
              tr.data2[tr.res.cluster := x][b.chains[h][m]] == b.data[b.chains[h][m]]
    ensures Content(tr.data2[tr.res.cluster := x], b.chains[h]) == Content(b.data, b.chains[h])
  {
    var ch := b.chains[h];
    forall m | 0 <= m < |ch| ensures ch[m] < |b.data| && tr.data2[tr.res.cluster := x][ch[m]] == b.data[ch[m]] {
      UntouchedCluster(g, b.fat, b.data, b.chains, dir, h, tr, bytes, x, m);
    }
    ContentFrame(b.data, tr.data2[tr.res.cluster := x], ch);
  }

  /** The bytes are still on the fresh chain after the slot is written. */
  lemma StoredStays(g: Geometry, d: Disk, dir: nat, tr: Trace, bytes: seq<Byte>, x: seq<Byte>)
    requires g.Limit() <= |tr.fat1| && |tr.data1| == g.Limit() &&
             Prepared(g, tr.fat1, tr.data1, tr.fat2, tr.data2, tr.ch, tr.first, bytes)
    requires bytes != [] && dir in d.chains && tr.res.cluster in d.chains[dir] && tr.res.cluster < |tr.data2|
    requires forall c :: c in d.chains[dir] ==> c !in tr.ch
    ensures var data' := tr.data2[tr.res.cluster := x];
            InData(data', tr.ch) && |bytes| <= |Content(data', tr.ch)| && Content(data', tr.ch)[..|bytes|] == bytes
  {
    SameOutside(tr.data2, tr.data2[tr.res.cluster := x], tr.ch, [tr.res.cluster]);
  }

  /** The new chain map, as a map. */
  lemma ChainMaps(chains: Chains, dir: nat, res: Reservation, ch: seq<nat>, gone: set<nat>, after: Chains)
    requires dir in chains && gone <= chains.Keys && dir !in gone && (ch != [] ==> ch[0] !in chains)
    requires after == PreparedChains(ReservedChains(chains, dir, res), ch) - gone
    ensures after.Keys == chains.Keys - gone + (if ch == [] then {} else {ch[0]})
    ensures forall h :: h in chains && h !in gone && h != dir ==> h in after && after[h] == chains[h]
    ensures ch != [] ==> ch[0] in after && after[ch[0]] == ch
    ensures dir in after && after[dir] == ReservedChains(chains, dir, res)[dir]
  {
    var added := if ch == [] then {} else {ch[0]};
    forall h ensures h in after.Keys <==> h in chains.Keys - gone + added {
    }
  }

  lemma CreatedChains(g: Geometry, b: Disk, a: Disk, dir: nat, tr: Trace, bytes: seq<Byte>, x: seq<Byte>,
                      gone: set<nat>)
    requires Good(g, b) && dir in b.chains && Reserved(g, b.fat, b.data, tr.fat1, tr.data1, tr.plan, tr.res)
    requires Prepared(g, tr.fat1, tr.data1, tr.fat2, tr.data2, tr.ch, tr.first, bytes)
    requires ChainsDisjoint(ReservedChains(b.chains, dir, tr.res)) &&
             tr.res.cluster in ReservedChains(b.chains, dir, tr.res)[dir]
    requires (tr.ch != [] ==> tr.ch[0] !in b.chains) && forall c :: c in ReservedChains(b.chains, dir, tr.res)[dir] ==>
               c !in tr.ch
    requires gone <= b.chains.Keys && dir !in gone
    requires a.chains == PreparedChains(ReservedChains(b.chains, dir, tr.res), tr.ch) - gone &&
             a.data == tr.data2[tr.res.cluster := x]
    ensures Stored(b, a, tr.first, bytes) && OthersUntouched(b, a, dir, gone)
    ensures a.chains.Keys == b.chains.Keys - gone + (if bytes == [] then {} else {tr.first})
    ensures dir in a.chains && a.chains[dir] == ReservedChains(b.chains, dir, tr.res)[dir]
  {
    ChainMaps(b.chains, dir, tr.res, tr.ch, gone, a.chains);
    if bytes != [] {
      StoredStays(g, Disk(b.fat, b.data, ReservedChains(b.chains, dir, tr.res), b.tree), dir, tr, bytes, x);
    }
    forall h | h in b.chains && h !in gone && h != dir
      ensures InData(b.data, b.chains[h]) && InData(a.data, b.chains[h]) &&
              Content(a.data, b.chains[h]) == Content(b.data, b.chains[h])
      ensures forall m :: 0 <= m < |b.chains[h]| ==> a.data[b.chains[h][m]] == b.data[b.chains[h][m]]
    {
      UntouchedContent(g, b, dir, h, tr, bytes, x);
    }
  }

  ghost function GoneSet(replaced: seq<nat>): set<nat> {
    if replaced == [] then {} else {replaced[0]}
  }

  /** The volume a create leaves behind. */
  ghost function After(g: Geometry, b: Disk, dir: nat, short: ShortName, size: nat, tr: Trace, k: nat): Disk
    requires dir in b.chains && dir in b.tree.dirs && dir in b.tree.caps && tr.first < 0x1_0000_0000 &&
             size <= MAX_FILE_SIZE
  {
    Freed(Published(Tree2(Tree1(g, b, dir, tr), tr), dir, tr.res, k, NewSlot(short, tr.first, size, tr.isDir)),
    tr.replaced)
  }

  /** The four moves of a create compose. */
  lemma CreateGood(g: Geometry, b: Disk, fat': Fat, data': Clusters, dir: nat, short: ShortName, bytes: seq<Byte>,
                   tr: Trace)
    returns (i: nat, k: nat)
    requires Good(g, b) && b.tree.orphans == {} && dir in b.tree.dirs && Proper(short)
    requires CreateSteps(g, b.fat, b.data, fat', data', dir, short, bytes, tr)
    ensures Settled(g, Tree1(g, b, dir, tr), dir, short, tr.res, i, k)
    ensures i < MAX_DIRECTORY_CLUSTERS <==> !(tr.plan.Extend? && |b.chains[dir]| == MAX_DIRECTORY_CLUSTERS)
    ensures tr.ch != [] ==> tr.ch[0] !in b.chains
    ensures Good(g, After(g, b, dir, short, |bytes|, tr, k)) &&
            After(g, b, dir, short, |bytes|, tr, k).tree.orphans == {}
    ensures GoneSet(tr.replaced) <= b.chains.Keys &&
            (tr.replaced != [] ==> tr.replaced[0] !in Tree1(g, b, dir, tr).tree.dirs)
    ensures After(g, b, dir, short, |bytes|, tr, k).fat == Cleared(tr.fat2, tr.replaced)
  {
    i, k := ReservedSettled(g, b, dir, short, tr);
    PreparedAligned(g, bytes, tr);
    var d1 := Tree1(g, b, dir, tr);
    CreatePublish(g, d1, dir, short, bytes, tr, i, k);
    CreateLeaves(g, b.fat, d1, dir, short, bytes, tr, i, k);
    CreateFree(g, b.fat, b.data, Published(Tree2(d1, tr), dir, tr.res, k, NewSlot(short, tr.first, |bytes|, tr.isDir)),
        bytes, tr);
  }

  lemma MinusNone(m: Chains)
    ensures m - {} == m
  {
  }

  /** What `After` is made of. */
  lemma AfterShape(g: Geometry, b: Disk, dir: nat, short: ShortName, size: nat, tr: Trace, k: nat)
    requires dir in b.chains && dir in b.tree.dirs && dir in b.tree.caps && tr.first < 0x1_0000_0000 &&
             size <= MAX_FILE_SIZE
    requires dir in Tree2(Tree1(g, b, dir, tr), tr).tree.dirs &&
             32 * k + 32 <= |Tree2(Tree1(g, b, dir, tr), tr).tree.dirs[dir]|
    requires tr.res.cluster < |tr.data2| && 32 * tr.res.index + 32 <= |tr.data2[tr.res.cluster]|
    ensures var a, t2, s := After(g, b, dir, short, size, tr, k), Tree2(Tree1(g, b, dir, tr), tr).tree,
            NewSlot(short, tr.first, size, tr.isDir);
            && a.tree == (if tr.replaced == [] then WithSlot(t2, dir, k, s)
               else WithoutOrphan(WithSlot(t2, dir, k, s), tr.replaced[0]))
            && a.chains == PreparedChains(ReservedChains(b.chains, dir, tr.res), tr.ch) - GoneSet(tr.replaced)
            && a.data == tr.data2[tr.res.cluster := Splice(tr.data2[tr.res.cluster], 32 * tr.res.index, s)]
  {
    MinusNone(PreparedChains(ReservedChains(b.chains, dir, tr.res), tr.ch));
  }

  /** The replaced chain is the one the slot's file had, and is free now. */
  lemma GoneIsFree(g: Geometry, b: Disk, replaced: seq<nat>, fat2: Fat, h: nat, c: nat)
    requires g.Limit() <= |b.fat| && ChainsProper(b.fat, g.Limit(), b.chains)
    requires replaced != [] ==> IsChain(b.fat, g.Limit(), replaced)
    requires h in GoneSet(replaced) && h in b.chains && c in b.chains[h] && c < |fat2|
    ensures Cleared(fat2, replaced)[c] == 0
  {
    ChainUnique(b.fat, g.Limit(), b.chains[h], replaced);
  }

  /** The directory clauses. */
  lemma CreateDirs(g: Geometry, b: Disk, fat': Fat, data': Clusters, dir: nat, short: ShortName, bytes: seq<Byte>,
                   tr: Trace, i: nat, k: nat)
    requires dir in b.tree.dirs && dir in b.tree.caps && dir in b.chains && b.tree.dirs.Keys <= b.chains.Keys &&
             Proper(short)
    requires StoreSteps(g, fat', data', short, bytes, tr) && dir in Tree1(g, b, dir, tr).chains &&
             dir in Tree1(g, b, dir, tr).tree.dirs
    requires SlotReady(tr.data1, Tree1(g, b, dir, tr).chains[dir], Tree1(g, b, dir, tr).tree.dirs[dir], short, tr.res,
             i, k) && (tr.ch != [] ==> tr.ch[0] !in b.chains)
    requires GoneSet(tr.replaced) <= b.chains.Keys &&
             (tr.replaced != [] ==> tr.replaced[0] !in Tree1(g, b, dir, tr).tree.dirs)
    ensures var a := After(g, b, dir, short, |bytes|, tr, k);
            && a.data == data' && OneSlot(b.tree, a.tree, dir, k, NewSlot(short, tr.first, |bytes|, tr.isDir),
               AddedDirs(tr.first, bytes, tr.isDir))
            && IsFirst(a.tree.dirs[dir], short, k) &&
               |a.tree.dirs[dir]| == |ReservedTree(g, b.tree, dir, tr.res).dirs[dir]|
            && a.chains == PreparedChains(ReservedChains(b.chains, dir, tr.res), tr.ch) - GoneSet(tr.replaced)
  {
    var a, d1 := After(g, b, dir, short, |bytes|, tr, k), Tree1(g, b, dir, tr);
    PreparedSame(g, d1, bytes, tr, dir);
    AfterShape(g, b, dir, short, |bytes|, tr, k);
    NewSlotIsOwner(short, tr.first, |bytes|, tr.isDir);
    CreatedSlot(g, b, d1, Tree2(d1, tr).tree, a.tree, dir, short, tr.res, i, k,
    NewSlot(short, tr.first, |bytes|, tr.isDir),
                tr.replaced, AddedDirs(tr.first, bytes, tr.isDir));
  }

  /** An existing slot is reserved as it stands; a full directory grows. */
  lemma ReservedPlace(g: Geometry, b: Disk, dir: nat, short: ShortName, tr: Trace, i: nat, k: nat)
    requires g.Limit() <= |b.fat| && |b.data| == g.Limit() && dir in b.chains && dir in b.tree.dirs &&
             dir in b.tree.caps
    requires Reserved(g, b.fat, b.data, tr.fat1, tr.data1, tr.plan, tr.res)
    requires dir in Tree1(g, b, dir, tr).chains && dir in Tree1(g, b, dir, tr).tree.dirs
    requires SlotReady(tr.data1, Tree1(g, b, dir, tr).chains[dir], Tree1(g, b, dir, tr).tree.dirs[dir], short, tr.res,
             i, k)
    ensures tr.plan.Extend? ==> |ReservedChains(b.chains, dir, tr.res)[dir]| == |b.chains[dir]| + 1
    ensures tr.res.existing.Some? ==> SlotReady(b.data, b.chains[dir], b.tree.dirs[dir], short, tr.res, i, k)
  {
  }

  /** What the reserved volume says about its chains. */
  ghost predicate ReservedFacts(b: Disk, dir: nat, short: ShortName, tr: Trace, i: nat, k: nat)
    requires dir in b.chains
  {
    && var r := ReservedChains(b.chains, dir, tr.res);
    && ChainsDisjoint(r) && tr.res.cluster in r[dir] && (forall c :: c in r[dir] ==> c !in tr.ch)
    && dir in b.tree.dirs && (tr.res.existing.Some? ==>
       SlotReady(b.data, b.chains[dir], b.tree.dirs[dir], short, tr.res, i, k))
  }

  lemma FreshOffDirectory(g: Geometry, d: Disk, dir: nat, bytes: seq<Byte>, tr: Trace)
    requires Good(g, d) && dir in d.tree.dirs && d.fat == tr.fat1 && d.data == tr.data1
    requires Prepared(g, tr.fat1, tr.data1, tr.fat2, tr.data2, tr.ch, tr.first, bytes)
    ensures forall c :: c in d.chains[dir] ==> c !in tr.ch
  {
    if tr.ch != [] {
      FreshOffChains(tr.fat1, g.Limit(), d.chains, tr.ch);
    }
  }

  lemma ReservedFactsHold(g: Geometry, b: Disk, dir: nat, short: ShortName, bytes: seq<Byte>, tr: Trace, i: nat, k: nat)
    requires g.Limit() <= |b.fat| && |b.data| == g.Limit() && dir in b.chains && dir in b.tree.dirs &&
             dir in b.tree.caps
    requires Reserved(g, b.fat, b.data, tr.fat1, tr.data1, tr.plan, tr.res) &&
             Settled(g, Tree1(g, b, dir, tr), dir, short, tr.res, i, k)
    requires Prepared(g, tr.fat1, tr.data1, tr.fat2, tr.data2, tr.ch, tr.first, bytes)
    ensures ReservedFacts(b, dir, short, tr, i, k)
  {
    var d1 := Tree1(g, b, dir, tr);
    FreshOffDirectory(g, d1, dir, bytes, tr);
    ReservedPlace(g, b, dir, short, tr, i, k);
    assert d1.chains[dir][i] == tr.res.cluster;
  }

  /** What the name led to before is what was freed. */
  lemma GoneClauses(g: Geometry, b: Disk, dir: nat, short: ShortName, tr: Trace, i: nat, k: nat)
    requires Good(g, b) && dir in b.tree.dirs && Proper(short) &&
             tr.plan == SlotFor(b.fat, g.Limit(), b.data, dir, [], short, None)
    requires Reserved(g, b.fat, b.data, tr.fat1, tr.data1, tr.plan, tr.res) &&
             Replaceable(b.fat, g.Limit(), tr.res, tr.replaced)
    requires tr.res.existing.Some? ==> SlotReady(b.data, b.chains[dir], b.tree.dirs[dir], short, tr.res, i, k)
    ensures Replaced(g, b, dir, short) == GoneSet(tr.replaced)
    ensures forall h, c :: h in GoneSet(tr.replaced) && h in b.chains && c in b.chains[h] && c < |tr.fat2| ==>
              Cleared(tr.fat2, tr.replaced)[c] == 0
  {
    ReplacedIs(g, b, dir, short, tr.fat1, tr.data1, tr.plan, tr.res, tr.replaced, i, k);
    forall h, c | h in GoneSet(tr.replaced) && h in b.chains && c in b.chains[h] && c < |tr.fat2|
        ensures Cleared(tr.fat2, tr.replaced)[c] == 0 {
      GoneIsFree(g, b, tr.replaced, tr.fat2, h, c);
    }
  }

  /** The chain clauses. */
  lemma CreateClauses(g: Geometry, b: Disk, fat': Fat, data': Clusters, dir: nat, short: ShortName, bytes: seq<Byte>,
                      tr: Trace, i: nat, k: nat, a: Disk)
    requires Good(g, b) && dir in b.tree.dirs && Proper(short) &&
             CreateSteps(g, b.fat, b.data, fat', data', dir, short, bytes, tr)
    requires ReservedFacts(b, dir, short, tr, i, k) && (tr.ch != [] ==> tr.ch[0] !in b.chains)
    requires GoneSet(tr.replaced) <= b.chains.Keys && dir !in GoneSet(tr.replaced)
    requires a.fat == Cleared(tr.fat2, tr.replaced) && a.data == data'
    requires a.chains == PreparedChains(ReservedChains(b.chains, dir, tr.res), tr.ch) - GoneSet(tr.replaced)
    ensures ChainsAfter(b, a, dir, bytes, tr.first, Replaced(g, b, dir, short))
    ensures dir in a.chains && a.chains[dir] == ReservedChains(b.chains, dir, tr.res)[dir]
  {
    CreatedChains(g, b, a, dir, tr, bytes, Splice(tr.data2[tr.res.cluster], 32 * tr.res.index,
        NewSlot(short, tr.first, |bytes|, tr.isDir)), GoneSet(tr.replaced));
    GoneClauses(g, b, dir, short, tr, i, k);
  }

  /** A create that went through its steps is a create in every sense a reader
      of the volume can observe. */
  lemma CreateOutcome(g: Geometry, b: Disk, fat': Fat, data': Clusters, dir: nat, short: ShortName, bytes: seq<Byte>,
                      tr: Trace)
    returns (a: Disk, i: nat, k: nat)
    requires Good(g, b) && b.tree.orphans == {} && dir in b.tree.dirs && Proper(short)
    requires CreateSteps(g, b.fat, b.data, fat', data', dir, short, bytes, tr)
    ensures tr.first < 0x1_0000_0000 && a == After(g, b, dir, short, |bytes|, tr, k) && a.fat == fat' && a.data == data'
    ensures Created(g, b, a, dir, short, bytes, tr.first, tr.isDir, k)
    ensures Settled(g, Tree1(g, b, dir, tr), dir, short, tr.res, i, k)
    ensures dir in a.chains && a.chains[dir] == ReservedChains(b.chains, dir, tr.res)[dir]
    ensures |a.tree.dirs[dir]| == |ReservedTree(g, b.tree, dir, tr.res).dirs[dir]|
    ensures i < MAX_DIRECTORY_CLUSTERS <==> !(tr.plan.Extend? && |b.chains[dir]| == MAX_DIRECTORY_CLUSTERS)
  {
    i, k := CreateGood(g, b, fat', data', dir, short, bytes, tr);
    a := After(g, b, dir, short, |bytes|, tr, k);
    CreateDirs(g, b, fat', data', dir, short, bytes, tr, i, k);
    ReservedFactsHold(g, b, dir, short, bytes, tr, i, k);
    CreateClauses(g, b, fat', data', dir, short, bytes, tr, i, k, a);
  }
}
