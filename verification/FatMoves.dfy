/** The steps of create, mkdir and delete as moves of the tree: what each step
    does to the FAT and the data, read back as chains and directory contents. */
module FatMoves {
  import opened Counting
  import opened Bytes
  import opened FatChain
  import opened FatVolume
  import opened FatAlloc
  import opened FatFile
  import opened FatDirectory
  import opened FatTree
  import opened FatSpace
  import opened FatPlan
  import opened FatReserve

  // ---------------------------------------------------- reserving a slot

  ghost function ReservedChains(chains: Chains, dir: nat, res: Reservation): Chains
    requires dir in chains
  {
    if res.extension.Some? then chains[dir := chains[dir] + [res.cluster]] else chains
  }

  ghost function ReservedTree(g: Geometry, t: Tree, dir: nat, res: Reservation): Tree
    requires dir in t.dirs && dir in t.caps
  {
    if res.extension.Some? then Extended(t, dir, g.ClusterBytes()) else t
  }

  /** The reserved slot is slot `k` of the directory, in the `i`-th cluster of its
      chain: the one a lookup of `name` stops at, or a free one before which no
      such slot lies. */
  ghost predicate SlotReady(data: Clusters, ch: seq<nat>, content: seq<Byte>, name: ShortName, res: Reservation, i: nat,
                            k: nat) {
    && InData(data, ch) && i < |ch| && ch[i] == res.cluster && 32 * res.index + 32 <= |data[res.cluster]|
    && k == SlotNumber(data, ch, i, res.index) && |Content(data, ch[..i])| % 32 == 0
    && 32 * k + 32 <= |content| && Passed(content, name, k)
    && if res.existing.Some?
       then LiveNamed(SlotAt(content, k), name) && res.existing == Some(DecodeEntry(SlotAt(content, k)))
       else SlotAt(content, k)[0] in {0, DELETED}
  }

  lemma ReadyInPlace(data: Clusters, ch: seq<nat>, name: ShortName, p: Plan, res: Reservation) returns (i: nat, k: nat)
    requires InData(data, ch) && ch != [] && NoDuplicates(ch) && Aligned(data) && forall m {:trigger ch[m]} ::
               0 <= m < |ch| ==> 2 <= ch[m]
    requires (p.Existing? || p.Vacant?) && PlanSound(data, ch, name, p) && res.cluster == p.cluster < |data| &&
             res.index == p.index
    requires 32 * res.index + 32 <= |data[res.cluster]|
    requires res.existing == if p.Existing? then Some(DecodeEntry(SlotAt(data[res.cluster], res.index))) else None
    ensures SlotReady(data, ch, Content(data, ch), name, res, i, k) && i < MAX_DIRECTORY_CLUSTERS
  {
    var s := SlotAt(data[res.cluster], res.index);
    i :| SlotIn(data, ch, i, res.cluster, res.index) &&
    Passed(Content(data, ch), name, SlotNumber(data, ch, i, res.index))
         && if p.Existing? then LiveNamed(s, name) else s[0] in {0, DELETED};
    k := SlotNumber(data, ch, i, res.index);
    ContentAligned(data, ch[..i]);
    PutContent(data, ch, i, res.index, s);
  }

  lemma StayMove(g: Geometry, fat: Fat, data: Clusters, chains: Chains, t: Tree, dir: nat, name: ShortName, p: Plan,
                 res: Reservation)
    returns (i: nat, k: nat)
    requires g.Limit() <= |fat| && |data| == g.Limit() && Aligned(data)
    requires WellFormed(g, fat, data, chains, t) && dir in t.dirs && !p.Extend?
    requires PlanSound(data, chains[dir], name, p) && Reserved(g, fat, data, fat, data, p, res)
    ensures SlotReady(data, chains[dir], t.dirs[dir], name, res, i, k) && i < MAX_DIRECTORY_CLUSTERS
  {
    var ch := chains[dir];
    ChainNoDuplicates(fat, g.Limit(), ch);
    i, k := ReadyInPlace(data, ch, name, p, res);
  }

  lemma ExtendWellFormed(g: Geometry, fat: Fat, data: Clusters, fat': Fat, data': Clusters, chains: Chains, t: Tree,
                         dir: nat, n: nat)
    requires g.Limit() <= |fat| && |data| == g.Limit() <= FAT_BAD && g.ClusterBytes() % 32 == 0
    requires WellFormed(g, fat, data, chains, t) && dir in t.dirs && 2 <= n < g.Limit() && fat[n] == 0
    requires fat' == fat[n := FAT_END_MIN][chains[dir][|chains[dir]| - 1] := n]
    requires OnlyClusters(data, data', [n]) && data'[n] == Zeros(g.ClusterBytes())
    ensures WellFormed(g, fat', data', chains[dir := chains[dir] + [n]], Extended(t, dir, g.ClusterBytes()))
    ensures InData(data', chains[dir]) && Content(data', chains[dir]) == t.dirs[dir] && |t.dirs[dir]| % 32 == 0
  {
    FreeOnNoChain(fat, g.Limit(), chains, n);
    ExtendSpace(fat, fat', g.Limit(), chains, dir, n);
    HoldsFrame(data, data', chains, t, [n]);
    ExtendHolds(data', chains, t, dir, n, g.ClusterBytes());
    ExtendKeepsTree(g.rootCluster, t, dir, g.ClusterBytes());
  }

  lemma ReadyBehind(data: Clusters, ch: seq<nat>, content: seq<Byte>, name: ShortName, res: Reservation, size: nat)
    requires InData(data, ch) && Content(data, ch) == content && |content| % 32 == 0
    requires res.cluster < |data| && data[res.cluster] == Zeros(size) && size >= 32 && res.index == 0 &&
             res.existing.None?
    requires Passed(content, name, |content| / 32)
    ensures SlotReady(data, ch + [res.cluster], content + Zeros(size), name, res, |ch|, |content| / 32)
  {
    var k := |content| / 32;
    assert (ch + [res.cluster])[..|ch|] == ch;
    PassedPrefix(content, Zeros(size), name, k);
    assert SlotAt(content + Zeros(size), k)[0] == 0;
  }

  lemma ExtendMove(g: Geometry, fat: Fat, data: Clusters, fat': Fat, data': Clusters, chains: Chains, t: Tree,
                   dir: nat, name: ShortName, p: Plan, res: Reservation) returns (i: nat, k: nat)
    requires g.Limit() <= |fat| && |data| == g.Limit() <= FAT_BAD && g.ClusterBytes() % 32 == 0 &&
             g.ClusterBytes() >= 32
    requires WellFormed(g, fat, data, chains, t) && dir in t.dirs && p.Extend?
    requires PlanSound(data, chains[dir], name, p) && Reserved(g, fat, data, fat', data', p, res)
    ensures WellFormed(g, fat', data', ReservedChains(chains, dir, res), ReservedTree(g, t, dir, res))
    ensures SlotReady(data', ReservedChains(chains, dir, res)[dir], ReservedTree(g, t, dir, res).dirs[dir], name, res,
            i, k)
    ensures i == |chains[dir]|
  {
    ExtendWellFormed(g, fat, data, fat', data', chains, t, dir, res.cluster);
    i, k := |chains[dir]|, |t.dirs[dir]| / 32;
    ReadyBehind(data', chains[dir], t.dirs[dir], name, res, g.ClusterBytes());
  }

  lemma ReserveMove(g: Geometry, fat: Fat, data: Clusters, fat': Fat, data': Clusters, chains: Chains, t: Tree,
                    dir: nat, name: ShortName, p: Plan, res: Reservation) returns (i: nat, k: nat)
    requires g.Limit() <= |fat| && |data| == g.Limit() <= FAT_BAD && g.ClusterBytes() % 32 == 0 &&
             g.ClusterBytes() >= 32
    requires WellFormed(g, fat, data, chains, t) && dir in t.dirs && Aligned(data)
    requires p == SlotFor(fat, g.Limit(), data, dir, [], name, None) && Reserved(g, fat, data, fat', data', p, res)
    ensures WellFormed(g, fat', data', ReservedChains(chains, dir, res), ReservedTree(g, t, dir, res))
    ensures SlotReady(data', ReservedChains(chains, dir, res)[dir], ReservedTree(g, t, dir, res).dirs[dir], name, res,
            i, k)
    ensures i < MAX_DIRECTORY_CLUSTERS <==> !(p.Extend? && |chains[dir]| == MAX_DIRECTORY_CLUSTERS)
    ensures p.Extend? ==> |chains[dir]| <= MAX_DIRECTORY_CLUSTERS
  {
    var lim, ch := g.Limit(), chains[dir];
    assert ch[0] == dir;
    PlanMeaning(fat, lim, data, ch, name);
    if p.Extend? {
      i, k := ExtendMove(g, fat, data, fat', data', chains, t, dir, name, p, res);
    } else {
      i, k := StayMove(g, fat, data, chains, t, dir, name, p, res);
    }
  }

  // --------------------------------------------------- the new file's chain

  ghost function PreparedChains(chains: Chains, ch: seq<nat>): Chains {
    if ch == [] then chains else chains[ch[0] := ch]
  }

  ghost function PreparedTree(t: Tree, data: Clusters, ch: seq<nat>, isDir: bool): Tree {
    if ch == [] || !InData(data, ch) then t
        else WithOrphan(t, ch[0], |Content(data, ch)|, if isDir then Some(Content(data, ch)) else None)
  }

  lemma AddMove(g: Geometry, fat: Fat, data: Clusters, fat': Fat, data': Clusters, chains: Chains, t: Tree,
                ch: seq<nat>, isDir: bool)
    requires g.Limit() <= |fat| == |fat'| && |data| == g.Limit() && WellFormed(g, fat, data, chains, t) && ch != []
    requires GrownBy(fat, fat', g.Limit(), ch) && OnlyClusters(data, data', ch) && InData(data', ch)
    requires isDir ==>
               var content := Content(data', ch);
               |content| % 32 == 0 && EndTail(content) && forall k :: !OwnerSlot(content, k)
    ensures WellFormed(g, fat', data', PreparedChains(chains, ch), PreparedTree(t, data', ch, isDir))
    ensures ch[0] !in chains
    ensures forall h, c :: h in chains && c in chains[h] ==> c !in ch
    ensures forall h :: h in chains ==>
              InData(data', chains[h]) && Content(data', chains[h]) == Content(data, chains[h])
  {
    AddSpace(fat, fat', g.Limit(), chains, ch);
    HoldsFrame(data, data', chains, t, ch);
    AddHolds(data', chains, t, ch, isDir);
    AddKeepsTree(g.rootCluster, t, ch[0], |Content(data', ch)|, if isDir then Some(Content(data', ch)) else None);
  }

  lemma PrepareMove(g: Geometry, fat: Fat, data: Clusters, fat': Fat, data': Clusters, chains: Chains, t: Tree,
                    ch: seq<nat>, isDir: bool)
    requires g.Limit() <= |fat| == |fat'| && |data| == g.Limit() && WellFormed(g, fat, data, chains, t)
    requires GrownBy(fat, fat', g.Limit(), ch) && OnlyClusters(data, data', ch) && InData(data', ch)
    requires isDir && ch != [] ==>
               var content := Content(data', ch);
               |content| % 32 == 0 && EndTail(content) && forall k :: !OwnerSlot(content, k)
    ensures WellFormed(g, fat', data', PreparedChains(chains, ch), PreparedTree(t, data', ch, isDir))
    ensures ch != [] ==> ch[0] !in chains
    ensures forall h, c :: h in chains && c in chains[h] ==> c !in ch
    ensures forall h :: h in chains ==>
              InData(data', chains[h]) && Content(data', chains[h]) == Content(data, chains[h])
  {
    if ch == [] {
      assert fat' == fat && data' == data;
    } else {
      AddMove(g, fat, data, fat', data', chains, t, ch, isDir);
    }
  }

  // ------------------------------------------------------ publishing a slot

  lemma PublishMove(g: Geometry, fat: Fat, data: Clusters, chains: Chains, t: Tree, dir: nat, i: nat, j: nat, k: nat,
                    s: Slot)
    requires g.Limit() <= |fat| && |data| == g.Limit() && WellFormed(g, fat, data, chains, t) && dir in t.dirs
    requires i < |chains[dir]| && 32 * j + 32 <= |data[chains[dir][i]]| && |Content(data, chains[dir][..i])| % 32 == 0
    requires k == SlotNumber(data, chains[dir], i, j) && 32 * k + 32 <= |t.dirs[dir]|
    requires s[0] != 0 && Adoptable(t, s)
    requires SlotAt(t.dirs[dir], k)[0] == 0 ==> forall m :: 0 <= m < k ==> SlotAt(t.dirs[dir], m)[0] != 0
    ensures WellFormed(g, fat, data[chains[dir][i] := Splice(data[chains[dir][i]], 32 * j, s)], chains,
            WithSlot(t, dir, k, s))
  {
    PutHolds(data, chains, t, fat, g.Limit(), dir, i, j, s);
    PutKeepsTree(g.rootCluster, t, dir, k, s);
  }

  // --------------------------------------------------- freeing the old chain

  lemma FreeMove(g: Geometry, fat: Fat, data: Clusters, chains: Chains, t: Tree, o: nat)
    requires g.Limit() <= |fat| && |data| == g.Limit() && WellFormed(g, fat, data, chains, t) && o in t.orphans
    requires o in t.dirs ==> forall k :: !OwnerSlot(t.dirs[o], k)
    ensures WellFormed(g, Cleared(fat, chains[o]), data, chains - {o}, WithoutOrphan(t, o))
  {
    FreeSpace(fat, g.Limit(), chains, o);
    FreeHolds(data, chains, t, o);
    FreeKeepsTree(g.rootCluster, t, o);
  }
}
