/** Reserving a directory slot, and giving everything back when a later step fails. */
module FatReserve {
  import opened Bytes
  import opened FatChain
  import opened FatVolume
  import opened FatAlloc
  import opened FatFile
  import opened FatDirectory
  import opened FatTree
  import opened FatSpace
  import opened FatPlan

  // ------------------------------------------------- "nothing happened"

  /** Every link, every free entry, and the bytes of every used cluster are as before. */
  ghost predicate Restored(lim: nat, fat: Fat, data: Clusters, fat': Fat, data': Clusters)
    requires lim <= |fat|
  {
    && |fat'| == |fat| && |data| == |data'| == lim
    && (forall c {:trigger fat'[c]} :: 2 <= c < lim ==>
          LinkOf(fat', lim, c) == LinkOf(fat, lim, c) && (fat'[c] == 0 <==> fat[c] == 0) &&
          (fat'[c] == FAT_BAD <==> fat[c] == FAT_BAD))
    && (forall c {:trigger data'[c]} :: 2 <= c < lim && fat[c] != 0 ==> data'[c] == data[c])
  }

  lemma RestoredChain(lim: nat, fat: Fat, data: Clusters, fat': Fat, data': Clusters, ch: seq<nat>)
    requires lim <= |fat| && Restored(lim, fat, data, fat', data') && IsChain(fat, lim, ch)
    ensures IsChain(fat', lim, ch) && InData(data, ch) && InData(data', ch) && Content(data', ch) == Content(data, ch)
  {
    ChainEntriesUsed(fat, lim, ch);
    forall i | 0 <= i < |ch| ensures LinkOf(fat', lim, ch[i]) == LinkOf(fat, lim, ch[i]) &&
        data'[ch[i]] == data[ch[i]] {
      assert fat'[ch[i]] == fat'[ch[i]];
    }
    forall i, j | 0 <= i && j == i + 1 < |ch| ensures LinkOf(fat', lim, ch[i]) == Next(ch[j]) {
      assert LinkOf(fat, lim, ch[i]) == Next(ch[j]);
    }
    ContentFrame(data, data', ch);
  }

  /** Then the volume still represents the same tree on the same chains. */
  lemma RestoredKeepsTree(g: Geometry, fat: Fat, data: Clusters, fat': Fat, data': Clusters, chains: Chains, t: Tree)
    requires g.Limit() <= |fat| && Restored(g.Limit(), fat, data, fat', data') && WellFormed(g, fat, data, chains, t)
    ensures WellFormed(g, fat', data', chains, t)
  {
    var lim := g.Limit();
    forall h | h in chains ensures IsChain(fat', lim, chains[h]) && InData(data', chains[h]) &&
        Content(data', chains[h]) == Content(data, chains[h]) {
      RestoredChain(lim, fat, data, fat', data', chains[h]);
    }
    forall c | 2 <= c < lim && fat'[c] != 0 && fat'[c] != FAT_BAD ensures exists h :: h in chains && c in chains[h] {
      assert fat[c] != 0 && fat[c] != FAT_BAD;
    }
  }

  /** And every lookup in every directory of the tree answers as before. */
  lemma RestoredKeepsLookups(g: Geometry, fat: Fat, data: Clusters, fat': Fat, data': Clusters, chains: Chains, t: Tree,
                             d: nat, name: ShortName)
    requires g.Limit() <= |fat| && Restored(g.Limit(), fat, data, fat', data') && WellFormed(g, fat, data, chains, t)
    requires d in t.dirs && Aligned(data) && Aligned(data')
    ensures Lookup(fat', g.Limit(), data', d, [], name) == Lookup(fat, g.Limit(), data, d, [], name)
  {
    var lim, ch := g.Limit(), chains[d];
    assert chains[d][0] == d;
    RestoredChain(lim, fat, data, fat', data', ch);
    ChainEntriesUsed(fat, lim, ch);
    forall c | c in ch && c < lim ensures data'[c] == data[c] {
    }
    LookupFrame(fat, fat', lim, data, data', ch, name);
  }

  lemma RestoredSame(lim: nat, fat: Fat, data: Clusters)
    requires lim <= |fat| && |data| == lim
    ensures Restored(lim, fat, data, fat, data)
  {
  }

  // ------------------------------------------------------ slots on the disk

  lemma NestedSplice(d: seq<Byte>, k: nat, s: Slot)
    requires |d| % 512 == 0 && 32 * k + 32 <= |d|
    ensures 512 * (k / 16) + 512 <= |d|
    ensures Splice(d, 512 * (k / 16), Splice(d[512 * (k / 16)..512 * (k / 16) + 512], 32 * (k % 16), s)) ==
            Splice(d, 32 * k, s)
  {
    var i := k / 16;
    assert 512 * i + 512 <= |d|;
    var left, right := Splice(d, 512 * i, Splice(d[512 * i..512 * i + 512], 32 * (k % 16), s)), Splice(d, 32 * k, s);
    forall m | 0 <= m < |d| ensures left[m] == right[m] {
    }
  }

  /** `write_directory_entry` and `mark_directory_entry_deleted`: read the sector,
      replace one slot, write it back. */
  method WriteSlot(v: Volume, c: nat, k: nat, s: Slot) returns (r: Result<()>)
    requires v.Valid() && IsAllocatable(v.g, c) && 32 * k + 32 <= |v.data[c]|
    modifies v
    ensures v.Valid() && v.fat == old(v.fat) && v.info == old(v.info)
    ensures r.Err? ==> r == Err(Block) && v.data == old(v.data) && exists n :: v.faults(n)
    ensures r.Ok? ==> v.data == old(v.data)[c := Splice(old(v.data)[c], 32 * k, s)]
  {
    NestedSplice(v.data[c], k, s);
    var sector := v.ReadSector(c, k / 16);
    sector := Splice(sector, 32 * (k % 16), s);
    r := v.WriteSector(c, k / 16, sector);
  }

  // ------------------------------------------------------------ reservation

  datatype Reservation = Reservation(cluster: nat, index: nat, existing: Option<Entry>, extension: Option<(nat, nat)>)

  /** What a reservation did to the volume: nothing, or a zeroed cluster linked
      behind the last cluster of the directory. */
  ghost predicate Reserved(g: Geometry, fat: Fat, data: Clusters, fat': Fat, data': Clusters, p: Plan, res: Reservation)
    requires g.Limit() <= |fat| && |data| == g.Limit()
  {
    && |fat'| == |fat| && |data'| == |data| && 2 <= res.cluster < g.Limit() &&
       32 * res.index + 32 <= |data'[res.cluster]|
    && match p
       case Existing(c, k) =>
         && fat' == fat && data' == data && res.cluster == c && res.index == k && res.extension.None?
         && res.existing == Some(DecodeEntry(SlotAt(data[c], k)))
       case Vacant(c, k) =>
         fat' == fat && data' == data && res == Reservation(c, k, None, None)
       case Extend(last) =>
         && res == Reservation(res.cluster, 0, None, Some((last, res.cluster)))
         && fat[res.cluster] == 0 && LinkOf(fat, g.Limit(), last) == End
         && fat' == fat[res.cluster := FAT_END_MIN][last := res.cluster]
         && OnlyClusters(data, data', [res.cluster]) && data'[res.cluster] == Zeros(g.ClusterBytes())
       case Refuse(_) => false
  }

  /** A plan points into the volume. */
  ghost predicate PlanInside(fat: Fat, lim: nat, data: Clusters, p: Plan)
    requires lim <= |fat| && |data| == lim
  {
    match p
    case Existing(c, k) => 2 <= c < lim && 32 * k + 32 <= |data[c]|
    case Vacant(c, k) => 2 <= c < lim && 32 * k + 32 <= |data[c]|
    case Extend(last) => LinkOf(fat, lim, last) == End
    case Refuse(_) => true
  }

  lemma {:induction false} PlanPointsInside(fat: Fat, lim: nat, data: Clusters, c: nat, seen: seq<nat>, name: ShortName,
                                            deleted: Option<(nat, nat)>)
    requires lim <= |fat| && |data| == lim && |seen| <= MAX_DIRECTORY_CLUSTERS
    requires deleted.Some? ==> 2 <= deleted.value.0 < lim && 32 * deleted.value.1 + 32 <= |data[deleted.value.0]|
    ensures PlanInside(fat, lim, data, SlotFor(fat, lim, data, c, seen, name, deleted))
    decreases MAX_DIRECTORY_CLUSTERS - |seen|
  {
    if |seen| < MAX_DIRECTORY_CLUSTERS && c !in seen && 2 <= c < lim {
      var d := data[c];
      var s := ScanFor(d, name, 0);
      ScanPassed(d, name);
      DeletedMeaning(d, 0, StopOf(s, d));
      if s.Exhausted? && LinkOf(fat, lim, c).Next? {
        PlanPointsInside(fat, lim, data, LinkOf(fat, lim, c).cluster, seen + [c], name, Remember(d, c, name, deleted));
      }
    }
  }

  /** Only free clusters were written. */
  lemma FreeWritesRestore(lim: nat, fat: Fat, data: Clusters, data': Clusters, ch: seq<nat>)
    requires lim <= |fat| && |data| == lim && OnlyClusters(data, data', ch) && forall c :: c in ch && c < |fat| ==>
               fat[c] == 0
    ensures Restored(lim, fat, data, fat, data')
  {
  }

  ghost predicate ZeroedCluster(g: Geometry, fat: Fat, data: Clusters, fat': Fat, data': Clusters, n: nat) {
    && 2 <= n < g.Limit() <= |fat| && fat[n] == 0 && fat' == fat[n := FAT_END_MIN]
    && |data| == g.Limit() && OnlyClusters(data, data', [n]) && data'[n] == Zeros(g.ClusterBytes())
  }

  /** Allocate a cluster and zero it; on failure the FAT is as before. */
  method AllocateZeroed(v: Volume) returns (r: Result<nat>, ghost ch: seq<nat>)
    requires v.Valid()
    modifies v
    ensures v.Valid()
    ensures CountMatches(v.g, old(v.info), old(v.fat)) ==> CountMatches(v.g, v.info, v.fat)
    ensures r.Err? ==>
              v.fat == old(v.fat) && OnlyClusters(old(v.data), v.data, ch) && forall c :: c in ch && c < |v.fat| ==>
                v.fat[c] == 0
    ensures r.Err? ==> r == Err(NoSpace) || (r == Err(Block) && exists n :: v.faults(n))
    ensures r == Err(NoSpace) <==> CountFree(old(v.fat), v.g.Limit()) == 0
    ensures r.Ok? ==> ZeroedCluster(v.g, old(v.fat), old(v.data), v.fat, v.data, r.value)
  {
    ghost var fat0, info0 := v.fat, v.info;
    CountFreeBound(fat0, v.g.Limit());
    ch := [];
    r := AllocateCluster(v);
    if r.Ok? {
      var n := r.value;
      ch := [n];
      if CountMatches(v.g, info0, fat0) { AllocKeepsCount(v.g, info0, fat0, n); }
      var zeroed := ZeroCluster(v, n);
      if zeroed.Err? {
        GrowthStep(fat0, fat0, v.g.Limit(), [], n);
        UndoGrowth(v, fat0, n, [n]);
        r := Err(zeroed.error);
      }
    }
  }

  /** `extend_directory_chain`: on failure the FAT is as before. */
  method ExtendDirectoryChain(v: Volume, last: nat) returns (r: Result<nat>)
    requires v.Valid() && LinkOf(v.fat, v.g.Limit(), last) == End
    modifies v
    ensures v.Valid()
    ensures CountMatches(v.g, old(v.info), old(v.fat)) ==> CountMatches(v.g, v.info, v.fat)
    ensures r.Err? ==> Restored(v.g.Limit(), old(v.fat), old(v.data), v.fat, v.data)
    ensures r.Err? ==> r == Err(NoSpace) || (r == Err(Block) && exists n :: v.faults(n))
    ensures r == Err(NoSpace) <==> CountFree(old(v.fat), v.g.Limit()) == 0
    ensures r.Ok? ==>
              Reserved(v.g, old(v.fat), old(v.data), v.fat, v.data, Extend(last),
              Reservation(r.value, 0, None, Some((last, r.value))))
  {
    ghost var ch;
    r, ch := AllocateZeroed(v);
    if r.Ok? {
      if CountMatches(v.g, v.info, v.fat) { LinkKeepsCount(v.g, v.info, v.fat, last, r.value); }
      var linked := v.WriteFatEntry(last, r.value);
    } else {
      FreeWritesRestore(v.g.Limit(), v.fat, old(v.data), v.data, ch);
    }
  }

  /** Whether a plan can be carried out, as far as space goes. */
  ghost predicate SlotAvailable(g: Geometry, fat: Fat, p: Plan)
    requires g.Limit() <= |fat|
  {
    !p.Refuse? && (p.Extend? ==> CountFree(fat, g.Limit()) > 0)
  }

  /** `find_directory_slot`: the slot the search plans, growing the directory when
      every slot is taken. A failure changes nothing. */
  method FindDirectorySlot(v: Volume, dir: nat, name: ShortName) returns (r: Result<Reservation>)
    requires v.Valid()
    modifies v
    ensures v.Valid()
    ensures CountMatches(v.g, old(v.info), old(v.fat)) ==> CountMatches(v.g, v.info, v.fat)
    ensures r.Err? ==> Restored(v.g.Limit(), old(v.fat), old(v.data), v.fat, v.data)
    ensures var p := SlotFor(old(v.fat), v.g.Limit(), old(v.data), dir, [], name, None);
            && (r.Ok? ==> Reserved(v.g, old(v.fat), old(v.data), v.fat, v.data, p, r.value))
            && (r.Ok? ==> SlotAvailable(v.g, old(v.fat), p))
            && (r.Err? ==> if SlotAvailable(v.g, old(v.fat), p) then r == Err(Block) && exists n :: v.faults(n)
                           else r == Err(if p.Refuse? then p.error else NoSpace))
  {
    var p := PlanSlot(v, dir, name);
    PlanPointsInside(v.fat, v.g.Limit(), v.data, dir, [], name, None);
    RestoredSame(v.g.Limit(), v.fat, v.data);
    match p {
      case Existing(c, k) =>
        var sector := v.ReadSector(c, k / 16);
        var slot: Slot := sector[32 * (k % 16)..32 * (k % 16) + 32];
        SlotInSector(sector, 16 * (k / 16), k % 16, v.data[c]);
        r := Ok(Reservation(c, k, Some(DecodeEntry(slot)), None));
      case Vacant(c, k) =>
        r := Ok(Reservation(c, k, None, None));
      case Extend(last) =>
        var n := ExtendDirectoryChain(v, last);
        r := if n.Ok? then Ok(Reservation(n.value, 0, None, Some((last, n.value)))) else Err(n.error);
      case Refuse(e) =>
        r := Err(e);
    }
  }

  /** The FAT once a reservation has been undone. */
  ghost function Undone(fat: Fat, res: Reservation): Fat {
    if res.extension.Some? && res.extension.value.0 < |fat| then fat[res.extension.value.0 := FAT_END_MIN] else fat
  }

  lemma UndoneRestores(g: Geometry, fat: Fat, data: Clusters, fat1: Fat, data1: Clusters, p: Plan, res: Reservation,
                       data2: Clusters, ch: seq<nat>)
    requires g.Limit() <= |fat| && |data| == g.Limit() && Reserved(g, fat, data, fat1, data1, p, res)
    requires OnlyClusters(data1, data2, ch) && forall c :: c in ch && c < |fat1| ==> fat1[c] == 0
    ensures Restored(g.Limit(), fat, data, Undone(fat, res), data2)
  {
    forall c | 2 <= c < g.Limit() && fat[c] != 0 ensures data2[c] == data[c] {
      assert fat1[c] != 0;
      assert c !in ch;
      assert data1[c] == data[c];
    }
    var fat' := Undone(fat, res);
    forall c | 2 <= c < g.Limit()
      ensures LinkOf(fat', g.Limit(), c) == LinkOf(fat, g.Limit(), c) && (fat'[c] == 0 <==> fat[c] == 0) &&
              (fat'[c] == FAT_BAD <==> fat[c] == FAT_BAD)
    {
      if fat'[c] != fat[c] {
        assert LinkOf(fat, g.Limit(), c) == End;
      }
    }
  }

  /** `rollback_reserved_slot`: a cluster the directory was extended by is unlinked and freed. */
  method UnlinkReserved(v: Volume, res: Reservation, ghost p: Plan, ghost fat0: Fat, ghost data0: Clusters,
                        ghost data1: Clusters)
    requires v.Valid() && v.g.Limit() <= |fat0| && |data0| == v.g.Limit() &&
             Reserved(v.g, fat0, data0, v.fat, data1, p, res)
    modifies v
    ensures v.Valid() && v.data == old(v.data) && v.fat == Undone(fat0, res)
    ensures CountMatches(v.g, old(v.info), old(v.fat)) ==> CountMatches(v.g, v.info, v.fat)
  {
    if res.extension.Some? {
      var (last, n) := res.extension.value;
      if CountMatches(v.g, v.info, v.fat) { LinkKeepsCount(v.g, v.info, v.fat, last, FAT_END_MIN); }
      var unlinked := v.WriteFatEntry(last, FAT_END_MIN);
      assert GrownBy(Undone(fat0, res), v.fat, v.g.Limit(), [n]);
      UndoGrowth(v, Undone(fat0, res), n, [n]);
    }
  }

  /** Then the reservation is undone; whatever happened since to clusters that were free does not matter. */
  method RollbackReservedSlot(v: Volume, res: Reservation, ghost p: Plan, ghost fat0: Fat, ghost data0: Clusters,
                              ghost data1: Clusters, ghost ch: seq<nat>)
    requires v.Valid() && v.g.Limit() <= |fat0| && |data0| == v.g.Limit()
    requires Reserved(v.g, fat0, data0, v.fat, data1, p, res)
    requires OnlyClusters(data1, v.data, ch) && forall c :: c in ch && c < |v.fat| ==> v.fat[c] == 0
    modifies v
    ensures v.Valid() && v.data == old(v.data)
    ensures CountMatches(v.g, old(v.info), old(v.fat)) ==> CountMatches(v.g, v.info, v.fat)
    ensures Restored(v.g.Limit(), fat0, data0, v.fat, v.data)
  {
    UndoneRestores(v.g, fat0, data0, v.fat, data1, p, res, v.data, ch);
    UnlinkReserved(v, res, p, fat0, data0, data1);
  }
}
