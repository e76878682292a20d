/** Making a directory. */
module FatMkdir {
  import opened Bytes
  import opened FatChain
  import opened FatVolume
  import opened FatAlloc
  import opened FatFile
  import opened FatDirectory
  import opened FatTree
  import opened FatPlan
  import opened FatReserve
  import opened FatMoves
  import opened FatCreate
  import opened FatOutcome
  import opened FatLookups
  import opened FatFiles

  /** "." is the directory itself, ".." the directory it was made in. */
  function DotEntry(cluster: nat): Entry { Entry(DOT, cluster, 0, ATTR_DIRECTORY) }

  function DotDotEntry(parent: nat): Entry { Entry(DOT_DOT, parent, 0, ATTR_DIRECTORY) }

  /** The first sector of a new directory: "." and "..", then free slots. */
  function DotSector(cluster: nat, parent: nat): Sector
    requires cluster < 0x1_0000_0000 && parent < 0x1_0000_0000
  {
    EncodeEntry(DotEntry(cluster)) + EncodeEntry(DotDotEntry(parent)) + Zeros(448)
  }

  /** All of a new directory's cluster. */
  function DotContent(g: Geometry, cluster: nat, parent: nat): seq<Byte>
    requires cluster < 0x1_0000_0000 && parent < 0x1_0000_0000 && g.sectorsPerCluster >= 1
  {
    DotSector(cluster, parent) + Zeros(g.ClusterBytes() - 512)
  }

  lemma DotSlots(g: Geometry, cluster: nat, parent: nat, k: nat)
    requires cluster < 0x1_0000_0000 && parent < 0x1_0000_0000 && g.sectorsPerCluster >= 1
    requires 32 * k + 32 <= g.ClusterBytes()
    ensures |DotContent(g, cluster, parent)| == g.ClusterBytes()
    ensures var s := SlotAt(DotContent(g, cluster, parent), k);
            if k >= 2 then s[0] == 0
            else s[0] == 0x2e && !IsOwner(s) && DecodeEntry(s) == if k == 0 then DotEntry(cluster)
                else DotDotEntry(parent)
  {
    var content := DotContent(g, cluster, parent);
    var dot, dotdot := EncodeEntry(DotEntry(cluster)), EncodeEntry(DotDotEntry(parent));
    assert DecodeEntry(dot).name == DOT && DecodeEntry(dotdot).name == DOT_DOT;
    if k == 0 {
      assert SlotAt(content, 0) == dot;
    } else if k == 1 {
      assert SlotAt(content, 1) == dotdot;
    } else {
      assert content[32 * k] == 0;
    }
  }

  /** A new directory owns nothing and names itself and its parent. */
  lemma DotContentEmpty(g: Geometry, cluster: nat, parent: nat)
    requires cluster < 0x1_0000_0000 && parent < 0x1_0000_0000 && g.sectorsPerCluster >= 1
    ensures DirBytes(g, DotContent(g, cluster, parent))
    ensures var content := DotContent(g, cluster, parent);
            && DecodeEntry(SlotAt(content, 0)) == DotEntry(cluster) &&
               DecodeEntry(SlotAt(content, 1)) == DotDotEntry(parent)
            && forall k: nat :: k >= 2 && 32 * k + 32 <= |content| ==> SlotAt(content, k)[0] == 0
  {
    DotSlots(g, cluster, parent, 0);
    DotSlots(g, cluster, parent, 1);
    var content := DotContent(g, cluster, parent);
    assert |content| == 32 * (16 * g.sectorsPerCluster);
    forall k: nat | 32 * k + 32 <= |content| ensures if k < 2 then SlotAt(content, k)[0] != 0 && !OwnerSlot(content, k)
        else SlotAt(content, k)[0] == 0 {
      DotSlots(g, cluster, parent, k);
    }
  }

  lemma DirectoryPrepared(g: Geometry, fat: Fat, data: Clusters, fat': Fat, data1: Clusters, data': Clusters, n: nat,
                          parent: nat)
    requires ZeroedCluster(g, fat, data, fat', data1, n) && n < 0x1_0000_0000 && parent < 0x1_0000_0000 &&
             g.sectorsPerCluster >= 1
    requires data' == data1[n := Splice(data1[n], 0, DotSector(n, parent))] && g.Limit() <= FAT_BAD
    ensures Prepared(g, fat, data, fat', data', [n], n, DotContent(g, n, parent))
  {
    GrowthStep(fat, fat, g.Limit(), [], n);
    assert data'[n] == DotContent(g, n, parent);
    assert Content(data', [n]) == data'[n] by { assert [n][..0] == []; }
  }

  /** Allocate and fill the new directory's cluster; on failure the FAT is as before. */
  method PrepareDirectory(v: Volume, parent: nat) returns (r: Result<nat>, ghost ch: seq<nat>)
    requires v.Valid() && parent < 0x1_0000_0000
    modifies v
    ensures v.Valid() && |old(v.fat)| == |v.fat| && v.g.Limit() == |old(v.data)|
    ensures CountMatches(v.g, old(v.info), old(v.fat)) ==> CountMatches(v.g, v.info, v.fat)
    ensures r.Err? ==>
              v.fat == old(v.fat) && OnlyClusters(old(v.data), v.data, ch) && forall c :: c in ch && c < |v.fat| ==>
                v.fat[c] == 0
    ensures r.Err? ==> r == Err(NoSpace) || (r == Err(Block) && exists n :: v.faults(n))
    ensures r == Err(NoSpace) <==> CountFree(old(v.fat), v.g.Limit()) == 0
    ensures r.Ok? ==> r.value < v.g.Limit() && ch == [r.value]
                      && Prepared(v.g, old(v.fat), old(v.data), v.fat, v.data, ch, r.value,
                         DotContent(v.g, r.value, parent))
  {
    ghost var fat0 := v.fat;
    r, ch := AllocateZeroed(v);
    if r.Ok? {
      var n := r.value;
      ch := [n];
      GrowthStep(fat0, fat0, v.g.Limit(), [], n);
      ghost var data1 := v.data;
      var written := v.WriteSector(n, 0, DotSector(n, parent));
      if written.Err? {
        UndoGrowth(v, fat0, n, [n]);
        r := Err(written.error);
      } else {
        DirectoryPrepared(v.g, fat0, old(v.data), v.fat, data1, v.data, n, parent);
      }
    }
  }

  lemma DirectoryStored(g: Geometry, data': Clusters, parent: nat, short: ShortName, tr: Trace)
    requires g.Limit() <= |tr.fat1| && |tr.data1| == g.Limit() <= FAT_BAD && 1 <= g.sectorsPerCluster <= 128 &&
             parent < 0x1_0000_0000
    requires tr.first < g.Limit() && tr.ch == [tr.first] && tr.isDir && tr.replaced == []
    requires Prepared(g, tr.fat1, tr.data1, tr.fat2, tr.data2, tr.ch, tr.first, DotContent(g, tr.first, parent))
    requires tr.res.cluster < |tr.data2| && 32 * tr.res.index + 32 <= |tr.data2[tr.res.cluster]|
    requires data' == tr.data2[tr.res.cluster := Splice(tr.data2[tr.res.cluster], 32 * tr.res.index,
             NewSlot(short, tr.first, g.ClusterBytes(), true))]
    ensures StoreSteps(g, tr.fat2, data', short, DotContent(g, tr.first, parent), tr)
  {
    DotContentEmpty(g, tr.first, parent);
    assert Cleared(tr.fat2, []) == tr.fat2;
  }

  /** Publish a new directory in a reserved slot. */
  method StoreDirectory(v: Volume, parent: nat, short: ShortName, res: Reservation, ghost p: Plan, ghost fat0: Fat,
                        ghost data0: Clusters)
    returns (r: Result<nat>, ghost tr: Trace)
    requires v.Valid() && v.g.Limit() <= |fat0| && |data0| == v.g.Limit() && parent < 0x1_0000_0000
    requires Reserved(v.g, fat0, data0, v.fat, v.data, p, res) && res.existing.None?
    modifies v
    ensures v.Valid()
    ensures CountMatches(v.g, old(v.info), old(v.fat)) ==> CountMatches(v.g, v.info, v.fat)
    ensures r.Err? ==> Restored(v.g.Limit(), fat0, data0, v.fat, v.data)
    ensures r.Err? ==> r == Err(NoSpace) || (r == Err(Block) && exists n :: v.faults(n))
    ensures r == Err(NoSpace) <==> CountFree(old(v.fat), v.g.Limit()) == 0
    ensures r.Ok? ==>
              tr.fat1 == old(v.fat) && tr.data1 == old(v.data) && tr.plan == p && tr.res == res && tr.replaced == [] &&
              tr.isDir && tr.first == r.value
    ensures r.Ok? ==>
              r.value < 0x1_0000_0000 && StoreSteps(v.g, v.fat, v.data, short, DotContent(v.g, r.value, parent), tr)
  {
    ghost var fat1, data1 := v.fat, v.data;
    tr := Trace(p, res, fat1, data1, [], 0, fat1, data1, [], true);
    ghost var ch;
    r, ch := PrepareDirectory(v, parent);
    if r.Err? {
      RollbackReservedSlot(v, res, p, fat0, data0, data1, ch);
    } else {
      tr := tr.(ch := ch, first := r.value, fat2 := v.fat, data2 := v.data);
      ReadyToPublish(v, fat0, data0, p, DotContent(v.g, r.value, parent), tr);
      var published := PublishSlot(v, NewSlot(short, r.value, v.g.ClusterBytes(), true), res, r.value, p, fat0, data0,
          fat1, data1, ch);
      if published.Ok? {
        DirectoryStored(v.g, v.data, parent, short, tr);
      } else {
        r := Err(published.error);
      }
    }
  }

  /** The plan found a directory whose chain starts at `first`. */
  ghost predicate IsDirectoryAt(data: Clusters, p: Plan, first: nat) {
    && p.Existing? && p.cluster < |data| && 32 * p.index + 32 <= |data[p.cluster]|
    && var s := SlotAt(data[p.cluster], p.index); IsDirectory(s[11]) && ClusterField(s) == first >= 2
  }

  /** Why no directory can be had: the slot is refused, belongs to something else, or clusters are short. */
  ghost function MakeRefusal(g: Geometry, fat: Fat, data: Clusters, parent: nat, short: ShortName): Option<Error>
    requires g.Limit() <= |fat| && |data| == g.Limit()
  {
    var p := SlotFor(fat, g.Limit(), data, parent, [], short, None);
    match p
    case Refuse(e) => Some(e)
    case Existing(c, k) =>
      if c < |data| && 32 * k + 32 <= |data[c]| && !IsDirectoryAt(data, p, ClusterField(SlotAt(data[c], k)))
          then Some(WriteFailed) else None
    case Vacant(_, _) => if CountFree(fat, g.Limit()) == 0 then Some(NoSpace) else None
    case Extend(_) => if CountFree(fat, g.Limit()) <= 1 then Some(NoSpace) else None
  }

  /** A new directory takes one cluster, and one more if its parent had to grow. */
  lemma MadeCount(g: Geometry, fat: Fat, data: Clusters, fat': Fat, data': Clusters, parent: nat, short: ShortName,
                  bytes: seq<Byte>, tr: Trace)
    requires g.Limit() <= |fat| && |data| == g.Limit() && tr.isDir && tr.replaced == []
    requires CreateSteps(g, fat, data, fat', data', parent, short, bytes, tr)
    ensures CountFree(fat, g.Limit()) == CountFree(fat', g.Limit()) + 1 + (if tr.plan.Extend? then 1 else 0)
  {
    ReservedCount(g, fat, data, tr.fat1, tr.data1, tr.plan, tr.res);
    GrowthCount(tr.fat1, tr.fat2, g.Limit(), tr.ch);
    assert Cleared(tr.fat2, []) == tr.fat2;
  }

  /** The steps of `create_directory_in`: reuse a directory of that name, or publish a new one. */
  method MakeStepwise(v: Volume, parent: nat, short: ShortName) returns (r: Result<nat>, made: bool, ghost tr: Trace)
    requires v.Valid()
    modifies v
    ensures v.Valid()
    ensures CountMatches(v.g, old(v.info), old(v.fat)) ==> CountMatches(v.g, v.info, v.fat)
    ensures r.Err? ==> Restored(v.g.Limit(), old(v.fat), old(v.data), v.fat, v.data)
    ensures r.Ok? ==> 2 <= parent < v.g.Limit() < 0x1_0000_0000
    ensures r.Ok? && !made ==>
              && v.fat == old(v.fat) && v.data == old(v.data)
              && IsDirectoryAt(v.data, SlotFor(v.fat, v.g.Limit(), v.data, parent, [], short, None), r.value)
    ensures r.Ok? && made ==>
              && tr.isDir && tr.first == r.value < 0x1_0000_0000 && tr.replaced == []
              && CreateSteps(v.g, old(v.fat), old(v.data), v.fat, v.data, parent, short,
                 DotContent(v.g, r.value, parent), tr)
    ensures Foretold(MakeRefusal(v.g, old(v.fat), old(v.data), parent, short), r, exists n :: v.faults(n))
  {
    ghost var fat0, data0 := v.fat, v.data;
    ghost var p := SlotFor(fat0, v.g.Limit(), data0, parent, [], short, None);
    tr := Trace(p, Reservation(0, 0, None, None), fat0, data0, [], 0, fat0, data0, [], true);
    made := false;
    RestoredSame(v.g.Limit(), v.fat, v.data);
    var slot := FindDirectorySlot(v, parent, short);
    if slot.Err? {
      r := Err(slot.error);
    } else if slot.value.existing.Some? {
      var e := slot.value.existing.value;
      r := if IsDirectory(e.attributes) && e.firstCluster >= 2 then Ok(e.firstCluster) else Err(WriteFailed);
    } else {
      made := true;
      ReservedCount(v.g, fat0, data0, v.fat, v.data, p, slot.value);
      r, tr := StoreDirectory(v, parent, short, slot.value, p, fat0, data0);
    }
  }

  /** Then it is a directory of the tree, and lookups find it. */
  lemma ExistingDirectory(g: Geometry, b: Disk, parent: nat, short: ShortName, first: nat)
    requires Good(g, b) && parent in b.tree.dirs && Proper(short)
    requires IsDirectoryAt(b.data, SlotFor(b.fat, g.Limit(), b.data, parent, [], short, None), first)
    ensures first in b.tree.dirs
    ensures Find(g, b, parent, short).Ok? && Find(g, b, parent, short).value.firstCluster == first &&
            IsDirectory(Find(g, b, parent, short).value.attributes)
  {
    var p := SlotFor(b.fat, g.Limit(), b.data, parent, [], short, None);
    SearchAgreesWithLookup(b.fat, g.Limit(), b.data, parent, [], short, None);
    assert b.chains[parent][0] == parent;
    PlanMeaning(b.fat, g.Limit(), b.data, b.chains[parent], short);
    PlanPointsInside(b.fat, g.Limit(), b.data, parent, [], short, None);
    var res := Reservation(p.cluster, p.index, Some(DecodeEntry(SlotAt(b.data[p.cluster], p.index))), None);
    var i, k := StayMove(g, b.fat, b.data, b.chains, b.tree, parent, short, p, res);
    SlotOwner(g.rootCluster, b.tree, parent, b.data, b.chains[parent], short, res, i, k);
  }

  ghost predicate WasThere(g: Geometry, b: Disk, a: Disk, parent: nat, short: ShortName, x: nat)
    requires g.Limit() <= |b.fat| && |b.data| == g.Limit()
  {
    var found := Find(g, b, parent, short);
    a == b && found.Ok? && found.value.firstCluster == x && IsDirectory(found.value.attributes)
  }

  ghost predicate NewlyMade(g: Geometry, b: Disk, a: Disk, parent: nat, short: ShortName, x: nat, k: nat)
    requires g.Limit() <= |b.fat| && |b.data| == g.Limit()
  {
    && x < 0x1_0000_0000 && parent < 0x1_0000_0000 && g.sectorsPerCluster >= 1
    && Created(g, b, a, parent, short, DotContent(g, x, parent), x, true, k)
    && parent in a.chains && LookupsAfter(g, b, a, parent, short, NewEntry(short, x, 0, true),
       Hidden(g, b, parent, short))
  }

  /** What the answer means for the tree: the directory of that name was there, or it was made. */
  ghost predicate Answered(g: Geometry, b: Disk, a: Disk, parent: nat, short: ShortName, r: Result<nat>, made: bool,
                           k: nat) {
    && g.Limit() <= |b.fat| && |b.data| == g.Limit() && Represents(g, a) && b.tree.dirs.Keys <= a.tree.dirs.Keys
    && (r.Ok? ==>
       r.value in a.tree.dirs && if made then NewlyMade(g, b, a, parent, short, r.value, k)
       else WasThere(g, b, a, parent, short, r.value))
  }

  lemma MakeMeans(g: Geometry, b: Disk, fat': Fat, data': Clusters, parent: nat, short: ShortName, r: Result<nat>,
                  made: bool, tr: Trace)
    returns (a: Disk, k: nat)
    requires Represents(g, b) && parent in b.tree.dirs && Proper(short) && Aligned(data') && g.sectorsPerCluster >= 1
    requires r.Err? ==> Restored(g.Limit(), b.fat, b.data, fat', data')
    requires r.Ok? ==> 2 <= parent < g.Limit() < 0x1_0000_0000
    requires r.Ok? && !made ==>
               fat' == b.fat && data' == b.data &&
               IsDirectoryAt(b.data, SlotFor(b.fat, g.Limit(), b.data, parent, [], short, None), r.value)
    requires r.Ok? && made ==>
               && tr.isDir && tr.first == r.value < 0x1_0000_0000 && tr.replaced == []
               && CreateSteps(g, b.fat, b.data, fat', data', parent, short, DotContent(g, r.value, parent), tr)
    ensures a.fat == fat' && a.data == data' && (r.Err? ==> a.chains == b.chains && a.tree == b.tree)
    ensures Answered(g, b, a, parent, short, r, made, k)
  {
    a, k := Disk(fat', data', b.chains, b.tree), 0;
    if r.Err? {
      RestoredRepresents(g, b, fat', data');
    } else if made {
      a, k := CreateTheorem(g, b, fat', data', parent, short, DotContent(g, r.value, parent), tr);
    } else {
      ExistingDirectory(g, b, parent, short, r.value);
    }
  }

  /** The same, with what it means for the tree. */
  method MakeNamed(v: Volume, parent: nat, short: ShortName, ghost b: Disk)
    returns (r: Result<nat>, ghost a: Disk, ghost made: bool, ghost k: nat)
    requires v.Valid() && b.fat == v.fat && b.data == v.data && Proper(short)
    modifies v
    ensures v.Valid()
    ensures CountMatches(v.g, old(v.info), old(v.fat)) ==> CountMatches(v.g, v.info, v.fat)
    ensures a.fat == v.fat && a.data == v.data
    ensures r.Err? ==>
              Restored(v.g.Limit(), old(v.fat), old(v.data), v.fat, v.data) && a.chains == b.chains && a.tree == b.tree
    ensures Foretold(MakeRefusal(v.g, old(v.fat), old(v.data), parent, short), r, exists n :: v.faults(n))
    ensures r.Ok? && made ==>
              var p := SlotFor(old(v.fat), v.g.Limit(), old(v.data), parent, [], short, None);
              CountFree(old(v.fat), v.g.Limit()) == CountFree(v.fat, v.g.Limit()) + 1 + (if p.Extend? then 1 else 0)
    ensures Represents(v.g, b) && parent in b.tree.dirs ==> Answered(v.g, b, a, parent, short, r, made, k)
  {
    ghost var tr;
    var isNew;
    r, isNew, tr := MakeStepwise(v, parent, short);
    made, k := isNew, 0;
    if r.Ok? && made { MadeCount(v.g, b.fat, b.data, v.fat, v.data, parent, short, DotContent(v.g, r.value, parent),
        tr); }
    a := Disk(v.fat, v.data, b.chains, b.tree);
    if Represents(v.g, b) && parent in b.tree.dirs {
      VolumeAligned(v);
      a, k := MakeMeans(v.g, b, v.fat, v.data, parent, short, r, made, tr);
    }
  }

  /** `create_directory_in`: a failure changes nothing a reader can observe;
      success answers a directory of that name, there before or newly made. */
  method MakeDirectory(v: Volume, parent: nat, name: seq<Byte>, ghost b: Disk)
    returns (r: Result<nat>, ghost a: Disk, ghost made: bool, ghost k: nat)
    requires v.Valid() && b.fat == v.fat && b.data == v.data
    modifies v
    ensures v.Valid()
    ensures CountMatches(v.g, old(v.info), old(v.fat)) ==> CountMatches(v.g, v.info, v.fat)
    ensures a.fat == v.fat && a.data == v.data
    ensures r.Err? ==>
              Restored(v.g.Limit(), old(v.fat), old(v.data), v.fat, v.data) && a.chains == b.chains && a.tree == b.tree
    ensures EncodeShortName(name).None? ==> r == Err(NameTooLong)
    ensures EncodeShortName(name).Some? ==>
              Foretold(MakeRefusal(v.g, old(v.fat), old(v.data), parent, EncodeShortName(name).value), r,
              exists n :: v.faults(n))
    ensures r.Ok? && made ==>
              var p := SlotFor(old(v.fat), v.g.Limit(), old(v.data), parent, [], EncodeShortName(name).value, None);
              CountFree(old(v.fat), v.g.Limit()) == CountFree(v.fat, v.g.Limit()) + 1 + (if p.Extend? then 1 else 0)
    ensures Represents(v.g, b) && parent in b.tree.dirs ==> Represents(v.g, a) && b.tree.dirs.Keys <= a.tree.dirs.Keys
    ensures r.Ok? && Represents(v.g, b) && parent in b.tree.dirs ==>
              Answered(v.g, b, a, parent, EncodeShortName(name).value, r, made, k)
  {
    a, made, k := b, false, 0;
    RestoredSame(v.g.Limit(), v.fat, v.data);
    var encoded := EncodeShortName(name);
    if encoded.None? { return Err(NameTooLong), a, made, k; }
    r, a, made, k := MakeNamed(v, parent, encoded.value, b);
  }
}
