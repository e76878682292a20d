/** The file operations of a FAT32 volume, with what they promise. */
module FatFiles {
  import opened Bytes
  import opened FatChain
  import opened FatVolume
  import opened FatAlloc
  import opened FatFile
  import opened FatDirectory
  import opened FatTree
  import opened FatPlan
  import opened FatReserve
  import opened FatMoves
  import opened FatCreate
  import opened FatOutcome
  import opened FatLookups

  /** A volume that represents tree `t`, with no chain left over and no name twice. */
  ghost predicate Represents(g: Geometry, d: Disk) {
    Good(g, d) && d.tree.orphans == {} && Unambiguous(d.tree)
  }

  /** The slot to be published is of a name not in the directory, or holds that name already. */
  lemma AbsentOrOwn(g: Geometry, b: Disk, dir: nat, short: ShortName, tr: Trace, i: nat, k: nat)
    requires Good(g, b) && dir in b.tree.dirs && Proper(short)
    requires tr.plan == SlotFor(b.fat, g.Limit(), b.data, dir, [], short, None)
    requires Reserved(g, b.fat, b.data, tr.fat1, tr.data1, tr.plan, tr.res)
    requires tr.res.existing.Some? ==> SlotReady(b.data, b.chains[dir], b.tree.dirs[dir], short, tr.res, i, k)
    ensures Absent(b.tree.dirs[dir], short) || (OwnerSlot(b.tree.dirs[dir], k) &&
            SlotAt(b.tree.dirs[dir], k)[..11] == short)
  {
    if tr.res.existing.None? {
      SearchAgreesWithLookup(b.fat, g.Limit(), b.data, dir, [], short, None);
      FindNothing(g, b, dir, short);
    } else {
      SlotOwner(g.rootCluster, b.tree, dir, b.data, b.chains[dir], short, tr.res, i, k);
    }
  }

  /** Names stay unique. */
  lemma OneSlotKeepsNames(b: Tree, a: Tree, dir: nat, short: ShortName, k: nat, s: Slot, added: map<nat, seq<Byte>>)
    requires Unambiguous(b) && OneSlot(b, a, dir, k, s, added) && (forall d :: d in added ==> EmptyContent(added[d])) &&
             s[..11] == short && |b.dirs[dir]| % 32 == 0
    requires Absent(b.dirs[dir], short) || (OwnerSlot(b.dirs[dir], k) && SlotAt(b.dirs[dir], k)[..11] == short)
    ensures Unambiguous(a)
  {
    PutKeepsNames(b.dirs[dir], |a.dirs[dir]| - |b.dirs[dir]|, k, s, short);
  }

  lemma CreateKeepsNames(g: Geometry, b: Disk, a: Disk, dir: nat, short: ShortName, bytes: seq<Byte>, tr: Trace, i: nat,
                         k: nat)
    requires Good(g, b) && dir in b.tree.dirs && Proper(short) && Unambiguous(b.tree)
    requires tr.plan == SlotFor(b.fat, g.Limit(), b.data, dir, [], short, None)
    requires Reserved(g, b.fat, b.data, tr.fat1, tr.data1, tr.plan, tr.res)
    requires tr.res.existing.Some? ==> SlotReady(b.data, b.chains[dir], b.tree.dirs[dir], short, tr.res, i, k)
    requires tr.first < 0x1_0000_0000 && |bytes| <= MAX_FILE_SIZE && (tr.isDir ==> EmptyContent(bytes))
    requires OneSlot(b.tree, a.tree, dir, k, NewSlot(short, tr.first, |bytes|, tr.isDir),
             AddedDirs(tr.first, bytes, tr.isDir))
    ensures Unambiguous(a.tree)
  {
    NewSlotIsOwner(short, tr.first, |bytes|, tr.isDir);
    AbsentOrOwn(g, b, dir, short, tr, i, k);
    OneSlotKeepsNames(b.tree, a.tree, dir, short, k, NewSlot(short, tr.first, |bytes|, tr.isDir),
        AddedDirs(tr.first, bytes, tr.isDir));
  }

  lemma CreatedPlace(g: Geometry, b: Disk, fat': Fat, data': Clusters, dir: nat, short: ShortName, bytes: seq<Byte>,
                     tr: Trace, a: Disk, i: nat, k: nat)
    requires Good(g, b) && dir in b.tree.dirs && CreateSteps(g, b.fat, b.data, fat', data', dir, short, bytes, tr)
    requires Settled(g, Tree1(g, b, dir, tr), dir, short, tr.res, i, k)
    requires a.data == data' && dir in a.chains && a.chains[dir] == ReservedChains(b.chains, dir, tr.res)[dir]
    requires OneSlot(b.tree, a.tree, dir, k, NewSlot(short, tr.first, |bytes|, tr.isDir),
             AddedDirs(tr.first, bytes, tr.isDir))
    requires |a.tree.dirs[dir]| == |ReservedTree(g, b.tree, dir, tr.res).dirs[dir]|
    ensures SlotPlaced(b, a, dir, short, i, tr.res.index, k)
  {
    ReadyAfterPrepare(g, Tree1(g, b, dir, tr), dir, short, bytes, tr, i, k);
    CreatedIsPlaced(g, b, dir, short, NewSlot(short, tr.first, |bytes|, tr.isDir), AddedDirs(tr.first, bytes, tr.isDir),
        tr, a, i, k);
  }

  /** Everything a successful create means. */
  lemma CreateTheorem(g: Geometry, b: Disk, fat': Fat, data': Clusters, dir: nat, short: ShortName, bytes: seq<Byte>,
                      tr: Trace)
    returns (a: Disk, k: nat)
    requires Represents(g, b) && dir in b.tree.dirs && Proper(short)
    requires CreateSteps(g, b.fat, b.data, fat', data', dir, short, bytes, tr)
    ensures a.fat == fat' && a.data == data' && Represents(g, a)
    ensures Created(g, b, a, dir, short, bytes, tr.first, tr.isDir, k)
    ensures LookupsAfter(g, b, a, dir, short, NewEntry(short, tr.first, |bytes|, tr.isDir), Hidden(g, b, dir, short))
  {
    var i;
    a, i, k := CreateOutcome(g, b, fat', data', dir, short, bytes, tr);
    CreatedPlace(g, b, fat', data', dir, short, bytes, tr, a, i, k);
    ReservedPlace(g, b, dir, short, tr, i, k);
    CreateReaders(g, b, a, dir, short, bytes, tr.first, tr.isDir, i, tr.res.index, k);
    CreateKeepsNames(g, b, a, dir, short, bytes, tr, i, k);
  }

  /** A failed operation leaves a volume that represents the same tree. */
  lemma RestoredRepresents(g: Geometry, b: Disk, fat': Fat, data': Clusters)
    requires Represents(g, b) && Restored(g.Limit(), b.fat, b.data, fat', data') && Aligned(data')
    ensures Represents(g, Disk(fat', data', b.chains, b.tree))
  {
    RestoredKeepsTree(g, b.fat, b.data, fat', data', b.chains, b.tree);
  }

  /** `create_file_in_directory`, on any volume and any device.

      A failure changes nothing a reader can observe. On a volume that
      represents a tree, success means: the bytes are stored on a fresh chain (or
      none), exactly one slot of one directory changed, the replaced chain is
      free, every other chain is untouched, and lookups agree with all that. */
  method CreateFile(v: Volume, dir: nat, name: seq<Byte>, bytes: seq<Byte>, ghost b: Disk)
    returns (r: Result<()>, ghost a: Disk, ghost first: nat, ghost k: nat)
    requires v.Valid() && b.fat == v.fat && b.data == v.data
    modifies v
    ensures v.Valid()
    ensures CountMatches(v.g, old(v.info), old(v.fat)) ==> CountMatches(v.g, v.info, v.fat)
    ensures a.fat == v.fat && a.data == v.data
    ensures r.Err? ==>
              Restored(v.g.Limit(), old(v.fat), old(v.data), v.fat, v.data) && a.chains == b.chains && a.tree == b.tree
    ensures EncodeShortName(name).None? ==> r == Err(NameTooLong)
    ensures EncodeShortName(name).Some? && |bytes| > MAX_FILE_SIZE ==> r == Err(NoSpace)
    ensures EncodeShortName(name).Some? && |bytes| <= MAX_FILE_SIZE ==>
              Foretold(CreateRefusal(v.g, old(v.fat), old(v.data), dir, EncodeShortName(name).value, |bytes|), r,
              exists n :: v.faults(n))
    ensures Represents(v.g, b) && dir in b.tree.dirs ==> Represents(v.g, a)
    ensures r.Ok? && Represents(v.g, b) && dir in b.tree.dirs ==>
              && var short := EncodeShortName(name).value;
              && Created(v.g, b, a, dir, short, bytes, first, false, k)
              && LookupsAfter(v.g, b, a, dir, short, NewEntry(short, first, |bytes|, false), Hidden(v.g, b, dir, short))
  {
    first, k := 0, 0;
    a := b;
    RestoredSame(v.g.Limit(), b.fat, b.data);
    var encoded := EncodeShortName(name);
    if encoded.None? {
      r := Err(NameTooLong);
    } else if |bytes| > MAX_FILE_SIZE {
      r := Err(NoSpace);
    } else {
      ghost var tr;
      r, tr := CreateStepwise(v, dir, encoded.value, bytes);
      first := tr.first;
      a := Disk(v.fat, v.data, b.chains, b.tree);
      if Represents(v.g, b) && dir in b.tree.dirs {
        if r.Ok? {
          a, k := CreateTheorem(v.g, b, v.fat, v.data, dir, encoded.value, bytes, tr);
        } else {
          VolumeAligned(v);
          RestoredRepresents(v.g, b, v.fat, v.data);
        }
      }
    }
  }
}
