/** Creating and overwriting a file in a directory, as one all-or-nothing step. */
module FatCreate {
  import opened Bytes
  import opened FatChain
  import opened FatVolume
  import opened FatAlloc
  import opened FatFile
  import opened FatDirectory
  import opened FatTree
  import opened FatSpace
  import opened FatReserve

  const MAX_FILE_SIZE: nat := 0xffff_ffff

  function DivCeil(n: nat, b: nat): nat
    requires b > 0
  {
    (n + b - 1) / b
  }

  lemma DivCeilCovers(n: nat, b: nat)
    requires b > 0
    ensures n <= DivCeil(n, b) * b && (DivCeil(n, b) == 0 <==> n == 0)
  {
    var q, m := DivCeil(n, b), n + b - 1;
    assert m == q * b + m % b;
    assert q > 0 ==> q * b >= b;
  }

  /** The clusters a file of `n` bytes takes. */
  function Needed(g: Geometry, n: nat): nat
    requires g.ClusterBytes() > 0
  {
    DivCeil(n, g.ClusterBytes())
  }

  /** The state between reserving a slot and publishing it: a fresh chain that
      starts with the file's bytes. */
  ghost predicate Prepared(g: Geometry, fat: Fat, data: Clusters, fat': Fat, data': Clusters, ch: seq<nat>, first: nat,
                           bytes: seq<Byte>)
    requires g.Limit() <= |fat| && |data| == g.Limit()
  {
    && |fat'| == |fat| && GrownBy(fat, fat', g.Limit(), ch) && OnlyClusters(data, data', ch)
    && (ch == [] <==> bytes == []) && first == (if ch == [] then 0 else ch[0])
    && (ch != [] ==> HasRoom(g, fat', data', ch, first, |bytes|) && Content(data', ch)[..|bytes|] == bytes)
  }

  /** The chain just allocated is long enough. */
  lemma FreshHasRoom(v: Volume, ch: seq<nat>, first: nat, n: nat)
    requires v.Valid() && ch != [] && IsChain(v.fat, v.g.Limit(), ch) && first == ch[0] && |ch| == Needed(v.g, n)
    ensures HasRoom(v.g, v.fat, v.data, ch, first, n)
  {
    ContentLength(v.data, ch, v.g.ClusterBytes());
    DivCeilCovers(n, v.g.ClusterBytes());
  }

  /** Allocate the chain and write the bytes; on failure the FAT is as before. */
  method PrepareFile(v: Volume, bytes: seq<Byte>) returns (r: Result<nat>, ghost ch: seq<nat>)
    requires v.Valid()
    modifies v
    ensures v.Valid() && |old(v.fat)| == |v.fat| && v.g.Limit() == |old(v.data)|
    ensures CountMatches(v.g, old(v.info), old(v.fat)) ==> CountMatches(v.g, v.info, v.fat)
    ensures r.Err? ==>
              v.fat == old(v.fat) && OnlyClusters(old(v.data), v.data, ch) && forall c :: c in ch && c < |v.fat| ==>
                v.fat[c] == 0
    ensures r.Err? ==> r == Err(NoSpace) || (r == Err(Block) && exists n :: v.faults(n))
    ensures r == Err(NoSpace) <==> CountFree(old(v.fat), v.g.Limit()) < Needed(v.g, |bytes|)
    ensures r.Ok? ==> Prepared(v.g, old(v.fat), old(v.data), v.fat, v.data, ch, r.value, bytes)
  {
    ghost var fat0 := v.fat;
    DivCeilCovers(|bytes|, v.g.ClusterBytes());
    r, ch := AllocateFileChain(v, Needed(v.g, |bytes|));
    if r.Err? {
      ch := [];
    } else {
      if ch != [] { FreshHasRoom(v, ch, r.value, |bytes|); }
      var written := WriteFileDataChain(v, r.value, bytes, ch);
      if written.Err? {
        UndoGrowth(v, fat0, r.value, ch);
        r := Err(written.error);
      }
    }
  }

  /** The intermediate states of one successful create. */
  datatype Trace = Trace(plan: Plan, res: Reservation, fat1: Fat, data1: Clusters,
                         ch: seq<nat>, first: nat, fat2: Fat, data2: Clusters, replaced: seq<nat>, isDir: bool)

  /** The entry published for a new file or directory; a directory's size field is 0. */
  function NewEntry(short: ShortName, first: nat, size: nat, isDir: bool): Entry {
    if isDir then Entry(short, first, 0, ATTR_DIRECTORY) else Entry(short, first, size, ATTR_ARCHIVE)
  }

  function NewSlot(short: ShortName, first: nat, size: nat, isDir: bool): Slot
    requires first < 0x1_0000_0000 && size <= MAX_FILE_SIZE
  {
    EncodeEntry(NewEntry(short, first, size, isDir))
  }

  /** The bytes of a new directory: one cluster of slots that own nothing. */
  ghost predicate DirBytes(g: Geometry, bytes: seq<Byte>) {
    |bytes| == g.ClusterBytes() && |bytes| % 32 == 0 && EndTail(bytes) && EmptyContent(bytes)
  }

  /** The file an existing slot names, if any, is a file with a proper chain. */
  ghost predicate Replaceable(fat: Fat, lim: nat, res: Reservation, replaced: seq<nat>)
    requires lim <= |fat|
  {
    if res.existing.None? then replaced == []
    else
      && !IsDirectory(res.existing.value.attributes)
      && if res.existing.value.firstCluster < 2 then replaced == []
         else IsChain(fat, lim, replaced) && replaced[0] == res.existing.value.firstCluster
  }

  ghost predicate StoreSteps(g: Geometry, fat': Fat, data': Clusters, short: ShortName, bytes: seq<Byte>, tr: Trace) {
    && g.Limit() <= |tr.fat1| && |tr.data1| == g.Limit() < 0x1_0000_0000 && |bytes| <= MAX_FILE_SIZE
    && Prepared(g, tr.fat1, tr.data1, tr.fat2, tr.data2, tr.ch, tr.first, bytes)
    && (tr.isDir ==> |tr.ch| == 1 && DirBytes(g, bytes))
    && tr.res.cluster < |tr.data2| && 32 * tr.res.index + 32 <= |tr.data2[tr.res.cluster]| && tr.first < g.Limit()
    && data' == tr.data2[tr.res.cluster := Splice(tr.data2[tr.res.cluster], 32 * tr.res.index,
       NewSlot(short, tr.first, |bytes|, tr.isDir))]
    && fat' == Cleared(tr.fat2, tr.replaced)
  }

  /** A create that went through: reserve, prepare, publish, free what was replaced. */
  ghost predicate CreateSteps(g: Geometry, fat: Fat, data: Clusters, fat': Fat, data': Clusters,
                              dir: nat, short: ShortName, bytes: seq<Byte>, tr: Trace)
    requires g.Limit() <= |fat| && |data| == g.Limit()
  {
    && tr.plan == SlotFor(fat, g.Limit(), data, dir, [], short, None)
    && Reserved(g, fat, data, tr.fat1, tr.data1, tr.plan, tr.res)
    && Replaceable(fat, g.Limit(), tr.res, tr.replaced)
    && StoreSteps(g, fat', data', short, bytes, tr)
  }

  /** A failure has the reason foretold, or the device refused a write; without a reason nothing else fails. */
  ghost predicate Foretold<T(!new)>(refusal: Option<Error>, r: Result<T>, faulty: bool) {
    if r.Ok? then refusal.None? else refusal == Some(r.error) || (r.error == Block && faulty)
  }

  /** Why an entry cannot be replaced by a file. */
  ghost function EntryRefusal(fat: Fat, lim: nat, e: Entry): Option<Error>
    requires lim <= |fat|
  {
    if IsDirectory(e.attributes) then Some(WriteFailed)
    else if e.firstCluster < 2 || Terminates(fat, lim, e.firstCluster) then None
    else if Cycles(fat, lim, e.firstCluster) then Some(ChainLoop) else Some(CorruptChain)
  }

  /** Check the file a create would replace. */
  method CheckReplaced(v: Volume, res: Reservation) returns (r: Result<()>, ghost replaced: seq<nat>)
    requires v.Valid()
    ensures r.Ok? ==> Replaceable(v.fat, v.g.Limit(), res, replaced)
    ensures r.Ok? <==> res.existing.Some? ==>
              && !IsDirectory(res.existing.value.attributes)
              && (res.existing.value.firstCluster >= 2 ==>
                 Terminates(v.fat, v.g.Limit(), res.existing.value.firstCluster))
    ensures r.Err? ==> res.existing.Some? && EntryRefusal(v.fat, v.g.Limit(), res.existing.value) == Some(r.error)
  {
    r, replaced := Ok(()), [];
    if res.existing.Some? {
      if IsDirectory(res.existing.value.attributes) { return Err(WriteFailed), []; }
      if res.existing.value.firstCluster >= 2 {
        r := ValidateClusterChain(v, res.existing.value.firstCluster);
        Trichotomy(v.fat, v.g.Limit(), res.existing.value.firstCluster);
        if r.Ok? { replaced :| IsChain(v.fat, v.g.Limit(), replaced) && replaced[0] == res.existing.value.firstCluster;
            }
      }
    }
  }

  /** Free the replaced file's chain: after the growth it is still a chain, so this cannot fail. */
  method FreeReplaced(v: Volume, res: Reservation, ghost fat0: Fat, ghost ch: seq<nat>, ghost replaced: seq<nat>)
    returns (r: Result<()>)
    requires v.Valid() && |fat0| == |v.fat| && Replaceable(fat0, v.g.Limit(), res, replaced) &&
             GrownBy(fat0, v.fat, v.g.Limit(), ch)
    modifies v
    ensures v.Valid() && v.data == old(v.data) && r.Ok? && v.fat == Cleared(old(v.fat), replaced)
    ensures CountMatches(v.g, old(v.info), old(v.fat)) ==> CountMatches(v.g, v.info, v.fat)
  {
    r := Ok(());
    if replaced != [] {
      ChainEntriesUsed(fat0, v.g.Limit(), replaced);
      forall c | c in replaced && 0 <= c < |fat0| ensures v.fat[c] == fat0[c] {
      }
      ProperFrame(fat0, v.fat, v.g.Limit(), replaced);
      if CountMatches(v.g, v.info, v.fat) { FreeKeepsCount(v.g, v.info, v.fat, replaced); }
    } else {
      assert Cleared(v.fat, []) == v.fat;
    }
    if res.existing.Some? && res.existing.value.firstCluster >= 2 {
      r := FreeClusterChain(v, res.existing.value.firstCluster);
      assert IsChain(old(v.fat), v.g.Limit(), replaced);
    }
  }

  /** Free the prepared chain and roll the reservation back. */
  method GiveBack(v: Volume, res: Reservation, first: nat, ghost p: Plan,
                  ghost fat0: Fat, ghost data0: Clusters, ghost fat1: Fat, ghost data1: Clusters, ghost ch: seq<nat>)
    requires v.Valid() && v.g.Limit() <= |fat0| && |data0| == v.g.Limit() &&
             Reserved(v.g, fat0, data0, fat1, data1, p, res)
    requires |v.fat| == |fat1| && GrownBy(fat1, v.fat, v.g.Limit(), ch) && OnlyClusters(data1, v.data, ch) &&
             first == (if ch == [] then 0 else ch[0])
    modifies v
    ensures v.Valid() && Restored(v.g.Limit(), fat0, data0, v.fat, v.data)
    ensures CountMatches(v.g, old(v.info), old(v.fat)) ==> CountMatches(v.g, v.info, v.fat)
  {
    if first >= 2 {
      UndoGrowth(v, fat1, first, ch);
    }
    assert v.fat == fat1;
    RollbackReservedSlot(v, res, p, fat0, data0, data1, ch);
  }

  /** Write the slot; if the device refuses, give the new chain and the reservation back. */
  method PublishSlot(v: Volume, s: Slot, res: Reservation, first: nat, ghost p: Plan,
                     ghost fat0: Fat, ghost data0: Clusters, ghost fat1: Fat, ghost data1: Clusters,
                     ghost ch: seq<nat>) returns (r: Result<()>)
    requires v.Valid() && v.g.Limit() <= |fat0| && |data0| == v.g.Limit() &&
             Reserved(v.g, fat0, data0, fat1, data1, p, res)
    requires |v.fat| == |fat1| && GrownBy(fat1, v.fat, v.g.Limit(), ch) && OnlyClusters(data1, v.data, ch) &&
             first == (if ch == [] then 0 else ch[0])
    requires 32 * res.index + 32 <= |v.data[res.cluster]|
    modifies v
    ensures v.Valid()
    ensures CountMatches(v.g, old(v.info), old(v.fat)) ==> CountMatches(v.g, v.info, v.fat)
    ensures r.Err? ==> r == Err(Block) && Restored(v.g.Limit(), fat0, data0, v.fat, v.data) && exists n :: v.faults(n)
    ensures r.Ok? ==>
              v.fat == old(v.fat) && v.data == old(v.data)[res.cluster := Splice(old(v.data)[res.cluster],
              32 * res.index, s)]
  {
    r := WriteSlot(v, res.cluster, res.index, s);
    if r.Err? {
      GiveBack(v, res, first, p, fat0, data0, fat1, data1, ch);
    }
  }

  lemma ReadyToPublish(v: Volume, fat0: Fat, data0: Clusters, p: Plan, bytes: seq<Byte>, tr: Trace)
    requires v.Valid() && v.g.Limit() <= |fat0| && |data0| == v.g.Limit()
    requires Reserved(v.g, fat0, data0, tr.fat1, tr.data1, p, tr.res)
    requires Prepared(v.g, tr.fat1, tr.data1, v.fat, v.data, tr.ch, tr.first, bytes)
    requires Replaceable(fat0, v.g.Limit(), tr.res, tr.replaced)
    requires forall c :: 2 <= c < |tr.data1| ==> |tr.data1[c]| == v.g.ClusterBytes()
    ensures tr.first < v.g.Limit() < 0x1_0000_0000 && 32 * tr.res.index + 32 <= |v.data[tr.res.cluster]|
    ensures Replaceable(tr.fat1, v.g.Limit(), tr.res, tr.replaced)
  {
    assert |v.data[tr.res.cluster]| == |tr.data1[tr.res.cluster]|;
  }

  /** What publishing relies on once the bytes are on the volume. */
  method StoreFile(v: Volume, short: ShortName, bytes: seq<Byte>, res: Reservation, ghost p: Plan,
                   ghost fat0: Fat, ghost data0: Clusters, ghost replaced: seq<nat>) returns (r: Result<()>,
                   ghost tr: Trace)
    requires v.Valid() && v.g.Limit() <= |fat0| && |data0| == v.g.Limit() && |bytes| <= MAX_FILE_SIZE
    requires Reserved(v.g, fat0, data0, v.fat, v.data, p, res) && Replaceable(fat0, v.g.Limit(), res, replaced)
    modifies v
    ensures v.Valid()
    ensures CountMatches(v.g, old(v.info), old(v.fat)) ==> CountMatches(v.g, v.info, v.fat)
    ensures r.Err? ==> Restored(v.g.Limit(), fat0, data0, v.fat, v.data)
    ensures r.Err? ==> r == Err(NoSpace) || (r == Err(Block) && exists n :: v.faults(n))
    ensures r == Err(NoSpace) <==> CountFree(old(v.fat), v.g.Limit()) < Needed(v.g, |bytes|)
    ensures r.Ok? ==>
              tr.fat1 == old(v.fat) && tr.data1 == old(v.data) && tr.plan == p && tr.res == res &&
              tr.replaced == replaced && !tr.isDir
    ensures r.Ok? ==> StoreSteps(v.g, v.fat, v.data, short, bytes, tr)
  {
    ghost var fat1, data1 := v.fat, v.data;
    tr := Trace(p, res, fat1, data1, [], 0, fat1, data1, replaced, false);
    var first;
    ghost var ch;
    first, ch := PrepareFile(v, bytes);
    if first.Err? {
      RollbackReservedSlot(v, res, p, fat0, data0, data1, ch);
      r := Err(first.error);
    } else {
      tr := tr.(ch := ch, first := first.value, fat2 := v.fat, data2 := v.data);
      ReadyToPublish(v, fat0, data0, p, bytes, tr);
      r := PublishSlot(v, NewSlot(short, first.value, |bytes|, false), res, first.value, p, fat0, data0, fat1, data1,
          ch);
      if r.Ok? {
        r := FreeReplaced(v, res, fat1, ch, replaced);
      }
    }
  }

  /** Why no slot can be had for a file. */
  ghost function SlotRefusal(g: Geometry, fat: Fat, data: Clusters, p: Plan): Option<Error>
    requires g.Limit() <= |fat| && |data| == g.Limit()
  {
    match p
    case Refuse(e) => Some(e)
    case Extend(_) => if CountFree(fat, g.Limit()) == 0 then Some(NoSpace) else None
    case Vacant(_, _) => None
    case Existing(c, k) =>
      if c < |data| && 32 * k + 32 <= |data[c]| then EntryRefusal(fat, g.Limit(), DecodeEntry(SlotAt(data[c], k)))
          else None
  }

  /** Why a create must fail, in the order in which it is found out. */
  ghost function CreateRefusal(g: Geometry, fat: Fat, data: Clusters, dir: nat, short: ShortName,
                               size: nat): Option<Error>
    requires g.Limit() <= |fat| && |data| == g.Limit() && g.ClusterBytes() > 0
  {
    var p := SlotFor(fat, g.Limit(), data, dir, [], short, None);
    if SlotRefusal(g, fat, data, p).Some? then SlotRefusal(g, fat, data, p)
    else if CountFree(fat, g.Limit()) < Needed(g, size) + (if p.Extend? then 1 else 0) then Some(NoSpace) else None
  }

  /** A reservation takes one free cluster or none. */
  lemma ReservedCount(g: Geometry, fat: Fat, data: Clusters, fat': Fat, data': Clusters, p: Plan, res: Reservation)
    requires g.Limit() <= |fat| && |data| == g.Limit() && Reserved(g, fat, data, fat', data', p, res)
    ensures CountFree(fat, g.Limit()) == CountFree(fat', g.Limit()) + (if p.Extend? then 1 else 0)
  {
    if p.Extend? {
      CountFreeUpdate(fat, g.Limit(), res.cluster, FAT_END_MIN);
      CountFreeUpdate(fat[res.cluster := FAT_END_MIN], g.Limit(), p.last, res.cluster);
    }
  }

  /** Reserve a slot that a file may be published in. */
  method ReserveForFile(v: Volume, dir: nat, short: ShortName, ghost p: Plan)
    returns (r: Result<Reservation>, ghost replaced: seq<nat>)
    requires v.Valid() && p == SlotFor(v.fat, v.g.Limit(), v.data, dir, [], short, None)
    modifies v
    ensures v.Valid()
    ensures CountMatches(v.g, old(v.info), old(v.fat)) ==> CountMatches(v.g, v.info, v.fat)
    ensures r.Err? ==> Restored(v.g.Limit(), old(v.fat), old(v.data), v.fat, v.data)
    ensures r.Ok? ==> Reserved(v.g, old(v.fat), old(v.data), v.fat, v.data, p, r.value)
    ensures r.Ok? ==> Replaceable(old(v.fat), v.g.Limit(), r.value, replaced)
    ensures Foretold(SlotRefusal(v.g, old(v.fat), old(v.data), p), r, exists n :: v.faults(n))
  {
    replaced := [];
    RestoredSame(v.g.Limit(), v.fat, v.data);
    r := FindDirectorySlot(v, dir, short);
    if r.Ok? {
      var checked;
      checked, replaced := CheckReplaced(v, r.value);
      if checked.Err? { r := Err(checked.error); }
    }
  }

  /** `create_file_in_directory` from the encoded name on: either every step took
      place, or the volume holds what it held. */
  method CreateStepwise(v: Volume, dir: nat, short: ShortName, bytes: seq<Byte>)
    returns (r: Result<()>, ghost tr: Trace)
    requires v.Valid() && |bytes| <= MAX_FILE_SIZE
    modifies v
    ensures v.Valid()
    ensures CountMatches(v.g, old(v.info), old(v.fat)) ==> CountMatches(v.g, v.info, v.fat)
    ensures r.Err? ==> Restored(v.g.Limit(), old(v.fat), old(v.data), v.fat, v.data)
    ensures r.Ok? ==> CreateSteps(v.g, old(v.fat), old(v.data), v.fat, v.data, dir, short, bytes, tr) && !tr.isDir
    ensures Foretold(CreateRefusal(v.g, old(v.fat), old(v.data), dir, short, |bytes|), r, exists n :: v.faults(n))
  {
    ghost var fat0, data0 := v.fat, v.data;
    ghost var p := SlotFor(fat0, v.g.Limit(), data0, dir, [], short, None);
    ghost var replaced;
    tr := Trace(p, Reservation(0, 0, None, None), fat0, data0, [], 0, fat0, data0, [], false);
    var slot;
    slot, replaced := ReserveForFile(v, dir, short, p);
    if slot.Err? {
      r := Err(slot.error);
    } else {
      ReservedCount(v.g, fat0, data0, v.fat, v.data, p, slot.value);
      r, tr := StoreFile(v, short, bytes, slot.value, p, fat0, data0, replaced);
    }
  }
}
