/** Moving a directory entry: a name of one directory becomes a name of another. */
module FatRename {
  import opened Bytes
  import opened FatChain
  import opened FatVolume
  import opened FatFile
  import opened FatDirectory
  import opened FatTree
  import opened FatSpace
  import opened FatPlan
  import opened FatReserve
  import opened FatMoves
  import opened FatCreate
  import opened FatOutcome
  import opened FatLookups
  import opened FatFiles
  import opened FatDelete
  import opened FatReach

  // ------------------------------------------------------------- the slots

  /** The slot under another name. */
  function Renamed(s: Slot, short: ShortName): Slot { short + s[11..] }

  /** The slot with another chain. */
  function Pointed(s: Slot, c: nat): (r: Slot)
    requires c < 0x1_0000_0000
    ensures ClusterField(r) == c && r[..11] == s[..11] && r[11] == s[11]
  {
    var r: Slot := Put16(Put16(s, 20, c / 0x1_0000), 26, c % 0x1_0000);
    assert Le16(r, 20) == c / 0x1_0000 && Le16(r, 26) == c % 0x1_0000;
    r
  }

  lemma RenamedSays(s: Slot, short: ShortName)
    requires IsOwner(s) && Proper(short)
    ensures IsOwner(Renamed(s, short)) && LiveNamed(Renamed(s, short), short)
    ensures DecodeEntry(Renamed(s, short)) == DecodeEntry(s).(name := short)
  {
    var r := Renamed(s, short);
    assert r[..11] == short;
    assert DOT[0] == 0x2e && DOT_DOT[0] == 0x2e && r[..11][0] == r[0];
  }

  lemma PointedIsDot(s: Slot, c: nat)
    requires c < 0x1_0000_0000 && s[..11] == DOT_DOT
    ensures !IsOwner(Pointed(s, c)) && Pointed(s, c)[0] == 0x2e
  {
    var r := Pointed(s, c);
    assert r[..11][0] == r[0] && DOT_DOT[0] == 0x2e;
  }

  // -------------------------------------------------------- slots in place

  /** Slot `j` of the `i`-th cluster of the directory is its slot `k`. */
  ghost predicate Placed(d: Disk, dir: nat, i: nat, j: nat, k: nat) {
    && dir in d.tree.dirs && dir in d.chains && InData(d.data, d.chains[dir]) && i < |d.chains[dir]|
    && 32 * j + 32 <= |d.data[d.chains[dir][i]]| && |Content(d.data, d.chains[dir][..i])| % 32 == 0
    && k == SlotNumber(d.data, d.chains[dir], i, j) && 32 * k + 32 <= |d.tree.dirs[dir]|
  }

  ghost function Written(d: Disk, dir: nat, i: nat, j: nat, k: nat, s: Slot): Disk
    requires Placed(d, dir, i, j, k)
  {
    var c := d.chains[dir][i];
    Disk(d.fat, d.data[c := Splice(d.data[c], 32 * j, s)], d.chains, WithSlot(d.tree, dir, k, s))
  }

  lemma PlacedSlot(g: Geometry, d: Disk, dir: nat, i: nat, j: nat, k: nat)
    requires Good(g, d) && Placed(d, dir, i, j, k)
    ensures SlotAt(d.tree.dirs[dir], k) == SlotAt(d.data[d.chains[dir][i]], j)
  {
    ChainNoDuplicates(d.fat, g.Limit(), d.chains[dir]);
    PutContent(d.data, d.chains[dir], i, j, SlotAt(d.data[d.chains[dir][i]], j));
  }

  /** What a slot may be overwritten with. */
  ghost predicate Fitting(t: Tree, dir: nat, k: nat, s: Slot) {
    && dir in t.dirs && 32 * k + 32 <= |t.dirs[dir]| && s[0] != 0 && Adoptable(t, s)
    && (SlotAt(t.dirs[dir], k)[0] == 0 ==> forall m :: 0 <= m < k ==> SlotAt(t.dirs[dir], m)[0] != 0)
  }

  lemma AlignedPut(data: Clusters, c: nat, j: nat, s: Slot)
    requires Aligned(data) && c < |data| && 32 * j + 32 <= |data[c]|
    ensures Aligned(data[c := Splice(data[c], 32 * j, s)])
  {
  }

  lemma WrittenGood(g: Geometry, d: Disk, dir: nat, i: nat, j: nat, k: nat, s: Slot)
    requires Good(g, d) && Placed(d, dir, i, j, k) && Fitting(d.tree, dir, k, s)
    ensures Good(g, Written(d, dir, i, j, k, s))
  {
    PublishMove(g, d.fat, d.data, d.chains, d.tree, dir, i, j, k, s);
    AlignedPut(d.data, d.chains[dir][i], j, s);
  }

  lemma {:induction false} SameLengths(data: Clusters, data': Clusters, ch: seq<nat>)
    requires InData(data, ch) && |data'| == |data| && forall c {:trigger data'[c]} :: 0 <= c < |data| ==>
               |data'[c]| == |data[c]|
    ensures InData(data', ch) && |Content(data', ch)| == |Content(data, ch)|
  {
    if ch != [] { SameLengths(data, data', ch[..|ch| - 1]); }
  }

  /** Writing a slot moves no slot. */
  lemma StaysPlaced(d: Disk, dir: nat, i: nat, j: nat, k: nat, s: Slot, dir2: nat, i2: nat, j2: nat, k2: nat)
    requires Placed(d, dir, i, j, k) && Placed(d, dir2, i2, j2, k2)
    ensures Placed(Written(d, dir, i, j, k, s), dir2, i2, j2, k2)
  {
    var d' := Written(d, dir, i, j, k, s);
    SameLengths(d.data, d'.data, d.chains[dir2]);
    SameLengths(d.data, d'.data, d.chains[dir2][..i2]);
  }

  // ------------------------------------------------------------ the entries

  ghost predicate HasEntry(t: Tree, d: nat, k: nat) {
    d in t.dirs && OwnerSlot(t.dirs[d], k)
  }

  /** Every directory has the entries it had, in the slots they were in. */
  ghost predicate SameEntries(t: Tree, t': Tree) {
    && t'.dirs.Keys == t.dirs.Keys
    && forall d, k {:trigger HasEntry(t', d, k)} ::
         (HasEntry(t', d, k) <==> HasEntry(t, d, k)) &&
         (HasEntry(t, d, k) ==> SlotAt(t'.dirs[d], k) == SlotAt(t.dirs[d], k))
  }

  lemma SameEntriesSelf(t: Tree)
    ensures SameEntries(t, t)
  {
  }

  /** Writing a slot that owns nothing over one that owned nothing. */
  lemma QuietPut(t: Tree, d: nat, k: nat, s: Slot)
    requires d in t.dirs && 32 * k + 32 <= |t.dirs[d]| && !IsOwner(SlotAt(t.dirs[d], k)) && !IsOwner(s)
    ensures SameEntries(t, WithSlot(t, d, k, s)) && WithSlot(t, d, k, s).orphans == t.orphans
  {
    var t' := WithSlot(t, d, k, s);
    forall e, j: nat
      ensures HasEntry(t', e, j) <==> HasEntry(t, e, j)
      ensures HasEntry(t, e, j) ==> SlotAt(t'.dirs[e], j) == SlotAt(t.dirs[e], j)
    {
      SpliceSlots(t.dirs[d], k, s, j);
    }
  }

  lemma SameEntriesOn(t: Tree, t1: Tree, t2: Tree)
    requires SameEntries(t, t1) && SameEntries(t1, t2)
    ensures SameEntries(t, t2)
  {
    forall d, k
      ensures HasEntry(t2, d, k) <==> HasEntry(t, d, k)
      ensures HasEntry(t, d, k) ==> SlotAt(t2.dirs[d], k) == SlotAt(t.dirs[d], k)
    {
      assert HasEntry(t1, d, k) <==> HasEntry(t, d, k);
    }
  }

  /** The entry in slot `k` of `od` is in slot `m` of `nd`, under the name `short` and otherwise as it was;
      every other entry is as it was. */
  ghost predicate Relabelled(b: Tree, a: Tree, od: nat, k: nat, nd: nat, m: nat, short: ShortName) {
    && a.dirs.Keys == b.dirs.Keys && HasEntry(b, od, k) && HasEntry(a, nd, m) &&
       SlotAt(a.dirs[nd], m) == Renamed(SlotAt(b.dirs[od], k), short)
    && (HasEntry(b, nd, m) ==> nd == od && m == k)
    && forall d, j {:trigger HasEntry(a, d, j)} :: !(d == nd && j == m) ==>
         && (HasEntry(a, d, j) <==> HasEntry(b, d, j) && !(d == od && j == k))
         && (HasEntry(a, d, j) ==> SlotAt(a.dirs[d], j) == SlotAt(b.dirs[d], j))
  }

  lemma RenamedChain(s: Slot, short: ShortName)
    ensures ClusterField(Renamed(s, short)) == ClusterField(s)
  {
  }

  /** The chain of the entry then hangs where the entry is. */
  lemma RelabelledRehung(b: Tree, a: Tree, od: nat, k: nat, nd: nat, m: nat, short: ShortName)
    requires Relabelled(b, a, od, k, nd, m, short)
    ensures Rehung(b, a, od, k, nd, m, ClusterField(SlotAt(b.dirs[od], k)))
  {
    var x := ClusterField(SlotAt(b.dirs[od], k));
    RenamedChain(SlotAt(b.dirs[od], k), short);
    forall e, j, h ensures Owns(a, e, j, h) <==>
          if e == nd && j == m then h == x else Owns(b, e, j, h) && !(e == od && j == k) {
      assert HasEntry(a, e, j) ==> OwnerSlot(a.dirs[e], j);
    }
    forall h | Owns(b, nd, m, h) ensures nd == od && m == k { assert HasEntry(b, nd, m); }
  }

  lemma RelabelledBetween(b: Tree, t1: Tree, t2: Tree, a: Tree, od: nat, k: nat, nd: nat, m: nat, short: ShortName)
    requires SameEntries(b, t1) && Relabelled(t1, t2, od, k, nd, m, short) && SameEntries(t2, a)
    ensures Relabelled(b, a, od, k, nd, m, short)
  {
    assert HasEntry(t1, od, k) && HasEntry(a, nd, m);
    assert HasEntry(t1, nd, m) <==> HasEntry(b, nd, m);
    forall d, j | !(d == nd && j == m)
      ensures HasEntry(a, d, j) <==> HasEntry(b, d, j) && !(d == od && j == k)
      ensures HasEntry(a, d, j) ==> SlotAt(a.dirs[d], j) == SlotAt(b.dirs[d], j)
    {
      assert HasEntry(t2, d, j) <==> HasEntry(a, d, j);
      assert HasEntry(t1, d, j) <==> HasEntry(b, d, j);
    }
  }

  // ------------------------------------------------------------- the move

  /** The slot leaves its place, and under its new name takes the other. */
  ghost function Moved(d: Disk, od: nat, i1: nat, j1: nat, k1: nat, nd: nat, i2: nat, j2: nat, k2: nat,
                       short: ShortName): Disk
    requires Placed(d, od, i1, j1, k1) && Placed(d, nd, i2, j2, k2)
  {
    var s := SlotAt(d.tree.dirs[od], k1);
    StaysPlaced(d, od, i1, j1, k1, Marked(s), nd, i2, j2, k2);
    Written(Written(d, od, i1, j1, k1, Marked(s)), nd, i2, j2, k2, Renamed(s, short))
  }

  /** The place a moved entry may take: its own, or a vacant slot. */
  ghost predicate Vacant(t: Tree, od: nat, k1: nat, nd: nat, k2: nat) {
    || (nd == od && k2 == k1)
    || (nd in t.dirs && 32 * k2 + 32 <= |t.dirs[nd]| && SlotAt(t.dirs[nd], k2)[0] in {0, DELETED}
        && (SlotAt(t.dirs[nd], k2)[0] == 0 ==> forall m :: 0 <= m < k2 ==> SlotAt(t.dirs[nd], m)[0] != 0))
  }

  /** Once its old slot is marked, the entry fits its new place. */
  lemma MovedFits(root: nat, t: Tree, od: nat, k1: nat, nd: nat, k2: nat, short: ShortName)
    requires TreeOk(root, t) && od in t.dirs && OwnerSlot(t.dirs[od], k1) && Proper(short) && Vacant(t, od, k1, nd, k2)
    ensures var s := SlotAt(t.dirs[od], k1);
            Fitting(t, od, k1, Marked(s)) && Fitting(WithSlot(t, od, k1, Marked(s)), nd, k2, Renamed(s, short))
  {
    var s := SlotAt(t.dirs[od], k1);
    var t' := WithSlot(t, od, k1, Marked(s));
    MarkedOwnsNothing(s);
    RenamedSays(s, short);
    assert SlotSound(root, t, s);
    forall m: nat ensures 32 * m + 32 <= |t.dirs[od]| ==>
          SlotAt(t'.dirs[od], m) == if m == k1 then Marked(s) else SlotAt(t.dirs[od], m) {
      SpliceSlots(t.dirs[od], k1, Marked(s), m);
    }
  }

  lemma MovedOwns(t: Tree, od: nat, k1: nat, nd: nat, k2: nat, short: ShortName)
    requires od in t.dirs && nd in t.dirs && OwnerSlot(t.dirs[od], k1) && 32 * k2 + 32 <= |t.dirs[nd]| &&
             Proper(short) && Vacant(t, od, k1, nd, k2)
    ensures var s := SlotAt(t.dirs[od], k1);
            Relabelled(t, WithSlot(WithSlot(t, od, k1, Marked(s)), nd, k2, Renamed(s, short)), od, k1, nd, k2, short)
  {
    var s := SlotAt(t.dirs[od], k1);
    var t1 := WithSlot(t, od, k1, Marked(s));
    MarkedOwnsNothing(s);
    RenamedSays(s, short);
    SpliceSlots(t1.dirs[nd], k2, Renamed(s, short), k2);
    var t2 := WithSlot(t1, nd, k2, Renamed(s, short));
    forall d, j: nat | !(d == nd && j == k2)
      ensures HasEntry(t2, d, j) <==> HasEntry(t, d, j) && !(d == od && j == k1)
      ensures HasEntry(t2, d, j) ==> SlotAt(t2.dirs[d], j) == SlotAt(t.dirs[d], j)
    {
      if d == od { SpliceSlots(t.dirs[od], k1, Marked(s), j); }
      if d == nd { SpliceSlots(t1.dirs[nd], k2, Renamed(s, short), j); }
    }
  }

  lemma MovedGood(g: Geometry, d: Disk, od: nat, i1: nat, j1: nat, k1: nat, nd: nat, i2: nat, j2: nat, k2: nat,
                  short: ShortName)
    requires Good(g, d) && Placed(d, od, i1, j1, k1) && Placed(d, nd, i2, j2, k2)
    requires OwnerSlot(d.tree.dirs[od], k1) && Proper(short) && Vacant(d.tree, od, k1, nd, k2)
    ensures Good(g, Moved(d, od, i1, j1, k1, nd, i2, j2, k2, short))
  {
    var s := SlotAt(d.tree.dirs[od], k1);
    MovedFits(g.rootCluster, d.tree, od, k1, nd, k2, short);
    WrittenGood(g, d, od, i1, j1, k1, Marked(s));
    StaysPlaced(d, od, i1, j1, k1, Marked(s), nd, i2, j2, k2);
    WrittenGood(g, Written(d, od, i1, j1, k1, Marked(s)), nd, i2, j2, k2, Renamed(s, short));
  }

  lemma MovedOrphans(root: nat, t: Tree, od: nat, k1: nat, nd: nat, k2: nat, short: ShortName)
    requires t.orphans == {} && od in t.dirs && nd in t.dirs && OwnerSlot(t.dirs[od], k1) &&
             32 * k2 + 32 <= |t.dirs[nd]| && Proper(short)
    requires Vacant(t, od, k1, nd, k2)
    ensures var s := SlotAt(t.dirs[od], k1);
            WithSlot(WithSlot(t, od, k1, Marked(s)), nd, k2, Renamed(s, short)).orphans == {}
  {
    var s := SlotAt(t.dirs[od], k1);
    MarkedOwnsNothing(s);
    RenamedSays(s, short);
    SpliceSlots(t.dirs[od], k1, Marked(s), k2);
  }

  // ------------------------------------------------------ the parent's entry

  /** Slot `j`, of the first sixteen, is the first ".." before the end mark. */
  ghost predicate DotDotAt(content: seq<Byte>, j: nat) {
    && j < 16 && 32 * j + 32 <= |content| && SlotAt(content, j)[..11] == DOT_DOT
    && forall m :: 0 <= m < j ==> SlotAt(content, m)[0] != 0 && SlotAt(content, m)[..11] != DOT_DOT
  }

  /** A directory without ".." is refused. */
  ghost function DotMissing(content: seq<Byte>): Option<Error> {
    if exists m :: DotDotAt(content, m) then None else Some(CorruptDirectory)
  }

  /** `update_dotdot`: the ".." of the directory that begins at `x` names another parent. */
  method UpdateDotDot(v: Volume, x: nat, parent: nat) returns (r: Result<()>, ghost j: nat)
    requires v.Valid() && parent < 0x1_0000_0000
    modifies v
    ensures v.Valid() && v.fat == old(v.fat) && v.info == old(v.info)
    ensures r.Ok? ==>
      && IsAllocatable(v.g, x) && DotDotAt(old(v.data)[x], j)
      && v.data == old(v.data)[x := Splice(old(v.data)[x], 32 * j, Pointed(SlotAt(old(v.data)[x], j), parent))]
    ensures r.Err? ==> v.data == old(v.data)
    ensures if IsAllocatable(v.g, x) then Foretold(DotMissing(old(v.data)[x]), r, exists n :: v.faults(n))
            else r == Err(CorruptChain)
  {
    j := 0;
    if !IsAllocatable(v.g, x) { return Err(CorruptChain), j; }
    var sector := v.ReadSector(x, 0);
    var index := 0;
    while index < 16
      invariant 0 <= index <= 16 && v.data == old(v.data) && v.fat == old(v.fat) && v.info == old(v.info) && v.Valid()
      invariant forall m :: 0 <= m < index ==> SlotAt(v.data[x], m)[0] != 0 && SlotAt(v.data[x], m)[..11] != DOT_DOT
    {
      assert 32 * index + 32 <= |sector|;
      var slot: Slot := sector[32 * index..32 * index + 32];
      SlotInSector(sector, 0, index, v.data[x]);
      if slot[0] == 0 { return Err(CorruptDirectory), j; }
      if slot[0] != DELETED && slot[..11] == DOT_DOT {
        j := index;
        assert DotDotAt(v.data[x], index);
        r := WriteSlot(v, x, index, Pointed(slot, parent));
        return;
      }
      assert slot[0] == DELETED ==> slot[..11][0] != DOT_DOT[0];
      index := index + 1;
    }
    return Err(CorruptDirectory), j;
  }

  lemma GrownKeepsEntries(g: Geometry, t: Tree, dir: nat, res: Reservation)
    requires dir in t.dirs && dir in t.caps && |t.dirs[dir]| % 32 == 0
    ensures SameEntries(t, ReservedTree(g, t, dir, res)) && ReservedTree(g, t, dir, res).orphans == t.orphans
  {
    var t' := ReservedTree(g, t, dir, res);
    forall d, j: nat
      ensures HasEntry(t', d, j) <==> HasEntry(t, d, j)
      ensures HasEntry(t, d, j) ==> SlotAt(t'.dirs[d], j) == SlotAt(t.dirs[d], j)
    {
      ZerosOwnNothing(t.dirs[dir], g.ClusterBytes(), j);
    }
  }

  // --------------------------------------------------------- on the device

  ghost function Put(data: Clusters, c: nat, j: nat, s: Slot): (r: Clusters)
    requires c < |data| && 32 * j + 32 <= |data[c]|
    ensures |r| == |data| && forall e {:trigger r[e]} :: 0 <= e < |data| ==>
              |r[e]| == |data[e]| && (e != c ==> r[e] == data[e])
  {
    data[c := Splice(data[c], 32 * j, s)]
  }

  lemma PutSlot(data: Clusters, c: nat, j: nat, s: Slot, e: nat, m: nat)
    requires c < |data| && 32 * j + 32 <= |data[c]| && e < |data| && 32 * m + 32 <= |data[e]|
    ensures SlotAt(Put(data, c, j, s)[e], m) == if e == c && m == j then s else SlotAt(data[e], m)
  {
    if e == c { SpliceSlots(data[c], j, s, m); }
  }

  lemma SplicesCommute(d: seq<Byte>, j: nat, s: Slot, m: nat, u: Slot)
    requires 32 * j + 32 <= |d| && 32 * m + 32 <= |d| && j != m
    ensures Splice(Splice(d, 32 * j, s), 32 * m, u) == Splice(Splice(d, 32 * m, u), 32 * j, s)
  {
    var left, right := Splice(Splice(d, 32 * j, s), 32 * m, u), Splice(Splice(d, 32 * m, u), 32 * j, s);
    forall i | 0 <= i < |d| ensures left[i] == right[i] {
    }
  }

  lemma PutsCommute(data: Clusters, c: nat, j: nat, s: Slot, e: nat, m: nat, u: Slot)
    requires c < |data| && 32 * j + 32 <= |data[c]| && e < |data| && 32 * m + 32 <= |data[e]| && !(c == e && j == m)
    ensures Put(Put(data, c, j, s), e, m, u) == Put(Put(data, e, m, u), c, j, s)
  {
    if c == e { SplicesCommute(data[c], j, s, m, u); }
  }

  lemma PutTwice(data: Clusters, c: nat, j: nat, s: Slot, u: Slot)
    requires c < |data| && 32 * j + 32 <= |data[c]|
    ensures Put(Put(data, c, j, s), c, j, u) == Put(data, c, j, u)
  {
    var left, right := Splice(Splice(data[c], 32 * j, s), 32 * j, u), Splice(data[c], 32 * j, u);
    forall i | 0 <= i < |left| ensures left[i] == right[i] {
    }
    assert left == right;
  }

  /** The clusters once the entry has its new slot and, of a directory, ".." its new parent. */
  ghost function NewData(data: Clusters, c: nat, j: nat, s: Slot, isDir: bool, x: nat, dot: nat,
                         parent: nat): (r: Clusters)
    requires c < |data| && 32 * j + 32 <= |data[c]| && parent < 0x1_0000_0000 &&
             (isDir ==> x < |data| && 32 * dot + 32 <= |data[x]|)
    ensures |r| == |data| && forall e {:trigger r[e]} :: 0 <= e < |data| ==> |r[e]| == |data[e]|
  {
    var placed := Put(data, c, j, s);
    if isDir then Put(placed, x, dot, Pointed(SlotAt(placed[x], dot), parent)) else placed
  }

  /** The writes of a rename in the order in which they are made, and in the one in which the tree understands them. */
  lemma SameInTheEnd(data: Clusters, oc: nat, oj: nat, nc: nat, nj: nat, s: Slot, isDir: bool, x: nat, dot: nat,
                     parent: nat)
    requires oc < |data| && 32 * oj + 32 <= |data[oc]| && nc < |data| && 32 * nj + 32 <= |data[nc]| &&
             !(oc == nc && oj == nj)
    requires parent < 0x1_0000_0000 && (isDir ==> x < |data| && 32 * dot + 32 <= |data[x]| && !(x == oc && dot == oj) &&
                                                  !(x == nc && dot == nj))
    ensures var u := Marked(SlotAt(data[oc], oj));
            var there := NewData(data, nc, nj, s, isDir, x, dot, parent);
            && SlotAt(there[oc], oj) == SlotAt(data[oc], oj)
            && Put(there, oc, oj, u) == NewData(Put(data, oc, oj, u), nc, nj, s, isDir, x, dot, parent)
  {
    var u := Marked(SlotAt(data[oc], oj));
    var placed := Put(data, nc, nj, s);
    PutSlot(data, nc, nj, s, oc, oj);
    PutsCommute(data, nc, nj, s, oc, oj, u);
    if isDir {
      var dd := Pointed(SlotAt(placed[x], dot), parent);
      PutSlot(placed, x, dot, dd, oc, oj);
      PutsCommute(placed, x, dot, dd, oc, oj, u);
      PutSlot(placed, oc, oj, u, x, dot);
    }
  }

  // ------------------------------------------------- what a move comes to

  lemma FirstSlots(data: Clusters, ch: seq<nat>, j: nat)
    requires InData(data, ch) && ch != [] && 32 * j + 32 <= |data[ch[0]]|
    ensures |Content(data, ch[..0])| == 0 && SlotNumber(data, ch, 0, j) == j && 32 * j + 32 <= |Content(data, ch)|
  {
    assert ch[..0] == [];
    ContentSplit(data, ch, 0);
  }

  lemma FirstPlaced(g: Geometry, d: Disk, x: nat, dot: nat)
    requires Good(g, d) && x in d.tree.dirs && x < |d.data| && 32 * dot + 32 <= |d.data[x]|
    ensures d.chains[x][0] == x && Placed(d, x, 0, dot, dot)
  {
    assert d.chains[x][0] == x;
    FirstSlots(d.data, d.chains[x], dot);
  }

  lemma DotOwnsNothing(s: Slot)
    requires s[..11] == DOT_DOT
    ensures !IsOwner(s) && s[0] == 0x2e
  {
    assert s[..11][0] == s[0] && DOT_DOT[0] == 0x2e;
  }

  /** Another parent in ".." keeps the volume good and every entry as it is. */
  lemma DotGood(g: Geometry, m: Disk, x: nat, dot: nat, parent: nat)
    requires Good(g, m) && Placed(m, x, 0, dot, dot) && SlotAt(m.tree.dirs[x], dot)[..11] == DOT_DOT &&
             parent < 0x1_0000_0000
    ensures var a := Written(m, x, 0, dot, dot, Pointed(SlotAt(m.tree.dirs[x], dot), parent));
            Good(g, a) && SameEntries(m.tree, a.tree) && a.tree.orphans == m.tree.orphans
  {
    var s := SlotAt(m.tree.dirs[x], dot);
    DotOwnsNothing(s);
    PointedIsDot(s, parent);
    WrittenGood(g, m, x, 0, dot, dot, Pointed(s, parent));
    QuietPut(m.tree, x, dot, Pointed(s, parent));
  }

  lemma QuietNames(content: seq<Byte>, k: nat, s: Slot)
    requires 32 * k + 32 <= |content| && UniqueNames(content) && !IsOwner(s)
    ensures UniqueNames(Splice(content, 32 * k, s))
  {
    var c' := Splice(content, 32 * k, s);
    forall j: nat | OwnerSlot(c', j) ensures j != k && OwnerSlot(content, j) && SlotAt(c', j) == SlotAt(content, j) {
      SpliceSlots(content, k, s, j);
    }
  }

  lemma GrownNames(content: seq<Byte>, n: nat)
    requires |content| % 32 == 0 && UniqueNames(content)
    ensures UniqueNames(content + Zeros(n))
  {
    forall j: nat | OwnerSlot(content + Zeros(n), j)
        ensures OwnerSlot(content, j) && SlotAt(content + Zeros(n), j) == SlotAt(content, j) {
      ZerosOwnNothing(content, n, j);
    }
  }

  /** Names stay unique when the new one was absent. */
  lemma MovedNames(t: Tree, od: nat, k1: nat, nd: nat, k2: nat, short: ShortName)
    requires Unambiguous(t) && od in t.dirs && nd in t.dirs && OwnerSlot(t.dirs[od], k1) &&
             32 * k2 + 32 <= |t.dirs[nd]| && Proper(short)
    requires |t.dirs[nd]| % 32 == 0 && Absent(t.dirs[nd], short)
    ensures var s := SlotAt(t.dirs[od], k1); Unambiguous(WithSlot(WithSlot(t, od, k1, Marked(s)), nd, k2,
            Renamed(s, short)))
  {
    var s := SlotAt(t.dirs[od], k1);
    var t' := WithSlot(t, od, k1, Marked(s));
    RenamedSays(s, short);
    MarkedNames(t.dirs[od], k1);
    forall m: nat | 32 * m + 32 <= |t'.dirs[nd]| ensures !LiveNamed(SlotAt(t'.dirs[nd], m), short) {
      SpliceSlots(t.dirs[od], k1, Marked(s), m);
    }
    PutKeepsNames(t'.dirs[nd], 0, k2, Renamed(s, short), short);
    assert t'.dirs[nd] + Zeros(0) == t'.dirs[nd];
  }

  /** The whole move, on a volume in which both places are known. */
  ghost function Rearranged(d: Disk, od: nat, i1: nat, j1: nat, k1: nat, nd: nat, i2: nat, j2: nat, k2: nat,
                            short: ShortName,
                            isDir: bool, x: nat, dot: nat): Disk
    requires Placed(d, od, i1, j1, k1) && Placed(d, nd, i2, j2, k2) && nd < 0x1_0000_0000
  {
    var m := Moved(d, od, i1, j1, k1, nd, i2, j2, k2, short);
    if isDir && Placed(m, x, 0, dot, dot) then Written(m, x, 0, dot, dot, Pointed(SlotAt(m.tree.dirs[x], dot), nd))
        else m
  }

  /** Before the move: the entry in its old place, its new place vacant and its new name free there. */
  ghost predicate Movable(g: Geometry, d: Disk, od: nat, i1: nat, j1: nat, k1: nat, nd: nat, i2: nat, j2: nat, k2: nat,
                          short: ShortName) {
    && Good(g, d) && d.tree.orphans == {} && Unambiguous(d.tree) && Proper(short) && nd < 0x1_0000_0000
    && Placed(d, od, i1, j1, k1) && Placed(d, nd, i2, j2, k2)
    && OwnerSlot(d.tree.dirs[od], k1) && Vacant(d.tree, od, k1, nd, k2) && Absent(d.tree.dirs[nd], short)
  }

  lemma MovedRepresents(g: Geometry, d: Disk, od: nat, i1: nat, j1: nat, k1: nat, nd: nat, i2: nat, j2: nat, k2: nat,
                        short: ShortName)
    requires Movable(g, d, od, i1, j1, k1, nd, i2, j2, k2, short)
    ensures var a := Moved(d, od, i1, j1, k1, nd, i2, j2, k2, short);
            Represents(g, a) && Relabelled(d.tree, a.tree, od, k1, nd, k2, short)
  {
    MovedGood(g, d, od, i1, j1, k1, nd, i2, j2, k2, short);
    MovedOrphans(g.rootCluster, d.tree, od, k1, nd, k2, short);
    MovedNames(d.tree, od, k1, nd, k2, short);
    MovedOwns(d.tree, od, k1, nd, k2, short);
  }

  /** The clusters after `Moved`. */
  lemma MovedData(d: Disk, od: nat, i1: nat, j1: nat, k1: nat, nd: nat, i2: nat, j2: nat, k2: nat, short: ShortName)
    requires Placed(d, od, i1, j1, k1) && Placed(d, nd, i2, j2, k2)
    ensures var s, oc, nc := SlotAt(d.tree.dirs[od], k1), d.chains[od][i1], d.chains[nd][i2];
            var a := Moved(d, od, i1, j1, k1, nd, i2, j2, k2, short);
            a.data == Put(Put(d.data, oc, j1, Marked(s)), nc, j2, Renamed(s, short)) && a.chains == d.chains &&
            a.fat == d.fat
            && a.tree.dirs.Keys == d.tree.dirs.Keys
  {
  }

  /** ".." is neither of the two slots a move writes. */
  lemma DotApart(g: Geometry, d: Disk, od: nat, i1: nat, j1: nat, k1: nat, nd: nat, i2: nat, j2: nat, k2: nat,
                 short: ShortName, x: nat, dot: nat)
    requires Movable(g, d, od, i1, j1, k1, nd, i2, j2, k2, short)
    requires x < |d.data| && 32 * dot + 32 <= |d.data[x]| && SlotAt(d.data[x], dot)[..11] == DOT_DOT
    ensures !(x == d.chains[od][i1] && dot == j1) && !(x == d.chains[nd][i2] && dot == j2)
  {
    PlacedSlot(g, d, od, i1, j1, k1);
    PlacedSlot(g, d, nd, i2, j2, k2);
    DotOwnsNothing(SlotAt(d.data[x], dot));
  }

  lemma DotStays(g: Geometry, d: Disk, od: nat, i1: nat, j1: nat, k1: nat, nd: nat, i2: nat, j2: nat, k2: nat,
                 short: ShortName, x: nat, dot: nat)
    requires Movable(g, d, od, i1, j1, k1, nd, i2, j2, k2, short)
    requires x in d.tree.dirs && x < |d.data| && 32 * dot + 32 <= |d.data[x]| && SlotAt(d.data[x], dot)[..11] == DOT_DOT
    ensures var m := Moved(d, od, i1, j1, k1, nd, i2, j2, k2, short);
            Placed(m, x, 0, dot, dot) && m.chains[x][0] == x && SlotAt(m.tree.dirs[x], dot) == SlotAt(m.data[x], dot) &&
            SlotAt(m.data[x], dot)[..11] == DOT_DOT
  {
    var s, oc, nc := SlotAt(d.tree.dirs[od], k1), d.chains[od][i1], d.chains[nd][i2];
    var m := Moved(d, od, i1, j1, k1, nd, i2, j2, k2, short);
    MovedRepresents(g, d, od, i1, j1, k1, nd, i2, j2, k2, short);
    MovedData(d, od, i1, j1, k1, nd, i2, j2, k2, short);
    DotApart(g, d, od, i1, j1, k1, nd, i2, j2, k2, short, x, dot);
    PutSlot(d.data, oc, j1, Marked(s), x, dot);
    PutSlot(Put(d.data, oc, j1, Marked(s)), nc, j2, Renamed(s, short), x, dot);
    FirstPlaced(g, m, x, dot);
    PlacedSlot(g, m, x, 0, dot, dot);
  }

  lemma DotRepresents(g: Geometry, m: Disk, x: nat, dot: nat, parent: nat)
    requires Represents(g, m) && Placed(m, x, 0, dot, dot) && SlotAt(m.tree.dirs[x], dot)[..11] == DOT_DOT &&
             parent < 0x1_0000_0000
    ensures var a := Written(m, x, 0, dot, dot, Pointed(SlotAt(m.tree.dirs[x], dot), parent));
            Represents(g, a) && SameEntries(m.tree, a.tree)
  {
    DotGood(g, m, x, dot, parent);
    PointedIsDot(SlotAt(m.tree.dirs[x], dot), parent);
    QuietNames(m.tree.dirs[x], dot, Pointed(SlotAt(m.tree.dirs[x], dot), parent));
  }

  /** Everything the tree can tell of a move. */
  lemma RearrangedRepresents(g: Geometry, d: Disk, od: nat, i1: nat, j1: nat, k1: nat, nd: nat, i2: nat, j2: nat,
                             k2: nat, short: ShortName,
                             isDir: bool, x: nat, dot: nat)
    requires Movable(g, d, od, i1, j1, k1, nd, i2, j2, k2, short)
    requires isDir ==>
               x in d.tree.dirs && x < |d.data| && 32 * dot + 32 <= |d.data[x]| &&
               SlotAt(d.data[x], dot)[..11] == DOT_DOT
    ensures var s, oc, nc := SlotAt(d.tree.dirs[od], k1), d.chains[od][i1], d.chains[nd][i2];
            var a := Rearranged(d, od, i1, j1, k1, nd, i2, j2, k2, short, isDir, x, dot);
            && Represents(g, a) && Relabelled(d.tree, a.tree, od, k1, nd, k2, short) && a.chains == d.chains &&
               a.fat == d.fat
            && a.data == NewData(Put(d.data, oc, j1, Marked(s)), nc, j2, Renamed(s, short), isDir, x, dot, nd)
  {
    var m := Moved(d, od, i1, j1, k1, nd, i2, j2, k2, short);
    MovedRepresents(g, d, od, i1, j1, k1, nd, i2, j2, k2, short);
    MovedData(d, od, i1, j1, k1, nd, i2, j2, k2, short);
    if isDir {
      DotStays(g, d, od, i1, j1, k1, nd, i2, j2, k2, short, x, dot);
      DotRepresents(g, m, x, dot, nd);
      RelabelledBetween(d.tree, d.tree, m.tree, Written(m, x, 0, dot, dot,
          Pointed(SlotAt(m.tree.dirs[x], dot), nd)).tree, od, k1, nd, k2, short);
    }
  }

  // -------------------------------------------- into a reserved place

  ghost function Grown(g: Geometry, b: Disk, nd: nat, fat1: Fat, data1: Clusters, res: Reservation): Disk
    requires nd in b.chains && nd in b.tree.dirs && nd in b.tree.caps
  {
    Disk(fat1, data1, ReservedChains(b.chains, nd, res), ReservedTree(g, b.tree, nd, res))
  }

  lemma ReadyPlaced(d: Disk, dir: nat, short: ShortName, res: Reservation, i: nat, k: nat)
    requires dir in d.tree.dirs && dir in d.chains &&
             SlotReady(d.data, d.chains[dir], d.tree.dirs[dir], short, res, i, k)
    ensures Placed(d, dir, i, res.index, k) && d.chains[dir][i] == res.cluster
  {
  }

  /** Growing one directory leaves the slots of the others in place. */
  lemma OldStaysReady(g: Geometry, b: Disk, od: nat, short: ShortName, ro: Reservation, i: nat, k: nat, nd: nat,
                      fat1: Fat, data1: Clusters, p: Plan, res: Reservation)
    requires Good(g, b) && od in b.tree.dirs && nd in b.tree.dirs && od != nd &&
             SlotReady(b.data, b.chains[od], b.tree.dirs[od], short, ro, i, k)
    requires Reserved(g, b.fat, b.data, fat1, data1, p, res)
    ensures SlotReady(data1, b.chains[od], b.tree.dirs[od], short, ro, i, k)
  {
    if p.Extend? {
      FreeOnNoChain(b.fat, g.Limit(), b.chains, res.cluster);
      SlotReadyFrame(b.data, data1, b.chains[od], [res.cluster], b.tree.dirs[od], short, ro, i, k);
    }
  }

  lemma ZerosAbsent(content: seq<Byte>, n: nat, name: ShortName, m: nat)
    requires |content| % 32 == 0 && Absent(content, name) && 32 * m + 32 <= |content| + n
    ensures !LiveNamed(SlotAt(content + Zeros(n), m), name)
  {
    if 32 * m + 32 <= |content| {
      assert SlotAt(content + Zeros(n), m) == SlotAt(content, m);
    } else {
      assert SlotAt(content + Zeros(n), m)[0] == 0;
    }
  }

  lemma GrownTree(g: Geometry, t: Tree, nd: nat, res: Reservation)
    requires Unambiguous(t) && nd in t.dirs && nd in t.caps && |t.dirs[nd]| % 32 == 0
    ensures Unambiguous(ReservedTree(g, t, nd, res)) && ReservedTree(g, t, nd, res).orphans == t.orphans &&
            SameEntries(t, ReservedTree(g, t, nd, res))
    ensures forall name :: Absent(t.dirs[nd], name) && Proper(name) ==>
              Absent(ReservedTree(g, t, nd, res).dirs[nd], name)
  {
    GrownNames(t.dirs[nd], g.ClusterBytes());
    GrownKeepsEntries(g, t, nd, res);
    forall name, m: nat | Absent(t.dirs[nd], name) && Proper(name) &&
        32 * m + 32 <= |ReservedTree(g, t, nd, res).dirs[nd]|
      ensures !LiveNamed(SlotAt(ReservedTree(g, t, nd, res).dirs[nd], m), name)
    {
      ZerosAbsent(t.dirs[nd], g.ClusterBytes(), name, m);
    }
  }

  /** The old place, seen from the grown volume. */
  lemma OldPlace(g: Geometry, b: Disk, od: nat, old': ShortName, at: Located, nd: nat, fat1: Fat, data1: Clusters,
                 p: Plan, res: Reservation)
    returns (i: nat, k: nat)
    requires Good(g, b) && od in b.tree.dirs && nd in b.tree.dirs && od != nd && Proper(old')
    requires LocatedBy(b.data, SlotFor(b.fat, g.Limit(), b.data, od, [], old', None)) == Ok(at)
    requires 2 <= at.cluster < g.Limit() && 32 * at.index + 32 <= |b.data[at.cluster]|
    requires Reserved(g, b.fat, b.data, fat1, data1, p, res)
    ensures var d := Grown(g, b, nd, fat1, data1, res);
            && Placed(d, od, i, at.index, k) && d.chains[od][i] == at.cluster && d.tree.dirs[od] == b.tree.dirs[od]
            && OwnerSlot(d.tree.dirs[od], k) && SlotAt(b.tree.dirs[od], k) == SlotAt(b.data[at.cluster], at.index)
            && DecodeEntry(SlotAt(d.tree.dirs[od], k)) == at.entry
  {
    var ro;
    ro, i, k := LocatedReady(g, b, od, old', at);
    LocatedOwns(g.rootCluster, b.tree, od, b.data, b.chains[od], old', ro, i, k);
    OldStaysReady(g, b, od, old', ro, i, k, nd, fat1, data1, p, res);
    ReadyPlaced(Grown(g, b, nd, fat1, data1, res), od, old', ro, i, k);
  }

  /** The new place. */
  lemma NewPlace(g: Geometry, b: Disk, nd: nat, new': ShortName, fat1: Fat, data1: Clusters, p: Plan, res: Reservation)
    returns (i: nat, k: nat)
    requires Good(g, b) && nd in b.tree.dirs && p == SlotFor(b.fat, g.Limit(), b.data, nd, [], new', None)
    requires Reserved(g, b.fat, b.data, fat1, data1, p, res) && res.existing.None?
    ensures var d := Grown(g, b, nd, fat1, data1, res);
            && Good(g, d) && Placed(d, nd, i, res.index, k) && d.chains[nd][i] == res.cluster
            && SlotAt(d.tree.dirs[nd], k)[0] in {0, DELETED} &&
               (forall m :: 0 <= m < k ==> SlotAt(d.tree.dirs[nd], m)[0] != 0)
    ensures Absent(b.tree.dirs[nd], new')
  {
    i, k := ReserveMove(g, b.fat, b.data, fat1, data1, b.chains, b.tree, nd, new', p, res);
    ReservedAligned(g, b.fat, b.data, p, res, fat1, data1);
    ReadyPlaced(Grown(g, b, nd, fat1, data1, res), nd, new', res, i, k);
    SearchAgreesWithLookup(b.fat, g.Limit(), b.data, nd, [], new', None);
    FindNothing(g, b, nd, new');
  }

  // ------------------------------------------------------ files are kept

  ghost predicate IsFile(d: Disk, h: nat) { h in d.chains && h !in d.tree.dirs }

  ghost predicate SameChain(b: Disk, a: Disk, h: nat)
    requires h in b.chains
  {
    && h in a.chains && a.chains[h] == b.chains[h] && InData(b.data, b.chains[h]) && InData(a.data, b.chains[h])
    && Content(a.data, b.chains[h]) == Content(b.data, b.chains[h])
  }

  /** Every file's chain is untouched, to the byte. */
  ghost predicate FilesKept(b: Disk, a: Disk) {
    forall h {:trigger IsFile(b, h)} :: IsFile(b, h) ==> SameChain(b, a, h)
  }

  /** No file has the cluster. */
  ghost predicate OffFiles(b: Disk, c: nat) {
    forall h {:trigger IsFile(b, h)} :: IsFile(b, h) ==> c !in b.chains[h]
  }

  lemma DirectoryOffFiles(g: Geometry, b: Disk, d: nat, i: nat)
    requires Good(g, b) && d in b.tree.dirs && i < |b.chains[d]|
    ensures OffFiles(b, b.chains[d][i])
  {
    assert b.chains[d][i] in b.chains[d];
  }

  lemma FreeOffFiles(g: Geometry, b: Disk, c: nat)
    requires Good(g, b) && c < |b.fat| && b.fat[c] == 0
    ensures OffFiles(b, c)
  {
    FreeOnNoChain(b.fat, g.Limit(), b.chains, c);
  }

  lemma FilesOutside(g: Geometry, b: Disk, a: Disk, touched: seq<nat>)
    requires Good(g, b) && OnlyClusters(b.data, a.data, touched) && forall c :: c in touched ==> OffFiles(b, c)
    requires forall h {:trigger IsFile(b, h)} :: IsFile(b, h) ==> h in a.chains && a.chains[h] == b.chains[h]
    ensures FilesKept(b, a)
  {
    forall h | IsFile(b, h) ensures SameChain(b, a, h) {
      assert b.chains[h] == b.chains[h] && InData(b.data, b.chains[h]);
      SameOutside(b.data, a.data, b.chains[h], touched);
    }
  }

  /** The new slot is not where ".." is. */
  lemma DotWasThere(data: Clusters, c: nat, j: nat, s: Slot, short: ShortName, x: nat, dot: nat)
    requires c < |data| && 32 * j + 32 <= |data[c]| && x < |data| && 32 * dot + 32 <= |data[x]| && Proper(short)
    requires SlotAt(Put(data, c, j, Renamed(s, short))[x], dot)[..11] == DOT_DOT
    ensures SlotAt(data[x], dot)[..11] == DOT_DOT
  {
    PutSlot(data, c, j, Renamed(s, short), x, dot);
    DotOwnsNothing(SlotAt(Put(data, c, j, Renamed(s, short))[x], dot));
    assert Renamed(s, short)[..11] == short && short[0] == Renamed(s, short)[0];
  }

  /** The writes of a move in a volume whose new slot is reserved: the entry under its new name, the new parent in the
      ".." of a directory, and the mark over the old slot. */
  ghost predicate MoveWrites(data1: Clusters, data': Clusters, s: Slot, at: Located, res: Reservation, new': ShortName,
                             dot: nat, nd: nat) {
    var x, isDir := at.entry.firstCluster, IsDirectory(at.entry.attributes);
    && res.cluster < |data1| && 32 * res.index + 32 <= |data1[res.cluster]| && at.cluster < |data1| &&
       32 * at.index + 32 <= |data1[at.cluster]|
    && nd < 0x1_0000_0000
    && (isDir ==>
       x < |data1| && 32 * dot + 32 <= |data1[x]| &&
       SlotAt(Put(data1, res.cluster, res.index, Renamed(s, new'))[x], dot)[..11] == DOT_DOT)
    && var there := NewData(data1, res.cluster, res.index, Renamed(s, new'), isDir, x, dot, nd);
       data' == Put(there, at.cluster, at.index, Marked(SlotAt(there[at.cluster], at.index)))
  }

  ghost predicate DotNames(data: Clusters, x: nat, j: nat, parent: nat) {
    x < |data| && 32 * j + 32 <= |data[x]| && SlotAt(data[x], j)[..11] == DOT_DOT &&
    ClusterField(SlotAt(data[x], j)) == parent
  }

  /** A ".." of the directory names that parent. */
  ghost predicate Parented(data: Clusters, x: nat, parent: nat) {
    exists j: nat :: DotNames(data, x, j, parent)
  }

  lemma NewParented(data: Clusters, c: nat, j: nat, s: Slot, x: nat, dot: nat, parent: nat)
    requires c < |data| && 32 * j + 32 <= |data[c]| && parent < 0x1_0000_0000 && x < |data| &&
             32 * dot + 32 <= |data[x]|
    requires SlotAt(Put(data, c, j, s)[x], dot)[..11] == DOT_DOT
    ensures Parented(NewData(data, c, j, s, true, x, dot, parent), x, parent)
  {
    var placed := Put(data, c, j, s);
    PutSlot(placed, x, dot, Pointed(SlotAt(placed[x], dot), parent), x, dot);
    assert DotNames(NewData(data, c, j, s, true, x, dot, parent), x, dot, parent);
  }

  lemma MovedParent(d: Disk, at: Located, res: Reservation, s: Slot, x: nat, dot: nat, nd: nat)
    requires at.cluster < |d.data| && 32 * at.index + 32 <= |d.data[at.cluster]| && res.cluster < |d.data| &&
             32 * res.index + 32 <= |d.data[res.cluster]|
    requires nd < 0x1_0000_0000 && x < |d.data| && 32 * dot + 32 <= |d.data[x]| &&
             SlotAt(d.data[x], dot)[..11] == DOT_DOT
    requires !(x == at.cluster && dot == at.index) && !(x == res.cluster && dot == res.index)
    ensures Parented(NewData(Put(d.data, at.cluster, at.index, Marked(SlotAt(d.data[at.cluster], at.index))),
            res.cluster, res.index, s, true, x, dot, nd), x, nd)
  {
    var marked := Put(d.data, at.cluster, at.index, Marked(SlotAt(d.data[at.cluster], at.index)));
    PutSlot(d.data, at.cluster, at.index, Marked(SlotAt(d.data[at.cluster], at.index)), x, dot);
    PutSlot(marked, res.cluster, res.index, s, x, dot);
    NewParented(marked, res.cluster, res.index, s, x, dot, nd);
  }

  lemma PlacesApart(g: Geometry, d: Disk, od: nat, i1: nat, j1: nat, k1: nat, nd: nat, i2: nat, j2: nat, k2: nat,
                    short: ShortName)
    requires Movable(g, d, od, i1, j1, k1, nd, i2, j2, k2, short) && od != nd
    ensures d.chains[od][i1] != d.chains[nd][i2]
  {
    assert d.chains[od][i1] in d.chains[od] && d.chains[nd][i2] in d.chains[nd];
  }

  lemma MoveFrom(g: Geometry, d: Disk, od: nat, i1: nat, at: Located, k1: nat, nd: nat, i2: nat, k2: nat,
                 new': ShortName, data': Clusters, res: Reservation, dot: nat)
    returns (a: Disk)
    requires Movable(g, d, od, i1, at.index, k1, nd, i2, res.index, k2, new') && od != nd
    requires d.chains[od][i1] == at.cluster && d.chains[nd][i2] == res.cluster &&
             SlotAt(d.tree.dirs[od], k1) == SlotAt(d.data[at.cluster], at.index)
    requires DecodeEntry(SlotAt(d.tree.dirs[od], k1)) == at.entry
    requires MoveWrites(d.data, data', SlotAt(d.data[at.cluster], at.index), at, res, new', dot, nd)
    requires IsDirectory(at.entry.attributes) ==>
               at.entry.firstCluster in d.tree.dirs && SlotAt(d.data[at.entry.firstCluster], dot)[..11] == DOT_DOT
    ensures Represents(g, a) && Relabelled(d.tree, a.tree, od, k1, nd, k2, new')
    ensures a.data == data' && a.fat == d.fat && a.chains == d.chains
    ensures IsDirectory(at.entry.attributes) ==> Parented(data', at.entry.firstCluster, nd)
  {
    var s, x, isDir := SlotAt(d.data[at.cluster], at.index), at.entry.firstCluster, IsDirectory(at.entry.attributes);
    RearrangedRepresents(g, d, od, i1, at.index, k1, nd, i2, res.index, k2, new', isDir, x, dot);
    a := Rearranged(d, od, i1, at.index, k1, nd, i2, res.index, k2, new', isDir, x, dot);
    PlacesApart(g, d, od, i1, at.index, k1, nd, i2, res.index, k2, new');
    if isDir { DotApart(g, d, od, i1, at.index, k1, nd, i2, res.index, k2, new', x, dot); }
    SameInTheEnd(d.data, at.cluster, at.index, res.cluster, res.index, Renamed(s, new'), isDir, x, dot, nd);
    if isDir { MovedParent(d, at, res, Renamed(s, new'), x, dot, nd); }
  }

  /** What such a move comes to. */
  lemma MoveTheorem(g: Geometry, b: Disk, od: nat, old': ShortName, at: Located, nd: nat, new': ShortName,
                    fat1: Fat, data1: Clusters, data': Clusters, p: Plan, res: Reservation, dot: nat)
    returns (a: Disk, k1: nat, k2: nat)
    requires Represents(g, b) && od in b.tree.dirs && nd in b.tree.dirs && od != nd && Proper(old') && Proper(new')
    requires LocatedBy(b.data, SlotFor(b.fat, g.Limit(), b.data, od, [], old', None)) == Ok(at)
    requires 2 <= at.cluster < g.Limit() && 32 * at.index + 32 <= |b.data[at.cluster]|
    requires p == SlotFor(b.fat, g.Limit(), b.data, nd, [], new', None) &&
             Reserved(g, b.fat, b.data, fat1, data1, p, res) && res.existing.None?
    requires MoveWrites(data1, data', SlotAt(b.data[at.cluster], at.index), at, res, new', dot, nd)
    ensures a.fat == fat1 && a.data == data' && a.chains == ReservedChains(b.chains, nd, res)
    ensures Represents(g, a) && Relabelled(b.tree, a.tree, od, k1, nd, k2, new')
    ensures SlotAt(b.tree.dirs[od], k1) == SlotAt(b.data[at.cluster], at.index)
    ensures IsDirectory(at.entry.attributes) <==> at.entry.firstCluster in b.tree.dirs
    ensures IsDirectory(at.entry.attributes) ==> Parented(data', at.entry.firstCluster, nd)
  {
    var s, x, isDir := SlotAt(b.data[at.cluster], at.index), at.entry.firstCluster, IsDirectory(at.entry.attributes);
    var i1, i2;
    i1, k1 := OldPlace(g, b, od, old', at, nd, fat1, data1, p, res);
    i2, k2 := NewPlace(g, b, nd, new', fat1, data1, p, res);
    var d := Grown(g, b, nd, fat1, data1, res);
    GrownTree(g, b.tree, nd, res);
    assert SlotSound(g.rootCluster, b.tree, SlotAt(b.tree.dirs[od], k1));
    assert Movable(g, d, od, i1, at.index, k1, nd, i2, res.index, k2, new');
    PlacedSlot(g, d, od, i1, at.index, k1);
    if isDir { DotWasThere(data1, res.cluster, res.index, s, new', x, dot); }
    a := MoveFrom(g, d, od, i1, at, k1, nd, i2, k2, new', data', res, dot);
    RelabelledBetween(b.tree, d.tree, a.tree, a.tree, od, k1, nd, k2, new');
  }

  // --------------------------------------------------- within a directory

  /** No slot of that name was found, so none is there. */
  lemma NotLocatedIsAbsent(g: Geometry, b: Disk, dir: nat, name: ShortName)
    requires Good(g, b) && dir in b.tree.dirs && LocatedBy(b.data,
             SlotFor(b.fat, g.Limit(), b.data, dir, [], name, None)) == Err(NotFound)
    ensures Absent(b.tree.dirs[dir], name)
  {
    SearchAgreesWithLookup(b.fat, g.Limit(), b.data, dir, [], name, None);
    FindNothing(g, b, dir, name);
  }

  lemma InPlacePlaced(g: Geometry, b: Disk, dir: nat, old': ShortName, at: Located, new': ShortName)
    returns (i: nat, k: nat)
    requires Represents(g, b) && dir in b.tree.dirs && Proper(old') && Proper(new') && dir < 0x1_0000_0000
    requires LocatedBy(b.data, SlotFor(b.fat, g.Limit(), b.data, dir, [], old', None)) == Ok(at)
    requires 2 <= at.cluster < g.Limit() && 32 * at.index + 32 <= |b.data[at.cluster]| && Absent(b.tree.dirs[dir], new')
    ensures Movable(g, b, dir, i, at.index, k, dir, i, at.index, k, new') && b.chains[dir][i] == at.cluster
    ensures SlotAt(b.tree.dirs[dir], k) == SlotAt(b.data[at.cluster], at.index) &&
            DecodeEntry(SlotAt(b.tree.dirs[dir], k)) == at.entry
  {
    var ro;
    ro, i, k := LocatedReady(g, b, dir, old', at);
    LocatedOwns(g.rootCluster, b.tree, dir, b.data, b.chains[dir], old', ro, i, k);
    ReadyPlaced(b, dir, old', ro, i, k);
  }

  /** Another name in the same slot. */
  lemma InPlaceTheorem(g: Geometry, b: Disk, dir: nat, old': ShortName, at: Located, new': ShortName)
    returns (a: Disk, k: nat)
    requires Represents(g, b) && dir in b.tree.dirs && Proper(old') && Proper(new') && dir < 0x1_0000_0000
    requires LocatedBy(b.data, SlotFor(b.fat, g.Limit(), b.data, dir, [], old', None)) == Ok(at)
    requires 2 <= at.cluster < g.Limit() && 32 * at.index + 32 <= |b.data[at.cluster]| && Absent(b.tree.dirs[dir], new')
    ensures a.fat == b.fat && a.data == Put(b.data, at.cluster, at.index,
            Renamed(SlotAt(b.data[at.cluster], at.index), new')) && a.chains == b.chains
    ensures Represents(g, a) && Relabelled(b.tree, a.tree, dir, k, dir, k, new') && FilesKept(b, a)
    ensures SlotAt(b.tree.dirs[dir], k) == SlotAt(b.data[at.cluster], at.index)
  {
    var i;
    i, k := InPlacePlaced(g, b, dir, old', at, new');
    a := Moved(b, dir, i, at.index, k, dir, i, at.index, k, new');
    MovedRepresents(g, b, dir, i, at.index, k, dir, i, at.index, k, new');
    MovedData(b, dir, i, at.index, k, dir, i, at.index, k, new');
    var s := SlotAt(b.data[at.cluster], at.index);
    PutTwice(b.data, at.cluster, at.index, Marked(s), Renamed(s, new'));
    DirectoryOffFiles(g, b, dir, i);
    FilesOutside(g, b, a, [at.cluster]);
  }
}
