/** What making a path needs: exactly when it succeeds on a device that accepts every write. */
module FatNeeds {
  import opened Bytes
  import opened FatChain
  import opened FatVolume
  import opened FatAlloc
  import opened FatFile
  import opened FatDirectory
  import opened FatTree
  import opened FatCreate
  import opened FatOutcome
  import opened FatLookups
  import opened FatMkdir
  import opened FatResolve

  // -------------------------------------------------------- fresh directories

  /** Two dot slots, then the end mark. */
  ghost predicate FreshContent(content: seq<Byte>) {
    |content| >= 96 && SlotAt(content, 0)[0] == 0x2e && SlotAt(content, 1)[0] == 0x2e && SlotAt(content, 2)[0] == 0
  }

  /** A directory of one cluster in which nothing has been made yet. */
  ghost predicate FreshDir(g: Geometry, d: Disk, dir: nat)
    requires g.Limit() <= |d.fat| && |d.data| == g.Limit()
  {
    2 <= dir < g.Limit() && LinkOf(d.fat, g.Limit(), dir) == End && FreshContent(d.data[dir])
  }

  lemma FreshScan(content: seq<Byte>, short: ShortName)
    requires FreshContent(content) && Proper(short)
    ensures ScanFor(content, short, 0) == EndAt(2) && FirstDeleted(content, 0, 2) == None
  {
    var s0, s1 := SlotAt(content, 0), SlotAt(content, 1);
    assert s0[..11][0] == 0x2e && s1[..11][0] == 0x2e;
    assert ScanFor(content, short, 2) == EndAt(2);
    assert ScanFor(content, short, 1) == EndAt(2);
    assert FirstDeleted(content, 2, 2) == None;
    assert FirstDeleted(content, 1, 2) == None;
  }

  /** In a fresh directory no name is found and every name has the third slot. */
  lemma FreshPlan(g: Geometry, d: Disk, dir: nat, short: ShortName)
    requires g.Limit() <= |d.fat| && |d.data| == g.Limit() && FreshDir(g, d, dir) && Proper(short)
    ensures SlotFor(d.fat, g.Limit(), d.data, dir, [], short, None) == Vacant(dir, 2)
    ensures Find(g, d, dir, short) == Err(NotFound)
  {
    FreshScan(d.data[dir], short);
  }

  /** A chain with the content of one cluster is one cluster long. */
  lemma OneCluster(g: Geometry, data: Clusters, ch: seq<nat>)
    requires InData(data, ch) && g.ClusterBytes() > 0 && |Content(data, ch)| == g.ClusterBytes()
    requires forall i {:trigger ch[i]} :: 0 <= i < |ch| ==> |data[ch[i]]| == g.ClusterBytes()
    ensures |ch| == 1 && Content(data, ch) == data[ch[0]]
  {
    ContentLength(data, ch, g.ClusterBytes());
    if |ch| >= 2 { BlocksApart(1, |ch|, g.ClusterBytes()); }
    assert ch[..0] == [];
  }

  lemma DotIsFresh(g: Geometry, made: nat, parent: nat)
    requires made < 0x1_0000_0000 && parent < 0x1_0000_0000 && g.sectorsPerCluster >= 1
    ensures FreshContent(DotContent(g, made, parent)) && |DotContent(g, made, parent)| == g.ClusterBytes() > 0
  {
    DotSlots(g, made, parent, 0);
    DotSlots(g, made, parent, 1);
    DotSlots(g, made, parent, 2);
  }

  lemma HeldFresh(g: Geometry, d: Disk, ch: seq<nat>)
    requires g.Limit() <= |d.fat| && |d.data| == g.Limit() && IsChain(d.fat, g.Limit(), ch) && InData(d.data, ch)
    requires FreshContent(Content(d.data, ch)) && |Content(d.data, ch)| == g.ClusterBytes() > 0
    requires forall c :: 2 <= c < |d.data| ==> |d.data[c]| == g.ClusterBytes()
    ensures FreshDir(g, d, ch[0])
  {
    OneCluster(g, d.data, ch);
  }

  lemma MadeContent(b: Tree, a: Tree, dir: nat, k: nat, s: Slot, made: nat, content: seq<Byte>)
    requires OneSlot(b, a, dir, k, s, AddedDirs(made, content, true))
    ensures made in a.dirs && a.dirs[made] == content
  {
    assert made in AddedDirs(made, content, true);
  }

  lemma GoodDirectory(g: Geometry, d: Disk, dir: nat)
    requires Good(g, d) && dir in d.tree.dirs
    ensures dir in d.chains && IsChain(d.fat, g.Limit(), d.chains[dir]) && d.chains[dir][0] == dir
    ensures InData(d.data, d.chains[dir]) && Content(d.data, d.chains[dir]) == d.tree.dirs[dir]
  {
  }

  /** A directory just made is fresh. */
  lemma MadeFresh(g: Geometry, b: Disk, a: Disk, parent: nat, short: ShortName, made: nat, k: nat)
    requires g.Limit() <= |b.fat| && |b.data| == g.Limit() && made < 0x1_0000_0000 && parent < 0x1_0000_0000 &&
             g.sectorsPerCluster >= 1
    requires Created(g, b, a, parent, short, DotContent(g, made, parent), made, true, k)
    requires forall c :: 2 <= c < |a.data| ==> |a.data[c]| == g.ClusterBytes()
    ensures FreshDir(g, a, made)
  {
    MadeContent(b.tree, a.tree, parent, k, NewSlot(short, made, |DotContent(g, made, parent)|, true), made,
        DotContent(g, made, parent));
    GoodDirectory(g, a, made);
    DotIsFresh(g, made, parent);
    HeldFresh(g, a, a.chains[made]);
  }

  // ------------------------------------------------------------ what is needed

  /** How making a path ends: it stops with an error, it leads to a directory that was there,
      or it leads to a new one with so many clusters left. */
  datatype Making = Stops(error: Error) | Stays(dir: nat) | Makes(free: nat)

  /** The rest of a path, below a fresh directory, with `free` clusters left. */
  ghost function FreshOutcome(names: seq<seq<Byte>>, free: nat): Making {
    if names == [] then Makes(free)
    else if !Counts(names[0]) then FreshOutcome(names[1..], free)
    else if EncodeShortName(names[0]).None? then Stops(NameTooLong)
    else if free == 0 then Stops(NoSpace) else FreshOutcome(names[1..], free - 1)
  }

  /** The clusters left once a name has been made in `dir`. */
  ghost function Left(g: Geometry, d: Disk, dir: nat, short: ShortName): nat
    requires g.Limit() <= |d.fat| && |d.data| == g.Limit()
  {
    var free, need := CountFree(d.fat, g.Limit()), if SlotFor(d.fat, g.Limit(), d.data, dir, [], short, None).Extend?
        then 2 else 1;
    if free < need then 0 else free - need
  }

  /** A path from `dir` on: what is there is followed, then what is missing is made. */
  ghost function MakeOutcome(g: Geometry, d: Disk, dir: nat, names: seq<seq<Byte>>, wrongKind: Error): Making
    requires g.Limit() <= |d.fat| && |d.data| == g.Limit()
    decreases |names|
  {
    if names == [] then Stays(dir)
    else if !Counts(names[0]) then MakeOutcome(g, d, dir, names[1..], wrongKind)
    else if EncodeShortName(names[0]).None? then Stops(NameTooLong)
    else
      var short := EncodeShortName(names[0]).value;
      match Find(g, d, dir, short)
      case Ok(e) => if LeadsOn(Ok(e)) then MakeOutcome(g, d, e.firstCluster, names[1..], wrongKind)
          else Stops(wrongKind)
      case Err(e) =>
        if e != NotFound then Stops(e)
        else if MakeRefusal(g, d.fat, d.data, dir, short).Some?
            then Stops(MakeRefusal(g, d.fat, d.data, dir, short).value)
        else FreshOutcome(names[1..], Left(g, d, dir, short))
  }

  /** What is still to come, from where the walk stands: it is either still among what was there, or in a fresh
      directory. */
  ghost predicate Due(g: Geometry, b: Disk, m: Disk, dir: nat, rest: seq<seq<Byte>>, wrongKind: Error, expected: Making)
    requires g.Limit() <= |b.fat| && |b.data| == g.Limit() && g.Limit() <= |m.fat| && |m.data| == g.Limit()
  {
    || (m == b && expected == MakeOutcome(g, b, dir, rest, wrongKind))
    || (FreshDir(g, m, dir) && expected == FreshOutcome(rest, CountFree(m.fat, g.Limit())))
  }

  /** One component: followed, or made. */
  ghost predicate Stepped(g: Geometry, m: Disk, a: Disk, dir: nat, name: seq<Byte>, wrongKind: Error, r: Result<nat>,
                          faulty: bool)
    requires g.Limit() <= |m.fat| && |m.data| == g.Limit() && g.Limit() <= |a.fat| && |a.data| == g.Limit()
  {
    if EncodeShortName(name).None? || Find(g, m, dir, EncodeShortName(name).value) != Err(NotFound)
    then a == m && r == Into(g, m, dir, name, wrongKind)
    else
      var short := EncodeShortName(name).value;
      if r.Ok? then
        MakeRefusal(g, m.fat, m.data, dir, short).None? && FreshDir(g, a, r.value) &&
        CountFree(a.fat, g.Limit()) == Left(g, m, dir, short)
      else MakeRefusal(g, m.fat, m.data, dir, short) == Some(r.error) || (r == Err(Block) && faulty)
  }

  /** A missing component, once it has been made or refused. */
  lemma MissingStepped(g: Geometry, m: Disk, a: Disk, dir: nat, name: seq<Byte>, wrongKind: Error, r: Result<nat>,
                       faulty: bool)
    requires g.Limit() <= |m.fat| && |m.data| == g.Limit() && g.Limit() <= |a.fat| && |a.data| == g.Limit()
    requires EncodeShortName(name).Some? && Find(g, m, dir, EncodeShortName(name).value) == Err(NotFound)
    requires Foretold(MakeRefusal(g, m.fat, m.data, dir, EncodeShortName(name).value), r, faulty)
    requires r.Ok? ==>
               FreshDir(g, a, r.value) && CountFree(a.fat, g.Limit()) == Left(g, m, dir, EncodeShortName(name).value)
    ensures Stepped(g, m, a, dir, name, wrongKind, r, faulty)
  {
  }

  lemma MadeLeft(g: Geometry, m: Disk, a: Disk, dir: nat, short: ShortName)
    requires g.Limit() <= |m.fat| && |m.data| == g.Limit() && g.Limit() <= |a.fat|
    requires var p := SlotFor(m.fat, g.Limit(), m.data, dir, [], short, None);
             CountFree(m.fat, g.Limit()) == CountFree(a.fat, g.Limit()) + 1 + (if p.Extend? then 1 else 0)
    ensures CountFree(a.fat, g.Limit()) == Left(g, m, dir, short)
  {
  }

  /** From where the path is still there... */
  lemma FoundStep(g: Geometry, m: Disk, a: Disk, dir: nat, rest: seq<seq<Byte>>, wrongKind: Error, r: Result<nat>,
                  faulty: bool)
    requires g.Limit() <= |m.fat| && |m.data| == g.Limit() && g.Limit() <= |a.fat| && |a.data| == g.Limit()
    requires rest != [] && Counts(rest[0]) && Stepped(g, m, a, dir, rest[0], wrongKind, r, faulty)
    ensures r.Ok? ==> Due(g, m, a, r.value, rest[1..], wrongKind, MakeOutcome(g, m, dir, rest, wrongKind))
    ensures r.Err? ==> MakeOutcome(g, m, dir, rest, wrongKind) == Stops(r.error) || (r == Err(Block) && faulty)
  {
  }

  /** ... and from a fresh directory. */
  lemma FreshStep(g: Geometry, m: Disk, a: Disk, dir: nat, rest: seq<seq<Byte>>, wrongKind: Error, r: Result<nat>,
                  faulty: bool)
    requires g.Limit() <= |m.fat| && |m.data| == g.Limit() && g.Limit() <= |a.fat| && |a.data| == g.Limit()
    requires rest != [] && Counts(rest[0]) && Stepped(g, m, a, dir, rest[0], wrongKind, r, faulty) &&
             FreshDir(g, m, dir)
    ensures r.Ok? ==> FreshDir(g, a, r.value)
    ensures r.Ok? ==>
              FreshOutcome(rest, CountFree(m.fat, g.Limit())) == FreshOutcome(rest[1..], CountFree(a.fat, g.Limit()))
    ensures r.Err? ==> FreshOutcome(rest, CountFree(m.fat, g.Limit())) == Stops(r.error) || (r == Err(Block) && faulty)
  {
    if EncodeShortName(rest[0]).Some? { FreshPlan(g, m, dir, EncodeShortName(rest[0]).value); }
  }

  lemma DueStep(g: Geometry, b: Disk, m: Disk, a: Disk, dir: nat, rest: seq<seq<Byte>>, wrongKind: Error,
                expected: Making, r: Result<nat>, faulty: bool)
    requires g.Limit() <= |b.fat| && |b.data| == g.Limit() && g.Limit() <= |m.fat| && |m.data| == g.Limit() &&
             g.Limit() <= |a.fat| && |a.data| == g.Limit()
    requires rest != [] && Counts(rest[0]) && Due(g, b, m, dir, rest, wrongKind, expected) &&
             Stepped(g, m, a, dir, rest[0], wrongKind, r, faulty)
    ensures r.Ok? ==> Due(g, b, a, r.value, rest[1..], wrongKind, expected)
    ensures r.Err? ==> expected == Stops(r.error) || (r == Err(Block) && faulty)
  {
    if m == b && expected == MakeOutcome(g, b, dir, rest, wrongKind) {
      FoundStep(g, m, a, dir, rest, wrongKind, r, faulty);
    } else {
      FreshStep(g, m, a, dir, rest, wrongKind, r, faulty);
    }
  }

  lemma DueSkip(g: Geometry, b: Disk, m: Disk, dir: nat, rest: seq<seq<Byte>>, wrongKind: Error, expected: Making)
    requires g.Limit() <= |b.fat| && |b.data| == g.Limit() && g.Limit() <= |m.fat| && |m.data| == g.Limit()
    requires rest != [] && !Counts(rest[0]) && Due(g, b, m, dir, rest, wrongKind, expected)
    ensures Due(g, b, m, dir, rest[1..], wrongKind, expected)
  {
  }

  // ------------------------------------------------------------ the last step

  /** Why a file cannot be created where making its path has ended. */
  ghost function StoreRefusal(g: Geometry, b: Disk, end: Making, short: ShortName, size: nat): Option<Error>
    requires g.Limit() <= |b.fat| && |b.data| == g.Limit() && g.ClusterBytes() > 0
  {
    match end
    case Stops(e) => Some(e)
    case Stays(dir) => if size > MAX_FILE_SIZE then Some(NoSpace) else CreateRefusal(g, b.fat, b.data, dir, short, size)
    case Makes(free) => if size > MAX_FILE_SIZE || free < Needed(g, size) then Some(NoSpace) else None
  }

  /** In a fresh directory only space can be missing. */
  lemma FreshRefusal(g: Geometry, m: Disk, dir: nat, short: ShortName, size: nat)
    requires g.Limit() <= |m.fat| && |m.data| == g.Limit() && g.ClusterBytes() > 0 && FreshDir(g, m, dir) &&
             Proper(short)
    ensures CreateRefusal(g, m.fat, m.data, dir, short, size) == if CountFree(m.fat, g.Limit()) < Needed(g, size)
            then Some(NoSpace) else None
  {
    FreshPlan(g, m, dir, short);
  }

  /** Where the walk ended, the refusal is the one foretold. */
  lemma DueRefusal(g: Geometry, b: Disk, m: Disk, dir: nat, wrongKind: Error, end: Making, short: ShortName, size: nat)
    requires g.Limit() <= |b.fat| && |b.data| == g.Limit() && g.Limit() <= |m.fat| && |m.data| == g.Limit() &&
             g.ClusterBytes() > 0
    requires Due(g, b, m, dir, [], wrongKind, end) && Proper(short) && size <= MAX_FILE_SIZE
    ensures StoreRefusal(g, b, end, short, size) == CreateRefusal(g, m.fat, m.data, dir, short, size)
  {
    if FreshDir(g, m, dir) { FreshRefusal(g, m, dir, short, size); }
  }
}
