/** Path operations and whole runs of them. */
module FatPaths {
  import opened Bytes
  import opened FatChain
  import opened FatVolume
  import opened FatAlloc
  import opened FatFile
  import opened FatDirectory
  import opened FatTree
  import opened FatSpace
  import opened FatPlan
  import opened FatReserve
  import opened FatCreate
  import opened FatOutcome
  import opened FatLookups
  import opened FatFiles
  import opened FatMkdir
  import opened FatResolve
  import opened FatNeeds
  import opened FatDelete
  import opened FatReach

  lemma {:induction false} SignificantGrows(parts: seq<seq<Byte>>, i: nat)
    requires i <= |parts|
    ensures |Significant(parts[..i])| <= |Significant(parts)|
  {
    if i == |parts| {
      assert parts[..i] == parts;
    } else {
      assert parts[..|parts| - 1][..i] == parts[..i];
      SignificantGrows(parts[..|parts| - 1], i);
    }
  }

  /** The components that count: empty ones and "." are skipped, ".." and too many are refused. */
  method Components(parts: seq<seq<Byte>>) returns (r: Result<seq<seq<Byte>>>)
    ensures r == if PARENT in parts || Significant(parts) == [] || |Significant(parts)| > MAX_COMPONENTS
            then Err(NameTooLong) else Ok(Significant(parts))
  {
    var kept: seq<seq<Byte>> := [];
    for i := 0 to |parts|
      invariant PARENT !in parts[..i] && kept == Significant(parts[..i]) && |kept| <= MAX_COMPONENTS
    {
      assert parts[..i + 1][..i] == parts[..i];
      if Counts(parts[i]) {
        if parts[i] == PARENT || |kept| == MAX_COMPONENTS {
          SignificantGrows(parts, i + 1);
          return Err(NameTooLong);
        }
        kept := kept + [parts[i]];
      }
    }
    assert parts[..|parts|] == parts;
    if kept == [] { return Err(NameTooLong); }
    return Ok(kept);
  }

  /** The volume represents a tree in which `c` is a directory. */
  ghost predicate IsDir(g: Geometry, d: Disk, c: nat) {
    Represents(g, d) && c in d.tree.dirs
  }

  /** What making directories keeps: every directory, and, while no directory outgrows
      what lookups read, every path. */
  ghost predicate Kept(g: Geometry, b: Disk, a: Disk)
    requires g.Limit() <= |b.fat| && |b.data| == g.Limit() && g.Limit() <= |a.fat| && |a.data| == g.Limit()
  {
    (forall d :: d in b.tree.dirs ==> d in a.tree.dirs) && (Readable(a) ==> Readable(b) && KeepsPaths(g, b, a))
  }

  lemma KeptTransitive(g: Geometry, b: Disk, m: Disk, a: Disk)
    requires g.Limit() <= |b.fat| && |b.data| == g.Limit() && g.Limit() <= |m.fat| && |m.data| == g.Limit() &&
             g.Limit() <= |a.fat| && |a.data| == g.Limit()
    requires Kept(g, b, m) && Kept(g, m, a)
    ensures Kept(g, b, a)
  {
    if Readable(a) { PathsTransitive(g, b, m, a); }
  }

  lemma MadeRooted(g: Geometry, b: Disk, a: Disk, dir: nat, short: ShortName, made: nat, k: nat)
    requires Good(g, b) && Proper(short) && 2 <= made < 0x1_0000_0000 && dir < 0x1_0000_0000
    requires Created(g, b, a, dir, short, DotContent(g, made, dir), made, true, k)
    ensures Rooted(g.rootCluster, b.tree) ==> Rooted(g.rootCluster, a.tree)
  {
    DotContentEmpty(g, made, dir);
    CreatedRooted(g, b, a, dir, short, DotContent(g, made, dir), made, true, k);
  }

  /** A component made anew leads to the new directory. */
  lemma MadeLeads(g: Geometry, b: Disk, a: Disk, dir: nat, name: seq<Byte>, made: nat, k: nat, wrongKind: Error)
    requires IsDir(g, b, dir) && EncodeShortName(name).Some? && Counts(name) &&
             !LeadsOn(Find(g, b, dir, EncodeShortName(name).value))
    requires made < 0x1_0000_0000 && dir < 0x1_0000_0000 && Represents(g, a)
    requires Created(g, b, a, dir, EncodeShortName(name).value, DotContent(g, made, dir), made, true, k)
    requires LookupsAfter(g, b, a, dir, EncodeShortName(name).value,
             NewEntry(EncodeShortName(name).value, made, 0, true), Hidden(g, b, dir, EncodeShortName(name).value))
    requires made >= 2
    ensures Kept(g, b, a) && (Readable(a) ==> Into(g, a, dir, name, wrongKind) == Ok(made))
  {
    if Readable(a) {
      var short := EncodeShortName(name).value;
      CreatedReadable(g, b, a, dir, short, DotContent(g, made, dir), made, true, k);
      CreatedResolves(g, b, a, dir, short, NewEntry(short, made, 0, true));
      EntryLeads(g, a, dir, name, made, wrongKind);
    }
  }

  /** A failed step leaves every path as it was. */
  lemma RestoredKept(g: Geometry, b: Disk, a: Disk)
    requires Represents(g, b) && Restored(g.Limit(), b.fat, b.data, a.fat, a.data) && Aligned(a.data) &&
             a.chains == b.chains && a.tree == b.tree
    ensures Represents(g, a) && Kept(g, b, a)
  {
    RestoredRepresents(g, b, a.fat, a.data);
    assert a == Disk(a.fat, a.data, b.chains, b.tree);
    RestoredPaths(g, b, a);
  }

  // ---------------------------------------------------------------- walking

  /** Look one component up; `missing` when the name is absent. */
  method LookDirectory(v: Volume, dir: nat, name: seq<Byte>, wrongKind: Error, ghost b: Disk)
    returns (r: Result<nat>, missing: bool)
    requires v.Valid() && b.fat == v.fat && b.data == v.data && Counts(name)
    ensures r == Into(v.g, b, dir, name, wrongKind)
    ensures missing <==> EncodeShortName(name).Some? && Find(v.g, b, dir, EncodeShortName(name).value) == Err(NotFound)
  {
    var encoded := EncodeShortName(name);
    if encoded.None? { return Err(NameTooLong), false; }
    var found := FindInDirectory(v, dir, encoded.value);
    missing := found == Err(NotFound);
    if found.Err? {
      r := Err(found.error);
    } else if IsDirectory(found.value.attributes) && found.value.firstCluster >= 2 {
      r := Ok(found.value.firstCluster);
    } else {
      r := Err(wrongKind);
    }
  }

  /** From `dir` the component leads to `made`, unless directories are too long to be read. */
  ghost predicate Leads(g: Geometry, a: Disk, dir: nat, name: seq<Byte>, wrongKind: Error, made: nat)
    requires g.Limit() <= |a.fat| && |a.data| == g.Limit()
  {
    made in a.tree.dirs && (Readable(a) ==> Into(g, a, dir, name, wrongKind) == Ok(made))
  }

  /** Make a missing component. */
  method MakeComponent(v: Volume, dir: nat, name: seq<Byte>, wrongKind: Error, ghost b: Disk)
    returns (r: Result<nat>, ghost a: Disk)
    requires v.Valid() && b.fat == v.fat && b.data == v.data && Counts(name)
    requires EncodeShortName(name).Some? && Find(v.g, b, dir, EncodeShortName(name).value) == Err(NotFound)
    modifies v
    ensures v.Valid() && a.fat == v.fat && a.data == v.data
    ensures CountMatches(v.g, old(v.info), old(v.fat)) ==> CountMatches(v.g, v.info, v.fat)
    ensures IsDir(v.g, b, dir) ==>
              Represents(v.g, a) && Kept(v.g, b, a) && (r.Ok? ==> Leads(v.g, a, dir, name, wrongKind, r.value))
    ensures IsDir(v.g, b, dir) ==> Stepped(v.g, b, a, dir, name, wrongKind, r, exists n :: v.faults(n))
    ensures IsDir(v.g, b, dir) && Rooted(v.g.rootCluster, b.tree) ==> Rooted(v.g.rootCluster, a.tree)
  {
    ghost var made, k;
    r, a, made, k := MakeDirectory(v, dir, name, b);
    if IsDir(v.g, b, dir) {
      if r.Err? {
        VolumeAligned(v);
        RestoredKept(v.g, b, a);
      } else {
        MadeLeads(v.g, b, a, dir, name, r.value, k, wrongKind);
        MadeRooted(v.g, b, a, dir, EncodeShortName(name).value, r.value, k);
        MadeFresh(v.g, b, a, dir, EncodeShortName(name).value, r.value, k);
        MadeLeft(v.g, b, a, dir, EncodeShortName(name).value);
      }
      MissingStepped(v.g, b, a, dir, name, wrongKind, r, exists n :: v.faults(n));
    }
  }

  /** One component of a path: descend, or make the directory when it is missing. */
  method Descend(v: Volume, dir: nat, name: seq<Byte>, wrongKind: Error, ghost b: Disk)
    returns (r: Result<nat>, ghost a: Disk)
    requires v.Valid() && b.fat == v.fat && b.data == v.data && Counts(name)
    modifies v
    ensures v.Valid() && a.fat == v.fat && a.data == v.data
    ensures CountMatches(v.g, old(v.info), old(v.fat)) ==> CountMatches(v.g, v.info, v.fat)
    ensures IsDir(v.g, b, dir) ==>
              Represents(v.g, a) && Kept(v.g, b, a) && (r.Ok? ==> Leads(v.g, a, dir, name, wrongKind, r.value))
    ensures IsDir(v.g, b, dir) ==> Stepped(v.g, b, a, dir, name, wrongKind, r, exists n :: v.faults(n))
    ensures IsDir(v.g, b, dir) && Rooted(v.g.rootCluster, b.tree) ==> Rooted(v.g.rootCluster, a.tree)
  {
    a := b;
    var missing;
    r, missing := LookDirectory(v, dir, name, wrongKind, b);
    if missing {
      r, a := MakeComponent(v, dir, name, wrongKind, b);
    } else if IsDir(v.g, b, dir) {
      if r.Ok? { IntoIsDirectory(v.g, b, dir, name, wrongKind); }
    }
  }

  /** `dir` is where the components lead, unless directories are too long to be read. */
  ghost predicate Walked(g: Geometry, a: Disk, names: seq<seq<Byte>>, wrongKind: Error, dir: nat)
    requires g.Limit() <= |a.fat| && |a.data| == g.Limit()
  {
    dir in a.tree.dirs && (Readable(a) ==> Resolve(g, a, names, wrongKind) == Ok(dir))
  }

  /** One component further. */
  lemma WalkedOn(g: Geometry, m: Disk, a: Disk, names: seq<seq<Byte>>, i: nat, wrongKind: Error, dir: nat, next: nat)
    requires Represents(g, m) && g.Limit() <= |a.fat| && |a.data| == g.Limit()
    requires i < |names| && Walked(g, m, names[..i], wrongKind, dir) && Kept(g, m, a) &&
             Leads(g, a, dir, names[i], wrongKind, next)
    ensures Walked(g, a, names[..i + 1], wrongKind, next)
  {
    if Readable(a) {
      ResolveStays(g, m, a, names[..i], wrongKind);
      ResolveNext(g, a, names, i, wrongKind, dir);
    }
  }

  ghost predicate RootedKept(g: Geometry, b: Disk, a: Disk) {
    Rooted(g.rootCluster, b.tree) ==> Rooted(g.rootCluster, a.tree)
  }

  /** A component that does not count leads nowhere else. */
  lemma SkipNext(g: Geometry, a: Disk, names: seq<seq<Byte>>, i: nat, wrongKind: Error, dir: nat)
    requires g.Limit() <= |a.fat| && |a.data| == g.Limit() && i < |names| && !Counts(names[i])
    ensures Walked(g, a, names[..i], wrongKind, dir) ==> Walked(g, a, names[..i + 1], wrongKind, dir)
  {
    if Walked(g, a, names[..i], wrongKind, dir) && Readable(a) { ResolveNext(g, a, names, i, wrongKind, dir); }
  }

  /** A component that counts. */
  method StepDown(v: Volume, names: seq<seq<Byte>>, i: nat, dir: nat, wrongKind: Error, ghost sound: bool,
                  ghost b: Disk, ghost m: Disk, ghost end: Making)
    returns (r: Result<nat>, ghost a: Disk)
    requires v.Valid() && m.fat == v.fat && m.data == v.data && i < |names| && Counts(names[i])
    requires v.g.Limit() <= |b.fat| && |b.data| == v.g.Limit()
    requires sound ==> Represents(v.g, m) && Kept(v.g, b, m) && Walked(v.g, m, names[..i], wrongKind, dir)
    requires sound ==> Due(v.g, b, m, dir, names[i..], wrongKind, end) && RootedKept(v.g, b, m)
    modifies v
    ensures v.Valid() && a.fat == v.fat && a.data == v.data
    ensures CountMatches(v.g, old(v.info), old(v.fat)) ==> CountMatches(v.g, v.info, v.fat)
    ensures sound ==>
              Represents(v.g, a) && Kept(v.g, b, a) && (r.Ok? ==> Walked(v.g, a, names[..i + 1], wrongKind, r.value))
    ensures sound ==> if r.Ok? then Due(v.g, b, a, r.value, names[i + 1..], wrongKind, end)
                      else end == Stops(r.error) || (r == Err(Block) && exists n :: v.faults(n))
    ensures sound ==> RootedKept(v.g, b, a)
  {
    r, a := Descend(v, dir, names[i], wrongKind, m);
    if sound {
      assert names[i..][1..] == names[i + 1..];
      KeptTransitive(v.g, b, m, a);
      if r.Ok? { WalkedOn(v.g, m, a, names, i, wrongKind, dir, r.value); }
      DueStep(v.g, b, m, a, dir, names[i..], wrongKind, end, r, exists n :: v.faults(n));
    }
  }

  /** One component of a longer path; `sound`: the walk started on a volume that represents a tree. */
  method MakeStep(v: Volume, names: seq<seq<Byte>>, i: nat, dir: nat, wrongKind: Error, ghost sound: bool,
                  ghost b: Disk, ghost m: Disk, ghost end: Making)
    returns (r: Result<nat>, ghost a: Disk)
    requires v.Valid() && m.fat == v.fat && m.data == v.data && i < |names| && v.g.Limit() <= |b.fat| &&
             |b.data| == v.g.Limit()
    requires sound ==> Represents(v.g, m) && Kept(v.g, b, m) && Walked(v.g, m, names[..i], wrongKind, dir)
    requires sound ==> Due(v.g, b, m, dir, names[i..], wrongKind, end) && RootedKept(v.g, b, m)
    modifies v
    ensures v.Valid() && a.fat == v.fat && a.data == v.data
    ensures CountMatches(v.g, old(v.info), old(v.fat)) ==> CountMatches(v.g, v.info, v.fat)
    ensures sound ==>
              Represents(v.g, a) && Kept(v.g, b, a) && (r.Ok? ==> Walked(v.g, a, names[..i + 1], wrongKind, r.value))
    ensures sound ==> if r.Ok? then Due(v.g, b, a, r.value, names[i + 1..], wrongKind, end)
                      else end == Stops(r.error) || (r == Err(Block) && exists n :: v.faults(n))
    ensures sound ==> RootedKept(v.g, b, a)
  {
    if Counts(names[i]) {
      r, a := StepDown(v, names, i, dir, wrongKind, sound, b, m, end);
    } else {
      a, r := m, Ok(dir);
      assert names[i..][1..] == names[i + 1..];
      SkipNext(v.g, m, names, i, wrongKind, dir);
      if sound { DueSkip(v.g, b, m, dir, names[i..], wrongKind, end); }
    }
  }

  /** The loop of the walk: where it stopped, and how it stands there. */
  method WalkLoop(v: Volume, names: seq<seq<Byte>>, wrongKind: Error, ghost sound: bool, ghost b: Disk,
                  ghost end: Making)
    returns (r: Result<nat>, i: nat, ghost a: Disk)
    requires v.Valid() && b.fat == v.fat && b.data == v.data
    requires sound ==> Represents(v.g, b) && Kept(v.g, b, b) && Walked(v.g, b, names[..0], wrongKind, v.g.rootCluster)
    requires sound ==> Due(v.g, b, b, v.g.rootCluster, names[0..], wrongKind, end)
    modifies v
    ensures v.Valid() && a.fat == v.fat && a.data == v.data && i <= |names| && (r.Ok? ==> i == |names|)
    ensures CountMatches(v.g, old(v.info), old(v.fat)) ==> CountMatches(v.g, v.info, v.fat)
    ensures sound ==>
              Represents(v.g, a) && Kept(v.g, b, a) && (r.Ok? ==> Walked(v.g, a, names[..i], wrongKind, r.value))
    ensures sound ==> if r.Ok? then Due(v.g, b, a, r.value, names[i..], wrongKind, end)
                      else end == Stops(r.error) || (r == Err(Block) && exists n :: v.faults(n))
    ensures sound ==> RootedKept(v.g, b, a)
  {
    a, r, i := b, Ok(v.g.rootCluster), 0;
    while i < |names| && r.Ok?
      invariant 0 <= i <= |names| && v.Valid() && a.fat == v.fat && a.data == v.data
      invariant CountMatches(v.g, old(v.info), old(v.fat)) ==> CountMatches(v.g, v.info, v.fat)
      invariant sound ==>
                  Represents(v.g, a) && Kept(v.g, b, a) && (r.Ok? ==> Walked(v.g, a, names[..i], wrongKind, r.value))
      invariant sound ==> if r.Ok? then Due(v.g, b, a, r.value, names[i..], wrongKind, end)
                          else end == Stops(r.error) || (r == Err(Block) && exists n :: v.faults(n))
      invariant sound ==> RootedKept(v.g, b, a)
    {
      r, a := MakeStep(v, names, i, r.value, wrongKind, sound, b, a, end);
      i := i + 1;
    }
  }

  /** The walk ends as the volume it started on foretells, unless the device refuses a write. */
  ghost predicate WalkEnds(g: Geometry, b: Disk, a: Disk, names: seq<seq<Byte>>, wrongKind: Error, r: Result<nat>,
                           faulty: bool)
    requires g.Limit() <= |b.fat| && |b.data| == g.Limit() && g.Limit() <= |a.fat| && |a.data| == g.Limit()
  {
    var end := MakeOutcome(g, b, g.rootCluster, names, wrongKind);
    if r.Ok? then Due(g, b, a, r.value, [], wrongKind, end) else end == Stops(r.error) || (r == Err(Block) && faulty)
  }

  /** Walk down `names`, skipping empty ones and ".", and make the missing directories. */
  method MakeWalk(v: Volume, names: seq<seq<Byte>>, wrongKind: Error, ghost sound: bool, ghost b: Disk)
    returns (r: Result<nat>, ghost a: Disk)
    requires v.Valid() && b.fat == v.fat && b.data == v.data && (sound ==> Represents(v.g, b))
    modifies v
    ensures v.Valid() && a.fat == v.fat && a.data == v.data
    ensures CountMatches(v.g, old(v.info), old(v.fat)) ==> CountMatches(v.g, v.info, v.fat)
    ensures sound ==> Represents(v.g, a) && Kept(v.g, b, a) && (r.Ok? ==> Walked(v.g, a, names, wrongKind, r.value))
    ensures sound ==> WalkEnds(v.g, b, a, names, wrongKind, r, exists n :: v.faults(n))
    ensures sound ==> RootedKept(v.g, b, a)
  {
    assert names[0..] == names;
    var i;
    r, i, a := WalkLoop(v, names, wrongKind, sound, b, MakeOutcome(v.g, b, v.g.rootCluster, names, wrongKind));
    assert r.Ok? ==> names[..i] == names && names[i..] == [];
  }

  ghost function Stop(end: Making): Option<Error> {
    if end.Stops? then Some(end.error) else None
  }

  lemma WalkForetold(g: Geometry, b: Disk, a: Disk, names: seq<seq<Byte>>, wrongKind: Error, r: Result<nat>,
                     faulty: bool)
    requires g.Limit() <= |b.fat| && |b.data| == g.Limit() && g.Limit() <= |a.fat| && |a.data| == g.Limit()
    requires WalkEnds(g, b, a, names, wrongKind, r, faulty)
    ensures Foretold(Stop(MakeOutcome(g, b, g.rootCluster, names, wrongKind)), r, faulty)
  {
  }

  /** The same walk when nothing may be made: on any volume it answers what the path means. */
  method FindPath(v: Volume, names: seq<seq<Byte>>, wrongKind: Error, ghost b: Disk) returns (r: Result<nat>)
    requires v.Valid() && b.fat == v.fat && b.data == v.data
    ensures r == Resolve(v.g, b, names, wrongKind)
  {
    r := Ok(v.g.rootCluster);
    var i := 0;
    while i < |names| && r.Ok?
      invariant 0 <= i <= |names| && Resolve(v.g, b, names[..i], wrongKind) == r
    {
      ResolveNext(v.g, b, names, i, wrongKind, r.value);
      if Counts(names[i]) {
        var missing;
        r, missing := LookDirectory(v, r.value, names[i], wrongKind, b);
      }
      i := i + 1;
    }
    if r.Err? { ResolveFails(v.g, b, names, i, wrongKind, r.error); }
    assert i == |names| ==> names[..i] == names;
  }

  // -------------------------------------------------------- path operations

  /** `mkdir_path`, on the components of the path: afterwards the path resolves. It fails exactly when
      the volume foretells it, or when the device refuses a write. */
  method MkdirPath(v: Volume, parts: seq<seq<Byte>>, ghost b: Disk)
    returns (r: Result<()>, ghost a: Disk, ghost dir: nat)
    requires v.Valid() && b.fat == v.fat && b.data == v.data
    modifies v
    ensures v.Valid() && a.fat == v.fat && a.data == v.data
    ensures CountMatches(v.g, old(v.info), old(v.fat)) ==> CountMatches(v.g, v.info, v.fat)
    ensures Represents(v.g, b) ==>
              Represents(v.g, a) && Kept(v.g, b, a) && (r.Ok? ==> Walked(v.g, a, parts, WriteFailed, dir))
    ensures Represents(v.g, b) && Rooted(v.g.rootCluster, b.tree) ==> Rooted(v.g.rootCluster, a.tree)
    ensures Represents(v.g, b) ==>
              Foretold(Stop(MakeOutcome(v.g, b, v.g.rootCluster, parts, WriteFailed)), r, exists n :: v.faults(n))
  {
    var at;
    at, a := MakeWalk(v, parts, WriteFailed, Represents(v.g, b), b);
    if Represents(v.g, b) { WalkForetold(v.g, b, a, parts, WriteFailed, at, exists n :: v.faults(n)); }
    dir := if at.Ok? then at.value else 0;
    r := if at.Ok? then Ok(()) else Err(at.error);
  }

  /** The path without its last component. */
  ghost function Above(parts: seq<seq<Byte>>): seq<seq<Byte>> {
    var names := Significant(parts);
    if names == [] then [] else names[..|names| - 1]
  }

  function Leaf(parts: seq<seq<Byte>>): seq<Byte> {
    var names := Significant(parts);
    if names == [] then [] else names[|names| - 1]
  }

  /** A path that can name an entry of a directory. */
  ghost predicate Nameable(parts: seq<seq<Byte>>) {
    PARENT !in parts && Significant(parts) != [] && |Significant(parts)| <= MAX_COMPONENTS &&
    EncodeShortName(Leaf(parts)).Some?
  }

  /** The leaf of a path, after the checks of `resolve_parent_cluster` on its components. */
  method SplitLeaf(parts: seq<seq<Byte>>) returns (r: Result<(seq<seq<Byte>>, seq<Byte>)>)
    ensures r == if Nameable(parts) then Ok((Above(parts), Leaf(parts))) else Err(NameTooLong)
  {
    var names := Components(parts);
    if names.Err? { return Err(names.error); }
    var leaf := names.value[|names.value| - 1];
    if EncodeShortName(leaf).None? { return Err(NameTooLong); }
    return Ok((names.value[..|names.value| - 1], leaf));
  }

  /** Why a file cannot be created by path, in the order in which it is found out. */
  ghost function PathRefusal(g: Geometry, b: Disk, parts: seq<seq<Byte>>, size: nat): Option<Error>
    requires g.Limit() <= |b.fat| && |b.data| == g.Limit() && g.ClusterBytes() > 0
  {
    if !Nameable(parts) then Some(NameTooLong)
    else StoreRefusal(g, b, MakeOutcome(g, b, g.rootCluster, Above(parts), NotFound),
        EncodeShortName(Leaf(parts)).value, size)
  }

  /** The file is there, to the byte, and the path leads to it. */
  ghost predicate FileAt(g: Geometry, m: Disk, a: Disk, parts: seq<seq<Byte>>, bytes: seq<Byte>, dir: nat, first: nat,
                         k: nat) {
    && Nameable(parts) && IsDir(g, m, dir)
    && var short := EncodeShortName(Leaf(parts)).value;
       && Created(g, m, a, dir, short, bytes, first, false, k)
       && (Readable(a) ==>
          Resolve(g, a, Above(parts), NotFound) == Ok(dir) &&
          Find(g, a, dir, short) == Ok(NewEntry(short, first, |bytes|, false)))
  }

  lemma FileRooted(g: Geometry, m: Disk, a: Disk, parts: seq<seq<Byte>>, bytes: seq<Byte>, dir: nat, first: nat, k: nat)
    requires FileAt(g, m, a, parts, bytes, dir, first, k)
    ensures Rooted(g.rootCluster, m.tree) ==> Rooted(g.rootCluster, a.tree)
  {
    CreatedRooted(g, m, a, dir, EncodeShortName(Leaf(parts)).value, bytes, first, false, k);
  }

  lemma NotADirectory(g: Geometry, m: Disk, dir: nat, short: ShortName, size: nat)
    requires g.Limit() <= |m.fat| && |m.data| == g.Limit() && g.ClusterBytes() > 0 &&
             CreateRefusal(g, m.fat, m.data, dir, short, size).None?
    ensures !LeadsOn(Find(g, m, dir, short))
  {
    SearchAgreesWithLookup(m.fat, g.Limit(), m.data, dir, [], short, None);
  }

  lemma FileFound(g: Geometry, b: Disk, m: Disk, a: Disk, parts: seq<seq<Byte>>, bytes: seq<Byte>, dir: nat, first: nat,
                  k: nat)
    requires g.Limit() <= |b.fat| && |b.data| == g.Limit() && Represents(g, m) && Represents(g, a)
    requires Nameable(parts) && Walked(g, m, Above(parts), NotFound, dir)
    requires Created(g, m, a, dir, EncodeShortName(Leaf(parts)).value, bytes, first, false, k)
    requires LookupsAfter(g, m, a, dir, EncodeShortName(Leaf(parts)).value,
             NewEntry(EncodeShortName(Leaf(parts)).value, first, |bytes|, false),
                          Hidden(g, m, dir, EncodeShortName(Leaf(parts)).value))
    requires !LeadsOn(Find(g, m, dir, EncodeShortName(Leaf(parts)).value))
    ensures FileAt(g, m, a, parts, bytes, dir, first, k)
  {
    if Readable(a) {
      var short := EncodeShortName(Leaf(parts)).value;
      CreatedReadable(g, m, a, dir, short, bytes, first, false, k);
      CreatedResolves(g, m, a, dir, short, NewEntry(short, first, |bytes|, false));
      ResolveStays(g, m, a, Above(parts), NotFound);
    }
  }

  /** The last step of `create_path_file`. */
  method StoreAt(v: Volume, ghost parts: seq<seq<Byte>>, dir: nat, leaf: seq<Byte>, bytes: seq<Byte>, ghost b: Disk,
                 ghost m: Disk, ghost end: Making)
    returns (r: Result<()>, ghost a: Disk, ghost first: nat, ghost k: nat)
    requires v.Valid() && m.fat == v.fat && m.data == v.data && v.g.Limit() <= |b.fat| && |b.data| == v.g.Limit()
    requires Nameable(parts) && leaf == Leaf(parts) &&
             (Represents(v.g, b) ==> Represents(v.g, m) && Walked(v.g, m, Above(parts), NotFound, dir))
    requires Represents(v.g, b) ==> Due(v.g, b, m, dir, [], NotFound, end)
    modifies v
    ensures v.Valid() && a.fat == v.fat && a.data == v.data
    ensures CountMatches(v.g, old(v.info), old(v.fat)) ==> CountMatches(v.g, v.info, v.fat)
    ensures Represents(v.g, b) ==> Represents(v.g, a) && (r.Err? ==> a.chains == m.chains && a.tree == m.tree)
    ensures Represents(v.g, b) && r.Ok? ==> FileAt(v.g, m, a, parts, bytes, dir, first, k)
    ensures Represents(v.g, b) ==>
              Foretold(StoreRefusal(v.g, b, end, EncodeShortName(leaf).value, |bytes|), r, exists n :: v.faults(n))
  {
    if Represents(v.g, b) && |bytes| <= MAX_FILE_SIZE {
      DueRefusal(v.g, b, m, dir, NotFound, end, EncodeShortName(leaf).value, |bytes|);
    }
    r, a, first, k := CreateFile(v, dir, leaf, bytes, m);
    if r.Ok? && Represents(v.g, b) {
      NotADirectory(v.g, m, dir, EncodeShortName(leaf).value, |bytes|);
      FileFound(v.g, b, m, a, parts, bytes, dir, first, k);
    }
  }

  /** `create_path_file`: parents are made first and stay, whatever happens to the
      file; the file itself is created in one step or not at all. Afterwards the path
      leads to the new entry, unless directories are too long to be read. It fails exactly when
      the volume foretells it, or when the device refuses a write. */
  method CreatePath(v: Volume, parts: seq<seq<Byte>>, bytes: seq<Byte>, ghost b: Disk)
    returns (r: Result<()>, ghost m: Disk, ghost a: Disk, ghost dir: nat, ghost first: nat, ghost k: nat)
    requires v.Valid() && b.fat == v.fat && b.data == v.data
    modifies v
    ensures v.Valid() && a.fat == v.fat && a.data == v.data
    ensures CountMatches(v.g, old(v.info), old(v.fat)) ==> CountMatches(v.g, v.info, v.fat)
    ensures !Nameable(parts) ==> r == Err(NameTooLong) && v.fat == old(v.fat) && v.data == old(v.data)
    ensures Represents(v.g, b) ==>
              Represents(v.g, m) && Kept(v.g, b, m) && Represents(v.g, a) &&
              (r.Err? ==> a.chains == m.chains && a.tree == m.tree)
    ensures Represents(v.g, b) && r.Ok? ==> FileAt(v.g, m, a, parts, bytes, dir, first, k)
    ensures Represents(v.g, b) && Rooted(v.g.rootCluster, b.tree) ==> Rooted(v.g.rootCluster, a.tree)
    ensures Represents(v.g, b) ==> Foretold(PathRefusal(v.g, b, parts, |bytes|), r, exists n :: v.faults(n))
  {
    m, a, dir, first, k := b, b, 0, 0, 0;
    var split := SplitLeaf(parts);
    if split.Err? { return Err(split.error), m, a, dir, first, k; }
    var parent;
    parent, m := MakeWalk(v, split.value.0, NotFound, Represents(v.g, b), b);
    a := m;
    if parent.Err? { return Err(parent.error), m, a, dir, first, k; }
    dir := parent.value;
    ghost var end := MakeOutcome(v.g, b, v.g.rootCluster, Above(parts), NotFound);
    r, a, first, k := StoreAt(v, parts, parent.value, split.value.1, bytes, b, m, end);
    if r.Ok? && Represents(v.g, b) { FileRooted(v.g, m, a, parts, bytes, dir, first, k); }
  }

  /** Why a path cannot be deleted, in the order in which it is found out. */
  ghost function DeletePathRefusal(g: Geometry, b: Disk, parts: seq<seq<Byte>>): Option<Error>
    requires g.Limit() <= |b.fat| && |b.data| == g.Limit()
  {
    if forall i :: 0 <= i < |parts| ==> parts[i] == [] then Some(InvalidPath)
    else if !Nameable(parts) then Some(NameTooLong)
    else
      match Resolve(g, b, Above(parts), NotFound)
      case Err(e) => Some(e)
      case Ok(dir) => DeleteRefusal(b.fat, g.Limit(), b.data, dir, EncodeShortName(Leaf(parts)).value)
  }

  /** The first entry of that name, its chain and nothing else. */
  ghost predicate EntryGone(g: Geometry, b: Disk, a: Disk, parts: seq<seq<Byte>>, dir: nat, gone: set<nat>, k: nat)
    requires g.Limit() <= |b.fat| && |b.data| == g.Limit() && g.Limit() <= |a.fat| && |a.data| == g.Limit()
  {
    && Nameable(parts) && IsDir(g, b, dir) && EntryDeleted(g, b, a, dir, k, gone)
    && var short := EncodeShortName(Leaf(parts)).value;
       IsFirst(b.tree.dirs[dir], short, k) && LookupsAfterDelete(g, b, a, dir, short, gone)
  }

  lemma GoneRooted(g: Geometry, b: Disk, a: Disk, parts: seq<seq<Byte>>, dir: nat, gone: set<nat>, k: nat)
    requires g.Limit() <= |b.fat| && |b.data| == g.Limit() && g.Limit() <= |a.fat| && |a.data| == g.Limit()
    requires EntryGone(g, b, a, parts, dir, gone, k) && Rooted(g.rootCluster, b.tree)
    ensures Rooted(g.rootCluster, a.tree)
  {
    DeletedRooted(g.rootCluster, b.tree, a.tree, dir, k, gone);
  }

  /** `delete_path`: exactly the entry the path leads to goes; on any volume it fails exactly when the volume foretells
      it, or when the device refuses a write. */
  method DeletePath(v: Volume, parts: seq<seq<Byte>>, ghost b: Disk)
    returns (r: Result<()>, ghost a: Disk, ghost dir: nat, ghost gone: set<nat>, ghost k: nat)
    requires v.Valid() && b.fat == v.fat && b.data == v.data
    modifies v
    ensures v.Valid() && a.fat == v.fat && a.data == v.data
    ensures CountMatches(v.g, old(v.info), old(v.fat)) ==> CountMatches(v.g, v.info, v.fat)
    ensures r.Err? ==> v.fat == old(v.fat) && v.data == old(v.data) && a == b
    ensures Foretold(DeletePathRefusal(v.g, b, parts), r, exists n :: v.faults(n))
    ensures (forall i :: 0 <= i < |parts| ==> parts[i] == []) ==> r == Err(InvalidPath)
    ensures r.Ok? ==> Nameable(parts) && Resolve(v.g, b, Above(parts), NotFound) == Ok(dir)
    ensures Nameable(parts) && Resolve(v.g, b, Above(parts), NotFound).Err? ==>
              r == Err(InvalidPath) || r == Err(Resolve(v.g, b, Above(parts), NotFound).error)
    ensures Represents(v.g, b) ==> Represents(v.g, a)
    ensures Represents(v.g, b) && r.Ok? ==> EntryGone(v.g, b, a, parts, dir, gone, k)
    ensures Represents(v.g, b) && Rooted(v.g.rootCluster, b.tree) ==> Rooted(v.g.rootCluster, a.tree)
  {
    a, dir, gone, k := b, 0, {}, 0;
    if forall i :: 0 <= i < |parts| ==> parts[i] == [] { return Err(InvalidPath), a, dir, gone, k; }
    var split := SplitLeaf(parts);
    if split.Err? { return Err(split.error), a, dir, gone, k; }
    var parent := FindPath(v, split.value.0, NotFound, b);
    if parent.Err? { return Err(parent.error), a, dir, gone, k; }
    dir := parent.value;
    if Represents(v.g, b) { ResolvesToDirectory(v.g, b, Above(parts), NotFound); }
    r, a, gone, k := DeleteEntry(v, parent.value, split.value.1, b);
    if Represents(v.g, b) && r.Ok? && Rooted(v.g.rootCluster, b.tree) { GoneRooted(v.g, b, a, parts, dir, gone, k); }
  }

  // ------------------------------------------------------------- whole runs

  datatype Op = Mkdir(parts: seq<seq<Byte>>) | Create(parts: seq<seq<Byte>>,
      bytes: seq<Byte>) | Delete(parts: seq<seq<Byte>>)

  method Perform(v: Volume, op: Op, ghost b: Disk) returns (r: Result<()>, ghost a: Disk)
    requires v.Valid() && b.fat == v.fat && b.data == v.data
    modifies v
    ensures v.Valid() && a.fat == v.fat && a.data == v.data
    ensures CountMatches(v.g, old(v.info), old(v.fat)) ==> CountMatches(v.g, v.info, v.fat)
    ensures Represents(v.g, b) ==>
              Represents(v.g, a) && (Rooted(v.g.rootCluster, b.tree) ==> Rooted(v.g.rootCluster, a.tree))
  {
    match op {
      case Mkdir(parts) =>
        ghost var dir;
        r, a, dir := MkdirPath(v, parts, b);
      case Create(parts, bytes) =>
        ghost var m, dir, first, k;
        r, m, a, dir, first, k := CreatePath(v, parts, bytes, b);
      case Delete(parts) =>
        ghost var dir, gone, k;
        r, a, dir, gone, k := DeletePath(v, parts, b);
    }
  }

  /** Every run of path operations, successful or failing, on any device, leaves
      a volume that represents a directory tree: proper, disjoint chains, no lost
      cluster, every chain owned by one slot, no name twice, every directory below
      the root if it started so; with an exact FSInfo
      count when it started exact, mirrored FATs when they started mirrored, and
      the reserved nibbles of every FAT word untouched. */
  method Run(v: Volume, ops: seq<Op>, ghost b: Disk) returns (results: seq<Result<()>>, ghost a: Disk)
    requires v.Valid() && b.fat == v.fat && b.data == v.data
    modifies v
    ensures v.Valid() && a.fat == v.fat && a.data == v.data && |results| == |ops|
    ensures CountMatches(v.g, old(v.info), old(v.fat)) ==> CountMatches(v.g, v.info, v.fat)
    ensures Represents(v.g, b) ==>
              Represents(v.g, a) && (Rooted(v.g.rootCluster, b.tree) ==> Rooted(v.g.rootCluster, a.tree))
  {
    results, a := [], b;
    for i := 0 to |ops|
      invariant v.Valid() && a.fat == v.fat && a.data == v.data && |results| == i
      invariant CountMatches(v.g, old(v.info), old(v.fat)) ==> CountMatches(v.g, v.info, v.fat)
      invariant Represents(v.g, b) ==>
                  Represents(v.g, a) && (Rooted(v.g.rootCluster, b.tree) ==> Rooted(v.g.rootCluster, a.tree))
    {
      var r;
      r, a := Perform(v, ops[i], a);
      results := results + [r];
    }
  }

  lemma FormattedTree(root: nat, n: nat)
    requires root >= 2 && n % 32 == 0
    ensures var t := Tree(map[root := Zeros(n)], map[root := n], {}); TreeOk(root, t) && Unambiguous(t)
  {
    forall k: nat | 32 * k + 32 <= n ensures SlotAt(Zeros(n), k)[0] == 0 {
    }
  }

  lemma FormattedSpace(fat: Fat, lim: nat, root: nat)
    requires lim <= |fat| && 2 <= root < lim && fat[root] == FAT_END_MIN && forall c :: 2 <= c < lim && c != root ==>
               fat[c] == 0
    ensures Space(fat, lim, map[root := [root]])
  {
    var chains := map[root := [root]];
    forall c | 2 <= c < lim && fat[c] != 0 && fat[c] != FAT_BAD ensures exists h :: h in chains && c in chains[h] {
      assert root in chains && c in chains[root];
    }
  }

  /** A freshly formatted volume represents the tree of an empty root, so that
      every run from there on is covered. */
  lemma FormattedRepresents(g: Geometry, fat: Fat, data: Clusters, root: nat)
    requires g.Limit() <= |fat| && |data| == g.Limit() <= FAT_BAD && Aligned(data) && g.ClusterBytes() % 32 == 0 &&
             g.ClusterBytes() >= 32
    requires root == g.rootCluster && 2 <= root < g.Limit() && fat[root] == FAT_END_MIN &&
             data[root] == Zeros(g.ClusterBytes())
    requires forall c :: 2 <= c < g.Limit() && c != root ==> fat[c] == 0
    ensures var t := Tree(map[root := data[root]], map[root := g.ClusterBytes()], {});
            Represents(g, Disk(fat, data, map[root := [root]], t)) && Rooted(root, t)
  {
    BelowSelf(Tree(map[root := data[root]], map[root := g.ClusterBytes()], {}), root);
    assert Content(data, [root]) == data[root] by { assert [root][..0] == []; }
    FormattedTree(root, g.ClusterBytes());
    FormattedSpace(fat, g.Limit(), root);
  }

  /** After a create, reading any range of the file gives that range of the bytes written. */
  lemma ReadBack(v: Volume, b: Disk, a: Disk, first: nat, bytes: seq<Byte>, offset: nat, n: nat)
    requires v.Valid() && a.fat == v.fat && a.data == v.data && bytes != []
    requires ChainsProper(v.fat, v.g.Limit(), a.chains) && Stored(b, a, first, bytes)
    ensures first in a.chains && HasRoom(v.g, v.fat, v.data, a.chains[first], first, |bytes|)
    ensures RangeOf(Content(v.data, a.chains[first]), |bytes|, offset, n) == RangeOf(bytes, |bytes|, offset, n)
  {
    RangeOfPrefix(Content(a.data, a.chains[first]), bytes, offset, n);
  }
}
