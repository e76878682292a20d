/** What a path means: lookups, one component after the other, from the root. */
module FatResolve {
  import opened Bytes
  import opened FatVolume
  import opened FatDirectory
  import opened FatSpace
  import opened FatPlan
  import opened FatReserve
  import opened FatCreate
  import opened FatOutcome
  import opened FatLookups
  import opened FatFiles
  import opened FatMkdir

  const CURRENT: seq<Byte> := [0x2e]
  const PARENT: seq<Byte> := [0x2e, 0x2e]
  const MAX_COMPONENTS: nat := 16

  /** Components that count. */
  predicate Counts(part: seq<Byte>) { part != [] && part != CURRENT }

  function Significant(parts: seq<seq<Byte>>): seq<seq<Byte>> {
    if parts == [] then []
    else Significant(parts[..|parts| - 1]) + if Counts(parts[|parts| - 1]) then [parts[|parts| - 1]] else []
  }

  /** Where one component leads from directory `dir`. */
  ghost function Into(g: Geometry, d: Disk, dir: nat, name: seq<Byte>, wrongKind: Error): Result<nat>
    requires g.Limit() <= |d.fat| && |d.data| == g.Limit()
  {
    if !Counts(name) then Ok(dir)
    else if EncodeShortName(name).None? then Err(NameTooLong)
    else
      match Find(g, d, dir, EncodeShortName(name).value)
      case Err(e) => Err(e)
      case Ok(e) => if IsDirectory(e.attributes) && e.firstCluster >= 2 then Ok(e.firstCluster) else Err(wrongKind)
  }

  /** The directory a list of components names. */
  ghost function Resolve(g: Geometry, d: Disk, names: seq<seq<Byte>>, wrongKind: Error): Result<nat>
    requires g.Limit() <= |d.fat| && |d.data| == g.Limit()
  {
    if names == [] then Ok(g.rootCluster)
    else
      match Resolve(g, d, names[..|names| - 1], wrongKind)
      case Err(e) => Err(e)
      case Ok(dir) => Into(g, d, dir, names[|names| - 1], wrongKind)
  }

  lemma ResolveNext(g: Geometry, d: Disk, names: seq<seq<Byte>>, i: nat, wrongKind: Error, dir: nat)
    requires g.Limit() <= |d.fat| && |d.data| == g.Limit() && i < |names|
    requires Resolve(g, d, names[..i], wrongKind) == Ok(dir)
    ensures Resolve(g, d, names[..i + 1], wrongKind) == Into(g, d, dir, names[i], wrongKind)
  {
    assert names[..i + 1][..i] == names[..i];
  }

  lemma {:induction false} ResolveFails(g: Geometry, d: Disk, names: seq<seq<Byte>>, i: nat, wrongKind: Error, e: Error)
    requires g.Limit() <= |d.fat| && |d.data| == g.Limit() && i <= |names| &&
             Resolve(g, d, names[..i], wrongKind) == Err(e)
    ensures Resolve(g, d, names, wrongKind) == Err(e)
    decreases |names| - i
  {
    if i == |names| {
      assert names[..i] == names;
    } else {
      assert names[..i + 1][..i] == names[..i];
      ResolveFails(g, d, names, i + 1, wrongKind, e);
    }
  }

  /** A directory a lookup finds is a directory of the tree. */
  lemma FoundDirectory(g: Geometry, b: Disk, dir: nat, short: ShortName)
    requires Good(g, b) && dir in b.tree.dirs && Proper(short) && Find(g, b, dir, short).Ok?
    requires IsDirectory(Find(g, b, dir, short).value.attributes) && Find(g, b, dir, short).value.firstCluster >= 2
    ensures Find(g, b, dir, short).value.firstCluster in b.tree.dirs
  {
    SearchAgreesWithLookup(b.fat, g.Limit(), b.data, dir, [], short, None);
    ExistingDirectory(g, b, dir, short, Find(g, b, dir, short).value.firstCluster);
  }

  lemma IntoIsDirectory(g: Geometry, d: Disk, dir: nat, name: seq<Byte>, wrongKind: Error)
    requires Represents(g, d) && dir in d.tree.dirs && Into(g, d, dir, name, wrongKind).Ok?
    ensures Into(g, d, dir, name, wrongKind).value in d.tree.dirs
  {
    if Counts(name) { FoundDirectory(g, d, dir, EncodeShortName(name).value); }
  }

  /** On a volume that represents a tree, paths lead to directories of that tree. */
  lemma {:induction false} ResolvesToDirectory(g: Geometry, d: Disk, names: seq<seq<Byte>>, wrongKind: Error)
    requires Represents(g, d) && Resolve(g, d, names, wrongKind).Ok?
    ensures Resolve(g, d, names, wrongKind).value in d.tree.dirs
  {
    if names != [] {
      var rest := names[..|names| - 1];
      ResolvesToDirectory(g, d, rest, wrongKind);
      IntoIsDirectory(g, d, Resolve(g, d, rest, wrongKind).value, names[|names| - 1], wrongKind);
    }
  }

  // ------------------------------------------------------ paths that stay

  predicate LeadsOn(r: Result<Entry>) {
    r.Ok? && IsDirectory(r.value.attributes) && r.value.firstCluster >= 2
  }

  /** Every directory entry found before is found after. */
  ghost predicate KeepsPaths(g: Geometry, b: Disk, a: Disk)
    requires g.Limit() <= |b.fat| && |b.data| == g.Limit() && g.Limit() <= |a.fat| && |a.data| == g.Limit()
  {
    forall d, name {:trigger Find(g, a, d, name)} :: d in b.tree.dirs && LeadsOn(Find(g, b, d, name)) ==>
          Find(g, a, d, name) == Find(g, b, d, name)
  }

  lemma IntoStays(g: Geometry, b: Disk, a: Disk, dir: nat, name: seq<Byte>, wrongKind: Error)
    requires g.Limit() <= |b.fat| && |b.data| == g.Limit() && g.Limit() <= |a.fat| && |a.data| == g.Limit()
    requires KeepsPaths(g, b, a) && dir in b.tree.dirs && Into(g, b, dir, name, wrongKind).Ok?
    ensures Into(g, a, dir, name, wrongKind) == Into(g, b, dir, name, wrongKind)
  {
    if Counts(name) { assert LeadsOn(Find(g, b, dir, EncodeShortName(name).value)); }
  }

  /** What resolved before resolves to the same directory after. */
  lemma {:induction false} ResolveStays(g: Geometry, b: Disk, a: Disk, names: seq<seq<Byte>>, wrongKind: Error)
    requires Represents(g, b) && g.Limit() <= |a.fat| && |a.data| == g.Limit() && KeepsPaths(g, b, a) &&
             Resolve(g, b, names, wrongKind).Ok?
    ensures Resolve(g, a, names, wrongKind) == Resolve(g, b, names, wrongKind)
  {
    if names != [] {
      var rest := names[..|names| - 1];
      ResolveStays(g, b, a, rest, wrongKind);
      ResolvesToDirectory(g, b, rest, wrongKind);
      IntoStays(g, b, a, Resolve(g, b, rest, wrongKind).value, names[|names| - 1], wrongKind);
    }
  }

  /** No directory is longer than lookups read. */
  ghost predicate Readable(d: Disk) {
    forall x {:trigger x in d.tree.dirs} :: x in d.tree.dirs ==>
          x in d.chains && |d.chains[x]| <= MAX_DIRECTORY_CLUSTERS
  }

  /** Creating only makes directories longer. */
  lemma ReadableBefore(b: Disk, a: Disk, dir: nat, bytes: seq<Byte>, first: nat, gone: set<nat>)
    requires ChainsAfter(b, a, dir, bytes, first, gone) && b.tree.dirs.Keys <= b.chains.Keys &&
             b.tree.dirs.Keys <= a.tree.dirs.Keys && Readable(a)
    ensures Readable(b)
  {
    forall x | x in b.tree.dirs ensures x in b.chains && |b.chains[x]| <= MAX_DIRECTORY_CLUSTERS {
      assert x in a.tree.dirs;
    }
  }

  lemma CreatedReadable(g: Geometry, b: Disk, a: Disk, dir: nat, short: ShortName, bytes: seq<Byte>, first: nat,
                        isDir: bool, k: nat)
    requires Good(g, b) && Created(g, b, a, dir, short, bytes, first, isDir, k) && Readable(a)
    ensures Readable(b) && dir in a.tree.dirs && dir in a.chains
  {
    ReadableBefore(b, a, dir, bytes, first, Replaced(g, b, dir, short));
  }

  lemma PathsTransitive(g: Geometry, b: Disk, m: Disk, a: Disk)
    requires g.Limit() <= |b.fat| && |b.data| == g.Limit() && g.Limit() <= |m.fat| && |m.data| == g.Limit() &&
             g.Limit() <= |a.fat| && |a.data| == g.Limit()
    requires KeepsPaths(g, b, m) && KeepsPaths(g, m, a) && forall d :: d in b.tree.dirs ==> d in m.tree.dirs
    ensures KeepsPaths(g, b, a)
  {
    forall d, name | d in b.tree.dirs && LeadsOn(Find(g, b, d, name))
        ensures Find(g, a, d, name) == Find(g, b, d, name) {
      assert Find(g, m, d, name) == Find(g, b, d, name);
    }
  }

  /** A failed step leaves every path as it was. */
  lemma RestoredPaths(g: Geometry, b: Disk, a: Disk)
    requires g.Limit() <= |b.fat| && Restored(g.Limit(), b.fat, b.data, a.fat, a.data) &&
             WellFormed(g, b.fat, b.data, b.chains, b.tree)
    requires Aligned(b.data) && Aligned(a.data)
    ensures KeepsPaths(g, b, a)
  {
    forall d, name | d in b.tree.dirs ensures Find(g, a, d, name) == Find(g, b, d, name) {
      RestoredKeepsLookups(g, b.fat, b.data, a.fat, a.data, b.chains, b.tree, d, name);
    }
  }

  /** An entry of a directory leads there. */
  lemma EntryLeads(g: Geometry, d: Disk, dir: nat, name: seq<Byte>, made: nat, wrongKind: Error)
    requires g.Limit() <= |d.fat| && |d.data| == g.Limit() && EncodeShortName(name).Some? && Counts(name) &&
             2 <= made < 0x1_0000_0000
    requires Find(g, d, dir, EncodeShortName(name).value) == Ok(NewEntry(EncodeShortName(name).value, made, 0, true))
    ensures Into(g, d, dir, name, wrongKind) == Ok(made)
  {
  }

  lemma NotTooLong(g: Geometry, d: Disk, dir: nat, short: ShortName)
    requires Good(g, d) && dir in d.tree.dirs && Readable(d)
    ensures Find(g, d, dir, short) != Err(ChainTooLong)
  {
    FindShort(g, d, dir, short);
  }

  lemma LookupsKeepPaths(g: Geometry, b: Disk, a: Disk, dir: nat, short: ShortName, e: Entry, hidden: bool)
    requires g.Limit() <= |b.fat| && |b.data| == g.Limit() && g.Limit() <= |a.fat| && |a.data| == g.Limit() &&
             dir in a.chains
    requires |a.chains[dir]| <= MAX_DIRECTORY_CLUSTERS && LookupsAfter(g, b, a, dir, short, e, hidden) &&
             !LeadsOn(Find(g, b, dir, short))
    ensures KeepsPaths(g, b, a)
  {
    forall d, name | d in b.tree.dirs && LeadsOn(Find(g, b, d, name))
        ensures Find(g, a, d, name) == Find(g, b, d, name) {
    }
  }

  /** A created entry is found if no directory is too long, and paths stay as they were. */
  lemma CreatedResolves(g: Geometry, b: Disk, a: Disk, dir: nat, short: ShortName, e: Entry)
    requires g.Limit() <= |b.fat| && |b.data| == g.Limit() && Good(g, a) && dir in a.tree.dirs && dir in a.chains &&
             Readable(a)
    requires LookupsAfter(g, b, a, dir, short, e, Hidden(g, b, dir, short)) && !LeadsOn(Find(g, b, dir, short))
    ensures Find(g, a, dir, short) == Ok(e) && KeepsPaths(g, b, a)
  {
    NotTooLong(g, a, dir, short);
    LookupsKeepPaths(g, b, a, dir, short, e, Hidden(g, b, dir, short));
  }
}
