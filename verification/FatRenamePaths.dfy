/** Renaming by path, and what becomes of the tree. */
module FatRenamePaths {
  import opened Bytes
  import opened FatChain
  import opened FatVolume
  import opened FatAlloc
  import opened FatDirectory
  import opened FatTree
  import opened FatPlan
  import opened FatReserve
  import opened FatCreate
  import opened FatOutcome
  import opened FatLookups
  import opened FatFiles
  import opened FatDelete
  import opened FatResolve
  import opened FatReach
  import opened FatPaths
  import opened FatRead
  import opened FatRename
  import opened FatRenameSteps

  // -------------------------------------------------- below the same names

  /** A directory a lookup finds is owned by a slot of that name. */
  lemma FoundOwner(g: Geometry, b: Disk, d: nat, short: ShortName) returns (k: nat)
    requires Good(g, b) && d in b.tree.dirs && Proper(short) && LeadsOn(Find(g, b, d, short))
    ensures Owns(b.tree, d, k, Find(g, b, d, short).value.firstCluster) && SlotAt(b.tree.dirs[d], k)[..11] == short
  {
    SearchAgreesWithLookup(b.fat, g.Limit(), b.data, d, [], short, None);
    PlanPointsInside(b.fat, g.Limit(), b.data, d, [], short, None);
    var p := SlotFor(b.fat, g.Limit(), b.data, d, [], short, None);
    var at := Located(p.cluster, p.index, DecodeEntry(SlotAt(b.data[p.cluster], p.index)));
    var res, i;
    res, i, k := LocatedReady(g, b, d, short, at);
    LocatedOwns(g.rootCluster, b.tree, d, b.data, b.chains[d], short, res, i, k);
  }

  ghost predicate AllCount(names: seq<seq<Byte>>) {
    forall i {:trigger names[i]} :: 0 <= i < |names| ==> Counts(names[i])
  }

  /** The directories `p` a path leads through, one component after the other. */
  ghost predicate Way(g: Geometry, b: Disk, names: seq<seq<Byte>>, p: seq<nat>)
    requires g.Limit() <= |b.fat| && |b.data| == g.Limit()
  {
    |p| == |names| + 1 && forall i {:trigger p[i]} :: 0 <= i <= |names| ==>
      Resolve(g, b, names[..i], NotFound) == Ok(p[i])
  }

  lemma WayOn(g: Geometry, b: Disk, names: seq<seq<Byte>>, p: seq<nat>, y: nat)
    requires g.Limit() <= |b.fat| && |b.data| == g.Limit() && names != [] && Way(g, b, names[..|names| - 1], p) &&
             Resolve(g, b, names, NotFound) == Ok(y)
    ensures Way(g, b, names, p + [y])
  {
    var q := p + [y];
    forall i | 0 <= i <= |names| ensures Resolve(g, b, names[..i], NotFound) == Ok(q[i]) {
      if i < |names| {
        assert names[..|names| - 1][..i] == names[..i] && q[i] == p[i];
      } else {
        assert names[..i] == names;
      }
    }
  }

  /** One component leads to a slot of that name. */
  lemma StepOwned(g: Geometry, b: Disk, name: seq<Byte>, d: nat, y: nat) returns (k: nat)
    requires Represents(g, b) && Counts(name) && d in b.tree.dirs && Into(g, b, d, name, NotFound) == Ok(y)
    ensures EncodeShortName(name).Some? && Owns(b.tree, d, k, y) && y >= 2 && y in b.tree.dirs && Edge(b.tree, d, y)
    ensures SlotAt(b.tree.dirs[d], k)[..11] == EncodeShortName(name).value
  {
    k := FoundOwner(g, b, d, EncodeShortName(name).value);
    IntoIsDirectory(g, b, d, name, NotFound);
  }

  lemma TrailOn(t: Tree, p: seq<nat>, r: nat, d: nat, y: nat)
    requires Trail(t, p, r, d) && Edge(t, d, y)
    ensures Trail(t, p + [y], r, y)
  {
    var q := p + [y];
    forall i | 0 <= i && i + 1 < |q| ensures FatReach.Leads(t, q, i) {
      if i + 1 < |p| { assert FatReach.Leads(t, p, i); }
    }
  }

  /** They are a trail of the tree. */
  lemma {:induction false} WayIsTrail(g: Geometry, b: Disk, names: seq<seq<Byte>>) returns (p: seq<nat>)
    requires Represents(g, b) && AllCount(names) && Resolve(g, b, names, NotFound).Ok?
    ensures Way(g, b, names, p) && Trail(b.tree, p, g.rootCluster, Resolve(g, b, names, NotFound).value)
  {
    if names == [] {
      p := [g.rootCluster];
      assert names[..0] == [];
    } else {
      var rest := names[..|names| - 1];
      p := WayIsTrail(g, b, rest);
      var d, y := Resolve(g, b, rest, NotFound).value, Resolve(g, b, names, NotFound).value;
      ResolvesToDirectory(g, b, rest, NotFound);
      var k := StepOwned(g, b, names[|names| - 1], d, y);
      TrailOn(b.tree, p, g.rootCluster, d, y);
      WayOn(g, b, names, p, y);
      p := p + [y];
    }
  }

  lemma NoStepIntoRoot(root: nat, t: Tree)
    requires TreeOk(root, t)
    ensures forall d {:trigger Edge(t, d, root)} :: !Edge(t, d, root)
  {
    forall d ensures !Edge(t, d, root) {
      if Edge(t, d, root) { OneParent(root, t, d, d, root); }
    }
  }

  lemma StepIntoLast(t: Tree, p: seq<nat>, d: nat, y: nat)
    requires Trail(t, p, d, y) && |p| > 1
    ensures Edge(t, p[|p| - 2], y)
  {
    assert FatReach.Leads(t, p, |p| - 2);
  }

  /** A trail from the root back to the root goes nowhere. */
  lemma RootAlone(root: nat, t: Tree, p: seq<nat>)
    requires TreeOk(root, t) && Trail(t, p, root, root)
    ensures p == [root]
  {
    NoStepIntoRoot(root, t);
    if |p| > 1 { StepIntoLast(t, p, root, root); }
  }

  /** There is one trail from the root to a directory. */
  lemma {:induction false} OneTrail(root: nat, t: Tree, p: seq<nat>, q: seq<nat>, y: nat)
    requires TreeOk(root, t) && Trail(t, p, root, y) && Trail(t, q, root, y)
    ensures p == q
    decreases |p|
  {
    if y == root {
      RootAlone(root, t, p);
      RootAlone(root, t, q);
    } else {
      var i, j := |p| - 2, |q| - 2;
      StepIntoLast(t, p, root, y);
      StepIntoLast(t, q, root, y);
      OneParent(root, t, p[i], q[j], y);
      TrailPrefix(t, p, root, y, i);
      TrailPrefix(t, q, root, y, j);
      OneTrail(root, t, p[..i + 1], q[..j + 1], p[i]);
    }
  }

  /** The names as the directories hold them. */
  ghost function Shorts(names: seq<seq<Byte>>): seq<Option<ShortName>> {
    seq(|names|, i requires 0 <= i < |names| => EncodeShortName(names[i]))
  }

  /** Names that are held alike lead alike. */
  lemma {:induction false} SameShorts(g: Geometry, b: Disk, names: seq<seq<Byte>>, others: seq<seq<Byte>>)
    requires g.Limit() <= |b.fat| && |b.data| == g.Limit() && AllCount(names) && AllCount(others) &&
             Shorts(names) == Shorts(others)
    ensures Resolve(g, b, names, NotFound) == Resolve(g, b, others, NotFound)
  {
    if names != [] {
      var n := |names| - 1;
      assert |Shorts(names)| == |names| && |Shorts(others)| == |others|;
      assert Shorts(names[..n]) == Shorts(names)[..n] && Shorts(others[..n]) == Shorts(others)[..n];
      SameShorts(g, b, names[..n], others[..n]);
      assert Shorts(names)[n] == Shorts(others)[n];
    }
  }

  lemma OneSlotEach(root: nat, t: Tree, d: nat, k: nat, m: nat, y: nat)
    requires TreeOk(root, t) && Owns(t, d, k, y) && Owns(t, d, m, y) && y >= 2
    ensures k == m
  {
  }

  /** Two paths through the same directories have the same names on the way. */
  lemma SameWayShorts(g: Geometry, b: Disk, names: seq<seq<Byte>>, others: seq<seq<Byte>>, p: seq<nat>, q: seq<nat>,
                      i: nat)
    requires Represents(g, b) && AllCount(names) && AllCount(others) && Way(g, b, names, p) && Way(g, b, others, q)
    requires i < |names| && i < |others| && p[i] == q[i] && p[i + 1] == q[i + 1]
    ensures EncodeShortName(names[i]) == EncodeShortName(others[i])
  {
    ResolveNext(g, b, names, i, NotFound, p[i]);
    ResolveNext(g, b, others, i, NotFound, q[i]);
    ResolvesToDirectory(g, b, names[..i], NotFound);
    var k := StepOwned(g, b, names[i], p[i], p[i + 1]);
    var m := StepOwned(g, b, others[i], q[i], q[i + 1]);
    OneSlotEach(g.rootCluster, b.tree, p[i], k, m, p[i + 1]);
  }

  lemma TrailJoin(t: Tree, p: seq<nat>, q: seq<nat>, r: nat, x: nat, y: nat)
    requires Trail(t, p, r, x) && Trail(t, q, x, y)
    ensures Trail(t, p + q[1..], r, y)
  {
    var j := p + q[1..];
    forall i | 0 <= i && i + 1 < |j| ensures FatReach.Leads(t, j, i) {
      if i + 1 < |p| {
        assert FatReach.Leads(t, p, i);
      } else {
        assert FatReach.Leads(t, q, i + 1 - |p|);
      }
    }
  }

  lemma PrefixShorts(names: seq<seq<Byte>>, longer: seq<seq<Byte>>)
    requires Shorts(names) <= Shorts(longer)
    ensures |names| <= |longer| && Shorts(longer[..|names|]) == Shorts(names)
  {
    assert |Shorts(names)| == |names| && |Shorts(longer)| == |longer|;
  }

  /** The way to a directory below `x` begins with the way to `x`. */
  lemma BelowIsOnTheWay(root: nat, t: Tree, p: seq<nat>, w: seq<nat>, x: nat, y: nat)
    requires TreeOk(root, t) && Trail(t, p, root, x) && Trail(t, w, root, y) && Below(t, x, y)
    ensures |p| <= |w| && w[..|p|] == p
  {
    var q :| Trail(t, q, x, y);
    TrailJoin(t, p, q, root, x, y);
    OneTrail(root, t, w, p + q[1..], y);
  }

  /** A directory on the way lies above. */
  lemma OnTheWay(g: Geometry, b: Disk, names: seq<seq<Byte>>, n: nat)
    requires Represents(g, b) && AllCount(names) && Resolve(g, b, names, NotFound).Ok? && n <= |names| &&
             Resolve(g, b, names[..n], NotFound).Ok?
    ensures Below(b.tree, Resolve(g, b, names[..n], NotFound).value, Resolve(g, b, names, NotFound).value)
  {
    var p := WayIsTrail(g, b, names);
    TrailSuffix(b.tree, p, g.rootCluster, Resolve(g, b, names, NotFound).value, n);
    assert Resolve(g, b, names[..n], NotFound) == Ok(p[n]);
  }

  /** Paths whose names begin alike lead below. */
  lemma PrefixLeadsBelow(g: Geometry, b: Disk, names: seq<seq<Byte>>, longer: seq<seq<Byte>>)
    requires Represents(g, b) && AllCount(names) && AllCount(longer) && Resolve(g, b, names, NotFound).Ok? &&
             Resolve(g, b, longer, NotFound).Ok?
    requires Shorts(names) <= Shorts(longer)
    ensures Below(b.tree, Resolve(g, b, names, NotFound).value, Resolve(g, b, longer, NotFound).value)
  {
    PrefixShorts(names, longer);
    SameShorts(g, b, names, longer[..|names|]);
    OnTheWay(g, b, longer, |names|);
  }

  lemma SameWay(g: Geometry, b: Disk, names: seq<seq<Byte>>, longer: seq<seq<Byte>>, p: seq<nat>, q: seq<nat>)
    requires Represents(g, b) && AllCount(names) && AllCount(longer) && Way(g, b, names, p) && Way(g, b, longer, q)
    requires |p| <= |q| && q[..|p|] == p
    ensures |names| <= |longer| && forall i {:trigger names[i]} :: 0 <= i < |names| ==>
              EncodeShortName(names[i]) == EncodeShortName(longer[i])
  {
    forall i | 0 <= i < |names| ensures EncodeShortName(names[i]) == EncodeShortName(longer[i]) {
      assert q[..|p|][i] == q[i] && q[..|p|][i + 1] == q[i + 1];
      SameWayShorts(g, b, names, longer, p, q, i);
    }
  }

  lemma ShortsPrefix(names: seq<seq<Byte>>, longer: seq<seq<Byte>>)
    requires |names| <= |longer| && forall i {:trigger names[i]} :: 0 <= i < |names| ==>
               EncodeShortName(names[i]) == EncodeShortName(longer[i])
    ensures Shorts(names) <= Shorts(longer)
  {
  }

  /** What lies below has the names of its way there. */
  lemma BelowHasPrefix(g: Geometry, b: Disk, names: seq<seq<Byte>>, longer: seq<seq<Byte>>)
    requires Represents(g, b) && AllCount(names) && AllCount(longer) && Resolve(g, b, names, NotFound).Ok? &&
             Resolve(g, b, longer, NotFound).Ok?
    requires Below(b.tree, Resolve(g, b, names, NotFound).value, Resolve(g, b, longer, NotFound).value)
    ensures Shorts(names) <= Shorts(longer)
  {
    var p := WayIsTrail(g, b, names);
    var q := WayIsTrail(g, b, longer);
    BelowIsOnTheWay(g.rootCluster, b.tree, p, q, Resolve(g, b, names, NotFound).value,
        Resolve(g, b, longer, NotFound).value);
    SameWay(g, b, names, longer, p, q);
    ShortsPrefix(names, longer);
  }

  /** One path's directory lies below another's if and only if its names, as directories hold them, begin with the
      other's. */
  lemma BelowIff(g: Geometry, b: Disk, names: seq<seq<Byte>>, longer: seq<seq<Byte>>)
    requires Represents(g, b) && AllCount(names) && AllCount(longer) && Resolve(g, b, names, NotFound).Ok? &&
             Resolve(g, b, longer, NotFound).Ok?
    ensures Below(b.tree, Resolve(g, b, names, NotFound).value, Resolve(g, b, longer, NotFound).value) <==>
              Shorts(names) <= Shorts(longer)
  {
    if Shorts(names) <= Shorts(longer) { PrefixLeadsBelow(g, b, names, longer); }
    if Below(b.tree, Resolve(g, b, names, NotFound).value, Resolve(g, b, longer, NotFound).value) {
      BelowHasPrefix(g, b, names, longer);
    }
  }

  // ------------------------------------------------------------ the paths

  function TrimLeft(s: seq<Byte>): (r: seq<Byte>)
    ensures r == [] || r[0] != SLASH
  {
    if s != [] && s[0] == SLASH then TrimLeft(s[1..]) else s
  }

  function TrimRight(s: seq<Byte>): (r: seq<Byte>)
    ensures r <= s && (r == [] || r[|r| - 1] != SLASH)
  {
    if s != [] && s[|s| - 1] == SLASH then TrimRight(s[..|s| - 1]) else s
  }

  /** A path without the slashes around it. */
  function Trim(s: seq<Byte>): seq<Byte> { TrimRight(TrimLeft(s)) }

  /** `path_is_descendant`, which compares bytes. */
  predicate Descends(parent: seq<Byte>, child: seq<Byte>) {
    parent != [] && |child| > |parent| && child[..|parent|] == parent && child[|parent|] == SLASH
  }

  lemma {:induction false} SignificantCounts(parts: seq<seq<Byte>>)
    ensures AllCount(Significant(parts))
  {
    if parts != [] { SignificantCounts(parts[..|parts| - 1]); }
  }

  lemma FindSmall(g: Geometry, b: Disk, d: nat, short: ShortName)
    requires g.Limit() <= |b.fat| && |b.data| == g.Limit() && Find(g, b, d, short).Ok?
    ensures Find(g, b, d, short).value.firstCluster < 0x1_0000_0000
  {
    SearchAgreesWithLookup(b.fat, g.Limit(), b.data, d, [], short, None);
  }

  lemma ResolveSmall(g: Geometry, b: Disk, names: seq<seq<Byte>>)
    requires g.Limit() <= |b.fat| && |b.data| == g.Limit() && g.rootCluster < g.Limit() <= FAT_BAD &&
             Resolve(g, b, names, NotFound).Ok?
    ensures Resolve(g, b, names, NotFound).value < 0x1_0000_0000
  {
    if names != [] {
      var rest := names[..|names| - 1];
      ResolveSmall(g, b, rest);
      var d := Resolve(g, b, rest, NotFound).value;
      if Counts(names[|names| - 1]) { FindSmall(g, b, d, EncodeShortName(names[|names| - 1]).value); }
    }
  }

  /** The entry to be renamed and its directory, or why there is none. */
  ghost function OldEntry(g: Geometry, b: Disk, o: seq<Byte>, n: seq<Byte>): Result<(nat, Located)>
    requires g.Limit() <= |b.fat| && |b.data| == g.Limit()
  {
    if o == [] || n == [] then Err(InvalidPath)
    else if !Nameable(SplitPath(o)) then Err(NameTooLong)
    else
      match Resolve(g, b, Above(SplitPath(o)), NotFound)
      case Err(e) => Err(e)
      case Ok(od) =>
        match LocatedBy(b.data, SlotFor(b.fat, g.Limit(), b.data, od, [], EncodeShortName(Leaf(SplitPath(o))).value,
            None))
        case Err(e) => Err(e)
        case Ok(at) =>
          if HasBit(at.entry.attributes, ATTR_READ_ONLY) then Err(ReadOnly)
          else if IsDirectory(at.entry.attributes) && Descends(o, n) then Err(InvalidPath)
          else if IsDirectory(at.entry.attributes) && at.entry.firstCluster < 2 then Err(CorruptDirectory)
          else Ok((od, at))
  }

  /** The directory it goes to. */
  ghost function NewParent(g: Geometry, b: Disk, n: seq<Byte>): Result<nat>
    requires g.Limit() <= |b.fat| && |b.data| == g.Limit()
  {
    if !Nameable(SplitPath(n)) then Err(NameTooLong) else Resolve(g, b, Above(SplitPath(n)), NotFound)
  }

  /** Why a path cannot be renamed, in the order in which it is found out. */
  ghost function RenamePathRefusal(g: Geometry, b: Disk, o: seq<Byte>, n: seq<Byte>): Option<Error>
    requires g.Limit() <= |b.fat| && |b.data| == g.Limit()
  {
    match OldEntry(g, b, o, n)
    case Err(e) => Some(e)
    case Ok((od, at)) =>
      match NewParent(g, b, n)
      case Err(e) => Some(e)
      case Ok(nd) => RenameRefusal(g, b, od, EncodeShortName(Leaf(SplitPath(o))).value, at, nd,
          EncodeShortName(Leaf(SplitPath(n))).value)
  }

  method FindOld(v: Volume, o: seq<Byte>, n: seq<Byte>, ghost b: Disk) returns (r: Result<(nat, Located)>)
    requires v.Valid() && b.fat == v.fat && b.data == v.data
    ensures r == OldEntry(v.g, b, o, n)
    ensures r.Ok? ==>
              IsAllocatable(v.g, r.value.1.cluster) && 32 * r.value.1.index + 32 <= |v.data[r.value.1.cluster]| &&
              r.value.0 < 0x1_0000_0000
  {
    if o == [] || n == [] { return Err(InvalidPath); }
    var split := SplitLeaf(SplitPath(o));
    if split.Err? { return Err(split.error); }
    var parent := FindPath(v, split.value.0, NotFound, b);
    if parent.Err? { return Err(parent.error); }
    ResolveSmall(v.g, b, Above(SplitPath(o)));
    var at := FindExistingSlot(v, parent.value, EncodeShortName(split.value.1).value);
    if at.Err? { return Err(at.error); }
    var attributes := at.value.entry.attributes;
    if HasBit(attributes, ATTR_READ_ONLY) { return Err(ReadOnly); }
    if IsDirectory(attributes) && Descends(o, n) { return Err(InvalidPath); }
    if IsDirectory(attributes) && at.value.entry.firstCluster < 2 { return Err(CorruptDirectory); }
    return Ok((parent.value, at.value));
  }

  method FindNew(v: Volume, n: seq<Byte>, ghost b: Disk) returns (r: Result<nat>)
    requires v.Valid() && b.fat == v.fat && b.data == v.data
    ensures r == NewParent(v.g, b, n) && (r.Ok? ==> r.value < 0x1_0000_0000)
  {
    var split := SplitLeaf(SplitPath(n));
    if split.Err? { return Err(split.error); }
    r := FindPath(v, split.value.0, NotFound, b);
    if r.Ok? { ResolveSmall(v.g, b, Above(SplitPath(n))); }
  }

  lemma OldParts(g: Geometry, b: Disk, o: seq<Byte>, n: seq<Byte>)
    requires g.Limit() <= |b.fat| && |b.data| == g.Limit() && OldEntry(g, b, o, n).Ok?
    ensures Nameable(SplitPath(o)) && Resolve(g, b, Above(SplitPath(o)), NotFound) == Ok(OldEntry(g, b, o, n).value.0)
    ensures LocatedBy(b.data, SlotFor(b.fat, g.Limit(), b.data, OldEntry(g, b, o, n).value.0, [],
            EncodeShortName(Leaf(SplitPath(o))).value, None))
              == Ok(OldEntry(g, b, o, n).value.1)
  {
  }

  /** On a volume that represents a tree, what was found can be renamed as far as the tree goes. */
  lemma FoundRenames(g: Geometry, b: Disk, above: seq<seq<Byte>>, od: nat, old': ShortName, at: Located,
                     below: seq<seq<Byte>>, nd: nat, new': ShortName)
    requires Represents(g, b) && Resolve(g, b, above, NotFound) == Ok(od) && Resolve(g, b, below, NotFound) == Ok(nd) &&
             Proper(old') && Proper(new')
    requires LocatedBy(b.data, SlotFor(b.fat, g.Limit(), b.data, od, [], old', None)) == Ok(at)
    requires 2 <= at.cluster < g.Limit() && 32 * at.index + 32 <= |b.data[at.cluster]|
    ensures Renames(g, b, od, old', at, nd, new')
  {
    ResolvesToDirectory(g, b, above, NotFound);
    ResolvesToDirectory(g, b, below, NotFound);
  }

  /** The whole old path leads to the directory that is renamed. */
  lemma OldLeads(g: Geometry, b: Disk, o: seq<Byte>, n: seq<Byte>)
    requires g.Limit() <= |b.fat| && |b.data| == g.Limit() && OldEntry(g, b, o, n).Ok? &&
             IsDirectory(OldEntry(g, b, o, n).value.1.entry.attributes)
    ensures Resolve(g, b, Significant(SplitPath(o)), NotFound) == Ok(OldEntry(g, b, o, n).value.1.entry.firstCluster)
  {
    var names := Significant(SplitPath(o));
    var od, at := OldEntry(g, b, o, n).value.0, OldEntry(g, b, o, n).value.1;
    SignificantCounts(SplitPath(o));
    SearchAgreesWithLookup(b.fat, g.Limit(), b.data, od, [], EncodeShortName(Leaf(SplitPath(o))).value, None);
    assert Counts(names[|names| - 1]);
    assert Find(g, b, od, EncodeShortName(Leaf(SplitPath(o))).value) == Ok(at.entry);
  }

  /** The renamed directory would go below itself. */
  ghost predicate BelowItself(o: seq<Byte>, n: seq<Byte>) {
    Shorts(Significant(SplitPath(o))) <= Shorts(Above(SplitPath(n)))
  }

  lemma AboveCounts(parts: seq<seq<Byte>>)
    ensures AllCount(Above(parts))
  {
    SignificantCounts(parts);
  }

  /** The new parent lies below the renamed directory if and only if its names begin with the old path's. */
  lemma GoesBelowIff(g: Geometry, b: Disk, o: seq<Byte>, n: seq<Byte>)
    requires Represents(g, b) && OldEntry(g, b, o, n).Ok? && NewParent(g, b, n).Ok? &&
             IsDirectory(OldEntry(g, b, o, n).value.1.entry.attributes)
    ensures Below(b.tree, OldEntry(g, b, o, n).value.1.entry.firstCluster, NewParent(g, b, n).value) <==>
              BelowItself(o, n)
  {
    OldLeads(g, b, o, n);
    SignificantCounts(SplitPath(o));
    AboveCounts(SplitPath(n));
    BelowIff(g, b, Significant(SplitPath(o)), Above(SplitPath(n)));
  }

  /** Every directory still hangs from the root if and only if no directory went below itself. */
  lemma RenameRootedIff(g: Geometry, b: Disk, a: Disk, o: seq<Byte>, n: seq<Byte>, k1: nat, k2: nat)
    requires Represents(g, b) && OldEntry(g, b, o, n).Ok? && NewParent(g, b, n).Ok?
    requires var at := OldEntry(g, b, o, n).value.1;
             2 <= at.cluster < g.Limit() && 32 * at.index + 32 <= |b.data[at.cluster]|
    requires Rehung(b.tree, a.tree, OldEntry(g, b, o, n).value.0, k1, NewParent(g, b, n).value, k2,
             OldEntry(g, b, o, n).value.1.entry.firstCluster)
    requires Rooted(g.rootCluster, b.tree)
    ensures Rooted(g.rootCluster, a.tree) <==>
              !(IsDirectory(OldEntry(g, b, o, n).value.1.entry.attributes) && BelowItself(o, n))
  {
    var od, at := OldEntry(g, b, o, n).value.0, OldEntry(g, b, o, n).value.1;
    OldParts(g, b, o, n);
    FoundRenames(g, b, Above(SplitPath(o)), od, EncodeShortName(Leaf(SplitPath(o))).value, at, Above(SplitPath(n)),
    NewParent(g, b, n).value,
                 EncodeShortName(Leaf(SplitPath(n))).value);
    FoundIsDirectory(g, b, od, EncodeShortName(Leaf(SplitPath(o))).value, at);
    RehungRootedIff(g.rootCluster, b.tree, a.tree, od, k1, NewParent(g, b, n).value, k2, at.entry.firstCluster);
    if IsDirectory(at.entry.attributes) { GoesBelowIff(g, b, o, n); }
  }

  // ------------------------------------------------------ renaming by path

  /** What a rename that went through means. */
  ghost predicate PathRenamed(g: Geometry, b: Disk, a: Disk, o: seq<Byte>, n: seq<Byte>, k1: nat, k2: nat)
    requires g.Limit() <= |b.fat| && |b.data| == g.Limit()
  {
    && OldEntry(g, b, o, n).Ok? && NewParent(g, b, n).Ok?
    && var od, at := OldEntry(g, b, o, n).value.0, OldEntry(g, b, o, n).value.1;
       && InsideData(b.data, at.cluster, at.index)
       && Done(g, b, a, od, at, SlotAt(b.data[at.cluster], at.index), NewParent(g, b, n).value,
          EncodeShortName(Leaf(SplitPath(n))).value, k1, k2)
       && (Rooted(g.rootCluster, b.tree) ==>
          (Rooted(g.rootCluster, a.tree) <==> !(IsDirectory(at.entry.attributes) && BelowItself(o, n))))
  }

  /** The entry has both its old and its new slot. */
  ghost predicate PathDoubled(g: Geometry, b: Disk, a: Disk, o: seq<Byte>, n: seq<Byte>)
    requires g.Limit() <= |b.fat| && |b.data| == g.Limit()
  {
    && OldEntry(g, b, o, n).Ok? && Nameable(SplitPath(n))
    && var at := OldEntry(g, b, o, n).value.1;
       InsideData(b.data, at.cluster, at.index) &&
       Doubled(a.data, at, SlotAt(b.data[at.cluster], at.index), EncodeShortName(Leaf(SplitPath(n))).value)
  }

  lemma OldDecodes(g: Geometry, b: Disk, o: seq<Byte>, n: seq<Byte>)
    requires g.Limit() <= |b.fat| && |b.data| == g.Limit() && OldEntry(g, b, o, n).Ok?
    ensures var at := OldEntry(g, b, o, n).value.1;
            InsideData(b.data, at.cluster, at.index) && DecodeEntry(SlotAt(b.data[at.cluster], at.index)) == at.entry
  {
    OldParts(g, b, o, n);
  }

  lemma RenamedPath(g: Geometry, b: Disk, a: Disk, o: seq<Byte>, n: seq<Byte>, k1: nat, k2: nat)
    requires g.Limit() <= |b.fat| && |b.data| == g.Limit() && OldEntry(g, b, o, n).Ok? && NewParent(g, b, n).Ok? &&
             Represents(g, b)
    requires var at := OldEntry(g, b, o, n).value.1;
             2 <= at.cluster < g.Limit() && InsideData(b.data, at.cluster, at.index)
    requires var od, at := OldEntry(g, b, o, n).value.0, OldEntry(g, b, o, n).value.1;
             Done(g, b, a, od, at, SlotAt(b.data[at.cluster], at.index), NewParent(g, b, n).value,
             EncodeShortName(Leaf(SplitPath(n))).value, k1, k2)
    ensures PathRenamed(g, b, a, o, n, k1, k2)
  {
    if Rooted(g.rootCluster, b.tree) {
      var od, at := OldEntry(g, b, o, n).value.0, OldEntry(g, b, o, n).value.1;
      RelabelledRehung(b.tree, a.tree, od, k1, NewParent(g, b, n).value, k2, EncodeShortName(Leaf(SplitPath(n))).value);
      OldDecodes(g, b, o, n);
      RenameRootedIff(g, b, a, o, n, k1, k2);
    }
  }

  lemma NothingHarmed(g: Geometry, b: Disk)
    requires Represents(g, b)
    ensures Unharmed(g, b, b) && FilesKept(b, b)
  {
    SameEntriesSelf(b.tree);
    FilesSelf(g, b);
  }

  /** `rename_path`: exactly the entry the old path leads to hangs under the new one, or nothing is harmed, unless the
      device refuses both a step and its undoing. Every directory still hangs from the root, unless a directory went
      below itself. */
  method RenamePath(v: Volume, old': seq<Byte>, new': seq<Byte>, ghost b: Disk)
    returns (r: Result<()>, ghost a: Disk, ghost k1: nat, ghost k2: nat, ghost stuck: bool)
    requires v.Valid() && b.fat == v.fat && b.data == v.data
    modifies v
    ensures v.Valid() && a.fat == v.fat && a.data == v.data
    ensures CountMatches(v.g, old(v.info), old(v.fat)) ==> CountMatches(v.g, v.info, v.fat)
    ensures stuck ==> r.Err? && exists n :: v.faults(n)
    ensures Represents(v.g, b) ==>
              Foretold(RenamePathRefusal(v.g, b, Trim(old'), Trim(new')), r, exists n :: v.faults(n))
    ensures Represents(v.g, b) ==> FilesKept(b, a)
    ensures Represents(v.g, b) && r.Ok? ==> PathRenamed(v.g, b, a, Trim(old'), Trim(new'), k1, k2)
    ensures Represents(v.g, b) && r.Err? && !stuck ==> Unharmed(v.g, b, a)
    ensures Represents(v.g, b) && stuck ==> PathDoubled(v.g, b, a, Trim(old'), Trim(new'))
  {
    a, k1, k2, stuck := b, 0, 0, false;
    if Represents(v.g, b) { NothingHarmed(v.g, b); }
    var o, n := Trim(old'), Trim(new');
    var found := FindOld(v, o, n, b);
    if found.Err? { return Err(found.error), a, k1, k2, stuck; }
    var parent := FindNew(v, n, b);
    if parent.Err? { return Err(parent.error), a, k1, k2, stuck; }
    OldParts(v.g, b, o, n);
    var oldShort, newShort := EncodeShortName(Leaf(SplitPath(o))).value, EncodeShortName(Leaf(SplitPath(n))).value;
    if Represents(v.g, b) {
      FoundRenames(v.g, b, Above(SplitPath(o)), found.value.0, oldShort, found.value.1, Above(SplitPath(n)),
          parent.value, newShort);
    }
    r, a, k1, k2, stuck := RenameResolved(v, found.value.0, found.value.1, parent.value, oldShort, newShort, b);
    if Represents(v.g, b) && r.Ok? { RenamedPath(v.g, b, a, o, n, k1, k2); }
  }
}
