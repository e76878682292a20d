/** Reading by path: `resolve_path`, whose component limit is not that of the operations that create. */
module FatRead {
  import opened Bytes
  import opened FatChain
  import opened FatVolume
  import opened FatAlloc
  import opened FatFile
  import opened FatDirectory
  import opened FatSpace
  import opened FatPlan
  import opened FatReserve
  import opened FatMoves
  import opened FatCreate
  import opened FatOutcome
  import opened FatLookups
  import opened FatFiles
  import opened FatDelete
  import opened FatResolve
  import opened FatNeeds
  import opened FatPaths

  const MAX_READ_COMPONENTS: nat := 8

  // ------------------------------------------------------------- what is read

  /** A component that is not a short name is just not found. */
  function AsRead(e: Error): Error { if e == NameTooLong then NotFound else e }

  ghost function EntryIn(g: Geometry, d: Disk, dir: nat, name: seq<Byte>): Result<Entry>
    requires g.Limit() <= |d.fat| && |d.data| == g.Limit()
  {
    if EncodeShortName(name).None? then Err(NotFound) else Find(g, d, dir, EncodeShortName(name).value)
  }

  /** The entry a path leads a reader to. */
  ghost function EntryAt(g: Geometry, d: Disk, parts: seq<seq<Byte>>): Result<Entry>
    requires g.Limit() <= |d.fat| && |d.data| == g.Limit()
  {
    if PARENT in parts || Significant(parts) == [] || |Significant(parts)| > MAX_READ_COMPONENTS then Err(NotFound)
    else
      match Resolve(g, d, Above(parts), NotFound)
      case Err(e) => Err(AsRead(e))
      case Ok(dir) => EntryIn(g, d, dir, Leaf(parts))
  }

  // -------------------------------------------------------------- the method

  /** The components of a path, or nothing for "..", none at all, or more than eight. */
  method ReadComponents(parts: seq<seq<Byte>>) returns (r: Result<seq<seq<Byte>>>)
    ensures r == if PARENT in parts || Significant(parts) == [] || |Significant(parts)| > MAX_READ_COMPONENTS
                 then Err(NotFound) else Ok(Significant(parts))
  {
    var kept: seq<seq<Byte>> := [];
    for i := 0 to |parts|
      invariant PARENT !in parts[..i] && kept == Significant(parts[..i]) && |kept| <= MAX_READ_COMPONENTS
    {
      assert parts[..i + 1][..i] == parts[..i];
      if Counts(parts[i]) {
        if parts[i] == PARENT || |kept| == MAX_READ_COMPONENTS {
          SignificantGrows(parts, i + 1);
          return Err(NotFound);
        }
        kept := kept + [parts[i]];
      }
    }
    assert parts[..|parts|] == parts;
    return if kept == [] then Err(NotFound) else Ok(kept);
  }

  /** The last component: whatever entry has that name. */
  method ReadLast(v: Volume, dir: nat, name: seq<Byte>, ghost b: Disk) returns (r: Result<Entry>)
    requires v.Valid() && b.fat == v.fat && b.data == v.data
    ensures r == EntryIn(v.g, b, dir, name)
  {
    var encoded := EncodeShortName(name);
    if encoded.None? { return Err(NotFound); }
    r := FindInDirectory(v, dir, encoded.value);
  }

  /** `resolve_path`, on any volume. */
  method ResolvePath(v: Volume, parts: seq<seq<Byte>>, ghost b: Disk) returns (r: Result<Entry>)
    requires v.Valid() && b.fat == v.fat && b.data == v.data
    ensures r == EntryAt(v.g, b, parts)
  {
    var names := ReadComponents(parts);
    if names.Err? { return Err(names.error); }
    var last := |names.value| - 1;
    var dir := FindPath(v, names.value[..last], NotFound, b);
    if dir.Err? { return Err(AsRead(dir.error)); }
    r := ReadLast(v, dir.value, names.value[last], b);
  }

  // ------------------------------------------------- files as readers have them

  /** The bytes an entry stands for. */
  ghost predicate BytesOf(g: Geometry, d: Disk, e: Entry, bytes: seq<Byte>)
    requires g.Limit() <= |d.fat| && |d.data| == g.Limit()
  {
    && |bytes| == e.size
    && (bytes != [] ==>
          && e.firstCluster in d.chains && HasRoom(g, d.fat, d.data, d.chains[e.firstCluster], e.firstCluster, e.size)
          && bytes == Content(d.data, d.chains[e.firstCluster])[..e.size])
  }

  /** A reader who follows the path finds a file of exactly these bytes. */
  ghost predicate FileIs(g: Geometry, d: Disk, parts: seq<seq<Byte>>, bytes: seq<Byte>)
    requires g.Limit() <= |d.fat| && |d.data| == g.Limit()
  {
    match EntryAt(g, d, parts)
    case Err(_) => false
    case Ok(e) => !IsDirectory(e.attributes) && BytesOf(g, d, e, bytes)
  }

  ghost predicate Sized(g: Geometry, d: Disk) {
    forall c {:trigger d.data[c]} :: 2 <= c < |d.data| ==> |d.data[c]| == g.ClusterBytes()
  }

  /** An entry a lookup finds is sound: its chain is one of the volume's. */
  lemma FoundIsSound(g: Geometry, d: Disk, dir: nat, short: ShortName)
    requires Good(g, d) && dir in d.tree.dirs && Proper(short) && Find(g, d, dir, short).Ok?
    ensures var e := Find(g, d, dir, short).value;
            && (e.firstCluster < 2 ==> !IsDirectory(e.attributes) && e.size == 0)
            && (e.firstCluster >= 2 ==> e.firstCluster in d.chains && e.firstCluster in d.tree.caps)
            && (e.firstCluster >= 2 && !IsDirectory(e.attributes) ==> e.size <= d.tree.caps[e.firstCluster])
  {
    var p := SlotFor(d.fat, g.Limit(), d.data, dir, [], short, None);
    SearchAgreesWithLookup(d.fat, g.Limit(), d.data, dir, [], short, None);
    assert d.chains[dir][0] == dir;
    PlanMeaning(d.fat, g.Limit(), d.data, d.chains[dir], short);
    PlanPointsInside(d.fat, g.Limit(), d.data, dir, [], short, None);
    var res := Reservation(p.cluster, p.index, Some(DecodeEntry(SlotAt(d.data[p.cluster], p.index))), None);
    var i, k := StayMove(g, d.fat, d.data, d.chains, d.tree, dir, short, p, res);
    SlotOwner(g.rootCluster, d.tree, dir, d.data, d.chains[dir], short, res, i, k);
    ReadySlot(g, d, dir, short, res, i, k);
  }

  /** A chain of the volume has room for as many bytes as it holds. */
  lemma ChainHasRoom(g: Geometry, d: Disk, h: nat, n: nat)
    requires g.Limit() <= |d.fat| && |d.data| == g.Limit() && Sized(g, d) && ChainsProper(d.fat, g.Limit(), d.chains)
    requires h in d.chains && InData(d.data, d.chains[h]) && n <= |Content(d.data, d.chains[h])|
    ensures HasRoom(g, d.fat, d.data, d.chains[h], h, n)
  {
  }

  lemma StoredBytes(g: Geometry, m: Disk, a: Disk, first: nat, bytes: seq<Byte>, e: Entry)
    requires g.Limit() <= |a.fat| && |a.data| == g.Limit() && Sized(g, a) && ChainsProper(a.fat, g.Limit(), a.chains)
    requires Stored(m, a, first, bytes) && e.firstCluster == first && e.size == |bytes|
    ensures BytesOf(g, a, e, bytes)
  {
    if bytes != [] { ChainHasRoom(g, a, first, |bytes|); }
  }

  /** On a volume that represents a tree, every file entry a path leads to stands for bytes. */
  lemma EveryFileHasBytes(g: Geometry, d: Disk, parts: seq<seq<Byte>>) returns (bytes: seq<Byte>)
    requires Represents(g, d) && Sized(g, d) && EntryAt(g, d, parts).Ok? &&
             !IsDirectory(EntryAt(g, d, parts).value.attributes)
    ensures FileIs(g, d, parts, bytes)
  {
    var e := EntryAt(g, d, parts).value;
    var dir := Resolve(g, d, Above(parts), NotFound).value;
    ResolvesToDirectory(g, d, Above(parts), NotFound);
    FoundIsSound(g, d, dir, EncodeShortName(Leaf(parts)).value);
    if e.size != 0 { ChainHasRoom(g, d, e.firstCluster, e.size); }
    bytes := if e.size == 0 then [] else Content(d.data, d.chains[e.firstCluster])[..e.size];
  }

  /** `read_volume_page`: the range of the file the path leads to, or why there is none. */
  method ReadVolumePage(v: Volume, parts: seq<seq<Byte>>, offset: nat, n: nat, ghost b: Disk)
    returns (r: Result<seq<Byte>>)
    requires v.Valid() && b.fat == v.fat && b.data == v.data
    ensures match EntryAt(v.g, b, parts)
            case Err(e) => r == Err(e)
            case Ok(e) =>
              && (IsDirectory(e.attributes) ==> r == Err(NotFound))
              && forall bytes :: FileIs(v.g, b, parts, bytes) ==> r == Ok(RangeOf(bytes, |bytes|, offset, n))
  {
    var found := ResolvePath(v, parts, b);
    if found.Err? { return Err(found.error); }
    var e := found.value;
    if IsDirectory(e.attributes) { return Err(NotFound); }
    ghost var ch := if e.firstCluster in b.chains then b.chains[e.firstCluster] else [];
    r := ReadFileAt(v, e.firstCluster, e.size, offset, n, ch);
    forall bytes | FileIs(v.g, b, parts, bytes) ensures r == Ok(RangeOf(bytes, |bytes|, offset, n)) {
      if bytes != [] { RangeOfPrefix(Content(v.data, ch), bytes, offset, n); }
    }
  }

  /** The same for a reader who knows what the file holds, if it is one. */
  method ReadKnown(v: Volume, parts: seq<seq<Byte>>, offset: nat, n: nat, ghost b: Disk, ghost known: bool,
                   ghost bytes: seq<Byte>)
    returns (r: Result<seq<Byte>>)
    requires v.Valid() && b.fat == v.fat && b.data == v.data && (known ==> FileIs(v.g, b, parts, bytes))
    ensures known ==> r == Ok(RangeOf(bytes, |bytes|, offset, n))
    ensures EntryAt(v.g, b, parts).Err? ==> r == Err(EntryAt(v.g, b, parts).error)
  {
    r := ReadVolumePage(v, parts, offset, n, b);
  }

  // ------------------------------------------------- what was created is read

  /** While no directory is too long to be read, a path just created leads readers to the new
      entry if and only if it has at most eight components; otherwise they find nothing. */
  lemma CreatedIsReadIff(g: Geometry, m: Disk, a: Disk, parts: seq<seq<Byte>>, bytes: seq<Byte>, dir: nat, first: nat,
                         k: nat)
    requires Represents(g, a) && Readable(a) && FileAt(g, m, a, parts, bytes, dir, first, k)
    ensures var short := EncodeShortName(Leaf(parts)).value;
            EntryAt(g, a, parts) == if |Significant(parts)| <= MAX_READ_COMPONENTS
            then Ok(NewEntry(short, first, |bytes|, false)) else Err(NotFound)
  {
  }

  lemma NewFileIsNoDirectory(short: ShortName, first: nat, n: nat)
    requires first < 0x1_0000_0000 && n <= MAX_FILE_SIZE
    ensures !IsDirectory(NewEntry(short, first, n, false).attributes)
  {
  }

  lemma ReadsEntry(g: Geometry, d: Disk, parts: seq<seq<Byte>>, bytes: seq<Byte>, e: Entry)
    requires g.Limit() <= |d.fat| && |d.data| == g.Limit() && BytesOf(g, d, e, bytes) && !IsDirectory(e.attributes)
    requires EntryAt(g, d, parts) == if |Significant(parts)| <= MAX_READ_COMPONENTS then Ok(e) else Err(NotFound)
    ensures FileIs(g, d, parts, bytes) <==> |Significant(parts)| <= MAX_READ_COMPONENTS
  {
  }

  /** So reads by path give back the bytes written, or nothing at all. */
  lemma CreatedBytesIff(g: Geometry, m: Disk, a: Disk, parts: seq<seq<Byte>>, bytes: seq<Byte>, dir: nat, first: nat,
                        k: nat)
    requires Represents(g, a) && Sized(g, a) && Readable(a) && FileAt(g, m, a, parts, bytes, dir, first, k)
    ensures FileIs(g, a, parts, bytes) <==> |Significant(parts)| <= MAX_READ_COMPONENTS
  {
    var e := NewEntry(EncodeShortName(Leaf(parts)).value, first, |bytes|, false);
    CreatedIsReadIff(g, m, a, parts, bytes, dir, first, k);
    StoredBytes(g, m, a, first, bytes, e);
    NewFileIsNoDirectory(EncodeShortName(Leaf(parts)).value, first, |bytes|);
    ReadsEntry(g, a, parts, bytes, e);
  }

  /** Creating a file and reading a range of it back by the same path. */
  method CreateThenRead(v: Volume, parts: seq<seq<Byte>>, bytes: seq<Byte>, offset: nat, n: nat, ghost b: Disk)
    returns (created: Result<()>, r: Result<seq<Byte>>, ghost a: Disk)
    requires v.Valid() && b.fat == v.fat && b.data == v.data
    modifies v
    ensures v.Valid() && a.fat == v.fat && a.data == v.data
    ensures Represents(v.g, b) && created.Ok? && Readable(a) ==>
              r == if |Significant(parts)| <= MAX_READ_COMPONENTS then Ok(RangeOf(bytes, |bytes|, offset, n))
              else Err(NotFound)
  {
    ghost var m, dir, first, k;
    created, m, a, dir, first, k := CreatePath(v, parts, bytes, b);
    r := ReadVolumePage(v, parts, offset, n, a);
    if Represents(v.g, b) && created.Ok? && Readable(a) {
      CreatedIsReadIff(v.g, m, a, parts, bytes, dir, first, k);
      CreatedBytesIff(v.g, m, a, parts, bytes, dir, first, k);
    }
  }

  // ------------------------------------------------------- paths as strings

  const SLASH: Byte := 0x2f

  /** Position of the first '/', or the length. */
  function SlashAt(s: seq<Byte>): (k: nat)
    ensures k <= |s| && (k < |s| ==> s[k] == SLASH)
    ensures forall i :: 0 <= i < k ==> s[i] != SLASH
  {
    if s == [] || s[0] == SLASH then 0 else 1 + SlashAt(s[1..])
  }

  /** The components between slashes. */
  function SplitPath(s: seq<Byte>): (parts: seq<seq<Byte>>)
    ensures parts != [] && forall p :: p in parts ==> SLASH !in p
    decreases |s|
  {
    var k := SlashAt(s);
    if k == |s| then [s] else [s[..k]] + SplitPath(s[k + 1..])
  }

  function JoinPath(parts: seq<seq<Byte>>): seq<Byte> {
    if parts == [] then [] else if |parts| == 1 then parts[0] else parts[0] + [SLASH] + JoinPath(parts[1..])
  }

  /** Nothing is lost in splitting. */
  lemma {:induction false} SplitThenJoin(s: seq<Byte>)
    ensures JoinPath(SplitPath(s)) == s
    decreases |s|
  {
    var k := SlashAt(s);
    if k < |s| {
      SplitThenJoin(s[k + 1..]);
      assert SplitPath(s)[1..] == SplitPath(s[k + 1..]);
    }
  }

  lemma {:induction false} EmptyFirst(parts: seq<seq<Byte>>)
    ensures Significant([[]] + parts) == Significant(parts)
  {
    var more: seq<seq<Byte>> := [[]] + parts;
    if parts == [] {
      assert more[..0] == [];
    } else {
      var rest := parts[..|parts| - 1];
      EmptyFirst(rest);
      assert more[..|more| - 1] == [[]] + rest;
    }
  }

  /** A leading slash adds an empty component, which does not count. */
  lemma LeadingSlash(s: seq<Byte>)
    ensures Significant(SplitPath([SLASH] + s)) == Significant(SplitPath(s))
  {
    var path := [SLASH] + s;
    assert SlashAt(path) == 0 && path[1..] == s && path[..0] == [];
    EmptyFirst(SplitPath(s));
  }

  // ------------------------------------------------- directories just made

  /** Components that do not count do not matter. */
  lemma {:induction false} ResolveSignificant(g: Geometry, d: Disk, parts: seq<seq<Byte>>, wrongKind: Error)
    requires g.Limit() <= |d.fat| && |d.data| == g.Limit()
    ensures Resolve(g, d, Significant(parts), wrongKind) == Resolve(g, d, parts, wrongKind)
  {
    if parts != [] {
      var rest, last := parts[..|parts| - 1], parts[|parts| - 1];
      ResolveSignificant(g, d, rest, wrongKind);
      if Counts(last) {
        assert Significant(parts)[..|Significant(rest)|] == Significant(rest);
      } else {
        assert Significant(parts) == Significant(rest);
      }
    }
  }

  lemma IntoAlike(g: Geometry, d: Disk, dir: nat, name: seq<Byte>, wrongKind: Error, other: Error)
    requires g.Limit() <= |d.fat| && |d.data| == g.Limit() && Into(g, d, dir, name, wrongKind).Ok?
    ensures name != PARENT && Into(g, d, dir, name, other) == Into(g, d, dir, name, wrongKind)
  {
    assert DotAt(PARENT) == 0;
  }

  /** A path that leads somewhere has no ".." in it, and leads there whatever other failures would be called. */
  lemma {:induction false} ResolveAlike(g: Geometry, d: Disk, parts: seq<seq<Byte>>, wrongKind: Error, other: Error)
    requires g.Limit() <= |d.fat| && |d.data| == g.Limit() && Resolve(g, d, parts, wrongKind).Ok?
    ensures PARENT !in parts && Resolve(g, d, parts, other) == Resolve(g, d, parts, wrongKind)
  {
    if parts != [] {
      var rest, last := parts[..|parts| - 1], parts[|parts| - 1];
      ResolveAlike(g, d, rest, wrongKind, other);
      IntoAlike(g, d, Resolve(g, d, rest, wrongKind).value, last, wrongKind, other);
      assert parts == rest + [last];
    }
  }

  lemma {:induction false} SignificantCount(parts: seq<seq<Byte>>)
    ensures forall i :: 0 <= i < |Significant(parts)| ==> Counts(Significant(parts)[i])
  {
    if parts != [] { SignificantCount(parts[..|parts| - 1]); }
  }

  /** A path just made leads readers to the directory if and only if it has at most eight components. */
  lemma MadeIsReadIff(g: Geometry, a: Disk, parts: seq<seq<Byte>>, dir: nat)
    requires g.Limit() <= |a.fat| && |a.data| == g.Limit() && Readable(a) && Walked(g, a, parts, WriteFailed, dir) &&
             Significant(parts) != []
    ensures EntryAt(g, a, parts).Ok? <==> |Significant(parts)| <= MAX_READ_COMPONENTS
    ensures EntryAt(g, a, parts).Ok? ==> LeadsOn(EntryAt(g, a, parts)) && EntryAt(g, a, parts).value.firstCluster == dir
    ensures EntryAt(g, a, parts).Err? ==> EntryAt(g, a, parts).error == NotFound
  {
    ResolveAlike(g, a, parts, WriteFailed, NotFound);
    ResolveSignificant(g, a, parts, NotFound);
    SignificantCount(parts);
  }

  // ------------------------------------------------- nine components

  function Letter(i: nat): seq<Byte>
    requires i < 26
  {
    [0x61 + i]
  }

  /** "a/b/c/d/e/f/g/h/i". */
  function NinePath(): seq<seq<Byte>> { seq(9, i requires 0 <= i < 9 => Letter(i)) }

  lemma LetterEncodes(i: nat)
    requires i < 26
    ensures Counts(Letter(i)) && Letter(i) != PARENT && EncodeShortName(Letter(i)).Some?
  {
    var s := Letter(i);
    assert s[1..] == [] && DotAt(s[1..]) == 0 && DotAt(s) == 1;
    assert s[..1] == s && ToFatChars(s[1..]) == Some([]);
    assert ToFatChar(s[0]).Some?;
  }

  lemma {:induction false} LettersCount(n: nat)
    requires n <= 9
    ensures Significant(NinePath()[..n]) == NinePath()[..n] && PARENT !in NinePath()[..n]
  {
    if n > 0 {
      LettersCount(n - 1);
      LetterEncodes(n - 1);
      assert NinePath()[..n][..n - 1] == NinePath()[..n - 1] &&
             NinePath()[..n] == NinePath()[..n - 1] + [Letter(n - 1)];
    }
  }

  lemma NineIsNameable()
    ensures Nameable(NinePath()) && Significant(NinePath()) == NinePath() && |Above(NinePath())| == 8
  {
    LettersCount(9);
    assert NinePath()[..9] == NinePath();
    LetterEncodes(8);
  }

  /** Below a fresh directory, letters are made as long as there are clusters. */
  lemma {:induction false} LettersAreMade(i: nat, n: nat, free: nat)
    requires i <= n <= 9 && free >= n - i
    ensures FreshOutcome(NinePath()[i..n], free) == Makes(free - (n - i))
    decreases n - i
  {
    if i < n {
      LetterEncodes(i);
      assert NinePath()[i..n][1..] == NinePath()[i + 1..n];
      LettersAreMade(i + 1, n, free - 1);
    }
  }

  /** In an empty directory of one cluster every name is missing and has the first slot. */
  lemma EmptyPlan(g: Geometry, d: Disk, dir: nat, short: ShortName)
    requires g.Limit() <= |d.fat| && |d.data| == g.Limit() && 2 <= dir < g.Limit() && g.ClusterBytes() >= 32
    requires LinkOf(d.fat, g.Limit(), dir) == End && d.data[dir] == Zeros(g.ClusterBytes())
    ensures SlotFor(d.fat, g.Limit(), d.data, dir, [], short, None) == Vacant(dir, 0) &&
            Find(g, d, dir, short) == Err(NotFound)
  {
    assert SlotAt(d.data[dir], 0)[0] == 0;
    assert ScanFor(d.data[dir], short, 0) == EndAt(0);
  }

  /** Where the first component is missing and has a vacant slot, making the path begins there. */
  lemma FirstIsMade(g: Geometry, d: Disk, names: seq<seq<Byte>>, short: ShortName)
    requires g.Limit() <= |d.fat| && |d.data| == g.Limit() && names != [] && Counts(names[0]) &&
             EncodeShortName(names[0]) == Some(short)
    requires Find(g, d, g.rootCluster, short) == Err(NotFound) && CountFree(d.fat, g.Limit()) > 0
    requires SlotFor(d.fat, g.Limit(), d.data, g.rootCluster, [], short, None).Vacant?
    ensures MakeOutcome(g, d, g.rootCluster, names, NotFound) ==
            FreshOutcome(names[1..], CountFree(d.fat, g.Limit()) - 1)
  {
  }

  /** On a freshly formatted volume the directories of that path can be made, given eight clusters. */
  lemma NineIsMade(g: Geometry, b: Disk)
    requires g.Limit() <= |b.fat| && |b.data| == g.Limit() && 2 <= g.rootCluster < g.Limit() && g.ClusterBytes() >= 32
    requires LinkOf(b.fat, g.Limit(), g.rootCluster) == End && b.data[g.rootCluster] == Zeros(g.ClusterBytes())
    requires CountFree(b.fat, g.Limit()) >= 8
    ensures MakeOutcome(g, b, g.rootCluster, NinePath()[..8], NotFound) == Makes(CountFree(b.fat, g.Limit()) - 8)
  {
    LetterEncodes(0);
    var names, short := NinePath()[..8], EncodeShortName(Letter(0)).value;
    EmptyPlan(g, b, g.rootCluster, short);
    assert names[1..] == NinePath()[1..8];
    LettersAreMade(1, 8, CountFree(b.fat, g.Limit()) - 1);
    FirstIsMade(g, b, names, short);
  }

  lemma MakesIsFeasible(g: Geometry, b: Disk, parts: seq<seq<Byte>>, size: nat, free: nat)
    requires g.Limit() <= |b.fat| && |b.data| == g.Limit() && g.ClusterBytes() > 0 && Nameable(parts)
    requires MakeOutcome(g, b, g.rootCluster, Above(parts), NotFound) == Makes(free) && size <= MAX_FILE_SIZE &&
             free >= Needed(g, size)
    ensures PathRefusal(g, b, parts, size).None?
  {
  }

  /** So the file can be created, given room for the bytes. */
  lemma NineIsFeasible(g: Geometry, b: Disk, size: nat)
    requires g.Limit() <= |b.fat| && |b.data| == g.Limit() && 2 <= g.rootCluster < g.Limit() && g.ClusterBytes() >= 32
    requires LinkOf(b.fat, g.Limit(), g.rootCluster) == End && b.data[g.rootCluster] == Zeros(g.ClusterBytes())
    requires size <= MAX_FILE_SIZE && CountFree(b.fat, g.Limit()) >= 8 + Needed(g, size)
    ensures PathRefusal(g, b, NinePath(), size).None?
  {
    NineIsNameable();
    NineIsMade(g, b);
    MakesIsFeasible(g, b, NinePath(), size, CountFree(b.fat, g.Limit()) - 8);
  }

  /** Creating it there succeeds, the file is there, and reading it back by the same path finds nothing. */
  method NineIsLost(v: Volume, bytes: seq<Byte>, offset: nat, n: nat, ghost b: Disk)
    returns (created: Result<()>, r: Result<seq<Byte>>, ghost a: Disk)
    requires v.Valid() && b.fat == v.fat && b.data == v.data && Represents(v.g, b) && !exists t :: v.faults(t)
    requires LinkOf(v.fat, v.g.Limit(), v.g.rootCluster) == End && v.data[v.g.rootCluster] == Zeros(v.g.ClusterBytes())
    requires |bytes| <= MAX_FILE_SIZE && CountFree(v.fat, v.g.Limit()) >= 8 + Needed(v.g, |bytes|)
    modifies v
    ensures v.Valid() && a.fat == v.fat && a.data == v.data && Represents(v.g, a)
    ensures created.Ok? && r == Err(NotFound)
    ensures exists m, dir, first, k :: FileAt(v.g, m, a, NinePath(), bytes, dir, first, k)
  {
    NineIsNameable();
    NineIsFeasible(v.g, b, |bytes|);
    ghost var m, dir, first, k;
    created, m, a, dir, first, k := CreatePath(v, NinePath(), bytes, b);
    r := ReadVolumePage(v, NinePath(), offset, n, a);
  }
}
