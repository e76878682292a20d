/** What a rename means to readers, when a directory can be cut off, and runs with renames in them. */
module FatRenameRuns {
  import opened Bytes
  import opened FatChain
  import opened FatVolume
  import opened FatAlloc
  import opened FatFile
  import opened FatDirectory
  import opened FatTree
  import opened FatPlan
  import opened FatCreate
  import opened FatOutcome
  import opened FatLookups
  import opened FatFiles
  import opened FatDelete
  import opened FatMkdir
  import opened FatResolve
  import opened FatNeeds
  import opened FatReach
  import opened FatPaths
  import opened FatRead
  import opened FatRename
  import opened FatRenameSteps
  import opened FatRenamePaths

  // ------------------------------------------------- lookups after a rename

  lemma ProperIsNoDot(name: ShortName)
    requires Proper(name)
    ensures name != DOT && name != DOT_DOT
  {
    assert DOT[0] == 0x2e && DOT_DOT[0] == 0x2e;
  }

  /** The one entry of a name comes first. */
  lemma EntryIsFirst(content: seq<Byte>, k: nat, name: ShortName)
    requires UniqueNames(content) && EndTail(content) && OwnerSlot(content, k) && SlotAt(content, k)[..11] == name &&
             Proper(name)
    ensures IsFirst(content, name, k)
  {
    ProperIsNoDot(name);
    forall m | 0 <= m < k ensures SlotAt(content, m)[0] != 0 &&
        (Skipped(SlotAt(content, m)) || SlotAt(content, m)[..11] != name) {
      assert LiveNamed(SlotAt(content, m), name) ==> OwnerSlot(content, m);
    }
  }

  /** A directory that lookups read to its end. */
  ghost predicate ReadOut(d: Disk, dir: nat) {
    dir in d.tree.dirs && dir in d.chains && |d.chains[dir]| <= MAX_DIRECTORY_CLUSTERS
  }

  /** In a directory that lookups read to its end, an entry is found under its name. */
  lemma EntryFound(g: Geometry, d: Disk, dir: nat, k: nat, name: ShortName)
    requires Represents(g, d) && HasEntry(d.tree, dir, k) && ReadOut(d, dir)
    requires SlotAt(d.tree.dirs[dir], k)[..11] == name && Proper(name)
    ensures Find(g, d, dir, name) == FoundEntry(SlotAt(d.tree.dirs[dir], k))
  {
    FindShort(g, d, dir, name);
    EntryIsFirst(d.tree.dirs[dir], k, name);
    VerdictFirst(d.tree.dirs[dir], name, k);
  }

  ghost predicate Named(t: Tree, dir: nat, k: nat, name: ShortName) {
    HasEntry(t, dir, k) && SlotAt(t.dirs[dir], k)[..11] == name
  }

  /** A directory has an entry of that name. */
  ghost predicate Has(t: Tree, dir: nat, name: ShortName) {
    exists k :: Named(t, dir, k, name)
  }

  lemma FoundIsNamed(t: Tree, dir: nat, name: ShortName)
    requires dir in t.dirs && Proper(name) && ScanFor(t.dirs[dir], name, 0).Found?
    ensures Has(t, dir, name)
  {
    ScanMeaning(t.dirs[dir], name, 0);
    ProperIsNoDot(name);
    assert Named(t, dir, ScanFor(t.dirs[dir], name, 0).k, name);
  }

  /** And no other name is found. */
  lemma NoEntryFound(g: Geometry, d: Disk, dir: nat, name: ShortName)
    requires Represents(g, d) && ReadOut(d, dir) && Proper(name) && !Has(d.tree, dir, name)
    ensures Find(g, d, dir, name) == Err(NotFound)
  {
    FindShort(g, d, dir, name);
    if ScanFor(d.tree.dirs[dir], name, 0).Found? { FoundIsNamed(d.tree, dir, name); }
  }

  /** What a lookup answers once the entry is renamed. */
  ghost function After(g: Geometry, b: Disk, od: nat, old': ShortName, nd: nat, new': ShortName, s: Slot, d: nat,
                       name: ShortName): Result<Entry>
    requires g.Limit() <= |b.fat| && |b.data| == g.Limit()
  {
    if d == nd && name == new' then FoundEntry(Renamed(s, new'))
    else if d == od && name == old' then Err(NotFound)
    else Find(g, b, d, name)
  }

  lemma UniqueNamed(t: Tree, d: nat, k: nat, m: nat, name: ShortName)
    requires Unambiguous(t) && Named(t, d, k, name) && Named(t, d, m, name)
    ensures k == m
  {
    assert OwnerSlot(t.dirs[d], k) && OwnerSlot(t.dirs[d], m);
  }

  /** Of any name but the new one, there are the entries that were there before, without the renamed one. */
  lemma OthersStayNamed(b: Tree, a: Tree, od: nat, k1: nat, nd: nat, k2: nat, new': ShortName, d: nat, name: ShortName)
    requires Relabelled(b, a, od, k1, nd, k2, new') && !(d == nd && name == new')
    ensures forall k :: Named(a, d, k, name) <==> Named(b, d, k, name) && !(d == od && k == k1)
    ensures forall k :: Named(a, d, k, name) ==> SlotAt(a.dirs[d], k) == SlotAt(b.dirs[d], k)
  {
    assert Renamed(SlotAt(b.dirs[od], k1), new')[..11] == new';
    forall k
      ensures Named(a, d, k, name) <==> Named(b, d, k, name) && !(d == od && k == k1)
      ensures Named(a, d, k, name) ==> SlotAt(a.dirs[d], k) == SlotAt(b.dirs[d], k)
    {
      assert HasEntry(a, d, k) || !HasEntry(a, d, k);
    }
  }

  lemma OldNameGone(b: Tree, a: Tree, od: nat, k1: nat, nd: nat, k2: nat, new': ShortName)
    requires Relabelled(b, a, od, k1, nd, k2, new') && Unambiguous(b) &&
             !(od == nd && SlotAt(b.dirs[od], k1)[..11] == new')
    ensures !Has(a, od, SlotAt(b.dirs[od], k1)[..11])
  {
    var name := SlotAt(b.dirs[od], k1)[..11];
    OthersStayNamed(b, a, od, k1, nd, k2, new', od, name);
    forall k | Named(b, od, k, name) ensures k == k1 { UniqueNamed(b, od, k, k1, name); }
  }

  ghost predicate SameNamed(b: Tree, a: Tree, d: nat, name: ShortName) {
    forall k {:trigger Named(a, d, k, name)} ::
      (Named(a, d, k, name) <==> Named(b, d, k, name)) &&
      (Named(a, d, k, name) ==> SlotAt(a.dirs[d], k) == SlotAt(b.dirs[d], k))
  }

  /** What the tree answers. */
  ghost predicate Answers(t: Tree, dir: nat, name: ShortName, r: Result<Entry>) {
    if Has(t, dir, name) then exists k :: Named(t, dir, k, name) && r == FoundEntry(SlotAt(t.dirs[dir], k))
        else r == Err(NotFound)
  }

  lemma FindAnswers(g: Geometry, d: Disk, dir: nat, name: ShortName)
    requires Represents(g, d) && ReadOut(d, dir) && Proper(name)
    ensures Answers(d.tree, dir, name, Find(g, d, dir, name))
    ensures UniqueNames(d.tree.dirs[dir])
  {
    if Has(d.tree, dir, name) {
      var k :| Named(d.tree, dir, k, name);
      EntryFound(g, d, dir, k, name);
    } else {
      NoEntryFound(g, d, dir, name);
    }
  }

  lemma SameAnswers(b: Tree, a: Tree, d: nat, name: ShortName)
    requires d in b.dirs && UniqueNames(b.dirs[d]) && SameNamed(b, a, d, name)
    ensures forall r, r' :: Answers(b, d, name, r) && Answers(a, d, name, r') ==> r == r'
  {
    if Has(b, d, name) {
      var k :| Named(b, d, k, name);
      assert Named(a, d, k, name);
      forall m | Named(b, d, m, name) ensures m == k {
        assert OwnerSlot(b.dirs[d], k) && OwnerSlot(b.dirs[d], m);
      }
    }
  }

  /** Where the entries of a name are the same, lookups of it answer the same. */
  lemma SameFound(g: Geometry, b: Disk, a: Disk, d: nat, name: ShortName)
    requires Represents(g, b) && Represents(g, a) && ReadOut(b, d) && ReadOut(a, d) && Proper(name) &&
             SameNamed(b.tree, a.tree, d, name)
    ensures Find(g, a, d, name) == Find(g, b, d, name)
  {
    FindAnswers(g, a, d, name);
    FindAnswers(g, b, d, name);
    SameAnswers(b.tree, a.tree, d, name);
  }

  /** The new name leads to the entry, the old one to nothing, and every other name, in every directory, to what it led
      to. */
  lemma RenamedLookup(g: Geometry, b: Disk, a: Disk, od: nat, k1: nat, nd: nat, k2: nat, new': ShortName, d: nat,
                      name: ShortName)
    requires Represents(g, b) && Represents(g, a) && Relabelled(b.tree, a.tree, od, k1, nd, k2, new')
    requires ReadOut(b, d) && ReadOut(a, d) && Proper(name) && Proper(new')
    ensures var s := SlotAt(b.tree.dirs[od], k1); Find(g, a, d, name) == After(g, b, od, s[..11], nd, new', s, d, name)
  {
    var s := SlotAt(b.tree.dirs[od], k1);
    if d == nd && name == new' {
      assert Renamed(s, new')[..11] == new';
      EntryFound(g, a, nd, k2, new');
    } else {
      OthersStayNamed(b.tree, a.tree, od, k1, nd, k2, new', d, name);
      if d == od && name == s[..11] {
        OldNameGone(b.tree, a.tree, od, k1, nd, k2, new');
        NoEntryFound(g, a, d, name);
      } else {
        SameFound(g, b, a, d, name);
      }
    }
  }

  // ---------------------------------------------------- spelling of paths

  lemma SplitFirst(s: seq<Byte>, k: nat, rest: seq<Byte>)
    requires k == SlashAt(s) < |s| && rest == s[k + 1..]
    ensures SplitPath(s) == [s[..k]] + SplitPath(rest)
  {
  }

  lemma JoinsAlike(a: seq<seq<Byte>>, b: seq<seq<Byte>>, c: seq<seq<Byte>>)
    ensures a + (b + c) == (a + b) + c
  {
  }

  lemma {:induction false} SlashInAppend(s: seq<Byte>, t: seq<Byte>)
    ensures SlashAt(s + [SLASH] + t) == SlashAt(s)
    decreases |s|
  {
    var st := s + [SLASH] + t;
    if s != [] && s[0] != SLASH {
      assert st[1..] == s[1..] + [SLASH] + t;
      SlashInAppend(s[1..], t);
    }
  }

  lemma {:induction false} SplitAppend(s: seq<Byte>, t: seq<Byte>)
    ensures SplitPath(s + [SLASH] + t) == SplitPath(s) + SplitPath(t)
    decreases |s|
  {
    var st := s + [SLASH] + t;
    SlashInAppend(s, t);
    var k := SlashAt(s);
    if k == |s| {
      assert st[..k] == s;
      SplitFirst(st, k, t);
    } else {
      var rest := s[k + 1..];
      assert st[..k] == s[..k];
      SplitFirst(s, k, rest);
      SplitFirst(st, k, rest + [SLASH] + t);
      SplitAppend(rest, t);
      JoinsAlike([s[..k]], SplitPath(rest), SplitPath(t));
    }
  }

  lemma {:induction false} JoinAppend(a: seq<seq<Byte>>, b: seq<seq<Byte>>)
    requires a != [] && b != []
    ensures JoinPath(a + b) == JoinPath(a) + [SLASH] + JoinPath(b)
  {
    if |a| == 1 {
      assert (a + b)[1..] == b;
    } else {
      assert (a + b)[1..] == a[1..] + b;
      JoinAppend(a[1..], b);
    }
  }

  lemma DescendsSplits(o: seq<Byte>, n: seq<Byte>)
    requires Descends(o, n)
    ensures SplitPath(o) < SplitPath(n)
  {
    var rest := n[|o| + 1..];
    assert n == o + [SLASH] + rest;
    SplitAppend(o, rest);
  }

  lemma SplitsDescend(o: seq<Byte>, n: seq<Byte>)
    requires o != [] && SplitPath(o) < SplitPath(n)
    ensures Descends(o, n)
  {
    var rest := SplitPath(n)[|SplitPath(o)|..];
    assert SplitPath(n) == SplitPath(o) + rest;
    SplitThenJoin(o);
    SplitThenJoin(n);
    JoinAppend(SplitPath(o), rest);
  }

  /** The byte check says exactly that the components of one path begin those of the other. */
  lemma DescendsIff(o: seq<Byte>, n: seq<Byte>)
    requires o != []
    ensures Descends(o, n) <==> SplitPath(o) < SplitPath(n)
  {
    if Descends(o, n) { DescendsSplits(o, n); }
    if SplitPath(o) < SplitPath(n) { SplitsDescend(o, n); }
  }

  /** No component is empty or ".". */
  ghost predicate Plain(s: seq<Byte>) { AllCount(SplitPath(s)) }

  /** Components that are held alike are spelled alike: letters in one case only. */
  ghost predicate SpelledAlike(o: seq<Byte>, n: seq<Byte>) {
    var names, longer := SplitPath(o), SplitPath(n);
    forall i {:trigger names[i]} ::
      0 <= i < |names| && i < |longer| && EncodeShortName(names[i]) == EncodeShortName(longer[i]) ==>
        names[i] == longer[i]
  }

  lemma {:induction false} AllSignificant(parts: seq<seq<Byte>>)
    requires AllCount(parts)
    ensures Significant(parts) == parts
  {
    if parts != [] {
      var rest := parts[..|parts| - 1];
      forall i | 0 <= i < |rest| ensures Counts(rest[i]) { assert rest[i] == parts[i]; }
      AllSignificant(rest);
      assert parts == rest + [parts[|parts| - 1]];
    }
  }

  lemma AlikePrefix(names: seq<seq<Byte>>, longer: seq<seq<Byte>>)
    requires longer != []
    requires forall i {:trigger names[i]} ::
               0 <= i < |names| && i < |longer| && EncodeShortName(names[i]) == EncodeShortName(longer[i]) ==>
                 names[i] == longer[i]
    ensures Shorts(names) <= Shorts(longer[..|longer| - 1]) <==> names < longer
  {
    var above := longer[..|longer| - 1];
    if Shorts(names) <= Shorts(above) {
      assert |Shorts(names)| == |names| && |Shorts(above)| == |above|;
      forall i | 0 <= i < |names| ensures names[i] == longer[i] {
        assert Shorts(names)[i] == Shorts(above)[i];
      }
    }
    if names < longer { ShortsPrefix(names, above); }
  }

  /** Where names that are held alike are spelled alike, the byte check refuses exactly the renames that would put a
      directory below itself. */
  lemma ByteCheckIsExact(o: seq<Byte>, n: seq<Byte>)
    requires o != [] && Plain(o) && Plain(n) && SpelledAlike(o, n)
    ensures Descends(o, n) <==> BelowItself(o, n)
  {
    DescendsIff(o, n);
    AllSignificant(SplitPath(o));
    AllSignificant(SplitPath(n));
    AlikePrefix(SplitPath(o), SplitPath(n));
  }

  lemma PassedByteCheck(g: Geometry, b: Disk, o: seq<Byte>, n: seq<Byte>)
    requires g.Limit() <= |b.fat| && |b.data| == g.Limit() && OldEntry(g, b, o, n).Ok? &&
             IsDirectory(OldEntry(g, b, o, n).value.1.entry.attributes)
    ensures o != [] && !Descends(o, n)
  {
  }

  /** So there, a rename that goes through leaves every directory below the root. */
  lemma SameCaseStaysRooted(g: Geometry, b: Disk, a: Disk, o: seq<Byte>, n: seq<Byte>, k1: nat, k2: nat)
    requires g.Limit() <= |b.fat| && |b.data| == g.Limit() && PathRenamed(g, b, a, o, n, k1, k2) &&
             Rooted(g.rootCluster, b.tree)
    requires Plain(o) && Plain(n) && SpelledAlike(o, n)
    ensures Rooted(g.rootCluster, a.tree)
  {
    if IsDirectory(OldEntry(g, b, o, n).value.1.entry.attributes) {
      PassedByteCheck(g, b, o, n);
      ByteCheckIsExact(o, n);
    }
  }

  // ----------------------------------------------- letters in the other case

  /** A component that a directory can hold. */
  ghost predicate Word(p: seq<Byte>) { SLASH !in p && Counts(p) && p != PARENT && EncodeShortName(p).Some? }

  lemma {:induction false} NoSlash(p: seq<Byte>)
    requires SLASH !in p
    ensures SlashAt(p) == |p| && SplitPath(p) == [p]
  {
    if p != [] { NoSlash(p[1..]); }
  }

  lemma OneWord(p: seq<Byte>)
    requires Word(p)
    ensures SplitPath(p) == [p] && Nameable([p]) && Above([p]) == [] && Leaf([p]) == p && Significant([p]) == [p] &&
            Trim(p) == p
  {
    NoSlash(p);
    assert [p][..0] == [];
  }

  lemma TwoWords(q: seq<Byte>, r: seq<Byte>)
    requires Word(q) && Word(r)
    ensures var n := q + [SLASH] + r;
            SplitPath(n) == [q, r] && Nameable([q, r]) && Above([q, r]) == [q] && Leaf([q, r]) == r && Trim(n) == n
  {
    NoSlash(q);
    NoSlash(r);
    SplitAppend(q, r);
    OneWord(q);
    assert [q, r][..1] == [q];
  }

  /** Two spellings of one name: the byte check does not see what lies below the one as below the other. */
  lemma SpellingSlipsThrough(p: seq<Byte>, q: seq<Byte>, r: seq<Byte>)
    requires Word(p) && Word(q) && Word(r) && p != q && EncodeShortName(p) == EncodeShortName(q)
    ensures !Descends(p, q + [SLASH] + r) && BelowItself(p, q + [SLASH] + r)
  {
    OneWord(p);
    TwoWords(q, r);
    DescendsIff(p, q + [SLASH] + r);
    assert [p][0] == p && [q, r][0] == q;
    assert Shorts([p]) == Shorts([q]);
  }

  lemma OneLetter(c: Byte)
    requires 0x41 <= c <= 0x5a || 0x61 <= c <= 0x7a
    ensures Word([c]) && EncodeShortName([c]).value == [ToFatChar(c).value] + seq(10, _ => 0x20)
  {
    var s: seq<Byte> := [c];
    assert s[1..] == [] && DotAt(s[1..]) == 0 && DotAt(s) == 1;
    assert s[..1] == s && ToFatChars(s[1..]) == Some([]) && ToFatChars(s).Some?;
  }

  /** So it is with "a" and "A/B". */
  lemma CaseSlipsThrough()
    ensures !Descends([0x61], [0x41] + [SLASH] + [0x42]) && BelowItself([0x61], [0x41] + [SLASH] + [0x42])
  {
    OneLetter(0x61);
    OneLetter(0x41);
    OneLetter(0x42);
    assert EncodeShortName([0x61]).value == EncodeShortName([0x41]).value;
    SpellingSlipsThrough([0x61], [0x41], [0x42]);
  }

  /** The directory `q` of the root, as `create_directory_in` leaves it. */
  ghost predicate JustMade(g: Geometry, m: Disk, short: ShortName, x: nat)
    requires g.Limit() <= |m.fat| && |m.data| == g.Limit()
  {
    && Find(g, m, g.rootCluster, short) == Ok(NewEntry(short, x, 0, true)) && FreshDir(g, m, x) &&
       DotDotAt(m.data[x], 1)
  }

  lemma FoundIsLocated(g: Geometry, d: Disk, dir: nat, short: ShortName)
    requires g.Limit() <= |d.fat| && |d.data| == g.Limit() && Find(g, d, dir, short).Ok? &&
             Find(g, d, dir, short).value.firstCluster >= 2
    ensures LocatedBy(d.data, SlotFor(d.fat, g.Limit(), d.data, dir, [], short, None)).Ok?
    ensures LocatedBy(d.data, SlotFor(d.fat, g.Limit(), d.data, dir, [], short, None)).value.entry ==
            Find(g, d, dir, short).value
  {
    SearchAgreesWithLookup(d.fat, g.Limit(), d.data, dir, [], short, None);
  }

  /** Under its other spelling the directory is found. */
  lemma OtherIsFound(g: Geometry, m: Disk, p: seq<Byte>, n: seq<Byte>, x: nat)
    requires g.Limit() <= |m.fat| && |m.data| == g.Limit() && Word(p) && JustMade(g, m, EncodeShortName(p).value, x) &&
             n != [] && !Descends(p, n)
    ensures OldEntry(g, m, p, n).Ok? && OldEntry(g, m, p, n).value.0 == g.rootCluster
    ensures OldEntry(g, m, p, n).value.1.entry == NewEntry(EncodeShortName(p).value, x, 0, true)
  {
    OneWord(p);
    FoundIsLocated(g, m, g.rootCluster, EncodeShortName(p).value);
  }

  lemma LeadsThere(g: Geometry, m: Disk, q: seq<Byte>, r: seq<Byte>, x: nat)
    requires g.Limit() <= |m.fat| && |m.data| == g.Limit() && Word(q) && Word(r) &&
             JustMade(g, m, EncodeShortName(q).value, x)
    ensures NewParent(g, m, q + [SLASH] + r) == Ok(x)
  {
    TwoWords(q, r);
    assert [q][..0] == [];
    assert Resolve(g, m, [], NotFound) == Ok(g.rootCluster);
  }

  lemma FreeToMove(g: Geometry, m: Disk, at: Located, x: nat, new': ShortName)
    requires g.Limit() <= |m.fat| && |m.data| == g.Limit() && at.entry.firstCluster == x && x < |m.data| &&
             DotDotAt(m.data[x], 1)
    requires SlotFor(m.fat, g.Limit(), m.data, x, [], new', None) == Vacant(x, 2)
    ensures MoveRefusal(g, m, at, x, new') == None
  {
  }

  /** Nothing refuses to put it below itself. */
  lemma NothingRefuses(g: Geometry, m: Disk, p: seq<Byte>, q: seq<Byte>, r: seq<Byte>, x: nat)
    requires g.Limit() <= |m.fat| && |m.data| == g.Limit() && Word(p) && Word(q) && Word(r) && p != q &&
             EncodeShortName(p) == EncodeShortName(q)
    requires JustMade(g, m, EncodeShortName(p).value, x)
    ensures RenamePathRefusal(g, m, p, q + [SLASH] + r) == None
  {
    var n := q + [SLASH] + r;
    SpellingSlipsThrough(p, q, r);
    OtherIsFound(g, m, p, n, x);
    LeadsThere(g, m, q, r, x);
    FreshPlan(g, m, x, EncodeShortName(r).value);
    TwoWords(q, r);
    FreeToMove(g, m, OldEntry(g, m, p, n).value.1, x, EncodeShortName(r).value);
  }

  lemma HeldWhole(g: Geometry, m: Disk, x: nat)
    requires Good(g, m) && x in m.tree.dirs && |m.tree.dirs[x]| == g.ClusterBytes()
    requires forall c :: 2 <= c < |m.data| ==> |m.data[c]| == g.ClusterBytes()
    ensures x < |m.data| && m.data[x] == m.tree.dirs[x]
  {
    GoodDirectory(g, m, x);
    OneCluster(g, m.data, m.chains[x]);
  }

  lemma DotsInside(g: Geometry, x: nat, parent: nat)
    requires x < 0x1_0000_0000 && parent < 0x1_0000_0000 && g.sectorsPerCluster >= 1
    ensures |DotContent(g, x, parent)| == g.ClusterBytes() && DotDotAt(DotContent(g, x, parent), 1)
  {
    var content := DotContent(g, x, parent);
    DotSlots(g, x, parent, 0);
    DotSlots(g, x, parent, 1);
    assert SlotAt(content, 1)[..11] == DecodeEntry(SlotAt(content, 1)).name &&
           SlotAt(content, 0)[..11] == DecodeEntry(SlotAt(content, 0)).name;
    assert DOT[1] != DOT_DOT[1];
  }

  lemma MadeIsJustMade(g: Geometry, b: Disk, m: Disk, short: ShortName, x: nat, k: nat)
    requires g.Limit() <= |b.fat| && |b.data| == g.Limit() && x < 0x1_0000_0000 && g.rootCluster < 0x1_0000_0000 &&
             g.sectorsPerCluster >= 1
    requires Created(g, b, m, g.rootCluster, short, DotContent(g, x, g.rootCluster), x, true, k)
    requires forall c :: 2 <= c < |m.data| ==> |m.data[c]| == g.ClusterBytes()
    requires Find(g, m, g.rootCluster, short) == Ok(NewEntry(short, x, 0, true))
    ensures JustMade(g, m, short, x)
  {
    var content := DotContent(g, x, g.rootCluster);
    MadeFresh(g, b, m, g.rootCluster, short, x, k);
    MadeContent(b.tree, m.tree, g.rootCluster, k, NewSlot(short, x, |content|, true), x, content);
    HeldWhole(g, m, x);
    DotsInside(g, x, g.rootCluster);
  }

  /** Directory `x` was made in the root. */
  ghost predicate MadeFirst(g: Geometry, b: Disk, m: Disk, short: ShortName, x: nat, k: nat) {
    && Represents(g, b) && Represents(g, m) && Proper(short) && x < 0x1_0000_0000 && g.rootCluster < 0x1_0000_0000
    && g.sectorsPerCluster >= 1 && (forall c :: 2 <= c < |m.data| ==> |m.data[c]| == g.ClusterBytes())
    && SlotFor(b.fat, g.Limit(), b.data, g.rootCluster, [], short, None).Vacant?
    && Created(g, b, m, g.rootCluster, short, DotContent(g, x, g.rootCluster), x, true, k)
    && g.rootCluster in m.chains && LookupsAfter(g, b, m, g.rootCluster, short, NewEntry(short, x, 0, true),
       Hidden(g, b, g.rootCluster, short))
  }

  lemma FirstMade(g: Geometry, b: Disk, m: Disk, short: ShortName, x: nat, k: nat)
    ensures MadeFirst(g, b, m, short, x, k) && Rooted(g.rootCluster, b.tree) ==>
              Rooted(g.rootCluster, m.tree) && JustMade(g, m, short, x)
  {
    if MadeFirst(g, b, m, short, x, k) {
      MadeIsJustMade(g, b, m, short, x, k);
      MadeRooted(g, b, m, g.rootCluster, short, x, k);
    }
  }

  lemma NotRefused(g: Geometry, fat: Fat, data: Clusters, parent: nat, short: ShortName)
    requires g.Limit() <= |fat| && |data| == g.Limit() && CountFree(fat, g.Limit()) >= 1
    requires SlotFor(fat, g.Limit(), data, parent, [], short, None).Vacant?
    ensures MakeRefusal(g, fat, data, parent, short) == None
  {
  }

  method MakeFirst(v: Volume, q: seq<Byte>, ghost b: Disk) returns (made: Result<nat>, ghost m: Disk, ghost k: nat)
    requires v.Valid() && b.fat == v.fat && b.data == v.data && Represents(v.g, b) && Word(q) &&
             !exists t :: v.faults(t)
    requires Find(v.g, b, v.g.rootCluster, EncodeShortName(q).value) == Err(NotFound)
    requires SlotFor(v.fat, v.g.Limit(), v.data, v.g.rootCluster, [], EncodeShortName(q).value, None).Vacant?
    requires MakeRefusal(v.g, v.fat, v.data, v.g.rootCluster, EncodeShortName(q).value) == None
    modifies v
    ensures v.Valid() && m.fat == v.fat && m.data == v.data && made.Ok? &&
            MadeFirst(v.g, b, m, EncodeShortName(q).value, made.value, k)
  {
    ghost var isNew;
    made, m, isNew, k := MakeDirectory(v, v.g.rootCluster, q, b);
  }

  method MoveBelow(v: Volume, p: seq<Byte>, q: seq<Byte>, r: seq<Byte>, x: nat, ghost m: Disk)
    returns (moved: Result<()>, ghost a: Disk)
    requires v.Valid() && m.fat == v.fat && m.data == v.data && Represents(v.g, m) && Rooted(v.g.rootCluster, m.tree) &&
             !exists t :: v.faults(t)
    requires Word(p) && Word(q) && Word(r) && p != q && EncodeShortName(p) == EncodeShortName(q) &&
             JustMade(v.g, m, EncodeShortName(p).value, x)
    modifies v
    ensures v.Valid() && a.fat == v.fat && a.data == v.data && Represents(v.g, a) && moved.Ok? &&
            !Rooted(v.g.rootCluster, a.tree)
  {
    var n := q + [SLASH] + r;
    NothingRefuses(v.g, m, p, q, r, x);
    SpellingSlipsThrough(p, q, r);
    OtherIsFound(v.g, m, p, n, x);
    OneWord(p);
    TwoWords(q, r);
    ghost var k1, k2, stuck;
    moved, a, k1, k2, stuck := RenamePath(v, p, n, m);
  }

  /** On a freshly formatted volume, whose device accepts every write: make a directory `q`, then rename it, by another
      spelling `p` of its name, to `r` in `q`. Both succeed, and the directory hangs from the root no more. */
  method CutOffBySpelling(v: Volume, p: seq<Byte>, q: seq<Byte>, r: seq<Byte>, ghost b: Disk)
    returns (made: Result<nat>, moved: Result<()>, ghost a: Disk)
    requires v.Valid() && b.fat == v.fat && b.data == v.data && Represents(v.g, b) && Rooted(v.g.rootCluster, b.tree) &&
             !exists t :: v.faults(t)
    requires LinkOf(v.fat, v.g.Limit(), v.g.rootCluster) == End && v.data[v.g.rootCluster] == Zeros(v.g.ClusterBytes())
    requires CountFree(v.fat, v.g.Limit()) >= 1
    requires Word(p) && Word(q) && Word(r) && p != q && EncodeShortName(p) == EncodeShortName(q)
    modifies v
    ensures v.Valid() && a.fat == v.fat && a.data == v.data && Represents(v.g, a)
    ensures made.Ok? && moved.Ok? && !Rooted(v.g.rootCluster, a.tree)
  {
    ghost var m, k;
    EmptyPlan(v.g, b, v.g.rootCluster, EncodeShortName(q).value);
    NotRefused(v.g, v.fat, v.data, v.g.rootCluster, EncodeShortName(q).value);
    made, m, k := MakeFirst(v, q, b);
    FirstMade(v.g, b, m, EncodeShortName(q).value, made.value, k);
    moved, a := MoveBelow(v, p, q, r, made.value, m);
  }

  // --------------------------------------------------- runs with renames

  lemma SameEdges(t: Tree, t': Tree)
    requires SameEntries(t, t')
    ensures EdgesKept(t, t')
  {
    forall d, x | Edge(t, d, x) ensures Edge(t', d, x) {
      var k :| Owns(t, d, k, x);
      assert HasEntry(t', d, k) <==> HasEntry(t, d, k);
      assert Owns(t', d, k, x);
    }
  }

  lemma SameStaysRooted(root: nat, t: Tree, t': Tree)
    requires SameEntries(t, t') && Rooted(root, t) && root in t.dirs
    ensures Rooted(root, t')
  {
    SameEdges(t, t');
    forall x | x in t'.dirs ensures Below(t', root, x) {
      assert Below(t, root, x);
      BelowKept(t, t', root, x);
    }
  }

  lemma UnharmedRooted(g: Geometry, b: Disk, a: Disk)
    requires Represents(g, b) && Unharmed(g, b, a) && Rooted(g.rootCluster, b.tree)
    ensures Rooted(g.rootCluster, a.tree)
  {
    SameStaysRooted(g.rootCluster, b.tree, a.tree);
  }

  datatype Call = Path(op: Op) | Rename(from: seq<Byte>, to: seq<Byte>)

  /** A call that cannot put a directory below itself. */
  ghost predicate Safe(c: Call) {
    c.Rename? ==> !BelowItself(Trim(c.from), Trim(c.to))
  }

  ghost predicate AllSafe(calls: seq<Call>) {
    forall i :: 0 <= i < |calls| ==> Safe(calls[i])
  }

  method Act(v: Volume, c: Call, ghost b: Disk) returns (r: Result<()>, ghost a: Disk, ghost stuck: bool)
    requires v.Valid() && b.fat == v.fat && b.data == v.data
    modifies v
    ensures v.Valid() && a.fat == v.fat && a.data == v.data
    ensures CountMatches(v.g, old(v.info), old(v.fat)) ==> CountMatches(v.g, v.info, v.fat)
    ensures stuck ==> c.Rename? && r.Err? && exists n :: v.faults(n)
    ensures Represents(v.g, b) && !stuck ==>
              Represents(v.g, a) && (Rooted(v.g.rootCluster, b.tree) && Safe(c) ==> Rooted(v.g.rootCluster, a.tree))
  {
    stuck := false;
    match c {
      case Path(op) =>
        r, a := Perform(v, op, b);
      case Rename(from, to) =>
        ghost var k1, k2;
        r, a, k1, k2, stuck := RenamePath(v, from, to, b);
        if Represents(v.g, b) && r.Err? && !stuck && Rooted(v.g.rootCluster, b.tree) { UnharmedRooted(v.g, b, a); }
    }
  }

  /** Every run of path operations and renames, successful or failing, leaves a volume that represents a directory tree,
      unless the device refused both a step of a rename and its undoing. Every directory hangs from the root,
      unless a rename named a path below what it renamed. */
  method RunAll(v: Volume, calls: seq<Call>, ghost b: Disk)
    returns (results: seq<Result<()>>, ghost a: Disk, ghost stuck: bool)
    requires v.Valid() && b.fat == v.fat && b.data == v.data
    modifies v
    ensures v.Valid() && a.fat == v.fat && a.data == v.data && |results| == |calls|
    ensures CountMatches(v.g, old(v.info), old(v.fat)) ==> CountMatches(v.g, v.info, v.fat)
    ensures stuck ==> exists n :: v.faults(n)
    ensures Represents(v.g, b) && !stuck ==> Represents(v.g, a)
    ensures Represents(v.g, b) && !stuck && Rooted(v.g.rootCluster, b.tree) && AllSafe(calls) ==>
              Rooted(v.g.rootCluster, a.tree)
  {
    results, a, stuck := [], b, false;
    for i := 0 to |calls|
      invariant v.Valid() && a.fat == v.fat && a.data == v.data && |results| == i
      invariant CountMatches(v.g, old(v.info), old(v.fat)) ==> CountMatches(v.g, v.info, v.fat)
      invariant stuck ==> exists n :: v.faults(n)
      invariant Represents(v.g, b) && !stuck ==> Represents(v.g, a)
      invariant Represents(v.g, b) && !stuck && Rooted(v.g.rootCluster, b.tree) && AllSafe(calls) ==>
                  Rooted(v.g.rootCluster, a.tree)
    {
      var r;
      ghost var now;
      r, a, now := Act(v, calls[i], a);
      stuck := stuck || now;
      results := results + [r];
    }
  }
}
