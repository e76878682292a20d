/** What lookups answer after a create. */
module FatLookups {
  import opened Counting
  import opened Bytes
  import opened FatChain
  import opened FatVolume
  import opened FatFile
  import opened FatDirectory
  import opened FatTree
  import opened FatSpace
  import opened FatPlan
  import opened FatReserve
  import opened FatMoves
  import opened FatCreate
  import opened FatOutcome

  ghost function Find(g: Geometry, d: Disk, dir: nat, name: ShortName): Result<Entry>
    requires g.Limit() <= |d.fat| && |d.data| == g.Limit()
  {
    Lookup(d.fat, g.Limit(), d.data, dir, [], name)
  }

  /** The clusters up to `n` hold a prefix of the content. */
  lemma PrefixContent(data: Clusters, ch: seq<nat>, n: nat)
    requires InData(data, ch) && n <= |ch|
    ensures InData(data, ch[..n]) && Content(data, ch[..n]) <= Content(data, ch)
  {
    assert ch == ch[..n] + ch[n..];
    ContentConcat(data, ch[..n], ch[n..]);
  }

  /** A slot of a visible cluster lies in the visible content. */
  lemma SlotVisible(data: Clusters, ch: seq<nat>, i: nat, j: nat)
    requires InData(data, ch) && i < |ch| && i < MAX_DIRECTORY_CLUSTERS && 32 * j + 32 <= |data[ch[i]]|
    requires |Content(data, ch[..i])| % 32 == 0
    ensures InData(data, Visible(ch)) && Content(data, Visible(ch)) <= Content(data, ch)
    ensures 32 * SlotNumber(data, ch, i, j) + 32 <= |Content(data, Visible(ch))|
  {
    var vis := Visible(ch);
    assert ch[..|ch|] == ch;
    PrefixContent(data, ch, |vis|);
    ContentSplit(data, ch, i);
    assert vis[..i + 1] == ch[..i + 1];
    PrefixContent(data, vis, i + 1);
  }

  /** What a lookup sees first in a longer content it sees first in a prefix holding it. */
  lemma FirstInPrefix(vis: seq<Byte>, content: seq<Byte>, name: ShortName, k: nat)
    requires vis <= content && 32 * k + 32 <= |vis| && IsFirst(content, name, k)
    ensures ScanFor(vis, name, 0) == Found(k) && Verdict(vis, name) == FoundEntry(SlotAt(content, k))
  {
    forall m | 0 <= m <= k ensures SlotAt(vis, m) == SlotAt(content, m) {
    }
    VerdictFirst(vis, name, k);
  }

  lemma PassedExhausts(vis: seq<Byte>, content: seq<Byte>, name: ShortName, k: nat)
    requires vis <= content && 32 * k == |vis| && Passed(content, name, k)
    ensures ScanFor(vis, name, 0) == Exhausted
  {
    forall m | 0 <= m < k ensures SlotAt(vis, m) == SlotAt(content, m) {
    }
    ScanMeaning(vis, name, 0);
  }

  /** A name whose first slot lies in a visible cluster resolves to that slot. */
  lemma FindVisible(g: Geometry, d: Disk, dir: nat, name: ShortName, i: nat, j: nat, k: nat)
    requires Good(g, d) && dir in d.tree.dirs && i < |d.chains[dir]| && i < MAX_DIRECTORY_CLUSTERS
    requires InData(d.data, d.chains[dir]) && 32 * j + 32 <= |d.data[d.chains[dir][i]]| &&
             |Content(d.data, d.chains[dir][..i])| % 32 == 0
    requires k == SlotNumber(d.data, d.chains[dir], i, j) && IsFirst(d.tree.dirs[dir], name, k)
    ensures Find(g, d, dir, name) == FoundEntry(SlotAt(d.tree.dirs[dir], k))
  {
    var ch := d.chains[dir];
    assert ch[0] == dir;
    LookupOnChain(d.fat, g.Limit(), d.data, ch, name);
    SlotVisible(d.data, ch, i, j);
    FirstInPrefix(Content(d.data, Visible(ch)), d.tree.dirs[dir], name, k);
  }

  /** Within 128 clusters a lookup answers what the content says. */
  lemma FindShort(g: Geometry, d: Disk, dir: nat, name: ShortName)
    requires Good(g, d) && dir in d.tree.dirs && |d.chains[dir]| <= MAX_DIRECTORY_CLUSTERS
    ensures Find(g, d, dir, name) == Verdict(d.tree.dirs[dir], name)
    ensures |d.tree.dirs[dir]| % 32 == 0 && EndTail(d.tree.dirs[dir])
  {
    assert d.chains[dir][0] == dir;
    LookupOnChain(d.fat, g.Limit(), d.data, d.chains[dir], name);
  }

  /** Beyond 128 clusters, a name the first 128 do not decide is refused. */
  lemma FindLong(g: Geometry, d: Disk, dir: nat, name: ShortName, k: nat)
    requires Good(g, d) && dir in d.tree.dirs && |d.chains[dir]| > MAX_DIRECTORY_CLUSTERS
    requires InData(d.data, d.chains[dir]) && InData(d.data, d.chains[dir][..MAX_DIRECTORY_CLUSTERS])
    requires 32 * k == |Content(d.data, d.chains[dir][..MAX_DIRECTORY_CLUSTERS])| && Passed(d.tree.dirs[dir], name, k)
    ensures Find(g, d, dir, name) == Err(ChainTooLong)
  {
    var ch := d.chains[dir];
    assert ch[0] == dir;
    LookupOnChain(d.fat, g.Limit(), d.data, ch, name);
    PrefixContent(d.data, ch, MAX_DIRECTORY_CLUSTERS);
    PassedExhausts(Content(d.data, ch[..MAX_DIRECTORY_CLUSTERS]), d.tree.dirs[dir], name, k);
  }

  // ------------------------------------------------- lookups after a create

  /** Where the new slot lies: in a cluster the directory had, or at the start of
      the one it gained; what it overwrote was free or of the same name. */
  ghost predicate SlotPlaced(b: Disk, a: Disk, dir: nat, short: ShortName, i: nat, j: nat, k: nat) {
    && dir in b.chains && dir in a.chains && InData(a.data, a.chains[dir]) && i < |a.chains[dir]|
    && 32 * j + 32 <= |a.data[a.chains[dir][i]]| && |Content(a.data, a.chains[dir][..i])| % 32 == 0
    && k == SlotNumber(a.data, a.chains[dir], i, j)
    && (a.chains[dir] == b.chains[dir] || (i == |b.chains[dir]| && j == 0 && |a.chains[dir]| == i + 1))
    && dir in b.tree.dirs && dir in a.tree.dirs && |b.tree.dirs[dir]| <= |a.tree.dirs[dir]|
    && var was := b.tree.dirs[dir] + Zeros(|a.tree.dirs[dir]| - |b.tree.dirs[dir]|);
       32 * k + 32 <= |was| && (SlotAt(was, k)[0] in {0, DELETED} || LiveNamed(SlotAt(was, k), short))
  }

  /** The new slot says what was stored. */
  lemma CreatedSlotSays(g: Geometry, b: Disk, a: Disk, dir: nat, short: ShortName, bytes: seq<Byte>, first: nat,
                        isDir: bool, k: nat)
    requires first < 0x1_0000_0000 && |bytes| <= MAX_FILE_SIZE &&
             OneSlot(b.tree, a.tree, dir, k, NewSlot(short, first, |bytes|, isDir), AddedDirs(first, bytes, isDir))
    requires Stored(b, a, first, bytes) && forall h :: h in a.chains ==> h >= 2
    ensures FoundEntry(SlotAt(a.tree.dirs[dir], k)) == Ok(NewEntry(short, first, |bytes|, isDir))
  {
    var s := NewSlot(short, first, |bytes|, isDir);
    SpliceSlots(b.tree.dirs[dir] + Zeros(|a.tree.dirs[dir]| - |b.tree.dirs[dir]|), k, s, k);
    assert DecodeEntry(s) == NewEntry(short, first, |bytes|, isDir);
  }

  /** The new name is found... */
  lemma CreatedIsFound(g: Geometry, b: Disk, a: Disk, dir: nat, short: ShortName, bytes: seq<Byte>, first: nat,
                       isDir: bool, i: nat, j: nat, k: nat)
    requires g.Limit() <= |b.fat| && |b.data| == g.Limit()
    requires Created(g, b, a, dir, short, bytes, first, isDir, k) && SlotPlaced(b, a, dir, short, i, j, k)
    requires i < MAX_DIRECTORY_CLUSTERS
    ensures Find(g, a, dir, short) == Ok(NewEntry(short, first, |bytes|, isDir))
  {
    CreatedSlotSays(g, b, a, dir, short, bytes, first, isDir, k);
    FindVisible(g, a, dir, short, i, j, k);
  }

  /** ... unless its slot landed in the 129th cluster. */
  lemma CreatedIsHidden(g: Geometry, a: Disk, dir: nat, short: ShortName, k: nat)
    requires Good(g, a) && dir in a.tree.dirs && |a.chains[dir]| > MAX_DIRECTORY_CLUSTERS &&
             InData(a.data, a.chains[dir])
    requires |Content(a.data, a.chains[dir][..MAX_DIRECTORY_CLUSTERS])| % 32 == 0
    requires k == SlotNumber(a.data, a.chains[dir], MAX_DIRECTORY_CLUSTERS, 0) && IsFirst(a.tree.dirs[dir], short, k)
    ensures Find(g, a, dir, short) == Err(ChainTooLong)
  {
    FindLong(g, a, dir, short, k);
  }

  /** `a` is `b`, grown by free slots, with a slot for `short` written over a free or like-named one. */
  ghost predicate SlotChange(b: seq<Byte>, a: seq<Byte>, k: nat, s: Slot, short: ShortName) {
    && |b| <= |a| && 32 * k + 32 <= |a| && LiveNamed(s, short)
    && var was := b + Zeros(|a| - |b|);
       a == Splice(was, 32 * k, s) && (SlotAt(was, k)[0] in {0, DELETED} || LiveNamed(SlotAt(was, k), short))
  }

  lemma OtherVerdicts(b: seq<Byte>, a: seq<Byte>, k: nat, s: Slot, short: ShortName, name: ShortName)
    requires |b| % 32 == 0 && EndTail(b) && name != short && SlotChange(b, a, k, s, short)
    ensures Verdict(a, name) == Verdict(b, name)
  {
    EndTailExtended(b, |a| - |b|);
    ZerosKeepVerdict(b, |a| - |b|, name);
    OtherNamesKept(b + Zeros(|a| - |b|), k, s, short, name);
  }

  /** Every other name in the directory resolves as before. */
  lemma CreatedKeepsOthers(g: Geometry, b: Disk, a: Disk, dir: nat, short: ShortName, k: nat, s: Slot, name: ShortName)
    requires Good(g, b) && Good(g, a) && dir in b.tree.dirs && dir in a.tree.dirs && name != short
    requires |b.chains[dir]| <= MAX_DIRECTORY_CLUSTERS && |a.chains[dir]| <= MAX_DIRECTORY_CLUSTERS
    requires SlotChange(b.tree.dirs[dir], a.tree.dirs[dir], k, s, short)
    ensures Find(g, a, dir, name) == Find(g, b, dir, name)
  {
    FindShort(g, a, dir, name);
    FindShort(g, b, dir, name);
    OtherVerdicts(b.tree.dirs[dir], a.tree.dirs[dir], k, s, short, name);
  }

  /** Every other directory resolves every name as before. */
  lemma CreatedKeepsDirectories(g: Geometry, b: Disk, a: Disk, dir: nat, d: nat, name: ShortName, gone: set<nat>)
    requires Good(g, b) && Good(g, a) && OthersUntouched(b, a, dir, gone) && d in b.tree.dirs && d != dir && d !in gone
    ensures Find(g, a, d, name) == Find(g, b, d, name)
  {
    var ch := b.chains[d];
    assert a.chains[d] == ch && ch[0] == d;
    forall c | c in ch && c < g.Limit() ensures a.data[c] == b.data[c] {
      var m :| 0 <= m < |ch| && ch[m] == c;
    }
    LookupFrame(b.fat, a.fat, g.Limit(), b.data, a.data, ch, name);
  }

  /** Writing the slot does not move it. */
  lemma StillPlaced(data: Clusters, ch: seq<nat>, content: seq<Byte>, short: ShortName, res: Reservation, i: nat,
                    k: nat, x: seq<Byte>)
    requires SlotReady(data, ch, content, short, res, i, k) && NoDuplicates(ch) && |x| == |data[res.cluster]|
    ensures var data' := data[res.cluster := x];
            && InData(data', ch) && 32 * res.index + 32 <= |data'[ch[i]]| && |Content(data', ch[..i])| % 32 == 0
            && k == SlotNumber(data', ch, i, res.index)
  {
    var data' := data[res.cluster := x];
    forall m | 0 <= m < i ensures data'[ch[..i][m]] == data[ch[..i][m]] {
      assert ch[m] != ch[i];
    }
    ContentFrame(data, data', ch[..i]);
  }

  lemma ReadyAfterPrepare(g: Geometry, d1: Disk, dir: nat, short: ShortName, bytes: seq<Byte>, tr: Trace, i: nat,
                          k: nat)
    requires Settled(g, d1, dir, short, tr.res, i, k) && d1.fat == tr.fat1 && d1.data == tr.data1
    requires Prepared(g, tr.fat1, tr.data1, tr.fat2, tr.data2, tr.ch, tr.first, bytes)
    ensures NoDuplicates(d1.chains[dir]) && SlotReady(tr.data2, d1.chains[dir], d1.tree.dirs[dir], short, tr.res, i, k)
  {
    ChainNoDuplicates(tr.fat1, g.Limit(), d1.chains[dir]);
    FreshOffDirectory(g, d1, dir, bytes, tr);
    SlotReadyFrame(tr.data1, tr.data2, d1.chains[dir], tr.ch, d1.tree.dirs[dir], short, tr.res, i, k);
  }

  lemma ExtensionPlace(g: Geometry, b: Disk, dir: nat, tr: Trace, ch: seq<nat>, i: nat)
    requires g.Limit() <= |b.fat| && |b.data| == g.Limit() &&
             Reserved(g, b.fat, b.data, tr.fat1, tr.data1, tr.plan, tr.res)
    requires dir in b.chains && ch == ReservedChains(b.chains, dir, tr.res)[dir] && NoDuplicates(ch) && i < |ch| &&
             ch[i] == tr.res.cluster
    ensures ch == b.chains[dir] || (i == |b.chains[dir]| && tr.res.index == 0 && |ch| == i + 1)
  {
    if tr.res.extension.Some? {
      assert ch[|ch| - 1] == tr.res.cluster;
    }
  }

  lemma WasContent(g: Geometry, t: Tree, dir: nat, res: Reservation, n: nat)
    requires dir in t.dirs && dir in t.caps && |t.dirs[dir]| <= n
    requires n == |ReservedTree(g, t, dir, res).dirs[dir]|
    ensures ReservedTree(g, t, dir, res).dirs[dir] == t.dirs[dir] + Zeros(n - |t.dirs[dir]|)
  {
  }

  /** After a create the slot is where the reservation was. */
  lemma CreatedIsPlaced(g: Geometry, b: Disk, dir: nat, short: ShortName, s: Slot, added: map<nat, seq<Byte>>,
                        tr: Trace, a: Disk, i: nat, k: nat)
    requires g.Limit() <= |b.fat| && |b.data| == g.Limit() &&
             Reserved(g, b.fat, b.data, tr.fat1, tr.data1, tr.plan, tr.res)
    requires dir in b.chains && dir in b.tree.dirs && dir in b.tree.caps &&
             dir in ReservedTree(g, b.tree, dir, tr.res).dirs
    requires dir in a.chains && a.chains[dir] == ReservedChains(b.chains, dir, tr.res)[dir] &&
             NoDuplicates(a.chains[dir])
    requires SlotReady(tr.data2, a.chains[dir], ReservedTree(g, b.tree, dir, tr.res).dirs[dir], short, tr.res, i, k)
    requires a.data == tr.data2[tr.res.cluster := Splice(tr.data2[tr.res.cluster], 32 * tr.res.index, s)]
    requires OneSlot(b.tree, a.tree, dir, k, s, added) &&
             |a.tree.dirs[dir]| == |ReservedTree(g, b.tree, dir, tr.res).dirs[dir]|
    ensures SlotPlaced(b, a, dir, short, i, tr.res.index, k)
  {
    var ch := a.chains[dir];
    StillPlaced(tr.data2, ch, ReservedTree(g, b.tree, dir, tr.res).dirs[dir], short, tr.res, i, k,
        Splice(tr.data2[tr.res.cluster], 32 * tr.res.index, s));
    WasContent(g, b.tree, dir, tr.res, |a.tree.dirs[dir]|);
    ExtensionPlace(g, b, dir, tr, ch, i);
  }

  // ------------------------------------------------------- unique names

  ghost predicate Unambiguous(t: Tree) {
    forall d :: d in t.dirs ==> UniqueNames(t.dirs[d])
  }

  /** A scan that ends without the name proves it absent from the whole directory. */
  lemma NotFoundIsAbsent(vis: seq<Byte>, content: seq<Byte>, name: ShortName)
    requires vis <= content && EndTail(content)
    requires var s := ScanFor(vis, name, 0); s.EndAt? || (s.Exhausted? && vis == content)
    ensures Absent(content, name)
  {
    ScanPassed(vis, name);
    var stop := StopOf(ScanFor(vis, name, 0), vis);
    forall j: nat | 32 * j + 32 <= |content| ensures !LiveNamed(SlotAt(content, j), name) {
      if j < stop {
        assert SlotAt(vis, j) == SlotAt(content, j);
      } else if ScanFor(vis, name, 0).EndAt? {
        assert SlotAt(vis, stop) == SlotAt(content, stop);
      }
    }
  }

  lemma ExpectedNothing(vis: seq<Byte>, content: seq<Byte>, truncated: bool, name: ShortName)
    requires vis <= content && EndTail(content) && (truncated || vis == content) &&
             Expected(vis, truncated, name) == Err(NotFound)
    ensures Absent(content, name)
  {
    NotFoundIsAbsent(vis, content, name);
  }

  lemma VisibleContent(data: Clusters, ch: seq<nat>)
    requires InData(data, ch)
    ensures InData(data, Visible(ch)) && Content(data, Visible(ch)) <= Content(data, ch)
    ensures |ch| <= MAX_DIRECTORY_CLUSTERS ==> Content(data, Visible(ch)) == Content(data, ch)
  {
    assert ch[..|ch|] == ch;
    PrefixContent(data, ch, |Visible(ch)|);
  }

  lemma FindNothing(g: Geometry, d: Disk, dir: nat, name: ShortName)
    requires Good(g, d) && dir in d.tree.dirs && Find(g, d, dir, name) == Err(NotFound)
    ensures Absent(d.tree.dirs[dir], name)
  {
    var ch := d.chains[dir];
    assert ch[0] == dir;
    LookupOnChain(d.fat, g.Limit(), d.data, ch, name);
    VisibleContent(d.data, ch);
    ExpectedNothing(Content(d.data, Visible(ch)), d.tree.dirs[dir], |ch| > MAX_DIRECTORY_CLUSTERS, name);
  }

  /** Publishing a name that was absent, or over its own slot, keeps names unique. */
  lemma PutKeepsNames(content: seq<Byte>, n: nat, k: nat, s: Slot, short: ShortName)
    requires |content| % 32 == 0 && UniqueNames(content) && 32 * k + 32 <= |content| + n && s[..11] == short
    requires Absent(content, short) || (OwnerSlot(content, k) && SlotAt(content, k)[..11] == short)
    ensures UniqueNames(Splice(content + Zeros(n), 32 * k, s))
  {
    var c' := Splice(content + Zeros(n), 32 * k, s);
    forall j: nat | j != k && OwnerSlot(c', j) ensures OwnerSlot(content, j) && SlotAt(c', j) == SlotAt(content, j) &&
        SlotAt(content, j)[..11] != short {
      SpliceSlots(content + Zeros(n), k, s, j);
      ZerosOwnNothing(content, n, j);
    }
    if 32 * k + 32 <= |c'| {
      SpliceSlots(content + Zeros(n), k, s, k);
    }
  }

  // ---------------------------------------------------------- the theorem

  /** What readers see after a create. `hidden`: the directory was full and 128
      clusters long, so that the new slot lies in a cluster lookups do not read. */
  ghost predicate LookupsAfter(g: Geometry, b: Disk, a: Disk, dir: nat, short: ShortName, e: Entry, hidden: bool)
    requires g.Limit() <= |b.fat| && |b.data| == g.Limit() && g.Limit() <= |a.fat| && |a.data| == g.Limit() &&
             dir in a.chains
  {
    && Find(g, a, dir, short) == (if hidden then Err(ChainTooLong) else Ok(e))
    && (|a.chains[dir]| <= MAX_DIRECTORY_CLUSTERS ==>
       forall name :: name != short ==> Find(g, a, dir, name) == Find(g, b, dir, name))
    && (forall d, name :: d in b.tree.dirs && d != dir ==> Find(g, a, d, name) == Find(g, b, d, name))
  }

  /** A full directory of 128 clusters. */
  ghost predicate Hidden(g: Geometry, b: Disk, dir: nat, short: ShortName)
    requires g.Limit() <= |b.fat| && |b.data| == g.Limit()
  {
    dir in b.chains && |b.chains[dir]| == MAX_DIRECTORY_CLUSTERS &&
    SlotFor(b.fat, g.Limit(), b.data, dir, [], short, None).Extend?
  }

  /** What lookups of the new name answer. */
  lemma CreateReaderNew(g: Geometry, b: Disk, a: Disk, dir: nat, short: ShortName, bytes: seq<Byte>, first: nat,
                        isDir: bool, i: nat, j: nat, k: nat)
    requires g.Limit() <= |b.fat| && |b.data| == g.Limit()
    requires Created(g, b, a, dir, short, bytes, first, isDir, k) && SlotPlaced(b, a, dir, short, i, j, k)
    requires i >= MAX_DIRECTORY_CLUSTERS ==> i == MAX_DIRECTORY_CLUSTERS && j == 0
    ensures Find(g, a, dir, short) == if i < MAX_DIRECTORY_CLUSTERS then Ok(NewEntry(short, first, |bytes|, isDir))
            else Err(ChainTooLong)
  {
    if i < MAX_DIRECTORY_CLUSTERS {
      CreatedIsFound(g, b, a, dir, short, bytes, first, isDir, i, j, k);
    } else {
      CreatedIsHidden(g, a, dir, short, k);
    }
  }

  lemma CreateReaderOthers(g: Geometry, b: Disk, a: Disk, dir: nat, short: ShortName, k: nat, s: Slot)
    requires Good(g, b) && Good(g, a) && dir in b.tree.dirs && dir in a.tree.dirs
    requires |b.chains[dir]| <= |a.chains[dir]| && SlotChange(b.tree.dirs[dir], a.tree.dirs[dir], k, s, short)
    ensures |a.chains[dir]| <= MAX_DIRECTORY_CLUSTERS ==>
              forall name :: name != short ==> Find(g, a, dir, name) == Find(g, b, dir, name)
  {
    if |a.chains[dir]| <= MAX_DIRECTORY_CLUSTERS {
      forall name | name != short ensures Find(g, a, dir, name) == Find(g, b, dir, name) {
        CreatedKeepsOthers(g, b, a, dir, short, k, s, name);
      }
    }
  }

  lemma CreateReaderDirs(g: Geometry, b: Disk, a: Disk, dir: nat, gone: set<nat>)
    requires Good(g, b) && Good(g, a) && OthersUntouched(b, a, dir, gone)
    ensures forall d, name :: d in b.tree.dirs && d != dir && d !in gone ==> Find(g, a, d, name) == Find(g, b, d, name)
  {
    forall d, name | d in b.tree.dirs && d != dir && d !in gone ensures Find(g, a, d, name) == Find(g, b, d, name) {
      CreatedKeepsDirectories(g, b, a, dir, d, name, gone);
    }
  }

  /** A create removes no directory. */
  lemma NoDirectoryGone(b: Disk, a: Disk, dir: nat, bytes: seq<Byte>, first: nat, gone: set<nat>, k: nat, s: Slot,
                        added: map<nat, seq<Byte>>)
    requires OneSlot(b.tree, a.tree, dir, k, s, added) && ChainsAfter(b, a, dir, bytes, first, gone)
    requires a.tree.dirs.Keys <= a.chains.Keys && b.tree.dirs.Keys <= b.chains.Keys
    ensures forall d :: d in b.tree.dirs ==> d !in gone
  {
  }

  lemma PlacedFacts(b: Disk, a: Disk, dir: nat, short: ShortName, bytes: seq<Byte>, first: nat, isDir: bool, i: nat,
                    j: nat, k: nat)
    requires Proper(short) && first < 0x1_0000_0000 && |bytes| <= MAX_FILE_SIZE && SlotPlaced(b, a, dir, short, i, j, k)
    requires OneSlot(b.tree, a.tree, dir, k, NewSlot(short, first, |bytes|, isDir), AddedDirs(first, bytes, isDir))
    ensures |b.chains[dir]| <= |a.chains[dir]|
    ensures |b.chains[dir]| == MAX_DIRECTORY_CLUSTERS && a.chains[dir] != b.chains[dir] ==>
              i == MAX_DIRECTORY_CLUSTERS && j == 0
    ensures SlotChange(b.tree.dirs[dir], a.tree.dirs[dir], k, NewSlot(short, first, |bytes|, isDir), short)
  {
    NewSlotIsOwner(short, first, |bytes|, isDir);
  }

  lemma CreateReaders(g: Geometry, b: Disk, a: Disk, dir: nat, short: ShortName, bytes: seq<Byte>, first: nat,
                      isDir: bool, i: nat, j: nat, k: nat)
    requires Good(g, b) && dir in b.tree.dirs && Proper(short)
    requires Created(g, b, a, dir, short, bytes, first, isDir, k) && SlotPlaced(b, a, dir, short, i, j, k)
    requires i < MAX_DIRECTORY_CLUSTERS <==> !Hidden(g, b, dir, short)
    requires Hidden(g, b, dir, short) ==> a.chains[dir] != b.chains[dir]
    ensures LookupsAfter(g, b, a, dir, short, NewEntry(short, first, |bytes|, isDir), Hidden(g, b, dir, short))
  {
    PlacedFacts(b, a, dir, short, bytes, first, isDir, i, j, k);
    CreateReaderNew(g, b, a, dir, short, bytes, first, isDir, i, j, k);
    CreateReaderOthers(g, b, a, dir, short, k, NewSlot(short, first, |bytes|, isDir));
    NoDirectoryGone(b, a, dir, bytes, first, Replaced(g, b, dir, short), k, NewSlot(short, first, |bytes|, isDir),
        AddedDirs(first, bytes, isDir));
    CreateReaderDirs(g, b, a, dir, Replaced(g, b, dir, short));
  }
}
