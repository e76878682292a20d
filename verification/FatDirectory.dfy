/** Directory slots: the 32-byte codec, the scan a lookup performs, and the
    search for a slot to create in. */
module FatDirectory {
  import opened Bytes
  import opened FatChain
  import opened FatVolume
  import opened FatFile

  const MAX_DIRECTORY_CLUSTERS: nat := 128
  const ATTR_READ_ONLY: Byte := 0x01
  const ATTR_DIRECTORY: Byte := 0x10
  const ATTR_ARCHIVE: Byte := 0x20
  const DELETED: Byte := 0xe5

  type ShortName = s: seq<Byte> | |s| == 11 witness seq(11, _ => 0x20)
  type Slot = s: seq<Byte> | |s| == 32 witness seq(32, _ => 0)

  datatype Entry = Entry(name: ShortName, firstCluster: nat, size: nat, attributes: Byte)

  // ------------------------------------------------------------- the codec

  predicate HasBit(b: Byte, bit: nat)
    requires bit > 0
  {
    var n: int := b;
    (n / bit) % 2 == 1
  }

  predicate IsDirectory(attributes: Byte) { HasBit(attributes, 0x10) }

  /** Slots lookups step over: deleted, long-name and volume-label slots. */
  predicate Skipped(s: Slot) {
    s[0] == DELETED || s[11] == 0x0f || HasBit(s[11], 0x08)
  }

  function ClusterField(s: Slot): nat {
    Le16(s, 20) * 0x1_0000 + Le16(s, 26)
  }

  function SizeField(s: Slot): nat { Le32(s, 28) }

  function DecodeEntry(s: Slot): Entry {
    Entry(s[..11], ClusterField(s), SizeField(s), s[11])
  }

  /** The slot `write_directory_entry` stores. */
  function EncodeEntry(e: Entry): (s: Slot)
    requires e.firstCluster < 0x1_0000_0000 && e.size < 0x1_0000_0000
    ensures DecodeEntry(s) == e && s[0] == e.name[0]
  {
    var named := e.name + [e.attributes] + Zeros(20);
    var s: Slot := Put32(Put16(Put16(named, 20, e.firstCluster / 0x1_0000), 26, e.firstCluster % 0x1_0000), 28, e.size);
    assert s[..11] == e.name;
    assert Le16(s, 20) == e.firstCluster / 0x1_0000;
    assert Le16(s, 26) == e.firstCluster % 0x1_0000;
    s
  }

  // ------------------------------------------------------------ short names

  function ToFatChar(b: Byte): Option<Byte> {
    var n: int := b;
    if 0x61 <= n <= 0x7a then Some(n - 0x20)
    else if 0x41 <= n <= 0x5a || 0x30 <= n <= 0x39 || n == 0x5f || n == 0x2d then Some(b)
    else None
  }

  function ToFatChars(s: seq<Byte>): (r: Option<seq<Byte>>)
    ensures r.Some? ==> |r.value| == |s| && forall i :: 0 <= i < |s| ==> ToFatChar(s[i]) == Some(r.value[i])
  {
    if s == [] then Some([]) else
    match (ToFatChar(s[0]), ToFatChars(s[1..]))
    case (Some(b), Some(rest)) => Some([b] + rest)
    case _ => None
  }

  /** Position of the first '.', or the length. */
  function DotAt(s: seq<Byte>): (k: nat)
    ensures k <= |s| && (k < |s| ==> s[k] == 0x2e)
    ensures forall i :: 0 <= i < k ==> s[i] != 0x2e
  {
    if s == [] || s[0] == 0x2e then 0 else 1 + DotAt(s[1..])
  }

  /** `encode_short_name`: an 8.3 name, upper-cased and space padded. The first
      byte is never one that marks a free, deleted or dot slot. */
  function EncodeShortName(name: seq<Byte>): (r: Option<ShortName>)
    ensures r.Some? ==> r.value[0] !in {0, 0x2e, DELETED}
  {
    if |name| == 0 || |name| > 12 then None else
    var dot := DotAt(name);
    var base, ext := name[..dot], if dot < |name| then name[dot + 1..] else [];
    if base == [] || |base| > 8 || |ext| > 3 then None else
    match (ToFatChars(base), ToFatChars(ext))
    case (Some(b), Some(e)) =>
      assert ToFatChar(base[0]) == Some(b[0]);
      Some(b + seq(8 - |b|, _ => 0x20) + e + seq(3 - |e|, _ => 0x20))
    case _ => None
  }

  // ------------------------------------------------------------- scanning

  function SlotCount(content: seq<Byte>): nat { |content| / 32 }

  function SlotAt(content: seq<Byte>, k: nat): Slot
    requires 32 * k + 32 <= |content|
  {
    content[32 * k..32 * k + 32]
  }

  datatype Scan = Found(k: nat) | EndAt(k: nat) | Exhausted

  /** Scan from slot `k` for `name`: the first match, or the end mark, or neither. */
  function ScanFor(content: seq<Byte>, name: ShortName, k: nat): Scan
    decreases |content| - 32 * k
  {
    if 32 * k + 32 > |content| then Exhausted
    else
      var s := SlotAt(content, k);
      if s[0] == 0 then EndAt(k)
      else if Skipped(s) || s[..11] != name then ScanFor(content, name, k + 1)
      else Found(k)
  }

  /** The first deleted slot in `[k, stop)`. */
  function FirstDeleted(content: seq<Byte>, k: nat, stop: nat): Option<nat>
    requires 32 * stop <= |content|
    decreases stop - k
  {
    if k >= stop then None
    else if SlotAt(content, k)[0] == DELETED then Some(k)
    else FirstDeleted(content, k + 1, stop)
  }

  /** What a scan result says about the slots it passed. */
  lemma {:induction false} ScanMeaning(content: seq<Byte>, name: ShortName, k: nat)
    ensures match ScanFor(content, name, k)
            case Found(j) =>
              && k <= j && 32 * j + 32 <= |content| && SlotAt(content, j)[0] != 0
              && !Skipped(SlotAt(content, j)) && SlotAt(content, j)[..11] == name
              && (forall i :: k <= i < j ==>
                 SlotAt(content, i)[0] != 0 && (Skipped(SlotAt(content, i)) || SlotAt(content, i)[..11] != name))
            case EndAt(j) =>
              && k <= j && 32 * j + 32 <= |content| && SlotAt(content, j)[0] == 0
              && (forall i :: k <= i < j ==>
                 SlotAt(content, i)[0] != 0 && (Skipped(SlotAt(content, i)) || SlotAt(content, i)[..11] != name))
            case Exhausted =>
              forall i :: k <= i && 32 * i + 32 <= |content| ==>
                    SlotAt(content, i)[0] != 0 && (Skipped(SlotAt(content, i)) || SlotAt(content, i)[..11] != name)
    decreases |content| - 32 * k
  {
    if 32 * k + 32 <= |content| {
      var s := SlotAt(content, k);
      if s[0] != 0 && (Skipped(s) || s[..11] != name) {
        ScanMeaning(content, name, k + 1);
      }
    }
  }

  /** The converse: a scan result is determined by what it says. */
  lemma {:induction false} ScanIsFound(content: seq<Byte>, name: ShortName, k: nat, j: nat)
    requires k <= j && 32 * j + 32 <= |content| && SlotAt(content, j)[0] != 0
    requires !Skipped(SlotAt(content, j)) && SlotAt(content, j)[..11] == name
    requires forall i :: k <= i < j ==>
               SlotAt(content, i)[0] != 0 && (Skipped(SlotAt(content, i)) || SlotAt(content, i)[..11] != name)
    ensures ScanFor(content, name, k) == Found(j)
    decreases j - k
  {
    if k < j {
      ScanIsFound(content, name, k + 1, j);
    }
  }

  /** Scanning a concatenation: first the front, then, if nothing stopped it, the rest. */
  lemma {:induction false} ScanConcat(a: seq<Byte>, b: seq<Byte>, name: ShortName, k: nat)
    requires |a| % 32 == 0 && 32 * k <= |a|
    ensures ScanFor(a + b, name, k) ==
            match ScanFor(a, name, k)
            case Exhausted => ScanFor(a + b, name, |a| / 32)
            case other => other
    decreases |a| - 32 * k
  {
    if 32 * k < |a| {
      assert SlotAt(a + b, k) == SlotAt(a, k);
      ScanConcat(a, b, name, k + 1);
    }
  }

  function Shift(s: Scan, n: nat): Scan {
    match s
    case Found(k) => Found(k + n)
    case EndAt(k) => EndAt(k + n)
    case Exhausted => Exhausted
  }

  lemma {:induction false} ScanShift(a: seq<Byte>, b: seq<Byte>, name: ShortName, k: nat)
    requires |a| % 32 == 0
    ensures ScanFor(a + b, name, |a| / 32 + k) == Shift(ScanFor(b, name, k), |a| / 32)
    decreases |b| - 32 * k
  {
    if 32 * k + 32 <= |b| {
      assert SlotAt(a + b, |a| / 32 + k) == SlotAt(b, k);
      ScanShift(a, b, name, k + 1);
    }
  }

  /** Behind an exhausted front, the scan of the whole is the scan of the middle. */
  lemma ScanInMiddle(a: seq<Byte>, d: seq<Byte>, b: seq<Byte>, name: ShortName)
    requires |a| % 32 == 0 && |d| % 32 == 0 && ScanFor(a, name, 0) == Exhausted
    ensures ScanFor(a + d, name, 0) == Shift(ScanFor(d, name, 0), |a| / 32)
    ensures ScanFor(d, name, 0) != Exhausted ==> ScanFor(a + d + b, name, 0) == Shift(ScanFor(d, name, 0), |a| / 32)
  {
    ScanConcat(a, d, name, 0);
    ScanShift(a, d, name, 0);
    ScanConcat(a + d, b, name, 0);
  }

  // -------------------------------------------------------------- lookups

  function FoundEntry(s: Slot): Result<Entry> {
    if ClusterField(s) < 2 && SizeField(s) != 0 then Err(CorruptDirectory) else Ok(DecodeEntry(s))
  }

  /** `find_in_directory` on any FAT, cycles and broken links included. */
  function Lookup(fat: Fat, lim: nat, data: Clusters, cluster: nat, seen: seq<nat>, name: ShortName): Result<Entry>
    requires lim <= |fat| && |data| == lim && |seen| <= MAX_DIRECTORY_CLUSTERS
    decreases MAX_DIRECTORY_CLUSTERS - |seen|
  {
    if |seen| == MAX_DIRECTORY_CLUSTERS then Err(ChainTooLong)
    else if cluster in seen then Err(ChainLoop)
    else if !(2 <= cluster < lim) then Err(CorruptChain)
    else
      match ScanFor(data[cluster], name, 0)
      case Found(k) => (if 32 * k + 32 <= |data[cluster]| then FoundEntry(SlotAt(data[cluster], k))
          else Err(CorruptDirectory))
      case EndAt(_) => Err(NotFound)
      case Exhausted =>
        match LinkOf(fat, lim, cluster)
        case Next(n) => Lookup(fat, lim, data, n, seen + [cluster], name)
        case End => Err(NotFound)
        case Corrupt => Err(CorruptChain)
  }

  /** What a lookup in a directory holding `content` must answer. */
  ghost function Verdict(content: seq<Byte>, name: ShortName): Result<Entry> {
    match ScanFor(content, name, 0)
    case Found(k) => (ScanMeaning(content, name, 0); FoundEntry(SlotAt(content, k)))
    case _ => Err(NotFound)
  }

  /** The part of a directory's chain that lookups read. */
  function Visible(ch: seq<nat>): (r: seq<nat>)
    ensures |ch| <= MAX_DIRECTORY_CLUSTERS ==> r == ch
  {
    if |ch| <= MAX_DIRECTORY_CLUSTERS then ch else ch[..MAX_DIRECTORY_CLUSTERS]
  }

  ghost predicate Aligned(data: Clusters) {
    forall c {:trigger data[c]} :: 2 <= c < |data| ==> |data[c]| % 32 == 0
  }

  /** What a lookup must answer given the visible content. */
  ghost function Expected(content: seq<Byte>, truncated: bool, name: ShortName): Result<Entry> {
    if truncated && ScanFor(content, name, 0) == Exhausted then Err(ChainTooLong) else Verdict(content, name)
  }

  /** A lookup, unrolled by one cluster of a chain. */
  lemma LookupStep(fat: Fat, lim: nat, data: Clusters, ch: seq<nat>, i: nat, name: ShortName)
    requires lim <= |fat| && |data| == lim && IsChain(fat, lim, ch) && i < |ch| && i < MAX_DIRECTORY_CLUSTERS
    ensures var d, s := data[ch[i]], ScanFor(data[ch[i]], name, 0);
            Lookup(fat, lim, data, ch[i], ch[..i], name) ==
            if s.Found? then (if 32 * s.k + 32 <= |d| then FoundEntry(SlotAt(d, s.k)) else Err(CorruptDirectory))
            else if s.EndAt? || i + 1 == |ch| then Err(NotFound)
            else if i + 1 == MAX_DIRECTORY_CLUSTERS then Err(ChainTooLong)
            else Lookup(fat, lim, data, ch[i + 1], ch[..i + 1], name)
  {
    ChainNoDuplicates(fat, lim, ch);
    assert ch[i] !in ch[..i];
    assert i + 1 < |ch| ==> LinkOf(fat, lim, ch[i]) == Next(ch[i + 1]);
    assert ch[..i] + [ch[i]] == ch[..i + 1];
  }

  lemma VerdictInMiddle(a: seq<Byte>, d: seq<Byte>, b: seq<Byte>, name: ShortName, k: nat)
    requires |a| % 32 == 0 && ScanFor(d, name, 0) == Found(k)
    requires ScanFor(a + d + b, name, 0) == Found(|a| / 32 + k)
    ensures 32 * k + 32 <= |d| && Verdict(a + d + b, name) == FoundEntry(SlotAt(d, k))
  {
    ScanMeaning(d, name, 0);
    assert SlotAt(a + d + b, |a| / 32 + k) == SlotAt(d, k);
  }

  lemma {:induction false} ContentAligned(data: Clusters, ch: seq<nat>)
    requires InData(data, ch) && forall i :: 0 <= i < |ch| ==> |data[ch[i]]| % 32 == 0
    ensures |Content(data, ch)| % 32 == 0
  {
    if ch != [] {
      ContentAligned(data, ch[..|ch| - 1]);
      AlignedSum(|Content(data, ch[..|ch| - 1])|, |data[ch[|ch| - 1]]|);
    }
  }

  /** The cluster at which the scan of the flat content stops decides the answer. */
  lemma ExpectedByCluster(data: Clusters, vis: seq<nat>, i: nat, truncated: bool, name: ShortName)
    requires InData(data, vis) && i < |vis| && Aligned(data) && forall j {:trigger vis[j]} :: 0 <= j < |vis| ==>
               2 <= vis[j]
    requires InData(data, vis[..i]) && ScanFor(Content(data, vis[..i]), name, 0) == Exhausted
    ensures InData(data, vis[..i + 1])
    ensures match ScanFor(data[vis[i]], name, 0)
            case Found(k) => 32 * k + 32 <= |data[vis[i]]| &&
                Expected(Content(data, vis), truncated, name) == FoundEntry(SlotAt(data[vis[i]], k))
            case EndAt(_) => Expected(Content(data, vis), truncated, name) == Err(NotFound)
            case Exhausted =>
              && ScanFor(Content(data, vis[..i + 1]), name, 0) == Exhausted
              && (i + 1 == |vis| ==>
                 Expected(Content(data, vis), truncated, name) == Err(if truncated then ChainTooLong else NotFound))
  {
    ContentSplit(data, vis, i);
    ContentAligned(data, vis[..i]);
    var a, d, b := Content(data, vis[..i]), data[vis[i]], Content(data, vis[i + 1..]);
    ScanInMiddle(a, d, b, name);
    assert vis[..|vis|] == vis;
    match ScanFor(d, name, 0)
    case Found(k) => VerdictInMiddle(a, d, b, name, k);
    case EndAt(_) =>
    case Exhausted =>
  }

  lemma {:induction false} LookupFrom(fat: Fat, lim: nat, data: Clusters, ch: seq<nat>, vis: seq<nat>, i: nat,
                                      name: ShortName, want: Result<Entry>)
    requires lim <= |fat| && |data| == lim && IsChain(fat, lim, ch) && Aligned(data)
    requires vis == Visible(ch) && i < |vis|
    requires ScanFor(Content(data, vis[..i]), name, 0) == Exhausted
    requires want == Expected(Content(data, vis), |ch| > MAX_DIRECTORY_CLUSTERS, name)
    ensures Lookup(fat, lim, data, vis[i], vis[..i], name) == want
    decreases |vis| - i
  {
    LookupStep(fat, lim, data, ch, i, name);
    assert vis[..i] == ch[..i] && vis[..i + 1] == ch[..i + 1];
    ExpectedByCluster(data, vis, i, |ch| > MAX_DIRECTORY_CLUSTERS, name);
    if ScanFor(data[vis[i]], name, 0) == Exhausted && i + 1 < |vis| {
      LookupFrom(fat, lim, data, ch, vis, i + 1, name, want);
    }
  }

  /** On a proper chain a lookup sees the first 128 clusters as one flat list of
      slots; a longer directory whose first 128 clusters do not decide is refused. */
  lemma LookupOnChain(fat: Fat, lim: nat, data: Clusters, ch: seq<nat>, name: ShortName)
    requires lim <= |fat| && |data| == lim && IsChain(fat, lim, ch) && Aligned(data)
    ensures InData(data, Visible(ch))
    ensures Lookup(fat, lim, data, ch[0], [], name) ==
            Expected(Content(data, Visible(ch)), |ch| > MAX_DIRECTORY_CLUSTERS, name)
  {
    assert Visible(ch)[..0] == [];
    LookupFrom(fat, lim, data, ch, Visible(ch), 0, name,
        Expected(Content(data, Visible(ch)), |ch| > MAX_DIRECTORY_CLUSTERS, name));
  }

  lemma VolumeAligned(v: Volume)
    requires v.Valid()
    ensures Aligned(v.data)
  {
    forall c | 2 <= c < |v.data| ensures |v.data[c]| % 32 == 0 {
      assert |v.data[c]| == 32 * (16 * v.g.sectorsPerCluster);
    }
  }

  /** Where a scan of `content` stopped. */
  function StopOf(s: Scan, content: seq<Byte>): nat {
    match s
    case Found(k) => k
    case EndAt(k) => k
    case Exhausted => SlotCount(content)
  }

  lemma SlotInSector(sector: Sector, base: nat, index: nat, d: seq<Byte>)
    requires 32 * base + 512 <= |d| && d[32 * base..32 * base + 512] == sector && index < 16
    ensures sector[32 * index..32 * index + 32] == SlotAt(d, base + index)
  {
    SliceSlice(d, 32 * base, 32 * base + 512, 32 * index, 32 * index + 32);
  }

  lemma {:induction false} DeletedStep(content: seq<Byte>, k: nat, stop: nat)
    requires 32 * stop + 32 <= |content| && k <= stop
    ensures FirstDeleted(content, k, stop + 1) ==
            match FirstDeleted(content, k, stop)
            case Some(j) => Some(j)
            case None => if SlotAt(content, stop)[0] == DELETED then Some(stop) else None
    decreases stop - k
  {
    if k < stop && SlotAt(content, k)[0] != DELETED {
      DeletedStep(content, k + 1, stop);
    }
  }

  /** `scan_directory_sector`, for the sector whose first slot is number `base` of the cluster. */
  method ScanSector(sector: Sector, name: ShortName, base: nat, deleted0: Option<nat>, ghost d: seq<Byte>)
    returns (s: Scan, deleted: Option<nat>)
    requires 32 * base + 512 <= |d| && d[32 * base..32 * base + 512] == sector && deleted0 == FirstDeleted(d, 0, base)
    ensures ScanFor(d, name, base) == if s.Exhausted? then ScanFor(d, name, base + 16) else s
    ensures !s.Exhausted? ==> base <= s.k < base + 16 && deleted == FirstDeleted(d, 0, s.k)
    ensures s.Exhausted? ==> deleted == FirstDeleted(d, 0, base + 16)
  {
    deleted := deleted0;
    for index := 0 to 16
      invariant ScanFor(d, name, base) == ScanFor(d, name, base + index)
      invariant deleted == FirstDeleted(d, 0, base + index)
    {
      var slot: Slot := sector[32 * index..32 * index + 32];
      SlotInSector(sector, base, index, d);
      DeletedStep(d, 0, base + index);
      if slot[0] == 0 { return EndAt(base + index), deleted; }
      if !Skipped(slot) && slot[..11] == name { return Found(base + index), deleted; }
      if slot[0] == DELETED && deleted.None? { deleted := Some(base + index); }
    }
    s := Exhausted;
  }

  /** The scan loops over one cluster: sector by sector, slot by slot. Also
      remembers the first deleted slot passed. */
  method ScanCluster(v: Volume, c: nat, name: ShortName) returns (s: Scan, deleted: Option<nat>)
    requires v.Valid() && IsAllocatable(v.g, c)
    ensures s == ScanFor(v.data[c], name, 0)
    ensures 32 * StopOf(s, v.data[c]) <= |v.data[c]| && deleted == FirstDeleted(v.data[c], 0, StopOf(s, v.data[c]))
    ensures s.Found? ==> 32 * s.k + 32 <= |v.data[c]|
  {
    deleted := None;
    ghost var d := v.data[c];
    for i := 0 to v.g.sectorsPerCluster
      invariant ScanFor(d, name, 0) == ScanFor(d, name, 16 * i)
      invariant deleted == FirstDeleted(d, 0, 16 * i)
    {
      var sector := v.ReadSector(c, i);
      s, deleted := ScanSector(sector, name, 16 * i, deleted, d);
      if !s.Exhausted? { return; }
    }
    s := Exhausted;
  }

  lemma {:induction false} DeletedMeaning(content: seq<Byte>, k: nat, stop: nat)
    requires 32 * stop <= |content|
    ensures match FirstDeleted(content, k, stop)
            case Some(j) => k <= j < stop && SlotAt(content, j)[0] == DELETED
            case None => forall i :: k <= i < stop ==> SlotAt(content, i)[0] != DELETED
    decreases stop - k
  {
    if k < stop {
      DeletedMeaning(content, k + 1, stop);
    }
  }

  /** `find_in_directory`. */
  method FindInDirectory(v: Volume, dir: nat, name: ShortName) returns (r: Result<Entry>)
    requires v.Valid()
    ensures r == Lookup(v.fat, v.g.Limit(), v.data, dir, [], name)
  {
    var cluster, visited := dir, [];
    while true
      invariant |visited| <= MAX_DIRECTORY_CLUSTERS
      invariant Lookup(v.fat, v.g.Limit(), v.data, dir, [], name) ==
                Lookup(v.fat, v.g.Limit(), v.data, cluster, visited, name)
      decreases MAX_DIRECTORY_CLUSTERS - |visited|
    {
      if |visited| == MAX_DIRECTORY_CLUSTERS { return Err(ChainTooLong); }
      if cluster in visited { return Err(ChainLoop); }
      if !IsAllocatable(v.g, cluster) { return Err(CorruptChain); }
      var s, _ := ScanCluster(v, cluster, name);
      match s {
        case Found(k) =>
          var sector := v.ReadSector(cluster, k / 16);
          var slot: Slot := sector[32 * (k % 16)..32 * (k % 16) + 32];
          SlotInSector(sector, 16 * (k / 16), k % 16, v.data[cluster]);
          return FoundEntry(slot);
        case EndAt(_) => return Err(NotFound);
        case Exhausted =>
      }
      var link := v.NextCluster(cluster);
      if link.Corrupt? { return Err(CorruptChain); }
      if link.End? { return Err(NotFound); }
      visited := visited + [cluster];
      cluster := link.cluster;
    }
  }

  // -------------------------------------------------- finding a slot to use

  datatype Plan =
    | Existing(cluster: nat, index: nat)  // a live slot of that name
    | Vacant(cluster: nat, index: nat)    // the first deleted slot, or the end mark
    | Extend(last: nat)                   // every slot taken: grow the chain
    | Refuse(error: Error)

  /** The search of `find_directory_slot`, on any FAT. */
  function SlotFor(fat: Fat, lim: nat, data: Clusters, cluster: nat, seen: seq<nat>, name: ShortName,
                   deleted: Option<(nat, nat)>): Plan
    requires lim <= |fat| && |data| == lim && |seen| <= MAX_DIRECTORY_CLUSTERS
    decreases MAX_DIRECTORY_CLUSTERS - |seen|
  {
    if |seen| == MAX_DIRECTORY_CLUSTERS then Refuse(ChainTooLong)
    else if cluster in seen then Refuse(ChainLoop)
    else if !(2 <= cluster < lim) then Refuse(CorruptChain)
    else
      var d := data[cluster];
      var s := ScanFor(d, name, 0);
      var mine := if 32 * StopOf(s, d) <= |d| then FirstDeleted(d, 0, StopOf(s, d)) else None;
      var deleted' := if deleted.Some? || mine.None? then deleted else Some((cluster, mine.value));
      match s
      case Found(k) => Existing(cluster, k)
      case EndAt(k) => (if deleted'.Some? then Vacant(deleted'.value.0, deleted'.value.1) else Vacant(cluster, k))
      case Exhausted =>
        match LinkOf(fat, lim, cluster)
        case Next(n) => SlotFor(fat, lim, data, n, seen + [cluster], name, deleted')
        case End => (if deleted'.Some? then Vacant(deleted'.value.0, deleted'.value.1) else Extend(cluster))
        case Corrupt => Refuse(CorruptChain)
  }

  /** The searching loop of `find_directory_slot`. */
  method PlanSlot(v: Volume, dir: nat, name: ShortName) returns (p: Plan)
    requires v.Valid()
    ensures p == SlotFor(v.fat, v.g.Limit(), v.data, dir, [], name, None)
  {
    var cluster, visited := dir, [];
    var deleted: Option<(nat, nat)> := None;
    while true
      invariant |visited| <= MAX_DIRECTORY_CLUSTERS
      invariant SlotFor(v.fat, v.g.Limit(), v.data, dir, [], name, None) ==
                SlotFor(v.fat, v.g.Limit(), v.data, cluster, visited, name, deleted)
      decreases MAX_DIRECTORY_CLUSTERS - |visited|
    {
      if |visited| == MAX_DIRECTORY_CLUSTERS { return Refuse(ChainTooLong); }
      if cluster in visited { return Refuse(ChainLoop); }
      if !IsAllocatable(v.g, cluster) { return Refuse(CorruptChain); }
      var s, mine := ScanCluster(v, cluster, name);
      if deleted.None? && mine.Some? { deleted := Some((cluster, mine.value)); }
      match s {
        case Found(k) => return Existing(cluster, k);
        case EndAt(k) => return if deleted.Some? then Vacant(deleted.value.0, deleted.value.1) else Vacant(cluster, k);
        case Exhausted =>
      }
      var link := v.NextCluster(cluster);
      if link.Corrupt? { return Refuse(CorruptChain); }
      if link.End? {
        return if deleted.Some? then Vacant(deleted.value.0, deleted.value.1) else Extend(cluster);
      }
      visited := visited + [cluster];
      cluster := link.cluster;
    }
  }
}
