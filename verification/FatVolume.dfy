/** A mounted FAT32 volume on a block device: the byte-level codec of FAT
    entries, FSInfo and data sectors, with the array view the algorithms use. */
module FatVolume {
  import opened Bytes
  import opened FatChain

  const FAT32_MIN_CLUSTERS: nat := 65525
  const FSINFO_UNKNOWN: nat := 0xffff_ffff

  datatype Error =
    | Block | InvalidBootSector | UnsupportedGeometry | CorruptDirectory | CorruptChain
    | ChainLoop | ChainTooLong | TruncatedFile | NotFound | NoSpace | NameTooLong
    | AlreadyExists | DirectoryNotEmpty | ReadOnly | WriteFailed | InvalidPath

  datatype Result<+T> = Ok(value: T) | Err(error: Error)

  datatype FsInfo = FsInfo(freeCount: nat, nextFree: nat)

  datatype Geometry = Geometry(
    sectorsPerCluster: nat, fatCount: nat, fatSize: nat, rootCluster: nat,
    firstFatSector: nat, firstDataSector: nat,
    fsInfo: Option<nat>, backupFsInfo: Option<nat>, clusterCount: nat)
  {
    /** One past the last cluster number. */
    function Limit(): nat { clusterCount + 2 }

    function ClusterBytes(): nat { 512 * sectorsPerCluster }

    predicate InfoInReserved(sector: Option<nat>) {
      sector.Some? ==> 0 < sector.value < firstFatSector
    }

    /** What `mount` checks. */
    ghost predicate Mountable(sectorCount: nat) {
      && 1 <= sectorsPerCluster <= 128
      && 1 <= fatCount <= 2 && fatSize > 0 && firstFatSector > 0
      && firstDataSector == firstFatSector + (if fatCount == 1 then fatSize else 2 * fatSize)
      && clusterCount >= FAT32_MIN_CLUSTERS
      && 2 <= rootCluster < Limit()
      && InfoInReserved(fsInfo) && InfoInReserved(backupFsInfo)
      && firstDataSector <= sectorCount && DataOnDevice(this, sectorCount)
    }

    /** What the algorithms rely on besides: the FAT has an entry for every
        cluster, and no cluster number reads as a mark. */
    predicate FatCoversClusters() {
      Limit() <= 128 * fatSize && Limit() <= FAT_BAD
    }
  }

  predicate IsPowerOfTwo(n: nat) { n in {1, 2, 4, 8, 16, 32, 64, 128} }

  function SignaturesValid(s: Sector): bool {
    Le32(s, 0) == 0x4161_5252 && Le32(s, 484) == 0x6141_7272 && Le32(s, 508) == 0xaa55_0000
  }

  function ValidFsInfoSector(sectors: seq<Sector>, lba: nat, reserved: nat): Option<nat> {
    if lba == 0 || lba >= reserved || lba >= |sectors| then None
    else if SignaturesValid(sectors[lba]) then Some(lba) else None
  }

  function Lba(g: Geometry, c: nat, i: nat): nat
    requires 2 <= c
  {
    g.firstDataSector + (c - 2) * g.sectorsPerCluster + i
  }

  /** Every sector of every cluster lies on the device. */
  ghost predicate DataOnDevice(g: Geometry, sectorCount: nat) {
    forall c, i {:trigger Lba(g, c, i)} :: 2 <= c < g.Limit() && 0 <= i < g.sectorsPerCluster ==>
      g.firstDataSector <= Lba(g, c, i) < sectorCount
  }

  lemma {:induction false} BlocksApart(a: nat, b: nat, n: nat)
    requires a < b
    ensures a * n + n <= b * n
    decreases b
  {
    if a + 1 < b {
      BlocksApart(a, b - 1, n);
    }
  }

  lemma LbaInRange(g: Geometry, c: nat, i: nat)
    requires 2 <= c < g.Limit() && i < g.sectorsPerCluster
    ensures g.firstDataSector <= Lba(g, c, i) < g.firstDataSector + g.clusterCount * g.sectorsPerCluster
  {
    BlocksApart(c - 2, g.clusterCount, g.sectorsPerCluster);
  }

  lemma DataFits(g: Geometry, sectorCount: nat)
    requires g.firstDataSector + g.clusterCount * g.sectorsPerCluster <= sectorCount
    ensures DataOnDevice(g, sectorCount)
  {
    forall c, i | 2 <= c < g.Limit() && 0 <= i < g.sectorsPerCluster
      ensures g.firstDataSector <= Lba(g, c, i) < sectorCount
    {
      LbaInRange(g, c, i);
    }
  }

  /** `mount`: accept or refuse the boot sector. Sums and products past 32 bits are refused. */
  function Mount(sectors: seq<Sector>): (r: Result<Geometry>)
    ensures r.Ok? ==> r.value.Mountable(|sectors|)
  {
    if |sectors| == 0 then Err(Block) else
    var s := sectors[0];
    if s[510] != 0x55 || s[511] != 0xaa then Err(InvalidBootSector) else
    var spc, reserved, fatCount := s[13], Le16(s, 14), s[16];
    var total, fatSize, root := Le32(s, 32), Le32(s, 36), Le32(s, 44);
    var backup := Le16(s, 50);
    if Le16(s, 11) != 512 || !IsPowerOfTwo(spc) || reserved == 0 || !(1 <= fatCount <= 2)
       || Le16(s, 17) != 0 || Le16(s, 19) != 0 || Le16(s, 22) != 0
       || total == 0 || fatSize == 0 || root < 2 || total > |sectors|
    then Err(UnsupportedGeometry) else
    var fatSectors := if fatCount == 1 then fatSize else 2 * fatSize;
    var firstData := reserved + fatSectors;
    if fatSectors >= 0x1_0000_0000 || firstData >= 0x1_0000_0000 || total < firstData
    then Err(UnsupportedGeometry) else
    var clusters := (total - firstData) / spc;
    if clusters < FAT32_MIN_CLUSTERS || root >= clusters + 2 then Err(UnsupportedGeometry) else
    assert clusters * spc <= total - firstData;
    var g := Geometry(spc, fatCount, fatSize, root, reserved, firstData,
                      ValidFsInfoSector(sectors, Le16(s, 48), reserved),
                      if backup == 0 then None else ValidFsInfoSector(sectors, backup + 1, reserved),
                      clusters);
    assert g.Mountable(|sectors|) by { DataFits(g, |sectors|); }
    Ok(g)
  }

  // ---------------------------------------------------------- addressing

  function FatSector(g: Geometry, copy: nat, c: nat): nat {
    g.firstFatSector + (if copy == 0 then 0 else g.fatSize) + c / 128
  }

  function SectorAt(sectors: seq<Sector>, lba: nat): Sector {
    if lba < |sectors| then sectors[lba] else Zeros(512)
  }

  /** The FAT word of `c` in FAT copy `copy`. */
  function WordAt(sectors: seq<Sector>, g: Geometry, copy: nat, c: nat): (w: nat)
    ensures w < 0x1_0000_0000
  {
    Le32(SectorAt(sectors, FatSector(g, copy, c)), 4 * (c % 128))
  }

  /** Distinct sectors of distinct clusters have distinct addresses. */
  lemma LbaInjective(g: Geometry, c: nat, i: nat, d: nat, j: nat)
    requires 2 <= c && 2 <= d && i < g.sectorsPerCluster && j < g.sectorsPerCluster
    requires Lba(g, c, i) == Lba(g, d, j)
    ensures c == d && i == j
  {
    if c < d {
      BlocksApart(c - 2, d - 2, g.sectorsPerCluster);
    } else if d < c {
      BlocksApart(d - 2, c - 2, g.sectorsPerCluster);
    }
  }

  /** Sector `i` of a cluster's bytes. */
  function SectorOf(bytes: seq<Byte>, i: nat): Sector
    requires 512 * i + 512 <= |bytes|
  {
    bytes[512 * i..512 * i + 512]
  }

  /** The bytes of the first `n` sectors of cluster `c`, then of the whole cluster. */
  function SectorsView(sectors: seq<Sector>, g: Geometry, c: nat, n: nat): (r: seq<Byte>)
    requires 2 <= c
    ensures |r| == 512 * n
  {
    if n == 0 then [] else SectorsView(sectors, g, c, n - 1) + SectorAt(sectors, Lba(g, c, n - 1))
  }

  function ClusterView(sectors: seq<Sector>, g: Geometry, c: nat): (r: seq<Byte>)
    requires 2 <= c
    ensures |r| == g.ClusterBytes()
  {
    SectorsView(sectors, g, c, g.sectorsPerCluster)
  }

  lemma {:induction false} SectorsViewSector(sectors: seq<Sector>, g: Geometry, c: nat, n: nat, i: nat)
    requires 2 <= c && i < n
    ensures SectorsView(sectors, g, c, n)[512 * i..512 * i + 512] == SectorAt(sectors, Lba(g, c, i))
    decreases n
  {
    var front := SectorsView(sectors, g, c, n - 1);
    assert |front| == 512 * (n - 1);
    if i < n - 1 {
      SectorsViewSector(sectors, g, c, n - 1, i);
      assert SectorsView(sectors, g, c, n)[512 * i..512 * i + 512] == front[512 * i..512 * i + 512];
    }
  }

  lemma ClusterViewSector(sectors: seq<Sector>, g: Geometry, c: nat, i: nat)
    requires 2 <= c && i < g.sectorsPerCluster
    ensures ClusterView(sectors, g, c)[512 * i..512 * i + 512] == SectorAt(sectors, Lba(g, c, i))
  {
    SectorsViewSector(sectors, g, c, g.sectorsPerCluster, i);
  }

  // ------------------------------------------------------ codec on values

  /** One copy's read-modify-write of a FAT word: the reserved nibble stays. */
  function SetWord(sectors: seq<Sector>, g: Geometry, copy: nat, c: nat, value: nat): (r: seq<Sector>)
    requires FatSector(g, copy, c) < |sectors| && value < WORD28
    ensures |r| == |sectors|
  {
    var fs := FatSector(g, copy, c);
    var w := WordAt(sectors, g, copy, c);
    sectors[fs := Put32(sectors[fs], 4 * (c % 128), w - w % WORD28 + value)]
  }

  lemma SetWordEffect(sectors: seq<Sector>, g: Geometry, copy: nat, c: nat, value: nat, copy': nat, d: nat)
    requires copy <= 1 && copy' <= 1 && c < 128 * g.fatSize && d < 128 * g.fatSize && value < WORD28
    requires g.firstFatSector + 2 * g.fatSize <= |sectors| ||
             (copy == 0 && copy' == 0 && g.firstFatSector + g.fatSize <= |sectors|)
    ensures var w := WordAt(sectors, g, copy', d);
            WordAt(SetWord(sectors, g, copy, c, value), g, copy', d) ==
            if copy' == copy && d == c then w - w % WORD28 + value else w
  {
    var fs, fs' := FatSector(g, copy, c), FatSector(g, copy', d);
    if fs == fs' {
      assert copy == copy' && c / 128 == d / 128;
      if c != d {
        assert c % 128 != d % 128;
        var s, s' := sectors[fs], SetWord(sectors, g, copy, c, value)[fs];
        var off := 4 * (d % 128);
        assert forall k :: off <= k < off + 4 ==> s'[k] == s[k];
      }
    }
  }

  /** The hints a sector holds, if there is such a sector and it has the signatures. */
  function InfoAt(sectors: seq<Sector>, place: Option<nat>): Option<FsInfo> {
    if place.None? || place.value >= |sectors| || !SignaturesValid(sectors[place.value]) then None
    else Some(FsInfo(Le32(sectors[place.value], 488), Le32(sectors[place.value], 492)))
  }

  function InfoOf(sectors: seq<Sector>, g: Geometry): Option<FsInfo> {
    InfoAt(sectors, g.fsInfo)
  }

  /** The FSInfo sector `s` with both hints replaced. */
  function PutInfo(s: Sector, info: FsInfo): (r: Sector)
    requires info.freeCount < 0x1_0000_0000 && info.nextFree < 0x1_0000_0000
    ensures SignaturesValid(r) == SignaturesValid(s)
    ensures Le32(r, 488) == info.freeCount && Le32(r, 492) == info.nextFree
  {
    Put32(Put32(s, 488, info.freeCount), 492, info.nextFree)
  }

  // ------------------------------------------------------------ the views

  /** `fat` is the array of 28-bit entries of the first FAT copy. */
  ghost predicate FatView(sectors: seq<Sector>, g: Geometry, fat: Fat, nibbles: seq<seq<nat>>, mirrored: bool) {
    && |fat| == 128 * g.fatSize && |nibbles| == g.fatCount
    && (forall k :: 0 <= k < |nibbles| ==> |nibbles[k]| == |fat|)
    && (forall c {:trigger WordAt(sectors, g, 0, c)} :: 0 <= c < |fat| ==> WordAt(sectors, g, 0, c) % WORD28 == fat[c])
    && (forall k, c {:trigger WordAt(sectors, g, k, c)} :: 0 <= k < |nibbles| && 0 <= c < |fat| ==>
          && WordAt(sectors, g, k, c) / WORD28 == nibbles[k][c]
          && (mirrored ==> WordAt(sectors, g, k, c) % WORD28 == fat[c]))
  }

  /** `data[c]` is the bytes of cluster `c`. */
  ghost predicate DataView(sectors: seq<Sector>, g: Geometry, data: seq<seq<Byte>>) {
    && |data| == g.Limit()
    && (forall c {:trigger data[c]} :: 2 <= c < |data| ==> |data[c]| == g.ClusterBytes())
    && (forall c, i {:trigger Lba(g, c, i)} :: 2 <= c < |data| && 0 <= i < g.sectorsPerCluster ==>
          SectorAt(sectors, Lba(g, c, i)) == data[c][512 * i..512 * i + 512])
  }

  /** The first `n` FAT copies lie on the device. */
  predicate CopiesOnDevice(g: Geometry, n: nat, sectorCount: nat) {
    && (n >= 1 ==> g.firstFatSector + g.fatSize <= sectorCount)
    && (n >= 2 ==> g.firstFatSector + 2 * g.fatSize <= sectorCount)
  }

  /** Mirrored update of copies `0 .. n` of the FAT word of `c`. */
  function SetCopies(sectors: seq<Sector>, g: Geometry, n: nat, c: nat, value: nat): (r: seq<Sector>)
    requires n <= 2 && value < WORD28 && c < 128 * g.fatSize && CopiesOnDevice(g, n, |sectors|)
    ensures |r| == |sectors|
  {
    if n == 0 then sectors else SetWord(SetCopies(sectors, g, n - 1, c, value), g, n - 1, c, value)
  }

  /** After a write only the word of `c` changed, in every copy alike, and its nibble stayed. */
  lemma SetCopiesEffect(sectors: seq<Sector>, g: Geometry, n: nat, c: nat, value: nat, copy: nat, d: nat)
    requires n <= g.fatCount <= 2 && value < WORD28 && copy < g.fatCount
    requires CopiesOnDevice(g, g.fatCount, |sectors|) && c < 128 * g.fatSize && d < 128 * g.fatSize
    ensures var w := WordAt(sectors, g, copy, d);
            WordAt(SetCopies(sectors, g, n, c, value), g, copy, d) ==
            if copy < n && d == c then w - w % WORD28 + value else w
  {
    if n > 0 {
      SetCopiesEffect(sectors, g, n - 1, c, value, copy, d);
      SetWordEffect(SetCopies(sectors, g, n - 1, c, value), g, n - 1, c, value, copy, d);
    }
  }

  lemma SetCopiesElsewhere(sectors: seq<Sector>, g: Geometry, n: nat, c: nat, value: nat, lba: nat)
    requires n <= g.fatCount <= 2 && value < WORD28
    requires CopiesOnDevice(g, g.fatCount, |sectors|) && c < 128 * g.fatSize
    requires lba < g.firstFatSector || lba >= g.firstFatSector + (if g.fatCount == 1 then g.fatSize else 2 * g.fatSize)
    ensures SectorAt(SetCopies(sectors, g, n, c, value), lba) == SectorAt(sectors, lba)
  {
    if n > 0 {
      SetCopiesElsewhere(sectors, g, n - 1, c, value, lba);
    }
  }

  /** The codec law: a mirrored word write is an array update on the FAT view
      and touches no nibble. */
  lemma FatWriteIsUpdate(sectors: seq<Sector>, g: Geometry, fat: Fat, nibbles: seq<seq<nat>>, mirrored: bool,
                         c: nat, value: nat)
    requires 1 <= g.fatCount <= 2 && CopiesOnDevice(g, g.fatCount, |sectors|)
    requires FatView(sectors, g, fat, nibbles, mirrored) && c < |fat| && value < WORD28
    ensures FatView(SetCopies(sectors, g, g.fatCount, c, value), g, fat[c := value], nibbles, mirrored)
  {
    var sectors' := SetCopies(sectors, g, g.fatCount, c, value);
    forall k, d | 0 <= k < |nibbles| && 0 <= d < |fat|
      ensures WordAt(sectors', g, k, d) / WORD28 == WordAt(sectors, g, k, d) / WORD28
      ensures WordAt(sectors', g, k, d) % WORD28 == if d == c then value else WordAt(sectors, g, k, d) % WORD28
    {
      SetCopiesEffect(sectors, g, g.fatCount, c, value, k, d);
    }
  }

  /** A FAT write touches neither data nor hints. */
  lemma FatWriteKeepsRest(sectors: seq<Sector>, g: Geometry, data: seq<seq<Byte>>, c: nat, value: nat)
    requires g.Mountable(|sectors|) && CopiesOnDevice(g, g.fatCount, |sectors|) && DataView(sectors, g, data)
    requires c < 128 * g.fatSize && value < WORD28
    ensures var sectors' := SetCopies(sectors, g, g.fatCount, c, value);
            DataView(sectors', g, data) && InfoOf(sectors', g) == InfoOf(sectors, g)
  {
    var sectors' := SetCopies(sectors, g, g.fatCount, c, value);
    forall d, i | 2 <= d < |data| && 0 <= i < g.sectorsPerCluster
      ensures SectorAt(sectors', Lba(g, d, i)) == SectorAt(sectors, Lba(g, d, i))
    {
      SetCopiesElsewhere(sectors, g, g.fatCount, c, value, Lba(g, d, i));
    }
    if g.fsInfo.Some? {
      SetCopiesElsewhere(sectors, g, g.fatCount, c, value, g.fsInfo.value);
    }
  }

  /** Writing one data sector changes that sector of that cluster and nothing else. */
  lemma DataWriteIsUpdate(sectors: seq<Sector>, g: Geometry, fat: Fat, nibbles: seq<seq<nat>>, mirrored: bool,
                          data: seq<seq<Byte>>, c: nat, i: nat, s: Sector)
    requires g.Mountable(|sectors|) && g.FatCoversClusters()
    requires FatView(sectors, g, fat, nibbles, mirrored) && DataView(sectors, g, data)
    requires 2 <= c < g.Limit() && i < g.sectorsPerCluster && Lba(g, c, i) < |sectors|
    ensures var sectors' := sectors[Lba(g, c, i) := s];
            && FatView(sectors', g, fat, nibbles, mirrored)
            && DataView(sectors', g, data[c := Splice(data[c], 512 * i, s)])
            && InfoOf(sectors', g) == InfoOf(sectors, g)
  {
    var sectors' := sectors[Lba(g, c, i) := s];
    forall k, d | 0 <= k < |nibbles| && 0 <= d < |fat|
      ensures WordAt(sectors', g, k, d) == WordAt(sectors, g, k, d)
    {
      assert FatSector(g, k, d) < g.firstDataSector;
    }
    var data' := data[c := Splice(data[c], 512 * i, s)];
    forall d, j | 2 <= d < |data'| && 0 <= j < g.sectorsPerCluster
      ensures SectorAt(sectors', Lba(g, d, j)) == data'[d][512 * j..512 * j + 512]
    {
      if Lba(g, d, j) == Lba(g, c, i) {
        LbaInjective(g, d, j, c, i);
      } else if d == c {
        assert j != i;
        assert SectorAt(sectors, Lba(g, c, j)) == data[c][512 * j..512 * j + 512];
      }
    }
  }

  /** Writing a reserved sector touches neither FAT nor data. */
  lemma ReservedWriteKeepsViews(sectors: seq<Sector>, g: Geometry, fat: Fat, nibbles: seq<seq<nat>>, mirrored: bool,
                                data: seq<seq<Byte>>, lba: nat, s: Sector)
    requires g.Mountable(|sectors|) && g.FatCoversClusters()
    requires FatView(sectors, g, fat, nibbles, mirrored) && DataView(sectors, g, data)
    requires lba < g.firstFatSector && lba < |sectors|
    ensures FatView(sectors[lba := s], g, fat, nibbles, mirrored) && DataView(sectors[lba := s], g, data)
  {
    var sectors' := sectors[lba := s];
    forall k, d | 0 <= k < |nibbles| && 0 <= d < |fat|
      ensures WordAt(sectors', g, k, d) == WordAt(sectors, g, k, d)
    {
      assert FatSector(g, k, d) >= g.firstFatSector;
    }
    forall d, j | 2 <= d < |data| && 0 <= j < g.sectorsPerCluster
      ensures SectorAt(sectors', Lba(g, d, j)) == data[d][512 * j..512 * j + 512]
    {
      assert Lba(g, d, j) >= g.firstDataSector;
    }
  }

  // ------------------------------------------------------------- the hints

  function Sanitize(value: nat, max: nat): nat {
    if value == FSINFO_UNKNOWN || value <= max then value else FSINFO_UNKNOWN
  }

  predicate IsAllocatable(g: Geometry, c: nat) { 2 <= c < g.Limit() }

  /** `read_fs_info`: the stored hints, with impossible values read as unknown. */
  function ReadInfo(g: Geometry, info: Option<FsInfo>): Option<FsInfo> {
    match info
    case None => None
    case Some(i) => Some(FsInfo(Sanitize(i.freeCount, g.clusterCount),
                                if IsAllocatable(g, i.nextFree) then i.nextFree else FSINFO_UNKNOWN))
  }

  /** The mirrored write loop of `write_fat_entry`. */
  method WriteCopies(before: seq<Sector>, g: Geometry, c: nat, value: nat) returns (sectors: seq<Sector>)
    requires 1 <= g.fatCount <= 2 && CopiesOnDevice(g, g.fatCount, |before|)
    requires c < 128 * g.fatSize && value < WORD28
    ensures sectors == SetCopies(before, g, g.fatCount, c, value)
  {
    sectors := before;
    for copy := 0 to g.fatCount
      invariant sectors == SetCopies(before, g, copy, c, value)
    {
      sectors := SetWord(sectors, g, copy, c, value);
    }
  }

  // ------------------------------------------------------------ the volume

  class Volume {
    const g: Geometry
    /** The writes to the data region, by ordinal, that the device refuses. */
    const faults: nat -> bool
    var sectors: seq<Sector>
    var dataWrites: nat

    ghost var fat: Fat
    ghost var data: seq<seq<Byte>>
    ghost var info: Option<FsInfo>
    /** The reserved nibbles of every FAT word, which no operation changes. */
    ghost const nibbles: seq<seq<nat>>
    /** Whether the second FAT copy mirrors the first. */
    ghost const mirrored: bool

    ghost predicate Valid()
      reads this
    {
      && g.Mountable(|sectors|) && g.FatCoversClusters()
      && FatView(sectors, g, fat, nibbles, mirrored)
      && DataView(sectors, g, data)
      && info == InfoOf(sectors, g)
    }

    /** Every mountable device whose FAT covers its clusters has its views. */
    constructor (g: Geometry, faults: nat -> bool, sectors: seq<Sector>)
      requires g.Mountable(|sectors|) && g.FatCoversClusters()
      ensures Valid() && this.g == g && this.faults == faults && this.sectors == sectors
      ensures mirrored <==> forall k, c :: 0 <= k < g.fatCount && 0 <= c < 128 * g.fatSize ==>
                              WordAt(sectors, g, k, c) % WORD28 == WordAt(sectors, g, 0, c) % WORD28
    {
      this.g := g;
      this.faults := faults;
      this.sectors := sectors;
      this.dataWrites := 0;
      this.fat := seq(128 * g.fatSize, c requires 0 <= c => WordAt(sectors, g, 0, c) % WORD28);
      this.nibbles := seq(g.fatCount, k requires 0 <= k =>
        seq(128 * g.fatSize, c requires 0 <= c => WordAt(sectors, g, k, c) / WORD28));
      this.mirrored := forall k, c :: 0 <= k < g.fatCount && 0 <= c < 128 * g.fatSize ==>
                         WordAt(sectors, g, k, c) % WORD28 == WordAt(sectors, g, 0, c) % WORD28;
      this.data := seq(g.Limit(), c requires 0 <= c => if c < 2 then [] else ClusterView(sectors, g, c));
      this.info := InfoOf(sectors, g);
      new;
      forall c, i | 2 <= c < |data| && 0 <= i < g.sectorsPerCluster
        ensures SectorAt(sectors, Lba(g, c, i)) == data[c][512 * i..512 * i + 512]
      {
        ClusterViewSector(sectors, g, c, i);
      }
    }

    /** `next_cluster`: follow the link of `c` in the first FAT. */
    method NextCluster(c: nat) returns (link: Link)
      requires Valid()
      ensures link == LinkOf(fat, g.Limit(), c)
    {
      if c < 2 || c >= g.Limit() { return Corrupt; }
      var fatSector := g.firstFatSector + c / 128;
      if fatSector >= g.firstDataSector { return Corrupt; }
      assert WordAt(sectors, g, 0, c) % WORD28 == fat[c];
      var value := Le32(sectors[fatSector], 4 * (c % 128)) % WORD28;
      if value >= FAT_END_MIN { return End; }
      if value < 2 || value == FAT_BAD || value >= g.Limit() { return Corrupt; }
      return Next(value);
    }

    /** `read_fat_entry`. */
    method ReadFatEntry(c: nat) returns (r: Result<nat>)
      requires Valid()
      ensures r == if IsAllocatable(g, c) then Ok(fat[c]) else Err(CorruptChain)
    {
      if c < 2 || c >= g.Limit() { return Err(CorruptChain); }
      var fatSector := g.firstFatSector + c / 128;
      if fatSector >= g.firstDataSector { return Err(CorruptChain); }
      assert WordAt(sectors, g, 0, c) % WORD28 == fat[c];
      return Ok(Le32(sectors[fatSector], 4 * (c % 128)) % WORD28);
    }

    /** `write_fat_entry`: read, merge and write back the word in every copy. */
    method WriteFatEntry(c: nat, value: nat) returns (r: Result<()>)
      requires Valid() && value < WORD28
      modifies this
      ensures Valid() && data == old(data) && info == old(info) && dataWrites == old(dataWrites)
      ensures r == if IsAllocatable(g, c) then Ok(()) else Err(CorruptChain)
      ensures fat == if IsAllocatable(g, c) then old(fat)[c := value] else old(fat)
    {
      if c < 2 || c >= g.Limit() { return Err(CorruptChain); }
      FatWriteIsUpdate(sectors, g, fat, nibbles, mirrored, c, value);
      FatWriteKeepsRest(sectors, g, data, c, value);
      sectors := WriteCopies(sectors, g, c, value);
      fat := fat[c := value];
      return Ok(());
    }

    /** Read sector `i` of cluster `c`. */
    method ReadSector(c: nat, i: nat) returns (s: Sector)
      requires Valid() && IsAllocatable(g, c) && i < g.sectorsPerCluster
      ensures s == data[c][512 * i..512 * i + 512]
    {
      s := sectors[Lba(g, c, i)];
    }

    /** Write sector `i` of cluster `c`; a refused write leaves the device as it was. */
    method WriteSector(c: nat, i: nat, s: Sector) returns (r: Result<()>)
      requires Valid() && IsAllocatable(g, c) && i < g.sectorsPerCluster
      modifies this
      ensures Valid() && fat == old(fat) && info == old(info) && dataWrites == old(dataWrites) + 1
      ensures r == if faults(old(dataWrites)) then Err(Block) else Ok(())
      ensures data == if r.Err? then old(data) else old(data)[c := Splice(old(data)[c], 512 * i, s)]
    {
      dataWrites := dataWrites + 1;
      if faults(dataWrites - 1) { return Err(Block); }
      DataWriteIsUpdate(sectors, g, fat, nibbles, mirrored, data, c, i, s);
      sectors := sectors[Lba(g, c, i) := s];
      data := data[c := Splice(data[c], 512 * i, s)];
      return Ok(());
    }

    /** `read_fs_info`. */
    method ReadFsInfo() returns (r: Option<FsInfo>)
      requires Valid()
      ensures r == ReadInfo(g, info)
    {
      if g.fsInfo.None? { return None; }
      var s := sectors[g.fsInfo.value];
      if !SignaturesValid(s) { return None; }
      var next := Le32(s, 492);
      return Some(FsInfo(Sanitize(Le32(s, 488), g.clusterCount), if IsAllocatable(g, next) then next
          else FSINFO_UNKNOWN));
    }

    method WriteFsInfoSector(lba: nat, hints: FsInfo)
      requires Valid() && 0 < lba < g.firstFatSector
      requires hints.freeCount <= FSINFO_UNKNOWN && hints.nextFree <= FSINFO_UNKNOWN
      modifies this
      ensures Valid() && fat == old(fat) && data == old(data) && dataWrites == old(dataWrites)
      ensures info == if old(info).Some? && g.fsInfo == Some(lba) then Some(hints) else old(info)
      ensures InfoAt(sectors, Some(lba)) == if InfoAt(old(sectors), Some(lba)).Some? then Some(hints) else None
      ensures |sectors| == |old(sectors)| && forall k :: 0 <= k < |sectors| && k != lba ==>
                sectors[k] == old(sectors)[k]
    {
      var s := sectors[lba];
      if SignaturesValid(s) {
        ReservedWriteKeepsViews(sectors, g, fat, nibbles, mirrored, data, lba, PutInfo(s, hints));
        sectors := sectors[lba := PutInfo(s, hints)];
        info := InfoOf(sectors, g);
      }
    }

    /** `write_fs_info`: the primary and the backup FSInfo sector hold the same hints afterwards, and no other sector
        changes. */
    method WriteFsInfo(hints: FsInfo)
      requires Valid()
      requires hints.freeCount <= FSINFO_UNKNOWN && hints.nextFree <= FSINFO_UNKNOWN
      modifies this
      ensures Valid() && fat == old(fat) && data == old(data) && dataWrites == old(dataWrites)
      ensures info == if old(info).Some? then Some(hints) else None
      ensures InfoAt(sectors, g.backupFsInfo) == if InfoAt(old(sectors), g.backupFsInfo).Some? then Some(hints)
              else None
      ensures |sectors| == |old(sectors)|
      ensures forall k :: 0 <= k < |sectors| && g.fsInfo != Some(k) && g.backupFsInfo != Some(k) ==>
                sectors[k] == old(sectors)[k]
    {
      if g.fsInfo.Some? {
        WriteFsInfoSector(g.fsInfo.value, hints);
      }
      if g.backupFsInfo.Some? {
        WriteFsInfoSector(g.backupFsInfo.value, hints);
      }
    }
  }
}
