/** What `mount` leaves unchecked, and exactly when that matters. */
module FatMount {
  import opened Bytes
  import opened FatChain
  import opened FatVolume

  /** The entry of every cluster lies inside its own FAT copy. */
  ghost predicate EntriesInPlace(g: Geometry) {
    forall c: nat, k: nat {:trigger FatSector(g, k, c)} :: c < g.Limit() && k < g.fatCount ==>
      g.firstFatSector + (if k == 0 then 0 else g.fatSize) <= FatSector(g, k, c) < g.firstFatSector +
      (if k == 0 then g.fatSize else 2 * g.fatSize)
  }

  /** FAT entries stay in the FAT if and only if it is long enough for every cluster. */
  lemma EntriesInPlaceIff(g: Geometry, sectorCount: nat)
    requires g.Mountable(sectorCount)
    ensures EntriesInPlace(g) <==> g.Limit() <= 128 * g.fatSize
  {
    if EntriesInPlace(g) {
      var last: nat := g.Limit() - 1;
      assert FatSector(g, 0, last) < g.firstFatSector + g.fatSize;
    }
  }

  /** The link read at `at` after the number `c` was stored there in 28 bits. */
  function StoredLink(fat: Fat, lim: nat, at: nat, c: nat): Link
    requires lim <= |fat| && at < lim
  {
    LinkOf(fat[at := c % WORD28], lim, at)
  }

  /** A link to any cluster leads there. */
  ghost predicate LinksReadBack(lim: nat) {
    forall fat: Fat, at: nat, c: nat :: lim <= |fat| && 2 <= at < lim && 2 <= c < lim ==>
          StoredLink(fat, lim, at, c) == Next(c)
  }

  /** Links to all clusters read back if and only if no cluster number is a mark. */
  lemma LinksReadBackIff(lim: nat)
    requires lim > 2
    ensures LinksReadBack(lim) <==> lim <= FAT_BAD
  {
    if lim > FAT_BAD {
      var fat: Fat := seq(lim, _ => 0);
      assert fat[2] == 0 && FAT_BAD % WORD28 == FAT_BAD;
      assert StoredLink(fat, lim, 2, FAT_BAD) == Corrupt;
    }
  }

  /** The boot sector of a volume of `total` sectors with one FAT, one sector to a cluster and no FSInfo. */
  function BootSector(total: nat, fatSize: nat): (s: Sector)
    requires total < 0x1_0000_0000 && fatSize < 0x1_0000_0000
    ensures s[13] == 1 && s[16] == 1 && s[510] == 0x55 && s[511] == 0xaa
    ensures Le16(s, 11) == 512 && Le16(s, 14) == 1 && Le16(s, 17) == 0 && Le16(s, 19) == 0 && Le16(s, 22) == 0
    ensures Le16(s, 48) == 0 && Le16(s, 50) == 0
    ensures Le32(s, 32) == total && Le32(s, 36) == fatSize && Le32(s, 44) == 2
  {
    var a := Put16(Zeros(512), 11, 512)[13 := 1];
    var b := Put16(a, 14, 1)[16 := 1];
    var c := Put32(Put32(Put32(b, 32, total), 36, fatSize), 44, 2);
    c[510 := 0x55][511 := 0xaa]
  }

  lemma MountAccepts(total: nat, fatSize: nat) returns (sectors: seq<Sector>)
    requires 0 < fatSize && 1 + fatSize + FAT32_MIN_CLUSTERS <= total < 0x1_0000_0000
    ensures |sectors| == total && Mount(sectors).Ok?
    ensures Mount(sectors).value.clusterCount == total - 1 - fatSize && Mount(sectors).value.fatSize == fatSize
  {
    var zeros: Sector := Zeros(512);
    sectors := seq<Sector>(total, i => if i == 0 then BootSector(total, fatSize) else zeros);
    assert sectors[0] == BootSector(total, fatSize);
  }

  /** `mount` accepts a volume whose FAT is too short for its clusters. */
  lemma MountAcceptsShortFat() returns (sectors: seq<Sector>)
    ensures Mount(sectors).Ok? && !EntriesInPlace(Mount(sectors).value)
  {
    sectors := MountAccepts(70000, 1);
    EntriesInPlaceIff(Mount(sectors).value, 70000);
  }

  /** `mount` accepts a volume with cluster numbers that read as marks, though its FAT is long enough. */
  lemma MountAcceptsMarks() returns (sectors: seq<Sector>)
    ensures Mount(sectors).Ok? && EntriesInPlace(Mount(sectors).value) && !LinksReadBack(Mount(sectors).value.Limit())
  {
    sectors := MountAccepts(1 + 0x20_0000 + FAT_BAD, 0x20_0000);
    EntriesInPlaceIff(Mount(sectors).value, |sectors|);
    LinksReadBackIff(Mount(sectors).value.Limit());
  }
}
