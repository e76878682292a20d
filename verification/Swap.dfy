/** Swap slots: reserving, publishing, sharing and releasing pages, in memory or on disk. */
module Swap {
  import opened Bytes
  import opened BlockCache

  const MAX_SWAP_SLOTS: nat := 32
  const PAGE_SIZE: nat := 4096
  const SECTORS_PER_PAGE: nat := 8
  const GENERATIONS: nat := 0xffff
  const MAX_REFCOUNT: nat := 0xffff
  const LBA_LIMIT: nat := 0x1_0000_0000_0000_0000

  type Page = p: seq<Byte> | |p| == 4096 witness seq(4096, _ => 0)

  datatype Handle = Handle(index: nat, generation: nat)
  datatype Backing = Ram | OnDisk
  datatype Slot = Slot(data: Page, refcount: nat, generation: nat, occupied: bool, backing: Backing)
  datatype DiskBacking = DiskBacking(startLba: nat, slots: nat)

  const EMPTY_SLOT: Slot := Slot(Zeros(PAGE_SIZE), 0, 0, false, Ram)

  type Slots = s: seq<Slot> | |s| == 32 witness seq(32, _ => EMPTY_SLOT)

  function Cleared(s: Slot): Slot { EMPTY_SLOT.(generation := s.generation) }

  // ------------------------------------------------------------ generations

  /** The generation of a slot that has been taken `n` times: 0 only before the first. */
  function GenerationOf(n: nat): (g: nat)
    ensures g <= GENERATIONS && (g == 0 <==> n == 0)
  {
    if n == 0 then 0 else 1 + (n - 1) % GENERATIONS
  }

  function NextGeneration(g: nat): nat {
    if (g + 1) % 0x1_0000 == 0 then 1 else (g + 1) % 0x1_0000
  }

  lemma NextGenerationCounts(n: nat)
    ensures NextGeneration(GenerationOf(n)) == GenerationOf(n + 1)
  {
  }

  lemma MultipleOf(k: int)
    requires 0 <= k * GENERATIONS
    ensures (k * GENERATIONS) % GENERATIONS == 0
  {
  }

  /** Two uses of a slot share a generation if and only if a whole round of generations lies between them. */
  lemma SameGenerationIff(a: nat, b: nat)
    requires 1 <= a <= b
    ensures GenerationOf(a) == GenerationOf(b) <==> (b - a) % GENERATIONS == 0
  {
    var x, y := (a - 1) % GENERATIONS, (b - 1) % GENERATIONS;
    var p, q := (a - 1) / GENERATIONS, (b - 1) / GENERATIONS;
    assert b - a == (q - p) * GENERATIONS + (y - x);
    if x == y {
      MultipleOf(q - p);
    }
  }

  // ---------------------------------------------- what the operations do

  /** The slot a handle names, if it is live. */
  predicate Live(slots: Slots, h: Handle) {
    h.index < MAX_SWAP_SLOTS && slots[h.index].occupied && slots[h.index].refcount > 0 &&
    slots[h.index].generation == h.generation
  }

  ghost predicate FirstFree(slots: Slots, i: nat) {
    i < MAX_SWAP_SLOTS && !slots[i].occupied && forall k {:trigger slots[k]} :: 0 <= k < i ==> slots[k].occupied
  }

  ghost predicate Full(slots: Slots) {
    forall k {:trigger slots[k]} :: 0 <= k < MAX_SWAP_SLOTS ==> slots[k].occupied
  }

  function DiskLba(disk: Option<DiskBacking>, i: nat): Option<nat> {
    if disk.None? || i >= disk.value.slots || disk.value.startLba + i * SECTORS_PER_PAGE >= LBA_LIMIT then None
    else Some(disk.value.startLba + i * SECTORS_PER_PAGE)
  }

  function ReservedSlot(s: Slot): Slot {
    Slot(Zeros(PAGE_SIZE), 0, NextGeneration(s.generation), true, OnDisk)
  }

  function RamSlot(s: Slot, bytes: Page): Slot {
    Slot(bytes, 1, NextGeneration(s.generation), true, Ram)
  }

  function SharedSlots(slots: Slots, h: Handle): Slots {
    if Live(slots, h) && slots[h.index].refcount < MAX_REFCOUNT
    then slots[h.index := slots[h.index].(refcount := slots[h.index].refcount + 1)] else slots
  }

  function ReleasedSlots(slots: Slots, h: Handle): Slots {
    if !Live(slots, h) then slots
    else if slots[h.index].refcount == 1 then slots[h.index := Cleared(slots[h.index])]
    else slots[h.index := slots[h.index].(refcount := slots[h.index].refcount - 1)]
  }

  /** A reservation that is still pending under this generation. */
  predicate Pending(slots: Slots, i: nat, generation: nat) {
    i < MAX_SWAP_SLOTS && slots[i].occupied && slots[i].refcount == 0 && slots[i].generation == generation
  }

  function PublishedSlots(slots: Slots, i: nat, generation: nat): Slots {
    if Pending(slots, i, generation) then slots[i := slots[i].(refcount := 1, backing := OnDisk)] else slots
  }

  function CancelledSlots(slots: Slots, i: nat, generation: nat): Slots {
    if Pending(slots, i, generation) then slots[i := Cleared(slots[i])] else slots
  }

  /** No page is held. */
  ghost predicate Unused(slots: Slots) {
    forall k {:trigger slots[k]} :: 0 <= k < MAX_SWAP_SLOTS ==> !(slots[k].occupied && slots[k].refcount > 0)
  }

  /** How many of the first `n` slots hold a page. */
  ghost function Held(slots: Slots, n: nat): nat
    requires n <= MAX_SWAP_SLOTS
  {
    if n == 0 then 0 else Held(slots, n - 1) + if slots[n - 1].occupied && slots[n - 1].refcount > 0 then 1 else 0
  }

  function Backings(startLba: nat, sectors: nat): DiskBacking {
    DiskBacking(startLba, if sectors / SECTORS_PER_PAGE < MAX_SWAP_SLOTS then sectors / SECTORS_PER_PAGE
    else MAX_SWAP_SLOTS)
  }

  // ------------------------------------------------------- pages on a device

  function SectorOf(p: Page, k: nat): (s: Sector)
    requires k < SECTORS_PER_PAGE
  {
    p[k * SECTOR_SIZE..k * SECTOR_SIZE + SECTOR_SIZE]
  }

  /** The first `n` sectors from `lba` are those of the page. */
  ghost predicate HoldsPage(sectors: seq<Sector>, lba: nat, p: Page, n: nat) {
    && n <= SECTORS_PER_PAGE && lba + n <= |sectors|
    && forall k {:trigger SectorOf(p, k)} :: 0 <= k < n ==> sectors[lba + k] == SectorOf(p, k)
  }

  lemma NextSector(p: Page, k: nat)
    requires k < SECTORS_PER_PAGE
    ensures p[..k * SECTOR_SIZE] + SectorOf(p, k) == p[..(k + 1) * SECTOR_SIZE]
  {
  }

  /** A write beyond the device changes nothing. */
  function Stored(device: seq<Sector>, lba: nat, data: Sector): seq<Sector> {
    if lba < |device| then device[lba := data] else device
  }

  /** The device after the first `n` sectors of a page went to `lba`. */
  ghost function Written(device: seq<Sector>, lba: nat, bytes: Page, n: nat): (r: seq<Sector>)
    requires n <= SECTORS_PER_PAGE
    ensures |r| == |device|
  {
    if n == 0 then device else Stored(Written(device, lba, bytes, n - 1), lba + n - 1, SectorOf(bytes, n - 1))
  }

  lemma {:induction false} WrittenHolds(device: seq<Sector>, lba: nat, bytes: Page, n: nat)
    requires n <= SECTORS_PER_PAGE && lba + n <= |device|
    ensures HoldsPage(Written(device, lba, bytes, n), lba, bytes, n)
  {
    if n > 0 { WrittenHolds(device, lba, bytes, n - 1); }
  }

  /** One sector of a page; a failure may leave anything in it. */
  method WriteOne(device: CachedDevice, lba: nat, data: Sector)
    returns (r: BlockCache.Result<()>, ghost left: Sector)
    requires device.Valid()
    modifies device
    ensures device.Valid() && |device.entries| == old(|device.entries|)
    ensures r.Ok? ==> lba < |device.view|
    ensures device.view == Stored(old(device.view), lba, if r.Ok? then data else left)
  {
    left := if lba < |device.view| then device.view[lba] else Zeros(SECTOR_SIZE);
    if lba >= LBA_LIMIT { return Err(OutOfBounds), left; }
    r := device.WriteSector(lba, data);
    if r.Err? && lba < |device.view| { left := device.view[lba]; }
  }

  /** Eight sectors in a row, sector by sector. A failure stops it after `done` of them, and
      the next one may then hold anything. */
  method WritePage(device: CachedDevice, lba: nat, bytes: Page)
    returns (r: BlockCache.Result<()>, ghost done: nat, ghost left: Sector)
    requires device.Valid()
    modifies device
    ensures device.Valid() && |device.entries| == old(|device.entries|)
    ensures if r.Ok? then
              && done == SECTORS_PER_PAGE && lba + done <= |device.view|
              && device.view == Written(old(device.view), lba, bytes, done)
            else
              && done < SECTORS_PER_PAGE && (done > 0 ==> lba + done <= |device.view|)
              && device.view == Stored(Written(old(device.view), lba, bytes, done), lba + done, left)
  {
    left := Zeros(SECTOR_SIZE);
    var k := 0;
    while k < SECTORS_PER_PAGE
      invariant 0 <= k <= SECTORS_PER_PAGE && device.Valid() && |device.entries| == old(|device.entries|)
      invariant device.view == Written(old(device.view), lba, bytes, k)
      invariant k > 0 ==> lba + k <= |device.view|
    {
      r, left := WriteOne(device, lba + k, SectorOf(bytes, k));
      if r.Err? { return r, k, left; }
      k := k + 1;
    }
    return Ok(()), SECTORS_PER_PAGE, left;
  }

  method ReadPage(device: CachedDevice, lba: nat) returns (r: BlockCache.Result<Page>)
    requires device.Valid()
    modifies device
    ensures device.Valid() && device.view == old(device.view) && |device.entries| == old(|device.entries|)
    ensures r.Ok? ==> HoldsPage(device.view, lba, r.value, SECTORS_PER_PAGE)
  {
    var k, bytes := 0, Zeros(0);
    while k < SECTORS_PER_PAGE
      invariant 0 <= k <= SECTORS_PER_PAGE && |bytes| == k * SECTOR_SIZE
      invariant device.Valid() && device.view == old(device.view) && |device.entries| == old(|device.entries|)
      invariant k > 0 ==> lba + k <= |device.view|
      invariant forall j :: 0 <= j < k ==> device.view[lba + j] == bytes[j * SECTOR_SIZE..j * SECTOR_SIZE + SECTOR_SIZE]
    {
      if lba + k >= LBA_LIMIT { return Err(OutOfBounds); }
      var s := device.ReadSector(lba + k, SECTOR_SIZE);
      if s.Err? { return Err(s.error); }
      bytes := bytes + s.value;
      k := k + 1;
    }
    return Ok(bytes);
  }

  /** Eight sectors determine the page. */
  lemma PageIsUnique(sectors: seq<Sector>, lba: nat, p: Page, q: Page)
    requires HoldsPage(sectors, lba, p, SECTORS_PER_PAGE) && HoldsPage(sectors, lba, q, SECTORS_PER_PAGE)
    ensures p == q
  {
    forall i | 0 <= i < PAGE_SIZE ensures p[i] == q[i] {
      var k := i / SECTOR_SIZE;
      assert SectorOf(p, k)[i - k * SECTOR_SIZE] == p[i];
      assert SectorOf(q, k)[i - k * SECTOR_SIZE] == q[i];
      assert SectorOf(p, k) == SectorOf(q, k);
    }
  }

  class SwapState {
    var slots: Slots
    var disk: Option<DiskBacking>

    constructor ()
      ensures disk.None? && forall i :: 0 <= i < MAX_SWAP_SLOTS ==> slots[i] == EMPTY_SLOT
    {
      slots, disk := seq(32, _ => EMPTY_SLOT), None;
    }

    method FreeSlot() returns (r: Option<nat>)
      ensures r.Some? ==> FirstFree(slots, r.value)
      ensures r.None? ==> Full(slots)
    {
      for i := 0 to MAX_SWAP_SLOTS
        invariant forall k {:trigger slots[k]} :: 0 <= k < i ==> slots[k].occupied
      {
        if !slots[i].occupied { return Some(i); }
      }
      return None;
    }

    method Used() returns (n: nat)
      ensures n == Held(slots, MAX_SWAP_SLOTS) && (n == 0 <==> Unused(slots))
    {
      n := 0;
      for i := 0 to MAX_SWAP_SLOTS
        invariant n == Held(slots, i)
        invariant n == 0 <==>
                    forall k {:trigger slots[k]} :: 0 <= k < i ==> !(slots[k].occupied && slots[k].refcount > 0)
      {
        if slots[i].occupied && slots[i].refcount > 0 { n := n + 1; }
      }
    }

    method ConfigureDisk(startLba: nat, sectors: nat) returns (r: Option<nat>)
      modifies this`disk
      ensures r.Some? <==> Unused(slots) && sectors >= SECTORS_PER_PAGE
      ensures r.Some? ==> disk == Some(Backings(startLba, sectors)) && 0 < r.value == disk.value.slots <= MAX_SWAP_SLOTS
      ensures r.None? ==> disk == old(disk)
    {
      var used := Used();
      if used != 0 || sectors < SECTORS_PER_PAGE { return None; }
      disk := Some(Backings(startLba, sectors));
      return Some(disk.value.slots);
    }

    /** A slot set aside: occupied, with no reference until it is published. */
    method ReserveDisk() returns (r: Option<(nat, nat, nat)>)
      modifies this`slots
      ensures r.None? ==>
                slots == old(slots) && (Full(slots) || exists i :: FirstFree(slots, i) && DiskLba(disk, i).None?)
      ensures r.Some? ==>
        && FirstFree(old(slots), r.value.0) && DiskLba(disk, r.value.0) == Some(r.value.2)
        && slots == old(slots)[r.value.0 := ReservedSlot(old(slots)[r.value.0])]
        && Pending(slots, r.value.0, r.value.1)
    {
      var free := FreeSlot();
      if free.None? { return None; }
      var i := free.value;
      var lba := DiskLba(disk, i);
      if lba.None? { return None; }
      slots := slots[i := ReservedSlot(slots[i])];
      return Some((i, slots[i].generation, lba.value));
    }

    method PublishReservedDisk(i: nat, generation: nat) returns (r: Option<Handle>)
      modifies this`slots
      ensures slots == PublishedSlots(old(slots), i, generation)
      ensures r == if Pending(old(slots), i, generation) then Some(Handle(i, generation)) else None
      ensures r.Some? ==> Live(slots, r.value)
    {
      if i >= MAX_SWAP_SLOTS || !slots[i].occupied || slots[i].refcount != 0 || slots[i].generation != generation {
        return None;
      }
      slots := slots[i := slots[i].(refcount := 1, backing := OnDisk)];
      return Some(Handle(i, generation));
    }

    method CancelReserved(i: nat, generation: nat)
      modifies this`slots
      ensures slots == CancelledSlots(old(slots), i, generation)
    {
      if i >= MAX_SWAP_SLOTS { return; }
      if slots[i].occupied && slots[i].refcount == 0 && slots[i].generation == generation {
        slots := slots[i := Cleared(slots[i])];
      }
    }

    method AllocateRam(bytes: Page) returns (r: Option<Handle>)
      modifies this`slots
      ensures r.None? ==> slots == old(slots) && Full(slots)
      ensures r.Some? ==>
        && FirstFree(old(slots), r.value.index) && Live(slots, r.value)
        && slots == old(slots)[r.value.index := RamSlot(old(slots)[r.value.index], bytes)]
    {
      var free := FreeSlot();
      if free.None? { return None; }
      var i := free.value;
      slots := slots[i := RamSlot(slots[i], bytes)];
      return Some(Handle(i, slots[i].generation));
    }

    method Share(h: Handle) returns (ok: bool)
      modifies this`slots
      ensures ok <==> Live(old(slots), h) && old(slots)[h.index].refcount < MAX_REFCOUNT
      ensures slots == SharedSlots(old(slots), h)
    {
      ok := Live(slots, h) && slots[h.index].refcount < MAX_REFCOUNT;
      if ok { slots := slots[h.index := slots[h.index].(refcount := slots[h.index].refcount + 1)]; }
    }

    method Release(h: Handle) returns (ok: bool)
      modifies this`slots
      ensures ok <==> Live(old(slots), h)
      ensures slots == ReleasedSlots(old(slots), h)
    {
      ok := Live(slots, h);
      if ok {
        var s := slots[h.index].(refcount := slots[h.index].refcount - 1);
        slots := slots[h.index := if s.refcount == 0 then Cleared(s) else s];
      }
    }
  }
}
