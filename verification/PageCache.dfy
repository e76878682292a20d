/** Clean file pages, loaded on demand through the chain-walking range read. */
module PageCache {
  import opened Bytes
  import opened FatVolume
  import opened FatFile
  import opened FatOutcome
  import opened FatRead

  const PAGE_SIZE: nat := 4096
  const KEY_SIZE: nat := 128
  const ADDRESS_LIMIT: nat := 0x1_0000_0000_0000_0000
  const MAX_AGE: nat := 0xffff_ffff_ffff_ffff

  type Key = seq<Byte>

  /** `data` is the part of the page that exists in the file. */
  datatype Slot = Slot(key: Key, page: nat, data: seq<Byte>, valid: bool, age: nat)

  const EMPTY_PAGE: Slot := Slot([], 0, [], false, 0)

  datatype Failure = BadBuffer | Fault
  datatype Answer<+T> = Read(value: T) | Failed(error: Failure)

  /** "/mnt/". */
  const MOUNT_POINT: Key := [0x2f, 0x6d, 0x6e, 0x74, 0x2f]

  /** The components of a key below the mount point. */
  function Below(key: Key): seq<seq<Byte>> {
    if |key| < 5 then [] else SplitPath(key[5..])
  }

  /** `contents` are files of the volume, as readers by path find them. */
  ghost predicate OnVolume(v: Volume, d: Disk, contents: map<Key, seq<Byte>>)
    requires v.Valid()
    reads v
  {
    && d.fat == v.fat && d.data == v.data
    && forall key {:trigger Below(key)} :: key in contents ==> FileIs(v.g, d, Below(key), contents[key])
  }

  /** The bytes of one page of a file. */
  ghost function PageOf(content: seq<Byte>, page: nat): seq<Byte> {
    RangeOf(content, |content|, page * PAGE_SIZE, PAGE_SIZE)
  }

  /** Every valid slot of a file holds that page as the file has it now. */
  ghost predicate Fresh(slots: seq<Slot>, contents: map<Key, seq<Byte>>) {
    forall i {:trigger slots[i]} :: 0 <= i < |slots| && slots[i].valid && slots[i].key in contents ==>
      slots[i].data == PageOf(contents[slots[i].key], slots[i].page)
  }

  /** `copied` bytes from `offset` on are in `out`. */
  ghost predicate Copied(content: seq<Byte>, offset: nat, out: seq<Byte>) {
    out == [] || (offset + |out| <= |content| && out == content[offset..offset + |out|])
  }

  /** What the copy step takes from the page at `offset + |out|`. */
  function Part(data: seq<Byte>, within: nat, want: nat): seq<Byte> {
    if within >= |data| then [] else if |data| - within < want then data[within..] else data[within..within + want]
  }

  lemma Continued(content: seq<Byte>, offset: nat, out: seq<Byte>, part: seq<Byte>)
    requires Copied(content, offset, out)
    requires part != [] ==>
               offset + |out| + |part| <= |content| && part == content[offset + |out|..offset + |out| + |part|]
    ensures Copied(content, offset, out + part)
  {
    if part != [] {
      var a, b := offset + |out|, offset + |out| + |part|;
      assert content[offset..b] == content[offset..a] + content[a..b];
    }
  }

  lemma PartOfContent(content: seq<Byte>, page: nat, within: nat, want: nat)
    requires within < PAGE_SIZE && want > 0
    ensures var position := page * PAGE_SIZE + within;
            var data := PageOf(content, page);
            var part := Part(data, within, want);
            && |data| <= PAGE_SIZE
            && |part| == (if position >= |content| then 0
                          else var rest := (if |content| - position < PAGE_SIZE - within then |content| - position
                              else PAGE_SIZE - within);
                               if rest < want then rest else want)
            && (part != [] ==> part == content[position..position + |part|])
            && (|data| < PAGE_SIZE <==> |content| < page * PAGE_SIZE + PAGE_SIZE)
  {
    var lo := page * PAGE_SIZE;
    var data, part := PageOf(content, page), Part(PageOf(content, page), within, want);
    if lo < |content| {
      var end := if lo + PAGE_SIZE <= |content| then lo + PAGE_SIZE else |content|;
      assert data == content[lo..end];
      if within < |data| {
        SliceSlice(content, lo, end, within, within + |part|);
        assert part == data[within..within + |part|];
      }
    }
  }

  /** The next part continues the range, and an empty part or a short page means the end of the file. */
  lemma NextPart(content: seq<Byte>, offset: nat, out: seq<Byte>, n: nat, page: nat, within: nat)
    requires Copied(content, offset, out) && |out| < n && offset + |out| == page * PAGE_SIZE + within &&
             within < PAGE_SIZE
    ensures var data := PageOf(content, page);
            var part := Part(data, within, n - |out|);
            && Copied(content, offset, out + part) && |out + part| <= n
            && (part == [] || |data| < PAGE_SIZE || |out + part| == n ==>
               out + part == RangeOf(content, |content|, offset, n))
  {
    var data := PageOf(content, page);
    var part := Part(data, within, n - |out|);
    PartOfContent(content, page, within, n - |out|);
    Continued(content, offset, out, part);
  }

  ghost predicate InSlot(slots: seq<Slot>, i: nat, key: Key, page: nat) {
    i < |slots| && slots[i].valid && slots[i].key == key && slots[i].page == page
  }

  /** The requests that are not refused outright. */
  ghost predicate Accepts(capacity: nat, key: Key, offset: nat, n: nat) {
    0 < |key| <= KEY_SIZE && capacity > 0 && offset + n < ADDRESS_LIMIT
  }

  /** The copy so far, complete as soon as it is long enough or there is nothing more. */
  ghost predicate Reading(content: seq<Byte>, offset: nat, n: nat, out: seq<Byte>, more: bool) {
    Copied(content, offset, out) && (|out| == n || !more ==> out == RangeOf(content, |content|, offset, n))
  }

  /** One use older, up to the greatest age. */
  function Aged(s: Slot): Slot {
    if s.valid && s.age < MAX_AGE then s.(age := s.age + 1) else s
  }

  /** The slot given up for a new page: the first unused one, or else the last of the oldest. */
  ghost predicate IsVictim(slots: seq<Slot>, v: nat) {
    && v < |slots|
    && if slots[v].valid then
         && (forall k {:trigger slots[k]} :: 0 <= k < |slots| ==> slots[k].valid && slots[k].age <= slots[v].age)
         && (forall k {:trigger slots[k]} :: v < k < |slots| ==> slots[k].age < slots[v].age)
       else forall k {:trigger slots[k]} :: 0 <= k < v ==> slots[k].valid
  }

  class Cache {
    var slots: seq<Slot>
    /** Which page loads fail below, counting loads. */
    const faults: nat -> bool
    var loads: nat

    constructor (capacity: nat, faults: nat -> bool)
      ensures |slots| == capacity && forall contents :: Fresh(slots, contents)
    {
      slots, this.faults, loads := seq(capacity, _ => EMPTY_PAGE), faults, 0;
    }

    /** Forget every page: whatever the files become, no stale page is left. */
    method Invalidate()
      modifies this`slots
      ensures |slots| == old(|slots|) && forall contents :: Fresh(slots, contents)
    {
      var i := 0;
      while i < |slots|
        invariant 0 <= i <= |slots| == old(|slots|)
        invariant forall k :: 0 <= k < i ==> !slots[k].valid
      {
        slots := slots[i := slots[i].(valid := false)];
        i := i + 1;
      }
    }

    method Find(key: Key, page: nat) returns (r: Option<nat>)
      ensures r.Some? ==>
                r.value < |slots| && slots[r.value].valid && slots[r.value].key == key && slots[r.value].page == page
      ensures r.None? ==>
                forall k :: 0 <= k < |slots| ==> !(slots[k].valid && slots[k].key == key && slots[k].page == page)
    {
      var i := 0;
      while i < |slots|
        invariant 0 <= i <= |slots|
        invariant forall k :: 0 <= k < i ==> !(slots[k].valid && slots[k].key == key && slots[k].page == page)
      {
        if slots[i].valid && slots[i].page == page && slots[i].key == key { return Some(i); }
        i := i + 1;
      }
      return None;
    }

    method Victim() returns (v: nat)
      requires |slots| > 0
      ensures IsVictim(slots, v)
    {
      var i := 0;
      while i < |slots|
        invariant 0 <= i <= |slots|
        invariant forall k :: 0 <= k < i ==> slots[k].valid
      {
        if !slots[i].valid { return i; }
        i := i + 1;
      }
      v, i := 0, 1;
      while i < |slots|
        invariant 0 <= v < i <= |slots|
        invariant forall k :: 0 <= k < i ==> slots[k].age <= slots[v].age
        invariant forall k :: v < k < i ==> slots[k].age < slots[v].age
      {
        if slots[i].age >= slots[v].age { v := i; }
        i := i + 1;
      }
    }

    method Touch(index: nat)
      requires index < |slots|
      modifies this`slots
      ensures |slots| == old(|slots|)
      ensures forall k {:trigger slots[k]} :: 0 <= k < |slots| ==>
        slots[k] == if k == index then old(slots)[k].(age := 0) else Aged(old(slots)[k])
    {
      var i := 0;
      while i < |slots|
        invariant 0 <= i <= |slots| == old(|slots|)
        invariant forall k {:trigger slots[k]} :: 0 <= k < |slots| ==>
                    slots[k] == if k < i then Aged(old(slots)[k]) else old(slots)[k]
      {
        slots := slots[i := Aged(slots[i])];
        i := i + 1;
      }
      slots := slots[index := slots[index].(age := 0)];
    }

    /** One page of a file, through its path, its directory entry and its cluster chain. */
    method Load(v: Volume, ghost d: Disk, ghost contents: map<Key, seq<Byte>>, key: Key, page: nat)
      returns (r: Answer<seq<Byte>>)
      requires v.Valid() && OnVolume(v, d, contents)
      modifies this`loads
      ensures loads == old(loads) + 1
      ensures faults(old(loads)) ==> r == Failed(Fault)
      ensures key in contents && !faults(old(loads)) ==> r == Read(PageOf(contents[key], page))
      ensures EntryAt(v.g, d, Below(key)).Err? ==> r == Failed(Fault)
    {
      var fails := faults(loads);
      loads := loads + 1;
      r := Failed(Fault);
      if !fails {
        ghost var bytes := if key in contents then contents[key] else [];
        var data := ReadKnown(v, Below(key), page * PAGE_SIZE, PAGE_SIZE, d, key in contents, bytes);
        if data.Ok? { r := Read(data.value); }
      }
    }

    /** Load a page into a slot that is given up for it; until the load succeeds the slot is unused. */
    method Refill(v: Volume, ghost d: Disk, ghost contents: map<Key, seq<Byte>>, key: Key, page: nat)
      returns (r: Answer<nat>)
      requires v.Valid() && OnVolume(v, d, contents) && Fresh(slots, contents) && |slots| > 0
      modifies this
      ensures Fresh(slots, contents) && |slots| == old(|slots|) && loads == old(loads) + 1
      ensures r.Read? ==> InSlot(slots, r.value, key, page) && IsVictim(old(slots), r.value)
      ensures key in contents ==> (r.Failed? <==> faults(old(loads)))
    {
      var index := Victim();
      slots := slots[index := slots[index].(valid := false)];
      var data := Load(v, d, contents, key, page);
      if data.Failed? { return Failed(data.error); }
      if key in contents { PartOfContent(contents[key], page, 0, 1); }
      if |data.value| > PAGE_SIZE { return Failed(BadBuffer); }
      slots := slots[index := Slot(key, page, data.value, true, slots[index].age)];
      return Read(index);
    }

    method Fetch(v: Volume, ghost d: Disk, ghost contents: map<Key, seq<Byte>>, key: Key, page: nat)
      returns (r: Answer<seq<Byte>>)
      requires v.Valid() && OnVolume(v, d, contents) && Fresh(slots, contents) && |slots| > 0
      modifies this
      ensures Fresh(slots, contents) && |slots| == old(|slots|) && old(loads) <= loads
      ensures key in contents ==> (r.Failed? <==> old(loads) < loads && faults(loads - 1))
      ensures key in contents && r.Read? ==> r.value == PageOf(contents[key], page)
    {
      var found := Find(key, page);
      var index: nat;
      if found.Some? {
        index := found.value;
      } else {
        var filled := Refill(v, d, contents, key, page);
        if filled.Failed? { return Failed(filled.error); }
        index := filled.value;
      }
      assert InSlot(slots, index, key, page);
      Touch(index);
      return Read(slots[index].data);
    }

    /** One round of the copy loop: what follows `out`, and whether there may be more. */
    method CopyPart(v: Volume, ghost d: Disk, ghost contents: map<Key, seq<Byte>>, key: Key,
                    offset: nat, n: nat, out: seq<Byte>)
      returns (r: Answer<seq<Byte>>, more: bool)
      requires v.Valid() && OnVolume(v, d, contents) && Fresh(slots, contents) && |slots| > 0 && |out| < n
      requires key in contents ==> Copied(contents[key], offset, out)
      modifies this
      ensures Fresh(slots, contents) && |slots| == old(|slots|) && old(loads) <= loads
      ensures key in contents ==> (r.Failed? <==> old(loads) < loads && faults(loads - 1))
      ensures r.Read? ==> |out| <= |r.value| <= n && (more ==> |out| < |r.value|)
      ensures key in contents && r.Read? ==> Reading(contents[key], offset, n, r.value, more)
    {
      var position := offset + |out|;
      var page, within := position / PAGE_SIZE, position % PAGE_SIZE;
      var data := Fetch(v, d, contents, key, page);
      if data.Failed? { return Failed(data.error), false; }
      var part := Part(data.value, within, n - |out|);
      if key in contents { NextPart(contents[key], offset, out, n, page, within); }
      return Read(out + part), part != [] && |data.value| == PAGE_SIZE;
    }

    /** A read at any offset returns the file's bytes up to its end, from cached or freshly loaded pages alike. */
    method ReadAt(v: Volume, ghost d: Disk, ghost contents: map<Key, seq<Byte>>, key: Key, offset: nat, n: nat)
      returns (r: Answer<seq<Byte>>)
      requires v.Valid() && OnVolume(v, d, contents) && Fresh(slots, contents)
      modifies this
      ensures Fresh(slots, contents) && |slots| == old(|slots|) && old(loads) <= loads
      ensures !Accepts(|slots|, key, offset, n) ==> r == Failed(BadBuffer) && slots == old(slots)
      ensures key in contents && Accepts(|slots|, key, offset, n) ==>
                (r.Failed? <==> old(loads) < loads && faults(loads - 1))
      ensures key in contents && r.Read? ==> r.value == RangeOf(contents[key], |contents[key]|, offset, n)
    {
      if key == [] || |key| > KEY_SIZE || |slots| == 0 || offset + n >= ADDRESS_LIMIT { return Failed(BadBuffer); }
      var more := true;
      r := Read([]);
      while r.Read? && |r.value| < n && more
        invariant Fresh(slots, contents) && |slots| == old(|slots|) && old(loads) <= loads
        invariant key in contents ==> (r.Failed? <==> old(loads) < loads && faults(loads - 1))
        invariant r.Read? ==> |r.value| <= n && (key in contents ==> Reading(contents[key], offset, n, r.value, more))
        decreases r.Read?, more, if r.Read? then n - |r.value| else 0
      {
        r, more := CopyPart(v, d, contents, key, offset, n, r.value);
      }
    }

    /** `read_disk_file`: keys are paths below the mount point; `present` says whether the disk is there. */
    method ReadDiskFile(v: Volume, ghost d: Disk, ghost contents: map<Key, seq<Byte>>, path: Key, offset: nat, n: nat,
                        mounted: bool, present: bool)
      returns (r: Answer<seq<Byte>>)
      requires v.Valid() && OnVolume(v, d, contents) && Fresh(slots, contents)
      modifies this
      ensures Fresh(slots, contents) && |slots| == old(|slots|) && old(loads) <= loads
      ensures !mounted ==> r == Failed(Fault) && slots == old(slots)
      ensures mounted && !(MOUNT_POINT <= path) ==> r == Failed(BadBuffer) && slots == old(slots)
      ensures mounted && MOUNT_POINT <= path && !present ==> r == Failed(Fault) && slots == old(slots)
      ensures mounted && MOUNT_POINT <= path && present ==>
                && (!Accepts(|slots|, path, offset, n) ==> r == Failed(BadBuffer) && slots == old(slots))
                && (path in contents && Accepts(|slots|, path, offset, n) ==>
                      (r.Failed? <==> old(loads) < loads && faults(loads - 1)))
      ensures path in contents && r.Read? ==> r.value == RangeOf(contents[path], |contents[path]|, offset, n)
    {
      if !mounted { return Failed(Fault); }
      if !(MOUNT_POINT <= path) { return Failed(BadBuffer); }
      if !present { return Failed(Fault); }
      r := ReadAt(v, d, contents, path, offset, n);
    }
  }
}
