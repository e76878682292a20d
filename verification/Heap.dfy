/** The kernel heap: a bump pointer, a table of live allocations and a list of freed blocks. */
module Heap {
  import opened Bytes

  const MAX_ALLOCATIONS: nat := 512
  const MAX_FREE_BLOCKS: nat := 128
  const ADDRESS_LIMIT: nat := 0x1_0000_0000_0000_0000

  datatype Block = Block(ptr: nat, size: nat)
  type Table = seq<Option<Block>>

  // -------------------------------------------------------------- alignment

  predicate IsPowerOfTwo(n: nat) {
    n == 1 || (n > 1 && n % 2 == 0 && IsPowerOfTwo(n / 2))
  }

  lemma AtLeast(d: int, n: nat)
    requires n > 0
    ensures d >= 1 ==> d * n >= n
    ensures d <= -1 ==> d * n <= 0 - n
  {
  }

  lemma Multiple(q: nat, n: nat)
    requires n > 0
    ensures (q * n) % n == 0
  {
    var m := q * n;
    var d := q - m / n;
    assert m == (m / n) * n + m % n;
    assert d * n == m % n;
    AtLeast(d, n);
  }

  lemma Remainder(a: nat, n: nat)
    requires n > 0
    ensures a % n < n && a % n <= a && (a - a % n) % n == 0
  {
    var q := a / n;
    assert a - a % n == q * n;
    Multiple(q, n);
  }

  /** The next multiple of the alignment, unless it does not exist. */
  function AlignUp(value: nat, alignment: nat): (r: Option<nat>)
    ensures r.Some? ==> alignment > 0 && value <= r.value < value + alignment && r.value % alignment == 0
    ensures IsPowerOfTwo(alignment) && value + alignment <= ADDRESS_LIMIT ==> r.Some?
  {
    if alignment == 0 || !IsPowerOfTwo(alignment) || value + (alignment - 1) >= ADDRESS_LIMIT then None
    else
      var address := value + (alignment - 1);
      Remainder(address, alignment);
      Some(address - address % alignment)
  }

  // ---------------------------------------------------------------- blocks

  ghost predicate Apart(a: Block, b: Block) {
    a.ptr + a.size <= b.ptr || b.ptr + b.size <= a.ptr
  }

  ghost predicate Within(a: Block, lo: nat, hi: nat) {
    lo <= a.ptr && 0 < a.size && a.ptr + a.size <= hi
  }

  /** No block of the table meets `b`. */
  ghost predicate Clear(t: Table, b: Block) {
    forall i {:trigger t[i]} :: 0 <= i < |t| && t[i].Some? ==> Apart(t[i].value, b)
  }

  ghost predicate AllApart(t: Table) {
    forall i, j {:trigger t[i], t[j]} :: 0 <= i < j < |t| && t[i].Some? && t[j].Some? ==> Apart(t[i].value, t[j].value)
  }

  ghost predicate AllWithin(t: Table, lo: nat, hi: nat) {
    forall i {:trigger t[i]} :: 0 <= i < |t| && t[i].Some? ==> Within(t[i].value, lo, hi)
  }

  /** Live and freed blocks all lie in what has been carved and none overlap. */
  ghost predicate Sound(live: Table, free: Table, lo: nat, hi: nat) {
    && AllWithin(live, lo, hi) && AllWithin(free, lo, hi) && AllApart(live) && AllApart(free)
    && forall i {:trigger live[i]} :: 0 <= i < |live| && live[i].Some? ==> Clear(free, live[i].value)
  }

  lemma SplitApart(t: Table, b: Block, x: Block, rest: Block)
    requires Clear(t, b) && b.ptr <= x.ptr && x.ptr + x.size == rest.ptr && rest.ptr + rest.size == b.ptr + b.size
    ensures Clear(t, x) && Clear(t, rest)
  {
  }

  /** A freed block taken off the list meets nothing that remains. */
  lemma TakenOff(live: Table, free: Table, lo: nat, hi: nat, i: nat)
    requires Sound(live, free, lo, hi) && i < |free| && free[i].Some?
    ensures Sound(live, free[i := None], lo, hi) && Clear(live, free[i].value) && Clear(free[i := None], free[i].value)
  {
    var b := free[i].value;
    forall k | 0 <= k < |live| && live[k].Some? ensures Apart(live[k].value, b) &&
        Clear(free[i := None], live[k].value) {
      assert Clear(free, live[k].value);
    }
  }

  lemma LiveAdded(live: Table, free: Table, lo: nat, hi: nat, k: nat, x: Block)
    requires Sound(live, free, lo, hi) && k < |live| && live[k].None?
    requires Within(x, lo, hi) && Clear(live, x) && Clear(free, x)
    ensures Sound(live[k := Some(x)], free, lo, hi)
  {
  }

  lemma FreeAdded(live: Table, free: Table, lo: nat, hi: nat, k: nat, x: Block)
    requires Sound(live, free, lo, hi) && k < |free| && free[k].None?
    requires Within(x, lo, hi) && Clear(live, x) && Clear(free, x)
    ensures Sound(live, free[k := Some(x)], lo, hi)
  {
    forall i | 0 <= i < |live| && live[i].Some? ensures Clear(free[k := Some(x)], live[i].value) {
      assert Clear(free, live[i].value) && Apart(live[i].value, x);
    }
  }

  lemma LiveRemoved(live: Table, free: Table, lo: nat, hi: nat, k: nat)
    requires Sound(live, free, lo, hi) && k < |live| && live[k].Some?
    ensures Sound(live[k := None], free, lo, hi) && Clear(live[k := None], live[k].value) && Clear(free, live[k].value)
  {
  }

  // ---------------------------------------------------------------- bytes

  function SizeOf(b: Option<Block>): nat {
    if b.Some? then b.value.size else 0
  }

  ghost function BytesOf(t: Table): nat {
    if t == [] then 0 else BytesOf(t[..|t| - 1]) + SizeOf(t[|t| - 1])
  }

  lemma {:induction false} BytesUpdate(t: Table, i: nat, b: Option<Block>)
    requires i < |t|
    ensures BytesOf(t[i := b]) + SizeOf(t[i]) == BytesOf(t) + SizeOf(b)
  {
    var n := |t| - 1;
    if i == n {
      assert t[i := b][..n] == t[..n];
    } else {
      assert t[i := b][..n] == t[..n][i := b];
      BytesUpdate(t[..n], i, b);
    }
  }

  lemma {:induction false} NoBytes(t: Table)
    requires forall i :: 0 <= i < |t| ==> t[i].None?
    ensures BytesOf(t) == 0
  {
    if t != [] { NoBytes(t[..|t| - 1]); }
  }

  ghost function CountOf(t: Table): nat {
    if t == [] then 0 else CountOf(t[..|t| - 1]) + if t[|t| - 1].Some? then 1 else 0
  }

  lemma {:induction false} CountUpdate(t: Table, i: nat, b: Option<Block>)
    requires i < |t|
    ensures CountOf(t[i := b]) + (if t[i].Some? then 1 else 0) == CountOf(t) + if b.Some? then 1 else 0
  {
    var n := |t| - 1;
    if i == n {
      assert t[i := b][..n] == t[..n];
    } else {
      assert t[i := b][..n] == t[..n][i := b];
      CountUpdate(t[..n], i, b);
    }
  }

  lemma {:induction false} NoCount(t: Table)
    requires forall i :: 0 <= i < |t| ==> t[i].None?
    ensures CountOf(t) == 0
  {
    if t != [] { NoCount(t[..|t| - 1]); }
  }

  // -------------------------------------------------------------- best fit

  /** Block `b` can hold `size` bytes at this alignment. */
  ghost predicate Fits(b: Block, size: nat, align: nat) {
    AlignUp(b.ptr, align).Some? && AlignUp(b.ptr, align).value - b.ptr + size <= b.size
  }

  /** The first of the smallest blocks among the first `n` that fit. */
  ghost predicate BestFit(t: Table, n: nat, size: nat, align: nat, i: nat) {
    && i < n <= |t| && t[i].Some? && Fits(t[i].value, size, align)
    && forall k {:trigger t[k]} :: 0 <= k < n && t[k].Some? && Fits(t[k].value, size, align) ==>
         t[i].value.size < t[k].value.size || (t[i].value.size == t[k].value.size && i <= k)
  }

  ghost predicate NoneFits(t: Table, n: nat, size: nat, align: nat) {
    n <= |t| && forall k {:trigger t[k]} :: 0 <= k < n && t[k].Some? ==> !Fits(t[k].value, size, align)
  }

  /** Rounding up some block overflows, and then the whole search gives up. */
  ghost predicate Overflows(t: Table, n: nat, align: nat) {
    exists k :: 0 <= k < n && k < |t| && t[k].Some? && AlignUp(t[k].value.ptr, align).None?
  }

  /** Some listed block serves the request. */
  ghost predicate Reusable(t: Table, n: nat, size: nat, align: nat) {
    !Overflows(t, n, align) && !NoneFits(t, n, size, align)
  }

  /** What lies behind `size` bytes taken from a block. */
  ghost function Rest(b: Block, size: nat, align: nat): Block
    requires Fits(b, size, align)
  {
    var p := AlignUp(b.ptr, align).value;
    Block(p + size, b.size - (p - b.ptr + size))
  }

  /** A block is listed at the end if there is room, and lost otherwise. */
  ghost predicate Inserted(free: Table, count: nat, free': Table, count': nat, b: Block) {
    if b.size > 0 && count < MAX_FREE_BLOCKS && count < |free|
    then free' == free[count := Some(b)] && count' == count + 1
    else free' == free && count' == count
  }

  /** Block `i` is off the list, and what is left of it is back on it. */
  ghost predicate Cut(free: Table, count: nat, free': Table, count': nat, i: nat, size: nat, align: nat) {
    && i < |free| && free[i].Some? && Fits(free[i].value, size, align)
    && Inserted(free[i := None], count, free', count', Rest(free[i].value, size, align))
  }

  lemma InsertedClear(free: Table, count: nat, free': Table, count': nat, b: Block, x: Block)
    requires Inserted(free, count, free', count', b) && Clear(free, x) && Apart(b, x) &&
             (count < |free| ==> free[count].None?)
    ensures Clear(free', x) && BytesOf(free') <= BytesOf(free) + b.size
  {
    if count < |free| { BytesUpdate(free, count, Some(b)); }
  }

  lemma CutBytes(free: Table, count: nat, free': Table, count': nat, i: nat, size: nat, align: nat)
    requires Cut(free, count, free', count', i, size, align) && (count < |free| ==> i < count && free[count].None?)
    ensures BytesOf(free') + size <= BytesOf(free)
  {
    BytesUpdate(free, i, None);
    var rest := Rest(free[i].value, size, align);
    if count < |free| { BytesUpdate(free[i := None], count, Some(rest)); }
  }

  ghost predicate Listed(free: Table, count: nat) {
    forall i {:trigger free[i]} :: count <= i < |free| ==> free[i].None?
  }

  ghost predicate Aligned(live: Table, aligns: seq<nat>) {
    && |aligns| == |live|
    && forall i {:trigger live[i]} :: 0 <= i < |live| && live[i].Some? ==>
         aligns[i] > 0 && live[i].value.ptr % aligns[i] == 0
  }

  lemma NothingAtZero(t: Table)
    requires AllWithin(t, 0, 0)
    ensures forall i :: 0 <= i < |t| ==> t[i].None?
  {
  }

  lemma {:induction false} AllCounted(t: Table)
    requires forall i :: 0 <= i < |t| ==> t[i].Some?
    ensures CountOf(t) == |t|
  {
    if t != [] { AllCounted(t[..|t| - 1]); }
  }

  lemma {:induction false} CountBound(t: Table)
    ensures CountOf(t) <= |t|
  {
    if t != [] { CountBound(t[..|t| - 1]); }
  }

  lemma NotAllCounted(t: Table, i: nat)
    requires i < |t| && t[i].None?
    ensures CountOf(t) < |t|
  {
    CountUpdate(t, i, Some(Block(0, 0)));
    CountBound(t[i := Some(Block(0, 0))]);
  }

  /** Entry `k` was unused and is now `b`; the other entries are as before. */
  ghost predicate Allocated(live: Table, live': Table, aligns: seq<nat>, aligns': seq<nat>, k: int, b: Block,
                            align: nat) {
    && 0 <= k < |live| == |aligns| && live[k].None?
    && live' == live[k := Some(b)] && aligns' == aligns[k := align]
  }

  /** The bump pointer can still serve the request. */
  ghost predicate RoomAbove(next: nat, end: nat, size: nat, align: nat) {
    AlignUp(next, align).Some? && AlignUp(next, align).value + size <= end
  }

  /** A listed block or the room above the bump pointer serves the request. */
  ghost predicate Served(free: Table, count: nat, next: nat, end: nat, size: nat, align: nat) {
    Reusable(free, count, size, align) || RoomAbove(next, end, size, align)
  }

  datatype Request = Take(size: nat, align: nat) | Give(ptr: nat)

  /** The bytes handed out in a run, by the pointers it answered. */
  ghost function Granted(requests: seq<Request>, ptrs: seq<nat>): nat
    requires |requests| == |ptrs|
  {
    if requests == [] then 0
    else
      var n := |requests| - 1;
      Granted(requests[..n], ptrs[..n]) + if requests[n].Take? && ptrs[n] != 0 then requests[n].size else 0
  }

  class HeapState {
    var start: nat
    var end: nat
    var next: nat
    var totalAllocations: nat
    var totalBytes: nat
    var live: Table
    var free: Table
    var freeCount: nat
    /** The alignment each live allocation was asked for. */
    ghost var aligns: seq<nat>

    ghost predicate Valid()
      reads this
    {
      && |live| == MAX_ALLOCATIONS == |aligns| && |free| == MAX_FREE_BLOCKS && freeCount <= MAX_FREE_BLOCKS
      && start <= next <= end < ADDRESS_LIMIT && (start == 0 ==> end == 0)
      && Sound(live, free, start, next) && Listed(free, freeCount) && Aligned(live, aligns)
      && BytesOf(live) + BytesOf(free) <= next - start
      && totalBytes == BytesOf(live) && totalAllocations == CountOf(live)
    }

    constructor ()
      ensures Valid() && start == 0 && forall i :: 0 <= i < MAX_ALLOCATIONS ==> live[i].None?
    {
      start, end, next, totalAllocations, totalBytes, freeCount := 0, 0, 0, 0, 0, 0;
      live, free := seq(MAX_ALLOCATIONS, _ => None), seq(MAX_FREE_BLOCKS, _ => None);
      aligns := seq(MAX_ALLOCATIONS, _ => 1);
      new;
      NoBytes(live);
      NoBytes(free);
      NoCount(live);
    }

    method FindBest(size: nat, align: nat) returns (r: Option<nat>)
      requires freeCount <= |free|
      ensures r.Some? <==> Reusable(free, freeCount, size, align)
      ensures r.Some? ==> BestFit(free, freeCount, size, align, r.value)
    {
      r := None;
      var i := 0;
      while i < freeCount
        invariant 0 <= i <= freeCount
        invariant if r.Some? then BestFit(free, i, size, align, r.value) else NoneFits(free, i, size, align)
        invariant !Overflows(free, i, align)
      {
        if free[i].Some? {
          var b := free[i].value;
          var p := AlignUp(b.ptr, align);
          if p.None? { return None; }
          if p.value - b.ptr + size <= b.size && (r.None? || b.size < free[r.value].value.size) { r := Some(i); }
        }
        i := i + 1;
      }
    }

    /** A block that nothing else uses and that the accounts leave room for. */
    ghost predicate Spare(b: Block)
      reads this
    {
      Within(b, start, next) && Clear(live, b) && Clear(free, b) &&
      BytesOf(live) + BytesOf(free) + b.size <= next - start
    }

    /** Once 128 blocks have been listed, further ones are dropped for good. */
    method InsertFreeBlock(b: Block)
      requires Valid() && (b.size > 0 ==> Spare(b))
      modifies this`free, this`freeCount
      ensures Valid()
      ensures Inserted(old(free), old(freeCount), free, freeCount, b)
    {
      if b.size == 0 { return; }
      if freeCount < MAX_FREE_BLOCKS {
        FreeAdded(live, free, start, next, freeCount, b);
        BytesUpdate(free, freeCount, Some(b));
        free := free[freeCount := Some(b)];
        freeCount := freeCount + 1;
      }
    }

    method TakeFrom(i: nat, size: nat, align: nat) returns (ptr: nat)
      requires Valid() && size > 0 && i < freeCount && free[i].Some? && Fits(free[i].value, size, align)
      modifies this`free, this`freeCount
      ensures Valid() && Cut(old(free), old(freeCount), free, freeCount, i, size, align)
      ensures Some(ptr) == AlignUp(old(free)[i].value.ptr, align) && Spare(Block(ptr, size))
    {
      var b := free[i].value;
      ptr := AlignUp(b.ptr, align).value;
      var used := ptr - b.ptr + size;
      ghost var x := Block(ptr, size);
      TakenOff(live, free, start, next, i);
      BytesUpdate(free, i, None);
      free := free[i := None];
      var rest := Block(ptr + size, b.size - used);
      SplitApart(live, b, x, rest);
      SplitApart(free, b, x, rest);
      ghost var cut, count := free, freeCount;
      InsertFreeBlock(rest);
      InsertedClear(cut, count, free, freeCount, rest, x);
    }

    /** Take the best fitting block off the list; what is left behind the allocation goes back. */
    method FindFree(size: nat, align: nat) returns (r: Option<nat>, ghost i: nat)
      requires Valid() && size > 0
      modifies this`free, this`freeCount
      ensures Valid()
      ensures r.Some? <==> Reusable(old(free), old(freeCount), size, align)
      ensures r.None? ==> free == old(free) && freeCount == old(freeCount)
      ensures r.Some? ==>
                BestFit(old(free), old(freeCount), size, align, i) &&
                Cut(old(free), old(freeCount), free, freeCount, i, size, align)
      ensures r.Some? ==> r == AlignUp(old(free)[i].value.ptr, align) && Spare(Block(r.value, size))
    {
      i := 0;
      var best := FindBest(size, align);
      if best.None? { return None, i; }
      i := best.value;
      var ptr := TakeFrom(best.value, size, align);
      r := Some(ptr);
    }

    /** Map the heap range; only the first time, and only if the mapping succeeds. */
    method Init(base: nat, size: nat, mapped: bool) returns (ok: bool)
      requires Valid() && 0 < base && base + size < ADDRESS_LIMIT
      modifies this
      ensures Valid() && live == old(live) && free == old(free)
      ensures ok <==> old(start) == 0 && mapped
      ensures if ok then start == next == base && end == base + size
              else start == old(start) && end == old(end) && next == old(next)
    {
      ok := start == 0 && mapped;
      if ok {
        NothingAtZero(live);
        NothingAtZero(free);
        start, end, next := base, base + size, base;
      }
    }

    method FreeSlot() returns (r: Option<nat>)
      ensures r.Some? ==> r.value < |live| && live[r.value].None? && forall k :: 0 <= k < r.value ==> live[k].Some?
      ensures r.Some? <==> CountOf(live) < |live|
    {
      var i := 0;
      while i < |live|
        invariant 0 <= i <= |live|
        invariant forall k :: 0 <= k < i ==> live[k].Some?
      {
        if live[i].None? {
          NotAllCounted(live, i);
          return Some(i);
        }
        i := i + 1;
      }
      AllCounted(live);
      return None;
    }

    /** Enter a spare block in the table of live allocations. */
    method Record(k: nat, b: Block, ghost align: nat)
      requires Valid() && k < MAX_ALLOCATIONS && live[k].None? && Spare(b) && align > 0 && b.ptr % align == 0
      modifies this`live, this`aligns, this`totalAllocations, this`totalBytes
      ensures Valid() && live == old(live)[k := Some(b)] && aligns == old(aligns)[k := align]
    {
      LiveAdded(live, free, start, next, k, b);
      BytesUpdate(live, k, Some(b));
      CountUpdate(live, k, Some(b));
      live, aligns := live[k := Some(b)], aligns[k := align];
      totalAllocations, totalBytes := totalAllocations + 1, totalBytes + b.size;
    }

    /** Everything below `next` stays as it is when the bump pointer moves on. */
    method Bump(ptr: nat, size: nat)
      requires Valid() && size > 0 && next <= ptr && ptr + size <= end
      modifies this`next
      ensures Valid() && next == ptr + size && Spare(Block(ptr, size))
    {
      next := ptr + size;
    }

    /** A spare block goes into the table, unless the table is full. */
    method Enter(slot: Option<nat>, at: nat, size: nat, ghost align: nat) returns (ptr: nat)
      requires Valid() && Spare(Block(at, size)) && align > 0 && at % align == 0 && at > 0
      requires slot.Some? ==> slot.value < MAX_ALLOCATIONS && live[slot.value].None?
      modifies this`live, this`aligns, this`totalAllocations, this`totalBytes
      ensures Valid() && ptr == if slot.Some? then at else 0
      ensures slot.None? ==> live == old(live)
      ensures slot.Some? ==> Allocated(old(live), live, old(aligns), aligns, slot.value, Block(at, size), align)
    {
      if slot.None? { return 0; }
      Record(slot.value, Block(at, size), align);
      ptr := at;
    }

    /** The room above the bump pointer, which moves only if the table has an entry left. */
    method AllocAbove(slot: Option<nat>, size: nat, align: nat) returns (ptr: nat)
      requires Valid() && size > 0 && start > 0
      requires slot.Some? ==> slot.value < MAX_ALLOCATIONS && live[slot.value].None?
      modifies this`live, this`aligns, this`totalAllocations, this`totalBytes, this`next
      ensures Valid() && (ptr != 0 <==> slot.Some? && RoomAbove(old(next), end, size, align))
      ensures ptr == 0 ==> live == old(live) && next == old(next)
      ensures ptr != 0 ==>
                Some(ptr) == AlignUp(old(next), align) && next == ptr + size && Clear(old(live), Block(ptr, size))
      ensures ptr != 0 ==> Allocated(old(live), live, old(aligns), aligns, slot.value, Block(ptr, size), align)
    {
      var aligned := AlignUp(next, align);
      if aligned.None? || aligned.value + size > end || slot.None? { return 0; }
      Bump(aligned.value, size);
      ptr := Enter(slot, aligned.value, size, align);
    }

    /** A new allocation: aligned, inside the heap, and meeting no live one. A best fit is taken first, and is lost if
        the table is full. */
    method Alloc(size: nat, align: nat) returns (ptr: nat, ghost i: nat, ghost k: nat)
      requires Valid() && size > 0
      modifies this
      ensures Valid() && start == old(start) && end == old(end)
      ensures ptr != 0 <==>
                start != 0 && CountOf(old(live)) < MAX_ALLOCATIONS &&
                Served(old(free), old(freeCount), old(next), end, size, align)
      ensures ptr == 0 ==> live == old(live) && next == old(next)
      ensures ptr != 0 ==> Allocated(old(live), live, old(aligns), aligns, k, Block(ptr, size), align)
      ensures ptr != 0 ==>
                align > 0 && ptr % align == 0 && Within(Block(ptr, size), start, end) &&
                Clear(old(live), Block(ptr, size))
      ensures if start != 0 && Reusable(old(free), old(freeCount), size, align) then
                && BestFit(old(free), old(freeCount), size, align, i)
                && Cut(old(free), old(freeCount), free, freeCount, i, size, align) && next == old(next)
              else
                && free == old(free) && freeCount == old(freeCount)
                && (ptr == 0 || (Some(ptr) == AlignUp(old(next), align) && next == ptr + size))
    {
      i, k := 0, 0;
      if start == 0 { return 0, i, k; }
      var slot := FreeSlot();
      k := if slot.Some? then slot.value else 0;
      var found;
      found, i := FindFree(size, align);
      if found.Some? {
        ptr := Enter(slot, found.value, size, align);
      } else {
        ptr := AllocAbove(slot, size, align);
      }
    }

    /** Only the allocation at `pointer` ends, and its block is listed or lost; a pointer that is not live changes
        nothing. */
    method Dealloc(pointer: nat)
      requires Valid()
      modifies this
      ensures Valid() && start == old(start) && end == old(end) && next == old(next) && aligns == old(aligns)
      ensures forall k {:trigger live[k]} :: 0 <= k < MAX_ALLOCATIONS ==>
        live[k] == if old(live)[k].Some? && old(live)[k].value.ptr == pointer then None else old(live)[k]
      ensures forall k {:trigger old(live)[k]} ::
                0 <= k < MAX_ALLOCATIONS && old(live)[k].Some? && old(live)[k].value.ptr == pointer ==>
                  Inserted(old(free), old(freeCount), free, freeCount, old(live)[k].value)
      ensures live == old(live) || old(freeCount) == MAX_FREE_BLOCKS ==>
                free == old(free) && freeCount == old(freeCount)
    {
      var i := 0;
      while i < |live| && !(live[i].Some? && live[i].value.ptr == pointer)
        invariant 0 <= i <= |live|
        invariant forall k :: 0 <= k < i ==> !(live[k].Some? && live[k].value.ptr == pointer)
      {
        i := i + 1;
      }
      if i < |live| {
        var b := live[i].value;
        LiveRemoved(live, free, start, next, i);
        BytesUpdate(live, i, None);
        CountUpdate(live, i, None);
        live := live[i := None];
        totalAllocations, totalBytes := totalAllocations - 1, totalBytes - b.size;
        InsertFreeBlock(b);
      }
    }

    // ------------------------------------------------------------------ runs

    /** What the heap can still hand out. */
    ghost function Available(): nat
      requires Valid()
      reads this
    {
      end - next + BytesOf(free)
    }

    method Perform(request: Request) returns (ptr: nat)
      requires Valid() && (request.Take? ==> request.size > 0)
      modifies this
      ensures Valid() && freeCount >= old(freeCount)
      ensures request.Give? ==> ptr == request.ptr
      ensures old(freeCount) == MAX_FREE_BLOCKS ==>
        Available() + (if request.Take? && ptr != 0 then request.size else 0) <= old(Available())
    {
      match request
      case Take(size, align) =>
        ghost var i, k;
        ptr, i, k := Alloc(size, align);
        if start != 0 && Reusable(old(free), old(freeCount), size, align) {
          CutBytes(old(free), old(freeCount), free, freeCount, i, size, align);
        }
      case Give(p) =>
        Dealloc(p);
        ptr := p;
    }

    /** Once 128 blocks have been listed, a run hands out no more than was left, whatever it gives back. */
    method Run(requests: seq<Request>) returns (ptrs: seq<nat>)
      requires Valid() && forall r :: 0 <= r < |requests| && requests[r].Take? ==> requests[r].size > 0
      modifies this
      ensures Valid() && |ptrs| == |requests|
      ensures old(freeCount) == MAX_FREE_BLOCKS ==> Granted(requests, ptrs) + Available() <= old(Available())
    {
      ptrs := [];
      var n := 0;
      while n < |requests|
        invariant 0 <= n <= |requests| && |ptrs| == n && Valid() && freeCount >= old(freeCount)
        invariant old(freeCount) == MAX_FREE_BLOCKS ==> Granted(requests[..n], ptrs) + Available() <= old(Available())
      {
        var ptr := Perform(requests[n]);
        assert requests[..n + 1][..n] == requests[..n] && (ptrs + [ptr])[..n] == ptrs;
        ptrs := ptrs + [ptr];
        n := n + 1;
      }
      assert requests[..n] == requests;
    }
  }
}
