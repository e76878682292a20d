/** The physical frame allocator. */
module Frames {
  import opened Counting
  import opened Bytes

  const FRAME_SIZE: nat := 4096
  const MAX_USABLE_REGIONS: nat := 128
  const MAX_RECLAIMED_FRAMES: nat := 1024

  datatype FrameRange = FrameRange(start: nat, next: nat, end: nat)

  predicate IsFrame(a: nat) { a % FRAME_SIZE == 0 }

  /** A frame address handed out from range `r` so far. */
  predicate Carved(r: FrameRange, a: nat) { r.start <= a < r.next && IsFrame(a) }

  predicate RangeOk(r: FrameRange) {
    r.start <= r.next <= r.end && IsFrame(r.start) && IsFrame(r.next) && IsFrame(r.end)
  }

  ghost predicate RangesApart(ranges: seq<FrameRange>) {
    forall i, j :: 0 <= i < j < |ranges| ==> ranges[i].end <= ranges[j].start || ranges[j].end <= ranges[i].start
  }

  /** `a` has been handed out from some range. */
  ghost predicate EverCarved(ranges: seq<FrameRange>, a: nat) {
    exists i :: 0 <= i < |ranges| && Carved(ranges[i], a)
  }

  /** `a` lies in some range. */
  ghost predicate InRanges(ranges: seq<FrameRange>, a: nat) {
    exists i :: 0 <= i < |ranges| && ranges[i].start <= a < ranges[i].end
  }

  /** The next address of a range has not been handed out. */
  lemma FreshInRange(ranges: seq<FrameRange>, c: nat)
    requires c < |ranges| && RangesApart(ranges) && forall i {:trigger ranges[i]} :: 0 <= i < |ranges| ==>
               RangeOk(ranges[i])
    requires ranges[c].next < ranges[c].end
    ensures !EverCarved(ranges, ranges[c].next) && InRanges(ranges, ranges[c].next)
  {
  }

  lemma FrameAlone(a: nat, x: nat)
    requires IsFrame(a) && IsFrame(x) && a <= x < a + FRAME_SIZE
    ensures x == a
  {
  }

  ghost function Advanced(ranges: seq<FrameRange>, c: nat): seq<FrameRange>
    requires c < |ranges|
  {
    ranges[c := ranges[c].(next := ranges[c].next + FRAME_SIZE)]
  }

  /** Moving a range's cursor on hands out exactly one more frame. */
  lemma CarveStep(ranges: seq<FrameRange>, c: nat)
    requires c < |ranges| && RangeOk(ranges[c]) && ranges[c].next < ranges[c].end
    ensures RangeOk(Advanced(ranges, c)[c])
    ensures forall x: nat :: EverCarved(Advanced(ranges, c), x) <==> EverCarved(ranges, x) || x == ranges[c].next
    ensures forall x: nat :: InRanges(Advanced(ranges, c), x) <==> InRanges(ranges, x)
  {
    var a, after := ranges[c].next, Advanced(ranges, c);
    forall x: nat ensures Carved(after[c], x) <==> Carved(ranges[c], x) || x == a {
      if Carved(after[c], x) && x >= a { FrameAlone(a, x); }
    }
    forall x: nat ensures EverCarved(after, x) <==> EverCarved(ranges, x) || x == a {
      if EverCarved(ranges, x) {
        var i :| 0 <= i < |ranges| && Carved(ranges[i], x);
        assert Carved(after[i], x);
      }
      if x == a { assert Carved(after[c], x); }
    }
    forall x: nat ensures InRanges(after, x) <==> InRanges(ranges, x) {
      if i :| 0 <= i < |ranges| && ranges[i].start <= x < ranges[i].end {
        assert after[i].start <= x < after[i].end;
      }
    }
  }

  class FrameAllocator {
    var ranges: seq<FrameRange>
    var current: nat
    var handedOut: nat
    var reclaimed: seq<nat>
    var initialized: bool
    /** The frames in use. */
    ghost var live: set<nat>

    ghost predicate Valid()
      reads this
    {
      && (forall i {:trigger ranges[i]} :: 0 <= i < |ranges| ==> RangeOk(ranges[i]))
      && RangesApart(ranges) && current <= |ranges| <= MAX_USABLE_REGIONS
      && (forall i {:trigger ranges[i]} :: 0 <= i < current ==> ranges[i].next == ranges[i].end)
      && NoDuplicates(reclaimed) && |reclaimed| <= MAX_RECLAIMED_FRAMES
      && (forall a {:trigger a in live} :: a in live ==> a !in reclaimed)
      && (forall a {:trigger EverCarved(ranges, a)} :: EverCarved(ranges, a) <==> a in live || a in reclaimed)
      && |live| == handedOut
    }

    /** Every frame of every range is in use. */
    ghost predicate Exhausted()
      reads this
    {
      initialized ==> forall a: nat :: InRanges(ranges, a) && IsFrame(a) ==> a in live
    }

    /** An allocator over the whole frames of usable memory, which the boot memory
        map gives as aligned ranges that do not overlap. */
    constructor (usable: seq<FrameRange>)
      requires |usable| <= MAX_USABLE_REGIONS && RangesApart(usable)
      requires forall i :: 0 <= i < |usable| ==> RangeOk(usable[i]) && usable[i].next == usable[i].start
      ensures Valid() && live == {} && ranges == usable && initialized
    {
      ranges, current, handedOut, reclaimed, initialized := usable, 0, 0, [], true;
      live := {};
    }

    /** `contains`. */
    method Contains(a: nat) returns (r: bool)
      ensures r <==> InRanges(ranges, a)
    {
      for i := 0 to |ranges|
        invariant forall j :: 0 <= j < i ==> !(ranges[j].start <= a < ranges[j].end)
      {
        if ranges[i].start <= a < ranges[i].end { return true; }
      }
      return false;
    }

    lemma ExhaustedAllLive()
      requires Valid() && reclaimed == [] && current == |ranges|
      ensures forall a: nat :: InRanges(ranges, a) && IsFrame(a) ==> a in live
    {
      forall a: nat | InRanges(ranges, a) && IsFrame(a) ensures a in live {
        var i :| 0 <= i < |ranges| && ranges[i].start <= a < ranges[i].end;
        assert Carved(ranges[i], a);
        assert EverCarved(ranges, a);
      }
    }

    method Carve() returns (a: nat)
      requires Valid() && current < |ranges| && ranges[current].next < ranges[current].end
      modifies this`ranges, this`handedOut, this`live
      ensures Valid() && a !in old(live) && live == old(live) + {a} && IsFrame(a) && InRanges(ranges, a)
      ensures forall x: nat :: InRanges(ranges, x) <==> InRanges(old(ranges), x)
    {
      a := ranges[current].next;
      ghost var before := ranges;
      FreshInRange(ranges, current);
      ranges := ranges[current := ranges[current].(next := a + FRAME_SIZE)];
      CarveStep(before, current);
      handedOut := handedOut + 1;
      live := live + {a};
      assert before[current].start <= a < before[current].end;
    }

    /** The cursor loop of `allocate_frame`. */
    method NextFresh() returns (r: Option<nat>)
      requires Valid() && reclaimed == []
      modifies this`ranges, this`current, this`handedOut, this`live
      ensures Valid()
      ensures r.Some? ==> r.value !in old(live) && live == old(live) + {r.value}
      ensures r.None? ==> live == old(live) && forall a: nat :: InRanges(ranges, a) && IsFrame(a) ==> a in live
      ensures forall a: nat :: InRanges(ranges, a) <==> InRanges(old(ranges), a)
    {
      while current < |ranges| && ranges[current].next >= ranges[current].end
        invariant Valid() && live == old(live) && ranges == old(ranges)
        decreases |ranges| - current
      {
        current := current + 1;
      }
      if current < |ranges| {
        var a := Carve();
        r := Some(a);
      } else {
        r := None;
        ExhaustedAllLive();
      }
    }

    method TakeReclaimed(a: nat)
      requires Valid() && |reclaimed| > 0 && a == reclaimed[|reclaimed| - 1]
      modifies this`reclaimed, this`handedOut, this`live
      ensures Valid() && a !in old(live) && live == old(live) + {a}
    {
      ghost var before := reclaimed;
      reclaimed := reclaimed[..|reclaimed| - 1];
      handedOut := handedOut + 1;
      live := live + {a};
      assert before == reclaimed + [a];
    }

    /** `allocate_frame`: a frame nobody holds; nothing only when every frame of
        every range is in use. */
    method AllocateFrame() returns (r: Option<nat>)
      requires Valid()
      modifies this
      ensures Valid() && initialized == old(initialized)
      ensures r.Some? ==> r.value !in old(live) && live == old(live) + {r.value}
      ensures r.None? ==> live == old(live)
      ensures r.None? ==> Exhausted()
      ensures forall a: nat :: InRanges(ranges, a) <==> InRanges(old(ranges), a)
    {
      if !initialized {
        r := None;
      } else if |reclaimed| != 0 {
        var a := reclaimed[|reclaimed| - 1];
        TakeReclaimed(a);
        r := Some(a);
      } else {
        r := NextFresh();
      }
    }

    lemma LiveInRanges(a: nat)
      requires Valid() && a in live
      ensures InRanges(ranges, a) && handedOut > 0
    {
      assert EverCarved(ranges, a);
      assert live >= {a};
      SubsetCard({a}, live);
    }

    /** `deallocate_frame` of a frame in use: it may be handed out again, unless
        the reclaim list is full, in which case it stays in use. */
    method DeallocateFrame(a: nat) returns (r: bool)
      requires Valid() && a in live
      modifies this`reclaimed, this`handedOut, this`live
      ensures Valid() && r == (|old(reclaimed)| < MAX_RECLAIMED_FRAMES)
      ensures live == if r then old(live) - {a} else old(live)
      ensures !r ==> reclaimed == old(reclaimed)
    {
      LiveInRanges(a);
      var inside := Contains(a);
      if !inside || handedOut == 0 || |reclaimed| == MAX_RECLAIMED_FRAMES || a in reclaimed {
        r := false;
      } else {
        ghost var before := reclaimed;
        reclaimed := reclaimed + [a];
        handedOut := handedOut - 1;
        live := live - {a};
        r := true;
        assert forall x :: x in reclaimed <==> x in before || x == a;
      }
    }
  }
}
