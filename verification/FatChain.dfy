/** Cluster chains of a FAT32 volume, as a theory over the array of 28-bit FAT
    entries: the link a cluster holds, the walk along links, and what Floyd's
    tortoise and hare can meet on it. */
module FatChain {
  import opened Counting

  const FAT_END_MIN: nat := 0x0fff_fff8
  const FAT_BAD: nat := 0x0fff_fff7

  type Fat = seq<nat>

  datatype Link = Next(cluster: nat) | End | Corrupt

  /** The link stored for `c` on a volume whose clusters are `2 .. lim`. */
  function LinkOf(fat: Fat, lim: nat, c: nat): Link
    requires lim <= |fat|
  {
    if c < 2 || c >= lim then Corrupt
    else if fat[c] >= FAT_END_MIN then End
    else if fat[c] < 2 || fat[c] == FAT_BAD || fat[c] >= lim then Corrupt
    else Next(fat[c])
  }

  /** `ch` is a whole chain: every link leads to the next member, the last ends. */
  ghost predicate IsChain(fat: Fat, lim: nat, ch: seq<nat>)
    requires lim <= |fat|
  {
    && |ch| > 0
    && (forall i {:trigger ch[i]} :: 0 <= i < |ch| ==> 2 <= ch[i] < lim)
    && (forall i, j {:trigger ch[i], ch[j]} :: 0 <= i && j == i + 1 < |ch| ==> LinkOf(fat, lim, ch[i]) == Next(ch[j]))
    && LinkOf(fat, lim, ch[|ch| - 1]) == End
  }

  /** Where a walk along the links stands. */
  datatype Place = At(cluster: nat) | Ended | Broken

  ghost function Walk(fat: Fat, lim: nat, start: nat, steps: nat): Place
    requires lim <= |fat|
  {
    if steps == 0 then At(start)
    else
      match Walk(fat, lim, start, steps - 1)
      case At(c) => (match LinkOf(fat, lim, c)
                     case Next(n) => At(n)
                     case End => Ended
                     case Corrupt => Broken)
      case Ended => Ended
      case Broken => Broken
  }

  /** The chain from `start` is in range, acyclic, and ends in an end mark. */
  ghost predicate Terminates(fat: Fat, lim: nat, start: nat)
    requires lim <= |fat|
  {
    exists ch :: IsChain(fat, lim, ch) && ch[0] == start
  }

  /** The chain from `start` runs into an entry that is no link. */
  ghost predicate Breaks(fat: Fat, lim: nat, start: nat)
    requires lim <= |fat|
  {
    exists k: nat :: Walk(fat, lim, start, k) == Broken
  }

  /** The chain from `start` runs for ever, that is, enters a cycle. */
  ghost predicate Cycles(fat: Fat, lim: nat, start: nat)
    requires lim <= |fat|
  {
    forall k: nat :: Walk(fat, lim, start, k).At?
  }

  // ---------------------------------------------------------------- walks

  lemma {:induction false} WalkMonotone(fat: Fat, lim: nat, start: nat, i: nat, j: nat)
    requires lim <= |fat| && i <= j
    ensures !Walk(fat, lim, start, i).At? ==> Walk(fat, lim, start, j) == Walk(fat, lim, start, i)
    ensures Walk(fat, lim, start, j).At? ==> Walk(fat, lim, start, i).At?
    decreases j
  {
    if i < j {
      WalkMonotone(fat, lim, start, i, j - 1);
    }
  }

  /** Equal places have equal futures. */
  lemma {:induction false} WalkShift(fat: Fat, lim: nat, start: nat, i: nat, j: nat, d: nat)
    requires lim <= |fat|
    requires Walk(fat, lim, start, i) == Walk(fat, lim, start, j)
    ensures Walk(fat, lim, start, i + d) == Walk(fat, lim, start, j + d)
    decreases d
  {
    if d > 0 {
      WalkShift(fat, lim, start, i, j, d - 1);
    }
  }

  /** A chain is exactly the trace of its walk. */
  lemma {:induction false} ChainWalk(fat: Fat, lim: nat, ch: seq<nat>, k: nat)
    requires lim <= |fat| && IsChain(fat, lim, ch)
    ensures k < |ch| ==> Walk(fat, lim, ch[0], k) == At(ch[k])
    ensures k >= |ch| ==> Walk(fat, lim, ch[0], k) == Ended
  {
    if k > 0 {
      ChainWalk(fat, lim, ch, k - 1);
      if k < |ch| {
        assert LinkOf(fat, lim, ch[k - 1]) == Next(ch[k]);
      }
    }
  }

  lemma {:induction false} WalkIsChain(fat: Fat, lim: nat, start: nat, n: nat) returns (ch: seq<nat>)
    requires lim <= |fat|
    requires Walk(fat, lim, start, n) == Ended
    ensures IsChain(fat, lim, ch) && ch[0] == start && |ch| <= n
    decreases n
  {
    if Walk(fat, lim, start, n - 1) == Ended {
      ch := WalkIsChain(fat, lim, start, n - 1);
    } else {
      forall i: nat | i < n ensures Walk(fat, lim, start, i).At? {
        WalkMonotone(fat, lim, start, i, n - 1);
      }
      ch := seq(n, i requires 0 <= i < n => Walk(fat, lim, start, i).cluster);
      forall i | 0 <= i < n ensures 2 <= ch[i] < lim {
        assert Walk(fat, lim, start, i + 1) != Broken by {
          WalkMonotone(fat, lim, start, i + 1, n);
        }
      }
      forall i, j | 0 <= i && j == i + 1 < |ch| ensures LinkOf(fat, lim, ch[i]) == Next(ch[j]) {
        assert Walk(fat, lim, start, j).At?;
      }
    }
  }

  lemma ChainUnique(fat: Fat, lim: nat, a: seq<nat>, b: seq<nat>)
    requires lim <= |fat| && IsChain(fat, lim, a) && IsChain(fat, lim, b) && a[0] == b[0]
    ensures a == b
  {
    ChainWalk(fat, lim, a, |b|);
    ChainWalk(fat, lim, b, |a|);
    ChainWalk(fat, lim, b, |b|);
    ChainWalk(fat, lim, a, |a|);
    forall k | 0 <= k < |a| && k < |b| ensures a[k] == b[k] {
      ChainWalk(fat, lim, a, k);
      ChainWalk(fat, lim, b, k);
    }
  }

  lemma ChainNoDuplicates(fat: Fat, lim: nat, ch: seq<nat>)
    requires lim <= |fat| && IsChain(fat, lim, ch)
    ensures NoDuplicates(ch) && |ch| <= lim - 2
  {
    forall i, j | 0 <= i < j < |ch| ensures ch[i] != ch[j] {
      if ch[i] == ch[j] {
        ChainWalk(fat, lim, ch, i);
        ChainWalk(fat, lim, ch, j);
        WalkShift(fat, lim, ch[0], i, j, |ch| - j);
        ChainWalk(fat, lim, ch, i + (|ch| - j));
        ChainWalk(fat, lim, ch, |ch|);
        assert false;
      }
    }
    DistinctBound(ch, 2, lim);
  }

  // ------------------------------------------------- trichotomy of chains

  /** Every start falls into exactly one of the three classes. */
  lemma Trichotomy(fat: Fat, lim: nat, start: nat)
    requires lim <= |fat|
    ensures Terminates(fat, lim, start) || Breaks(fat, lim, start) || Cycles(fat, lim, start)
    ensures !(Terminates(fat, lim, start) && Breaks(fat, lim, start))
    ensures !(Terminates(fat, lim, start) && Cycles(fat, lim, start))
    ensures !(Breaks(fat, lim, start) && Cycles(fat, lim, start))
  {
    if Terminates(fat, lim, start) {
      var ch :| IsChain(fat, lim, ch) && ch[0] == start;
      forall k: nat ensures Walk(fat, lim, start, k) != Broken { ChainWalk(fat, lim, ch, k); }
      ChainWalk(fat, lim, ch, |ch|);
    } else if !Cycles(fat, lim, start) {
      var k: nat :| !Walk(fat, lim, start, k).At?;
      if Walk(fat, lim, start, k) == Ended {
        var ch := WalkIsChain(fat, lim, start, k);
      }
    }
  }

  // ------------------------------------------------------ Floyd's meeting

  /** A walk of `lim - 2` links visits some cluster twice. */
  lemma WalkRepeats(fat: Fat, lim: nat, start: nat) returns (i: nat, j: nat)
    requires 2 <= lim <= |fat|
    requires Walk(fat, lim, start, lim - 1).At?
    ensures i < j <= lim - 2 && Walk(fat, lim, start, i) == Walk(fat, lim, start, j)
  {
    var n := lim - 1;
    forall k: nat | k <= n ensures Walk(fat, lim, start, k).At? {
      WalkMonotone(fat, lim, start, k, n);
    }
    var trace := seq(n, k requires 0 <= k < n => Walk(fat, lim, start, k).cluster);
    forall k | 0 <= k < |trace| ensures 2 <= trace[k] < lim {
      assert Walk(fat, lim, start, k + 1).At?;
    }
    i, j := Pigeonhole(trace, 2, lim);
    assert Walk(fat, lim, start, i) == At(trace[i]) && Walk(fat, lim, start, j) == At(trace[j]);
  }

  /** From a repeat at `i < j` the walk has period `j - i`, and some multiple
      of the period in `[max(i, 1), j]` is a meeting point. */
  lemma {:induction false} MeetingFromRepeat(fat: Fat, lim: nat, start: nat, i: nat, j: nat) returns (s: nat)
    requires lim <= |fat| && i < j
    requires Walk(fat, lim, start, i) == Walk(fat, lim, start, j)
    ensures 1 <= s <= j && Walk(fat, lim, start, s) == Walk(fat, lim, start, 2 * s)
  {
    var p := j - i;
    forall k: nat | k >= i ensures Walk(fat, lim, start, k + p) == Walk(fat, lim, start, k) {
      WalkShift(fat, lim, start, i, j, k - i);
    }
    s := p;
    while s < i
      invariant 1 <= s < i + p || s == p
      invariant forall k: nat :: k >= i ==> Walk(fat, lim, start, k + s) == Walk(fat, lim, start, k)
    {
      forall k: nat | k >= i ensures Walk(fat, lim, start, k + (s + p)) == Walk(fat, lim, start, k) {
        assert Walk(fat, lim, start, (k + s) + p) == Walk(fat, lim, start, k + s);
      }
      s := s + p;
    }
    assert Walk(fat, lim, start, s + s) == Walk(fat, lim, start, s);
  }

  /** If the hare survives `2 * (lim - 2)` links, it has met the tortoise. */
  lemma FloydMeets(fat: Fat, lim: nat, start: nat) returns (s: nat)
    requires 3 <= lim <= |fat|
    requires Walk(fat, lim, start, 2 * (lim - 2)).At?
    ensures 1 <= s <= lim - 2 && Walk(fat, lim, start, s) == Walk(fat, lim, start, 2 * s)
  {
    WalkMonotone(fat, lim, start, lim - 1, 2 * (lim - 2));
    var i, j := WalkRepeats(fat, lim, start);
    s := MeetingFromRepeat(fat, lim, start, i, j);
  }

  /** Lap after lap of length `s`, the walk is back at the same place. */
  lemma {:induction false} LapsStayAlive(fat: Fat, lim: nat, start: nat, s: nat, n: nat, k: nat)
    requires lim <= |fat| && 1 <= s <= n
    requires Walk(fat, lim, start, s).At? && Walk(fat, lim, start, s) == Walk(fat, lim, start, 2 * s)
    requires Walk(fat, lim, start, n) == Walk(fat, lim, start, s)
    ensures Walk(fat, lim, start, k).At?
    decreases k - n
  {
    if k <= n {
      WalkMonotone(fat, lim, start, k, n);
    } else {
      WalkShift(fat, lim, start, s, n, s);
      LapsStayAlive(fat, lim, start, s, n + s, k);
    }
  }

  /** A meeting inside a live walk proves the chain never ends. */
  lemma MeetingMeansCycle(fat: Fat, lim: nat, start: nat, s: nat)
    requires lim <= |fat| && 1 <= s
    requires Walk(fat, lim, start, s).At? && Walk(fat, lim, start, s) == Walk(fat, lim, start, 2 * s)
    ensures Cycles(fat, lim, start)
  {
    forall k: nat ensures Walk(fat, lim, start, k).At? {
      LapsStayAlive(fat, lim, start, s, s, k);
    }
  }

  // ------------------------------------------------------------- frames

  /** A chain survives changes to entries outside it. */
  lemma ChainFrame(fat: Fat, fat': Fat, lim: nat, ch: seq<nat>)
    requires lim <= |fat| && lim <= |fat'| && IsChain(fat, lim, ch)
    requires forall i :: 0 <= i < |ch| ==> fat'[ch[i]] == fat[ch[i]]
    ensures IsChain(fat', lim, ch)
  {
    forall i, j | 0 <= i && j == i + 1 < |ch| ensures LinkOf(fat', lim, ch[i]) == Next(ch[j]) {
      assert LinkOf(fat, lim, ch[i]) == Next(ch[j]);
    }
  }

  /** Linking a fresh one-cluster chain behind the last cluster of a chain. */
  lemma ChainAppend(fat: Fat, fat': Fat, lim: nat, ch: seq<nat>, n: nat)
    requires lim <= |fat| && |fat'| == |fat| && IsChain(fat, lim, ch)
    requires 2 <= n < lim && n !in ch && n < FAT_BAD
    requires fat' == fat[n := FAT_END_MIN][ch[|ch| - 1] := n]
    ensures IsChain(fat', lim, ch + [n])
  {
    ChainNoDuplicates(fat, lim, ch);
    var ch' := ch + [n];
    forall i, j | 0 <= i && j == i + 1 < |ch'| ensures LinkOf(fat', lim, ch'[i]) == Next(ch'[j]) {
      if j < |ch| {
        assert LinkOf(fat, lim, ch[i]) == Next(ch[j]);
        assert ch[i] != ch[|ch| - 1] && ch[i] != n;
      }
    }
  }

  /** The FAT with every entry of `ch` cleared. */
  ghost function Cleared(fat: Fat, ch: seq<nat>): (r: Fat)
    ensures |r| == |fat|
  {
    seq(|fat|, c requires 0 <= c < |fat| => if c in ch then 0 else fat[c])
  }
}
