/** File contents along a cluster chain: what a chain holds, writing it sector by
    sector, and reading a byte range back. */
module FatFile {
  import opened Counting
  import opened Bytes
  import opened FatChain
  import opened FatVolume
  import opened FatAlloc

  type Clusters = seq<seq<Byte>>

  ghost predicate InData(data: Clusters, ch: seq<nat>) {
    forall i {:trigger ch[i]} :: 0 <= i < |ch| ==> ch[i] < |data|
  }

  /** The bytes held by the clusters of `ch`, in chain order. */
  ghost function Content(data: Clusters, ch: seq<nat>): seq<Byte>
    requires InData(data, ch)
  {
    if ch == [] then [] else Content(data, ch[..|ch| - 1]) + data[ch[|ch| - 1]]
  }

  lemma {:induction false} ContentConcat(data: Clusters, a: seq<nat>, b: seq<nat>)
    requires InData(data, a) && InData(data, b)
    ensures InData(data, a + b) && Content(data, a + b) == Content(data, a) + Content(data, b)
    decreases |b|
  {
    if b == [] {
      assert a + b == a;
    } else {
      var rest, last := b[..|b| - 1], data[b[|b| - 1]];
      ContentConcat(data, a, rest);
      assert (a + b)[..|a + b| - 1] == a + rest && (a + b)[|a + b| - 1] == b[|b| - 1];
      assert Content(data, a + b) == Content(data, a + rest) + last;
      assert Content(data, a) + (Content(data, rest) + last) == (Content(data, a) + Content(data, rest)) + last;
    }
  }

  lemma {:induction false} ContentLength(data: Clusters, ch: seq<nat>, n: nat)
    requires InData(data, ch) && forall i :: 0 <= i < |ch| ==> |data[ch[i]]| == n
    ensures |Content(data, ch)| == |ch| * n
  {
    if ch == [] {
    } else {
      ContentLength(data, ch[..|ch| - 1], n);
      assert (|ch| - 1) * n + n == |ch| * n;
    }
  }

  lemma {:induction false} ContentFrame(data: Clusters, data': Clusters, ch: seq<nat>)
    requires InData(data, ch) && InData(data', ch)
    requires forall i :: 0 <= i < |ch| ==> data'[ch[i]] == data[ch[i]]
    ensures Content(data', ch) == Content(data, ch)
  {
    if ch != [] {
      ContentFrame(data, data', ch[..|ch| - 1]);
    }
  }

  /** Splitting a content around cluster `i` of the chain. */
  lemma ContentSplit(data: Clusters, ch: seq<nat>, i: nat)
    requires InData(data, ch) && i < |ch|
    ensures InData(data, ch[..i]) && InData(data, ch[..i + 1]) && InData(data, ch[i + 1..])
    ensures Content(data, ch[..i + 1]) == Content(data, ch[..i]) + data[ch[i]]
    ensures Content(data, ch) == Content(data, ch[..i]) + data[ch[i]] + Content(data, ch[i + 1..])
  {
    assert ch[..i + 1][..|ch[..i + 1]| - 1] == ch[..i];
    ContentConcat(data, ch[..i + 1], ch[i + 1..]);
    assert ch[..i + 1] + ch[i + 1..] == ch;
  }

  // ------------------------------------------------------------- writing

  /** `n` bytes of `bytes` from position `from`, zero padded past the end. */
  ghost function Padded(bytes: seq<Byte>, from: nat, n: nat): (r: seq<Byte>)
    ensures |r| == n
  {
    seq(n, k requires 0 <= k => if from + k < |bytes| then bytes[from + k] else 0)
  }

  lemma PaddedSplit(bytes: seq<Byte>, from: nat, m: nat, n: nat)
    ensures Padded(bytes, from, m) + Padded(bytes, from + m, n) == Padded(bytes, from, m + n)
  {
  }

  /** Everything `write_file_data_chain` may have changed: the clusters of `ch`. */
  ghost predicate OnlyClusters(data: Clusters, data': Clusters, ch: seq<nat>) {
    |data'| == |data| && forall c {:trigger data'[c]} :: 0 <= c < |data| && c !in ch ==> data'[c] == data[c]
  }

  lemma FillSector(d: seq<Byte>, i: nat, sector: Sector, bytes: seq<Byte>, from: nat)
    requires 512 * i + 512 <= |d| && d[..512 * i] == Padded(bytes, from, 512 * i)
    requires sector == Padded(bytes, from + 512 * i, 512)
    ensures Splice(d, 512 * i, sector)[..512 * (i + 1)] == Padded(bytes, from, 512 * (i + 1))
  {
    PaddedSplit(bytes, from, 512 * i, 512);
    assert Splice(d, 512 * i, sector)[..512 * (i + 1)] == d[..512 * i] + sector;
  }

  /** Fill cluster `c` with the bytes from `from`, zero padded. A refused sector
      write stops the fill; only `c` is touched. */
  method WriteCluster(v: Volume, c: nat, bytes: seq<Byte>, from: nat) returns (r: Result<()>)
    requires v.Valid() && IsAllocatable(v.g, c) && from <= |bytes|
    modifies v
    ensures v.Valid() && v.fat == old(v.fat) && v.info == old(v.info)
    ensures OnlyClusters(old(v.data), v.data, [c])
    ensures r.Ok? ==> v.data[c] == Padded(bytes, from, v.g.ClusterBytes())
    ensures r.Err? ==> r == Err(Block) && exists n :: v.faults(n)
  {
    var position := from;
    for i := 0 to v.g.sectorsPerCluster
      invariant v.Valid() && v.fat == old(v.fat) && v.info == old(v.info)
      invariant OnlyClusters(old(v.data), v.data, [c])
      invariant position == if from + 512 * i <= |bytes| then from + 512 * i else |bytes|
      invariant v.data[c][..512 * i] == Padded(bytes, from, 512 * i)
    {
      var take := if |bytes| - position < 512 then |bytes| - position else 512;
      var sector: Sector := bytes[position..position + take] + Zeros(512 - take);
      position := position + take;
      assert sector == Padded(bytes, from + 512 * i, 512);
      FillSector(v.data[c], i, sector, bytes, from);
      r := v.WriteSector(c, i, sector);
      if r.Err? { return; }
    }
    assert v.data[c] == v.data[c][..512 * v.g.sectorsPerCluster];
    return Ok(());
  }

  /** `zero_cluster`. */
  method ZeroCluster(v: Volume, c: nat) returns (r: Result<()>)
    requires v.Valid() && IsAllocatable(v.g, c)
    modifies v
    ensures v.Valid() && v.fat == old(v.fat) && v.info == old(v.info)
    ensures OnlyClusters(old(v.data), v.data, [c])
    ensures r.Ok? ==> v.data[c] == Zeros(v.g.ClusterBytes())
    ensures r.Err? ==> r == Err(Block) && exists n :: v.faults(n)
  {
    r := WriteCluster(v, c, [], 0);
    assert Padded([], 0, v.g.ClusterBytes()) == Zeros(v.g.ClusterBytes());
  }

  /** `ch` is a proper chain from `first` with room for `n` bytes. */
  ghost predicate HasRoom(g: Geometry, fat: Fat, data: Clusters, ch: seq<nat>, first: nat, n: nat)
    requires g.Limit() <= |fat| && |data| == g.Limit()
  {
    && IsChain(fat, g.Limit(), ch) && ch[0] == first
    && (forall i {:trigger ch[i]} :: 0 <= i < |ch| ==> |data[ch[i]]| == g.ClusterBytes())
    && n <= |Content(data, ch)|
  }

  /** The first `t` clusters of the chain are filled with the first `written` bytes. */
  ghost predicate Filled(data0: Clusters, data: Clusters, ch: seq<nat>, t: nat, cluster: nat, bytes: seq<Byte>,
                         written: nat)
    requires InData(data0, ch)
  {
    && t < |ch| && cluster == ch[t] && written < |bytes| && OnlyClusters(data0, data, ch)
    && InData(data, ch[..t]) && Content(data, ch[..t]) == bytes[..written]
  }

  /** A proper chain is no longer than the volume has clusters. */
  lemma ChainWithin(g: Geometry, fat: Fat, ch: seq<nat>)
    requires g.Limit() <= |fat| && IsChain(fat, g.Limit(), ch)
    ensures |ch| <= g.clusterCount
  {
    ChainNoDuplicates(fat, g.Limit(), ch);
    DistinctBound(ch, 2, g.Limit());
  }

  /** What a finished write means for the chain. */
  ghost predicate FillResult(g: Geometry, fat: Fat, data0: Clusters, data: Clusters, ch: seq<nat>, first: nat,
                             bytes: seq<Byte>, r: Result<()>, faulty: bool)
    requires g.Limit() <= |fat| && |data0| == g.Limit()
  {
    && OnlyClusters(data0, data, ch)
    && (r.Err? ==> r == Err(Block) && faulty)
    && (r.Ok? ==> HasRoom(g, fat, data, ch, first, |bytes|) && Content(data, ch)[..|bytes|] == bytes)
  }

  lemma FillTouches(data0: Clusters, data: Clusters, data': Clusters, ch: seq<nat>, t: nat)
    requires t < |ch| && OnlyClusters(data0, data, ch) && OnlyClusters(data, data', [ch[t]])
    ensures OnlyClusters(data0, data', ch)
  {
  }

  /** Filling cluster `i` extends the written prefix by one cluster. */
  lemma AfterCluster(g: Geometry, data: Clusters, data': Clusters, ch: seq<nat>, i: nat, bytes: seq<Byte>, from: nat)
    requires InData(data, ch) && i < |ch| && NoDuplicates(ch) && from <= |bytes|
    requires OnlyClusters(data, data', [ch[i]]) && data'[ch[i]] == Padded(bytes, from, g.ClusterBytes())
    requires Content(data, ch[..i]) == bytes[..from]
    ensures Content(data', ch[..i + 1]) == Padded(bytes, 0, from + g.ClusterBytes())
    ensures from + g.ClusterBytes() <= |bytes| ==> Content(data', ch[..i + 1]) == bytes[..from + g.ClusterBytes()]
  {
    ContentFrame(data, data', ch[..i]);
    ContentSplit(data', ch, i);
    PaddedSplit(bytes, 0, from, g.ClusterBytes());
    assert bytes[..from] == Padded(bytes, 0, from);
  }

  lemma AfterLastCluster(g: Geometry, data0: Clusters, data': Clusters, ch: seq<nat>, n: nat, bytes: seq<Byte>)
    requires InData(data0, ch) && InData(data', ch) && n <= |ch|
    requires forall i :: 0 <= i < |ch| ==> |data0[ch[i]]| == g.ClusterBytes() && |data'[ch[i]]| == g.ClusterBytes()
    requires exists m :: m >= |bytes| && Content(data', ch[..n]) == Padded(bytes, 0, m)
    ensures |Content(data', ch)| == |Content(data0, ch)| && |bytes| <= |Content(data', ch)|
    ensures Content(data', ch)[..|bytes|] == bytes
  {
    ContentLength(data0, ch, g.ClusterBytes());
    ContentLength(data', ch, g.ClusterBytes());
    ContentConcat(data', ch[..n], ch[n..]);
    assert ch[..n] + ch[n..] == ch;
  }

  /** One more cluster filled: either the bytes are all there, or the chain goes on. */
  lemma FillStep(g: Geometry, fat: Fat, data0: Clusters, data: Clusters, data': Clusters, ch: seq<nat>, first: nat,
                 t: nat, bytes: seq<Byte>, written: nat)
    requires g.Limit() <= |fat| && |data0| == |data| == |data'| == g.Limit()
    requires HasRoom(g, fat, data0, ch, first, |bytes|)
    requires t < |ch| && Filled(data0, data, ch, t, ch[t], bytes, written)
    requires OnlyClusters(data, data', [ch[t]]) && data'[ch[t]] == Padded(bytes, written, g.ClusterBytes())
    requires forall i :: 0 <= i < |ch| ==> |data'[ch[i]]| == g.ClusterBytes()
    ensures OnlyClusters(data0, data', ch)
    ensures written + g.ClusterBytes() >= |bytes| ==>
              HasRoom(g, fat, data', ch, first, |bytes|) && Content(data', ch)[..|bytes|] == bytes
    ensures written + g.ClusterBytes() < |bytes| ==>
              && t + 1 < |ch| && LinkOf(fat, g.Limit(), ch[t]) == Next(ch[t + 1])
              && Filled(data0, data', ch, t + 1, ch[t + 1], bytes, written + g.ClusterBytes())
  {
    ChainNoDuplicates(fat, g.Limit(), ch);
    AfterCluster(g, data, data', ch, t, bytes, written);
    if written + g.ClusterBytes() >= |bytes| {
      AfterLastCluster(g, data0, data', ch, t + 1, bytes);
    } else {
      ContentLength(data0, ch, g.ClusterBytes());
      ContentLength(data', ch[..t + 1], g.ClusterBytes());
      assert ch[..|ch|] == ch;
      if t + 1 == |ch| {
        assert false;
      }
    }
  }

  /** One round of `write_file_data_chain`: fill a cluster, then follow its link unless done. */
  method FillOne(v: Volume, cluster: nat, bytes: seq<Byte>, written: nat, ghost data0: Clusters, ghost ch: seq<nat>,
                 ghost first: nat, ghost t: nat)
    returns (r: Result<()>, more: bool, next: nat)
    requires v.Valid() && written < |bytes| && |data0| == v.g.Limit()
    modifies v
    ensures v.Valid() && v.fat == old(v.fat) && v.info == old(v.info)
    ensures more ==> r.Ok? && written + v.g.ClusterBytes() < |bytes|
    ensures HasRoom(v.g, v.fat, data0, ch, first, |bytes|) &&
            Filled(data0, old(v.data), ch, t, cluster, bytes, written) ==>
              if more then Filled(data0, v.data, ch, t + 1, next, bytes, written + v.g.ClusterBytes())
              else FillResult(v.g, v.fat, data0, v.data, ch, first, bytes, r, exists n :: v.faults(n))
  {
    next, more := cluster, false;
    ghost var good := HasRoom(v.g, v.fat, data0, ch, first, |bytes|) &&
        Filled(data0, v.data, ch, t, cluster, bytes, written);
    r := Err(CorruptChain);
    if IsAllocatable(v.g, cluster) {
      r := WriteCluster(v, cluster, bytes, written);
      if good { FillTouches(data0, old(v.data), v.data, ch, t); }
    }
    if r.Ok? {
      if good { FillStep(v.g, v.fat, data0, old(v.data), v.data, ch, first, t, bytes, written); }
      if written + v.g.ClusterBytes() < |bytes| {
        var link := v.NextCluster(cluster);
        if link.Next? {
          more, next := true, link.cluster;
        } else {
          r := Err(if link.End? then TruncatedFile else CorruptChain);
        }
      }
    }
  }

  /** The loop of `write_file_data_chain`. */
  method FillChain(v: Volume, first: nat, bytes: seq<Byte>, ghost ch: seq<nat>) returns (r: Result<()>)
    requires v.Valid() && bytes != []
    modifies v
    ensures v.Valid() && v.fat == old(v.fat) && v.info == old(v.info)
    ensures HasRoom(v.g, v.fat, old(v.data), ch, first, |bytes|) ==>
              FillResult(v.g, v.fat, old(v.data), v.data, ch, first, bytes, r, exists n :: v.faults(n))
  {
    ghost var data0 := v.data;
    ghost var good := HasRoom(v.g, v.fat, data0, ch, first, |bytes|);
    if good { ChainWithin(v.g, v.fat, ch); }
    var cluster, written, traversed := first, 0, 0;
    var more := true;
    r := Ok(());
    while more
      invariant v.Valid() && v.fat == old(v.fat) && v.info == old(v.info)
      invariant 0 <= written < |bytes| && 0 <= traversed <= v.g.clusterCount
      invariant good ==> if more then Filled(data0, v.data, ch, traversed, cluster, bytes, written)
                         else FillResult(v.g, v.fat, data0, v.data, ch, first, bytes, r, exists n :: v.faults(n))
      decreases more, v.g.clusterCount - traversed
    {
      if traversed + 1 > v.g.clusterCount {
        r, more := Err(ChainTooLong), false;
      } else {
        r, more, cluster := FillOne(v, cluster, bytes, written, data0, ch, first, traversed);
        traversed := traversed + 1;
        if more { written := written + v.g.ClusterBytes(); }
      }
    }
  }

  /** `write_file_data_chain`: the chain then starts with exactly `bytes`. */
  method WriteFileDataChain(v: Volume, first: nat, bytes: seq<Byte>, ghost ch: seq<nat>) returns (r: Result<()>)
    requires v.Valid()
    modifies v
    ensures v.Valid() && v.fat == old(v.fat) && v.info == old(v.info)
    ensures bytes == [] ==> r.Ok? && v.data == old(v.data)
    ensures bytes != [] && HasRoom(v.g, v.fat, old(v.data), ch, first, |bytes|) ==>
              FillResult(v.g, v.fat, old(v.data), v.data, ch, first, bytes, r, exists n :: v.faults(n))
  {
    if bytes == [] {
      r := Ok(());
    } else if first < 2 {
      r := Err(CorruptChain);
    } else {
      r := FillChain(v, first, bytes, ch);
    }
  }

  // ------------------------------------------------------------- reading

  /** The bytes a range read must return: `[offset, offset + n)` cut at `size`. */
  ghost function RangeOf(content: seq<Byte>, size: nat, offset: nat, n: nat): seq<Byte>
    requires size <= |content|
  {
    if offset >= size || n == 0 then [] else if offset + n <= size then content[offset..offset + n]
        else content[offset..size]
  }

  lemma RangeOfPrefix(content: seq<Byte>, bytes: seq<Byte>, offset: nat, n: nat)
    requires |bytes| <= |content| && content[..|bytes|] == bytes
    ensures RangeOf(content, |bytes|, offset, n) == RangeOf(bytes, |bytes|, offset, n)
  {
    if offset < |bytes| && n > 0 {
      var end := if offset + n <= |bytes| then offset + n else |bytes|;
      SliceSlice(content, 0, |bytes|, offset, end);
      assert content[0..|bytes|] == content[..|bytes|];
    }
  }

  /** The first `position` bytes of the file have been passed; those of them at or
      after `offset` are in `out`. */
  ghost predicate ReadUpTo(content: seq<Byte>, offset: nat, target: nat, position: nat, out: seq<Byte>) {
    && position <= |content| && offset + target <= |content| && |out| <= target
    && out == content[offset..offset + |out|]
    && |out| == if position <= offset then 0 else if position - offset <= target then position - offset else target
  }

  /** `part` is the piece of `content` at position `p`. */
  ghost predicate SitsAt(content: seq<Byte>, p: nat, part: seq<Byte>) {
    p + |part| <= |content| && content[p..p + |part|] == part
  }

  lemma SliceOfSlice(content: seq<Byte>, p: nat, d: seq<Byte>, k: nat)
    requires SitsAt(content, p, d) && k + 512 <= |d|
    ensures content[p + k..p + k + 512] == d[k..k + 512]
  {
    SliceSlice(content, p, p + |d|, k, k + 512);
  }

  lemma CopyStep(content: seq<Byte>, offset: nat, target: nat, position: nat, out: seq<Byte>, sector: Sector,
                 start: nat, count: nat)
    requires ReadUpTo(content, offset, target, position, out) && |out| < target
    requires position + 512 <= |content| && sector == content[position..position + 512] && position + 512 > offset
    requires start == (if offset > position then offset - position else 0)
    requires count == (if 512 - start < target - |out| then 512 - start else target - |out|)
    ensures ReadUpTo(content, offset, target, position + 512, out + sector[start..start + count])
  {
    assert position + start == offset + |out|;
    SliceSlice(content, position, position + 512, start, start + count);
  }

  /** Copy from the sectors of one cluster, whose first byte is at file position `position0`. */
  method ReadCluster(v: Volume, c: nat, offset: nat, target: nat, position0: nat, out0: seq<Byte>,
                     ghost content: seq<Byte>)
    returns (out: seq<Byte>, position: nat)
    requires v.Valid() && IsAllocatable(v.g, c) && |out0| < target
    ensures SitsAt(content, position0, v.data[c]) && ReadUpTo(content, offset, target, position0, out0) ==>
              && ReadUpTo(content, offset, target, position, out)
              && (|out| < target ==> position == position0 + |v.data[c]|)
    ensures |out| <= target
  {
    out, position := out0, position0;
    ghost var good := SitsAt(content, position0, v.data[c]) && ReadUpTo(content, offset, target, position0, out0);
    var i := 0;
    while i < v.g.sectorsPerCluster && |out| < target
      invariant 0 <= i <= v.g.sectorsPerCluster && position == position0 + 512 * i && |out| <= target
      invariant good ==> ReadUpTo(content, offset, target, position, out)
    {
      if position + 512 > offset {
        var sector := v.ReadSector(c, i);
        var start := if offset > position then offset - position else 0;
        var count := if 512 - start < target - |out| then 512 - start else target - |out|;
        if good {
          SliceOfSlice(content, position0, v.data[c], 512 * i);
          CopyStep(content, offset, target, position, out, sector, start, count);
        }
        out := out + sector[start..start + count];
      }
      position := position + 512;
      i := i + 1;
    }
  }

  /** The read stands at cluster `t` of the chain with the bytes before it copied. */
  ghost predicate ReadingAt(data: Clusters, ch: seq<nat>, t: nat, cluster: nat, offset: nat, target: nat, position: nat,
                            out: seq<Byte>)
    requires InData(data, ch)
  {
    && t < |ch| && cluster == ch[t] && InData(data, ch[..t]) && position == |Content(data, ch[..t])|
    && ReadUpTo(Content(data, ch), offset, target, position, out)
  }

  /** Cluster `t` sits in the content right behind the clusters before it. */
  lemma ClusterInContent(data: Clusters, ch: seq<nat>, t: nat)
    requires InData(data, ch) && t < |ch|
    ensures InData(data, ch[..t]) && InData(data, ch[..t + 1])
    ensures |Content(data, ch[..t + 1])| == |Content(data, ch[..t])| + |data[ch[t]]|
    ensures SitsAt(Content(data, ch), |Content(data, ch[..t])|, data[ch[t]])
  {
    ContentSplit(data, ch, t);
  }

  /** While bytes are missing the chain is not exhausted. */
  lemma MoreToRead(g: Geometry, fat: Fat, data: Clusters, ch: seq<nat>, t: nat,
                   offset: nat, target: nat, position: nat, out: seq<Byte>)
    requires g.Limit() <= |fat| && IsChain(fat, g.Limit(), ch) && InData(data, ch) && t < |ch|
    requires ReadUpTo(Content(data, ch), offset, target, position, out) && |out| < target
    requires InData(data, ch[..t + 1]) && position == |Content(data, ch[..t + 1])|
    ensures t + 1 < |ch| && LinkOf(fat, g.Limit(), ch[t]) == Next(ch[t + 1])
    ensures ReadingAt(data, ch, t + 1, ch[t + 1], offset, target, position, out)
  {
    assert ch[..|ch|] == ch;
    if t + 1 == |ch| {
      assert false;
    }
  }

  /** One round of `read_file_at`: copy from a cluster, then follow its link unless done. */
  method ReadOne(v: Volume, first: nat, cluster: nat, t: nat, guard: ChainCycleGuard, offset: nat, target: nat,
                 position0: nat, out0: seq<Byte>, ghost ch: seq<nat>)
    returns (done: Option<Result<seq<Byte>>>, next: nat, position: nat, out: seq<Byte>)
    requires v.Valid() && |out0| < target && guard.Tracks(v.fat, v.g.Limit(), first, t)
    modifies guard
    ensures done.None? ==> |out| < target && guard.Tracks(v.fat, v.g.Limit(), first, t + 1)
    ensures HasRoom(v.g, v.fat, v.data, ch, first, offset + target) &&
            ReadingAt(v.data, ch, t, cluster, offset, target, position0, out0) ==>
              if done.None? then ReadingAt(v.data, ch, t + 1, next, offset, target, position, out)
              else done.value == Ok(Content(v.data, ch)[offset..offset + target])
  {
    ghost var fat, data, lim := v.fat, v.data, v.g.Limit();
    ghost var good := HasRoom(v.g, fat, data, ch, first, offset + target) &&
        ReadingAt(data, ch, t, cluster, offset, target, position0, out0);
    next, position, out := cluster, position0, out0;
    if !IsAllocatable(v.g, cluster) {
      done := Some(Err(CorruptChain));
      return;
    }
    if good { ClusterInContent(data, ch, t); }
    out, position := ReadCluster(v, cluster, offset, target, position0, out0, if good then Content(data, ch) else []);
    if |out| == target {
      done := Some(Ok(out));
      return;
    }
    if good { MoreToRead(v.g, fat, data, ch, t, offset, target, position, out); }
    var link := v.NextCluster(cluster);
    if !link.Next? {
      done := Some(Err(if link.End? then TruncatedFile else CorruptChain));
      return;
    }
    var advanced := guard.Advance(v, first, t);
    if advanced.Err? {
      Trichotomy(fat, lim, first);
      done := Some(Err(advanced.error));
      return;
    }
    done, next := None, link.cluster;
  }

  /** The walking loop of `read_file_at`, with its cycle guard. */
  method ReadChain(v: Volume, first: nat, offset: nat, target: nat, ghost ch: seq<nat>) returns (r: Result<seq<Byte>>)
    requires v.Valid() && target > 0
    ensures HasRoom(v.g, v.fat, v.data, ch, first, offset + target) ==>
              r == Ok(Content(v.data, ch)[offset..offset + target])
  {
    ghost var fat, data, lim := v.fat, v.data, v.g.Limit();
    ghost var good := HasRoom(v.g, fat, data, ch, first, offset + target);
    if good { ChainNoDuplicates(fat, lim, ch); }
    var cluster, traversed, position, out := first, 0, 0, [];
    var guard := new ChainCycleGuard(first);
    var done: Option<Result<seq<Byte>>> := None;
    while done.None?
      invariant |out| < target && 0 <= traversed <= v.g.clusterCount
      invariant v.fat == fat && v.data == data && (done.None? ==> guard.Tracks(fat, lim, first, traversed))
      invariant good && done.None? ==> ReadingAt(data, ch, traversed, cluster, offset, target, position, out)
      invariant good && done.Some? ==> done.value == Ok(Content(data, ch)[offset..offset + target])
      decreases done.None?, v.g.clusterCount - traversed
    {
      if traversed + 1 > v.g.clusterCount {
        done := Some(Err(ChainTooLong));
      } else {
        var out', position', next;
        done, next, position', out' := ReadOne(v, first, cluster, traversed, guard, offset, target, position, out, ch);
        if done.None? {
          cluster, position, out, traversed := next, position', out', traversed + 1;
        }
      }
    }
    return done.value;
  }

  /** `read_file_at`: on a proper chain that holds the file, every range read
      returns exactly the file's bytes, cut at its size. */
  method ReadFileAt(v: Volume, first: nat, size: nat, offset: nat, n: nat, ghost ch: seq<nat>)
    returns (r: Result<seq<Byte>>)
    requires v.Valid()
    ensures offset >= size || n == 0 ==> r == Ok([])
    ensures HasRoom(v.g, v.fat, v.data, ch, first, size) ==> r == Ok(RangeOf(Content(v.data, ch), size, offset, n))
  {
    var target := if offset >= size then 0 else if size - offset < n then size - offset else n;
    if target == 0 { return Ok([]); }
    r := ReadChain(v, first, offset, target, ch);
  }
}
