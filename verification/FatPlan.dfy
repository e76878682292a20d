/** What the slot search and lookups mean on a directory's flat content, before
    and after a slot is written. */
module FatPlan {
  import opened Bytes
  import opened FatChain
  import opened FatVolume
  import opened FatFile
  import opened FatDirectory
  import opened FatTree
  import opened FatSpace

  // ---------------------------------------------- the plan on flat content

  /** The first `k` slots are all in use or deleted, and none is a live `name`. */
  ghost predicate Passed(content: seq<Byte>, name: ShortName, k: nat) {
    32 * k <= |content| &&
    forall m :: 0 <= m < k ==>
      SlotAt(content, m)[0] != 0 && (Skipped(SlotAt(content, m)) || SlotAt(content, m)[..11] != name)
  }

  /** Slot `j` of cluster `c`, which is the `i`-th of the chain and visible to lookups. */
  ghost predicate SlotIn(data: Clusters, ch: seq<nat>, i: nat, c: nat, j: nat) {
    i < |ch| && i < MAX_DIRECTORY_CLUSTERS && ch[i] == c && c < |data| && 32 * j + 32 <= |data[c]|
  }

  ghost predicate LiveNamed(s: Slot, name: ShortName) {
    s[0] != 0 && !Skipped(s) && s[..11] == name
  }

  /** A slot search gave the right answer for directory chain `ch`. */
  ghost predicate PlanSound(data: Clusters, ch: seq<nat>, name: ShortName, p: Plan)
    requires InData(data, ch) && ch != []
  {
    match p
    case Existing(c, j) =>
      exists i :: SlotIn(data, ch, i, c, j) && Passed(Content(data, ch), name, SlotNumber(data, ch, i, j)) &&
          LiveNamed(SlotAt(data[c], j), name)
    case Vacant(c, j) =>
      exists i :: SlotIn(data, ch, i, c, j) && Passed(Content(data, ch), name, SlotNumber(data, ch, i, j)) &&
          SlotAt(data[c], j)[0] in {0, DELETED}
    case Extend(last) =>
      last == ch[|ch| - 1] && |ch| <= MAX_DIRECTORY_CLUSTERS &&
      Passed(Content(data, ch), name, SlotCount(Content(data, ch)))
    case Refuse(e) => e == ChainTooLong && |ch| > MAX_DIRECTORY_CLUSTERS
  }

  lemma ScanPassed(content: seq<Byte>, name: ShortName)
    ensures Passed(content, name, StopOf(ScanFor(content, name, 0), content))
    ensures ScanFor(content, name, 0) != Exhausted ==> 32 * ScanFor(content, name, 0).k + 32 <= |content|
    ensures ScanFor(content, name, 0).Found? ==> LiveNamed(SlotAt(content, ScanFor(content, name, 0).k), name)
    ensures ScanFor(content, name, 0).EndAt? ==> SlotAt(content, ScanFor(content, name, 0).k)[0] == 0
  {
    ScanMeaning(content, name, 0);
  }

  /** Slots of a prefix are slots of the whole. */
  lemma PassedPrefix(a: seq<Byte>, b: seq<Byte>, name: ShortName, k: nat)
    requires Passed(a, name, k)
    ensures Passed(a + b, name, k)
  {
    forall m | 0 <= m < k ensures SlotAt(a + b, m) == SlotAt(a, m) {
    }
  }

  lemma PassedShorter(content: seq<Byte>, name: ShortName, k: nat, m: nat)
    requires Passed(content, name, k) && m <= k
    ensures Passed(content, name, m)
  {
  }

  /** Passing `a` whole and then `k` slots of `d` passes `|a| / 32 + k` slots of `a + d`. */
  lemma PassedConcat(a: seq<Byte>, d: seq<Byte>, name: ShortName, k: nat)
    requires |a| % 32 == 0 && Passed(a, name, |a| / 32) && Passed(d, name, k)
    ensures Passed(a + d, name, |a| / 32 + k)
  {
    forall m | 0 <= m < |a| / 32 + k
      ensures SlotAt(a + d, m) == if m < |a| / 32 then SlotAt(a, m) else SlotAt(d, m - |a| / 32)
    {
    }
  }

  /** The deleted slot remembered so far lies in the clusters already passed. */
  ghost predicate DeletedBefore(data: Clusters, ch: seq<nat>, i: nat, deleted: Option<(nat, nat)>) {
    deleted.Some? ==> exists i0: nat :: i0 < i && SlotIn(data, ch, i0, deleted.value.0, deleted.value.1)
                                   && SlotAt(data[deleted.value.0], deleted.value.1)[0] == DELETED
  }

  ghost function Remember(d: seq<Byte>, c: nat, name: ShortName, deleted: Option<(nat, nat)>): Option<(nat, nat)> {
    var stop := StopOf(ScanFor(d, name, 0), d);
    var mine := if 32 * stop <= |d| then FirstDeleted(d, 0, stop) else None;
    if deleted.Some? || mine.None? then deleted else Some((c, mine.value))
  }

  /** The search, unrolled by one cluster of a chain. */
  lemma SearchStep(fat: Fat, lim: nat, data: Clusters, ch: seq<nat>, i: nat, name: ShortName,
                   deleted: Option<(nat, nat)>)
    requires lim <= |fat| && |data| == lim && IsChain(fat, lim, ch) && i < |ch| && i < MAX_DIRECTORY_CLUSTERS
    ensures var s, deleted' := ScanFor(data[ch[i]], name, 0), Remember(data[ch[i]], ch[i], name, deleted);
            SlotFor(fat, lim, data, ch[i], ch[..i], name, deleted) ==
            if s.Found? then Existing(ch[i], s.k)
            else if s.Exhausted? && i + 1 < |ch| then
              (if i + 1 < MAX_DIRECTORY_CLUSTERS then SlotFor(fat, lim, data, ch[i + 1], ch[..i + 1], name, deleted')
              else Refuse(ChainTooLong))
            else if deleted'.Some? then Vacant(deleted'.value.0, deleted'.value.1)
            else if s.EndAt? then Vacant(ch[i], s.k) else Extend(ch[i])
  {
    ChainNoDuplicates(fat, lim, ch);
    assert ch[i] !in ch[..i];
    assert i + 1 < |ch| ==> LinkOf(fat, lim, ch[i]) == Next(ch[i + 1]);
    assert ch[..i] + [ch[i]] == ch[..i + 1];
  }

  lemma SlotNumberBefore(data: Clusters, ch: seq<nat>, i: nat, j: nat, i': nat, k: nat)
    requires InData(data, ch) && i <= i' < |ch| && Aligned(data) && forall m {:trigger ch[m]} :: 0 <= m < |ch| ==>
               2 <= ch[m]
    requires 32 * j + 32 <= |data[ch[i]]| && (i == i' ==> j < k)
    ensures SlotNumber(data, ch, i, j) <= SlotNumber(data, ch, i', k)
  {
    if i < i' {
      assert ch[..i'] == ch[..i + 1] + ch[i + 1..i'];
      ContentConcat(data, ch[..i + 1], ch[i + 1..i']);
      ContentSplit(data, ch, i);
      ContentAligned(data, ch[..i]);
    }
  }

  /** A deleted slot among those passed is a sound vacancy. */
  lemma VacantDeleted(data: Clusters, ch: seq<nat>, i0: nat, j: nat, i: nat, name: ShortName, k: nat)
    requires InData(data, ch) && i0 <= i < |ch| && i0 < MAX_DIRECTORY_CLUSTERS && Aligned(data)
    requires forall m {:trigger ch[m]} :: 0 <= m < |ch| ==> 2 <= ch[m]
    requires 32 * j + 32 <= |data[ch[i0]]| && SlotAt(data[ch[i0]], j)[0] == DELETED && (i0 == i ==> j < k)
    requires Passed(Content(data, ch), name, SlotNumber(data, ch, i, k))
    ensures PlanSound(data, ch, name, Vacant(ch[i0], j))
  {
    SlotNumberBefore(data, ch, i0, j, i, k);
    PassedShorter(Content(data, ch), name, SlotNumber(data, ch, i, k), SlotNumber(data, ch, i0, j));
    assert SlotIn(data, ch, i0, ch[i0], j);
  }

  /** When the scan stops in cluster `i`, the first deleted slot seen, or else the end mark, is vacant. */
  lemma PlanStops(data: Clusters, ch: seq<nat>, i: nat, name: ShortName, deleted: Option<(nat, nat)>)
    requires InData(data, ch) && i < |ch| && i < MAX_DIRECTORY_CLUSTERS && Aligned(data) && forall j {:trigger ch[j]} ::
               0 <= j < |ch| ==> 2 <= ch[j]
    requires DeletedBefore(data, ch, i, deleted)
    requires Passed(Content(data, ch), name, SlotNumber(data, ch, i,
             StopOf(ScanFor(data[ch[i]], name, 0), data[ch[i]])))
    ensures var deleted' := Remember(data[ch[i]], ch[i], name, deleted);
            && DeletedBefore(data, ch, i + 1, deleted')
            && (deleted'.Some? ==> PlanSound(data, ch, name, Vacant(deleted'.value.0, deleted'.value.1)))
    ensures ScanFor(data[ch[i]], name, 0).EndAt? ==>
              PlanSound(data, ch, name, Vacant(ch[i], ScanFor(data[ch[i]], name, 0).k))
  {
    var stop := StopOf(ScanFor(data[ch[i]], name, 0), data[ch[i]]);
    ScanPassed(data[ch[i]], name);
    var mine := FirstDeleted(data[ch[i]], 0, stop);
    DeletedMeaning(data[ch[i]], 0, stop);
    if deleted.Some? {
      var i0: nat :| i0 < i && SlotIn(data, ch, i0, deleted.value.0, deleted.value.1) &&
          SlotAt(data[deleted.value.0], deleted.value.1)[0] == DELETED;
      VacantDeleted(data, ch, i0, deleted.value.1, i, name, stop);
    } else if mine.Some? {
      assert SlotIn(data, ch, i, ch[i], mine.value);
      VacantDeleted(data, ch, i, mine.value, i, name, stop);
    }
    if ScanFor(data[ch[i]], name, 0).EndAt? {
      assert SlotIn(data, ch, i, ch[i], stop);
    }
  }

  /** Scanning cluster `i` extends what has been passed. */
  lemma ClusterPassed(data: Clusters, ch: seq<nat>, i: nat, name: ShortName)
    requires InData(data, ch) && i < |ch| && Aligned(data) && forall j {:trigger ch[j]} :: 0 <= j < |ch| ==> 2 <= ch[j]
    requires InData(data, ch[..i]) && Passed(Content(data, ch[..i]), name, SlotCount(Content(data, ch[..i])))
    ensures InData(data, ch[..i + 1])
    ensures Passed(Content(data, ch), name, SlotNumber(data, ch, i, StopOf(ScanFor(data[ch[i]], name, 0), data[ch[i]])))
    ensures ScanFor(data[ch[i]], name, 0) == Exhausted ==>
              Passed(Content(data, ch[..i + 1]), name, SlotCount(Content(data, ch[..i + 1])))
    ensures ScanFor(data[ch[i]], name, 0) == Exhausted && i + 1 == |ch| ==>
              Passed(Content(data, ch), name, SlotCount(Content(data, ch)))
  {
    ContentSplit(data, ch, i);
    ContentAligned(data, ch[..i]);
    var a, d, b := Content(data, ch[..i]), data[ch[i]], Content(data, ch[i + 1..]);
    ScanPassed(d, name);
    var k := StopOf(ScanFor(d, name, 0), d);
    AlignedSum(|a|, |d|);
    PassedConcat(a, d, name, k);
    PassedPrefix(a + d, b, name, |a| / 32 + k);
    assert ch[..|ch|] == ch;
  }

  /** The search does not go beyond cluster `i`. */
  lemma PlanEnds(fat: Fat, lim: nat, data: Clusters, ch: seq<nat>, i: nat, name: ShortName,
                 deleted: Option<(nat, nat)>, p: Plan)
    requires lim <= |fat| && |data| == lim && IsChain(fat, lim, ch) && Aligned(data)
    requires i < |ch| && i < MAX_DIRECTORY_CLUSTERS
    requires Passed(Content(data, ch[..i]), name, SlotCount(Content(data, ch[..i]))) &&
             DeletedBefore(data, ch, i, deleted)
    requires p == SlotFor(fat, lim, data, ch[i], ch[..i], name, deleted)
    requires ScanFor(data[ch[i]], name, 0).Exhausted? ==> i + 1 == |ch| || i + 1 == MAX_DIRECTORY_CLUSTERS
    ensures PlanSound(data, ch, name, p)
  {
    SearchStep(fat, lim, data, ch, i, name, deleted);
    ClusterPassed(data, ch, i, name);
    var s := ScanFor(data[ch[i]], name, 0);
    ScanPassed(data[ch[i]], name);
    if s.Found? {
      assert SlotIn(data, ch, i, ch[i], s.k);
    } else {
      PlanStops(data, ch, i, name, deleted);
    }
  }

  lemma {:induction false} PlanFrom(fat: Fat, lim: nat, data: Clusters, ch: seq<nat>, i: nat, name: ShortName,
                                    deleted: Option<(nat, nat)>, p: Plan)
    requires lim <= |fat| && |data| == lim && IsChain(fat, lim, ch) && Aligned(data)
    requires i < |ch| && i < MAX_DIRECTORY_CLUSTERS
    requires Passed(Content(data, ch[..i]), name, SlotCount(Content(data, ch[..i]))) &&
             DeletedBefore(data, ch, i, deleted)
    requires p == SlotFor(fat, lim, data, ch[i], ch[..i], name, deleted)
    ensures PlanSound(data, ch, name, p)
    decreases |ch| - i
  {
    if ScanFor(data[ch[i]], name, 0).Exhausted? && i + 1 < |ch| && i + 1 < MAX_DIRECTORY_CLUSTERS {
      SearchStep(fat, lim, data, ch, i, name, deleted);
      ClusterPassed(data, ch, i, name);
      PlanStops(data, ch, i, name, deleted);
      PlanFrom(fat, lim, data, ch, i + 1, name, Remember(data[ch[i]], ch[i], name, deleted), p);
    } else {
      PlanEnds(fat, lim, data, ch, i, name, deleted, p);
    }
  }

  lemma PlanMeaning(fat: Fat, lim: nat, data: Clusters, ch: seq<nat>, name: ShortName)
    requires lim <= |fat| && |data| == lim && IsChain(fat, lim, ch) && Aligned(data)
    ensures PlanSound(data, ch, name, SlotFor(fat, lim, data, ch[0], [], name, None))
  {
    assert ch[..0] == [];
    PlanFrom(fat, lim, data, ch, 0, name, None, SlotFor(fat, lim, data, ch[0], [], name, None));
  }

  // ------------------------------------------- lookups after a slot write

  /** Slot `j` is the one a lookup of `name` stops at. */
  ghost predicate IsFirst(content: seq<Byte>, name: ShortName, j: nat) {
    32 * j + 32 <= |content| && LiveNamed(SlotAt(content, j), name) && Passed(content, name, j)
  }

  lemma VerdictFirst(content: seq<Byte>, name: ShortName, j: nat)
    requires IsFirst(content, name, j)
    ensures ScanFor(content, name, 0) == Found(j) && Verdict(content, name) == FoundEntry(SlotAt(content, j))
  {
    ScanIsFound(content, name, 0, j);
  }

  lemma VerdictNone(content: seq<Byte>, name: ShortName)
    requires forall j :: !IsFirst(content, name, j)
    ensures Verdict(content, name) == Err(NotFound)
  {
    ScanPassed(content, name);
    if ScanFor(content, name, 0).Found? {
      assert IsFirst(content, name, ScanFor(content, name, 0).k);
    }
  }

  /** Directories that agree on which slot a lookup stops at answer alike. */
  lemma SameVerdict(a: seq<Byte>, b: seq<Byte>, name: ShortName)
    requires forall j :: IsFirst(a, name, j) <==> IsFirst(b, name, j)
    requires forall j :: IsFirst(a, name, j) && IsFirst(b, name, j) ==> SlotAt(b, j) == SlotAt(a, j)
    ensures Verdict(a, name) == Verdict(b, name)
  {
    if j :| IsFirst(a, name, j) {
      VerdictFirst(a, name, j);
      VerdictFirst(b, name, j);
    } else {
      VerdictNone(a, name);
      VerdictNone(b, name);
    }
  }

  /** Writing a live `short` slot behind a passed prefix makes `short` resolve to it. */
  lemma NewNameFound(content: seq<Byte>, k: nat, s: Slot, short: ShortName)
    requires 32 * k + 32 <= |content| && Passed(content, short, k) && LiveNamed(s, short)
    ensures IsFirst(Splice(content, 32 * k, s), short, k)
  {
    forall m | 0 <= m <= k ensures SlotAt(Splice(content, 32 * k, s), m) == if m == k then s else SlotAt(content, m) {
      SpliceSlots(content, k, s, m);
    }
  }

  /** It changes the answer for no other name. */
  lemma OtherNamesKept(content: seq<Byte>, k: nat, s: Slot, short: ShortName, name: ShortName)
    requires 32 * k + 32 <= |content| && EndTail(content) && LiveNamed(s, short) && name != short
    requires var s0 := SlotAt(content, k); s0[0] == 0 || s0[0] == DELETED || LiveNamed(s0, short)
    ensures Verdict(Splice(content, 32 * k, s), name) == Verdict(content, name)
  {
    var content' := Splice(content, 32 * k, s);
    forall j ensures 32 * j + 32 <= |content| && j >= 0 ==>
          SlotAt(content', j) == if j == k then s else SlotAt(content, j) {
      if j >= 0 { SpliceSlots(content, k, s, j); }
    }
    forall j: nat ensures IsFirst(content', name, j) <==> IsFirst(content, name, j) {
      if IsFirst(content', name, j) {
        assert j != k;
        assert j > k ==> SlotAt(content, k)[0] != 0;
      }
    }
    SameVerdict(content', content, name);
  }

  /** A zeroed cluster at the end changes no answer. */
  lemma ZerosKeepVerdict(content: seq<Byte>, n: nat, name: ShortName)
    requires |content| % 32 == 0
    ensures Verdict(content + Zeros(n), name) == Verdict(content, name)
  {
    var content' := content + Zeros(n);
    forall j: nat ensures 32 * j + 32 <= |content| ==> SlotAt(content', j) == SlotAt(content, j)
                  ensures |content| < 32 * j + 32 <= |content'| ==> SlotAt(content', j)[0] == 0 {
    }
    forall j: nat ensures IsFirst(content', name, j) <==> IsFirst(content, name, j) {
    }
    SameVerdict(content', content, name);
  }

  /** Lookups in a directory whose chain and clusters did not change do not change. */
  lemma LookupFrame(fat: Fat, fat': Fat, lim: nat, data: Clusters, data': Clusters, ch: seq<nat>, name: ShortName)
    requires lim <= |fat| && lim <= |fat'| && |data| == lim == |data'| && Aligned(data) && Aligned(data')
    requires IsChain(fat, lim, ch) && IsChain(fat', lim, ch)
    requires forall c :: c in ch && c < lim ==> data'[c] == data[c]
    ensures Lookup(fat', lim, data', ch[0], [], name) == Lookup(fat, lim, data, ch[0], [], name)
  {
    LookupOnChain(fat, lim, data, ch, name);
    LookupOnChain(fat', lim, data', ch, name);
    forall i | 0 <= i < |Visible(ch)| ensures data'[Visible(ch)[i]] == data[Visible(ch)[i]] {
      assert ch[i] in ch;
    }
    ContentFrame(data, data', Visible(ch));
  }

  // ------------------------------------------- the search and the lookup

  /** What the slot search says about the name. */
  ghost function PlanVerdict(data: Clusters, p: Plan): Result<Entry> {
    match p
    case Existing(c, k) => (if c < |data| && 32 * k + 32 <= |data[c]| then FoundEntry(SlotAt(data[c], k))
        else Err(CorruptDirectory))
    case Vacant(_, _) => Err(NotFound)
    case Extend(_) => Err(NotFound)
    case Refuse(e) => Err(e)
  }

  /** On every volume, corrupt or not, the slot search finds a name exactly when a
      lookup does, and fails with the same error. */
  lemma {:induction false} SearchAgreesWithLookup(fat: Fat, lim: nat, data: Clusters, c: nat, seen: seq<nat>,
                                                  name: ShortName, deleted: Option<(nat, nat)>)
    requires lim <= |fat| && |data| == lim && |seen| <= MAX_DIRECTORY_CLUSTERS
    ensures PlanVerdict(data, SlotFor(fat, lim, data, c, seen, name, deleted)) == Lookup(fat, lim, data, c, seen, name)
    decreases MAX_DIRECTORY_CLUSTERS - |seen|
  {
    if |seen| < MAX_DIRECTORY_CLUSTERS && c !in seen && 2 <= c < lim && ScanFor(data[c], name, 0).Exhausted? &&
        LinkOf(fat, lim, c).Next? {
      SearchAgreesWithLookup(fat, lim, data, LinkOf(fat, lim, c).cluster, seen + [c], name,
          Remember(data[c], c, name, deleted));
    }
  }

  /** No live slot carries `name`. */
  ghost predicate Absent(content: seq<Byte>, name: ShortName) {
    forall j: nat :: 32 * j + 32 <= |content| ==> !LiveNamed(SlotAt(content, j), name)
  }

  /** No name is carried by two owner slots. */
  ghost predicate UniqueNames(content: seq<Byte>) {
    forall j, k {:trigger OwnerSlot(content, j), OwnerSlot(content, k)} ::
      OwnerSlot(content, j) && OwnerSlot(content, k) && SlotAt(content, j)[..11] == SlotAt(content, k)[..11] ==> j == k
  }
}
