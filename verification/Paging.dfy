/** Page-table operations: copy-on-write sharing, breaking, mapping and unmapping. */
module Paging {
  import opened Bytes
  import opened CowRefs
  import opened CowView
  import opened Frames

  datatype MapError = InvalidRange | NotMapped | MappingFailed | AlreadyMapped | OutOfFrames
  datatype Outcome = Done | Failed(error: MapError)

  // ------------------------------------------------- the eager specification

  /** Pages `start .. start + n` of `dst` become copies of those of `src`. */
  ghost function Copied(v: View, src: nat, dst: nat, start: nat, n: nat): View {
    if n == 0 then v
    else
      var p := start + n - 1;
      var before := Copied(v, src, dst, start, n - 1);
      if Key(src, p) in v then before[Key(dst, p) := v[Key(src, p)]] else before
  }

  /** Pages `start .. start + n` of `space` disappear. */
  ghost function Dropped(v: View, space: nat, start: nat, n: nat): View {
    map k | k in v && !(k.space == space && start <= k.page < start + n) :: v[k]
  }

  lemma DroppedMore(v: View, space: nat, start: nat, n: nat)
    ensures Dropped(v, space, start, 0) == v
    ensures Dropped(v, space, start, n + 1) == Dropped(v, space, start, n) - {Key(space, start + n)}
  {
  }

  lemma {:induction false} CopiedKeys(v: View, src: nat, dst: nat, start: nat, n: nat, k: Key)
    requires src != dst
    ensures !(k.space == dst && start <= k.page < start + n) ==> (k in Copied(v, src, dst, start, n) <==> k in v)
    ensures !(k.space == dst && start <= k.page < start + n) && k in v ==> Copied(v, src, dst, start, n)[k] == v[k]
  {
    if n > 0 { CopiedKeys(v, src, dst, start, n - 1, k); }
  }

  /** The page with one byte replaced. */
  function Poked(content: seq<Byte>, offset: nat, b: Byte): seq<Byte>
    requires offset < |content|
  {
    content[offset := b]
  }

  // ---------------------------------------------------- file frames and stores

  /** A cached frame has a holder and no writable page. */
  lemma CachedHeld(m: Mem, es: Entries, live: set<nat>, f: nat)
    requires Inv(m, es, live) && f in m.cached
    ensures Holders(m.tables, m.cached, f) != {} && f in live
    ensures forall j :: j in m.tables && m.tables[j].frame == f ==> !m.tables[j].writable
  {
    HoldersCache(m.tables, m.cached, f, f);
    assert FileCache in Holders(m.tables, m.cached, f);
    forall j | j in m.tables && m.tables[j].frame == f ensures !m.tables[j].writable {
      assert Sole(m.tables, m.cached, j);
    }
  }

  lemma CountUndone(m: Mem, es: Entries, es': Entries, f: nat)
    requires CountsAgree(m, es) && Holders(m.tables, m.cached, f) != {}
    requires forall g :: CountOf(es', g) == if g != f then CountOf(es, g) else if CountOf(es, f) == 0 then 1
             else CountOf(es, f)
    ensures CountsAgree(m, es')
  {
    forall g ensures Agrees(CountOf(es', g), |Holders(m.tables, m.cached, g)|) {
      assert Counted(m.tables, m.cached, es, g);
    }
  }

  /** Filling a frame that was not live changes no cached page. */
  lemma FillSpoilsNothing(m: Mem, files: map<nat, seq<Byte>>, live: set<nat>, f: nat, content: seq<Byte>)
    requires Backed(m, live) && f !in live && Unspoiled(m.bytes, m.cached, files)
    ensures Unspoiled(m.bytes[f := content], m.cached, files)
  {
  }

  /** The file cache takes a fresh frame. */
  lemma CachedFrame(m: Mem, es: Entries, live: set<nat>, files: map<nat, seq<Byte>>, f: nat, content: seq<Byte>)
    requires Inv(m, es, live) && f !in live && Unspoiled(m.bytes, m.cached, files)
    ensures var m' := Mem(m.tables, m.bytes[f := content], m.cached + {f});
            Inv(m', es, live + {f}) && ViewOf(m') == ViewOf(m) && f !in files &&
            Unspoiled(m'.bytes, m'.cached, files[f := content])
  {
    var filled := m.(bytes := m.bytes[f := content]);
    ViewFill(m, f, content);
    CacheFresh(filled, es, live, f);
    ViewCached(filled, m.cached + {f});
  }

  /** A store to a frame with one holder changes no cached page. */
  lemma StoreSpoilsNothing(m: Mem, files: map<nat, seq<Byte>>, k: Key, content: seq<Byte>)
    requires k in m.tables && Holders(m.tables, m.cached, m.tables[k].frame) == {Mapping(k)} &&
             Unspoiled(m.bytes, m.cached, files)
    ensures Unspoiled(m.bytes[m.tables[k].frame := content], m.cached, files)
  {
    HoldersCache(m.tables, m.cached, m.tables[k].frame, m.tables[k].frame);
  }

  /** A store to a frame with one holder is seen by that holder alone. */
  lemma ViewStoreSole(m: Mem, k: Key, content: seq<Byte>)
    requires k in m.tables && Holders(m.tables, m.cached, m.tables[k].frame) == {Mapping(k)}
    ensures ViewOf(m.(bytes := m.bytes[m.tables[k].frame := content])) == ViewOf(m)[k := content]
  {
    forall j | j in m.tables && m.tables[j].frame == m.tables[k].frame ensures j == k {
      HolderOf(m, j);
    }
  }

  // ------------------------------------------------------- copying and mapping

  predicate InRange(k: Key, space: nat, lo: nat, hi: nat) {
    k.space == space && lo <= k.page < hi
  }

  /** The first `i` pages are copies; nothing outside the range differs from `v0`. */
  ghost predicate Copying(v: View, v0: View, src: nat, dst: nat, start: nat, n: nat, i: nat) {
    && Dropped(v, dst, start, n) == v0
    && (forall k :: InRange(k, dst, start, start + n) ==> k in v)
    && (forall p :: start <= p < start + i ==>
       Key(src, p) in v0 && Key(dst, p) in v && v0[Key(src, p)] == v[Key(dst, p)])
  }

  lemma CopyingStep(v: View, v0: View, src: nat, dst: nat, start: nat, n: nat, i: nat)
    requires src != dst && Copying(v, v0, src, dst, start, n, i) && i < n && Key(src, start + i) in v
    ensures Copying(v[Key(dst, start + i) := v[Key(src, start + i)]], v0, src, dst, start, n, i + 1)
  {
    var k := Key(dst, start + i);
    assert Dropped(v[k := v[Key(src, start + i)]], dst, start, n) == Dropped(v, dst, start, n);
    assert Key(src, start + i) in v0 && v0[Key(src, start + i)] == v[Key(src, start + i)];
  }

  /** What the eager copy is at each page. */
  lemma {:induction false} CopiedAt(v: View, src: nat, dst: nat, start: nat, n: nat, k: Key)
    requires src != dst && forall p :: start <= p < start + n ==> Key(src, p) in v
    ensures k in Copied(v, src, dst, start, n) <==> k in v || InRange(k, dst, start, start + n)
    ensures InRange(k, dst, start, start + n) ==> Copied(v, src, dst, start, n)[k] == v[Key(src, k.page)]
    ensures k in v && !InRange(k, dst, start, start + n) ==> Copied(v, src, dst, start, n)[k] == v[k]
  {
    if n > 0 { CopiedAt(v, src, dst, start, n - 1, k); }
  }

  /** Copying page by page gives the eager result. */
  lemma CopyingDone(v: View, v0: View, src: nat, dst: nat, start: nat, n: nat, i: nat)
    requires src != dst && Copying(v, v0, src, dst, start, n, i)
    ensures i == n ==> v == Copied(v0, src, dst, start, n)
  {
    if i == n {
      forall k ensures k in v <==> k in Copied(v0, src, dst, start, n) {
        CopiedAt(v0, src, dst, start, n, k);
        assert k in v0 <==> k in Dropped(v, dst, start, n);
      }
      forall k | k in v ensures v[k] == Copied(v0, src, dst, start, n)[k] {
        CopiedAt(v0, src, dst, start, n, k);
        assert !InRange(k, dst, start, start + n) ==> v0[k] == Dropped(v, dst, start, n)[k];
      }
    }
  }

  lemma DroppedTwice(v: View, space: nat, start: nat, m: nat, n: nat)
    requires m <= n
    ensures Dropped(Dropped(v, space, start, m), space, start, n) == Dropped(v, space, start, n)
    ensures Dropped(Dropped(v, space, start, n), space, start, n) == Dropped(v, space, start, n)
  {
  }

  /** The pages of the range from `gone` on are there, its first pages are not, and all other pages are as before. */
  ghost predicate Left(v: View, v0: View, space: nat, start: nat, n: nat, gone: nat) {
    && gone <= n && Dropped(v, space, start, n) == v0
    && forall p: nat {:trigger Key(space, p)} :: start <= p < start + n ==> (Key(space, p) in v <==> p >= start + gone)
  }

  lemma LeftOf(v: View, v0: View, space: nat, start: nat, n: nat, gone: nat)
    requires gone <= n && Dropped(v, space, start, n) == v0
    requires forall p: nat {:trigger Key(space, p)} :: start <= p < start + n ==> Key(space, p) in v
    ensures Left(Dropped(v, space, start, gone), v0, space, start, n, gone)
  {
    DroppedTwice(v, space, start, gone, n);
  }

  /** `added` puts pages `lo .. hi` of `space`, unmapped in `m0`, on uncounted frames. */
  ghost predicate FreshPages(added: map<Key, Pte>, m0: Mem, es: Entries, space: nat, lo: nat, hi: nat, writable: bool) {
    && (forall k {:trigger k in added} :: k in added <==> InRange(k, space, lo, hi))
    && (forall k {:trigger added[k]} :: k in added ==>
          k !in m0.tables && added[k].writable == writable && added[k].user && CountOf(es, added[k].frame) == 0)
  }

  ghost function Joined(m0: Mem, added: map<Key, Pte>): Mem {
    m0.(tables := m0.tables + added)
  }

  lemma FreshPagesGrow(added: map<Key, Pte>, m0: Mem, es: Entries, space: nat, lo: nat, hi: nat, writable: bool, f: nat)
    requires lo <= hi && FreshPages(added, m0, es, space, lo, hi, writable) && Key(space, hi) !in m0.tables &&
             CountOf(es, f) == 0
    ensures var p, k := Pte(f, writable, true), Key(space, hi);
            && FreshPages(added[k := p], m0, es, space, lo, hi + 1, writable)
            && Joined(m0, added[k := p]) == Joined(m0, added).(tables := Joined(m0, added).tables[k := p])
  {
  }

  lemma FreshPagesShrink(added: map<Key, Pte>, m0: Mem, es: Entries, space: nat, lo: nat, hi: nat, writable: bool)
    requires lo < hi && FreshPages(added, m0, es, space, lo, hi, writable)
    ensures var k := Key(space, lo);
            && k in added && CountOf(es, added[k].frame) == 0 && Joined(m0, added).tables[k] == added[k]
            && FreshPages(added - {k}, m0, es, space, lo + 1, hi, writable)
            && Joined(m0, added - {k}) == Joined(m0, added).(tables := Joined(m0, added).tables - {k})
  {
    assert InRange(Key(space, lo), space, lo, hi);
  }

  lemma FreshPagesNone(added: map<Key, Pte>, m0: Mem, es: Entries, space: nat, lo: nat, writable: bool)
    requires FreshPages(added, m0, es, space, lo, lo, writable)
    ensures Joined(m0, added) == m0
  {
    assert added == map[];
    assert m0.tables + map[] == m0.tables;
  }

  /** Mapping fresh frames changes nothing outside the range. */
  lemma FreshPagesView(added: map<Key, Pte>, m0: Mem, es: Entries, space: nat, start: nat, n: nat, writable: bool)
    requires FreshPages(added, m0, es, space, start, start + n, writable)
    ensures Dropped(ViewOf(Joined(m0, added)), space, start, n) == ViewOf(m0)
    ensures forall k :: InRange(k, space, start, start + n) ==>
              k in Joined(m0, added).tables && CountOf(es, Joined(m0, added).tables[k].frame) == 0
  {
    forall k | InRange(k, space, start, start + n)
        ensures k in Joined(m0, added).tables && CountOf(es, Joined(m0, added).tables[k].frame) == 0 {
      assert k in added;
    }
  }

  lemma InvMore(m: Mem, es: Entries, live: set<nat>, live': set<nat>)
    requires Inv(m, es, live) && live <= live'
    ensures Inv(m, es, live')
  {
  }

  // ----------------------------------------------------- unmapping and sharing

  /** The first `i` pages of the range were mapped and are gone. */
  ghost predicate Unmapping(v: View, v0: View, space: nat, start: nat, i: nat) {
    v == Dropped(v0, space, start, i) && forall p :: start <= p < start + i ==> Key(space, p) in v0
  }

  lemma UnmappingStep(v: View, v0: View, space: nat, start: nat, i: nat)
    requires Unmapping(v, v0, space, start, i) && Key(space, start + i) in v
    ensures Unmapping(v - {Key(space, start + i)}, v0, space, start, i + 1)
  {
    DroppedMore(v0, space, start, i);
  }

  /** The first `i` pages of the range are shared, and the rest of the source is as it was. */
  ghost predicate Sharing(m: Mem, v0: View, t0: map<Key, Pte>, src: nat, dst: nat, start: nat, i: nat) {
    && ViewOf(m) == Copied(v0, src, dst, start, i)
    && (forall p :: start <= p < start + i ==> Key(src, p) in v0 && Key(dst, p) !in v0 && Key(dst, p) in m.tables)
    && (forall p {:trigger Key(src, p)} :: start + i <= p ==>
          (Key(src, p) in m.tables <==> Key(src, p) in t0) &&
          (Key(src, p) in t0 ==> m.tables[Key(src, p)] == t0[Key(src, p)]))
  }

  /** The count of frame `f` once the first `i` pages of the range have been shared. */
  ghost function CountAfter(es0: Entries, t0: map<Key, Pte>, src: nat, start: nat, i: nat, f: nat): nat {
    if i == 0 then CountOf(es0, f)
    else
      var before, s := CountAfter(es0, t0, src, start, i - 1, f), Key(src, start + i - 1);
      if s in t0 && t0[s].frame == f then (if before == 0 then 2 else before + 1) else before
  }

  /** The frames that have an entry then. */
  ghost function FramesAfter(es0: Entries, t0: map<Key, Pte>, src: nat, start: nat, i: nat): set<nat> {
    Listed(es0) + set q | start <= q < start + i && Key(src, q) in t0 :: t0[Key(src, q)].frame
  }

  /** The table of counts can then take another holder of `f`. */
  ghost predicate RoomAfter(es0: Entries, t0: map<Key, Pte>, src: nat, start: nat, i: nat, f: nat) {
    var count := CountAfter(es0, t0, src, start, i, f);
    if count > 0 then count < MAX_REFCOUNT else |FramesAfter(es0, t0, src, start, i)| < MAX_COW_FRAMES
  }

  ghost predicate Tallied(es: Entries, es0: Entries, t0: map<Key, Pte>, src: nat, start: nat, i: nat) {
    forall f {:trigger CountOf(es, f)} :: CountOf(es, f) == CountAfter(es0, t0, src, start, i, f)
  }

  lemma {:induction false} CountedFrames(es0: Entries, t0: map<Key, Pte>, src: nat, start: nat, i: nat, f: nat)
    requires Unique(es0)
    ensures CountAfter(es0, t0, src, start, i, f) > 0 <==> f in FramesAfter(es0, t0, src, start, i)
  {
    if i == 0 {
      ListedCounted(es0, f);
    } else {
      CountedFrames(es0, t0, src, start, i - 1, f);
      var s := Key(src, start + i - 1);
      assert FramesAfter(es0, t0, src, start, i) ==
             FramesAfter(es0, t0, src, start, i - 1) + if s in t0 then {t0[s].frame} else {};
    }
  }

  /** Whether another holder can be counted is known from the table as it was before the range. */
  lemma ShareableAfter(es: Entries, es0: Entries, t0: map<Key, Pte>, src: nat, start: nat, i: nat)
    requires Unique(es) && Unique(es0) && |es| == MAX_COW_FRAMES && Tallied(es, es0, t0, src, start, i)
    ensures forall f :: Shareable(es, f) <==> RoomAfter(es0, t0, src, start, i, f)
  {
    VacancyIff(es);
    forall f ensures f in Listed(es) <==> f in FramesAfter(es0, t0, src, start, i) {
      ListedCounted(es, f);
      CountedFrames(es0, t0, src, start, i, f);
    }
    assert Listed(es) == FramesAfter(es0, t0, src, start, i);
  }

  /** Why page `i` of the range cannot be shared after those before it: it is missing, it is not a user page, its place
      is taken, the table of counts cannot take another holder, or no page table is to be had for it. */
  ghost function ShareRefusal(v0: View, t0: map<Key, Pte>, es0: Entries, src: nat, dst: nat, start: nat, i: nat,
                              refused: bool): Option<MapError> {
    var s := Key(src, start + i);
    if s !in t0 then Some(NotMapped)
    else if !t0[s].user then Some(MappingFailed)
    else if Key(dst, start + i) in v0 then Some(AlreadyMapped)
    else if !RoomAfter(es0, t0, src, start, i, t0[s].frame) then Some(OutOfFrames)
    else if refused then Some(MappingFailed)
    else None
  }

  /** Sharing a range of `n` pages stops at the first page that cannot be shared, for its reason, and only there. */
  ghost predicate Stopped(v0: View, t0: map<Key, Pte>, es0: Entries, src: nat, dst: nat, start: nat, n: nat,
                          refused: nat -> bool, r: Outcome, at: nat) {
    && (forall j: nat :: j < at ==> ShareRefusal(v0, t0, es0, src, dst, start, j, refused(j)).None?)
    && if r == Done then at == n
       else at < n && ShareRefusal(v0, t0, es0, src, dst, start, at, refused(at)) == Some(r.error)
  }

  /** One page further, or stopped. */
  lemma StoppedOn(v0: View, t0: map<Key, Pte>, es0: Entries, src: nat, dst: nat, start: nat, n: nat,
                  refused: nat -> bool, r: Outcome, i: nat)
    requires i < n && Stopped(v0, t0, es0, src, dst, start, i, refused, Done, i)
    requires ShareRefusal(v0, t0, es0, src, dst, start, i, refused(i)) == if r == Done then None else Some(r.error)
    ensures if r == Done then Stopped(v0, t0, es0, src, dst, start, i + 1, refused, Done, i + 1)
            else Stopped(v0, t0, es0, src, dst, start, n, refused, r, i)
  {
  }

  lemma ViewKeys(m: Mem)
    ensures forall k :: k in ViewOf(m) <==> k in m.tables
  {
  }

  lemma ShareView(m: Mem, s: Key, k: Key)
    requires s in m.tables && k !in m.tables
    ensures ViewOf(ShareOne(m, s, k, true)) == ViewOf(m)[k := ViewOf(m)[s]]
  {
  }

  lemma SharingStep(m: Mem, v0: View, t0: map<Key, Pte>, src: nat, dst: nat, start: nat, i: nat)
    requires src != dst && Sharing(m, v0, t0, src, dst, start, i)
    requires Key(src, start + i) in m.tables && Key(dst, start + i) !in m.tables
    ensures Sharing(ShareOne(m, Key(src, start + i), Key(dst, start + i), true), v0, t0, src, dst, start, i + 1)
  {
    var s, k := Key(src, start + i), Key(dst, start + i);
    CopiedKeys(v0, src, dst, start, i, s);
    CopiedKeys(v0, src, dst, start, i, k);
    ShareView(m, s, k);
    assert s in ViewOf(m) && k !in ViewOf(m);
  }

  lemma {:induction false} DropUndoesCopy(v: View, src: nat, dst: nat, start: nat, n: nat)
    requires src != dst && forall p :: start <= p < start + n ==> Key(dst, p) !in v
    ensures Dropped(Copied(v, src, dst, start, n), dst, start, n) == v
  {
    forall k ensures k in Dropped(Copied(v, src, dst, start, n), dst, start, n) <==> k in v {
      CopiedKeys(v, src, dst, start, n, k);
    }
    forall k | k in v ensures Dropped(Copied(v, src, dst, start, n), dst, start, n)[k] == v[k] {
      CopiedKeys(v, src, dst, start, n, k);
    }
  }

  /** A share that is counted and then uncounted leaves the counts right. */
  lemma ShareUndone(m: Mem, es: Entries, es': Entries, f: nat, s: Key)
    requires CountsAgree(m, es) && s in m.tables && m.tables[s].frame == f
    requires forall g :: CountOf(es', g) == if g != f then CountOf(es, g) else if CountOf(es, f) == 0 then 1
             else CountOf(es, f)
    ensures CountsAgree(m, es')
  {
    HolderOf(m, s);
    CountUndone(m, es, es', f);
  }

  /** Besides page `s` itself, no page on its frame is writable. */
  lemma OthersReadOnly(m: Mem, s: Key)
    requires Isolated(m) && s in m.tables
    ensures forall j :: j in m.tables && j != s && m.tables[j].frame == m.tables[s].frame ==> !m.tables[j].writable
  {
    forall j | j in m.tables && j != s && m.tables[j].frame == m.tables[s].frame ensures !m.tables[j].writable {
      HolderOf(m, s);
      assert Sole(m.tables, m.cached, j);
    }
  }

  /** Sharing one page keeps the invariant, and the new page reads what the source reads. */
  lemma ShareKeeps(m: Mem, es: Entries, es': Entries, live: set<nat>, s: Key, k: Key)
    requires Inv(m, es, live) && s in m.tables && k !in m.tables && Shared(es, es', m.tables[s].frame)
    ensures Inv(ShareOne(m, s, k, true), es', live) && ViewOf(ShareOne(m, s, k, true)) == ViewOf(m)[k := ViewOf(m)[s]]
  {
    var src, p := m.tables[s], Pte(m.tables[s].frame, false, true);
    var m1 := m.(tables := m.tables[s := src.(writable := false)]);
    SetFlags(m, es, live, s, src.(writable := false));
    OthersReadOnly(m, s);
    HolderOf(m1, s);
    MapShared(m1, es, es', live, k, p);
    assert m1.(tables := m1.tables[k := p]) == ShareOne(m, s, k, true) by {
      assert m.tables[s := src.(writable := false)][k := p] == m.tables[k := p][s := src.(writable := false)];
    }
    ShareView(m, s, k);
  }

  lemma BreakView(m: Mem, m0: Mem, k: Key, p: Pte)
    requires k in m.tables && m0.tables == m.tables && ViewOf(m0) == ViewOf(m) && p.frame in m0.bytes &&
             m0.bytes[p.frame] == PageBytes(m, m.tables[k].frame)
    ensures ViewOf(m0.(tables := (m0.tables - {k})[k := p])) == ViewOf(m)
  {
    var m1 := m0.(tables := m0.tables - {k});
    ViewUnmap(m0, k);
    ViewMap(m1, k, p);
    assert (ViewOf(m) - {k})[k := ViewOf(m)[k]] == ViewOf(m);
  }

  /** Moving one page to a private copy of its frame. */
  lemma BreakKeeps(m: Mem, es: Entries, es': Entries, live: set<nat>, k: Key, f: nat)
    requires Inv(m, es, live) && k in m.tables && f !in live && Released(es, es', m.tables[k].frame) &&
             CountOf(es, m.tables[k].frame) >= 2
    ensures var p := Pte(f, true, m.tables[k].user);
            var m' := Mem(m.tables - {k}, m.bytes[f := PageBytes(m, m.tables[k].frame)], m.cached);
            var m'' := m'.(tables := m'.tables[k := p]);
            Inv(m'', es', live + {f}) && ViewOf(m'') == ViewOf(m)
  {
    var p := Pte(f, true, m.tables[k].user);
    var content := PageBytes(m, m.tables[k].frame);
    var m0 := m.(bytes := m.bytes[f := content]);
    ViewFill(m, f, content);
    Unmap(m0, es, es', live, k, false);
    MapFresh(m0.(tables := m0.tables - {k}), es', live, k, p);
    BreakView(m, m0, k, p);
  }

  class PagingState {
    const cow: CowTable
    const frames: FrameAllocator
    var tables: map<Key, Pte>
    var bytes: map<nat, seq<Byte>>
    var cached: set<nat>
    /** What the file cache put into the frames it holds. */
    ghost var files: map<nat, seq<Byte>>

    ghost function M(): Mem
      reads this
    {
      Mem(tables, bytes, cached)
    }

    ghost function Seen(): View
      reads this
    {
      ViewOf(M())
    }

    ghost predicate Valid()
      reads this, cow, frames
    {
      cow.Valid() && frames.Valid() && Inv(M(), cow.entries, frames.live) && Unspoiled(bytes, cached, files)
    }

    /** No page is mapped, nothing cached. */
    constructor (cow: CowTable, frames: FrameAllocator)
      requires cow.Valid() && frames.Valid() && forall f :: CountOf(cow.entries, f) == 0
      ensures Valid() && this.cow == cow && this.frames == frames && Seen() == map[] && files == map[]
    {
      this.cow := cow;
      this.frames := frames;
      tables, bytes, cached, files := map[], map[], {}, map[];
    }

    // ------------------------------------------------------------ breaking

    /** The sole holder just gets write permission back. */
    method RestoreWrite(k: Key)
      requires Valid() && k in tables && CountOf(cow.entries, tables[k].frame) <= 1
      modifies this`tables, this`bytes, cow
      ensures Valid() && Seen() == old(Seen()) && tables == old(tables)[k := old(tables)[k].(writable := true)]
    {
      var pte := tables[k];
      SoleHolder(M(), cow.entries, k);
      SetFlags(M(), cow.entries, frames.live, k, pte.(writable := true));
      ViewMap(M(), k, pte.(writable := true));
      tables := tables[k := pte.(writable := true)];
      ghost var es := cow.entries;
      cow.Forget(pte.frame);
      HoldersFlags(old(tables), cached, k, pte.(writable := true), pte.frame);
      ForgetSole(M(), es, cow.entries, pte.frame);
      assert old(Seen())[k := PageBytes(M(), pte.frame)] == old(Seen());
    }

    /** Copy the page to the new frame, map it there, and drop one reference to the old frame. */
    method MoveTo(k: Key, f: nat, ghost live0: set<nat>)
      requires cow.Valid() && frames.Valid() && f !in live0 && frames.live == live0 + {f} &&
               Inv(M(), cow.entries, live0) && Unspoiled(bytes, cached, files)
      requires k in tables && CountOf(cow.entries, tables[k].frame) >= 2
      modifies this`tables, this`bytes, cow
      ensures Valid() && Seen() == old(Seen()) && tables.Keys == old(tables.Keys) && tables[k].writable
    {
      var pte := tables[k];
      ghost var m0, es0 := M(), cow.entries;
      var content := PageBytes(Mem(tables, bytes, cached), pte.frame);
      bytes := bytes[f := content];
      tables := tables - {k};
      tables := tables[k := Pte(f, true, pte.user)];
      var last := cow.Release(pte.frame);
      BreakKeeps(m0, es0, cow.entries, live0, k, f);
      FillSpoilsNothing(m0, files, live0, f, content);
    }

    /** One of several holders gets a private copy of the frame. */
    method BreakShared(k: Key) returns (ok: bool)
      requires Valid() && k in tables && CountOf(cow.entries, tables[k].frame) >= 2
      modifies this`tables, this`bytes, cow, frames
      ensures Valid() && Seen() == old(Seen()) && tables.Keys == old(tables.Keys)
      ensures ok ==> tables[k].writable
      ensures !ok ==>
                tables == old(tables) && cow.entries == old(cow.entries) && frames.live == old(frames.live) &&
                frames.Exhausted()
    {
      ghost var live0 := frames.live;
      var found := frames.AllocateFrame();
      ok := found.Some?;
      if ok { MoveTo(k, found.value, live0); }
    }

    /** `try_break_cow`: no space sees a change; on success the page is writable. */
    method TryBreakCow(k: Key) returns (ok: bool)
      requires Valid()
      modifies this`tables, this`bytes, cow, frames
      ensures Valid() && Seen() == old(Seen()) && tables.Keys == old(tables.Keys)
      ensures ok ==> k in tables && tables[k].writable
      ensures ok ==> k in old(tables) && !old(tables)[k].writable
      ensures !ok ==> tables == old(tables) && cow.entries == old(cow.entries) && frames.live == old(frames.live)
      ensures !ok ==> k !in tables || tables[k].writable || frames.Exhausted()
    {
      if k !in tables || tables[k].writable { return false; }
      var pte := tables[k];
      var refs := cow.RefCount(pte.frame);
      if refs <= 1 {
        RestoreWrite(k);
        ok := true;
      } else {
        ok := BreakShared(k);
      }
    }

    // ------------------------------------------------------------- sharing

    /** One page of `share_user_range_in`: count the new holder, map it
        read-only, clear the source's write flag if the range is writable.
        `refused`: the page-table update fails for want of a table frame. */
    method SharePage(s: Key, k: Key, writable: bool, refused: bool) returns (r: Outcome)
      requires Valid() && s in tables && k !in tables && (tables[s].writable ==> writable)
      modifies this`tables, this`bytes, cow
      ensures Valid()
      ensures r == Done ==> M() == ShareOne(old(M()), s, k, true) && Seen() == old(Seen())[k := old(Seen())[s]]
      ensures r == Done ==> Shared(old(cow.entries), cow.entries, old(tables)[s].frame)
      ensures r != Done ==> M() == old(M())
      ensures r == if !Shareable(old(cow.entries), old(tables)[s].frame) then Failed(OutOfFrames)
              else if refused then Failed(MappingFailed) else Done
    {
      var src := tables[s];
      ghost var m0, es0 := M(), cow.entries;
      var counted := cow.Share(src.frame);
      if !counted { return Failed(OutOfFrames); }
      if refused {
        var last := cow.Release(src.frame);
        ShareUndone(m0, es0, cow.entries, src.frame, s);
        return Failed(MappingFailed);
      }
      tables := tables[k := Pte(src.frame, false, true)];
      if writable && src.writable {
        tables := tables[s := src.(writable := false)];
      }
      ShareKeeps(m0, es0, cow.entries, frames.live, s, k);
      assert tables == m0.tables[k := Pte(src.frame, false, true)][s := src.(writable := false)];
      r := Done;
    }

    /** `release_frame` after the page is gone: the frame goes back to the
        allocator exactly when nobody holds it any more, if there is room for it. */
    method UnmapPage(k: Key) returns (ok: bool)
      requires Valid() && k in tables
      modifies this`tables, this`bytes, cow, frames
      ensures Valid() && M() == old(M()).(tables := old(tables) - {k}) && Seen() == old(Seen()) - {k}
      ensures var f := old(tables)[k].frame;
              var unheld := Holders(tables, cached, f) == {};
              && (unheld && |old(frames.reclaimed)| < MAX_RECLAIMED_FRAMES ==> frames.live == old(frames.live) - {f})
              && (!(unheld && |old(frames.reclaimed)| < MAX_RECLAIMED_FRAMES) ==> frames.live == old(frames.live))
              && (ok <==> unheld ==> |old(frames.reclaimed)| < MAX_RECLAIMED_FRAMES)
      ensures !ok ==> |frames.reclaimed| >= MAX_RECLAIMED_FRAMES
    {
      var f := tables[k].frame;
      ghost var m0, es0, live0 := M(), cow.entries, frames.live;
      tables := tables - {k};
      ViewUnmap(m0, k);
      var last := cow.Release(f);
      ok := true;
      if last { ok := frames.DeallocateFrame(f); }
      Unmap(m0, es0, cow.entries, live0, k, last && ok);
    }

    /** `rollback_shared`. */
    method RollbackShared(dst: nat, start: nat, n: nat)
      requires Valid() && forall p :: start <= p < start + n ==> Key(dst, p) in tables
      modifies this`tables, this`bytes, cow, frames
      ensures Valid() && Seen() == Dropped(old(Seen()), dst, start, n)
    {
      DroppedMore(Seen(), dst, start, 0);
      for i := 0 to n
        invariant Valid() && Seen() == Dropped(old(Seen()), dst, start, i)
        invariant forall p :: start + i <= p < start + n ==> Key(dst, p) in tables
      {
        DroppedMore(old(Seen()), dst, start, i);
        if Key(dst, start + i) in tables {
          var freed := UnmapPage(Key(dst, start + i));
        }
      }
    }

    /** The source pages of a range that still have their write flag are in a writable range. */
    ghost predicate FlagsMatch(src: nat, start: nat, n: nat, writable: bool)
      reads this
    {
      forall p :: start <= p < start + n && Key(src, p) in tables && tables[Key(src, p)].writable ==> writable
    }

    /** One round of the loop of `share_user_range_in`. */
    method ShareNext(src: nat, dst: nat, start: nat, i: nat, writable: bool, refused: bool, ghost v0: View,
                     ghost t0: map<Key, Pte>, ghost es0: Entries)
      returns (r: Outcome)
      requires Valid() && src != dst && Sharing(M(), v0, t0, src, dst, start, i)
      requires Unique(es0) && |es0| == MAX_COW_FRAMES && Tallied(cow.entries, es0, t0, src, start, i)
      requires Key(src, start + i) in t0 && t0[Key(src, start + i)].writable ==> writable
      modifies this`tables, this`bytes, cow
      ensures Valid()
      ensures if r == Done then Sharing(M(), v0, t0, src, dst, start, i + 1) else M() == old(M())
      ensures r == Done ==> Tallied(cow.entries, es0, t0, src, start, i + 1)
      ensures ShareRefusal(v0, t0, es0, src, dst, start, i, refused) == if r == Done then None else Some(r.error)
    {
      ViewKeys(M());
      CopiedKeys(v0, src, dst, start, i, Key(dst, start + i));
      var s, k := Key(src, start + i), Key(dst, start + i);
      if s !in tables {
        r := Failed(NotMapped);
      } else if !tables[s].user {
        r := Failed(MappingFailed);
      } else if k in tables {
        r := Failed(AlreadyMapped);
      } else {
        ghost var m0, es := M(), cow.entries;
        ShareableAfter(es, es0, t0, src, start, i);
        r := SharePage(s, k, writable, refused);
        if r == Done { SharingStep(m0, v0, t0, src, dst, start, i); }
      }
    }

    /** The loop of `share_user_range_in`. */
    method ShareLoop(src: nat, dst: nat, start: nat, n: nat, writable: bool, refused: nat -> bool, ghost v0: View,
                     ghost t0: map<Key, Pte>, ghost es0: Entries)
      returns (r: Outcome, i: nat)
      requires Valid() && FlagsMatch(src, start, n, writable) && src != dst && v0 == Seen() && t0 == tables
      requires es0 == cow.entries
      modifies this`tables, this`bytes, cow
      ensures Valid() && Sharing(M(), v0, t0, src, dst, start, i)
      ensures i <= n && Stopped(v0, t0, es0, src, dst, start, n, refused, r, i)
    {
      i, r := 0, Done;
      while i < n
        invariant 0 <= i <= n && Valid() && Sharing(M(), v0, t0, src, dst, start, i)
        invariant Tallied(cow.entries, es0, t0, src, start, i) && r == Done
        invariant Stopped(v0, t0, es0, src, dst, start, i, refused, Done, i)
      {
        r := ShareNext(src, dst, start, i, writable, refused(i), v0, t0, es0);
        StoppedOn(v0, t0, es0, src, dst, start, n, refused, r, i);
        if r != Done { return; }
        i := i + 1;
      }
    }

    /** `share_user_range_in`: on success every page of the range reads in `dst`
        what it reads in `src`, as if it had been copied; on failure, which has its reason in
        page `at`, nothing any space reads has changed. */
    method ShareUserRange(src: nat, dst: nat, start: nat, n: nat, writable: bool, refused: nat -> bool)
      returns (r: Outcome, ghost at: nat)
      requires Valid() && FlagsMatch(src, start, n, writable)
      modifies this`tables, this`bytes, cow, frames
      ensures Valid()
      ensures r == Done ==> src != dst && n > 0 && Seen() == Copied(old(Seen()), src, dst, start, n)
      ensures r == Done ==>
                forall p :: start <= p < start + n ==> Key(src, p) in old(Seen()) && Key(dst, p) !in old(Seen())
      ensures r != Done ==> Seen() == old(Seen())
      ensures if src == dst || n == 0 then r == Failed(InvalidRange)
              else Stopped(old(Seen()), old(tables), old(cow.entries), src, dst, start, n, refused, r, at)
    {
      at := 0;
      if src == dst || n == 0 { return Failed(InvalidRange), at; }
      ghost var v0 := Seen();
      var i;
      r, i := ShareLoop(src, dst, start, n, writable, refused, v0, tables, cow.entries);
      at := i;
      if r != Done {
        RollbackShared(dst, start, i);
        DropUndoesCopy(v0, src, dst, start, i);
      }
    }

    // -------------------------------------------------------------- stores

    /** A store to a mapped, writable page. */
    method Store(k: Key, offset: nat, b: Byte)
      requires Valid() && k in tables && tables[k].writable && offset < |PageBytes(M(), tables[k].frame)|
      modifies this`bytes
      ensures Valid() && Seen() == old(Seen())[k := Poked(old(Seen())[k], offset, b)]
    {
      var f := tables[k].frame;
      var content := Poked(PageBytes(Mem(tables, bytes, cached), f), offset, b);
      assert Sole(tables, cached, k);
      ViewStore(M(), k, content);
      StoreSpoilsNothing(M(), files, k, content);
      bytes := bytes[f := content];
    }

    /** A user store: if the page is read-only, the fault handler breaks the
        sharing when the page's range is writable, and the store is retried. */
    method UserStore(k: Key, offset: nat, b: Byte, logicallyWritable: bool) returns (ok: bool)
      requires Valid() && (k in tables ==> offset < |PageBytes(M(), tables[k].frame)|)
      modifies this`tables, this`bytes, cow, frames
      ensures Valid()
      ensures ok ==>
                k in old(Seen()) && offset < |old(Seen())[k]| &&
                Seen() == old(Seen())[k := Poked(old(Seen())[k], offset, b)]
      ensures !ok ==> Seen() == old(Seen())
      ensures k in old(tables) && old(tables)[k].writable ==> ok
      ensures k in old(tables) && logicallyWritable && !ok ==> frames.Exhausted()
    {
      ok := k in tables;
      if ok && !tables[k].writable {
        assert old(Seen())[k] == PageBytes(M(), tables[k].frame);
        ok := false;
        if logicallyWritable { ok := TryBreakCow(k); }
        assert ok ==> Seen()[k] == PageBytes(M(), tables[k].frame);
      }
      if ok { Store(k, offset, b); }
    }

    // ------------------------------------------------------------ unmapping

    /** `unmap_user_range_in`: the first pages of the range disappear, all of them on success. */
    method UnmapUserRange(space: nat, start: nat, n: nat) returns (r: Outcome, ghost done: nat)
      requires Valid()
      modifies this`tables, this`bytes, cow, frames
      ensures Valid() && done <= n && Seen() == Dropped(old(Seen()), space, start, done)
      ensures r == Done ==> n > 0 && done == n && forall p :: start <= p < start + n ==> Key(space, p) in old(tables)
      ensures r == Failed(NotMapped) ==> done < n && Key(space, start + done) !in old(tables)
      ensures r != Done && r != Failed(NotMapped) ==>
                if n == 0 then r == Failed(InvalidRange)
                else r == Failed(MappingFailed) && done > 0 && |frames.reclaimed| >= MAX_RECLAIMED_FRAMES
    {
      DroppedMore(Seen(), space, start, 0);
      done := 0;
      if n == 0 { return Failed(InvalidRange), done; }
      var i := 0;
      while i < n
        invariant 0 <= i == done <= n && Valid() && Unmapping(Seen(), old(Seen()), space, start, i)
      {
        if Key(space, start + i) !in tables {
          assert Key(space, start + i) !in Seen();
          assert Key(space, start + i) !in old(Seen());
          return Failed(NotMapped), done;
        }
        UnmappingStep(Seen(), old(Seen()), space, start, i);
        var freed := UnmapPage(Key(space, start + i));
        i, done := i + 1, i + 1;
        if !freed { return Failed(MappingFailed), done; }
      }
      r := Done;
    }

    // -------------------------------------------------------------- mapping

    /** One page of `map_user_range_in`: a fresh frame nobody counts. */
    method MapPage(k: Key, writable: bool, refused: bool) returns (r: Outcome, ghost f: nat)
      requires Valid()
      modifies this`tables, this`bytes, frames
      ensures Valid()
      ensures r == Done ==>
                k !in old(tables) && M() == old(M()).(tables := old(tables)[k := Pte(f, writable, true)]) &&
                CountOf(cow.entries, f) == 0
      ensures r != Done ==> M() == old(M())
    {
      f := 0;
      if k in tables {
        r := Failed(AlreadyMapped);
      } else {
        ghost var m0, live0 := M(), frames.live;
        var found := frames.AllocateFrame();
        if found.None? {
          r := Failed(OutOfFrames);
        } else if refused {
          var freed := frames.DeallocateFrame(found.value);
          InvMore(m0, cow.entries, live0, frames.live);
          r := Failed(MappingFailed);
        } else {
          f := found.value;
          NoHolder(m0, cow.entries, live0, f);
          MapFresh(m0, cow.entries, live0, k, Pte(f, writable, true));
          tables := tables[k := Pte(found.value, writable, true)];
          r := Done;
        }
      }
    }

    /** Undo the mapping of a page whose frame is not counted. */
    method UnmapFresh(k: Key)
      requires Valid() && k in tables && CountOf(cow.entries, tables[k].frame) == 0
      modifies this`tables, this`bytes, frames
      ensures Valid() && M() == old(M()).(tables := old(tables) - {k})
    {
      ghost var m0, live0 := M(), frames.live;
      var f := tables[k].frame;
      tables := tables - {k};
      var freed := frames.DeallocateFrame(f);
      Unmap(m0, cow.entries, cow.entries, live0, k, freed);
    }

    /** The rollback loop of `map_user_range_in`. */
    method RollbackMapped(space: nat, start: nat, end: nat, writable: bool, ghost m0: Mem, ghost added: map<Key, Pte>)
      requires Valid() && start <= end && M() == Joined(m0, added) &&
               FreshPages(added, m0, cow.entries, space, start, end, writable)
      modifies this`tables, this`bytes, frames
      ensures Valid() && M() == m0
    {
      ghost var left := added;
      for page := start to end
        invariant Valid() && M() == Joined(m0, left) && FreshPages(left, m0, cow.entries, space, page, end, writable)
      {
        FreshPagesShrink(left, m0, cow.entries, space, page, end, writable);
        UnmapFresh(Key(space, page));
        left := left - {Key(space, page)};
      }
      FreshPagesNone(left, m0, cow.entries, space, end, writable);
    }

    /** `map_user_range_in`: fresh frames for the whole range, or nothing. */
    method MapUserRange(space: nat, start: nat, n: nat, writable: bool, refused: nat -> bool)
      returns (r: Outcome, ghost added: map<Key, Pte>)
      requires Valid()
      modifies this`tables, this`bytes, frames
      ensures Valid()
      ensures r == Done ==>
                n > 0 && M() == Joined(old(M()), added) &&
                FreshPages(added, old(M()), cow.entries, space, start, start + n, writable)
      ensures r != Done ==> M() == old(M())
    {
      var page, end := start, start + n;
      ghost var m0 := M();
      added := map[];
      assert tables + map[] == tables;
      r := if n == 0 then Failed(InvalidRange) else Done;
      while page < end && r == Done
        invariant start <= page <= end && Valid() && M() == Joined(m0, added) &&
                  FreshPages(added, m0, cow.entries, space, start, page, writable)
        invariant r == Done ==> n > 0
        decreases end - page, r == Done
      {
        ghost var f;
        r, f := MapPage(Key(space, page), writable, refused(page - start));
        if r == Done {
          FreshPagesGrow(added, m0, cow.entries, space, start, page, writable, f);
          added := added[Key(space, page) := Pte(f, writable, true)];
          page := page + 1;
        }
      }
      if r != Done {
        RollbackMapped(space, start, page, writable, m0, added);
      }
    }

    /** One page of the eager copy. */
    method CopyPage(s: Key, k: Key)
      requires Valid() && s in tables && k in tables && CountOf(cow.entries, tables[k].frame) == 0
      modifies this`bytes
      ensures Valid() && Seen() == old(Seen())[k := old(Seen())[s]]
    {
      var content := PageBytes(Mem(tables, bytes, cached), tables[s].frame);
      SoleHolder(M(), cow.entries, k);
      ViewStoreSole(M(), k, content);
      StoreSpoilsNothing(M(), files, k, content);
      bytes := bytes[tables[k].frame := content];
    }

    /** The copying loop of `clone_user_range_in`. */
    method CopyRange(src: nat, dst: nat, start: nat, n: nat, writable: bool, ghost v0: View) returns (r: Outcome)
      requires Valid() && src != dst && Dropped(Seen(), dst, start, n) == v0
      requires forall k :: InRange(k, dst, start, start + n) ==>
                 k in tables && CountOf(cow.entries, tables[k].frame) == 0
      modifies this`bytes
      ensures Valid() && Dropped(Seen(), dst, start, n) == v0
      ensures r == Done ==> Seen() == Copied(v0, src, dst, start, n)
    {
      var i := 0;
      r := Done;
      while i < n && r == Done
        invariant 0 <= i <= n && Valid() && Copying(Seen(), v0, src, dst, start, n, i)
        decreases n - i, r == Done
      {
        var s, k := Key(src, start + i), Key(dst, start + i);
        if s !in tables {
          r := Failed(NotMapped);
        } else if !tables[s].user || tables[s].writable != writable {
          r := Failed(MappingFailed);
        } else {
          CopyingStep(Seen(), v0, src, dst, start, n, i);
          CopyPage(s, k);
          i := i + 1;
        }
      }
      CopyingDone(Seen(), v0, src, dst, start, n, i);
    }

    /** `clone_user_range_in`, the eager form: fresh frames, then byte copies. A failure leaves nothing behind, unless
        the reclaim list fills up while the copy is undone: then the pages from `gone` on stay. */
    method CloneUserRange(src: nat, dst: nat, start: nat, n: nat, writable: bool, refused: nat -> bool)
      returns (r: Outcome, ghost gone: nat)
      requires Valid()
      modifies this`tables, this`bytes, cow, frames
      ensures Valid()
      ensures r == Done ==> src != dst && n > 0 && Seen() == Copied(old(Seen()), src, dst, start, n)
      ensures r != Done ==> Dropped(Seen(), dst, start, n) == Dropped(old(Seen()), dst, start, n)
      ensures r != Done ==>
                if gone == n then Seen() == old(Seen())
                else
                  && Left(Seen(), old(Seen()), dst, start, n, gone)
                  && |frames.reclaimed| >= MAX_RECLAIMED_FRAMES
    {
      gone := n;
      if src == dst { return Failed(InvalidRange), gone; }
      ghost var v0, m0 := Seen(), M();
      ghost var added;
      r, added := MapUserRange(dst, start, n, writable, refused);
      if r == Done {
        FreshPagesView(added, m0, cow.entries, dst, start, n, writable);
        r := CopyRange(src, dst, start, n, writable, v0);
        if r != Done {
          var undone;
          ghost var v1 := Seen();
          undone, gone := UnmapUserRange(dst, start, n);
          DroppedTwice(v1, dst, start, gone, n);
          LeftOf(v1, v0, dst, start, n, gone);
        }
      }
    }

    // ---------------------------------------------------------- file frames

    /** The frame and its content go into the file cache. */
    method Keep(f: nat, content: seq<Byte>, ghost live0: set<nat>)
      requires cow.Valid() && frames.Valid() && frames.live == live0 + {f}
      requires var m := Mem(tables, bytes[f := content], cached + {f});
               Inv(m, cow.entries, live0 + {f}) && ViewOf(m) == Seen() &&
               Unspoiled(m.bytes, m.cached, files[f := content])
      modifies this`bytes, this`cached, this`files
      ensures Valid() && Seen() == old(Seen()) && files == old(files)[f := content]
    {
      bytes, cached, files := bytes[f := content], cached + {f}, files[f := content];
    }

    /** `allocate_file_frame`: the file cache holds the new frame. */
    method AllocateFileFrame(content: seq<Byte>) returns (r: Option<nat>)
      requires Valid()
      modifies this`bytes, this`cached, this`files, frames
      ensures Valid() && Seen() == old(Seen())
      ensures r.Some? ==>
                r.value !in old(frames.live) && r.value !in old(files) && files == old(files)[r.value := content]
      ensures r.None? ==> M() == old(M()) && files == old(files)
    {
      ghost var m0, live0 := M(), frames.live;
      r := frames.AllocateFrame();
      if r.Some? {
        CachedFrame(m0, cow.entries, live0, files, r.value, content);
        Keep(r.value, content, live0);
      }
    }

    /** `map_file_frame`, read-only: the page reads the cached frame. */
    method MapFileFrame(k: Key, f: nat, refused: bool) returns (ok: bool)
      requires Valid() && f in cached
      modifies this`tables, cow
      ensures Valid()
      ensures ok ==> k !in old(tables) && Seen() == old(Seen())[k := files[f]] && k in tables && !tables[k].writable
      ensures !ok ==> M() == old(M())
    {
      ghost var m0, es0 := M(), cow.entries;
      ok := k !in tables;
      if ok { ok := cow.Share(f); }
      if ok {
        CachedHeld(m0, es0, frames.live, f);
        if refused {
          var last := cow.Release(f);
          CountUndone(m0, es0, cow.entries, f);
          ok := false;
        } else {
          MapShared(m0, es0, cow.entries, frames.live, k, Pte(f, false, true));
          ViewMap(m0, k, Pte(f, false, true));
          tables := tables[k := Pte(f, false, true)];
        }
      }
    }

    /** `release_file_frame`: the cache gives the frame up; pages that map it keep it. */
    method ReleaseFileFrame(f: nat) returns (ok: bool)
      requires Valid() && f in cached
      modifies this`cached, this`files, cow, frames
      ensures Valid() && files == old(files) - {f} && Seen() == old(Seen())
      ensures var unheld := Holders(tables, cached, f) == {};
              && (unheld && |old(frames.reclaimed)| < MAX_RECLAIMED_FRAMES ==> frames.live == old(frames.live) - {f})
              && (!(unheld && |old(frames.reclaimed)| < MAX_RECLAIMED_FRAMES) ==> frames.live == old(frames.live))
              && (ok <==> unheld ==> |old(frames.reclaimed)| < MAX_RECLAIMED_FRAMES)
    {
      ghost var m0, es0, live0 := M(), cow.entries, frames.live;
      cached, files := cached - {f}, files - {f};
      ViewCached(m0, cached);
      var last := cow.Release(f);
      ok := true;
      if last { ok := frames.DeallocateFrame(f); }
      Uncache(m0, es0, cow.entries, live0, f, last && ok);
      assert last <==> Holders(tables, cached, f) == {};
    }
  }
}
