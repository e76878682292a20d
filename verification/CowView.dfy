/** Address spaces over shared frames: who holds a frame, what each space reads,
    and what keeps sharing invisible. */
module CowView {
  import opened Counting
  import opened Bytes
  import opened CowRefs

  /** A page of an address space. */
  datatype Key = Key(space: nat, page: nat)

  /** A page-table entry; `user` is the user-accessible flag. */
  datatype Pte = Pte(frame: nat, writable: bool, user: bool)

  /** Page tables, frame contents, and the frames the file cache holds. */
  datatype Mem = Mem(tables: map<Key, Pte>, bytes: map<nat, seq<Byte>>, cached: set<nat>)

  type View = map<Key, seq<Byte>>

  function PageBytes(m: Mem, f: nat): seq<Byte> {
    if f in m.bytes then m.bytes[f] else Zeros(4096)
  }

  /** What every page of every address space reads. */
  ghost function ViewOf(m: Mem): View {
    map k | k in m.tables :: PageBytes(m, m.tables[k].frame)
  }

  /** The file cache holds exactly these frames, and they hold what it put there. */
  ghost predicate Unspoiled(bytes: map<nat, seq<Byte>>, cached: set<nat>, files: map<nat, seq<Byte>>) {
    files.Keys == cached && forall f {:trigger files[f]} :: f in files ==> f in bytes && bytes[f] == files[f]
  }

  // --------------------------------------------------------------- holders

  datatype Holder = Mapping(key: Key) | FileCache

  ghost function Holders(tables: map<Key, Pte>, cached: set<nat>, f: nat): set<Holder> {
    (set k | k in tables && tables[k].frame == f :: Mapping(k)) + (if f in cached then {FileCache} else {})
  }

  ghost predicate Agrees(count: nat, holders: nat) {
    if count == 0 then holders <= 1 else count == holders
  }

  ghost predicate Sole(tables: map<Key, Pte>, cached: set<nat>, k: Key)
    requires k in tables
  {
    tables[k].writable ==> Holders(tables, cached, tables[k].frame) == {Mapping(k)}
  }

  /** A writable page's frame has no other holder. */
  ghost predicate Isolated(m: Mem) {
    forall k {:trigger Sole(m.tables, m.cached, k)} :: k in m.tables ==> Sole(m.tables, m.cached, k)
  }

  ghost predicate Counted(tables: map<Key, Pte>, cached: set<nat>, es: Entries, f: nat) {
    Agrees(CountOf(es, f), |Holders(tables, cached, f)|)
  }

  ghost predicate CountsAgree(m: Mem, es: Entries) {
    forall f {:trigger Counted(m.tables, m.cached, es, f)} :: Counted(m.tables, m.cached, es, f)
  }

  /** Frames in use by holders are in use according to the allocator. */
  ghost predicate Backed(m: Mem, live: set<nat>) {
    (forall k {:trigger m.tables[k]} :: k in m.tables ==> m.tables[k].frame in live) && m.cached <= live
  }

  ghost predicate Inv(m: Mem, es: Entries, live: set<nat>) {
    Isolated(m) && CountsAgree(m, es) && Backed(m, live)
  }

  lemma HolderOf(m: Mem, k: Key)
    requires k in m.tables
    ensures Mapping(k) in Holders(m.tables, m.cached, m.tables[k].frame)
  {
  }

  lemma HoldersAdd(tables: map<Key, Pte>, cached: set<nat>, k: Key, p: Pte, f: nat)
    requires k !in tables
    ensures Holders(tables[k := p], cached, f) == Holders(tables, cached, f) +
            (if f == p.frame then {Mapping(k)} else {})
    ensures Mapping(k) !in Holders(tables, cached, f)
  {
    var left, right := Holders(tables[k := p], cached, f),
        Holders(tables, cached, f) + (if f == p.frame then {Mapping(k)} else {});
    forall h ensures h in left <==> h in right {
    }
  }

  lemma HoldersRemove(tables: map<Key, Pte>, cached: set<nat>, k: Key, f: nat)
    requires k in tables
    ensures Holders(tables - {k}, cached, f) == Holders(tables, cached, f) - {Mapping(k)}
    ensures Mapping(k) in Holders(tables, cached, f) <==> f == tables[k].frame
  {
    var left, right := Holders(tables - {k}, cached, f), Holders(tables, cached, f) - {Mapping(k)};
    forall h ensures h in left <==> h in right {
    }
  }

  lemma HoldersFlags(tables: map<Key, Pte>, cached: set<nat>, k: Key, p: Pte, f: nat)
    requires k in tables && p.frame == tables[k].frame
    ensures Holders(tables[k := p], cached, f) == Holders(tables, cached, f)
  {
    var left, right := Holders(tables[k := p], cached, f), Holders(tables, cached, f);
    forall h ensures h in left <==> h in right {
    }
  }

  lemma HoldersCache(tables: map<Key, Pte>, cached: set<nat>, f: nat, g: nat)
    ensures Holders(tables, cached + {f}, g) == Holders(tables, cached, g) + (if g == f then {FileCache} else {})
    ensures Holders(tables, cached - {f}, g) == Holders(tables, cached, g) - (if g == f then {FileCache} else {})
    ensures FileCache in Holders(tables, cached, g) <==> g in cached
  {
  }

  // ----------------------------------------------------------- single steps

  /** A frame not in use has no holder and no count. */
  lemma NoHolder(m: Mem, es: Entries, live: set<nat>, f: nat)
    requires Inv(m, es, live) && f !in live
    ensures Holders(m.tables, m.cached, f) == {} && CountOf(es, f) == 0
  {
    forall h ensures h !in Holders(m.tables, m.cached, f) {
    }
    assert Counted(m.tables, m.cached, es, f);
  }

  /** A singleton grows by a different element to size 2, a set by a new element by one. */
  lemma CardAdd<T>(a: set<T>, x: T)
    requires x !in a
    ensures |a + {x}| == |a| + 1
  {
  }

  lemma CardRemove<T>(a: set<T>, x: T)
    requires x in a
    ensures |a - {x}| == |a| - 1
  {
  }

  // A page is mapped to a frame that has no holder yet.

  lemma MapFreshCount(m: Mem, es: Entries, live: set<nat>, k: Key, p: Pte, f: nat)
    requires Inv(m, es, live) && k !in m.tables && p.frame !in live
    ensures Agrees(CountOf(es, f), |Holders(m.tables[k := p], m.cached, f)|)
  {
    HoldersAdd(m.tables, m.cached, k, p, f);
    assert Counted(m.tables, m.cached, es, f);
    if f == p.frame {
      NoHolder(m, es, live, f);
      CardAdd(Holders(m.tables, m.cached, f), Mapping(k));
    } else {
      assert Holders(m.tables, m.cached, f) + {} == Holders(m.tables, m.cached, f);
    }
  }

  lemma MapFreshSole(m: Mem, es: Entries, live: set<nat>, k: Key, p: Pte, j: Key)
    requires Inv(m, es, live) && k !in m.tables && p.frame !in live && j in m.tables[k := p] &&
             m.tables[k := p][j].writable
    ensures Holders(m.tables[k := p], m.cached, m.tables[k := p][j].frame) == {Mapping(j)}
  {
    HoldersAdd(m.tables, m.cached, k, p, m.tables[k := p][j].frame);
    NoHolder(m, es, live, p.frame);
    if j != k {
      assert Sole(m.tables, m.cached, j);
      assert m.tables[j].frame in live;
      assert {Mapping(j)} + {} == {Mapping(j)};
    } else {
      assert {} + {Mapping(j)} == {Mapping(j)};
    }
  }

  lemma MapFresh(m: Mem, es: Entries, live: set<nat>, k: Key, p: Pte)
    requires Inv(m, es, live) && k !in m.tables && p.frame !in live
    ensures Inv(m.(tables := m.tables[k := p]), es, live + {p.frame})
  {
    forall f ensures Agrees(CountOf(es, f), |Holders(m.tables[k := p], m.cached, f)|) {
      MapFreshCount(m, es, live, k, p, f);
    }
    forall j | j in m.tables[k := p] && m.tables[k := p][j].writable
        ensures Holders(m.tables[k := p], m.cached, m.tables[k := p][j].frame) == {Mapping(j)} {
      MapFreshSole(m, es, live, k, p, j);
    }
  }

  // A page is mapped, read-only, to a frame that has a holder and no writable mapping.

  ghost predicate Shared(es: Entries, es': Entries, f: nat) {
    forall g {:trigger CountOf(es', g)} :: CountOf(es', g) == if g != f then CountOf(es, g)
        else if CountOf(es, f) == 0 then 2 else CountOf(es, f) + 1
  }

  ghost predicate Released(es: Entries, es': Entries, f: nat) {
    forall g {:trigger CountOf(es', g)} :: CountOf(es', g) == if g != f then CountOf(es, g)
        else if CountOf(es, f) == 0 then 0 else CountOf(es, f) - 1
  }

  lemma MapSharedCount(m: Mem, es: Entries, es': Entries, k: Key, p: Pte, f: nat)
    requires CountsAgree(m, es) && k !in m.tables && Shared(es, es', p.frame) &&
             Holders(m.tables, m.cached, p.frame) != {}
    ensures Agrees(CountOf(es', f), |Holders(m.tables[k := p], m.cached, f)|)
  {
    HoldersAdd(m.tables, m.cached, k, p, f);
    assert Counted(m.tables, m.cached, es, f);
    if f == p.frame {
      CardAdd(Holders(m.tables, m.cached, f), Mapping(k));
    } else {
      assert Holders(m.tables, m.cached, f) + {} == Holders(m.tables, m.cached, f);
    }
  }

  lemma MapShared(m: Mem, es: Entries, es': Entries, live: set<nat>, k: Key, p: Pte)
    requires Inv(m, es, live) && k !in m.tables && Shared(es, es', p.frame) && !p.writable
    requires Holders(m.tables, m.cached, p.frame) != {} && p.frame in live
    requires forall j :: j in m.tables && m.tables[j].frame == p.frame ==> !m.tables[j].writable
    ensures Inv(m.(tables := m.tables[k := p]), es', live)
  {
    forall f ensures Agrees(CountOf(es', f), |Holders(m.tables[k := p], m.cached, f)|) {
      MapSharedCount(m, es, es', k, p, f);
    }
    forall j | j in m.tables[k := p] && m.tables[k := p][j].writable
        ensures Holders(m.tables[k := p], m.cached, m.tables[k := p][j].frame) == {Mapping(j)} {
      HoldersAdd(m.tables, m.cached, k, p, m.tables[j].frame);
      assert Sole(m.tables, m.cached, j);
      assert {Mapping(j)} + {} == {Mapping(j)};
    }
  }

  // The write flag of a page is cleared, or set for a sole holder.

  lemma FlagsKeepCounts(m: Mem, es: Entries, k: Key, p: Pte)
    requires CountsAgree(m, es) && k in m.tables && p.frame == m.tables[k].frame
    ensures CountsAgree(m.(tables := m.tables[k := p]), es)
  {
    forall f ensures Agrees(CountOf(es, f), |Holders(m.tables[k := p], m.cached, f)|) {
      HoldersFlags(m.tables, m.cached, k, p, f);
      assert Counted(m.tables, m.cached, es, f);
    }
  }

  lemma SetFlags(m: Mem, es: Entries, live: set<nat>, k: Key, p: Pte)
    requires Inv(m, es, live) && k in m.tables && p.frame == m.tables[k].frame
    requires p.writable ==> Holders(m.tables, m.cached, p.frame) == {Mapping(k)}
    ensures Inv(m.(tables := m.tables[k := p]), es, live)
  {
    FlagsKeepCounts(m, es, k, p);
    forall j | j in m.tables[k := p] && m.tables[k := p][j].writable
        ensures Holders(m.tables[k := p], m.cached, m.tables[k := p][j].frame) == {Mapping(j)} {
      HoldersFlags(m.tables, m.cached, k, p, m.tables[k := p][j].frame);
      assert Sole(m.tables, m.cached, j);
    }
  }

  lemma OnlyMember<T>(s: set<T>, x: T)
    requires x in s && |s| <= 1
    ensures s == {x}
  {
    if y :| y in s && y != x {
      SubsetCard({x, y}, s);
    }
  }

  /** A frame counted at most once has this page as its only holder. */
  lemma SoleHolder(m: Mem, es: Entries, k: Key)
    requires CountsAgree(m, es) && k in m.tables && CountOf(es, m.tables[k].frame) <= 1
    ensures Holders(m.tables, m.cached, m.tables[k].frame) == {Mapping(k)}
  {
    var hs := Holders(m.tables, m.cached, m.tables[k].frame);
    HolderOf(m, k);
    assert Counted(m.tables, m.cached, es, m.tables[k].frame);
    OnlyMember(hs, Mapping(k));
  }

  /** Forgetting an entry of a frame with one holder keeps the counts right. */
  lemma ForgetSole(m: Mem, es: Entries, es': Entries, f: nat)
    requires CountsAgree(m, es) && |Holders(m.tables, m.cached, f)| <= 1
    requires forall g :: CountOf(es', g) == if g == f then 0 else CountOf(es, g)
    ensures CountsAgree(m, es')
  {
    forall g ensures Agrees(CountOf(es', g), |Holders(m.tables, m.cached, g)|) {
      assert Counted(m.tables, m.cached, es, g);
    }
  }

  // A page is unmapped; its frame is freed exactly when nobody holds it any more.

  lemma UnmapCount(m: Mem, es: Entries, es': Entries, k: Key, f: nat)
    requires CountsAgree(m, es) && k in m.tables && Released(es, es', m.tables[k].frame)
    ensures Agrees(CountOf(es', f), |Holders(m.tables - {k}, m.cached, f)|)
    ensures f == m.tables[k].frame ==> (CountOf(es, f) <= 1 <==> Holders(m.tables - {k}, m.cached, f) == {})
  {
    HoldersRemove(m.tables, m.cached, k, f);
    var hs := Holders(m.tables, m.cached, f);
    assert Counted(m.tables, m.cached, es, f);
    if f == m.tables[k].frame {
      CardRemove(hs, Mapping(k));
      if Holders(m.tables - {k}, m.cached, f) == {} { assert |hs - {Mapping(k)}| == 0; }
    } else {
      assert hs - {Mapping(k)} == hs;
    }
  }

  lemma UnmapSole(m: Mem, k: Key, j: Key)
    requires Isolated(m) && k in m.tables && j in m.tables && j != k && m.tables[j].writable
    ensures Holders(m.tables - {k}, m.cached, m.tables[j].frame) == {Mapping(j)}
  {
    HoldersRemove(m.tables, m.cached, k, m.tables[j].frame);
    assert Sole(m.tables, m.cached, j);
    assert {Mapping(j)} - {Mapping(k)} == {Mapping(j)};
  }

  /** A frame without holders backs no page. */
  lemma UnheldBacksNothing(tables: map<Key, Pte>, cached: set<nat>, f: nat)
    requires Holders(tables, cached, f) == {}
    ensures f !in cached && forall j :: j in tables ==> tables[j].frame != f
  {
    HoldersCache(tables, cached, f, f);
    forall j | j in tables ensures tables[j].frame != f {
      assert tables[j].frame == f ==> Mapping(j) in Holders(tables, cached, f);
    }
  }

  lemma UnmapBacked(m: Mem, live: set<nat>, k: Key, freed: bool)
    requires Backed(m, live) && k in m.tables && (freed ==> Holders(m.tables - {k}, m.cached, m.tables[k].frame) == {})
    ensures Backed(m.(tables := m.tables - {k}), if freed then live - {m.tables[k].frame} else live)
  {
    if freed { UnheldBacksNothing(m.tables - {k}, m.cached, m.tables[k].frame); }
  }

  lemma Unmap(m: Mem, es: Entries, es': Entries, live: set<nat>, k: Key, freed: bool)
    requires Inv(m, es, live) && k in m.tables && Released(es, es', m.tables[k].frame)
    requires freed ==> CountOf(es, m.tables[k].frame) <= 1
    ensures Inv(m.(tables := m.tables - {k}), es', if freed then live - {m.tables[k].frame} else live)
    ensures CountOf(es, m.tables[k].frame) <= 1 <==> Holders(m.tables - {k}, m.cached, m.tables[k].frame) == {}
  {
    forall f ensures Agrees(CountOf(es', f), |Holders(m.tables - {k}, m.cached, f)|) {
      UnmapCount(m, es, es', k, f);
    }
    forall j | j in m.tables && j != k && m.tables[j].writable
        ensures Holders(m.tables - {k}, m.cached, m.tables[j].frame) == {Mapping(j)} {
      UnmapSole(m, k, j);
    }
    UnmapCount(m, es, es', k, m.tables[k].frame);
    UnmapBacked(m, live, k, freed);
  }

  // The file cache takes and gives up frames.

  lemma CacheFresh(m: Mem, es: Entries, live: set<nat>, f: nat)
    requires Inv(m, es, live) && f !in live
    ensures Inv(m.(cached := m.cached + {f}), es, live + {f})
  {
    NoHolder(m, es, live, f);
    forall g ensures Agrees(CountOf(es, g), |Holders(m.tables, m.cached + {f}, g)|) {
      HoldersCache(m.tables, m.cached, f, g);
      assert Counted(m.tables, m.cached, es, g);
      assert g != f ==> Holders(m.tables, m.cached, g) + {} == Holders(m.tables, m.cached, g);
      assert g == f ==> Holders(m.tables, m.cached, g) + {FileCache} == {FileCache};
    }
    forall j | j in m.tables && m.tables[j].writable
        ensures Holders(m.tables, m.cached + {f}, m.tables[j].frame) == {Mapping(j)} {
      HoldersCache(m.tables, m.cached, f, m.tables[j].frame);
      assert Sole(m.tables, m.cached, j);
      assert {Mapping(j)} + {} == {Mapping(j)};
    }
  }

  lemma UncacheCount(m: Mem, es: Entries, es': Entries, f: nat, g: nat)
    requires CountsAgree(m, es) && f in m.cached && Released(es, es', f)
    ensures Agrees(CountOf(es', g), |Holders(m.tables, m.cached - {f}, g)|)
    ensures g == f ==> (CountOf(es, f) <= 1 <==> Holders(m.tables, m.cached - {f}, f) == {})
  {
    HoldersCache(m.tables, m.cached, f, g);
    var hs := Holders(m.tables, m.cached, g);
    assert Counted(m.tables, m.cached, es, g);
    if g == f {
      CardRemove(hs, FileCache);
      if Holders(m.tables, m.cached - {f}, f) == {} { assert |hs - {FileCache}| == 0; }
    } else {
      assert hs - {} == hs;
    }
  }

  lemma Uncache(m: Mem, es: Entries, es': Entries, live: set<nat>, f: nat, freed: bool)
    requires Inv(m, es, live) && f in m.cached && Released(es, es', f) && (freed ==> CountOf(es, f) <= 1)
    ensures Inv(m.(cached := m.cached - {f}), es', if freed then live - {f} else live)
    ensures CountOf(es, f) <= 1 <==> Holders(m.tables, m.cached - {f}, f) == {}
  {
    forall g ensures Agrees(CountOf(es', g), |Holders(m.tables, m.cached - {f}, g)|) {
      UncacheCount(m, es, es', f, g);
    }
    UncacheCount(m, es, es', f, f);
    forall j | j in m.tables && m.tables[j].writable
        ensures Holders(m.tables, m.cached - {f}, m.tables[j].frame) == {Mapping(j)} {
      HoldersCache(m.tables, m.cached, f, m.tables[j].frame);
      assert Sole(m.tables, m.cached, j);
      assert m.tables[j].frame != f;
      assert {Mapping(j)} - {} == {Mapping(j)};
    }
    if freed { UnheldBacksNothing(m.tables, m.cached - {f}, f); }
  }

  // ---------------------------------------------------------------- views

  lemma ViewMap(m: Mem, k: Key, p: Pte)
    ensures ViewOf(m.(tables := m.tables[k := p])) == ViewOf(m)[k := PageBytes(m, p.frame)]
  {
  }

  lemma ViewUnmap(m: Mem, k: Key)
    ensures ViewOf(m.(tables := m.tables - {k})) == ViewOf(m) - {k}
  {
  }

  lemma ViewCached(m: Mem, cached: set<nat>)
    ensures ViewOf(m.(cached := cached)) == ViewOf(m)
  {
  }

  /** Filling a frame that backs no page changes no view. */
  lemma ViewFill(m: Mem, f: nat, content: seq<Byte>)
    requires forall j :: j in m.tables ==> m.tables[j].frame != f
    ensures ViewOf(m.(bytes := m.bytes[f := content])) == ViewOf(m)
  {
  }

  /** A store through a writable page is seen by that page alone. */
  lemma ViewStore(m: Mem, k: Key, content: seq<Byte>)
    requires Isolated(m) && k in m.tables && m.tables[k].writable
    ensures ViewOf(m.(bytes := m.bytes[m.tables[k].frame := content])) == ViewOf(m)[k := content]
  {
    assert Sole(m.tables, m.cached, k);
    forall j | j in m.tables && m.tables[j].frame == m.tables[k].frame ensures j == k {
      HolderOf(m, j);
    }
  }

  // ------------------------------------------- when sharing stays invisible

  /** Share page `s` as page `k`: map `k` read-only and, if `strip`, clear the
      write flag of `s`. */
  function ShareOne(m: Mem, s: Key, k: Key, strip: bool): Mem
    requires s in m.tables
  {
    var src := m.tables[s];
    m.(tables := m.tables[k := Pte(src.frame, false, true)][s := if strip then src.(writable := false) else src])
  }

  /** Sharing keeps writable pages unshared if and only if the write flag is
      cleared or was clear already. */
  lemma ShareIsolatedIff(m: Mem, s: Key, k: Key, strip: bool)
    requires Isolated(m) && s in m.tables && k !in m.tables
    ensures Isolated(ShareOne(m, s, k, strip)) <==> strip || !m.tables[s].writable
  {
    var m', src := ShareOne(m, s, k, strip), m.tables[s];
    var p := Pte(src.frame, false, true);
    var q := if strip then src.(writable := false) else src;
    forall f ensures Holders(m'.tables, m'.cached, f) ==
        Holders(m.tables, m.cached, f) + (if f == src.frame then {Mapping(k)} else {}) {
      HoldersAdd(m.tables, m.cached, k, p, f);
      HoldersFlags(m.tables[k := p], m.cached, s, q, f);
    }
    if strip || !src.writable {
      forall j | j in m'.tables && m'.tables[j].writable
          ensures Holders(m'.tables, m'.cached, m'.tables[j].frame) == {Mapping(j)} {
        assert j != k && j != s && m.tables[j] == m'.tables[j];
        HolderOf(m, s);
        assert Sole(m.tables, m.cached, j);
        assert m.tables[j].frame != src.frame;
        assert {Mapping(j)} + {} == {Mapping(j)};
      }
    } else {
      assert m'.tables[s].writable && Mapping(k) in Holders(m'.tables, m'.cached, src.frame);
      assert !Sole(m'.tables, m'.cached, s);
    }
  }

  /** When it is not, a store by the source shows in the copy. */
  lemma UnstrippedShareLeaks(m: Mem, s: Key, k: Key, content: seq<Byte>)
    requires s in m.tables && k !in m.tables && m.tables[s].writable && content != PageBytes(m, m.tables[s].frame)
    ensures var m' := ShareOne(m, s, k, false);
            && m'.tables[s].writable && k in ViewOf(m')
            && var stored := m'.(bytes := m'.bytes[m'.tables[s].frame := content]);
               k in ViewOf(stored) && ViewOf(stored)[k] == content != ViewOf(m')[k]
  {
  }
}
