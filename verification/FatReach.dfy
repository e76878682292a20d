/** Which directories a tree reaches from where, and that no operation detaches one. */
module FatReach {
  import opened Bytes
  import opened FatVolume
  import opened FatDirectory
  import opened FatTree
  import opened FatCreate
  import opened FatOutcome
  import opened FatDelete

  // ---------------------------------------------------------------- trails

  /** Directory `d` has an entry for directory `x`. */
  ghost predicate Edge(t: Tree, d: nat, x: nat) {
    x in t.dirs && exists k :: Owns(t, d, k, x)
  }

  ghost predicate Leads(t: Tree, p: seq<nat>, i: int)
    requires 0 <= i && i + 1 < |p|
  {
    Edge(t, p[i], p[i + 1])
  }

  /** From directory to directory, each with an entry for the next. */
  ghost predicate Trail(t: Tree, p: seq<nat>, d: nat, x: nat) {
    && p != [] && p[0] == d && p[|p| - 1] == x && d in t.dirs
    && forall i {:trigger Leads(t, p, i)} :: 0 <= i && i + 1 < |p| ==> Leads(t, p, i)
  }

  /** Directory `x` is `d` itself or lies below it. */
  ghost predicate Below(t: Tree, d: nat, x: nat) {
    exists p :: Trail(t, p, d, x)
  }

  /** Every directory lies below the root. */
  ghost predicate Rooted(root: nat, t: Tree) {
    forall x {:trigger Below(t, root, x)} :: x in t.dirs ==> Below(t, root, x)
  }

  lemma BelowSelf(t: Tree, d: nat)
    requires d in t.dirs
    ensures Below(t, d, d)
  {
    assert Trail(t, [d], d, d);
  }

  lemma BelowOn(t: Tree, d: nat, x: nat, y: nat)
    requires Below(t, d, x) && Edge(t, x, y)
    ensures Below(t, d, y)
  {
    var p :| Trail(t, p, d, x);
    var q := p + [y];
    forall i | 0 <= i && i + 1 < |q| ensures Leads(t, q, i) {
      if i + 1 < |p| { assert Leads(t, p, i); }
    }
    assert Trail(t, q, d, y);
  }

  /** A trail cut after its `i`-th directory. */
  lemma TrailPrefix(t: Tree, p: seq<nat>, d: nat, x: nat, i: nat)
    requires Trail(t, p, d, x) && i < |p|
    ensures Trail(t, p[..i + 1], d, p[i])
  {
    var q := p[..i + 1];
    forall j | 0 <= j && j + 1 < |q| ensures Leads(t, q, j) { assert Leads(t, p, j); }
  }

  /** Whatever lies on a trail from `d` is a directory below `d`. */
  lemma OnTrail(t: Tree, p: seq<nat>, d: nat, x: nat, i: nat)
    requires Trail(t, p, d, x) && i < |p|
    ensures Below(t, d, p[i]) && p[i] in t.dirs
  {
    TrailPrefix(t, p, d, x, i);
    if i > 0 { assert Leads(t, p, i - 1); }
  }

  lemma {:induction false} BelowTransitive(t: Tree, d: nat, x: nat, p: seq<nat>, y: nat)
    requires Below(t, d, x) && Trail(t, p, x, y)
    ensures Below(t, d, y)
    decreases |p|
  {
    if |p| > 1 {
      var i := |p| - 2;
      assert Leads(t, p, i);
      TrailPrefix(t, p, x, y, i);
      BelowTransitive(t, d, x, p[..i + 1], p[i]);
      BelowOn(t, d, p[i], y);
    }
  }

  // ------------------------------------------------------- what keeps them

  /** A trail of `t` all of whose steps are steps of `t'`. */
  lemma TrailKept(t: Tree, t': Tree, p: seq<nat>, d: nat, x: nat)
    requires Trail(t, p, d, x) && d in t'.dirs && forall i {:trigger Leads(t, p, i)} :: 0 <= i && i + 1 < |p| ==>
               Edge(t', p[i], p[i + 1])
    ensures Trail(t', p, d, x)
  {
    forall i | 0 <= i && i + 1 < |p| ensures Leads(t', p, i) { assert Leads(t, p, i); }
  }

  /** Every entry for a directory of `t` is still there. */
  ghost predicate EdgesKept(t: Tree, t': Tree) {
    forall d, x {:trigger Edge(t, d, x)} :: Edge(t, d, x) ==> Edge(t', d, x)
  }

  lemma BelowKept(t: Tree, t': Tree, d: nat, x: nat)
    requires EdgesKept(t, t') && Below(t, d, x) && d in t'.dirs
    ensures Below(t', d, x)
  {
    var p :| Trail(t, p, d, x);
    forall i | 0 <= i && i + 1 < |p| ensures Edge(t', p[i], p[i + 1]) { assert Leads(t, p, i); }
    TrailKept(t, t', p, d, x);
  }

  /** In a tree that only gains entries, what owns a directory owned it before. */
  lemma EdgesStay(root: nat, b: Tree, a: Tree)
    requires TreeOk(root, b) && TreeOk(root, a) && a.orphans == {} && b.dirs.Keys <= a.dirs.Keys
    requires forall e, j, x {:trigger Owns(a, e, j, x)} :: Owns(a, e, j, x) && x in b.dirs ==> Owns(b, e, j, x)
    ensures EdgesKept(b, a)
  {
    forall d, x | Edge(b, d, x) ensures Edge(a, d, x) {
      var k :| Owns(b, d, k, x);
      assert SlotSound(root, b, SlotAt(b.dirs[d], k));
      assert x in a.caps && x != root;
      var e, j :| Owns(a, e, j, x);
      assert Owns(b, e, j, x);
    }
  }

  // ---------------------------------------------------- creating, deleting

  /** What a create leaves of the entries there were. */
  lemma CreatedOwns(b: Tree, a: Tree, dir: nat, k: nat, s: Slot, added: map<nat, seq<Byte>>, e: nat, j: nat, x: nat)
    requires OneSlot(b, a, dir, k, s, added) && |b.dirs[dir]| % 32 == 0 &&
             (forall d :: d in added ==> EmptyContent(added[d]))
    requires Owns(a, e, j, x) && !(e == dir && j == k)
    ensures Owns(b, e, j, x)
  {
    if e == dir {
      var grown := |a.dirs[dir]| - |b.dirs[dir]|;
      SpliceSlots(b.dirs[dir] + Zeros(grown), k, s, j);
      ZerosOwnNothing(b.dirs[dir], grown, j);
    }
  }

  lemma NewSlotOwns(b: Tree, a: Tree, dir: nat, k: nat, s: Slot, added: map<nat, seq<Byte>>, x: nat)
    requires OneSlot(b, a, dir, k, s, added)
    ensures Owns(a, dir, k, x) <==> IsOwner(s) && ClusterField(s) == x
  {
    SpliceSlots(b.dirs[dir] + Zeros(|a.dirs[dir]| - |b.dirs[dir]|), k, s, k);
  }

  /** A tree in which one slot changed, to name a chain that is no directory of the old tree, loses no entry. */
  lemma OneSlotKeepsEdges(root: nat, b: Tree, a: Tree, dir: nat, k: nat, s: Slot, added: map<nat, seq<Byte>>)
    requires TreeOk(root, b) && TreeOk(root, a) && a.orphans == {}
    requires OneSlot(b, a, dir, k, s, added) && (forall d :: d in added ==> EmptyContent(added[d])) &&
             ClusterField(s) !in b.dirs
    ensures EdgesKept(b, a)
  {
    forall e, j, x | Owns(a, e, j, x) && x in b.dirs ensures Owns(b, e, j, x) {
      NewSlotOwns(b, a, dir, k, s, added, x);
      CreatedOwns(b, a, dir, k, s, added, e, j, x);
    }
    EdgesStay(root, b, a);
  }

  /** A rooted tree that keeps its entries and has one for each new directory stays rooted. */
  lemma RootedGrows(root: nat, b: Tree, a: Tree, dir: nat)
    requires Rooted(root, b) && EdgesKept(b, a) && root in a.dirs && dir in b.dirs
    requires forall x {:trigger x in a.dirs} :: x in a.dirs && x !in b.dirs ==> Edge(a, dir, x)
    ensures Rooted(root, a)
  {
    forall x | x in a.dirs ensures Below(a, root, x) {
      if x in b.dirs {
        BelowKept(b, a, root, x);
      } else {
        BelowKept(b, a, root, dir);
        BelowOn(a, root, dir, x);
      }
    }
  }

  /** One slot names a chain that is no directory yet, and what was added, if anything, is that empty directory. */
  ghost predicate Grafted(root: nat, b: Tree, a: Tree, dir: nat, short: ShortName, bytes: seq<Byte>, first: nat,
                          isDir: bool, k: nat) {
    && TreeOk(root, b) && TreeOk(root, a) && a.orphans == {} && Proper(short) && first < 0x1_0000_0000 &&
       |bytes| <= MAX_FILE_SIZE
    && OneSlot(b, a, dir, k, NewSlot(short, first, |bytes|, isDir), AddedDirs(first, bytes, isDir)) && first !in b.dirs
    && (isDir ==> EmptyContent(bytes))
  }

  lemma GraftedRooted(root: nat, b: Tree, a: Tree, dir: nat, short: ShortName, bytes: seq<Byte>, first: nat,
                      isDir: bool, k: nat)
    requires Grafted(root, b, a, dir, short, bytes, first, isDir, k)
    ensures EdgesKept(b, a) && (Rooted(root, b) ==> Rooted(root, a))
  {
    var s, added := NewSlot(short, first, |bytes|, isDir), AddedDirs(first, bytes, isDir);
    NewSlotIsOwner(short, first, |bytes|, isDir);
    OneSlotKeepsEdges(root, b, a, dir, k, s, added);
    NewSlotOwns(b, a, dir, k, s, added, first);
    if Rooted(root, b) { RootedGrows(root, b, a, dir); }
  }

  lemma FirstIsNew(g: Geometry, b: Disk, a: Disk, dir: nat, short: ShortName, bytes: seq<Byte>, first: nat, isDir: bool,
                   k: nat)
    requires Good(g, b) && Created(g, b, a, dir, short, bytes, first, isDir, k)
    ensures first !in b.tree.dirs
  {
    assert ChainsAfter(b, a, dir, bytes, first, Replaced(g, b, dir, short));
  }

  lemma CreatedGraft(g: Geometry, b: Disk, a: Disk, dir: nat, short: ShortName, bytes: seq<Byte>, first: nat,
                     isDir: bool, k: nat)
    requires Good(g, b) && Proper(short) && Created(g, b, a, dir, short, bytes, first, isDir, k) &&
             (isDir ==> EmptyContent(bytes))
    ensures Grafted(g.rootCluster, b.tree, a.tree, dir, short, bytes, first, isDir, k)
  {
    FirstIsNew(g, b, a, dir, short, bytes, first, isDir, k);
  }

  /** Creating a file or a directory detaches nothing, and a new directory lies where it was made. */
  lemma CreatedRooted(g: Geometry, b: Disk, a: Disk, dir: nat, short: ShortName, bytes: seq<Byte>, first: nat,
                      isDir: bool, k: nat)
    requires Good(g, b) && Proper(short) && Created(g, b, a, dir, short, bytes, first, isDir, k) &&
             (isDir ==> EmptyContent(bytes))
    ensures EdgesKept(b.tree, a.tree) && (Rooted(g.rootCluster, b.tree) ==> Rooted(g.rootCluster, a.tree))
  {
    CreatedGraft(g, b, a, dir, short, bytes, first, isDir, k);
    GraftedRooted(g.rootCluster, b.tree, a.tree, dir, short, bytes, first, isDir, k);
  }

  /** One slot is marked as deleted, and the directory it owned, if any, is empty and gone. */
  ghost predicate OneGone(b: Tree, a: Tree, dir: nat, k: nat, gone: set<nat>) {
    && dir in b.dirs && 32 * k + 32 <= |b.dirs[dir]| && gone == Owned(SlotAt(b.dirs[dir], k)) && dir !in gone
    && a.dirs == b.dirs[dir := Splice(b.dirs[dir], 32 * k, Marked(SlotAt(b.dirs[dir], k)))] - gone
    && (forall o :: o in gone && o in b.dirs ==> EmptyContent(b.dirs[o]))
  }

  lemma GoneIsNotRoot(root: nat, b: Tree, a: Tree, dir: nat, k: nat, gone: set<nat>)
    requires TreeOk(root, b) && OneGone(b, a, dir, k, gone)
    ensures root in a.dirs
  {
    if OwnerSlot(b.dirs[dir], k) { assert SlotSound(root, b, SlotAt(b.dirs[dir], k)); }
  }

  lemma EdgeSurvives(b: Tree, a: Tree, dir: nat, k: nat, gone: set<nat>, d: nat, x: nat)
    requires OneGone(b, a, dir, k, gone) && Edge(b, d, x) && (x in a.dirs || exists y :: Edge(b, x, y))
    requires x >= 2
    ensures Edge(a, d, x)
  {
    var j :| Owns(b, d, j, x);
    SpliceSlots(b.dirs[dir], k, Marked(SlotAt(b.dirs[dir], k)), j);
    assert Owns(a, d, j, x);
  }

  lemma TrailSurvives(root: nat, b: Tree, a: Tree, dir: nat, k: nat, gone: set<nat>, p: seq<nat>, x: nat)
    requires TreeOk(root, b) && OneGone(b, a, dir, k, gone) && Trail(b, p, root, x) && x in a.dirs && root in a.dirs
    ensures Trail(a, p, root, x)
  {
    forall i | 0 <= i && i + 1 < |p| ensures Edge(a, p[i], p[i + 1]) {
      assert Leads(b, p, i);
      if i + 2 < |p| { assert Leads(b, p, i + 1); }
      EdgeSurvives(b, a, dir, k, gone, p[i], p[i + 1]);
    }
    TrailKept(b, a, p, root, x);
  }

  /** Deleting detaches nothing: what goes is empty. */
  lemma DeletedRooted(root: nat, b: Tree, a: Tree, dir: nat, k: nat, gone: set<nat>)
    requires TreeOk(root, b) && OneGone(b, a, dir, k, gone) && Rooted(root, b)
    ensures Rooted(root, a)
  {
    GoneIsNotRoot(root, b, a, dir, k, gone);
    forall x | x in a.dirs ensures Below(a, root, x) {
      assert Below(b, root, x);
      var p :| Trail(b, p, root, x);
      TrailSurvives(root, b, a, dir, k, gone, p, x);
    }
  }

  // ----------------------------------------------------------- hanging over

  /** A directory has one entry. */
  lemma OneParent(root: nat, t: Tree, d: nat, e: nat, y: nat)
    requires TreeOk(root, t) && Edge(t, d, y) && Edge(t, e, y)
    ensures d == e && y != root
  {
    var k :| Owns(t, d, k, y);
    var j :| Owns(t, e, j, y);
    assert SlotSound(root, t, SlotAt(t.dirs[d], k));
  }

  lemma TrailSuffix(t: Tree, p: seq<nat>, d: nat, x: nat, i: nat)
    requires Trail(t, p, d, x) && i < |p|
    ensures Trail(t, p[i..], p[i], x)
  {
    OnTrail(t, p, d, x, i);
    var q := p[i..];
    forall j | 0 <= j && j + 1 < |q| ensures Leads(t, q, j) { assert Leads(t, p, i + j); }
  }

  /** A trail need not come back to where it starts. */
  lemma {:induction false} LeaveOnce(t: Tree, p: seq<nat>, d: nat, x: nat) returns (q: seq<nat>)
    requires Trail(t, p, d, x)
    ensures Trail(t, q, d, x) && forall i {:trigger q[i]} :: 0 < i < |q| ==> q[i] != d
    decreases |p|
  {
    if i :| 0 < i < |p| && p[i] == d {
      TrailSuffix(t, p, d, x, i);
      q := LeaveOnce(t, p[i..], d, x);
    } else {
      q := p;
    }
  }

  /** The step into the last directory of a trail. */
  lemma LastStep(t: Tree, p: seq<nat>, d: nat, y: nat) returns (e: nat)
    requires Trail(t, p, d, y) && d != y
    ensures Below(t, d, e) && Edge(t, e, y)
  {
    var i := |p| - 2;
    assert Leads(t, p, i);
    OnTrail(t, p, d, y, i);
    e := p[i];
  }

  /** The entry for `x` left slot `k` of `od` for slot `m` of `nd`; all other entries are as they were. */
  ghost predicate Rehung(b: Tree, a: Tree, od: nat, k: nat, nd: nat, m: nat, x: nat) {
    && a.dirs.Keys == b.dirs.Keys && Owns(b, od, k, x) && nd in b.dirs &&
       (forall h :: Owns(b, nd, m, h) ==> nd == od && m == k)
    && forall e, j, h {:trigger Owns(a, e, j, h)} :: Owns(a, e, j, h) <==>
         if e == nd && j == m then h == x else Owns(b, e, j, h) && !(e == od && j == k)
  }

  lemma RehungOther(b: Tree, a: Tree, od: nat, k: nat, nd: nat, m: nat, x: nat, d: nat, y: nat)
    requires Rehung(b, a, od, k, nd, m, x) && y != x
    ensures Edge(a, d, y) <==> Edge(b, d, y)
  {
    if Edge(a, d, y) {
      var j :| Owns(a, d, j, y);
      assert Owns(b, d, j, y);
    }
    if Edge(b, d, y) {
      var j :| Owns(b, d, j, y);
      assert Owns(a, d, j, y);
    }
  }

  lemma RehungItself(root: nat, b: Tree, a: Tree, od: nat, k: nat, nd: nat, m: nat, x: nat, d: nat)
    requires TreeOk(root, b) && Rehung(b, a, od, k, nd, m, x) && x in b.dirs
    ensures Edge(a, d, x) <==> d == nd
  {
    assert Owns(a, nd, m, x);
  }

  /** Hung below itself, a directory and all below it are cut off. */
  lemma {:induction false} CutOff(root: nat, b: Tree, a: Tree, od: nat, k: nat, nd: nat, m: nat, x: nat, p: seq<nat>,
                                  y: nat)
    requires TreeOk(root, b) && Rehung(b, a, od, k, nd, m, x) && x in b.dirs && Below(b, x, nd) && Trail(a, p, root, y)
    ensures !Below(b, x, y)
    decreases |p|
  {
    assert SlotSound(root, b, SlotAt(b.dirs[od], k));
    if Below(b, x, y) {
      if |p| == 1 {
        var q :| Trail(b, q, x, root);
        var e := LastStep(b, q, x, root);
        OneParent(root, b, e, e, root);
      } else {
        var i := |p| - 2;
        assert Leads(a, p, i);
        TrailPrefix(a, p, root, y, i);
        CutOff(root, b, a, od, k, nd, m, x, p[..i + 1], p[i]);
        if y == x {
          RehungItself(root, b, a, od, k, nd, m, x, p[i]);
        } else {
          RehungOther(b, a, od, k, nd, m, x, p[i], y);
          var q :| Trail(b, q, x, y);
          var e := LastStep(b, q, x, y);
        }
      }
    }
  }

  /** A directory that does not lie below `x` stays where it is. */
  lemma StaysPut(root: nat, b: Tree, a: Tree, od: nat, k: nat, nd: nat, m: nat, x: nat, y: nat)
    requires Rehung(b, a, od, k, nd, m, x) && Below(b, root, y) && !Below(b, x, y)
    ensures Below(a, root, y)
  {
    var p :| Trail(b, p, root, y);
    forall i | 0 <= i && i + 1 < |p| ensures Edge(a, p[i], p[i + 1]) {
      assert Leads(b, p, i);
      if p[i + 1] == x { TrailSuffix(b, p, root, y, i + 1); }
      RehungOther(b, a, od, k, nd, m, x, p[i], p[i + 1]);
    }
    TrailKept(b, a, p, root, y);
  }

  /** What lies below `x` goes with it. */
  lemma GoesAlong(root: nat, b: Tree, a: Tree, od: nat, k: nat, nd: nat, m: nat, x: nat, y: nat)
    requires Rehung(b, a, od, k, nd, m, x) && Below(a, root, x) && Below(b, x, y)
    ensures Below(a, root, y)
  {
    var p :| Trail(b, p, x, y);
    var q := LeaveOnce(b, p, x, y);
    forall i | 0 <= i && i + 1 < |q| ensures Edge(a, q[i], q[i + 1]) {
      assert Leads(b, q, i);
      RehungOther(b, a, od, k, nd, m, x, q[i], q[i + 1]);
    }
    TrailKept(b, a, q, x, y);
    BelowTransitive(a, root, x, q, y);
  }

  lemma Hangs(root: nat, b: Tree, a: Tree, od: nat, k: nat, nd: nat, m: nat, x: nat)
    requires TreeOk(root, b) && Rooted(root, b) && Rehung(b, a, od, k, nd, m, x) && x in b.dirs && !Below(b, x, nd)
    ensures Below(a, root, x)
  {
    assert Below(b, root, nd);
    StaysPut(root, b, a, od, k, nd, m, x, nd);
    RehungItself(root, b, a, od, k, nd, m, x, nd);
    BelowOn(a, root, nd, x);
  }

  /** Moving an entry keeps every directory below the root, if and only if it is no directory that goes below itself. */
  lemma RehungRootedIff(root: nat, b: Tree, a: Tree, od: nat, k: nat, nd: nat, m: nat, x: nat)
    requires TreeOk(root, b) && Rooted(root, b) && Rehung(b, a, od, k, nd, m, x)
    ensures Rooted(root, a) <==> !(x in b.dirs && Below(b, x, nd))
  {
    if x in b.dirs && Below(b, x, nd) {
      BelowSelf(b, x);
      if Below(a, root, x) {
        var p :| Trail(a, p, root, x);
        CutOff(root, b, a, od, k, nd, m, x, p, x);
      }
      assert !Below(a, root, x);
    } else {
      if x in b.dirs { Hangs(root, b, a, od, k, nd, m, x); }
      forall y | y in a.dirs ensures Below(a, root, y) {
        assert Below(b, root, y);
        if Below(b, x, y) {
          GoesAlong(root, b, a, od, k, nd, m, x, y);
        } else {
          StaysPut(root, b, a, od, k, nd, m, x, y);
        }
      }
    }
  }
}
