/** The directory tree as an ownership structure: every cluster chain but the
    root's is owned by exactly one directory slot, or is an orphan that an
    operation in progress still holds. Each step of create, overwrite, mkdir and
    delete is one of four moves that keep the structure. */
module FatTree {
  import opened Bytes
  import opened FatDirectory

  /** Directory contents and chain capacities by chain head. */
  datatype Tree = Tree(dirs: map<nat, seq<Byte>>, caps: map<nat, nat>, orphans: set<nat>)

  const DOT: seq<Byte> := [0x2e, 0x20, 0x20, 0x20, 0x20, 0x20, 0x20, 0x20, 0x20, 0x20, 0x20]
  const DOT_DOT: seq<Byte> := [0x2e, 0x2e, 0x20, 0x20, 0x20, 0x20, 0x20, 0x20, 0x20, 0x20, 0x20]

  /** A live slot other than "." and "..". */
  predicate IsOwner(s: Slot) {
    s[0] != 0 && !Skipped(s) && s[..11] != DOT && s[..11] != DOT_DOT
  }

  predicate OwnerSlot(content: seq<Byte>, k: nat) {
    32 * k + 32 <= |content| && IsOwner(SlotAt(content, k))
  }

  /** The directory owns nothing. */
  ghost predicate EmptyContent(content: seq<Byte>) {
    forall k :: !OwnerSlot(content, k)
  }

  /** After the first end mark every slot starts with 0. */
  ghost predicate EndTail(content: seq<Byte>) {
    forall j: nat, k: nat {:trigger SlotAt(content, j), SlotAt(content, k)} ::
      j < k && 32 * k + 32 <= |content| && SlotAt(content, j)[0] == 0 ==> SlotAt(content, k)[0] == 0
  }

  ghost predicate Owns(t: Tree, d: nat, k: nat, h: nat) {
    d in t.dirs && OwnerSlot(t.dirs[d], k) && ClusterField(SlotAt(t.dirs[d], k)) == h
  }

  /** What an owner slot may say. */
  ghost predicate SlotSound(root: nat, t: Tree, s: Slot) {
    var c := ClusterField(s);
    if c < 2 then !IsDirectory(s[11]) && SizeField(s) == 0
    else
      && c in t.caps && c !in t.orphans && c != root
      && (IsDirectory(s[11]) <==> c in t.dirs)
      && (!IsDirectory(s[11]) ==> SizeField(s) <= t.caps[c])
  }

  ghost predicate TreeOk(root: nat, t: Tree) {
    && root in t.dirs && root !in t.orphans && t.dirs.Keys <= t.caps.Keys && t.orphans <= t.caps.Keys
    && (forall h {:trigger h in t.caps} :: h in t.caps ==> h >= 2)
    && (forall d {:trigger t.dirs[d]} :: d in t.dirs ==> |t.dirs[d]| % 32 == 0 && EndTail(t.dirs[d]))
    && (forall d, k {:trigger OwnerSlot(t.dirs[d], k)} :: d in t.dirs && OwnerSlot(t.dirs[d], k) ==>
       SlotSound(root, t, SlotAt(t.dirs[d], k)))
    && (forall d, k, d', k', h {:trigger Owns(t, d, k, h), Owns(t, d', k', h)} ::
          Owns(t, d, k, h) && Owns(t, d', k', h) && h >= 2 ==> d == d' && k == k')
    && (forall h {:trigger h in t.caps} :: h in t.caps && h != root && h !in t.orphans ==>
       exists d, k :: Owns(t, d, k, h))
  }

  // ------------------------------------------------------- the four moves

  function Extended(t: Tree, d: nat, n: nat): Tree
    requires d in t.dirs && d in t.caps
  {
    t.(dirs := t.dirs[d := t.dirs[d] + Zeros(n)], caps := t.caps[d := t.caps[d] + n])
  }

  lemma ZerosOwnNothing(content: seq<Byte>, n: nat, k: nat)
    requires |content| % 32 == 0
    ensures OwnerSlot(content + Zeros(n), k) <==> OwnerSlot(content, k)
    ensures 32 * k + 32 <= |content| ==> SlotAt(content + Zeros(n), k) == SlotAt(content, k)
  {
    if 32 * k + 32 <= |content| {
      assert SlotAt(content + Zeros(n), k) == SlotAt(content, k);
    } else if 32 * k + 32 <= |content| + n {
      assert SlotAt(content + Zeros(n), k)[0] == 0;
    }
  }

  lemma EndTailExtended(content: seq<Byte>, n: nat)
    requires |content| % 32 == 0 && EndTail(content)
    ensures EndTail(content + Zeros(n))
  {
    var grown := content + Zeros(n);
    forall j: nat, k: nat | j < k && 32 * k + 32 <= |grown| && SlotAt(grown, j)[0] == 0
      ensures SlotAt(grown, k)[0] == 0
    {
      if 32 * k + 32 <= |content| {
        assert SlotAt(grown, j) == SlotAt(content, j) && SlotAt(grown, k) == SlotAt(content, k);
      }
    }
  }

  /** Move 1: a directory grows by a zeroed cluster. */
  lemma ExtendKeepsTree(root: nat, t: Tree, d: nat, n: nat)
    requires TreeOk(root, t) && d in t.dirs && n % 32 == 0
    ensures TreeOk(root, Extended(t, d, n))
  {
    var t' := Extended(t, d, n);
    EndTailExtended(t.dirs[d], n);
    forall e, k, h ensures Owns(t', e, k, h) <==> Owns(t, e, k, h) {
      ZerosOwnNothing(t.dirs[d], n, k);
    }
    forall e, k | e in t'.dirs && OwnerSlot(t'.dirs[e], k) ensures SlotSound(root, t', SlotAt(t'.dirs[e], k)) {
      ZerosOwnNothing(t.dirs[d], n, k);
      assert OwnerSlot(t.dirs[e], k);
    }
    forall h | h in t'.caps && h != root && h !in t'.orphans ensures exists e, k :: Owns(t', e, k, h) {
      assert h in t.caps;
      var e, k :| Owns(t, e, k, h);
      assert Owns(t', e, k, h);
    }
  }

  /** Move 2: a fresh chain appears, owned by nobody yet; `content` if it is a directory. */
  function WithOrphan(t: Tree, f: nat, n: nat, content: Option<seq<Byte>>): Tree {
    t.(dirs := if content.Some? then t.dirs[f := content.value]
    else t.dirs, caps := t.caps[f := n], orphans := t.orphans + {f})
  }

  lemma AddKeepsTree(root: nat, t: Tree, f: nat, n: nat, content: Option<seq<Byte>>)
    requires TreeOk(root, t) && f >= 2 && f !in t.caps
    requires content.Some? ==>
               |content.value| % 32 == 0 && EndTail(content.value) && forall k :: !OwnerSlot(content.value, k)
    ensures TreeOk(root, WithOrphan(t, f, n, content))
  {
    var t' := WithOrphan(t, f, n, content);
    forall e, k, h ensures Owns(t', e, k, h) <==> Owns(t, e, k, h) {
    }
    forall e, k | e in t'.dirs && OwnerSlot(t'.dirs[e], k) ensures SlotSound(root, t', SlotAt(t'.dirs[e], k)) {
      assert e in t.dirs && OwnerSlot(t.dirs[e], k);
    }
    forall h | h in t'.caps && h != root && h !in t'.orphans ensures exists e, k :: Owns(t', e, k, h) {
      assert h in t.caps;
      var e, k :| Owns(t, e, k, h);
      assert Owns(t', e, k, h);
    }
  }

  /** The chain a slot owns, if any. */
  function Owned(s: Slot): set<nat> {
    if IsOwner(s) && ClusterField(s) >= 2 then {ClusterField(s)} else {}
  }

  /** Move 3: slot `k` of directory `d` is overwritten. The chain it owned is
      orphaned; the chain the new slot names is adopted. */
  function WithSlot(t: Tree, d: nat, k: nat, s: Slot): Tree
    requires d in t.dirs && 32 * k + 32 <= |t.dirs[d]|
  {
    t.(dirs := t.dirs[d := Splice(t.dirs[d], 32 * k, s)],
       orphans := t.orphans + Owned(SlotAt(t.dirs[d], k)) - Owned(s))
  }

  /** A new slot may name nothing, or an orphan of its own kind and size. */
  ghost predicate Adoptable(t: Tree, s: Slot) {
    IsOwner(s) ==>
      var c := ClusterField(s);
      if c < 2 then !IsDirectory(s[11]) && SizeField(s) == 0
      else
        && c in t.orphans && (IsDirectory(s[11]) <==> c in t.dirs)
        && (!IsDirectory(s[11]) ==> c in t.caps && SizeField(s) <= t.caps[c])
  }

  lemma SpliceSlots(content: seq<Byte>, k: nat, s: Slot, j: nat)
    requires 32 * k + 32 <= |content|
    ensures 32 * j + 32 <= |content| ==>
              SlotAt(Splice(content, 32 * k, s), j) == if j == k then s else SlotAt(content, j)
  {
  }

  lemma EndTailSplice(content: seq<Byte>, k: nat, s: Slot)
    requires 32 * k + 32 <= |content| && EndTail(content) && s[0] != 0
    requires SlotAt(content, k)[0] == 0 ==> forall j :: 0 <= j < k ==> SlotAt(content, j)[0] != 0
    ensures EndTail(Splice(content, 32 * k, s))
  {
    var c' := Splice(content, 32 * k, s);
    forall i: nat, j: nat | i < j && 32 * j + 32 <= |c'| && SlotAt(c', i)[0] == 0
      ensures SlotAt(c', j)[0] == 0
    {
      SpliceSlots(content, k, s, i);
      SpliceSlots(content, k, s, j);
      assert SlotAt(content, i)[0] == 0;
      assert SlotAt(content, j)[0] == 0;
    }
  }

  /** Who owns what after the overwrite. */
  lemma OwnsAfterPut(t: Tree, d: nat, k: nat, s: Slot, e: nat, j: nat, h: nat)
    requires d in t.dirs && 32 * k + 32 <= |t.dirs[d]|
    ensures Owns(WithSlot(t, d, k, s), e, j, h) <==>
            if e == d && j == k then IsOwner(s) && ClusterField(s) == h else Owns(t, e, j, h)
  {
    SpliceSlots(t.dirs[d], k, s, j);
  }

  lemma PutKeepsUnique(root: nat, t: Tree, d: nat, k: nat, s: Slot)
    requires TreeOk(root, t) && d in t.dirs && 32 * k + 32 <= |t.dirs[d]| && Adoptable(t, s)
    ensures var t' := WithSlot(t, d, k, s);
            forall e, j, e', j', h :: Owns(t', e, j, h) && Owns(t', e', j', h) && h >= 2 ==> e == e' && j == j'
  {
    var t' := WithSlot(t, d, k, s);
    forall e, j, e', j', h | Owns(t', e, j, h) && Owns(t', e', j', h) && h >= 2 ensures e == e' && j == j' {
      OwnsAfterPut(t, d, k, s, e, j, h);
      OwnsAfterPut(t, d, k, s, e', j', h);
    }
  }

  lemma PutKeepsTree(root: nat, t: Tree, d: nat, k: nat, s: Slot)
    requires TreeOk(root, t) && d in t.dirs && 32 * k + 32 <= |t.dirs[d]| && s[0] != 0
    requires SlotAt(t.dirs[d], k)[0] == 0 ==> forall j :: 0 <= j < k ==> SlotAt(t.dirs[d], j)[0] != 0
    requires Adoptable(t, s)
    ensures TreeOk(root, WithSlot(t, d, k, s))
  {
    var t' := WithSlot(t, d, k, s);
    var s0 := SlotAt(t.dirs[d], k);
    EndTailSplice(t.dirs[d], k, s);
    assert IsOwner(s0) ==> OwnerSlot(t.dirs[d], k) && Owns(t, d, k, ClusterField(s0));
    forall e, j | e in t'.dirs && OwnerSlot(t'.dirs[e], j) ensures SlotSound(root, t', SlotAt(t'.dirs[e], j)) {
      SpliceSlots(t.dirs[d], k, s, j);
      if !(e == d && j == k) {
        assert OwnerSlot(t.dirs[e], j);
        assert Owns(t, e, j, ClusterField(SlotAt(t.dirs[e], j)));
      }
    }
    PutKeepsUnique(root, t, d, k, s);
    forall h | h in t'.caps && h != root && h !in t'.orphans ensures exists e, j :: Owns(t', e, j, h) {
      if h in Owned(s) {
        OwnsAfterPut(t, d, k, s, d, k, h);
      } else {
        assert h in t.caps;
        var e, j :| Owns(t, e, j, h);
        OwnsAfterPut(t, d, k, s, e, j, h);
      }
    }
  }

  /** Move 4: an orphan's chain is freed. */
  function WithoutOrphan(t: Tree, o: nat): Tree {
    t.(dirs := t.dirs - {o}, caps := t.caps - {o}, orphans := t.orphans - {o})
  }

  lemma FreeKeepsTree(root: nat, t: Tree, o: nat)
    requires TreeOk(root, t) && o in t.orphans
    requires o in t.dirs ==> forall k :: !OwnerSlot(t.dirs[o], k)
    ensures TreeOk(root, WithoutOrphan(t, o))
  {
    var t' := WithoutOrphan(t, o);
    forall e, k, h ensures Owns(t', e, k, h) <==> Owns(t, e, k, h) {
    }
    forall e, k | e in t'.dirs && OwnerSlot(t'.dirs[e], k) ensures SlotSound(root, t', SlotAt(t'.dirs[e], k)) {
      assert e in t.dirs && OwnerSlot(t.dirs[e], k);
    }
    forall h | h in t'.caps && h != root && h !in t'.orphans ensures exists e, k :: Owns(t', e, k, h) {
      assert h in t.caps;
      var e, k :| Owns(t, e, k, h);
      assert Owns(t', e, k, h);
    }
  }
}
