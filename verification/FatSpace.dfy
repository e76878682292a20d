/** A volume's FAT and data as the representation of a directory tree: chains
    are proper, pairwise disjoint, cover every used cluster, and hold the
    directory contents. Each of the four tree moves is carried out here on the
    FAT and the data. */
module FatSpace {
  import opened Counting
  import opened Bytes
  import opened FatChain
  import opened FatVolume
  import opened FatAlloc
  import opened FatFile
  import opened FatDirectory
  import opened FatTree

  type Chains = map<nat, seq<nat>>

  ghost predicate ChainsProper(fat: Fat, lim: nat, chains: Chains)
    requires lim <= |fat|
  {
    forall h {:trigger chains[h]} :: h in chains ==> IsChain(fat, lim, chains[h]) && chains[h][0] == h
  }

  ghost predicate ChainsDisjoint(chains: Chains) {
    forall h, h', c {:trigger c in chains[h], c in chains[h']} ::
      h in chains && h' in chains && c in chains[h] && c in chains[h'] ==> h == h'
  }

  /** No used cluster is lost: it lies on a chain or is marked bad. */
  ghost predicate NothingLost(fat: Fat, lim: nat, chains: Chains)
    requires lim <= |fat|
  {
    forall c {:trigger fat[c]} :: 2 <= c < lim && fat[c] != 0 && fat[c] != FAT_BAD ==>
      exists h :: h in chains && c in chains[h]
  }

  ghost predicate Space(fat: Fat, lim: nat, chains: Chains)
    requires lim <= |fat|
  {
    ChainsProper(fat, lim, chains) && ChainsDisjoint(chains) && NothingLost(fat, lim, chains)
  }

  /** `t` is what the chains hold. */
  ghost predicate Holds(data: Clusters, chains: Chains, t: Tree) {
    && (forall h {:trigger chains[h]} :: h in chains ==> InData(data, chains[h]))
    && chains.Keys == t.caps.Keys && t.dirs.Keys <= chains.Keys
    && (forall h {:trigger t.caps[h]} :: h in chains ==> t.caps[h] == |Content(data, chains[h])|)
    && (forall d {:trigger t.dirs[d]} :: d in t.dirs ==> t.dirs[d] == Content(data, chains[d]))
  }

  /** Volume well-formedness. */
  ghost predicate WellFormed(g: Geometry, fat: Fat, data: Clusters, chains: Chains, t: Tree)
    requires g.Limit() <= |fat|
  {
    Space(fat, g.Limit(), chains) && Holds(data, chains, t) && TreeOk(g.rootCluster, t)
  }

  // ------------------------------------------------------ fresh clusters

  /** A free cluster is on no chain. */
  lemma FreeOnNoChain(fat: Fat, lim: nat, chains: Chains, c: nat)
    requires lim <= |fat| && ChainsProper(fat, lim, chains) && c < |fat| && fat[c] == 0
    ensures forall h :: h in chains ==> c !in chains[h]
  {
    forall h | h in chains ensures c !in chains[h] {
      ChainEntriesUsed(fat, lim, chains[h]);
    }
  }

  /** Chains keep their members' entries when only entries off every chain change. */
  lemma ProperFrame(fat: Fat, fat': Fat, lim: nat, ch: seq<nat>)
    requires lim <= |fat| == |fat'| && IsChain(fat, lim, ch)
    requires forall c :: c in ch && 0 <= c < |fat| ==> fat'[c] == fat[c]
    ensures IsChain(fat', lim, ch)
  {
    forall i | 0 <= i < |ch| ensures fat'[ch[i]] == fat[ch[i]] {
      assert ch[i] in ch;
    }
    ChainFrame(fat, fat', lim, ch);
  }

  // ------------------------------------------------------ move 1: extend

  lemma ExtendProper(fat: Fat, fat': Fat, lim: nat, chains: Chains, d: nat, n: nat)
    requires lim <= |fat| == |fat'| && lim <= FAT_BAD && ChainsProper(fat, lim, chains) && ChainsDisjoint(chains) &&
             d in chains
    requires 2 <= n < lim && forall h :: h in chains ==> n !in chains[h]
    requires fat' == fat[n := FAT_END_MIN][chains[d][|chains[d]| - 1] := n]
    ensures ChainsProper(fat', lim, chains[d := chains[d] + [n]])
  {
    var chains' := chains[d := chains[d] + [n]];
    var last := chains[d][|chains[d]| - 1];
    assert last in chains[d];
    forall h | h in chains' ensures IsChain(fat', lim, chains'[h]) && chains'[h][0] == h {
      if h == d {
        ChainAppend(fat, fat', lim, chains[d], n);
      } else {
        assert last !in chains[h];
        ProperFrame(fat, fat', lim, chains[h]);
      }
    }
  }

  lemma ExtendDisjoint(chains: Chains, d: nat, n: nat)
    requires ChainsDisjoint(chains) && d in chains && forall h :: h in chains ==> n !in chains[h]
    ensures ChainsDisjoint(chains[d := chains[d] + [n]])
  {
    var chains' := chains[d := chains[d] + [n]];
    forall h, h', c | h in chains' && h' in chains' && c in chains'[h] && c in chains'[h'] ensures h == h' {
      if c != n {
        assert c in chains[h] && c in chains[h'];
      }
    }
  }

  lemma ExtendCovers(fat: Fat, fat': Fat, lim: nat, chains: Chains, d: nat, n: nat)
    requires lim <= |fat| == |fat'| && NothingLost(fat, lim, chains) && d in chains && chains[d] != [] && n < |fat|
    requires chains[d][|chains[d]| - 1] < |fat| && fat' == fat[n := FAT_END_MIN][chains[d][|chains[d]| - 1] := n]
    ensures NothingLost(fat', lim, chains[d := chains[d] + [n]])
  {
    var chains' := chains[d := chains[d] + [n]];
    var last := chains[d][|chains[d]| - 1];
    forall c | 2 <= c < lim && fat'[c] != 0 && fat'[c] != FAT_BAD ensures exists h :: h in chains' && c in chains'[h] {
      if c == n || c == last {
        assert c in chains'[d];
      } else {
        assert fat[c] == fat'[c];
        var h :| h in chains && c in chains[h];
        assert c in chains'[h];
      }
    }
  }

  lemma ExtendSpace(fat: Fat, fat': Fat, lim: nat, chains: Chains, d: nat, n: nat)
    requires lim <= |fat| == |fat'| && lim <= FAT_BAD && Space(fat, lim, chains) && d in chains
    requires 2 <= n < lim && fat[n] == 0
    requires fat' == fat[n := FAT_END_MIN][chains[d][|chains[d]| - 1] := n]
    ensures Space(fat', lim, chains[d := chains[d] + [n]])
  {
    FreeOnNoChain(fat, lim, chains, n);
    ExtendProper(fat, fat', lim, chains, d, n);
    ExtendDisjoint(chains, d, n);
    ExtendCovers(fat, fat', lim, chains, d, n);
  }

  lemma ExtendHolds(data: Clusters, chains: Chains, t: Tree, d: nat, n: nat, size: nat)
    requires Holds(data, chains, t) && d in t.dirs && n < |data| && data[n] == Zeros(size)
    ensures Holds(data, chains[d := chains[d] + [n]], Extended(t, d, size))
  {
    ContentConcat(data, chains[d], [n]);
    assert Content(data, [n]) == Zeros(size) by {
      assert [n][..0] == [];
    }
  }

  /** A content is unchanged when only clusters off its chain changed. */
  lemma SameOutside(data: Clusters, data': Clusters, ch: seq<nat>, touched: seq<nat>)
    requires InData(data, ch) && OnlyClusters(data, data', touched)
    requires forall c :: c in ch ==> c !in touched
    ensures InData(data', ch) && Content(data', ch) == Content(data, ch)
  {
    forall i | 0 <= i < |ch| ensures data'[ch[i]] == data[ch[i]] {
      assert ch[i] in ch;
    }
    ContentFrame(data, data', ch);
  }

  /** Changing clusters off every chain changes nothing the tree holds. */
  lemma HoldsFrame(data: Clusters, data': Clusters, chains: Chains, t: Tree, touched: seq<nat>)
    requires Holds(data, chains, t) && OnlyClusters(data, data', touched)
    requires forall h, c :: h in chains && c in chains[h] ==> c !in touched
    ensures Holds(data', chains, t)
    ensures forall h :: h in chains ==> Content(data', chains[h]) == Content(data, chains[h])
  {
    forall h | h in chains ensures InData(data', chains[h]) && Content(data', chains[h]) == Content(data, chains[h]) {
      SameOutside(data, data', chains[h], touched);
    }
  }

  // --------------------------------------------------- move 2: fresh chain

  lemma FreshOffChains(fat: Fat, lim: nat, chains: Chains, ch: seq<nat>)
    requires lim <= |fat| && ChainsProper(fat, lim, chains) && ch != []
    requires forall i :: 0 <= i < |ch| ==> 2 <= ch[i] < lim && fat[ch[i]] == 0
    ensures forall h, c :: h in chains && c in chains[h] ==> c !in ch
    ensures ch[0] !in chains
  {
    assert forall h :: h in chains ==> chains[h][0] in chains[h];
    forall h, c | h in chains && c in chains[h] ensures c !in ch {
      ChainEntriesUsed(fat, lim, chains[h]);
    }
    assert ch[0] in ch;
  }

  lemma AddProper(fat: Fat, fat': Fat, lim: nat, chains: Chains, ch: seq<nat>)
    requires lim <= |fat| == |fat'| && ChainsProper(fat, lim, chains) && ch != [] && GrownBy(fat, fat', lim, ch)
    requires forall h, c :: h in chains && c in chains[h] ==> c !in ch
    ensures ChainsProper(fat', lim, chains[ch[0] := ch])
  {
    var chains' := chains[ch[0] := ch];
    forall h | h in chains' ensures IsChain(fat', lim, chains'[h]) && chains'[h][0] == h {
      if h != ch[0] {
        forall c | c in chains[h] && 0 <= c < |fat| ensures fat'[c] == fat[c] {
          assert c !in ch;
        }
        ProperFrame(fat, fat', lim, chains[h]);
      }
    }
  }

  lemma AddDisjoint(chains: Chains, ch: seq<nat>)
    requires ChainsDisjoint(chains) && ch != [] && forall h, c :: h in chains && c in chains[h] ==> c !in ch
    ensures ChainsDisjoint(chains[ch[0] := ch])
  {
  }

  lemma AddCovers(fat: Fat, fat': Fat, lim: nat, chains: Chains, ch: seq<nat>)
    requires lim <= |fat| == |fat'| && NothingLost(fat, lim, chains) && ch != [] && ch[0] !in chains &&
             GrownBy(fat, fat', lim, ch)
    ensures NothingLost(fat', lim, chains[ch[0] := ch])
  {
    var chains' := chains[ch[0] := ch];
    forall c | 2 <= c < lim && fat'[c] != 0 && fat'[c] != FAT_BAD ensures exists h :: h in chains' && c in chains'[h] {
      if c in ch {
        assert c in chains'[ch[0]];
      } else {
        assert fat'[c] == fat[c];
        var h :| h in chains && c in chains[h];
        assert c in chains'[h];
      }
    }
  }

  lemma AddSpace(fat: Fat, fat': Fat, lim: nat, chains: Chains, ch: seq<nat>)
    requires lim <= |fat| == |fat'| && Space(fat, lim, chains) && ch != [] && GrownBy(fat, fat', lim, ch)
    ensures forall h, c :: h in chains && c in chains[h] ==> c !in ch
    ensures ch[0] !in chains && Space(fat', lim, chains[ch[0] := ch])
  {
    FreshOffChains(fat, lim, chains, ch);
    AddProper(fat, fat', lim, chains, ch);
    AddDisjoint(chains, ch);
    AddCovers(fat, fat', lim, chains, ch);
  }

  lemma AddHolds(data: Clusters, chains: Chains, t: Tree, ch: seq<nat>, isDir: bool)
    requires Holds(data, chains, t) && ch != [] && ch[0] !in chains && InData(data, ch)
    ensures Holds(data, chains[ch[0] := ch], WithOrphan(t, ch[0], |Content(data, ch)|, if isDir
            then Some(Content(data, ch)) else None))
  {
  }

  // ----------------------------------------------------- move 3: one slot

  /** The number of slot `j` of the `i`-th cluster among the slots of the directory. */
  ghost function SlotNumber(data: Clusters, ch: seq<nat>, i: nat, j: nat): nat
    requires InData(data, ch) && i <= |ch|
  {
    |Content(data, ch[..i])| / 32 + j
  }

  lemma SliceInMiddle(a: seq<Byte>, d: seq<Byte>, b: seq<Byte>, off: nat, n: nat)
    requires off + n <= |d|
    ensures (a + d + b)[|a| + off..|a| + off + n] == d[off..off + n]
  {
  }

  lemma SpliceInMiddle(a: seq<Byte>, d: seq<Byte>, b: seq<Byte>, off: nat, part: seq<Byte>)
    requires off + |part| <= |d|
    ensures Splice(a + d + b, |a| + off, part) == a + Splice(d, off, part) + b
  {
    var left, right := Splice(a + d + b, |a| + off, part), a + Splice(d, off, part) + b;
    forall k | 0 <= k < |left| ensures left[k] == right[k] {
    }
  }

  /** Writing a slot into a cluster writes that slot into the directory's content. */
  lemma PutContent(data: Clusters, ch: seq<nat>, i: nat, j: nat, s: Slot)
    requires InData(data, ch) && NoDuplicates(ch) && i < |ch|
    requires |Content(data, ch[..i])| % 32 == 0 && 32 * j + 32 <= |data[ch[i]]|
    ensures var k := SlotNumber(data, ch, i, j);
            && 32 * k + 32 <= |Content(data, ch)|
            && SlotAt(Content(data, ch), k) == SlotAt(data[ch[i]], j)
            && Content(data[ch[i] := Splice(data[ch[i]], 32 * j, s)], ch) == Splice(Content(data, ch), 32 * k, s)
  {
    var data' := data[ch[i] := Splice(data[ch[i]], 32 * j, s)];
    ContentSplit(data, ch, i);
    ContentSplit(data', ch, i);
    var a, d, b := Content(data, ch[..i]), data[ch[i]], Content(data, ch[i + 1..]);
    ContentFrame(data, data', ch[..i]);
    ContentFrame(data, data', ch[i + 1..]);
    SliceInMiddle(a, d, b, 32 * j, 32);
    SpliceInMiddle(a, d, b, 32 * j, s);
  }

  lemma PutHolds(data: Clusters, chains: Chains, t: Tree, fat: Fat, lim: nat, d: nat, i: nat, j: nat, s: Slot)
    requires lim <= |fat| && ChainsProper(fat, lim, chains) && ChainsDisjoint(chains) && Holds(data, chains, t)
    requires d in t.dirs && i < |chains[d]| && 32 * j + 32 <= |data[chains[d][i]]|
    requires |Content(data, chains[d][..i])| % 32 == 0
    ensures var k := SlotNumber(data, chains[d], i, j);
            && 32 * k + 32 <= |t.dirs[d]| && SlotAt(t.dirs[d], k) == SlotAt(data[chains[d][i]], j)
            && Holds(data[chains[d][i] := Splice(data[chains[d][i]], 32 * j, s)], chains, WithSlot(t, d, k, s))
  {
    var c := chains[d][i];
    var data' := data[c := Splice(data[c], 32 * j, s)];
    ChainNoDuplicates(fat, lim, chains[d]);
    PutContent(data, chains[d], i, j, s);
    assert c in chains[d];
    forall h | h in chains && h != d ensures Content(data', chains[h]) == Content(data, chains[h]) {
      SameOutside(data, data', chains[h], [c]);
    }
  }

  // ---------------------------------------------------- move 4: free a chain

  lemma FreeSpace(fat: Fat, lim: nat, chains: Chains, o: nat)
    requires lim <= |fat| && Space(fat, lim, chains) && o in chains
    ensures Space(Cleared(fat, chains[o]), lim, chains - {o})
  {
    var fat', chains' := Cleared(fat, chains[o]), chains - {o};
    forall h | h in chains' ensures IsChain(fat', lim, chains'[h]) && chains'[h][0] == h {
      ProperFrame(fat, fat', lim, chains[h]);
    }
    forall c | 2 <= c < lim && fat'[c] != 0 && fat'[c] != FAT_BAD ensures exists h :: h in chains' && c in chains'[h] {
      var h :| h in chains && c in chains[h];
      assert h != o;
      assert c in chains'[h];
    }
  }

  lemma FreeHolds(data: Clusters, chains: Chains, t: Tree, o: nat)
    requires Holds(data, chains, t)
    ensures Holds(data, chains - {o}, WithoutOrphan(t, o))
  {
  }
}
