/** The registry of nodes as a tree of paths. */
module VfsTree {
  import opened Bytes
  import opened VfsPaths

  const MAX_NODES: nat := 64
  const NODE_CAPACITY: nat := 0x1_0000

  datatype Kind = File | Directory

  /** `data` are the bytes held in memory; a node with a backing has `length` bytes on disk instead. */
  datatype Node = Node(path: Path, data: seq<Byte>, length: nat, backing: Option<Path>, writable: bool, kind: Kind,
      occupied: bool)

  const EMPTY_NODE: Node := Node([], [], 0, None, false, File, false)

  type Nodes = seq<Node>

  predicate Matches(n: Node, path: Path) {
    n.occupied && n.path == path
  }

  /** An open file whose name was removed keeps its node, without a path. */
  predicate Named(n: Node) {
    n.occupied && n.path != []
  }

  ghost predicate DirAt(nodes: Nodes, i: int, path: Path)
    requires 0 <= i < |nodes|
  {
    Matches(nodes[i], path) && nodes[i].kind == Directory
  }

  ghost predicate IsDir(nodes: Nodes, path: Path) {
    exists i :: 0 <= i < |nodes| && DirAt(nodes, i, path)
  }

  ghost predicate Exists(nodes: Nodes, path: Path) {
    exists i :: 0 <= i < |nodes| && Matches(nodes[i], path)
  }

  /** A node on its own: its path is canonical and its backing, if any, has that very path. */
  ghost predicate NodeOk(n: Node) {
    && (Named(n) ==> Canonical(n.path))
    && (n.occupied && n.backing.Some? ==> n.path != [] && n.backing.value == n.path && n.kind == File)
    && (n.occupied && n.path == [] ==> n.kind == File)
    && (n.occupied ==> n.length <= NODE_CAPACITY && (n.backing.None? ==> n.length == |n.data|))
    && (!n.occupied ==> n.backing.None?)
  }

  ghost predicate Housed(nodes: Nodes, i: int)
    requires 0 <= i < |nodes| && NodeOk(nodes[i])
  {
    Named(nodes[i]) && nodes[i].path != ROOT ==> IsDir(nodes, Parent(nodes[i].path))
  }

  /** Names are unique and every named node but the root lies in a directory. */
  ghost predicate Tree(nodes: Nodes) {
    && (forall i {:trigger nodes[i]} :: 0 <= i < |nodes| ==> NodeOk(nodes[i]))
    && (forall i, j {:trigger nodes[i], nodes[j]} :: 0 <= i < j < |nodes| && Named(nodes[i]) && Named(nodes[j]) ==>
       nodes[i].path != nodes[j].path)
    && (forall i {:trigger Housed(nodes, i)} :: 0 <= i < |nodes| ==> Housed(nodes, i))
    && IsDir(nodes, ROOT)
  }

  // ------------------------------------------------------------ new and old

  lemma DirStays(nodes: Nodes, i: nat, n: Node, path: Path)
    requires i < |nodes| && IsDir(nodes, path) && !DirAt(nodes, i, path)
    ensures IsDir(nodes[i := n], path)
  {
    var k :| 0 <= k < |nodes| && DirAt(nodes, k, path);
    assert DirAt(nodes[i := n], k, path);
  }

  /** A node with a new name in an existing directory. */
  lemma NodeAdded(nodes: Nodes, i: nat, n: Node)
    requires Tree(nodes) && i < |nodes| && !nodes[i].occupied && NodeOk(n) && n.occupied
    requires Named(n) && n.path != ROOT && !Exists(nodes, n.path) && IsDir(nodes, Parent(n.path))
    ensures Tree(nodes[i := n])
  {
    var nodes' := nodes[i := n];
    forall k | 0 <= k < |nodes'| && Named(nodes'[k]) && nodes'[k].path != ROOT
        ensures IsDir(nodes', Parent(nodes'[k].path)) {
      assert k != i ==> Housed(nodes, k);
      DirStays(nodes, i, n, Parent(nodes'[k].path));
    }
    DirStays(nodes, i, n, ROOT);
    forall k | 0 <= k < |nodes| && Named(nodes[k]) ensures nodes[k].path != n.path {
      assert !Matches(nodes[k], n.path);
    }
  }

  /** No named node lies directly in `dir`. */
  ghost predicate Childless(nodes: Nodes, dir: Path) {
    forall k {:trigger nodes[k]} :: 0 <= k < |nodes| && nodes[k].occupied ==>
          ImmediateChildName(dir, nodes[k].path).None?
  }

  /** A name that is taken away: of a file, or of a directory without children. */
  lemma NameRemoved(nodes: Nodes, i: nat, n: Node)
    requires Tree(nodes) && i < |nodes| && Named(nodes[i]) && nodes[i].path != ROOT
    requires nodes[i].kind == Directory ==> Childless(nodes, nodes[i].path)
    requires NodeOk(n) && !Named(n)
    ensures Tree(nodes[i := n])
  {
    var nodes', p := nodes[i := n], nodes[i].path;
    forall k | 0 <= k < |nodes'| && Named(nodes'[k]) && nodes'[k].path != ROOT
        ensures IsDir(nodes', Parent(nodes'[k].path)) {
      var q := Parent(nodes[k].path);
      assert Housed(nodes, k);
      if q == p {
        ParentIff(nodes[k].path, p);
        var d :| 0 <= d < |nodes| && DirAt(nodes, d, q);
        assert nodes[d].path == nodes[i].path;
        assert d == i;
      }
      DirStays(nodes, i, n, q);
    }
    DirStays(nodes, i, n, ROOT);
  }

  /** New contents under the same name. */
  lemma NodeRewritten(nodes: Nodes, i: nat, n: Node)
    requires Tree(nodes) && i < |nodes| && NodeOk(n)
    requires n.occupied == nodes[i].occupied && n.path == nodes[i].path && n.kind == nodes[i].kind
    ensures Tree(nodes[i := n])
  {
    var nodes' := nodes[i := n];
    forall path | IsDir(nodes, path) ensures IsDir(nodes', path) {
      var k :| 0 <= k < |nodes| && DirAt(nodes, k, path);
      assert DirAt(nodes', k, path);
    }
    forall k | 0 <= k < |nodes| ensures Housed(nodes', k) { assert Housed(nodes, k); }
  }

  /** Every directory on the way to a named node exists. */
  lemma {:induction false} AncestorIsDir(nodes: Nodes, d: Path, p: Path)
    requires Tree(nodes) && Canonical(d) && d != ROOT && Canonical(p) && Exists(nodes, p) && Under(d, p)
    ensures IsDir(nodes, d)
    decreases |p|
  {
    var i :| 0 <= i < |nodes| && Matches(nodes[i], p);
    UnderParent(d, p);
    var q := Parent(p);
    assert Named(nodes[i]) && Housed(nodes, i);
    if q != d {
      ParentIsCanonical(p);
      var k :| 0 <= k < |nodes| && DirAt(nodes, k, q);
      assert Matches(nodes[k], q);
      AncestorIsDir(nodes, d, q);
    }
  }

  // --------------------------------------------------------------- renaming

  function MovedNode(n: Node, old': Path, new': Path): Node {
    if !n.occupied then n
    else n.(path := Moved(old', new', n.path), backing := if n.backing.Some?
        then Some(Moved(old', new', n.backing.value)) else None)
  }

  /** Every node of the subtree under its new name, at its own index. */
  ghost predicate Renamed(nodes: Nodes, nodes': Nodes, old': Path, new': Path) {
    |nodes'| == |nodes| && forall i {:trigger nodes'[i]} {:trigger nodes[i]} :: 0 <= i < |nodes| ==>
      nodes'[i] == MovedNode(nodes[i], old', new')
  }

  /** What `validate_rename` checks, for two different names. */
  ghost predicate Accepts(nodes: Nodes, old': Path, new': Path) {
    && Canonical(old') && Canonical(new') && old' != ROOT && new' != ROOT && old' != new'
    && Exists(nodes, old') && !Exists(nodes, new') && !Under(old', new') && IsDir(nodes, Parent(new'))
    && forall i {:trigger nodes[i]} :: 0 <= i < |nodes| && nodes[i].occupied ==>
         |Moved(old', new', nodes[i].path)| <= PATH_CAPACITY
  }

  /** Nothing lies at the new name or under it. */
  lemma NewNameIsFree(nodes: Nodes, old': Path, new': Path, i: nat)
    requires Tree(nodes) && Accepts(nodes, old', new') && i < |nodes| && Named(nodes[i])
    ensures nodes[i].path != new' && !Under(new', nodes[i].path)
  {
    assert Matches(nodes[i], nodes[i].path);
    if Under(new', nodes[i].path) {
      AncestorIsDir(nodes, new', nodes[i].path);
    }
  }

  lemma MovedOk(nodes: Nodes, old': Path, new': Path, i: nat)
    requires Tree(nodes) && Accepts(nodes, old', new') && i < |nodes|
    ensures NodeOk(MovedNode(nodes[i], old', new'))
    ensures Named(nodes[i]) <==> Named(MovedNode(nodes[i], old', new'))
    ensures Named(nodes[i]) ==> (nodes[i].path == ROOT <==> MovedNode(nodes[i], old', new').path == ROOT)
  {
    if Named(nodes[i]) { MovedIsCanonical(old', new', nodes[i].path); }
  }

  lemma MovedIsNewOrUnder(old': Path, new': Path, p: Path)
    requires p == old' || Under(old', p)
    ensures Moved(old', new', p) == new' || Under(new', Moved(old', new', p))
  {
    if Under(old', p) { assert (new' + p[|old'|..])[|new'|] == SLASH; }
  }

  lemma MovedApart(nodes: Nodes, old': Path, new': Path, i: nat, j: nat)
    requires Tree(nodes) && Accepts(nodes, old', new') && i < |nodes| && j < |nodes| && i != j && Named(nodes[i]) &&
             Named(nodes[j])
    ensures Moved(old', new', nodes[i].path) != Moved(old', new', nodes[j].path)
  {
    var p, q := nodes[i].path, nodes[j].path;
    NewNameIsFree(nodes, old', new', i);
    NewNameIsFree(nodes, old', new', j);
    if (p == old' || Under(old', p)) && (q == old' || Under(old', q)) {
      MovedDiffer(old', new', p, q);
    } else if p == old' || Under(old', p) {
      MovedIsNewOrUnder(old', new', p);
    } else if q == old' || Under(old', q) {
      MovedIsNewOrUnder(old', new', q);
    }
  }

  lemma DirMoves(nodes: Nodes, nodes': Nodes, old': Path, new': Path, path: Path)
    requires Renamed(nodes, nodes', old', new') && IsDir(nodes, path)
    ensures IsDir(nodes', Moved(old', new', path))
  {
    var k :| 0 <= k < |nodes| && DirAt(nodes, k, path);
    assert DirAt(nodes', k, Moved(old', new', path));
  }

  /** The directory the subtree goes to is not part of it. */
  lemma NewParentStays(old': Path, new': Path)
    requires Canonical(old') && Canonical(new') && old' != ROOT && new' != ROOT && !Under(old', new')
    ensures Moved(old', new', Parent(new')) == Parent(new')
  {
    if Parent(new') == old' || Under(old', Parent(new')) { ChildUnder(old', new'); }
  }

  lemma MovedHasParent(nodes: Nodes, nodes': Nodes, old': Path, new': Path, i: nat)
    requires Tree(nodes) && Accepts(nodes, old', new') && Renamed(nodes, nodes', old', new') && i < |nodes| &&
             Named(nodes[i]) && nodes[i].path != ROOT
    ensures Canonical(Moved(old', new', nodes[i].path)) && Moved(old', new', nodes[i].path) != ROOT
    ensures IsDir(nodes', Parent(Moved(old', new', nodes[i].path)))
  {
    var p := nodes[i].path;
    MovedIsCanonical(old', new', p);
    if p == old' {
      NewParentStays(old', new');
      DirMoves(nodes, nodes', old', new', Parent(new'));
    } else {
      assert Housed(nodes, i);
      DirMoves(nodes, nodes', old', new', Parent(p));
      if Under(old', p) {
        MovedParent(old', new', p);
      } else if Parent(p) == old' || Under(old', Parent(p)) {
        ChildUnder(old', p);
      }
    }
  }

  /** A rename that was accepted moves the whole subtree in place, and the result is a tree again. */
  lemma RenameKeepsTree(nodes: Nodes, nodes': Nodes, old': Path, new': Path)
    requires Tree(nodes) && Accepts(nodes, old', new') && Renamed(nodes, nodes', old', new')
    ensures Tree(nodes')
  {
    forall i: nat | i < |nodes'|
      ensures NodeOk(nodes'[i]) && (Named(nodes[i]) <==> Named(nodes'[i])) &&
              (Named(nodes[i]) ==> (nodes[i].path == ROOT <==> nodes'[i].path == ROOT))
    {
      MovedOk(nodes, old', new', i);
    }
    forall i: nat, j: nat | i < j < |nodes'| && Named(nodes'[i]) && Named(nodes'[j])
        ensures nodes'[i].path != nodes'[j].path {
      MovedApart(nodes, old', new', i, j);
    }
    forall i: nat | i < |nodes'| && Named(nodes'[i]) && nodes'[i].path != ROOT
        ensures IsDir(nodes', Parent(nodes'[i].path)) {
      MovedHasParent(nodes, nodes', old', new', i);
    }
    DirMoves(nodes, nodes', old', new', ROOT);
  }

  /** Two directories above the same path lie one above the other. */
  lemma Comparable(a: Path, b: Path, q: Path)
    requires (q == a || Under(a, q)) && (q == b || Under(b, q))
    ensures a == b || Under(a, b) || Under(b, a)
  {
    if |a| <= |b| { assert a == q[..|a|] == b[..|a|]; } else { assert b == q[..|b|] == a[..|b|]; }
  }

  /** What moves away from `old'` ends up neither there nor under it. */
  lemma MovedIsElsewhere(nodes: Nodes, old': Path, new': Path, p: Path)
    requires Tree(nodes) && Accepts(nodes, old', new') && (p == old' || Under(old', p))
    ensures Moved(old', new', p) != old' && !Under(old', Moved(old', new', p))
  {
    var q := Moved(old', new', p);
    var k :| 0 <= k < |nodes| && Matches(nodes[k], old');
    NewNameIsFree(nodes, old', new', k);
    MovedIsNewOrUnder(old', new', p);
    if q == old' || Under(old', q) {
      Comparable(old', new', q);
      assert false;
    }
  }

  lemma MovedBack(old': Path, new': Path, p: Path)
    requires p == old' || Under(old', p) || (p != new' && !Under(new', p))
    ensures Moved(new', old', Moved(old', new', p)) == p
  {
    if Under(old', p) {
      var q := new' + p[|old'|..];
      assert q[|new'|..] == p[|old'|..] && q[|new'|] == SLASH;
      assert q[..|new'|] == new';
      assert old' + p[|old'|..] == p;
    }
  }

  lemma BackAt(nodes: Nodes, old': Path, new': Path, i: nat)
    requires Tree(nodes) && Accepts(nodes, old', new') && i < |nodes|
    ensures var n := MovedNode(nodes[i], old', new');
            nodes[i] == MovedNode(n, new', old') && (Named(n) ==> n.path != old' && !Under(old', n.path))
  {
    var n := nodes[i];
    if Named(n) {
      NewNameIsFree(nodes, old', new', i);
      MovedBack(old', new', n.path);
      if n.path == old' || Under(old', n.path) { MovedIsElsewhere(nodes, old', new', n.path); }
    } else {
      MovedOk(nodes, old', new', i);
    }
  }

  lemma ParentNotBelow(old': Path, new': Path)
    requires Canonical(old') && old' != ROOT
    ensures Moved(old', new', Parent(old')) == Parent(old')
  {
  }

  lemma BackIsAccepted(nodes: Nodes, nodes': Nodes, old': Path, new': Path)
    requires Tree(nodes) && Accepts(nodes, old', new') && Renamed(nodes, nodes', old', new') &&
             Renamed(nodes', nodes, new', old')
    requires forall i :: 0 <= i < |nodes'| && Named(nodes'[i]) ==>
               nodes'[i].path != old' && !Under(old', nodes'[i].path)
    ensures Accepts(nodes', new', old')
  {
    var k :| 0 <= k < |nodes| && Matches(nodes[k], old');
    assert Matches(nodes'[k], new');
    NewNameIsFree(nodes, old', new', k);
    assert Housed(nodes, k);
    DirMoves(nodes, nodes', old', new', Parent(old'));
    ParentNotBelow(old', new');
  }

  /** The old names are free afterwards, and renaming back is accepted and restores every node. */
  lemma RenameBack(nodes: Nodes, nodes': Nodes, old': Path, new': Path)
    requires Tree(nodes) && Accepts(nodes, old', new') && Renamed(nodes, nodes', old', new')
    ensures forall i :: 0 <= i < |nodes'| && Named(nodes'[i]) ==> nodes'[i].path != old' && !Under(old', nodes'[i].path)
    ensures Accepts(nodes', new', old') && Renamed(nodes', nodes, new', old')
  {
    RenameKeepsTree(nodes, nodes', old', new');
    forall i: nat | i < |nodes|
      ensures nodes[i] == MovedNode(nodes'[i], new', old')
      ensures Named(nodes'[i]) ==> nodes'[i].path != old' && !Under(old', nodes'[i].path)
    {
      BackAt(nodes, old', new', i);
    }
    BackIsAccepted(nodes, nodes', old', new');
  }
}
