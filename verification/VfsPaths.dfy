/** Canonical absolute paths as byte strings. */
module VfsPaths {
  import opened Bytes

  const PATH_CAPACITY: nat := 128
  const MAX_DIR_NAME: nat := 64
  const SLASH: Byte := 0x2f
  const DOT: Byte := 0x2e

  type Path = seq<Byte>

  const ROOT: Path := [SLASH]

  // ------------------------------------------------------------ components

  /** Where the first slash is; the length if there is none. */
  function FirstSlash(s: Path): (k: nat)
    ensures k <= |s| && (k < |s| ==> s[k] == SLASH)
    ensures forall i :: 0 <= i < k ==> s[i] != SLASH
  {
    if s == [] || s[0] == SLASH then 0 else 1 + FirstSlash(s[1..])
  }

  predicate GoodPart(part: Path) {
    part != [] && part != [DOT] && part != [DOT, DOT] && |part| <= MAX_DIR_NAME
  }

  /** Every part between slashes is a proper name. */
  predicate GoodParts(s: Path)
    decreases |s|
  {
    var k := FirstSlash(s);
    if k == |s| then GoodPart(s) else GoodPart(s[..k]) && GoodParts(s[k + 1..])
  }

  lemma FirstSlashIs(s: Path, k: nat)
    requires k < |s| && s[k] == SLASH && forall i :: 0 <= i < k ==> s[i] != SLASH
    ensures FirstSlash(s) == k
  {
  }

  lemma {:induction false} GoodPartsJoin(a: Path, b: Path)
    ensures GoodParts(a + [SLASH] + b) <==> GoodParts(a) && GoodParts(b)
    decreases |a|
  {
    var s, k := a + [SLASH] + b, FirstSlash(a);
    FirstSlashIs(s, k);
    if k == |a| {
      assert s[..k] == a && s[k + 1..] == b;
    } else {
      assert s[..k] == a[..k] && s[k + 1..] == a[k + 1..] + [SLASH] + b;
      GoodPartsJoin(a[k + 1..], b);
    }
  }

  lemma {:induction false} GoodPartsEdges(s: Path)
    requires GoodParts(s)
    ensures s != [] && s[0] != SLASH && s[|s| - 1] != SLASH
    decreases |s|
  {
    var k := FirstSlash(s);
    if k < |s| { GoodPartsEdges(s[k + 1..]); }
  }

  predicate NoNul(s: Path) {
    forall i :: 0 <= i < |s| ==> s[i] != 0
  }

  /** What `validate_absolute_path` accepts. */
  predicate Canonical(p: Path) {
    && p != [] && p[0] == SLASH && |p| <= PATH_CAPACITY && NoNul(p)
    && (p == ROOT || GoodParts(p[1..]))
  }

  // --------------------------------------------------- parents and children

  /** Where the last slash is; -1 if there is none. */
  function LastSlash(s: Path): (k: int)
    ensures -1 <= k < |s| && (k >= 0 ==> s[k] == SLASH)
    ensures forall i :: k < i < |s| ==> s[i] != SLASH
  {
    if s == [] then -1 else if s[|s| - 1] == SLASH then |s| - 1 else LastSlash(s[..|s| - 1])
  }

  function Trimmed(s: Path): Path {
    if s != [] && s[|s| - 1] == SLASH then Trimmed(s[..|s| - 1]) else s
  }

  function ParentPath(p: Path): Option<Path> {
    if p == ROOT then None
    else
      var trimmed := Trimmed(p);
      var k := LastSlash(trimmed);
      if k == 0 then Some(ROOT) else if k > 0 then Some(trimmed[..k]) else None
  }

  /** The rest of `path` after `directory`, if that starts at a component boundary. */
  function DescendantSuffix(directory: Path, path: Path): Option<Path> {
    if directory <= path && |directory| < |path| && path[|directory|] == SLASH then Some(path[|directory|..]) else None
  }

  function ImmediateChildName(dir: Path, child: Path): Option<Path> {
    if child == dir then None
    else if dir == ROOT then
      if |child| < 2 || child[0] != SLASH || SLASH in child[1..] then None else Some(child[1..])
    else if !(dir <= child) || |child| == |dir| || child[|dir|] != SLASH then None
    else
      var name := child[|dir| + 1..];
      if name == [] || SLASH in name then None else Some(name)
  }

  predicate Under(directory: Path, path: Path) {
    DescendantSuffix(directory, path).Some?
  }

  lemma CanonicalHasParent(p: Path)
    requires Canonical(p) && p != ROOT
    ensures Trimmed(p) == p && LastSlash(p) >= 0 && ParentPath(p).Some? && |ParentPath(p).value| < |p|
  {
    GoodPartsEdges(p[1..]);
    assert p[|p| - 1] == p[1..][|p| - 2];
    assert p[0] == SLASH;
  }

  /** The parent of a canonical path other than the root. */
  ghost function Parent(p: Path): (q: Path)
    requires Canonical(p) && p != ROOT
    ensures Some(q) == ParentPath(p) && |q| < |p|
  {
    CanonicalHasParent(p);
    ParentPath(p).value
  }

  lemma {:induction false} LastSlashIs(s: Path, k: nat)
    requires k < |s| && s[k] == SLASH && forall i :: k < i < |s| ==> s[i] != SLASH
    ensures LastSlash(s) == k
  {
    if k < |s| - 1 { LastSlashIs(s[..|s| - 1], k); }
  }

  /** A path lies directly in its parent, and in nothing else. */
  lemma ParentIff(p: Path, d: Path)
    requires Canonical(p) && p != ROOT && Canonical(d)
    ensures ImmediateChildName(d, p).Some? <==> Parent(p) == d
  {
    CanonicalHasParent(p);
    GoodPartsEdges(p[1..]);
    var k := LastSlash(p);
    if ImmediateChildName(d, p).Some? {
      if d == ROOT {
        LastSlashIs(p, 0);
      } else {
        GoodPartsEdges(d[1..]);
        LastSlashIs(p, |d|);
      }
    }
    if Parent(p) == d {
      assert forall i :: k < i < |p| ==> p[i] != SLASH;
    }
  }

  /** Splitting a canonical path at a slash leaves canonical parts. */
  lemma CanonicalSplit(p: Path, k: nat)
    requires Canonical(p) && p != ROOT && 0 < k < |p| && p[k] == SLASH
    ensures Canonical(p[..k]) && p[..k] != ROOT && GoodParts(p[k + 1..])
  {
    var a, b := p[1..k], p[k + 1..];
    assert p[1..] == a + [SLASH] + b;
    GoodPartsJoin(a, b);
    assert p[..k][1..] == a;
    GoodPartsEdges(a);
  }

  lemma ParentIsCanonical(p: Path)
    requires Canonical(p) && p != ROOT
    ensures Canonical(Parent(p))
  {
    CanonicalHasParent(p);
    var k := LastSlash(p);
    if k > 0 { CanonicalSplit(p, k); }
  }

  /** What lies under a directory has its parent there, too, or directly is the directory's. */
  lemma UnderParent(d: Path, p: Path)
    requires Canonical(p) && Canonical(d) && d != ROOT && Under(d, p)
    ensures p != ROOT && (Parent(p) == d || Under(d, Parent(p)))
  {
    CanonicalHasParent(p);
    var k := LastSlash(p);
    assert k >= |d|;
    if k > |d| { assert p[..k][|d|] == SLASH && d <= p[..k]; }
  }

  lemma ChildUnder(d: Path, p: Path)
    requires Canonical(p) && p != ROOT && Canonical(d) && d != ROOT && (Parent(p) == d || Under(d, Parent(p)))
    ensures Under(d, p)
  {
    CanonicalHasParent(p);
  }

  // ----------------------------------------------------------------- moving

  /** `path` with `old` at its front replaced by `new`, if it is `old` or lies under it. */
  function Moved(old': Path, new': Path, path: Path): Path {
    if path == old' then new' else if Under(old', path) then new' + path[|old'|..] else path
  }

  lemma RestAfter(a: Path, p: Path, k: nat)
    requires k < |p| && p[k] == SLASH
    ensures a + p[k..] == a + [SLASH] + p[k + 1..]
  {
    assert p[k..] == [SLASH] + p[k + 1..];
  }

  lemma NoNulJoin(a: Path, b: Path)
    requires NoNul(a) && NoNul(b)
    ensures NoNul(a + [SLASH] + b)
  {
  }

  lemma TailOfJoin(a: Path, b: Path)
    requires a != []
    ensures (a + [SLASH] + b)[1..] == a[1..] + [SLASH] + b
  {
    var left, right := (a + [SLASH] + b)[1..], a[1..] + [SLASH] + b;
    assert |left| == |right|;
    assert forall i :: 0 <= i < |left| ==> left[i] == right[i];
  }

  lemma JoinIsGood(a: Path, b: Path)
    requires a != []
    ensures GoodParts((a + [SLASH] + b)[1..]) <==> GoodParts(a[1..]) && GoodParts(b)
  {
    TailOfJoin(a, b);
    GoodPartsJoin(a[1..], b);
  }

  lemma JoinIsCanonical(a: Path, b: Path, p: Path)
    requires Canonical(a) && a != ROOT && GoodParts(b) && NoNul(b) && p == a + [SLASH] + b && |p| <= PATH_CAPACITY
    ensures Canonical(p) && p != ROOT
  {
    JoinIsGood(a, b);
    NoNulJoin(a, b);
    assert p[0] == a[0] && |p| > 1;
  }

  lemma MovedIsCanonical(old': Path, new': Path, path: Path)
    requires Canonical(old') && old' != ROOT && Canonical(new') && new' != ROOT && Canonical(path)
    requires |Moved(old', new', path)| <= PATH_CAPACITY
    ensures Canonical(Moved(old', new', path)) && (Moved(old', new', path) == ROOT <==> path == ROOT)
  {
    if Under(old', path) {
      var k := |old'|;
      CanonicalSplit(path, k);
      RestAfter(new', path, k);
      JoinIsCanonical(new', path[k + 1..], new' + path[k..]);
    }
  }

  /** Moving goes along with taking parents, below the top of what is moved. */
  lemma MovedParent(old': Path, new': Path, path: Path)
    requires Canonical(old') && old' != ROOT && Canonical(new') && new' != ROOT && Canonical(path) && Under(old', path)
    requires Canonical(Moved(old', new', path))
    ensures path != ROOT && Moved(old', new', path) != ROOT
    ensures Parent(Moved(old', new', path)) == Moved(old', new', Parent(path))
  {
    UnderParent(old', path);
    CanonicalHasParent(path);
    var moved := Moved(old', new', path);
    CanonicalHasParent(moved);
    var k := LastSlash(path);
    var k' := |new'| + (k - |old'|);
    assert k >= |old'|;
    assert moved == new' + path[|old'|..];
    assert moved[k'] == path[k];
    forall i | k' < i < |moved| ensures moved[i] != SLASH { assert moved[i] == path[i - |new'| + |old'|]; }
    LastSlashIs(moved, k');
    assert moved[..k'] == new' + path[|old'|..k];
    if k > |old'| { assert path[..k][|old'|..] == path[|old'|..k]; }
  }

  /** Two different paths stay different when both move. */
  lemma MovedDiffer(old': Path, new': Path, p: Path, q: Path)
    requires p != q && (p == old' || Under(old', p)) && (q == old' || Under(old', q))
    ensures Moved(old', new', p) != Moved(old', new', q)
  {
    var a, b := p[|old'|..], q[|old'|..];
    assert p == old' + a && q == old' + b;
    assert Moved(old', new', p) == new' + a && Moved(old', new', q) == new' + b;
    assert (new' + a)[|new'|..] == a && (new' + b)[|new'|..] == b;
  }
}
