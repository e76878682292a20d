/** Nodes and open-file descriptions together. */
module VfsFiles {
  import opened Bytes
  import opened VfsPaths
  import opened VfsTree

  const MAX_OPEN_FILES: nat := 64
  const MAX_REFCOUNT: nat := 0xffff_ffff
  const MAX_GENERATION: nat := 0xffff_ffff_ffff_ffff

  datatype Error = NotFound | InvalidDescriptor | InvalidPath | AlreadyExists | ReadOnly | Full | NotEmpty | Io
  datatype Result<+T> = Ok(value: T) | Err(error: Error)

  datatype OpenFile = OpenFile(node: nat, generation: nat, offset: nat, refcount: nat, occupied: bool)

  const CLOSED: OpenFile := OpenFile(0, 0, 0, 0, false)

  /** What reading a file of the mounted disk gives: path, offset and count. */
  type Disk = (Path, nat, nat) -> Option<seq<Byte>>

  /** Every description refers to an occupied file node of its own generation; `births` tells
      the files apart that one node holds over time, and `targets` which of them was opened. */
  ghost predicate FilesOk(nodes: Nodes, generations: seq<nat>, births: seq<nat>, files: seq<OpenFile>,
                          targets: seq<nat>) {
    && |nodes| == |generations| == |births| && |files| == |targets|
    && forall f {:trigger files[f]} :: 0 <= f < |files| && files[f].occupied ==>
         && files[f].refcount > 0 && files[f].node < |nodes| && nodes[files[f].node].occupied &&
            nodes[files[f].node].kind == File
         && generations[files[f].node] == files[f].generation && births[files[f].node] == targets[f]
  }

  ghost predicate Uses(files: seq<OpenFile>, f: int, i: nat)
    requires 0 <= f < |files|
  {
    files[f].occupied && files[f].node == i
  }

  ghost predicate InUse(files: seq<OpenFile>, i: nat) {
    exists f :: 0 <= f < |files| && Uses(files, f, i)
  }

  /** A node without a name is there only for its open descriptions. */
  ghost predicate NoLeaks(nodes: Nodes, generations: seq<nat>, files: seq<OpenFile>) {
    |generations| == |nodes| &&
    forall i: nat {:trigger nodes[i]} :: i < |nodes| && nodes[i].occupied && nodes[i].path == [] ==>
          InUse(files, i) || generations[i] >= MAX_GENERATION
  }

  /** The same of every node but one. */
  ghost predicate NoLeaksBut(nodes: Nodes, generations: seq<nat>, files: seq<OpenFile>, but: nat) {
    |generations| == |nodes| &&
    forall i: nat {:trigger nodes[i]} :: i < |nodes| && i != but && nodes[i].occupied && nodes[i].path == [] ==>
          InUse(files, i) || generations[i] >= MAX_GENERATION
  }

  /** No two files alive share an identity. */
  ghost predicate Distinct(nodes: Nodes, births: seq<nat>, next: nat) {
    && |births| == |nodes|
    && (forall i {:trigger births[i]} :: 0 <= i < |nodes| ==> births[i] < next)
    && (forall i, j {:trigger births[i], births[j]} ::
       0 <= i < j < |nodes| && nodes[i].occupied && nodes[j].occupied ==> births[i] != births[j])
  }

  function Fitting(offset: nat, buffer: seq<Byte>): nat
    requires offset <= NODE_CAPACITY
  {
    if |buffer| < NODE_CAPACITY - offset then |buffer| else NODE_CAPACITY - offset
  }

  /** `bytes` at `offset`, which makes the file longer if need be. */
  function Overwritten(n: Node, offset: nat, bytes: seq<Byte>): (m: Node)
    requires offset <= |n.data|
    ensures offset + |bytes| <= |m.data| && m.length == |m.data| && m.data[offset..offset + |bytes|] == bytes
    ensures forall k :: 0 <= k < |m.data| && !(offset <= k < offset + |bytes|) ==>
              k < |n.data| && m.data[k] == n.data[k]
    ensures |m.data| == if offset + |bytes| > |n.data| then offset + |bytes| else |n.data|
    ensures m == n.(data := m.data, length := |m.data|)
  {
    var end := offset + |bytes|;
    var data := n.data[..offset] + bytes + (if end < |n.data| then n.data[end..] else []);
    n.(data := data, length := |data|)
  }

  predicate IsLive(files: seq<OpenFile>, id: nat) {
    id < |files| && files[id].occupied && files[id].refcount > 0
  }

  /** The node with its bytes in memory, unless the disk does not deliver them all. */
  function Materialized(n: Node, disk: Disk): Option<Node> {
    if n.backing.None? then Some(n)
    else
      var bytes := disk(n.backing.value, 0, n.length);
      if bytes.None? || |bytes.value| != n.length then None else Some(n.(data := bytes.value, backing := None))
  }

  /** A write through a description, in all its outcomes. */
  ghost predicate WriteEffect(files: seq<OpenFile>, files': seq<OpenFile>, nodes: Nodes, nodes': Nodes, id: nat,
                              buffer: seq<Byte>, disk: Disk, r: Result<nat>)
    requires IsLive(files, id) && files[id].node < |nodes|
  {
    var d := files[id];
    var n := nodes[d.node];
    var m := Materialized(n, disk);
    if !n.writable then r == Err(ReadOnly) && files' == files && nodes' == nodes
    else if m.None? then r == Err(Io) && files' == files && nodes' == nodes
    else if d.offset > n.length
        then r == Err(InvalidDescriptor) && files' == files && nodes' == nodes[d.node := m.value]
    else
      && d.offset <= |m.value.data| && d.offset <= NODE_CAPACITY
      && var count := Fitting(d.offset, buffer);
         && r == (if count < |buffer| then Err(Full) else Ok(count))
         && nodes' == nodes[d.node := Overwritten(m.value, d.offset, buffer[..count])]
         && files' == files[id := d.(offset := d.offset + count)]
  }

  ghost predicate ReadOnlyFile(nodes: Nodes, path: Path) {
    exists i :: 0 <= i < |nodes| && Matches(nodes[i], path) && !nodes[i].writable
  }

  /** A path is free, its directory exists and so does a free node. */
  ghost predicate MayCreate(nodes: Nodes, path: Path) {
    && Canonical(path) && !Exists(nodes, path) && path != ROOT && IsDir(nodes, Parent(path))
    && exists k :: 0 <= k < |nodes| && !nodes[k].occupied
  }

  /** Why a path cannot be created. */
  ghost function Refusal(nodes: Nodes, path: Path): Error {
    if !Canonical(path) then InvalidPath
    else if path == ROOT || Exists(nodes, path) then AlreadyExists
    else if !IsDir(nodes, Parent(path)) then NotFound
    else Full
  }

  /** Why a path cannot be written as a whole. */
  ghost function WriteRefusal(nodes: Nodes, path: Path, size: nat): Option<Error> {
    if !Canonical(path) then Some(InvalidPath)
    else if size > NODE_CAPACITY then Some(Full)
    else if IsDir(nodes, path) then Some(AlreadyExists)
    else if ReadOnlyFile(nodes, path) then Some(ReadOnly)
    else if Exists(nodes, path) || MayCreate(nodes, path) then None
    else Some(Refusal(nodes, path))
  }

  lemma NewRefusal(nodes: Nodes, path: Path, size: nat)
    requires Canonical(path) && size <= NODE_CAPACITY && !Exists(nodes, path)
    ensures WriteRefusal(nodes, path, size) == if MayCreate(nodes, path) then None else Some(Refusal(nodes, path))
  {
  }

  /** There is one node to a name. */
  lemma OneNode(nodes: Nodes, i: nat, path: Path)
    requires Tree(nodes) && i < |nodes| && Matches(nodes[i], path) && path != []
    ensures Exists(nodes, path) && (IsDir(nodes, path) <==> nodes[i].kind == Directory)
    ensures forall k :: 0 <= k < |nodes| && Matches(nodes[k], path) ==> k == i
  {
    if nodes[i].kind == Directory { assert DirAt(nodes, i, path); }
    if IsDir(nodes, path) {
      var k :| 0 <= k < |nodes| && DirAt(nodes, k, path);
      assert nodes[k].path == nodes[i].path;
    }
  }

  lemma OldRefusal(nodes: Nodes, i: nat, path: Path, size: nat)
    requires Tree(nodes) && Canonical(path) && size <= NODE_CAPACITY && i < |nodes| && Matches(nodes[i], path)
    ensures WriteRefusal(nodes, path, size) ==
            if nodes[i].kind == Directory then Some(AlreadyExists) else if !nodes[i].writable then Some(ReadOnly)
                else None
  {
    OneNode(nodes, i, path);
  }

  /** Node `i` has the path and, as a writable file, exactly these bytes; it was there or is new. */
  ghost predicate WritesFile(nodes: Nodes, nodes': Nodes, births: seq<nat>, births': seq<nat>, next: nat,
                             written: seq<nat>, written': seq<nat>,
                             path: Path, data: seq<Byte>, i: nat)
  {
    && i < |nodes| == |nodes'| == |births|
    && nodes' == nodes[i := Node(path, data, |data|, None, true, File, true)]
    && if nodes[i].occupied
       then Matches(nodes[i], path) && nodes[i].kind == File && nodes[i].writable && births' == births &&
       written' == written + [births[i]]
       else births' == births[i := next] && written' == written
  }

  function Count(n: Node, start: nat, room: nat): nat
    requires start <= n.length
  {
    if n.length - start < room then n.length - start else room
  }

  ghost predicate Readable(n: Node, start: nat, room: nat, disk: Disk) {
    start <= n.length && (n.backing.Some? ==>
                            var read := disk(n.backing.value, start, Count(n, start, room));
                            read.Some? && |read.value| == Count(n, start, room))
  }

  /** From the start on as much as there is room for: from memory, or as the disk delivers it. */
  ghost predicate ReadsAt(n: Node, start: nat, room: nat, disk: Disk, bytes: seq<Byte>) {
    && start <= n.length && |bytes| == Count(n, start, room)
    && if n.backing.Some? then disk(n.backing.value, start, |bytes|) == Some(bytes)
       else start + |bytes| <= |n.data| && bytes == n.data[start..start + |bytes|]
  }

  /** Read from a node: as much as there is room for. */
  method Fetch(n: Node, start: nat, room: nat, disk: Disk) returns (r: Result<seq<Byte>>)
    requires n.occupied && NodeOk(n)
    ensures r.Ok? == Readable(n, start, room, disk)
    ensures r.Ok? ==> ReadsAt(n, start, room, disk, r.value)
    ensures r.Err? ==> r.error == if start > n.length then InvalidDescriptor else Io
  {
    if start > n.length { return Err(InvalidDescriptor); }
    var count := Count(n, start, room);
    if n.backing.Some? {
      var read := disk(n.backing.value, start, count);
      if read.None? || |read.value| != count { return Err(Io); }
      return Ok(read.value);
    }
    return Ok(n.data[start..start + count]);
  }

  function Start(d: OpenFile, position: Option<nat>): nat {
    if position.Some? then position.value else d.offset
  }

  /** A read by descriptor: exactly the file's bytes from where it starts, as long as the file can be read, and a stale
      generation is refused. */
  ghost predicate Answers(nodes: Nodes, files: seq<OpenFile>, id: nat, position: Option<nat>, room: nat,
                          generation: Option<nat>, disk: Disk, r: Result<seq<Byte>>) {
    if !IsLive(files, id) || files[id].node >= |nodes| then r == Err(InvalidDescriptor)
    else if generation.Some? && generation.value != files[id].generation then r == Err(InvalidDescriptor)
    else
      var n, start := nodes[files[id].node], Start(files[id], position);
      if Readable(n, start, room, disk) then r.Ok? && ReadsAt(n, start, room, disk, r.value)
      else r == Err(if start > n.length then InvalidDescriptor else Io)
  }

  function Dropped(d: OpenFile): OpenFile {
    if d.refcount <= 1 then CLOSED else d.(refcount := d.refcount - 1)
  }

  lemma DropKeeps(nodes: Nodes, generations: seq<nat>, files: seq<OpenFile>, id: nat)
    requires NoLeaks(nodes, generations, files) && id < |files| && files[id].occupied
    ensures NoLeaksBut(nodes, generations, files[id := Dropped(files[id])], files[id].node)
  {
    var files' := files[id := Dropped(files[id])];
    forall i: nat | i < |nodes| && i != files[id].node && InUse(files, i) ensures InUse(files', i) {
      var k :| 0 <= k < |files| && Uses(files, k, i);
      assert Uses(files', k, i);
    }
  }

  lemma AllDirs(nodes: Nodes, path: Path)
    requires Tree(nodes) && path != [] && forall k :: 0 <= k < |nodes| ==>
               !(Matches(nodes[k], path) && nodes[k].kind == File)
    ensures Exists(nodes, path) ==> IsDir(nodes, path)
  {
    if Exists(nodes, path) {
      var k :| 0 <= k < |nodes| && Matches(nodes[k], path);
      assert DirAt(nodes, k, path);
    }
  }

  /** A new description takes no node away from the others. */
  lemma UseAdded(files: seq<OpenFile>, f: nat, d: OpenFile)
    requires f < |files| && !files[f].occupied
    ensures forall i: nat :: InUse(files, i) ==> InUse(files[f := d], i)
  {
    forall i: nat | InUse(files, i) ensures InUse(files[f := d], i) {
      var k :| 0 <= k < |files| && Uses(files, k, i);
      assert Uses(files[f := d], k, i);
    }
  }

  lemma UseKept(files: seq<OpenFile>, f: nat, d: OpenFile)
    requires f < |files| && d.occupied == files[f].occupied && d.node == files[f].node
    ensures forall i: nat :: InUse(files, i) <==> InUse(files[f := d], i)
  {
    forall i: nat ensures InUse(files, i) <==> InUse(files[f := d], i) {
      if InUse(files, i) {
        var k :| 0 <= k < |files| && Uses(files, k, i);
        assert Uses(files[f := d], k, i);
      }
      if InUse(files[f := d], i) {
        var k :| 0 <= k < |files| && Uses(files[f := d], k, i);
        assert Uses(files, k, i);
      }
    }
  }

  predicate FitsAt(n: Node, old': Path, new': Path) {
    && (Under(old', n.path) ==> |new'| + |n.path| - |old'| <= PATH_CAPACITY)
    && (n.backing.Some? && Under(old', n.backing.value) ==> |new'| + |n.backing.value| - |old'| <= PATH_CAPACITY)
  }

  ghost function RenameRefusal(nodes: Nodes, old': Path, new': Path): Error {
    if !Canonical(old') || !Canonical(new') then InvalidPath
    else if old' == ROOT || new' == ROOT then ReadOnly
    else if !Exists(nodes, old') then NotFound
    else if Exists(nodes, new') then AlreadyExists
    else if Under(old', new') then InvalidPath
    else if !IsDir(nodes, Parent(new')) then NotFound
    else InvalidPath
  }

  function ShiftedPath(p: Path, old': Path, new': Path, directory: bool): Path {
    if p == old' || (directory && Under(old', p)) then new' + p[|old'|..] else p
  }

  function Shifted(n: Node, old': Path, new': Path, directory: bool): Node {
    if !n.occupied then n
    else n.(path := ShiftedPath(n.path, old', new', directory),
            backing := if n.backing.Some? then Some(ShiftedPath(n.backing.value, old', new', directory)) else None)
  }

  /** Nothing lies under a file. */
  lemma NothingUnderFile(nodes: Nodes, old': Path, i: nat, k: nat)
    requires Tree(nodes) && Canonical(old') && old' != ROOT && i < |nodes| && Matches(nodes[i], old') &&
             nodes[i].kind == File
    requires k < |nodes| && Named(nodes[k])
    ensures !Under(old', nodes[k].path)
  {
    OneNode(nodes, i, old');
    if Under(old', nodes[k].path) {
      assert Matches(nodes[k], nodes[k].path);
      AncestorIsDir(nodes, old', nodes[k].path);
    }
  }

  lemma FitsMeans(nodes: Nodes, old': Path, new': Path, i: nat, fits: bool)
    requires Tree(nodes) && Canonical(old') && old' != ROOT && Canonical(new') && i < |nodes| && Matches(nodes[i], old')
    requires fits <==>
               nodes[i].kind != Directory || forall k :: 0 <= k < |nodes| && nodes[k].occupied ==>
                 FitsAt(nodes[k], old', new')
    ensures fits <==>
              forall k {:trigger nodes[k]} :: 0 <= k < |nodes| && nodes[k].occupied ==>
                |Moved(old', new', nodes[k].path)| <= PATH_CAPACITY
  {
    forall k: nat | k < |nodes| && nodes[k].occupied
      ensures nodes[i].kind == Directory ==>
                (FitsAt(nodes[k], old', new') <==> |Moved(old', new', nodes[k].path)| <= PATH_CAPACITY)
      ensures nodes[i].kind != Directory ==> |Moved(old', new', nodes[k].path)| <= PATH_CAPACITY
    {
      assert NodeOk(nodes[k]);
      if nodes[i].kind == File && Named(nodes[k]) { NothingUnderFile(nodes, old', i, k); }
    }
  }

  lemma ShiftedIsRenamed(nodes: Nodes, nodes': Nodes, old': Path, new': Path, i: nat)
    requires Tree(nodes) && Canonical(old') && old' != ROOT && i < |nodes| && Matches(nodes[i], old')
    requires |nodes'| == |nodes| && forall k {:trigger nodes'[k]} :: 0 <= k < |nodes| ==>
               nodes'[k] == Shifted(nodes[k], old', new', nodes[i].kind == Directory)
    ensures Renamed(nodes, nodes', old', new')
  {
    forall k: nat | k < |nodes| ensures nodes'[k] == MovedNode(nodes[k], old', new') {
      assert NodeOk(nodes[k]);
      assert new' + old'[|old'|..] == new';
      if nodes[i].kind == File && Named(nodes[k]) { NothingUnderFile(nodes, old', i, k); }
    }
  }

  lemma RenameKeepsFiles(nodes: Nodes, nodes': Nodes, generations: seq<nat>, births: seq<nat>, files: seq<OpenFile>,
                         targets: seq<nat>, next: nat, old': Path, new': Path)
    requires Renamed(nodes, nodes', old', new') && old' != [] && new' != []
    requires FilesOk(nodes, generations, births, files, targets) && NoLeaks(nodes, generations, files) &&
             Distinct(nodes, births, next)
    ensures FilesOk(nodes', generations, births, files, targets) && NoLeaks(nodes', generations, files) &&
            Distinct(nodes', births, next)
  {
  }

  lemma RenameKeeps(nodes: Nodes, nodes': Nodes, generations: seq<nat>, births: seq<nat>, files: seq<OpenFile>,
                    targets: seq<nat>, next: nat, old': Path, new': Path, i: nat)
    requires Tree(nodes) && Accepts(nodes, old', new') && i < |nodes| && Matches(nodes[i], old')
    requires |nodes'| == |nodes| && forall k {:trigger nodes'[k]} :: 0 <= k < |nodes| ==>
               nodes'[k] == Shifted(nodes[k], old', new', nodes[i].kind == Directory)
    requires FilesOk(nodes, generations, births, files, targets) && NoLeaks(nodes, generations, files) &&
             Distinct(nodes, births, next)
    ensures Renamed(nodes, nodes', old', new') && Tree(nodes')
    ensures FilesOk(nodes', generations, births, files, targets) && NoLeaks(nodes', generations, files) &&
            Distinct(nodes', births, next)
  {
    ShiftedIsRenamed(nodes, nodes', old', new', i);
    RenameKeepsTree(nodes, nodes', old', new');
    RenameKeepsFiles(nodes, nodes', generations, births, files, targets, next, old', new');
  }

  /** Why the path of node `i`, if there is one, cannot be removed; `Full` means that its generations are used up. */
  ghost function RemoveRefusal(nodes: Nodes, generations: seq<nat>, files: seq<OpenFile>, disk: Disk, path: Path,
                               i: nat): Option<Error> {
    if !Canonical(path) then Some(InvalidPath)
    else if !Exists(nodes, path) then Some(NotFound)
    else if path == ROOT then Some(ReadOnly)
    else if IsDir(nodes, path) && !Childless(nodes, path) then Some(NotEmpty)
    else if InUse(files, i) then if i < |nodes| && Materialized(nodes[i], disk).None? then Some(Io) else None
    else if i < |generations| && generations[i] >= MAX_GENERATION then Some(Full)
    else None
  }

  ghost predicate RemoveAnswers(nodes: Nodes, generations: seq<nat>, files: seq<OpenFile>, disk: Disk, path: Path,
                                i: nat, r: Result<()>) {
    var refusal := RemoveRefusal(nodes, generations, files, disk, path, i);
    if r.Ok? then refusal.None? else refusal == Some(r.error)
  }

  lemma UnlinkedIsTree(nodes: Nodes, i: nat, n: Node)
    requires Tree(nodes) && i < |nodes| && Named(nodes[i]) && nodes[i].kind == File && NodeOk(n) && !Named(n)
    ensures Tree(nodes[i := n])
  {
    OneNode(nodes, i, nodes[i].path);
    NameRemoved(nodes, i, n);
  }

  function Freed(n: Node, writable: bool): Node {
    Node([], [], 0, None, writable, n.kind, false)
  }

  lemma UnnamedFreed(nodes: Nodes, i: nat, writable: bool)
    requires Tree(nodes) && i < |nodes| && !Named(nodes[i])
    ensures Tree(nodes[i := Freed(nodes[i], writable)])
  {
    var n := Freed(nodes[i], writable);
    forall path | IsDir(nodes, path) && path != [] ensures IsDir(nodes[i := n], path) {
      DirStays(nodes, i, n, path);
    }
    forall k | 0 <= k < |nodes| && Named(nodes[k]) && nodes[k].path != ROOT
        ensures IsDir(nodes[i := n], Parent(nodes[k].path)) {
      assert Housed(nodes, k);
      ParentIsCanonical(nodes[k].path);
    }
  }

  lemma FreedIsTree(nodes: Nodes, i: nat, writable: bool)
    requires Tree(nodes) && i < |nodes| && nodes[i].occupied && nodes[i].path != ROOT
    requires nodes[i].kind == Directory ==> Childless(nodes, nodes[i].path)
    ensures Tree(nodes[i := Freed(nodes[i], writable)])
  {
    if Named(nodes[i]) { NameRemoved(nodes, i, Freed(nodes[i], writable)); } else { UnnamedFreed(nodes, i, writable); }
  }

  lemma RootIsDir(nodes: Nodes, i: nat)
    requires Tree(nodes) && i < |nodes|
    ensures Matches(nodes[i], ROOT) ==> nodes[i].kind == Directory
  {
    if Matches(nodes[i], ROOT) { OneNode(nodes, i, ROOT); }
  }

  lemma NotOpen(nodes: Nodes, generations: seq<nat>, births: seq<nat>, files: seq<OpenFile>, targets: seq<nat>, i: nat)
    requires FilesOk(nodes, generations, births, files, targets) && i < |nodes|
    ensures nodes[i].kind == Directory ==> !InUse(files, i)
  {
    if nodes[i].kind == Directory {
      forall f | 0 <= f < |files| ensures !Uses(files, f, i) { }
    }
  }

  /** A directory is not open, the root is a directory, and there is one node to the path. */
  lemma BeforeRemove(nodes: Nodes, generations: seq<nat>, births: seq<nat>, files: seq<OpenFile>, targets: seq<nat>,
                     i: nat, path: Path)
    requires Tree(nodes) && FilesOk(nodes, generations, births, files, targets) && i < |nodes| &&
             Matches(nodes[i], path) && path != []
    ensures Exists(nodes, path) && (nodes[i].kind == Directory <==> IsDir(nodes, path))
    ensures (path == ROOT ==> nodes[i].kind == Directory) && (nodes[i].kind == Directory ==> !InUse(files, i))
  {
    OneNode(nodes, i, path);
    RootIsDir(nodes, i);
    NotOpen(nodes, generations, births, files, targets, i);
  }

  /** Either the node is free again, or it lost its name but not its bytes, because it is open. */
  ghost predicate Removed(nodes: Nodes, nodes': Nodes, generations: seq<nat>, generations': seq<nat>,
                          files: seq<OpenFile>, disk: Disk, path: Path, i: nat) {
    && i < |nodes| == |generations| && Matches(nodes[i], path)
    && if InUse(files, i) then
         && Materialized(nodes[i], disk).Some? && generations' == generations
         && nodes' == nodes[i := Materialized(nodes[i], disk).value.(path := [])]
       else nodes' == nodes[i := Freed(nodes[i], false)] && generations' == generations[i := generations[i] + 1]
  }

  lemma FreedKeeps(nodes: Nodes, generations: seq<nat>, births: seq<nat>, files: seq<OpenFile>, targets: seq<nat>,
                   i: nat, next: nat, writable: bool)
    requires FilesOk(nodes, generations, births, files, targets) && NoLeaksBut(nodes, generations, files, i) &&
             Distinct(nodes, births, next)
    requires i < |nodes| && !InUse(files, i)
    ensures var nodes' := nodes[i := Freed(nodes[i], writable)];
            var generations' := generations[i := generations[i] + 1];
            FilesOk(nodes', generations', births, files, targets) && NoLeaks(nodes', generations', files) &&
            Distinct(nodes', births, next)
  {
    forall f | 0 <= f < |files| && files[f].occupied ensures files[f].node != i { assert !Uses(files, f, i); }
  }

  /** Node `i` was free and is now `n`, a file never seen before. */
  ghost predicate Created(nodes: Nodes, nodes': Nodes, births: seq<nat>, births': seq<nat>, next: nat, i: nat,
                          n: Node) {
    i < |nodes| == |births| && !nodes[i].occupied && nodes' == nodes[i := n] && births' == births[i := next]
  }

  lemma RootExists(nodes: Nodes)
    requires Tree(nodes)
    ensures Exists(nodes, ROOT)
  {
    var k :| 0 <= k < |nodes| && DirAt(nodes, k, ROOT);
    assert Matches(nodes[k], ROOT);
  }

  class Vfs {
    var nodes: Nodes
    var generations: seq<nat>
    var files: seq<OpenFile>
    ghost var births: seq<nat>
    ghost var targets: seq<nat>
    ghost var nextBirth: nat
    /** The files whose bytes were written, in order. */
    ghost var written: seq<nat>

    ghost predicate Valid()
      reads this
    {
      && |nodes| == MAX_NODES && |files| == MAX_OPEN_FILES
      && Tree(nodes) && FilesOk(nodes, generations, births, files, targets)
      && NoLeaks(nodes, generations, files) && Distinct(nodes, births, nextBirth)
    }

    /** Only the root directory. */
    constructor ()
      ensures Valid() && written == [] && nodes[0] == Node(ROOT, [], 0, None, true, Directory, true)
      ensures forall i :: 1 <= i < MAX_NODES ==> !nodes[i].occupied
      ensures forall f :: 0 <= f < MAX_OPEN_FILES ==> !files[f].occupied
    {
      nodes := seq(MAX_NODES, i => if i == 0 then Node(ROOT, [], 0, None, true, Directory, true) else EMPTY_NODE);
      generations, births, nextBirth := seq(MAX_NODES, _ => 0), seq(MAX_NODES, i => i), MAX_NODES;
      files, targets, written := seq(MAX_OPEN_FILES, _ => CLOSED), seq(MAX_OPEN_FILES, _ => 0), [];
      new;
      assert DirAt(nodes, 0, ROOT);
    }

    ghost predicate ValidBut(i: nat)
      reads this
    {
      && |nodes| == MAX_NODES && |files| == MAX_OPEN_FILES
      && Tree(nodes) && FilesOk(nodes, generations, births, files, targets)
      && NoLeaksBut(nodes, generations, files, i) && Distinct(nodes, births, nextBirth)
    }

    // --------------------------------------------------------- searching

    method FindNode(path: Path) returns (r: Option<nat>)
      ensures r.Some? ==> r.value < |nodes| && Matches(nodes[r.value], path)
      ensures r.None? ==> !Exists(nodes, path)
    {
      var i := 0;
      while i < |nodes|
        invariant 0 <= i <= |nodes|
        invariant forall k :: 0 <= k < i ==> !Matches(nodes[k], path)
      {
        if Matches(nodes[i], path) { return Some(i); }
        i := i + 1;
      }
      return None;
    }

    method HasDirectory(path: Path) returns (found: bool)
      ensures found <==> IsDir(nodes, path)
    {
      var i := 0;
      while i < |nodes|
        invariant 0 <= i <= |nodes|
        invariant forall k :: 0 <= k < i ==> !DirAt(nodes, k, path)
      {
        if Matches(nodes[i], path) && nodes[i].kind == Directory {
          assert DirAt(nodes, i, path);
          return true;
        }
        i := i + 1;
      }
      return false;
    }

    method FreeNode() returns (r: Option<nat>)
      ensures r.Some? ==> r.value < |nodes| && !nodes[r.value].occupied
      ensures r.None? ==> forall k :: 0 <= k < |nodes| ==> nodes[k].occupied
    {
      var i := 0;
      while i < |nodes|
        invariant 0 <= i <= |nodes|
        invariant forall k :: 0 <= k < i ==> nodes[k].occupied
      {
        if !nodes[i].occupied { return Some(i); }
        i := i + 1;
      }
      return None;
    }

    method IsOpen(i: nat) returns (found: bool)
      ensures found <==> InUse(files, i)
    {
      var f := 0;
      while f < |files|
        invariant 0 <= f <= |files|
        invariant forall k :: 0 <= k < f ==> !Uses(files, k, i)
      {
        if files[f].occupied && files[f].node == i {
          assert Uses(files, f, i);
          return true;
        }
        f := f + 1;
      }
      return false;
    }

    // ---------------------------------------------------------- creating

    /** Where a new node may go, or why it may not. */
    method Place(path: Path) returns (r: Result<nat>)
      requires Valid()
      ensures r.Ok? <==> MayCreate(nodes, path)
      ensures r.Ok? ==> r.value < |nodes| && !nodes[r.value].occupied
      ensures r.Err? ==> r.error == Refusal(nodes, path)
    {
      if !Canonical(path) { return Err(InvalidPath); }
      var there := FindNode(path);
      if there.Some? { return Err(AlreadyExists); }
      RootExists(nodes);
      CanonicalHasParent(path);
      var found := HasDirectory(ParentPath(path).value);
      if !found { return Err(NotFound); }
      var i := FreeNode();
      if i.None? { return Err(Full); }
      return Ok(i.value);
    }

    /** A new file or directory in a free node. */
    method AddNode(i: nat, n: Node)
      requires Valid() && i < MAX_NODES && !nodes[i].occupied && NodeOk(n) && Named(n) && n.path != ROOT
      requires !Exists(nodes, n.path) && IsDir(nodes, Parent(n.path))
      modifies this`nodes, this`births, this`nextBirth
      ensures Valid() && nodes == old(nodes)[i := n] && births == old(births)[i := old(nextBirth)] &&
              nextBirth == old(nextBirth) + 1
    {
      NodeAdded(nodes, i, n);
      nodes, births, nextBirth := nodes[i := n], births[i := nextBirth], nextBirth + 1;
    }

    method Insert(path: Path, data: seq<Byte>, writable: bool) returns (r: Result<nat>)
      requires Valid()
      modifies this`nodes, this`births, this`nextBirth
      ensures Valid()
      ensures r.Ok? <==> MayCreate(old(nodes), path) && |data| <= NODE_CAPACITY
      ensures r.Ok? ==>
                Created(old(nodes), nodes, old(births), births, old(nextBirth), r.value,
                Node(path, data, |data|, None, writable, File, true))
      ensures r.Err? ==> nodes == old(nodes) && births == old(births)
      ensures r.Err? ==>
                r.error == if !Canonical(path) then InvalidPath else if |data| > NODE_CAPACITY then Full
                else Refusal(nodes, path)
    {
      if !Canonical(path) { return Err(InvalidPath); }
      if |data| > NODE_CAPACITY { return Err(Full); }
      r := Place(path);
      if r.Ok? { AddNode(r.value, Node(path, data, |data|, None, writable, File, true)); }
    }

    /** A file of the mounted disk: its bytes stay there until they are needed. */
    method CreateDiskFile(path: Path, length: nat, writable: bool) returns (r: Result<nat>)
      requires Valid()
      modifies this`nodes, this`births, this`nextBirth
      ensures Valid()
      ensures r.Ok? <==> MayCreate(old(nodes), path) && length <= NODE_CAPACITY
      ensures r.Ok? ==>
                Created(old(nodes), nodes, old(births), births, old(nextBirth), r.value,
                Node(path, [], length, Some(path), writable, File, true))
      ensures r.Err? ==>
                nodes == old(nodes) && births == old(births) && r.error == if length > NODE_CAPACITY then Full
                else Refusal(nodes, path)
    {
      if length > NODE_CAPACITY { return Err(Full); }
      r := Place(path);
      if r.Ok? { AddNode(r.value, Node(path, [], length, Some(path), writable, File, true)); }
    }

    method Mkdir(path: Path) returns (r: Result<nat>)
      requires Valid()
      modifies this`nodes, this`births, this`nextBirth
      ensures Valid()
      ensures r.Ok? <==> MayCreate(old(nodes), path)
      ensures r.Ok? ==>
                Created(old(nodes), nodes, old(births), births, old(nextBirth), r.value,
                Node(path, [], 0, None, true, Directory, true))
      ensures r.Err? ==> nodes == old(nodes) && births == old(births) && r.error == Refusal(nodes, path)
    {
      r := Place(path);
      if r.Ok? { AddNode(r.value, Node(path, [], 0, None, true, Directory, true)); }
    }

    // ---------------------------------------------------------- removing

    method HasChild(dir: Path) returns (found: bool)
      ensures found <==> !Childless(nodes, dir)
    {
      var k := 0;
      while k < |nodes|
        invariant 0 <= k <= |nodes|
        invariant forall j {:trigger nodes[j]} :: 0 <= j < k && nodes[j].occupied ==>
                    ImmediateChildName(dir, nodes[j].path).None?
      {
        if nodes[k].occupied && ImmediateChildName(dir, nodes[k].path).Some? { return true; }
        k := k + 1;
      }
      return false;
    }

    method RemovableIndex(path: Path) returns (r: Result<nat>)
      requires Tree(nodes)
      ensures r.Ok? <==>
                path != ROOT && Exists(nodes, path) && Canonical(path) &&
                (IsDir(nodes, path) ==> Childless(nodes, path))
      ensures r.Ok? ==> r.value < |nodes| && Matches(nodes[r.value], path)
      ensures r.Err? ==> r.error == if !Canonical(path) then InvalidPath else if path == ROOT then ReadOnly
                                    else if !Exists(nodes, path) then NotFound else NotEmpty
    {
      if !Canonical(path) { return Err(InvalidPath); }
      if path == ROOT { return Err(ReadOnly); }
      var index := FindNode(path);
      if index.None? { return Err(NotFound); }
      OneNode(nodes, index.value, path);
      if nodes[index.value].kind == Directory {
        var child := HasChild(path);
        if child { return Err(NotEmpty); }
      }
      return Ok(index.value);
    }

    /** The node becomes free for another file, under a new generation. */
    method FreeAt(i: nat, writable: bool) returns (ok: bool)
      requires ValidBut(i) && i < MAX_NODES && nodes[i].occupied && nodes[i].path != ROOT && !InUse(files, i)
      requires nodes[i].kind == Directory ==> Childless(nodes, nodes[i].path)
      modifies this`nodes, this`generations
      ensures (ok <==> old(generations)[i] < MAX_GENERATION) && Valid()
      ensures ok ==>
                nodes == old(nodes)[i := Freed(old(nodes)[i], writable)] &&
                generations == old(generations)[i := old(generations)[i] + 1]
      ensures !ok ==> nodes == old(nodes) && generations == old(generations)
    {
      ok := generations[i] < MAX_GENERATION;
      if ok {
        FreedIsTree(nodes, i, writable);
        FreedKeeps(nodes, generations, births, files, targets, i, nextBirth, writable);
        nodes, generations := nodes[i := Freed(nodes[i], writable)], generations[i := generations[i] + 1];
      }
    }

    /** Another node in place of one, with the same name or none. */
    method Rewrite(i: nat, n: Node)
      requires Valid() && i < MAX_NODES && Tree(nodes[i := n])
      requires n.occupied == nodes[i].occupied && n.kind == nodes[i].kind
      requires n.occupied && n.path == [] && nodes[i].path != [] ==> InUse(files, i)
      modifies this`nodes
      ensures Valid() && nodes == old(nodes)[i := n]
    {
      nodes := nodes[i := n];
    }

    /** An open file loses its name and keeps its bytes. */
    method Unlink(i: nat, path: Path, disk: Disk) returns (r: Result<()>)
      requires Valid() && i < MAX_NODES && Matches(nodes[i], path) && Canonical(path) && nodes[i].kind == File &&
               InUse(files, i)
      modifies this`nodes
      ensures Valid()
      ensures r.Ok? ==>
                path != ROOT && !IsDir(old(nodes), path) &&
                Removed(old(nodes), nodes, generations, generations, files, disk, path, i)
      ensures r.Err? ==> nodes == old(nodes)
      ensures RemoveAnswers(old(nodes), generations, files, disk, path, i, r)
    {
      BeforeRemove(nodes, generations, births, files, targets, i, path);
      var n := Materialized(nodes[i], disk);
      if n.None? { return Err(Io); }
      UnlinkedIsTree(nodes, i, n.value.(path := []));
      Rewrite(i, n.value.(path := []));
      r := Ok(());
    }

    /** `Registry::remove`, for a node that no description uses. */
    method RemoveNode(i: nat, path: Path, disk: Disk) returns (r: Result<()>)
      requires Valid() && i < MAX_NODES && Matches(nodes[i], path) && Canonical(path) && !InUse(files, i)
      modifies this`nodes, this`generations
      ensures Valid()
      ensures r.Ok? ==> Removed(old(nodes), nodes, old(generations), generations, files, disk, path, i)
      ensures r.Ok? ==> path != ROOT && (IsDir(old(nodes), path) ==> Childless(old(nodes), path))
      ensures r.Err? ==> nodes == old(nodes) && generations == old(generations)
      ensures RemoveAnswers(old(nodes), old(generations), files, disk, path, i, r)
    {
      var index := RemovableIndex(path);
      assert Exists(nodes, path) && (IsDir(nodes, path) <==> nodes[i].kind == Directory) by { OneNode(nodes, i, path); }
      if index.Err? {
        r := Err(index.error);
      } else {
        var ok := FreeAt(i, false);
        r := if ok then Ok(()) else Err(Full);
      }
    }

    /** Remove a file or an empty directory. An open file only loses its name, and keeps its bytes. */
    method Remove(path: Path, disk: Disk) returns (r: Result<()>, ghost i: nat)
      requires Valid()
      modifies this`nodes, this`generations
      ensures Valid()
      ensures r.Ok? ==> Removed(old(nodes), nodes, old(generations), generations, files, disk, path, i)
      ensures r.Ok? ==> path != ROOT && (IsDir(old(nodes), path) ==> Childless(old(nodes), path))
      ensures r.Err? ==> nodes == old(nodes) && generations == old(generations)
      ensures RemoveAnswers(old(nodes), old(generations), files, disk, path, i, r)
      ensures Canonical(path) && Exists(old(nodes), path) ==> i < MAX_NODES && Matches(old(nodes)[i], path)
    {
      i := 0;
      if !Canonical(path) { return Err(InvalidPath), i; }
      var found := FindNode(path);
      if found.None? { return Err(NotFound), i; }
      var index := found.value;
      i := index;
      NotOpen(nodes, generations, births, files, targets, i);
      var used := IsOpen(index);
      if nodes[index].kind == File && used {
        r := Unlink(index, path, disk);
      } else {
        r := RemoveNode(index, path, disk);
      }
    }

    // ---------------------------------------------------------- renaming

    /** Every path that would result fits. */
    method Fits(old': Path, new': Path, directory: bool) returns (ok: bool)
      ensures ok <==> !directory || forall i :: 0 <= i < |nodes| && nodes[i].occupied ==> FitsAt(nodes[i], old', new')
    {
      var i := 0;
      while i < |nodes|
        invariant 0 <= i <= |nodes|
        invariant directory ==> forall k :: 0 <= k < i && nodes[k].occupied ==> FitsAt(nodes[k], old', new')
      {
        if directory && nodes[i].occupied && !FitsAt(nodes[i], old', new') { return false; }
        i := i + 1;
      }
      return true;
    }

    /** The last checks of `validate_rename`: the new parent is a directory, and every path fits. */
    method CheckPlaces(old': Path, new': Path, i: nat) returns (r: Result<()>)
      requires Tree(nodes) && Canonical(old') && Canonical(new') && old' != ROOT && new' != ROOT && old' != new'
      requires i < |nodes| && Matches(nodes[i], old') && !Exists(nodes, new') && !Under(old', new')
      ensures r.Ok? <==> Accepts(nodes, old', new')
      ensures r.Err? ==> r.error == if IsDir(nodes, Parent(new')) then InvalidPath else NotFound
    {
      CanonicalHasParent(new');
      var parent := HasDirectory(ParentPath(new').value);
      if !parent { return Err(NotFound); }
      var fits := Fits(old', new', nodes[i].kind == Directory);
      FitsMeans(nodes, old', new', i, fits);
      r := if fits then Ok(()) else Err(InvalidPath);
    }

    method ValidateRename(old': Path, new': Path) returns (r: Result<()>)
      requires Tree(nodes)
      ensures r.Ok? <==>
                (old' == new' && Canonical(old') && old' != ROOT && Exists(nodes, old')) || Accepts(nodes, old', new')
      ensures r.Err? ==> r.error == RenameRefusal(nodes, old', new')
    {
      if !Canonical(old') || !Canonical(new') { return Err(InvalidPath); }
      if old' == ROOT || new' == ROOT { return Err(ReadOnly); }
      var index := FindNode(old');
      if index.None? { return Err(NotFound); }
      if old' == new' { return Ok(()); }
      var there := FindNode(new');
      if there.Some? { return Err(AlreadyExists); }
      if DescendantSuffix(old', new').Some? { return Err(InvalidPath); }
      r := CheckPlaces(old', new', index.value);
    }

    /** The loop that renames: nodes keep their indices, so open descriptions keep their files. */
    method MoveAll(old': Path, new': Path, directory: bool)
      modifies this`nodes
      ensures |nodes| == old(|nodes|)
      ensures forall k {:trigger nodes[k]} :: 0 <= k < |nodes| ==>
                nodes[k] == Shifted(old(nodes)[k], old', new', directory)
    {
      var i := 0;
      while i < |nodes|
        invariant 0 <= i <= |nodes| == old(|nodes|)
        invariant forall k {:trigger nodes[k]} :: 0 <= k < |nodes| ==>
          nodes[k] == if k < i then Shifted(old(nodes)[k], old', new', directory) else old(nodes)[k]
      {
        nodes := nodes[i := Shifted(nodes[i], old', new', directory)];
        i := i + 1;
      }
    }

    /** An accepted rename moves the whole subtree; anything else changes nothing. */
    method Rename(old': Path, new': Path) returns (r: Result<()>)
      requires Valid()
      modifies this`nodes
      ensures Valid()
      ensures r.Ok? <==>
                (old' == new' && Canonical(old') && old' != ROOT && Exists(old(nodes), old')) ||
                Accepts(old(nodes), old', new')
      ensures r.Ok? && old' != new' ==> Renamed(old(nodes), nodes, old', new')
      ensures r.Err? || old' == new' ==> nodes == old(nodes)
      ensures r.Err? ==> r.error == RenameRefusal(nodes, old', new')
    {
      r := ValidateRename(old', new');
      if r.Err? || old' == new' { return; }
      var index := FindNode(old');
      ghost var before := nodes;
      MoveAll(old', new', nodes[index.value].kind == Directory);
      RenameKeeps(before, nodes, generations, births, files, targets, nextBirth, old', new', index.value);
    }

    // -------------------------------------------------------- open files

    method FreeDescription() returns (r: Option<nat>)
      ensures r.Some? ==> r.value < |files| && !files[r.value].occupied
      ensures r.None? ==> forall k :: 0 <= k < |files| ==> files[k].occupied
    {
      var i := 0;
      while i < |files|
        invariant 0 <= i <= |files|
        invariant forall k :: 0 <= k < i ==> files[k].occupied
      {
        if !files[i].occupied { return Some(i); }
        i := i + 1;
      }
      return None;
    }

    method FindFile(path: Path) returns (r: Option<nat>)
      ensures r.Some? ==> r.value < |nodes| && Matches(nodes[r.value], path) && nodes[r.value].kind == File
      ensures r.None? ==> forall k :: 0 <= k < |nodes| ==> !(Matches(nodes[k], path) && nodes[k].kind == File)
    {
      var i := 0;
      while i < |nodes|
        invariant 0 <= i <= |nodes|
        invariant forall k :: 0 <= k < i ==> !(Matches(nodes[k], path) && nodes[k].kind == File)
      {
        if Matches(nodes[i], path) && nodes[i].kind == File { return Some(i); }
        i := i + 1;
      }
      return None;
    }

    ghost predicate OpensAt(f: nat, path: Path, i: nat, before: seq<OpenFile>, targetsBefore: seq<nat>)
      reads this
    {
      && f < |before| && f < |targetsBefore| && i < |nodes| && i < |generations| && i < |births| &&
         Matches(nodes[i], path) && nodes[i].kind == File
      && files == before[f := OpenFile(i, generations[i], 0, 1, true)] && targets == targetsBefore[f := births[i]]
    }

    /** A new description of the file at a path. */
    method Open(path: Path) returns (r: Result<nat>)
      requires Valid()
      modifies this`files, this`targets
      ensures Valid()
      ensures r.Ok? ==>
                && r.value < MAX_OPEN_FILES && !old(files)[r.value].occupied
                && exists i: nat :: i < MAX_NODES && OpensAt(r.value, path, i, old(files), old(targets))
      ensures r.Err? ==> files == old(files) && targets == old(targets)
      ensures r.Err? ==>
                r.error == if !Canonical(path) then InvalidPath
                else if !Exists(nodes, path) || IsDir(nodes, path) then NotFound else Full
    {
      if !Canonical(path) { return Err(InvalidPath); }
      var node := FindFile(path);
      if node.None? {
        AllDirs(nodes, path);
        return Err(NotFound);
      }
      var i := node.value;
      OneNode(nodes, i, path);
      var slot := FreeDescription();
      if slot.None? { return Err(Full); }
      var f := slot.value;
      UseAdded(files, f, OpenFile(i, generations[i], 0, 1, true));
      files, targets := files[f := OpenFile(i, generations[i], 0, 1, true)], targets[f := births[i]];
      assert OpensAt(f, path, i, old(files), old(targets));
      return Ok(f);
    }

    /** One more reference to a description, which stays shared. */
    method CloneOpenFile(id: nat) returns (r: Result<nat>)
      requires Valid()
      modifies this`files
      ensures Valid()
      ensures r == if !IsLive(old(files), id) then Err(InvalidDescriptor)
              else if old(files)[id].refcount >= MAX_REFCOUNT then Err(Full) else Ok(id)
      ensures files == if r.Ok? then old(files)[id := old(files)[id].(refcount := old(files)[id].refcount + 1)]
              else old(files)
    {
      if id >= |files| || !files[id].occupied || files[id].refcount == 0 { return Err(InvalidDescriptor); }
      if files[id].refcount >= MAX_REFCOUNT { return Err(Full); }
      UseKept(files, id, files[id].(refcount := files[id].refcount + 1));
      files := files[id := files[id].(refcount := files[id].refcount + 1)];
      return Ok(id);
    }

    /** One reference less. With the last reference to a file without a name its node becomes free, and not before. */
    method CloseOpenFile(id: nat) returns (r: Result<()>)
      requires Valid()
      modifies this`files, this`nodes, this`generations
      ensures Valid()
      ensures !IsLive(old(files), id) ==>
                r == Err(InvalidDescriptor) && files == old(files) && nodes == old(nodes) &&
                generations == old(generations)
      ensures IsLive(old(files), id) ==>
        var i := old(files)[id].node;
        && files == old(files)[id := Dropped(old(files)[id])]
        && if InUse(files, i) || old(nodes)[i].path != []
           then r.Ok? && nodes == old(nodes) && generations == old(generations)
           else if old(generations)[i] < MAX_GENERATION then
             r.Ok? && nodes == old(nodes)[i := Freed(old(nodes)[i], old(nodes)[i].writable)] &&
             generations == old(generations)[i := old(generations)[i] + 1]
           else r == Err(Full) && nodes == old(nodes) && generations == old(generations)
    {
      if id >= |files| || !files[id].occupied || files[id].refcount == 0 { return Err(InvalidDescriptor); }
      var i := files[id].node;
      DropKeeps(nodes, generations, files, id);
      files := files[id := Dropped(files[id])];
      assert ValidBut(i);
      var used := IsOpen(i);
      r := Ok(());
      if !used && nodes[i].occupied && nodes[i].path == [] {
        var ok := FreeAt(i, nodes[i].writable);
        if !ok { r := Err(Full); }
      }
    }

    // ------------------------------------------------- reading and writing

    method SetOffset(id: nat, offset: nat)
      requires Valid() && IsLive(files, id)
      modifies this`files
      ensures Valid() && files == old(files)[id := old(files)[id].(offset := offset)]
    {
      UseKept(files, id, files[id].(offset := offset));
      files := files[id := files[id].(offset := offset)];
    }

    /** Bytes of the very file that was opened. */
    method FetchAt(id: nat, position: Option<nat>, room: nat, generation: Option<nat>, disk: Disk)
      returns (r: Result<seq<Byte>>)
      requires Tree(nodes) && FilesOk(nodes, generations, births, files, targets)
      ensures Answers(nodes, files, id, position, room, generation, disk, r)
    {
      if id >= |files| || !files[id].occupied || files[id].refcount == 0 { return Err(InvalidDescriptor); }
      var entry := files[id];
      if generation.Some? && generations[entry.node] != generation.value { return Err(InvalidDescriptor); }
      r := Fetch(nodes[entry.node], Start(entry, position), room, disk);
    }

    /** Only a read without a position moves the offset. */
    method ReadFrom(id: nat, position: Option<nat>, room: nat, generation: Option<nat>, disk: Disk)
      returns (r: Result<seq<Byte>>)
      requires Valid()
      modifies this`files
      ensures Valid()
      ensures Answers(nodes, old(files), id, position, room, generation, disk, r)
      ensures files == if r.Ok? && position.None?
              then old(files)[id := old(files)[id].(offset := old(files)[id].offset + |r.value|)] else old(files)
    {
      r := FetchAt(id, position, room, generation, disk);
      if r.Ok? && position.None? { SetOffset(id, files[id].offset + |r.value|); }
    }

    method Seek(id: nat, offset: nat) returns (r: Result<nat>)
      requires Valid()
      modifies this`files
      ensures Valid()
      ensures !IsLive(old(files), id) ==> r == Err(InvalidDescriptor) && files == old(files)
      ensures IsLive(old(files), id) ==> r.Ok? && r.value <= offset && r.value <= nodes[old(files)[id].node].length
      ensures IsLive(old(files), id) ==> r.value == offset || r.value == nodes[old(files)[id].node].length
      ensures r.Ok? ==> files == old(files)[id := old(files)[id].(offset := r.value)]
    {
      if id >= |files| || !files[id].occupied || files[id].refcount == 0 { return Err(InvalidDescriptor); }
      var max := nodes[files[id].node].length;
      var pos := if offset < max then offset else max;
      SetOffset(id, pos);
      return Ok(pos);
    }

    /** Other bytes in the same file, under the same name. */
    method Store(i: nat, n: Node)
      requires Valid() && i < MAX_NODES && NodeOk(n) && n.occupied == nodes[i].occupied && n.path == nodes[i].path &&
               n.kind == nodes[i].kind
      modifies this`nodes
      ensures Valid() && nodes == old(nodes)[i := n]
    {
      NodeRewritten(nodes, i, n);
      Rewrite(i, n);
    }

    /** The bytes that fit go into the file, and the description's offset behind them. */
    method Put(id: nat, m: Node, bytes: seq<Byte>)
      requires Valid() && IsLive(files, id) && files[id].offset <= |m.data| &&
               files[id].offset + |bytes| <= NODE_CAPACITY
      requires var n := nodes[files[id].node];
               NodeOk(m) && m.backing.None? && m.occupied && m.path == n.path && m.kind == n.kind
      modifies this`files, this`nodes, this`written
      ensures Valid() && written == old(written) + [targets[id]]
      ensures nodes == old(nodes)[old(files)[id].node := Overwritten(m, old(files)[id].offset, bytes)]
      ensures files == old(files)[id := old(files)[id].(offset := old(files)[id].offset + |bytes|)]
    {
      var entry := files[id];
      Store(entry.node, Overwritten(m, entry.offset, bytes));
      SetOffset(id, entry.offset + |bytes|);
      written := written + [targets[id]];
    }

    /** Writes at the offset of the description, to the file that was opened. What does not fit is cut off and
        reported. */
    method Write(id: nat, buffer: seq<Byte>, disk: Disk) returns (r: Result<nat>)
      requires Valid()
      modifies this`files, this`nodes, this`written
      ensures Valid()
      ensures !IsLive(old(files), id) ==>
                r == Err(InvalidDescriptor) && files == old(files) && nodes == old(nodes) && written == old(written)
      ensures IsLive(old(files), id) ==>
        WriteEffect(old(files), files, old(nodes), nodes, id, buffer, disk, r) &&
        written == old(written) + (if r.Ok? || r == Err(Full) then [targets[id]] else [])
    {
      if id >= |files| || !files[id].occupied || files[id].refcount == 0 { return Err(InvalidDescriptor); }
      var entry := files[id];
      var n := nodes[entry.node];
      if !n.writable { return Err(ReadOnly); }
      var m := Materialized(n, disk);
      if m.None? { return Err(Io); }
      assert NodeOk(n) && NodeOk(m.value);
      if entry.offset > n.length {
        Store(entry.node, m.value);
        return Err(InvalidDescriptor);
      }
      var count := Fitting(entry.offset, buffer);
      Put(id, m.value, buffer[..count]);
      r := if count < |buffer| then Err(Full) else Ok(count);
    }

    /** The bytes of a file that is there, as a whole. */
    method Replace(i: nat, data: seq<Byte>) returns (r: Result<()>)
      requires Valid() && i < MAX_NODES && Named(nodes[i]) && |data| <= NODE_CAPACITY
      modifies this`nodes, this`written
      ensures Valid()
      ensures r == if nodes[i].kind != File then Err(AlreadyExists) else if !old(nodes)[i].writable then Err(ReadOnly)
              else Ok(())
      ensures r.Err? ==> nodes == old(nodes) && written == old(written)
      ensures r.Ok? ==>
                nodes == old(nodes)[i := old(nodes)[i].(backing := None, data := data, length := |data|)] &&
                written == old(written) + [births[i]]
    {
      var n := nodes[i];
      if n.kind != File { return Err(AlreadyExists); }
      if !n.writable { return Err(ReadOnly); }
      Store(i, n.(backing := None, data := data, length := |data|));
      written := written + [births[i]];
      return Ok(());
    }

    /** Create or replace a writable file. */
    method WriteFile(path: Path, data: seq<Byte>) returns (r: Result<()>, ghost i: nat)
      requires Valid()
      modifies this`nodes, this`births, this`nextBirth, this`written
      ensures Valid()
      ensures r.Err? ==> nodes == old(nodes) && births == old(births) && written == old(written)
      ensures r.Ok? ==>
                |data| <= NODE_CAPACITY && i < MAX_NODES &&
                WritesFile(old(nodes), nodes, old(births), births, old(nextBirth), old(written), written, path, data, i)
      ensures if r.Ok? then WriteRefusal(old(nodes), path, |data|).None?
              else WriteRefusal(old(nodes), path, |data|) == Some(r.error)
    {
      i := 0;
      if !Canonical(path) { return Err(InvalidPath), i; }
      if |data| > NODE_CAPACITY { return Err(Full), i; }
      var found := FindNode(path);
      if found.None? {
        NewRefusal(nodes, path, |data|);
        var made := Insert(path, data, true);
        i := if made.Ok? then made.value else 0;
        r := if made.Ok? then Ok(()) else Err(made.error);
      } else {
        i := found.value;
        OldRefusal(nodes, i, path, |data|);
        r := Replace(found.value, data);
      }
    }
  }
}
