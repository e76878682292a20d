/** Any sequence of operations on the tree and on open files. */
module VfsRuns {
  import opened Bytes
  import opened VfsPaths
  import opened VfsFiles

  datatype Op =
    | Insert(path: Path, data: seq<Byte>, writable: bool)
    | CreateDiskFile(path: Path, length: nat, writable: bool)
    | Mkdir(path: Path)
    | Remove(path: Path, disk: Disk)
    | Rename(old': Path, new': Path)
    | WriteFile(path: Path, data: seq<Byte>)
    | Open(path: Path)
    | Clone(id: nat)
    | Close(id: nat)
    | Read(id: nat, position: Option<nat>, room: nat, generation: Option<nat>, disk: Disk)
    | Write(id: nat, buffer: seq<Byte>, disk: Disk)
    | Seek(id: nat, offset: nat)

  /** What one sees of a file through a description. */
  datatype Sight = Sight(node: nat, generation: nat, file: nat, data: seq<Byte>, inMemory: bool)

  ghost predicate IsOpen(files: seq<OpenFile>, f: nat) {
    f < |files| && files[f].occupied
  }

  ghost function See(v: Vfs, f: nat): Sight
    requires v.Valid() && IsOpen(v.files, f)
    reads v
  {
    var d := v.files[f];
    Sight(d.node, d.generation, v.targets[f], v.nodes[d.node].data, v.nodes[d.node].backing.None?)
  }

  /** The description still shows the same file, and the same bytes unless that file was written. */
  ghost predicate Same(before: Sight, after: Sight, written: bool) {
    && after.node == before.node && after.generation == before.generation && after.file == before.file
    && (before.inMemory ==> after.inMemory && (!written ==> after.data == before.data))
  }

  /** What operations leave of description `f` when at most `lost` of its references are closed. */
  twostate predicate Keeps(v: Vfs, f: nat, lost: nat)
    requires old(v.Valid()) && v.Valid()
    reads v
  {
    && old(v.written) <= v.written
    && (old(IsOpen(v.files, f)) ==>
          && IsOpen(v.files, f) && v.files[f].refcount + lost >= old(v.files[f].refcount)
          && Same(old(See(v, f)), See(v, f), old(See(v, f)).file in v.written[|old(v.written)|..]))
  }

  method PerformInsert(v: Vfs, path: Path, data: seq<Byte>, writable: bool, ghost f: nat)
    requires v.Valid()
    modifies v
    ensures v.Valid() && Keeps(v, f, 0)
  {
    var r := v.Insert(path, data, writable);
  }

  method PerformCreateDiskFile(v: Vfs, path: Path, length: nat, writable: bool, ghost f: nat)
    requires v.Valid()
    modifies v
    ensures v.Valid() && Keeps(v, f, 0)
  {
    var r := v.CreateDiskFile(path, length, writable);
  }

  method PerformMkdir(v: Vfs, path: Path, ghost f: nat)
    requires v.Valid()
    modifies v
    ensures v.Valid() && Keeps(v, f, 0)
  {
    var r := v.Mkdir(path);
  }

  method PerformRemove(v: Vfs, path: Path, disk: Disk, ghost f: nat)
    requires v.Valid()
    modifies v
    ensures v.Valid() && Keeps(v, f, 0)
  {
    ghost var i;
    var r;
    r, i := v.Remove(path, disk);
    if IsOpen(v.files, f) { assert Uses(v.files, f, v.files[f].node); }
  }

  method PerformRename(v: Vfs, old': Path, new': Path, ghost f: nat)
    requires v.Valid()
    modifies v
    ensures v.Valid() && Keeps(v, f, 0)
  {
    var r := v.Rename(old', new');
  }

  method PerformWriteFile(v: Vfs, path: Path, data: seq<Byte>, ghost f: nat)
    requires v.Valid()
    modifies v
    ensures v.Valid() && Keeps(v, f, 0)
  {
    ghost var i;
    var r;
    r, i := v.WriteFile(path, data);
  }

  method PerformOpen(v: Vfs, path: Path, ghost f: nat)
    requires v.Valid()
    modifies v
    ensures v.Valid() && Keeps(v, f, 0)
  {
    var r := v.Open(path);
  }

  method PerformClose(v: Vfs, id: nat, ghost f: nat)
    requires v.Valid()
    modifies v
    ensures v.Valid() && (id != f ==> Keeps(v, f, 0))
    ensures id == f && old(IsOpen(v.files, f) ==> v.files[f].refcount > 1) ==> Keeps(v, f, 1)
  {
    var r := v.CloseOpenFile(id);
    if IsOpen(v.files, f) { assert Uses(v.files, f, v.files[f].node); }
  }

  method PerformClone(v: Vfs, id: nat, ghost f: nat)
    requires v.Valid()
    modifies v
    ensures v.Valid() && Keeps(v, f, 0)
  {
    var r := v.CloneOpenFile(id);
  }

  method PerformRead(v: Vfs, id: nat, position: Option<nat>, room: nat, generation: Option<nat>, disk: Disk,
                     ghost f: nat)
    requires v.Valid()
    modifies v
    ensures v.Valid() && Keeps(v, f, 0)
  {
    var r := v.ReadFrom(id, position, room, generation, disk);
  }

  method PerformSeek(v: Vfs, id: nat, offset: nat, ghost f: nat)
    requires v.Valid()
    modifies v
    ensures v.Valid() && Keeps(v, f, 0)
  {
    var r := v.Seek(id, offset);
  }

  method PerformWrite(v: Vfs, id: nat, buffer: seq<Byte>, disk: Disk, ghost f: nat)
    requires v.Valid()
    modifies v
    ensures v.Valid() && Keeps(v, f, 0)
  {
    var r := v.Write(id, buffer, disk);
  }

  /** How many of the operations close description `f`. */
  ghost function Closes(ops: seq<Op>, f: nat): nat {
    if ops == [] then 0 else Closes(ops[..|ops| - 1], f) + if ops[|ops| - 1] == Close(f) then 1 else 0
  }

  method Perform(v: Vfs, op: Op, ghost f: nat)
    requires v.Valid() && (op == Close(f) && IsOpen(v.files, f) ==> v.files[f].refcount > 1)
    modifies v
    ensures v.Valid() && Keeps(v, f, Closes([op], f))
  {
    match op {
      case Remove(path, disk) => PerformRemove(v, path, disk, f);
      case Rename(old', new') => PerformRename(v, old', new', f);
      case WriteFile(path, data) => PerformWriteFile(v, path, data, f);
      case Open(path) => PerformOpen(v, path, f);
      case Close(id) => PerformClose(v, id, f);
      case Write(id, buffer, disk) => PerformWrite(v, id, buffer, disk, f);
      case Clone(id) => PerformClone(v, id, f);
      case Read(id, position, room, generation, disk) => PerformRead(v, id, position, room, generation, disk, f);
      case Seek(id, offset) => PerformSeek(v, id, offset, f);
      case Insert(path, data, writable) => PerformInsert(v, path, data, writable, f);
      case CreateDiskFile(path, length, writable) => PerformCreateDiskFile(v, path, length, writable, f);
      case Mkdir(path) => PerformMkdir(v, path, f);
    }
  }

  lemma {:induction false} ClosesGrow(ops: seq<Op>, f: nat, k: nat)
    requires k <= |ops|
    ensures Closes(ops[..k], f) <= Closes(ops, f)
  {
    if k == |ops| {
      assert ops[..k] == ops;
    } else {
      assert ops[..|ops| - 1][..k] == ops[..k];
      ClosesGrow(ops[..|ops| - 1], f, k);
    }
  }

  /** Across any sequence of creations, renames, removals, closes and re-creations, a description with a
      reference left shows the file it was opened on, with bytes that only writes to that file change. */
  method Run(v: Vfs, ops: seq<Op>, ghost f: nat)
    requires v.Valid() && IsOpen(v.files, f) && Closes(ops, f) < v.files[f].refcount
    modifies v
    ensures v.Valid() && Keeps(v, f, Closes(ops, f))
  {
    var k := 0;
    while k < |ops|
      invariant 0 <= k <= |ops| && v.Valid() && Keeps(v, f, Closes(ops[..k], f))
    {
      assert ops[..k + 1][..k] == ops[..k];
      ClosesGrow(ops, f, k + 1);
      ghost var before, log := v.written, old(v.written);
      Perform(v, ops[k], f);
      assert v.written[|log|..] == before[|log|..] + v.written[|before|..];
      k := k + 1;
    }
    assert ops[..k] == ops;
  }
}
