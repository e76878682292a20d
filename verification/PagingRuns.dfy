/** Whole runs of page-table operations read as eager copying. */
module PagingRuns {
  import opened Bytes
  import opened CowView
  import opened Paging

  datatype Op =
    | MapRange(space: nat, start: nat, n: nat, writable: bool)
    | Fork(src: nat, dst: nat, start: nat, n: nat, writable: bool)
    | Write(key: Key, offset: nat, b: Byte, logicallyWritable: bool)
    | UnmapRange(space: nat, start: nat, n: nat)
    | CacheFile(content: seq<Byte>)
    | MapFile(key: Key, frame: nat)
    | DropFile(frame: nat)

  /** What the spaces read, and the pages in the file cache. */
  datatype Memory = Memory(view: View, files: map<nat, seq<Byte>>)

  ghost function Now(s: PagingState): Memory
    reads s
  {
    Memory(s.Seen(), s.files)
  }

  /** What an operation does to what the spaces read when nothing is ever shared
      and a fork and the mapping of a file copy every page. */
  ghost predicate EagerStep(op: Op, ok: bool, m: Memory, m': Memory) {
    var v := m.view;
    match op
    case MapRange(space, start, n, _) =>
      && m' == m.(view := m'.view)
      && if ok then Dropped(m'.view, space, start, n) == v &&
         (forall k :: InRange(k, space, start, start + n) ==> k in m'.view) else m' == m
    case Fork(src, dst, start, n, _) =>
      if ok then m' == m.(view := Copied(v, src, dst, start, n)) else m' == m
    case Write(k, offset, b, _) =>
      if ok then k in v && offset < |v[k]| && m' == m.(view := v[k := Poked(v[k], offset, b)]) else m' == m
    case UnmapRange(space, start, n) =>
      exists done :: 0 <= done <= n && m' == m.(view := Dropped(v, space, start, done)) && (ok ==> done == n)
    case CacheFile(content) =>
      if ok then exists f: nat :: f !in m.files && m' == m.(files := m.files[f := content]) else m' == m
    case MapFile(k, f) => if ok then k !in v && f in m.files && m' == m.(view := v[k := m.files[f]]) else m' == m
    case DropFile(f) => m' == m.(files := m.files - {f})
  }

  /** A fork passes the range's own write flag. */
  predicate FlagsOk(tables: map<Key, Pte>, src: nat, start: nat, n: nat, writable: bool) {
    forall p | start <= p < start + n :: Key(src, p) in tables && tables[Key(src, p)].writable ==> writable
  }

  method PerformFork(s: PagingState, op: Op, refused: nat -> bool) returns (ok: bool)
    requires s.Valid() && op.Fork?
    modifies s, s.cow, s.frames
    ensures s.Valid() && EagerStep(op, ok, old(Now(s)), Now(s))
  {
    ok := false;
    if FlagsOk(s.tables, op.src, op.start, op.n, op.writable) {
      ghost var at;
      var r;
      r, at := s.ShareUserRange(op.src, op.dst, op.start, op.n, op.writable, refused);
      ok := r == Done;
    }
  }

  method PerformMap(s: PagingState, op: Op, refused: nat -> bool) returns (ok: bool)
    requires s.Valid() && op.MapRange?
    modifies s, s.cow, s.frames
    ensures s.Valid() && EagerStep(op, ok, old(Now(s)), Now(s))
  {
    ghost var m0 := s.M();
    ghost var added;
    var r;
    r, added := s.MapUserRange(op.space, op.start, op.n, op.writable, refused);
    ok := r == Done;
    if ok { FreshPagesView(added, m0, s.cow.entries, op.space, op.start, op.n, op.writable); }
  }

  method PerformFile(s: PagingState, op: Op, refused: nat -> bool) returns (ok: bool)
    requires s.Valid() && (op.CacheFile? || op.MapFile? || op.DropFile?)
    modifies s, s.cow, s.frames
    ensures s.Valid() && EagerStep(op, ok, old(Now(s)), Now(s))
  {
    ok := false;
    match op {
      case CacheFile(content) =>
        var f := s.AllocateFileFrame(content);
        ok := f.Some?;
      case MapFile(k, f) =>
        if f in s.cached {
          ok := s.MapFileFrame(k, f, refused(0));
        }
      case DropFile(f) =>
        if f in s.cached { ok := s.ReleaseFileFrame(f); }
      case _ =>
    }
  }

  /** Any operation, whether it succeeds or fails, does what it would do eagerly. */
  method Perform(s: PagingState, op: Op, refused: nat -> bool) returns (ok: bool)
    requires s.Valid()
    modifies s, s.cow, s.frames
    ensures s.Valid() && EagerStep(op, ok, old(Now(s)), Now(s))
  {
    match op {
      case MapRange(_, _, _, _) => ok := PerformMap(s, op, refused);
      case Fork(_, _, _, _, _) => ok := PerformFork(s, op, refused);
      case Write(k, offset, b, logical) =>
        ok := false;
        if k in s.tables && offset < |PageBytes(Mem(s.tables, s.bytes, s.cached), s.tables[k].frame)| {
          ok := s.UserStore(k, offset, b, logical);
        }
      case UnmapRange(space, start, n) =>
        var r;
        ghost var done;
        r, done := s.UnmapUserRange(space, start, n);
        ok := r == Done;
      case _ => ok := PerformFile(s, op, refused);
    }
  }

  /** Copy-on-write refines eager copying over every run: from any valid state,
      whatever fails, what the address spaces read after each operation is what
      they would read had every fork copied every page. */
  method Run(s: PagingState, ops: seq<Op>, refused: nat -> bool) returns (oks: seq<bool>, ghost memories: seq<Memory>)
    requires s.Valid()
    modifies s, s.cow, s.frames
    ensures s.Valid() && |oks| == |ops| && |memories| == |ops| + 1
    ensures memories[0] == old(Now(s)) && memories[|ops|] == Now(s)
    ensures forall i :: 0 <= i < |ops| ==> EagerStep(ops[i], oks[i], memories[i], memories[i + 1])
  {
    oks, memories := [], [Now(s)];
    for i := 0 to |ops|
      invariant s.Valid() && |oks| == i && |memories| == i + 1 && memories[0] == old(Now(s)) && memories[i] == Now(s)
      invariant forall j :: 0 <= j < i ==> EagerStep(ops[j], oks[j], memories[j], memories[j + 1])
    {
      var ok := Perform(s, ops[i], refused);
      oks := oks + [ok];
      memories := memories + [Now(s)];
    }
  }

  /** The eager clone has exactly the effect the specification gives to a fork. */
  method PerformClone(s: PagingState, op: Op, refused: nat -> bool) returns (ok: bool)
    requires s.Valid() && op.Fork?
    modifies s, s.cow, s.frames
    ensures s.Valid() && (ok ==> EagerStep(op, ok, old(Now(s)), Now(s)))
  {
    var r;
    ghost var gone;
    r, gone := s.CloneUserRange(op.src, op.dst, op.start, op.n, op.writable, refused);
    ok := r == Done;
  }
}
