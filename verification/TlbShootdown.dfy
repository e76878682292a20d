/** Acknowledged TLB shootdown between CPUs, as a transition system: CPUs
    interleave freely, each atomic access is one step, and the acknowledging
    handler may interrupt a CPU anywhere, also while it spins for the lock. */
module TlbShootdown {
  import opened Bytes

  datatype Page = Page(space: nat, page: nat)
  /** What a page-table entry says of a page. */
  datatype Leaf = Leaf(frame: nat, writable: bool)
  /** A translation a TLB may hold. */
  datatype Entry = Entry(key: Page, frame: nat, writable: bool)

  function EntryOf(k: Page, l: Leaf): Entry { Entry(k, l.frame, l.writable) }

  /** The entry with the write flag the other way. */
  function Flipped(l: Leaf): Leaf { l.(writable := !l.writable) }

  /** Progress of `acknowledge_tlb`: read the generation, flush, publish it. */
  datatype Ack = NotAcking | Loaded(g: nat) | Flushed(g: nat)

  /** Where a CPU stands between changing a page-table entry and being done with it.
      `owed`: the page is still to be flushed locally (a remap follows). */
  datatype Pc =
    | Idle
    | Spinning(e: Entry, owed: bool)
    | Locked(e: Entry, owed: bool)
    | Acking(e: Entry, owed: bool, gen: nat, own: Ack)
    | Waiting(e: Entry, owed: bool, gen: nat)
    | Shot(e: Entry, owed: bool)

  datatype State = State(
    gen: nat, ack: seq<nat>, lock: Option<nat>, pc: seq<Pc>,
    pending: seq<bool>, handler: seq<Ack>,
    cr3: seq<nat>, tlb: seq<set<Entry>>, tables: map<Page, Leaf>, free: set<nat>)

  predicate Sized(s: State, n: nat) {
    n >= 1 && |s.ack| == n && |s.pc| == n && |s.pending| == n && |s.handler| == n && |s.cr3| == n && |s.tlb| == n
  }

  // ---------------------------------------------------------------- steps

  datatype Step =
    | Fill(cpu: nat, key: Page)                // the hardware walks the tables
    | SwitchSpace(cpu: nat, space: nat)        // writing CR3 flushes
    | Map(key: Page, frame: nat, writable: bool)
    | Clear(cpu: nat, key: Page, lazy: bool)   // unmap; local flush unless lazy
    | Reflag(cpu: nat, key: Page)              // the write flag is cleared or set; local flush
    | Acquire(cpu: nat)
    | Bump(cpu: nat)
    | OwnLoad(cpu: nat) | OwnFlush(cpu: nat) | OwnStore(cpu: nat)  // and send to the others
    | Interrupt(cpu: nat) | HandlerFlush(cpu: nat) | HandlerStore(cpu: nat)
    | Leave(cpu: nat)                          // every acknowledgement has arrived
    | FlushOwed(cpu: nat)
    | Free(cpu: nat)                           // the frame goes back if nothing else holds it

  predicate PendingEntry(p: Pc, e: Entry) { !p.Idle? && p.e == e }

  /** Nobody is still shooting at `e`. */
  predicate NotPending(s: State, e: Entry) {
    forall i | 0 <= i < |s.pc| :: !PendingEntry(s.pc[i], e)
  }

  predicate Mapped(s: State, e: Entry) { e.key in s.tables && s.tables[e.key] == Leaf(e.frame, e.writable) }

  /** The entry's own CPU flushes it when its space is the active one. */
  function WithoutKey(tlb: set<Entry>, k: Page): set<Entry> { set e | e in tlb && e.key != k }

  predicate FrameUnused(s: State, f: nat, except: nat) {
    && (forall k | k in s.tables :: s.tables[k].frame != f)
    && (forall i | 0 <= i < |s.pc| :: i != except ==> s.pc[i].Idle? || s.pc[i].e.frame != f)
  }

  /** The CPU's main line may take a step: no handler is running on top of it. */
  predicate Main(s: State, cpu: nat) { cpu < |s.pc| && cpu < |s.handler| && s.handler[cpu].NotAcking? }

  predicate Enabled(s: State, n: nat, step: Step)
    requires Sized(s, n)
  {
    match step
    case Fill(c, k) => c < n && k in s.tables && k.space == s.cr3[c]
    case SwitchSpace(c, _) => c < n && Main(s, c)
    case Map(k, f, w) => k !in s.tables && NotPending(s, Entry(k, f, w)) &&
        (f in s.free || exists j :: j in s.tables && s.tables[j].frame == f)
    case Clear(c, k, _) => c < n && Main(s, c) && s.pc[c].Idle? && k in s.tables &&
        NotPending(s, EntryOf(k, s.tables[k]))
    case Reflag(c, k) =>
      && c < n && Main(s, c) && s.pc[c].Idle? && k in s.tables
      && NotPending(s, EntryOf(k, s.tables[k])) && NotPending(s, EntryOf(k, Flipped(s.tables[k])))
    case Acquire(c) => c < n && Main(s, c) && s.pc[c].Spinning? && s.lock.None?
    case Bump(c) => c < n && Main(s, c) && s.pc[c].Locked?
    case OwnLoad(c) => c < n && Main(s, c) && s.pc[c].Acking? && s.pc[c].own.NotAcking?
    case OwnFlush(c) => c < n && Main(s, c) && s.pc[c].Acking? && s.pc[c].own.Loaded?
    case OwnStore(c) => c < n && Main(s, c) && s.pc[c].Acking? && s.pc[c].own.Flushed?
    case Interrupt(c) => c < n && s.pending[c] && s.handler[c].NotAcking?
    case HandlerFlush(c) => c < n && s.handler[c].Loaded?
    case HandlerStore(c) => c < n && s.handler[c].Flushed?
    case Leave(c) => c < n && Main(s, c) && s.pc[c].Waiting? && forall i | 0 <= i < n :: s.ack[i] >= s.pc[c].gen
    case FlushOwed(c) => c < n && Main(s, c) && s.pc[c].Shot? && s.pc[c].owed
    case Free(c) => c < n && Main(s, c) && s.pc[c].Shot? && !s.pc[c].owed
  }

  function Apply(s: State, n: nat, step: Step): (s': State)
    requires Sized(s, n) && Enabled(s, n, step)
    ensures Sized(s', n)
  {
    match step
    case Fill(c, k) => s.(tlb := s.tlb[c := s.tlb[c] + {EntryOf(k, s.tables[k])}])
    case SwitchSpace(c, space) => s.(cr3 := s.cr3[c := space], tlb := s.tlb[c := {}])
    case Map(k, f, w) => s.(tables := s.tables[k := Leaf(f, w)], free := s.free - {f})
    case Clear(c, k, lazy) =>
      var e := EntryOf(k, s.tables[k]);
      s.(tables := s.tables - {k},
         tlb := if lazy || k.space != s.cr3[c] then s.tlb else s.tlb[c := WithoutKey(s.tlb[c], k)],
         pc := s.pc[c := if n == 1 then Shot(e, lazy) else Spinning(e, lazy)])
    case Reflag(c, k) =>
      var e := EntryOf(k, s.tables[k]);
      s.(tables := s.tables[k := Flipped(s.tables[k])],
         tlb := if k.space != s.cr3[c] then s.tlb else s.tlb[c := WithoutKey(s.tlb[c], k)],
         pc := s.pc[c := if n == 1 then Shot(e, false) else Spinning(e, false)])
    case Acquire(c) => s.(lock := Some(c), pc := s.pc[c := Locked(s.pc[c].e, s.pc[c].owed)])
    case Bump(c) => s.(gen := s.gen + 1, pc := s.pc[c := Acking(s.pc[c].e, s.pc[c].owed, s.gen + 1, NotAcking)])
    case OwnLoad(c) => s.(pc := s.pc[c := s.pc[c].(own := Loaded(s.gen))])
    case OwnFlush(c) => s.(tlb := s.tlb[c := {}], pc := s.pc[c := s.pc[c].(own := Flushed(s.pc[c].own.g))])
    case OwnStore(c) =>
      s.(ack := s.ack[c := s.pc[c].own.g],
         pending := seq(n, i requires 0 <= i < n => s.pending[i] || i != c),
         pc := s.pc[c := Waiting(s.pc[c].e, s.pc[c].owed, s.pc[c].gen)])
    case Interrupt(c) => s.(pending := s.pending[c := false], handler := s.handler[c := Loaded(s.gen)])
    case HandlerFlush(c) => s.(tlb := s.tlb[c := {}], handler := s.handler[c := Flushed(s.handler[c].g)])
    case HandlerStore(c) => s.(ack := s.ack[c := s.handler[c].g], handler := s.handler[c := NotAcking])
    case Leave(c) => s.(lock := None, pc := s.pc[c := Shot(s.pc[c].e, s.pc[c].owed)])
    case FlushOwed(c) => s.(tlb := s.tlb[c := WithoutKey(s.tlb[c], s.pc[c].e.key)],
        pc := s.pc[c := Shot(s.pc[c].e, false)])
    case Free(c) =>
      var f := s.pc[c].e.frame;
      s.(pc := s.pc[c := Idle], free := if FrameUnused(s, f, c) then s.free + {f} else s.free)
  }

  // ----------------------------------------------------------- invariant

  predicate Holding(p: Pc) { p.Locked? || p.Acking? || p.Waiting? }

  /** The lock is held by exactly the CPU that is past `Acquire` and not past `Leave`. */
  ghost predicate LockInv(s: State, n: nat)
    requires Sized(s, n)
  {
    && (forall i {:trigger s.pc[i]} :: 0 <= i < n ==> (Holding(s.pc[i]) <==> s.lock == Some(i)))
    && (s.lock.Some? ==> s.lock.value < n)
  }

  /** Generations: nobody is ahead of `GENERATION`, and the holder's is the current one. */
  ghost predicate GenInv(s: State, n: nat)
    requires Sized(s, n)
  {
    && (forall i {:trigger s.ack[i]} :: 0 <= i < n ==> s.ack[i] <= s.gen)
    && (forall i {:trigger s.handler[i]} :: 0 <= i < n && !s.handler[i].NotAcking? ==> s.handler[i].g <= s.gen)
    && (forall i {:trigger s.pc[i]} :: 0 <= i < n && (s.pc[i].Acking? || s.pc[i].Waiting?) ==> s.pc[i].gen == s.gen)
    && (forall i {:trigger s.pc[i]} :: 0 <= i < n && s.pc[i].Acking? && !s.pc[i].own.NotAcking? ==>
       s.pc[i].own.g == s.gen)
  }

  /** Every cached translation is current, or somebody is shooting at it. */
  ghost predicate TlbInv(s: State, n: nat)
    requires Sized(s, n)
  {
    forall c, e {:trigger e in s.tlb[c]} :: 0 <= c < n && e in s.tlb[c] ==>
      e.key.space == s.cr3[c] && (Mapped(s, e) || !NotPending(s, e))
  }

  /** `c` has flushed since the generation `g` began. */
  predicate FlushedSince(s: State, n: nat, c: nat, g: nat)
    requires Sized(s, n) && c < n
  {
    || s.ack[c] >= g
    || (s.handler[c].Flushed? && s.handler[c].g >= g)
    || (s.pc[c].Acking? && s.pc[c].own.Flushed? && s.pc[c].own.g >= g)
  }

  /** What is being shot at is unmapped, is shot at once, and is gone from every TLB flushed since. */
  ghost predicate ShotInv(s: State, n: nat)
    requires Sized(s, n)
  {
    && (forall i {:trigger s.pc[i]} :: 0 <= i < n && !s.pc[i].Idle? ==> !Mapped(s, s.pc[i].e))
    && (forall i, j {:trigger s.pc[i], s.pc[j]} :: 0 <= i < j < n && !s.pc[i].Idle? && !s.pc[j].Idle? ==>
       s.pc[i].e != s.pc[j].e)
    && (forall i, c {:trigger s.pc[i], s.tlb[c]} ::
          0 <= i < n && 0 <= c < n && (s.pc[i].Acking? || s.pc[i].Waiting?) && FlushedSince(s, n, c, s.pc[i].gen) ==>
            s.pc[i].e !in s.tlb[c])
    && (forall i, c {:trigger s.pc[i], s.tlb[c]} ::
       0 <= i < n && 0 <= c < n && s.pc[i].Shot? && (n > 1 || !s.pc[i].owed) ==> s.pc[i].e !in s.tlb[c])
    && (n == 1 ==> forall i {:trigger s.pc[i]} :: 0 <= i < n ==> s.pc[i].Idle? || s.pc[i].Shot?)
  }

  /** Free frames are mapped nowhere, shot at by nobody, and in no TLB. */
  ghost predicate FreeInv(s: State, n: nat)
    requires Sized(s, n)
  {
    && (forall f, k {:trigger f in s.free, s.tables[k]} :: f in s.free && k in s.tables ==> s.tables[k].frame != f)
    && (forall f, i {:trigger f in s.free, s.pc[i]} :: f in s.free && 0 <= i < n && !s.pc[i].Idle? ==>
       s.pc[i].e.frame != f)
  }

  ghost predicate Inv(s: State, n: nat) {
    Sized(s, n) && LockInv(s, n) && GenInv(s, n) && TlbInv(s, n) && ShotInv(s, n) && FreeInv(s, n)
  }

  /** The point of it all: a frame that can be handed out again is in no TLB. */
  lemma FreeFramesAreClean(s: State, n: nat, c: nat, e: Entry)
    requires Inv(s, n) && c < n && e in s.tlb[c]
    ensures e.frame !in s.free
  {
    if !Mapped(s, e) {
      var i :| 0 <= i < |s.pc| && PendingEntry(s.pc[i], e);
      assert !s.pc[i].Idle?;
    }
  }

  // -------------------------------------------------- every step keeps it

  lemma LockKept(s: State, n: nat, step: Step)
    requires Inv(s, n) && Enabled(s, n, step)
    ensures LockInv(Apply(s, n, step), n)
  {
  }

  lemma GenKept(s: State, n: nat, step: Step)
    requires Inv(s, n) && Enabled(s, n, step)
    ensures GenInv(Apply(s, n, step), n)
  {
    var s' := Apply(s, n, step);
    if step.Bump? {
      forall i | 0 <= i < n && i != step.cpu ensures !s.pc[i].Acking? && !s.pc[i].Waiting? {
        assert Holding(s.pc[step.cpu]);
      }
    }
  }

  lemma EntryKept(s: State, n: nat, step: Step, c: nat, e: Entry)
    requires Inv(s, n) && Enabled(s, n, step) && c < n && e in Apply(s, n, step).tlb[c]
    ensures var s' := Apply(s, n, step); e.key.space == s'.cr3[c] && (Mapped(s', e) || !NotPending(s', e))
  {
    var s' := Apply(s, n, step);
    if step.Fill? && !(e in s.tlb[c]) {
      assert Mapped(s', e);
    } else {
      assert e in s.tlb[c];
      if Mapped(s, e) {
        if (step.Clear? || step.Reflag?) && step.key == e.key { assert PendingEntry(s'.pc[step.cpu], e); }
      } else {
        var i :| 0 <= i < |s.pc| && PendingEntry(s.pc[i], e);
        if !(step.Free? && step.cpu == i) {
          assert PendingEntry(s'.pc[i], e);
        }
      }
    }
  }

  lemma TlbKept(s: State, n: nat, step: Step)
    requires Inv(s, n) && Enabled(s, n, step)
    ensures TlbInv(Apply(s, n, step), n)
  {
    var s' := Apply(s, n, step);
    forall c, e | 0 <= c < n && e in s'.tlb[c]
      ensures e.key.space == s'.cr3[c] && (Mapped(s', e) || !NotPending(s', e))
    {
      EntryKept(s, n, step, c, e);
    }
  }

  lemma FreeKept(s: State, n: nat, step: Step)
    requires Inv(s, n) && Enabled(s, n, step)
    ensures FreeInv(Apply(s, n, step), n)
  {
  }

  /** What a CPU shoots at after a step it was shooting at before, or has just changed. */
  lemma ShotOrigin(s: State, n: nat, step: Step, i: nat)
    requires Inv(s, n) && Enabled(s, n, step) && i < n && !Apply(s, n, step).pc[i].Idle?
    ensures var s' := Apply(s, n, step);
            if (step.Clear? || step.Reflag?) && step.cpu == i then s'.pc[i].e == EntryOf(step.key, s.tables[step.key])
            else !s.pc[i].Idle? && s'.pc[i].e == s.pc[i].e
  {
  }

  lemma ShotApart(s: State, n: nat, step: Step)
    requires Inv(s, n) && Enabled(s, n, step)
    ensures var s' := Apply(s, n, step);
            && (forall i {:trigger s'.pc[i]} :: 0 <= i < n && !s'.pc[i].Idle? ==> !Mapped(s', s'.pc[i].e))
            && (forall i, j {:trigger s'.pc[i], s'.pc[j]} :: 0 <= i < j < n && !s'.pc[i].Idle? && !s'.pc[j].Idle? ==>
               s'.pc[i].e != s'.pc[j].e)
  {
    var s' := Apply(s, n, step);
    forall i | 0 <= i < n && !s'.pc[i].Idle? ensures !Mapped(s', s'.pc[i].e) {
      ShotOrigin(s, n, step, i);
      if step.Map? { assert !PendingEntry(s.pc[i], Entry(step.key, step.frame, step.writable)); }
      if step.Reflag? { assert !PendingEntry(s.pc[i], EntryOf(step.key, Flipped(s.tables[step.key]))); }
    }
    forall i, j | 0 <= i < j < n && !s'.pc[i].Idle? && !s'.pc[j].Idle? ensures s'.pc[i].e != s'.pc[j].e {
      ShotOrigin(s, n, step, i);
      ShotOrigin(s, n, step, j);
      if step.Clear? || step.Reflag? {
        assert !PendingEntry(s.pc[i], EntryOf(step.key, s.tables[step.key])) &&
               !PendingEntry(s.pc[j], EntryOf(step.key, s.tables[step.key]));
      }
    }
  }

  /** A CPU that counts as flushed after a step either counted before, or its TLB is empty now. */
  lemma FlushOrigin(s: State, n: nat, step: Step, c: nat, g: nat)
    requires Inv(s, n) && Enabled(s, n, step) && c < n && FlushedSince(Apply(s, n, step), n, c, g)
    ensures FlushedSince(s, n, c, g) || Apply(s, n, step).tlb[c] == {}
  {
  }

  /** Nothing enters a TLB that is being shot at. */
  lemma NoRefill(s: State, n: nat, step: Step, c: nat, e: Entry)
    requires Inv(s, n) && Enabled(s, n, step) && c < n && e !in s.tlb[c] && !Mapped(s, e)
    ensures e !in Apply(s, n, step).tlb[c]
  {
  }

  lemma ShotGone(s: State, n: nat, step: Step, i: nat, c: nat)
    requires Inv(s, n) && Enabled(s, n, step) && i < n && c < n
    requires var s' := Apply(s, n, step);
             (s'.pc[i].Acking? || s'.pc[i].Waiting?) && FlushedSince(s', n, c, s'.pc[i].gen)
    ensures Apply(s, n, step).pc[i].e !in Apply(s, n, step).tlb[c]
  {
    var s' := Apply(s, n, step);
    ShotOrigin(s, n, step, i);
    FlushOrigin(s, n, step, c, s'.pc[i].gen);
    if s'.tlb[c] != {} {
      if step.Bump? && step.cpu == i {
        assert s.ack[c] <= s.gen;
      } else {
        assert s.pc[i].Acking? || s.pc[i].Waiting?;
        NoRefill(s, n, step, c, s.pc[i].e);
      }
    }
  }

  lemma ShotStaysGone(s: State, n: nat, step: Step, i: nat, c: nat)
    requires Inv(s, n) && Enabled(s, n, step) && i < n && c < n
    requires var s' := Apply(s, n, step); s'.pc[i].Shot? && (n > 1 || !s'.pc[i].owed)
    ensures Apply(s, n, step).pc[i].e !in Apply(s, n, step).tlb[c]
  {
    var s' := Apply(s, n, step);
    ShotOrigin(s, n, step, i);
    if step.Leave? && step.cpu == i {
      assert FlushedSince(s, n, c, s.pc[i].gen);
    } else if s.pc[i].Shot? && (n > 1 || !s.pc[i].owed) {
      NoRefill(s, n, step, c, s.pc[i].e);
    }
  }

  lemma ShotKept(s: State, n: nat, step: Step)
    requires Inv(s, n) && Enabled(s, n, step)
    ensures ShotInv(Apply(s, n, step), n)
  {
    var s' := Apply(s, n, step);
    ShotApart(s, n, step);
    forall i, c | 0 <= i < n && 0 <= c < n && (s'.pc[i].Acking? || s'.pc[i].Waiting?) &&
        FlushedSince(s', n, c, s'.pc[i].gen) ensures s'.pc[i].e !in s'.tlb[c] {
      ShotGone(s, n, step, i, c);
    }
    forall i, c | 0 <= i < n && 0 <= c < n && s'.pc[i].Shot? && (n > 1 || !s'.pc[i].owed)
        ensures s'.pc[i].e !in s'.tlb[c] {
      ShotStaysGone(s, n, step, i, c);
    }
  }

  lemma StepKeepsInv(s: State, n: nat, step: Step)
    requires Inv(s, n) && Enabled(s, n, step)
    ensures Inv(Apply(s, n, step), n)
  {
    LockKept(s, n, step);
    GenKept(s, n, step);
    TlbKept(s, n, step);
    ShotKept(s, n, step);
    FreeKept(s, n, step);
  }

  // ------------------------------------------------------------ all runs

  /** `steps` lead from `s` to `s'`. */
  ghost predicate Runs(s: State, n: nat, steps: seq<Step>, s': State)
    decreases |steps|
  {
    Sized(s, n) && if steps == [] then s == s'
    else Enabled(s, n, steps[0]) && Runs(Apply(s, n, steps[0]), n, steps[1..], s')
  }

  /** Nothing is mapped, cached, shot at or acknowledged yet. */
  predicate Initial(s: State, n: nat) {
    && Sized(s, n) && s.lock.None? && s.tables == map[]
    && forall i | 0 <= i < n ::
         s.ack[i] == 0 && s.pc[i].Idle? && !s.pending[i] && s.handler[i].NotAcking? && s.tlb[i] == {}
  }

  /** Acknowledgements in progress are not behind the last one. */
  ghost predicate MonoInv(s: State, n: nat)
    requires Sized(s, n)
  {
    forall c {:trigger s.handler[c]} :: 0 <= c < n && !s.handler[c].NotAcking? ==> s.ack[c] <= s.handler[c].g
  }

  predicate Due(s: State, n: nat, c: nat, g: nat)
    requires Sized(s, n) && c < n
  {
    s.ack[c] >= g || s.pending[c] || (!s.handler[c].NotAcking? && s.handler[c].g >= g)
  }

  /** While a CPU waits, everybody has answered, is answering, or will be interrupted. */
  ghost predicate DueInv(s: State, n: nat)
    requires Sized(s, n)
  {
    forall i, c {:trigger s.pc[i], s.ack[c]} :: 0 <= i < n && 0 <= c < n && s.pc[i].Waiting? ==>
          Due(s, n, c, s.pc[i].gen)
  }

  lemma InitialInv(s: State, n: nat)
    requires Initial(s, n)
    ensures Inv(s, n) && MonoInv(s, n) && DueInv(s, n)
  {
  }

  /** In every reachable state, a frame that may be handed out again is in no TLB. */
  lemma {:induction false} SafeInEveryRun(s: State, n: nat, steps: seq<Step>, s': State)
    requires Inv(s, n) && Runs(s, n, steps, s')
    ensures Inv(s', n) && forall c, e :: 0 <= c < n && e in s'.tlb[c] ==> e.frame !in s'.free
    decreases |steps|
  {
    if steps == [] {
      forall c, e | 0 <= c < n && e in s'.tlb[c] ensures e.frame !in s'.free {
        FreeFramesAreClean(s', n, c, e);
      }
    } else {
      StepKeepsInv(s, n, steps[0]);
      SafeInEveryRun(Apply(s, n, steps[0]), n, steps[1..], s');
    }
  }

  /** When `shootdown` returns on a machine with several CPUs, the translation
      is in no TLB, and it stays out until the page is mapped there again. */
  lemma ReturnsClean(s: State, n: nat, i: nat, c: nat)
    requires Inv(s, n) && n > 1 && i < n && c < n && s.pc[i].Shot?
    ensures s.pc[i].e !in s.tlb[c] && !Mapped(s, s.pc[i].e)
  {
  }

  /** Every page on the frame is read-only, and nobody is still taking the write flag from one. */
  predicate ReadOnlyFrame(s: State, f: nat) {
    && (forall k | k in s.tables :: s.tables[k].frame == f ==> !s.tables[k].writable)
    && (forall i | 0 <= i < |s.pc| :: s.pc[i].Idle? || s.pc[i].e.frame != f || !s.pc[i].e.writable)
  }

  /** In every reachable state no CPU can store to a frame whose pages are all read-only: this is what
      copy-on-write sharing rests on once the source has lost its write flag. */
  lemma NobodyWritesSharedFrame(s: State, n: nat, steps: seq<Step>, s': State, f: nat, c: nat, e: Entry)
    requires Inv(s, n) && Runs(s, n, steps, s') && Sized(s', n) && ReadOnlyFrame(s', f) && c < n && e in s'.tlb[c] &&
             e.frame == f
    ensures !e.writable
  {
    SafeInEveryRun(s, n, steps, s');
  }

  /** Clearing the write flag and shooting leaves no writable translation anywhere: when `shootdown`
      returns, the page is in no TLB with its old flag, on any number of CPUs. */
  lemma DowngradeReturnsClean(s: State, n: nat, i: nat, c: nat, e: Entry)
    requires Inv(s, n) && i < n && c < n && s.pc[i].Shot? && !s.pc[i].owed && s.pc[i].e.writable
    requires e in s.tlb[c] && e.key == s.pc[i].e.key && e.frame == s.pc[i].e.frame
    ensures !e.writable
  {
  }

  /** The write flag is set again only by changing the entry. */
  lemma StaysReadOnly(s: State, n: nat, step: Step, f: nat)
    requires Inv(s, n) && Enabled(s, n, step) && ReadOnlyFrame(s, f)
    requires !(step.Reflag? && s.tables[step.key].frame == f) && !(step.Map? && step.frame == f && step.writable)
    ensures ReadOnlyFrame(Apply(s, n, step), f)
  {
    var s' := Apply(s, n, step);
    forall i | 0 <= i < n && !s'.pc[i].Idle? ensures s'.pc[i].e.frame != f || !s'.pc[i].e.writable {
      ShotOrigin(s, n, step, i);
    }
  }

  // ------------------------------------------------------------- liveness

  ghost predicate LiveInv(s: State, n: nat) {
    Inv(s, n) && MonoInv(s, n) && DueInv(s, n)
  }

  lemma StepKeepsMono(s: State, n: nat, step: Step)
    requires LiveInv(s, n) && Enabled(s, n, step)
    ensures MonoInv(Apply(s, n, step), n)
  {
  }

  lemma StepKeepsDue(s: State, n: nat, step: Step)
    requires LiveInv(s, n) && Enabled(s, n, step)
    ensures DueInv(Apply(s, n, step), n)
  {
    var s' := Apply(s, n, step);
    forall i, c | 0 <= i < n && 0 <= c < n && s'.pc[i].Waiting? ensures Due(s', n, c, s'.pc[i].gen) {
      if step.OwnStore? && step.cpu == i {
        assert s.pc[i].own.g == s.gen;
      } else {
        assert s.pc[i].Waiting? && Due(s, n, c, s.pc[i].gen);
        assert s.lock == Some(i);
      }
    }
  }

  lemma StepKeepsLive(s: State, n: nat, step: Step)
    requires LiveInv(s, n) && Enabled(s, n, step)
    ensures LiveInv(Apply(s, n, step), n)
  {
    StepKeepsInv(s, n, step);
    StepKeepsMono(s, n, step);
    StepKeepsDue(s, n, step);
  }

  /** The progress invariant holds in every run. */
  lemma {:induction false} LiveInEveryRun(s: State, n: nat, steps: seq<Step>, s': State)
    requires LiveInv(s, n) && Runs(s, n, steps, s')
    ensures LiveInv(s', n)
    decreases |steps|
  {
    if steps != [] {
      StepKeepsLive(s, n, steps[0]);
      LiveInEveryRun(Apply(s, n, steps[0]), n, steps[1..], s');
    }
  }

  lemma {:induction false} RunsAppend(s: State, n: nat, a: seq<Step>, m: State, b: seq<Step>, s': State)
    requires Runs(s, n, a, m) && Runs(m, n, b, s')
    ensures Runs(s, n, a + b, s')
    decreases |a|
  {
    if a == [] {
      assert a + b == b;
    } else {
      RunsAppend(Apply(s, n, a[0]), n, a[1..], m, b, s');
      assert (a + b)[0] == a[0] && (a + b)[1..] == a[1..] + b;
    }
  }

  lemma RunsStep(s: State, n: nat, step: Step)
    requires Sized(s, n) && Enabled(s, n, step)
    ensures Runs(s, n, [step], Apply(s, n, step))
  {
    assert [step][1..] == [];
    assert Runs(Apply(s, n, step), n, [], Apply(s, n, step));
  }

  /** A run goes on by one enabled step. */
  lemma RunsOn(s: State, n: nat, steps: seq<Step>, m: State, step: Step)
    requires Runs(s, n, steps, m) && LiveInv(m, n) && Enabled(m, n, step)
    ensures Runs(s, n, steps + [step], Apply(m, n, step)) && LiveInv(Apply(m, n, step), n)
  {
    StepKeepsLive(m, n, step);
    RunsStep(m, n, step);
    RunsAppend(s, n, steps, m, [step], Apply(m, n, step));
  }

  /** Only handlers ran: no CPU's main line moved, the generation is the same. */
  ghost predicate HandlersOnly(s: State, s': State) {
    s'.pc == s.pc && s'.gen == s.gen && s'.lock == s.lock
  }

  /** How far CPU `c` is from acknowledging the current generation. */
  function Distance(s: State, n: nat, c: nat): nat
    requires Sized(s, n) && c < n
  {
    if s.ack[c] >= s.gen then 0
    else match s.handler[c]
         case NotAcking => 3
         case Flushed(g) => if g >= s.gen then 1 else 4
         case Loaded(g) => if g >= s.gen then 2 else 5
  }

  function HandlerNext(a: Ack, c: nat): Step {
    match a case NotAcking => Interrupt(c) case Loaded(_) => HandlerFlush(c) case Flushed(_) => HandlerStore(c)
  }

  lemma HandlerNears(s: State, n: nat, c: nat)
    requires Sized(s, n) && c < n && Due(s, n, c, s.gen) && s.ack[c] < s.gen
    ensures Enabled(s, n, HandlerNext(s.handler[c], c))
    ensures var s' := Apply(s, n, HandlerNext(s.handler[c], c));
            && Distance(s', n, c) < Distance(s, n, c) && Due(s', n, c, s'.gen) && HandlersOnly(s, s')
            && forall j :: 0 <= j < n && j != c ==>
                 s'.ack[j] == s.ack[j] && s'.handler[j] == s.handler[j] && s'.pending[j] == s.pending[j]
  {
  }

  /** The handler needs no lock: it alone brings CPU `c` to acknowledge. */
  lemma {:induction false} Acknowledges(s: State, n: nat, c: nat) returns (steps: seq<Step>, s': State)
    requires LiveInv(s, n) && c < n && Due(s, n, c, s.gen)
    ensures Runs(s, n, steps, s') && LiveInv(s', n) && HandlersOnly(s, s') && s'.ack[c] >= s.gen
    ensures forall j :: 0 <= j < n && j != c ==>
              s'.ack[j] == s.ack[j] && s'.handler[j] == s.handler[j] && s'.pending[j] == s.pending[j]
    decreases Distance(s, n, c)
  {
    if s.ack[c] >= s.gen {
      steps, s' := [], s;
    } else {
      var step := HandlerNext(s.handler[c], c);
      HandlerNears(s, n, c);
      StepKeepsLive(s, n, step);
      RunsStep(s, n, step);
      var m := Apply(s, n, step);
      var rest;
      rest, s' := Acknowledges(m, n, c);
      RunsAppend(s, n, [step], m, rest, s');
      steps := [step] + rest;
    }
  }

  /** All CPUs below `k` acknowledge. */
  lemma {:induction false} AllAcknowledge(s: State, n: nat, i: nat, k: nat) returns (steps: seq<Step>, s': State)
    requires LiveInv(s, n) && i < n && s.pc[i].Waiting? && k <= n
    ensures Runs(s, n, steps, s') && LiveInv(s', n) && HandlersOnly(s, s') && forall j :: 0 <= j < k ==>
              s'.ack[j] >= s.gen
  {
    if k == 0 {
      steps, s' := [], s;
    } else {
      var first, m := AllAcknowledge(s, n, i, k - 1);
      assert m.pc[i].Waiting? && m.pc[i].gen == m.gen;
      assert Due(m, n, k - 1, m.pc[i].gen);
      var more;
      more, s' := Acknowledges(m, n, k - 1);
      RunsAppend(s, n, first, m, more, s');
      steps := first + more;
    }
  }

  /** A running handler finishes by itself; acknowledgements do not go back. */
  lemma {:induction false} HandlerFinishes(s: State, n: nat, c: nat) returns (steps: seq<Step>, s': State)
    requires LiveInv(s, n) && c < n
    ensures Runs(s, n, steps, s') && LiveInv(s', n) && HandlersOnly(s, s') && s'.handler[c].NotAcking?
    ensures forall j :: 0 <= j < n ==> s'.ack[j] >= s.ack[j]
    decreases match s.handler[c] case NotAcking => 0 case Flushed(_) => 1 case Loaded(_) => 2
  {
    if s.handler[c].NotAcking? {
      steps, s' := [], s;
    } else {
      var step := if s.handler[c].Loaded? then HandlerFlush(c) else HandlerStore(c);
      StepKeepsLive(s, n, step);
      RunsStep(s, n, step);
      var rest;
      rest, s' := HandlerFinishes(Apply(s, n, step), n, c);
      RunsAppend(s, n, [step], Apply(s, n, step), rest, s');
      steps := [step] + rest;
    }
  }

  /** Everybody acknowledges, and no handler is left running on the waiting CPU. */
  lemma WaiterIsAnswered(s: State, n: nat, i: nat) returns (steps: seq<Step>, s': State)
    requires LiveInv(s, n) && i < n && s.pc[i].Waiting?
    ensures Runs(s, n, steps, s') && LiveInv(s', n) && HandlersOnly(s, s') && s'.handler[i].NotAcking?
    ensures forall j :: 0 <= j < n ==> s'.ack[j] >= s.gen
  {
    var a, m := AllAcknowledge(s, n, i, n);
    var b;
    b, s' := HandlerFinishes(m, n, i);
    RunsAppend(s, n, a, m, b, s');
    steps := a + b;
  }

  lemma LeaveEffect(s: State, n: nat, i: nat)
    requires Sized(s, n) && i < n && s.pc[i].Waiting? && s.handler[i].NotAcking? && forall j :: 0 <= j < n ==>
               s.ack[j] >= s.pc[i].gen
    ensures Enabled(s, n, Leave(i)) && Apply(s, n, Leave(i)).lock.None? && forall j :: 0 <= j < n && j != i ==>
              Apply(s, n, Leave(i)).pc[j] == s.pc[j]
  {
  }

  /** A waiting CPU gets its acknowledgements and releases the lock. */
  lemma WaiterLeaves(s: State, n: nat, i: nat) returns (steps: seq<Step>, s': State)
    requires LiveInv(s, n) && i < n && s.pc[i].Waiting?
    ensures Runs(s, n, steps, s') && LiveInv(s', n) && s'.lock.None? && forall j :: 0 <= j < n && j != i ==>
              s'.pc[j] == s.pc[j]
  {
    assert s.pc[i].gen == s.gen;
    var a, m := WaiterIsAnswered(s, n, i);
    LeaveEffect(m, n, i);
    RunsOn(s, n, a, m, Leave(i));
    steps, s' := a + [Leave(i)], Apply(m, n, Leave(i));
  }

  function OwnNext(p: Pc, i: nat): Step
    requires p.Locked? || p.Acking?
  {
    if p.Locked? then Bump(i) else if p.own.NotAcking? then OwnLoad(i) else if p.own.Loaded? then OwnFlush(i)
        else OwnStore(i)
  }

  function Rank(p: Pc): nat {
    match p
    case Locked(_, _) => 4
    case Acking(_, _, _, own) => (match own case NotAcking => 3 case Loaded(_) => 2 case Flushed(_) => 1)
    case _ => 0
  }

  lemma OwnNextRank(s: State, n: nat, i: nat)
    requires Sized(s, n) && i < n && (s.pc[i].Locked? || s.pc[i].Acking?) && s.handler[i].NotAcking?
    ensures Enabled(s, n, OwnNext(s.pc[i], i))
    ensures var s' := Apply(s, n, OwnNext(s.pc[i], i));
            Rank(s'.pc[i]) < Rank(s.pc[i]) && Holding(s'.pc[i]) && forall j :: 0 <= j < n && j != i ==>
              s'.pc[j] == s.pc[j]
  {
  }

  /** One step of CPU `i`'s own, once no handler runs on it. */
  lemma OwnStep(s: State, n: nat, i: nat) returns (steps: seq<Step>, s': State)
    requires LiveInv(s, n) && i < n && (s.pc[i].Locked? || s.pc[i].Acking?)
    ensures Runs(s, n, steps, s') && LiveInv(s', n) && Rank(s'.pc[i]) < Rank(s.pc[i]) && Holding(s'.pc[i])
    ensures forall j :: 0 <= j < n && j != i ==> s'.pc[j] == s.pc[j]
  {
    var a, m := HandlerFinishes(s, n, i);
    OwnNextRank(m, n, i);
    RunsOn(s, n, a, m, OwnNext(m.pc[i], i));
    steps, s' := a + [OwnNext(m.pc[i], i)], Apply(m, n, OwnNext(m.pc[i], i));
  }

  /** Whoever holds the lock can always get to release it. */
  lemma {:induction false} LockIsReleased(s: State, n: nat, i: nat) returns (steps: seq<Step>, s': State)
    requires LiveInv(s, n) && i < n && Holding(s.pc[i])
    ensures Runs(s, n, steps, s') && LiveInv(s', n) && s'.lock.None? && forall j :: 0 <= j < n && j != i ==>
              s'.pc[j] == s.pc[j]
    decreases Rank(s.pc[i])
  {
    if s.pc[i].Waiting? {
      steps, s' := WaiterLeaves(s, n, i);
    } else {
      var a, m := OwnStep(s, n, i);
      var b;
      b, s' := LockIsReleased(m, n, i);
      RunsAppend(s, n, a, m, b, s');
      steps := a + b;
    }
  }

  /** Two CPUs shooting at once cannot deadlock: a CPU that spins for the lock can still get it. */
  lemma SpinnerGetsLock(s: State, n: nat, j: nat) returns (steps: seq<Step>, s': State)
    requires LiveInv(s, n) && j < n && s.pc[j].Spinning?
    ensures Runs(s, n, steps, s') && LiveInv(s', n) && s'.lock == Some(j)
  {
    var a, m := [], s;
    if s.lock.Some? {
      a, m := LockIsReleased(s, n, s.lock.value);
    }
    var b, m2 := HandlerFinishes(m, n, j);
    RunsAppend(s, n, a, m, b, m2);
    RunsOn(s, n, a + b, m2, Acquire(j));
    steps, s' := a + b + [Acquire(j)], Apply(m2, n, Acquire(j));
  }

  /** So it is in every state that a run from boot reaches. */
  lemma NoDeadlockInAnyRun(s0: State, n: nat, steps: seq<Step>, s: State, j: nat) returns (more: seq<Step>, s': State)
    requires Initial(s0, n) && Runs(s0, n, steps, s) && j < n && |s.pc| == n && s.pc[j].Spinning?
    ensures Runs(s, n, more, s') && s'.lock == Some(j)
  {
    InitialInv(s0, n);
    LiveInEveryRun(s0, n, steps, s);
    more, s' := SpinnerGetsLock(s, n, j);
  }
}
