/** The write-back sector cache in front of a block device. */
module BlockCache {
  import opened Bytes

  const MAX_AGE: nat := 0xffff_ffff_ffff_ffff

  datatype Error = OutOfBounds | InvalidBuffer | ReadOnly | DeviceFault
  datatype Result<+T> = Ok(value: T) | Err(error: Error)

  datatype Entry = Entry(lba: nat, data: Sector, valid: bool, dirty: bool, age: nat)

  const EMPTY: Entry := Entry(0, Zeros(SECTOR_SIZE), false, false, 0)

  /** How one operation of the device below ends. A write that fails may leave
      `left` in the sector it was writing. */
  datatype Outcome = Success | Failure(error: Error, left: Sector)

  // ---------------------------------------------------- what callers see

  ghost predicate Holds(entries: seq<Entry>, i: int, lba: nat) {
    0 <= i < |entries| && entries[i].valid && entries[i].lba == lba
  }

  ghost predicate Uncached(entries: seq<Entry>, lba: nat) {
    forall i :: 0 <= i < |entries| ==> !Holds(entries, i, lba)
  }

  /** Each sector is cached at most once, and clean entries agree with the device. */
  ghost predicate Coherent(entries: seq<Entry>, sectors: seq<Sector>) {
    && (forall i {:trigger entries[i]} :: 0 <= i < |entries| && entries[i].valid ==>
          entries[i].lba < |sectors| && (!entries[i].dirty ==> entries[i].data == sectors[entries[i].lba]))
    && (forall i, j {:trigger entries[i], entries[j]} ::
          0 <= i < j < |entries| && entries[i].valid && entries[j].valid ==>
            entries[i].lba != entries[j].lba)
  }

  /** The disk seen through the cache: a cached sector shows the entry, any other the device. */
  ghost predicate Shows(view: seq<Sector>, entries: seq<Entry>, sectors: seq<Sector>) {
    && |view| == |sectors|
    && (forall i {:trigger entries[i]} :: 0 <= i < |entries| && entries[i].valid && entries[i].lba < |view| ==>
       view[entries[i].lba] == entries[i].data)
    && (forall lba {:trigger view[lba]} :: 0 <= lba < |view| && Uncached(entries, lba) ==> view[lba] == sectors[lba])
  }

  /** What callers see is determined by the entries and the device. */
  lemma ViewIsUnique(view: seq<Sector>, other: seq<Sector>, entries: seq<Entry>, sectors: seq<Sector>)
    requires Shows(view, entries, sectors) && Shows(other, entries, sectors)
    ensures view == other
  {
    forall lba | 0 <= lba < |view| ensures view[lba] == other[lba] {
      if !Uncached(entries, lba) {
        var i :| 0 <= i < |entries| && Holds(entries, i, lba);
        assert entries[i].lba == lba;
      }
    }
  }

  /** With nothing dirty the device holds exactly what callers see. */
  lemma CleanMeansWritten(view: seq<Sector>, entries: seq<Entry>, sectors: seq<Sector>)
    requires Coherent(entries, sectors) && Shows(view, entries, sectors)
    requires forall i :: 0 <= i < |entries| && entries[i].valid ==> !entries[i].dirty
    ensures view == sectors
  {
    ViewIsUnique(view, sectors, entries, sectors);
  }

  /** The sector of a dirty entry may hold anything on the device. */
  lemma DirtySectorIsHidden(view: seq<Sector>, entries: seq<Entry>, sectors: seq<Sector>, i: nat, left: Sector)
    requires Coherent(entries, sectors) && Shows(view, entries, sectors)
    requires i < |entries| && entries[i].valid && entries[i].dirty
    ensures Coherent(entries, sectors[entries[i].lba := left]) && Shows(view, entries, sectors[entries[i].lba := left])
  {
    assert Holds(entries, i, entries[i].lba);
  }

  lemma SameCached(entries: seq<Entry>, entries': seq<Entry>)
    requires |entries'| == |entries|
    requires forall i :: 0 <= i < |entries| ==>
               entries'[i].valid == entries[i].valid && entries'[i].lba == entries[i].lba
    ensures forall lba :: Uncached(entries', lba) <==> Uncached(entries, lba)
  {
    forall lba ensures Uncached(entries', lba) <==> Uncached(entries, lba) {
      if Uncached(entries, lba) {
        forall i | 0 <= i < |entries'| ensures !Holds(entries', i, lba) { assert !Holds(entries, i, lba); }
      }
      if Uncached(entries', lba) {
        forall i | 0 <= i < |entries| ensures !Holds(entries, i, lba) { assert !Holds(entries', i, lba); }
      }
    }
  }

  lemma WrittenBack(view: seq<Sector>, entries: seq<Entry>, sectors: seq<Sector>, i: nat)
    requires Coherent(entries, sectors) && Shows(view, entries, sectors)
    requires i < |entries| && entries[i].valid && entries[i].dirty
    ensures Coherent(entries[i := entries[i].(dirty := false)], sectors[entries[i].lba := entries[i].data])
    ensures Shows(view, entries[i := entries[i].(dirty := false)], sectors[entries[i].lba := entries[i].data])
  {
    var e, entries' := entries[i], entries[i := entries[i].(dirty := false)];
    DirtySectorIsHidden(view, entries, sectors, i, e.data);
    SameCached(entries, entries');
  }

  /** Replacing an entry that is not needed any more by one for an uncached sector. */
  lemma Replaced(view: seq<Sector>, entries: seq<Entry>, sectors: seq<Sector>, v: nat, e: Entry)
    requires Coherent(entries, sectors) && Shows(view, entries, sectors)
    requires v < |entries| && (entries[v].valid ==> !entries[v].dirty)
    requires e.valid && e.lba < |sectors| && Uncached(entries, e.lba) && (!e.dirty ==> e.data == sectors[e.lba])
    ensures Coherent(entries[v := e], sectors) && Shows(view[e.lba := e.data], entries[v := e], sectors)
  {
    var entries' := entries[v := e];
    forall i | 0 <= i < |entries| && entries[i].valid ensures entries[i].lba != e.lba {
      assert !Holds(entries, i, e.lba);
    }
    var view' := view[e.lba := e.data];
    forall lba | 0 <= lba < |view'| && Uncached(entries', lba) ensures view'[lba] == sectors[lba] {
      assert !Holds(entries', v, lba);
      if !Uncached(entries, lba) {
        var i :| 0 <= i < |entries| && Holds(entries, i, lba);
        if i != v { assert Holds(entries', i, lba); }
      }
    }
  }

  /** New data in the entry of a cached sector. */
  lemma Overwritten(view: seq<Sector>, entries: seq<Entry>, sectors: seq<Sector>, i: nat, data: Sector)
    requires Coherent(entries, sectors) && Shows(view, entries, sectors) && i < |entries| && entries[i].valid
    ensures Coherent(entries[i := entries[i].(data := data, dirty := true)], sectors)
    ensures Shows(view[entries[i].lba := data], entries[i := entries[i].(data := data, dirty := true)], sectors)
  {
    var e, entries' := entries[i], entries[i := entries[i].(data := data, dirty := true)];
    SameCached(entries, entries');
    assert Holds(entries, i, e.lba);
  }

  // ------------------------------------------------------ least recently used

  function Aged(e: Entry): Entry {
    if e.valid then e.(age := if e.age < MAX_AGE then e.age + 1 else MAX_AGE) else e
  }

  /** The same of every entry but one. */
  ghost predicate RecencyBut(entries: seq<Entry>, stamps: seq<nat>, clock: nat, v: nat) {
    && |stamps| == |entries|
    && (forall i {:trigger entries[i]} :: 0 <= i < |entries| && i != v && entries[i].valid ==>
          stamps[i] <= clock && entries[i].age == if clock - stamps[i] < MAX_AGE then clock - stamps[i] else MAX_AGE)
    && (forall i, j {:trigger entries[i], entries[j]} ::
          0 <= i < j < |entries| && i != v && j != v && entries[i].valid && entries[j].valid ==>
            stamps[i] != stamps[j])
  }

  /** `stamps[i]` is when entry `i` was last used, counting uses; ages are the time since, until they saturate. */
  ghost predicate Recency(entries: seq<Entry>, stamps: seq<nat>, clock: nat) {
    RecencyBut(entries, stamps, clock, |entries|)
  }

  /** The entry `victim` picks: the first unused one, or else the last of the greatest age. */
  ghost predicate IsVictim(entries: seq<Entry>, v: nat) {
    && v < |entries|
    && if entries[v].valid then
         && (forall i {:trigger entries[i]} :: 0 <= i < |entries| ==>
            entries[i].valid && entries[i].age <= entries[v].age)
         && (forall i {:trigger entries[i]} :: v < i < |entries| ==> entries[i].age < entries[v].age)
       else forall i {:trigger entries[i]} :: 0 <= i < v ==> entries[i].valid
  }

  ghost predicate LeastRecent(entries: seq<Entry>, stamps: seq<nat>, v: nat) {
    && v < |entries| == |stamps|
    && forall i {:trigger entries[i]} :: 0 <= i < |entries| && i != v && entries[i].valid ==> stamps[v] < stamps[i]
  }

  ghost predicate OneSaturated(entries: seq<Entry>) {
    forall i, j {:trigger entries[i], entries[j]} :: 0 <= i < j < |entries| && entries[i].valid && entries[j].valid ==>
      entries[i].age < MAX_AGE || entries[j].age < MAX_AGE
  }

  /** While at most one age has saturated, the victim is the least recently used entry. */
  lemma VictimIsLeastRecent(entries: seq<Entry>, stamps: seq<nat>, clock: nat, v: nat)
    requires Recency(entries, stamps, clock) && IsVictim(entries, v) && entries[v].valid && OneSaturated(entries)
    ensures LeastRecent(entries, stamps, v)
  {
  }

  /** With two saturated ages the entries no longer tell which was used first:
      some history with these very entries has another least recently used one. */
  lemma SaturationLosesOrder(entries: seq<Entry>, stamps: seq<nat>, clock: nat, v: nat) returns (other: seq<nat>)
    requires Recency(entries, stamps, clock) && IsVictim(entries, v) && entries[v].valid && !OneSaturated(entries)
    ensures Recency(entries, other, clock) && !LeastRecent(entries, other, v)
  {
    var i, j :| 0 <= i < j < |entries| && entries[i].valid && entries[j].valid && entries[i].age >= MAX_AGE &&
        entries[j].age >= MAX_AGE;
    var w := if i == v then j else i;
    assert entries[v].age == MAX_AGE && entries[w].age == MAX_AGE;
    other := if stamps[v] < stamps[w] then stamps[v := stamps[w]][w := stamps[v]] else stamps;
  }

  /** The entries alone tell the least recently used one if and only if at most one age has saturated. */
  lemma VictimExact(entries: seq<Entry>, stamps: seq<nat>, clock: nat, v: nat)
    requires Recency(entries, stamps, clock) && IsVictim(entries, v) && entries[v].valid
    ensures (forall other :: Recency(entries, other, clock) ==> LeastRecent(entries, other, v)) <==>
              OneSaturated(entries)
  {
    if OneSaturated(entries) {
      forall other | Recency(entries, other, clock) ensures LeastRecent(entries, other, v) {
        VictimIsLeastRecent(entries, other, clock, v);
      }
    } else {
      var other := SaturationLosesOrder(entries, stamps, clock, v);
    }
  }

  /** Every valid entry one use older, and entry `index` just used. */
  ghost predicate JustUsed(entries: seq<Entry>, entries': seq<Entry>, index: nat) {
    && index < |entries| == |entries'|
    && forall i {:trigger entries'[i]} :: 0 <= i < |entries| ==>
         entries'[i] == if i == index then entries[i].(age := 0) else Aged(entries[i])
  }

  lemma Touched(entries: seq<Entry>, entries': seq<Entry>, stamps: seq<nat>, clock: nat, index: nat)
    requires RecencyBut(entries, stamps, clock, index) && JustUsed(entries, entries', index)
    ensures Recency(entries', stamps[index := clock + 1], clock + 1)
  {
  }

  lemma TouchKeepsView(view: seq<Sector>, entries: seq<Entry>, entries': seq<Entry>, sectors: seq<Sector>, index: nat)
    requires Coherent(entries, sectors) && Shows(view, entries, sectors) && JustUsed(entries, entries', index)
    ensures Coherent(entries', sectors) && Shows(view, entries', sectors)
  {
    SameCached(entries, entries');
  }

  /** Only what is still to be written back differs. */
  ghost predicate SameSectors(entries: seq<Entry>, entries': seq<Entry>) {
    && |entries'| == |entries|
    && forall i {:trigger entries'[i]} :: 0 <= i < |entries| ==> entries'[i] == entries[i].(dirty := entries'[i].dirty)
  }

  lemma CachedAfter(entries: seq<Entry>, entries': seq<Entry>, lba: nat)
    requires SameSectors(entries, entries')
    ensures Uncached(entries', lba) <==> Uncached(entries, lba)
  {
    SameCached(entries, entries');
  }

  /** An error is that of the last device operation made. */
  ghost predicate Reported<T(!new)>(outcomes: nat -> Outcome, before: nat, after: nat, r: Result<T>) {
    before <= after && (r.Err? ==> before < after && outcomes(after - 1).Failure? &&
                                   outcomes(after - 1).error == r.error)
  }

  // ------------------------------------------------------- the plain disk

  datatype Op = Read(lba: nat, room: nat) | Write(lba: nat, data: seq<Byte>) | Flush

  /** What is refused before any sector is touched. */
  function Refusal(op: Op, count: nat, readOnly: bool): Option<Error> {
    match op
    case Read(lba, room) => if room != SECTOR_SIZE then Some(InvalidBuffer) else if lba >= count then Some(OutOfBounds)
        else None
    case Write(lba, data) =>
      if |data| != SECTOR_SIZE then Some(InvalidBuffer) else if lba >= count then Some(OutOfBounds)
      else if readOnly then Some(ReadOnly) else None
    case Flush => None
  }

  /** An error is either the refusal, or that of the last device operation made. */
  ghost predicate FailsAs<T(!new)>(refusal: Option<Error>, outcomes: nat -> Outcome, before: nat, after: nat,
                            r: Result<T>)
    requires r.Err?
  {
    if refusal.Some? then r.error == refusal.value && before == after
    else Reported(outcomes, before, after, r)
  }

  /** One operation on the plain disk `view`: it reads what was written last, and an operation
      that fails changes nothing. Without a cache a failed write may spoil its own sector. */
  ghost predicate Allowed(cached: bool, readOnly: bool, view: seq<Sector>, op: Op, r: Result<seq<Byte>>,
                          view': seq<Sector>, device': seq<Sector>)
  {
    && |view'| == |view|
    && (r.Ok? ==> Refusal(op, |view|, readOnly).None?)
    && match op
       case Read(lba, _) => view' == view && (r.Ok? ==> r.value == view[lba])
       case Write(lba, data) =>
         if r.Ok? then view' == view[lba := data]
         else view' == view || (!cached && lba < |view| && view' == view[lba := view'[lba]])
       case Flush => view' == view && (r.Ok? ==> device' == view)
  }

  ghost predicate PlainRun(cached: bool, readOnly: bool, ops: seq<Op>, replies: seq<Result<seq<Byte>>>,
                           views: seq<seq<Sector>>, devices: seq<seq<Sector>>) {
    && |views| == |devices| == |ops| + 1 && |replies| == |ops|
    && forall k {:trigger ops[k]} :: 0 <= k < |ops| ==>
         Allowed(cached, readOnly, views[k], ops[k], replies[k], views[k + 1], devices[k + 1])
  }

  /** What a sector was last successfully written with, among the first `k` operations. */
  ghost function LastWritten(before: Sector, ops: seq<Op>, replies: seq<Result<seq<Byte>>>, k: nat, lba: nat): seq<Byte>
    requires k <= |ops| == |replies|
  {
    if k == 0 then before
    else if ops[k - 1].Write? && ops[k - 1].lba == lba && replies[k - 1].Ok? then ops[k - 1].data
    else LastWritten(before, ops, replies, k - 1, lba)
  }

  /** With a cache, a sector always shows the last successful write to it, whatever failed in between. */
  lemma {:induction false} ShowsLastWrite(readOnly: bool, ops: seq<Op>, replies: seq<Result<seq<Byte>>>,
                                          views: seq<seq<Sector>>,
                                          devices: seq<seq<Sector>>, k: nat, lba: nat)
    requires PlainRun(true, readOnly, ops, replies, views, devices) && k <= |ops| && lba < |views[0]|
    ensures |views[k]| == |views[0]| && views[k][lba] == LastWritten(views[0][lba], ops, replies, k, lba)
  {
    if k > 0 {
      ShowsLastWrite(readOnly, ops, replies, views, devices, k - 1, lba);
      var op := ops[k - 1];
      assert Allowed(true, readOnly, views[k - 1], op, replies[k - 1], views[k], devices[k]);
    }
  }

  class CachedDevice {
    /** The device below. */
    var sectors: seq<Sector>
    const readOnly: bool
    const outcomes: nat -> Outcome
    var operations: nat
    var entries: seq<Entry>
    ghost var view: seq<Sector>
    ghost var stamps: seq<nat>
    ghost var clock: nat

    ghost predicate Valid()
      reads this
    {
      Coherent(entries, sectors) && Shows(view, entries, sectors) && Recency(entries, stamps, clock)
    }

    constructor (sectors: seq<Sector>, readOnly: bool, outcomes: nat -> Outcome, capacity: nat)
      ensures Valid() && view == sectors == this.sectors && |entries| == capacity
      ensures this.readOnly == readOnly && this.outcomes == outcomes
    {
      this.sectors, this.readOnly, this.outcomes, this.operations := sectors, readOnly, outcomes, 0;
      entries := seq(capacity, _ => EMPTY);
      view, stamps, clock := sectors, seq(capacity, _ => 0), 0;
    }

    // The device below: any operation may fail.

    method DeviceRead(lba: nat) returns (r: Result<Sector>)
      requires lba < |sectors|
      modifies this`operations
      ensures operations == old(operations) + 1
      ensures r == match outcomes(old(operations)) case Success => Ok(sectors[lba]) case Failure(e, _) => Err(e)
    {
      operations := operations + 1;
      match outcomes(operations - 1)
      case Success => r := Ok(sectors[lba]);
      case Failure(e, _) => r := Err(e);
    }

    method DeviceWrite(lba: nat, data: Sector) returns (r: Result<()>)
      requires lba < |sectors|
      modifies this`operations, this`sectors
      ensures operations == old(operations) + 1
      ensures sectors == old(sectors)[lba := match outcomes(old(operations)) case Success => data case Failure(_,
              left) => left]
      ensures r == match outcomes(old(operations)) case Success => Ok(()) case Failure(e, _) => Err(e)
    {
      operations := operations + 1;
      match outcomes(operations - 1) {
        case Success =>
          r := Ok(());
          sectors := sectors[lba := data];
        case Failure(e, left) =>
          r := Err(e);
          sectors := sectors[lba := left];
      }
    }

    method DeviceFlush() returns (r: Result<()>)
      modifies this`operations
      ensures operations == old(operations) + 1
      ensures r == match outcomes(old(operations)) case Success => Ok(()) case Failure(e, _) => Err(e)
    {
      operations := operations + 1;
      match outcomes(operations - 1)
      case Success => r := Ok(());
      case Failure(e, _) => r := Err(e);
    }

    method Age(index: nat)
      requires index < |entries|
      modifies this`entries
      ensures JustUsed(old(entries), entries, index)
    {
      var i := 0;
      while i < |entries|
        invariant 0 <= i <= |entries| == old(|entries|)
        invariant forall k {:trigger entries[k]} :: 0 <= k < |entries| ==>
                    entries[k] == if k < i then Aged(old(entries)[k]) else old(entries)[k]
      {
        entries := entries[i := Aged(entries[i])];
        i := i + 1;
      }
      entries := entries[index := entries[index].(age := 0)];
    }

    /** The entry's age starts again, every other one is one use older. */
    method Touch(index: nat)
      requires Coherent(entries, sectors) && Shows(view, entries, sectors)
      requires index < |entries| && entries[index].valid && RecencyBut(entries, stamps, clock, index)
      modifies this`entries, this`stamps, this`clock
      ensures Valid() && JustUsed(old(entries), entries, index)
      ensures clock == old(clock) + 1 && stamps == old(stamps)[index := clock]
    {
      ghost var before := entries;
      Age(index);
      TouchKeepsView(view, before, entries, sectors, index);
      Touched(before, entries, stamps, clock, index);
      clock := clock + 1;
      stamps := stamps[index := clock];
    }

    method Find(lba: nat) returns (r: Option<nat>)
      ensures r.Some? ==> Holds(entries, r.value, lba)
      ensures r.None? ==> Uncached(entries, lba)
    {
      var i := 0;
      while i < |entries|
        invariant 0 <= i <= |entries|
        invariant forall k :: 0 <= k < i ==> !Holds(entries, k, lba)
      {
        if entries[i].valid && entries[i].lba == lba { return Some(i); }
        i := i + 1;
      }
      return None;
    }

    method Victim() returns (v: nat)
      requires |entries| > 0
      ensures IsVictim(entries, v)
    {
      var i := 0;
      while i < |entries|
        invariant 0 <= i <= |entries|
        invariant forall k {:trigger entries[k]} :: 0 <= k < i ==> entries[k].valid
      {
        if !entries[i].valid { return i; }
        i := i + 1;
      }
      v, i := 0, 1;
      while i < |entries|
        invariant 0 <= v < i <= |entries|
        invariant forall k {:trigger entries[k]} :: 0 <= k < i ==> entries[k].age <= entries[v].age
        invariant forall k {:trigger entries[k]} :: v < k < i ==> entries[k].age < entries[v].age
      {
        if entries[i].age >= entries[v].age { v := i; }
        i := i + 1;
      }
    }

    /** A dirty entry goes to the device; callers see no difference, whether or not that succeeds. */
    method WriteBack(index: nat) returns (r: Result<()>)
      requires Valid() && index < |entries|
      modifies this`sectors, this`operations, this`entries
      ensures Valid()
      ensures entries == old(entries)[index := old(entries[index]).(dirty := entries[index].dirty)]
      ensures r.Ok? ==> entries[index].valid ==> !entries[index].dirty
      ensures r.Err? ==> entries == old(entries)
      ensures Reported(outcomes, old(operations), operations, r)
    {
      r := Ok(());
      if entries[index].valid && entries[index].dirty {
        var e := entries[index];
        r := DeviceWrite(e.lba, e.data);
        if r.Ok? {
          entries := entries[index := e.(dirty := false)];
          WrittenBack(view, old(entries), old(sectors), index);
        } else {
          DirtySectorIsHidden(view, entries, old(sectors), index, sectors[e.lba]);
        }
      }
    }

    /** Make room for one more sector: the victim, with nothing left to write back. */
    method Evict() returns (r: Result<nat>)
      requires Valid() && |entries| > 0
      modifies this`sectors, this`operations, this`entries
      ensures Valid() && |entries| == old(|entries|) && SameSectors(old(entries), entries)
      ensures r.Ok? ==> IsVictim(old(entries), r.value) && (entries[r.value].valid ==> !entries[r.value].dirty)
      ensures r.Err? ==> entries == old(entries)
      ensures Reported(outcomes, old(operations), operations, r)
    {
      var v := Victim();
      var done := WriteBack(v);
      r := if done.Ok? then Ok(v) else Err(done.error);
    }

    /** One sector takes over an entry that is not needed any more. */
    method Place(v: nat, e: Entry)
      requires Valid() && v < |entries| && (entries[v].valid ==> !entries[v].dirty)
      requires e.valid && e.lba < |sectors| && Uncached(entries, e.lba) && (!e.dirty ==> e.data == sectors[e.lba])
      modifies this`entries, this`stamps, this`clock, this`view
      ensures Valid() && view == old(view)[e.lba := e.data] && |entries| == old(|entries|) && entries[v] == e.(age := 0)
      ensures clock == old(clock) + 1 && stamps == old(stamps)[v := clock]
    {
      Replaced(view, entries, sectors, v, e);
      entries, view := entries[v := e], view[e.lba := e.data];
      Touch(v);
    }

    ghost predicate UsedAt(index: nat, before: seq<nat>, since: nat)
      reads this
    {
      index < |before| && clock == since + 1 && stamps == before[index := clock]
    }

    /** The entry that holds a sector, loaded from the device if need be. */
    method Load(lba: nat) returns (r: Result<nat>)
      requires Valid() && |entries| > 0 && lba < |sectors|
      modifies this
      ensures Valid() && view == old(view) && |entries| == old(|entries|)
      ensures r.Ok? ==> Holds(entries, r.value, lba) && UsedAt(r.value, old(stamps), old(clock))
      ensures r.Ok? && Uncached(old(entries), lba) ==> IsVictim(old(entries), r.value)
      ensures r.Err? ==> SameSectors(old(entries), entries) && clock == old(clock) && stamps == old(stamps)
      ensures Reported(outcomes, old(operations), operations, r)
    {
      var found := Find(lba);
      if found.Some? {
        Touch(found.value);
        return Ok(found.value);
      }
      r := Evict();
      if r.Ok? {
        CachedAfter(old(entries), entries, lba);
        var data := DeviceRead(lba);
        if data.Ok? {
          Place(r.value, Entry(lba, data.value, true, false, 0));
        } else {
          r := Err(data.error);
        }
      }
    }

    method ReadSector(lba: nat, room: nat) returns (r: Result<Sector>)
      requires Valid()
      modifies this
      ensures Valid() && view == old(view) && |entries| == old(|entries|)
      ensures r.Ok? ==> Refusal(Read(lba, room), |view|, readOnly).None? && r.value == view[lba]
      ensures r.Err? ==> FailsAs(Refusal(Read(lba, room), |view|, readOnly), outcomes, old(operations), operations, r)
    {
      if room != SECTOR_SIZE { return Err(InvalidBuffer); }
      if lba >= |sectors| { return Err(OutOfBounds); }
      if |entries| == 0 {
        r := DeviceRead(lba);
        assert view[lba] == sectors[lba];
        return;
      }
      var index := Load(lba);
      r := if index.Ok? then Ok(entries[index.value].data) else Err(index.error);
    }

    /** A hit: the entry takes the new data. */
    method Overwrite(index: nat, data: Sector)
      requires Valid() && index < |entries| && entries[index].valid
      modifies this`entries, this`stamps, this`clock, this`view
      ensures Valid() && view == old(view)[old(entries[index]).lba := data] && |entries| == old(|entries|)
      ensures UsedAt(index, old(stamps), old(clock)) &&
              entries[index] == old(entries[index]).(data := data, dirty := true, age := 0)
    {
      var e := entries[index];
      Overwritten(view, entries, sectors, index, data);
      entries, view := entries[index := e.(data := data, dirty := true)], view[e.lba := data];
      Touch(index);
    }

    /** The write path with a cache: no device read is needed on a miss. Entry `i` takes the bytes. */
    method Buffer(lba: nat, data: Sector) returns (r: Result<()>, ghost i: nat)
      requires Valid() && |entries| > 0 && lba < |sectors|
      modifies this
      ensures Valid() && |entries| == old(|entries|)
      ensures view == if r.Ok? then old(view)[lba := data] else old(view)
      ensures r.Ok? ==> Holds(entries, i, lba) && entries[i].dirty && UsedAt(i, old(stamps), old(clock))
      ensures r.Ok? && Uncached(old(entries), lba) ==> IsVictim(old(entries), i)
      ensures r.Err? ==> SameSectors(old(entries), entries) && clock == old(clock) && stamps == old(stamps)
      ensures Reported(outcomes, old(operations), operations, r)
    {
      r, i := Ok(()), 0;
      var found := Find(lba);
      if found.Some? {
        i := found.value;
        Overwrite(found.value, data);
      } else {
        var v := Evict();
        if v.Ok? {
          i := v.value;
          CachedAfter(old(entries), entries, lba);
          Place(v.value, Entry(lba, data, true, true, 0));
        } else {
          r := Err(v.error);
        }
      }
    }

    /** Without a cache the device's own failure shows: the sector holds what the device left there. */
    method WriteThrough(lba: nat, data: Sector) returns (r: Result<()>)
      requires Valid() && |entries| == 0 && lba < |sectors|
      modifies this`sectors, this`operations, this`view
      ensures Valid() && operations == old(operations) + 1
      ensures view == old(view)[lba := match outcomes(old(operations)) case Success => data case Failure(_,
              left) => left]
      ensures r == match outcomes(old(operations)) case Success => Ok(()) case Failure(e, _) => Err(e)
    {
      CleanMeansWritten(view, entries, sectors);
      r := DeviceWrite(lba, data);
      view := sectors;
    }

    method WriteSector(lba: nat, data: seq<Byte>) returns (r: Result<()>)
      requires Valid()
      modifies this
      ensures Valid() && |entries| == old(|entries|) && |view| == old(|view|)
      ensures r.Ok? ==> Refusal(Write(lba, data), |view|, readOnly).None? && view == old(view)[lba := data]
      ensures r.Err? ==> FailsAs(Refusal(Write(lba, data), |view|, readOnly), outcomes, old(operations), operations, r)
      ensures r.Err? && (Refusal(Write(lba, data), |view|, readOnly).Some? || |entries| > 0) ==> view == old(view)
      ensures r.Err? && Refusal(Write(lba, data), |view|, readOnly).None? && |entries| == 0 ==>
        view == old(view)[lba := outcomes(operations - 1).left]
    {
      if |data| != SECTOR_SIZE { return Err(InvalidBuffer); }
      if lba >= |sectors| { return Err(OutOfBounds); }
      if readOnly { return Err(ReadOnly); }
      if |entries| == 0 {
        r := WriteThrough(lba, data);
      } else {
        ghost var i;
        r, i := Buffer(lba, data);
      }
    }

    /** Success means the device holds what callers see, at the moment of its own flush. */
    method Flush() returns (r: Result<()>)
      requires Valid()
      modifies this`sectors, this`operations, this`entries
      ensures Valid() && |entries| == old(|entries|)
      ensures r.Ok? ==> sectors == view
      ensures r.Err? ==> FailsAs(None, outcomes, old(operations), operations, r)
    {
      var i := 0;
      while i < |entries|
        invariant 0 <= i <= |entries| == old(|entries|) && Valid() && old(operations) <= operations
        invariant forall k {:trigger entries[k]} :: 0 <= k < i && entries[k].valid ==> !entries[k].dirty
      {
        r := WriteBack(i);
        if r.Err? { return; }
        i := i + 1;
      }
      CleanMeansWritten(view, entries, sectors);
      r := DeviceFlush();
    }

    method Perform(op: Op) returns (r: Result<seq<Byte>>)
      requires Valid()
      modifies this
      ensures Valid() && |entries| == old(|entries|)
      ensures Allowed(|entries| > 0, readOnly, old(view), op, r, view, sectors)
      ensures r.Err? ==> FailsAs(Refusal(op, |view|, readOnly), outcomes, old(operations), operations, r)
    {
      match op {
        case Read(lba, room) =>
          var data := ReadSector(lba, room);
          r := if data.Ok? then Ok(data.value) else Err(data.error);
        case Write(lba, data) =>
          var done := WriteSector(lba, data);
          r := if done.Ok? then Ok([]) else Err(done.error);
        case Flush =>
          var done := Flush();
          r := if done.Ok? then Ok([]) else Err(done.error);
      }
    }

    /** Every run of the cache is a run of the plain disk. */
    method Run(ops: seq<Op>)
      returns (replies: seq<Result<seq<Byte>>>, ghost views: seq<seq<Sector>>, ghost devices: seq<seq<Sector>>)
      requires Valid()
      modifies this
      ensures Valid() && |entries| == old(|entries|)
      ensures PlainRun(|entries| > 0, readOnly, ops, replies, views, devices)
      ensures views[0] == old(view) && views[|ops|] == view && devices[|ops|] == sectors
      ensures (forall t :: outcomes(t).Success?) ==>
                forall k :: 0 <= k < |ops| && replies[k].Err? ==>
                  Refusal(ops[k], |view|, readOnly) == Some(replies[k].error)
    {
      replies, views, devices := [], [view], [sectors];
      var i := 0;
      while i < |ops|
        invariant 0 <= i <= |ops| && Valid() && |entries| == old(|entries|) && |view| == old(|view|)
        invariant PlainRun(|entries| > 0, readOnly, ops[..i], replies, views, devices)
        invariant views[0] == old(view) && views[i] == view && devices[i] == sectors
        invariant (forall t :: outcomes(t).Success?) ==>
                    forall k :: 0 <= k < i && replies[k].Err? ==>
                      Refusal(ops[k], |view|, readOnly) == Some(replies[k].error)
      {
        var r := Perform(ops[i]);
        assert ops[..i + 1] == ops[..i] + [ops[i]];
        replies, views, devices := replies + [r], views + [view], devices + [sectors];
        i := i + 1;
      }
      assert ops[..i] == ops;
    }
  }
}
