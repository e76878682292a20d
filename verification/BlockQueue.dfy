/** The queue of block requests between submitters and the worker. */
module BlockQueue {
  import opened Bytes

  const MAX_REQUESTS: nat := 16
  const ID_LIMIT: nat := 0x1_0000_0000_0000_0000
  /** How many identifiers there are: 1 to 2^64 - 1. */
  const ID_COUNT: nat := ID_LIMIT - 1

  datatype Op = Read(lba: nat) | Write(lba: nat, data: Sector) | Flush

  datatype RequestState = Pending | InProgress | Complete

  /** What a request came back with; the bytes matter for a successful read. */
  datatype Reply = Reply(ok: bool, data: Sector)

  datatype Request = Request(id: nat, op: Op, state: RequestState, reply: Reply)

  type Slots = seq<Option<Request>>

  /** The identifier of the `n`-th accepted request: they count up and skip 0 when they wrap. */
  function IdOf(n: nat): (id: nat)
    ensures 1 <= id < ID_LIMIT
  {
    1 + n % ID_COUNT
  }

  function NextId(id: nat): nat {
    if (id + 1) % ID_LIMIT == 0 then 1 else (id + 1) % ID_LIMIT
  }

  lemma NextIdCounts(n: nat)
    ensures NextId(IdOf(n)) == IdOf(n + 1)
  {
  }

  lemma ModOf(q: int, r: nat)
    requires 0 <= q && r < ID_COUNT
    ensures (q * ID_COUNT + r) % ID_COUNT == r
  {
  }

  /** Two requests have the same identifier if and only if a whole number of
      rounds of identifiers lies between them. */
  lemma SameIdIff(a: nat, b: nat)
    requires a <= b
    ensures IdOf(a) == IdOf(b) <==> (b - a) % ID_COUNT == 0
  {
    var q, r := a / ID_COUNT, a % ID_COUNT;
    var d := b - a;
    assert b == q * ID_COUNT + r + d;
    if d % ID_COUNT == 0 {
      var k := d / ID_COUNT;
      assert b == (q + k) * ID_COUNT + r;
      ModOf(q + k, r);
    }
    if IdOf(a) == IdOf(b) {
      var k := b / ID_COUNT - q;
      assert d == k * ID_COUNT;
      ModOf(k, 0);
    }
  }

  predicate IsPending(e: Option<Request>) { e.Some? && e.value.state == Pending }

  predicate IsDone(e: Option<Request>, id: nat) { e.Some? && e.value.id == id && e.value.state == Complete }

  ghost predicate FirstAt(slots: Slots, i: nat, p: Option<Request> -> bool) {
    i < |slots| && p(slots[i]) && forall j :: 0 <= j < i ==> !p(slots[j])
  }

  class Queue {
    var entries: Slots
    var nextId: nat

    ghost predicate Valid()
      reads this
    {
      |entries| == MAX_REQUESTS && 1 <= nextId < ID_LIMIT
    }

    constructor ()
      ensures Valid() && nextId == 1 && forall i :: 0 <= i < MAX_REQUESTS ==> entries[i].None?
    {
      entries := seq(MAX_REQUESTS, _ => None);
      nextId := 1;
    }

    /** `push`: the first vacant slot, refused only when there is none. */
    method Push(op: Op, data: Sector) returns (id: Option<nat>, ghost slot: nat)
      requires Valid()
      modifies this
      ensures Valid()
      ensures id.None? ==>
                entries == old(entries) && nextId == old(nextId) && forall i :: 0 <= i < MAX_REQUESTS ==>
                  entries[i].Some?
      ensures id.Some? ==>
                id.value == old(nextId) && nextId == NextId(old(nextId)) &&
                FirstAt(old(entries), slot, (e: Option<Request>) => e.None?)
      ensures id.Some? ==> entries == old(entries)[slot := Some(Request(id.value, op, Pending, Reply(true, data)))]
    {
      slot := 0;
      var i := 0;
      while i < |entries| && entries[i].Some?
        invariant 0 <= i <= |entries| && forall j :: 0 <= j < i ==> entries[j].Some?
      {
        i := i + 1;
      }
      if i == |entries| {
        id := None;
      } else {
        slot := i;
        id := Some(nextId);
        entries := entries[i := Some(Request(nextId, op, Pending, Reply(true, data)))];
        nextId := NextId(nextId);
      }
    }

    /** `take_pending`: the first pending request is marked in progress. */
    method TakePending() returns (work: Option<(nat, Request)>)
      requires Valid()
      modifies this`entries
      ensures Valid()
      ensures work.None? ==> entries == old(entries) && forall i :: 0 <= i < MAX_REQUESTS ==> !IsPending(entries[i])
      ensures work.Some? ==> var (i, r) := work.value;
                && FirstAt(old(entries), i, IsPending) && r == old(entries)[i].value.(state := InProgress)
                && entries == old(entries)[i := Some(r)]
    {
      var i := 0;
      while i < |entries| && !IsPending(entries[i])
        invariant 0 <= i <= |entries| && forall j :: 0 <= j < i ==> !IsPending(entries[j])
      {
        i := i + 1;
      }
      if i == |entries| {
        work := None;
      } else {
        var r := entries[i].value.(state := InProgress);
        entries := entries[i := Some(r)];
        work := Some((i, r));
      }
    }

    /** `finish`: completes the request it was taken from, and nothing else. */
    method Finish(slot: nat, id: nat, reply: Reply)
      requires Valid()
      modifies this`entries
      ensures Valid()
      ensures if slot < MAX_REQUESTS && old(entries)[slot].Some? && old(entries)[slot].value.id == id &&
              old(entries)[slot].value.state == InProgress
              then entries == old(entries)[slot := Some(old(entries)[slot].value.(reply := reply, state := Complete))]
              else entries == old(entries)
    {
      if slot < |entries| && entries[slot].Some? && entries[slot].value.id == id &&
          entries[slot].value.state == InProgress {
        entries := entries[slot := Some(entries[slot].value.(reply := reply, state := Complete))];
      }
    }

    /** `take_result`: the first completed request with that identifier leaves the queue. */
    method TakeResult(id: nat) returns (r: Option<Reply>, ghost slot: nat)
      requires Valid()
      modifies this`entries
      ensures Valid()
      ensures r.None? ==> entries == old(entries) && forall i :: 0 <= i < MAX_REQUESTS ==> !IsDone(entries[i], id)
      ensures r.Some? ==>
                slot < MAX_REQUESTS && IsDone(old(entries)[slot], id) && r.value == old(entries)[slot].value.reply
                          && entries == old(entries)[slot := None] && forall j :: 0 <= j < slot ==>
                               !IsDone(old(entries)[j], id)
    {
      slot := 0;
      var i := 0;
      while i < |entries| && !IsDone(entries[i], id)
        invariant 0 <= i <= |entries| && forall j :: 0 <= j < i ==> !IsDone(entries[j], id)
      {
        i := i + 1;
      }
      if i == |entries| {
        r := None;
      } else {
        slot := i;
        r := Some(entries[i].value.reply);
        entries := entries[i := None];
      }
    }
  }
}
