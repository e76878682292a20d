/** The table of reference counts for frames shared copy-on-write. */
module CowRefs {
  import opened Bytes

  const MAX_COW_FRAMES: nat := 1024
  const MAX_REFCOUNT: nat := 0xffff_ffff

  datatype CowEntry = CowEntry(frame: nat, refcount: nat)

  type Entries = seq<Option<CowEntry>>

  predicate At(es: Entries, i: int, f: nat) {
    0 <= i < |es| && es[i].Some? && es[i].value.frame == f
  }

  ghost predicate Unique(es: Entries) {
    && (forall i, j, f {:trigger At(es, i, f), At(es, j, f)} :: At(es, i, f) && At(es, j, f) ==> i == j)
    && (forall i {:trigger es[i]} :: 0 <= i < |es| && es[i].Some? ==> 1 <= es[i].value.refcount <= MAX_REFCOUNT)
  }

  /** The count an entry holds for `f`; 0 when there is no entry. */
  ghost function CountOf(es: Entries, f: nat): nat {
    if exists i :: At(es, i, f) then (var i :| At(es, i, f); es[i].value.refcount) else 0
  }

  lemma CountAt(es: Entries, i: nat, f: nat)
    requires Unique(es) && At(es, i, f)
    ensures CountOf(es, f) == es[i].value.refcount >= 1
  {
  }

  /** The frames that have an entry. */
  ghost function Listed(es: Entries): set<nat> {
    set i | 0 <= i < |es| && es[i].Some? :: es[i].value.frame
  }

  lemma ListedCounted(es: Entries, f: nat)
    requires Unique(es)
    ensures f in Listed(es) <==> CountOf(es, f) > 0
  {
    if i :| At(es, i, f) {
      CountAt(es, i, f);
      assert es[i].value.frame in Listed(es);
    }
    if f in Listed(es) {
      var i :| 0 <= i < |es| && es[i].Some? && es[i].value.frame == f;
      assert At(es, i, f);
    }
  }

  ghost predicate Vacancy(es: Entries) {
    exists i :: 0 <= i < |es| && es[i].None?
  }

  lemma UniquePrefix(es: Entries, n: nat)
    requires Unique(es) && n <= |es|
    ensures Unique(es[..n])
  {
    var rest := es[..n];
    forall i, j, f | At(rest, i, f) && At(rest, j, f) ensures i == j { assert At(es, i, f) && At(es, j, f); }
  }

  lemma ListedLast(es: Entries)
    requires Unique(es) && es != []
    ensures var n := |es| - 1;
            if es[n].None? then Listed(es) == Listed(es[..n])
            else Listed(es) == Listed(es[..n]) + {es[n].value.frame} && es[n].value.frame !in Listed(es[..n])
  {
    var n := |es| - 1;
    forall i | 0 <= i < n && es[i].Some? && es[n].Some? ensures es[i].value.frame != es[n].value.frame {
      assert At(es, i, es[i].value.frame) && At(es, n, es[n].value.frame);
    }
  }

  /** The table is full exactly when it has as many frames as entries. */
  lemma {:induction false} VacancyIff(es: Entries)
    requires Unique(es)
    ensures |Listed(es)| <= |es| && (Vacancy(es) <==> |Listed(es)| < |es|)
  {
    if es == [] {
      assert Listed(es) == {};
    } else {
      var rest := es[..|es| - 1];
      UniquePrefix(es, |es| - 1);
      VacancyIff(rest);
      ListedLast(es);
      if i :| 0 <= i < |rest| && rest[i].None? { assert es[i].None?; }
    }
  }

  /** One more holder can be counted: in the entry of the frame, or in a new one. */
  ghost predicate Shareable(es: Entries, f: nat) {
    if CountOf(es, f) > 0 then CountOf(es, f) < MAX_REFCOUNT else Vacancy(es)
  }

  /** Replacing the entry of `f`, or filling or clearing a slot for it, changes no other count. */
  lemma CountUpdate(es: Entries, i: nat, e: Option<CowEntry>, f: nat, g: nat)
    requires Unique(es) && i < |es| && (At(es, i, f) || (es[i].None? && forall j :: !At(es, j, f)))
    requires e.Some? ==> e.value.frame == f && 1 <= e.value.refcount <= MAX_REFCOUNT
    ensures Unique(es[i := e])
    ensures CountOf(es[i := e], g) == if g == f then (if e.Some? then e.value.refcount else 0) else CountOf(es, g)
  {
    var after := es[i := e];
    forall a, b, h | At(after, a, h) && At(after, b, h) ensures a == b {
      if a != i { assert At(es, a, h); }
      if b != i { assert At(es, b, h); }
    }
    if g == f {
      if e.Some? { CountAt(after, i, f); } else {
        forall j ensures !At(after, j, f) {
          if At(after, j, f) && j != i { assert At(es, j, f); }
        }
      }
    } else {
      if j :| At(es, j, g) {
        assert At(after, j, g);
        CountAt(es, j, g);
        CountAt(after, j, g);
      } else {
        forall j ensures !At(after, j, g) {
          if At(after, j, g) { assert At(es, j, g); }
        }
      }
    }
  }

  class CowTable {
    var entries: Entries

    ghost predicate Valid()
      reads this
    {
      |entries| == MAX_COW_FRAMES && Unique(entries)
    }

    constructor ()
      ensures Valid() && forall f :: CountOf(entries, f) == 0
    {
      entries := seq(MAX_COW_FRAMES, _ => None);
    }

    /** `find_slot`. */
    method FindSlot(f: nat) returns (r: Option<nat>)
      requires Valid()
      ensures r.Some? ==> At(entries, r.value, f) && CountOf(entries, f) == entries[r.value].value.refcount >= 1
      ensures r.None? ==> CountOf(entries, f) == 0 && forall i :: !At(entries, i, f)
    {
      for i := 0 to |entries|
        invariant forall j :: 0 <= j < i ==> !At(entries, j, f)
      {
        if entries[i].Some? && entries[i].value.frame == f {
          CountAt(entries, i, f);
          return Some(i);
        }
      }
      return None;
    }

    method FindVacant() returns (r: Option<nat>)
      ensures r.Some? ==> r.value < |entries| && entries[r.value].None?
      ensures r.None? ==> forall i :: 0 <= i < |entries| ==> entries[i].Some?
    {
      for i := 0 to |entries|
        invariant forall j :: 0 <= j < i ==> entries[j].Some?
      {
        if entries[i].None? { return Some(i); }
      }
      return None;
    }

    method Put(i: nat, e: Option<CowEntry>, f: nat)
      requires Valid() && i < |entries| && (At(entries, i, f) || (entries[i].None? && forall j :: !At(entries, j, f)))
      requires e.Some? ==> e.value.frame == f && 1 <= e.value.refcount <= MAX_REFCOUNT
      modifies this
      ensures Valid()
      ensures forall g :: CountOf(entries, g) == if g == f then (if e.Some? then e.value.refcount else 0)
              else CountOf(old(entries), g)
    {
      forall g: nat ensures CountOf(entries[i := e], g) == if g == f then (if e.Some? then e.value.refcount else 0)
          else CountOf(entries, g) {
        CountUpdate(entries, i, e, f, g);
      }
      CountUpdate(entries, i, e, f, f);
      entries := entries[i := e];
    }

    /** `share`: one more holder; the first share records two. Refused exactly when the count of a listed frame is full,
        or the frame is not listed and the table is full. */
    method Share(f: nat) returns (ok: bool)
      requires Valid()
      modifies this
      ensures Valid()
      ensures !ok ==> entries == old(entries)
      ensures ok ==> forall g :: CountOf(entries, g) ==
                       if g != f then CountOf(old(entries), g) else if CountOf(old(entries), f) == 0 then 2
                           else CountOf(old(entries), f) + 1
      ensures ok <==> Shareable(old(entries), f)
    {
      var slot := FindSlot(f);
      if slot.Some? {
        var e := entries[slot.value].value;
        ok := e.refcount < MAX_REFCOUNT;
        if ok { Put(slot.value, Some(CowEntry(f, e.refcount + 1)), f); }
      } else {
        var vacant := FindVacant();
        ok := vacant.Some?;
        if ok { Put(vacant.value, Some(CowEntry(f, 2)), f); }
      }
    }

    /** `release`: one holder fewer; `last` when nobody else holds the frame. */
    method Release(f: nat) returns (last: bool)
      requires Valid()
      modifies this
      ensures Valid() && last == (CountOf(old(entries), f) <= 1)
      ensures forall g :: CountOf(entries, g) ==
                if g != f then CountOf(old(entries), g) else if CountOf(old(entries), f) == 0 then 0
                    else CountOf(old(entries), f) - 1
    {
      var slot := FindSlot(f);
      last := true;
      if slot.Some? {
        var e := entries[slot.value].value;
        last := e.refcount <= 1;
        Put(slot.value, if last then None else Some(CowEntry(f, e.refcount - 1)), f);
      }
    }

    /** `refcount`: an unlisted frame has one holder. */
    method RefCount(f: nat) returns (n: nat)
      requires Valid()
      ensures n == if CountOf(entries, f) == 0 then 1 else CountOf(entries, f)
    {
      var slot := FindSlot(f);
      n := if slot.Some? then entries[slot.value].value.refcount else 1;
    }

    /** Drop the entry of a frame that is no longer shared. */
    method Forget(f: nat)
      requires Valid()
      modifies this
      ensures Valid() && forall g :: CountOf(entries, g) == if g == f then 0 else CountOf(old(entries), g)
    {
      var slot := FindSlot(f);
      if slot.Some? { Put(slot.value, None, f); }
    }
  }
}
