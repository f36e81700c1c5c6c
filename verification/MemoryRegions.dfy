/** Memory-map construction: appending regions, coalescing neighbours and carving reservations. */
module MemoryRegions {
  import opened Bytes

  const USABLE: nat := 0

  datatype MemoryMapError = Capacity | AddressOverflow | UnsortedReservations
  datatype Outcome = Done | Failed(error: MemoryMapError)

  /** One physical interval; `kind` is the numeric ownership kind. */
  datatype Region = Region(base: u64, length: u64, kind: nat, reserved: nat) {
    function End(): nat { base + length }
    predicate Covers(a: nat) { base <= a < base + length }
  }

  // ---------------------------------------------------------------- the meaning of a map

  /** One byte of memory and its kind. */
  datatype Cell = Cell(address: nat, kind: nat)

  /** The bytes of an interval, in order, each with its kind. */
  function IntervalBytes(base: nat, length: nat, kind: nat): (r: seq<Cell>)
    ensures |r| == length
  {
    seq(length, (i: nat) => Cell(base + i, kind))
  }

  /** The flattening of a map: every byte of every region in order. */
  function Flat(s: seq<Region>): seq<Cell> {
    if s == [] then [] else Flat(s[..|s| - 1]) + IntervalBytes(s[|s| - 1].base, s[|s| - 1].length, s[|s| - 1].kind)
  }

  /** The kinds a map gives to an address: none, one, or several where regions overlap. */
  function KindsAt(s: seq<Region>, a: nat): multiset<nat> {
    if s == [] then multiset{}
    else KindsAt(s[..|s| - 1], a) + (if s[|s| - 1].Covers(a) then multiset{s[|s| - 1].kind} else multiset{})
  }

  lemma Regroup<T>(a: seq<T>, b: seq<T>, c: seq<T>)
    ensures a + b + c == a + (b + c)
  {
  }

  lemma NoBytes(base: nat, kind: nat)
    ensures IntervalBytes(base, 0, kind) == []
  {
  }

  lemma IntervalJoin(base: nat, n: nat, m: nat, kind: nat)
    ensures IntervalBytes(base, n, kind) + IntervalBytes(base + n, m, kind) == IntervalBytes(base, n + m, kind)
  {
  }

  lemma {:induction false} IntervalCount(base: nat, n: nat, kind: nat, a: nat, k: nat)
    ensures multiset(IntervalBytes(base, n, kind))[Cell(a, k)] == if base <= a < base + n && k == kind then 1 else 0
  {
    if n > 0 {
      IntervalCount(base, n - 1, kind, a, k);
      assert IntervalBytes(base, n, kind) == IntervalBytes(base, n - 1, kind) + [Cell(base + n - 1, kind)];
    } else {
      assert IntervalBytes(base, n, kind) == [];
    }
  }

  /** The flattening and the address-to-kind function tell the same. */
  lemma {:induction false} FlatKinds(s: seq<Region>, a: nat, k: nat)
    ensures multiset(Flat(s))[Cell(a, k)] == KindsAt(s, a)[k]
  {
    if s == [] {
    } else {
      var last := s[|s| - 1];
      FlatKinds(s[..|s| - 1], a, k);
      IntervalCount(last.base, last.length, last.kind, a, k);
      hide IntervalBytes;
    }
  }

  lemma FlatSnoc(s: seq<Region>, r: Region)
    ensures Flat(s + [r]) == Flat(s) + IntervalBytes(r.base, r.length, r.kind)
  {
    assert (s + [r])[..|s|] == s;
  }

  /** Growing the last region appends the bytes of the interval that follows it. */
  lemma FlatExtend(s: seq<Region>, r: Region, n: nat)
    requires r.length + n < U64_LIMIT
    ensures Flat(s + [r.(length := r.length + n)]) == Flat(s + [r]) + IntervalBytes(r.End(), n, r.kind)
  {
    var grown := r.(length := r.length + n);
    FlatSnoc(s, r);
    FlatSnoc(s, grown);
    IntervalJoin(r.base, r.length, n, r.kind);
  }

  /** An interval that grows the last region instead of taking a new slot. */
  predicate Continues(s: seq<Region>, base: nat, kind: nat) {
    s != [] && s[|s| - 1].kind == kind && s[|s| - 1].End() == base
  }

  // ---------------------------------------------------------------- reservations

  datatype Reservation = Reservation(base: u64, length: u64, kind: nat) {
    function End(): nat { base + length }
    predicate Covers(a: nat) { base <= a < base + length }
  }

  /** The kind of the first reservation that covers an address. */
  function FindKind(rs: seq<Reservation>, a: nat): (r: Option<nat>) {
    if rs == [] then None
    else
      var before := FindKind(rs[..|rs| - 1], a);
      if before.Some? then before
      else if rs[|rs| - 1].Covers(a) then Some(rs[|rs| - 1].kind)
      else None
  }

  /** No reservation reaches into this stretch. */
  predicate Clear(rs: seq<Reservation>, from: nat, to: nat) { forall a :: from <= a < to ==> FindKind(rs, a).None? }

  function KindFor(rs: seq<Reservation>, a: nat): nat {
    if FindKind(rs, a).Some? then FindKind(rs, a).value else USABLE
  }

  /** With sorted reservations the kind found is that of the one reservation around a byte, if any. */
  lemma {:induction false} KindForExact(rs: seq<Reservation>, a: nat)
    requires Sorted(rs)
    ensures a >= LastEnd(rs) ==> FindKind(rs, a).None?
    ensures forall i :: 0 <= i < |rs| && rs[i].Covers(a) ==> FindKind(rs, a) == Some(rs[i].kind)
    ensures (forall i :: 0 <= i < |rs| ==> !rs[i].Covers(a)) ==> FindKind(rs, a) == None
  {
    if rs == [] {
    } else {
      var front := rs[..|rs| - 1];
      KindForExact(front, a);
      assert forall i :: 0 <= i < |front| ==> front[i] == rs[i];
      assert |front| > 0 ==> LastEnd(front) == rs[|rs| - 2].End() <= rs[|rs| - 1].base;
    }
  }

  /** The bytes of a usable interval after carving. */
  function Carved(rs: seq<Reservation>, base: nat, length: nat): (r: seq<Cell>)
    ensures |r| == length
  {
    seq(length, (i: nat) => Cell(base + i, KindFor(rs, base + i)))
  }

  lemma FindSnoc(rs: seq<Reservation>, r: Reservation, a: nat)
    ensures FindKind(rs + [r], a)
         == if FindKind(rs, a).Some? then FindKind(rs, a) else if r.Covers(a) then Some(r.kind) else None
  {
    assert (rs + [r])[..|rs|] == rs;
  }

  /** A reservation that starts no earlier than everything carved so far changes none of it. */
  lemma CarvedKept(rs: seq<Reservation>, r: Reservation, base: nat, length: nat)
    requires forall a :: base <= a < base + length ==> !r.Covers(a)
    ensures Carved(rs + [r], base, length) == Carved(rs, base, length)
  {
    hide FindKind;
    forall i | 0 <= i < length
      ensures Carved(rs + [r], base, length)[i] == Carved(rs, base, length)[i]
    {
      assert !r.Covers(base + i);
      FindSnoc(rs, r, base + i);
      assert KindFor(rs + [r], base + i) == KindFor(rs, base + i);
    }
  }

  /** Where all bytes of a stretch have one kind, carving it is an interval of that kind. */
  lemma CarvedUniform(rs: seq<Reservation>, base: nat, done: nat, length: nat, kind: nat)
    requires forall a :: base + done <= a < base + done + length ==> KindFor(rs, a) == kind
    ensures Carved(rs, base, done + length) == Carved(rs, base, done) + IntervalBytes(base + done, length, kind)
  {
    var all, part := Carved(rs, base, done + length), IntervalBytes(base + done, length, kind);
    forall i | done <= i < done + length
      ensures all[i] == part[i - done]
    {
      assert KindFor(rs, base + i) == kind;
    }
  }

  // ---------------------------------------------------------------- the output table

  class RegionTable {
    const slots: array<Region>
    var used: nat

    ghost predicate Valid()
      reads this, slots
    {
      && used <= slots.Length
      && forall i :: 0 <= i < used ==> slots[i].End() < U64_LIMIT
    }

    ghost function View(): seq<Region>
      requires Valid()
      reads this, slots
    {
      slots[..used]
    }

    constructor (slots: array<Region>)
      ensures Valid() && this.slots == slots && used == 0
    {
      this.slots := slots;
      used := 0;
    }

    /** Appends an interval, growing the last region when it continues it; failing changes nothing. */
    method AppendRegion(base: u64, length: u64, kind: nat) returns (r: Outcome)
      requires Valid()
      modifies this`used, slots
      ensures Valid()
      ensures r.Done? ==> Flat(View()) == Flat(old(View())) + IntervalBytes(base, length, kind)
      ensures r.Done? && length > 0 ==> base + length < U64_LIMIT
      ensures r.Failed? ==> View() == old(View())
      ensures r == Failed(AddressOverflow) <==> base + length >= U64_LIMIT && length > 0
      ensures r.Done? ==> used == old(used) + (if length == 0 || Continues(old(View()), base, kind) then 0 else 1)
      ensures r == Failed(Capacity) <==>
                length > 0 && base + length < U64_LIMIT && !Continues(old(View()), base, kind)
                    && old(used) == slots.Length
      ensures r.Done? || r == Failed(AddressOverflow) || r == Failed(Capacity)
    {
      hide Flat, IntervalBytes;
      if length == 0 {
        NoBytes(base, kind);
        return Done;
      }
      if base + length >= U64_LIMIT {
        return Failed(AddressOverflow);
      }
      ghost var before := View();
      if used > 0 {
        var previous := slots[used - 1];
        if previous.kind == kind && previous.End() == base {
          FlatExtend(slots[..used - 1], previous, length);
          assert before == slots[..used - 1] + [previous];
          slots[used - 1] := previous.(length := previous.length + length);
          assert View() == before[..used - 1] + [previous.(length := previous.length + length)];
          return Done;
        }
      }
      if used == slots.Length {
        return Failed(Capacity);
      }
      slots[used] := Region(base, length, kind, 0);
      used := used + 1;
      FlatSnoc(before, Region(base, length, kind, 0));
      assert View() == before + [Region(base, length, kind, 0)];
      r := Done;
    }

    /** Appends the next stretch of a carving. */
    method AppendStretch(from: u64, length: u64, kind: nat, ghost rs: seq<Reservation>, ghost base: nat,
                         ghost start: seq<Cell>)
      returns (r: Outcome)
      requires Valid() && base <= from && from + length < U64_LIMIT
               && Flat(View()) == start + Carved(rs, base, from - base)
      requires Carved(rs, base, from + length - base)
            == Carved(rs, base, from - base) + IntervalBytes(from, length, kind)
      modifies this`used, slots
      ensures Valid() && (r.Done? || r == Failed(Capacity))
      ensures r.Done? ==> Flat(View()) == start + Carved(rs, base, from + length - base)
      ensures r.Failed? ==>
                View() == old(View()) && used == slots.Length && length > 0 && !Continues(View(), from, kind)
    {
      hide Flat, IntervalBytes, Carved, Continues;
      r := AppendRegion(from, length, kind);
      Regroup(start, Carved(rs, base, from - base), IntervalBytes(from, length, kind));
    }

    /** Appends the usable gap before a reservation and then its overlap with the region. */
    method CarveOne(base: u64, cursor: u64, end: u64, reservation: Reservation,
                    ghost seen: seq<Reservation>, ghost start: seq<Cell>)
      returns (r: Outcome, next: u64, ghost done: nat)
      requires Valid() && base <= cursor <= end
      requires reservation.length > 0 && reservation.End() > cursor && reservation.base < end
      requires Clear(seen, cursor, end)
      requires Flat(View()) == start + Carved(seen + [reservation], base, cursor - base)
      modifies this`used, slots
      ensures Valid() && cursor <= next <= end && next <= reservation.End() && (r.Done? || r == Failed(Capacity))
      ensures r.Done? ==> Clear(seen + [reservation], next, end)
      ensures done <= end - base && Flat(View()) == start + Carved(seen + [reservation], base, done)
      ensures r.Done? ==> done == next - base
      ensures r.Failed? ==>
                used == slots.Length && done < end - base
                && !Continues(View(), base + done, KindFor(seen + [reservation], base + done))
    {
      hide Flat, IntervalBytes, Carved, FindKind, Clear, Continues, KindFor;
      var overlapStart := if reservation.base > cursor then reservation.base else cursor;
      var overlapEnd := if reservation.End() < end then reservation.End() else end;
      next, done := overlapEnd, cursor - base;
      CarveSteps(seen, reservation, base, cursor, overlapStart, overlapEnd, end);
      ghost var rs := seen + [reservation];
      r := AppendStretch(cursor, overlapStart - cursor, USABLE, rs, base, start);
      if r.Failed? {
        return;
      }
      done := overlapStart - base;
      r := AppendStretch(overlapStart, overlapEnd - overlapStart, reservation.kind, rs, base, start);
      if r.Done? {
        done := overlapEnd - base;
      }
    }

    /**
     Appends a region; a usable one is carved, so that each byte takes the kind of the reservation
     it lies in. Reservations must come sorted and disjoint.
     */
    method AppendRegionWithReservations(base: u64, length: u64, kind: nat, reservations: seq<Reservation>)
      returns (r: Outcome)
      requires Valid()
      modifies this`used, slots
      ensures Valid()
      ensures r.Done? ==>
                Flat(View()) == Flat(old(View()))
                                + (if kind == USABLE then Carved(reservations, base, length)
                                   else IntervalBytes(base, length, kind))
      ensures r == Failed(UnsortedReservations) ==> !Sorted(reservations)
      ensures r == Failed(AddressOverflow) ==> base + length >= U64_LIMIT || !Sorted(reservations)
      ensures r.Done? && kind == USABLE && length > 0 ==> Sorted(reservations)
      ensures r.Failed? ==> PartlyCarved(Flat(old(View())), Flat(View()), reservations, base, length)
      ensures r.Failed? && (kind != USABLE || length == 0) ==> View() == old(View())
      ensures r == Failed(Capacity) ==> used == slots.Length
      ensures r == Failed(Capacity) && kind != USABLE ==> !Continues(View(), base, kind)
      ensures r == Failed(Capacity) && kind == USABLE ==>
                OutOfSlots(Flat(old(View())), View(), reservations, base, length)
    {
      hide Flat, IntervalBytes, Carved, KindFor, FindKind, Sorted;
      if kind != USABLE || length == 0 {
        r := AppendRegion(base, length, kind);
        NoBytes(base, kind);
        CarvedNothing(reservations, base);
        NothingCarved(Flat(View()), reservations, base, length);
        return;
      }
      if base + length >= U64_LIMIT {
        NothingCarved(Flat(View()), reservations, base, length);
        return Failed(AddressOverflow);
      }
      r := CarveAll(base, base + length, reservations);
    }

    method CarveAll(base: u64, end: u64, reservations: seq<Reservation>) returns (r: Outcome)
      requires Valid() && base <= end
      modifies this`used, slots
      ensures Valid()
      ensures r.Done? ==> Flat(View()) == Flat(old(View())) + Carved(reservations, base, end - base)
      ensures r.Failed? && r != Failed(Capacity) ==> !Sorted(reservations)
      ensures r.Done? ==> Sorted(reservations)
      ensures r.Failed? ==> PartlyCarved(Flat(old(View())), Flat(View()), reservations, base, end - base)
      ensures r == Failed(Capacity) ==>
                used == slots.Length && OutOfSlots(Flat(old(View())), View(), reservations, base, end - base)
    {
      hide Flat, IntervalBytes, Carved, FindKind, Clear, Sorted, PartlyCarved, OutOfSlots, Continues, KindFor;
      ghost var start := Flat(View());
      var lastEnd := 0;
      var cursor := base;
      CarvedNothing(reservations[..0], base);
      assert Flat(View()) == start + [];
      for i := 0 to |reservations|
        invariant Valid() && base <= cursor <= end && (cursor == base || cursor <= lastEnd)
        invariant Sorted(reservations[..i]) && lastEnd == LastEnd(reservations[..i])
        invariant Clear(reservations[..i], cursor, end)
        invariant Flat(View()) == start + Carved(reservations[..i], base, cursor - base)
      {
        var reservation := reservations[i];
        ghost var seen := reservations[..i];
        assert reservations[..i + 1] == seen + [reservation];
        if reservation.End() >= U64_LIMIT {
          UnsortedPrefix(reservations, i);
          SomeCarved(start, Flat(View()), reservations, i, base, end - base, cursor - base);
          return Failed(AddressOverflow);
        }
        if reservation.base < lastEnd {
          UnsortedPrefix(reservations, i);
          SomeCarved(start, Flat(View()), reservations, i, base, end - base, cursor - base);
          return Failed(UnsortedReservations);
        }
        SortedSnoc(seen, reservation);
        lastEnd := reservation.End();
        CarvedKept(seen, reservation, base, cursor - base);
        if reservation.length == 0 || reservation.End() <= cursor || reservation.base >= end {
          NotCovered(seen, reservation, cursor, end);
        } else {
          ghost var done;
          r, cursor, done := CarveOne(base, cursor, end, reservation, seen, start);
          if r.Failed? {
            SomeCarved(start, Flat(View()), reservations, i + 1, base, end - base, done);
            SlotMissing(start, View(), reservations, i + 1, base, end - base, done);
            return;
          }
        }
      }
      assert reservations[..|reservations|] == reservations;
      r := Finish(base, cursor, end, reservations, start);
      if r.Failed? {
        SomeCarved(start, Flat(View()), reservations, |reservations|, base, end - base, cursor - base);
        SlotMissing(start, View(), reservations, |reservations|, base, end - base, cursor - base);
      }
    }

    method Finish(base: u64, cursor: u64, end: u64, reservations: seq<Reservation>, ghost start: seq<Cell>)
        returns (r: Outcome)
      requires Valid() && base <= cursor <= end
      requires Clear(reservations, cursor, end)
      requires Flat(View()) == start + Carved(reservations, base, cursor - base)
      modifies this`used, slots
      ensures Valid() && (r.Done? || r == Failed(Capacity))
      ensures r.Done? ==> Flat(View()) == start + Carved(reservations, base, end - base)
      ensures r.Failed? ==> View() == old(View()) && used == slots.Length && cursor < end
      ensures r.Failed? ==> !Continues(View(), cursor, KindFor(reservations, cursor))
    {
      CarveRest(reservations, base, cursor, end);
      hide Flat, IntervalBytes, Carved, KindFor, FindKind;
      r := AppendStretch(cursor, end - cursor, USABLE, reservations, base, start);
    }
  }

  /** In order, without overlap, and inside the address space. */
  predicate Sorted(rs: seq<Reservation>) {
    && (forall i :: 0 <= i < |rs| ==> rs[i].base + rs[i].length < U64_LIMIT)
    && (forall i :: 1 <= i < |rs| ==> rs[i - 1].base + rs[i - 1].length <= rs[i].base)
  }

  /** After a failure: the region's bytes up to some point, carved by the reservations seen until then. */
  ghost predicate PartlyCarved(before: seq<Cell>, after: seq<Cell>, rs: seq<Reservation>, base: nat, length: nat) {
    exists n, m :: 0 <= n <= |rs| && 0 <= m <= length && Sorted(rs[..n]) && after == before + Carved(rs[..n], base, m)
  }

  lemma SomeCarved(before: seq<Cell>, after: seq<Cell>, rs: seq<Reservation>, n: nat, base: nat, length: nat, m: nat)
    requires n <= |rs| && m <= length && Sorted(rs[..n]) && after == before + Carved(rs[..n], base, m)
    ensures PartlyCarved(before, after, rs, base, length)
  {
  }

  /** The table holds the region's bytes up to some point, and the byte there would need a slot of its own. */
  ghost predicate OutOfSlots(before: seq<Cell>, after: seq<Region>, rs: seq<Reservation>, base: nat, length: nat) {
    exists n, m ::
      && 0 <= n <= |rs| && 0 <= m < length && Sorted(rs[..n]) && Flat(after) == before + Carved(rs[..n], base, m)
      && !Continues(after, base + m, KindFor(rs[..n], base + m))
  }

  lemma SlotMissing(before: seq<Cell>, after: seq<Region>, rs: seq<Reservation>, n: nat, base: nat, length: nat, m: nat)
    requires n <= |rs| && m < length && Sorted(rs[..n]) && Flat(after) == before + Carved(rs[..n], base, m)
    requires !Continues(after, base + m, KindFor(rs[..n], base + m))
    ensures OutOfSlots(before, after, rs, base, length)
  {
    hide Flat, Carved, Continues, KindFor, Sorted;
  }

  lemma NothingCarved(cells: seq<Cell>, rs: seq<Reservation>, base: nat, length: nat)
    ensures PartlyCarved(cells, cells, rs, base, length)
  {
    CarvedNothing(rs[..0], base);
    assert cells == cells + [];
    SomeCarved(cells, cells, rs, 0, base, length, 0);
  }

  function LastEnd(rs: seq<Reservation>): nat { if rs == [] then 0 else rs[|rs| - 1].End() }

  lemma SortedSnoc(rs: seq<Reservation>, r: Reservation)
    requires Sorted(rs) && LastEnd(rs) <= r.base && r.End() < U64_LIMIT
    ensures Sorted(rs + [r]) && LastEnd(rs + [r]) == r.End()
  {
  }

  lemma UnsortedPrefix(rs: seq<Reservation>, i: nat)
    requires i < |rs| && (rs[i].base < LastEnd(rs[..i]) || rs[i].End() >= U64_LIMIT)
    ensures !Sorted(rs)
  {
    if rs[i].base < LastEnd(rs[..i]) {
      assert rs[i - 1].End() > rs[i].base;
    }
  }

  lemma CarvedNothing(rs: seq<Reservation>, base: nat)
    ensures Carved(rs, base, 0) == []
    ensures rs == [] ==> Sorted(rs) && forall from: nat, to: nat :: Clear(rs, from, to)
  {
  }

  /** A reservation outside the part still to be carved covers none of it. */
  lemma NotCovered(seen: seq<Reservation>, r: Reservation, cursor: nat, end: nat)
    requires r.length == 0 || r.End() <= cursor || r.base >= end
    requires Clear(seen, cursor, end)
    ensures Clear(seen + [r], cursor, end)
  {
    forall a | cursor <= a < end
      ensures FindKind(seen + [r], a).None?
    {
      FindSnoc(seen, r, a);
    }
  }

  /** The usable gap before a reservation and its overlap are the next two stretches of the carving. */
  lemma CarveSteps(seen: seq<Reservation>, r: Reservation, base: nat, cursor: nat, from: nat, to: nat, end: nat)
    requires base <= cursor <= from <= to <= end && r.length > 0
    requires from == (if r.base > cursor then r.base else cursor) && to == (if r.End() < end then r.End() else end)
    requires Clear(seen, cursor, end)
    ensures var rs := seen + [r];
            && Carved(rs, base, from - base)
                == Carved(rs, base, cursor - base) + IntervalBytes(cursor, from - cursor, USABLE)
            && Carved(rs, base, to - base) == Carved(rs, base, from - base) + IntervalBytes(from, to - from, r.kind)
            && (cursor < from ==> KindFor(rs, cursor) == USABLE) && (from < to ==> KindFor(rs, from) == r.kind)
            && Clear(rs, to, end)
  {
    var rs := seen + [r];
    forall a | cursor <= a < end
      ensures FindKind(rs, a) == if r.Covers(a) then Some(r.kind) else None
    {
      FindSnoc(seen, r, a);
    }
    hide FindKind;
    CarvedUniform(rs, base, cursor - base, from - cursor, USABLE);
    CarvedUniform(rs, base, from - base, to - from, r.kind);
  }

  lemma CarveRest(rs: seq<Reservation>, base: nat, cursor: nat, end: nat)
    requires base <= cursor <= end && Clear(rs, cursor, end)
    ensures Carved(rs, base, end - base)
         == Carved(rs, base, cursor - base) + IntervalBytes(cursor, end - cursor, USABLE)
    ensures cursor < end ==> KindFor(rs, cursor) == USABLE
  {
    hide FindKind;
    CarvedUniform(rs, base, cursor - base, end - cursor, USABLE);
  }
}
