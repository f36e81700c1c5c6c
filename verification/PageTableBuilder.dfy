/** The builder itself: a page pool in an array, filled in place by the loader's loops. */
module PageTableBuilder {
  import opened Bytes
  import opened Paging
  import opened PagingDemand

  datatype LoaderError = PageTables | KernelLayout
  datatype Outcome = Done | Failed(error: LoaderError)

  /** How one level of the walk of a mapping ends. */
  datatype Step = Down(table: u64) | Stopped(outcome: Outcome)

  // ---------------------------------------------------------------- address arithmetic

  /** The four indexes and the page offset make up the low 48 bits of an address. */
  lemma Decompose(a: u64)
    ensures a % 0x1_0000_0000_0000
         == 0x80_0000_0000 * Index(a, 0) + 0x4000_0000 * Index(a, 1) + 0x20_0000 * Index(a, 2)
            + 0x1000 * Index(a, 3) + a % 0x1000
    ensures a % 0x80_0000_0000
         == 0x4000_0000 * Index(a, 1) + 0x20_0000 * Index(a, 2) + 0x1000 * Index(a, 3) + a % 0x1000
    ensures a % 0x20_0000 == 0x1000 * Index(a, 3) + a % 0x1000
    ensures a % 0x80_0000_0000 / 0x20_0000 == 512 * Index(a, 1) + Index(a, 2)
  {
    var x0, r := a / 0x1000, a % 0x1000;
    var x1, i1 := x0 / 512, x0 % 512;
    var x2, i2 := x1 / 512, x1 % 512;
    var x3, i3 := x2 / 512, x2 % 512;
    var x4, i4 := x3 / 512, x3 % 512;
    var low1 := 0x1000 * i1 + r;
    var low2 := 0x20_0000 * i2 + low1;
    var low3 := 0x4000_0000 * i3 + low2;
    ModUnique(a, 0x20_0000, x1, low1);
    ModUnique(a, 0x4000_0000, x2, low2);
    ModUnique(a, 0x80_0000_0000, x3, low3);
    ModUnique(a, 0x1_0000_0000_0000, x4, 0x80_0000_0000 * i4 + low3);
    ModUnique(low3, 0x20_0000, 512 * i3 + i2, low1);
  }

  /** The canonical half an address lies in decides the top bit of its root index. */
  predicate Canonical(a: u64) { a < 0x8000_0000_0000 || a >= 0xFFFF_8000_0000_0000 }

  predicate SameHalf(a: u64, b: u64) {
    (a < 0x8000_0000_0000 && b < 0x8000_0000_0000) || (a >= 0xFFFF_8000_0000_0000 && b >= 0xFFFF_8000_0000_0000)
  }

  lemma HalfIndex(a: u64)
    requires Canonical(a)
    ensures Index(a, 0) < 256 <==> a < 0x8000_0000_0000
    ensures a % 0x1_0000_0000_0000 == if a < 0x8000_0000_0000 then a else a - 0xFFFF_0000_0000_0000
  {
    if a < 0x8000_0000_0000 {
      ModUnique(a, 0x1_0000_0000_0000, 0, a);
    } else {
      ModUnique(a, 0x1_0000_0000_0000, 0xFFFF, a - 0xFFFF_0000_0000_0000);
    }
    Decompose(a);
  }

  /** Within one canonical half, sharing a table entry means being on the same page. */
  lemma SamePageExact(p: Pool, a: u64, b: u64)
    requires p.Shape() && SameHalf(a, b)
    ensures p.SamePage(a, b) <==> a - a % 0x1000 == b - b % 0x1000
  {
    Decompose(a);
    Decompose(b);
    HalfIndex(a);
    HalfIndex(b);
    if p.SamePage(a, b) {
      var x, y := p.Prefix(a, 3), p.Prefix(b, 3);
      assert x[0] == y[0] && x[1] == y[1] && x[2] == y[2];
    } else if a - a % 0x1000 == b - b % 0x1000 {
      SameFrameSameIndexes(a, b);
      assert false;
    }
  }

  lemma SameFrameSameIndexes(a: u64, b: u64)
    requires a - a % 0x1000 == b - b % 0x1000
    ensures Index(a, 0) == Index(b, 0) && Index(a, 1) == Index(b, 1) && Index(a, 2) == Index(b, 2)
            && Index(a, 3) == Index(b, 3)
  {
    FrameIndexes(a);
    FrameIndexes(b);
  }

  /** The indexes only depend on the page number. */
  lemma FrameIndexes(a: u64)
    ensures var x := a / 0x1000;
            && Index(a, 3) == x % 512 && Index(a, 2) == x / 0x200 % 512
            && Index(a, 1) == x / 0x4_0000 % 512 && Index(a, 0) == x / 0x800_0000 % 512
  {
    var x, r := a / 0x1000, a % 0x1000;
    ModUnique(a, 0x20_0000, x / 0x200, 0x1000 * (x % 0x200) + r);
    ModUnique(a, 0x4000_0000, x / 0x4_0000, 0x1000 * (x % 0x4_0000) + r);
    ModUnique(a, 0x80_0000_0000, x / 0x800_0000, 0x1000 * (x % 0x800_0000) + r);
  }

  // ---------------------------------------------------------------- what the operations do

  /** Where a page mapping sends an address: a 2 MiB page that is there already keeps its permission. */
  function Placed(p: Pool, a: u64, physical: nat, writable: bool): (r: Target)
    requires p.Shape()
    ensures r.physical == physical
    ensures r.writable == writable <==> !OnLargePage(p, a) || p.Translate(a).value.writable == writable
  {
    if OnLargePage(p, a) then Target(physical, p.Translate(a).value.writable, true)
    else Target(physical, writable, false)
  }

  /** One page is mapped and every other translation is kept. */
  ghost predicate Mapped(p: Pool, q: Pool, v: u64, physical: nat, writable: bool)
    requires p.Shape() && q.Shape()
  {
    forall a: u64 ::
      q.Translate(a) == if p.SamePage(a, v) then Some(Placed(p, a, physical + a % 0x1000, writable)) else p.Translate(a)
  }

  /** The pages a byte range touches, counted from the page of its first byte. */
  function PageCount(v: u64, length: u64): nat
  {
    (v % 0x1000 + length + 0xFFF) / 0x1000
  }

  function PageBase(v: u64): u64 { v - v % 0x1000 }

  /** The map after n pages from v are mapped in order onto the pages from physical. */
  ghost function RangeMap(p: Pool, v: u64, physical: nat, n: nat, writable: bool, a: u64): (r: Option<Target>)
    requires p.Shape() && v + 0x1000 * n <= U64_LIMIT
    ensures (r.Some? && r.value.large) == OnLargePage(p, a)
    ensures OnLargePage(p, a) ==> r.value.writable == p.Translate(a).value.writable
  {
    if n == 0 then p.Translate(a)
    else if p.SamePage(a, v + 0x1000 * (n - 1))
      then Some(Placed(p, a, physical + 0x1000 * (n - 1) + a % 0x1000, writable))
    else RangeMap(p, v, physical, n - 1, writable, a)
  }

  /** The first n pages of a range are mapped and nothing else has changed. */
  ghost predicate RangeMapped(p: Pool, q: Pool, v: u64, physical: nat, n: nat, writable: bool)
    requires p.Shape() && q.Shape()
  {
    v + 0x1000 * n <= U64_LIMIT && forall a: u64 :: q.Translate(a) == RangeMap(p, v, physical, n, writable, a)
  }

  /**
   A range of `count` pages that failed at page n: the pool had what the n pages before it take and not
   what this page takes as well, and the n pages are in place. The pool is full unless a large page was
   in the way.
   */
  ghost predicate FailedAt(p: Pool, q: Pool, v: u64, physical: u64, count: nat, writable: bool, n: nat)
    requires p.Shape() && q.Shape() && v + 0x1000 * count <= U64_LIMIT && n < count
  {
    && Mappable(p, v, physical, n) && !Mappable(p, v, physical, n + 1)
    && q.used == (if PageBlocked(p, v, physical, n) then p.used + |RangeTables(p, v, n)| else |p.tables|)
    && (physical + 0x1000 * count <= 0x10_0000_0000_0000 ==> RangeMapped(p, q, v, physical, n, writable))
  }

  ghost predicate PartlyMapped(p: Pool, q: Pool, v: u64, physical: u64, count: nat, writable: bool)
    requires p.Shape() && q.Shape() && v + 0x1000 * count <= U64_LIMIT
  {
    exists n: nat :: n < count && FailedAt(p, q, v, physical, count, writable, n)
  }

  /**
   The outcome of mapping a range: success exactly on what is mappable, with the tables counted, or the first
   page that is not.
   */
  ghost predicate Mapping(p: Pool, q: Pool, v: u64, physical: u64, count: nat, writable: bool, r: Outcome)
    requires p.Shape() && q.Shape()
  {
    && v + 0x1000 * count <= U64_LIMIT
    && (r.Done? <==> Mappable(p, v, physical, count))
    && (r.Done? ==> Grown(p, q, RangeTables(p, v, count)))
    && (r.Failed? ==> r.error == LoaderError.PageTables && PartlyMapped(p, q, v, physical, count, writable))
  }

  /** Identity and higher-half windows over the first 4 GiB; the other slots are kept. */
  function WindowMap(p: Pool, blocks: nat, a: u64): Option<Target>
    requires p.Shape()
  {
    if !InWindowSlot(a) then p.Translate(a)
    else if a % 0x80_0000_0000 / 0x20_0000 < blocks then Some(Target(a % 0x80_0000_0000, true, true))
    else None
  }

  ghost predicate WindowsMapped(p: Pool, q: Pool, blocks: nat)
    requires p.Shape() && q.Shape()
  {
    forall a: u64 :: q.Translate(a) == WindowMap(p, blocks, a)
  }

  lemma LargePage(p: Pool, v: u64, a: u64, t: nat, physical: nat)
    requires p.Ok() && p.Reach(v, 2) == Some(t) && v % 0x1000 == 0 && p.SamePage(a, v)
    requires Present(p.tables[t][Index(v, 2)]) && Large(p.tables[t][Index(v, 2)])
    requires LargeAddress(p.tables[t][Index(v, 2)]) + v % 0x20_0000 == physical
    ensures p.Translate(a).Some? && p.Translate(a).value.large && p.Translate(a).value.physical == physical + a % 0x1000
  {
    Decompose(a);
    Decompose(v);
    PrefixSteps(p, a);
    PrefixSteps(p, v);
    hide Index, Pool.Reach, Pool.Prefix, Pool.Ok, LargeAddress, Present, Large, Pool.Translate;
    OkShape(p);
    assert p.Prefix(a, 2) == p.Prefix(v, 2) && Index(a, 2) == Index(v, 2);
    SamePrefixReach(p, a, v, 2);
    LargeStops(p, a, t);
  }

  lemma HhdmPage(physical: u64, length: u64)
    requires HHDM_OFFSET + physical < U64_LIMIT
    ensures var v := HHDM_OFFSET + physical;
            && v % 0x1000 == physical % 0x1000 && PageBase(v) == HHDM_OFFSET + PageBase(physical)
            && PageCount(v, length) == PageCount(physical, length)
  {
    ShiftDigit(physical, 0x1000, 0xF_FFF8_0000_0000);
  }

  /** Where the loop over the pages of a range starts and ends. */
  lemma RangeEnd(v: u64, length: u64)
    ensures var page, count := v / 0x1000 * 0x1000, PageCount(v, length);
            && page == PageBase(v) && page % 0x1000 == 0
            && (v + length + 0xFFF) / 0x1000 * 0x1000 == page + 0x1000 * count
            && (v + length <= 0x10_0000_0000_0000 ==> page + 0x1000 * count <= 0x10_0000_0000_0000)
  {
    var off := v % 0x1000;
    var x := off + length + 0xFFF;
    ModUnique(v + length + 0xFFF, 0x1000, v / 0x1000 + x / 0x1000, x % 0x1000);
    ModUnique(v / 0x1000 * 0x1000, 0x1000, v / 0x1000, 0);
  }

  lemma RangeStart(p: Pool, v: u64, physical: u64, writable: bool)
    requires p.Shape()
    ensures Grown(p, p, RangeTables(p, v, 0)) && Mappable(p, v, physical, 0)
    ensures RangeMapped(p, p, v, physical, 0, writable)
  {
    GrownNone(p);
  }

  /** A range that fails at page n, as its caller sees it. */
  lemma RangeStops(start: Pool, p: Pool, q: Pool, v: u64, physical: u64, count: nat, writable: bool, n: nat)
    requires start.Shape() && v + 0x1000 * count <= U64_LIMIT && n < count
    requires Grown(start, p, RangeTables(start, v, n)) && Mappable(start, v, physical, n) && SameMap(p, q)
    requires !Mappable(start, v, physical, n + 1)
    requires if PageBlocked(p, v, physical, n) then q == p else q.used == |p.tables|
    requires physical + 0x1000 * count <= 0x10_0000_0000_0000 ==> RangeMapped(start, p, v, physical, n, writable)
    ensures !Mappable(start, v, physical, count) && PartlyMapped(start, q, v, physical, count, writable)
  {
    hide Pool.Translate, Grown, Mappable, RangeTables, RangeMap, Blocked;
    GrownFacts(start, p, RangeTables(start, v, n), v + 0x1000 * n);
    assert PageBlocked(p, v, physical, n) == PageBlocked(start, v, physical, n);
    if Mappable(start, v, physical, count) {
      MappableShorter(start, v, physical, count, n + 1);
    }
    assert FailedAt(start, q, v, physical, count, writable, n);
  }

  lemma GrownStart(p: Pool, va: u64)
    requires p.Shape()
    ensures Grown(p, p, TablesTo(p, va, 0)) && p.Reach(va, 0) == Some(0)
  {
    GrownNone(p);
  }

  lemma ReachBefore(p: Pool, va: u64, depth: nat)
    requires p.Shape() && depth < 3
    ensures p.Reach(va, depth + 1).Some? ==> p.Reach(va, depth).Some?
  {
  }

  /** Only a table at the last level but one holds large pages. */
  lemma LargeReach(p: Pool, va: u64)
    requires p.Ok() && OnLargePage(p, va)
    ensures p.Reach(va, 2).Some? && p.Reach(va, 1).Some?
  {
    hide Pool.Reach, Index, Address, Pool.ChildPath, HugeAddress, LargeAddress, Writable;
    ReachBefore(p, va, 1);
    ReachPath(p, va, 1);
    if p.Reach(va, 1).Some? {
      var t, k := p.Reach(va, 1).value, Index(va, 1);
      assert p.EntryOk(t, k);
      if p.tables[t][k] != 0 {
        LinkFacts(p, p.PageOf(Address(p.tables[t][k])));
      }
    }
  }

  /** A walk that stops in the grown pool, in terms of the pool it started from. */
  lemma StopsForReason(start: Pool, p: Pool, va: u64, physical: nat, depth: nat)
    requires start.Ok() && p.Shape() && depth < 3 && Grown(start, p, TablesTo(start, va, depth))
    requires p.Reach(va, depth).Some? && (start.Reach(va, depth).Some? ==> p == start)
    requires OnLargePage(p, va) || (p.used == |p.tables| && p.Reach(va, depth + 1).None?)
    ensures OnLargePage(p, va) ==> p == start && Tables(start, va) == {} && start.used <= |start.tables|
    ensures OnLargePage(p, va) ==> Grown(start, p, Tables(start, va))
    ensures !OnLargePage(p, va) ==>
              !Blocked(start, va, physical) && !Blocked(p, va, physical)
                  && start.used + |Tables(start, va)| > |start.tables|
  {
    hide Pool.Reach, Pool.Translate, Pool.Ok, Grown, OnLargePage;
    OkShape(start);
    GrownFacts(start, p, TablesTo(start, va, depth), va);
    if OnLargePage(p, va) {
      LargeReach(start, va);
      ReachBefore(start, va, 0);
      GrownNone(start);
    } else {
      TableAfter(start, p, TablesTo(start, va, depth), va, depth + 1);
      var prefix := p.Prefix(va, depth + 1);
      assert prefix in TableAt(p, va, depth + 1);
      TablesDeeper(start, va, depth);
      SubsetSize(TablesTo(start, va, depth) + {prefix}, Tables(start, va));
    }
  }

  lemma TablesDeeper(p: Pool, va: u64, depth: nat)
    requires p.Shape() && depth < 3
    ensures TablesTo(p, va, depth) + TableAt(p, va, depth + 1) <= TablesTo(p, va, 3)
  {
    hide TableAt;
    assert TablesTo(p, va, 3) == TablesTo(p, va, 2) + TableAt(p, va, 3);
    assert TablesTo(p, va, 2) == TablesTo(p, va, 1) + TableAt(p, va, 2);
    assert TablesTo(p, va, 1) == TablesTo(p, va, 0) + TableAt(p, va, 1);
  }

  /** A walk that gets to its leaf has added every table that was missing. */
  lemma LeafDone(start: Pool, p: Pool, q: Pool, va: u64, physical: nat)
    requires start.Shape() && p.Shape() && p.Reach(va, 3).Some?
    requires Grown(start, p, TablesTo(start, va, 3)) && Grown(p, q, {})
    ensures !Blocked(start, va, physical) && Grown(start, q, Tables(start, va))
    ensures q.used == start.used + |Tables(start, va)|
  {
    hide Pool.Reach, Pool.Translate, Grown, OnLargePage, TablesTo;
    GrownFacts(start, p, TablesTo(start, va, 3), va);
    LeafNotLarge(p, va);
    GrownThen(start, p, q, TablesTo(start, va, 3), {});
    assert TablesTo(start, va, 3) + {} == Tables(start, va);
    GrownFacts(start, q, Tables(start, va), va);
  }

  lemma RangeStep(start: Pool, p: Pool, q: Pool, v: u64, physical: nat, n: nat, writable: bool)
    requires start.Shape() && p.Shape() && q.Shape() && p.Shared() == start.Shared()
    requires v + 0x1000 * (n + 1) <= U64_LIMIT
    requires RangeMapped(start, p, v, physical, n, writable)
    requires Mapped(p, q, v + 0x1000 * n, physical + 0x1000 * n, writable)
    ensures RangeMapped(start, q, v, physical, n + 1, writable)
  {
    hide Pool.Translate, Pool.SamePage;
    forall a: u64
      ensures q.Translate(a) == RangeMap(start, v, physical, n + 1, writable, a)
    {
      SamePageShared(start, p, a, v + 0x1000 * n);
      assert p.Translate(a) == RangeMap(start, v, physical, n, writable, a);
    }
  }

  // ---------------------------------------------------------------- the windows

  lemma GibIndexes(gib: nat, entry: nat)
    requires gib < 4 && entry < 512
    ensures var v := (gib * 512 + entry) * 0x20_0000; Index(v, 0) == 0 && Index(v, 1) == gib && Index(v, 2) == entry
  {
    var v := (gib * 512 + entry) * 0x20_0000;
    ModUnique(v, 0x80_0000_0000, 0, v);
    ModUnique(v, 0x4000_0000, gib, entry * 0x20_0000);
    ModUnique(v, 0x20_0000, gib * 512 + entry, 0);
  }

  lemma WindowsStart(p: Pool)
    requires p.Ok() && p.used < |p.tables|
    ensures p.Link(p.used) < U64_LIMIT
    ensures var q := WindowRoots(p);
            && q.Ok() && q.Shared() && q.used == p.used + 1
            && q.tables[0][0] == q.Link(p.used)
            && (forall k :: 0 <= k < 512 ==> q.tables[p.used][k] == 0)
            && WindowsMapped(p, q, 0)
  {
    hide Pool.Translate, Pool.Reach;
    WindowRootsMap(p);
  }

  lemma GibTable(p: Pool, gib: nat, u: nat)
    requires p.Ok() && gib < 4 && 1 <= u < p.used && p.tables[0][0] == p.Link(u)
    ensures p.Reach(gib * 0x4000_0000, 1) == Some(u)
  {
    GibIndexes(gib, 0);
    assert p.Reach(gib * 0x4000_0000, 0) == Some(0);
    StepDown(p, gib * 0x4000_0000, 0, 0, u);
  }

  lemma SameMapWindows(start: Pool, p: Pool, q: Pool, n: nat)
    requires start.Shape() && SameMap(p, q) && WindowsMapped(start, p, n)
    ensures WindowsMapped(start, q, n)
  {
    hide Pool.Translate, WindowMap;
  }

  /** Writing the next 2 MiB entry of a page directory extends both windows by that range. */
  lemma BlockWrite(start: Pool, p: Pool, gib: nat, entry: nat, t: nat)
    requires start.Shape() && p.Ok() && p.Shared() && gib < 4 && entry < 512
    requires p.Reach(gib * 0x4000_0000, 2) == Some(t)
    requires WindowsMapped(start, p, 512 * gib + entry)
    ensures var q := p.Write(t, entry, (gib * 512 + entry) * 0x20_0000 + 131);
            && q.Ok() && q.Shared() && q.Reach(gib * 0x4000_0000, 2) == Some(t)
            && WindowsMapped(start, q, 512 * gib + entry + 1)
  {
    hide Pool.Ok, Pool.Reach, Pool.Translate, Index, Present, Large, LargeAddress, WindowMap;
    var g := gib * 0x4000_0000;
    var v := (gib * 512 + entry) * 0x20_0000;
    var e := v + 131;
    GibIndexes(gib, 0);
    GibIndexes(gib, entry);
    OkShape(p);
    LargeFacts(e, v);
    SamePrefixReach(p, v, g, 2);
    LargeWrite(p, v, t, e);
    var q := p.Write(t, entry, e);
    OkShape(q);
    SamePrefixReach(q, g, v, 2);
    forall a: u64
      ensures q.Translate(a) == WindowMap(start, 512 * gib + entry + 1, a)
    {
      BlockOf(p, a, gib, entry);
      WindowGrows(start, 512 * gib + entry, a);
    }
  }

  /** The addresses of a window's 2 MiB range are those whose block number is that of the entry. */
  lemma BlockOf(p: Pool, a: u64, gib: nat, entry: nat)
    requires p.Shape() && p.Shared() && gib < 4 && entry < 512
    ensures SameLarge(p, a, (gib * 512 + entry) * 0x20_0000)
       <==> InWindowSlot(a) && a % 0x80_0000_0000 / 0x20_0000 == 512 * gib + entry
  {
    var v := (gib * 512 + entry) * 0x20_0000;
    GibIndexes(gib, entry);
    Decompose(a);
    hide Index;
    var x, y := p.Prefix(a, 3), p.Prefix(v, 3);
    assert x == [p.Slot(Index(a, 0)), Index(a, 1), Index(a, 2)];
    assert y == [0, gib, entry];
    if x == y {
      assert x[0] == y[0] && x[1] == y[1] && x[2] == y[2];
    }
  }

  lemma WindowGrows(start: Pool, n: nat, a: u64)
    requires start.Shape()
    ensures WindowMap(start, n + 1, a)
         == if InWindowSlot(a) && a % 0x80_0000_0000 / 0x20_0000 == n
              then Some(Target(0x20_0000 * n + a % 0x20_0000, true, true))
            else WindowMap(start, n, a)
  {
    hide Pool.Translate;
    Decompose(a);
  }

  /** The windows, address by address: the first 4 GiB twice, and nothing else in those slots. */
  lemma WindowsExact(p: Pool, a: u64)
    requires p.Shape() && Canonical(a)
    ensures WindowMap(p, 2048, a)
         == if a < 0x1_0000_0000 then Some(Target(a, true, true))
            else if HHDM_OFFSET <= a < HHDM_OFFSET + 0x1_0000_0000 then Some(Target(a - HHDM_OFFSET, true, true))
            else if a < 0x80_0000_0000 || HHDM_OFFSET <= a < HHDM_OFFSET + 0x80_0000_0000 then None
            else p.Translate(a)
  {
    hide Pool.Translate;
    HalfIndex(a);
    Decompose(a);
  }

  // ---------------------------------------------------------------- mapped ranges

  /** The address in b's half that walks through the same entries as a. */
  function Alias(p: Pool, a: u64, b: u64): u64
    requires p.Shape()
  {
    if SameHalf(a, b) || !p.Shared() || !InWindowSlot(a) then a
    else if a < 0x8000_0000_0000 then a + HHDM_OFFSET
    else if a >= HHDM_OFFSET then a - HHDM_OFFSET
    else a
  }

  lemma AliasIndexes(a: u64)
    requires Canonical(a) && InWindowSlot(a)
    ensures var b := if a < 0x8000_0000_0000 then a + HHDM_OFFSET else a - HHDM_OFFSET;
            && b < U64_LIMIT && InWindowSlot(b) && a % 0x1000 == b % 0x1000
            && Index(a, 1) == Index(b, 1) && Index(a, 2) == Index(b, 2) && Index(a, 3) == Index(b, 3)
  {
    HalfIndex(a);
    var low := if a < 0x8000_0000_0000 then a else a - HHDM_OFFSET;
    HhdmIndexes(low);
  }

  lemma HhdmIndexes(x: nat)
    requires x < 0x8000_0000_0000
    ensures var b: u64 := x + HHDM_OFFSET;
            && b % 0x1000 == x % 0x1000 && Index(b, 0) == Index(x, 0) + 256
            && Index(b, 1) == Index(x, 1) && Index(b, 2) == Index(x, 2) && Index(b, 3) == Index(x, 3)
  {
    var h: u64 := 0xFFFF_8000_0000_0000;
    ShiftDigit(x, 0x1000, 0xF_FFF8_0000_0000);
    ShiftDigit(x / 0x1000, 512, 0x7FF_FC00_0000);
    ShiftDigit(x, 0x20_0000, 0x7FF_FC00_0000);
    ShiftDigit(x / 0x20_0000, 512, 0x3_FFFE_0000);
    ShiftDigit(x, 0x4000_0000, 0x3_FFFE_0000);
    ShiftDigit(x / 0x4000_0000, 512, 0x1FF_FF00);
    ShiftDigit(x, 0x80_0000_0000, 0x1FF_FF00);
    ModUnique(x / 0x80_0000_0000 + 0x1FF_FF00, 512, 0xFFFF, x / 0x80_0000_0000 + 256);
    ModUnique(x / 0x80_0000_0000, 512, 0, x / 0x80_0000_0000);
  }

  lemma ShiftDigit(x: nat, m: nat, s: nat)
    requires m > 0
    ensures (x + m * s) / m == x / m + s && (x + m * s) % m == x % m
  {
    assert x + m * s == m * (x / m + s) + x % m;
    ModUnique(x + m * s, m, x / m + s, x % m);
  }

  /** Which addresses share a page's entry: its own page, seen through the shared slot. */
  lemma SamePageAlias(p: Pool, a: u64, b: u64)
    requires p.Shape() && Canonical(a) && Canonical(b)
    ensures p.SamePage(a, b) <==> Alias(p, a, b) - a % 0x1000 == b - b % 0x1000
    ensures Alias(p, a, b) % 0x1000 == a % 0x1000
  {
    if SameHalf(a, b) {
      SamePageExact(p, a, b);
    } else if p.Shared() && InWindowSlot(a) {
      AliasIndexes(a);
      var c := Alias(p, a, b);
      assert p.Prefix(a, 3) == p.Prefix(c, 3);
      SamePageExact(p, c, b);
    } else {
      HalfIndex(a);
      HalfIndex(b);
      assert p.Prefix(a, 3)[0] != p.Prefix(b, 3)[0];
    }
  }

  /**
   A mapped range, address by address: exactly the addresses on its pages (seen through the shared
   slot) get the frames, in order, and every other canonical address keeps its translation.
   */
  lemma {:induction false} RangeExact(p: Pool, v: u64, physical: nat, n: nat, writable: bool, a: u64)
    requires p.Shape() && v % 0x1000 == 0 && v + 0x1000 * n <= U64_LIMIT && Canonical(a) && Canonical(v)
    requires n > 0 ==> SameHalf(v, v + 0x1000 * n - 1)
    ensures var c := Alias(p, a, v);
            RangeMap(p, v, physical, n, writable, a)
            == if v <= c < v + 0x1000 * n then Some(Placed(p, a, physical + (c - v), writable)) else p.Translate(a)
  {
    hide Pool.Translate, Pool.SamePage, Pool.Shared, Pool.Slot, Placed, OnLargePage;
    if n == 0 {
    } else {
      RangeExact(p, v, physical, n - 1, writable, a);
      var b := v + 0x1000 * (n - 1);
      SamePageAlias(p, a, b);
      ModUnique(b, 0x1000, v / 0x1000 + (n - 1), 0);
      PageBounds(Alias(p, a, v), b);
    }
  }

  /**
   A mapped byte range: each of its addresses goes to the physical byte at the same distance, with the
   permission asked for unless a 2 MiB page was there already; an address on none of its pages, seen
   through the shared slot, keeps its translation.
   */
  lemma KernelRange(p: Pool, v: u64, physical: u64, length: u64, writable: bool, a: u64)
    requires p.Shape() && v % 0x1000 == physical % 0x1000 && v + length + 0xFFF < U64_LIMIT && Canonical(a)
             && Canonical(v)
    requires length > 0 ==> SameHalf(v, v + length - 1)
    ensures v - v % 0x1000 + 0x1000 * PageCount(v, length) <= U64_LIMIT
    ensures var page, n := v - v % 0x1000, PageCount(v, length);
            var r := RangeMap(p, page, physical - physical % 0x1000, n, writable, a);
            && (v <= a < v + length ==> r == Some(Placed(p, a, physical + (a - v), writable)))
            && (v <= a < v + length ==>
                  (r.value.writable == writable <==> !OnLargePage(p, a) || p.Translate(a).value.writable == writable))
            && (!(page <= Alias(p, a, page) < page + 0x1000 * n) ==> r == p.Translate(a))
  {
    hide Pool.Translate, Pool.Shared, RangeMap, Placed, OnLargePage;
    var page, n := v - v % 0x1000, PageCount(v, length);
    PagesCover(v, length);
    PagesOneHalf(v, length);
    RangeExact(p, page, physical - physical % 0x1000, n, writable, a);
  }

  /** Behind the windows nothing hinders a page of the first 4 GiB, and it keeps its permission. */
  lemma InWindow(start: Pool, p: Pool, a: u64)
    requires p.Ok() && start.Shape() && WindowsMapped(start, p, 2048) && a % 0x1000 == 0 && a < 0x1_0000_0000
    ensures Mappable(p, a, a, 1) && RangeMap(p, a, a, 1, false, a) == Some(Target(a, true, true))
  {
    hide Pool.Translate, Pool.Prefix, Pool.Reach, Pool.Ok, TablesTo;
    OkShape(p);
    WindowsExact(start, a);
    assert p.Translate(a) == Some(Target(a, true, true));
    assert p.SamePage(a, a);
    ModUnique(a, U64_LIMIT, 0, a);
    assert !PageBlocked(p, a, a, 0);
    assert RangeTables(p, a, 0) == {};
    assert RangeTables(p, a, 1) == {};
  }

  /** A page that nothing maps through a large page can be mapped when three tables are left. */
  lemma OnePage(p: Pool, v: u64, physical: u64)
    requires p.Shape() && v + 0x1000 <= U64_LIMIT && v % 0x1000 == 0 && !OnLargePage(p, v) && p.used + 3 <= |p.tables|
    ensures Mappable(p, v, physical, 1)
    ensures RangeMap(p, v, physical, 1, true, v) == Some(Target(physical, true, false))
  {
    hide Pool.Translate, Pool.Prefix, Pool.Reach, TablesTo;
    TablesParts(p, v);
    assert p.SamePage(v, v);
    assert RangeTables(p, v, 0) == {};
    assert RangeTables(p, v, 1) == Tables(p, v);
    assert !PageBlocked(p, v, physical, 0);
  }

  /** A range of no bytes takes no page exactly when it starts on a page boundary, and one page otherwise. */
  lemma EmptyRange(v: u64)
    ensures PageCount(v, 0) == 0 <==> v % 0x1000 == 0
    ensures PageCount(v, 0) <= 1
  {
    var off := v % 0x1000;
    if off == 0 {
      ModUnique(0xFFF, 0x1000, 0, 0xFFF);
    } else {
      ModUnique(off + 0xFFF, 0x1000, 1, off - 1);
    }
  }

  /** The pages of a range within one canonical half lie in that half. */
  lemma PagesOneHalf(v: u64, length: u64)
    requires Canonical(v) && v + length + 0xFFF < U64_LIMIT && (length > 0 ==> SameHalf(v, v + length - 1))
    ensures var page, n := v - v % 0x1000, PageCount(v, length);
            Canonical(page) && (n > 0 ==> page + 0x1000 * n <= U64_LIMIT && SameHalf(page, page + 0x1000 * n - 1))
  {
    var q, off, n := v / 0x1000, v % 0x1000, PageCount(v, length);
    assert v == 0x1000 * q + off;
    PagesCover(v, length);
    assert 0x1000 * (q + n) < v + length + 0x1000;
    if v < 0x8000_0000_0000 {
      assert q < 0x8_0000_0000;
      assert n > 0 ==> q + n - 1 < 0x8_0000_0000;
    } else {
      assert q >= 0xF_FFF8_0000_0000;
    }
  }

  lemma PagesCover(v: u64, length: u64)
    ensures var page, n := v - v % 0x1000, PageCount(v, length);
            && page % 0x1000 == 0 && v + length <= page + 0x1000 * n <= v + length + 0xFFF
  {
    var x := v % 0x1000 + length + 0xFFF;
    assert x == 0x1000 * (x / 0x1000) + x % 0x1000;
    ModUnique(v - v % 0x1000, 0x1000, v / 0x1000, 0);
  }

  lemma PageBounds(c: nat, b: nat)
    requires b % 0x1000 == 0
    ensures c - c % 0x1000 == b <==> b <= c < b + 0x1000
  {
    if b <= c < b + 0x1000 {
      ModUnique(c, 0x1000, b / 0x1000, c - b);
    }
  }

  lemma ReachedEntry(p: Pool, va: u64, depth: nat, t: nat)
    requires p.Ok() && depth < 3 && p.Reach(va, depth) == Some(t)
    ensures t < p.used && |p.path[t]| == depth && p.EntryOk(t, Index(va, depth))
  {
    ReachPath(p, va, depth);
  }

  lemma EmptyWhenAbsent(p: Pool, t: nat, k: nat)
    requires p.Shape() && t < p.used && k < 512 && |p.path[t]| < 3 && p.EntryOk(t, k)
    requires !Present(p.tables[t][k])
    ensures p.tables[t][k] == 0
  {
    var c := p.PageOf(Address(p.tables[t][k]));
    if 1 <= c < p.used {
      LinkFacts(p, c);
    }
  }

  lemma LeafMapped(p: Pool, va: u64, t: nat, physical: u64, writable: bool)
    requires p.Ok() && p.Reach(va, 3) == Some(t) && physical % 0x1000 == 0 && physical < 0x10_0000_0000_0000
    ensures var q := p.Write(t, Index(va, 3), physical + (if writable then 3 else 1));
            q.Shape() && Mapped(p, q, va, physical, writable)
  {
    hide Pool.Ok, Pool.EntryOk, Pool.Reach, Pool.Translate, Index, Present, Writable, Address, OnLargePage;
    OkShape(p);
    var leaf := physical + (if writable then 3 else 1);
    LeafWrite(p, va, t, leaf);
    LeafFacts(leaf, physical);
    var q := p.Write(t, Index(va, 3), leaf);
    OkShape(q);
    forall a: u64
      ensures q.Translate(a) == if p.SamePage(a, va) then Some(Placed(p, a, physical + a % 0x1000, writable))
                                else p.Translate(a)
    {
      if p.SamePage(a, va) {
        SamePrefixReach(p, a, va, 3);
        LeafNotLarge(p, a);
      }
    }
  }

  lemma MappedFrom(start: Pool, p: Pool, q: Pool, v: u64, physical: nat, writable: bool)
    requires SameMap(start, p) && q.Shape() && Mapped(p, q, v, physical, writable)
    ensures Mapped(start, q, v, physical, writable)
  {
    hide Pool.Translate, Pool.SamePage;
    forall a: u64
      ensures q.Translate(a) == if start.SamePage(a, v) then Some(Placed(start, a, physical + a % 0x1000, writable))
                                else start.Translate(a)
    {
      SamePageShared(start, p, a, v);
      assert p.Translate(a) == start.Translate(a);
    }
  }

  /** A present entry above the leaf level is a link, and the walk goes on behind it. */
  lemma FollowLink(p: Pool, va: u64, depth: nat, t: nat)
    requires p.Ok() && depth < 3 && p.Reach(va, depth) == Some(t) && t < p.used && |p.path[t]| == depth
    requires p.EntryOk(t, Index(va, depth))
    requires var e := p.tables[t][Index(va, depth)]; Present(e) && !Large(e)
    ensures var table := Address(p.tables[t][Index(va, depth)]);
            && table % 0x1000 == 0 && p.base <= table < p.TableAddress(|p.tables|)
            && p.Reach(va, depth + 1) == Some(p.PageOf(table))
  {
    var e := p.tables[t][Index(va, depth)];
    assert e != 0;
    var c := p.PageOf(Address(e));
    assert 1 <= c < p.used;
    LinkFacts(p, c);
  }

  lemma LargeMet(p: Pool, va: u64, depth: nat, t: nat)
    requires p.Ok() && depth < 3 && p.Reach(va, depth) == Some(t) && t < p.used && |p.path[t]| == depth
    requires Large(p.tables[t][Index(va, depth)]) && p.EntryOk(t, Index(va, depth))
    ensures depth == 2 && Present(p.tables[t][Index(va, depth)])
  {
    var e := p.tables[t][Index(va, depth)];
    var c := p.PageOf(Address(e));
    if 1 <= c < p.used {
      LinkFacts(p, c);
    }
  }

  lemma SamePageShared(p: Pool, q: Pool, a: u64, b: u64)
    requires p.Shape() && q.Shape() && p.Shared() == q.Shared()
    ensures p.SamePage(a, b) == q.SamePage(a, b)
  {
  }

  lemma LargeAlready(start: Pool, p: Pool, va: u64, t: nat, physical: u64, writable: bool)
    requires p.Ok() && SameMap(start, p) && p.Reach(va, 2) == Some(t) && va % 0x1000 == 0
    requires Present(p.tables[t][Index(va, 2)]) && Large(p.tables[t][Index(va, 2)])
    requires LargeAddress(p.tables[t][Index(va, 2)]) + va % 0x20_0000 == physical
    ensures Mapped(start, p, va, physical, writable)
  {
    hide Pool.Translate, Pool.Reach, Pool.Ok, Pool.SamePage, Index, Large, Present, LargeAddress;
    OkShape(p);
    forall a: u64
      ensures p.Translate(a) == if start.SamePage(a, va) then Some(Placed(start, a, physical + a % 0x1000, writable))
                                else start.Translate(a)
    {
      SamePageShared(start, p, a, va);
      assert p.Translate(a) == start.Translate(a);
      if p.SamePage(a, va) {
        LargePage(p, va, a, t, physical);
      }
    }
  }

  // ---------------------------------------------------------------- the builder

  class PageTables {
    const base: u64
    const capacity: nat
    const memory: array2<u64>
    var used: nat
    ghost var pool: Pool

    /** The ghost pool is the content of the memory. */
    ghost predicate Synced()
      reads this, memory
    {
      && memory.Length0 == capacity && memory.Length1 == 512
      && pool.Shape() && pool.base == base && |pool.tables| == capacity && pool.used == used
      && forall t, k :: 0 <= t < capacity && 0 <= k < 512 ==> memory[t, k] == pool.tables[t][k]
    }

    ghost predicate Valid()
      reads this, memory
    {
      Synced() && pool.Ok()
    }

    /** The caller hands over page-aligned memory, all of which is zeroed; table addresses have 52 bits. */
    constructor (base: u64, capacity: nat)
      requires base % 0x1000 == 0 && capacity >= 7
      ensures used == 1 && this.base == base && this.capacity == capacity && fresh(memory)
      ensures memory.Length0 == capacity && memory.Length1 == 512
      ensures forall t, k :: 0 <= t < capacity && 0 <= k < 512 ==> memory[t, k] == 0
      ensures base + 0x1000 * capacity <= 0x10_0000_0000_0000 ==>
                Valid() && forall a: u64 :: pool.Translate(a) == None
    {
      this.base := base;
      this.capacity := capacity;
      memory := new u64[capacity, 512]((_, _) => 0);
      used := 1;
      var row: seq<u64> := seq(512, _ => 0);
      pool := Pool(base, seq(capacity, _ => row), 1, [[]]);
      new;
      if base + 0x1000 * capacity <= 0x10_0000_0000_0000 {
        forall a: u64
          ensures pool.Translate(a) == None
        {
          assert pool.Reach(a, 0) == Some(0);
          EmptyEntry(pool, a, 0, 0);
        }
      }
    }

    /** Refuses misaligned memory and pools too small for the windows and one kernel mapping. */
    static method Create(base: u64, capacity: nat) returns (r: Option<PageTables>)
      ensures r.None? <==> base % 0x1000 != 0 || capacity < 7
      ensures r.Some? ==>
                && fresh(r.value) && fresh(r.value.memory) && r.value.used == 1
                && r.value.base == base && r.value.capacity == capacity == r.value.memory.Length0
                && r.value.memory.Length1 == 512
                && forall t, k :: 0 <= t < capacity && 0 <= k < 512 ==> r.value.memory[t, k] == 0
      ensures r.Some? && base + 0x1000 * capacity <= 0x10_0000_0000_0000 ==>
                r.value.Valid() && forall a: u64 :: r.value.pool.Translate(a) == None
    {
      if base % 0x1000 != 0 || capacity < 7 {
        return None;
      }
      var tables := new PageTables(base, capacity);
      r := Some(tables);
    }

    /** Bumps the pool: each page is handed out once, in order, and never past the capacity. */
    method AllocateTable(ghost path: seq<nat>) returns (r: Option<u64>)
      requires Synced() && 1 <= |path| <= 3
      modifies this`used, this`pool
      ensures Synced()
      ensures r.None? <==> old(used) >= capacity
      ensures r.None? ==> used == old(used) && pool == old(pool)
      ensures r.Some? ==> r.value == pool.TableAddress(old(used)) && pool == Allocated(old(pool), path)
    {
      if used >= capacity {
        return None;
      }
      r := Some(base + used * 0x1000);
      used := used + 1;
      pool := Allocated(pool, path);
    }

    method ReadEntry(table: u64, index: nat) returns (e: u64)
      requires Synced() && index < 512 && table % 0x1000 == 0 && base <= table < pool.TableAddress(capacity)
      ensures e == pool.tables[pool.PageOf(table)][index]
    {
      e := memory[(table - base) / 0x1000, index];
    }

    method WriteEntry(table: u64, index: nat, value: u64)
      requires Synced() && index < 512 && table % 0x1000 == 0 && base <= table < pool.TableAddress(capacity)
      modifies this`pool, memory
      ensures Synced() && pool == old(pool).Write(pool.PageOf(table), index, value)
    {
      var t := (table - base) / 0x1000;
      memory[t, index] := value;
      pool := pool.Write(t, index, value);
    }

    /** Links a fresh table where the walk of va stopped. */
    method LinkTable(va: u64, depth: nat, table: u64) returns (r: Option<u64>)
      requires Valid() && depth < 3
      requires table % 0x1000 == 0 && base <= table < pool.TableAddress(capacity)
      requires pool.Reach(va, depth) == Some(pool.PageOf(table))
      requires pool.tables[pool.PageOf(table)][Index(va, depth)] == 0
      modifies this`used, this`pool, memory
      ensures Valid() && SameMap(old(pool), pool)
      ensures r.None? ==> used == old(used) >= capacity && pool == old(pool)
      ensures r.Some? ==> used == old(used) + 1 && r.value == pool.TableAddress(old(used))
      ensures r.Some? ==> pool.Reach(va, depth + 1) == Some(old(used))
      ensures old(pool).Reach(va, depth + 1).None? && !OnLargePage(old(pool), va)
      ensures r.Some? ==> Grown(old(pool), pool, TableAt(old(pool), va, depth + 1))
      ensures r.Some? ==> forall t: nat :: t < capacity && t != pool.PageOf(table) ==>
                pool.tables[t] == old(pool).tables[t]
      ensures r.Some? ==> forall k: nat :: k < 512 && k != Index(va, depth) ==>
                pool.tables[pool.PageOf(table)][k] == old(pool).tables[pool.PageOf(table)][k]
    {
      hide Pool.Translate, Pool.Reach, Grown, TableAt;
      ghost var p := pool;
      ghost var t := p.PageOf(table);
      ghost var k := Index(va, depth);
      ReachPath(p, va, depth);
      StopsHere(p, va, depth, t, depth + 1);
      EmptyEntry(p, va, depth, t);
      r := AllocateTable(p.ChildPath(t, k));
      if r.Some? {
        LinkFresh(p, va, depth, t);
        LinkGrows(p, va, depth, t);
        LinkFacts(p, p.used);
        WriteEntry(table, Index(va, depth), r.value + 3);
        assert pool == Linked(p, t, k);
      }
    }

    /** One level of the descent: follow a link, make one, or end at a 2 MiB page. */
    method Descend(va: u64, physical: u64, depth: nat, table: u64, ghost writable: bool) returns (s: Step)
      requires Valid() && depth < 3 && va % 0x1000 == 0
      requires table % 0x1000 == 0 && base <= table < pool.TableAddress(capacity)
      requires pool.Reach(va, depth) == Some(pool.PageOf(table))
      modifies this`used, this`pool, memory
      ensures Valid() && old(used) <= used && SameMap(old(pool), pool)
      ensures s.Down? ==>
                && s.table % 0x1000 == 0 && base <= s.table < pool.TableAddress(capacity)
                && pool.Reach(va, depth + 1) == Some(pool.PageOf(s.table))
      ensures s.Down? ==> Grown(old(pool), pool, TableAt(old(pool), va, depth + 1))
      ensures s.Down? && old(pool).Reach(va, depth + 1).Some? ==> pool == old(pool)
      ensures s.Stopped? ==> pool == old(pool)
      ensures s.Stopped? && s.outcome.Done? ==>
                OnLargePage(pool, va) && !Blocked(pool, va, physical) && Mapped(old(pool), pool, va, physical, writable)
      ensures s.Stopped? && s.outcome.Failed? ==>
                && s.outcome.error == LoaderError.PageTables
                && (|| (OnLargePage(pool, va) && Blocked(pool, va, physical))
                    || (used == capacity && pool.Reach(va, depth + 1).None? && !OnLargePage(pool, va)))
    {
      hide Pool.Ok, Pool.EntryOk, Pool.Reach, Pool.Translate, Pool.SamePage, Index, Present, Large, Address,
           LargeAddress, Grown;
      var index := Index(va, depth);
      var current := ReadEntry(table, index);
      ghost var t := pool.PageOf(table);
      ReachedEntry(pool, va, depth, t);
      if Large(current) {
        LargeMet(pool, va, depth, t);
        LargeStops(pool, va, t);
        if LargeAddress(current) + va % 0x20_0000 == physical {
          LargeAlready(pool, pool, va, t, physical, writable);
          return Stopped(Done);
        }
        return Stopped(Failed(LoaderError.PageTables));
      }
      if Present(current) {
        FollowLink(pool, va, depth, t);
        GrownNone(pool);
        return Down(Address(current));
      }
      EmptyWhenAbsent(pool, t, index);
      var child := LinkTable(va, depth, table);
      s := if child.Some? then Down(child.value) else Stopped(Failed(LoaderError.PageTables));
    }

    method WriteLeaf(va: u64, physical: u64, writable: bool, table: u64)
      requires Valid()
      requires table % 0x1000 == 0 && base <= table < pool.TableAddress(capacity)
      requires pool.Reach(va, 3) == Some(pool.PageOf(table))
      modifies this`pool, memory
      ensures Valid() && pool.Shared() == old(pool.Shared()) && Grown(old(pool), pool, {})
      ensures physical % 0x1000 == 0 && physical < 0x10_0000_0000_0000 ==>
                Mapped(old(pool), pool, va, physical, writable)
    {
      hide Pool.Ok, Pool.EntryOk, Pool.Reach, Pool.Translate, Index, Present, Writable, Address, Mapped, Grown;
      ghost var before := pool;
      var leaf := physical / 0x1000 * 0x1000 + (if writable then 3 else 1);
      LeafWrite(before, va, before.PageOf(table), leaf);
      LeafGrows(before, va, before.PageOf(table), leaf);
      if physical % 0x1000 == 0 && physical < 0x10_0000_0000_0000 {
        LeafMapped(before, va, before.PageOf(table), physical, writable);
      }
      WriteEntry(table, Index(va, 3), leaf);
    }

    /**
     Maps one page. It succeeds exactly when no 2 MiB page that maps elsewhere is in the way and the
     tables missing on the way fit; then exactly that page gets the new frame, and a 2 MiB page that
     gives this frame already stays. A failure changes no translation.
     */
    method Map4K(va: u64, physical: u64, writable: bool) returns (r: Outcome)
      requires Valid() && va % 0x1000 == 0
      modifies this`used, this`pool, memory
      ensures Valid() && old(used) <= used <= capacity && pool.Shared() == old(pool.Shared())
      ensures r.Done? <==> !Blocked(old(pool), va, physical) && old(used) + |Tables(old(pool), va)| <= capacity
      ensures r.Done? ==> Grown(old(pool), pool, Tables(old(pool), va))
      ensures r.Done? && physical % 0x1000 == 0 && physical < 0x10_0000_0000_0000 ==>
                Mapped(old(pool), pool, va, physical, writable)
      ensures r.Failed? ==> r.error == LoaderError.PageTables && SameMap(old(pool), pool)
      ensures r.Failed? ==> if Blocked(old(pool), va, physical) then pool == old(pool) else used == capacity
    {
      hide Pool.Ok, Pool.Translate, Pool.Reach, Pool.Shared, Mapped, Grown, OnLargePage, Blocked, TablesTo, TableAt,
           Tables;
      ghost var start := pool;
      var table := base;
      GrownStart(start, va);
      for depth := 0 to 3
        invariant Valid() && old(used) <= used && SameMap(start, pool)
        invariant table % 0x1000 == 0 && base <= table < pool.TableAddress(capacity)
        invariant pool.Reach(va, depth) == Some(pool.PageOf(table))
        invariant Grown(start, pool, TablesTo(start, va, depth))
        invariant start.Reach(va, depth).Some? ==> pool == start
      {
        ghost var p := pool;
        var step := Descend(va, physical, depth, table, writable);
        if step.Stopped? {
          StopsForReason(start, p, va, physical, depth);
          if step.outcome.Done? {
            MappedFrom(start, p, pool, va, physical, writable);
          }
          return step.outcome;
        }
        GrownDeeper(start, p, pool, va, depth);
        ReachBefore(start, va, depth);
        table := step.table;
      }
      ghost var p := pool;
      WriteLeaf(va, physical, writable, table);
      LeafDone(start, p, pool, va, physical);
      if physical % 0x1000 == 0 && physical < 0x10_0000_0000_0000 {
        MappedFrom(start, p, pool, va, physical, writable);
      }
      r := Done;
    }

    /**
     Maps a byte range page by page. It rejects a range whose virtual and physical offsets within
     a page differ or whose end overflows; otherwise it succeeds exactly when no 2 MiB page that maps
     elsewhere lies on the range and all its missing tables fit. Physical addresses wrap as 64-bit
     numbers do.
     */
    method MapKernel(virtualStart: u64, physicalStart: u64, length: u64, writable: bool) returns (r: Outcome)
      requires Valid()
      modifies this`used, this`pool, memory
      ensures Valid() && old(used) <= used <= capacity && pool.Shared() == old(pool.Shared())
      ensures r == Failed(KernelLayout)
         <==> virtualStart % 0x1000 != physicalStart % 0x1000 || virtualStart + length + 0xFFF >= U64_LIMIT
      ensures r == Failed(KernelLayout) ==> used == old(used) && pool == old(pool)
      ensures r != Failed(KernelLayout) ==>
                Mapping(old(pool), pool, PageBase(virtualStart), PageBase(physicalStart),
                        PageCount(virtualStart, length), writable, r)
      ensures r.Done? && physicalStart + length <= 0x10_0000_0000_0000 ==>
                RangeMapped(old(pool), pool, PageBase(virtualStart), PageBase(physicalStart),
                            PageCount(virtualStart, length), writable)
    {
      hide Pool.Ok, Pool.Translate, Mapped, Pool.SamePage, Grown, Mappable, PartlyMapped, Blocked, Tables, RangeTables,
           RangeMapped, PageCount, Pool.Shared;
      if virtualStart % 0x1000 != physicalStart % 0x1000 || virtualStart + length + 0xFFF >= U64_LIMIT {
        return Failed(KernelLayout);
      }
      ghost var start := pool;
      var virtualPage := virtualStart / 0x1000 * 0x1000;
      var physicalPage := physicalStart / 0x1000 * 0x1000;
      var end := (virtualStart + length + 0xFFF) / 0x1000 * 0x1000;
      ghost var count := PageCount(virtualStart, length);
      RangeEnd(virtualStart, length);
      RangeEnd(physicalStart, length);
      var offset := 0;
      ghost var n := 0;
      RangeStart(start, virtualPage, physicalPage, writable);
      while virtualPage + offset < end
        invariant Valid() && old(used) <= used && pool.Shared() == start.Shared()
        invariant offset == 0x1000 * n && n <= count && virtualPage + 0x1000 * count == end < U64_LIMIT
        invariant Grown(start, pool, RangeTables(start, virtualPage, n))
                  && Mappable(start, virtualPage, physicalPage, n)
        invariant physicalPage + 0x1000 * count <= 0x10_0000_0000_0000 ==>
                    RangeMapped(start, pool, virtualPage, physicalPage, n, writable)
        decreases end - (virtualPage + offset)
      {
        ghost var p := pool;
        assert n < count && (virtualPage + offset) % 0x1000 == 0;
        var frame := (physicalPage + offset) % 0x1_0000_0000_0000_0000;
        NextPage(start, p, virtualPage, physicalPage, n);
        r := Map4K(virtualPage + offset, frame, writable);
        if r.Failed? {
          RangeStops(start, p, pool, virtualPage, physicalPage, count, writable, n);
          return;
        }
        GrownFurther(start, p, pool, virtualPage, n);
        if physicalPage + 0x1000 * count <= 0x10_0000_0000_0000 {
          assert frame == physicalPage + offset;
          RangeStep(start, p, pool, virtualPage, physicalPage, n, writable);
        }
        offset := offset + 0x1000;
        n := n + 1;
      }
      r := Done;
    }

    /** Fills one page directory with 2 MiB pages that map the given GiB onto itself. */
    method MapGib(gib: nat, pd: u64, ghost start: Pool)
      requires Valid() && pool.Shared() && gib < 4 && start.Shape()
      requires pd % 0x1000 == 0 && base <= pd < pool.TableAddress(capacity)
      requires pool.Reach(gib * 0x4000_0000, 2) == Some(pool.PageOf(pd))
      requires WindowsMapped(start, pool, 512 * gib)
      modifies this`pool, memory
      ensures Valid() && pool.Shared()
      ensures WindowsMapped(start, pool, 512 * (gib + 1))
      ensures forall t: nat :: t < capacity && t != pool.PageOf(pd) ==> pool.tables[t] == old(pool).tables[t]
    {
      hide Pool.Ok, Pool.Reach, Pool.Translate, Pool.Shared, WindowsMapped;
      ghost var t := pool.PageOf(pd);
      for entry := 0 to 512
        invariant Valid() && pool.Shared()
        invariant pool.Reach(gib * 0x4000_0000, 2) == Some(t)
        invariant WindowsMapped(start, pool, 512 * gib + entry)
        invariant forall u: nat :: u < capacity && u != t ==> pool.tables[u] == old(pool).tables[u]
      {
        var physical := (gib * 512 + entry) * 0x20_0000;
        BlockWrite(start, pool, gib, entry, t);
        WriteEntry(pd, entry, physical + 131);
      }
    }

    method WriteRoots(pdpt: u64, ghost start: Pool)
      requires Synced() && start.Ok() && start.used < |start.tables|
      requires pool == Allocated(start, [0]) && pdpt == pool.TableAddress(start.used)
      modifies this`pool, memory
      ensures Valid() && pool.Shared() && used == start.used + 1
      ensures pool.tables[0][0] == pool.Link(start.used)
      ensures forall k :: 0 <= k < 512 ==> pool.tables[start.used][k] == 0
      ensures WindowsMapped(start, pool, 0)
    {
      hide Pool.Ok, Pool.Reach, Pool.Translate, Pool.Shared, WindowMap;
      WindowsStart(start);
      OkShape(start);
      WriteEntry(base, 0, pdpt + 3);
      WriteEntry(base, 256, pdpt + 3);
      assert pool == WindowRoots(start);
    }

    /**
     The windows the loader runs in while it switches tables: the first 4 GiB map onto themselves
     and again at the higher-half offset. It succeeds exactly when five pages are left.
     */
    method MapTransitionWindows() returns (r: Outcome)
      requires Valid()
      modifies this`used, this`pool, memory
      ensures Valid() && old(used) <= used <= capacity
      ensures r.Done? <==> old(used) + 5 <= capacity
      ensures r.Failed? ==> r.error == LoaderError.PageTables
      ensures r.Done? ==> used == old(used) + 5 && pool.Shared()
      ensures r.Done? ==> WindowsMapped(old(pool), pool, 2048)
      ensures r.Failed? ==> used == capacity
      ensures r.Failed? && old(used) == capacity ==> pool == old(pool)
      ensures r.Failed? && old(used) < capacity ==>
                WindowsMapped(old(pool), pool, 512 * (capacity - old(used) - 1))
    {
      hide Pool.Ok, Pool.Reach, Pool.Translate, Pool.Shared, WindowsMapped, Grown, TableAt, OnLargePage;
      ghost var start := pool;
      ghost var u := used;
      var pdpt := AllocateTable([0]);
      if pdpt.None? {
        return Failed(LoaderError.PageTables);
      }
      WriteRoots(pdpt.value, start);
      for gib := 0 to 4
        invariant Valid() && pool.Shared() && used == u + 1 + gib <= capacity
        invariant pool.tables[0][0] == pool.Link(u)
        invariant forall k :: gib <= k < 512 ==> pool.tables[u][k] == 0
        invariant WindowsMapped(start, pool, 512 * gib)
      {
        GibIndexes(gib, 0);
        GibTable(pool, gib, u);
        ghost var p := pool;
        var pd := LinkTable(gib * 0x4000_0000, 1, pdpt.value);
        if pd.None? {
          return Failed(LoaderError.PageTables);
        }
        SameMapWindows(start, p, pool, 512 * gib);
        MapGib(gib, pd.value, start);
      }
      r := Done;
    }

    /** Physical memory through the higher-half window. */
    method MapHhdmPhysical(physical: u64, length: u64) returns (r: Outcome)
      requires Valid()
      modifies this`used, this`pool, memory
      ensures Valid() && old(used) <= used <= capacity && pool.Shared() == old(pool.Shared())
      ensures HHDM_OFFSET + physical >= U64_LIMIT ==> r == Failed(LoaderError.PageTables) && pool == old(pool)
      ensures r == Failed(KernelLayout)
              <==> HHDM_OFFSET + physical < U64_LIMIT <= HHDM_OFFSET + physical + length + 0xFFF
      ensures r == Failed(KernelLayout) ==> pool == old(pool)
      ensures HHDM_OFFSET + physical + length + 0xFFF < U64_LIMIT ==>
                && var page, count := PageBase(physical), PageCount(physical, length);
                && Mapping(old(pool), pool, HHDM_OFFSET + page, page, count, true, r)
                && (r.Done? ==> RangeMapped(old(pool), pool, HHDM_OFFSET + page, page, count, true))
    {
      hide Pool.Ok, Mapping, RangeMapped, PageCount, Pool.Shared;
      if HHDM_OFFSET + physical >= U64_LIMIT {
        return Failed(LoaderError.PageTables);
      }
      HhdmPage(physical, length);
      r := MapKernel(HHDM_OFFSET + physical, physical, length, true);
    }

    // -------------------------------------------------------------- calls with a result their caller would not expect

    /** Behind the windows a request for a read-only page of the first 4 GiB succeeds and leaves the page writable. */
    method ReadOnlyInWindow(a: u64) returns (r: Outcome)
      requires Valid() && used + 5 <= capacity && a % 0x1000 == 0 && a < 0x1_0000_0000
      modifies this`used, this`pool, memory
      ensures Valid() && r.Done? && pool.Translate(a) == Some(Target(a, true, true))
    {
      hide Pool.Ok, Pool.Translate, WindowsMapped, Mappable, PartlyMapped, RangeMap, Grown;
      ghost var start := pool;
      var windows := MapTransitionWindows();
      InWindow(start, pool, a);
      assert PageBase(a) == a && PageCount(a, 0x1000) == 1;
      r := MapKernel(a, a, 0x1000, false);
    }

    /** A request for no bytes at an unaligned address succeeds and maps the page around it. */
    method EmptyRangeMapsPage(v: u64, physical: u64) returns (r: Outcome)
      requires Valid() && used + 3 <= capacity && v + 0xFFF < U64_LIMIT && physical <= 0x10_0000_0000_0000
      requires v % 0x1000 == physical % 0x1000 != 0 && !OnLargePage(pool, PageBase(v))
      modifies this`used, this`pool, memory
      ensures Valid() && r.Done? && pool.Translate(PageBase(v)) == Some(Target(PageBase(physical), true, false))
    {
      hide Pool.Ok, Pool.Translate, Mappable, PartlyMapped, RangeMap, Grown, OnLargePage, PageCount;
      EmptyRange(v);
      RangeEnd(v, 0);
      OnePage(pool, PageBase(v), PageBase(physical));
      r := MapKernel(v, physical, 0, true);
    }
  }
}
