/**
 The UEFI loader's page-table builder: four-level tables in a fixed pool of pages, related to the
 address map that the processor's page walk makes of them.
 */
module Paging {
  import opened Bytes

  // Page sizes are written out: 0x1000 (4 KiB), 0x20_0000 (2 MiB), 0x4000_0000 (1 GiB), and
  // 0x80_0000_0000 for the 512 GiB of one root slot. Physical addresses have 52 bits.

  const HHDM_OFFSET: u64 := 0xFFFF_8000_0000_0000

  // ---------------------------------------------------------------- entries

  predicate Present(e: u64) { e % 2 == 1 }
  predicate Writable(e: u64) { e / 2 % 2 == 1 }
  predicate Large(e: u64) { e / 128 % 2 == 1 }
  function Address(e: u64): nat { e / 0x1000 * 0x1000 % 0x10_0000_0000_0000 }
  function LargeAddress(e: u64): nat { e / 0x20_0000 * 0x20_0000 % 0x10_0000_0000_0000 }
  function HugeAddress(e: u64): nat { e / 0x4000_0000 * 0x4000_0000 % 0x10_0000_0000_0000 }

  /** Where an address goes: the physical address, whether it may be written, and by which kind of page. */
  datatype Target = Target(physical: nat, writable: bool, large: bool)

  /** The table index a virtual address selects at each depth of the walk. */
  function Index(va: u64, depth: nat): (k: nat)
    requires depth < 4
    ensures k < 512
  {
    match depth
    case 0 => va / 0x80_0000_0000 % 512
    case 1 => va / 0x4000_0000 % 512
    case 2 => va / 0x20_0000 % 512
    case _ => va / 0x1000 % 512
  }

  /**
   The pool of table pages: `used` of them are handed out, and `path` gives, for each one, the
   indexes that lead to it from the root.
   */
  datatype Pool = Pool(base: nat, tables: seq<seq<u64>>, used: nat, path: seq<seq<nat>>) {

    function TableAddress(t: nat): nat { base + 0x1000 * t }

    function Link(t: nat): nat { TableAddress(t) + 3 }

    /** The pool page an address lies in; outside the pool it is not a page of the pool. */
    function PageOf(address: nat): int { (address - base) / 0x1000 }

    predicate Shape() {
      && base % 0x1000 == 0 && base + 0x1000 * |tables| <= 0x10_0000_0000_0000
      && 1 <= used <= |tables|
      && |path| == used && path[0] == []
      && (forall t :: 0 <= t < |tables| ==> |tables[t]| == 512)
      && (forall t :: 1 <= t < used ==> 1 <= |path[t]| <= 3)
    }

    /** Slots 0 and 256 of the root hold the same table. */
    predicate Shared()
      requires Shape()
    {
      tables[0][0] == tables[0][256] && Present(tables[0][0])
    }

    function Slot(k: nat): nat
      requires Shape()
    {
      if k == 256 && Shared() then 0 else k
    }

    function ChildPath(t: nat, k: nat): seq<nat>
      requires Shape() && t < used
    {
      if t == 0 then [Slot(k)] else path[t] + [k]
    }

    /** An entry of a non-leaf table: empty, a 2 MiB page, or a link to a table further down. */
    predicate EntryOk(t: nat, k: nat)
      requires Shape() && t < used && k < 512
    {
      var e := tables[t][k];
      |path[t]| < 3 ==>
        || e == 0
        || (|path[t]| == 2 && Present(e) && Large(e))
        || (var c := PageOf(Address(e)); 1 <= c < used && e == Link(c) && path[c] == ChildPath(t, k))
    }

    predicate Ok() {
      && Shape()
      && (forall t, k :: used <= t < |tables| && 0 <= k < 512 ==> tables[t][k] == 0)
      && (forall t, k :: 0 <= t < used && 0 <= k < 512 ==> EntryOk(t, k))
    }

    // -------------------------------------------------------------- the page walk

    /** The table the processor has reached after `depth` steps, if the walk gets that far. */
    function Reach(va: u64, depth: nat): (r: Option<nat>)
      requires Shape() && depth < 4
      ensures r.Some? ==> r.value < |tables|
    {
      if depth == 0 then Some(0)
      else
        var above := Reach(va, depth - 1);
        if above.None? then None
        else
          var e := tables[above.value][Index(va, depth - 1)];
          var c := PageOf(Address(e));
          if Present(e) && !Large(e) && 0 <= c < |tables| then Some(c) else None
    }

    /**
     What the processor's walk gives, at whichever level it ends. Tables are always linked writable,
     so the last entry decides whether the page may be written.
     */
    function Translate(va: u64): (r: Option<Target>)
      requires Shape()
    {
      var last := Reach(va, 3);
      if last.Some? then
        var e := tables[last.value][Index(va, 3)];
        if Present(e) then Some(Target(Address(e) + va % 0x1000, Writable(e), false)) else None
      else if Reach(va, 2).Some? then
        var e := tables[Reach(va, 2).value][Index(va, 2)];
        if Present(e) && Large(e) then Some(Target(LargeAddress(e) + va % 0x20_0000, Writable(e), true)) else None
      else if Reach(va, 1).Some? then
        var e := tables[Reach(va, 1).value][Index(va, 1)];
        if Present(e) && Large(e) then Some(Target(HugeAddress(e) + va % 0x4000_0000, Writable(e), true)) else None
      else None
    }

    /** The indexes that lead to the table at this depth, with the shared slot counted once. */
    function Prefix(va: u64, depth: nat): (r: seq<nat>)
      requires Shape() && depth < 4
      ensures |r| == depth
    {
      if depth == 0 then []
      else if depth == 1 then [Slot(Index(va, 0))]
      else if depth == 2 then [Slot(Index(va, 0)), Index(va, 1)]
      else [Slot(Index(va, 0)), Index(va, 1), Index(va, 2)]
    }

    /** Two addresses of the same 4 KiB page, up to the shared slot. */
    predicate SamePage(a: u64, b: u64)
      requires Shape()
    {
      Prefix(a, 3) == Prefix(b, 3) && Index(a, 3) == Index(b, 3)
    }

    function Write(t: nat, k: nat, e: u64): Pool
      requires t < |tables| && k < |tables[t]|
    {
      var row: seq<u64> := tables[t][k := e];
      this.(tables := tables[t := row])
    }
  }

  lemma LinkArithmetic(x: nat)
    requires 0x1000 * x < 0x10_0000_0000_0000
    ensures (0x1000 * x + 3) % 2 == 1
    ensures (0x1000 * x + 3) / 128 % 2 == 0
    ensures (0x1000 * x + 3) / 0x1000 * 0x1000 % 0x10_0000_0000_0000 == 0x1000 * x
  {
    var v := 0x1000 * x + 3;
    ModUnique(v, 2, 2048 * x + 1, 1);
    ModUnique(v, 128, 32 * x, 3);
    ModUnique(32 * x, 2, 16 * x, 0);
    ModUnique(v, 0x1000, x, 3);
  }

  lemma LinkFacts(p: Pool, c: nat)
    requires p.Shape() && c < |p.tables|
    ensures p.Link(c) < U64_LIMIT
    ensures Present(p.Link(c)) && !Large(p.Link(c))
    ensures Address(p.Link(c)) == p.TableAddress(c) && p.PageOf(Address(p.Link(c))) == c
  {
    var x := p.base / 0x1000 + c;
    assert p.Link(c) == 0x1000 * x + 3;
    LinkArithmetic(x);
  }

  /** Under the invariant the walk only visits handed-out tables, each by its own path. */
  lemma {:induction false} ReachPath(p: Pool, va: u64, depth: nat)
    requires p.Ok() && depth < 4
    ensures var r := p.Reach(va, depth);
            r.Some? ==> r.value < p.used && p.path[r.value] == p.Prefix(va, depth)
  {
    if depth == 0 || p.Reach(va, depth).None? {
    } else {
      ReachPath(p, va, depth - 1);
      var t, k := p.Reach(va, depth - 1).value, Index(va, depth - 1);
      assert p.EntryOk(t, k);
      var c := p.PageOf(Address(p.tables[t][k]));
      assert p.path[c] == p.ChildPath(t, k);
    }
  }

  /** The walk of va would read entry k of table t. */
  predicate Through(p: Pool, va: u64, t: nat, k: nat)
    requires p.Shape() && t < p.used
  {
    |p.path[t]| < 4 && p.path[t] == p.Prefix(va, |p.path[t]|) && Index(va, |p.path[t]|) == k
  }

  /** Writing an entry does not disturb the part of a walk before that entry. */
  lemma {:induction false} WriteReach(p: Pool, t: nat, k: nat, e: u64, va: u64, depth: nat)
    requires p.Ok() && t < p.used && k < 512 && depth < 4
    requires Through(p, va, t, k) ==> depth <= |p.path[t]|
    ensures p.Write(t, k, e).Shape()
    ensures p.Write(t, k, e).Reach(va, depth) == p.Reach(va, depth)
  {
    hide Index, Address, Present, Large, Pool.EntryOk, Pool.Prefix;
    if depth == 0 {
    } else {
      WriteReach(p, t, k, e, va, depth - 1);
      ReachPath(p, va, depth - 1);
      var above := p.Reach(va, depth - 1);
      if above.Some? {
        assert |p.Prefix(va, depth - 1)| == depth - 1;
        assert !(above.value == t && Index(va, depth - 1) == k);
        assert p.Write(t, k, e).tables[above.value][Index(va, depth - 1)]
            == p.tables[above.value][Index(va, depth - 1)];
      }
    }
  }

  lemma WriteElsewhere(p: Pool, t: nat, k: nat, e: u64, va: u64)
    requires p.Ok() && t < p.used && k < 512 && !Through(p, va, t, k)
    ensures p.Write(t, k, e).Shape()
    ensures p.Write(t, k, e).Translate(va) == p.Translate(va)
  {
    hide Pool.Reach, Pool.EntryOk, Pool.Prefix, Index, Address, Present, Large, Writable, LargeAddress, HugeAddress;
    WriteReach(p, t, k, e, va, 1);
    WriteReach(p, t, k, e, va, 2);
    WriteReach(p, t, k, e, va, 3);
    ReachPath(p, va, 1);
    ReachPath(p, va, 2);
    ReachPath(p, va, 3);
  }

  /** Walks with the same normalised prefix reach the same table. */
  lemma {:induction false} SamePrefixReach(p: Pool, a: u64, b: u64, depth: nat)
    requires p.Shape() && depth < 4 && p.Prefix(a, depth) == p.Prefix(b, depth)
    ensures p.Reach(a, depth) == p.Reach(b, depth)
  {
    if depth == 0 {
    } else {
      var x, y := p.Prefix(a, depth), p.Prefix(b, depth);
      assert x[0] == y[0];
      if depth == 1 {
        assert p.tables[0][Index(a, 0)] == p.tables[0][Index(b, 0)];
      } else {
        assert x[depth - 1] == y[depth - 1];
        assert p.Prefix(a, depth - 1) == x[..depth - 1] == y[..depth - 1] == p.Prefix(b, depth - 1);
        SamePrefixReach(p, a, b, depth - 1);
      }
    }
  }

  /** Two pools translate every address alike and share the same slots. */
  ghost predicate SameMap(p: Pool, q: Pool) {
    p.Shape() && q.Shape() && q.Shared() == p.Shared() && forall va: u64 :: q.Translate(va) == p.Translate(va)
  }

  predicate IsLeaf(e: u64, physical: nat) {
    physical % 0x1000 == 0 && physical < 0x10_0000_0000_0000 && (e == physical + 1 || e == physical + 3)
  }

  lemma FrameArithmetic(x: nat, flags: nat)
    requires flags < 0x1000 && 0x1000 * x < 0x10_0000_0000_0000
    ensures (0x1000 * x + flags) / 0x1000 * 0x1000 % 0x10_0000_0000_0000 == 0x1000 * x
  {
    ModUnique(0x1000 * x + flags, 0x1000, x, flags);
    ModUnique(0x1000 * x, 0x10_0000_0000_0000, 0, 0x1000 * x);
  }

  lemma OddFrame(x: nat)
    ensures (0x1000 * x + 1) % 2 == 1 && (0x1000 * x + 3) % 2 == 1
    ensures (0x1000 * x + 1) / 2 % 2 == 0 && (0x1000 * x + 3) / 2 % 2 == 1
  {
    ModUnique(0x1000 * x + 1, 2, 0x800 * x, 1);
    ModUnique(0x1000 * x + 3, 2, 0x800 * x + 1, 1);
    ModUnique(0x800 * x, 2, 0x400 * x, 0);
    ModUnique(0x800 * x + 1, 2, 0x400 * x, 1);
  }

  lemma LeafFacts(e: u64, physical: nat)
    requires IsLeaf(e, physical)
    ensures Present(e) && Address(e) == physical && (Writable(e) <==> e == physical + 3)
  {
    var x := physical / 0x1000;
    var flags := e - physical;
    assert e == 0x1000 * x + flags;
    FrameArithmetic(x, flags);
    OddFrame(x);
  }

  /** Writing a leaf entry changes the translation of that page and of no other. */
  lemma LeafWrite(p: Pool, v: u64, t: nat, e: u64)
    requires p.Ok() && p.Reach(v, 3) == Some(t)
    ensures t < p.used && |p.path[t]| == 3
    ensures var q := p.Write(t, Index(v, 3), e);
            && q.Ok() && q.Shared() == p.Shared()
            && forall a: u64 ::
                 q.Translate(a) == if !p.SamePage(a, v) then p.Translate(a)
                                   else if Present(e) then Some(Target(Address(e) + a % 0x1000, Writable(e), false))
                                   else None
  {
    hide Pool.Ok, Pool.EntryOk, Index, Address, Present, Large, Writable, LargeAddress, HugeAddress, Pool.Reach;
    OkShape(p);
    ReachPath(p, v, 3);
    var k := Index(v, 3);
    var q := p.Write(t, k, e);
    assert t != 0;
    WriteKeepsOthers(p, t, k, e);
    forall a: u64
      ensures q.Translate(a) == if !p.SamePage(a, v) then p.Translate(a)
                                else if Present(e) then Some(Target(Address(e) + a % 0x1000, Writable(e), false))
                                else None
    {
      if p.SamePage(a, v) {
        SamePrefixReach(p, a, v, 3);
        WriteReach(p, t, k, e, a, 3);
      } else {
        WriteElsewhere(p, t, k, e, a);
      }
    }
  }

  /** A write below the root that leaves its own entry legal keeps the invariant. */
  lemma WriteKeepsOthers(p: Pool, t: nat, k: nat, e: u64)
    requires p.Ok() && 1 <= t < p.used && k < 512
    requires |p.path[t]| == 3 || (|p.path[t]| == 2 && Present(e) && Large(e))
    ensures p.Write(t, k, e).Ok() && p.Write(t, k, e).Shared() == p.Shared()
  {
    var q := p.Write(t, k, e);
    forall t', k' | 0 <= t' < q.used && 0 <= k' < 512
      ensures q.EntryOk(t', k')
    {
      assert p.EntryOk(t', k');
    }
  }

  predicate IsLarge(e: u64, physical: nat) {
    physical % 0x20_0000 == 0 && physical < 0x10_0000_0000_0000 && e == physical + 131
  }

  lemma LargeArithmetic(x: nat)
    requires 0x20_0000 * x < 0x10_0000_0000_0000
    ensures (0x20_0000 * x + 131) % 2 == 1
    ensures (0x20_0000 * x + 131) / 128 % 2 == 1
    ensures (0x20_0000 * x + 131) / 2 % 2 == 1
    ensures (0x20_0000 * x + 131) / 0x20_0000 * 0x20_0000 % 0x10_0000_0000_0000 == 0x20_0000 * x
  {
    var v := 0x20_0000 * x + 131;
    ModUnique(v, 2, 0x10_0000 * x + 65, 1);
    ModUnique(0x10_0000 * x + 65, 2, 0x8_0000 * x + 32, 1);
    ModUnique(v, 128, 16384 * x + 1, 3);
    ModUnique(16384 * x + 1, 2, 8192 * x, 1);
    ModUnique(v, 0x20_0000, x, 131);
  }

  lemma LargeFacts(e: u64, physical: nat)
    requires IsLarge(e, physical)
    ensures Present(e) && Large(e) && Writable(e) && LargeAddress(e) == physical
  {
    LargeArithmetic(physical / 0x20_0000);
  }

  lemma OkShape(p: Pool)
    requires p.Ok()
    ensures p.Shape()
  {
  }

  /** Two addresses of the same 2 MiB range, up to the shared slot. */
  predicate SameLarge(p: Pool, a: u64, b: u64)
    requires p.Shape()
  {
    p.Prefix(a, 3) == p.Prefix(b, 3)
  }

  /** Writing a 2 MiB entry changes the translation of that range and of no other address. */
  lemma LargeWrite(p: Pool, v: u64, t: nat, e: u64)
    requires p.Ok() && p.Reach(v, 2) == Some(t) && Present(e) && Large(e)
    ensures t < p.used && |p.path[t]| == 2
    ensures var q := p.Write(t, Index(v, 2), e);
            && q.Ok() && q.Shared() == p.Shared()
            && q.Reach(v, 2) == Some(t)
            && forall a: u64 ::
                 q.Translate(a) == if SameLarge(p, a, v)
                     then Some(Target(LargeAddress(e) + a % 0x20_0000, Writable(e), true)) else p.Translate(a)
  {
    hide Pool.Ok, Pool.Reach, Pool.Translate, Pool.Prefix, Pool.EntryOk, Index, Large, Present, Writable, LargeAddress;
    OkShape(p);
    ReachPath(p, v, 2);
    var k := Index(v, 2);
    var q := p.Write(t, k, e);
    WriteKeepsOthers(p, t, k, e);
    WriteReach(p, t, k, e, v, 2);
    forall a: u64
      ensures q.Translate(a) == if SameLarge(p, a, v)
          then Some(Target(LargeAddress(e) + a % 0x20_0000, Writable(e), true)) else p.Translate(a)
    {
      PrefixSteps(p, a);
      PrefixSteps(p, v);
      if SameLarge(p, a, v) {
        assert p.Prefix(a, 2) == p.Prefix(a, 3)[..2] == p.Prefix(v, 3)[..2] == p.Prefix(v, 2);
        SamePrefixReach(p, a, v, 2);
        WriteReach(p, t, k, e, a, 2);
        LargeStops(q, a, t);
      } else {
        assert !Through(p, a, t, k);
        WriteElsewhere(p, t, k, e, a);
      }
    }
  }

  lemma PrefixSteps(p: Pool, a: u64)
    requires p.Shape()
    ensures p.Prefix(a, 3) == p.Prefix(a, 2) + [Index(a, 2)]
    ensures p.Prefix(a, 2) == p.Prefix(a, 1) + [Index(a, 1)]
    ensures p.Prefix(a, 1) == p.Prefix(a, 0) + [p.Slot(Index(a, 0))]
    ensures p.Prefix(a, 3)[..2] == p.Prefix(a, 2) && p.Prefix(a, 3)[2] == Index(a, 2)
  {
  }

  lemma LargeStops(q: Pool, a: u64, t: nat)
    requires q.Shape() && q.Reach(a, 2) == Some(t)
    requires Present(q.tables[t][Index(a, 2)]) && Large(q.tables[t][Index(a, 2)])
    ensures var e := q.tables[t][Index(a, 2)];
            q.Translate(a) == Some(Target(LargeAddress(e) + a % 0x20_0000, Writable(e), true))
  {
    assert q.Reach(a, 3).None?;
  }

  /** Hands out the next page of the pool for the given path. */
  function Allocated(p: Pool, path: seq<nat>): Pool
    requires p.used < |p.tables|
  {
    p.(used := p.used + 1, path := p.path + [path])
  }

  /** The pool after a fresh table is linked at entry k of table t. */
  function Linked(p: Pool, t: nat, k: nat): Pool
    requires p.Shape() && t < p.used < |p.tables| && k < 512
    requires p.Link(p.used) < U64_LIMIT
  {
    Allocated(p, p.ChildPath(t, k)).Write(t, k, p.Link(p.used))
  }

  lemma LinkedShared(p: Pool, t: nat, k: nat)
    requires p.Ok() && t < p.used < |p.tables| && k < 512 && p.tables[t][k] == 0
    ensures p.Link(p.used) < U64_LIMIT
    ensures Linked(p, t, k).Shape() ==> Linked(p, t, k).Shared() == p.Shared()
  {
    LinkFacts(p, p.used);
    if t == 0 && !p.Shared() && (k == 0 || k == 256) {
      var other := 256 - k;
      assert p.EntryOk(0, other);
      var c := p.PageOf(Address(p.tables[0][other]));
      assert p.tables[0][other] != p.Link(p.used);
    }
  }

  lemma LinkedShape(p: Pool, t: nat, k: nat)
    requires p.Ok() && t < p.used < |p.tables| && k < 512 && |p.path[t]| < 3
    ensures p.Link(p.used) < U64_LIMIT && Linked(p, t, k).Shape()
    ensures var q := Linked(p, t, k);
            forall t', k' :: q.used <= t' < |q.tables| && 0 <= k' < 512 ==> q.tables[t'][k'] == 0
  {
    hide Pool.EntryOk, Address, Present;
    LinkFacts(p, p.used);
  }

  /** Linking changes one entry and hands out one page. */
  lemma LinkedParts(p: Pool, t: nat, k: nat)
    requires p.Shape() && t < p.used < |p.tables| && k < 512 && p.Link(p.used) < U64_LIMIT
    ensures var q := Linked(p, t, k);
            && q.base == p.base && q.used == p.used + 1 && q.path == p.path + [p.ChildPath(t, k)]
            && |q.tables| == |p.tables| && q.tables[t] == p.tables[t][k := p.Link(p.used)]
            && forall t' :: 0 <= t' < |p.tables| && t' != t ==> q.tables[t'] == p.tables[t']
  {
    hide Pool.ChildPath, Pool.Link;
  }

  lemma LinkedEntry(p: Pool, t: nat, k: nat, t': nat, k': nat)
    requires p.Shape() && (t' < p.used && k' < 512 ==> p.EntryOk(t', k'))
    requires t' == p.used < |p.tables| && k' < 512 ==> p.tables[t'][k'] == 0
    requires t < p.used < |p.tables| && k < 512 && p.tables[t][k] == 0 && |p.path[t]| < 3
    requires p.Link(p.used) < U64_LIMIT && Linked(p, t, k).Shape() && Linked(p, t, k).Shared() == p.Shared()
    requires t' < Linked(p, t, k).used && k' < 512
    ensures Linked(p, t, k).EntryOk(t', k')
  {
    hide Address, Present, Large, Pool.Shared, Linked;
    var q := Linked(p, t, k);
    LinkedParts(p, t, k);
    LinkFacts(p, p.used);
    if t' < p.used {
      if t' == t && k' == k {
        assert q.tables[t'][k'] == q.Link(p.used);
        assert q.path[p.used] == p.ChildPath(t, k) == q.ChildPath(t, k);
      } else {
        assert q.tables[t'][k'] == p.tables[t'][k'];
        EntryKept(p, q, t', k');
      }
    }
  }

  /** An unchanged entry stays good when pages are only added. */
  lemma EntryKept(p: Pool, q: Pool, t: nat, k: nat)
    requires p.Shape() && q.Shape() && p.base == q.base && p.used <= q.used && p.Shared() == q.Shared()
    requires q.path[..p.used] == p.path && t < p.used && k < 512
    requires q.tables[t][k] == p.tables[t][k] && p.EntryOk(t, k)
    ensures q.EntryOk(t, k)
  {
    hide Address, Present, Large, Pool.Shared;
    assert forall i :: 0 <= i < p.used ==> q.path[i] == q.path[..p.used][i];
  }

  lemma LinkedOk(p: Pool, t: nat, k: nat)
    requires p.Ok() && t < p.used < |p.tables| && k < 512 && p.tables[t][k] == 0 && |p.path[t]| < 3
    ensures p.Link(p.used) < U64_LIMIT
    ensures Linked(p, t, k).Ok() && Linked(p, t, k).Shared() == p.Shared()
  {
    hide Address, Present, Large, Pool.EntryOk;
    LinkedShape(p, t, k);
    LinkedShared(p, t, k);
    var q := Linked(p, t, k);
    forall t', k' | 0 <= t' < q.used && 0 <= k' < 512
      ensures q.EntryOk(t', k')
    {
      LinkedEntry(p, t, k, t', k');
    }
  }

  /** A walk that reaches a table of zeros maps nothing. */
  lemma EmptyTable(q: Pool, a: u64, depth: nat, c: nat)
    requires q.Shape() && 1 <= depth < 4 && q.Reach(a, depth) == Some(c)
    requires forall k :: 0 <= k < 512 ==> q.tables[c][k] == 0
    ensures q.Translate(a).None?
  {
    assert q.tables[c][Index(a, depth)] == 0;
    if depth == 1 {
      assert q.Reach(a, 2).None? && q.Reach(a, 3).None?;
    } else if depth == 2 {
      assert q.Reach(a, 3).None?;
    }
  }

  /** A walk that stops at an empty entry maps nothing. */
  lemma EmptyEntry(p: Pool, a: u64, depth: nat, t: nat)
    requires p.Shape() && depth < 4 && p.Reach(a, depth) == Some(t) && p.tables[t][Index(a, depth)] == 0
    ensures p.Translate(a).None?
  {
    if depth == 0 {
      assert p.Reach(a, 1).None? && p.Reach(a, 2).None? && p.Reach(a, 3).None?;
    } else if depth == 1 {
      assert p.Reach(a, 2).None? && p.Reach(a, 3).None?;
    } else if depth == 2 {
      assert p.Reach(a, 3).None?;
    }
  }

  /** Walks only look at the tables, not at the bookkeeping. */
  lemma {:induction false} ReachTables(p: Pool, q: Pool, a: u64, depth: nat)
    requires p.Shape() && q.Shape() && p.tables == q.tables && p.base == q.base && depth < 4
    ensures p.Reach(a, depth) == q.Reach(a, depth)
  {
    if depth == 0 {
    } else {
      ReachTables(p, q, a, depth - 1);
    }
  }

  lemma TranslateTables(p: Pool, q: Pool, a: u64)
    requires p.Shape() && q.Shape() && p.tables == q.tables && p.base == q.base
    ensures p.Translate(a) == q.Translate(a)
  {
    ReachTables(p, q, a, 1);
    ReachTables(p, q, a, 2);
    ReachTables(p, q, a, 3);
    hide Pool.Reach;
  }

  /** Linking a fresh table where the walk of v stops changes no translation. */
  lemma LinkFresh(p: Pool, v: u64, depth: nat, t: nat)
    requires p.Ok() && depth < 3 && p.Reach(v, depth) == Some(t)
    requires p.used < |p.tables| && p.tables[t][Index(v, depth)] == 0
    ensures t < p.used && p.Link(p.used) < U64_LIMIT
    ensures var q := Linked(p, t, Index(v, depth));
            q.Ok() && SameMap(p, q) && q.Reach(v, depth + 1) == Some(p.used)
  {
    ReachPath(p, v, depth);
    var k := Index(v, depth);
    LinkFacts(p, p.used);
    LinkedOk(p, t, k);
    var q := Linked(p, t, k);
    FreshReach(p, v, depth, t, v);
    forall a: u64
      ensures q.Translate(a) == p.Translate(a)
    {
      var w := p.Write(t, k, p.Link(p.used));
      TranslateTables(w, q, a);
      if Through(p, a, t, k) {
        FreshReach(p, v, depth, t, a);
        EmptyTable(q, a, depth + 1, p.used);
        SamePrefixReach(p, a, v, depth);
        EmptyEntry(p, a, depth, t);
      } else {
        WriteElsewhere(p, t, k, p.Link(p.used), a);
      }
    }
  }

  /** A walk that meets a link goes on in the linked table. */
  lemma StepDown(q: Pool, a: u64, depth: nat, t: nat, c: nat)
    requires q.Shape() && depth < 3 && q.Reach(a, depth) == Some(t) && c < |q.tables|
    requires q.tables[t][Index(a, depth)] == q.Link(c)
    ensures q.Reach(a, depth + 1) == Some(c)
  {
    LinkFacts(q, c);
  }

  lemma FreshReach(p: Pool, v: u64, depth: nat, t: nat, a: u64)
    requires p.Ok() && depth < 3 && p.Reach(v, depth) == Some(t) && t < p.used
    requires p.used < |p.tables| && p.tables[t][Index(v, depth)] == 0
    requires p.Link(p.used) < U64_LIMIT && Linked(p, t, Index(v, depth)).Shape()
    requires |p.path[t]| == depth && Through(p, a, t, Index(v, depth))
    ensures Linked(p, t, Index(v, depth)).Reach(a, depth + 1) == Some(p.used)
  {
    var k := Index(v, depth);
    var q := Linked(p, t, k);
    var w := p.Write(t, k, p.Link(p.used));
    hide Index, Address, Present, Large, Pool.EntryOk, Pool.Prefix, Pool.Ok, Pool.Reach, Pool.Link;
    ReachPath(p, v, depth);
    SamePrefixReach(p, a, v, depth);
    WriteReach(p, t, k, p.Link(p.used), a, depth);
    ReachTables(w, q, a, depth);
    StepDown(q, a, depth, t, p.used);
  }

  // ---------------------------------------------------------------- the transition windows

  predicate InWindowSlot(a: u64) { Index(a, 0) == 0 || Index(a, 0) == 256 }

  /** A fresh table shared by root slots 0 and 256. */
  function WindowRoots(p: Pool): Pool
    requires p.Shape() && p.used < |p.tables| && p.Link(p.used) < U64_LIMIT
  {
    Allocated(p, [0]).Write(0, 0, p.Link(p.used)).Write(0, 256, p.Link(p.used))
  }

  lemma WindowRootsOk(p: Pool)
    requires p.Ok() && p.used < |p.tables|
    ensures p.Link(p.used) < U64_LIMIT
    ensures WindowRoots(p).Ok() && WindowRoots(p).Shared()
  {
    LinkFacts(p, p.used);
    hide Address, Present, Large, Pool.EntryOk;
    WindowRootsShape(p);
    var q := WindowRoots(p);
    forall t, k | 0 <= t < q.used && 0 <= k < 512
      ensures q.EntryOk(t, k)
    {
      WindowRootsEntry(p, t, k);
    }
  }

  /** Only two entries of the root change, and one page is handed out. */
  lemma WindowRootsShape(p: Pool)
    requires p.Shape() && p.used < |p.tables| && p.Link(p.used) < U64_LIMIT
    ensures var q := WindowRoots(p);
            && q.Shape() && q.base == p.base && q.used == p.used + 1 && |q.tables| == |p.tables|
            && q.path == p.path + [[0]]
            && q.tables[0][0] == q.tables[0][256] == p.Link(p.used)
            && (forall k :: 0 <= k < 512 && k != 0 && k != 256 ==> q.tables[0][k] == p.tables[0][k])
            && (forall t :: 1 <= t < |p.tables| ==> q.tables[t] == p.tables[t])
  {
    hide Address, Present, Large, Pool.Link;
  }

  lemma WindowRootsEntry(p: Pool, t: nat, k: nat)
    requires p.Ok() && p.used < |p.tables| && p.Link(p.used) < U64_LIMIT && t < WindowRoots(p).used && k < 512
    requires WindowRoots(p).Shape()
    ensures WindowRoots(p).EntryOk(t, k)
  {
    WindowRootsShape(p);
    LinkFacts(p, p.used);
    var q := WindowRoots(p);
    hide Address, Present, Large, WindowRoots;
    if t < p.used {
      assert p.EntryOk(t, k);
      assert q.path[t] == p.path[t];
    }
  }

  lemma {:induction false} OtherSlotsReach(p: Pool, a: u64, depth: nat)
    requires p.Ok() && p.used < |p.tables| && p.Link(p.used) < U64_LIMIT && depth < 4 && !InWindowSlot(a)
    requires WindowRoots(p).Shape()
    ensures WindowRoots(p).Reach(a, depth) == p.Reach(a, depth)
  {
    hide WindowRoots, Address, Present, Large, Pool.EntryOk, Pool.Ok, Pool.Reach;
    OkShape(p);
    WindowRootsShape(p);
    if depth == 0 {
      SameStart(p, WindowRoots(p), a);
    } else {
      OtherSlotsReach(p, a, depth - 1);
      if depth == 1 {
        SameStart(p, WindowRoots(p), a);
      }
      RootOnlyAtTop(p, a, depth - 1);
      SameStep(p, WindowRoots(p), a, depth - 1);
    }
  }

  lemma SameStart(p: Pool, q: Pool, a: u64)
    requires p.Shape() && q.Shape()
    ensures p.Reach(a, 0) == q.Reach(a, 0) == Some(0)
  {
  }

  /** Below the top the walk never comes back to the root. */
  lemma RootOnlyAtTop(p: Pool, a: u64, depth: nat)
    requires p.Ok() && depth < 4
    ensures p.Reach(a, depth) == Some(0) ==> depth == 0
  {
    ReachPath(p, a, depth);
  }

  /** Walks that have reached the same table and read the same entry stay together. */
  lemma SameStep(p: Pool, q: Pool, a: u64, depth: nat)
    requires p.Shape() && q.Shape() && p.base == q.base && |p.tables| == |q.tables| && depth < 3
    requires p.Reach(a, depth) == q.Reach(a, depth)
    requires var t := p.Reach(a, depth);
             t.Some? ==> p.tables[t.value][Index(a, depth)] == q.tables[t.value][Index(a, depth)]
    ensures p.Reach(a, depth + 1) == q.Reach(a, depth + 1)
  {
    hide Address, Present, Large, Index;
  }

  /** The new root entries empty slots 0 and 256 and leave the other slots alone. */
  lemma WindowRootsMap(p: Pool)
    requires p.Ok() && p.used < |p.tables|
    ensures p.Link(p.used) < U64_LIMIT
    ensures var q := WindowRoots(p);
            && q.Ok() && q.Shared() && q.used == p.used + 1
            && (forall a: u64 :: InWindowSlot(a) ==> q.Reach(a, 1) == Some(p.used))
            && forall a: u64 :: q.Translate(a) == if InWindowSlot(a) then None else p.Translate(a)
  {
    LinkFacts(p, p.used);
    WindowRootsOk(p);
    var q := WindowRoots(p);
    forall a: u64
      ensures InWindowSlot(a) ==> q.Reach(a, 1) == Some(p.used)
      ensures q.Translate(a) == if InWindowSlot(a) then None else p.Translate(a)
    {
      if InWindowSlot(a) {
        assert q.Reach(a, 0) == Some(0);
        StepDown(q, a, 0, 0, p.used);
        EmptyTable(q, a, 1, p.used);
      } else {
        OtherSlotsMap(p, a);
      }
    }
  }

  lemma OtherSlotsMap(p: Pool, a: u64)
    requires p.Ok() && p.used < |p.tables| && p.Link(p.used) < U64_LIMIT && !InWindowSlot(a)
    requires WindowRoots(p).Shape()
    ensures WindowRoots(p).Translate(a) == p.Translate(a)
  {
    hide Pool.Reach, Pool.EntryOk, Address, Present, Large, Writable, LargeAddress, HugeAddress, Index;
    OtherSlotsReach(p, a, 1);
    OtherSlotsReach(p, a, 2);
    OtherSlotsReach(p, a, 3);
    ReachPath(p, a, 1);
    ReachPath(p, a, 2);
    ReachPath(p, a, 3);
    hide Pool.Ok;
  }
}
