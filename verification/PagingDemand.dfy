/** Which tables a mapping has to add to a pool, and what adding them does to every walk. */
module PagingDemand {
  import opened Bytes
  import opened Paging

  predicate OnLargePage(p: Pool, a: u64)
    requires p.Shape()
  {
    p.Translate(a).Some? && p.Translate(a).value.large
  }

  /** A large page is in the way that maps elsewhere. */
  predicate Blocked(p: Pool, va: u64, physical: nat)
    requires p.Shape()
  {
    OnLargePage(p, va) && p.Translate(va).value.physical != physical
  }

  /** The table at one depth of a walk, if the walk does not get there yet; a table is named by its path. */
  function TableAt(p: Pool, va: u64, depth: nat): set<seq<nat>>
    requires p.Shape() && 1 <= depth <= 3
  {
    if p.Reach(va, depth).None? then {p.Prefix(va, depth)} else {}
  }

  /** The tables missing on a walk down to this depth. */
  function TablesTo(p: Pool, va: u64, depth: nat): (r: set<seq<nat>>)
    requires p.Shape() && depth <= 3
    ensures forall x :: x in r ==> 1 <= |x| <= depth
  {
    if depth == 0 then {} else TablesTo(p, va, depth - 1) + TableAt(p, va, depth)
  }

  /** The tables a page mapping adds: those missing on its walk, unless a large page ends it. */
  function Tables(p: Pool, va: u64): set<seq<nat>>
    requires p.Shape()
  {
    if OnLargePage(p, va) then {} else TablesTo(p, va, 3)
  }

  /** The tables that n pages from v need together; a table they share counts once. */
  function RangeTables(p: Pool, v: u64, n: nat): set<seq<nat>>
    requires p.Shape() && v + 0x1000 * n <= U64_LIMIT
  {
    if n == 0 then {} else RangeTables(p, v, n - 1) + Tables(p, v + 0x1000 * (n - 1))
  }

  /** Page i of a range meets a large page that maps elsewhere; frames wrap as 64-bit numbers do. */
  predicate PageBlocked(p: Pool, v: u64, physical: u64, i: nat)
    requires p.Shape() && v + 0x1000 * i < U64_LIMIT
  {
    Blocked(p, v + 0x1000 * i, (physical + 0x1000 * i) % U64_LIMIT)
  }

  /** The pool has what it takes to map n pages from v: nothing is in the way and the tables fit. */
  ghost predicate Mappable(p: Pool, v: u64, physical: u64, n: nat)
    requires p.Shape() && v + 0x1000 * n <= U64_LIMIT
  {
    && (forall i :: 0 <= i < n ==> !PageBlocked(p, v, physical, i))
    && p.used + |RangeTables(p, v, n)| <= |p.tables|
  }

  /** Exactly these tables were added, and large pages stay what they were. */
  ghost predicate Grown(p: Pool, q: Pool, tables: set<seq<nat>>) {
    && p.Shape() && q.Shape() && q.Shared() == p.Shared() && |q.tables| == |p.tables| && q.used == p.used + |tables|
    && (forall a: u64, d: nat | 1 <= d <= 3 :: q.Reach(a, d).Some? <==> p.Reach(a, d).Some? || p.Prefix(a, d) in tables)
    && (forall a: u64 :: OnLargePage(q, a) == OnLargePage(p, a))
    && (forall a: u64 :: OnLargePage(p, a) ==> q.Translate(a) == p.Translate(a))
  }

  lemma GrownNone(p: Pool)
    requires p.Shape()
    ensures Grown(p, p, {})
  {
  }

  lemma SamePrefixes(p: Pool, q: Pool, a: u64, d: nat)
    requires p.Shape() && q.Shape() && p.Shared() == q.Shared() && d <= 3
    ensures p.Prefix(a, d) == q.Prefix(a, d)
  {
  }

  lemma GrownThen(p: Pool, q: Pool, r: Pool, first: set<seq<nat>>, second: set<seq<nat>>)
    requires Grown(p, q, first) && Grown(q, r, second) && first !! second
    ensures Grown(p, r, first + second)
  {
    hide Pool.Reach, Pool.Translate, Pool.Prefix, Pool.Shape, OnLargePage, Pool.Shared;
    forall a: u64, d: nat | 1 <= d <= 3
      ensures r.Reach(a, d).Some? <==> p.Reach(a, d).Some? || p.Prefix(a, d) in first + second
    {
      SamePrefixes(p, q, a, d);
    }
  }

  lemma GrownFacts(p: Pool, q: Pool, added: set<seq<nat>>, va: u64)
    requires Grown(p, q, added)
    ensures p.Shape() && q.Shape() && |q.tables| == |p.tables| && q.used == p.used + |added|
    ensures OnLargePage(q, va) == OnLargePage(p, va)
    ensures forall physical :: Blocked(q, va, physical) == Blocked(p, va, physical)
  {
    hide Pool.Translate, Pool.Shape, Pool.Reach;
  }

  /** After growing, a walk misses what it missed before without what was added. */
  lemma TableAfter(p: Pool, q: Pool, added: set<seq<nat>>, va: u64, d: nat)
    requires Grown(p, q, added) && 1 <= d <= 3
    ensures TableAt(q, va, d) == TableAt(p, va, d) - added
  {
    hide Pool.Reach, Pool.Prefix, OnLargePage;
    SamePrefixes(p, q, va, d);
    assert q.Reach(va, d).Some? <==> p.Reach(va, d).Some? || p.Prefix(va, d) in added;
  }

  lemma TablesAfter(p: Pool, q: Pool, added: set<seq<nat>>, va: u64)
    requires Grown(p, q, added)
    ensures Tables(q, va) == Tables(p, va) - added
  {
    hide TablesTo, TableAt, OnLargePage, Grown;
    GrownFacts(p, q, added, va);
    TableAfter(p, q, added, va, 1);
    TableAfter(p, q, added, va, 2);
    TableAfter(p, q, added, va, 3);
    TablesParts(p, va);
    TablesParts(q, va);
  }

  lemma TablesParts(p: Pool, va: u64)
    requires p.Shape()
    ensures TablesTo(p, va, 3) == TableAt(p, va, 1) + TableAt(p, va, 2) + TableAt(p, va, 3)
    ensures |TablesTo(p, va, 3)| <= 3
  {
    hide TableAt;
    TableAtOne(p, va, 1);
    TableAtOne(p, va, 2);
    TableAtOne(p, va, 3);
    assert TablesTo(p, va, 1) == TableAt(p, va, 1);
    assert TablesTo(p, va, 2) == TableAt(p, va, 1) + TableAt(p, va, 2);
  }

  lemma TableAtOne(p: Pool, va: u64, d: nat)
    requires p.Shape() && 1 <= d <= 3
    ensures |TableAt(p, va, d)| <= 1
  {
  }

  /** One more level of a walk. */
  lemma GrownDeeper(p: Pool, q: Pool, r: Pool, va: u64, depth: nat)
    requires depth < 3 && p.Shape() && q.Shape() && Grown(p, q, TablesTo(p, va, depth))
    requires Grown(q, r, TableAt(q, va, depth + 1))
    ensures Grown(p, r, TablesTo(p, va, depth + 1))
  {
    hide Grown, TableAt;
    var added := TablesTo(p, va, depth);
    TableAfter(p, q, added, va, depth + 1);
    GrownThen(p, q, r, added, TableAt(q, va, depth + 1));
    assert added + TableAt(q, va, depth + 1) == TablesTo(p, va, depth + 1);
  }

  /** One more page of a range. */
  lemma GrownFurther(p: Pool, q: Pool, r: Pool, v: u64, n: nat)
    requires p.Shape() && q.Shape() && v + 0x1000 * (n + 1) <= U64_LIMIT && Grown(p, q, RangeTables(p, v, n))
    requires Grown(q, r, Tables(q, v + 0x1000 * n))
    ensures Grown(p, r, RangeTables(p, v, n + 1))
  {
    hide Grown, Tables;
    var added, page := RangeTables(p, v, n), v + 0x1000 * n;
    TablesAfter(p, q, added, page);
    GrownThen(p, q, r, added, Tables(q, page));
    assert added + Tables(q, page) == RangeTables(p, v, n + 1);
  }

  /** Whether page n fails in a pool grown by the n pages before it, in terms of the pool before all of them. */
  lemma NextPage(p: Pool, q: Pool, v: u64, physical: u64, n: nat)
    requires p.Shape() && q.Shape() && v + 0x1000 * (n + 1) <= U64_LIMIT && Grown(p, q, RangeTables(p, v, n))
    requires Mappable(p, v, physical, n)
    ensures Mappable(p, v, physical, n + 1)
       <==> (!PageBlocked(q, v, physical, n) && q.used + |Tables(q, v + 0x1000 * n)| <= |q.tables|)
  {
    hide Grown, Tables, Blocked;
    var added, page := RangeTables(p, v, n), v + 0x1000 * n;
    GrownFacts(p, q, added, page);
    TablesAfter(p, q, added, page);
    assert added + Tables(q, page) == RangeTables(p, v, n + 1);
    assert PageBlocked(q, v, physical, n) == PageBlocked(p, v, physical, n);
    hide PageBlocked;
  }

  /** What holds for a range holds for every shorter one. */
  lemma {:induction false} MappableShorter(p: Pool, v: u64, physical: u64, n: nat, m: nat)
    requires p.Shape() && v + 0x1000 * n <= U64_LIMIT && m <= n && Mappable(p, v, physical, n)
    ensures Mappable(p, v, physical, m)
  {
    hide PageBlocked, Tables;
    if m == n {
    } else {
      SubsetSize(RangeTables(p, v, n - 1), RangeTables(p, v, n));
      MappableShorter(p, v, physical, n - 1, m);
    }
  }

  lemma SubsetSize<T>(a: set<T>, b: set<T>)
    requires a <= b
    ensures |a| <= |b|
  {
    assert b == a + (b - a);
  }

  // ---------------------------------------------------------------- the two writes of a mapping

  /** Linking a fresh table where a walk stops lets exactly the walks of its path get one step further. */
  lemma LinkReach(p: Pool, v: u64, depth: nat, t: nat, a: u64, d: nat)
    requires p.Ok() && depth < 3 && p.Reach(v, depth) == Some(t) && t < p.used && 1 <= d <= 3
    requires p.used < |p.tables| && p.tables[t][Index(v, depth)] == 0
    requires p.Link(p.used) < U64_LIMIT && Linked(p, t, Index(v, depth)).Shape()
    ensures Linked(p, t, Index(v, depth)).Reach(a, d).Some?
       <==> p.Reach(a, d).Some? || p.Prefix(a, d) in {p.Prefix(v, depth + 1)}
  {
    hide Index, Address, Present, Large, Pool.EntryOk, Pool.Prefix, Pool.Ok, Pool.Reach, Pool.Link, Linked;
    OkShape(p);
    var k := Index(v, depth);
    ReachPath(p, v, depth);
    LinkThrough(p, v, depth, t, a);
    if Through(p, a, t, k) {
      FreshReach(p, v, depth, t, a);
      LinkPast(p, v, depth, t, a, d);
    } else {
      LinkElsewhere(p, v, depth, t, a, d);
    }
  }

  /** The walks through the linked entry are those of the new table's path. */
  lemma LinkThrough(p: Pool, v: u64, depth: nat, t: nat, a: u64)
    requires p.Ok() && depth < 3 && p.Reach(v, depth) == Some(t) && t < p.used && |p.path[t]| == depth
    requires p.path[t] == p.Prefix(v, depth) && p.tables[t][Index(v, depth)] == 0
    ensures Through(p, a, t, Index(v, depth)) <==> p.Prefix(a, depth + 1) == p.Prefix(v, depth + 1)
  {
    hide Index, Address, Large, Pool.EntryOk;
    PrefixSteps(p, a);
    PrefixSteps(p, v);
    if depth == 0 {
      assert Present(0) == false;
    }
  }

  lemma LinkElsewhere(p: Pool, v: u64, depth: nat, t: nat, a: u64, d: nat)
    requires p.Ok() && depth < 3 && t < p.used < |p.tables| && 1 <= d <= 3 && !Through(p, a, t, Index(v, depth))
    requires p.Link(p.used) < U64_LIMIT && Linked(p, t, Index(v, depth)).Shape()
    ensures Linked(p, t, Index(v, depth)).Reach(a, d) == p.Reach(a, d)
  {
    hide Index, Address, Present, Large, Pool.EntryOk, Pool.Prefix, Pool.Ok, Pool.Reach, Pool.Link;
    OkShape(p);
    var k := Index(v, depth);
    WriteReach(p, t, k, p.Link(p.used), a, d);
    ReachTables(p.Write(t, k, p.Link(p.used)), Linked(p, t, k), a, d);
  }

  lemma LinkPast(p: Pool, v: u64, depth: nat, t: nat, a: u64, d: nat)
    requires p.Ok() && depth < 3 && p.Reach(v, depth) == Some(t) && t < p.used < |p.tables| && 1 <= d <= 3
    requires |p.path[t]| == depth && Through(p, a, t, Index(v, depth)) && p.tables[t][Index(v, depth)] == 0
    requires p.Link(p.used) < U64_LIMIT && Linked(p, t, Index(v, depth)).Shape()
    requires Linked(p, t, Index(v, depth)).Reach(a, depth + 1) == Some(p.used)
    requires p.path[t] == p.Prefix(v, depth)
    ensures Linked(p, t, Index(v, depth)).Reach(a, d).Some? <==> p.Reach(a, d).Some? || d == depth + 1
  {
    hide Index, Address, Large, Pool.EntryOk, Pool.Prefix, Pool.Ok, Pool.Reach, Pool.Link;
    OkShape(p);
    var k := Index(v, depth);
    var q := Linked(p, t, k);
    SamePrefixReach(p, a, v, depth);
    StopsHere(p, a, depth, t, d);
    if d <= depth {
      WriteReach(p, t, k, p.Link(p.used), a, d);
      ReachTables(p.Write(t, k, p.Link(p.used)), q, a, d);
    } else if d > depth + 1 {
      FreshIsZero(p, t, k, Index(a, depth + 1));
      StopsHere(q, a, depth + 1, p.used, d);
    }
  }

  lemma FreshIsZero(p: Pool, t: nat, k: nat, j: nat)
    requires p.Ok() && t < p.used < |p.tables| && k < 512 && j < 512 && p.Link(p.used) < U64_LIMIT
    ensures Linked(p, t, k).tables[p.used][j] == 0
  {
    hide Pool.EntryOk, Pool.ChildPath, Pool.Link;
  }

  /** A walk gets no further than an empty entry. */
  lemma StopsHere(p: Pool, a: u64, depth: nat, t: nat, d: nat)
    requires p.Shape() && depth < 3 && 1 <= d <= 3 && p.Reach(a, depth) == Some(t) && p.tables[t][Index(a, depth)] == 0
    ensures d > depth ==> p.Reach(a, d).None?
    decreases d
  {
    if d > depth + 1 {
      StopsHere(p, a, depth, t, d - 1);
    }
  }

  lemma LinkGrows(p: Pool, v: u64, depth: nat, t: nat)
    requires p.Ok() && depth < 3 && p.Reach(v, depth) == Some(t)
    requires p.used < |p.tables| && p.tables[t][Index(v, depth)] == 0
    ensures t < p.used && p.Link(p.used) < U64_LIMIT
    ensures p.Reach(v, depth + 1).None? && Grown(p, Linked(p, t, Index(v, depth)), TableAt(p, v, depth + 1))
  {
    hide Pool.Reach, Pool.Translate, Pool.Prefix, Index, Pool.EntryOk, Pool.Ok, Linked;
    LinkFresh(p, v, depth, t);
    var q := Linked(p, t, Index(v, depth));
    OkShape(p);
    OkShape(q);
    LinkedParts(p, t, Index(v, depth));
    StopsHere(p, v, depth, t, depth + 1);
    forall a: u64, d: nat | 1 <= d <= 3
      ensures q.Reach(a, d).Some? <==> p.Reach(a, d).Some? || p.Prefix(a, d) in {p.Prefix(v, depth + 1)}
    {
      LinkReach(p, v, depth, t, a, d);
    }
  }

  /** Writing a leaf adds no table and touches no large page. */
  lemma LeafGrows(p: Pool, v: u64, t: nat, e: u64)
    requires p.Ok() && p.Reach(v, 3) == Some(t)
    ensures t < p.used && Grown(p, p.Write(t, Index(v, 3), e), {})
  {
    hide Pool.Reach, Pool.Prefix, Pool.Translate, Index, Pool.EntryOk, Pool.Ok, Address, Present, Writable;
    LeafWrite(p, v, t, e);
    OkShape(p);
    var k := Index(v, 3);
    var q := p.Write(t, k, e);
    OkShape(q);
    forall a: u64, d: nat | 1 <= d <= 3
      ensures q.Reach(a, d) == p.Reach(a, d)
    {
      WriteReach(p, t, k, e, a, d);
    }
    forall a: u64
      ensures OnLargePage(q, a) == OnLargePage(p, a) && (OnLargePage(p, a) ==> q.Translate(a) == p.Translate(a))
    {
      if p.SamePage(a, v) {
        SamePrefixReach(p, a, v, 3);
        LeafNotLarge(p, a);
      }
    }
  }

  /** A walk that gets to the last table ends on no large page. */
  lemma LeafNotLarge(p: Pool, a: u64)
    requires p.Shape() && p.Reach(a, 3).Some?
    ensures !OnLargePage(p, a)
  {
    hide Pool.Reach;
  }
}
