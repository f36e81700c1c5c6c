/** The firmware memory map: sorted and compacted in place by the loader, then checked by the kernel. */
module MemoryMap {
  import opened Bytes
  import opened MemoryRegions

  datatype LayoutError = Overflow(index: nat) | Overlap(previousEnd: u64, nextBase: u64)
  datatype Normalized = Ok(used: nat) | Err(error: LayoutError)

  // ---------------------------------------------------------------- address-to-kind functions

  ghost predicate SameKinds(s: seq<Region>, t: seq<Region>) {
    forall a: nat :: KindsAt(s, a) == KindsAt(t, a)
  }

  lemma SameKindsRefl(s: seq<Region>)
    ensures SameKinds(s, s)
  {
  }

  lemma SameKindsTrans(s: seq<Region>, t: seq<Region>, u: seq<Region>)
    requires SameKinds(s, t) && SameKinds(t, u)
    ensures SameKinds(s, u)
  {
  }

  lemma {:induction false} KindsAppend(s: seq<Region>, t: seq<Region>, a: nat)
    ensures KindsAt(s + t, a) == KindsAt(s, a) + KindsAt(t, a)
    decreases |t|
  {
    if t == [] {
      assert s + t == s;
    } else {
      assert (s + t)[..|s + t| - 1] == s + t[..|t| - 1];
      KindsAppend(s, t[..|t| - 1], a);
    }
  }

  function KindOf(r: Region, a: nat): multiset<nat> { if r.Covers(a) then multiset{r.kind} else multiset{} }

  lemma KindsSnoc(s: seq<Region>, r: Region, a: nat)
    ensures KindsAt(s + [r], a) == KindsAt(s, a) + KindOf(r, a)
  {
    assert (s + [r])[..|s|] == s;
  }

  /** Swapping two neighbours does not change the kind of any address. */
  lemma SwapKinds(s: seq<Region>, i: nat)
    requires 1 <= i < |s|
    ensures SameKinds(s, s[i := s[i - 1]][i - 1 := s[i]])
  {
    var t := s[i := s[i - 1]][i - 1 := s[i]];
    forall a: nat
      ensures KindsAt(s, a) == KindsAt(t, a)
    {
      var front, back := s[..i - 1], s[i + 1..];
      assert s == front + [s[i - 1]] + [s[i]] + back;
      assert t == front + [s[i]] + [s[i - 1]] + back;
      KindsAppend(front + [s[i - 1]] + [s[i]], back, a);
      KindsAppend(front + [s[i]] + [s[i - 1]], back, a);
      KindsSnoc(front + [s[i - 1]], s[i], a);
      KindsSnoc(front + [s[i]], s[i - 1], a);
      KindsSnoc(front, s[i - 1], a);
      KindsSnoc(front, s[i], a);
    }
  }

  ghost predicate Fits(s: seq<Region>) { forall i :: 0 <= i < |s| ==> s[i].End() < U64_LIMIT }

  /** As the loader builds regions: nothing in the reserved field, one of its eight kinds. */
  ghost predicate Clean(s: seq<Region>) { forall i :: 0 <= i < |s| ==> s[i].reserved == 0 && s[i].kind < 8 }

  ghost predicate SortedByBase(s: seq<Region>) { forall i, j :: 0 <= i < j < |s| ==> s[i].base <= s[j].base }

  /** No two regions share an address. Empty regions share none with anyone. */
  ghost predicate Disjoint(s: seq<Region>) {
    forall i, j, a: nat :: 0 <= i < j < |s| ==> !(s[i].Covers(a) && s[j].Covers(a))
  }

  lemma {:induction false} CoverCounts(s: seq<Region>, i: nat, a: nat)
    requires i < |s| && s[i].Covers(a)
    ensures s[i].kind in KindsAt(s, a)
    decreases |s|
  {
    if i >= |s| - 1 {
    } else {
      CoverCounts(s[..|s| - 1], i, a);
    }
  }

  lemma {:induction false} CountCovers(s: seq<Region>, a: nat) returns (i: nat)
    requires KindsAt(s, a) != multiset{}
    ensures i < |s| && s[i].Covers(a)
  {
    if s[|s| - 1].Covers(a) {
      i := |s| - 1;
    } else {
      i := CountCovers(s[..|s| - 1], a);
    }
  }

  ghost predicate OneKindEach(s: seq<Region>) { forall a: nat :: |KindsAt(s, a)| <= 1 }

  /** A map is free of overlaps exactly when no address has two kinds at once. */
  lemma DisjointKinds(s: seq<Region>)
    ensures Disjoint(s) <==> OneKindEach(s)
  {
    if Disjoint(s) {
      DisjointOneKind(s);
    } else {
      OverlapCounted(s);
    }
  }

  lemma {:induction false} DisjointOneKind(s: seq<Region>)
    requires Disjoint(s)
    ensures OneKindEach(s)
  {
    if s == [] {
    } else {
      var front, last := s[..|s| - 1], s[|s| - 1];
      assert s == front + [last];
      assert Disjoint(front);
      DisjointOneKind(front);
      forall a: nat
        ensures |KindsAt(s, a)| <= 1
      {
        KindsSnoc(front, last, a);
        if last.Covers(a) && KindsAt(front, a) != multiset{} {
          var i := CountCovers(front, a);
          assert false;
        }
      }
    }
  }

  lemma FewerKinds(s: seq<Region>, k: nat, a: nat)
    requires k <= |s|
    ensures |KindsAt(s[..k], a)| <= |KindsAt(s, a)|
  {
    assert s == s[..k] + s[k..];
    KindsAppend(s[..k], s[k..], a);
  }

  lemma OverlapCounted(s: seq<Region>)
    requires !Disjoint(s)
    ensures !OneKindEach(s)
  {
    var i, j, a: nat :| 0 <= i < j < |s| && s[i].Covers(a) && s[j].Covers(a);
    CoverCounts(s[..j], i, a);
    SecondKind(s, j, a);
  }

  lemma SecondKind(s: seq<Region>, j: nat, a: nat)
    requires j < |s| && s[j].Covers(a) && KindsAt(s[..j], a) != multiset{}
    ensures |KindsAt(s, a)| >= 2
  {
    assert s[..j + 1] == s[..j] + [s[j]];
    KindsSnoc(s[..j], s[j], a);
    FewerKinds(s, j + 1, a);
    assert |KindsAt(s[..j], a)| >= 1;
  }

  // ---------------------------------------------------------------- the normal form

  /** Sorted, nonempty, disjoint, and no two neighbours that could be one region. */
  ghost predicate Normal(s: seq<Region>) {
    && (forall i :: 0 <= i < |s| ==> s[i].length > 0 && s[i].End() < U64_LIMIT)
    && (forall i, j :: 0 <= i < j < |s| ==> s[i].End() <= s[j].base)
    && (forall i, j :: 0 <= i < j < |s| ==> !(s[i].End() == s[j].base && s[i].kind == s[j].kind))
  }

  function MapEnd(s: seq<Region>): nat { if s == [] then 0 else s[|s| - 1].End() }

  lemma {:induction false} NormalKinds(s: seq<Region>, a: nat)
    requires Normal(s)
    ensures |KindsAt(s, a)| <= 1
    ensures a >= MapEnd(s) ==> KindsAt(s, a) == multiset{}
  {
    if s == [] {
    } else {
      var front := s[..|s| - 1];
      NormalKinds(front, a);
      assert |front| > 0 ==> MapEnd(front) == s[|s| - 2].End();
    }
  }

  lemma NormalSnoc(s: seq<Region>, r: Region)
    requires Normal(s) && r.length > 0 && r.End() < U64_LIMIT && MapEnd(s) <= r.base
    requires s != [] ==> !(MapEnd(s) == r.base && s[|s| - 1].kind == r.kind)
    ensures Normal(s + [r])
  {
  }

  lemma NormalGrow(front: seq<Region>, last: Region, grown: Region)
    requires Normal(front + [last]) && grown.base == last.base && grown.kind == last.kind
    requires grown.length > 0 && grown.End() < U64_LIMIT
    ensures Normal(front + [grown])
  {
    var s, t := front + [last], front + [grown];
    assert forall i :: 0 <= i < |s| ==> t[i].base == s[i].base && t[i].kind == s[i].kind;
    assert forall i :: 0 <= i < |front| ==> t[i] == s[i];
  }

  lemma NormalMerge(s: seq<Region>, r: Region)
    requires Normal(s) && s != [] && r.length > 0 && r.End() < U64_LIMIT
    requires MapEnd(s) == r.base && s[|s| - 1].kind == r.kind
    ensures var last := s[|s| - 1];
            var merged := s[|s| - 1 := last.(length := r.End() - last.base)];
            Normal(merged) && forall a: nat :: KindsAt(merged, a) == KindsAt(s, a) + KindOf(r, a)
  {
    hide Normal, KindsAt;
    var last := s[|s| - 1];
    var grown := last.(length := r.End() - last.base);
    var merged := s[|s| - 1 := grown];
    var front := s[..|s| - 1];
    assert merged == front + [grown] && s == front + [last];
    NormalGrow(front, last, grown);
    forall a: nat
      ensures KindsAt(merged, a) == KindsAt(s, a) + KindOf(r, a)
    {
      KindsSnoc(front, grown, a);
      KindsSnoc(front, last, a);
    }
  }

  // ---------------------------------------------------------------- the loader's normalisation

  /** What sorting keeps of each region. */
  ghost predicate Fine(r: Region, clean: bool) {
    r.End() < U64_LIMIT && (clean ==> r.reserved == 0 && r.kind < 8)
  }

  /** In-place insertion sort by base address. */
  method SortRegions(regions: array<Region>)
    requires Fits(regions[..])
    modifies regions
    ensures SortedByBase(regions[..]) && Fits(regions[..]) && SameKinds(old(regions[..]), regions[..])
    ensures Clean(old(regions[..])) ==> Clean(regions[..])
  {
    hide SameKinds;
    SameKindsRefl(regions[..]);
    ghost var clean := Clean(regions[..]);
    assert forall i :: 0 <= i < regions.Length ==> regions[i] == regions[..][i];
    if regions.Length == 0 {
      return;
    }
    for index := 1 to regions.Length
      invariant forall i, j :: 0 <= i < j < index ==> regions[i].base <= regions[j].base
      invariant forall i :: 0 <= i < regions.Length ==> Fine(regions[i], clean)
      invariant SameKinds(old(regions[..]), regions[..])
    {
      InsertBack(regions, index, old(regions[..]), clean);
    }
    assert forall i :: 0 <= i < regions.Length ==> regions[..][i] == regions[i];
  }

  /** Moves the region at index back to its place in the sorted part before it. */
  method InsertBack(regions: array<Region>, index: nat, ghost input: seq<Region>, ghost clean: bool)
    requires 1 <= index < regions.Length && SameKinds(input, regions[..])
    requires forall i, j :: 0 <= i < j < index ==> regions[i].base <= regions[j].base
    requires forall i :: 0 <= i < regions.Length ==> Fine(regions[i], clean)
    modifies regions
    ensures forall i, j :: 0 <= i < j <= index ==> regions[i].base <= regions[j].base
    ensures forall i :: 0 <= i < regions.Length ==> Fine(regions[i], clean)
    ensures SameKinds(input, regions[..])
  {
    hide SameKinds, Fine;
    var cursor := index;
    while cursor != 0 && regions[cursor].base < regions[cursor - 1].base
      invariant 0 <= cursor <= index
      invariant forall i, j :: 0 <= i < j <= index && j != cursor ==> regions[i].base <= regions[j].base
      invariant forall i :: 0 <= i < regions.Length ==> Fine(regions[i], clean)
      invariant SameKinds(input, regions[..])
    {
      SwapBack(regions, cursor, input);
      cursor := cursor - 1;
    }
  }

  method SwapBack(regions: array<Region>, cursor: nat, ghost input: seq<Region>)
    requires 1 <= cursor < regions.Length && SameKinds(input, regions[..])
    modifies regions
    ensures regions[cursor] == old(regions[cursor - 1]) && regions[cursor - 1] == old(regions[cursor])
    ensures forall i :: 0 <= i < regions.Length && i != cursor && i != cursor - 1 ==> regions[i] == old(regions[i])
    ensures SameKinds(input, regions[..])
  {
    hide SameKinds;
    ghost var before := regions[..];
    SwapKinds(before, cursor);
    regions[cursor], regions[cursor - 1] := regions[cursor - 1], regions[cursor];
    assert regions[..] == before[cursor := before[cursor - 1]][cursor - 1 := before[cursor]];
    SameKindsTrans(input, before, regions[..]);
  }

  /** What the compaction has built from the first regions of the sorted map. */
  ghost predicate Built(sorted: seq<Region>, index: nat, out: seq<Region>)
    requires index <= |sorted|
  {
    && Normal(out) && SameKinds(sorted[..index], out)
    && (out != [] ==> forall j :: index <= j < |sorted| ==> out[|out| - 1].base <= sorted[j].base)
  }

  /** Drops empty regions and merges neighbours of one kind, writing over the part already read. */
  method CompactRegions(regions: array<Region>) returns (r: Normalized)
    requires SortedByBase(regions[..]) && Fits(regions[..])
    modifies regions
    ensures r.Ok? ==>
              r.used <= regions.Length && Normal(regions[..r.used]) && SameKinds(old(regions[..]), regions[..r.used])
    ensures r.Ok? && Clean(old(regions[..])) ==> Clean(regions[..r.used])
    ensures r.Err? ==> r.error.Overlap? && r.error.nextBase < r.error.previousEnd
    ensures r.Err? ==> |KindsAt(old(regions[..]), r.error.nextBase)| >= 2
  {
    hide KindsAt, Region.Covers, Built, SortedByBase, Normal, SameKinds;
    ghost var sorted := regions[..];
    ghost var out := [];
    var used := 0;
    NothingBuilt(sorted);
    for index := 0 to regions.Length
      invariant used <= index && regions[index..] == sorted[index..]
      invariant regions[..used] == out && Built(sorted, index, out)
      invariant Clean(sorted) ==> Clean(out)
    {
      var region := regions[index];
      assert region == regions[index..][0] == sorted[index] && region.End() < U64_LIMIT;
      assert regions[index + 1..] == regions[index..][1..] == sorted[index..][1..] == sorted[index + 1..];
      ghost var rest := regions[index + 1..];
      if region.length == 0 {
        TakeEmpty(sorted, index, out);
        continue;
      }
      if used != 0 {
        var previous := regions[used - 1];
        assert previous == out[used - 1];
        BuiltEnd(sorted, index, out);
        if region.base < previous.End() {
          OverlapFound(sorted, index, out);
          return Err(Overlap(previous.End(), region.base));
        }
        if region.base == previous.End() && region.kind == previous.kind {
          TakeMerged(sorted, index, out);
          var merged := previous.(length := region.End() - previous.base);
          regions[used - 1] := merged;
          out := out[used - 1 := merged];
          assert regions[..used] == out && regions[index + 1..] == rest;
          continue;
        }
      }
      TakeWhole(sorted, index, out);
      regions[used] := region;
      used := used + 1;
      out := out + [region];
      assert regions[..used] == out && regions[index + 1..] == rest;
    }
    BuiltAll(sorted, out);
    r := Ok(used);
  }

  lemma NothingBuilt(sorted: seq<Region>)
    ensures Built(sorted, 0, [])
  {
  }

  lemma BuiltEnd(sorted: seq<Region>, index: nat, out: seq<Region>)
    requires index < |sorted| && Built(sorted, index, out) && out != []
    ensures MapEnd(out) < U64_LIMIT && out[|out| - 1].base <= sorted[index].base
  {
  }

  lemma BuiltAll(sorted: seq<Region>, out: seq<Region>)
    requires Built(sorted, |sorted|, out)
    ensures Normal(out) && SameKinds(sorted, out)
  {
    assert sorted[..|sorted|] == sorted;
  }

  lemma TakeEmpty(sorted: seq<Region>, index: nat, out: seq<Region>)
    requires index < |sorted| && Built(sorted, index, out) && sorted[index].length == 0
    ensures Built(sorted, index + 1, out)
  {
    forall a: nat
      ensures KindsAt(sorted[..index + 1], a) == KindsAt(out, a)
    {
      assert sorted[..index + 1] == sorted[..index] + [sorted[index]];
      KindsSnoc(sorted[..index], sorted[index], a);
    }
  }

  lemma TakeMerged(sorted: seq<Region>, index: nat, out: seq<Region>)
    requires index < |sorted| && Built(sorted, index, out) && out != []
    requires sorted[index].length > 0 && sorted[index].End() < U64_LIMIT
    requires MapEnd(out) == sorted[index].base && out[|out| - 1].kind == sorted[index].kind
    ensures var last := out[|out| - 1];
            Built(sorted, index + 1, out[|out| - 1 := last.(length := sorted[index].End() - last.base)])
  {
    hide KindsAt;
    var last := out[|out| - 1];
    var merged := out[|out| - 1 := last.(length := sorted[index].End() - last.base)];
    NormalMerge(out, sorted[index]);
    assert sorted[..index + 1] == sorted[..index] + [sorted[index]];
    forall a: nat
      ensures KindsAt(sorted[..index + 1], a) == KindsAt(merged, a)
    {
      KindsSnoc(sorted[..index], sorted[index], a);
    }
  }

  lemma TakeWhole(sorted: seq<Region>, index: nat, out: seq<Region>)
    requires index < |sorted| && Built(sorted, index, out) && SortedByBase(sorted)
    requires sorted[index].length > 0 && sorted[index].End() < U64_LIMIT && MapEnd(out) <= sorted[index].base
    requires out != [] ==> !(MapEnd(out) == sorted[index].base && out[|out| - 1].kind == sorted[index].kind)
    ensures Built(sorted, index + 1, out + [sorted[index]])
  {
    hide KindsAt;
    NormalSnoc(out, sorted[index]);
    assert sorted[..index + 1] == sorted[..index] + [sorted[index]];
    forall a: nat
      ensures KindsAt(sorted[..index + 1], a) == KindsAt(out + [sorted[index]], a)
    {
      KindsSnoc(sorted[..index], sorted[index], a);
      KindsSnoc(out, sorted[index], a);
    }
  }

  /** A region that starts inside the map built so far gives its first byte two kinds. */
  lemma OverlapFound(sorted: seq<Region>, index: nat, out: seq<Region>)
    requires index < |sorted| && Built(sorted, index, out) && out != []
    requires sorted[index].length > 0 && sorted[index].base < MapEnd(out)
    ensures |KindsAt(sorted, sorted[index].base)| >= 2
  {
    hide KindsAt, Normal;
    CoverCounts(out, |out| - 1, sorted[index].base);
    SecondKind(sorted, index, sorted[index].base);
  }

  /**
   The loader's normalisation: on success the same kind for every address in normal form; without
   an address overflow it fails exactly when two regions overlap.
   */
  method NormalizeMemoryRegions(regions: array<Region>) returns (r: Normalized)
    modifies regions
    ensures r.Ok? ==>
              r.used <= regions.Length && Normal(regions[..r.used]) && SameKinds(old(regions[..]), regions[..r.used])
    ensures r.Ok? && Clean(old(regions[..])) ==> Clean(regions[..r.used])
    ensures r.Err? && r.error.Overflow? <==> !Fits(old(regions[..]))
    ensures r.Err? && r.error.Overflow? ==>
              r.error.index < regions.Length && old(regions[..])[r.error.index].End() >= U64_LIMIT
    ensures Fits(old(regions[..])) ==> (r.Ok? <==> Disjoint(old(regions[..])))
  {
    hide KindsAt, Region.Covers, Disjoint;
    ghost var input := regions[..];
    for index := 0 to regions.Length
      invariant forall i :: 0 <= i < index ==> regions[i].End() < U64_LIMIT
      invariant regions[..] == input
    {
      if regions[index].End() >= U64_LIMIT {
        assert input[index].End() >= U64_LIMIT;
        return Err(Overflow(index));
      }
    }
    assert Fits(input);
    SortRegions(regions);
    ghost var sorted := regions[..];
    r := CompactRegions(regions);
    DisjointKinds(input);
    if r.Ok? {
      NormalOneKind(input, regions[..r.used]);
    } else {
      assert |KindsAt(input, r.error.nextBase)| == |KindsAt(sorted, r.error.nextBase)| >= 2;
    }
  }

  lemma NormalOneKind(input: seq<Region>, out: seq<Region>)
    requires Normal(out) && SameKinds(input, out)
    ensures OneKindEach(input)
  {
    forall a: nat
      ensures |KindsAt(input, a)| <= 1
    {
      NormalKinds(out, a);
    }
  }

  // ---------------------------------------------------------------- uniqueness of the normal form

  predicate SameRegions(s: seq<Region>, t: seq<Region>) {
    |s| == |t| && forall i :: 0 <= i < |s| ==>
        s[i].base == t[i].base && s[i].length == t[i].length && s[i].kind == t[i].kind
  }

  /** The kind a map without overlaps gives to an address. */
  function KindAt(s: seq<Region>, a: nat): Option<nat> {
    if s == [] then None
    else if s[|s| - 1].Covers(a) then Some(s[|s| - 1].kind)
    else KindAt(s[..|s| - 1], a)
  }

  function Single(k: Option<nat>): multiset<nat> { if k.Some? then multiset{k.value} else multiset{} }

  lemma NormalFront(s: seq<Region>)
    requires Normal(s) && s != []
    ensures var front, last := s[..|s| - 1], s[|s| - 1];
            && s == front + [last] && Normal(front) && last.length > 0
            && MapEnd(front) <= last.base
            && (front != [] ==> !(MapEnd(front) == last.base && front[|front| - 1].kind == last.kind))
  {
    var front, last := s[..|s| - 1], s[|s| - 1];
    assert front != [] ==> front[|front| - 1] == s[|s| - 2];
  }

  lemma {:induction false} BeyondEnd(s: seq<Region>, a: nat)
    requires Normal(s) && a >= MapEnd(s)
    ensures KindAt(s, a) == None
  {
    hide Normal;
    if s == [] {
    } else {
      NormalFront(s);
      BeyondEnd(s[..|s| - 1], a);
    }
  }

  lemma {:induction false} NormalKindAt(s: seq<Region>, a: nat)
    requires Normal(s)
    ensures KindsAt(s, a) == Single(KindAt(s, a))
  {
    hide Normal;
    if s == [] {
    } else {
      NormalFront(s);
      var front := s[..|s| - 1];
      NormalKindAt(front, a);
      if s[|s| - 1].Covers(a) {
        BeyondEnd(front, a);
      }
    }
  }

  lemma SameKindAt(s: seq<Region>, t: seq<Region>, a: nat)
    requires Normal(s) && Normal(t) && SameKinds(s, t)
    ensures KindAt(s, a) == KindAt(t, a)
  {
    hide Normal, KindAt, KindsAt;
    NormalKindAt(s, a);
    NormalKindAt(t, a);
    var x, y := KindAt(s, a), KindAt(t, a);
    assert Single(x) == Single(y);
    if x.Some? {
      assert x.value in Single(y);
    }
    if y.Some? {
      assert y.value in Single(x);
    }
  }

  ghost predicate SameKindAts(s: seq<Region>, t: seq<Region>) { forall a: nat :: KindAt(s, a) == KindAt(t, a) }

  lemma SameKindAtsSymmetric(s: seq<Region>, t: seq<Region>)
    requires SameKindAts(s, t)
    ensures SameKindAts(t, s)
  {
  }

  lemma EndNotBeyond(s: seq<Region>, t: seq<Region>)
    requires Normal(s) && Normal(t) && SameKindAts(s, t) && s != []
    ensures t != [] && MapEnd(s) <= MapEnd(t)
  {
    var last := s[|s| - 1];
    var a := MapEnd(s) - 1;
    assert last.length > 0 && last.Covers(a);
    assert KindAt(s, a) == Some(last.kind);
    if a >= MapEnd(t) {
      BeyondEnd(t, a);
      assert false;
    }
  }

  /** The byte before the last region never has its kind. */
  lemma LastStarts(s: seq<Region>, a: nat)
    requires Normal(s) && s != [] && a + 1 == s[|s| - 1].base
    ensures KindAt(s, a) != Some(s[|s| - 1].kind)
  {
    hide Normal;
    NormalFront(s);
    var front := s[..|s| - 1];
    if front != [] && front[|front| - 1].Covers(a) {
      assert MapEnd(front) == a + 1;
    } else if a >= MapEnd(front) {
      BeyondEnd(front, a);
    }
  }

  lemma LastNotLater(s: seq<Region>, t: seq<Region>)
    requires Normal(s) && Normal(t) && SameKindAts(s, t) && s != [] && t != []
    requires MapEnd(s) == MapEnd(t) && s[|s| - 1].kind == t[|t| - 1].kind
    ensures t[|t| - 1].base <= s[|s| - 1].base
  {
    var r, q := s[|s| - 1], t[|t| - 1];
    if r.base < q.base {
      assert q.length > 0;
      var a: nat := q.base - 1;
      assert KindAt(s, a) == Some(r.kind);
      LastStarts(t, a);
      assert false;
    }
  }

  /** Two normal maps with the same kind for every address are the same list of regions. */
  lemma {:induction false} NormalUnique(s: seq<Region>, t: seq<Region>)
    requires Normal(s) && Normal(t) && SameKindAts(s, t)
    ensures SameRegions(s, t)
    decreases |s|
  {
    hide Normal, SameKindAts;
    SameKindAtsSymmetric(s, t);
    if s == [] {
      if t != [] {
        EndNotBeyond(t, s);
      }
    } else {
      LastAgrees(s, t);
      NormalUnique(s[..|s| - 1], t[..|t| - 1]);
      SameFronts(s, t);
    }
  }

  lemma SameFronts(s: seq<Region>, t: seq<Region>)
    requires s != [] && t != [] && SameRegions(s[..|s| - 1], t[..|t| - 1])
    requires var r, q := s[|s| - 1], t[|t| - 1]; r.base == q.base && r.length == q.length && r.kind == q.kind
    ensures SameRegions(s, t)
  {
    var u, v := s[..|s| - 1], t[..|t| - 1];
    forall i | 0 <= i < |s|
      ensures s[i].base == t[i].base && s[i].length == t[i].length && s[i].kind == t[i].kind
    {
      if i < |u| {
        assert s[i] == u[i] && t[i] == v[i];
      }
    }
  }

  lemma LastAgrees(s: seq<Region>, t: seq<Region>)
    requires Normal(s) && Normal(t) && SameKindAts(s, t) && s != []
    ensures t != [] && Normal(s[..|s| - 1]) && Normal(t[..|t| - 1]) && SameKindAts(s[..|s| - 1], t[..|t| - 1])
    ensures var r, q := s[|s| - 1], t[|t| - 1]; r.base == q.base && r.length == q.length && r.kind == q.kind
  {
    hide Normal, SameKindAts;
    SameKindAtsSymmetric(s, t);
    EndNotBeyond(s, t);
    EndNotBeyond(t, s);
    SameLastKind(s, t);
    LastNotLater(s, t);
    LastNotLater(t, s);
    NormalFront(s);
    NormalFront(t);
    FrontKinds(s, t);
  }

  lemma FrontKinds(s: seq<Region>, t: seq<Region>)
    requires Normal(s) && Normal(t) && SameKindAts(s, t) && s != [] && t != []
    requires var r, q := s[|s| - 1], t[|t| - 1]; r.base == q.base && r.End() == q.End() && r.kind == q.kind
    ensures SameKindAts(s[..|s| - 1], t[..|t| - 1])
  {
    var u, v := s[..|s| - 1], t[..|t| - 1];
    forall a: nat
      ensures KindAt(u, a) == KindAt(v, a)
    {
      FrontKind(s, t, a);
    }
  }

  /** The result of the normalisation depends on nothing but the kinds of the addresses. */
  lemma NormalFormUnique(s: seq<Region>, t: seq<Region>)
    requires Normal(s) && Normal(t) && SameKinds(s, t)
    ensures SameRegions(s, t)
  {
    forall a: nat
      ensures KindAt(s, a) == KindAt(t, a)
    {
      SameKindAt(s, t, a);
    }
    NormalUnique(s, t);
  }

  lemma SameLastKind(s: seq<Region>, t: seq<Region>)
    requires Normal(s) && Normal(t) && SameKindAts(s, t) && s != [] && t != [] && MapEnd(s) == MapEnd(t)
    ensures s[|s| - 1].kind == t[|t| - 1].kind
  {
    var a := MapEnd(s) - 1;
    assert s[|s| - 1].length > 0 && t[|t| - 1].length > 0;
    assert KindAt(s, a) == Some(s[|s| - 1].kind) && KindAt(t, a) == Some(t[|t| - 1].kind);
  }

  lemma FrontKind(s: seq<Region>, t: seq<Region>, a: nat)
    requires Normal(s) && Normal(t) && SameKindAts(s, t) && s != [] && t != []
    requires var r, q := s[|s| - 1], t[|t| - 1]; r.base == q.base && r.End() == q.End() && r.kind == q.kind
    ensures KindAt(s[..|s| - 1], a) == KindAt(t[..|t| - 1], a)
  {
    hide Normal;
    assert KindAt(s, a) == KindAt(t, a);
    NormalFront(s);
    NormalFront(t);
    if s[|s| - 1].Covers(a) {
      BeyondEnd(s[..|s| - 1], a);
      BeyondEnd(t[..|t| - 1], a);
    }
  }
}
