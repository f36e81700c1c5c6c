/** The kernel's intake of the memory map: it checks every entry and keeps what lies below 4 GiB. */
module BootMap {
  import opened Bytes
  import opened MemoryRegions
  import opened MemoryMap

  const TRANSITION_PHYSICAL_LIMIT: u64 := 0x1_0000_0000
  const MAX_MEMORY_MAP_ENTRIES: nat := 512

  datatype BootError =
    | NonZeroReserved(index: nat)
    | EmptyRegion(index: nat)
    | RegionOverflow(index: nat)
    | Overlapping(index: nat)
    | InvalidKind(index: nat)
    | NoTransitionMemory
  datatype Copied = Kept(count: nat) | Refused(error: BootError)

  /** The loader's kind in the numbering the rest of the kernel uses. */
  function LimineMemoryKind(kind: nat): Option<nat> {
    match kind
    case 0 => Some(0)
    case 1 => Some(1)
    case 2 => Some(2)
    case 3 => Some(3)
    case 4 => Some(5)
    case 5 => Some(6)
    case 6 => Some(1)
    case 7 => Some(4)
    case _ => None
  }

  /** What an entry must be on its own and next to the one before it. */
  predicate EntryFine(s: seq<Region>, i: nat)
    requires i < |s|
  {
    && s[i].reserved == 0 && s[i].length > 0 && s[i].End() < U64_LIMIT && LimineMemoryKind(s[i].kind).Some?
    && (i > 0 ==> s[i - 1].End() <= s[i].base)
  }

  ghost predicate Accepted(s: seq<Region>) { forall i :: 0 <= i < |s| ==> EntryFine(s, i) }

  ghost predicate HasLow(s: seq<Region>) { exists i :: 0 <= i < |s| && s[i].base < TRANSITION_PHYSICAL_LIMIT }

  /** In an accepted map the regions lie one behind the other, so that an address is in one of them at most. */
  lemma {:induction false} AcceptedApart(s: seq<Region>, i: nat, j: nat, a: nat)
    requires Accepted(s) && i < j < |s|
    ensures s[i].End() <= s[j].base && !(s[i].Covers(a) && s[j].Covers(a))
    decreases j
  {
    assert EntryFine(s, j);
    if i == j - 1 {
    } else {
      AcceptedApart(s, i, j - 1, a);
      assert EntryFine(s, j - 1);
    }
  }

  /** The part of a region below the limit, under its new kind. */
  function Clip(r: Region): Region
    requires r.base < TRANSITION_PHYSICAL_LIMIT
  {
    var end := if r.End() < TRANSITION_PHYSICAL_LIMIT then r.End() else TRANSITION_PHYSICAL_LIMIT;
    var kind := LimineMemoryKind(r.kind);
    Region(r.base, end - r.base, if kind.Some? then kind.value else r.kind, 0)
  }

  function Clipped(s: seq<Region>): (r: seq<Region>)
    ensures |r| <= |s|
  {
    if s == [] then []
    else
      var front := Clipped(s[..|s| - 1]);
      if s[|s| - 1].base < TRANSITION_PHYSICAL_LIMIT then front + [Clip(s[|s| - 1])] else front
  }

  lemma ClippedSnoc(s: seq<Region>, r: Region)
    ensures Clipped([]) == []
    ensures Clipped(s + [r]) == Clipped(s) + (if r.base < TRANSITION_PHYSICAL_LIMIT then [Clip(r)] else [])
  {
    assert (s + [r])[..|s|] == s;
  }

  method CopyMemoryMap(input: seq<Region>, storage: array<Region>) returns (r: Copied)
    requires 1 <= |input| <= MAX_MEMORY_MAP_ENTRIES == storage.Length
    modifies storage
    ensures r.Kept? <==> Accepted(input) && HasLow(input)
    ensures r.Kept? ==> r.count <= storage.Length && Accepted(input) && storage[..r.count] == Clipped(input)
    ensures r == Refused(NoTransitionMemory) <==> Accepted(input) && !HasLow(input)
    ensures r.Refused? && !r.error.NoTransitionMemory? ==>
              && r.error.index < |input| && !EntryFine(input, r.error.index)
              && (forall i :: 0 <= i < r.error.index ==> EntryFine(input, i))
              && match r.error
                 case NonZeroReserved(i) => input[i].reserved != 0
                 case EmptyRegion(i) => input[i].length == 0
                 case RegionOverflow(i) => input[i].End() >= U64_LIMIT
                 case Overlapping(i) => i > 0 && input[i].base < input[i - 1].End()
                 case InvalidKind(i) => LimineMemoryKind(input[i].kind).None?
  {
    hide LimineMemoryKind, Clipped;
    assert Clipped([]) == [] by {
      ClippedSnoc([], input[0]);
    }
    assert input[..0] == [];
    var outputCount := 0;
    var previousEnd := 0;
    for index := 0 to |input|
      invariant outputCount <= index
      invariant forall i :: 0 <= i < index ==> EntryFine(input, i)
      invariant index > 0 ==> previousEnd == input[index - 1].End()
      invariant storage[..outputCount] == Clipped(input[..index])
      invariant outputCount == 0 <==> forall i :: 0 <= i < index ==> input[i].base >= TRANSITION_PHYSICAL_LIMIT
    {
      var entry := input[index];
      assert input[..index + 1] == input[..index] + [entry];
      ClippedSnoc(input[..index], entry);
      assert Accepted(input) ==> EntryFine(input, index);
      if entry.reserved != 0 {
        return Refused(NonZeroReserved(index));
      }
      if entry.length == 0 {
        return Refused(EmptyRegion(index));
      }
      if entry.End() >= U64_LIMIT {
        return Refused(RegionOverflow(index));
      }
      if index != 0 && entry.base < previousEnd {
        return Refused(Overlapping(index));
      }
      previousEnd := entry.End();
      var kind := LimineMemoryKind(entry.kind);
      if kind.None? {
        return Refused(InvalidKind(index));
      }
      if entry.base < TRANSITION_PHYSICAL_LIMIT {
        var mappedEnd := if entry.End() < TRANSITION_PHYSICAL_LIMIT then entry.End() else TRANSITION_PHYSICAL_LIMIT;
        storage[outputCount] := Region(entry.base, mappedEnd - entry.base, kind.value, 0);
        outputCount := outputCount + 1;
      }
    }
    assert input[..|input|] == input;
    r := if outputCount == 0 then Refused(NoTransitionMemory) else Kept(outputCount);
  }

  /** What memory is for, with the number the loader writes for it and the one the kernel reads. */
  datatype Purpose =
    | Usable | Reserved | AcpiReclaimable | AcpiNvs | BootloaderReclaimable | KernelAndModules | Framebuffer | BadMemory
  {
    function Handed(): nat {
      if Usable? then 0 else if Reserved? then 1 else if AcpiReclaimable? then 2 else if AcpiNvs? then 3
      else if BootloaderReclaimable? then 4 else if KernelAndModules? then 5 else if Framebuffer? then 6 else 7
    }

    /** The kernel has no framebuffer kind: it reserves that memory. */
    function Kept(): nat {
      if Usable? then 0 else if Reserved? || Framebuffer? then 1 else if AcpiReclaimable? then 2 else if AcpiNvs? then 3
      else if BadMemory? then 4 else if BootloaderReclaimable? then 5 else 6
    }
  }

  /** Renaming keeps the purpose; memory is usable to the kernel exactly when the loader said so. */
  lemma KindsKeepPurpose(p: Purpose, k: nat)
    ensures LimineMemoryKind(p.Handed()) == Some(p.Kept())
    ensures LimineMemoryKind(k).Some? <==> exists q: Purpose :: k == q.Handed()
    ensures LimineMemoryKind(k) == Some(Usable.Kept()) <==> k == Usable.Handed()
  {
    if LimineMemoryKind(k).Some? {
      var q := if k == 0 then Usable else if k == 1 then Reserved else if k == 2 then AcpiReclaimable
      else if k == 3 then AcpiNvs else if k == 4 then BootloaderReclaimable else if k == 5 then KernelAndModules
      else if k == 6 then Framebuffer else BadMemory;
      assert k == q.Handed();
    }
  }

  /**
   An accepted map gives every address below the limit the purpose the loader gave it, gives no other
   address one, and makes nothing usable that was not.
   */
  lemma PurposeKept(s: seq<Region>, a: nat, p: Purpose)
    requires Accepted(s)
    ensures a < TRANSITION_PHYSICAL_LIMIT && KindAt(s, a) == Some(p.Handed()) ==>
              KindAt(Clipped(s), a) == Some(p.Kept())
    ensures KindAt(Clipped(s), a) == Some(Usable.Kept()) <==>
              a < TRANSITION_PHYSICAL_LIMIT && KindAt(s, a) == Some(Usable.Handed())
    ensures KindAt(Clipped(s), a) == None <==> a >= TRANSITION_PHYSICAL_LIMIT || KindAt(s, a) == None
  {
    ClippedKinds(s, a);
    KindKnown(s, a);
    KindsKeepPurpose(p, if KindAt(s, a).Some? then KindAt(s, a).value else 0);
  }

  /** Every kind in an accepted map is one the kernel knows. */
  lemma {:induction false} KindKnown(s: seq<Region>, a: nat)
    requires Accepted(s)
    ensures KindAt(s, a).Some? ==> LimineMemoryKind(KindAt(s, a).value).Some?
  {
    hide LimineMemoryKind;
    if s == [] {
    } else {
      var front := s[..|s| - 1];
      assert forall i :: 0 <= i < |front| ==> EntryFine(s, i) == EntryFine(front, i);
      KindKnown(front, a);
      assert EntryFine(s, |s| - 1);
    }
  }

  function MapKind(k: Option<nat>): Option<nat> { if k.Some? then LimineMemoryKind(k.value) else None }

  /** Below the limit every address keeps its kind, renamed; above it nothing is left. */
  lemma {:induction false} ClippedKinds(s: seq<Region>, a: nat)
    requires Accepted(s)
    ensures KindAt(Clipped(s), a) == if a < TRANSITION_PHYSICAL_LIMIT then MapKind(KindAt(s, a)) else None
  {
    hide LimineMemoryKind;
    if s == [] {
    } else {
      var front, last := s[..|s| - 1], s[|s| - 1];
      assert forall i :: 0 <= i < |front| ==> EntryFine(s, i) == EntryFine(front, i);
      ClippedKinds(front, a);
      assert EntryFine(s, |s| - 1);
      if last.base < TRANSITION_PHYSICAL_LIMIT {
        var c := Clipped(front);
        assert (c + [Clip(last)])[..|c|] == c;
      }
    }
  }

  /** The kernel accepts whatever the loader's normalisation makes of the regions it built. */
  lemma NormalAccepted(s: seq<Region>)
    requires Normal(s) && Clean(s)
    ensures Accepted(s)
  {
    forall i | 0 <= i < |s|
      ensures EntryFine(s, i)
    {
    }
  }

  /**
   The two stages together: the map the kernel ends with gives every address below 4 GiB the kind it
   had before the normalisation, renamed, and gives no other address a kind.
   */
  lemma LoaderMapKept(input: seq<Region>, out: seq<Region>, a: nat)
    requires Normal(out) && SameKinds(input, out) && Clean(out)
    ensures Accepted(out)
    ensures KindsAt(input, a) == Single(KindAt(out, a))
    ensures KindAt(Clipped(out), a) == if a < TRANSITION_PHYSICAL_LIMIT then MapKind(KindAt(out, a)) else None
  {
    NormalAccepted(out);
    NormalKindAt(out, a);
    ClippedKinds(out, a);
  }
}
