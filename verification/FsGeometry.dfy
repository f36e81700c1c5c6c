/** Where the file system keeps things: accepted geometry and extents never share a block. */
module FsGeometry {
  import opened Bytes

  const BLOCK_SIZE: nat := 4096
  const INODE_SIZE: nat := 256

  datatype Superblock = Superblock(
    totalBlocks: u64, inodeTableStart: u64, inodeCount: u64, bitmapStart: u64, bitmapBlocks: u32,
    dataStart: u64, rootInode: u64, journalStart: u64, journalBlocks: u32, features: u64, sequence: u64)

  datatype SuperblockError = InvalidGeometry | UnsupportedFeatures(features: u64)

  /** Start and end, the end held at the largest 64-bit number when the sum overflows. */
  function CheckedRange(start: u64, length: u64): (u64, u64) {
    (start, if start + length < U64_LIMIT then start + length else U64_LIMIT - 1)
  }

  function InodeTableBlocks(sb: Superblock): Option<u64> {
    var bytes := sb.inodeCount * INODE_SIZE;
    if bytes + BLOCK_SIZE - 1 >= U64_LIMIT then None else Some((bytes + BLOCK_SIZE - 1) / BLOCK_SIZE)
  }

  /** The superblock, the inode table, the bitmap and the journal. */
  function Ranges(sb: Superblock, tableBlocks: u64): (r: seq<(u64, u64)>)
    ensures |r| == 4
  {
    [(0, 1),
     CheckedRange(sb.inodeTableStart, tableBlocks),
     CheckedRange(sb.bitmapStart, sb.bitmapBlocks),
     CheckedRange(sb.journalStart, sb.journalBlocks)]
  }

  predicate RangeFine(sb: Superblock, r: (u64, u64)) { r.0 < r.1 <= sb.totalBlocks && r.1 <= sb.dataStart }

  predicate Overlap(a: (u64, u64), b: (u64, u64)) { a.0 < b.1 && b.0 < a.1 }

  method Validate(sb: Superblock) returns (r: Option<SuperblockError>)
    ensures r.None? <==> Accepted(sb)
    ensures r == Some(UnsupportedFeatures(sb.features)) <==> sb.features != 0
  {
    if sb.features != 0 {
      return Some(UnsupportedFeatures(sb.features));
    }
    if sb.totalBlocks < 8 || sb.inodeCount == 0 || sb.rootInode == 0 || sb.rootInode > sb.inodeCount
       || sb.bitmapBlocks == 0 || sb.journalBlocks < 2 || sb.dataStart >= sb.totalBlocks {
      return Some(InvalidGeometry);
    }
    var table := InodeTableBlocks(sb);
    if table.None? {
      return Some(InvalidGeometry);
    }
    var ranges := Ranges(sb, table.value);
    for i := 0 to 4
      invariant forall k :: 0 <= k < i ==> RangeFine(sb, ranges[k])
    {
      var (start, end) := ranges[i];
      if start >= end || end > sb.totalBlocks || end > sb.dataStart {
        assert !RangeFine(sb, ranges[i]);
        return Some(InvalidGeometry);
      }
    }
    for left := 0 to 4
      invariant forall i, j :: 0 <= i < left && i < j < 4 ==> !Overlap(ranges[i], ranges[j])
    {
      for right := left + 1 to 4
        invariant forall j :: left < j < right ==> !Overlap(ranges[left], ranges[j])
      {
        if ranges[left].0 < ranges[right].1 && ranges[right].0 < ranges[left].1 {
          assert Overlap(ranges[left], ranges[right]);
          return Some(InvalidGeometry);
        }
      }
    }
    if sb.bitmapBlocks * (BLOCK_SIZE * 8) < sb.totalBlocks {
      return Some(InvalidGeometry);
    }
    r := None;
  }

  ghost predicate Accepted(sb: Superblock) {
    && sb.features == 0
    && sb.totalBlocks >= 8 && 0 < sb.rootInode <= sb.inodeCount
    && sb.bitmapBlocks > 0 && sb.journalBlocks >= 2 && sb.dataStart < sb.totalBlocks
    && InodeTableBlocks(sb).Some?
    && (var ranges := Ranges(sb, InodeTableBlocks(sb).value);
        && (forall k :: 0 <= k < 4 ==> RangeFine(sb, ranges[k]))
        && (forall i, j :: 0 <= i < j < 4 ==> !Overlap(ranges[i], ranges[j])))
    && sb.bitmapBlocks * (BLOCK_SIZE * 8) >= sb.totalBlocks
  }

  /** The four kinds of metadata block, as true intervals. */
  predicate InSuperblock(b: nat) { b == 0 }
  predicate InInodeTable(sb: Superblock, b: nat) {
    sb.inodeTableStart <= b < sb.inodeTableStart + (sb.inodeCount * INODE_SIZE + BLOCK_SIZE - 1) / BLOCK_SIZE
  }
  predicate InBitmap(sb: Superblock, b: nat) { sb.bitmapStart <= b < sb.bitmapStart + sb.bitmapBlocks }
  predicate InJournal(sb: Superblock, b: nat) { sb.journalStart <= b < sb.journalStart + sb.journalBlocks }

  /** A range whose end was held back could not lie inside a disk the bitmap covers. */
  lemma RangeUnsaturated(sb: Superblock, start: u64, length: u64)
    requires RangeFine(sb, CheckedRange(start, length)) && sb.bitmapBlocks * (BLOCK_SIZE * 8) >= sb.totalBlocks
    ensures start + length < U64_LIMIT && CheckedRange(start, length).1 == start + length <= sb.dataStart
  {
    assert sb.totalBlocks < 0x1_0000_0000 * 0x8000;
  }

  /** The bitmap-capacity check makes the saturating arithmetic harmless: the metadata intervals are the true ones. */
  lemma SaturationHarmless(sb: Superblock)
    requires Accepted(sb)
    ensures sb.inodeTableStart + InodeTableBlocks(sb).value <= sb.dataStart
    ensures sb.bitmapStart + sb.bitmapBlocks <= sb.dataStart
    ensures sb.journalStart + sb.journalBlocks <= sb.dataStart < sb.totalBlocks < 0x8000_0000_0000
  {
    var ranges := Ranges(sb, InodeTableBlocks(sb).value);
    assert RangeFine(sb, ranges[1]) && RangeFine(sb, ranges[2]) && RangeFine(sb, ranges[3]);
    RangeUnsaturated(sb, sb.inodeTableStart, InodeTableBlocks(sb).value);
    RangeUnsaturated(sb, sb.bitmapStart, sb.bitmapBlocks);
    RangeUnsaturated(sb, sb.journalStart, sb.journalBlocks);
  }

  /** No block of an accepted disk belongs to two kinds of metadata, and none of them is a data block. */
  lemma MetadataApart(sb: Superblock, b: nat)
    requires Accepted(sb)
    ensures InSuperblock(b) ==> !InInodeTable(sb, b) && !InBitmap(sb, b) && !InJournal(sb, b)
    ensures InInodeTable(sb, b) ==> !InBitmap(sb, b) && !InJournal(sb, b)
    ensures InBitmap(sb, b) ==> !InJournal(sb, b)
    ensures b >= sb.dataStart ==> !InSuperblock(b) && !InInodeTable(sb, b) && !InBitmap(sb, b) && !InJournal(sb, b)
  {
    SaturationHarmless(sb);
    var ranges := Ranges(sb, InodeTableBlocks(sb).value);
    assert !Overlap(ranges[0], ranges[1]) && !Overlap(ranges[0], ranges[2]) && !Overlap(ranges[0], ranges[3]);
    assert !Overlap(ranges[1], ranges[2]) && !Overlap(ranges[1], ranges[3]) && !Overlap(ranges[2], ranges[3]);
    assert RangeFine(sb, ranges[0]);
  }

  /** The blocks of the inode table are those that hold an inode. */
  lemma InodeTableHolds(sb: Superblock, b: nat)
    ensures InInodeTable(sb, b)
            <==> exists n: nat :: n < sb.inodeCount && b == InodeBlock(sb, n)
  {
    if InInodeTable(sb, b) {
      var n := (b - sb.inodeTableStart) * 16;
      assert n < sb.inodeCount && b == InodeBlock(sb, n);
    }
  }

  function InodeBlock(sb: Superblock, n: nat): nat { sb.inodeTableStart + n * INODE_SIZE / BLOCK_SIZE }

  /** At most one kind of metadata is in a block, and none is at or behind the start of the data. */
  ghost predicate Separate(sb: Superblock) {
    forall b: nat ::
      && (InSuperblock(b) ==> !InInodeTable(sb, b) && !InBitmap(sb, b) && !InJournal(sb, b))
      && (InInodeTable(sb, b) ==> !InBitmap(sb, b) && !InJournal(sb, b))
      && (InBitmap(sb, b) ==> !InJournal(sb, b))
      && (InSuperblock(b) || InInodeTable(sb, b) || InBitmap(sb, b) || InJournal(sb, b) ==> b < sb.dataStart)
  }

  /**
   The geometries that are accepted, said by blocks: no unknown feature, a root inode that exists, room for
   bitmap and journal, data on the disk, metadata apart and in front of it, and a bit for every block.
   */
  lemma AcceptedExact(sb: Superblock)
    ensures Accepted(sb) <==>
              && sb.features == 0 && sb.totalBlocks >= 8 && 1 <= sb.rootInode <= sb.inodeCount
              && sb.bitmapBlocks >= 1 && sb.journalBlocks >= 2 && sb.dataStart < sb.totalBlocks
              && Separate(sb) && sb.totalBlocks <= sb.bitmapBlocks * 4096 * 8
  {
    if Accepted(sb) {
      forall b: nat
        ensures InSuperblock(b) ==> !InInodeTable(sb, b) && !InBitmap(sb, b) && !InJournal(sb, b)
        ensures InInodeTable(sb, b) ==> !InBitmap(sb, b) && !InJournal(sb, b)
        ensures InBitmap(sb, b) ==> !InJournal(sb, b)
        ensures InSuperblock(b) || InInodeTable(sb, b) || InBitmap(sb, b) || InJournal(sb, b) ==> b < sb.dataStart
      {
        MetadataApart(sb, b);
      }
    } else if sb.rootInode >= 1 && sb.inodeCount >= sb.rootInode && sb.bitmapBlocks >= 1 && sb.journalBlocks >= 2
              && sb.dataStart < sb.totalBlocks && Separate(sb) && sb.totalBlocks <= sb.bitmapBlocks * 4096 * 8 {
      SeparateFits(sb);
    }
  }

  lemma SeparateFits(sb: Superblock)
    requires 1 <= sb.inodeCount && sb.bitmapBlocks >= 1 && sb.journalBlocks >= 1
    requires sb.dataStart < sb.totalBlocks <= sb.bitmapBlocks * 4096 * 8 && Separate(sb)
    ensures InodeTableBlocks(sb).Some?
    ensures var ranges := Ranges(sb, InodeTableBlocks(sb).value);
            && (forall k :: 0 <= k < 4 ==> RangeFine(sb, ranges[k]))
            && (forall i, j :: 0 <= i < j < 4 ==> !Overlap(ranges[i], ranges[j]))
  {
    var table := (sb.inodeCount * INODE_SIZE + BLOCK_SIZE - 1) / BLOCK_SIZE;
    assert table >= 1;
    assert InSuperblock(0);
    assert InInodeTable(sb, sb.inodeTableStart) && InInodeTable(sb, sb.inodeTableStart + table - 1);
    assert InBitmap(sb, sb.bitmapStart) && InBitmap(sb, sb.bitmapStart + sb.bitmapBlocks - 1);
    assert InJournal(sb, sb.journalStart) && InJournal(sb, sb.journalStart + sb.journalBlocks - 1);
    assert sb.totalBlocks < 0x8000_0000_0000;
    assert sb.inodeCount * INODE_SIZE <= table * BLOCK_SIZE;
  }

  // ---------------------------------------------------------------- extents

  datatype Extent = Extent(logicalBlock: u64, physicalBlock: u64, blockCount: u32, flags: u32) {
    function LogicalEnd(): nat { logicalBlock + blockCount }
    function PhysicalEnd(): nat { physicalBlock + blockCount }
    predicate Occupies(b: nat) { physicalBlock <= b < physicalBlock + blockCount }

    function Map(logical: u64): (r: Option<u64>) {
      if logical < logicalBlock || LogicalEnd() >= U64_LIMIT || logical >= LogicalEnd() then None
      else if physicalBlock + (logical - logicalBlock) >= U64_LIMIT then None
      else Some(physicalBlock + (logical - logicalBlock))
    }
  }

  datatype ExtentError =
    | ZeroLength | UnsupportedFlags | LogicalOverlap | PhysicalOutOfBounds | PhysicalOverlap | Overflow

  /** The first thing wrong with one extent after the logical end of those before it. */
  function ExtentFault(e: Extent, logicalEnd: nat, dataStart: u64, totalBlocks: u64): Option<ExtentError> {
    if e.blockCount == 0 then Some(ZeroLength)
    else if e.flags / 2 != 0 then Some(UnsupportedFlags)
    else if e.logicalBlock < logicalEnd then Some(LogicalOverlap)
    else if e.physicalBlock < dataStart || e.PhysicalEnd() >= U64_LIMIT || e.PhysicalEnd() > totalBlocks
      then Some(PhysicalOutOfBounds)
    else if e.LogicalEnd() >= U64_LIMIT then Some(Overflow)
    else None
  }

  function EndBefore(extents: seq<Extent>, i: nat): nat
    requires i <= |extents|
  {
    if i == 0 then 0 else extents[i - 1].LogicalEnd()
  }

  function FaultAt(extents: seq<Extent>, i: nat, dataStart: u64, totalBlocks: u64): Option<ExtentError>
    requires i < |extents|
  {
    ExtentFault(extents[i], EndBefore(extents, i), dataStart, totalBlocks)
  }

  lemma FineFacts(extents: seq<Extent>, i: nat, dataStart: u64, totalBlocks: u64)
    requires i < |extents| && FaultAt(extents, i, dataStart, totalBlocks).None?
    ensures var e := extents[i];
            && EndBefore(extents, i) <= e.logicalBlock < e.LogicalEnd() < U64_LIMIT
            && dataStart <= e.physicalBlock < e.PhysicalEnd() <= totalBlocks
  {
  }

  /** An extent passes exactly when it has blocks, a known flag, and lies behind the last one and in the data area. */
  lemma FineExact(extents: seq<Extent>, i: nat, dataStart: u64, totalBlocks: u64)
    requires i < |extents|
    ensures var e := extents[i];
            FaultAt(extents, i, dataStart, totalBlocks).None? <==>
              && e.blockCount > 0 && e.flags < 2
              && (i > 0 ==> extents[i - 1].LogicalEnd() <= e.logicalBlock) && e.LogicalEnd() < U64_LIMIT
              && dataStart <= e.physicalBlock && e.PhysicalEnd() <= totalBlocks
  {
  }

  ghost predicate EachFine(extents: seq<Extent>, n: nat, dataStart: u64, totalBlocks: u64)
    requires n <= |extents|
  {
    forall i :: 0 <= i < n ==> FaultAt(extents, i, dataStart, totalBlocks).None?
  }

  predicate PhysicallyApart(a: Extent, b: Extent) {
    !(a.physicalBlock < b.PhysicalEnd() && b.physicalBlock < a.PhysicalEnd())
  }

  /** Extents with blocks are apart exactly when no block belongs to both. */
  lemma ApartExact(a: Extent, b: Extent)
    requires a.blockCount > 0 && b.blockCount > 0
    ensures PhysicallyApart(a, b) <==> forall x: nat :: !(a.Occupies(x) && b.Occupies(x))
  {
    var x := if a.physicalBlock < b.physicalBlock then b.physicalBlock else a.physicalBlock;
    if !PhysicallyApart(a, b) {
      assert a.Occupies(x) && b.Occupies(x);
    }
  }

  ghost predicate ExtentsFine(extents: seq<Extent>, dataStart: u64, totalBlocks: u64) {
    && EachFine(extents, |extents|, dataStart, totalBlocks)
    && forall i, j :: 0 <= i < j < |extents| ==> PhysicallyApart(extents[i], extents[j])
  }

  /** The first loop: each extent on its own and against the logical end before it. */
  method CheckEach(extents: seq<Extent>, dataStart: u64, totalBlocks: u64) returns (r: Option<ExtentError>)
    ensures r.None? <==> EachFine(extents, |extents|, dataStart, totalBlocks)
    ensures r.Some? ==>
              && r.value != PhysicalOverlap
              && exists i :: 0 <= i < |extents| && EachFine(extents, i, dataStart, totalBlocks)
                             && FaultAt(extents, i, dataStart, totalBlocks) == r
  {
    var logicalEnd := 0;
    for i := 0 to |extents|
      invariant logicalEnd == EndBefore(extents, i)
      invariant EachFine(extents, i, dataStart, totalBlocks)
    {
      var extent := extents[i];
      r := CheckOne(extent, logicalEnd, dataStart, totalBlocks);
      assert r == FaultAt(extents, i, dataStart, totalBlocks);
      if r.Some? {
        return;
      }
      logicalEnd := extent.LogicalEnd();
    }
    r := None;
  }

  method CheckOne(extent: Extent, logicalEnd: nat, dataStart: u64, totalBlocks: u64) returns (r: Option<ExtentError>)
    ensures r == ExtentFault(extent, logicalEnd, dataStart, totalBlocks) && r != Some(PhysicalOverlap)
  {
    if extent.blockCount == 0 {
      return Some(ZeroLength);
    }
    if extent.flags / 2 != 0 {
      return Some(UnsupportedFlags);
    }
    if extent.logicalBlock < logicalEnd {
      return Some(LogicalOverlap);
    }
    if extent.physicalBlock < dataStart || extent.PhysicalEnd() >= U64_LIMIT || extent.PhysicalEnd() > totalBlocks {
      return Some(PhysicalOutOfBounds);
    }
    if extent.LogicalEnd() >= U64_LIMIT {
      return Some(Overflow);
    }
    r := None;
  }

  method ValidateExtents(extents: seq<Extent>, dataStart: u64, totalBlocks: u64) returns (r: Option<ExtentError>)
    ensures r.None? <==> ExtentsFine(extents, dataStart, totalBlocks)
    ensures r == Some(PhysicalOverlap) <==>
              EachFine(extents, |extents|, dataStart, totalBlocks) && !ExtentsFine(extents, dataStart, totalBlocks)
    ensures r.Some? && r.value != PhysicalOverlap ==>
              exists i :: 0 <= i < |extents| && EachFine(extents, i, dataStart, totalBlocks)
                          && FaultAt(extents, i, dataStart, totalBlocks) == r
  {
    hide ExtentFault, EndBefore, PhysicallyApart;
    r := CheckEach(extents, dataStart, totalBlocks);
    if r.Some? {
      return;
    }
    for left := 0 to |extents|
      invariant forall i, j :: 0 <= i < left && i < j < |extents| ==> PhysicallyApart(extents[i], extents[j])
    {
      for right := left + 1 to |extents|
        invariant forall j :: left < j < right ==> PhysicallyApart(extents[left], extents[j])
      {
        if !PhysicallyApart(extents[left], extents[right]) {
          return Some(PhysicalOverlap);
        }
      }
    }
    r := None;
  }

  /** The first extent that maps a logical block decides. */
  function MappedBlock(extents: seq<Extent>, logical: u64): (r: Option<u64>)
    ensures r.Some? ==> exists i :: 0 <= i < |extents| && extents[i].Map(logical) == r
  {
    if extents == [] then None
    else if extents[0].Map(logical).Some? then
      assert extents[0].Map(logical) == extents[0].Map(logical);
      extents[0].Map(logical)
    else
      var r := MappedBlock(extents[1..], logical);
      assert r.Some? ==> forall i :: 0 <= i < |extents| - 1 ==> extents[1..][i] == extents[i + 1];
      r
  }

  lemma {:induction false} LogicalOrder(extents: seq<Extent>, i: nat, j: nat, dataStart: u64, totalBlocks: u64)
    requires EachFine(extents, |extents|, dataStart, totalBlocks) && i < j < |extents|
    ensures extents[i].LogicalEnd() <= extents[j].logicalBlock
    decreases j
  {
    FineFacts(extents, j, dataStart, totalBlocks);
    if i >= j - 1 {
    } else {
      FineFacts(extents, j - 1, dataStart, totalBlocks);
      hide FaultAt;
      LogicalOrder(extents, i, j - 1, dataStart, totalBlocks);
    }
  }

  /** Different logical blocks of an accepted inode are on different blocks of the disk. */
  lemma MappedBlockInjective(extents: seq<Extent>, dataStart: u64, totalBlocks: u64, a: u64, b: u64)
    requires ExtentsFine(extents, dataStart, totalBlocks) && a != b
    requires MappedBlock(extents, a).Some? && MappedBlock(extents, b).Some?
    ensures MappedBlock(extents, a) != MappedBlock(extents, b)
  {
    var i :| 0 <= i < |extents| && extents[i].Map(a) == MappedBlock(extents, a);
    var j :| 0 <= j < |extents| && extents[j].Map(b) == MappedBlock(extents, b);
    hide MappedBlock, EachFine;
    if i < j {
      assert PhysicallyApart(extents[i], extents[j]);
    } else if j < i {
      assert PhysicallyApart(extents[j], extents[i]);
    }
  }

  /** The mapping is the one the extents describe: the only extent around a logical block decides. */
  lemma MappedBlockExact(extents: seq<Extent>, dataStart: u64, totalBlocks: u64, logical: u64, i: nat)
    requires EachFine(extents, |extents|, dataStart, totalBlocks) && i < |extents|
    requires extents[i].logicalBlock <= logical < extents[i].LogicalEnd()
    ensures MappedBlock(extents, logical) == Some(extents[i].physicalBlock + (logical - extents[i].logicalBlock))
  {
    MappedSomewhere(extents, dataStart, totalBlocks, logical, i);
    var k :| 0 <= k < |extents| && extents[k].Map(logical) == MappedBlock(extents, logical);
    OnlyOneMaps(extents, dataStart, totalBlocks, logical, i, k);
  }

  lemma OnlyOneMaps(extents: seq<Extent>, dataStart: u64, totalBlocks: u64, logical: u64, i: nat, k: nat)
    requires EachFine(extents, |extents|, dataStart, totalBlocks) && i < |extents| && k < |extents|
    requires extents[i].logicalBlock <= logical < extents[i].LogicalEnd() && extents[k].Map(logical).Some?
    ensures i == k
  {
    hide EachFine;
    if k < i {
      LogicalOrder(extents, k, i, dataStart, totalBlocks);
    } else if i < k {
      LogicalOrder(extents, i, k, dataStart, totalBlocks);
    }
  }

  lemma {:induction false} MappedSomewhere(extents: seq<Extent>, dataStart: u64, totalBlocks: u64, logical: u64, i: nat)
    requires EachFine(extents, |extents|, dataStart, totalBlocks) && i < |extents|
    requires extents[i].logicalBlock <= logical < extents[i].LogicalEnd()
    ensures MappedBlock(extents, logical).Some?
  {
    FineFacts(extents, i, dataStart, totalBlocks);
    FoundFrom(extents, logical, i);
  }

  lemma {:induction false} FoundFrom(extents: seq<Extent>, logical: u64, i: nat)
    requires i < |extents| && extents[i].Map(logical).Some?
    ensures MappedBlock(extents, logical).Some?
    decreases i
  {
    if i == 0 {
    } else {
      FoundFrom(extents[1..], logical, i - 1);
    }
  }

  /** No block of file data is ever a block of the superblock, inode table, bitmap or journal. */
  lemma MappedBlockIsolated(sb: Superblock, extents: seq<Extent>, logical: u64)
    requires Accepted(sb) && ExtentsFine(extents, sb.dataStart, sb.totalBlocks)
    requires MappedBlock(extents, logical).Some?
    ensures var b := MappedBlock(extents, logical).value;
            && sb.dataStart <= b < sb.totalBlocks
            && !InSuperblock(b) && !InInodeTable(sb, b) && !InBitmap(sb, b) && !InJournal(sb, b)
  {
    var b := MappedBlock(extents, logical).value;
    var i :| 0 <= i < |extents| && extents[i].Map(logical) == MappedBlock(extents, logical);
    FineFacts(extents, i, sb.dataStart, sb.totalBlocks);
    MetadataApart(sb, b);
  }
}
