/** Section validation of a PE image and the load plan: what ends up in memory is what lookups resolve to. */
module PePlan {
  import opened Bytes

  const U32_LIMIT: nat := 0x1_0000_0000
  const PAGE_SIZE: nat := 0x1000
  const MAX_SECTIONS: nat := 96

  /** The optional-header fields the section checks use; both alignments are powers of two. */
  datatype Optional = Optional(
    sectionAlignment: u32, fileAlignment: u32, sizeOfImage: u32, sizeOfHeaders: u32, entryPoint: u32)

  datatype Section = Section(
    virtualSize: u32, virtualAddress: u32, rawSize: u32, rawPointer: u32,
    read: bool, write: bool, execute: bool, mappedSize: u32)
  {
    /** The load keeps place, size and rights of the section, and its bytes in the file if it has any. */
    predicate Loads(load: SectionLoad) {
      && load.rva == virtualAddress && load.size == mappedSize
      && (load.read <==> read) && (load.write <==> write) && (load.execute <==> execute)
      && (load.file.None? <==> rawSize == 0)
      && (load.file.Some? ==> load.file.value.offset == rawPointer && load.file.value.size == rawSize)
    }
  }

  datatype PeError =
    | VirtualAddressMisaligned | RawSizeMisaligned | LowAlignmentOffsetMismatch | RawPointerMisaligned
    | RawDataOverlapsHeaders | RawDataOutsideFile | ArithmeticOverflow | VirtualRangeOverlapsHeaders
    | VirtualRangeOutsideImage | WriteExecuteSection
    | VirtualSectionsOverlap(first: nat, second: nat) | RawSectionsOverlap(first: nat, second: nat)
    | EntryPointNotExecutable | SizeOfImageMismatch | RvaOutsideImage | RvaNotFileBacked
  datatype Checked = Fine(section: Section) | Wrong(error: PeError)
  datatype Loaded = Image(image: PeImage) | Rejected(error: PeError)
  datatype Range = Range(offset: u32, size: u32)
  datatype Resolved = Found(range: Range) | NotFound(error: PeError)

  datatype PeImage = PeImage(bytes: seq<byte>, optional: Optional, sections: seq<Section>)

  function AlignUp(value: u32, alignment: u32): (r: Option<u32>)
    requires alignment > 0
  {
    if value + alignment - 1 >= U32_LIMIT then None else Some((value + alignment - 1) / alignment * alignment)
  }

  lemma AlignUpCovers(value: u32, alignment: u32)
    requires alignment > 0 && AlignUp(value, alignment).Some?
    ensures value <= AlignUp(value, alignment).value < value + alignment
    ensures AlignUp(value, alignment).value % alignment == 0
  {
    var x := value + alignment - 1;
    assert x == alignment * (x / alignment) + x % alignment;
    ModUnique(x / alignment * alignment, alignment, x / alignment, 0);
  }

  function Max(a: u32, b: u32): u32 { if a < b then b else a }

  // ---------------------------------------------------------------- validation

  /** Checks one section and fills in the size it takes in memory. */
  method ValidateSection(fileSize: nat, section: Section, optional: Optional, headerMapped: u32) returns (r: Checked)
    requires optional.sectionAlignment > 0 && optional.fileAlignment > 0
    ensures r.Fine? <==> SectionFine(fileSize, Mapped(section, optional), optional, headerMapped)
    ensures r.Fine? ==> r.section == Mapped(section, optional)
    ensures r.Wrong? ==>
              Blames(fileSize, section, optional, headerMapped, Mapped(section, optional).mappedSize, r.error)
  {
    if section.virtualAddress % optional.sectionAlignment != 0 {
      return Wrong(VirtualAddressMisaligned);
    }
    if section.rawSize % optional.fileAlignment != 0 {
      return Wrong(RawSizeMisaligned);
    }
    if section.rawSize != 0 {
      if optional.sectionAlignment < PAGE_SIZE && section.rawPointer != section.virtualAddress {
        return Wrong(LowAlignmentOffsetMismatch);
      }
      if section.rawPointer % optional.fileAlignment != 0 {
        return Wrong(RawPointerMisaligned);
      }
      if section.rawPointer < optional.sizeOfHeaders {
        return Wrong(RawDataOverlapsHeaders);
      }
      if section.rawPointer + section.rawSize >= U32_LIMIT || section.rawPointer + section.rawSize > fileSize {
        return Wrong(RawDataOutsideFile);
      }
    }
    var mapped := AlignUp(Max(section.virtualSize, section.rawSize), optional.sectionAlignment);
    if mapped.None? {
      return Wrong(ArithmeticOverflow);
    }
    var s := section.(mappedSize := mapped.value);
    if s.mappedSize == 0 {
      return Fine(s);
    }
    if s.virtualAddress < headerMapped {
      return Wrong(VirtualRangeOverlapsHeaders);
    }
    if s.virtualAddress + s.mappedSize >= U32_LIMIT || s.virtualAddress + s.mappedSize > optional.sizeOfImage {
      return Wrong(VirtualRangeOutsideImage);
    }
    if s.write && s.execute {
      return Wrong(WriteExecuteSection);
    }
    r := Fine(s);
  }

  /** What each error says of the section it is given for. */
  predicate Blames(fileSize: nat, s: Section, optional: Optional, headerMapped: u32, size: u32, error: PeError)
    requires optional.sectionAlignment > 0 && optional.fileAlignment > 0
  {
    match error
    case VirtualAddressMisaligned => s.virtualAddress % optional.sectionAlignment != 0
    case RawSizeMisaligned => s.rawSize % optional.fileAlignment != 0
    case LowAlignmentOffsetMismatch =>
      s.rawSize != 0 && optional.sectionAlignment < PAGE_SIZE && s.rawPointer != s.virtualAddress
    case RawPointerMisaligned => s.rawSize != 0 && s.rawPointer % optional.fileAlignment != 0
    case RawDataOverlapsHeaders => s.rawSize != 0 && s.rawPointer < optional.sizeOfHeaders
    case RawDataOutsideFile =>
      s.rawSize != 0 && (s.rawPointer + s.rawSize >= U32_LIMIT || s.rawPointer + s.rawSize > fileSize)
    case ArithmeticOverflow => Max(s.virtualSize, s.rawSize) + optional.sectionAlignment > U32_LIMIT
    case VirtualRangeOverlapsHeaders => size != 0 && s.virtualAddress < headerMapped
    case VirtualRangeOutsideImage =>
      size != 0 && (s.virtualAddress + size >= U32_LIMIT || s.virtualAddress + size > optional.sizeOfImage)
    case WriteExecuteSection => size != 0 && s.write && s.execute
    case _ => false
  }

  function Mapped(section: Section, optional: Optional): Section
    requires optional.sectionAlignment > 0
  {
    var mapped := AlignUp(Max(section.virtualSize, section.rawSize), optional.sectionAlignment);
    if mapped.Some? then section.(mappedSize := mapped.value) else section
  }

  predicate SectionFine(fileSize: nat, s: Section, optional: Optional, headerMapped: u32)
    requires optional.sectionAlignment > 0 && optional.fileAlignment > 0
  {
    && s.virtualAddress % optional.sectionAlignment == 0 && s.rawSize % optional.fileAlignment == 0
    && (s.rawSize != 0 ==>
          && (optional.sectionAlignment < PAGE_SIZE ==> s.rawPointer == s.virtualAddress)
          && s.rawPointer % optional.fileAlignment == 0 && s.rawPointer >= optional.sizeOfHeaders
          && s.rawPointer + s.rawSize < U32_LIMIT && s.rawPointer + s.rawSize <= fileSize)
    && AlignUp(Max(s.virtualSize, s.rawSize), optional.sectionAlignment) == Some(s.mappedSize)
    && (s.mappedSize != 0 ==>
          && headerMapped <= s.virtualAddress
          && s.virtualAddress + s.mappedSize < U32_LIMIT && s.virtualAddress + s.mappedSize <= optional.sizeOfImage
          && !(s.write && s.execute))
  }

  /** A header that asks for both only gets through when it stands for nothing. */
  lemma WritableCodeIsEmpty(fileSize: nat, header: Section, optional: Optional, headerMapped: u32)
    requires optional.sectionAlignment > 0 && optional.fileAlignment > 0
    requires SectionFine(fileSize, Mapped(header, optional), optional, headerMapped)
    requires header.write && header.execute
    ensures header.virtualSize == header.rawSize == 0
  {
    AlignUpCovers(Max(header.virtualSize, header.rawSize), optional.sectionAlignment);
  }

  /** Nonempty ranges that meet; a range that runs over the end meets every other. */
  predicate RangesOverlap(start: u32, size: u32, otherStart: u32, otherSize: u32) {
    && size != 0 && otherSize != 0
    && (|| start + size >= U32_LIMIT || otherStart + otherSize >= U32_LIMIT
        || (start < otherStart + otherSize && otherStart < start + size))
  }

  predicate Within(x: nat, start: u32, size: u32) { start <= x < start + size }

  /** Ranges that do not run over the end overlap exactly when an address lies in both. */
  lemma RangesMeet(start: u32, size: u32, otherStart: u32, otherSize: u32)
    requires start + size < U32_LIMIT && otherStart + otherSize < U32_LIMIT
    ensures RangesOverlap(start, size, otherStart, otherSize)
            <==> exists x :: Within(x, start, size) && Within(x, otherStart, otherSize)
  {
    var x := Max(start, otherStart);
    if RangesOverlap(start, size, otherStart, otherSize) {
      assert Within(x, start, size) && Within(x, otherStart, otherSize);
    }
  }

  predicate Apart(a: Section, b: Section) {
    && !RangesOverlap(a.virtualAddress, a.mappedSize, b.virtualAddress, b.mappedSize)
    && !RangesOverlap(a.rawPointer, a.rawSize, b.rawPointer, b.rawSize)
  }

  method ValidateSectionOverlaps(sections: seq<Section>) returns (r: Option<PeError>)
    ensures r.None? <==> forall i, j :: 0 <= i < j < |sections| ==> Apart(sections[i], sections[j])
    ensures r.Some? ==>
              && (r.value.VirtualSectionsOverlap? || r.value.RawSectionsOverlap?)
              && r.value.first < r.value.second < |sections|
              && var a, b := sections[r.value.first], sections[r.value.second];
                 if r.value.VirtualSectionsOverlap?
                 then RangesOverlap(a.virtualAddress, a.mappedSize, b.virtualAddress, b.mappedSize)
                 else RangesOverlap(a.rawPointer, a.rawSize, b.rawPointer, b.rawSize)
  {
    hide RangesOverlap;
    for first := 0 to |sections|
      invariant forall i, j :: 0 <= i < first && i < j < |sections| ==> Apart(sections[i], sections[j])
    {
      for second := first + 1 to |sections|
        invariant forall j :: first < j < second ==> Apart(sections[first], sections[j])
      {
        var a, b := sections[first], sections[second];
        if RangesOverlap(a.virtualAddress, a.mappedSize, b.virtualAddress, b.mappedSize) {
          assert !Apart(sections[first], sections[second]);
          return Some(VirtualSectionsOverlap(first, second));
        }
        if RangesOverlap(a.rawPointer, a.rawSize, b.rawPointer, b.rawSize) {
          assert !Apart(sections[first], sections[second]);
          return Some(RawSectionsOverlap(first, second));
        }
      }
    }
    r := None;
  }

  /** The section is executable and the address lies in its mapped range. */
  predicate Executes(s: Section, rva: u32) {
    s.execute && s.virtualAddress + s.mappedSize < U32_LIMIT && Within(rva, s.virtualAddress, s.mappedSize)
  }

  ghost predicate EntryFine(optional: Optional, sections: seq<Section>) {
    optional.entryPoint == 0 || exists i :: 0 <= i < |sections| && Executes(sections[i], optional.entryPoint)
  }

  method EntryExecutable(optional: Optional, sections: seq<Section>) returns (r: bool)
    ensures r <==> EntryFine(optional, sections)
  {
    if optional.entryPoint == 0 {
      return true;
    }
    for i := 0 to |sections|
      invariant forall k :: 0 <= k < i ==> !Executes(sections[k], optional.entryPoint)
    {
      var s := sections[i];
      var end := s.virtualAddress + s.mappedSize;
      if end < U32_LIMIT && optional.entryPoint >= s.virtualAddress && optional.entryPoint < end && s.execute {
        return true;
      }
    }
    r := false;
  }

  /** What every image satisfies that the parser lets through. */
  ghost predicate Accepted(image: PeImage) {
    var o := image.optional;
    && o.sectionAlignment > 0 && o.fileAlignment > 0
    && o.sizeOfHeaders <= o.sizeOfImage && o.sizeOfHeaders <= |image.bytes|
    && AlignUp(o.sizeOfHeaders, o.sectionAlignment).Some?
    && (var headerMapped := AlignUp(o.sizeOfHeaders, o.sectionAlignment).value;
        && headerMapped <= o.sizeOfImage
        && forall i :: 0 <= i < |image.sections| ==> SectionFine(|image.bytes|, image.sections[i], o, headerMapped))
    && (forall i, j :: 0 <= i < j < |image.sections| ==> Apart(image.sections[i], image.sections[j]))
    && EntryFine(o, image.sections)
  }

  /** The end of the image: behind the headers and behind every section. */
  function RequiredSize(headerMapped: nat, sections: seq<Section>): (r: nat)
    ensures r >= headerMapped
  {
    if sections == [] then headerMapped
    else
      var before := RequiredSize(headerMapped, sections[..|sections| - 1]);
      var end := sections[|sections| - 1].virtualAddress + sections[|sections| - 1].mappedSize;
      if before < end then end else before
  }

  /** It is the furthest of those ends. */
  lemma {:induction false} RequiredExact(headerMapped: nat, sections: seq<Section>)
    ensures var r := RequiredSize(headerMapped, sections);
            && (forall i :: 0 <= i < |sections| ==> sections[i].virtualAddress + sections[i].mappedSize <= r)
            && (r == headerMapped
                || exists i :: 0 <= i < |sections| && r == sections[i].virtualAddress + sections[i].mappedSize)
  {
    if sections == [] {
    } else {
      var front := sections[..|sections| - 1];
      RequiredExact(headerMapped, front);
      assert forall i :: 0 <= i < |front| ==> front[i] == sections[i];
    }
  }

  function MappedAll(headers: seq<Section>, optional: Optional): (r: seq<Section>)
    requires optional.sectionAlignment > 0
    ensures |r| == |headers| && forall i :: 0 <= i < |r| ==> r[i] == Mapped(headers[i], optional)
  {
    seq(|headers|, i requires 0 <= i < |headers| => Mapped(headers[i], optional))
  }

  ghost predicate EndsFit(sections: seq<Section>) {
    forall i :: 0 <= i < |sections| ==> sections[i].virtualAddress + sections[i].mappedSize < U32_LIMIT
  }

  /** The section part of parsing: validate and size each header in turn, then compare them. */
  method ParseSections(bytes: seq<byte>, optional: Optional, headers: seq<Section>) returns (r: Loaded)
    requires optional.sectionAlignment > 0 && optional.fileAlignment > 0 && |headers| <= MAX_SECTIONS
    requires optional.sizeOfHeaders <= optional.sizeOfImage && optional.sizeOfHeaders <= |bytes|
    ensures r.Image? ==> r.image == PeImage(bytes, optional, MappedAll(headers, optional))
    ensures r.Image? ==> forall i :: 0 <= i < |headers| && headers[i].write && headers[i].execute ==>
                                       headers[i].virtualSize == headers[i].rawSize == 0
    ensures r.Image? <==>
              var image := PeImage(bytes, optional, MappedAll(headers, optional));
              && Accepted(image) && EndsFit(image.sections)
              && optional.sizeOfImage
                  == RequiredSize(AlignUp(optional.sizeOfHeaders, optional.sectionAlignment).value, image.sections)
  {
    hide SectionFine, Apart, EntryFine, Mapped;
    ghost var all := MappedAll(headers, optional);
    var headerMapped := AlignUp(optional.sizeOfHeaders, optional.sectionAlignment);
    if headerMapped.None? {
      return Rejected(ArithmeticOverflow);
    }
    var sections: seq<Section> := [];
    var required := headerMapped.value;
    for index := 0 to |headers|
      invariant sections == all[..index] && required == RequiredSize(headerMapped.value, sections)
      invariant EndsFit(sections)
      invariant forall i :: 0 <= i < index ==> SectionFine(|bytes|, all[i], optional, headerMapped.value)
    {
      var checked := ValidateSection(|bytes|, headers[index], optional, headerMapped.value);
      if checked.Wrong? {
        assert !SectionFine(|bytes|, all[index], optional, headerMapped.value);
        return Rejected(checked.error);
      }
      var end := checked.section.virtualAddress + checked.section.mappedSize;
      if end >= U32_LIMIT {
        assert all[index].virtualAddress + all[index].mappedSize >= U32_LIMIT;
        return Rejected(ArithmeticOverflow);
      }
      assert all[..index + 1] == sections + [checked.section];
      assert (sections + [checked.section])[..|sections|] == sections;
      sections := sections + [checked.section];
      required := Max(required, end);
    }
    assert sections == all;
    var overlap := ValidateSectionOverlaps(sections);
    if overlap.Some? {
      return Rejected(overlap.value);
    }
    var entry := EntryExecutable(optional, sections);
    if !entry {
      return Rejected(EntryPointNotExecutable);
    }
    if optional.sizeOfImage != required {
      return Rejected(SizeOfImageMismatch);
    }
    forall i | 0 <= i < |headers| && headers[i].write && headers[i].execute
      ensures headers[i].virtualSize == headers[i].rawSize == 0
    {
      WritableCodeIsEmpty(|bytes|, headers[i], optional, headerMapped.value);
    }
    r := Image(PeImage(bytes, optional, sections));
  }

  // ---------------------------------------------------------------- lookup

  /** The first section whose initialised bytes hold the whole range decides. */
  function SectionLookup(fileSize: nat, sections: seq<Section>, rva: u32, size: u32): Resolved
    requires rva + size < U32_LIMIT
  {
    if sections == [] then NotFound(RvaNotFileBacked)
    else
      var s := sections[0];
      if s.virtualAddress + s.rawSize >= U32_LIMIT then NotFound(RvaNotFileBacked)
      else if s.virtualAddress <= rva && rva + size <= s.virtualAddress + s.rawSize then
        var offset := s.rawPointer + (rva - s.virtualAddress);
        if offset + size >= U32_LIMIT || offset + size > fileSize then NotFound(RvaNotFileBacked)
        else Found(Range(offset, size))
      else SectionLookup(fileSize, sections[1..], rva, size)
  }

  function RvaToFileRange(image: PeImage, rva: u32, size: u32): Resolved {
    if rva + size >= U32_LIMIT || rva + size > image.optional.sizeOfImage then NotFound(RvaOutsideImage)
    else if rva < image.optional.sizeOfHeaders && rva + size <= image.optional.sizeOfHeaders
      then Found(Range(rva, size))
    else SectionLookup(|image.bytes|, image.sections, rva, size)
  }

  // ---------------------------------------------------------------- the plan

  /** Bytes to copy from the file to an image address. */
  datatype Copy = Copy(rva: u32, file: Range) {
    predicate Covers(a: nat) { rva <= a < rva + file.size }

    predicate Fits(memorySize: nat, fileSize: nat) {
      rva + file.size <= memorySize && file.offset + file.size <= fileSize
    }
  }

  datatype SectionLoad = SectionLoad(rva: u32, size: u32, file: Option<Range>, read: bool, write: bool, execute: bool) {
    predicate Holds(a: nat) { rva <= a < rva + size }
  }
  datatype LoaderPlan = LoaderPlan(sizeOfImage: u32, headerFile: Range, headerSize: u32, sections: seq<SectionLoad>)

  function FileRangeOf(s: Section): Option<Range> {
    if s.rawSize == 0 then None else Some(Range(s.rawPointer, s.rawSize))
  }

  method PlanFromImage(image: PeImage) returns (plan: LoaderPlan)
    requires Accepted(image)
    ensures plan == Plan(image)
    ensures plan.sizeOfImage == image.optional.sizeOfImage
    ensures plan.headerFile.offset == 0 && plan.headerFile.size == image.optional.sizeOfHeaders
    ensures |plan.sections| == |image.sections|
    ensures forall i :: 0 <= i < |plan.sections| ==> image.sections[i].Loads(plan.sections[i])
  {
    var header := AlignUp(image.optional.sizeOfHeaders, image.optional.sectionAlignment).value;
    var sections: seq<SectionLoad> := [];
    for index := 0 to |image.sections|
      invariant |sections| == index
      invariant forall i :: 0 <= i < index ==> sections[i] == SectionPlan(image.sections[i])
    {
      var s := image.sections[index];
      sections := sections + [SectionLoad(s.virtualAddress, s.mappedSize, FileRangeOf(s), s.read, s.write, s.execute)];
    }
    plan := LoaderPlan(image.optional.sizeOfImage, Range(0, image.optional.sizeOfHeaders), header, sections);
  }

  function SectionPlan(s: Section): SectionLoad {
    SectionLoad(s.virtualAddress, s.mappedSize, FileRangeOf(s), s.read, s.write, s.execute)
  }

  ghost function Plan(image: PeImage): LoaderPlan
    requires Accepted(image)
  {
    LoaderPlan(image.optional.sizeOfImage, Range(0, image.optional.sizeOfHeaders),
               AlignUp(image.optional.sizeOfHeaders, image.optional.sectionAlignment).value,
               seq(|image.sections|, i requires 0 <= i < |image.sections| => SectionPlan(image.sections[i])))
  }

  /** A copy the plan asks for. */
  ghost predicate Planned(plan: LoaderPlan, c: Copy) {
    || c == Copy(0, plan.headerFile)
    || exists i :: 0 <= i < |plan.sections| && plan.sections[i].file.Some?
        && c == Copy(plan.sections[i].rva, plan.sections[i].file.value)
  }

  /** Every copy reads inside the file and writes inside its own range of the image. */
  lemma CopiesFit(image: PeImage, c: Copy)
    requires Accepted(image) && Planned(Plan(image), c)
    ensures c.Fits(image.optional.sizeOfImage, |image.bytes|)
    ensures || (c.rva == 0 && c.file.size <= Plan(image).headerSize)
            || exists i :: 0 <= i < |image.sections| && c.rva == Plan(image).sections[i].rva
                && c.file.size <= Plan(image).sections[i].size
  {
    var o := image.optional;
    AlignUpCovers(o.sizeOfHeaders, o.sectionAlignment);
    if c != Copy(0, Plan(image).headerFile) {
      var i :| 0 <= i < |image.sections| && Plan(image).sections[i].file.Some?
               && c == Copy(Plan(image).sections[i].rva, Plan(image).sections[i].file.value);
      var s := image.sections[i];
      AlignUpCovers(Max(s.virtualSize, s.rawSize), o.sectionAlignment);
      assert c.file.size <= Plan(image).sections[i].size;
    }
  }

  lemma SectionsApart(image: PeImage, a: nat, i: nat, j: nat)
    requires Accepted(image) && i < j < |image.sections| && Plan(image).sections[i].Holds(a)
    ensures !Plan(image).sections[j].Holds(a)
  {
    assert Apart(image.sections[i], image.sections[j]);
  }

  /** An address of a loaded image is in one section at most, and never writable and executable there. */
  lemma NoWriteExecute(image: PeImage, a: nat, i: nat, j: nat)
    requires Accepted(image) && i < |image.sections| && j < |image.sections|
    requires Plan(image).sections[i].Holds(a) && Plan(image).sections[j].Holds(a)
    ensures i == j && !(Plan(image).sections[i].write && Plan(image).sections[j].execute)
  {
    if i < j {
      SectionsApart(image, a, i, j);
    } else if j < i {
      SectionsApart(image, a, j, i);
    }
  }

  /** Every address of a section is loaded by that section's entry alone, and with the section's rights. */
  lemma SectionRights(image: PeImage, a: nat, i: nat, k: nat)
    requires Accepted(image) && i < |image.sections| && k < |image.sections|
    requires image.sections[i].virtualAddress <= a < image.sections[i].virtualAddress + image.sections[i].mappedSize
    ensures image.sections[i].Loads(Plan(image).sections[i])
    ensures Plan(image).sections[k].Holds(a) <==> k == i
    ensures Plan(image).headerSize <= a < image.optional.sizeOfImage
  {
    if Plan(image).sections[k].Holds(a) {
      NoWriteExecute(image, a, i, k);
    }
  }

  // ---------------------------------------------------------------- loading

  /** Performs the copies in the order given on an image of this size. */
  function Load(bytes: seq<byte>, memory: seq<byte>, order: seq<Copy>): (r: seq<byte>)
    requires forall i :: 0 <= i < |order| ==> order[i].Fits(|memory|, |bytes|)
    ensures |r| == |memory|
    decreases |order|
  {
    if order == [] then memory
    else
      var c := order[|order| - 1];
      assert c.Fits(|memory|, |bytes|);
      var m := Load(bytes, memory, order[..|order| - 1]);
      m[..c.rva] + bytes[c.file.offset..c.file.offset + c.file.size] + m[c.rva + c.file.size..]
  }

  /** What an address holds after loading: the byte its lookup resolves to, or zero. */
  function Backed(image: PeImage, a: u32): byte {
    match RvaToFileRange(image, a, 1)
    case Found(range) => if range.offset < |image.bytes| then image.bytes[range.offset] else 0
    case NotFound(_) => 0
  }

  /** A planned copy puts the resolved byte at each address it covers. */
  lemma CopyAgrees(image: PeImage, c: Copy, a: nat)
    requires Accepted(image) && Planned(Plan(image), c) && c.Covers(a)
    ensures c.file.offset + (a - c.rva) < |image.bytes| && a < image.optional.sizeOfImage
    ensures RvaToFileRange(image, a, 1) == Found(Range(c.file.offset + (a - c.rva), 1))
  {
    CopiesFit(image, c);
    if c != Copy(0, Plan(image).headerFile) {
      var i :| 0 <= i < |image.sections| && Plan(image).sections[i].file.Some?
               && c == Copy(Plan(image).sections[i].rva, Plan(image).sections[i].file.value);
      RawInMapped(image, i);
      LookupHits(image, i, a, 1, 0);
    }
  }

  /** Initialised bytes lie inside the mapped range, behind the headers and inside the image. */
  lemma RawInMapped(image: PeImage, i: nat)
    requires Accepted(image) && i < |image.sections| && image.sections[i].rawSize > 0
    ensures var s := image.sections[i];
            && s.rawSize <= s.mappedSize && image.optional.sizeOfHeaders <= s.virtualAddress
            && s.virtualAddress + s.mappedSize < U32_LIMIT
            && s.virtualAddress + s.mappedSize <= image.optional.sizeOfImage
            && s.rawPointer + s.rawSize < U32_LIMIT && s.rawPointer + s.rawSize <= |image.bytes|
  {
    var s, o := image.sections[i], image.optional;
    AlignUpCovers(o.sizeOfHeaders, o.sectionAlignment);
    AlignUpCovers(Max(s.virtualSize, s.rawSize), o.sectionAlignment);
  }

  /** Initialised sizes never overflow the address. */
  lemma RawEndFits(image: PeImage, k: nat)
    requires Accepted(image) && k < |image.sections|
    ensures image.sections[k].virtualAddress + image.sections[k].rawSize < U32_LIMIT
  {
    if image.sections[k].rawSize > 0 {
      RawInMapped(image, k);
    }
  }

  /** A range inside one section's initialised bytes is resolved through that section. */
  lemma {:induction false} LookupHits(image: PeImage, i: nat, rva: u32, size: u32, from: nat)
    requires Accepted(image) && from <= i < |image.sections| && size > 0
    requires image.sections[i].virtualAddress <= rva
             && rva + size <= image.sections[i].virtualAddress + image.sections[i].rawSize
    ensures var s := image.sections[i];
            && rva + size < U32_LIMIT && s.rawPointer + (rva - s.virtualAddress) < U32_LIMIT
            && SectionLookup(|image.bytes|, image.sections[from..], rva, size)
               == Found(Range(s.rawPointer + (rva - s.virtualAddress), size))
    decreases i - from
  {
    RawInMapped(image, i);
    RawEndFits(image, from);
    if from >= i {
    } else {
      if image.sections[from].rawSize > 0 {
        RawInMapped(image, from);
      }
      assert Apart(image.sections[from], image.sections[i]);
      LookupHits(image, i, rva, size, from + 1);
      assert image.sections[from..][1..] == image.sections[from + 1..];
    }
  }

  /** Whatever a lookup resolves lies inside one planned copy, at the same distance from its start. */
  lemma {:induction false} LookupPlanned(image: PeImage, rva: u32, size: u32, from: nat) returns (i: nat)
    requires Accepted(image) && from <= |image.sections| && size > 0 && rva + size < U32_LIMIT
    requires SectionLookup(|image.bytes|, image.sections[from..], rva, size).Found?
    ensures i < |image.sections|
    ensures var s := image.sections[i];
            && s.virtualAddress <= rva && rva + size <= s.virtualAddress + s.rawSize
            && SectionLookup(|image.bytes|, image.sections[from..], rva, size).range.offset
                == s.rawPointer + (rva - s.virtualAddress)
            && SectionLookup(|image.bytes|, image.sections[from..], rva, size).range.size == size
    decreases |image.sections| - from
  {
    var s := image.sections[from];
    if s.virtualAddress <= rva && rva + size <= s.virtualAddress + s.rawSize {
      i := from;
    } else {
      assert image.sections[from..][1..] == image.sections[from + 1..];
      i := LookupPlanned(image, rva, size, from + 1);
    }
  }

  /** A byte that resolves is covered by a planned copy. */
  lemma BackedIsCopied(image: PeImage, a: u32) returns (c: Copy)
    requires Accepted(image) && RvaToFileRange(image, a, 1).Found?
    ensures Planned(Plan(image), c) && c.Covers(a)
  {
    if a < image.optional.sizeOfHeaders {
      c := Copy(0, Plan(image).headerFile);
    } else {
      assert image.sections[0..] == image.sections;
      var i := LookupPlanned(image, a, 1, 0);
      c := Copy(Plan(image).sections[i].rva, Plan(image).sections[i].file.value);
    }
  }

  ghost predicate AllPlanned(image: PeImage, order: seq<Copy>)
    requires Accepted(image)
  {
    forall i :: 0 <= i < |order| ==> Planned(Plan(image), order[i])
  }

  lemma OrderFits(image: PeImage, order: seq<Copy>)
    requires Accepted(image) && AllPlanned(image, order)
    ensures forall i :: 0 <= i < |order| ==> order[i].Fits(image.optional.sizeOfImage, |image.bytes|)
  {
    forall i | 0 <= i < |order|
      ensures order[i].Fits(image.optional.sizeOfImage, |image.bytes|)
    {
      CopiesFit(image, order[i]);
    }
  }

  /** After any planned copies, an address holds its resolved byte if some copy covered it and zero otherwise. */
  lemma {:induction false} LoadedByte(image: PeImage, order: seq<Copy>, a: nat)
    requires Accepted(image) && AllPlanned(image, order) && a < image.optional.sizeOfImage
    requires forall i :: 0 <= i < |order| ==> order[i].Fits(image.optional.sizeOfImage, |image.bytes|)
    ensures var m := Load(image.bytes, seq(image.optional.sizeOfImage, _ => 0), order);
            m[a] == if exists i :: 0 <= i < |order| && order[i].Covers(a) then Backed(image, a) else 0
    decreases |order|
  {
    hide Plan, Accepted, Planned, RvaToFileRange;
    if order == [] {
    } else {
      var front, c := order[..|order| - 1], order[|order| - 1];
      LoadedByte(image, front, a);
      if c.Covers(a) {
        CopyAgrees(image, c, a);
      }
      if exists i :: 0 <= i < |front| && front[i].Covers(a) {
        var i :| 0 <= i < |front| && front[i].Covers(a);
        assert order[i].Covers(a);
      }
      assert forall i :: 0 <= i < |order| && order[i].Covers(a) && i < |front| ==> front[i].Covers(a);
    }
  }

  /**
   Loading in any order: zero the image and make every planned copy, and each address holds exactly
   what its lookup resolves to, or zero when it resolves to nothing.
   */
  lemma LoadedImage(image: PeImage, order: seq<Copy>, a: u32)
    requires Accepted(image) && AllPlanned(image, order) && a < image.optional.sizeOfImage
    requires forall c :: Planned(Plan(image), c) ==> c in order
    ensures forall i :: 0 <= i < |order| ==> order[i].Fits(image.optional.sizeOfImage, |image.bytes|)
    ensures Load(image.bytes, seq(image.optional.sizeOfImage, _ => 0), order)[a] == Backed(image, a)
  {
    OrderFits(image, order);
    LoadedByte(image, order, a);
    hide Plan, Accepted, Planned, Load;
    if RvaToFileRange(image, a, 1).Found? {
      var c := BackedIsCopied(image, a);
      var i :| 0 <= i < |order| && order[i] == c;
    }
  }

  /** Whole ranges: the memory behind any range that resolves is the resolved slice of the file. */
  lemma ResolvedRange(image: PeImage, rva: u32, size: u32, k: nat)
    requires Accepted(image) && RvaToFileRange(image, rva, size).Found? && k < size
    ensures var range := RvaToFileRange(image, rva, size).range;
            && range.offset + size <= |image.bytes| && range.size == size && rva + k < image.optional.sizeOfImage
            && Backed(image, rva + k) == image.bytes[range.offset + k]
  {
    hide Accepted, SectionLookup;
    if rva + size <= image.optional.sizeOfHeaders {
      HeaderRange(image, rva, size, k);
    } else {
      assert image.sections[0..] == image.sections;
      var i := LookupPlanned(image, rva, size, 0);
      RawInMapped(image, i);
      LookupHits(image, i, rva + k, 1, 0);
    }
  }

  lemma HeaderRange(image: PeImage, rva: u32, size: u32, k: nat)
    requires Accepted(image) && k < size && rva + size <= image.optional.sizeOfHeaders
    ensures RvaToFileRange(image, rva, size) == Found(Range(rva, size))
    ensures rva + size <= |image.bytes| && rva + k < image.optional.sizeOfImage
    ensures Backed(image, rva + k) == image.bytes[rva + k]
  {
    hide SectionLookup, SectionFine, Apart;
  }
}
