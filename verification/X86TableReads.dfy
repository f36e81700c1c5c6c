/**
 What a row of the opcode table means for bytes: prefixes in any order, the opcode, any encoding of any
 register or memory operand, and the immediate decode to the row's mnemonic with those operands.
 */
module X86TableReads {
  import opened Bytes
  import opened X86
  import opened X86Decode
  import opened X86OpcodeMap
  import opened X86TableDecode
  import X86RoundTrip

  // ---------------------------------------------------------------- prefixes

  predicate SegmentByte(v: byte) { v in {0x26, 0x2E, 0x36, 0x3E, 0x64, 0x65} }
  predicate RexByte(v: byte) { 0x40 <= v <= 0x4F }
  predicate PrefixByte(v: byte) { v in {0xF0, 0xF2, 0xF3, 0x66, 0x67} || SegmentByte(v) || RexByte(v) }

  /** The last segment override wins, and so does the last REX byte. */
  function LastSegment(bs: seq<byte>): Option<byte> {
    if bs == [] then None
    else if SegmentByte(bs[|bs| - 1]) then Some(bs[|bs| - 1])
    else LastSegment(bs[..|bs| - 1])
  }

  function LastRex(bs: seq<byte>): (r: Option<byte>)
    ensures r.Some? ==> RexByte(r.value)
  {
    if bs == [] then None
    else if RexByte(bs[|bs| - 1]) then Some(bs[|bs| - 1])
    else LastRex(bs[..|bs| - 1])
  }

  function PrefixesOf(bs: seq<byte>): Prefixes {
    Prefixes(0xF0 in bs, 0xF3 in bs, 0xF2 in bs, 0x66 in bs, 0x67 in bs, LastSegment(bs), LastRex(bs).Some?,
             if LastRex(bs).Some? then LastRex(bs).value - 0x40 else 0)
  }

  /** The operand size: REX.W, else the operand-size prefix, else 32 bits. */
  function OperandSizeOf(bs: seq<byte>): OperandSize {
    if LastRex(bs).Some? && LastRex(bs).value % 16 >= 8 then Qword else if 0x66 in bs then Word else Dword
  }

  lemma OneMorePrefix(bs: seq<byte>, v: byte)
    requires PrefixByte(v)
    ensures IsPrefix(v) && PrefixesOf(bs + [v]) == AddPrefix(PrefixesOf(bs), v)
  {
    var all := bs + [v];
    assert all[..|all| - 1] == bs && all[|all| - 1] == v;
    assert forall x: byte :: x in all <==> x in bs || x == v;
  }

  lemma {:induction false} LegalBytes(bs: seq<byte>)
    ensures LegalPrefixes(PrefixesOf(bs))
  {
    if bs == [] {
    } else {
      LegalBytes(bs[..|bs| - 1]);
    }
  }

  /** Reading prefixes from position k on, when those before it have been read. */
  lemma {:induction false} PrefixesFrom(bs: seq<byte>, rest: seq<byte>, k: nat)
    requires k <= |bs| < 15 && forall i :: 0 <= i < |bs| ==> PrefixByte(bs[i])
    requires rest != [] ==> !PrefixByte(rest[0])
    ensures LegalPrefixes(PrefixesOf(bs[..k]))
    ensures ReadPrefixes(bs + rest, k, PrefixesOf(bs[..k])) == Ok(PrefixesOf(bs), |bs|)
    decreases |bs| - k
  {
    hide PrefixesOf, AddPrefix, LegalPrefixes;
    var b := bs + rest;
    LegalBytes(bs[..k]);
    if k == |bs| {
      assert bs[..k] == bs;
    } else {
      assert b[k] == bs[k] && bs[..k + 1] == bs[..k] + [bs[k]];
      OneMorePrefix(bs[..k], bs[k]);
      PrefixesFrom(bs, rest, k + 1);
    }
  }

  /** Any prefix bytes, in any order and with repetitions, set exactly the flags they stand for. */
  lemma PrefixesRead(bs: seq<byte>, rest: seq<byte>)
    requires |bs| < 15 && forall i :: 0 <= i < |bs| ==> PrefixByte(bs[i])
    requires rest != [] ==> !PrefixByte(rest[0])
    ensures LegalPrefixes(PrefixesOf(bs)) && ReadPrefixes(bs + rest, 0, NO_PREFIXES) == Ok(PrefixesOf(bs), |bs|)
  {
    PrefixesFrom(bs, rest, 0);
    LegalBytes(bs);
    assert bs[..0] == [];
    assert PrefixesOf([]) == NO_PREFIXES;
  }

  lemma SizeOfPrefixes(bs: seq<byte>)
    ensures SizeFor(PrefixesOf(bs), false) == OperandSizeOf(bs)
  {
  }

  // ---------------------------------------------------------------- operands of a ModRM byte

  datatype Displacement = NoDisplacement | Disp8(d: int) | Disp32(d: int) {
    predicate Fits() { (Disp8? ==> -0x80 <= d < 0x80) && (Disp32? ==> -0x8000_0000 <= d < 0x8000_0000) }
    function Value(): int { if NoDisplacement? then 0 else d }
    function Mode(): (m: nat) ensures m < 3 { if NoDisplacement? then 0 else if Disp8? then 1 else 2 }

    function Bytes(): seq<byte> {
      match this
      case NoDisplacement => []
      case Disp8(d) => [d % 0x100]
      case Disp32(d) => LeBytes(d % 0x1_0000_0000, 4)
    }
  }

  /**
   The ways to encode an r/m operand: a register, a base register with a displacement, a SIB byte with
   base, index and scale, a SIB byte without a base, and the form relative to the next instruction.
   */
  datatype Place =
    | InRegister(register: Register, high8: bool)
    | Based(base: Register, disp: Displacement)
    | Scaled(base: Register, index: Option<Register>, shift: nat, disp: Displacement)
    | Unbased(index: Option<Register>, shift: nat, d: int)
    | NextRelative(d: int)
  {
    /** The encodings that exist: some register numbers stand for other forms. */
    predicate Exists() {
      match this
      case InRegister(register, high8) => high8 ==> register < 4
      case Based(base, disp) => base % 8 != 4 && (base % 8 == 5 ==> !disp.NoDisplacement?) && disp.Fits()
      case Scaled(base, index, shift, disp) =>
        shift < 4 && index != Some(RSP) && (base % 8 == 5 ==> !disp.NoDisplacement?) && disp.Fits()
      case Unbased(index, shift, d) => shift < 4 && index != Some(RSP) && Disp32(d).Fits()
      case NextRelative(d) => Disp32(d).Fits()
    }
  }

  function Scale(shift: nat): byte
    requires shift < 4
  {
    match shift case 0 => 1 case 1 => 2 case 2 => 4 case _ => 8
  }

  function IndexBits(index: Option<Register>): (r: nat)
    ensures r < 8
  {
    if index.Some? then index.value % 8 else 4
  }

  /** A byte of two, three and three bits, as ModRM and SIB are. */
  function Packed(high: nat, middle: nat, low: nat): (r: byte)
    requires high < 4 && middle < 8 && low < 8
    ensures r / 64 == high && r / 8 % 8 == middle && r % 8 == low
  {
    PackedParts(high, middle, low);
    64 * high + 8 * middle + low
  }

  lemma PackedParts(high: nat, middle: nat, low: nat)
    requires high < 4 && middle < 8 && low < 8
    ensures var r := 64 * high + 8 * middle + low; r / 64 == high && r / 8 % 8 == middle && r % 8 == low
  {
    var r := 64 * high + 8 * middle + low;
    ModUnique(r, 64, high, 8 * middle + low);
    ModUnique(r, 8, 8 * high + middle, low);
    ModUnique(8 * high + middle, 8, high, middle);
  }

  /** ModRM, SIB and displacement of an operand beside a reg field. */
  function PlaceBytes(field: nat, place: Place): (r: seq<byte>)
    requires field < 8 && place.Exists()
    ensures r != [] && Digit(r[0]) == field && (r[0] >= 0xC0 <==> place.InRegister?)
  {
    match place
    case InRegister(register, high8) => [Packed(3, field, if high8 then register + 4 else register % 8)]
    case Based(base, disp) => [Packed(disp.Mode(), field, base % 8)] + disp.Bytes()
    case Scaled(base, index, shift, disp) =>
      [Packed(disp.Mode(), field, 4), Packed(shift, IndexBits(index), base % 8)] + disp.Bytes()
    case Unbased(index, shift, d) => [Packed(0, field, 4), Packed(shift, IndexBits(index), 5)] + Disp32(d).Bytes()
    case NextRelative(d) => [Packed(0, field, 5)] + Disp32(d).Bytes()
  }

  /** The REX bits agree with the registers an operand names, and a byte register has its REX byte or has none. */
  predicate Agrees(place: Place, p: Prefixes, size: OperandSize) {
    match place
    case InRegister(register, high8) =>
      if high8 then size == Byte && !p.rexPresent
      else p.RexB() == register / 8 && (size == Byte && register >= 4 ==> p.rexPresent)
    case Based(base, _) => p.RexB() == base / 8
    case Scaled(base, index, _, _) =>
      p.RexB() == base / 8 && p.RexX() == (if index.Some? then index.value / 8 else 0)
    case Unbased(index, _, _) => p.RexX() == (if index.Some? then index.value / 8 else 0)
    case NextRelative(_) => true
  }

  /** The operand itself; with the address-size prefix the last form is absolute. */
  function OperandAt(place: Place, p: Prefixes, size: OperandSize): Operand
    requires place.Exists()
  {
    match place
    case InRegister(register, high8) => Reg(register, size, high8)
    case Based(base, disp) => Mem(MemoryOperand(Some(base), None, 1, disp.Value(), false, p.segment, size))
    case Scaled(base, index, shift, disp) =>
      Mem(MemoryOperand(Some(base), index, Scale(shift), disp.Value(), false, p.segment, size))
    case Unbased(index, shift, d) => Mem(MemoryOperand(None, index, Scale(shift), d, false, p.segment, size))
    case NextRelative(d) => Mem(MemoryOperand(None, None, 1, d, !p.addressSize, p.segment, size))
  }

  predicate At(b: seq<byte>, at: nat, s: seq<byte>) { X86RoundTrip.At(b, at, s) }

  lemma DisplacementReads(b: seq<byte>, at: nat, disp: Displacement, m: MemoryOperand)
    requires disp.Fits() && At(b, at, disp.Bytes()) && m.displacement == 0
    ensures WithDisplacement(b, at, disp.Mode(), m)
         == Ok(m.(displacement := disp.Value()), at + |disp.Bytes()|)
  {
    hide LeBytes, SignedAt;
    if disp.Disp8? {
      X86RoundTrip.ByteLe(disp.d % 0x100);
      X86RoundTrip.SignedReads(b, at, disp.d, Byte);
    } else if disp.Disp32? {
      X86RoundTrip.SignedReads(b, at, disp.d, Dword);
    }
  }

  /** A SIB byte with a base. */
  lemma SibReads(b: seq<byte>, at: nat, p: Prefixes, base: Register, index: Option<Register>, shift: nat, mode: nat,
                 m: MemoryOperand)
    requires shift < 4 && index != Some(RSP) && m.base.None? && m.displacement == 0 && m.index.None?
    requires p.RexB() == base / 8 && p.RexX() == (if index.Some? then index.value / 8 else 0)
    requires at < |b| && b[at] == Packed(shift, IndexBits(index), base % 8) && (base % 8 == 5 ==> mode != 0)
    ensures SibOperand(b, at, p, mode, m) == Ok(m.(base := Some(base), index := index, scale := Scale(shift)), at + 1)
  {
    hide Packed, SignedAt;
  }

  /** A SIB byte without one. */
  lemma UnbasedReads(b: seq<byte>, at: nat, p: Prefixes, index: Option<Register>, shift: nat, d: int, m: MemoryOperand)
    requires shift < 4 && index != Some(RSP) && m.base.None? && m.displacement == 0 && m.index.None?
    requires p.RexX() == (if index.Some? then index.value / 8 else 0) && Disp32(d).Fits()
    requires at < |b| && b[at] == Packed(shift, IndexBits(index), 5) && At(b, at + 1, Disp32(d).Bytes())
    ensures SibOperand(b, at, p, 0, m) == Ok(m.(index := index, scale := Scale(shift), displacement := d), at + 5)
  {
    hide Packed, SignedAt;
    X86RoundTrip.SignedReads(b, at + 1, d, Dword);
  }

  /** The register a field and a REX bit name. */
  lemma NamedRegister(p: Prefixes, register: Register, high8: bool, extension: nat, size: OperandSize)
    requires high8 ==> register < 4 && size == Byte && !p.rexPresent
    requires !high8 ==> extension == register / 8 && (size == Byte && register >= 4 ==> p.rexPresent)
    requires extension < 2
    ensures RegisterOperand(p, if high8 then register + 4 else register % 8, extension, size)
         == Reg(register, size, high8)
  {
  }

  /** Every encoding of every operand reads back. */
  lemma PlaceReads(b: seq<byte>, at: nat, p: Prefixes, field: nat, place: Place, rmSize: OperandSize,
                   regSize: OperandSize)
    requires field < 8 && place.Exists() && Agrees(place, p, rmSize) && At(b, at, PlaceBytes(field, place))
    ensures ModrmSized(b, at, p, rmSize, regSize)
         == Ok(ModrmFields(OperandAt(place, p, rmSize), RegisterOperand(p, field, p.RexR(), regSize), field),
               at + |PlaceBytes(field, place)|)
  {
    hide SibOperand, WithDisplacement, LeBytes, SignedAt, Packed, RegisterOperand, AddressOperand;
    var bytes := PlaceBytes(field, place);
    X86RoundTrip.AtSplit(b, at, bytes[..1], bytes[1..]) by { assert bytes == bytes[..1] + bytes[1..]; }
    X86RoundTrip.AtByte(b, at, bytes[0]);
    if place.InRegister? {
      NamedRegister(p, place.register, place.high8, p.RexB(), rmSize);
    } else {
      MemoryReads(b, at + 1, p, field, place, rmSize);
    }
  }

  /** The bytes behind ModRM of a memory operand. */
  lemma OpeningAt(b: seq<byte>, at: nat, bytes: seq<byte>)
    requires bytes != [] && At(b, at, bytes)
    ensures at < |b| && b[at] == bytes[0] && At(b, at + 1, bytes[1..])
  {
    assert bytes == bytes[..1] + bytes[1..];
    X86RoundTrip.AtSplit(b, at, bytes[..1], bytes[1..]);
    X86RoundTrip.AtByte(b, at, bytes[0]);
  }

  lemma MemoryReads(b: seq<byte>, at: nat, p: Prefixes, field: nat, place: Place, size: OperandSize)
    requires field < 8 && place.Exists() && !place.InRegister? && Agrees(place, p, size)
    requires At(b, at, PlaceBytes(field, place)[1..])
    ensures var v := PlaceBytes(field, place)[0];
            var a := AddressOperand(b, at, p, v / 64, v % 8, size);
            && a.Ok?
            && WithDisplacement(b, a.next, v / 64, a.value)
               == Ok(OperandAt(place, p, size).memory, at + |PlaceBytes(field, place)| - 1)
  {
    hide SibOperand, WithDisplacement, LeBytes, SignedAt, Packed;
    var bytes := PlaceBytes(field, place)[1..];
    var m := MemoryOperand(None, None, 1, 0, false, p.segment, size);
    match place
    case Based(base, disp) =>
      DisplacementReads(b, at, disp, m.(base := Some(base)));
    case Scaled(base, index, shift, disp) =>
      OpeningAt(b, at, bytes);
      SibReads(b, at, p, base, index, shift, disp.Mode(), m);
      DisplacementReads(b, at + 1, disp, m.(base := Some(base), index := index, scale := Scale(shift)));
    case Unbased(index, shift, d) =>
      OpeningAt(b, at, bytes);
      UnbasedReads(b, at, p, index, shift, d, m);
      NoMore(b, at + 5, m.(index := index, scale := Scale(shift), displacement := d));
    case NextRelative(d) =>
      X86RoundTrip.SignedReads(b, at, d, Dword);
      NoMore(b, at + 4, m.(ripRelative := !p.addressSize, displacement := d));
  }

  lemma NoMore(b: seq<byte>, at: nat, m: MemoryOperand)
    ensures WithDisplacement(b, at, 0, m) == Ok(m, at)
  {
  }

  // ---------------------------------------------------------------- rows

  function OpcodeBytes(two: bool, opcode: byte): seq<byte> { if two then [0x0F, opcode] else [opcode] }

  /** Not a prefix, and not the byte that leads to the other map. */
  predicate IsOpcode(two: bool, opcode: byte) { two || (opcode != 0x0F && !PrefixByte(opcode)) }

  /** The reg field that names a register; registers 4 to 7 of width one byte without REX are the high bytes. */
  function Field(reg: Register, high: bool): (r: nat)
    requires high ==> reg < 4
    ensures r < 8
  {
    if high then reg + 4 else reg % 8
  }

  predicate RegAgrees(reg: Register, high: bool, p: Prefixes, size: OperandSize) {
    if high then reg < 4 && size == Byte && !p.rexPresent
    else p.RexR() == reg / 8 && (size == Byte && reg >= 4 ==> p.rexPresent)
  }

  /** What the bytes of an instruction say: prefixes, r/m operand, reg operand and immediate. */
  datatype Parts = Parts(prefixes: seq<byte>, place: Place, reg: Register, high: bool, value: u64) {
    function P(): Prefixes { PrefixesOf(prefixes) }
    function Size(): OperandSize { OperandSizeOf(prefixes) }

    predicate Legal() {
      && |prefixes| < 15 && (forall i :: 0 <= i < |prefixes| ==> PrefixByte(prefixes[i]))
      && place.Exists() && (high ==> reg < 4)
    }
  }

  /** The operand an argument of a row stands for. */
  function Argument(arg: Arg, opcode: byte, parts: Parts): Operand
    requires parts.Legal()
  {
    var p, size := parts.P(), parts.Size();
    match arg
    case E(w) => OperandAt(parts.place, p, w.At(size))
    case G(w) => Reg(parts.reg, w.At(size), parts.high)
    case OpcodeRegister(w) =>
      if w.At(size) == Byte && !p.rexPresent && opcode % 8 >= 4 then Reg(opcode % 8 - 4, Byte, true)
      else Reg(opcode % 8 + 8 * p.RexB(), w.At(size), false)
    case Fixed(register, w) => Reg(register, w.At(size), false)
    case One => Imm(1, Byte)
    case I(w) => Imm(parts.value, w.At(size))
    case J(w) => Rel(SignedValue(parts.value, w.At(size)), w.At(size))
    case SegmentField => Segment(Field(parts.reg, parts.high))
    case ControlField => Control(if parts.high then parts.reg + 4 else parts.reg)
  }

  function RowInstruction(row: Row, opcode: byte, parts: Parts, length: nat): Instruction
    requires row.Row? && parts.Legal()
  {
    var a := row.args;
    Instruction(row.mnemonic,
                if |a| > 0 then Some(Argument(a[0], opcode, parts)) else None,
                if |a| > 1 then Some(Argument(a[1], opcode, parts)) else None,
                if |a| > 2 then Some(Argument(a[2], opcode, parts)) else None,
                parts.P(), length)
  }

  /** The immediate of a row fits its width. */
  predicate ValueFits(row: Row, parts: Parts)
    requires row.Row?
  {
    var w := ImmediateWidth(row.args);
    w.Some? ==> w.value.At(parts.Size()) != Oword && parts.value < w.value.At(parts.Size()).Limit()
  }

  function ValueBytes(row: Row, parts: Parts): seq<byte>
    requires row.Row?
  {
    var w := ImmediateWidth(row.args);
    if w.None? then [] else LeBytes(parts.value, w.value.At(parts.Size()).Bytes())
  }

  /** The bytes between opcode and immediate. */
  function TailBytes(two: bool, opcode: byte, parts: Parts): seq<byte>
    requires parts.Legal()
  {
    if TailOf(two, opcode).NoTail? then [] else PlaceBytes(Field(parts.reg, parts.high), parts.place)
  }

  function RowFor(two: bool, opcode: byte, parts: Parts): Row
    requires parts.Legal()
  {
    TableRow(two, opcode, if TailOf(two, opcode).NoTail? then 0 else TailBytes(two, opcode, parts)[0])
  }

  /** The registers of the ModRM operands agree with the REX byte. */
  predicate TailAgrees(two: bool, opcode: byte, parts: Parts)
    requires parts.Legal()
  {
    match TailOf(two, opcode)
    case NoTail => true
    case ByteTail =>
      parts.place.InRegister? && Agrees(parts.place, parts.P(), Qword)
          && RegAgrees(parts.reg, parts.high, parts.P(), Qword)
    case ModrmTail(rm, reg) =>
      && Agrees(parts.place, parts.P(), rm.At(parts.Size()))
      && RegAgrees(parts.reg, parts.high, parts.P(), reg.At(parts.Size()))
  }

  function AllBytes(two: bool, opcode: byte, parts: Parts): seq<byte>
    requires parts.Legal() && RowFor(two, opcode, parts).Row?
  {
    parts.prefixes + (OpcodeBytes(two, opcode)
                      + (TailBytes(two, opcode, parts) + ValueBytes(RowFor(two, opcode, parts), parts)))
  }

  /** The fields that reading the bytes behind the opcode gives. */
  function FieldsFor(two: bool, opcode: byte, parts: Parts): (f: ModrmFields)
    requires parts.Legal()
    ensures f.field < 8
  {
    var p, size, field := parts.P(), parts.Size(), Field(parts.reg, parts.high);
    match TailOf(two, opcode)
    case NoTail => NO_FIELDS
    case ByteTail => ModrmFields(OperandAt(parts.place, p, Qword), OperandAt(parts.place, p, Qword), field)
    case ModrmTail(rm, reg) =>
      ModrmFields(OperandAt(parts.place, p, rm.At(size)), Reg(parts.reg, reg.At(size), parts.high), field)
  }

  /** Which arguments a row may have: ModRM operands only where there is a ModRM byte. */
  predicate ArgsFit(tail: Tail, args: seq<Arg>) {
    forall i :: 0 <= i < |args| ==>
      && (args[i].G? ==> tail.ModrmTail?)
      && (args[i].E? || args[i].SegmentField? || args[i].ControlField? ==> !tail.NoTail?)
  }

  lemma ArgumentTaken(arg: Arg, two: bool, opcode: byte, parts: Parts)
    requires parts.Legal() && TailAgrees(two, opcode, parts) && ArgsFit(TailOf(two, opcode), [arg])
    ensures Taken(arg, parts.P(), opcode, FieldsFor(two, opcode, parts), parts.value) == Argument(arg, opcode, parts)
  {
    SizeOfPrefixes(parts.prefixes);
    assert [arg][0] == arg;
    hide SizeFor, PrefixesOf, OperandSizeOf, TailOf;
  }

  lemma OneByteRowsFit(opcode: byte, modrm: byte)
    ensures var row := OneByteRow(opcode, modrm); row.Row? ==> ArgsFit(OneByteTail(opcode), row.args)
  {
  }

  lemma TwoByteRowsFit(opcode: byte, modrm: byte)
    ensures var row := TwoByteRow(opcode, modrm); row.Row? ==> ArgsFit(TwoByteTail(opcode), row.args)
  {
  }

  lemma RowTaken(two: bool, opcode: byte, parts: Parts)
    requires parts.Legal() && TailAgrees(two, opcode, parts) && RowFor(two, opcode, parts).Row?
    ensures var row := RowFor(two, opcode, parts);
            var i := Assembled(row, parts.P(), opcode, FieldsFor(two, opcode, parts), parts.value);
            i.(prefixes := parts.P(), length := 0) == RowInstruction(row, opcode, parts, 0)
  {
    hide Taken, Argument, TailAgrees, TableRow, TailOf, FieldsFor, PrefixesOf;
    var row := RowFor(two, opcode, parts);
    RowsFit(two, opcode, parts);
    forall i | 0 <= i < |row.args|
      ensures Taken(row.args[i], parts.P(), opcode, FieldsFor(two, opcode, parts), parts.value)
           == Argument(row.args[i], opcode, parts)
    {
      ArgumentTaken(row.args[i], two, opcode, parts);
    }
  }

  lemma RowsFit(two: bool, opcode: byte, parts: Parts)
    requires parts.Legal() && RowFor(two, opcode, parts).Row?
    ensures ArgsFit(TailOf(two, opcode), RowFor(two, opcode, parts).args)
  {
    hide OneByteRow, TwoByteRow, OneByteTail, TwoByteTail, ArgsFit;
    var modrm := if TailOf(two, opcode).NoTail? then 0 else TailBytes(two, opcode, parts)[0];
    OneByteRowsFit(opcode, modrm);
    TwoByteRowsFit(opcode, modrm);
  }

  /** Reading behind the opcode: the tail bytes, then the immediate. */
  lemma TailReads(b: seq<byte>, at: nat, two: bool, opcode: byte, parts: Parts)
    requires parts.Legal() && TailAgrees(two, opcode, parts) && RowFor(two, opcode, parts).Row?
    requires var row := RowFor(two, opcode, parts);
             && ValueFits(row, parts)
             && At(b, at, TailBytes(two, opcode, parts) + ValueBytes(row, parts))
    ensures var row := RowFor(two, opcode, parts);
            ByOpcode(b, at, parts.P(), two, opcode)
            == ByRow(b, at + |TailBytes(two, opcode, parts)|, parts.P(), opcode, row, FieldsFor(two, opcode, parts))
  {
    hide ByRow, TableRow, TailOf, PlaceBytes, ValueBytes, ModrmSized, PrefixesOf, OperandSizeOf, RegisterOperand,
         OperandAt, At;
    var row := RowFor(two, opcode, parts);
    var tail := TailBytes(two, opcode, parts);
    X86RoundTrip.AtSplit(b, at, tail, ValueBytes(row, parts)) by { AtIs(b, at, tail + ValueBytes(row, parts)); }
    SizeOfPrefixes(parts.prefixes);
    hide SizeFor;
    var field := Field(parts.reg, parts.high);
    if TailOf(two, opcode).ModrmTail? {
      var rm, reg := TailOf(two, opcode).rm.At(parts.Size()), TailOf(two, opcode).reg.At(parts.Size());
      AtIs(b, at, tail);
      PlaceReads(b, at, parts.P(), field, parts.place, rm, reg);
      NamedRegister(parts.P(), parts.reg, parts.high, parts.P().RexR(), reg);
      FirstAt(b, at, tail);
    } else if TailOf(two, opcode).ByteTail? {
      FirstAt(b, at, tail);
      OneBytePlace(field, parts.place, parts.P());
    }
  }

  lemma AtIs(b: seq<byte>, at: nat, s: seq<byte>)
    ensures At(b, at, s) == X86RoundTrip.At(b, at, s)
  {
  }

  lemma FirstAt(b: seq<byte>, at: nat, s: seq<byte>)
    requires X86RoundTrip.At(b, at, s) && s != []
    ensures at < |b| && b[at] == s[0]
  {
    assert b[at..at + |s|][0] == s[0];
  }

  lemma OneBytePlace(field: nat, place: Place, p: Prefixes)
    requires field < 8 && place.Exists() && place.InRegister? && Agrees(place, p, Qword)
    ensures |PlaceBytes(field, place)| == 1 && Digit(PlaceBytes(field, place)[0]) == field
    ensures RegisterOperand(p, PlaceBytes(field, place)[0] % 8, p.RexB(), Qword) == OperandAt(place, p, Qword)
  {
  }

  /** The immediate behind a row's tail. */
  lemma ValueReads(b: seq<byte>, at: nat, opcode: byte, row: Row, f: ModrmFields, parts: Parts)
    requires row.Row? && f.field < 8 && ValueFits(row, parts) && At(b, at, ValueBytes(row, parts))
    ensures ByRow(b, at, parts.P(), opcode, row, f)
         == Ok(Assembled(row, parts.P(), opcode, f, if ImmediateWidth(row.args).None? then 0 else parts.value),
               at + |ValueBytes(row, parts)|)
  {
    hide Assembled, LeBytes, ImmAt, PrefixesOf, OperandSizeOf;
    SizeOfPrefixes(parts.prefixes);
    hide SizeFor;
    if ImmediateWidth(row.args).Some? {
      var size := ImmediateWidth(row.args).value.At(parts.Size());
      X86RoundTrip.ImmReads(b, at, parts.value, size);
      ModUnique(parts.value, size.Limit(), 0, parts.value);
    }
  }

  /** Without an immediate the value does not matter. */
  lemma ValueUnused(row: Row, p: Prefixes, opcode: byte, f: ModrmFields, value: u64)
    requires row.Row? && f.field < 8 && ImmediateWidth(row.args).None?
    ensures Assembled(row, p, opcode, f, value) == Assembled(row, p, opcode, f, 0)
  {
  }

  /** Whatever the row, the prefixes, the operands and the immediate: their bytes decode to that instruction. */
  lemma RowReads(two: bool, opcode: byte, parts: Parts)
    requires IsOpcode(two, opcode) && parts.Legal() && TailAgrees(two, opcode, parts)
    requires RowFor(two, opcode, parts).Row? && ValueFits(RowFor(two, opcode, parts), parts)
    requires |AllBytes(two, opcode, parts)| <= 15
    ensures var b := AllBytes(two, opcode, parts);
            Decode(b) == Ok(RowInstruction(RowFor(two, opcode, parts), opcode, parts, |b|), |b|)
  {
    hide Decode, ByOpcode, ByRow, Assembled, PrefixesOf, OperandSizeOf, TailBytes, ValueBytes, TailAgrees, RowFor,
         ReadPrefixes, FieldsFor, Parts.Legal;
    var row, b := RowFor(two, opcode, parts), AllBytes(two, opcode, parts);
    var tail, value := TailBytes(two, opcode, parts), ValueBytes(row, parts);
    var rest := OpcodeBytes(two, opcode) + (tail + value);
    var at := |parts.prefixes| + |OpcodeBytes(two, opcode)|;
    BytesInPlace(two, opcode, parts, tail + value);
    DecodeIsTable(b);
    LegalParts(parts);
    PrefixesRead(parts.prefixes, rest);
    AtIs(b, at, tail + value);
    TailReads(b, at, two, opcode, parts);
    X86RoundTrip.AtSplit(b, at, tail, value);
    AtIs(b, at + |tail|, value);
    var f := FieldsFor(two, opcode, parts);
    ValueReads(b, at + |tail|, opcode, row, f, parts);
    RowTaken(two, opcode, parts);
    if ImmediateWidth(row.args).None? {
      ValueUnused(row, parts.P(), opcode, f, parts.value);
    }
    LengthOnly(row, opcode, parts, |b|);
  }

  lemma LegalParts(parts: Parts)
    requires parts.Legal()
    ensures |parts.prefixes| < 15 && forall i :: 0 <= i < |parts.prefixes| ==> PrefixByte(parts.prefixes[i])
  {
  }

  lemma LengthOnly(row: Row, opcode: byte, parts: Parts, length: nat)
    requires row.Row? && parts.Legal()
    ensures RowInstruction(row, opcode, parts, 0).(length := length) == RowInstruction(row, opcode, parts, length)
  {
  }

  /** Where the pieces of an encoding lie. */
  lemma BytesInPlace(two: bool, opcode: byte, parts: Parts, more: seq<byte>)
    requires IsOpcode(two, opcode)
    ensures var n, head := |parts.prefixes|, OpcodeBytes(two, opcode);
            var b := parts.prefixes + (head + more);
            && |head| >= 1 && b[n] == head[0] && (two ==> b[n + 1] == opcode) && !PrefixByte((head + more)[0])
            && X86RoundTrip.At(b, n + |head|, more)
  {
    var n, head := |parts.prefixes|, OpcodeBytes(two, opcode);
    var b := parts.prefixes + (head + more);
    assert b[n + |head|..n + |head| + |more|] == more;
  }
}
