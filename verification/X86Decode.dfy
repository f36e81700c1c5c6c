/**
 The decoder, as functions from a byte string and a cursor to an outcome with the new cursor.

 Every function mirrors one method of the source's `Decoder`; `at` is the source's `cursor`, and
 an error carries the cursor it was raised at. The imperative decoder that advances a cursor
 field is in X86DecodeLoop and is proved to compute these functions.
 */
module X86Decode {
  import opened Bytes
  import opened X86

  datatype ErrorKind = Truncated | TooLong | UnsupportedOpcode | InvalidEncoding

  /** A value with the cursor after it, or an error with the cursor where it was raised. */
  datatype Parsed<+T> = Ok(value: T, next: nat) | Err(kind: ErrorKind, offset: nat) {
    predicate IsFailure() { Err? }
    function PropagateFailure<U>(): Parsed<U> requires Err? { Err(kind, offset) }
    function Extract(): (T, nat) requires Ok? { (value, next) }

    predicate IsTruncated() { Err? && kind == Truncated }

    /** How many bytes of the input the outcome depends on, when it is not Truncated. */
    function End(): nat { if Ok? then next else offset }
  }

  function ByteAt(b: seq<byte>, at: nat): (r: Parsed<byte>) {
    if at < |b| then Ok(b[at], at + 1) else Err(Truncated, at)
  }

  function ImmAt(b: seq<byte>, at: nat, size: OperandSize): (r: Parsed<u64>)
    ensures r.Ok? ==> r.next == at + size.Bytes() && r.value < size.Limit()
    ensures r.Err? ==> r.kind == Truncated && r.offset == at
  {
    if size.Bytes() > 8 || at + size.Bytes() > |b| then Err(Truncated, at)
    else
      var field := b[at..at + size.Bytes()];
      LeValueBound(field);
      Pow256Values();
      Ok(LeValue(field), at + size.Bytes())
  }

  function SignedAt(b: seq<byte>, at: nat, size: OperandSize): (r: Parsed<i64>)
    ensures r.Ok? ==> r.next == at + size.Bytes() && 0 <= 2 * r.value + size.Limit() && 2 * r.value < size.Limit()
    ensures r.Err? ==> r.kind == Truncated && r.offset == at
  {
    var (v, at1) :- ImmAt(b, at, size);
    Ok(Signed(v, size.Limit()), at1)
  }

  predicate IsPrefix(v: byte) {
    v == 0xF0 || v == 0xF2 || v == 0xF3 || v == 0x66 || v == 0x67 || IsSegmentPrefix(v) || 0x40 <= v <= 0x4F
  }

  function AddPrefix(p: Prefixes, v: byte): Prefixes
    requires IsPrefix(v)
  {
    if v == 0xF0 then p.(lock := true)
    else if v == 0xF2 then p.(repeatNotEqual := true)
    else if v == 0xF3 then p.(repeat := true)
    else if v == 0x66 then p.(operandSize := true)
    else if v == 0x67 then p.(addressSize := true)
    else if IsSegmentPrefix(v) then p.(segment := Some(v))
    else p.(rexPresent := true, rex := v % 16)
  }

  predicate LegalPrefixes(p: Prefixes) {
    p.rex < 16 && (p.segment.Some? ==> IsSegmentPrefix(p.segment.value))
  }

  function ReadPrefixes(b: seq<byte>, at: nat, p: Prefixes): (r: Parsed<Prefixes>)
    requires at < 15 && LegalPrefixes(p)
    ensures at <= r.End() <= 15
    ensures r.Ok? ==> r.next < 15 && LegalPrefixes(r.value)
    ensures r.Err? ==> r.kind == TooLong
    decreases 15 - at
  {
    if at < |b| && IsPrefix(b[at]) then
      if at + 1 >= 15 then Err(TooLong, at + 1)
      else ReadPrefixes(b, at + 1, AddPrefix(p, b[at]))
    else Ok(p, at)
  }

  function SizeFor(p: Prefixes, byteOperation: bool): (r: OperandSize)
    ensures r.Byte? <==> byteOperation
    ensures !r.Oword?
  {
    if byteOperation then Byte else if p.RexW() then Qword else if p.operandSize then Word else Dword
  }

  function RegisterOperand(p: Prefixes, field: nat, extension: nat, size: OperandSize): (r: Operand)
    requires field < 8 && extension < 2
    ensures r.Reg? && r.size == size
  {
    if size == Byte && !p.rexPresent && field >= 4 then Reg(field - 4, size, true)
    else Reg(field + 8 * extension, size, false)
  }

  datatype ModrmFields = ModrmFields(rm: Operand, reg: Operand, field: nat)

  /** Every memory operand carries the segment override that was read. */
  predicate SegmentIs(o: Option<Operand>, p: Prefixes) {
    o.Some? && o.value.Mem? ==> o.value.memory.segment == p.segment
  }

  predicate SegmentsAre(i: Instruction, p: Prefixes) {
    SegmentIs(i.first, p) && SegmentIs(i.second, p) && SegmentIs(i.third, p)
  }

  function SibOperand(b: seq<byte>, at: nat, p: Prefixes, mode: nat, memory: MemoryOperand): (r: Parsed<MemoryOperand>)
    ensures r.End() >= at
    ensures r.Err? ==> r.kind == Truncated
    ensures r.Ok? ==> r.value.segment == memory.segment && r.value.size == memory.size
    ensures r.Ok? && mode != 0 ==> r.value.displacement == memory.displacement
  {
    var (sib, at1) :- ByteAt(b, at);
    var scale: byte := match sib / 64 case 0 => 1 case 1 => 2 case 2 => 4 case _ => 8;
    var index := sib / 8 % 8;
    var base := sib % 8;
    var m := memory.(scale := scale,
                     index := if index != 4 || p.RexX() != 0 then Some(index + 8 * p.RexX()) else None);
    if mode == 0 && base == 5 then
      var (d, at2) :- SignedAt(b, at1, Dword);
      Ok(m.(displacement := d), at2)
    else
      Ok(m.(base := Some(base + 8 * p.RexB())), at1)
  }

  function AddressOperand(b: seq<byte>, at: nat, p: Prefixes, mode: nat, field: nat,
                          size: OperandSize): (r: Parsed<MemoryOperand>)
    requires field < 8
    ensures r.End() >= at
    ensures r.Err? ==> r.kind == Truncated
    ensures r.Ok? ==> r.value.segment == p.segment && r.value.size == size
    ensures r.Ok? && mode != 0 ==> r.value.displacement == 0
  {
    var memory := MemoryOperand(None, None, 1, 0, false, p.segment, size);
    if field == 4 then SibOperand(b, at, p, mode, memory)
    else if mode == 0 && field == 5 then
      var (d, at1) :- SignedAt(b, at, Dword);
      Ok(memory.(ripRelative := !p.addressSize, displacement := d), at1)
    else Ok(memory.(base := Some(field + 8 * p.RexB())), at)
  }

  function WithDisplacement(b: seq<byte>, at: nat, mode: nat, m: MemoryOperand): (r: Parsed<MemoryOperand>)
    requires mode != 0 ==> m.displacement == 0
    ensures r.End() >= at
    ensures r.Err? ==> r.kind == Truncated
    ensures r.Ok? ==> r.value.segment == m.segment && r.value.size == m.size
  {
    if mode == 1 then
      var (d, at1) :- SignedAt(b, at, Byte);
      Ok(m.(displacement := m.displacement + d), at1)
    else if mode == 2 then
      var (d, at1) :- SignedAt(b, at, Dword);
      Ok(m.(displacement := m.displacement + d), at1)
    else Ok(m, at)
  }

  function ModrmSized(b: seq<byte>, at: nat, p: Prefixes, rmSize: OperandSize,
                      regSize: OperandSize): (r: Parsed<ModrmFields>)
    ensures r.End() >= at
    ensures r.Err? ==> r.kind == Truncated
    ensures r.Ok? ==> r.next > at
    ensures r.Ok? ==> r.value.field < 8 && r.value.reg.Reg? && (r.value.rm.Reg? || r.value.rm.Mem?)
    ensures r.Ok? ==> SegmentIs(Some(r.value.rm), p) && r.value.rm.Size() == rmSize
  {
    var (v, at1) :- ByteAt(b, at);
    var mode := v / 64;
    var regField := v / 8 % 8;
    var rmField := v % 8;
    var reg := RegisterOperand(p, regField, p.RexR(), regSize);
    if mode == 3 then Ok(ModrmFields(RegisterOperand(p, rmField, p.RexB(), rmSize), reg, regField), at1)
    else
      var (m, at2) :- AddressOperand(b, at1, p, mode, rmField, rmSize);
      var (m', at3) :- WithDisplacement(b, at2, mode, m);
      Ok(ModrmFields(Mem(m'), reg, regField), at3)
  }

  function BinaryModrm(b: seq<byte>, at: nat, p: Prefixes, mnemonic: Mnemonic, opcode: byte): (r: Parsed<Instruction>)
    ensures r.End() >= at
    ensures r.Ok? ==> SegmentsAre(r.value, p)
  {
    var size := SizeFor(p, opcode % 2 == 0);
    var (f, at1) :- ModrmSized(b, at, p, size, size);
    if opcode / 2 % 2 == 1 then Ok(With2(mnemonic, f.reg, f.rm), at1)
    else Ok(With2(mnemonic, f.rm, f.reg), at1)
  }

  function Relative(b: seq<byte>, at: nat, mnemonic: Mnemonic, size: OperandSize): (r: Parsed<Instruction>)
    ensures r.End() >= at
    ensures r.Ok? ==> r.value.first.Some? && r.value.first.value.Rel? && r.value.second.None? && r.value.third.None?
  {
    var (d, at1) :- SignedAt(b, at, size);
    Ok(With1(mnemonic, Rel(d, size)), at1)
  }

  function PortImmediate(b: seq<byte>, at: nat, p: Prefixes, mnemonic: Mnemonic, wide: bool): (r: Parsed<Instruction>)
    ensures r.End() >= at
    ensures r.Ok? ==> SegmentsAre(r.value, p)
  {
    var (v, at1) :- ImmAt(b, at, Byte);
    var accumulator := Reg(RAX, SizeFor(p, !wide), false);
    if mnemonic == In then Ok(With2(mnemonic, accumulator, Imm(v, Byte)), at1)
    else Ok(With2(mnemonic, Imm(v, Byte), accumulator), at1)
  }

  function PortDx(at: nat, p: Prefixes, mnemonic: Mnemonic, wide: bool): (r: Parsed<Instruction>)
    ensures r.Ok? && r.next == at && SegmentsAre(r.value, p)
  {
    var port := Reg(RDX, Word, false);
    var accumulator := Reg(RAX, SizeFor(p, !wide), false);
    if mnemonic == In then Ok(With2(mnemonic, accumulator, port), at)
    else Ok(With2(mnemonic, port, accumulator), at)
  }

  /** The 64-bit forms carry a sign-extended 32-bit immediate. */
  function ImmediateSize(size: OperandSize): OperandSize {
    if size == Qword then Dword else size
  }

  function AccumulatorImmediate(b: seq<byte>, at: nat, p: Prefixes, opcode: byte): (r: Parsed<Instruction>)
    ensures r.End() >= at
    ensures r.Ok? ==> SegmentsAre(r.value, p)
  {
    var mnemonic :=
      if opcode == 0x04 || opcode == 0x05 then Add
      else if opcode == 0x0C || opcode == 0x0D then Or
      else if opcode == 0x14 || opcode == 0x15 then Adc
      else if opcode == 0x1C || opcode == 0x1D then Sbb
      else if opcode == 0x24 || opcode == 0x25 then And
      else if opcode == 0x2C || opcode == 0x2D then Sub
      else if opcode == 0x34 || opcode == 0x35 then Xor
      else if opcode == 0x3C || opcode == 0x3D then Cmp
      else Test;
    var size := SizeFor(p, opcode % 2 == 0);
    var (v, at1) :- ImmAt(b, at, ImmediateSize(size));
    Ok(With2(mnemonic, Reg(RAX, size, false), Imm(v, ImmediateSize(size))), at1)
  }

  function SegmentMove(b: seq<byte>, at: nat, p: Prefixes, opcode: byte): (r: Parsed<Instruction>)
    ensures r.End() >= at
    ensures r.Ok? ==> SegmentsAre(r.value, p)
  {
    var (f, at1) :- ModrmSized(b, at, p, Word, Word);
    if f.field > 5 || (opcode == 0x8E && f.field == 1) then Err(InvalidEncoding, at1)
    else if opcode == 0x8E then Ok(With2(Mov, Segment(f.field), f.rm), at1)
    else Ok(With2(Mov, f.rm, Segment(f.field)), at1)
  }

  function ImulImmediate(b: seq<byte>, at: nat, p: Prefixes, opcode: byte): (r: Parsed<Instruction>)
    ensures r.End() >= at
    ensures r.Ok? ==> SegmentsAre(r.value, p)
  {
    var size := SizeFor(p, false);
    var (f, at1) :- ModrmSized(b, at, p, size, size);
    var immediateSize := if opcode == 0x6B then Byte else ImmediateSize(size);
    var (v, at2) :- ImmAt(b, at1, immediateSize);
    Ok(With3(Imul, f.reg, f.rm, Imm(v, immediateSize)), at2)
  }

  function GroupOneMnemonic(extension: nat): Mnemonic {
    match extension
    case 0 => Add
    case 1 => Or
    case 2 => Adc
    case 3 => Sbb
    case 4 => And
    case 5 => Sub
    case 6 => Xor
    case _ => Cmp
  }

  function GroupImmediate(b: seq<byte>, at: nat, p: Prefixes, opcode: byte): (r: Parsed<Instruction>)
    ensures r.End() >= at
    ensures r.Ok? ==> SegmentsAre(r.value, p)
  {
    var size := SizeFor(p, opcode == 0x80);
    var (f, at1) :- ModrmSized(b, at, p, size, size);
    var immediateSize := if opcode == 0x80 || opcode == 0x83 then Byte else ImmediateSize(size);
    var (v, at2) :- ImmAt(b, at1, immediateSize);
    Ok(With2(GroupOneMnemonic(f.field), f.rm, Imm(v, immediateSize)), at2)
  }

  function MovImmediate(b: seq<byte>, at: nat, p: Prefixes, opcode: byte): (r: Parsed<Instruction>)
    ensures r.End() >= at
    ensures r.Ok? ==> SegmentsAre(r.value, p)
  {
    var size := SizeFor(p, opcode == 0xC6);
    var (f, at1) :- ModrmSized(b, at, p, size, size);
    if f.field != 0 then Err(InvalidEncoding, at1)
    else
      var (v, at2) :- ImmAt(b, at1, ImmediateSize(size));
      Ok(With2(Mov, f.rm, Imm(v, ImmediateSize(size))), at2)
  }

  function GroupTwo(b: seq<byte>, at: nat, p: Prefixes, opcode: byte): (r: Parsed<Instruction>)
    ensures r.End() >= at
    ensures r.Ok? ==> SegmentsAre(r.value, p)
  {
    var size := SizeFor(p, opcode == 0xC0 || opcode == 0xD0 || opcode == 0xD2);
    var (f, at1) :- ModrmSized(b, at, p, size, size);
    if f.field == 2 || f.field == 3 then Err(UnsupportedOpcode, at1)
    else
      var mnemonic := match f.field case 0 => Rol case 1 => Ror case 5 => Shr case 7 => Sar case _ => Shl;
      if opcode == 0xC0 || opcode == 0xC1 then
        var (v, at2) :- ImmAt(b, at1, Byte);
        Ok(With2(mnemonic, f.rm, Imm(v, Byte)), at2)
      else if opcode == 0xD0 || opcode == 0xD1 then Ok(With2(mnemonic, f.rm, Imm(1, Byte)), at1)
      else Ok(With2(mnemonic, f.rm, Reg(RCX, Byte, false)), at1)
  }

  function GroupThree(b: seq<byte>, at: nat, p: Prefixes, opcode: byte): (r: Parsed<Instruction>)
    ensures r.End() >= at
    ensures r.Ok? ==> SegmentsAre(r.value, p)
  {
    var size := SizeFor(p, opcode == 0xF6);
    var (f, at1) :- ModrmSized(b, at, p, size, size);
    if f.field == 1 then Err(InvalidEncoding, at1)
    else if f.field == 0 then
      var (v, at2) :- ImmAt(b, at1, ImmediateSize(size));
      Ok(With2(Test, f.rm, Imm(v, ImmediateSize(size))), at2)
    else
      var mnemonic :=
        match f.field case 2 => Not case 3 => Neg case 4 => Mul case 5 => Imul case 6 => Div case _ => Idiv;
      Ok(With1(mnemonic, f.rm), at1)
  }

  /** Near indirect CALL, JMP and PUSH take a 64-bit operand without REX.W. */
  function Widened(o: Operand): Operand {
    match o
    case Reg(register, _, high8) => Reg(register, Qword, high8)
    case Mem(m) => Mem(m.(size := Qword))
    case _ => o
  }

  function GroupFive(b: seq<byte>, at: nat, p: Prefixes, opcode: byte): (r: Parsed<Instruction>)
    ensures r.End() >= at
    ensures r.Ok? ==> SegmentsAre(r.value, p)
  {
    var size := SizeFor(p, opcode == 0xFE);
    var (f, at1) :- ModrmSized(b, at, p, size, size);
    if f.field == 3 || f.field == 5 || f.field == 7 then Err(InvalidEncoding, at1)
    else
      var mnemonic := match f.field case 0 => Inc case 1 => Dec case 2 => Call case 4 => Jump case _ => Push;
      var rm := if opcode == 0xFF && f.field >= 2 then Widened(f.rm) else f.rm;
      Ok(With1(mnemonic, rm), at1)
  }

  /** The opcode groups of the one-byte map that take no further bytes. */
  function PrimaryFixed(at: nat, p: Prefixes, opcode: byte): (r: Parsed<Instruction>)
    ensures r.End() == at
    ensures r.Ok? ==> SegmentsAre(r.value, p)
  {
    var size := SizeFor(p, false);
    if opcode == 0x90 then Ok(Plain(Nop), at)
    else if 0x91 <= opcode <= 0x97 then
      Ok(With2(Xchg, Reg(RAX, size, false), RegisterOperand(p, opcode % 8, p.RexB(), size)), at)
    else if opcode == 0xF4 then Ok(Plain(Hlt), at)
    else if opcode == 0xFA then Ok(Plain(Cli), at)
    else if opcode == 0xFB then Ok(Plain(Sti), at)
    else if opcode == 0xFC then Ok(Plain(Cld), at)
    else if opcode == 0xFD then Ok(Plain(Std), at)
    else if opcode == 0xCC then Ok(Plain(Int3), at)
    else if opcode == 0x9C then Ok(Plain(PushFlags), at)
    else if opcode == 0x9D then Ok(Plain(PopFlags), at)
    else if opcode == 0x98 then
      var source := if size == Word then Byte else if size == Dword then Word else Dword;
      Ok(With2(Movsx, Reg(RAX, size, false), Reg(RAX, source, false)), at)
    else if opcode == 0x99 then Ok(With2(SignExtendAccumulator, Reg(RDX, size, false), Reg(RAX, size, false)), at)
    else if opcode == 0xC3 then Ok(Plain(Return), at)
    else if opcode == 0xCB then Ok(Plain(ReturnFar), at)
    else if opcode == 0xC9 then Ok(Plain(Leave), at)
    else if opcode == 0xCF then Ok(Plain(Iretq), at)
    else if 0x50 <= opcode <= 0x57 then Ok(With1(Push, RegisterOperand(p, opcode % 8, p.RexB(), Qword)), at)
    else if 0x58 <= opcode <= 0x5F then Ok(With1(Pop, RegisterOperand(p, opcode % 8, p.RexB(), Qword)), at)
    else if opcode == 0xEC || opcode == 0xED then PortDx(at, p, In, opcode % 2 == 1)
    else if opcode == 0xEE || opcode == 0xEF then PortDx(at, p, Out, opcode % 2 == 1)
    else if opcode == 0xA4 || opcode == 0xA5 then
      Ok(With2(Movs, Reg(RSI, SizeFor(p, opcode == 0xA4), false), Reg(RDI, SizeFor(p, opcode == 0xA4), false)), at)
    else if opcode == 0xAA || opcode == 0xAB then
      Ok(With2(Stos, Reg(RDI, SizeFor(p, opcode == 0xAA), false), Reg(RAX, SizeFor(p, opcode == 0xAA), false)), at)
    else Err(UnsupportedOpcode, at)
  }

  predicate IsAccumulatorImmediate(opcode: byte) {
    opcode == 0xA8 || opcode == 0xA9 || (opcode < 0x40 && (opcode % 8 == 4 || opcode % 8 == 5))
  }

  predicate IsArithmeticModrm(opcode: byte) {
    opcode < 0x40 && opcode % 8 < 4
  }

  function Primary(b: seq<byte>, at: nat, p: Prefixes, opcode: byte): (r: Parsed<Instruction>)
    ensures r.End() >= at
    ensures r.Ok? ==> SegmentsAre(r.value, p)
  {
    if opcode == 0xDB then
      var (v, at1) :- ByteAt(b, at);
      if v == 0xE3 then Ok(Plain(Fninit), at1) else Err(UnsupportedOpcode, at1)
    else if opcode == 0x63 then
      var (f, at1) :- ModrmSized(b, at, p, Dword, SizeFor(p, false));
      Ok(With2(Movsx, f.reg, f.rm), at1)
    else if opcode == 0x68 then
      var (v, at1) :- ImmAt(b, at, Dword);
      Ok(With1(Push, Imm(v, Dword)), at1)
    else if opcode == 0x69 || opcode == 0x6B then ImulImmediate(b, at, p, opcode)
    else if opcode == 0x6A then
      var (v, at1) :- ImmAt(b, at, Byte);
      Ok(With1(Push, Imm(v, Byte)), at1)
    else if 0x70 <= opcode <= 0x7F then Relative(b, at, JumpCondition(ConditionFromCode(opcode)), Byte)
    else if opcode == 0xE8 then Relative(b, at, Call, Dword)
    else if opcode == 0xE9 then Relative(b, at, Jump, Dword)
    else if opcode == 0xEB then Relative(b, at, Jump, Byte)
    else if opcode == 0xE4 || opcode == 0xE5 then PortImmediate(b, at, p, In, opcode % 2 == 1)
    else if opcode == 0xE6 || opcode == 0xE7 then PortImmediate(b, at, p, Out, opcode % 2 == 1)
    else if 0xB0 <= opcode <= 0xB7 then
      var (v, at1) :- ImmAt(b, at, Byte);
      Ok(With2(Mov, RegisterOperand(p, opcode % 8, p.RexB(), Byte), Imm(v, Byte)), at1)
    else if 0xB8 <= opcode <= 0xBF then
      var size := SizeFor(p, false);
      var (v, at1) :- ImmAt(b, at, size);
      Ok(With2(Mov, RegisterOperand(p, opcode % 8, p.RexB(), size), Imm(v, size)), at1)
    else if 0x88 <= opcode <= 0x8B then BinaryModrm(b, at, p, Mov, opcode)
    else if opcode == 0x8C || opcode == 0x8E then SegmentMove(b, at, p, opcode)
    else if opcode == 0x86 || opcode == 0x87 then BinaryModrm(b, at, p, Xchg, opcode - 0x86)
    else if opcode == 0x8D then BinaryModrm(b, at, p, Lea, 0x8B)
    else if IsAccumulatorImmediate(opcode) then AccumulatorImmediate(b, at, p, opcode)
    else if IsArithmeticModrm(opcode) then BinaryModrm(b, at, p, GroupOneMnemonic(opcode / 8), opcode)
    else if opcode == 0x84 || opcode == 0x85 then BinaryModrm(b, at, p, Test, opcode - 0x84)
    else if opcode == 0x80 || opcode == 0x81 || opcode == 0x83 then GroupImmediate(b, at, p, opcode)
    else if opcode == 0xC0 || opcode == 0xC1 || 0xD0 <= opcode <= 0xD3 then GroupTwo(b, at, p, opcode)
    else if opcode == 0xC6 || opcode == 0xC7 then MovImmediate(b, at, p, opcode)
    else if opcode == 0xF6 || opcode == 0xF7 then GroupThree(b, at, p, opcode)
    else if opcode == 0xFE || opcode == 0xFF then GroupFive(b, at, p, opcode)
    else if opcode == 0x0F then Secondary(b, at, p)
    else PrimaryFixed(at, p, opcode)
  }

  /** The two-byte map's opcodes that take no further bytes. */
  function SecondaryFixed(at: nat, p: Prefixes, opcode: byte): (r: Parsed<Instruction>)
    ensures r.End() == at
    ensures r.Ok? ==> SegmentsAre(r.value, p)
  {
    if opcode == 0x05 then Ok(Plain(Syscall), at)
    else if opcode == 0x06 then Ok(Plain(Clts), at)
    else if opcode == 0x07 then Ok(Plain(Sysret), at)
    else if opcode == 0x09 then Ok(Plain(Wbinvd), at)
    else if opcode == 0x31 then Ok(Plain(Rdtsc), at)
    else if opcode == 0x32 then Ok(Plain(Rdmsr), at)
    else if opcode == 0x30 then Ok(Plain(Wrmsr), at)
    else if opcode == 0xA2 then Ok(Plain(Cpuid), at)
    else if 0xC8 <= opcode <= 0xCF then
      Ok(With1(Bswap, RegisterOperand(p, opcode % 8, p.RexB(), SizeFor(p, false))), at)
    else Err(UnsupportedOpcode, at)
  }

  function ShiftDouble(b: seq<byte>, at: nat, p: Prefixes): (r: Parsed<Instruction>)
    ensures r.End() >= at
    ensures r.Ok? ==> SegmentsAre(r.value, p)
  {
    var size := SizeFor(p, false);
    var (f, at1) :- ModrmSized(b, at, p, size, size);
    var (v, at2) :- ImmAt(b, at1, Byte);
    Ok(With3(Shld, f.rm, f.reg, Imm(v, Byte)), at2)
  }

  function BitTestImmediate(b: seq<byte>, at: nat, p: Prefixes): (r: Parsed<Instruction>)
    ensures r.End() >= at
    ensures r.Ok? ==> SegmentsAre(r.value, p)
  {
    var size := SizeFor(p, false);
    var (f, at1) :- ModrmSized(b, at, p, size, size);
    if f.field < 4 then Err(InvalidEncoding, at1)
    else
      var mnemonic := match f.field case 4 => Bt case 5 => Bts case 6 => Btr case _ => Btc;
      var (v, at2) :- ImmAt(b, at1, Byte);
      Ok(With2(mnemonic, f.rm, Imm(v, Byte)), at2)
  }

  function StateGroup(b: seq<byte>, at: nat, p: Prefixes): (r: Parsed<Instruction>)
    ensures r.End() >= at
    ensures r.Ok? ==> SegmentsAre(r.value, p)
  {
    var (f, at1) :- ModrmSized(b, at, p, Oword, Oword);
    if f.rm.Mem? && f.field == 0 then Ok(With1(Fxsave, f.rm), at1)
    else if f.rm.Mem? && f.field == 1 then Ok(With1(Fxrstor, f.rm), at1)
    else if f.rm.Reg? && f.field >= 5 then Ok(Plain(Fence), at1)
    else Err(UnsupportedOpcode, at1)
  }

  function SystemGroup(b: seq<byte>, at: nat, p: Prefixes): (r: Parsed<Instruction>)
    ensures r.End() >= at
    ensures r.Ok? ==> SegmentsAre(r.value, p)
  {
    if at >= |b| then Err(Truncated, at)
    else if b[at] == 0xF8 then Ok(Plain(Swapgs), at + 1)
    else
      var (f, at1) :- ModrmSized(b, at, p, Qword, Qword);
      if f.field == 2 then Ok(With1(Lgdt, f.rm), at1)
      else if f.field == 3 then Ok(With1(Lidt, f.rm), at1)
      else if f.field == 7 then Ok(With1(Invlpg, f.rm), at1)
      else Err(InvalidEncoding, at1)
  }

  function ControlMove(b: seq<byte>, at: nat, p: Prefixes, opcode: byte): (r: Parsed<Instruction>)
    ensures r.End() >= at
    ensures r.Ok? ==> SegmentsAre(r.value, p)
  {
    var (v, at1) :- ByteAt(b, at);
    if v / 64 != 3 then Err(InvalidEncoding, at1)
    else
      var general := RegisterOperand(p, v % 8, p.RexB(), Qword);
      var control := Control(v / 8 % 8 + 8 * p.RexR());
      if opcode == 0x20 then Ok(With2(Mov, general, control), at1)
      else Ok(With2(Mov, control, general), at1)
  }

  /** Two-byte opcodes whose only further bytes are ModRM, SIB and displacement. */
  function SecondaryModrm(b: seq<byte>, at: nat, p: Prefixes, opcode: byte): (r: Parsed<Instruction>)
    ensures r.End() >= at
    ensures r.Ok? ==> SegmentsAre(r.value, p)
  {
    var size := SizeFor(p, false);
    var rmSize :=
      if 0x90 <= opcode <= 0x9F || opcode == 0xB6 || opcode == 0xBE then Byte
      else if opcode == 0xB7 || opcode == 0xBF || opcode == 0x00 then Word
      else size;
    var regSize := if 0x90 <= opcode <= 0x9F then Byte else if opcode == 0x00 then Word else size;
    var (f, at1) :- ModrmSized(b, at, p, rmSize, regSize);
    if opcode == 0xA3 then Ok(With2(Bt, f.rm, f.reg), at1)
    else if opcode == 0xAB then Ok(With2(Bts, f.rm, f.reg), at1)
    else if opcode == 0xB3 then Ok(With2(Btr, f.rm, f.reg), at1)
    else if opcode == 0xBB then Ok(With2(Btc, f.rm, f.reg), at1)
    else if opcode == 0x1F then Ok(Plain(Nop), at1)
    else if opcode == 0xAF then Ok(With2(Imul, f.reg, f.rm), at1)
    else if opcode == 0xBC then Ok(With2(Bsf, f.reg, f.rm), at1)
    else if opcode == 0xBD then Ok(With2(Bsr, f.reg, f.rm), at1)
    else if 0x40 <= opcode <= 0x4F then Ok(With2(MoveCondition(ConditionFromCode(opcode)), f.reg, f.rm), at1)
    else if 0x90 <= opcode <= 0x9F then Ok(With1(SetCondition(ConditionFromCode(opcode)), f.rm), at1)
    else if opcode == 0xB6 || opcode == 0xB7 then Ok(With2(Movzx, f.reg, f.rm), at1)
    else if opcode == 0xBE || opcode == 0xBF then Ok(With2(Movsx, f.reg, f.rm), at1)
    else if opcode == 0x00 && f.field == 3 then Ok(With1(Ltr, f.rm), at1)
    else Err(UnsupportedOpcode, at1)
  }

  predicate IsSecondaryModrm(opcode: byte) {
    || opcode == 0xA3 || opcode == 0xAB || opcode == 0xB3 || opcode == 0xBB || opcode == 0x1F
    || opcode == 0xAF || opcode == 0xBC || opcode == 0xBD || 0x40 <= opcode <= 0x4F || 0x90 <= opcode <= 0x9F
    || opcode == 0xB6 || opcode == 0xB7 || opcode == 0xBE || opcode == 0xBF || opcode == 0x00
  }

  function Secondary(b: seq<byte>, at: nat, p: Prefixes): (r: Parsed<Instruction>)
    ensures r.End() >= at
    ensures r.Ok? ==> SegmentsAre(r.value, p)
  {
    var (opcode, at1) :- ByteAt(b, at);
    if opcode == 0xA4 then ShiftDouble(b, at1, p)
    else if opcode == 0xBA then BitTestImmediate(b, at1, p)
    else if opcode == 0xAE then StateGroup(b, at1, p)
    else if opcode == 0xB0 || opcode == 0xB1 then BinaryModrm(b, at1, p, Cmpxchg, opcode)
    else if opcode == 0xC0 || opcode == 0xC1 then BinaryModrm(b, at1, p, Xadd, opcode - 0xC0)
    else if 0x80 <= opcode <= 0x8F then Relative(b, at1, JumpCondition(ConditionFromCode(opcode)), Dword)
    else if opcode == 0x01 then SystemGroup(b, at1, p)
    else if opcode == 0x20 || opcode == 0x22 then ControlMove(b, at1, p, opcode)
    else if IsSecondaryModrm(opcode) then SecondaryModrm(b, at1, p, opcode)
    else SecondaryFixed(at1, p, opcode)
  }

  function Decode(b: seq<byte>): (r: Parsed<Instruction>)
    ensures r.Ok? ==> 1 <= r.next == r.value.length <= 15
    ensures r.Ok? ==> LegalPrefixes(r.value.prefixes) && SegmentsAre(r.value, r.value.prefixes)
  {
    var (p, at) :- ReadPrefixes(b, 0, NO_PREFIXES);
    var (opcode, at1) :- ByteAt(b, at);
    var (i, at2) :- Primary(b, at1, p, opcode);
    if at2 > 15 then Err(TooLong, at2)
    else Ok(i.(prefixes := p, length := at2), at2)
  }
}
