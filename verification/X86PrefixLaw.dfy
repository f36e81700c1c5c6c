/**
 The prefix law of the decoder: an outcome that is not Truncated depends on exactly the bytes up
 to its end, and every shorter input is Truncated. Streaming decoders rely on it.
 */
module X86PrefixLaw {
  import opened Bytes
  import opened X86
  import opened X86Decode

  /** How the outcome on the first n bytes relates to the outcome on the whole input. */
  ghost predicate Law<T(!new)>(short: Parsed<T>, long: Parsed<T>, n: nat) {
    if long.IsTruncated() then short.IsTruncated()
    else if long.End() <= n then short == long
    else short.IsTruncated()
  }

  lemma ImmLaw(b: seq<byte>, n: nat, at: nat, size: OperandSize)
    requires at <= n <= |b|
    ensures Law(ImmAt(b[..n], at, size), ImmAt(b, at, size), n)
  {
    if at + size.Bytes() <= n {
      assert b[..n][at..at + size.Bytes()] == b[at..at + size.Bytes()];
    }
  }

  lemma SignedLaw(b: seq<byte>, n: nat, at: nat, size: OperandSize)
    requires at <= n <= |b|
    ensures Law(SignedAt(b[..n], at, size), SignedAt(b, at, size), n)
  {
    ImmLaw(b, n, at, size);
  }

  lemma PrefixStaysLegal(p: Prefixes, v: byte)
    requires LegalPrefixes(p) && IsPrefix(v)
    ensures LegalPrefixes(AddPrefix(p, v))
  {
  }

  lemma {:induction false} ReadPrefixesLaw(b: seq<byte>, n: nat, at: nat, p: Prefixes)
    requires at < 15 && LegalPrefixes(p) && at <= n <= |b|
    ensures var long := ReadPrefixes(b, at, p);
            var short := ReadPrefixes(b[..n], at, p);
            if long.End() <= n then short == long else short.Ok? && short.next == n
    decreases 15 - at
  {
    hide IsPrefix, AddPrefix, LegalPrefixes;
    if at < |b| && IsPrefix(b[at]) {
      PrefixStaysLegal(p, b[at]);
    }
    if at < |b| && IsPrefix(b[at]) && at + 1 < 15 {
      if at < n {
        assert b[..n][at] == b[at];
        ReadPrefixesLaw(b, n, at + 1, AddPrefix(p, b[at]));
      }
    } else if at < n {
      assert b[..n][at] == b[at];
    }
  }

  lemma SibLaw(b: seq<byte>, n: nat, at: nat, p: Prefixes, mode: nat, memory: MemoryOperand)
    requires at <= n <= |b|
    ensures Law(SibOperand(b[..n], at, p, mode, memory), SibOperand(b, at, p, mode, memory), n)
  {
    if at < n {
      SignedLaw(b, n, at + 1, Dword);
    }
  }

  lemma AddressLaw(b: seq<byte>, n: nat, at: nat, p: Prefixes, mode: nat, field: nat, size: OperandSize)
    requires at <= n <= |b| && field < 8
    ensures Law(AddressOperand(b[..n], at, p, mode, field, size), AddressOperand(b, at, p, mode, field, size), n)
  {
    var memory := MemoryOperand(None, None, 1, 0, false, p.segment, size);
    SibLaw(b, n, at, p, mode, memory);
    SignedLaw(b, n, at, Dword);
  }

  lemma DisplacementLaw(b: seq<byte>, n: nat, at: nat, mode: nat, m: MemoryOperand)
    requires at <= n <= |b| && (mode != 0 ==> m.displacement == 0)
    ensures Law(WithDisplacement(b[..n], at, mode, m), WithDisplacement(b, at, mode, m), n)
  {
    SignedLaw(b, n, at, Byte);
    SignedLaw(b, n, at, Dword);
  }

  lemma ModrmLaw(b: seq<byte>, n: nat, at: nat, p: Prefixes, rmSize: OperandSize, regSize: OperandSize)
    requires at <= n <= |b|
    ensures Law(ModrmSized(b[..n], at, p, rmSize, regSize), ModrmSized(b, at, p, rmSize, regSize), n)
  {
    if at < n {
      var v := b[at];
      assert b[..n][at] == v;
      var mode, field := v / 64, v % 8;
      if mode != 3 {
        AddressLaw(b, n, at + 1, p, mode, field, rmSize);
        var a := AddressOperand(b, at + 1, p, mode, field, rmSize);
        if a.Ok? && a.next <= n {
          DisplacementLaw(b, n, a.next, mode, a.value);
        }
      }
    }
  }

  /** A ModRM operand followed by an immediate. */
  lemma ModrmImmLaw(b: seq<byte>, n: nat, at: nat, p: Prefixes, size: OperandSize, immediate: OperandSize)
    requires at <= n <= |b|
    ensures Law(ModrmSized(b[..n], at, p, size, size), ModrmSized(b, at, p, size, size), n)
    ensures var f := ModrmSized(b, at, p, size, size);
            f.Ok? && f.next <= n ==> Law(ImmAt(b[..n], f.next, immediate), ImmAt(b, f.next, immediate), n)
  {
    ModrmLaw(b, n, at, p, size, size);
    var f := ModrmSized(b, at, p, size, size);
    if f.Ok? && f.next <= n {
      ImmLaw(b, n, f.next, immediate);
    }
  }

  lemma BinaryLaw(b: seq<byte>, n: nat, at: nat, p: Prefixes, mnemonic: Mnemonic, opcode: byte)
    requires at <= n <= |b|
    ensures Law(BinaryModrm(b[..n], at, p, mnemonic, opcode), BinaryModrm(b, at, p, mnemonic, opcode), n)
  {
    hide ModrmSized;
    var size := SizeFor(p, opcode % 2 == 0);
    ModrmLaw(b, n, at, p, size, size);
  }

  lemma RelativeLaw(b: seq<byte>, n: nat, at: nat, mnemonic: Mnemonic, size: OperandSize)
    requires at <= n <= |b|
    ensures Law(Relative(b[..n], at, mnemonic, size), Relative(b, at, mnemonic, size), n)
  {
    SignedLaw(b, n, at, size);
  }

  lemma AccumulatorImmediateLaw(b: seq<byte>, n: nat, at: nat, p: Prefixes, opcode: byte)
    requires at <= n <= |b|
    ensures Law(AccumulatorImmediate(b[..n], at, p, opcode), AccumulatorImmediate(b, at, p, opcode), n)
  {
    hide ModrmSized, ImmAt;
    ImmLaw(b, n, at, ImmediateSize(SizeFor(p, opcode % 2 == 0)));
  }

  lemma SegmentMoveLaw(b: seq<byte>, n: nat, at: nat, p: Prefixes, opcode: byte)
    requires at <= n <= |b|
    ensures Law(SegmentMove(b[..n], at, p, opcode), SegmentMove(b, at, p, opcode), n)
  {
    hide ModrmSized, ImmAt;
    ModrmLaw(b, n, at, p, Word, Word);
  }

  lemma ImulImmediateLaw(b: seq<byte>, n: nat, at: nat, p: Prefixes, opcode: byte)
    requires at <= n <= |b|
    ensures Law(ImulImmediate(b[..n], at, p, opcode), ImulImmediate(b, at, p, opcode), n)
  {
    hide ModrmSized, ImmAt;
    var size := SizeFor(p, false);
    ModrmImmLaw(b, n, at, p, size, if opcode == 0x6B then Byte else ImmediateSize(size));
  }

  lemma GroupImmediateLaw(b: seq<byte>, n: nat, at: nat, p: Prefixes, opcode: byte)
    requires at <= n <= |b|
    ensures Law(GroupImmediate(b[..n], at, p, opcode), GroupImmediate(b, at, p, opcode), n)
  {
    hide ModrmSized, ImmAt;
    var size := SizeFor(p, opcode == 0x80);
    ModrmImmLaw(b, n, at, p, size, if opcode == 0x80 || opcode == 0x83 then Byte else ImmediateSize(size));
  }

  lemma MovImmediateLaw(b: seq<byte>, n: nat, at: nat, p: Prefixes, opcode: byte)
    requires at <= n <= |b|
    ensures Law(MovImmediate(b[..n], at, p, opcode), MovImmediate(b, at, p, opcode), n)
  {
    hide ModrmSized, ImmAt;
    var size := SizeFor(p, opcode == 0xC6);
    ModrmImmLaw(b, n, at, p, size, ImmediateSize(size));
  }

  lemma GroupTwoLaw(b: seq<byte>, n: nat, at: nat, p: Prefixes, opcode: byte)
    requires at <= n <= |b|
    ensures Law(GroupTwo(b[..n], at, p, opcode), GroupTwo(b, at, p, opcode), n)
  {
    hide ModrmSized, ImmAt;
    ModrmImmLaw(b, n, at, p, SizeFor(p, opcode == 0xC0 || opcode == 0xD0 || opcode == 0xD2), Byte);
  }

  lemma GroupThreeLaw(b: seq<byte>, n: nat, at: nat, p: Prefixes, opcode: byte)
    requires at <= n <= |b|
    ensures Law(GroupThree(b[..n], at, p, opcode), GroupThree(b, at, p, opcode), n)
  {
    hide ModrmSized, ImmAt;
    var size := SizeFor(p, opcode == 0xF6);
    ModrmImmLaw(b, n, at, p, size, ImmediateSize(size));
  }

  lemma GroupFiveLaw(b: seq<byte>, n: nat, at: nat, p: Prefixes, opcode: byte)
    requires at <= n <= |b|
    ensures Law(GroupFive(b[..n], at, p, opcode), GroupFive(b, at, p, opcode), n)
  {
    hide ModrmSized, ImmAt;
    var size := SizeFor(p, opcode == 0xFE);
    ModrmLaw(b, n, at, p, size, size);
  }

  lemma SecondaryGroupLaws(b: seq<byte>, n: nat, at: nat, p: Prefixes, opcode: byte)
    requires at <= n <= |b|
    ensures Law(ShiftDouble(b[..n], at, p), ShiftDouble(b, at, p), n)
    ensures Law(BitTestImmediate(b[..n], at, p), BitTestImmediate(b, at, p), n)
    ensures Law(StateGroup(b[..n], at, p), StateGroup(b, at, p), n)
    ensures Law(SystemGroup(b[..n], at, p), SystemGroup(b, at, p), n)
    ensures Law(ControlMove(b[..n], at, p, opcode), ControlMove(b, at, p, opcode), n)
  {
    hide ModrmSized, ImmAt;
    var size := SizeFor(p, false);
    ModrmImmLaw(b, n, at, p, size, Byte);
    ModrmLaw(b, n, at, p, Oword, Oword);
    ModrmLaw(b, n, at, p, Qword, Qword);
    if at < n {
      assert b[..n][at] == b[at];
    }
  }

  lemma SecondaryModrmLaw(b: seq<byte>, n: nat, at: nat, p: Prefixes, opcode: byte)
    requires at <= n <= |b|
    ensures Law(SecondaryModrm(b[..n], at, p, opcode), SecondaryModrm(b, at, p, opcode), n)
  {
    hide ModrmSized;
    var size := SizeFor(p, false);
    var rmSize :=
      if 0x90 <= opcode <= 0x9F || opcode == 0xB6 || opcode == 0xBE then Byte
      else if opcode == 0xB7 || opcode == 0xBF || opcode == 0x00 then Word
      else size;
    var regSize := if 0x90 <= opcode <= 0x9F then Byte else if opcode == 0x00 then Word else size;
    ModrmLaw(b, n, at, p, rmSize, regSize);
  }

  lemma SecondaryLaw(b: seq<byte>, n: nat, at: nat, p: Prefixes)
    requires at <= n <= |b|
    ensures Law(Secondary(b[..n], at, p), Secondary(b, at, p), n)
  {
    hide ShiftDouble, BitTestImmediate, StateGroup, BinaryModrm, Relative, SystemGroup, ControlMove, SecondaryModrm;
    if at < n {
      var opcode := b[at];
      assert b[..n][at] == opcode;
      SecondaryGroupLaws(b, n, at + 1, p, opcode);
      SecondaryModrmLaw(b, n, at + 1, p, opcode);
      RelativeLaw(b, n, at + 1, JumpCondition(ConditionFromCode(opcode)), Dword);
      BinaryLaw(b, n, at + 1, p, Cmpxchg, opcode);
      if opcode == 0xC0 || opcode == 0xC1 {
        BinaryLaw(b, n, at + 1, p, Xadd, opcode - 0xC0);
      }
    }
  }

  lemma PrimaryLaw(b: seq<byte>, n: nat, at: nat, p: Prefixes, opcode: byte)
    requires at <= n <= |b|
    ensures Law(Primary(b[..n], at, p, opcode), Primary(b, at, p, opcode), n)
  {
    hide ModrmSized, ImmAt, BinaryModrm, Relative, Secondary, AccumulatorImmediate, SegmentMove, ImulImmediate,
         GroupImmediate, MovImmediate, GroupTwo, GroupThree, GroupFive;
    if opcode == 0xDB {
      if at < n { assert b[..n][at] == b[at]; }
    } else if opcode == 0x63 {
      ModrmLaw(b, n, at, p, Dword, SizeFor(p, false));
    } else if 0x70 <= opcode <= 0x7F || 0xE8 <= opcode <= 0xEB {
      RelativeLaw(b, n, at, JumpCondition(ConditionFromCode(opcode)), Byte);
      RelativeLaw(b, n, at, Call, Dword);
      RelativeLaw(b, n, at, Jump, Dword);
      RelativeLaw(b, n, at, Jump, Byte);
    } else if 0xB0 <= opcode <= 0xBF || 0xE4 <= opcode <= 0xE7 || opcode == 0x68 || opcode == 0x6A {
      ImmLaw(b, n, at, Byte);
      ImmLaw(b, n, at, Dword);
      ImmLaw(b, n, at, SizeFor(p, false));
    } else if 0x84 <= opcode <= 0x8B || opcode == 0x8D || IsArithmeticModrm(opcode) {
      BinaryLaws(b, n, at, p, opcode);
    } else if opcode == 0x0F {
      SecondaryLaw(b, n, at, p);
    } else if opcode == 0xC0 || opcode == 0xC1 || 0xD0 <= opcode <= 0xD3 {
      GroupTwoLaw(b, n, at, p, opcode);
    } else if opcode == 0xF6 || opcode == 0xF7 {
      GroupThreeLaw(b, n, at, p, opcode);
    } else if opcode == 0xFE || opcode == 0xFF {
      GroupFiveLaw(b, n, at, p, opcode);
    } else if opcode == 0xC6 || opcode == 0xC7 {
      MovImmediateLaw(b, n, at, p, opcode);
    } else if 0x80 <= opcode <= 0x83 {
      GroupImmediateLaw(b, n, at, p, opcode);
    } else if opcode == 0x69 || opcode == 0x6B {
      ImulImmediateLaw(b, n, at, p, opcode);
    } else if opcode == 0x8C || opcode == 0x8E {
      SegmentMoveLaw(b, n, at, p, opcode);
    } else {
      AccumulatorImmediateLaw(b, n, at, p, opcode);
    }
  }

  lemma BinaryLaws(b: seq<byte>, n: nat, at: nat, p: Prefixes, opcode: byte)
    requires at <= n <= |b|
    requires 0x84 <= opcode <= 0x8B || opcode == 0x8D || IsArithmeticModrm(opcode)
    ensures Law(Primary(b[..n], at, p, opcode), Primary(b, at, p, opcode), n)
  {
    hide ModrmSized, ImmAt, BinaryModrm, Relative, Secondary, AccumulatorImmediate, SegmentMove, ImulImmediate,
         GroupImmediate, MovImmediate, GroupTwo, GroupThree, GroupFive;
    if opcode < 0x40 {
      BinaryLaw(b, n, at, p, GroupOneMnemonic(opcode / 8), opcode);
    } else if opcode == 0x84 || opcode == 0x85 {
      BinaryLaw(b, n, at, p, Test, opcode - 0x84);
    } else if opcode == 0x86 || opcode == 0x87 {
      BinaryLaw(b, n, at, p, Xchg, opcode - 0x86);
    } else if opcode == 0x8D {
      BinaryLaw(b, n, at, p, Lea, 0x8B);
    } else {
      BinaryLaw(b, n, at, p, Mov, opcode);
    }
  }

  /** The prefix law of the whole decoder. */
  lemma DecodeLaw(b: seq<byte>, n: nat)
    requires n <= |b|
    ensures Law(Decode(b[..n]), Decode(b), n)
  {
    hide Primary, ReadPrefixes;
    ReadPrefixesLaw(b, n, 0, NO_PREFIXES);
    var p := ReadPrefixes(b, 0, NO_PREFIXES);
    if p.Ok? && p.next < n {
      assert b[..n][p.next] == b[p.next];
      PrimaryLaw(b, n, p.next + 1, p.value, b[p.next]);
    }
  }

  /** A successful decode: 1 to 15 bytes long, and every strict prefix of it is Truncated. */
  lemma StrictPrefixTruncated(b: seq<byte>, n: nat)
    requires Decode(b).Ok? && n < Decode(b).value.length
    ensures 1 <= Decode(b).value.length <= 15 && Decode(b).value.length <= |b|
    ensures Decode(b[..n]).IsTruncated()
  {
    OutcomeWithinInput(b);
    DecodeLaw(b, n);
  }

  /** Outcomes that are not Truncated are unchanged by any bytes that follow. */
  lemma ExtensionStable(b: seq<byte>, tail: seq<byte>)
    requires !Decode(b).IsTruncated()
    ensures Decode(b + tail) == Decode(b)
  {
    assert (b + tail)[..|b|] == b;
    DecodeLaw(b + tail, |b|);
  }

  /** An outcome that is not Truncated only depends on bytes that are there. */
  lemma OutcomeWithinInput(b: seq<byte>)
    requires !Decode(b).IsTruncated()
    ensures Decode(b).End() <= |b|
  {
    assert b[..|b|] == b;
    DecodeLaw(b, |b|);
  }
}
