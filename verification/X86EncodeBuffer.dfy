/** The encoder's bounded output buffer, written in place. */
module X86EncodeBuffer {
  import opened Bytes
  import opened X86
  import opened X86Encode
  import X86Decode
  import X86Encodable
  import X86RoundTrip

  datatype Encoded = Ok(length: nat) | Err(error: EncodeError)

  /** What encoding into a buffer of this length returns: running out of room hides a later error. */
  function Outcome(e: Emission, room: nat): Encoded {
    if |e.bytes| > room then Err(BufferTooSmall)
    else if e.stop.Some? then Err(e.stop.value)
    else Ok(|e.bytes|)
  }

  lemma OverwriteNext(bytes: seq<byte>, before: seq<byte>, index: nat)
    requires index < |bytes| && index < |before|
    ensures (bytes[..index] + before[index..])[index := bytes[index]] == bytes[..index + 1] + before[index + 1..]
  {
  }

  class Encoder {
    const output: array<byte>
    var cursor: nat

    ghost predicate Valid()
      reads this
    {
      cursor <= output.Length
    }

    constructor (output: array<byte>)
      ensures Valid() && this.output == output && cursor == 0
    {
      this.output := output;
      cursor := 0;
    }

    method Byte(value: byte) returns (ok: bool)
      requires Valid()
      modifies this`cursor, output
      ensures Valid()
      ensures ok <==> old(cursor) < output.Length
      ensures cursor == old(cursor) + (if ok then 1 else 0)
      ensures output[..] == if ok then old(output[..])[old(cursor) := value] else old(output[..])
    {
      ok := cursor < output.Length;
      if ok {
        output[cursor] := value;
        cursor := cursor + 1;
      }
    }

    /**
     Emits the bytes in order, one at a time, until the emission stops or the buffer is full:
     exactly the bytes that fit are written and nothing behind them is touched.
     */
    method Write(e: Emission) returns (r: Encoded)
      requires Valid() && cursor == 0
      modifies this`cursor, output
      ensures Valid()
      ensures r == Outcome(e, output.Length)
      ensures cursor == if |e.bytes| <= output.Length then |e.bytes| else output.Length
      ensures output[..] == e.bytes[..cursor] + old(output[..])[cursor..]
    {
      ghost var before := output[..];
      for index := 0 to |e.bytes|
        invariant Valid() && cursor == index
        invariant output[..] == e.bytes[..index] + before[index..]
      {
        var ok := Byte(e.bytes[index]);
        if !ok {
          return Err(BufferTooSmall);
        }
        OverwriteNext(e.bytes, before, index);
      }
      r := if e.stop.Some? then Err(e.stop.value) else Ok(cursor);
    }
  }

  /**
   Encoding in place. When it succeeds on a canonical instruction, decoding the buffer, with
   whatever it held behind the new bytes, gives the instruction back.
   */
  method EncodeInto(i: Instruction, output: array<byte>) returns (r: Encoded)
    modifies output
    ensures r == Outcome(Encode(i), output.Length)
    ensures r.Ok? <==> X86Encodable.Encodable(i) && X86Encodable.LengthOf(i) <= output.Length
    ensures r.Ok? ==> r.length == X86Encodable.LengthOf(i)
    ensures r.Err? ==> r.error == BufferTooSmall || Some(r.error) == X86Encodable.Refusal(i)
    ensures X86Encodable.Encodable(i) && r.Err? ==> r.error == BufferTooSmall
    ensures r.Ok? ==> r.length <= output.Length && output[..r.length] == Encode(i).bytes
    ensures r.Ok? ==> output[r.length..] == old(output[r.length..])
    ensures r.Ok? ==> (X86RoundTrip.Matches(X86Decode.Decode(output[..]), i, r.length) <==> X86RoundTrip.Canonical(i))
  {
    hide X86Decode.Decode, X86RoundTrip.Matches, X86RoundTrip.Canonical, Encode;
    X86Encodable.EncodeStops(i);
    if X86Encodable.Encodable(i) {
      X86Encodable.EncodeLength(i);
    }
    hide X86Encodable.Encodable, X86Encodable.LengthOf;
    var e := Encode(i);
    var encoder := new Encoder(output);
    r := encoder.Write(e);
    if r.Ok? {
      assert e.bytes[..|e.bytes|] == e.bytes;
      var tail := output[r.length..];
      assert output[..] == e.bytes + tail;
      X86RoundTrip.RoundTrip(i, tail);
    }
  }

  /** The loop that emits an immediate, shifting by a count that wraps at 64. */
  method ImmediateBytes(value: u64, size: OperandSize) returns (bytes: seq<byte>)
    ensures bytes == Immediate(value, size).bytes
    ensures size != Oword ==> LeValue(bytes) == value % size.Limit()
    ensures size == Oword ==> LeValue(bytes[..8]) == LeValue(bytes[8..]) == value
  {
    hide Pow256, LeBytes, LeValue;
    bytes := [];
    for index := 0 to size.Bytes()
      invariant bytes == Immediate(value, size).bytes[..index]
    {
      ImmediateByte(value, size, index);
      bytes := bytes + [value / Pow256(index % 8) % 256];
    }
    assert |Immediate(value, size).bytes| == size.Bytes();
    assert bytes == Immediate(value, size).bytes;
    LeRoundTrip(value, if size == Oword then 8 else size.Bytes());
    LimitOfSize(size);
    if size == Oword {
      assert bytes[..8] == bytes[8..] == LeBytes(value, 8);
    }
  }

  /** Each byte of an immediate is the value shifted by its place, modulo eight bytes. */
  lemma ImmediateByte(value: u64, size: OperandSize, index: nat)
    requires index < size.Bytes()
    ensures Immediate(value, size).bytes[index] == value / Pow256(index % 8) % 256
  {
    hide Pow256, LeBytes;
    LeByteAt(value, if size == Oword then 8 else size.Bytes(), index % 8);
  }

  lemma LimitOfSize(size: OperandSize)
    ensures Pow256(if size == Oword then 8 else size.Bytes()) == size.Limit()
  {
    Pow256Values();
  }
}
