/**
 The decoder's cursor and loops, and the interpreter's byte-at-a-time instruction fetch.
 */
module X86DecodeLoop {
  import opened Bytes
  import opened X86
  import opened X86Decode
  import X86PrefixLaw

  lemma {:induction false} LeValueSnoc(s: seq<byte>, x: byte)
    ensures LeValue(s + [x]) == LeValue(s) + x * Pow256(|s|)
  {
    if s == [] {
      assert [] + [x] == [x];
      assert LeValue([x]) == x + 256 * LeValue([]);
    } else {
      assert (s + [x])[1..] == s[1..] + [x];
      LeValueSnoc(s[1..], x);
      var rest := Pow256(|s| - 1);
      assert 256 * (x * rest) == x * (256 * rest);
    }
  }

  /** The source's `Decoder`: the input, a cursor into it and the prefixes read so far. */
  class Decoder {
    const bytes: seq<byte>
    var cursor: nat
    var prefixes: Prefixes

    constructor (bytes: seq<byte>)
      ensures this.bytes == bytes && cursor == 0 && prefixes == NO_PREFIXES
    {
      this.bytes := bytes;
      cursor := 0;
      prefixes := NO_PREFIXES;
    }

    method Byte() returns (r: Parsed<byte>)
      modifies this`cursor
      ensures r == ByteAt(bytes, old(cursor))
      ensures cursor == if r.Ok? then r.next else old(cursor)
    {
      if cursor < |bytes| {
        cursor := cursor + 1;
        r := Ok(bytes[cursor - 1], cursor);
      } else {
        r := Err(Truncated, cursor);
      }
    }

    /** Reads a little-endian value byte by byte; nothing is consumed when it does not fit. */
    method Imm(size: OperandSize) returns (r: Parsed<u64>)
      modifies this`cursor
      ensures r == ImmAt(bytes, old(cursor), size)
      ensures cursor == if r.Ok? then r.next else old(cursor)
    {
      var start := cursor;
      var count := size.Bytes();
      if count > 8 || start + count > |bytes| {
        return Err(Truncated, start);
      }
      var value: nat, weight: nat := 0, 1;
      for index := 0 to count
        invariant start + count <= |bytes| && cursor == start + index
        invariant value == LeValue(bytes[start..start + index]) && weight == Pow256(index)
      {
        var next := Byte();
        assert bytes[start..start + index + 1] == bytes[start..start + index] + [bytes[start + index]];
        LeValueSnoc(bytes[start..start + index], bytes[start + index]);
        value := value + next.value * weight;
        weight := 256 * weight;
      }
      LeValueBound(bytes[start..start + count]);
      Pow256Values();
      r := Ok(value, cursor);
    }

    method ReadAllPrefixes() returns (r: Parsed<Prefixes>)
      requires cursor == 0 && prefixes == NO_PREFIXES
      modifies this
      ensures r == ReadPrefixes(bytes, 0, NO_PREFIXES)
      ensures cursor == r.End()
      ensures r.Ok? ==> prefixes == r.value
    {
      while cursor < |bytes| && IsPrefix(bytes[cursor])
        invariant cursor < 15 && LegalPrefixes(prefixes)
        invariant ReadPrefixes(bytes, 0, NO_PREFIXES) == ReadPrefixes(bytes, cursor, prefixes)
      {
        prefixes := AddPrefix(prefixes, bytes[cursor]);
        cursor := cursor + 1;
        if cursor >= 15 {
          return Err(TooLong, cursor);
        }
      }
      r := Ok(prefixes, cursor);
    }

    /** One whole instruction: the loops above, then the opcode tables. */
    method Run() returns (r: Parsed<Instruction>)
      requires cursor == 0 && prefixes == NO_PREFIXES
      modifies this
      ensures r == Decode(bytes)
      ensures r.Ok? ==> cursor == r.value.length && prefixes == r.value.prefixes
    {
      hide Primary, ReadPrefixes;
      var p := ReadAllPrefixes();
      if p.Err? {
        return Err(p.kind, p.offset);
      }
      var opcode := Byte();
      if opcode.Err? {
        return Err(opcode.kind, opcode.offset);
      }
      var i := Primary(bytes, cursor, prefixes, opcode.value);
      if i.Err? {
        return i;
      }
      cursor := i.next;
      if cursor > 15 {
        return Err(TooLong, cursor);
      }
      r := Ok(i.value.(prefixes := prefixes, length := cursor), cursor);
    }
  }

  // ---------------------------------------------------------------- instruction fetch

  const WINDOW: nat := 15

  /** One byte of the instruction stream, or a memory fault at it. */
  type Stream = nat -> Option<byte>

  datatype Fetched =
    | Complete(instruction: Instruction)
    | DecodeFault(kind: ErrorKind, offset: nat)
    | MemoryFault(at: nat)

  /** The readable bytes at the start of the stream, at most n of them. */
  function Readable(stream: Stream, n: nat): (r: seq<byte>)
    ensures |r| <= n
    ensures forall k :: 0 <= k < |r| ==> stream(k) == Some(r[k])
    ensures |r| < n ==> stream(|r|).None?
  {
    if n == 0 then []
    else
      var r := Readable(stream, n - 1);
      if |r| == n - 1 && stream(n - 1).Some? then r + [stream(n - 1).value] else r
  }

  /** Decoding the whole readable window at once. */
  function WindowFetch(stream: Stream): Fetched {
    var window := Readable(stream, WINDOW);
    var r := Decode(window);
    if r.Ok? then Complete(r.value)
    else if r.kind == Truncated && |window| < WINDOW then MemoryFault(|window|)
    else DecodeFault(r.kind, r.offset)
  }

  /** The first bytes of a readable prefix are a readable prefix. */
  lemma {:induction false} ReadablePrefix(stream: Stream, n: nat, m: nat)
    requires n <= m
    ensures Readable(stream, n) <= Readable(stream, m)
    ensures |Readable(stream, n)| == if |Readable(stream, m)| < n then |Readable(stream, m)| else n
  {
    if n >= m {
    } else {
      ReadablePrefix(stream, n, m - 1);
    }
  }

  /** The first byte at which decoding is no longer Truncated decides the whole window. */
  lemma FetchStops(stream: Stream, n: nat)
    requires 1 <= n <= WINDOW && |Readable(stream, n)| == n
    requires Decode(Readable(stream, n - 1)).IsTruncated()
    ensures var d := Decode(Readable(stream, n));
            && (d.Ok? ==> WindowFetch(stream) == Complete(d.value) && d.value.length == n)
            && (d.Err? && d.kind != Truncated ==> WindowFetch(stream) == DecodeFault(d.kind, d.offset) && d.offset == n)
            && (d.IsTruncated() && n == WINDOW ==> WindowFetch(stream) == DecodeFault(d.kind, d.offset))
  {
    hide Decode;
    var window, b := Readable(stream, WINDOW), Readable(stream, n);
    ReadablePrefix(stream, n, WINDOW);
    ReadablePrefix(stream, n - 1, n);
    if !Decode(b).IsTruncated() {
      assert window == b + window[n..];
      X86PrefixLaw.ExtensionStable(b, window[n..]);
      X86PrefixLaw.OutcomeWithinInput(b);
      assert b[..n - 1] == Readable(stream, n - 1);
      X86PrefixLaw.DecodeLaw(b, n - 1);
    }
  }

  lemma FetchFaults(stream: Stream, n: nat)
    requires n < WINDOW && |Readable(stream, n)| == n && stream(n).None?
    requires Decode(Readable(stream, n)).IsTruncated()
    ensures WindowFetch(stream) == MemoryFault(n)
  {
    hide Decode;
    ReadablePrefix(stream, n, WINDOW);
    assert Readable(stream, WINDOW) == Readable(stream, n);
  }

  /**
   The interpreter's fetch loop: read one byte, try to decode, and go on while Truncated. It
   gives what decoding the whole window would give, and a successful fetch reads exactly the
   instruction's bytes. The source also guards against a sixteenth byte; the loop invariant
   `loaded < 15` shows that guard is never taken.
   */
  method FetchInstruction(stream: Stream) returns (r: Fetched, loaded: nat)
    ensures r == WindowFetch(stream)
    ensures r.Complete? ==> loaded == r.instruction.length
    ensures r.MemoryFault? ==> loaded == r.at < WINDOW && stream(loaded).None?
    ensures r.DecodeFault? && r.kind != Truncated ==> loaded == r.offset
    ensures forall k :: 0 <= k < loaded ==> stream(k).Some?
  {
    EmptyTruncated();
    hide Decode, WindowFetch;
    var bytes: seq<byte> := [];
    loaded := 0;
    while true
      invariant loaded == |bytes| < WINDOW
      invariant bytes == Readable(stream, loaded)
      invariant Decode(bytes).IsTruncated()
      decreases WINDOW - loaded
    {
      var next := stream(loaded);
      if next.None? {
        FetchFaults(stream, loaded);
        return MemoryFault(loaded), loaded;
      }
      bytes := bytes + [next.value];
      loaded := loaded + 1;
      FetchStops(stream, loaded);
      var d := Decode(bytes);
      if d.Ok? {
        return Complete(d.value), loaded;
      } else if d.kind != Truncated || loaded == WINDOW {
        return DecodeFault(d.kind, d.offset), loaded;
      }
    }
  }

  lemma EmptyTruncated()
    ensures Decode([]).IsTruncated()
  {
  }
}
