/** The terminal line discipline as values: what each operation does to text, records and output. */
module Tty {
  import opened Bytes

  const EDIT_CAPACITY: nat := 1024
  const INPUT_CAPACITY: nat := 4096
  const RECORD_CAPACITY: nat := 64

  datatype Signal = Int | Quit | Tstp

  /** The flags and control characters that matter to input. */
  datatype Attributes = Attributes(
    icrnl: bool, isig: bool, icanon: bool, echo: bool, echoe: bool, echok: bool, echonl: bool,
    vintr: byte, vquit: byte, verase: byte, vkill: byte, veof: byte, veol: byte, vsusp: byte,
    vmin: byte, vtime: byte)

  datatype Record = Record(length: nat, eof: bool)
  datatype Key = Char(b: byte) | ArrowLeft | ArrowRight | Home | End | Delete
  type EditKey = k: Key | !k.Char? witness ArrowLeft

  /** A Unicode scalar value. */
  type Scalar = c: nat | c < 0x11_0000 && !(0xd800 <= c < 0xe000)

  /** What the keyboard reports: `code` names an editing key, `character` what the key types. */
  datatype KeyEvent = KeyEvent(code: Option<EditKey>, pressed: bool, character: Option<Scalar>, control: bool)

  function Utf8(c: Scalar): (r: seq<byte>)
    ensures c < 0x80 ==> r == [c]
    ensures c >= 0x80 ==> 2 <= |r| <= 4 && forall i :: 0 <= i < |r| ==> r[i] >= 0x80
  {
    if c < 0x80 then [c]
    else if c < 0x800 then [0xc0 + c / 0x40, 0x80 + c % 0x40]
    else if c < 0x1_0000 then [0xe0 + c / 0x1000, 0x80 + c / 0x40 % 0x40, 0x80 + c % 0x40]
    else [0xf0 + c / 0x4_0000, 0x80 + c / 0x1000 % 0x40, 0x80 + c / 0x40 % 0x40, 0x80 + c % 0x40]
  }

  function LowerCase(b: byte): byte { if 65 <= b <= 90 then b + 32 else b }

  /** The byte fed for a byte of a character: with control held, ASCII loses its high bits. */
  function Controlled(b: byte, control: bool): byte { if control && b < 128 then LowerCase(b) % 32 else b }

  /** The bytes a key event types. */
  function Typed(e: KeyEvent): (r: seq<byte>) {
    if e.character.None? then []
    else
      var bytes := Utf8(e.character.value);
      seq(|bytes|, i requires 0 <= i < |bytes| => Controlled(bytes[i], e.control))
  }

  /** The value of a continuation byte. */
  function Six(b: byte): int { b - 0x80 }

  /** The scalar value that bytes stand for under section 3 of RFC 3629, by the number of bytes. */
  function ScalarOf(r: seq<byte>): int
    requires 1 <= |r| <= 4
  {
    if |r| == 1 then r[0]
    else if |r| == 2 then (r[0] - 0xC0) * 0x40 + Six(r[1])
    else if |r| == 3 then (r[0] - 0xE0) * 0x1000 + Six(r[1]) * 0x40 + Six(r[2])
    else (r[0] - 0xF0) * 0x4_0000 + Six(r[1]) * 0x1000 + Six(r[2]) * 0x40 + Six(r[3])
  }

  /** Every character is typed as its own shortest sequence, with lead and continuation bytes in range. */
  lemma Utf8Exact(c: Scalar)
    ensures var r := Utf8(c);
            && |r| == (if c < 0x80 then 1 else if c < 0x800 then 2 else if c < 0x1_0000 then 3 else 4)
            && ScalarOf(r) == c
            && (|r| > 1 ==> (if |r| == 2 then 0xC2 <= r[0] < 0xE0 else if |r| == 3 then 0xE0 <= r[0] < 0xF0
                             else 0xF0 <= r[0] < 0xF5))
            && forall i :: 1 <= i < |r| ==> 0x80 <= r[i] < 0xC0
  {
    assert c == c / 0x40 * 0x40 + c % 0x40;
    assert c / 0x40 == c / 0x1000 * 0x40 + c / 0x40 % 0x40;
    assert c / 0x1000 == c / 0x4_0000 * 0x40 + c / 0x1000 % 0x40;
  }

  /** With control held an ASCII character types its low five bits; otherwise it types itself. */
  lemma ControlAscii(e: KeyEvent)
    requires e.character.Some? && e.character.value < 0x80
    ensures Typed(e) == [if e.control then e.character.value % 32 else e.character.value]
  {
  }

  /** Control and a letter, in either case, type the control character named after it. */
  lemma ControlLetters(e: KeyEvent, letter: nat)
    requires 1 <= letter <= 26 && e.control && (e.character == Some(64 + letter) || e.character == Some(96 + letter))
    ensures Typed(e) == [letter]
  {
  }

  /** No byte of a character outside ASCII is taken for a control character, control held or not. */
  lemma WideCharacters(e: KeyEvent, i: nat)
    requires e.character.Some? && e.character.value >= 0x80 && i < |Typed(e)|
    ensures Typed(e) == Utf8(e.character.value) && Typed(e)[i] >= 0x80
  {
    assert forall k :: 0 <= k < |Typed(e)| ==> Typed(e)[k] == Utf8(e.character.value)[k];
  }

  datatype ReadResult = Interrupted(signal: Signal) | Blocks | Bytes(bytes: seq<byte>)

  /** What a bounded queue holds after pushing: it keeps what fits and loses the rest. */
  function Queued(queue: seq<byte>, bytes: seq<byte>): (r: seq<byte>)
    ensures |queue| <= INPUT_CAPACITY ==> |r| <= INPUT_CAPACITY
  {
    if |queue| + |bytes| <= INPUT_CAPACITY then queue + bytes
    else if |queue| >= INPUT_CAPACITY then queue
    else queue + bytes[..INPUT_CAPACITY - |queue|]
  }

  lemma QueuedTwice(queue: seq<byte>, a: seq<byte>, b: seq<byte>)
    requires |queue| <= INPUT_CAPACITY
    ensures Queued(Queued(queue, a), b) == Queued(queue, a + b)
  {
  }

  lemma QueuedNothing(queue: seq<byte>)
    ensures Queued(queue, []) == queue
  {
  }

  function Repeat(n: nat, b: byte): (r: seq<byte>)
    ensures |r| == n && forall i :: 0 <= i < n ==> r[i] == b
  {
    seq(n, _ => b)
  }

  function RepaintBytes(text: seq<byte>, cursor: nat): seq<byte>
    requires cursor <= |text|
  {
    text[cursor..] + [32] + Repeat(|text| - cursor + 1, 8)
  }

  function SignalText(s: Signal): seq<byte> {
    match s
    case Int => [94, 67, 10]
    case Quit => [94, 92, 10]
    case Tstp => [94, 90, 10]
  }

  datatype Line = Line(
    a: Attributes, text: seq<byte>, cursor: nat, ready: seq<byte>, records: seq<Record>, active: nat,
    interrupted: Option<Signal>, output: seq<byte>)
  {
    predicate Valid() {
      && cursor <= |text| <= EDIT_CAPACITY
      && |ready| <= INPUT_CAPACITY && |records| <= RECORD_CAPACITY && |output| <= INPUT_CAPACITY
    }

    function Out(bytes: seq<byte>): Line { this.(output := Queued(output, bytes)) }

    function Bell(doEcho: bool): Line { if doEcho then Out([7]) else this }

    function Insert(b: byte, doEcho: bool): Line
      requires Valid()
    {
      if |text| == EDIT_CAPACITY then Bell(doEcho)
      else
        var next := this.(text := text[..cursor] + [b] + text[cursor..], cursor := cursor + 1);
        if doEcho && a.echo then next.Out([b] + text[cursor..] + Repeat(|text| - cursor, 8)) else next
    }

    /** Repaints from the cursor after a character went away. */
    function Repaint(): seq<byte>
      requires Valid()
    {
      RepaintBytes(text, cursor)
    }

    function Erase(doEcho: bool): Line
      requires Valid()
    {
      if cursor == 0 then this
      else
        var next := this.(text := text[..cursor - 1] + text[cursor..], cursor := cursor - 1);
        if doEcho && a.echo && a.echoe then next.Out([8] + next.Repaint()) else next
    }

    function DeleteAt(doEcho: bool): Line
      requires Valid()
    {
      if cursor >= |text| then this
      else
        var next := this.(text := text[..cursor] + text[cursor + 1..]);
        if doEcho && a.echo && a.echoe then next.Out(next.Repaint()) else next
    }

    function KillEcho(): seq<byte>
      requires Valid()
    {
      text[cursor..] + Repeat(|text|, 8) + Repeat(|text|, 32) + Repeat(|text|, 8)
    }

    function Kill(doEcho: bool): Line
      requires Valid()
    {
      var next := this.(text := [], cursor := 0);
      if doEcho && a.echo && a.echok then next.Out(KillEcho()) else next
    }

    predicate HasRoom(length: nat) { |ready| + length <= INPUT_CAPACITY && |records| < RECORD_CAPACITY }

    function CommitLine(doEcho: bool): Line {
      if !HasRoom(|text| + 1) then Bell(doEcho)
      else
        var next := this.(ready := ready + text + [10], records := records + [Record(|text| + 1, false)], text := [],
                          cursor := 0);
        if doEcho && (a.echo || a.echonl) then next.Out([10]) else next
    }

    function CommitEof(doEcho: bool): Line {
      if !HasRoom(|text|) then Bell(doEcho)
      else this.(ready := ready + text, records := records + [Record(|text|, text == [])], text := [], cursor := 0)
    }

    function MapByte(b: byte): byte { if b == 13 && a.icrnl then 10 else b }

    function SignalOf(b: byte): Option<Signal> {
      if !a.isig then None
      else if b == a.vintr then Some(Int)
      else if b == a.vquit then Some(Quit)
      else if b == a.vsusp then Some(Tstp)
      else None
    }

    function Raise(s: Signal, doEcho: bool): Line
      requires Valid()
    {
      var killed := Kill(doEcho);
      var shown := if doEcho && a.echo then killed.Out(SignalText(s)) else killed;
      shown.(interrupted := Some(s))
    }

    function FeedRaw(b: byte, doEcho: bool): Line {
      if |ready| == INPUT_CAPACITY then this
      else
        var next := this.(ready := ready + [b]);
        if doEcho && a.echo then next.Out([b]) else next
    }

    function Feed(byte0: byte, doEcho: bool): (r: Line)
      requires Valid()
      ensures r.Valid() && r.a == a
    {
      var b := MapByte(byte0);
      if SignalOf(b).Some? then Raise(SignalOf(b).value, doEcho)
      else if !a.icanon then FeedRaw(b, doEcho)
      else if b == a.verase || b == 8 then Erase(doEcho)
      else if b == a.vkill then Kill(doEcho)
      else if b == a.veof then CommitEof(doEcho)
      else if b == 10 || (a.veol != 0 && b == a.veol) then CommitLine(doEcho)
      else Insert(b, doEcho)
    }

    function Press(key: Key, doEcho: bool): (r: Line)
      requires Valid()
      ensures r.Valid() && r.a == a
    {
      match key
      case Char(b) => Feed(b, doEcho)
      case ArrowLeft =>
        if !a.icanon || cursor == 0 then this
        else
          var next := this.(cursor := cursor - 1);
          if doEcho && a.echo then next.Out([8]) else next
      case ArrowRight =>
        if !a.icanon || cursor == |text| then this
        else
          var next := this.(cursor := cursor + 1);
          if doEcho && a.echo then next.Out([text[cursor]]) else next
      case Home =>
        if !a.icanon then this
        else
          var next := this.(cursor := 0);
          if doEcho && a.echo then next.Out(Repeat(cursor, 8)) else next
      case End =>
        if !a.icanon then this
        else
          var next := this.(cursor := |text|);
          if doEcho && a.echo then next.Out(text[cursor..]) else next
      case Delete => if !a.icanon then this else DeleteAt(doEcho)
    }

    /** Whether an editing key acts here; where it does not, the event counts for what it types. */
    predicate Acts(key: EditKey) {
      a.icanon && (key.ArrowLeft? ==> cursor > 0) && (key.ArrowRight? ==> cursor < |text|)
    }

    /** The keys a keyboard event stands for. */
    function Keys(e: KeyEvent): seq<Key> {
      if !e.pressed then []
      else if e.code.Some? && Acts(e.code.value) then [e.code.value]
      else
        var bytes := Typed(e);
        seq(|bytes|, i requires 0 <= i < |bytes| => Char(bytes[i]))
    }

    function PressAll(keys: seq<Key>, doEcho: bool): (r: Line)
      requires Valid()
      ensures r.Valid() && r.a == a
    {
      if keys == [] then this else PressAll(keys[..|keys| - 1], doEcho).Press(keys[|keys| - 1], doEcho)
    }

    function Flush(): Line {
      this.(ready := [], records := [], active := 0, text := [], cursor := 0, interrupted := None)
    }

    function SetAttributes(attributes: Attributes, flush: bool): Line {
      if flush then this.(a := attributes).Flush() else this.(a := attributes)
    }

    /** In canonical mode the record lengths and what is left of the current one add up. */
    predicate Accounted() {
      if a.icanon then
        && active + Total(records) == |ready|
        && forall i :: 0 <= i < |records| ==> (records[i].eof <==> records[i].length == 0)
      else records == [] && active == 0
    }

    function Drain(room: nat): (Line, ReadResult) {
      var n := if room < |ready| then room else |ready|;
      (this.(ready := ready[n..]), Bytes(ready[..n]))
    }

    function TakeActive(room: nat): (Line, ReadResult)
      requires room <= |ready| || active <= |ready|
    {
      var n := if room < active then room else active;
      (this.(ready := ready[n..], active := active - n), Bytes(ready[..n]))
    }

    /** Whether the queue holds every byte a read into that much room pops. */
    predicate CanPop(room: nat) {
      if interrupted.Some? || !a.icanon || (active == 0 && (records == [] || records[0].eof)) then true
      else
        var length := if active == 0 then records[0].length else active;
        (if room < length then room else length) <= |ready|
    }

    function TryRead(room: nat): (Line, ReadResult)
      requires CanPop(room)
    {
      if interrupted.Some? then (this.(interrupted := None), Interrupted(interrupted.value))
      else if a.icanon then
        if active == 0 then
          if records == [] then (this, Blocks)
          else if records[0].eof then (this.(records := records[1..]), Bytes([]))
          else this.(records := records[1..], active := records[0].length).TakeActive(room)
        else
          TakeActive(room)
      else
        var minimum := if a.vmin < room then a.vmin else room;
        if |ready| < minimum then (this, Blocks) else Drain(room)
    }

    /** What a reader's poll gets; in raw mode `drain` says that it is time to take what there is. */
    function ReadOnce(room: nat, drain: bool): (Line, ReadResult)
      requires CanPop(room)
    {
      if a.icanon then TryRead(room)
      else if interrupted.Some? then (this.(interrupted := None), Interrupted(interrupted.value))
      else if drain then Drain(room)
      else (this, Blocks)
    }
  }

  function Total(records: seq<Record>): (n: nat)
  {
    if records == [] then 0 else Total(records[..|records| - 1]) + records[|records| - 1].length
  }

  /** With balanced records no pop ever fails. */
  lemma BalancedCanPop(t: Line, room: nat)
    requires t.Accounted()
    ensures t.CanPop(room)
  {
    if t.a.icanon && t.records != [] {
      TotalHead(t.records);
    }
  }

  lemma {:induction false} TotalAppend(a: seq<Record>, b: seq<Record>)
    ensures Total(a + b) == Total(a) + Total(b)
  {
    if b == [] {
      assert a + b == a;
    } else {
      var c := b[..|b| - 1];
      assert (a + b)[..|a + b| - 1] == a + c;
      TotalAppend(a, c);
    }
  }

  lemma TotalHead(records: seq<Record>)
    requires records != []
    ensures Total(records) == records[0].length + Total(records[1..])
  {
    assert records == [records[0]] + records[1..];
    TotalAppend([records[0]], records[1..]);
    assert Total([records[0]]) == records[0].length;
  }
}
