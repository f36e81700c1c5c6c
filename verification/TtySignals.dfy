/** Control characters by their effect: signals, carriage return, raw input, and what is echoed when. */
module TtySignals {
  import opened Bytes
  import opened Tty

  /** The byte the line discipline works on: with ICRNL a carriage return counts as a newline. */
  function Received(icrnl: bool, b: byte): byte { if icrnl && b == 13 then 10 else b }

  /** A signal, and the letter after the caret on the screen. */
  datatype Raised = Raised(signal: Signal, letter: byte)

  /** Interrupt before quit before suspend, when the terminal makes signals at all. */
  function Raises(a: Attributes, b: byte): Option<Raised> {
    var c := Received(a.icrnl, b);
    if !a.isig then None
    else if c == a.vintr then Some(Raised(Int, 67))
    else if c == a.vquit then Some(Raised(Quit, 92))
    else if c == a.vsusp then Some(Raised(Tstp, 90))
    else None
  }

  /**
   A signal character drops the line being edited, shows its mark, and makes the next read of any size
   return that signal, once; pending input stays.
   */
  lemma SignalRaised(t: Line, b: byte, doEcho: bool, room: nat, drain: bool)
    requires t.Valid() && Raises(t.a, b).Some?
    ensures var raised, next := Raises(t.a, b).value, t.Feed(b, doEcho);
            && next.text == [] && next.cursor == 0
            && next.ready == t.ready && next.records == t.records && next.active == t.active
            && next.output == Queued(t.Kill(doEcho).output, if doEcho && t.a.echo then [94, raised.letter, 10] else [])
            && next.CanPop(room)
            && next.ReadOnce(room, drain) == (next.(interrupted := None), Interrupted(raised.signal))
  {
    hide Line.KillEcho;
    QueuedNothing(t.Kill(doEcho).output);
    hide Queued;
  }

  /** No other byte, and no editing key, touches a pending signal. */
  lemma SignalKept(t: Line, key: Key, doEcho: bool)
    requires t.Valid() && (key.Char? ==> Raises(t.a, key.b).None?)
    ensures t.Press(key, doEcho).interrupted == t.interrupted
  {
    hide Queued, Repeat, RepaintBytes, Line.KillEcho;
  }

  /** With ICRNL a carriage return is a newline; without it, it is itself. */
  lemma CarriageReturn(t: Line, doEcho: bool)
    requires t.Valid()
    ensures t.a.icrnl ==> t.Feed(13, doEcho) == t.Feed(10, doEcho)
    ensures !t.a.icrnl && !t.a.icanon && Raises(t.a, 13).None? && |t.ready| < INPUT_CAPACITY ==>
              t.Feed(13, doEcho).ready == t.ready + [13]
  {
    hide Line.Raise, Line.Kill, Line.Erase, Line.Insert, Line.CommitLine, Line.CommitEof, Queued;
  }

  /** Raw input: the byte is available at once, echoed with ECHO, and lost only when the queue is full. */
  lemma RawInput(t: Line, b: byte, doEcho: bool)
    requires t.Valid() && !t.a.icanon && Raises(t.a, b).None?
    ensures var c, next := Received(t.a.icrnl, b), t.Feed(b, doEcho);
            if |t.ready| == INPUT_CAPACITY then next == t
            else
              var shown := if doEcho && t.a.echo then Queued(t.output, [c]) else t.output;
              next == t.(ready := t.ready + [c], output := shown)
  {
    hide Queued;
  }

  // ---------------------------------------------------------------- when nothing is echoed

  /** Whether a key ends the line as the canonical discipline reads it. */
  predicate EndsLine(a: Attributes, b: byte) {
    var c := Received(a.icrnl, b);
    && a.icanon && Raises(a, b).None? && c != a.verase && c != 8 && c != a.vkill && c != a.veof
    && (c == 10 || (a.veol != 0 && c == a.veol))
  }

  /** Keys that ring the bell: a byte into a full line, and an end of line or of file without room for it. */
  predicate Rings(t: Line, key: Key) {
    && key.Char? && t.a.icanon && Raises(t.a, key.b).None?
    && var c := Received(t.a.icrnl, key.b);
       && c != t.a.verase && c != 8 && c != t.a.vkill
       && if c == t.a.veof then !t.HasRoom(|t.text|)
          else if EndsLine(t.a, key.b) then !t.HasRoom(|t.text| + 1)
          else |t.text| == EDIT_CAPACITY
  }

  /** Without echo a key shows nothing; without ECHO only the bell, and a newline with ECHONL. */
  lemma Silent(t: Line, key: Key, doEcho: bool)
    requires t.Valid() && (!doEcho || !t.a.echo)
    ensures t.Press(key, doEcho).output
         == if !doEcho then t.output
            else if Rings(t, key) then Queued(t.output, [7])
            else if t.a.echonl && key.Char? && EndsLine(t.a, key.b) then Queued(t.output, [10])
            else t.output
  {
    hide Queued, Repeat, RepaintBytes;
  }

  /** With ECHO, erasing shows nothing without ECHOE and killing nothing without ECHOK. */
  lemma EchoFlags(t: Line)
    requires t.Valid() && t.a.echo
    ensures !t.a.echoe ==> t.Erase(true).output == t.DeleteAt(true).output == t.output
    ensures !t.a.echok ==> t.Kill(true).output == t.output
    ensures t.a.echok ==> t.Kill(true).output == Queued(t.output, t.KillEcho())
  {
  }

  /** After a flush nothing of the input is left to read or to edit, whatever was pending. */
  lemma Flushed(t: Line, attributes: Attributes, room: nat, drain: bool)
    requires t.Valid()
    ensures var next := t.SetAttributes(attributes, true);
            && next == t.Flush().(a := attributes) && next.text == [] && next.cursor == 0 && next.output == t.output
            && next.Accounted() && next.CanPop(room)
            && next.ReadOnce(room, drain) == (next, if !attributes.icanon && drain then Bytes([]) else Blocks)
  {
    assert Total([]) == 0;
  }

  /**
   A keyboard event by its effect: releasing does nothing, an editing key edits where it can, and any
   other key types its character byte by byte.
   */
  lemma EventOutcome(t: Line, e: KeyEvent, doEcho: bool)
    requires t.Valid()
    ensures var next := t.PressAll(t.Keys(e), doEcho);
            var edits := e.code.Some? && t.a.icanon && (e.code.value.ArrowLeft? ==> t.cursor > 0)
                         && (e.code.value.ArrowRight? ==> t.cursor < |t.text|);
            && (!e.pressed ==> next == t)
            && (e.pressed && edits ==> next == t.Press(e.code.value, doEcho))
            && (e.pressed && !edits && e.character.None? ==> next == t)
            && (e.pressed && !edits && e.character.Some? && e.character.value < 0x80 && !e.control ==>
                  next == t.Feed(e.character.value, doEcho))
            && (e.pressed && !edits && e.character.Some? && !e.control ==>
                  t.Keys(e) == seq(|Utf8(e.character.value)|, i requires 0 <= i < |Utf8(e.character.value)| =>
                                                                Char(Utf8(e.character.value)[i])))
  {
    hide Line.Feed, Line.DeleteAt, Queued, Repeat, Utf8;
    if e.character.Some? && e.character.value < 0x80 {
      ControlAscii(e);
    }
    var keys := t.Keys(e);
    if |keys| == 1 {
      assert keys[..0] == [] && t.PressAll(keys, doEcho) == t.Press(keys[0], doEcho);
    }
  }

  /**
   A raw read returns a pending signal first, waits while there are fewer bytes than MIN asks for and the
   buffer has room for, and otherwise takes the oldest bytes that fit.
   */
  lemma RawTryRead(t: Line, room: nat)
    requires t.Valid() && !t.a.icanon
    ensures t.CanPop(room)
    ensures var (next, r) := t.TryRead(room);
            var n := if room < |t.ready| then room else |t.ready|;
            && (r.Interrupted? <==> t.interrupted.Some?)
            && (r.Interrupted? ==> r.signal == t.interrupted.value && next == t.(interrupted := None))
            && (r.Blocks? <==> t.interrupted.None? && |t.ready| < t.a.vmin && |t.ready| < room)
            && (r.Blocks? ==> next == t)
            && (r.Bytes? ==> r.bytes == t.ready[..n] && next == t.(ready := t.ready[n..]))
  {
  }
}
