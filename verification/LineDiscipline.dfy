/** The line discipline object: the edit buffer and the queues are changed in place. */
module LineDiscipline {
  import opened Bytes
  import opened Tty
  import RawRead

  class Discipline {
    var attributes: Attributes
    var ready: seq<byte>
    var records: seq<Record>
    var activeRecord: nat
    const edit: array<byte>
    var editLen: nat
    var cursor: nat
    var interrupted: Option<Signal>
    var output: seq<byte>

    ghost predicate Valid()
      reads this, edit
    {
      edit.Length == EDIT_CAPACITY && editLen <= EDIT_CAPACITY && View().Valid()
    }

    ghost function View(): Line
      reads this, edit
    {
      Line(attributes, Text(), cursor, ready, records, activeRecord, interrupted, output)
    }

    /** The edited line. */
    ghost function Text(): (s: seq<byte>)
      reads this`editLen, edit
      ensures editLen <= edit.Length ==> |s| == editLen
    {
      if editLen <= edit.Length then edit[..editLen] else []
    }

    constructor ()
      ensures Valid() && fresh(edit) && View().Accounted()
      ensures View() == Line(Attributes(true, true, true, true, true, true, false, 3, 28, 127, 21, 4, 10, 26, 1, 0),
                             [], 0, [], [], 0, None, [])
    {
      attributes := Attributes(true, true, true, true, true, true, false, 3, 28, 127, 21, 4, 10, 26, 1, 0);
      ready, records, activeRecord := [], [], 0;
      edit := new byte[1024](_ => 0);
      editLen, cursor, interrupted, output := 0, 0, None, [];
      new;
      assert edit[..editLen] == [];
    }

    method PushOutput(b: byte) returns (ok: bool)
      requires |output| <= INPUT_CAPACITY
      modifies this`output
      ensures ok == (|old(output)| < INPUT_CAPACITY) && output == Queued(old(output), [b])
      ensures |output| <= INPUT_CAPACITY
    {
      ok := |output| < INPUT_CAPACITY;
      if ok {
        output := output + [b];
      }
    }

    method QueueOutput(bytes: seq<byte>)
      requires |output| <= INPUT_CAPACITY
      modifies this`output
      ensures output == Queued(old(output), bytes) && |output| <= INPUT_CAPACITY
    {
      for i := 0 to |bytes|
        invariant |output| <= INPUT_CAPACITY && output == Queued(old(output), bytes[..i])
      {
        var _ := PushOutput(bytes[i]);
        QueuedTwice(old(output), bytes[..i], [bytes[i]]);
        assert bytes[..i + 1] == bytes[..i] + [bytes[i]];
      }
      assert bytes[..|bytes|] == bytes;
    }

    /** Pushes the stored characters from one index up to another. */
    method EchoRange(from: nat, to: nat)
      requires from <= to <= editLen <= edit.Length && |output| <= INPUT_CAPACITY
      modifies this`output
      ensures output == Queued(old(output), Text()[from..to]) && |output| <= INPUT_CAPACITY
    {
      hide Queued;
      ghost var text := Text();
      ghost var out := output;
      QueuedNothing(out);
      assert text[from..from] == [];
      for index := from to to
        invariant Text() == text && |output| <= INPUT_CAPACITY && output == Queued(out, text[from..index])
      {
        assert edit[index] == text[index];
        var _ := PushOutput(edit[index]);
        QueuedTwice(out, text[from..index], [text[index]]);
        assert text[from..index + 1] == text[from..index] + [text[index]];
      }
    }

    method EchoRepeat(count: nat, b: byte)
      requires |output| <= INPUT_CAPACITY
      modifies this`output
      ensures output == Queued(old(output), Repeat(count, b)) && |output| <= INPUT_CAPACITY
    {
      for i := 0 to count
        invariant |output| <= INPUT_CAPACITY && output == Queued(old(output), Repeat(i, b))
      {
        QueueOutput([b]);
        QueuedTwice(old(output), Repeat(i, b), [b]);
        assert Repeat(i + 1, b) == Repeat(i, b) + [b];
      }
    }

    /** Moves a stretch of the edit buffer; the stretches may overlap. */
    method CopyWithin(lo: nat, hi: nat, dest: nat)
      requires lo <= hi <= edit.Length && dest + (hi - lo) <= edit.Length
      modifies edit
      ensures edit[..] == Moved(old(edit[..]), lo, hi, dest)
    {
      forall i | dest <= i < dest + (hi - lo) {
        edit[i] := edit[i - dest + lo];
      }
    }

    /** Makes room at the cursor for one character and puts it there. */
    method OpenGap(b: byte)
      requires cursor <= editLen < edit.Length
      modifies this`editLen, this`cursor, edit
      ensures editLen == old(editLen) + 1 <= edit.Length && cursor == old(cursor) + 1
      ensures Text() == old(Text()[..cursor]) + [b] + old(Text()[cursor..])
    {
      hide Moved;
      ghost var before := edit[..];
      CopyWithin(cursor, editLen, cursor + 1);
      edit[cursor] := b;
      GapOpened(before, cursor, editLen, b);
      editLen := editLen + 1;
      cursor := cursor + 1;
      assert Text() == edit[..][..editLen];
    }

    /** Closes the gap over the character at this index. */
    method CloseGap(at: nat)
      requires at < editLen <= edit.Length
      modifies this`editLen, edit
      ensures editLen == old(editLen) - 1
      ensures Text() == old(Text()[..at]) + old(Text()[at + 1..])
    {
      hide Moved;
      ghost var before := edit[..];
      CopyWithin(at + 1, editLen, at);
      GapClosed(before, at, editLen);
      editLen := editLen - 1;
      assert Text() == edit[..][..editLen];
    }

    method InsertByte(b: byte, doEcho: bool)
      requires Valid()
      modifies this`editLen, this`cursor, this`output, edit
      ensures Valid() && View() == old(View()).Insert(b, doEcho)
    {
      hide Queued, Discipline.Text;
      if editLen == EDIT_CAPACITY {
        if doEcho {
          QueueOutput([7]);
        }
        return;
      }
      ghost var out := output;
      ghost var tail := Text()[cursor..];
      OpenGap(b);
      if doEcho && attributes.echo {
        assert Text()[cursor - 1..editLen] == [b] + tail;
        EchoRange(cursor - 1, editLen);
        EchoRepeat(editLen - cursor, 8);
        QueuedTwice(out, [b] + tail, Repeat(editLen - cursor, 8));
      }
    }

    /** The tail from the cursor, a blank over the character that is gone, and back. */
    method EchoRepaint()
      requires Valid()
      modifies this`output
      ensures Valid() && output == Queued(old(output), RepaintBytes(Text(), cursor))
    {
      hide Queued, Discipline.Text;
      ghost var out := output;
      ghost var tail := Text()[cursor..];
      assert Text()[cursor..editLen] == tail;
      EchoRange(cursor, editLen);
      QueueOutput([32]);
      QueuedTwice(out, tail, [32]);
      EchoRepeat(editLen - cursor + 1, 8);
      QueuedTwice(out, tail + [32], Repeat(editLen - cursor + 1, 8));
    }

    method EraseBeforeCursor(doEcho: bool)
      requires Valid()
      modifies this`editLen, this`cursor, this`output, edit
      ensures Valid() && View() == old(View()).Erase(doEcho)
    {
      hide Queued, Discipline.Text, RepaintBytes;
      if cursor == 0 {
        return;
      }
      ghost var out := output;
      CloseGap(cursor - 1);
      cursor := cursor - 1;
      if doEcho && attributes.echo && attributes.echoe {
        QueueOutput([8]);
        EchoRepaint();
        QueuedTwice(out, [8], RepaintBytes(Text(), cursor));
      }
    }

    method DeleteAtCursor(doEcho: bool)
      requires Valid()
      modifies this`editLen, this`output, edit
      ensures Valid() && View() == old(View()).DeleteAt(doEcho)
    {
      hide Queued, Discipline.Text, RepaintBytes;
      if cursor >= editLen {
        return;
      }
      CloseGap(cursor);
      if doEcho && attributes.echo && attributes.echoe {
        EchoRepaint();
      }
    }

    method KillLine(doEcho: bool)
      requires Valid()
      modifies this`editLen, this`cursor, this`output
      ensures Valid() && View() == old(View()).Kill(doEcho)
    {
      hide Queued;
      if doEcho && attributes.echo && attributes.echok {
        ghost var out := output;
        ghost var text := Text();
        ghost var tail := text[cursor..];
        ghost var from := cursor;
        assert Queued(out, []) == out by {
          QueuedNothing(out);
        }
        assert text[from..from] == [];
        while cursor < editLen
          invariant from <= cursor <= editLen == old(editLen) && |output| <= INPUT_CAPACITY
          invariant output == Queued(out, text[from..cursor])
        {
          assert edit[cursor] == text[cursor];
          var _ := PushOutput(edit[cursor]);
          QueuedTwice(out, text[from..cursor], [text[cursor]]);
          assert text[from..cursor + 1] == text[from..cursor] + [text[cursor]];
          cursor := cursor + 1;
        }
        assert text[from..editLen] == tail;
        EchoRepeat(editLen, 8);
        QueuedTwice(out, tail, Repeat(editLen, 8));
        EchoRepeat(editLen, 32);
        QueuedTwice(out, tail + Repeat(editLen, 8), Repeat(editLen, 32));
        EchoRepeat(editLen, 8);
        QueuedTwice(out, tail + Repeat(editLen, 8) + Repeat(editLen, 32), Repeat(editLen, 8));
      }
      editLen := 0;
      cursor := 0;
    }

    /** Pushes the edited text into the input queue; the caller has checked that it fits. */
    method MoveText()
      requires Valid() && |ready| + editLen <= INPUT_CAPACITY
      modifies this`ready
      ensures ready == old(ready) + Text()
    {
      for i := 0 to editLen
        invariant ready == old(ready) + edit[..i]
      {
        ready := ready + [edit[i]];
      }
    }

    method CommitLine(doEcho: bool)
      requires Valid()
      modifies this`ready, this`records, this`editLen, this`cursor, this`output
      ensures Valid() && View() == old(View()).CommitLine(doEcho)
    {
      var length := editLen + 1;
      if INPUT_CAPACITY - |ready| < length || |records| == RECORD_CAPACITY {
        if doEcho {
          QueueOutput([7]);
        }
        return;
      }
      MoveText();
      ready := ready + [10];
      records := records + [Record(length, false)];
      editLen := 0;
      cursor := 0;
      assert edit[..editLen] == [];
      if doEcho && (attributes.echo || attributes.echonl) {
        QueueOutput([10]);
      }
    }

    method CommitEof(doEcho: bool)
      requires Valid()
      modifies this`ready, this`records, this`editLen, this`cursor, this`output
      ensures Valid() && View() == old(View()).CommitEof(doEcho)
    {
      if |records| == RECORD_CAPACITY || INPUT_CAPACITY - |ready| < editLen {
        if doEcho {
          QueueOutput([7]);
        }
        return;
      }
      MoveText();
      records := records + [Record(editLen, editLen == 0)];
      editLen := 0;
      cursor := 0;
      assert edit[..editLen] == [];
    }

    method RaiseSignal(signal: Signal, doEcho: bool)
      requires Valid()
      modifies this, edit
      ensures Valid() && View() == old(View()).Raise(signal, doEcho)
    {
      hide Line.Kill, SignalText;
      KillLine(doEcho);
      if doEcho && attributes.echo {
        QueueOutput(SignalText(signal));
      }
      interrupted := Some(signal);
    }

    method FeedByte(byte0: byte, doEcho: bool)
      requires Valid()
      modifies this, edit
      ensures Valid() && View() == old(View()).Feed(byte0, doEcho)
    {
      hide Line.Kill, Line.Erase, Line.CommitEof, Line.CommitLine, Line.Insert, Line.Raise, Text;
      var b := byte0;
      if b == 13 && attributes.icrnl {
        b := 10;
      }
      if attributes.isig {
        var signal: Option<Signal> :=
          if b == attributes.vintr then Some(Int)
          else if b == attributes.vquit then Some(Quit)
          else if b == attributes.vsusp then Some(Tstp)
          else None;
        if signal.Some? {
          RaiseSignal(signal.value, doEcho);
          return;
        }
      }
      if !attributes.icanon {
        if |ready| < INPUT_CAPACITY {
          ready := ready + [b];
          if doEcho && attributes.echo {
            QueueOutput([b]);
          }
        }
        return;
      }
      if b == attributes.verase || b == 8 {
        EraseBeforeCursor(doEcho);
      } else if b == attributes.vkill {
        KillLine(doEcho);
      } else if b == attributes.veof {
        CommitEof(doEcho);
      } else if b == 10 || (attributes.veol != 0 && b == attributes.veol) {
        CommitLine(doEcho);
      } else {
        InsertByte(b, doEcho);
      }
    }

    /** A keyboard event: an editing key that acts here, or else the bytes of its character. */
    method FeedEvent(event: KeyEvent, doEcho: bool)
      requires Valid()
      modifies this, edit
      ensures Valid() && View() == old(View()).PressAll(old(View()).Keys(event), doEcho)
    {
      hide Line.Press, Utf8, Controlled;
      ghost var start, keys := View(), View().Keys(event);
      if !event.pressed {
        return;
      }
      if event.code.Some? && Acts(event.code.value) {
        PressKey(event.code.value, doEcho);
        assert start.PressAll(keys[..0], doEcho) == start;
        return;
      }
      if event.character.None? {
        return;
      }
      var bytes := Utf8(event.character.value);
      for i := 0 to |bytes|
        invariant Valid() && View() == start.PressAll(keys[..i], doEcho)
      {
        PressKey(Char(Controlled(bytes[i], event.control)), doEcho);
        assert keys[..i + 1][..i] == keys[..i] && keys[i] == Char(Controlled(bytes[i], event.control));
      }
      assert keys[..|bytes|] == keys;
    }

    predicate Acts(key: EditKey)
      requires Valid()
      reads this, edit
      ensures Acts(key) == View().Acts(key)
    {
      attributes.icanon && (key.ArrowLeft? ==> cursor > 0) && (key.ArrowRight? ==> cursor < editLen)
    }

    method PressKey(key: Key, doEcho: bool)
      requires Valid()
      modifies this, edit
      ensures Valid() && View() == old(View()).Press(key, doEcho)
    {
      hide Line.Feed, Line.DeleteAt;
      match key
      case Char(b) => FeedByte(b, doEcho);
      case ArrowLeft =>
        if attributes.icanon && cursor > 0 {
          cursor := cursor - 1;
          if doEcho && attributes.echo {
            QueueOutput([8]);
          }
        }
      case ArrowRight =>
        if attributes.icanon && cursor < editLen {
          if doEcho && attributes.echo {
            var _ := PushOutput(edit[cursor]);
          }
          cursor := cursor + 1;
        }
      case Home =>
        if attributes.icanon {
          if doEcho && attributes.echo {
            EchoRepeat(cursor, 8);
          }
          cursor := 0;
        }
      case End =>
        if attributes.icanon {
          if doEcho && attributes.echo {
            assert Text()[cursor..] == Text()[cursor..editLen];
            EchoRange(cursor, editLen);
          }
          cursor := editLen;
        }
      case Delete =>
        if attributes.icanon {
          DeleteAtCursor(doEcho);
        }
    }

    /** Pops bytes into the caller's buffer; the queue holds at least that many. */
    method PopInto(destination: array<byte>, count: nat)
      requires count <= destination.Length && count <= |ready| && destination != edit
      modifies this`ready, destination
      ensures ready == old(ready)[count..] && destination[..count] == old(ready)[..count]
    {
      for i := 0 to count
        invariant ready == old(ready)[i..] && destination[..i] == old(ready)[..i]
      {
        destination[i] := ready[0];
        ready := ready[1..];
      }
    }

    method TryRead(destination: array<byte>) returns (r: ReadResult)
      requires Valid() && View().CanPop(destination.Length) && destination != edit
      modifies this`interrupted, this`records, this`activeRecord, this`ready, destination
      ensures Valid() && (View(), r) == old(View()).TryRead(destination.Length)
      ensures r.Bytes? ==> |r.bytes| <= destination.Length && destination[..|r.bytes|] == r.bytes
    {
      hide Total, Queued, Text;
      if interrupted.Some? {
        r := Interrupted(interrupted.value);
        interrupted := None;
        return;
      }
      if attributes.icanon {
        if activeRecord == 0 {
          if |records| == 0 {
            return Blocks;
          }
          var record := records[0];
          records := records[1..];
          if record.eof {
            return Bytes([]);
          }
          activeRecord := record.length;
        }
        var count := if destination.Length < activeRecord then destination.Length else activeRecord;
        PopInto(destination, count);
        activeRecord := activeRecord - count;
        return Bytes(destination[..count]);
      }
      var minimum := if attributes.vmin < destination.Length then attributes.vmin else destination.Length;
      if |ready| < minimum {
        return Blocks;
      }
      var count := if destination.Length < |ready| then destination.Length else |ready|;
      PopInto(destination, count);
      r := Bytes(destination[..count]);
    }

    method DrainRaw(destination: array<byte>) returns (count: nat)
      requires Valid() && destination != edit
      modifies this`ready, destination
      ensures Valid() && count <= destination.Length
      ensures (View(), Bytes(destination[..count])) == old(View()).Drain(destination.Length)
    {
      count := if destination.Length < |ready| then destination.Length else |ready|;
      PopInto(destination, count);
    }

    /** One poll of a reader: by records in canonical mode, else all there is once it is time. */
    method ReadOnce(destination: array<byte>, nonblocking: bool, now: u64, timer: RawRead.RawReadTimer)
      returns (r: ReadResult)
      requires Valid() && View().CanPop(destination.Length) && destination != edit
      modifies this, destination, timer
      ensures Valid()
      ensures var q := RawRead.Request(old(attributes).vmin, old(attributes).vtime, destination.Length);
              var (next, decision) := RawRead.DecideTimer(q, RawRead.Poll(now, |old(ready)|), old(timer.View()));
              var polls := !nonblocking && !old(attributes).icanon && old(interrupted).None?;
              var drain := if nonblocking then old(ready) != [] else decision.Read?;
              && (View(), r) == old(View()).ReadOnce(destination.Length, drain)
              && timer.View() == (if polls then next else old(timer.View()))
      ensures r.Bytes? ==> |r.bytes| <= destination.Length && destination[..|r.bytes|] == r.bytes
    {
      if attributes.icanon {
        r := TryRead(destination);
        return;
      }
      if interrupted.Some? {
        r := Interrupted(interrupted.value);
        interrupted := None;
        return;
      }
      if nonblocking {
        if |ready| == 0 {
          return Blocks;
        }
        var drained := DrainRaw(destination);
        return Bytes(destination[..drained]);
      }
      var q := RawRead.Request(attributes.vmin, attributes.vtime, destination.Length);
      var decision := timer.Decide(q, |ready|, now);
      if decision.Read? {
        var count := DrainRaw(destination);
        return Bytes(destination[..count]);
      }
      r := Blocks;
    }

    method FlushInput()
      requires Valid()
      modifies this
      ensures Valid() && View() == old(View()).Flush()
    {
      ready, records, activeRecord := [], [], 0;
      editLen, cursor, interrupted := 0, 0, None;
      assert edit[..editLen] == [];
    }

    method SetAttributes(attributes: Attributes, flush: bool)
      requires Valid()
      modifies this
      ensures Valid() && View() == old(View()).SetAttributes(attributes, flush)
    {
      this.attributes := attributes;
      if flush {
        FlushInput();
      }
    }

    /** Hands the oldest queued output to the backend. */
    method DrainOutput(destination: array<byte>) returns (count: nat)
      requires Valid() && destination != edit
      modifies this`output, destination
      ensures Valid() && count == (if destination.Length < |old(output)| then destination.Length else |old(output)|)
      ensures destination[..count] == old(output)[..count] && output == old(output)[count..]
    {
      count := if destination.Length < |output| then destination.Length else |output|;
      ghost var all := output;
      for i := 0 to count
        invariant output == all[i..] && destination[..i] == all[..i]
      {
        destination[i] := output[0];
        output := output[1..];
      }
    }
  }

  /** A sequence after one of its stretches was copied to another place. */
  ghost function Moved(s: seq<byte>, lo: nat, hi: nat, dest: nat): (r: seq<byte>)
    requires lo <= hi <= |s| && dest + (hi - lo) <= |s|
    ensures |r| == |s|
  {
    s[..dest] + s[lo..hi] + s[dest + (hi - lo)..]
  }

  lemma GapOpened(s: seq<byte>, c: nat, n: nat, b: byte)
    requires c <= n < |s|
    ensures Moved(s, c, n, c + 1)[c := b][..n + 1] == s[..n][..c] + [b] + s[..n][c..]
  {
  }

  lemma GapClosed(s: seq<byte>, at: nat, n: nat)
    requires at < n <= |s|
    ensures Moved(s, at + 1, n, at)[..n - 1] == s[..n][..at] + s[..n][at + 1..]
  {
  }
}
