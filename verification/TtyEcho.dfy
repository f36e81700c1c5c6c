/** The echo stream, replayed on an abstract terminal, always shows the line being edited. */
module TtyEcho {
  import opened Bytes
  import opened Tty

  /** One line of a terminal and the column of its cursor. */
  datatype Screen = Screen(cells: seq<byte>, column: nat)

  predicate Printable(b: byte) { 32 <= b <= 126 }

  predicate AllPrintable(s: seq<byte>) { forall i :: 0 <= i < |s| ==> Printable(s[i]) }

  /** Backspace moves left, newline opens a fresh line, a printable byte overwrites and advances. */
  function Type(s: Screen, b: byte): (r: Screen)
    requires s.column <= |s.cells|
    ensures r.column <= |r.cells|
  {
    if b == 8 then (if s.column == 0 then s else s.(column := s.column - 1))
    else if b == 10 then Screen([], 0)
    else if !Printable(b) then s
    else if s.column < |s.cells| then Screen(s.cells[s.column := b], s.column + 1)
    else Screen(s.cells + [b], s.column + 1)
  }

  function Replay(s: Screen, bytes: seq<byte>): (r: Screen)
    requires s.column <= |s.cells|
    ensures r.column <= |r.cells|
    decreases |bytes|
  {
    if bytes == [] then s else Type(Replay(s, bytes[..|bytes| - 1]), bytes[|bytes| - 1])
  }

  lemma {:induction false} ReplayAppend(s: Screen, a: seq<byte>, b: seq<byte>)
    requires s.column <= |s.cells|
    ensures Replay(s, a + b) == Replay(Replay(s, a), b)
    decreases |b|
  {
    if b == [] {
      assert a + b == a;
    } else {
      var c := b[..|b| - 1];
      assert (a + b)[..|a + b| - 1] == a + c;
      ReplayAppend(s, a, c);
    }
  }

  function Overwrite(cells: seq<byte>, column: nat, w: seq<byte>): seq<byte>
    requires column <= |cells|
  {
    cells[..column] + w + (if column + |w| <= |cells| then cells[column + |w|..] else [])
  }

  lemma {:induction false} ReplayText(s: Screen, w: seq<byte>)
    requires s.column <= |s.cells| && AllPrintable(w)
    ensures Replay(s, w) == Screen(Overwrite(s.cells, s.column, w), s.column + |w|)
    decreases |w|
  {
    if w == [] {
      assert Overwrite(s.cells, s.column, w) == s.cells;
    } else {
      var v := w[..|w| - 1];
      ReplayText(s, v);
      var before := Overwrite(s.cells, s.column, v);
      var after := Overwrite(s.cells, s.column, w);
      var k := s.column + |v|;
      if k < |before| {
        assert before[k := w[|v|]] == after;
      } else {
        assert before + [w[|v|]] == after;
      }
    }
  }

  lemma {:induction false} ReplayBack(s: Screen, n: nat)
    requires n <= s.column <= |s.cells|
    ensures Replay(s, Repeat(n, 8)) == s.(column := s.column - n)
  {
    if n == 0 {
    } else {
      ReplayBack(s, n - 1);
      assert Repeat(n, 8)[..n - 1] == Repeat(n - 1, 8);
    }
  }

  /** Text followed by blanks, with the cursor where the editor has it. */
  predicate Shows(s: Screen, text: seq<byte>, cursor: nat) {
    && s.column == cursor <= |text| <= |s.cells|
    && s.cells == text + Repeat(|s.cells| - |text|, 32)
  }

  // ---------------------------------------------------------------- what editing means

  /** The edited line as the text on either side of the cursor. */
  datatype Edit = Edit(left: seq<byte>, right: seq<byte>)

  function EditOf(t: Line): Edit
    requires t.Valid()
  {
    Edit(t.text[..t.cursor], t.text[t.cursor..])
  }

  function DropLast(s: seq<byte>): seq<byte> { if s == [] then s else s[..|s| - 1] }
  function DropFirst(s: seq<byte>): seq<byte> { if s == [] then s else s[1..] }

  /** Editing by characters: what a key does to the text around the cursor. */
  function EditPress(e: Edit, t: Line, key: Key): Edit {
    match key
    case ArrowLeft => if e.left == [] then e else Edit(DropLast(e.left), [e.left[|e.left| - 1]] + e.right)
    case ArrowRight => if e.right == [] then e else Edit(e.left + [e.right[0]], DropFirst(e.right))
    case Home => Edit([], e.left + e.right)
    case End => Edit(e.left + e.right, [])
    case Delete => Edit(e.left, DropFirst(e.right))
    case Char(byte0) =>
      var b := t.MapByte(byte0);
      var n := |e.left + e.right|;
      if t.SignalOf(b).Some? then Edit([], [])
      else if b == t.a.verase || b == 8 then Edit(DropLast(e.left), e.right)
      else if b == t.a.vkill then Edit([], [])
      else if b == t.a.veof then (if t.HasRoom(n) then Edit([], []) else e)
      else if b == 10 || (t.a.veol != 0 && b == t.a.veol) then (if t.HasRoom(n + 1) then Edit([], []) else e)
      else if n == EDIT_CAPACITY then e
      else Edit(e.left + [b], e.right)
  }

  /** Every key edits the line as two halves around the cursor would be edited. */
  lemma PressEdits(t: Line, key: Key, doEcho: bool)
    requires t.Valid() && t.a.icanon
    ensures EditOf(t.Press(key, doEcho)) == EditPress(EditOf(t), t, key)
  {
    hide Queued, Line.DeleteAt, Line.Feed, DropLast, DropFirst;
    match key
    case Char(byte0) => CharEdits(t, byte0, doEcho);
    case Delete => DeleteEdits(t, doEcho);
    case _ => MoveEdits(t, key, doEcho);
  }

  lemma MoveEdits(t: Line, key: Key, doEcho: bool)
    requires t.Valid() && t.a.icanon && !key.Char? && !key.Delete?
    ensures EditOf(t.Press(key, doEcho)) == EditPress(EditOf(t), t, key)
  {
    hide Queued, Repeat;
    assert t.text == t.text[..t.cursor] + t.text[t.cursor..];
  }

  lemma CharEdits(t: Line, byte0: byte, doEcho: bool)
    requires t.Valid() && t.a.icanon
    ensures EditOf(t.Feed(byte0, doEcho)) == EditPress(EditOf(t), t, Char(byte0))
  {
    hide Line.Insert, Line.Erase, Line.Kill, Line.Raise, Line.CommitLine, Line.CommitEof, EditOf, DropLast;
    var b := t.MapByte(byte0);
    EditLength(t);
    InsertEdits(t, b, doEcho);
    EraseEdits(t, doEcho);
    ClearEdits(t, if t.SignalOf(b).Some? then t.SignalOf(b).value else Int, doEcho);
    CommitEdits(t, doEcho);
  }

  lemma EditLength(t: Line)
    requires t.Valid()
    ensures |EditOf(t).left + EditOf(t).right| == |t.text|
  {
  }

  lemma DeleteEdits(t: Line, doEcho: bool)
    requires t.Valid()
    ensures t.DeleteAt(doEcho).Valid()
    ensures EditOf(t.DeleteAt(doEcho)) == Edit(EditOf(t).left, DropFirst(EditOf(t).right))
  {
    hide Queued, RepaintBytes;
  }

  lemma InsertEdits(t: Line, b: byte, doEcho: bool)
    requires t.Valid()
    ensures t.Insert(b, doEcho).Valid()
    ensures var e := EditOf(t);
            EditOf(t.Insert(b, doEcho)) == if |t.text| == EDIT_CAPACITY then e else Edit(e.left + [b], e.right)
  {
    hide Queued, Repeat;
  }

  lemma EraseEdits(t: Line, doEcho: bool)
    requires t.Valid()
    ensures t.Erase(doEcho).Valid() && EditOf(t.Erase(doEcho)) == Edit(DropLast(EditOf(t).left), EditOf(t).right)
  {
    hide Queued, RepaintBytes;
  }

  lemma ClearEdits(t: Line, s: Signal, doEcho: bool)
    requires t.Valid()
    ensures t.Kill(doEcho).Valid() && EditOf(t.Kill(doEcho)) == Edit([], [])
    ensures t.Raise(s, doEcho).Valid() && EditOf(t.Raise(s, doEcho)) == Edit([], [])
  {
    hide Queued, Repeat;
  }

  lemma CommitEdits(t: Line, doEcho: bool)
    requires t.Valid()
    ensures t.CommitLine(doEcho).Valid() && t.CommitEof(doEcho).Valid()
    ensures EditOf(t.CommitLine(doEcho)) == (if t.HasRoom(|t.text| + 1) then Edit([], []) else EditOf(t))
    ensures EditOf(t.CommitEof(doEcho)) == (if t.HasRoom(|t.text|) then Edit([], []) else EditOf(t))
  {
    hide Queued;
  }

  // ---------------------------------------------------------------- one key

  lemma InsertCells(cells: seq<byte>, text: seq<byte>, cursor: nat, b: byte)
    requires cursor <= |text| <= |cells| && cells == text + Repeat(|cells| - |text|, 32)
    ensures var next := text[..cursor] + [b] + text[cursor..];
            var after := Overwrite(cells, cursor, [b] + text[cursor..]);
            |next| <= |after| && after == next + Repeat(|after| - |next|, 32)
  {
    var next := text[..cursor] + [b] + text[cursor..];
    assert cells[..cursor] == text[..cursor];
    if |cells| > |text| {
      assert cells[|text| + 1..] == Repeat(|cells| - |text| - 1, 32);
    }
  }

  lemma InsertShows(s: Screen, t: Line, b: byte)
    requires t.Valid() && Shows(s, t.text, t.cursor) && AllPrintable(t.text) && Printable(b)
    ensures var next := t.text[..t.cursor] + [b] + t.text[t.cursor..];
            var echo := [b] + t.text[t.cursor..] + Repeat(|t.text| - t.cursor, 8);
            Shows(Replay(s, echo), next, t.cursor + 1) && AllPrintable(next)
  {
    var w := [b] + t.text[t.cursor..];
    var n := |t.text| - t.cursor;
    ReplayAppend(s, w, Repeat(n, 8));
    ReplayText(s, w);
    ReplayBack(Replay(s, w), n);
    InsertCells(s.cells, t.text, t.cursor, b);
    hide Replay, Overwrite;
  }

  /** Repainting after the character at the cursor is gone. */
  lemma RepaintShows(s: Screen, text: seq<byte>, t: Line)
    requires t.Valid() && |text| == |t.text| + 1 && AllPrintable(t.text)
    requires text[..t.cursor] == t.text[..t.cursor] && Shows(s, text, t.cursor)
    ensures Shows(Replay(s, t.Repaint()), t.text, t.cursor)
  {
    var w := t.text[t.cursor..] + [32];
    var n := |t.text| - t.cursor + 1;
    ReplayAppend(s, w, Repeat(n, 8));
    ReplayText(s, w);
    ReplayBack(Replay(s, w), n);
    hide Replay;
    RepaintCells(s.cells, text, t.text, t.cursor);
    hide Overwrite;
  }

  lemma RepaintCells(cells: seq<byte>, text: seq<byte>, next: seq<byte>, cursor: nat)
    requires |text| == |next| + 1 && cursor <= |next| && |text| <= |cells|
    requires cells == text + Repeat(|cells| - |text|, 32) && text[..cursor] == next[..cursor]
    ensures Overwrite(cells, cursor, next[cursor..] + [32]) == next + Repeat(|cells| - |next|, 32)
  {
    assert cells[..cursor] == text[..cursor];
    assert cells[|text|..] == Repeat(|cells| - |text|, 32);
    assert next == next[..cursor] + next[cursor..];
    assert [32] + Repeat(|cells| - |text|, 32) == Repeat(|cells| - |next|, 32);
  }

  lemma EraseShows(s: Screen, t: Line)
    requires t.Valid() && Shows(s, t.text, t.cursor) && AllPrintable(t.text) && t.cursor > 0
    ensures var next := t.(text := t.text[..t.cursor - 1] + t.text[t.cursor..], cursor := t.cursor - 1);
            Shows(Replay(s, [8] + next.Repaint()), next.text, next.cursor) && AllPrintable(next.text)
  {
    var next := t.(text := t.text[..t.cursor - 1] + t.text[t.cursor..], cursor := t.cursor - 1);
    ReplayAppend(s, [8], next.Repaint());
    assert Repeat(1, 8) == [8];
    ReplayBack(s, 1);
    RepaintShows(s.(column := s.column - 1), t.text, next);
  }

  lemma DeleteShows(s: Screen, t: Line)
    requires t.Valid() && Shows(s, t.text, t.cursor) && AllPrintable(t.text) && t.cursor < |t.text|
    ensures var next := t.(text := t.text[..t.cursor] + t.text[t.cursor + 1..]);
            Shows(Replay(s, next.Repaint()), next.text, next.cursor) && AllPrintable(next.text)
  {
    var next := t.(text := t.text[..t.cursor] + t.text[t.cursor + 1..]);
    RepaintShows(s, t.text, next);
  }

  lemma KillShows(s: Screen, t: Line)
    requires t.Valid() && Shows(s, t.text, t.cursor) && AllPrintable(t.text)
    ensures Shows(Replay(s, t.KillEcho()), [], 0)
  {
    var n := |t.text|;
    var tail := t.text[t.cursor..];
    var back, blank := Repeat(n, 8), Repeat(n, 32);
    EndShows(s, t);
    var s1 := Replay(s, tail);
    ReplayBack(s1, n);
    var s2 := s1.(column := 0);
    ReplayText(s2, blank);
    var s3 := Replay(s2, blank);
    ReplayBack(s3, n);
    ReplayAppend(s, tail, back);
    ReplayAppend(s, tail + back, blank);
    ReplayAppend(s, tail + back + blank, back);
    hide Replay;
    assert s3.cells == Repeat(|s3.cells|, 32);
    assert [] + Repeat(|s3.cells|, 32) == s3.cells;
  }

  lemma EndShows(s: Screen, t: Line)
    requires t.Valid() && Shows(s, t.text, t.cursor) && AllPrintable(t.text)
    ensures Shows(Replay(s, t.text[t.cursor..]), t.text, |t.text|)
    ensures Replay(s, t.text[t.cursor..]) == s.(column := |t.text|)
  {
    hide Replay, Overwrite;
    var w := t.text[t.cursor..];
    ReplayText(s, w);
    assert s.cells[t.cursor..|t.text|] == s.cells[..|t.text|][t.cursor..];
    assert s.cells[..|t.text|] == t.text;
    OverwriteSame(s.cells, t.cursor, w);
  }

  /** Writing what is there already changes nothing. */
  lemma OverwriteSame(cells: seq<byte>, column: nat, w: seq<byte>)
    requires column + |w| <= |cells| && cells[column..column + |w|] == w
    ensures Overwrite(cells, column, w) == cells
  {
    assert cells == cells[..column] + cells[column..column + |w|] + cells[column + |w|..];
  }

  lemma NewlineShows(s: Screen, w: seq<byte>)
    requires s.column <= |s.cells| && w != [] && w[|w| - 1] == 10
    ensures Shows(Replay(s, w), [], 0)
  {
  }

  // ---------------------------------------------------------------- any key

  /** Echoing is on, as it is from the start. */
  predicate Echoing(a: Attributes) { a.icanon && a.echo && a.echoe && a.echok }

  /** What is left of the drained output queue behind the echo of a kill. */
  function RoomAfterKill(t: Line): int { INPUT_CAPACITY - (4 * |t.text| - t.cursor) }

  predicate AllBlank(s: seq<byte>) { forall i :: 0 <= i < |s| ==> s[i] == 32 }

  /**
   When the display follows a key: always for editing keys and ends of line; for a signal unless its
   mark goes out without its newline; for an end of file unless it takes visible text or a moved cursor
   away; for any other byte if it is printable or there is no room for it.
   */
  predicate Echoable(t: Line, key: Key) {
    if !key.Char? then true
    else
      var b := t.MapByte(key.b);
      if t.SignalOf(b).Some? then RoomAfterKill(t) == 0 || RoomAfterKill(t) >= 3
      else if b == t.a.verase || b == 8 || b == t.a.vkill then true
      else if b == t.a.veof then t.text == [] || !t.HasRoom(|t.text|) || (t.cursor == 0 && AllBlank(t.text))
      else if b == 10 || (t.a.veol != 0 && b == t.a.veol) then true
      else Printable(b) || |t.text| == EDIT_CAPACITY
  }

  /** The editor and the terminal agree. */
  ghost predicate InStep(t: Line, s: Screen) {
    && t.Valid() && Echoing(t.a) && AllPrintable(t.text) && Shows(s, t.text, t.cursor)
  }

  /** The bytes that went out show the line on the screen. */
  ghost predicate Follows(t: Line, s: Screen) {
    s.column <= |s.cells| && Shows(Replay(s, t.output), t.text, t.cursor)
  }

  /** An echo that fits the drained queue arrives whole. */
  lemma OutFollows(next: Line, s: Screen, echo: seq<byte>)
    requires next.output == [] && |echo| <= INPUT_CAPACITY && s.column <= |s.cells|
    requires Shows(Replay(s, echo), next.text, next.cursor)
    ensures Follows(next.Out(echo), s)
  {
    assert [] + echo == echo;
  }

  lemma BellFollows(t: Line, s: Screen)
    requires InStep(t, s) && t.output == []
    ensures Follows(t, s) && Follows(t.Bell(true), s)
  {
    assert Replay(s, [7]) == Type(Replay(s, []), 7) by {
      assert [7][..0] == [];
    }
  }

  lemma EraseFollows(t: Line, s: Screen)
    requires InStep(t, s) && t.output == []
    ensures Follows(t.Erase(true), s)
  {
    hide Replay, Follows;
    if t.cursor == 0 {
      BellFollows(t, s);
    } else {
      EraseShows(s, t);
      var next := t.(text := t.text[..t.cursor - 1] + t.text[t.cursor..], cursor := t.cursor - 1);
      OutFollows(next, s, [8] + next.Repaint());
    }
  }

  lemma DeleteFollows(t: Line, s: Screen)
    requires InStep(t, s) && t.output == []
    ensures Follows(t.DeleteAt(true), s)
  {
    hide Replay, Follows;
    if t.cursor == |t.text| {
      BellFollows(t, s);
    } else {
      DeleteShows(s, t);
      var next := t.(text := t.text[..t.cursor] + t.text[t.cursor + 1..]);
      OutFollows(next, s, next.Repaint());
    }
  }

  lemma KillFollows(t: Line, s: Screen)
    requires InStep(t, s) && t.output == []
    ensures Follows(t.Kill(true), s)
  {
    hide Replay, Follows;
    KillShows(s, t);
    KillEchoBound(t);
    OutFollows(t.(text := [], cursor := 0), s, t.KillEcho());
  }

  /** What a signal puts out: the kill and as much of its mark as fits. */
  lemma RaiseOutput(t: Line, g: Signal)
    requires t.Valid() && t.output == [] && Echoing(t.a)
    ensures |t.KillEcho()| == INPUT_CAPACITY - RoomAfterKill(t) && RoomAfterKill(t) >= 0
    ensures var next := t.Raise(g, true);
            && next.text == [] && next.cursor == 0
            && next.output == t.KillEcho()
                + (if RoomAfterKill(t) < 3 then SignalText(g)[..RoomAfterKill(t)] else SignalText(g))
  {
    assert [] + t.KillEcho() == t.KillEcho();
  }

  /** A signal is followed unless its mark is cut off before the newline. */
  lemma RaiseFollows(t: Line, s: Screen, g: Signal)
    requires InStep(t, s) && t.output == []
    ensures Follows(t.Raise(g, true), s) <==> RoomAfterKill(t) == 0 || RoomAfterKill(t) >= 3
  {
    hide Replay, Shows, Line.Raise, Line.KillEcho;
    ShownColumn(s, t.text, t.cursor);
    RaiseOutput(t, g);
    KillShows(s, t);
    var kill, room := t.KillEcho(), RoomAfterKill(t);
    if room >= 3 {
      NewlineShows(s, kill + SignalText(g));
    } else {
      MarkShown(s, kill, SignalText(g)[..room]);
    }
  }

  /** Behind a cleared line anything printable shows. */
  lemma MarkShown(s: Screen, kill: seq<byte>, mark: seq<byte>)
    requires s.column <= |s.cells| && Shows(Replay(s, kill), [], 0) && AllPrintable(mark)
    ensures Shows(Replay(s, kill + mark), [], 0) <==> mark == []
  {
    hide Replay, Shows, Overwrite;
    ShownColumn(Replay(s, kill), [], 0);
    if mark == [] {
      assert kill + mark == kill;
    } else {
      ReplayAppend(s, kill, mark);
      ReplayText(Replay(s, kill), mark);
      if Shows(Replay(s, kill + mark), [], 0) {
        ShownColumn(Replay(s, kill + mark), [], 0);
      }
    }
  }

  lemma CommitFollows(t: Line, s: Screen)
    requires InStep(t, s) && t.output == []
    ensures Follows(t.CommitLine(true), s)
  {
    hide Replay, Follows, Shows, Queued;
    ShownColumn(s, t.text, t.cursor);
    NewlineShows(s, [10]);
    BellFollows(t, s);
    if t.HasRoom(|t.text| + 1) {
      var next := t.(ready := t.ready + t.text + [10], records := t.records + [Record(|t.text| + 1, false)], text := [],
                     cursor := 0);
      OutFollows(next, s, [10]);
    }
  }

  /** An end of file is followed unless it takes visible text or a moved cursor away. */
  lemma EofFollows(t: Line, s: Screen)
    requires InStep(t, s) && t.output == []
    ensures Follows(t.CommitEof(true), s) <==>
              t.text == [] || !t.HasRoom(|t.text|) || (t.cursor == 0 && AllBlank(t.text))
  {
    BellFollows(t, s);
    if t.HasRoom(|t.text|) {
      BlankScreen(s, t.text, t.cursor);
      assert Replay(s, []) == s;
    }
  }

  /** A screen shows a line and the empty line at once exactly when the line is blank and the cursor at its start. */
  lemma BlankScreen(s: Screen, text: seq<byte>, cursor: nat)
    requires Shows(s, text, cursor)
    ensures Shows(s, [], 0) <==> cursor == 0 && AllBlank(text)
  {
    assert [] + Repeat(|s.cells|, 32) == Repeat(|s.cells|, 32);
    if Shows(s, [], 0) {
      assert forall i :: 0 <= i < |text| ==> text[i] == s.cells[i];
    }
    if cursor == 0 && AllBlank(text) {
      assert s.cells == Repeat(|s.cells|, 32);
    }
  }

  lemma ShownColumn(s: Screen, text: seq<byte>, cursor: nat)
    requires Shows(s, text, cursor)
    ensures s.column == cursor <= |s.cells|
  {
  }

  /** Whatever is typed, a screen of printable cells stays one. */
  lemma {:induction false} ReplayPrintable(s: Screen, bytes: seq<byte>)
    requires s.column <= |s.cells| && AllPrintable(s.cells)
    ensures AllPrintable(Replay(s, bytes).cells)
    decreases |bytes|
  {
    if bytes == [] {
    } else {
      ReplayPrintable(s, bytes[..|bytes| - 1]);
    }
  }

  /** So a line that is shown is printable. */
  lemma ShownPrintable(s: Screen, bytes: seq<byte>, text: seq<byte>, cursor: nat)
    requires s.column <= |s.cells| && AllPrintable(s.cells) && Shows(Replay(s, bytes), text, cursor)
    ensures AllPrintable(text)
  {
    ReplayPrintable(s, bytes);
    var cells := Replay(s, bytes).cells;
    hide Replay;
    assert forall i :: 0 <= i < |text| ==> text[i] == cells[i];
  }

  lemma InStepCells(t: Line, s: Screen)
    requires InStep(t, s)
    ensures s.column <= |s.cells| && AllPrintable(s.cells)
  {
  }

  /** A byte is followed exactly if it is printable or only rings the bell. */
  lemma InsertFollows(t: Line, s: Screen, b: byte)
    requires InStep(t, s) && t.output == []
    ensures Follows(t.Insert(b, true), s) <==> Printable(b) || |t.text| == EDIT_CAPACITY
  {
    hide Replay, Follows;
    if |t.text| == EDIT_CAPACITY {
      BellFollows(t, s);
    } else if Printable(b) {
      InsertShows(s, t, b);
      var next := t.(text := t.text[..t.cursor] + [b] + t.text[t.cursor..], cursor := t.cursor + 1);
      OutFollows(next, s, [b] + t.text[t.cursor..] + Repeat(|t.text| - t.cursor, 8));
    } else {
      UnprintableLost(t, s, b);
    }
  }

  lemma UnprintableLost(t: Line, s: Screen, b: byte)
    requires InStep(t, s) && |t.text| < EDIT_CAPACITY && !Printable(b)
    ensures !Follows(t.Insert(b, true), s)
  {
    InStepCells(t, s);
    var next := t.Insert(b, true);
    assert next.text[t.cursor] == b;
    if Follows(next, s) {
      ShownPrintable(s, next.output, next.text, next.cursor);
    }
  }

  lemma MoveFollows(t: Line, s: Screen, key: Key)
    requires InStep(t, s) && t.output == [] && (key.ArrowLeft? || key.ArrowRight? || key.Home? || key.End?)
    ensures Follows(t.Press(key, true), s)
  {
    hide Replay, Follows;
    BellFollows(t, s);
    match key
    case ArrowLeft =>
      if t.cursor > 0 {
        ReplayBack(s, 1);
        assert Repeat(1, 8) == [8];
        OutFollows(t.(cursor := t.cursor - 1), s, [8]);
      }
    case ArrowRight =>
      if t.cursor < |t.text| {
        ReplayText(s, [t.text[t.cursor]]);
        assert Overwrite(s.cells, s.column, [t.text[t.cursor]]) == s.cells;
        OutFollows(t.(cursor := t.cursor + 1), s, [t.text[t.cursor]]);
      }
    case Home =>
      ReplayBack(s, t.cursor);
      OutFollows(t.(cursor := 0), s, Repeat(t.cursor, 8));
    case End =>
      EndShows(s, t);
      OutFollows(t.(cursor := |t.text|), s, t.text[t.cursor..]);
  }

  /** The display follows a key exactly when the key is echoable. */
  lemma PressFollows(t: Line, s: Screen, key: Key)
    requires InStep(t, s) && t.output == []
    ensures Follows(t.Press(key, true), s) <==> Echoable(t, key)
  {
    hide Follows, Line.Insert, Line.Erase, Line.DeleteAt, Line.Kill, Line.CommitLine, Line.CommitEof, Line.Raise;
    match key
    case Char(byte0) =>
      var b := t.MapByte(byte0);
      if t.SignalOf(b).Some? {
        RaiseFollows(t, s, t.SignalOf(b).value);
      } else if b == t.a.verase || b == 8 {
        EraseFollows(t, s);
      } else if b == t.a.vkill {
        KillFollows(t, s);
      } else if b == t.a.veof {
        EofFollows(t, s);
      } else if b == 10 || (t.a.veol != 0 && b == t.a.veol) {
        CommitFollows(t, s);
      } else {
        InsertFollows(t, s, b);
      }
    case Delete => DeleteFollows(t, s);
    case _ => MoveFollows(t, s, key);
  }

  /**
   Every echo of an editing key fits the drained queue; the kill is the longest and fills it exactly for
   a full line with the cursor at its start.
   */
  lemma KillEchoBound(t: Line)
    requires t.Valid()
    ensures |t.KillEcho()| <= INPUT_CAPACITY
    ensures |t.KillEcho()| == INPUT_CAPACITY <==> |t.text| == EDIT_CAPACITY && t.cursor == 0
    ensures |t.Repaint()| < INPUT_CAPACITY && 1 + 2 * (|t.text| - t.cursor) < INPUT_CAPACITY
  {
  }

  // ---------------------------------------------------------------- keys the display loses

  /** A line under the attributes a terminal starts with. */
  function StartLine(text: seq<byte>, cursor: nat): Line {
    Line(Attributes(true, true, true, true, true, true, false, 3, 28, 127, 21, 4, 10, 26, 1, 0), text, cursor, [], [],
         0, None, [])
  }

  /** The line "a", an end-of-file key: the line is committed and its text stays on the screen. */
  lemma EofLeavesText()
    ensures var t, s := StartLine([97], 1), Screen([97], 1);
            InStep(t, s) && t.Press(Char(4), true).text == [] && !Follows(t.Press(Char(4), true), s)
  {
    var t, s := StartLine([97], 1), Screen([97], 1);
    assert s.cells == [97] + Repeat(0, 32);
    PressFollows(t, s, Char(4));
  }

  /** A full line with the cursor one or two in, an interrupt key: its mark goes out without the newline. */
  lemma SignalCutShort(cursor: nat)
    requires cursor == 1 || cursor == 2
    ensures var t, s := StartLine(Repeat(EDIT_CAPACITY, 97), cursor), Screen(Repeat(EDIT_CAPACITY, 97), cursor);
            InStep(t, s) && RoomAfterKill(t) == cursor && !Follows(t.Press(Char(3), true), s)
  {
    var t, s := StartLine(Repeat(EDIT_CAPACITY, 97), cursor), Screen(Repeat(EDIT_CAPACITY, 97), cursor);
    assert s.cells == t.text + Repeat(0, 32);
    PressFollows(t, s, Char(3));
  }

  // ---------------------------------------------------------------- any sequence of keys

  /** Keys pressed one after another, the output drained to the terminal after each. */
  function Play(t: Line, s: Screen, keys: seq<Key>): (r: (Line, Screen))
    requires t.Valid() && s.column <= |s.cells|
    decreases |keys|
  {
    if keys == [] then (t, s)
    else
      var next := t.Press(keys[0], true);
      Play(next.(output := []), Replay(s, next.output), keys[1..])
  }

  predicate AllEchoable(t: Line, keys: seq<Key>)
    requires t.Valid()
    decreases |keys|
  {
    keys == [] ||
    (Echoable(t, keys[0]) && AllEchoable(t.Press(keys[0], true).(output := []), keys[1..]))
  }

  /** The terminal shows the line after every one of the keys. */
  ghost predicate AlwaysShown(t: Line, s: Screen, keys: seq<Key>)
    requires t.Valid() && s.column <= |s.cells|
    decreases |keys|
  {
    keys == [] ||
    (var next := t.Press(keys[0], true);
     Follows(next, s) && AlwaysShown(next.(output := []), Replay(s, next.output), keys[1..]))
  }

  lemma FollowsInStep(t: Line, s: Screen, key: Key)
    requires InStep(t, s) && Follows(t.Press(key, true), s)
    ensures var next := t.Press(key, true); InStep(next.(output := []), Replay(s, next.output))
  {
    hide Line.Press, Replay;
    InStepCells(t, s);
    var next := t.Press(key, true);
    ShownPrintable(s, next.output, next.text, next.cursor);
  }

  /**
   For every sequence of keys: the terminal shows exactly the edited line, cursor included, after each
   of them if and only if each of them is echoable when it is pressed.
   */
  lemma {:induction false} EchoShowsLine(t: Line, s: Screen, keys: seq<Key>)
    requires InStep(t, s) && t.output == []
    ensures s.column <= |s.cells|
    ensures AlwaysShown(t, s, keys) <==> AllEchoable(t, keys)
    ensures AllEchoable(t, keys) ==> var (t', s') := Play(t, s, keys); InStep(t', s') && t'.output == []
    decreases |keys|
  {
    hide Line.Press, Echoable, Replay, Shows;
    ShownColumn(s, t.text, t.cursor);
    if keys == [] {
    } else {
      PressFollows(t, s, keys[0]);
      if Echoable(t, keys[0]) {
        FollowsInStep(t, s, keys[0]);
        var next := t.Press(keys[0], true);
        EchoShowsLine(next.(output := []), Replay(s, next.output), keys[1..]);
      }
    }
  }

  /** The keys that only move, insert, erase, delete or kill. */
  predicate Edits(t: Line, key: Key) {
    if !key.Char? then true
    else
      var b := t.MapByte(key.b);
      && t.SignalOf(b).None? && b != t.a.veof
      && (b == t.a.verase || b == 8 || b == t.a.vkill || b == 10 || (t.a.veol != 0 && b == t.a.veol) || Printable(b))
  }

  /**
   Editing keys on printable bytes, and ends of line, are followed in every sequence without a condition on
   the line.
   */
  lemma {:induction false} EditingAlwaysShown(t: Line, s: Screen, keys: seq<Key>)
    requires InStep(t, s) && t.output == [] && forall i :: 0 <= i < |keys| ==> Edits(t, keys[i])
    ensures s.column <= |s.cells| && AlwaysShown(t, s, keys)
    ensures var (t', s') := Play(t, s, keys); InStep(t', s')
  {
    EditingEchoable(t, keys);
    EchoShowsLine(t, s, keys);
  }

  lemma {:induction false} EditingEchoable(t: Line, keys: seq<Key>)
    requires t.Valid() && forall i :: 0 <= i < |keys| ==> Edits(t, keys[i])
    ensures AllEchoable(t, keys)
    decreases |keys|
  {
    hide Line.Press;
    if keys == [] {
    } else {
      assert Edits(t, keys[0]);
      var next := t.Press(keys[0], true).(output := []);
      assert next.a == t.a;
      assert forall i :: 0 <= i < |keys[1..]| ==> keys[1..][i] == keys[i + 1];
      EditingEchoable(next, keys[1..]);
    }
  }
}
