/** Canonical input as a queue of lines, and what readers get of it over a whole run. */
module TtyRecords {
  import opened Bytes
  import opened Tty

  datatype Committed = Data(bytes: seq<byte>) | Eof

  /** What is left of the line being read, and the lines committed after it. */
  datatype Pending = Pending(rest: seq<byte>, lines: seq<Committed>)

  /** Cuts the input queue into lines at the record lengths. */
  function Lines(ready: seq<byte>, records: seq<Record>): (r: seq<Committed>)
    requires Total(records) == |ready|
    ensures |r| == |records|
    decreases |records|
  {
    if records == [] then []
    else
      var last := records[|records| - 1];
      var cut := |ready| - last.length;
      Lines(ready[..cut], records[..|records| - 1]) + [if last.eof then Eof else Data(ready[cut..])]
  }

  function Abs(t: Line): Pending
    requires t.a.icanon && t.Accounted()
  {
    Pending(t.ready[..t.active], Lines(t.ready[t.active..], t.records))
  }

  lemma {:induction false} LinesHead(ready: seq<byte>, records: seq<Record>)
    requires records != [] && Total(records) == |ready|
    ensures records[0].length <= |ready| && Total(records[1..]) == |ready| - records[0].length
    ensures Lines(ready, records)
         == [if records[0].eof then Eof else Data(ready[..records[0].length])]
            + Lines(ready[records[0].length..], records[1..])
    decreases |records|
  {
    hide Lines, Total;
    TotalHead(records);
    LinesLast(ready, records);
    var n := records[0].length;
    var front := records[..|records| - 1];
    var cut := |ready| - records[|records| - 1].length;
    if |records| == 1 {
      LinesNone(ready[..cut], front);
      LinesNone(ready[n..], records[1..]);
      assert ready[cut..] == ready[..n];
    } else {
      LinesHead(ready[..cut], front);
      LinesSlices(ready, records, n, cut);
      LinesLast(ready[n..], records[1..]);
    }
  }

  lemma LinesNone(ready: seq<byte>, records: seq<Record>)
    requires records == [] && Total(records) == |ready|
    ensures ready == [] && Lines(ready, records) == []
  {
  }

  lemma LinesLast(ready: seq<byte>, records: seq<Record>)
    requires records != [] && Total(records) == |ready|
    ensures var last := records[|records| - 1];
            var cut := |ready| - last.length;
            && 0 <= cut && Total(records[..|records| - 1]) == cut
            && Lines(ready, records)
               == Lines(ready[..cut], records[..|records| - 1]) + [if last.eof then Eof else Data(ready[cut..])]
  {
  }

  /** The same cuts, made from the front or from the back. */
  lemma LinesSlices(ready: seq<byte>, records: seq<Record>, n: nat, cut: nat)
    requires |records| >= 2 && n <= cut <= |ready|
    ensures records[..|records| - 1][1..] == records[1..][..|records| - 2]
    ensures ready[n..][..cut - n] == ready[..cut][n..] && ready[n..][cut - n..] == ready[cut..]
    ensures ready[..cut][..n] == ready[..n]
  {
  }

  /** Committing a record puts one line at the end of the queue. */
  lemma LinesSnoc(ready: seq<byte>, records: seq<Record>, bytes: seq<byte>, record: Record)
    requires Total(records) == |ready| && record.length == |bytes|
    ensures Total(records + [record]) == |ready + bytes|
    ensures Lines(ready + bytes, records + [record])
         == Lines(ready, records) + [if record.eof then Eof else Data(bytes)]
  {
    TotalAppend(records, [record]);
    assert Total([record]) == record.length;
    assert (records + [record])[..|records|] == records;
    assert (ready + bytes)[..|ready|] == ready;
    assert (ready + bytes)[|ready|..] == bytes;
  }

  lemma Commits(t: Line, bytes: seq<byte>, eof: bool, next: Line)
    requires t.a.icanon && t.Accounted() && next.a.icanon && next.active == t.active && (eof <==> bytes == [])
    requires next.ready == t.ready + bytes && next.records == t.records + [Record(|bytes|, eof)]
    ensures next.Accounted()
    ensures Abs(next) == Pending(Abs(t).rest, Abs(t).lines + [if eof then Eof else Data(bytes)])
  {
    hide Lines, Total;
    TotalAppend(t.records, [Record(|bytes|, eof)]);
    LinesSnoc(t.ready[t.active..], t.records, bytes, Record(|bytes|, eof));
    assert next.ready[next.active..] == t.ready[t.active..] + bytes;
    assert next.ready[..next.active] == t.ready[..t.active];
  }

  // ---------------------------------------------------------------- the queue of lines

  /** The line a key commits, if it commits one. */
  function Commit(t: Line, key: Key): Option<Committed> {
    if !key.Char? || !t.a.icanon || t.SignalOf(t.MapByte(key.b)).Some? then None
    else
      var b := t.MapByte(key.b);
      if b == t.a.verase || b == 8 || b == t.a.vkill then None
      else if b == t.a.veof then
        if !t.HasRoom(|t.text|) then None else if t.text == [] then Some(Eof) else Some(Data(t.text))
      else if b == 10 || (t.a.veol != 0 && b == t.a.veol) then
        if t.HasRoom(|t.text| + 1) then Some(Data(t.text + [10])) else None
      else None
  }

  /** Reading from the queue of lines: never past the end of the line at hand. */
  function ReadLine(p: Pending, room: nat): (r: (Pending, Option<seq<byte>>))
  {
    if p.rest == [] && p.lines == [] then (p, None)
    else if p.rest == [] && p.lines[0].Eof? then (Pending([], p.lines[1..]), Some([]))
    else
      var line := if p.rest == [] then p.lines[0].bytes else p.rest;
      var n := if room < |line| then room else |line|;
      (Pending(line[n..], if p.rest == [] then p.lines[1..] else p.lines), Some(line[..n]))
  }

  /** A key changes the pending input only by the line it commits. */
  lemma PressPending(t: Line, key: Key, doEcho: bool)
    requires t.Valid() && t.a.icanon && t.Accounted()
    ensures var next := t.Press(key, doEcho);
            && next.Accounted()
            && Abs(next) == (if Commit(t, key).Some? then Pending(Abs(t).rest, Abs(t).lines + [Commit(t, key).value])
                             else Abs(t))
  {
    hide Line.Insert, Line.Erase, Line.DeleteAt, Line.Kill, Line.Raise, Line.Accounted, Lines;
    var next := t.Press(key, doEcho);
    PressQueues(t, key, doEcho);
    if Commit(t, key).Some? {
      var c := Commit(t, key).value;
      Commits(t, if c.Eof? then [] else c.bytes, c.Eof?, next);
    } else {
      SameQueues(t, next);
    }
  }

  lemma SameQueues(t: Line, next: Line)
    requires t.Accounted() && next.a == t.a && next.ready == t.ready && next.records == t.records
             && next.active == t.active
    ensures next.Accounted() && (t.a.icanon ==> Abs(next) == Abs(t))
  {
  }

  lemma PressQueues(t: Line, key: Key, doEcho: bool)
    requires t.Valid() && t.a.icanon
    ensures var next := t.Press(key, doEcho);
            && next.active == t.active
            && match Commit(t, key)
               case None => next.ready == t.ready && next.records == t.records
               case Some(Eof) => next.ready == t.ready + [] && next.records == t.records + [Record(0, true)]
               case Some(Data(bytes)) =>
                 bytes != [] && next.ready == t.ready + bytes && next.records == t.records + [Record(|bytes|, false)]
  {
    hide Queued, Repeat;
  }

  /** A canonical read without a signal pending is a read from the queue of lines. */
  lemma ReadPending(t: Line, room: nat)
    requires t.a.icanon && t.Accounted() && t.interrupted.None?
    ensures t.CanPop(room)
    ensures var (next, r) := t.TryRead(room);
            var (p, bytes) := ReadLine(Abs(t), room);
            && next.Accounted() && next.a == t.a && Abs(next) == p
            && r == (if bytes.None? then Blocks else Bytes(bytes.value))
  {
    hide Lines;
    BalancedCanPop(t, room);
    if t.active > 0 {
      TakePending(t, room);
    } else {
      assert t.ready[..t.active] == [] && t.ready[t.active..] == t.ready;
      if t.records == [] {
      } else if t.records[0].eof {
        LinesHead(t.ready, t.records);
        var next := t.(records := t.records[1..]);
        assert next.ready[..next.active] == [] && next.ready[next.active..] == t.ready == t.ready[0..];
      } else {
        LinesHead(t.ready, t.records);
        var mid := t.(records := t.records[1..], active := t.records[0].length);
        assert mid.Accounted();
        TakePending(mid, room);
      }
    }
  }

  lemma TakePending(t: Line, room: nat)
    requires t.a.icanon && t.Accounted() && t.active > 0
    ensures var (next, r) := t.TakeActive(room);
            var n := if room < t.active then room else t.active;
            && next.Accounted() && r == Bytes(Abs(t).rest[..n])
            && Abs(next) == Pending(Abs(t).rest[n..], Abs(t).lines)
  {
    var n := if room < t.active then room else t.active;
    var (next, r) := t.TakeActive(room);
    assert next.ready[..next.active] == t.ready[..t.active][n..];
    assert next.ready[next.active..] == t.ready[t.active..];
    assert t.ready[..t.active][..n] == t.ready[..n];
  }

  // ---------------------------------------------------------------- whole runs

  datatype Op =
    | Press(key: Key, doEcho: bool)
    | Read(room: nat, drain: bool)
    | DrainOutput(n: nat)
    | Flush
    | SetAttributes(attributes: Attributes, flush: bool)

  /** ICANON only changes when the input is flushed or there is none. */
  predicate Allowed(t: Line, op: Op) {
    op.SetAttributes? && !op.flush ==> op.attributes.icanon == t.a.icanon || (t.ready == [] && t.records == [])
  }

  function Apply(t: Line, op: Op): Line
    requires t.Valid() && t.Accounted()
  {
    match op
    case Press(key, doEcho) => t.Press(key, doEcho)
    case Read(room, drain) =>
      BalancedCanPop(t, room);
      t.ReadOnce(room, drain).0
    case DrainOutput(n) => t.(output := t.output[if n < |t.output| then n else |t.output|..])
    case Flush => t.Flush()
    case SetAttributes(attributes, flush) => t.SetAttributes(attributes, flush)
  }

  lemma RawKeeps(t: Line, op: Op)
    requires t.Valid() && t.Accounted() && !t.a.icanon && (op.Press? || op.Read?)
    ensures Apply(t, op).Valid() && Apply(t, op).Accounted()
  {
    hide Queued, Repeat;
  }

  lemma ReadKeepsValid(t: Line, room: nat)
    requires t.Valid() && t.Accounted()
    ensures t.CanPop(room) && t.TryRead(room).0.Valid()
  {
    BalancedCanPop(t, room);
  }

  /** An operation keeps the record lengths in balance with the queued bytes if and only if it is allowed. */
  lemma ApplyKeeps(t: Line, op: Op)
    requires t.Valid() && t.Accounted()
    ensures Apply(t, op).Valid()
    ensures Apply(t, op).Accounted() <==> Allowed(t, op)
  {
    if op.Press? && t.a.icanon {
      PressPending(t, op.key, op.doEcho);
    } else if op.Read? {
      ReadKeepsValid(t, op.room);
      if t.a.icanon && t.interrupted.None? {
        ReadPending(t, op.room);
      } else if t.a.icanon {
        SameQueues(t, t.(interrupted := None));
      } else {
        RawKeeps(t, op);
      }
    } else if op.Press? {
      RawKeeps(t, op);
    } else {
      assert Total([]) == 0;
      if op.SetAttributes? && !op.flush {
        ModeKeeps(t, op.attributes);
      }
    }
  }

  /** New attributes without a flush keep the balance unless they change the mode over pending input. */
  lemma ModeKeeps(t: Line, attributes: Attributes)
    requires t.Accounted()
    ensures t.(a := attributes).Accounted() <==> Allowed(t, SetAttributes(attributes, false))
  {
    var next := t.(a := attributes);
    if t.a.icanon && attributes.icanon {
      SameRecords(t, next);
    } else if t.a.icanon {
      assert Total([]) == 0;
    }
  }

  /**
   What the balance is for: pending canonical input, drained in raw mode between two changes of ICANON
   without a flush, leaves a record whose bytes are gone, and then no read into a nonempty buffer can pop them.
   */
  lemma DrainedBetweenModes(t: Line, raw: Attributes, room: nat)
    requires t.Accounted() && t.a.icanon && t.interrupted.None? && !raw.icanon && room > 0
    requires t.ready != [] && (t.active > 0 || !t.records[0].eof)
    ensures var drained := t.SetAttributes(raw, false).ReadOnce(|t.ready|, true).0;
            drained.ready == [] && !drained.SetAttributes(t.a, false).CanPop(room)
  {
  }

  lemma SameRecords(t: Line, next: Line)
    requires t.Accounted() && next.a.icanon && t.a.icanon
    requires next.ready == t.ready && next.records == t.records && next.active == t.active
    ensures next.Accounted()
  {
  }

  predicate AllAllowed(t: Line, ops: seq<Op>)
    requires t.Valid() && t.Accounted()
    decreases |ops|
  {
    ops == [] || (Allowed(t, ops[0]) && (ApplyKeeps(t, ops[0]); AllAllowed(Apply(t, ops[0]), ops[1..])))
  }

  function Execute(t: Line, ops: seq<Op>): (r: Line)
    requires t.Valid() && t.Accounted() && AllAllowed(t, ops)
    ensures r.Valid() && r.Accounted()
    decreases |ops|
  {
    if ops == [] then t
    else
      ApplyKeeps(t, ops[0]);
      Execute(Apply(t, ops[0]), ops[1..])
  }

  /** The bytes an operation makes available (a committed line, or a raw byte), and those it delivers. */
  function Added(t: Line, op: Op): seq<byte> {
    if !op.Press? then []
    else if t.a.icanon then
      if Commit(t, op.key).Some? && Commit(t, op.key).value.Data? then Commit(t, op.key).value.bytes else []
    else if op.key.Char? && t.SignalOf(t.MapByte(op.key.b)).None? && |t.ready| < INPUT_CAPACITY
      then [t.MapByte(op.key.b)]
    else []
  }

  function Taken(t: Line, op: Op): seq<byte>
    requires t.Accounted()
  {
    if !op.Read? then []
    else
      BalancedCanPop(t, op.room);
      var r := t.ReadOnce(op.room, op.drain).1;
      if r.Bytes? then r.bytes else []
  }

  function AllAdded(t: Line, ops: seq<Op>): seq<byte>
    requires t.Valid() && t.Accounted() && AllAllowed(t, ops)
    decreases |ops|
  {
    if ops == [] then []
    else
      ApplyKeeps(t, ops[0]);
      Added(t, ops[0]) + AllAdded(Apply(t, ops[0]), ops[1..])
  }

  function AllTaken(t: Line, ops: seq<Op>): seq<byte>
    requires t.Valid() && t.Accounted() && AllAllowed(t, ops)
    decreases |ops|
  {
    if ops == [] then []
    else
      ApplyKeeps(t, ops[0]);
      Taken(t, ops[0]) + AllTaken(Apply(t, ops[0]), ops[1..])
  }

  predicate Discards(op: Op) { op.Flush? || (op.SetAttributes? && op.flush) }

  /**
   In any run without a flush readers get what was made available, in order and once: the committed
   lines in canonical mode, the bytes as they came in raw mode.
   */
  lemma {:induction false} DeliversCommitted(t: Line, ops: seq<Op>)
    requires t.Valid() && t.Accounted() && AllAllowed(t, ops)
    requires forall i :: 0 <= i < |ops| ==> !Discards(ops[i])
    ensures t.ready + AllAdded(t, ops) == AllTaken(t, ops) + Execute(t, ops).ready
    decreases |ops|
  {
    hide Apply, Added, Taken, Line.Accounted;
    if ops == [] {
    } else {
      var op, rest := ops[0], ops[1..];
      ApplyKeeps(t, op);
      var next := Apply(t, op);
      DeliverStep(t, op);
      DeliversCommitted(next, rest);
      calc {
        t.ready + AllAdded(t, ops);
        t.ready + (Added(t, op) + AllAdded(next, rest));
        (t.ready + Added(t, op)) + AllAdded(next, rest);
        (Taken(t, op) + next.ready) + AllAdded(next, rest);
        Taken(t, op) + (next.ready + AllAdded(next, rest));
        Taken(t, op) + (AllTaken(next, rest) + Execute(next, rest).ready);
        (Taken(t, op) + AllTaken(next, rest)) + Execute(next, rest).ready;
      }
    }
  }

  /** One operation moves bytes from the committed line into the queue, and from there to the reader. */
  lemma DeliverStep(t: Line, op: Op)
    requires t.Valid() && t.Accounted() && Allowed(t, op) && !Discards(op)
    ensures t.ready + Added(t, op) == Taken(t, op) + Apply(t, op).ready
  {
    hide Line.Press, Line.TryRead, Line.ReadOnce, Line.Accounted, Lines;
    if op.Press? && t.a.icanon {
      PressQueues(t, op.key, op.doEcho);
    } else if op.Press? {
      RawPress(t, op.key, op.doEcho);
    } else if op.Read? {
      ReadTakes(t, op.room, op.drain);
    }
  }

  lemma RawPress(t: Line, key: Key, doEcho: bool)
    requires t.Valid() && !t.a.icanon
    ensures t.Press(key, doEcho).ready == t.ready + Added(t, Press(key, doEcho))
  {
    hide Queued, Repeat;
  }

  lemma ReadTakes(t: Line, room: nat, drain: bool)
    requires t.Accounted()
    ensures t.CanPop(room)
    ensures var next := t.ReadOnce(room, drain).0;
            t.ready == Taken(t, Read(room, drain)) + next.ready && next.a == t.a
  {
    BalancedCanPop(t, room);
  }

  /** A read into a nonempty buffer returns no bytes only for an end-of-file record. */
  lemma EmptyReadMeansEof(t: Line, room: nat)
    requires t.a.icanon && t.Accounted() && t.interrupted.None? && room > 0
    ensures t.CanPop(room)
    ensures t.TryRead(room).1 == Bytes([]) <==> Abs(t).rest == [] && Abs(t).lines != [] && Abs(t).lines[0].Eof?
  {
    ReadPending(t, room);
    if t.active == 0 && t.records != [] {
      assert t.ready[t.active..] == t.ready;
      LinesHead(t.ready, t.records);
      assert !t.records[0].eof ==> |t.ready[..t.records[0].length]| > 0;
    }
  }
}
