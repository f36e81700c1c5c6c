/** Which byte strings are directories: the layout of a record, said without the encoder and the parser. */
module DirectoryLayout {
  import opened Bytes
  import opened Directory

  /** The declared length of the record that starts here. */
  function Declared(b: seq<byte>): nat
    requires |b| >= 16
  {
    var high: nat := b[9];
    high * 256 + b[8]
  }

  /** The bytes the checksum is taken over: the record with its checksum field cleared. */
  function Cleared(b: seq<byte>): seq<byte>
    requires |b| >= 16
  {
    b[..12] + [0, 0, 0, 0] + b[16..]
  }

  /** These bytes are this record; its padding may be anything. */
  predicate Stands(crc: Checksum, b: seq<byte>, r: Record) {
    && |b| >= 16 + |r.name| && |b| % 8 == 0 && |b| == Declared(b)
    && b[..8] == LeBytes(r.inode, 8) && b[10] == |r.name|
    && b[11] == (if r.kind.Regular? then 1 else if r.kind.Subdirectory? then 2 else 3)
    && b[12..16] == LeBytes(crc(Cleared(b)), 4)
    && b[16..16 + |r.name|] == r.name
  }

  /** Records one behind the other and nothing else. */
  predicate Image(crc: Checksum, b: seq<byte>, records: seq<Record>)
    decreases |records|
  {
    if records == [] then b == []
    else |b| >= 16 && 16 <= Declared(b) <= |b| && Stands(crc, b[..Declared(b)], records[0])
         && Image(crc, b[Declared(b)..], records[1..])
  }

  /** A record that may follow these. */
  predicate Allowed(utf8: TextTest, before: seq<Record>, r: Record) {
    |before| < MAX_RECORDS && r.inode != 0 && utf8(r.name) && ValidName(r.name) && !Names(before, r.name)
  }

  predicate AllAllowed(utf8: TextTest, before: seq<Record>, records: seq<Record>)
    decreases |records|
  {
    records == [] || (Allowed(utf8, before, records[0]) && AllAllowed(utf8, before + [records[0]], records[1..]))
  }

  function Text(name: seq<byte>): string { seq(|name|, i requires 0 <= i < |name| => name[i] as char) }

  /** Valid names are the texts of 1 to 255 bytes without slash and NUL, except the two dot names. */
  lemma NameExact(name: seq<byte>)
    ensures ValidName(name) <==>
              && 1 <= |name| <= 255 && '/' !in Text(name) && '\0' !in Text(name)
              && Text(name) != "." && Text(name) != ".."
  {
    var t := Text(name);
    assert forall i :: 0 <= i < |name| ==> t[i] == name[i] as char;
    assert forall c: byte :: c as char in t <==> c in name;
    assert '/' == 47 as char && '\0' == 0 as char && '.' == 46 as char;
    assert name == [46] <==> |t| == 1 && t[0] == '.';
    assert name == [46, 46] <==> |t| == 2 && t[0] == '.' && t[1] == '.';
  }

  // ---------------------------------------------------------------- one record

  lemma LeExact(s: seq<byte>, v: nat)
    requires v < Pow256(|s|)
    ensures LeValue(s) == v <==> s == LeBytes(v, |s|)
  {
    LeRoundTrip(v, |s|);
    ModUnique(v, Pow256(|s|), 0, v);
    LeBytesOfValue(s);
  }

  lemma PairValue(s: seq<byte>)
    requires |s| == 2
    ensures var high: nat := s[1]; LeValue(s) == high * 256 + s[0]
  {
    assert LeValue(s[1..]) == s[1];
  }

  lemma DeclaredIs(bytes: seq<byte>, offset: nat)
    requires offset + 16 <= |bytes|
    ensures LeValue(bytes[offset + 8..offset + 10]) == Declared(bytes[offset..])
  {
    PairValue(bytes[offset + 8..offset + 10]);
  }

  /** The checksum field agrees with the checksum exactly when it holds its bytes. */
  lemma ChecksumAgrees(crc: Checksum, b: seq<byte>)
    requires |b| >= 16
    ensures crc(b[..12] + Zeros(4) + b[16..]) == LeValue(b[12..16]) <==> b[12..16] == LeBytes(crc(Cleared(b)), 4)
  {
    assert Zeros(4) == [0, 0, 0, 0];
    Pow256Values();
    LeExact(b[12..16], crc(Cleared(b)));
  }

  /** The parser takes a record here exactly when one stands here that may follow. */
  lemma OneExact(crc: Checksum, utf8: TextTest, bytes: seq<byte>, offset: nat, before: seq<Record>, r: Record)
    requires offset < |bytes|
    ensures var b := bytes[offset..];
            (exists next :: ParseOne(crc, utf8, bytes, offset, before) == Got(r, next)) <==>
              && |b| >= 16 && 16 <= Declared(b) <= |b| && Stands(crc, b[..Declared(b)], r) && Allowed(utf8, before, r)
    ensures var s := ParseOne(crc, utf8, bytes, offset, before);
            s.Got? ==> offset + 16 <= |bytes| && s.next == offset + Declared(bytes[offset..])
  {
    hide ValidName, Names, LeBytes, LeValue;
    var b := bytes[offset..];
    if |b| >= 16 {
      DeclaredIs(bytes, offset);
      var n := Declared(b);
      Pow256Values();
      assert b[..8] == bytes[offset..offset + 8];
      LeExact(bytes[offset..offset + 8], r.inode);
      if 16 <= n <= |b| {
        var chunk := b[..n];
        assert chunk == bytes[offset..offset + n];
        assert chunk[..8] == b[..8] && chunk[8] == b[8] && chunk[9] == b[9];
        assert chunk[10] == bytes[offset + 10] && chunk[11] == bytes[offset + 11];
        ChecksumAgrees(crc, chunk);
        var s := ParseOne(crc, utf8, bytes, offset, before);
        if s.Got? && s.record == r {
          assert s == Got(r, offset + n);
        }
        if Stands(crc, chunk, r) && Allowed(utf8, before, r) {
          assert s == Got(r, offset + n);
        }
      }
    }
  }

  // ---------------------------------------------------------------- the whole directory

  /** What is parsed stays. */
  lemma {:induction false} ParseGrows(crc: Checksum, utf8: TextTest, bytes: seq<byte>, offset: nat,
                                      before: seq<Record>)
    requires offset <= |bytes|
    ensures var p := ParseFrom(crc, utf8, bytes, offset, before);
            p.Records? ==> |p.records| >= |before| && p.records[..|before|] == before
    decreases |bytes| - offset
  {
    hide ParseOne;
    if offset == |bytes| {
    } else {
      var s := ParseOne(crc, utf8, bytes, offset, before);
      if s.Got? {
        ParseGrows(crc, utf8, bytes, s.next, before + [s.record]);
      }
    }
  }

  lemma {:induction false} ParseFromExact(crc: Checksum, utf8: TextTest, bytes: seq<byte>, offset: nat,
                                          before: seq<Record>, records: seq<Record>)
    requires offset <= |bytes|
    ensures ParseFrom(crc, utf8, bytes, offset, before) == Records(before + records)
            <==> Image(crc, bytes[offset..], records) && AllAllowed(utf8, before, records)
    decreases |bytes| - offset
  {
    hide ParseOne, Stands, Allowed;
    if offset == |bytes| {
    } else if records == [] {
      var s := ParseOne(crc, utf8, bytes, offset, before);
      if s.Got? {
        ParseGrows(crc, utf8, bytes, s.next, before + [s.record]);
      }
    } else {
      var s, r := ParseOne(crc, utf8, bytes, offset, before), records[0];
      OneExact(crc, utf8, bytes, offset, before, r);
      if s.Got? {
        assert bytes[offset..][Declared(bytes[offset..])..] == bytes[s.next..];
        ParseGrows(crc, utf8, bytes, s.next, before + [s.record]);
        if s.record == r {
          assert before + records == (before + [r]) + records[1..];
          ParseFromExact(crc, utf8, bytes, s.next, before + [r], records[1..]);
        } else {
          assert (before + records)[|before|] == r;
        }
      }
    }
  }

  /**
   A byte string parses to these records exactly when it is their image, is not too large, and each
   record has an inode, a valid name in UTF-8 that no earlier record has, and a place among 65535.
   */
  lemma ParseExact(crc: Checksum, utf8: TextTest, bytes: seq<byte>, records: seq<Record>)
    ensures Parse(crc, utf8, bytes) == Records(records)
            <==> |bytes| <= MAX_DIRECTORY_SIZE && Image(crc, bytes, records) && AllAllowed(utf8, [], records)
  {
    hide ParseFrom, Image, AllAllowed;
    ParseFromExact(crc, utf8, bytes, 0, [], records);
    assert [] + records == records && bytes[0..] == bytes;
  }

  /** The encoder writes the image of its records, in the fewest bytes, and clears the padding. */
  lemma EncodeImage(crc: Checksum, records: seq<Record>, k: nat)
    requires Encode(crc, records).Bytes? && k < |records|
    ensures Image(crc, Encode(crc, records).bytes, records)
    ensures var at, n := TotalLength(records[..k]), |records[k].name|;
            && at + RecordLength(n) <= |Encode(crc, records).bytes|
            && (var b := Encode(crc, records).bytes[at..at + RecordLength(n)];
                Stands(crc, b, records[k]) && forall i :: 16 + n <= i < |b| ==> b[i] == 0)
  {
    var bytes := Encode(crc, records).bytes;
    ImageOfEncoded(crc, records);
    hide Encode, Image, Stands, TotalLength, Storable, AllBytes;
    EncodeResult(crc, records);
    var at, n := TotalLength(records[..k]), |records[k].name|;
    StorableName(records, k);
    SealedStands(crc, records[k]);
    var after := AllBytesSplit(crc, records, k);
    assert |AllBytes(crc, records[..k])| == at;
    hide Seal, Unsealed;
    var sealed := Seal(crc, Unsealed(records[k]));
    assert bytes == AllBytes(crc, records[..k]) + sealed + after;
    assert bytes[at..at + RecordLength(n)] == sealed;
  }

  lemma StorableName(records: seq<Record>, k: nat)
    requires Storable(records) && k < |records|
    ensures |records[k].name| <= 255
  {
  }

  lemma ImageOfEncoded(crc: Checksum, records: seq<Record>)
    requires Encode(crc, records).Bytes?
    ensures Image(crc, Encode(crc, records).bytes, records)
  {
    hide Encode, Image, Parse;
    var any: TextTest := _ => true;
    EncodeParse(crc, any, records);
    ParseExact(crc, any, Encode(crc, records).bytes, records);
  }

  lemma SealedStands(crc: Checksum, r: Record)
    requires |r.name| <= 255
    ensures var b := Seal(crc, Unsealed(r));
            Stands(crc, b, r) && forall i :: 16 + |r.name| <= i < |b| ==> b[i] == 0
  {
    var u := Unsealed(r);
    var b := Seal(crc, u);
    var n := RecordLength(|r.name|);
    SealedFields(crc, r);
    Padding(crc, r);
    hide LeBytes, LeValue, RecordLength, Unsealed, Seal;
    Pow256Values();
    LeExact(b[0..8], r.inode);
    PairValue(b[8..10]);
    assert b[..8] == b[0..8];
    assert Zeros(4) == [0, 0, 0, 0];
    LeExact(b[12..16], crc(u));
  }

  lemma Padding(crc: Checksum, r: Record)
    ensures var b := Seal(crc, Unsealed(r)); forall i :: 16 + |r.name| <= i < |b| ==> b[i] == 0
  {
    hide LeBytes, RecordLength;
    var u := Unsealed(r);
    assert forall i :: 16 + |r.name| <= i < |u| ==> u[i] == 0;
    assert Seal(crc, u)[16..] == u[16..];
  }

  // ---------------------------------------------------------------- what stops either

  /** What an error of the encoder says of the record it stops at, given those before it. */
  predicate Stops(before: seq<Record>, r: Record, error: Error) {
    match error
    case TooManyEntries => |before| >= MAX_RECORDS
    case InvalidInode => r.inode == 0
    case InvalidName => !ValidName(r.name)
    case DuplicateName => Names(before, r.name)
    case TooLarge => TotalLength(before) + RecordLength(|r.name|) > MAX_DIRECTORY_SIZE
    case _ => false
  }

  /** A failing encoder names what is wrong with the first record that cannot be stored. */
  lemma EncodeFails(crc: Checksum, records: seq<Record>) returns (k: nat)
    requires Encode(crc, records).EncodeFailed?
    ensures k < |records| && Storable(records[..k]) && !Storable(records[..k + 1])
    ensures Stops(records[..k], records[k], Encode(crc, records).error)
  {
    assert records[..0] == [];
    k := EncodeFailsFrom(crc, records, 0);
  }

  lemma {:induction false} EncodeFailsFrom(crc: Checksum, records: seq<Record>, from: nat) returns (k: nat)
    requires from <= |records| && Storable(records[..from])
    requires EncodeFrom(crc, records, from, AllBytes(crc, records[..from])).EncodeFailed?
    ensures k < |records| && Storable(records[..k]) && !Storable(records[..k + 1])
    ensures Stops(records[..k], records[k], EncodeFrom(crc, records, from, AllBytes(crc, records[..from])).error)
    decreases |records| - from
  {
    hide Seal, Unsealed, ValidName, RecordLength, AllBytes, TotalLength, Names, Stops, Storable;
    ErrorStops(records, from);
    if EncodeError(records, from, TotalLength(records[..from])).Some? {
      k := from;
    } else {
      AllBytesStep(crc, records, from);
      k := EncodeFailsFrom(crc, records, from + 1);
    }
  }

  lemma ErrorStops(records: seq<Record>, k: nat)
    requires k < |records| && Storable(records[..k])
    ensures var e := EncodeError(records, k, TotalLength(records[..k]));
            && (e.None? <==> Storable(records[..k + 1]))
            && (e.Some? ==> Stops(records[..k], records[k], e.value))
  {
    hide ValidName, RecordLength, TotalLength;
    var before, all := records[..k], records[..k + 1];
    TotalStep(records, k);
    assert all == before + [records[k]];
    assert forall i :: 0 <= i < k ==> all[i] == before[i];
    if Names(before, records[k].name) {
      var i :| 0 <= i < |before| && before[i].name == records[k].name;
      assert all[i].name == all[k].name;
    }
  }

  /** What an error of the parser says of the bytes it stops at, given the records before them. */
  predicate Damaged(crc: Checksum, utf8: TextTest, before: seq<Record>, b: seq<byte>, error: Error) {
    if error.TooManyEntries? then |before| >= MAX_RECORDS
    else if |b| < 16 then error.Truncated?
    else if error.InvalidRecordLength? then Declared(b) - 16 < b[10] || Declared(b) % 8 != 0
    else if Declared(b) - 16 < b[10] then false
    else if Declared(b) > |b| then error.Truncated?
    else
      var chunk := b[..Declared(b)];
      var n: nat := chunk[10];
      var name := chunk[16..16 + n];
      match error
      case BadChecksum => chunk[12..16] != LeBytes(crc(Cleared(chunk)), 4)
      case InvalidInode => forall i :: 0 <= i < 8 ==> chunk[i] == 0
      case InvalidName => !utf8(name) || !ValidName(name)
      case DuplicateName => Names(before, name)
      case InvalidKind => chunk[11] < 1 || chunk[11] > 3
      case _ => false
  }

  lemma ZeroExact(s: seq<byte>)
    ensures LeValue(s) == 0 <==> forall i :: 0 <= i < |s| ==> s[i] == 0
  {
  }

  lemma BadStops(crc: Checksum, utf8: TextTest, bytes: seq<byte>, offset: nat, before: seq<Record>)
    requires offset < |bytes|
    ensures var s := ParseOne(crc, utf8, bytes, offset, before);
            s.Bad? ==> Damaged(crc, utf8, before, bytes[offset..], s.error)
  {
    hide ValidName, Names, LeBytes, LeValue;
    var b := bytes[offset..];
    if |b| >= 16 {
      DeclaredIs(bytes, offset);
      ZeroExact(bytes[offset..offset + 8]);
      var n := Declared(b);
      if 16 <= n <= |b| {
        var chunk := b[..n];
        assert chunk == bytes[offset..offset + n];
        assert forall i :: 0 <= i < 8 ==> chunk[i] == bytes[offset..offset + 8][i];
        ChecksumAgrees(crc, chunk);
      }
    }
  }

  /** A failing parse has read the image of allowed records and names what is wrong with the next one. */
  lemma ParseFails(crc: Checksum, utf8: TextTest, bytes: seq<byte>) returns (before: seq<Record>, offset: nat)
    requires Parse(crc, utf8, bytes).ParseFailed? && |bytes| <= MAX_DIRECTORY_SIZE
    ensures offset < |bytes| && Image(crc, bytes[..offset], before) && AllAllowed(utf8, [], before)
    ensures Damaged(crc, utf8, before, bytes[offset..], Parse(crc, utf8, bytes).error)
  {
    assert bytes[..0] == [];
    ParseExact(crc, utf8, bytes[..0], []);
    before, offset := ParseFailsFrom(crc, utf8, bytes, 0, []);
  }

  lemma {:induction false} ParseFailsFrom(crc: Checksum, utf8: TextTest, bytes: seq<byte>, from: nat,
                                          read: seq<Record>)
    returns (before: seq<Record>, offset: nat)
    requires from <= |bytes| && Image(crc, bytes[..from], read) && AllAllowed(utf8, [], read)
    requires ParseFrom(crc, utf8, bytes, from, read).ParseFailed?
    ensures offset < |bytes| && Image(crc, bytes[..offset], before) && AllAllowed(utf8, [], before)
    ensures Damaged(crc, utf8, before, bytes[offset..], ParseFrom(crc, utf8, bytes, from, read).error)
    decreases |bytes| - from
  {
    hide ParseOne, Image, AllAllowed, Damaged, Stands, Allowed;
    var s := ParseOne(crc, utf8, bytes, from, read);
    if s.Bad? {
      BadStops(crc, utf8, bytes, from, read);
      before, offset := read, from;
    } else {
      OneExact(crc, utf8, bytes, from, read, s.record);
      var chunk := bytes[from..][..Declared(bytes[from..])];
      assert bytes[..s.next] == bytes[..from] + chunk;
      ImageSnoc(crc, bytes[..from], read, chunk, s.record);
      assert [] + read == read;
      AllowedSnoc(utf8, [], read, s.record);
      before, offset := ParseFailsFrom(crc, utf8, bytes, s.next, read + [s.record]);
    }
  }

  lemma StandsDeclared(crc: Checksum, b: seq<byte>, r: Record)
    requires Stands(crc, b, r)
    ensures |b| >= 16 && |b| == Declared(b)
  {
  }

  lemma {:induction false} ImageSnoc(crc: Checksum, b: seq<byte>, records: seq<Record>, chunk: seq<byte>, r: Record)
    requires Image(crc, b, records) && Stands(crc, chunk, r)
    ensures Image(crc, b + chunk, records + [r])
    decreases |records|
  {
    StandsDeclared(crc, chunk, r);
    hide Stands;
    if records == [] {
      assert b + chunk == chunk && records + [r] == [r];
      assert chunk[..Declared(chunk)] == chunk && chunk[Declared(chunk)..] == [];
    } else {
      var n := Declared(b);
      assert Declared(b + chunk) == n;
      hide Declared;
      assert (records + [r])[0] == records[0];
      assert (b + chunk)[..n] == b[..n] && (b + chunk)[n..] == b[n..] + chunk;
      assert (records + [r])[1..] == records[1..] + [r];
      ImageSnoc(crc, b[n..], records[1..], chunk, r);
    }
  }

  lemma {:induction false} AllowedSnoc(utf8: TextTest, before: seq<Record>, records: seq<Record>, r: Record)
    requires AllAllowed(utf8, before, records) && Allowed(utf8, before + records, r)
    ensures AllAllowed(utf8, before, records + [r])
    decreases |records|
  {
    hide Allowed;
    if records == [] {
      assert before + records == before;
      assert (records + [r])[1..] == [];
    } else {
      assert (records + [r])[1..] == records[1..] + [r];
      assert before + [records[0]] + records[1..] == before + records;
      AllowedSnoc(utf8, before + [records[0]], records[1..], r);
    }
  }
}
