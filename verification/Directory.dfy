/** The on-disk directory: checksummed records of variable length, encoded and parsed in sequence. */
module Directory {
  import opened Bytes

  const MAX_DIRECTORY_SIZE: nat := 0x10_0000
  const MAX_RECORDS: nat := 65535

  datatype Kind = Regular | Subdirectory | Symlink
  datatype Error =
    | TooLarge | Truncated | InvalidRecordLength | BadChecksum | InvalidInode
    | InvalidKind | InvalidName | DuplicateName | TooManyEntries

  /** The name is its UTF-8 bytes. */
  datatype Record = Record(inode: u64, kind: Kind, name: seq<byte>)

  datatype Parsed = Records(records: seq<Record>) | ParseFailed(error: Error)
  datatype Encoded = Bytes(bytes: seq<byte>) | EncodeFailed(error: Error)
  datatype Step = Got(record: Record, next: nat) | Bad(error: Error)

  /** The checksum and the UTF-8 test are parameters: the laws hold whatever they are. */
  type Checksum = seq<byte> -> u32
  type TextTest = seq<byte> -> bool

  function KindCode(k: Kind): byte {
    match k
    case Regular => 1
    case Subdirectory => 2
    case Symlink => 3
  }

  function KindFromDisk(b: byte): Option<Kind> {
    if b == 1 then Some(Regular) else if b == 2 then Some(Subdirectory) else if b == 3 then Some(Symlink) else None
  }

  predicate ValidName(name: seq<byte>) {
    name != [] && |name| <= 255 && 47 !in name && 0 !in name && name != [46] && name != [46, 46]
  }

  predicate Names(records: seq<Record>, name: seq<byte>) {
    exists i :: 0 <= i < |records| && records[i].name == name
  }

  /** Header and name, rounded up to eight bytes. */
  function RecordLength(n: nat): (r: nat)
    ensures r % 8 == 0 && 16 + n <= r < 16 + n + 8
  {
    (16 + n + 7) / 8 * 8
  }

  function Zeros(n: nat): (r: seq<byte>)
    ensures |r| == n
  {
    seq(n, _ => 0)
  }

  // ---------------------------------------------------------------- encoding

  /** A record before its checksum is filled in. */
  function Unsealed(r: Record): (b: seq<byte>)
    ensures |b| == RecordLength(|r.name|)
  {
    var length := RecordLength(|r.name|);
    LeBytes(r.inode, 8) + LeBytes(length, 2) + [|r.name| % 256, KindCode(r.kind)] + Zeros(4)
    + r.name + Zeros(length - 16 - |r.name|)
  }

  function Seal(crc: Checksum, b: seq<byte>): (r: seq<byte>)
    requires |b| >= 16
    ensures |r| == |b|
  {
    b[..12] + LeBytes(crc(b), 4) + b[16..]
  }

  /** What stops the record at this index, if anything does. */
  function EncodeError(records: seq<Record>, k: nat, used: nat): Option<Error>
    requires k < |records|
  {
    var r := records[k];
    if k >= MAX_RECORDS then Some(TooManyEntries)
    else if r.inode == 0 then Some(InvalidInode)
    else if !ValidName(r.name) then Some(InvalidName)
    else if Names(records[..k], r.name) then Some(DuplicateName)
    else if used + RecordLength(|r.name|) > MAX_DIRECTORY_SIZE then Some(TooLarge)
    else None
  }

  function EncodeFrom(crc: Checksum, records: seq<Record>, k: nat, bytes: seq<byte>): Encoded
    requires k <= |records|
    decreases |records| - k
  {
    if k == |records| then Bytes(bytes)
    else if EncodeError(records, k, |bytes|).Some? then EncodeFailed(EncodeError(records, k, |bytes|).value)
    else EncodeFrom(crc, records, k + 1, bytes + Seal(crc, Unsealed(records[k])))
  }

  function Encode(crc: Checksum, records: seq<Record>): Encoded { EncodeFrom(crc, records, 0, []) }

  method EncodeDirectory(crc: Checksum, records: seq<Record>) returns (r: Encoded)
    ensures r == Encode(crc, records)
  {
    var bytes: seq<byte> := [];
    for index := 0 to |records|
      invariant Encode(crc, records) == EncodeFrom(crc, records, index, bytes)
    {
      var record := records[index];
      if index >= MAX_RECORDS {
        return EncodeFailed(TooManyEntries);
      }
      if record.inode == 0 {
        return EncodeFailed(InvalidInode);
      }
      if !ValidName(record.name) {
        return EncodeFailed(InvalidName);
      }
      if Names(records[..index], record.name) {
        return EncodeFailed(DuplicateName);
      }
      var recordLen := RecordLength(|record.name|);
      if |bytes| + recordLen > MAX_DIRECTORY_SIZE || recordLen > 65535 {
        return EncodeFailed(TooLarge);
      }
      bytes := AppendRecord(crc, bytes, record);
    }
    r := Bytes(bytes);
  }

  /** Grows the buffer by one record and patches header, name and checksum into it. */
  method AppendRecord(crc: Checksum, bytes: seq<byte>, record: Record) returns (r: seq<byte>)
    requires |record.name| <= 255
    ensures r == bytes + Seal(crc, Unsealed(record))
  {
    var recordLen := RecordLength(|record.name|);
    var start := |bytes|;
    var part := WriteRecord(bytes + Zeros(recordLen), start, record);
    assert part[..start] == bytes;
    var checksum := crc(part[start..start + recordLen]);
    assert part[start..start + recordLen] == part[start..] == Unsealed(record);
    r := Patch(part, start + 12, LeBytes(checksum, 4));
    assert r[..start] == bytes;
    assert r[start..] == Seal(crc, Unsealed(record));
  }

  method WriteRecord(bytes: seq<byte>, start: nat, record: Record) returns (r: seq<byte>)
    requires |record.name| <= 255 && |bytes| == start + RecordLength(|record.name|)
    requires bytes[start..] == Zeros(RecordLength(|record.name|))
    ensures |r| == |bytes| && r[..start] == bytes[..start] && r[start..] == Unsealed(record)
  {
    hide LeBytes, RecordLength;
    var n := RecordLength(|record.name|);
    var inode, length := LeBytes(record.inode, 8), LeBytes(n, 2);
    ghost var before := bytes[..start];
    r := Patch(bytes, start, inode);
    assert r == before + inode + Zeros(n - 8);
    r := Patch(r, start + 8, length);
    assert r == before + (inode + length) + Zeros(n - 10);
    r := r[start + 10 := |record.name|];
    r := r[start + 11 := KindCode(record.kind)];
    ghost var header := inode + length + [|record.name|, KindCode(record.kind)];
    assert r == before + header + Zeros(n - 12);
    r := Patch(r, start + 16, record.name);
    assert r == before + (header + Zeros(4) + record.name + Zeros(n - 16 - |record.name|));
  }

  /** Copies a slice over part of the buffer. */
  function Patch(bytes: seq<byte>, at: nat, part: seq<byte>): (r: seq<byte>)
    requires at + |part| <= |bytes|
    ensures |r| == |bytes|
  {
    bytes[..at] + part + bytes[at + |part|..]
  }

  // ---------------------------------------------------------------- parsing

  /** One record at an offset, with the records before it. */
  function ParseOne(crc: Checksum, utf8: TextTest, bytes: seq<byte>, offset: nat, records: seq<Record>): (s: Step)
    requires offset < |bytes|
    ensures s.Got? ==> offset + 16 <= s.next <= |bytes|
  {
    if |records| >= MAX_RECORDS then Bad(TooManyEntries)
    else if offset + 16 > |bytes| then Bad(Truncated)
    else
      var inode := LeValue(bytes[offset..offset + 8]);
      var recordLen := LeValue(bytes[offset + 8..offset + 10]);
      var nameLen: nat := bytes[offset + 10];
      if recordLen < 16 + nameLen || recordLen % 8 != 0 then Bad(InvalidRecordLength)
      else if offset + recordLen > |bytes| then Bad(Truncated)
      else
        var record := bytes[offset..offset + recordLen];
        var name := record[16..16 + nameLen];
        if crc(record[..12] + Zeros(4) + record[16..]) != LeValue(record[12..16]) then Bad(BadChecksum)
        else if inode == 0 then Bad(InvalidInode)
        else if !utf8(name) || !ValidName(name) then Bad(InvalidName)
        else if Names(records, name) then Bad(DuplicateName)
        else if KindFromDisk(bytes[offset + 11]).None? then Bad(InvalidKind)
        else
          LeValueBound(bytes[offset..offset + 8]);
          Pow256Values();
          Got(Record(inode, KindFromDisk(bytes[offset + 11]).value, name), offset + recordLen)
  }

  function ParseFrom(crc: Checksum, utf8: TextTest, bytes: seq<byte>, offset: nat, records: seq<Record>): Parsed
    requires offset <= |bytes|
    decreases |bytes| - offset
  {
    if offset == |bytes| then Records(records)
    else
      match ParseOne(crc, utf8, bytes, offset, records)
      case Bad(error) => ParseFailed(error)
      case Got(record, next) => ParseFrom(crc, utf8, bytes, next, records + [record])
  }

  function Parse(crc: Checksum, utf8: TextTest, bytes: seq<byte>): Parsed {
    if |bytes| > MAX_DIRECTORY_SIZE then ParseFailed(TooLarge) else ParseFrom(crc, utf8, bytes, 0, [])
  }

  method ParseDirectory(crc: Checksum, utf8: TextTest, bytes: seq<byte>) returns (r: Parsed)
    ensures r == Parse(crc, utf8, bytes)
  {
    if |bytes| > MAX_DIRECTORY_SIZE {
      return ParseFailed(TooLarge);
    }
    var records: seq<Record> := [];
    var offset := 0;
    while offset < |bytes|
      invariant offset <= |bytes|
      invariant Parse(crc, utf8, bytes) == ParseFrom(crc, utf8, bytes, offset, records)
    {
      match ParseOne(crc, utf8, bytes, offset, records) {
        case Bad(error) =>
          return ParseFailed(error);
        case Got(record, next) =>
          records := records + [record];
          offset := next;
      }
    }
    r := Records(records);
  }

  // ---------------------------------------------------------------- encode, then parse

  /** What a directory that can be stored looks like. */
  ghost predicate Storable(records: seq<Record>) {
    && |records| <= MAX_RECORDS
    && (forall i :: 0 <= i < |records| ==> records[i].inode != 0 && ValidName(records[i].name))
    && (forall i, j :: 0 <= i < j < |records| ==> records[i].name != records[j].name)
    && TotalLength(records) <= MAX_DIRECTORY_SIZE
  }

  function TotalLength(records: seq<Record>): nat {
    if records == [] then 0 else TotalLength(records[..|records| - 1]) + RecordLength(|records[|records| - 1].name|)
  }

  function AllBytes(crc: Checksum, records: seq<Record>): (b: seq<byte>)
    ensures |b| == TotalLength(records)
  {
    if records == [] then []
    else AllBytes(crc, records[..|records| - 1]) + Seal(crc, Unsealed(records[|records| - 1]))
  }

  lemma {:induction false} TotalPrefix(records: seq<Record>, k: nat)
    requires k <= |records|
    ensures TotalLength(records[..k]) <= TotalLength(records)
    decreases |records| - k
  {
    if k < |records| {
      TotalPrefix(records, k + 1);
      assert records[..k + 1][..k] == records[..k];
    } else {
      assert records[..k] == records;
    }
  }

  /** Encoding fails exactly when the directory cannot be stored, and gives the records' bytes in order. */
  lemma {:induction false} EncodeExact(crc: Checksum, records: seq<Record>, k: nat)
    requires k <= |records|
    requires k <= MAX_RECORDS && TotalLength(records[..k]) <= MAX_DIRECTORY_SIZE
    requires forall i :: 0 <= i < k ==> records[i].inode != 0 && ValidName(records[i].name)
    requires forall i, j :: 0 <= i < j < k ==> records[i].name != records[j].name
    ensures var e := EncodeFrom(crc, records, k, AllBytes(crc, records[..k]));
            if Storable(records) then e == Bytes(AllBytes(crc, records)) else e.EncodeFailed?
    decreases |records| - k
  {
    hide Seal, Unsealed, ValidName, RecordLength, TotalLength, Names, AllBytes;
    if k == |records| {
      assert records[..k] == records;
    } else {
      assert records[..k + 1][..k] == records[..k];
      TotalStep(records, k);
      TotalPrefix(records, k + 1);
      if Names(records[..k], records[k].name) {
        OldName(records, k);
      } else if EncodeError(records, k, TotalLength(records[..k])).None? {
        NewName(records, k);
        AllBytesStep(crc, records, k);
        EncodeExact(crc, records, k + 1);
      }
    }
  }

  lemma AllBytesStep(crc: Checksum, records: seq<Record>, k: nat)
    requires k < |records|
    ensures AllBytes(crc, records[..k + 1]) == AllBytes(crc, records[..k]) + Seal(crc, Unsealed(records[k]))
  {
    assert records[..k + 1][..k] == records[..k];
  }

  lemma OldName(records: seq<Record>, k: nat)
    requires k < |records| && Names(records[..k], records[k].name)
    ensures exists i :: 0 <= i < k && records[i].name == records[k].name
  {
    var i :| 0 <= i < k && records[..k][i].name == records[k].name;
    assert records[i].name == records[k].name;
  }

  lemma NewName(records: seq<Record>, k: nat)
    requires k < |records| && !Names(records[..k], records[k].name)
    ensures forall i :: 0 <= i < k ==> records[i].name != records[k].name
  {
    forall i | 0 <= i < k
      ensures records[i].name != records[k].name
    {
      assert records[..k][i] == records[i];
    }
  }

  /** Encoding succeeds exactly on storable directories. */
  lemma EncodeResult(crc: Checksum, records: seq<Record>)
    ensures Encode(crc, records) == Bytes(AllBytes(crc, records)) <==> Storable(records)
    ensures !Storable(records) ==> Encode(crc, records).EncodeFailed?
  {
    assert records[..0] == [];
    EncodeExact(crc, records, 0);
  }

  // ---------------------------------------------------------------- one record there and back

  lemma UnsealedFields(r: Record)
    requires |r.name| <= 255
    ensures var u := Unsealed(r);
            && u[0..8] == LeBytes(r.inode, 8) && u[8..10] == LeBytes(RecordLength(|r.name|), 2)
            && u[10] == |r.name| && u[11] == KindCode(r.kind) && u[12..16] == Zeros(4)
            && u[16..16 + |r.name|] == r.name
  {
    hide LeBytes, RecordLength;
  }

  /** The fields of a sealed record read back. */
  lemma SealedFields(crc: Checksum, r: Record)
    requires |r.name| <= 255
    ensures var b := Seal(crc, Unsealed(r));
            var n := RecordLength(|r.name|);
            && |b| == n
            && LeValue(b[0..8]) == r.inode && LeValue(b[8..10]) == n && b[10] == |r.name| && b[11] == KindCode(r.kind)
            && b[16..16 + |r.name|] == r.name
            && b[..12] + Zeros(4) + b[16..] == Unsealed(r) && LeValue(b[12..16]) == crc(Unsealed(r))
  {
    var u := Unsealed(r);
    hide LeBytes, LeValue, RecordLength, Unsealed, Seal;
    LeFields(r.inode, RecordLength(|r.name|), crc(u));
    UnsealedFields(r);
    SealSlices(crc, u, |r.name|);
  }

  lemma LeFields(inode: u64, n: u16, sum: u32)
    ensures LeValue(LeBytes(inode, 8)) == inode && LeValue(LeBytes(n, 2)) == n && LeValue(LeBytes(sum, 4)) == sum
  {
    hide LeBytes, LeValue;
    LeRoundTrip(inode, 8);
    LeRoundTrip(n, 2);
    LeRoundTrip(sum, 4);
    Pow256Values();
  }

  /** Sealing changes the checksum field and nothing else. */
  lemma SealSlices(crc: Checksum, u: seq<byte>, n: nat)
    requires |u| >= 16 + n && u[12..16] == Zeros(4)
    ensures var b := Seal(crc, u);
            && b[0..8] == u[0..8] && b[8..10] == u[8..10] && b[10] == u[10] && b[11] == u[11]
            && b[12..16] == LeBytes(crc(u), 4) && b[16..16 + n] == u[16..16 + n]
            && b[..12] + Zeros(4) + b[16..] == u
  {
    hide LeBytes;
    var b := Seal(crc, u);
    assert b[..12] == u[..12] && b[16..] == u[16..];
    assert b[16..][..n] == b[16..16 + n] && u[16..][..n] == u[16..16 + n];
    assert b[..12][0..8] == b[0..8] && u[..12][0..8] == u[0..8];
    assert b[..12][8..10] == b[8..10] && u[..12][8..10] == u[8..10];
    assert u == u[..12] + u[12..16] + u[16..];
  }

  /** A sealed record inside a buffer parses to itself and leaves off right behind it. */
  lemma ParseSealed(crc: Checksum, utf8: TextTest, before: seq<byte>, r: Record, after: seq<byte>, records: seq<Record>)
    requires r.inode != 0 && ValidName(r.name) && utf8(r.name) && !Names(records, r.name) && |records| < MAX_RECORDS
    ensures var bytes := before + Seal(crc, Unsealed(r)) + after;
            ParseOne(crc, utf8, bytes, |before|, records) == Got(r, |before| + RecordLength(|r.name|))
  {
    SealedFields(crc, r);
    hide Seal, Unsealed, ValidName, LeValue, LeBytes, RecordLength;
    var b := Seal(crc, Unsealed(r));
    var bytes := before + b + after;
    var at := |before|;
    var n := RecordLength(|r.name|);
    assert n >= 16 + |r.name| && n % 8 == 0;
    assert bytes[at..at + n] == b;
    assert bytes[at..at + 8] == b[0..8] && bytes[at + 8..at + 10] == b[8..10];
    assert bytes[at + 10] == b[10] && bytes[at + 11] == b[11];
  }

  lemma {:induction false} ParseAll(crc: Checksum, utf8: TextTest, records: seq<Record>, k: nat)
    requires Storable(records) && k <= |records| && forall i :: 0 <= i < |records| ==> utf8(records[i].name)
    ensures TotalLength(records[..k]) <= |AllBytes(crc, records)|
    ensures ParseFrom(crc, utf8, AllBytes(crc, records), TotalLength(records[..k]), records[..k]) == Records(records)
    decreases |records| - k
  {
    hide Seal, Unsealed, ValidName, ParseOne, RecordLength, AllBytes, TotalLength;
    TotalPrefix(records, k);
    if k == |records| {
      assert records[..k] == records;
    } else {
      ParseAll(crc, utf8, records, k + 1);
      var r := records[k];
      assert records[..k + 1][..k] == records[..k] && records[..k + 1] == records[..k] + [r];
      TotalStep(records, k);
      var after := AllBytesSplit(crc, records, k);
      forall i | 0 <= i < k
        ensures records[..k][i].name != r.name
      {
        assert records[..k][i] == records[i];
      }
      ParseSealed(crc, utf8, AllBytes(crc, records[..k]), r, after, records[..k]);
      assert RecordLength(|r.name|) >= 16;
    }
  }

  lemma TotalStep(records: seq<Record>, k: nat)
    requires k < |records|
    ensures TotalLength(records[..k + 1]) == TotalLength(records[..k]) + RecordLength(|records[k].name|)
  {
    assert records[..k + 1][..k] == records[..k];
  }

  lemma {:induction false} AllBytesSplit(crc: Checksum, records: seq<Record>, k: nat) returns (after: seq<byte>)
    requires k < |records|
    ensures AllBytes(crc, records) == AllBytes(crc, records[..k]) + Seal(crc, Unsealed(records[k])) + after
    decreases |records|
  {
    hide Seal, Unsealed;
    if k == |records| - 1 {
      after := [];
    } else {
      var front := records[..|records| - 1];
      var rest := AllBytesSplit(crc, front, k);
      assert front[..k] == records[..k];
      after := rest + Seal(crc, Unsealed(records[|records| - 1]));
      var x, y := AllBytes(crc, records[..k]), Seal(crc, Unsealed(records[k]));
      assert x + y + after == (x + y + rest) + Seal(crc, Unsealed(records[|records| - 1]));
    }
  }

  /** Whatever encodes, parses back to the same records. */
  lemma EncodeParse(crc: Checksum, utf8: TextTest, records: seq<Record>)
    requires Encode(crc, records).Bytes? && forall i :: 0 <= i < |records| ==> utf8(records[i].name)
    ensures Parse(crc, utf8, Encode(crc, records).bytes) == Records(records)
  {
    hide Encode, Storable, ParseFrom;
    EncodeResult(crc, records);
    assert records[..0] == [];
    ParseAll(crc, utf8, records, 0);
    StorableSize(records);
  }

  lemma StorableSize(records: seq<Record>)
    requires Storable(records)
    ensures TotalLength(records) <= MAX_DIRECTORY_SIZE
  {
  }

  // ---------------------------------------------------------------- parse, then encode

  /** What parsing has collected fits the bytes it has read. */
  ghost predicate Collected(utf8: TextTest, records: seq<Record>, offset: nat) {
    && |records| <= MAX_RECORDS && TotalLength(records) <= offset
    && (forall i :: 0 <= i < |records| ==> records[i].inode != 0 && ValidName(records[i].name) && utf8(records[i].name))
    && (forall i, j :: 0 <= i < j < |records| ==> records[i].name != records[j].name)
  }

  lemma CollectOne(crc: Checksum, utf8: TextTest, bytes: seq<byte>, offset: nat, records: seq<Record>)
    requires offset < |bytes| && Collected(utf8, records, offset)
    requires ParseOne(crc, utf8, bytes, offset, records).Got?
    ensures var s := ParseOne(crc, utf8, bytes, offset, records); Collected(utf8, records + [s.record], s.next)
  {
    var s := ParseOne(crc, utf8, bytes, offset, records);
    OneRecord(crc, utf8, bytes, offset, records);
    hide ParseOne, ValidName, RecordLength;
    var all := records + [s.record];
    assert all[..|records|] == records;
  }

  lemma OneRecord(crc: Checksum, utf8: TextTest, bytes: seq<byte>, offset: nat, records: seq<Record>)
    requires offset < |bytes| && ParseOne(crc, utf8, bytes, offset, records).Got?
    ensures var s := ParseOne(crc, utf8, bytes, offset, records);
            && |records| < MAX_RECORDS && s.record.inode != 0 && ValidName(s.record.name) && utf8(s.record.name)
            && !Names(records, s.record.name)
            && offset + RecordLength(|s.record.name|) <= s.next
  {
    hide ValidName, LeValue;
    var recordLen := LeValue(bytes[offset + 8..offset + 10]);
    var n := bytes[offset + 10];
    RoundsUp(recordLen, n);
  }

  lemma RoundsUp(recordLen: nat, n: nat)
    requires recordLen % 8 == 0 && recordLen >= 16 + n
    ensures RecordLength(n) <= recordLen
  {
  }

  lemma {:induction false} ParseCollects(crc: Checksum, utf8: TextTest, bytes: seq<byte>, offset: nat,
                                         records: seq<Record>)
    requires offset <= |bytes| && Collected(utf8, records, offset)
    requires ParseFrom(crc, utf8, bytes, offset, records).Records?
    ensures Collected(utf8, ParseFrom(crc, utf8, bytes, offset, records).records, |bytes|)
    decreases |bytes| - offset
  {
    hide Collected, ParseOne;
    if offset >= |bytes| {
    } else {
      CollectOne(crc, utf8, bytes, offset, records);
      var s := ParseOne(crc, utf8, bytes, offset, records);
      ParseCollects(crc, utf8, bytes, s.next, records + [s.record]);
    }
  }

  /**
   Whatever parses has unique valid names, can be encoded again, takes no more bytes than before, and
   parses to the same records once more.
   */
  lemma ParseEncode(crc: Checksum, utf8: TextTest, bytes: seq<byte>)
    requires Parse(crc, utf8, bytes).Records?
    ensures var records := Parse(crc, utf8, bytes).records;
            && Storable(records)
            && Encode(crc, records).Bytes? && |Encode(crc, records).bytes| <= |bytes|
            && Parse(crc, utf8, Encode(crc, records).bytes) == Records(records)
  {
    var records := Parse(crc, utf8, bytes).records;
    assert Collected(utf8, [], 0);
    ParseCollects(crc, utf8, bytes, 0, []);
    hide ParseFrom, EncodeFrom, ValidName;
    assert Storable(records);
    EncodeResult(crc, records);
    hide Encode;
    EncodeParse(crc, utf8, records);
  }
}
