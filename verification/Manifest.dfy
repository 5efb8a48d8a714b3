/**
 Package manifests. The fixture builder writes them and has a parser of its own that slices
 without bounds checks; the kernel has a stricter one. The builder's parser is the exact
 inverse of its writer, and the kernel accepts exactly the well-kept subset.
 */
module Manifest {
  import opened Bytes
  import opened Results

  const MAGIC := Ascii("PYTHMAN0")
  const HEADER_LEN := 12
  const RECORD_HEADER_LEN := 10
  const MAX_RECORDS := 256
  const MAX_NAME := 48
  const MAX_PAYLOAD := 1024

  datatype Rec = Rec(kind: nat, name: bytes, payload: bytes) {
    predicate Encodable() {
      kind < U16_LIMIT && |name| < U16_LIMIT && |payload| < U32_LIMIT
    }
  }

  ghost predicate AllEncodable(rs: seq<Rec>) {
    forall i | 0 <= i < |rs| :: rs[i].Encodable()
  }

  // ------------------------------------------------------------------- writer

  function RecordBytes(r: Rec): (s: bytes)
    requires r.Encodable()
    ensures |s| == RECORD_HEADER_LEN + |r.name| + |r.payload|
  {
    LE16(r.kind) + LE16(0) + LE16(|r.name|) + LE32(|r.payload|) + r.name + r.payload
  }

  ghost function Records(rs: seq<Rec>): bytes
    requires AllEncodable(rs)
  {
    if rs == [] then [] else RecordBytes(rs[0]) + Records(rs[1..])
  }

  ghost function Serialise(rs: seq<Rec>): bytes
    requires AllEncodable(rs) && |rs| < U32_LIMIT
  {
    MAGIC + LE32(|rs|) + Records(rs)
  }

  lemma {:induction false} RecordsSnoc(rs: seq<Rec>, r: Rec)
    requires AllEncodable(rs) && r.Encodable()
    ensures AllEncodable(rs + [r]) && Records(rs + [r]) == Records(rs) + RecordBytes(r)
  {
    hide RecordBytes;
    if rs == [] {
      assert rs + [r] == [r] && [r][1..] == [];
    } else {
      assert (rs + [r])[1..] == rs[1..] + [r];
      RecordsSnoc(rs[1..], r);
      assert AllEncodable(rs + [r]);
      assert Records(rs + [r]) == RecordBytes(rs[0]) + (Records(rs[1..]) + RecordBytes(r));
    }
  }

  /** What has been appended when the first field that does not fit raises. */
  function Partial(r: Rec): bytes
    requires !r.Encodable()
  {
    if r.kind >= U16_LIMIT then []
    else if |r.name| >= U16_LIMIT then LE16(r.kind) + LE16(0)
    else LE16(r.kind) + LE16(0) + LE16(|r.name|)
  }

  /** The `extend` calls of `push_manifest_record`, up to the first field that overflows. */
  method Extended(start: bytes, r: Rec) returns (out: bytes, ok: bool)
    ensures ok <==> r.Encodable()
    ensures out == start + if ok then RecordBytes(r) else Partial(r)
  {
    hide LE16, LE32;
    out, ok := start, false;
    if r.kind >= U16_LIMIT {
      return;
    }
    out := out + LE16(r.kind);
    out := out + LE16(0);
    if |r.name| >= U16_LIMIT {
      return;
    }
    out := out + LE16(|r.name|);
    if |r.payload| >= U32_LIMIT {
      return;
    }
    out := out + LE32(|r.payload|);
    out := out + r.name;
    out := out + r.payload;
    ok := true;
  }

  /** A manifest under construction: the `bytearray` that `push_manifest_record` extends. */
  class ManifestWriter {
    var out: bytes
    ghost var records: seq<Rec>

    ghost predicate Valid(count: nat)
      reads this
    {
      && count < U32_LIMIT && AllEncodable(records)
      && out == MAGIC + LE32(count) + Records(records)
    }

    constructor (count: nat)
      requires count < U32_LIMIT
      ensures Valid(count) && records == []
    {
      out := MAGIC + LE32(count);
      records := [];
      new;
      assert out + [] == out;
    }

    method Push(r: Rec, ghost count: nat) returns (ok: bool)
      requires Valid(count)
      modifies this
      ensures ok <==> r.Encodable()
      ensures ok ==> Valid(count) && records == old(records) + [r]
      ensures !ok ==> out == old(out) + Partial(r) && records == old(records)
    {
      hide Records, Ascii, RecordBytes, LE32, Rec.Encodable, AllEncodable;
      ghost var head, body := MAGIC + LE32(count), Records(records);
      var extended, fits := Extended(out, r);
      out := extended;
      if !fits {
        return false;
      }
      RecordsSnoc(records, r);
      assert (head + body) + RecordBytes(r) == head + (body + RecordBytes(r));
      records := records + [r];
      return true;
    }
  }

  // ---------------------------------------------------- the builder's own parser

  datatype ParseError = BadManifest | HasFlags | TrailingBytes

  /** Field offsets of the record at `off`; slices past the end are shorter or empty. */
  datatype Head = Head(kind: nat, flags: nat, nameLen: nat, payloadLen: nat)

  function HeadAt(b: bytes, off: nat): Head {
    Head(FromLE(Slice(b, off, off + 2)), FromLE(Slice(b, off + 2, off + 4)),
         FromLE(Slice(b, off + 4, off + 6)), FromLE(Slice(b, off + 6, off + 10)))
  }

  function NextOffset(h: Head, off: nat): nat {
    off + RECORD_HEADER_LEN + h.nameLen + h.payloadLen
  }

  function RecAt(b: bytes, h: Head, off: nat): Rec {
    var name := off + RECORD_HEADER_LEN;
    Rec(h.kind, Slice(b, name, name + h.nameLen), Slice(b, name + h.nameLen, name + h.nameLen + h.payloadLen))
  }

  function ParseRecords(b: bytes, off: nat, n: nat): Result<seq<Rec>, ParseError>
    decreases n
  {
    if n == 0 then if off == |b| then Ok([]) else Err(TrailingBytes)
    else
      var h := HeadAt(b, off);
      if h.flags != 0 then Err(HasFlags)
      else
        var rest :- ParseRecords(b, NextOffset(h, off), n - 1);
        Ok([RecAt(b, h, off)] + rest)
  }

  function Parse(b: bytes): Result<seq<Rec>, ParseError> {
    if |b| < HEADER_LEN || b[..8] != MAGIC then Err(BadManifest)
    else ParseRecords(b, HEADER_LEN, FromLE(b[8..12]))
  }

  /** `manifest_records`: the loop with its running offset. */
  method ManifestRecords(b: bytes) returns (r: Result<seq<Rec>, ParseError>)
    ensures r == Parse(b)
  {
    hide FromLE, HeadAt, RecAt, Ascii;
    if |b| < HEADER_LEN || b[..8] != MAGIC {
      return Err(BadManifest);
    }
    var count := FromLE(b[8..12]);
    var offset: nat := HEADER_LEN;
    var records := [];
    assert forall rest: seq<Rec> :: [] + rest == rest;
    for i := 0 to count
      invariant match ParseRecords(b, offset, count - i)
        case Ok(rest) => Parse(b) == Ok(records + rest)
        case Err(e) => Parse(b) == Err(e)
    {
      var h := HeadAt(b, offset);
      if h.flags != 0 {
        return Err(HasFlags);
      }
      var record := RecAt(b, h, offset);
      offset := NextOffset(h, offset);
      ghost var rest := ParseRecords(b, offset, count - i - 1);
      assert rest.Ok? ==> records + ([record] + rest.value) == (records + [record]) + rest.value;
      records := records + [record];
    }
    if offset != |b| {
      return Err(TrailingBytes);
    }
    assert records + [] == records;
    return Ok(records);
  }

  // -------------------------------------------------------- writer and parser

  lemma HeadReads(front: bytes, r: Rec, back: bytes)
    requires r.Encodable()
    ensures var b := front + RecordBytes(r) + back;
      && HeadAt(b, |front|) == Head(r.kind, 0, |r.name|, |r.payload|)
      && RecAt(b, HeadAt(b, |front|), |front|) == r
  {
    hide FromLE, LE16, LE32;
    var s, off := RecordBytes(r), |front|;
    var b := front + s + back;
    assert b[off..off + |s|] == s;
    var fixed := LE16(r.kind) + LE16(0) + LE16(|r.name|) + LE32(|r.payload|);
    assert s == fixed + r.name + r.payload;
    assert fixed[0..2] == LE16(r.kind) && fixed[2..4] == LE16(0) && fixed[4..6] == LE16(|r.name|);
    assert fixed[6..10] == LE32(|r.payload|);
    assert b[off..off + 10] == fixed;
    SliceOfSlice(b, off, off + 10, 0, 2);
    SliceOfSlice(b, off, off + 10, 2, 4);
    SliceOfSlice(b, off, off + 10, 4, 6);
    SliceOfSlice(b, off, off + 10, 6, 10);
    var name := off + 10;
    assert b[name..name + |r.name|] == r.name;
    assert b[name + |r.name|..name + |r.name| + |r.payload|] == r.payload;
  }

  lemma {:induction false} ParseWritten(front: bytes, rs: seq<Rec>)
    requires AllEncodable(rs)
    ensures ParseRecords(front + Records(rs), |front|, |rs|) == Ok(rs)
    decreases |rs|
  {
    hide HeadAt, RecAt, RecordBytes;
    if rs == [] {
      assert front + Records(rs) == front;
    } else {
      var s := RecordBytes(rs[0]);
      HeadReads(front, rs[0], Records(rs[1..]));
      ParseWritten(front + s, rs[1..]);
      assert front + Records(rs) == front + s + Records(rs[1..]);
      assert [rs[0]] + rs[1..] == rs;
    }
  }

  lemma HeadEncodes(b: bytes, off: nat)
    requires HeadAt(b, off).flags == 0 && NextOffset(HeadAt(b, off), off) <= |b|
    ensures var h := HeadAt(b, off);
      && RecAt(b, h, off).Encodable()
      && RecordBytes(RecAt(b, h, off)) == b[off..NextOffset(h, off)]
  {
    hide FromLE, LE16, LE32;
    var h := HeadAt(b, off);
    var r, next := RecAt(b, h, off), NextOffset(h, off);
    LE16Of(b[off..off + 2]);
    LE16Of(b[off + 2..off + 4]);
    LE16Of(b[off + 4..off + 6]);
    LE32Of(b[off + 6..off + 10]);
    var name := off + 10;
    assert next == name + h.nameLen + h.payloadLen;
    assert b[off..name] == b[off..off + 2] + b[off + 2..off + 4] + b[off + 4..off + 6] + b[off + 6..name];
    assert b[off..next] == b[off..name] + b[name..name + h.nameLen] + b[name + h.nameLen..next];
    assert b[off..next] == b[off..off + 2] + b[off + 2..off + 4] + b[off + 4..off + 6] + b[off + 6..name]
                         + b[name..name + h.nameLen] + b[name + h.nameLen..next];
  }

  /** The offset never moves back, so a slice that was cut short cannot end at the length. */
  lemma {:induction false} ParsedIsWritten(b: bytes, off: nat, n: nat)
    requires ParseRecords(b, off, n).Ok?
    ensures off <= |b| && |ParseRecords(b, off, n).value| == n
    ensures AllEncodable(ParseRecords(b, off, n).value)
    ensures Records(ParseRecords(b, off, n).value) == b[off..]
    decreases n
  {
    hide HeadAt, RecAt, RecordBytes;
    if n > 0 {
      var h := HeadAt(b, off);
      var next := NextOffset(h, off);
      ParsedIsWritten(b, next, n - 1);
      HeadEncodes(b, off);
      var rs := ParseRecords(b, off, n).value;
      assert rs[1..] == ParseRecords(b, next, n - 1).value;
      assert b[off..] == b[off..next] + b[next..];
    }
  }

  /** Parsing what was written returns the records. */
  lemma ParseSerialised(rs: seq<Rec>)
    requires AllEncodable(rs) && |rs| < U32_LIMIT
    ensures Parse(Serialise(rs)) == Ok(rs)
  {
    hide Ascii, FromLE, LE32, Records, ParseRecords;
    var b, front := Serialise(rs), MAGIC + LE32(|rs|);
    assert b[..8] == MAGIC && b[8..12] == LE32(|rs|) && b == front + Records(rs);
    ParseWritten(front, rs);
  }

  /** Whatever the parser accepts is the serialisation of what it returns. */
  lemma SerialiseParsed(b: bytes)
    requires Parse(b).Ok?
    ensures AllEncodable(Parse(b).value) && |Parse(b).value| < U32_LIMIT
    ensures Serialise(Parse(b).value) == b
  {
    hide Ascii, FromLE, LE32, Records, ParseRecords;
    LE32Of(b[8..12]);
    ParsedIsWritten(b, HEADER_LEN, FromLE(b[8..12]));
    assert b == b[..8] + b[8..12] + b[12..];
  }

  // ---------------------------------------------------------- the kernel's parser

  datatype KernelError = InvalidManifest | BoundsExceeded | StableNameTooLong | ManifestPayloadTooLong
                       | TooManyManifestRecords | DuplicateStableName | UnsortedManifestRecord

  datatype Order = Less | Equal | Greater

  /** `compare_bytes`. */
  function CompareBytes(x: bytes, y: bytes): Order {
    if x == [] then if y == [] then Equal else Less
    else if y == [] then Greater
    else if x[0] < y[0] then Less
    else if x[0] > y[0] then Greater
    else CompareBytes(x[1..], y[1..])
  }

  /** `compare_manifest_key`. */
  function CompareKeys(x: Rec, y: Rec): Order {
    if x.kind < y.kind then Less else if x.kind > y.kind then Greater else CompareBytes(x.name, y.name)
  }

  predicate Graphic(c: byte) {
    0x21 <= c <= 0x7E
  }

  predicate AllGraphic(s: bytes) {
    forall i | 0 <= i < |s| :: Graphic(s[i])
  }

  predicate Admissible(r: Rec) {
    1 <= |r.name| <= MAX_NAME && |r.payload| <= MAX_PAYLOAD && AllGraphic(r.name)
  }

  /** `read_manifest_record_checked`: the record and the offset behind it. */
  function CheckedRecord(b: bytes, off: nat): (r: Result<(Rec, nat), KernelError>)
    ensures r.Ok? ==> off + RECORD_HEADER_LEN <= r.value.1 <= |b|
  {
    if off + RECORD_HEADER_LEN > |b| then Err(BoundsExceeded)
    else
      var h := HeadAt(b, off);
      if h.flags != 0 then Err(InvalidManifest)
      else if h.nameLen == 0 then Err(InvalidManifest)
      else if h.nameLen > MAX_NAME then Err(StableNameTooLong)
      else if h.payloadLen > MAX_PAYLOAD then Err(ManifestPayloadTooLong)
      else if NextOffset(h, off) > |b| then Err(BoundsExceeded)
      else
        var r := RecAt(b, h, off);
        if !AllGraphic(r.name) then Err(InvalidManifest) else Ok((r, NextOffset(h, off)))
  }

  function KernelRecords(b: bytes, off: nat, n: nat, previous: Option<Rec>): Result<seq<Rec>, KernelError>
    decreases n
  {
    if n == 0 then if off == |b| then Ok([]) else Err(BoundsExceeded)
    else
      var (r, next) :- CheckedRecord(b, off);
      if previous.Some? && CompareKeys(previous.value, r).Equal? then Err(DuplicateStableName)
      else if previous.Some? && CompareKeys(previous.value, r).Greater? then Err(UnsortedManifestRecord)
      else
        var rest :- KernelRecords(b, next, n - 1, Some(r));
        Ok([r] + rest)
  }

  /** `ManifestV0::parse`, with the records that its accessor then yields. */
  function KernelParse(b: bytes): Result<seq<Rec>, KernelError> {
    if |b| < HEADER_LEN || b[..8] != MAGIC then Err(InvalidManifest)
    else if FromLE(b[8..12]) > MAX_RECORDS then Err(TooManyManifestRecords)
    else KernelRecords(b, HEADER_LEN, FromLE(b[8..12]), None)
  }

  /** Each record is admissible and its key is above the one before it. */
  ghost predicate WellKept(rs: seq<Rec>, previous: Option<Rec>) {
    rs == [] ||
    ( && Admissible(rs[0])
      && (previous.Some? ==> CompareKeys(previous.value, rs[0]).Less?)
      && WellKept(rs[1..], Some(rs[0])))
  }

  lemma CheckedRecordIff(b: bytes, off: nat)
    ensures var h := HeadAt(b, off);
      && (CheckedRecord(b, off).Ok? <==>
            h.flags == 0 && NextOffset(h, off) <= |b| && Admissible(RecAt(b, h, off)))
      && (CheckedRecord(b, off).Ok? ==> CheckedRecord(b, off).value == (RecAt(b, h, off), NextOffset(h, off)))
  {
    hide AllGraphic, FromLE, HeadAt;
    var h := HeadAt(b, off);
    var r := RecAt(b, h, off);
    if NextOffset(h, off) <= |b| {
      assert |r.name| == h.nameLen && |r.payload| == h.payloadLen;
    }
  }

  lemma {:induction false} KernelRecordsIff(b: bytes, off: nat, n: nat, previous: Option<Rec>)
    ensures KernelRecords(b, off, n, previous).Ok? <==>
      ParseRecords(b, off, n).Ok? && WellKept(ParseRecords(b, off, n).value, previous)
    ensures KernelRecords(b, off, n, previous).Ok? ==>
      KernelRecords(b, off, n, previous).value == ParseRecords(b, off, n).value
    decreases n
  {
    hide CheckedRecord, CompareKeys, HeadAt, RecAt, Admissible;
    if n > 0 {
      var h := HeadAt(b, off);
      var next := NextOffset(h, off);
      var r := RecAt(b, h, off);
      CheckedRecordIff(b, off);
      KernelRecordsIff(b, next, n - 1, Some(r));
      if ParseRecords(b, off, n).Ok? {
        ParsedIsWritten(b, next, n - 1);
        assert ParseRecords(b, off, n).value[1..] == ParseRecords(b, next, n - 1).value;
      }
    }
  }

  /** The kernel accepts exactly the manifests of at most 256 admissible records in key order. */
  lemma KernelParseIff(b: bytes)
    ensures KernelParse(b).Ok? <==>
      Parse(b).Ok? && |Parse(b).value| <= MAX_RECORDS && WellKept(Parse(b).value, None)
    ensures KernelParse(b).Ok? ==> KernelParse(b).value == Parse(b).value
  {
    hide KernelRecords, ParseRecords, Ascii, FromLE, WellKept;
    if |b| >= HEADER_LEN && b[..8] == MAGIC {
      KernelRecordsIff(b, HEADER_LEN, FromLE(b[8..12]), None);
      if Parse(b).Ok? {
        ParsedIsWritten(b, HEADER_LEN, FromLE(b[8..12]));
      }
    }
  }

  // ------------------------------------------------------------ order of the keys

  lemma {:induction false} CompareBytesTransitive(x: bytes, y: bytes, z: bytes)
    requires CompareBytes(x, y).Less? && CompareBytes(y, z).Less?
    ensures CompareBytes(x, z).Less?
  {
    if x != [] && y != [] && z != [] && x[0] == y[0] == z[0] {
      CompareBytesTransitive(x[1..], y[1..], z[1..]);
    }
  }

  lemma {:induction false} CompareBytesSelf(x: bytes)
    ensures CompareBytes(x, x).Equal?
  {
    if x != [] {
      CompareBytesSelf(x[1..]);
    }
  }

  lemma CompareKeysTransitive(x: Rec, y: Rec, z: Rec)
    requires CompareKeys(x, y).Less? && CompareKeys(y, z).Less?
    ensures CompareKeys(x, z).Less?
  {
    if x.kind == y.kind == z.kind {
      CompareBytesTransitive(x.name, y.name, z.name);
    }
  }

  lemma {:induction false} WellKeptOrdered(rs: seq<Rec>, previous: Option<Rec>, i: nat)
    requires WellKept(rs, previous) && i < |rs|
    ensures previous.Some? ==> CompareKeys(previous.value, rs[i]).Less?
    decreases i
  {
    if i > 0 {
      WellKeptOrdered(rs[1..], Some(rs[0]), i - 1);
      if previous.Some? {
        CompareKeysTransitive(previous.value, rs[0], rs[i]);
      }
    }
  }

  lemma {:induction false} WellKeptSuffix(rs: seq<Rec>, previous: Option<Rec>, i: nat)
    requires WellKept(rs, previous) && i < |rs|
    ensures WellKept(rs[i + 1..], Some(rs[i])) && Admissible(rs[i])
    decreases i
  {
    if i > 0 {
      WellKeptSuffix(rs[1..], Some(rs[0]), i - 1);
      assert rs[1..][i..] == rs[i + 1..];
    }
  }

  /** Comparing neighbours is enough: no two records of an accepted manifest share kind and name. */
  lemma AcceptedKeysDistinct(b: bytes, i: nat, j: nat)
    requires KernelParse(b).Ok? && i < j < |KernelParse(b).value|
    ensures var rs := KernelParse(b).value;
      CompareKeys(rs[i], rs[j]).Less? && (rs[i].kind != rs[j].kind || rs[i].name != rs[j].name)
  {
    var rs := KernelParse(b).value;
    KernelParseIff(b);
    WellKeptSuffix(rs, None, i);
    WellKeptOrdered(rs[i + 1..], Some(rs[i]), j - i - 1);
    assert rs[i + 1..][j - i - 1] == rs[j];
    CompareBytesSelf(rs[i].name);
  }
}
