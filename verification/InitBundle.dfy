/**
 The record bundle inside INIT.PAK: `build_init_bundle` writes it, the kernel's
 `init_bundle::validate` reads it. The builder accepts record lists that the kernel refuses;
 the theorem says exactly which.
 */
module InitBundle {
  import opened Bytes
  import opened Results
  import InitPak

  const MAGIC := Ascii("PYTHOS_BUNDLE_V0")
  const HEADER_LEN := 32
  const ENTRY_LEN := 32
  const MAX_RECORDS := 16

  datatype Record = Record(kind: nat, payload: bytes)

  datatype BuildError = TooManyRecords | FieldOverflow
  datatype BundleError = TooShort | BadMagic | UnsupportedMajor | BadHeaderLength | EmptyRecordTable
                       | NonZeroReserved | LengthOverflow | BadRecordTable | UnsupportedRecordType
                       | BadRecordRange | OverlappingRecords | BadChecksum

  // ------------------------------------------------------------------ writer

  function Payloads(records: seq<Record>): (ps: seq<bytes>)
    ensures |ps| == |records| && forall i | 0 <= i < |ps| :: ps[i] == records[i].payload
  {
    seq(|records|, i requires 0 <= i < |records| => records[i].payload)
  }

  /** The cursor when record i is written. */
  function Start(records: seq<Record>, i: nat): nat
    requires i <= |records|
  {
    HEADER_LEN + ENTRY_LEN * |records| + PartOffset(Payloads(records), i)
  }

  predicate EntryFits(records: seq<Record>, i: nat)
    requires i < |records|
  {
    records[i].kind < U32_LIMIT && Start(records, i) < U64_LIMIT && |records[i].payload| < U64_LIMIT
  }

  ghost predicate Encodable(records: seq<Record>) {
    |records| <= MAX_RECORDS && forall i | 0 <= i < |records| :: EntryFits(records, i)
  }

  function Header(count: nat): (h: bytes)
    requires count <= MAX_RECORDS
    ensures |h| == HEADER_LEN
  {
    MAGIC + LE16(0) + LE16(0) + LE32(HEADER_LEN) + LE16(count) + Zeros(6)
  }

  function EntryBytes(kind: nat, start: nat, len: nat, sum: nat): (e: bytes)
    requires kind < U32_LIMIT && start < U64_LIMIT && len < U64_LIMIT && sum < U32_LIMIT
    ensures |e| == ENTRY_LEN
  {
    LE32(kind) + Zeros(4) + LE64(start) + LE64(len) + LE32(sum) + Zeros(4)
  }

  /** The table entry of record i. */
  function EntryOf(records: seq<Record>, i: nat): (e: bytes)
    requires i < |records| && EntryFits(records, i)
    ensures |e| == ENTRY_LEN
  {
    EntryBytes(records[i].kind, Start(records, i), |records[i].payload|, InitPak.Checksum(records[i].payload))
  }

  ghost function Entries(records: seq<Record>): (es: seq<bytes>)
    requires Encodable(records)
    ensures |es| == |records| && forall i | 0 <= i < |es| :: |es[i]| == ENTRY_LEN
  {
    seq(|records|, i requires 0 <= i < |records| =>
      assert EntryFits(records, i); EntryOf(records, i))
  }

  ghost function Bundle(records: seq<Record>): bytes
    requires Encodable(records)
  {
    Header(|records|) + Flatten(Entries(records)) + Flatten(Payloads(records))
  }

  // ------------------------------------------------------------------ reader

  function EntryAt(b: bytes, i: nat): (e: bytes)
    requires HEADER_LEN + ENTRY_LEN * (i + 1) <= |b|
    ensures |e| == ENTRY_LEN
  {
    b[HEADER_LEN + ENTRY_LEN * i..HEADER_LEN + ENTRY_LEN * (i + 1)]
  }

  datatype Entry = Entry(kind: nat, flags: bytes, start: nat, len: nat, sum: nat, reserved: bytes) {
    function End(): nat {
      start + len
    }

    predicate Overlaps(other: Entry) {
      start < other.End() && other.start < End()
    }
  }

  function Decode(e: bytes): Entry
    requires |e| == ENTRY_LEN
  {
    Entry(FromLE(e[0..4]), e[4..8], FromLE(e[8..16]), FromLE(e[16..24]), FromLE(e[24..28]), e[28..32])
  }

  predicate KnownKind(kind: nat) {
    1 <= kind <= 6
  }

  predicate EntryAccepted(b: bytes, tableEnd: nat, e: Entry) {
    && KnownKind(e.kind) && e.flags == Zeros(4) && e.reserved == Zeros(4)
    && tableEnd <= e.start && e.End() <= |b|
    && WrappingSum(0, b[e.start..e.End()]) == e.sum
  }

  predicate HeaderAccepted(b: bytes) {
    && |b| >= HEADER_LEN && b[..16] == MAGIC && FromLE(b[16..18]) == 0 && FromLE(b[20..24]) == HEADER_LEN
    && 0 < FromLE(b[24..26]) <= MAX_RECORDS && b[26..32] == Zeros(6)
    && HEADER_LEN + ENTRY_LEN * FromLE(b[24..26]) <= |b|
  }

  /** What the kernel accepts, without its loops. */
  ghost predicate Accepted(b: bytes) {
    && HeaderAccepted(b)
    && (var n := FromLE(b[24..26]);
        && (forall i | 0 <= i < n :: EntryAccepted(b, HEADER_LEN + ENTRY_LEN * n, Decode(EntryAt(b, i))))
        && (forall i, j | 0 <= i < j < n :: !Decode(EntryAt(b, j)).Overlaps(Decode(EntryAt(b, i)))))
  }

  ghost function RecordsIn(b: bytes): (rs: seq<Record>)
    requires Accepted(b)
  {
    seq(FromLE(b[24..26]), i requires 0 <= i < FromLE(b[24..26]) =>
      var e := Decode(EntryAt(b, i));
      assert EntryAccepted(b, HEADER_LEN + ENTRY_LEN * FromLE(b[24..26]), e);
      Record(e.kind, b[e.start..e.End()]))
  }

  /** The one reason to refuse a header, in the order of the checks. */
  ghost predicate HeaderFault(b: bytes, error: BundleError) {
    if |b| < HEADER_LEN then error == TooShort
    else if b[..16] != MAGIC then error == BadMagic
    else if FromLE(b[16..18]) != 0 then error == UnsupportedMajor
    else if FromLE(b[20..24]) != HEADER_LEN then error == BadHeaderLength
    else if FromLE(b[24..26]) == 0 then error == EmptyRecordTable
    else if FromLE(b[24..26]) > MAX_RECORDS then error == BadRecordTable
    else if b[26..32] != Zeros(6) then error == NonZeroReserved
    else HEADER_LEN + ENTRY_LEN * FromLE(b[24..26]) > |b| && error == BadRecordTable
  }

  function EntriesBefore(b: bytes, n: nat): (es: seq<Entry>)
    requires HEADER_LEN + ENTRY_LEN * n <= |b|
    ensures |es| == n && forall i | 0 <= i < n :: es[i] == Decode(EntryAt(b, i))
  {
    seq(n, i requires 0 <= i < n => Decode(EntryAt(b, i)))
  }

  /** The one reason to refuse an entry behind the entries seen, in the order of the checks. */
  ghost predicate EntryFault(b: bytes, tableEnd: nat, e: Entry, seen: seq<Entry>, error: BundleError) {
    if !KnownKind(e.kind) then error == UnsupportedRecordType
    else if e.flags != Zeros(4) || e.reserved != Zeros(4) then error == NonZeroReserved
    else if e.End() >= U64_LIMIT then error == LengthOverflow
    else if e.start < tableEnd || e.End() > |b| then error == BadRecordRange
    else if exists i | 0 <= i < |seen| :: e.Overlaps(seen[i]) then error == OverlappingRecords
    else WrappingSum(0, b[e.start..e.End()]) != e.sum && error == BadChecksum
  }

  /** Entry i is the first that is refused, and this is the reason. */
  ghost predicate FirstFault(b: bytes, n: nat, i: nat, error: BundleError)
    requires i < n && HEADER_LEN + ENTRY_LEN * n <= |b|
  {
    var tableEnd, seen := HEADER_LEN + ENTRY_LEN * n, EntriesBefore(b, i);
    && (forall k | 0 <= k < i :: EntryAccepted(b, tableEnd, seen[k]))
    && (forall k, j | 0 <= k < j < i :: !seen[j].Overlaps(seen[k]))
    && EntryFault(b, tableEnd, Decode(EntryAt(b, i)), seen, error)
  }

  ghost predicate Refused(b: bytes, error: BundleError) {
    || HeaderFault(b, error)
    || (HeaderAccepted(b) && exists i | 0 <= i < FromLE(b[24..26]) :: FirstFault(b, FromLE(b[24..26]), i, error))
  }

  /** The specification names one error, and only for bytes that are not accepted. */
  lemma RefusalUnique(b: bytes, x: BundleError, y: BundleError)
    requires |b| < U64_LIMIT && Refused(b, x) && Refused(b, y)
    ensures x == y && !Accepted(b)
  {
    hide HeaderFault, HeaderAccepted, FirstFault, Decode, WrappingSum;
    if HeaderFault(b, x) {
      HeaderFaultUnique(b, x, y);
    } else if HeaderFault(b, y) {
      HeaderFaultUnique(b, y, x);
    } else {
      HeaderHolds(b);
      var n := FromLE(b[24..26]);
      var i :| 0 <= i < n && FirstFault(b, n, i, x);
      var j :| 0 <= j < n && FirstFault(b, n, j, y);
      FaultBlocks(b, n, i, x, j);
      if FirstFault(b, n, j, y) {
        FaultBlocks(b, n, j, y, i);
        SameFault(b, n, i, x, y);
      }
    }
  }

  lemma HeaderFaultUnique(b: bytes, x: BundleError, y: BundleError)
    requires HeaderFault(b, x)
    ensures !HeaderAccepted(b) && (HeaderFault(b, y) ==> x == y)
  {
    hide FromLE, Ascii, Zeros;
  }

  lemma HeaderHolds(b: bytes)
    requires HeaderAccepted(b)
    ensures |b| >= HEADER_LEN && HEADER_LEN + ENTRY_LEN * FromLE(b[24..26]) <= |b|
  {
  }

  lemma SameFault(b: bytes, n: nat, i: nat, x: BundleError, y: BundleError)
    requires i < n && HEADER_LEN + ENTRY_LEN * n <= |b| && FirstFault(b, n, i, x) && FirstFault(b, n, i, y)
    ensures x == y
  {
    hide Decode, WrappingSum, EntriesBefore, Zeros;
  }

  /** A first fault at i: no later entry can be the first, and entry i keeps the bundle from being accepted. */
  lemma FaultBlocks(b: bytes, n: nat, i: nat, x: BundleError, j: nat)
    requires |b| < U64_LIMIT && i < n && HEADER_LEN + ENTRY_LEN * n <= |b| && FirstFault(b, n, i, x)
    ensures i < j < n ==> forall y :: !FirstFault(b, n, j, y)
    ensures HeaderAccepted(b) && n == FromLE(b[24..26]) ==> !Accepted(b)
  {
    hide Decode, WrappingSum, FromLE, Zeros, Ascii;
    var tableEnd, e, seen := HEADER_LEN + ENTRY_LEN * n, Decode(EntryAt(b, i)), EntriesBefore(b, i);
    if EntryAccepted(b, tableEnd, e) {
      var k :| 0 <= k < |seen| && e.Overlaps(seen[k]);
      assert e.Overlaps(Decode(EntryAt(b, k)));
    }
    if i < j < n {
      var later := EntriesBefore(b, j);
      assert later[i] == e && forall k | 0 <= k < i :: later[k] == seen[k];
    }
  }

  method CheckHeader(b: bytes) returns (r: Option<BundleError>)
    ensures r.None? <==> HeaderAccepted(b)
    ensures r.Some? ==> HeaderFault(b, r.value)
  {
    hide Ascii, FromLE, Zeros;
    if |b| < HEADER_LEN {
      return Some(TooShort);
    }
    if b[..16] != MAGIC {
      return Some(BadMagic);
    }
    var count := FromLE(b[24..26]);
    if FromLE(b[16..18]) != 0 {
      return Some(UnsupportedMajor);
    }
    if FromLE(b[20..24]) != HEADER_LEN {
      return Some(BadHeaderLength);
    }
    if count == 0 {
      return Some(EmptyRecordTable);
    }
    if count > MAX_RECORDS {
      return Some(BadRecordTable);
    }
    if b[26..32] != Zeros(6) {
      return Some(NonZeroReserved);
    }
    if HEADER_LEN + ENTRY_LEN * count > |b| {
      return Some(BadRecordTable);
    }
    return None;
  }

  /** One turn of the outer loop: the entry by itself, then against the ranges seen before. */
  method CheckEntry(b: bytes, tableEnd: nat, e: Entry, seen: seq<Entry>) returns (r: Option<BundleError>)
    requires |b| < U64_LIMIT
    ensures r.None? <==> EntryAccepted(b, tableEnd, e) && forall i | 0 <= i < |seen| :: !e.Overlaps(seen[i])
    ensures r.Some? ==> EntryFault(b, tableEnd, e, seen, r.value)
  {
    hide WrappingSum, Zeros;
    if !KnownKind(e.kind) {
      return Some(UnsupportedRecordType);
    }
    if e.flags != Zeros(4) || e.reserved != Zeros(4) {
      return Some(NonZeroReserved);
    }
    if e.End() >= U64_LIMIT {
      return Some(LengthOverflow);
    }
    if e.End() > |b| {
      return Some(BadRecordRange);
    }
    if e.start < tableEnd {
      return Some(BadRecordRange);
    }
    for previous := 0 to |seen|
      invariant forall i | 0 <= i < previous :: !e.Overlaps(seen[i])
    {
      if e.Overlaps(seen[previous]) {
        return Some(OverlappingRecords);
      }
    }
    if WrappingSum(0, b[e.start..e.End()]) != e.sum {
      return Some(BadChecksum);
    }
    return None;
  }

  /** The kernel's `validate`: a loop over the table with a loop over the ranges seen before. */
  method Validate(b: bytes) returns (r: Result<seq<Record>, BundleError>)
    requires |b| < U64_LIMIT
    ensures r.Ok? <==> Accepted(b)
    ensures r.Ok? ==> r.value == RecordsIn(b)
    ensures r.Err? ==> Refused(b, r.error)
  {
    hide Ascii, FromLE, WrappingSum, Zeros, Decode, EntryFault, HeaderFault;
    var bad := CheckHeader(b);
    if bad.Some? {
      return Err(bad.value);
    }
    var count := FromLE(b[24..26]);
    var tableEnd := HEADER_LEN + ENTRY_LEN * count;
    var entries: seq<Entry>, records := [], [];
    for index := 0 to count
      invariant |records| == index && entries == EntriesBefore(b, index)
      invariant forall i | 0 <= i < index :: EntryAccepted(b, tableEnd, entries[i])
      invariant forall i | 0 <= i < index ::
        records[i] == Record(entries[i].kind, b[entries[i].start..entries[i].End()])
      invariant forall i, j | 0 <= i < j < index :: !entries[j].Overlaps(entries[i])
    {
      var e := Decode(EntryAt(b, index));
      bad := CheckEntry(b, tableEnd, e, entries);
      if bad.Some? {
        assert FirstFault(b, count, index, bad.value);
        return Err(bad.value);
      }
      entries, records := entries + [e], records + [Record(e.kind, b[e.start..e.End()])];
    }
    r := Ok(records);
  }

  /** In an accepted bundle no byte belongs to two records or to the table. */
  lemma AcceptedRangesDisjoint(b: bytes, i: nat, j: nat, p: nat)
    requires Accepted(b) && i < j < FromLE(b[24..26])
    ensures var x, y := Decode(EntryAt(b, i)), Decode(EntryAt(b, j));
      && !(x.start <= p < x.End() && y.start <= p < y.End())
      && (x.start <= p < x.End() ==> HEADER_LEN + ENTRY_LEN * FromLE(b[24..26]) <= p < |b|)
  {
    assert EntryAccepted(b, HEADER_LEN + ENTRY_LEN * FromLE(b[24..26]), Decode(EntryAt(b, i)));
    assert !Decode(EntryAt(b, j)).Overlaps(Decode(EntryAt(b, i)));
  }

  // --------------------------------------------------------------- round trip

  lemma EntryDecodes(kind: nat, start: nat, len: nat, sum: nat)
    requires kind < U32_LIMIT && start < U64_LIMIT && len < U64_LIMIT && sum < U32_LIMIT
    ensures Decode(EntryBytes(kind, start, len, sum)) == Entry(kind, Zeros(4), start, len, sum, Zeros(4))
  {
    hide FromLE, LE32, LE64, Zeros;
    var e := EntryBytes(kind, start, len, sum);
    var head := LE32(kind) + Zeros(4) + LE64(start);
    var tail := LE64(len) + LE32(sum) + Zeros(4);
    assert e == head + tail;
    assert head[0..4] == LE32(kind) && head[4..8] == Zeros(4) && head[8..16] == LE64(start);
    assert tail[0..8] == LE64(len) && tail[8..12] == LE32(sum) && tail[12..16] == Zeros(4);
    assert e[0..4] == head[0..4] && e[4..8] == head[4..8] && e[8..16] == head[8..16];
    assert e[16..24] == tail[0..8] && e[24..28] == tail[8..12] && e[28..32] == tail[12..16];
  }

  lemma HeaderReads(records: seq<Record>)
    requires Encodable(records)
    ensures var b := Bundle(records);
      && |b| >= HEADER_LEN && b[..16] == MAGIC && FromLE(b[16..18]) == 0 && FromLE(b[20..24]) == HEADER_LEN
      && FromLE(b[24..26]) == |records| && b[26..32] == Zeros(6)
  {
    hide FromLE, LE16, LE32, Zeros, Ascii, Entries, Flatten;
    var h, b := Header(|records|), Bundle(records);
    assert h[..16] == MAGIC && h[16..18] == LE16(0) && h[20..24] == LE32(HEADER_LEN) && h[24..26] == LE16(|records|);
    assert h[26..32] == Zeros(6);
    assert b[..16] == h[..16] && b[16..18] == h[16..18] && b[20..24] == h[20..24] && b[24..26] == h[24..26];
    assert b[26..32] == h[26..32];
  }

  lemma BundleParts(records: seq<Record>, i: nat)
    requires Encodable(records) && i < |records|
    ensures var b := Bundle(records);
      && Start(records, |records|) == |b|
      && Start(records, 0) == HEADER_LEN + ENTRY_LEN * |records|
      && Start(records, i) + |records[i].payload| == Start(records, i + 1) <= |b|
      && EntryAt(b, i) == Entries(records)[i]
      && b[Start(records, i)..Start(records, i + 1)] == records[i].payload
  {
    hide Header, EntryBytes, Flatten;
    var es, ps, b := Entries(records), Payloads(records), Bundle(records);
    var table, body := Flatten(es), Flatten(ps);
    FlattenLength(es);
    PartOffsetUniform(es, ENTRY_LEN, |es|);
    PartOffsetUniform(es, ENTRY_LEN, i);
    FlattenAt(es, i);
    FlattenLength(ps);
    PartOffsetNext(ps, i);
    PartOffsetGrows(ps, i + 1, |ps|);
    FlattenAt(ps, i);
    var tableEnd := HEADER_LEN + ENTRY_LEN * |records|;
    assert b[HEADER_LEN..tableEnd] == table && b[tableEnd..|b|] == body;
    SliceOfSlice(b, HEADER_LEN, tableEnd, ENTRY_LEN * i, ENTRY_LEN * (i + 1));
    SliceOfSlice(b, tableEnd, |b|, PartOffset(ps, i), PartOffset(ps, i + 1));
  }

  /** What the reader sees of record i in the bytes of a bundle. */
  ghost predicate EntrySeen(records: seq<Record>, b: bytes, i: nat)
    requires i < |records|
  {
    && HEADER_LEN + ENTRY_LEN * (i + 1) <= |b|
    && (var e := Decode(EntryAt(b, i));
        && e.kind == records[i].kind && e.start == Start(records, i) && e.End() == Start(records, i + 1) <= |b|
        && b[e.start..e.End()] == records[i].payload
        && (EntryAccepted(b, HEADER_LEN + ENTRY_LEN * |records|, e) <==> KnownKind(records[i].kind)))
  }

  lemma EntryReads(records: seq<Record>, i: nat)
    requires Encodable(records) && i < |records|
    ensures EntrySeen(records, Bundle(records), i)
  {
    hide Bundle, Entries, Decode, Zeros, ByteSum, WrappingSum;
    BundleParts(records, i);
    EntriesAt(records, i);
    EntryDecodes(records[i].kind, Start(records, i), |records[i].payload|, InitPak.Checksum(records[i].payload));
    PartOffsetGrows(Payloads(records), 0, i);
    WrappingSumMasks(0, records[i].payload);
  }

  lemma EntriesAt(records: seq<Record>, i: nat)
    requires Encodable(records) && i < |records|
    ensures EntryFits(records, i) && Entries(records)[i] == EntryOf(records, i)
  {
  }

  lemma SeenEntriesApart(records: seq<Record>, b: bytes, i: nat, j: nat)
    requires i < j < |records| && EntrySeen(records, b, i) && EntrySeen(records, b, j)
    ensures !Decode(EntryAt(b, j)).Overlaps(Decode(EntryAt(b, i)))
  {
    hide Decode, EntryAccepted;
    PartOffsetGrows(Payloads(records), i + 1, j);
  }

  lemma SeenBundle(records: seq<Record>, b: bytes)
    requires forall i | 0 <= i < |records| :: EntrySeen(records, b, i)
    requires HeaderAccepted(b) && FromLE(b[24..26]) == |records|
    ensures Accepted(b) <==> forall i | 0 <= i < |records| :: KnownKind(records[i].kind)
    ensures Accepted(b) ==> RecordsIn(b) == records
  {
    hide Decode, EntryAccepted, FromLE;
    forall i, j | 0 <= i < j < |records| ensures !Decode(EntryAt(b, j)).Overlaps(Decode(EntryAt(b, i))) {
      SeenEntriesApart(records, b, i, j);
    }
    if forall i | 0 <= i < |records| :: KnownKind(records[i].kind) {
      forall i | 0 <= i < |records|
        ensures EntryAccepted(b, HEADER_LEN + ENTRY_LEN * |records|, Decode(EntryAt(b, i)))
      {
        assert EntrySeen(records, b, i);
      }
    }
    if Accepted(b) {
      forall i | 0 <= i < |records| ensures KnownKind(records[i].kind) && RecordsIn(b)[i] == records[i] {
        assert EntrySeen(records, b, i);
        assert EntryAccepted(b, HEADER_LEN + ENTRY_LEN * |records|, Decode(EntryAt(b, i)));
      }
    }
  }

  /** The kernel accepts a built bundle exactly if it has a record and only kinds the kernel knows. */
  lemma BundleAcceptedIff(records: seq<Record>)
    requires Encodable(records)
    ensures Accepted(Bundle(records)) <==> records != [] && forall i | 0 <= i < |records| :: KnownKind(records[i].kind)
    ensures Accepted(Bundle(records)) ==> RecordsIn(Bundle(records)) == records
  {
    hide Bundle, EntrySeen, FromLE, RecordsIn;
    HeaderReads(records);
    if records != [] {
      BundleParts(records, |records| - 1);
      forall i | 0 <= i < |records| ensures EntrySeen(records, Bundle(records), i) {
        EntryReads(records, i);
      }
      SeenBundle(records, Bundle(records));
    }
  }

  // ----------------------------------------------------------- implementation

  /** The four slice assignments of one table entry, into zeroed space. */
  method PutEntry(table: Buffer, entry: nat, kind: nat, start: nat, len: nat, sum: nat)
    requires table.Valid() && entry + ENTRY_LEN <= table.data.Length
    requires kind < U32_LIMIT && start < U64_LIMIT && len < U64_LIMIT && sum < U32_LIMIT
    requires table.data[entry..entry + ENTRY_LEN] == Zeros(ENTRY_LEN)
    modifies table, table.data
    ensures table.Valid()
    ensures table.data[..] == Splice(old(table.data[..]), entry, EntryBytes(kind, start, len, sum))
  {
    hide Buffer.Valid, LE32, LE64, EntryBytes, Splice;
    ghost var before := table.data[..];
    assert before[entry..entry + ENTRY_LEN] == Zeros(ENTRY_LEN);
    table.Put(entry, LE32(kind));
    table.Put(entry + 8, LE64(start));
    table.Put(entry + 16, LE64(len));
    table.Put(entry + 24, LE32(sum));
    EntryFromSplices(before, entry, kind, start, len, sum);
  }

  lemma EntryFromSplices(t: bytes, entry: nat, kind: nat, start: nat, len: nat, sum: nat)
    requires entry + ENTRY_LEN <= |t| && t[entry..entry + ENTRY_LEN] == Zeros(ENTRY_LEN)
    requires kind < U32_LIMIT && start < U64_LIMIT && len < U64_LIMIT && sum < U32_LIMIT
    ensures Splice(Splice(Splice(Splice(t, entry, LE32(kind)), entry + 8, LE64(start)), entry + 16, LE64(len)),
                   entry + 24, LE32(sum))
         == Splice(t, entry, EntryBytes(kind, start, len, sum))
  {
    hide LE32, LE64, Splice, Zeros;
    var head, tail := t[..entry], t[entry + ENTRY_LEN..];
    var a, b, c, d := LE32(kind), LE64(start), LE64(len), LE32(sum);
    var z, zz := Zeros(4), Zeros(8);
    ZeroEntry();
    assert t == head + z + (z + zz + zz + z + z + tail) == head + Zeros(ENTRY_LEN) + tail;
    SpliceMiddle(head, z, z + zz + zz + z + z + tail, a);
    SpliceMiddle(head, Zeros(ENTRY_LEN), tail, a + z + b + c + d + z);
    var front := head + a + z;
    assert head + a + (z + zz + zz + z + z + tail) == front + zz + (zz + z + z + tail);
    SpliceMiddle(front, zz, zz + z + z + tail, b);
    assert front + b + (zz + z + z + tail) == front + b + zz + (z + z + tail);
    SpliceMiddle(front + b, zz, z + z + tail, c);
    assert front + b + c + (z + z + tail) == front + b + c + z + (z + tail);
    SpliceMiddle(front + b + c, z, z + tail, d);
    assert front + b + c + d + (z + tail) == head + (a + z + b + c + d + z) + tail;
  }

  lemma ZeroEntry()
    ensures Zeros(ENTRY_LEN) == Zeros(4) + Zeros(4) + Zeros(8) + Zeros(8) + Zeros(4) + Zeros(4)
  {
  }

  lemma {:induction false} FlattenUniform(es: seq<bytes>)
    requires forall i | 0 <= i < |es| :: |es[i]| == ENTRY_LEN
    ensures |Flatten(es)| == ENTRY_LEN * |es|
  {
    FlattenLength(es);
    PartOffsetUniform(es, ENTRY_LEN, |es|);
  }

  /** Writing the next entry behind the finished ones. */
  lemma TableGrows(es: seq<bytes>, e: bytes, rest: nat)
    requires forall i | 0 <= i < |es| :: |es[i]| == ENTRY_LEN
    requires |e| == ENTRY_LEN <= rest
    ensures |Flatten(es)| == ENTRY_LEN * |es|
    ensures Splice(Flatten(es) + Zeros(rest), ENTRY_LEN * |es|, e) == Flatten(es + [e]) + Zeros(rest - ENTRY_LEN)
  {
    FlattenUniform(es);
    FlattenSnoc(es, e);
    assert Zeros(rest)[ENTRY_LEN..] == Zeros(rest - ENTRY_LEN);
  }

  /** `build_init_bundle`: header, table and payloads, with the running cursor. */
  method BuildInitBundle(records: seq<Record>) returns (r: Result<bytes, BuildError>)
    ensures r.Ok? <==> Encodable(records)
    ensures r.Ok? ==> r.value == Bundle(records)
    ensures r.Ok? ==>
      (Accepted(r.value) <==> records != [] && forall i | 0 <= i < |records| :: KnownKind(records[i].kind))
    ensures r.Ok? && Accepted(r.value) ==> RecordsIn(r.value) == records
  {
    hide Accepted, RecordsIn, Buffer.Valid, EntryBytes, Splice, InitPak.Checksum, Header, Flatten, PartOffset, Zeros;
    if |records| > MAX_RECORDS {
      return Err(TooManyRecords);
    }
    var cursor := HEADER_LEN + ENTRY_LEN * |records|;
    var table := new Buffer(ENTRY_LEN * |records|);
    var payloads := [];
    ghost var es: seq<bytes> := [];
    StartsEmpty(table, records);
    for index := 0 to |records|
      invariant table.Valid() && fresh(table) && fresh(table.data)
      invariant |es| == index && cursor == Start(records, index)
      invariant forall i | 0 <= i < index :: EntryFits(records, i) && es[i] == EntryOf(records, i)
      invariant forall i | 0 <= i < |es| :: |es[i]| == ENTRY_LEN
      invariant table.data[..] == Flatten(es) + Zeros(ENTRY_LEN * (|records| - index))
      invariant payloads == Flatten(Payloads(records)[..index])
    {
      var record := records[index];
      if record.kind >= U32_LIMIT || cursor >= U64_LIMIT || |record.payload| >= U64_LIMIT {
        assert !EntryFits(records, index);
        return Err(FieldOverflow);
      }
      var entry := index * ENTRY_LEN;
      ghost var e := EntryOf(records, index);
      TableGrows(es, e, ENTRY_LEN * (|records| - index));
      FreeSpace(table.data[..], Flatten(es), ENTRY_LEN * (|records| - index));
      PutEntry(table, entry, record.kind, cursor, |record.payload|, InitPak.Checksum(record.payload));
      es := es + [e];
      FlattenSnoc(Payloads(records)[..index], record.payload);
      assert Payloads(records)[..index] + [record.payload] == Payloads(records)[..index + 1];
      payloads := payloads + record.payload;
      PartOffsetNext(Payloads(records), index);
      cursor := cursor + |record.payload|;
    }
    assert es == Entries(records);
    assert Payloads(records)[..|records|] == Payloads(records);
    assert Flatten(es) + Zeros(0) == Flatten(es);
    r := Ok(Header(|records|) + table.data[..] + payloads);
    BundleAcceptedIff(records);
  }

  lemma FreeSpace(t: bytes, used: bytes, rest: nat)
    requires t == used + Zeros(rest) && rest >= ENTRY_LEN
    ensures t[|used|..|used| + ENTRY_LEN] == Zeros(ENTRY_LEN)
  {
  }

  lemma StartsEmpty(table: Buffer, records: seq<Record>)
    requires table.Valid() && table.log == [] && table.data.Length == ENTRY_LEN * |records|
    ensures table.data[..] == Flatten([]) + Zeros(ENTRY_LEN * |records|)
    ensures Flatten(Payloads(records)[..0]) == []
    ensures Start(records, 0) == HEADER_LEN + ENTRY_LEN * |records|
  {
  }

  /** The builder writes bundles that the kernel refuses: an empty one, and one of an unknown kind. */
  lemma BuiltButRefused()
    ensures Encodable([]) && !Accepted(Bundle([]))
    ensures Encodable([Record(7, [])]) && !Accepted(Bundle([Record(7, [])]))
  {
    hide Bundle, Accepted;
    BundleAcceptedIff([]);
    var unknown := [Record(7, [])];
    assert PartOffset(Payloads(unknown), 0) == 0;
    BundleAcceptedIff(unknown);
    assert !KnownKind(unknown[0].kind);
  }

  /** Both layers: the records come back out of the container that holds their bundle. */
  lemma NestedRoundTrip(records: seq<Record>)
    requires Encodable(records) && InitPak.HEADER_LEN + |Bundle(records)| < U64_LIMIT
    requires records != [] && forall i | 0 <= i < |records| :: KnownKind(records[i].kind)
    ensures var pak := InitPak.Pak(0, Bundle(records));
      && InitPak.Validate(pak) == Ok(Bundle(records))
      && Accepted(InitPak.Validate(pak).value)
      && RecordsIn(InitPak.Validate(pak).value) == records
  {
    hide Bundle, Accepted, RecordsIn;
    InitPak.PakReads(0, Bundle(records));
    BundleAcceptedIff(records);
  }
}
