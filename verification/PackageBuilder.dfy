/** The writing side of package artifacts, and the round trip of whole packages. */
module PackageBuilder {
  import opened Bytes
  import opened Results
  import opened Package
  import Manifest

  // -------------------------------------------------------------- content table

  datatype Item = Item(role: nat, payload: bytes)

  function Payloads(items: seq<Item>): (ps: seq<bytes>)
    ensures |ps| == |items| && forall i | 0 <= i < |ps| :: ps[i] == items[i].payload
  {
    seq(|items|, i requires 0 <= i < |items| => items[i].payload)
  }

  predicate EntryFits(index: nat, role: nat, off: nat, payload: bytes) {
    index < U16_LIMIT && role < U16_LIMIT && off < U64_LIMIT && |payload| < U64_LIMIT
  }

  function EntryFront(index: nat, role: nat): (s: bytes)
    requires index < U16_LIMIT && role < U16_LIMIT
    ensures |s| == 8
  {
    LE16(index) + LE16(role) + LE16(FORMAT_BYTES) + LE16(1)
  }

  /** The 56 bytes that `put_content_entry` writes. */
  function EntryBytes(hash: Hash, index: nat, role: nat, off: nat, payload: bytes): (s: bytes)
    requires EntryFits(index, role, off, payload)
    ensures |s| == 56
  {
    EntryFront(index, role) + LE64(off) + LE64(|payload|) + hash(payload)
  }

  ghost predicate Listable(items: seq<Item>) {
    forall i | 0 <= i < |items| :: EntryFits(i, items[i].role, PartOffset(Payloads(items), i), items[i].payload)
  }

  ghost function EntryOf(hash: Hash, items: seq<Item>, i: nat): (e: bytes)
    requires Listable(items) && i < |items|
    ensures |e| == ENTRY_LEN
  {
    EntryBytes(hash, i, items[i].role, PartOffset(Payloads(items), i), items[i].payload) + Zeros(8)
  }

  ghost function Entries(hash: Hash, items: seq<Item>): (es: seq<bytes>)
    requires Listable(items)
    ensures |es| == |items| && forall i | 0 <= i < |es| :: |es[i]| == ENTRY_LEN
  {
    seq(|items|, i requires 0 <= i < |items| => EntryOf(hash, items, i))
  }

  /** One entry per item, each pointing behind the payloads before it. */
  ghost function ContentTable(hash: Hash, items: seq<Item>): (t: bytes)
    requires Listable(items)
    ensures |t| == ENTRY_LEN * |items|
  {
    FlattenLength(Entries(hash, items));
    PartOffsetUniform(Entries(hash, items), ENTRY_LEN, |items|);
    Flatten(Entries(hash, items))
  }

  lemma EntryDecodes(hash: Hash, index: nat, role: nat, off: nat, payload: bytes)
    requires EntryFits(index, role, off, payload)
    ensures Decode(EntryBytes(hash, index, role, off, payload) + Zeros(8))
         == Entry(index, role, FORMAT_BYTES, 1, off, |payload|, hash(payload), Zeros(8))
  {
    hide FromLE, LE16, LE64, Zeros;
    var front := EntryFront(index, role);
    var rest := LE64(off) + LE64(|payload|) + hash(payload) + Zeros(8);
    var e := EntryBytes(hash, index, role, off, payload) + Zeros(8);
    assert e == front + rest && e[0..8] == front && e[8..64] == rest;
    assert front[0..2] == LE16(index) && front[2..4] == LE16(role);
    assert front[4..6] == LE16(FORMAT_BYTES) && front[6..8] == LE16(1);
    assert rest[0..8] == LE64(off) && rest[8..16] == LE64(|payload|);
    assert rest[16..48] == hash(payload) && rest[48..56] == Zeros(8);
    SliceOfSlice(e, 0, 8, 0, 2);
    SliceOfSlice(e, 0, 8, 2, 4);
    SliceOfSlice(e, 0, 8, 4, 6);
    SliceOfSlice(e, 0, 8, 6, 8);
    SliceOfSlice(e, 8, 64, 0, 8);
    SliceOfSlice(e, 8, 64, 8, 16);
    SliceOfSlice(e, 8, 64, 16, 48);
    SliceOfSlice(e, 8, 64, 48, 56);
  }

  lemma TableEntryReads(hash: Hash, items: seq<Item>, i: nat)
    requires Listable(items) && i < |items|
    ensures var table, content := ContentTable(hash, items), Flatten(Payloads(items));
      && ENTRY_LEN * (i + 1) <= |table|
      && EntryAccepted(hash, content, i, Decode(EntryAt(table, i)))
      && (var e := Decode(EntryAt(table, i));
          && content[e.off..e.off + e.len] == items[i].payload
          && e.role == items[i].role && e.format == FORMAT_BYTES && e.extents == 1)
  {
    hide Flatten, EntryBytes, Decode, Zeros;
    FlattenAt(Entries(hash, items), i);
    PartOffsetUniform(Entries(hash, items), ENTRY_LEN, i);
    assert EntryAt(ContentTable(hash, items), i) == EntryOf(hash, items, i);
    EntryDecodes(hash, i, items[i].role, PartOffset(Payloads(items), i), items[i].payload);
    FlattenAt(Payloads(items), i);
  }

  /** The kernel reads item i back: its payload, its role, and that it is bytes in one extent. */
  ghost predicate ItemRead(hash: Hash, table: bytes, content: bytes, items: seq<Item>, i: nat)
    requires TableAccepted(hash, table, content) && i < |items| <= |table| / ENTRY_LEN
  {
    && ContentOf(hash, table, content, i) == items[i].payload
    && (var e := Decode(EntryAt(table, i)); e.role == items[i].role && e.format == FORMAT_BYTES && e.extents == 1)
  }

  /** The kernel accepts every table of at most 64 items and reads each item back. */
  lemma TableRoundTrip(hash: Hash, items: seq<Item>)
    requires Listable(items)
    ensures var table, content := ContentTable(hash, items), Flatten(Payloads(items));
      && (TableAccepted(hash, table, content) <==> |items| <= MAX_ENTRIES)
      && (TableAccepted(hash, table, content) ==>
            forall i | 0 <= i < |items| :: ItemRead(hash, table, content, items, i))
  {
    hide ContentTable, Flatten, Decode, EntryAccepted;
    var table, content := ContentTable(hash, items), Flatten(Payloads(items));
    assert |table| / ENTRY_LEN == |items|;
    forall i | 0 <= i < |items|
      ensures EntryAccepted(hash, content, i, Decode(EntryAt(table, i)))
    {
      TableEntryReads(hash, items, i);
    }
    if TableAccepted(hash, table, content) {
      forall i | 0 <= i < |items| ensures ItemRead(hash, table, content, items, i) {
        TableEntryReads(hash, items, i);
      }
    }
  }

  /** A package of well-kept records and items comes back out of the kernel's parser. */
  lemma PackageRoundTrip(hash: Hash, records: seq<Manifest.Rec>, items: seq<Item>)
    requires Manifest.AllEncodable(records) && |records| <= Manifest.MAX_RECORDS && Manifest.WellKept(records, None)
    requires Listable(items) && |items| <= MAX_ENTRIES
    requires WithinLimits(Manifest.Serialise(records), ContentTable(hash, items), Flatten(Payloads(items)))
    ensures var table, content := ContentTable(hash, items), Flatten(Payloads(items));
      var b := Artifact(hash, Manifest.Serialise(records), table, content);
      && Accepted(hash, b) && Contents(hash, b) == Parsed(records, table, content)
      && TableAccepted(hash, table, content)
      && forall i | 0 <= i < |items| :: ItemRead(hash, table, content, items, i)
  {
    hide ContentTable, Flatten, Artifact, Accepted, Contents, TableAccepted, ContentOf, Manifest.Serialise,
         Manifest.KernelParse, Manifest.Parse, Manifest.WellKept;
    Manifest.ParseSerialised(records);
    Manifest.KernelParseIff(Manifest.Serialise(records));
    TableRoundTrip(hash, items);
    ArtifactAcceptedIff(hash, Manifest.Serialise(records), ContentTable(hash, items), Flatten(Payloads(items)));
  }

  // ------------------------------------------------------------- implementation

  /** `put_content_entry`: seven slice assignments, in place. */
  method PutContentEntry(hash: Hash, table: Buffer, index: nat, contentIndex: nat, role: nat, off: nat, payload: bytes)
    requires table.Valid() && ENTRY_LEN * (index + 1) <= table.data.Length
    requires EntryFits(contentIndex, role, off, payload)
    modifies table, table.data
    ensures table.Valid()
    ensures table.data[..] ==
      Splice(old(table.data[..]), ENTRY_LEN * index, EntryBytes(hash, contentIndex, role, off, payload))
  {
    hide Buffer.Valid, LE16, LE64, Splice;
    var entry := ENTRY_LEN * index;
    ghost var t := table.data[..];
    table.Put(entry, LE16(contentIndex));
    table.Put(entry + 2, LE16(role));
    SpliceAdjacent(t, entry, LE16(contentIndex), LE16(role));
    ghost var two := LE16(contentIndex) + LE16(role);
    table.Put(entry + 4, LE16(FORMAT_BYTES));
    SpliceAdjacent(t, entry, two, LE16(FORMAT_BYTES));
    ghost var three := two + LE16(FORMAT_BYTES);
    table.Put(entry + 6, LE16(1));
    SpliceAdjacent(t, entry, three, LE16(1));
    ghost var front := EntryFront(contentIndex, role);
    assert three + LE16(1) == front;
    table.Put(entry + 8, LE64(off));
    SpliceAdjacent(t, entry, front, LE64(off));
    table.Put(entry + 16, LE64(|payload|));
    SpliceAdjacent(t, entry, front + LE64(off), LE64(|payload|));
    table.Put(entry + 24, hash(payload));
    SpliceAdjacent(t, entry, front + LE64(off) + LE64(|payload|), hash(payload));
  }

  /** The content table of the independent fixture: a schema descriptor and a graph. */
  method BuildTwoEntryTable(hash: Hash, schema: bytes, graph: bytes) returns (table: bytes)
    requires |schema| + |graph| < U64_LIMIT
    ensures Listable([Item(2, schema), Item(2, graph)])
    ensures table == ContentTable(hash, [Item(2, schema), Item(2, graph)])
  {
    hide EntryBytes, Buffer.Valid, Splice, Flatten;
    ghost var items := [Item(2, schema), Item(2, graph)];
    TwoItems(schema, graph);
    var buffer := new Buffer(2 * ENTRY_LEN);
    assert buffer.data[..] == Zeros(2 * ENTRY_LEN) by {
      FreshIsZero(buffer);
    }
    PutContentEntry(hash, buffer, 0, 0, 2, 0, schema);
    PutContentEntry(hash, buffer, 1, 1, 2, |schema|, graph);
    table := buffer.data[..];
    ghost var first, second := EntryBytes(hash, 0, 2, 0, schema), EntryBytes(hash, 1, 2, |schema|, graph);
    TwoSplices(first, second);
    assert Entries(hash, items) == [first + Zeros(8), second + Zeros(8)];
    TwoParts(first + Zeros(8), second + Zeros(8));
  }

  lemma TwoSplices(first: bytes, second: bytes)
    requires |first| == |second| == 56
    ensures Splice(Splice(Zeros(128), 0, first), 64, second) == (first + Zeros(8)) + (second + Zeros(8))
  {
    hide Splice;
    SpliceMiddle([], Zeros(56), Zeros(72), first);
    assert [] + Zeros(56) + Zeros(72) == Zeros(128);
    assert [] + first + Zeros(72) == (first + Zeros(8)) + Zeros(56) + Zeros(8);
    SpliceMiddle(first + Zeros(8), Zeros(56), Zeros(8), second);
    assert (first + Zeros(8)) + second + Zeros(8) == (first + Zeros(8)) + (second + Zeros(8));
  }

  lemma FreshIsZero(buffer: Buffer)
    requires buffer.Valid() && buffer.log == []
    ensures buffer.data[..] == Zeros(buffer.data.Length)
  {
  }

  lemma TwoParts(x: bytes, y: bytes)
    ensures Flatten([x, y]) == x + y
  {
    FlattenSnoc([], x);
    FlattenSnoc([x], y);
    assert [] + [x] == [x] && [x] + [y] == [x, y];
  }

  lemma TwoItems(schema: bytes, graph: bytes)
    requires |schema| + |graph| < U64_LIMIT
    ensures var items := [Item(2, schema), Item(2, graph)];
      && Listable(items) && PartOffset(Payloads(items), 0) == 0 && PartOffset(Payloads(items), 1) == |schema|
  {
    var items := [Item(2, schema), Item(2, graph)];
    var ps := Payloads(items);
    assert PartOffset(ps[1..], 0) == 0;
    assert PartOffset(ps, 1) == |ps[0]| + PartOffset(ps[1..], 0);
    forall i | 0 <= i < |items| ensures EntryFits(i, items[i].role, PartOffset(ps, i), items[i].payload) {
      assert i == 0 || i == 1;
    }
  }

  function HeaderWrites(hash: Hash, manifest: bytes, table: bytes, content: bytes): seq<Write>
    requires Writable(manifest, table, content)
  {
    [ Write(0, MAGIC), Write(8, LE16(0)), Write(10, LE16(1)), Write(12, LE32(HEADER_LEN)), Write(16, LE64(HEADER_LEN)),
      Write(24, LE64(|manifest|)), Write(32, LE64(HEADER_LEN + |manifest|)), Write(40, LE64(|table|)),
      Write(48, LE64(HEADER_LEN + |manifest| + |table|)), Write(56, LE64(|content|)), Write(64, hash(manifest)) ]
  }

  lemma {:induction false} ApplyContiguous(n: nat, ws: seq<Write>)
    requires Contiguous(ws) && Fits(ws, n) && (ws != [] ==> ws[0].off == 0)
    ensures |Flatten(Datas(ws))| <= n && (ws != [] ==> ws[|ws| - 1].End() == |Flatten(Datas(ws))|)
    ensures Apply(Zeros(n), ws) == Flatten(Datas(ws)) + Zeros(n - |Flatten(Datas(ws))|)
    decreases |ws|
  {
    hide Apply, Splice, Flatten;
    NoDatas(n);
    if ws == [] {
      assert Datas(ws) == [];
    } else {
      var init, last := ws[..|ws| - 1], ws[|ws| - 1];
      assert init != [] ==> init[|init| - 1].End() == last.off;
      ApplyContiguous(n, init);
      assert init == [] ==> Datas(init) == [];
      assert ws == init + [last] && Datas(ws) == Datas(init) + [last.data];
      FlattenSnoc(Datas(init), last.data);
      ApplySnoc(Zeros(n), init, last);
      FillNext(Flatten(Datas(init)), n, last.data);
    }
  }

  lemma FillNext(front: bytes, n: nat, data: bytes)
    requires |front| + |data| <= n
    ensures Splice(front + Zeros(n - |front|), |front|, data) == front + data + Zeros(n - |front + data|)
  {
    hide Splice;
    SpliceMiddle(front, Zeros(|data|), Zeros(n - |front| - |data|), data);
    assert front + Zeros(|data|) + Zeros(n - |front| - |data|) == front + Zeros(n - |front|);
  }

  lemma NoDatas(n: nat)
    ensures Flatten([]) == [] && Apply(Zeros(n), []) == [] + Zeros(n)
  {
  }

  function Datas(ws: seq<Write>): (ds: seq<bytes>)
    ensures |ds| == |ws| && forall i | 0 <= i < |ds| :: ds[i] == ws[i].data
  {
    seq(|ws|, i requires 0 <= i < |ws| => ws[i].data)
  }

  lemma HeaderFromWrites(hash: Hash, manifest: bytes, table: bytes, content: bytes)
    requires Writable(manifest, table, content)
    ensures var ws := HeaderWrites(hash, manifest, table, content);
      && Fits(ws, HEADER_LEN)
      && Apply(Zeros(HEADER_LEN), ws) == HeaderFields(hash, manifest, table, content, Zeros(32)).Joined()
  {
    hide LE16, LE32, LE64, Ascii, Apply, Flatten;
    var ws := HeaderWrites(hash, manifest, table, content);
    var f := HeaderFields(hash, manifest, table, content, Zeros(32));
    ApplyContiguous(HEADER_LEN, ws);
    assert Datas(ws) == [f.magic, f.major, f.minor, f.headerLen, f.manifestOff, f.manifestLen, f.tableOff, f.tableLen,
                         f.contentOff, f.contentLen, f.manifestSha];
    ElevenParts(f);
    assert Zeros(64) == Zeros(32) + Zeros(32);
  }

  lemma ElevenParts(f: Fields)
    ensures Flatten([f.magic, f.major, f.minor, f.headerLen, f.manifestOff, f.manifestLen, f.tableOff, f.tableLen,
                     f.contentOff, f.contentLen, f.manifestSha]) == f.Front()
  {
    hide Flatten;
    var parts := [f.magic, f.major, f.minor, f.headerLen, f.manifestOff, f.manifestLen, f.tableOff, f.tableLen,
                  f.contentOff, f.contentLen, f.manifestSha];
    PrefixGrows(parts, 0);
    PrefixGrows(parts, 1);
    PrefixGrows(parts, 2);
    PrefixGrows(parts, 3);
    PrefixGrows(parts, 4);
    PrefixGrows(parts, 5);
    PrefixGrows(parts, 6);
    PrefixGrows(parts, 7);
    PrefixGrows(parts, 8);
    PrefixGrows(parts, 9);
    PrefixGrows(parts, 10);
    assert parts[..11] == parts;
    NoParts(parts);
  }

  lemma NoParts(parts: seq<bytes>)
    ensures Flatten(parts[..0]) == []
  {
  }

  lemma PrefixGrows(parts: seq<bytes>, i: nat)
    requires i < |parts|
    ensures Flatten(parts[..i + 1]) == Flatten(parts[..i]) + parts[i]
  {
    assert parts[..i + 1] == parts[..i] + [parts[i]];
    FlattenSnoc(parts[..i], parts[i]);
  }

  /** `build_artifact`: header, digest of the digest domain, splice. */
  method BuildArtifact(hash: Hash, manifest: bytes, table: bytes, content: bytes) returns (r: Option<bytes>)
    ensures r.Some? <==> Writable(manifest, table, content)
    ensures r.Some? ==> r.value == Artifact(hash, manifest, table, content)
    ensures r.Some? ==> (Accepted(hash, r.value) <==>
      && WithinLimits(manifest, table, content)
      && Manifest.KernelParse(manifest).Ok? && TableAccepted(hash, table, content))
  {
    hide Accepted, WithinLimits, TableAccepted, HeaderWrites, Fields.Joined, Split, Manifest.KernelParse;
    if HEADER_LEN + |manifest| + |table| >= U64_LIMIT || |content| >= U64_LIMIT {
      return None;
    }
    HeaderFromWrites(hash, manifest, table, content);
    var header := new Buffer(HEADER_LEN);
    header.PutAll(HeaderWrites(hash, manifest, table, content));
    var bytes := header.Freeze();
    assert header.log == HeaderWrites(hash, manifest, table, content);
    var artifact := bytes + manifest + table + content;
    DomainIgnoresDigest(hash, manifest, table, content, Zeros(32));
    var digest := hash(DigestDomain(artifact));
    r := Some(artifact[..96] + digest + artifact[128..]);
    DigestSpliced(hash, manifest, table, content, digest);
    ArtifactAcceptedIff(hash, manifest, table, content);
  }

  lemma DigestSpliced(hash: Hash, manifest: bytes, table: bytes, content: bytes, sha: Digest)
    requires Writable(manifest, table, content)
    ensures var b := ArtifactWith(hash, manifest, table, content, Zeros(32));
      |b| >= 128 && b[..96] + sha + b[128..] == ArtifactWith(hash, manifest, table, content, sha)
  {
    hide LE16, LE32, LE64, Ascii;
    var front := HeaderFields(hash, manifest, table, content, sha).Front();
    var back := Zeros(32) + manifest + table + content;
    assert |front| == 96;
    assert ArtifactWith(hash, manifest, table, content, Zeros(32)) == front + Zeros(32) + back;
    assert ArtifactWith(hash, manifest, table, content, sha) == front + sha + back;
  }
}
