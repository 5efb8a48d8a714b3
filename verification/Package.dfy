/**
 Package artifacts: `build_artifact` and `put_content_entry` write them, the kernel's
 `PackageArtifactV0::parse` reads them. SHA-256 is any function from bytes to 32 bytes, so
 everything here holds whatever the hash is.
 */
module Package {
  import opened Bytes
  import opened Results
  import Manifest

  type Digest = s: bytes | |s| == 32 witness Zeros(32)
  type Hash = bytes -> Digest

  const MAGIC := Ascii("PYTHPKG0")
  const HEADER_LEN := 160
  const ENTRY_LEN := 64
  const MAX_ARTIFACT := 4 * 1024 * 1024
  const MAX_MANIFEST := 64 * 1024
  const MAX_TABLE := 32 * 1024
  const MAX_CONTENT := 4 * 1024 * 1024
  const MAX_ENTRIES := 64
  const MAX_EXTENTS := 32
  const FORMAT_BYTES := 1

  datatype PackageError = TooShort | BoundsExceeded | InvalidMagic | UnsupportedMajor | UnsupportedRequiredMinor
                        | InvalidHeaderLength | NonZeroReserved | LengthOverflow | ManifestDigestMismatch
                        | ManifestRefused(why: Manifest.KernelError) | ArtifactDigestMismatch
                        | TooManyContentEntries | TooManyContentExtents
                        | ContentRangeOutsidePayload | ContentDigestMismatch

  // -------------------------------------------------------------------- header

  datatype Fields = Fields(magic: bytes, major: bytes, minor: bytes, headerLen: bytes,
                           manifestOff: bytes, manifestLen: bytes, tableOff: bytes, tableLen: bytes,
                           contentOff: bytes, contentLen: bytes, manifestSha: bytes, artifactSha: bytes,
                           reserved: bytes)
  {
    function Front(): bytes {
      magic + major + minor + headerLen + manifestOff + manifestLen + tableOff + tableLen + contentOff + contentLen
        + manifestSha
    }

    function Joined(): bytes {
      Front() + artifactSha + reserved
    }
  }

  function Split(b: bytes): (f: Fields)
    requires |b| >= HEADER_LEN
  {
    Fields(b[0..8], b[8..10], b[10..12], b[12..16], b[16..24], b[24..32], b[32..40], b[40..48], b[48..56],
           b[56..64], b[64..96], b[96..128], b[128..160])
  }

  /** Every offset and length fits its field. */
  predicate Writable(manifest: bytes, table: bytes, content: bytes) {
    HEADER_LEN + |manifest| + |table| < U64_LIMIT && |content| < U64_LIMIT
  }

  function HeaderFields(hash: Hash, manifest: bytes, table: bytes, content: bytes, sha: Digest): Fields
    requires Writable(manifest, table, content)
  {
    Fields(MAGIC, LE16(0), LE16(1), LE32(HEADER_LEN), LE64(HEADER_LEN), LE64(|manifest|),
           LE64(HEADER_LEN + |manifest|), LE64(|table|), LE64(HEADER_LEN + |manifest| + |table|), LE64(|content|),
           hash(manifest), sha, Zeros(32))
  }

  function ArtifactWith(hash: Hash, manifest: bytes, table: bytes, content: bytes, sha: Digest): bytes
    requires Writable(manifest, table, content)
  {
    HeaderFields(hash, manifest, table, content, sha).Joined() + manifest + table + content
  }

  /** `artifact_digest_domain`: the artifact with its digest field zeroed. */
  function DigestDomain(b: bytes): bytes
    requires |b| >= HEADER_LEN
  {
    Splice(b, 96, Zeros(32))
  }

  /** The artifact whose digest field is the hash of its own digest domain. */
  function Artifact(hash: Hash, manifest: bytes, table: bytes, content: bytes): bytes
    requires Writable(manifest, table, content)
  {
    ArtifactWith(hash, manifest, table, content, hash(ArtifactWith(hash, manifest, table, content, Zeros(32))))
  }

  lemma HeaderSplits(f: Fields, rest: bytes)
    requires |f.magic| == 8 && |f.major| == |f.minor| == 2 && |f.headerLen| == 4
    requires |f.manifestOff| == |f.manifestLen| == |f.tableOff| == |f.tableLen| == 8
    requires |f.contentOff| == |f.contentLen| == 8 && |f.manifestSha| == |f.artifactSha| == |f.reserved| == 32
    ensures |f.Joined()| == HEADER_LEN && Split(f.Joined() + rest) == f
  {
    var early := f.magic + f.major + f.minor + f.headerLen + f.manifestOff;
    var late := f.manifestLen + f.tableOff + f.tableLen + f.contentOff + f.contentLen;
    var digests := f.manifestSha + f.artifactSha + f.reserved;
    var b := f.Joined() + rest;
    assert b == early + late + digests + rest;
    assert b[0..24] == early && b[24..64] == late && b[64..160] == digests;
    EarlyParts(b, f, early);
    LateParts(b, f, late);
    SliceOfSlice(b, 64, 160, 0, 32);
    SliceOfSlice(b, 64, 160, 32, 64);
    SliceOfSlice(b, 64, 160, 64, 96);
  }

  lemma EarlyParts(b: bytes, f: Fields, early: bytes)
    requires |f.magic| == 8 && |f.major| == |f.minor| == 2 && |f.headerLen| == 4 && |f.manifestOff| == 8
    requires early == f.magic + f.major + f.minor + f.headerLen + f.manifestOff && |b| >= 24 && b[0..24] == early
    ensures b[0..8] == f.magic && b[8..10] == f.major && b[10..12] == f.minor && b[12..16] == f.headerLen
    ensures b[16..24] == f.manifestOff
  {
    var front, back := f.magic + f.major + f.minor, f.headerLen + f.manifestOff;
    assert early == front + back && early[0..12] == front && early[12..24] == back;
    assert front[0..8] == f.magic && front[8..10] == f.major && front[10..12] == f.minor;
    assert back[0..4] == f.headerLen && back[4..12] == f.manifestOff;
    SliceOfSlice(early, 0, 12, 0, 8);
    SliceOfSlice(early, 0, 12, 8, 10);
    SliceOfSlice(early, 0, 12, 10, 12);
    SliceOfSlice(early, 12, 24, 0, 4);
    SliceOfSlice(early, 12, 24, 4, 12);
    SliceOfSlice(b, 0, 24, 0, 8);
    SliceOfSlice(b, 0, 24, 8, 10);
    SliceOfSlice(b, 0, 24, 10, 12);
    SliceOfSlice(b, 0, 24, 12, 16);
    SliceOfSlice(b, 0, 24, 16, 24);
  }

  lemma LateParts(b: bytes, f: Fields, late: bytes)
    requires |f.manifestLen| == |f.tableOff| == |f.tableLen| == |f.contentOff| == |f.contentLen| == 8
    requires late == f.manifestLen + f.tableOff + f.tableLen + f.contentOff + f.contentLen
    requires |b| >= 64 && b[24..64] == late
    ensures b[24..32] == f.manifestLen && b[32..40] == f.tableOff && b[40..48] == f.tableLen
    ensures b[48..56] == f.contentOff && b[56..64] == f.contentLen
  {
    var front, back := f.manifestLen + f.tableOff + f.tableLen, f.contentOff + f.contentLen;
    assert late == front + back && late[0..24] == front && late[24..40] == back;
    assert front[0..8] == f.manifestLen && front[8..16] == f.tableOff && front[16..24] == f.tableLen;
    assert back[0..8] == f.contentOff && back[8..16] == f.contentLen;
    SliceOfSlice(late, 0, 24, 0, 8);
    SliceOfSlice(late, 0, 24, 8, 16);
    SliceOfSlice(late, 0, 24, 16, 24);
    SliceOfSlice(late, 24, 40, 0, 8);
    SliceOfSlice(late, 24, 40, 8, 16);
    SliceOfSlice(b, 24, 64, 0, 8);
    SliceOfSlice(b, 24, 64, 8, 16);
    SliceOfSlice(b, 24, 64, 16, 24);
    SliceOfSlice(b, 24, 64, 24, 32);
    SliceOfSlice(b, 24, 64, 32, 40);
  }

  lemma ArtifactSplits(hash: Hash, manifest: bytes, table: bytes, content: bytes, sha: Digest)
    requires Writable(manifest, table, content)
    ensures var b := ArtifactWith(hash, manifest, table, content, sha);
      && |b| == HEADER_LEN + |manifest| + |table| + |content|
      && Split(b) == HeaderFields(hash, manifest, table, content, sha)
      && b[HEADER_LEN..HEADER_LEN + |manifest|] == manifest
      && b[HEADER_LEN + |manifest|..HEADER_LEN + |manifest| + |table|] == table
      && b[HEADER_LEN + |manifest| + |table|..] == content
  {
    hide Fields.Joined, Split, LE16, LE32, LE64, Ascii;
    var f := HeaderFields(hash, manifest, table, content, sha);
    HeaderSplits(f, manifest + table + content);
    assert ArtifactWith(hash, manifest, table, content, sha) == f.Joined() + (manifest + table + content);
  }

  /** The digest domain does not depend on the digest, so the embedded digest can verify. */
  lemma DomainIgnoresDigest(hash: Hash, manifest: bytes, table: bytes, content: bytes, sha: Digest)
    requires Writable(manifest, table, content)
    ensures |ArtifactWith(hash, manifest, table, content, sha)| >= HEADER_LEN
    ensures DigestDomain(ArtifactWith(hash, manifest, table, content, sha))
         == ArtifactWith(hash, manifest, table, content, Zeros(32))
  {
    hide LE16, LE32, LE64, Ascii, Split;
    ArtifactSplits(hash, manifest, table, content, sha);
    var front := HeaderFields(hash, manifest, table, content, sha).Front();
    var back := Zeros(32) + manifest + table + content;
    assert |front| == 96;
    assert ArtifactWith(hash, manifest, table, content, sha) == front + sha + back;
    assert ArtifactWith(hash, manifest, table, content, Zeros(32)) == front + Zeros(32) + back;
  }

  // ------------------------------------------------------------- content entries

  datatype Entry = Entry(index: nat, role: nat, format: nat, extents: nat, off: nat, len: nat, sha: bytes, tail: bytes)

  function Decode(e: bytes): Entry
    requires |e| == ENTRY_LEN
  {
    Entry(FromLE(e[0..2]), FromLE(e[2..4]), FromLE(e[4..6]), FromLE(e[6..8]), FromLE(e[8..16]), FromLE(e[16..24]),
          e[24..56], e[56..64])
  }

  function EntryAt(table: bytes, i: nat): (e: bytes)
    requires ENTRY_LEN * (i + 1) <= |table|
    ensures |e| == ENTRY_LEN
  {
    table[ENTRY_LEN * i..ENTRY_LEN * (i + 1)]
  }

  predicate EntryAccepted(hash: Hash, content: bytes, i: nat, e: Entry) {
    && e.index == i && e.extents <= MAX_EXTENTS && e.off + e.len <= |content|
    && hash(content[e.off..e.off + e.len]) == e.sha
  }

  ghost predicate TableAccepted(hash: Hash, table: bytes, content: bytes) {
    && |table| % ENTRY_LEN == 0 && |table| / ENTRY_LEN <= MAX_ENTRIES
    && forall i | 0 <= i < |table| / ENTRY_LEN :: EntryAccepted(hash, content, i, Decode(EntryAt(table, i)))
  }

  /** `content_bytes` of entry i. */
  ghost function ContentOf(hash: Hash, table: bytes, content: bytes, i: nat): bytes
    requires TableAccepted(hash, table, content) && i < |table| / ENTRY_LEN
  {
    var e := Decode(EntryAt(table, i));
    assert EntryAccepted(hash, content, i, e);
    content[e.off..e.off + e.len]
  }

  /** The one reason to refuse an entry, in the order of the checks. */
  ghost predicate EntryFault(hash: Hash, content: bytes, i: nat, e: Entry, error: PackageError) {
    if e.index != i then error == ManifestRefused(Manifest.InvalidManifest)
    else if e.extents > MAX_EXTENTS then error == TooManyContentExtents
    else if e.off + e.len >= U64_LIMIT then error == LengthOverflow
    else if e.off + e.len > |content| then error == ContentRangeOutsidePayload
    else hash(content[e.off..e.off + e.len]) != e.sha && error == ContentDigestMismatch
  }

  /** Entry i is the first that is refused, and this is the reason. */
  ghost predicate FirstFault(hash: Hash, table: bytes, content: bytes, i: nat, error: PackageError)
    requires ENTRY_LEN * (i + 1) <= |table|
  {
    && (forall k | 0 <= k < i :: EntryAccepted(hash, content, k, Decode(EntryAt(table, k))))
    && EntryFault(hash, content, i, Decode(EntryAt(table, i)), error)
  }

  ghost predicate TableRefused(hash: Hash, table: bytes, content: bytes, error: PackageError) {
    if |table| % ENTRY_LEN != 0 then error == BoundsExceeded
    else if |table| / ENTRY_LEN > MAX_ENTRIES then error == TooManyContentEntries
    else exists i | 0 <= i < |table| / ENTRY_LEN :: FirstFault(hash, table, content, i, error)
  }

  lemma TableRefusalUnique(hash: Hash, table: bytes, content: bytes, x: PackageError, y: PackageError)
    requires |content| < U64_LIMIT
    requires TableRefused(hash, table, content, x) && TableRefused(hash, table, content, y)
    ensures x == y && !TableAccepted(hash, table, content)
  {
    hide Decode, FirstFault, EntryAccepted;
    if |table| % ENTRY_LEN == 0 && |table| / ENTRY_LEN <= MAX_ENTRIES {
      var i :| 0 <= i < |table| / ENTRY_LEN && FirstFault(hash, table, content, i, x);
      var j :| 0 <= j < |table| / ENTRY_LEN && FirstFault(hash, table, content, j, y);
      FaultBlocks(hash, table, content, i, x, j, y);
      FaultBlocks(hash, table, content, j, y, i, x);
    }
  }

  lemma FaultBlocks(hash: Hash, table: bytes, content: bytes, i: nat, x: PackageError, j: nat, y: PackageError)
    requires ENTRY_LEN * (i + 1) <= |table| && ENTRY_LEN * (j + 1) <= |table| && |content| < U64_LIMIT
    requires FirstFault(hash, table, content, i, x) && FirstFault(hash, table, content, j, y)
    ensures j <= i && !EntryAccepted(hash, content, i, Decode(EntryAt(table, i))) && (i == j ==> x == y)
  {
    hide Decode;
  }

  /** `validate_content_table`. */
  method ValidateContentTable(hash: Hash, table: bytes, content: bytes) returns (r: Option<PackageError>)
    requires |content| < U64_LIMIT
    ensures r.None? <==> TableAccepted(hash, table, content)
    ensures r.Some? ==> TableRefused(hash, table, content, r.value)
  {
    hide Decode;
    if |table| % ENTRY_LEN != 0 {
      return Some(BoundsExceeded);
    }
    var count := |table| / ENTRY_LEN;
    if count > MAX_ENTRIES {
      return Some(TooManyContentEntries);
    }
    for index := 0 to count
      invariant forall i | 0 <= i < index :: EntryAccepted(hash, content, i, Decode(EntryAt(table, i)))
    {
      var entry := Decode(EntryAt(table, index));
      if entry.index != index {
        assert FirstFault(hash, table, content, index, ManifestRefused(Manifest.InvalidManifest));
        return Some(ManifestRefused(Manifest.InvalidManifest));
      }
      if entry.extents > MAX_EXTENTS {
        assert FirstFault(hash, table, content, index, TooManyContentExtents);
        return Some(TooManyContentExtents);
      }
      if entry.off + entry.len >= U64_LIMIT {
        assert FirstFault(hash, table, content, index, LengthOverflow);
        return Some(LengthOverflow);
      }
      if entry.off + entry.len > |content| {
        assert FirstFault(hash, table, content, index, ContentRangeOutsidePayload);
        return Some(ContentRangeOutsidePayload);
      }
      if hash(content[entry.off..entry.off + entry.len]) != entry.sha {
        assert FirstFault(hash, table, content, index, ContentDigestMismatch);
        return Some(ContentDigestMismatch);
      }
    }
    return None;
  }

  // -------------------------------------------------------- the kernel's parser

  datatype Range = Range(start: nat, len: nat) {
    predicate Within(b: bytes, max: nat) {
      len <= max && HEADER_LEN <= start && start + len <= |b|
    }

    /** Why a range is refused: the length is judged before the end, and the end before the bounds. */
    function Fault(max: nat): PackageError {
      if len <= max && start + len >= U64_LIMIT then LengthOverflow else BoundsExceeded
    }

    function Of(b: bytes): bytes
      requires start + len <= |b|
    {
      b[start..start + len]
    }
  }

  function ManifestRange(f: Fields): Range {
    Range(FromLE(f.manifestOff), FromLE(f.manifestLen))
  }

  function TableRange(f: Fields): Range {
    Range(FromLE(f.tableOff), FromLE(f.tableLen))
  }

  function ContentRange(f: Fields): Range {
    Range(FromLE(f.contentOff), FromLE(f.contentLen))
  }

  predicate HeaderAccepted(b: bytes) {
    && HEADER_LEN <= |b| <= MAX_ARTIFACT
    && (var f := Split(b);
        && f.magic == MAGIC && FromLE(f.major) == 0 && FromLE(f.minor) <= 1 && FromLE(f.headerLen) == HEADER_LEN
        && f.reserved == Zeros(32)
        && ManifestRange(f).Within(b, MAX_MANIFEST) && TableRange(f).Within(b, MAX_TABLE)
        && ContentRange(f).Within(b, MAX_CONTENT))
  }

  /** What the kernel accepts. */
  ghost predicate Accepted(hash: Hash, b: bytes) {
    && HeaderAccepted(b)
    && (var f := Split(b);
        && hash(ManifestRange(f).Of(b)) == f.manifestSha
        && Manifest.KernelParse(ManifestRange(f).Of(b)).Ok?
        && hash(DigestDomain(b)) == f.artifactSha
        && TableAccepted(hash, TableRange(f).Of(b), ContentRange(f).Of(b)))
  }

  datatype Parsed = Parsed(records: seq<Manifest.Rec>, table: bytes, content: bytes)

  ghost function Contents(hash: Hash, b: bytes): Parsed
    requires Accepted(hash, b)
  {
    var f := Split(b);
    Parsed(Manifest.KernelParse(ManifestRange(f).Of(b)).value, TableRange(f).Of(b), ContentRange(f).Of(b))
  }

  function CheckedRange(b: bytes, r: Range, max: nat): Option<PackageError> {
    if r.len > max then Some(BoundsExceeded)
    else if r.start + r.len >= U64_LIMIT then Some(LengthOverflow)
    else if r.start < HEADER_LEN || r.start + r.len > |b| then Some(BoundsExceeded)
    else None
  }

  /** The one reason to refuse a header, in the order of the checks. */
  ghost predicate HeaderFault(b: bytes, error: PackageError) {
    if |b| < HEADER_LEN then error == TooShort
    else if |b| > MAX_ARTIFACT then error == BoundsExceeded
    else
      var f := Split(b);
      if f.magic != MAGIC then error == InvalidMagic
      else if FromLE(f.major) != 0 then error == UnsupportedMajor
      else if FromLE(f.minor) > 1 then error == UnsupportedRequiredMinor
      else if FromLE(f.headerLen) != HEADER_LEN then error == InvalidHeaderLength
      else if f.reserved != Zeros(32) then error == NonZeroReserved
      else if !ManifestRange(f).Within(b, MAX_MANIFEST) then error == ManifestRange(f).Fault(MAX_MANIFEST)
      else if !TableRange(f).Within(b, MAX_TABLE) then error == TableRange(f).Fault(MAX_TABLE)
      else !ContentRange(f).Within(b, MAX_CONTENT) && error == ContentRange(f).Fault(MAX_CONTENT)
  }

  /** The digests and the manifest are judged before the content table. */
  ghost predicate Refused(hash: Hash, b: bytes, error: PackageError) {
    || HeaderFault(b, error)
    || (HeaderAccepted(b) &&
        var f := Split(b);
        var manifest := ManifestRange(f).Of(b);
        if hash(manifest) != f.manifestSha then error == ManifestDigestMismatch
        else if Manifest.KernelParse(manifest).Err? then error == ManifestRefused(Manifest.KernelParse(manifest).error)
        else if hash(DigestDomain(b)) != f.artifactSha then error == ArtifactDigestMismatch
        else TableRefused(hash, TableRange(f).Of(b), ContentRange(f).Of(b), error))
  }

  /** The specification names one error, and only for bytes that are not accepted. */
  lemma RefusalUnique(hash: Hash, b: bytes, x: PackageError, y: PackageError)
    requires Refused(hash, b, x) && Refused(hash, b, y)
    ensures x == y && !Accepted(hash, b)
  {
    hide Split, HeaderFault, HeaderAccepted, TableRefused, TableAccepted, DigestDomain, Manifest.KernelParse;
    if HeaderFault(b, x) {
      HeaderFaultUnique(b, x, y);
    } else if HeaderFault(b, y) {
      HeaderFaultUnique(b, y, x);
    } else {
      HeaderRanges(b);
      var f := Split(b);
      var table, content := TableRange(f).Of(b), ContentRange(f).Of(b);
      if TableRefused(hash, table, content, x) && TableRefused(hash, table, content, y) {
        TableRefusalUnique(hash, table, content, x, y);
      }
    }
  }

  lemma HeaderFaultUnique(b: bytes, x: PackageError, y: PackageError)
    requires HeaderFault(b, x)
    ensures !HeaderAccepted(b) && (HeaderFault(b, y) ==> x == y)
  {
    hide Split, FromLE, Ascii, Zeros, Range.Within, Range.Fault, ManifestRange, TableRange, ContentRange;
  }

  lemma HeaderRanges(b: bytes)
    requires HeaderAccepted(b)
    ensures HEADER_LEN <= |b| <= MAX_ARTIFACT
    ensures var f := Split(b);
      && ManifestRange(f).Within(b, MAX_MANIFEST) && TableRange(f).Within(b, MAX_TABLE)
      && ContentRange(f).Within(b, MAX_CONTENT)
  {
  }

  /** `PackageArtifactV0::parse`, check by check. */
  method ParseArtifact(hash: Hash, b: bytes) returns (r: Result<Parsed, PackageError>)
    ensures r.Ok? <==> Accepted(hash, b)
    ensures r.Ok? ==> r.value == Contents(hash, b)
    ensures r.Err? ==> Refused(hash, b, r.error)
  {
    hide Split, FromLE, Ascii, Zeros, TableAccepted, TableRefused, DigestDomain, Manifest.KernelParse;
    if |b| < HEADER_LEN {
      return Err(TooShort);
    }
    if |b| > MAX_ARTIFACT {
      return Err(BoundsExceeded);
    }
    var f := Split(b);
    if f.magic != MAGIC {
      return Err(InvalidMagic);
    }
    if FromLE(f.major) != 0 {
      return Err(UnsupportedMajor);
    }
    if FromLE(f.minor) > 1 {
      return Err(UnsupportedRequiredMinor);
    }
    if FromLE(f.headerLen) != HEADER_LEN {
      return Err(InvalidHeaderLength);
    }
    if f.reserved != Zeros(32) {
      return Err(NonZeroReserved);
    }
    var manifest, table, content := ManifestRange(f), TableRange(f), ContentRange(f);
    if CheckedRange(b, manifest, MAX_MANIFEST).Some? {
      return Err(CheckedRange(b, manifest, MAX_MANIFEST).value);
    }
    if CheckedRange(b, table, MAX_TABLE).Some? {
      return Err(CheckedRange(b, table, MAX_TABLE).value);
    }
    if CheckedRange(b, content, MAX_CONTENT).Some? {
      return Err(CheckedRange(b, content, MAX_CONTENT).value);
    }
    if hash(manifest.Of(b)) != f.manifestSha {
      return Err(ManifestDigestMismatch);
    }
    var records := Manifest.KernelParse(manifest.Of(b));
    if records.Err? {
      return Err(ManifestRefused(records.error));
    }
    if hash(DigestDomain(b)) != f.artifactSha {
      return Err(ArtifactDigestMismatch);
    }
    var bad := ValidateContentTable(hash, table.Of(b), content.Of(b));
    if bad.Some? {
      return Err(bad.value);
    }
    return Ok(Parsed(records.value, table.Of(b), content.Of(b)));
  }

  // ----------------------------------------------------------------- round trips

  /** The limits that the kernel puts on the three regions. */
  predicate WithinLimits(manifest: bytes, table: bytes, content: bytes) {
    HEADER_LEN + |manifest| + |table| + |content| <= MAX_ARTIFACT && |manifest| <= MAX_MANIFEST && |table| <= MAX_TABLE
  }

  lemma ArtifactRanges(hash: Hash, manifest: bytes, table: bytes, content: bytes)
    requires Writable(manifest, table, content)
    ensures var b := Artifact(hash, manifest, table, content);
      && |b| == HEADER_LEN + |manifest| + |table| + |content|
      && (var f := Split(b);
          && f.magic == MAGIC && FromLE(f.major) == 0 && FromLE(f.minor) == 1 && FromLE(f.headerLen) == HEADER_LEN
          && f.reserved == Zeros(32) && f.manifestSha == hash(manifest) && f.artifactSha == hash(DigestDomain(b))
          && ManifestRange(f) == Range(HEADER_LEN, |manifest|)
          && TableRange(f) == Range(HEADER_LEN + |manifest|, |table|)
          && ContentRange(f) == Range(HEADER_LEN + |manifest| + |table|, |content|)
          && ManifestRange(f).Of(b) == manifest && TableRange(f).Of(b) == table && ContentRange(f).Of(b) == content)
  {
    hide Split, FromLE, LE16, LE32, LE64, Ascii, Zeros, DigestDomain, ArtifactWith;
    var sha := hash(ArtifactWith(hash, manifest, table, content, Zeros(32)));
    ArtifactSplits(hash, manifest, table, content, sha);
    DomainIgnoresDigest(hash, manifest, table, content, sha);
  }

  /** The kernel accepts a built artifact exactly if its regions fit and its parts are acceptable. */
  lemma ArtifactAcceptedIff(hash: Hash, manifest: bytes, table: bytes, content: bytes)
    requires Writable(manifest, table, content)
    ensures var b := Artifact(hash, manifest, table, content);
      && (Accepted(hash, b) <==>
            && WithinLimits(manifest, table, content)
            && Manifest.KernelParse(manifest).Ok? && TableAccepted(hash, table, content))
      && (Accepted(hash, b) ==> Contents(hash, b) == Parsed(Manifest.KernelParse(manifest).value, table, content))
  {
    hide Artifact, Split, FromLE, Ascii, Zeros, DigestDomain, TableAccepted, Manifest.KernelParse, Range.Of,
         ManifestRange, TableRange, ContentRange;
    ArtifactRanges(hash, manifest, table, content);
  }

  /** To slip a changed artifact past the kernel under the same digest takes a hash collision. */
  lemma TamperingNeedsCollision(hash: Hash, b: bytes, t: bytes)
    requires Accepted(hash, b) && Accepted(hash, t) && Split(t).artifactSha == Split(b).artifactSha && t != b
    ensures DigestDomain(t) != DigestDomain(b) && hash(DigestDomain(t)) == hash(DigestDomain(b))
  {
    if DigestDomain(t) == DigestDomain(b) {
      DomainLosesOnlyDigest(b);
      DomainLosesOnlyDigest(t);
    }
  }

  lemma DomainLosesOnlyDigest(b: bytes)
    requires |b| >= HEADER_LEN
    ensures |DigestDomain(b)| == |b| && b == Splice(DigestDomain(b), 96, Split(b).artifactSha)
  {
  }
}
