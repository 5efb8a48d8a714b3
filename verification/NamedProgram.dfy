/**
 Named user programs: the record that `build_named_user_program` writes and the kernel's
 `validate_named_user_program`. The two are exact inverses, and the digest field makes the
 kernel refuse every record in which one byte of the program was replaced.
 */
module NamedProgram {
  import opened Bytes
  import opened Results
  import opened Fnv

  const MAGIC := Ascii("PYUPGM01")
  const HEADER_LEN := 40
  const MAX_NAME_LEN := 32

  datatype BuildError = NameTooLong | ElfTooLarge | PrincipalOverflow
  datatype ManifestError = TooShort | BadMagic | UnsupportedVersion | ManifestNameTooLong | BadDigest

  datatype Program = Program(name: bytes, principal: nat, elf: bytes) {
    /** What the builder accepts, and hence what a record can carry. */
    predicate Encodable() {
      |name| <= MAX_NAME_LEN && |elf| < U32_LIMIT && principal < U64_LIMIT
    }
  }

  function Header(p: Program): (h: bytes)
    requires p.Encodable()
    ensures |h| == HEADER_LEN
  {
    MAGIC + LE16(1) + LE16(0) + LE16(|p.name|) + Zeros(2) + LE64(p.principal) + LE64(Digest64(p.elf))
      + LE32(|p.elf|) + Zeros(4)
  }

  function Encode(p: Program): bytes
    requires p.Encodable()
  {
    Header(p) + p.name + p.elf
  }

  /** The header of a record, field by field. */
  datatype Fields = Fields(magic: bytes, major: bytes, minor: bytes, nameLen: bytes, reserved0: bytes,
                           principal: bytes, digest: bytes, elfLen: bytes, reserved1: bytes)
  {
    function Joined(): bytes {
      magic + major + minor + nameLen + reserved0 + principal + digest + elfLen + reserved1
    }
  }

  function Split(b: bytes): (f: Fields)
    requires |b| >= HEADER_LEN
    ensures f.Joined() == b[..HEADER_LEN]
  {
    Fields(b[0..8], b[8..10], b[10..12], b[12..14], b[14..16], b[16..24], b[24..32], b[32..36], b[36..40])
  }

  /** `validate_named_user_program`. */
  function Validate(b: bytes): Result<Program, ManifestError> {
    if |b| < HEADER_LEN then Err(TooShort)
    else
      var f := Split(b);
      var nameEnd := HEADER_LEN + FromLE(f.nameLen);
      var elfEnd := nameEnd + FromLE(f.elfLen);
      if f.magic != MAGIC then Err(BadMagic)
      else if FromLE(f.major) != 1 || FromLE(f.minor) != 0 then Err(UnsupportedVersion)
      else if FromLE(f.reserved0) != 0 || FromLE(f.reserved1) != 0 then Err(UnsupportedVersion)
      else if FromLE(f.nameLen) > MAX_NAME_LEN then Err(ManifestNameTooLong)
      else if |b| != elfEnd then Err(TooShort)
      else if Digest64(b[nameEnd..elfEnd]) != FromLE(f.digest) then Err(BadDigest)
      else Ok(Program(b[HEADER_LEN..nameEnd], FromLE(f.principal), b[nameEnd..elfEnd]))
  }

  /** `build_named_user_program`. */
  method Build(p: Program) returns (r: Result<bytes, BuildError>)
    ensures r.Ok? <==> p.Encodable()
    ensures r.Ok? ==> r.value == Encode(p) && Validate(r.value) == Ok(p)
  {
    if |p.name| > MAX_NAME_LEN {
      return Err(NameTooLong);
    }
    if |p.elf| > 0xFFFF_FFFF {
      return Err(ElfTooLarge);
    }
    if p.principal >= U64_LIMIT {
      return Err(PrincipalOverflow);
    }
    var digest := ComputeDigest64(p.elf);
    var header := new Buffer(HEADER_LEN);
    header.PutAll(HeaderWrites(p, digest));
    var bytes := header.Freeze();
    assert header.log == HeaderWrites(p, digest);
    HeaderFromWrites(p);
    RecordReads(p);
    r := Ok(bytes + p.name + p.elf);
  }

  function HeaderWrites(p: Program, digest: u64): seq<Write>
    requires p.Encodable()
  {
    [ Write(0, MAGIC), Write(8, LE16(1)), Write(10, LE16(0)), Write(12, LE16(|p.name|)),
      Write(16, LE64(p.principal)), Write(24, LE64(digest)), Write(32, LE32(|p.elf|)) ]
  }

  lemma HeaderFromWrites(p: Program)
    requires p.Encodable()
    ensures Fits(HeaderWrites(p, Digest64(p.elf)), HEADER_LEN)
    ensures Apply(Zeros(HEADER_LEN), HeaderWrites(p, Digest64(p.elf))) == Header(p)
  {
    hide Ascii, Digest64, LE16, LE32, LE64, Apply, Ordered, Fits;
    var digest := Digest64(p.elf);
    HeaderWritesOrdered(p, digest);
    var h := Apply(Zeros(HEADER_LEN), HeaderWrites(p, digest));
    HeaderField(p, digest, 0, Write(0, MAGIC));
    HeaderField(p, digest, 1, Write(8, LE16(1)));
    HeaderField(p, digest, 2, Write(10, LE16(0)));
    HeaderField(p, digest, 3, Write(12, LE16(|p.name|)));
    HeaderField(p, digest, 4, Write(16, LE64(p.principal)));
    HeaderField(p, digest, 5, Write(24, LE64(digest)));
    HeaderField(p, digest, 6, Write(32, LE32(|p.elf|)));
    HeaderGaps(p, digest);
    assert h == Split(h).Joined();
    assert Split(h) == Fields(MAGIC, LE16(1), LE16(0), LE16(|p.name|), Zeros(2), LE64(p.principal), LE64(digest),
                              LE32(|p.elf|), Zeros(4));
  }

  lemma HeaderWritesOrdered(p: Program, digest: u64)
    requires p.Encodable()
    ensures Fits(HeaderWrites(p, digest), HEADER_LEN) && Ordered(HeaderWrites(p, digest))
  {
    hide Ascii, LE16, LE32, LE64;
    OrderedByNeighbours(HeaderWrites(p, digest));
  }

  lemma HeaderField(p: Program, digest: u64, k: nat, w: Write)
    requires p.Encodable() && k < |HeaderWrites(p, digest)| && HeaderWrites(p, digest)[k] == w
    ensures Fits(HeaderWrites(p, digest), HEADER_LEN) && w.End() <= HEADER_LEN
    ensures Apply(Zeros(HEADER_LEN), HeaderWrites(p, digest))[w.off..w.End()] == w.data
  {
    hide HeaderWrites;
    HeaderWritesOrdered(p, digest);
    ReadBack(Zeros(HEADER_LEN), HeaderWrites(p, digest), k);
  }

  lemma HeaderGaps(p: Program, digest: u64)
    requires p.Encodable()
    ensures Fits(HeaderWrites(p, digest), HEADER_LEN)
    ensures var h := Apply(Zeros(HEADER_LEN), HeaderWrites(p, digest)); h[14..16] == Zeros(2) && h[36..40] == Zeros(4)
  {
    hide Ascii, LE16, LE32, LE64, Apply;
    HeaderWritesOrdered(p, digest);
    Untouched(Zeros(HEADER_LEN), HeaderWrites(p, digest), 14, 16);
    Untouched(Zeros(HEADER_LEN), HeaderWrites(p, digest), 36, 40);
  }

  // -------------------------------------------------------------- round trips

  lemma HeaderSplits(p: Program)
    requires p.Encodable()
    ensures Split(Header(p)) == Fields(MAGIC, LE16(1), LE16(0), LE16(|p.name|), Zeros(2), LE64(p.principal),
                                       LE64(Digest64(p.elf)), LE32(|p.elf|), Zeros(4))
  {
    hide Ascii, Digest64, LE16, LE32, LE64, Zeros;
  }

  /** Every record the builder makes is accepted and gives back its name, identity and program. */
  lemma RecordReads(p: Program)
    requires p.Encodable()
    ensures Validate(Encode(p)) == Ok(p)
  {
    hide Ascii, Digest64, LE16, LE32, LE64, Zeros, FromLE, Header;
    var b := Encode(p);
    HeaderSplits(p);
    assert b[..HEADER_LEN] == Header(p);
    SplitPrefix(b, Header(p));
    ZerosDecode(2);
    ZerosDecode(4);
    var nameEnd := HEADER_LEN + |p.name|;
    assert b[HEADER_LEN..nameEnd] == p.name && b[nameEnd..] == p.elf && b[nameEnd..|b|] == p.elf;
  }

  lemma SplitPrefix(b: bytes, h: bytes)
    requires |h| == HEADER_LEN <= |b| && b[..HEADER_LEN] == h
    ensures Split(b) == Split(h)
  {
    assert b[0..8] == h[0..8] && b[8..10] == h[8..10] && b[10..12] == h[10..12] && b[12..14] == h[12..14];
    assert b[14..16] == h[14..16] && b[16..24] == h[16..24] && b[24..32] == h[24..32];
    assert b[32..36] == h[32..36] && b[36..40] == h[36..40];
  }

  /** Nothing but what the builder makes is accepted. */
  lemma AcceptedIsBuilt(b: bytes)
    requires Validate(b).Ok?
    ensures Validate(b).value.Encodable() && Encode(Validate(b).value) == b
  {
    hide Ascii, Digest64, Zeros, FromLE, LE16, LE32, LE64;
    var p, f := Validate(b).value, Split(b);
    LE16Of(f.major);
    LE16Of(f.minor);
    LE16Of(f.nameLen);
    LE64Of(f.principal);
    LE64Of(f.digest);
    LE32Of(f.elfLen);
    ZeroIsZeros(f.reserved0);
    ZeroIsZeros(f.reserved1);
    assert Header(p) == f.Joined();
    assert b == b[..HEADER_LEN] + p.name + p.elf;
  }

  /** Replacing one byte of the program in a record makes the kernel refuse it for its digest. */
  lemma TamperedProgramRefused(p: Program, i: nat, b: byte)
    requires p.Encodable() && i < |p.elf| && b != p.elf[i]
    ensures var at := HEADER_LEN + |p.name| + i;
      at < |Encode(p)| && Validate(Encode(p)[at := b]) == Err(BadDigest)
  {
    hide Ascii, Digest64, LE16, LE32, LE64, Zeros, FromLE, Header;
    var at := HEADER_LEN + |p.name| + i;
    var t := Encode(p)[at := b];
    HeaderSplits(p);
    assert t[..HEADER_LEN] == Header(p);
    SplitPrefix(t, Header(p));
    ZerosDecode(2);
    ZerosDecode(4);
    var nameEnd := HEADER_LEN + |p.name|;
    assert t[nameEnd..|t|] == p.elf[i := b];
    DigestSeesOneByte(p.elf, i, b);
  }
}
