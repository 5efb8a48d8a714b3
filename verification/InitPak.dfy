/**
 INIT.PAK: the outer container. `build_init_pak` writes it, the kernel's `init_pak::validate`
 reads it, and the kernel accepts nothing else than what the builder writes, up to the minor
 version that it does not look at.
 */
module InitPak {
  import opened Bytes
  import opened Results

  const MAGIC := Ascii("PYTHOS_INIT_PAK_V0")
  const HEADER_LEN := 64

  datatype PakError = TooShort | BadMagic | UnsupportedMajor | BadHeaderLength
                    | LengthOverflow | BadTotalLength | NonZeroReserved | BadChecksum

  function Checksum(payload: bytes): (c: nat)
    ensures c < U32_LIMIT
  {
    ByteSum(payload) % U32_LIMIT
  }

  function Header(minor: nat, payload: bytes): (h: bytes)
    requires minor < U16_LIMIT && HEADER_LEN + |payload| < U64_LIMIT
    ensures |h| == HEADER_LEN
  {
    MAGIC + LE16(0) + LE16(minor) + LE32(HEADER_LEN) + LE64(HEADER_LEN + |payload|) + LE64(|payload|)
      + LE32(Checksum(payload)) + Zeros(18)
  }

  function Pak(minor: nat, payload: bytes): bytes
    requires minor < U16_LIMIT && HEADER_LEN + |payload| < U64_LIMIT
  {
    Header(minor, payload) + payload
  }

  function HeaderWrites(payload: bytes): seq<Write>
    requires HEADER_LEN + |payload| < U64_LIMIT
  {
    [ Write(0, MAGIC), Write(18, LE16(0)), Write(20, LE16(0)), Write(22, LE32(HEADER_LEN)),
      Write(26, LE64(HEADER_LEN + |payload|)), Write(34, LE64(|payload|)), Write(42, LE32(Checksum(payload))) ]
  }

  datatype Fields = Fields(magic: bytes, major: bytes, minor: bytes, headerLen: bytes, totalLen: bytes,
                           payloadLen: bytes, checksum: bytes, reserved: bytes)
  {
    function Joined(): bytes {
      magic + major + minor + headerLen + totalLen + payloadLen + checksum + reserved
    }
  }

  function Split(b: bytes): (f: Fields)
    requires |b| >= HEADER_LEN
    ensures f.Joined() == b[..HEADER_LEN]
  {
    Fields(b[0..18], b[18..20], b[20..22], b[22..26], b[26..34], b[34..42], b[42..46], b[46..64])
  }

  /** The kernel's `validate`, followed by its slice of the payload. */
  function Validate(b: bytes): Result<bytes, PakError> {
    if |b| < HEADER_LEN then Err(TooShort)
    else
      var f := Split(b);
      var payloadLen := FromLE(f.payloadLen);
      if f.magic != MAGIC then Err(BadMagic)
      else if FromLE(f.major) != 0 then Err(UnsupportedMajor)
      else if FromLE(f.headerLen) != HEADER_LEN then Err(BadHeaderLength)
      else if HEADER_LEN + payloadLen >= U64_LIMIT then Err(LengthOverflow)
      else if FromLE(f.totalLen) != HEADER_LEN + payloadLen || FromLE(f.totalLen) != |b| then Err(BadTotalLength)
      else if f.reserved != Zeros(18) then Err(NonZeroReserved)
      else if WrappingSum(0, b[HEADER_LEN..HEADER_LEN + payloadLen]) != FromLE(f.checksum) then Err(BadChecksum)
      else Ok(b[HEADER_LEN..HEADER_LEN + payloadLen])
  }

  lemma HeaderFromWrites(payload: bytes)
    requires HEADER_LEN + |payload| < U64_LIMIT
    ensures Fits(HeaderWrites(payload), HEADER_LEN)
    ensures Apply(Zeros(HEADER_LEN), HeaderWrites(payload)) == Header(0, payload)
  {
    hide Ascii, Checksum, LE16, LE32, LE64, Apply, Ordered;
    var ws, z := HeaderWrites(payload), Zeros(HEADER_LEN);
    OrderedByNeighbours(ws);
    var h := Apply(z, ws);
    var f := Split(h);
    assert f.magic == MAGIC && f.major == LE16(0) && f.minor == LE16(0) && f.headerLen == LE32(HEADER_LEN) by {
      ReadBack(z, ws, 0);
      ReadBack(z, ws, 1);
      ReadBack(z, ws, 2);
      ReadBack(z, ws, 3);
    }
    assert f.totalLen == LE64(HEADER_LEN + |payload|) && f.payloadLen == LE64(|payload|)
        && f.checksum == LE32(Checksum(payload)) by {
      ReadBack(z, ws, 4);
      ReadBack(z, ws, 5);
      ReadBack(z, ws, 6);
    }
    assert f.reserved == Zeros(18) by {
      Untouched(z, ws, 46, 64);
    }
    assert h == h[..HEADER_LEN];
  }

  /** `build_init_pak`; the length fields are 64 bits wide. */
  method BuildInitPak(payload: bytes) returns (r: Option<bytes>)
    ensures r.Some? <==> HEADER_LEN + |payload| < U64_LIMIT
    ensures r.Some? ==> r.value == Pak(0, payload) && Validate(r.value) == Ok(payload)
  {
    hide HeaderWrites, Header;
    if HEADER_LEN + |payload| >= U64_LIMIT {
      return None;
    }
    HeaderFromWrites(payload);
    var header := new Buffer(HEADER_LEN);
    header.PutAll(HeaderWrites(payload));
    var bytes := header.Freeze();
    assert header.log == HeaderWrites(payload);
    PakReads(0, payload);
    return Some(bytes + payload);
  }

  lemma HeaderSplits(minor: nat, payload: bytes)
    requires minor < U16_LIMIT && HEADER_LEN + |payload| < U64_LIMIT
    ensures Split(Header(minor, payload)) == Fields(MAGIC, LE16(0), LE16(minor), LE32(HEADER_LEN),
      LE64(HEADER_LEN + |payload|), LE64(|payload|), LE32(Checksum(payload)), Zeros(18))
  {
    hide Ascii, Checksum, LE16, LE32, LE64, Zeros;
  }

  lemma SplitPrefix(h: bytes, rest: bytes)
    requires |h| == HEADER_LEN
    ensures Split(h + rest) == Split(h)
  {
    var b := h + rest;
    assert b[0..18] == h[0..18] && b[18..20] == h[18..20] && b[20..22] == h[20..22] && b[22..26] == h[22..26];
    assert b[26..34] == h[26..34] && b[34..42] == h[34..42] && b[42..46] == h[42..46] && b[46..64] == h[46..64];
  }

  /** The kernel accepts every container and hands out exactly its payload. */
  lemma PakReads(minor: nat, payload: bytes)
    requires minor < U16_LIMIT && HEADER_LEN + |payload| < U64_LIMIT
    ensures Validate(Pak(minor, payload)) == Ok(payload)
  {
    hide Ascii, LE16, LE32, LE64, Zeros, FromLE, Header, ByteSum, WrappingSum;
    var b := Pak(minor, payload);
    HeaderSplits(minor, payload);
    SplitPrefix(Header(minor, payload), payload);
    assert b[HEADER_LEN..|b|] == payload;
    WrappingSumMasks(0, payload);
  }

  /** A byte string is accepted only if it is the container of its own payload. */
  lemma AcceptedIsPak(b: bytes)
    requires Validate(b).Ok?
    ensures exists minor: nat | minor < U16_LIMIT :: b == Pak(minor, Validate(b).value)
  {
    hide Ascii, Zeros, FromLE, LE16, LE32, LE64, ByteSum, WrappingSum;
    var payload, f := Validate(b).value, Split(b);
    LE16Of(f.major);
    LE16Of(f.minor);
    LE32Of(f.headerLen);
    LE64Of(f.totalLen);
    LE64Of(f.payloadLen);
    LE32Of(f.checksum);
    WrappingSumMasks(0, payload);
    var minor := FromLE(f.minor);
    assert Header(minor, payload) == f.Joined();
    assert b == Pak(minor, payload);
  }
}
