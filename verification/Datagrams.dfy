/**
 IPv4 (section 3.1 of RFC 791) and UDP datagrams as the acceptance peers build and parse
 them, and the 60-byte Ethernet frames that carry them.
 */
module Datagrams {
  import opened Bytes
  import opened Results
  import opened InternetChecksum

  const HEADER_LEN := 20
  const TTL: byte := 64
  const PROBE_PROTOCOL: byte := 253
  const UDP_PROTOCOL: byte := 17
  const FRAME_LEN := 60

  datatype EncodeError = BadIdentification | BadAddress | TooLong
  datatype ParseError = ShorterThanHeader | NotVersionFour | BadHeaderLength | BadTotalLength | BadChecksum | Fragmented

  datatype Ipv4 = Ipv4(id: nat, flagsFragment: nat, ttl: byte, protocol: byte, checksum: nat,
                       source: bytes, destination: bytes, payload: bytes)

  // -------------------------------------------------------------------- header

  datatype Fields = Fields(versionTos: bytes, total: bytes, id: bytes, flags: bytes, ttlProtocol: bytes,
                           checksum: bytes, source: bytes, destination: bytes)
  {
    predicate Sized() {
      && |versionTos| == |total| == |id| == |flags| == |ttlProtocol| == |checksum| == 2
      && |source| == |destination| == 4
    }

    function Joined(): bytes {
      versionTos + total + id + flags + ttlProtocol + checksum + source + destination
    }
  }

  function Split(d: bytes): (f: Fields)
    requires |d| >= HEADER_LEN
    ensures f.Sized()
  {
    Fields(d[0..2], d[2..4], d[4..6], d[6..8], d[8..10], d[10..12], d[12..16], d[16..20])
  }

  lemma SplitJoined(f: Fields, rest: bytes)
    requires f.Sized()
    ensures |f.Joined()| == HEADER_LEN && Split(f.Joined() + rest) == f
  {
    var front := f.versionTos + f.total + f.id + f.flags;
    var back := f.ttlProtocol + f.checksum + f.source + f.destination;
    var d := f.Joined() + rest;
    assert d == front + back + rest && d[0..8] == front && d[8..20] == back;
    SliceOfSlice(d, 0, 8, 0, 2);
    SliceOfSlice(d, 0, 8, 2, 4);
    SliceOfSlice(d, 0, 8, 4, 6);
    SliceOfSlice(d, 0, 8, 6, 8);
    SliceOfSlice(d, 8, 20, 0, 2);
    SliceOfSlice(d, 8, 20, 2, 4);
    SliceOfSlice(d, 8, 20, 4, 8);
    SliceOfSlice(d, 8, 20, 8, 12);
  }

  lemma JoinedSplit(d: bytes)
    requires |d| >= HEADER_LEN
    ensures Split(d).Joined() == d[..HEADER_LEN]
  {
  }

  predicate Encodable(id: nat, source: bytes, destination: bytes, payload: bytes) {
    id < U16_LIMIT && |source| == 4 && |destination| == 4 && HEADER_LEN + |payload| < U16_LIMIT
  }

  function HeaderFields(protocol: byte, id: nat, source: bytes, destination: bytes, payload: bytes, sum: u16)
    : (f: Fields)
    requires Encodable(id, source, destination, payload)
    ensures f.Sized()
  {
    Fields([0x45, 0], BE16(HEADER_LEN + |payload|), BE16(id), [0, 0], [TTL, protocol], BE16(sum), source, destination)
  }

  /** The header while its checksum field is still zero. */
  function Bare(protocol: byte, id: nat, source: bytes, destination: bytes, payload: bytes): (h: bytes)
    requires Encodable(id, source, destination, payload)
    ensures |h| == HEADER_LEN
  {
    HeaderFields(protocol, id, source, destination, payload, 0).(checksum := [0, 0]).Joined()
  }

  function Header(protocol: byte, id: nat, source: bytes, destination: bytes, payload: bytes): (h: bytes)
    requires Encodable(id, source, destination, payload)
    ensures |h| == HEADER_LEN
  {
    var bare := Bare(protocol, id, source, destination, payload);
    Splice(bare, 10, BE16(Checksum(bare)))
  }

  lemma HeaderIsJoined(protocol: byte, id: nat, source: bytes, destination: bytes, payload: bytes, sum: u16)
    requires Encodable(id, source, destination, payload)
    ensures Splice(Bare(protocol, id, source, destination, payload), 10, BE16(sum))
         == HeaderFields(protocol, id, source, destination, payload, sum).Joined()
  {
    hide BE16;
    var f := HeaderFields(protocol, id, source, destination, payload, sum);
    var front := f.versionTos + f.total + f.id + f.flags + f.ttlProtocol;
    var back := f.source + f.destination;
    assert Bare(protocol, id, source, destination, payload) == front + [0, 0] + back;
    assert f.Joined() == front + BE16(sum) + back;
  }

  lemma BareIsNotZero(protocol: byte, id: nat, source: bytes, destination: bytes, payload: bytes)
    requires Encodable(id, source, destination, payload)
    ensures var bare := Bare(protocol, id, source, destination, payload);
      Sum(bare) > 0 && bare[10] == bare[11] == 0
  {
    hide BE16;
    var bare := Bare(protocol, id, source, destination, payload);
    assert bare[0] == 0x45;
    assert Sum(bare) == Word(bare, 0) + Sum(bare[2..]);
  }

  /** `ipv4_header` with its checks; identifications are Python integers. */
  method Ipv4Header(id: int, source: bytes, destination: bytes, payload: bytes) returns (r: Result<bytes, EncodeError>)
    ensures r.Ok? <==> id >= 0 && Encodable(id, source, destination, payload)
    ensures r.Ok? ==> r.value == Header(PROBE_PROTOCOL, id, source, destination, payload)
    ensures r.Ok? ==> Checksum(r.value) == 0
  {
    hide Checksum, BE16, Bare;
    if !(0 <= id <= 0xFFFF) {
      return Err(BadIdentification);
    }
    if |source| != 4 || |destination| != 4 {
      return Err(BadAddress);
    }
    if HEADER_LEN + |payload| > 0xFFFF {
      return Err(TooLong);
    }
    var header := Bare(PROBE_PROTOCOL, id, source, destination, payload);
    var checksum := OnesComplementChecksum(header);
    BareIsNotZero(PROBE_PROTOCOL, id, source, destination, payload);
    InsertedVerifiesIff(header, 10);
    return Ok(Splice(header, 10, BE16(checksum.value)));
  }

  // -------------------------------------------------------------------- parser

  /** `parse_ipv4_datagram`. */
  function Parse(d: bytes): Result<Ipv4, ParseError> {
    if |d| < HEADER_LEN then Err(ShorterThanHeader)
    else if d[0] / 16 != 4 then Err(NotVersionFour)
    else if d[0] % 16 != 5 then Err(BadHeaderLength)
    else
      var f := Split(d);
      var total := FromBE(f.total);
      if total < HEADER_LEN || total > |d| then Err(BadTotalLength)
      else if Checksum(d[..HEADER_LEN]) != 0 then Err(BadChecksum)
      else if FromBE(f.flags) != 0 then Err(Fragmented)
      else Ok(Ipv4(FromBE(f.id), FromBE(f.flags), d[8], d[9], FromBE(f.checksum), f.source, f.destination,
                   d[HEADER_LEN..total]))
  }

  lemma ZeroWord()
    ensures FromBE([0, 0]) == 0
  {
    BE16Parts(0, 0);
  }

  /** Whatever bytes follow, parsing returns exactly what was encoded. */
  lemma Ipv4RoundTrip(protocol: byte, id: nat, source: bytes, destination: bytes, payload: bytes, pad: bytes)
    requires Encodable(id, source, destination, payload)
    ensures Parse(Header(protocol, id, source, destination, payload) + payload + pad)
         == Ok(Ipv4(id, 0, TTL, protocol, Checksum(Bare(protocol, id, source, destination, payload)),
                    source, destination, payload))
  {
    hide BE16, FromBE, Checksum, Bare, Fields.Joined;
    var bare := Bare(protocol, id, source, destination, payload);
    var f := HeaderFields(protocol, id, source, destination, payload, Checksum(bare));
    HeaderIsJoined(protocol, id, source, destination, payload, Checksum(bare));
    BareIsNotZero(protocol, id, source, destination, payload);
    InsertedVerifiesIff(bare, 10);
    ZeroWord();
    var h := Header(protocol, id, source, destination, payload);
    SplitJoined(f, payload + pad);
    var d := h + payload + pad;
    assert d == f.Joined() + (payload + pad);
    assert d[..HEADER_LEN] == h;
    assert d[0..2] == f.versionTos && d[0] == d[0..2][0];
    assert d[8..10] == f.ttlProtocol && d[8] == d[8..10][0] && d[9] == d[8..10][1];
    assert d[HEADER_LEN..HEADER_LEN + |payload|] == payload;
  }

  lemma ParsedEncodable(d: bytes)
    requires Parse(d).Ok?
    ensures var p := Parse(d).value;
      && Encodable(p.id, p.source, p.destination, p.payload) && p.checksum < U16_LIMIT
      && HEADER_LEN + |p.payload| <= |d| && d[HEADER_LEN..HEADER_LEN + |p.payload|] == p.payload
  {
    var f := Split(d);
    Pow256Values();
    assert FromBE(f.id) < U16_LIMIT && FromBE(f.total) < U16_LIMIT && FromBE(f.checksum) < U16_LIMIT;
  }

  lemma BE16Of(s: bytes)
    requires |s| == 2
    ensures FromBE(s) < U16_LIMIT && BE16(FromBE(s)) == s
  {
    Pow256Values();
    ToBEFromBE(s);
  }

  /** The header of an accepted datagram, rebuilt from the parsed fields. */
  lemma ParsedHeader(d: bytes)
    requires Parse(d).Ok? && d[1] == 0 && d[8] == TTL
    ensures var p := Parse(d).value;
      && Encodable(p.id, p.source, p.destination, p.payload) && p.checksum < U16_LIMIT
      && d[..HEADER_LEN] == Splice(Bare(d[9], p.id, p.source, p.destination, p.payload), 10, BE16(p.checksum))
  {
    hide BE16, FromBE, Checksum, Bare, Fields.Joined;
    var p, f := Parse(d).value, Split(d);
    ParsedEncodable(d);
    HeaderIsJoined(d[9], p.id, p.source, p.destination, p.payload, p.checksum);
    BE16Of(f.total);
    BE16Of(f.id);
    BE16Of(f.flags);
    BE16Of(f.checksum);
    BE16Of([0, 0]);
    ZeroWord();
    JoinedSplit(d);
    assert d[0] == 0x45;
    assert f.versionTos == [0x45, 0] && f.ttlProtocol == [TTL, d[9]];
  }

  /**
   An accepted datagram is what the encoder would have sent for the same fields exactly if its
   service, lifetime and protocol are the encoder's and its zero checksum is not written 0xFFFF.
   */
  lemma AcceptedIsEncodedIff(d: bytes)
    requires Parse(d).Ok?
    ensures var p := Parse(d).value;
      && Encodable(p.id, p.source, p.destination, p.payload)
      && HEADER_LEN + |p.payload| <= |d|
      && (d[..HEADER_LEN + |p.payload|] == Header(PROBE_PROTOCOL, p.id, p.source, p.destination, p.payload) + p.payload
          <==> d[1] == 0 && p.ttl == TTL && p.protocol == PROBE_PROTOCOL && p.checksum != ONES)
  {
    hide BE16, FromBE, Checksum, Bare, Fields.Joined;
    var p := Parse(d).value;
    ParsedEncodable(d);
    var bare := Bare(PROBE_PROTOCOL, p.id, p.source, p.destination, p.payload);
    var h := Header(PROBE_PROTOCOL, p.id, p.source, p.destination, p.payload);
    BareIsNotZero(PROBE_PROTOCOL, p.id, p.source, p.destination, p.payload);
    FieldUnique(bare, 10, p.checksum);
    var whole := d[..HEADER_LEN + |p.payload|];
    assert whole == d[..HEADER_LEN] + p.payload;
    if d[1] == 0 && p.ttl == TTL && p.protocol == PROBE_PROTOCOL && p.checksum != ONES {
      ParsedHeader(d);
    }
    if whole == h + p.payload {
      Ipv4RoundTrip(PROBE_PROTOCOL, p.id, p.source, p.destination, p.payload, []);
      EncodedService(PROBE_PROTOCOL, p.id, p.source, p.destination, p.payload);
      assert d[..HEADER_LEN] == whole[..HEADER_LEN] == h;
      assert whole == h + p.payload + [];
      ParseHead(d, whole);
    }
  }

  lemma EncodedService(protocol: byte, id: nat, source: bytes, destination: bytes, payload: bytes)
    requires Encodable(id, source, destination, payload)
    ensures Header(protocol, id, source, destination, payload)[1] == 0
  {
    hide BE16, Checksum;
  }

  /** Lifetime, protocol and checksum are read from the header only. */
  lemma ParseHead(d: bytes, e: bytes)
    requires Parse(d).Ok? && Parse(e).Ok? && d[..HEADER_LEN] == e[..HEADER_LEN]
    ensures Parse(d).value.ttl == Parse(e).value.ttl && Parse(d).value.protocol == Parse(e).value.protocol
    ensures Parse(d).value.checksum == Parse(e).value.checksum && d[1] == e[1]
  {
    hide FromBE, Checksum;
    assert d[8] == d[..HEADER_LEN][8] && d[9] == d[..HEADER_LEN][9] && d[1] == d[..HEADER_LEN][1];
    assert d[10..12] == d[..HEADER_LEN][10..12] && e[10..12] == e[..HEADER_LEN][10..12];
  }

  // ----------------------------------------------------------------------- UDP

  predicate UdpEncodable(sourcePort: nat, destinationPort: nat, payload: bytes) {
    sourcePort < U16_LIMIT && destinationPort < U16_LIMIT && 8 + |payload| < U16_LIMIT
  }

  function UdpWith(sourcePort: nat, destinationPort: nat, payload: bytes, checksum: bytes): (d: bytes)
    requires UdpEncodable(sourcePort, destinationPort, payload)
    ensures |d| == 6 + |checksum| + |payload|
  {
    BE16(sourcePort) + BE16(destinationPort) + BE16(8 + |payload|) + checksum + payload
  }

  /** The pseudo header; the addresses go in as they are. */
  function Pseudo(source: bytes, destination: bytes, len: nat): bytes
    requires len < U16_LIMIT
  {
    source + destination + [0, UDP_PROTOCOL] + BE16(len)
  }

  function UdpSum(sourcePort: nat, destinationPort: nat, source: bytes, destination: bytes, payload: bytes): u16
    requires UdpEncodable(sourcePort, destinationPort, payload)
  {
    Checksum(Pseudo(source, destination, 8 + |payload|) + UdpWith(sourcePort, destinationPort, payload, [0, 0]))
  }

  function Udp(sourcePort: nat, destinationPort: nat, source: bytes, destination: bytes, payload: bytes): bytes
    requires UdpEncodable(sourcePort, destinationPort, payload)
  {
    UdpWith(sourcePort, destinationPort, payload,
            BE16(UdpSum(sourcePort, destinationPort, source, destination, payload)))
  }

  /** `udp_datagram`; the length and ports must fit the fields of the header. */
  method UdpDatagram(sourcePort: nat, destinationPort: nat, source: bytes, destination: bytes, payload: bytes)
    returns (r: Option<bytes>)
    ensures r.Some? <==> UdpEncodable(sourcePort, destinationPort, payload)
    ensures r.Some? ==> r.value == Udp(sourcePort, destinationPort, source, destination, payload)
  {
    hide BE16, Checksum;
    if !UdpEncodable(sourcePort, destinationPort, payload) {
      return None;
    }
    var length := 8 + |payload|;
    var header := BE16(sourcePort) + BE16(destinationPort) + BE16(length) + [0, 0];
    var pseudo := Pseudo(source, destination, length);
    assert pseudo + header + payload == pseudo + UdpWith(sourcePort, destinationPort, payload, [0, 0]);
    var checksum := PaddedChecksum(pseudo + header + payload);
    return Some(BE16(sourcePort) + BE16(destinationPort) + BE16(length) + BE16(checksum) + payload);
  }

  /** What a receiver checks and takes out, for the two addresses of the IP header. */
  function ReadUdp(source: bytes, destination: bytes, d: bytes): Option<(nat, nat, bytes)> {
    if |d| < 8 || |d| >= U16_LIMIT || FromBE(d[4..6]) != |d| then None
    else if Checksum(Pseudo(source, destination, |d|) + d) != 0 then None
    else Some((FromBE(d[0..2]), FromBE(d[2..4]), d[8..]))
  }

  lemma UdpFields(sourcePort: nat, destinationPort: nat, payload: bytes, sum: bytes)
    requires UdpEncodable(sourcePort, destinationPort, payload) && |sum| == 2
    ensures var d := UdpWith(sourcePort, destinationPort, payload, sum);
      && |d| == 8 + |payload| && d[0..2] == BE16(sourcePort) && d[2..4] == BE16(destinationPort)
      && d[4..6] == BE16(|d|) && d[8..] == payload
  {
    hide BE16;
    var front := BE16(sourcePort) + BE16(destinationPort) + BE16(8 + |payload|);
    var d := UdpWith(sourcePort, destinationPort, payload, sum);
    assert d == front + (sum + payload) && d[0..6] == front;
    SliceOfSlice(d, 0, 6, 0, 2);
    SliceOfSlice(d, 0, 6, 2, 4);
    SliceOfSlice(d, 0, 6, 4, 6);
  }

  lemma UdpSpliced(sourcePort: nat, destinationPort: nat, pseudo: bytes, payload: bytes, sum: bytes)
    requires UdpEncodable(sourcePort, destinationPort, payload) && |sum| == 2
    ensures var s := pseudo + UdpWith(sourcePort, destinationPort, payload, [0, 0]);
      && |pseudo| + 8 <= |s| && s[|pseudo| + 6] == s[|pseudo| + 7] == 0
      && pseudo + UdpWith(sourcePort, destinationPort, payload, sum) == Splice(s, |pseudo| + 6, sum)
  {
    hide BE16;
    var front := pseudo + (BE16(sourcePort) + BE16(destinationPort) + BE16(8 + |payload|));
    assert |front| == |pseudo| + 6;
    assert pseudo + UdpWith(sourcePort, destinationPort, payload, [0, 0]) == front + [0, 0] + payload;
    assert pseudo + UdpWith(sourcePort, destinationPort, payload, sum) == front + sum + payload;
  }

  /**
   A receiver gets ports and payload back, odd payloads included, exactly if the addresses
   together have an even length or 257 divides the sum of the words that are summed up.
   */
  lemma UdpRoundTripIff(sourcePort: nat, destinationPort: nat, source: bytes, destination: bytes, payload: bytes)
    requires UdpEncodable(sourcePort, destinationPort, payload)
    ensures var d := Udp(sourcePort, destinationPort, source, destination, payload);
      var summed := Pseudo(source, destination, 8 + |payload|) + UdpWith(sourcePort, destinationPort, payload, [0, 0]);
      ReadUdp(source, destination, d) == Some((sourcePort, destinationPort, payload)) <==>
        (|source| + |destination|) % 2 == 0 || Sum(summed) % 257 == 0
  {
    hide BE16, FromBE, Checksum, UdpWith;
    var c := UdpSum(sourcePort, destinationPort, source, destination, payload);
    var pseudo := Pseudo(source, destination, 8 + |payload|);
    UdpFields(sourcePort, destinationPort, payload, BE16(c));
    UdpSpliced(sourcePort, destinationPort, pseudo, payload, BE16(c));
    InsertedVerifiesIff(pseudo + UdpWith(sourcePort, destinationPort, payload, [0, 0]), |pseudo| + 6);
  }

  /** A UDP datagram inside an IPv4 datagram inside padding: everything comes back. */
  lemma UdpOverIpv4RoundTrip(id: nat, sourcePort: nat, destinationPort: nat, source: bytes, destination: bytes,
                             payload: bytes, pad: bytes)
    requires id < U16_LIMIT && sourcePort < U16_LIMIT && destinationPort < U16_LIMIT
    requires |source| == |destination| == 4 && HEADER_LEN + 8 + |payload| < U16_LIMIT
    ensures var udp := Udp(sourcePort, destinationPort, source, destination, payload);
      var p := Parse(Header(UDP_PROTOCOL, id, source, destination, udp) + udp + pad);
      && p.Ok? && p.value.protocol == UDP_PROTOCOL && p.value.id == id
      && ReadUdp(p.value.source, p.value.destination, p.value.payload) == Some((sourcePort, destinationPort, payload))
  {
    hide Header, Parse, ReadUdp, UdpWith;
    var udp := Udp(sourcePort, destinationPort, source, destination, payload);
    Ipv4RoundTrip(UDP_PROTOCOL, id, source, destination, udp, pad);
    UdpRoundTripIff(sourcePort, destinationPort, source, destination, payload);
  }

  /** The parser takes a UDP datagram, which the probe's encoder would not have sent. */
  lemma AcceptedIsNotEncoded(source: bytes, destination: bytes)
    requires |source| == |destination| == 4
    ensures var d := Header(UDP_PROTOCOL, 0, source, destination, []);
      Parse(d).Ok? && d != Header(PROBE_PROTOCOL, 0, source, destination, [])
  {
    hide Header, Parse, Bare;
    var d := Header(UDP_PROTOCOL, 0, source, destination, []);
    Ipv4RoundTrip(UDP_PROTOCOL, 0, source, destination, [], []);
    Ipv4RoundTrip(PROBE_PROTOCOL, 0, source, destination, [], []);
    assert d + [] + [] == d;
    var e := Header(PROBE_PROTOCOL, 0, source, destination, []);
    assert e + [] + [] == e;
  }

  lemma OddExampleSum(s: bytes)
    requires s == [0, 0, 17, 0, 8, 0, 0, 0, 0, 0, 8, 0, 0]
    ensures Sum(s) == 0x2100
  {
    assert s[2..][2..] == s[4..] && s[4..][2..] == s[6..] && s[6..][2..] == s[8..];
    assert s[8..][2..] == s[10..] && s[10..][2..] == s[12..];
    assert Sum(s[12..]) == 0;
    assert Sum(s[10..]) == Sum(s[8..]) == Sum(s[6..]) == 0x0800;
    assert Sum(s[4..]) == 0x1000;
    assert Sum(s) == Sum(s[2..]) == 0x2100;
  }

  /** With addresses of one byte together the checksum lands across two words. */
  lemma OddAddressesUnverified()
    ensures ReadUdp([0], [], Udp(0, 0, [0], [], [])) != Some((0, 0, []))
  {
    hide BE16, Checksum, ReadUdp, Udp;
    UdpRoundTripIff(0, 0, [0], [], []);
    BE16Parts(0, 0);
    BE16Of([0, 0]);
    BE16Parts(0, 8);
    BE16Of([0, 8]);
    var s := Pseudo([0], [], 8) + UdpWith(0, 0, [], [0, 0]);
    assert s == [0, 0, 17, 0, 8, 0, 0, 0, 0, 0, 8, 0, 0];
    OddExampleSum(s);
  }

  // ------------------------------------------------------------------ Ethernet

  datatype FrameError = BadMac | BadEtherType | FrameTooLong

  /** `ethernet_frame`: padded with zeros to sixty bytes. */
  function EthernetFrame(destination: bytes, source: bytes, etherType: int, payload: bytes)
    : (r: Result<bytes, FrameError>)
    ensures r.Ok? <==> |destination| == |source| == 6 && 0 <= etherType < U16_LIMIT && 14 + |payload| <= FRAME_LEN
    ensures r.Ok? ==>
      && |r.value| == FRAME_LEN && r.value[..6] == destination && r.value[6..12] == source
      && FromBE(r.value[12..14]) == etherType && r.value[14..] == payload + Zeros(FRAME_LEN - 14 - |payload|)
  {
    if |destination| != 6 || |source| != 6 then Err(BadMac)
    else if !(0 <= etherType <= 0xFFFF) then Err(BadEtherType)
    else
      var frame := destination + source + BE16(etherType) + payload;
      if |frame| > FRAME_LEN then Err(FrameTooLong)
      else
        var padded := frame + Zeros(FRAME_LEN - |frame|);
        assert padded[12..14] == BE16(etherType);
        Ok(padded)
  }

  /** A frame exists for datagrams of at most 46 bytes, and its padding does not reach the parser. */
  lemma FramedRoundTrip(mac: bytes, peer: bytes, etherType: nat, id: nat, source: bytes, destination: bytes,
                        payload: bytes)
    requires |mac| == |peer| == 6 && etherType < U16_LIMIT && Encodable(id, source, destination, payload)
    ensures var datagram := Header(PROBE_PROTOCOL, id, source, destination, payload) + payload;
      var frame := EthernetFrame(mac, peer, etherType, datagram);
      && (frame.Ok? <==> |payload| <= 26)
      && (frame.Ok? ==>
            && frame.value[6..12] == peer
            && Parse(frame.value[14..]) == Parse(datagram)
            && Parse(datagram) == Ok(Ipv4(id, 0, TTL, PROBE_PROTOCOL,
                                          Checksum(Bare(PROBE_PROTOCOL, id, source, destination, payload)),
                                          source, destination, payload)))
  {
    hide Header, Parse, BE16;
    var datagram := Header(PROBE_PROTOCOL, id, source, destination, payload) + payload;
    var frame := EthernetFrame(mac, peer, etherType, datagram);
    if frame.Ok? {
      var pad := Zeros(26 - |payload|);
      assert frame.value[14..] == datagram + pad;
      Ipv4RoundTrip(PROBE_PROTOCOL, id, source, destination, payload, pad);
      Ipv4RoundTrip(PROBE_PROTOCOL, id, source, destination, payload, []);
      assert datagram + [] == datagram;
    }
  }
}
