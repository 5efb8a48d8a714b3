/** The records and sectors that `build_iso_bytes` writes, and what the reader sees in them. */
module IsoImage {
  import opened Bytes
  import opened Results
  import opened FatLayout
  import opened IsoReader

  const PVD_LBA := 16
  const BOOT_RECORD_LBA := 17
  const TERMINATOR_LBA := 18
  const CATALOG_LBA := 19
  const ROOT_LBA := 20
  const EFI_LBA := 21
  const EFI_BOOT_LBA := 22
  const PYTHOS_LBA := 23
  const PATH_TABLE_LBA := 24
  const BOOT_IMAGE_LBA := 25
  const FOLDER: byte := 2

  // --------------------------------------------------------- directory records

  datatype Rec = Rec(extent: nat, size: nat, flags: byte, id: bytes) {
    predicate Valid() {
      extent < U32_LIMIT && size < U32_LIMIT && |id| <= 221
    }

    function Length(): nat {
      if |id| % 2 == 0 then 34 + |id| else 33 + |id|
    }
  }

  function BothEndian(v: nat): (s: bytes)
    requires v < U32_LIMIT
    ensures |s| == 8
  {
    LE32(v) + BE32(v)
  }

  lemma BothEndianReads(s: bytes, off: nat, v: nat)
    requires v < U32_LIMIT && off + 8 <= |s| && s[off..off + 8] == BothEndian(v)
    ensures BothEndian32(s, off) == Some(v)
  {
    SliceOfSlice(s, off, off + 8, 0, 4);
    SliceOfSlice(s, off, off + 8, 4, 8);
    assert BothEndian(v)[0..4] == LE32(v) && BothEndian(v)[4..8] == BE32(v);
  }

  function RecordWrites(r: Rec): seq<Write>
    requires r.Valid()
  {
    [ Write(0, [r.Length()]), Write(2, BothEndian(r.extent)), Write(10, BothEndian(r.size)),
      Write(25, [r.flags]), Write(28, LE16(1) + BE16(1)), Write(32, [|r.id|]), Write(33, r.id) ]
  }

  lemma RecordWritesOrdered(r: Rec)
    requires r.Valid()
    ensures Fits(RecordWrites(r), r.Length()) && Ordered(RecordWrites(r))
  {
    OrderedByNeighbours(RecordWrites(r));
  }

  ghost function RecordBytes(r: Rec): (s: bytes)
    requires r.Valid()
    ensures |s| == r.Length()
  {
    RecordWritesOrdered(r);
    Apply(Zeros(r.Length()), RecordWrites(r))
  }

  method DirectoryRecord(r: Rec) returns (s: bytes)
    requires r.Valid()
    ensures s == RecordBytes(r)
  {
    hide RecordWrites;
    RecordWritesOrdered(r);
    var record := new Buffer(r.Length());
    record.PutAll(RecordWrites(r));
    s := record.Freeze();
    assert record.log == RecordWrites(r);
  }

  lemma RecordField(r: Rec, k: nat, w: Write)
    requires r.Valid() && k < |RecordWrites(r)| && RecordWrites(r)[k] == w
    ensures w.End() <= r.Length() && RecordBytes(r)[w.off..w.End()] == w.data
  {
    hide RecordWrites;
    RecordWritesOrdered(r);
    ReadBack(Zeros(r.Length()), RecordWrites(r), k);
  }

  /** The reader gets the extent, the size and the identifier out of a record. */
  lemma RecordReads(r: Rec)
    requires r.Valid()
    ensures var s := RecordBytes(r);
      && s[0] == |s| && s[32] == |r.id| && s[33..33 + |r.id|] == r.id
      && RecordExtent(s) == Some(Extent(r.extent, r.size, r.flags))
  {
    hide RecordBytes, BothEndian;
    var s := RecordBytes(r);
    RecordField(r, 0, Write(0, [r.Length()]));
    RecordField(r, 1, Write(2, BothEndian(r.extent)));
    RecordField(r, 2, Write(10, BothEndian(r.size)));
    RecordField(r, 3, Write(25, [r.flags]));
    RecordField(r, 5, Write(32, [|r.id|]));
    RecordField(r, 6, Write(33, r.id));
    assert s[0] == s[0..1][0] && s[25] == s[25..26][0] && s[32] == s[32..33][0];
    BothEndianReads(s, 2, r.extent);
    BothEndianReads(s, 10, r.size);
  }

  ghost predicate ValidRecords(rs: seq<Rec>) {
    forall i | 0 <= i < |rs| :: rs[i].Valid()
  }

  function TotalLength(rs: seq<Rec>): nat {
    if rs == [] then 0 else rs[0].Length() + TotalLength(rs[1..])
  }

  ghost function JoinRecords(rs: seq<Rec>): (s: bytes)
    requires ValidRecords(rs)
    ensures |s| == TotalLength(rs)
  {
    if rs == [] then [] else RecordBytes(rs[0]) + JoinRecords(rs[1..])
  }

  /** `directory_sector`, for records that fit. */
  ghost function DirectorySector(rs: seq<Rec>): (s: bytes)
    requires ValidRecords(rs) && TotalLength(rs) <= ISO_SECTOR
    ensures |s| == ISO_SECTOR
  {
    JoinRecords(rs) + Zeros(ISO_SECTOR - TotalLength(rs))
  }

  method MakeDirectorySector(rs: seq<Rec>) returns (r: Option<bytes>)
    requires ValidRecords(rs)
    ensures r == if TotalLength(rs) <= ISO_SECTOR then Some(DirectorySector(rs)) else None
  {
    hide RecordBytes;
    var content := [];
    for i := 0 to |rs|
      invariant content + JoinRecords(rs[i..]) == JoinRecords(rs)
    {
      var record := DirectoryRecord(rs[i]);
      assert rs[i..][1..] == rs[i + 1..];
      assert content + (record + JoinRecords(rs[i + 1..])) == (content + record) + JoinRecords(rs[i + 1..]);
      content := content + record;
    }
    assert rs[|rs|..] == [] && content + [] == content;
    if |content| > ISO_SECTOR {
      return None;
    }
    return Some(content + Zeros(ISO_SECTOR - |content|));
  }

  /** The reader finds the first record of an identifier, whatever follows the records. */
  lemma {:induction false} FindJoined(rs: seq<Rec>, rest: bytes, k: nat)
    requires ValidRecords(rs) && k < |rs|
    requires forall j | 0 <= j < k :: rs[j].id != rs[k].id
    ensures FindRecord(JoinRecords(rs) + rest, rs[k].id) == Some(Extent(rs[k].extent, rs[k].size, rs[k].flags))
  {
    hide RecordBytes, FindRecord;
    var head := RecordBytes(rs[0]);
    RecordReads(rs[0]);
    var tail := JoinRecords(rs[1..]) + rest;
    assert JoinRecords(rs) + rest == head + tail;
    if k == 0 {
      FindRecordHits(head, tail, rs[k].id);
    } else {
      FindRecordSkips(head, tail, rs[k].id);
      FindJoined(rs[1..], rest, k - 1);
    }
  }

  lemma FindInDirectory(img: bytes, lba: nat, rs: seq<Rec>, k: nat)
    requires ValidRecords(rs) && TotalLength(rs) <= ISO_SECTOR && k < |rs|
    requires Sector(img, lba) == Some(DirectorySector(rs))
    requires forall j | 0 <= j < k :: rs[j].id != rs[k].id
    ensures FindInSectors(img, lba, 1, rs[k].id) == Some(Extent(rs[k].extent, rs[k].size, rs[k].flags))
  {
    hide FindRecord, FindInSectors, JoinRecords;
    FindJoined(rs, Zeros(ISO_SECTOR - TotalLength(rs)), k);
    FindInOneSector(img, lba, DirectorySector(rs), rs[k].id, Extent(rs[k].extent, rs[k].size, rs[k].flags));
  }

  // ------------------------------------------------------- volume descriptors

  const ROOT_RECORD := Rec(ROOT_LBA, ISO_SECTOR, FOLDER, [0])
  const PATH_TABLE_SIZE := 48

  ghost function PvdWrites(volume: nat): seq<Write>
    requires volume < U32_LIMIT
  {
    [ Write(0, [1]), Write(1, STANDARD_ID), Write(6, [1]),
      Write(8, Ascii("PYTHOS                          ")), Write(40, Ascii("PYTHOS_BOOT                     ")),
      Write(80, BothEndian(volume)), Write(120, LE16(1) + BE16(1)), Write(124, LE16(1) + BE16(1)),
      Write(128, LE16(ISO_SECTOR) + BE16(ISO_SECTOR)), Write(132, BothEndian(PATH_TABLE_SIZE)),
      Write(140, LE32(PATH_TABLE_LBA)), Write(148, BE32(PATH_TABLE_LBA)), Write(156, RecordBytes(ROOT_RECORD)) ]
  }

  lemma PvdWritesOrdered(volume: nat)
    requires volume < U32_LIMIT
    ensures Fits(PvdWrites(volume), ISO_SECTOR) && Ordered(PvdWrites(volume))
  {
    hide RecordBytes, BothEndian, LE16, LE32, BE16, BE32, Ascii;
    OrderedByNeighbours(PvdWrites(volume));
  }

  ghost function Pvd(volume: nat): (s: bytes)
    requires volume < U32_LIMIT
    ensures |s| == ISO_SECTOR
  {
    PvdWritesOrdered(volume);
    Apply(Zeros(ISO_SECTOR), PvdWrites(volume))
  }

  lemma PvdField(volume: nat, k: nat, w: Write)
    requires volume < U32_LIMIT && k < |PvdWrites(volume)| && PvdWrites(volume)[k] == w
    ensures w.End() <= ISO_SECTOR && Pvd(volume)[w.off..w.End()] == w.data
  {
    hide PvdWrites;
    PvdWritesOrdered(volume);
    ReadBack(Zeros(ISO_SECTOR), PvdWrites(volume), k);
  }

  lemma PvdReads(img: bytes, volume: nat)
    requires volume < U32_LIMIT && Sector(img, PVD_LBA) == Some(Pvd(volume)) && |img| == ISO_SECTOR * volume
    ensures RootExtent(img) == Some(Extent(ROOT_LBA, ISO_SECTOR, FOLDER))
  {
    hide Pvd, BothEndian, RecordBytes, RecordExtent, Ascii;
    var pvd := Pvd(volume);
    PvdField(volume, 0, Write(0, [1]));
    PvdField(volume, 1, Write(1, STANDARD_ID));
    PvdField(volume, 2, Write(6, [1]));
    PvdField(volume, 5, Write(80, BothEndian(volume)));
    PvdField(volume, 12, Write(156, RecordBytes(ROOT_RECORD)));
    assert pvd[0] == pvd[0..1][0] && pvd[6] == pvd[6..7][0];
    BothEndianReads(pvd, 80, volume);
    RecordReads(ROOT_RECORD);
  }

  function BootRecordWrites(): seq<Write> {
    [ Write(0, [0]), Write(1, STANDARD_ID), Write(6, [1]),
      Write(7, EL_TORITO_ID + Ascii("         ")), Write(71, LE32(CATALOG_LBA)) ]
  }

  ghost function BootRecord(): (s: bytes)
    ensures |s| == ISO_SECTOR
  {
    Apply(Zeros(ISO_SECTOR), BootRecordWrites())
  }

  lemma BootRecordReads()
    ensures var s := BootRecord();
      && s[0] == 0 && s[1..6] == STANDARD_ID && s[7..30] == EL_TORITO_ID && FromLE(s[71..75]) == CATALOG_LBA
  {
    hide Ascii;
    var s, ws := BootRecord(), BootRecordWrites();
    OrderedByNeighbours(ws);
    ReadBack(Zeros(ISO_SECTOR), ws, 0);
    ReadBack(Zeros(ISO_SECTOR), ws, 1);
    ReadBack(Zeros(ISO_SECTOR), ws, 3);
    ReadBack(Zeros(ISO_SECTOR), ws, 4);
    assert s[0] == s[0..1][0];
    SliceOfSlice(s, 7, 39, 0, 23);
    assert (EL_TORITO_ID + Ascii("         "))[0..23] == EL_TORITO_ID;
  }

  function TerminatorWrites(): seq<Write> {
    [ Write(0, [255]), Write(1, STANDARD_ID), Write(6, [1]) ]
  }

  // ------------------------------------------------------------- boot catalog

  function ValidationWrites(): seq<Write> {
    [ Write(0, [1]), Write(1, [0xEF]), Write(4, Ascii("PYTHOS                  ")), Write(30, [0x55, 0xAA]) ]
  }

  /** The validation entry before its checksum is known. */
  ghost function Unsummed(): (s: bytes)
    ensures |s| == ISO_SECTOR
  {
    Apply(Zeros(ISO_SECTOR), ValidationWrites())
  }

  /** The complement of the sum, modulo 2^16. */
  function Negated(sum: nat): (v: nat)
    ensures v < U16_LIMIT && (sum + v) % U16_LIMIT == 0
  {
    var total: int := sum;
    (-total) % U16_LIMIT
  }

  lemma NegatedModulo(sum: nat)
    ensures Negated(sum % U16_LIMIT) == Negated(sum)
  {
  }

  function SectorCount(len: nat): (n: nat)
    ensures n < U16_LIMIT
  {
    var sectors: nat := CeilDiv(len, SECTOR_SIZE);
    if sectors <= 0xFFFF then sectors else 0xFFFF
  }

  ghost function CatalogWrites(bootLba: nat, bootLen: nat): seq<Write>
    requires bootLba < U32_LIMIT
  {
    [ Write(28, LE16(Negated(WordSum(Unsummed()[..32])))), Write(32, [0x88]),
      Write(38, LE16(SectorCount(bootLen))), Write(40, LE32(bootLba)) ]
  }

  ghost function Catalog(bootLba: nat, bootLen: nat): (s: bytes)
    requires bootLba < U32_LIMIT
    ensures |s| == ISO_SECTOR
  {
    Apply(Unsummed(), CatalogWrites(bootLba, bootLen))
  }

  lemma UnsummedFields()
    ensures var s := Unsummed(); s[0] == 1 && s[28..30] == [0, 0] && s[30..32] == [0x55, 0xAA]
  {
    hide Ascii;
    var s, ws := Unsummed(), ValidationWrites();
    OrderedByNeighbours(ws);
    ReadBack(Zeros(ISO_SECTOR), ws, 0);
    ReadBack(Zeros(ISO_SECTOR), ws, 3);
    Untouched(Zeros(ISO_SECTOR), ws, 28, 30);
    assert s[0] == s[0..1][0];
  }

  /** The catalog is valid, bootable, and names the place and the size of the boot image. */
  lemma CatalogReads(bootLba: nat, bootLen: nat)
    requires bootLba < U32_LIMIT
    ensures var s := Catalog(bootLba, bootLen);
      && s[0] == 1 && s[30..32] == [0x55, 0xAA] && WordSum(s[..32]) % U16_LIMIT == 0 && s[32] == 0x88
      && FromLE(s[38..40]) == SectorCount(bootLen) && FromLE(s[40..44]) == bootLba
  {
    hide Unsummed, WordSum, SectorCount, Negated;
    var base, ws := Unsummed(), CatalogWrites(bootLba, bootLen);
    var s := Apply(base, ws);
    UnsummedFields();
    OrderedByNeighbours(ws);
    ReadBack(base, ws, 0);
    ReadBack(base, ws, 1);
    ReadBack(base, ws, 2);
    ReadBack(base, ws, 3);
    Untouched(base, ws, 0, 28);
    Untouched(base, ws, 30, 32);
    assert s[0] == s[0..28][0] && s[32] == s[32..33][0];
    var sum := LE16(Negated(WordSum(base[..32])));
    assert s[..32] == s[0..28] + s[28..30] + s[30..32];
    assert s[..32] == Splice(base[..32], 28, sum);
    assert base[..32][28..30] == base[28..30];
    WordSumInserts(base[..32], 28, Negated(WordSum(base[..32])));
  }
}
