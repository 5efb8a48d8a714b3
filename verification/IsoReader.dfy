/**
 A reader of ISO 9660 volumes (ECMA-119) and of El Torito boot catalogs, written from the
 formats and knowing nothing of the builder. Fields recorded in both byte orders must agree
 (section 7.3.3 of ECMA-119), and the catalog's validation entry must sum to zero.
 */
module IsoReader {
  import opened Bytes
  import opened Results

  const ISO_SECTOR := 2048
  const STANDARD_ID := Ascii("CD001")
  const EL_TORITO_ID := Ascii("EL TORITO SPECIFICATION")

  function Sector(img: bytes, lba: nat): (r: Option<bytes>)
    ensures r.Some? ==> |r.value| == ISO_SECTOR
  {
    if ISO_SECTOR * lba + ISO_SECTOR <= |img| then Some(img[ISO_SECTOR * lba..ISO_SECTOR * lba + ISO_SECTOR])
    else None
  }

  function BothEndian32(s: bytes, off: nat): Option<nat>
    requires off + 8 <= |s|
  {
    var v := FromLE(s[off..off + 4]);
    if FromBE(s[off + 4..off + 8]) == v then Some(v) else None
  }

  datatype Extent = Extent(lba: nat, size: nat, flags: byte) {
    predicate IsDirectory() {
      (flags / 2) % 2 == 1
    }
  }

  /** The extent in a directory record (section 9.1 of ECMA-119). */
  function RecordExtent(rec: bytes): Option<Extent>
    requires |rec| >= 33
  {
    var lba :- BothEndian32(rec, 2);
    var size :- BothEndian32(rec, 10);
    Some(Extent(lba, size, rec[25]))
  }

  /** The record of this identifier in one directory sector; a zero length ends the sector. */
  function FindRecord(dir: bytes, id: bytes): Option<Extent>
    decreases |dir|
  {
    if dir == [] || dir[0] < 34 || dir[0] > |dir| then None
    else if 33 + |id| <= dir[0] && dir[32] == |id| && dir[33..33 + |id|] == id then RecordExtent(dir[..dir[0]])
    else FindRecord(dir[dir[0]..], id)
  }

  function FindInSectors(img: bytes, lba: nat, count: nat, id: bytes): Option<Extent>
    decreases count
  {
    if count == 0 then None
    else
      var sector :- Sector(img, lba);
      match FindRecord(sector, id)
      case Some(e) => Some(e)
      case None => FindInSectors(img, lba + 1, count - 1, id)
  }

  function ReadExtent(img: bytes, e: Extent): Option<bytes> {
    if ISO_SECTOR * e.lba + e.size <= |img| then Some(img[ISO_SECTOR * e.lba..ISO_SECTOR * e.lba + e.size])
    else None
  }

  function Resolve(img: bytes, dir: Extent, ids: seq<bytes>): Option<bytes>
    decreases |ids|
  {
    if ids == [] then None
    else
      var e :- FindInSectors(img, dir.lba, dir.size / ISO_SECTOR, ids[0]);
      if |ids| == 1 then
        if e.IsDirectory() then None else ReadExtent(img, e)
      else if !e.IsDirectory() then None
      else Resolve(img, e, ids[1..])
  }

  /** The root directory, from a primary volume descriptor (section 8.4) of a complete volume. */
  function RootExtent(img: bytes): Option<Extent> {
    var pvd :- Sector(img, 16);
    var volume :- BothEndian32(pvd, 80);
    if pvd[0] == 1 && pvd[1..6] == STANDARD_ID && pvd[6] == 1 && ISO_SECTOR * volume == |img|
    then RecordExtent(pvd[156..190])
    else None
  }

  function ReadPath(img: bytes, ids: seq<bytes>): Option<bytes> {
    var root :- RootExtent(img);
    Resolve(img, root, ids)
  }

  function WordSum(s: bytes): nat {
    if |s| < 2 then 0 else FromLE(s[..2]) + WordSum(s[2..])
  }

  /** What the firmware boots: the sectors that the first catalog entry names. */
  function BootImage(img: bytes): Option<bytes> {
    var record :- Sector(img, 17);
    if record[0] != 0 || record[1..6] != STANDARD_ID || record[7..30] != EL_TORITO_ID then None
    else
      var catalog :- Sector(img, FromLE(record[71..75]));
      if catalog[0] != 1 || catalog[30..32] != [0x55, 0xAA] || WordSum(catalog[..32]) % U16_LIMIT != 0 then None
      else if catalog[32] != 0x88 then None
      else ReadExtent(img, Extent(FromLE(catalog[40..44]), 512 * FromLE(catalog[38..40]), 0))
  }

  // ------------------------------------------------------------- small steps

  lemma FindRecordSkips(rec: bytes, rest: bytes, id: bytes)
    requires 34 <= |rec| < 256 && rec[0] == |rec| && 33 + rec[32] <= |rec|
    requires rec[33..33 + rec[32]] != id
    ensures FindRecord(rec + rest, id) == FindRecord(rest, id)
  {
    var dir := rec + rest;
    assert dir[|rec|..] == rest;
    if rec[32] == |id| {
      assert dir[33..33 + |id|] == rec[33..33 + |id|];
    }
  }

  lemma FindRecordHits(rec: bytes, rest: bytes, id: bytes)
    requires 34 <= |rec| < 256 && rec[0] == |rec| && 33 + |id| <= |rec|
    requires rec[32] == |id| && rec[33..33 + |id|] == id
    ensures FindRecord(rec + rest, id) == RecordExtent(rec)
  {
    var dir := rec + rest;
    assert dir[33..33 + |id|] == rec[33..33 + |id|] && dir[..|rec|] == rec;
  }

  lemma ResolveEnters(img: bytes, dir: Extent, ids: seq<bytes>, e: Extent)
    requires |ids| > 1 && FindInSectors(img, dir.lba, dir.size / ISO_SECTOR, ids[0]) == Some(e) && e.IsDirectory()
    ensures Resolve(img, dir, ids) == Resolve(img, e, ids[1..])
  {
  }

  lemma ResolveReads(img: bytes, dir: Extent, id: bytes, e: Extent)
    requires FindInSectors(img, dir.lba, dir.size / ISO_SECTOR, id) == Some(e) && !e.IsDirectory()
    ensures Resolve(img, dir, [id]) == ReadExtent(img, e)
  {
  }

  lemma FindInOneSector(img: bytes, lba: nat, sector: bytes, id: bytes, e: Extent)
    requires Sector(img, lba) == Some(sector) && FindRecord(sector, id) == Some(e)
    ensures FindInSectors(img, lba, 1, id) == Some(e)
  {
  }

  /** Overwriting a zero word adds its new value to the sum. */
  lemma {:induction false} WordSumInserts(s: bytes, off: nat, value: nat)
    requires off % 2 == 0 && off + 2 <= |s| && s[off..off + 2] == [0, 0] && value < U16_LIMIT
    ensures WordSum(Splice(s, off, LE16(value))) == WordSum(s) + value
  {
    var t := Splice(s, off, LE16(value));
    if off == 0 {
      assert t[..2] == LE16(value) && t[2..] == s[2..] && s[..2] == s[0..2];
      LE16Parts(0, 0);
    } else {
      assert s[2..][off - 2..off] == s[off..off + 2];
      WordSumInserts(s[2..], off - 2, value);
      assert t[..2] == s[..2] && t[2..] == Splice(s[2..], off - 2, LE16(value));
    }
  }
}
