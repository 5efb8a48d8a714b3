/**
 `build_iso_bytes`: the extents handed out by the running sector cursor, the image, and the
 proof that the readers find every file and the boot image where the records say.
 */
module IsoBuilder {
  import opened Bytes
  import opened Results
  import opened FatLayout
  import opened EspImage
  import opened IsoReader
  import opened IsoImage

  /** The files in the order in which the builder places them. */
  datatype Payloads = Payloads(loader: bytes, kernel: bytes, config: bytes, initPak: bytes, font: bytes) {
    function At(f: BootFile): bytes {
      match f
      case Loader => loader
      case Kernel => kernel
      case Config => config
      case InitPak => initPak
      case Font => font
    }
  }

  function SectorsFor(len: nat): (n: nat)
    ensures ISO_SECTOR * n < len + ISO_SECTOR && len <= ISO_SECTOR * n
  {
    CeilDiv(len, ISO_SECTOR)
  }

  /** Even an empty file gets a sector. */
  function FileSectors(data: bytes): (n: nat)
    ensures n >= 1 && |data| <= ISO_SECTOR * n
  {
    SectorsFor(if |data| < 1 then 1 else |data|)
  }

  function PaddedPayload(data: bytes): (s: bytes)
    ensures |s| == ISO_SECTOR * FileSectors(data) && data <= s
  {
    data + Zeros(ISO_SECTOR * FileSectors(data) - |data|)
  }

  /** The cursor when a file is placed: right behind everything placed before it. */
  function FileLba(esp: bytes, ps: Payloads, f: BootFile): nat {
    var first := BOOT_IMAGE_LBA + SectorsFor(|esp|);
    match f
    case Loader => first
    case Kernel => first + FileSectors(ps.loader)
    case Config => first + FileSectors(ps.loader) + FileSectors(ps.kernel)
    case InitPak => first + FileSectors(ps.loader) + FileSectors(ps.kernel) + FileSectors(ps.config)
    case Font =>
      first + FileSectors(ps.loader) + FileSectors(ps.kernel) + FileSectors(ps.config) + FileSectors(ps.initPak)
  }

  function VolumeSectors(esp: bytes, ps: Payloads): nat {
    FileLba(esp, ps, Font) + FileSectors(ps.font)
  }

  /** What fits the format: every recorded number fits its 32-bit field. */
  predicate Recordable(esp: bytes, ps: Payloads) {
    && VolumeSectors(esp, ps) < U32_LIMIT
    && |ps.loader| < U32_LIMIT && |ps.kernel| < U32_LIMIT && |ps.config| < U32_LIMIT
    && |ps.initPak| < U32_LIMIT && |ps.font| < U32_LIMIT
  }

  // -------------------------------------------------------------- directories

  function FileId(f: BootFile): (id: bytes)
    ensures 8 <= |id| <= 14
  {
    match f
    case Loader => Ascii("BOOTX64.EFI;1")
    case Kernel => Ascii("PYTHCORE.ELF;1")
    case Config => Ascii("BOOT.CFG;1")
    case InitPak => Ascii("INIT.PAK;1")
    case Font => Ascii("FONT.PSF;1")
  }

  function IsoPath(f: BootFile): seq<bytes> {
    if f.Loader? then [Ascii("EFI"), Ascii("BOOT"), FileId(f)] else [Ascii("PYTHOS"), FileId(f)]
  }

  function Folder(lba: nat, id: bytes): Rec {
    Rec(lba, ISO_SECTOR, FOLDER, id)
  }

  function FileRec(esp: bytes, ps: Payloads, f: BootFile): Rec {
    Rec(FileLba(esp, ps, f), |ps.At(f)|, 0, FileId(f))
  }

  function RootRecords(): seq<Rec> {
    [ Folder(ROOT_LBA, [0]), Folder(ROOT_LBA, [1]), Folder(EFI_LBA, Ascii("EFI")), Folder(PYTHOS_LBA, Ascii("PYTHOS")) ]
  }

  function EfiRecords(): seq<Rec> {
    [ Folder(EFI_LBA, [0]), Folder(ROOT_LBA, [1]), Folder(EFI_BOOT_LBA, Ascii("BOOT")) ]
  }

  function BootRecords(esp: bytes, ps: Payloads): seq<Rec> {
    [ Folder(EFI_BOOT_LBA, [0]), Folder(EFI_LBA, [1]), FileRec(esp, ps, Loader) ]
  }

  function PythosRecords(esp: bytes, ps: Payloads): seq<Rec> {
    [ Folder(PYTHOS_LBA, [0]), Folder(ROOT_LBA, [1]), FileRec(esp, ps, Kernel), FileRec(esp, ps, Config),
      FileRec(esp, ps, InitPak), FileRec(esp, ps, Font) ]
  }

  ghost predicate FitsSector(rs: seq<Rec>) {
    ValidRecords(rs) && TotalLength(rs) <= ISO_SECTOR
  }

  /** Records of at most 48 bytes: a directory of six is far from full. */
  lemma {:induction false} ShortRecords(rs: seq<Rec>)
    requires forall i | 0 <= i < |rs| :: rs[i].Valid() && |rs[i].id| <= 14
    ensures ValidRecords(rs) && TotalLength(rs) <= 48 * |rs|
  {
    if rs != [] {
      ShortRecords(rs[1..]);
    }
  }

  lemma FileRecValid(esp: bytes, ps: Payloads, f: BootFile)
    requires Recordable(esp, ps)
    ensures FileRec(esp, ps, f).Valid() && |FileRec(esp, ps, f).id| <= 14
    ensures FileLba(esp, ps, f) + FileSectors(ps.At(f)) <= VolumeSectors(esp, ps)
  {
    match f case Loader => case Kernel => case Config => case InitPak => case Font =>
  }

  lemma DirectoriesFit(esp: bytes, ps: Payloads)
    requires Recordable(esp, ps)
    ensures FitsSector(RootRecords()) && FitsSector(EfiRecords())
    ensures FitsSector(BootRecords(esp, ps)) && FitsSector(PythosRecords(esp, ps))
  {
    hide FileRec, FileId, Ascii, Rec.Length;
    FileRecValid(esp, ps, Loader);
    FileRecValid(esp, ps, Kernel);
    FileRecValid(esp, ps, Config);
    FileRecValid(esp, ps, InitPak);
    FileRecValid(esp, ps, Font);
    ShortRecords(RootRecords());
    ShortRecords(EfiRecords());
    ShortRecords(BootRecords(esp, ps));
    ShortRecords(PythosRecords(esp, ps));
  }

  // ------------------------------------------------------------------- image

  function PathTableRecord(name: bytes, extent: nat, parent: nat): bytes
    requires |name| < 256 && extent < U32_LIMIT && parent < U16_LIMIT
  {
    [|name|, 0] + LE32(extent) + LE16(parent) + name + (if |name| % 2 == 1 then [0] else [])
  }

  /** The path table, filled up to its sector. */
  function PathTable(): (s: bytes)
    ensures |s| == ISO_SECTOR
  {
    var table := PathTableRecord([0], ROOT_LBA, 1) + PathTableRecord(Ascii("EFI"), EFI_LBA, 1)
      + PathTableRecord(Ascii("BOOT"), EFI_BOOT_LBA, 2) + PathTableRecord(Ascii("PYTHOS"), PYTHOS_LBA, 1);
    assert |table| == PATH_TABLE_SIZE;
    table + Zeros(ISO_SECTOR - |table|)
  }

  ghost function Terminator(): (s: bytes)
    ensures |s| == ISO_SECTOR
  {
    Apply(Zeros(ISO_SECTOR), TerminatorWrites())
  }

  function At(lba: nat, data: bytes): Write {
    Write(ISO_SECTOR * lba, data)
  }

  ghost function SystemWrites(esp: bytes, ps: Payloads): (ws: seq<Write>)
    requires Recordable(esp, ps)
    ensures |ws| == 9
  {
    DirectoriesFit(esp, ps);
    [ At(PVD_LBA, Pvd(VolumeSectors(esp, ps))), At(BOOT_RECORD_LBA, BootRecord()), At(TERMINATOR_LBA, Terminator()),
      At(CATALOG_LBA, Catalog(BOOT_IMAGE_LBA, |esp|)), At(ROOT_LBA, DirectorySector(RootRecords())),
      At(EFI_LBA, DirectorySector(EfiRecords())), At(EFI_BOOT_LBA, DirectorySector(BootRecords(esp, ps))),
      At(PYTHOS_LBA, DirectorySector(PythosRecords(esp, ps))), At(PATH_TABLE_LBA, PathTable()) ]
  }

  function FileWrite(esp: bytes, ps: Payloads, f: BootFile): Write {
    At(FileLba(esp, ps, f), PaddedPayload(ps.At(f)))
  }

  function PayloadWrites(esp: bytes, ps: Payloads): seq<Write> {
    [ At(BOOT_IMAGE_LBA, esp), FileWrite(esp, ps, Loader), FileWrite(esp, ps, Kernel), FileWrite(esp, ps, Config),
      FileWrite(esp, ps, InitPak), FileWrite(esp, ps, Font) ]
  }

  /** Every slice assignment to the image, in program order. */
  ghost function IsoWrites(esp: bytes, ps: Payloads): (ws: seq<Write>)
    requires Recordable(esp, ps)
    ensures |ws| == 15
  {
    SystemWrites(esp, ps) + PayloadWrites(esp, ps)
  }

  lemma SystemWritesContiguous(esp: bytes, ps: Payloads)
    requires Recordable(esp, ps)
    ensures var ws := SystemWrites(esp, ps);
      Contiguous(ws) && |ws| == 9 && ws[0].off == ISO_SECTOR * PVD_LBA && ws[8].End() == ISO_SECTOR * BOOT_IMAGE_LBA
  {
    hide Pvd, BootRecord, Terminator, Catalog, DirectorySector, PathTable;
  }

  /** All extents are disjoint, in the order of the cursor, and the last one ends the volume. */
  lemma IsoExtentsDisjoint(esp: bytes, ps: Payloads)
    requires Recordable(esp, ps)
    ensures Fits(IsoWrites(esp, ps), ISO_SECTOR * VolumeSectors(esp, ps)) && Ordered(IsoWrites(esp, ps))
    ensures IsoWrites(esp, ps)[14].End() == ISO_SECTOR * VolumeSectors(esp, ps)
  {
    hide SystemWrites, FileSectors, PaddedPayload, SectorsFor;
    SystemWritesContiguous(esp, ps);
    var head, tail := SystemWrites(esp, ps), PayloadWrites(esp, ps);
    var ws := head + tail;
    assert forall i | 0 <= i < |tail| - 1 :: tail[i].End() <= tail[i + 1].off;
    forall i | 0 <= i < |ws| - 1 ensures ws[i].End() <= ws[i + 1].off {
      if i < 8 {
        assert head[i].End() == head[i + 1].off;
      } else if i > 8 {
        assert tail[i - 9].End() <= tail[i - 9 + 1].off;
      }
    }
    OrderedByNeighbours(ws);
    OrderedFits(ws, ISO_SECTOR * VolumeSectors(esp, ps));
  }

  ghost function IsoBytes(esp: bytes, ps: Payloads): (img: bytes)
    requires Recordable(esp, ps)
    ensures |img| == ISO_SECTOR * VolumeSectors(esp, ps)
  {
    IsoExtentsDisjoint(esp, ps);
    Apply(Zeros(ISO_SECTOR * VolumeSectors(esp, ps)), IsoWrites(esp, ps))
  }

  lemma IsoWriteReads(esp: bytes, ps: Payloads, k: nat, w: Write)
    requires Recordable(esp, ps) && k < |IsoWrites(esp, ps)| && IsoWrites(esp, ps)[k] == w
    ensures w.End() <= |IsoBytes(esp, ps)| && IsoBytes(esp, ps)[w.off..w.End()] == w.data
  {
    hide IsoWrites;
    IsoExtentsDisjoint(esp, ps);
    ReadBack(Zeros(ISO_SECTOR * VolumeSectors(esp, ps)), IsoWrites(esp, ps), k);
  }

  lemma SystemSectorReads(esp: bytes, ps: Payloads, lba: nat, sector: bytes)
    requires Recordable(esp, ps) && PVD_LBA <= lba <= PATH_TABLE_LBA && |sector| == ISO_SECTOR
    requires |SystemWrites(esp, ps)| == 9 && SystemWrites(esp, ps)[lba - 16] == At(lba, sector)
    ensures Sector(IsoBytes(esp, ps), lba) == Some(sector)
  {
    hide SystemWrites, PayloadWrites, IsoBytes;
    assert IsoWrites(esp, ps)[lba - 16] == At(lba, sector);
    IsoWriteReads(esp, ps, lba - 16, At(lba, sector));
  }

  // ------------------------------------------------ what the readers get back

  lemma DescriptorsRead(esp: bytes, ps: Payloads)
    requires Recordable(esp, ps)
    ensures var img := IsoBytes(esp, ps);
      && Sector(img, PVD_LBA) == Some(Pvd(VolumeSectors(esp, ps)))
      && Sector(img, BOOT_RECORD_LBA) == Some(BootRecord())
      && Sector(img, CATALOG_LBA) == Some(Catalog(BOOT_IMAGE_LBA, |esp|))
      && Sector(img, PATH_TABLE_LBA) == Some(PathTable())
  {
    hide Pvd, BootRecord, Terminator, Catalog, DirectorySector, PathTable, IsoBytes, Sector;
    SystemSectorReads(esp, ps, PVD_LBA, Pvd(VolumeSectors(esp, ps)));
    SystemSectorReads(esp, ps, BOOT_RECORD_LBA, BootRecord());
    SystemSectorReads(esp, ps, CATALOG_LBA, Catalog(BOOT_IMAGE_LBA, |esp|));
    SystemSectorReads(esp, ps, PATH_TABLE_LBA, PathTable());
  }

  lemma DirectoriesRead(esp: bytes, ps: Payloads)
    requires Recordable(esp, ps)
    ensures FitsSector(RootRecords()) && FitsSector(EfiRecords())
    ensures FitsSector(BootRecords(esp, ps)) && FitsSector(PythosRecords(esp, ps))
    ensures var img := IsoBytes(esp, ps);
      && Sector(img, ROOT_LBA) == Some(DirectorySector(RootRecords()))
      && Sector(img, EFI_LBA) == Some(DirectorySector(EfiRecords()))
      && Sector(img, EFI_BOOT_LBA) == Some(DirectorySector(BootRecords(esp, ps)))
      && Sector(img, PYTHOS_LBA) == Some(DirectorySector(PythosRecords(esp, ps)))
  {
    hide Pvd, BootRecord, Terminator, Catalog, DirectorySector, PathTable, IsoBytes, Sector;
    DirectoriesFit(esp, ps);
    SystemSectorReads(esp, ps, ROOT_LBA, DirectorySector(RootRecords()));
    SystemSectorReads(esp, ps, EFI_LBA, DirectorySector(EfiRecords()));
    SystemSectorReads(esp, ps, EFI_BOOT_LBA, DirectorySector(BootRecords(esp, ps)));
    SystemSectorReads(esp, ps, PYTHOS_LBA, DirectorySector(PythosRecords(esp, ps)));
  }

  lemma FileExtentReads(esp: bytes, ps: Payloads, f: BootFile)
    requires Recordable(esp, ps)
    ensures ReadExtent(IsoBytes(esp, ps), Extent(FileLba(esp, ps, f), |ps.At(f)|, 0)) == Some(ps.At(f))
  {
    hide SystemWrites, IsoBytes, PaddedPayload, FileLba;
    var w := FileWrite(esp, ps, f);
    var k := match f case Loader => 1 case Kernel => 2 case Config => 3 case InitPak => 4 case Font => 5;
    assert IsoWrites(esp, ps)[9 + k] == PayloadWrites(esp, ps)[k] == w;
    IsoWriteReads(esp, ps, 9 + k, w);
    SliceOfSlice(IsoBytes(esp, ps), w.off, w.End(), 0, |ps.At(f)|);
    assert w.data[0..|ps.At(f)|] == ps.At(f);
  }

  lemma IdsDiffer(f: BootFile, g: BootFile)
    ensures f != g ==> FileId(f) != FileId(g)
    ensures FileId(f) != [0] && FileId(f) != [1]
  {
    assert FileId(Loader)[4] == 88 && FileId(Config)[4] == 46;
    assert FileId(Loader)[0] == 66 && FileId(Kernel)[0] == 80 && FileId(Config)[0] == 66;
    assert FileId(InitPak)[0] == 73 && FileId(Font)[0] == 70;
  }

  lemma RootLookups(img: bytes)
    requires FitsSector(RootRecords()) && Sector(img, ROOT_LBA) == Some(DirectorySector(RootRecords()))
    ensures FindInSectors(img, ROOT_LBA, 1, Ascii("EFI")) == Some(Extent(EFI_LBA, ISO_SECTOR, FOLDER))
    ensures FindInSectors(img, ROOT_LBA, 1, Ascii("PYTHOS")) == Some(Extent(PYTHOS_LBA, ISO_SECTOR, FOLDER))
  {
    hide FindInSectors, DirectorySector, TotalLength;
    assert |Ascii("EFI")| == 3 && |Ascii("PYTHOS")| == 6;
    FindInDirectory(img, ROOT_LBA, RootRecords(), 2);
    FindInDirectory(img, ROOT_LBA, RootRecords(), 3);
  }

  lemma LoaderLookups(img: bytes, esp: bytes, ps: Payloads)
    requires FitsSector(EfiRecords()) && Sector(img, EFI_LBA) == Some(DirectorySector(EfiRecords()))
    requires FitsSector(BootRecords(esp, ps))
    requires Sector(img, EFI_BOOT_LBA) == Some(DirectorySector(BootRecords(esp, ps)))
    ensures FindInSectors(img, EFI_LBA, 1, Ascii("BOOT")) == Some(Extent(EFI_BOOT_LBA, ISO_SECTOR, FOLDER))
    ensures FindInSectors(img, EFI_BOOT_LBA, 1, FileId(Loader))
         == Some(Extent(FileLba(esp, ps, Loader), |ps.loader|, 0))
  {
    hide FindInSectors, DirectorySector, TotalLength, FileId, FileLba;
    assert |Ascii("BOOT")| == 4;
    FindInDirectory(img, EFI_LBA, EfiRecords(), 2);
    FindInDirectory(img, EFI_BOOT_LBA, BootRecords(esp, ps), 2);
  }

  lemma PythosLookup(img: bytes, esp: bytes, ps: Payloads, f: BootFile)
    requires !f.Loader?
    requires FitsSector(PythosRecords(esp, ps))
    requires Sector(img, PYTHOS_LBA) == Some(DirectorySector(PythosRecords(esp, ps)))
    ensures FindInSectors(img, PYTHOS_LBA, 1, FileId(f)) == Some(Extent(FileLba(esp, ps, f), |ps.At(f)|, 0))
  {
    hide FindInSectors, DirectorySector, TotalLength, FileId, FileLba;
    var rs := PythosRecords(esp, ps);
    IdsDiffer(f, Kernel);
    IdsDiffer(f, Config);
    IdsDiffer(f, InitPak);
    var k := match f case Kernel => 2 case Config => 3 case InitPak => 4 case Font => 5;
    assert rs[k] == FileRec(esp, ps, f);
    FindInDirectory(img, PYTHOS_LBA, rs, k);
  }

  lemma ResolveFromRoot(img: bytes, f: BootFile, e: Extent)
    requires FindInSectors(img, ROOT_LBA, 1, Ascii("EFI")) == Some(Extent(EFI_LBA, ISO_SECTOR, FOLDER))
    requires FindInSectors(img, ROOT_LBA, 1, Ascii("PYTHOS")) == Some(Extent(PYTHOS_LBA, ISO_SECTOR, FOLDER))
    requires f.Loader? ==>
      && FindInSectors(img, EFI_LBA, 1, Ascii("BOOT")) == Some(Extent(EFI_BOOT_LBA, ISO_SECTOR, FOLDER))
      && FindInSectors(img, EFI_BOOT_LBA, 1, FileId(f)) == Some(e)
    requires !f.Loader? ==> FindInSectors(img, PYTHOS_LBA, 1, FileId(f)) == Some(e)
    requires e.flags == 0
    ensures Resolve(img, Extent(ROOT_LBA, ISO_SECTOR, FOLDER), IsoPath(f)) == ReadExtent(img, e)
  {
    hide FindInSectors, FileId, Ascii, ReadExtent, Resolve;
    var root, id, ids := Extent(ROOT_LBA, ISO_SECTOR, FOLDER), FileId(f), IsoPath(f);
    if f.Loader? {
      var efi, boot := Extent(EFI_LBA, ISO_SECTOR, FOLDER), Extent(EFI_BOOT_LBA, ISO_SECTOR, FOLDER);
      assert ids[1..] == [Ascii("BOOT"), id] && [Ascii("BOOT"), id][1..] == [id];
      ResolveEnters(img, root, ids, efi);
      ResolveEnters(img, efi, [Ascii("BOOT"), id], boot);
      ResolveReads(img, boot, id, e);
    } else {
      var pythos := Extent(PYTHOS_LBA, ISO_SECTOR, FOLDER);
      assert ids[1..] == [id];
      ResolveEnters(img, root, ids, pythos);
      ResolveReads(img, pythos, id, e);
    }
  }

  /** Walking the directories from the volume descriptor leads to the file, byte for byte. */
  lemma IsoFileRoundTrip(esp: bytes, ps: Payloads, f: BootFile)
    requires Recordable(esp, ps)
    ensures ReadPath(IsoBytes(esp, ps), IsoPath(f)) == Some(ps.At(f))
  {
    hide IsoBytes, DirectorySector, FindInSectors, ReadExtent, Resolve, Pvd, Catalog, BootRecord, IsoPath;
    var img := IsoBytes(esp, ps);
    DescriptorsRead(esp, ps);
    PvdReads(img, VolumeSectors(esp, ps));
    DirectoriesRead(esp, ps);
    RootLookups(img);
    if f.Loader? {
      LoaderLookups(img, esp, ps);
    } else {
      PythosLookup(img, esp, ps, f);
    }
    FileExtentReads(esp, ps, f);
    ResolveFromRoot(img, f, Extent(FileLba(esp, ps, f), |ps.At(f)|, 0));
  }

  /** Whole 512-byte sectors, few enough for the catalog's 16-bit count. */
  predicate Bootable(esp: bytes) {
    |esp| % SECTOR_SIZE == 0 && |esp| <= 0xFFFF * SECTOR_SIZE
  }

  lemma SectorCountExact(len: nat)
    ensures 512 * SectorCount(len) == len <==> len % SECTOR_SIZE == 0 && len <= 0xFFFF * SECTOR_SIZE
    ensures 512 * SectorCount(len) <= ISO_SECTOR * SectorsFor(len)
  {
    hide CeilDiv, SectorsFor;
    var n := CeilDiv(len, SECTOR_SIZE);
    WholeSectors(len, n);
    assert SectorCount(len) == if n <= 0xFFFF then n else 0xFFFF;
  }

  lemma WholeSectors(len: nat, n: int)
    requires SECTOR_SIZE * (n - 1) < len <= SECTOR_SIZE * n
    ensures len % SECTOR_SIZE == 0 <==> len == SECTOR_SIZE * n
  {
  }

  /** The firmware loads exactly the ESP image if and only if the catalog can express its size. */
  lemma BootImageIff(esp: bytes, ps: Payloads)
    requires Recordable(esp, ps)
    ensures BootImage(IsoBytes(esp, ps)).Some?
    ensures BootImage(IsoBytes(esp, ps)) == Some(esp) <==> Bootable(esp)
  {
    hide IsoBytes, Pvd, Catalog, BootRecord, SectorCount, FileSectors, WordSum, Ascii;
    var img, size := IsoBytes(esp, ps), 512 * SectorCount(|esp|);
    DescriptorsRead(esp, ps);
    BootRecordReads();
    CatalogReads(BOOT_IMAGE_LBA, |esp|);
    SectorCountExact(|esp|);
    assert BootImage(img) == ReadExtent(img, Extent(BOOT_IMAGE_LBA, size, 0));
    var start := ISO_SECTOR * BOOT_IMAGE_LBA;
    assert start + size <= |img|;
    assert img[start..start + |esp|] == esp by {
      BootImageInPlace(esp, ps);
    }
    assert |img[start..start + size]| == size;
  }

  /** An image of one byte does not come back: the firmware loads a whole sector. */
  lemma PartialSectorNotBootable()
    ensures var ps := Payloads([], [], [], [], []);
      Recordable([0], ps) && BootImage(IsoBytes([0], ps)) != Some([0])
  {
    hide IsoBytes, BootImage;
    BootImageIff([0], Payloads([], [], [], [], []));
  }

  lemma BootImageInPlace(esp: bytes, ps: Payloads)
    requires Recordable(esp, ps)
    ensures var start := ISO_SECTOR * BOOT_IMAGE_LBA;
      start + |esp| <= |IsoBytes(esp, ps)| && IsoBytes(esp, ps)[start..start + |esp|] == esp
  {
    hide IsoBytes, SystemWrites;
    assert IsoWrites(esp, ps)[9] == PayloadWrites(esp, ps)[0];
    IsoWriteReads(esp, ps, 9, At(BOOT_IMAGE_LBA, esp));
  }

  // ------------------------------------------------------------------ path tables

  /** The extent of the first record of a path table: the root directory, in either byte order. */
  function RootInTable(table: bytes, bigEndian: bool): nat
    requires |table| >= 6
  {
    if bigEndian then FromBE(table[2..6]) else FromLE(table[2..6])
  }

  /**
   The volume descriptor names one table for both byte orders. Read as the little-endian table
   it leads to the root directory; read as the big-endian one it names another sector, on every
   volume that the builder makes.
   */
  lemma BigEndianPathTableIsWrong(esp: bytes, ps: Payloads)
    requires Recordable(esp, ps)
    ensures var img := IsoBytes(esp, ps);
      && Sector(img, PVD_LBA).Some? && Sector(img, PATH_TABLE_LBA).Some?
      && (var pvd, table := Sector(img, PVD_LBA).value, Sector(img, PATH_TABLE_LBA).value;
          && FromLE(pvd[140..144]) == FromBE(pvd[148..152]) == PATH_TABLE_LBA
          && RootInTable(table, false) == ROOT_LBA
          && RootInTable(table, true) != ROOT_LBA)
  {
    hide IsoBytes, Pvd, Catalog, BootRecord;
    var volume := VolumeSectors(esp, ps);
    DescriptorsRead(esp, ps);
    PvdField(volume, 10, Write(140, LE32(PATH_TABLE_LBA)));
    PvdField(volume, 11, Write(148, BE32(PATH_TABLE_LBA)));
    RootRecordInTable();
  }

  lemma RootRecordInTable()
    ensures RootInTable(PathTable(), false) == ROOT_LBA && RootInTable(PathTable(), true) != ROOT_LBA
  {
    assert PathTable()[2..6] == LE32(ROOT_LBA);
    LE32OfTwenty();
  }

  lemma LE32OfTwenty()
    ensures LE32(20) == [20, 0, 0, 0] && FromBE([20, 0, 0, 0]) != 20
  {
    var s: bytes := [20, 0, 0, 0];
    assert s[1..] == [0, 0, 0] && [0, 0, 0][1..] == [0, 0] && [0, 0][1..] == [0];
    ZerosDecode(3);
    assert Zeros(3) == s[1..];
    assert FromLE(s) == 20;
    LE32Of(s);
    var r: bytes := [0, 0, 0, 20];
    assert Reversed(s) == r;
    assert r[1..] == [0, 0, 20] && r[1..][1..] == [0, 20] && r[1..][1..][1..] == [20];
    assert FromLE(r) == 256 * FromLE(r[1..]);
  }
}
