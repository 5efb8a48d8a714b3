/**
 The whole way from the boot files to a bootable ISO: the imperative ISO builder, and the
 theorem that both file systems on the medium give every file back.
 */
module BootMedia {
  import opened Bytes
  import opened Results
  import opened FatAllocator
  import opened EspImage
  import opened EspBuilder
  import opened IsoReader
  import opened IsoImage
  import opened IsoBuilder
  import FatReader

  datatype IsoError = NoSuchFile | FieldOverflow

  function ContentOf(files: seq<File>, f: BootFile): Option<bytes> {
    var k :- IndexOf(files, f.Path());
    Some(files[k].data)
  }

  /** All five, if all five are there. */
  function Collect(loader: Option<bytes>, kernel: Option<bytes>, config: Option<bytes>,
                   initPak: Option<bytes>, font: Option<bytes>): Option<Payloads>
  {
    var l :- loader;
    var k :- kernel;
    var c :- config;
    var i :- initPak;
    var f :- font;
    Some(Payloads(l, k, c, i, f))
  }

  function PayloadsOf(files: seq<File>): Option<Payloads> {
    Collect(ContentOf(files, Loader), ContentOf(files, Kernel), ContentOf(files, Config),
            ContentOf(files, InitPak), ContentOf(files, Font))
  }

  lemma CollectGives(files: seq<File>)
    ensures PayloadsOf(files).Some? <==> forall f: BootFile :: ContentOf(files, f).Some?
    ensures PayloadsOf(files).Some? ==> forall f: BootFile :: ContentOf(files, f) == Some(PayloadsOf(files).value.At(f))
  {
    hide ContentOf;
    if PayloadsOf(files).Some? {
      forall f: BootFile ensures ContentOf(files, f) == Some(PayloadsOf(files).value.At(f)) {
        match f case Loader => case Kernel => case Config => case InitPak => case Font =>
      }
    }
  }

  ghost function BuildIso(esp: bytes, files: seq<File>): Result<bytes, IsoError> {
    match PayloadsOf(files)
    case None => Err(NoSuchFile)
    case Some(ps) => if Recordable(esp, ps) then Ok(IsoBytes(esp, ps)) else Err(FieldOverflow)
  }

  // ------------------------------------------------------------ implementation

  const FILE_ORDER: seq<BootFile> := [Loader, Kernel, Config, InitPak, Font]

  /** The loop that places the files behind the boot image. */
  method PlaceFiles(esp: bytes, ps: Payloads) returns (lbas: map<BootFile, nat>, volumeSectors: nat)
    ensures forall f: BootFile :: f in lbas && lbas[f] == FileLba(esp, ps, f)
    ensures volumeSectors == VolumeSectors(esp, ps)
  {
    hide FileSectors, SectorsFor;
    var currentLba := BOOT_IMAGE_LBA + SectorsFor(|esp|);
    lbas := map[];
    for i := 0 to |FILE_ORDER|
      invariant forall j | 0 <= j < i :: FILE_ORDER[j] in lbas && lbas[FILE_ORDER[j]] == FileLba(esp, ps, FILE_ORDER[j])
      invariant currentLba == if i < 5 then FileLba(esp, ps, FILE_ORDER[i]) else VolumeSectors(esp, ps)
    {
      var path := FILE_ORDER[i];
      lbas := lbas[path := currentLba];
      currentLba := currentLba + FileSectors(ps.At(path));
    }
    volumeSectors := currentLba;
    forall f: BootFile ensures f in lbas && lbas[f] == FileLba(esp, ps, f) {
      var j := match f case Loader => 0 case Kernel => 1 case Config => 2 case InitPak => 3 case Font => 4;
      assert FILE_ORDER[j] == f;
    }
  }

  method Filled(size: nat, ws: seq<Write>) returns (s: bytes)
    requires Fits(ws, size)
    ensures s == Apply(Zeros(size), ws)
  {
    var buffer := new Buffer(size);
    buffer.PutAll(ws);
    s := buffer.Freeze();
    assert buffer.log == ws;
  }

  method MakePvd(volume: nat) returns (s: bytes)
    requires volume < U32_LIMIT
    ensures s == Pvd(volume)
  {
    hide RecordBytes, BothEndian, LE16, LE32, BE16, BE32, Ascii;
    PvdWritesOrdered(volume);
    var root := DirectoryRecord(ROOT_RECORD);
    s := Filled(ISO_SECTOR,
      [ Write(0, [1]), Write(1, STANDARD_ID), Write(6, [1]),
        Write(8, Ascii("PYTHOS                          ")), Write(40, Ascii("PYTHOS_BOOT                     ")),
        Write(80, BothEndian(volume)), Write(120, LE16(1) + BE16(1)), Write(124, LE16(1) + BE16(1)),
        Write(128, LE16(ISO_SECTOR) + BE16(ISO_SECTOR)), Write(132, BothEndian(PATH_TABLE_SIZE)),
        Write(140, LE32(PATH_TABLE_LBA)), Write(148, BE32(PATH_TABLE_LBA)), Write(156, root) ]);
  }

  /** `boot_catalog`: the checksum loop runs over the validation entry before the field is set. */
  method MakeCatalog(bootLba: nat, bootLen: nat) returns (s: bytes)
    requires bootLba < U32_LIMIT
    ensures s == Catalog(bootLba, bootLen)
  {
    hide Ascii, Negated, SectorCount;
    var catalog := new Buffer(ISO_SECTOR);
    catalog.PutAll(ValidationWrites());
    var entry := catalog.Freeze();
    assert catalog.log == ValidationWrites();
    var checksum := SumWords(entry[..32]);
    NegatedModulo(WordSum(entry[..32]));
    var ws := [ Write(28, LE16(Negated(checksum))), Write(32, [0x88]),
                Write(38, LE16(SectorCount(bootLen))), Write(40, LE32(bootLba)) ];
    assert ws == CatalogWrites(bootLba, bootLen);
    catalog.PutAll(ws);
    s := catalog.Freeze();
    ApplyAppend(Zeros(ISO_SECTOR), ValidationWrites(), ws);
  }

  method SumWords(s: bytes) returns (checksum: nat)
    requires |s| % 2 == 0
    ensures checksum < U16_LIMIT && checksum == WordSum(s) % U16_LIMIT
  {
    hide FromLE, WordSum, Low16;
    checksum := 0;
    var index := 0;
    assert s[0..] == s;
    while index < |s|
      invariant 0 <= index <= |s| && (|s| - index) % 2 == 0
      invariant checksum < U16_LIMIT && Low16(checksum + WordSum(s[index..])) == Low16(WordSum(s))
    {
      WordSumStep(s, index);
      Low16Absorbs(checksum + FromLE(s[index..index + 2]), WordSum(s[index + 2..]));
      checksum := Low16(checksum + FromLE(s[index..index + 2]));
      index := index + 2;
    }
    NoWords(s[index..]);
    Low16Keeps(checksum);
    Low16Is(WordSum(s));
  }

  function Low16(n: nat): (r: nat)
    ensures r < U16_LIMIT
  {
    n % U16_LIMIT
  }

  lemma Low16Is(n: nat)
    ensures Low16(n) == n % U16_LIMIT
  {
  }

  lemma Low16Keeps(n: nat)
    requires n < U16_LIMIT
    ensures Low16(n) == n
  {
  }

  lemma Low16Absorbs(a: nat, b: nat)
    ensures Low16(Low16(a) + b) == Low16(a + b)
  {
    ModAbsorbs(a, b, U16_LIMIT);
  }

  lemma WordSumStep(s: bytes, index: nat)
    requires index + 2 <= |s|
    ensures WordSum(s[index..]) == FromLE(s[index..index + 2]) + WordSum(s[index + 2..])
  {
    hide FromLE;
    assert s[index..][..2] == s[index..index + 2] && s[index..][2..] == s[index + 2..];
  }

  lemma NoWords(s: bytes)
    requires s == []
    ensures WordSum(s) == 0
  {
  }

  /** The cursor positions that `PlaceFiles` recorded. */
  ghost predicate Placed(esp: bytes, ps: Payloads, lbas: map<BootFile, nat>) {
    forall f: BootFile :: f in lbas && lbas[f] == FileLba(esp, ps, f)
  }

  method MakeDirectories(ghost esp: bytes, ps: Payloads, lbas: map<BootFile, nat>)
    returns (root: bytes, efi: bytes, boot: bytes, pythos: bytes)
    requires Recordable(esp, ps) && Placed(esp, ps, lbas)
    ensures FitsSector(RootRecords()) && FitsSector(EfiRecords())
    ensures FitsSector(BootRecords(esp, ps)) && FitsSector(PythosRecords(esp, ps))
    ensures root == DirectorySector(RootRecords()) && efi == DirectorySector(EfiRecords())
    ensures boot == DirectorySector(BootRecords(esp, ps)) && pythos == DirectorySector(PythosRecords(esp, ps))
  {
    hide DirectorySector, RootRecords, EfiRecords, FileId, FileLba;
    DirectoriesFit(esp, ps);
    var rootSector := MakeDirectorySector(RootRecords());
    var efiSector := MakeDirectorySector(EfiRecords());
    var bootRecords := [ Folder(EFI_BOOT_LBA, [0]), Folder(EFI_LBA, [1]),
                         Rec(lbas[Loader], |ps.loader|, 0, FileId(Loader)) ];
    assert bootRecords == BootRecords(esp, ps);
    var bootSector := MakeDirectorySector(bootRecords);
    var pythosRecords := [ Folder(PYTHOS_LBA, [0]), Folder(ROOT_LBA, [1]) ];
    pythosRecords := pythosRecords + [Rec(lbas[Kernel], |ps.kernel|, 0, FileId(Kernel))];
    pythosRecords := pythosRecords + [Rec(lbas[Config], |ps.config|, 0, FileId(Config))];
    pythosRecords := pythosRecords + [Rec(lbas[InitPak], |ps.initPak|, 0, FileId(InitPak))];
    pythosRecords := pythosRecords + [Rec(lbas[Font], |ps.font|, 0, FileId(Font))];
    assert pythosRecords == PythosRecords(esp, ps);
    var pythosSector := MakeDirectorySector(pythosRecords);
    root, efi, boot, pythos := rootSector.value, efiSector.value, bootSector.value, pythosSector.value;
  }

  /** The boot image and the loop that writes the padded files at their sectors. */
  method MakePayloadArea(esp: bytes, ps: Payloads, lbas: map<BootFile, nat>) returns (ws: seq<Write>)
    requires Placed(esp, ps, lbas)
    ensures ws == PayloadWrites(esp, ps)
  {
    hide FileLba, PaddedPayload;
    ws := [At(BOOT_IMAGE_LBA, esp)];
    for i := 0 to |FILE_ORDER|
      invariant ws == PayloadWrites(esp, ps)[..i + 1]
    {
      var path := FILE_ORDER[i];
      ws := ws + [At(lbas[path], PaddedPayload(ps.At(path)))];
      assert PayloadWrites(esp, ps)[i + 1] == FileWrite(esp, ps, path);
    }
  }

  method MakeBootRecord() returns (s: bytes)
    ensures s == BootRecord()
  {
    s := Filled(ISO_SECTOR, BootRecordWrites());
  }

  method MakeTerminator() returns (s: bytes)
    ensures s == Terminator()
  {
    s := Filled(ISO_SECTOR, TerminatorWrites());
  }

  /** The sectors up to the boot image, in the order in which they are assigned. */
  method MakeSystemArea(esp: bytes, ps: Payloads, lbas: map<BootFile, nat>, volumeSectors: nat) returns (ws: seq<Write>)
    requires Recordable(esp, ps) && Placed(esp, ps, lbas) && volumeSectors == VolumeSectors(esp, ps)
    ensures ws == SystemWrites(esp, ps)
  {
    hide Pvd, BootRecord, Terminator, Catalog, DirectorySector, PathTable;
    var pvd := MakePvd(volumeSectors);
    var bootRecord := MakeBootRecord();
    var terminator := MakeTerminator();
    var catalog := MakeCatalog(BOOT_IMAGE_LBA, |esp|);
    var root, efi, boot, pythos := MakeDirectories(esp, ps, lbas);
    ws := [ At(PVD_LBA, pvd), At(BOOT_RECORD_LBA, bootRecord), At(TERMINATOR_LBA, terminator),
            At(CATALOG_LBA, catalog), At(ROOT_LBA, root), At(EFI_LBA, efi), At(EFI_BOOT_LBA, boot),
            At(PYTHOS_LBA, pythos), At(PATH_TABLE_LBA, PathTable()) ];
  }

  /** `build_iso_bytes` computes exactly the specified image or the specified failure. */
  method BuildIsoBytes(esp: bytes, files: seq<File>) returns (r: Result<bytes, IsoError>)
    ensures r == BuildIso(esp, files)
    ensures r.Ok? ==> forall f: BootFile :: ReadPath(r.value, IsoPath(f)) == ContentOf(files, f)
    ensures r.Ok? ==> (BootImage(r.value) == Some(esp) <==> Bootable(esp))
  {
    hide SystemWrites, PayloadWrites, ReadPath, BootImage, PayloadsOf, ContentOf, Bootable, FileLba, IsoPath;
    CollectGives(files);
    var payloads := PayloadsOf(files);
    if payloads.None? {
      return Err(NoSuchFile);
    }
    var ps := payloads.value;
    var lbas, volumeSectors := PlaceFiles(esp, ps);
    if !Recordable(esp, ps) {
      return Err(FieldOverflow);
    }
    IsoExtentsDisjoint(esp, ps);
    var system := MakeSystemArea(esp, ps, lbas, volumeSectors);
    var payload := MakePayloadArea(esp, ps, lbas);
    var image := Filled(ISO_SECTOR * volumeSectors, system + payload);
    r := Ok(image);
    forall f: BootFile ensures ReadPath(image, IsoPath(f)) == ContentOf(files, f) {
      IsoFileRoundTrip(esp, ps, f);
    }
    BootImageIff(esp, ps);
  }

  // ----------------------------------------------------------- the main theorem

  lemma SmallPayloads(files: seq<File>, k: nat)
    requires k < |files|
    ensures |files[k].data| <= CLUSTER_SIZE * TotalClusters(Contents(files))
  {
    var cs := Contents(files);
    TotalClustersGrows(cs, k + 1, |cs|);
    assert cs[..k + 1][..k] == cs[..k] && cs[..|cs|] == cs;
  }

  lemma BuildableIsRecordable(files: seq<File>)
    requires Buildable(files)
    ensures PayloadsOf(files).Some?
    ensures forall esp: bytes | |esp| == ESP_SIZE :: Recordable(esp, PayloadsOf(files).value) && Bootable(esp)
  {
    hide TotalClusters, Recordable, Bootable, PayloadsOf;
    CollectGives(files);
    var ps := PayloadsOf(files).value;
    forall f: BootFile ensures |ps.At(f)| <= CLUSTER_SIZE * CLUSTER_COUNT {
      assert ContentOf(files, f) == Some(ps.At(f));
      SmallPayloads(files, IndexOf(files, f.Path()).value);
    }
    forall esp: bytes | |esp| == ESP_SIZE ensures Recordable(esp, ps) && Bootable(esp) {
      SmallIsRecordable(esp, ps);
    }
  }

  lemma SmallIsRecordable(esp: bytes, ps: Payloads)
    requires |esp| == ESP_SIZE && forall f: BootFile :: |ps.At(f)| <= CLUSTER_SIZE * CLUSTER_COUNT
    ensures Recordable(esp, ps) && Bootable(esp)
  {
    assert |ps.At(Loader)| <= CLUSTER_SIZE * CLUSTER_COUNT && |ps.At(Kernel)| <= CLUSTER_SIZE * CLUSTER_COUNT;
    assert |ps.At(Config)| <= CLUSTER_SIZE * CLUSTER_COUNT && |ps.At(InitPak)| <= CLUSTER_SIZE * CLUSTER_COUNT;
    assert |ps.At(Font)| <= CLUSTER_SIZE * CLUSTER_COUNT;
  }

  /**
   For every dictionary that fits, the two builders together make a medium on which the ISO
   reader finds every boot file, and the firmware finds a FAT16 volume that holds them too.
   */
  lemma MediumRoundTrip(files: seq<File>, f: BootFile)
    requires Buildable(files)
    ensures BuildEsp(files).Ok? && BuildIso(BuildEsp(files).value, files).Ok?
    ensures var iso := BuildIso(BuildEsp(files).value, files).value;
      && ReadPath(iso, IsoPath(f)) == ContentOf(files, f)
      && BootImage(iso).Some?
      && FatReader.ReadPath(BootImage(iso).value, f.ShortPath()) == ContentOf(files, f)
      && ContentOf(files, f).Some?
  {
    hide IsoBytes, ReadPath, BootImage, BuildEsp, FatReader.ReadPath, Recordable, Bootable;
    EspRoundTrip(files, f);
    BuildableIsRecordable(files);
    CollectGives(files);
    var esp, ps := BuildEsp(files).value, PayloadsOf(files).value;
    IsoFileRoundTrip(esp, ps, f);
    BootImageIff(esp, ps);
  }
}
