/**
 The parts of the 16 MiB FAT16 volume that `build_esp_image` makes: directory entries and
 directories, the boot sector and the serialised FAT, each with what the reader finds in it.
 */
module EspImage {
  import opened Bytes
  import opened Results
  import opened FatLayout
  import opened FatAllocator
  import opened FatReader

  const ESP_SIZE := 16 * 1024 * 1024
  const ROOT_DIR_START := 1 + 2 * FAT_SECTORS
  const DATA_START := ROOT_DIR_START + ROOT_DIR_SECTORS
  const FAT_BYTES := FAT_SECTORS * SECTOR_SIZE
  const DIRECTORY: byte := 0x10
  const ARCHIVE: byte := 0x20

  /** One item of the insertion-ordered dictionary of boot files. */
  datatype File = File(path: string, data: bytes)

  datatype BootFile = Loader | Kernel | Config | InitPak | Font {
    function Path(): string {
      match this
      case Loader => "EFI/BOOT/BOOTX64.EFI"
      case Kernel => "PYTHOS/PYTHCORE.ELF"
      case Config => "PYTHOS/BOOT.CFG"
      case InitPak => "PYTHOS/INIT.PAK"
      case Font => "PYTHOS/FONT.PSF"
    }

    /** The last path component as FAT stores it: eight and three characters, padded. */
    function ShortName(): (s: bytes)
      ensures |s| == 11
    {
      match this
      case Loader => Ascii("BOOTX64 EFI")
      case Kernel => Ascii("PYTHCOREELF")
      case Config => Ascii("BOOT    CFG")
      case InitPak => Ascii("INIT    PAK")
      case Font => Ascii("FONT    PSF")
    }

    function ShortPath(): seq<bytes> {
      if Loader? then [Ascii("EFI        "), Ascii("BOOT       "), ShortName()]
      else [Ascii("PYTHOS     "), ShortName()]
    }
  }

  // --------------------------------------------------------- directory entries

  function DirectoryEntry(name: bytes, attr: byte, cluster: nat, size: nat): (e: bytes)
    requires |name| == 11 && cluster < U16_LIMIT && size < U32_LIMIT
    ensures |e| == 32
  {
    name + [attr] + Zeros(14) + LE16(cluster) + LE32(size)
  }

  lemma DirectoryEntryFields(name: bytes, attr: byte, cluster: nat, size: nat)
    requires |name| == 11 && cluster < U16_LIMIT && size < U32_LIMIT
    ensures var e := DirectoryEntry(name, attr, cluster, size);
      && e[..11] == name && e[11] == attr
      && FromLE(e[26..28]) == cluster && FromLE(e[28..32]) == size
  {
    var e := DirectoryEntry(name, attr, cluster, size);
    assert e[..11] == name && e[26..28] == LE16(cluster) && e[28..32] == LE32(size);
  }

  ghost function DirectoryEntryWrites(name: bytes, attr: byte, cluster: nat, size: nat): seq<Write>
    requires |name| == 11 && cluster < U16_LIMIT && size < U32_LIMIT
  {
    [Write(0, name), Write(11, [attr]), Write(26, LE16(cluster)), Write(28, LE32(size))]
  }

  lemma DirectoryEntryFromWrites(name: bytes, attr: byte, cluster: nat, size: nat)
    requires |name| == 11 && cluster < U16_LIMIT && size < U32_LIMIT
    ensures var ws := DirectoryEntryWrites(name, attr, cluster, size);
      Fits(ws, 32) && Apply(Zeros(32), ws) == DirectoryEntry(name, attr, cluster, size)
  {
    var ws := DirectoryEntryWrites(name, attr, cluster, size);
    var e := Apply(Zeros(32), ws);
    ReadBack(Zeros(32), ws, 0);
    ReadBack(Zeros(32), ws, 1);
    ReadBack(Zeros(32), ws, 2);
    ReadBack(Zeros(32), ws, 3);
    Untouched(Zeros(32), ws, 12, 26);
    var expected := name + [attr] + Zeros(14) + LE16(cluster) + LE32(size);
    assert e == e[0..11] + e[11..12] + e[12..26] + e[26..28] + e[28..32];
    assert e[12..26] == Zeros(14);
  }

  method MakeDirectoryEntry(name: bytes, attr: byte, cluster: nat, size: nat) returns (e: bytes)
    requires |name| == 11 && cluster < U16_LIMIT && size < U32_LIMIT
    ensures e == DirectoryEntry(name, attr, cluster, size)
  {
    hide Buffer.Valid, LE16, LE32;
    var entry := new Buffer(32);
    entry.Put(0, name);
    entry.Put(11, [attr]);
    entry.Put(26, LE16(cluster));
    entry.Put(28, LE32(size));
    e := entry.Freeze();
    assert entry.log == DirectoryEntryWrites(name, attr, cluster, size);
    DirectoryEntryFromWrites(name, attr, cluster, size);
  }

  /** `build_directory`: one cluster, with room for the end mark. */
  function DirectoryCluster(content: bytes): (r: Option<bytes>)
    ensures r.Some? ==> |content| < |r.value| == CLUSTER_SIZE && content <= r.value && r.value[|content|] == 0
  {
    if |content| + 1 > CLUSTER_SIZE then None
    else Some(content + Zeros(CLUSTER_SIZE - |content|))
  }

  // ------------------------------------------------------------- boot sector

  function BootSectorWrites(): seq<Write> {
    [ Write(0, [0xEB, 0x3C, 0x90]), Write(3, Ascii("PYTHOS  ")),
      Write(11, LE16(SECTOR_SIZE)), Write(13, [1]), Write(14, LE16(1)), Write(16, [2]),
      Write(17, LE16(512)), Write(19, LE16(TOTAL_SECTORS)), Write(21, [MEDIA_DESCRIPTOR]),
      Write(22, LE16(FAT_SECTORS)), Write(24, LE16(32)), Write(26, LE16(64)),
      Write(36, [0x80]), Write(38, [0x29]), Write(39, LE32(0x50595448)),
      Write(43, Ascii("PYTHOS     ")), Write(54, Ascii("FAT16   ")), Write(510, [0x55, 0xAA]) ]
  }

  lemma BootSectorWritesOrdered()
    ensures Fits(BootSectorWrites(), SECTOR_SIZE) && Ordered(BootSectorWrites())
  {
    hide LE16, LE32, Ascii;
    OrderedByNeighbours(BootSectorWrites());
  }

  ghost function BootSector(): (s: bytes)
    ensures |s| == SECTOR_SIZE
  {
    BootSectorWritesOrdered();
    Apply(Zeros(SECTOR_SIZE), BootSectorWrites())
  }

  const GEOMETRY := Bpb(SECTOR_SIZE, 1, 1, 2, ROOT_ENTRIES, TOTAL_SECTORS, FAT_SECTORS)

  lemma BootSectorField(k: nat, w: Write)
    requires k < |BootSectorWrites()| && BootSectorWrites()[k] == w
    ensures w.End() <= SECTOR_SIZE && BootSector()[w.off..w.End()] == w.data
  {
    BootSectorWritesOrdered();
    ReadBack(Zeros(SECTOR_SIZE), BootSectorWrites(), k);
  }

  lemma BootSectorSizes()
    ensures var boot := BootSector();
      && boot[11..13] == LE16(SECTOR_SIZE) && boot[13..14] == [1]
      && boot[14..16] == LE16(1) && boot[16..17] == [2]
  {
    BootSectorField(2, Write(11, LE16(SECTOR_SIZE)));
    BootSectorField(3, Write(13, [1]));
    BootSectorField(4, Write(14, LE16(1)));
    BootSectorField(5, Write(16, [2]));
  }

  lemma BootSectorCounts()
    ensures var boot := BootSector();
      && boot[17..19] == LE16(512) && boot[19..21] == LE16(TOTAL_SECTORS)
      && boot[22..24] == LE16(FAT_SECTORS) && boot[510..512] == [0x55, 0xAA]
  {
    BootSectorField(6, Write(17, LE16(512)));
    BootSectorField(7, Write(19, LE16(TOTAL_SECTORS)));
    BootSectorField(9, Write(22, LE16(FAT_SECTORS)));
    BootSectorField(17, Write(510, [0x55, 0xAA]));
  }

  /** The geometry in the boot sector is the geometry of the layout. */
  lemma BootSectorParses(img: bytes)
    requires |img| >= SECTOR_SIZE && img[..SECTOR_SIZE] == BootSector()
    ensures ParseBpb(img) == Some(GEOMETRY)
  {
    BootSectorSizes();
    BootSectorCounts();
    var boot := img[..SECTOR_SIZE];
    assert img[11..13] == boot[11..13] && img[14..16] == boot[14..16] && img[17..19] == boot[17..19];
    assert img[19..21] == boot[19..21] && img[22..24] == boot[22..24] && img[510..512] == boot[510..512];
    assert img[13] == boot[13..14][0] && img[16] == boot[16..17][0];
  }

  // ------------------------------------------------------------------ the FAT

  ghost predicate SixteenBit(fat: seq<nat>) {
    forall c | 0 <= c < |fat| :: fat[c] < U16_LIMIT
  }

  function FatBytes(fat: seq<nat>): (s: bytes)
    requires SixteenBit(fat)
    ensures |s| == 2 * |fat|
  {
    seq(2 * |fat|, i requires 0 <= i < 2 * |fat| =>
      if i % 2 == 0 then fat[i / 2] % 256 else fat[i / 2] / 256)
  }

  lemma FatBytesEntry(fat: seq<nat>, c: nat)
    requires SixteenBit(fat) && c < |fat|
    ensures FromLE(FatBytes(fat)[2 * c..2 * c + 2]) == fat[c]
    ensures FatBytes(fat)[2 * c..2 * c + 2] == LE16(fat[c])
  {
    var s := FatBytes(fat)[2 * c..2 * c + 2];
    assert s == [fat[c] % 256, fat[c] / 256];
    LE16Parts(fat[c] % 256, fat[c] / 256);
    ToLEFromLE(s);
  }

  /** The loop that serialises the entries. */
  method SerialiseFat(fat: array<nat>) returns (s: bytes)
    requires SixteenBit(fat[..])
    ensures s == FatBytes(fat[..])
  {
    var out := new byte[2 * fat.Length](_ => 0);
    ghost var whole := FatBytes(fat[..]);
    for index := 0 to fat.Length
      invariant out[..2 * index] == whole[..2 * index]
    {
      var value := LE16(fat[index]);
      FatBytesEntry(fat[..], index);
      out[2 * index], out[2 * index + 1] := value[0], value[1];
      assert whole[2 * index..2 * index + 2] == value;
      assert whole[..2 * (index + 1)] == whole[..2 * index] + whole[2 * index..2 * index + 2];
      assert out[..2 * (index + 1)] == out[..2 * index] + [value[0], value[1]];
    }
    s := out[..];
  }

  // -------------------------------------------------------------- directories

  datatype Entry = Entry(name: bytes, attr: byte, cluster: nat, size: nat) {
    predicate Valid() {
      && |name| == 11 && name[0] != 0 && name[0] != 0xE5 && (attr / 8) % 2 == 0
      && cluster < U16_LIMIT && size < U32_LIMIT
    }
  }

  ghost predicate ValidEntries(es: seq<Entry>) {
    forall i | 0 <= i < |es| :: es[i].Valid()
  }

  /** The entries joined together. */
  function Join(es: seq<Entry>): (s: bytes)
    requires ValidEntries(es)
    ensures |s| == 32 * |es|
  {
    if es == [] then []
    else DirectoryEntry(es[0].name, es[0].attr, es[0].cluster, es[0].size) + Join(es[1..])
  }

  /** The reader finds the first entry of a name, whatever follows the entries. */
  lemma {:induction false} FindListed(es: seq<Entry>, rest: bytes, k: nat)
    requires ValidEntries(es) && k < |es|
    requires forall j | 0 <= j < k :: es[j].name != es[k].name
    ensures FindEntry(Join(es) + rest, es[k].name)
         == Some(DirEntry(es[k].attr, es[k].cluster, es[k].size))
  {
    var head := DirectoryEntry(es[0].name, es[0].attr, es[0].cluster, es[0].size);
    DirectoryEntryFields(es[0].name, es[0].attr, es[0].cluster, es[0].size);
    assert head[0] == head[..11][0];
    assert Join(es) + rest == head + (Join(es[1..]) + rest);
    if k == 0 {
      FindEntryHits(head, Join(es[1..]) + rest, es[k].name);
    } else {
      FindEntrySkips(head, Join(es[1..]) + rest, es[k].name);
      FindListed(es[1..], rest, k - 1);
    }
  }

  /** What a directory entry says of a file: where its chain starts and how long it is. */
  datatype Place = Place(cluster: nat, size: nat)

  datatype Places = Places(loader: Place, kernel: Place, config: Place, initPak: Place, font: Place) {
    function At(f: BootFile): Place {
      match f
      case Loader => loader
      case Kernel => kernel
      case Config => config
      case InitPak => initPak
      case Font => font
    }

    ghost predicate Valid() {
      forall f: BootFile :: At(f).cluster < U16_LIMIT && At(f).size < U32_LIMIT
    }
  }

  const DOT := Ascii(".          ")
  const DOT_DOT := Ascii("..         ")
  const EFI_NAME := Ascii("EFI        ")
  const BOOT_NAME := Ascii("BOOT       ")
  const PYTHOS_NAME := Ascii("PYTHOS     ")

  const EFI_CLUSTER := 2
  const BOOT_CLUSTER := 3
  const PYTHOS_CLUSTER := 4

  function FileEntry(ps: Places, f: BootFile): Entry {
    Entry(f.ShortName(), ARCHIVE, ps.At(f).cluster, ps.At(f).size)
  }

  function RootEntries(): seq<Entry> {
    [ Entry(EFI_NAME, DIRECTORY, EFI_CLUSTER, 0), Entry(PYTHOS_NAME, DIRECTORY, PYTHOS_CLUSTER, 0) ]
  }

  function EfiEntries(): seq<Entry> {
    [ Entry(DOT, DIRECTORY, EFI_CLUSTER, 0), Entry(DOT_DOT, DIRECTORY, 0, 0),
      Entry(BOOT_NAME, DIRECTORY, BOOT_CLUSTER, 0) ]
  }

  function BootEntries(ps: Places): seq<Entry> {
    [ Entry(DOT, DIRECTORY, BOOT_CLUSTER, 0), Entry(DOT_DOT, DIRECTORY, EFI_CLUSTER, 0),
      FileEntry(ps, Loader) ]
  }

  function PythosEntries(ps: Places): seq<Entry> {
    [ Entry(DOT, DIRECTORY, PYTHOS_CLUSTER, 0), Entry(DOT_DOT, DIRECTORY, 0, 0),
      FileEntry(ps, Kernel), FileEntry(ps, Config), FileEntry(ps, InitPak), FileEntry(ps, Font) ]
  }

  lemma NamesAreLive(f: BootFile)
    ensures f.ShortName()[0] != 0 && f.ShortName()[0] != 0xE5 && f.ShortName()[0] != DOT[0]
    ensures DOT[0] == DOT_DOT[0] == 46 && EFI_NAME[0] == 69 && BOOT_NAME[0] == 66 && PYTHOS_NAME[0] == 80
  {
  }

  lemma LeavesDiffer(f: BootFile, g: BootFile)
    ensures f != g ==> f.ShortName() != g.ShortName()
  {
    assert Loader.ShortName()[4] == 88 && Config.ShortName()[4] == 32;
    assert Loader.ShortName()[0] == 66 && Kernel.ShortName()[0] == 80 && Config.ShortName()[0] == 66;
    assert InitPak.ShortName()[0] == 73 && Font.ShortName()[0] == 70;
  }

  lemma EntriesAreValid(ps: Places)
    requires ps.Valid()
    ensures ValidEntries(RootEntries()) && ValidEntries(EfiEntries())
    ensures ValidEntries(BootEntries(ps)) && ValidEntries(PythosEntries(ps))
  {
    NamesAreLive(Loader);
    NamesAreLive(Kernel);
    NamesAreLive(Config);
    NamesAreLive(InitPak);
    NamesAreLive(Font);
    assert FileEntry(ps, Loader).Valid() && FileEntry(ps, Kernel).Valid() && FileEntry(ps, Config).Valid();
    assert FileEntry(ps, InitPak).Valid() && FileEntry(ps, Font).Valid();
  }

  method JoinEntries(es: seq<Entry>) returns (s: bytes)
    requires ValidEntries(es)
    ensures s == Join(es)
  {
    s := [];
    for i := 0 to |es|
      invariant s + Join(es[i..]) == Join(es)
    {
      var entry := MakeDirectoryEntry(es[i].name, es[i].attr, es[i].cluster, es[i].size);
      assert es[i..][1..] == es[i + 1..];
      assert s + (entry + Join(es[i + 1..])) == (s + entry) + Join(es[i + 1..]);
      s := s + entry;
    }
  }

  method MakeBootSector() returns (s: bytes)
    ensures s == BootSector()
  {
    hide BootSectorWrites;
    BootSectorWritesOrdered();
    var boot := new Buffer(SECTOR_SIZE);
    boot.PutAll(BootSectorWrites());
    s := boot.Freeze();
    assert boot.log == BootSectorWrites();
  }
}
