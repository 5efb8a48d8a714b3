/** `build_esp_image` from the dictionary of files to the bytes, and its main theorems. */
module EspBuilder {
  import opened Bytes
  import opened Results
  import opened FatLayout
  import opened FatAllocator
  import opened FatReader
  import opened EspImage
  import opened EspVolume

  // -------------------------------------------------------------- specification

  /** Where the dictionary has this path. */
  function IndexOf(files: seq<File>, path: string): (r: Option<nat>)
    ensures r.Some? ==> r.value < |files| && files[r.value].path == path
    ensures r.None? ==> forall i | 0 <= i < |files| :: files[i].path != path
  {
    if files == [] then None
    else if files[0].path == path then Some(0)
    else
      var k :- IndexOf(files[1..], path);
      Some(k + 1)
  }

  function Contents(files: seq<File>): (r: seq<bytes>)
    ensures |r| == |files|
    ensures forall i | 0 <= i < |files| :: r[i] == files[i].data
  {
    seq(|files|, i requires 0 <= i < |files| => files[i].data)
  }

  /** Three directory clusters come first, then the files in dictionary order. */
  ghost function Requests(files: seq<File>): (r: seq<bytes>)
    ensures |r| == 3 + |files|
  {
    [Zeros(CLUSTER_SIZE), Zeros(CLUSTER_SIZE), Zeros(CLUSTER_SIZE)] + Contents(files)
  }

  function PlaceOf(files: seq<File>, chains: seq<seq<nat>>, f: BootFile): (r: Result<Place, EspError>)
    requires |chains| == |files|
  {
    match IndexOf(files, f.Path())
    case None => Err(MissingFile)
    case Some(k) =>
      if chains[k] == [] && f.Loader? then Err(EmptyLoader)
      else Ok(Place(if chains[k] == [] then 0 else chains[k][0], |files[k].data|))
  }

  /** All five, or the first failure in the order in which the builder asks. */
  function Gather(loader: Result<Place, EspError>, kernel: Result<Place, EspError>,
                  config: Result<Place, EspError>, initPak: Result<Place, EspError>,
                  font: Result<Place, EspError>): Result<Places, EspError>
  {
    var l :- loader;
    var k :- kernel;
    var c :- config;
    var i :- initPak;
    var f :- font;
    Ok(Places(l, k, c, i, f))
  }

  function PlacesOf(files: seq<File>, chains: seq<seq<nat>>): Result<Places, EspError>
    requires |chains| == |files|
  {
    Gather(PlaceOf(files, chains, Loader), PlaceOf(files, chains, Kernel), PlaceOf(files, chains, Config),
           PlaceOf(files, chains, InitPak), PlaceOf(files, chains, Font))
  }

  ghost function BuildEsp(files: seq<File>): Result<bytes, EspError> {
    var (a, chains) :- AllocateAll(FreshAllocator(), Requests(files));
    var ps :- PlacesOf(files, chains[3..]);
    AllocationGives(files, a, chains);
    PlacesAreLaid(files, a, chains[3..]);
    Ok(EspBytes(a, ps))
  }

  /** The builder's inputs that lead to an image: a test on the dictionary alone. */
  ghost predicate Buildable(files: seq<File>) {
    && (forall f: BootFile :: IndexOf(files, f.Path()).Some?)
    && files[IndexOf(files, Loader.Path()).value].data != []
    && 3 + TotalClusters(Contents(files)) <= CLUSTER_COUNT
  }

  // -------------------------------------------------------------------- proofs

  lemma {:induction false} TotalClustersAppend(xs: seq<bytes>, ys: seq<bytes>)
    ensures TotalClusters(xs + ys) == TotalClusters(xs) + TotalClusters(ys)
  {
    if ys == [] {
      assert xs + ys == xs;
    } else {
      assert (xs + ys)[..|xs + ys| - 1] == xs + ys[..|ys| - 1];
      TotalClustersAppend(xs, ys[..|ys| - 1]);
    }
  }

  lemma DirectoryClusters()
    ensures ClustersFor(CLUSTER_SIZE) == 1
    ensures var z := Zeros(CLUSTER_SIZE);
      TotalClusters([]) == 0 && TotalClusters([z]) == 1 && TotalClusters([z, z]) == 2 && TotalClusters([z, z, z]) == 3
  {
    var z := Zeros(CLUSTER_SIZE);
    assert [z][..0] == Contents([]) && [z, z][..1] == [z] && [z, z, z][..2] == [z, z];
  }

  /** Every FAT value is a cluster number, the end mark, the media mark or zero. */
  lemma FatIsSixteenBit(a: Allocator)
    requires Inv(a)
    ensures SixteenBit(a.fat)
  {
    forall c | 0 <= c < |a.fat| ensures a.fat[c] < U16_LIMIT {
      if c >= 2 && c < a.next {
        assert a.fat[c] == END_OF_CHAIN || a.fat[c] == c + 1;
      }
    }
  }

  /** The chain of a file: none for an empty file, else a stored run behind the directories. */
  ghost predicate FileAt(a: Allocator, chain: seq<nat>, data: bytes) {
    && (data == [] ==> chain == [])
    && (data != [] ==> chain != [] && chain[0] >= 5 && Stores(a, chain[0], data))
  }

  /** All that the directories and the reader need to know of the allocations. */
  ghost predicate Allocated(files: seq<File>, a: Allocator, chains: seq<seq<nat>>) {
    && Inv(a) && a.next == 5 + TotalClusters(Contents(files)) && |chains| == |files|
    && a.fat[EFI_CLUSTER] == a.fat[BOOT_CLUSTER] == a.fat[PYTHOS_CLUSTER] == END_OF_CHAIN
    && forall k | 0 <= k < |files| :: FileAt(a, chains[k], files[k].data)
  }

  lemma FileChain(files: seq<File>, a: Allocator, chains: seq<seq<nat>>, k: nat)
    requires RunOutcome(FreshAllocator(), Requests(files), a, chains) && k < |files|
    ensures FileAt(a, chains[3 + k], files[k].data)
  {
    hide TotalClusters, Inv, Extends;
    var rs := Requests(files);
    assert ChainAt(FreshAllocator(), rs, a, chains, 3 + k);
    assert rs[3 + k] == files[k].data;
    DirectoryClusters();
    TotalClustersGrows(rs, 3, 3 + k);
    assert rs[..3] == [Zeros(CLUSTER_SIZE), Zeros(CLUSTER_SIZE), Zeros(CLUSTER_SIZE)];
    assert files[k].data == [] <==> ClustersFor(|files[k].data|) == 0;
  }

  lemma DirectoryChain(files: seq<File>, a: Allocator, chains: seq<seq<nat>>, i: nat)
    requires RunOutcome(FreshAllocator(), Requests(files), a, chains) && i < 3
    requires TotalClusters(Requests(files)[..i]) == i
    ensures chains[i] == [2 + i] && 2 + i < a.next && a.fat[2 + i] == END_OF_CHAIN
  {
    DirectoryClusters();
    assert ChainAt(FreshAllocator(), Requests(files), a, chains, i);
    assert Stores(a, 2 + i, Requests(files)[i]);
  }

  lemma DirectoryChains(files: seq<File>, a: Allocator, chains: seq<seq<nat>>)
    requires RunOutcome(FreshAllocator(), Requests(files), a, chains)
    ensures chains[0] == [EFI_CLUSTER] && chains[1] == [BOOT_CLUSTER] && chains[2] == [PYTHOS_CLUSTER]
    ensures a.next >= 5
    ensures a.fat[EFI_CLUSTER] == a.fat[BOOT_CLUSTER] == a.fat[PYTHOS_CLUSTER] == END_OF_CHAIN
  {
    var rs, z := Requests(files), Zeros(CLUSTER_SIZE);
    DirectoryClusters();
    assert rs[..0] == Contents([]) && rs[..1] == [z] && rs[..2] == [z, z];
    DirectoryChain(files, a, chains, 0);
    DirectoryChain(files, a, chains, 1);
    DirectoryChain(files, a, chains, 2);
  }

  lemma AllocationGives(files: seq<File>, a: Allocator, chains: seq<seq<nat>>)
    requires AllocateAll(FreshAllocator(), Requests(files)) == Ok((a, chains))
    ensures chains[..3] == [[EFI_CLUSTER], [BOOT_CLUSTER], [PYTHOS_CLUSTER]]
    ensures Allocated(files, a, chains[3..])
  {
    var z := Zeros(CLUSTER_SIZE);
    AllocateAllOutcome(FreshAllocator(), Requests(files));
    DirectoryChains(files, a, chains);
    DirectoryClusters();
    TotalClustersAppend([z, z, z], Contents(files));
    forall k | 0 <= k < |files| ensures FileAt(a, chains[3..][k], files[k].data) {
      FileChain(files, a, chains, k);
    }
  }

  /** The directory data of a file points to its chain. */
  ghost predicate Points(a: Allocator, p: Place, data: bytes) {
    && p.size == |data| < U32_LIMIT && p.cluster < U16_LIMIT
    && (data != [] ==> p.cluster >= 5 && Stores(a, p.cluster, data))
  }

  lemma PlacePoints(files: seq<File>, a: Allocator, chains: seq<seq<nat>>, f: BootFile)
    requires Allocated(files, a, chains)
    requires PlaceOf(files, chains, f).Ok?
    ensures IndexOf(files, f.Path()).Some?
    ensures Points(a, PlaceOf(files, chains, f).value, files[IndexOf(files, f.Path()).value].data)
  {
    var k := IndexOf(files, f.Path()).value;
    assert FileAt(a, chains[k], files[k].data);
  }

  lemma PlacesOfAll(files: seq<File>, chains: seq<seq<nat>>, f: BootFile)
    requires |chains| == |files| && PlacesOf(files, chains).Ok?
    ensures PlaceOf(files, chains, f) == Ok(PlacesOf(files, chains).value.At(f))
  {
  }

  lemma PlacesAreLaid(files: seq<File>, a: Allocator, chains: seq<seq<nat>>)
    requires Allocated(files, a, chains) && PlacesOf(files, chains).Ok?
    ensures Laid(a, PlacesOf(files, chains).value)
  {
    FatIsSixteenBit(a);
    var ps := PlacesOf(files, chains).value;
    forall f: BootFile ensures ps.At(f).cluster < U16_LIMIT && ps.At(f).size < U32_LIMIT {
      PlacesOfAll(files, chains, f);
      PlacePoints(files, a, chains, f);
    }
  }

  /** The builder succeeds for exactly these dictionaries. */
  lemma BuildEspIff(files: seq<File>)
    ensures BuildEsp(files).Ok? <==> Buildable(files)
  {
    var rs, z := Requests(files), Zeros(CLUSTER_SIZE);
    AllocateAllFits(FreshAllocator(), rs);
    TotalClustersAppend([z, z, z], Contents(files));
    DirectoryClusters();
    if AllocateAll(FreshAllocator(), rs).Ok? {
      var (a, chains) := AllocateAll(FreshAllocator(), rs).value;
      AllocationGives(files, a, chains);
      PlacesOfIff(files, a, chains[3..]);
    }
  }

  lemma PlacesOfIff(files: seq<File>, a: Allocator, chains: seq<seq<nat>>)
    requires Allocated(files, a, chains)
    ensures PlacesOf(files, chains).Ok? <==>
      && (forall f: BootFile :: IndexOf(files, f.Path()).Some?)
      && files[IndexOf(files, Loader.Path()).value].data != []
  {
    forall f: BootFile
      ensures PlaceOf(files, chains, f).Ok? <==>
        && IndexOf(files, f.Path()).Some?
        && (f.Loader? ==> files[IndexOf(files, f.Path()).value].data != [])
    {
      var r := IndexOf(files, f.Path());
      if r.Some? {
        assert FileAt(a, chains[r.value], files[r.value].data);
      }
    }
    if PlacesOf(files, chains).Ok? {
      forall f: BootFile ensures PlaceOf(files, chains, f).Ok? {
        PlacesOfAll(files, chains, f);
      }
    }
  }

  // ---------------------------------------------------------- the round trip

  /** Looking up entry k of a padded directory. */
  lemma FindPadded(es: seq<Entry>, size: nat, k: nat)
    requires ValidEntries(es) && 32 * |es| <= size && k < |es|
    requires forall j | 0 <= j < k :: es[j].name != es[k].name
    ensures FindEntry(Pad(es, size), es[k].name) == Some(DirEntry(es[k].attr, es[k].cluster, es[k].size))
  {
    FindListed(es, Zeros(size - 32 * |es|), k);
  }

  lemma RootLookups()
    ensures ValidEntries(RootEntries())
    ensures var root := Pad(RootEntries(), ROOT_DIR_SECTORS * SECTOR_SIZE);
      && FindEntry(root, EFI_NAME) == Some(DirEntry(DIRECTORY, EFI_CLUSTER, 0))
      && FindEntry(root, PYTHOS_NAME) == Some(DirEntry(DIRECTORY, PYTHOS_CLUSTER, 0))
  {
    var nowhere := Place(0, 0);
    EntriesAreValid(Places(nowhere, nowhere, nowhere, nowhere, nowhere));
    NamesAreLive(Loader);
    FindPadded(RootEntries(), ROOT_DIR_SECTORS * SECTOR_SIZE, 0);
    FindPadded(RootEntries(), ROOT_DIR_SECTORS * SECTOR_SIZE, 1);
  }

  lemma LoaderLookups(ps: Places)
    requires ps.Valid()
    ensures ValidEntries(EfiEntries()) && ValidEntries(BootEntries(ps))
    ensures FindEntry(Pad(EfiEntries(), CLUSTER_SIZE), BOOT_NAME) == Some(DirEntry(DIRECTORY, BOOT_CLUSTER, 0))
    ensures FindEntry(Pad(BootEntries(ps), CLUSTER_SIZE), Loader.ShortName())
         == Some(DirEntry(ARCHIVE, ps.loader.cluster, ps.loader.size))
  {
    EntriesAreValid(ps);
    NamesAreLive(Loader);
    FindPadded(EfiEntries(), CLUSTER_SIZE, 2);
    FindPadded(BootEntries(ps), CLUSTER_SIZE, 2);
  }

  lemma PythosLookup(ps: Places, f: BootFile)
    requires ps.Valid() && !f.Loader?
    ensures ValidEntries(PythosEntries(ps))
    ensures FindEntry(Pad(PythosEntries(ps), CLUSTER_SIZE), f.ShortName())
         == Some(DirEntry(ARCHIVE, ps.At(f).cluster, ps.At(f).size))
  {
    EntriesAreValid(ps);
    NamesAreLive(f);
    var es := PythosEntries(ps);
    LeavesDiffer(f, Kernel);
    LeavesDiffer(f, Config);
    LeavesDiffer(f, InitPak);
    var k := match f case Kernel => 2 case Config => 3 case InitPak => 4 case Font => 5;
    assert es[k] == FileEntry(ps, f);
    FindPadded(es, CLUSTER_SIZE, k);
  }

  lemma DirectoriesListFile(a: Allocator, ps: Places, f: BootFile)
    requires Laid(a, ps)
    ensures ValidEntries(RootEntries())
    ensures Listed(FinalClusters(a, ps), Pad(RootEntries(), ROOT_DIR_SECTORS * SECTOR_SIZE), f,
                   DirEntry(ARCHIVE, ps.At(f).cluster, ps.At(f).size))
  {
    hide FindEntry, FinalClusters, Pad;
    RootLookups();
    FinalDirectories(a, ps);
    if f.Loader? {
      LoaderLookups(ps);
    } else {
      PythosLookup(ps, f);
    }
  }

  /** The reader resolves the path of a boot file in an image that was laid out from these places. */
  lemma ResolvesPath(a: Allocator, ps: Places, f: BootFile, data: bytes)
    requires Laid(a, ps) && Points(a, ps.At(f), data)
    requires a.fat[EFI_CLUSTER] == a.fat[BOOT_CLUSTER] == a.fat[PYTHOS_CLUSTER] == END_OF_CHAIN
    ensures ReadPath(EspBytes(a, ps), f.ShortPath()) == Some(data)
  {
    var entry := DirEntry(ARCHIVE, ps.At(f).cluster, ps.At(f).size);
    EspShows(a, ps);
    DirectoriesListFile(a, ps, f);
    if data != [] {
      FilesKeepTheirRuns(a, ps, entry.cluster, data);
    }
    var root := Pad(RootEntries(), ROOT_DIR_SECTORS * SECTOR_SIZE);
    ReadListedFile(EspBytes(a, ps), a.fat, FinalClusters(a, ps), root, f, entry);
    ReadStoredFile(EspBytes(a, ps), a.fat, FinalClusters(a, ps), root, entry, data);
  }

  /** A successful build, taken apart. */
  lemma BuildEspParts(files: seq<File>) returns (a: Allocator, chains: seq<seq<nat>>, ps: Places)
    requires Buildable(files)
    ensures Allocated(files, a, chains) && PlacesOf(files, chains) == Ok(ps) && Laid(a, ps)
    ensures BuildEsp(files) == Ok(EspBytes(a, ps))
  {
    BuildEspIff(files);
    var (alloc, all) := AllocateAll(FreshAllocator(), Requests(files)).value;
    AllocationGives(files, alloc, all);
    a, chains := alloc, all[3..];
    ps := PlacesOf(files, chains).value;
    PlacesAreLaid(files, a, chains);
  }

  /** Whenever an image is built, the reader recovers each boot file from it, byte for byte. */
  lemma EspRoundTrip(files: seq<File>, f: BootFile)
    requires Buildable(files)
    ensures BuildEsp(files).Ok? && |BuildEsp(files).value| == ESP_SIZE
    ensures ReadPath(BuildEsp(files).value, f.ShortPath()) == Some(files[IndexOf(files, f.Path()).value].data)
  {
    var a, chains, ps := BuildEspParts(files);
    PlacesOfAll(files, chains, f);
    PlacePoints(files, a, chains, f);
    ResolvesPath(a, ps, f, files[IndexOf(files, f.Path()).value].data);
  }

  /** Both FAT copies answer alike: used entries link forward or end, all others are free. */
  lemma EspFatCopiesAgree(files: seq<File>, c: nat)
    requires Buildable(files) && c < FAT_ENTRIES
    ensures BuildEsp(files).Ok?
    ensures var entry := FatEntry(BuildEsp(files).value, GEOMETRY, 0, c);
      && FatEntry(BuildEsp(files).value, GEOMETRY, 1, c) == entry && entry.Some?
      && (2 <= c < 5 + TotalClusters(Contents(files)) ==> entry.value in {c + 1, END_OF_CHAIN})
      && (5 + TotalClusters(Contents(files)) <= c ==> entry.value == 0)
  {
    var a, chains, ps := BuildEspParts(files);
    EspShowsFat(a, ps, c);
  }

  // ------------------------------------------------------------ implementation

  /** One more allocation after a run, by the object that keeps the state. */
  method AllocateNext(allocator: ClusterAllocator, ghost done: seq<bytes>, ghost chains: seq<seq<nat>>, data: bytes)
    returns (r: Result<seq<nat>, EspError>)
    requires AllocateAll(FreshAllocator(), done) == Ok((allocator.State(), chains))
    modifies allocator, allocator.fatEntries
    ensures match r
      case Ok(chain) => AllocateAll(FreshAllocator(), done + [data]) == Ok((allocator.State(), chains + [chain]))
      case Err(e) => AllocateAll(FreshAllocator(), done + [data]) == Err(e)
  {
    AllocateAllOutcome(FreshAllocator(), done);
    assert (done + [data])[..|done|] == done;
    r := allocator.AllocateChain(data);
  }

  /** The allocations of the directories and of all files. */
  method AllocateFiles(allocator: ClusterAllocator, files: seq<File>) returns (r: Result<seq<seq<nat>>, EspError>)
    requires allocator.State() == FreshAllocator()
    modifies allocator, allocator.fatEntries
    ensures match r
      case Ok(chains) => AllocateAll(FreshAllocator(), Requests(files)) == Ok((allocator.State(), chains))
      case Err(e) => AllocateAll(FreshAllocator(), Requests(files)) == Err(e)
  {
    hide AllocateAll, FreshAllocator, ClusterAllocator.State;
    var requests := [Zeros(CLUSTER_SIZE), Zeros(CLUSTER_SIZE), Zeros(CLUSTER_SIZE)] + Contents(files);
    var chains := [];
    AllocateNone();
    for i := 0 to |requests|
      invariant |chains| == i
      invariant AllocateAll(FreshAllocator(), requests[..i]) == Ok((allocator.State(), chains))
    {
      var r := AllocateNext(allocator, requests[..i], chains, requests[i]);
      assert requests[..i] + [requests[i]] == requests[..i + 1];
      if r.Err? {
        AllocateAllFailsEarly(FreshAllocator(), requests, i + 1);
        return Err(r.error);
      }
      chains := chains + [r.value];
    }
    assert requests[..|requests|] == requests;
    return Ok(chains);
  }

  lemma AllocateNone()
    ensures AllocateAll(FreshAllocator(), []) == Ok((FreshAllocator(), []))
  {
  }

  /** The three directories replace the zeros that reserved their clusters. */
  method WriteDirectories(allocator: ClusterAllocator, ps: Places)
    requires ps.Valid()
    modifies allocator`clusters
    ensures allocator.clusters == FinalClusters(old(allocator.State()), ps)
  {
    hide Pad;
    EntriesAreValid(ps);
    var efi := MakeDirectory(EfiEntries());
    allocator.clusters := allocator.clusters[EFI_CLUSTER := efi];
    var boot := MakeDirectory(BootEntries(ps));
    allocator.clusters := allocator.clusters[BOOT_CLUSTER := boot];
    var pythos := MakeDirectory(PythosEntries(ps));
    allocator.clusters := allocator.clusters[PYTHOS_CLUSTER := pythos];
  }

  method MakeDirectory(es: seq<Entry>) returns (s: bytes)
    requires ValidEntries(es) && 32 * |es| < CLUSTER_SIZE
    ensures s == Pad(es, CLUSTER_SIZE)
  {
    var content := JoinEntries(es);
    s := DirectoryCluster(content).value;
  }

  /** The root directory: its two entries, and zeros up to its fixed size. */
  method MakeRoot() returns (s: bytes)
    ensures ValidEntries(RootEntries())
    ensures s == Pad(RootEntries(), ROOT_DIR_SECTORS * SECTOR_SIZE)
  {
    RootEntriesAreValid();
    var entries := JoinEntries(RootEntries());
    s := entries + Zeros(ROOT_DIR_SECTORS * SECTOR_SIZE - |entries|);
  }

  /** The loop over the clusters; the dictionary was filled in ascending order. */
  method WriteClusters(image: Buffer, clusters: map<nat, bytes>, next: nat)
    requires image.Valid() && 2 <= next <= CLUSTER_COUNT + 2 && image.data.Length == ESP_SIZE
    requires ClusterInv(clusters, next)
    modifies image, image.data
    ensures image.Valid() && image.log == old(image.log) + ClusterWrites(clusters, next)
  {
    hide Buffer.Valid;
    ghost var ws := ClusterWrites(clusters, next);
    for cluster := 2 to next
      invariant image.Valid() && image.log == old(image.log) + ws[..cluster - 2]
    {
      assert ws[cluster - 2] == Write(ClusterStart(cluster), clusters[cluster]);
      image.Put(ClusterStart(cluster), clusters[cluster]);
      assert ws[..cluster - 1] == ws[..cluster - 2] + [ws[cluster - 2]];
    }
  }

  /** The image, region by region. */
  method WriteImage(fat: array<nat>, clusters: map<nat, bytes>, next: nat, ghost a: Allocator, ghost ps: Places)
    returns (img: bytes)
    requires Laid(a, ps) && fat[..] == a.fat && clusters == FinalClusters(a, ps) && next == a.next
    ensures img == EspBytes(a, ps)
  {
    hide FinalClusters, BootSector, FatBytes, Pad, Buffer.Valid, Contiguous, Ordered, Apply;
    EspRegionsTile(a, ps);
    FinalClustersInv(a, ps);
    var image := new Buffer(ESP_SIZE);
    var boot := MakeBootSector();
    image.Put(0, boot);
    var serialised := SerialiseFat(fat);
    image.Put(SECTOR_SIZE, serialised);
    image.Put(SECTOR_SIZE + FAT_BYTES, serialised);
    var root := MakeRoot();
    image.Put(ROOT_DIR_START * SECTOR_SIZE, root);
    assert image.log == HeadWrites(a);
    WriteClusters(image, clusters, next);
    img := image.Freeze();
    assert image.log == EspWrites(a, ps);
  }

  /** `build_esp_image` computes exactly the specified image or the specified failure. */
  method BuildEspImage(files: seq<File>) returns (r: Result<bytes, EspError>)
    ensures r == BuildEsp(files)
    ensures r.Ok? <==> Buildable(files)
    ensures r.Ok? ==> forall f: BootFile ::
      ReadPath(r.value, f.ShortPath()) == Some(files[IndexOf(files, f.Path()).value].data)
  {
    hide AllocateAll, EspBytes, ReadPath, FinalClusters, Laid, Allocated, PlacesOf, FreshAllocator;
    BuildEspIff(files);
    var sectorsPerCluster, fatSectors, rootDirSectors, clusterCount := Fat16Layout(TOTAL_SECTORS);
    assert fatSectors == FAT_SECTORS && clusterCount == CLUSTER_COUNT;
    var allocator := new ClusterAllocator();
    var all := AllocateFiles(allocator, files);
    if all.Err? {
      return Err(all.error);
    }
    ghost var a := allocator.State();
    AllocationGives(files, a, all.value);
    var ps := PlacesOf(files, all.value[3..]);
    if ps.Err? {
      return Err(ps.error);
    }
    PlacesAreLaid(files, a, all.value[3..]);
    LaidPlaces(a, ps.value);
    WriteDirectories(allocator, ps.value);
    var img := WriteImage(allocator.fatEntries, allocator.clusters, allocator.nextCluster, a, ps.value);
    r := Ok(img);
    forall f: BootFile
      ensures ReadPath(img, f.ShortPath()) == Some(files[IndexOf(files, f.Path()).value].data)
    {
      EspRoundTrip(files, f);
    }
  }

  lemma LaidPlaces(a: Allocator, ps: Places)
    requires Laid(a, ps)
    ensures ps.Valid()
  {
  }
}
