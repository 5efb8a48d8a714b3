/**
 The whole ESP volume as a list of writes: its regions tile the image, and through the reader
 the image shows the FAT, the clusters and the root directory that went in.
 */
module EspVolume {
  import opened Bytes
  import opened Results
  import opened FatLayout
  import opened FatAllocator
  import opened FatReader
  import opened EspImage

  // ------------------------------------------------------------------ regions

  ghost function Pad(es: seq<Entry>, size: nat): (s: bytes)
    requires ValidEntries(es) && 32 * |es| <= size
    ensures |s| == size
  {
    Join(es) + Zeros(size - 32 * |es|)
  }

  /** The cluster contents once the three directories have replaced their zeros. */
  ghost function FinalClusters(a: Allocator, ps: Places): (m: map<nat, bytes>)
    requires ps.Valid()
  {
    EntriesAreValid(ps);
    a.clusters[EFI_CLUSTER := Pad(EfiEntries(), CLUSTER_SIZE)]
              [BOOT_CLUSTER := Pad(BootEntries(ps), CLUSTER_SIZE)]
              [PYTHOS_CLUSTER := Pad(PythosEntries(ps), CLUSTER_SIZE)]
  }

  lemma FinalDirectories(a: Allocator, ps: Places)
    requires ps.Valid()
    ensures ValidEntries(EfiEntries()) && ValidEntries(BootEntries(ps)) && ValidEntries(PythosEntries(ps))
    ensures var m := FinalClusters(a, ps);
      && EFI_CLUSTER in m && m[EFI_CLUSTER] == Pad(EfiEntries(), CLUSTER_SIZE)
      && BOOT_CLUSTER in m && m[BOOT_CLUSTER] == Pad(BootEntries(ps), CLUSTER_SIZE)
      && PYTHOS_CLUSTER in m && m[PYTHOS_CLUSTER] == Pad(PythosEntries(ps), CLUSTER_SIZE)
  {
    EntriesAreValid(ps);
  }

  function ClusterStart(c: nat): nat
    requires c >= 2
  {
    (DATA_START + (c - 2)) * SECTOR_SIZE
  }

  ghost function ClusterWrites(clusters: map<nat, bytes>, next: nat): (ws: seq<Write>)
    requires next >= 2 && ClusterInv(clusters, next)
    ensures |ws| == next - 2
  {
    seq(next - 2, i requires 0 <= i < next - 2 => Write(ClusterStart(i + 2), clusters[i + 2]))
  }

  ghost predicate Laid(a: Allocator, ps: Places) {
    Inv(a) && a.next >= 5 && ps.Valid() && SixteenBit(a.fat)
  }

  lemma RootEntriesAreValid()
    ensures ValidEntries(RootEntries())
  {
    NamesAreLive(Loader);
  }

  lemma FinalClustersInv(a: Allocator, ps: Places)
    requires Laid(a, ps)
    ensures ClusterInv(FinalClusters(a, ps), a.next)
  {
  }

  ghost function HeadWrites(a: Allocator): (ws: seq<Write>)
    requires SixteenBit(a.fat)
  {
    RootEntriesAreValid();
    [ Write(0, BootSector()),
      Write(SECTOR_SIZE, FatBytes(a.fat)),
      Write(SECTOR_SIZE + FAT_BYTES, FatBytes(a.fat)),
      Write(ROOT_DIR_START * SECTOR_SIZE, Pad(RootEntries(), ROOT_DIR_SECTORS * SECTOR_SIZE)) ]
  }

  /** Every slice assignment to the image, in program order. */
  ghost function EspWrites(a: Allocator, ps: Places): seq<Write>
    requires Laid(a, ps)
  {
    FinalClustersInv(a, ps);
    HeadWrites(a) + ClusterWrites(FinalClusters(a, ps), a.next)
  }

  lemma ClusterWritesContiguous(clusters: map<nat, bytes>, next: nat)
    requires next > 2 && ClusterInv(clusters, next)
    ensures var ws := ClusterWrites(clusters, next);
      Contiguous(ws) && ws[0].off == ClusterStart(2) && ws[|ws| - 1].End() == ClusterStart(next)
  {
  }

  /**
   Boot sector, two FATs, root directory and clusters tile the image: no write leaves the
   image or touches another, and the last cluster number ends where the image ends.
   */
  lemma EspRegionsTile(a: Allocator, ps: Places)
    requires Laid(a, ps)
    ensures Fits(EspWrites(a, ps), ESP_SIZE) && Ordered(EspWrites(a, ps)) && Contiguous(EspWrites(a, ps))
    ensures EspWrites(a, ps)[0].off == 0 && ClusterStart(CLUSTER_COUNT + 2) == ESP_SIZE
  {
    hide FinalClusters, ClusterWrites, Ordered, Fits;
    FinalClustersInv(a, ps);
    var head, tail := HeadWrites(a), ClusterWrites(FinalClusters(a, ps), a.next);
    assert Contiguous(head);
    ClusterWritesContiguous(FinalClusters(a, ps), a.next);
    ContiguousAppend(head, tail);
    ContiguousIsOrdered(head + tail, ESP_SIZE);
  }

  ghost function EspBytes(a: Allocator, ps: Places): (img: bytes)
    requires Laid(a, ps)
    ensures |img| == ESP_SIZE
  {
    EspRegionsTile(a, ps);
    Apply(Zeros(ESP_SIZE), EspWrites(a, ps))
  }

  // --------------------------------------------------- what the reader gets back

  /** The image, seen through the reader, is this FAT, these clusters and this root directory. */
  ghost predicate Shows(img: bytes, fat: seq<nat>, clusters: map<nat, bytes>, root: bytes) {
    && ParseBpb(img) == Some(GEOMETRY)
    && RootDirectory(img, GEOMETRY) == Some(root)
    && (forall c | 0 <= c < |fat| :: FatEntry(img, GEOMETRY, 0, c) == Some(fat[c]))
    && (forall c | 0 <= c < |fat| :: FatEntry(img, GEOMETRY, 1, c) == Some(fat[c]))
    && (forall c | c in clusters :: ClusterBytes(img, GEOMETRY, c) == Some(clusters[c]))
  }

  lemma FatCopyReads(img: bytes, fat: seq<nat>, copy: nat, c: nat)
    requires |img| == ESP_SIZE && SixteenBit(fat) && |fat| == FAT_ENTRIES && c < FAT_ENTRIES && copy < 2
    requires var off := SECTOR_SIZE + copy * FAT_BYTES; img[off..off + FAT_BYTES] == FatBytes(fat)
    ensures FatEntry(img, GEOMETRY, copy, c) == Some(fat[c])
  {
    var off := SECTOR_SIZE + copy * FAT_BYTES;
    assert GEOMETRY.FatOffset(copy) == off;
    SliceOfSlice(img, off, off + FAT_BYTES, 2 * c, 2 * c + 2);
    FatBytesEntry(fat, c);
  }

  lemma ClusterReads(img: bytes, c: nat, content: bytes)
    requires |img| == ESP_SIZE && 2 <= c < CLUSTER_COUNT + 2 && |content| == CLUSTER_SIZE
    requires img[ClusterStart(c)..ClusterStart(c) + CLUSTER_SIZE] == content
    ensures ClusterBytes(img, GEOMETRY, c) == Some(content)
  {
    var off := ClusterStart(c);
    assert GEOMETRY.ClusterOffset(c) == off && GEOMETRY.ClusterSize() == CLUSTER_SIZE;
    assert img[off..][..CLUSTER_SIZE] == img[off..off + CLUSTER_SIZE];
  }

  lemma EspWriteReads(a: Allocator, ps: Places, k: nat, w: Write)
    requires Laid(a, ps) && k < |EspWrites(a, ps)| && EspWrites(a, ps)[k] == w
    ensures w.End() <= ESP_SIZE && EspBytes(a, ps)[w.off..w.End()] == w.data
  {
    EspRegionsTile(a, ps);
    ReadBack(Zeros(ESP_SIZE), EspWrites(a, ps), k);
  }

  lemma EspClusterWrite(a: Allocator, ps: Places, c: nat)
    requires Laid(a, ps) && 2 <= c < a.next
    ensures c in FinalClusters(a, ps) && |FinalClusters(a, ps)[c]| == CLUSTER_SIZE
    ensures c + 2 < |EspWrites(a, ps)|
    ensures EspWrites(a, ps)[c + 2] == Write(ClusterStart(c), FinalClusters(a, ps)[c])
  {
    FinalClustersInv(a, ps);
    assert EspWrites(a, ps)[c + 2] == ClusterWrites(FinalClusters(a, ps), a.next)[c - 2];
  }

  lemma EspShowsClusters(a: Allocator, ps: Places, c: nat)
    requires Laid(a, ps) && 2 <= c < a.next
    ensures c in FinalClusters(a, ps)
    ensures ClusterBytes(EspBytes(a, ps), GEOMETRY, c) == Some(FinalClusters(a, ps)[c])
  {
    hide EspWrites, EspBytes, FinalClusters;
    EspClusterWrite(a, ps, c);
    EspWriteReads(a, ps, c + 2, Write(ClusterStart(c), FinalClusters(a, ps)[c]));
    ClusterReads(EspBytes(a, ps), c, FinalClusters(a, ps)[c]);
  }

  /** The two FATs are where the geometry puts them, and identical. */
  lemma EspFatRegions(a: Allocator, ps: Places)
    requires Laid(a, ps)
    ensures var img := EspBytes(a, ps);
      && img[SECTOR_SIZE..SECTOR_SIZE + FAT_BYTES] == FatBytes(a.fat)
      && img[SECTOR_SIZE + FAT_BYTES..SECTOR_SIZE + 2 * FAT_BYTES] == FatBytes(a.fat)
  {
    hide EspBytes, FinalClusters, ClusterWrites, FatBytes;
    EspWriteReads(a, ps, 1, Write(SECTOR_SIZE, FatBytes(a.fat)));
    EspWriteReads(a, ps, 2, Write(SECTOR_SIZE + FAT_BYTES, FatBytes(a.fat)));
  }

  lemma EspShowsFat(a: Allocator, ps: Places, c: nat)
    requires Laid(a, ps) && c < |a.fat|
    ensures FatEntry(EspBytes(a, ps), GEOMETRY, 0, c) == Some(a.fat[c])
    ensures FatEntry(EspBytes(a, ps), GEOMETRY, 1, c) == Some(a.fat[c])
  {
    EspFatRegions(a, ps);
    var img := EspBytes(a, ps);
    FatCopyReads(img, a.fat, 0, c);
    FatCopyReads(img, a.fat, 1, c);
  }

  lemma EspShowsRoot(a: Allocator, ps: Places)
    requires Laid(a, ps)
    ensures ValidEntries(RootEntries())
    ensures RootDirectory(EspBytes(a, ps), GEOMETRY) == Some(Pad(RootEntries(), ROOT_DIR_SECTORS * SECTOR_SIZE))
  {
    hide EspBytes, FinalClusters, ClusterWrites, FatBytes;
    EntriesAreValid(ps);
    var img, off, size := EspBytes(a, ps), ROOT_DIR_START * SECTOR_SIZE, ROOT_DIR_SECTORS * SECTOR_SIZE;
    EspWriteReads(a, ps, 3, Write(off, Pad(RootEntries(), size)));
    assert img[off..][..size] == img[off..off + size];
  }

  lemma EspShows(a: Allocator, ps: Places)
    requires Laid(a, ps)
    ensures ValidEntries(RootEntries())
    ensures Shows(EspBytes(a, ps), a.fat, FinalClusters(a, ps),
                  Pad(RootEntries(), ROOT_DIR_SECTORS * SECTOR_SIZE))
  {
    var img := EspBytes(a, ps);
    assert ParseBpb(img) == Some(GEOMETRY) by {
      EspWriteReads(a, ps, 0, Write(0, BootSector()));
      BootSectorParses(img);
    }
    EspShowsRoot(a, ps);
    forall c | 0 <= c < |a.fat|
      ensures FatEntry(img, GEOMETRY, 0, c) == Some(a.fat[c])
      ensures FatEntry(img, GEOMETRY, 1, c) == Some(a.fat[c])
    {
      EspShowsFat(a, ps, c);
    }
    FinalClustersInv(a, ps);
    forall c | c in FinalClusters(a, ps)
      ensures ClusterBytes(img, GEOMETRY, c) == Some(FinalClusters(a, ps)[c])
    {
      EspShowsClusters(a, ps, c);
    }
  }

  /** A run of clusters that carries the data and is linked to its end. */
  ghost predicate RunIn(fat: seq<nat>, clusters: map<nat, bytes>, first: nat, data: bytes) {
    var n := ClustersFor(|data|);
    && 2 <= first && first + n <= |fat| && first + n <= CLUSTER_COUNT + 2
    && (forall c | first <= c < first + n :: fat[c] == Link(c, first + n))
    && (forall c | first <= c < first + n :: c in clusters && clusters[c] == Block(data, c - first))
  }

  lemma FilesKeepTheirRuns(a: Allocator, ps: Places, first: nat, data: bytes)
    requires Laid(a, ps) && Stores(a, first, data) && first >= 5
    ensures RunIn(a.fat, FinalClusters(a, ps), first, data)
  {
  }

  lemma PaddedTail(data: bytes, i: nat)
    requires i < ClustersFor(|data|)
    ensures Padded(data)[CLUSTER_SIZE * i..] == Block(data, i) + Padded(data)[CLUSTER_SIZE * (i + 1)..]
    ensures i + 1 == ClustersFor(|data|) ==> Padded(data)[CLUSTER_SIZE * i..] == Block(data, i)
  {
  }

  /** Following the links of a run gives its blocks in order. */
  lemma {:induction false} ReadRun(img: bytes, fat: seq<nat>, clusters: map<nat, bytes>, root: bytes,
                                   first: nat, data: bytes, i: nat, limit: nat)
    requires Shows(img, fat, clusters, root) && RunIn(fat, clusters, first, data)
    requires i < ClustersFor(|data|) <= i + limit
    ensures ReadChain(img, GEOMETRY, first + i, limit) == Some(Padded(data)[CLUSTER_SIZE * i..])
    decreases limit
  {
    hide ReadChain, ClusterBytes, FatEntry, Padded, Block;
    var n, c := ClustersFor(|data|), first + i;
    var link := Link(c, first + n);
    assert fat[c] == link && clusters[c] == Block(data, i);
    PaddedTail(data, i);
    ReadChainStep(img, GEOMETRY, c, limit, Block(data, i), link);
    if i + 1 < n {
      ReadRun(img, fat, clusters, root, first, data, i + 1, limit - 1);
      assert link == first + (i + 1) < 0xFFF8;
      assert ReadChain(img, GEOMETRY, link, limit - 1) == Some(Padded(data)[CLUSTER_SIZE * (i + 1)..]);
      assert ReadChain(img, GEOMETRY, c, limit) == Some(Block(data, i) + Padded(data)[CLUSTER_SIZE * (i + 1)..]);
    } else {
      assert ReadChain(img, GEOMETRY, c, limit) == Some(Block(data, i));
    }
  }

  /** The chain of a file, cut to the size in its directory entry, is the file. */
  lemma ReadStoredFile(img: bytes, fat: seq<nat>, clusters: map<nat, bytes>, root: bytes, entry: DirEntry, data: bytes)
    requires Shows(img, fat, clusters, root) && entry.size == |data|
    requires data != [] ==> RunIn(fat, clusters, entry.cluster, data)
    ensures ReadFile(img, GEOMETRY, entry) == Some(data)
  {
    if data != [] {
      ReadRun(img, fat, clusters, root, entry.cluster, data, 0, TOTAL_SECTORS);
      assert Padded(data)[0..] == Padded(data);
      assert Padded(data)[..|data|] == data;
    }
  }

  /** A one-cluster directory. */
  lemma ReadDirectory(img: bytes, fat: seq<nat>, clusters: map<nat, bytes>, root: bytes, c: nat)
    requires Shows(img, fat, clusters, root) && c < |fat| && c in clusters && fat[c] == END_OF_CHAIN
    ensures ReadChain(img, GEOMETRY, c, TOTAL_SECTORS) == Some(clusters[c])
  {
    assert FatEntry(img, GEOMETRY, 0, c) == Some(fat[c]);
    assert ClusterBytes(img, GEOMETRY, c) == Some(clusters[c]);
  }

  /** What the lookups along the path of a boot file find. */
  ghost predicate Listed(clusters: map<nat, bytes>, root: bytes, f: BootFile, entry: DirEntry) {
    && EFI_CLUSTER in clusters && BOOT_CLUSTER in clusters && PYTHOS_CLUSTER in clusters
    && !entry.IsDirectory()
    && FindEntry(root, EFI_NAME) == Some(DirEntry(DIRECTORY, EFI_CLUSTER, 0))
    && FindEntry(root, PYTHOS_NAME) == Some(DirEntry(DIRECTORY, PYTHOS_CLUSTER, 0))
    && (f.Loader? ==>
          && FindEntry(clusters[EFI_CLUSTER], BOOT_NAME) == Some(DirEntry(DIRECTORY, BOOT_CLUSTER, 0))
          && FindEntry(clusters[BOOT_CLUSTER], f.ShortName()) == Some(entry))
    && (!f.Loader? ==> FindEntry(clusters[PYTHOS_CLUSTER], f.ShortName()) == Some(entry))
  }

  lemma ShowsRoot(img: bytes, fat: seq<nat>, clusters: map<nat, bytes>, root: bytes)
    requires Shows(img, fat, clusters, root)
    ensures ParseBpb(img) == Some(GEOMETRY) && RootDirectory(img, GEOMETRY) == Some(root)
  {
  }

  lemma ReadListedFile(img: bytes, fat: seq<nat>, clusters: map<nat, bytes>, root: bytes, f: BootFile, entry: DirEntry)
    requires Shows(img, fat, clusters, root) && Listed(clusters, root, f, entry) && |fat| > PYTHOS_CLUSTER
    requires fat[EFI_CLUSTER] == fat[BOOT_CLUSTER] == fat[PYTHOS_CLUSTER] == END_OF_CHAIN
    ensures ReadPath(img, f.ShortPath()) == ReadFile(img, GEOMETRY, entry)
  {
    hide FindEntry, ReadChain, ReadFile, Shows;
    var leaf := f.ShortName();
    assert ParseBpb(img) == Some(GEOMETRY) && RootDirectory(img, GEOMETRY) == Some(root) by {
      ShowsRoot(img, fat, clusters, root);
    }
    if f.Loader? {
      var names := [EFI_NAME, BOOT_NAME, leaf];
      ReadDirectory(img, fat, clusters, root, EFI_CLUSTER);
      ReadDirectory(img, fat, clusters, root, BOOT_CLUSTER);
      assert names[1..] == [BOOT_NAME, leaf] && [BOOT_NAME, leaf][1..] == [leaf];
      ResolveEnters(img, GEOMETRY, root, names, DirEntry(DIRECTORY, EFI_CLUSTER, 0), clusters[EFI_CLUSTER]);
      ResolveEnters(img, GEOMETRY, clusters[EFI_CLUSTER], [BOOT_NAME, leaf],
                    DirEntry(DIRECTORY, BOOT_CLUSTER, 0), clusters[BOOT_CLUSTER]);
      ResolveReads(img, GEOMETRY, clusters[BOOT_CLUSTER], leaf, entry);
    } else {
      var names := [PYTHOS_NAME, leaf];
      ReadDirectory(img, fat, clusters, root, PYTHOS_CLUSTER);
      assert names[1..] == [leaf];
      ResolveEnters(img, GEOMETRY, root, names, DirEntry(DIRECTORY, PYTHOS_CLUSTER, 0), clusters[PYTHOS_CLUSTER]);
      ResolveReads(img, GEOMETRY, clusters[PYTHOS_CLUSTER], leaf, entry);
    }
  }
}
