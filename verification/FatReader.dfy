/**
 A FAT16 reader, written from the on-disk format and knowing nothing of the builder:
 it takes the geometry from the boot sector, walks directories, follows FAT links to
 the end-of-chain mark and cuts the data to the size in the directory entry.
 */
module FatReader {
  import opened Bytes
  import opened Results

  datatype Bpb = Bpb(
    bytesPerSector: nat,
    sectorsPerCluster: nat,
    reservedSectors: nat,
    fatCount: nat,
    rootEntries: nat,
    totalSectors: nat,
    sectorsPerFat: nat)
  {
    function FatOffset(copy: nat): nat {
      (reservedSectors + copy * sectorsPerFat) * bytesPerSector
    }

    function RootOffset(): nat {
      (reservedSectors + fatCount * sectorsPerFat) * bytesPerSector
    }

    function ClusterSize(): nat {
      sectorsPerCluster * bytesPerSector
    }

    function ClusterOffset(cluster: nat): nat
      requires cluster >= 2
    {
      RootOffset() + rootEntries * 32 + (cluster - 2) * ClusterSize()
    }
  }

  datatype DirEntry = DirEntry(attr: byte, cluster: nat, size: nat) {
    predicate IsDirectory() {
      (attr / 16) % 2 == 1
    }
  }

  function U16(img: bytes, off: nat): nat
    requires off + 2 <= |img|
  {
    FromLE(img[off..off + 2])
  }

  function ParseBpb(img: bytes): Option<Bpb> {
    if |img| < 512 || img[510..512] != [0x55, 0xAA] then None
    else Some(Bpb(U16(img, 11), img[13], U16(img, 14), img[16], U16(img, 17), U16(img, 19), U16(img, 22)))
  }

  /** The link of a cluster in one of the FAT copies. */
  function FatEntry(img: bytes, bpb: Bpb, copy: nat, cluster: nat): Option<nat> {
    var off := bpb.FatOffset(copy) + 2 * cluster;
    if copy < bpb.fatCount && 2 * cluster + 2 <= bpb.sectorsPerFat * bpb.bytesPerSector && off + 2 <= |img|
    then Some(U16(img, off))
    else None
  }

  function ClusterBytes(img: bytes, bpb: Bpb, cluster: nat): Option<bytes> {
    if cluster >= 2 && bpb.ClusterOffset(cluster) + bpb.ClusterSize() <= |img|
    then Some(img[bpb.ClusterOffset(cluster)..][..bpb.ClusterSize()])
    else None
  }

  /** The bytes of the chain from a cluster to the end mark; a chain longer than the volume is damaged. */
  function ReadChain(img: bytes, bpb: Bpb, cluster: nat, limit: nat): Option<bytes>
    decreases limit
  {
    if limit == 0 then None
    else
      var data :- ClusterBytes(img, bpb, cluster);
      var link :- FatEntry(img, bpb, 0, cluster);
      if link >= 0xFFF8 then Some(data)
      else
        var rest :- ReadChain(img, bpb, link, limit - 1);
        Some(data + rest)
  }

  /** The first entry of this 8.3 name; a zero byte ends the directory. */
  function FindEntry(dir: bytes, name: bytes): Option<DirEntry> {
    if |dir| < 32 || dir[0] == 0 then None
    else if dir[..11] == name && dir[0] != 0xE5 && (dir[11] / 8) % 2 == 0
    then Some(DirEntry(dir[11], FromLE(dir[26..28]), FromLE(dir[28..32])))
    else FindEntry(dir[32..], name)
  }

  function ReadFile(img: bytes, bpb: Bpb, entry: DirEntry): Option<bytes> {
    if entry.size == 0 then Some([])
    else
      var data :- ReadChain(img, bpb, entry.cluster, bpb.totalSectors);
      if |data| < entry.size then None else Some(data[..entry.size])
  }

  function Resolve(img: bytes, bpb: Bpb, dir: bytes, names: seq<bytes>): Option<bytes>
    decreases |names|
  {
    if names == [] then None
    else
      var entry :- FindEntry(dir, names[0]);
      if |names| == 1 then
        if entry.IsDirectory() then None else ReadFile(img, bpb, entry)
      else if !entry.IsDirectory() then None
      else
        var sub :- ReadChain(img, bpb, entry.cluster, bpb.totalSectors);
        Resolve(img, bpb, sub, names[1..])
  }

  function RootDirectory(img: bytes, bpb: Bpb): Option<bytes> {
    if bpb.RootOffset() + bpb.rootEntries * 32 <= |img|
    then Some(img[bpb.RootOffset()..][..bpb.rootEntries * 32])
    else None
  }

  /** The content of the file at a path of 8.3 names. */
  function ReadPath(img: bytes, names: seq<bytes>): Option<bytes> {
    var bpb :- ParseBpb(img);
    var root :- RootDirectory(img, bpb);
    Resolve(img, bpb, root, names)
  }

  /** Scanning past an entry that is live and has another name. */
  lemma FindEntrySkips(entry: bytes, rest: bytes, name: bytes)
    requires |entry| == 32 && entry[0] != 0 && entry[..11] != name
    ensures FindEntry(entry + rest, name) == FindEntry(rest, name)
  {
    var dir := entry + rest;
    assert dir[..11] == entry[..11] && dir[32..] == rest;
  }

  lemma FindEntryHits(entry: bytes, rest: bytes, name: bytes)
    requires |entry| == 32 && entry[0] != 0 && entry[0] != 0xE5 && entry[..11] == name
    requires (entry[11] / 8) % 2 == 0
    ensures FindEntry(entry + rest, name)
         == Some(DirEntry(entry[11], FromLE(entry[26..28]), FromLE(entry[28..32])))
  {
    var dir := entry + rest;
    assert dir[..11] == entry[..11] && dir[26..28] == entry[26..28] && dir[28..32] == entry[28..32];
  }

  /** One link of a chain. */
  lemma ReadChainStep(img: bytes, bpb: Bpb, cluster: nat, limit: nat, data: bytes, link: nat)
    requires limit > 0 && ClusterBytes(img, bpb, cluster) == Some(data) && FatEntry(img, bpb, 0, cluster) == Some(link)
    ensures link >= 0xFFF8 ==> ReadChain(img, bpb, cluster, limit) == Some(data)
    ensures link < 0xFFF8 && ReadChain(img, bpb, link, limit - 1).Some? ==>
      ReadChain(img, bpb, cluster, limit) == Some(data + ReadChain(img, bpb, link, limit - 1).value)
  {
  }

  /** One step into a directory. */
  lemma ResolveEnters(img: bytes, bpb: Bpb, dir: bytes, names: seq<bytes>, entry: DirEntry, sub: bytes)
    requires |names| > 1 && FindEntry(dir, names[0]) == Some(entry) && entry.IsDirectory()
    requires ReadChain(img, bpb, entry.cluster, bpb.totalSectors) == Some(sub)
    ensures Resolve(img, bpb, dir, names) == Resolve(img, bpb, sub, names[1..])
  {
  }

  lemma ResolveReads(img: bytes, bpb: Bpb, dir: bytes, name: bytes, entry: DirEntry)
    requires FindEntry(dir, name) == Some(entry) && !entry.IsDirectory()
    ensures Resolve(img, bpb, dir, [name]) == ReadFile(img, bpb, entry)
  {
  }
}
