# PythOS boot media, containers and transcript checks in Dafny

PythOS is built and accepted by a set of scripts: they lay out a FAT16 system partition inside a
bootable ISO, pack programs and packages into nested containers that the kernel reads back,
exchange network frames with a probe, and decide whether a serial transcript is acceptable. This
project models that logic and proves what it is for.

`dafny verify dfyconfig.toml` checks everything. The modules:

- `Bytes`, `Results`: fixed-width integers, images assembled by slice writes, outcomes.
- `FatLayout`, `FatAllocator`, `EspImage`, `EspVolume`, `EspBuilder`: the FAT16 volume. `FatReader`
  is an independent reader, written from the format.
- `IsoImage`, `IsoBuilder`, `BootMedia`: the ISO 9660 volume (ECMA-119) with its El Torito catalog.
  `IsoReader` is an independent reader.
- `Fnv`, `NamedProgram`, `InitPak`, `InitBundle`, `Manifest`, `Package`, `PackageBuilder`: the
  containers. Their readers are the kernel's own validators.
- `InternetChecksum`, `Datagrams`: the checksum of RFC 1071, IPv4, UDP and Ethernet frames.
- `StatusLine`, `Session`: the oracle of the normal session and its status line.
- `Markers`, `Timeline`: the marker and order checks of the transcripts.
- `Lines`, `Utf8`, `Receivers`: lines from a stream or a polled file, and their decoding.
- `Capabilities`, `CapabilityText`, `CapabilityReport`, `CapabilityTranscript`: the PCI capability
  list, from the kernel's walk through configuration space to the script that finds its printed
  report in a transcript and judges it.

## Main results

1. For every dictionary of boot files that fits, the two image builders make a medium on which
   the ISO reader finds every file, and the boot catalog leads to a FAT16 volume on which the FAT
   reader finds every file too (`BootMedia.MediumRoundTrip`). The builder succeeds for exactly the
   dictionaries that have all five files, a non-empty loader and enough clusters
   (`EspBuilder.BuildEspIff`).
2. The FAT sizing loop ends exactly for the sizes outside two residues modulo 258
   (`FatLayout.LoopExitsIffSizeable`).
3. Builder and kernel agree on every container. Where the builder writes more than the kernel
   accepts, the theorem is an equivalence (`InitBundle.BundleAcceptedIff`,
   `Package.ArtifactAcceptedIff`, `Manifest.KernelParseIff`).
4. One replaced byte always changes the FNV-1a digest, so the kernel refuses the program
   (`Fnv.DigestSeesOneByte`, `NamedProgram.TamperedProgramRefused`).
5. The folding loop computes a canonical residue modulo 65535
   (`InternetChecksum.FoldAllIsResidue`); inserting a checksum, detecting a changed word, and
   re-encoding a parsed datagram are each characterised by an equivalence.
6. The session oracle is active exactly if the activation keys occurred in a row, over every run,
   and its status lines and their strict parser are exact inverses.
7. Greedy marker matching is complete, line reassembly does not depend on how a stream is cut, and
   the order checks equal a projection.
8. Of the capability reports with a status of one byte, which is all that the kernel reads, the
   script accepts exactly those that the kernel can print: each accepted one is the printed walk from
   the pointer through some configuration space that holds status, pointer and entries
   (`CapabilityReport.ReportIffEmitted`). In a transcript it accepts exactly such a report, in order
   and with no other capability line (`CapabilityTranscript.TranscriptIff`).
9. Polling a growing file of any bytes shows the file decoded as a whole exactly if every poll starts
   at a boundary of the decoder (`Receivers.SerialTail.PollAll`, `Utf8.PiecesDecodeIff`).

## Properties that do not hold

- The FAT sizing loop never ends when the number of sectors less 31 leaves 1 or 2 modulo 258. The
  16 MiB image is not such a size; 32540 sectors are (`FatLayout.LoopNeverExits`).
- The volume descriptor gives one path table for both byte orders. Its big-endian reading is wrong
  on every volume (`IsoBuilder.BigEndianPathTableIsWrong`).
- The El Torito catalog can express only whole 512-byte sectors and at most 65535 of them; the
  firmware gets the boot image exactly in that case (`IsoBuilder.BootImageIff`).
- The bundle builder writes empty bundles and unknown record kinds, which the kernel refuses
  (`InitBundle.BuiltButRefused`).
- A UDP checksum over addresses of odd total length does not verify, unless 257 divides the sum of
  the words (`Datagrams.UdpRoundTripIff`). IPv4 addresses have four bytes, so the scripts never meet this.
- A parsed IPv4 datagram is not always what the encoder would send (`Datagrams.AcceptedIsEncodedIff`).
- A serial log that is replaced by a different one of at least the same length between two polls is
  not read again (`Lines.SeenIsFileIff`).
- The script takes capability reports that the kernel cannot print: it looks at bit 4 of a 64-bit
  status, and the kernel prints the low byte of the register only, so every accepted report with a
  status of 256 or more is one (`CapabilityReport.WideStatusAccepted`).
- A character whose bytes are split between two polls is decoded wrong, to a replacement character
  for its start and one for each byte of its rest (`Utf8.CutCharacterDecodesWrong`).

## Conventions

A dictionary of files is a sequence in insertion order; the first item of a path counts. Python's
`math.ceil` of a quotient is exact integer division rounding up, which it is below 2^53. A
`bytearray` filled by slice assignments is `Bytes.Buffer`, whose log of writes ties the array to
the image it stands for. Exceptions are `Result` or `Option` values. Kernel lengths are 64-bit.
Configuration space does not change while the kernel reads it. SHA-256 is an arbitrary function to
32 bytes, and the decoder of complete COM2 lines is an arbitrary function.

## Model

| member | source | states |
|---|---|---|
| Bytes.ReadBack | scripts/build-iso.py:670-703 | in an ordered list of slice writes every write can be read back whole |
| Bytes.Untouched | scripts/build-iso.py:670-703 | bytes outside all writes keep their value |
| Bytes.WrappingSumMasks | shared/src/init_bundle.rs:221-225 | the kernel's wrapping sum and the builder's masked sum are the same checksum |
| FatLayout.FixedPointIffSizeable | scripts/build-iso.py:566-572 | a FAT size is a fixed point exactly if the total is outside two residues modulo 258 and the size is the balanced one |
| FatLayout.LoopApproaches | scripts/build-iso.py:566-572 | every turn of the loop comes strictly closer to the fixed point |
| FatLayout.LoopExitsIffSizeable | scripts/build-iso.py:560-572 | the loop exits exactly for the totals that have a fixed point, over all integers |
| FatLayout.LoopNeverExits | scripts/build-iso.py:566-572 | for 32540 sectors the loop never exits |
| FatLayout.Fat16Layout | scripts/build-iso.py:560-572 | returns the balanced size; the FAT has an entry for every cluster and two more, with less than a sector to spare |
| FatAllocator.AllocateKeepsInv | scripts/build-iso.py:616-629 | one allocation keeps all earlier links and contents, links its run to the end mark and leaves the rest of the FAT zero |
| FatAllocator.AllocateAllOutcome | scripts/build-iso.py:616-636 | after any sequence of allocations every chain starts where the earlier ones end and still carries its own file |
| FatAllocator.AllocateAllFits | scripts/build-iso.py:623-624 | a sequence of allocations fails exactly if it asks for more clusters than there are |
| FatAllocator.ChainsDisjoint | scripts/build-iso.py:616-636 | no cluster belongs to two chains and none lies outside the data area |
| FatAllocator.ClusterAllocator.AllocateChain | scripts/build-iso.py:616-629 | the method refines the allocation function, including the cursor that has moved when it fails |
| FatAllocator.ClusterAllocator.StoreChain | scripts/build-iso.py:625-628 | the loop stores every padded block and links every cluster to its successor or the end mark |
| FatAllocator.ClusterAllocator.constructor | scripts/build-iso.py:610-614 | starts from the two reserved FAT entries and no clusters |
| EspImage.DirectoryEntryFields | scripts/build-iso.py:536-542 | a directory entry decodes to its name, attribute, first cluster and size |
| EspImage.MakeDirectoryEntry | scripts/build-iso.py:536-550 | the slice writes produce that entry |
| EspImage.DirectoryCluster | scripts/build-iso.py:553-557 | a directory fills one cluster and is followed by an end mark |
| EspImage.FindListed | scripts/build-iso.py:638-668 | the reader finds the first entry of a name, whatever follows the entries |
| EspImage.BootSectorParses | scripts/build-iso.py:671-690 | the reader gets the geometry of the layout out of the boot sector |
| EspImage.MakeBootSector | scripts/build-iso.py:671-689 | the slice writes produce that sector |
| EspImage.FatBytesEntry | scripts/build-iso.py:692-694 | every FAT entry is found at twice its index |
| EspImage.SerialiseFat | scripts/build-iso.py:692-694 | the loop serialises all entries |
| EspVolume.EspRegionsTile | scripts/build-iso.py:690-702 | boot sector, two FATs, root directory and clusters tile the image, so no write touches another region |
| EspVolume.EspFatRegions | scripts/build-iso.py:695-697 | both FAT copies are where the geometry puts them and identical |
| EspVolume.EspShows | scripts/build-iso.py:670-703 | through the reader the image is exactly the allocator's FAT, clusters and root directory |
| EspVolume.ReadRun | scripts/build-iso.py:625-628 | following the links of a stored run returns its blocks in order |
| EspVolume.ReadStoredFile | scripts/build-iso.py:616-629 | a file whose run is in the FAT is read back cut to its size, empty files included |
| EspVolume.ReadListedFile | scripts/build-iso.py:638-668 | resolving a path through the stored directories reaches the file of its entry |
| EspBuilder.BuildEspIff | scripts/build-iso.py:603-703 | an image is built exactly if all five files are there, the loader is not empty and the clusters suffice |
| EspBuilder.EspRoundTrip | scripts/build-iso.py:603-703 | from every image that is built the reader recovers each boot file byte for byte |
| EspBuilder.EspFatCopiesAgree | scripts/build-iso.py:610-629 | both FAT copies answer alike; used entries link forward or end, all others are free |
| EspBuilder.AllocateFiles | scripts/build-iso.py:631-636 | the calls for directories and files refine the sequence of allocations, up to the one that fails |
| EspBuilder.MakeRoot | scripts/build-iso.py:638-643 | the root directory lists its two folders and is zero behind them |
| EspBuilder.WriteDirectories | scripts/build-iso.py:645-668 | the three directories replace the zeros that reserved their clusters and nothing else |
| EspBuilder.WriteClusters | scripts/build-iso.py:700-702 | the loop writes every cluster at its place |
| EspBuilder.WriteImage | scripts/build-iso.py:670-703 | the in-place writes produce the specified image |
| EspBuilder.BuildEspImage | scripts/build-iso.py:603-703 | the imperative builder computes the specified image or failure, and the reader recovers every file |
| IsoImage.RecordReads | scripts/build-iso.py:714-726 | extent, size, flags and identifier come back out of a directory record, in both byte orders |
| IsoImage.DirectoryRecord | scripts/build-iso.py:714-726 | the slice writes produce that record, for every identifier whose length fits |
| IsoImage.MakeDirectorySector | scripts/build-iso.py:763-767 | a directory sector holds the joined records, or does not exist because they do not fit |
| IsoImage.FindJoined | scripts/build-iso.py:763-767 | the reader finds the first record of an identifier, whatever follows |
| IsoImage.PvdReads | scripts/build-iso.py:859-872 | the volume descriptor leads to the root directory of a complete volume |
| IsoImage.BootRecordReads | scripts/build-iso.py:874-879 | the boot record leads to the catalog |
| IsoImage.CatalogReads | scripts/build-iso.py:729-748 | the catalog's validation entry sums to zero, and its entry names the boot image's sector and size |
| IsoBuilder.DirectoriesFit | scripts/build-iso.py:818-855 | the four directories always fit their sectors |
| IsoBuilder.IsoExtentsDisjoint | scripts/build-iso.py:774-912 | all extents are disjoint, in the order of the cursor, and the last one ends the volume |
| IsoBuilder.IsoFileRoundTrip | scripts/build-iso.py:774-912 | walking from the volume descriptor to a file returns its bytes |
| IsoBuilder.BootImageIff | scripts/build-iso.py:740-747 | the firmware loads exactly the boot image if and only if the catalog can express its size |
| IsoBuilder.PartialSectorNotBootable | scripts/build-iso.py:740-747 | a one-byte boot image is recorded and does not come back |
| IsoBuilder.BigEndianPathTableIsWrong | scripts/build-iso.py:870-871 | the table that the descriptor names is right in little-endian reading and wrong in big-endian reading |
| BootMedia.PlaceFiles | scripts/build-iso.py:812-816 | the loop gives each file the sector right behind everything placed before it |
| BootMedia.MakeDirectories | scripts/build-iso.py:818-855 | the four directories are built from the recorded sectors, and all fit |
| BootMedia.MakePvd | scripts/build-iso.py:859-872 | the slice writes produce the specified descriptor |
| BootMedia.SumWords | scripts/build-iso.py:735-737 | the checksum loop computes the sum of the words modulo 2^16 |
| BootMedia.MakeCatalog | scripts/build-iso.py:729-748 | the two rounds of writes produce the specified catalog |
| BootMedia.MakePayloadArea | scripts/build-iso.py:906-911 | boot image and padded files are written at their sectors |
| BootMedia.BuildIsoBytes | scripts/build-iso.py:774-912 | the imperative builder computes the specified image or failure, and the reader recovers every file |
| BootMedia.MediumRoundTrip | scripts/build-iso.py:941-954 | ISO and nested FAT16 volume both give every boot file back |
| Fnv.ComputeDigest64 | scripts/build-image.py:162-167 | the loop computes the digest function |
| Fnv.StepInjective | scripts/build-image.py:165-166 | one step is injective in the state and in the byte |
| Fnv.PrimeIsInvertible | scripts/build-image.py:166 | multiplication by the FNV prime modulo 2^64 is injective |
| Fnv.DigestKeepsDifference | scripts/build-image.py:162-167 | different states never meet again over the same bytes |
| Fnv.DigestSeesOneByte | scripts/build-image.py:162-167 | replacing one byte keeps the digest exactly if the byte is the same |
| NamedProgram.Build | scripts/build-image.py:170-184 | succeeds exactly within the field widths, and the kernel reads the program back |
| NamedProgram.RecordReads | shared/src/user_program_manifest.rs:145-200 | the kernel accepts every built record and returns name, identity and program |
| NamedProgram.AcceptedIsBuilt | shared/src/user_program_manifest.rs:145-200 | the kernel accepts nothing else |
| NamedProgram.TamperedProgramRefused | shared/src/user_program_manifest.rs:190-192 | a record with one replaced program byte is refused for its digest |
| InitPak.BuildInitPak | scripts/build-image.py:111-122 | succeeds exactly within the field widths, and the kernel reads the payload back |
| InitPak.PakReads | shared/src/init_pak.rs:30-83 | the kernel accepts every container and hands out its payload |
| InitPak.AcceptedIsPak | shared/src/init_pak.rs:30-83 | an accepted byte string is the container of its own payload, up to the minor version |
| InitBundle.Validate | shared/src/init_bundle.rs:115-219 | the kernel's nested loops accept exactly the bundles with valid, disjoint, correctly summed records, and otherwise return the first fault of the header or of the first refused entry |
| InitBundle.CheckHeader | shared/src/init_bundle.rs:116-155 | accepts exactly the valid headers with a table inside the bytes, or returns the first fault |
| InitBundle.CheckEntry | shared/src/init_bundle.rs:167-206 | the inner loop accepts exactly an entry that is valid and overlaps no earlier range, or returns the first fault |
| InitBundle.RefusalUnique | shared/src/init_bundle.rs:115-219 | the specified error is determined by the bytes, and excludes acceptance |
| InitBundle.AcceptedRangesDisjoint | shared/src/init_bundle.rs:190-200 | in an accepted bundle no byte belongs to two records or to the table |
| InitBundle.BuildInitBundle | scripts/build-image.py:137-159 | header, in-place table and payloads with the running cursor are the specified bundle, and fail exactly on overflow |
| InitBundle.PutEntry | scripts/build-image.py:152-156 | the four slice writes produce one table entry in zeroed space |
| InitBundle.BundleAcceptedIff | shared/src/init_bundle.rs:115-219 | the kernel accepts a built bundle exactly if it has a record and only known kinds, and returns the records |
| InitBundle.BuiltButRefused | scripts/build-image.py:137-159 | an empty bundle and one of kind 7 are built and refused |
| InitBundle.NestedRoundTrip | scripts/build-image.py:111-159 | the records come back through both layers |
| Manifest.ManifestWriter.Push | scripts/build-phase13-package-fixture.py:80-88 | appends the record, or the fields before the first one that overflows |
| Manifest.ManifestWriter.constructor | scripts/build-phase13-package-fixture.py:185-186 | starts with the header for the announced number of records |
| Manifest.ManifestRecords | scripts/build-phase13-package-fixture.py:244-265 | the loop with its running offset computes the parse function |
| Manifest.ParseSerialised | scripts/build-phase13-package-fixture.py:80-88 | parsing the serialisation of any encodable records returns them |
| Manifest.SerialiseParsed | scripts/build-phase13-package-fixture.py:244-265 | whatever is accepted is the serialisation of what is returned, cut slices included |
| Manifest.KernelParseIff | shared/src/package_format.rs:86-128 | the kernel accepts exactly the parseable manifests of at most 256 admissible records in key order |
| Manifest.CheckedRecordIff | shared/src/package_format.rs:315-363 | one record is accepted exactly if it has no flags, fits and is admissible |
| Manifest.AcceptedKeysDistinct | shared/src/package_format.rs:103-115 | in an accepted manifest all keys increase, so none occurs twice |
| Package.ValidateContentTable | shared/src/package_format.rs:423-445 | the loop accepts exactly the tables whose entries are in order, in range and digest to their hash, and otherwise returns the first fault of the first refused entry |
| Package.TableRefusalUnique | shared/src/package_format.rs:423-445 | the specified error of a table is determined, and excludes acceptance |
| Package.ParseArtifact | shared/src/package_format.rs:175-246 | the sequence of checks accepts exactly the specified artifacts and returns their parts, and otherwise returns the first fault, digests before contents |
| Package.RefusalUnique | shared/src/package_format.rs:175-246 | the specified error is determined by the bytes, and excludes acceptance |
| Package.DomainIgnoresDigest | scripts/build-phase13-package-fixture.py:45-50 | the digest domain does not depend on the digest |
| Package.ArtifactAcceptedIff | scripts/build-phase13-package-fixture.py:109-127 | the kernel accepts a built artifact exactly if regions fit and manifest and table are acceptable, and returns them |
| Package.TamperingNeedsCollision | shared/src/package_format.rs:229-232 | two accepted artifacts under one digest are a collision of the hash |
| PackageBuilder.PutContentEntry | scripts/build-phase13-package-fixture.py:91-106 | the seven in-place writes produce one entry and leave the rest of the table alone |
| PackageBuilder.TableRoundTrip | scripts/build-phase13-package-fixture.py:206-223 | the kernel accepts a content table exactly up to 64 items and reads payload, role, format and extent count of each back |
| PackageBuilder.BuildTwoEntryTable | scripts/build-phase13-package-fixture.py:206-223 | the fixture's two calls produce the content table of its two items |
| PackageBuilder.BuildArtifact | scripts/build-phase13-package-fixture.py:109-127 | header, digest and splice produce the specified artifact, and fail exactly if an offset or a length overflows its field |
| PackageBuilder.PackageRoundTrip | scripts/build-phase13-package-fixture.py:151-224 | records and contents of a package come back out of the kernel's parser |
| InternetChecksum.FoldAllIsResidue | scripts/test-ipv4.py:99-104 | folding after every word stays within 16 bits and computes the canonical residue modulo 65535 |
| InternetChecksum.FoldLoops | scripts/test-ipv4.py:99-105 | the two loops compute the complement of that residue |
| InternetChecksum.OnesComplementChecksum | scripts/test-ipv4.py:96-105 | odd buffers are refused |
| InternetChecksum.PaddedChecksum | scripts/test-dns.py:103-112 | odd buffers are padded |
| InternetChecksum.ChecksumOrderIndependent | scripts/test-ipv4.py:96-105 | permuting the words keeps the checksum |
| InternetChecksum.ChecksumByteOrderIndependent | scripts/test-ipv4.py:96-105 | swapping the bytes of all words swaps the bytes of the checksum |
| InternetChecksum.InsertedVerifiesIff | scripts/test-ipv4.py:131-132 | a written checksum verifies exactly if the field is aligned or 257 divides the sum of the words |
| InternetChecksum.EqualBytesIff | scripts/test-ipv4.py:96-105 | the two checksum bytes are equal exactly if 257 divides the sum of the words |
| InternetChecksum.ReplacedWordUnseenIff | scripts/test-ipv4.py:161-162 | exactly which replacements of one word a verifying buffer does not notice |
| InternetChecksum.FieldUnique | scripts/test-ipv4.py:161-162 | only one field value verifies, or 0xFFFF in place of 0 |
| Datagrams.Ipv4Header | scripts/test-ipv4.py:108-132 | succeeds exactly for encodable arguments, and the header verifies |
| Datagrams.Ipv4RoundTrip | scripts/test-ipv4.py:146-175 | under any padding, parsing returns exactly what was encoded |
| Datagrams.AcceptedIsEncodedIff | scripts/test-ipv4.py:146-175 | exactly which accepted datagrams the encoder would have produced |
| Datagrams.AcceptedIsNotEncoded | scripts/test-ipv4.py:146-175 | a UDP header is accepted and is not what the probe sends |
| Datagrams.UdpDatagram | scripts/test-dns.py:115-120 | builds the specified datagram, or fails exactly on overflow |
| Datagrams.UdpRoundTripIff | scripts/test-dns.py:115-120 | a receiver gets ports and payload back exactly if the addresses have an even total length or 257 divides the sum of the words |
| Datagrams.OddAddressesUnverified | scripts/test-dns.py:115-120 | with one address byte in all the datagram does not verify |
| Datagrams.UdpOverIpv4RoundTrip | scripts/test-dns.py:115-141 | UDP inside IPv4 inside padding comes back |
| Datagrams.EthernetFrame | scripts/test-ipv4.py:205-213 | fails exactly on bad addresses, type or length; the sixty bytes hold addresses, type, payload and zeros at their places |
| Datagrams.FramedRoundTrip | scripts/test-ipv4.py:205-213 | a datagram has a frame exactly up to 46 bytes, and the padding does not reach the parser |
| StatusLine.FormatParses | scripts/test-normal-session.py:153-156 | a formatted number parses to itself |
| StatusLine.FormatWidth | scripts/test-normal-session.py:153-156 | a field keeps its width exactly while the number fits |
| StatusLine.ParseFormats | scripts/test-normal-session.py:159-167 | formatting a parsed field returns its digits |
| StatusLine.PrintParsesIff | scripts/test-normal-session.py:159-167 | a consistent status is read back exactly if its counters fit 64 bits |
| StatusLine.WideCounterUnreadable | scripts/test-normal-session.py:151-167 | a counter of 2^64 makes the line unreadable |
| StatusLine.AcceptedIsPrinted | scripts/test-normal-session.py:159-167 | every accepted line is the printed form of what was parsed |
| Session.StatusOracle.AcceptKey | scripts/test-normal-session.py:135-142 | one key refines the step function |
| Session.StatusOracle.AcceptKeys | scripts/test-normal-session.py:133-142 | a tuple of keys is the run of its key events |
| Session.StatusOracle.AcceptMotion | scripts/test-normal-session.py:144-149 | a motion refines the step function |
| Session.StatusOracle.NextStatusLine | scripts/test-normal-session.py:151-156 | counts the command and prints the new state |
| Session.StatusOracle.constructor | scripts/test-normal-session.py:120-127 | starts inactive, with all counters zero |
| Session.ReachableInvariant | scripts/test-normal-session.py:117-149 | over every run the counters count, the cursor is in the viewport, and at the origin while inactive |
| Session.StatusLineReadable | scripts/test-normal-session.py:151-167 | in every reachable state the status line is read back exactly while the counters fit |
| Session.WindowInvariant | scripts/test-normal-session.py:137-140 | until activation the window is the last four keys of the run |
| Session.ActiveIff | scripts/test-normal-session.py:137-142 | over every run the oracle is active exactly if the four keys occurred in a row, motions ignored |
| Session.ActiveForever | scripts/test-normal-session.py:137-142 | activation is never undone |
| Session.CursorAfterActivation | scripts/test-normal-session.py:142-149 | from the activating key on the cursor is the clamped walk of the later motions from the centre |
| Session.ActivationMoment | scripts/test-normal-session.py:137-142 | every active run has such a key |
| Markers.Find | scripts/test-boot.py:1785 | the first place at or behind the cursor |
| Markers.GreedySound | scripts/test-boot.py:1783-1788 | the places found are ordered and do not overlap |
| Markers.GreedyComplete | scripts/test-boot.py:1783-1788 | if any placement exists, the scan succeeds and each place is the earliest possible |
| Markers.GreedyIffPlaceable | scripts/test-boot.py:1783-1788 | the scan succeeds exactly if some placement exists |
| Markers.AssertMarkers | scripts/test-boot.py:1778-1788 | accepts exactly the failure-free logs in which all markers can be placed |
| Markers.InsertBeforeSplits | scripts/test-boot.py:741-743 | the additions go before the first occurrence |
| Markers.AcceptsWithout | scripts/test-boot.py:1778-1788 | leaving out a stretch of markers keeps a log acceptable |
| Markers.AcceptsBeforeInsertion | scripts/test-boot.py:741-743 | a log accepted with the additions is accepted without them |
| Markers.AcceptsPrefix | scripts/test-boot.py:1778-1788 | a log accepted for a list is accepted for its prefixes |
| Markers.AcceptsWithMore | scripts/test-boot.py:1778-1788 | more output refuses an accepted log only through a failure marker |
| Lines.SplitJoins | scripts/qemu_probe_support.py:475 | splitting loses nothing and leaves no newline in a part |
| Lines.SplitUnique | scripts/qemu_probe_support.py:475 | splitting is the only such way to cut a text |
| Lines.SplitAppends | scripts/qemu_probe_support.py:474-476 | only the unfinished line matters for what comes next |
| Lines.FeedExtends | scripts/qemu_probe_support.py:474-480 | feeding one piece keeps the collector at the lines of the whole text |
| Lines.ChunkIndependent | scripts/qemu_probe_support.py:474-480 | however a stream is cut, lines and unfinished line are those of the whole text |
| Lines.SeenIsFileIff | scripts/qemu_probe_support.py:340-346 | a poll shows the file exactly if it was appended to or got shorter |
| Lines.ReplacedLogUnseen | scripts/qemu_probe_support.py:340-346 | a log replaced by one of the same length is not seen |
| Utf8.DecodeEncoded | scripts/qemu_probe_support.py:345 | decoding undoes encoding, whatever bytes follow |
| Utf8.DecodeCut | scripts/qemu_probe_support.py:345 | the start of a character decodes to one replacement character |
| Utf8.DecodeStray | scripts/qemu_probe_support.py:345 | the rest of a character decodes to one replacement character for each byte |
| Utf8.CutDecodes | scripts/qemu_probe_support.py:345 | both sides of a cut of any bytes decode to the whole if the cut is at a boundary of the decoder, and to too many visible characters otherwise |
| Utf8.PiecesDecodeIff | scripts/qemu_probe_support.py:345 | any bytes decoded piece by piece are the bytes decoded as a whole exactly if every piece starts at a boundary |
| Utf8.EncodedCleanIff | scripts/qemu_probe_support.py:345 | for the bytes of a text, that is exactly if no piece starts inside a character |
| Utf8.CutCharacterDecodesWrong | scripts/qemu_probe_support.py:345 | a two-byte character in two pieces becomes two replacement characters |
| Receivers.Com2Collector.constructor | scripts/qemu_probe_support.py:466-472 | starts with nothing captured and no line |
| Receivers.Com2Collector.RecordCompleteLines | scripts/qemu_probe_support.py:474-480 | one piece refines the feed function; exactly the new lines are recorded, in order |
| Receivers.Com2Collector.Receive | scripts/qemu_probe_support.py:495-496 | after a chunk the lines are those of the whole captured stream |
| Receivers.Com2Collector.ReadUntil | scripts/qemu_probe_support.py:482-499 | over any turns of the loop, none included, the lines are those of the whole captured stream, each recorded once; it returns exactly if there is a turn and the marker is complete, and stops at the first chunk that completes it |
| Receivers.WholeKeepsVisible | scripts/qemu_probe_support.py:347-350 | cutting a text into lines loses line ends only |
| Receivers.PiecesShowFileIff | scripts/qemu_probe_support.py:345-351 | the lines of any file read in pieces are those of the file decoded as a whole exactly if every piece starts at a boundary |
| Receivers.PiecesShowTextIff | scripts/qemu_probe_support.py:345-351 | the lines of the file of a text are those of the text exactly if no piece starts inside a character |
| Receivers.SerialTail.constructor | scripts/qemu_probe_support.py:328-334 | starts with nothing seen |
| Receivers.SerialTail.AddLines | scripts/qemu_probe_support.py:349-352 | the loop strips each line and records it in order |
| Receivers.SerialTail.Poll | scripts/qemu_probe_support.py:336-353 | lines and remainder are those of the pieces decoded so far; a missing file changes nothing, a shorter one starts over |
| Receivers.SerialTail.PollGrowing | scripts/qemu_probe_support.py:336-353 | polls of a growing file have seen its last content and recorded each line once and in order |
| Receivers.SerialTail.PollAll | scripts/qemu_probe_support.py:336-353 | a new tail shows the file decoded as a whole exactly if every poll started at a boundary, whatever the bytes are |
| Timeline.InOrderIffProjection | scripts/test-ipv4.py:375-384 | counting once and comparing neighbours accepts exactly if the projection is the required list without duplicates |
| Timeline.ExactOrderedMarkers | scripts/test-ipv4.py:375-384 | the loop accepts exactly if the log filtered to the required markers is the required list |
| Timeline.Matches | scripts/test-ipv4.py:375-384 | finds exactly the positions of a marker, in order |
| Timeline.AcceptanceTimeline.Record | scripts/qemu_probe_support.py:284-286 | appends one event and keeps the others |
| Timeline.AcceptanceTimeline.AssertBefore | scripts/qemu_probe_support.py:309-322 | both events occur once and in this order |
| Timeline.AcceptanceTimeline.AssertLive | scripts/test-ipv4.py:424-434 | the chain accepts exactly if the events filtered to the expected ones are the expected list |
| Capabilities.CheckEntry | scripts/test-network-hardware-capability-probe.py:271-300 | one turn accepts exactly a locally valid, new and linked entry, or returns the first fault |
| Capabilities.Validate | scripts/test-network-hardware-capability-probe.py:266-301 | the loop with its growing set of offsets accepts exactly the specified lists, and otherwise returns the first fault of the first refused entry |
| Capabilities.RefusalUnique | scripts/test-network-hardware-capability-probe.py:266-301 | the specified refusal is determined by the entries, and excludes acceptance |
| Capabilities.AcceptedIffWalk | scripts/test-network-hardware-capability-probe.py:266-301 | for entries of one configuration space, accepted means locally valid and the complete walk from the first offset |
| Capabilities.EndingWalkIsSimple | scripts/test-network-hardware-capability-probe.py:281-283 | a walk that ends passes no offset twice |
| Capabilities.AcceptedHasSpace | scripts/test-network-hardware-capability-probe.py:266-301 | every accepted list is the walk of some configuration space |
| Capabilities.LimitIsImplied | scripts/test-network-hardware-capability-probe.py:267-268 | the limit of 48 entries follows from the other checks |
| Capabilities.SummaryMatches | scripts/test-network-hardware-capability-probe.py:318-328 | accepts exactly the summaries that report the first offset of each kind |
| Capabilities.MatchingSummaryIsDistinct | scripts/test-network-hardware-capability-probe.py:312-314 | a summary that matches accepted entries never trips the duplicate check |
| CapabilityText.EntryLineIff | scripts/test-network-hardware-capability-probe.py:252-263 | a line is read as an entry exactly if it is how the kernel prints that entry |
| CapabilityText.SummaryLineIff | scripts/test-network-hardware-capability-probe.py:304-311 | a line is read as a summary exactly if it is how the kernel prints that summary |
| CapabilityReport.ParseCapabilityList | core/src/network_hardware_capability_probe.rs:40-102 | the kernel's loop succeeds exactly on traversable lists, returns the walk and the first offset of each kind, and otherwise the first fault on the trail |
| CapabilityReport.TrailEnds | core/src/network_hardware_capability_probe.rs:63-101 | a trail that reaches the null pointer is accepted by the script and is the complete walk |
| CapabilityReport.WalkFollowsTrail | core/src/network_hardware_capability_probe.rs:63-99 | a complete walk goes along every trail |
| CapabilityReport.TraversableGoesOn | core/src/network_hardware_capability_probe.rs:63-87 | on a traversable list no check of the kernel fires |
| CapabilityReport.ClaimsTwiceIff | scripts/test-network-hardware-capability-probe.py:312-314 | counting the claimed offsets finds exactly the repeated ones |
| CapabilityReport.CheckReport | scripts/test-network-hardware-capability-probe.py:387-423 | accepts exactly the reports whose lines parse to an accepted traversal from the printed pointer |
| CapabilityReport.AcceptedIffReported | scripts/test-network-hardware-capability-probe.py:411-423 | of entries in one configuration space exactly the kernel's own walk from the pointer is accepted |
| CapabilityReport.ConfigWith | core/src/network_hardware_capability_probe.rs:76-77 | accepted entries fit into one configuration space without touching each other |
| CapabilityReport.EmittedIsAccepted | core/src/network_hardware_capability_probe_boot.rs:24-45 | whatever the kernel prints is accepted, and its status is one byte |
| CapabilityReport.AcceptedIsEmitted | core/src/network_hardware_capability_probe_boot.rs:24-45 | an accepted report with a status of one byte is what the kernel prints for any device, on a configuration space that holds status, pointer and entries |
| CapabilityReport.ReportIffEmitted | scripts/test-network-hardware-capability-probe.py:375-423 | for every device, the accepted reports with a status of one byte are exactly those that the kernel can print |
| CapabilityReport.WideStatusAccepted | scripts/test-network-hardware-capability-probe.py:370-387 | the report with status 0x110 and an empty list is accepted and never printed |
| CapabilityTranscript.SlotOfIff | scripts/test-network-hardware-capability-probe.py:375-402 | the starts that the script looks for exclude each other |
| CapabilityTranscript.StatusIff | scripts/test-network-hardware-capability-probe.py:370-386 | a status line is read exactly if it is how the kernel prints a 64-bit value |
| CapabilityTranscript.PointerIff | scripts/test-network-hardware-capability-probe.py:382-385 | a pointer line is read exactly if it is how the kernel prints a byte |
| CapabilityTranscript.ArrangedIffOnce | scripts/test-network-hardware-capability-probe.py:375-411 | the counts and comparisons say exactly that the lines are arranged in order with the entries in between |
| CapabilityTranscript.Only | scripts/test-network-hardware-capability-probe.py:185-200 | finds the one line of a kind, or there is none or more than one |
| CapabilityTranscript.OnlyState | scripts/test-network-hardware-capability-probe.py:375-381 | finds the one list state, whichever it is |
| CapabilityTranscript.FindSection | scripts/test-network-hardware-capability-probe.py:375-411 | finds the section exactly if its lines are arranged |
| CapabilityTranscript.CheckTranscript | scripts/test-network-hardware-capability-probe.py:369-423 | accepts exactly the transcripts with an arranged section whose report is accepted |
| CapabilityTranscript.TranscriptIff | scripts/test-network-hardware-capability-probe.py:369-423 | accepted are exactly the transcripts whose capability lines, everything else left out, are a whole accepted report in order |
| CapabilityTranscript.TranscriptIffEmitted | scripts/test-network-hardware-capability-probe.py:369-423 | with a status of one byte these are exactly the transcripts whose capability lines the kernel prints for some configuration space |

## Left out

- QEMU, sockets, threads, locks, timeouts and command lines: input and output around the logic. What a socket returns is a parameter.
- The 8.3 conversion of file names: the names are given as stored.
- Runtime payload headers, native bindings, named graphs and package source records: headers of the same shape as the named program.
- The DNS script's IPv4 header with addresses of other lengths than four, which are cut or padded without an error.
- The substitution of 0xFFFF for a zero UDP checksum (RFC 768): the scripts do not do it, so the model does not.
- FatLayout.Fat16Layout: takes only the sizes for which the original returns; `FatLayout.LoopExitsIffSizeable` says that these are all of them.
- Timeline.ExactOrderedMarkers: takes the lines as given; `str.splitlines` also cuts at other separators than newlines.
- CapabilityTranscript.CheckTranscript: the identity, interrupt and terminal markers around the traversal section, and the forbidden fragments, are not modelled; they are further checks of single lines and their order.
- Draining COM2 after the runner's exit, and moving events of a timeline.
- The pixel and ELF checks of the normal session.
- The kernel itself beyond the validators and the capability walk named above.
