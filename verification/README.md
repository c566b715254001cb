# A verified model of the volume analysis

The program opens a disk image as untrusted evidence, reads its partition
table, validates each FAT32 volume, walks every directory breadth first,
searches the free clusters for directories nothing names any more, and says of
every lost file whether its clusters are still free. Where asked, it reads
those clusters back, hashes them and writes them out. A second part chooses and
validates an exFAT volume's boot region.

This project models that behaviour in Dafny and proves what the design relies
on. Nothing in it is run; its claims are the verifier's.

## How the model is put together

- `Machine`, `Wrappers`, `Evidence`: bounded integers with explicit checked,
  saturating and wrapping operations; results; an evidence reader over a fixed
  byte sequence. A reliable reader serves every range the image holds, any other
  may fail any read. Every range asked for is remembered, so "no read leaves the
  volume" is a statement about a run.
- `Partition`, `Filesystems`, `Fat`, `Fat32`, `FatLayout`: from untrusted bytes
  to validated geometry, and where clusters and FAT entries lie.
- `TableBytes`, `BootBytes`, `EntryBytes`, `OrphanBytes`, `WalkNames`,
  `ExFatRefusals`: the same results said of the bytes themselves, at literal
  offsets, without the functions that compute them.
- `RotateAdd`: the rotate-and-add fold both checksums are, at any even modulus.
- `FatDirectory`, `FatEnumerate`, `ChainErrors`, `FatListing`, `FatNotes`,
  `FatDeleted`, `FatUnlinkable`: directory entries, cluster chains and why they
  fail, listings and their observations, deleted directories, and clusters no
  chain can reach.
- `FatRecovery`, `ArtifactPath`, `Extraction`: eligibility of a lost entry,
  assessment against the FAT, and the artifact writer against a destination
  whose every operation may fail.
- `Events`, `Trace`, `DirectoryWalk`, `OrphanSearch`: the events a run reports
  and their tally; how reports on structure and on content are interleaved; the
  walk as a state machine over its visits; what the search reports.
- `Session`, `VolumeWalk`, `Analysis`: the methods that do the work, each proved
  against those specifications. `RunReport`, `VolumeReports` and
  `RunConclusions` say what a whole run reports and what follows from it.
- `ExFat`, `ExFatChecksum`, `ExFatGeometry`, `ExFatBoot`, `ExFatFallback`,
  `ExFatMisplaced`: the exFAT boot region.

Method specifications compare a result with the fault-free answer the image
determines: equal to it, unless a read failed, which cannot happen where the
reader is reliable and the image holds the volume.

## Findings

- The FAT32 parser does not bound the cluster count at 0x0FFFFFF5. Above that,
  clusters exist that no FAT entry can lead to, because the same values mark bad
  clusters and ends of chains. Every data cluster can be linked to if and only
  if the count is at most 0x0FFFFFF5 (`EveryClusterLinkableIff`), and
  `TooManyClustersAccepted` gives a boot sector and an extent that pass the
  parser with more. Nothing else proved here depends on the bound.
- An exFAT backup boot region taken from where the main region's sector size
  puts it need not declare that sector size (`src/exfat_boot.rs:522-531`); only
  one found by searching must (`src/exfat_boot.rs:590`). It declares another
  exactly when byte 108 of the backup, twelve of the main region's sectors in,
  is smaller than byte 108 of sector 0 and the backup is the region used
  (`BackupDeclaresItsSizeUnless`). So the size is never larger, and never
  different where sector 0 says 512 bytes. `DirectBackupMayDeclareAnotherSize`
  gives an image where it is smaller.
- The comment at `src/fat_directory.rs:429-431` says entries and residue may
  together come to about twice the entry limit. They never exceed it
  (`ListingFitsLimit`), and the second `TooLarge` is never returned for a
  directory of an accepted volume.

## Model

| member | source | states |
|---|---|---|
| `Analysis.Run` | src/analysis.rs:622-689 | for every image, length, reader and destination: the counts are the tally of the events; the events are, one by one and in order, those of an accounted-for report; no read passes the measured length; no fault is reported where reads cannot fail; and the artifacts asked for are those of the runs reported free, each at its own entry's path |
| `Analysis.Analyse` | src/analysis.rs:622-689 | a run could not read the table, rejected it, or reports each listed partition in order, with the table's anomalies after |
| `Analysis.ReportTable` | src/analysis.rs:635-673 | a parsed table's events: signature, listed partitions, each partition's report in order, and every anomaly |
| `Analysis.ReportPartitions` | src/analysis.rs:647-649 | every listed partition is reported once, in order, and artifacts are asked for under its own index only |
| `Analysis.ReportPartition` | src/analysis.rs:697-755 | a partition is unread only where a read can fail; otherwise its identification, boot sector verdict and volume are those its bytes determine |
| `Analysis.ReportRootDirectory` | src/analysis.rs:763-841 | a root is unread exactly for the reason its chain gives, or a failed read; otherwise the volume is walked to the end and searched, and every entry of every directory is reported on |
| `Analysis.WalkVolume` | src/analysis.rs:781-840 | the walk of a volume is a finished run from its root, followed by the search, with content reported for every listed entry |
| `RunConclusions.RunAddsUp` | src/analysis.rs:518-583 | over any run: gaps counted equal gaps reported, each of the three verdicts holds exactly when the gaps and the roots read are what it says, artifacts and differences equal their events and subtract no more than there is, fault counts are zero where reads cannot fail, every path asked for is distinct, a path found taken was there before, and files there before are unchanged |
| `RunConclusions.RunIsDecided` | src/analysis.rs:622-689 | where every in-range read is served, any two runs over an image report the same structure and, with no destination, the same events throughout |
| `RunConclusions.NoFaultsCounted` | src/analysis.rs:518-534 | a trace with no fault leaves the table, partition, assessment, extraction and search fault counts at zero |
| `RunConclusions.DirectoriesUnreadAreEvents` | src/analysis.rs:971-980 | directories unread equal the walked names not read plus the orphaned listings' names not read |
| `RunConclusions.RootReportsAgree` | src/analysis.rs:763-841 | where reads cannot fail, a volume has one structure to report and, with no destination, one report |
| `RunConclusions.RootSkeleton` | src/analysis.rs:763-841 | the structural events of a volume's report are its walk and its search, whatever is said of its entries |
| `RunConclusions.PartitionReportsAgree` | src/analysis.rs:697-755 | where reads cannot fail, a partition has one structure to report and, with no destination, one report |
| `RunConclusions.SkeletonKeepsCounts` | src/analysis.rs:518-534 | counts of structural events do not depend on the content events between them |
| `Trace.WovenHolds` | src/analysis.rs:1143-1179 | a trace in which every listing is followed by the reports on its entries holds exactly those events, each kind in its own order |
| `Trace.WovenOneMore` | src/analysis.rs:1143-1179 | one more directory and the reports on its entries come last, and change nothing before them |
| `Session.BalancesListing` | src/analysis.rs:1143-1179 | reporting one directory and then each of its entries keeps the account of a volume: the events, and the artifacts asked for, are those of the reports so far |
| `RunReport.ListedPartitions` | src/analysis.rs:643-649 | the partitions a run goes through lie inside the measured image, each under an index of its own |
| `RunReport.HeldFits` | src/partition.rs:315-323 | a listed partition's whole extent, and so its first sector, lies inside the image |
| `VolumeReports.VolumeClustersDistinct` | src/analysis.rs:870-897 | over a whole volume's report, the cluster lists of root, walked and orphaned directories are duplicate-free and pairwise disjoint, whatever the evidence links |
| `VolumeReports.OrphansReportedAreExact` | src/analysis.rs:870-897 | a cluster is reported as an orphaned directory if and only if it is an unseen, unnamed, free data cluster beginning with `.` naming itself and `..`, each once and in order; a stopped search says the same of the clusters before the stop |
| `VolumeReports.VolumeNamesAreConserved` | src/analysis.rs:822-836 | the directories named by root and walked listings are answered one for one and in order, as read or as not read, and nothing else counts as unread but orphaned names |
| `VolumeReports.UnreadNamesAreExact` | src/analysis.rs:971-980 | a name in an orphaned listing is reported unread if and only if no directory at its cluster was read |
| `VolumeReports.RootIsItsChain` | src/analysis.rs:763-781 | a root is read if and only if a chain leads from its root cluster, as the listing of that one chain, and is unread with an error exactly where the links lead to it |
| `VolumeReports.SearchReads` | src/analysis.rs:854-981 | the directories a search reports are the orphans, each of its own one cluster |
| `VolumeWalk.VolumeWalk.VisitAll` | src/analysis.rs:822-836 | the walk terminates on every image, by the data clusters not seen and then the queue, and ends with every named directory visited |
| `VolumeWalk.VolumeWalk.VisitNext` | src/analysis.rs:822-836 | each visit reads a cluster never read before, or leaves the queue shorter |
| `VolumeWalk.VolumeWalk.ReportSubdirectory` | src/analysis.rs:1058-1180 | one visit extends the run by one legal step: depth limit, then seen clusters, then the reading, then cross-links |
| `VolumeWalk.VolumeWalk.Accept` | src/analysis.rs:1141-1155 | a directory read adds exactly its own clusters to those seen, is reported, and queues what it names |
| `VolumeWalk.VolumeWalk.Decline` | src/analysis.rs:1075-1140 | a directory not read is reported with a legal reason and adds nothing else |
| `VolumeWalk.VolumeWalk.QueueSubdirectories` | src/analysis.rs:989-1036 | what a listing names is queued after what was there; which entries those are, and how each stands in the queue, is `QueueIsTheFollowed` |
| `WalkNames.QueueIsTheFollowed` | src/analysis.rs:989-1036 | the queue of a listing is its followed entries in order, residue after entries, each once: a live directory queued as live and a deleted one as deleted, at the first cluster its entry gives, one level deeper, under its parent's path |
| `WalkNames.PlacesAreExact` | src/analysis.rs:995-1022 | the followed entries are exactly the live directories that are not `.` or `..` and the deleted directories, each once and in order |
| `WalkNames.NamedAtStands` | src/analysis.rs:995-1034 | an entry is followed if and only if it is one of those, with its own name, or the one its component's checksum restores, or `?` for the byte lost, or its cluster's number |
| `WalkNames.LiveVerdict` | src/analysis.rs:1075-1141 | a directory named live is read exactly where it is at most 128 levels down and has a chain that meets no directory before it, and then as the listing of that chain |
| `WalkNames.DeletedVerdict` | src/analysis.rs:1075-1141 | a directory named as deleted is read exactly where it is at most 128 levels down, its first cluster is unseen, free and begins with its own `.` and `..`, and then from that cluster alone |
| `WalkNames.LiveVisitsAreRead` | src/analysis.rs:1058-1180 | in every run each visit to a live name with such a chain reads its listing, unless a read failed, and no other does |
| `WalkNames.LiveRefusals` | src/analysis.rs:1075-1141 | why a directory named live is not read: too deep exactly below 128 levels, already read exactly at the first cluster of its own that was, and a chain's error exactly where the links lead to it |
| `WalkNames.DeletedRefusals` | src/analysis.rs:1075-1141 | why a directory named as deleted is not read: too deep, its cluster read before, no such cluster, or refused for what its FAT entry and first two slots hold; and when one that is read may continue |
| `WalkNames.WalkEventsAreExact` | src/analysis.rs:1075-1155 | a walk reports the root, and of every visit its verdict under its own path and kind, with a note where the listing may continue, and nothing else |
| `WalkNames.ListedAreTheFollowed` | src/analysis.rs:914-943 | the names an orphaned listing gives are its followed entries too, each once and in order, under its holder |
| `VolumeWalk.VolumeWalk.ReportListing` | src/analysis.rs:1156-1179 | every entry and every residue entry of a directory is reported on, once, straight after the directory itself, and no place is asked for twice |
| `VolumeWalk.VolumeWalk.SearchOrphanedDirectories` | src/analysis.rs:854-981 | the search reports exactly the orphans and then the names no one read, or the orphans before the cluster whose read failed |
| `VolumeWalk.VolumeWalk.SearchCluster` | src/analysis.rs:869-897 | one cluster of the search: passed over, found, or the read that stops it |
| `VolumeWalk.VolumeWalk.ReportOrphan` | src/analysis.rs:897-968 | an orphan is marked seen, reported with its parent, and its names and content are recorded |
| `VolumeWalk.VolumeWalk.ReportUnreadNames` | src/analysis.rs:971-980 | the names orphaned listings give and no one read are reported in order |
| `VolumeWalk.ReadNamed` | src/analysis.rs:1094-1129 | a queued directory is read from its first cluster alone if deleted, along its chain if not, and nothing outside the volume is read |
| `VolumeWalk.ExamineCluster` | src/analysis.rs:874-895 | the search's two-stage reading of a cluster finds a directory exactly where a free cluster begins one |
| `VolumeWalk.ListNames` | src/analysis.rs:914-943 | an orphaned listing's names are those its entries give, in order |
| `VolumeWalk.HalvesDiffer` | src/analysis.rs:795-820 | the entries and the residue of a listing lie at different places, so no artifact is asked for twice |
| `DirectoryWalk.RunClustersDistinct` | src/analysis.rs:1083-1141 | at every point of every run no cluster belongs to two directories, or to one twice |
| `DirectoryWalk.RunIsBreadthFirst` | src/analysis.rs:1028-1033 | at every point of every run names are in order of depth and reach at most one level below the last visit, and reported directories are in order of depth, all but the root at depth 1 to 128 |
| `DirectoryWalk.QueueSpansTwoLevels` | src/analysis.rs:1028-1033 | at every point of every run the queue is in order of depth, and no two directories on it are more than one level apart |
| `DirectoryWalk.VisitHasParent` | src/analysis.rs:989-1036 | every directory visited is named by an entry that is not a dot entry, in the root or a directory reported before |
| `DirectoryWalk.VisitsAreNames` | src/analysis.rs:822-836 | visits are in order of naming, each name visited once |
| `DirectoryWalk.NamesGrow` | src/analysis.rs:1028-1033 | names are only ever added, after those already there |
| `DirectoryWalk.NamesAreConserved` | src/analysis.rs:1058-1129 | a finished run answers the names one for one and in order, each by one report that it was read or that it was not |
| `DirectoryWalk.ReportsAreBounded` | src/analysis.rs:785-790 | there are at most as many reported directories as data clusters |
| `DirectoryWalk.FinishedRunIsUnique` | src/analysis.rs:822-836 | where no read fails, two finished runs from one root are the same run |
| `DirectoryWalk.LegalReadIsFresh` | src/analysis.rs:1131-1141 | a directory that is reported shares no cluster with any before it |
| `DirectoryWalk.ReadingIsListing` | src/analysis.rs:1094-1129 | a directory read is the listing of its own distinct data clusters, the first of them the one named |
| `DirectoryWalk.VerdictNeverFaults` | src/analysis.rs:1094-1129 | no verdict the evidence determines is an unreadable range or an overflowing offset |
| `DirectoryWalk.Advance` | src/analysis.rs:1058-1180 | how one legal visit changes what is seen, given, queued and reported |
| `DirectoryWalk.FirstSharedMeaning` | src/analysis.rs:1131-1141 | the cross-link check finds a cluster exactly where one is shared, and it is the first of the directory's own that is |
| `OrphanSearch.OrphansAreExact` | src/analysis.rs:870-897 | the search's list is exactly the orphans below its end, each once, in increasing order |
| `OrphanSearch.OrphanIsRead` | src/analysis.rs:875-897 | every orphan is read, as a listing of its one cluster |
| `Session.Session.ReportRecovery` | src/analysis.rs:1192-1338 | for each entry in order, the reports are what the FAT says of the run it implies, and no place is asked for twice |
| `Session.Session.ReportEntry` | src/analysis.rs:1209-1336 | one entry's reports: nothing, why it is ineligible, the first allocated cluster, or a free run and what became of reading it |
| `Session.Session.ReadRun` | src/analysis.rs:1275-1333 | a free run's digest is that of exactly its bytes, its artifact is asked for and reported under its own slot and path, and that path is taken only by a file there before the run |
| `Session.Session.CountDelivery` | src/analysis.rs:1291-1304 | an artifact is counted undelivered exactly when it exists already, could not be created or failed, and the read-back comparison is made exactly when one was written |
| `Session.Session.ReportAnomalies` | src/analysis.rs:657-673 | every anomaly is reported, if there are any, and each that drops an entry is counted as a gap |
| `Session.Session.ReportIdentified` | src/analysis.rs:705-733 | an unidentified and an unsupported filesystem are different gaps, and FAT32 is neither |
| `Session.PathsAreDistinct` | src/extraction.rs:72-77 | the paths of artifacts asked for are pairwise distinct |
| `Session.ExtractionKeepsStore` | src/analysis.rs:1275-1304 | an extraction of a slot never asked for before leaves the destination as it should be, and finds its path taken only by an earlier file |
| `Session.TakenMeansBefore` | src/analysis.rs:1293-1298 | a path never asked for is taken only by a file there at the start |
| `Session.TraceSurvives` | src/extraction.rs:349-394 | later artifacts leave every artifact reported as written in place and reading back as reported |
| `Session.TracePair` | src/analysis.rs:1266-1333 | a free run and its result keep free runs equal to artifacts plus runs not extracted |
| `Events.GapsAreReported` | src/analysis.rs:518-534 | the fifteen gap counts sum to the gaps the events report |
| `Events.CoverageMeaning` | src/analysis.rs:543-551 | a run's verdict from its events: complete exactly when none leaves a gap; nothing analysed exactly when one does and no root directory was read; incomplete exactly when one does and some root was |
| `Events.NoGapIff` | src/analysis.rs:518-534 | the events that leave nothing unread are exactly these kinds, with what they must say |
| `Events.CountsNameTheirEvents` | src/analysis.rs:317-398 | the count of volumes, and each count of the partition table, is zero exactly when no event of its kind is reported |
| `Events.PartitionCountsNameTheirEvents` | src/analysis.rs:317-398 | and so is each count of partitions and their boot sectors and roots |
| `Events.VolumeCountsNameTheirEvents` | src/analysis.rs:317-398 | and each of directories and of entries that could not be read |
| `Events.EntryCountsNameTheirEvents` | src/analysis.rs:317-398 | and each of free and broken runs, matches and ineligible entries |
| `Events.DerivedCountsAreEvents` | src/analysis.rs:559-583 | artifacts, differences and runs not read equal their events, and no saturating subtraction saturates |
| `Events.OutcomesPartition` | src/analysis.rs:577-583 | with a reference every extraction matches or differs; without one none does either |
| `Events.TallyOneMore` | src/analysis.rs:317-398 | what one more event adds to every count |
| `Events.Sink.Record` | src/analysis.rs:278-281 | recording appends one event, and how that changes the tally and both halves of the trace |
| `Partition.ParseMbr` | src/partition.rs:247-377 | the table a sector holds, with everything that is odd about it in order, or why it holds none; what that table is of the sector's bytes is said in `TableBytes` |
| `Partition.ReadSlot` | src/partition.rs:288-340 | one entry is listed exactly when used and held, and what is noted of it is the one thing that is odd about it |
| `TableBytes.TableIsRecognised` | src/partition.rs:247-287 | a sector holds a table exactly when it ends in 55 AA, and a protective one exactly when some slot's type byte is EE |
| `TableBytes.ListedFromBytes` | src/partition.rs:258-340 | at literal offsets: every listed partition has the type at 0x1BE + 16k + 4, the start at + 8 and the count at + 12 of its slot k, little-endian, and a slot is listed exactly when its type is not zero and the image holds its extent; the disk signature is the four bytes at 0x1B8 |
| `TableBytes.NotedFromBytes` | src/partition.rs:288-369 | an anomaly is reported of a table if and only if the sector's bytes are odd in the way it says |
| `TableBytes.NotedBeforeProtective` | src/partition.rs:280-340 | of a protective table only what is odd about the slots before the first protective one is noted |
| `TableBytes.SlotIsNoted` | src/partition.rs:288-340 | one slot's bytes and the one thing noted of them: a blank slot nothing, an unused one that is not blank, no length, an extent past the end, a boot byte that is neither 00 nor 80 |
| `TableBytes.TogetherIsNoted` | src/partition.rs:342-369 | several bootable partitions, overlapping pairs and starts out of order are each noted exactly when the listed partitions are so |
| `TableBytes.BootableCount` | src/partition.rs:342-346 | the count of bootable partitions is how many begin with 80 |
| `TableBytes.OrderMeaning` | src/partition.rs:363-369 | comparing neighbours finds exactly the lists in which some earlier partition starts after a later one |
| `Partition.ListedAreHeld` | src/partition.rs:269-340 | every listed partition is used, non-empty and wholly inside the image, indices increase, and each used entry is listed or noted as dropped |
| `Partition.DropsAreUnlistedEntries` | src/partition.rs:269-374 | a table's anomalies say of exactly as many entries that they were dropped as are used and not listed |
| `Partition.OverlapsAreExact` | src/partition.rs:347-362 | overlaps are noted for exactly the pairs of listed partitions that overlap |
| `Partition.OverlapIsSharedSector` | src/partition.rs:347-362 | two partitions overlap if and only if some sector lies in both |
| `Partition.CompareListed` | src/partition.rs:342-369 | what the listed partitions say together: several bootable ones, overlaps, and entries out of order |
| `Partition.ListedIff` | src/partition.rs:296-340 | an entry is listed exactly when it is used and the image holds it |
| `Partition.FirstProtective` | src/partition.rs:280-287 | a protective entry in any slot is found, at the first such slot |
| `Fat32.ParseAcceptsConformant` | src/fat32.rs:240-419 | a boot sector is accepted if and only if it meets the specification and its extent, in unbounded arithmetic; a 16-bit sector count never passes |
| `Fat32.BpbIsBytes` | src/fat.rs:23-32 | the ten fields of the parameter block are the bytes at the specification's offsets |
| `BootBytes.IdentifyMeaning` | src/filesystem.rs:212-264 | a sector is identified as exFAT, NTFS, FAT12, FAT16, FAT32 or nothing exactly as its bytes are in unbounded arithmetic, with 4085 and 65525 clusters as bounds |
| `BootBytes.UnknownsAreTrue` | src/fat.rs:94-222 | where nothing is identified the reason given is true of the bytes, with its values |
| `BootBytes.AcceptedFieldsAreBytes` | src/fat32.rs:240-419 | every field, derived count and observation of an accepted boot sector is this of its bytes, and the FAT in use is that of the low four bits of byte 0x28 where its top bit is set, else the first |
| `BootBytes.RefusalsAreTrue` | src/fat32.rs:240-394 | every refusal of a boot sector names a rule its bytes break, with the numbers it breaks it by |
| `Fat32.ParseIsSound` | src/fat32.rs:240-419 | accepted geometry is sound: metadata and clusters fit the volume, the volume its extent, every cluster has a FAT entry, and the active FAT exists |
| `Fat32.SoundNeverWraps` | src/fat.rs:72-91 | on sound geometry no unchecked 32-bit operation wraps, no saturating one saturates, and the data cluster range is never truncated |
| `Fat32.NoRoomIn16Bits` | src/fat32.rs:345-355 | a FAT large enough for 65,525 clusters cannot be described by a 16-bit sector count |
| `Fat32.ExactMetadata` | src/fat.rs:181-215 | an identified volume's cluster count is computed from the exact metadata size |
| `Fat.MetadataSectorsExact` | src/fat.rs:187-198 | the saturating multiplication never hides an overflow, because something is reserved |
| `FatLayout.ClusterPlacement` | src/fat_directory.rs:769-782 | no data cluster's offset overflows, each lies inside the extent, and clusters are laid end to end |
| `FatLayout.ClustersAreDisjoint` | src/fat_directory.rs:769-782 | distinct clusters share no byte |
| `FatLayout.ClustersAreContiguous` | src/fat_recovery.rs:523-548 | consecutive clusters are consecutive bytes |
| `FatLayout.FatEntryPlacement` | src/fat_directory.rs:791-810 | no cluster's FAT entry offset overflows, and it lies inside the active FAT, which ends before the data region; where that FAT begins is `FatsFillTheGap` |
| `BootBytes.FatsFillTheGap` | src/fat_directory.rs:791-810 | FAT 0 begins after the reserved sectors, each FAT begins where the one before ends, and the last ends where cluster 2 begins |
| `BootBytes.PlacesFromBytes` | src/fat_directory.rs:769-810 | the byte a cluster begins at, and the byte its FAT entry begins at, in the FAT in use, as arithmetic on an accepted sector's bytes |
| `BootBytes.EntryFromBytes` | src/fat_directory.rs:1204-1215 | a FAT entry is the low 28 bits of four bytes of the image, little-endian |
| `FatLayout.FatPlacement` | src/fat32.rs:209-229 | every FAT ends before the first data cluster, inside the extent |
| `FatLayout.ReadFatEntry` | src/fat_directory.rs:1204-1215 | a FAT entry is read from its place in the active FAT, masked to 28 bits |
| `FatLayout.ReadCluster` | src/fat_directory.rs:1088-1089 | a cluster's bytes are read from its place, and nothing outside the volume |
| `FatDirectory.Classify` | src/fat_directory.rs:497-543 | an entry's kind, by its first byte before its attribute is considered, and then by exactly the attribute bits named; its fields are said in `EntryBytes` |
| `EntryBytes.ShortNameFields` | src/fat_directory.rs:527-543 | a live short name's raw name is bytes 0 to 10, its first cluster 0x1A, 0x1B, 0x14, 0x15 from the lowest byte up, its size the four bytes at 0x1C, its directory bit that of byte 11 |
| `EntryBytes.DeletedFields` | src/fat_directory.rs:552-578 | a deleted short name has the same fields at the same bytes, but the first byte of its name; a deleted component keeps only its checksum at 13, a label its last ten bytes |
| `EntryBytes.OtherFields` | src/fat_directory.rs:505-526 | a component's ordinal is its first byte without the mark 0x40, which marks the last, and its checksum byte 13; a label's name is bytes 0 to 10 |
| `EntryBytes.WrittenIsRead` | src/fat_directory.rs:497-543 | round trip: an entry written with any live name, attribute, first cluster, size and times is classified as a short name with exactly those |
| `EntryBytes.PaddedNameReads` | src/fat_directory.rs:732-765 | a stem and an extension padded with spaces read back as the stem, a dot and the extension, and without the dot where there is none |
| `EntryBytes.UnprintableNameDoesNotRead` | src/fat_directory.rs:732-756 | a name with a byte outside printable ASCII is not rendered |
| `EntryBytes.DotEntryMeaning` | src/fat_directory.rs:1004-1010 | a dot entry is a live directory named 2E or 2E 2E and spaces |
| `EntryBytes.SlotBytes` | src/fat_directory.rs:1091-1105 | a slot is thirty-two bytes of its cluster, blank exactly when all are zero |
| `FatDirectory.DeletionLosesOneByte` | src/fat_directory.rs:545-578 | overwriting an entry's first byte keeps its kind and every other field |
| `FatDirectory.DeletionIsUndone` | src/fat_directory.rs:614-634 | the checksum of a deleted name gives back its first byte, and with it the name as it was rendered |
| `FatDirectory.Chksum` | src/fat_directory.rs:587-593 | the loop computes the rotate-and-add fold of the name |
| `FatDirectory.ChecksumDetectsOneByte` | src/fat_directory.rs:587-593 | changing one byte of a name of any length changes its checksum |
| `FatDirectory.ChecksumNamesFirstByte` | src/fat_directory.rs:596-613 | for given surviving bytes each checksum belongs to exactly one first byte |
| `FatDirectory.RecoveryInvertsChecksum` | src/fat_directory.rs:614-634 | recovery returns the first byte of every name but those beginning with 0x00 or 0xE5, and nothing for those |
| `FatDirectory.RecoverFirstByte` | src/fat_directory.rs:614-634 | trying every candidate finds that byte, and never two |
| `FatDirectory.Associate` | src/fat_directory.rs:677-706 | the backward walk answers from the immediately preceding entry alone |
| `RotateAdd.StepWraps` | src/exfat_boot.rs:666-674 | at any width a checksum step is a rotation right and an addition that wraps at that width |
| `RotateAdd.StepInjectiveInAcc` | src/fat_directory.rs:587-593 | at any width a checksum step is injective in the accumulator |
| `RotateAdd.StepInjectiveInByte` | src/exfat_boot.rs:662-677 | at any width a checksum step is injective in the byte |
| `RotateAdd.Unstep` | src/fat_directory.rs:596-613 | and every sum is reached from some accumulator, so a step is a bijection |
| `RotateAdd.Unfold` | src/fat_directory.rs:596-613 | every checksum is reached, from any bytes, from some start |
| `RotateAdd.FoldInjectiveInAcc` | src/fat_directory.rs:596-613 | and from only one, at any length |
| `RotateAdd.FoldDetectsOneByte` | src/exfat_boot.rs:662-677 | changing one byte anywhere changes the fold, at any width and length |
| `FatEnumerate.Enumerate` | src/fat_directory.rs:1044-1201 | a directory is the listing of its unique chain, or of its first cluster alone, or the chain's own error; nothing outside the volume is read |
| `FatEnumerate.ScanCluster` | src/fat_directory.rs:1091-1168 | one pass over a cluster's slots gives the entries before the terminator, the non-zero slots past it and their observations |
| `FatEnumerate.ChainedIffChain` | src/fat_directory.rs:1071-1195 | following links succeeds exactly along a chain of distinct data clusters ending at an end mark, and finds that chain |
| `FatEnumerate.ChainIsUnique` | src/fat_directory.rs:1071-1195 | a first cluster has at most one chain |
| `FatEnumerate.ChainErrorsAreFindings` | src/fat_directory.rs:1071-1195 | no error the evidence determines is an unreadable range or an overflowing offset |
| `ChainErrors.ChainFailsIff` | src/fat_directory.rs:1071-1195 | a chain fails with an error if and only if the links lead to what it describes: out of range, back to a cluster passed, past 65,536 slots, to a bad mark, or to a reserved value |
| `FatEnumerate.ClusterLimitIsEntryLimit` | src/fat_directory.rs:1051-1058 | the cluster limit is exactly the entry limit, because a cluster is a power of two slots |
| `FatEnumerate.ListingFitsLimit` | src/fat_directory.rs:1081-1160 | entries and residue together never exceed 65,536 |
| `FatEnumerate.RoomForOneMore` | src/fat_directory.rs:1149-1153 | the inner size error never arises on accepted geometry |
| `FatEnumerate.FirstTerminatorMeaning` | src/fat_directory.rs:1100-1123 | the listing ends at the first terminator, and no slot before it is one |
| `FatUnlinkable.EveryClusterLinkableIff` | src/fat_directory.rs:1176-1189 | some FAT entry leads to each data cluster, if and only if there are at most 0x0FFFFFF5 of them |
| `FatUnlinkable.LinkableIff` | src/fat_directory.rs:1174-1189 | a FAT entry, whatever its reserved bits, can lead to exactly the clusters below the marks |
| `FatUnlinkable.TooManyClustersAccepted` | src/fat32.rs:240-419 | a boot sector and an extent the parser accepts, with a data cluster no FAT entry leads to |
| `FatListing.NothingLost` | src/fat_directory.rs:1100-1160 | every slot before the terminator is an entry in its place, and every non-zero slot past it is residue |
| `FatListing.ListingPlaces` | src/fat_directory.rs:1100-1160 | no two entries of a listing share a cluster and slot, and each lies in the directory's own clusters |
| `FatListing.ObservationsCountResidue` | src/fat_directory.rs:1162-1168 | the observations of content past the terminator count exactly the residue |
| `FatNotes.ObservationsAreExact` | src/fat_directory.rs:1124-1168 | a listing's observations are exactly one for each entry with an unprintable name or meaningless attributes, and one for each cluster with content past the terminator, with its first slot and number |
| `FatDeleted.EnumerateDeletedDirectory` | src/fat_directory.rs:905-948 | a deleted directory is read from its first cluster alone, if free and self-identifying, or refused for the first reason that holds |
| `FatDeleted.BeginsDirectory` | src/fat_directory.rs:957-990 | the 64-byte test of a cluster |
| `FatDeleted.FirstTestIsExact` | src/fat_directory.rs:957-990 | on a data cluster the full reading succeeds if and only if the cluster is free and passes the 64-byte test |
| `FatDeleted.DeletedReadingIsOneCluster` | src/fat_directory.rs:905-948 | a deleted reading is of one cluster, and may continue exactly when no slot there ends it |
| `OrphanBytes.BeginsIsDots` | src/fat_directory.rs:957-990 | the 64-byte test is of these bytes: `.` naming the cluster itself and `..`, both live directories |
| `OrphanBytes.OrphanIsDots` | src/analysis.rs:870-897 | an orphan is a free, unseen, unnamed data cluster whose first 64 bytes are those |
| `OrphanBytes.RefusalsSayWhich` | src/fat_directory.rs:905-948 | why a cluster is not read as a deleted directory: out of range, the entry it has in the FAT, no `.` of its own, or no `..`, in that order |
| `OrphanBytes.ParentIsDotDot` | src/analysis.rs:899-907 | the parent an orphan is reported with is the cluster its `..` bytes give |
| `OrphanBytes.MayContinueMeaning` | src/fat_directory.rs:905-948 | a deleted listing may continue exactly where no slot of its cluster begins with zero |
| `OrphanBytes.FoundEventsAreExact` | src/analysis.rs:897-912 | what is reported of the orphans is, of each and of nothing else, its cluster, the parent its `..` bytes give, its one-cluster listing, and a note where that may continue |
| `FatRecovery.EligibleIffFits` | src/fat_recovery.rs:207-277 | an entry gives a run exactly when the run is in range and its clusters hold its size with less than a cluster of slack |
| `FatRecovery.RefusalsOfLostContent` | src/fat_recovery.rs:207-277 | lost content gives no run exactly because it is empty, starts before the data region, or needs a last cluster past the end, which is the one given |
| `FatRecovery.RefusalsOfOtherEntries` | src/fat_recovery.rs:207-250 | nothing is said of an entry exactly when it is neither deleted nor lost, and every other deleted entry is refused as what it is |
| `FatRecovery.FirstAllocatedMeaning` | src/fat_recovery.rs:433-462 | the cluster that breaks a run is the least allocated one, and there is none exactly when all are free |
| `FatRecovery.AssessListed` | src/fat_recovery.rs:433-462 | the assessment is the fault-free one, and a recoverable run fits and is free throughout |
| `FatRecovery.FindAllocated` | src/fat_recovery.rs:452-459 | one FAT read per cluster, to the first in use |
| `FatRecovery.ContentOfCluster` | src/fat_recovery.rs:523-548 | what each cluster of a run contributes to its content |
| `FatRecovery.Stream` | src/fat_recovery.rs:523-548 | exactly the declared bytes are pushed, in order, ending with none remaining, and only a read of content can stop it |
| `FatRecovery.Extract` | src/fat_recovery.rs:486-517 | the digest is that of one contiguous slice of evidence, the destination is left as the outcome says, and each outcome but a written or taken artifact follows the one failure it is named for |
| `ArtifactPath.PathInjective` | src/extraction.rs:72-77 | artifacts with the same path have the same partition, cluster and slot |
| `ArtifactPath.DecimalInjective` | src/extraction.rs:72-77 | distinct numbers have distinct decimal forms |
| `ArtifactPath.DecimalIsRead` | src/extraction.rs:72-77 | a decimal form is read back as its number, with no leading zero |
| `ArtifactPath.FileNameSpells` | src/extraction.rs:72-77 | a file name is its four numbers in decimal, each after its own mark |
| `ArtifactPath.FileNameStaysInDirectory` | src/extraction.rs:72-77 | a file name holds no separator |
| `Extraction.ArtifactWriter.Begin` | src/extraction.rs:240-248 | a writer starts with nothing hashed, having asked for at most its own path |
| `Extraction.ArtifactWriter.Push` | src/extraction.rs:255-263 | a push extends the digest's input whatever becomes of the file |
| `Extraction.ArtifactWriter.Finish` | src/extraction.rs:269-278 | the digest is that of everything pushed, and the outcome is true of the destination |
| `Extraction.ArtifactWriter.Abort` | src/extraction.rs:285-290 | the writer's own file is gone, or is the one returned, and that exactly where its removal failed; every other is unchanged |
| `Extraction.ArtifactWriter.Settle` | src/extraction.rs:349-394 | each outcome is true of the destination, and follows from what failed: nothing for a written artifact or a taken path, else the creation, write, flush or read-back it is named for, and the removal where the file is left |
| `Extraction.OpenSink` | src/extraction.rs:297-311 | creation is exclusive: a file already there is never opened |
| `Extraction.ReadBack` | src/extraction.rs:397-412 | reads of any size hash exactly the file's content |
| `Extraction.DeliveryPreservesFiles` | src/extraction.rs:228-394 | no file there before is changed, and the read-back digest matches exactly when the file holds what was hashed |
| `Extraction.OutcomeWithoutFaults` | src/extraction.rs:349-394 | where no operation failed an artifact is written whole, unless its path was taken, which is then reported |
| `ExFatChecksum.BootChecksum` | src/exfat_boot.rs:662-677 | the loop computes the 32-bit fold of the covered bytes |
| `ExFatChecksum.CheckChecksum` | src/exfat_boot.rs:836-852 | the verdict, with the first word that does not repeat |
| `ExFatChecksum.SkippedBytesAreFree` | src/exfat_boot.rs:662-677 | the checksum does not depend on bytes 106, 107 and 112, or on anything past the eleventh sector |
| `ExFatChecksum.OneByteIsDetected` | src/exfat_boot.rs:662-677 | changing any one other covered byte changes it, at every sector size |
| `ExFatChecksum.PassesIffRepeated` | src/exfat_boot.rs:836-852 | a region passes if and only if its twelfth sector repeats the computed value from end to end |
| `ExFatChecksum.OneByteIsRefused` | src/exfat_boot.rs:836-852 | a passing region with one covered byte changed fails, with the two checksums it reports |
| `ExFatChecksum.SealedRegionPasses` | src/exfat_boot.rs:836-852 | any eleven sectors can be sealed by a twelfth |
| `ExFatGeometry.AcceptsConformantGeometry` | src/exfat_boot.rs:869-950 | geometry is accepted if and only if it meets sections 3.1.5 to 3.1.10 and 9.3 of the exFAT specification, in unbounded arithmetic |
| `ExFatGeometry.RefusalsAreTrue` | src/exfat_boot.rs:869-950 | every refusal names a rule that is broken, with the exact bound |
| `ExFatGeometry.MismatchIsTooFew` | src/exfat_boot.rs:930-939 | a count mismatch is always a count too small, and the expected count leaves no cluster over |
| `ExFatGeometry.NothingOverflows` | src/exfat_boot.rs:867-909 | no product computed from the fields overflows 64 bits |
| `ExFatGeometry.FatsLieBetween` | src/exfat_boot.rs:878-904 | each FAT lies after both boot regions and before the heap, with an entry for every cluster |
| `ExFatGeometry.ClustersLieInside` | src/exfat_boot.rs:906-939 | every cluster lies in the volume after the heap's start, end to end |
| `ExFatGeometry.NoClusterLeftOver` | src/exfat_boot.rs:930-939 | no whole cluster is left over unless the count is the largest there is |
| `ExFatBoot.ValidateRegion` | src/exfat_boot.rs:688-832 | the verdict: sector size, then checksum, then every other field |
| `ExFatBoot.AcceptsConformantRegions` | src/exfat_boot.rs:688-832 | a region is accepted if and only if it is conformant with one FAT, and is TexFAT if and only if it is conformant with two |
| `ExFatBoot.AcceptedFields` | src/exfat_boot.rs:755-832 | what an accepted region gives is these of its bytes, at literal offsets, with the stale fields from a main region only and a shorter volume noted with both lengths |
| `ExFatBoot.GeometryIsBytes` | src/exfat_boot.rs:755-790 | each field of the geometry is the bytes at the specification's offset |
| `ExFatRefusals.RegionRefusalsAreTrue` | src/exfat_boot.rs:688-832 | every refusal of a region is true of its bytes: of its size where it is none, of its checksum where that fails, and of a field only where it passes |
| `ExFatRefusals.OutsideIsRefused` | src/exfat_boot.rs:629-654 | a region past the end of its partition is refused for where it would end, and a partition with no sector is refused unread |
| `ExFatBoot.IdentityIff` | src/exfat_boot.rs:716-753 | the identity checks accept exactly the required bytes, shifts and FAT counts |
| `ExFatBoot.FirstNonZero` | src/exfat_boot.rs:727-734 | the must-be-zero check finds the first byte that is not |
| `ExFatBoot.OneChangedByteIsRefused` | src/exfat_boot.rs:688-832 | an accepted region with one covered byte changed fails its checksum |
| `ExFatFallback.ParseBootRegion` | src/exfat_boot.rs:483-538 | the choice is the one the evidence determines, or a read failed; every read stays inside the partition |
| `ExFatFallback.ReadAndValidate` | src/exfat_boot.rs:629-654 | a region outside the partition is refused unread, any other validated as it is |
| `ExFatFallback.SearchBackup` | src/exfat_boot.rs:558-617 | the search comes to what the sector sizes at which a backup lies determine |
| `ExFatFallback.TryShift` | src/exfat_boot.rs:571-602 | one sector size of the search finds a backup exactly where one lies |
| `ExFatFallback.MainThenBackupThenSearch` | src/exfat_boot.rs:483-538 | whatever sector size is declared: the main region whenever conformant, else the backup beside it, else the sole backup there is if it has one FAT, two or more being ambiguous and none leaving both refusals |
| `ExFatFallback.SearchIsDecided` | src/exfat_boot.rs:558-617 | a search is decided by where backups lie, and what it finds is marked as a searched backup |
| `ExFatFallback.SearchUsesTheSoleBackup` | src/exfat_boot.rs:558-617 | a searched backup is used if and only if it is the only one, declares its own size and has one FAT |
| `ExFatFallback.SearchNeverGuesses` | src/exfat_boot.rs:604-616 | two or more are refused with every size named in increasing order; none leaves the caller's two refusals unchanged |
| `ExFatFallback.BackupsAreExact` | src/exfat_boot.rs:571-602 | the sizes that pass are exactly those tried at which a backup lies, in increasing order |
| `ExFatFallback.ChosenIsSound` | src/exfat_boot.rs:483-538 | whatever is chosen has one FAT and conformant geometry, and every cluster lies inside the partition |
| `ExFatMisplaced.DirectBackupMayDeclareAnotherSize` | src/exfat_boot.rs:522-531 | an image whose directly located backup declares a smaller sector size and is used |
| `ExFatMisplaced.BackupDeclaresItsSizeUnless` | src/exfat_boot.rs:513-538 | a backup that is used declares the sector size it was located by unless it is the one beside the main region and its byte 108 is smaller; never a larger one |

## Left out

- Identification observations, the declared type comparison, volume label and
  volume id, and the FSInfo sector: reported and never decided on.
- Error and event messages, rendering, argument parsing, exit codes and the
  destination's canonicalisation.
- SHA-256: a digest is an ideal one, its input itself, so distinct inputs have
  distinct digests. Comparison with the operator's reference is of digests.
- The evidence file: a reader over a fixed byte sequence stands for it. Evidence
  that changes while it is read is not modelled.
- Other processes at the destination: only this run's own operations change it.
  Any of them may fail, a failed write may leave anything behind, and a
  destination that silently loses content is covered.
- `Session` and `VolumeWalk` gather what the program passes as parameters: the
  evidence, options, counts and sink, and the walk's `seen`, `pending` and
  `named`. The inner pass of `enumerate` and its reading of a link are methods
  of their own.
- `PartitionOffset` of an exFAT volume, which the program does not read, and
  everything past an exFAT boot region, which it does not either.
- Whether recovered bytes are the deleted file's: the evidence cannot say.
