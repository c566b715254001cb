/** Where a FAT32 volume's clusters and FAT entries lie in the evidence. */
module FatLayout {
  import opened Evidence
  import opened Fat
  import opened Fat32
  import opened Machine
  import opened Wrappers

  datatype DirectoryError =
    | TooLarge(entries: nat)
    | CyclicChain(cluster: u32)
    | ClusterOutOfRange(cluster: u32, clusterCount: u32)
    | BadCluster(cluster: u32)
    | ReservedChainLink(from: u32, next: u32)
    | OffsetOverflow(cluster: u32)
    | Unreadable(error: ReadError)

  const FAT_END_OF_CHAIN: u32 := 0x0FFF_FFF8
  const FAT_BAD_CLUSTER: u32 := 0x0FFF_FFF7

  // The offsets as the program computes them, every step checked.

  function CheckedClusterOffset(v: Volume, cluster: u32): Option<u64> {
    var n :- CheckedSubU64(cluster, FIRST_DATA_CLUSTER);
    var sectors :- CheckedMulU64(n, v.boot.geometry.sectorsPerCluster);
    var absolute :- CheckedAddU64(sectors, v.FirstDataSectorAbsolute());
    CheckedMulU64(absolute, v.boot.geometry.bytesPerSector)
  }

  function ClusterOffset(v: Volume, cluster: u32): Result<u64, DirectoryError> {
    match CheckedClusterOffset(v, cluster)
    case Some(offset) => Success(offset)
    case None => Failure(OffsetOverflow(cluster))
  }

  function CheckedFatEntryOffset(v: Volume, fat: u8, cluster: u32): Option<u64> {
    var sectors :- CheckedMulU64(fat, v.boot.geometry.fatSize);
    var inVolume :- CheckedAddU64(sectors, v.boot.geometry.reservedSectors);
    var absolute :- CheckedAddU64(inVolume, v.extent.startLba);
    var fatStart :- CheckedMulU64(absolute, v.boot.geometry.bytesPerSector);
    var entry :- CheckedMulU64(cluster, FAT32_ENTRY_BYTES);
    CheckedAddU64(entry, fatStart)
  }

  function FatEntryOffset(v: Volume, fat: u8, cluster: u32): Result<u64, DirectoryError> {
    match CheckedFatEntryOffset(v, fat, cluster)
    case Some(offset) => Success(offset)
    case None => Failure(OffsetOverflow(cluster))
  }

  // The same places in exact arithmetic.

  ghost function ClusterSize(v: Volume): nat { 512 * v.boot.geometry.sectorsPerCluster }

  ghost function ClusterStart(v: Volume, c: nat): nat
    requires v.HasCluster(c)
  {
    assert 0 <= (c - 2) * v.boot.geometry.sectorsPerCluster;
    (v.extent.startLba + v.MetadataSectors() + (c - 2) * v.boot.geometry.sectorsPerCluster) * 512
  }

  ghost function FatStart(v: Volume, fat: nat): nat {
    assert 0 <= fat * v.boot.geometry.fatSize;
    (v.extent.startLba + v.boot.geometry.reservedSectors + fat * v.boot.geometry.fatSize) * 512
  }

  ghost function EntryStart(v: Volume, c: nat): nat { FatStart(v, v.boot.CurrentFat()) + 4 * c }

  ghost function ExtentEnd(v: Volume): nat { (v.extent.startLba + v.extent.sectorCount) * 512 }

  /** No data cluster's offset overflows, every cluster lies inside the
      extent, and clusters are laid end to end. */
  lemma ClusterPlacement(v: Volume, c: u32)
    requires v.Sound() && v.HasCluster(c)
    ensures ClusterOffset(v, c) == Success(ClusterStart(v, c))
    ensures ClusterStart(v, c) + ClusterSize(v) <= ExtentEnd(v)
    ensures v.HasCluster(c + 1) ==> ClusterStart(v, c + 1) == ClusterStart(v, c) + ClusterSize(v)
  {
    SoundNeverWraps(v);
    var g := v.boot.geometry;
    MulMono(c - 1, g.clusterCount, g.sectorsPerCluster);
    assert (c - 1) * g.sectorsPerCluster == (c - 2) * g.sectorsPerCluster + g.sectorsPerCluster;
    assert 0 <= (c - 2) * g.sectorsPerCluster;
  }

  /** `n` consecutive clusters are `n * ClusterSize` consecutive bytes. */
  lemma ClustersAreContiguous(v: Volume, c: nat, n: nat)
    requires v.Sound() && v.HasCluster(c) && v.HasCluster(c + n)
    ensures ClusterStart(v, c + n) == ClusterStart(v, c) + n * ClusterSize(v)
  {
    var spc: int := v.boot.geometry.sectorsPerCluster;
    assert (c + n - 2) * spc == (c - 2) * spc + n * spc;
    assert n * spc * 512 == n * (512 * spc);
  }

  /** Distinct clusters share no byte. */
  lemma ClustersAreDisjoint(v: Volume, c: nat, d: nat)
    requires v.Sound() && v.HasCluster(c) && v.HasCluster(d) && c < d
    ensures ClusterStart(v, c) + ClusterSize(v) <= ClusterStart(v, d)
  {
    ClustersAreContiguous(v, c, d - c);
    MulMono(1, d - c, ClusterSize(v));
  }

  // A FAT's start and end, by its index.
  lemma FatPlacement(v: Volume, fat: nat)
    requires v.Sound() && fat < v.boot.geometry.fatCount
    ensures FatStart(v, fat) + 512 * v.boot.geometry.fatSize <= ClusterStart(v, 2)
    ensures fat * v.boot.geometry.fatSize <= v.MetadataSectors() <= U32_MAX
    ensures ClusterStart(v, 2) <= ExtentEnd(v)
  {
    var g := v.boot.geometry;
    MulMono(fat + 1, g.fatCount, g.fatSize);
    assert (fat + 1) * g.fatSize == fat * g.fatSize + g.fatSize;
    assert 0 <= g.clusterCount * g.sectorsPerCluster;
    assert (2 - 2) * g.sectorsPerCluster == 0;
  }

  /** No cluster's FAT entry overflows, and each lies inside the FAT it is
      read from, which itself ends before the first data cluster. */
  lemma FatEntryPlacement(v: Volume, c: u32)
    requires v.Sound() && v.HasCluster(c)
    ensures FatEntryOffset(v, v.boot.CurrentFat(), c) == Success(EntryStart(v, c))
    ensures var fat := v.boot.CurrentFat();
      FatStart(v, fat) <= EntryStart(v, c)
      && EntryStart(v, c) + 4 <= FatStart(v, fat) + 512 * v.boot.geometry.fatSize <= ClusterStart(v, 2)
    ensures ClusterStart(v, 2) <= ExtentEnd(v)
  {
    var fat := v.boot.CurrentFat();
    FatPlacement(v, fat);
    var sectors: nat := fat * v.boot.geometry.fatSize;
    assert CheckedMulU64(fat, v.boot.geometry.fatSize) == Some(sectors);
  }

  // What the evidence holds at those places.

  ghost function FatEntry(image: seq<u8>, v: Volume, c: nat): u32 {
    LeU32(Slice(image, EntryStart(v, c), 4), 0) % 0x1000_0000
  }

  ghost function ClusterContent(image: seq<u8>, v: Volume, c: nat): (s: seq<u8>)
    requires v.HasCluster(c)
    ensures |s| == ClusterSize(v)
  {
    Slice(image, ClusterStart(v, c), ClusterSize(v))
  }

  ghost predicate InImage(reader: EvidenceReader, v: Volume) {
    v.extent.FitsIn(|reader.image|)
  }

  // What reading within a volume may do to the reader: nothing outside the
  // volume's extent is ever asked for.
  twostate predicate ReadsStayInside(reader: EvidenceReader, v: Volume)
    reads reader
  {
    forall s :: s in reader.requests && s !in old(reader.requests)
      ==> Inside(s, v.extent.startLba * 512, ExtentEnd(v))
  }

  // A read result against the fault-free answer: equal to it, unless a read
  // failed, which a reliable reader holding the extent never does.
  ghost predicate Agrees<T(!new)>(reader: EvidenceReader, v: Volume,
                                  r: Result<T, DirectoryError>, expected: Result<T, DirectoryError>)
  {
    r == expected || (r.Failure? && r.error.Unreadable? && !(reader.reliable && InImage(reader, v)))
  }

  method ReadFatEntry(reader: EvidenceReader, v: Volume, fat: u8, cluster: u32)
    returns (r: Result<u32, DirectoryError>)
    modifies reader
    ensures v.Sound() && v.HasCluster(cluster) && fat == v.boot.CurrentFat() ==>
      && ReadsStayInside(reader, v)
      && Agrees(reader, v, r, Success(FatEntry(reader.image, v, cluster)))
  {
    if v.Sound() && v.HasCluster(cluster) { FatEntryPlacement(v, cluster); }
    var offset :- FatEntryOffset(v, fat, cluster);
    var raw := reader.ReadExactAt(offset, 4);
    if raw.Failure? {
      return Failure(Unreadable(raw.error));
    }
    r := Success(LeU32(raw.value, 0) % 0x1000_0000);
  }

  // Reads the first `size` bytes of a cluster.
  method ReadCluster(reader: EvidenceReader, v: Volume, cluster: u32, size: nat)
    returns (r: Result<seq<u8>, DirectoryError>)
    modifies reader
    ensures r.Success? ==> |r.value| == size
    ensures v.Sound() && v.HasCluster(cluster) && size <= ClusterSize(v) ==>
      && ReadsStayInside(reader, v)
      && Agrees(reader, v, r, Success(ClusterContent(reader.image, v, cluster)[..size]))
  {
    if v.Sound() && v.HasCluster(cluster) { ClusterPlacement(v, cluster); }
    var offset :- ClusterOffset(v, cluster);
    var raw := reader.ReadExactAt(offset, size);
    if raw.Failure? {
      return Failure(Unreadable(raw.error));
    }
    if v.Sound() && v.HasCluster(cluster) && size <= ClusterSize(v) {
      assert raw.value == ClusterContent(reader.image, v, cluster)[..size];
    }
    r := Success(raw.value);
  }
}
