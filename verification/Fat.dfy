/** The BIOS parameter block the FAT variants share, and which variant it
    describes. */
module Fat {
  import opened Machine
  import opened Wrappers

  const FIRST_DATA_CLUSTER: u32 := 2
  const FAT12_MAX_CLUSTERS: u32 := 4085
  const FAT16_MAX_CLUSTERS: u32 := 65525
  const MAX_CLUSTER_BYTES: u32 := 32768

  const OFF_BYTES_PER_SECTOR := 0x0B
  const OFF_SECTORS_PER_CLUSTER := 0x0D
  const OFF_RESERVED_SECTORS := 0x0E
  const OFF_FAT_COUNT := 0x10
  const OFF_ROOT_ENTRY_COUNT := 0x11
  const OFF_TOTAL_SECTORS_16 := 0x13
  const OFF_MEDIA_DESCRIPTOR := 0x15
  const OFF_FAT_SIZE_16 := 0x16
  const OFF_TOTAL_SECTORS_32 := 0x20
  const OFF_FAT_SIZE_32 := 0x24

  const VBR_SIZE: nat := 512

  datatype Filesystem = Fat12 | Fat16 | Fat32 | ExFat | Ntfs

  datatype UnknownReason =
    | ShortSector(supplied: nat)
    | NoSignature(first: u8, second: u8)
    | NoJumpInstruction(found: u8)
    | InvalidBpbField(field: string, value: nat)
    | NoSectorCount
    | NoFatSize
    | MetadataOverflows
    | MetadataExceedsTotal
    | NoDataRegion

  datatype Identification =
    | Identified(filesystem: Filesystem, geometry: Option<FatGeometry>)
    | Unknown(reason: UnknownReason)

  /** Geometry as a volume declares it. */
  datatype FatGeometry = FatGeometry(
      bytesPerSector: u16,
      sectorsPerCluster: u8,
      reservedSectors: u16,
      fatCount: u8,
      rootEntryCount: u16,
      mediaDescriptor: u8,
      totalSectors: u32,
      fatSize: u32,
      rootDirSectors: u32,
      dataSectors: u32,
      clusterCount: u32)
  {
    function ClusterBytes(): u32 {
      MulMono(bytesPerSector, 0xFFFF, sectorsPerCluster);
      assert 0 <= bytesPerSector * sectorsPerCluster;
      bytesPerSector * sectorsPerCluster
    }

    // Three unchecked 32-bit operations.
    function FirstDataSector(): u32 {
      assert 0 <= fatCount * fatSize;
      WrapU32(WrapU32(reservedSectors + WrapU32(fatCount * fatSize)) + rootDirSectors)
    }

    // One past the last data cluster, as the range of them states it.
    function DataClustersEnd(): u32 {
      SaturatingAddU32(FIRST_DATA_CLUSTER, clusterCount)
    }
  }

  predicate PowerOfTwo(b: u8) { b in {1, 2, 4, 8, 16, 32, 64, 128} }

  function Variant(clusterCount: u32): Filesystem {
    if clusterCount < FAT12_MAX_CLUSTERS then Fat12
    else if clusterCount < FAT16_MAX_CLUSTERS then Fat16
    else Fat32
  }

  // Reserved, FAT and root directory sectors, or None where they overflow: a
  // saturating multiplication and then two checked additions.
  function MetadataSectors(reserved: u32, fatCount: u32, fatSize: u32, rootDirSectors: u32): Option<u32> {
    var fats :- CheckedAddU32(reserved, SaturatingMulU32(fatCount, fatSize));
    CheckedAddU32(fats, rootDirSectors)
  }

  /** Saturation never hides an overflow, because something is reserved: the
      sum is exact whenever it fits in 32 bits and absent whenever it does not. */
  lemma MetadataSectorsExact(reserved: u32, fatCount: u32, fatSize: u32, rootDirSectors: u32, product: nat)
    requires reserved >= 1 && product == fatCount * fatSize
    ensures MetadataSectors(reserved, fatCount, fatSize, rootDirSectors)
         == if reserved + product + rootDirSectors <= U32_MAX
            then Some(reserved + product + rootDirSectors) else None
  {
  }

  // The fields of the parameter block identification reads.
  datatype Bpb = Bpb(
      bytesPerSector: u16,
      sectorsPerCluster: u8,
      reservedSectors: u16,
      fatCount: u8,
      rootEntryCount: u16,
      totalSectors16: u16,
      mediaDescriptor: u8,
      fatSize16: u16,
      totalSectors32: u32,
      fatSize32: u32)

  function ReadBpb(sector: seq<u8>): Bpb
    requires |sector| >= VBR_SIZE
  {
    Bpb(LeU16(sector, OFF_BYTES_PER_SECTOR), sector[OFF_SECTORS_PER_CLUSTER],
        LeU16(sector, OFF_RESERVED_SECTORS), sector[OFF_FAT_COUNT],
        LeU16(sector, OFF_ROOT_ENTRY_COUNT), LeU16(sector, OFF_TOTAL_SECTORS_16),
        sector[OFF_MEDIA_DESCRIPTOR], LeU16(sector, OFF_FAT_SIZE_16),
        LeU32(sector, OFF_TOTAL_SECTORS_32), LeU32(sector, OFF_FAT_SIZE_32))
  }

  function IdentifyFat(b: Bpb): Identification {
    if b.bytesPerSector !in {512, 1024, 2048, 4096} then
      Unknown(InvalidBpbField("bytes_per_sector", b.bytesPerSector))
    else if !PowerOfTwo(b.sectorsPerCluster) then
      Unknown(InvalidBpbField("sectors_per_cluster", b.sectorsPerCluster))
    else if b.bytesPerSector * b.sectorsPerCluster > MAX_CLUSTER_BYTES then
      Unknown(InvalidBpbField("cluster_bytes", b.bytesPerSector * b.sectorsPerCluster))
    else if b.reservedSectors == 0 then Unknown(InvalidBpbField("reserved_sectors", 0))
    else if b.fatCount == 0 then Unknown(InvalidBpbField("fat_count", 0))
    else if b.mediaDescriptor != 0xF0 && b.mediaDescriptor < 0xF8 then
      Unknown(InvalidBpbField("media_descriptor", b.mediaDescriptor))
    else
    var totalSectors: u32 := if b.totalSectors16 != 0 then b.totalSectors16 else b.totalSectors32;
    if totalSectors == 0 then Unknown(NoSectorCount)
    else
    var fatSize: u32 := if b.fatSize16 != 0 then b.fatSize16 else b.fatSize32;
    if fatSize == 0 then Unknown(NoFatSize)
    else
    DivAtMost(SaturatingAddU32(SaturatingMulU32(b.rootEntryCount, 32), b.bytesPerSector - 1), b.bytesPerSector);
    var rootDirSectors: u32 :=
      SaturatingAddU32(SaturatingMulU32(b.rootEntryCount, 32), b.bytesPerSector - 1) / b.bytesPerSector;
    var metadata := MetadataSectors(b.reservedSectors, b.fatCount, fatSize, rootDirSectors);
    if metadata.None? then Unknown(MetadataOverflows)
    else
    var data := CheckedSubU32(totalSectors, metadata.value);
    if data.None? then Unknown(MetadataExceedsTotal)
    else if data.value == 0 then Unknown(NoDataRegion)
    else
    DivAtMost(data.value, b.sectorsPerCluster);
    var clusterCount: u32 := data.value / b.sectorsPerCluster;
    Identified(
      Variant(clusterCount),
      Some(FatGeometry(b.bytesPerSector, b.sectorsPerCluster, b.reservedSectors, b.fatCount,
        b.rootEntryCount, b.mediaDescriptor, totalSectors, fatSize, rootDirSectors, data.value,
        clusterCount)))
  }
}
