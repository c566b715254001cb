/** The exFAT boot region's constants, fields and errors. */
module ExFat {
  import opened Evidence
  import opened Machine
  import opened Wrappers

  const REGION_SECTORS: nat := 12
  const CHECKSUM_SECTORS: nat := 11
  const MIN_BYTES_PER_SECTOR_SHIFT: u8 := 9
  const MAX_BYTES_PER_SECTOR_SHIFT: u8 := 12
  const MAX_CLUSTER_SHIFT_SUM: u8 := 25
  const MAX_CLUSTER_COUNT: u32 := U32_MAX - 10
  const MIN_FAT_OFFSET: u32 := 24
  const MIN_VOLUME_BYTES: u64 := 0x10_0000
  const EXFAT_ENTRY_BYTES: u64 := 4
  const MAX_REVISION_BYTE: u8 := 99
  const SUPPORTED_MAJOR_REVISION: u8 := 1
  const BASE_CLUSTERS: u32 := 2
  const PERCENT_NOT_AVAILABLE: u8 := 0xFF

  const OFF_MUST_BE_ZERO := 11
  const MUST_BE_ZERO_LEN := 53
  const OFF_VOLUME_LENGTH := 72
  const OFF_FAT_OFFSET := 80
  const OFF_FAT_LENGTH := 84
  const OFF_CLUSTER_HEAP_OFFSET := 88
  const OFF_CLUSTER_COUNT := 92
  const OFF_EXFAT_ROOT_CLUSTER := 96
  const OFF_VOLUME_SERIAL := 100
  const OFF_REVISION_MINOR := 104
  const OFF_REVISION_MAJOR := 105
  const OFF_VOLUME_FLAGS := 106
  const OFF_BYTES_PER_SECTOR_SHIFT := 108
  const OFF_SECTORS_PER_CLUSTER_SHIFT := 109
  const OFF_NUMBER_OF_FATS := 110
  const OFF_PERCENT_IN_USE := 112

  const JUMP_BOOT: seq<u8> := [0xEB, 0x76, 0x90]

  datatype BootRegion = Main | Backup

  datatype ExFatError =
    | RegionOutsidePartition(required: u64, available: u64)
    | BackupNotLocated
    | BytesPerSectorShift(shift: u8)
    | ChecksumMismatch(computed: u32, stored: u32)
    | ChecksumNotRepeated(word: nat)
    | JumpBoot(jump: seq<u8>)
    | FileSystemName(name: seq<u8>)
    | MustBeZero(offset: nat)
    | BootSignature(signature: seq<u8>)
    | SectorsPerClusterShift(clusterShift: u8, maximumShift: u8)
    | NumberOfFats(fats: u8)
    | VolumeLengthTooSmall(sectors: u64, minimumSectors: u64)
    | FatOffsetTooSmall(fatOffset: u32, minimumOffset: u32)
    | FatLengthTooSmall(fatLength: u32, minimumLength: u64)
    | ClusterHeapBeforeFatEnd(heapOffset: u32, fatEnd: u64)
    | ClusterHeapOffsetTooLarge(heapOffset: u32, maximumOffset: u64)
    | ClusterCountTooLarge(count: u32)
    | ClusterCountTooSmall(count: u32, minimumCount: u32)
    | ClusterCountMismatch(count: u32, expected: u32)
    | RootClusterOutOfRange(root: u32, last: u64)
    | RevisionOutOfRange(major: u8, minor: u8)
    | RevisionUnsupported(major: u8, minor: u8)
    | ActiveFat(flags: u16)
    | PercentInUse(percent: u8)
    | VolumeLongerThanPartition(volumeBytes: nat, partitionBytes: u64)
    | TexFat

  datatype ExFatObservation = VolumeShorterThanPartition(volumeBytes: u64, partitionBytes: u64)

  /** What a boot sector declares of a volume's layout. */
  datatype Geometry = Geometry(
      volumeLength: u64,
      fatOffset: u32,
      fatLength: u32,
      clusterHeapOffset: u32,
      clusterCount: u32,
      rootCluster: u32,
      shift: u8,
      clusterShift: u8,
      fats: u8)
  {
    // What is known of the shifts and the FAT count before the rest is
    // checked.
    predicate Shaped() {
      MIN_BYTES_PER_SECTOR_SHIFT <= shift <= MAX_BYTES_PER_SECTOR_SHIFT
      && clusterShift <= MAX_CLUSTER_SHIFT_SUM - shift && (fats == 1 || fats == 2)
    }

    function SectorBytes(): nat { Pow2(shift) }

    function ClusterSectors(): nat { Pow2(clusterShift) }
  }

  /** A validated exFAT boot sector. */
  datatype ExFatBootSector = ExFatBootSector(
      region: BootRegion,
      geometry: Geometry,
      volumeSerial: u32,
      revisionMinor: u8,
      volumeFlags: Option<u16>,
      percentInUse: Option<u8>,
      observations: seq<ExFatObservation>,
      locatedBySearch: bool)

  datatype ExFatBootFailure =
    | UnreadableRegion(error: ReadError)
    | TexFatVolume(region: BootRegion)
    | Rejected(main: ExFatError, backup: ExFatError)
    | AmbiguousBackup(shifts: seq<u8>)
}
