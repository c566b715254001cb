/** FAT32 boot sector validation, and the geometry it establishes. */
module Fat32 {
  import opened Fat
  import opened Filesystems
  import opened Machine
  import opened Wrappers

  const OFF_HIDDEN_SECTORS := 0x1C
  const OFF_EXT_FLAGS := 0x28
  const OFF_FS_VERSION := 0x2A
  const OFF_ROOT_CLUSTER := 0x2C
  const OFF_FS_INFO_SECTOR := 0x30
  const OFF_BACKUP_BOOT_SECTOR := 0x32

  const NO_SECTOR: u16 := 0xFFFF
  const MIRRORING_DISABLED := 0x80
  const FAT32_ENTRY_BYTES: u64 := 4

  datatype Fat32Error =
    | NotFat32(identified: Option<Filesystem>)
    | UnsupportedSectorSize(bytes: u16)
    | InvalidField(field: string, value: nat)
    | VolumeExceedsExtent(declaredSectors: u32, extentSectors: u32)
    | InvalidRootCluster(cluster: u32, clusterCount: u32)
    | FatTooSmall(fatBytes: u64, requiredBytes: u64)

  datatype Fat32Observation =
    | HiddenSectorsDisagree(declared: u32, actual: u32)
    | VolumeSmallerThanExtent(declaredSectors: u32, extentSectors: u32)
    | FatMirroringDisabled(activeFat: u8)

  datatype Fat32BootSector = Fat32BootSector(
      geometry: FatGeometry,
      hiddenSectors: u32,
      extFlags: u16,
      rootCluster: u32,
      fsInfoSector: u16,
      backupBootSector: u16,
      observations: seq<Fat32Observation>)
  {
    predicate MirroringEnabled() { !Bit(extFlags, MIRRORING_DISABLED) }

    function ActiveFat(): Option<u8> {
      if MirroringEnabled() then None else Some(extFlags % 16)
    }

    // The FAT every chain and allocation is read from.
    function CurrentFat(): u8 {
      if ActiveFat().Some? then ActiveFat().value else 0
    }
  }

  /** A validated boot sector and the extent it was validated against. */
  datatype Volume = Volume(boot: Fat32BootSector, extent: VolumeExtent) {
    function FirstDataSectorAbsolute(): u64 {
      extent.startLba + boot.geometry.FirstDataSector()
    }

    // One past the last data cluster, in 64-bit arithmetic.
    function LastCluster(): u64 { boot.geometry.clusterCount + FIRST_DATA_CLUSTER }

    predicate HasCluster(c: nat) { FIRST_DATA_CLUSTER <= c < LastCluster() }

    // What holds of every boot sector `ParseBootSector` accepts, in exact
    // arithmetic.
    ghost predicate Sound() {
      var g := boot.geometry;
      && g.bytesPerSector == 512
      && PowerOfTwo(g.sectorsPerCluster) && g.sectorsPerCluster <= 64
      && g.reservedSectors >= 1 && g.fatCount >= 1
      && g.rootEntryCount == 0 && g.rootDirSectors == 0
      && MetadataSectors() + g.clusterCount * g.sectorsPerCluster <= g.totalSectors
      && g.totalSectors <= extent.sectorCount
      && g.clusterCount >= FAT16_MAX_CLUSTERS
      && (g.clusterCount + 2) * 4 <= g.fatSize * 512
      && boot.CurrentFat() < g.fatCount
      && HasCluster(boot.rootCluster)
    }

    // Sectors before the data region, exactly.
    ghost function MetadataSectors(): nat {
      assert 0 <= boot.geometry.fatCount * boot.geometry.fatSize;
      boot.geometry.reservedSectors + boot.geometry.fatCount * boot.geometry.fatSize
    }
  }

  function ParseBootSector(sector: seq<u8>, extent: VolumeExtent): Result<Fat32BootSector, Fat32Error> {
    var id := Identify(sector);
    if id.Identified? && id.filesystem.Fat32? && id.geometry.Some? then
      CheckBootSector(sector, id.geometry.value, extent)
    else
      Failure(NotFat32(if id.Identified? then Some(id.filesystem) else None))
  }

  // The checks identification cannot make, given the geometry it found.
  function CheckBootSector(sector: seq<u8>, g: FatGeometry, extent: VolumeExtent)
    : Result<Fat32BootSector, Fat32Error>
    requires |sector| >= VBR_SIZE
  {
    if g.bytesPerSector != 512 then Failure(UnsupportedSectorSize(g.bytesPerSector))
    else if g.rootEntryCount != 0 then Failure(InvalidField("root_entry_count", g.rootEntryCount))
    else if LeU16(sector, OFF_FAT_SIZE_16) != 0 then
      Failure(InvalidField("fat_size_16", LeU16(sector, OFF_FAT_SIZE_16)))
    else if LeU16(sector, OFF_FS_VERSION) != 0 then
      Failure(InvalidField("fs_version", LeU16(sector, OFF_FS_VERSION)))
    else
    var fsInfo := LeU16(sector, OFF_FS_INFO_SECTOR);
    if fsInfo != NO_SECTOR && (fsInfo == 0 || fsInfo >= g.reservedSectors) then
      Failure(InvalidField("fs_info_sector", fsInfo))
    else
    var backup := LeU16(sector, OFF_BACKUP_BOOT_SECTOR);
    if backup != 0 && backup != NO_SECTOR && backup >= g.reservedSectors then
      Failure(InvalidField("backup_boot_sector", backup))
    else if g.totalSectors > extent.sectorCount then
      Failure(VolumeExceedsExtent(g.totalSectors, extent.sectorCount))
    else
    var root := LeU32(sector, OFF_ROOT_CLUSTER);
    if root < FIRST_DATA_CLUSTER || root >= g.clusterCount + FIRST_DATA_CLUSTER then
      Failure(InvalidRootCluster(root, g.clusterCount))
    else
    var fatBytes: u64 := g.fatSize * 512;
    var required: u64 := (g.clusterCount + FIRST_DATA_CLUSTER) * FAT32_ENTRY_BYTES;
    if fatBytes < required then Failure(FatTooSmall(fatBytes, required))
    else
    var smaller :=
      if g.totalSectors < extent.sectorCount
      then [VolumeSmallerThanExtent(g.totalSectors, extent.sectorCount)] else [];
    var hidden := LeU32(sector, OFF_HIDDEN_SECTORS);
    var disagree :=
      if hidden != 0 && hidden != extent.startLba
      then [HiddenSectorsDisagree(hidden, extent.startLba)] else [];
    var flags := LeU16(sector, OFF_EXT_FLAGS);
    var active: u8 := flags % 16;
    if Bit(flags, MIRRORING_DISABLED) && active >= g.fatCount then
      Failure(InvalidField("active_fat", active))
    else
    var disabled := if Bit(flags, MIRRORING_DISABLED) then [FatMirroringDisabled(active)] else [];
    Success(Fat32BootSector(g, hidden, flags, root, fsInfo, backup, smaller + disagree + disabled))
  }

  /** What Microsoft's FAT32 File System Specification 1.03 and the volume's
      extent together ask of a boot sector, read off its bytes in unbounded
      arithmetic: no saturation, no overflow check, no 16-bit sector count. */
  ghost predicate Conformant(s: seq<u8>, extent: VolumeExtent) {
    |s| >= 512 &&
    var root, fsInfo, backup := Number4(s, 0x2C), Number2(s, 0x30), Number2(s, 0x32);
    var b := BpbAt(s);
    && s[0x1FE] == 0x55 && s[0x1FF] == 0xAA && (s[0] == 0xEB || s[0] == 0xE9)
    && s[3..11] != [0x45, 0x58, 0x46, 0x41, 0x54, 0x20, 0x20, 0x20]
    && s[3..11] != [0x4E, 0x54, 0x46, 0x53, 0x20, 0x20, 0x20, 0x20]
    && ConformantBpb(b)
    && Number2(s, 0x2A) == 0
    && (fsInfo == 0xFFFF || 1 <= fsInfo < b.reservedSectors)
    && (backup == 0 || backup == 0xFFFF || backup < b.reservedSectors)
    && b.totalSectors32 <= extent.sectorCount
    && 2 <= root < Clusters(b) + 2
    && (s[0x28] >= 0x80 ==> s[0x28] % 16 < b.fatCount)
  }

  // The parameter block, field by field, at the offsets the specification
  // gives them.
  ghost function BpbAt(s: seq<u8>): Bpb
    requires |s| >= 512
  {
    Bpb(Number2(s, 0x0B), s[0x0D], Number2(s, 0x0E), s[0x10], Number2(s, 0x11), Number2(s, 0x13), s[0x15],
        Number2(s, 0x16), Number4(s, 0x20), Number4(s, 0x24))
  }

  lemma BpbIsBytes(s: seq<u8>)
    requires |s| >= 512
    ensures ReadBpb(s) == BpbAt(s)
  {
    hide LeU16, LeU32, Number2, Number4;
    FieldsAreNumbers(s, 0x0B);
    FieldsAreNumbers(s, 0x0E);
    FieldsAreNumbers(s, 0x11);
    FieldsAreNumbers(s, 0x13);
    FieldsAreNumbers(s, 0x16);
    FieldsAreNumbers(s, 0x20);
    FieldsAreNumbers(s, 0x24);
  }

  ghost predicate ConformantBpb(b: Bpb) {
    && b.bytesPerSector == 512
    && b.sectorsPerCluster in {1, 2, 4, 8, 16, 32, 64}
    && b.reservedSectors >= 1 && b.fatCount >= 1
    && (b.mediaDescriptor == 0xF0 || b.mediaDescriptor >= 0xF8)
    && b.rootEntryCount == 0 && b.fatSize16 == 0 && b.totalSectors16 == 0
    && Clusters(b) >= 65525
    && (Clusters(b) + 2) * 4 <= b.fatSize32 * 512
  }

  // The cluster count the specification's FAT Type Determination defines.
  ghost function Clusters(b: Bpb): int {
    if b.sectorsPerCluster == 0 then 0
    else (b.totalSectors32 - b.reservedSectors - b.fatCount * b.fatSize32) / b.sectorsPerCluster
  }

  /** The parser accepts exactly the conformant boot sectors: neither its
      saturating multiplication nor its checked additions change the answer,
      and a 16-bit sector count never passes. */
  lemma ParseAcceptsConformant(s: seq<u8>, extent: VolumeExtent)
    ensures ParseBootSector(s, extent).Success? <==> Conformant(s, extent)
  {
    hide IdentifyFat, Clusters, ReadBpb, BpbAt, LeU16, LeU32, Number4;
    if |s| >= 512 {
      BpbIsBytes(s);
      BootFieldsAreBytes(s);
    }
    if ParseBootSector(s, extent).Success? {
      IdentifiedIsConformant(ReadBpb(s));
    }
    if Conformant(s, extent) {
      ConformantIsIdentified(ReadBpb(s));
    }
  }

  // The fields past the parameter block.
  lemma BootFieldsAreBytes(s: seq<u8>)
    requires |s| >= 512
    ensures LeU32(s, OFF_ROOT_CLUSTER) == Number4(s, 0x2C) && LeU32(s, OFF_HIDDEN_SECTORS) == Number4(s, 0x1C)
    ensures LeU16(s, OFF_FS_INFO_SECTOR) == Number2(s, 0x30) && LeU16(s, OFF_BACKUP_BOOT_SECTOR) == Number2(s, 0x32)
    ensures LeU16(s, OFF_EXT_FLAGS) == Number2(s, 0x28) && LeU16(s, OFF_FS_VERSION) == Number2(s, 0x2A)
    ensures LeU16(s, OFF_FAT_SIZE_16) == ReadBpb(s).fatSize16
    ensures Bit(LeU16(s, OFF_EXT_FLAGS), MIRRORING_DISABLED) <==> s[0x28] >= 0x80
    ensures LeU16(s, OFF_EXT_FLAGS) % 16 == s[0x28] % 16
  {
    FieldsAreNumbers(s, 0x2C);
    FieldsAreNumbers(s, 0x1C);
    FieldsAreNumbers(s, 0x30);
    FieldsAreNumbers(s, 0x32);
    FieldsAreNumbers(s, 0x28);
    FieldsAreNumbers(s, 0x2A);
  }

  lemma IdentifiedIsConformant(b: Bpb)
    requires IdentifyFat(b).Identified? && IdentifyFat(b).filesystem.Fat32?
    requires var g := IdentifyFat(b).geometry.value;
      && g.bytesPerSector == 512 && g.rootEntryCount == 0
      && (g.clusterCount + 2) * 4 <= g.fatSize * 512
    requires b.fatSize16 == 0
    ensures ConformantBpb(b) && IdentifyFat(b).geometry.value.clusterCount == Clusters(b)
    ensures var g := IdentifyFat(b).geometry.value;
      g.totalSectors == b.totalSectors32 && g.fatCount == b.fatCount && g.reservedSectors == b.reservedSectors
  {
    var g := IdentifyFat(b).geometry.value;
    ExactMetadata(b);
    if b.totalSectors16 != 0 {
      NoRoomIn16Bits(g.totalSectors, g.reservedSectors, g.fatCount, g.fatSize,
                     g.sectorsPerCluster, g.clusterCount);
      assert false;
    }
  }

  lemma ConformantIsIdentified(b: Bpb)
    requires ConformantBpb(b)
    ensures 0 <= b.fatCount * b.fatSize32
    ensures IdentifyFat(b) == Identified(Fat32, Some(FatGeometry(
      512, b.sectorsPerCluster, b.reservedSectors, b.fatCount, 0, b.mediaDescriptor, b.totalSectors32,
      b.fatSize32, 0, b.totalSectors32 - b.reservedSectors - b.fatCount * b.fatSize32, Clusters(b))))
  {
    var metadata, data := ConformantRoom(b);
    assert SaturatingAddU32(SaturatingMulU32(0, 32), 511) / 512 == 0;
    assert CheckedSubU32(b.totalSectors32, metadata) == Some(data);
  }

  // A conformant block leaves room for its clusters.
  lemma ConformantRoom(b: Bpb) returns (metadata: u32, data: u32)
    requires ConformantBpb(b)
    ensures 0 <= b.fatCount * b.fatSize32 && metadata == b.reservedSectors + b.fatCount * b.fatSize32
    ensures MetadataSectors(b.reservedSectors, b.fatCount, b.fatSize32, 0) == Some(metadata)
    ensures 0 < data == b.totalSectors32 - metadata
    ensures data / b.sectorsPerCluster == Clusters(b) <= data
  {
    var product: nat := Product(b.fatCount, b.fatSize32);
    var rest: int := b.totalSectors32 - b.reservedSectors - product;
    PositiveQuotient(rest, b.sectorsPerCluster, Clusters(b));
    MetadataSectorsExact(b.reservedSectors, b.fatCount, b.fatSize32, 0, product);
    metadata, data := b.reservedSectors + product, rest;
  }

  function Product(a: nat, b: nat): nat {
    assert 0 <= a * b;
    a * b
  }

  lemma PositiveQuotient(x: int, d: nat, q: int)
    requires d >= 1 && q == x / d && q >= 1
    ensures x >= d && q <= x
  {
    if x < d {
      NonPositiveQuotient(x, d);
      assert false;
    }
    DivAtMost(x, d);
  }

  // FATs large enough to describe 65525 clusters leave fewer than 65525
  // sectors of any 16-bit sector count.
  lemma NoRoomIn16Bits(total: nat, reserved: nat, fats: nat, fatSize: nat, spc: nat, clusters: nat)
    requires fats >= 1 && spc >= 1 && reserved + fats * fatSize <= total
    requires clusters == (total - reserved - fats * fatSize) / spc
    requires clusters >= 65525 && (clusters + 2) * 4 <= fatSize * 512
    ensures total >= 0x1_0000
  {
    MulMono(1, fats, fatSize);
    var data := total - reserved - fats * fatSize;
    assert data >= data / spc by { DivAtMost(data, spc); }
  }

  lemma NonPositiveQuotient(x: int, d: int)
    requires d >= 1 && x < d
    ensures x / d <= 0
  {
    assert x == x / d * d + x % d;
    if x / d >= 1 {
      MulMono(1, x / d, d);
      assert false;
    }
  }

  // A FAT identification with no fixed root directory computed its cluster
  // count from the exact metadata size.
  lemma ExactMetadata(b: Bpb)
    requires IdentifyFat(b).Identified? && b.rootEntryCount == 0
    ensures var g := IdentifyFat(b).geometry.value;
      && g.rootDirSectors == 0
      && 0 <= g.fatCount * g.fatSize
      && g.dataSectors == g.totalSectors - g.reservedSectors - g.fatCount * g.fatSize
      && g.clusterCount == g.dataSectors / g.sectorsPerCluster
  {
    var g := IdentifyFat(b).geometry.value;
    assert (g.bytesPerSector - 1) / g.bytesPerSector == 0;
    assert 0 <= g.fatCount * g.fatSize;
    MetadataSectorsExact(g.reservedSectors, g.fatCount, g.fatSize, 0, g.fatCount * g.fatSize);
  }

  /** An accepted boot sector's geometry is sound. */
  lemma ParseIsSound(s: seq<u8>, extent: VolumeExtent)
    requires ParseBootSector(s, extent).Success?
    ensures Volume(ParseBootSector(s, extent).value, extent).Sound()
  {
    var g := Identify(s).geometry.value;
    ExactMetadata(ReadBpb(s));
    DivAtMost(g.dataSectors, g.sectorsPerCluster);
  }

  /** No unchecked 32-bit operation on sound geometry wraps or saturates. */
  lemma SoundNeverWraps(v: Volume)
    requires v.Sound()
    ensures v.boot.geometry.FirstDataSector() == v.MetadataSectors()
    ensures v.boot.geometry.DataClustersEnd() == v.LastCluster()
    ensures 512 <= v.boot.geometry.ClusterBytes() == 512 * v.boot.geometry.sectorsPerCluster <= MAX_CLUSTER_BYTES
  {
    var g := v.boot.geometry;
    MulMono(1, g.sectorsPerCluster, g.clusterCount);
    var data, fats: nat := g.clusterCount * g.sectorsPerCluster, g.fatCount * g.fatSize;
    assert g.reservedSectors + fats + data <= U32_MAX && g.clusterCount <= data;
    assert WrapU32(fats) == fats;
    assert WrapU32(g.reservedSectors + fats) == g.reservedSectors + fats;
  }
}
