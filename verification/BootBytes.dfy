/** What an accepted FAT32 boot sector's bytes come to: which filesystem they
    name, the fields taken from them, and where in the evidence the tables and
    the clusters then lie. Offsets and bounds are written out as numbers. */
module BootBytes {
  import opened Fat
  import opened Fat32
  import opened FatLayout
  import opened Filesystems
  import opened Machine
  import opened Wrappers

  // Identification.

  // Total sectors and sectors a table takes: the 16-bit field where it is in
  // use, the 32-bit one where it is zero.
  ghost function Total(b: Bpb): nat { if b.totalSectors16 == 0 then b.totalSectors32 else b.totalSectors16 }

  ghost function TableSize(b: Bpb): nat { if b.fatSize16 == 0 then b.fatSize32 else b.fatSize16 }

  // Sectors the fixed root directory takes, rounded up.
  ghost function RootSectors(b: Bpb): nat
    requires b.bytesPerSector > 0
  {
    var entries: nat := b.rootEntryCount * 32;
    (entries + b.bytesPerSector - 1) / b.bytesPerSector
  }

  // Sectors left for data, and the clusters in them.
  ghost function DataLeft(b: Bpb): int
    requires b.bytesPerSector > 0
  {
    Total(b) - b.reservedSectors - b.fatCount * TableSize(b) - RootSectors(b)
  }

  ghost function Count(b: Bpb): int
    requires b.bytesPerSector > 0 && b.sectorsPerCluster > 0
  {
    DataLeft(b) / b.sectorsPerCluster
  }

  // A parameter block that describes some FAT volume.
  ghost predicate DescribesFat(b: Bpb) {
    && b.bytesPerSector in {512, 1024, 2048, 4096}
    && b.sectorsPerCluster in {1, 2, 4, 8, 16, 32, 64, 128}
    && b.bytesPerSector * b.sectorsPerCluster <= 32768
    && b.reservedSectors >= 1 && b.fatCount >= 1
    && (b.mediaDescriptor == 0xF0 || b.mediaDescriptor >= 0xF8)
    && TableSize(b) >= 1
    && DataLeft(b) >= 1
  }

  // Which filesystem a sector names, if any.
  ghost function Named(s: seq<u8>): Option<Filesystem> {
    if |s| < 512 || s[0x1FE] != 0x55 || s[0x1FF] != 0xAA || s[0] !in {0xEB, 0xE9} then None
    else if s[3..11] == [0x45, 0x58, 0x46, 0x41, 0x54, 0x20, 0x20, 0x20] then Some(ExFat)
    else if s[3..11] == [0x4E, 0x54, 0x46, 0x53, 0x20, 0x20, 0x20, 0x20] then Some(Ntfs)
    else
      var b := BpbAt(s);
      if !DescribesFat(b) then None
      else if Count(b) < 4085 then Some(Fat12)
      else if Count(b) < 65525 then Some(Fat16)
      else Some(Filesystem.Fat32)
  }

  /** Identification names a filesystem exactly as the unbounded arithmetic of
      the bytes does: saturation and overflow checks never decide. */
  lemma IdentifyMeaning(s: seq<u8>)
    ensures var id := Identify(s);
      Named(s) == if id.Identified? then Some(id.filesystem) else None
  {
    hide IdentifyFat, ReadBpb, BpbAt, DescribesFat, Count;
    if |s| >= 512 {
      BpbIsBytes(s);
      FatMeaning(ReadBpb(s));
    }
  }

  // The geometry of a block that describes a volume.
  ghost predicate Declares(g: FatGeometry, b: Bpb)
    requires b.bytesPerSector > 0 && b.sectorsPerCluster > 0
  {
    && g.bytesPerSector == b.bytesPerSector && g.sectorsPerCluster == b.sectorsPerCluster
    && g.reservedSectors == b.reservedSectors && g.fatCount == b.fatCount && g.rootEntryCount == b.rootEntryCount
    && g.mediaDescriptor == b.mediaDescriptor && g.totalSectors == Total(b) && g.fatSize == TableSize(b)
    && g.rootDirSectors == RootSectors(b) && g.dataSectors == DataLeft(b) && g.clusterCount == Count(b)
  }

  lemma FatMeaning(b: Bpb)
    ensures IdentifyFat(b).Identified? <==> DescribesFat(b)
    ensures DescribesFat(b) ==>
      IdentifyFat(b).filesystem ==
        if Count(b) < 4085 then Fat12 else if Count(b) < 65525 then Fat16 else Filesystem.Fat32
    ensures DescribesFat(b) ==> IdentifyFat(b).geometry.Some? && Declares(IdentifyFat(b).geometry.value, b)
  {
    if b.bytesPerSector > 0 {
      var roots: nat, product: nat := RootSectors(b), Product(b.fatCount, TableSize(b));
      DivAtMost(b.rootEntryCount * 32 + b.bytesPerSector - 1, b.bytesPerSector);
      if b.reservedSectors >= 1 {
        MetadataSectorsExact(b.reservedSectors, b.fatCount, TableSize(b), roots, product);
      }
    }
  }

  // Whether a reason for naming no filesystem says only what is so.
  ghost predicate TrueOfUnknown(reason: UnknownReason, s: seq<u8>) {
    if |s| < 512 then reason == ShortSector(|s|)
    else if s[0x1FE] != 0x55 || s[0x1FF] != 0xAA then reason == NoSignature(s[0x1FE], s[0x1FF])
    else if s[0] !in {0xEB, 0xE9} then reason == NoJumpInstruction(s[0])
    else TrueOfBlock(reason, BpbAt(s))
  }

  ghost predicate TrueOfBlock(reason: UnknownReason, b: Bpb) {
    match reason
    case InvalidBpbField(field, value) =>
      || (field == "bytes_per_sector" && value == b.bytesPerSector && value !in {512, 1024, 2048, 4096})
      || (field == "sectors_per_cluster" && value == b.sectorsPerCluster
          && value !in {1, 2, 4, 8, 16, 32, 64, 128})
      || (field == "cluster_bytes" && value == b.bytesPerSector * b.sectorsPerCluster > 32768)
      || (field == "reserved_sectors" && value == b.reservedSectors == 0)
      || (field == "fat_count" && value == b.fatCount == 0)
      || (field == "media_descriptor" && value == b.mediaDescriptor && value != 0xF0 && value < 0xF8)
    case NoSectorCount => Total(b) == 0
    case NoFatSize => TableSize(b) == 0
    case MetadataOverflows =>
      b.bytesPerSector > 0 && b.reservedSectors + b.fatCount * TableSize(b) + RootSectors(b) > 0xFFFF_FFFF
    case MetadataExceedsTotal => b.bytesPerSector > 0 && DataLeft(b) < 0
    case NoDataRegion => b.bytesPerSector > 0 && DataLeft(b) == 0
    case _ => false
  }

  /** Where no filesystem is named, the reason given is true of the bytes. */
  lemma UnknownsAreTrue(s: seq<u8>)
    requires Identify(s).Unknown?
    ensures TrueOfUnknown(Identify(s).reason, s)
  {
    hide IdentifyFat, ReadBpb, BpbAt, TrueOfBlock;
    if |s| >= 512 {
      BpbIsBytes(s);
      if IdentifyFat(ReadBpb(s)).Unknown? { BlockReasonIsTrue(ReadBpb(s)); }
    }
  }

  lemma BlockReasonIsTrue(b: Bpb)
    requires IdentifyFat(b).Unknown?
    ensures TrueOfBlock(IdentifyFat(b).reason, b)
  {
    if b.bytesPerSector > 0 {
      var roots: nat, product: nat := RootSectors(b), Product(b.fatCount, TableSize(b));
      DivAtMost(b.rootEntryCount * 32 + b.bytesPerSector - 1, b.bytesPerSector);
      if b.reservedSectors >= 1 {
        MetadataSectorsExact(b.reservedSectors, b.fatCount, TableSize(b), roots, product);
      }
    }
  }

  // The fields of an accepted sector.

  // The FAT an accepted sector says to read: the active one where mirroring
  // is off, else the first.
  ghost function TableInUse(s: seq<u8>): nat
    requires |s| >= 512
  {
    if s[0x28] >= 0x80 then s[0x28] % 16 else 0
  }

  ghost function DataSectors(s: seq<u8>): int
    requires |s| >= 512
  {
    Number4(s, 0x20) - Number2(s, 0x0E) - s[0x10] * Number4(s, 0x24)
  }

  ghost function Findings(s: seq<u8>, extent: VolumeExtent): seq<Fat32Observation>
    requires |s| >= 512
  {
    (if Number4(s, 0x20) < extent.sectorCount
     then [VolumeSmallerThanExtent(Number4(s, 0x20), extent.sectorCount)] else [])
    + (if Number4(s, 0x1C) != 0 && Number4(s, 0x1C) != extent.startLba
       then [HiddenSectorsDisagree(Number4(s, 0x1C), extent.startLba)] else [])
    + (if s[0x28] >= 0x80 then [FatMirroringDisabled(s[0x28] % 16)] else [])
  }

  lemma AcceptedFieldsAreBytes(s: seq<u8>, extent: VolumeExtent)
    requires ParseBootSector(s, extent).Success?
    ensures |s| >= 512 && s[0x0D] != 0
    ensures var boot := ParseBootSector(s, extent).value;
      && boot.rootCluster == Number4(s, 0x2C) && boot.hiddenSectors == Number4(s, 0x1C)
      && boot.extFlags == Number2(s, 0x28) && boot.CurrentFat() == TableInUse(s)
      && boot.fsInfoSector == Number2(s, 0x30) && boot.backupBootSector == Number2(s, 0x32)
      && boot.observations == Findings(s, extent)
    ensures var g := ParseBootSector(s, extent).value.geometry;
      && g.bytesPerSector == 512 && g.sectorsPerCluster == s[0x0D] && g.reservedSectors == Number2(s, 0x0E)
      && g.fatCount == s[0x10] && g.fatSize == Number4(s, 0x24) && g.totalSectors == Number4(s, 0x20)
      && g.mediaDescriptor == s[0x15] && g.rootEntryCount == 0 && g.rootDirSectors == 0
      && g.dataSectors == DataSectors(s) && g.clusterCount == DataSectors(s) / s[0x0D]
  {
    hide ReadBpb, LeU16, LeU32, Number4;
    BpbIsBytes(s);
    BootFieldsAreBytes(s);
    IdentifiedIsConformant(ReadBpb(s));
    ConformantIsIdentified(ReadBpb(s));
  }

  // The layout.

  /** The tables follow the reserved sectors one after the other and fill all
      the space before the first data cluster. */
  lemma FatsFillTheGap(v: Volume)
    requires v.Sound()
    ensures FatStart(v, 0) == 512 * (v.extent.startLba + v.boot.geometry.reservedSectors)
    ensures forall k: nat :: FatStart(v, k + 1) == FatStart(v, k) + 512 * v.boot.geometry.fatSize
    ensures FatStart(v, v.boot.geometry.fatCount) == ClusterStart(v, 2)
  {
    var size: nat := v.boot.geometry.fatSize;
    assert 0 * size == 0;
    forall k: nat ensures FatStart(v, k + 1) == FatStart(v, k) + 512 * size {
      assert (k + 1) * size == k * size + size;
    }
    assert (2 - 2) * v.boot.geometry.sectorsPerCluster == 0;
  }

  /** From an accepted sector's bytes alone: where the byte a cluster begins
      at and the byte its FAT entry begins at lie in the evidence. */
  lemma PlacesFromBytes(s: seq<u8>, extent: VolumeExtent, c: u32)
    requires ParseBootSector(s, extent).Success?
    requires 2 <= c < DataSectors(s) / s[0x0D] + 2
    ensures var v := Volume(ParseBootSector(s, extent).value, extent);
      && v.HasCluster(c)
      && ClusterOffset(v, c) == Success(512 * (extent.startLba + Number2(s, 0x0E) + s[0x10] * Number4(s, 0x24)
                                               + (c - 2) * s[0x0D]))
      && FatEntryOffset(v, v.boot.CurrentFat(), c)
         == Success(512 * (extent.startLba + Number2(s, 0x0E) + TableInUse(s) * Number4(s, 0x24)) + 4 * c)
  {
    hide ParseBootSector, Number2, Number4, TableInUse, DataSectors, ClusterOffset, FatEntryOffset;
    var v := Volume(ParseBootSector(s, extent).value, extent);
    AcceptedFieldsAreBytes(s, extent);
    ParseIsSound(s, extent);
    ClusterPlacement(v, c);
    FatEntryPlacement(v, c);
  }

  /** What a FAT entry is: the low 28 bits of four bytes of the image. */
  lemma EntryFromBytes(image: seq<u8>, v: Volume, c: nat)
    requires v.Sound() && v.HasCluster(c) && v.extent.FitsIn(|image|)
    ensures EntryStart(v, c) + 4 <= |image|
    ensures FatEntry(image, v, c) == Low28(image, EntryStart(v, c))
  {
    hide LeU32, Number4, FatEntryOffset;
    SoundNeverWraps(v);
    FatEntryPlacement(v, c);
    var at := EntryStart(v, c);
    var four := image[at..at + 4];
    assert forall i :: 0 <= i < 4 ==> four[i] == image[at + i];
    FieldsAreNumbers(four, 0);
    Low28Is(image, at);
  }

  ghost function Low28(b: seq<u8>, at: nat): nat
    requires at + 4 <= |b|
  {
    var b0: int, b1: int, b2: int, b3: int := b[at], b[at + 1], b[at + 2], b[at + 3];
    b0 + 0x100 * b1 + 0x1_0000 * b2 + 0x100_0000 * (b3 % 16)
  }

  lemma Low28Is(b: seq<u8>, at: nat)
    requires at + 4 <= |b|
    ensures Number4(b[at..at + 4], 0) % 0x1000_0000 == Low28(b, at)
  {
    var b3: int := b[at + 3];
    assert Number4(b[at..at + 4], 0) == Low28(b, at) + 0x1000_0000 * (b3 / 16);
  }

  // Refusals.

  // Whether a refusal says of the sector only what is so.
  ghost predicate True(e: Fat32Error, s: seq<u8>, extent: VolumeExtent) {
    if e.NotFat32? then e.identified == Named(s) != Some(Filesystem.Fat32)
    else |s| >= 512 && TrueOfSector(e, s, extent)
  }

  ghost predicate TrueOfSector(e: Fat32Error, s: seq<u8>, extent: VolumeExtent)
    requires |s| >= 512
  {
    match e
    case NotFat32(_) => false
    case UnsupportedSectorSize(bytes) => bytes == Number2(s, 0x0B) != 512
    case InvalidField(field, value) => TrueOfField(field, value, s)
    case VolumeExceedsExtent(declared, sectors) => declared == Total(BpbAt(s)) > sectors == extent.sectorCount
    case InvalidRootCluster(root, count) =>
      root == Number4(s, 0x2C) && count == Counted(s) && !(2 <= root < count + 2)
    case FatTooSmall(bytes, required) => bytes == 512 * Number4(s, 0x24) < required == 4 * (Counted(s) + 2)
  }

  ghost predicate TrueOfField(field: string, value: nat, s: seq<u8>)
    requires |s| >= 512
  {
    var reserved := Number2(s, 0x0E);
    || (field == "root_entry_count" && value == Number2(s, 0x11) != 0)
    || (field == "fat_size_16" && value == Number2(s, 0x16) != 0)
    || (field == "fs_version" && value == Number2(s, 0x2A) != 0)
    || (field == "fs_info_sector" && value == Number2(s, 0x30) != 0xFFFF && (value == 0 || value >= reserved))
    || (field == "backup_boot_sector" && value == Number2(s, 0x32) && value !in {0, 0xFFFF} && value >= reserved)
    || (field == "active_fat" && s[0x28] >= 0x80 && s[0x10] <= value == s[0x28] % 16)
  }

  ghost function Counted(s: seq<u8>): int
    requires |s| >= 512
  {
    if DescribesFat(BpbAt(s)) then Count(BpbAt(s)) else 0
  }

  /** Every refusal of a boot sector names a rule its bytes break, with the
      numbers it breaks it by. */
  lemma RefusalsAreTrue(s: seq<u8>, extent: VolumeExtent)
    requires ParseBootSector(s, extent).Failure?
    ensures True(ParseBootSector(s, extent).error, s, extent)
  {
    hide IdentifyFat, ReadBpb, LeU16, LeU32, Number2, Number4, DescribesFat, Count, Named;
    IdentifyMeaning(s);
    if |s| >= 512 {
      BpbIsBytes(s);
      BootFieldsAreBytes(s);
      FatMeaning(ReadBpb(s));
    }
  }
}
