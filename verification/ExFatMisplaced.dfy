/** A backup boot region that is used where no sector size of its own puts it. */
module ExFatMisplaced {
  import opened ExFat
  import opened ExFatBoot
  import opened ExFatChecksum
  import opened ExFatFallback
  import opened ExFatGeometry
  import opened Filesystems
  import opened Machine

  // The boot sector of a 1 MiB volume of 512-byte sectors: one FAT of two
  // sectors at 24, and 240 clusters of eight sectors from sector 128.
  function BootByte(i: nat): u8 {
    if i == 0 then 0xEB else if i == 1 then 0x76 else if i == 2 then 0x90
    else if 3 <= i < 11 then OEM_EXFAT[i - 3]
    else if i == 73 then 8
    else if i == 80 then 24
    else if i == 84 then 2
    else if i == 88 then 128
    else if i == 92 then 240
    else if i == 96 then 2
    else if i == 105 then 1
    else if i == 108 then 9
    else if i == 109 then 3
    else if i == 110 then 1
    else if i == 510 then 0x55 else if i == 511 then 0xAA
    else 0
  }

  const COVERED_BYTES: nat := 11 * 512

  function Sectors(): (s: seq<u8>)
    ensures |s| == COVERED_BYTES
  {
    seq(COVERED_BYTES, i requires 0 <= i < COVERED_BYTES => BootByte(i))
  }

  function Zeros(n: nat): (s: seq<u8>)
    ensures |s| == n && forall i :: 0 <= i < n ==> s[i] == 0
  {
    seq(n, i requires 0 <= i < n => 0)
  }

  ghost function Sealed(): (s: seq<u8>)
    ensures |s| == 6144
  {
    Sectors() + Sealing(Checksum(Sectors(), 9), 512)
  }

  // Twelve sectors of 4096 bytes, of which the first 6144 bytes are a region
  // of 512-byte sectors.
  ghost function Padded(): (s: seq<u8>)
    ensures |s| == 49152
  {
    Sealed() + Zeros(49152 - 6144)
  }

  // A first sector that declares 4096-byte sectors and is otherwise blank.
  function BlankMain(): (s: seq<u8>)
    ensures |s| == 49152
  {
    seq(49152, i requires 0 <= i < 49152 => if i == 108 then 12 else 0)
  }

  ghost function Image(): (s: seq<u8>)
    ensures |s| == 2048 * 512
  {
    BlankMain() + Padded() + Zeros(2048 * 512 - 2 * 49152)
  }

  const EXTENT: VolumeExtent := VolumeExtent(0, 2048)

  ghost predicate StartsAsBoot(p: seq<u8>) { |p| >= 512 && forall i :: 0 <= i < 512 ==> p[i] == BootByte(i) }

  lemma PaddedStarts()
    ensures StartsAsBoot(Padded())
  {
    hide BootByte, Checksum, Sealing;
    forall i | 0 <= i < 512 ensures Padded()[i] == BootByte(i) {
      assert Padded()[i] == Sealed()[i] == Sectors()[i];
    }
  }

  lemma BootIdentity(p: seq<u8>)
    requires StartsAsBoot(p)
    ensures p[108] == 9 && p[110] == 1 && p[105] == 1 && p[104] == 0
    ensures BytesAre(p, 0, [0xEB, 0x76, 0x90]) && BytesAre(p, 3, OEM_EXFAT) && BytesAre(p, 510, [0x55, 0xAA])
    ensures forall i :: 11 <= i < 64 ==> p[i] == 0
  {
  }

  // A word with a single byte set, its lowest.
  lemma SmallWord(p: seq<u8>, at: nat, value: u8)
    requires at + 4 <= |p| && p[at] == value && p[at + 1] == 0 && p[at + 2] == 0 && p[at + 3] == 0
    ensures LeU32(p, at) == value
  {
  }

  lemma BootGeometry(p: seq<u8>)
    requires StartsAsBoot(p)
    ensures GeometryOf(p, 9) == Geometry(2048, 24, 2, 128, 240, 2, 9, 3, 1)
  {
    hide LeU32;
    SmallWord(p, OFF_FAT_OFFSET, 24);
    SmallWord(p, OFF_FAT_LENGTH, 2);
    SmallWord(p, OFF_CLUSTER_HEAP_OFFSET, 128);
    SmallWord(p, OFF_CLUSTER_COUNT, 240);
    SmallWord(p, OFF_EXFAT_ROOT_CLUSTER, 2);
    SmallWord(p, OFF_VOLUME_LENGTH + 4, 0);
    assert LeU32(p, OFF_VOLUME_LENGTH) == 2048 by { LengthWord(p); }
  }

  lemma LengthWord(p: seq<u8>)
    requires StartsAsBoot(p)
    ensures LeU32(p, OFF_VOLUME_LENGTH) == 2048
  {
  }

  lemma PaddedFields()
    ensures var p := Padded();
      && p[108] == 9 && p[110] == 1 && p[105] == 1 && p[104] == 0
      && BytesAre(p, 0, [0xEB, 0x76, 0x90]) && BytesAre(p, 3, OEM_EXFAT)
      && (forall i :: 11 <= i < 64 ==> p[i] == 0) && BytesAre(p, 510, [0x55, 0xAA])
      && GeometryIn(p) == Geometry(2048, 24, 2, 128, 240, 2, 9, 3, 1)
  {
    hide Padded, GeometryOf, GeometryIn, BytesAre, StartsAsBoot;
    PaddedStarts();
    BootIdentity(Padded());
    BootGeometry(Padded());
    GeometryIsBytes(Padded());
  }

  lemma GeometryIsConformant()
    ensures ConformantGeometry(Geometry(2048, 24, 2, 128, 240, 2, 9, 3, 1))
  {
    SectorSizes();
    assert Pow2(3) == 8;
  }

  lemma PaddedPasses()
    ensures Pow2(9) == 512 && Repeats(ChecksumSector(Padded(), 9), Checksum(Padded(), 9))
  {
    hide Checksum, Sectors;
    SectorSizes();
    var p := Padded();
    assert p[..6144] == Sealed();
    SealedRegionPasses(Sectors(), 9);
    PassesIffRepeated(Sealed(), 9);
    assert ChecksumSector(p, 9) == ChecksumSector(Sealed(), 9);
    ChecksumOfPrefix(p, Sealed(), 9);
  }

  lemma ChecksumOfPrefix(a: seq<u8>, b: seq<u8>, shift: u8)
    requires |a| >= |b| == REGION_SECTORS * Pow2(shift) && a[..|b|] == b
    ensures Checksum(a, shift) == Checksum(b, shift)
  {
    forall i | 0 <= i < |b| ensures a[i] == b[i] { assert a[..|b|][i] == b[i]; }
    KeptOfPrefix(a, b, CHECKSUM_SECTORS * Pow2(shift));
  }

  lemma PaddedIsConformant()
    ensures ConformantRegion(Padded(), Backup, EXTENT)
  {
    hide Padded, Checksum, Repeats, BytesAre, GeometryIn, ConformantGeometry;
    PaddedFields();
    GeometryIsConformant();
    PaddedPasses();
    assert VolumeBytes(Geometry(2048, 24, 2, 128, 240, 2, 9, 3, 1)) == 2048 * 512;
  }

  // A region whose sectors fit the space read for it declares none larger.
  lemma NoLargerSector(region: seq<u8>, shift: u8, which: BootRegion, extent: VolumeExtent)
    requires UsableShift(shift) && |region| == RegionBytes(shift) && ConformantRegion(region, which, extent)
    ensures region[108] <= shift
  {
    hide ConformantGeometry, GeometryIn, Repeats, BytesAre, Checksum;
    SectorSizes();
    if region[108] > shift {
      Pow2AtMost(shift + 1, region[108]);
      assert false;
    }
  }

  /** A backup that is used declares the sector size it was located by, with
      exactly one exception: taken from twelve of the main region's sectors in,
      it declares a smaller one, which byte 108 there says. So it never
      declares a larger one, and never another where the main region's sectors
      are of 512 bytes. */
  lemma BackupDeclaresItsSizeUnless(image: seq<u8>, extent: VolumeExtent)
    requires PartitionBytes(extent) >= 512 && UsableShift(DeclaredShift(image, extent))
    ensures var r, shift := Chosen(image, extent), DeclaredShift(image, extent);
      var n := RegionBytes(shift);
      (r.Success? && r.value.region == Backup && !r.value.locatedBySearch && r.value.geometry.shift != shift)
      <==>
      && !RegionAccepted(image, extent, 0, n, Main) && RegionAccepted(image, extent, n, n, Backup)
      && RegionIn(image, extent, n, n)[110] == 1 && RegionIn(image, extent, n, n)[108] < shift
  {
    hide Chosen, ConformantRegion, RegionIn, GeometryIn, Tried, OnlyOneFatBackup, BackupAt;
    var shift := DeclaredShift(image, extent);
    var n := RegionBytes(shift);
    var region := RegionIn(image, extent, n, n);
    MainThenBackupThenSearch(image, extent);
    ShiftOfGeometry(region);
    if RegionAccepted(image, extent, n, n, Backup) { NoLargerSector(region, shift, Backup, extent); }
  }

  /** And the exception happens: here a backup of 512-byte sectors is used
      twelve 4096-byte sectors in. */
  lemma DirectBackupMayDeclareAnotherSize()
    ensures EXTENT.FitsIn(|Image()|) && Chosen(Image(), EXTENT).Success?
    ensures var b := Chosen(Image(), EXTENT).value;
      b.region == Backup && !b.locatedBySearch && b.geometry.shift == 9 && DeclaredShift(Image(), EXTENT) == 12
  {
    hide Padded, ConformantRegion, Chosen, GeometryIn;
    var image := Image();
    SectorSizes();
    assert RegionIn(image, EXTENT, 49152, 49152) == Padded();
    assert RegionIn(image, EXTENT, 0, 49152) == BlankMain();
    HeadIsMain(image, EXTENT, 49152);
    MainIsRefused();
    PaddedIsConformant();
    PaddedFields();
    assert RegionBytes(12) == 49152;
    MainThenBackupThenSearch(image, EXTENT);
    ShiftOfGeometry(Padded());
  }

  lemma ShiftOfGeometry(region: seq<u8>)
    requires |region| >= 512
    ensures GeometryIn(region).shift == region[108]
  {
  }

  lemma MainIsRefused()
    ensures !ConformantRegion(BlankMain(), Main, EXTENT)
  {
    assert BlankMain()[0] != 0xEB;
  }
}
