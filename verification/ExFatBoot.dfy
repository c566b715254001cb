/** Validating one exFAT boot region. */
module ExFatBoot {
  import opened ExFat
  import opened ExFatChecksum
  import opened ExFatGeometry
  import opened Filesystems
  import opened Machine
  import opened Wrappers

  const SMALLEST_SECTOR: nat := 512

  function PartitionBytes(extent: VolumeExtent): u64 { extent.sectorCount * 512 }

  predicate UsableShift(shift: u8) { MIN_BYTES_PER_SECTOR_SHIFT <= shift <= MAX_BYTES_PER_SECTOR_SHIFT }

  function RegionBytes(shift: u8): (n: nat)
    ensures UsableShift(shift) ==> 6144 <= n <= 49152
  {
    SectorSizes();
    REGION_SECTORS * Pow2(shift)
  }

  // The first byte of the must-be-zero field, from `from` on, that is not.
  function FirstNonZero(region: seq<u8>, from: nat): (at: Option<nat>)
    requires |region| >= SMALLEST_SECTOR
    ensures at.Some? ==> from <= at.value < OFF_MUST_BE_ZERO + MUST_BE_ZERO_LEN && region[at.value] != 0
    ensures forall i :: from <= i < (if at.Some? then at.value else OFF_MUST_BE_ZERO + MUST_BE_ZERO_LEN) ==>
      region[i] == 0
    decreases OFF_MUST_BE_ZERO + MUST_BE_ZERO_LEN - from
  {
    if from >= OFF_MUST_BE_ZERO + MUST_BE_ZERO_LEN then None
    else if region[from] != 0 then Some(from)
    else FirstNonZero(region, from + 1)
  }

  function GeometryOf(region: seq<u8>, shift: u8): Geometry
    requires |region| >= SMALLEST_SECTOR
  {
    Geometry(
      LeU64(region, OFF_VOLUME_LENGTH), LeU32(region, OFF_FAT_OFFSET), LeU32(region, OFF_FAT_LENGTH),
      LeU32(region, OFF_CLUSTER_HEAP_OFFSET), LeU32(region, OFF_CLUSTER_COUNT),
      LeU32(region, OFF_EXFAT_ROOT_CLUSTER), shift, region[OFF_SECTORS_PER_CLUSTER_SHIFT],
      region[OFF_NUMBER_OF_FATS])
  }

  function CheckMainOnlyFields(flags: u16, percent: u8, fats: u8): Result<(), ExFatError> {
    if flags % 2 == 1 && fats == 1 then Failure(ActiveFat(flags))
    else if percent > 100 && percent != PERCENT_NOT_AVAILABLE then Failure(PercentInUse(percent))
    else Success(())
  }

  // The checks on identity, before any number is used.
  function CheckIdentity(region: seq<u8>, shift: u8): Result<(), ExFatError>
    requires |region| >= SMALLEST_SECTOR && 9 <= shift <= 12
  {
    if region[0..3] != JUMP_BOOT then Failure(JumpBoot(region[0..3]))
    else if region[3..11] != OEM_EXFAT then Failure(FileSystemName(region[3..11]))
    else
    var nonZero := FirstNonZero(region, OFF_MUST_BE_ZERO);
    if nonZero.Some? then Failure(MustBeZero(nonZero.value))
    else if region[0x1FE..0x200] != [0x55, 0xAA] then Failure(BootSignature(region[0x1FE..0x200]))
    else
    var clusterShift := region[OFF_SECTORS_PER_CLUSTER_SHIFT];
    if clusterShift > MAX_CLUSTER_SHIFT_SUM - shift then
      Failure(SectorsPerClusterShift(clusterShift, MAX_CLUSTER_SHIFT_SUM - shift))
    else if region[OFF_NUMBER_OF_FATS] != 1 && region[OFF_NUMBER_OF_FATS] != 2 then
      Failure(NumberOfFats(region[OFF_NUMBER_OF_FATS]))
    else Success(())
  }

  function CheckRevision(major: u8, minor: u8): Result<(), ExFatError> {
    if major > MAX_REVISION_BYTE || minor > MAX_REVISION_BYTE then Failure(RevisionOutOfRange(major, minor))
    else if major != SUPPORTED_MAJOR_REVISION then Failure(RevisionUnsupported(major, minor))
    else Success(())
  }

  // Unbounded, because shifting a 64-bit sector count overflows 64 bits.
  function VolumeBytes(g: Geometry): nat {
    assert 0 <= g.volumeLength * g.SectorBytes();
    g.volumeLength * g.SectorBytes()
  }

  // The volume against its partition, compared in bytes.
  function CheckLength(g: Geometry, extent: VolumeExtent): Result<seq<ExFatObservation>, ExFatError> {
    var partitionBytes := PartitionBytes(extent);
    if VolumeBytes(g) > partitionBytes then Failure(VolumeLongerThanPartition(VolumeBytes(g), partitionBytes))
    else if VolumeBytes(g) < partitionBytes then
      Success([VolumeShorterThanPartition(VolumeBytes(g), partitionBytes)])
    else Success([])
  }

  // The checks after the checksum's.
  function CheckFields(region: seq<u8>, shift: u8, which: BootRegion, extent: VolumeExtent)
    : Result<ExFatBootSector, ExFatError>
    requires |region| >= SMALLEST_SECTOR && 9 <= shift <= 12
  {
    var _ :- CheckIdentity(region, shift);
    var geometry := GeometryOf(region, shift);
    var _ :- CheckGeometry(geometry);
    var _ :- CheckRevision(region[OFF_REVISION_MAJOR], region[OFF_REVISION_MINOR]);
    var flags, percent := LeU16(region, OFF_VOLUME_FLAGS), region[OFF_PERCENT_IN_USE];
    var _ :- if which.Main? then CheckMainOnlyFields(flags, percent, geometry.fats) else Success(());
    var observations :- CheckLength(geometry, extent);
    if geometry.fats == 2 then Failure(TexFat)
    else
      Success(ExFatBootSector(
        which, geometry, LeU32(region, OFF_VOLUME_SERIAL), region[OFF_REVISION_MINOR],
        if which.Main? then Some(flags) else None, if which.Main? then Some(percent) else None,
        observations, false))
  }

  // What validating a region comes to: its sector size, then its checksum,
  // then every other field.
  ghost function RegionVerdict(region: seq<u8>, which: BootRegion, extent: VolumeExtent)
    : Result<ExFatBootSector, ExFatError>
  {
    if |region| < SMALLEST_SECTOR then Failure(RegionOutsidePartition(512, |region|))
    else
    var shift := region[OFF_BYTES_PER_SECTOR_SHIFT];
    if !UsableShift(shift) then Failure(BytesPerSectorShift(shift))
    else
    SectorSizes();
    if |region| < RegionBytes(shift) then Failure(RegionOutsidePartition(RegionBytes(shift), |region|))
    else
    var _ :- ChecksumVerdict(region, shift);
    CheckFields(region, shift, which, extent)
  }

  method ValidateRegion(region: seq<u8>, which: BootRegion, extent: VolumeExtent)
    returns (r: Result<ExFatBootSector, ExFatError>)
    ensures r == RegionVerdict(region, which, extent)
  {
    hide ChecksumVerdict, CheckFields;
    if |region| < SMALLEST_SECTOR {
      return Failure(RegionOutsidePartition(512, |region|));
    }
    var shift := region[OFF_BYTES_PER_SECTOR_SHIFT];
    if !UsableShift(shift) {
      return Failure(BytesPerSectorShift(shift));
    }
    SectorSizes();
    var sectorBytes := Pow2(shift);
    if |region| < REGION_SECTORS * sectorBytes {
      return Failure(RegionOutsidePartition(REGION_SECTORS * sectorBytes, |region|));
    }
    var _ :- CheckChecksum(region, shift, sectorBytes);
    r := CheckFields(region, shift, which, extent);
  }

  // --- What the specification asks of a region ----------------------------

  ghost predicate BytesAre(region: seq<u8>, at: nat, expected: seq<u8>)
    requires at + |expected| <= |region|
  {
    forall i :: 0 <= i < |expected| ==> region[at + i] == expected[i]
  }

  // The fields of a layout, at the offsets the specification gives them.
  ghost function GeometryIn(region: seq<u8>): Geometry
    requires |region| >= 512
  {
    Geometry(
      Number8(region, 72), Number4(region, 80), Number4(region, 84), Number4(region, 88), Number4(region, 92),
      Number4(region, 96), region[108], region[109], region[110])
  }

  lemma GeometryIsBytes(region: seq<u8>)
    requires |region| >= 512
    ensures GeometryOf(region, region[108]) == GeometryIn(region)
  {
    hide LeU32, LeU64, Number4, Number8;
    FieldsAreNumbers(region, 72);
    FieldsAreNumbers(region, 80);
    FieldsAreNumbers(region, 84);
    FieldsAreNumbers(region, 88);
    FieldsAreNumbers(region, 92);
    FieldsAreNumbers(region, 96);
  }

  /** A boot region as sections 3.1 and 3.4 of the exFAT file system
      specification describe it, for a volume its partition holds. */
  ghost predicate ConformantRegion(region: seq<u8>, which: BootRegion, extent: VolumeExtent) {
    |region| >= 512 &&
    var shift := region[108];
    9 <= shift <= 12 && |region| >= 12 * Pow2(shift) &&
    var g := GeometryIn(region);
    && Repeats(ChecksumSector(region, shift), Checksum(region, shift))
    && BytesAre(region, 0, [0xEB, 0x76, 0x90])
    && BytesAre(region, 3, [0x45, 0x58, 0x46, 0x41, 0x54, 0x20, 0x20, 0x20])
    && (forall i :: 11 <= i < 64 ==> region[i] == 0)
    && BytesAre(region, 510, [0x55, 0xAA])
    && shift + g.clusterShift <= 25 && 1 <= g.fats <= 2
    && ConformantGeometry(g)
    && region[105] == 1 && region[104] <= 99
    && (which.Main? ==> (g.fats == 1 ==> region[106] % 2 == 0) && (region[112] <= 100 || region[112] == 0xFF))
    && VolumeBytes(g) <= extent.sectorCount * 512
  }

  lemma BytesMatch(region: seq<u8>, at: nat, expected: seq<u8>)
    requires at + |expected| <= |region|
    ensures region[at..at + |expected|] == expected <==> BytesAre(region, at, expected)
  {
    var found := region[at..at + |expected|];
    if BytesAre(region, at, expected) {
      assert forall i :: 0 <= i < |found| ==> found[i] == region[at + i];
      assert found == expected;
    }
    if found == expected {
      assert forall i :: 0 <= i < |found| ==> found[i] == region[at + i];
    }
  }

  lemma IdentityIff(region: seq<u8>, shift: u8)
    requires |region| >= 512 && 9 <= shift <= 12
    ensures var g := GeometryOf(region, shift); CheckIdentity(region, shift).Success? <==>
      && BytesAre(region, 0, [0xEB, 0x76, 0x90])
      && BytesAre(region, 3, [0x45, 0x58, 0x46, 0x41, 0x54, 0x20, 0x20, 0x20])
      && (forall i :: 11 <= i < 64 ==> region[i] == 0)
      && BytesAre(region, 510, [0x55, 0xAA])
      && shift + g.clusterShift <= 25 && 1 <= g.fats <= 2
  {
    hide BytesAre, FirstNonZero;
    BytesMatch(region, 0, JUMP_BOOT);
    BytesMatch(region, 3, OEM_EXFAT);
    BytesMatch(region, 510, [0x55, 0xAA]);
    assert region[0..3] == region[0..0 + 3];
  }

  // An identity that passes gives the geometry its shape.
  lemma FieldsIff(region: seq<u8>, shift: u8, which: BootRegion, extent: VolumeExtent)
    requires |region| >= 512 && 9 <= shift <= 12
    ensures var r, g := CheckFields(region, shift, which, extent), GeometryOf(region, shift);
      (r.Success? || r == Failure(TexFat)) <==>
      && CheckIdentity(region, shift).Success? && ConformantGeometry(g)
      && region[105] == 1 && region[104] <= 99
      && (which.Main? ==> (g.fats == 1 ==> region[106] % 2 == 0) && (region[112] <= 100 || region[112] == 0xFF))
      && VolumeBytes(g) <= extent.sectorCount * 512
    ensures CheckFields(region, shift, which, extent).Success? ==> GeometryOf(region, shift).fats == 1
    ensures CheckFields(region, shift, which, extent) == Failure(TexFat) ==> GeometryOf(region, shift).fats == 2
  {
    hide CheckGeometry, ConformantGeometry, FirstNonZero;
    var g := GeometryOf(region, shift);
    FlagParity(region);
    if CheckIdentity(region, shift).Success? {
      AcceptsConformantGeometry(g);
      RefusalIsNotTexFat(g);
    }
  }

  lemma FlagParity(region: seq<u8>)
    requires |region| >= 512
    ensures LeU16(region, OFF_VOLUME_FLAGS) % 2 == region[106] % 2
  {
  }

  lemma RefusalIsNotTexFat(g: Geometry)
    requires g.Shaped()
    ensures CheckGeometry(g).Failure? ==> !CheckGeometry(g).error.TexFat?
  {
  }

  /** A region passes every check exactly when it is conformant: one with one
      FAT is accepted, and one with two is identified as TexFAT and nothing
      else is. */
  lemma AcceptsConformantRegions(region: seq<u8>, which: BootRegion, extent: VolumeExtent)
    ensures var r := RegionVerdict(region, which, extent);
      && (r.Success? <==> ConformantRegion(region, which, extent) && region[110] == 1)
      && (r == Failure(TexFat) <==> ConformantRegion(region, which, extent) && region[110] == 2)
      && (ConformantRegion(region, which, extent) ==> r.Success? || r == Failure(TexFat))
  {
    hide CheckFields, CheckIdentity, ChecksumVerdict, Checksum, ConformantGeometry, Repeats, BytesAre, LeU16,
      LeU32, LeU64, Number4, Number8;
    if |region| >= 512 && 9 <= region[108] <= 12 && |region| >= RegionBytes(region[108]) {
      var shift := region[108];
      GeometryIsBytes(region);
      PassesIffRepeated(region, shift);
      VerdictIsNotTexFat(region, shift);
      IdentityIff(region, shift);
      FieldsIff(region, shift, which, extent);
    }
  }

  lemma VerdictIsNotTexFat(region: seq<u8>, shift: u8)
    requires 9 <= shift <= 12 && REGION_SECTORS * Pow2(shift) <= |region|
    ensures ChecksumVerdict(region, shift) != Failure(TexFat)
  {
  }

  /** What an accepted region gives is what its bytes say, and the stale
      fields are taken from a main region only. */
  lemma AcceptedFields(region: seq<u8>, which: BootRegion, extent: VolumeExtent)
    requires RegionVerdict(region, which, extent).Success?
    ensures ConformantRegion(region, which, extent)
    ensures var b := RegionVerdict(region, which, extent).value;
      && b.region == which && b.geometry == GeometryIn(region) && !b.locatedBySearch
      && b.geometry.Shaped() && b.geometry.fats == 1 && ConformantGeometry(b.geometry)
      && VolumeBytes(b.geometry) <= PartitionBytes(extent)
      && b.volumeSerial == Number4(region, 100) && b.revisionMinor == region[104]
      && b.volumeFlags == (if which.Main? then Some(Number2(region, 106)) else None)
      && b.percentInUse == (if which.Main? then Some(region[112]) else None)
      && b.observations ==
         (if VolumeBytes(b.geometry) == extent.sectorCount * 512 then []
          else [VolumeShorterThanPartition(VolumeBytes(b.geometry), extent.sectorCount * 512)])
  {
    hide LeU16, LeU32, Number4, CheckIdentity, ChecksumVerdict, Checksum, ConformantGeometry, CheckGeometry,
      Repeats, BytesAre;
    AcceptsConformantRegions(region, which, extent);
    GeometryIsBytes(region);
    FieldsAreNumbers(region, 100);
    FieldsAreNumbers(region, 106);
  }

  /** Changing exactly one covered byte of an accepted region, other than the
      one giving its sector size, makes it fail its checksum. */
  lemma OneChangedByteIsRefused(region: seq<u8>, which: BootRegion, extent: VolumeExtent, k: nat, b: u8)
    requires RegionVerdict(region, which, extent).Success?
    requires k < Covered(region, region[108]) && !Skipped(k) && k != 108 && b != region[k]
    ensures RegionVerdict(region[k := b], which, extent).Failure?
         && RegionVerdict(region[k := b], which, extent).error.ChecksumMismatch?
  {
    hide CheckFields, ChecksumVerdict, Checksum;
    SectorSizes();
    OneByteIsRefused(region, region[108], k, b);
  }
}
