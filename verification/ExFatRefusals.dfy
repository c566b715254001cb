/** Why an exFAT boot region is refused, read off its bytes. */
module ExFatRefusals {
  import opened ExFat
  import opened ExFatBoot
  import opened ExFatChecksum
  import opened ExFatFallback
  import opened ExFatGeometry
  import opened Filesystems
  import opened Machine
  import opened Wrappers

  // Whether a region is at least as long as its own twelve sectors.
  predicate Whole(region: seq<u8>) {
    |region| >= 512 && 9 <= region[108] <= 12 && |region| >= 12 * Pow2(region[108])
  }

  // A refusal of a region too short to be one, or of no usable sector size.
  ghost predicate TrueOfSize(e: ExFatError, region: seq<u8>) {
    if |region| < 512 then e == RegionOutsidePartition(512, |region|)
    else if !(9 <= region[108] <= 12) then e == BytesPerSectorShift(region[108])
    else e.RegionOutsidePartition? && e.required == 12 * Pow2(region[108]) > |region| == e.available
  }

  // A refusal by the twelfth sector, which should repeat the checksum.
  ghost predicate TrueOfChecksum(e: ExFatError, region: seq<u8>)
    requires Whole(region)
  {
    var at := 11 * Pow2(region[108]);
    SectorSizes();
    if e.ChecksumMismatch? then
      e.computed == Checksum(region, region[108]) != e.stored == Number4(region, at)
    else
      && e.ChecksumNotRepeated? && 1 <= e.word < Pow2(region[108]) / 4
      && Number4(region, at + 4 * e.word) != Number4(region, at) == Checksum(region, region[108])
  }

  // A refusal by the identity of the volume.
  ghost predicate TrueOfIdentity(e: ExFatError, region: seq<u8>)
    requires |region| >= 512
  {
    match e
    case JumpBoot(jump) => jump == region[0..3] != [0xEB, 0x76, 0x90]
    case FileSystemName(name) => name == region[3..11] != [0x45, 0x58, 0x46, 0x41, 0x54, 0x20, 0x20, 0x20]
    case MustBeZero(at) => 11 <= at < 64 && region[at] != 0 && forall i :: 11 <= i < at ==> region[i] == 0
    case BootSignature(signature) => signature == region[510..512] != [0x55, 0xAA]
    case SectorsPerClusterShift(clusterShift, maximum) =>
      var sum: int := maximum + region[108];
      clusterShift == region[109] > maximum && sum == 25
    case NumberOfFats(fats) => fats == region[110] && fats != 1 && fats != 2
    case _ => false
  }

  // A refusal by any field after those.
  ghost predicate TrueOfFields(e: ExFatError, region: seq<u8>, which: BootRegion, extent: VolumeExtent)
    requires |region| >= 512
  {
    match e
    case RevisionOutOfRange(major, minor) =>
      major == region[105] && minor == region[104] && (major > 99 || minor > 99)
    case RevisionUnsupported(major, minor) =>
      major == region[105] && minor == region[104] && major <= 99 && minor <= 99 && major != 1
    case ActiveFat(flags) => which.Main? && flags == Number2(region, 106) && flags % 2 == 1 && region[110] == 1
    case PercentInUse(percent) => which.Main? && 100 < percent == region[112] < 0xFF
    case VolumeLongerThanPartition(volume, partition) =>
      volume == VolumeBytes(GeometryIn(region)) > partition == extent.sectorCount * 512
    case TexFat => region[110] == 2
    case _ => Violated(GeometryIn(region), e)
  }

  /** Every refusal of a region says something of its bytes that is so: of its
      length and sector size where they make no region, of its checksum where
      it is one, and of a field only where the checksum passes. */
  lemma RegionRefusalsAreTrue(region: seq<u8>, which: BootRegion, extent: VolumeExtent)
    requires RegionVerdict(region, which, extent).Failure?
    ensures var e := RegionVerdict(region, which, extent).error;
      if !Whole(region) then TrueOfSize(e, region)
      else if !Repeats(ChecksumSector(region, region[108]), Checksum(region, region[108])) then
        TrueOfChecksum(e, region)
      else TrueOfIdentity(e, region) || TrueOfFields(e, region, which, extent)
  {
    hide ChecksumVerdict, CheckFields, Checksum, Repeats, TrueOfChecksum, TrueOfIdentity, TrueOfFields;
    if Whole(region) {
      PassesIffRepeated(region, region[108]);
      if ChecksumVerdict(region, region[108]).Failure? {
        ChecksumRefusalIsTrue(region);
      } else {
        FieldRefusalIsTrue(region, which, extent);
      }
    }
  }

  lemma ChecksumRefusalIsTrue(region: seq<u8>)
    requires Whole(region) && ChecksumVerdict(region, region[108]).Failure?
    ensures TrueOfChecksum(ChecksumVerdict(region, region[108]).error, region)
  {
    hide Checksum, LeU32, Number4;
    SectorSizes();
    var shift := region[108];
    var at := 11 * Pow2(shift);
    var sector := ChecksumSector(region, shift);
    forall w: nat | 4 * w + 4 <= |sector| ensures LeU32(sector, w * 4) == Number4(region, at + 4 * w) {
      WordOfPart(region, at, sector, 4 * w);
    }
    assert LeU32(sector, 0 * 4) == Number4(region, at + 4 * 0);
  }

  lemma WordOfPart(whole: seq<u8>, at: nat, part: seq<u8>, k: nat)
    requires at + |part| <= |whole| && part == whole[at..at + |part|] && k + 4 <= |part|
    ensures LeU32(part, k) == Number4(whole, at + k)
  {
    FieldsAreNumbers(part, k);
    assert forall i :: 0 <= i < |part| ==> part[i] == whole[at + i];
  }

  lemma FieldRefusalIsTrue(region: seq<u8>, which: BootRegion, extent: VolumeExtent)
    requires Whole(region) && CheckFields(region, region[108], which, extent).Failure?
    ensures var e := CheckFields(region, region[108], which, extent).error;
      TrueOfIdentity(e, region) || TrueOfFields(e, region, which, extent)
  {
    hide CheckGeometry, Violated, FirstNonZero, GeometryIn, LeU16, LeU32, LeU64, Number2;
    GeometryIsBytes(region);
    FieldsAreNumbers(region, 106);
    if CheckIdentity(region, region[108]).Success? {
      var g := GeometryOf(region, region[108]);
      if CheckGeometry(g).Failure? {
        RefusalsAreTrue(g);
        ViolationsAreOfGeometry(g, CheckGeometry(g).error);
      }
    }
  }

  /** A partition without room for one sector is refused unread, and a region
      past the end of its partition is refused for where it would end. */
  lemma OutsideIsRefused(image: seq<u8>, extent: VolumeExtent, offset: u64, size: u64, which: BootRegion)
    requires offset + size <= U64_MAX
    ensures extent.sectorCount == 0 ==>
      Chosen(image, extent) == Failure(Rejected(RegionOutsidePartition(512, 0), RegionOutsidePartition(512, 0)))
    ensures offset + size > extent.sectorCount * 512 ==>
      Tried(image, extent, offset, size, which)
      == Failure(RegionOutsidePartition(offset + size, extent.sectorCount * 512))
  {
  }

  lemma ViolationsAreOfGeometry(g: Geometry, e: ExFatError)
    requires Violated(g, e)
    ensures !e.RevisionOutOfRange? && !e.RevisionUnsupported? && !e.ActiveFat? && !e.PercentInUse?
    ensures !e.VolumeLongerThanPartition? && !e.TexFat?
  {
  }
}
