/** Which boot region an exFAT volume is read by: the main one, the backup
    beside it, or a backup that only a search over sector sizes finds. */
module ExFatFallback {
  import opened Evidence
  import opened ExFat
  import opened ExFatBoot
  import opened ExFatGeometry
  import opened Filesystems
  import opened Machine
  import opened Wrappers

  function PartitionStart(extent: VolumeExtent): u64 { extent.startLba * 512 }

  // What reading may do to the reader: nothing outside the partition is ever
  // asked for.
  twostate predicate StaysInPartition(reader: EvidenceReader, extent: VolumeExtent)
    reads reader
  {
    forall s :: s in reader.requests && s !in old(reader.requests) ==>
      Inside(s, extent.startLba * 512, (extent.startLba + extent.sectorCount) * 512)
  }

  // A result against the fault-free one: equal to it, unless a read failed,
  // which a reliable reader holding the partition never does.
  ghost predicate Faithful<T(!new)>(reader: EvidenceReader, extent: VolumeExtent,
                                    r: Result<T, ExFatBootFailure>, expected: Result<T, ExFatBootFailure>)
  {
    r == expected
    || (r.Failure? && r.error.UnreadableRegion? && !(reader.reliable && extent.FitsIn(|reader.image|)))
  }

  // --- What the evidence holds --------------------------------------------

  ghost function RegionIn(image: seq<u8>, extent: VolumeExtent, offset: nat, size: nat): (s: seq<u8>)
    ensures |s| == size
  {
    Slice(image, extent.startLba * 512 + offset, size)
  }

  // The region at an offset, validated, if the partition holds it.
  ghost function Tried(image: seq<u8>, extent: VolumeExtent, offset: u64, size: u64, which: BootRegion)
    : Result<ExFatBootSector, ExFatError>
    requires offset + size <= U64_MAX
  {
    if offset + size > PartitionBytes(extent) then
      Failure(RegionOutsidePartition(offset + size, PartitionBytes(extent)))
    else RegionVerdict(RegionIn(image, extent, offset, size), which, extent)
  }

  lemma RegionSizes(shift: u8)
    requires UsableShift(shift)
    ensures RegionBytes(shift) in {6144, 12288, 24576, 49152}
  {
    SectorSizes();
  }

  // Where the backup is tried at one sector size, and what is there.
  ghost function Candidate(image: seq<u8>, extent: VolumeExtent, shift: u8): seq<u8> {
    RegionIn(image, extent, RegionBytes(shift), RegionBytes(shift))
  }

  /** A backup lies where sectors of this size put it: the partition holds it,
      it declares the sector size it was looked for at, and it passes every
      check a backup must, with one FAT or two. */
  ghost predicate BackupAt(image: seq<u8>, extent: VolumeExtent, shift: u8) {
    UsableShift(shift) && 2 * RegionBytes(shift) <= PartitionBytes(extent) &&
    (RegionSizes(shift);
     Candidate(image, extent, shift)[108] == shift && ConformantRegion(Candidate(image, extent, shift), Backup, extent))
  }

  // The sector sizes below `end` at which a backup lies, in order.
  ghost function BackupsBelow(image: seq<u8>, extent: VolumeExtent, skip: Option<u8>, end: u8): seq<u8> {
    if end == 0 then []
    else
      BackupsBelow(image, extent, skip, end - 1) +
      if skip != Some(end - 1) && BackupAt(image, extent, end - 1) then [end - 1] else []
  }

  /** They are exactly those, each once, in increasing order. */
  lemma {:induction false} BackupsAreExact(image: seq<u8>, extent: VolumeExtent, skip: Option<u8>, end: u8)
    ensures var shifts := BackupsBelow(image, extent, skip, end);
      && (forall s: u8 :: s in shifts <==> s < end && skip != Some(s) && BackupAt(image, extent, s))
      && (forall i, j :: 0 <= i < j < |shifts| ==> shifts[i] < shifts[j])
  {
    hide BackupAt;
    if end > 0 {
      BackupsAreExact(image, extent, skip, end - 1);
      var front := BackupsBelow(image, extent, skip, end - 1);
      forall i | 0 <= i < |front| ensures front[i] < end - 1 {
        assert front[i] in front;
      }
    }
  }

  // What is made of the one backup there is.
  ghost function SoleBackup(image: seq<u8>, extent: VolumeExtent, shift: u8): Result<ExFatBootSector, ExFatBootFailure>
    requires BackupAt(image, extent, shift)
  {
    match RegionVerdict(Candidate(image, extent, shift), Backup, extent)
    case Success(boot) => Success(boot.(locatedBySearch := true))
    case Failure(_) => Failure(TexFatVolume(Backup))
  }

  /** What a search comes to: exactly one backup is used; of two or more none
      is, and every one is named; and with none, the two refusals the search
      began with stand. */
  ghost function Searched(image: seq<u8>, extent: VolumeExtent, skip: Option<u8>, main: ExFatError, backup: ExFatError)
    : Result<ExFatBootSector, ExFatBootFailure>
  {
    var shifts := BackupsBelow(image, extent, skip, 13);
    if |shifts| == 0 then Failure(Rejected(main, backup))
    else if |shifts| == 1 then
      BackupsAreExact(image, extent, skip, 13);
      assert shifts[0] in shifts;
      SoleBackup(image, extent, shifts[0])
    else Failure(AmbiguousBackup(shifts))
  }

  ghost function Chosen(image: seq<u8>, extent: VolumeExtent): Result<ExFatBootSector, ExFatBootFailure> {
    if PartitionBytes(extent) < 512 then
      var e := RegionOutsidePartition(512, PartitionBytes(extent));
      Failure(Rejected(e, e))
    else
    var shift := RegionIn(image, extent, 0, 512)[108];
    if !UsableShift(shift) then Searched(image, extent, None, BytesPerSectorShift(shift), BackupNotLocated)
    else
    RegionSizes(shift);
    var n := RegionBytes(shift);
    match Tried(image, extent, 0, n, Main)
    case Success(boot) => Success(boot)
    case Failure(TexFat) => Failure(TexFatVolume(Main))
    case Failure(main) =>
      match Tried(image, extent, n, n, Backup)
      case Success(boot) => Success(boot)
      case Failure(TexFat) => Failure(TexFatVolume(Backup))
      case Failure(backup) => Searched(image, extent, Some(shift), main, backup)
  }

  // --- The protocol -------------------------------------------------------

  // Reads part of the partition.
  method ReadWithin(reader: EvidenceReader, extent: VolumeExtent, offset: u64, size: nat)
    returns (r: Result<seq<u8>, ExFatBootFailure>)
    requires offset + size <= PartitionBytes(extent)
    modifies reader
    ensures StaysInPartition(reader, extent)
    ensures Faithful(reader, extent, r, Success(RegionIn(reader.image, extent, offset, size)))
  {
    hide Slice;
    var raw := reader.ReadExactAt(PartitionStart(extent) + offset, size);
    if raw.Failure? {
      return Failure(UnreadableRegion(raw.error));
    }
    r := Success(raw.value);
  }

  method ReadAndValidate(reader: EvidenceReader, extent: VolumeExtent, offset: u64, size: u64, which: BootRegion)
    returns (r: Result<Result<ExFatBootSector, ExFatError>, ExFatBootFailure>)
    requires offset + size <= U64_MAX
    modifies reader
    ensures StaysInPartition(reader, extent)
    ensures Faithful(reader, extent, r, Success(Tried(reader.image, extent, offset, size, which)))
  {
    hide RegionVerdict, RegionIn;
    var required: u64 := offset + size;
    if required > PartitionBytes(extent) {
      return Success(Failure(RegionOutsidePartition(required, PartitionBytes(extent))));
    }
    var region :- ReadWithin(reader, extent, offset, size);
    var verdict := ValidateRegion(region, which, extent);
    r := Success(verdict);
  }

  // One sector size of a search: the backup there, if there is one. `None`
  // inside is a backup that declares two FATs.
  method TryShift(reader: EvidenceReader, extent: VolumeExtent, shift: u8)
    returns (r: Result<Option<Option<ExFatBootSector>>, ExFatBootFailure>)
    requires UsableShift(shift)
    modifies reader
    ensures StaysInPartition(reader, extent)
    ensures Faithful(reader, extent, r, Success(PassedAt(reader.image, extent, shift)))
  {
    hide RegionVerdict, RegionIn, ConformantRegion;
    RegionSizes(shift);
    var regionBytes := RegionBytes(shift);
    if 2 * regionBytes > PartitionBytes(extent) {
      return Success(None);
    }
    var region :- ReadWithin(reader, extent, regionBytes, regionBytes);
    if region[OFF_BYTES_PER_SECTOR_SHIFT] != shift {
      return Success(None);
    }
    AcceptsConformantRegions(region, Backup, extent);
    var verdict := ValidateRegion(region, Backup, extent);
    match verdict
    case Success(boot) => r := Success(Some(Some(boot.(locatedBySearch := true))));
    case Failure(TexFat) => r := Success(Some(None));
    case Failure(_) => r := Success(None);
  }

  ghost function PassedAt(image: seq<u8>, extent: VolumeExtent, shift: u8): Option<Option<ExFatBootSector>> {
    if !BackupAt(image, extent, shift) then None
    else
      match SoleBackup(image, extent, shift)
      case Success(boot) => Some(Some(boot))
      case Failure(_) => Some(None)
  }

  ghost predicate PassedSoFar(image: seq<u8>, extent: VolumeExtent, shifts: seq<u8>,
                              passed: seq<(u8, Option<ExFatBootSector>)>)
  {
    |passed| == |shifts| && forall i :: 0 <= i < |passed| ==>
      passed[i].0 == shifts[i] && PassedAt(image, extent, shifts[i]) == Some(passed[i].1)
  }

  method SearchBackup(reader: EvidenceReader, extent: VolumeExtent, skip: Option<u8>,
                      mainError: ExFatError, backupError: ExFatError)
    returns (r: Result<ExFatBootSector, ExFatBootFailure>)
    modifies reader
    ensures StaysInPartition(reader, extent)
    ensures Faithful(reader, extent, r, Searched(reader.image, extent, skip, mainError, backupError))
  {
    hide BackupAt, PassedAt, BackupsBelow, Searched, PassedSoFar;
    ghost var image := reader.image;
    var passed: seq<(u8, Option<ExFatBootSector>)> := [];
    NoneSmaller(image, extent, skip);
    var shift: u8 := MIN_BYTES_PER_SECTOR_SHIFT;
    while shift <= MAX_BYTES_PER_SECTOR_SHIFT
      invariant MIN_BYTES_PER_SECTOR_SHIFT <= shift <= 13
      invariant PassedSoFar(image, extent, BackupsBelow(image, extent, skip, shift), passed)
      invariant StaysInPartition(reader, extent)
    {
      PassedStep(image, extent, skip, shift, passed);
      if skip != Some(shift) {
        var found :- TryShift(reader, extent, shift);
        if found.Some? {
          passed := passed + [(shift, found.value)];
        }
      }
      shift := shift + 1;
    }
    SearchEnds(image, extent, skip, mainError, backupError, passed);
    if |passed| == 0 {
      return Failure(Rejected(mainError, backupError));
    }
    if |passed| == 1 {
      return if passed[0].1.Some? then Success(passed[0].1.value) else Failure(TexFatVolume(Backup));
    }
    r := Failure(AmbiguousBackup(ShiftsOf(passed)));
  }

  function ShiftsOf(passed: seq<(u8, Option<ExFatBootSector>)>): seq<u8> {
    seq(|passed|, i requires 0 <= i < |passed| => passed[i].0)
  }

  // A sector is at least 512 bytes.
  lemma NoneSmaller(image: seq<u8>, extent: VolumeExtent, skip: Option<u8>)
    ensures PassedSoFar(image, extent, BackupsBelow(image, extent, skip, 9), [])
  {
    NoneBelow(image, extent, skip, 9);
  }

  lemma {:induction false} NoneBelow(image: seq<u8>, extent: VolumeExtent, skip: Option<u8>, end: u8)
    requires end <= 9
    ensures BackupsBelow(image, extent, skip, end) == []
  {
    if end > 0 { NoneBelow(image, extent, skip, end - 1); }
  }

  // One more sector size tried, or skipped.
  lemma PassedStep(image: seq<u8>, extent: VolumeExtent, skip: Option<u8>, shift: u8,
                   passed: seq<(u8, Option<ExFatBootSector>)>)
    requires shift < 13 && PassedSoFar(image, extent, BackupsBelow(image, extent, skip, shift), passed)
    ensures var next, found := BackupsBelow(image, extent, skip, shift + 1), PassedAt(image, extent, shift);
      if skip != Some(shift) && found.Some? then PassedSoFar(image, extent, next, passed + [(shift, found.value)])
      else PassedSoFar(image, extent, next, passed)
  {
    hide BackupAt, PassedAt;
    PassedIffBackup(image, extent, shift);
  }

  lemma SearchEnds(image: seq<u8>, extent: VolumeExtent, skip: Option<u8>, main: ExFatError, backup: ExFatError,
                   passed: seq<(u8, Option<ExFatBootSector>)>)
    requires PassedSoFar(image, extent, BackupsBelow(image, extent, skip, 13), passed)
    ensures Searched(image, extent, skip, main, backup) ==
      if |passed| == 0 then Failure(Rejected(main, backup))
      else if |passed| == 1 then
        if passed[0].1.Some? then Success(passed[0].1.value) else Failure(TexFatVolume(Backup))
      else Failure(AmbiguousBackup(ShiftsOf(passed)))
  {
    hide BackupAt, PassedAt, SoleBackup, BackupsBelow;
    if |passed| == 1 {
      SoleIsPassed(image, extent, passed[0].0);
    } else {
      assert ShiftsOf(passed) == BackupsBelow(image, extent, skip, 13);
    }
  }

  lemma PassedIffBackup(image: seq<u8>, extent: VolumeExtent, shift: u8)
    ensures PassedAt(image, extent, shift).Some? <==> BackupAt(image, extent, shift)
  {
    hide BackupAt, SoleBackup;
  }

  lemma SoleIsPassed(image: seq<u8>, extent: VolumeExtent, shift: u8)
    requires PassedAt(image, extent, shift).Some?
    ensures BackupAt(image, extent, shift)
    ensures SoleBackup(image, extent, shift) ==
      var passed := PassedAt(image, extent, shift).value;
      if passed.Some? then Success(passed.value) else Failure(TexFatVolume(Backup))
  {
    hide BackupAt, RegionVerdict;
  }

  /** Comes to the choice the evidence determines, unless a read fails; and
      whatever the evidence holds, asks for nothing outside the partition. */
  method ParseBootRegion(reader: EvidenceReader, extent: VolumeExtent)
    returns (r: Result<ExFatBootSector, ExFatBootFailure>)
    modifies reader
    ensures StaysInPartition(reader, extent)
    ensures Faithful(reader, extent, r, Chosen(reader.image, extent))
  {
    hide Searched, Tried, RegionIn;
    var available := PartitionBytes(extent);
    if available < 512 {
      return Failure(Rejected(RegionOutsidePartition(512, available), RegionOutsidePartition(512, available)));
    }
    var head :- ReadWithin(reader, extent, 0, 512);
    var shift := head[OFF_BYTES_PER_SECTOR_SHIFT];
    if !UsableShift(shift) {
      r := SearchBackup(reader, extent, None, BytesPerSectorShift(shift), BackupNotLocated);
      return;
    }
    RegionSizes(shift);
    var regionBytes: u64 := RegionBytes(shift);
    var main :- ReadAndValidate(reader, extent, 0, regionBytes, Main);
    if main.Success? {
      return Success(main.value);
    }
    if main.error.TexFat? {
      return Failure(TexFatVolume(Main));
    }
    var backup :- ReadAndValidate(reader, extent, regionBytes, regionBytes, Backup);
    if backup.Success? {
      return Success(backup.value);
    }
    if backup.error.TexFat? {
      return Failure(TexFatVolume(Backup));
    }
    r := SearchBackup(reader, extent, Some(shift), main.error, backup.error);
  }

  // --- What the protocol guarantees ---------------------------------------

  ghost predicate OnlyBackup(image: seq<u8>, extent: VolumeExtent, skip: Option<u8>, s: u8) {
    BackupAt(image, extent, s) && skip != Some(s)
    && forall t: u8 :: BackupAt(image, extent, t) && skip != Some(t) ==> t == s
  }

  ghost predicate OnlyOneFatBackup(image: seq<u8>, extent: VolumeExtent, skip: Option<u8>, s: u8) {
    OnlyBackup(image, extent, skip, s) && Candidate(image, extent, s)[110] == 1
  }

  lemma OnlyMeansOne(image: seq<u8>, extent: VolumeExtent, skip: Option<u8>, s: u8)
    ensures OnlyBackup(image, extent, skip, s) <==> BackupsBelow(image, extent, skip, 13) == [s]
  {
    hide BackupsBelow, BackupAt;
    var shifts := BackupsBelow(image, extent, skip, 13);
    BackupsAreExact(image, extent, skip, 13);
    BackupsAreUsable(image, extent);
    if OnlyBackup(image, extent, skip, s) {
      assert s < 13 && s in shifts;
      forall i | 0 <= i < |shifts| ensures shifts[i] == s {
        assert shifts[i] in shifts && BackupAt(image, extent, shifts[i]);
      }
      assert shifts[0] == s == shifts[|shifts| - 1];
    }
    if shifts == [s] {
      forall t: u8 | BackupAt(image, extent, t) && skip != Some(t) ensures t == s {
        assert t < 13 && t in shifts;
      }
      assert s in shifts;
    }
  }

  lemma SoleBackupIsWhatIsThere(image: seq<u8>, extent: VolumeExtent, s: u8)
    requires BackupAt(image, extent, s)
    ensures var r, region := SoleBackup(image, extent, s), Candidate(image, extent, s);
      && (r.Success? <==> region[110] == 1)
      && (r.Success? ==> r.value.region == Backup && r.value.locatedBySearch)
      && (r.Success? ==> r.value.geometry == GeometryIn(region) && r.value.geometry.shift == s)
      && (r.Failure? ==> r.error == TexFatVolume(Backup))
  {
    hide RegionVerdict, ConformantRegion, RegionIn;
    var region := Candidate(image, extent, s);
    AcceptsConformantRegions(region, Backup, extent);
    if RegionVerdict(region, Backup, extent).Success? { AcceptedFields(region, Backup, extent); }
  }

  /** A search uses a backup exactly when one sector size, other than the one
      skipped, is the only one at which a backup lies, and it has one FAT. */
  lemma SearchUsesTheSoleBackup(image: seq<u8>, extent: VolumeExtent, skip: Option<u8>,
                                main: ExFatError, backup: ExFatError, s: u8)
    ensures var r := Searched(image, extent, skip, main, backup);
      (r.Success? && r.value.geometry.shift == s) <==> OnlyOneFatBackup(image, extent, skip, s)
    ensures Searched(image, extent, skip, main, backup).Success? ==>
      Searched(image, extent, skip, main, backup).value.locatedBySearch
  {
    hide OnlyBackup, BackupAt, BackupsBelow, SoleBackup;
    BackupsAreExact(image, extent, skip, 13);
    OnlyMeansOne(image, extent, skip, s);
    var shifts := BackupsBelow(image, extent, skip, 13);
    if |shifts| == 1 {
      assert shifts[0] in shifts;
      SoleBackupIsWhatIsThere(image, extent, shifts[0]);
      assert shifts == [shifts[0]];
    }
  }

  /** A search that finds more than one backup uses none and names every one,
      in increasing order; and one that finds none leaves the two refusals it
      began with. */
  lemma SearchNeverGuesses(image: seq<u8>, extent: VolumeExtent, skip: Option<u8>, main: ExFatError, backup: ExFatError)
    ensures var r := Searched(image, extent, skip, main, backup);
      && (r.Failure? && r.error.AmbiguousBackup? <==>
            exists s: u8, t: u8 :: s < t && BackupAt(image, extent, s) && BackupAt(image, extent, t)
              && skip != Some(s) && skip != Some(t))
      && (r.Failure? && r.error.AmbiguousBackup? ==>
            (forall s: u8 :: s in r.error.shifts <==> BackupAt(image, extent, s) && skip != Some(s))
            && (forall i, j :: 0 <= i < j < |r.error.shifts| ==> r.error.shifts[i] < r.error.shifts[j]))
      && (r.Failure? && r.error.Rejected? <==> forall s: u8 :: BackupAt(image, extent, s) ==> skip == Some(s))
      && (r.Failure? && r.error.Rejected? ==> r.error == Rejected(main, backup))
  {
    hide BackupAt, BackupsBelow, SoleBackup;
    BackupsAreExact(image, extent, skip, 13);
    BackupsAreUsable(image, extent);
    var shifts := BackupsBelow(image, extent, skip, 13);
    if |shifts| >= 2 {
      assert shifts[0] in shifts && shifts[1] in shifts;
    }
    if |shifts| == 1 {
      assert shifts[0] in shifts;
      SoleBackupIsWhatIsThere(image, extent, shifts[0]);
    }
  }

  lemma BackupsAreUsable(image: seq<u8>, extent: VolumeExtent)
    ensures forall s: u8 :: BackupAt(image, extent, s) ==> 9 <= s < 13
  {
  }

  // --- What is chosen -----------------------------------------------------

  ghost function DeclaredShift(image: seq<u8>, extent: VolumeExtent): u8 { RegionIn(image, extent, 0, 512)[108] }

  ghost predicate RegionAccepted(image: seq<u8>, extent: VolumeExtent, offset: nat, size: nat, which: BootRegion) {
    offset + size <= PartitionBytes(extent) && ConformantRegion(RegionIn(image, extent, offset, size), which, extent)
  }

  // What comes of using one region: its geometry, or that it is TexFAT.
  ghost predicate Uses(r: Result<ExFatBootSector, ExFatBootFailure>, region: seq<u8>, which: BootRegion)
    requires |region| >= 512
  {
    if region[110] == 1 then
      && r.Success? && r.value.region == which && !r.value.locatedBySearch
      && r.value.geometry == GeometryIn(region)
    else r == Failure(TexFatVolume(which))
  }

  lemma TriedIff(image: seq<u8>, extent: VolumeExtent, offset: u64, size: u64, which: BootRegion)
    requires offset + size <= U64_MAX && size >= 512
    ensures var t, region := Tried(image, extent, offset, size, which), RegionIn(image, extent, offset, size);
      && (RegionAccepted(image, extent, offset, size, which) <==> t.Success? || t == Failure(TexFat))
      && (t.Success? ==> Uses(Success(t.value), region, which))
      && (t == Failure(TexFat) ==> Uses(Failure(TexFatVolume(which)), region, which))
  {
    hide RegionVerdict, ConformantRegion, RegionIn;
    var region := RegionIn(image, extent, offset, size);
    AcceptsConformantRegions(region, which, extent);
    if RegionVerdict(region, which, extent).Success? { AcceptedFields(region, which, extent); }
  }

  lemma HeadIsMain(image: seq<u8>, extent: VolumeExtent, n: nat)
    requires n >= 512
    ensures RegionIn(image, extent, 0, n)[108] == DeclaredShift(image, extent)
  {
  }

  // What a search comes to, and from which refusals, where one is made.
  ghost predicate SearchDecides(image: seq<u8>, extent: VolumeExtent, skip: Option<u8>,
                                main: ExFatError, backup: ExFatError)
  {
    var r := Chosen(image, extent);
    && (forall s: u8 :: (r.Success? && r.value.geometry.shift == s) <==> OnlyOneFatBackup(image, extent, skip, s))
    && (r.Success? ==> r.value.region == Backup && r.value.locatedBySearch)
    && (r == Failure(Rejected(main, backup)) <==> forall s: u8 :: BackupAt(image, extent, s) ==> skip == Some(s))
    && (r.Failure? && r.error.AmbiguousBackup? <==>
          exists s: u8, t: u8 :: s < t && BackupAt(image, extent, s) && BackupAt(image, extent, t)
            && skip != Some(s) && skip != Some(t))
  }

  lemma SearchIsDecided(image: seq<u8>, extent: VolumeExtent, skip: Option<u8>, main: ExFatError, backup: ExFatError)
    requires Chosen(image, extent) == Searched(image, extent, skip, main, backup)
    ensures SearchDecides(image, extent, skip, main, backup)
  {
    hide Searched, Chosen, OnlyOneFatBackup, BackupAt;
    SearchNeverGuesses(image, extent, skip, main, backup);
    var r := Chosen(image, extent);
    forall s: u8
      ensures (r.Success? && r.value.geometry.shift == s) <==> OnlyOneFatBackup(image, extent, skip, s)
      ensures r.Success? ==> r.value.locatedBySearch
    {
      SearchUsesTheSoleBackup(image, extent, skip, main, backup, s);
    }
    if r.Success? {
      assert r.value.locatedBySearch by { SearchUsesTheSoleBackup(image, extent, skip, main, backup, 0); }
      SearchGivesBackups(image, extent, skip, main, backup);
    }
  }

  lemma SearchGivesBackups(image: seq<u8>, extent: VolumeExtent, skip: Option<u8>, main: ExFatError, backup: ExFatError)
    requires Searched(image, extent, skip, main, backup).Success?
    ensures Searched(image, extent, skip, main, backup).value.region == Backup
  {
    hide BackupAt, BackupsBelow, SoleBackup;
    BackupsAreExact(image, extent, skip, 13);
    var shifts := BackupsBelow(image, extent, skip, 13);
    assert shifts[0] in shifts;
    SoleBackupIsWhatIsThere(image, extent, shifts[0]);
  }

  /** Whatever sector size sector 0 declares: the region used is the main one
      whenever that is conformant; the backup twelve of its sectors in, when
      only that is; and only when neither is, or no usable size is declared,
      what a search finds: the sole backup there is, if it has one FAT. With no
      backup at all the refusals the search began with stand. */
  lemma MainThenBackupThenSearch(image: seq<u8>, extent: VolumeExtent)
    requires PartitionBytes(extent) >= 512
    ensures
      var r, shift := Chosen(image, extent), DeclaredShift(image, extent);
      var n := RegionBytes(shift);
      if !UsableShift(shift) then
        SearchDecides(image, extent, None, BytesPerSectorShift(shift), BackupNotLocated)
      else if RegionAccepted(image, extent, 0, n, Main) then Uses(r, RegionIn(image, extent, 0, n), Main)
      else if RegionAccepted(image, extent, n, n, Backup) then Uses(r, RegionIn(image, extent, n, n), Backup)
      else
        var main, backup := Tried(image, extent, 0, n, Main), Tried(image, extent, n, n, Backup);
        main.Failure? && backup.Failure? && SearchDecides(image, extent, Some(shift), main.error, backup.error)
  {
    hide Tried, RegionAccepted, RegionIn, Uses, Searched, DeclaredShift, SearchDecides;
    var shift := DeclaredShift(image, extent);
    assert RegionIn(image, extent, 0, 512)[108] == shift by { HeadIsMain(image, extent, 512); }
    if !UsableShift(shift) {
      SearchIsDecided(image, extent, None, BytesPerSectorShift(shift), BackupNotLocated);
    } else {
      var n := RegionBytes(shift);
      TriedIff(image, extent, 0, n, Main);
      TriedIff(image, extent, n, n, Backup);
      if !RegionAccepted(image, extent, 0, n, Main) && !RegionAccepted(image, extent, n, n, Backup) {
        var main, backup := Tried(image, extent, 0, n, Main), Tried(image, extent, n, n, Backup);
        SearchIsDecided(image, extent, Some(shift), main.error, backup.error);
      }
    }
  }

  /** Whatever is used is a conformant one-FAT region the partition holds, and
      every cluster its geometry gives lies inside the partition. */
  lemma ChosenIsSound(image: seq<u8>, extent: VolumeExtent)
    requires Chosen(image, extent).Success?
    ensures var b := Chosen(image, extent).value;
      && b.geometry.Shaped() && b.geometry.fats == 1 && ConformantGeometry(b.geometry)
      && VolumeBytes(b.geometry) <= PartitionBytes(extent)
      && forall c: nat {:trigger HasExFatCluster(b.geometry, c)} :: HasExFatCluster(b.geometry, c) ==>
           ExFatClusterStart(b.geometry, c) + ClusterBytes(b.geometry) <= PartitionBytes(extent)
  {
    hide RegionVerdict, ConformantRegion, RegionIn, BackupAt, BackupsBelow, SoleBackup, ConformantGeometry, Tried,
      Searched, Geometry.Shaped;
    assert GoodBoot(Chosen(image, extent).value, extent) by { ChosenIsGood(image, extent); }
    var g := Chosen(image, extent).value.geometry;
    forall c: nat | HasExFatCluster(g, c)
      ensures ExFatClusterStart(g, c) + ClusterBytes(g) <= PartitionBytes(extent)
    {
      ClustersLieInside(g, c);
    }
  }

  ghost predicate GoodBoot(b: ExFatBootSector, extent: VolumeExtent) {
    b.geometry.Shaped() && b.geometry.fats == 1 && ConformantGeometry(b.geometry)
    && VolumeBytes(b.geometry) <= PartitionBytes(extent)
  }

  lemma TriedIsGood(image: seq<u8>, extent: VolumeExtent, offset: u64, size: u64, which: BootRegion)
    requires offset + size <= U64_MAX && Tried(image, extent, offset, size, which).Success?
    ensures GoodBoot(Tried(image, extent, offset, size, which).value, extent)
  {
    hide RegionVerdict, ConformantRegion, RegionIn;
    AcceptedFields(RegionIn(image, extent, offset, size), which, extent);
  }

  lemma SearchedIsGood(image: seq<u8>, extent: VolumeExtent, skip: Option<u8>, main: ExFatError, backup: ExFatError)
    requires Searched(image, extent, skip, main, backup).Success?
    ensures GoodBoot(Searched(image, extent, skip, main, backup).value, extent)
  {
    hide RegionVerdict, ConformantRegion, RegionIn, BackupAt, BackupsBelow;
    var shifts := BackupsBelow(image, extent, skip, 13);
    BackupsAreExact(image, extent, skip, 13);
    assert shifts[0] in shifts;
    AcceptedFields(Candidate(image, extent, shifts[0]), Backup, extent);
  }

  lemma ChosenIsGood(image: seq<u8>, extent: VolumeExtent)
    requires Chosen(image, extent).Success?
    ensures GoodBoot(Chosen(image, extent).value, extent)
  {
    hide Tried, Searched, RegionIn, GoodBoot;
    var shift := RegionIn(image, extent, 0, 512)[108];
    if !UsableShift(shift) {
      SearchedIsGood(image, extent, None, BytesPerSectorShift(shift), BackupNotLocated);
    } else {
      RegionSizes(shift);
      var n := RegionBytes(shift);
      var main, backup := Tried(image, extent, 0, n, Main), Tried(image, extent, n, n, Backup);
      if main.Success? {
        TriedIsGood(image, extent, 0, n, Main);
      } else if backup.Success? {
        TriedIsGood(image, extent, n, n, Backup);
      } else {
        SearchedIsGood(image, extent, Some(shift), main.error, backup.error);
      }
    }
  }
}
