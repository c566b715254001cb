/** Recovering a deleted file: the run its entry implies, what the FAT says of
    that run, and reading it. */
module FatRecovery {
  import opened Evidence
  import opened Extraction
  import opened Fat
  import opened Fat32
  import opened FatDirectory
  import opened FatLayout
  import opened Machine
  import opened Wrappers

  datatype ClusterRun = ClusterRun(firstCluster: u32, clusterCount: u32, fileSize: u32, slackBytes: u32) {
    function LastCluster(): u32 {
      SaturatingSubU32(SaturatingAddU32(firstCluster, clusterCount), 1)
    }
  }

  datatype Ineligible =
    | IsDirectory
    | IsVolumeLabel
    | IsLongNameComponent
    | IsInvalidEntry(attr: u8)
    | EmptyFile
    | ReservedFirstCluster(cluster: u32)
    | RunOutOfRange(lastCluster: u64, dataClusters: u32)

  // Whether a listing was walked to or found by the search.
  datatype Listing = WalkedListing | OrphanedListing

  datatype Eligibility = Refuse(reason: Ineligible) | Run(run: ClusterRun)

  // --- Which run an entry implies -----------------------------------------

  function RunOf(firstCluster: u32, fileSize: u32, v: Volume): Eligibility
    requires v.boot.geometry.ClusterBytes() > 0
  {
    RunFor(firstCluster, fileSize, v.boot.geometry.ClusterBytes(), v.boot.geometry.clusterCount)
  }

  function RunFor(firstCluster: u32, fileSize: u32, clusterBytes: u32, clusterCount: u32): Eligibility
    requires clusterBytes > 0
  {
    if fileSize == 0 then Refuse(EmptyFile)
    else if firstCluster < FIRST_DATA_CLUSTER then Refuse(ReservedFirstCluster(firstCluster))
    else
      var needed := CeilDiv(fileSize, clusterBytes);
      CeilDivBounds(fileSize, clusterBytes);
      var slack := WrapU32(needed * clusterBytes - fileSize);
      var lastInRun := firstCluster + needed - 1;
      if lastInRun >= clusterCount + FIRST_DATA_CLUSTER then Refuse(RunOutOfRange(lastInRun, clusterCount))
      else Run(ClusterRun(firstCluster, WrapU32(needed), fileSize, slack))
  }

  lemma CeilDivBounds(x: nat, d: nat)
    requires d > 0
    ensures var q := CeilDiv(x, d); x <= q * d < x + d && q <= x
  {
    DivAtMost(x, d);
    assert (x / d + 1) * d == x / d * d + d;
    assert x == x / d * d + x % d;
    if x % d != 0 { assert x / d < x by { MulMono(1, d, x / d); } }
  }

  function EligibilityOf(entry: Entry, listing: Listing, v: Volume): Option<Eligibility>
    requires v.boot.geometry.ClusterBytes() > 0
  {
    match entry.kind
    case Deleted(DeletedLongName(_)) => Some(Refuse(IsLongNameComponent))
    case Deleted(DeletedVolumeLabel(_)) => Some(Refuse(IsVolumeLabel))
    case Deleted(DeletedInvalid(attr)) => Some(Refuse(IsInvalidEntry(attr)))
    case Deleted(DeletedShortName(_, directory, first, size, _)) =>
      Some(if directory then Refuse(IsDirectory) else RunOf(first, size, v))
    case ShortName(_, _, false, first, size, _) =>
      if listing.OrphanedListing? then Some(RunOf(first, size, v)) else None
    case _ => None
  }

  // A run of whole clusters, inside the data region, that holds its file and
  // less than one cluster more.
  ghost predicate Fits(v: Volume, run: ClusterRun) {
    && run.fileSize > 0 && InRange(v, run)
    && run.clusterCount * ClusterSize(v) == run.fileSize + run.slackBytes
    && run.slackBytes < ClusterSize(v)
  }

  ghost predicate InRange(v: Volume, run: ClusterRun) {
    run.firstCluster >= 2 && run.clusterCount >= 1 && run.firstCluster + run.clusterCount <= v.LastCluster()
  }

  // The entries whose content is lost, with the start and size they state.
  ghost predicate Lost(entry: Entry, listing: Listing, first: u32, size: u32) {
    match entry.kind
    case Deleted(DeletedShortName(_, directory, c, n, _)) => !directory && c == first && n == size
    case ShortName(_, _, directory, c, n, _) =>
      listing.OrphanedListing? && !directory && c == first && n == size
    case _ => false
  }

  /** An entry implies a run exactly when its content is lost and a fitting run
      of its start and size exists; and that run is the only one. */
  lemma EligibleIffFits(entry: Entry, listing: Listing, v: Volume, run: ClusterRun)
    requires v.Sound() && (SoundNeverWraps(v); true)
    ensures EligibilityOf(entry, listing, v) == Some(Run(run))
       <==> Lost(entry, listing, run.firstCluster, run.fileSize) && Fits(v, run)
  {
    if Lost(entry, listing, run.firstCluster, run.fileSize) {
      RunOfIff(v, run);
    }
  }

  /** Why lost content implies no run: it is empty, it starts before the data
      region, or the last cluster it needs lies past the end; the first of
      these that holds, and otherwise a run is implied. */
  lemma RefusalsOfLostContent(entry: Entry, listing: Listing, v: Volume, first: u32, size: u32)
    requires v.Sound() && (SoundNeverWraps(v); true)
    requires Lost(entry, listing, first, size)
    ensures var e := EligibilityOf(entry, listing, v);
      && e.Some?
      && (e == Some(Refuse(EmptyFile)) <==> size == 0)
      && (e == Some(Refuse(ReservedFirstCluster(first))) <==> size > 0 && first < 2)
      && (e.value.Run? <==> exists run: ClusterRun :: run.firstCluster == first && run.fileSize == size && Fits(v, run))
      && (e.value.Refuse? && size > 0 && first >= 2 ==> OutOfRange(e.value.reason, v, first, size))
  {
    hide RunFor, Fits, Volume.Sound;
    SoundNeverWraps(v);
    var e := EligibilityOf(entry, listing, v);
    forall run: ClusterRun { EligibleIffFits(entry, listing, v, run); }
    if exists run: ClusterRun :: run.firstCluster == first && run.fileSize == size && Fits(v, run) {
      var run: ClusterRun :| run.firstCluster == first && run.fileSize == size && Fits(v, run);
      assert e == Some(Run(run));
    }
    RefusalOfRun(first, size, v.boot.geometry.ClusterBytes(), v.boot.geometry.clusterCount);
  }

  // The last cluster that content of `size` bytes from `first` needs, and that
  // it is past the end.
  ghost predicate OutOfRange(reason: Ineligible, v: Volume, first: u32, size: u32) {
    && reason.RunOutOfRange? && reason.dataClusters == v.boot.geometry.clusterCount
    && reason.lastCluster >= v.LastCluster() && reason.lastCluster >= first
    && (reason.lastCluster - first) * ClusterSize(v) < size <= (reason.lastCluster - first + 1) * ClusterSize(v)
  }

  lemma RefusalOfRun(first: u32, size: u32, cb: u32, count: u32)
    requires cb > 0
    ensures var e := RunFor(first, size, cb, count);
      && (e == Refuse(EmptyFile) <==> size == 0)
      && (e == Refuse(ReservedFirstCluster(first)) <==> size > 0 && first < 2)
      && (e.Run? ==> e.run.firstCluster == first && e.run.fileSize == size)
      && (e.Refuse? && size > 0 && first >= 2 ==>
            && e.reason.RunOutOfRange? && e.reason.dataClusters == count
            && e.reason.lastCluster >= count + 2 && e.reason.lastCluster >= first
            && (e.reason.lastCluster - first) * cb < size <= (e.reason.lastCluster - first + 1) * cb)
  {
    hide CeilDiv;
    var q := CeilDiv(size, cb);
    CeilDivBounds(size, cb);
    assert (q - 1) * cb == q * cb - cb;
    if q < 1 { assert q * cb == 0; }
  }

  /** The entries nothing is said of, and those whose content no run can be:
      everything that is not the lost content of a file. */
  lemma RefusalsOfOtherEntries(entry: Entry, listing: Listing, v: Volume)
    requires v.Sound() && (SoundNeverWraps(v); true)
    requires forall first: u32, size: u32 :: !Lost(entry, listing, first, size)
    ensures var e, deleted := EligibilityOf(entry, listing, v), entry.kind.Deleted?;
      && (e == None <==> !deleted)
      && (e == Some(Refuse(IsDirectory)) <==> deleted && entry.kind.was.DeletedShortName?)
      && (e == Some(Refuse(IsVolumeLabel)) <==> deleted && entry.kind.was.DeletedVolumeLabel?)
      && (e == Some(Refuse(IsLongNameComponent)) <==> deleted && entry.kind.was.DeletedLongName?)
      && (forall attr: u8 ::
            e == Some(Refuse(IsInvalidEntry(attr))) <==> deleted && entry.kind.was == DeletedInvalid(attr))
  {
    hide RunFor, Volume.Sound;
    match entry.kind
    case Deleted(DeletedShortName(_, directory, first, size, _)) =>
      assert !Lost(entry, listing, first, size);
    case ShortName(_, _, directory, first, size, _) =>
      assert !Lost(entry, listing, first, size);
    case _ =>
  }

  lemma RunOfIff(v: Volume, run: ClusterRun)
    requires v.Sound() && (SoundNeverWraps(v); true)
    ensures RunOf(run.firstCluster, run.fileSize, v) == Run(run) <==> Fits(v, run)
  {
    hide RunFor, Volume.Sound;
    SoundNeverWraps(v);
    RunForIff(run, v.boot.geometry.ClusterBytes(), v.boot.geometry.clusterCount);
  }

  lemma RunForIff(run: ClusterRun, cb: u32, count: u32)
    requires cb > 0
    ensures RunFor(run.firstCluster, run.fileSize, cb, count) == Run(run) <==>
      && run.fileSize > 0 && run.firstCluster >= 2 && run.clusterCount >= 1
      && run.firstCluster + run.clusterCount <= count + 2
      && run.clusterCount * cb == run.fileSize + run.slackBytes
      && run.slackBytes < cb
  {
    hide CeilDiv;
    var q := CeilDiv(run.fileSize, cb);
    CeilDivBounds(run.fileSize, cb);
    RunArithmetic(run.fileSize, cb, run.clusterCount, run.slackBytes, q);
    assert WrapU32(q) == q && WrapU32(q * cb - run.fileSize) == q * cb - run.fileSize;
  }

  // Only one whole number of clusters holds the file with less than one over.
  lemma RunArithmetic(size: nat, cb: nat, p: nat, slack: nat, q: nat)
    requires cb > 0 && size <= q * cb < size + cb
    ensures p * cb == size + slack && slack < cb <==> p == q && slack == q * cb - size
  {
    if p < q { OneMoreFits(p, q, cb); }
    if q < p { OneMoreFits(q, p, cb); }
  }

  // --- What the FAT says of a run -----------------------------------------

  datatype UnallocatedRun = UnallocatedRun(run: ClusterRun)

  datatype Assessment =
    | NotEligible(reason: Ineligible)
    | RunIsBroken(run: ClusterRun, firstAllocated: u32)
    | IsRecoverable(found: UnallocatedRun)

  datatype RecoveryError =
    | InDirectory(error: DirectoryError)
    | InEvidence(readError: ReadError)
    | PartialLeft(cause: RecoveryError, path: string)

  // The first of `n` clusters from `c` whose FAT entry is not zero.
  ghost function FirstAllocated(image: seq<u8>, v: Volume, c: nat, n: nat): Option<nat>
    decreases n
  {
    if n == 0 then None
    else if FatEntry(image, v, c) != 0 then Some(c)
    else FirstAllocated(image, v, c + 1, n - 1)
  }

  /** No cluster found means every entry is zero; otherwise the one found is
      allocated and the least such. */
  lemma {:induction false} FirstAllocatedMeaning(image: seq<u8>, v: Volume, c: nat, n: nat)
    ensures match FirstAllocated(image, v, c, n)
      case None => forall k :: c <= k < c + n ==> FatEntry(image, v, k) == 0
      case Some(a) =>
        c <= a < c + n && FatEntry(image, v, a) != 0 && forall k :: c <= k < a ==> FatEntry(image, v, k) == 0
    decreases n
  {
    hide FatEntry;
    if n > 0 { FirstAllocatedMeaning(image, v, c + 1, n - 1); }
  }

  ghost predicate AllFree(image: seq<u8>, v: Volume, run: ClusterRun) {
    forall k :: run.firstCluster <= k < run.firstCluster + run.clusterCount ==> FatEntry(image, v, k) == 0
  }

  // The fault-free assessment.
  ghost function Assessed(image: seq<u8>, v: Volume, entry: Entry, listing: Listing): Option<Assessment>
    requires v.Sound()
  {
    SoundNeverWraps(v);
    match EligibilityOf(entry, listing, v)
    case None => None
    case Some(Refuse(reason)) => Some(NotEligible(reason))
    case Some(Run(run)) =>
      match FirstAllocated(image, v, run.firstCluster, run.clusterCount)
      case None => Some(IsRecoverable(UnallocatedRun(run)))
      case Some(c) =>
        EligibleIffFits(entry, listing, v, run);
        FirstAllocatedMeaning(image, v, run.firstCluster, run.clusterCount);
        Some(RunIsBroken(run, c))
  }

  ghost predicate Faultless(reader: EvidenceReader, v: Volume) { reader.reliable && InImage(reader, v) }

  method AssessListed(entry: Entry, listing: Listing, v: Volume, reader: EvidenceReader)
    returns (r: Result<Option<Assessment>, RecoveryError>)
    requires v.Sound()
    modifies reader
    ensures ReadsStayInside(reader, v)
    ensures Faultless(reader, v) ==> r.Success?
    ensures r.Success? ==> r.value == Assessed(reader.image, v, entry, listing)
    ensures r.Success? && r.value.Some? && r.value.value.IsRecoverable? ==>
      var run := r.value.value.found.run; Fits(v, run) && AllFree(reader.image, v, run)
  {
    SoundNeverWraps(v);
    var eligibility := EligibilityOf(entry, listing, v);
    if eligibility.None? {
      return Success(None);
    }
    if eligibility.value.Refuse? {
      return Success(Some(NotEligible(eligibility.value.reason)));
    }
    var run := eligibility.value.run;
    EligibleIffFits(entry, listing, v, run);
    ghost var image := reader.image;
    FirstAllocatedMeaning(image, v, run.firstCluster, run.clusterCount);
    var broken := FindAllocated(reader, v, run);
    if broken.Failure? {
      return Failure(InDirectory(broken.error));
    }
    r := Success(Some(
      if broken.value.Some? then RunIsBroken(run, broken.value.value) else IsRecoverable(UnallocatedRun(run))));
  }

  // One FAT read per cluster of the run, stopping at the first in use.
  method FindAllocated(reader: EvidenceReader, v: Volume, run: ClusterRun)
    returns (r: Result<Option<u32>, DirectoryError>)
    requires v.Sound() && InRange(v, run)
    modifies reader
    ensures ReadsStayInside(reader, v)
    ensures Faultless(reader, v) ==> r.Success?
    ensures r.Success? ==> r.value == FirstAllocated(reader.image, v, run.firstCluster, run.clusterCount)
  {
    hide FatEntry;
    var fat := v.boot.CurrentFat();
    var last := run.LastCluster();
    var cluster: nat := run.firstCluster;
    ghost var image := reader.image;
    ghost var end: nat := run.firstCluster + run.clusterCount;
    while cluster <= last
      invariant run.firstCluster <= cluster <= last + 1 == end
      invariant FirstAllocated(image, v, run.firstCluster, run.clusterCount)
             == FirstAllocated(image, v, cluster, end - cluster)
      invariant ReadsStayInside(reader, v)
    {
      var entry :- ReadFatEntry(reader, v, fat, cluster);
      if entry != 0 {
        return Success(Some(cluster));
      }
      cluster := cluster + 1;
    }
    r := Success(None);
  }

  // --- Reading a run ------------------------------------------------------

  // The bytes of the file a run implies: one contiguous slice of evidence.
  ghost function Content(image: seq<u8>, v: Volume, run: ClusterRun): (s: seq<u8>)
    requires v.HasCluster(run.firstCluster)
    ensures |s| == run.fileSize
  {
    Slice(image, ClusterStart(v, run.firstCluster), run.fileSize)
  }

  // The part of the content a cluster `index` into the run contributes.
  lemma ContentOfCluster(image: seq<u8>, v: Volume, run: ClusterRun, index: nat, done: nat)
    requires v.Sound() && Fits(v, run) && index < run.clusterCount && done == index * ClusterSize(v)
    ensures done < run.fileSize
    ensures index + 1 < run.clusterCount ==> done + ClusterSize(v) <= run.fileSize
    ensures index + 1 == run.clusterCount ==> done + ClusterSize(v) >= run.fileSize
    ensures done + ClusterSize(v) == (index + 1) * ClusterSize(v)
    ensures var take := Min(run.fileSize - done, ClusterSize(v));
      ClusterContent(image, v, run.firstCluster + index)[..take] == Content(image, v, run)[done..done + take]
  {
    var cb, count: nat := ClusterSize(v), run.clusterCount;
    assert (index + 1) * cb == index * cb + cb;
    OneMoreFits(index, count, cb);
    if index + 1 < count { OneMoreFits(index + 1, count, cb); }
    ClustersAreContiguous(v, run.firstCluster, index);
  }

  function Min(a: nat, b: nat): nat { if a <= b then a else b }

  // A failed read of content is kept apart from a failed offset or FAT read.
  function Cause(e: DirectoryError): RecoveryError {
    if e.Unreadable? then InEvidence(e.error) else InDirectory(e)
  }

  lemma PiecesJoin(s: seq<u8>, done: nat, take: nat)
    requires done + take <= |s|
    ensures s[..done] + s[done..done + take] == s[..done + take]
  {
  }

  lemma FitsInRange(v: Volume, run: ClusterRun)
    requires v.Sound() && Fits(v, run)
    ensures run.fileSize > 0 && run.clusterCount >= 1 && v.HasCluster(run.firstCluster)
    ensures run.LastCluster() + 1 == run.firstCluster + run.clusterCount <= v.LastCluster()
  {
    SoundNeverWraps(v);
  }

  method Stream(found: UnallocatedRun, v: Volume, reader: EvidenceReader, writer: ArtifactWriter)
    returns (r: Result<(), RecoveryError>)
    requires v.Sound() && Fits(v, found.run)
    requires writer.Valid() && writer.hashed == []
    modifies reader, writer`hashed, writer`sink, writer.store`files, writer.store`faults
    ensures writer.Valid() && ReadsStayInside(reader, v)
    ensures old(writer.store.faults) <= writer.store.faults
    ensures Faultless(reader, v) ==> r.Success?
    ensures r.Success? ==> writer.hashed == Content(reader.image, v, found.run)
    ensures r.Failure? ==> r.error.InEvidence?
  {
    hide Content, ClusterContent, ClusterStart, ArtifactWriter.Valid, Volume.Sound, Fits;
    SoundNeverWraps(v);
    var run := found.run;
    FitsInRange(v, run);
    var clusterBytes := v.boot.geometry.ClusterBytes();
    var remaining: nat := run.fileSize;
    var last := run.LastCluster();
    var cluster: nat := run.firstCluster;
    ghost var content := Content(reader.image, v, run);
    ghost var done: nat := 0;
    while cluster <= last
      invariant run.firstCluster <= cluster <= last + 1 == run.firstCluster + run.clusterCount
      invariant done == (cluster - run.firstCluster) * ClusterSize(v)
      invariant writer.Valid() && ReadsStayInside(reader, v)
      invariant old(writer.store.faults) <= writer.store.faults
      invariant writer.hashed == content[..Min(done, run.fileSize)]
      invariant remaining == run.fileSize - Min(done, run.fileSize)
      invariant cluster > last ==> remaining == 0
    {
      ContentOfCluster(reader.image, v, run, cluster - run.firstCluster, done);
      var buffer := ReadCluster(reader, v, cluster, clusterBytes);
      if buffer.Failure? {
        return Failure(Cause(buffer.error));
      }
      var take := Min(remaining, clusterBytes);
      assert buffer.value[..take] == ClusterContent(reader.image, v, cluster)[..take];
      PiecesJoin(content, done, take);
      writer.Push(buffer.value[..take]);
      remaining := remaining - take;
      done := done + ClusterSize(v);
      cluster := cluster + 1;
    }
    assert content[..run.fileSize] == content;
    r := Success(());
  }

  /** A free run's content, hashed and, where asked, written: exactly the bytes
      the file declares, from its first cluster on, and none of its slack. */
  method Extract(found: UnallocatedRun, v: Volume, reader: EvidenceReader, store: Store, path: Option<string>)
    returns (r: Result<ExtractionResult, RecoveryError>)
    requires v.Sound() && Fits(v, found.run) && AllFree(reader.image, v, found.run)
    modifies reader, store
    ensures ReadsStayInside(reader, v)
    ensures store.attempts == old(store.attempts) + if path.Some? then [path.value] else []
    ensures Faultless(reader, v) ==> r.Success?
    ensures r.Success? ==>
      var content := Content(reader.image, v, found.run);
      && r.value.digest == Sha256(content)
      && r.value.bytesHashed == found.run.fileSize && r.value.slackBytes == found.run.slackBytes
      && Delivered(r.value.output, path, content, old(store.files), store.files, store.lossless)
    ensures old(store.faults) <= store.faults
    ensures r.Success? ==> Explained(r.value.output, store.faults[|old(store.faults)|..])
    ensures r.Failure? ==> (if r.error.PartialLeft? then r.error.cause else r.error).InEvidence?
    ensures r.Failure? ==> (r.error.PartialLeft? <==> RemovalFailed(store.faults[|old(store.faults)|..]))
    ensures r.Failure? ==>
      if r.error.PartialLeft? then path == Some(r.error.path) && OnlyAdds(old(store.files), store.files, r.error.path)
      else store.files == old(store.files)
  {
    hide Content, AllFree;
    var writer := new ArtifactWriter.Begin(store, path);
    var streamed := Stream(found, v, reader, writer);
    if streamed.Failure? {
      var left := writer.Abort();
      return Failure(if left.Some? then PartialLeft(streamed.error, left.value.path) else streamed.error);
    }
    var result := writer.Finish(found.run.slackBytes);
    r := Success(result);
  }
}
