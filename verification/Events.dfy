/** What a run reports, and what a run of reports adds up to. */
module Events {
  import opened Extraction
  import opened Fat
  import opened Fat32
  import opened FatDeleted
  import opened FatDirectory
  import opened FatEnumerate
  import opened FatLayout
  import opened FatRecovery
  import opened Machine
  import opened Partition
  import opened Wrappers

  datatype Options = Options(recover: bool, reference: Option<Digest>, output: Option<string>)

  datatype Reached =
    | Root
    | Walked(path: string, deleted: bool)
    | Orphaned(cluster: u32, parent: Option<u32>)

  datatype DirectoryPart = EntriesPart | ResiduePart

  datatype NotReadReason =
    | TooDeep
    | AlreadyRead(cluster: u32)
    | RefusedAs(refusal: DeletedDirectoryRefusal)
    | NotEnumerated(error: DirectoryError)

  datatype Outcome = Match | Differs | NotAttempted

  datatype Validation = Validation(
      outcome: Outcome, recovered: Digest, reference: Option<Digest>, covers: nat)

  function Validate(recovered: Digest, covers: nat, reference: Option<Digest>): Validation {
    Validation(
      if reference.None? then NotAttempted else if reference.value == recovered then Match else Differs,
      recovered, reference, covers)
  }

  datatype Event =
    | TableUnread
    | TableRejected(parseError: ParseError)
    | DiskSignature(signature: u32)
    | PartitionListed(partition: MbrPartition)
    | PartitionsListed
    | GptDetected
    | Anomalies(anomalies: seq<Anomaly>)
    | PartitionUnread(partition: MbrPartition)
    | PartitionIdentified(partition: MbrPartition, identification: Identification)
    | BootSectorRejected(bootError: Fat32Error)
    | BootSectorFound(boot: Fat32BootSector)
    | RootDirectoryUnread(error: DirectoryError)
    | DirectoryRead(reached: Reached, directory: Directory)
    | DirectoryNotRead(reached: Reached, reason: NotReadReason)
    | ListingMayContinue(cluster: u32)
    | OrphanSearchStopped(cluster: u32, error: DirectoryError)
    | OrphanedListingUnread(holder: u32, name: string, firstCluster: u32)
    | NotAssessed(listing: Listing, part: DirectoryPart, entry: Entry)
    | IneligibleFound(listing: Listing, part: DirectoryPart, entry: Entry, why: Ineligible)
    | RunBroken(listing: Listing, part: DirectoryPart, entry: Entry, run: ClusterRun, firstAllocated: u32)
    | Recoverable(listing: Listing, part: DirectoryPart, entry: Entry, run: ClusterRun)
    | Extracted(listing: Listing, part: DirectoryPart, entry: Entry, extraction: ExtractionResult,
                validation: Validation, readbackMatches: Option<bool>)
    | NotExtracted(listing: Listing, part: DirectoryPart, entry: Entry)
  {
    // About one entry's content, rather than about the volume's structure.
    predicate AboutContent() {
      NotAssessed? || IneligibleFound? || RunBroken? || Recoverable? || Extracted? || NotExtracted?
    }

    predicate Undelivered() {
      Extracted? && extraction.output.Some?
      && (extraction.output.value.Exists? || extraction.output.value.NotCreated? || extraction.output.value.Failed?)
    }

    // How many things this event says the run did not analyse.
    function Gaps(): nat {
      if Anomalies? then DropCount(anomalies)
      else if PartitionIdentified? then
        if identification.Identified? && identification.filesystem.Fat32? then 0 else 1
      else if TableUnread? || TableRejected? || GptDetected? || PartitionUnread? || BootSectorRejected?
           || RootDirectoryUnread? || DirectoryNotRead? || ListingMayContinue? || OrphanSearchStopped?
           || OrphanedListingUnread? || NotAssessed? || NotExtracted? || Undelivered() then 1
      else 0
    }

    // Whether this event can only follow from a read that failed.
    predicate Faulty() {
      || TableUnread? || PartitionUnread? || NotAssessed? || NotExtracted? || OrphanSearchStopped?
      || (RootDirectoryUnread? && (error.Unreadable? || error.OffsetOverflow?))
      || (DirectoryNotRead? && reason.NotEnumerated? && (reason.error.Unreadable? || reason.error.OffsetOverflow?))
    }
  }

  datatype Coverage = Complete | Incomplete | NothingAnalysed

  /** The value of a run's counts. */
  datatype Tally = Tally(
      volumesAnalysed: nat,
      tableUnread: nat,
      tableRejected: nat,
      partitionsAnomalous: nat,
      gpt: nat,
      partitionUnread: nat,
      unidentified: nat,
      unsupported: nat,
      bootRejected: nat,
      rootUnread: nat,
      directoriesUnread: nat,
      listingsMayContinue: nat,
      orphanSearchStopped: nat,
      notAssessed: nat,
      notExtracted: nat,
      notDelivered: nat,
      freeRuns: nat,
      refused: nat,
      matched: nat,
      empty: nat,
      reservedCluster: nat,
      runOutOfRange: nat)
  {
    function Gaps(): nat {
      tableUnread + tableRejected + partitionsAnomalous + gpt + partitionUnread + unidentified
      + unsupported + bootRejected + rootUnread + notAssessed + notExtracted + notDelivered
      + directoriesUnread + listingsMayContinue + orphanSearchStopped
    }

    function Coverage(): Coverage {
      if Gaps() == 0 then Complete else if volumesAnalysed == 0 then NothingAnalysed else Incomplete
    }

    function Artifacts(options: Options): nat {
      if options.recover then SaturatingSub(freeRuns, notExtracted) else 0
    }

    function NotRead(options: Options): nat {
      if options.recover then 0 else freeRuns
    }

    function Differed(options: Options): nat {
      if options.reference.Some? then SaturatingSub(Artifacts(options), matched) else 0
    }
  }

  /** The counts of one run, updated as it goes. */
  class RunCounts {
    var volumesAnalysed: nat
    var tableUnread: nat
    var tableRejected: nat
    var partitionsAnomalous: nat
    var gpt: nat
    var partitionUnread: nat
    var unidentified: nat
    var unsupported: nat
    var bootRejected: nat
    var rootUnread: nat
    var directoriesUnread: nat
    var listingsMayContinue: nat
    var orphanSearchStopped: nat
    var notAssessed: nat
    var notExtracted: nat
    var notDelivered: nat
    var freeRuns: nat
    var refused: nat
    var matched: nat
    var empty: nat
    var reservedCluster: nat
    var runOutOfRange: nat

    constructor ()
      ensures View() == NOTHING_YET
    {
      volumesAnalysed, tableUnread, tableRejected, partitionsAnomalous, gpt := 0, 0, 0, 0, 0;
      partitionUnread, unidentified, unsupported, bootRejected, rootUnread := 0, 0, 0, 0, 0;
      directoriesUnread, listingsMayContinue, orphanSearchStopped, notAssessed := 0, 0, 0, 0;
      notExtracted, notDelivered, freeRuns, refused, matched := 0, 0, 0, 0, 0;
      empty, reservedCluster, runOutOfRange := 0, 0, 0;
    }

    function View(): Tally
      reads this
    {
      Tally(volumesAnalysed, tableUnread, tableRejected, partitionsAnomalous, gpt, partitionUnread,
            unidentified, unsupported, bootRejected, rootUnread, directoriesUnread, listingsMayContinue,
            orphanSearchStopped, notAssessed, notExtracted, notDelivered, freeRuns, refused, matched,
            empty, reservedCluster, runOutOfRange)
    }
  }

  // --- The trace as the reference -----------------------------------------

  ghost function Count(events: seq<Event>, p: Event -> bool): nat {
    if events == [] then 0
    else Count(events[..|events| - 1], p) + if p(events[|events| - 1]) then 1 else 0
  }

  ghost function Total(events: seq<Event>, weight: Event -> nat): nat {
    if events == [] then 0
    else Total(events[..|events| - 1], weight) + weight(events[|events| - 1])
  }

  predicate IsRootRead(e: Event) { e.DirectoryRead? && e.reached.Root? }
  predicate IsUnidentified(e: Event) { e.PartitionIdentified? && !e.identification.Identified? }
  predicate IsUnsupported(e: Event) {
    e.PartitionIdentified? && e.identification.Identified? && !e.identification.filesystem.Fat32?
  }
  predicate IsDirectoryUnread(e: Event) { e.DirectoryNotRead? || e.OrphanedListingUnread? }
  predicate IsUndelivered(e: Event) { e.Undelivered() }
  predicate IsExtracted(e: Event) { e.Extracted? }
  predicate IsMatch(e: Event) { e.Extracted? && e.validation.outcome.Match? }
  predicate IsDiffering(e: Event) { e.Extracted? && e.validation.outcome.Differs? }
  predicate IsEmptyFile(e: Event) { e.IneligibleFound? && e.why.EmptyFile? }
  predicate IsReserved(e: Event) { e.IneligibleFound? && e.why.ReservedFirstCluster? }
  predicate IsOutOfRange(e: Event) { e.IneligibleFound? && e.why.RunOutOfRange? }
  predicate IsTableUnread(e: Event) { e.TableUnread? }
  predicate IsTableRejected(e: Event) { e.TableRejected? }
  predicate IsGpt(e: Event) { e.GptDetected? }
  predicate IsPartitionUnread(e: Event) { e.PartitionUnread? }
  predicate IsBootRejected(e: Event) { e.BootSectorRejected? }
  predicate IsRootUnread(e: Event) { e.RootDirectoryUnread? }
  predicate IsMayContinue(e: Event) { e.ListingMayContinue? }
  predicate IsStopped(e: Event) { e.OrphanSearchStopped? }
  predicate IsNotAssessed(e: Event) { e.NotAssessed? }
  predicate IsNotExtracted(e: Event) { e.NotExtracted? }
  predicate IsFreeRun(e: Event) { e.Recoverable? }
  predicate IsBroken(e: Event) { e.RunBroken? }

  function DroppedEntries(e: Event): nat { if e.Anomalies? then DropCount(e.anomalies) else 0 }

  function GapsOf(e: Event): nat { e.Gaps() }

  // Every count, as the number of events of its kind.
  ghost function TallyOf(events: seq<Event>): Tally {
    Tally(
      Count(events, IsRootRead), Count(events, IsTableUnread), Count(events, IsTableRejected),
      Total(events, DroppedEntries), Count(events, IsGpt), Count(events, IsPartitionUnread),
      Count(events, IsUnidentified), Count(events, IsUnsupported), Count(events, IsBootRejected),
      Count(events, IsRootUnread), Count(events, IsDirectoryUnread), Count(events, IsMayContinue),
      Count(events, IsStopped), Count(events, IsNotAssessed), Count(events, IsNotExtracted),
      Count(events, IsUndelivered), Count(events, IsFreeRun), Count(events, IsBroken),
      Count(events, IsMatch), Count(events, IsEmptyFile), Count(events, IsReserved),
      Count(events, IsOutOfRange))
  }

  // What one event adds to the counts.
  ghost function Bumped(t: Tally, e: Event): Tally {
    match e
    case TableUnread => t.(tableUnread := t.tableUnread + 1)
    case TableRejected(_) => t.(tableRejected := t.tableRejected + 1)
    case GptDetected => t.(gpt := t.gpt + 1)
    case Anomalies(a) => t.(partitionsAnomalous := t.partitionsAnomalous + DropCount(a))
    case PartitionUnread(_) => t.(partitionUnread := t.partitionUnread + 1)
    case PartitionIdentified(_, Unknown(_)) => t.(unidentified := t.unidentified + 1)
    case PartitionIdentified(_, Identified(f, _)) =>
      if f.Fat32? then t else t.(unsupported := t.unsupported + 1)
    case BootSectorRejected(_) => t.(bootRejected := t.bootRejected + 1)
    case RootDirectoryUnread(_) => t.(rootUnread := t.rootUnread + 1)
    case DirectoryRead(Root, _) => t.(volumesAnalysed := t.volumesAnalysed + 1)
    case DirectoryNotRead(_, _) => t.(directoriesUnread := t.directoriesUnread + 1)
    case ListingMayContinue(_) => t.(listingsMayContinue := t.listingsMayContinue + 1)
    case OrphanSearchStopped(_, _) => t.(orphanSearchStopped := t.orphanSearchStopped + 1)
    case OrphanedListingUnread(_, _, _) => t.(directoriesUnread := t.directoriesUnread + 1)
    case NotAssessed(_, _, _) => t.(notAssessed := t.notAssessed + 1)
    case IneligibleFound(_, _, _, EmptyFile) => t.(empty := t.empty + 1)
    case IneligibleFound(_, _, _, ReservedFirstCluster(_)) => t.(reservedCluster := t.reservedCluster + 1)
    case IneligibleFound(_, _, _, RunOutOfRange(_, _)) => t.(runOutOfRange := t.runOutOfRange + 1)
    case RunBroken(_, _, _, _, _) => t.(refused := t.refused + 1)
    case Recoverable(_, _, _, _) => t.(freeRuns := t.freeRuns + 1)
    case NotExtracted(_, _, _) => t.(notExtracted := t.notExtracted + 1)
    case Extracted(_, _, _, _, v, _) =>
      t.(notDelivered := t.notDelivered + (if e.Undelivered() then 1 else 0),
         matched := t.matched + (if v.outcome.Match? then 1 else 0))
    case _ => t
  }

  lemma CountOneMore(events: seq<Event>, e: Event, p: Event -> bool)
    ensures Count(events + [e], p) == Count(events, p) + if p(e) then 1 else 0
  {
    assert (events + [e])[..|events|] == events;
  }

  lemma TotalOneMore(events: seq<Event>, e: Event, w: Event -> nat)
    ensures Total(events + [e], w) == Total(events, w) + w(e)
  {
    assert (events + [e])[..|events|] == events;
  }

  lemma TallyOneMore(events: seq<Event>, e: Event)
    ensures TallyOf(events + [e]) == Bumped(TallyOf(events), e)
  {
    hide Count, Total;
    CountOneMore(events, e, IsRootRead);
    CountOneMore(events, e, IsTableUnread);
    CountOneMore(events, e, IsTableRejected);
    CountOneMore(events, e, IsGpt); CountOneMore(events, e, IsPartitionUnread); CountOneMore(events, e, IsUnidentified);
    CountOneMore(events, e, IsUnsupported);
    CountOneMore(events, e, IsBootRejected);
    CountOneMore(events, e, IsRootUnread);
    CountOneMore(events, e, IsDirectoryUnread);
    CountOneMore(events, e, IsMayContinue);
    CountOneMore(events, e, IsStopped);
    CountOneMore(events, e, IsNotAssessed);
    CountOneMore(events, e, IsNotExtracted);
    CountOneMore(events, e, IsUndelivered);
    CountOneMore(events, e, IsFreeRun); CountOneMore(events, e, IsBroken); CountOneMore(events, e, IsMatch);
    CountOneMore(events, e, IsEmptyFile); CountOneMore(events, e, IsReserved); CountOneMore(events, e, IsOutOfRange);
    TotalOneMore(events, e, DroppedEntries);
  }

  lemma BumpAddsGaps(t: Tally, e: Event)
    ensures Bumped(t, e).Gaps() == t.Gaps() + e.Gaps()
  {
    hide Bumped, Tally.Gaps, Event.Gaps;
    if e.AboutContent() {
      BumpAddsContentGaps(t, e);
    } else if AboutTable(e) {
      BumpAddsTableGaps(t, e);
    } else {
      BumpAddsDirectoryGaps(t, e);
    }
  }

  lemma BumpAddsContentGaps(t: Tally, e: Event)
    requires e.AboutContent()
    ensures Bumped(t, e).Gaps() == t.Gaps() + e.Gaps()
  {
  }

  // About the table or a partition's boot sector, not about a directory.
  predicate AboutTable(e: Event) {
    e.TableUnread? || e.TableRejected? || e.DiskSignature? || e.PartitionListed? || e.PartitionsListed?
    || e.GptDetected? || e.Anomalies? || e.PartitionUnread? || e.PartitionIdentified? || e.BootSectorRejected?
    || e.BootSectorFound?
  }

  lemma BumpAddsTableGaps(t: Tally, e: Event)
    requires AboutTable(e)
    ensures Bumped(t, e).Gaps() == t.Gaps() + e.Gaps()
  {
  }

  lemma BumpAddsDirectoryGaps(t: Tally, e: Event)
    requires !e.AboutContent() && !AboutTable(e)
    ensures Bumped(t, e).Gaps() == t.Gaps() + e.Gaps()
  {
  }

  /** The gaps counted are exactly the gaps reported: fifteen kinds, each
      counted once per event of its kind. */
  lemma {:induction false} GapsAreReported(events: seq<Event>)
    ensures TallyOf(events).Gaps() == Total(events, GapsOf)
  {
    hide Bumped, TallyOf;
    if events == [] {
      TallyOfNone(events);
    } else {
      var front, last := events[..|events| - 1], events[|events| - 1];
      GapsAreReported(front);
      assert events == front + [last];
      TallyOneMore(front, last);
      BumpAddsGaps(TallyOf(front), last);
    }
  }

  const NOTHING_YET: Tally := Tally(0, 0, 0, 0, 0, 0, 0, 0, 0, 0, 0, 0, 0, 0, 0, 0, 0, 0, 0, 0, 0, 0)

  lemma TallyOfNone(events: seq<Event>)
    requires events == []
    ensures TallyOf(events) == NOTHING_YET && Total(events, GapsOf) == 0
  {
    hide Count;
    CountNone(events, IsRootRead); CountNone(events, IsTableUnread); CountNone(events, IsTableRejected);
    CountNone(events, IsGpt); CountNone(events, IsPartitionUnread); CountNone(events, IsUnidentified);
    CountNone(events, IsUnsupported); CountNone(events, IsBootRejected); CountNone(events, IsRootUnread);
    CountNone(events, IsDirectoryUnread); CountNone(events, IsMayContinue); CountNone(events, IsStopped);
    CountNone(events, IsNotAssessed); CountNone(events, IsNotExtracted); CountNone(events, IsUndelivered);
    CountNone(events, IsFreeRun); CountNone(events, IsBroken); CountNone(events, IsMatch);
    CountNone(events, IsEmptyFile); CountNone(events, IsReserved); CountNone(events, IsOutOfRange);
  }

  lemma CountNone(events: seq<Event>, p: Event -> bool)
    requires events == []
    ensures Count(events, p) == 0
  {
  }

  // The reports that leave nothing unread behind them.
  ghost predicate LeavesNoGap(e: Event) {
    match e
    case DiskSignature(_) => true
    case PartitionListed(_) => true
    case PartitionsListed => true
    case BootSectorFound(_) => true
    case DirectoryRead(_, _) => true
    case IneligibleFound(_, _, _, _) => true
    case RunBroken(_, _, _, _, _) => true
    case Recoverable(_, _, _, _) => true
    case PartitionIdentified(_, identification) =>
      identification.Identified? && identification.filesystem == Filesystem.Fat32
    case Anomalies(anomalies) => DropCount(anomalies) == 0
    case Extracted(_, _, _, extraction, _, _) =>
      extraction.output.None? || extraction.output.value.Written? || extraction.output.value.Unverified?
    case _ => false
  }

  // Whether some root directory was read.
  ghost predicate RootWasRead(events: seq<Event>) {
    exists i :: 0 <= i < |events| && events[i].DirectoryRead? && events[i].reached == Root
  }

  ghost predicate NoGaps(events: seq<Event>) { forall i :: 0 <= i < |events| ==> LeavesNoGap(events[i]) }

  /** A run's verdict is what its reports say: complete exactly when none
      leaves a gap; nothing analysed exactly when one does and no root
      directory was read; and incomplete exactly when one does and one was. */
  lemma CoverageMeaning(events: seq<Event>)
    ensures TallyOf(events).Coverage() == Complete <==> NoGaps(events)
    ensures TallyOf(events).Coverage() == NothingAnalysed <==> !NoGaps(events) && !RootWasRead(events)
    ensures TallyOf(events).Coverage() == Incomplete <==> !NoGaps(events) && RootWasRead(events)
  {
    hide Tally.Gaps, LeavesNoGap;
    forall e: Event { NoGapIff(e); }
    GapsAreReported(events);
    TotalIsZeroIff(events, GapsOf);
    CountIsZeroIff(events, IsRootRead);
  }

  /** Every count is named for the events it counts: it is zero exactly when
      the run reports none of them. */
  lemma CountsNameTheirEvents(events: seq<Event>)
    ensures var t := TallyOf(events);
      && (t.volumesAnalysed == 0 <==> !RootWasRead(events))
      && (t.tableUnread == 0 <==> forall i :: 0 <= i < |events| ==> !events[i].TableUnread?)
      && (t.tableRejected == 0 <==> forall i :: 0 <= i < |events| ==> !events[i].TableRejected?)
      && (t.partitionsAnomalous == 0 <==> forall i :: 0 <= i < |events| ==>
            events[i].Anomalies? ==> DropCount(events[i].anomalies) == 0)
      && (t.gpt == 0 <==> forall i :: 0 <= i < |events| ==> !events[i].GptDetected?)
  {
    hide Count, Total;
    CountIsZeroIff(events, IsRootRead);
    CountIsZeroIff(events, IsTableUnread);
    CountIsZeroIff(events, IsTableRejected);
    TotalIsZeroIff(events, DroppedEntries);
    CountIsZeroIff(events, IsGpt);
  }

  lemma PartitionCountsNameTheirEvents(events: seq<Event>)
    ensures var t := TallyOf(events);
      && (t.partitionUnread == 0 <==> forall i :: 0 <= i < |events| ==> !events[i].PartitionUnread?)
      && (t.unidentified == 0 <==> forall i :: 0 <= i < |events| ==>
            events[i].PartitionIdentified? ==> !events[i].identification.Unknown?)
      && (t.unsupported == 0 <==> forall i :: 0 <= i < |events| ==>
            events[i].PartitionIdentified? && events[i].identification.Identified?
            ==> events[i].identification.filesystem == Filesystem.Fat32)
      && (t.bootRejected == 0 <==> forall i :: 0 <= i < |events| ==> !events[i].BootSectorRejected?)
      && (t.rootUnread == 0 <==> forall i :: 0 <= i < |events| ==> !events[i].RootDirectoryUnread?)
  {
    hide Count, Total;
    CountIsZeroIff(events, IsPartitionUnread);
    CountIsZeroIff(events, IsUnidentified);
    CountIsZeroIff(events, IsUnsupported);
    CountIsZeroIff(events, IsBootRejected);
    CountIsZeroIff(events, IsRootUnread);
  }

  lemma VolumeCountsNameTheirEvents(events: seq<Event>)
    ensures var t := TallyOf(events);
      && (t.directoriesUnread == 0 <==> forall i :: 0 <= i < |events| ==>
            !events[i].DirectoryNotRead? && !events[i].OrphanedListingUnread?)
      && (t.listingsMayContinue == 0 <==> forall i :: 0 <= i < |events| ==> !events[i].ListingMayContinue?)
      && (t.orphanSearchStopped == 0 <==> forall i :: 0 <= i < |events| ==> !events[i].OrphanSearchStopped?)
      && (t.notAssessed == 0 <==> forall i :: 0 <= i < |events| ==> !events[i].NotAssessed?)
      && (t.notExtracted == 0 <==> forall i :: 0 <= i < |events| ==> !events[i].NotExtracted?)
  {
    hide Count, Total;
    CountIsZeroIff(events, IsDirectoryUnread);
    CountIsZeroIff(events, IsMayContinue);
    CountIsZeroIff(events, IsStopped);
    CountIsZeroIff(events, IsNotAssessed);
    CountIsZeroIff(events, IsNotExtracted);
  }

  lemma EntryCountsNameTheirEvents(events: seq<Event>)
    ensures var t := TallyOf(events);
      && (t.freeRuns == 0 <==> forall i :: 0 <= i < |events| ==> !events[i].Recoverable?)
      && (t.refused == 0 <==> forall i :: 0 <= i < |events| ==> !events[i].RunBroken?)
      && (t.matched == 0 <==> forall i :: 0 <= i < |events| ==>
            events[i].Extracted? ==> events[i].validation.outcome != Match)
      && (t.empty == 0 <==> forall i :: 0 <= i < |events| ==>
            events[i].IneligibleFound? ==> events[i].why != EmptyFile)
      && (t.reservedCluster == 0 <==> forall i :: 0 <= i < |events| ==>
            events[i].IneligibleFound? ==> !events[i].why.ReservedFirstCluster?)
      && (t.runOutOfRange == 0 <==> forall i :: 0 <= i < |events| ==>
            events[i].IneligibleFound? ==> !events[i].why.RunOutOfRange?)
  {
    hide Count, Total;
    CountIsZeroIff(events, IsFreeRun);
    CountIsZeroIff(events, IsBroken);
    CountIsZeroIff(events, IsMatch);
    CountIsZeroIff(events, IsEmptyFile);
    CountIsZeroIff(events, IsReserved);
    CountIsZeroIff(events, IsOutOfRange);
  }

  lemma NoGapIff(e: Event)
    ensures LeavesNoGap(e) <==> GapsOf(e) == 0
  {
  }

  lemma {:induction false} CountIsZeroIff(events: seq<Event>, p: Event -> bool)
    ensures Count(events, p) == 0 <==> forall i :: 0 <= i < |events| ==> !p(events[i])
  {
    if events != [] { CountIsZeroIff(events[..|events| - 1], p); }
  }

  lemma {:induction false} TotalIsZeroIff(events: seq<Event>, w: Event -> nat)
    ensures Total(events, w) == 0 <==> forall i :: 0 <= i < |events| ==> w(events[i]) == 0
  {
    if events != [] { TotalIsZeroIff(events[..|events| - 1], w); }
  }

  // Where runs are read, each one found free has exactly one result, good or
  // bad; and each good one was compared with the reference, if there is one.
  ghost predicate Accounted(options: Options, events: seq<Event>) {
    && (if options.recover
        then Count(events, IsFreeRun) == Count(events, IsExtracted) + Count(events, IsNotExtracted)
        else Count(events, IsExtracted) == 0 == Count(events, IsNotExtracted))
    && Compared(options, events)
  }

  ghost predicate Compared(options: Options, events: seq<Event>) {
    forall i :: 0 <= i < |events| && events[i].Extracted? ==> Judged(options, events[i])
  }

  // What one extraction is judged by: its digest against the reference's, and
  // the digest of the file, read back, against its own.
  ghost predicate Judged(options: Options, x: Event)
    requires x.Extracted?
  {
    && x.validation.recovered == x.extraction.digest && x.validation.covers == x.extraction.bytesHashed
    && x.validation.reference == options.reference
    && (x.validation.outcome == Match <==> options.reference == Some(x.extraction.digest))
    && (x.validation.outcome == NotAttempted <==> options.reference == None)
    && (x.readbackMatches == None <==> !(x.extraction.output.Some? && x.extraction.output.value.Written?))
    && (x.readbackMatches == Some(true) <==>
          x.extraction.output.Some? && x.extraction.output.value.Written?
          && x.extraction.output.value.readback == x.extraction.digest)
  }

  lemma {:induction false} OutcomesPartition(options: Options, events: seq<Event>)
    requires Compared(options, events)
    ensures options.reference.Some? ==>
      Count(events, IsExtracted) == Count(events, IsMatch) + Count(events, IsDiffering)
    ensures options.reference.None? ==> Count(events, IsMatch) == 0 == Count(events, IsDiffering)
  {
    if events != [] {
      var front := events[..|events| - 1];
      assert forall i :: 0 <= i < |front| ==> front[i] == events[i];
      OutcomesPartition(options, front);
    }
  }

  /** The derived counts are counts of events, and neither of the saturating
      subtractions that derive them ever saturates. */
  lemma DerivedCountsAreEvents(options: Options, events: seq<Event>)
    requires Accounted(options, events)
    ensures var t := TallyOf(events);
      && t.Artifacts(options) == Count(events, IsExtracted)
      && t.Differed(options) == Count(events, IsDiffering)
      && t.NotRead(options) == t.freeRuns - Count(events, IsExtracted) - t.notExtracted
      && (options.recover ==> t.notExtracted <= t.freeRuns)
      && t.matched <= t.Artifacts(options)
  {
    OutcomesPartition(options, events);
    MatchesAreExtractions(events);
  }

  lemma {:induction false} MatchesAreExtractions(events: seq<Event>)
    ensures Count(events, IsMatch) <= Count(events, IsExtracted)
  {
    if events != [] { MatchesAreExtractions(events[..|events| - 1]); }
  }

  /** Keeps what a run reports, in the order it is reported. */
  class Sink {
    var events: seq<Event>

    constructor ()
      ensures events == []
    {
      events := [];
    }

    method Record(e: Event)
      modifies this
      ensures events == old(events) + [e]
      ensures TallyOf(events) == Bumped(TallyOf(old(events)), e)
    {
      hide TallyOf, Bumped;
      TallyOneMore(events, e);
      events := events + [e];
    }
  }
}
