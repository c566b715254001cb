/** The run: the partition table, each partition it lists, and each volume's
    root directory, walk and search. */
module Analysis {
  import opened ArtifactPath
  import opened DirectoryWalk
  import opened Events
  import opened Evidence
  import opened Extraction
  import opened Fat32
  import opened FatEnumerate
  import opened FatLayout
  import opened FatRecovery
  import opened Filesystems
  import opened Machine
  import OrphanSearch
  import opened Partition
  import opened RunReport
  import opened Session
  import opened Trace
  import opened VolumeWalk
  import opened Wrappers

  lemma RootIsListing(image: seq<u8>, v: Volume)
    requires v.Sound() && RootReading(image, v).Success?
    ensures IsListing(image, v, RootReading(image, v).value.directory)
  {
    hide FatEntry;
    ChainedIffChain(image, v, v.boot.rootCluster);
  }

  lemma RootErrorIsFinding(image: seq<u8>, v: Volume)
    requires v.Sound()
    ensures RootReading(image, v).Failure? ==> !FromReading(RootReading(image, v).error)
  {
    hide FatEntry, ListingOf;
    ChainErrorsAreFindings(image, v, [], v.boot.rootCluster);
  }

  lemma NotAskedYet(asked: seq<Artifact>, partition: u8)
    requires partition !in AskedPartitions(asked)
    ensures AskedPlaces(asked, partition) == {}
  {
    forall i | 0 <= i < |asked| ensures asked[i].partition != partition {
      assert asked[i].partition in AskedPartitions(asked);
    }
  }

  // Reads a volume's root directory, walks everything below it, and searches
  // what is left for directories nothing names.
  method ReportRootDirectory(session: Session, v: Volume, partition: u8) returns (ghost report: RootReport)
    requires session.Valid() && v.Sound() && session.Holds(v)
    requires partition !in AskedPartitions(session.asked)
    modifies session`asked, session.reader, session.store, session.counts, session.sink
    ensures session.Valid() && AskedPartitions(session.asked) <= old(AskedPartitions(session.asked)) + {partition}
    ensures RootOk(session.reader.image, v, partition, Faultless(session.reader, v), session.options, report)
    ensures session.Adds(RootTrace(session.reader.image, v, report))
    ensures session.asked == old(session.asked) + RootAsked(session.options, partition, report)
  {
    hide Session.Valid, Enumerated, IsListing, AskedPartitions, AskedPlaces, Told, SubjectsOf, Woven,
      IsRun, Finished, Seen, Given, Reports, OrphanSearch.SearchEvents, Volume.Sound;
    ghost var image := session.reader.image;
    RootErrorIsFinding(image, v);
    var root := Enumerate(session.reader, v, v.boot.rootCluster, Follow);
    session.AfterReading(v);
    if root.Failure? {
      session.ReportRootUnread(root.error);
      report := RootNotRead(root.error);
      return;
    }
    RootIsListing(image, v);
    NotAskedYet(session.asked, partition);
    report := WalkVolume(session, v, partition, root.value.directory);
  }

  // A volume whose root directory was read.
  method WalkVolume(session: Session, v: Volume, partition: u8, root: Directory) returns (ghost report: RootReport)
    requires session.Valid() && v.Sound() && session.Holds(v)
    requires AskedPlaces(session.asked, partition) == {}
    requires RootReading(session.reader.image, v).Success?
    requires root == RootReading(session.reader.image, v).value.directory
    requires IsListing(session.reader.image, v, root)
    modifies session`asked, session.reader, session.store, session.counts, session.sink
    ensures session.Valid() && AskedPartitions(session.asked) <= old(AskedPartitions(session.asked)) + {partition}
    ensures RootOk(session.reader.image, v, partition, Faultless(session.reader, v), session.options, report)
    ensures session.Adds(RootTrace(session.reader.image, v, report))
    ensures session.asked == old(session.asked) + RootAsked(session.options, partition, report)
  {
    hide Session.Valid, RootReading, IsListing, AskedPartitions, AskedPlaces, Told, SubjectsOf, SubjectsIn, Woven,
      Requested, IsRun, Finished, Seen, Given, Reports, Unvisited, QueueOf, OrphanSearch.SearchEvents, Volume.Sound;
    var walk := new VolumeWalk(session, v, partition, root);
    session.ReportRoot(root);
    StartOfRun(session.reader.image, v, Faultless(session.reader, v), root);
    RootIsReport(root);
    BalancesAtFirst(walk.ledger);
    walk.QueueSubdirectories(root, "", 0);
    walk.ReportListing(root, WalkedListing, [], old(session.sink.events), [DirectoryRead(Root, root)]);
    assert [] + [DirectoryRead(Root, root)] == [DirectoryRead(Root, root)];
    walk.VisitAll();
    var stop := walk.SearchOrphanedDirectories();
    report := RootWalked(walk.run, stop, walk.told);
  }

  lemma RootIsReport(root: Directory)
    ensures IsReport([DirectoryRead(Root, root)])
    ensures SubjectsOf([DirectoryRead(Root, root)]) == SubjectsIn(root, WalkedListing)
  {
    hide SubjectsIn;
    GatherFew([DirectoryRead(Root, root)], SubjectsOfOne);
  }

  // One partition: what its first sector identifies, and the volume behind it.
  method ReportPartition(session: Session, p: MbrPartition) returns (ghost report: PartitionReport)
    requires session.Valid() && Held(p, session.length / 512)
    requires p.index !in AskedPartitions(session.asked)
    modifies session`asked, session.reader, session.store, session.counts, session.sink
    ensures session.Valid() && AskedPartitions(session.asked) <= old(AskedPartitions(session.asked)) + {p.index}
    ensures PartitionOk(session.reader.image, session.reader.reliable, session.options, p, report)
    ensures session.Adds(PartitionTrace(session.reader.image, p, report))
    ensures session.asked == old(session.asked) + PartitionAsked(session.options, p, report)
  {
    hide Session.Valid, AskedPartitions, RootOk, RootTrace, RootAsked, Identify, ParseBootSector,
      Slice, Volume.Sound;
    ghost var image := session.reader.image;
    HeldFits(p, session.length);
    var vbr := session.ReadSector(p.StartByte());
    if vbr.Failure? {
      session.ReportPartitionUnread(p);
      return PartitionNotRead;
    }
    var id := Identify(vbr.value);
    session.ReportIdentified(p, id);
    if !(id.Identified? && id.filesystem.Fat32?) {
      return PartitionRead(None);
    }
    var boot := ParseBootSector(vbr.value, p.Extent());
    if boot.Failure? {
      session.ReportBootRejected(boot.error);
      return PartitionRead(None);
    }
    session.ReportUncounted(BootSectorFound(boot.value));
    ParseIsSound(vbr.value, p.Extent());
    var root := ReportRootDirectory(session, Volume(boot.value, p.Extent()), p.index);
    report := PartitionRead(Some(root));
  }

  method ReportPartitions(session: Session, ps: seq<MbrPartition>) returns (ghost reports: seq<PartitionReport>)
    requires session.Valid() && AskedPartitions(session.asked) == {}
    requires forall i :: 0 <= i < |ps| ==> Held(ps[i], session.length / 512)
    requires forall i, j :: 0 <= i < j < |ps| ==> ps[i].index < ps[j].index
    modifies session`asked, session.reader, session.store, session.counts, session.sink
    ensures session.Valid()
    ensures EachOk(session.reader.image, session.reader.reliable, session.options, ps, reports)
    ensures session.Adds(EachTrace(session.reader.image, ps, reports))
    ensures session.asked == old(session.asked) + EachAsked(session.options, ps, reports)
  {
    hide Session.Valid, AskedPartitions, PartitionOk, PartitionTrace, PartitionAsked;
    reports := [];
    for i := 0 to |ps|
      invariant session.Valid() && |reports| == i
      invariant forall q :: q in AskedPartitions(session.asked) ==> exists k :: 0 <= k < i && ps[k].index == q
      invariant forall k :: 0 <= k < i ==>
        PartitionOk(session.reader.image, session.reader.reliable, session.options, ps[k], reports[k])
      invariant session.Adds(EachTrace(session.reader.image, ps, reports))
      invariant session.asked == old(session.asked) + EachAsked(session.options, ps, reports)
    {
      var report := ReportPartition(session, ps[i]);
      assert (reports + [report])[..i] == reports;
      reports := reports + [report];
    }
  }

  method ListPartitions(session: Session, ps: seq<MbrPartition>)
    requires session.Valid()
    modifies session.counts, session.sink
    ensures session.Valid() && session.Adds(ListedEvents(ps) + [PartitionsListed])
  {
    hide Session.Valid;
    for i := 0 to |ps|
      invariant session.Valid() && session.Adds(ListedEvents(ps[..i]))
    {
      session.ReportUncounted(PartitionListed(ps[i]));
      assert ListedEvents(ps[..i + 1]) == ListedEvents(ps[..i]) + [PartitionListed(ps[i])];
    }
    assert ps[..|ps|] == ps;
    session.ReportUncounted(PartitionsListed);
  }

  method ReportTable(session: Session, o: ParseOutcome) returns (ghost reports: seq<PartitionReport>)
    requires session.Valid() && AskedPartitions(session.asked) == {}
    requires TableIn(session.reader.image, session.length) == Success(o)
    modifies session`asked, session.reader, session.store, session.counts, session.sink
    ensures session.Valid()
    ensures RunOk(session.reader.image, session.length, session.reader.reliable, session.options, TableRead(reports))
    ensures session.Adds(RunTrace(session.reader.image, session.length, TableRead(reports)))
    ensures session.asked == old(session.asked)
      + RunAsked(session.reader.image, session.length, session.options, TableRead(reports))
  {
    hide Session.Valid, AskedPartitions, PartitionOk, EachTrace, ListedEvents, TableOf;
    match o.table
    case Mbr(signature, ps) =>
      session.ReportUncounted(DiskSignature(signature));
      ListPartitions(session, ps);
      ListedPartitions(session.reader.image, session.length);
      reports := ReportPartitions(session, ps);
      TableInOrder(old(session.sink.events), [DiskSignature(signature)], ListedEvents(ps) + [PartitionsListed],
                   EachTrace(session.reader.image, ps, reports), AnomalyEvents(o.anomalies));
      session.ReportAnomalies(o.anomalies);
    case GptProtective =>
      session.ReportGpt();
      session.ReportAnomalies(o.anomalies);
      reports := [];
  }

  lemma TableInOrder(base: seq<Event>, a: seq<Event>, b: seq<Event>, c: seq<Event>, d: seq<Event>)
    ensures base + a + b + c + d == base + (a + b + c + d)
  {
  }

  /** One run over an image. Whatever the image holds and whatever fails: the
      counts are the tally of the events; the events are, one by one and in
      order, those the report accounts for; nothing past the measured length is
      ever read; and the artifacts asked for are those of the runs reported
      free. */
  method Run(reader: EvidenceReader, length: u64, options: Options, store: Store)
    returns (session: Session, ghost report: RunReport)
    modifies reader, store
    ensures session.reader == reader && session.length == length
    ensures session.options == options && session.store == store
    ensures session.initial == old(store.files) && session.earlier == old(store.attempts)
    ensures session.counts.View() == TallyOf(session.sink.events)
    ensures TraceOk(options, old(store.files), reader.reliable && 512 <= length <= |reader.image|,
                    store.files, store.lossless, session.sink.events)
    ensures StoreKept(options.output, old(store.files), old(store.attempts), session.asked, store.files, store.attempts)
    ensures 512 <= length ==>
      forall s :: s in reader.requests && s !in old(reader.requests) ==> Inside(s, 0, length)
    ensures RunOk(reader.image, length, reader.reliable, options, report)
    ensures session.sink.events == RunTrace(reader.image, length, report)
    ensures session.asked == RunAsked(reader.image, length, options, report)
  {
    hide TallyOf, TraceOk, StoreKept, EachOk, RunTrace, RunAsked, TableOf;
    session := new Session(reader, length, options, store);
    report := Analyse(session);
  }

  method Analyse(session: Session) returns (ghost report: RunReport)
    requires session.Valid() && session.asked == []
    modifies session`asked, session.reader, session.store, session.counts, session.sink
    ensures session.Valid()
    ensures RunOk(session.reader.image, session.length, session.reader.reliable, session.options, report)
    ensures session.Adds(RunTrace(session.reader.image, session.length, report))
    ensures session.asked == RunAsked(session.reader.image, session.length, session.options, report)
  {
    hide Session.Valid, PartitionOk, EachTrace, TableTrace, AnomalyEvents, TableOf;
    var sector := session.ReadSector(0);
    if sector.Failure? {
      session.ReportTableUnread();
      return TableNotRead;
    }
    var outcome := ParseMbr(sector.value, session.length / 512);
    if outcome.Failure? {
      session.ReportTableRejected(outcome.error);
      return TableRead([]);
    }
    var reports := ReportTable(session, outcome.value);
    report := TableRead(reports);
  }
}
