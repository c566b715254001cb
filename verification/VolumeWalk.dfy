/** Walking one volume's directories, and searching it for orphaned ones. */
module VolumeWalk {
  import opened DirectoryWalk
  import opened Events
  import opened Evidence
  import opened Fat
  import opened Fat32
  import opened FatDeleted
  import opened FatDirectory
  import opened FatEnumerate
  import opened FatLayout
  import opened FatListing
  import opened FatRecovery
  import opened Machine
  import opened OrphanSearch
  import opened Session
  import opened Trace
  import opened Wrappers

  // Every place asked for lies in a cluster already read as a directory.
  ghost predicate AskedWithin(places: set<(nat, nat)>, seen: set<u32>) {
    forall p :: p in places ==> p.0 in seen
  }

  // Reads the directory a place in the queue stands for, the way its entry's
  // being deleted or not asks for.
  method ReadNamed(reader: EvidenceReader, v: Volume, next: Pending) returns (reading: Verdict)
    requires v.Sound()
    modifies reader
    ensures ReadsStayInside(reader, v)
    ensures reading == ReadingOf(reader.image, v, next)
         || (!Faultless(reader, v) && reading.Unread? && reading.reason.NotEnumerated?
           && reading.reason.error.Unreadable?)
  {
    hide Enumerated, DeletedReading;
    if next.deleted {
      var r := EnumerateDeletedDirectory(reader, v, next.firstCluster);
      match r
      case Success(Read(listing, mayContinue)) => reading := ReadAs(listing, mayContinue);
      case Success(Refused(reason)) => reading := Unread(RefusedAs(reason));
      case Failure(e) => reading := Unread(NotEnumerated(e));
    } else {
      var r := Enumerate(reader, v, next.firstCluster, Follow);
      match r
      case Success(e) => reading := ReadAs(e.directory, false);
      case Failure(e) => reading := Unread(NotEnumerated(e));
    }
  }

  // The orphan search's reading of one cluster: the 64-byte test, and then,
  // of a cluster that passes it, the full reading.
  method ExamineCluster(reader: EvidenceReader, v: Volume, cluster: u32)
    returns (r: Result<Option<DeletedDirectory>, DirectoryError>)
    requires v.Sound() && v.HasCluster(cluster)
    modifies reader
    ensures ReadsStayInside(reader, v)
    ensures Agrees(reader, v, r, Success(Orphanage(reader.image, v, cluster)))
  {
    hide Begins, FatEntry, DeletedReading;
    FirstTestIsExact(reader.image, v, cluster);
    var begins :- BeginsDirectory(reader, v, cluster);
    if !begins {
      return Success(None);
    }
    var read :- EnumerateDeletedDirectory(reader, v, cluster);
    r := Success(if read.Read? then Some(read) else None);
  }

  ghost function Orphanage(image: seq<u8>, v: Volume, c: u32): Option<DeletedDirectory>
    requires v.Sound() && v.HasCluster(c)
  {
    if FatEntry(image, v, c) == 0 && Begins(image, v, c) then Some(OrphanAt(image, v, c)) else None
  }

  method DeletedSegmentOf(slots: seq<Entry>, index: nat, surviving: SurvivingName) returns (r: Option<string>)
    ensures r == DeletedSegment(slots, index, surviving)
  {
    var first := Associate(slots, index);
    r := if first.Some? && first.value.Recovered? then RecoveredName(first.value.byte, surviving)
         else RecoveredName(0x3F, surviving);
  }

  // The directory the entry at `index` names, if it names one to be followed.
  method NamedEntry(slots: seq<Entry>, index: nat) returns (r: Option<(u32, string, bool)>)
    requires index < |slots|
    ensures r == NamedAt(slots, index)
  {
    var kind := slots[index].kind;
    if IsDotEntry(kind) {
      return None;
    }
    match kind
    case ShortName(name, _, true, first, _, _) => r := Some((first, OrByCluster(name, first), false));
    case Deleted(DeletedShortName(surviving, true, first, _, _)) =>
      var segment := DeletedSegmentOf(slots, index, surviving);
      r := Some((first, OrByCluster(segment, first), true));
    case _ => r := None;
  }

  method ListNames(slots: seq<Entry>, holder: u32) returns (listed: seq<OrphanName>)
    ensures listed == ListedFrom(slots, |slots|, holder)
  {
    hide NamedAt;
    listed := [];
    for index := 0 to |slots|
      invariant listed == ListedFrom(slots, index, holder)
    {
      var name := NamedEntry(slots, index);
      if name.Some? {
        listed := listed + [OrphanName(holder, name.value.1, name.value.0)];
      }
    }
  }

  class VolumeWalk {
    const session: Session
    const volume: Volume
    const partition: u8

    // The clusters of every directory reported so far.
    var seen: set<u32>

    // Directories named and not yet visited, in order.
    var pending: seq<Pending>

    // The first clusters of every directory taken off the queue.
    var named: set<u32>

    // The run so far, what has been reported of each entry listed, and what
    // both are accounted against.
    ghost var run: Walk
    ghost var told: seq<seq<Event>>
    ghost const ledger: Ledger

    ghost predicate Context()
      reads this, session, session.reader, session.store, session.counts, session.sink
    {
      && session.Valid() && volume.Sound() && session.Holds(volume) && LedgerIsOurs()
      && AskedWithin(AskedPlaces(session.asked, partition), seen)
      && IsRun(session.reader.image, volume, Faultless(session.reader, volume), run)
    }

    ghost predicate LedgerIsOurs() {
      && ledger.image == session.reader.image && ledger.volume == volume && ledger.partition == partition
      && ledger.faultless == Faultless(session.reader, volume) && ledger.options == session.options
    }

    // Everything so far is accounted for by these reports on structure.
    ghost predicate Balances(structure: seq<Event>)
      requires ledger.volume.Sound()
      reads this, session, session.sink
    {
      ledger.Balances(structure, told, session.sink.events, session.asked)
    }

    // The walk's state is the run's, but for the directory just taken off the
    // queue and not yet visited.
    ghost predicate Visiting(next: Pending)
      reads this, session, session.reader, session.store, session.counts, session.sink
    {
      && Context() && seen == Seen(run) && Balances(Reports(run))
      && Unvisited(run) == [next] + pending && named == Given(run) + {next.firstCluster}
    }

    ghost predicate Queued()
      reads this, session, session.reader, session.store, session.counts, session.sink
    {
      Context() && seen == Seen(run) && Unvisited(run) == pending && named == Given(run)
    }

    ghost predicate Valid()
      reads this, session, session.reader, session.store, session.counts, session.sink
    {
      Queued() && Balances(Reports(run))
    }

    constructor (session: Session, volume: Volume, partition: u8, root: Directory)
      requires volume.Sound()
      ensures this.session == session && this.volume == volume && this.partition == partition
      ensures seen == ClusterSet(root) && pending == [] && named == {} && run == Walk(root, []) && told == []
      ensures LedgerIsOurs() && ledger.before == session.sink.events && ledger.askedBefore == session.asked
    {
      this.session := session;
      this.volume := volume;
      this.partition := partition;
      seen := set c | c in root.clusters;
      pending := [];
      named := {};
      run := Walk(root, []);
      told := [];
      ledger := Ledger(session.reader.image, volume, partition, Faultless(session.reader, volume), session.options,
                       session.sink.events, session.asked);
    }

    // Puts what a listing names on the queue, its own dot entries apart.
    method QueueSubdirectories(d: Directory, parent: string, depth: nat)
      modifies this`pending
      ensures pending == old(pending) + QueueOf(d, parent, depth)
    {
      hide QueuedFrom;
      QueueFrom(d.entries, parent, depth);
      QueueFrom(d.residue, parent, depth);
    }

    method QueueFrom(slots: seq<Entry>, parent: string, depth: nat)
      modifies this`pending
      ensures pending == old(pending) + QueuedFrom(slots, |slots|, parent, depth)
    {
      hide NamedAt;
      var queued: seq<Pending> := [];
      for index := 0 to |slots|
        invariant pending == old(pending) && queued == QueuedFrom(slots, index, parent, depth)
      {
        var name := NamedEntry(slots, index);
        if name.Some? {
          var (firstCluster, segment, deleted) := name.value;
          queued := queued + [Pending(firstCluster, parent + "/" + segment, depth + 1, deleted)];
        }
      }
      pending := pending + queued;
    }

    // Reports on the content of every entry of a directory just reported, by
    // the events `es` that came after `before`.
    method ReportListing(d: Directory, listing: Listing, ghost structure: seq<Event>, ghost before: seq<Event>,
                         ghost es: seq<Event>)
      requires session.Valid() && volume.Sound() && session.Holds(volume) && LedgerIsOurs()
      requires ledger.Balances(structure, told, before, session.asked) && session.sink.events == before + es
      requires IsReport(es) && SubjectsOf(es) == SubjectsIn(d, listing)
      requires IsListing(session.reader.image, volume, d) && ClusterSet(d) <= seen
      requires AskedWithin(AskedPlaces(session.asked, partition), seen - ClusterSet(d))
      modifies this`told, session`asked, session.reader, session.store, session.counts, session.sink
      ensures session.Valid() && AskedWithin(AskedPlaces(session.asked, partition), seen)
      ensures AskedPartitions(session.asked) <= old(AskedPartitions(session.asked)) + {partition}
      ensures Balances(structure + es)
    {
      hide Session.Valid, Told, Flat, AskedPlaces, AskedPartitions, PlaceSet, SubjectsOf, SubjectsAmong, IsListing,
        Volume.Sound, Ledger.Balances, Requested, IsReport;
      DirectoryPlaces(session.reader.image, volume, d);
      HalvesDiffer(d, AskedPlaces(session.asked, partition), seen - ClusterSet(d));
      ghost var l := ledger;
      var entries := session.ReportRecovery(d.entries, volume, partition, listing, EntriesPart);
      var residue := session.ReportRecovery(d.residue, volume, partition, listing, ResiduePart);
      ToldMore(l.image, l.volume, l.partition, l.faultless, l.options, SubjectsAmong(d.entries, listing, EntriesPart),
               SubjectsAmong(d.residue, listing, ResiduePart), entries, residue);
      RequestedJoined(l.options, l.partition, Flat(entries), Flat(residue));
      BalancesListing(l, structure, told, before, old(session.asked), es, entries + residue);
      Joined(before + es, Flat(entries), Flat(residue));
      Joined(old(session.asked), Requested(l.options, l.partition, Flat(entries)),
             Requested(l.options, l.partition, Flat(residue)));
      told := told + (entries + residue);
    }

    // Answers a name with the reason there is no directory to report.
    method Decline(next: Pending, reason: NotReadReason)
      requires Visiting(next)
      requires Legal(session.reader.image, volume, Faultless(session.reader, volume), seen, next, Unread(reason))
      modifies this`run, session.counts, session.sink
      ensures Valid() && run == Walk(old(run).root, old(run).steps + [Step(next, Unread(reason))])
    {
      hide Session.Valid, IsRun, Legal, Seen, Unvisited, Given, Reports, Ledger.Balances, AskedPlaces, Volume.Sound;
      var step := Step(next, Unread(reason));
      ghost var e := DirectoryNotRead(Walked(next.path, next.deleted), reason);
      Advance(session.reader.image, volume, Faultless(session.reader, volume), run, step, pending);
      if Faultless(session.reader, volume) {
        DeclineNeverFaults(session.reader.image, volume, true, seen, next, reason);
      }
      session.ReportDirectoryNotRead(Walked(next.path, next.deleted), reason);
      BalancesSilent(ledger, Reports(run), told, old(session.sink.events), session.asked, [e]);
      assert StepEvents(step) == [e];
      run := Walk(run.root, run.steps + [step]);
    }

    // One visit: the checks that need no reading, the reading, and the check
    // for clusters another directory has.
    method ReportSubdirectory(next: Pending)
      requires Visiting(next)
      modifies this, session`asked, session.reader, session.store, session.counts, session.sink
      ensures Valid() && AskedPartitions(session.asked) <= old(AskedPartitions(session.asked)) + {partition}
      ensures |run.steps| == |old(run).steps| + 1 && run.root == old(run).root
      ensures named == old(named)
      ensures (seen == old(seen) && pending == old(pending)) || old(seen) < seen
    {
      hide Session.Valid, IsRun, Seen, Unvisited, Given, Reports, Ledger.Balances, AskedPlaces, AskedPartitions,
        ReadingOf, Volume.Sound, QueueOf, IsListing, StepEvents, SubjectsOf, SubjectsIn, IsReport;
      if next.depth > MAX_DEPTH {
        Decline(next, TooDeep);
        return;
      }
      if next.firstCluster in seen {
        Decline(next, AlreadyRead(next.firstCluster));
        return;
      }
      var reading := ReadNamed(session.reader, volume, next);
      session.AfterReading(volume);
      if reading.Unread? {
        Decline(next, reading.reason);
        return;
      }
      var shared := FirstShared(reading.directory.clusters, seen);
      if shared.Some? {
        Decline(next, AlreadyRead(shared.value));
        return;
      }
      ghost var es := StepEvents(Step(next, reading));
      StepReport(Step(next, reading));
      Accept(next, reading.directory, reading.mayContinue);
      ReportListing(reading.directory, WalkedListing, old(Reports(run)), old(session.sink.events), es);
    }

    // Reports a directory that was read, and queues what it names.
    method Accept(next: Pending, d: Directory, mayContinue: bool)
      requires Visiting(next)
      requires Legal(session.reader.image, volume, Faultless(session.reader, volume), seen, next, ReadAs(d,
        mayContinue))
      modifies this`seen, this`pending, this`run, session.counts, session.sink
      ensures Queued() && IsListing(session.reader.image, volume, d)
      ensures run == Walk(old(run).root, old(run).steps + [Step(next, ReadAs(d, mayContinue))])
      ensures Reports(run) == Reports(old(run)) + StepEvents(Step(next, ReadAs(d, mayContinue)))
      ensures session.Adds(StepEvents(Step(next, ReadAs(d, mayContinue))))
      ensures old(seen) < seen && ClusterSet(d) <= seen && seen - ClusterSet(d) == old(seen)
    {
      hide Session.Valid, IsRun, Legal, Seen, Unvisited, Given, Reports, Ledger.Balances, AskedPlaces, Volume.Sound,
        QueueOf, StepEvents, IsListing, AskedWithin, ClusterSet, ReadingOf;
      var step := Step(next, ReadAs(d, mayContinue));
      Advance(session.reader.image, volume, Faultless(session.reader, volume), run, step, pending);
      LegalReadIsFresh(session.reader.image, volume, Faultless(session.reader, volume), seen, next, step.verdict);
      FreshGrows(seen, d);
      seen := seen + set c | c in d.clusters;
      ReportRead(next, d, mayContinue);
      QueueSubdirectories(d, next.path, next.depth);
      run := Walk(run.root, run.steps + [step]);
      WithinGrows(AskedPlaces(session.asked, partition), old(seen), seen);
      assert Context();
      assert Unvisited(run) == pending;
    }

    method ReportRead(next: Pending, d: Directory, mayContinue: bool)
      requires session.Valid()
      modifies session.counts, session.sink
      ensures session.Valid() && session.Adds(StepEvents(Step(next, ReadAs(d, mayContinue))))
    {
      hide Session.Valid;
      session.ReportDirectory(Walked(next.path, next.deleted), d);
      if mayContinue {
        session.ReportMayContinue(next.firstCluster);
      }
    }

    // Takes one directory off the queue, and visits it.
    method VisitNext()
      requires Valid() && pending != []
      modifies this, session`asked, session.reader, session.store, session.counts, session.sink
      ensures Valid() && AskedPartitions(session.asked) <= old(AskedPartitions(session.asked)) + {partition}
      ensures run.root == old(run).root
      ensures (seen == old(seen) && |pending| < |old(pending)|) || old(seen) < seen
    {
      hide Session.Valid, IsRun, Seen, Unvisited, Given, Reports, Ledger.Balances, AskedPlaces, AskedPartitions,
        AskedWithin, Volume.Sound;
      var next := pending[0];
      pending := pending[1..];
      named := named + {next.firstCluster};
      assert old(pending) == [next] + pending;
      ReportSubdirectory(next);
    }

    // Visits every directory the root names, and every one those name, until
    // none is left. Each visit either reads a cluster never read before or
    // queues nothing.
    method VisitAll()
      requires Valid()
      modifies this, session`asked, session.reader, session.store, session.counts, session.sink
      ensures Valid() && AskedPartitions(session.asked) <= old(AskedPartitions(session.asked)) + {partition}
      ensures run.root == old(run).root && Finished(run)
    {
      hide Session.Valid, IsRun, Seen, Unvisited, Given, Reports, Ledger.Balances, AskedPlaces, AskedPartitions,
        AskedWithin, Volume.Sound, Finished;
      while pending != []
        invariant Valid() && run.root == old(run).root
        invariant AskedPartitions(session.asked) <= old(AskedPartitions(session.asked)) + {partition}
        decreases DataClusters(volume) - seen, |pending|
      {
        VisitNext();
        SeenIsData(session.reader.image, volume, Faultless(session.reader, volume), run);
      }
      NothingLeft(session.reader.image, volume, Faultless(session.reader, volume), run);
    }

    // The search's state once it has found these orphans.
    ghost predicate Searching(found: seq<u32>)
      reads this, session, session.reader, session.store, session.counts, session.sink
    {
      && Context() && named == Given(run) && AllRead(session.reader.image, volume, found)
      && seen == Seen(run) + SetOf(found)
      && Balances(Reports(run) + FoundEvents(session.reader.image, volume, found))
    }

    // The volume's walk and search are over, and everything they found has
    // been reported.
    ghost predicate Searched(stop: Option<(u32, DirectoryError)>)
      reads this, session, session.reader, session.store, session.counts, session.sink
    {
      && session.Valid() && volume.Sound() && LedgerIsOurs()
      && Balances(Reports(run) + SearchEvents(session.reader.image, volume, Seen(run), Given(run), stop))
      && (stop.Some? ==>
            !Faultless(session.reader, volume) && volume.HasCluster(stop.value.0) && stop.value.1.Unreadable?)
    }

    // Reports a directory the search found, and what it names.
    method ReportOrphan(cluster: u32, orphan: DeletedDirectory, ghost found: seq<u32>)
      returns (listed: seq<OrphanName>)
      requires Searching(found) && cluster !in seen && volume.HasCluster(cluster)
      requires orphan.Read? && orphan == OrphanAt(session.reader.image, volume, cluster)
      requires orphan.listing.clusters == [cluster] && IsListing(session.reader.image, volume, orphan.listing)
      modifies this`seen, this`told, session`asked, session.reader, session.store, session.counts, session.sink
      ensures Searching(found + [cluster]) && listed == ListedBy(orphan.listing, cluster)
      ensures AskedPartitions(session.asked) <= old(AskedPartitions(session.asked)) + {partition}
    {
      hide Session.Valid, IsRun, Seen, Given, Reports, Ledger.Balances, AskedPlaces, AskedPartitions, Volume.Sound,
        IsListing, OrphanAt, FoundEvents, AllRead, ListedFrom, AskedWithin, OrphanEvents, SubjectsOf, SubjectsIn,
        IsReport;
      FoundOneMore(session.reader.image, volume, found, cluster);
      seen := seen + {cluster};
      SetOfOneMore(found, cluster);
      OneCluster(orphan.listing, cluster);
      WithinGrows(AskedPlaces(session.asked, partition), old(seen), seen);
      assert seen - ClusterSet(orphan.listing) == old(seen);
      ReportFound(cluster, orphan);
      ghost var structure := Reports(run) + FoundEvents(session.reader.image, volume, found);
      Joined(Reports(run), FoundEvents(session.reader.image, volume, found), OrphanEvents(cluster, orphan));
      OrphanReport(cluster, orphan);
      var fromEntries := ListNames(orphan.listing.entries, cluster);
      var fromResidue := ListNames(orphan.listing.residue, cluster);
      listed := fromEntries + fromResidue;
      ReportListing(orphan.listing, OrphanedListing, structure, old(session.sink.events), OrphanEvents(cluster,
        orphan));
    }

    method ReportFound(cluster: u32, orphan: DeletedDirectory)
      requires session.Valid() && orphan.Read?
      modifies session.counts, session.sink
      ensures session.Valid() && session.Adds(OrphanEvents(cluster, orphan))
    {
      hide Session.Valid;
      session.ReportDirectory(Orphaned(cluster, ParentOf(orphan.listing)), orphan.listing);
      if orphan.mayContinue {
        session.ReportMayContinue(cluster);
      }
    }

    // Goes through the data clusters in order, and reports as a directory each
    // one that is an orphan.
    method SearchOrphanedDirectories() returns (ghost stop: Option<(u32, DirectoryError)>)
      requires Valid()
      modifies this`seen, this`told, session`asked, session.reader, session.store, session.counts, session.sink
      ensures Searched(stop) && run == old(run)
      ensures AskedPartitions(session.asked) <= old(AskedPartitions(session.asked)) + {partition}
    {
      hide Session.Valid, IsRun, Seen, Given, Reports, Ledger.Balances, AskedPlaces, AskedPartitions, Volume.Sound,
        OrphanAt, IsOrphan, FoundEvents, FoundNames, ListedBy, IsListing, AllRead, AskedWithin, UnreadNames,
        OrphansBelow, SearchEvents;
      SoundNeverWraps(volume);
      ghost var image := session.reader.image;
      ghost var found: seq<u32> := [];
      NothingFound(image, volume, Seen(run), Given(run));
      assert Reports(run) + FoundEvents(image, volume, []) == Reports(run);
      var listed: seq<OrphanName> := [];
      var cluster: u32 := FIRST_DATA_CLUSTER;
      var end := volume.boot.geometry.DataClustersEnd();
      while cluster < end
        invariant FIRST_DATA_CLUSTER <= cluster <= end == volume.LastCluster()
        invariant Searching(found) && named == old(named) && run == old(run)
        invariant found == OrphansBelow(image, volume, Seen(run), Given(run), cluster)
        invariant listed == FoundNames(image, volume, found)
        invariant AskedPartitions(session.asked) <= old(AskedPartitions(session.asked)) + {partition}
      {
        var names, more := SearchCluster(cluster, found);
        if names.Failure? {
          StopSearch(cluster, names.error, found);
          return Some((cluster, names.error));
        }
        listed := listed + names.value;
        found := more;
        cluster := cluster + 1;
      }
      EndSearch(listed, found);
      stop := None;
    }

    // A read failed: the clusters after this one are never visited.
    method StopSearch(cluster: u32, error: DirectoryError, ghost found: seq<u32>)
      requires Searching(found) && volume.HasCluster(cluster) && volume.LastCluster() <= U32_MAX
      requires found == OrphansBelow(session.reader.image, volume, Seen(run), Given(run), cluster)
      requires error.Unreadable? && !Faultless(session.reader, volume)
      modifies session.counts, session.sink
      ensures Searched(Some((cluster, error)))
    {
      hide Session.Valid, IsRun, Seen, Given, Reports, Ledger.Balances, AskedPlaces, Volume.Sound, FoundEvents,
        AllRead, AskedWithin, OrphansBelow, SearchEvents;
      ghost var image, last := session.reader.image, [OrphanSearchStopped(cluster, error)];
      ghost var structure := Reports(run) + FoundEvents(image, volume, found);
      session.ReportSearchStopped(cluster, error);
      StoppedEvents(image, volume, Seen(run), Given(run), found, cluster, error);
      BalancesSilent(ledger, structure, told, old(session.sink.events), session.asked, last);
      Joined(Reports(run), FoundEvents(image, volume, found), last);
    }

    // Every cluster has been visited: what the orphans name and no one read
    // can be reported.
    method EndSearch(listed: seq<OrphanName>, ghost found: seq<u32>)
      requires Searching(found) && volume.LastCluster() <= U32_MAX
      requires found == OrphansBelow(session.reader.image, volume, Seen(run), Given(run), volume.LastCluster())
      requires listed == FoundNames(session.reader.image, volume, found)
      modifies session.counts, session.sink
      ensures Searched(None)
    {
      hide Session.Valid, IsRun, Seen, Given, Reports, Ledger.Balances, AskedPlaces, Volume.Sound, FoundEvents,
        FoundNames, AllRead, AskedWithin, OrphansBelow, SearchEvents, UnreadNames;
      ghost var image, last := session.reader.image, UnreadNames(listed, seen);
      ghost var structure := Reports(run) + FoundEvents(image, volume, found);
      ReportUnreadNames(listed);
      FinishedEvents(image, volume, Seen(run), Given(run), found);
      UnreadNamesAreSilent(listed, seen);
      BalancesSilent(ledger, structure, told, old(session.sink.events), session.asked, last);
      Joined(Reports(run), FoundEvents(image, volume, found), last);
    }

    // The search's visit to one cluster: what the directory there names, if
    // there is one to be found.
    method SearchCluster(cluster: u32, ghost found: seq<u32>)
      returns (names: Result<seq<OrphanName>, DirectoryError>, ghost more: seq<u32>)
      requires Searching(found) && volume.HasCluster(cluster) && volume.LastCluster() <= U32_MAX
      requires found == OrphansBelow(session.reader.image, volume, Seen(run), Given(run), cluster)
      modifies this`seen, this`told, session`asked, session.reader, session.store, session.counts, session.sink
      ensures Searching(more) && AskedPartitions(session.asked) <= old(AskedPartitions(session.asked)) + {partition}
      ensures names.Success? ==>
        && more == OrphansBelow(session.reader.image, volume, Seen(run), Given(run), cluster + 1)
        && FoundNames(session.reader.image, volume, more)
           == FoundNames(session.reader.image, volume, found) + names.value
      ensures names.Failure? ==> more == found && names.error.Unreadable? && !Faultless(session.reader, volume)
    {
      hide Session.Valid, IsRun, Seen, Given, Reports, Ledger.Balances, AskedPlaces, AskedPartitions, Volume.Sound,
        OrphanAt, IsOrphan, FoundEvents, FoundNames, ListedBy, IsListing, AllRead, AskedWithin, OrphansBelow;
      ghost var image := session.reader.image;
      OrphansBelowStep(image, volume, Seen(run), Given(run), found, cluster);
      more := found;
      if cluster in seen || cluster in named {
        return Success([]), found;
      }
      var examined := ExamineCluster(session.reader, volume, cluster);
      session.AfterReading(volume);
      if examined.Failure? {
        return Failure(examined.error), found;
      }
      if examined.value.None? {
        return Success([]), found;
      }
      OrphanIsRead(image, volume, Seen(run), Given(run), cluster);
      FoundOneMore(image, volume, found, cluster);
      var listed := ReportOrphan(cluster, examined.value.value, found);
      return Success(listed), found + [cluster];
    }

    // Answers the names the orphans gave that lead nowhere the run has been.
    method ReportUnreadNames(listed: seq<OrphanName>)
      requires session.Valid()
      modifies session.counts, session.sink
      ensures session.Valid()
      ensures session.Adds(UnreadNames(listed, seen))
    {
      hide Session.Valid;
      for i := 0 to |listed|
        invariant session.Valid()
        invariant session.Adds(UnreadNames(listed[..i], seen))
      {
        assert listed[..i + 1][..i] == listed[..i];
        var name := listed[i];
        if name.firstCluster !in seen {
          session.ReportListedUnread(name.holder, name.name, name.firstCluster);
        }
      }
      assert listed[..|listed|] == listed;
    }
  }

  ghost function DataClusters(v: Volume): set<u32> { set c: u32 | 0 <= c < v.LastCluster() && v.HasCluster(c) }

  lemma SeenIsData(image: seq<u8>, v: Volume, faultless: bool, w: Walk)
    requires v.Sound() && IsRun(image, v, faultless, w)
    ensures Seen(w) <= DataClusters(v)
  {
    hide IsRun, Log, ClustersOf;
    RunClustersDistinct(image, v, faultless, w, |w.steps|);
  }

  lemma NothingLeft(image: seq<u8>, v: Volume, faultless: bool, w: Walk)
    requires v.Sound() && IsRun(image, v, faultless, w) && Unvisited(w) == []
    ensures Finished(w)
  {
    hide IsRun, Log, Names;
    VisitsAreNames(image, v, faultless, w);
  }

  ghost function SetOf(cs: seq<u32>): set<u32> { set c | c in cs }

  lemma SetOfOneMore(cs: seq<u32>, c: u32)
    ensures SetOf(cs + [c]) == SetOf(cs) + {c}
  {
  }

  lemma DirectoryPlaces(image: seq<u8>, v: Volume, d: Directory)
    requires IsListing(image, v, d)
    ensures PlacesDiffer(d.entries + d.residue) && PlacedIn(d.entries + d.residue, d.clusters)
  {
    ListingPlaces(image, v, d.clusters);
  }

  // What a visit that read a directory reports, and what there is to report on.
  lemma StepReport(s: Step)
    requires s.verdict.ReadAs?
    ensures IsReport(StepEvents(s)) && SubjectsOf(StepEvents(s)) == SubjectsIn(s.verdict.directory, WalkedListing)
  {
    hide SubjectsIn;
    GatherFew(StepEvents(s), SubjectsOfOne);
  }

  lemma OrphanReport(c: u32, found: DeletedDirectory)
    requires found.Read?
    ensures IsReport(OrphanEvents(c, found))
    ensures SubjectsOf(OrphanEvents(c, found)) == SubjectsIn(found.listing, OrphanedListing)
  {
    hide SubjectsIn;
    GatherFew(OrphanEvents(c, found), SubjectsOfOne);
  }

  lemma {:induction false} UnreadNamesAreSilent(listed: seq<OrphanName>, seen: set<u32>)
    ensures forall i :: 0 <= i < |UnreadNames(listed, seen)| ==> Silent(UnreadNames(listed, seen)[i])
  {
    if listed != [] { UnreadNamesAreSilent(listed[..|listed| - 1], seen); }
  }

  lemma OneCluster(d: Directory, c: u32)
    requires d.clusters == [c]
    ensures ClusterSet(d) == {c}
  {
  }

  lemma NothingFound(image: seq<u8>, v: Volume, seen: set<u32>, given: set<u32>)
    requires v.Sound() && v.LastCluster() <= U32_MAX
    ensures OrphansBelow(image, v, seen, given, FIRST_DATA_CLUSTER) == []
    ensures AllRead(image, v, []) && FoundEvents(image, v, []) == [] && FoundNames(image, v, []) == []
    ensures SetOf([]) == {}
  {
  }

  // How the search's list of orphans goes past one cluster.
  lemma OrphansBelowStep(image: seq<u8>, v: Volume, seen: set<u32>, given: set<u32>, found: seq<u32>, c: u32)
    requires v.Sound() && v.LastCluster() <= U32_MAX && v.HasCluster(c)
    requires found == OrphansBelow(image, v, seen, given, c)
    ensures var next := OrphansBelow(image, v, seen, given, c + 1);
      && (c in seen || c in given ==> next == found)
      && (c !in seen && c !in given ==>
            (IsOrphan(image, v, seen, given, c) <==> Orphanage(image, v, c).Some?)
            && next == if Orphanage(image, v, c).Some? then found + [c] else found)
    ensures c !in found
  {
    hide FatEntry, Begins, OrphanAt;
  }

  lemma StoppedEvents(image: seq<u8>, v: Volume, seen: set<u32>, given: set<u32>, found: seq<u32>, c: u32,
                      e: DirectoryError)
    requires v.Sound() && v.LastCluster() <= U32_MAX && v.HasCluster(c) && AllRead(image, v, found)
    requires found == OrphansBelow(image, v, seen, given, c)
    ensures SearchEvents(image, v, seen, given, Some((c, e)))
         == FoundEvents(image, v, found) + [OrphanSearchStopped(c, e)]
  {
    hide FoundEvents, OrphansBelow, OrphanAt;
  }

  lemma FinishedEvents(image: seq<u8>, v: Volume, seen: set<u32>, given: set<u32>, found: seq<u32>)
    requires v.Sound() && v.LastCluster() <= U32_MAX && AllRead(image, v, found)
    requires found == OrphansBelow(image, v, seen, given, v.LastCluster())
    ensures SearchEvents(image, v, seen, given, None)
         == FoundEvents(image, v, found) + UnreadNames(FoundNames(image, v, found), seen + SetOf(found))
  {
    hide FoundEvents, FoundNames, OrphansBelow, OrphanAt, UnreadNames;
  }

  lemma Joined<T>(a: seq<T>, b: seq<T>, c: seq<T>)
    ensures a + (b + c) == a + b + c
  {
  }

  lemma WithinGrows(places: set<(nat, nat)>, seen: set<u32>, more: set<u32>)
    requires AskedWithin(places, seen) && seen <= more
    ensures AskedWithin(places, more)
  {
  }

  lemma FreshGrows(seen: set<u32>, d: Directory)
    requires d.clusters != [] && forall i :: 0 <= i < |d.clusters| ==> d.clusters[i] !in seen
    ensures seen < seen + ClusterSet(d) && seen + ClusterSet(d) - ClusterSet(d) == seen
    ensures (set c | c in d.clusters) == ClusterSet(d)
  {
    assert d.clusters[0] in ClusterSet(d);
  }

  lemma DeclineNeverFaults(image: seq<u8>, v: Volume, faultless: bool, seen: set<u32>, next: Pending,
                           reason: NotReadReason)
    requires v.Sound() && Legal(image, v, faultless, seen, next, Unread(reason)) && faultless
    ensures reason.NotEnumerated? ==> !FromReading(reason.error)
  {
    VerdictNeverFaults(image, v, seen, next);
  }

  // The two halves of a listing are asked about apart.
  lemma HalvesDiffer(d: Directory, asked: set<(nat, nat)>, seen: set<u32>)
    requires PlacesDiffer(d.entries + d.residue) && PlacedIn(d.entries + d.residue, d.clusters)
    requires AskedWithin(asked, seen) && seen !! ClusterSet(d)
    ensures PlacesDiffer(d.entries) && PlacesDiffer(d.residue)
    ensures PlaceSet(d.entries) !! asked && PlaceSet(d.residue) !! asked
    ensures PlaceSet(d.residue) !! PlaceSet(d.entries)
    ensures forall p :: p in PlaceSet(d.entries) + PlaceSet(d.residue) ==> p.0 in ClusterSet(d)
  {
    var all := d.entries + d.residue;
    forall i, j | 0 <= i < |d.entries| && 0 <= j < |d.residue|
      ensures PlaceOf(d.entries[i]) != PlaceOf(d.residue[j])
    {
      assert !SamePlace(all[i], all[|d.entries| + j]);
    }
    forall i, j | 0 <= i < j < |d.entries| ensures !SamePlace(d.entries[i], d.entries[j]) {
      assert !SamePlace(all[i], all[j]);
    }
    forall i, j | 0 <= i < j < |d.residue| ensures !SamePlace(d.residue[i], d.residue[j]) {
      assert !SamePlace(all[|d.entries| + i], all[|d.entries| + j]);
    }
    forall i | 0 <= i < |d.entries| ensures d.entries[i].cluster in ClusterSet(d) {
      assert all[i].cluster in d.clusters;
    }
    forall j | 0 <= j < |d.residue| ensures d.residue[j].cluster in ClusterSet(d) {
      assert all[|d.entries| + j].cluster in d.clusters;
    }
  }
}
