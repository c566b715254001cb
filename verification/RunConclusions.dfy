/** What follows for a whole run from what `Analysis.Run` establishes. */
module RunConclusions {
  import opened ArtifactPath
  import opened DirectoryWalk
  import opened Events
  import opened Fat32
  import opened FatRecovery
  import opened Filesystems
  import opened Machine
  import OrphanSearch
  import opened Partition
  import opened RunReport
  import opened Session
  import opened Trace
  import opened VolumeReports

  /** Where every in-range read is served, no count that can only follow from
      a failed read is anything but zero. */
  lemma NoFaultsCounted(events: seq<Event>)
    requires NoFault(events)
    ensures var t := TallyOf(events);
      t.tableUnread == 0 == t.partitionUnread && t.notAssessed == 0 == t.notExtracted && t.orphanSearchStopped == 0
  {
    hide Count;
    CountZero(events, IsTableUnread);
    CountZero(events, IsPartitionUnread);
    CountZero(events, IsNotAssessed);
    CountZero(events, IsNotExtracted);
    CountZero(events, IsStopped);
  }

  // --- What the structural events decide ----------------------------------

  lemma {:induction false} SkeletonKeepsCounts(events: seq<Event>, p: Event -> bool)
    requires forall e: Event :: p(e) ==> !e.AboutContent()
    ensures Count(Skeleton(events), p) == Count(events, p)
  {
    if events != [] {
      var front, last := events[..|events| - 1], events[|events| - 1];
      SkeletonKeepsCounts(front, p);
      if last.AboutContent() {
        assert Skeleton(events) == Skeleton(front);
      } else {
        CountOneMore(Skeleton(front), last, p);
      }
    }
  }

  /** Directories unread are exactly the named ones the walk did not read and
      the ones orphaned listings name that no one read. */
  lemma DirectoriesUnreadAreEvents(events: seq<Event>)
    ensures TallyOf(events).directoriesUnread
         == Count(Skeleton(events), IsWalkedUnread) + Count(Skeleton(events), IsListedUnread)
  {
    hide Count, Skeleton;
    UnreadIsEither(Skeleton(events));
    SkeletonKeepsCounts(events, IsDirectoryUnread);
  }

  // --- The evidence decides the run ---------------------------------------

  // A volume's report holds its structure, whatever is said of its entries.
  lemma RootSkeleton(image: seq<u8>, v: Volume, partition: u8, faultless: bool, options: Options, r: RootReport)
    requires v.Sound() && RootOk(image, v, partition, faultless, options, r)
    ensures Skeleton(RootTrace(image, v, r)) == RootEvents(image, v, r)
  {
    hide RootReading, IsRun, Finished, Finding, SubjectsOf, OrphanSearch.SearchEvents, Reports, Seen, Given, Flat,
      Woven, Skeleton, AllStructure;
    RootIsStructure(image, v, r);
    if r.RootWalked? {
      ToldIsContent(image, v, partition, faultless, options, SubjectsOf(RootEvents(image, v, r)), r.told);
      WovenHolds(RootEvents(image, v, r), r.told);
    } else {
      OfOneKind(RootEvents(image, v, r));
    }
  }

  lemma RootIsStructure(image: seq<u8>, v: Volume, r: RootReport)
    requires v.Sound()
    ensures AllStructure(RootEvents(image, v, r))
  {
    hide Gather, OrphanSearch.SearchEvents, WalkEvents;
    if r.RootWalked? {
      WalkKinds(r.walk, |r.walk.steps|);
      SearchReads(image, v, Seen(r.walk), Given(r.walk), r.stop);
    }
  }

  /** Where no read fails, a volume has one structure to report and, where
      nothing is written out, one report. */
  lemma RootReportsAgree(image: seq<u8>, v: Volume, partition: u8, options: Options, a: RootReport, b: RootReport)
    requires v.Sound() && RootOk(image, v, partition, true, options, a) && RootOk(image, v, partition, true, options, b)
    ensures Skeleton(RootTrace(image, v, a)) == Skeleton(RootTrace(image, v, b))
    ensures options.output.None? ==> RootTrace(image, v, a) == RootTrace(image, v, b)
  {
    hide RootReading, IsRun, Finished, Told, SubjectsOf, OrphanSearch.SearchEvents, Reports, Seen, Given, Woven,
      Skeleton;
    RootSkeleton(image, v, partition, true, options, a);
    RootSkeleton(image, v, partition, true, options, b);
    if a.RootWalked? && b.RootWalked? {
      FinishedRunIsUnique(image, v, a.walk, b.walk);
      assert RootEvents(image, v, a) == RootEvents(image, v, b);
      if options.output.None? {
        ToldIsUnique(image, v, partition, options, SubjectsOf(RootEvents(image, v, a)), a.told, b.told);
      }
    }
  }

  lemma ToldIsUnique(image: seq<u8>, v: Volume, partition: u8, options: Options, subjects: seq<Subject>,
                     a: seq<seq<Event>>, b: seq<seq<Event>>)
    requires v.Sound() && options.output.None?
    requires Told(image, v, partition, true, options, subjects, a)
    requires Told(image, v, partition, true, options, subjects, b)
    ensures a == b
  {
    hide Finding;
    forall i | 0 <= i < |subjects| ensures a[i] == b[i] {
      var s := subjects[i];
      FindingIsUnique(image, v, partition, options, s, a[i], b[i]);
    }
  }

  lemma FindingIsUnique(image: seq<u8>, v: Volume, partition: u8, options: Options, s: Subject,
                        a: seq<Event>, b: seq<Event>)
    requires v.Sound() && options.output.None?
    requires Finding(image, v, partition, true, options, s.listing, s.part, s.entry, a)
    requires Finding(image, v, partition, true, options, s.listing, s.part, s.entry, b)
    ensures a == b
  {
    hide Assessed, Content, Volume.Sound;
  }

  lemma PartitionReportsAgree(image: seq<u8>, options: Options, p: MbrPartition, a: PartitionReport, b: PartitionReport)
    requires p.Extent().FitsIn(|image|)
    requires PartitionOk(image, true, options, p, a) && PartitionOk(image, true, options, p, b)
    ensures Skeleton(PartitionTrace(image, p, a)) == Skeleton(PartitionTrace(image, p, b))
    ensures options.output.None? ==> PartitionTrace(image, p, a) == PartitionTrace(image, p, b)
  {
    hide RootOk, RootTrace, VolumeOf, Identify, ParseBootSector, Skeleton;
    if a.root.Some? {
      var v := VolumeOf(image, p).value;
      RootReportsAgree(image, v, p.index, options, a.root.value, b.root.value);
      SkeletonAfter(image, p, a);
      SkeletonAfter(image, p, b);
    }
  }

  // The structure a partition's report begins with does not depend on what
  // its volume holds.
  lemma SkeletonAfter(image: seq<u8>, p: MbrPartition, r: PartitionReport)
    requires r.PartitionRead? && r.root.Some? && VolumeOf(image, p).Some?
    ensures var v := VolumeOf(image, p).value;
      var first := [PartitionIdentified(p, Identify(BootRecord(image, p)))];
      Skeleton(PartitionTrace(image, p, r))
      == Skeleton(first) + (Skeleton([BootSectorFound(v.boot)]) + Skeleton(RootTrace(image, v, r.root.value)))
  {
    hide RootTrace, Skeleton, Identify, ParseBootSector;
    var v := VolumeOf(image, p).value;
    var first, rest := [PartitionIdentified(p, Identify(BootRecord(image, p)))], BootTrace(image, p, r.root);
    TraceJoined(first, rest);
    TraceJoined([BootSectorFound(v.boot)], RootTrace(image, v, r.root.value));
  }

  lemma {:induction false} PartitionsAgree(image: seq<u8>, options: Options, ps: seq<MbrPartition>,
                                           a: seq<PartitionReport>, b: seq<PartitionReport>)
    requires |a| == |b| <= |ps|
    requires forall i :: 0 <= i < |a| ==>
      && ps[i].Extent().FitsIn(|image|)
      && PartitionOk(image, true, options, ps[i], a[i]) && PartitionOk(image, true, options, ps[i], b[i])
    ensures Skeleton(EachTrace(image, ps, a)) == Skeleton(EachTrace(image, ps, b))
    ensures options.output.None? ==> EachTrace(image, ps, a) == EachTrace(image, ps, b)
  {
    hide PartitionOk, PartitionTrace, Skeleton;
    if a != [] {
      var n := |a| - 1;
      PartitionsAgree(image, options, ps, a[..n], b[..n]);
      PartitionReportsAgree(image, options, ps[n], a[n], b[n]);
      TraceJoined(EachTrace(image, ps, a[..n]), PartitionTrace(image, ps[n], a[n]));
      TraceJoined(EachTrace(image, ps, b[..n]), PartitionTrace(image, ps[n], b[n]));
    }
  }

  /** Where every in-range read is served, the image alone decides a run: any
      two runs over it report the same structure and, where nothing is written
      out, the same events throughout. */
  lemma RunIsDecided(image: seq<u8>, length: u64, options: Options, a: RunReport, b: RunReport)
    requires 512 <= length <= |image|
    requires RunOk(image, length, true, options, a) && RunOk(image, length, true, options, b)
    ensures Skeleton(RunTrace(image, length, a)) == Skeleton(RunTrace(image, length, b))
    ensures options.output.None? ==> RunTrace(image, length, a) == RunTrace(image, length, b)
  {
    hide TableOf, PartitionOk, EachTrace, Held, Skeleton, ListedEvents;
    var ps := Partitions(image, length);
    ListedPartitions(image, length);
    forall i | 0 <= i < |ps| ensures ps[i].Extent().FitsIn(|image|) { HeldFits(ps[i], length); }
    PartitionsAgree(image, options, ps, a.partitions, b.partitions);
    var t := TableIn(image, length);
    if t.Success? && t.value.table.Mbr? {
      var head := [DiskSignature(t.value.table.diskSignature)] + (ListedEvents(ps) + [PartitionsListed]);
      SkeletonAround(head, EachTrace(image, ps, a.partitions), AnomalyEvents(t.value.anomalies));
      SkeletonAround(head, EachTrace(image, ps, b.partitions), AnomalyEvents(t.value.anomalies));
    }
  }

  lemma SkeletonAround(a: seq<Event>, b: seq<Event>, c: seq<Event>)
    ensures Skeleton(a + b + c) == Skeleton(a) + Skeleton(b) + Skeleton(c)
  {
    TraceJoined(a + b, c);
    TraceJoined(a, b);
  }

  lemma CountsAddUp(options: Options, events: seq<Event>)
    requires Accounted(options, events)
    ensures var t := TallyOf(events);
      && t.Gaps() == Total(events, GapsOf)
      && (t.Coverage() == Complete <==> NoGaps(events))
      && (t.Coverage() == NothingAnalysed <==> !NoGaps(events) && !RootWasRead(events))
      && (t.Coverage() == Incomplete <==> !NoGaps(events) && RootWasRead(events))
      && t.Artifacts(options) == Count(events, IsExtracted)
      && t.Differed(options) == Count(events, IsDiffering)
      && t.matched <= t.Artifacts(options) && (options.recover ==> t.notExtracted <= t.freeRuns)
  {
    hide TallyOf, Count, Total, NoGaps, RootWasRead, Accounted, Tally.Gaps;
    GapsAreReported(events);
    CoverageMeaning(events);
    DerivedCountsAreEvents(options, events);
  }

  lemma PathsAddUp(options: Options, initial: map<string, seq<u8>>, earlier: seq<string>, asked: seq<Artifact>,
                   files: map<string, seq<u8>>, attempts: seq<string>)
    requires StoreKept(options.output, initial, earlier, asked, files, attempts)
    ensures |earlier| <= |attempts| && attempts[..|earlier|] == earlier
    ensures forall i, j :: |earlier| <= i < j < |attempts| ==> attempts[i] != attempts[j]
    ensures forall p :: p in files && p !in initial ==> p in attempts[|earlier|..]
  {
    hide Path, Paths;
    if options.output.Some? {
      var directory := options.output.value;
      assert attempts[|earlier|..] == Paths(directory, asked);
      DistinctAfter(directory, asked, earlier);
      forall p | p in files && p !in initial ensures p in attempts[|earlier|..] {
        var i :| 0 <= i < |asked| && p == Path(directory, asked[i]);
        PathIsAmong(directory, asked, i);
      }
    }
  }

  lemma DistinctAfter(directory: string, asked: seq<Artifact>, earlier: seq<string>)
    requires forall i, j :: 0 <= i < j < |asked| ==> !SameSlot(asked[i], asked[j])
    ensures var attempts := earlier + Paths(directory, asked);
      forall i, j :: |earlier| <= i < j < |attempts| ==> attempts[i] != attempts[j]
  {
    hide Path;
    var paths := Paths(directory, asked);
    forall i, j | |earlier| <= i < j < |earlier + paths| ensures (earlier + paths)[i] != (earlier + paths)[j] {
      PathsAreDistinct(directory, asked, i - |earlier|, j - |earlier|);
    }
  }

  lemma PathIsAmong(directory: string, asked: seq<Artifact>, i: nat)
    requires i < |asked|
    ensures Path(directory, asked[i]) in Paths(directory, asked)
  {
    hide Path;
    assert Paths(directory, asked)[i] == Path(directory, asked[i]);
  }

  /** What every run's counts and destination come to, given what holds of its
      events: the gaps counted are the gaps reported, the verdict is the one they
      and the roots read amount to, what the derived counts subtract never
      exceeds what it is subtracted from, so none saturates, no path was asked
      for twice, and none was found taken unless it was before. */
  lemma RunAddsUp(options: Options, initial: map<string, seq<u8>>, earlier: seq<string>, dependable: bool,
                  asked: seq<Artifact>, files: map<string, seq<u8>>, attempts: seq<string>, lossless: bool,
                  events: seq<Event>)
    requires TraceOk(options, initial, dependable, files, lossless, events)
    requires StoreKept(options.output, initial, earlier, asked, files, attempts)
    ensures var t := TallyOf(events);
      && t.Gaps() == Total(events, GapsOf)
      && (t.Coverage() == Complete <==> NoGaps(events))
      && (t.Coverage() == NothingAnalysed <==> !NoGaps(events) && !RootWasRead(events))
      && (t.Coverage() == Incomplete <==> !NoGaps(events) && RootWasRead(events))
      && t.Artifacts(options) == Count(events, IsExtracted)
      && t.Differed(options) == Count(events, IsDiffering)
      && t.matched <= t.Artifacts(options) && (options.recover ==> t.notExtracted <= t.freeRuns)
      && (dependable ==> t.tableUnread == 0 == t.partitionUnread && t.notAssessed == 0 == t.notExtracted
                         && t.orphanSearchStopped == 0)
    ensures |earlier| <= |attempts| && attempts[..|earlier|] == earlier
    ensures forall i, j :: |earlier| <= i < j < |attempts| ==> attempts[i] != attempts[j]
    ensures forall i :: 0 <= i < |events| ==> TakenPathIn(initial, events[i])
    ensures forall p :: p in initial ==> p in files && files[p] == initial[p]
    ensures forall p :: p in files && p !in initial ==> p in attempts[|earlier|..]
  {
    hide TallyOf, Path, Count, Total, NoGaps, RootWasRead, Accounted, WrittenHold, Tally.Gaps;
    CountsAddUp(options, events);
    if dependable { NoFaultsCounted(events); }
    PathsAddUp(options, initial, earlier, asked, files, attempts);
  }
}
