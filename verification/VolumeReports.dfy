/** What holds of everything reported about one volume. */
module VolumeReports {
  import opened ChainErrors
  import opened DirectoryWalk
  import opened Events
  import opened Fat32
  import opened FatDeleted
  import opened FatEnumerate
  import opened FatLayout
  import opened Machine
  import opened OrphanSearch
  import opened RunReport
  import opened Trace
  import opened Wrappers

  // --- Counting over a list of events -------------------------------------

  lemma {:induction false} CountJoined(a: seq<Event>, b: seq<Event>, p: Event -> bool)
    ensures Count(a + b, p) == Count(a, p) + Count(b, p)
  {
    if b == [] {
      assert a + b == a;
    } else {
      CountJoined(a, b[..|b| - 1], p);
      assert (a + b)[..|a + b| - 1] == a + b[..|b| - 1];
    }
  }

  lemma {:induction false} CountZero(events: seq<Event>, p: Event -> bool)
    requires forall i :: 0 <= i < |events| ==> !p(events[i])
    ensures Count(events, p) == 0
  {
    if events != [] { CountZero(events[..|events| - 1], p); }
  }

  // The clusters of a directory that was read, and of an orphaned one.
  function ClustersRead(e: Event): seq<u32> { if e.DirectoryRead? then e.directory.clusters else [] }

  function OrphanRead(e: Event): seq<u32> {
    if e.DirectoryRead? && e.reached.Orphaned? then [e.reached.cluster] else []
  }

  // --- What the two halves of a volume's report hold ----------------------

  predicate FromWalk(e: Event) {
    (e.DirectoryRead? && !e.reached.Orphaned?) || e.DirectoryNotRead? || e.ListingMayContinue?
  }

  predicate FromSearch(e: Event) {
    (e.DirectoryRead? && e.reached.Orphaned?) || e.ListingMayContinue? || e.OrphanSearchStopped?
    || e.OrphanedListingUnread?
  }

  lemma {:induction false} WalkKinds(w: Walk, n: nat)
    requires n <= |w.steps|
    ensures forall i :: 0 <= i < |WalkEvents(w, n)| ==> FromWalk(WalkEvents(w, n)[i])
  {
    if n > 0 { WalkKinds(w, n - 1); }
  }

  lemma {:induction false} WalkClusters(w: Walk, n: nat)
    requires n <= |w.steps|
    ensures Gather(WalkEvents(w, n), ClustersRead) == ClustersOf(Log(w, n))
  {
    hide Gather, Log, ClustersOf, StepEvents;
    if n == 0 {
      LogStart(w);
      GatherFew(WalkEvents(w, 0), ClustersRead);
    } else {
      WalkClusters(w, n - 1);
      LogStep(w, n);
      GatherJoined(WalkEvents(w, n - 1), StepEvents(w.steps[n - 1]), ClustersRead);
      StepClusters(w.steps[n - 1]);
    }
  }

  lemma StepClusters(s: Step)
    ensures Gather(StepEvents(s), ClustersRead) == if s.verdict.ReadAs? then s.verdict.directory.clusters else []
  {
    hide Gather;
    GatherFew(StepEvents(s), ClustersRead);
  }

  // Each orphan found is one directory, of that one cluster.
  lemma {:induction false} FoundClusters(image: seq<u8>, v: Volume, cs: seq<u32>)
    requires v.Sound() && AllRead(image, v, cs)
    requires forall i :: 0 <= i < |cs| ==> OrphanAt(image, v, cs[i]).listing.clusters == [cs[i]]
    ensures var events := FoundEvents(image, v, cs);
      && Gather(events, ClustersRead) == cs && Gather(events, OrphanRead) == cs
      && forall i :: 0 <= i < |events| ==> FromSearch(events[i])
  {
    hide Gather, OrphanAt;
    if cs == [] {
      GatherNone<u32>([], ClustersRead);
      GatherNone<u32>([], OrphanRead);
    } else {
      var front, c := cs[..|cs| - 1], cs[|cs| - 1];
      FoundClusters(image, v, front);
      var es := OrphanEvents(c, OrphanAt(image, v, c));
      GatherJoined(FoundEvents(image, v, front), es, ClustersRead);
      GatherJoined(FoundEvents(image, v, front), es, OrphanRead);
      GatherFew(es, ClustersRead);
      GatherFew(es, OrphanRead);
    }
  }

  lemma {:induction false} UnreadKinds(listed: seq<OrphanName>, seen: set<u32>)
    ensures forall i :: 0 <= i < |UnreadNames(listed, seen)| ==> UnreadNames(listed, seen)[i].OrphanedListingUnread?
  {
    if listed != [] { UnreadKinds(listed[..|listed| - 1], seen); }
  }

  lemma SearchReads(image: seq<u8>, v: Volume, seen: set<u32>, given: set<u32>, stop: Option<(u32, DirectoryError)>)
    requires v.Sound()
    ensures var events, cs := SearchEvents(image, v, seen, given, stop), OrphansFound(image, v, seen, given, stop);
      && Gather(events, ClustersRead) == cs && Gather(events, OrphanRead) == cs
      && forall i :: 0 <= i < |events| ==> FromSearch(events[i])
  {
    hide Gather, FoundEvents, FoundNames, UnreadNames, OrphanAt, OrphansBelow, IsOrphan;
    ClustersFitU32(v);
    var cs := OrphansFound(image, v, seen, given, stop);
    FoundAreOrphans(image, v, seen, given, SearchEnd(v, stop));
    assert cs == OrphansBelow(image, v, seen, given, SearchEnd(v, stop));
    FoundClusters(image, v, cs);
    var last := match stop
      case Some((c, e)) => [OrphanSearchStopped(c, e)]
      case None => UnreadNames(FoundNames(image, v, cs), seen + set c | c in cs);
    if stop.None? { UnreadKinds(FoundNames(image, v, cs), seen + set c | c in cs); }
    GatherNone(last, ClustersRead);
    GatherNone(last, OrphanRead);
    GatherJoined(FoundEvents(image, v, cs), last, ClustersRead);
    GatherJoined(FoundEvents(image, v, cs), last, OrphanRead);
  }

  lemma FoundAreOrphans(image: seq<u8>, v: Volume, seen: set<u32>, given: set<u32>, end: u64)
    requires v.Sound() && end <= v.LastCluster() && v.LastCluster() <= U32_MAX
    ensures var cs := OrphansBelow(image, v, seen, given, end);
      forall i :: 0 <= i < |cs| ==>
        && v.HasCluster(cs[i]) && cs[i] !in seen && OrphanAt(image, v, cs[i]).Read?
        && OrphanAt(image, v, cs[i]).listing.clusters == [cs[i]]
  {
    hide OrphanAt, OrphansBelow, FatEntry, Begins;
    var cs := OrphansBelow(image, v, seen, given, end);
    forall i | 0 <= i < |cs|
      ensures v.HasCluster(cs[i]) && cs[i] !in seen && OrphanAt(image, v, cs[i]).Read?
        && OrphanAt(image, v, cs[i]).listing.clusters == [cs[i]]
    {
      OrphanIsRead(image, v, seen, given, cs[i]);
    }
  }

  // --- The theorems -------------------------------------------------------

  ghost predicate Analysed(image: seq<u8>, v: Volume, faultless: bool, r: RootReport)
    requires v.Sound()
  {
    r.RootWalked? && IsRun(image, v, faultless, r.walk) && Finished(r.walk)
  }

  /** Over a whole volume, whatever cross-links or loops it holds, no cluster
      belongs to two reported directories, or to one twice: root, walked and
      orphaned together. */
  lemma VolumeClustersDistinct(image: seq<u8>, v: Volume, faultless: bool, r: RootReport)
    requires v.Sound() && Analysed(image, v, faultless, r)
    ensures var cs := Gather(RootEvents(image, v, r), ClustersRead); Distinct(cs) && AllData(v, cs)
  {
    hide Gather, IsRun, Finished, IsListing, Log, ClustersOf, SearchEvents, WalkEvents, OrphansBelow, OrphanAt,
      IsOrphan;
    var w, n, seen, given := r.walk, |r.walk.steps|, Seen(r.walk), Given(r.walk);
    ClustersFitU32(v);
    RunClustersDistinct(image, v, faultless, w, n);
    WalkClusters(w, n);
    SearchReads(image, v, seen, given, r.stop);
    GatherJoined(Reports(w), SearchEvents(image, v, seen, given, r.stop), ClustersRead);
    var found := OrphansFound(image, v, seen, given, r.stop);
    FoundAreOrphans(image, v, seen, given, SearchEnd(v, r.stop));
    OrphansAreExact(image, v, seen, given, SearchEnd(v, r.stop));
    JoinDistinct(v, ClustersOf(Log(w, n)), found);
  }

  /** The orphaned directories reported are exactly the orphans: a cluster is
      reported as one when it is a free data cluster in no walked directory and
      named by no walked entry that begins with `.` naming itself and `..`; and
      only then; each once, in order. A search that was stopped says so, and
      the same holds of the clusters before that. */
  lemma OrphansReportedAreExact(image: seq<u8>, v: Volume, faultless: bool, r: RootReport, c: u32)
    requires v.Sound() && Analysed(image, v, faultless, r)
    ensures var cs := Gather(RootEvents(image, v, r), OrphanRead);
      && (c in cs <==> IsOrphan(image, v, Seen(r.walk), Given(r.walk), c) && (r.stop.Some? ==> c < r.stop.value.0))
      && (forall i, j :: 0 <= i < j < |cs| ==> cs[i] < cs[j])
  {
    hide Gather, IsRun, Finished, IsListing, Log, ClustersOf, SearchEvents, WalkEvents, OrphansBelow, OrphanAt,
      Begins, FatEntry;
    var w, seen, given := r.walk, Seen(r.walk), Given(r.walk);
    ClustersFitU32(v);
    WalkKinds(w, |w.steps|);
    GatherNone(Reports(w), OrphanRead);
    SearchReads(image, v, seen, given, r.stop);
    GatherJoined(Reports(w), SearchEvents(image, v, seen, given, r.stop), OrphanRead);
    OrphansAreExact(image, v, seen, given, SearchEnd(v, r.stop));
  }

  predicate IsListedUnread(e: Event) { e.OrphanedListingUnread? }

  /** Conservation of names over a whole volume's report: the directories the
      root and walked listings name are answered one for one, in the order they
      were named, as read or as not read; and nothing else is counted as unread
      but what orphaned listings name. */
  lemma VolumeNamesAreConserved(image: seq<u8>, v: Volume, faultless: bool, r: RootReport)
    requires v.Sound() && Analysed(image, v, faultless, r)
    ensures var events := RootEvents(image, v, r);
      && EachAnswered(Gather(events, WalkReport), Names(Log(r.walk, |r.walk.steps|)))
      && |Names(Log(r.walk, |r.walk.steps|))| == Count(events, IsWalkedRead) + Count(events, IsWalkedUnread)
      && Count(events, IsDirectoryUnread) == Count(events, IsWalkedUnread) + Count(events, IsListedUnread)
  {
    hide Count, IsRun, Finished, IsListing, Log, Names, SearchEvents, WalkEvents, Gather;
    var w, search := r.walk, SearchEvents(image, v, Seen(r.walk), Given(r.walk), r.stop);
    NamesAreConserved(image, v, faultless, w);
    SearchReads(image, v, Seen(w), Given(w), r.stop);
    CountJoined(Reports(w), search, IsWalkedRead);
    CountJoined(Reports(w), search, IsWalkedUnread);
    CountZero(search, IsWalkedRead);
    CountZero(search, IsWalkedUnread);
    GatherJoined(Reports(w), search, WalkReport);
    GatherNone(search, WalkReport);
    UnreadIsEither(RootEvents(image, v, r));
  }

  lemma {:induction false} UnreadIsEither(events: seq<Event>)
    ensures Count(events, IsDirectoryUnread) == Count(events, IsWalkedUnread) + Count(events, IsListedUnread)
  {
    if events != [] { UnreadIsEither(events[..|events| - 1]); }
  }

  /** Every directory the orphans' listings name and no reported directory
      begins at is reported as unread, once for each time it is named; and
      nothing else is. */
  lemma {:induction false} UnreadNamesAreExact(listed: seq<OrphanName>, seen: set<u32>)
    ensures |UnreadNames(listed, seen)| == CountUnread(listed, seen)
    ensures forall n: OrphanName ::
      OrphanedListingUnread(n.holder, n.name, n.firstCluster) in UnreadNames(listed, seen)
      <==> n in listed && n.firstCluster !in seen
  {
    if listed != [] { UnreadNamesAreExact(listed[..|listed| - 1], seen); }
  }

  ghost function CountUnread(listed: seq<OrphanName>, seen: set<u32>): nat {
    if listed == [] then 0
    else CountUnread(listed[..|listed| - 1], seen) + if listed[|listed| - 1].firstCluster in seen then 0 else 1
  }

  /** A volume's root is the listing of the one chain from its root cluster;
      and where there is none, it is unread for what the links lead to. */
  lemma RootIsItsChain(image: seq<u8>, v: Volume, cs: seq<u32>, e: DirectoryError)
    requires v.Sound()
    ensures IsChain(image, v, cs) && cs[0] == v.boot.rootCluster ==>
      RootReading(image, v) == Success(ListingOf(image, v, cs))
    ensures RootReading(image, v).Success? <==> exists ds :: IsChain(image, v, ds) && ds[0] == v.boot.rootCluster
    ensures RootReading(image, v) == Failure(e) <==> Broken(image, v, v.boot.rootCluster, e)
  {
    hide IsChain, Chained, ListingOf, Broken;
    ChainedIffChain(image, v, v.boot.rootCluster);
    ChainFailsIff(image, v, v.boot.rootCluster, e);
  }
}
