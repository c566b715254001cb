/** The directory walk as a state machine over its visits, and what holds of
    every run of it. */
module DirectoryWalk {
  import opened ArtifactPath
  import opened Events
  import opened Fat32
  import opened FatDeleted
  import opened FatDirectory
  import opened FatEnumerate
  import opened FatLayout
  import opened Machine
  import opened Trace
  import opened Wrappers

  const MAX_DEPTH: nat := 128

  /** A place in the queue: the directory an entry names. */
  datatype Pending = Pending(firstCluster: u32, path: string, depth: nat, deleted: bool)

  // --- What a listing queues ----------------------------------------------

  // How a deleted directory appears in a path: with its first byte where a
  // component gives that back, and with '?' in its place where none does.
  function DeletedSegment(slots: seq<Entry>, index: nat, surviving: SurvivingName): Option<string> {
    match Association(slots, index)
    case Some(Recovered(byte)) => RecoveredName(byte, surviving)
    case _ => RecoveredName(0x3F, surviving)
  }

  function OrByCluster(segment: Option<string>, firstCluster: u32): string {
    if segment.Some? then segment.value else "c" + Decimal(firstCluster)
  }

  // The directory the entry at `index` names, if it names one to be followed.
  function NamedAt(slots: seq<Entry>, index: nat): Option<(u32, string, bool)>
    requires index < |slots|
  {
    var kind := slots[index].kind;
    if IsDotEntry(kind) then None
    else
      match kind
      case ShortName(name, _, true, first, _, _) => Some((first, OrByCluster(name, first), false))
      case Deleted(DeletedShortName(surviving, true, first, _, _)) =>
        Some((first, OrByCluster(DeletedSegment(slots, index, surviving), first), true))
      case _ => None
  }

  // What the first `n` entries queue, for a directory at `parent` and `depth`.
  function QueuedFrom(slots: seq<Entry>, n: nat, parent: string, depth: nat): seq<Pending>
    requires n <= |slots|
  {
    if n == 0 then []
    else
      QueuedFrom(slots, n - 1, parent, depth) +
      match NamedAt(slots, n - 1)
      case None => []
      case Some((first, segment, deleted)) => [Pending(first, parent + "/" + segment, depth + 1, deleted)]
  }

  function QueueOf(d: Directory, parent: string, depth: nat): seq<Pending> {
    QueuedFrom(d.entries, |d.entries|, parent, depth) + QueuedFrom(d.residue, |d.residue|, parent, depth)
  }

  lemma {:induction false} QueuedAreBelow(slots: seq<Entry>, n: nat, parent: string, depth: nat)
    requires n <= |slots|
    ensures forall i :: 0 <= i < |QueuedFrom(slots, n, parent, depth)| ==>
      QueuedFrom(slots, n, parent, depth)[i].depth == depth + 1
  {
    hide NamedAt;
    if n > 0 { QueuedAreBelow(slots, n - 1, parent, depth); }
  }

  lemma QueueIsBelow(d: Directory, parent: string, depth: nat)
    ensures forall i :: 0 <= i < |QueueOf(d, parent, depth)| ==> QueueOf(d, parent, depth)[i].depth == depth + 1
  {
    QueuedAreBelow(d.entries, |d.entries|, parent, depth);
    QueuedAreBelow(d.residue, |d.residue|, parent, depth);
  }

  // Whether `q` is the directory a listing's entry names, followed from it.
  ghost predicate NamedBy(q: Pending, d: Directory, parent: string, depth: nat) {
    exists slots: seq<Entry>, i: nat ::
      (slots == d.entries || slots == d.residue) && i < |slots| && NamesAt(q, slots, i, parent, depth)
  }

  ghost predicate NamesAt(q: Pending, slots: seq<Entry>, i: nat, parent: string, depth: nat)
    requires i < |slots|
  {
    match NamedAt(slots, i)
    case None => false
    case Some((first, segment, deleted)) => q == Pending(first, parent + "/" + segment, depth + 1, deleted)
  }

  lemma {:induction false} QueuedAreNamed(slots: seq<Entry>, n: nat, parent: string, depth: nat, k: nat)
    requires n <= |slots| && k < |QueuedFrom(slots, n, parent, depth)|
    ensures exists i: nat :: i < n && NamesAt(QueuedFrom(slots, n, parent, depth)[k], slots, i, parent, depth)
  {
    var q := QueuedFrom(slots, n, parent, depth)[k];
    if n > 0 && k < |QueuedFrom(slots, n - 1, parent, depth)| {
      QueuedAreNamed(slots, n - 1, parent, depth, k);
      var i: nat :| i < n - 1 && NamesAt(QueuedFrom(slots, n - 1, parent, depth)[k], slots, i, parent, depth);
      assert i < n && NamesAt(q, slots, i, parent, depth);
    } else {
      assert NamesAt(q, slots, n - 1, parent, depth);
    }
  }

  lemma QueueIsNamed(d: Directory, parent: string, depth: nat, k: nat)
    requires k < |QueueOf(d, parent, depth)|
    ensures NamedBy(QueueOf(d, parent, depth)[k], d, parent, depth)
  {
    hide NamesAt, NamedAt;
    var fromEntries := QueuedFrom(d.entries, |d.entries|, parent, depth);
    if k < |fromEntries| {
      QueuedAreNamed(d.entries, |d.entries|, parent, depth, k);
    } else {
      QueuedAreNamed(d.residue, |d.residue|, parent, depth, k - |fromEntries|);
    }
  }

  // --- One visit ----------------------------------------------------------

  datatype Verdict = Unread(reason: NotReadReason) | ReadAs(directory: Directory, mayContinue: bool)

  function FirstShared(clusters: seq<u32>, seen: set<u32>): Option<u32> {
    if clusters == [] then None
    else if clusters[0] in seen then Some(clusters[0])
    else FirstShared(clusters[1..], seen)
  }

  lemma {:induction false} FirstSharedMeaning(clusters: seq<u32>, seen: set<u32>)
    ensures FirstShared(clusters, seen).None? <==> forall i :: 0 <= i < |clusters| ==> clusters[i] !in seen
    ensures FirstShared(clusters, seen).Some? ==>
      exists i :: 0 <= i < |clusters| && FirstSharedIs(clusters, seen, i, FirstShared(clusters, seen).value)
  {
    if clusters != [] {
      var rest := clusters[1..];
      FirstSharedMeaning(rest, seen);
      assert forall i :: 0 < i < |clusters| ==> clusters[i] == rest[i - 1];
      if clusters[0] in seen {
        assert FirstSharedIs(clusters, seen, 0, clusters[0]);
      } else if FirstShared(rest, seen).Some? {
        var i :| 0 <= i < |rest| && FirstSharedIs(rest, seen, i, FirstShared(rest, seen).value);
        assert FirstSharedIs(clusters, seen, i + 1, FirstShared(clusters, seen).value);
      }
    }
  }

  // The cluster `c`, at `i`, is the first of these that has been seen.
  ghost predicate FirstSharedIs(clusters: seq<u32>, seen: set<u32>, i: nat, c: u32)
    requires i < |clusters|
  {
    clusters[i] == c && c in seen && forall j :: 0 <= j < i ==> clusters[j] !in seen
  }

  // What reading a queued directory gives, before cross-links are considered.
  ghost function ReadingOf(image: seq<u8>, v: Volume, next: Pending): Verdict
    requires v.Sound()
  {
    if next.deleted then
      match DeletedReading(image, v, next.firstCluster)
      case Failure(e) => Unread(NotEnumerated(e))
      case Success(Refused(reason)) => Unread(RefusedAs(reason))
      case Success(Read(listing, mayContinue)) => ReadAs(listing, mayContinue)
    else
      match Enumerated(image, v, next.firstCluster, Follow)
      case Failure(e) => Unread(NotEnumerated(e))
      case Success(e) => ReadAs(e.directory, false)
  }

  ghost function VerdictOf(image: seq<u8>, v: Volume, seen: set<u32>, next: Pending): Verdict
    requires v.Sound()
  {
    if next.depth > MAX_DEPTH then Unread(TooDeep)
    else if next.firstCluster in seen then Unread(AlreadyRead(next.firstCluster))
    else CrossChecked(ReadingOf(image, v, next), seen)
  }

  // A directory sharing a cluster with one already read is not reported.
  function CrossChecked(reading: Verdict, seen: set<u32>): Verdict {
    match reading
    case Unread(_) => reading
    case ReadAs(d, _) =>
      match FirstShared(d.clusters, seen)
      case Some(c) => Unread(AlreadyRead(c))
      case None => reading
  }

  // A visit's verdict is the fault-free one, unless a read failed.
  ghost predicate Legal(image: seq<u8>, v: Volume, faultless: bool, seen: set<u32>, next: Pending, verdict: Verdict)
    requires v.Sound()
  {
    verdict == VerdictOf(image, v, seen, next)
    || (!faultless && next.depth <= MAX_DEPTH && next.firstCluster !in seen
        && verdict.Unread? && verdict.reason.NotEnumerated? && verdict.reason.error.Unreadable?)
  }

  // Directories that are read are listings of their own distinct clusters.
  ghost predicate IsListing(image: seq<u8>, v: Volume, d: Directory) {
    d.clusters != [] && AllData(v, d.clusters) && Distinct(d.clusters)
    && d == ListingOf(image, v, d.clusters).directory
  }

  lemma ReadingIsListing(image: seq<u8>, v: Volume, next: Pending)
    requires v.Sound() && ReadingOf(image, v, next).ReadAs?
    ensures IsListing(image, v, ReadingOf(image, v, next).directory)
    ensures next.firstCluster in ReadingOf(image, v, next).directory.clusters
    ensures ReadingOf(image, v, next).directory.clusters != []
  {
    hide FatEntry, CheckDots;
    if next.deleted {
      CheckedIsListing(ListingOf(image, v, [next.firstCluster]), next.firstCluster);
    } else {
      ChainedIffChain(image, v, next.firstCluster);
    }
  }

  lemma CheckedIsListing(e: Enumeration, c: u32)
    ensures CheckDots(e, c).Read? ==> CheckDots(e, c).listing == e.directory
  {
  }

  lemma LegalReadIsFresh(image: seq<u8>, v: Volume, faultless: bool, seen: set<u32>, next: Pending, verdict: Verdict)
    requires v.Sound() && Legal(image, v, faultless, seen, next, verdict) && verdict.ReadAs?
    ensures IsListing(image, v, verdict.directory) && verdict.directory.clusters != []
    ensures forall i :: 0 <= i < |verdict.directory.clusters| ==> verdict.directory.clusters[i] !in seen
    ensures next.depth <= MAX_DEPTH && verdict == ReadingOf(image, v, next)
  {
    hide ReadingOf, IsListing;
    ReadingIsListing(image, v, next);
    FirstSharedMeaning(verdict.directory.clusters, seen);
  }

  // The fault-free verdict never blames a read.
  lemma VerdictNeverFaults(image: seq<u8>, v: Volume, seen: set<u32>, next: Pending)
    requires v.Sound()
    ensures var verdict := VerdictOf(image, v, seen, next);
      verdict.Unread? && verdict.reason.NotEnumerated? ==> !FromReading(verdict.reason.error)
  {
    hide FatEntry, CheckDots, ListingOf;
    ChainErrorsAreFindings(image, v, [], next.firstCluster);
  }

  // --- A run of visits ----------------------------------------------------

  datatype Step = Step(next: Pending, verdict: Verdict)

  datatype Reported = Reported(path: string, depth: nat, directory: Directory)

  datatype Walk = Walk(root: Directory, steps: seq<Step>)

  // The directories reported by the root and the first `n` visits.
  ghost function Log(w: Walk, n: nat): seq<Reported>
    requires n <= |w.steps|
  {
    if n == 0 then [Reported("", 0, w.root)]
    else
      var s := w.steps[n - 1];
      Log(w, n - 1) + if s.verdict.ReadAs? then [Reported(s.next.path, s.next.depth, s.verdict.directory)] else []
  }

  // Everything those directories name, in the order they were reported.
  ghost function Names(log: seq<Reported>): seq<Pending> {
    if log == [] then []
    else
      var last := log[|log| - 1];
      Names(log[..|log| - 1]) + QueueOf(last.directory, last.path, last.depth)
  }

  ghost function ClustersOf(log: seq<Reported>): seq<u32> {
    if log == [] then [] else ClustersOf(log[..|log| - 1]) + log[|log| - 1].directory.clusters
  }

  ghost function SeenBy(log: seq<Reported>): set<u32> { set c | c in ClustersOf(log) }

  // The k-th visit is to the k-th directory named, which had been named when
  // it was visited, and its verdict is legal.
  ghost predicate StepOk(image: seq<u8>, v: Volume, faultless: bool, w: Walk, k: nat)
    requires v.Sound() && k < |w.steps|
  {
    var names := Names(Log(w, k));
    k < |names| && names[k] == w.steps[k].next
    && Legal(image, v, faultless, SeenBy(Log(w, k)), w.steps[k].next, w.steps[k].verdict)
  }

  ghost predicate IsRun(image: seq<u8>, v: Volume, faultless: bool, w: Walk)
    requires v.Sound()
  {
    IsListing(image, v, w.root) && forall k :: 0 <= k < |w.steps| ==> StepOk(image, v, faultless, w, k)
  }

  // Nothing named is left to visit.
  ghost predicate Finished(w: Walk) { |w.steps| == |Names(Log(w, |w.steps|))| }

  // --- One step of a log --------------------------------------------------

  lemma LogStart(w: Walk)
    ensures Log(w, 0) == [Reported("", 0, w.root)]
    ensures Names(Log(w, 0)) == QueueOf(w.root, "", 0) && ClustersOf(Log(w, 0)) == w.root.clusters
  {
    hide QueueOf;
    assert Log(w, 0)[..0] == [];
  }

  ghost function ReportOf(s: Step): Reported
    requires s.verdict.ReadAs?
  {
    Reported(s.next.path, s.next.depth, s.verdict.directory)
  }

  lemma LogStep(w: Walk, n: nat)
    requires 0 < n <= |w.steps|
    ensures var s, before := w.steps[n - 1], Log(w, n - 1);
      if s.verdict.ReadAs? then
        var d := s.verdict.directory;
        && Log(w, n) == before + [ReportOf(s)]
        && Names(Log(w, n)) == Names(before) + QueueOf(d, s.next.path, s.next.depth)
        && ClustersOf(Log(w, n)) == ClustersOf(before) + d.clusters
      else Log(w, n) == before
  {
    hide QueueOf;
    var s := w.steps[n - 1];
    if s.verdict.ReadAs? {
      assert (Log(w, n - 1) + [ReportOf(s)])[..|Log(w, n - 1)|] == Log(w, n - 1);
    }
  }

  // --- Extending a run ----------------------------------------------------

  lemma {:induction false} LogIsPrefix(w: Walk, s: Step, n: nat)
    requires n <= |w.steps|
    ensures Log(Walk(w.root, w.steps + [s]), n) == Log(w, n)
  {
    if n > 0 { LogIsPrefix(w, s, n - 1); }
  }

  // One more legal visit, to the next directory named, makes a longer run.
  lemma ExtendRun(image: seq<u8>, v: Volume, faultless: bool, w: Walk, s: Step)
    requires v.Sound() && IsRun(image, v, faultless, w)
    requires var names := Names(Log(w, |w.steps|)); |w.steps| < |names| && names[|w.steps|] == s.next
    requires Legal(image, v, faultless, SeenBy(Log(w, |w.steps|)), s.next, s.verdict)
    ensures IsRun(image, v, faultless, Walk(w.root, w.steps + [s]))
    ensures Log(Walk(w.root, w.steps + [s]), |w.steps|) == Log(w, |w.steps|)
  {
    hide Legal, IsListing, Names, SeenBy, Log;
    var w' := Walk(w.root, w.steps + [s]);
    LogIsPrefix(w, s, |w.steps|);
    forall k | 0 <= k < |w'.steps| ensures StepOk(image, v, faultless, w', k) {
      LogIsPrefix(w, s, k);
      if k < |w.steps| {
        assert StepOk(image, v, faultless, w, k) && w'.steps[k] == w.steps[k];
      }
    }
  }

  // --- What holds of every run --------------------------------------------

  // The n-th visit of a run, in the terms the lemmas below need.
  lemma RunStep(image: seq<u8>, v: Volume, faultless: bool, w: Walk, n: nat)
    requires v.Sound() && IsRun(image, v, faultless, w) && 0 < n <= |w.steps|
    ensures var s, before := w.steps[n - 1], Log(w, n - 1);
      && n - 1 < |Names(before)| && Names(before)[n - 1] == s.next
      && (s.verdict.ReadAs? ==>
            var d := s.verdict.directory;
            && s.next.depth <= MAX_DEPTH && IsListing(image, v, d)
            && forall i :: 0 <= i < |d.clusters| ==> d.clusters[i] !in ClustersOf(before))
  {
    hide Log, Names, ClustersOf, Legal, IsListing;
    assert StepOk(image, v, faultless, w, n - 1);
    var s := w.steps[n - 1];
    if s.verdict.ReadAs? {
      LegalReadIsFresh(image, v, faultless, SeenBy(Log(w, n - 1)), s.next, s.verdict);
    }
  }

  /** No cluster is reported twice: the cluster lists of the root and of every
      directory read are duplicate-free and pairwise disjoint, whatever links
      the evidence holds. */
  lemma {:induction false} RunClustersDistinct(image: seq<u8>, v: Volume, faultless: bool, w: Walk, n: nat)
    requires v.Sound() && IsRun(image, v, faultless, w) && n <= |w.steps|
    ensures Distinct(ClustersOf(Log(w, n))) && AllData(v, ClustersOf(Log(w, n)))
  {
    hide Log, Names, ClustersOf, StepOk, QueueOf, ListingOf, Volume.Sound;
    if n == 0 {
      LogStart(w);
    } else {
      RunClustersDistinct(image, v, faultless, w, n - 1);
      RunStep(image, v, faultless, w, n);
      LogStep(w, n);
      var s := w.steps[n - 1];
      if s.verdict.ReadAs? {
        JoinDistinct(v, ClustersOf(Log(w, n - 1)), s.verdict.directory.clusters);
      }
    }
  }

  lemma JoinDistinct(v: Volume, a: seq<u32>, b: seq<u32>)
    requires Distinct(a) && Distinct(b) && AllData(v, a) && AllData(v, b)
    requires forall i :: 0 <= i < |b| ==> b[i] !in a
    ensures Distinct(a + b) && AllData(v, a + b)
  {
  }

  /** Names are only ever added to: what the first visits found named stays
      named, in the same place. */
  lemma {:induction false} NamesGrow(w: Walk, m: nat, n: nat)
    requires m <= n <= |w.steps|
    ensures Names(Log(w, m)) <= Names(Log(w, n)) && Log(w, m) <= Log(w, n)
  {
    hide Log, Names, ClustersOf, QueueOf;
    if m < n {
      NamesGrow(w, m, n - 1);
      LogStep(w, n);
    }
  }

  lemma VisitIsName(image: seq<u8>, v: Volume, faultless: bool, w: Walk, k: nat)
    requires v.Sound() && IsRun(image, v, faultless, w) && k < |w.steps|
    ensures k < |Names(Log(w, |w.steps|))| && Names(Log(w, |w.steps|))[k] == w.steps[k].next
  {
    hide Names, Log, StepOk, IsListing, ClustersOf;
    RunStep(image, v, faultless, w, k + 1);
    NamesGrow(w, k, |w.steps|);
  }

  /** First in, first out, over a whole run: visits are in order of naming, and
      a finished run has visited every directory named exactly once. */
  lemma VisitsAreNames(image: seq<u8>, v: Volume, faultless: bool, w: Walk)
    requires v.Sound() && IsRun(image, v, faultless, w)
    ensures |w.steps| <= |Names(Log(w, |w.steps|))|
    ensures forall k :: 0 <= k < |w.steps| ==> Names(Log(w, |w.steps|))[k] == w.steps[k].next
  {
    hide Names, Log, IsRun;
    var names := Names(Log(w, |w.steps|));
    if |w.steps| > 0 { VisitIsName(image, v, faultless, w, |w.steps| - 1); }
    forall k: nat | k < |w.steps|
      ensures names[k] == w.steps[k].next
    {
      VisitIsName(image, v, faultless, w, k);
    }
  }

  ghost predicate DepthsSorted(qs: seq<Pending>) {
    forall i, j :: 0 <= i < j < |qs| ==> qs[i].depth <= qs[j].depth
  }

  ghost function Level(w: Walk, n: nat): nat
    requires n <= |w.steps|
  {
    if n == 0 then 0 else w.steps[n - 1].next.depth
  }

  // Names in order of depth, at most one level below `level`.
  ghost predicate NamesNear(names: seq<Pending>, level: nat) {
    DepthsSorted(names) && forall i :: 0 <= i < |names| ==> 1 <= names[i].depth <= level + 1
  }

  // Reports in order of depth, the root alone at depth 0, none below `level`.
  ghost predicate LogNear(log: seq<Reported>, level: nat) {
    && |log| >= 1 && log[0].depth == 0
    && (forall i, j :: 0 <= i < j < |log| ==> log[i].depth <= log[j].depth)
    && (forall i :: 0 <= i < |log| ==> log[i].depth <= level)
    && (forall i :: 0 < i < |log| ==> 1 <= log[i].depth <= 128)
  }

  lemma NamesNearJoin(names: seq<Pending>, level: nat, more: seq<Pending>, depth: nat)
    requires NamesNear(names, level) && level <= depth
    requires forall i :: 0 <= i < |more| ==> more[i].depth == depth + 1
    ensures NamesNear(names, depth) && NamesNear(names + more, depth)
  {
  }

  /** Breadth first: at every point of every run the names are in order of
      depth and reach at most one level below the last visit; the directories
      reported are in order of depth, none deeper than that visit, and all but
      the root at depth 1 to 128. */
  lemma {:induction false} RunIsBreadthFirst(image: seq<u8>, v: Volume, faultless: bool, w: Walk, n: nat)
    requires v.Sound() && IsRun(image, v, faultless, w) && n <= |w.steps|
    ensures NamesNear(Names(Log(w, n)), Level(w, n)) && LogNear(Log(w, n), Level(w, n))
  {
    hide Log, Names, ClustersOf, StepOk, QueueOf, IsListing;
    if n == 0 {
      LogStart(w);
      QueueIsBelow(w.root, "", 0);
    } else {
      RunIsBreadthFirst(image, v, faultless, w, n - 1);
      RunStep(image, v, faultless, w, n);
      LogStep(w, n);
      var s, names := w.steps[n - 1], Names(Log(w, n - 1));
      LevelsRise(image, v, faultless, w, n);
      if s.verdict.ReadAs? { QueueIsBelow(s.verdict.directory, s.next.path, s.next.depth); }
      NamesNearJoin(names, Level(w, n - 1),
        if s.verdict.ReadAs? then QueueOf(s.verdict.directory, s.next.path, s.next.depth) else [], s.next.depth);
    }
  }

  /** And what is still queued never spans more than two levels: the depths
      are in order, and no two are more than one apart. */
  lemma QueueSpansTwoLevels(image: seq<u8>, v: Volume, faultless: bool, w: Walk)
    requires v.Sound() && IsRun(image, v, faultless, w)
    ensures DepthsSorted(Unvisited(w))
    ensures forall i, j :: 0 <= i < |Unvisited(w)| && 0 <= j < |Unvisited(w)| ==>
      Unvisited(w)[i].depth <= Unvisited(w)[j].depth + 1
  {
    hide Log, Names, IsRun;
    var n := |w.steps|;
    RunIsBreadthFirst(image, v, faultless, w, n);
    VisitsAreNames(image, v, faultless, w);
    if n > 0 { assert Names(Log(w, n))[n - 1] == w.steps[n - 1].next; }
  }

  lemma LevelsRise(image: seq<u8>, v: Volume, faultless: bool, w: Walk, n: nat)
    requires v.Sound() && IsRun(image, v, faultless, w) && 0 < n <= |w.steps|
    requires NamesNear(Names(Log(w, n - 1)), Level(w, n - 1))
    ensures Level(w, n - 1) <= Level(w, n)
  {
    hide Log, Names, ClustersOf, StepOk, IsListing;
    RunStep(image, v, faultless, w, n);
    if n > 1 {
      RunStep(image, v, faultless, w, n - 1);
      NamesGrow(w, n - 2, n - 1);
    }
  }

  // The entry of a log that put the k-th name there.
  lemma {:induction false} NamedSomewhere(log: seq<Reported>, k: nat) returns (j: nat)
    requires k < |Names(log)|
    ensures j < |log| && NamedBy(Names(log)[k], log[j].directory, log[j].path, log[j].depth)
  {
    hide QueueOf, NamedBy;
    var front, last := log[..|log| - 1], log[|log| - 1];
    if k < |Names(front)| {
      j := NamedSomewhere(front, k);
    } else {
      j := |log| - 1;
      QueueIsNamed(last.directory, last.path, last.depth, k - |Names(front)|);
    }
  }

  /** Provenance: every directory visited is named, by an entry that is not a
      dot entry, in the root or in a directory reported before the visit. */
  lemma VisitHasParent(image: seq<u8>, v: Volume, faultless: bool, w: Walk, k: nat) returns (j: nat)
    requires v.Sound() && IsRun(image, v, faultless, w) && k < |w.steps|
    ensures j < |Log(w, k)|
    ensures var parent := Log(w, k)[j]; NamedBy(w.steps[k].next, parent.directory, parent.path, parent.depth)
  {
    hide Legal, NamedBy, Names, Log;
    assert StepOk(image, v, faultless, w, k);
    j := NamedSomewhere(Log(w, k), k);
  }

  /** Every directory reported uses up a data cluster no other did, so there
      are at most as many as there are data clusters. */
  lemma ReportsAreBounded(image: seq<u8>, v: Volume, faultless: bool, w: Walk)
    requires v.Sound() && IsRun(image, v, faultless, w)
    ensures |Log(w, |w.steps|)| <= v.boot.geometry.clusterCount
  {
    hide Log, ClustersOf, StepOk, IsListing;
    var n := |w.steps|;
    RunClustersDistinct(image, v, faultless, w, n);
    ReportsHaveClusters(image, v, faultless, w, n);
    DistinctBelow(ClustersOf(Log(w, n)), 2, v.boot.geometry.clusterCount);
  }

  lemma {:induction false} ReportsHaveClusters(image: seq<u8>, v: Volume, faultless: bool, w: Walk, n: nat)
    requires v.Sound() && IsRun(image, v, faultless, w) && n <= |w.steps|
    ensures |Log(w, n)| <= |ClustersOf(Log(w, n))|
  {
    hide Log, Names, ClustersOf, StepOk, QueueOf, ListingOf, AllData, Distinct, Volume.Sound;
    if n == 0 {
      LogStart(w);
    } else {
      ReportsHaveClusters(image, v, faultless, w, n - 1);
      RunStep(image, v, faultless, w, n);
      LogStep(w, n);
    }
  }

  // The numbers from `low` up to, not including, `low + count`.
  ghost function Interval(low: nat, count: nat): (s: set<nat>)
    ensures |s| == count && forall x :: x in s <==> low <= x < low + count
  {
    if count == 0 then {} else Interval(low, count - 1) + {low + count - 1}
  }

  lemma {:induction false} DistinctBelow(cs: seq<u32>, low: nat, count: nat)
    requires Distinct(cs) && forall i :: 0 <= i < |cs| ==> low <= cs[i] < low + count
    ensures |cs| <= count
  {
    var used := set i | 0 <= i < |cs| :: cs[i] as nat;
    DistinctSize(cs, used);
    assert used <= Interval(low, count);
    SubsetSize(used, Interval(low, count));
  }

  lemma {:induction false} DistinctSize(cs: seq<u32>, used: set<nat>)
    requires Distinct(cs) && used == set i | 0 <= i < |cs| :: cs[i] as nat
    ensures |used| == |cs|
  {
    if cs == [] {
      assert used == {};
    } else {
      var front, last := cs[..|cs| - 1], cs[|cs| - 1];
      var less := set i | 0 <= i < |front| :: front[i] as nat;
      DistinctSize(front, less);
      assert used == less + {last};
    }
  }

  lemma SubsetSize<T>(a: set<T>, b: set<T>)
    requires a <= b
    ensures |a| <= |b|
  {
    assert b == a + (b - a);
  }

  // --- What a run reports -------------------------------------------------

  ghost function StepEvents(s: Step): seq<Event> {
    var reached := Walked(s.next.path, s.next.deleted);
    match s.verdict
    case Unread(reason) => [DirectoryNotRead(reached, reason)]
    case ReadAs(d, mayContinue) =>
      [DirectoryRead(reached, d)] + if mayContinue then [ListingMayContinue(s.next.firstCluster)] else []
  }

  ghost function WalkEvents(w: Walk, n: nat): seq<Event>
    requires n <= |w.steps|
  {
    if n == 0 then [DirectoryRead(Root, w.root)] else WalkEvents(w, n - 1) + StepEvents(w.steps[n - 1])
  }

  lemma {:induction false} WalkEventsPrefix(w: Walk, s: Step, n: nat)
    requires n <= |w.steps|
    ensures WalkEvents(Walk(w.root, w.steps + [s]), n) == WalkEvents(w, n)
  {
    hide StepEvents;
    if n > 0 { WalkEventsPrefix(w, s, n - 1); }
  }

  predicate IsWalkedRead(e: Event) { e.DirectoryRead? && e.reached.Walked? }

  predicate IsWalkedUnread(e: Event) { e.DirectoryNotRead? }

  function WalkReport(e: Event): seq<Event> { if IsWalkedRead(e) || IsWalkedUnread(e) then [e] else [] }

  // Whether an event reports the directory at this place in the queue, as
  // read or as not read.
  predicate Answers(e: Event, q: Pending) {
    (IsWalkedRead(e) || IsWalkedUnread(e)) && e.reached == Walked(q.path, q.deleted)
  }

  ghost predicate EachAnswered(answers: seq<Event>, names: seq<Pending>) {
    |answers| == |names| && forall k :: 0 <= k < |names| ==> Answers(answers[k], names[k])
  }

  /** Conservation of names: in what a finished run reports, the directories
      named by the root and walked listings are answered one for one, in the
      order they were named, each by one report that it was read or that it
      was not. */
  lemma NamesAreConserved(image: seq<u8>, v: Volume, faultless: bool, w: Walk)
    requires v.Sound() && IsRun(image, v, faultless, w) && Finished(w)
    ensures var events := WalkEvents(w, |w.steps|);
      && EachAnswered(Gather(events, WalkReport), Names(Log(w, |w.steps|)))
      && |Names(Log(w, |w.steps|))| == Count(events, IsWalkedRead) + Count(events, IsWalkedUnread)
  {
    hide Names, Log, IsRun, WalkEvents, Gather;
    VisitsAreReported(w, |w.steps|);
    VisitsAreAnswered(w, |w.steps|);
    VisitsAreNames(image, v, faultless, w);
  }

  lemma {:induction false} VisitsAreAnswered(w: Walk, n: nat)
    requires n <= |w.steps|
    ensures var answers := Gather(WalkEvents(w, n), WalkReport);
      |answers| == n && forall k :: 0 <= k < n ==> Answers(answers[k], w.steps[k].next)
  {
    hide Gather;
    if n == 0 {
      GatherFew(WalkEvents(w, 0), WalkReport);
    } else {
      VisitsAreAnswered(w, n - 1);
      GatherJoined(WalkEvents(w, n - 1), StepEvents(w.steps[n - 1]), WalkReport);
      GatherFew(StepEvents(w.steps[n - 1]), WalkReport);
    }
  }

  lemma {:induction false} VisitsAreReported(w: Walk, n: nat)
    requires n <= |w.steps|
    ensures n == Count(WalkEvents(w, n), IsWalkedRead) + Count(WalkEvents(w, n), IsWalkedUnread)
  {
    hide Count;
    var none: seq<Event> := [];
    if n == 0 {
      var e := DirectoryRead(Root, w.root);
      CountNone(none, IsWalkedRead);
      CountNone(none, IsWalkedUnread);
      CountOneMore(none, e, IsWalkedRead);
      CountOneMore(none, e, IsWalkedUnread);
      assert none + [e] == [e];
    } else {
      VisitsAreReported(w, n - 1);
      CountStep(WalkEvents(w, n - 1), w.steps[n - 1]);
    }
  }

  lemma CountStep(before: seq<Event>, s: Step)
    ensures Count(before + StepEvents(s), IsWalkedRead) + Count(before + StepEvents(s), IsWalkedUnread)
         == Count(before, IsWalkedRead) + Count(before, IsWalkedUnread) + 1
  {
    hide Count;
    var es := StepEvents(s);
    CountOneMore(before, es[0], IsWalkedRead);
    CountOneMore(before, es[0], IsWalkedUnread);
    if |es| == 2 {
      CountOneMore(before + [es[0]], es[1], IsWalkedRead);
      CountOneMore(before + [es[0]], es[1], IsWalkedUnread);
      assert before + es == before + [es[0]] + [es[1]];
    } else {
      assert before + es == before + [es[0]];
    }
  }

  // --- A run in progress --------------------------------------------------

  ghost function Seen(w: Walk): set<u32> { SeenBy(Log(w, |w.steps|)) }

  // The directories named and not yet visited, in order.
  ghost function Unvisited(w: Walk): seq<Pending> {
    var names := Names(Log(w, |w.steps|));
    if |w.steps| <= |names| then names[|w.steps|..] else []
  }

  // The first clusters of the directories visited, whatever the verdict.
  ghost function Given(w: Walk): set<u32> { set k | 0 <= k < |w.steps| :: w.steps[k].next.firstCluster }

  ghost function Reports(w: Walk): seq<Event> { WalkEvents(w, |w.steps|) }

  ghost function ClusterSet(d: Directory): set<u32> { set c | c in d.clusters }

  lemma StartOfRun(image: seq<u8>, v: Volume, faultless: bool, root: Directory)
    requires v.Sound() && IsListing(image, v, root)
    ensures var w := Walk(root, []);
      && IsRun(image, v, faultless, w)
      && Seen(w) == ClusterSet(root) && Unvisited(w) == QueueOf(root, "", 0) && Given(w) == {}
      && Reports(w) == [DirectoryRead(Root, root)]
  {
    hide QueueOf;
    LogStart(Walk(root, []));
  }

  // One legal visit to the next unvisited directory.
  lemma Advance(image: seq<u8>, v: Volume, faultless: bool, w: Walk, s: Step, rest: seq<Pending>)
    requires v.Sound() && IsRun(image, v, faultless, w) && Unvisited(w) == [s.next] + rest
    requires Legal(image, v, faultless, Seen(w), s.next, s.verdict)
    ensures var w', d := Walk(w.root, w.steps + [s]), s.verdict;
      && IsRun(image, v, faultless, w')
      && Given(w') == Given(w) + {s.next.firstCluster}
      && Reports(w') == Reports(w) + StepEvents(s)
      && Seen(w') == Seen(w) + (if d.ReadAs? then ClusterSet(d.directory) else {})
      && Unvisited(w') == rest + if d.ReadAs? then QueueOf(d.directory, s.next.path, s.next.depth) else []
  {
    hide Log, Names, SeenBy, Legal, IsListing, QueueOf, StepEvents, WalkEvents, Given, Volume.Sound;
    var n := |w.steps|;
    var w' := Walk(w.root, w.steps + [s]);
    assert Names(Log(w, n))[n] == Unvisited(w)[0];
    ExtendRun(image, v, faultless, w, s);
    AdvanceReports(w, s);
    GivenOneMore(w, s);
    AdvanceLog(w, s);
    assert rest == Names(Log(w, n))[n + 1..] by { assert rest == Unvisited(w)[1..]; }
  }

  // One more visit adds its directory's names to those there were, and its
  // clusters to those seen.
  lemma AdvanceLog(w: Walk, s: Step)
    ensures var w', n, d := Walk(w.root, w.steps + [s]), |w.steps|, s.verdict;
      && Names(Log(w', n + 1)) == Names(Log(w, n))
         + (if d.ReadAs? then QueueOf(d.directory, s.next.path, s.next.depth) else [])
      && SeenBy(Log(w', n + 1)) == SeenBy(Log(w, n)) + (if d.ReadAs? then ClusterSet(d.directory) else {})
  {
    hide Log, Names, ClustersOf, QueueOf;
    LogIsPrefix(w, s, |w.steps|);
    LogStep(Walk(w.root, w.steps + [s]), |w.steps| + 1);
  }

  lemma AdvanceReports(w: Walk, s: Step)
    ensures Reports(Walk(w.root, w.steps + [s])) == Reports(w) + StepEvents(s)
  {
    hide StepEvents;
    WalkEventsPrefix(w, s, |w.steps|);
  }

  lemma GivenOneMore(w: Walk, s: Step)
    ensures Given(Walk(w.root, w.steps + [s])) == Given(w) + {s.next.firstCluster}
  {
    var w' := Walk(w.root, w.steps + [s]);
    forall c | c in Given(w) ensures c in Given(w') {
      var k :| 0 <= k < |w.steps| && w.steps[k].next.firstCluster == c;
      assert w'.steps[k] == w.steps[k];
    }
    assert w'.steps[|w.steps|] == s;
  }

  lemma {:induction false} FaultlessPrefixesAgree(image: seq<u8>, v: Volume, a: Walk, b: Walk, n: nat)
    requires v.Sound() && a.root == b.root && n <= |a.steps| && n <= |b.steps|
    requires IsRun(image, v, true, a) && IsRun(image, v, true, b)
    ensures a.steps[..n] == b.steps[..n] && Log(a, n) == Log(b, n)
  {
    hide Names, SeenBy, VerdictOf, IsListing;
    if n > 0 {
      FaultlessPrefixesAgree(image, v, a, b, n - 1);
      assert StepOk(image, v, true, a, n - 1) && StepOk(image, v, true, b, n - 1);
      assert a.steps[..n] == a.steps[..n - 1] + [a.steps[n - 1]];
      assert b.steps[..n] == b.steps[..n - 1] + [b.steps[n - 1]];
    }
  }

  /** Where no read fails, the evidence alone decides the walk: any two
      finished runs from the same root are the same run. */
  lemma FinishedRunIsUnique(image: seq<u8>, v: Volume, a: Walk, b: Walk)
    requires v.Sound() && a.root == b.root && Finished(a) && Finished(b)
    requires IsRun(image, v, true, a) && IsRun(image, v, true, b)
    ensures a == b
  {
    hide Names, Log, Legal, IsListing;
    var n := if |a.steps| <= |b.steps| then |a.steps| else |b.steps|;
    FaultlessPrefixesAgree(image, v, a, b, n);
    if |a.steps| < |b.steps| { RunStep(image, v, true, b, n + 1); }
    if |b.steps| < |a.steps| { RunStep(image, v, true, a, n + 1); }
    assert a.steps == a.steps[..n] && b.steps == b.steps[..n];
  }
}
