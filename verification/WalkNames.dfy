/** Which entries of a listing are followed, and how each is read: said of the
    entries themselves, and of what the evidence holds. */
module WalkNames {
  import opened ArtifactPath
  import opened ChainErrors
  import opened DirectoryWalk
  import opened EntryBytes
  import opened Events
  import opened Fat32
  import opened FatDeleted
  import opened FatDirectory
  import opened FatEnumerate
  import opened FatLayout
  import opened Machine
  import opened OrphanBytes
  import opened OrphanSearch
  import opened RotateAdd
  import opened Wrappers

  // `.` and `..`, padded with spaces.
  ghost predicate DotName(name: NameField) {
    name[0] == 0x2E && (name[1] == 0x20 || name[1] == 0x2E) && forall i :: 2 <= i < 11 ==> name[i] == 0x20
  }

  ghost predicate LiveDirectory(e: Entry) { e.kind.ShortName? && e.kind.directory && !DotName(e.kind.rawName) }

  ghost predicate DeletedDirectoryEntry(e: Entry) {
    e.kind.Deleted? && e.kind.was.DeletedShortName? && e.kind.was.directory
  }

  ghost predicate Followed(e: Entry) { LiveDirectory(e) || DeletedDirectoryEntry(e) }

  // Where the followed entries are, among the first `n`.
  ghost function Places(slots: seq<Entry>, n: nat): seq<nat>
    requires n <= |slots|
  {
    if n == 0 then [] else Places(slots, n - 1) + if Followed(slots[n - 1]) then [n - 1] else []
  }

  /** They are all of the followed entries, each once, in order. */
  lemma {:induction false} PlacesAreExact(slots: seq<Entry>, n: nat)
    requires n <= |slots|
    ensures var at := Places(slots, n);
      && (forall i :: i in at <==> 0 <= i < n && Followed(slots[i]))
      && (forall i, j :: 0 <= i < j < |at| ==> at[i] < at[j])
      && (forall k :: 0 <= k < |at| ==> at[k] < n && Followed(slots[at[k]]))
  {
    hide Followed;
    if n > 0 { PlacesAreExact(slots, n - 1); }
  }

  // The byte a deleted name is shown with: the one live byte its component's
  // checksum allows, if a component precedes it and there is such a byte.
  ghost predicate ShownByte(slots: seq<Entry>, i: nat, b: u8)
    requires i < |slots| && slots[i].kind.Deleted? && slots[i].kind.was.DeletedShortName?
  {
    var surviving := slots[i].kind.was.survivingName;
    if i > 0 && slots[i - 1].kind.Deleted? && slots[i - 1].kind.was.DeletedLongName?
       && Restorable(surviving, slots[i - 1].kind.was.checksum)
    then Restores(b, surviving, slots[i - 1].kind.was.checksum)
    else b == 0x3F
  }

  ghost predicate Restores(first: u8, surviving: seq<u8>, checksum: u8) {
    first != 0x00 && first != 0xE5 && NameChecksum([first] + surviving) == checksum
  }

  ghost predicate Restorable(surviving: seq<u8>, checksum: u8) {
    exists first: u8 :: Restores(first, surviving, checksum)
  }

  function NameOr(name: Option<string>, first: u32): string {
    match name
    case Some(text) => text
    case None => "c" + Decimal(first)
  }

  // Whether `q` is what following the entry at `i` comes to.
  ghost predicate Stands(q: Pending, slots: seq<Entry>, i: nat, parent: string, depth: nat)
    requires i < |slots|
  {
    && q.depth == depth + 1
    && (LiveDirectory(slots[i]) ==>
          var e := slots[i].kind;
          !q.deleted && q.firstCluster == e.firstCluster && q.path == parent + "/" + NameOr(e.name, e.firstCluster))
    && (DeletedDirectoryEntry(slots[i]) ==>
          var e := slots[i].kind.was;
          && q.deleted && q.firstCluster == e.firstCluster
          && exists b: u8 :: ShownByte(slots, i, b)
               && q.path == parent + "/" + NameOr(RecoveredName(b, e.survivingName), e.firstCluster))
  }

  lemma RecoveredRestores(surviving: seq<u8>, checksum: u8)
    ensures var r := RecoveredByte(surviving, checksum);
      && (r.Some? ==> Restores(r.value, surviving, checksum))
      && (r.None? ==> !Restorable(surviving, checksum))
  {
    hide Unfold;
    var unique: u8 := Unfold(BYTE_HALF, checksum, surviving);
    forall first: u8 ensures NameChecksum([first] + surviving) == checksum <==> first == unique {
      ChecksumNamesFirstByte(surviving, checksum, first);
    }
  }

  // What is shown for a deleted name's lost byte.
  lemma SegmentShows(slots: seq<Entry>, i: nat) returns (b: u8)
    requires i < |slots| && DeletedDirectoryEntry(slots[i])
    ensures ShownByte(slots, i, b)
    ensures var e := slots[i].kind.was; DeletedSegment(slots, i, e.survivingName) == RecoveredName(b, e.survivingName)
  {
    hide RecoveredName, RecoveredByte, Restores;
    var surviving := slots[i].kind.was.survivingName;
    b := 0x3F;
    if i > 0 && IsDeletedComponent(slots[i - 1].kind) {
      var checksum := slots[i - 1].kind.was.checksum;
      RecoveredRestores(surviving, checksum);
      if RecoveredByte(surviving, checksum).Some? { b := RecoveredByte(surviving, checksum).value; }
    }
  }

  lemma NamedAtStands(slots: seq<Entry>, i: nat, parent: string, depth: nat)
    requires i < |slots|
    ensures NamedAt(slots, i).Some? <==> Followed(slots[i])
    ensures NamedAt(slots, i).Some? ==>
      var (first, segment, deleted) := NamedAt(slots, i).value;
      Stands(Pending(first, parent + "/" + segment, depth + 1, deleted), slots, i, parent, depth)
  {
    hide DeletedSegment, Decimal, RecoveredName, ShownByte;
    if slots[i].kind.ShortName? {
      DotEntryMeaning(slots[i].kind);
    }
    if DeletedDirectoryEntry(slots[i]) {
      var b := SegmentShows(slots, i);
    }
  }

  lemma {:induction false} QueuedStand(slots: seq<Entry>, n: nat, parent: string, depth: nat)
    requires n <= |slots|
    ensures var queued, at := QueuedFrom(slots, n, parent, depth), Places(slots, n);
      |queued| == |at| && forall k :: 0 <= k < |at| ==> at[k] < n && Stands(queued[k], slots, at[k], parent, depth)
  {
    hide NamedAt, Stands, Followed;
    if n > 0 {
      QueuedStand(slots, n - 1, parent, depth);
      NamedAtStands(slots, n - 1, parent, depth);
    }
  }

  /** What a listing queues is its followed entries, residue after entries,
      each once and in order: a live directory other than `.` and `..` as live,
      a deleted one as deleted, each at the cluster its entry gives, one level
      down, under its parent's path. */
  lemma QueueIsTheFollowed(d: Directory, parent: string, depth: nat)
    ensures var q, listed, left := QueueOf(d, parent, depth),
        Places(d.entries, |d.entries|), Places(d.residue, |d.residue|);
      && |q| == |listed| + |left|
      && (forall k :: 0 <= k < |listed| ==>
            listed[k] < |d.entries| && Stands(q[k], d.entries, listed[k], parent, depth))
      && (forall k :: 0 <= k < |left| ==>
            left[k] < |d.residue| && Stands(q[|listed| + k], d.residue, left[k], parent, depth))
  {
    hide Stands, Places, QueuedFrom;
    QueuedStand(d.entries, |d.entries|, parent, depth);
    QueuedStand(d.residue, |d.residue|, parent, depth);
  }

  // --- How each is read ---------------------------------------------------

  ghost predicate ChainFrom(image: seq<u8>, v: Volume, first: u32, seen: set<u32>, cs: seq<u32>)
    requires v.Sound()
  {
    IsChain(image, v, cs) && cs[0] == first && forall i :: 0 <= i < |cs| ==> cs[i] !in seen
  }

  ghost predicate HasChain(image: seq<u8>, v: Volume, first: u32, seen: set<u32>)
    requires v.Sound()
  {
    exists cs :: ChainFrom(image, v, first, seen, cs)
  }

  /** A directory named by a live entry is read exactly where it is at most 128
      levels down and has a chain of its own that meets no directory before it;
      and it is read as the listing of that chain. */
  lemma LiveVerdict(image: seq<u8>, v: Volume, seen: set<u32>, next: Pending, cs: seq<u32>)
    requires v.Sound() && !next.deleted
    ensures VerdictOf(image, v, seen, next).ReadAs? <==>
      next.depth <= 128 && HasChain(image, v, next.firstCluster, seen)
    ensures next.depth <= 128 && ChainFrom(image, v, next.firstCluster, seen, cs) ==>
      VerdictOf(image, v, seen, next) == ReadAs(ListingOf(image, v, cs).directory, false)
  {
    hide IsChain, SlotsOf, FatEntry, Chained;
    ChainedIffChain(image, v, next.firstCluster);
    var chained := Chained(image, v, [], next.firstCluster);
    if chained.Success? {
      FirstSharedMeaning(chained.value, seen);
      if FirstShared(chained.value, seen).None? {
        assert ChainFrom(image, v, next.firstCluster, seen, chained.value);
      }
    }
  }

  /** A directory named by a deleted entry is read exactly where it is at most
      128 levels down, its first cluster is free and in no directory before it,
      and that cluster begins with its own `.` and with `..`; and it is read
      from that cluster alone. */
  lemma DeletedVerdict(image: seq<u8>, v: Volume, seen: set<u32>, next: Pending)
    requires v.Sound() && next.deleted
    ensures var verdict, c := VerdictOf(image, v, seen, next), next.firstCluster;
      && (verdict.ReadAs? <==>
            next.depth <= 128 && c !in seen && v.HasCluster(c)
            && FatEntry(image, v, c) == 0 && BeginsWithDots(image, v, c))
      && (verdict.ReadAs? ==> verdict.directory == ListingOf(image, v, [c]).directory)
  {
    hide SlotsOf, FatEntry, BeginsWithDots, CheckDots;
    var c := next.firstCluster;
    RefusalsSayWhich(image, v, c);
    if v.HasCluster(c) && DeletedReading(image, v, c).value.Read? {
      CheckedIsListing(ListingOf(image, v, [c]), c);
      OneUnseen(c, seen);
    }
  }

  lemma OneUnseen(c: u32, seen: set<u32>)
    ensures FirstShared([c], seen) == if c in seen then Some(c) else None
  {
    assert [c][1..] == [];
  }

  /** And so in every run: each visit to a live name either reads its chain or
      has one of these reasons not to; where no read fails, exactly so. */
  lemma LiveVisitsAreRead(image: seq<u8>, v: Volume, faultless: bool, w: Walk, k: nat, cs: seq<u32>)
    requires v.Sound() && IsRun(image, v, faultless, w) && k < |w.steps| && !w.steps[k].next.deleted
    ensures var s, seen := w.steps[k], SeenBy(Log(w, k));
      && (s.verdict.ReadAs? ==> s.next.depth <= 128 && HasChain(image, v, s.next.firstCluster, seen))
      && (s.next.depth <= 128 && ChainFrom(image, v, s.next.firstCluster, seen, cs) ==>
            || s.verdict == ReadAs(ListingOf(image, v, cs).directory, false)
            || (!faultless && s.verdict.Unread? && s.verdict.reason.NotEnumerated?
                && s.verdict.reason.error.Unreadable?))
  {
    hide Log, Names, SeenBy, VerdictOf, ChainFrom, HasChain, ListingOf, IsListing;
    var s, seen := w.steps[k], SeenBy(Log(w, k));
    assert StepOk(image, v, faultless, w, k);
    LiveVerdict(image, v, seen, s.next, cs);
  }

  // --- Why one is not read ------------------------------------------------

  // A chain from the cluster named meets, at `x` first, what was seen.
  ghost predicate MeetsAt(image: seq<u8>, v: Volume, first: u32, seen: set<u32>, x: u32)
    requires v.Sound()
  {
    exists cs, i :: IsChain(image, v, cs) && cs[0] == first && 0 <= i < |cs| && FirstSharedIs(cs, seen, i, x)
  }

  /** Why a directory named by a live entry is not read: it is too deep; a
      cluster of it has been read, and which; or its chain fails, and how. */
  lemma LiveRefusals(image: seq<u8>, v: Volume, seen: set<u32>, next: Pending)
    requires v.Sound() && !next.deleted
    ensures var r, c := VerdictOf(image, v, seen, next), next.firstCluster;
      && (r == Unread(TooDeep) <==> next.depth > 128)
      && (forall x: u32 :: r == Unread(AlreadyRead(x)) <==>
            next.depth <= 128 && if c in seen then x == c else MeetsAt(image, v, c, seen, x))
      && (forall e :: r == Unread(NotEnumerated(e)) <==> next.depth <= 128 && c !in seen && Broken(image, v, c, e))
      && (r.Unread? ==> !r.reason.RefusedAs?)
  {
    hide IsChain, SlotsOf, FatEntry, Chained, Broken, FirstShared;
    var c := next.firstCluster;
    ChainedIffChain(image, v, c);
    forall e { ChainFailsIff(image, v, c, e); }
    var chained := Chained(image, v, [], c);
    if chained.Success? {
      FirstSharedMeaning(chained.value, seen);
      forall x: u32 ensures MeetsAt(image, v, c, seen, x) <==> FirstShared(chained.value, seen) == Some(x) {
        MeetingIsShared(image, v, c, seen, chained.value, x);
      }
    }
  }

  lemma MeetingIsShared(image: seq<u8>, v: Volume, first: u32, seen: set<u32>, cs: seq<u32>, x: u32)
    requires v.Sound() && IsChain(image, v, cs) && cs[0] == first
    ensures MeetsAt(image, v, first, seen, x) <==> FirstShared(cs, seen) == Some(x)
  {
    hide FatEntry, Linked, FirstShared;
    FirstSharedMeaning(cs, seen);
    if MeetsAt(image, v, first, seen, x) {
      var ds, i :| IsChain(image, v, ds) && ds[0] == first && 0 <= i < |ds| && FirstSharedIs(ds, seen, i, x);
      ChainIsUnique(image, v, cs, ds);
    }
  }

  /** Why a directory named by a deleted entry is not read: it is too deep; its
      cluster has been read; it is no cluster; or it is refused for what the
      FAT and its first two slots hold. */
  lemma DeletedRefusals(image: seq<u8>, v: Volume, seen: set<u32>, next: Pending)
    requires v.Sound() && next.deleted
    ensures var r, c := VerdictOf(image, v, seen, next), next.firstCluster;
      && (r == Unread(TooDeep) <==> next.depth > 128)
      && (forall x :: r == Unread(AlreadyRead(x)) <==> next.depth <= 128 && c in seen && x == c)
      && (forall e :: r == Unread(NotEnumerated(e)) <==>
            next.depth <= 128 && c !in seen && !v.HasCluster(c)
            && e == ClusterOutOfRange(c, v.boot.geometry.clusterCount))
      && (forall why :: r == Unread(RefusedAs(why)) <==>
            next.depth <= 128 && c !in seen && v.HasCluster(c) && RefusedFor(image, v, c, why))
      && (r.ReadAs? ==> v.HasCluster(c) && (r.mayContinue <==> Unended(image, v, c)))
  {
    hide DeletedReading, VerdictOf, RefusedFor, Unended;
    var c := next.firstCluster;
    DeletedVerdictIs(image, v, seen, next);
    ReadsOrRefuses(image, v, c);
    if v.HasCluster(c) {
      forall why { RefusedIff(image, v, c, why); }
    }
    if v.HasCluster(c) && DeletedReading(image, v, c).value.Read? {
      MayContinueMeaning(image, v, c);
    }
  }

  // A deleted directory's one cluster is all that could meet another.
  lemma DeletedVerdictIs(image: seq<u8>, v: Volume, seen: set<u32>, next: Pending)
    requires v.Sound() && next.deleted
    ensures VerdictOf(image, v, seen, next) ==
      if next.depth > 128 then Unread(TooDeep)
      else if next.firstCluster in seen then Unread(AlreadyRead(next.firstCluster))
      else
        match DeletedReading(image, v, next.firstCluster)
        case Failure(e) => Unread(NotEnumerated(e))
        case Success(Refused(reason)) => Unread(RefusedAs(reason))
        case Success(Read(listing, mayContinue)) => ReadAs(listing, mayContinue)
  {
    hide DeletedReading, FirstShared;
    var c := next.firstCluster;
    if DeletedReading(image, v, c).Success? && DeletedReading(image, v, c).value.Read? {
      DeletedReadingIsOneCluster(image, v, c);
      OneUnseen(c, seen);
    }
  }

  lemma ReadsOrRefuses(image: seq<u8>, v: Volume, c: u32)
    ensures if v.HasCluster(c) then DeletedReading(image, v, c).Success?
            else DeletedReading(image, v, c) == Failure(ClusterOutOfRange(c, v.boot.geometry.clusterCount))
  {
    hide CheckDots, ListingOf, FatEntry;
  }

  lemma RefusedIff(image: seq<u8>, v: Volume, c: u32, why: DeletedDirectoryRefusal)
    requires v.Sound() && v.HasCluster(c)
    ensures DeletedReading(image, v, c) == Success(Refused(why)) <==> RefusedFor(image, v, c, why)
  {
    hide DeletedReading, FatEntry, DotBytes, DotDotBytes, BeginsWithDots;
    RefusalsSayWhich(image, v, c);
  }

  ghost predicate RefusedFor(image: seq<u8>, v: Volume, c: u32, why: DeletedDirectoryRefusal)
    requires v.Sound() && v.HasCluster(c)
  {
    match why
    case InUse(entry) => entry == FatEntry(image, v, c) != 0
    case NoSelfEntry => FatEntry(image, v, c) == 0 && !DotBytes(SlotRaw(image, v, c, 0), c)
    case NoParentEntry =>
      FatEntry(image, v, c) == 0 && DotBytes(SlotRaw(image, v, c, 0), c) && !DotDotBytes(SlotRaw(image, v, c, 1))
  }

  // --- What is reported ---------------------------------------------------

  // What one visit is reported as.
  ghost predicate ReportsVisit(e: Event, s: Step) {
    match s.verdict
    case Unread(reason) => e == DirectoryNotRead(Walked(s.next.path, s.next.deleted), reason)
    case ReadAs(d, mayContinue) =>
      e == DirectoryRead(Walked(s.next.path, s.next.deleted), d)
      || (mayContinue && e == ListingMayContinue(s.next.firstCluster))
  }

  /** A walk reports its root, and of every visit this and nothing else. */
  lemma {:induction false} WalkEventsAreExact(w: Walk, n: nat, e: Event)
    requires n <= |w.steps|
    ensures e in WalkEvents(w, n) <==>
      e == DirectoryRead(Root, w.root) || exists k :: 0 <= k < n && ReportsVisit(e, w.steps[k])
  {
    hide ReportsVisit, WalkEvents, StepEvents;
    OneVisitMore(w, n, e);
    if n > 0 {
      WalkEventsAreExact(w, n - 1, e);
      StepEventsAre(w.steps[n - 1], e);
    }
  }

  lemma OneVisitMore(w: Walk, n: nat, e: Event)
    requires n <= |w.steps|
    ensures e in WalkEvents(w, n) <==>
      if n == 0 then e == DirectoryRead(Root, w.root)
      else e in WalkEvents(w, n - 1) || e in StepEvents(w.steps[n - 1])
  {
    hide StepEvents;
  }

  lemma StepEventsAre(s: Step, e: Event)
    ensures e in StepEvents(s) <==> ReportsVisit(e, s)
  {
  }

  // --- What an orphaned listing names -------------------------------------

  // A name listed by an orphan, as its entry would stand in a queue.
  ghost predicate ListsEntry(name: OrphanName, holder: u32, slots: seq<Entry>, i: nat)
    requires i < |slots|
  {
    name.holder == holder && exists q :: ListedAs(name, q) && Stands(q, slots, i, "", 0)
  }

  ghost predicate ListedAs(name: OrphanName, q: Pending) {
    q.firstCluster == name.firstCluster && q.path == "" + "/" + name.name
  }

  /** What an orphaned listing names is its followed entries too, each once and
      in order. */
  lemma {:induction false} ListedAreTheFollowed(slots: seq<Entry>, n: nat, holder: u32)
    requires n <= |slots|
    ensures var listed, at := ListedFrom(slots, n, holder), Places(slots, n);
      |listed| == |at| && forall k :: 0 <= k < |at| ==> at[k] < n && ListsEntry(listed[k], holder, slots, at[k])
  {
    hide NamedAt, Stands, Followed, ListsEntry;
    if n > 0 {
      ListedAreTheFollowed(slots, n - 1, holder);
      NamedAtStands(slots, n - 1, "", 0);
      if NamedAt(slots, n - 1).Some? {
        var (first, name, deleted) := NamedAt(slots, n - 1).value;
        NameIsListed(slots, n - 1, holder, OrphanName(holder, name, first), deleted);
      }
    }
  }

  lemma NameIsListed(slots: seq<Entry>, i: nat, holder: u32, name: OrphanName, deleted: bool)
    requires i < |slots| && name.holder == holder
    requires Stands(Pending(name.firstCluster, "" + "/" + name.name, 1, deleted), slots, i, "", 0)
    ensures ListsEntry(name, holder, slots, i)
  {
    hide Stands;
    assert ListedAs(name, Pending(name.firstCluster, "" + "/" + name.name, 1, deleted));
  }
}
