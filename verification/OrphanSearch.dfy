/** The search for directories nothing names, and what it finds. */
module OrphanSearch {
  import opened DirectoryWalk
  import opened Events
  import opened Fat
  import opened Fat32
  import opened FatDeleted
  import opened FatDirectory
  import opened FatEnumerate
  import opened FatLayout
  import opened Machine
  import opened Wrappers

  // A free data cluster the walk neither read nor was given, that begins with
  // `.` naming itself and `..`.
  ghost predicate IsOrphan(image: seq<u8>, v: Volume, seen: set<u32>, given: set<u32>, c: u32)
    requires v.Sound()
  {
    v.HasCluster(c) && c !in seen && c !in given && FatEntry(image, v, c) == 0 && Begins(image, v, c)
  }

  // The orphans below `end`, in order.
  ghost function OrphansBelow(image: seq<u8>, v: Volume, seen: set<u32>, given: set<u32>, end: u64): (cs: seq<u32>)
    requires v.Sound() && end <= v.LastCluster() && v.LastCluster() <= U32_MAX
    ensures forall i :: 0 <= i < |cs| ==> IsOrphan(image, v, seen, given, cs[i]) && cs[i] < end
  {
    if end <= FIRST_DATA_CLUSTER then []
    else
      OrphansBelow(image, v, seen, given, end - 1) +
      if IsOrphan(image, v, seen, given, end - 1) then [end - 1] else []
  }

  lemma ClustersFitU32(v: Volume)
    requires v.Sound()
    ensures v.LastCluster() <= U32_MAX
  {
    SoundNeverWraps(v);
  }

  /** The search finds every orphan, once, and nothing else. */
  lemma {:induction false} OrphansAreExact(image: seq<u8>, v: Volume, seen: set<u32>, given: set<u32>, end: u64)
    requires v.Sound() && end <= v.LastCluster() && v.LastCluster() <= U32_MAX
    ensures var cs := OrphansBelow(image, v, seen, given, end);
      && (forall c: u32 :: c in cs <==> c < end && IsOrphan(image, v, seen, given, c))
      && (forall i, j :: 0 <= i < j < |cs| ==> cs[i] < cs[j])
  {
    hide FatEntry, Begins;
    if end > FIRST_DATA_CLUSTER {
      OrphansAreExact(image, v, seen, given, end - 1);
    }
  }

  function ParentOf(d: Directory): Option<u32> {
    if |d.entries| > 1 && d.entries[1].kind.ShortName? then Some(d.entries[1].kind.firstCluster) else None
  }

  // What is read at an orphan.
  ghost function OrphanAt(image: seq<u8>, v: Volume, c: u32): DeletedDirectory
    requires v.Sound() && v.HasCluster(c)
  {
    FirstTestIsExact(image, v, c);
    DeletedReading(image, v, c).value
  }

  lemma OrphanIsRead(image: seq<u8>, v: Volume, seen: set<u32>, given: set<u32>, c: u32)
    requires v.Sound() && IsOrphan(image, v, seen, given, c)
    ensures OrphanAt(image, v, c).Read? && OrphanAt(image, v, c).listing.clusters == [c]
    ensures IsListing(image, v, OrphanAt(image, v, c).listing)
  {
    hide FatEntry, Begins, CheckDots;
    FirstTestIsExact(image, v, c);
    DeletedReadingIsOneCluster(image, v, c);
    CheckedIsListing(ListingOf(image, v, [c]), c);
  }

  function OrphanEvents(c: u32, found: DeletedDirectory): seq<Event>
    requires found.Read?
  {
    [DirectoryRead(Orphaned(c, ParentOf(found.listing)), found.listing)]
    + if found.mayContinue then [ListingMayContinue(c)] else []
  }

  // A directory an orphaned listing names.
  datatype OrphanName = OrphanName(holder: u32, name: string, firstCluster: u32)

  function ListedFrom(slots: seq<Entry>, n: nat, holder: u32): seq<OrphanName>
    requires n <= |slots|
  {
    if n == 0 then []
    else
      ListedFrom(slots, n - 1, holder) +
      match NamedAt(slots, n - 1)
      case None => []
      case Some((first, name, _)) => [OrphanName(holder, name, first)]
  }

  function ListedBy(d: Directory, holder: u32): seq<OrphanName> {
    ListedFrom(d.entries, |d.entries|, holder) + ListedFrom(d.residue, |d.residue|, holder)
  }

  function UnreadNames(listed: seq<OrphanName>, seen: set<u32>): seq<Event> {
    if listed == [] then []
    else
      var last := listed[|listed| - 1];
      UnreadNames(listed[..|listed| - 1], seen)
      + if last.firstCluster in seen then [] else [OrphanedListingUnread(last.holder, last.name, last.firstCluster)]
  }

  // What finding a list of orphans reports, and what their listings name.

  ghost predicate AllRead(image: seq<u8>, v: Volume, cs: seq<u32>)
    requires v.Sound()
  {
    forall i :: 0 <= i < |cs| ==> v.HasCluster(cs[i]) && OrphanAt(image, v, cs[i]).Read?
  }

  ghost function FoundEvents(image: seq<u8>, v: Volume, cs: seq<u32>): seq<Event>
    requires v.Sound() && AllRead(image, v, cs)
  {
    if cs == [] then []
    else
      var c := cs[|cs| - 1];
      FoundEvents(image, v, cs[..|cs| - 1]) + OrphanEvents(c, OrphanAt(image, v, c))
  }

  ghost function FoundNames(image: seq<u8>, v: Volume, cs: seq<u32>): seq<OrphanName>
    requires v.Sound() && AllRead(image, v, cs)
  {
    if cs == [] then []
    else
      var c := cs[|cs| - 1];
      FoundNames(image, v, cs[..|cs| - 1]) + ListedBy(OrphanAt(image, v, c).listing, c)
  }

  lemma FoundOneMore(image: seq<u8>, v: Volume, cs: seq<u32>, c: u32)
    requires v.Sound() && AllRead(image, v, cs) && v.HasCluster(c) && OrphanAt(image, v, c).Read?
    ensures AllRead(image, v, cs + [c])
    ensures FoundEvents(image, v, cs + [c]) == FoundEvents(image, v, cs) + OrphanEvents(c, OrphanAt(image, v, c))
    ensures FoundNames(image, v, cs + [c]) == FoundNames(image, v, cs) + ListedBy(OrphanAt(image, v, c).listing, c)
  {
    hide OrphanAt, OrphanEvents, ListedBy;
    var more := cs + [c];
    forall i | 0 <= i < |more| ensures v.HasCluster(more[i]) && OrphanAt(image, v, more[i]).Read? {
      if i < |cs| { assert more[i] == cs[i]; }
    }
    assert more[..|cs|] == cs;
  }

  lemma OrphansAreRead(image: seq<u8>, v: Volume, seen: set<u32>, given: set<u32>, end: u64)
    requires v.Sound() && end <= v.LastCluster() && v.LastCluster() <= U32_MAX
    ensures AllRead(image, v, OrphansBelow(image, v, seen, given, end))
  {
    hide OrphanAt, IsOrphan;
    var cs := OrphansBelow(image, v, seen, given, end);
    forall i | 0 <= i < |cs| ensures v.HasCluster(cs[i]) && OrphanAt(image, v, cs[i]).Read? {
      OrphanHasCluster(image, v, seen, given, cs[i]);
      OrphanIsRead(image, v, seen, given, cs[i]);
    }
  }

  lemma OrphanHasCluster(image: seq<u8>, v: Volume, seen: set<u32>, given: set<u32>, c: u32)
    requires v.Sound() && IsOrphan(image, v, seen, given, c)
    ensures v.HasCluster(c)
  {
  }

  // Where a search ended: at the cluster whose read stopped it, or past the
  // last.
  ghost function SearchEnd(v: Volume, stop: Option<(u32, DirectoryError)>): (end: u64)
    ensures end <= v.LastCluster()
  {
    if stop.Some? && stop.value.0 <= v.LastCluster() then stop.value.0 else v.LastCluster()
  }

  ghost function OrphansFound(image: seq<u8>, v: Volume, seen: set<u32>, given: set<u32>,
                              stop: Option<(u32, DirectoryError)>): (cs: seq<u32>)
    requires v.Sound()
    ensures AllRead(image, v, cs)
  {
    ClustersFitU32(v);
    OrphansAreRead(image, v, seen, given, SearchEnd(v, stop));
    OrphansBelow(image, v, seen, given, SearchEnd(v, stop))
  }

  // What the whole search reports: every orphan, then every directory their
  // listings name that was never read; or, where a read stopped it at a
  // cluster, the orphans below that cluster and the stop.
  ghost function SearchEvents(image: seq<u8>, v: Volume, seen: set<u32>, given: set<u32>,
                              stop: Option<(u32, DirectoryError)>): seq<Event>
    requires v.Sound()
  {
    var cs := OrphansFound(image, v, seen, given, stop);
    FoundEvents(image, v, cs) +
    match stop
    case Some((c, e)) => [OrphanSearchStopped(c, e)]
    case None => UnreadNames(FoundNames(image, v, cs), seen + set c | c in cs)
  }
}
