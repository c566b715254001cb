/** Deleted and orphaned directories as bytes: which clusters begin one, and
    what is said of those that do not. */
module OrphanBytes {
  import opened DirectoryWalk
  import opened EntryBytes
  import opened Events
  import opened FatDeleted
  import opened FatDirectory
  import opened FatEnumerate
  import opened FatLayout
  import opened Fat32
  import opened Machine
  import opened OrphanSearch
  import opened Wrappers

  ghost function SlotRaw(image: seq<u8>, v: Volume, c: u32, i: nat): (raw: seq<u8>)
    requires v.Sound() && v.HasCluster(c) && i < 2
    ensures |raw| == 32
  {
    ClusterContent(image, v, c)[32 * i..32 * i + 32]
  }

  // A cluster whose first slots are `.`, at that cluster, and `..`.
  ghost predicate BeginsWithDots(image: seq<u8>, v: Volume, c: u32)
    requires v.Sound() && v.HasCluster(c)
  {
    DotBytes(SlotRaw(image, v, c, 0), c) && DotDotBytes(SlotRaw(image, v, c, 1))
  }

  /** The 64-byte test is of these bytes. */
  lemma BeginsIsDots(image: seq<u8>, v: Volume, c: u32)
    requires v.Sound() && v.HasCluster(c)
    ensures Begins(image, v, c) <==> BeginsWithDots(image, v, c)
  {
    hide Classify, DotBytes, DotDotBytes, ClusterContent;
    var content := ClusterContent(image, v, c);
    assert content[..64][..32] == SlotRaw(image, v, c, 0) && content[..64][32..] == SlotRaw(image, v, c, 1);
    DotIsBytes(SlotRaw(image, v, c, 0), c);
    DotIsBytes(SlotRaw(image, v, c, 1), c);
  }

  /** An orphan is a free data cluster that no walked directory holds or names
      and that begins with these bytes. */
  lemma OrphanIsDots(image: seq<u8>, v: Volume, seen: set<u32>, given: set<u32>, c: u32)
    requires v.Sound()
    ensures IsOrphan(image, v, seen, given, c) <==>
      && 2 <= c < v.boot.geometry.clusterCount + 2 && c !in seen && c !in given
      && FatEntry(image, v, c) == 0 && BeginsWithDots(image, v, c)
  {
    hide FatEntry, Begins, BeginsWithDots;
    if v.HasCluster(c) { BeginsIsDots(image, v, c); }
  }

  /** Why a cluster is not read as a deleted directory: it does not exist; or it
      is in use, which the FAT entry says; or its first slot is not its own
      `.`; or, that being there, its second is not `..`. */
  lemma RefusalsSayWhich(image: seq<u8>, v: Volume, c: u32)
    requires v.Sound()
    ensures var r := DeletedReading(image, v, c);
      && (r.Failure? <==> !(2 <= c < v.boot.geometry.clusterCount + 2))
      && (r.Failure? ==> r.error == ClusterOutOfRange(c, v.boot.geometry.clusterCount))
      && (r.Success? ==>
            var entry := FatEntry(image, v, c);
            && (forall e :: r.value == Refused(InUse(e)) <==> e == entry && entry != 0)
            && (r.value == Refused(NoSelfEntry) <==> entry == 0 && !DotBytes(SlotRaw(image, v, c, 0), c))
            && (r.value == Refused(NoParentEntry) <==>
                  entry == 0 && DotBytes(SlotRaw(image, v, c, 0), c) && !DotDotBytes(SlotRaw(image, v, c, 1)))
            && (r.value.Read? <==> entry == 0 && BeginsWithDots(image, v, c)))
  {
    hide FatEntry, Classify, CheckDots, DotBytes, DotDotBytes, ClusterContent;
    if v.HasCluster(c) {
      var content := ClusterContent(image, v, c);
      var slots := SlotsIn(content, c);
      assert SlotsOf(image, v, [c]) == slots by { assert [c][..0] == []; }
      assert RawSlot(content, 0) == SlotRaw(image, v, c, 0) && RawSlot(content, 1) == SlotRaw(image, v, c, 1);
      DotIsBytes(SlotRaw(image, v, c, 0), c);
      DotIsBytes(SlotRaw(image, v, c, 1), c);
      DotsDecide(slots, ListingOf(image, v, [c]), c);
    }
  }

  lemma DotsDecide(slots: seq<Slot>, e: Enumeration, c: u32)
    requires |slots| >= 2 && slots[0].entry.slot == 0 && slots[1].entry.slot == 1
    requires e.directory.entries == Entries(Claimed(slots, false))
    ensures var itself, parent := NamesItself(slots[0].entry, c), NamesParent(slots[1].entry);
      && (CheckDots(e, c) == Refused(NoSelfEntry) <==> !itself)
      && (CheckDots(e, c) == Refused(NoParentEntry) <==> itself && !parent)
      && (CheckDots(e, c).Read? <==> itself && parent)
      && (CheckDots(e, c).Refused? ==> !CheckDots(e, c).reason.InUse?)
  {
    FirstTerminatorMeaning(slots);
  }

  /** The parent an orphan gives is the cluster its `..` names. */
  lemma ParentIsDotDot(image: seq<u8>, v: Volume, c: u32)
    requires v.Sound() && v.HasCluster(c) && FatEntry(image, v, c) == 0 && BeginsWithDots(image, v, c)
    ensures OrphanAt(image, v, c).Read?
    ensures ParentOf(OrphanAt(image, v, c).listing) == Some(StartBytes(SlotRaw(image, v, c, 1)))
  {
    hide FatEntry, Classify, DotBytes, DotDotBytes, ClusterContent, StartBytes;
    BeginsIsDots(image, v, c);
    FirstTestIsExact(image, v, c);
    var content := ClusterContent(image, v, c);
    var slots := SlotsIn(content, c);
    assert SlotsOf(image, v, [c]) == slots by { assert [c][..0] == []; }
    assert RawSlot(content, 1) == SlotRaw(image, v, c, 1);
    FirstTerminatorMeaning(slots);
    CheckedIsListing(ListingOf(image, v, [c]), c);
    ShortNameFields(SlotRaw(image, v, c, 1));
  }

  // No slot of the cluster begins with the zero that ends a listing.
  ghost predicate Unended(image: seq<u8>, v: Volume, c: u32)
    requires v.HasCluster(c)
  {
    forall i: nat :: i < ClusterSize(v) / 32 ==> FirstOfSlot(image, v, c, i) != 0x00
  }

  ghost function FirstOfSlot(image: seq<u8>, v: Volume, c: u32, i: nat): u8
    requires v.HasCluster(c) && i < ClusterSize(v) / 32
  {
    ClusterContent(image, v, c)[32 * i]
  }

  /** A deleted directory may continue exactly where no slot ends its one
      cluster. */
  lemma MayContinueMeaning(image: seq<u8>, v: Volume, c: u32)
    requires DeletedReading(image, v, c).Success? && DeletedReading(image, v, c).value.Read?
    ensures v.HasCluster(c)
    ensures DeletedReading(image, v, c).value.mayContinue <==> Unended(image, v, c)
  {
    hide Classify, FatEntry, ClusterContent;
    DeletedReadingIsOneCluster(image, v, c);
    var slots := SlotsIn(ClusterContent(image, v, c), c);
    forall i: nat | i < ClusterSize(v) / 32
      ensures slots[i].Ends() <==> FirstOfSlot(image, v, c, i) == 0x00
    {
      SlotEnds(ClusterContent(image, v, c), c, i);
    }
    if !Unended(image, v, c) {
      var i: nat :| i < ClusterSize(v) / 32 && FirstOfSlot(image, v, c, i) == 0x00;
      assert slots[i] in slots;
    }
  }

  lemma SlotEnds(content: seq<u8>, c: u32, i: nat)
    requires i < |content| / 32
    ensures SlotsIn(content, c)[i].Ends() <==> content[32 * i] == 0x00
  {
    var kind := Classify(RawSlot(content, i));
    assert RawSlot(content, i)[0] == content[32 * i];
  }

  // What is reported of one orphan: that it was read, with the parent its `..`
  // gives and the listing of its one cluster, and that it may continue.
  ghost predicate ReportsOrphan(e: Event, image: seq<u8>, v: Volume, c: u32)
    requires v.Sound() && v.HasCluster(c)
  {
    || e == DirectoryRead(Orphaned(c, Some(StartBytes(SlotRaw(image, v, c, 1)))), ListingOf(image, v, [c]).directory)
    || (e == ListingMayContinue(c) && Unended(image, v, c))
  }

  lemma OrphanEventsAre(image: seq<u8>, v: Volume, c: u32, e: Event)
    requires v.Sound() && v.HasCluster(c) && FatEntry(image, v, c) == 0 && BeginsWithDots(image, v, c)
    ensures OrphanAt(image, v, c).Read?
    ensures e in OrphanEvents(c, OrphanAt(image, v, c)) <==> ReportsOrphan(e, image, v, c)
  {
    hide FatEntry, BeginsWithDots, ListingOf, ParentOf, StartBytes, Unended;
    ParentIsDotDot(image, v, c);
    FirstTestIsExact(image, v, c);
    MayContinueMeaning(image, v, c);
    CheckedIsListing(ListingOf(image, v, [c]), c);
  }

  /** What the search reports of the orphans it finds is this of each and
      nothing else. */
  lemma {:induction false} FoundEventsAreExact(image: seq<u8>, v: Volume, cs: seq<u32>, e: Event)
    requires v.Sound() && AllRead(image, v, cs)
    requires forall i :: 0 <= i < |cs| ==> FatEntry(image, v, cs[i]) == 0 && BeginsWithDots(image, v, cs[i])
    ensures e in FoundEvents(image, v, cs) <==> exists i :: 0 <= i < |cs| && ReportsOrphan(e, image, v, cs[i])
  {
    hide FatEntry, BeginsWithDots, ReportsOrphan, OrphanAt, OrphanEvents;
    if cs != [] {
      var front, c := cs[..|cs| - 1], cs[|cs| - 1];
      FoundEventsAreExact(image, v, front, e);
      OrphanEventsAre(image, v, c, e);
    }
  }
}
