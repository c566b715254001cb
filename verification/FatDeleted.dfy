/** Deleted directories: read from their first cluster alone, and only where
    that cluster is free and identifies itself. */
module FatDeleted {
  import opened Evidence
  import opened Fat
  import opened Fat32
  import opened FatDirectory
  import opened FatEnumerate
  import opened FatLayout
  import opened Machine
  import opened Wrappers

  datatype DeletedDirectoryRefusal = InUse(fatEntry: u32) | NoSelfEntry | NoParentEntry

  datatype DeletedDirectory =
    | Read(listing: Directory, mayContinue: bool)
    | Refused(reason: DeletedDirectoryRefusal)

  // The listing's own evidence that the cluster is a directory.
  function CheckDots(e: Enumeration, cluster: u32): DeletedDirectory {
    var entries := e.directory.entries;
    if !(|entries| > 0 && NamesItself(entries[0], cluster)) then Refused(NoSelfEntry)
    else if !(|entries| > 1 && NamesParent(entries[1])) then Refused(NoParentEntry)
    else Read(e.directory, !e.terminated)
  }

  // The fault-free answer.
  ghost function DeletedReading(image: seq<u8>, v: Volume, c: u32): Result<DeletedDirectory, DirectoryError> {
    if !v.HasCluster(c) then Failure(ClusterOutOfRange(c, v.boot.geometry.clusterCount))
    else if FatEntry(image, v, c) != 0 then Success(Refused(InUse(FatEntry(image, v, c))))
    else Success(CheckDots(ListingOf(image, v, [c]), c))
  }

  method EnumerateDeletedDirectory(reader: EvidenceReader, v: Volume, firstCluster: u32)
    returns (r: Result<DeletedDirectory, DirectoryError>)
    requires v.Sound()
    modifies reader
    ensures ReadsStayInside(reader, v)
    ensures Agrees(reader, v, r, DeletedReading(reader.image, v, firstCluster))
  {
    hide ListingOf, FatEntry, CheckDots;
    if firstCluster < FIRST_DATA_CLUSTER || firstCluster >= v.LastCluster() {
      return Failure(ClusterOutOfRange(firstCluster, v.boot.geometry.clusterCount));
    }
    var fatEntry :- ReadFatEntry(reader, v, v.boot.CurrentFat(), firstCluster);
    if fatEntry != 0 {
      return Success(Refused(InUse(fatEntry)));
    }
    var enumeration :- Enumerate(reader, v, firstCluster, FirstClusterOnly);
    r := Success(CheckDots(enumeration, firstCluster));
  }

  // The orphan search's first test, on 64 bytes.
  predicate DotsAt(raw: seq<u8>, cluster: u32)
    requires |raw| == 2 * ENTRY_BYTES
  {
    var first, second := Classify(raw[..32]), Classify(raw[32..]);
    && first.ShortName? && first.directory && first.rawName == DOT_NAME && first.firstCluster == cluster
    && second.ShortName? && second.directory && second.rawName == DOT_DOT_NAME
  }

  ghost predicate Begins(image: seq<u8>, v: Volume, c: u32)
    requires v.Sound() && v.HasCluster(c)
  {
    DotsAt(ClusterContent(image, v, c)[..64], c)
  }

  method BeginsDirectory(reader: EvidenceReader, v: Volume, cluster: u32)
    returns (r: Result<bool, DirectoryError>)
    requires v.Sound()
    modifies reader
    ensures ReadsStayInside(reader, v)
    ensures Agrees(reader, v, r,
      if v.HasCluster(cluster) then Success(Begins(reader.image, v, cluster))
      else Failure(ClusterOutOfRange(cluster, v.boot.geometry.clusterCount)))
  {
    hide DotsAt, ClusterContent;
    if cluster < FIRST_DATA_CLUSTER || cluster >= v.LastCluster() {
      return Failure(ClusterOutOfRange(cluster, v.boot.geometry.clusterCount));
    }
    var raw :- ReadCluster(reader, v, cluster, 2 * ENTRY_BYTES);
    r := Success(DotsAt(raw, cluster));
  }

  /** The 64-byte test accepts exactly what the full reading accepts of a free
      cluster: a cluster is read as a deleted directory if and only if it is
      free and begins with `.` naming itself and `..`. */
  lemma FirstTestIsExact(image: seq<u8>, v: Volume, c: u32)
    requires v.Sound() && v.HasCluster(c)
    ensures var full := DeletedReading(image, v, c);
      full.Success? && (full.value.Read? <==> FatEntry(image, v, c) == 0 && Begins(image, v, c))
  {
    hide Classify, CheckDots;
    var content := ClusterContent(image, v, c);
    var slots := SlotsIn(content, c);
    assert SlotsOf(image, v, [c]) == slots by { assert [c][..0] == []; }
    assert RawSlot(content, 0) == content[..64][..32] && RawSlot(content, 1) == content[..64][32..];
    DotsAreTheFirstSlots(slots, ListingOf(image, v, [c]), c);
  }

  lemma DotsAreTheFirstSlots(slots: seq<Slot>, e: Enumeration, c: u32)
    requires |slots| >= 2 && slots[0].entry.slot == 0 && slots[1].entry.slot == 1
    requires e.directory.entries == Entries(Claimed(slots, false))
    ensures CheckDots(e, c).Read? <==> NamesItself(slots[0].entry, c) && NamesParent(slots[1].entry)
  {
    FirstTerminatorMeaning(slots);
  }

  /** The reading is of the first cluster and nothing else, and says it may
      continue exactly when no slot of that cluster ends the listing. */
  lemma DeletedReadingIsOneCluster(image: seq<u8>, v: Volume, c: u32)
    requires DeletedReading(image, v, c).Success? && DeletedReading(image, v, c).value.Read?
    ensures var r := DeletedReading(image, v, c).value;
      && r.listing.clusters == [c]
      && (r.mayContinue <==> forall s :: s in SlotsIn(ClusterContent(image, v, c), c) ==> !s.Ends())
  {
    var slots := SlotsIn(ClusterContent(image, v, c), c);
    assert SlotsOf(image, v, [c]) == slots by { assert [c][..0] == []; }
    FirstTerminatorMeaning(slots);
  }
}
