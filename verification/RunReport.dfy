/** What a whole run reports, from the partition table down to every entry, and
    what holds of every such report. */
module RunReport {
  import opened ArtifactPath
  import opened DirectoryWalk
  import opened Events
  import opened Evidence
  import opened Fat
  import opened Fat32
  import opened FatEnumerate
  import opened FatLayout
  import opened Filesystems
  import opened Machine
  import opened OrphanSearch
  import opened Partition
  import opened Session
  import opened Trace
  import opened Wrappers

  // --- One volume ---------------------------------------------------------

  /** A volume whose root was not read, or one walked to the end and searched,
      with what was reported of each entry listed. */
  datatype RootReport =
    | RootNotRead(error: DirectoryError)
    | RootWalked(walk: Walk, stop: Option<(u32, DirectoryError)>, told: seq<seq<Event>>)

  ghost function RootReading(image: seq<u8>, v: Volume): Result<Enumeration, DirectoryError>
    requires v.Sound()
  {
    Enumerated(image, v, v.boot.rootCluster, Follow)
  }

  ghost function RootEvents(image: seq<u8>, v: Volume, r: RootReport): seq<Event>
    requires v.Sound()
  {
    match r
    case RootNotRead(e) => [RootDirectoryUnread(e)]
    case RootWalked(w, stop, _) => Reports(w) + SearchEvents(image, v, Seen(w), Given(w), stop)
  }

  // Everything reported of a volume, in order: each directory's entries are
  // reported on before the next directory is.
  ghost function RootTrace(image: seq<u8>, v: Volume, r: RootReport): seq<Event>
    requires v.Sound()
  {
    if r.RootWalked? then Woven(RootEvents(image, v, r), r.told) else RootEvents(image, v, r)
  }

  // Every artifact asked for, in order: one for each run reported free.
  ghost function RootAsked(options: Options, partition: u8, r: RootReport): seq<Artifact> {
    if r.RootWalked? then Requested(options, partition, Flat(r.told)) else []
  }

  // The walk is a finished run from the root the evidence holds, the search
  // stops only where a read failed, and every entry listed is reported on.
  ghost predicate RootOk(image: seq<u8>, v: Volume, partition: u8, faultless: bool, options: Options, r: RootReport)
    requires v.Sound()
  {
    match r
    case RootNotRead(e) => RootReading(image, v) == Failure(e) || (!faultless && e.Unreadable?)
    case RootWalked(w, stop, told) =>
      && RootReading(image, v).Success? && w.root == RootReading(image, v).value.directory
      && IsRun(image, v, faultless, w) && Finished(w)
      && (stop.Some? ==> !faultless && v.HasCluster(stop.value.0) && stop.value.1.Unreadable?)
      && Told(image, v, partition, faultless, options, SubjectsOf(RootEvents(image, v, r)), told)
  }

  // --- One partition ------------------------------------------------------

  datatype PartitionReport =
    | PartitionNotRead
    | PartitionRead(root: Option<RootReport>)

  ghost function BootRecord(image: seq<u8>, p: MbrPartition): (s: seq<u8>)
    ensures |s| == VBR_SIZE
  {
    Slice(image, p.startLba * 512, VBR_SIZE)
  }

  // The volume a partition holds, where it holds one that is analysed.
  ghost function VolumeOf(image: seq<u8>, p: MbrPartition): (v: Option<Volume>)
    ensures v.Some? ==> v.value.Sound() && v.value.extent == VolumeExtent(p.startLba, p.sectorCount)
  {
    var s, extent := BootRecord(image, p), VolumeExtent(p.startLba, p.sectorCount);
    if IsFat32(Identify(s)) && ParseBootSector(s, extent).Success? then
      ParseIsSound(s, extent);
      Some(Volume(ParseBootSector(s, extent).value, extent))
    else None
  }

  predicate IsFat32(id: Identification) { id.Identified? && id.filesystem.Fat32? }

  ghost function PartitionTrace(image: seq<u8>, p: MbrPartition, r: PartitionReport): seq<Event> {
    if r.PartitionNotRead? then [PartitionUnread(p)]
    else [PartitionIdentified(p, Identify(BootRecord(image, p)))] + BootTrace(image, p, r.root)
  }

  ghost function BootTrace(image: seq<u8>, p: MbrPartition, root: Option<RootReport>): seq<Event> {
    var s := BootRecord(image, p);
    if !IsFat32(Identify(s)) then []
    else
      match ParseBootSector(s, VolumeExtent(p.startLba, p.sectorCount))
      case Failure(e) => [BootSectorRejected(e)]
      case Success(boot) =>
        [BootSectorFound(boot)] +
        if root.Some? && VolumeOf(image, p).Some? then RootTrace(image, VolumeOf(image, p).value, root.value) else []
  }

  ghost function PartitionAsked(options: Options, p: MbrPartition, r: PartitionReport): seq<Artifact> {
    if r.PartitionRead? && r.root.Some? then RootAsked(options, p.index, r.root.value) else []
  }

  // Whether no read of a partition can fail.
  ghost predicate Served(image: seq<u8>, reliable: bool, p: MbrPartition) {
    reliable && p.Extent().FitsIn(|image|)
  }

  ghost predicate PartitionOk(image: seq<u8>, reliable: bool, options: Options, p: MbrPartition, r: PartitionReport) {
    if r.PartitionNotRead? then !Served(image, reliable, p)
    else
      && (r.root.Some? <==> VolumeOf(image, p).Some?)
      && (r.root.Some? ==>
            RootOk(image, VolumeOf(image, p).value, p.index, Served(image, reliable, p), options, r.root.value))
  }

  // --- One run ------------------------------------------------------------

  datatype RunReport =
    | TableNotRead
    | TableRead(partitions: seq<PartitionReport>)

  ghost function TableIn(image: seq<u8>, length: u64): Result<ParseOutcome, ParseError> {
    TableOf(Slice(image, 0, SECTOR_SIZE), length / 512)
  }

  // The partitions a run goes through.
  ghost function Partitions(image: seq<u8>, length: u64): seq<MbrPartition> {
    var t := TableIn(image, length);
    if t.Success? && t.value.table.Mbr? then t.value.table.partitions else []
  }

  ghost function ListedEvents(ps: seq<MbrPartition>): seq<Event> {
    seq(|ps|, i requires 0 <= i < |ps| => PartitionListed(ps[i]))
  }

  ghost function EachTrace(image: seq<u8>, ps: seq<MbrPartition>, rs: seq<PartitionReport>): seq<Event>
    requires |rs| <= |ps|
  {
    if rs == [] then []
    else
      var n := |rs| - 1;
      EachTrace(image, ps, rs[..n]) + PartitionTrace(image, ps[n], rs[n])
  }

  ghost function EachAsked(options: Options, ps: seq<MbrPartition>, rs: seq<PartitionReport>): seq<Artifact>
    requires |rs| <= |ps|
  {
    if rs == [] then []
    else
      var n := |rs| - 1;
      EachAsked(options, ps, rs[..n]) + PartitionAsked(options, ps[n], rs[n])
  }

  ghost function TableTrace(image: seq<u8>, table: PartitionTable, rs: seq<PartitionReport>): seq<Event>
    requires table.Mbr? ==> |rs| <= |table.partitions|
  {
    match table
    case GptProtective => [GptDetected]
    case Mbr(signature, ps) =>
      [DiskSignature(signature)] + (ListedEvents(ps) + [PartitionsListed]) + EachTrace(image, ps, rs)
  }

  ghost function AnomalyEvents(anomalies: seq<Anomaly>): seq<Event> {
    if anomalies == [] then [] else [Anomalies(anomalies)]
  }

  // Everything a run reports, in order.
  ghost function RunTrace(image: seq<u8>, length: u64, r: RunReport): seq<Event>
    requires r.TableRead? ==> |r.partitions| == |Partitions(image, length)|
  {
    if r.TableNotRead? then [TableUnread]
    else
      match TableIn(image, length)
      case Failure(e) => [TableRejected(e)]
      case Success(o) => TableTrace(image, o.table, r.partitions) + AnomalyEvents(o.anomalies)
  }

  // Every artifact it asks for, in order.
  ghost function RunAsked(image: seq<u8>, length: u64, options: Options, r: RunReport): seq<Artifact>
    requires r.TableRead? ==> |r.partitions| == |Partitions(image, length)|
  {
    if r.TableNotRead? then [] else EachAsked(options, Partitions(image, length), r.partitions)
  }

  ghost predicate RunOk(image: seq<u8>, length: u64, reliable: bool, options: Options, r: RunReport) {
    if r.TableNotRead? then !(reliable && SECTOR_SIZE <= |image|)
    else EachOk(image, reliable, options, Partitions(image, length), r.partitions)
  }

  ghost predicate EachOk(image: seq<u8>, reliable: bool, options: Options,
                         ps: seq<MbrPartition>, rs: seq<PartitionReport>)
  {
    |rs| == |ps| && forall i :: 0 <= i < |rs| ==> PartitionOk(image, reliable, options, ps[i], rs[i])
  }

  // The partitions a run goes through lie inside the measured image, each
  // under an index of its own.
  lemma ListedPartitions(image: seq<u8>, length: u64)
    ensures var ps := Partitions(image, length);
      && (forall i :: 0 <= i < |ps| ==> Held(ps[i], length / 512))
      && (forall i, j :: 0 <= i < j < |ps| ==> ps[i].index < ps[j].index)
  {
    hide Held;
    ListedAreHeld(Slice(image, 0, SECTOR_SIZE), length / 512, ENTRY_COUNT);
  }

  // A partition the table lists lies inside the image, and holds a sector.
  lemma HeldFits(p: MbrPartition, length: u64)
    requires Held(p, length / 512)
    ensures forall n: nat :: length <= n ==> p.Extent().FitsIn(n) && p.startLba * 512 + 512 <= n
    ensures forall n: nat :: p.Extent().FitsIn(n) ==> p.startLba * 512 + 512 <= n
  {
  }
}
