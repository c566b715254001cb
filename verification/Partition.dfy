/** The MBR partition table: which declared extents the image really holds. */
module Partition {
  import opened Filesystems
  import opened Machine
  import opened Wrappers

  const SECTOR_SIZE: nat := 512
  const TABLE_OFFSET: nat := 0x1BE
  const SIGNATURE_OFFSET: nat := 0x1FE
  const DISK_SIGNATURE_OFFSET: nat := 0x1B8
  const ENTRY_SIZE: nat := 16
  const ENTRY_COUNT: nat := 4
  const TYPE_GPT_PROTECTIVE: u8 := 0xEE
  const TYPE_UNUSED: u8 := 0x00

  datatype MbrPartition = MbrPartition(
      index: u8, bootIndicator: u8, partitionType: u8, startLba: u32, sectorCount: u32)
  {
    function StartByte(): u64 { startLba * 512 }

    function Extent(): VolumeExtent { VolumeExtent(startLba, sectorCount) }

    predicate Bootable() { bootIndicator == 0x80 }

    function EndLba(): u64 { startLba + sectorCount }
  }

  datatype PartitionTable =
    | Mbr(diskSignature: u32, partitions: seq<MbrPartition>)
    | GptProtective

  datatype Anomaly =
    | InvalidBootIndicator(index: u8, value: u8)
    | MultipleBootablePartitions(count: nat)
    | OverlappingPartitions(first: u8, second: u8)
    | NonZeroUnusedEntry(index: u8)
    | EntriesOutOfOrder
    | PartitionBeyondEnd(index: u8, startLba: u32, sectorCount: u32, imageSectors: u64)
    | ZeroLengthPartition(index: u8, partitionType: u8)
  {
    // Whether it says an entry was left out of the table.
    predicate Drops() { PartitionBeyondEnd? || ZeroLengthPartition? }
  }

  datatype ParseError =
    | ShortSector(supplied: nat)
    | MissingSignature(first: u8, second: u8)
    | LengthOverflow(index: u8, startLba: u32, sectorCount: u32)

  datatype ParseOutcome = ParseOutcome(table: PartitionTable, anomalies: seq<Anomaly>)

  // The entry in slot `slot`, as its bytes declare it.
  function Declared(sector: seq<u8>, slot: nat): MbrPartition
    requires |sector| >= SECTOR_SIZE && slot < ENTRY_COUNT
  {
    var base := TABLE_OFFSET + slot * ENTRY_SIZE;
    MbrPartition(slot + 1, sector[base], sector[base + 4], LeU32(sector, base + 8), LeU32(sector, base + 12))
  }

  predicate Used(p: MbrPartition) { p.partitionType != TYPE_UNUSED }

  predicate Held(p: MbrPartition, imageSectors: u64) {
    p.sectorCount > 0 && p.startLba + p.sectorCount <= imageSectors
  }

  // The used entries among the first `n` slots that the image holds.
  function Listed(sector: seq<u8>, imageSectors: u64, n: nat): seq<MbrPartition>
    requires |sector| >= SECTOR_SIZE && n <= ENTRY_COUNT
  {
    if n == 0 then []
    else
      var p := Declared(sector, n - 1);
      Listed(sector, imageSectors, n - 1) + if Used(p) && Held(p, imageSectors) then [p] else []
  }

  predicate AllZero(sector: seq<u8>, slot: nat)
    requires |sector| >= SECTOR_SIZE && slot < ENTRY_COUNT
  {
    var raw := sector[TABLE_OFFSET + slot * ENTRY_SIZE..TABLE_OFFSET + (slot + 1) * ENTRY_SIZE];
    forall i :: 0 <= i < |raw| ==> raw[i] == 0
  }

  // What is odd about one entry, if anything.
  function SlotAnomaly(sector: seq<u8>, imageSectors: u64, slot: nat): seq<Anomaly>
    requires |sector| >= SECTOR_SIZE && slot < ENTRY_COUNT
  {
    var p := Declared(sector, slot);
    if !Used(p) then if AllZero(sector, slot) then [] else [NonZeroUnusedEntry(p.index)]
    else if p.sectorCount == 0 then [ZeroLengthPartition(p.index, p.partitionType)]
    else if !Held(p, imageSectors) then [PartitionBeyondEnd(p.index, p.startLba, p.sectorCount, imageSectors)]
    else if p.bootIndicator != 0x00 && p.bootIndicator != 0x80 then
      [InvalidBootIndicator(p.index, p.bootIndicator)]
    else []
  }

  function SlotAnomalies(sector: seq<u8>, imageSectors: u64, n: nat): seq<Anomaly>
    requires |sector| >= SECTOR_SIZE && n <= ENTRY_COUNT
  {
    if n == 0 then [] else SlotAnomalies(sector, imageSectors, n - 1) + SlotAnomaly(sector, imageSectors, n - 1)
  }

  // What is odd about the listed partitions together.

  ghost function BootableAmong(ps: seq<MbrPartition>, n: nat): nat
    requires n <= |ps|
  {
    if n == 0 then 0 else BootableAmong(ps, n - 1) + if ps[n - 1].Bootable() then 1 else 0
  }

  predicate Overlap(a: MbrPartition, b: MbrPartition) { a.startLba < b.EndLba() && b.startLba < a.EndLba() }

  // The partitions before the `n`-th and after the `i`-th that overlap that.
  ghost function OverlapsOf(ps: seq<MbrPartition>, i: nat, n: nat): seq<Anomaly>
    requires i < n <= |ps|
  {
    if n == i + 1 then []
    else
      OverlapsOf(ps, i, n - 1) +
      if Overlap(ps[i], ps[n - 1]) then [OverlappingPartitions(ps[i].index, ps[n - 1].index)] else []
  }

  ghost function Overlaps(ps: seq<MbrPartition>, n: nat): seq<Anomaly>
    requires n <= |ps|
  {
    if n == 0 then [] else Overlaps(ps, n - 1) + OverlapsOf(ps, n - 1, |ps|)
  }

  predicate InOrder(ps: seq<MbrPartition>) { forall k :: 0 < k < |ps| ==> ps[k - 1].startLba <= ps[k].startLba }

  ghost function TableAnomalies(ps: seq<MbrPartition>): seq<Anomaly> {
    (if BootableAmong(ps, |ps|) > 1 then [MultipleBootablePartitions(BootableAmong(ps, |ps|))] else [])
    + Overlaps(ps, |ps|)
    + if InOrder(ps) then [] else [EntriesOutOfOrder]
  }

  predicate Protective(sector: seq<u8>, slot: nat)
    requires |sector| >= SECTOR_SIZE && slot < ENTRY_COUNT
  {
    Declared(sector, slot).partitionType == TYPE_GPT_PROTECTIVE
  }

  // The first protective slot among the first `n`, or `n`.
  function FirstProtective(sector: seq<u8>, n: nat): (k: nat)
    requires |sector| >= SECTOR_SIZE && n <= ENTRY_COUNT
    ensures k <= n && (k < n ==> Protective(sector, k))
    ensures forall i :: 0 <= i < k ==> !Protective(sector, i)
  {
    if n == 0 then 0
    else
      var k := FirstProtective(sector, n - 1);
      if k < n - 1 || Protective(sector, n - 1) then k else n
  }

  // What a sector's table says: the table it holds, and what is odd about it,
  // up to the entry that showed it to be a protective one.
  ghost function TableOf(sector: seq<u8>, imageSectors: u64): Result<ParseOutcome, ParseError> {
    if |sector| < SECTOR_SIZE then Failure(ShortSector(|sector|))
    else if sector[0x1FE] != 0x55 || sector[0x1FF] != 0xAA then
      Failure(MissingSignature(sector[0x1FE], sector[0x1FF]))
    else
      var k := FirstProtective(sector, ENTRY_COUNT);
      var noted := SlotAnomalies(sector, imageSectors, k);
      var listed := Listed(sector, imageSectors, ENTRY_COUNT);
      Success(
        if k < ENTRY_COUNT then ParseOutcome(GptProtective, noted)
        else ParseOutcome(Mbr(LeU32(sector, DISK_SIGNATURE_OFFSET), listed), noted + TableAnomalies(listed)))
  }

  method ParseMbr(sector: seq<u8>, imageSectors: u64) returns (r: Result<ParseOutcome, ParseError>)
    ensures r == TableOf(sector, imageSectors)
  {
    hide Declared, TableAnomalies, SlotAnomaly, LeU32, Held;
    if |sector| < SECTOR_SIZE {
      return Failure(ShortSector(|sector|));
    }
    if sector[SIGNATURE_OFFSET] != 0x55 || sector[SIGNATURE_OFFSET + 1] != 0xAA {
      return Failure(MissingSignature(sector[SIGNATURE_OFFSET], sector[SIGNATURE_OFFSET + 1]));
    }

    var anomalies, partitions := [], [];
    for slot := 0 to ENTRY_COUNT
      invariant forall i :: 0 <= i < slot ==> !Protective(sector, i)
      invariant FirstProtective(sector, slot) == slot
      invariant partitions == Listed(sector, imageSectors, slot)
      invariant anomalies == SlotAnomalies(sector, imageSectors, slot)
    {
      var p := Declared(sector, slot);
      if p.partitionType == TYPE_GPT_PROTECTIVE {
        ProtectiveFirst(sector, slot);
        return Success(ParseOutcome(GptProtective, anomalies));
      }
      if p.partitionType != TYPE_UNUSED && p.sectorCount != 0 && CheckedAddU64(p.startLba, p.sectorCount).None? {
        return Failure(LengthOverflow(p.index, p.startLba, p.sectorCount));
      }
      var noted, whole := ReadSlot(sector, imageSectors, slot, p);
      anomalies := anomalies + noted;
      if whole {
        partitions := partitions + [p];
      }
    }
    var together := CompareListed(partitions);
    r := Success(ParseOutcome(Mbr(LeU32(sector, DISK_SIGNATURE_OFFSET), partitions), anomalies + together));
  }

  // One entry that is not a protective one, and whose end can be counted:
  // whether it is listed, and what is odd about it.
  method ReadSlot(sector: seq<u8>, imageSectors: u64, slot: nat, p: MbrPartition)
    returns (noted: seq<Anomaly>, whole: bool)
    requires |sector| >= SECTOR_SIZE && slot < ENTRY_COUNT && p == Declared(sector, slot)
    ensures noted == SlotAnomaly(sector, imageSectors, slot)
    ensures whole <==> Used(p) && Held(p, imageSectors)
  {
    hide Declared, AllZero;
    DeclaredIndex(sector, slot);
    if p.partitionType == TYPE_UNUSED {
      return if AllZero(sector, slot) then [] else [NonZeroUnusedEntry(p.index)], false;
    }
    if p.sectorCount == 0 {
      return [ZeroLengthPartition(p.index, p.partitionType)], false;
    }
    if p.EndLba() > imageSectors {
      return [PartitionBeyondEnd(p.index, p.startLba, p.sectorCount, imageSectors)], false;
    }
    var odd := p.bootIndicator != 0x00 && p.bootIndicator != 0x80;
    return if odd then [InvalidBootIndicator(p.index, p.bootIndicator)] else [], true;
  }

  // What the listed partitions say only together.
  method CompareListed(ps: seq<MbrPartition>) returns (anomalies: seq<Anomaly>)
    ensures anomalies == TableAnomalies(ps)
  {
    hide BootableAmong, Overlaps, InOrder;
    var bootable := CountBootable(ps);
    anomalies := if bootable > 1 then [MultipleBootablePartitions(bootable)] else [];
    var overlaps := FindOverlaps(ps);
    anomalies := anomalies + overlaps;
    if !InOrder(ps) {
      anomalies := anomalies + [EntriesOutOfOrder];
    }
  }

  method CountBootable(ps: seq<MbrPartition>) returns (bootable: nat)
    ensures bootable == BootableAmong(ps, |ps|)
  {
    bootable := 0;
    for i := 0 to |ps|
      invariant bootable == BootableAmong(ps, i)
    {
      if ps[i].Bootable() {
        bootable := bootable + 1;
      }
    }
  }

  method FindOverlaps(ps: seq<MbrPartition>) returns (anomalies: seq<Anomaly>)
    ensures anomalies == Overlaps(ps, |ps|)
  {
    hide Overlap;
    anomalies := [];
    for i := 0 to |ps|
      invariant anomalies == Overlaps(ps, i)
    {
      for j := i + 1 to |ps|
        invariant anomalies == Overlaps(ps, i) + OverlapsOf(ps, i, j)
      {
        if Overlap(ps[i], ps[j]) {
          anomalies := anomalies + [OverlappingPartitions(ps[i].index, ps[j].index)];
        }
      }
    }
  }

  lemma ProtectiveFirst(sector: seq<u8>, slot: nat)
    requires |sector| >= SECTOR_SIZE && slot < ENTRY_COUNT && Protective(sector, slot)
    requires forall i :: 0 <= i < slot ==> !Protective(sector, i)
    ensures FirstProtective(sector, ENTRY_COUNT) == slot
  {
    hide Protective;
  }

  // How many entries a list of anomalies says were left out.
  function DropCount(anomalies: seq<Anomaly>): nat {
    if anomalies == [] then 0
    else DropCount(anomalies[..|anomalies| - 1]) + if anomalies[|anomalies| - 1].Drops() then 1 else 0
  }

  lemma {:induction false} DropCountSplits(a: seq<Anomaly>, b: seq<Anomaly>)
    ensures DropCount(a + b) == DropCount(a) + DropCount(b)
  {
    if b == [] {
      assert a + b == a;
    } else {
      DropCountSplits(a, b[..|b| - 1]);
      assert (a + b)[..|a + b| - 1] == a + b[..|b| - 1];
    }
  }

  lemma {:induction false} DropCountNone(anomalies: seq<Anomaly>)
    requires forall i :: 0 <= i < |anomalies| ==> !anomalies[i].Drops()
    ensures DropCount(anomalies) == 0
  {
    if anomalies != [] { DropCountNone(anomalies[..|anomalies| - 1]); }
  }

  /** Every listed partition is a used entry whose whole, non-empty extent the
      image holds, the indices strictly increase, and every used entry is
      either listed or noted as dropped. */
  lemma {:induction false} ListedAreHeld(sector: seq<u8>, imageSectors: u64, n: nat)
    requires |sector| >= SECTOR_SIZE && n <= ENTRY_COUNT
    ensures var ps := Listed(sector, imageSectors, n);
      && (forall i :: 0 <= i < |ps| ==> Used(ps[i]) && Held(ps[i], imageSectors) && 1 <= ps[i].index <= n)
      && (forall i, j :: 0 <= i < j < |ps| ==> ps[i].index < ps[j].index)
      && |ps| + DropCount(SlotAnomalies(sector, imageSectors, n)) == UsedCount(sector, n)
  {
    hide Declared, SlotAnomaly, DropCount;
    if n == 0 {
      DropCountNone([]);
    } else {
      ListedAreHeld(sector, imageSectors, n - 1);
      DeclaredIndex(sector, n - 1);
      DropCountSplits(SlotAnomalies(sector, imageSectors, n - 1), SlotAnomaly(sector, imageSectors, n - 1));
      SlotDrops(sector, imageSectors, n - 1);
    }
  }

  lemma SlotDrops(sector: seq<u8>, imageSectors: u64, slot: nat)
    requires |sector| >= SECTOR_SIZE && slot < ENTRY_COUNT
    ensures DropCount(SlotAnomaly(sector, imageSectors, slot))
         == var p := Declared(sector, slot); if Used(p) && !Held(p, imageSectors) then 1 else 0
  {
    hide Declared, AllZero;
    var noted := SlotAnomaly(sector, imageSectors, slot);
    if noted != [] { assert noted[..0] == []; }
  }

  /** The anomalies of a whole table count its dropped entries and no other:
      what partitions say only together never drops one. */
  lemma DropsAreUnlistedEntries(sector: seq<u8>, imageSectors: u64)
    requires TableOf(sector, imageSectors).Success? && TableOf(sector, imageSectors).value.table.Mbr?
    ensures var o := TableOf(sector, imageSectors).value;
      |o.table.partitions| + DropCount(o.anomalies) == UsedCount(sector, ENTRY_COUNT)
  {
    hide Declared, SlotAnomaly, Listed, SlotAnomalies, TableAnomalies, DropCount, UsedCount;
    var ps := Listed(sector, imageSectors, ENTRY_COUNT);
    ListedAreHeld(sector, imageSectors, ENTRY_COUNT);
    DropCountSplits(SlotAnomalies(sector, imageSectors, ENTRY_COUNT), TableAnomalies(ps));
    TogetherDropNone(ps);
  }

  lemma TogetherDropNone(ps: seq<MbrPartition>)
    ensures DropCount(TableAnomalies(ps)) == 0
  {
    hide Overlaps;
    OverlapsDropNone(ps, |ps|);
    DropCountNone(TableAnomalies(ps));
  }

  lemma {:induction false} OverlapsDropNone(ps: seq<MbrPartition>, n: nat)
    requires n <= |ps|
    ensures forall i :: 0 <= i < |Overlaps(ps, n)| ==> !Overlaps(ps, n)[i].Drops()
  {
    if n > 0 {
      OverlapsDropNone(ps, n - 1);
      OverlapsOfDropNone(ps, n - 1, |ps|);
    }
  }

  lemma {:induction false} OverlapsOfDropNone(ps: seq<MbrPartition>, i: nat, n: nat)
    requires i < n <= |ps|
    ensures forall k :: 0 <= k < |OverlapsOf(ps, i, n)| ==> !OverlapsOf(ps, i, n)[k].Drops()
  {
    if n > i + 1 { OverlapsOfDropNone(ps, i, n - 1); }
  }

  ghost predicate NotedOverlap(a: Anomaly, ps: seq<MbrPartition>, i: nat, j: nat)
    requires i < j < |ps|
  {
    a == OverlappingPartitions(ps[i].index, ps[j].index) && Overlap(ps[i], ps[j])
  }

  lemma {:induction false} OverlapsOfAreExact(ps: seq<MbrPartition>, i: nat, n: nat)
    requires i < n <= |ps|
    ensures forall a :: a in OverlapsOf(ps, i, n) <==> exists j :: i < j < n && NotedOverlap(a, ps, i, j)
  {
    if n > i + 1 {
      OverlapsOfAreExact(ps, i, n - 1);
      forall a ensures a in OverlapsOf(ps, i, n) <==> exists j :: i < j < n && NotedOverlap(a, ps, i, j) {
        if a in OverlapsOf(ps, i, n - 1) {
          var j :| i < j < n - 1 && NotedOverlap(a, ps, i, j);
        }
        if NotedOverlap(a, ps, i, n - 1) {
          assert a in OverlapsOf(ps, i, n);
        }
      }
    }
  }

  /** Overlaps are noted for exactly the pairs of listed partitions that share
      a sector. */
  lemma {:induction false} OverlapsAreExact(ps: seq<MbrPartition>, n: nat)
    requires n <= |ps|
    ensures forall a :: a in Overlaps(ps, n) <==> exists i, j :: 0 <= i < n && i < j < |ps| && NotedOverlap(a, ps, i, j)
  {
    hide NotedOverlap;
    if n > 0 {
      OverlapsAreExact(ps, n - 1);
      OverlapsOfAreExact(ps, n - 1, |ps|);
    }
  }

  predicate Covers(p: MbrPartition, s: nat) { p.startLba <= s < p.EndLba() }

  lemma OverlapIsSharedSector(a: MbrPartition, b: MbrPartition)
    requires a.sectorCount > 0 && b.sectorCount > 0
    ensures Overlap(a, b) <==> exists s: nat :: Covers(a, s) && Covers(b, s)
  {
    if Overlap(a, b) {
      var s: nat := if a.startLba <= b.startLba then b.startLba else a.startLba;
      assert Covers(a, s) && Covers(b, s);
    }
  }

  lemma DeclaredIndex(sector: seq<u8>, slot: nat)
    requires |sector| >= SECTOR_SIZE && slot < ENTRY_COUNT
    ensures Declared(sector, slot).index == slot + 1
  {
  }

  /** An entry is listed exactly when it is used and the image holds it. */
  lemma {:induction false} ListedIff(sector: seq<u8>, imageSectors: u64, n: nat, k: nat)
    requires |sector| >= SECTOR_SIZE && k < n <= ENTRY_COUNT
    ensures var p := Declared(sector, k);
      p in Listed(sector, imageSectors, n) <==> Used(p) && Held(p, imageSectors)
  {
    hide Declared;
    if k < n - 1 {
      ListedIff(sector, imageSectors, n - 1, k);
      DeclaredIndex(sector, k);
      DeclaredIndex(sector, n - 1);
    } else {
      ListedAreHeld(sector, imageSectors, n - 1);
      DeclaredIndex(sector, k);
    }
  }

  ghost function UsedCount(sector: seq<u8>, n: nat): nat
    requires |sector| >= SECTOR_SIZE && n <= ENTRY_COUNT
  {
    if n == 0 then 0 else UsedCount(sector, n - 1) + if Used(Declared(sector, n - 1)) then 1 else 0
  }
}
