/** The partition table as bytes: what a sector's table comes to, read off the
    sector at the offsets an MBR has. */
module TableBytes {
  import opened Machine
  import opened Partition
  import opened Wrappers

  // Slot k is the sixteen bytes from here on.
  ghost function At(k: nat): nat { 0x1BE + 16 * k }

  ghost function TypeByte(sector: seq<u8>, k: nat): u8
    requires |sector| >= 512 && k < 4
  {
    sector[At(k) + 4]
  }

  ghost function BootByte(sector: seq<u8>, k: nat): u8
    requires |sector| >= 512 && k < 4
  {
    sector[At(k)]
  }

  ghost function Start(sector: seq<u8>, k: nat): nat
    requires |sector| >= 512 && k < 4
  {
    Number4(sector, At(k) + 8)
  }

  ghost function Length(sector: seq<u8>, k: nat): nat
    requires |sector| >= 512 && k < 4
  {
    Number4(sector, At(k) + 12)
  }

  // A partition as its slot's bytes state it.
  ghost predicate StatedAt(sector: seq<u8>, k: nat, p: MbrPartition)
    requires |sector| >= 512 && k < 4
  {
    && p.index == k + 1 && p.bootIndicator == BootByte(sector, k) && p.partitionType == TypeByte(sector, k)
    && p.startLba == Start(sector, k) && p.sectorCount == Length(sector, k)
  }

  ghost predicate HasTable(sector: seq<u8>) { |sector| >= 512 && sector[510] == 0x55 && sector[511] == 0xAA }

  ghost predicate LooksProtective(sector: seq<u8>)
    requires |sector| >= 512
  {
    exists k :: 0 <= k < 4 && TypeByte(sector, k) == 0xEE
  }

  // The image holds all of a slot's extent, and there is one.
  ghost predicate Whole(sector: seq<u8>, imageSectors: u64, k: nat)
    requires |sector| >= 512 && k < 4
  {
    Length(sector, k) > 0 && Start(sector, k) + Length(sector, k) <= imageSectors
  }

  lemma DeclaredIsStated(sector: seq<u8>, k: nat)
    requires |sector| >= 512 && k < 4
    ensures StatedAt(sector, k, Declared(sector, k))
  {
    hide LeU32, Number4;
    FieldsAreNumbers(sector, At(k) + 8);
    FieldsAreNumbers(sector, At(k) + 12);
  }

  lemma ProtectiveIsLook(sector: seq<u8>)
    requires |sector| >= 512
    ensures FirstProtective(sector, ENTRY_COUNT) < ENTRY_COUNT <==> LooksProtective(sector)
  {
    hide Declared;
    forall k: nat | k < 4 ensures Protective(sector, k) <==> TypeByte(sector, k) == 0xEE {
      DeclaredIsStated(sector, k);
    }
    var k := FirstProtective(sector, ENTRY_COUNT);
    if k < ENTRY_COUNT { assert TypeByte(sector, k) == 0xEE; }
  }

  /** A sector holds a table exactly when it ends in 55 AA; the table is a
      protective one exactly when some slot's type byte is EE. */
  lemma TableIsRecognised(sector: seq<u8>, imageSectors: u64)
    ensures TableOf(sector, imageSectors).Success? <==> HasTable(sector)
    ensures !HasTable(sector) ==>
      TableOf(sector, imageSectors).error
      == if |sector| < 512 then ShortSector(|sector|) else MissingSignature(sector[510], sector[511])
    ensures HasTable(sector) ==>
      (TableOf(sector, imageSectors).value.table.GptProtective? <==> LooksProtective(sector))
  {
    hide Listed, SlotAnomalies, TableAnomalies, FirstProtective;
    if HasTable(sector) { ProtectiveIsLook(sector); }
  }

  /** What is listed is what the bytes state: every partition is some slot's,
      field by field, and a slot's is listed exactly when its type byte is not
      zero and the image holds all of its extent. */
  lemma ListedFromBytes(sector: seq<u8>, imageSectors: u64)
    requires HasTable(sector) && !LooksProtective(sector)
    ensures var table := TableOf(sector, imageSectors).value.table;
      && table.Mbr? && table.diskSignature == Number4(sector, 0x1B8)
      && (forall p :: p in table.partitions ==> 1 <= p.index <= 4 && StatedAt(sector, p.index - 1, p))
      && (forall k :: 0 <= k < 4 ==>
            (Declared(sector, k) in table.partitions
             <==> TypeByte(sector, k) != 0 && Whole(sector, imageSectors, k)))
  {
    hide Declared, SlotAnomalies, TableAnomalies, Listed, FirstProtective, StatedAt, LeU32, Number4;
    TableIsRecognised(sector, imageSectors);
    FieldsAreNumbers(sector, 0x1B8);
    var ps := Listed(sector, imageSectors, ENTRY_COUNT);
    ListedAreStated(sector, imageSectors, ENTRY_COUNT);
    forall k | 0 <= k < 4
      ensures Declared(sector, k) in ps <==> TypeByte(sector, k) != 0 && Whole(sector, imageSectors, k)
    {
      ListedIff(sector, imageSectors, ENTRY_COUNT, k);
      UsedAndHeld(sector, imageSectors, k);
    }
  }

  lemma UsedAndHeld(sector: seq<u8>, imageSectors: u64, k: nat)
    requires |sector| >= 512 && k < 4
    ensures Used(Declared(sector, k)) <==> TypeByte(sector, k) != 0
    ensures Held(Declared(sector, k), imageSectors) <==> Whole(sector, imageSectors, k)
  {
    hide Declared;
    DeclaredIsStated(sector, k);
  }

  lemma {:induction false} ListedAreStated(sector: seq<u8>, imageSectors: u64, n: nat)
    requires |sector| >= SECTOR_SIZE && n <= ENTRY_COUNT
    ensures forall p :: p in Listed(sector, imageSectors, n) ==> 1 <= p.index <= 4 && StatedAt(sector, p.index - 1, p)
  {
    hide Declared;
    if n > 0 {
      ListedAreStated(sector, imageSectors, n - 1);
      DeclaredIsStated(sector, n - 1);
    }
  }

  // --- What is noted ------------------------------------------------------

  // What one slot's bytes are noted for.
  ghost predicate NotedOf(sector: seq<u8>, imageSectors: u64, k: nat, a: Anomaly)
    requires |sector| >= 512 && k < 4
  {
    match a
    case NonZeroUnusedEntry(index) =>
      index == k + 1 && TypeByte(sector, k) == 0 && exists i :: At(k) <= i < At(k) + 16 && sector[i] != 0
    case ZeroLengthPartition(index, kind) =>
      index == k + 1 && kind == TypeByte(sector, k) != 0 && Length(sector, k) == 0
    case PartitionBeyondEnd(index, start, count, held) =>
      && index == k + 1 && TypeByte(sector, k) != 0 && held == imageSectors
      && start == Start(sector, k) && 0 < count == Length(sector, k) && start + count > imageSectors
    case InvalidBootIndicator(index, value) =>
      && index == k + 1 && TypeByte(sector, k) != 0 && Whole(sector, imageSectors, k)
      && value == BootByte(sector, k) && value != 0x00 && value != 0x80
    case _ => false
  }

  lemma SlotIsNoted(sector: seq<u8>, imageSectors: u64, k: nat, a: Anomaly)
    requires |sector| >= 512 && k < 4
    ensures a in SlotAnomaly(sector, imageSectors, k) <==> NotedOf(sector, imageSectors, k, a)
  {
    hide Declared, AllZero, Number4;
    DeclaredIsStated(sector, k);
    BlankSlot(sector, k);
  }

  lemma BlankSlot(sector: seq<u8>, k: nat)
    requires |sector| >= 512 && k < 4
    ensures AllZero(sector, k) <==> !exists i :: At(k) <= i < At(k) + 16 && sector[i] != 0
  {
    var raw := sector[At(k)..At(k) + 16];
    assert TABLE_OFFSET + k * ENTRY_SIZE == At(k) && TABLE_OFFSET + (k + 1) * ENTRY_SIZE == At(k) + 16;
    forall i | At(k) <= i < At(k) + 16 ensures sector[i] == raw[i - At(k)] {
    }
    if AllZero(sector, k) {
      assert forall i :: 0 <= i < 16 ==> raw[i] == 0;
    } else {
      var i :| 0 <= i < 16 && raw[i] != 0;
      assert sector[At(k) + i] != 0;
    }
  }

  lemma {:induction false} SlotsAreNoted(sector: seq<u8>, imageSectors: u64, n: nat, a: Anomaly)
    requires |sector| >= 512 && n <= 4
    ensures a in SlotAnomalies(sector, imageSectors, n)
       <==> exists k :: 0 <= k < n && NotedOf(sector, imageSectors, k, a)
  {
    hide SlotAnomaly, NotedOf;
    if n > 0 {
      SlotsAreNoted(sector, imageSectors, n - 1, a);
      SlotIsNoted(sector, imageSectors, n - 1, a);
    }
  }

  // What the listed partitions are noted for together.
  ghost predicate NotedTogether(ps: seq<MbrPartition>, a: Anomaly) {
    match a
    case MultipleBootablePartitions(count) => count > 1 && count == |BootablePlaces(ps)|
    case OverlappingPartitions(_, _) => exists i, j :: 0 <= i < j < |ps| && NotedOverlap(a, ps, i, j)
    case EntriesOutOfOrder => exists i, j :: 0 <= i < j < |ps| && ps[i].startLba > ps[j].startLba
    case _ => false
  }

  ghost function BootablePlaces(ps: seq<MbrPartition>): set<nat> { BootableBelow(ps, |ps|) }

  ghost function BootableBelow(ps: seq<MbrPartition>, n: nat): set<nat>
    requires n <= |ps|
  {
    set i: nat | i < n && ps[i].bootIndicator == 0x80
  }

  lemma {:induction false} BootableCount(ps: seq<MbrPartition>, n: nat)
    requires n <= |ps|
    ensures BootableAmong(ps, n) == |BootableBelow(ps, n)|
  {
    if n == 0 {
      assert BootableBelow(ps, 0) == {};
    } else {
      BootableCount(ps, n - 1);
      var less := BootableBelow(ps, n - 1);
      assert BootableBelow(ps, n) == if ps[n - 1].bootIndicator == 0x80 then less + {n - 1} else less;
    }
  }

  lemma OrderMeaning(ps: seq<MbrPartition>)
    ensures InOrder(ps) <==> forall i, j :: 0 <= i < j < |ps| ==> ps[i].startLba <= ps[j].startLba
  {
    if InOrder(ps) {
      forall i, j | 0 <= i < j < |ps| ensures ps[i].startLba <= ps[j].startLba { InOrderPair(ps, i, j); }
    }
  }

  lemma {:induction false} InOrderPair(ps: seq<MbrPartition>, i: nat, j: nat)
    requires InOrder(ps) && i <= j < |ps|
    ensures ps[i].startLba <= ps[j].startLba
  {
    if i < j { InOrderPair(ps, i, j - 1); }
  }

  lemma TogetherIsNoted(ps: seq<MbrPartition>, a: Anomaly)
    ensures a in TableAnomalies(ps) <==> NotedTogether(ps, a)
  {
    hide BootableAmong, Overlaps, InOrder, NotedOverlap;
    BootableCount(ps, |ps|);
    OverlapsAreExact(ps, |ps|);
    OverlapsAreOverlaps(ps);
    OrderMeaning(ps);
    if !InOrder(ps) {
      var i, j :| 0 <= i < j < |ps| && ps[i].startLba > ps[j].startLba;
    }
  }

  lemma OverlapsAreOverlaps(ps: seq<MbrPartition>)
    ensures forall a :: a in Overlaps(ps, |ps|) ==> a.OverlappingPartitions?
  {
    OverlapsAreExact(ps, |ps|);
  }

  /** Of a protective table only what comes before its first protective slot is
      noted. */
  lemma NotedBeforeProtective(sector: seq<u8>, imageSectors: u64, first: nat, a: Anomaly)
    requires HasTable(sector) && first < 4 && TypeByte(sector, first) == 0xEE
    requires forall k :: 0 <= k < first ==> TypeByte(sector, k) != 0xEE
    ensures var o := TableOf(sector, imageSectors).value;
      && o.table.GptProtective?
      && (a in o.anomalies <==> exists k :: 0 <= k < first && NotedOf(sector, imageSectors, k, a))
  {
    hide SlotAnomalies, TableAnomalies, Listed, FirstProtective, NotedOf, Declared;
    TableIsRecognised(sector, imageSectors);
    forall k: nat | k <= first { DeclaredIsStated(sector, k); }
    ProtectiveFirst(sector, first);
    SlotsAreNoted(sector, imageSectors, first, a);
  }

  /** What is noted of a table is exactly what its bytes are to be noted for. */
  lemma NotedFromBytes(sector: seq<u8>, imageSectors: u64, a: Anomaly)
    requires HasTable(sector) && !LooksProtective(sector)
    ensures var o := TableOf(sector, imageSectors).value;
      o.table.Mbr? &&
      (a in o.anomalies <==>
         (exists k :: 0 <= k < 4 && NotedOf(sector, imageSectors, k, a)) || NotedTogether(o.table.partitions, a))
  {
    hide SlotAnomalies, TableAnomalies, Listed, FirstProtective, NotedOf, NotedTogether;
    TableIsRecognised(sector, imageSectors);
    SlotsAreNoted(sector, imageSectors, 4, a);
    TogetherIsNoted(Listed(sector, imageSectors, ENTRY_COUNT), a);
  }
}
