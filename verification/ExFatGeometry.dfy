/** exFAT geometry: which combinations of fields a volume may declare. */
module ExFatGeometry {
  import opened ExFat
  import opened Machine
  import opened Wrappers

  // Sector and cluster sizes the shifts can give.
  lemma ShiftsInRange(g: Geometry)
    requires g.Shaped()
    ensures g.SectorBytes() in {512, 1024, 2048, 4096}
    ensures 1 <= g.ClusterSectors() <= 0x1_0000
    ensures g.SectorBytes() * g.ClusterSectors() <= 0x200_0000
  {
    SectorSizes();
    Pow2AtMost(g.clusterShift, 16);
    Pow2Sum(g.shift, g.clusterShift);
    Pow2AtMost(g.shift + g.clusterShift, 25);
  }

  // Every intermediate value is a u64.
  lemma NothingOverflows(g: Geometry)
    requires g.Shaped()
    ensures 0 <= g.fatLength * g.fats <= U64_MAX - U32_MAX
    ensures 0 <= g.clusterCount * g.ClusterSectors() <= U64_MAX
  {
    ShiftsInRange(g);
    MulMono(g.clusterCount, U32_MAX, g.ClusterSectors());
    MulMono(g.ClusterSectors(), 0x1_0000, U32_MAX);
  }

  function CheckGeometry(g: Geometry): Result<(), ExFatError>
    requires g.Shaped()
  {
    ShiftsInRange(g);
    NothingOverflows(g);
    var minimumSectors: u64 := MIN_VOLUME_BYTES / g.SectorBytes();
    if g.volumeLength < minimumSectors then Failure(VolumeLengthTooSmall(g.volumeLength, minimumSectors))
    else if g.fatOffset < MIN_FAT_OFFSET then Failure(FatOffsetTooSmall(g.fatOffset, MIN_FAT_OFFSET))
    else
    var fatBytes: u64 := (g.clusterCount + 2) * EXFAT_ENTRY_BYTES;
    var minimumLength: u64 := CeilDiv(fatBytes, g.SectorBytes());
    if g.fatLength < minimumLength then Failure(FatLengthTooSmall(g.fatLength, minimumLength))
    else
    var fatEnd: u64 := g.fatOffset + g.fatLength * g.fats;
    if g.clusterHeapOffset < fatEnd then Failure(ClusterHeapBeforeFatEnd(g.clusterHeapOffset, fatEnd))
    else
    var heapSectors: u64 := g.clusterCount * g.ClusterSectors();
    var heapLimit: u64 := SaturatingSub(g.volumeLength, heapSectors);
    var maximum: u64 := if heapLimit <= U32_MAX then heapLimit else U32_MAX;
    if g.clusterHeapOffset > maximum then Failure(ClusterHeapOffsetTooLarge(g.clusterHeapOffset, maximum))
    else if g.clusterCount > MAX_CLUSTER_COUNT then Failure(ClusterCountTooLarge(g.clusterCount))
    else
    var minimumClusters: u32 := BASE_CLUSTERS + g.fats;
    if g.clusterCount < minimumClusters then Failure(ClusterCountTooSmall(g.clusterCount, minimumClusters))
    else
    var expected := ExpectedCount(g);
    if g.clusterCount != expected then Failure(ClusterCountMismatch(g.clusterCount, expected))
    else
    var last: u64 := g.clusterCount + 1;
    if g.rootCluster < 2 || g.rootCluster > last then Failure(RootClusterOutOfRange(g.rootCluster, last))
    else Success(())
  }

  // The one count the fields before it allow.
  function ExpectedCount(g: Geometry): u32
    requires g.Shaped() && g.clusterHeapOffset <= g.volumeLength
  {
    ShiftsInRange(g);
    DivAtMost(g.volumeLength - g.clusterHeapOffset, g.ClusterSectors());
    var fits: u64 := (g.volumeLength - g.clusterHeapOffset) / g.ClusterSectors();
    if fits <= MAX_CLUSTER_COUNT then fits else MAX_CLUSTER_COUNT
  }

  // --- What the exFAT file system specification asks ----------------------

  /** Sections 3.1.5 to 3.1.10 and 9.3 of the exFAT file system specification,
      in bytes, sectors and unbounded arithmetic. */
  ghost predicate ConformantGeometry(g: Geometry) {
    var sector, cluster := g.SectorBytes(), g.ClusterSectors();
    && g.volumeLength * sector >= 0x10_0000
    && g.fatOffset >= 24
    && g.fatLength * sector >= (g.clusterCount + 2) * 4
    && g.fatOffset + g.fatLength * g.fats <= g.clusterHeapOffset
    && g.clusterHeapOffset + g.clusterCount * cluster <= g.volumeLength
    && 2 + g.fats <= g.clusterCount <= 0xFFFF_FFF5
    && (g.clusterCount == 0xFFFF_FFF5 || g.clusterHeapOffset + (g.clusterCount + 1) * cluster > g.volumeLength)
    && 2 <= g.rootCluster <= g.clusterCount + 1
  }

  // A division by a sector size, as a comparison of bytes.
  lemma SectorsHold(sectors: nat, bytes: nat, sector: nat)
    requires sector in {512, 1024, 2048, 4096}
    ensures sectors >= CeilDiv(bytes, sector) <==> sectors * sector >= bytes
  {
  }

  lemma MegabyteOfSectors(sectors: nat, sector: nat)
    requires sector in {512, 1024, 2048, 4096}
    ensures sectors >= 0x10_0000 / sector <==> sectors * sector >= 0x10_0000
  {
  }

  // The count that fits is the count after which no whole cluster is left.
  lemma CountThatFits(room: nat, cluster: nat, count: nat)
    requires cluster >= 1 && count * cluster <= room
    ensures count <= room / cluster
    ensures count == room / cluster <==> (count + 1) * cluster > room
  {
    DivAtMost(room, cluster);
    var q := room / cluster;
    if count > q { MulMono(q + 1, count, cluster); }
    if count < q { MulMono(count + 1, q, cluster); }
  }

  /** The geometry accepted is exactly the geometry the specification allows:
      neither the mixed widths nor the saturating subtraction changes which. */
  lemma AcceptsConformantGeometry(g: Geometry)
    requires g.Shaped()
    ensures CheckGeometry(g).Success? <==> ConformantGeometry(g)
  {
    ShiftsInRange(g);
    NothingOverflows(g);
    SectorsHold(g.fatLength, (g.clusterCount + 2) * 4, g.SectorBytes());
    MegabyteOfSectors(g.volumeLength, g.SectorBytes());
    if g.clusterHeapOffset + g.clusterCount * g.ClusterSectors() <= g.volumeLength {
      CountThatFits(g.volumeLength - g.clusterHeapOffset, g.ClusterSectors(), g.clusterCount);
    }
  }

  /** A count is only ever found too small for its volume: what would be too
      large was refused before the counts were compared. And the count it is
      compared with leaves no whole cluster over, unless it is the largest. */
  lemma MismatchIsTooFew(g: Geometry)
    requires g.Shaped() && CheckGeometry(g).Failure? && CheckGeometry(g).error.ClusterCountMismatch?
    ensures var e := CheckGeometry(g).error;
      && e.count == g.clusterCount < e.expected <= 0xFFFF_FFF5
      && g.clusterHeapOffset + e.expected * g.ClusterSectors() <= g.volumeLength
      && (e.expected < 0xFFFF_FFF5 ==> g.clusterHeapOffset + (e.expected + 1) * g.ClusterSectors() > g.volumeLength)
  {
    ShiftsInRange(g);
    NothingOverflows(g);
    var room := g.volumeLength - g.clusterHeapOffset;
    CountThatFits(room, g.ClusterSectors(), g.clusterCount);
    DivAtMost(room, g.ClusterSectors());
    MulMono(ExpectedCount(g), room / g.ClusterSectors(), g.ClusterSectors());
  }

  function Least(a: nat, b: nat): nat { if a <= b then a else b }

  function PositivePart(x: int): nat { if x > 0 then x else 0 }

  // What a refusal says of the geometry refused.
  ghost predicate Violated(g: Geometry, e: ExFatError) {
    var sector, cluster := g.SectorBytes(), g.ClusterSectors();
    match e
    case VolumeLengthTooSmall(sectors, minimum) =>
      sectors == g.volumeLength < minimum && minimum * sector == 0x10_0000
    case FatOffsetTooSmall(value, minimum) => value == g.fatOffset < minimum == 24
    case FatLengthTooSmall(value, minimum) =>
      value == g.fatLength < minimum
      && (minimum - 1) * sector < (g.clusterCount + 2) * 4 <= minimum * sector
    case ClusterHeapBeforeFatEnd(value, end) =>
      value == g.clusterHeapOffset < end == g.fatOffset + g.fatLength * g.fats
    case ClusterHeapOffsetTooLarge(value, maximum) =>
      && value == g.clusterHeapOffset > maximum && value + g.clusterCount * cluster > g.volumeLength
      && maximum == Least(PositivePart(g.volumeLength - g.clusterCount * cluster), 0xFFFF_FFFF)
    case ClusterCountTooLarge(value) => value == g.clusterCount > 0xFFFF_FFF5
    case ClusterCountTooSmall(value, minimum) => value == g.clusterCount < minimum == 2 + g.fats
    case ClusterCountMismatch(value, expected) => value == g.clusterCount < expected
    case RootClusterOutOfRange(value, last) =>
      value == g.rootCluster && last == g.clusterCount + 1 && !(2 <= value <= last)
    case _ => false
  }

  /** Every refusal names a rule that is broken, and the bound that breaks it. */
  lemma RefusalsAreTrue(g: Geometry)
    requires g.Shaped() && CheckGeometry(g).Failure?
    ensures Violated(g, CheckGeometry(g).error)
  {
    hide Pow2, Geometry.SectorBytes, Geometry.ClusterSectors, ExpectedCount, CeilDiv;
    ShiftsInRange(g);
    NothingOverflows(g);
    var e := CheckGeometry(g).error;
    if e.ClusterCountMismatch? { MismatchIsTooFew(g); }
    if e.FatLengthTooSmall? { LeastSectors((g.clusterCount + 2) * 4, g.SectorBytes()); }
  }

  lemma LeastSectors(bytes: nat, sector: nat)
    requires sector in {512, 1024, 2048, 4096} && bytes > 0
    ensures (CeilDiv(bytes, sector) - 1) * sector < bytes <= CeilDiv(bytes, sector) * sector
  {
  }

  // --- What accepted geometry means ---------------------------------------

  ghost function HeapStart(g: Geometry): nat { g.clusterHeapOffset * g.SectorBytes() }

  ghost function ExFatClusterStart(g: Geometry, c: nat): nat
    requires c >= 2
  {
    (g.clusterHeapOffset + (c - 2) * g.ClusterSectors()) * g.SectorBytes()
  }

  ghost function ExFatStart(g: Geometry, fat: nat): nat { (g.fatOffset + fat * g.fatLength) * g.SectorBytes() }

  ghost function ClusterBytes(g: Geometry): nat { g.ClusterSectors() * g.SectorBytes() }

  ghost predicate HasExFatCluster(g: Geometry, c: nat) { 2 <= c <= g.clusterCount + 1 }

  /** Both boot regions end before the first FAT; each FAT has an entry for
      every cluster, and ends before the heap. */
  lemma FatsLieBetween(g: Geometry, fat: nat, c: nat)
    requires g.Shaped() && ConformantGeometry(g) && fat < g.fats && HasExFatCluster(g, c)
    ensures 2 * 12 * g.SectorBytes() <= ExFatStart(g, fat)
    ensures ExFatStart(g, fat) + 4 * c + 4 <= ExFatStart(g, fat) + g.fatLength * g.SectorBytes() <= HeapStart(g)
    ensures fat == 1 ==> ExFatStart(g, 0) + g.fatLength * g.SectorBytes() == ExFatStart(g, 1)
  {
    ShiftsInRange(g);
  }

  /** Every cluster lies after the FATs and inside the volume, and they are
      laid end to end. */
  lemma ClustersLieInside(g: Geometry, c: nat)
    requires g.Shaped() && ConformantGeometry(g) && HasExFatCluster(g, c)
    ensures HeapStart(g) <= ExFatClusterStart(g, c)
    ensures ExFatClusterStart(g, c + 1) == ExFatClusterStart(g, c) + ClusterBytes(g) <= g.volumeLength * g.SectorBytes()
    ensures 512 <= ClusterBytes(g) <= 0x200_0000
  {
    hide Geometry.Shaped, Geometry.SectorBytes, Geometry.ClusterSectors;
    ShiftsInRange(g);
    var s, k, h: nat, n: nat := g.SectorBytes(), g.ClusterSectors(), g.clusterHeapOffset, g.clusterCount;
    ThroughSectors(h, k, s, c - 2);
    WithinSectors(h, k, s, c - 1, n, g.volumeLength);
    MulMono(1, k, s);
  }

  /** No whole cluster is left over after the last, unless the count is the
      largest there is. */
  lemma NoClusterLeftOver(g: Geometry)
    requires g.Shaped() && ConformantGeometry(g) && g.clusterCount < 0xFFFF_FFF5
    ensures g.volumeLength * g.SectorBytes() < ExFatClusterStart(g, g.clusterCount + 2) + ClusterBytes(g)
  {
    hide Geometry.Shaped, Geometry.SectorBytes, Geometry.ClusterSectors;
    ShiftsInRange(g);
    var s, k, h: nat, n: nat := g.SectorBytes(), g.ClusterSectors(), g.clusterHeapOffset, g.clusterCount;
    ThroughSectors(h, k, s, n);
    MulMono(g.volumeLength + 1, h + (n + 1) * k, s);
  }

  // The first `i` of `n` clusters of `k` sectors, after `h` sectors, lie in a
  // volume of `v` sectors that holds all `n`.
  lemma WithinSectors(h: nat, k: nat, s: nat, i: nat, n: nat, v: nat)
    requires 1 <= i <= n && h + n * k <= v
    ensures 0 <= (i - 1) * k && h * s <= (h + (i - 1) * k) * s
    ensures 0 <= i * k && (h + i * k) * s <= v * s
  {
    MulMono(i, n, k);
    MulMono(h + i * k, v, s);
    MulMono(h, h + (i - 1) * k, s);
  }

  lemma ThroughSectors(h: nat, k: nat, s: nat, i: nat)
    ensures 0 * k == 0 && 0 <= i * k
    ensures (h + (i + 1) * k) * s == (h + i * k) * s + k * s
  {
    assert (i + 1) * k == i * k + k;
    Distribute(h + i * k, k, s);
  }

  lemma Distribute(a: nat, b: nat, s: nat)
    ensures (a + b) * s == a * s + b * s
  {
  }
}
