/** Enumerating a directory along its cluster chain, or from its first
    cluster alone where deletion has zeroed the chain. */
module FatEnumerate {
  import opened Evidence
  import opened Fat
  import opened Fat32
  import opened FatDirectory
  import opened FatLayout
  import opened Machine
  import opened Wrappers

  const MAX_ENTRIES: nat := 65_536

  datatype DirectoryObservation =
    | ContentAfterTerminator(cluster: u32, firstSlot: nat, slots: nat)
    | NameNotPrintableAscii(cluster: u32, slot: nat, rawName: NameField)
    | InvalidAttribute(cluster: u32, slot: nat, attr: u8)

  datatype Directory = Directory(
      entries: seq<Entry>,
      residue: seq<Entry>,
      clusters: seq<u32>,
      observations: seq<DirectoryObservation>)

  // A listing and whether a terminator ends it.
  datatype Enumeration = Enumeration(directory: Directory, terminated: bool)

  datatype Chain = Follow | FirstClusterOnly

  // One 32-byte slot: the entry it classifies as, and whether it is all zeros.
  datatype Slot = Slot(entry: Entry, blank: bool) {
    predicate Ends() { entry.kind.Terminator? }
  }

  // --- What a directory's slots say, as a specification -------------------

  function RawSlot(content: seq<u8>, i: nat): (raw: seq<u8>)
    requires 32 * i + 32 <= |content|
    ensures |raw| == ENTRY_BYTES
  {
    content[32 * i..32 * i + 32]
  }

  predicate AllZero(raw: seq<u8>) { forall i :: 0 <= i < |raw| ==> raw[i] == 0 }

  function SlotsIn(content: seq<u8>, cluster: u32): (s: seq<Slot>)
    ensures |s| == |content| / 32
  {
    seq(|content| / 32, i requires 0 <= i < |content| / 32 =>
      Slot(Entry(cluster, i, Classify(RawSlot(content, i))), AllZero(RawSlot(content, i))))
  }

  ghost predicate AllData(v: Volume, cs: seq<u32>) { forall i :: 0 <= i < |cs| ==> v.HasCluster(cs[i]) }

  // Every slot of a list of clusters, in order.
  ghost function SlotsOf(image: seq<u8>, v: Volume, cs: seq<u32>): seq<Slot>
    requires AllData(v, cs)
  {
    if cs == [] then []
    else
      var last := cs[|cs| - 1];
      SlotsOf(image, v, cs[..|cs| - 1]) + SlotsIn(ClusterContent(image, v, last), last)
  }

  // The position of the first terminator, or the length where there is none.
  ghost function FirstTerminator(s: seq<Slot>): (t: nat)
    ensures t <= |s|
  {
    if s == [] then 0
    else
      var front := |s| - 1;
      var t := FirstTerminator(s[..front]);
      if t < front || s[front].Ends() then t else t + 1
  }

  lemma {:induction false} FirstTerminatorMeaning(s: seq<Slot>)
    ensures forall i :: 0 <= i < FirstTerminator(s) ==> !s[i].Ends()
    ensures FirstTerminator(s) < |s| ==> s[FirstTerminator(s)].Ends()
  {
    if s != [] {
      var front := s[..|s| - 1];
      FirstTerminatorMeaning(front);
      assert forall i :: 0 <= i < |front| ==> s[i] == front[i];
    }
  }

  ghost predicate Terminated(s: seq<Slot>) { FirstTerminator(s) < |s| }

  // The slots the volume claims: those before the first terminator, or none
  // where an earlier cluster already held one.
  ghost function Claimed(s: seq<Slot>, ended: bool): seq<Slot> {
    if ended then [] else s[..FirstTerminator(s)]
  }

  // The slots past the first terminator.
  ghost function Beyond(s: seq<Slot>, ended: bool): seq<Slot> {
    if ended then s else if Terminated(s) then s[FirstTerminator(s) + 1..] else []
  }

  ghost function NonBlank(s: seq<Slot>): seq<Slot> {
    if s == [] then []
    else NonBlank(s[..|s| - 1]) + if s[|s| - 1].blank then [] else [s[|s| - 1]]
  }

  ghost function Entries(s: seq<Slot>): seq<Entry> {
    seq(|s|, i requires 0 <= i < |s| => s[i].entry)
  }

  function NoteOf(e: Entry): seq<DirectoryObservation> {
    match e.kind
    case ShortName(None, rawName, _, _, _, _) => [NameNotPrintableAscii(e.cluster, e.slot, rawName)]
    case VolumeLabel(None, rawName) => [NameNotPrintableAscii(e.cluster, e.slot, rawName)]
    case Invalid(attr) => [InvalidAttribute(e.cluster, e.slot, attr)]
    case _ => []
  }

  ghost function Notes(es: seq<Entry>): seq<DirectoryObservation> {
    if es == [] then [] else Notes(es[..|es| - 1]) + NoteOf(es[|es| - 1])
  }

  function Leftover(rest: seq<Entry>): seq<DirectoryObservation> {
    if rest == [] then [] else [ContentAfterTerminator(rest[0].cluster, rest[0].slot, |rest|)]
  }

  // What one cluster adds to the listing, given whether it had already ended.
  datatype Scan = Scan(entries: seq<Entry>, residue: seq<Entry>, notes: seq<DirectoryObservation>, ended: bool)

  ghost function Scanned(s: seq<Slot>, ended: bool): Scan {
    Scan(Entries(Claimed(s, ended)), Entries(NonBlank(Beyond(s, ended))),
         Notes(Entries(Claimed(s, ended))) + Leftover(Entries(NonBlank(Beyond(s, ended)))),
         ended || Terminated(s))
  }

  ghost function ObservationsOf(image: seq<u8>, v: Volume, cs: seq<u32>): seq<DirectoryObservation>
    requires AllData(v, cs)
  {
    if cs == [] then []
    else
      var front, last := cs[..|cs| - 1], cs[|cs| - 1];
      ObservationsOf(image, v, front)
      + Scanned(SlotsIn(ClusterContent(image, v, last), last), Terminated(SlotsOf(image, v, front))).notes
  }

  // The listing of a list of clusters, and whether a terminator ends it.
  ghost function ListingOf(image: seq<u8>, v: Volume, cs: seq<u32>): Enumeration
    requires AllData(v, cs)
  {
    var s := SlotsOf(image, v, cs);
    Enumeration(
      Directory(Entries(Claimed(s, false)), Entries(NonBlank(Beyond(s, false))), cs, ObservationsOf(image, v, cs)),
      Terminated(s))
  }

  // --- What a chain is ----------------------------------------------------

  predicate Distinct<T(==)>(s: seq<T>) { forall i, j :: 0 <= i < j < |s| ==> s[i] != s[j] }

  function SlotsPerCluster(v: Volume): nat { v.boot.geometry.ClusterBytes() / ENTRY_BYTES }

  function MaxClusters(v: Volume): nat
    requires SlotsPerCluster(v) > 0
  {
    CeilDiv(MAX_ENTRIES, SlotsPerCluster(v))
  }

  // The cluster limit is exactly the entry limit: no slot is counted twice
  // and none is left over, because a cluster is a power of two slots.
  lemma ClusterLimitIsEntryLimit(v: Volume)
    requires v.Sound()
    ensures SlotsPerCluster(v) == 16 * v.boot.geometry.sectorsPerCluster > 0
    ensures MaxClusters(v) * SlotsPerCluster(v) == 65536 == MAX_ENTRIES
    ensures ClusterSize(v) == 32 * SlotsPerCluster(v) == v.boot.geometry.ClusterBytes()
  {
    SoundNeverWraps(v);
    assert v.boot.geometry.sectorsPerCluster in {1, 2, 4, 8, 16, 32, 64};
  }

  // A directory's cluster chain: distinct data clusters, each linked to the
  // next by the active FAT, the last marked as the end.
  ghost predicate IsChain(image: seq<u8>, v: Volume, cs: seq<u32>)
    requires v.Sound()
  {
    ClusterLimitIsEntryLimit(v);
    && 1 <= |cs| <= MaxClusters(v)
    && AllData(v, cs)
    && Distinct(cs)
    && Linked(image, v, cs)
    && FatEntry(image, v, cs[|cs| - 1]) >= 0x0FFF_FFF8
  }

  ghost predicate Linked(image: seq<u8>, v: Volume, cs: seq<u32>) {
    && (forall i :: 0 <= i < |cs| - 1 ==> FatEntry(image, v, cs[i]) == cs[i + 1])
    && (forall i :: 1 <= i < |cs| ==> cs[i] < 0x0FFF_FFF7)
  }

  // What a FAT entry says comes after a cluster: nothing, or another cluster.
  function Link(from: u32, next: u32): Result<Option<u32>, DirectoryError> {
    if next >= FAT_END_OF_CHAIN then Success(None)
    else if next == FAT_BAD_CLUSTER then Failure(BadCluster(next))
    else if next < FIRST_DATA_CLUSTER then Failure(ReservedChainLink(from, next))
    else Success(Some(next))
  }

  // Why the walk stops before reading a cluster.
  function Refusal(v: Volume, visited: seq<u32>, cluster: u32): Option<DirectoryError>
    requires SlotsPerCluster(v) > 0
  {
    if cluster < FIRST_DATA_CLUSTER || cluster >= v.LastCluster() then
      Some(ClusterOutOfRange(cluster, v.boot.geometry.clusterCount))
    else if cluster in visited then Some(CyclicChain(cluster))
    else if |visited| >= MaxClusters(v) then Some(TooLarge(|visited| * SlotsPerCluster(v)))
    else None
  }

  // Following the chain from `c`, having visited `visited`, and why it fails.
  ghost function Chained(image: seq<u8>, v: Volume, visited: seq<u32>, c: u32)
    : Result<seq<u32>, DirectoryError>
    requires v.Sound()
    decreases if |visited| <= MAX_ENTRIES then MAX_ENTRIES - |visited| else 0
  {
    ClusterLimitIsEntryLimit(v);
    LimitAtMost(MaxClusters(v), SlotsPerCluster(v));
    match Refusal(v, visited, c)
    case Some(e) => Failure(e)
    case None =>
      match Link(c, FatEntry(image, v, c))
      case Failure(e) => Failure(e)
      case Success(None) => Success(visited + [c])
      case Success(Some(next)) => Chained(image, v, visited + [c], next)
  }

  lemma LimitAtMost(n: nat, d: nat)
    requires d >= 1
    ensures n <= n * d
  {
    MulMono(1, d, n);
  }

  /** Following succeeds exactly along a chain, and finds that chain. */
  lemma ChainedIffChain(image: seq<u8>, v: Volume, first: u32)
    requires v.Sound()
    ensures Chained(image, v, [], first).Success? <==> exists cs :: IsChain(image, v, cs) && cs[0] == first
    ensures forall cs :: IsChain(image, v, cs) && cs[0] == first ==> Chained(image, v, [], first) == Success(cs)
    ensures Chained(image, v, [], first).Success? ==>
      var cs := Chained(image, v, [], first).value; IsChain(image, v, cs) && cs[0] == first
  {
    ChainedIsChain(image, v, [], first);
    forall cs | IsChain(image, v, cs) && cs[0] == first
      ensures Chained(image, v, [], first) == Success(cs)
    {
      ChainIsChained(image, v, cs, 0);
      assert cs[..0] == [];
    }
  }

  /** A directory has at most one chain. */
  lemma ChainIsUnique(image: seq<u8>, v: Volume, a: seq<u32>, b: seq<u32>)
    requires v.Sound() && IsChain(image, v, a) && IsChain(image, v, b) && a[0] == b[0]
    ensures a == b
  {
    ChainedIffChain(image, v, a[0]);
  }

  lemma {:induction false} ChainedIsChain(image: seq<u8>, v: Volume, visited: seq<u32>, c: u32)
    requires v.Sound() && AllData(v, visited) && Distinct(visited) && Linked(image, v, visited)
    requires visited != [] ==> FatEntry(image, v, visited[|visited| - 1]) == c < 0x0FFF_FFF7
    ensures var r := Chained(image, v, visited, c); r.Success? ==>
      IsChain(image, v, r.value) && visited + [c] <= r.value
    decreases if |visited| <= MAX_ENTRIES then MAX_ENTRIES - |visited| else 0
  {
    ClusterLimitIsEntryLimit(v);
    LimitAtMost(MaxClusters(v), SlotsPerCluster(v));
    if v.HasCluster(c) && c !in visited && |visited| < MaxClusters(v) {
      var longer := visited + [c];
      forall i | 0 <= i < |longer| - 1 ensures FatEntry(image, v, longer[i]) == longer[i + 1] {
        if i < |visited| - 1 { assert longer[i] == visited[i] && longer[i + 1] == visited[i + 1]; }
      }
      if Chained(image, v, visited, c).Success? && FatEntry(image, v, c) < FAT_END_OF_CHAIN {
        ChainedIsChain(image, v, longer, FatEntry(image, v, c));
      }
    }
  }

  lemma {:induction false} ChainIsChained(image: seq<u8>, v: Volume, cs: seq<u32>, k: nat)
    requires v.Sound() && IsChain(image, v, cs) && k < |cs|
    ensures Chained(image, v, cs[..k], cs[k]) == Success(cs)
    decreases |cs| - k
  {
    ClusterLimitIsEntryLimit(v);
    assert cs[..k] + [cs[k]] == cs[..k + 1];
    if k + 1 < |cs| {
      assert FatEntry(image, v, cs[k]) == cs[k + 1];
      assert v.HasCluster(cs[k + 1]);
      ChainIsChained(image, v, cs, k + 1);
    } else {
      assert cs[..k + 1] == cs;
    }
  }

  // --- Scanning slots -----------------------------------------------------

  lemma NotesOneMore(es: seq<Entry>, e: Entry)
    ensures Notes(es + [e]) == Notes(es) + NoteOf(e)
  {
    assert (es + [e])[..|es|] == es;
  }

  // The first terminator is the only position with its two properties.
  lemma FirstTerminatorIs(s: seq<Slot>, t: nat)
    requires t <= |s| && (t < |s| ==> s[t].Ends())
    requires forall i :: 0 <= i < t ==> !s[i].Ends()
    ensures FirstTerminator(s) == t
  {
    FirstTerminatorMeaning(s);
    var f := FirstTerminator(s);
    assert !(f < t);
    assert !(t < f);
  }

  // What one more slot does to the claimed slots, those beyond, and the end.
  lemma SlotsOneMore(s: seq<Slot>, x: Slot, ended: bool)
    ensures var now := ended || Terminated(s);
      && Claimed(s + [x], ended) == Claimed(s, ended) + (if now || x.Ends() then [] else [x])
      && Beyond(s + [x], ended) == Beyond(s, ended) + (if now then [x] else [])
      && ((ended || Terminated(s + [x])) <==> now || x.Ends())
  {
    assert (s + [x])[..|s|] == s;
    var t := FirstTerminator(s);
    if t < |s| {
      assert (s + [x])[..t] == s[..t];
      assert (s + [x])[t + 1..] == s[t + 1..] + [x];
    }
  }

  // Cutting a list of slots in two and scanning the halves in order is
  // scanning the whole.
  lemma ScanSplits(a: seq<Slot>, b: seq<Slot>, ended: bool)
    ensures var mid := ended || Terminated(a);
      && Claimed(a + b, ended) == Claimed(a, ended) + Claimed(b, mid)
      && Beyond(a + b, ended) == Beyond(a, ended) + Beyond(b, mid)
      && (ended || Terminated(a + b) <==> mid || Terminated(b))
  {
    hide FirstTerminator;
    FirstTerminatorSplits(a, b);
    var t := FirstTerminator(a + b);
    if Terminated(a) {
      assert (a + b)[t + 1..] == a[t + 1..] + b && (a + b)[..t] == a[..t];
    } else {
      assert (a + b)[..t] == a + b[..t - |a|];
      if t < |a + b| { assert (a + b)[t + 1..] == b[t - |a| + 1..]; }
    }
  }

  lemma FirstTerminatorSplits(a: seq<Slot>, b: seq<Slot>)
    ensures FirstTerminator(a + b) == if Terminated(a) then FirstTerminator(a) else |a| + FirstTerminator(b)
  {
    FirstTerminatorMeaning(a);
    FirstTerminatorMeaning(b);
    var t := if Terminated(a) then FirstTerminator(a) else |a| + FirstTerminator(b);
    assert forall i :: 0 <= i < t ==> (a + b)[i] == if i < |a| then a[i] else b[i - |a|];
    FirstTerminatorIs(a + b, t);
  }

  lemma {:induction false} NonBlankSplits(a: seq<Slot>, b: seq<Slot>)
    ensures NonBlank(a + b) == NonBlank(a) + NonBlank(b)
  {
    if b == [] {
      assert a + b == a;
    } else {
      NonBlankSplits(a, b[..|b| - 1]);
      assert (a + b)[..|a + b| - 1] == a + b[..|b| - 1];
    }
  }

  lemma {:induction false} NonBlankLength(s: seq<Slot>)
    ensures |NonBlank(s)| <= |s|
  {
    if s != [] { NonBlankLength(s[..|s| - 1]); }
  }

  lemma NonBlankOneMore(s: seq<Slot>, x: Slot)
    ensures NonBlank(s + [x]) == NonBlank(s) + if x.blank then [] else [x]
  {
    assert (s + [x])[..|s|] == s;
  }

  // What one more slot does to the listing, the residue and the end.
  lemma ScanOneMore(s: seq<Slot>, x: Slot, ended: bool)
    ensures var now := ended || Terminated(s);
      && Entries(Claimed(s + [x], ended))
         == Entries(Claimed(s, ended)) + (if now || x.Ends() then [] else [x.entry])
      && Entries(NonBlank(Beyond(s + [x], ended)))
         == Entries(NonBlank(Beyond(s, ended))) + (if now && !x.blank then [x.entry] else [])
      && ((ended || Terminated(s + [x])) <==> now || x.Ends())
  {
    var now := ended || Terminated(s);
    SlotsOneMore(s, x, ended);
    if now {
      NonBlankOneMore(Beyond(s, ended), x);
      EntriesOneMore(NonBlank(Beyond(s, ended)), x);
    } else {
      EntriesOneMore(Claimed(s, ended), x);
    }
  }

  lemma EntriesOneMore(s: seq<Slot>, x: Slot)
    ensures Entries(s + [x]) == Entries(s) + [x.entry]
  {
  }

  lemma ScanNothing(ended: bool)
    ensures Claimed([], ended) == Beyond([], ended) == NonBlank(Beyond([], ended)) == []
    ensures Entries([]) == [] && Notes([]) == [] && !Terminated([])
  {
  }

  // The pass over one cluster's slots. `listed` is how many entries the
  // clusters before it gave.
  method ScanCluster(content: seq<u8>, cluster: u32, ended: bool, listed: nat)
    returns (r: Result<Scan, DirectoryError>)
    ensures r.Success? ==> r.value == Scanned(SlotsIn(content, cluster), ended)
    ensures r.Failure? ==> r.error.TooLarge? && listed + |content| / 32 > MAX_ENTRIES
  {
    hide Claimed, Beyond, NonBlank, FirstTerminator, Terminated, Entries, Notes, NoteOf, Classify;
    ScanNothing(ended);
    ghost var slots := SlotsIn(content, cluster);
    ghost var passed: seq<Slot> := [];
    var entries, residue, observations, terminated := [], [], [], ended;
    var residueFirst: Option<nat> := None;
    var residueSlots := 0;
    for slot := 0 to |content| / 32
      invariant |passed| == slot && forall i :: 0 <= i < slot ==> passed[i] == slots[i]
      invariant entries == Entries(Claimed(passed, ended))
      invariant residue == Entries(NonBlank(Beyond(passed, ended)))
      invariant observations == Notes(entries)
      invariant terminated <==> ended || Terminated(passed)
      invariant |entries| <= slot
      invariant residueSlots == |residue|
      invariant residueFirst == if residue == [] then None else Some(residue[0].slot)
      invariant residue != [] ==> residue[0].cluster == cluster
    {
      var raw := RawSlot(content, slot);
      var entry := Entry(cluster, slot, Classify(raw));
      ghost var x := Slot(entry, AllZero(raw));
      assert x == slots[slot];
      ScanOneMore(passed, x, ended);
      passed := passed + [x];
      if terminated {
        if !AllZero(raw) {
          if residueFirst.None? {
            residueFirst := Some(slot);
          }
          residueSlots := residueSlots + 1;
          residue := residue + [entry];
        }
        continue;
      }
      if entry.kind.Terminator? {
        terminated := true;
        continue;
      }
      observations := observations + NoteOf(entry);
      if listed + |entries| >= MAX_ENTRIES {
        return Failure(TooLarge(listed + |entries|));
      }
      NotesOneMore(entries, entry);
      entries := entries + [entry];
    }
    assert passed == slots;
    if residueFirst.Some? {
      observations := observations + [ContentAfterTerminator(cluster, residueFirst.value, residueSlots)];
    }
    r := Success(Scan(entries, residue, observations, terminated));
  }

  // --- Enumerating --------------------------------------------------------

  // The fault-free answer: the listing of the chain, or of the first cluster
  // alone, or why there is none.
  ghost function Enumerated(image: seq<u8>, v: Volume, first: u32, chain: Chain)
    : Result<Enumeration, DirectoryError>
    requires v.Sound()
  {
    if chain.FirstClusterOnly? then
      if v.HasCluster(first) then Success(ListingOf(image, v, [first]))
      else Failure(ClusterOutOfRange(first, v.boot.geometry.clusterCount))
    else
      match Chained(image, v, [], first)
      case Failure(e) => Failure(e)
      case Success(cs) =>
        ChainedIffChain(image, v, first);
        Success(ListingOf(image, v, cs))
  }

  // Reading failed, or an offset could not be computed.
  predicate FromReading(e: DirectoryError) { e.Unreadable? || e.OffsetOverflow? }

  // Nothing the evidence holds makes the fault-free answer such a failure.
  lemma {:induction false} ChainErrorsAreFindings(image: seq<u8>, v: Volume, visited: seq<u32>, c: u32)
    requires v.Sound()
    ensures var r := Chained(image, v, visited, c); r.Failure? ==> !FromReading(r.error)
    decreases if |visited| <= MAX_ENTRIES then MAX_ENTRIES - |visited| else 0
  {
    hide FatEntry;
    ClusterLimitIsEntryLimit(v);
    LimitAtMost(MaxClusters(v), SlotsPerCluster(v));
    if Refusal(v, visited, c).None? {
      var link := Link(c, FatEntry(image, v, c));
      if link.Success? && link.value.Some? {
        ChainErrorsAreFindings(image, v, visited + [c], link.value.value);
      }
    }
  }

  lemma {:induction false} SlotCount(image: seq<u8>, v: Volume, cs: seq<u32>)
    requires v.Sound() && AllData(v, cs)
    ensures |SlotsOf(image, v, cs)| == |cs| * SlotsPerCluster(v)
  {
    hide SlotsIn, ClusterContent, SlotsPerCluster, MaxClusters, Volume.Sound;
    if cs != [] {
      SlotCount(image, v, cs[..|cs| - 1]);
      SlotsInCluster(image, v, cs[|cs| - 1]);
      Successor(|cs| - 1, SlotsPerCluster(v));
    }
  }

  lemma SlotsInCluster(image: seq<u8>, v: Volume, c: u32)
    requires v.Sound() && v.HasCluster(c)
    ensures |SlotsIn(ClusterContent(image, v, c), c)| == SlotsPerCluster(v)
  {
    ClusterLimitIsEntryLimit(v);
  }

  lemma Successor(n: nat, size: nat)
    ensures 0 * size == 0 && (n + 1) * size == n * size + size
  {
  }

  /** A directory within the cluster limit never exceeds the entry limit:
      what it claims and what lies beyond share the same 65,536 slots. */
  lemma ListingFitsLimit(image: seq<u8>, v: Volume, cs: seq<u32>)
    requires v.Sound() && AllData(v, cs) && |cs| <= (ClusterLimitIsEntryLimit(v); MaxClusters(v))
    ensures var d := ListingOf(image, v, cs).directory;
      |d.entries| + |d.residue| + (if ListingOf(image, v, cs).terminated then 1 else 0)
        <= |cs| * SlotsPerCluster(v) <= 65536
  {
    ClusterLimitIsEntryLimit(v);
    SlotCount(image, v, cs);
    NonBlankLength(Beyond(SlotsOf(image, v, cs), false));
    MulMono(|cs|, MaxClusters(v), SlotsPerCluster(v));
  }

  // So the next cluster always has room, whatever its slots hold.
  lemma RoomForOneMore(image: seq<u8>, v: Volume, cs: seq<u32>)
    requires v.Sound() && AllData(v, cs) && |cs| < (ClusterLimitIsEntryLimit(v); MaxClusters(v))
    ensures |ListingOf(image, v, cs).directory.entries| + SlotsPerCluster(v) <= MAX_ENTRIES
  {
    hide ListingOf, SlotsPerCluster, MaxClusters;
    ClusterLimitIsEntryLimit(v);
    ListingFitsLimit(image, v, cs);
    OneMoreFits(|cs|, MaxClusters(v), SlotsPerCluster(v));
  }

  lemma EmptyListing(image: seq<u8>, v: Volume)
    ensures ListingOf(image, v, []) == Enumeration(Directory([], [], [], []), false)
  {
  }

  function Extended(e: Enumeration, c: u32, scan: Scan): Enumeration {
    var d := e.directory;
    Enumeration(
      Directory(d.entries + scan.entries, d.residue + scan.residue, d.clusters + [c], d.observations + scan.notes),
      scan.ended)
  }

  // One more cluster on a listing.
  lemma ListingOneMore(image: seq<u8>, v: Volume, cs: seq<u32>, c: u32)
    requires AllData(v, cs + [c])
    ensures AllData(v, cs) && v.HasCluster(c)
    ensures
      assert (cs + [c])[|cs|] == c;
      var before := ListingOf(image, v, cs);
      ListingOf(image, v, cs + [c])
      == Extended(before, c, Scanned(SlotsIn(ClusterContent(image, v, c), c), before.terminated))
  {
    hide Claimed, Beyond, NonBlank, FirstTerminator, Terminated, Entries, Notes, Classify, SlotsIn;
    assert (cs + [c])[|cs|] == c && (cs + [c])[..|cs|] == cs;
    forall i | 0 <= i < |cs| ensures v.HasCluster(cs[i]) { assert (cs + [c])[i] == cs[i]; }
    var a, b := SlotsOf(image, v, cs), SlotsIn(ClusterContent(image, v, c), c);
    assert SlotsOf(image, v, cs + [c]) == a + b;
    ScanSplits(a, b, false);
    NonBlankSplits(Beyond(a, false), Beyond(b, Terminated(a)));
    EntriesSplit(Claimed(a, false), Claimed(b, Terminated(a)));
    EntriesSplit(NonBlank(Beyond(a, false)), NonBlank(Beyond(b, Terminated(a))));
  }

  lemma EntriesSplit(a: seq<Slot>, b: seq<Slot>)
    ensures Entries(a + b) == Entries(a) + Entries(b)
  {
  }

  datatype Visit = Visit(scan: Scan, next: Option<u32>)

  // One cluster of the walk: read it, scan it, and, where the walk follows
  // the chain, read the link out of it.
  method VisitCluster(reader: EvidenceReader, v: Volume, cluster: u32, ended: bool, listed: nat, chain: Chain)
    returns (r: Result<Visit, DirectoryError>)
    requires v.Sound() && v.HasCluster(cluster)
    modifies reader
    ensures ReadsStayInside(reader, v)
    ensures listed + SlotsPerCluster(v) <= MAX_ENTRIES ==>
      Agrees(reader, v, r, Visited(reader.image, v, cluster, ended, chain))
  {
    ClusterLimitIsEntryLimit(v);
    var buffer :- ReadCluster(reader, v, cluster, v.boot.geometry.ClusterBytes());
    assert buffer == ClusterContent(reader.image, v, cluster);
    var scan :- ScanCluster(buffer, cluster, ended, listed);
    if chain.FirstClusterOnly? {
      return Success(Visit(scan, None));
    }
    var entry :- ReadFatEntry(reader, v, v.boot.CurrentFat(), cluster);
    var next :- Link(cluster, entry);
    r := Success(Visit(scan, next));
  }

  ghost function Visited(image: seq<u8>, v: Volume, c: u32, ended: bool, chain: Chain)
    : Result<Visit, DirectoryError>
    requires v.HasCluster(c)
  {
    var scan := Scanned(SlotsIn(ClusterContent(image, v, c), c), ended);
    if chain.FirstClusterOnly? then Success(Visit(scan, None))
    else
      match Link(c, FatEntry(image, v, c))
      case Failure(e) => Failure(e)
      case Success(next) => Success(Visit(scan, next))
  }

  method Enumerate(reader: EvidenceReader, v: Volume, firstCluster: u32, chain: Chain)
    returns (r: Result<Enumeration, DirectoryError>)
    requires v.Sound()
    modifies reader
    ensures ReadsStayInside(reader, v)
    ensures Agrees(reader, v, r, Enumerated(reader.image, v, firstCluster, chain))
  {
    hide ListingOf, Scanned, SlotsIn, ClusterContent, FatEntry, IsChain;
    ClusterLimitIsEntryLimit(v);
    var entries, residue, observations := [], [], [];
    var clusters: seq<u32> := [];
    var cluster: u32 := firstCluster;
    var terminated := false;
    ghost var image := reader.image;
    EmptyListing(image, v);

    while true
      invariant |clusters| <= MaxClusters(v) && AllData(v, clusters)
      invariant Enumeration(Directory(entries, residue, clusters, observations), terminated)
        == ListingOf(image, v, clusters)
      invariant Chained(image, v, clusters, cluster) == Chained(image, v, [], firstCluster)
      invariant chain.FirstClusterOnly? ==> clusters == [] && cluster == firstCluster
      invariant ReadsStayInside(reader, v)
      decreases MaxClusters(v) - |clusters|
    {
      var refusal := Refusal(v, clusters, cluster);
      if refusal.Some? {
        return Failure(refusal.value);
      }
      RoomForOneMore(image, v, clusters);
      ListingOneMore(image, v, clusters, cluster);
      var step :- VisitCluster(reader, v, cluster, terminated, |entries|, chain);
      var Visit(scan, next) := step;
      entries, residue := entries + scan.entries, residue + scan.residue;
      observations, terminated := observations + scan.notes, scan.ended;
      clusters := clusters + [cluster];
      if next.None? {
        break;
      }
      cluster := next.value;
    }
    assert if chain.FirstClusterOnly? then clusters == [firstCluster]
           else Chained(image, v, [], firstCluster) == Success(clusters);
    r := Success(Enumeration(Directory(entries, residue, clusters, observations), terminated));
  }
}
