/** One run's evidence, counts, reports and destination, and reporting what
    the volume says of each lost entry's content. */
module Session {
  import opened ArtifactPath
  import opened Events
  import opened Evidence
  import opened Extraction
  import opened Fat
  import opened Fat32
  import opened FatDirectory
  import opened FatEnumerate
  import opened FatLayout
  import opened FatListing
  import opened FatRecovery
  import opened Machine
  import opened Partition
  import opened Trace
  import opened Wrappers

  // --- What a trace of reports always satisfies ---------------------------

  ghost predicate NoFault(events: seq<Event>) { forall i :: 0 <= i < |events| ==> !events[i].Faulty() }

  // A path reported as taken was there when the run began.
  ghost predicate TakenBefore(initial: map<string, seq<u8>>, events: seq<Event>) {
    forall i :: 0 <= i < |events| ==> TakenPathIn(initial, events[i])
  }

  ghost predicate TakenPathIn(initial: map<string, seq<u8>>, e: Event) {
    e.Extracted? ==> TakenIn(initial, e.extraction.output)
  }

  ghost predicate TakenIn(initial: map<string, seq<u8>>, output: Option<Output>) {
    output.Some? && output.value.Exists? ==> output.value.path in initial
  }

  // Every artifact reported as written is still there, reads back as was
  // reported and, at a destination that loses nothing, is what was hashed.
  ghost predicate WrittenHold(events: seq<Event>, files: map<string, seq<u8>>, lossless: bool) {
    forall i :: 0 <= i < |events| ==> WrittenHolds(events[i], files, lossless)
  }

  ghost predicate WrittenHolds(e: Event, files: map<string, seq<u8>>, lossless: bool) {
    e.Extracted? ==> WrittenIn(files, lossless, e.extraction)
  }

  ghost predicate WrittenIn(files: map<string, seq<u8>>, lossless: bool, x: ExtractionResult) {
    x.output.Some? && x.output.value.Written? ==>
      var w := x.output.value;
      w.path in files && w.readback == Sha256(files[w.path]) && (lossless ==> w.readback == x.digest)
  }

  ghost predicate TraceOk(options: Options, initial: map<string, seq<u8>>, dependable: bool,
                          files: map<string, seq<u8>>, lossless: bool, events: seq<Event>)
  {
    && Accounted(options, events) && TakenBefore(initial, events) && (dependable ==> NoFault(events))
    && WrittenHold(events, files, lossless)
  }

  ghost predicate Plain(e: Event) { !e.Recoverable? && !e.Extracted? && !e.NotExtracted? }

  lemma TraceKept(options: Options, initial: map<string, seq<u8>>, dependable: bool,
                  files: map<string, seq<u8>>, lossless: bool, events: seq<Event>, e: Event)
    requires TraceOk(options, initial, dependable, files, lossless, events)
    requires Plain(e) || (e.Recoverable? && !options.recover)
    requires dependable ==> !e.Faulty()
    ensures TraceOk(options, initial, dependable, files, lossless, events + [e])
  {
    hide Count;
    CountOneMore(events, e, IsFreeRun);
    CountOneMore(events, e, IsExtracted);
    CountOneMore(events, e, IsNotExtracted);
  }

  // A free run that was read, or that could not be.
  lemma TracePair(options: Options, initial: map<string, seq<u8>>, dependable: bool,
                  files: map<string, seq<u8>>, lossless: bool, events: seq<Event>, run: Event, result: Event)
    requires TraceOk(options, initial, dependable, files, lossless, events) && options.recover && run.Recoverable?
    requires result.Extracted? || result.NotExtracted?
    requires TakenPathIn(initial, result) && WrittenHolds(result, files, lossless)
    requires result.Extracted? ==> Judged(options, result)
    requires dependable ==> !result.Faulty()
    ensures TraceOk(options, initial, dependable, files, lossless, events + [run] + [result])
  {
    hide Count;
    CountOneMore(events, run, IsFreeRun);
    CountOneMore(events, run, IsExtracted);
    CountOneMore(events, run, IsNotExtracted);
    CountOneMore(events + [run], result, IsFreeRun);
    CountOneMore(events + [run], result, IsExtracted);
    CountOneMore(events + [run], result, IsNotExtracted);
  }

  // Leaving every file that was there as it was keeps the trace true.
  lemma TraceSurvives(options: Options, initial: map<string, seq<u8>>, dependable: bool,
                      before: map<string, seq<u8>>, after: map<string, seq<u8>>, lossless: bool, events: seq<Event>)
    requires TraceOk(options, initial, dependable, before, lossless, events)
    requires forall p :: p in before ==> p in after && after[p] == before[p]
    ensures TraceOk(options, initial, dependable, after, lossless, events)
  {
    hide Accounted, TakenBefore, NoFault;
    forall i | 0 <= i < |events| ensures WrittenHolds(events[i], after, lossless) {
      assert WrittenHolds(events[i], before, lossless);
    }
  }

  // --- What the destination always satisfies ------------------------------

  predicate SameSlot(a: Artifact, b: Artifact) {
    a.partition == b.partition && a.cluster == b.cluster && a.slot == b.slot
  }

  ghost function Paths(directory: string, asked: seq<Artifact>): seq<string> {
    seq(|asked|, i requires 0 <= i < |asked| => Path(directory, asked[i]))
  }

  // No slot asked for twice; every creation attempted is one asked for; files
  // there at the start are unchanged, and any other is one asked for.
  ghost predicate StoreKept(output: Option<string>, initial: map<string, seq<u8>>, earlier: seq<string>,
                            asked: seq<Artifact>, files: map<string, seq<u8>>, attempts: seq<string>)
  {
    && (forall i, j :: 0 <= i < j < |asked| ==> !SameSlot(asked[i], asked[j]))
    && (output.None? ==> asked == [])
    && attempts == earlier + (if output.Some? then Paths(output.value, asked) else [])
    && (forall p :: p in initial ==> p in files && files[p] == initial[p])
    && (forall p :: p in files && p !in initial ==>
          output.Some? && exists i :: 0 <= i < |asked| && p == Path(output.value, asked[i]))
  }

  ghost predicate NeverAsked(asked: seq<Artifact>, a: Artifact) {
    forall i :: 0 <= i < |asked| ==> !SameSlot(asked[i], a)
  }

  ghost function PlaceOf(e: Entry): (nat, nat) { (e.cluster, e.slot) }

  ghost function PlaceSet(es: seq<Entry>): set<(nat, nat)> { set i | 0 <= i < |es| :: PlaceOf(es[i]) }

  // The places one partition's artifacts have been asked for from.
  ghost function AskedPlaces(asked: seq<Artifact>, partition: u8): set<(nat, nat)> {
    set i | 0 <= i < |asked| && asked[i].partition == partition :: (asked[i].cluster as nat, asked[i].slot)
  }

  ghost function AskedPartitions(asked: seq<Artifact>): set<u8> {
    set i | 0 <= i < |asked| :: asked[i].partition
  }

  lemma UnaskedPlace(asked: seq<Artifact>, a: Artifact)
    requires (a.cluster as nat, a.slot) !in AskedPlaces(asked, a.partition)
    ensures NeverAsked(asked, a)
  {
    forall i | 0 <= i < |asked| ensures !SameSlot(asked[i], a) {
      assert asked[i].partition == a.partition ==>
        (asked[i].cluster as nat, asked[i].slot) in AskedPlaces(asked, a.partition);
    }
  }

  lemma AskedOneMore(asked: seq<Artifact>, a: Artifact)
    ensures AskedPlaces(asked + [a], a.partition) == AskedPlaces(asked, a.partition) + {(a.cluster as nat, a.slot)}
    ensures AskedPartitions(asked + [a]) == AskedPartitions(asked) + {a.partition}
  {
    var more := asked + [a];
    assert more[|asked|] == a;
    forall p | p in AskedPlaces(asked, a.partition) ensures p in AskedPlaces(more, a.partition) {
      var i :| 0 <= i < |asked| && asked[i].partition == a.partition && p == (asked[i].cluster as nat, asked[i].slot);
      assert more[i] == asked[i];
    }
    forall q | q in AskedPartitions(asked) ensures q in AskedPartitions(more) {
      var i :| 0 <= i < |asked| && asked[i].partition == q;
      assert more[i] == asked[i];
    }
  }

  lemma PlaceSetOneMore(es: seq<Entry>, n: nat)
    requires n < |es|
    ensures PlaceSet(es[..n + 1]) == PlaceSet(es[..n]) + {PlaceOf(es[n])}
    ensures PlacesDiffer(es) ==> PlaceOf(es[n]) !in PlaceSet(es[..n])
  {
    var more := es[..n + 1];
    assert more[n] == es[n];
    forall p | p in PlaceSet(es[..n]) ensures p in PlaceSet(more) {
      var i :| 0 <= i < n && p == PlaceOf(es[..n][i]);
      assert more[i] == es[..n][i];
    }
    if PlacesDiffer(es) {
      forall i | 0 <= i < n ensures PlaceOf(es[..n][i]) != PlaceOf(es[n]) {
        assert !SamePlace(es[i], es[n]);
      }
    }
  }

  // A path never asked for is taken only by a file there at the start.
  lemma TakenMeansBefore(directory: string, initial: map<string, seq<u8>>, earlier: seq<string>,
                         asked: seq<Artifact>, files: map<string, seq<u8>>, attempts: seq<string>, a: Artifact)
    requires StoreKept(Some(directory), initial, earlier, asked, files, attempts) && NeverAsked(asked, a)
    ensures Path(directory, a) in files ==> Path(directory, a) in initial
  {
    hide Path;
    if Path(directory, a) in files && Path(directory, a) !in initial {
      var i :| 0 <= i < |asked| && Path(directory, a) == Path(directory, asked[i]);
      PathInjective(directory, a, asked[i]);
    }
  }

  lemma StoreGrows(directory: string, initial: map<string, seq<u8>>, earlier: seq<string>,
                   asked: seq<Artifact>, files: map<string, seq<u8>>, attempts: seq<string>,
                   a: Artifact, after: map<string, seq<u8>>)
    requires StoreKept(Some(directory), initial, earlier, asked, files, attempts) && NeverAsked(asked, a)
    requires forall p :: p in files ==> p in after && after[p] == files[p]
    requires forall p :: p in after && p !in files ==> p == Path(directory, a)
    ensures StoreKept(Some(directory), initial, earlier, asked + [a], after, attempts + [Path(directory, a)])
  {
    hide Path;
    var more := asked + [a];
    assert Paths(directory, more) == Paths(directory, asked) + [Path(directory, a)];
    forall p | p in after && p !in initial
      ensures exists i :: 0 <= i < |more| && p == Path(directory, more[i])
    {
      if p in files {
        var i :| 0 <= i < |asked| && p == Path(directory, asked[i]);
        assert more[i] == asked[i];
      } else {
        assert more[|asked|] == a;
      }
    }
  }

  /** The paths a run asks for are pairwise distinct. */
  lemma PathsAreDistinct(directory: string, asked: seq<Artifact>, i: nat, j: nat)
    requires forall i, j :: 0 <= i < j < |asked| ==> !SameSlot(asked[i], asked[j])
    requires i < j < |asked|
    ensures Paths(directory, asked)[i] != Paths(directory, asked)[j]
  {
    if Path(directory, asked[i]) == Path(directory, asked[j]) {
      PathInjective(directory, asked[i], asked[j]);
    }
  }

  // --- What is reported of one entry --------------------------------------

  ghost predicate Concerns(e: Event, listing: Listing, part: DirectoryPart, entry: Entry) {
    e.AboutContent() && e.listing == listing && e.part == part && e.entry == entry
  }

  // The reports on one entry: what the FAT says of the run it implies and,
  // where runs are read, the digest of exactly the bytes it declares.
  ghost predicate Finding(image: seq<u8>, v: Volume, partition: u8, faultless: bool, options: Options,
                          listing: Listing, part: DirectoryPart, entry: Entry, block: seq<Event>)
    requires v.Sound()
  {
    if |block| == 1 && block[0].NotAssessed? then !faultless && Concerns(block[0], listing, part, entry)
    else
      match Assessed(image, v, entry, listing)
      case None => block == []
      case Some(NotEligible(reason)) => block == [IneligibleFound(listing, part, entry, reason)]
      case Some(RunIsBroken(run, first)) => block == [RunBroken(listing, part, entry, run, first)]
      case Some(IsRecoverable(found)) =>
        if options.recover then
          |block| == 2 && block[0] == Recoverable(listing, part, entry, found.run)
          && Concerns(block[1], listing, part, entry)
          && ReadResult(image, v, partition, faultless, options, found.run, block[1])
        else block == [Recoverable(listing, part, entry, found.run)]
  }

  ghost predicate ReadResult(image: seq<u8>, v: Volume, partition: u8, faultless: bool, options: Options,
                             run: ClusterRun, e: Event)
    requires v.Sound() && e.AboutContent()
  {
    if e.NotExtracted? then !faultless
    else
      && e.Extracted? && v.HasCluster(run.firstCluster)
      && e.extraction.digest == Sha256(Content(image, v, run))
      && e.extraction.bytesHashed == run.fileSize && e.extraction.slackBytes == run.slackBytes
      && e.validation == Validate(e.extraction.digest, e.extraction.bytesHashed, options.reference)
      && Placed(options, Artifact(partition, e.entry.cluster, e.entry.slot, run.firstCluster), e.extraction.output)
      && e.readbackMatches == ReadbackVerdict(e.extraction)
  }

  // An artifact is reported exactly where one is asked for, at its own path.
  predicate Placed(options: Options, a: Artifact, output: Option<Output>) {
    if options.output.None? then output.None?
    else output.Some? && output.value.path == Path(options.output.value, a)
  }

  function ReadbackVerdict(x: ExtractionResult): Option<bool> {
    if x.output.Some? && x.output.value.Written? then Some(x.output.value.readback == x.digest) else None
  }

  // What was reported of each entry, one block of events for each.
  ghost predicate Told(image: seq<u8>, v: Volume, partition: u8, faultless: bool, options: Options,
                       subjects: seq<Subject>, blocks: seq<seq<Event>>)
    requires v.Sound()
  {
    |blocks| == |subjects| && forall i :: 0 <= i < |blocks| ==>
      Finding(image, v, partition, faultless, options, subjects[i].listing, subjects[i].part, subjects[i].entry,
        blocks[i])
  }

  lemma ToldMore(image: seq<u8>, v: Volume, partition: u8, faultless: bool, options: Options,
                 a: seq<Subject>, b: seq<Subject>, told: seq<seq<Event>>, more: seq<seq<Event>>)
    requires v.Sound()
    requires Told(image, v, partition, faultless, options, a, told)
    requires Told(image, v, partition, faultless, options, b, more)
    ensures Told(image, v, partition, faultless, options, a + b, told + more)
    ensures Flat(told + more) == Flat(told) + Flat(more)
  {
    hide Finding;
    FlatJoined(told, more);
  }

  lemma ToldIsContent(image: seq<u8>, v: Volume, partition: u8, faultless: bool, options: Options,
                      subjects: seq<Subject>, told: seq<seq<Event>>)
    requires v.Sound() && Told(image, v, partition, faultless, options, subjects, told)
    ensures forall i :: 0 <= i < |told| ==> AllContent(told[i])
  {
    hide Finding, AllContent;
    forall i | 0 <= i < |told| ensures AllContent(told[i]) {
      var s := subjects[i];
      FindingIsContent(image, v, partition, faultless, options, s.listing, s.part, s.entry, told[i]);
    }
  }

  lemma FindingIsContent(image: seq<u8>, v: Volume, partition: u8, faultless: bool, options: Options,
                         listing: Listing, part: DirectoryPart, entry: Entry, block: seq<Event>)
    requires v.Sound() && Finding(image, v, partition, faultless, options, listing, part, entry, block)
    ensures AllContent(block)
  {
    hide Assessed, Content, Volume.Sound;
  }

  /** What one volume's reports are accounted against: the evidence, what was
      asked of the run, and the events and requests that came before. */
  datatype Ledger = Ledger(
      image: seq<u8>,
      volume: Volume,
      partition: u8,
      faultless: bool,
      options: Options,
      before: seq<Event>,
      askedBefore: seq<Artifact>)
  {
    // Every report on structure is there, each followed by what is said of
    // the entries it lists, and nothing else; and the artifacts asked for are
    // those of the runs reported free.
    ghost predicate Balances(structure: seq<Event>, told: seq<seq<Event>>, events: seq<Event>, asked: seq<Artifact>)
      requires volume.Sound()
    {
      && Told(image, volume, partition, faultless, options, SubjectsOf(structure), told)
      && events == before + Woven(structure, told)
      && asked == askedBefore + Requested(options, partition, Flat(told))
    }
  }

  lemma BalancesAtFirst(l: Ledger)
    requires l.volume.Sound()
    ensures l.Balances([], [], l.before, l.askedBefore)
  {
    WovenOfNone();
    FlatOfOne([]);
    RequestedOfBlock(l.options, l.partition, []);
  }

  // One directory reported, and its entries.
  lemma BalancesListing(l: Ledger, structure: seq<Event>, told: seq<seq<Event>>, events: seq<Event>,
                        asked: seq<Artifact>,
                        es: seq<Event>, blocks: seq<seq<Event>>)
    requires l.volume.Sound() && l.Balances(structure, told, events, asked) && IsReport(es)
    requires Told(l.image, l.volume, l.partition, l.faultless, l.options, SubjectsOf(es), blocks)
    ensures l.Balances(structure + es, told + blocks, events + es + Flat(blocks),
                       asked + Requested(l.options, l.partition, Flat(blocks)))
  {
    hide Finding, Woven, SubjectsOf, Requested, Flat, IsReport, Volume.Sound;
    SubjectsJoined(structure, es);
    WovenOneMore(structure, told, es, blocks);
    ToldMore(l.image, l.volume, l.partition, l.faultless, l.options, SubjectsOf(structure), SubjectsOf(es), told,
      blocks);
    RequestedJoined(l.options, l.partition, Flat(told), Flat(blocks));
  }

  // Reports that list no directory.
  lemma BalancesSilent(l: Ledger, structure: seq<Event>, told: seq<seq<Event>>, events: seq<Event>,
                       asked: seq<Artifact>,
                       es: seq<Event>)
    requires l.volume.Sound() && l.Balances(structure, told, events, asked)
    requires forall i :: 0 <= i < |es| ==> Silent(es[i])
    ensures l.Balances(structure + es, told, events + es, asked)
  {
    hide Finding, Woven, SubjectsOf, Requested, Flat, Silent, Volume.Sound;
    SubjectsJoined(structure, es);
    WovenSilent(structure, told, es);
    assert SubjectsOf(structure) + [] == SubjectsOf(structure);
  }

  // What an extraction did to the destination, given the files before it.
  ghost predicate LeftBy(r: Result<ExtractionResult, RecoveryError>, path: Option<string>, content: seq<u8>,
                             before: map<string, seq<u8>>, after: map<string, seq<u8>>, lossless: bool)
  {
    match r
    case Success(x) => Delivered(x.output, path, content, before, after, lossless)
    case Failure(e) =>
      if e.PartialLeft? then path == Some(e.path) && OnlyAdds(before, after, e.path) else after == before
  }

  lemma ExtractionPreservesFiles(r: Result<ExtractionResult, RecoveryError>, path: Option<string>, content: seq<u8>,
                                 before: map<string, seq<u8>>, after: map<string, seq<u8>>, lossless: bool)
    requires LeftBy(r, path, content, before, after, lossless)
    ensures forall p :: p in before ==> p in after && after[p] == before[p]
    ensures forall p :: p in after && p !in before ==> path == Some(p)
  {
    if r.Success? {
      DeliveryPreservesFiles(r.value.output, path, content, before, after, lossless);
    } else if r.error.PartialLeft? {
      PartialPreservesFiles(before, after, r.error.path);
    }
  }

  /** One extraction, of a slot never asked for before, leaves the destination
      as it should be, and finds its path taken only by a file that was there
      when the run began. */
  lemma ExtractionKeepsStore(output: Option<string>, initial: map<string, seq<u8>>, earlier: seq<string>,
                             asked: seq<Artifact>, before: map<string, seq<u8>>, attempts: seq<string>,
                             a: Artifact, r: Result<ExtractionResult, RecoveryError>, content: seq<u8>,
                             after: map<string, seq<u8>>, lossless: bool)
    requires StoreKept(output, initial, earlier, asked, before, attempts) && NeverAsked(asked, a)
    requires var path := PathFor(output, a); LeftBy(r, path, content, before, after, lossless)
    ensures var path := PathFor(output, a);
      StoreKept(output, initial, earlier,
                asked + (if output.Some? then [a] else []), after,
                attempts + (if path.Some? then [path.value] else []))
    ensures r.Success? ==> TakenIn(initial, r.value.output)
  {
    hide Path;
    ExtractionPreservesFiles(r, PathFor(output, a), content, before, after, lossless);
    if output.Some? {
      TakenMeansBefore(output.value, initial, earlier, asked, before, attempts, a);
      StoreGrows(output.value, initial, earlier, asked, before, attempts, a, after);
    } else {
      assert asked + [] == asked && attempts + [] == attempts;
    }
  }

  function PathFor(output: Option<string>, a: Artifact): Option<string> {
    if output.Some? then Some(Path(output.value, a)) else None
  }

  class Session {
    const reader: EvidenceReader
    const length: u64
    const options: Options
    const store: Store
    const counts: RunCounts
    const sink: Sink

    // The destination as it was when the run began.
    ghost const initial: map<string, seq<u8>>
    ghost const earlier: seq<string>

    // Every artifact whose file has been asked for.
    ghost var asked: seq<Artifact>

    // Every range asked for before the run began.
    ghost const priorReads: set<Span>

    // No read can fail: the reader serves every range the image holds, and the
    // measured length is one it has.
    ghost predicate Dependable() { reader.reliable && 512 <= length <= |reader.image| }

    ghost predicate TraceHolds(events: seq<Event>)
      reads this, store
    {
      TraceOk(options, initial, Dependable(), store.files, store.lossless, events)
    }

    ghost predicate StoreHolds()
      reads this, store
    {
      StoreKept(options.output, initial, earlier, asked, store.files, store.attempts)
    }

    // Nothing past the measured length has been asked for, if it holds a
    // sector.
    ghost predicate ReadsWithin()
      reads this, reader
    {
      512 <= length ==> forall s :: s in reader.requests && s !in priorReads ==> Inside(s, 0, length)
    }

    ghost predicate Valid()
      reads this, reader, store, counts, sink
    {
      counts.View() == TallyOf(sink.events) && TraceHolds(sink.events) && StoreHolds() && ReadsWithin()
    }

    lemma KeepTrace(events: seq<Event>, e: Event)
      requires TraceHolds(events)
      requires Plain(e) || (e.Recoverable? && !options.recover)
      requires Dependable() ==> !e.Faulty()
      ensures TraceHolds(events + [e])
    {
      hide TraceOk;
      TraceKept(options, initial, Dependable(), store.files, store.lossless, events, e);
    }

    // A free run just reported, and what became of reading it.
    lemma KeepPair(events: seq<Event>, run: Event, result: Event)
      requires TraceHolds(events) && options.recover && run.Recoverable?
      requires result.Extracted? || result.NotExtracted?
      requires TakenPathIn(initial, result) && WrittenHolds(result, store.files, store.lossless)
      requires result.Extracted? ==> Judged(options, result)
      requires Dependable() ==> !result.Faulty()
      ensures TraceHolds(events + [run] + [result])
    {
      hide TraceOk;
      TracePair(options, initial, Dependable(), store.files, store.lossless, events, run, result);
    }

    constructor (reader: EvidenceReader, length: u64, options: Options, store: Store)
      ensures Valid() && asked == [] && sink.events == [] && fresh(sink) && fresh(counts)
      ensures this.reader == reader && this.length == length && this.options == options && this.store == store
      ensures initial == store.files && earlier == store.attempts && priorReads == reader.requests
    {
      this.reader := reader;
      this.length := length;
      this.options := options;
      this.store := store;
      counts := new RunCounts();
      sink := new Sink();
      initial := store.files;
      earlier := store.attempts;
      priorReads := reader.requests;
      asked := [];
      new;
      TallyOfNone(sink.events);
      CountNone(sink.events, IsFreeRun);
      CountNone(sink.events, IsExtracted);
      CountNone(sink.events, IsNotExtracted);
    }

    // What an extent the partition table listed promises.
    ghost predicate Holds(v: Volume) { v.extent.FitsIn(length) }

    twostate lemma StaysWithin(v: Volume)
      requires Holds(v) && ReadsStayInside(reader, v) && old(ReadsWithin())
      ensures ReadsWithin()
    {
    }

    // Reading within a volume keeps the session as it was.
    twostate lemma AfterReading(v: Volume)
      requires old(Valid()) && Holds(v) && ReadsStayInside(reader, v)
      requires unchanged(this, store, counts, sink)
      ensures Valid()
    {
    }

    // Reads one sector, which the measured image holds.
    method ReadSector(offset: u64) returns (r: Result<seq<u8>, ReadError>)
      requires Valid() && (512 <= length ==> offset + 512 <= length)
      modifies reader
      ensures Valid()
      ensures r.Success? ==> r.value == Slice(reader.image, offset, 512)
      ensures r.Failure? ==> !(reader.reliable && offset + 512 <= |reader.image|)
    {
      hide TallyOf, TraceHolds, StoreHolds;
      r := reader.ReadExactAt(offset, 512);
    }

    // What reporting a finding comes to.
    twostate predicate Reports(e: Event)
      reads this, reader, store, counts, sink
    {
      Valid() && Adds([e])
    }

    // The events added.
    twostate predicate Adds(es: seq<Event>)
      reads this, sink
    {
      sink.events == old(sink.events) + es
    }

    method ReportTableUnread()
      requires Valid() && !Dependable()
      modifies counts, sink
      ensures Reports(TableUnread)
    {
      hide TallyOf, TraceHolds, StoreHolds;
      KeepTrace(sink.events, TableUnread);
      sink.Record(TableUnread);
      counts.tableUnread := counts.tableUnread + 1;
    }

    method ReportTableRejected(e: ParseError)
      requires Valid()
      modifies counts, sink
      ensures Reports(TableRejected(e))
    {
      hide TallyOf, TraceHolds, StoreHolds;
      KeepTrace(sink.events, TableRejected(e));
      sink.Record(TableRejected(e));
      counts.tableRejected := counts.tableRejected + 1;
    }

    // A report no count depends on.
    method ReportUncounted(e: Event)
      requires Valid()
      requires e.DiskSignature? || e.PartitionListed? || e.PartitionsListed? || e.BootSectorFound?
      modifies counts, sink
      ensures Reports(e)
    {
      hide TallyOf, TraceHolds, StoreHolds;
      KeepTrace(sink.events, e);
      sink.Record(e);
    }

    method ReportGpt()
      requires Valid()
      modifies counts, sink
      ensures Reports(GptDetected)
    {
      hide TallyOf, TraceHolds, StoreHolds;
      KeepTrace(sink.events, GptDetected);
      sink.Record(GptDetected);
      counts.gpt := counts.gpt + 1;
    }

    // All anomalies are reported; those that drop an entry are also gaps.
    method ReportAnomalies(anomalies: seq<Anomaly>)
      requires Valid()
      modifies counts, sink
      ensures Valid()
      ensures Adds(if anomalies == [] then [] else [Anomalies(anomalies)])
    {
      hide TallyOf, TraceHolds, StoreHolds;
      counts.partitionsAnomalous := counts.partitionsAnomalous + DropCount(anomalies);
      if anomalies != [] {
        KeepTrace(sink.events, Anomalies(anomalies));
        sink.Record(Anomalies(anomalies));
      }
    }

    method ReportPartitionUnread(p: MbrPartition)
      requires Valid() && !Dependable()
      modifies counts, sink
      ensures Reports(PartitionUnread(p))
    {
      hide TallyOf, TraceHolds, StoreHolds;
      KeepTrace(sink.events, PartitionUnread(p));
      sink.Record(PartitionUnread(p));
      counts.partitionUnread := counts.partitionUnread + 1;
    }

    // An identified filesystem that is not analysed, and one nothing could
    // identify, are different gaps.
    method ReportIdentified(p: MbrPartition, id: Identification)
      requires Valid()
      modifies counts, sink
      ensures Reports(PartitionIdentified(p, id))
    {
      hide RunCounts.View, Bumped, TallyOf, TraceHolds, StoreHolds;
      KeepTrace(sink.events, PartitionIdentified(p, id));
      sink.Record(PartitionIdentified(p, id));
      CountIdentified(p, id);
    }

    method CountIdentified(p: MbrPartition, id: Identification)
      modifies counts
      ensures counts.View() == Bumped(old(counts.View()), PartitionIdentified(p, id))
    {
      if id.Unknown? {
        counts.unidentified := counts.unidentified + 1;
      } else if !id.filesystem.Fat32? {
        counts.unsupported := counts.unsupported + 1;
      }
    }

    method ReportBootRejected(e: Fat32Error)
      requires Valid()
      modifies counts, sink
      ensures Reports(BootSectorRejected(e))
    {
      hide TallyOf, TraceHolds, StoreHolds;
      KeepTrace(sink.events, BootSectorRejected(e));
      sink.Record(BootSectorRejected(e));
      counts.bootRejected := counts.bootRejected + 1;
    }

    method ReportDirectory(reached: Reached, d: Directory)
      requires Valid() && !reached.Root?
      modifies counts, sink
      ensures Reports(DirectoryRead(reached, d))
    {
      hide TallyOf, TraceHolds, StoreHolds;
      KeepTrace(sink.events, DirectoryRead(reached, d));
      sink.Record(DirectoryRead(reached, d));
    }

    method ReportRoot(d: Directory)
      requires Valid()
      modifies counts, sink
      ensures Reports(DirectoryRead(Root, d))
    {
      hide TallyOf, TraceHolds, StoreHolds;
      KeepTrace(sink.events, DirectoryRead(Root, d));
      counts.volumesAnalysed := counts.volumesAnalysed + 1;
      sink.Record(DirectoryRead(Root, d));
    }

    method ReportRootUnread(e: DirectoryError)
      requires Valid() && (Dependable() ==> !FromReading(e))
      modifies counts, sink
      ensures Reports(RootDirectoryUnread(e))
    {
      hide TallyOf, TraceHolds, StoreHolds;
      KeepTrace(sink.events, RootDirectoryUnread(e));
      sink.Record(RootDirectoryUnread(e));
      counts.rootUnread := counts.rootUnread + 1;
    }

    method ReportDirectoryNotRead(reached: Reached, reason: NotReadReason)
      requires Valid() && (Dependable() && reason.NotEnumerated? ==> !FromReading(reason.error))
      modifies counts, sink
      ensures Reports(DirectoryNotRead(reached, reason))
    {
      hide TallyOf, TraceHolds, StoreHolds;
      KeepTrace(sink.events, DirectoryNotRead(reached, reason));
      sink.Record(DirectoryNotRead(reached, reason));
      counts.directoriesUnread := counts.directoriesUnread + 1;
    }

    method ReportMayContinue(cluster: u32)
      requires Valid()
      modifies counts, sink
      ensures Reports(ListingMayContinue(cluster))
    {
      hide TallyOf, TraceHolds, StoreHolds;
      KeepTrace(sink.events, ListingMayContinue(cluster));
      sink.Record(ListingMayContinue(cluster));
      counts.listingsMayContinue := counts.listingsMayContinue + 1;
    }

    method ReportSearchStopped(cluster: u32, e: DirectoryError)
      requires Valid() && !Dependable()
      modifies counts, sink
      ensures Reports(OrphanSearchStopped(cluster, e))
    {
      hide TallyOf, TraceHolds, StoreHolds;
      KeepTrace(sink.events, OrphanSearchStopped(cluster, e));
      sink.Record(OrphanSearchStopped(cluster, e));
      counts.orphanSearchStopped := counts.orphanSearchStopped + 1;
    }

    method ReportListedUnread(holder: u32, name: string, firstCluster: u32)
      requires Valid()
      modifies counts, sink
      ensures Reports(OrphanedListingUnread(holder, name, firstCluster))
    {
      hide TallyOf, TraceHolds, StoreHolds;
      KeepTrace(sink.events, OrphanedListingUnread(holder, name, firstCluster));
      sink.Record(OrphanedListingUnread(holder, name, firstCluster));
      counts.directoriesUnread := counts.directoriesUnread + 1;
    }

    method ReportNotAssessed(entry: Entry, listing: Listing, part: DirectoryPart)
      requires Valid() && !Dependable()
      modifies counts, sink
      ensures Reports(NotAssessed(listing, part, entry))
    {
      hide TallyOf, TraceHolds, StoreHolds;
      KeepTrace(sink.events, NotAssessed(listing, part, entry));
      sink.Record(NotAssessed(listing, part, entry));
      counts.notAssessed := counts.notAssessed + 1;
    }

    method ReportIneligible(entry: Entry, listing: Listing, part: DirectoryPart, reason: Ineligible)
      requires Valid()
      modifies counts, sink
      ensures Reports(IneligibleFound(listing, part, entry, reason))
    {
      hide RunCounts.View, Bumped, TallyOf, TraceHolds, StoreHolds;
      KeepTrace(sink.events, IneligibleFound(listing, part, entry, reason));
      CountIneligible(IneligibleFound(listing, part, entry, reason));
      sink.Record(IneligibleFound(listing, part, entry, reason));
    }

    method CountIneligible(e: Event)
      requires e.IneligibleFound?
      modifies counts
      ensures counts.View() == Bumped(old(counts.View()), e)
    {
      match e.why
      case EmptyFile => counts.empty := counts.empty + 1;
      case ReservedFirstCluster(_) => counts.reservedCluster := counts.reservedCluster + 1;
      case RunOutOfRange(_, _) => counts.runOutOfRange := counts.runOutOfRange + 1;
      case _ =>
    }

    method ReportBroken(entry: Entry, listing: Listing, part: DirectoryPart, run: ClusterRun, first: u32)
      requires Valid()
      modifies counts, sink
      ensures Reports(RunBroken(listing, part, entry, run, first))
    {
      hide TallyOf, TraceHolds, StoreHolds;
      KeepTrace(sink.events, RunBroken(listing, part, entry, run, first));
      sink.Record(RunBroken(listing, part, entry, run, first));
      counts.refused := counts.refused + 1;
    }

    // A free run has just been reported and its result has not.
    ghost predicate Reading(before: seq<Event>, listing: Listing, part: DirectoryPart, entry: Entry, run: ClusterRun)
      reads this, reader, store, counts, sink
    {
      && options.recover && sink.events == before + [Recoverable(listing, part, entry, run)]
      && counts.View() == TallyOf(sink.events)
      && TraceHolds(before)
      && StoreHolds() && ReadsWithin()
    }

    method ReportFree(entry: Entry, listing: Listing, part: DirectoryPart, run: ClusterRun)
      requires Valid()
      modifies counts, sink
      ensures Adds([Recoverable(listing, part, entry, run)])
      ensures if options.recover then Reading(old(sink.events), listing, part, entry, run) else Valid()
    {
      hide TallyOf, TraceHolds, StoreHolds;
      if !options.recover {
        KeepTrace(sink.events, Recoverable(listing, part, entry, run));
      }
      counts.freeRuns := counts.freeRuns + 1;
      sink.Record(Recoverable(listing, part, entry, run));
    }

    method ReportNotExtracted(entry: Entry, listing: Listing, part: DirectoryPart, run: ClusterRun,
                              ghost before: seq<Event>)
      requires Reading(before, listing, part, entry, run) && !Dependable()
      modifies counts, sink
      ensures Reports(NotExtracted(listing, part, entry))
    {
      hide TallyOf, TraceHolds, StoreHolds;
      KeepPair(before, Recoverable(listing, part, entry, run), NotExtracted(listing, part, entry));
      sink.Record(NotExtracted(listing, part, entry));
      counts.notExtracted := counts.notExtracted + 1;
    }

    method ReportExtraction(entry: Entry, listing: Listing, part: DirectoryPart, run: ClusterRun, x: ExtractionResult,
                            ghost before: seq<Event>)
      returns (ghost result: Event)
      requires Reading(before, listing, part, entry, run)
      requires TakenIn(initial, x.output) && WrittenIn(store.files, store.lossless, x)
      modifies counts, sink
      ensures Reports(result)
      ensures result == Extracted(listing, part, entry, x,
        Validate(x.digest, x.bytesHashed, options.reference), ReadbackVerdict(x))
    {
      hide RunCounts.View, TallyOf, TraceHolds, StoreHolds, TakenIn, WrittenIn;
      var readbackMatches := CountDelivery(x);
      var validation := Validate(x.digest, x.bytesHashed, options.reference);
      CountMatch(validation);
      result := Extracted(listing, part, entry, x, validation, readbackMatches);
      KeepPair(before, Recoverable(listing, part, entry, run), result);
      sink.Record(Extracted(listing, part, entry, x, validation, readbackMatches));
    }

    method CountMatch(validation: Validation)
      modifies counts
      ensures counts.View() == old(counts.View()).(
        matched := old(counts.View()).matched + if validation.outcome.Match? then 1 else 0)
    {
      if validation.outcome == Match {
        counts.matched := counts.matched + 1;
      }
    }

    // Counts an artifact the operator asked for and does not have, and says
    // whether one that was written reads back as it should.
    method CountDelivery(x: ExtractionResult) returns (readbackMatches: Option<bool>)
      modifies counts
      ensures readbackMatches == ReadbackVerdict(x)
      ensures counts.View() == old(counts.View()).(
        notDelivered := old(counts.View()).notDelivered +
          if x.output.Some? && !x.output.value.Written? && !x.output.value.Unverified? then 1 else 0)
    {
      readbackMatches := None;
      if x.output.Some? {
        var output := x.output.value;
        if output.Exists? || output.NotCreated? || output.Failed? {
          counts.notDelivered := counts.notDelivered + 1;
        } else if output.Written? {
          readbackMatches := Some(output.readback == x.digest);
        }
      }
    }

    // Nothing more has been asked for, or only this entry's artifact.
    twostate predicate AskedOnly(partition: u8, entry: Entry)
      reads this
    {
      asked == old(asked) || exists first: u32 ::
        asked == old(asked) + [Artifact(partition, entry.cluster, entry.slot, first)]
    }

    // Nothing more has been asked for, but places among these.
    twostate predicate AskedAmong(partition: u8, new places: set<(nat, nat)>)
      reads this
    {
      AskedPlaces(asked, partition) <= old(AskedPlaces(asked, partition)) + places
      && AskedPartitions(asked) <= old(AskedPartitions(asked)) + {partition}
    }

    // One entry: its assessment and, where that finds a free run and runs are
    // read, the reading of it.
    method ReportEntry(entry: Entry, v: Volume, partition: u8, listing: Listing, part: DirectoryPart)
      returns (ghost block: seq<Event>)
      requires Valid() && v.Sound() && Holds(v)
      requires PlaceOf(entry) !in AskedPlaces(asked, partition)
      modifies this`asked, reader, store, counts, sink
      ensures Valid() && Adds(block) && AskedOnly(partition, entry)
      ensures asked == old(asked) + Requested(options, partition, block)
      ensures Finding(reader.image, v, partition, Faultless(reader, v), options, listing, part, entry, block)
    {
      hide Valid, Reading, Assessed, Content, Requested, Placed;
      var assessed := AssessListed(entry, listing, v, reader);
      AfterReading(v);
      if assessed.Failure? {
        ReportNotAssessed(entry, listing, part);
        block := [NotAssessed(listing, part, entry)];
        RequestedOfBlock(options, partition, block);
        return;
      }
      if assessed.value.None? {
        RequestedOfBlock(options, partition, []);
        return [];
      }
      match assessed.value.value {
        case NotEligible(reason) =>
          ReportIneligible(entry, listing, part, reason);
          block := [IneligibleFound(listing, part, entry, reason)];
        case RunIsBroken(run, first) =>
          ReportBroken(entry, listing, part, run, first);
          block := [RunBroken(listing, part, entry, run, first)];
        case IsRecoverable(found) =>
          ReportFree(entry, listing, part, found.run);
          block := [Recoverable(listing, part, entry, found.run)];
          if options.recover {
            var result := ReadRun(found, entry, v, partition, listing, part, old(sink.events));
            block := block + [result];
          }
      }
      RequestedOfBlock(options, partition, block);
    }

    // Reads a free run, having just reported it, and reports what became of it.
    method ReadRun(found: UnallocatedRun, entry: Entry, v: Volume, partition: u8, listing: Listing,
                   part: DirectoryPart, ghost before: seq<Event>)
      returns (ghost result: Event)
      requires v.Sound() && Holds(v) && Fits(v, found.run) && AllFree(reader.image, v, found.run)
      requires Reading(before, listing, part, entry, found.run)
      requires PlaceOf(entry) !in AskedPlaces(asked, partition)
      modifies this`asked, reader, store, counts, sink
      ensures Reports(result)
      ensures asked == old(asked) + if options.output.Some?
        then [Artifact(partition, entry.cluster, entry.slot, found.run.firstCluster)] else []
      ensures Concerns(result, listing, part, entry) && (result.Extracted? || result.NotExtracted?)
      ensures ReadResult(reader.image, v, partition, Faultless(reader, v), options, found.run, result)
    {
      hide TallyOf, TraceOk, Content, Path, AllFree, StoreKept, RunCounts.View;
      var artifact := Artifact(partition, entry.cluster, entry.slot, found.run.firstCluster);
      ghost var content := Content(reader.image, v, found.run);
      var path := PathFor(options.output, artifact);
      var extracted := Extract(found, v, reader, store, path);
      StaysWithin(v);
      UnaskedPlace(asked, artifact);
      ghost var files := old(store.files);
      ExtractionKeepsStore(options.output, initial, earlier, asked, files, old(store.attempts),
                           artifact, extracted, content, store.files, store.lossless);
      ExtractionPreservesFiles(extracted, path, content, files, store.files, store.lossless);
      TraceSurvives(options, initial, Dependable(), files, store.files, store.lossless, before);
      asked := asked + if options.output.Some? then [artifact] else [];
      if extracted.Failure? {
        ReportNotExtracted(entry, listing, part, found.run, before);
        result := NotExtracted(listing, part, entry);
      } else {
        DeliveredAtPath(extracted.value.output, path, content, files, store.files, store.lossless);
        result := ReportExtraction(entry, listing, part, found.run, extracted.value, before);
      }
    }

    // Every entry in turn, each at a place never asked for before.
    method ReportRecovery(entries: seq<Entry>, v: Volume, partition: u8, listing: Listing, part: DirectoryPart)
      returns (ghost blocks: seq<seq<Event>>)
      requires Valid() && v.Sound() && Holds(v) && PlacesDiffer(entries)
      requires PlaceSet(entries) !! AskedPlaces(asked, partition)
      modifies this`asked, reader, store, counts, sink
      ensures Valid() && AskedAmong(partition, PlaceSet(entries))
      ensures Adds(Flat(blocks)) && asked == old(asked) + Requested(options, partition, Flat(blocks))
      ensures Told(reader.image, v, partition, Faultless(reader, v), options,
                   SubjectsAmong(entries, listing, part), blocks)
    {
      hide Valid, Finding, Flat, AskedPlaces, AskedPartitions, PlaceSet, PlacesDiffer, Requested;
      blocks := [];
      FlatOfOne([]);
      RequestedOfBlock(options, partition, []);
      NoPlaces(entries);
      for i := 0 to |entries|
        invariant Valid() && AskedAmong(partition, PlaceSet(entries[..i]))
        invariant |blocks| == i && Adds(Flat(blocks))
        invariant asked == old(asked) + Requested(options, partition, Flat(blocks))
        invariant forall k :: 0 <= k < i ==>
          Finding(reader.image, v, partition, Faultless(reader, v), options, listing, part, entries[k], blocks[k])
      {
        PlaceSetOneMore(entries, i);
        PlaceIn(entries, i);
        label before:
        var block := ReportEntry(entries[i], v, partition, listing, part);
        FlatJoined(blocks, [block]);
        FlatOfOne(block);
        RequestedJoined(options, partition, Flat(blocks), block);
        blocks := blocks + [block];
        if asked != old@before(asked) {
          AskedOneMore(old@before(asked), asked[|asked| - 1]);
        }
      }
      assert entries[..|entries|] == entries;
    }
  }

  // One entry's reports ask for at most the artifact of the run they begin
  // with.
  lemma RequestedOfBlock(options: Options, partition: u8, block: seq<Event>)
    requires |block| <= 2 && (|block| == 2 ==> !block[1].Recoverable?)
    ensures Requested(options, partition, block) ==
      if options.recover && options.output.Some? && block != [] && block[0].Recoverable? then
        [Artifact(partition, block[0].entry.cluster, block[0].entry.slot, block[0].run.firstCluster)]
      else []
  {
    GatherFew(block, RequestOf(partition));
  }

  lemma RequestedJoined(options: Options, partition: u8, a: seq<Event>, b: seq<Event>)
    ensures Requested(options, partition, a + b) == Requested(options, partition, a) + Requested(options, partition, b)
  {
    GatherJoined(a, b, RequestOf(partition));
  }

  lemma DeliveredAtPath(output: Option<Output>, path: Option<string>, pushed: seq<u8>,
                        before: map<string, seq<u8>>, files: map<string, seq<u8>>, lossless: bool)
    requires Delivered(output, path, pushed, before, files, lossless)
    ensures if path.None? then output.None? else output.Some? && output.value.path == path.value
  {
  }

  lemma NoPlaces(es: seq<Entry>)
    ensures PlaceSet(es[..0]) == {}
  {
  }

  lemma PlaceIn(es: seq<Entry>, n: nat)
    requires n < |es|
    ensures PlaceOf(es[n]) in PlaceSet(es)
  {
  }

  lemma PartialPreservesFiles(before: map<string, seq<u8>>, after: map<string, seq<u8>>, path: string)
    requires OnlyAdds(before, after, path)
    ensures forall p :: p in before ==> p in after && after[p] == before[p]
    ensures forall p :: p in after && p !in before ==> p == path
  {
    forall p | p in before ensures p in after && after[p] == before[p] {
      assert p in after - {path};
    }
    forall p | p in after && p !in before ensures p == path {
      assert p == path || p in after - {path};
    }
  }
}
