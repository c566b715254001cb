/** A run's events in the order they are sent: each report on structure,
    followed by the reports on the entries of the directory it lists. */
module Trace {
  import opened ArtifactPath
  import opened Events
  import opened FatDirectory
  import opened FatEnumerate
  import opened FatRecovery
  import opened Machine

  ghost function Gather<T>(events: seq<Event>, f: Event -> seq<T>): seq<T> {
    if events == [] then [] else Gather(events[..|events| - 1], f) + f(events[|events| - 1])
  }

  lemma {:induction false} GatherJoined<T>(a: seq<Event>, b: seq<Event>, f: Event -> seq<T>)
    ensures Gather(a + b, f) == Gather(a, f) + Gather(b, f)
  {
    if b == [] {
      assert a + b == a;
    } else {
      GatherJoined(a, b[..|b| - 1], f);
      assert (a + b)[..|a + b| - 1] == a + b[..|b| - 1];
    }
  }

  lemma {:induction false} GatherNone<T>(events: seq<Event>, f: Event -> seq<T>)
    requires forall i :: 0 <= i < |events| ==> f(events[i]) == []
    ensures Gather(events, f) == []
  {
    if events != [] { GatherNone(events[..|events| - 1], f); }
  }

  lemma GatherFew<T>(es: seq<Event>, f: Event -> seq<T>)
    ensures Gather([], f) == []
    ensures |es| == 1 ==> Gather(es, f) == f(es[0])
    ensures |es| == 2 ==> Gather(es, f) == f(es[0]) + f(es[1])
  {
    if |es| == 1 { assert es[..0] == []; }
    if |es| == 2 { assert es[..1] == [es[0]] && [es[0]][..0] == []; }
  }

  // --- What is reported on ------------------------------------------------

  datatype Subject = Subject(listing: Listing, part: DirectoryPart, entry: Entry)

  function SubjectsAmong(slots: seq<Entry>, listing: Listing, part: DirectoryPart): seq<Subject> {
    seq(|slots|, i requires 0 <= i < |slots| => Subject(listing, part, slots[i]))
  }

  function SubjectsIn(d: Directory, listing: Listing): seq<Subject> {
    SubjectsAmong(d.entries, listing, EntriesPart) + SubjectsAmong(d.residue, listing, ResiduePart)
  }

  function ListedAs(reached: Reached): Listing { if reached.Orphaned? then OrphanedListing else WalkedListing }

  function SubjectsOfOne(e: Event): seq<Subject> {
    if e.DirectoryRead? then SubjectsIn(e.directory, ListedAs(e.reached)) else []
  }

  // Every entry of every directory read, in the order they were reported.
  ghost function SubjectsOf(structure: seq<Event>): seq<Subject> { Gather(structure, SubjectsOfOne) }

  ghost function Flat(blocks: seq<seq<Event>>): seq<Event> {
    if blocks == [] then [] else Flat(blocks[..|blocks| - 1]) + blocks[|blocks| - 1]
  }

  lemma {:induction false} FlatJoined(a: seq<seq<Event>>, b: seq<seq<Event>>)
    ensures Flat(a + b) == Flat(a) + Flat(b)
  {
    if b == [] {
      assert a + b == a;
    } else {
      FlatJoined(a, b[..|b| - 1]);
      assert (a + b)[..|a + b| - 1] == a + b[..|b| - 1];
    }
  }

  lemma FlatOfOne(block: seq<Event>)
    ensures Flat([]) == [] && Flat([block]) == block
  {
    assert [block][..0] == [];
  }

  // The artifacts asked for, one for each run found free.
  function RequestOf(partition: u8): Event -> seq<Artifact> {
    (e: Event) =>
      if e.Recoverable? then [Artifact(partition, e.entry.cluster, e.entry.slot, e.run.firstCluster)] else []
  }

  ghost function Requested(options: Options, partition: u8, content: seq<Event>): seq<Artifact> {
    if options.recover && options.output.Some? then Gather(content, RequestOf(partition)) else []
  }

  // --- Weaving structure and content --------------------------------------

  // One report on structure: one event, or a directory and that its listing
  // may continue.
  predicate IsReport(es: seq<Event>) {
    && 1 <= |es| <= 2 && !es[0].ListingMayContinue?
    && (|es| == 2 ==> es[0].DirectoryRead? && es[1].ListingMayContinue?)
  }

  // The length of the last report of a list of them.
  function LastReport(structure: seq<Event>): (m: nat)
    requires structure != []
    ensures 1 <= m <= |structure|
  {
    if |structure| >= 2 && structure[|structure| - 1].ListingMayContinue? then 2 else 1
  }

  // The events of these reports, each followed by the blocks on the entries
  // of the directory it lists.
  ghost function Woven(structure: seq<Event>, told: seq<seq<Event>>): seq<Event>
    decreases |structure|
  {
    if structure == [] then []
    else
      var front := |structure| - LastReport(structure);
      var last := structure[front..];
      var blocks := |SubjectsOf(last)|;
      if blocks > |told| then structure
      else Woven(structure[..front], told[..|told| - blocks]) + last + Flat(told[|told| - blocks..])
  }

  lemma WovenOfNone()
    ensures Woven([], []) == [] && SubjectsOf([]) == []
  {
  }

  // One more report, and what is said of its entries, come last.
  lemma WovenOneMore(structure: seq<Event>, told: seq<seq<Event>>, es: seq<Event>, blocks: seq<seq<Event>>)
    requires IsReport(es) && |blocks| == |SubjectsOf(es)|
    ensures Woven(structure + es, told + blocks) == Woven(structure, told) + es + Flat(blocks)
  {
    hide SubjectsOf, Flat;
    var all, both := structure + es, told + blocks;
    assert all[|structure|..] == es && all[..|structure|] == structure;
    assert both[|told|..] == blocks && both[..|told|] == told;
    assert LastReport(all) == |es|;
  }

  lemma SubjectsJoined(a: seq<Event>, b: seq<Event>)
    ensures SubjectsOf(a + b) == SubjectsOf(a) + SubjectsOf(b)
  {
    GatherJoined(a, b, SubjectsOfOne);
  }

  predicate Silent(e: Event) { !e.DirectoryRead? && !e.ListingMayContinue? }

  // Reports that list no directory are woven as they are.
  lemma {:induction false} WovenSilent(structure: seq<Event>, told: seq<seq<Event>>, es: seq<Event>)
    requires forall i :: 0 <= i < |es| ==> Silent(es[i])
    ensures Woven(structure + es, told) == Woven(structure, told) + es && SubjectsOf(es) == []
  {
    hide Woven, Flat;
    GatherNone(es, SubjectsOfOne);
    if es == [] {
      assert structure + es == structure;
    } else {
      var front, last := es[..|es| - 1], es[|es| - 1];
      WovenSilent(structure, told, front);
      GatherNone([last], SubjectsOfOne);
      WovenOneMore(structure + front, told, [last], []);
      FlatOfOne([]);
      assert structure + es == structure + front + [last] && told + [] == told;
    }
  }

  // --- Taking them apart again --------------------------------------------

  function Structural(e: Event): seq<Event> { if e.AboutContent() then [] else [e] }

  function OfContent(e: Event): seq<Event> { if e.AboutContent() then [e] else [] }

  // The events about structure, and the events about content, in order.

  ghost function Skeleton(events: seq<Event>): seq<Event> { Gather(events, Structural) }

  ghost function Contents(events: seq<Event>): seq<Event> { Gather(events, OfContent) }

  ghost predicate AllContent(events: seq<Event>) { forall i :: 0 <= i < |events| ==> events[i].AboutContent() }

  ghost predicate AllStructure(events: seq<Event>) { forall i :: 0 <= i < |events| ==> !events[i].AboutContent() }

  lemma {:induction false} OfOneKind(events: seq<Event>)
    ensures AllContent(events) ==> Skeleton(events) == [] && Contents(events) == events
    ensures AllStructure(events) ==> Skeleton(events) == events && Contents(events) == []
  {
    if events != [] { OfOneKind(events[..|events| - 1]); }
  }

  lemma {:induction false} FlatIsContent(blocks: seq<seq<Event>>)
    requires forall i :: 0 <= i < |blocks| ==> AllContent(blocks[i])
    ensures AllContent(Flat(blocks))
  {
    if blocks != [] { FlatIsContent(blocks[..|blocks| - 1]); }
  }

  /** Weaving loses nothing and reorders neither part: the structure and the
      content of a woven trace are what was woven. */
  lemma {:induction false} WovenHolds(structure: seq<Event>, told: seq<seq<Event>>)
    requires AllStructure(structure) && |told| == |SubjectsOf(structure)|
    requires forall i :: 0 <= i < |told| ==> AllContent(told[i])
    ensures Skeleton(Woven(structure, told)) == structure && Contents(Woven(structure, told)) == Flat(told)
    decreases |structure|
  {
    hide Skeleton, Contents, SubjectsOf, Flat;
    if structure == [] {
      assert told == [] by { WovenOfNone(); }
      FlatOfOne([]);
      OfOneKind([]);
    } else {
      var front := |structure| - LastReport(structure);
      var last, before := structure[front..], structure[..front];
      assert structure == before + last;
      SubjectsJoined(before, last);
      var cut := |told| - |SubjectsOf(last)|;
      var blocks := told[cut..];
      assert told == told[..cut] + blocks;
      WovenHolds(before, told[..cut]);
      FlatJoined(told[..cut], blocks);
      FlatIsContent(blocks);
      TakenApart(Woven(before, told[..cut]), last, Flat(blocks));
    }
  }

  lemma TakenApart(before: seq<Event>, structure: seq<Event>, content: seq<Event>)
    requires AllStructure(structure) && AllContent(content)
    ensures Skeleton(before + structure + content) == Skeleton(before) + structure
    ensures Contents(before + structure + content) == Contents(before) + content
  {
    hide Gather;
    OfOneKind(structure);
    OfOneKind(content);
    GatherJoined(before, structure, Structural);
    GatherJoined(before, structure, OfContent);
    GatherJoined(before + structure, content, Structural);
    GatherJoined(before + structure, content, OfContent);
  }

  lemma TraceJoined(a: seq<Event>, b: seq<Event>)
    ensures Skeleton(a + b) == Skeleton(a) + Skeleton(b) && Contents(a + b) == Contents(a) + Contents(b)
  {
    GatherJoined(a, b, Structural);
    GatherJoined(a, b, OfContent);
  }
}
