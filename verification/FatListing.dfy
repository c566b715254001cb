/** What holds of every listing: nothing is lost, nothing is counted twice. */
module FatListing {
  import opened Fat32
  import opened FatDirectory
  import opened FatEnumerate
  import opened FatLayout
  import opened Machine

  // Two entries were read from the same slot of the same cluster.
  predicate SamePlace(a: Entry, b: Entry) { a.cluster == b.cluster && a.slot == b.slot }

  predicate PlacesDiffer(es: seq<Entry>) {
    forall i, j :: 0 <= i < j < |es| ==> !SamePlace(es[i], es[j])
  }

  ghost predicate PlacedIn(es: seq<Entry>, cs: seq<u32>) {
    forall i :: 0 <= i < |es| ==> es[i].cluster in cs
  }

  lemma {:induction false} SlotPlaces(image: seq<u8>, v: Volume, cs: seq<u32>)
    requires AllData(v, cs) && Distinct(cs)
    ensures PlacesDiffer(Entries(SlotsOf(image, v, cs))) && PlacedIn(Entries(SlotsOf(image, v, cs)), cs)
  {
    if cs != [] {
      var front, last := cs[..|cs| - 1], cs[|cs| - 1];
      SlotPlaces(image, v, front);
      var a, b := Entries(SlotsOf(image, v, front)), Entries(SlotsIn(ClusterContent(image, v, last), last));
      EntriesSplit(SlotsOf(image, v, front), SlotsIn(ClusterContent(image, v, last), last));
      assert forall i :: 0 <= i < |b| ==> b[i].cluster == last && b[i].slot == i;
      assert last !in front;
      JoinPlaces(a, b);
    }
  }

  lemma JoinPlaces(a: seq<Entry>, b: seq<Entry>)
    requires PlacesDiffer(a) && PlacesDiffer(b)
    requires forall i, j :: 0 <= i < |a| && 0 <= j < |b| ==> !SamePlace(a[i], b[j])
    ensures PlacesDiffer(a + b)
  {
  }

  // Dropping blank slots keeps a subsequence: each survivor has a position in
  // the original, and positions only increase.
  lemma {:induction false} NonBlankPositions(s: seq<Slot>) returns (at: seq<nat>)
    ensures |at| == |NonBlank(s)|
    ensures forall k :: 0 <= k < |at| ==> at[k] < |s| && NonBlank(s)[k] == s[at[k]] && !s[at[k]].blank
    ensures forall j, k :: 0 <= j < k < |at| ==> at[j] < at[k]
    ensures forall i :: 0 <= i < |s| && !s[i].blank ==> i in at
  {
    if s == [] {
      at := [];
    } else {
      var front := s[..|s| - 1];
      var before := NonBlankPositions(front);
      at := before + if s[|s| - 1].blank then [] else [|s| - 1];
      forall i | 0 <= i < |s| && !s[i].blank ensures i in at {
        if i < |front| { assert s[i] == front[i] && i in before; }
      }
    }
  }

  /** A listing's entries and residue come from distinct slots of its own
      clusters: no slot is offered twice, within either or across both. */
  lemma ListingPlaces(image: seq<u8>, v: Volume, cs: seq<u32>)
    requires AllData(v, cs) && Distinct(cs)
    ensures var d := ListingOf(image, v, cs).directory;
      && PlacesDiffer(d.entries + d.residue)
      && PlacedIn(d.entries + d.residue, cs)
  {
    hide SlotsOf, FirstTerminator, NonBlank, ObservationsOf;
    SlotPlaces(image, v, cs);
    var slots := SlotsOf(image, v, cs);
    var all, t, d := Entries(slots), FirstTerminator(slots), ListingOf(image, v, cs).directory;
    var at := NonBlankPositions(Beyond(slots, false));
    assert forall i :: 0 <= i < |d.entries| ==> d.entries[i] == all[i];
    assert forall k :: 0 <= k < |at| ==> d.residue[k] == all[t + 1 + at[k]];
    JoinPlaces(d.entries, d.residue);
  }

  /** Conservation of slots: every slot is listed, is residue, is blank, or is
      the terminator itself; and what is listed or residue is one of them. */
  lemma NothingLost(image: seq<u8>, v: Volume, cs: seq<u32>, i: nat)
    requires AllData(v, cs) && i < |SlotsOf(image, v, cs)|
    ensures var s, d := SlotsOf(image, v, cs)[i], ListingOf(image, v, cs).directory;
      var t := FirstTerminator(SlotsOf(image, v, cs));
      && (i < t ==> i < |d.entries| && d.entries[i] == s.entry && !s.Ends())
      && (i == t ==> s.Ends())
      && (i > t && !s.blank ==> s.entry in d.residue)
      && |d.entries| == t
  {
    hide SlotsOf, FirstTerminator, NonBlank, ObservationsOf;
    var slots := SlotsOf(image, v, cs);
    FirstTerminatorMeaning(slots);
    var t := FirstTerminator(slots);
    if i > t {
      var rest := Beyond(slots, false);
      var at := NonBlankPositions(rest);
      assert rest[i - t - 1] == slots[i];
      if !slots[i].blank {
        var k :| 0 <= k < |at| && at[k] == i - t - 1;
        assert Entries(NonBlank(rest))[k] == slots[i].entry;
      }
    }
  }

  // The slots the observations say hold content after the terminator.
  function ResidueCounted(obs: seq<DirectoryObservation>): nat {
    if obs == [] then 0
    else
      var last := obs[|obs| - 1];
      ResidueCounted(obs[..|obs| - 1]) + if last.ContentAfterTerminator? then last.slots else 0
  }

  lemma {:induction false} ResidueCountedSplits(a: seq<DirectoryObservation>, b: seq<DirectoryObservation>)
    ensures ResidueCounted(a + b) == ResidueCounted(a) + ResidueCounted(b)
  {
    if b == [] {
      assert a + b == a;
    } else {
      ResidueCountedSplits(a, b[..|b| - 1]);
      assert (a + b)[..|a + b| - 1] == a + b[..|b| - 1];
    }
  }

  lemma ResidueCountedOne(o: DirectoryObservation)
    ensures ResidueCounted([o]) == if o.ContentAfterTerminator? then o.slots else 0
  {
    assert [o][..0] == [];
  }

  lemma {:induction false} NotesCountNothing(es: seq<Entry>)
    ensures ResidueCounted(Notes(es)) == 0
  {
    if es != [] {
      var front, note := es[..|es| - 1], NoteOf(es[|es| - 1]);
      NotesCountNothing(front);
      ResidueCountedSplits(Notes(front), note);
      if note != [] {
        assert note == [note[0]];
        ResidueCountedOne(note[0]);
      }
    }
  }

  lemma ScanCountsResidue(slots: seq<Slot>, ended: bool)
    ensures ResidueCounted(Scanned(slots, ended).notes) == |Scanned(slots, ended).residue|
  {
    hide Claimed, Beyond, NonBlank, Notes;
    var claimed, rest := Entries(Claimed(slots, ended)), Entries(NonBlank(Beyond(slots, ended)));
    ResidueCountedSplits(Notes(claimed), Leftover(rest));
    NotesCountNothing(claimed);
    if rest != [] { ResidueCountedOne(Leftover(rest)[0]); }
  }

  /** The observations count the residue exactly, cluster by cluster. */
  lemma {:induction false} ObservationsCountResidue(image: seq<u8>, v: Volume, cs: seq<u32>)
    requires AllData(v, cs)
    ensures var d := ListingOf(image, v, cs).directory; ResidueCounted(d.observations) == |d.residue|
  {
    hide ListingOf, Scanned;
    if cs == [] {
      EmptyListing(image, v);
    } else {
      var front, c := cs[..|cs| - 1], cs[|cs| - 1];
      ObservationsCountResidue(image, v, front);
      assert front + [c] == cs;
      ListingOneMore(image, v, front, c);
      var before, slots := ListingOf(image, v, front), SlotsIn(ClusterContent(image, v, c), c);
      ScanCountsResidue(slots, before.terminated);
      ResidueCountedSplits(before.directory.observations, Scanned(slots, before.terminated).notes);
    }
  }
}
