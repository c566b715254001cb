/** What a directory's observations say of its listing. */
module FatNotes {
  import opened Fat32
  import opened FatDirectory
  import opened FatEnumerate
  import opened FatLayout
  import opened FatListing
  import opened Machine
  import opened Wrappers

  // An observation about one entry, and that it is so.
  ghost predicate SaysOf(o: DirectoryObservation, e: Entry) {
    match o
    case NameNotPrintableAscii(cluster, slot, rawName) =>
      && cluster == e.cluster && slot == e.slot
      && ((e.kind.ShortName? && e.kind.name == None && e.kind.rawName == rawName)
          || (e.kind.VolumeLabel? && e.kind.name == None && e.kind.rawName == rawName))
    case InvalidAttribute(cluster, slot, attr) => cluster == e.cluster && slot == e.slot && e.kind == Invalid(attr)
    case ContentAfterTerminator(_, _, _) => false
  }

  ghost predicate SaidOfSome(o: DirectoryObservation, es: seq<Entry>) { exists e :: e in es && SaysOf(o, e) }

  // The residue read from one cluster, in order.
  ghost function ResidueFrom(residue: seq<Entry>, c: u32): seq<Entry> {
    if residue == [] then []
    else
      var last := residue[|residue| - 1];
      ResidueFrom(residue[..|residue| - 1], c) + if last.cluster == c then [last] else []
  }

  // An observation that a cluster holds content after the end of the listing:
  // from its first such slot on, so many slots.
  ghost predicate SaysOfResidue(o: DirectoryObservation, residue: seq<Entry>) {
    o.ContentAfterTerminator? &&
    var rest := ResidueFrom(residue, o.cluster);
    rest != [] && o.firstSlot == rest[0].slot && o.slots == |rest|
  }

  /** The observations are exactly these: one for each entry with a name that
      cannot be shown or attributes that mean nothing, and one for each cluster
      with content after the end of the listing. */
  lemma {:induction false} ObservationsAreExact(image: seq<u8>, v: Volume, cs: seq<u32>)
    requires AllData(v, cs) && Distinct(cs)
    ensures var d := ListingOf(image, v, cs).directory;
      forall o :: o in d.observations <==> SaidOfSome(o, d.entries) || SaysOfResidue(o, d.residue)
  {
    hide ListingOf, Scanned, SlotsIn, ClusterContent, SaidOfSome, SaysOfResidue;
    if cs == [] {
      EmptyListing(image, v);
      forall o { SaidOfNone(o); }
    } else {
      var front, c := cs[..|cs| - 1], cs[|cs| - 1];
      assert front + [c] == cs;
      ObservationsAreExact(image, v, front);
      ListingOneMore(image, v, front, c);
      var d, scan := ListingOf(image, v, front).directory,
        Scanned(SlotsIn(ClusterContent(image, v, c), c), ListingOf(image, v, front).terminated);
      ResidueIsElsewhere(image, v, front, c);
      ScanIsOf(image, v, c, ListingOf(image, v, front).terminated);
      forall o
        ensures o in d.observations + scan.notes
           <==> SaidOfSome(o, d.entries + scan.entries) || SaysOfResidue(o, d.residue + scan.residue)
      {
        SaidOfEither(o, d.entries, scan.entries);
        NotedAfter(o, d, c, scan.residue);
      }
    }
  }

  lemma ResidueIsElsewhere(image: seq<u8>, v: Volume, cs: seq<u32>, c: u32)
    requires AllData(v, cs) && Distinct(cs) && c !in cs
    ensures var d := ListingOf(image, v, cs).directory;
      forall i :: 0 <= i < |d.residue| ==> d.residue[i].cluster != c
  {
    hide ListingOf;
    ListingPlaces(image, v, cs);
    var d := ListingOf(image, v, cs).directory;
    var all := d.entries + d.residue;
    assert forall i :: 0 <= i < |d.residue| ==> d.residue[i] == all[|d.entries| + i];
  }

  lemma SaidOfNone(o: DirectoryObservation)
    ensures !SaidOfSome(o, []) && !SaysOfResidue(o, [])
  {
  }

  lemma SaidOfEither(o: DirectoryObservation, a: seq<Entry>, b: seq<Entry>)
    ensures SaidOfSome(o, a + b) <==> SaidOfSome(o, a) || SaidOfSome(o, b)
  {
  }

  // One more cluster's residue, the earlier ones' being elsewhere.
  lemma NotedAfter(o: DirectoryObservation, d: Directory, c: u32, more: seq<Entry>)
    requires forall i :: 0 <= i < |d.residue| ==> d.residue[i].cluster != c
    requires forall i :: 0 <= i < |more| ==> more[i].cluster == c
    ensures SaysOfResidue(o, d.residue + more) <==> SaysOfResidue(o, d.residue) || SaysOfResidue(o, more)
  {
    if o.ContentAfterTerminator? {
      ResidueJoined(d.residue, more, o.cluster);
      if o.cluster == c { ResidueOfOthers(d.residue, c); } else { ResidueOfOthers(more, o.cluster); }
    }
  }

  lemma {:induction false} ResidueJoined(a: seq<Entry>, b: seq<Entry>, c: u32)
    ensures ResidueFrom(a + b, c) == ResidueFrom(a, c) + ResidueFrom(b, c)
  {
    if b == [] {
      assert a + b == a;
    } else {
      ResidueJoined(a, b[..|b| - 1], c);
      assert (a + b)[..|a + b| - 1] == a + b[..|b| - 1];
    }
  }

  lemma {:induction false} ResidueOfOthers(es: seq<Entry>, c: u32)
    requires forall i :: 0 <= i < |es| ==> es[i].cluster != c
    ensures ResidueFrom(es, c) == []
  {
    if es != [] { ResidueOfOthers(es[..|es| - 1], c); }
  }

  lemma {:induction false} ResidueOfSame(es: seq<Entry>, c: u32)
    requires forall i :: 0 <= i < |es| ==> es[i].cluster == c
    ensures ResidueFrom(es, c) == es
  {
    if es != [] { ResidueOfSame(es[..|es| - 1], c); }
  }

  // What one cluster's notes say.
  lemma ScanIsOf(image: seq<u8>, v: Volume, c: u32, ended: bool)
    requires v.HasCluster(c)
    ensures var scan := Scanned(SlotsIn(ClusterContent(image, v, c), c), ended);
      && (forall i :: 0 <= i < |scan.residue| ==> scan.residue[i].cluster == c)
      && (forall o :: o in scan.notes <==> SaidOfSome(o, scan.entries) || SaysOfResidue(o, scan.residue))
  {
    hide Claimed, Notes, SaidOfSome, Classify, ClusterContent;
    var slots := SlotsIn(ClusterContent(image, v, c), c);
    var scan := Scanned(slots, ended);
    var at := NonBlankPositions(Beyond(slots, ended));
    assert forall i :: 0 <= i < |scan.residue| ==> scan.residue[i].cluster == c;
    ResidueOfSame(scan.residue, c);
    forall o ensures o in scan.notes <==> SaidOfSome(o, scan.entries) || SaysOfResidue(o, scan.residue) {
      NotesSay(o, scan.entries);
      LeftoverSays(o, scan.residue, c);
    }
  }

  lemma LeftoverSays(o: DirectoryObservation, rest: seq<Entry>, c: u32)
    requires forall i :: 0 <= i < |rest| ==> rest[i].cluster == c
    ensures o in Leftover(rest) <==> SaysOfResidue(o, rest)
  {
    if o.ContentAfterTerminator? {
      if o.cluster == c { ResidueOfSame(rest, c); } else { ResidueOfOthers(rest, o.cluster); }
    }
  }

  lemma {:induction false} NotesSay(o: DirectoryObservation, es: seq<Entry>)
    ensures o in Notes(es) <==> SaidOfSome(o, es)
  {
    if es != [] {
      var front, last := es[..|es| - 1], es[|es| - 1];
      NotesSay(o, front);
      assert es == front + [last];
      SaidOfEither(o, front, [last]);
      NoteSays(o, last);
    }
  }

  lemma NoteSays(o: DirectoryObservation, e: Entry)
    ensures o in NoteOf(e) <==> SaidOfSome(o, [e])
  {
    assert e in [e];
  }
}
