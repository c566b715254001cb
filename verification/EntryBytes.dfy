/** Directory entries as bytes: what each field of an entry is, read off its
    thirty-two bytes, and back. */
module EntryBytes {
  import opened FatDirectory
  import opened FatEnumerate
  import opened Machine
  import opened Wrappers

  // The first cluster is in two halves, the high one first.
  ghost function StartBytes(raw: seq<u8>): nat
    requires |raw| == 32
  {
    Number2(raw, 0x1A) + 0x1_0000 * Number2(raw, 0x14)
  }

  lemma FirstClusterIsStart(raw: seq<u8>)
    requires |raw| == 32
    ensures FirstCluster(raw) == StartBytes(raw)
    ensures var b0: int, b1: int, b2: int, b3: int := raw[0x1A], raw[0x1B], raw[0x14], raw[0x15];
      StartBytes(raw) == b0 + 0x100 * b1 + 0x1_0000 * b2 + 0x100_0000 * b3
  {
    FieldsAreNumbers(raw, 0x14);
    FieldsAreNumbers(raw, 0x1A);
  }

  ghost predicate DirectoryBit(raw: seq<u8>)
    requires |raw| == 32
  {
    raw[11] / 16 % 2 == 1
  }

  /** A live short name's fields are these bytes of its entry. */
  lemma ShortNameFields(raw: seq<u8>)
    requires |raw| == 32 && Classify(raw).ShortName?
    ensures var e := Classify(raw);
      && e.rawName == raw[..11] && (e.directory <==> DirectoryBit(raw)) && e.ntRes == raw[12]
      && e.firstCluster == StartBytes(raw) && e.fileSize == Number4(raw, 0x1C)
      && e.name == ShortNameText(raw[..11])
  {
    hide LeU32, FirstCluster, StartBytes;
    FirstClusterIsStart(raw);
    FieldsAreNumbers(raw, 0x1C);
  }

  /** And a deleted one's are the same bytes, but for the first. */
  lemma DeletedFields(raw: seq<u8>)
    requires |raw| == 32 && Classify(raw).Deleted?
    ensures var long, volume := raw[11] % 64 == 15, raw[11] / 8 % 2 == 1;
      match Classify(raw).was
      case DeletedLongName(checksum) => long && checksum == raw[13]
      case DeletedVolumeLabel(surviving) => !long && volume && !DirectoryBit(raw) && surviving == raw[1..11]
      case DeletedInvalid(attr) => !long && volume && DirectoryBit(raw) && attr == raw[11]
      case DeletedShortName(surviving, directory, first, size, ntRes) =>
        && !long && !volume && surviving == raw[1..11] && (directory <==> DirectoryBit(raw))
        && first == StartBytes(raw) && size == Number4(raw, 0x1C) && ntRes == raw[12]
  {
    hide LeU32, FirstCluster, StartBytes;
    FirstClusterIsStart(raw);
    FieldsAreNumbers(raw, 0x1C);
  }

  /** The other kinds' fields: a long name component's place in its set,
      whether it is the last, and its checksum; a label; and an attribute no
      entry may have. */
  lemma OtherFields(raw: seq<u8>)
    requires |raw| == 32
    ensures match Classify(raw)
      case LongName(ordinal, last, checksum) =>
        checksum == raw[13] && (last <==> raw[0] / 64 % 2 == 1) && ordinal == raw[0] - if last then 64 else 0
      case VolumeLabel(name, rawName) => rawName == raw[..11] && name == ShortNameText(raw[..11])
      case Invalid(attr) => attr == raw[11]
      case _ => true
  {
    hide LeU32, FirstCluster, ShortNameText;
  }

  // --- Writing an entry ---------------------------------------------------

  function Low(x: nat): u8 { x % 0x100 }

  // A short name's entry, with anything in the bytes that date it.
  function Written(name: NameField, attr: u8, ntRes: u8, first: u32, size: u32, times: seq<u8>): (raw: seq<u8>)
    requires |times| == 11
    ensures |raw| == 32
  {
    name + [attr, ntRes] + times[..7] + [Low(first / 0x1_0000), Low(first / 0x100_0000)] + times[7..11]
    + [Low(first), Low(first / 0x100)]
    + [Low(size), Low(size / 0x100), Low(size / 0x1_0000), Low(size / 0x100_0000)]
  }

  /** Round trip: whatever name, attribute, cluster and size are written, a
      live short name is read back with them. */
  lemma WrittenIsRead(name: NameField, attr: u8, ntRes: u8, first: u32, size: u32, times: seq<u8>)
    requires |times| == 11 && name[0] != 0x00 && name[0] != 0xE5 && attr % 64 != 15 && attr / 8 % 2 == 0
    ensures Classify(Written(name, attr, ntRes, first, size, times))
         == ShortName(ShortNameText(name), name, attr / 16 % 2 == 1, first, size, ntRes)
  {
    hide ShortNameText, LeU32, FirstCluster, StartBytes, Number4;
    var raw := Written(name, attr, ntRes, first, size, times);
    WrittenBytes(name, attr, ntRes, first, size, times);
    ShortNameFields(raw);
    FirstClusterIsStart(raw);
    FourBytes(first);
    FourBytes(size);
    assert Number4(raw, 0x1C) == size by { NumberOfFour(raw, 0x1C, size); }
  }

  lemma WrittenBytes(name: NameField, attr: u8, ntRes: u8, first: u32, size: u32, times: seq<u8>)
    requires |times| == 11
    ensures var raw := Written(name, attr, ntRes, first, size, times);
      && raw[..11] == name && raw[0] == name[0] && raw[11] == attr && raw[12] == ntRes
      && raw[0x14] == Low(first / 0x1_0000) && raw[0x15] == Low(first / 0x100_0000)
      && raw[0x1A] == Low(first) && raw[0x1B] == Low(first / 0x100)
      && raw[0x1C] == Low(size) && raw[0x1D] == Low(size / 0x100)
      && raw[0x1E] == Low(size / 0x1_0000) && raw[0x1F] == Low(size / 0x100_0000)
  {
    hide Low;
  }

  lemma FourBytes(x: u32)
    ensures var b0: int, b1: int, b2: int, b3: int :=
        Low(x), Low(x / 0x100), Low(x / 0x1_0000), Low(x / 0x100_0000);
      b0 + 0x100 * b1 + 0x1_0000 * b2 + 0x100_0000 * b3 == x
  {
    assert x == x % 0x1_0000 + 0x1_0000 * (x / 0x1_0000);
    assert x % 0x1_0000 == x % 0x100 + 0x100 * (x / 0x100 % 0x100);
    assert x / 0x1_0000 == x / 0x1_0000 % 0x100 + 0x100 * (x / 0x100_0000);
    assert x / 0x100_0000 % 0x100 == x / 0x100_0000;
  }

  lemma NumberOfFour(raw: seq<u8>, at: nat, x: u32)
    requires at + 4 <= |raw|
    requires raw[at] == Low(x) && raw[at + 1] == Low(x / 0x100)
    requires raw[at + 2] == Low(x / 0x1_0000) && raw[at + 3] == Low(x / 0x100_0000)
    ensures Number4(raw, at) == x
  {
    hide Low;
    FourBytes(x);
  }

  // --- Names --------------------------------------------------------------

  ghost predicate PlainText(text: seq<u8>) {
    Printable(text) && (text != [] ==> text[|text| - 1] != 0x20)
  }

  function Spaces(n: nat): (s: seq<u8>)
    ensures |s| == n && forall i :: 0 <= i < n ==> s[i] == 0x20
  {
    seq(n, i => 0x20)
  }

  function Text(bytes: seq<u8>): string { seq(|bytes|, i requires 0 <= i < |bytes| => bytes[i] as char) }

  lemma {:induction false} TrimmedPads(text: seq<u8>, n: nat)
    requires PlainText(text)
    ensures Printable(text + Spaces(n)) && Trimmed(text + Spaces(n)) == Text(text)
  {
    if n == 0 {
      assert text + Spaces(0) == text;
    } else {
      TrimmedPads(text, n - 1);
      assert (text + Spaces(n))[..|text + Spaces(n)| - 1] == text + Spaces(n - 1);
    }
  }

  /** A name field padded with spaces reads as its stem, and its extension
      after a dot where it has one. */
  lemma PaddedNameReads(stem: seq<u8>, ext: seq<u8>)
    requires PlainText(stem) && PlainText(ext) && 1 <= |stem| <= 8 && |ext| <= 3
    ensures ShortNameText(stem + Spaces(8 - |stem|) + (ext + Spaces(3 - |ext|)))
         == Some(Text(stem) + if ext == [] then "" else "." + Text(ext))
  {
    var first, second := stem + Spaces(8 - |stem|), ext + Spaces(3 - |ext|);
    var raw := first + second;
    TrimmedPads(stem, 8 - |stem|);
    TrimmedPads(ext, 3 - |ext|);
    assert raw[..8] == first && raw[8..] == second;
    assert Printable(raw);
  }

  /** And one with a byte that is not printable ASCII does not read at all. */
  lemma UnprintableNameDoesNotRead(raw: NameField, i: nat)
    requires i < 11 && !(0x20 <= raw[i] <= 0x7E)
    ensures ShortNameText(raw) == None
  {
    var bytes := if raw[0] == NAME_ESCAPED_E5 then raw[0 := NAME_DELETED] else raw;
    assert !(0x20 <= bytes[i] <= 0x7E);
  }

  // --- Dot entries, and blank slots ---------------------------------------

  // The first slot of a directory: `.`, a directory, at the cluster it is in.
  ghost predicate DotBytes(raw: seq<u8>, cluster: u32)
    requires |raw| == 32
  {
    && raw[0] == 0x2E && (forall i :: 1 <= i < 11 ==> raw[i] == 0x20)
    && raw[11] % 64 != 15 && raw[11] / 8 % 2 == 0 && raw[11] / 16 % 2 == 1 && StartBytes(raw) == cluster
  }

  // The second: `..`, a directory.
  ghost predicate DotDotBytes(raw: seq<u8>)
    requires |raw| == 32
  {
    && raw[0] == 0x2E && raw[1] == 0x2E && (forall i :: 2 <= i < 11 ==> raw[i] == 0x20)
    && raw[11] % 64 != 15 && raw[11] / 8 % 2 == 0 && raw[11] / 16 % 2 == 1
  }

  lemma DotNameBytes(name: NameField)
    ensures name == DOT_NAME <==> name[0] == 0x2E && forall i :: 1 <= i < 11 ==> name[i] == 0x20
    ensures name == DOT_DOT_NAME <==>
      name[0] == 0x2E && name[1] == 0x2E && forall i :: 2 <= i < 11 ==> name[i] == 0x20
  {
  }

  lemma DotIsBytes(raw: seq<u8>, cluster: u32)
    requires |raw| == 32
    ensures NamesItself(Entry(cluster, 0, Classify(raw)), cluster) <==> DotBytes(raw, cluster)
    ensures NamesParent(Entry(cluster, 1, Classify(raw))) <==> DotDotBytes(raw)
  {
    hide StartBytes, FirstCluster, ShortNameText, LeU32;
    var name := raw[..11];
    assert forall i :: 0 <= i < 11 ==> name[i] == raw[i];
    DotNameBytes(name);
    if Classify(raw).ShortName? { ShortNameFields(raw); }
  }

  /** A dot entry, which is listed and never followed, is a live directory
      whose name is `.` or `..` padded with spaces. */
  lemma DotEntryMeaning(kind: EntryKind)
    ensures IsDotEntry(kind) <==>
      && kind.ShortName? && kind.directory && kind.rawName[0] == 0x2E
      && (kind.rawName[1] == 0x20 || kind.rawName[1] == 0x2E)
      && forall i :: 2 <= i < 11 ==> kind.rawName[i] == 0x20
  {
    if kind.ShortName? { DotNameBytes(kind.rawName); }
  }

  /** A slot of a cluster is the thirty-two bytes there, blank exactly when all
      of them are zero. */
  lemma SlotBytes(content: seq<u8>, cluster: u32, i: nat)
    requires 32 * i + 32 <= |content|
    ensures i < |SlotsIn(content, cluster)|
    ensures var s := SlotsIn(content, cluster)[i];
      && s.entry.cluster == cluster && s.entry.slot == i && s.entry.kind == Classify(content[32 * i..32 * i + 32])
      && (s.blank <==> forall k :: 32 * i <= k < 32 * i + 32 ==> content[k] == 0)
  {
    var raw := content[32 * i..32 * i + 32];
    assert forall k :: 32 * i <= k < 32 * i + 32 ==> content[k] == raw[k - 32 * i];
    assert forall k :: 0 <= k < 32 ==> raw[k] == content[32 * i + k];
  }
}
