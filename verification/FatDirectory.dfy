/** Directory entries: what 32 bytes are, and what deletion destroyed. */
module FatDirectory {
  import opened Machine
  import opened RotateAdd
  import opened Wrappers

  const ENTRY_BYTES: nat := 32
  const NAME_LEN: nat := 11
  const NAME_STEM_LEN: nat := 8

  const OFF_ATTR := 0x0B
  const OFF_NT_RES := 0x0C
  const OFF_LDIR_CHKSUM := 0x0D
  const OFF_FST_CLUS_HI := 0x14
  const OFF_FST_CLUS_LO := 0x1A
  const OFF_FILE_SIZE := 0x1C

  const ATTR_VOLUME_ID := 0x08
  const ATTR_DIRECTORY := 0x10
  const ATTR_LONG_NAME := 0x0F
  const LDIR_ORD_LAST := 0x40

  const NAME_DELETED: u8 := 0xE5
  const NAME_TERMINATOR: u8 := 0x00
  const NAME_ESCAPED_E5: u8 := 0x05

  type NameField = s: seq<u8> | |s| == 11 witness seq(11, _ => 0x20)

  // A name field without the byte deletion overwrites.
  type SurvivingName = s: seq<u8> | |s| == 10 witness seq(10, _ => 0x20)

  datatype EntryKind =
    | Terminator
    | Deleted(was: DeletedKind)
    | LongName(ordinal: u8, last: bool, checksum: u8)
    | VolumeLabel(name: Option<string>, rawName: NameField)
    | ShortName(name: Option<string>, rawName: NameField, directory: bool,
                firstCluster: u32, fileSize: u32, ntRes: u8)
    | Invalid(attr: u8)

  datatype DeletedKind =
    | DeletedLongName(checksum: u8)
    | DeletedVolumeLabel(survivingName: SurvivingName)
    | DeletedShortName(survivingName: SurvivingName, directory: bool,
                       firstCluster: u32, fileSize: u32, ntRes: u8)
    | DeletedInvalid(attr: u8)

  datatype Entry = Entry(cluster: u32, slot: nat, kind: EntryKind)

  predicate LongNameAttribute(attr: u8) { attr % 0x40 == ATTR_LONG_NAME }

  function FirstCluster(raw: seq<u8>): u32
    requires |raw| == ENTRY_BYTES
  {
    var high: int, low: int := LeU16(raw, OFF_FST_CLUS_HI), LeU16(raw, OFF_FST_CLUS_LO);
    high * 0x1_0000 + low
  }

  function Classify(raw: seq<u8>): (kind: EntryKind)
    requires |raw| == ENTRY_BYTES
    ensures kind.Terminator? <==> raw[0] == 0x00
    ensures kind.Deleted? <==> raw[0] == 0xE5
    ensures
      var live, volume, directory := raw[0] != 0x00 && raw[0] != 0xE5, raw[11] / 8 % 2 == 1, raw[11] / 16 % 2 == 1;
      var long := raw[11] % 64 == 15;
      && (kind.LongName? <==> live && long)
      && (kind.Invalid? <==> live && !long && volume && directory)
      && (kind.VolumeLabel? <==> live && !long && volume && !directory)
      && (kind.ShortName? <==> live && !long && !volume)
      && (kind.ShortName? ==> (kind.directory <==> directory))
  {
    var first := raw[0];
    var attr := raw[OFF_ATTR];
    if first == NAME_TERMINATOR then Terminator
    else if first == NAME_DELETED then Deleted(ClassifyDeleted(raw, attr))
    else if LongNameAttribute(attr) then
      LongName(if Bit(first, LDIR_ORD_LAST) then first - LDIR_ORD_LAST else first,
               Bit(first, LDIR_ORD_LAST), raw[OFF_LDIR_CHKSUM])
    else
      var rawName := raw[..NAME_LEN];
      if Bit(attr, ATTR_VOLUME_ID) && Bit(attr, ATTR_DIRECTORY) then Invalid(attr)
      else if Bit(attr, ATTR_VOLUME_ID) then VolumeLabel(ShortNameText(rawName), rawName)
      else ShortName(ShortNameText(rawName), rawName, Bit(attr, ATTR_DIRECTORY), FirstCluster(raw),
                     LeU32(raw, OFF_FILE_SIZE), raw[OFF_NT_RES])
  }

  function ClassifyDeleted(raw: seq<u8>, attr: u8): DeletedKind
    requires |raw| == ENTRY_BYTES
  {
    if LongNameAttribute(attr) then DeletedLongName(raw[OFF_LDIR_CHKSUM])
    else
      var survivingName := raw[1..NAME_LEN];
      if Bit(attr, ATTR_VOLUME_ID) && Bit(attr, ATTR_DIRECTORY) then DeletedInvalid(attr)
      else if Bit(attr, ATTR_VOLUME_ID) then DeletedVolumeLabel(survivingName)
      else DeletedShortName(survivingName, Bit(attr, ATTR_DIRECTORY), FirstCluster(raw),
                            LeU32(raw, OFF_FILE_SIZE), raw[OFF_NT_RES])
  }

  // Rendering, for names that are printable ASCII throughout.

  predicate Printable(bytes: seq<u8>) { forall i :: 0 <= i < |bytes| ==> 0x20 <= bytes[i] <= 0x7E }

  function Trimmed(bytes: seq<u8>): string
    requires Printable(bytes)
  {
    if bytes != [] && bytes[|bytes| - 1] == 0x20 then Trimmed(bytes[..|bytes| - 1])
    else seq(|bytes|, i requires 0 <= i < |bytes| => bytes[i] as char)
  }

  function ShortNameText(raw: NameField): Option<string> {
    var bytes := if raw[0] == NAME_ESCAPED_E5 then raw[0 := NAME_DELETED] else raw;
    if !Printable(bytes) then None
    else
      var stem, ext := Trimmed(bytes[..NAME_STEM_LEN]), Trimmed(bytes[NAME_STEM_LEN..]);
      if stem == "" then None
      else Some(stem + if ext == "" then "" else "." + ext)
  }

  function RecoveredName(first: u8, surviving: SurvivingName): Option<string> {
    ShortNameText([first] + surviving)
  }

  // Dot entries. ".          " and "..         ".

  const DOT_NAME: seq<u8> := [0x2E, 0x20, 0x20, 0x20, 0x20, 0x20, 0x20, 0x20, 0x20, 0x20, 0x20]
  const DOT_DOT_NAME: seq<u8> := [0x2E, 0x2E, 0x20, 0x20, 0x20, 0x20, 0x20, 0x20, 0x20, 0x20, 0x20]

  predicate IsDotEntry(kind: EntryKind) {
    kind.ShortName? && kind.directory && (kind.rawName == DOT_NAME || kind.rawName == DOT_DOT_NAME)
  }

  predicate NamesItself(e: Entry, cluster: u32) {
    e.slot == 0 && e.kind.ShortName? && e.kind.directory
    && e.kind.rawName == DOT_NAME && e.kind.firstCluster == cluster
  }

  predicate NamesParent(e: Entry) {
    e.slot == 1 && e.kind.ShortName? && e.kind.directory && e.kind.rawName == DOT_DOT_NAME
  }

  // The short-name checksum and the byte it gives back.

  const BYTE_HALF: nat := 0x80

  function NameChecksum(name: seq<u8>): u8 { Fold(BYTE_HALF, 0, name) }

  // One round: a rotation right, and two additions that wrap at 8 bits.
  function ChecksumRound(sum: u8, byte: u8): (r: u8)
    ensures r == Step(BYTE_HALF, sum, byte)
  {
    var low: int, high: int, b: int := sum % 2 * 0x80, sum / 2, byte;
    assert (low + high) % 0x100 == low + high == Rotate(BYTE_HALF, sum);
    ((low + high) % 0x100 + b) % 0x100
  }

  method Chksum(name: seq<u8>) returns (sum: u8)
    ensures sum == NameChecksum(name)
  {
    sum := 0;
    for i := 0 to |name|
      invariant sum == NameChecksum(name[..i])
    {
      assert name[..i + 1][..i] == name[..i];
      sum := ChecksumRound(sum, name[i]);
    }
    assert name[..|name|] == name;
  }

  // The one first byte with which the surviving bytes have this checksum, or
  // None where it is a byte no live name begins with.
  function RecoveredByte(surviving: seq<u8>, checksum: u8): Option<u8> {
    var first: u8 := Unfold(BYTE_HALF, checksum, surviving);
    if first == NAME_TERMINATOR || first == NAME_DELETED then None else Some(first)
  }

  // A name's first byte is its initial accumulator.
  lemma FirstByteIsStart(first: u8, rest: seq<u8>)
    ensures NameChecksum([first] + rest) == Fold(BYTE_HALF, first, rest)
  {
    FoldSplit(BYTE_HALF, 0, [first], rest);
    FoldFromZero(BYTE_HALF, first);
  }

  lemma ChecksumNamesFirstByte(surviving: seq<u8>, checksum: u8, first: u8)
    ensures NameChecksum([first] + surviving) == checksum <==> first == Unfold(BYTE_HALF, checksum, surviving)
  {
    FirstByteIsStart(first, surviving);
    if NameChecksum([first] + surviving) == checksum {
      FoldInjectiveInAcc(BYTE_HALF, first, Unfold(BYTE_HALF, checksum, surviving), surviving);
    }
  }

  /** Recovery inverts the checksum, on names of any length: it returns the
      byte deletion destroyed, unless that byte could not have been live. */
  lemma RecoveryInvertsChecksum(name: seq<u8>)
    requires |name| >= 1
    ensures RecoveredByte(name[1..], NameChecksum(name))
         == if name[0] == NAME_TERMINATOR || name[0] == NAME_DELETED then None else Some(name[0])
  {
    assert name == [name[0]] + name[1..];
    ChecksumNamesFirstByte(name[1..], NameChecksum(name), name[0]);
  }

  /** The checksum distinguishes names differing in exactly one byte. */
  lemma ChecksumDetectsOneByte(name: seq<u8>, k: nat, b: u8)
    requires k < |name| && b != name[k]
    ensures NameChecksum(name[k := b]) != NameChecksum(name)
  {
    FoldDetectsOneByte(BYTE_HALF, 0, name, k, b);
  }

  // What deletion leaves of an entry.
  function Remains(live: EntryKind): EntryKind {
    match live
    case LongName(_, _, checksum) => Deleted(DeletedLongName(checksum))
    case VolumeLabel(_, rawName) => Deleted(DeletedVolumeLabel(rawName[1..]))
    case ShortName(_, rawName, directory, first, size, ntRes) =>
      Deleted(DeletedShortName(rawName[1..], directory, first, size, ntRes))
    case Invalid(attr) => Deleted(DeletedInvalid(attr))
    case _ => live
  }

  /** Deletion, which overwrites an entry's first byte and nothing else, loses
      that byte and nothing else: the entry keeps its kind, and every other
      field it had. */
  lemma DeletionLosesOneByte(raw: seq<u8>)
    requires |raw| == ENTRY_BYTES && raw[0] != NAME_TERMINATOR && raw[0] != NAME_DELETED
    ensures Classify(raw[0 := NAME_DELETED]) == Remains(Classify(raw))
  {
    var dead := raw[0 := NAME_DELETED];
    assert dead[1..NAME_LEN] == raw[..NAME_LEN][1..];
  }

  /** And a component's checksum undoes it: the byte it gives back is the one
      lost, and the name rendered with that byte is the name there was. */
  lemma DeletionIsUndone(raw: seq<u8>)
    requires |raw| == ENTRY_BYTES && Classify(raw).ShortName?
    ensures
      var live, was := Classify(raw), Remains(Classify(raw)).was;
      && RecoveredByte(was.survivingName, NameChecksum(live.rawName)) == Some(raw[0])
      && RecoveredName(raw[0], was.survivingName) == live.name
  {
    var name := Classify(raw).rawName;
    RecoveryInvertsChecksum(name);
    assert [name[0]] + name[1..] == name;
  }

  // Tries all 256 candidates, and answers only if exactly one matched.
  method RecoverFirstByte(surviving: seq<u8>, checksum: u8) returns (r: Option<u8>)
    ensures r == RecoveredByte(surviving, checksum)
  {
    ghost var truth := Unfold(BYTE_HALF, checksum, surviving);
    var found: Option<u8> := None;
    for candidate := 0 to 256
      invariant found == if truth < candidate then Some(truth) else None
    {
      ChecksumNamesFirstByte(surviving, checksum, candidate);
      var sum := Chksum([candidate] + surviving);
      if sum != checksum {
        continue;
      }
      if found.Some? {
        return None;
      }
      found := Some(candidate);
    }
    r := if found == Some(NAME_TERMINATOR) || found == Some(NAME_DELETED) then None else found;
  }

  datatype FirstByte = Recovered(byte: u8) | Destroyed | NotAssociated

  // What the entry immediately before a deleted short entry says about the
  // byte it lost. Nothing earlier has a say.
  function Association(entries: seq<Entry>, index: nat): Option<FirstByte> {
    if index >= |entries| then None
    else
      var kind := entries[index].kind;
      if !(kind.Deleted? && kind.was.DeletedShortName?) then None
      else if index > 0 && IsDeletedComponent(entries[index - 1].kind) then
        var byte := RecoveredByte(kind.was.survivingName, entries[index - 1].kind.was.checksum);
        Some(if byte.Some? then Recovered(byte.value) else NotAssociated)
      else Some(Destroyed)
  }

  predicate IsDeletedComponent(kind: EntryKind) { kind.Deleted? && kind.was.DeletedLongName? }

  /** The backward walk over preceding components changes nothing: its answer
      is the immediately preceding entry's. */
  method Associate(entries: seq<Entry>, index: nat) returns (r: Option<FirstByte>)
    ensures r == Association(entries, index)
  {
    if index >= |entries| {
      return None;
    }
    var kind := entries[index].kind;
    if !(kind.Deleted? && kind.was.DeletedShortName?) {
      return None;
    }
    var checksum: Option<u8> := None;
    var i := index;
    while i > 0
      invariant 0 <= i <= index
      invariant i == index ==> checksum == None
      invariant i < index ==>
        IsDeletedComponent(entries[index - 1].kind) && checksum == Some(entries[index - 1].kind.was.checksum)
    {
      var candidate := entries[i - 1].kind;
      if !IsDeletedComponent(candidate) {
        break;
      }
      if checksum.Some? && checksum.value != candidate.was.checksum {
        break;
      }
      checksum := Some(candidate.was.checksum);
      i := i - 1;
    }
    if checksum.None? {
      return Some(Destroyed);
    }
    var byte := RecoverFirstByte(kind.was.survivingName, checksum.value);
    r := Some(if byte.Some? then Recovered(byte.value) else NotAssociated);
  }
}
