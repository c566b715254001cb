/** The exFAT boot checksum: what it covers, and what it can and cannot miss. */
module ExFatChecksum {
  import opened ExFat
  import opened Machine
  import opened RotateAdd
  import opened Wrappers

  const HALF: nat := 0x8000_0000

  // VolumeFlags and PercentInUse.
  predicate Skipped(index: nat) { index == 106 || index == 107 || index == 112 }

  // The bytes the checksum covers among the first `n`, in order.
  ghost function Kept(region: seq<u8>, n: nat): seq<u8>
    requires n <= |region|
  {
    if n == 0 then [] else Kept(region, n - 1) + if Skipped(n - 1) then [] else [region[n - 1]]
  }

  function Covered(region: seq<u8>, shift: u8): (n: nat)
    ensures n <= |region|
  {
    var whole := CHECKSUM_SECTORS * Pow2(shift);
    if whole <= |region| then whole else |region|
  }

  ghost function Checksum(region: seq<u8>, shift: u8): u32 { ChecksumOf(region, Covered(region, shift)) }

  ghost function ChecksumOf(region: seq<u8>, n: nat): u32
    requires n <= |region|
  {
    Fold(HALF, 0, Kept(region, n))
  }

  method BootChecksum(region: seq<u8>, shift: u8) returns (checksum: u32)
    ensures checksum == Checksum(region, shift)
  {
    hide ChecksumOf;
    var covered := Covered(region, shift);
    checksum := 0;
    NoBytes(region);
    for index := 0 to covered
      invariant checksum == ChecksumOf(region, index)
    {
      NextByte(region, index);
      if index == 106 || index == 107 || index == 112 {
        continue;
      }
      var rotatedIn: u32 := if checksum % 2 == 1 then 0x8000_0000 else 0;
      checksum := WrapU32(WrapU32(rotatedIn + checksum / 2) + region[index]);
    }
  }

  lemma NoBytes(region: seq<u8>)
    ensures ChecksumOf(region, 0) == 0
  {
  }

  lemma NextByte(region: seq<u8>, index: nat)
    requires index < |region|
    ensures ChecksumOf(region, index + 1) ==
      var acc := ChecksumOf(region, index);
      if Skipped(index) then acc
      else WrapU32(WrapU32((if acc % 2 == 1 then 0x8000_0000 else 0) + acc / 2) + region[index])
  {
    hide Fold, Step;
    if !Skipped(index) { FoldOneMore(Kept(region, index), region[index]); }
    assert Kept(region, index) + [] == Kept(region, index);
  }

  lemma FoldOneMore(kept: seq<u8>, b: u8)
    ensures Fold(HALF, 0, kept + [b]) ==
      var acc := Fold(HALF, 0, kept);
      WrapU32(WrapU32((if acc % 2 == 1 then 0x8000_0000 else 0) + acc / 2) + b)
  {
    hide Step, WrapU32;
    assert (kept + [b])[..|kept|] == kept;
    WrappedStep(Fold(HALF, 0, kept), b);
  }

  // The two wrapping additions are one step: the first never wraps.
  lemma WrappedStep(acc: u32, b: u8)
    ensures Step(HALF, acc, b) == WrapU32(WrapU32((if acc % 2 == 1 then 0x8000_0000 else 0) + acc / 2) + b)
  {
    StepWraps(HALF, acc, b);
  }

  lemma {:induction false} KeptOfPrefix(a: seq<u8>, b: seq<u8>, n: nat)
    requires n <= |a| && n <= |b| && forall i :: 0 <= i < n && !Skipped(i) ==> a[i] == b[i]
    ensures Kept(a, n) == Kept(b, n)
  {
    if n > 0 { KeptOfPrefix(a, b, n - 1); }
  }

  /** The checksum says nothing about the bytes it skips, or about any byte
      past the eleventh sector. */
  lemma SkippedBytesAreFree(a: seq<u8>, b: seq<u8>, shift: u8)
    requires |a| == |b| && forall i :: 0 <= i < Covered(a, shift) && !Skipped(i) ==> a[i] == b[i]
    ensures Checksum(a, shift) == Checksum(b, shift)
  {
    KeptOfPrefix(a, b, Covered(a, shift));
  }

  // Where a byte that is kept comes among those kept.
  lemma {:induction false} KeptAt(region: seq<u8>, n: nat, k: nat, b: u8)
    requires k < n <= |region| && !Skipped(k)
    ensures |Kept(region, k)| < |Kept(region, n)|
    ensures Kept(region, n)[|Kept(region, k)|] == region[k]
    ensures Kept(region[k := b], n) == Kept(region, n)[|Kept(region, k)| := b]
  {
    KeptOfPrefix(region, region[k := b], k);
    if k < n - 1 { KeptAt(region, n - 1, k, b); }
  }

  /** Changing exactly one covered byte always changes the checksum, at every
      sector size. */
  lemma OneByteIsDetected(region: seq<u8>, shift: u8, k: nat, b: u8)
    requires k < Covered(region, shift) && !Skipped(k) && b != region[k]
    ensures Checksum(region[k := b], shift) != Checksum(region, shift)
  {
    var n := Covered(region, shift);
    KeptAt(region, n, k, b);
    FoldDetectsOneByte(HALF, 0, Kept(region, n), |Kept(region, k)|, b);
  }

  // --- The checksum sector ------------------------------------------------

  // The first word, from `from` on, that does not repeat `stored`, if any.
  ghost function FirstDifferent(sector: seq<u8>, stored: u32, from: nat): (w: Option<nat>)
    ensures w.Some? ==> from <= w.value && w.value * 4 + 4 <= |sector| && LeU32(sector, w.value * 4) != stored
    ensures forall i :: from <= i && i * 4 + 4 <= |sector| && (w.Some? ==> i < w.value) ==>
      LeU32(sector, i * 4) == stored
    decreases |sector| - from
  {
    if from * 4 + 4 > |sector| then None
    else if LeU32(sector, from * 4) != stored then Some(from)
    else FirstDifferent(sector, stored, from + 1)
  }

  function ChecksumSector(region: seq<u8>, shift: u8): (s: seq<u8>)
    requires REGION_SECTORS * Pow2(shift) <= |region|
    ensures |s| == Pow2(shift)
  {
    region[CHECKSUM_SECTORS * Pow2(shift)..REGION_SECTORS * Pow2(shift)]
  }

  ghost function ChecksumVerdict(region: seq<u8>, shift: u8): Result<(), ExFatError>
    requires 9 <= shift <= 12 && REGION_SECTORS * Pow2(shift) <= |region|
  {
    SectorSizes();
    var sector := ChecksumSector(region, shift);
    var stored := LeU32(sector, 0);
    if Checksum(region, shift) != stored then Failure(ChecksumMismatch(Checksum(region, shift), stored))
    else
      match FirstDifferent(sector, stored, 1)
      case Some(w) => Failure(ChecksumNotRepeated(w))
      case None => Success(())
  }

  method CheckChecksum(region: seq<u8>, shift: u8, sectorBytes: nat) returns (r: Result<(), ExFatError>)
    requires 9 <= shift <= 12 && sectorBytes == Pow2(shift) && REGION_SECTORS * sectorBytes <= |region|
    ensures r == ChecksumVerdict(region, shift)
  {
    hide Checksum;
    SectorSizes();
    var computed := BootChecksum(region, shift);
    var sector := region[CHECKSUM_SECTORS * sectorBytes..(CHECKSUM_SECTORS + 1) * sectorBytes];
    var stored := LeU32(sector, 0);
    if computed != stored {
      return Failure(ChecksumMismatch(computed, stored));
    }
    for word := 1 to sectorBytes / 4
      invariant FirstDifferent(sector, stored, 1) == FirstDifferent(sector, stored, word)
    {
      if LeU32(sector, word * 4) != stored {
        return Failure(ChecksumNotRepeated(word));
      }
    }
    r := Success(());
  }

  ghost predicate Repeats(sector: seq<u8>, value: u32) {
    forall i :: 0 <= i && i * 4 + 4 <= |sector| ==> LeU32(sector, i * 4) == value
  }

  /** A region passes exactly when its twelfth sector repeats, from end to end,
      the checksum of the eleven before it. */
  lemma PassesIffRepeated(region: seq<u8>, shift: u8)
    requires 9 <= shift <= 12 && REGION_SECTORS * Pow2(shift) <= |region|
    ensures ChecksumVerdict(region, shift).Success?
       <==> Repeats(ChecksumSector(region, shift), Checksum(region, shift))
  {
    hide Checksum, LeU32;
    SectorSizes();
    var sector := ChecksumSector(region, shift);
    if Repeats(sector, Checksum(region, shift)) {
      assert LeU32(sector, 0 * 4) == Checksum(region, shift);
    }
  }

  /** So no region passes that differs from one that does in exactly one
      covered byte; and what it fails with is the checksum it now has. */
  lemma OneByteIsRefused(region: seq<u8>, shift: u8, k: nat, b: u8)
    requires 9 <= shift <= 12 && REGION_SECTORS * Pow2(shift) <= |region|
    requires ChecksumVerdict(region, shift).Success?
    requires k < Covered(region, shift) && !Skipped(k) && b != region[k]
    ensures ChecksumVerdict(region[k := b], shift)
         == Failure(ChecksumMismatch(Checksum(region[k := b], shift), Checksum(region, shift)))
  {
    hide Checksum, LeU32;
    SectorSizes();
    OneByteIsDetected(region, shift, k, b);
    assert ChecksumSector(region[k := b], shift) == ChecksumSector(region, shift);
  }

  // The sector that repeats a value.
  function Sealing(value: u32, size: nat): (s: seq<u8>)
    ensures |s| == size
  {
    seq(size, i requires 0 <= i < size =>
      if i % 4 == 0 then value % 0x100
      else if i % 4 == 1 then value / 0x100 % 0x100
      else if i % 4 == 2 then value / 0x1_0000 % 0x100
      else value / 0x100_0000)
  }

  lemma SealingAt(value: u32, size: nat, i: nat)
    requires i * 4 + 4 <= size
    ensures var s, at := Sealing(value, size), i * 4;
      && s[at] == value % 0x100 && s[at + 1] == value / 0x100 % 0x100
      && s[at + 2] == value / 0x1_0000 % 0x100 && s[at + 3] == value / 0x100_0000
  {
  }

  lemma BytesOfWord(value: u32)
    ensures value % 0x100 + 0x100 * (value / 0x100 % 0x100)
          + 0x1_0000 * (value / 0x1_0000 % 0x100 + 0x100 * (value / 0x100_0000)) == value
  {
    assert value == value % 0x1_0000 + 0x1_0000 * (value / 0x1_0000);
    assert value % 0x1_0000 == value % 0x100 + 0x100 * (value / 0x100 % 0x100);
    assert value / 0x1_0000 == value / 0x1_0000 % 0x100 + 0x100 * (value / 0x100_0000);
  }

  lemma SealingRepeats(value: u32, size: nat)
    ensures Repeats(Sealing(value, size), value)
  {
    hide Sealing;
    BytesOfWord(value);
    forall i: nat | i * 4 + 4 <= size ensures LeU32(Sealing(value, size), i * 4) == value {
      SealingAt(value, size, i);
    }
  }

  /** Any eleven sectors can be sealed: followed by a sector repeating their
      checksum, they pass. */
  lemma SealedRegionPasses(sectors: seq<u8>, shift: u8)
    requires 9 <= shift <= 12 && |sectors| == CHECKSUM_SECTORS * Pow2(shift)
    ensures var sealed := sectors + Sealing(Checksum(sectors, shift), Pow2(shift));
      |sealed| == REGION_SECTORS * Pow2(shift) && ChecksumVerdict(sealed, shift).Success?
  {
    hide LeU32;
    SectorSizes();
    var value := Checksum(sectors, shift);
    var sealed := sectors + Sealing(value, Pow2(shift));
    KeptOfPrefix(sectors, sealed, |sectors|);
    assert ChecksumSector(sealed, shift) == Sealing(value, Pow2(shift));
    SealingRepeats(value, Pow2(shift));
    PassesIffRepeated(sealed, shift);
  }
}
