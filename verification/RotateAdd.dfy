/** The rotate-then-add checksum both FAT long names and exFAT boot regions
    use, at any even modulus `2 * half` of at least 256: 8-bit is half = 0x80,
    32-bit is half = 0x8000_0000. */
module RotateAdd {
  import opened Machine

  predicate Width(half: nat) { half >= 0x80 }

  // One wrap at most, so the modulus is a single conditional subtraction.
  lemma ModOnce(x: nat, m: nat)
    requires m > 0 && x < 2 * m
    ensures x % m == if x < m then x else x - m
  {
    if x >= m {
      assert x == 1 * m + (x - m);
    }
  }

  function Rotate(half: nat, acc: nat): (r: nat)
    requires Width(half) && acc < 2 * half
    ensures r < 2 * half
  {
    if acc % 2 == 0 then acc / 2 else acc / 2 + half
  }

  function Step(half: nat, acc: nat, b: u8): (r: nat)
    requires Width(half) && acc < 2 * half
    ensures r < 2 * half
  {
    var sum := Rotate(half, acc) + b;
    if sum < 2 * half then sum else sum - 2 * half
  }

  /** A step is a rotation right and an addition modulo `2 * half`. */
  lemma StepWraps(half: nat, acc: nat, b: u8)
    requires Width(half) && acc < 2 * half
    ensures Step(half, acc, b) == (Rotate(half, acc) + b) % (2 * half)
  {
    ModOnce(Rotate(half, acc) + b, 2 * half);
  }

  function Fold(half: nat, acc: nat, bytes: seq<u8>): (r: nat)
    requires Width(half) && acc < 2 * half
    ensures r < 2 * half
  {
    if bytes == [] then acc
    else Step(half, Fold(half, acc, bytes[..|bytes| - 1]), bytes[|bytes| - 1])
  }

  // With the byte fixed, a step is injective in the accumulator.
  lemma StepInjectiveInAcc(half: nat, a: nat, a': nat, b: u8)
    requires Width(half) && a < 2 * half && a' < 2 * half
    requires Step(half, a, b) == Step(half, a', b)
    ensures a == a'
  {
    RotateInjective(half, a, a');
  }

  lemma RotateInjective(half: nat, a: nat, a': nat)
    requires Width(half) && a < 2 * half && a' < 2 * half && Rotate(half, a) == Rotate(half, a')
    ensures a == a'
  {
    assert a / 2 < half && a' / 2 < half;
  }

  // With the accumulator fixed, a step is injective in the byte.
  lemma StepInjectiveInByte(half: nat, a: nat, b: u8, b': u8)
    requires Width(half) && a < 2 * half
    requires Step(half, a, b) == Step(half, a, b')
    ensures b == b'
  {
  }

  // The accumulator a step came from.
  function Unstep(half: nat, sum: nat, b: u8): (acc: nat)
    requires Width(half) && sum < 2 * half
    ensures acc < 2 * half && Step(half, acc, b) == sum
  {
    var rotated := if sum >= b then sum - b else sum + 2 * half - b;
    var acc := if rotated >= half then 2 * (rotated - half) + 1 else 2 * rotated;
    assert Rotate(half, acc) == rotated;
    acc
  }

  lemma {:induction false} FoldSplit(half: nat, acc: nat, a: seq<u8>, b: seq<u8>)
    requires Width(half) && acc < 2 * half
    ensures Fold(half, acc, a + b) == Fold(half, Fold(half, acc, a), b)
  {
    if b == [] {
      assert a + b == a;
    } else {
      FoldSplit(half, acc, a, b[..|b| - 1]);
      assert (a + b)[..|a + b| - 1] == a + b[..|b| - 1];
    }
  }

  lemma {:induction false} FoldInjectiveInAcc(half: nat, a: nat, a': nat, bytes: seq<u8>)
    requires Width(half) && a < 2 * half && a' < 2 * half
    requires Fold(half, a, bytes) == Fold(half, a', bytes)
    ensures a == a'
  {
    if bytes != [] {
      var front, last := bytes[..|bytes| - 1], bytes[|bytes| - 1];
      StepInjectiveInAcc(half, Fold(half, a, front), Fold(half, a', front), last);
      FoldInjectiveInAcc(half, a, a', front);
    }
  }

  // A byte folded from zero is itself the accumulator.
  lemma FoldFromZero(half: nat, b: u8)
    requires Width(half)
    ensures Fold(half, 0, [b]) == b
  {
    assert [b][..0] == [];
    assert Fold(half, 0, [b][..0]) == 0;
  }

  // The start from which the given bytes fold to `sum`. There is always one,
  // and FoldInjectiveInAcc says there is only one.
  function Unfold(half: nat, sum: nat, bytes: seq<u8>): (acc: nat)
    requires Width(half) && sum < 2 * half
    ensures acc < 2 * half && Fold(half, acc, bytes) == sum
    decreases |bytes|
  {
    if bytes == [] then sum
    else Unfold(half, Unstep(half, sum, bytes[|bytes| - 1]), bytes[..|bytes| - 1])
  }

  // Changing exactly one byte, at any position of a string of any length,
  // always changes the checksum.
  lemma FoldDetectsOneByte(half: nat, acc: nat, bytes: seq<u8>, k: nat, b: u8)
    requires Width(half) && acc < 2 * half && k < |bytes| && b != bytes[k]
    ensures Fold(half, acc, bytes[k := b]) != Fold(half, acc, bytes)
  {
    var head, tail := bytes[..k], bytes[k + 1..];
    assert bytes == head + [bytes[k]] + tail;
    assert bytes[k := b] == head + [b] + tail;
    FoldSplit(half, acc, head + [bytes[k]], tail);
    FoldSplit(half, acc, head + [b], tail);
    assert (head + [b])[..k] == head && (head + [bytes[k]])[..k] == head;
    var before := Fold(half, acc, head);
    if Fold(half, acc, bytes[k := b]) == Fold(half, acc, bytes) {
      FoldInjectiveInAcc(half, Step(half, before, b), Step(half, before, bytes[k]), tail);
      StepInjectiveInByte(half, before, b, bytes[k]);
      assert false;
    }
  }
}
