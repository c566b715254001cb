/** Names of recovered artifacts: composed of four numbers, and telling them
    all back. */
module ArtifactPath {
  import opened Machine

  // Where a recovered entry was read from, on the whole image, and the first
  // cluster of the content it names.
  datatype Artifact = Artifact(partition: u8, cluster: u32, slot: nat, firstCluster: u32)

  function Digit(d: nat): char
    requires d < 10
  {
    "0123456789"[d]
  }

  predicate IsDigit(c: char) { '0' <= c <= '9' }

  function Decimal(n: nat): (s: string)
    ensures s != [] && forall i :: 0 <= i < |s| ==> IsDigit(s[i])
  {
    if n < 10 then [Digit(n)] else Decimal(n / 10) + [Digit(n % 10)]
  }

  function FileName(a: Artifact): string { "p" + (Decimal(a.partition) + FromCluster(a)) }

  function FromCluster(a: Artifact): string { "-c" + (Decimal(a.cluster) + FromSlot(a)) }

  function FromSlot(a: Artifact): string { "-s" + (Decimal(a.slot) + FromFirst(a)) }

  function FromFirst(a: Artifact): string { "-first-" + (Decimal(a.firstCluster) + ".bin") }

  function Path(directory: string, a: Artifact): string { directory + "/" + FileName(a) }

  lemma {:induction false} DecimalInjective(m: nat, n: nat)
    requires Decimal(m) == Decimal(n)
    ensures m == n
  {
    var a, b := Decimal(m), Decimal(n);
    assert a[|a| - 1] == b[|b| - 1];
    LastDigit(m);
    LastDigit(n);
    if m >= 10 && n >= 10 {
      assert a[..|a| - 1] == b[..|b| - 1];
      DecimalInjective(m / 10, n / 10);
    }
  }

  // The number a string of decimal digits is read as.
  ghost function NumberIn(s: string): int {
    if s == [] then 0 else 10 * NumberIn(s[..|s| - 1]) + s[|s| - 1] as int - '0' as int
  }

  /** A decimal form is read back as its number, and has no leading zero. */
  lemma {:induction false} DecimalIsRead(n: nat)
    ensures NumberIn(Decimal(n)) == n
    ensures Decimal(n)[0] == '0' ==> n == 0
  {
    LastDigit(n);
    if n < 10 {
      assert Decimal(n)[..0] == [];
    } else {
      DecimalIsRead(n / 10);
      assert Decimal(n)[0] == Decimal(n / 10)[0];
    }
  }

  // Whether a name is these four decimal forms, each after its own mark.
  ghost predicate Spelt(name: string, p: string, c: string, s: string, f: string) {
    name == "p" + (p + ("-c" + (c + ("-s" + (s + ("-first-" + (f + ".bin")))))))
  }

  /** A file name spells out its four numbers. */
  lemma FileNameSpells(a: Artifact)
    ensures exists p, c, s, f ::
      && Spelt(FileName(a), p, c, s, f)
      && NumberIn(p) == a.partition && NumberIn(c) == a.cluster && NumberIn(s) == a.slot
      && NumberIn(f) == a.firstCluster
  {
    hide Decimal, NumberIn;
    DecimalIsRead(a.partition);
    DecimalIsRead(a.cluster);
    DecimalIsRead(a.slot);
    DecimalIsRead(a.firstCluster);
    assert Spelt(FileName(a), Decimal(a.partition), Decimal(a.cluster), Decimal(a.slot), Decimal(a.firstCluster));
  }

  lemma LastDigit(n: nat)
    ensures var s := Decimal(n);
      && s[|s| - 1] == Digit(n % 10)
      && (n < 10 <==> |s| == 1)
      && (n >= 10 ==> s[..|s| - 1] == Decimal(n / 10))
  {
  }

  // A run of digits ends where the next non-digit begins.
  lemma {:induction false} DigitsEnd(a: string, b: string, x: string, y: string)
    requires forall i :: 0 <= i < |a| ==> IsDigit(a[i])
    requires forall i :: 0 <= i < |b| ==> IsDigit(b[i])
    requires x != [] && y != [] && !IsDigit(x[0]) && !IsDigit(y[0])
    requires a + x == b + y
    ensures a == b && x == y
  {
    assert (a + x)[0] == (b + y)[0];
    if a != [] && b != [] {
      assert (a + x)[1..] == a[1..] + x && (b + y)[1..] == b[1..] + y;
      DigitsEnd(a[1..], b[1..], x, y);
      assert a == [a[0]] + a[1..] && b == [b[0]] + b[1..];
    } else {
      assert a == [] && b == [];
      assert a + x == x && b + y == y;
    }
  }

  lemma NumberThenRest(m: nat, n: nat, x: string, y: string)
    requires x != [] && y != [] && !IsDigit(x[0]) && !IsDigit(y[0])
    requires Decimal(m) + x == Decimal(n) + y
    ensures m == n && x == y
  {
    DigitsEnd(Decimal(m), Decimal(n), x, y);
    DecimalInjective(m, n);
  }

  lemma SamePrefix(p: string, x: string, y: string)
    requires p + x == p + y
    ensures x == y
  {
    assert x == (p + x)[|p|..] && y == (p + y)[|p|..];
  }

  /** Within one directory, the path of an artifact tells every number that
      made it: two artifacts share a path only if they are the same. */
  lemma PathInjective(directory: string, a: Artifact, b: Artifact)
    requires Path(directory, a) == Path(directory, b)
    ensures a == b
  {
    hide Decimal;
    SamePrefix(directory + "/", FileName(a), FileName(b));
    SamePrefix("p", Decimal(a.partition) + FromCluster(a), Decimal(b.partition) + FromCluster(b));
    NumberThenRest(a.partition, b.partition, FromCluster(a), FromCluster(b));
    SamePrefix("-c", Decimal(a.cluster) + FromSlot(a), Decimal(b.cluster) + FromSlot(b));
    NumberThenRest(a.cluster, b.cluster, FromSlot(a), FromSlot(b));
    SamePrefix("-s", Decimal(a.slot) + FromFirst(a), Decimal(b.slot) + FromFirst(b));
    NumberThenRest(a.slot, b.slot, FromFirst(a), FromFirst(b));
    SamePrefix("-first-", Decimal(a.firstCluster) + ".bin", Decimal(b.firstCluster) + ".bin");
    NumberThenRest(a.firstCluster, b.firstCluster, ".bin", ".bin");
  }

  /** No part of the name can leave the directory: a file name holds no
      separator, and is not a dot name. */
  lemma FileNameStaysInDirectory(a: Artifact)
    ensures '/' !in FileName(a) && '\\' !in FileName(a) && FileName(a) != "." && FileName(a) != ".."
  {
    assert FileName(a)[0] == 'p';
    forall i | 0 <= i < |FileName(a)| ensures FileName(a)[i] != '/' && FileName(a)[i] != '\\' {
    }
  }
}
