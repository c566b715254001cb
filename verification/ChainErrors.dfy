/** Why a cluster chain cannot be followed: what the FAT holds where it stops. */
module ChainErrors {
  import opened Fat32
  import opened FatEnumerate
  import opened FatLayout
  import opened Machine
  import opened Wrappers

  // The clusters from `first` that the FAT links one to the next, as far as
  // they go: distinct data clusters, within the limit.
  ghost predicate Follows(image: seq<u8>, v: Volume, first: u32, cs: seq<u32>) {
    && AllData(v, cs) && Distinct(cs) && Linked(image, v, cs)
    && (cs != [] ==> cs[0] == first)
    && |cs| * (16 * v.boot.geometry.sectorsPerCluster) <= 65536
  }

  // What comes after them: the first cluster itself, or what the last one's
  // FAT entry holds.
  ghost function After(image: seq<u8>, v: Volume, first: u32, cs: seq<u32>): u32 {
    if cs == [] then first else FatEntry(image, v, cs[|cs| - 1])
  }

  // That what comes next is no further cluster, in the way the error says.
  ghost predicate StopsAt(image: seq<u8>, v: Volume, first: u32, cs: seq<u32>, e: DirectoryError) {
    var next, count := After(image, v, first, cs), v.boot.geometry.clusterCount;
    var linked := cs == [] || 2 <= next < 0x0FFF_FFF7;
    match e
    case ClusterOutOfRange(c, n) => linked && c == next && n == count && !(2 <= next <= count + 1)
    case CyclicChain(c) => linked && c == next && next in cs
    case TooLarge(entries) =>
      linked && 2 <= next <= count + 1 && next !in cs
      && entries == |cs| * (16 * v.boot.geometry.sectorsPerCluster) == 65536
    case BadCluster(c) => cs != [] && c == next == 0x0FFF_FFF7
    case ReservedChainLink(from, c) => cs != [] && from == cs[|cs| - 1] && c == next < 2
    case _ => false
  }

  ghost predicate Broken(image: seq<u8>, v: Volume, first: u32, e: DirectoryError) {
    exists cs :: Follows(image, v, first, cs) && StopsAt(image, v, first, cs, e)
  }

  /** A chain fails with an error exactly when the links lead to what that
      error describes: so the error a directory is refused with is true of the
      FAT, and no other is. */
  lemma ChainFailsIff(image: seq<u8>, v: Volume, first: u32, e: DirectoryError)
    requires v.Sound()
    ensures Chained(image, v, [], first) == Failure(e) <==> Broken(image, v, first, e)
  {
    hide Chained, FatEntry, Volume.Sound;
    if Chained(image, v, [], first) == Failure(e) {
      FailureIsTrue(image, v, [], first, first, e);
    }
    if Broken(image, v, first, e) {
      var cs :| Follows(image, v, first, cs) && StopsAt(image, v, first, cs, e);
      StopIsReached(image, v, first, cs, 0, e);
      assert cs[..0] == [];
    }
  }

  // The entry limit, as a limit on clusters.
  lemma WithinLimit(v: Volume, n: nat)
    requires v.Sound()
    ensures SlotsPerCluster(v) == 16 * v.boot.geometry.sectorsPerCluster > 0
    ensures n * (16 * v.boot.geometry.sectorsPerCluster) <= 65536 <==> n <= MaxClusters(v)
    ensures n * (16 * v.boot.geometry.sectorsPerCluster) == 65536 <==> n == MaxClusters(v)
    ensures MaxClusters(v) <= MAX_ENTRIES
  {
    ClusterLimitIsEntryLimit(v);
    var d, most := SlotsPerCluster(v), MaxClusters(v);
    LimitAtMost(most, d);
    if n < most { OneMoreFits(n, most, d); }
    if most < n { OneMoreFits(most, n, d); }
  }

  lemma {:induction false} FailureIsTrue(image: seq<u8>, v: Volume, visited: seq<u32>, c: u32, first: u32,
                                         e: DirectoryError)
    requires v.Sound() && Follows(image, v, first, visited)
    requires c == After(image, v, first, visited) && (visited != [] ==> 2 <= c < 0x0FFF_FFF7)
    requires Chained(image, v, visited, c) == Failure(e)
    ensures Broken(image, v, first, e)
    decreases if |visited| <= MAX_ENTRIES then MAX_ENTRIES - |visited| else 0
  {
    hide FatEntry;
    WithinLimit(v, |visited|);
    WithinLimit(v, |visited| + 1);
    if Refusal(v, visited, c).Some? {
      RefusalStops(image, v, first, visited, e);
    } else {
      var longer := visited + [c];
      OneFurther(image, v, first, visited, c);
      assert longer[|longer| - 1] == c;
      if Link(c, FatEntry(image, v, c)).Failure? {
        assert StopsAt(image, v, first, longer, e);
      } else {
        FailureIsTrue(image, v, longer, FatEntry(image, v, c), first, e);
      }
    }
  }

  lemma RefusalStops(image: seq<u8>, v: Volume, first: u32, visited: seq<u32>, e: DirectoryError)
    requires v.Sound() && Follows(image, v, first, visited)
    requires visited != [] ==> 2 <= After(image, v, first, visited) < 0x0FFF_FFF7
    requires (ClusterLimitIsEntryLimit(v); Refusal(v, visited, After(image, v, first, visited))) == Some(e)
    ensures Broken(image, v, first, e)
  {
    hide FatEntry;
    WithinLimit(v, |visited|);
    assert StopsAt(image, v, first, visited, e);
  }

  lemma OneFurther(image: seq<u8>, v: Volume, first: u32, visited: seq<u32>, c: u32)
    requires Follows(image, v, first, visited) && c == After(image, v, first, visited)
    requires visited != [] ==> c < 0x0FFF_FFF7
    requires v.HasCluster(c) && c !in visited
    requires (|visited| + 1) * (16 * v.boot.geometry.sectorsPerCluster) <= 65536
    ensures Follows(image, v, first, visited + [c])
  {
    var longer := visited + [c];
    forall i | 0 <= i < |longer| - 1 ensures FatEntry(image, v, longer[i]) == longer[i + 1] {
      if i < |visited| - 1 { assert longer[i] == visited[i] && longer[i + 1] == visited[i + 1]; }
    }
  }

  lemma {:induction false} StopIsReached(image: seq<u8>, v: Volume, first: u32, cs: seq<u32>, k: nat, e: DirectoryError)
    requires v.Sound() && Follows(image, v, first, cs) && StopsAt(image, v, first, cs, e) && k <= |cs|
    requires k == |cs| ==> !e.BadCluster? && !e.ReservedChainLink?
    ensures Chained(image, v, cs[..k], if k < |cs| then cs[k] else After(image, v, first, cs)) == Failure(e)
    decreases |cs| - k
  {
    hide FatEntry;
    WithinLimit(v, |cs|);
    if k < |cs| {
      assert cs[..k] + [cs[k]] == cs[..k + 1];
      assert cs[k] !in cs[..k];
      if k + 1 < |cs| {
        assert FatEntry(image, v, cs[k]) == cs[k + 1] && v.HasCluster(cs[k + 1]);
        StopIsReached(image, v, first, cs, k + 1, e);
      } else if !e.BadCluster? && !e.ReservedChainLink? {
        StopIsReached(image, v, first, cs, k + 1, e);
      }
    } else {
      assert cs[..k] == cs;
    }
  }
}
