/** FAT32 volumes with clusters no chain can reach: the parser accepts more
    clusters than a FAT entry can name. */
module FatUnlinkable {
  import opened Fat
  import opened Fat32
  import opened FatEnumerate
  import opened FatLayout
  import opened Filesystems
  import opened Machine
  import opened Wrappers

  // Whether some FAT entry, whatever its reserved bits, leads from one cluster
  // to the next.
  ghost predicate Linkable(from: u32, c: u32) { exists raw: u32 :: LinksTo(from, raw, c) }

  predicate LinksTo(from: u32, raw: u32, c: u32) { Link(from, raw % 0x1000_0000) == Success(Some(c)) }

  /** An entry can lead to exactly the clusters below the marks. */
  lemma LinkableIff(from: u32, c: u32)
    ensures Linkable(from, c) <==> 2 <= c < 0x0FFF_FFF7
  {
    if FIRST_DATA_CLUSTER <= c < FAT_BAD_CLUSTER {
      assert LinksTo(from, c, c);
    }
  }

  /** Every data cluster of a volume can be linked to if and only if there are
      at most 0x0FFFFFF5 of them. The parser does not bound the count, so this
      is a condition and not a fact. */
  lemma EveryClusterLinkableIff(v: Volume, from: u32)
    ensures (forall c: u32 :: v.HasCluster(c) ==> Linkable(from, c)) <==> v.boot.geometry.clusterCount <= 0x0FFF_FFF5
  {
    hide Linkable;
    forall c: u32 {
      LinkableIff(from, c);
    }
    if v.boot.geometry.clusterCount > 0x0FFF_FFF5 {
      assert v.HasCluster(FAT_BAD_CLUSTER);
    }
  }

  // The boot sector of 2,147,483,648 clusters of one sector behind two FATs.
  function BootByte(i: nat): u8 {
    if i == 0 then 0xEB
    else if i == 0x0C then 2
    else if i == 0x0D then 1
    else if i == 0x0E then 32
    else if i == 0x10 then 2
    else if i == 0x15 then 0xF8
    else if i == 0x20 then 0x20
    else if i == 0x23 then 0x83
    else if i == 0x26 then 0x80
    else if i == 0x27 then 0x01
    else if i == 0x2C then 2
    else if i == 0x30 then 1
    else if i == 0x32 then 6
    else if i == 0x1FE then 0x55 else if i == 0x1FF then 0xAA
    else 0
  }

  function WideSector(): (s: seq<u8>)
    ensures |s| == 512 && forall i :: 0 <= i < 512 ==> s[i] == BootByte(i)
  {
    seq(512, i requires 0 <= i < 512 => BootByte(i))
  }

  const WIDE_EXTENT: VolumeExtent := VolumeExtent(0, 0x8300_0020)

  lemma WideBpb()
    ensures ReadBpb(WideSector()) == Bpb(512, 1, 32, 2, 0, 0, 0xF8, 0, 0x8300_0020, 0x0180_0000)
  {
    hide WideSector;
  }

  lemma WideTail()
    ensures var s := WideSector();
      && LeU32(s, OFF_ROOT_CLUSTER) == 2 && LeU16(s, OFF_EXT_FLAGS) == 0 && LeU16(s, OFF_FS_VERSION) == 0
      && LeU16(s, OFF_FS_INFO_SECTOR) == 1 && LeU16(s, OFF_BACKUP_BOOT_SECTOR) == 6
      && s[0x1FE] == 0x55 && s[0x1FF] == 0xAA && s[0] == 0xEB
      && s[3..11] != OEM_EXFAT && s[3..11] != OEM_NTFS
  {
    hide WideSector;
    assert WideSector()[3..11][0] == 0;
  }

  /** A sector and an extent the parser accepts whose clusters cannot all be
      linked to. */
  lemma TooManyClustersAccepted(from: u32)
    ensures ParseBootSector(WideSector(), WIDE_EXTENT).Success?
    ensures var v := Volume(ParseBootSector(WideSector(), WIDE_EXTENT).value, WIDE_EXTENT);
      && v.Sound() && v.boot.geometry.clusterCount == 0x8000_0000
      && v.HasCluster(FAT_BAD_CLUSTER) && !Linkable(from, FAT_BAD_CLUSTER)
  {
    hide WideSector, Linkable, ParseBootSector, LeU16, LeU32;
    WideBpb();
    WideTail();
    ParseAcceptsConformant(WideSector(), WIDE_EXTENT);
    ParseIsSound(WideSector(), WIDE_EXTENT);
    ClustersOfAccepted(WideSector(), WIDE_EXTENT);
    LinkableIff(from, FAT_BAD_CLUSTER);
  }

  lemma ClustersOfAccepted(s: seq<u8>, extent: VolumeExtent)
    requires ParseBootSector(s, extent).Success?
    ensures |s| >= VBR_SIZE && ParseBootSector(s, extent).value.geometry.clusterCount == Clusters(ReadBpb(s))
  {
    IdentifiedIsConformant(ReadBpb(s));
  }
}
