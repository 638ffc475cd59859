/**
 A mounted FAT32 volume: a window of a disk's sectors, and the operations on its FAT.
 Each operation is proved against the Image its sectors stand for.
 */
module Volumes {
  import opened Bytes
  import opened FatLayout

  /** The fields of the boot sector, at their offsets in the BIOS parameter block. */
  function ParseBpb(boot: Sector): Geometry {
    Geometry(Le16(boot, 14), boot[16], Le32(boot, 36), boot[13], Le32(boot, 32), Le32(boot, 44))
  }

  class Volume {
    const disk: array<Sector>
    const partitionBase: nat
    const geo: Geometry

    ghost function Sectors(): (r: seq<Sector>)
      requires Attached()
      reads disk
    {
      disk[partitionBase..partitionBase + geo.totalSectors]
    }

    /** The sectors of the disk that do not belong to this volume. */
    ghost function Elsewhere(): (seq<Sector>, seq<Sector>)
      requires partitionBase + geo.totalSectors <= disk.Length
      reads disk
    {
      (disk[..partitionBase], disk[partitionBase + geo.totalSectors..])
    }

    /** The volume lies on the disk, and its sectors have 32-bit addresses. */
    ghost predicate Attached() {
      && geo.Valid() && partitionBase + geo.totalSectors <= disk.Length
      && partitionBase + geo.totalSectors <= 0x1_0000_0000
    }

    /** A sane geometry, inside the disk, with all FAT copies equal. */
    ghost predicate Mounted()
      reads disk
    {
      Attached() && Layout(geo, Sectors())
    }

    ghost function Img(): (r: Image)
      requires Mounted()
      reads disk
      ensures Shape(geo, r)
    {
      ImageOf(geo, Sectors())
    }

    constructor (disk: array<Sector>, partitionBase: nat)
      requires partitionBase < disk.Length
      ensures this.disk == disk && this.partitionBase == partitionBase
      ensures geo == ParseBpb(disk[partitionBase])
    {
      this.disk := disk;
      this.partitionBase := partitionBase;
      this.geo := ParseBpb(disk[partitionBase]);
    }

    method ReadSector(lba: nat) returns (buf: Sector)
      requires Attached() && lba < geo.totalSectors
      ensures buf == Sectors()[lba]
    {
      buf := disk[partitionBase + lba];
    }

    method WriteSector(lba: nat, buf: Sector)
      requires Attached() && lba < geo.totalSectors
      modifies disk
      ensures Sectors() == old(Sectors())[lba := buf]
      ensures Elsewhere() == old(Elsewhere())
    {
      disk[partitionBase + lba] := buf;
    }

    /** Sector s of cluster c: what a read at cluster_to_lba(c) + s returns. */
    method ReadData(lba: nat, ghost c: nat, ghost s: nat) returns (buf: Sector)
      requires Mounted() && 2 <= c < geo.Limit() && s < geo.sectorsPerCluster
      requires lba == geo.ClusterToLba(c) + s
      ensures buf == Img().clus[c][s]
    {
      ClusterInside(geo, c);
      buf := ReadSector(lba);
    }

    method WriteData(lba: nat, buf: Sector, ghost c: nat, ghost s: nat)
      requires Mounted() && 2 <= c < geo.Limit() && s < geo.sectorsPerCluster
      requires lba == geo.ClusterToLba(c) + s
      modifies disk
      ensures Mounted() && Elsewhere() == old(Elsewhere())
      ensures Img() == old(Img()).Put(c, s, buf)
    {
      FatLayout.WriteData(geo, Sectors(), c, s, buf);
      WriteSector(lba, buf);
    }
  }

  // ------------------------------------------------------------- FAT entries

  method FatNextCluster(v: Volume, cluster: nat) returns (next: nat)
    requires v.Mounted() && cluster < v.geo.FatEntries()
    ensures next == v.Img().fat[cluster]
  {
    var fatOffset := cluster * 4;
    var fatSector := v.geo.fatStart + fatOffset / SECTOR_SIZE;
    var offset := fatOffset % SECTOR_SIZE;
    EntrySector(v.geo, cluster);
    LinkOf(v.geo, v.Sectors(), cluster);
    hide ImageOf, CopiesAgree, Le32, Geometry.DataStart, Geometry.Limit;
    var buf := v.ReadSector(fatSector);
    next := Le32(buf, offset) % LINK_SPAN;
  }

  /** Sets one entry in every FAT copy, keeping its reserved top four bits. */
  method FatSetCluster(v: Volume, cluster: nat, value: nat)
    requires v.Mounted() && cluster < v.geo.FatEntries()
    modifies v.disk
    ensures v.Mounted() && v.Elsewhere() == old(v.Elsewhere())
    ensures v.Img() == old(v.Img()).Link(cluster, value % LINK_SPAN)
  {
    hide ImageOf, CopiesAgree, PutCopies, Le32, PutLe32, Geometry.FatLba, Geometry.DataStart, Geometry.Limit;
    var fatOffset := cluster * 4;
    var sectorInFat := fatOffset / SECTOR_SIZE;
    var offset := fatOffset % SECTOR_SIZE;
    ghost var d := v.Sectors();
    EntrySector(v.geo, cluster);
    ghost var patched := PatchEntry(d[v.geo.fatStart + sectorInFat], cluster, value);
    var copy := 0;
    NoCopy(v.geo, d, sectorInFat, patched);
    while copy < v.geo.fatCount
      invariant 0 <= copy <= v.geo.fatCount
      invariant v.Sectors() == PutCopies(v.geo, d, sectorInFat, patched, copy)
      invariant v.Elsewhere() == old(v.Elsewhere())
    {
      NextCopy(v.geo, d, sectorInFat, patched, copy);
      var fatSector := v.geo.FatLba(copy, sectorInFat);
      var buf := v.ReadSector(fatSector);
      buf := PutLe32(buf, offset, Le32(buf, offset) / LINK_SPAN * LINK_SPAN + value % LINK_SPAN);
      v.WriteSector(fatSector, buf);
      copy := copy + 1;
    }
    WriteEntry(v.geo, d, cluster, value);
  }

  ghost predicate LowestFree(fat: seq<nat>, limit: nat, c: nat)
    requires limit <= |fat|
  {
    if c == 0 then
      forall x :: 2 <= x < limit ==> fat[x] != 0
    else
      2 <= c < limit && fat[c] == 0 && forall x :: 2 <= x < c ==> fat[x] != 0
  }

  /** The cluster found is free, and no free one is lower; none is found only when there is none. */
  lemma LowestIsLowest(fat: seq<nat>, limit: nat, c: nat, x: nat)
    requires limit <= |fat| && LowestFree(fat, limit, c) && 2 <= x < limit && fat[x] == 0
    ensures 2 <= c <= x && fat[c] == 0
  {
  }

  /** No cluster below `upto` is free. */
  ghost predicate NoneFree(fat: seq<nat>, upto: nat) {
    forall x :: 2 <= x < upto && x < |fat| ==> fat[x] != 0
  }

  lemma NoneFreeMore(fat: seq<nat>, c: nat)
    requires NoneFree(fat, c) && c < |fat| && (c < 2 || fat[c] != 0)
    ensures NoneFree(fat, c + 1)
  {
  }

  lemma NoneBelow(g: Geometry, fat: seq<nat>, c: nat)
    requires g.Valid() && |fat| == g.FatEntries() && NoneFree(fat, c)
    ensures g.TotalClusters() + 2 <= c || g.FatEntries() <= c ==> LowestFree(fat, g.Limit(), 0)
    ensures 2 <= c < g.TotalClusters() + 2 && c < |fat| && fat[c] == 0 ==> LowestFree(fat, g.Limit(), c)
  {
  }

  /** The inner loop: looks through one FAT sector, unless the volume's last cluster comes before a free one. */
  method ScanFatSector(v: Volume, sector: nat) returns (r: nat, done: bool)
    requires v.Mounted() && sector < v.geo.sectorsPerFat && NoneFree(v.Img().fat, sector * ENTRIES_PER_SECTOR)
    ensures done ==> LowestFree(v.Img().fat, v.geo.Limit(), r)
    ensures !done ==> NoneFree(v.Img().fat, (sector + 1) * ENTRIES_PER_SECTOR)
  {
    var totalClusters := v.geo.TotalClusters();
    ghost var fat, disk := v.Img().fat, v.Sectors();
    hide ImageOf, Layout, Le32, Geometry.DataStart, Geometry.TotalClusters, Geometry.FatEntries, RawEntry,
         Geometry.Limit, Geometry.ClusterToLba, Geometry.Valid, NoneFree, LowestFree;
    EntryInSector(v.geo, disk, sector, 0);
    var buf := v.ReadSector(v.geo.fatStart + sector);
    var i := 0;
    while i < ENTRIES_PER_SECTOR
      invariant 0 <= i <= ENTRIES_PER_SECTOR && NoneFree(fat, sector * ENTRIES_PER_SECTOR + i)
    {
      var cluster := sector * ENTRIES_PER_SECTOR + i;
      EntryInSector(v.geo, disk, sector, i);
      NoneBelow(v.geo, fat, cluster);
      if cluster >= 2 {
        if cluster >= totalClusters + 2 {
          return 0, true;
        }
        if Le32(buf, i * 4) % LINK_SPAN == 0 {
          return cluster, true;
        }
      }
      NoneFreeMore(fat, cluster);
      i := i + 1;
    }
    return 0, false;
  }

  /** The lowest free cluster, or 0 only when none is left in both FAT and volume. */
  method FindFreeCluster(v: Volume) returns (r: nat)
    requires v.Mounted()
    ensures LowestFree(v.Img().fat, v.geo.Limit(), r)
  {
    ghost var fat := v.Img().fat;
    assert NoneFree(fat, 0);
    hide ImageOf, Layout, Geometry.Valid, NoneFree, LowestFree;
    var sector := 0;
    while sector < v.geo.sectorsPerFat
      invariant 0 <= sector <= v.geo.sectorsPerFat && NoneFree(fat, sector * ENTRIES_PER_SECTOR)
    {
      var done;
      r, done := ScanFatSector(v, sector);
      if done {
        return;
      }
      sector := sector + 1;
    }
    NoneBelow(v.geo, fat, v.geo.FatEntries());
    return 0;
  }

  // -------------------------------------------------- allocating and freeing

  ghost function Zeros(n: nat): (r: Cluster)
    ensures |r| == n
  {
    seq(n, i => ZERO_SECTOR)
  }

  /** The image after claiming cluster c: an end mark in its entry, zeros in its sectors. */
  ghost function Claimed(g: Geometry, img: Image, c: nat): Image
    requires g.Valid() && Shape(g, img) && c < g.Limit()
  {
    img.Link(c, EOC_MARK).Fill(c, Zeros(g.sectorsPerCluster))
  }

  /** Claiming a cluster: 0x0FFFFFFF in its entry, zeros in its sectors, every other one as before. */
  lemma ClaimedImage(g: Geometry, img: Image, c: nat)
    requires g.Valid() && Shape(g, img) && 2 <= c < g.Limit()
    ensures var img' := Claimed(g, img, c);
      && img'.fat == img.fat[c := 0x0FFF_FFFF] && img'.top == img.top && img'.rest == img.rest
      && |img'.clus| == |img.clus| && |img'.clus[c]| == g.sectorsPerCluster
      && (forall s :: 0 <= s < g.sectorsPerCluster ==> img'.clus[c][s] == seq(512, i => 0))
      && (forall x :: 0 <= x < |img.clus| && x != c ==> img'.clus[x] == img.clus[x])
  {
  }

  /** Zeroes a cluster's sectors one by one. */
  method ZeroCluster(v: Volume, cluster: nat)
    requires v.Mounted() && 2 <= cluster < v.geo.Limit()
    modifies v.disk
    ensures v.Mounted() && v.Elsewhere() == old(v.Elsewhere())
    ensures v.Img() == old(v.Img()).Fill(cluster, Zeros(v.geo.sectorsPerCluster))
  {
    ghost var img := v.Img();
    ghost var was: Cluster := img.clus[cluster];
    ZerosEnds(was);
    assert img.Fill(cluster, was) == img;
    hide ImageOf, Layout, Geometry.ClusterToLba, Geometry.Limit, Zeros, SetSector, Image.Put, Image.Fill;
    var lba := v.geo.ClusterToLba(cluster);
    var s := 0;
    while s < v.geo.sectorsPerCluster
      invariant 0 <= s <= v.geo.sectorsPerCluster
      invariant v.Mounted() && v.Elsewhere() == old(v.Elsewhere())
      invariant v.Img() == img.Fill(cluster, Zeros(s) + was[s..])
    {
      v.WriteData(lba + s, ZERO_SECTOR, cluster, s);
      FillPut(img, cluster, Zeros(s) + was[s..], s, ZERO_SECTOR);
      ZerosStep(was, s);
      s := s + 1;
    }
  }

  lemma ZerosEnds(k: Cluster)
    ensures Zeros(0) + k[0..] == k && Zeros(|k|) + k[|k|..] == Zeros(|k|)
  {
  }

  lemma ZerosStep(k: Cluster, s: nat)
    requires s < |k|
    ensures SetSector(Zeros(s) + k[s..], s, ZERO_SECTOR) == Zeros(s + 1) + k[s + 1..]
  {
  }

  method AllocateCluster(v: Volume) returns (cluster: nat)
    requires v.Mounted()
    modifies v.disk
    ensures v.Mounted() && v.Elsewhere() == old(v.Elsewhere())
    ensures LowestFree(old(v.Img()).fat, v.geo.Limit(), cluster)
    ensures v.Img() == if cluster == 0 then old(v.Img()) else Claimed(v.geo, old(v.Img()), cluster)
  {
    cluster := FindFreeCluster(v);
    if cluster == 0 {
      return;
    }
    FatSetCluster(v, cluster, EOC_MARK);
    ZeroCluster(v, cluster);
  }

  predicate IsLink(c: nat) {
    2 <= c < EOC_MIN
  }

  /** Walks from a cluster, zeroing each entry after reading it, for at most `hops` entries. */
  ghost function FreeChain(fat: seq<nat>, cluster: nat, hops: nat): (r: seq<nat>)
    ensures |r| == |fat|
    decreases hops
  {
    if IsLink(cluster) && cluster < |fat| && hops > 0 then
      FreeChain(fat[cluster := 0], fat[cluster], hops - 1)
    else
      fat
  }

  /** `own` contains every cluster its members link to, so a walk inside it stays in range. */
  ghost predicate Closed(fat: seq<nat>, limit: nat, own: set<nat>)
    requires limit <= |fat|
  {
    forall c :: c in own ==> 2 <= c < limit && (IsLink(fat[c]) ==> fat[c] in own)
  }

  method FreeChainFrom(v: Volume, first: nat, ghost own: set<nat>)
    requires v.Mounted() && Closed(v.Img().fat, v.geo.Limit(), own) && (IsLink(first) ==> first in own)
    modifies v.disk
    ensures v.Mounted() && v.Elsewhere() == old(v.Elsewhere())
    ensures v.Img() == old(v.Img()).(fat := FreeChain(old(v.Img()).fat, first, MAX_CLUSTER_CHAIN))
  {
    var cluster: nat, hops := first, 0;
    while 2 <= cluster < EOC_MIN
      invariant v.Mounted() && v.Elsewhere() == old(v.Elsewhere())
      invariant Closed(v.Img().fat, v.geo.Limit(), own) && (IsLink(cluster) ==> cluster in own)
      invariant 0 <= hops <= MAX_CLUSTER_CHAIN
      invariant v.Img() == old(v.Img()).(fat := v.Img().fat)
      invariant FreeChain(v.Img().fat, cluster, MAX_CLUSTER_CHAIN - hops)
             == FreeChain(old(v.Img()).fat, first, MAX_CLUSTER_CHAIN)
      decreases MAX_CLUSTER_CHAIN - hops
    {
      hops := hops + 1;
      if hops > MAX_CLUSTER_CHAIN {
        return;
      }
      var next := FatNextCluster(v, cluster);
      FatSetCluster(v, cluster, 0);
      cluster := next;
    }
  }

  lemma LowestFits(g: Geometry, img: Image, c: nat)
    requires g.Valid() && Shape(g, img) && LowestFree(img.fat, g.Limit(), c)
    ensures c < g.Limit() <= g.FatEntries() && c < LINK_SPAN && (c != 0 ==> Shape(g, Claimed(g, img, c)))
  {
  }

  /** Links a fresh cluster after `last`; 0 when the volume is full. */
  method ExtendChain(v: Volume, last: nat) returns (cluster: nat)
    requires v.Mounted() && last < v.geo.Limit()
    modifies v.disk
    ensures v.Mounted() && v.Elsewhere() == old(v.Elsewhere())
    ensures LowestFree(old(v.Img()).fat, v.geo.Limit(), cluster)
    ensures v.Img() == if cluster == 0 then old(v.Img())
                       else Claimed(v.geo, old(v.Img()), cluster).Link(last, cluster)
  {
    hide ImageOf, Layout, Claimed, LowestFree;
    hide Geometry.Valid, Geometry.Limit, Geometry.TotalClusters, Geometry.FatEntries, Geometry.DataStart;
    cluster := AllocateCluster(v);
    LowestFits(v.geo, old(v.Img()), cluster);
    if cluster == 0 {
      return;
    }
    FatSetCluster(v, last, cluster);
  }
}
