/**
 Where a FAT32 volume keeps its structures (Microsoft FAT32 File System Specification v1.03,
 "FAT Data Structure"), and the Image a volume's sectors stand for: the FAT as a function on
 clusters, and the data area as a function from clusters to sectors.
 */
module FatLayout {
  import opened Bytes

  const EOC_MIN := 0x0FFF_FFF8   // values from here on end a chain
  const EOC_MARK := 0x0FFF_FFFF  // the end mark this driver writes
  const BAD_MARK := 0x0FFF_FFF7  // a cluster the formatter found defective
  const LINK_SPAN := 0x1000_0000 // a FAT entry is 28 bits; the top 4 are reserved
  const ENTRIES_PER_SECTOR := 128
  const MAX_CLUSTER_CHAIN := 200_000 // hops any walk follows before it gives up

  /** The fields of the BIOS parameter block that the driver uses. */
  datatype Geometry = Geometry(fatStart: nat, fatCount: nat, sectorsPerFat: nat,
                               sectorsPerCluster: nat, totalSectors: nat, root: nat)
  {
    function DataStart(): nat {
      fatStart + fatCount * sectorsPerFat
    }

    function FatEntries(): nat {
      sectorsPerFat * ENTRIES_PER_SECTOR
    }

    function TotalClusters(): nat
      requires 0 < sectorsPerCluster && DataStart() <= totalSectors
    {
      (totalSectors - DataStart()) / sectorsPerCluster
    }

    /** Clusters 2 .. Limit()-1 have both a FAT entry and sectors on the volume. */
    function Limit(): (r: nat)
      requires 0 < sectorsPerCluster && DataStart() <= totalSectors
      ensures r <= FatEntries() && r <= TotalClusters() + 2
    {
      if TotalClusters() + 2 <= FatEntries() then TotalClusters() + 2 else FatEntries()
    }

    ghost predicate Valid() {
      && 0 < fatCount && 0 < sectorsPerFat && 0 < sectorsPerCluster < 0x100
      && DataStart() <= totalSectors < 0x1_0000_0000
      && 2 <= root < Limit() <= BAD_MARK
    }

    function BytesPerCluster(): nat {
      sectorsPerCluster * SECTOR_SIZE
    }

    function ClusterToLba(cluster: nat): nat
      requires 2 <= cluster
    {
      DataStart() + (cluster - 2) * sectorsPerCluster
    }

    /** Sector i of FAT copy k. */
    function FatLba(k: nat, i: nat): nat {
      fatStart + k * sectorsPerFat + i
    }
  }

  /** Every in-range cluster lies wholly inside the volume, above all FAT copies. */
  lemma ClusterInside(g: Geometry, c: nat)
    requires g.Valid() && 2 <= c < g.Limit()
    ensures g.DataStart() <= g.ClusterToLba(c)
    ensures g.ClusterToLba(c) + g.sectorsPerCluster <= g.totalSectors
  {
    hide Geometry.Limit, Geometry.DataStart;
    var n := g.TotalClusters();
    MulNext(c - 2, g.sectorsPerCluster);
    MulMono(c - 1, n, g.sectorsPerCluster);
    DivMul(g.totalSectors - g.DataStart(), g.sectorsPerCluster);
  }

  lemma ClustersOrdered(g: Geometry, c: nat, c': nat)
    requires 2 <= c < c'
    ensures g.ClusterToLba(c) + g.sectorsPerCluster <= g.ClusterToLba(c')
  {
    hide Geometry.DataStart;
    MulNext(c - 2, g.sectorsPerCluster);
    MulMono(c - 1, c' - 2, g.sectorsPerCluster);
  }

  /** Distinct clusters occupy disjoint sector ranges. */
  lemma ClustersDisjoint(g: Geometry, c: nat, c': nat, s: nat, s': nat)
    requires 2 <= c && 2 <= c' && s < g.sectorsPerCluster && s' < g.sectorsPerCluster
    ensures g.ClusterToLba(c) + s == g.ClusterToLba(c') + s' <==> c == c' && s == s'
  {
    hide Geometry.ClusterToLba;
    if c < c' {
      ClustersOrdered(g, c, c');
    } else if c' < c {
      ClustersOrdered(g, c', c);
    }
  }

  /** A FAT copy's sectors lie below the data area, and no two copies share one. */
  lemma FatInside(g: Geometry, k: nat, i: nat)
    requires g.Valid() && k < g.fatCount && i < g.sectorsPerFat
    ensures g.fatStart <= g.FatLba(k, i) < g.DataStart()
  {
    MulNext(k, g.sectorsPerFat);
    MulMono(k + 1, g.fatCount, g.sectorsPerFat);
  }

  lemma FatOrdered(g: Geometry, k: nat, k': nat)
    requires k < k'
    ensures g.FatLba(k, g.sectorsPerFat) <= g.FatLba(k', 0)
  {
    MulNext(k, g.sectorsPerFat);
    MulMono(k + 1, k', g.sectorsPerFat);
  }

  lemma FatDisjoint(g: Geometry, k: nat, k': nat, i: nat, i': nat)
    requires i < g.sectorsPerFat && i' < g.sectorsPerFat
    ensures g.FatLba(k, i) == g.FatLba(k', i') <==> k == k' && i == i'
  {
    if k < k' {
      FatOrdered(g, k, k');
    } else if k' < k {
      FatOrdered(g, k', k);
    }
  }

  // ---------------------------------------------------------------- the image

  type Cluster = seq<Sector>

  ghost function SetSector(k: Cluster, s: nat, buf: Sector): Cluster
    requires s < |k|
  {
    k[s := buf]
  }

  lemma FillPut(img: Image, c: nat, k: Cluster, s: nat, buf: Sector)
    requires c < |img.clus| && s < |k|
    ensures img.Fill(c, k).Put(c, s, buf) == img.Fill(c, SetSector(k, s, buf))
  {
    assert img.Fill(c, k).Put(c, s, buf).clus == img.Fill(c, SetSector(k, s, buf)).clus;
  }

  /** What a volume's sectors stand for. clus[0] and clus[1] are unused. */
  datatype Image = Image(fat: seq<nat>, top: seq<nat>, clus: seq<Cluster>, rest: seq<Sector>)
  {
    ghost function Link(c: nat, v: nat): Image
      requires c < |fat|
    {
      this.(fat := fat[c := v])
    }

    ghost function Put(c: nat, s: nat, buf: Sector): Image
      requires c < |clus| && s < |clus[c]|
    {
      Fill(c, SetSector(clus[c], s, buf))
    }

    ghost function Fill(c: nat, k: Cluster): Image
      requires c < |clus|
    {
      this.(clus := clus[c := k])
    }
  }

  ghost predicate CopiesAgree(g: Geometry, d: seq<Sector>)
    requires g.Valid() && |d| == g.totalSectors
  {
    forall k, i {:trigger g.FatLba(k, i)} :: 0 <= k < g.fatCount && 0 <= i < g.sectorsPerFat ==>
      g.FatLba(k, i) < |d| && d[g.FatLba(k, i)] == d[g.fatStart + i]
  }

  ghost predicate Layout(g: Geometry, d: seq<Sector>) {
    && g.Valid()
    && |d| == g.totalSectors
    && CopiesAgree(g, d)
  }

  /** The sector of the first copy that holds the entry of cluster c. */
  lemma EntrySector(g: Geometry, c: nat)
    requires g.Valid() && c < g.FatEntries()
    ensures c * 4 / SECTOR_SIZE < g.sectorsPerFat
    ensures g.fatStart + c * 4 / SECTOR_SIZE < g.DataStart() <= g.totalSectors
  {
    assert c * 4 / SECTOR_SIZE < g.sectorsPerFat;
    FatInside(g, 0, c * 4 / SECTOR_SIZE);
  }

  /** The 32-bit entry of cluster c in the first FAT copy. */
  ghost function RawEntry(g: Geometry, d: seq<Sector>, c: nat): (r: nat)
    requires g.Valid() && |d| == g.totalSectors && c < g.FatEntries()
    ensures r < 0x1_0000_0000
  {
    EntrySector(g, c);
    Le32(d[g.fatStart + c * 4 / SECTOR_SIZE], c * 4 % SECTOR_SIZE)
  }

  ghost function ClusterAt(g: Geometry, d: seq<Sector>, c: nat): (r: Cluster)
    requires g.Valid() && |d| == g.totalSectors && c < g.Limit()
    ensures |r| == if c < 2 then 0 else g.sectorsPerCluster
  {
    if c < 2 then [] else
      ClusterInside(g, c);
      d[g.ClusterToLba(c)..g.ClusterToLba(c) + g.sectorsPerCluster]
  }

  ghost function End(g: Geometry): (r: nat)
    requires g.Valid()
    ensures g.DataStart() <= r <= g.totalSectors
  {
    ClusterInside(g, g.Limit() - 1);
    g.ClusterToLba(g.Limit() - 1) + g.sectorsPerCluster
  }

  ghost function ImageOf(g: Geometry, d: seq<Sector>): (r: Image)
    requires g.Valid() && |d| == g.totalSectors
    ensures Shape(g, r)
  {
    var fat := seq(g.FatEntries(), c requires 0 <= c < g.FatEntries() => RawEntry(g, d, c) % LINK_SPAN);
    var top := seq(g.FatEntries(), c requires 0 <= c < g.FatEntries() => RawEntry(g, d, c) / LINK_SPAN);
    var clus := seq(g.Limit(), c requires 0 <= c < g.Limit() => ClusterAt(g, d, c));
    Image(fat, top, clus, d[..g.fatStart] + d[End(g)..])
  }

  lemma LinkOf(g: Geometry, d: seq<Sector>, c: nat)
    requires g.Valid() && |d| == g.totalSectors && c < g.FatEntries()
    ensures ImageOf(g, d).fat[c] == RawEntry(g, d, c) % LINK_SPAN
  {
  }

  /** Entry i of sector `sector` of the first copy is that of cluster 128 * sector + i. */
  lemma EntryInSector(g: Geometry, d: seq<Sector>, sector: nat, i: nat)
    requires g.Valid() && |d| == g.totalSectors && sector < g.sectorsPerFat && i < ENTRIES_PER_SECTOR
    ensures sector * ENTRIES_PER_SECTOR + i < g.FatEntries() && g.fatStart + sector < |d|
    ensures ImageOf(g, d).fat[sector * ENTRIES_PER_SECTOR + i] == Le32(d[g.fatStart + sector], i * 4) % LINK_SPAN
  {
    hide ImageOf, Le32, Geometry.DataStart;
    var c := sector * ENTRIES_PER_SECTOR + i;
    EntrySector(g, c);
    LinkOf(g, d, c);
    assert c * 4 / SECTOR_SIZE == sector && c * 4 % SECTOR_SIZE == i * 4;
  }

  ghost predicate Shape(g: Geometry, img: Image)
    requires g.Valid()
  {
    && |img.fat| == g.FatEntries()
    && |img.clus| == g.Limit()
    && (forall c {:trigger img.fat[c]} :: 0 <= c < |img.fat| ==> img.fat[c] < LINK_SPAN)
    && (forall c {:trigger img.clus[c]} :: 2 <= c < |img.clus| ==> |img.clus[c]| == g.sectorsPerCluster)
  }

  // ------------------------------------------------- what one sector write does

  /** Two volumes that agree below the data area hold the same FAT. */
  lemma SameFat(g: Geometry, d: seq<Sector>, d': seq<Sector>)
    requires Layout(g, d) && |d'| == |d| && d'[..g.DataStart()] == d[..g.DataStart()]
    ensures Layout(g, d')
    ensures ImageOf(g, d').fat == ImageOf(g, d).fat && ImageOf(g, d').top == ImageOf(g, d).top
  {
    forall x | 0 <= x < g.DataStart()
      ensures d'[x] == d[x]
    {
      assert d'[..g.DataStart()][x] == d[..g.DataStart()][x];
    }
    forall k, i {:trigger g.FatLba(k, i)} | 0 <= k < g.fatCount && 0 <= i < g.sectorsPerFat
      ensures g.FatLba(k, i) < |d'| && d'[g.FatLba(k, i)] == d'[g.fatStart + i]
    {
      FatInside(g, k, i);
      FatInside(g, 0, i);
    }
    forall e | 0 <= e < g.FatEntries()
      ensures RawEntry(g, d', e) == RawEntry(g, d, e)
    {
      EntrySector(g, e);
    }
  }

  lemma WriteOneCluster(g: Geometry, d: seq<Sector>, c: nat, s: nat, buf: Sector, e: nat)
    requires g.Valid() && |d| == g.totalSectors
    requires 2 <= c < g.Limit() && s < g.sectorsPerCluster && e < g.Limit()
    ensures g.ClusterToLba(c) + s < |d|
    ensures ClusterAt(g, d[g.ClusterToLba(c) + s := buf], e) == ImageOf(g, d).Put(c, s, buf).clus[e]
  {
    ClusterInside(g, c);
    var at := g.ClusterToLba(c) + s;
    if 2 <= e {
      ClusterInside(g, e);
      var was, now := ClusterAt(g, d, e), ClusterAt(g, d[at := buf], e);
      var base := g.ClusterToLba(e);
      forall t | 0 <= t < g.sectorsPerCluster
        ensures now[t] == if e == c && t == s then buf else was[t]
      {
        ClustersDisjoint(g, c, e, s, t);
        assert now[t] == d[at := buf][base + t] && was[t] == d[base + t];
      }
    }
  }

  lemma WriteAllClusters(g: Geometry, d: seq<Sector>, c: nat, s: nat, buf: Sector)
    requires g.Valid() && |d| == g.totalSectors
    requires 2 <= c < g.Limit() && s < g.sectorsPerCluster
    ensures g.ClusterToLba(c) + s < |d|
    ensures ImageOf(g, d[g.ClusterToLba(c) + s := buf]).clus == ImageOf(g, d).Put(c, s, buf).clus
  {
    ClusterInside(g, c);
    forall e | 0 <= e < g.Limit()
      ensures ClusterAt(g, d[g.ClusterToLba(c) + s := buf], e) == ImageOf(g, d).Put(c, s, buf).clus[e]
    {
      WriteOneCluster(g, d, c, s, buf, e);
    }
  }

  lemma WriteSparesRest(g: Geometry, d: seq<Sector>, c: nat, s: nat, buf: Sector)
    requires g.Valid() && |d| == g.totalSectors
    requires 2 <= c < g.Limit() && s < g.sectorsPerCluster
    ensures g.DataStart() <= g.ClusterToLba(c) + s < End(g)
  {
    ClusterInside(g, c);
    if c < g.Limit() - 1 {
      ClustersOrdered(g, c, g.Limit() - 1);
    }
  }

  /** Writing sector s of cluster c changes that sector of the image and nothing else. */
  lemma WriteData(g: Geometry, d: seq<Sector>, c: nat, s: nat, buf: Sector)
    requires Layout(g, d) && 2 <= c < g.Limit() && s < g.sectorsPerCluster
    ensures g.DataStart() <= g.ClusterToLba(c) + s < |d|
    ensures Layout(g, d[g.ClusterToLba(c) + s := buf])
    ensures ImageOf(g, d[g.ClusterToLba(c) + s := buf]) == ImageOf(g, d).Put(c, s, buf)
  {
    hide RawEntry, ClusterAt, CopiesAgree;
    WriteSparesRest(g, d, c, s, buf);
    WriteAllClusters(g, d, c, s, buf);
    var at := g.ClusterToLba(c) + s;
    SameFat(g, d, d[at := buf]);
    assert d[at := buf][End(g)..] == d[End(g)..];
    assert d[at := buf][..g.fatStart] == d[..g.fatStart];
  }

  // ------------------------------------------- what writing one FAT entry does

  /** Sector i replaced in the first n FAT copies. */
  ghost function PutCopies(g: Geometry, d: seq<Sector>, i: nat, buf: Sector, n: nat): (r: seq<Sector>)
    requires Layout(g, d) && i < g.sectorsPerFat && n <= g.fatCount
    ensures |r| == |d|
  {
    if n == 0 then d else
      FatInside(g, n - 1, i);
      PutCopies(g, d, i, buf, n - 1)[g.FatLba(n - 1, i) := buf]
  }

  lemma {:induction false} PutCopiesAt(g: Geometry, d: seq<Sector>, i: nat, buf: Sector, n: nat, k: nat, j: nat)
    requires Layout(g, d) && i < g.sectorsPerFat && n <= g.fatCount
    requires k < g.fatCount && j < g.sectorsPerFat
    ensures g.FatLba(k, j) < |d|
    ensures PutCopies(g, d, i, buf, n)[g.FatLba(k, j)] == if j == i && k < n then buf else d[g.FatLba(k, j)]
  {
    FatInside(g, k, j);
    if n > 0 {
      FatInside(g, n - 1, i);
      FatDisjoint(g, n - 1, k, i, j);
      PutCopiesAt(g, d, i, buf, n - 1, k, j);
    }
  }

  lemma {:induction false} PutCopiesElsewhere(g: Geometry, d: seq<Sector>, i: nat, buf: Sector, n: nat)
    requires Layout(g, d) && i < g.sectorsPerFat && n <= g.fatCount
    ensures PutCopies(g, d, i, buf, n)[..g.fatStart] == d[..g.fatStart]
    ensures PutCopies(g, d, i, buf, n)[g.DataStart()..] == d[g.DataStart()..]
  {
    if n > 0 {
      FatInside(g, n - 1, i);
      PutCopiesElsewhere(g, d, i, buf, n - 1);
    }
  }

  lemma NoCopy(g: Geometry, d: seq<Sector>, i: nat, buf: Sector)
    requires Layout(g, d) && i < g.sectorsPerFat
    ensures PutCopies(g, d, i, buf, 0) == d
  {
  }

  /** The next copy to be written still holds what the first copy held at the start. */
  lemma NextCopy(g: Geometry, d: seq<Sector>, i: nat, buf: Sector, n: nat)
    requires Layout(g, d) && i < g.sectorsPerFat && n < g.fatCount
    ensures g.FatLba(n, i) < |d| && g.fatStart + i < |d|
    ensures PutCopies(g, d, i, buf, n)[g.FatLba(n, i)] == d[g.fatStart + i]
    ensures PutCopies(g, d, i, buf, n + 1) == PutCopies(g, d, i, buf, n)[g.FatLba(n, i) := buf]
  {
    FatInside(g, n, i);
    FatInside(g, 0, i);
    PutCopiesAt(g, d, i, buf, n, n, i);
  }

  /** The sector holding entry c, with the entry's low 28 bits replaced and its top 4 kept. */
  function PatchEntry(buf: Sector, c: nat, value: nat): (r: Sector) {
    var offset := c * 4 % SECTOR_SIZE;
    PutLe32(buf, offset, Le32(buf, offset) / LINK_SPAN * LINK_SPAN + value % LINK_SPAN)
  }

  lemma PatchEntryAt(buf: Sector, c: nat, value: nat, e: nat)
    requires c * 4 / SECTOR_SIZE == e * 4 / SECTOR_SIZE
    ensures e == c ==> Le32(PatchEntry(buf, c, value), e * 4 % SECTOR_SIZE) % LINK_SPAN == value % LINK_SPAN
    ensures e == c ==> Le32(PatchEntry(buf, c, value), e * 4 % SECTOR_SIZE) / LINK_SPAN
                       == Le32(buf, e * 4 % SECTOR_SIZE) / LINK_SPAN
    ensures e != c ==> Le32(PatchEntry(buf, c, value), e * 4 % SECTOR_SIZE) == Le32(buf, e * 4 % SECTOR_SIZE)
  {
    hide PutLe32;
    var o, old32 := c * 4 % SECTOR_SIZE, Le32(buf, c * 4 % SECTOR_SIZE);
    if e == c {
      var top := old32 / LINK_SPAN;
      assert top < 16;
      assert Le32(PatchEntry(buf, c, value), o) == top * LINK_SPAN + value % LINK_SPAN;
    } else {
      assert o + 4 <= e * 4 % SECTOR_SIZE || e * 4 % SECTOR_SIZE + 4 <= o;
    }
  }

  /**
   Patching an entry in every copy changes that link of the image and nothing else:
   the copies still agree and every entry keeps its reserved bits.
   */
  lemma WriteEntry(g: Geometry, d: seq<Sector>, c: nat, value: nat)
    requires Layout(g, d) && c < g.FatEntries()
    ensures g.fatStart + c * 4 / SECTOR_SIZE < |d|
    ensures var i := c * 4 / SECTOR_SIZE;
      var d' := PutCopies(g, d, i, PatchEntry(d[g.fatStart + i], c, value), g.fatCount);
      Layout(g, d') && ImageOf(g, d') == ImageOf(g, d).Link(c, value % LINK_SPAN)
  {
    var i := c * 4 / SECTOR_SIZE;
    FatInside(g, 0, i);
    var buf := PatchEntry(d[g.fatStart + i], c, value);
    var d' := PutCopies(g, d, i, buf, g.fatCount);
    PutCopiesAgree(g, d, i, buf);
    hide PutCopies, CopiesAgree, PatchEntry;
    PutCopiesElsewhere(g, d, i, buf, g.fatCount);
    WriteEntryFat(g, d, c, value);
    WriteEntryData(g, d, d');
  }

  lemma PutCopiesAgree(g: Geometry, d: seq<Sector>, i: nat, buf: Sector)
    requires Layout(g, d) && i < g.sectorsPerFat
    ensures Layout(g, PutCopies(g, d, i, buf, g.fatCount))
  {
    var d' := PutCopies(g, d, i, buf, g.fatCount);
    hide PutCopies;
    forall k, j {:trigger g.FatLba(k, j)} | 0 <= k < g.fatCount && 0 <= j < g.sectorsPerFat
      ensures g.FatLba(k, j) < |d'| && d'[g.FatLba(k, j)] == d'[g.fatStart + j]
    {
      PutCopiesAt(g, d, i, buf, g.fatCount, k, j);
      PutCopiesAt(g, d, i, buf, g.fatCount, 0, j);
    }
  }

  lemma WriteEntryFat(g: Geometry, d: seq<Sector>, c: nat, value: nat)
    requires Layout(g, d) && c < g.FatEntries()
    ensures g.fatStart + c * 4 / SECTOR_SIZE < |d|
    ensures var i := c * 4 / SECTOR_SIZE;
      var img' := ImageOf(g, PutCopies(g, d, i, PatchEntry(d[g.fatStart + i], c, value), g.fatCount));
      img'.fat == ImageOf(g, d).fat[c := value % LINK_SPAN] && img'.top == ImageOf(g, d).top
  {
    var i := c * 4 / SECTOR_SIZE;
    FatInside(g, 0, i);
    var buf := PatchEntry(d[g.fatStart + i], c, value);
    var d' := PutCopies(g, d, i, buf, g.fatCount);
    forall e | 0 <= e < g.FatEntries()
      ensures RawEntry(g, d', e) % LINK_SPAN == if e == c then value % LINK_SPAN else RawEntry(g, d, e) % LINK_SPAN
      ensures RawEntry(g, d', e) / LINK_SPAN == RawEntry(g, d, e) / LINK_SPAN
    {
      var j := e * 4 / SECTOR_SIZE;
      PutCopiesAt(g, d, i, buf, g.fatCount, 0, j);
      if i == j {
        PatchEntryAt(d[g.fatStart + i], c, value, e);
      }
    }
    assert ImageOf(g, d').fat == ImageOf(g, d).fat[c := value % LINK_SPAN];
    assert ImageOf(g, d').top == ImageOf(g, d).top;
  }

  lemma WriteEntryData(g: Geometry, d: seq<Sector>, d': seq<Sector>)
    requires g.Valid() && |d| == |d'| == g.totalSectors
    requires d'[..g.fatStart] == d[..g.fatStart] && d'[g.DataStart()..] == d[g.DataStart()..]
    ensures ImageOf(g, d').clus == ImageOf(g, d).clus && ImageOf(g, d').rest == ImageOf(g, d).rest
  {
    forall x | g.DataStart() <= x < |d|
      ensures d'[x] == d[x]
    {
      assert d'[g.DataStart()..][x - g.DataStart()] == d[g.DataStart()..][x - g.DataStart()];
    }
    forall e | 0 <= e < g.Limit()
      ensures ClusterAt(g, d', e) == ClusterAt(g, d, e)
    {
      if 2 <= e {
        ClusterInside(g, e);
      }
    }
    assert ImageOf(g, d').clus == ImageOf(g, d).clus;
    assert d'[End(g)..] == d[End(g)..];
  }
}
