/** Reading a file's bytes: following its chain and copying sectors out. */
module FileRead {
  import opened Bytes
  import opened FatLayout
  import opened Volumes
  import opened Chains
  import opened ChainData
  import opened DirScan
  import opened FileData

  /** The first n bytes of `buffer` are those of a run of sectors; the rest is untouched. */
  ghost predicate Copied(now: seq<byte>, was: seq<byte>, secs: seq<Sector>, n: nat) {
    && n <= |now| == |was| && n <= |secs| * SECTOR_SIZE
    && now == Content(secs)[..n] + was[n..]
  }

  /** One more sector, or as much of it as is wanted. */
  lemma CopiedMore(now: seq<byte>, now': seq<byte>, was: seq<byte>, secs: seq<Sector>, buf: Sector, n: nat)
    requires Copied(now, was, secs, |secs| * SECTOR_SIZE) && n <= SECTOR_SIZE && |secs| * SECTOR_SIZE + n <= |now|
    requires now' == now[..|secs| * SECTOR_SIZE] + buf[..n] + now[|secs| * SECTOR_SIZE + n..]
    ensures Copied(now', was, secs + [buf], |secs| * SECTOR_SIZE + n)
  {
    hide Content;
    var at := |secs| * SECTOR_SIZE;
    ContentAppend(secs, [buf]);
    ContentOne(buf);
    assert now[..at] == Content(secs);
    assert now[at + n..] == was[at + n..];
    assert (Content(secs) + buf)[..at + n] == Content(secs) + buf[..n];
  }

  /** Copies the first n bytes of a sector to `buffer` at `at`. */
  method CopyOut(buffer: array<byte>, at: nat, buf: Sector, n: nat)
    requires n <= SECTOR_SIZE && at + n <= buffer.Length
    modifies buffer
    ensures buffer[..] == old(buffer[..at]) + buf[..n] + old(buffer[at + n..])
  {
    var b := 0;
    while b < n
      invariant 0 <= b <= n
      invariant forall j :: 0 <= j < buffer.Length ==>
                  buffer[j] == if at <= j < at + b then buf[j - at] else old(buffer[j])
    {
      buffer[at + b] := buf[b];
      b := b + 1;
    }
  }

  /** Where cluster_to_lba puts a cluster; below the data area for clusters 0 and 1. */
  function AddressOf(g: Geometry, c: nat): int {
    g.DataStart() + (c - 2) * g.sectorsPerCluster
  }

  /** What a read of cluster c finds: `clus[c]` is what its address holds. */
  ghost predicate Backed(g: Geometry, d: seq<Sector>, clus: seq<Cluster>, c: nat) {
    && c < |clus| && |clus[c]| == g.sectorsPerCluster
    && 0 <= AddressOf(g, c) && AddressOf(g, c) + g.sectorsPerCluster <= |d|
    && clus[c] == d[AddressOf(g, c)..AddressOf(g, c) + g.sectorsPerCluster]
  }

  /** A walk along the FAT that ends within the hop limit, each cluster of it readable. */
  ghost predicate Followable(v: Volume, ch: seq<nat>, clus: seq<Cluster>)
    reads v.disk
  {
    && v.Mounted() && 0 < |ch| <= MAX_CLUSTER_CHAIN
    && (forall i :: 0 <= i < |ch| ==> ch[i] < EOC_MIN && ch[i] < v.geo.FatEntries()
                                      && Backed(v.geo, v.Sectors(), clus, ch[i]))
    && (forall i :: 0 <= i < |ch| - 1 ==> v.Img().fat[ch[i]] == ch[i + 1])
    && v.Img().fat[ch[|ch| - 1]] >= EOC_MIN
  }

  lemma BackedInImage(g: Geometry, d: seq<Sector>, clus: seq<Cluster>, ch: seq<nat>)
    requires forall i :: 0 <= i < |ch| ==> Backed(g, d, clus, ch[i])
    ensures InImage(clus, ch)
  {
  }

  /** A file's chain is one, through the clusters of the image. */
  lemma ChainFollowable(v: Volume, ch: seq<nat>)
    requires Walks(v, ch)
    ensures Followable(v, ch, v.Img().clus)
  {
    hide IsChain, Geometry.Limit;
    Sizes(v.geo, v.Img());
    forall i | 0 <= i < |ch|
      ensures ch[i] < EOC_MIN && ch[i] < v.geo.FatEntries() && Backed(v.geo, v.Sectors(), v.Img().clus, ch[i])
    {
      IsInChain(v.geo, v.Img(), ch, i);
      ClusterInside(v.geo, ch[i]);
    }
    ChainLinks(v.Img().fat, v.geo.Limit(), ch);
  }

  lemma ChainLinks(fat: seq<nat>, limit: nat, ch: seq<nat>)
    requires limit <= |fat| && IsChain(fat, limit, ch)
    ensures 0 < |ch| && forall i :: 0 <= i < |ch| ==> ch[i] < |fat|
    ensures (forall i :: 0 <= i < |ch| - 1 ==> fat[ch[i]] == ch[i + 1]) && fat[ch[|ch| - 1]] >= EOC_MIN
  {
  }

  /** The sectors a read at cluster 0 finds: those two clusters below the data area. */
  ghost function BelowData(g: Geometry, d: seq<Sector>): (k: Cluster)
    requires 0 <= AddressOf(g, 0) && AddressOf(g, 0) + g.sectorsPerCluster <= |d|
    ensures |k| == g.sectorsPerCluster
  {
    d[AddressOf(g, 0)..AddressOf(g, 0) + g.sectorsPerCluster]
  }

  /** Cluster 0 is the last of a walk. */
  ghost predicate EndsAtOnce(fat: seq<nat>) {
    0 < |fat| && fat[0] >= EOC_MIN
  }

  /** Cluster 0's place, if it has one, ends below the data area. */
  lemma ZeroOnVolume(g: Geometry)
    requires g.Valid() && 0 <= AddressOf(g, 0)
    ensures AddressOf(g, 0) + g.sectorsPerCluster <= g.DataStart() <= g.totalSectors
  {
  }

  /** So is cluster 0 alone, when it lies on the volume and its FAT entry is an end mark. */
  lemma ZeroFollowable(v: Volume, clus: seq<Cluster>)
    requires v.Mounted() && 0 <= AddressOf(v.geo, 0) && EndsAtOnce(v.Img().fat)
    requires AddressOf(v.geo, 0) + v.geo.sectorsPerCluster <= |v.Sectors()|
    requires clus == [BelowData(v.geo, v.Sectors())]
    ensures Followable(v, [0], clus)
    ensures InImage(clus, [0]) && Flat(clus, [0]) == BelowData(v.geo, v.Sectors())
  {
    hide ImageOf, Layout;
    FlatOne(clus, 0);
  }

  /** Copies one cluster out, as far as `maxSize` allows. */
  method ReadCluster(v: Volume, cluster: nat, buffer: array<byte>, maxSize: nat, from: nat, ghost was: seq<byte>,
                     ghost before: seq<Sector>, ghost clus: seq<Cluster>)
    returns (bytesRead: nat)
    requires v.Mounted() && Backed(v.geo, v.Sectors(), clus, cluster) && maxSize <= buffer.Length
    requires from == |before| * SECTOR_SIZE < maxSize && Copied(buffer[..], was, before, from)
    modifies buffer
    ensures bytesRead == Min(maxSize, |before + clus[cluster]| * SECTOR_SIZE)
    ensures Copied(buffer[..], was, before + clus[cluster], bytesRead)
  {
    hide ImageOf, Layout, AddressOf, Geometry.Limit, Copied;
    ghost var k: Cluster := clus[cluster];
    var lba, s := AddressOf(v.geo, cluster), 0;
    bytesRead := from;
    assert before + k[..0] == before;
    while s < v.geo.sectorsPerCluster && bytesRead < maxSize
      invariant 0 <= s <= |k|
      invariant bytesRead == Min(maxSize, |before + k[..s]| * SECTOR_SIZE)
      invariant Copied(buffer[..], was, before + k[..s], bytesRead)
    {
      var buf := v.ReadSector(lba + s);
      assert buf == k[s];
      var toCopy := SECTOR_SIZE;
      if bytesRead + toCopy > maxSize {
        toCopy := maxSize - bytesRead;
      }
      ghost var now := buffer[..];
      CopyOut(buffer, bytesRead, buf, toCopy);
      CopiedMore(now, buffer[..], was, before + k[..s], buf, toCopy);
      assert before + k[..s] + [buf] == before + k[..s + 1];
      bytesRead := bytesRead + toCopy;
      s := s + 1;
    }
    if s == |k| {
      assert before + k[..s] == before + k;
    } else {
      CopiedPrefix(buffer[..], was, before + k[..s], k[s..], bytesRead);
      assert before + k[..s] + k[s..] == before + k;
    }
  }

  lemma CopiedPrefix(now: seq<byte>, was: seq<byte>, a: seq<Sector>, b: seq<Sector>, n: nat)
    requires Copied(now, was, a, n)
    ensures Copied(now, was, a + b, n)
  {
    hide Content;
    ContentAppend(a, b);
    assert (Content(a) + Content(b))[..n] == Content(a)[..n];
  }

  /** Copies a walk's clusters out, as far as `maxSize` allows. */
  method ReadChain(v: Volume, first: nat, buffer: array<byte>, maxSize: nat, ghost ch: seq<nat>,
                   ghost clus: seq<Cluster>)
    returns (bytesRead: nat)
    requires v.Mounted() && maxSize <= buffer.Length
    requires maxSize == 0 || (Followable(v, ch, clus) && first == ch[0])
    modifies buffer
    ensures maxSize == 0 ==> bytesRead == 0 && buffer[..] == old(buffer[..])
    ensures maxSize != 0 ==> InImage(clus, ch) && bytesRead == Min(maxSize, |Flat(clus, ch)| * SECTOR_SIZE)
    ensures maxSize != 0 ==> Copied(buffer[..], old(buffer[..]), Flat(clus, ch), bytesRead)
  {
    hide ImageOf, Layout, AddressOf, Backed, Geometry.Limit, Copied, Flat;
    ghost var was := buffer[..];
    var fc, fileHops := first, 0;
    ghost var k := 0;
    bytesRead := 0;
    if maxSize != 0 {
      BackedInImage(v.geo, v.Sectors(), clus, ch);
      FlatNone(clus, ch);
      NothingCopied(was);
    }
    while fc < EOC_MIN && bytesRead < maxSize
      invariant maxSize == 0 ==> bytesRead == 0 && buffer[..] == was
      invariant maxSize != 0 ==>
                  k <= |ch| && fileHops == k && fc == if k < |ch| then ch[k] else v.Img().fat[ch[|ch| - 1]]
      invariant maxSize != 0 ==> bytesRead == Min(maxSize, |Flat(clus, ch[..k])| * SECTOR_SIZE)
      invariant maxSize != 0 ==> Copied(buffer[..], was, Flat(clus, ch[..k]), bytesRead)
      decreases |ch| - k
    {
      fileHops := fileHops + 1;
      if fileHops > MAX_CLUSTER_CHAIN {
        break;
      }
      bytesRead := ReadCluster(v, fc, buffer, maxSize, bytesRead, was, Flat(clus, ch[..k]), clus);
      FlatSplit(clus, ch, k);
      fc := FatNextCluster(v, fc);
      k := k + 1;
    }
    if maxSize != 0 {
      WholeRead(clus, ch, k, buffer[..], was, bytesRead, maxSize);
    }
  }

  lemma WholeRead(clus: seq<Cluster>, ch: seq<nat>, k: nat, now: seq<byte>, was: seq<byte>, n: nat, maxSize: nat)
    requires InImage(clus, ch) && k <= |ch| && Copied(now, was, Flat(clus, ch[..k]), n)
    requires n == Min(maxSize, |Flat(clus, ch[..k])| * SECTOR_SIZE) && (k == |ch| || n >= maxSize)
    ensures n == Min(maxSize, |Flat(clus, ch)| * SECTOR_SIZE) && Copied(now, was, Flat(clus, ch), n)
  {
    hide Copied, Flat;
    if k == |ch| {
      assert ch[..k] == ch;
    } else {
      FlatSplit(clus, ch, k);
      CopiedPrefix(now, was, Flat(clus, ch[..k]), clus[ch[k]] + Flat(clus, ch[k + 1..]), n);
      assert Flat(clus, ch) == Flat(clus, ch[..k]) + (clus[ch[k]] + Flat(clus, ch[k + 1..]));
    }
  }

  lemma NothingCopied(was: seq<byte>)
    ensures Copied(was, was, [], 0)
  {
  }
}
