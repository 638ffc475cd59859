/**
 Writing a file's bytes: reusing the clusters it has, claiming more as needed, and freeing what
 is left over.
 */
module FileData {
  import opened Bytes
  import opened FatLayout
  import opened Volumes
  import opened Chains
  import opened ChainData

  // ----------------------------------------------------------------- one cluster

  function Min(a: nat, b: nat): nat { if a < b then a else b }

  /** The sector holding data from `at` on, padded with zeros. */
  function SectorOf(data: seq<byte>, at: nat): (r: Sector)
    requires at <= |data|
  {
    var n := Min(SECTOR_SIZE, |data| - at);
    data[at..at + n] + seq(SECTOR_SIZE - n, i => 0)
  }

  /** A cluster after data from `from` on is written over it, as far as the data goes. */
  ghost function Overwritten(k: Cluster, data: seq<byte>, from: nat): (r: Cluster)
    ensures |r| == |k|
  {
    seq(|k|, s requires 0 <= s < |k| =>
      if from + s * SECTOR_SIZE < |data| then SectorOf(data, from + s * SECTOR_SIZE) else k[s])
  }

  lemma OverwrittenBytes(k: Cluster, data: seq<byte>, from: nat)
    requires from <= |data|
    ensures var n := Min(|k| * SECTOR_SIZE, |data| - from);
      n <= |Content(Overwritten(k, data, from))| && Content(Overwritten(k, data, from))[..n] == data[from..from + n]
  {
    var n := Min(|k| * SECTOR_SIZE, |data| - from);
    var got := Content(Overwritten(k, data, from));
    forall b | 0 <= b < n
      ensures got[b] == data[from + b]
    {
      var s := b / SECTOR_SIZE;
      assert from + s * SECTOR_SIZE < |data|;
      assert got[b] == SectorOf(data, from + s * SECTOR_SIZE)[b % SECTOR_SIZE];
    }
  }

  /** Writes data from `from` on into one cluster; returns how far it got. */
  method WriteCluster(v: Volume, cluster: nat, data: seq<byte>, from: nat) returns (written: nat)
    requires v.Mounted() && 2 <= cluster < v.geo.Limit() && from <= |data|
    modifies v.disk
    ensures v.Mounted() && v.Elsewhere() == old(v.Elsewhere())
    ensures v.Img() == old(v.Img()).Fill(cluster, Overwritten(old(v.Img()).clus[cluster], data, from))
    ensures written == from + Min(v.geo.sectorsPerCluster * SECTOR_SIZE, |data| - from)
  {
    hide ImageOf, Layout, Geometry.ClusterToLba, Geometry.Limit, SectorOf, Image.Put;
    ghost var img := v.Img();
    ghost var was: Cluster := img.clus[cluster];
    var lba, s := v.geo.ClusterToLba(cluster), 0;
    ghost var now: Cluster := was;
    assert img.Fill(cluster, was) == img;
    written := from;
    while s < v.geo.sectorsPerCluster && written < |data|
      invariant 0 <= s <= v.geo.sectorsPerCluster
      invariant v.Mounted() && v.Elsewhere() == old(v.Elsewhere())
      invariant |now| == |was| == v.geo.sectorsPerCluster && v.Img() == img.Fill(cluster, now)
      invariant written == from + Min(s * SECTOR_SIZE, |data| - from)
      invariant forall t :: 0 <= t < s ==> now[t] == Overwritten(was, data, from)[t]
      invariant forall t :: s <= t < |was| ==> now[t] == was[t]
    {
      var toCopy := SECTOR_SIZE;
      if written + toCopy > |data| {
        toCopy := |data| - written;
      }
      var buf: Sector := data[written..written + toCopy] + seq(SECTOR_SIZE - toCopy, i => 0);
      assert buf == SectorOf(data, written) by {
        SectorIs(data, written, toCopy);
      }
      v.WriteData(lba + s, buf, cluster, s);
      FillPut(img, cluster, now, s, buf);
      now := SetSector(now, s, buf);
      written := written + toCopy;
      s := s + 1;
    }
    assert now == Overwritten(was, data, from);
  }

  lemma SectorIs(data: seq<byte>, at: nat, n: nat)
    requires at <= |data| && n == Min(SECTOR_SIZE, |data| - at)
    ensures SectorOf(data, at) == data[at..at + n] + seq(SECTOR_SIZE - n, i => 0)
  {
  }

  // ------------------------------------------------------------- a chain in progress

  /** Nothing outside the clusters in `cur` has changed. */
  ghost predicate Framed(img0: Image, img: Image, cur: seq<nat>) {
    && |img.fat| == |img0.fat| && |img.clus| == |img0.clus|
    && img.top == img0.top && img.rest == img0.rest
    && (forall x :: 0 <= x < |img.fat| && x !in cur ==> img.fat[x] == img0.fat[x])
    && (forall x :: 0 <= x < |img.clus| && x !in cur ==> img.clus[x] == img0.clus[x])
  }

  /** `cur` is a chain that, with the other chains, accounts for every cluster in use. */
  ghost predicate Holds(g: Geometry, img: Image, others: ChainMap, cur: seq<nat>)
    requires g.Valid() && Shape(g, img)
  {
    && Partition(img.fat, g.Limit(), others, Elements(cur))
    && (cur != [] ==> IsChain(img.fat, g.Limit(), cur))
    && InImage(img.clus, cur)
  }

  lemma ExtendChainStep(fat: seq<nat>, limit: nat, cur: seq<nat>, n: nat)
    requires limit <= |fat| && limit <= BAD_MARK && IsChain(fat, limit, cur) && 2 <= n < limit && fat[n] == 0
    ensures n !in cur
    ensures IsChain(fat[n := EOC_MARK][cur[|cur| - 1] := n], limit, cur + [n])
  {
    if n in cur {
      ChainRange(fat, limit, cur, n);
    }
    var last := |cur| - 1;
    forall i | 0 <= i < last
      ensures cur[i] != cur[last]
    {
      ChainHasNoCycle(fat, limit, cur, i, last);
    }
    assert forall i :: 0 <= i < |cur| ==> cur[i] in cur;
  }

  lemma Sizes(g: Geometry, img: Image)
    requires g.Valid() && Shape(g, img)
    ensures |img.fat| == g.FatEntries() && |img.clus| == g.Limit() <= |img.fat|
  {
  }

  lemma LoneChain(g: Geometry, img: Image, h: nat)
    requires g.Valid() && Shape(g, img) && 2 <= h < g.Limit() && img.fat[h] == EOC_MARK
    ensures IsChain(img.fat, g.Limit(), [h])
  {
  }

  /** Claiming cluster n and linking it after cur keeps the accounts. */
  lemma HoldsMore(g: Geometry, img: Image, img': Image, others: ChainMap, cur: seq<nat>, n: nat)
    requires g.Valid() && Shape(g, img) && Shape(g, img') && Holds(g, img, others, cur)
    requires 2 <= n < g.Limit() && img.fat[n] == 0
    requires img'.fat == if cur == [] then img.fat[n := EOC_MARK] else img.fat[n := EOC_MARK][cur[|cur| - 1] := n]
    ensures n !in cur && Holds(g, img', others, cur + [n])
  {
    hide Partition, IsChain, Shape;
    Sizes(g, img);
    Sizes(g, img');
    Parts(img.fat, g.Limit(), others, Elements(cur));
    if cur != [] {
      ExtendChainStep(img.fat, g.Limit(), cur, n);
      ChainRange(img.fat, g.Limit(), cur, cur[|cur| - 1]);
    } else {
      LoneChain(g, img', n);
      assert cur + [n] == [n];
    }
    assert forall x :: x in Elements(cur + [n]) <==> x in Elements(cur) || x == n;
    Relink(img.fat, img'.fat, g.Limit(), others, Elements(cur), Elements(cur + [n]));
  }

  /** What the driver finds after the first `used` clusters of a chain: the next one, or an end mark. */
  ghost function NextOf(img: Image, cur: seq<nat>, used: nat): nat
    requires used <= |cur|
  {
    if used < |cur| then cur[used]
    else if used == 0 || cur[used - 1] >= |img.fat| then 0
    else img.fat[cur[used - 1]]
  }

  lemma LinkIsNext(g: Geometry, img: Image, others: ChainMap, cur: seq<nat>, used: nat)
    requires g.Valid() && Shape(g, img) && Holds(g, img, others, cur) && used < |cur|
    ensures 2 <= cur[used] < g.Limit() && img.fat[cur[used]] == NextOf(img, cur, used + 1)
  {
    hide Partition;
  }

  ghost function PrevOf(cur: seq<nat>, used: nat): nat
    requires used <= |cur|
  {
    if used == 0 then 0 else cur[used - 1]
  }

  ghost function FirstOf(cur: seq<nat>): nat {
    if cur == [] then 0 else cur[0]
  }

  lemma NextCases(g: Geometry, img: Image, others: ChainMap, cur: seq<nat>, used: nat)
    requires g.Valid() && Shape(g, img) && Holds(g, img, others, cur) && used <= |cur|
    ensures used == |cur| <==> NextOf(img, cur, used) < 2 || NextOf(img, cur, used) >= EOC_MIN
    ensures used < |cur| ==> NextOf(img, cur, used) == cur[used]
    ensures cur != [] ==> 2 <= cur[|cur| - 1] < g.Limit() <= |img.fat| && g.Limit() <= g.FatEntries()
    ensures used == |cur| ==> PrevOf(cur, used) == if cur == [] then 0 else cur[|cur| - 1]
  {
    hide Partition;
  }

  lemma NothingMoved(img: Image, cur: seq<nat>)
    ensures Framed(img, img, cur) && TookFree(img.fat, cur, cur)
  {
  }

  /** A free cluster claimed and linked at the end of a chain. */
  lemma LinkedNext(g: Geometry, img: Image, img': Image, others: ChainMap, cur: seq<nat>, n: nat)
    requires g.Valid() && Shape(g, img) && Shape(g, img') && Holds(g, img, others, cur)
    requires n != 0 && LowestFree(img.fat, g.Limit(), n)
    requires cur != [] ==> cur[|cur| - 1] < |img.fat|
    requires img' == if cur == [] then Claimed(g, img, n) else Claimed(g, img, n).Link(cur[|cur| - 1], n)
    ensures Holds(g, img', others, cur + [n]) && Framed(img, img', cur + [n]) && TookFree(img.fat, cur, cur + [n])
    ensures forall x :: x in cur ==> img'.clus[x] == img.clus[x]
  {
    hide Shape, Holds, Zeros;
    Sizes(g, img);
    Sizes(g, img');
    HoldsMore(g, img, img', others, cur, n);
    assert n in cur + [n] && (cur != [] ==> cur[|cur| - 1] in cur + [n]);
    UniformIn(g, img, others, cur);
  }

  /**
   The cluster to write next: the one the chain has there, or else a fresh one linked after
   `prev`. Returns cluster 0 when the volume is full.
   */
  method NextCluster(v: Volume, at: nat, prev: nat, first: nat, ghost others: ChainMap, ghost cur: seq<nat>,
                     ghost used: nat)
    returns (cluster: nat, first': nat, ghost cur': seq<nat>)
    requires v.Mounted() && Holds(v.geo, v.Img(), others, cur) && used <= |cur|
    requires at == NextOf(v.Img(), cur, used) && prev == PrevOf(cur, used) && first == FirstOf(cur)
    modifies v.disk
    ensures v.Mounted() && v.Elsewhere() == old(v.Elsewhere())
    ensures Holds(v.geo, v.Img(), others, cur') && cur <= cur'
    ensures first' == FirstOf(cur')
    ensures cluster == 0 ==> cur' == cur && used == |cur| && v.Img() == old(v.Img())
                             && LowestFree(v.Img().fat, v.geo.Limit(), 0)
    ensures cluster != 0 ==>
              used < |cur'| && cur'[used] == cluster && |cur'| == if used < |cur| then |cur| else |cur| + 1
    ensures Framed(old(v.Img()), v.Img(), cur') && TookFree(old(v.Img()).fat, cur, cur')
    ensures forall x :: x in cur ==> v.Img().clus[x] == old(v.Img()).clus[x]
  {
    hide ImageOf, Layout, Geometry.ClusterToLba, Geometry.Limit, Holds, NextOf, Framed, TookFree, Claimed, Shape;
    ghost var img := v.Img();
    NextCases(v.geo, img, others, cur, used);
    NothingMoved(img, cur);
    cluster, first', cur' := at, first, cur;
    if cluster < 2 || cluster >= EOC_MIN {
      var added := AllocateCluster(v);
      if added == 0 {
        cluster := 0;
        return;
      }
      LowestFits(v.geo, img, added);
      if prev != 0 {
        FatSetCluster(v, prev, added);
      } else {
        first' := added;
      }
      cluster := added;
      cur' := cur + [added];
      LinkedNext(v.geo, img, v.Img(), others, cur, added);
    }
  }

  /** The number of clusters a write of `size` bytes asks for, in 32-bit arithmetic. */
  function ClustersNeeded(g: Geometry, size: nat): nat
    requires 0 < g.sectorsPerCluster
  {
    if size == 0 then 0 else (size + g.BytesPerCluster() - 1) % 0x1_0000_0000 / g.BytesPerCluster()
  }

  lemma CeilDiv(w: nat, b: nat, n: nat)
    requires 0 < b && n < w / b
    ensures n * b + b <= w
  {
    DivMul(w, b);
    MulNext(n, b);
    MulMono(n + 1, w / b, b);
  }

  /** A write never asks for a cluster it has no byte for. */
  lemma NeededIsUsed(g: Geometry, size: nat, n: nat)
    requires g.Valid() && n < ClustersNeeded(g, size)
    ensures n * g.BytesPerCluster() < size
  {
    CeilDiv((size + g.BytesPerCluster() - 1) % 0x1_0000_0000, g.BytesPerCluster(), n);
  }

  /** The first n sectors' worth of data, or all of it, is what a run of sectors holds. */
  ghost predicate HoldsData(secs: seq<Sector>, data: seq<byte>, written: nat) {
    && written == Min(|data|, |secs| * SECTOR_SIZE)
    && Content(secs)[..written] == data[..written]
  }

  lemma PrefixOfSum(a: seq<byte>, b: seq<byte>, n: nat)
    requires n <= |b|
    ensures (a + b)[..|a| + n] == a + b[..n]
  {
  }

  lemma HoldsDataMore(secs: seq<Sector>, k: Cluster, data: seq<byte>)
    requires |secs| * SECTOR_SIZE < |data| && HoldsData(secs, data, |secs| * SECTOR_SIZE)
    ensures var at := |secs| * SECTOR_SIZE;
      HoldsData(secs + Overwritten(k, data, at), data, at + Min(|k| * SECTOR_SIZE, |data| - at))
  {
    hide Content, Overwritten;
    var at := |secs| * SECTOR_SIZE;
    var n := Min(|k| * SECTOR_SIZE, |data| - at);
    OverwrittenBytes(k, data, at);
    ContentAppend(secs, Overwritten(k, data, at));
    assert Content(secs) == data[..at];
    PrefixOfSum(Content(secs), Content(Overwritten(k, data, at)), n);
    assert data[..at + n] == data[..at] + data[at..at + n];
  }

  lemma BytesOf(g: Geometry, clus: seq<Cluster>, ch: seq<nat>)
    requires g.Valid() && InImage(clus, ch) && forall i :: 0 <= i < |ch| ==> |clus[ch[i]]| == g.sectorsPerCluster
    ensures |Flat(clus, ch)| * SECTOR_SIZE == |ch| * g.BytesPerCluster()
  {
    FlatLength(clus, ch, g.sectorsPerCluster);
    MulAssoc(|ch|, g.sectorsPerCluster);
  }

  lemma MulAssoc(a: nat, b: nat)
    ensures a * b * SECTOR_SIZE == a * (b * SECTOR_SIZE)
  {
  }

  lemma UniformIn(g: Geometry, img: Image, others: ChainMap, ch: seq<nat>)
    requires g.Valid() && Shape(g, img) && Holds(g, img, others, ch)
    ensures forall i :: 0 <= i < |ch| ==> |img.clus[ch[i]]| == g.sectorsPerCluster
    ensures forall i, j :: 0 <= i < j < |ch| ==> ch[i] != ch[j]
    ensures forall i :: 0 <= i < |ch| ==> 2 <= ch[i] < g.Limit()
  {
    hide Partition;
    if ch != [] {
      forall i, j | 0 <= i < j < |ch|
        ensures ch[i] != ch[j]
      {
        assert g.Limit() <= BAD_MARK;
        ChainHasNoCycle(img.fat, g.Limit(), ch, i, j);
      }
    }
  }

  /** Writing the cluster at position `used` extends the data held by the clusters before it. */
  lemma WriteStep(g: Geometry, img: Image, img': Image, others: ChainMap, cur: seq<nat>, used: nat,
                  data: seq<byte>, at: nat)
    requires g.Valid() && Shape(g, img) && Shape(g, img') && Holds(g, img, others, cur) && used < |cur|
    requires at == used * g.BytesPerCluster() < |data|
    requires HoldsData(Flat(img.clus, cur[..used]), data, at)
    requires img' == img.Fill(cur[used], Overwritten(img.clus[cur[used]], data, at))
    ensures Holds(g, img', others, cur)
    ensures HoldsData(Flat(img'.clus, cur[..used + 1]), data, at + Min(g.BytesPerCluster(), |data| - at))
  {
    UniformIn(g, img, others, cur);
    hide Partition, IsChain, HoldsData, Flat, Overwritten, Shape;
    BytesOf(g, img.clus, cur[..used]);
    FlatMore(img, img', cur, used, Overwritten(img.clus[cur[used]], data, at));
    assert Holds(g, img', others, cur);
    hide Holds, Geometry.Valid, Geometry.Limit, InImage;
    MoreData(Flat(img.clus, cur[..used]), img.clus[cur[used]], data, at, g.BytesPerCluster());
  }

  lemma MoreData(secs: seq<Sector>, k: Cluster, data: seq<byte>, at: nat, n: nat)
    requires |secs| * SECTOR_SIZE == at < |data| && HoldsData(secs, data, at) && n == |k| * SECTOR_SIZE
    ensures HoldsData(secs + Overwritten(k, data, at), data, at + Min(n, |data| - at))
  {
    hide HoldsData, Overwritten;
    HoldsDataMore(secs, k, data);
  }

  /** The sectors of a chain's first clusters after the last of them was overwritten. */
  lemma FlatMore(img: Image, img': Image, cur: seq<nat>, used: nat, k: Cluster)
    requires used < |cur| && InImage(img.clus, cur) && img' == img.Fill(cur[used], k)
    requires forall i, j :: 0 <= i < j < |cur| ==> cur[i] != cur[j]
    ensures InImage(img'.clus, cur) && Flat(img'.clus, cur[..used + 1]) == Flat(img.clus, cur[..used]) + k
  {
    hide Flat;
    FlatSplit(img'.clus, cur, used);
    FlatKept(img.clus, img'.clus, cur[..used]);
  }

  /** Ending a chain after its first n clusters leaves two chains. */
  lemma CutChain(fat: seq<nat>, limit: nat, cur: seq<nat>, n: nat)
    requires limit <= |fat| && limit <= BAD_MARK && IsChain(fat, limit, cur) && 0 < n <= |cur|
    ensures IsChain(fat[cur[n - 1] := EOC_MARK], limit, cur[..n])
    ensures n < |cur| ==> IsChain(fat[cur[n - 1] := EOC_MARK], limit, cur[n..])
  {
    forall i | 0 <= i < |cur| && i != n - 1
      ensures cur[i] != cur[n - 1]
    {
      if i < n - 1 {
        ChainHasNoCycle(fat, limit, cur, i, n - 1);
      } else {
        ChainHasNoCycle(fat, limit, cur, n - 1, i);
      }
    }
  }

  /** The FAT after a chain is cut to n clusters and the rest is freed. */
  ghost function CutFat(fat: seq<nat>, cur: seq<nat>, n: nat): (r: seq<nat>)
    requires 0 < n <= |cur| && cur[n - 1] < |fat|
    ensures |r| == |fat|
  {
    var ended := fat[cur[n - 1] := EOC_MARK];
    if n < |cur| then FreeChain(ended, cur[n], MAX_CLUSTER_CHAIN) else ended
  }

  lemma CutFatAt(fat: seq<nat>, limit: nat, cur: seq<nat>, n: nat, x: nat)
    requires limit <= |fat| && limit <= BAD_MARK && IsChain(fat, limit, cur) && 0 < n <= |cur| <= MAX_CLUSTER_CHAIN
    requires x < |fat|
    ensures CutFat(fat, cur, n)[x] ==
            if x in cur[n..] then 0 else if x == cur[n - 1] then EOC_MARK else fat[x]
  {
    CutChain(fat, limit, cur, n);
    if n < |cur| {
      var tail := cur[n..];
      FreeChainZeroes(fat[cur[n - 1] := EOC_MARK], limit, tail, MAX_CLUSTER_CHAIN, x);
      assert tail[..|tail|] == tail;
    }
  }

  /** Cutting `cur` to n clusters changed nothing but its n-th entry and the entries after. */
  ghost predicate CutTo(fat: seq<nat>, fat': seq<nat>, cur: seq<nat>, n: nat)
    requires 0 < n <= |cur|
  {
    && |fat'| == |fat|
    && forall x :: 0 <= x < |fat| ==>
         fat'[x] == if x in cur[n..] then 0 else if x == cur[n - 1] then EOC_MARK else fat[x]
  }

  lemma CutFatIs(fat: seq<nat>, limit: nat, cur: seq<nat>, n: nat)
    requires limit <= |fat| && limit <= BAD_MARK && IsChain(fat, limit, cur) && 0 < n <= |cur| <= MAX_CLUSTER_CHAIN
    ensures CutTo(fat, CutFat(fat, cur, n), cur, n)
  {
    assert 2 <= cur[n - 1] < limit;
    hide CutFat, IsChain;
    forall x | 0 <= x < |fat|
      ensures CutFat(fat, cur, n)[x] == if x in cur[n..] then 0 else if x == cur[n - 1] then EOC_MARK else fat[x]
    {
      CutFatAt(fat, limit, cur, n, x);
    }
  }

  lemma CutKeepsChain(fat: seq<nat>, fat': seq<nat>, limit: nat, cur: seq<nat>, n: nat)
    requires limit <= |fat| && limit <= BAD_MARK && IsChain(fat, limit, cur) && 0 < n <= |cur|
    requires CutTo(fat, fat', cur, n)
    ensures IsChain(fat', limit, cur[..n])
    ensures forall x :: x in cur <==> x in cur[..n] || x in cur[n..]
    ensures forall x :: x in cur[..n] ==> x !in cur[n..]
  {
    forall i, j | 0 <= i < j < |cur|
      ensures cur[i] != cur[j]
    {
      ChainHasNoCycle(fat, limit, cur, i, j);
    }
    assert cur == cur[..n] + cur[n..];
    CutChain(fat, limit, cur, n);
    hide IsChain;
    ChainKept(fat[cur[n - 1] := EOC_MARK], fat', limit, cur[..n]);
  }

  lemma CutHolds(g: Geometry, img: Image, img': Image, others: ChainMap, cur: seq<nat>, n: nat)
    requires g.Valid() && Shape(g, img) && Shape(g, img') && Holds(g, img, others, cur)
    requires 0 < n <= |cur| && CutTo(img.fat, img'.fat, cur, n) && img'.clus == img.clus
    ensures Holds(g, img', others, cur[..n])
  {
    assert g.Limit() <= BAD_MARK;
    CutKeepsChain(img.fat, img'.fat, g.Limit(), cur, n);
    assert cur[n - 1] in cur;
    hide Partition, Shape, IsChain;
    Relink(img.fat, img'.fat, g.Limit(), others, Elements(cur), Elements(cur[..n]));
  }

  /** Ends the chain after the clusters written and frees whatever follows. */
  method CutAfter(v: Volume, prev: nat, next: nat, ghost others: ChainMap, ghost cur: seq<nat>, ghost used: nat)
    requires v.Mounted() && Holds(v.geo, v.Img(), others, cur) && used <= |cur| <= MAX_CLUSTER_CHAIN
    requires used == 0 ==> cur == []
    requires next == NextOf(v.Img(), cur, used) && prev == PrevOf(cur, used)
    modifies v.disk
    ensures v.Mounted() && v.Elsewhere() == old(v.Elsewhere())
    ensures Holds(v.geo, v.Img(), others, cur[..used])
    ensures v.Img() == old(v.Img()).(fat := v.Img().fat)
    ensures if cur == [] then v.Img() == old(v.Img()) else CutTo(old(v.Img()).fat, v.Img().fat, cur, used)
  {
    hide ImageOf, Layout, Geometry.ClusterToLba, Geometry.Limit, Partition, CutTo, FreeChain;
    ghost var img := v.Img();
    if prev != 0 {
      CutChain(img.fat, v.geo.Limit(), cur, used);
      FatSetCluster(v, prev, EOC_MARK);
    }
    if 2 <= next < EOC_MIN {
      ChainIsClosed(v.Img().fat, v.geo.Limit(), cur[used..]);
      FreeChainFrom(v, next, Elements(cur[used..]));
    }
    if cur != [] {
      assert v.Img().fat == CutFat(img.fat, cur, used);
      CutFatIs(img.fat, v.geo.Limit(), cur, used);
      CutHolds(v.geo, img, v.Img(), others, cur, used);
    }
  }

  // ------------------------------------------------------------- the whole write

  /**
   The file's chain was `was` and is `now`. It holds the data written, has no more clusters than
   the data needs, keeps the old clusters in place, and is short only if the volume is full.
   */
  ghost predicate Written(g: Geometry, img: Image, was: seq<nat>, now: seq<nat>, data: seq<byte>, written: nat)
    requires g.Valid() && Shape(g, img) && InImage(img.clus, now)
  {
    && HoldsData(Flat(img.clus, now), data, written)
    && |now| <= ClustersNeeded(g, |data|)
    && (now <= was || was <= now)
    && (|now| < ClustersNeeded(g, |data|) ==> was <= now && LowestFree(img.fat, g.Limit(), 0))
  }

  /** The clusters a chain gained were free. */
  ghost predicate TookFree(fat: seq<nat>, was: seq<nat>, now: seq<nat>) {
    forall x :: x in now && x !in was ==> x < |fat| && fat[x] == 0
  }

  /** Outside the new chain, only the old chain's entries changed: they were freed. */
  ghost predicate Relinked(fat: seq<nat>, fat': seq<nat>, was: seq<nat>, now: seq<nat>) {
    && |fat'| == |fat| && TookFree(fat, was, now)
    && forall x :: 0 <= x < |fat| && x !in now ==> fat'[x] == if x in was then 0 else fat[x]
  }

  /** What writing the clusters leaves behind. */
  ghost predicate Rewritten(g: Geometry, img0: Image, img: Image, was: seq<nat>, now: seq<nat>, data: seq<byte>,
                            written: nat)
    requires g.Valid() && Shape(g, img0) && Shape(g, img) && InImage(img.clus, now)
  {
    && Written(g, img, was, now, data, written)
    && Relinked(img0.fat, img.fat, was, now)
    && img.top == img0.top && img.rest == img0.rest
    && (forall x :: 0 <= x < |img.clus| && x !in now && x !in was ==> img.clus[x] == img0.clus[x])
  }

  /** `used` clusters of the chain `cur`, which extends the file's old chain, have been written. */
  ghost predicate Progress(g: Geometry, img0: Image, img: Image, others: ChainMap, was: seq<nat>, cur: seq<nat>,
                           used: nat, data: seq<byte>, written: nat)
    requires g.Valid() && Shape(g, img)
  {
    && Holds(g, img, others, cur) && was <= cur && Framed(img0, img, cur) && TookFree(img0.fat, was, cur)
    && used <= ClustersNeeded(g, |data|) && used <= |cur| && |cur| == (if used < |was| then |was| else used)
    && HoldsData(Flat(img.clus, cur[..used]), data, written)
  }

  lemma Begin(g: Geometry, img: Image, others: ChainMap, was: seq<nat>, data: seq<byte>)
    requires g.Valid() && Shape(g, img) && Holds(g, img, others, was)
    ensures Progress(g, img, img, others, was, was, 0, data, 0)
  {
    hide Partition, IsChain, Shape, ClustersNeeded;
    assert was[..0] == [];
  }

  /** As long as clusters are still needed, every one used so far is full. */
  lemma FullSoFar(g: Geometry, img0: Image, img: Image, others: ChainMap, was: seq<nat>, cur: seq<nat>, used: nat,
                  data: seq<byte>, written: nat)
    requires g.Valid() && Shape(g, img) && Progress(g, img0, img, others, was, cur, used, data, written)
    requires used < ClustersNeeded(g, |data|)
    ensures written == used * g.BytesPerCluster() < |data|
  {
    UniformIn(g, img, others, cur);
    NeededIsUsed(g, |data|, used);
    hide Partition, IsChain, Shape, ClustersNeeded, Flat, Framed;
    BytesOf(g, img.clus, cur[..used]);
  }

  /** Making sure of the next cluster keeps what was written. */
  lemma AfterNext(g: Geometry, img0: Image, img: Image, img': Image, others: ChainMap, was: seq<nat>, cur: seq<nat>,
                  cur': seq<nat>, used: nat, data: seq<byte>, written: nat)
    requires g.Valid() && Shape(g, img) && Shape(g, img')
    requires Progress(g, img0, img, others, was, cur, used, data, written)
    requires Holds(g, img', others, cur') && cur <= cur' && Framed(img, img', cur')
    requires forall x :: x in cur ==> img'.clus[x] == img.clus[x]
    requires TookFree(img.fat, cur, cur')
    ensures TookFree(img0.fat, was, cur')
    ensures Framed(img0, img', cur') && HoldsData(Flat(img'.clus, cur'[..used]), data, written)
  {
    hide Partition, IsChain, Shape, ClustersNeeded, HoldsData;
    assert forall x :: x in cur ==> x in cur';
    assert cur'[..used] == cur[..used];
    FlatKept(img.clus, img'.clus, cur[..used]);
  }

  lemma AfterWrite(g: Geometry, img0: Image, img: Image, img': Image, others: ChainMap, was: seq<nat>, cur: seq<nat>,
                   used: nat, data: seq<byte>, written: nat)
    requires g.Valid() && Shape(g, img) && Shape(g, img') && Framed(img0, img, cur) && TookFree(img0.fat, was, cur)
    requires Holds(g, img, others, cur) && was <= cur && used < |cur| && used < ClustersNeeded(g, |data|)
    requires |cur| == if used < |was| then |was| else used + 1
    requires HoldsData(Flat(img.clus, cur[..used]), data, written)
    requires written == used * g.BytesPerCluster() < |data|
    requires img' == img.Fill(cur[used], Overwritten(img.clus[cur[used]], data, written))
    ensures Progress(g, img0, img', others, was, cur, used + 1,
                     data, written + Min(g.BytesPerCluster(), |data| - written))
  {
    hide Partition, IsChain, Shape, ClustersNeeded, HoldsData, Overwritten;
    WriteStep(g, img, img', others, cur, used, data, written);
    assert cur[used] in cur;
  }

  lemma ShortEnough(g: Geometry, img0: Image, img: Image, others: ChainMap, was: seq<nat>, cur: seq<nat>, used: nat,
                    data: seq<byte>, written: nat)
    requires g.Valid() && Shape(g, img) && Progress(g, img0, img, others, was, cur, used, data, written)
    requires HopsSuffice(g.Limit(), ClustersNeeded(g, |data|)) && |was| <= MAX_CLUSTER_CHAIN
    ensures |cur| <= MAX_CLUSTER_CHAIN
  {
    hide Partition, IsChain, Shape, ClustersNeeded, HoldsData, Flat, Framed, TookFree;
    Sizes(g, img);
    Parts(img.fat, g.Limit(), others, Elements(cur));
    if cur != [] {
      WalkIsShort(img.fat, g.Limit(), cur);
    }
  }

  lemma Finish(g: Geometry, img0: Image, img: Image, img': Image, others: ChainMap, was: seq<nat>, cur: seq<nat>,
               used: nat, data: seq<byte>, written: nat)
    requires g.Valid() && Shape(g, img0) && Shape(g, img) && Shape(g, img')
    requires Progress(g, img0, img, others, was, cur, used, data, written)
    requires used == ClustersNeeded(g, |data|) || (LowestFree(img.fat, g.Limit(), 0) && used == |cur|)
    requires used == 0 ==> cur == []
    requires img' == img.(fat := img'.fat) && Holds(g, img', others, cur[..used])
    requires if cur == [] then img' == img else CutTo(img.fat, img'.fat, cur, used)
    ensures Rewritten(g, img0, img', was, cur[..used], data, written)
  {
    hide Partition, IsChain, ClustersNeeded, HoldsData, Flat, Shape, CutTo;
    var now := cur[..used];
    if used == |cur| {
      assert now == cur;
    } else {
      assert cur == was;
    }
    FinishFat(img0.fat, img.fat, img'.fat, was, cur, used);
    if |now| < ClustersNeeded(g, |data|) {
      FullVolume(g, img, img', cur, used);
    }
  }

  lemma FinishFat(fat0: seq<nat>, fat: seq<nat>, fat': seq<nat>, was: seq<nat>, cur: seq<nat>, used: nat)
    requires |fat| == |fat0| && was <= cur && used <= |cur| && (used == |cur| || cur == was)
    requires used == 0 ==> cur == []
    requires forall x :: 0 <= x < |fat| && x !in cur ==> fat[x] == fat0[x]
    requires if cur == [] then fat' == fat else CutTo(fat, fat', cur, used)
    requires TookFree(fat0, was, cur)
    ensures Relinked(fat0, fat', was, cur[..used])
  {
    assert cur == cur[..used] + cur[used..];
    assert forall x :: x in was ==> x in cur;
    if cur != [] {
      assert cur[used - 1] in cur[..used];
    }
  }

  /** Ending a chain that used all its clusters frees none. */
  lemma FullVolume(g: Geometry, img: Image, img': Image, cur: seq<nat>, used: nat)
    requires g.Valid() && Shape(g, img) && Shape(g, img') && used == |cur| && LowestFree(img.fat, g.Limit(), 0)
    requires if cur == [] then img' == img else CutTo(img.fat, img'.fat, cur, used)
    ensures LowestFree(img'.fat, g.Limit(), 0)
  {
    assert cur[used..] == [];
  }

  lemma FirstIsNext(img: Image, cur: seq<nat>)
    ensures FirstOf(cur) == NextOf(img, cur, 0)
  {
  }

  method WriteClusters(v: Volume, data: seq<byte>, first: nat, ghost others: ChainMap, ghost was: seq<nat>)
    returns (first': nat, written: nat, ghost now: seq<nat>)
    requires v.Mounted() && Holds(v.geo, v.Img(), others, was)
    requires first == FirstOf(was)
    requires 0 < ClustersNeeded(v.geo, |data|) && HopsSuffice(v.geo.Limit(), ClustersNeeded(v.geo, |data|))
    requires |was| <= MAX_CLUSTER_CHAIN
    modifies v.disk
    ensures v.Mounted() && v.Elsewhere() == old(v.Elsewhere())
    ensures Holds(v.geo, v.Img(), others, now) && |now| <= MAX_CLUSTER_CHAIN
    ensures first' == FirstOf(now)
    ensures Rewritten(v.geo, old(v.Img()), v.Img(), was, now, data, written)
  {
    hide ImageOf, Layout, Geometry.ClusterToLba, Geometry.Limit, Partition, CutTo, FreeChain, ClustersNeeded, IsChain,
         HoldsData, Flat, LowestFree, Framed, Shape, Overwritten, Holds, NextOf, Rewritten;
    ghost var img0 := v.Img();
    ghost var cur := was;
    var clustersNeeded := ClustersNeeded(v.geo, |data|);
    var cluster, prev, used := first, 0, 0;
    first', written := first, 0;
    FirstIsNext(v.Img(), was);
    Begin(v.geo, img0, others, was, data);
    while used < clustersNeeded
      invariant v.Mounted() && v.Elsewhere() == old(v.Elsewhere())
      invariant Progress(v.geo, img0, v.Img(), others, was, cur, used, data, written)
      invariant cluster == NextOf(v.Img(), cur, used) && prev == PrevOf(cur, used) && first' == FirstOf(cur)
      invariant used == 0 ==> cur == was
    {
      ghost var img1, cur1 := v.Img(), cur;
      FullSoFar(v.geo, img0, img1, others, was, cur, used, data, written);
      var next;
      next, first', cur := NextCluster(v, cluster, prev, first', others, cur, used);
      if next == 0 {
        break;
      }
      LinkIsNext(v.geo, v.Img(), others, cur, used);
      AfterNext(v.geo, img0, img1, v.Img(), others, was, cur1, cur, used, data, written);
      ghost var img2, written1 := v.Img(), written;
      written := WriteCluster(v, next, data, written);
      AfterWrite(v.geo, img0, img2, v.Img(), others, was, cur, used, data, written1);
      LinkIsNext(v.geo, v.Img(), others, cur, used);
      prev := next;
      used := used + 1;
      cluster := FatNextCluster(v, next);
    }
    ghost var img3 := v.Img();
    ShortEnough(v.geo, img0, img3, others, was, cur, used, data, written);
    CutAfter(v, prev, cluster, others, cur, used);
    now := cur[..used];
    Finish(v.geo, img0, img3, v.Img(), others, was, cur, used, data, written);
  }
}
