/**
 The steps the file-system calls are made of: reserving a slot, filling it, and settling a slot
 whose chain was replaced or freed. Each keeps the volume consistent.
 */
module FsSteps {
  import opened Bytes
  import opened FatLayout
  import opened Volumes
  import opened Chains
  import opened ChainData
  import opened DirEntries
  import opened DirTree
  import opened DirScan
  import opened FileData
  import opened FsState

  lemma DirIsWalk(g: Geometry, img: Image, cat: Catalog, extra: set<nat>, h: nat)
    requires g.Valid() && Shape(g, img) && Consistent(g, img, cat, extra) && h in cat.chains
    ensures g.Limit() <= BAD_MARK && IsChain(img.fat, g.Limit(), cat.chains[h])
    ensures 0 < |cat.chains[h]| <= MAX_CLUSTER_CHAIN && cat.chains[h][0] == h
    ensures InImage(img.clus, cat.chains[h])
    ensures h in cat.depth ==> Clean(DirEnts(img, cat.chains[h]))
    ensures 2 <= h < g.Limit()
    ensures forall i :: 0 <= i < |cat.chains[h]| ==> cat.chains[h][i] < |img.fat|
  {
    hide IsChain, TreeOk, NoLeak, Disjoint, Covered, DirEnts;
    Parts(img.fat, g.Limit(), cat.chains, extra);
    if h in cat.depth {
      TreeIsClean(TreeOf(img, g.root, cat), h);
    }
    assert IsChain(img.fat, g.Limit(), cat.chains[h]);
    IsInChain(g, img, cat.chains[h], 0);
  }

  lemma TreeIsClean(t: Tree, d: nat)
    requires TreeOk(t) && d in t.dirs
    ensures Clean(t.dirs[d])
  {
    hide EntriesOwn, AllOwned, AllDotted, Clean;
  }

  lemma ChainDistinct(fat: seq<nat>, limit: nat, ch: seq<nat>)
    requires limit <= |fat| && limit <= BAD_MARK && IsChain(fat, limit, ch)
    ensures forall i, j :: 0 <= i < j < |ch| ==> ch[i] != ch[j]
  {
    forall i, j | 0 <= i < j < |ch|
      ensures ch[i] != ch[j]
    {
      ChainHasNoCycle(fat, limit, ch, i, j);
    }
  }

  // -------------------------------------------------------------------- one slot

  lemma SlotIs(img: Image, ch: seq<nat>, k: nat, s: nat, i: nat)
    requires InImage(img.clus, ch) && k < |ch| && s < |img.clus[ch[k]]| && i < SLOTS_PER_SECTOR
    ensures SlotPos(img, ch, k, s, i) < |DirEnts(img, ch)|
    ensures DirEnts(img, ch)[SlotPos(img, ch, k, s, i)] == View(SlotAt(img.clus[ch[k]][s], i))
  {
    hide View, Flat, SlotAt;
    FlatAt(img.clus, ch, k, s);
    SlotsAt(Flat(img.clus, ch), Base(img.clus, ch, k) + s, i);
  }

  /** Reads a slot of a directory. */
  method LoadSlot(v: Volume, lba: nat, index: nat, ghost ch: seq<nat>, ghost k: nat) returns (e: Slot)
    requires v.Mounted() && InImage(v.Img().clus, ch) && Within(v.geo, ch, k, lba, index)
    ensures PlaceOf(v.geo, v.Img(), ch, k, lba, index) < |DirEnts(v.Img(), ch)|
    ensures View(e) == DirEnts(v.Img(), ch)[PlaceOf(v.geo, v.Img(), ch, k, lba, index)]
  {
    hide ImageOf, Layout, Geometry.ClusterToLba, Geometry.Limit, View, SlotAt, DirEnts, SlotPos;
    Sizes(v.geo, v.Img());
    ghost var s := lba - v.geo.ClusterToLba(ch[k]);
    SlotIs(v.Img(), ch, k, s, index);
    var buf := v.ReadData(lba, ch[k], s);
    e := SlotAt(buf, index);
  }

  /** Rewrites a slot of a directory in place. */
  method StoreSlot(v: Volume, lba: nat, index: nat, e: Slot, ghost ch: seq<nat>, ghost k: nat)
    requires v.Mounted() && InImage(v.Img().clus, ch) && Within(v.geo, ch, k, lba, index)
    modifies v.disk
    ensures v.Mounted() && v.Elsewhere() == old(v.Elsewhere())
    ensures v.Img() == SlotPut(old(v.Img()), ch, k, lba - v.geo.ClusterToLba(ch[k]), index, e)
  {
    hide ImageOf, Layout, Geometry.ClusterToLba, Geometry.Limit, PutSlot;
    Sizes(v.geo, v.Img());
    ghost var s := lba - v.geo.ClusterToLba(ch[k]);
    var buf := v.ReadData(lba, ch[k], s);
    buf := PutSlot(buf, index, e);
    v.WriteData(lba, buf, ch[k], s);
  }

  // ------------------------------------------------------------ reserving a slot

  /** What reserving a slot in directory d may have changed: d gained unused slots, nothing else moved. */
  ghost predicate Reserved(img: Image, img': Image, cat: Catalog, cat': Catalog, d: nat)
    requires InRange(img, cat) && InRange(img', cat') && d in cat.depth
  {
    && cat'.owner == cat.owner && cat'.depth == cat.depth && cat'.chains.Keys == cat.chains.Keys
    && cat.chains[d] <= cat'.chains[d] && |cat'.chains[d]| <= |cat.chains[d]| + 1
    && (forall h :: h in cat.chains && h != d ==>
           cat'.chains[h] == cat.chains[h] && SameBytes(img, img', cat.chains[h]))
    && DirEnts(img, cat.chains[d]) <= DirEnts(img', cat'.chains[d])
    && AllUnused(DirEnts(img', cat'.chains[d])[|DirEnts(img, cat.chains[d])|..])
    && img'.top == img.top && img'.rest == img.rest
    && |img'.fat| == |img.fat| && (forall x :: 0 <= x < |img.fat| && x !in cat'.chains[d] ==> img'.fat[x] == img.fat[x])
    && TookFree(img.fat, cat.chains[d], cat'.chains[d])
  }

  lemma ReservedMore(img: Image, img': Image, cat: Catalog, cat': Catalog, d: nat)
    requires InRange(img, cat) && InRange(img', cat') && d in cat.depth && Reserved(img, img', cat, cat', d)
    ensures cat'.depth == cat.depth
  {
    hide DirEnts, AllUnused, SameBytes;
  }

  lemma GrownPlace(g: Geometry, img: Image, img': Image, cat: Catalog, d: nat, n: nat)
    requires g.Valid() && d in cat.depth && InRange(img, cat) && InRange(img', Lengthened(cat, d, n))
    requires 2 <= n && 0 < g.sectorsPerCluster
    requires SameBytes(img, img', cat.chains[d])
    requires DirEnts(img', cat.chains[d] + [n]) == DirEnts(img, cat.chains[d]) + Ents(Slots(Zeros(g.sectorsPerCluster)))
    requires forall q :: 0 <= q < |DirEnts(img, cat.chains[d])| ==> !DirEnts(img, cat.chains[d])[q].Free()
    ensures Within(g, cat.chains[d] + [n], |cat.chains[d]|, g.ClusterToLba(n), 0)
    ensures FirstFree(DirEnts(img', cat.chains[d] + [n]),
                      PlaceOf(g, img', cat.chains[d] + [n], |cat.chains[d]|, g.ClusterToLba(n), 0))
  {
    var ch := cat.chains[d];
    assert (ch + [n])[..|ch|] == ch;
    ZerosAreUnused(g.sectorsPerCluster);
    hide Flat, View, SlotAt, Geometry.ClusterToLba;
    var more := Ents(Slots(Zeros(g.sectorsPerCluster)));
    assert |more| > 0 && more[0].Unused?;
    assert PlaceOf(g, img', ch + [n], |ch|, g.ClusterToLba(n), 0) == |DirEnts(img, ch)|;
  }

  lemma ReservedSame(img: Image, cat: Catalog, d: nat)
    requires InRange(img, cat) && d in cat.depth
    ensures Reserved(img, img, cat, cat, d)
  {
    hide DirEnts, Flat;
    assert AllUnused(DirEnts(img, cat.chains[d])[|DirEnts(img, cat.chains[d])|..]);
  }

  lemma ReservedGrown(g: Geometry, img: Image, img': Image, cat: Catalog, d: nat, n: nat)
    requires d in cat.depth && InRange(img, cat) && InRange(img', Lengthened(cat, d, n))
    requires forall h :: h in cat.chains ==> SameBytes(img, img', cat.chains[h])
    requires DirEnts(img', cat.chains[d] + [n]) == DirEnts(img, cat.chains[d]) + Ents(Slots(Zeros(g.sectorsPerCluster)))
    requires img'.top == img.top && img'.rest == img.rest
    requires |img'.fat| == |img.fat| && n < |img.fat| && 0 < |cat.chains[d]| && img.fat[n] == 0
    requires cat.chains[d][|cat.chains[d]| - 1] < |img.fat| && img'.fat == AppendTo(img.fat, cat.chains[d], n)
    ensures Reserved(img, img', cat, Lengthened(cat, d, n), d)
  {
    ZerosAreUnused(g.sectorsPerCluster);
    hide DirEnts, Flat, AllUnused, SameBytes, Slots, Ents;
    var more := Ents(Slots(Zeros(g.sectorsPerCluster)));
    assert DirEnts(img', cat.chains[d] + [n])[|DirEnts(img, cat.chains[d])|..] == more;
    assert Lengthened(cat, d, n).chains.Keys == cat.chains.Keys;
    assert n in cat.chains[d] + [n] && cat.chains[d][|cat.chains[d]| - 1] in cat.chains[d] + [n];
  }

  /** Finds a free slot in a directory, growing it if need be. */
  method ReserveSlot(v: Volume, dir: nat, ghost cat: Catalog, ghost extra: set<nat>)
    returns (found: bool, lba: nat, index: nat, ghost k: nat, ghost cat': Catalog)
    requires v.Mounted() && Consistent(v.geo, v.Img(), cat, extra) && dir in cat.depth
    requires HopsSuffice(v.geo.Limit(), |cat.chains[dir]| + 1)
    requires forall x :: x in extra ==> v.Img().fat[x] != 0
    modifies v.disk
    ensures v.Mounted() && v.Elsewhere() == old(v.Elsewhere())
    ensures Consistent(v.geo, v.Img(), cat', extra) && Reserved(old(v.Img()), v.Img(), cat, cat', dir)
    ensures dir in cat'.depth && dir in cat'.chains
    ensures !found ==> v.Img() == old(v.Img()) && cat' == cat && LowestFree(v.Img().fat, v.geo.Limit(), 0)
    ensures !found ==> forall q :: 0 <= q < |DirEnts(v.Img(), cat.chains[dir])| ==>
                                     !DirEnts(v.Img(), cat.chains[dir])[q].Free()
    ensures found ==> !(LowestFree(old(v.Img()).fat, v.geo.Limit(), 0)
                        && forall q :: 0 <= q < |DirEnts(old(v.Img()), cat.chains[dir])| ==>
                             !DirEnts(old(v.Img()), cat.chains[dir])[q].Free())
    ensures found ==> Within(v.geo, cat'.chains[dir], k, lba, index)
    ensures found ==> FirstFree(DirEnts(v.Img(), cat'.chains[dir]),
                                PlaceOf(v.geo, v.Img(), cat'.chains[dir], k, lba, index))
    ensures forall x :: x in extra ==> v.Img().fat[x] == old(v.Img()).fat[x] && v.Img().clus[x] == old(v.Img()).clus[x]
  {
    hide ImageOf, Layout, Geometry.ClusterToLba, Geometry.Limit, Partition, TreeOk, IsChain, DirEnts, Claimed;
    ghost var img, ch := v.Img(), cat.chains[dir];
    DirIsWalk(v.geo, img, cat, extra, dir);
    Parts(img.fat, v.geo.Limit(), cat.chains, extra);
    ghost var grown;
    found, lba, index, k, grown := FindFreeDirSlot(v, dir, ch);
    cat' := cat;
    if found && grown != 0 {
      ReserveGrown(v.geo, img, v.Img(), cat, extra, dir, grown);
      cat', k := Lengthened(cat, dir, grown), |ch|;
    } else {
      ReservedSame(img, cat, dir);
    }
  }

  lemma ReserveGrown(g: Geometry, img: Image, img': Image, cat: Catalog, extra: set<nat>, d: nat, n: nat)
    requires g.Valid() && Shape(g, img) && Shape(g, img') && Consistent(g, img, cat, extra)
    requires d in cat.depth && HopsSuffice(g.Limit(), |cat.chains[d]| + 1)
    requires 2 <= n < g.Limit() && img.fat[n] == 0 && forall x :: x in extra ==> x < |img.fat| && img.fat[x] != 0
    requires 0 < |cat.chains[d]| && cat.chains[d][|cat.chains[d]| - 1] < |img.fat|
    requires img' == Claimed(g, img, n).Link(cat.chains[d][|cat.chains[d]| - 1], n)
    requires forall q :: 0 <= q < |DirEnts(img, cat.chains[d])| ==> !DirEnts(img, cat.chains[d])[q].Free()
    ensures Consistent(g, img', Lengthened(cat, d, n), extra)
    ensures Reserved(img, img', cat, Lengthened(cat, d, n), d)
    ensures Within(g, cat.chains[d] + [n], |cat.chains[d]|, g.ClusterToLba(n), 0)
    ensures FirstFree(DirEnts(img', cat.chains[d] + [n]),
                      PlaceOf(g, img', cat.chains[d] + [n], |cat.chains[d]|, g.ClusterToLba(n), 0))
    ensures forall x :: x in extra ==> x < |img.clus| && img'.fat[x] == img.fat[x] && img'.clus[x] == img.clus[x]
  {
    hide Partition, TreeOk, IsChain, DirEnts, Geometry.ClusterToLba, Covered, Reserved, FirstFree, Within;
    GrowDirectory(g, img, img', cat, extra, d, n);
    ReservedGrown(g, img, img', cat, d, n);
    GrownPlace(g, img, img', cat, d, n);
    ExtraKept(g, img, img', cat, extra, d, n);
  }

  /** Clusters set aside keep their links and their sectors when a directory grows. */
  lemma ExtraKept(g: Geometry, img: Image, img': Image, cat: Catalog, extra: set<nat>, d: nat, n: nat)
    requires g.Valid() && Shape(g, img) && Shape(g, img') && Consistent(g, img, cat, extra) && d in cat.depth
    requires 2 <= n < g.Limit() && img.fat[n] == 0 && forall x :: x in extra ==> x < |img.fat| && img.fat[x] != 0
    requires 0 < |cat.chains[d]| && cat.chains[d][|cat.chains[d]| - 1] < |img.fat|
    requires img' == Claimed(g, img, n).Link(cat.chains[d][|cat.chains[d]| - 1], n)
    ensures forall x :: x in extra ==> x < |img.clus| && img'.fat[x] == img.fat[x] && img'.clus[x] == img.clus[x]
  {
    hide Partition, TreeOk, IsChain, DirEnts, Covered;
    Parts(img.fat, g.Limit(), cat.chains, extra);
    CoverAt(cat.chains, d, cat.chains[d][|cat.chains[d]| - 1]);
  }

  // ----------------------------------------------------------- settling an entry

  /** The catalog after the chain h0 of entry p of directory d was replaced by `now` (possibly empty). */
  ghost function Settled(cat: Catalog, d: nat, p: nat, h0: nat, now: seq<nat>): Catalog {
    var chains, owner := cat.chains - {h0}, cat.owner - {h0};
    Catalog(if now == [] then chains else chains[now[0] := now],
            if now == [] then owner else owner[now[0] := (d, p)],
            cat.depth - {h0})
  }

  lemma SettledDepth(cat: Catalog, d: nat, p: nat, h0: nat, now: seq<nat>)
    ensures Settled(cat, d, p, h0, now).depth.Keys <= cat.depth.Keys
  {
  }

  /** The chain an entry points to, set aside from the others. */
  ghost function Others(cat: Catalog, e: Ent): ChainMap {
    cat.chains - {Head(e)}
  }

  /** What an entry's slot may become: erased, or the same file with another chain. */
  ghost predicate MaySettle(g: Geometry, img: Image, cat: Catalog, e0: Ent, e1: Ent, now: seq<nat>)
    requires InRange(img, cat) && e0.Entry?
  {
    if e1.Erased? then
      now == [] && (e0.isDir ==> e0.cluster in cat.depth && NoEntries(DirEnts(img, cat.chains[e0.cluster])))
    else
      !e0.isDir && e1.Entry? && e1 == Entry(e0.name, false, FirstOf(now), e1.size)
  }

  lemma SettleChange(g: Geometry, img: Image, cat: Catalog, d: nat, p: nat, e1: Ent, now: seq<nat>)
    requires g.Valid() && Shape(g, img) && Consistent(g, img, cat, {}) && d in cat.depth
    requires p < |DirEnts(img, cat.chains[d])| && DirEnts(img, cat.chains[d])[p].Entry?
    requires MaySettle(g, img, cat, DirEnts(img, cat.chains[d])[p], e1, now)
    requires now != [] ==> now[0] !in Others(cat, DirEnts(img, cat.chains[d])[p]) && now[0] != 0
    ensures var e0 := DirEnts(img, cat.chains[d])[p];
      && MayRewire(TreeOf(img, g.root, cat), Change(d, p, e1, e0.cluster, FirstOf(now), []))
      && e0.cluster != d
      && (e0.cluster in cat.depth <==> e0.isDir)
      && (e0.isDir ==> now == []) && (e1.Entry? ==> !e1.isDir)
  {
    hide Partition, DirEnts, TreeOk, Shape, Clean, MayRewire;
    SettleMay(TreeOf(img, g.root, cat), d, p, e1);
  }

  /** The bytes after one slot of directory d was rewritten, on an image where the chain h0 changed. */
  lemma SettleBytes(g: Geometry, img: Image, img1: Image, cat: Catalog, d: nat, k: nat, s: nat, i: nat, e: Slot,
                    cat2: Catalog, extra: set<nat>, others: ChainMap, now: seq<nat>)
    requires g.Valid() && Shape(g, img) && Shape(g, img1) && InRange(img, cat)
    requires Partition(img1.fat, g.Limit(), cat2.chains, extra)
    requires others.Keys <= cat.chains.Keys && forall h :: h in others ==> others[h] == cat.chains[h]
    requires others.Keys <= cat2.chains.Keys && forall h :: h in others ==> others[h] == cat2.chains[h]
    requires forall x :: 0 <= x < |img.clus| && Covered(others, x) ==> img1.clus[x] == img.clus[x]
    requires d in others && k < |others[d]| && s < g.sectorsPerCluster && i < SLOTS_PER_SECTOR
    requires now != [] ==> now[0] in cat2.chains && cat2.chains[now[0]] == now && now[0] != d
    ensures 2 <= others[d][k] < g.Limit()
    ensures InRange(img, cat) && SlotPos(img, others[d], k, s, i) < |DirEnts(img, others[d])|
    ensures var img2 := SlotPut(img1, others[d], k, s, i, e);
      && (forall h :: h in cat2.chains ==> InImage(img2.clus, cat2.chains[h]))
      && DirEnts(img2, others[d]) == DirEnts(img, others[d])[SlotPos(img, others[d], k, s, i) := View(e)]
      && (forall h :: h in others && h != d ==> SameBytes(img, img2, others[h]))
      && (now != [] ==> SameBytes(img1, img2, now))
  {
    hide Partition, Covered, IsChain, Shape, View, Flat, Slots, Ents, PutSlot;
    Sizes(g, img);
    Sizes(g, img1);
    var ch := others[d];
    Parts(img1.fat, g.Limit(), cat2.chains, extra);
    ChainsInImage(g, img1, cat2.chains);
    assert IsChain(img1.fat, g.Limit(), ch);
    ChainDistinct(img1.fat, g.Limit(), ch);
    IsInChain(g, img1, ch, k);
    ClusterSize(g, img1, ch[k]);
    SlotPutEnts(img1, ch, k, s, i, e);
    BytesKept(img, img1, others, d);
    forall j | 0 <= j < |ch|
      ensures 2 <= ch[j] < g.Limit()
    {
      IsInChain(g, img1, ch, j);
    }
    BaseIs(g, img, ch, k);
    BaseIs(g, img1, ch, k);
    var img2 := SlotPut(img1, ch, k, s, i, e);
    assert ch[k] in ch;
    SlotPutOthers(img1, img2, cat2.chains, d, ch[k]);
    forall h | h in others && h != d
      ensures SameBytes(img, img2, others[h])
    {
      BytesKept(img, img1, others, h);
      assert SameBytes(img1, img2, cat2.chains[h]);
    }
  }

  lemma ClusterSize(g: Geometry, img: Image, c: nat)
    requires g.Valid() && Shape(g, img) && 2 <= c < g.Limit()
    ensures c < |img.clus| && |img.clus[c]| == g.sectorsPerCluster
  {
  }

  lemma BaseIs(g: Geometry, img: Image, ch: seq<nat>, k: nat)
    requires g.Valid() && Shape(g, img) && k <= |ch| && forall i :: 0 <= i < |ch| ==> 2 <= ch[i] < g.Limit()
    ensures InImage(img.clus, ch) && Base(img.clus, ch, k) == k * g.sectorsPerCluster
  {
    FlatLength(img.clus, ch[..k], g.sectorsPerCluster);
  }

  /** The chains of a settled catalog partition the clusters in use. */
  lemma SettlePartition(g: Geometry, fat: seq<nat>, cat: Catalog, d: nat, p: nat, h0: nat, now: seq<nat>)
    requires g.Valid() && g.Limit() <= |fat| && Partition(fat, g.Limit(), cat.chains - {h0}, Elements(now))
    requires now != [] ==> IsChain(fat, g.Limit(), now)
    requires |now| <= MAX_CLUSTER_CHAIN
    ensures Partition(fat, g.Limit(), Settled(cat, d, p, h0, now).chains, {})
    ensures now != [] ==> now[0] !in cat.chains - {h0} && now[0] != 0
  {
    hide Partition, IsChain;
    if now != [] {
      ChainRange(fat, g.Limit(), now, now[0]);
      PutBack(fat, g.Limit(), cat.chains - {h0}, Elements(now), now);
      assert Elements(now) - Elements(now) == {};
    } else {
      assert Elements(now) == {};
    }
  }

  /**
   Settling an entry. Its chain was set aside and turned into `now` (empty when freed) without
   touching the other chains; rewriting its slot accordingly makes the volume consistent again.
   */
  lemma SettleStep(g: Geometry, img: Image, img1: Image, cat: Catalog, d: nat, k: nat, s: nat, i: nat, e: Slot,
                   now: seq<nat>)
    requires g.Valid() && Shape(g, img) && Shape(g, img1) && Consistent(g, img, cat, {}) && d in cat.depth
    requires k < |cat.chains[d]| && s < g.sectorsPerCluster && i < SLOTS_PER_SECTOR
    requires SlotPos(img, cat.chains[d], k, s, i) < |DirEnts(img, cat.chains[d])|
    requires var e0 := DirEnts(img, cat.chains[d])[SlotPos(img, cat.chains[d], k, s, i)];
      && e0.Entry? && MaySettle(g, img, cat, e0, View(e), now)
      && Partition(img1.fat, g.Limit(), Others(cat, e0), Elements(now))
      && (now != [] ==> IsChain(img1.fat, g.Limit(), now)) && |now| <= MAX_CLUSTER_CHAIN
      && forall x :: 0 <= x < |img.clus| && Covered(Others(cat, e0), x) ==> img1.clus[x] == img.clus[x]
    ensures 2 <= cat.chains[d][k] < g.Limit()
    ensures var ch, p := cat.chains[d], SlotPos(img, cat.chains[d], k, s, i);
      var h0 := DirEnts(img, ch)[p].cluster;
      var img2, cat2 := SlotPut(img1, ch, k, s, i, e), Settled(cat, d, p, h0, now);
      && Shape(g, img2) && Consistent(g, img2, cat2, {})
      && h0 != d && (h0 in cat.depth <==> DirEnts(img, ch)[p].isDir) && d in cat2.depth && cat2.chains[d] == ch
      && DirEnts(img2, ch) == DirEnts(img, ch)[p := View(e)]
      && OthersKept(img, img2, cat, cat2, {h0, d})
      && (now != [] ==> SameBytes(img1, img2, now))
  {
    hide Partition, IsChain, DirEnts, TreeOk, View, MayRewire, Covered, Shape, SlotPos, PutSlot, Rewire, MaySettle,
         SameBytes, InImage, Flat;
    var ch, p := cat.chains[d], SlotPos(img, cat.chains[d], k, s, i);
    var e0, e1 := DirEnts(img, ch)[p], View(e);
    var cat2 := Settled(cat, d, p, e0.cluster, now);
    Sizes(g, img);
    Sizes(g, img1);
    SettlePartition(g, img1.fat, cat, d, p, e0.cluster, now);
    SettleChange(g, img, cat, d, p, e1, now);
    SettleBytes(g, img, img1, cat, d, k, s, i, e, cat2, {}, Others(cat, e0), now);
    ClusterSize(g, img1, ch[k]);
    var img2 := SlotPut(img1, ch, k, s, i, e);
    PutShape(g, img1, ch[k], s, PutSlot(img1.clus[ch[k]][s], i, e));
    var c := Change(d, p, e1, e0.cluster, FirstOf(now), []);
    assert OthersKept(img, img2, cat, cat2, {e0.cluster, d});
    SettleTree(g.root, img, img2, cat, cat2, c, now);
    RewireOk(TreeOf(img, g.root, cat), c);
  }

  lemma SettleTree(root: nat, img: Image, img2: Image, cat: Catalog, cat2: Catalog, c: Change, now: seq<nat>)
    requires InRange(img, cat) && c.d in cat.depth && MayRewire(TreeOf(img, root, cat), c)
    requires cat2 == Settled(cat, c.d, c.p, c.h0, now) && c.h == FirstOf(now) && c.h0 != c.d && c.sub == []
    requires now != [] ==> now[0] !in cat.chains - {c.h0} && now[0] != 0
    requires c.h0 in cat.depth ==> now == []
    requires !c.MakesDir()
    requires forall h :: h in cat2.chains ==> InImage(img2.clus, cat2.chains[h])
    requires InImage(img2.clus, cat.chains[c.d])
    requires DirEnts(img2, cat.chains[c.d]) == DirEnts(img, cat.chains[c.d])[c.p := c.e]
    requires forall h :: h in cat.chains && h != c.h0 && h != c.d ==> SameBytes(img, img2, cat.chains[h])
    ensures InRange(img2, cat2) && TreeOf(img2, root, cat2) == Rewire(TreeOf(img, root, cat), c)
  {
    hide TreeOk, Clean, EntriesOwn, AllOwned, AllDotted, Flat, DirEnts, NoEntries, Dotted, SameBytes, InImage, Rewire;
    assert cat2.chains.Keys == cat.chains.Keys - {c.h0} + (if c.h == 0 then {} else {c.h});
    forall k | k in cat.depth && k != c.h0 && k != c.d
      ensures k in cat2.chains && DirEnts(img2, cat2.chains[k]) == DirEnts(img, cat.chains[k])
    {
      SameEnts(img, img2, cat.chains[k]);
    }
    TreeRewired(root, img, img2, cat, cat2, c);
  }

  lemma PutShape(g: Geometry, img: Image, c: nat, s: nat, buf: Sector)
    requires g.Valid() && Shape(g, img) && 2 <= c < g.Limit() && s < g.sectorsPerCluster
    ensures c < |img.clus| && s < |img.clus[c]| && Shape(g, img.Put(c, s, buf))
  {
  }

  // ------------------------------------------------------------- filling a slot

  /** The catalog after entry p of directory d came to own the new directory at cluster h. */
  ghost function WithDir(cat: Catalog, d: nat, p: nat, h: nat): Catalog
    requires d in cat.depth
  {
    Catalog(cat.chains[h := [h]], cat.owner[h := (d, p)], cat.depth[h := cat.depth[d] + 1])
  }

  ghost function Filled(cat: Catalog, d: nat, p: nat, e1: Ent): Catalog
    requires d in cat.depth && e1.Entry?
  {
    if e1.isDir then WithDir(cat, d, p, e1.cluster) else cat
  }

  /** What a free slot may become: an empty file, or a new directory whose cluster was set aside. */
  ghost predicate MayFill(g: Geometry, img: Image, cat: Catalog, extra: set<nat>, d: nat, e1: Ent)
    requires g.Valid() && Shape(g, img) && InRange(img, cat) && d in cat.depth
  {
    && e1.Entry? && Absent(DirEnts(img, cat.chains[d]), e1.name)
    && if e1.isDir then
         && extra == {e1.cluster} && 2 <= e1.cluster < g.Limit() && IsChain(img.fat, g.Limit(), [e1.cluster])
         && var sub := DirEnts(img, [e1.cluster]);
         Clean(sub) && NoEntries(sub) && Dotted(sub, e1.cluster, d, g.root)
       else extra == {} && e1.cluster == 0
  }

  lemma FillPartition(g: Geometry, img: Image, cat: Catalog, extra: set<nat>, d: nat, p: nat, e1: Ent)
    requires g.Valid() && Shape(g, img) && InRange(img, cat) && d in cat.depth && MayFill(g, img, cat, extra, d, e1)
    requires Partition(img.fat, g.Limit(), cat.chains, extra)
    ensures Partition(img.fat, g.Limit(), Filled(cat, d, p, e1).chains, {})
    ensures e1.isDir ==> e1.cluster !in cat.chains
  {
    hide Partition, IsChain, DirEnts, Clean, NoEntries, Dotted, Shape, Absent;
    Sizes(g, img);
    if e1.isDir {
      var one := [e1.cluster];
      assert Elements(one) == {e1.cluster} == extra;
      PutBack(img.fat, g.Limit(), cat.chains, extra, one);
      assert extra - Elements(one) == {};
    }
  }

  /** Filling a free slot makes the volume consistent, with nothing set aside any more. */
  lemma FillStep(g: Geometry, img: Image, cat: Catalog, extra: set<nat>, d: nat, k: nat, s: nat, i: nat, e: Slot)
    requires g.Valid() && Shape(g, img) && Consistent(g, img, cat, extra) && d in cat.depth
    requires k < |cat.chains[d]| && s < g.sectorsPerCluster && i < SLOTS_PER_SECTOR
    requires FirstFree(DirEnts(img, cat.chains[d]), SlotPos(img, cat.chains[d], k, s, i))
    requires MayFill(g, img, cat, extra, d, View(e))
    ensures 2 <= cat.chains[d][k] < g.Limit()
    ensures var ch, p := cat.chains[d], SlotPos(img, cat.chains[d], k, s, i);
      var img2, cat2 := SlotPut(img, ch, k, s, i, e), Filled(cat, d, p, View(e));
      && Shape(g, img2) && Consistent(g, img2, cat2, {}) && cat2.chains[d] == ch
      && DirEnts(img2, ch) == DirEnts(img, ch)[p := View(e)]
      && (forall h :: h in cat.chains && h != d ==> SameBytes(img, img2, cat.chains[h]))
      && (View(e).isDir ==> SameBytes(img, img2, [View(e).cluster]))
  {
    hide Partition, IsChain, DirEnts, TreeOk, View, MayRewire, Covered, Shape, SlotPos, PutSlot, Rewire, MayFill, Clean,
         NoEntries, Dotted, Absent;
    var ch, p, e1 := cat.chains[d], SlotPos(img, cat.chains[d], k, s, i), View(e);
    MayFillParts(g, img, cat, extra, d, e1);
    var cat2 := Filled(cat, d, p, e1);
    Sizes(g, img);
    FillPartition(g, img, cat, extra, d, p, e1);
    var sub := FillChange(g, img, cat, extra, d, p, e1);
    FillBytes(g, img, cat, extra, d, k, s, i, e, p);
    ClusterSize(g, img, ch[k]);
    PutShape(g, img, ch[k], s, PutSlot(img.clus[ch[k]][s], i, e));
    var img2 := SlotPut(img, ch, k, s, i, e);
    var c := Change(d, p, e1, 0, e1.cluster, sub);
    FillTree(g.root, img, img2, cat, cat2, c);
    RewireOk(TreeOf(img, g.root, cat), c);
  }

  lemma MayFillParts(g: Geometry, img: Image, cat: Catalog, extra: set<nat>, d: nat, e1: Ent)
    requires g.Valid() && Shape(g, img) && InRange(img, cat) && d in cat.depth && MayFill(g, img, cat, extra, d, e1)
    ensures e1.Entry? && if e1.isDir then 2 <= e1.cluster < g.Limit() else e1.cluster == 0
  {
  }

  lemma FillChange(g: Geometry, img: Image, cat: Catalog, extra: set<nat>, d: nat, p: nat, e1: Ent)
    returns (sub: seq<Ent>)
    requires g.Valid() && Shape(g, img) && Consistent(g, img, cat, extra) && d in cat.depth
    requires FirstFree(DirEnts(img, cat.chains[d]), p) && MayFill(g, img, cat, extra, d, e1)
    requires e1.isDir ==> e1.cluster !in cat.chains
    ensures MayRewire(TreeOf(img, g.root, cat), Change(d, p, e1, 0, e1.cluster, sub))
    ensures e1.isDir ==> e1.cluster < |img.clus| && sub == DirEnts(img, [e1.cluster])
    ensures d != 0 && d != e1.cluster
  {
    hide Partition, IsChain, DirEnts, TreeOk, MayRewire, Shape, Clean, NoEntries, Dotted, Absent;
    Sizes(g, img);
    sub := if e1.isDir then DirEnts(img, [e1.cluster]) else [];
    FillMay(TreeOf(img, g.root, cat), d, p, e1, sub);
  }

  lemma FillBytes(g: Geometry, img: Image, cat: Catalog, extra: set<nat>, d: nat, k: nat, s: nat, i: nat, e: Slot,
                  p: nat)
    requires g.Valid() && Shape(g, img) && InRange(img, cat) && d in cat.depth
    requires k < |cat.chains[d]| && s < g.sectorsPerCluster && i < SLOTS_PER_SECTOR
    requires View(e).Entry? && Partition(img.fat, g.Limit(), Filled(cat, d, p, View(e)).chains, {})
    requires View(e).isDir ==> View(e).cluster !in cat.chains && View(e).cluster < |img.clus|
    ensures 2 <= cat.chains[d][k] < g.Limit()
    ensures var ch := cat.chains[d];
      var img2, cat2 := SlotPut(img, ch, k, s, i, e), Filled(cat, d, p, View(e));
      && (forall h :: h in cat2.chains ==> InImage(img2.clus, cat2.chains[h]))
      && SlotPos(img, ch, k, s, i) < |DirEnts(img, ch)|
      && DirEnts(img2, ch) == DirEnts(img, ch)[SlotPos(img, ch, k, s, i) := View(e)]
      && (forall h :: h in cat.chains && h != d ==> SameBytes(img, img2, cat.chains[h]))
      && (View(e).isDir ==> SameBytes(img, img2, [View(e).cluster]))
  {
    hide Partition, IsChain, DirEnts, View, Covered, Shape, SlotPos, PutSlot;
    var cat2 := Filled(cat, d, p, View(e));
    var now := if View(e).isDir then [View(e).cluster] else [];
    SettleBytes(g, img, img, cat, d, k, s, i, e, cat2, {}, cat.chains, now);
  }

  lemma FillTree(root: nat, img: Image, img2: Image, cat: Catalog, cat2: Catalog, c: Change)
    requires InRange(img, cat) && c.d in cat.depth && MayRewire(TreeOf(img, root, cat), c)
    requires c.e.Entry? && c.h0 == 0 && c.h == c.e.cluster && c.h != c.d && c.d != 0
    requires cat2 == Filled(cat, c.d, c.p, c.e) && (c.e.isDir ==> c.h !in cat.chains) && (!c.e.isDir ==> c.h == 0)
    requires c.e.isDir ==> c.h != 0 && c.h < |img.clus| && c.sub == DirEnts(img, [c.h]) && SameBytes(img, img2, [c.h])
    requires forall h :: h in cat2.chains ==> InImage(img2.clus, cat2.chains[h])
    requires InImage(img2.clus, cat.chains[c.d])
    requires DirEnts(img2, cat.chains[c.d]) == DirEnts(img, cat.chains[c.d])[c.p := c.e]
    requires forall h :: h in cat.chains && h != c.d ==> SameBytes(img, img2, cat.chains[h])
    ensures InRange(img2, cat2) && TreeOf(img2, root, cat2) == Rewire(TreeOf(img, root, cat), c)
  {
    hide TreeOk, MayRewire, DirEnts, Recataloged, Rewire, InImage, SameBytes, Flat;
    FillCatalog(root, img, cat, c);
    assert cat2.depth.Keys <= cat2.chains.Keys;
    assert InRange(img2, cat2);
    forall k | k in cat.depth && k != c.d
      ensures k in cat2.chains && DirEnts(img2, cat2.chains[k]) == DirEnts(img, cat.chains[k])
    {
      assert SameBytes(img, img2, cat.chains[k]);
      SameEnts(img, img2, cat.chains[k]);
    }
    if c.e.isDir {
      SameEnts(img, img2, [c.h]);
    }
    TreeRewired(root, img, img2, cat, cat2, c);
  }

  lemma SameEnts(img: Image, img': Image, ch: seq<nat>)
    requires SameBytes(img, img', ch)
    ensures DirEnts(img', ch) == DirEnts(img, ch)
  {
  }

  lemma FillCatalog(root: nat, img: Image, cat: Catalog, c: Change)
    requires InRange(img, cat) && c.d in cat.depth && MayRewire(TreeOf(img, root, cat), c)
    requires c.e.Entry? && c.h0 == 0 && c.h == c.e.cluster && (c.e.isDir ==> c.h != 0) && (!c.e.isDir ==> c.h == 0)
    ensures Recataloged(cat, Filled(cat, c.d, c.p, c.e), c) && Fits(TreeOf(img, root, cat), c)
  {
    hide Clean, EntriesOwn, AllOwned, AllDotted, DirEnts, NoEntries, Dotted, DirsClean;
    var t := TreeOf(img, root, cat);
    assert 0 !in t.heads;
    assert 0 !in cat.owner && 0 !in cat.depth;
  }
}
