/**
 What erasing, rewriting and creating a name do to the whole volume: the effect on the directory's
 map of names, on every other chain, and on the FAT.
 */
module FsEffects {
  import opened Bytes
  import opened FatLayout
  import opened Volumes
  import opened Chains
  import opened ChainData
  import opened DirEntries
  import opened DirTree
  import opened DirScan
  import opened FileData
  import opened FsState
  import opened FsSteps
  import opened Names

  /** What the names of directory d mean. */
  ghost function NamesIn(g: Geometry, img: Image, cat: Catalog, d: nat): map<FatName, Ent>
    requires g.Valid() && Shape(g, img) && Consistent(g, img, cat, {}) && d in cat.depth
  {
    DirIsWalk(g, img, cat, {}, d);
    Listing(DirEnts(img, cat.chains[d]))
  }

  /** The clusters of the file or directory an entry points to. */
  ghost function ChainOf(cat: Catalog, e: Ent): seq<nat> {
    if e.Entry? && e.cluster in cat.chains then cat.chains[e.cluster] else []
  }

  /** Exactly the clusters of `ch` were freed, and no other FAT entry changed. */
  ghost predicate Freed(fat: seq<nat>, fat': seq<nat>, ch: seq<nat>) {
    |fat'| == |fat| && forall x :: 0 <= x < |fat| ==> fat'[x] == if x in ch then 0 else fat[x]
  }

  /** A name without NULs that does not start with the deletion mark. */
  ghost predicate ValidName(name: seq<byte>) {
    CString(name) && (name != [] ==> name[0] != DELETED)
  }

  lemma RenamedAt(g: Geometry, img: Image, img': Image, cat: Catalog, cat': Catalog, d: nat, p: nat, e1: Ent)
    requires g.Valid() && Shape(g, img) && Shape(g, img')
    requires Consistent(g, img, cat, {}) && Consistent(g, img', cat', {}) && d in cat.depth && d in cat'.depth
    requires p < |DirEnts(img, cat.chains[d])|
    requires DirEnts(img', cat'.chains[d]) == DirEnts(img, cat.chains[d])[p := e1]
    ensures NamesIn(g, img', cat', d) == Relisted(NamesIn(g, img, cat, d), DirEnts(img, cat.chains[d])[p], e1)
  {
    hide Partition, TreeOk, DirEnts, Listing, NamesUnique, EndsClean, Shape;
    DirIsWalk(g, img, cat, {}, d);
    DirIsWalk(g, img', cat', {}, d);
    ListingPut(DirEnts(img, cat.chains[d]), p, e1);
  }

  lemma FoundName(g: Geometry, img: Image, cat: Catalog, d: nat, n: FatName)
    requires g.Valid() && Shape(g, img) && Consistent(g, img, cat, {}) && d in cat.depth
    ensures n in NamesIn(g, img, cat, d) <==> !Absent(DirEnts(img, cat.chains[d]), n)
    ensures forall p: nat :: NameAt(DirEnts(img, cat.chains[d]), p, n) ==>
                               n in NamesIn(g, img, cat, d)
                                && NamesIn(g, img, cat, d)[n] == DirEnts(img, cat.chains[d])[p]
  {
    hide Partition, TreeOk, DirEnts, Listing, EndsClean, Shape;
    DirIsWalk(g, img, cat, {}, d);
    ListingAt(DirEnts(img, cat.chains[d]), n);
  }

  /** An entry's chain is one of the catalog's, or the entry is an empty file's. */
  lemma EntryChain(g: Geometry, img: Image, cat: Catalog, d: nat, p: nat)
    requires g.Valid() && Shape(g, img) && Consistent(g, img, cat, {}) && d in cat.depth
    requires p < |DirEnts(img, cat.chains[d])| && DirEnts(img, cat.chains[d])[p].Entry?
    ensures var e := DirEnts(img, cat.chains[d])[p];
      && (e.cluster == 0 ==> !e.isDir && e.cluster !in cat.chains)
      && (e.cluster != 0 ==> e.cluster in cat.chains && 2 <= e.cluster < g.Limit() && e.cluster != g.root)
      && (e.isDir <==> e.cluster in cat.depth)
      && e.cluster != d
  {
    var e := DirEnts(img, cat.chains[d])[p];
    hide Partition, DirEnts, Shape, Clean, MayRewire;
    TreeEntry(TreeOf(img, g.root, cat), d, p);
    if e.cluster != 0 {
      hide TreeOk;
      DirIsWalk(g, img, cat, {}, e.cluster);
    }
  }

  lemma TreeEntry(t: Tree, d: nat, p: nat)
    requires TreeOk(t) && d in t.dirs && p < |t.dirs[d]| && t.dirs[d][p].Entry?
    ensures var e := t.dirs[d][p];
      && (e.cluster == 0 ==> !e.isDir && e.cluster !in t.heads)
      && (e.cluster != 0 ==> e.cluster in t.heads && e.cluster != t.root)
      && (e.isDir <==> e.cluster in t.depth)
      && e.cluster != d
  {
    hide AllOwned, AllDotted, Clean;
    assert EntryOwns(t.dirs[d][p], d, p, t);
  }

  /** Freeing an entry's chain leaves the other chains partitioning what is still in use. */
  lemma FreeEntry(g: Geometry, img: Image, img1: Image, cat: Catalog, h: nat)
    requires g.Valid() && Shape(g, img) && Shape(g, img1) && Consistent(g, img, cat, {})
    requires h != 0 ==> h in cat.chains
    requires 0 !in cat.chains
    requires img1 == if h == 0 then img else img.(fat := FreeChain(img.fat, h, MAX_CLUSTER_CHAIN))
    ensures Partition(img1.fat, g.Limit(), cat.chains - {h}, Elements([]))
    ensures Freed(img.fat, img1.fat, if h == 0 then [] else cat.chains[h])
  {
    hide Partition, TreeOk, IsChain, FreeChain, Shape;
    Sizes(g, img);
    assert Elements([]) == {};
    if h == 0 {
      assert cat.chains - {h} == cat.chains;
    } else {
      var ch := cat.chains[h];
      Take(img.fat, g.Limit(), cat.chains, {}, h);
      assert {} + Elements(ch) == Elements(ch);
      Parts(img.fat, g.Limit(), cat.chains, {});
      forall x | 0 <= x < |img.fat|
        ensures img1.fat[x] == if x in ch then 0 else img.fat[x]
      {
        FreeChainZeroes(img.fat, g.Limit(), ch, MAX_CLUSTER_CHAIN, x);
        assert ch[..|ch|] == ch;
      }
      Relink(img.fat, img1.fat, g.Limit(), cat.chains - {h}, Elements(ch), {});
    }
  }

  lemma RootIsDir(g: Geometry, img: Image, cat: Catalog)
    requires g.Valid() && Shape(g, img) && Consistent(g, img, cat, {})
    ensures g.root in cat.depth
  {
    hide Partition, EntriesOwn, AllOwned, AllDotted, DirsClean, DirEnts, Shape;
  }

  /** An entry's slot carries the entry's directory bit, cluster and name. */
  lemma ViewEntry(e: Slot)
    requires View(e).Entry?
    ensures IsDir(e) == View(e).isDir && ClusterOf(e) == View(e).cluster && NameOf(e) == View(e).name
    ensures IsVisible(e) && !IsDot(e) && !IsDotDot(e)
  {
  }

  lemma ErasedView(e: Slot)
    ensures View(AsDeleted(e)) == Erased
  {
  }

  /** Freeing an entry's chain and marking its slot deleted removes its name, and nothing else. */
  lemma Erase(g: Geometry, img: Image, img1: Image, cat: Catalog, d: nat, k: nat, s: nat, i: nat, e: Slot)
    requires g.Valid() && Shape(g, img) && Shape(g, img1) && Consistent(g, img, cat, {}) && d in cat.depth
    requires k < |cat.chains[d]| && s < g.sectorsPerCluster && i < SLOTS_PER_SECTOR && View(e) == Erased
    requires var p := SlotPos(img, cat.chains[d], k, s, i);
      p < |DirEnts(img, cat.chains[d])| && var e0 := DirEnts(img, cat.chains[d])[p];
      && e0.Entry?
      && img1 == (if e0.cluster == 0 then img else img.(fat := FreeChain(img.fat, e0.cluster, MAX_CLUSTER_CHAIN)))
      && (e0.isDir ==> e0.cluster in cat.depth && NoEntries(DirEnts(img, cat.chains[e0.cluster])))
    ensures 2 <= cat.chains[d][k] < g.Limit()
    ensures var p := SlotPos(img, cat.chains[d], k, s, i);
      var e0 := DirEnts(img, cat.chains[d])[p];
      var img2, cat2 := SlotPut(img1, cat.chains[d], k, s, i, e), Settled(cat, d, p, e0.cluster, []);
      && Shape(g, img2) && Consistent(g, img2, cat2, {}) && d in cat2.depth && cat2.chains[d] == cat.chains[d]
      && NamesIn(g, img2, cat2, d) == NamesIn(g, img, cat, d) - {e0.name}
      && cat2.chains == cat.chains - {e0.cluster} && OthersKept(img, img2, cat, cat2, {e0.cluster, d})
      && Freed(img.fat, img2.fat, ChainOf(cat, e0))
      && img2.top == img.top && img2.rest == img.rest
  {
    hide Partition, IsChain, DirEnts, TreeOk, View, Covered, Shape, SlotPos, PutSlot, Flat, Clean, OthersKept,
         SameBytes;
    var ch, p := cat.chains[d], SlotPos(img, cat.chains[d], k, s, i);
    var e0 := DirEnts(img, ch)[p];
    EntryChain(g, img, cat, d, p);
    assert 0 !in cat.chains by {
      ZeroIsNoChain(g, img, cat);
    }
    FreeEntry(g, img, img1, cat, e0.cluster);
    SettleStep(g, img, img1, cat, d, k, s, i, e, []);
    ClusterSize(g, img1, ch[k]);
    var img2, cat2 := SlotPut(img1, ch, k, s, i, e), Settled(cat, d, p, e0.cluster, []);
    RenamedAt(g, img, img2, cat, cat2, d, p, Erased);
    assert Freed(img.fat, img2.fat, ChainOf(cat, e0));
  }

  /** An entry is at a known place of directory d and may be erased: a directory is empty. */
  ghost predicate ReadyToErase(g: Geometry, img: Image, cat: Catalog, d: nat, k: nat, lba: nat, index: nat, e0: Ent)
    requires g.Valid() && Shape(g, img)
  {
    && Consistent(g, img, cat, {}) && d in cat.depth && e0.Entry?
    && var ch := cat.chains[d];
    && InImage(img.clus, ch) && Within(g, ch, k, lba, index)
    && var p := PlaceOf(g, img, ch, k, lba, index);
    && p < |DirEnts(img, ch)| && DirEnts(img, ch)[p] == e0
    && (e0.isDir ==> e0.cluster in cat.depth && NoEntries(DirEnts(img, cat.chains[e0.cluster])))
  }

  /** The entry's name and clusters are gone; every other chain is as it was. */
  ghost predicate EntryErased(g: Geometry, img: Image, img2: Image, cat: Catalog, cat2: Catalog, d: nat, e0: Ent)
    requires g.Valid() && Shape(g, img) && Shape(g, img2)
  {
    && Consistent(g, img, cat, {}) && Consistent(g, img2, cat2, {}) && d in cat.depth && d in cat2.depth && e0.Entry?
    && cat2.depth.Keys <= cat.depth.Keys
    && NamesIn(g, img2, cat2, d) == NamesIn(g, img, cat, d) - {e0.name}
    && cat2.chains == cat.chains - {e0.cluster} && OthersKept(img, img2, cat, cat2, {e0.cluster, d})
    && Freed(img.fat, img2.fat, ChainOf(cat, e0))
    && img2.top == img.top && img2.rest == img.rest
  }

  lemma ZeroIsNoChain(g: Geometry, img: Image, cat: Catalog)
    requires g.Valid() && Shape(g, img) && Consistent(g, img, cat, {})
    ensures 0 !in cat.chains
  {
    if h :| h in cat.chains && h == 0 {
      DirIsWalk(g, img, cat, {}, h);
    }
  }

  lemma EmptyDir(g: Geometry, img: Image, cat: Catalog, d: nat)
    requires g.Valid() && Shape(g, img) && Consistent(g, img, cat, {}) && d in cat.depth
    ensures InImage(img.clus, cat.chains[d])
    ensures NamesIn(g, img, cat, d) == map[] <==> NoEntries(DirEnts(img, cat.chains[d]))
  {
    hide Partition, TreeOk, DirEnts, Shape, EndsClean, IsChain;
    DirIsWalk(g, img, cat, {}, d);
    NoNames(DirEnts(img, cat.chains[d]));
  }

  lemma NoNames(ents: seq<Ent>)
    requires NamesUnique(ents)
    ensures Listing(ents) == map[] <==> NoEntries(ents)
  {
    forall p | 0 <= p < |ents| && ents[p].Entry?
      ensures ents[p].name in Listing(ents)
    {
    }
  }

  /** A walk from a chain's first cluster stays among the chain's clusters. */
  lemma ReadyToFree(g: Geometry, img: Image, cat: Catalog, h: nat)
    requires g.Valid() && Shape(g, img) && Consistent(g, img, cat, {}) && h in cat.chains
    ensures Closed(img.fat, g.Limit(), Elements(cat.chains[h])) && h in Elements(cat.chains[h])
  {
    hide Partition, TreeOk, IsChain, Shape;
    Sizes(g, img);
    DirIsWalk(g, img, cat, {}, h);
    ChainIsClosed(img.fat, g.Limit(), cat.chains[h]);
    assert cat.chains[h][0] in cat.chains[h];
  }

  /** A file's slot pointed at another chain still carries its name. */
  lemma RetargetView(e: Slot, cluster: nat, size: nat)
    requires View(e).Entry? && !View(e).isDir && cluster < 0x1_0000_0000 && size < 0x1_0000_0000
    ensures View(Retargeted(e, cluster, size)) == Entry(View(e).name, false, cluster, size)
  {
    var e1 := WithCluster(e, cluster);
    var e2 := WithSize(e1, size);
    assert NameOf(e2) == NameOf(e) && AttrOf(e2) == AttrOf(e);
    assert e2[0] == NameOf(e2)[0] && e2[1] == NameOf(e2)[1] && e2[2] == NameOf(e2)[2];
    assert e[0] == NameOf(e)[0] && e[1] == NameOf(e)[1] && e[2] == NameOf(e)[2];
    assert e2[11] == AttrOf(e2);
  }

  /** Clusters that were set aside for a file are in no other chain, before or after. */
  lemma OthersUntouched(g: Geometry, img: Image, img1: Image, cat: Catalog, e0: Ent, now: seq<nat>, data: seq<byte>,
                        written: nat)
    requires g.Valid() && Shape(g, img) && Shape(g, img1) && Consistent(g, img, cat, {}) && e0.Entry?
    requires e0.cluster in cat.chains || e0.cluster == 0
    requires Holds(g, img1, Others(cat, e0), now)
    requires Rewritten(g, img, img1, ChainOf(cat, e0), now, data, written)
    ensures forall x :: 0 <= x < |img.clus| && Covered(Others(cat, e0), x) ==> img1.clus[x] == img.clus[x]
  {
    hide Partition, TreeOk, Covered, Written, IsChain, Shape;
    Sizes(g, img);
    Sizes(g, img1);
    Parts(img.fat, g.Limit(), cat.chains, {});
    Parts(img1.fat, g.Limit(), Others(cat, e0), Elements(now));
    forall x | 0 <= x < |img.clus| && Covered(Others(cat, e0), x)
      ensures x !in now && x !in ChainOf(cat, e0)
    {
      assert x in now ==> x in Elements(now);
      if e0.cluster in cat.chains {
        CoverTake(cat.chains, e0.cluster, x);
      }
    }
  }

  /** A file's data is on its new chain, and only its slot, at a known place, still tells of the old one. */
  ghost predicate ReadyToSettle(g: Geometry, img: Image, img1: Image, cat: Catalog, d: nat, k: nat, lba: nat,
                                index: nat, e0: Ent, now: seq<nat>, data: seq<byte>, written: nat)
    requires g.Valid() && Shape(g, img) && Shape(g, img1)
  {
    && Consistent(g, img, cat, {}) && d in cat.depth && e0.Entry? && !e0.isDir && |data| < 0x1_0000_0000
    && |now| <= MAX_CLUSTER_CHAIN && Holds(g, img1, Others(cat, e0), now)
    && Rewritten(g, img, img1, ChainOf(cat, e0), now, data, written)
    && var ch := cat.chains[d];
    && InImage(img.clus, ch) && InImage(img1.clus, ch) && Within(g, ch, k, lba, index)
    && DirEnts(img1, ch) == DirEnts(img, ch)
    && (forall j: nat :: j <= |ch| ==> Base(img1.clus, ch, j) == Base(img.clus, ch, j))
    && var p := PlaceOf(g, img, ch, k, lba, index);
    && p < |DirEnts(img, ch)| && DirEnts(img, ch)[p] == e0
  }

  /** The file's entry tells of its new chain; the directory and every other chain are as they were. */
  ghost predicate FileSettled(g: Geometry, img: Image, img2: Image, cat: Catalog, cat2: Catalog, d: nat, e0: Ent,
                              now: seq<nat>, data: seq<byte>, written: nat)
    requires g.Valid() && Shape(g, img) && Shape(g, img2)
  {
    && Consistent(g, img, cat, {}) && Consistent(g, img2, cat2, {}) && d in cat.depth && d in cat2.depth && e0.Entry?
    && cat2.depth.Keys <= cat.depth.Keys && cat2.chains[d] == cat.chains[d]
    && NamesIn(g, img2, cat2, d) == NamesIn(g, img, cat, d)[e0.name := Entry(e0.name, false, FirstOf(now), written)]
    && ChainOf(cat2, Entry(e0.name, false, FirstOf(now), written)) == now && InImage(img2.clus, now)
    && Written(g, img2, ChainOf(cat, e0), now, data, written)
    && Relinked(img.fat, img2.fat, ChainOf(cat, e0), now)
    && OthersKept(img, img2, cat, cat2, {e0.cluster, d})
    && img2.top == img.top && img2.rest == img.rest
  }

  /** Pointing a file's slot at the chain its data was written to changes that name and nothing else. */
  lemma Rewrite(g: Geometry, img: Image, img1: Image, cat: Catalog, d: nat, k: nat, s: nat, i: nat, e: Slot,
                now: seq<nat>, data: seq<byte>, written: nat)
    requires g.Valid() && Shape(g, img) && Shape(g, img1) && Consistent(g, img, cat, {}) && d in cat.depth
    requires k < |cat.chains[d]| && s < g.sectorsPerCluster && i < SLOTS_PER_SECTOR
    requires var p := SlotPos(img, cat.chains[d], k, s, i);
      p < |DirEnts(img, cat.chains[d])| && var e0 := DirEnts(img, cat.chains[d])[p];
      && e0.Entry? && !e0.isDir && View(e) == Entry(e0.name, false, FirstOf(now), written)
      && Holds(g, img1, Others(cat, e0), now) && |now| <= MAX_CLUSTER_CHAIN
      && Rewritten(g, img, img1, ChainOf(cat, e0), now, data, written)
    ensures 2 <= cat.chains[d][k] < g.Limit()
    ensures var p := SlotPos(img, cat.chains[d], k, s, i);
      var e0 := DirEnts(img, cat.chains[d])[p];
      var img2, cat2 := SlotPut(img1, cat.chains[d], k, s, i, e), Settled(cat, d, p, e0.cluster, now);
      && Shape(g, img2) && Consistent(g, img2, cat2, {}) && d in cat2.depth && cat2.chains[d] == cat.chains[d]
      && NamesIn(g, img2, cat2, d) == NamesIn(g, img, cat, d)[e0.name := View(e)]
      && OthersKept(img, img2, cat, cat2, {e0.cluster, d})
      && ChainOf(cat2, View(e)) == now && InImage(img2.clus, now)
      && Written(g, img2, ChainOf(cat, e0), now, data, written)
      && Relinked(img.fat, img2.fat, ChainOf(cat, e0), now)
      && img2.top == img.top && img2.rest == img.rest
  {
    hide Partition, IsChain, DirEnts, TreeOk, View, Covered, Shape, SlotPos, PutSlot, Flat, Clean, Relinked, HoldsData,
         ClustersNeeded, LowestFree, OthersKept, SameBytes, NamesIn;
    var ch, p := cat.chains[d], SlotPos(img, cat.chains[d], k, s, i);
    var e0 := DirEnts(img, ch)[p];
    EntryChain(g, img, cat, d, p);
    OthersUntouched(g, img, img1, cat, e0, now, data, written);
    SettleStep(g, img, img1, cat, d, k, s, i, e, now);
    ClusterSize(g, img1, ch[k]);
    var img2, cat2 := SlotPut(img1, ch, k, s, i, e), Settled(cat, d, p, e0.cluster, now);
    RenamedAt(g, img, img2, cat, cat2, d, p, View(e));
    if now == [] {
      ZeroIsNoChain(g, img2, cat2);
    }
    assert ChainOf(cat2, View(e)) == now;
    var names := NamesIn(g, img, cat, d);
    assert (names - {e0.name})[e0.name := View(e)] == names[e0.name := View(e)];
    WrittenKept(g, img1, img2, ChainOf(cat, e0), now, data, written);
  }

  lemma WrittenKept(g: Geometry, img: Image, img': Image, was: seq<nat>, now: seq<nat>, data: seq<byte>, written: nat)
    requires g.Valid() && Shape(g, img) && Shape(g, img') && InImage(img.clus, now)
    requires img'.fat == img.fat && Written(g, img, was, now, data, written)
    requires now != [] ==> SameBytes(img, img', now)
    ensures InImage(img'.clus, now) && Written(g, img', was, now, data, written)
  {
  }

  /** Setting a file's chain aside. */
  lemma Detach(g: Geometry, img: Image, cat: Catalog, e0: Ent)
    requires g.Valid() && Shape(g, img) && Consistent(g, img, cat, {}) && e0.Entry?
    requires if e0.cluster == 0 then e0.cluster !in cat.chains else e0.cluster in cat.chains
    ensures Holds(g, img, Others(cat, e0), ChainOf(cat, e0)) && |ChainOf(cat, e0)| <= MAX_CLUSTER_CHAIN
    ensures e0.cluster == FirstOf(ChainOf(cat, e0))
  {
    hide Partition, TreeOk, IsChain, Shape;
    Sizes(g, img);
    if e0.cluster == 0 {
      assert Others(cat, e0) == cat.chains;
      assert Elements([]) == {};
    } else {
      DirIsWalk(g, img, cat, {}, e0.cluster);
      Take(img.fat, g.Limit(), cat.chains, {}, e0.cluster);
      assert {} + Elements(cat.chains[e0.cluster]) == Elements(cat.chains[e0.cluster]);
    }
  }

  /** Freeing a file's chain is rewriting it to nothing. */
  lemma FreedIsRewritten(g: Geometry, img: Image, img1: Image, cat: Catalog, e0: Ent, data: seq<byte>)
    requires g.Valid() && Shape(g, img) && Shape(g, img1) && Consistent(g, img, cat, {}) && e0.Entry?
    requires if e0.cluster == 0 then e0.cluster !in cat.chains else e0.cluster in cat.chains
    requires ClustersNeeded(g, |data|) == 0
    requires img1 == if e0.cluster == 0 then img else img.(fat := FreeChain(img.fat, e0.cluster, MAX_CLUSTER_CHAIN))
    ensures Holds(g, img1, Others(cat, e0), []) && Rewritten(g, img, img1, ChainOf(cat, e0), [], data, 0)
  {
    hide Partition, TreeOk, IsChain, FreeChain, Shape, ClustersNeeded;
    ZeroIsNoChain(g, img, cat);
    FreeEntry(g, img, img1, cat, e0.cluster);
  }

  /** Writing a file's data leaves the directory it is listed in alone. */
  lemma SlotUndisturbed(g: Geometry, img: Image, img1: Image, cat: Catalog, d: nat, e0: Ent, now: seq<nat>,
                        data: seq<byte>, written: nat)
    requires g.Valid() && Shape(g, img) && Shape(g, img1) && Consistent(g, img, cat, {}) && d in cat.depth && e0.Entry?
    requires (e0.cluster in cat.chains || e0.cluster == 0) && e0.cluster != d
    requires Holds(g, img1, Others(cat, e0), now)
    requires Rewritten(g, img, img1, ChainOf(cat, e0), now, data, written)
    ensures InImage(img1.clus, cat.chains[d]) && InImage(img.clus, cat.chains[d])
    ensures DirEnts(img1, cat.chains[d]) == DirEnts(img, cat.chains[d])
    ensures forall k: nat :: k <= |cat.chains[d]| ==>
              Base(img1.clus, cat.chains[d], k) == Base(img.clus, cat.chains[d], k)
  {
    hide Partition, TreeOk, IsChain, Shape, Covered, Written, Flat;
    Sizes(g, img);
    Sizes(g, img1);
    OthersUntouched(g, img, img1, cat, e0, now, data, written);
    BytesKept(img, img1, Others(cat, e0), d);
    SameEnts(img, img1, cat.chains[d]);
    DirIsWalk(g, img, cat, {}, d);
    forall i | 0 <= i < |cat.chains[d]|
      ensures 2 <= cat.chains[d][i] < g.Limit()
    {
      IsInChain(g, img, cat.chains[d], i);
    }
    forall k: nat | k <= |cat.chains[d]|
      ensures Base(img1.clus, cat.chains[d], k) == Base(img.clus, cat.chains[d], k)
    {
      BaseIs(g, img, cat.chains[d], k);
      BaseIs(g, img1, cat.chains[d], k);
    }
  }

  lemma FirstFits(g: Geometry, img: Image, others: ChainMap, now: seq<nat>, data: seq<byte>, written: nat)
    requires g.Valid() && Shape(g, img) && Holds(g, img, others, now) && HoldsData(Flat(img.clus, now), data, written)
    ensures FirstOf(now) < 0x1_0000_0000 && written <= |data|
  {
    hide Partition;
  }

  // ---------------------------------------------------------------- creating a name

  lemma ListingMore(ents: seq<Ent>, more: seq<Ent>)
    requires NamesUnique(ents) && NamesUnique(ents + more) && AllUnused(more)
    ensures Listing(ents + more) == Listing(ents)
  {
    var all := ents + more;
    assert forall p :: 0 <= p < |ents| ==> all[p] == ents[p];
    assert forall p :: |ents| <= p < |all| ==> all[p] == more[p - |ents|];
    forall n: FatName
      ensures n in Listing(all) <==> n in Listing(ents)
      ensures n in Listing(all) ==> Listing(all)[n] == Listing(ents)[n]
    {
      ListingAt(ents, n);
      ListingAt(all, n);
      if p: nat :| NameAt(ents, p, n) {
        assert NameAt(all, p, n);
      }
      if p: nat :| NameAt(all, p, n) {
        assert NameAt(ents, p, n);
      }
    }
  }

  /** Reserving a slot changes no name. */
  lemma ReservedNames(g: Geometry, img: Image, img': Image, cat: Catalog, cat': Catalog, d: nat)
    requires g.Valid() && Shape(g, img) && Shape(g, img') && d in cat.depth && d in cat'.depth
    requires Consistent(g, img, cat, {}) && Consistent(g, img', cat', {}) && Reserved(img, img', cat, cat', d)
    ensures NamesIn(g, img', cat', d) == NamesIn(g, img, cat, d)
  {
    hide Partition, TreeOk, DirEnts, Listing, EndsClean, NamesUnique, Shape, IsChain, AllUnused;
    DirIsWalk(g, img, cat, {}, d);
    DirIsWalk(g, img', cat', {}, d);
    var ents, ents' := DirEnts(img, cat.chains[d]), DirEnts(img', cat'.chains[d]);
    assert ents' == ents + ents'[|ents|..];
    ListingMore(ents, ents'[|ents|..]);
  }

  /** The only entries changed are those of a directory's chain, which took nothing but free clusters. */
  ghost predicate FatGrown(fat: seq<nat>, fat': seq<nat>, dir: seq<nat>, dir': seq<nat>) {
    && |fat'| == |fat| && TookFree(fat, dir, dir')
    && forall x :: 0 <= x < |fat| && x !in dir' ==> fat'[x] == fat[x]
  }

  /** Filling a reserved slot with an empty file adds that name and changes nothing else. */
  lemma CreateFile(g: Geometry, img: Image, img1: Image, cat: Catalog, cat1: Catalog, d: nat, k: nat, s: nat, i: nat,
                   e: Slot)
    requires g.Valid() && Shape(g, img) && Shape(g, img1) && d in cat.depth && d in cat1.depth
    requires Consistent(g, img, cat, {}) && Consistent(g, img1, cat1, {}) && Reserved(img, img1, cat, cat1, d)
    requires k < |cat1.chains[d]| && s < g.sectorsPerCluster && i < SLOTS_PER_SECTOR
    requires FirstFree(DirEnts(img1, cat1.chains[d]), SlotPos(img1, cat1.chains[d], k, s, i))
    requires View(e).Entry? && !View(e).isDir && View(e).cluster == 0
    requires View(e).name !in NamesIn(g, img, cat, d)
    ensures 2 <= cat1.chains[d][k] < g.Limit()
    ensures var img2 := SlotPut(img1, cat1.chains[d], k, s, i, e);
      && Shape(g, img2) && Consistent(g, img2, cat1, {}) && InImage(img2.clus, cat1.chains[d])
      && NamesIn(g, img2, cat1, d) == NamesIn(g, img, cat, d)[View(e).name := View(e)]
      && NameAt(DirEnts(img2, cat1.chains[d]), SlotPos(img1, cat1.chains[d], k, s, i), View(e).name)
      && SlotPos(img2, cat1.chains[d], k, s, i) == SlotPos(img1, cat1.chains[d], k, s, i)
      && OthersKept(img, img2, cat, cat1, {d})
      && cat.chains[d] <= cat1.chains[d] && |cat1.chains[d]| <= |cat.chains[d]| + 1
      && FatGrown(img.fat, img2.fat, cat.chains[d], cat1.chains[d])
      && img2.top == img.top && img2.rest == img.rest
  {
    hide Partition, IsChain, DirEnts, TreeOk, View, Covered, Shape, PutSlot, Flat, Clean, Absent, AllUnused, NamesIn,
         NamesUnique;
    var ch := cat1.chains[d];
    var p := SlotPos(img1, ch, k, s, i);
    ReservedNames(g, img, img1, cat, cat1, d);
    FoundName(g, img1, cat1, d, View(e).name);
    assert Filled(cat1, d, p, View(e)) == cat1;
    FillStep(g, img1, cat1, {}, d, k, s, i, e);
    ClusterSize(g, img1, ch[k]);
    var img2 := SlotPut(img1, ch, k, s, i, e);
    RenamedAt(g, img1, img2, cat1, cat1, d, p, View(e));
    SamePlace(g, img1, img2, cat1, d, k);
    forall h | h in cat.chains && h !in {d}
      ensures h in cat1.chains && cat1.chains[h] == cat.chains[h] && SameBytes(img, img2, cat.chains[h])
    {
      assert SameBytes(img, img1, cat.chains[h]) && SameBytes(img1, img2, cat1.chains[h]);
    }
  }

  lemma SamePlace(g: Geometry, img: Image, img': Image, cat: Catalog, d: nat, k: nat)
    requires g.Valid() && Shape(g, img) && Shape(g, img') && Consistent(g, img, cat, {}) && d in cat.depth
    requires k <= |cat.chains[d]|
    ensures InImage(img.clus, cat.chains[d]) && InImage(img'.clus, cat.chains[d])
    ensures Base(img'.clus, cat.chains[d], k) == Base(img.clus, cat.chains[d], k)
  {
    hide Partition, TreeOk, IsChain, Shape, Flat, DirEnts;
    DirIsWalk(g, img, cat, {}, d);
    forall i | 0 <= i < |cat.chains[d]|
      ensures 2 <= cat.chains[d][i] < g.Limit()
    {
      IsInChain(g, img, cat.chains[d], i);
    }
    BaseIs(g, img, cat.chains[d], k);
    BaseIs(g, img', cat.chains[d], k);
  }

  // ----------------------------------------------------------------- writing a file

  ghost function OldChain(g: Geometry, img: Image, cat: Catalog, d: nat, n: FatName): seq<nat>
    requires g.Valid() && Shape(g, img) && Consistent(g, img, cat, {}) && d in cat.depth
  {
    if n in NamesIn(g, img, cat, d) then ChainOf(cat, NamesIn(g, img, cat, d)[n]) else []
  }

  /** A FAT in which the chain `was` became `now` and a directory's chain `dir` may have become `dir'`. */
  ghost predicate FatRewritten(fat: seq<nat>, fat': seq<nat>, was: seq<nat>, now: seq<nat>, dir: seq<nat>,
                               dir': seq<nat>)
  {
    && |fat'| == |fat| && TookFree(fat, was, now) && TookFree(fat, dir, dir')
    && forall x :: 0 <= x < |fat| && x !in now && x !in dir' ==> fat'[x] == if x in was then 0 else fat[x]
  }

  /**
   What a write does to the volume: name n now stands for a chain holding the data written, all other
   files and directories keep every cluster and byte, and the directory gained at most one cluster.
   */
  ghost predicate FileWritten(g: Geometry, img: Image, img': Image, cat: Catalog, cat': Catalog, d: nat, n: FatName,
                              data: seq<byte>, written: nat)
    requires g.Valid() && Shape(g, img) && Shape(g, img') && d in cat.depth && d in cat'.depth
    requires Consistent(g, img, cat, {}) && Consistent(g, img', cat', {})
  {
    var was, now := OldChain(g, img, cat, d, n), OldChain(g, img', cat', d, n);
    && NamesIn(g, img', cat', d) == NamesIn(g, img, cat, d)[n := Entry(n, false, FirstOf(now), written)]
    && InImage(img'.clus, now) && Written(g, img', was, now, data, written)
    && OthersKept(img, img', cat, cat', {FirstOf(was), d})
    && cat.chains[d] <= cat'.chains[d] && |cat'.chains[d]| <= |cat.chains[d]| + 1
    && FatRewritten(img.fat, img'.fat, was, now, cat.chains[d], cat'.chains[d])
    && img'.top == img.top && img'.rest == img.rest
  }

  lemma WrittenFits(g: Geometry, img: Image, img': Image, cat: Catalog, cat': Catalog, d: nat, n: FatName,
                    data: seq<byte>, written: nat)
    requires g.Valid() && Shape(g, img) && Shape(g, img') && d in cat.depth && d in cat'.depth
    requires Consistent(g, img, cat, {}) && Consistent(g, img', cat', {})
    requires FileWritten(g, img, img', cat, cat', d, n, data, written)
    ensures written <= |data|
  {
    hide Consistent, NamesIn, OthersKept, FatRewritten, Flat;
  }

  lemma KeptTwice(img: Image, img1: Image, img2: Image, cat: Catalog, cat1: Catalog, cat2: Catalog, a: set<nat>,
                  b: set<nat>)
    requires OthersKept(img, img1, cat, cat1, a) && OthersKept(img1, img2, cat1, cat2, b) && a <= b
    ensures OthersKept(img, img2, cat, cat2, b)
  {
    hide Flat, InImage;
    forall h | h in cat.chains && h !in b
      ensures h in cat2.chains && cat2.chains[h] == cat.chains[h] && SameBytes(img, img2, cat.chains[h])
    {
      assert SameBytes(img, img1, cat.chains[h]) && SameBytes(img1, img2, cat1.chains[h]);
    }
  }

  /** Opening and then writing add up to the effect of the whole call. */
  lemma WriteEffect(g: Geometry, img: Image, img1: Image, img2: Image, cat: Catalog, cat1: Catalog, cat2: Catalog,
                    d: nat, n: FatName, now: seq<nat>, data: seq<byte>, written: nat)
    requires g.Valid() && Shape(g, img) && Shape(g, img1) && Shape(g, img2)
    requires d in cat.depth && d in cat1.depth && d in cat2.depth
    requires Consistent(g, img, cat, {}) && Consistent(g, img1, cat1, {}) && Consistent(g, img2, cat2, {})
    requires n in NamesIn(g, img1, cat1, d) && n in NamesIn(g, img2, cat2, d)
    requires if n in NamesIn(g, img, cat, d) then img1 == img && cat1 == cat
             else NamesIn(g, img1, cat1, d) == NamesIn(g, img, cat, d)[n := Entry(n, false, 0, 0)]
                  && OthersKept(img, img1, cat, cat1, {d})
    requires cat.chains[d] <= cat1.chains[d] && |cat1.chains[d]| <= |cat.chains[d]| + 1
    requires FatGrown(img.fat, img1.fat, cat.chains[d], cat1.chains[d])
    requires cat2.chains[d] == cat1.chains[d]
    requires NamesIn(g, img2, cat2, d) == NamesIn(g, img1, cat1, d)[n := Entry(n, false, FirstOf(now), written)]
    requires ChainOf(cat2, NamesIn(g, img2, cat2, d)[n]) == now && InImage(img2.clus, now)
    requires NamesIn(g, img1, cat1, d)[n].Entry?
    requires Written(g, img2, ChainOf(cat1, NamesIn(g, img1, cat1, d)[n]), now, data, written)
    requires Relinked(img1.fat, img2.fat, ChainOf(cat1, NamesIn(g, img1, cat1, d)[n]), now)
    requires OthersKept(img1, img2, cat1, cat2, {NamesIn(g, img1, cat1, d)[n].cluster, d})
    requires img1.top == img.top && img1.rest == img.rest && img2.top == img1.top && img2.rest == img1.rest
    ensures FileWritten(g, img, img2, cat, cat2, d, n, data, written)
  {
    hide Partition, TreeOk, DirEnts, Shape, NamesIn, Written, Flat, SameBytes, InImage, OthersKept;
    var e1 := NamesIn(g, img1, cat1, d)[n];
    var was := ChainOf(cat1, e1);
    ZeroIsNoChain(g, img1, cat1);
    ListedChain(g, img1, cat1, d, n);
    if n !in NamesIn(g, img, cat, d) {
      KeptTwice(img, img1, img2, cat, cat1, cat2, {d}, {e1.cluster, d});
    }
    assert OldChain(g, img, cat, d, n) == was;
    DirNotFree(g, img1, cat1, d);
    assert OthersKept(img, img2, cat, cat2, {FirstOf(was), d});
  }

  lemma DirNotFree(g: Geometry, img: Image, cat: Catalog, d: nat)
    requires g.Valid() && Shape(g, img) && Consistent(g, img, cat, {}) && d in cat.chains
    ensures forall x :: x in cat.chains[d] ==> x < |img.fat| && img.fat[x] != 0
  {
    hide Partition, TreeOk, Shape, IsChain;
    Sizes(g, img);
    DirIsWalk(g, img, cat, {}, d);
    forall x | x in cat.chains[d]
      ensures x < |img.fat| && img.fat[x] != 0
    {
      ChainRange(img.fat, g.Limit(), cat.chains[d], x);
    }
  }

  lemma InChains(g: Geometry, img: Image, cat: Catalog, d: nat)
    requires g.Valid() && Shape(g, img) && Consistent(g, img, cat, {}) && d in cat.depth
    ensures d in cat.chains
  {
  }

  /** A listed name's entry points to its chain's first cluster. */
  lemma ListedChain(g: Geometry, img: Image, cat: Catalog, d: nat, n: FatName)
    requires g.Valid() && Shape(g, img) && Consistent(g, img, cat, {}) && d in cat.depth
    requires n in NamesIn(g, img, cat, d)
    ensures var e := NamesIn(g, img, cat, d)[n]; e.Entry? && e.name == n && FirstOf(ChainOf(cat, e)) == e.cluster
    ensures var e := NamesIn(g, img, cat, d)[n]; e.cluster != d && (e.isDir <==> e.cluster in cat.depth)
    ensures var e := NamesIn(g, img, cat, d)[n]; e.cluster == 0 || e.cluster in cat.chains
  {
    hide Partition, TreeOk, DirEnts, Shape, NamesIn, NamesUnique, EndsClean, IsChain;
    FoundName(g, img, cat, d, n);
    var ents := DirEnts(img, cat.chains[d]);
    var p: nat :| NameAt(ents, p, n);
    EntryChain(g, img, cat, d, p);
    if ents[p].cluster != 0 {
      DirIsWalk(g, img, cat, {}, ents[p].cluster);
    }
  }

  // ------------------------------------------------------------- making a directory

  /** A cluster claimed and filled, but owned by nothing yet: everything else is as it was. */
  lemma SeedStep(g: Geometry, img: Image, img1: Image, cat: Catalog, n: nat)
    requires g.Valid() && Shape(g, img) && Shape(g, img1) && Consistent(g, img, cat, {})
    requires 2 <= n < g.Limit() && img.fat[n] == 0 && img1.fat == img.fat[n := EOC_MARK]
    requires forall x :: 0 <= x < |img.clus| && x != n ==> img1.clus[x] == img.clus[x]
    ensures Consistent(g, img1, cat, {n}) && n !in cat.chains
    ensures forall h :: h in cat.chains ==> SameBytes(img, img1, cat.chains[h])
  {
    hide Partition, TreeOk, Covered, Shape, Flat, IsChain;
    Sizes(g, img);
    Sizes(g, img1);
    Parts(img.fat, g.Limit(), cat.chains, {});
    FreeIsUncovered(img.fat, g.Limit(), cat.chains, n);
    if n in cat.chains {
      KeyIsCovered(cat.chains, n);
    }
    Relink(img.fat, img1.fat, g.Limit(), cat.chains, {}, {n});
    TreeKept(g, img, img1, cat, {}, {n});
  }

  /** The slots of a new directory's first sector. */
  ghost predicate Seeded(buf: Sector, self: nat, parent: nat) {
    && View(SlotAt(buf, 0)) == Dot(true, self)
    && View(SlotAt(buf, 1)) == DotDot(true, parent)
    && forall i :: 2 <= i < SLOTS_PER_SECTOR ==> View(SlotAt(buf, i)) == Unused
  }

  lemma SeededDir(img: Image, n: nat, len: nat, buf: Sector, self: nat, parent: nat, root: nat)
    requires n < |img.clus| && 0 < len && img.clus[n] == SetSector(Zeros(len), 0, buf)
    requires Seeded(buf, self, if parent == root then 0 else parent)
    ensures InImage(img.clus, [n])
    ensures var sub := DirEnts(img, [n]); Clean(sub) && NoEntries(sub) && Dotted(sub, self, parent, root)
  {
    hide View, SlotAt, Flat;
    FlatOne(img.clus, n);
    var secs, sub := img.clus[n], DirEnts(img, [n]);
    assert |sub| == len * SLOTS_PER_SECTOR;
    forall p | 0 <= p < |sub|
      ensures sub[p] == View(SlotAt(secs[p / SLOTS_PER_SECTOR], p % SLOTS_PER_SECTOR))
      ensures p >= 2 ==> sub[p] == Unused
    {
      if p >= SLOTS_PER_SECTOR {
        ZeroSlot(p % SLOTS_PER_SECTOR);
      }
    }
    assert sub[0] == View(SlotAt(buf, 0)) && sub[1] == View(SlotAt(buf, 1));
  }

  lemma ZeroSlot(i: nat)
    requires i < SLOTS_PER_SECTOR
    ensures View(SlotAt(ZERO_SECTOR, i)) == Unused
  {
  }

  /** What making a directory does: one new name, one new chain of one cluster, everything else kept. */
  ghost predicate DirMade(g: Geometry, img: Image, img': Image, cat: Catalog, cat': Catalog, d: nat, n: FatName)
    requires g.Valid() && Shape(g, img) && Shape(g, img') && d in cat.depth && d in cat'.depth
    requires Consistent(g, img, cat, {}) && Consistent(g, img', cat', {})
  {
    && n in NamesIn(g, img', cat', d)
    && var h := NamesIn(g, img', cat', d)[n].cluster;
    && NamesIn(g, img', cat', d) == NamesIn(g, img, cat, d)[n := Entry(n, true, h, 0)]
    && h !in cat.chains && h in cat'.chains && cat'.chains[h] == [h] && h in cat'.depth
    && NamesIn(g, img', cat', h) == map[]
    && OthersKept(img, img', cat, cat', {d})
    && cat.chains[d] <= cat'.chains[d] && |cat'.chains[d]| <= |cat.chains[d]| + 1
    && FatRewritten(img.fat, img'.fat, [], [h], cat.chains[d], cat'.chains[d])
    && img'.top == img.top && img'.rest == img.rest
  }

  /** Cluster h holds a directory with nothing in it but "." and "..". */
  ghost predicate EmptyDirAt(img: Image, h: nat, parent: nat, root: nat) {
    && h < |img.clus|
    && InImage(img.clus, [h])
    && Clean(DirEnts(img, [h])) && NoEntries(DirEnts(img, [h])) && Dotted(DirEnts(img, [h]), h, parent, root)
  }

  /** The directory listing after a slot was reserved and filled on top of a seeded cluster. */
  lemma AddedName(g: Geometry, img: Image, img1: Image, img2: Image, img3: Image, cat: Catalog, cat1: Catalog,
                  cat3: Catalog, d: nat, p: nat, e1: Ent, h: nat)
    requires g.Valid() && Shape(g, img) && Shape(g, img1) && Shape(g, img2) && Shape(g, img3)
    requires Consistent(g, img, cat, {}) && Consistent(g, img1, cat, {h}) && Consistent(g, img2, cat1, {h})
    requires Consistent(g, img3, cat3, {}) && d in cat.depth && d in cat1.depth && d in cat3.depth
    requires SameBytes(img, img1, cat.chains[d]) && Reserved(img1, img2, cat, cat1, d)
    requires p < |DirEnts(img2, cat1.chains[d])| && DirEnts(img2, cat1.chains[d])[p].Free() && e1.Entry?
    requires DirEnts(img3, cat3.chains[d]) == DirEnts(img2, cat1.chains[d])[p := e1]
    ensures NamesIn(g, img3, cat3, d) == NamesIn(g, img, cat, d)[e1.name := e1]
    ensures Absent(DirEnts(img2, cat1.chains[d]), e1.name) <==> e1.name !in NamesIn(g, img, cat, d)
  {
    hide Partition, TreeOk, DirEnts, Listing, EndsClean, NamesUnique, Shape, IsChain, AllUnused, Absent;
    DirIsWalk(g, img, cat, {}, d);
    DirIsWalk(g, img1, cat, {h}, d);
    DirIsWalk(g, img2, cat1, {h}, d);
    DirIsWalk(g, img3, cat3, {}, d);
    SameEnts(img, img1, cat.chains[d]);
    var ents, ents' := DirEnts(img, cat.chains[d]), DirEnts(img2, cat1.chains[d]);
    assert ents' == ents + ents'[|ents|..];
    ListingMore(ents, ents'[|ents|..]);
    ListingPut(ents', p, e1);
    ListingAt(ents', e1.name);
  }

  lemma AbsentAfter(g: Geometry, img: Image, img1: Image, img2: Image, cat: Catalog, cat1: Catalog, d: nat, h: nat,
                    n: FatName)
    requires g.Valid() && Shape(g, img) && Shape(g, img1) && Shape(g, img2)
    requires Consistent(g, img, cat, {}) && Consistent(g, img1, cat, {h}) && Consistent(g, img2, cat1, {h})
    requires d in cat.depth && d in cat1.depth
    requires SameBytes(img, img1, cat.chains[d]) && Reserved(img1, img2, cat, cat1, d) && n !in NamesIn(g, img, cat, d)
    ensures Absent(DirEnts(img2, cat1.chains[d]), n)
  {
    hide Partition, TreeOk, DirEnts, Listing, EndsClean, NamesUnique, Shape, IsChain, AllUnused, Absent;
    DirIsWalk(g, img, cat, {}, d);
    DirIsWalk(g, img1, cat, {h}, d);
    DirIsWalk(g, img2, cat1, {h}, d);
    SameEnts(img, img1, cat.chains[d]);
    var ents, ents' := DirEnts(img, cat.chains[d]), DirEnts(img2, cat1.chains[d]);
    assert ents' == ents + ents'[|ents|..];
    ListingMore(ents, ents'[|ents|..]);
    ListingAt(ents', n);
  }

  /** A directory is seeded at cluster h and a slot of d reserved for it: only its entry is missing. */
  ghost predicate ReadyToAdd(g: Geometry, img: Image, img1: Image, img2: Image, cat: Catalog, cat1: Catalog, d: nat,
                             k: nat, lba: nat, index: nat, n: FatName, h: nat)
    requires g.Valid() && Shape(g, img) && Shape(g, img1) && Shape(g, img2)
  {
    && Consistent(g, img, cat, {}) && Consistent(g, img1, cat, {h}) && Consistent(g, img2, cat1, {h})
    && d in cat.depth && d in cat1.depth && n !in NamesIn(g, img, cat, d)
    && (forall x :: x in cat.chains ==> SameBytes(img, img1, cat.chains[x]))
    && 2 <= h < g.Limit() && h !in cat.chains && h < |img.fat| && h < |img2.fat| && h < |img1.clus| == |img2.clus|
    && img.fat[h] == 0 && img1.fat == img.fat[h := EOC_MARK] && img2.fat[h] == EOC_MARK
    && img1.top == img.top && img1.rest == img.rest && img2.clus[h] == img1.clus[h]
    && EmptyDirAt(img1, h, d, g.root) && Reserved(img1, img2, cat, cat1, d)
    && var ch := cat1.chains[d];
    && InImage(img2.clus, ch) && Within(g, ch, k, lba, index)
    && FirstFree(DirEnts(img2, ch), PlaceOf(g, img2, ch, k, lba, index))
  }

  /** A directory was made, and no other appeared. */
  ghost predicate DirAdded(g: Geometry, img: Image, img': Image, cat: Catalog, cat': Catalog, d: nat, n: FatName)
    requires g.Valid() && Shape(g, img) && Shape(g, img')
  {
    && Consistent(g, img, cat, {}) && Consistent(g, img', cat', {}) && d in cat.depth && d in cat'.depth
    && DirMade(g, img, img', cat, cat', d, n)
    && forall x :: x in cat'.depth && x !in cat.depth ==> cat'.chains[x] == [x]
  }

  lemma MakeDir(g: Geometry, img: Image, img1: Image, img2: Image, cat: Catalog, cat1: Catalog, d: nat, k: nat, s: nat,
                i: nat, e: Slot, h: nat)
    requires g.Valid() && Shape(g, img) && Shape(g, img1) && Shape(g, img2) && d in cat.depth && d in cat1.depth
    requires Consistent(g, img, cat, {}) && Consistent(g, img1, cat, {h}) && Consistent(g, img2, cat1, {h})
    requires forall x :: x in cat.chains ==> SameBytes(img, img1, cat.chains[x])
    requires 2 <= h < g.Limit() && h !in cat.chains && img.fat[h] == 0 && img1.fat == img.fat[h := EOC_MARK]
    requires img1.top == img.top && img1.rest == img.rest
    requires Reserved(img1, img2, cat, cat1, d) && img2.fat[h] == EOC_MARK && EmptyDirAt(img2, h, d, g.root)
    requires k < |cat1.chains[d]| && cat1.chains[d][k] < |img2.clus| && s < |img2.clus[cat1.chains[d][k]]|
    requires s < g.sectorsPerCluster && i < SLOTS_PER_SECTOR && InImage(img2.clus, cat1.chains[d])
    requires FirstFree(DirEnts(img2, cat1.chains[d]), SlotPos(img2, cat1.chains[d], k, s, i))
    requires View(e).Entry? && View(e).isDir && View(e).cluster == h && View(e).size == 0
    requires View(e).name !in NamesIn(g, img, cat, d)
    ensures var img3 := SlotPut(img2, cat1.chains[d], k, s, i, e);
      var cat3 := WithDir(cat1, d, SlotPos(img2, cat1.chains[d], k, s, i), h);
      Shape(g, img3) && Consistent(g, img3, cat3, {}) && d in cat3.depth
      && DirMade(g, img, img3, cat, cat3, d, View(e).name)
  {
    hide Partition, IsChain, DirEnts, TreeOk, View, Covered, Shape, PutSlot, Flat, Clean, Absent, AllUnused, NamesIn,
         NamesUnique, NoEntries, Dotted, SameBytes, OthersKept, FatRewritten, InImage, EmptyDirAt, FirstFree;
    var ch := cat1.chains[d];
    var p := SlotPos(img2, ch, k, s, i);
    Sizes(g, img);
    AbsentAfter(g, img, img1, img2, cat, cat1, d, h, View(e).name);
    FillDir(g, img2, cat1, d, k, s, i, e, h);
    var img3, cat3 := SlotPut(img2, ch, k, s, i, e), WithDir(cat1, d, p, h);
    AddedName(g, img, img1, img2, img3, cat, cat1, cat3, d, p, View(e), h);
    MadeEmpty(g, img2, img3, cat3, d, h);
    MadeKept(img, img1, img2, img3, cat, cat1, cat3, d, h);
    assert View(e) == Entry(View(e).name, true, h, 0);
  }

  lemma MadeEmpty(g: Geometry, img2: Image, img3: Image, cat3: Catalog, d: nat, h: nat)
    requires g.Valid() && Shape(g, img3) && Consistent(g, img3, cat3, {})
    requires h in cat3.depth && cat3.chains[h] == [h] && EmptyDirAt(img2, h, d, g.root) && SameBytes(img2, img3, [h])
    ensures NamesIn(g, img3, cat3, h) == map[]
  {
    hide Partition, TreeOk, DirEnts, Shape, NamesIn, Clean, NoEntries, Dotted;
    SameEnts(img2, img3, [h]);
    EmptyDir(g, img3, cat3, h);
  }

  lemma MadeKept(img: Image, img1: Image, img2: Image, img3: Image, cat: Catalog, cat1: Catalog, cat3: Catalog, d: nat,
                 h: nat)
    requires InRange(img1, cat) && InRange(img2, cat1) && d in cat.depth && Reserved(img1, img2, cat, cat1, d)
    requires forall x :: x in cat.chains ==> SameBytes(img, img1, cat.chains[x])
    requires forall x :: x in cat1.chains && x != d ==> SameBytes(img2, img3, cat1.chains[x])
    requires cat3.chains == cat1.chains[h := [h]] && h !in cat.chains && h < |img.fat| && img.fat[h] == 0
    requires img1.fat == img.fat[h := EOC_MARK] && img3.fat == img2.fat
    ensures OthersKept(img, img3, cat, cat3, {d})
            && FatRewritten(img.fat, img3.fat, [], [h], cat.chains[d], cat3.chains[d])
    ensures cat.chains[d] <= cat3.chains[d] && |cat3.chains[d]| <= |cat.chains[d]| + 1
  {
    hide Flat, DirEnts, AllUnused, InImage;
    forall x | x in cat.chains && x !in {d}
      ensures x in cat3.chains && cat3.chains[x] == cat.chains[x] && SameBytes(img, img3, cat.chains[x])
    {
      assert SameBytes(img, img1, cat.chains[x]) && SameBytes(img1, img2, cat.chains[x]);
      assert SameBytes(img2, img3, cat1.chains[x]);
    }
  }

  /** Filling a slot with the entry of a seeded directory. */
  lemma FillDir(g: Geometry, img2: Image, cat1: Catalog, d: nat, k: nat, s: nat, i: nat, e: Slot, h: nat)
    requires g.Valid() && Shape(g, img2) && d in cat1.depth && Consistent(g, img2, cat1, {h})
    requires 2 <= h < g.Limit() && img2.fat[h] == EOC_MARK && EmptyDirAt(img2, h, d, g.root)
    requires k < |cat1.chains[d]| && cat1.chains[d][k] < |img2.clus| && s < |img2.clus[cat1.chains[d][k]]|
    requires s < g.sectorsPerCluster && i < SLOTS_PER_SECTOR && InImage(img2.clus, cat1.chains[d])
    requires FirstFree(DirEnts(img2, cat1.chains[d]), SlotPos(img2, cat1.chains[d], k, s, i))
    requires View(e).Entry? && View(e).isDir && View(e).cluster == h
    requires Absent(DirEnts(img2, cat1.chains[d]), View(e).name)
    ensures var ch, p := cat1.chains[d], SlotPos(img2, cat1.chains[d], k, s, i);
      var img3, cat3 := SlotPut(img2, ch, k, s, i, e), WithDir(cat1, d, p, h);
      && Shape(g, img3) && Consistent(g, img3, cat3, {}) && cat3.chains[d] == ch
      && p < |DirEnts(img2, ch)| && DirEnts(img2, ch)[p].Free() && InImage(img3.clus, ch)
      && DirEnts(img3, ch) == DirEnts(img2, ch)[p := View(e)]
      && (forall x :: x in cat1.chains && x != d ==> SameBytes(img2, img3, cat1.chains[x]))
      && SameBytes(img2, img3, [h])
  {
    hide Partition, IsChain, DirEnts, TreeOk, View, Shape, PutSlot, SlotPos, Clean, Absent, NoEntries, Dotted, Flat,
         SameBytes, InImage;
    LoneChain(g, img2, h);
    Sizes(g, img2);
    FillStep(g, img2, cat1, {h}, d, k, s, i, e);
  }

  /** Stamping "." and ".." into a zeroed sector seeds a directory. */
  lemma SeededSector(buf: Sector, self: nat, parent: nat)
    requires self < 0x1_0000_0000 && parent < 0x1_0000_0000
    requires var one := PutSlot(ZERO_SECTOR, 0, Stamped(SlotAt(ZERO_SECTOR, 0), DOT_NAME, ATTR_DIRECTORY, self));
      buf == PutSlot(one, 1, Stamped(SlotAt(one, 1), DOT_DOT_NAME, ATTR_DIRECTORY, parent))
    ensures Seeded(buf, self, parent)
  {
    hide Stamped, View, SlotAt, PutSlot;
    var one := PutSlot(ZERO_SECTOR, 0, Stamped(SlotAt(ZERO_SECTOR, 0), DOT_NAME, ATTR_DIRECTORY, self));
    DotViews(SlotAt(ZERO_SECTOR, 0), self);
    DotViews(SlotAt(one, 1), parent);
    forall i | 2 <= i < SLOTS_PER_SECTOR
      ensures View(SlotAt(buf, i)) == Unused
    {
      ZeroSlot(i);
    }
  }

  lemma EmptyDirKept(img: Image, img': Image, h: nat, parent: nat, root: nat)
    requires EmptyDirAt(img, h, parent, root) && |img'.clus| == |img.clus| && img'.clus[h] == img.clus[h]
    ensures EmptyDirAt(img', h, parent, root)
  {
    FlatOne(img.clus, h);
    FlatOne(img'.clus, h);
    hide Clean, NoEntries, Dotted, Flat, Slots, Ents;
  }

  /** The sector a reserved slot lies in exists. */
  lemma PlaceFits(g: Geometry, img: Image, cat: Catalog, extra: set<nat>, d: nat, k: nat)
    requires g.Valid() && Shape(g, img) && Consistent(g, img, cat, extra) && d in cat.depth && k < |cat.chains[d]|
    ensures InImage(img.clus, cat.chains[d])
    ensures 2 <= cat.chains[d][k] < |img.clus| && |img.clus[cat.chains[d][k]]| == g.sectorsPerCluster
  {
    hide Partition, TreeOk, IsChain, Shape;
    DirIsWalk(g, img, cat, extra, d);
    IsInChain(g, img, cat.chains[d], k);
    ClusterSize(g, img, cat.chains[d][k]);
  }

  lemma KeptSelf(img: Image, cat: Catalog)
    requires InRange(img, cat)
    ensures OthersKept(img, img, cat, cat, {})
    ensures forall h :: h in cat.chains ==> SameBytes(img, img, cat.chains[h])
  {
    hide Flat;
  }

  lemma KeptAll(img: Image, img': Image, cat: Catalog)
    requires forall h :: h in cat.chains ==> SameBytes(img, img', cat.chains[h])
    ensures OthersKept(img, img', cat, cat, {})
  {
    hide Flat, SameBytes;
  }

  /** Giving a seeded cluster back leaves every link of the FAT as it was. */
  lemma UnseedStep(g: Geometry, img: Image, img1: Image, img2: Image, cat: Catalog, n: nat)
    requires g.Valid() && Shape(g, img) && Shape(g, img1) && Shape(g, img2) && Consistent(g, img, cat, {})
    requires 2 <= n < g.Limit() && img.fat[n] == 0 && img1.fat == img.fat[n := EOC_MARK]
    requires forall h :: h in cat.chains ==> SameBytes(img, img1, cat.chains[h])
    requires img2 == img1.(fat := FreeChain(img1.fat, n, MAX_CLUSTER_CHAIN))
    ensures img2.fat == img.fat && Consistent(g, img2, cat, {})
    ensures forall h :: h in cat.chains ==> SameBytes(img, img2, cat.chains[h])
  {
    hide Partition, TreeOk, Shape, Flat, IsChain;
    Sizes(g, img);
    Sizes(g, img1);
    FreeOne(img1.fat, n);
    assert img2.fat == img.fat;
    forall h | h in cat.chains
      ensures SameBytes(img, img2, cat.chains[h])
    {
      assert SameBytes(img, img1, cat.chains[h]);
    }
    SameDirs(img, img2, cat);
  }

  lemma FreeOne(fat: seq<nat>, n: nat)
    requires 2 <= n < |fat| && n < EOC_MIN && fat[n] >= EOC_MIN
    ensures FreeChain(fat, n, MAX_CLUSTER_CHAIN) == fat[n := 0]
  {
    assert FreeChain(fat[n := 0], fat[n], MAX_CLUSTER_CHAIN - 1) == fat[n := 0];
  }

  lemma ClusterInFat(g: Geometry, img: Image, c: nat)
    requires g.Valid() && Shape(g, img) && LowestFree(img.fat, g.Limit(), c)
    ensures c < |img.fat| && (c != 0 ==> 2 <= c < g.Limit() && img.fat[c] == 0)
  {
  }

  lemma LowestUnique(fat: seq<nat>, limit: nat, a: nat, b: nat)
    requires limit <= |fat| && LowestFree(fat, limit, a) && LowestFree(fat, limit, b)
    ensures a == b
  {
  }

  /** A cluster for the new directory, and, if its parent has no free slot, none after it. */
  ghost predicate NoRoomFor(g: Geometry, img: Image, cat: Catalog, d: nat, c: nat)
    requires g.Valid() && Shape(g, img) && Consistent(g, img, cat, {}) && d in cat.depth && c < |img.fat|
  {
    c == 0 || (LowestFree(img.fat[c := EOC_MARK], g.Limit(), 0)
               && forall q :: 0 <= q < |DirEnts(img, cat.chains[d])| ==> !DirEnts(img, cat.chains[d])[q].Free())
  }

  /** No cluster for the new directory, or none left after it for a full parent to grow into. */
  ghost predicate NoRoomForDir(g: Geometry, img: Image, cat: Catalog, d: nat)
    requires g.Valid() && Shape(g, img) && Consistent(g, img, cat, {}) && d in cat.depth
  {
    exists c: nat :: c < |img.fat| && LowestFree(img.fat, g.Limit(), c) && NoRoomFor(g, img, cat, d, c)
  }

  lemma RoomIs(g: Geometry, img: Image, cat: Catalog, d: nat, c: nat)
    requires g.Valid() && Shape(g, img) && Consistent(g, img, cat, {}) && d in cat.depth
    requires LowestFree(img.fat, g.Limit(), c) && c < |img.fat|
    ensures NoRoomForDir(g, img, cat, d) <==> NoRoomFor(g, img, cat, d, c)
  {
    hide Partition, TreeOk, DirEnts, Shape, NoRoomFor, LowestFree;
    Sizes(g, img);
    forall b: nat | b < |img.fat| && LowestFree(img.fat, g.Limit(), b)
      ensures b == c
    {
      LowestUnique(img.fat, g.Limit(), b, c);
    }
  }

  /** The chain of a listed name can be walked from its first cluster. */
  lemma ChainWalks(g: Geometry, img: Image, cat: Catalog, d: nat, n: FatName)
    requires g.Valid() && Shape(g, img) && Consistent(g, img, cat, {}) && d in cat.depth
    requires n in NamesIn(g, img, cat, d)
    ensures var ch := ChainOf(cat, NamesIn(g, img, cat, d)[n]);
      && InImage(img.clus, ch) && |ch| <= MAX_CLUSTER_CHAIN
      && (ch != [] ==>
             g.Limit() <= BAD_MARK && IsChain(img.fat, g.Limit(), ch) && ch[0] == NamesIn(g, img, cat, d)[n].cluster)
      && (ch == [] <==> NamesIn(g, img, cat, d)[n].cluster == 0)
  {
    hide Partition, TreeOk, DirEnts, Shape, NamesIn, IsChain;
    ListedChain(g, img, cat, d, n);
    ZeroIsNoChain(g, img, cat);
    var h := NamesIn(g, img, cat, d)[n].cluster;
    if h != 0 {
      DirIsWalk(g, img, cat, {}, h);
    }
  }

  /** A directory lies one level below the one that lists it. */
  lemma OneDeeper(g: Geometry, img: Image, cat: Catalog, d: nat, p: nat)
    requires g.Valid() && Shape(g, img) && Consistent(g, img, cat, {}) && d in cat.depth
    requires p < |DirEnts(img, cat.chains[d])| && DirEnts(img, cat.chains[d])[p].Entry?
    requires DirEnts(img, cat.chains[d])[p].isDir
    ensures DirEnts(img, cat.chains[d])[p].cluster in cat.depth
    ensures cat.depth[DirEnts(img, cat.chains[d])[p].cluster] == cat.depth[d] + 1
  {
    hide Partition, DirEnts, Shape, AllOwned, AllDotted, Clean;
    var t := TreeOf(img, g.root, cat);
    assert EntryOwns(t.dirs[d][p], d, p, t);
  }

  /** The sectors of the file or directory a name stands for. */
  ghost function SectorsOf(g: Geometry, img: Image, cat: Catalog, d: nat, n: FatName): seq<Sector>
    requires g.Valid() && Shape(g, img) && Consistent(g, img, cat, {}) && d in cat.depth
    requires n in NamesIn(g, img, cat, d)
  {
    ChainWalks(g, img, cat, d, n);
    Flat(img.clus, ChainOf(cat, NamesIn(g, img, cat, d)[n]))
  }
}
