/**
 The state a FAT32 volume stands for: its chains, its directory tree, and the invariant that ties
 the two to the image; and how single steps on the image move that state.
 */
module FsState {
  import opened FatLayout
  import opened Volumes
  import opened Chains
  import opened ChainData
  import opened DirEntries
  import opened DirTree
  import opened DirScan
  import opened FileData

  /** The chains in use, the slot owning each, and how deep each directory lies. */
  datatype Catalog = Catalog(chains: ChainMap, owner: Owners, depth: map<nat, nat>)

  ghost predicate InRange(img: Image, cat: Catalog) {
    && cat.depth.Keys <= cat.chains.Keys
    && forall h :: h in cat.chains ==> InImage(img.clus, cat.chains[h])
  }

  ghost function DirsOf(img: Image, cat: Catalog): Dirs
    requires InRange(img, cat)
  {
    map d | d in cat.depth :: DirEnts(img, cat.chains[d])
  }

  ghost function TreeOf(img: Image, root: nat, cat: Catalog): Tree
    requires InRange(img, cat)
  {
    Tree(root, cat.chains.Keys, DirsOf(img, cat), cat.owner, cat.depth)
  }

  /** The clusters in use are partitioned into the chains and `extra`, and the tree is well formed. */
  ghost predicate Consistent(g: Geometry, img: Image, cat: Catalog, extra: set<nat>)
    requires g.Valid() && Shape(g, img)
  {
    && Partition(img.fat, g.Limit(), cat.chains, extra)
    && InRange(img, cat)
    && TreeOk(TreeOf(img, g.root, cat))
  }

  ghost predicate SameBytes(img: Image, img': Image, ch: seq<nat>) {
    && InImage(img.clus, ch) && InImage(img'.clus, ch)
    && Flat(img'.clus, ch) == Flat(img.clus, ch)
  }

  /** Every chain but the excepted ones is the same, byte for byte. */
  ghost predicate OthersKept(img: Image, img': Image, cat: Catalog, cat': Catalog, except: set<nat>) {
    forall h :: h in cat.chains && h !in except ==>
      h in cat'.chains && cat'.chains[h] == cat.chains[h] && SameBytes(img, img', cat.chains[h])
  }

  /** Chains in range of the FAT are in range of the image. */
  lemma ChainsInImage(g: Geometry, img: Image, chains: ChainMap)
    requires g.Valid() && Shape(g, img) && AllChains(img.fat, g.Limit(), chains)
    ensures forall h :: h in chains ==> InImage(img.clus, chains[h])
  {
    forall h | h in chains
      ensures InImage(img.clus, chains[h])
    {
      assert IsChain(img.fat, g.Limit(), chains[h]);
    }
  }

  /** A change of clusters outside a chain leaves its bytes alone. */
  lemma BytesKept(img: Image, img': Image, chains: ChainMap, h: nat)
    requires h in chains && InImage(img.clus, chains[h]) && |img'.clus| == |img.clus|
    requires forall x :: 0 <= x < |img.clus| && Covered(chains, x) ==> img'.clus[x] == img.clus[x]
    ensures SameBytes(img, img', chains[h])
  {
    forall i | 0 <= i < |chains[h]|
      ensures img'.clus[chains[h][i]] == img.clus[chains[h][i]]
    {
      CoverAt(chains, h, chains[h][i]);
    }
    FlatKept(img.clus, img'.clus, chains[h]);
  }

  lemma CoverAt(chains: ChainMap, h: nat, x: nat)
    requires h in chains && x in chains[h]
    ensures Covered(chains, x)
  {
  }

  /** When no directory's bytes change, neither does the tree. */
  lemma TreeKept(g: Geometry, img: Image, img': Image, cat: Catalog, extra: set<nat>, extra': set<nat>)
    requires g.Valid() && Shape(g, img) && Shape(g, img') && Consistent(g, img, cat, extra)
    requires Partition(img'.fat, g.Limit(), cat.chains, extra')
    requires forall x :: 0 <= x < |img.clus| && Covered(cat.chains, x) ==> img'.clus[x] == img.clus[x]
    ensures Consistent(g, img', cat, extra')
    ensures forall h :: h in cat.chains ==> SameBytes(img, img', cat.chains[h])
  {
    hide Partition, TreeOk, Covered, Shape, DirEnts;
    Sizes(g, img);
    Sizes(g, img');
    AllKept(img, img', cat);
    SameDirs(img, img', cat);
  }

  lemma AllKept(img: Image, img': Image, cat: Catalog)
    requires InRange(img, cat) && |img'.clus| == |img.clus|
    requires forall x :: 0 <= x < |img.clus| && Covered(cat.chains, x) ==> img'.clus[x] == img.clus[x]
    ensures InRange(img', cat)
    ensures forall h :: h in cat.chains ==> SameBytes(img, img', cat.chains[h])
  {
    hide Covered;
    forall h | h in cat.chains
      ensures SameBytes(img, img', cat.chains[h])
    {
      BytesKept(img, img', cat.chains, h);
    }
  }

  lemma SameDirs(img: Image, img': Image, cat: Catalog)
    requires InRange(img, cat) && InRange(img', cat)
    requires forall h :: h in cat.chains ==> SameBytes(img, img', cat.chains[h])
    ensures DirsOf(img', cat) == DirsOf(img, cat)
  {
    hide Flat, Slots, Ents;
    forall d | d in cat.depth
      ensures DirEnts(img', cat.chains[d]) == DirEnts(img, cat.chains[d])
    {
      assert SameBytes(img, img', cat.chains[d]);
    }
  }

  // ------------------------------------------------------------ growing a directory

  lemma {:induction false} EntsAppend(a: seq<Slot>, b: seq<Slot>)
    ensures Ents(a + b) == Ents(a) + Ents(b)
  {
  }

  lemma ZerosAreUnused(n: nat)
    ensures AllUnused(Ents(Slots(Zeros(n))))
  {
  }

  ghost function Lengthened(cat: Catalog, d: nat, n: nat): Catalog
    requires d in cat.chains
  {
    cat.(chains := cat.chains[d := cat.chains[d] + [n]])
  }

  /** The FAT after cluster n is linked after the chain ch. */
  ghost function AppendTo(fat: seq<nat>, ch: seq<nat>, n: nat): seq<nat>
    requires 0 < |ch| && ch[|ch| - 1] < |fat| && n < |fat|
  {
    fat[n := EOC_MARK][ch[|ch| - 1] := n]
  }

  lemma LengthenPartition(fat: seq<nat>, limit: nat, chains: ChainMap, extra: set<nat>, d: nat, n: nat)
    requires limit <= |fat| && Partition(fat, limit, chains, extra) && d in chains
    requires 2 <= n < limit && fat[n] == 0 && n !in extra && HopsSuffice(limit, |chains[d]| + 1)
    requires 0 < |chains[d]| && chains[d][|chains[d]| - 1] < |fat|
    ensures n !in chains[d] && !Covered(chains, n)
    ensures Partition(AppendTo(fat, chains[d], n), limit, chains[d := chains[d] + [n]], extra)
  {
    hide Partition, Covered, IsChain;
    var ch := chains[d];
    Parts(fat, limit, chains, extra);
    FreeIsUncovered(fat, limit, chains, n);
    Take(fat, limit, chains, extra, d);
    ExtendChainStep(fat, limit, ch, n);
    var all := extra + Elements(ch + [n]);
    assert ch[|ch| - 1] in Elements(ch);
    Relink(fat, AppendTo(fat, ch, n), limit, chains - {d}, extra + Elements(ch), all);
    WalkIsShort(AppendTo(fat, ch, n), limit, ch + [n]);
    PutBack(AppendTo(fat, ch, n), limit, chains - {d}, all, ch + [n]);
    assert (chains - {d})[d := ch + [n]] == chains[d := ch + [n]];
    assert all - Elements(ch + [n]) == extra;
  }

  /** Extending a directory by a zeroed cluster appends unused slots and disturbs nothing else. */
  lemma GrowDirectory(g: Geometry, img: Image, img': Image, cat: Catalog, extra: set<nat>, d: nat, n: nat)
    requires g.Valid() && Shape(g, img) && Shape(g, img') && Consistent(g, img, cat, extra)
    requires d in cat.depth && HopsSuffice(g.Limit(), |cat.chains[d]| + 1)
    requires 2 <= n < g.Limit() && img.fat[n] == 0 && n !in extra
    requires 0 < |cat.chains[d]| && cat.chains[d][|cat.chains[d]| - 1] < |img.fat|
    requires img' == Claimed(g, img, n).Link(cat.chains[d][|cat.chains[d]| - 1], n)
    requires forall q :: 0 <= q < |DirEnts(img, cat.chains[d])| ==> !DirEnts(img, cat.chains[d])[q].Free()
    ensures Consistent(g, img', Lengthened(cat, d, n), extra)
    ensures DirEnts(img', cat.chains[d] + [n]) == DirEnts(img, cat.chains[d]) + Ents(Slots(Zeros(g.sectorsPerCluster)))
    ensures forall h :: h in cat.chains ==> SameBytes(img, img', cat.chains[h])
  {
    hide Partition, Covered, IsChain, TreeOk, Flat, Slots, Ents, Shape, DirEnts, Geometry.Limit;
    var ch, cat' := cat.chains[d], Lengthened(cat, d, n);
    Sizes(g, img);
    Sizes(g, img');
    LengthenPartition(img.fat, g.Limit(), cat.chains, extra, d, n);
    Parts(img'.fat, g.Limit(), cat'.chains, extra);
    ChainsInImage(g, img', cat'.chains);
    AllKept(img, img', cat);
    var more := Ents(Slots(Zeros(g.sectorsPerCluster)));
    GrowEnts(img, img', ch, n, g.sectorsPerCluster);
    GrowDirs(img, img', cat, d, n, more);
    ZerosAreUnused(g.sectorsPerCluster);
    GrowOk(TreeOf(img, g.root, cat), d, more);
    assert cat'.chains.Keys == cat.chains.Keys;
    assert TreeOf(img', g.root, cat') == Grown(TreeOf(img, g.root, cat), d, more);
  }

  lemma GrowDirs(img: Image, img': Image, cat: Catalog, d: nat, n: nat, more: seq<Ent>)
    requires InRange(img, cat) && d in cat.depth && InRange(img', Lengthened(cat, d, n))
    requires forall h :: h in cat.chains ==> SameBytes(img, img', cat.chains[h])
    requires DirEnts(img', cat.chains[d] + [n]) == DirEnts(img, cat.chains[d]) + more
    ensures DirsOf(img', Lengthened(cat, d, n)) == DirsOf(img, cat)[d := DirsOf(img, cat)[d] + more]
  {
    hide Flat, Slots, Ents;
    var chains' := Lengthened(cat, d, n).chains;
    forall k | k in cat.depth && k != d
      ensures DirEnts(img', chains'[k]) == DirEnts(img, cat.chains[k])
    {
      assert SameBytes(img, img', cat.chains[k]);
    }
  }

  lemma GrowEnts(img: Image, img': Image, ch: seq<nat>, n: nat, len: nat)
    requires SameBytes(img, img', ch) && InImage(img'.clus, ch + [n]) && n < |img'.clus| && img'.clus[n] == Zeros(len)
    ensures DirEnts(img', ch + [n]) == DirEnts(img, ch) + Ents(Slots(Zeros(len)))
  {
    hide Flat, Slots, Ents, Zeros;
    FlatAppend(img'.clus, ch, [n]);
    FlatOne(img'.clus, n);
    SlotsAppend(Flat(img.clus, ch), Zeros(len));
    EntsAppend(Slots(Flat(img.clus, ch)), Slots(Zeros(len)));
  }

  // -------------------------------------------------------------- rewriting a slot

  /** The image after slot i of sector s of the k-th cluster of ch becomes e. */
  ghost function SlotPut(img: Image, ch: seq<nat>, k: nat, s: nat, i: nat, e: Slot): Image
    requires k < |ch| && ch[k] < |img.clus| && s < |img.clus[ch[k]]| && i < SLOTS_PER_SECTOR
  {
    img.Put(ch[k], s, PutSlot(img.clus[ch[k]][s], i, e))
  }

  lemma EntsPut(slots: seq<Slot>, slots': seq<Slot>, p: nat, e: Slot)
    requires p < |slots| && slots' == slots[p := e]
    ensures Ents(slots') == Ents(slots)[p := View(e)]
  {
    hide View;
  }

  /** Rewriting one slot of a directory replaces that one entry. */
  lemma SlotPutEnts(img: Image, ch: seq<nat>, k: nat, s: nat, i: nat, e: Slot)
    requires InImage(img.clus, ch) && k < |ch| && s < |img.clus[ch[k]]| && i < SLOTS_PER_SECTOR
    requires forall a, b :: 0 <= a < b < |ch| ==> ch[a] != ch[b]
    ensures SlotPos(img, ch, k, s, i) < |DirEnts(img, ch)|
    ensures InImage(SlotPut(img, ch, k, s, i, e).clus, ch)
    ensures DirEnts(SlotPut(img, ch, k, s, i, e), ch) == DirEnts(img, ch)[SlotPos(img, ch, k, s, i) := View(e)]
  {
    var img' := SlotPut(img, ch, k, s, i, e);
    var buf := img.clus[ch[k]][s];
    assert img'.clus[ch[k]] == SetSector(img.clus[ch[k]], s, PutSlot(buf, i, e));
    hide PutSlot, View, Slots, Ents, SetSector, Flat;
    FlatAt(img.clus, ch, k, s);
    FlatPut(img.clus, img'.clus, ch, k, s, PutSlot(buf, i, e));
    SlotsPut(Flat(img.clus, ch), Base(img.clus, ch, k) + s, i, e);
    EntsPut(Slots(Flat(img.clus, ch)), Slots(Flat(img'.clus, ch)), SlotPos(img, ch, k, s, i), e);
  }

  /** Rewriting a slot of directory d leaves every other chain's bytes alone. */
  lemma SlotPutOthers(img: Image, img': Image, chains: ChainMap, d: nat, x: nat)
    requires Disjoint(chains) && d in chains && x in chains[d] && |img'.clus| == |img.clus|
    requires forall h :: h in chains ==> InImage(img.clus, chains[h])
    requires forall y :: 0 <= y < |img.clus| && y != x ==> img'.clus[y] == img.clus[y]
    ensures forall h :: h in chains && h != d ==> SameBytes(img, img', chains[h])
  {
    forall h | h in chains && h != d
      ensures SameBytes(img, img', chains[h])
    {
      forall i | 0 <= i < |chains[h]|
        ensures img'.clus[chains[h][i]] == img.clus[chains[h][i]]
      {
        assert chains[h][i] in chains[h];
      }
      FlatKept(img.clus, img'.clus, chains[h]);
    }
  }

  /** A catalog after a change of one slot, given the chains after it. */
  ghost predicate Recataloged(cat: Catalog, cat': Catalog, c: Change)
    requires c.d in cat.depth
  {
    && cat'.chains.Keys == cat.chains.Keys - {c.h0} + (if c.h == 0 then {} else {c.h})
    && cat'.owner == (if c.h == 0 then cat.owner - {c.h0} else (cat.owner - {c.h0})[c.h := (c.d, c.p)])
    && cat'.depth == (if c.MakesDir() then (cat.depth - {c.h0})[c.h := cat.depth[c.d] + 1] else cat.depth - {c.h0})
  }

  /** The tree after a change of one slot is the rewired tree. */
  lemma TreeRewired(root: nat, img: Image, img': Image, cat: Catalog, cat': Catalog, c: Change)
    requires InRange(img, cat) && InRange(img', cat') && c.d in cat.depth && Fits(TreeOf(img, root, cat), c)
    requires Recataloged(cat, cat', c) && c.d != c.h0 && c.d in cat'.chains && (c.MakesDir() ==> c.h != c.d)
    requires DirEnts(img', cat'.chains[c.d]) == DirEnts(img, cat.chains[c.d])[c.p := c.e]
    requires c.MakesDir() ==> DirEnts(img', cat'.chains[c.h]) == c.sub
    requires forall k :: k in cat.depth && k != c.h0 && k != c.d && !(c.MakesDir() && k == c.h) ==>
               k in cat'.chains && DirEnts(img', cat'.chains[k]) == DirEnts(img, cat.chains[k])
    ensures TreeOf(img', root, cat') == Rewire(TreeOf(img, root, cat), c)
  {
    hide DirEnts;
    DirsRewired(root, img, img', cat, cat', c);
    hide DirsOf;
  }

  lemma DirsRewired(root: nat, img: Image, img': Image, cat: Catalog, cat': Catalog, c: Change)
    requires InRange(img, cat) && InRange(img', cat') && c.d in cat.depth && Fits(TreeOf(img, root, cat), c)
    requires cat'.depth == if c.MakesDir() then (cat.depth - {c.h0})[c.h := cat.depth[c.d] + 1] else cat.depth - {c.h0}
    requires c.d != c.h0 && c.d in cat'.chains && (c.MakesDir() ==> c.h != c.d)
    requires DirEnts(img', cat'.chains[c.d]) == DirEnts(img, cat.chains[c.d])[c.p := c.e]
    requires c.MakesDir() ==> c.h in cat'.chains && DirEnts(img', cat'.chains[c.h]) == c.sub
    requires forall k :: k in cat.depth && k != c.h0 && k != c.d && !(c.MakesDir() && k == c.h) ==>
               k in cat'.chains && DirEnts(img', cat'.chains[k]) == DirEnts(img, cat.chains[k])
    ensures DirsOf(img', cat') == Rewire(TreeOf(img, root, cat), c).dirs
  {
    hide DirEnts, InRange, InImage;
    var want := Rewire(TreeOf(img, root, cat), c).dirs;
    assert DirsOf(img', cat').Keys == want.Keys;
    assert forall k :: k in want ==> DirsOf(img', cat')[k] == want[k];
  }
}
