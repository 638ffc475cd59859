/**
 The calls of the FAT32 driver, relative to a current directory. The invariant Valid() says that
 the clusters in use are exactly the chains the directory tree owns; every call keeps it.
 */
module FileSystems {
  import opened Bytes
  import opened FatLayout
  import opened Volumes
  import opened Chains
  import opened ChainData
  import opened DirEntries
  import opened DirTree
  import opened DirScan
  import opened FileData
  import opened FsState
  import opened FsSteps
  import opened Names
  import opened FsEffects
  import opened FileRead
  import opened FileList

  /** How a write ended: refused twice over, or so many bytes written. */
  datatype WriteOutcome = IsDirectory | NoSlot | Wrote(written: nat)

  /** Directory d has no free slot and the volume no free cluster to give it. */
  ghost predicate DirFull(g: Geometry, img: Image, cat: Catalog, d: nat)
    requires g.Valid() && Shape(g, img) && Consistent(g, img, cat, {}) && d in cat.depth
  {
    && LowestFree(img.fat, g.Limit(), 0)
    && forall q :: 0 <= q < |DirEnts(img, cat.chains[d])| ==> !DirEnts(img, cat.chains[d])[q].Free()
  }

  /** A 32-bit count returned through the driver's signed result. */
  function Signed32(w: nat): int
    requires w < 0x1_0000_0000
  {
    if w < 0x8000_0000 then w else w - 0x1_0000_0000
  }

  const SLASH: byte := 0x2F
  const BACKSLASH: byte := 0x5C

  predicate IsRootName(name: seq<byte>) { name == [SLASH] || name == [BACKSLASH] }

  /** The names a change of directory handles without a lookup. */
  predicate SpecialName(name: seq<byte>) { name == [] || IsRootName(name) || name == [DOT] }

  class FileSystem {
    const vol: Volume
    var currentDir: nat
    ghost var cat: Catalog

    ghost predicate Valid()
      reads this, vol.disk
    {
      && vol.Mounted()
      && Consistent(vol.geo, vol.Img(), cat, {})
      && currentDir in cat.depth
    }

    /** Starts in the root directory of a consistent volume. */
    constructor (vol: Volume, ghost cat: Catalog)
      requires vol.Mounted() && Consistent(vol.geo, vol.Img(), cat, {})
      ensures this.vol == vol && this.cat == cat && currentDir == vol.geo.root && Valid()
    {
      hide ImageOf, Layout, Consistent, Shape;
      RootIsDir(vol.geo, vol.Img(), cat);
      this.vol, this.cat, this.currentDir := vol, cat, vol.geo.root;
    }

    /** The current directory, as a map from names. */
    ghost function Dir(): map<FatName, Ent>
      requires Valid()
      reads this, vol.disk
    {
      NamesIn(vol.geo, vol.Img(), cat, currentDir)
    }

    ghost function NamesOf(d: nat): map<FatName, Ent>
      requires Valid()
      reads this, vol.disk
    {
      if d in cat.depth then NamesIn(vol.geo, vol.Img(), cat, d) else map[]
    }

    /** The driver can follow the current directory's chain even if it grows by a cluster. */
    ghost predicate CanGrow()
      requires Valid()
      reads this, vol.disk
    {
      HopsSuffice(vol.geo.Limit(), |cat.chains[currentDir]| + 1)
    }

    /** The sectors of a listed name. */
    ghost function File(n: FatName): seq<Sector>
      requires Valid() && n in Dir()
      reads this, vol.disk
    {
      SectorsOf(vol.geo, vol.Img(), cat, currentDir, n)
    }

    /** Deletes a file of the current directory: -1 if absent, -2 if a directory. */
    method RemoveFile(name: seq<byte>) returns (r: int)
      requires Valid()
      modifies this`cat, vol.disk
      ensures Valid() && vol.Elsewhere() == old(vol.Elsewhere())
      ensures r == (if FatNameOf(name) !in old(Dir()) then -1
                    else if IsFolder(old(Dir())[FatNameOf(name)]) then -2 else 0)
      ensures cat.depth.Keys <= old(cat).depth.Keys
      ensures r != 0 ==> vol.Img() == old(vol.Img()) && cat == old(cat)
      ensures r == 0 ==> Dir() == old(Dir()) - {FatNameOf(name)}
      ensures r == 0 ==> var h := Head(old(Dir())[FatNameOf(name)]);
                && cat.chains == old(cat).chains - {h}
                && OthersKept(old(vol.Img()), vol.Img(), old(cat), cat, {h, currentDir})
                && Freed(old(vol.Img()).fat, vol.Img().fat, ChainOf(old(cat), old(Dir())[FatNameOf(name)]))
                && vol.Img().top == old(vol.Img()).top && vol.Img().rest == old(vol.Img()).rest
    {
      hide ImageOf, Layout, Geometry.ClusterToLba, Geometry.Limit, Partition, TreeOk, DirEnts, IsChain, FreeChain, View,
           Clean, Base, FatNameOf, Absent, Flat, NamesIn, OthersKept, Freed;
      var fname := BuildFatName(name);
      NeverDot(name);
      ghost var img, ch := vol.Img(), cat.chains[currentDir];
      Located(currentDir, fname);
      var found, lba, index;
      ghost var k;
      found, lba, index, k := FindDirEntryLoc(vol, currentDir, fname, ch);
      if !found {
        return -1;
      }
      ghost var p := PlaceOf(vol.geo, img, ch, k, lba, index);
      var e := LoadSlot(vol, lba, index, ch, k);
      ViewEntry(e);
      EntryChain(vol.geo, img, cat, currentDir, p);
      if IsDir(e) {
        return -2;
      }
      EraseEntry(lba, index, ClusterOf(e), View(e), k);
      return 0;
    }

    /**
     Removes a subdirectory of the current directory: -1 if absent, -2 if a file, -3 if not empty.
     The driver's fourth refusal, for the current directory itself, never occurs: no directory
     lists itself under a name.
     */
    method Rmdir(name: seq<byte>) returns (r: int)
      requires Valid()
      modifies this`cat, vol.disk
      ensures Valid() && vol.Elsewhere() == old(vol.Elsewhere())
      ensures r == (if FatNameOf(name) !in old(Dir()) then -1
                    else if !IsFolder(old(Dir())[FatNameOf(name)]) then -2
                    else if old(NamesOf(Head(Dir()[FatNameOf(name)]))) != map[] then -3 else 0)
      ensures cat.depth.Keys <= old(cat).depth.Keys
      ensures r != 0 ==> vol.Img() == old(vol.Img()) && cat == old(cat)
      ensures r == 0 ==> Dir() == old(Dir()) - {FatNameOf(name)}
      ensures r == 0 ==> var h := Head(old(Dir())[FatNameOf(name)]);
                && cat.chains == old(cat).chains - {h}
                && OthersKept(old(vol.Img()), vol.Img(), old(cat), cat, {h, currentDir})
                && Freed(old(vol.Img()).fat, vol.Img().fat, ChainOf(old(cat), old(Dir())[FatNameOf(name)]))
                && vol.Img().top == old(vol.Img()).top && vol.Img().rest == old(vol.Img()).rest
    {
      hide ImageOf, Layout, Geometry.ClusterToLba, Geometry.Limit, Partition, TreeOk, DirEnts, IsChain, FreeChain, View,
           Clean, Base, FatNameOf, Absent, Flat, NamesIn, OthersKept, Freed;
      var fname := BuildFatName(name);
      NeverDot(name);
      ghost var img, ch := vol.Img(), cat.chains[currentDir];
      Located(currentDir, fname);
      var found, lba, index;
      ghost var k;
      found, lba, index, k := FindDirEntryLoc(vol, currentDir, fname, ch);
      if !found {
        return -1;
      }
      ghost var p := PlaceOf(vol.geo, img, ch, k, lba, index);
      var e := LoadSlot(vol, lba, index, ch, k);
      ViewEntry(e);
      EntryChain(vol.geo, img, cat, currentDir, p);
      if !IsDir(e) {
        return -2;
      }
      var target, root := ClusterOf(e), vol.geo.root;
      if target == 0 {
        target := root;
      }
      if target == currentDir {
        return -4;
      }
      Located(target, fname);
      EmptyDir(vol.geo, img, cat, target);
      var empty := DirIsEmpty(vol, target, cat.chains[target]);
      if !empty {
        return -3;
      }
      EraseEntry(lba, index, target, View(e), k);
      return 0;
    }

    /** How both removals end: frees the entry's chain and marks its slot deleted. */
    method EraseEntry(lba: nat, index: nat, cluster: nat, ghost e0: Ent, ghost k: nat)
      requires vol.Mounted() && cluster == Head(e0)
      requires ReadyToErase(vol.geo, vol.Img(), cat, currentDir, k, lba, index, e0)
      modifies this`cat, vol.disk
      ensures Valid() && vol.Elsewhere() == old(vol.Elsewhere())
      ensures EntryErased(vol.geo, old(vol.Img()), vol.Img(), old(cat), cat, currentDir, e0)
    {
      hide ImageOf, Layout, Geometry.ClusterToLba, Geometry.Limit, Partition, TreeOk, DirEnts, IsChain, FreeChain, View,
           Base, Flat, AsDeleted, PutSlot, NamesIn, OthersKept, Freed, NoEntries;
      ghost var img, ch := vol.Img(), cat.chains[currentDir];
      ghost var p := PlaceOf(vol.geo, img, ch, k, lba, index);
      EntryChain(vol.geo, img, cat, currentDir, p);
      if cluster >= 2 {
        ReadyToFree(vol.geo, img, cat, cluster);
        FreeChainFrom(vol, cluster, Elements(cat.chains[cluster]));
      }
      ghost var img1 := vol.Img();
      var e := LoadSlot(vol, lba, index, ch, k);
      ErasedView(e);
      StoreSlot(vol, lba, index, AsDeleted(e), ch, k);
      Erase(vol.geo, img, img1, cat, currentDir, k, lba - vol.geo.ClusterToLba(ch[k]), index, AsDeleted(e));
      SettledDepth(cat, currentDir, p, cluster, []);
      cat := Settled(cat, currentDir, p, cluster, []);
    }

    /** No slot is left in the current directory, and no cluster to make one in. */
    ghost predicate Full()
      requires Valid()
      reads this, vol.disk
    {
      DirFull(vol.geo, vol.Img(), cat, currentDir)
    }

    /** The call wrote to name n of the current directory, and FileWritten says what that did. */
    twostate predicate Stored(n: FatName, data: seq<byte>, written: nat)
      requires old(Valid()) && Valid() && currentDir == old(currentDir)
      reads this, vol.disk
    {
      FileWritten(vol.geo, old(vol.Img()), vol.Img(), old(cat), cat, currentDir, n, data, written)
    }

    /** Writes data to the file whose slot is at lba and index, reusing its clusters. */
    method WriteContents(lba: nat, index: nat, data: seq<byte>, fname: FatName, ghost k: nat)
      returns (written: nat, ghost now: seq<nat>)
      requires Valid() && |data| < 0x1_0000_0000 && HopsSuffice(vol.geo.Limit(), ClustersNeeded(vol.geo, |data|))
      requires InImage(vol.Img().clus, cat.chains[currentDir]) && Within(vol.geo, cat.chains[currentDir], k, lba, index)
      requires NameAt(DirEnts(vol.Img(), cat.chains[currentDir]),
                      PlaceOf(vol.geo, vol.Img(), cat.chains[currentDir], k, lba, index), fname)
      requires fname in Dir() && !IsFolder(Dir()[fname])
      modifies this`cat, vol.disk
      ensures Valid() && vol.Elsewhere() == old(vol.Elsewhere())
              && cat.chains[currentDir] == old(cat).chains[currentDir]
      ensures cat.depth.Keys <= old(cat).depth.Keys
      ensures Dir() == old(Dir())[fname := Entry(fname, false, FirstOf(now), written)]
      ensures ChainOf(cat, Dir()[fname]) == now && InImage(vol.Img().clus, now)
      ensures Written(vol.geo, vol.Img(), ChainOf(old(cat), old(Dir())[fname]), now, data, written)
      ensures Relinked(old(vol.Img()).fat, vol.Img().fat, ChainOf(old(cat), old(Dir())[fname]), now)
      ensures OthersKept(old(vol.Img()), vol.Img(), old(cat), cat, {Head(old(Dir())[fname]), currentDir})
      ensures vol.Img().top == old(vol.Img()).top && vol.Img().rest == old(vol.Img()).rest
    {
      hide ImageOf, Layout, Geometry.ClusterToLba, Geometry.Limit, Partition, TreeOk, DirEnts, IsChain, FreeChain, View,
           Clean, Base, Absent, Flat, Settled, PutSlot, NamesIn, HoldsData, LowestFree, Relinked,
           ClustersNeeded, OthersKept, Retargeted, IsDir, ClusterOf;
      ghost var img, ch := vol.Img(), cat.chains[currentDir];
      Located(currentDir, fname);
      ghost var p := PlaceOf(vol.geo, img, ch, k, lba, index);
      var e := LoadSlot(vol, lba, index, ch, k);
      ViewEntry(e);
      EntryChain(vol.geo, img, cat, currentDir, p);
      ghost var e0 := View(e);
      var first;
      first, written, now := RewriteChain(ClusterOf(e), data, e0);
      SlotUndisturbed(vol.geo, img, vol.Img(), cat, currentDir, e0, now, data, written);
      SettleFile(lba, index, first, written, img, e0, k, data, now);
    }

    /** Writes data over a file's chain, or frees it when there is nothing to write. */
    method RewriteChain(first: nat, data: seq<byte>, ghost e0: Ent)
      returns (first': nat, written: nat, ghost now: seq<nat>)
      requires Valid() && |data| < 0x1_0000_0000 && HopsSuffice(vol.geo.Limit(), ClustersNeeded(vol.geo, |data|))
      requires e0.Entry? && first == e0.cluster
      requires if first == 0 then first !in cat.chains else 2 <= first && first in cat.chains
      modifies vol.disk
      ensures vol.Mounted() && vol.Elsewhere() == old(vol.Elsewhere())
      ensures Holds(vol.geo, vol.Img(), Others(cat, e0), now) && |now| <= MAX_CLUSTER_CHAIN && first' == FirstOf(now)
      ensures Rewritten(vol.geo, old(vol.Img()), vol.Img(), ChainOf(cat, e0), now, data, written)
    {
      hide ImageOf, Layout, Geometry.ClusterToLba, Geometry.Limit, Partition, TreeOk, IsChain, FreeChain,
           ClustersNeeded, Rewritten, Holds;
      ghost var img := vol.Img();
      Detach(vol.geo, img, cat, e0);
      var clustersNeeded := ClustersNeeded(vol.geo, |data|);
      if clustersNeeded == 0 {
        if first >= 2 {
          ReadyToFree(vol.geo, img, cat, first);
          FreeChainFrom(vol, first, Elements(cat.chains[first]));
        }
        FreedIsRewritten(vol.geo, img, vol.Img(), cat, e0, data);
        first', written, now := 0, 0, [];
      } else {
        first', written, now := WriteClusters(vol, data, first, Others(cat, e0), ChainOf(cat, e0));
      }
    }

    /** Points the file's slot at the chain its data was written to. */
    method SettleFile(lba: nat, index: nat, first: nat, written: nat, ghost img: Image, ghost e0: Ent, ghost k: nat,
                      ghost data: seq<byte>, ghost now: seq<nat>)
      requires vol.Mounted() && Shape(vol.geo, img) && first == FirstOf(now)
      requires ReadyToSettle(vol.geo, img, vol.Img(), cat, currentDir, k, lba, index, e0, now, data, written)
      modifies this`cat, vol.disk
      ensures Valid() && vol.Elsewhere() == old(vol.Elsewhere())
      ensures FileSettled(vol.geo, img, vol.Img(), old(cat), cat, currentDir, e0, now, data, written)
    {
      hide ImageOf, Layout, Geometry.ClusterToLba, Geometry.Limit, Partition, TreeOk, DirEnts, IsChain, View, Base,
           Flat, PutSlot, NamesIn, HoldsData, LowestFree, Relinked, ClustersNeeded, OthersKept, Retargeted, Holds;
      ghost var img1, ch := vol.Img(), cat.chains[currentDir];
      ghost var p := PlaceOf(vol.geo, img, ch, k, lba, index);
      var e := LoadSlot(vol, lba, index, ch, k);
      FirstFits(vol.geo, img1, Others(cat, e0), now, data, written);
      RetargetView(e, first, written);
      var e2 := Retargeted(e, first, written);
      StoreSlot(vol, lba, index, e2, ch, k);
      Rewrite(vol.geo, img, img1, cat, currentDir, k, lba - vol.geo.ClusterToLba(ch[k]), index, e2, now, data, written);
      cat := Settled(cat, currentDir, p, e0.cluster, now);
    }

    /** Finds the file's slot, creating an empty file when the name is new. */
    method OpenForWrite(name: seq<byte>, fname: FatName)
      returns (outcome: WriteOutcome, lba: nat, index: nat, ghost k: nat)
      requires Valid() && ValidName(name) && fname == FatNameOf(name) && CanGrow()
      modifies this`cat, vol.disk
      ensures Valid() && vol.Elsewhere() == old(vol.Elsewhere())
      ensures cat.depth.Keys <= old(cat).depth.Keys
      ensures outcome.IsDirectory? <==> fname in old(Dir()) && IsFolder(old(Dir())[fname])
      ensures outcome.NoSlot? <==> fname !in old(Dir()) && old(Full())
      ensures !outcome.Wrote? || fname in old(Dir()) ==> vol.Img() == old(vol.Img()) && cat == old(cat)
      ensures outcome.Wrote? ==> fname in Dir() && !IsFolder(Dir()[fname])
      ensures InImage(vol.Img().clus, cat.chains[currentDir])
      ensures outcome.Wrote? ==> Within(vol.geo, cat.chains[currentDir], k, lba, index)
      ensures outcome.Wrote? ==> NameAt(DirEnts(vol.Img(), cat.chains[currentDir]),
                                        PlaceOf(vol.geo, vol.Img(), cat.chains[currentDir], k, lba, index), fname)
      ensures outcome.Wrote? && fname !in old(Dir()) ==> Dir() == old(Dir())[fname := Entry(fname, false, 0, 0)]
      ensures outcome.Wrote? && fname !in old(Dir()) ==>
                OthersKept(old(vol.Img()), vol.Img(), old(cat), cat, {currentDir})
      ensures old(cat).chains[currentDir] <= cat.chains[currentDir]
              && |cat.chains[currentDir]| <= |old(cat).chains[currentDir]| + 1
              && FatGrown(old(vol.Img()).fat, vol.Img().fat, old(cat).chains[currentDir], cat.chains[currentDir])
              && vol.Img().top == old(vol.Img()).top && vol.Img().rest == old(vol.Img()).rest
    {
      hide ImageOf, Layout, Geometry.ClusterToLba, Geometry.Limit, Partition, TreeOk, DirEnts, IsChain, View,
           LowestFree, Clean, Base, FatNameOf, Absent, Flat, NewSlot, PutSlot, NamesIn, OthersKept, Reserved,
           FirstFree;
      NeverDot(name);
      ghost var img, ch := vol.Img(), cat.chains[currentDir];
      Located(currentDir, fname);
      var existed;
      existed, lba, index, k := FindDirEntryLoc(vol, currentDir, fname, ch);
      if existed {
        var e := LoadSlot(vol, lba, index, ch, k);
        ViewEntry(e);
        outcome := if IsDir(e) then IsDirectory else Wrote(0);
        return;
      }
      var found;
      ghost var cat1;
      found, lba, index, k, cat1 := ReserveSlot(vol, currentDir, cat, {});
      if !found {
        outcome := NoSlot;
        return;
      }
      ghost var img1 := vol.Img();
      ReservedMore(img, img1, cat, cat1, currentDir);
      NewSlotVisible(name, ATTR_ARCHIVE, 0);
      var e := NewSlot(fname, ATTR_ARCHIVE, 0);
      StoreSlot(vol, lba, index, e, cat1.chains[currentDir], k);
      CreateFile(vol.geo, img, img1, cat, cat1, currentDir, k, lba - vol.geo.ClusterToLba(cat1.chains[currentDir][k]),
                 index, e);
      cat := cat1;
      outcome := Wrote(0);
    }

    /**
     Writes data to a file of the current directory, creating it or overwriting it in place.
     Returns the bytes written as a signed 32-bit value, -1 for a directory, -2 with no slot left.
     */
    method WriteFile(name: seq<byte>, data: seq<byte>) returns (r: int, ghost outcome: WriteOutcome)
      requires Valid() && ValidName(name) && CanGrow()
      requires |data| < 0x1_0000_0000 && HopsSuffice(vol.geo.Limit(), ClustersNeeded(vol.geo, |data|))
      modifies this`cat, vol.disk
      ensures Valid() && vol.Elsewhere() == old(vol.Elsewhere())
      ensures cat.depth.Keys <= old(cat).depth.Keys
      ensures outcome.IsDirectory? ==> r == -1
      ensures outcome.NoSlot? ==> r == -2
      ensures outcome.Wrote? ==> outcome.written <= |data| && -0x8000_0000 <= r < 0x8000_0000
      ensures outcome.Wrote? ==> r == outcome.written || r == outcome.written - 0x1_0000_0000
      ensures outcome.IsDirectory? <==> FatNameOf(name) in old(Dir()) && IsFolder(old(Dir())[FatNameOf(name)])
      ensures outcome.NoSlot? <==> FatNameOf(name) !in old(Dir()) && old(Full())
      ensures !outcome.Wrote? ==> vol.Img() == old(vol.Img()) && cat == old(cat)
      ensures outcome.Wrote? ==> Stored(FatNameOf(name), data, outcome.written)
    {
      hide ImageOf, Layout, Geometry.Limit, Consistent, DirEnts, FatNameOf, Flat, NamesIn, FileWritten, ClustersNeeded,
           Within, PlaceOf, NameAt, FatGrown, OthersKept, Written, Relinked, DirFull;
      var fname := BuildFatName(name);
      ghost var img, cat0 := vol.Img(), cat;
      var lba, index, found;
      ghost var k;
      found, lba, index, k := OpenForWrite(name, fname);
      outcome := found;
      match found {
        case IsDirectory => return -1, outcome;
        case NoSlot => return -2, outcome;
        case Wrote(_) =>
      }
      ghost var img1, cat1 := vol.Img(), cat;
      ListedChain(vol.geo, img1, cat1, currentDir, fname);
      var written;
      ghost var now;
      written, now := WriteContents(lba, index, data, fname, k);
      WriteEffect(vol.geo, img, img1, vol.Img(), cat0, cat1, cat, currentDir, fname, now, data, written);
      WrittenFits(vol.geo, img, vol.Img(), cat0, cat, currentDir, fname, data, written);
      outcome := Wrote(written);
      r := Signed32(written);
    }

    /**
     Makes a subdirectory of the current directory: -1 if the name is taken, -2 without room, and
     then every link of the FAT is as before.
     */
    method Mkdir(name: seq<byte>) returns (r: int)
      requires Valid() && ValidName(name) && CanGrow()
      modifies this`cat, vol.disk
      ensures Valid() && vol.Elsewhere() == old(vol.Elsewhere())
      ensures r == (if FatNameOf(name) in old(Dir()) then -1
                    else if NoRoomForDir(vol.geo, old(vol.Img()), old(cat), currentDir) then -2 else 0)
      ensures forall d :: d in cat.depth && d !in old(cat).depth ==> cat.chains[d] == [d]
      ensures r == -1 ==> vol.Img() == old(vol.Img())
      ensures r != 0 ==> cat == old(cat) && vol.Img().fat == old(vol.Img()).fat && vol.Img().top == old(vol.Img()).top
      ensures r != 0 ==> vol.Img().rest == old(vol.Img()).rest && OthersKept(old(vol.Img()), vol.Img(), cat, cat, {})
      ensures r == 0 ==> DirMade(vol.geo, old(vol.Img()), vol.Img(), old(cat), cat, currentDir, FatNameOf(name))
    {
      hide ImageOf, Layout, Geometry.ClusterToLba, Geometry.Limit, Partition, TreeOk, DirEnts, IsChain, View,
           LowestFree, Clean, Base, FatNameOf, Absent, Flat, NewSlot, PutSlot, NamesIn, OthersKept, Reserved,
           FirstFree, EmptyDirAt, SameBytes, DirMade, Claimed, Image.Put, NoRoomForDir, SlotPut, WithDir, InImage,
           ClusterOf, IsDir;
      var fname := BuildFatName(name);
      NeverDot(name);
      ghost var img, ch := vol.Img(), cat.chains[currentDir];
      Located(currentDir, fname);
      var found, lba, index;
      ghost var k;
      found, lba, index, k := FindDirEntryLoc(vol, currentDir, fname, ch);
      KeptSelf(img, cat);
      if found {
        return -1;
      }
      var newCluster := SeedDirectory();
      Sizes(vol.geo, img);
      ClusterInFat(vol.geo, img, newCluster);
      RoomIs(vol.geo, img, cat, currentDir, newCluster);
      if newCluster == 0 {
        return -2;
      }
      ghost var img1 := vol.Img();
      SameEnts(img, img1, ch);
      ghost var cat1;
      found, lba, index, k, cat1 := ReserveSlot(vol, currentDir, cat, {newCluster});
      ghost var img2 := vol.Img();
      if !found {
        FreeChainFrom(vol, newCluster, {newCluster});
        UnseedStep(vol.geo, img, img1, vol.Img(), cat, newCluster);
        KeptAll(img, vol.Img(), cat);
        return -2;
      }
      NewSlotVisible(name, ATTR_DIRECTORY, newCluster);
      Sizes(vol.geo, img2);
      AddDirectory(lba, index, fname, newCluster, img, img1, cat1, k);
      return 0;
    }

    /** Fills a reserved slot with the entry of a seeded directory. */
    method AddDirectory(lba: nat, index: nat, fname: FatName, newCluster: nat, ghost img: Image, ghost img1: Image,
                        ghost cat1: Catalog, ghost k: nat)
      requires vol.Mounted() && Shape(vol.geo, img) && Shape(vol.geo, img1)
      requires ReadyToAdd(vol.geo, img, img1, vol.Img(), cat, cat1, currentDir, k, lba, index, fname, newCluster)
      requires View(NewSlot(fname, ATTR_DIRECTORY, newCluster)) == Entry(fname, true, newCluster, 0)
      modifies this`cat, vol.disk
      ensures Valid() && vol.Elsewhere() == old(vol.Elsewhere())
      ensures DirAdded(vol.geo, img, vol.Img(), old(cat), cat, currentDir, fname)
    {
      hide ImageOf, Layout, Geometry.ClusterToLba, Geometry.Limit, Partition, TreeOk, DirEnts, IsChain, View, NewSlot,
           PutSlot, NamesIn, FirstFree, EmptyDirAt, SameBytes, DirMade, Reserved;
      ghost var img2, ch := vol.Img(), cat1.chains[currentDir];
      ghost var at := lba - vol.geo.ClusterToLba(ch[k]);
      var e := NewSlot(fname, ATTR_DIRECTORY, newCluster);
      StoreSlot(vol, lba, index, e, ch, k);
      PlaceFits(vol.geo, img2, cat1, {newCluster}, currentDir, k);
      EmptyDirKept(img1, img2, newCluster, currentDir, vol.geo.root);
      ReservedMore(img1, img2, cat, cat1, currentDir);
      MakeDir(vol.geo, img, img1, img2, cat, cat1, currentDir, k, at, index, e, newCluster);
      cat := WithDir(cat1, currentDir, SlotPos(img2, ch, k, at, index), newCluster);
    }

    /** Claims a cluster and writes "." and ".." at its start; 0 when the volume is full. */
    method SeedDirectory() returns (newCluster: nat)
      requires Valid()
      modifies vol.disk
      ensures vol.Mounted() && vol.Elsewhere() == old(vol.Elsewhere())
      ensures LowestFree(old(vol.Img()).fat, vol.geo.Limit(), newCluster)
      ensures newCluster == 0 ==> vol.Img() == old(vol.Img())
      ensures newCluster != 0 ==> Consistent(vol.geo, vol.Img(), cat, {newCluster}) && newCluster !in cat.chains
      ensures newCluster != 0 ==> vol.Img().fat == old(vol.Img()).fat[newCluster := EOC_MARK]
      ensures newCluster != 0 ==> EmptyDirAt(vol.Img(), newCluster, currentDir, vol.geo.root)
      ensures forall h :: h in cat.chains ==> SameBytes(old(vol.Img()), vol.Img(), cat.chains[h])
      ensures vol.Img().top == old(vol.Img()).top && vol.Img().rest == old(vol.Img()).rest
    {
      hide ImageOf, Layout, Geometry.ClusterToLba, Geometry.Limit, Partition, TreeOk, DirEnts, IsChain, View, Clean,
           Flat, Stamped, PutSlot, SameBytes, Dotted, NoEntries, SlotAt;
      ghost var img := vol.Img();
      KeptSelf(img, cat);
      newCluster := AllocateCluster(vol);
      if newCluster == 0 {
        return;
      }
      var lba := vol.geo.ClusterToLba(newCluster);
      var buf := vol.ReadData(lba, newCluster, 0);
      assert buf == ZERO_SECTOR;
      DirIsWalk(vol.geo, img, cat, {}, currentDir);
      buf := PutSlot(buf, 0, Stamped(SlotAt(buf, 0), DOT_NAME, ATTR_DIRECTORY, newCluster));
      var parentField := if currentDir == vol.geo.root then 0 else currentDir;
      buf := PutSlot(buf, 1, Stamped(SlotAt(buf, 1), DOT_DOT_NAME, ATTR_DIRECTORY, parentField));
      vol.WriteData(lba, buf, newCluster, 0);
      SeedStep(vol.geo, img, vol.Img(), cat, newCluster);
      SeededSector(buf, newCluster, parentField);
      SeededDir(vol.Img(), newCluster, vol.geo.sectorsPerCluster, buf, newCluster, currentDir, vol.geo.root);
    }

    /** What a read of an empty file returns: the sectors the driver takes cluster 0 to be at. */
    ghost predicate ZeroReadable()
      requires Valid()
      reads this, vol.disk
    {
      0 <= AddressOf(vol.geo, 0) && EndsAtOnce(vol.Img().fat)
    }

    ghost function BelowFiles(): seq<Sector>
      requires Valid() && ZeroReadable()
      reads this, vol.disk
    {
      ZeroOnVolume(vol.geo);
      BelowData(vol.geo, vol.Sectors())
    }

    /**
     Reads up to maxSize bytes of a name into `buffer`: -1 if absent, else the count as a signed 32-bit
     value. It goes by the chain, not by the size on record. An empty file has no chain, and the driver
     follows cluster 0: if that has an address and an end mark, it returns the sectors below the data area.
     */
    method ReadFile(name: seq<byte>, buffer: array<byte>, maxSize: nat) returns (r: int, ghost bytesRead: nat)
      requires Valid() && FitsReadBuffer(name) && maxSize <= buffer.Length && maxSize < 0x1_0000_0000
      requires ReadNameOf(name) in Dir() && Head(Dir()[ReadNameOf(name)]) == 0 ==> maxSize == 0 || ZeroReadable()
      modifies buffer
      ensures ReadNameOf(name) !in old(Dir()) ==> r == -1
      ensures ReadNameOf(name) in old(Dir()) ==>
                && bytesRead <= maxSize && -0x8000_0000 <= r < 0x8000_0000
                && (r == bytesRead || r == bytesRead - 0x1_0000_0000)
      ensures maxSize == 0 ==> bytesRead == 0
      ensures maxSize == 0 || ReadNameOf(name) !in old(Dir()) ==> buffer[..] == old(buffer[..])
      ensures maxSize != 0 && ReadNameOf(name) in old(Dir()) ==>
                var secs := old(if Head(Dir()[ReadNameOf(name)]) == 0 then BelowFiles() else File(ReadNameOf(name)));
                bytesRead == Min(maxSize, |secs| * SECTOR_SIZE) && Copied(buffer[..], old(buffer[..]), secs, bytesRead)
    {
      hide ImageOf, Layout, Geometry.ClusterToLba, Geometry.Limit, Partition, TreeOk, DirEnts, IsChain, View, Clean,
           Base, ReadNameOf, Absent, Flat, NamesIn, Copied, Followable, BelowData;
      var fname := BuildReadName(name);
      NeverDotRead(name);
      ghost var img, ch := vol.Img(), cat.chains[currentDir];
      Located(currentDir, fname);
      var found, lba, index;
      ghost var k;
      found, lba, index, k := FindDirEntryLoc(vol, currentDir, fname, ch);
      if !found {
        return -1, 0;
      }
      var e := LoadSlot(vol, lba, index, ch, k);
      ViewEntry(e);
      var fc := ClusterOf(e);
      ListedChain(vol.geo, img, cat, currentDir, fname);
      ChainWalks(vol.geo, img, cat, currentDir, fname);
      ghost var walk, clus := ChainOf(cat, Dir()[fname]), img.clus;
      if fc != 0 {
        ChainFollowable(vol, walk);
      } else if maxSize != 0 {
        ZeroOnVolume(vol.geo);
        walk, clus := [0], [BelowFiles()];
        ZeroFollowable(vol, clus);
      }
      var n := ReadChain(vol, fc, buffer, maxSize, walk, clus);
      return Signed32(n), n;
    }

    /** Lists the current directory into at most `limit` items. */
    method ListDir(limit: nat) returns (out: seq<DirItem>)
      requires Valid()
      ensures InImage(vol.Img().clus, cat.chains[currentDir])
      ensures Listed(DirSlots(vol.Img(), cat.chains[currentDir]), limit, out)
    {
      hide ImageOf, Layout, Partition, TreeOk, DirEnts, IsChain, Listed, EndsClean;
      Located(currentDir, DOT_NAME);
      out := ListEntries(vol, currentDir, limit, cat.chains[currentDir]);
    }

    /**
     Moves to "/" (or its backslash form), stays at ".", or enters a subdirectory by name: -1 if
     absent, -2 if a file. Entering by name always descends one level: ".." is looked up as the
     stored form of those two characters, which is not the parent link's.
     */
    method ChangeDir(name: seq<byte>) returns (r: int)
      requires Valid()
      modifies this`currentDir
      ensures Valid()
      ensures r != 0 ==> currentDir == old(currentDir)
      ensures name == [] ==> r == -1
      ensures name == ['/' as int] || name == ['\\' as int] ==> r == 0 && currentDir == vol.geo.root
      ensures name == ['.' as int] ==> r == 0 && currentDir == old(currentDir)
      ensures !SpecialName(name) ==>
                r == (if FatNameOf(name) !in old(Dir()) then -1
                      else if !IsFolder(old(Dir())[FatNameOf(name)]) then -2 else 0)
      ensures !SpecialName(name) && r == 0 ==> currentDir == Head(old(Dir())[FatNameOf(name)])
      ensures !SpecialName(name) && r == 0 ==> cat.depth[currentDir] == cat.depth[old(currentDir)] + 1
    {
      hide ImageOf, Layout, Geometry.ClusterToLba, Geometry.Limit, Partition, TreeOk, DirEnts, IsChain, View, Clean,
           Base, FatNameOf, Absent, Flat, NamesIn;
      if name == [] {
        return -1;
      }
      if name == [SLASH] || name == [BACKSLASH] {
        RootIsDir(vol.geo, vol.Img(), cat);
        currentDir := vol.geo.root;
        return 0;
      }
      if name == [DOT] {
        return 0;
      }
      var fname := BuildFatName(name);
      NeverDot(name);
      ghost var img, ch := vol.Img(), cat.chains[currentDir];
      Located(currentDir, fname);
      var found, lba, index;
      ghost var k;
      found, lba, index, k := FindDirEntryLoc(vol, currentDir, fname, ch);
      if !found {
        return -1;
      }
      var e := LoadSlot(vol, lba, index, ch, k);
      ViewEntry(e);
      var target, root := ClusterOf(e), vol.geo.root;
      EntryChain(vol.geo, img, cat, currentDir, PlaceOf(vol.geo, img, ch, k, lba, index));
      if !IsDir(e) {
        return -2;
      }
      if target == 0 {
        target := root;
      }
      OneDeeper(vol.geo, img, cat, currentDir, PlaceOf(vol.geo, img, ch, k, lba, index));
      currentDir := target;
      return 0;
    }

    /** What the invariant says of a directory about to be scanned for a name. */
    lemma Located(d: nat, fname: FatName)
      requires Valid() && d in cat.depth
      ensures Walks(vol, cat.chains[d]) && cat.chains[d][0] == d && InImage(vol.Img().clus, cat.chains[d])
      ensures EndsClean(DirEnts(vol.Img(), cat.chains[d]))
      ensures fname in NamesIn(vol.geo, vol.Img(), cat, d) <==> !Absent(DirEnts(vol.Img(), cat.chains[d]), fname)
      ensures forall p: nat :: NameAt(DirEnts(vol.Img(), cat.chains[d]), p, fname) ==>
                fname in NamesIn(vol.geo, vol.Img(), cat, d)
                && NamesIn(vol.geo, vol.Img(), cat, d)[fname] == DirEnts(vol.Img(), cat.chains[d])[p]
    {
      hide ImageOf, Layout, Geometry.Limit, Partition, TreeOk, DirEnts, IsChain, EndsClean, NamesUnique, NamesIn,
           Absent;
      DirIsWalk(vol.geo, vol.Img(), cat, {}, d);
      FoundName(vol.geo, vol.Img(), cat, d, fname);
    }
  }
}
