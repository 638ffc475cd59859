/**
 Laws of the file system that span several calls: reading back what was written, undoing a write or
 a directory, counting clusters, and whole runs of calls.
 */
module FsLaws {
  import opened Bytes
  import opened FatLayout
  import opened Volumes
  import opened Chains
  import opened ChainData
  import opened DirEntries
  import opened DirTree
  import opened DirScan
  import opened FileData
  import opened FileList
  import opened FileRead
  import opened FsState
  import opened FsSteps
  import opened FsEffects
  import opened Names
  import opened FileSystems
  import opened OnDisk

  // ------------------------------------------------------------------ accounting

  /** A cluster is free, marked bad, or in exactly one chain; never two of these, never none. */
  lemma NothingLeaks(g: Geometry, img: Image, cat: Catalog, c: nat)
    requires g.Valid() && Shape(g, img) && Consistent(g, img, cat, {}) && 2 <= c < g.Limit()
    ensures img.fat[c] == 0 ==> !Covered(cat.chains, c)
    ensures img.fat[c] == BAD_MARK ==> !Covered(cat.chains, c)
    ensures img.fat[c] != 0 && img.fat[c] != BAD_MARK ==> Covered(cat.chains, c)
    ensures forall h, h' :: h in cat.chains && h' in cat.chains && c in cat.chains[h] && c in cat.chains[h'] ==> h == h'
  {
    hide TreeOk, IsChain, Shape;
    Sizes(g, img);
    Parts(img.fat, g.Limit(), cat.chains, {});
    if Covered(cat.chains, c) {
      var h :| h in cat.chains && c in cat.chains[h];
      DirIsWalk(g, img, cat, {}, h);
      ChainRange(img.fat, g.Limit(), cat.chains[h], c);
      NotBad(img.fat, g.Limit(), cat.chains[h], c);
    }
  }

  lemma NotBad(fat: seq<nat>, limit: nat, ch: seq<nat>, x: nat)
    requires limit <= |fat| && limit <= BAD_MARK && IsChain(fat, limit, ch) && x in ch
    ensures x < |fat| && fat[x] != BAD_MARK
  {
    var i :| 0 <= i < |ch| && ch[i] == x;
    if i < |ch| - 1 {
      assert fat[ch[i]] == ch[i + 1];
    }
  }

  ghost function FreeClusters(fat: seq<nat>, limit: nat): set<nat>
    requires limit <= |fat|
  {
    set c | 2 <= c < limit && fat[c] == 0
  }

  /** Free clusters plus the clusters of a file and its directory are conserved by a write. */
  lemma WriteConserves(g: Geometry, img: Image, img': Image, cat: Catalog, cat': Catalog, d: nat, n: FatName,
                       data: seq<byte>, written: nat)
    requires g.Valid() && Shape(g, img) && Shape(g, img') && d in cat.depth && d in cat'.depth
    requires Consistent(g, img, cat, {}) && Consistent(g, img', cat', {})
    requires FileWritten(g, img, img', cat, cat', d, n, data, written)
    ensures var was, now := OldChain(g, img, cat, d, n), OldChain(g, img', cat', d, n);
      |FreeClusters(img'.fat, g.Limit())| + |now| + |cat'.chains[d]|
      == |FreeClusters(img.fat, g.Limit())| + |was| + |cat.chains[d]|
  {
    hide Partition, TreeOk, DirEnts, Shape, NamesIn, Written, OthersKept, IsChain, FreeClusters;
    Sizes(g, img);
    Sizes(g, img');
    FileAndDir(g, img, cat, d, n);
    FileAndDir(g, img', cat', d, n);
    Reshuffled(img.fat, img'.fat, g.Limit(), OldChain(g, img, cat, d, n), OldChain(g, img', cat', d, n),
               cat.chains[d], cat'.chains[d]);
  }

  lemma Reshuffled(fat: seq<nat>, fat': seq<nat>, limit: nat, was: seq<nat>, now: seq<nat>, dir: seq<nat>,
                   dir': seq<nat>)
    requires limit <= |fat| && FatRewritten(fat, fat', was, now, dir, dir') && dir <= dir'
    requires forall x :: x in was || x in dir || x in now || x in dir' ==> 2 <= x < limit
    ensures FreeClusters(fat', limit) + Elements(now) + Elements(dir')
            == FreeClusters(fat, limit) + Elements(was) + Elements(dir)
  {
  }

  /** Free clusters, a file's and its directory's are three disjoint sets. */
  lemma FileAndDir(g: Geometry, img: Image, cat: Catalog, d: nat, n: FatName)
    requires g.Valid() && Shape(g, img) && Consistent(g, img, cat, {}) && d in cat.depth
    ensures var ch, dir := OldChain(g, img, cat, d, n), cat.chains[d];
      && (forall x :: x in ch || x in dir ==> 2 <= x < g.Limit())
      && |FreeClusters(img.fat, g.Limit()) + Elements(ch) + Elements(dir)|
         == |FreeClusters(img.fat, g.Limit())| + |ch| + |dir|
  {
    hide Partition, TreeOk, DirEnts, Shape, NamesIn, IsChain;
    Sizes(g, img);
    var ch, dir, free := OldChain(g, img, cat, d, n), cat.chains[d], FreeClusters(img.fat, g.Limit());
    DirIsWalk(g, img, cat, {}, d);
    ChainApart(g, img, cat, d);
    if n in NamesIn(g, img, cat, d) {
      ListedChain(g, img, cat, d, n);
      ChainWalks(g, img, cat, d, n);
      var h := NamesIn(g, img, cat, d)[n].cluster;
      if h != 0 {
        ChainApart(g, img, cat, h);
        Parts(img.fat, g.Limit(), cat.chains, {});
      }
    }
    assert Elements(ch) !! Elements(dir) && free !! Elements(ch) && free !! Elements(dir);
    if ch == [] {
      assert Elements(ch) == {};
    }
  }

  lemma ChainApart(g: Geometry, img: Image, cat: Catalog, h: nat)
    requires g.Valid() && Shape(g, img) && Consistent(g, img, cat, {}) && h in cat.chains
    ensures |Elements(cat.chains[h])| == |cat.chains[h]|
    ensures forall x :: x in cat.chains[h] ==> 2 <= x < g.Limit() <= |img.fat| && img.fat[x] != 0
  {
    hide Partition, TreeOk, DirEnts, Shape, IsChain;
    Sizes(g, img);
    DirIsWalk(g, img, cat, {}, h);
    ChainFits(img.fat, g.Limit(), cat.chains[h]);
    forall x | x in cat.chains[h]
      ensures 2 <= x < g.Limit() && img.fat[x] != 0
    {
      ChainRange(img.fat, g.Limit(), cat.chains[h], x);
    }
  }

  // -------------------------------------------------------------- read after write

  /** The file a write leaves behind holds the data written, and has a chain if any was. */
  lemma WrittenFile(g: Geometry, img: Image, img': Image, cat: Catalog, cat': Catalog, d: nat, n: FatName,
                    data: seq<byte>, written: nat)
    requires g.Valid() && Shape(g, img) && Shape(g, img') && d in cat.depth && d in cat'.depth
    requires Consistent(g, img, cat, {}) && Consistent(g, img', cat', {})
    requires FileWritten(g, img, img', cat, cat', d, n, data, written)
    ensures n in NamesIn(g, img', cat', d)
    ensures HoldsData(SectorsOf(g, img', cat', d, n), data, written)
    ensures written <= |data| && written <= |SectorsOf(g, img', cat', d, n)| * SECTOR_SIZE
    ensures NamesIn(g, img', cat', d)[n].cluster == 0 ==> written == 0
    ensures !IsFolder(NamesIn(g, img', cat', d)[n])
  {
    hide Partition, TreeOk, DirEnts, Shape, NamesIn, OthersKept, IsChain, FatRewritten, LowestFree, ClustersNeeded;
    ChainWalks(g, img', cat', d, n);
  }

  lemma ReadBack(now: seq<byte>, was: seq<byte>, secs: seq<Sector>, data: seq<byte>, written: nat, n: nat)
    requires HoldsData(secs, data, written) && n <= written && Copied(now, was, secs, n)
    ensures now[..n] == data[..n]
  {
    hide Content;
    assert Content(secs)[..n] == Content(secs)[..written][..n];
    assert now[..n] == Content(secs)[..n];
  }

  /** What the last write left behind is a file of the directory it was made in. */
  lemma StoredFile(fs: FileSystem, img: Image, cat: Catalog, n: FatName, data: seq<byte>, written: nat)
    requires fs.Valid() && Shape(fs.vol.geo, img) && Consistent(fs.vol.geo, img, cat, {}) && fs.currentDir in cat.depth
    requires FileWritten(fs.vol.geo, img, fs.vol.Img(), cat, fs.cat, fs.currentDir, n, data, written)
    ensures n in fs.Dir() && HoldsData(fs.File(n), data, written) && written <= |data|
    ensures written <= |fs.File(n)| * SECTOR_SIZE
    ensures Head(fs.Dir()[n]) == 0 ==> written == 0
    ensures !IsFolder(fs.Dir()[n])
  {
    hide ImageOf, Layout, Consistent, DirEnts, Flat, NamesIn, FileWritten, HoldsData, SectorsOf, Shape;
    WrittenFile(fs.vol.geo, img, fs.vol.Img(), cat, fs.cat, fs.currentDir, n, data, written);
    ListedChain(fs.vol.geo, fs.vol.Img(), fs.cat, fs.currentDir, n);
  }

  lemma FolderHasHead(fs: FileSystem, n: FatName)
    requires fs.Valid()
    ensures n in fs.Dir() && IsFolder(fs.Dir()[n]) ==> Head(fs.Dir()[n]) != 0
  {
    hide ImageOf, Layout, Consistent, NamesIn;
    if n in fs.Dir() && IsFolder(fs.Dir()[n]) {
      ListedChain(fs.vol.geo, fs.vol.Img(), fs.cat, fs.currentDir, n);
      InChains(fs.vol.geo, fs.vol.Img(), fs.cat, fs.Dir()[n].cluster);
      ZeroIsNoChain(fs.vol.geo, fs.vol.Img(), fs.cat);
    }
  }

  /**
   What a file was given, it gives back: any prefix of what was written. The results are the counts
   themselves below 2^31.
   */
  method WriteThenRead(fs: FileSystem, name: seq<byte>, data: seq<byte>, buffer: array<byte>, n: nat)
    returns (w: int, r: int, ghost outcome: WriteOutcome)
    requires fs.Valid() && ValidName(name) && fs.CanGrow() && n <= buffer.Length && n < 0x1_0000_0000
    requires |data| < 0x1_0000_0000 && HopsSuffice(fs.vol.geo.Limit(), ClustersNeeded(fs.vol.geo, |data|))
    requires FitsReadBuffer(name) && ReadNameOf(name) == FatNameOf(name)
    modifies fs`cat, fs.vol.disk, buffer
    ensures outcome.Wrote? ==> outcome.written <= |data|
    ensures outcome.Wrote? && outcome.written < 0x8000_0000 ==> 0 <= w == outcome.written
    ensures outcome.Wrote? && n <= outcome.written ==> buffer[..n] == data[..n] && (n < 0x8000_0000 ==> r == n)
  {
    hide ImageOf, Layout, Consistent, NamesIn, FileSystem.File, FileSystem.Full, FatNameOf, ReadNameOf, Head,
         FileWritten, ClustersNeeded, HopsSuffice, Copied, HoldsData, IsFolder;
    ghost var img, cat, fname := fs.vol.Img(), fs.cat, FatNameOf(name);
    w, outcome := fs.WriteFile(name, data);
    if outcome.Wrote? {
      StoredFile(fs, img, cat, fname, data, outcome.written);
    }
    r := 0;
    if n == 0 || w != 0 {
      FolderHasHead(fs, fname);
      ghost var secs := if outcome.Wrote? then fs.File(fname) else [];
      ghost var was := buffer[..];
      ghost var got;
      r, got := fs.ReadFile(name, buffer, n);
      if outcome.Wrote? && n != 0 && n <= outcome.written {
        ReadBack(buffer[..], was, secs, data, outcome.written, n);
      }
    }
  }

  /**
   Looking for the file just written under its typed name, as a read of nothing does: found if the two
   conversions agree, and otherwise only if the directory already had a file under the reader's form.
   */
  method WriteThenProbe(fs: FileSystem, name: seq<byte>, data: seq<byte>, buffer: array<byte>)
    returns (r: int, ghost outcome: WriteOutcome)
    requires fs.Valid() && ValidName(name) && fs.CanGrow() && FitsReadBuffer(name)
    requires |data| < 0x1_0000_0000 && HopsSuffice(fs.vol.geo.Limit(), ClustersNeeded(fs.vol.geo, |data|))
    modifies fs`cat, fs.vol.disk, buffer
    ensures outcome.Wrote? ==> r == if DotIndex(name, 0) <= BASE_LENGTH || BlankTail(name)
                                       || ReadNameOf(name) in old(fs.Dir()) then 0 else -1
  {
    hide ImageOf, Layout, Consistent, FatNameOf, ReadNameOf, FileSystem.Full, FileSystem.File, FileWritten, NamesIn,
         ClustersNeeded, HopsSuffice, Copied, FileSystem.BelowFiles, FileSystem.ZeroReadable, DotIndex, BlankTail;
    ghost var img, cat, names := fs.vol.Img(), fs.cat, fs.Dir();
    ReadNameAgrees(name);
    var w;
    w, outcome := fs.WriteFile(name, data);
    if outcome.Wrote? {
      StoredNames(fs, img, cat, FatNameOf(name), data, outcome.written);
    }
    ghost var got;
    r, got := fs.ReadFile(name, buffer, 0);
  }

  lemma StoredNames(fs: FileSystem, img: Image, cat: Catalog, n: FatName, data: seq<byte>, written: nat)
    requires fs.Valid() && Shape(fs.vol.geo, img) && Consistent(fs.vol.geo, img, cat, {}) && fs.currentDir in cat.depth
    requires FileWritten(fs.vol.geo, img, fs.vol.Img(), cat, fs.cat, fs.currentDir, n, data, written)
    ensures fs.Dir().Keys == NamesIn(fs.vol.geo, img, cat, fs.currentDir).Keys + {n}
  {
    hide ImageOf, Layout, Consistent, DirEnts, NamesIn, Shape, Written, OthersKept, FatRewritten;
  }

  // ------------------------------------------------------------------------- listings

  /** A listing that did not reach its limit shows exactly the entries of the directory, besides "." and "..". */
  lemma ListingIsDir(g: Geometry, img: Image, cat: Catalog, d: nat, limit: nat, out: seq<DirItem>)
    requires g.Valid() && Shape(g, img) && Consistent(g, img, cat, {}) && d in cat.depth
             && InImage(img.clus, cat.chains[d])
    requires Listed(DirSlots(img, cat.chains[d]), limit, out) && |out| < limit
    ensures forall n :: n in NamesIn(g, img, cat, d) ==>
              && NamesIn(g, img, cat, d)[n].Entry?
              && DirItem(Shown(n), NamesIn(g, img, cat, d)[n].size, NamesIn(g, img, cat, d)[n].isDir) in out
    ensures forall it :: it in out ==>
              || (exists n :: n in NamesIn(g, img, cat, d) && NamesIn(g, img, cat, d)[n].Entry?
                              && it.name == Shown(n) && it.size == NamesIn(g, img, cat, d)[n].size
                              && it.isDir == NamesIn(g, img, cat, d)[n].isDir)
              || (it.name != [] && it.name[0] == '.' as int)
  {
    hide Partition, TreeOk, Shape, NamesIn, EndsClean, NamesUnique, IsChain, Listed, Shown, Flat, Slots, Ents;
    var slots, names := DirSlots(img, cat.chains[d]), NamesIn(g, img, cat, d);
    CompleteListing(slots, limit, out);
    forall n | n in names
      ensures names[n].Entry? && DirItem(Shown(n), names[n].size, names[n].isDir) in out
    {
      FoundName(g, img, cat, d, n);
      var p: nat :| NameAt(Ents(slots), p, n);
    }
    forall it | it in out && !(it.name != [] && it.name[0] == DOT)
      ensures exists n :: n in names && names[n].Entry? && it.name == Shown(n) && it.size == names[n].size
                          && it.isDir == names[n].isDir
    {
      var p :| 0 <= p < |slots| && Ents(slots)[p].Entry? && it == ItemFor(Ents(slots)[p]);
      var n := Ents(slots)[p].name;
      assert NameAt(Ents(slots), p, n);
      FoundName(g, img, cat, d, n);
    }
  }

  /** A file written under a valid 8.3 name is listed under that name, with the size written. */
  method WriteThenList(fs: FileSystem, name: seq<byte>, data: seq<byte>, limit: nat)
    returns (out: seq<DirItem>, ghost outcome: WriteOutcome)
    requires fs.Valid() && ValidName(name) && fs.CanGrow() && EightDotThree(name)
    requires |data| < 0x1_0000_0000 && HopsSuffice(fs.vol.geo.Limit(), ClustersNeeded(fs.vol.geo, |data|))
    modifies fs`cat, fs.vol.disk
    ensures outcome.Wrote? && |out| < limit ==> DirItem(name, outcome.written, false) in out
  {
    hide ImageOf, Layout, Consistent, FatNameOf, FileSystem.Full, FileSystem.File, FileWritten, ClustersNeeded,
         HopsSuffice, EightDotThree, Shown, NamesIn, Listed, DirSlots;
    ghost var img, cat := fs.vol.Img(), fs.cat;
    var w;
    w, outcome := fs.WriteFile(name, data);
    out := fs.ListDir(limit);
    if outcome.Wrote? && |out| < limit {
      ListingIsDir(fs.vol.geo, fs.vol.Img(), fs.cat, fs.currentDir, limit, out);
      StoredItem(fs, img, cat, FatNameOf(name), data, outcome.written);
      ShownBack(name);
    }
  }

  lemma StoredItem(fs: FileSystem, img: Image, cat: Catalog, n: FatName, data: seq<byte>, written: nat)
    requires fs.Valid() && Shape(fs.vol.geo, img) && Consistent(fs.vol.geo, img, cat, {}) && fs.currentDir in cat.depth
    requires FileWritten(fs.vol.geo, img, fs.vol.Img(), cat, fs.cat, fs.currentDir, n, data, written)
    ensures n in fs.Dir() && fs.Dir()[n].Entry? && fs.Dir()[n].name == n && fs.Dir()[n].size == written
    ensures !fs.Dir()[n].isDir
  {
    hide ImageOf, Layout, Consistent, DirEnts, NamesIn, Shape, Written, OthersKept, FatRewritten;
  }

  // --------------------------------------------------------------- resize accounting

  lemma CeilIs(w: nat, b: nat, k: nat)
    requires 0 < b && w <= k * b && (0 < k ==> (k - 1) * b < w)
    ensures (w + b - 1) / b == k
  {
    if 0 < k {
      MulNext(k - 1, b);
      var q := (w + b - 1) / b;
      DivMul(w + b - 1, b);
      if q < k {
        MulMono(q + 1, k, b);
      } else if k < q {
        MulMono(k + 1, q, b);
      }
    }
  }

  /**
   After any write the chain has exactly the clusters its bytes need. A short write ends on a cluster
   boundary; unless the size comes within a cluster of 2^32, it means the volume is full. A write never
   moves a cluster: it cuts the old chain or adds to it.
   */
  lemma ResizeExact(g: Geometry, img: Image, was: seq<nat>, now: seq<nat>, data: seq<byte>, written: nat)
    requires g.Valid() && Shape(g, img) && InImage(img.clus, now)
             && forall i :: 0 <= i < |now| ==> 2 <= now[i] < g.Limit()
    requires Written(g, img, was, now, data, written) && |data| < 0x1_0000_0000
    ensures |now| == (written + g.BytesPerCluster() - 1) / g.BytesPerCluster()
    ensures written < |data| ==> written == |now| * g.BytesPerCluster()
    ensures written < |data| && |data| + g.BytesPerCluster() <= 0x1_0000_0000 ==> LowestFree(img.fat, g.Limit(), 0)
    ensures |now| <= |was| ==> now == was[..|now|]
    ensures |was| <= |now| ==> was == now[..|was|]
  {
    forall i | 0 <= i < |now|
      ensures |img.clus[now[i]]| == g.sectorsPerCluster
    {
      ClusterSize(g, img, now[i]);
    }
    BytesOf(g, img.clus, now);
    var b := g.BytesPerCluster();
    if 0 < |now| {
      NeededIsUsed(g, |data|, |now| - 1);
      MulNext(|now| - 1, b);
    }
    hide Shape, Flat, LowestFree;
    assert written == Min(|data|, |now| * b);
    CeilIs(written, b, |now|);
    if written < |data| && |data| + b <= 0x1_0000_0000 {
      NeededCovers(g, |data|);
      MulMono(|now|, ClustersNeeded(g, |data|), b);
      assert |now| != ClustersNeeded(g, |data|);
    }
  }

  /** The clusters a write asks for hold its data exactly when rounding up does not leave 32 bits. */
  lemma NeededCovers(g: Geometry, size: nat)
    requires g.Valid() && size < 0x1_0000_0000
    ensures size <= ClustersNeeded(g, size) * g.BytesPerCluster() <==> size + g.BytesPerCluster() <= 0x1_0000_0000
    ensures size + g.BytesPerCluster() > 0x1_0000_0000 ==> ClustersNeeded(g, size) == 0
  {
    var b := g.BytesPerCluster();
    assert 0 < b < 0x2_0000;
    var w := size + b - 1;
    if w < 0x1_0000_0000 {
      RoundUp(size, b);
    } else {
      assert w % 0x1_0000_0000 == w - 0x1_0000_0000;
      SmallQuotient(w - 0x1_0000_0000, b);
    }
  }

  lemma RoundUp(size: nat, b: nat)
    requires 0 < b
    ensures size <= (size + b - 1) / b * b
  {
    var w := size + b - 1;
    assert w == w / b * b + w % b;
  }

  lemma SmallQuotient(w: nat, b: nat)
    requires w < b
    ensures w / b == 0
  {
  }

  // ---------------------------------------------------------- what a call undoes

  /**
   Directory d lists what it did, every other file and directory keeps its clusters and bytes, and
   the FAT is as it was but for at most one cluster the directory's own chain gained.
   */
  ghost predicate Restored(g: Geometry, img: Image, img': Image, cat: Catalog, cat': Catalog, d: nat)
    requires g.Valid() && Shape(g, img) && Shape(g, img') && d in cat.depth && d in cat'.depth
    requires Consistent(g, img, cat, {}) && Consistent(g, img', cat', {})
  {
    && NamesIn(g, img', cat', d) == NamesIn(g, img, cat, d)
    && cat'.chains == cat.chains[d := cat'.chains[d]]
    && OthersKept(img, img', cat, cat', {d})
    && cat.chains[d] <= cat'.chains[d] && |cat'.chains[d]| <= |cat.chains[d]| + 1
    && FatGrown(img.fat, img'.fat, cat.chains[d], cat'.chains[d])
  }

  /** A fresh chain linked in and then freed again. */
  lemma TookAndFreed(fat: seq<nat>, fat1: seq<nat>, fat2: seq<nat>, now: seq<nat>, dir: seq<nat>, dir': seq<nat>)
    requires FatRewritten(fat, fat1, [], now, dir, dir') && Freed(fat1, fat2, now)
    requires forall x :: x in now ==> x !in dir'
    ensures FatGrown(fat, fat2, dir, dir')
  {
  }

  /** Adding a name with a chain of its own, then erasing it, restores the volume. */
  lemma AddErase(g: Geometry, img: Image, img1: Image, img2: Image, cat: Catalog, cat1: Catalog, cat2: Catalog, d: nat,
                 e: Ent, now: seq<nat>, keep: set<nat>)
    requires g.Valid() && Shape(g, img) && Shape(g, img1) && Shape(g, img2)
    requires d in cat.depth && d in cat1.depth && d in cat2.depth
    requires Consistent(g, img, cat, {}) && Consistent(g, img1, cat1, {}) && Consistent(g, img2, cat2, {})
    requires e.Entry? && e.name !in NamesIn(g, img, cat, d)
    requires NamesIn(g, img1, cat1, d) == NamesIn(g, img, cat, d)[e.name := e] && ChainOf(cat1, e) == now
    requires OthersKept(img, img1, cat, cat1, keep) && keep <= {0, d}
    requires cat.chains[d] <= cat1.chains[d] && |cat1.chains[d]| <= |cat.chains[d]| + 1
    requires FatRewritten(img.fat, img1.fat, [], now, cat.chains[d], cat1.chains[d])
    requires NamesIn(g, img2, cat2, d) == NamesIn(g, img1, cat1, d) - {e.name}
    requires cat2.chains == cat1.chains - {e.cluster} && Freed(img1.fat, img2.fat, now)
    requires OthersKept(img1, img2, cat1, cat2, {e.cluster, d})
    ensures Restored(g, img, img2, cat, cat2, d)
  {
    hide Partition, TreeOk, DirEnts, Shape, NamesIn, Flat, InImage, IsChain, Freed, FatRewritten;
    assert NamesIn(g, img1, cat1, d)[e.name] == e;
    ListedChain(g, img1, cat1, d, e.name);
    ChainsMeet(g, img1, cat1, d, e.cluster);
    FreshHead(g, img, img1, cat, cat1, d, e, now);
    TookAndFreed(img.fat, img1.fat, img2.fat, now, cat.chains[d], cat1.chains[d]);
    forall h | h in cat1.chains
      ensures h in cat.chains || h == e.cluster
    {
      NoOtherChain(g, img, img1, cat, cat1, d, e.cluster, h, now, keep);
    }
    ZeroIsNoChain(g, img, cat);
    ChainsRestored(cat, cat1, cat2, img, img1, img2, d, e.cluster, keep);
  }

  lemma ChainsRestored(cat: Catalog, cat1: Catalog, cat2: Catalog, img: Image, img1: Image, img2: Image, d: nat, n: nat,
                       keep: set<nat>)
    requires d in cat.chains && d in cat1.chains && n !in cat.chains && n != d && 0 !in cat.chains && keep <= {0, d}
    requires OthersKept(img, img1, cat, cat1, keep) && OthersKept(img1, img2, cat1, cat2, {n, d})
    requires cat2.chains == cat1.chains - {n} && forall h :: h in cat1.chains ==> h in cat.chains || h == n
    ensures cat2.chains == cat.chains[d := cat2.chains[d]] && OthersKept(img, img2, cat, cat2, {d})
  {
    hide SameBytes;
    forall h | h in cat.chains && h != d
      ensures h in cat2.chains && cat2.chains[h] == cat.chains[h] && SameBytes(img, img2, cat.chains[h])
    {
      assert h !in keep && h in cat1.chains && h !in {n, d};
      SameTwice(img, img1, img2, cat.chains[h]);
    }
  }

  lemma SameTwice(img: Image, img1: Image, img2: Image, ch: seq<nat>)
    requires SameBytes(img, img1, ch) && SameBytes(img1, img2, ch)
    ensures SameBytes(img, img2, ch)
  {
    hide Flat;
  }

  /** A chain built of free clusters is headed by none of the old ones. */
  lemma FreshHead(g: Geometry, img: Image, img1: Image, cat: Catalog, cat1: Catalog, d: nat, e: Ent, now: seq<nat>)
    requires g.Valid() && Shape(g, img) && Shape(g, img1) && d in cat.depth && d in cat1.depth && e.Entry?
    requires Consistent(g, img, cat, {}) && Consistent(g, img1, cat1, {})
    requires ChainOf(cat1, e) == now && FatRewritten(img.fat, img1.fat, [], now, cat.chains[d], cat1.chains[d])
    requires e.cluster == 0 || e.cluster in cat1.chains
    ensures e.cluster !in cat.chains
  {
    hide Partition, TreeOk, DirEnts, Shape, IsChain;
    ZeroIsNoChain(g, img, cat);
    if e.cluster != 0 {
      DirIsWalk(g, img1, cat1, {}, e.cluster);
      assert now[0] in now;
    }
    if e.cluster in cat.chains {
      HeadNotFree(g, img, cat, e.cluster);
    }
  }

  /** The only chain that is new is the one built. */
  lemma NoOtherChain(g: Geometry, img: Image, img1: Image, cat: Catalog, cat1: Catalog, d: nat, n: nat, h: nat,
                     now: seq<nat>, keep: set<nat>)
    requires g.Valid() && Shape(g, img) && Shape(g, img1) && d in cat.depth && d in cat1.depth
    requires Consistent(g, img, cat, {}) && Consistent(g, img1, cat1, {}) && h in cat1.chains
    requires OthersKept(img, img1, cat, cat1, keep) && keep <= {0, d} && cat.chains[d] <= cat1.chains[d]
    requires now == if n in cat1.chains then cat1.chains[n] else []
    requires FatRewritten(img.fat, img1.fat, [], now, cat.chains[d], cat1.chains[d])
    ensures h in cat.chains || h == n
  {
    hide TreeOk, DirEnts, Shape, IsChain, SameBytes, FatRewritten;
    Sizes(g, img);
    Sizes(g, img1);
    HeadNotFree(g, img1, cat1, h);
    DirIsWalk(g, img1, cat1, {}, h);
    assert cat1.chains[h][0] in cat1.chains[h];
    NotBad(img1.fat, g.Limit(), cat1.chains[h], h);
    ZeroIsNoChain(g, img, cat);
    if h != n && h != d {
      assert h !in now && h !in cat1.chains[d];
      KeptEntry(img.fat, img1.fat, now, cat.chains[d], cat1.chains[d], h);
      assert Covered(cat.chains, h);
      var k :| k in cat.chains && h in cat.chains[k];
      assert k == h;
    }
  }

  lemma KeptEntry(fat: seq<nat>, fat': seq<nat>, now: seq<nat>, dir: seq<nat>, dir': seq<nat>, x: nat)
    requires FatRewritten(fat, fat', [], now, dir, dir') && x < |fat| && x !in now && x !in dir'
    ensures |fat'| == |fat| && fat'[x] == fat[x]
  {
  }

  lemma HeadNotFree(g: Geometry, img: Image, cat: Catalog, h: nat)
    requires g.Valid() && Shape(g, img) && Consistent(g, img, cat, {}) && h in cat.chains
    ensures h < |img.fat| && img.fat[h] != 0
  {
    hide Partition, TreeOk, DirEnts, Shape, IsChain;
    DirIsWalk(g, img, cat, {}, h);
    ChainApart(g, img, cat, h);
    assert cat.chains[h][0] in cat.chains[h];
  }

  lemma ChainsMeet(g: Geometry, img: Image, cat: Catalog, d: nat, h: nat)
    requires g.Valid() && Shape(g, img) && Consistent(g, img, cat, {}) && d in cat.chains && h != d
    ensures h in cat.chains ==> forall x :: x in cat.chains[h] ==> x !in cat.chains[d]
  {
    hide TreeOk, DirEnts, Shape, IsChain, NoLeak, Covered;
  }

  /** Writing a new file and removing it again. */
  method WriteThenRemove(fs: FileSystem, name: seq<byte>, data: seq<byte>) returns (r: int, ghost outcome: WriteOutcome)
    requires fs.Valid() && ValidName(name) && fs.CanGrow() && FatNameOf(name) !in fs.Dir()
    requires |data| < 0x1_0000_0000 && HopsSuffice(fs.vol.geo.Limit(), ClustersNeeded(fs.vol.geo, |data|))
    modifies fs`cat, fs.vol.disk
    ensures fs.Valid() && !outcome.IsDirectory? && r == if outcome.Wrote? then 0 else -1
    ensures Restored(fs.vol.geo, old(fs.vol.Img()), fs.vol.Img(), old(fs.cat), fs.cat, fs.currentDir)
  {
    hide ImageOf, Layout, Consistent, FatNameOf, NamesIn, FileSystem.Full, FileSystem.File, FileWritten, ClustersNeeded,
         HopsSuffice, Restored, OthersKept, Freed, SameBytes, ChainOf;
    ghost var img, cat := fs.vol.Img(), fs.cat;
    var w;
    w, outcome := fs.WriteFile(name, data);
    if outcome.Wrote? {
      StoredFile(fs, img, cat, FatNameOf(name), data, outcome.written);
    }
    ghost var img1, cat1 := fs.vol.Img(), fs.cat;
    r := fs.RemoveFile(name);
    if outcome.Wrote? {
      WriteErased(fs.vol.geo, img, img1, fs.vol.Img(), cat, cat1, fs.cat, fs.currentDir, FatNameOf(name), data,
                  outcome.written);
    } else {
      RestoredSelf(fs.vol.geo, img, cat, fs.currentDir);
    }
  }

  lemma RestoredSelf(g: Geometry, img: Image, cat: Catalog, d: nat)
    requires g.Valid() && Shape(g, img) && Consistent(g, img, cat, {}) && d in cat.depth
    ensures Restored(g, img, img, cat, cat, d)
  {
    hide Partition, TreeOk, DirEnts, Shape, NamesIn, Flat, IsChain;
    KeptSelf(img, cat);
  }

  lemma WriteErased(g: Geometry, img: Image, img1: Image, img2: Image, cat: Catalog, cat1: Catalog, cat2: Catalog,
                    d: nat, n: FatName, data: seq<byte>, written: nat)
    requires g.Valid() && Shape(g, img) && Shape(g, img1) && Shape(g, img2)
    requires d in cat.depth && d in cat1.depth && d in cat2.depth
    requires Consistent(g, img, cat, {}) && Consistent(g, img1, cat1, {}) && Consistent(g, img2, cat2, {})
    requires n !in NamesIn(g, img, cat, d) && FileWritten(g, img, img1, cat, cat1, d, n, data, written)
    requires n in NamesIn(g, img1, cat1, d) && NamesIn(g, img2, cat2, d) == NamesIn(g, img1, cat1, d) - {n}
    requires var e := NamesIn(g, img1, cat1, d)[n];
      cat2.chains == cat1.chains - {Head(e)} && Freed(img1.fat, img2.fat, ChainOf(cat1, e))
      && OthersKept(img1, img2, cat1, cat2, {Head(e), d})
    ensures Restored(g, img, img2, cat, cat2, d)
  {
    hide Consistent, DirEnts, Shape, NamesIn, Written, OthersKept, FatRewritten, Freed, Restored;
    var e := NamesIn(g, img1, cat1, d)[n];
    AddErase(g, img, img1, img2, cat, cat1, cat2, d, e, ChainOf(cat1, e), {0, d});
  }

  /** Making a directory and removing it again. */
  method MkdirThenRmdir(fs: FileSystem, name: seq<byte>) returns (m: int, r: int)
    requires fs.Valid() && ValidName(name) && fs.CanGrow() && FatNameOf(name) !in fs.Dir()
    modifies fs`cat, fs.vol.disk
    ensures fs.Valid() && (m == -2 ==> r == -1) && (m != -2 ==> m == 0 && r == 0)
    ensures Restored(fs.vol.geo, old(fs.vol.Img()), fs.vol.Img(), old(fs.cat), fs.cat, fs.currentDir)
  {
    hide ImageOf, Layout, Consistent, FatNameOf, NamesIn, DirMade, HopsSuffice, Restored, OthersKept, Freed, SameBytes,
         ChainOf, NoRoomForDir;
    ghost var img, cat := fs.vol.Img(), fs.cat;
    m := fs.Mkdir(name);
    ghost var img1, cat1 := fs.vol.Img(), fs.cat;
    if m == 0 {
      MadeDir(fs, img, cat, FatNameOf(name));
    } else {
      SeedForgotten(fs.vol.geo, img, img1, cat, fs.currentDir);
    }
    r := fs.Rmdir(name);
    if m == 0 {
      MakeErased(fs.vol.geo, img, img1, fs.vol.Img(), cat, cat1, fs.cat, fs.currentDir, FatNameOf(name));
    }
  }

  /**
   Making a directory and entering it: an empty one, a level down, whose "." names itself and whose ".."
   names where it was made, or 0 for the root.
   */
  method MkdirThenEnter(fs: FileSystem, name: seq<byte>) returns (m: int, c: int)
    requires fs.Valid() && ValidName(name) && fs.CanGrow() && FatNameOf(name) !in fs.Dir() && !SpecialName(name)
    modifies fs`cat, fs`currentDir, fs.vol.disk
    ensures fs.Valid() && (m == 0 || m == -2) && c == (if m == 0 then 0 else -1)
    ensures m != 0 ==> fs.currentDir == old(fs.currentDir)
    ensures m == 0 ==>
              && fs.currentDir in fs.cat.chains && fs.currentDir != old(fs.currentDir) && fs.Dir() == map[]
              && InImage(fs.vol.Img().clus, fs.cat.chains[fs.currentDir])
              && var ents := DirEnts(fs.vol.Img(), fs.cat.chains[fs.currentDir]);
              && 2 <= |ents| && ents[0] == Dot(true, fs.currentDir)
              && ents[1] == DotDot(true, if old(fs.currentDir) == fs.vol.geo.root then 0 else old(fs.currentDir))
  {
    hide ImageOf, Layout, Consistent, FatNameOf, NamesIn, DirMade, HopsSuffice, OthersKept, NoRoomForDir, DirEnts,
         InImage;
    ghost var img, cat, d := fs.vol.Img(), fs.cat, fs.currentDir;
    m := fs.Mkdir(name);
    if m == 0 {
      MadeDir(fs, img, cat, FatNameOf(name));
      DotsOfDir(fs.vol.geo, fs.vol.Img(), fs.cat, d, FatNameOf(name));
    } else {
      SeedForgotten(fs.vol.geo, img, fs.vol.Img(), cat, d);
    }
    c := fs.ChangeDir(name);
  }

  /** The first two slots of a listed directory. */
  lemma DotsOfDir(g: Geometry, img: Image, cat: Catalog, d: nat, n: FatName)
    requires g.Valid() && Shape(g, img) && Consistent(g, img, cat, {}) && d in cat.depth
    requires n in NamesIn(g, img, cat, d) && IsFolder(NamesIn(g, img, cat, d)[n])
    ensures var h := Head(NamesIn(g, img, cat, d)[n]);
      && h in cat.chains && h != d && InImage(img.clus, cat.chains[h])
      && var ents := DirEnts(img, cat.chains[h]);
      2 <= |ents| && ents[0] == Dot(true, h) && ents[1] == DotDot(true, if d == g.root then 0 else d)
  {
    hide Partition, TreeOk, DirEnts, Shape, NamesIn, NamesUnique, EndsClean, IsChain;
    FoundName(g, img, cat, d, n);
    var p: nat :| NameAt(DirEnts(img, cat.chains[d]), p, n);
    EntryChain(g, img, cat, d, p);
    var h := Head(NamesIn(g, img, cat, d)[n]);
    InChains(g, img, cat, h);
    DirIsWalk(g, img, cat, {}, h);
    DotsOfEntry(TreeOf(img, g.root, cat), d, p);
  }

  lemma DotsOfEntry(t: Tree, d: nat, p: nat)
    requires TreeOk(t) && d in t.dirs && p < |t.dirs[d]| && IsFolder(t.dirs[d][p])
    ensures var h := t.dirs[d][p].cluster; h in t.dirs && Dotted(t.dirs[h], h, d, t.root)
  {
    hide AllOwned, DirsClean, Dotted;
    assert EntryOwns(t.dirs[d][p], d, p, t);
  }

  lemma MadeDir(fs: FileSystem, img: Image, cat: Catalog, n: FatName)
    requires fs.Valid() && Shape(fs.vol.geo, img) && Consistent(fs.vol.geo, img, cat, {}) && fs.currentDir in cat.depth
    requires DirMade(fs.vol.geo, img, fs.vol.Img(), cat, fs.cat, fs.currentDir, n)
    ensures n in fs.Dir() && IsFolder(fs.Dir()[n]) && fs.NamesOf(Head(fs.Dir()[n])) == map[]
  {
    hide ImageOf, Layout, Consistent, DirEnts, NamesIn, Shape;
  }

  lemma SeedForgotten(g: Geometry, img: Image, img': Image, cat: Catalog, d: nat)
    requires g.Valid() && Shape(g, img) && Shape(g, img') && Consistent(g, img, cat, {}) && d in cat.depth
    requires Consistent(g, img', cat, {}) && img'.fat == img.fat && OthersKept(img, img', cat, cat, {})
    ensures Restored(g, img, img', cat, cat, d) && NamesIn(g, img', cat, d) == NamesIn(g, img, cat, d)
  {
    hide Partition, TreeOk, DirEnts, Shape, Flat, IsChain, Listing;
    DirIsWalk(g, img, cat, {}, d);
    assert SameBytes(img, img', cat.chains[d]);
    SameEnts(img, img', cat.chains[d]);
  }

  lemma MakeErased(g: Geometry, img: Image, img1: Image, img2: Image, cat: Catalog, cat1: Catalog, cat2: Catalog,
                   d: nat, n: FatName)
    requires g.Valid() && Shape(g, img) && Shape(g, img1) && Shape(g, img2)
    requires d in cat.depth && d in cat1.depth && d in cat2.depth
    requires Consistent(g, img, cat, {}) && Consistent(g, img1, cat1, {}) && Consistent(g, img2, cat2, {})
    requires n !in NamesIn(g, img, cat, d) && DirMade(g, img, img1, cat, cat1, d, n)
    requires n in NamesIn(g, img1, cat1, d) && NamesIn(g, img2, cat2, d) == NamesIn(g, img1, cat1, d) - {n}
    requires var e := NamesIn(g, img1, cat1, d)[n];
      cat2.chains == cat1.chains - {Head(e)} && Freed(img1.fat, img2.fat, ChainOf(cat1, e))
      && OthersKept(img1, img2, cat1, cat2, {Head(e), d})
    ensures Restored(g, img, img2, cat, cat2, d)
  {
    hide Consistent, DirEnts, Shape, NamesIn, OthersKept, FatRewritten, Freed, Restored;
    var e := NamesIn(g, img1, cat1, d)[n];
    AddErase(g, img, img1, img2, cat, cat1, cat2, d, e, ChainOf(cat1, e), {d});
  }

  // ------------------------------------------------------------------- a fresh volume

  /** A volume with an empty root directory and nothing else meets the invariant. */
  lemma FormattedIsConsistent(g: Geometry, img: Image)
    requires g.Valid() && Shape(g, img) && img.fat[g.root] >= EOC_MIN && img.clus[g.root] == Zeros(g.sectorsPerCluster)
    requires forall c :: 2 <= c < g.Limit() && c != g.root ==> img.fat[c] == 0
    ensures Consistent(g, img, Catalog(map[g.root := [g.root]], map[], map[g.root := 0]), {})
    ensures NamesIn(g, img, Catalog(map[g.root := [g.root]], map[], map[g.root := 0]), g.root) == map[]
  {
    hide Slots, Ents, View, Flat, Zeros;
    var cat := Catalog(map[g.root := [g.root]], map[], map[g.root := 0]);
    FlatOne(img.clus, g.root);
    var ents := DirEnts(img, [g.root]);
    ZerosAreUnused(g.sectorsPerCluster);
    assert ents == Ents(Slots(Zeros(g.sectorsPerCluster)));
    assert cat.chains[g.root][0] in cat.chains[g.root];
    assert Covered(cat.chains, g.root);
    assert TreeOk(TreeOf(img, g.root, cat));
    NoNames(ents);
  }

  /** The sectors of a freshly formatted volume: equal FAT copies, one empty root cluster, everything else free. */
  ghost predicate Formatted(g: Geometry, d: seq<Sector>) {
    && Layout(g, d)
    && RawEntry(g, d, g.root) % LINK_SPAN >= EOC_MIN
    && (forall c :: 2 <= c < g.Limit() && c != g.root ==> RawEntry(g, d, c) % LINK_SPAN == 0)
    && ClusterAt(g, d, g.root) == Zeros(g.sectorsPerCluster)
  }

  /** A volume as a formatter leaves it: an end mark at the root, every other entry 0, the root's sectors zero. */
  ghost predicate FreshlyMade(v: StoredVolume, links: seq<nat>)
    requires v.Sized() && v.Links(links) && |links| == |v.fat| * 128
  {
    && links[v.boot.rootCluster] % 0x1000_0000 >= 0x0FFF_FFF8
    && (forall c :: 2 <= c < v.Limit() && c != v.boot.rootCluster ==> links[c] % 0x1000_0000 == 0)
    && v.clusters[v.boot.rootCluster - 2] == seq(v.boot.sectorsPerCluster, s => ZERO_SECTOR)
  }

  /**
   Mounting a freshly made volume: the driver goes by the boot sector's own fields, and gives a valid file
   system with an empty root directory.
   */
  method Mount(disk: array<Sector>, partitionBase: nat, ghost v: StoredVolume, ghost links: seq<nat>)
    returns (fs: FileSystem)
    requires v.Sized() && v.Links(links) && |links| == |v.fat| * 128 && FreshlyMade(v, links)
    requires partitionBase + |v.Sectors()| <= disk.Length && partitionBase + |v.Sectors()| <= 0x1_0000_0000
    requires disk[partitionBase..partitionBase + |v.Sectors()|] == v.Sectors()
    ensures fs.vol.disk == disk && fs.vol.partitionBase == partitionBase
    ensures fs.vol.geo.fatStart == v.boot.reservedSectors && fs.vol.geo.fatCount == v.boot.fatCount
    ensures fs.vol.geo.sectorsPerFat == v.boot.sectorsPerFat32
    ensures fs.vol.geo.sectorsPerCluster == v.boot.sectorsPerCluster
    ensures fs.vol.geo.totalSectors == v.boot.totalSectors32 && fs.vol.geo.root == v.boot.rootCluster
    ensures fs.Valid() && fs.currentDir == fs.vol.geo.root && fs.Dir() == map[]
  {
    BootHere(disk[..], partitionBase, v);
    MadeIsFormatted(v, links);
    hide Formatted, ParseBpb, Consistent, NamesIn, Shape, ImageOf, StoredVolume.Sized, StoredVolume.Sectors,
         StoredVolume.Links, FreshlyMade;
    fs := MountFormatted(disk, partitionBase, v.boot.Geometry(), v.Sectors());
  }

  method MountFormatted(disk: array<Sector>, partitionBase: nat, ghost g: Geometry, ghost d: seq<Sector>)
    returns (fs: FileSystem)
    requires partitionBase < disk.Length && ParseBpb(disk[partitionBase]) == g && |d| == g.totalSectors
    requires partitionBase + |d| <= disk.Length && partitionBase + |d| <= 0x1_0000_0000
    requires disk[partitionBase..partitionBase + |d|] == d && Formatted(g, d)
    ensures fs.vol.disk == disk && fs.vol.partitionBase == partitionBase && fs.vol.geo == g
    ensures fs.Valid() && fs.currentDir == fs.vol.geo.root && fs.Dir() == map[]
  {
    hide Consistent, RawEntry, ClusterAt, NamesIn, ParseBpb, Zeros, Shape;
    var vol := new Volume(disk, partitionBase);
    FormattedImage(vol.geo, vol.Sectors());
    FormattedIsConsistent(vol.geo, vol.Img());
    fs := new FileSystem(vol, Catalog(map[vol.geo.root := [vol.geo.root]], map[], map[vol.geo.root := 0]));
  }

  lemma BootHere(disk: seq<Sector>, partitionBase: nat, v: StoredVolume)
    requires v.Sized() && partitionBase + |v.Sectors()| <= |disk|
    requires disk[partitionBase..partitionBase + |v.Sectors()|] == v.Sectors()
    ensures partitionBase < |disk| && ParseBpb(disk[partitionBase]) == v.boot.Geometry()
    ensures v.boot.Geometry().totalSectors == |v.Sectors()|
  {
    SectorsSplit(v);
    BootParsed(v.boot);
    hide ParseBpb, StoredVolume.Sectors, BootSector.Bytes, Joined;
    assert disk[partitionBase] == disk[partitionBase..partitionBase + |v.Sectors()|][0];
  }

  lemma MadeIsFormatted(v: StoredVolume, links: seq<nat>)
    requires v.Sized() && v.Links(links) && |links| == |v.fat| * 128 && FreshlyMade(v, links)
    ensures Formatted(v.boot.Geometry(), v.Sectors())
  {
    VolumeImage(v, links);
    SizedGeometry(v);
    ClusterHere(v, v.boot.rootCluster);
    hide StoredVolume.Sized, StoredVolume.Sectors, StoredVolume.Links, RawEntry, ClusterAt, StoredVolume.Limit, ImageOf,
         Geometry.DataStart, Geometry.Limit, Geometry.TotalClusters, Geometry.FatEntries, CopiesAgree, Joined;
    forall c | 2 <= c < v.boot.Geometry().Limit()
      ensures RawEntry(v.boot.Geometry(), v.Sectors(), c) == links[c]
    {
      LinkAt(v, links, c);
    }
  }

  lemma FormattedImage(g: Geometry, d: seq<Sector>)
    requires Formatted(g, d)
    ensures var img := ImageOf(g, d);
      && img.fat[g.root] >= EOC_MIN && img.clus[g.root] == Zeros(g.sectorsPerCluster)
      && forall c :: 2 <= c < g.Limit() && c != g.root ==> img.fat[c] == 0
  {
    hide RawEntry, ClusterAt;
  }
}
