/**
 What holds after any run of calls: the volume stays consistent, and clusters are neither lost nor made.
 */
module FsRuns {
  import opened Bytes
  import opened FatLayout
  import opened Chains
  import opened DirEntries
  import opened DirTree
  import opened DirScan
  import opened FileData
  import opened FsState
  import opened FsSteps
  import opened FileRead
  import opened FsEffects
  import opened Names
  import opened FileSystems
  import opened FsLaws
  import opened FsPaths

  // ----------------------------------------------------------------- conservation

  ghost function InUse(limit: nat, chains: ChainMap): set<nat> {
    set c | 2 <= c < limit && Covered(chains, c)
  }

  ghost function BadClusters(fat: seq<nat>, limit: nat): set<nat>
    requires limit <= |fat|
  {
    set c | 2 <= c < limit && fat[c] == BAD_MARK
  }

  lemma {:induction false} IntervalCount(s: set<nat>, lo: nat, hi: nat)
    requires lo <= hi && forall x :: x in s <==> lo <= x < hi
    ensures |s| == hi - lo
    decreases hi - lo
  {
    if lo < hi {
      assert hi - 1 in s;
      IntervalCount(s - {hi - 1}, lo, hi - 1);
    } else {
      assert s == {};
    }
  }

  /** Free, in a chain, or bad: the three account for the whole volume. */
  lemma Balance(g: Geometry, img: Image, cat: Catalog)
    requires g.Valid() && Shape(g, img) && Consistent(g, img, cat, {})
    ensures |FreeClusters(img.fat, g.Limit())| + |InUse(g.Limit(), cat.chains)|
            + |set c | 2 <= c < g.Limit() && img.fat[c] == 0x0FFF_FFF7| == g.Limit() - 2
  {
    hide Partition, TreeOk, DirEnts, Shape, Covered;
    Sizes(g, img);
    var limit := g.Limit();
    var free, used, bad := FreeClusters(img.fat, limit), InUse(limit, cat.chains), BadClusters(img.fat, limit);
    forall c: nat | 2 <= c < limit
      ensures c in used <==> c !in free && c !in bad
    {
      NothingLeaks(g, img, cat, c);
    }
    assert free !! bad && (free + bad) !! used;
    IntervalCount(free + bad + used, 2, limit);
  }

  ghost predicate SameBad(fat: seq<nat>, fat': seq<nat>, limit: nat)
    requires limit <= |fat| == |fat'|
  {
    forall x :: 2 <= x < limit ==> (fat'[x] == BAD_MARK <==> fat[x] == BAD_MARK)
  }

  ghost predicate NoneBad(fat: seq<nat>, ch: seq<nat>) {
    forall x :: x in ch ==> x < |fat| && fat[x] != BAD_MARK
  }

  lemma ChainNotBad(g: Geometry, img: Image, cat: Catalog, h: nat)
    requires g.Valid() && Shape(g, img) && Consistent(g, img, cat, {})
    ensures NoneBad(img.fat, if h in cat.chains then cat.chains[h] else [])
  {
    hide Partition, TreeOk, DirEnts, Shape, IsChain;
    Sizes(g, img);
    if h in cat.chains {
      DirIsWalk(g, img, cat, {}, h);
      forall x | x in cat.chains[h]
        ensures x < |img.fat| && img.fat[x] != BAD_MARK
      {
        NotBad(img.fat, g.Limit(), cat.chains[h], x);
      }
    }
  }

  lemma RewriteKeepsBad(fat: seq<nat>, fat': seq<nat>, limit: nat, was: seq<nat>, now: seq<nat>, dir: seq<nat>,
                        dir': seq<nat>)
    requires limit <= |fat| && FatRewritten(fat, fat', was, now, dir, dir')
    requires NoneBad(fat, was) && NoneBad(fat, dir) && NoneBad(fat', now) && NoneBad(fat', dir')
    ensures SameBad(fat, fat', limit)
  {
  }

  lemma WriteKeepsBad(g: Geometry, img: Image, img': Image, cat: Catalog, cat': Catalog, d: nat, n: FatName,
                      data: seq<byte>, written: nat)
    requires g.Valid() && Shape(g, img) && Shape(g, img') && d in cat.depth && d in cat'.depth
    requires Consistent(g, img, cat, {}) && Consistent(g, img', cat', {})
    requires FileWritten(g, img, img', cat, cat', d, n, data, written)
    ensures g.Limit() <= |img.fat| == |img'.fat| && SameBad(img.fat, img'.fat, g.Limit())
    ensures img'.top == img.top && img'.rest == img.rest
  {
    hide Partition, TreeOk, DirEnts, Shape, NamesIn, Written, OthersKept, SameBad, NoneBad;
    Sizes(g, img);
    Sizes(g, img');
    if n in NamesIn(g, img, cat, d) {
      ListedChain(g, img, cat, d, n);
    }
    ChainNotBad(g, img, cat, FirstOf(OldChain(g, img, cat, d, n)));
    ChainNotBad(g, img, cat, d);
    ListedChain(g, img', cat', d, n);
    ChainNotBad(g, img', cat', FirstOf(OldChain(g, img', cat', d, n)));
    ChainNotBad(g, img', cat', d);
    ZeroIsNoChain(g, img, cat);
    ZeroIsNoChain(g, img', cat');
    RewriteKeepsBad(img.fat, img'.fat, g.Limit(), OldChain(g, img, cat, d, n), OldChain(g, img', cat', d, n),
                    cat.chains[d], cat'.chains[d]);
  }

  lemma MakeKeepsBad(g: Geometry, img: Image, img': Image, cat: Catalog, cat': Catalog, d: nat, n: FatName)
    requires g.Valid() && Shape(g, img) && Shape(g, img') && d in cat.depth && d in cat'.depth
    requires Consistent(g, img, cat, {}) && Consistent(g, img', cat', {})
    requires DirMade(g, img, img', cat, cat', d, n)
    ensures g.Limit() <= |img.fat| == |img'.fat| && SameBad(img.fat, img'.fat, g.Limit())
    ensures img'.top == img.top && img'.rest == img.rest
  {
    hide Partition, TreeOk, DirEnts, Shape, NamesIn, OthersKept, SameBad, NoneBad;
    Sizes(g, img);
    Sizes(g, img');
    var h := NamesIn(g, img', cat', d)[n].cluster;
    ChainNotBad(g, img, cat, d);
    ChainNotBad(g, img', cat', d);
    ChainNotBad(g, img', cat', h);
    assert NoneBad(img.fat, []) by { ChainNotBad(g, img, cat, 0); ZeroIsNoChain(g, img, cat); }
    RewriteKeepsBad(img.fat, img'.fat, g.Limit(), [], [h], cat.chains[d], cat'.chains[d]);
  }

  lemma FreeKeepsBad(g: Geometry, img: Image, img': Image, cat: Catalog, e: Ent)
    requires g.Valid() && Shape(g, img) && Shape(g, img') && Consistent(g, img, cat, {})
    requires Freed(img.fat, img'.fat, ChainOf(cat, e))
    ensures g.Limit() <= |img.fat| == |img'.fat| && SameBad(img.fat, img'.fat, g.Limit())
  {
    hide Partition, TreeOk, DirEnts, Shape;
    Sizes(g, img);
    if e.Entry? {
      ChainNotBad(g, img, cat, e.cluster);
    }
  }

  // ------------------------------------------------------------------------- runs

  datatype Command =
    | Write(name: seq<byte>, data: seq<byte>)
    | Make(name: seq<byte>)
    | RemoveDir(name: seq<byte>)
    | Remove(name: seq<byte>)
    | Go(name: seq<byte>)
  {
    function FatName(): FatName { FatNameOf(name) }

    /** What the calls ask of their arguments: a name they can store, a chain the driver can follow. */
    ghost predicate Ok(g: Geometry)
      requires g.Valid()
    {
      && (Write? || Make? ==> ValidName(name))
      && (Write? ==> |data| < 0x1_0000_0000 && HopsSuffice(g.Limit(), ClustersNeeded(g, |data|)))
    }
  }

  /** The directory's path after a command, given its result. */
  function Moved(home: seq<FatName>, c: Command, r: int): seq<FatName> {
    if !c.Go? || r != 0 || c.name == [DOT] then home
    else if IsRootName(c.name) then []
    else home + [c.FatName()]
  }

  /** The current directory's path after the first k commands. */
  function Cwd(home: seq<FatName>, commands: seq<Command>, results: seq<int>, k: nat): seq<FatName>
    requires k <= |commands| && k <= |results|
  {
    if k == 0 then home else Moved(Cwd(home, commands, results, k - 1), commands[k - 1], results[k - 1])
  }

  /** None of the first k commands, changes of directory aside, named the path or a directory on it. */
  ghost predicate Unnamed(home: seq<FatName>, commands: seq<Command>, results: seq<int>, k: nat, path: seq<FatName>)
    requires k <= |commands| && k <= |results|
  {
    forall i :: 0 <= i < k && !commands[i].Go? ==> !(Cwd(home, commands, results, i) + [commands[i].FatName()] <= path)
  }

  lemma {:induction false} CwdKept(home: seq<FatName>, commands: seq<Command>, results: seq<int>, r: int, k: nat)
    requires k <= |commands| && k <= |results|
    ensures Cwd(home, commands, results + [r], k) == Cwd(home, commands, results, k)
  {
    if k > 0 {
      CwdKept(home, commands, results, r, k - 1);
    }
  }

  /** No directory's chain grew by more than a cluster. */
  ghost predicate DirsGrew(cat: Catalog, cat': Catalog) {
    forall x :: x in cat'.depth ==>
      x in cat'.chains
      && |cat'.chains[x]| <= (if x in cat.depth && x in cat.chains then |cat.chains[x]| else 0) + 1
  }

  /** The driver can follow every directory's chain, and still can after k more clusters. */
  ghost predicate Room(cat: Catalog, limit: nat, k: nat) {
    || limit <= MAX_CLUSTER_CHAIN + 2
    || (k <= MAX_CLUSTER_CHAIN
        && forall x :: x in cat.depth && x in cat.chains ==> |cat.chains[x]| + k <= MAX_CLUSTER_CHAIN)
  }

  lemma RoomLeft(cat: Catalog, cat': Catalog, limit: nat, k: nat)
    requires 0 < k && Room(cat, limit, k) && DirsGrew(cat, cat')
    ensures Room(cat', limit, k - 1)
  {
  }

  lemma WriteGrew(g: Geometry, img: Image, img': Image, cat: Catalog, cat': Catalog, d: nat, n: FatName,
                  data: seq<byte>, written: nat)
    requires g.Valid() && Shape(g, img) && Shape(g, img') && d in cat.depth && d in cat'.depth
    requires Consistent(g, img, cat, {}) && Consistent(g, img', cat', {})
    requires FileWritten(g, img, img', cat, cat', d, n, data, written) && cat'.depth.Keys <= cat.depth.Keys
    requires n in NamesIn(g, img, cat, d) ==> !IsFolder(NamesIn(g, img, cat, d)[n])
    ensures DirsGrew(cat, cat')
  {
    hide Partition, TreeOk, DirEnts, Shape, NamesIn, Written, FatRewritten, SameBytes;
    ZeroIsNoChain(g, img, cat);
    if n in NamesIn(g, img, cat, d) {
      ListedChain(g, img, cat, d, n);
    }
    forall x | x in cat'.depth
      ensures x in cat'.chains && x in cat.chains && |cat'.chains[x]| <= |cat.chains[x]| + 1
    {
      assert x in cat.depth;
      if x != d {
        assert x != FirstOf(OldChain(g, img, cat, d, n));
      }
    }
  }

  lemma MakeGrew(g: Geometry, img: Image, img': Image, cat: Catalog, cat': Catalog, d: nat, n: FatName)
    requires g.Valid() && Shape(g, img) && Shape(g, img') && d in cat.depth && d in cat'.depth
    requires Consistent(g, img, cat, {}) && Consistent(g, img', cat', {}) && DirMade(g, img, img', cat, cat', d, n)
    requires forall x :: x in cat'.depth && x !in cat.depth ==> cat'.chains[x] == [x]
    ensures DirsGrew(cat, cat')
  {
    hide Partition, TreeOk, DirEnts, Shape, NamesIn, FatRewritten, SameBytes;
  }

  lemma ChainsDropped(g: Geometry, img: Image, img': Image, cat: Catalog, cat': Catalog, h: nat)
    requires g.Valid() && Shape(g, img) && Shape(g, img')
             && Consistent(g, img, cat, {}) && Consistent(g, img', cat', {})
    requires cat'.chains == cat.chains - {h} && cat'.depth.Keys <= cat.depth.Keys
    ensures DirsGrew(cat, cat')
  {
    hide Partition, TreeOk, DirEnts, Shape;
  }

  lemma NothingGrew(g: Geometry, img: Image, cat: Catalog)
    requires g.Valid() && Shape(g, img) && Consistent(g, img, cat, {})
    ensures DirsGrew(cat, cat)
  {
    hide Partition, TreeOk, DirEnts, Shape;
  }

  /** A change of directory d made by one of the driver's calls is confined to the name it was given. */
  lemma WriteIsolated(g: Geometry, img: Image, img': Image, cat: Catalog, cat': Catalog, d: nat, n: FatName,
                      data: seq<byte>, written: nat)
    requires g.Valid() && Shape(g, img) && Shape(g, img') && d in cat.depth && d in cat'.depth
    requires Consistent(g, img, cat, {}) && Consistent(g, img', cat', {})
    requires FileWritten(g, img, img', cat, cat', d, n, data, written)
    ensures Isolated(g, img, img', cat, cat', d, n)
  {
    hide Consistent, DirEnts, Shape, NamesIn, Written, OthersKept, Isolated, FatRewritten;
    OnlyNameIsolates(g, img, img', cat, cat', d, n);
  }

  lemma MakeIsolated(g: Geometry, img: Image, img': Image, cat: Catalog, cat': Catalog, d: nat, n: FatName)
    requires g.Valid() && Shape(g, img) && Shape(g, img') && d in cat.depth && d in cat'.depth
    requires Consistent(g, img, cat, {}) && Consistent(g, img', cat', {})
    requires DirMade(g, img, img', cat, cat', d, n)
    ensures Isolated(g, img, img', cat, cat', d, n)
  {
    hide Consistent, DirEnts, Shape, NamesIn, SameBytes, Isolated, FatRewritten;
    OnlyNameIsolates(g, img, img', cat, cat', d, n);
  }

  lemma EraseIsolated(g: Geometry, img: Image, img': Image, cat: Catalog, cat': Catalog, d: nat, n: FatName)
    requires g.Valid() && Shape(g, img) && Shape(g, img') && d in cat.depth && d in cat'.depth
    requires Consistent(g, img, cat, {}) && Consistent(g, img', cat', {}) && n in NamesIn(g, img, cat, d)
    requires NamesIn(g, img', cat', d) == NamesIn(g, img, cat, d) - {n}
    requires OthersKept(img, img', cat, cat', {Head(NamesIn(g, img, cat, d)[n]), d})
    ensures Isolated(g, img, img', cat, cat', d, n)
  {
    hide Consistent, DirEnts, Shape, NamesIn, SameBytes, Isolated, FatRewritten, OthersKept;
    ListedChain(g, img, cat, d, n);
    OnlyNameIsolates(g, img, img', cat, cat', d, n);
  }

  lemma RefusedIsolated(g: Geometry, img: Image, img': Image, cat: Catalog, d: nat, n: FatName)
    requires g.Valid() && Shape(g, img) && Shape(g, img') && d in cat.depth && img'.fat == img.fat
    requires Consistent(g, img, cat, {}) && Consistent(g, img', cat, {}) && OthersKept(img, img', cat, cat, {})
    ensures Isolated(g, img, img', cat, cat, d, n)
  {
    hide Consistent, DirEnts, Shape, NamesIn, SameBytes, Isolated;
    SeedForgotten(g, img, img', cat, d);
    OnlyNameIsolates(g, img, img', cat, cat, d, n);
  }

  lemma UnchangedIsolated(g: Geometry, img: Image, cat: Catalog, d: nat, n: FatName)
    requires g.Valid() && Shape(g, img) && d in cat.depth && Consistent(g, img, cat, {})
    ensures Isolated(g, img, img, cat, cat, d, n)
  {
    hide Consistent, DirEnts, Shape, Look, Avoids;
  }

  /** A command given in directory d disturbs no path but those through its name; a move disturbs none. */
  ghost predicate Confined(g: Geometry, img: Image, img': Image, cat: Catalog, cat': Catalog, d: nat, d': nat,
                           c: Command, r: int)
    requires g.Valid() && Shape(g, img) && Shape(g, img')
    requires Consistent(g, img, cat, {}) && Consistent(g, img', cat', {})
  {
    if c.Go? then
      && img' == img && cat' == cat
      && forall home :: Resolve(g, img, cat, home) == d ==> Resolve(g, img, cat, Moved(home, c, r)) == d'
    else
      d' == d && Isolated(g, img, img', cat, cat', d, c.FatName())
  }

  lemma GoMoves(g: Geometry, img: Image, cat: Catalog, d: nat, d': nat, c: Command, r: int)
    requires g.Valid() && Shape(g, img) && Consistent(g, img, cat, {}) && d in cat.depth && c.Go?
    requires r != 0 || c.name == [DOT] ==> d' == d
    requires r == 0 && IsRootName(c.name) ==> d' == g.root
    requires r == 0 && !IsRootName(c.name) && c.name != [DOT] ==>
               c.FatName() in NamesIn(g, img, cat, d) && IsFolder(NamesIn(g, img, cat, d)[c.FatName()])
               && d' == Head(NamesIn(g, img, cat, d)[c.FatName()])
    ensures Confined(g, img, img, cat, cat, d, d', c, r)
  {
    hide Consistent, DirEnts, Shape, NamesIn, FatNameOf;
    ZeroIsNoChain(g, img, cat);
    InChains(g, img, cat, d);
    forall home | Resolve(g, img, cat, home) == d
      ensures Resolve(g, img, cat, Moved(home, c, r)) == d'
    {
      var to := Moved(home, c, r);
      if to == home + [c.FatName()] {
        assert to[..|to| - 1] == home;
      }
    }
  }

  /**
   Carries out one command. No path but those through the name given finds anything but what it found
   before, and no directory grows by more than a cluster.
   */
  method Step(fs: FileSystem, c: Command) returns (r: int)
    requires fs.Valid() && c.Ok(fs.vol.geo) && (c.Write? || c.Make? ==> fs.CanGrow())
    modifies fs`cat, fs`currentDir, fs.vol.disk
    ensures fs.Valid() && fs.vol.Elsewhere() == old(fs.vol.Elsewhere())
    ensures fs.vol.Img().top == old(fs.vol.Img()).top && fs.vol.Img().rest == old(fs.vol.Img()).rest
    ensures fs.vol.geo.Limit() <= |old(fs.vol.Img()).fat| == |fs.vol.Img().fat|
    ensures SameBad(old(fs.vol.Img()).fat, fs.vol.Img().fat, fs.vol.geo.Limit())
    ensures DirsGrew(old(fs.cat), fs.cat)
    ensures Confined(fs.vol.geo, old(fs.vol.Img()), fs.vol.Img(), old(fs.cat), fs.cat, old(fs.currentDir),
                     fs.currentDir, c, r)
  {
    hide ImageOf, Layout, Consistent, FatNameOf, NamesIn, FileWritten, FileSystem.Full, ClustersNeeded, OthersKept,
         Freed, DirMade, SameBad, NoRoomForDir, ChainOf, Geometry.Limit, Isolated, DirsGrew, HopsSuffice;
    ghost var g, img, cat, d := fs.vol.geo, fs.vol.Img(), fs.cat, fs.currentDir;
    UnchangedIsolated(g, img, cat, d, c.FatName());
    NothingGrew(g, img, cat);
    Sizes(g, img);
    Unchanged(img.fat, g.Limit());
    ghost var names, n := fs.Dir(), c.FatName();
    match c {
      case Write(name, data) =>
        ghost var outcome;
        r, outcome := fs.WriteFile(name, data);
        if outcome.Wrote? {
          WriteKeepsBad(g, img, fs.vol.Img(), cat, fs.cat, d, n, data, outcome.written);
          WriteIsolated(g, img, fs.vol.Img(), cat, fs.cat, d, n, data, outcome.written);
          WriteGrew(g, img, fs.vol.Img(), cat, fs.cat, d, n, data, outcome.written);
        }
      case Make(name) =>
        r := fs.Mkdir(name);
        if r == 0 {
          MakeKeepsBad(g, img, fs.vol.Img(), cat, fs.cat, d, n);
          MakeIsolated(g, img, fs.vol.Img(), cat, fs.cat, d, n);
          MakeGrew(g, img, fs.vol.Img(), cat, fs.cat, d, n);
        } else {
          RefusedIsolated(g, img, fs.vol.Img(), cat, d, n);
        }
      case RemoveDir(name) =>
        r := fs.Rmdir(name);
        if r == 0 {
          FreeKeepsBad(g, img, fs.vol.Img(), cat, names[n]);
          EraseIsolated(g, img, fs.vol.Img(), cat, fs.cat, d, n);
          ChainsDropped(g, img, fs.vol.Img(), cat, fs.cat, Head(names[n]));
        }
      case Remove(name) =>
        r := fs.RemoveFile(name);
        if r == 0 {
          FreeKeepsBad(g, img, fs.vol.Img(), cat, names[n]);
          EraseIsolated(g, img, fs.vol.Img(), cat, fs.cat, d, n);
          ChainsDropped(g, img, fs.vol.Img(), cat, fs.cat, Head(names[n]));
        }
      case Go(name) =>
        r := fs.ChangeDir(name);
        GoMoves(g, img, cat, d, fs.currentDir, c, r);
    }
  }

  lemma Unchanged(fat: seq<nat>, limit: nat)
    requires limit <= |fat|
    ensures SameBad(fat, fat, limit)
  {
  }

  lemma SameCount(fat: seq<nat>, fat': seq<nat>, limit: nat)
    requires limit <= |fat| == |fat'| && SameBad(fat, fat', limit)
    ensures BadClusters(fat', limit) == BadClusters(fat, limit)
  {
  }

  /** After k commands: where the current directory is, and what the paths they did not name find. */
  ghost predicate Ran(g: Geometry, img: Image, img': Image, cat: Catalog, cat': Catalog, d': nat, home: seq<FatName>,
                      commands: seq<Command>, results: seq<int>, k: nat)
    requires g.Valid() && Shape(g, img) && Shape(g, img')
    requires Consistent(g, img, cat, {}) && Consistent(g, img', cat', {}) && k <= |commands| && k <= |results|
  {
    && Resolve(g, img', cat', Cwd(home, commands, results, k)) == d'
    && (forall path :: Unnamed(home, commands, results, k, path) ==>
          Resolve(g, img', cat', path) == Resolve(g, img, cat, path))
    && (forall path, m :: Unnamed(home, commands, results, k, path + [m]) ==>
          Look(g, img', cat', path, m) == Look(g, img, cat, path, m))
  }

  lemma RanNone(g: Geometry, img: Image, cat: Catalog, d: nat, home: seq<FatName>, commands: seq<Command>)
    requires g.Valid() && Shape(g, img) && Consistent(g, img, cat, {}) && Resolve(g, img, cat, home) == d
    ensures Ran(g, img, img, cat, cat, d, home, commands, [], 0)
  {
    hide Consistent, DirEnts, Shape, Look;
  }

  lemma UnnamedLess(home: seq<FatName>, commands: seq<Command>, results: seq<int>, r: int, k: nat, path: seq<FatName>)
    requires k == |results| < |commands| && Unnamed(home, commands, results + [r], k + 1, path)
    ensures Unnamed(home, commands, results, k, path)
    ensures !commands[k].Go? ==> !(Cwd(home, commands, results, k) + [commands[k].FatName()] <= path)
  {
    hide Command.FatName;
    CwdKept(home, commands, results, r, k);
    forall i | 0 <= i < k && !commands[i].Go?
      ensures !(Cwd(home, commands, results, i) + [commands[i].FatName()] <= path)
    {
      CwdKept(home, commands, results, r, i);
    }
  }

  /** One command more. */
  lemma RanMore(g: Geometry, img: Image, img1: Image, img2: Image, cat: Catalog, cat1: Catalog, cat2: Catalog, d1: nat,
                d2: nat, home: seq<FatName>, commands: seq<Command>, results: seq<int>, r: int, k: nat)
    requires g.Valid() && Shape(g, img) && Shape(g, img1) && Shape(g, img2) && d1 in cat1.depth
    requires Consistent(g, img, cat, {}) && Consistent(g, img1, cat1, {}) && Consistent(g, img2, cat2, {})
    requires k == |results| < |commands| && Ran(g, img, img1, cat, cat1, d1, home, commands, results, k)
    requires Confined(g, img1, img2, cat1, cat2, d1, d2, commands[k], r)
    ensures Ran(g, img, img2, cat, cat2, d2, home, commands, results + [r], k + 1)
  {
    hide Consistent, DirEnts, Shape, Look, Resolve, Unnamed, Avoids, FatNameOf;
    ZeroIsNoChain(g, img1, cat1);
    InChains(g, img1, cat1, d1);
    var here, n := Cwd(home, commands, results, k), commands[k].FatName();
    CwdKept(home, commands, results, r, k);
    if !commands[k].Go? {
      AvoidsUnlessThrough(g, img1, cat1, here, d1, n, here);
    }
    forall path | Unnamed(home, commands, results + [r], k + 1, path)
      ensures Unnamed(home, commands, results, k, path)
      ensures !commands[k].Go? ==> Avoids(g, img1, cat1, path, d1, n)
    {
      UnnamedLess(home, commands, results, r, k, path);
      if !commands[k].Go? {
        AvoidsUnlessThrough(g, img1, cat1, here, d1, n, path);
      }
    }
  }

  /**
   Any run of commands leaves a consistent volume, the sectors outside it, the reserved bits of its
   FAT and the sectors that are neither FAT nor data untouched, and as many clusters, free or in a
   chain, as there were. A path that no command named finds at the end what it found at the start.
   */
  method Run(fs: FileSystem, commands: seq<Command>, ghost home: seq<FatName>) returns (results: seq<int>)
    requires fs.Valid() && Room(fs.cat, fs.vol.geo.Limit(), |commands|)
    requires forall c :: c in commands ==> c.Ok(fs.vol.geo)
    requires Resolve(fs.vol.geo, fs.vol.Img(), fs.cat, home) == fs.currentDir
    modifies fs`cat, fs`currentDir, fs.vol.disk
    ensures fs.Valid() && fs.vol.Elsewhere() == old(fs.vol.Elsewhere()) && |results| == |commands|
    ensures fs.vol.Img().top == old(fs.vol.Img()).top && fs.vol.Img().rest == old(fs.vol.Img()).rest
    ensures fs.vol.geo.Limit() <= |old(fs.vol.Img()).fat| == |fs.vol.Img().fat|
    ensures |FreeClusters(fs.vol.Img().fat, fs.vol.geo.Limit())| + |InUse(fs.vol.geo.Limit(), fs.cat.chains)|
            == |FreeClusters(old(fs.vol.Img()).fat, fs.vol.geo.Limit())|
              + |InUse(fs.vol.geo.Limit(), old(fs.cat).chains)|
    ensures Ran(fs.vol.geo, old(fs.vol.Img()), fs.vol.Img(), old(fs.cat), fs.cat, fs.currentDir, home, commands,
                results, |commands|)
  {
    hide ImageOf, Layout, Consistent, SameBad, Geometry.Limit, FreeClusters, InUse, Ran, Room, DirsGrew, Confined,
         Resolve, Command.Ok;
    ghost var g, img, cat := fs.vol.geo, fs.vol.Img(), fs.cat;
    results := [];
    Sizes(g, img);
    Unchanged(img.fat, g.Limit());
    Balance(g, img, cat);
    RanNone(g, img, cat, fs.currentDir, home, commands);
    for i := 0 to |commands|
      invariant fs.Valid() && fs.vol.Elsewhere() == old(fs.vol.Elsewhere()) && |results| == i
      invariant fs.vol.Img().top == img.top && fs.vol.Img().rest == img.rest
      invariant g.Limit() <= |img.fat| == |fs.vol.Img().fat| && SameBad(img.fat, fs.vol.Img().fat, g.Limit())
      invariant Room(fs.cat, g.Limit(), |commands| - i)
      invariant Ran(g, img, fs.vol.Img(), cat, fs.cat, fs.currentDir, home, commands, results, i)
    {
      ghost var img1, cat1, d1 := fs.vol.Img(), fs.cat, fs.currentDir;
      RoomIsGrowth(fs, |commands| - i);
      var r := Step(fs, commands[i]);
      SameBadTwice(img.fat, img1.fat, fs.vol.Img().fat, g.Limit());
      RoomLeft(cat1, fs.cat, g.Limit(), |commands| - i);
      RanMore(g, img, img1, fs.vol.Img(), cat, cat1, fs.cat, d1, fs.currentDir, home, commands, results, r, i);
      results := results + [r];
    }
    Balance(g, fs.vol.Img(), fs.cat);
    SameCount(img.fat, fs.vol.Img().fat, g.Limit());
  }

  lemma RoomIsGrowth(fs: FileSystem, k: nat)
    requires fs.Valid() && 0 < k && Room(fs.cat, fs.vol.geo.Limit(), k)
    ensures fs.CanGrow()
  {
    hide ImageOf, Layout, Partition, TreeOk, DirEnts;
  }

  lemma SameBadTwice(fat: seq<nat>, fat1: seq<nat>, fat2: seq<nat>, limit: nat)
    requires limit <= |fat| == |fat1| == |fat2| && SameBad(fat, fat1, limit) && SameBad(fat1, fat2, limit)
    ensures SameBad(fat, fat2, limit)
  {
  }

  // ------------------------------------------------------ reading back after a run

  /** Commands that use no name on a path do not name it, wherever they move. */
  lemma NamesApart(home: seq<FatName>, commands: seq<Command>, results: seq<int>, path: seq<FatName>)
    requires |results| == |commands|
    requires forall c :: c in commands && !c.Go? ==> c.FatName() !in path
    ensures Unnamed(home, commands, results, |commands|, path)
  {
    hide Command.FatName, Cwd;
    forall i | 0 <= i < |commands| && !commands[i].Go?
      ensures !(Cwd(home, commands, results, i) + [commands[i].FatName()] <= path)
    {
      var to := Cwd(home, commands, results, i) + [commands[i].FatName()];
      assert commands[i] in commands && to[|to| - 1] == commands[i].FatName();
      if |to| <= |path| {
        assert path[|to| - 1] in path;
      }
    }
  }

  lemma LookHere(fs: FileSystem, home: seq<FatName>, n: FatName)
    requires fs.Valid() && Resolve(fs.vol.geo, fs.vol.Img(), fs.cat, home) == fs.currentDir
    requires n in fs.Dir() && !IsFolder(fs.Dir()[n])
    ensures Look(fs.vol.geo, fs.vol.Img(), fs.cat, home, n) == File(fs.Dir()[n].size, fs.File(n))
  {
    hide ImageOf, Layout, Consistent, DirEnts, NamesIn, Resolve;
    ListedChain(fs.vol.geo, fs.vol.Img(), fs.cat, fs.currentDir, n);
    InChains(fs.vol.geo, fs.vol.Img(), fs.cat, fs.currentDir);
    ZeroIsNoChain(fs.vol.geo, fs.vol.Img(), fs.cat);
  }

  lemma LookedUp(fs: FileSystem, home: seq<FatName>, n: FatName, size: nat, secs: seq<Sector>)
    requires fs.Valid() && Resolve(fs.vol.geo, fs.vol.Img(), fs.cat, home) == fs.currentDir
    requires Look(fs.vol.geo, fs.vol.Img(), fs.cat, home, n) == File(size, secs)
    ensures n in fs.Dir() && fs.File(n) == secs && (Head(fs.Dir()[n]) == 0 ==> secs == [])
  {
    hide ImageOf, Layout, Consistent, DirEnts, NamesIn, Resolve;
    ListedChain(fs.vol.geo, fs.vol.Img(), fs.cat, fs.currentDir, n);
    ZeroIsNoChain(fs.vol.geo, fs.vol.Img(), fs.cat);
    FlatNone(fs.vol.Img().clus, []);
  }

  /** The directory a write was made in keeps its path, and its chains' room shrinks by a cluster. */
  lemma AfterOneWrite(fs: FileSystem, img: Image, cat: Catalog, home: seq<FatName>, n: FatName, data: seq<byte>,
                      written: nat, k: nat)
    requires fs.Valid() && Shape(fs.vol.geo, img) && Consistent(fs.vol.geo, img, cat, {}) && fs.currentDir in cat.depth
    requires FileWritten(fs.vol.geo, img, fs.vol.Img(), cat, fs.cat, fs.currentDir, n, data, written)
    requires fs.cat.depth.Keys <= cat.depth.Keys && Resolve(fs.vol.geo, img, cat, home) == fs.currentDir
    requires n in NamesIn(fs.vol.geo, img, cat, fs.currentDir) ==>
               !IsFolder(NamesIn(fs.vol.geo, img, cat, fs.currentDir)[n])
    requires Room(cat, fs.vol.geo.Limit(), k + 1)
    ensures Resolve(fs.vol.geo, fs.vol.Img(), fs.cat, home) == fs.currentDir && Room(fs.cat, fs.vol.geo.Limit(), k)
  {
    hide ImageOf, Layout, Consistent, DirEnts, NamesIn, Shape, FileWritten, Resolve, Room, DirsGrew, Avoids, Look;
    ghost var g, d := fs.vol.geo, fs.currentDir;
    InChains(g, img, cat, d);
    ZeroIsNoChain(g, img, cat);
    WriteIsolated(g, img, fs.vol.Img(), cat, fs.cat, d, n, data, written);
    AvoidsUnlessThrough(g, img, cat, home, d, n, home);
    WriteGrew(g, img, fs.vol.Img(), cat, fs.cat, d, n, data, written);
    RoomLeft(cat, fs.cat, g.Limit(), k + 1);
  }

  lemma LessRoom(cat: Catalog, limit: nat, k: nat)
    requires Room(cat, limit, k + 1)
    ensures Room(cat, limit, k)
  {
  }

  /**
   A written file reads back after any run of commands that use no name on its path, once the run is back
   in the file's directory.
   */
  method WriteRunRead(fs: FileSystem, name: seq<byte>, data: seq<byte>, commands: seq<Command>, buffer: array<byte>,
                      n: nat, ghost home: seq<FatName>)
    returns (w: int, results: seq<int>, r: int, ghost outcome: WriteOutcome)
    requires fs.Valid() && ValidName(name) && Room(fs.cat, fs.vol.geo.Limit(), |commands| + 1) && n <= buffer.Length
    requires |data| < 0x1_0000_0000 && HopsSuffice(fs.vol.geo.Limit(), ClustersNeeded(fs.vol.geo, |data|))
    requires forall c :: c in commands ==> c.Ok(fs.vol.geo)
    requires forall c :: c in commands && !c.Go? ==> c.FatName() !in home + [FatNameOf(name)]
    requires Resolve(fs.vol.geo, fs.vol.Img(), fs.cat, home) == fs.currentDir
    requires FitsReadBuffer(name) && ReadNameOf(name) == FatNameOf(name)
    modifies fs`cat, fs`currentDir, fs.vol.disk, buffer
    ensures fs.Valid() && (outcome.Wrote? ==> outcome.written <= |data|)
    ensures outcome.Wrote? && outcome.written < 0x8000_0000 ==> 0 <= w == outcome.written
    ensures outcome.Wrote? && n <= outcome.written < 0x8000_0000 && fs.currentDir == old(fs.currentDir) ==>
              r == n && buffer[..n] == data[..n]
  {
    hide ImageOf, Layout, Consistent, FatNameOf, ReadNameOf, NamesIn, FileWritten, FileSystem.Full, FileSystem.File,
         FileSystem.BelowFiles, FileSystem.ZeroReadable, ClustersNeeded, HopsSuffice, Copied, HoldsData, Room,
         Resolve, Look, Unnamed, Head, Command.Ok, Command.FatName;
    ghost var img, cat, fname, full := fs.vol.Img(), fs.cat, FatNameOf(name), home + [FatNameOf(name)];
    var d := fs.currentDir;
    RoomIsGrowth(fs, |commands| + 1);
    w, outcome := fs.WriteFile(name, data);
    ghost var size, secs := 0, [];
    if outcome.Wrote? {
      AfterOneWrite(fs, img, cat, home, fname, data, outcome.written, |commands|);
      StoredFile(fs, img, cat, fname, data, outcome.written);
      StoredItem(fs, img, cat, fname, data, outcome.written);
      size, secs := fs.Dir()[fname].size, fs.File(fname);
      LookHere(fs, home, fname);
    } else {
      LessRoom(fs.cat, fs.vol.geo.Limit(), |commands|);
    }
    results := Run(fs, commands, home);
    r := -1;
    if 0 <= w && n <= w && fs.currentDir == d {
      NamesApart(home, commands, results, full);
      assert forall x :: x in home ==> x in full;
      NamesApart(home, commands, results, home);
      LookedUp(fs, home, fname, size, secs);
      ghost var was := buffer[..];
      ghost var got;
      r, got := fs.ReadFile(name, buffer, n);
      if n != 0 {
        ReadBack(buffer[..], was, secs, data, outcome.written, n);
      }
    }
  }
}
