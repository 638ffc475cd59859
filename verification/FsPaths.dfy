/**
 The volume as its users see it: paths of names from the root. Every directory has exactly one path,
 and a call disturbs no path but those through the name it was given.
 */
module FsPaths {
  import opened Bytes
  import opened FatLayout
  import opened Chains
  import opened ChainData
  import opened DirEntries
  import opened DirTree
  import opened DirScan
  import opened FileData
  import opened FsState
  import opened FsSteps
  import opened FsEffects

  // ------------------------------------------------------------------------ paths

  /** The directory a path of names leads to from the root, or 0. */
  ghost function Resolve(g: Geometry, img: Image, cat: Catalog, names: seq<FatName>): (d: nat)
    requires g.Valid() && Shape(g, img) && Consistent(g, img, cat, {})
    ensures d == 0 || d in cat.depth
  {
    if names == [] then
      RootIsDir(g, img, cat);
      g.root
    else
      var d := Resolve(g, img, cat, names[..|names| - 1]);
      Enter(g, img, cat, d, names[|names| - 1])
  }

  ghost function Enter(g: Geometry, img: Image, cat: Catalog, d: nat, n: FatName): (h: nat)
    requires g.Valid() && Shape(g, img) && Consistent(g, img, cat, {}) && (d == 0 || d in cat.depth)
    ensures h == 0 || h in cat.depth
  {
    if d != 0 && n in NamesIn(g, img, cat, d) && IsFolder(NamesIn(g, img, cat, d)[n]) then
      ListedChain(g, img, cat, d, n);
      NamesIn(g, img, cat, d)[n].cluster
    else
      0
  }

  /** A listed name's chain is owned by the slot the name is in, and by no other. */
  lemma SlotOwns(g: Geometry, img: Image, cat: Catalog, d: nat, n: FatName)
    requires g.Valid() && Shape(g, img) && Consistent(g, img, cat, {}) && d in cat.depth
    requires n in NamesIn(g, img, cat, d)
    requires IsFolder(NamesIn(g, img, cat, d)[n]) || NamesIn(g, img, cat, d)[n].cluster != 0
    ensures InRange(img, cat)
    ensures var h := NamesIn(g, img, cat, d)[n].cluster;
      h in cat.owner && cat.owner[h].0 == d && h != g.root && h != 0
      && NameAt(DirEnts(img, cat.chains[d]), cat.owner[h].1, n)
  {
    hide Partition, DirEnts, Shape, NamesIn, AllOwned, AllDotted, DirsClean, NamesUnique, EndsClean;
    FoundName(g, img, cat, d, n);
    var ents := DirEnts(img, cat.chains[d]);
    var p: nat :| NameAt(ents, p, n);
    var t := TreeOf(img, g.root, cat);
    assert EntryOwns(t.dirs[d][p], d, p, t);
  }

  lemma EnterOwned(g: Geometry, img: Image, cat: Catalog, d: nat)
    requires g.Valid() && Shape(g, img) && Consistent(g, img, cat, {}) && d in cat.depth && d != g.root
    ensures exists up, n :: up in cat.depth && cat.depth[up] < cat.depth[d] && cat.depth[d] == cat.depth[up] + 1
                            && Enter(g, img, cat, up, n) == d
  {
    hide Partition, DirEnts, Shape, NamesIn, DirsClean, NamesUnique, EndsClean, AllDotted;
    var t := TreeOf(img, g.root, cat);
    var (up, p) := t.owner[d];
    assert OwnedBy(t, d, up, p);
    assert EntryOwns(t.dirs[up][p], up, p, t);
    var n := t.dirs[up][p].name;
    assert NameAt(DirEnts(img, cat.chains[up]), p, n);
    FoundName(g, img, cat, up, n);
    assert Enter(g, img, cat, up, n) == d;
  }

  /** Every directory can be entered from the root, one name a level. */
  lemma {:induction false} Reachable(g: Geometry, img: Image, cat: Catalog, d: nat) returns (names: seq<FatName>)
    requires g.Valid() && Shape(g, img) && Consistent(g, img, cat, {}) && d in cat.depth
    ensures Resolve(g, img, cat, names) == d && |names| == cat.depth[d]
    decreases cat.depth[d]
  {
    hide Partition, DirEnts, Shape, NamesIn, EntriesOwn, AllOwned, AllDotted, DirsClean, Enter;
    if d == g.root {
      names := [];
    } else {
      EnterOwned(g, img, cat, d);
      var up, n :| up in cat.depth && cat.depth[up] < cat.depth[d] && cat.depth[d] == cat.depth[up] + 1
                   && Enter(g, img, cat, up, n) == d;
      var before := Reachable(g, img, cat, up);
      names := before + [n];
      assert names[..|names| - 1] == before;
    }
  }

  /** No two paths lead to the same directory: the directories form a tree. */
  lemma {:induction false} OnePath(g: Geometry, img: Image, cat: Catalog, names: seq<FatName>, names': seq<FatName>)
    requires g.Valid() && Shape(g, img) && Consistent(g, img, cat, {})
    requires Resolve(g, img, cat, names) == Resolve(g, img, cat, names') != 0
    ensures names == names'
  {
    hide Consistent, DirEnts, Shape, NamesIn;
    if names != [] && names' != [] {
      var init, init' := names[..|names| - 1], names'[..|names'| - 1];
      var n, n' := names[|names| - 1], names'[|names'| - 1];
      SlotOwns(g, img, cat, Resolve(g, img, cat, init), n);
      SlotOwns(g, img, cat, Resolve(g, img, cat, init'), n');
      OnePath(g, img, cat, init, init');
      assert names == init + [n] && names' == init' + [n'];
    } else if names != [] {
      SlotOwns(g, img, cat, Resolve(g, img, cat, names[..|names| - 1]), names[|names| - 1]);
    } else if names' != [] {
      SlotOwns(g, img, cat, Resolve(g, img, cat, names'[..|names'| - 1]), names'[|names'| - 1]);
    }
  }

  // -------------------------------------------------------------- non-interference

  /** What a path finds. */
  datatype Found = Nothing | Folder | File(size: nat, contents: seq<Sector>)

  ghost function Look(g: Geometry, img: Image, cat: Catalog, path: seq<FatName>, n: FatName): Found
    requires g.Valid() && Shape(g, img) && Consistent(g, img, cat, {})
  {
    LookIn(g, img, cat, Resolve(g, img, cat, path), n)
  }

  ghost function LookIn(g: Geometry, img: Image, cat: Catalog, d: nat, n: FatName): Found
    requires g.Valid() && Shape(g, img) && Consistent(g, img, cat, {}) && (d == 0 || d in cat.depth)
  {
    if d == 0 || n !in NamesIn(g, img, cat, d) then Nothing
    else
      ListedChain(g, img, cat, d, n);
      var e := NamesIn(g, img, cat, d)[n];
      if IsFolder(e) then Folder else File(e.size, SectorsOf(g, img, cat, d, n))
  }

  /** The path never goes through name n of directory d. */
  ghost predicate Avoids(g: Geometry, img: Image, cat: Catalog, path: seq<FatName>, d: nat, n: FatName)
    requires g.Valid() && Shape(g, img) && Consistent(g, img, cat, {})
  {
    forall i {:trigger path[..i]} :: 0 <= i < |path| ==> !(Resolve(g, img, cat, path[..i]) == d && path[i] == n)
  }

  ghost predicate SameBut(was: map<FatName, Ent>, now: map<FatName, Ent>, n: FatName) {
    forall m: FatName :: m != n ==> (m in now <==> m in was) && (m in was ==> now[m] == was[m])
  }

  /** Name n of directory d is the only one that changed, with the chain it had and the directory's own. */
  ghost predicate OnlyName(g: Geometry, img: Image, img': Image, cat: Catalog, cat': Catalog, d: nat, n: FatName)
    requires g.Valid() && Shape(g, img) && Shape(g, img') && d in cat.depth && d in cat'.depth
    requires Consistent(g, img, cat, {}) && Consistent(g, img', cat', {})
  {
    && SameBut(NamesIn(g, img, cat, d), NamesIn(g, img', cat', d), n)
    && OthersKept(img, img', cat, cat', {FirstOf(OldChain(g, img, cat, d, n)), d})
  }

  /** Every path that does not go through name n of directory d leads and finds what it did before. */
  ghost predicate Isolated(g: Geometry, img: Image, img': Image, cat: Catalog, cat': Catalog, d: nat, n: FatName)
    requires g.Valid() && Shape(g, img) && Shape(g, img')
    requires Consistent(g, img, cat, {}) && Consistent(g, img', cat', {})
  {
    && (forall path :: Avoids(g, img, cat, path, d, n) ==> Resolve(g, img', cat', path) == Resolve(g, img, cat, path))
    && (forall path, m :: Avoids(g, img, cat, path + [m], d, n) ==>
          Look(g, img', cat', path, m) == Look(g, img, cat, path, m))
  }

  /** No listed name but (d, n) owns the chain that (d, n) stands for. */
  lemma OtherOwner(g: Geometry, img: Image, cat: Catalog, d: nat, n: FatName, x: nat, m: FatName)
    requires g.Valid() && Shape(g, img) && Consistent(g, img, cat, {}) && d in cat.depth && x in cat.depth
    requires m in NamesIn(g, img, cat, x) && NamesIn(g, img, cat, x)[m].cluster != 0 && (x, m) != (d, n)
    ensures NamesIn(g, img, cat, x)[m].cluster != FirstOf(OldChain(g, img, cat, d, n))
  {
    hide Consistent, DirEnts, Shape, NamesIn;
    SlotOwns(g, img, cat, x, m);
    if n in NamesIn(g, img, cat, d) {
      ListedChain(g, img, cat, d, n);
      if NamesIn(g, img, cat, d)[n].cluster != 0 {
        SlotOwns(g, img, cat, d, n);
      }
    }
  }

  /** A directory other than d that the changed name did not stand for lists what it did. */
  lemma ListsAsBefore(g: Geometry, img: Image, img': Image, cat: Catalog, cat': Catalog, d: nat, n: FatName, x: nat)
    requires g.Valid() && Shape(g, img) && Shape(g, img') && d in cat.depth && d in cat'.depth
    requires Consistent(g, img, cat, {}) && Consistent(g, img', cat', {}) && OnlyName(g, img, img', cat, cat', d, n)
    requires x in cat.depth && x in cat'.depth && x != d && x != FirstOf(OldChain(g, img, cat, d, n))
    ensures NamesIn(g, img', cat', x) == NamesIn(g, img, cat, x)
  {
    hide Partition, TreeOk, DirEnts, Shape, Flat, IsChain, Listing, OldChain, SameBytes;
    DirIsWalk(g, img, cat, {}, x);
    assert SameBytes(img, img', cat.chains[x]);
    SameEnts(img, img', cat.chains[x]);
  }

  lemma NotTheName(g: Geometry, img: Image, cat: Catalog, path: seq<FatName>, d: nat, n: FatName)
    requires g.Valid() && Shape(g, img) && Consistent(g, img, cat, {}) && d in cat.depth
    requires Avoids(g, img, cat, path, d, n) && Resolve(g, img, cat, path) != 0
    ensures Resolve(g, img, cat, path) != FirstOf(OldChain(g, img, cat, d, n))
  {
    hide Consistent, DirEnts, Shape, NamesIn;
    if path == [] {
      if n in NamesIn(g, img, cat, d) {
        ListedChain(g, img, cat, d, n);
        if NamesIn(g, img, cat, d)[n].cluster != 0 {
          SlotOwns(g, img, cat, d, n);
        }
      }
    } else {
      var x, m := Resolve(g, img, cat, path[..|path| - 1]), path[|path| - 1];
      SlotOwns(g, img, cat, x, m);
      OtherOwner(g, img, cat, d, n, x, m);
    }
  }

  /** One name looked up in a directory that a call left in place. */
  lemma LookKept(g: Geometry, img: Image, img': Image, cat: Catalog, cat': Catalog, d: nat, n: FatName, x: nat,
                 m: FatName)
    requires g.Valid() && Shape(g, img) && Shape(g, img') && d in cat.depth && d in cat'.depth
    requires Consistent(g, img, cat, {}) && Consistent(g, img', cat', {}) && OnlyName(g, img, img', cat, cat', d, n)
    requires x in cat.depth && x in cat'.depth && x != FirstOf(OldChain(g, img, cat, d, n)) && (x, m) != (d, n)
    ensures Enter(g, img', cat', x, m) == Enter(g, img, cat, x, m)
    ensures LookIn(g, img', cat', x, m) == LookIn(g, img, cat, x, m)
  {
    hide Partition, TreeOk, DirEnts, Shape, NamesIn, Flat, OldChain, SameBytes;
    if x != d {
      ListsAsBefore(g, img, img', cat, cat', d, n, x);
    }
    if m in NamesIn(g, img, cat, x) {
      var e := NamesIn(g, img, cat, x)[m];
      ListedChain(g, img, cat, x, m);
      ZeroIsNoChain(g, img, cat);
      ZeroIsNoChain(g, img', cat');
      if e.cluster != 0 && !e.isDir {
        OtherOwner(g, img, cat, d, n, x, m);
        assert e.cluster != d;
        assert SameBytes(img, img', cat.chains[e.cluster]);
        SameSectors(img, img', cat.chains[e.cluster]);
      } else {
        FlatNone(img.clus, []);
        FlatNone(img'.clus, []);
      }
    }
  }

  lemma SameSectors(img: Image, img': Image, ch: seq<nat>)
    requires SameBytes(img, img', ch)
    ensures InImage(img.clus, ch) && InImage(img'.clus, ch) && Flat(img'.clus, ch) == Flat(img.clus, ch)
  {
  }

  lemma {:induction false} ResolveKept(g: Geometry, img: Image, img': Image, cat: Catalog, cat': Catalog, d: nat,
                                       n: FatName, path: seq<FatName>)
    requires g.Valid() && Shape(g, img) && Shape(g, img') && d in cat.depth && d in cat'.depth
    requires Consistent(g, img, cat, {}) && Consistent(g, img', cat', {}) && OnlyName(g, img, img', cat, cat', d, n)
    requires Avoids(g, img, cat, path, d, n)
    ensures Resolve(g, img', cat', path) == Resolve(g, img, cat, path)
  {
    hide Consistent, DirEnts, Shape, NamesIn, OnlyName, OldChain, Enter, Avoids;
    if path != [] {
      var init := path[..|path| - 1];
      AvoidsInit(g, img, cat, path, d, n);
      ResolveKept(g, img, img', cat, cat', d, n, init);
      var x := Resolve(g, img, cat, init);
      if x != 0 {
        NotTheName(g, img, cat, init, d, n);
        LookKept(g, img, img', cat, cat', d, n, x, path[|path| - 1]);
      } else {
        EnterNowhere(g, img, cat, path[|path| - 1]);
        EnterNowhere(g, img', cat', path[|path| - 1]);
      }
    }
  }

  lemma EnterNowhere(g: Geometry, img: Image, cat: Catalog, n: FatName)
    requires g.Valid() && Shape(g, img) && Consistent(g, img, cat, {})
    ensures Enter(g, img, cat, 0, n) == 0
  {
    hide Consistent, DirEnts, Shape, NamesIn;
  }

  lemma AvoidsInit(g: Geometry, img: Image, cat: Catalog, path: seq<FatName>, d: nat, n: FatName)
    requires g.Valid() && Shape(g, img) && Consistent(g, img, cat, {}) && path != []
    requires Avoids(g, img, cat, path, d, n)
    ensures Avoids(g, img, cat, path[..|path| - 1], d, n)
    ensures !(Resolve(g, img, cat, path[..|path| - 1]) == d && path[|path| - 1] == n)
  {
    hide Consistent, DirEnts, Shape, NamesIn, Resolve;
    var init := path[..|path| - 1];
    forall i | 0 <= i < |init|
      ensures !(Resolve(g, img, cat, init[..i]) == d && init[i] == n)
    {
      assert init[..i] == path[..i];
    }
  }

  /** A change confined to one name is seen by no path that avoids it. */
  lemma OnlyNameIsolates(g: Geometry, img: Image, img': Image, cat: Catalog, cat': Catalog, d: nat, n: FatName)
    requires g.Valid() && Shape(g, img) && Shape(g, img') && d in cat.depth && d in cat'.depth
    requires Consistent(g, img, cat, {}) && Consistent(g, img', cat', {}) && OnlyName(g, img, img', cat, cat', d, n)
    ensures Isolated(g, img, img', cat, cat', d, n)
  {
    hide Consistent, DirEnts, Shape, NamesIn, OnlyName, OldChain, Enter, Avoids, Resolve, LookIn;
    forall path | Avoids(g, img, cat, path, d, n)
      ensures Resolve(g, img', cat', path) == Resolve(g, img, cat, path)
    {
      ResolveKept(g, img, img', cat, cat', d, n, path);
    }
    forall path, m | Avoids(g, img, cat, path + [m], d, n)
      ensures Look(g, img', cat', path, m) == Look(g, img, cat, path, m)
    {
      AvoidsInit(g, img, cat, path + [m], d, n);
      assert (path + [m])[..|path|] == path;
      ResolveKept(g, img, img', cat, cat', d, n, path);
      var x := Resolve(g, img, cat, path);
      if x != 0 {
        NotTheName(g, img, cat, path, d, n);
        LookKept(g, img, img', cat, cat', d, n, x, m);
      } else {
        LookNowhere(g, img, cat, m);
        LookNowhere(g, img', cat', m);
      }
    }
  }

  lemma LookNowhere(g: Geometry, img: Image, cat: Catalog, n: FatName)
    requires g.Valid() && Shape(g, img) && Consistent(g, img, cat, {})
    ensures LookIn(g, img, cat, 0, n) == Nothing
  {
    hide Consistent, DirEnts, Shape, NamesIn;
  }

  /** A path that does not go on from where d is by name n avoids that name: there is only one way to d. */
  lemma AvoidsUnlessThrough(g: Geometry, img: Image, cat: Catalog, home: seq<FatName>, d: nat, n: FatName,
                            path: seq<FatName>)
    requires g.Valid() && Shape(g, img) && Consistent(g, img, cat, {})
    requires Resolve(g, img, cat, home) == d != 0 && !(home + [n] <= path)
    ensures Avoids(g, img, cat, path, d, n)
  {
    hide Consistent, DirEnts, Shape, NamesIn, Resolve;
    forall i | 0 <= i < |path|
      ensures !(Resolve(g, img, cat, path[..i]) == d && path[i] == n)
    {
      assert path[..i + 1] == path[..i] + [path[i]];
      if Resolve(g, img, cat, path[..i]) == d && path[i] == n {
        OnePath(g, img, cat, home, path[..i]);
      }
    }
  }
}
