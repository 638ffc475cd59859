/**
 The directory tree: which slot owns which chain. Every chain but the root's belongs to exactly
 one named slot; a directory lies one level below the directory that owns it.
 */
module DirTree {
  import opened DirEntries

  // --------------------------------------------------------------- one directory

  /** No live slot follows the first unused one. */
  ghost predicate EndsClean(ents: seq<Ent>) {
    forall p, q :: 0 <= p < q < |ents| && ents[p].Unused? ==> ents[q].Unused?
  }

  /** No two entries carry the same name. */
  ghost predicate NamesUnique(ents: seq<Ent>) {
    forall p, q :: 0 <= p < q < |ents| && ents[p].Entry? && ents[q].Entry? ==> ents[p].name != ents[q].name
  }

  ghost predicate Clean(ents: seq<Ent>) {
    EndsClean(ents) && NamesUnique(ents)
  }

  ghost predicate NameAt(ents: seq<Ent>, p: nat, n: FatName) {
    p < |ents| && ents[p].Entry? && ents[p].name == n
  }

  ghost predicate Absent(ents: seq<Ent>, n: FatName) {
    forall p: nat :: !NameAt(ents, p, n)
  }

  /** What a directory means: a map from names to entries. */
  ghost function Listing(ents: seq<Ent>): (r: map<FatName, Ent>)
    requires NamesUnique(ents)
  {
    map p | 0 <= p < |ents| && ents[p].Entry? :: ents[p].name := ents[p]
  }

  lemma ListingAt(ents: seq<Ent>, n: FatName)
    requires NamesUnique(ents)
    ensures n in Listing(ents) <==> !Absent(ents, n)
    ensures forall p: nat :: NameAt(ents, p, n) ==> Listing(ents)[n] == ents[p]
  {
    if n in Listing(ents) {
      var p :| 0 <= p < |ents| && ents[p].Entry? && ents[p].name == n;
      assert NameAt(ents, p, n);
    }
  }

  /** Replacing one slot changes the directory's map at the old and the new name, nowhere else. */
  ghost function Relisted(m: map<FatName, Ent>, was: Ent, now: Ent): map<FatName, Ent> {
    var kept := if was.Entry? then m - {was.name} else m;
    if now.Entry? then kept[now.name := now] else kept
  }

  lemma ListingPut(ents: seq<Ent>, p: nat, e: Ent)
    requires p < |ents| && NamesUnique(ents) && NamesUnique(ents[p := e])
    ensures Listing(ents[p := e]) == Relisted(Listing(ents), ents[p], e)
  {
    hide Listing;
    var got, want := Listing(ents[p := e]), Relisted(Listing(ents), ents[p], e);
    forall n: FatName
      ensures n in got <==> n in want
      ensures n in got ==> got[n] == want[n]
    {
      ListingPutAt(ents, p, e, n);
    }
    assert got.Keys == want.Keys;
  }

  lemma NameAtPut(ents: seq<Ent>, p: nat, e: Ent, q: nat, n: FatName)
    requires p < |ents| && NamesUnique(ents)
    ensures NameAt(ents[p := e], q, n) <==> if q == p then e.Entry? && e.name == n else NameAt(ents, q, n)
    ensures NameAt(ents, p, n) && NameAt(ents, q, n) ==> p == q
  {
  }

  lemma ListingPutAt(ents: seq<Ent>, p: nat, e: Ent, n: FatName)
    requires p < |ents| && NamesUnique(ents) && NamesUnique(ents[p := e])
    ensures var got, want := Listing(ents[p := e]), Relisted(Listing(ents), ents[p], e);
      (n in got <==> n in want) && (n in got ==> got[n] == want[n])
  {
    hide Listing, NamesUnique;
    var ents' := ents[p := e];
    ListingAt(ents, n);
    ListingAt(ents', n);
    if e.Entry? && e.name == n {
      assert NameAt(ents', p, n);
    } else if q: nat :| q != p && NameAt(ents, q, n) {
      NameAtPut(ents, p, e, q, n);
      assert NameAt(ents', q, n);
    } else {
      forall q: nat
        ensures !NameAt(ents', q, n)
      {
        NameAtPut(ents, p, e, q, n);
      }
    }
  }

  /** Filling the first free slot with a fresh name, or with no name, keeps a directory clean. */
  lemma CleanFill(ents: seq<Ent>, p: nat, e: Ent)
    requires Clean(ents) && p < |ents| && forall q :: 0 <= q < p ==> !ents[q].Unused?
    requires !e.Unused? && (e.Entry? ==> Absent(ents, e.name))
    ensures Clean(ents[p := e])
  {
    var ents' := ents[p := e];
    forall q | 0 <= q < |ents|
      ensures e.Entry? && ents[q].Entry? ==> ents[q].name != e.name
    {
      assert e.Entry? ==> !NameAt(ents, q, e.name);
    }
  }

  /** Rewriting an entry under its own name, or erasing it, keeps a directory clean. */
  lemma CleanRewrite(ents: seq<Ent>, p: nat, e: Ent)
    requires Clean(ents) && p < |ents| && ents[p].Entry?
    requires e.Erased? || (e.Entry? && e.name == ents[p].name)
    ensures Clean(ents[p := e])
  {
  }

  // -------------------------------------------------------------------- the tree

  type Dirs = map<nat, seq<Ent>>
  type Owners = map<nat, (nat, nat)>

  /** Chains' first clusters, directories' slots by first cluster, and each chain's owning slot. */
  datatype Tree = Tree(root: nat, heads: set<nat>, dirs: Dirs, owner: Owners, depth: map<nat, nat>)

  ghost predicate DomainsOk(t: Tree) {
    && t.root in t.dirs && t.root !in t.owner && 0 !in t.heads
    && t.dirs.Keys <= t.heads
    && t.heads == t.owner.Keys + {t.root}
    && t.depth.Keys == t.dirs.Keys
    && t.depth[t.root] == 0
  }

  ghost predicate DirsClean(dirs: Dirs) {
    forall d :: d in dirs ==> Clean(dirs[d])
  }

  /** Entry p of directory d, if it points anywhere, owns the chain it points to. */
  ghost predicate EntryOwns(e: Ent, d: nat, p: nat, t: Tree)
    requires DomainsOk(t) && d in t.dirs && e.Entry?
  {
    var h := e.cluster;
    if h == 0 then !e.isDir
    else h in t.owner && t.owner[h] == (d, p) && (if e.isDir then h in t.dirs && t.depth[h] == t.depth[d] + 1
                                                  else h !in t.dirs)
  }

  ghost predicate EntriesOwn(t: Tree)
    requires DomainsOk(t)
  {
    forall d, p {:trigger t.dirs[d][p]} :: d in t.dirs && 0 <= p < |t.dirs[d]| && t.dirs[d][p].Entry? ==>
      EntryOwns(t.dirs[d][p], d, p, t)
  }

  ghost predicate OwnedBy(t: Tree, h: nat, d: nat, p: nat) {
    d in t.dirs && p < |t.dirs[d]| && t.dirs[d][p].Entry? && t.dirs[d][p].cluster == h
  }

  ghost predicate AllOwned(t: Tree) {
    forall h {:trigger t.owner[h]} :: h in t.owner ==> OwnedBy(t, h, t.owner[h].0, t.owner[h].1)
  }

  /** A directory starts with "." naming itself and ".." naming its parent (0 for the root). */
  ghost predicate Dotted(ents: seq<Ent>, self: nat, parent: nat, root: nat) {
    && 2 <= |ents|
    && ents[0] == Dot(true, self)
    && ents[1] == DotDot(true, if parent == root then 0 else parent)
  }

  ghost predicate AllDotted(t: Tree)
    requires DomainsOk(t)
  {
    forall d {:trigger t.owner[d]} :: d in t.dirs && d != t.root ==> Dotted(t.dirs[d], d, t.owner[d].0, t.root)
  }

  ghost predicate TreeOk(t: Tree) {
    && DomainsOk(t)
    && DirsClean(t.dirs)
    && EntriesOwn(t)
    && AllOwned(t)
    && AllDotted(t)
  }

  ghost predicate NoEntries(ents: seq<Ent>) {
    forall q :: 0 <= q < |ents| ==> !ents[q].Entry?
  }

  // ------------------------------------------------------------------- steps

  /**
   Slot p of directory d becomes e. The chain its old entry owned (h0, 0 for none) leaves the
   tree; the chain the new one owns (h, 0 for none) joins it, as directory `sub` if the new entry
   is a directory's.
   */
  datatype Change = Change(d: nat, p: nat, e: Ent, h0: nat, h: nat, sub: seq<Ent>) {
    ghost predicate MakesDir() { h != 0 && e.Entry? && e.isDir }
  }

  ghost predicate IsFolder(e: Ent) {
    e.Entry? && e.isDir
  }

  ghost function Head(e: Ent): nat {
    if e.Entry? then e.cluster else 0
  }

  ghost predicate Fits(t: Tree, c: Change) {
    && c.d in t.dirs && c.p < |t.dirs[c.d]| && c.d in t.depth
    && c.h0 == Head(t.dirs[c.d][c.p]) && c.h == Head(c.e)
    && !t.dirs[c.d][c.p].Dot? && !t.dirs[c.d][c.p].DotDot?
  }

  ghost predicate MayRewire(t: Tree, c: Change) {
    && TreeOk(t) && Fits(t, c)
    && Clean(t.dirs[c.d][c.p := c.e])
    && (c.h == 0 || c.h == c.h0 || c.h !in t.heads)
    && (c.h == 0 && c.e.Entry? ==> !c.e.isDir)
    && (c.h0 in t.dirs ==> c.h != c.h0 && NoEntries(t.dirs[c.h0]))
    && (c.MakesDir() ==> c.h != c.h0 && Clean(c.sub) && NoEntries(c.sub) && Dotted(c.sub, c.h, c.d, t.root))
  }

  ghost function Rewire(t: Tree, c: Change): Tree
    requires Fits(t, c)
  {
    var dirs := t.dirs[c.d := t.dirs[c.d][c.p := c.e]] - {c.h0};
    var owner := t.owner - {c.h0};
    var depth := t.depth - {c.h0};
    Tree(t.root,
         t.heads - {c.h0} + (if c.h == 0 then {} else {c.h}),
         if c.MakesDir() then dirs[c.h := c.sub] else dirs,
         if c.h == 0 then owner else owner[c.h := (c.d, c.p)],
         if c.MakesDir() then depth[c.h := t.depth[c.d] + 1] else depth)
  }

  /** The rewritten slot owned h0 and nothing else did. */
  ghost predicate OwnedOld(t: Tree, c: Change) {
    c.h0 != 0 ==> c.h0 in t.owner && t.owner[c.h0] == (c.d, c.p) && c.h0 != t.root && c.h0 != c.d
  }

  lemma OldOwner(t: Tree, c: Change)
    requires DomainsOk(t) && EntriesOwn(t) && Fits(t, c)
    ensures OwnedOld(t, c)
  {
    if c.h0 != 0 {
      assert EntryOwns(t.dirs[c.d][c.p], c.d, c.p, t);
    }
  }

  lemma RewireDomains(t: Tree, c: Change)
    requires DomainsOk(t) && Fits(t, c) && OwnedOld(t, c)
    requires c.h == 0 || c.h == c.h0 || c.h !in t.heads
    requires c.h == c.h0 ==> c.h0 !in t.dirs && !c.MakesDir()
    ensures DomainsOk(Rewire(t, c))
  {
  }

  lemma RewireEntries(t: Tree, c: Change)
    requires DomainsOk(t) && EntriesOwn(t) && Fits(t, c) && OwnedOld(t, c)
    requires c.h == 0 || c.h == c.h0 || c.h !in t.heads
    requires c.h == 0 && c.e.Entry? ==> !c.e.isDir
    requires c.h == c.h0 ==> c.h0 !in t.dirs && !c.MakesDir()
    requires c.MakesDir() ==> NoEntries(c.sub)
    requires DomainsOk(Rewire(t, c))
    ensures EntriesOwn(Rewire(t, c))
  {
    var t' := Rewire(t, c);
    forall d, p {:trigger t'.dirs[d][p]} | d in t'.dirs && 0 <= p < |t'.dirs[d]| && t'.dirs[d][p].Entry?
      ensures EntryOwns(t'.dirs[d][p], d, p, t')
    {
      if d != c.d || p != c.p {
        assert t.dirs[d][p] == t'.dirs[d][p];
        assert EntryOwns(t.dirs[d][p], d, p, t);
      }
    }
  }

  /** Chains owned by other slots stay owned by them. */
  lemma RewireOther(t: Tree, c: Change, k: nat, d: nat, p: nat)
    requires Fits(t, c) && OwnedBy(t, k, d, p) && k != c.h0
    requires c.h0 in t.dirs ==> NoEntries(t.dirs[c.h0])
    requires c.h == c.h0 || c.h !in t.dirs
    ensures OwnedBy(Rewire(t, c), k, d, p)
  {
    assert d != c.h0;
    assert (d, p) != (c.d, c.p);
  }

  lemma RewireOwned(t: Tree, c: Change)
    requires AllOwned(t) && Fits(t, c) && (c.h0 in t.dirs ==> NoEntries(t.dirs[c.h0]))
    requires c.h == c.h0 || c.h !in t.dirs
    requires c.d != c.h0 && c.h != c.d
    ensures AllOwned(Rewire(t, c))
  {
    var t' := Rewire(t, c);
    hide Rewire, NoEntries;
    forall k {:trigger t'.owner[k]} | k in t'.owner
      ensures OwnedBy(t', k, t'.owner[k].0, t'.owner[k].1)
    {
      RewireOwners(t, c, k);
      if k != c.h {
        RewireOther(t, c, k, t.owner[k].0, t.owner[k].1);
      }
    }
  }

  lemma RewireOwners(t: Tree, c: Change, k: nat)
    requires Fits(t, c) && k in Rewire(t, c).owner
    requires c.d != c.h0 && c.h != c.d
    ensures k == c.h && k != 0 ==> Rewire(t, c).owner[k] == (c.d, c.p) && OwnedBy(Rewire(t, c), k, c.d, c.p)
    ensures k != c.h ==> k != c.h0 && k in t.owner && Rewire(t, c).owner[k] == t.owner[k]
    ensures k == 0 ==> k in t.owner
  {
  }

  lemma RewireDotted(t: Tree, c: Change)
    requires DomainsOk(t) && AllDotted(t) && Fits(t, c) && OwnedOld(t, c)
    requires c.h == 0 || c.h == c.h0 || c.h !in t.heads
    requires c.h == c.h0 ==> c.h0 !in t.dirs && !c.MakesDir()
    requires c.MakesDir() ==> Dotted(c.sub, c.h, c.d, t.root)
    requires DomainsOk(Rewire(t, c))
    ensures AllDotted(Rewire(t, c))
  {
    var t' := Rewire(t, c);
    forall d {:trigger t'.owner[d]} | d in t'.dirs && d != t'.root
      ensures Dotted(t'.dirs[d], d, t'.owner[d].0, t'.root)
    {
      if d != c.h {
        assert Dotted(t.dirs[d], d, t.owner[d].0, t.root);
      }
    }
  }

  /** Every permitted change of one slot keeps the tree well formed. */
  lemma RewireOk(t: Tree, c: Change)
    requires MayRewire(t, c)
    ensures TreeOk(Rewire(t, c))
  {
    hide Clean, EntriesOwn, AllOwned, AllDotted, Dotted, NoEntries;
    OldOwner(t, c);
    RewireDomains(t, c);
    RewireEntries(t, c);
    assert c.d != c.h0 by { assert 0 !in t.heads; }
    RewireOwned(t, c);
    RewireDotted(t, c);
    assert DirsClean(Rewire(t, c).dirs);
  }

  /** A directory grows by unused slots. */
  ghost function Grown(t: Tree, d: nat, more: seq<Ent>): Tree
    requires d in t.dirs
  {
    t.(dirs := t.dirs[d := t.dirs[d] + more])
  }

  ghost predicate AllUnused(more: seq<Ent>) {
    forall q :: 0 <= q < |more| ==> more[q].Unused?
  }

  lemma GrowClean(ents: seq<Ent>, more: seq<Ent>)
    requires Clean(ents) && AllUnused(more) && forall q :: 0 <= q < |ents| ==> !ents[q].Unused?
    ensures Clean(ents + more)
  {
  }

  lemma GrowOwned(t: Tree, d: nat, more: seq<Ent>)
    requires AllOwned(t) && d in t.dirs
    ensures AllOwned(Grown(t, d, more))
  {
    var t' := Grown(t, d, more);
    forall k | k in t'.owner
      ensures OwnedBy(t', k, t'.owner[k].0, t'.owner[k].1)
    {
      assert OwnedBy(t, k, t.owner[k].0, t.owner[k].1);
    }
  }

  lemma GrowDotted(t: Tree, d: nat, more: seq<Ent>)
    requires DomainsOk(t) && AllDotted(t) && d in t.dirs && DomainsOk(Grown(t, d, more))
    ensures AllDotted(Grown(t, d, more))
  {
    var t' := Grown(t, d, more);
    forall k {:trigger t'.owner[k]} | k in t'.dirs && k != t'.root
      ensures Dotted(t'.dirs[k], k, t'.owner[k].0, t'.root)
    {
      assert Dotted(t.dirs[k], k, t.owner[k].0, t.root);
    }
  }

  lemma GrowEntries(t: Tree, d: nat, more: seq<Ent>)
    requires DomainsOk(t) && EntriesOwn(t) && d in t.dirs && DomainsOk(Grown(t, d, more)) && AllUnused(more)
    ensures EntriesOwn(Grown(t, d, more))
  {
    var t' := Grown(t, d, more);
    forall k, p {:trigger t'.dirs[k][p]} | k in t'.dirs && 0 <= p < |t'.dirs[k]| && t'.dirs[k][p].Entry?
      ensures EntryOwns(t'.dirs[k][p], k, p, t')
    {
      assert t.dirs[k][p] == t'.dirs[k][p];
      assert EntryOwns(t.dirs[k][p], k, p, t);
    }
  }

  lemma GrowOk(t: Tree, d: nat, more: seq<Ent>)
    requires TreeOk(t) && d in t.dirs && AllUnused(more)
    requires forall q :: 0 <= q < |t.dirs[d]| ==> !t.dirs[d][q].Unused?
    ensures TreeOk(Grown(t, d, more))
  {
    hide Clean, EntriesOwn, AllOwned, AllDotted, AllUnused;
    GrowClean(t.dirs[d], more);
    GrowEntries(t, d, more);
    GrowOwned(t, d, more);
    GrowDotted(t, d, more);
  }

  // ------------------------------------------- the changes the file system makes

  /** An entry may be erased (a directory only when empty) or, if a file, be given another chain. */
  lemma SettleMay(t: Tree, d: nat, p: nat, e1: Ent)
    requires TreeOk(t) && d in t.dirs && p < |t.dirs[d]| && t.dirs[d][p].Entry?
    requires e1.Erased? || (e1.Entry? && e1.name == t.dirs[d][p].name && !e1.isDir && !t.dirs[d][p].isDir)
    requires e1.Erased? && t.dirs[d][p].isDir ==>
               t.dirs[d][p].cluster in t.dirs && NoEntries(t.dirs[t.dirs[d][p].cluster])
    requires Head(e1) == 0 || Head(e1) == t.dirs[d][p].cluster || Head(e1) !in t.heads
    ensures MayRewire(t, Change(d, p, e1, t.dirs[d][p].cluster, Head(e1), []))
    ensures t.dirs[d][p].cluster != d
    ensures t.dirs[d][p].cluster in t.dirs <==> t.dirs[d][p].isDir
  {
    hide AllOwned, AllDotted, Clean, NoEntries;
    assert EntryOwns(t.dirs[d][p], d, p, t);
    assert Clean(t.dirs[d]);
    CleanRewrite(t.dirs[d], p, e1);
    OldOwner(t, Change(d, p, e1, t.dirs[d][p].cluster, Head(e1), []));
  }

  /** The first free slot may become an empty file or a new directory under a fresh name. */
  lemma FillMay(t: Tree, d: nat, p: nat, e1: Ent, sub: seq<Ent>)
    requires TreeOk(t) && d in t.dirs && p < |t.dirs[d]| && t.dirs[d][p].Free()
    requires forall q :: 0 <= q < p ==> !t.dirs[d][q].Free()
    requires e1.Entry? && Absent(t.dirs[d], e1.name)
    requires if e1.isDir then e1.cluster !in t.heads && e1.cluster != 0 && Clean(sub) && NoEntries(sub)
                              && Dotted(sub, e1.cluster, d, t.root)
             else e1.cluster == 0
    ensures MayRewire(t, Change(d, p, e1, 0, e1.cluster, sub)) && 0 != d && e1.cluster != d
  {
    hide EntriesOwn, AllOwned, AllDotted, NoEntries, Dotted;
    CleanFill(t.dirs[d], p, e1);
    hide Clean;
  }
}
