/** Listing a directory: its visible slots in scan order, with names decoded, up to a limit. */
module FileList {
  import opened Bytes
  import opened FatLayout
  import opened Volumes
  import opened ChainData
  import opened DirEntries
  import opened DirTree
  import opened DirScan
  import opened FileData
  import opened Names

  datatype DirItem = DirItem(name: seq<byte>, size: nat, isDir: bool)

  function ItemOf(e: Slot): DirItem {
    DirItem(Shown(NameOf(e)), SizeOf(e), IsDir(e))
  }

  /** Every visible slot, in order. */
  ghost function Items(slots: seq<Slot>): (r: seq<DirItem>)
    ensures |r| <= |slots|
  {
    if slots == [] then [] else
      Items(slots[..|slots| - 1]) + (if IsVisible(slots[|slots| - 1]) then [ItemOf(slots[|slots| - 1])] else [])
  }

  lemma {:induction false} ItemsAppend(a: seq<Slot>, b: seq<Slot>)
    ensures Items(a + b) == Items(a) + Items(b)
  {
    if b == [] {
      assert a + b == a;
    } else {
      assert (a + b)[..|a + b| - 1] == a + b[..|b| - 1];
      ItemsAppend(a, b[..|b| - 1]);
    }
  }

  lemma {:induction false} ItemsNone(slots: seq<Slot>)
    requires forall q :: 0 <= q < |slots| ==> IsEnd(slots[q])
    ensures Items(slots) == []
  {
    if slots != [] {
      ItemsNone(slots[..|slots| - 1]);
    }
  }

  /** The first `limit` items of a directory, or all of them. */
  ghost predicate Listed(slots: seq<Slot>, limit: nat, out: seq<DirItem>) {
    out == Items(slots)[..Min(limit, |Items(slots)|)]
  }

  /** A listing may stop at an unused slot, or at a visible one it has no room for. */
  ghost predicate StopsAt(e: Slot, limit: nat, count: nat) {
    IsEnd(e) || (IsVisible(e) && count == limit)
  }

  lemma StoppedList(before: seq<Slot>, here: seq<Slot>, after: seq<Slot>, j: nat, limit: nat, out: seq<DirItem>)
    requires j < |here| && EndsClean(Ents(before + here + after)) && |out| <= limit
    requires out == Items(before) + Items(here[..j]) && StopsAt(here[j], limit, |out|)
    ensures Listed(before + here + after, limit, out)
  {
    hide Items, IsVisible;
    var all, done := before + here + after, before + here[..j];
    var rest := all[|done|..];
    assert all == done + rest;
    assert rest[0] == here[j];
    ItemsAppend(done, rest);
    ItemsAppend(before, here[..j]);
    if IsEnd(here[j]) {
      forall q | 0 <= q < |rest|
        ensures IsEnd(rest[q])
      {
        assert Ents(all)[|done|].Unused?;
        assert Ents(all)[|done| + q].Unused?;
      }
      ItemsNone(rest);
    }
  }

  /** Lists one sector's slots after `out`; stops early at slot j. */
  method ListSector(buf: Sector, out: seq<DirItem>, limit: nat) returns (r: seq<DirItem>, stop: bool, ghost j: nat)
    requires |out| <= limit
    ensures |r| <= limit
    ensures !stop ==> r == out + Items(Slots([buf]))
    ensures stop ==> j < |Slots([buf])| && r == out + Items(Slots([buf])[..j]) && StopsAt(Slots([buf])[j], limit, |r|)
  {
    hide SlotAt, Slots, IsVisible, ItemOf;
    ghost var slots := Slots([buf]);
    OneSector(buf);
    var i := 0;
    r, stop, j := out, false, 0;
    assert slots[..0] == [];
    while i < SLOTS_PER_SECTOR
      invariant 0 <= i <= SLOTS_PER_SECTOR && |r| <= limit
      invariant !stop && r == out + Items(slots[..i])
    {
      var e := SlotAt(buf, i);
      assert slots[..i + 1][..i] == slots[..i];
      VisibleIs(e);
      if e[0] == 0 {
        stop, j := true, i;
        return;
      }
      if e[0] != DELETED && AttrOf(e) % 0x10 == 0 {
        if |r| >= limit {
          stop, j := true, i;
          return;
        }
        var name := DecodeName(NameOf(e));
        ItemIs(e, name);
        r := r + [DirItem(name, SizeOf(e), IsDir(e))];
      }
      i := i + 1;
    }
    assert slots[..i] == slots;
  }

  lemma ItemIs(e: Slot, name: seq<byte>)
    requires name == Shown(NameOf(e))
    ensures ItemOf(e) == DirItem(name, SizeOf(e), IsDir(e))
  {
  }

  lemma VisibleIs(e: Slot)
    ensures IsVisible(e) <==> e[0] != 0 && e[0] != DELETED && AttrOf(e) % 0x10 == 0
  {
  }

  /** Lists one cluster, sector by sector. */
  method ListCluster(v: Volume, cluster: nat, out: seq<DirItem>, limit: nat)
    returns (r: seq<DirItem>, stop: bool, ghost j: nat)
    requires v.Mounted() && 2 <= cluster < v.geo.Limit() && |out| <= limit
    ensures |r| <= limit
    ensures !stop ==> r == out + Items(Slots(v.Img().clus[cluster]))
    ensures stop ==> j < |Slots(v.Img().clus[cluster])| && r == out + Items(Slots(v.Img().clus[cluster])[..j])
                     && StopsAt(Slots(v.Img().clus[cluster])[j], limit, |r|)
  {
    hide ImageOf, Layout, Geometry.ClusterToLba, Geometry.Limit, SlotAt, Slots, IsVisible, ItemOf, Items, StopsAt;
    ghost var k: Cluster := v.Img().clus[cluster];
    var base, s := v.geo.ClusterToLba(cluster), 0;
    r, stop, j := out, false, 0;
    assert k[..0] == [];
    NoItems();
    while s < v.geo.sectorsPerCluster
      invariant 0 <= s <= v.geo.sectorsPerCluster && |r| <= limit
      invariant !stop && r == out + Items(Slots(k[..s]))
    {
      var buf := v.ReadData(base + s, cluster, s);
      ghost var before := r;
      r, stop, j := ListSector(buf, r, limit);
      assert k[..s + 1] == k[..s] + [buf];
      SlotsAppend(k[..s], [buf]);
      if stop {
        assert k == k[..s] + [buf] + k[s + 1..];
        SlotsAppend(k[..s] + [buf], k[s + 1..]);
        ghost var at := |Slots(k[..s])| + j;
        ItemsAppend(Slots(k[..s]), Slots([buf])[..j]);
        assert Slots(k)[..at] == Slots(k[..s]) + Slots([buf])[..j];
        j := at;
        return;
      }
      ItemsAppend(Slots(k[..s]), Slots([buf]));
      s := s + 1;
    }
    assert k[..s] == k;
  }

  lemma NoItems()
    ensures Items(Slots([])) == []
  {
  }

  /** Lists a directory into at most `limit` items. */
  method ListEntries(v: Volume, dirCluster: nat, limit: nat, ghost ch: seq<nat>) returns (out: seq<DirItem>)
    requires Walks(v, ch) && ch[0] == dirCluster
    requires InImage(v.Img().clus, ch) && EndsClean(DirEnts(v.Img(), ch))
    ensures Listed(DirSlots(v.Img(), ch), limit, out)
  {
    hide ImageOf, Layout, Geometry.ClusterToLba, Geometry.Limit, Slots, Items, Flat, StopsAt, Listed, EndsClean;
    ghost var clus := v.Img().clus;
    var cluster, hops, stop := dirCluster, 0, false;
    out := [];
    ghost var k, j := 0, 0;
    FlatNone(clus, ch);
    NoItems();
    while cluster < EOC_MIN
      invariant k <= |ch| && hops == k
      invariant cluster == if k < |ch| then ch[k] else v.Img().fat[ch[|ch| - 1]]
      invariant |out| <= limit && out == Items(Slots(Flat(clus, ch[..k])))
      decreases |ch| - k
    {
      hops := hops + 1;
      if hops > MAX_CLUSTER_CHAIN {
        break;
      }
      out, stop, j := ListCluster(v, cluster, out, limit);
      FlatSplit(clus, ch, k);
      ghost var before, here, after := Flat(clus, ch[..k]), clus[ch[k]], Flat(clus, ch[k + 1..]);
      SlotsAppend(before, here);
      SlotsAppend(before + here, after);
      if stop {
        StoppedList(Slots(before), Slots(here), Slots(after), j, limit, out);
        return;
      }
      ItemsAppend(Slots(before), Slots(here));
      cluster := FatNextCluster(v, cluster);
      k := k + 1;
    }
    assert ch[..k] == ch;
    AllListed(Slots(Flat(clus, ch)), limit, out);
  }

  lemma AllListed(slots: seq<Slot>, limit: nat, out: seq<DirItem>)
    requires out == Items(slots) && |out| <= limit
    ensures Listed(slots, limit, out)
  {
    assert out == Items(slots)[..|Items(slots)|];
  }

  /** A listing with room for everything shows exactly the visible slots. */
  lemma {:induction false} ItemsAre(slots: seq<Slot>, it: DirItem)
    ensures it in Items(slots) <==> exists p :: 0 <= p < |slots| && IsVisible(slots[p]) && ItemOf(slots[p]) == it
  {
    hide IsVisible, ItemOf;
    if slots != [] {
      var init, last := slots[..|slots| - 1], slots[|slots| - 1];
      ItemsAre(init, it);
      assert forall p :: 0 <= p < |init| ==> init[p] == slots[p];
      if it in Items(init) {
        var p :| 0 <= p < |init| && IsVisible(init[p]) && ItemOf(init[p]) == it;
        assert slots[p] == init[p];
      }
    }
  }

  /** How an entry is listed. */
  function ItemFor(e: Ent): DirItem
    requires e.Entry?
  {
    DirItem(Shown(e.name), e.size, e.isDir)
  }

  lemma VisibleView(e: Slot)
    ensures IsVisible(e) <==> View(e).Entry? || View(e).Dot? || View(e).DotDot?
    ensures View(e).Entry? ==> ItemOf(e) == ItemFor(View(e))
    ensures View(e).Dot? || View(e).DotDot? ==> NameOf(e)[0] == DOT
  {
    hide Shown;
  }

  lemma ShownDot(fname: FatName)
    requires fname[0] == DOT
    ensures Shown(fname) != [] && Shown(fname)[0] == DOT
  {
  }

  /** A listing that did not reach its limit shows every entry, and nothing else but names starting with a dot. */
  lemma CompleteListing(slots: seq<Slot>, limit: nat, out: seq<DirItem>)
    requires Listed(slots, limit, out) && |out| < limit
    ensures forall p :: 0 <= p < |slots| && Ents(slots)[p].Entry? ==> ItemFor(Ents(slots)[p]) in out
    ensures forall it :: it in out ==>
              (exists p :: 0 <= p < |slots| && Ents(slots)[p].Entry? && it == ItemFor(Ents(slots)[p]))
                                       || (it.name != [] && it.name[0] == DOT)
  {
    hide Items, IsVisible, View, ItemOf, ItemFor;
    assert out == Items(slots);
    forall p | 0 <= p < |slots| && Ents(slots)[p].Entry?
      ensures ItemFor(Ents(slots)[p]) in out
    {
      VisibleView(slots[p]);
      ItemsAre(slots, ItemFor(Ents(slots)[p]));
    }
    forall it | it in out
      ensures (exists p :: 0 <= p < |slots| && Ents(slots)[p].Entry? && it == ItemFor(Ents(slots)[p]))
              || (it.name != [] && it.name[0] == DOT)
    {
      ItemsAre(slots, it);
      var p :| 0 <= p < |slots| && IsVisible(slots[p]) && ItemOf(slots[p]) == it;
      VisibleView(slots[p]);
      ItemIs(slots[p], Shown(NameOf(slots[p])));
      if !Ents(slots)[p].Entry? {
        ShownDot(NameOf(slots[p]));
      }
    }
  }
}
