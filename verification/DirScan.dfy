/**
 The scans over a directory's cluster chain: finding a name, finding a free slot (growing the
 directory when it has none), and checking that a directory is empty.
 */
module DirScan {
  import opened Bytes
  import opened FatLayout
  import opened Volumes
  import opened Chains
  import opened ChainData
  import opened DirEntries
  import opened DirTree

  /** A directory's slots, in scan order. */
  ghost function DirSlots(img: Image, ch: seq<nat>): (r: seq<Slot>)
    requires InImage(img.clus, ch)
  {
    Slots(Flat(img.clus, ch))
  }

  ghost function DirEnts(img: Image, ch: seq<nat>): (r: seq<Ent>)
    requires InImage(img.clus, ch)
  {
    Ents(DirSlots(img, ch))
  }

  /** Position of slot i of sector s of the k-th cluster. */
  ghost function SlotPos(img: Image, ch: seq<nat>, k: nat, s: nat, i: nat): nat
    requires InImage(img.clus, ch) && k <= |ch|
  {
    (Base(img.clus, ch, k) + s) * SLOTS_PER_SECTOR + i
  }

  /** The chain a walk follows, on a mounted volume. */
  ghost predicate Walks(v: Volume, ch: seq<nat>)
    reads v.disk
  {
    && v.Mounted()
    && v.geo.Limit() <= BAD_MARK
    && IsChain(v.Img().fat, v.geo.Limit(), ch)
    && |ch| <= MAX_CLUSTER_CHAIN
  }

  /** What scanning for a slot told: where the first hit is, or that there is none. */
  datatype Probe = Hit(index: nat) | End | Miss

  /** The slots before `stop` are neither hits nor unused. */
  ghost predicate Passed(slots: seq<Slot>, hit: Slot -> bool, stop: nat) {
    stop <= |slots| && forall q :: 0 <= q < stop ==> !hit(slots[q]) && !IsEnd(slots[q])
  }

  ghost predicate Probed(slots: seq<Slot>, hit: Slot -> bool, r: Probe) {
    match r
    case Hit(i) => i < |slots| && hit(slots[i]) && Passed(slots, hit, i)
    case End => exists j :: 0 <= j < |slots| && !hit(slots[j]) && IsEnd(slots[j]) && Passed(slots, hit, j)
    case Miss => Passed(slots, hit, |slots|)
  }

  lemma ProbedMore(a: seq<Slot>, b: seq<Slot>, hit: Slot -> bool, r: Probe, c: seq<Slot>)
    requires Passed(a, hit, |a|) && Probed(b, hit, r) && !r.Miss?
    ensures Probed(a + b + c, hit, if r.Hit? then Hit(|a| + r.index) else End)
  {
    var all := a + b + c;
    assert forall q :: 0 <= q < |a| ==> all[q] == a[q];
    assert forall q :: 0 <= q < |b| ==> all[|a| + q] == b[q];
    var stop: nat :| stop < |b| && Passed(b, hit, stop)
                     && (if r.Hit? then stop == r.index else !hit(b[stop]) && IsEnd(b[stop]));
    assert Passed(all, hit, |a| + stop) by {
      forall q | 0 <= q < |a| + stop
        ensures !hit(all[q]) && !IsEnd(all[q])
      {
        if q >= |a| {
          assert all[q] == b[q - |a|];
        }
      }
    }
    assert all[|a| + stop] == b[stop];
  }

  lemma PassedMore(a: seq<Slot>, b: seq<Slot>, hit: Slot -> bool)
    requires Passed(a, hit, |a|) && Passed(b, hit, |b|)
    ensures Passed(a + b, hit, |a + b|)
  {
  }

  lemma OneSector(buf: Sector)
    ensures |Slots([buf])| == SLOTS_PER_SECTOR
    ensures forall j :: 0 <= j < SLOTS_PER_SECTOR ==> Slots([buf])[j] == SlotAt(buf, j)
  {
  }

  method ScanSector(buf: Sector, hit: Slot -> bool) returns (r: Probe)
    ensures Probed(Slots([buf]), hit, r)
    ensures r.Hit? ==> r.index < SLOTS_PER_SECTOR && hit(SlotAt(buf, r.index))
  {
    hide SlotAt, Slots;
    ghost var slots := Slots([buf]);
    OneSector(buf);
    var i := 0;
    while i < SLOTS_PER_SECTOR
      invariant 0 <= i <= SLOTS_PER_SECTOR
      invariant Passed(slots, hit, i)
    {
      var e := SlotAt(buf, i);
      if hit(e) {
        return Hit(i);
      }
      if e[0] == 0 {
        return End;
      }
      i := i + 1;
    }
    return Miss;
  }

  /** Scans one cluster, sector by sector. */
  method ScanCluster(v: Volume, cluster: nat, hit: Slot -> bool) returns (r: Probe, lba: nat)
    requires v.Mounted() && 2 <= cluster < v.geo.Limit()
    ensures r.Hit? ==> r.index < SLOTS_PER_SECTOR
                       && v.geo.ClusterToLba(cluster) <= lba < v.geo.ClusterToLba(cluster) + v.geo.sectorsPerCluster
    ensures Probed(Slots(v.Img().clus[cluster]), hit,
                   if r.Hit? then Hit((lba - v.geo.ClusterToLba(cluster)) * SLOTS_PER_SECTOR + r.index) else r)
  {
    hide ImageOf, Layout, Geometry.ClusterToLba, Geometry.Limit, SlotAt, Slots, Probed, Passed;
    ghost var k: Cluster := v.Img().clus[cluster];
    var base, s := v.geo.ClusterToLba(cluster), 0;
    lba := 0;
    NothingPassed(hit);
    assert k[..0] == [];
    while s < v.geo.sectorsPerCluster
      invariant 0 <= s <= v.geo.sectorsPerCluster
      invariant Passed(Slots(k[..s]), hit, |Slots(k[..s])|)
    {
      var buf := v.ReadData(base + s, cluster, s);
      r := ScanSector(buf, hit);
      assert k[..s + 1] == k[..s] + [buf];
      SlotsAppend(k[..s], [buf]);
      if !r.Miss? {
        lba := base + s;
        assert k == k[..s] + [buf] + k[s + 1..];
        SlotsAppend(k[..s] + [buf], k[s + 1..]);
        ProbedMore(Slots(k[..s]), Slots([buf]), hit, r, Slots(k[s + 1..]));
        return;
      }
      MissPassed(Slots([buf]), hit, r);
      PassedMore(Slots(k[..s]), Slots([buf]), hit);
      s := s + 1;
    }
    assert k[..s] == k;
    r := Miss;
    PassedIsMiss(Slots(k), hit);
  }

  lemma NothingPassed(hit: Slot -> bool)
    ensures Passed(Slots([]), hit, |Slots([])|)
  {
  }

  lemma MissPassed(slots: seq<Slot>, hit: Slot -> bool, r: Probe)
    requires Probed(slots, hit, r) && r.Miss?
    ensures Passed(slots, hit, |slots|)
  {
  }

  lemma PassedIsMiss(slots: seq<Slot>, hit: Slot -> bool)
    requires Passed(slots, hit, |slots|)
    ensures Probed(slots, hit, Miss)
  {
  }

  /**
   Scans a directory, cluster by cluster along its chain, until a slot hits or an unused slot
   ends it. On a miss, `last` is the chain's last cluster.
   */
  method ScanDir(v: Volume, dirCluster: nat, hit: Slot -> bool, ghost ch: seq<nat>)
    returns (r: Probe, lba: nat, last: nat, ghost k: nat)
    requires Walks(v, ch) && ch[0] == dirCluster
    ensures InImage(v.Img().clus, ch)
    ensures !r.Hit? ==> Probed(DirSlots(v.Img(), ch), hit, r)
    ensures r.Hit? ==> k < |ch| && r.index < SLOTS_PER_SECTOR
    ensures r.Hit? ==> v.geo.ClusterToLba(ch[k]) <= lba < v.geo.ClusterToLba(ch[k]) + v.geo.sectorsPerCluster
    ensures r.Hit? ==> Probed(DirSlots(v.Img(), ch), hit,
                              Hit(SlotPos(v.Img(), ch, k, lba - v.geo.ClusterToLba(ch[k]), r.index)))
    ensures r.Miss? ==> last == ch[|ch| - 1]
  {
    hide ImageOf, Layout, Geometry.ClusterToLba, Geometry.Limit, SlotAt, Slots, Probed, Passed, Flat;
    ghost var clus := v.Img().clus;
    var cluster, hops := dirCluster, 0;
    k, last, lba, r := 0, dirCluster, 0, Miss;
    FlatNone(clus, ch);
    NothingPassed(hit);
    while cluster < EOC_MIN
      invariant k <= |ch| && hops == k
      invariant cluster == if k < |ch| then ch[k] else v.Img().fat[ch[|ch| - 1]]
      invariant r.Miss? && last == if k == 0 then dirCluster else ch[k - 1]
      invariant Passed(Slots(Flat(clus, ch[..k])), hit, |Slots(Flat(clus, ch[..k]))|)
      decreases |ch| - k
    {
      hops := hops + 1;
      if hops > MAX_CLUSTER_CHAIN {
        break;
      }
      last := cluster;
      r, lba := ScanCluster(v, cluster, hit);
      FlatSplit(clus, ch, k);
      ghost var before, here, after := Flat(clus, ch[..k]), clus[ch[k]], Flat(clus, ch[k + 1..]);
      SlotsAppend(before, here);
      SlotsAppend(before + here, after);
      if !r.Miss? {
        ProbedMore(Slots(before), Slots(here), hit,
                   if r.Hit? then Hit((lba - v.geo.ClusterToLba(cluster)) * SLOTS_PER_SECTOR + r.index) else r,
                   Slots(after));
        return;
      }
      MissPassed(Slots(here), hit, r);
      PassedMore(Slots(before), Slots(here), hit);
      cluster := FatNextCluster(v, cluster);
      k := k + 1;
    }
    assert ch[..k] == ch;
    PassedIsMiss(Slots(Flat(clus, ch)), hit);
  }

  lemma FlatNone(clus: seq<Cluster>, ch: seq<nat>)
    requires InImage(clus, ch)
    ensures Flat(clus, ch[..0]) == []
  {
  }

  /** Slot `index` of the sector at `lba`, in the k-th cluster of a chain. */
  ghost predicate Within(g: Geometry, ch: seq<nat>, k: nat, lba: nat, index: nat) {
    && k < |ch| && 2 <= ch[k] && index < SLOTS_PER_SECTOR
    && g.ClusterToLba(ch[k]) <= lba < g.ClusterToLba(ch[k]) + g.sectorsPerCluster
  }

  ghost function PlaceOf(g: Geometry, img: Image, ch: seq<nat>, k: nat, lba: nat, index: nat): nat
    requires InImage(img.clus, ch) && Within(g, ch, k, lba, index)
  {
    SlotPos(img, ch, k, lba - g.ClusterToLba(ch[k]), index)
  }

  lemma ProbedHit(slots: seq<Slot>, hit: Slot -> bool, p: nat)
    requires Probed(slots, hit, Hit(p))
    ensures p < |slots| && hit(slots[p])
    ensures forall q :: 0 <= q < p ==> !hit(slots[q]) && !IsEnd(slots[q])
  {
  }

  /** A scan that ended without a hit passed over every slot that could have been one. */
  lemma ProbedNone(slots: seq<Slot>, hit: Slot -> bool, r: Probe)
    requires Probed(slots, hit, r) && !r.Hit? && EndsClean(Ents(slots))
    requires forall e :: IsEnd(e) ==> !hit(e)
    ensures forall q :: 0 <= q < |slots| ==> !hit(slots[q])
  {
    if r.End? {
      var j :| 0 <= j < |slots| && !hit(slots[j]) && IsEnd(slots[j]) && Passed(slots, hit, j);
      forall q | j < q < |slots|
        ensures IsEnd(slots[q])
      {
        assert Ents(slots)[j].Unused? && Ents(slots)[q].Unused?;
      }
    }
  }

  /** Finds the slot carrying a name: its sector's LBA and its index there. */
  method FindDirEntryLoc(v: Volume, dirCluster: nat, name: FatName, ghost ch: seq<nat>)
    returns (found: bool, lba: nat, index: nat, ghost k: nat)
    requires Walks(v, ch) && ch[0] == dirCluster && name[0] != DOT
    requires InImage(v.Img().clus, ch) && EndsClean(DirEnts(v.Img(), ch))
    ensures found ==> Within(v.geo, ch, k, lba, index)
    ensures found ==> NameAt(DirEnts(v.Img(), ch), PlaceOf(v.geo, v.Img(), ch, k, lba, index), name)
    ensures !found ==> Absent(DirEnts(v.Img(), ch), name)
  {
    hide ImageOf, Layout, Geometry.ClusterToLba, Geometry.Limit, SlotAt, Slots, Probed, Passed, Flat, Matches, View,
         EndsClean, IsChain;
    var hit := (e: Slot) => Matches(e, name);
    var r, last;
    r, lba, last, k := ScanDir(v, dirCluster, hit, ch);
    ghost var slots := DirSlots(v.Img(), ch);
    forall e: Slot
      ensures Matches(e, name) <==> View(e).Entry? && View(e).name == name
      ensures IsEnd(e) ==> !Matches(e, name)
    {
      ViewMatch(e, name);
      EndIsNoMatch(e, name);
    }
    match r {
      case Hit(i) =>
        found, index := true, i;
        IsInChain(v.geo, v.Img(), ch, k);
        ProbedHit(slots, hit, PlaceOf(v.geo, v.Img(), ch, k, lba, index));
      case End =>
        found, index := false, 0;
        ProbedNone(slots, hit, r);
      case Miss =>
        found, index := false, 0;
        ProbedNone(slots, hit, r);
    }
  }

  lemma EndIsNoMatch(e: Slot, name: FatName)
    ensures IsEnd(e) ==> !Matches(e, name)
  {
  }

  lemma IsInChain(g: Geometry, img: Image, ch: seq<nat>, k: nat)
    requires g.Valid() && Shape(g, img) && IsChain(img.fat, g.Limit(), ch) && k < |ch|
    ensures 2 <= ch[k] < g.Limit()
  {
  }

  /** True exactly when the directory holds nothing but "." and "..". */
  method DirIsEmpty(v: Volume, dirCluster: nat, ghost ch: seq<nat>) returns (empty: bool)
    requires Walks(v, ch) && ch[0] == dirCluster
    requires InImage(v.Img().clus, ch) && EndsClean(DirEnts(v.Img(), ch))
    ensures empty <==> NoEntries(DirEnts(v.Img(), ch))
  {
    hide ImageOf, Layout, Geometry.ClusterToLba, Geometry.Limit, SlotAt, Slots, Probed, Passed, Flat, IsNamed, View,
         EndsClean, IsChain;
    var r, lba, last;
    ghost var k;
    r, lba, last, k := ScanDir(v, dirCluster, IsNamed, ch);
    ghost var slots := DirSlots(v.Img(), ch);
    forall e: Slot
      ensures IsNamed(e) <==> View(e).Entry?
      ensures IsEnd(e) ==> !IsNamed(e)
    {
      NamedIsEntry(e);
    }
    empty := !r.Hit?;
    if empty {
      ProbedNone(slots, IsNamed, r);
    } else {
      IsInChain(v.geo, v.Img(), ch, k);
      ghost var p := SlotPos(v.Img(), ch, k, lba - v.geo.ClusterToLba(ch[k]), r.index);
      ProbedHit(slots, IsNamed, p);
      assert DirEnts(v.Img(), ch)[p].Entry?;
    }
  }

  lemma NamedIsEntry(e: Slot)
    ensures IsNamed(e) <==> View(e).Entry?
    ensures IsEnd(e) ==> !IsNamed(e)
    ensures IsFree(e) <==> View(e).Free()
  {
  }

  /**
   The first slot free for the taking. A directory without one is extended by a zeroed cluster,
   returned in `grown` (0 otherwise); with no cluster free either, nothing changes.
   */
  method FindFreeDirSlot(v: Volume, dirCluster: nat, ghost ch: seq<nat>)
    returns (found: bool, lba: nat, index: nat, ghost k: nat, ghost grown: nat)
    requires Walks(v, ch) && ch[0] == dirCluster && InImage(v.Img().clus, ch)
    modifies v.disk
    ensures v.Mounted() && v.Elsewhere() == old(v.Elsewhere())
    ensures !found || grown == 0 ==> v.Img() == old(v.Img())
    ensures !found ==> LowestFree(old(v.Img()).fat, v.geo.Limit(), 0)
    ensures !found || grown != 0 ==>
              forall q :: 0 <= q < |DirEnts(old(v.Img()), ch)| ==> !DirEnts(old(v.Img()), ch)[q].Free()
    ensures found && grown == 0 ==> Within(v.geo, ch, k, lba, index)
    ensures found && grown == 0 ==> FirstFree(DirEnts(old(v.Img()), ch), PlaceOf(v.geo, v.Img(), ch, k, lba, index))
    ensures found && grown != 0 ==>
              && LowestFree(old(v.Img()).fat, v.geo.Limit(), grown)
              && v.Img() == Claimed(v.geo, old(v.Img()), grown).Link(ch[|ch| - 1], grown)
              && lba == v.geo.ClusterToLba(grown) && index == 0
  {
    hide ImageOf, Layout, Geometry.ClusterToLba, Geometry.Limit, SlotAt, Slots, Probed, Passed, Flat, IsFree, View,
         EndsClean, Claimed;
    var r, last;
    r, lba, last, k := ScanDir(v, dirCluster, IsFree, ch);
    ghost var slots := DirSlots(v.Img(), ch);
    grown, index := 0, 0;
    forall e: Slot
      ensures IsFree(e) <==> View(e).Free()
    {
      NamedIsEntry(e);
    }
    if r.Hit? {
      found, index := true, r.index;
      ProbedHit(slots, IsFree, PlaceOf(v.geo, v.Img(), ch, k, lba, index));
      return;
    }
    NoFreeSlot(slots, r);
    var added := ExtendChain(v, last);
    if added == 0 {
      found := false;
      return;
    }
    found, lba, grown := true, v.geo.ClusterToLba(added), added;
  }

  ghost predicate FirstFree(ents: seq<Ent>, p: nat) {
    p < |ents| && ents[p].Free() && forall q :: 0 <= q < p ==> !ents[q].Free()
  }

  /** An unused slot is free, so a scan for free slots never stops at one without a hit. */
  lemma NoFreeSlot(slots: seq<Slot>, r: Probe)
    requires Probed(slots, IsFree, r) && !r.Hit?
    ensures r.Miss? && forall q :: 0 <= q < |slots| ==> !IsFree(slots[q])
  {
  }
}
