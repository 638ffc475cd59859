/**
 Cluster chains: the invariant that the clusters in use are partitioned into disjoint,
 acyclic, terminated chains, and what each step on the FAT does to it.
 */
module Chains {
  import opened FatLayout
  import opened Volumes

  /** A nonempty walk through the FAT that ends in an end mark. */
  ghost predicate IsChain(fat: seq<nat>, limit: nat, ch: seq<nat>)
    requires limit <= |fat|
  {
    && 0 < |ch|
    && (forall i :: 0 <= i < |ch| ==> 2 <= ch[i] < limit)
    && (forall i :: 0 <= i < |ch| - 1 ==> fat[ch[i]] == ch[i + 1])
    && fat[ch[|ch| - 1]] >= EOC_MIN
  }

  /** Entries from 0x0FFFFFF8 on end a chain, and none below does. */
  lemma EndMarks(fat: seq<nat>, limit: nat, c: nat)
    requires limit <= |fat| && 2 <= c < limit
    ensures IsChain(fat, limit, [c]) <==> fat[c] >= 0x0FFF_FFF8
    ensures IsLink(fat[c]) <==> 2 <= fat[c] < 0x0FFF_FFF8
  {
  }

  type ChainMap = map<nat, seq<nat>>

  ghost predicate Covered(chains: ChainMap, c: nat) {
    exists h :: h in chains && c in chains[h]
  }

  ghost predicate AllChains(fat: seq<nat>, limit: nat, chains: ChainMap)
    requires limit <= |fat|
  {
    forall h :: h in chains ==> IsChain(fat, limit, chains[h])
  }

  ghost predicate Keyed(chains: ChainMap) {
    forall h :: h in chains ==> 0 < |chains[h]| <= MAX_CLUSTER_CHAIN && chains[h][0] == h
  }

  ghost predicate Disjoint(chains: ChainMap) {
    forall h, h', c :: h in chains && h' in chains && c in chains[h] && c in chains[h'] ==> h == h'
  }

  ghost predicate NoLeak(fat: seq<nat>, limit: nat, chains: ChainMap, extra: set<nat>)
    requires limit <= |fat|
  {
    forall c :: 2 <= c < limit && fat[c] != 0 && fat[c] != BAD_MARK ==> Covered(chains, c) || c in extra
  }

  /**
   Chains are keyed by their first cluster, no cluster is in two, none meets `extra`,
   and every cluster in use is in a chain or in `extra`.
   */
  ghost predicate Partition(fat: seq<nat>, limit: nat, chains: ChainMap, extra: set<nat>)
    requires limit <= |fat|
  {
    && limit <= BAD_MARK
    && AllChains(fat, limit, chains)
    && Keyed(chains)
    && Disjoint(chains)
    && (forall c :: c in extra ==> 2 <= c < limit && !Covered(chains, c))
    && NoLeak(fat, limit, chains, extra)
  }

  lemma Parts(fat: seq<nat>, limit: nat, chains: ChainMap, extra: set<nat>)
    requires limit <= |fat| && Partition(fat, limit, chains, extra)
    ensures limit <= BAD_MARK && AllChains(fat, limit, chains) && Keyed(chains) && Disjoint(chains)
    ensures forall c :: c in extra ==> 2 <= c < limit && !Covered(chains, c)
  {
  }

  ghost function Elements(s: seq<nat>): set<nat> {
    set c | c in s
  }

  lemma ChainRange(fat: seq<nat>, limit: nat, ch: seq<nat>, x: nat)
    requires limit <= |fat| && IsChain(fat, limit, ch) && x in ch
    ensures 2 <= x < limit && fat[x] != 0
    ensures fat[x] in ch || fat[x] >= EOC_MIN
  {
    var i :| 0 <= i < |ch| && ch[i] == x;
    if i < |ch| - 1 {
      assert fat[ch[i]] == ch[i + 1];
    }
  }

  /** A terminated walk never visits a cluster twice: chains are acyclic. */
  lemma {:induction false} ChainHasNoCycle(fat: seq<nat>, limit: nat, ch: seq<nat>, i: nat, j: nat)
    requires limit <= |fat| && limit <= BAD_MARK && IsChain(fat, limit, ch) && i < j < |ch|
    ensures ch[i] != ch[j]
    decreases |ch| - j
  {
    assert fat[ch[i]] == ch[i + 1];
    if j < |ch| - 1 {
      ChainHasNoCycle(fat, limit, ch, i + 1, j + 1);
      assert fat[ch[j]] == ch[j + 1];
    }
  }

  lemma {:induction false} DistinctCount(s: seq<nat>)
    requires forall i, j :: 0 <= i < j < |s| ==> s[i] != s[j]
    ensures |Elements(s)| == |s|
  {
    if s == [] {
      assert Elements(s) == {};
    } else {
      var init, last := s[..|s| - 1], s[|s| - 1];
      DistinctCount(init);
      assert Elements(s) == Elements(init) + {last};
      assert last !in init;
    }
  }

  lemma {:induction false} RangeCount(s: set<nat>, lo: nat, hi: nat)
    requires lo <= hi && forall x :: x in s ==> lo <= x < hi
    ensures |s| <= hi - lo
    decreases hi - lo
  {
    if lo < hi {
      RangeCount(s - {hi - 1}, lo, hi - 1);
    } else {
      assert s == {};
    }
  }

  /** A chain has no more clusters than the volume. */
  lemma ChainFits(fat: seq<nat>, limit: nat, ch: seq<nat>)
    requires limit <= |fat| && limit <= BAD_MARK && IsChain(fat, limit, ch)
    ensures |Elements(ch)| == |ch| <= limit - 2
  {
    forall i, j | 0 <= i < j < |ch|
      ensures ch[i] != ch[j]
    {
      ChainHasNoCycle(fat, limit, ch, i, j);
    }
    DistinctCount(ch);
    assert 2 <= ch[0] < limit;
    RangeCount(Elements(ch), 2, limit);
  }

  /** A chain of n clusters can be walked to its end: n is within the hop limit, or any chain is. */
  ghost predicate HopsSuffice(limit: nat, n: nat) {
    n <= MAX_CLUSTER_CHAIN || limit <= MAX_CLUSTER_CHAIN + 2
  }

  lemma WalkIsShort(fat: seq<nat>, limit: nat, ch: seq<nat>)
    requires limit <= |fat| && limit <= BAD_MARK && IsChain(fat, limit, ch) && HopsSuffice(limit, |ch|)
    ensures |ch| <= MAX_CLUSTER_CHAIN
  {
    ChainFits(fat, limit, ch);
  }

  lemma ChainIsClosed(fat: seq<nat>, limit: nat, ch: seq<nat>)
    requires limit <= |fat| && limit <= BAD_MARK && IsChain(fat, limit, ch)
    ensures Closed(fat, limit, Elements(ch))
  {
    forall c | c in Elements(ch)
      ensures 2 <= c < limit && (IsLink(fat[c]) ==> fat[c] in Elements(ch))
    {
      ChainRange(fat, limit, ch, c);
    }
  }

  lemma ChainTail(fat: seq<nat>, limit: nat, ch: seq<nat>)
    requires limit <= |fat| && limit <= BAD_MARK && IsChain(fat, limit, ch) && 1 < |ch|
    ensures IsChain(fat[ch[0] := 0], limit, ch[1..])
  {
    forall i | 0 < i < |ch|
      ensures ch[i] != ch[0]
    {
      ChainHasNoCycle(fat, limit, ch, 0, i);
    }
    var t := ch[1..];
    assert forall i :: 0 <= i < |t| ==> t[i] == ch[i + 1];
  }

  /**
   Freeing a chain zeroes exactly its first `hops` clusters and touches no other entry:
   the whole chain if and only if it is no longer than the hop limit.
   */
  lemma {:induction false} FreeChainZeroes(fat: seq<nat>, limit: nat, ch: seq<nat>, hops: nat, x: nat)
    requires limit <= |fat| && limit <= BAD_MARK && IsChain(fat, limit, ch) && x < |fat|
    ensures FreeChain(fat, ch[0], hops)[x] == if x in ch[..if hops < |ch| then hops else |ch|] then 0 else fat[x]
    decreases hops
  {
    if hops > 0 {
      var fat' := fat[ch[0] := 0];
      var n := if hops < |ch| then hops else |ch|;
      assert ch[..n] == [ch[0]] + ch[1..n];
      if |ch| == 1 {
        assert FreeChain(fat', fat[ch[0]], hops - 1) == fat';
      } else {
        ChainTail(fat, limit, ch);
        FreeChainZeroes(fat', limit, ch[1..], hops - 1, x);
        assert ch[1..][..n - 1] == ch[1..n];
      }
    }
  }

  lemma FreeChainWhole(fat: seq<nat>, limit: nat, ch: seq<nat>)
    requires limit <= |fat| && limit <= BAD_MARK && IsChain(fat, limit, ch)
    ensures (forall x :: x in ch ==> FreeChain(fat, ch[0], MAX_CLUSTER_CHAIN)[x] == 0) <==> |ch| <= 200_000
  {
    hide FreeChain;
    if |ch| <= MAX_CLUSTER_CHAIN {
      forall x | x in ch
        ensures FreeChain(fat, ch[0], MAX_CLUSTER_CHAIN)[x] == 0
      {
        FreeChainZeroes(fat, limit, ch, MAX_CLUSTER_CHAIN, x);
        assert ch[..|ch|] == ch;
      }
    } else {
      var x := ch[|ch| - 1];
      FreeChainZeroes(fat, limit, ch, MAX_CLUSTER_CHAIN, x);
      if x in ch[..MAX_CLUSTER_CHAIN] {
        var i :| 0 <= i < MAX_CLUSTER_CHAIN && ch[i] == x;
        ChainHasNoCycle(fat, limit, ch, i, |ch| - 1);
      }
      assert x in ch;
    }
  }

  // -------------------------------------------------------- steps on the chains

  /** A cluster that reads 0 lies in no chain. */
  lemma FreeIsUncovered(fat: seq<nat>, limit: nat, chains: ChainMap, c: nat)
    requires limit <= |fat| && AllChains(fat, limit, chains) && c < limit && fat[c] == 0
    ensures !Covered(chains, c)
  {
    hide IsChain;
    if Covered(chains, c) {
      var h :| h in chains && c in chains[h];
      ChainRange(fat, limit, chains[h], c);
    }
  }

  /** Chains that avoid the changed entries stay chains. */
  lemma ChainKept(fat: seq<nat>, fat': seq<nat>, limit: nat, ch: seq<nat>)
    requires limit <= |fat| && |fat| == |fat'| && IsChain(fat, limit, ch)
    requires forall x :: x in ch && x < |fat| ==> fat'[x] == fat[x]
    ensures IsChain(fat', limit, ch)
  {
    forall i | 0 <= i < |ch|
      ensures fat'[ch[i]] == fat[ch[i]]
    {
      assert ch[i] in ch;
    }
  }

  lemma ChainsKept(fat: seq<nat>, fat': seq<nat>, limit: nat, chains: ChainMap)
    requires limit <= |fat| && |fat| == |fat'| && AllChains(fat, limit, chains)
    requires forall x :: 0 <= x < |fat| && Covered(chains, x) ==> fat'[x] == fat[x]
    ensures AllChains(fat', limit, chains)
  {
    hide IsChain;
    forall h | h in chains
      ensures IsChain(fat', limit, chains[h])
    {
      forall x | x in chains[h] && x < |fat|
        ensures fat'[x] == fat[x]
      {
        assert Covered(chains, x);
      }
      ChainKept(fat, fat', limit, chains[h]);
    }
  }

  lemma CoverTake(chains: ChainMap, h: nat, x: nat)
    requires h in chains && Disjoint(chains)
    ensures Covered(chains, x) <==> x in chains[h] || Covered(chains - {h}, x)
    ensures !(x in chains[h] && Covered(chains - {h}, x))
  {
    if Covered(chains, x) && x !in chains[h] {
      var k :| k in chains && x in chains[k];
      assert k in chains - {h};
    }
    if Covered(chains - {h}, x) {
      var k :| k in chains - {h} && x in (chains - {h})[k];
      assert k in chains && x in chains[k];
    }
  }

  /** Sets one chain aside. */
  lemma Take(fat: seq<nat>, limit: nat, chains: ChainMap, extra: set<nat>, h: nat)
    requires limit <= |fat| && Partition(fat, limit, chains, extra) && h in chains
    ensures IsChain(fat, limit, chains[h]) && chains[h][0] == h && |chains[h]| <= MAX_CLUSTER_CHAIN
    ensures extra !! Elements(chains[h])
    ensures Partition(fat, limit, chains - {h}, extra + Elements(chains[h]))
  {
    hide IsChain, Covered;
    forall x
      ensures Covered(chains, x) <==> x in chains[h] || Covered(chains - {h}, x)
      ensures !(x in chains[h] && Covered(chains - {h}, x))
    {
      CoverTake(chains, h, x);
    }
    forall x | x in chains[h]
      ensures 2 <= x < limit
    {
      ChainRange(fat, limit, chains[h], x);
    }
  }

  /** The clusters set aside may be relinked, freed, or joined by free ones. */
  lemma Relink(fat: seq<nat>, fat': seq<nat>, limit: nat, chains: ChainMap, extra: set<nat>, extra': set<nat>)
    requires limit <= |fat| && |fat| == |fat'| && Partition(fat, limit, chains, extra)
    requires forall x :: 0 <= x < |fat| && x !in extra && x !in extra' ==> fat'[x] == fat[x]
    requires forall x :: x in extra' && x !in extra ==> 2 <= x < limit && fat[x] == 0
    requires forall x :: x in extra && x !in extra' ==> fat'[x] == 0
    ensures Partition(fat', limit, chains, extra')
  {
    hide IsChain, Covered;
    forall x | x in extra'
      ensures 2 <= x < limit && !Covered(chains, x)
    {
      if x !in extra {
        FreeIsUncovered(fat, limit, chains, x);
      }
    }
    ChainsKept(fat, fat', limit, chains);
  }

  lemma CoverPut(chains: ChainMap, s: seq<nat>, x: nat)
    requires 0 < |s| && s[0] !in chains
    ensures Covered(chains[s[0] := s], x) <==> x in s || Covered(chains, x)
  {
    var chains' := chains[s[0] := s];
    if x in s {
      assert s[0] in chains' && x in chains'[s[0]];
    }
    if Covered(chains, x) {
      var k :| k in chains && x in chains[k];
      assert k in chains' && x in chains'[k];
    }
  }

  lemma KeyIsCovered(chains: ChainMap, h: nat)
    requires Keyed(chains) && h in chains
    ensures Covered(chains, h)
  {
    assert chains[h][0] in chains[h];
  }

  lemma DisjointPut(chains: ChainMap, s: seq<nat>)
    requires 0 < |s| && s[0] !in chains && Disjoint(chains)
    requires forall x :: x in s ==> !Covered(chains, x)
    ensures Disjoint(chains[s[0] := s])
  {
    forall k, x | k in chains && x in chains[k]
      ensures x !in s
    {
      assert Covered(chains, x);
    }
  }

  lemma PutBackCover(fat: seq<nat>, limit: nat, chains: ChainMap, extra: set<nat>, s: seq<nat>)
    requires limit <= |fat| && 0 < |s| && s[0] !in chains
    requires NoLeak(fat, limit, chains, extra)
    requires forall c :: c in extra ==> 2 <= c < limit && !Covered(chains, c)
    ensures NoLeak(fat, limit, chains[s[0] := s], extra - Elements(s))
    ensures forall c :: c in extra - Elements(s) ==> 2 <= c < limit && !Covered(chains[s[0] := s], c)
  {
    hide Covered;
    forall x
      ensures Covered(chains[s[0] := s], x) <==> x in Elements(s) || Covered(chains, x)
    {
      CoverPut(chains, s, x);
    }
  }

  /** Makes a chain of clusters that were set aside. */
  lemma PutBack(fat: seq<nat>, limit: nat, chains: ChainMap, extra: set<nat>, s: seq<nat>)
    requires limit <= |fat| && Partition(fat, limit, chains, extra)
    requires IsChain(fat, limit, s) && |s| <= MAX_CLUSTER_CHAIN && Elements(s) <= extra
    ensures s[0] !in chains
    ensures Partition(fat, limit, chains[s[0] := s], extra - Elements(s))
  {
    assert s[0] in Elements(s);
    if s[0] in chains {
      KeyIsCovered(chains, s[0]);
    }
    assert 0 < |s|;
    PutBackCover(fat, limit, chains, extra, s);
    assert forall x :: x in s ==> x in Elements(s);
    DisjointPut(chains, s);
    hide IsChain, Covered, Disjoint, Elements, NoLeak;
  }
}
