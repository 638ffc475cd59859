/**
 Freeing on a damaged FAT: links stay in range but may run in circles. A revisited entry reads 0, so
 the walk ends by itself, having zeroed exactly the clusters that can be reached.
 */
module ChainCycles {
  import opened FatLayout
  import opened Volumes

  /** n links on from a cluster, or 0 once the links have run out. */
  ghost function Walk(fat: seq<nat>, a: nat, n: nat): nat
    decreases n
  {
    if n == 0 then a
    else if IsLink(a) && a < |fat| then Walk(fat, fat[a], n - 1)
    else 0
  }

  /** x is a cluster that links lead to from a. */
  ghost predicate Reached(fat: seq<nat>, a: nat, x: nat) {
    IsLink(x) && x < |fat| && exists n: nat :: Walk(fat, a, n) == x
  }

  ghost function NonZero(fat: seq<nat>, own: set<nat>): set<nat> {
    set c | c in own && c < |fat| && fat[c] != 0
  }

  lemma {:induction false} WalkAfterZeroing(fat: seq<nat>, a: nat, b: nat, n: nat, x: nat)
    requires a < |fat| && IsLink(x) && Walk(fat[a := 0], b, n) == x
    ensures Walk(fat, b, n) == x
    decreases n
  {
    if n > 0 {
      if b == a {
        assert Walk(fat[a := 0], 0, n - 1) == 0;
      } else {
        WalkAfterZeroing(fat, a, fat[b], n - 1, x);
      }
    }
  }

  /** A walk to x either avoids a or can be shortened to one from a. */
  lemma {:induction false} WalkAvoids(fat: seq<nat>, a: nat, b: nat, n: nat, x: nat) returns (k: nat)
    requires a < |fat| && IsLink(x) && x != a && Walk(fat, b, n) == x
    ensures k <= n && (Walk(fat[a := 0], b, n) == x || Walk(fat, a, k) == x)
    decreases n
  {
    k := n;
    if n > 0 && b != a {
      k := WalkAvoids(fat, a, fat[b], n - 1, x);
    }
  }

  lemma {:induction false} ReachedPast(fat: seq<nat>, a: nat, n: nat, x: nat)
    requires IsLink(a) && a < |fat| && IsLink(x) && x < |fat| && x != a && Walk(fat, a, n) == x
    ensures Reached(fat[a := 0], fat[a], x)
    decreases n
  {
    var k := WalkAvoids(fat, a, fat[a], n - 1, x);
    if Walk(fat[a := 0], fat[a], n - 1) != x {
      ReachedPast(fat, a, k, x);
    }
  }

  /** What links reach from a is a, and what they reach from its successor once a is zeroed. */
  lemma ReachedStep(fat: seq<nat>, a: nat, x: nat)
    requires IsLink(a) && a < |fat|
    ensures Reached(fat, a, x) <==> x == a || Reached(fat[a := 0], fat[a], x)
  {
    assert Walk(fat, a, 0) == a;
    if Reached(fat[a := 0], fat[a], x) {
      var n: nat :| Walk(fat[a := 0], fat[a], n) == x;
      WalkAfterZeroing(fat, a, fat[a], n, x);
      assert Walk(fat, a, n + 1) == x;
    }
    if Reached(fat, a, x) && x != a {
      var n: nat :| Walk(fat, a, n) == x;
      ReachedPast(fat, a, n, x);
    }
  }

  lemma NotReached(fat: seq<nat>, a: nat, x: nat)
    requires !IsLink(a)
    ensures !Reached(fat, a, x)
  {
    forall n: nat
      ensures Walk(fat, a, n) == if n == 0 then a else 0
    {
    }
  }

  /**
   On any FAT whose links stay inside `own`, cyclic or not, freeing zeroes exactly the clusters that
   can be reached and touches no other entry, given one hop more than `own` has non-zero entries.
   */
  lemma {:induction false} FreesReached(fat: seq<nat>, limit: nat, own: set<nat>, a: nat, hops: nat, x: nat)
    requires limit <= |fat| && Closed(fat, limit, own) && (IsLink(a) ==> a in own)
    requires |NonZero(fat, own)| < hops && x < |fat|
    ensures FreeChain(fat, a, hops)[x] == if Reached(fat, a, x) then 0 else fat[x]
    decreases hops
  {
    if !IsLink(a) {
      NotReached(fat, a, x);
    } else {
      var fat' := fat[a := 0];
      ReachedStep(fat, a, x);
      if fat[a] == 0 {
        NotReached(fat', 0, x);
        assert FreeChain(fat', 0, hops - 1) == fat';
      } else {
        assert NonZero(fat', own) == NonZero(fat, own) - {a};
        FreesReached(fat', limit, own, fat[a], hops - 1, x);
      }
    }
  }

  /** So the driver's hop limit plays no part as long as fewer entries than that are in use. */
  lemma HopLimitIdle(fat: seq<nat>, limit: nat, own: set<nat>, a: nat, hops: nat)
    requires limit <= |fat| && Closed(fat, limit, own) && (IsLink(a) ==> a in own)
    requires |NonZero(fat, own)| < MAX_CLUSTER_CHAIN <= hops
    ensures FreeChain(fat, a, hops) == FreeChain(fat, a, MAX_CLUSTER_CHAIN)
  {
    hide Reached, FreeChain, Closed;
    forall x | 0 <= x < |fat|
      ensures FreeChain(fat, a, hops)[x] == FreeChain(fat, a, MAX_CLUSTER_CHAIN)[x]
    {
      FreesReached(fat, limit, own, a, hops, x);
      FreesReached(fat, limit, own, a, MAX_CLUSTER_CHAIN, x);
    }
  }
}
