/**
 The kernel heap: a first-fit allocator over a linked list of block headers, which splits a block that
 is too large and merges free neighbours on every free.
 */
module Heaps {
  const HEAP_START := 0x20_0000
  const HEAP_SIZE := 0x80_0000
  const HEADER := 12 // bytes of a block_header_t on a 32-bit target

  datatype Block = Block(size: nat, free: bool)

  // ------------------------------------------------------------------- the block list

  /** Bytes a run of blocks takes, headers included. */
  ghost function Total(bs: seq<Block>): nat {
    if bs == [] then 0 else HEADER + bs[0].size + Total(bs[1..])
  }

  lemma {:induction false} TotalAppend(a: seq<Block>, b: seq<Block>)
    ensures Total(a + b) == Total(a) + Total(b)
  {
    if a == [] {
      assert a + b == b;
    } else {
      assert (a + b)[1..] == a[1..] + b;
      TotalAppend(a[1..], b);
    }
  }

  ghost predicate NoTwoFree(bs: seq<Block>) {
    forall i :: 0 <= i < |bs| - 1 ==> !(bs[i].free && bs[i + 1].free)
  }

  /** The allocated blocks: their sizes, by the address of their headers. */
  ghost function Live(bs: seq<Block>, at: nat): map<nat, nat> {
    if bs == [] then map[]
    else
      var rest := Live(bs[1..], at + HEADER + bs[0].size);
      if bs[0].free then rest else rest[at := bs[0].size]
  }

  lemma {:induction false} LiveAbove(bs: seq<Block>, at: nat)
    ensures forall a :: a in Live(bs, at) ==> at <= a && a + HEADER + Live(bs, at)[a] <= at + Total(bs)
  {
    if bs != [] {
      LiveAbove(bs[1..], at + HEADER + bs[0].size);
    }
  }

  /** Allocated blocks do not overlap. */
  lemma {:induction false} LiveDisjoint(bs: seq<Block>, at: nat, a: nat, b: nat)
    requires a in Live(bs, at) && b in Live(bs, at) && a < b
    ensures a + HEADER + Live(bs, at)[a] <= b
  {
    LiveAbove(bs[1..], at + HEADER + bs[0].size);
    if a != at {
      LiveDisjoint(bs[1..], at + HEADER + bs[0].size, a, b);
    }
  }

  lemma {:induction false} LiveAppend(a: seq<Block>, b: seq<Block>, at: nat)
    ensures Live(a + b, at) == Live(a, at) + Live(b, at + Total(a))
    ensures Live(a, at).Keys !! Live(b, at + Total(a)).Keys
  {
    if a == [] {
      assert a + b == b;
    } else {
      assert (a + b)[1..] == a[1..] + b;
      LiveAppend(a[1..], b, at + HEADER + a[0].size);
      LiveAbove(b, at + Total(a));
    }
  }

  lemma LiveHead(bs: seq<Block>, at: nat)
    requires bs != []
    ensures at in Live(bs, at) <==> !bs[0].free
    ensures !bs[0].free ==> Live(bs, at)[at] == bs[0].size
    ensures Live(bs[1..], at + HEADER + bs[0].size) == Live(bs, at) - {at}
  {
    var next := at + HEADER + bs[0].size;
    LiveAbove(bs[1..], next);
    assert at !in Live(bs[1..], next);
    assert Live(bs[1..], next) - {at} == Live(bs[1..], next);
  }

  lemma LiveOne(b: Block, at: nat)
    ensures Live([b], at) == (if b.free then map[] else map[at := b.size]) && Total([b]) == HEADER + b.size
  {
    assert [b][1..] == [];
  }

  /**
   A list without free neighbours is determined by the allocated blocks: the block list is a canonical
   form of what is allocated.
   */
  lemma {:induction false} Canonical(bs: seq<Block>, cs: seq<Block>, at: nat)
    requires NoTwoFree(bs) && NoTwoFree(cs) && Total(bs) == Total(cs) && Live(bs, at) == Live(cs, at)
    ensures bs == cs
    decreases |bs|
  {
    if bs != [] && cs != [] {
      LiveHead(bs, at);
      LiveHead(cs, at);
      if bs[0].free {
        GapEnd(bs, cs, at);
        GapEnd(cs, bs, at);
      }
      hide Live;
      Canonical(bs[1..], cs[1..], at + HEADER + bs[0].size);
      assert bs == [bs[0]] + bs[1..] && cs == [cs[0]] + cs[1..];
    }
  }

  /** A free block reaches at least as far as any free block at the same place must. */
  lemma GapEnd(bs: seq<Block>, cs: seq<Block>, at: nat)
    requires NoTwoFree(bs) && Total(bs) == Total(cs) && Live(bs, at) == Live(cs, at)
    requires bs != [] && cs != [] && bs[0].free && cs[0].free
    ensures cs[0].size <= bs[0].size
  {
    LiveAbove(cs[1..], at + HEADER + cs[0].size);
    if |bs| > 1 {
      assert !bs[1].free;
      LiveHead(bs[1..], at + HEADER + bs[0].size);
    } else {
      assert bs[1..] == [];
    }
  }

  // ------------------------------------------------------------------------ allocating

  /** The first free block that is large enough, or the number of blocks. */
  ghost function Fit(bs: seq<Block>, size: nat): (i: nat)
    ensures i <= |bs|
    ensures i < |bs| ==> bs[i].free && bs[i].size >= size
    ensures forall j :: 0 <= j < i ==> !(bs[j].free && bs[j].size >= size)
  {
    if bs == [] || (bs[0].free && bs[0].size >= size) then 0 else 1 + Fit(bs[1..], size)
  }

  ghost function Carve(b: Block, size: nat): (r: seq<Block>)
    requires size <= b.size
    ensures 0 < |r| <= 2 && !r[0].free && r[0].size >= size
  {
    if b.size > size + HEADER + 4 then [Block(size, false), Block(b.size - size - HEADER, true)]
    else [Block(b.size, false)]
  }

  lemma CarveLive(b: Block, size: nat, at: nat)
    requires size <= b.size
    ensures Total(Carve(b, size)) == HEADER + b.size
    ensures Live(Carve(b, size), at) == map[at := Carve(b, size)[0].size]
  {
    var r := Carve(b, size);
    LiveOne(r[0], at);
    if |r| == 2 {
      LiveOne(r[1], at + HEADER + size);
      assert r[1..] == [r[1]];
    } else {
      assert r == [r[0]];
    }
  }

  ghost function Allocate(bs: seq<Block>, i: nat, size: nat): (r: seq<Block>)
    requires i < |bs| && size <= bs[i].size
    ensures |bs| <= |r|
  {
    bs[..i] + Carve(bs[i], size) + bs[i + 1..]
  }

  lemma SplitAt(bs: seq<Block>, i: nat)
    requires i < |bs|
    ensures bs == bs[..i] + [bs[i]] + bs[i + 1..]
    ensures Total(bs) == Total(bs[..i]) + HEADER + bs[i].size + Total(bs[i + 1..])
  {
    hide Total, Live;
    var before, here, after := bs[..i], [bs[i]], bs[i + 1..];
    assert bs == before + here + after;
    TotalAppend(before + here, after);
    TotalAppend(before, here);
    LiveOne(bs[i], 0);
  }

  lemma AllocateTotal(bs: seq<Block>, i: nat, size: nat)
    requires i < |bs| && size <= bs[i].size && bs[i].free
    ensures Total(Allocate(bs, i, size)) == Total(bs)
    ensures NoTwoFree(bs) ==> NoTwoFree(Allocate(bs, i, size))
  {
    var carved := Carve(bs[i], size);
    CarveLive(bs[i], size, 0);
    SplitAt(bs, i);
    TotalAppend(bs[..i] + carved, bs[i + 1..]);
    TotalAppend(bs[..i], carved);
    hide Total;
    var cs := Allocate(bs, i, size);
    if NoTwoFree(bs) {
      forall j | 0 <= j < |cs| - 1
        ensures !(cs[j].free && cs[j + 1].free)
      {
        if j + 1 < i {
          assert cs[j] == bs[j] && cs[j + 1] == bs[j + 1];
        } else if j >= i + |carved| {
          assert cs[j] == bs[j - |carved| + 1] && cs[j + 1] == bs[j - |carved| + 2];
        } else if j == i + |carved| - 1 {
          assert cs[j + 1] == bs[i + 1];
        }
      }
    }
  }

  // -------------------------------------------------------------------------- freeing

  /** One pass that merges every run of free blocks into one. */
  ghost function Merge(bs: seq<Block>): (r: seq<Block>)
    ensures bs != [] ==> r != [] && r[0].free == bs[0].free
    ensures NoTwoFree(r) && Total(r) == Total(bs)
    decreases |bs|
  {
    if |bs| < 2 then bs
    else if bs[0].free && bs[1].free then
      assert bs[1..][1..] == bs[2..];
      var one := Block(bs[0].size + HEADER + bs[1].size, true);
      assert ([one] + bs[2..])[1..] == bs[2..];
      Merge([one] + bs[2..])
    else
      [bs[0]] + Merge(bs[1..])
  }

  lemma {:induction false} MergeLive(bs: seq<Block>, at: nat)
    ensures Live(Merge(bs), at) == Live(bs, at)
    decreases |bs|
  {
    if |bs| >= 2 {
      if bs[0].free && bs[1].free {
        var one := Block(bs[0].size + HEADER + bs[1].size, true);
        assert ([one] + bs[2..])[1..] == bs[2..] && bs[1..][1..] == bs[2..];
        MergeLive([one] + bs[2..], at);
      } else {
        MergeLive(bs[1..], at + HEADER + bs[0].size);
        assert ([bs[0]] + Merge(bs[1..]))[1..] == Merge(bs[1..]);
      }
    }
  }

  /** The list with the block whose header is at `a` marked free. */
  ghost function Mark(bs: seq<Block>, at: nat, a: nat): (r: seq<Block>)
    ensures |r| == |bs| && Total(r) == Total(bs)
  {
    if bs == [] then []
    else if at == a then [bs[0].(free := true)] + bs[1..]
    else [bs[0]] + Mark(bs[1..], at + HEADER + bs[0].size, a)
  }

  lemma {:induction false} MarkLive(bs: seq<Block>, at: nat, a: nat)
    ensures Live(Mark(bs, at, a), at) == Live(bs, at) - {a}
  {
    if bs != [] {
      var next, ms := at + HEADER + bs[0].size, Mark(bs, at, a);
      LiveHead(bs, at);
      LiveHead(ms, at);
      LiveAbove(bs[1..], next);
      hide Live;
      if at == a {
        assert ms[1..] == bs[1..];
      } else {
        MarkLive(bs[1..], next, a);
        assert ms[1..] == Mark(bs[1..], next, a);
      }
      assert Live(ms, at) - {at} == Live(bs, at) - {a} - {at};
      assert forall x :: x in Live(ms, at) <==> x in Live(bs, at) - {a};
    }
  }

  lemma {:induction false} MarkAt(bs: seq<Block>, at: nat, i: nat)
    requires i < |bs|
    ensures Mark(bs, at, at + Total(bs[..i])) == bs[i := bs[i].(free := true)]
  {
    if i > 0 {
      assert bs[..i][1..] == bs[1..][..i - 1];
      MarkAt(bs[1..], at + HEADER + bs[0].size, i - 1);
    }
  }

  /** What freeing the block whose header is at `a` makes of the list. */
  ghost function Release(bs: seq<Block>, a: nat): (r: seq<Block>)
    ensures NoTwoFree(r) && Total(r) == Total(bs)
  {
    Merge(Mark(bs, HEAP_START, a))
  }

  lemma ReleaseLive(bs: seq<Block>, a: nat)
    ensures Live(Release(bs, a), HEAP_START) == Live(bs, HEAP_START) - {a}
  {
    MarkLive(bs, HEAP_START, a);
    MergeLive(Mark(bs, HEAP_START, a), HEAP_START);
  }

  // ----------------------------------------------------------------------------- laws

  lemma AllocateLive(bs: seq<Block>, i: nat, size: nat, at: nat)
    requires i < |bs| && size <= bs[i].size && bs[i].free
    ensures var a := at + Total(bs[..i]);
      a !in Live(bs, at) && Live(Allocate(bs, i, size), at) == Live(bs, at)[a := Carve(bs[i], size)[0].size]
  {
    hide Total, Live, Carve;
    var a, carved := at + Total(bs[..i]), Carve(bs[i], size);
    assert bs == bs[..i] + ([bs[i]] + bs[i + 1..]);
    assert Allocate(bs, i, size) == bs[..i] + (carved + bs[i + 1..]);
    LiveOne(bs[i], a);
    CarveLive(bs[i], size, a);
    LiveAppend([bs[i]], bs[i + 1..], a);
    LiveAppend(carved, bs[i + 1..], a);
    LiveAppend(bs[..i], [bs[i]] + bs[i + 1..], at);
    LiveAppend(bs[..i], carved + bs[i + 1..], at);
    LiveAbove(bs[..i], at);
    LiveAbove(bs[i + 1..], a + HEADER + bs[i].size);
  }

  /** Allocating and then freeing the result restores the list exactly. */
  lemma AllocateRelease(bs: seq<Block>, size: nat)
    requires NoTwoFree(bs) && Fit(bs, size) < |bs|
    ensures var i := Fit(bs, size);
      Release(Allocate(bs, i, size), HEAP_START + Total(bs[..i])) == bs
  {
    hide Live, Carve, Allocate, NoTwoFree, Release;
    var i := Fit(bs, size);
    var a := HEAP_START + Total(bs[..i]);
    var cs := Allocate(bs, i, size);
    AllocateTotal(bs, i, size);
    AllocateLive(bs, i, size, HEAP_START);
    ReleaseLive(cs, a);
    assert Live(bs, HEAP_START) == Live(cs, HEAP_START) - {a};
    Canonical(Release(cs, a), bs, HEAP_START);
  }

  /** The order of two frees does not matter. */
  lemma ReleasesCommute(bs: seq<Block>, a: nat, b: nat)
    ensures Release(Release(bs, a), b) == Release(Release(bs, b), a)
  {
    ReleaseLive(bs, a);
    ReleaseLive(bs, b);
    ReleaseLive(Release(bs, a), b);
    ReleaseLive(Release(bs, b), a);
    assert Live(bs, HEAP_START) - {a} - {b} == Live(bs, HEAP_START) - {b} - {a};
    Canonical(Release(Release(bs, a), b), Release(Release(bs, b), a), HEAP_START);
  }

  ghost function ReleaseAll(bs: seq<Block>, order: seq<nat>): seq<Block>
    decreases |order|
  {
    if order == [] then bs else ReleaseAll(Release(bs, order[0]), order[1..])
  }

  lemma {:induction false} ReleaseAllLive(bs: seq<Block>, order: seq<nat>)
    requires NoTwoFree(bs)
    ensures NoTwoFree(ReleaseAll(bs, order)) && Total(ReleaseAll(bs, order)) == Total(bs)
    ensures Live(ReleaseAll(bs, order), HEAP_START) == Live(bs, HEAP_START) - (set a | a in order)
    decreases |order|
  {
    if order != [] {
      ReleaseLive(bs, order[0]);
      ReleaseAllLive(Release(bs, order[0]), order[1..]);
      assert (set a | a in order) == {order[0]} + (set a | a in order[1..]);
    }
  }

  const EMPTY_HEAP: seq<Block> := [Block(HEAP_SIZE - HEADER, true)]

  /** Freeing every allocated block, in any order, leaves the single block the heap started with. */
  lemma ReleaseEverything(bs: seq<Block>, order: seq<nat>)
    requires NoTwoFree(bs) && Total(bs) == HEAP_SIZE
    requires forall a :: a in Live(bs, HEAP_START) ==> a in order
    ensures ReleaseAll(bs, order) == EMPTY_HEAP
  {
    ReleaseAllLive(bs, order);
    assert Live(ReleaseAll(bs, order), HEAP_START) == map[];
    assert EMPTY_HEAP[1..] == [];
    assert Live(EMPTY_HEAP, HEAP_START) == map[] && Total(EMPTY_HEAP) == HEAP_SIZE;
    Canonical(ReleaseAll(bs, order), EMPTY_HEAP, HEAP_START);
  }

  // -------------------------------------------------------------- headers in memory

  /** A header as it lies in memory; next is an address, 0 for none. */
  datatype Header = Header(size: nat, free: bool, next: nat)

  ghost function At(bs: seq<Block>, i: nat): (a: nat)
    requires i <= |bs|
    ensures HEAP_START <= a
  {
    HEAP_START + Total(bs[..i])
  }

  lemma AtNext(bs: seq<Block>, i: nat)
    requires i < |bs|
    ensures At(bs, i + 1) == At(bs, i) + HEADER + bs[i].size
  {
    assert bs[..i + 1] == bs[..i] + [bs[i]];
    TotalAppend(bs[..i], [bs[i]]);
    LiveOne(bs[i], 0);
  }

  lemma {:induction false} AtGrows(bs: seq<Block>, i: nat, j: nat)
    requires i < j <= |bs|
    ensures At(bs, i) + HEADER + bs[i].size <= At(bs, j)
    decreases j
  {
    AtNext(bs, j - 1);
    if i < j - 1 {
      AtGrows(bs, i, j - 1);
    }
  }

  ghost function HeaderOf(bs: seq<Block>, i: nat): Header
    requires i < |bs|
  {
    Header(bs[i].size, bs[i].free, if i + 1 < |bs| then At(bs, i + 1) else 0)
  }

  /** The headers of the list lie in memory one after the other, each linked to the next. */
  ghost predicate Linked(mem: map<nat, Header>, bs: seq<Block>) {
    forall i :: 0 <= i < |bs| ==> At(bs, i) in mem && mem[At(bs, i)] == HeaderOf(bs, i)
  }

  lemma LinkAt(mem: map<nat, Header>, bs: seq<Block>, i: nat)
    requires Linked(mem, bs) && i < |bs|
    ensures At(bs, i) in mem && mem[At(bs, i)] == HeaderOf(bs, i)
  {
  }

  /** Replacing part of a list: the blocks before and after keep their addresses. */
  lemma LinkedSplice(mem: map<nat, Header>, mem': map<nat, Header>, bs: seq<Block>, i: nat, n: nat, mid: seq<Block>)
    requires Linked(mem, bs) && i + n <= |bs| && 0 < n && 0 < |mid|
    requires Total(mid) == Total(bs[i..i + n])
    requires var cs := bs[..i] + mid + bs[i + n..];
      && (forall j :: i <= j < i + |mid| ==> At(cs, j) in mem' && mem'[At(cs, j)] == HeaderOf(cs, j))
      && KeptOutside(mem, mem', bs, i, n)
    ensures Linked(mem', bs[..i] + mid + bs[i + n..])
  {
    hide Total, At;
    var cs := bs[..i] + mid + bs[i + n..];
    forall j | 0 <= j < |cs|
      ensures At(cs, j) in mem' && mem'[At(cs, j)] == HeaderOf(cs, j)
    {
      if j < i {
        LinkedBefore(mem, mem', bs, i, n, mid, j);
      } else if j >= i + |mid| {
        LinkedAfter(mem, mem', bs, i, n, mid, j);
      }
    }
  }

  ghost predicate KeptOutside(mem: map<nat, Header>, mem': map<nat, Header>, bs: seq<Block>, i: nat, n: nat)
    requires i + n <= |bs|
  {
    forall a :: a in mem && !(At(bs, i) <= a < At(bs, i + n)) ==> a in mem' && mem'[a] == mem[a]
  }

  lemma LinkedBefore(mem: map<nat, Header>, mem': map<nat, Header>, bs: seq<Block>, i: nat, n: nat, mid: seq<Block>,
                     j: nat)
    requires Linked(mem, bs) && i + n <= |bs| && 0 < n && 0 < |mid| && KeptOutside(mem, mem', bs, i, n) && j < i
    ensures var cs := bs[..i] + mid + bs[i + n..]; At(cs, j) in mem' && mem'[At(cs, j)] == HeaderOf(cs, j)
  {
    hide Total, At;
    SpliceBefore(bs, i, n, mid, j);
    SpliceBefore(bs, i, n, mid, j + 1);
    AtGrows(bs, j, i);
  }

  lemma LinkedAfter(mem: map<nat, Header>, mem': map<nat, Header>, bs: seq<Block>, i: nat, n: nat, mid: seq<Block>,
                    j: nat)
    requires Linked(mem, bs) && i + n <= |bs| && 0 < n && 0 < |mid| && KeptOutside(mem, mem', bs, i, n)
    requires Total(mid) == Total(bs[i..i + n]) && i + |mid| <= j < |bs| - n + |mid|
    ensures var cs := bs[..i] + mid + bs[i + n..]; At(cs, j) in mem' && mem'[At(cs, j)] == HeaderOf(cs, j)
  {
    hide Total, At, Linked;
    var k, cs := j - |mid| + n, bs[..i] + mid + bs[i + n..];
    assert cs[j] == bs[k];
    SpliceAfter(bs, i, n, mid, j);
    SpliceAfter(bs, i, n, mid, j + 1);
    LinkAt(mem, bs, k);
    if i + n < k {
      AtGrows(bs, i + n, k);
    }
  }

  lemma SpliceBefore(bs: seq<Block>, i: nat, n: nat, mid: seq<Block>, j: nat)
    requires i + n <= |bs| && j <= i
    ensures At(bs[..i] + mid + bs[i + n..], j) == At(bs, j)
  {
    assert (bs[..i] + mid + bs[i + n..])[..j] == bs[..j];
  }

  lemma SpliceAfter(bs: seq<Block>, i: nat, n: nat, mid: seq<Block>, j: nat)
    requires i + n <= |bs| && Total(mid) == Total(bs[i..i + n])
    requires i + |mid| <= j <= |bs| - n + |mid|
    ensures At(bs[..i] + mid + bs[i + n..], j) == At(bs, j - |mid| + n)
  {
    hide Total;
    var k := j - |mid| + n;
    var cs := bs[..i] + mid + bs[i + n..];
    assert cs[..j] == bs[..i] + mid + bs[i + n..k];
    assert bs[..k] == bs[..i] + bs[i..i + n] + bs[i + n..k];
    TotalAppend(bs[..i] + mid, bs[i + n..k]);
    TotalAppend(bs[..i], mid);
    TotalAppend(bs[..i] + bs[i..i + n], bs[i + n..k]);
    TotalAppend(bs[..i], bs[i..i + n]);
  }

  lemma FirstAt(bs: seq<Block>)
    ensures At(bs, 0) == HEAP_START
  {
    assert bs[..0] == [];
  }

  lemma {:induction false} FitIs(bs: seq<Block>, size: nat, i: nat)
    requires i < |bs| && bs[i].free && bs[i].size >= size
    requires forall j :: 0 <= j < i ==> !(bs[j].free && bs[j].size >= size)
    ensures Fit(bs, size) == i
  {
  }

  lemma SizeFits(bs: seq<Block>, i: nat)
    requires i < |bs| && Total(bs) == HEAP_SIZE
    ensures bs[i].size + HEADER <= HEAP_SIZE
  {
    SplitAt(bs, i);
  }

  /** Rewriting one block's header in place. */
  lemma SetLinked(mem: map<nat, Header>, bs: seq<Block>, i: nat, free: bool)
    requires Linked(mem, bs) && i < |bs|
    ensures At(bs, i) in mem
    ensures Linked(mem[At(bs, i) := mem[At(bs, i)].(free := free)], bs[i := bs[i].(free := free)])
  {
    hide Total, At, Linked;
    var mid := [bs[i].(free := free)];
    var cs := bs[..i] + mid + bs[i + 1..];
    assert bs[i..i + 1] == [bs[i]];
    LiveOne(bs[i], 0);
    LiveOne(mid[0], 0);
    SpliceBefore(bs, i, 1, mid, i);
    SpliceAfter(bs, i, 1, mid, i + 1);
    AtNext(bs, i);
    LinkAt(mem, bs, i);
    LinkedSplice(mem, mem[At(bs, i) := mem[At(bs, i)].(free := free)], bs, i, 1, mid);
    assert cs == bs[i := bs[i].(free := free)];
  }

  /** Splitting a block writes a second header inside it and nothing else. */
  lemma SplitLinked(mem: map<nat, Header>, bs: seq<Block>, i: nat, size: nat)
    requires Linked(mem, bs) && i < |bs| && size + HEADER <= bs[i].size
    ensures var at := At(bs, i);
      var inner := at + HEADER + size;
      var mid := [Block(size, false), Block(bs[i].size - size - HEADER, true)];
      Linked(mem[inner := Header(bs[i].size - size - HEADER, true, HeaderOf(bs, i).next)]
                [at := Header(size, false, inner)], bs[..i] + mid + bs[i + 1..])
  {
    hide Total, At, Linked;
    var at := At(bs, i);
    var inner := at + HEADER + size;
    var mid := [Block(size, false), Block(bs[i].size - size - HEADER, true)];
    var cs := bs[..i] + mid + bs[i + 1..];
    assert bs[i..i + 1] == [bs[i]] && mid == [mid[0]] + [mid[1]];
    LiveOne(bs[i], 0);
    LiveOne(mid[0], 0);
    LiveOne(mid[1], 0);
    TotalAppend([mid[0]], [mid[1]]);
    SpliceBefore(bs, i, 1, mid, i);
    SpliceAfter(bs, i, 1, mid, i + 2);
    assert cs[i] == mid[0] && cs[i + 1] == mid[1];
    AtNext(cs, i);
    AtNext(bs, i);
    var mem' := mem[inner := Header(bs[i].size - size - HEADER, true, HeaderOf(bs, i).next)]
                  [at := Header(size, false, inner)];
    assert KeptOutside(mem, mem', bs, i, 1);
    LinkedSplice(mem, mem', bs, i, 1, mid);
  }

  lemma CarveCases(bs: seq<Block>, i: nat, size: nat)
    requires i < |bs| && size <= bs[i].size
    ensures Allocate(bs, i, size) ==
            if bs[i].size > size + 16
            then bs[..i] + [Block(size, false), Block(bs[i].size - size - 12, true)] + bs[i + 1..]
            else bs[i := bs[i].(free := false)]
  {
  }

  lemma MarkedAt(bs: seq<Block>, i: nat)
    requires i < |bs|
    ensures Mark(bs, HEAP_START, At(bs, i)) == bs[i := bs[i].(free := true)]
  {
    hide Mark, Total;
    MarkAt(bs, HEAP_START, i);
  }

  lemma MergeOne(bs: seq<Block>)
    requires |bs| == 1
    ensures Merge(bs) == bs
  {
  }

  /** Block k absorbing the one after it. */
  ghost function Joined(bs: seq<Block>, k: nat): (r: seq<Block>)
    requires k + 1 < |bs|
    ensures |r| == |bs| - 1
  {
    bs[..k] + [Block(bs[k].size + HEADER + bs[k + 1].size, true)] + bs[k + 2..]
  }

  lemma JoinLinked(mem: map<nat, Header>, mem': map<nat, Header>, bs: seq<Block>, k: nat)
    requires Linked(mem, bs) && k + 1 < |bs| && bs[k].free && bs[k + 1].free
    requires mem' == mem[At(bs, k) := Header(bs[k].size + HEADER + bs[k + 1].size, true, HeaderOf(bs, k + 1).next)]
    ensures Linked(mem', Joined(bs, k)) && At(Joined(bs, k), k) == At(bs, k)
  {
    hide Total, At, Linked;
    var mid := [Block(bs[k].size + HEADER + bs[k + 1].size, true)];
    assert bs[k..k + 2] == [bs[k]] + [bs[k + 1]];
    TotalAppend([bs[k]], [bs[k + 1]]);
    LiveOne(bs[k], 0);
    LiveOne(bs[k + 1], 0);
    LiveOne(mid[0], 0);
    SpliceBefore(bs, k, 2, mid, k);
    SpliceAfter(bs, k, 2, mid, k + 1);
    AtNext(bs, k);
    AtNext(bs, k + 1);
    LinkedSplice(mem, mem', bs, k, 2, mid);
  }

  /** One step of the merging pass: absorb the next block, ... */
  lemma MergeJoin(bs: seq<Block>, k: nat)
    requires k + 1 < |bs| && bs[k].free && bs[k + 1].free
    ensures Joined(bs, k)[..k] == bs[..k] && Merge(bs[k..]) == Merge(Joined(bs, k)[k..])
  {
    hide NoTwoFree, Total;
    var rest := bs[k..];
    assert rest[2..] == bs[k + 2..];
    assert Joined(bs, k)[k..] == [Block(bs[k].size + HEADER + bs[k + 1].size, true)] + rest[2..];
  }

  /** ... or move on to it. */
  lemma MergeSkip(bs: seq<Block>, k: nat)
    requires k + 1 < |bs| && !(bs[k].free && bs[k + 1].free)
    ensures bs[..k] + Merge(bs[k..]) == bs[..k + 1] + Merge(bs[k + 1..])
  {
    hide NoTwoFree, Total;
    var rest := bs[k..];
    assert rest[1..] == bs[k + 1..];
    assert Merge(rest) == [bs[k]] + Merge(bs[k + 1..]);
    assert bs[..k + 1] == bs[..k] + [bs[k]];
  }

  class Heap {
    var mem: map<nat, Header>
    ghost var blocks: seq<Block>

    /** The blocks tile the heap, and no two free ones are neighbours. */
    ghost predicate Valid()
      reads this
    {
      && blocks != [] && Linked(mem, blocks)
      && Total(blocks) == HEAP_SIZE
      && NoTwoFree(blocks)
    }

    /** heap_init */
    constructor ()
      ensures Valid() && blocks == EMPTY_HEAP
      ensures mem == map[0x20_0000 := Header(0x7F_FFF4, true, 0)]
    {
      mem := map[HEAP_START := Header(HEAP_SIZE - HEADER, true, 0)];
      blocks := EMPTY_HEAP;
      assert EMPTY_HEAP[..0] == [];
    }

    /** Returns the address past the header of the lowest block that fits, or 0 if none does. */
    method Kmalloc(size: nat) returns (ptr: nat)
      requires Valid() && size < 0x1_0000_0000
      modifies this
      ensures Valid()
      ensures ptr == 0 <==> forall i :: 0 <= i < |old(blocks)| ==> !(old(blocks)[i].free && old(blocks)[i].size >= size)
      ensures ptr == 0 ==> blocks == old(blocks)
      ensures ptr != 0 ==> Fit(old(blocks), size) < |old(blocks)|
      ensures ptr != 0 ==> ptr == At(old(blocks), Fit(old(blocks), size)) + HEADER
                           && blocks == Allocate(old(blocks), Fit(old(blocks), size), size)
    {
      hide Total, Carve, Fit, NoTwoFree, Linked, At, Allocate;
      var current := HEAP_START;
      ghost var bs, i := blocks, 0;
      FirstAt(bs);
      while current != 0
        invariant Valid() && blocks == bs && mem == old(mem)
        invariant i <= |bs| && current == if i < |bs| then At(bs, i) else 0
        invariant forall j :: 0 <= j < i ==> !(bs[j].free && bs[j].size >= size)
        decreases |bs| - i
      {
        LinkAt(mem, bs, i);
        var h := mem[current];
        if h.free && h.size >= size {
          FitIs(bs, size, i);
          AllocateTotal(bs, i, size);
          SizeFits(bs, i);
          blocks := Allocate(bs, i, size);
          CarveCases(bs, i, size);
          if h.size > (size + HEADER + 4) % 0x1_0000_0000 {
            SplitLinked(mem, bs, i, size);
            var inner := current + HEADER + size;
            mem := mem[inner := Header(h.size - size - HEADER, true, h.next)];
            mem := mem[current := Header(size, false, inner)];
          } else {
            SetLinked(mem, bs, i, false);
            mem := mem[current := h.(free := false)];
          }
          ptr := current + HEADER;
          return;
        }
        i := i + 1;
        current := h.next;
      }
      return 0;
    }

    /** Marks the block before `ptr` free and merges free neighbours; does nothing for 0. */
    method Kfree(ptr: nat)
      requires Valid() && (ptr == 0 || exists i :: 0 <= i < |blocks| && ptr == At(blocks, i) + HEADER)
      modifies this
      ensures Valid()
      ensures blocks == if ptr == 0 then old(blocks) else Release(old(blocks), ptr - HEADER)
    {
      hide Total, NoTwoFree, Linked, At, Merge, Mark, Joined;
      if ptr == 0 {
        return;
      }
      ghost var i :| 0 <= i < |blocks| && ptr == At(blocks, i) + HEADER;
      var header := ptr - HEADER;
      SetLinked(mem, blocks, i, true);
      MarkedAt(blocks, i);
      mem := mem[header := mem[header].(free := true)];
      blocks := blocks[i := blocks[i].(free := true)];
      MergePass();
    }

    /** The second half of kfree: one pass from the start of the list. */
    method MergePass()
      requires Linked(mem, blocks) && blocks != []
      modifies this
      ensures Linked(mem, blocks) && blocks == Merge(old(blocks))
    {
      hide Total, NoTwoFree, Linked, At, Merge, Joined;
      var current := HEAP_START;
      ghost var was, k := blocks, 0;
      FirstAt(blocks);
      assert blocks[0..] == blocks;
      LinkAt(mem, blocks, 0);
      while current != 0 && mem[current].next != 0
        invariant Linked(mem, blocks) && k < |blocks| && current == At(blocks, k) && current in mem
        invariant mem[current] == HeaderOf(blocks, k)
        invariant Merge(was) == blocks[..k] + Merge(blocks[k..])
        decreases |blocks| - k
      {
        var next := mem[current].next;
        LinkAt(mem, blocks, k + 1);
        if mem[current].free && mem[next].free {
          MergeJoin(blocks, k);
          ghost var mem0 := mem;
          mem := mem[current := Header(mem[current].size + HEADER + mem[next].size, true, mem[next].next)];
          JoinLinked(mem0, mem, blocks, k);
          blocks := Joined(blocks, k);
        } else {
          MergeSkip(blocks, k);
          current := next;
          k := k + 1;
        }
        LinkAt(mem, blocks, k);
      }
      MergeOne(blocks[k..]);
      assert blocks == blocks[..k] + blocks[k..];
    }
  }
}
