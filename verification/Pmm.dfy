/**
 The physical page allocator: a bitmap of 32-bit words, one bit a page (set when the page is in use),
 and a cached count of the free ones, set up from a Multiboot2 memory map.
 */
module PageMaps {
  const PAGE_SIZE := 4096
  const WORD_SPAN := 0x1_0000_0000
  const LOW_PAGES := 256 // the first megabyte
  const ALL_USED: bv32 := 0xFFFF_FFFF

  // ------------------------------------------------------------------------- bits

  function Mask(b: nat): bv32
    requires b < 32
  {
    1 << b
  }

  predicate Has(w: bv32, m: bv32) { w & m != 0 }

  function With(w: bv32, m: bv32): bv32 { w | m }

  function Lacking(w: bv32, m: bv32): bv32 { w & !m }

  predicate Apart(m: bv32, k: bv32) { m & k == 0 }

  lemma MaskNonZero(b: nat)
    requires b < 32
    ensures Mask(b) != 0
    ensures Has(ALL_USED, Mask(b))
  {
  }

  lemma MasksApart(b: nat, c: nat)
    requires b < 32 && c < 32 && b != c
    ensures Apart(Mask(b), Mask(c))
  {
  }

  lemma SetOther(w: bv32, m: bv32, k: bv32)
    requires Apart(m, k)
    ensures Has(w, k) ==> Has(With(w, m), k)
    ensures Has(With(w, m), k) ==> Has(w, k)
  {
  }

  lemma ClearOther(w: bv32, m: bv32, k: bv32)
    requires Apart(m, k)
    ensures Has(w, k) ==> Has(Lacking(w, m), k)
    ensures Has(Lacking(w, m), k) ==> Has(w, k)
  {
  }

  lemma SetSelf(w: bv32, m: bv32)
    requires m != 0
    ensures Has(With(w, m), m)
  {
  }

  lemma ClearSelf(w: bv32, m: bv32)
    ensures !Has(Lacking(w, m), m)
  {
  }

  predicate Bit(words: seq<bv32>, page: nat)
    requires page / 32 < |words|
  {
    Has(words[page / 32], Mask(page % 32))
  }

  lemma SamePage(p: nat, q: nat)
    ensures p == q <==> p / 32 == q / 32 && p % 32 == q % 32
  {
  }

  lemma BitOfWord(w: bv32, b: nat, c: nat)
    requires b < 32 && c < 32
    ensures Has(With(w, Mask(b)), Mask(c)) <==> b == c || Has(w, Mask(c))
    ensures Has(Lacking(w, Mask(b)), Mask(c)) <==> b != c && Has(w, Mask(c))
  {
    hide Mask, Apart, With, Lacking, Has;
    if b == c {
      MaskNonZero(b);
      SetSelf(w, Mask(b));
      ClearSelf(w, Mask(b));
    } else {
      MasksApart(b, c);
      SetOther(w, Mask(b), Mask(c));
      ClearOther(w, Mask(b), Mask(c));
    }
  }

  /** Setting or clearing one page's bit changes no other page's. */
  lemma BitPut(words: seq<bv32>, page: nat, p: nat)
    requires page / 32 < |words| && p / 32 < |words|
    ensures Bit(words[page / 32 := With(words[page / 32], Mask(page % 32))], p) == (p == page || Bit(words, p))
    ensures Bit(words[page / 32 := Lacking(words[page / 32], Mask(page % 32))], p) == (p != page && Bit(words, p))
  {
    hide Mask, Has, With, Lacking;
    SamePage(p, page);
    BitOfWord(words[page / 32], page % 32, p % 32);
  }

  /** The pages whose bit is clear. */
  ghost function ClearIn(words: seq<bv32>): set<nat> {
    set p | 0 <= p < |words| * 32 && !Bit(words, p)
  }

  ghost function Below(s: set<nat>, n: nat): (r: set<nat>)
    ensures forall p :: p in r <==> p in s && p < n
  {
    set p | p in s && p < n
  }

  lemma BelowPut(s: set<nat>, n: nat, p: nat)
    ensures Below(s + {p}, n) == Below(s, n) + (if p < n then {p} else {})
    ensures Below(s - {p}, n) == Below(s, n) - {p}
  {
  }

  ghost function Range(from: nat, to: nat): (r: set<nat>)
    ensures forall p :: p in r <==> from <= p < to
  {
    if from >= to then {} else Range(from, to - 1) + {to - 1}
  }

  lemma BelowUnion(s: set<nat>, t: set<nat>, n: nat)
    ensures Below(s + Below(t, n), n) == Below(s, n) + Below(t, n)
  {
  }

  lemma TwoRanges(clear: set<nat>, total: nat, mid: nat, to: nat)
    requires mid <= to
    ensures Below(clear - Range(0, mid) - Range(mid, to), total) == Below(clear, total) - Range(0, to)
  {
    hide Range;
  }

  // ------------------------------------------------------------------- the memory map

  /** An entry of the memory map (section 3.6.8 of the Multiboot2 specification); type 1 is RAM. */
  datatype Region = Region(addr: nat, len: nat, kind: nat) {
    /** RAM that lies below 4 GiB, by 64-bit arithmetic. */
    predicate Usable() {
      kind == 1 && addr < WORD_SPAN && (addr + len) % (WORD_SPAN * WORD_SPAN) < WORD_SPAN
    }

    function Top(): nat {
      (addr % WORD_SPAN + len % WORD_SPAN) % WORD_SPAN
    }

    function First(): nat {
      addr % WORD_SPAN / PAGE_SIZE
    }

    function Count(): nat {
      len % WORD_SPAN / PAGE_SIZE
    }
  }

  function Highest(map': seq<Region>): nat {
    if map' == [] then 0
    else
      var rest, last := Highest(map'[..|map'| - 1]), map'[|map'| - 1];
      if last.Usable() && last.Top() > rest then last.Top() else rest
  }

  /** The pages a region makes free. */
  ghost function Pages(r: Region, total: nat): set<nat> {
    if r.Usable() then Below(Range(r.First(), r.First() + r.Count()), total) else {}
  }

  ghost function Covered(map': seq<Region>, total: nat): set<nat> {
    if map' == [] then {} else Covered(map'[..|map'| - 1], total) + Pages(map'[|map'| - 1], total)
  }

  /** How many times pass 2 counts a page. */
  ghost function Counted(map': seq<Region>, total: nat): nat {
    if map' == [] then 0 else Counted(map'[..|map'| - 1], total) + |Pages(map'[|map'| - 1], total)|
  }

  ghost predicate PagesApart(map': seq<Region>, total: nat) {
    forall i, j :: 0 <= i < j < |map'| ==> Pages(map'[i], total) !! Pages(map'[j], total)
  }

  lemma {:induction false} CoveredBy(map': seq<Region>, total: nat, p: nat)
    ensures p in Covered(map', total) <==> exists i :: 0 <= i < |map'| && p in Pages(map'[i], total)
  {
    if map' != [] {
      var init := map'[..|map'| - 1];
      CoveredBy(init, total, p);
      if i :| 0 <= i < |map'| && p in Pages(map'[i], total) {
        assert i < |init| ==> init[i] == map'[i];
      }
      if i :| 0 <= i < |init| && p in Pages(init[i], total) {
        assert map'[i] == init[i];
      }
    }
  }

  /** No page is counted twice exactly when no two regions share a page. */
  lemma {:induction false} CountIsExact(map': seq<Region>, total: nat)
    ensures |Covered(map', total)| <= Counted(map', total)
    ensures |Covered(map', total)| == Counted(map', total) <==> PagesApart(map', total)
  {
    hide Pages;
    if map' != [] {
      var init, last := map'[..|map'| - 1], map'[|map'| - 1];
      CountIsExact(init, total);
      ApartLast(map', init, last, total);
      hide PagesApart;
      assert |Covered(init, total) + Pages(last, total)|
          == |Covered(init, total)| + |Pages(last, total)| - |Covered(init, total) * Pages(last, total)|;
    }
  }

  lemma ApartLast(map': seq<Region>, init: seq<Region>, last: Region, total: nat)
    requires map' == init + [last]
    ensures PagesApart(map', total) <==> PagesApart(init, total) && Covered(init, total) * Pages(last, total) == {}
  {
    hide Pages, Covered;
    assert forall i :: 0 <= i < |init| ==> init[i] == map'[i];
    forall p
      ensures p in Covered(init, total) <==> exists i :: 0 <= i < |init| && p in Pages(init[i], total)
    {
      CoveredBy(init, total, p);
    }
    if p :| p in Covered(init, total) * Pages(last, total) {
      var i :| 0 <= i < |init| && p in Pages(init[i], total);
      assert p in Pages(map'[i], total) && p in Pages(map'[|init|], total);
    }
    if Covered(init, total) * Pages(last, total) == {} {
      forall i | 0 <= i < |init|
        ensures Pages(init[i], total) !! Pages(last, total)
      {
        assert forall p :: p in Pages(init[i], total) ==> p in Covered(init, total);
        assert forall p :: p in Covered(init, total) && p in Pages(last, total) ==>
                             p in Covered(init, total) * Pages(last, total);
      }
    }
  }

  /** Regions as byte ranges below 4 GiB that do not overlap. */
  ghost predicate RangesApart(map': seq<Region>) {
    && (forall i :: 0 <= i < |map'| && map'[i].Usable() ==> map'[i].addr + map'[i].len < WORD_SPAN)
    && forall i, j :: 0 <= i < |map'| && 0 <= j < |map'| && i != j && map'[i].Usable() && map'[j].Usable() ==>
         map'[i].addr + map'[i].len <= map'[j].addr || map'[j].addr + map'[j].len <= map'[i].addr
  }

  /** Rounding start and length down separately never reaches past the end rounded down. */
  lemma FloorSum(a: nat, l: nat)
    ensures a / PAGE_SIZE + l / PAGE_SIZE <= (a + l) / PAGE_SIZE
  {
  }

  lemma FloorMono(a: nat, b: nat)
    requires a <= b
    ensures a / PAGE_SIZE <= b / PAGE_SIZE
  {
  }

  lemma PlainBounds(r: Region)
    requires r.addr + r.len < WORD_SPAN
    ensures r.Top() == r.addr + r.len && r.First() == r.addr / PAGE_SIZE && r.Count() == r.len / PAGE_SIZE
  {
  }

  /** Disjoint regions, aligned or not, share no page. */
  lemma UnalignedApart(map': seq<Region>, total: nat)
    requires RangesApart(map')
    ensures PagesApart(map', total)
  {
    hide Region.Top, Region.First, Region.Count, Region.Usable;
    forall i, j | 0 <= i < |map'| && 0 <= j < |map'| && i != j && map'[i].Usable() && map'[j].Usable()
                  && map'[i].addr + map'[i].len <= map'[j].addr
      ensures map'[i].First() + map'[i].Count() <= map'[j].First()
    {
      PlainBounds(map'[i]);
      PlainBounds(map'[j]);
      FloorSum(map'[i].addr, map'[i].len);
      FloorMono(map'[i].addr + map'[i].len, map'[j].addr);
    }
  }

  lemma {:induction false} HighestCovers(map': seq<Region>, i: nat)
    requires i < |map'| && map'[i].Usable()
    ensures map'[i].Top() <= Highest(map')
  {
    if i < |map'| - 1 {
      assert map'[..|map'| - 1][i] == map'[i];
      HighestCovers(map'[..|map'| - 1], i);
    }
  }

  /** The guard against the end of the bitmap in pass 2 never cuts a region short. */
  lemma UpperGuardIdle(map': seq<Region>, i: nat)
    requires i < |map'| && map'[i].Usable() && map'[i].addr + map'[i].len < WORD_SPAN
    ensures map'[i].First() + map'[i].Count() <= Highest(map') / PAGE_SIZE
  {
    hide Highest, Region.Top, Region.First, Region.Count, Region.Usable;
    var r := map'[i];
    HighestCovers(map', i);
    PlainBounds(r);
    FloorSum(r.addr, r.len);
    FloorMono(r.addr + r.len, Highest(map'));
  }

  /** Regions made of whole pages, within the 64-bit address space. */
  ghost predicate PageAligned(map': seq<Region>) {
    forall i :: 0 <= i < |map'| ==>
      && map'[i].addr % 4096 == 0 && map'[i].len % 4096 == 0
      && map'[i].addr + map'[i].len < 0x1_0000_0000_0000_0000
  }

  /** A page of some region of a kind, byte for byte. */
  ghost predicate InRegion(r: Region, p: nat) {
    r.addr <= p * 4096 && (p + 1) * 4096 <= r.addr + r.len
  }

  /** A page of RAM the allocator knows of: regions that reach 4 GiB are passed over, all of them. */
  ghost predicate InRam(map': seq<Region>, p: nat) {
    exists i :: 0 <= i < |map'| && map'[i].kind == 1 && map'[i].addr + map'[i].len < 0x1_0000_0000
                && InRegion(map'[i], p)
  }

  lemma PageOfRegion(map': seq<Region>, i: nat, p: nat)
    requires PageAligned(map') && i < |map'|
    ensures p in Pages(map'[i], Highest(map') / PAGE_SIZE) <==>
              map'[i].kind == 1 && map'[i].addr + map'[i].len < 0x1_0000_0000 && InRegion(map'[i], p)
  {
    var r := map'[i];
    if r.Usable() {
      PlainBounds(r);
      UpperGuardIdle(map', i);
    }
  }

  /** The pages found free are those of RAM regions and of no others. */
  lemma RamIsFree(map': seq<Region>, p: nat)
    requires PageAligned(map')
    ensures p in Covered(map', Highest(map') / PAGE_SIZE) <==> InRam(map', p)
  {
    hide Pages, Highest, Covered, InRegion;
    CoveredBy(map', Highest(map') / PAGE_SIZE, p);
    forall i | 0 <= i < |map'|
      ensures p in Pages(map'[i], Highest(map') / PAGE_SIZE) <==>
                map'[i].kind == 1 && map'[i].addr + map'[i].len < 0x1_0000_0000 && InRegion(map'[i], p)
    {
      PageOfRegion(map', i, p);
    }
  }

  lemma FreeAfterBoot(map': seq<Region>, free: set<nat>, last: nat)
    requires free == Covered(map', Highest(map') / PAGE_SIZE) - Range(0, last + 1)
    ensures PageAligned(map') ==> forall p: nat :: p in free <==> last < p && InRam(map', p)
  {
    hide Covered, Highest, InRam, PageAligned;
    if PageAligned(map') {
      forall p: nat
        ensures p in Covered(map', Highest(map') / PAGE_SIZE) <==> InRam(map', p)
      {
        RamIsFree(map', p);
      }
    }
  }

  /** A page of a region that is not RAM lies in no RAM region, when regions do not overlap. */
  lemma ReservedIsNotRam(map': seq<Region>, j: nat, p: nat)
    requires PageAligned(map') && j < |map'| && map'[j].kind != 1 && InRegion(map'[j], p)
    requires forall i :: 0 <= i < |map'| && i != j ==>
               map'[i].addr + map'[i].len <= map'[j].addr || map'[j].addr + map'[j].len <= map'[i].addr
    ensures p !in Covered(map', Highest(map') / PAGE_SIZE)
  {
    hide Highest;
    RamIsFree(map', p);
  }

  // -------------------------------------------------------------------------- the bitmap

  class PageMap {
    const bitmap: array<bv32> // the memory from the end of the kernel on
    const kernelEnd: nat
    var totalPages: nat
    var freeCount: int

    ghost predicate Shaped()
      reads this
    {
      totalPages / 32 + 1 <= bitmap.Length
    }

    /** The pages whose bit is clear, past the end of the map or not. */
    ghost function Clear(): set<nat>
      reads bitmap
    {
      ClearIn(bitmap[..])
    }

    ghost function FreePages(): set<nat>
      reads this, bitmap
    {
      Below(Clear(), totalPages)
    }

    /** The cached count is the number of clear bits. */
    ghost predicate Valid()
      reads this, bitmap
    {
      Shaped() && freeCount == |FreePages()|
    }

    method BitmapSet(page: nat)
      requires page / 32 < bitmap.Length
      modifies bitmap
      ensures Clear() == old(Clear()) - {page}
    {
      hide Bit, Has, With, Mask;
      ghost var words := bitmap[..];
      bitmap[page / 32] := With(bitmap[page / 32], Mask(page % 32));
      assert bitmap[..] == words[page / 32 := With(words[page / 32], Mask(page % 32))];
      forall p: nat | p / 32 < bitmap.Length
        ensures Bit(bitmap[..], p) == (p == page || Bit(words, p))
      {
        BitPut(words, page, p);
      }
    }

    method BitmapClear(page: nat)
      requires page / 32 < bitmap.Length
      modifies bitmap
      ensures Clear() == old(Clear()) + {page}
    {
      hide Bit, Has, Lacking, Mask;
      ghost var words := bitmap[..];
      bitmap[page / 32] := Lacking(bitmap[page / 32], Mask(page % 32));
      assert bitmap[..] == words[page / 32 := Lacking(words[page / 32], Mask(page % 32))];
      forall p: nat | p / 32 < bitmap.Length
        ensures Bit(bitmap[..], p) == (p != page && Bit(words, p))
      {
        BitPut(words, page, p);
      }
    }

    method BitmapTest(page: nat) returns (used: bool)
      requires page / 32 < bitmap.Length
      ensures used == (page !in Clear())
    {
      hide Has, Mask;
      used := Has(bitmap[page / 32], Mask(page % 32));
    }

    /** Marks the pages from..to used, counting down for each that was free. */
    method MarkUsed(from: nat, to: nat)
      requires Shaped() && to <= totalPages
      modifies this`freeCount, bitmap
      ensures Clear() == old(Clear()) - Range(from, to)
      ensures freeCount - |FreePages()| == old(freeCount - |FreePages()|)
    {
      hide PageMap.Clear, Range;
      var i := from;
      ghost var clear := Clear();
      assert clear - Range(from, i) == clear;
      while i < to
        invariant from <= i && (i <= to || i == from)
        invariant Clear() == clear - Range(from, i)
        invariant freeCount - |FreePages()| == old(freeCount - |FreePages()|)
      {
        ghost var was := FreePages();
        var used := BitmapTest(i);
        if !used {
          BitmapSet(i);
          assert FreePages() == was - {i} && i in was;
          freeCount := freeCount - 1;
        }
        i := i + 1;
      }
      assert Range(from, i) == Range(from, to);
    }

    /** The lowest free page's address, or 0 when none is free. */
    method AllocPage() returns (addr: nat)
      requires Valid()
      modifies this`freeCount, bitmap
      ensures Valid()
      ensures old(FreePages()) == {} ==> addr == 0 && FreePages() == {}
      ensures old(FreePages()) != {} ==>
                var page := addr / PAGE_SIZE;
                addr == page * PAGE_SIZE && page in old(FreePages()) && FreePages() == old(FreePages()) - {page}
                && forall q :: q in old(FreePages()) ==> page <= q
      ensures Next(old(FreePages()), FreePages(), totalPages, Alloc)
    {
      hide PageMap.Clear, Below;
      var i := 0;
      while i < totalPages
        invariant 0 <= i <= totalPages
        invariant FreePages() == old(FreePages()) && freeCount == old(freeCount)
        invariant forall q :: q in FreePages() ==> i <= q
      {
        ghost var was := FreePages();
        BelowPut(Clear(), totalPages, i);
        var used := BitmapTest(i);
        if !used {
          BitmapSet(i);
          assert Lowest(was, i);
          freeCount := freeCount - 1;
          return i * PAGE_SIZE;
        }
        i := i + 1;
      }
      assert FreePages() == {};
      return 0;
    }

    /**
     Frees a page if it is in use. The count stays right exactly when the address is below the top of
     memory or its bit was clear: the bits past the end of the map are set, and are counted when freed.
     */
    method FreePage(addr: nat)
      requires Valid() && addr / PAGE_SIZE / 32 < bitmap.Length
      modifies this`freeCount, bitmap
      ensures Shaped()
      ensures FreePages() == old(FreePages()) + (if addr / PAGE_SIZE < totalPages then {addr / PAGE_SIZE} else {})
      ensures addr / PAGE_SIZE < totalPages ==> Next(old(FreePages()), FreePages(), totalPages, Free(addr / PAGE_SIZE))
      ensures Valid() <==> addr / PAGE_SIZE < totalPages || addr / PAGE_SIZE in old(Clear())
    {
      hide PageMap.Clear, Below;
      var page := addr / PAGE_SIZE;
      ghost var clear := Clear();
      BelowPut(clear, totalPages, page);
      var used := BitmapTest(page);
      if used {
        BitmapClear(page);
        freeCount := freeCount + 1;
      } else {
        assert clear + {page} == clear;
      }
    }

    /** Takes every page that touches start..end off the free list. */
    method ReserveRegion(start: nat, end: nat)
      requires Valid() && end < WORD_SPAN
      modifies this`freeCount, bitmap
      ensures Valid()
      ensures FreePages() == old(FreePages()) - Range(start / PAGE_SIZE, EndPage(end))
      ensures end <= 0xFFFF_F000 ==>
                forall p: nat :: p in FreePages() <==>
                  p in old(FreePages()) && !(start < (p + 1) * 4096 && p * 4096 < end)
      ensures end > 0xFFFF_F000 ==> FreePages() == old(FreePages())
      ensures Next(old(FreePages()), FreePages(), totalPages, Reserve(start / PAGE_SIZE, EndPage(end)))
    {
      hide PageMap.Clear;
      EndPageIs(end);
      var endPage := EndPage(end);
      if endPage > totalPages {
        endPage := totalPages;
      }
      ghost var was := FreePages();
      MarkUsed(start / PAGE_SIZE, endPage);
    }

    /** The last page the kernel and the bitmap take, and one more. */
    function BitmapEnd(total: nat): nat {
      (kernelEnd + (total / 32 + 1) * 4) / PAGE_SIZE + 1
    }

    /** One region of pass 2: frees its pages, counting every one. */
    method FreeRegion(r: Region)
      requires Shaped()
      modifies this`freeCount, bitmap
      ensures FreePages() == old(FreePages()) + Pages(r, totalPages)
      ensures freeCount == old(freeCount) + |Pages(r, totalPages)|
    {
      hide PageMap.Clear, Region.First, Region.Count, Region.Usable, Range, Below;
      if r.Usable() {
        ghost var clear := Clear();
        FreeRange(r.First(), r.Count());
        BelowUnion(clear, Range(r.First(), r.First() + r.Count()), totalPages);
      } else {
        assert FreePages() + {} == FreePages();
      }
    }

    method FreeRange(start: nat, count: nat)
      requires Shaped()
      modifies this`freeCount, bitmap
      ensures Clear() == old(Clear()) + Below(Range(start, start + count), totalPages)
      ensures freeCount == old(freeCount) + |Below(Range(start, start + count), totalPages)|
    {
      hide PageMap.Clear, Range, Below;
      ghost var clear := Clear();
      var j := start;
      ghost var seen: set<nat> := {};
      while j < start + count && j < totalPages
        invariant start <= j <= start + count && (j <= totalPages || j == start)
        invariant forall q :: q in seen <==> start <= q < j
        invariant Clear() == clear + seen && freeCount == old(freeCount) + |seen|
      {
        BitmapClear(j);
        freeCount := freeCount + 1;
        assert clear + seen + {j} == clear + (seen + {j});
        seen := seen + {j};
        j := j + 1;
      }
      assert seen == Below(Range(start, start + count), totalPages);
    }

    /**
     Builds the map. The pages free afterwards are those of usable regions above the kernel and the
     bitmap; the count is right exactly when no two regions share a page.
     */
    constructor (bitmap: array<bv32>, kernelEnd: nat, map': seq<Region>)
      requires var total := Highest(map') / PAGE_SIZE;
        total / 32 + 1 <= bitmap.Length && LOW_PAGES * PAGE_SIZE <= kernelEnd
        && (kernelEnd + (total / 32 + 1) * 4) / PAGE_SIZE + 1 < total
      modifies bitmap
      ensures this.bitmap == bitmap && this.kernelEnd == kernelEnd && Shaped()
      ensures totalPages == Highest(map') / PAGE_SIZE
      ensures FreePages() == Covered(map', totalPages) - Range(0, BitmapEnd(totalPages) + 1)
      ensures PageAligned(map') ==>
                forall p: nat :: p in FreePages() <==>
                                 (kernelEnd + (totalPages / 32 + 1) * 4) / 4096 + 1 < p && InRam(map', p)
      ensures freeCount >= |FreePages()|
      ensures Valid() <==> PagesApart(map', totalPages)
      ensures RangesApart(map') ==> Valid()
    {
      this.bitmap, this.kernelEnd := bitmap, kernelEnd;
      totalPages, freeCount := 0, 0;
      new;
      hide Range, Pages, Highest, Covered, Counted, PagesApart, RangesApart, PageAligned, InRam, Below;
      Passes(map');
      CountIsExact(map', totalPages);
      FreeAfterBoot(map', FreePages(), BitmapEnd(totalPages));
      if RangesApart(map') {
        UnalignedApart(map', totalPages);
      }
    }

    method Passes(map': seq<Region>)
      requires var total := Highest(map') / PAGE_SIZE;
        total / 32 + 1 <= bitmap.Length && LOW_PAGES <= BitmapEnd(total) + 1 <= total
      requires freeCount == 0
      modifies this, bitmap
      ensures Shaped() && totalPages == Highest(map') / PAGE_SIZE
      ensures FreePages() == Covered(map', totalPages) - Range(0, BitmapEnd(totalPages) + 1)
      ensures freeCount - |FreePages()| == Counted(map', totalPages) - |Covered(map', totalPages)|
    {
      hide PageMap.Clear, PageMap.BitmapEnd, Range, Highest, Covered, Counted, Below;
      var highest := FindHighest(map');
      totalPages := highest / PAGE_SIZE;
      FillUsed();
      FreeRegions(map');
      TakeLow();
    }

    /** Pass 3: the first megabyte, the kernel and the bitmap are in use. */
    method TakeLow()
      requires Shaped() && LOW_PAGES <= BitmapEnd(totalPages) + 1 <= totalPages
      modifies this`freeCount, bitmap
      ensures FreePages() == old(FreePages()) - Range(0, BitmapEnd(totalPages) + 1)
      ensures freeCount - |FreePages()| == old(freeCount - |FreePages()|)
    {
      hide PageMap.Clear, PageMap.BitmapEnd, Range, Below;
      ghost var clear, end := Clear(), BitmapEnd(totalPages) + 1;
      MarkUsed(0, LOW_PAGES);
      MarkUsed(LOW_PAGES, BitmapEnd(totalPages) + 1);
      TwoRanges(clear, totalPages, LOW_PAGES, end);
    }

    /** Pass 1 */
    static method FindHighest(map': seq<Region>) returns (highest: nat)
      ensures highest == Highest(map')
    {
      highest := 0;
      var i := 0;
      while i < |map'|
        invariant 0 <= i <= |map'| && highest == Highest(map'[..i])
      {
        assert map'[..i + 1][..i] == map'[..i];
        if map'[i].Usable() {
          var top := map'[i].Top();
          if top > highest {
            highest := top;
          }
        }
        i := i + 1;
      }
      assert map'[..i] == map';
    }

    /** Pass 2 */
    method FreeRegions(map': seq<Region>)
      requires Shaped() && FreePages() == {} && freeCount == 0
      modifies this`freeCount, bitmap
      ensures FreePages() == Covered(map', totalPages) && freeCount == Counted(map', totalPages)
    {
      hide PageMap.FreePages, Pages;
      var i := 0;
      while i < |map'|
        invariant 0 <= i <= |map'|
        invariant FreePages() == Covered(map'[..i], totalPages) && freeCount == Counted(map'[..i], totalPages)
      {
        assert map'[..i + 1][..i] == map'[..i];
        FreeRegion(map'[i]);
        i := i + 1;
      }
      assert map'[..i] == map';
    }

    method FillUsed()
      requires Shaped()
      modifies bitmap
      ensures FreePages() == {}
    {
      var i := 0;
      while i < totalPages / 32 + 1
        invariant 0 <= i <= totalPages / 32 + 1
        invariant forall k :: 0 <= k < i ==> bitmap[k] == ALL_USED
      {
        bitmap[i] := ALL_USED;
        i := i + 1;
      }
      forall p: nat | p < totalPages
        ensures Bit(bitmap[..], p)
      {
        assert bitmap[..][p / 32] == ALL_USED;
        MaskNonZero(p % 32);
      }
      assert FreePages() == {};
    }
  }

  /** The first page past an address, in 32-bit arithmetic. */
  function EndPage(end: nat): nat {
    (end + PAGE_SIZE - 1) % WORD_SPAN / PAGE_SIZE
  }

  /** Below the last page of the address space it is rounded up; from there on the sum wraps to page 0. */
  lemma EndPageIs(end: nat)
    requires end < WORD_SPAN
    ensures end <= 0xFFFF_F000 ==> forall p: nat :: p < EndPage(end) <==> p * 4096 < end
    ensures end > 0xFFFF_F000 ==> EndPage(end) == 0
  {
  }

  // -------------------------------------------------------------------------------- runs

  datatype Event = Alloc | Free(page: nat) | Reserve(from: nat, to: nat)

  ghost predicate Lowest(free: set<nat>, p: nat) {
    p in free && forall q :: q in free ==> p <= q
  }

  /** One event on the set of free pages. */
  ghost predicate Next(free: set<nat>, free': set<nat>, total: nat, e: Event) {
    match e
    case Alloc => if free == {} then free' == {} else exists p :: Lowest(free, p) && free' == free - {p}
    case Free(page) => page < total && free' == free + {page}
    case Reserve(from, to) => free' == free - Range(from, to)
  }

  ghost predicate IsRun(states: seq<set<nat>>, total: nat, events: seq<Event>) {
    |states| == |events| + 1 && forall i :: 0 <= i < |events| ==> Next(states[i], states[i + 1], total, events[i])
  }

  /** A page taken off the free list is never handed out until it is freed again. */
  lemma {:induction false} StaysTaken(states: seq<set<nat>>, total: nat, events: seq<Event>, p: nat, i: nat)
    requires IsRun(states, total, events) && p !in states[0] && i <= |events|
    requires forall k :: 0 <= k < i ==> events[k] != Free(p)
    ensures p !in states[i]
    ensures i < |events| && events[i].Alloc? ==> !Lowest(states[i], p)
  {
    if i > 0 {
      StaysTaken(states, total, events, p, i - 1);
      assert Next(states[i - 1], states[i], total, events[i - 1]);
    }
  }

  /** Firmware's pages are never handed out, until someone frees one. */
  lemma ReservedStaysOut(map': seq<Region>, j: nat, p: nat, end: nat, states: seq<set<nat>>, events: seq<Event>, i: nat)
    requires PageAligned(map') && j < |map'| && map'[j].kind != 1 && InRegion(map'[j], p)
    requires forall k :: 0 <= k < |map'| && k != j ==>
               map'[k].addr + map'[k].len <= map'[j].addr || map'[j].addr + map'[j].len <= map'[k].addr
    requires IsRun(states, Highest(map') / PAGE_SIZE, events) && i < |events| && events[i].Alloc?
    requires states[0] == Covered(map', Highest(map') / PAGE_SIZE) - Range(0, end)
    requires forall k :: 0 <= k < i ==> events[k] != Free(p)
    ensures p !in states[i] && !Lowest(states[i], p)
  {
    ReservedIsNotRam(map', j, p);
    StaysTaken(states, Highest(map') / PAGE_SIZE, events, p, i);
  }
}
