/** Chains of blocks inside one page of the sub-page heap
    (kernel/kernel_heap_alloc_nopaging.c). */
module HeapPages {
  type byte = b: nat | b < 0x100
  type half = h: nat | h < 0x1_0000

  const PAGE := 4096

  datatype Block = Block(live: bool, size: nat)

  /** What the size table holds for a block: 4097 marks a block that is a whole page. */
  function Field(size: nat): nat {
    if size == PAGE then 4097 else size
  }

  function Total(bs: seq<Block>): nat {
    if bs == [] then 0 else bs[0].size + Total(bs[1..])
  }

  predicate AllLive(bs: seq<Block>) {
    forall k :: 0 <= k < |bs| ==> bs[k].live
  }

  predicate NoneLive(bs: seq<Block>) {
    forall k :: 0 <= k < |bs| ==> !bs[k].live
  }

  /** Live blocks cover the page to its last byte. */
  predicate Full(bs: seq<Block>) {
    Total(bs) == PAGE && AllLive(bs)
  }

  lemma LiveTail(bs: seq<Block>)
    requires bs != [] && bs[0].live
    ensures AllLive(bs) <==> AllLive(bs[1..])
  {
    assert forall k :: 0 < k < |bs| ==> bs[k] == bs[1..][k - 1];
  }

  lemma FreedTail(bs: seq<Block>)
    requires bs != [] && !bs[0].live
    ensures NoneLive(bs) <==> NoneLive(bs[1..])
  {
    assert forall k :: 0 < k < |bs| ==> bs[k] == bs[1..][k - 1];
  }

  function FirstFreed(bs: seq<Block>): (k: nat)
    ensures k <= |bs| && AllLive(bs[..k]) && (k < |bs| ==> !bs[k].live)
  {
    if bs == [] || !bs[0].live then 0 else
      var k := 1 + FirstFreed(bs[1..]);
      assert forall j :: 0 < j < k ==> bs[j] == bs[1..][j - 1];
      k
  }

  /** From offset `i` of the page at `base`, the tables hold the blocks `bs` and then
      cells that were never written. */
  ghost predicate Chain(t: seq<byte>, z: seq<half>, base: nat, i: nat, bs: seq<Block>)
    requires |t| == |z| >= base + PAGE
    decreases bs
  {
    if bs == [] then
      forall j :: base + i <= j < base + PAGE ==> t[j] == z[j] == 0
    else
      && 1 <= bs[0].size && i + bs[0].size <= PAGE
      && t[base + i] == (if bs[0].live then 1 else 0)
      && z[base + i] == Field(bs[0].size)
      && (bs[0].size == PAGE ==> forall j :: base + i < j < base + PAGE ==> t[j] == z[j] == 0)
      && Chain(t, z, base, i + bs[0].size, bs[1..])
  }

  lemma {:induction false} ChainFits(t: seq<byte>, z: seq<half>, base: nat, i: nat, bs: seq<Block>)
    requires |t| == |z| >= base + PAGE && Chain(t, z, base, i, bs) && i <= PAGE
    ensures i + Total(bs) <= PAGE
    decreases bs
  {
    if bs != [] { ChainFits(t, z, base, i + bs[0].size, bs[1..]); }
  }

  /** A chain depends on the cells of its page from `i` on only. */
  lemma {:induction false} ChainFrame(t: seq<byte>, z: seq<half>, t': seq<byte>, z': seq<half>, base: nat, i: nat, bs: seq<Block>)
    requires |t| == |z| == |t'| == |z'| >= base + PAGE && Chain(t, z, base, i, bs)
    requires forall j :: base + i <= j < base + PAGE ==> t[j] == t'[j] && z[j] == z'[j]
    ensures Chain(t', z', base, i, bs)
    decreases bs
  {
    if bs != [] { ChainFrame(t, z, t', z', base, i + bs[0].size, bs[1..]); }
  }

  lemma {:induction false} TotalOfPrefix(bs: seq<Block>, k: nat)
    requires k < |bs|
    ensures Total(bs[..k + 1]) == Total(bs[..k]) + bs[k].size
    ensures Total(bs[..k]) <= Total(bs)
  {
    if k == 0 {
      assert bs[..1] == [bs[0]] && bs[..0] == [];
    } else {
      TotalOfPrefix(bs[1..], k - 1);
      assert bs[..k + 1][1..] == bs[1..][..k] && bs[..k][1..] == bs[1..][..k - 1];
    }
  }

  /** Rewriting the cell of block `k` rewrites the block. */
  lemma {:induction false} ChainUpdate(t: seq<byte>, z: seq<half>, base: nat, i: nat, bs: seq<Block>, k: nat, live: bool)
    requires |t| == |z| >= base + PAGE && Chain(t, z, base, i, bs)
    requires k < |bs|
    ensures i + Total(bs[..k]) < PAGE
    ensures Chain(t[base + i + Total(bs[..k]) := if live then 1 else 0], z, base, i, bs[k := Block(live, bs[k].size)])
    decreases bs
  {
    if k == 0 {
      ChainFrame(t, z, t[base + i := if live then 1 else 0], z, base, i + bs[0].size, bs[1..]);
      assert bs[k := Block(live, bs[k].size)][1..] == bs[1..];
    } else {
      ChainUpdate(t, z, base, i + bs[0].size, bs[1..], k - 1, live);
      assert bs[..k][1..] == bs[1..][..k - 1];
      assert bs[k := Block(live, bs[k].size)][1..] == bs[1..][k - 1 := Block(live, bs[k].size)];
    }
  }

  /** Writing the first untouched cell appends a block. */
  lemma {:induction false} ChainExtend(t: seq<byte>, z: seq<half>, base: nat, i: nat, bs: seq<Block>, size: nat)
    requires |t| == |z| >= base + PAGE && Chain(t, z, base, i, bs)
    requires 1 <= size && i + Total(bs) + size <= PAGE
    ensures var at := base + i + Total(bs);
      Chain(t[at := 1], z[at := Field(size)], base, i, bs + [Block(true, size)])
    decreases bs
  {
    var at := base + i + Total(bs);
    if bs == [] {
      assert (bs + [Block(true, size)])[1..] == [];
      assert Chain(t[at := 1], z[at := Field(size)], base, i + size, []);
    } else {
      ChainExtend(t, z, base, i + bs[0].size, bs[1..], size);
      assert (bs + [Block(true, size)])[1..] == bs[1..] + [Block(true, size)];
    }
  }

  /** A walk from the start of the page has passed `n` live blocks and is at offset `i`. */
  ghost predicate Walked(bs: seq<Block>, n: nat, i: nat) {
    && n <= |bs| && i == Total(bs[..n]) && AllLive(bs[..n])
    && (n > 0 ==> i > 0 && bs != [Block(true, PAGE)])
  }

  lemma WalkOn(t: seq<byte>, z: seq<half>, base: nat, bs: seq<Block>, n: nat, i: nat)
    requires |t| == |z| >= base + PAGE && i < PAGE && Walked(bs, n, i) && Chain(t, z, base, i, bs[n..])
    requires t[base + i] == 1 && z[base + i] <= PAGE - i
    ensures n < |bs| && z[base + i] == bs[n].size
    ensures Walked(bs, n + 1, i + bs[n].size) && Chain(t, z, base, i + bs[n].size, bs[n + 1..])
  {
    assert bs[n..] != [];
    assert bs[n..][0] == bs[n] && bs[n..][1..] == bs[n + 1..];
    TotalOfPrefix(bs, n);
  }

  lemma WholeIsAlone(t: seq<byte>, z: seq<half>, base: nat, bs: seq<Block>)
    requires |t| == |z| >= base + PAGE && Chain(t, z, base, 0, bs) && z[base] == 4097
    ensures bs == [Block(t[base] == 1, PAGE)] && Total(bs) == PAGE
  {
    assert bs != [] && bs[0].size == PAGE;
    assert Chain(t, z, base, PAGE, bs[1..]);
    assert bs[1..] == [];
  }

  lemma WholePage(t: seq<byte>, z: seq<half>, base: nat, bs: seq<Block>, n: nat, i: nat)
    requires |t| == |z| >= base + PAGE && i < PAGE && Walked(bs, n, i) && Chain(t, z, base, i, bs[n..])
    requires t[base + i] == 1 && z[base + i] > PAGE - i
    ensures bs == [Block(true, PAGE)] && FirstFreed(bs) == 1 && Total(bs) == PAGE
  {
    assert bs[n..] != [];
    assert n == 0 && bs[0..] == bs;
    ChainFits(t, z, base, PAGE, bs[1..]);
  }

  lemma WalkEnds(t: seq<byte>, z: seq<half>, base: nat, bs: seq<Block>, n: nat, i: nat)
    requires |t| == |z| >= base + PAGE && i <= PAGE && Walked(bs, n, i) && Chain(t, z, base, i, bs[n..])
    requires i == PAGE || (t[base + i] == 0 && z[base + i] == 0)
    ensures n == |bs| == FirstFreed(bs) && i == Total(bs)
  {
    assert bs[n..] == [];
    assert bs[..n] == bs;
  }

  lemma WalkFreed(t: seq<byte>, z: seq<half>, base: nat, bs: seq<Block>, n: nat, i: nat)
    requires |t| == |z| >= base + PAGE && i < PAGE && Walked(bs, n, i) && Chain(t, z, base, i, bs[n..])
    requires t[base + i] != 1 && z[base + i] != 0
    ensures n < |bs| && !bs[n].live && FirstFreed(bs) == n
    ensures z[base + i] == Field(bs[n].size) && i + bs[n].size <= PAGE
  {
    assert bs[n..] != [];
    assert bs[n..][0] == bs[n];
    assert forall k :: 0 <= k < n ==> bs[..n][k].live;
  }

  /** The cell of block `k` is at the sum of the sizes before it. */
  lemma {:induction false} ChainAt(t: seq<byte>, z: seq<half>, base: nat, i: nat, bs: seq<Block>, k: nat)
    requires |t| == |z| >= base + PAGE && Chain(t, z, base, i, bs)
    requires k <= |bs|
    ensures Chain(t, z, base, i + Total(bs[..k]), bs[k..])
    decreases bs
  {
    if k > 0 {
      ChainAt(t, z, base, i + bs[0].size, bs[1..], k - 1);
      assert bs[..k][1..] == bs[1..][..k - 1];
      assert bs[k..] == bs[1..][k - 1..];
    } else {
      assert bs[0..] == bs;
    }
  }
}

/** The heap for small objects: 64 pages from 0x500000, on top of the page bitmap. */
module Heap {
  import opened HeapPages
  import opened PageMap

  const KERNEL_HEAP_NO_PAGING_START := 0x500000
  const HEAP_PAGES := 64
  const FIRST_BIT := 0x200          // (KERNEL_HEAP_NO_PAGING_START - KERNEL_HEAP_START) / 4096
  const LAST_BIT := 0x264
  const NOT_HERE := 4097

  /** Every block of a page has the one size the heap is used with. */
  predicate Uniform(bs: seq<Block>, s: nat) {
    forall k :: 0 <= k < |bs| ==> bs[k].size == s && (s == PAGE ==> bs[k].live)
  }

  /** `k * s`, as `k` steps of `s`. */
  function Offset(k: nat, s: nat): nat {
    if k == 0 then 0 else Offset(k - 1, s) + s
  }

  lemma {:induction false} UniformTotal(bs: seq<Block>, s: nat)
    requires Uniform(bs, s)
    ensures Total(bs) == Offset(|bs|, s)
  {
    if bs != [] { UniformTotal(bs[1..], s); }
  }

  lemma {:induction false} OffsetGrows(k: nat, j: nat, s: nat)
    requires k < j
    ensures Offset(k, s) + s <= Offset(j, s)
  {
    if k < j - 1 { OffsetGrows(k, j - 1, s); }
  }

  /** Blocks of size `s` can fill a page to its last byte. */
  ghost predicate Tiles(s: nat) {
    exists k: nat :: Offset(k, s) == PAGE
  }

  /** A page with neither a freed block nor room for one more ends in a gap, and then so
      does every page. */
  lemma GapMeansNoTiling(bs: seq<Block>, s: nat)
    requires Uniform(bs, s) && Total(bs) < PAGE < Total(bs) + s
    ensures !Tiles(s)
  {
    UniformTotal(bs, s);
    forall k: nat ensures Offset(k, s) != PAGE {
      if k < |bs| { OffsetGrows(k, |bs|, s); }
      if k > |bs| + 1 { OffsetGrows(|bs| + 1, k, s); }
    }
  }

  /** 64 pages of blocks of size `s`. */
  ghost predicate Layout(pages: seq<seq<Block>>, s: nat) {
    && 1 <= s <= PAGE && |pages| == HEAP_PAGES
    && forall p :: 0 <= p < |pages| ==> Uniform(pages[p], s) && Total(pages[p]) <= PAGE
  }

  function Address(p: nat, k: nat, s: nat): nat {
    KERNEL_HEAP_NO_PAGING_START + p * PAGE + Offset(k, s)
  }

  ghost predicate LiveSlot(pages: seq<seq<Block>>, p: nat, k: nat) {
    p < |pages| && k < |pages[p]| && pages[p][k].live
  }

  /** The addresses handed out and not freed. */
  ghost function LiveAddresses(pages: seq<seq<Block>>, s: nat): set<nat> {
    set p: nat, k: nat | p < |pages| && k < |pages[p]| && LiveSlot(pages, p, k) :: Address(p, k, s)
  }

  lemma SlotInPage(pages: seq<seq<Block>>, s: nat, p: nat, k: nat)
    requires Layout(pages, s) && p < |pages| && k < |pages[p]|
    ensures Offset(k, s) + s <= PAGE
  {
    UniformTotal(pages[p], s);
    OffsetGrows(k, |pages[p]|, s);
  }

  /** Two blocks of the heap do not overlap. */
  lemma SlotsApart(pages: seq<seq<Block>>, s: nat, p: nat, k: nat, q: nat, j: nat)
    requires Layout(pages, s) && p < |pages| && k < |pages[p]| && q < |pages| && j < |pages[q]|
    requires p != q || k != j
    ensures Address(p, k, s) + s <= Address(q, j, s) || Address(q, j, s) + s <= Address(p, k, s)
  {
    SlotInPage(pages, s, p, k);
    SlotInPage(pages, s, q, j);
    if p == q {
      if k < j { OffsetGrows(k, j, s); } else { OffsetGrows(j, k, s); }
    }
  }

  /** In every layout, live blocks are pairwise disjoint, start at multiples of the block
      size in their page, never cross a page, and lie in the 64 pages from 0x500000. */
  lemma LiveBlocksAreSeparate(pages: seq<seq<Block>>, s: nat, a: nat, b: nat)
    requires Layout(pages, s) && a in LiveAddresses(pages, s) && b in LiveAddresses(pages, s)
    ensures a != b ==> a + s <= b || b + s <= a
    ensures KERNEL_HEAP_NO_PAGING_START <= a && a + s <= KERNEL_HEAP_NO_PAGING_START + HEAP_PAGES * PAGE
    ensures a % PAGE + s <= PAGE && exists k: nat :: a % PAGE == Offset(k, s)
  {
    var p: nat, k: nat :| p < |pages| && k < |pages[p]| && LiveSlot(pages, p, k) && a == Address(p, k, s);
    var q: nat, j: nat :| q < |pages| && j < |pages[q]| && LiveSlot(pages, q, j) && b == Address(q, j, s);
    SlotInPage(pages, s, p, k);
    if a != b { SlotsApart(pages, s, p, k, q, j); }
    OffsetInPage(p, Offset(k, s));
  }

  lemma OffsetInPage(p: nat, o: nat)
    requires o < PAGE
    ensures (KERNEL_HEAP_NO_PAGING_START + p * PAGE + o) % PAGE == o
  {}

  /** What scan_address answers on a page of blocks `bs`, and the blocks it leaves: the
      first freed block again; else new space after the last block; else no. On a page
      that small blocks fill exactly it runs off the end and answers 4096. */
  function Scan(bs: seq<Block>, size: nat): (nat, seq<Block>) {
    var k := FirstFreed(bs);
    if k < |bs| then (Total(bs[..k]), bs[k := Block(true, size)])
    else if Total(bs) + size <= PAGE then (Total(bs), bs + [Block(true, size)])
    else if Total(bs) < PAGE || bs == [Block(true, PAGE)] then (NOT_HERE, bs)
    else (PAGE, bs)
  }

  /** Freed blocks have the size asked for. */
  predicate FreedHave(bs: seq<Block>, size: nat) {
    forall k :: 0 <= k < |bs| && !bs[k].live ==> bs[k].size == size < PAGE
  }

  predicate HasSizes(bs: seq<Block>) {
    forall k :: 0 <= k < |bs| ==> bs[k].size >= 1
  }

  /** A page that live blocks fill to its last byte, and not one block alone. */
  predicate IsFilledBySmall(bs: seq<Block>) {
    Full(bs) && bs != [Block(true, PAGE)]
  }

  /** scan_address runs off the end exactly on a page that small blocks fill. */
  lemma RunsOffExactly(bs: seq<Block>, size: nat)
    requires HasSizes(bs) && Total(bs) <= PAGE && 1 <= size <= PAGE && FreedHave(bs, size)
    ensures Scan(bs, size).0 == PAGE <==> IsFilledBySmall(bs)
  {
    var k := FirstFreed(bs);
    if k < |bs| {
      TotalOfPrefix(bs, k);
      PrefixBelow(bs, k);
    } else {
      assert bs[..k] == bs;
    }
  }

  lemma PrefixBelow(bs: seq<Block>, k: nat)
    requires HasSizes(bs) && k < |bs|
    ensures Total(bs[..k]) < Total(bs)
  {
    TotalOfPrefix(bs, k);
    if k + 1 < |bs| { TotalOfPrefix(bs, k + 1); } else { assert bs[..k + 1] == bs; }
  }

  predicate HasSlot(bs: seq<Block>, s: nat) {
    FirstFreed(bs) < |bs| || Total(bs) + s <= PAGE
  }

  /** While nothing is freed, scan_address hands out a page from its start on, whatever the
      sizes: the next request gets the first byte after all blocks, or fails if it does not fit. */
  lemma BumpAllocation(bs: seq<Block>, size: nat)
    requires AllLive(bs) && Total(bs) < PAGE && 1 <= size <= PAGE
    ensures Scan(bs, size) == if Total(bs) + size <= PAGE then (Total(bs), bs + [Block(true, size)]) else (NOT_HERE, bs)
    ensures AllLive(Scan(bs, size).1)
    ensures Total(bs) + size <= PAGE ==> Total(Scan(bs, size).1) == Total(bs) + size
  {
    TotalOfPrefix(bs + [Block(true, size)], |bs|);
    assert (bs + [Block(true, size)])[..|bs|] == bs;
    assert (bs + [Block(true, size)])[..|bs| + 1] == bs + [Block(true, size)];
  }

  /** No cell outside page `p` has changed. */
  ghost predicate OnlyPage(t: seq<byte>, z: seq<half>, t': seq<byte>, z': seq<half>, p: nat)
    requires |t| == |z| == |t'| == |z'|
  {
    forall j :: 0 <= j < |t| && !(p * PAGE <= j < p * PAGE + PAGE) ==> t[j] == t'[j] && z[j] == z'[j]
  }

  /** The tables hold the blocks `pages`. */
  ghost predicate Describes(t: seq<byte>, z: seq<half>, pages: seq<seq<Block>>)
    requires |t| == |z| >= |pages| * PAGE
  {
    forall p :: 0 <= p < |pages| ==> Chain(t, z, p * PAGE, 0, pages[p])
  }

  /** A change to page `p` alone leaves what the tables say about the others. */
  lemma OnePageChanged(t: seq<byte>, z: seq<half>, t': seq<byte>, z': seq<half>, pages: seq<seq<Block>>, p: nat, bs: seq<Block>)
    requires |t| == |z| == |t'| == |z'| >= |pages| * PAGE && p < |pages|
    requires Describes(t, z, pages) && OnlyPage(t, z, t', z', p) && Chain(t', z', p * PAGE, 0, bs)
    ensures Describes(t', z', pages[p := bs])
  {
    forall q | 0 <= q < |pages| && q != p ensures Chain(t', z', q * PAGE, 0, pages[q]) {
      ChainFrame(t, z, t', z', q * PAGE, 0, pages[q]);
    }
  }

  /** On a page of equal blocks with a slot left, the scan takes exactly one more slot. */
  lemma ScanUniform(bs: seq<Block>, s: nat)
    requires Uniform(bs, s) && 1 <= s <= PAGE && Total(bs) <= PAGE && HasSlot(bs, s)
    ensures var (at, after) := Scan(bs, s); var k := FirstFreed(bs);
      && at == Offset(k, s) < PAGE && Uniform(after, s) && Total(after) <= PAGE
      && k < |after| && after[k].live && !(k < |bs| && bs[k].live)
      && forall j :: 0 <= j && j != k ==> (j < |after| && after[j].live <==> j < |bs| && bs[j].live)
  {
    var k := FirstFreed(bs);
    UniformTotal(bs, s);
    UniformTotal(bs[..k], s);
    UniformTotal(Scan(bs, s).1, s);
    if k < |bs| { OffsetGrows(k, |bs|, s); }
    assert bs[..|bs|] == bs;
  }

  /** A page without a slot that the allocator comes to is not one it could run off. */
  lemma NoSlotMeansGap(bs: seq<Block>, s: nat)
    requires Uniform(bs, s) && 1 <= s <= PAGE && Total(bs) <= PAGE && !Full(bs)
    ensures HasSlot(bs, s) || (Total(bs) < PAGE && !Tiles(s) && Scan(bs, s) == (NOT_HERE, bs))
  {
    if !HasSlot(bs, s) {
      assert bs[..|bs|] == bs;
      GapMeansNoTiling(bs, s);
    }
  }

  /** `more` has one live slot more than `less`: its live addresses are one more. */
  lemma OneMoreLive(less: seq<seq<Block>>, more: seq<seq<Block>>, s: nat, p: nat, k: nat)
    requires Layout(more, s) && |less| == |more| && LiveSlot(more, p, k) && !LiveSlot(less, p, k)
    requires forall q: nat, j: nat :: q != p || j != k ==> (LiveSlot(less, q, j) <==> LiveSlot(more, q, j))
    ensures LiveAddresses(more, s) == LiveAddresses(less, s) + {Address(p, k, s)}
    ensures Address(p, k, s) !in LiveAddresses(less, s)
  {
    forall a | a in LiveAddresses(more, s) ensures a in LiveAddresses(less, s) + {Address(p, k, s)} {
      var q: nat, j: nat :| q < |more| && j < |more[q]| && LiveSlot(more, q, j) && a == Address(q, j, s);
      if q != p || j != k { assert LiveSlot(less, q, j); }
    }
    forall a | a in LiveAddresses(less, s) ensures a in LiveAddresses(more, s) && a != Address(p, k, s) {
      var q: nat, j: nat :| q < |less| && j < |less[q]| && LiveSlot(less, q, j) && a == Address(q, j, s);
      assert LiveSlot(more, q, j);
      SlotsApart(more, s, p, k, q, j);
    }
    assert LiveSlot(more, p, k);
  }

  /** The bit of a full page is set, and a page whose bit is set has blocks to its last
      byte, some of them live. */
  ghost predicate BitsAgree(pages: seq<seq<Block>>, taken: set<nat>) {
    && (forall p :: 0 <= p < |pages| && Full(pages[p]) ==> FIRST_BIT + p in taken)
    && (forall p :: 0 <= p < |pages| && FIRST_BIT + p in taken ==> Total(pages[p]) == PAGE && !NoneLive(pages[p]))
  }

  /** A whole-page request that finds a page below the heap does not disturb the heap. */
  lemma PageRequestKeepsHeap(pages: seq<seq<Block>>, taken: set<nat>)
    requires BitsAgree(pages, taken)
    requires |Below(taken, FIRST_BIT)| < FIRST_BIT
    ensures BitsAgree(pages, Step(taken, Allocate))
  {
    AllocatorStaysBelowHeap(taken);
  }

  function TakenAfter(taken: set<nat>, p: nat, bs: seq<Block>): set<nat> {
    taken + if Full(bs) then {FIRST_BIT + p} else {}
  }

  /** Serving a request from page `p` keeps the layout and hands out a new address. */
  lemma SlotServed(pages: seq<seq<Block>>, taken: set<nat>, s: nat, p: nat)
    requires Layout(pages, s) && BitsAgree(pages, taken) && p < |pages|
    requires FIRST_BIT + p !in taken && HasSlot(pages[p], s)
    ensures var (at, after) := Scan(pages[p], s); var pages' := pages[p := after];
      && Layout(pages', s) && BitsAgree(pages', TakenAfter(taken, p, after)) && at < PAGE
      && var addr := GetAddrFromBit(FIRST_BIT + p) + at;
        addr !in LiveAddresses(pages, s) && LiveAddresses(pages', s) == LiveAddresses(pages, s) + {addr}
  {
    var bs, after := pages[p], Scan(pages[p], s).1;
    ScanUniform(bs, s);
    var pages' := pages[p := after];
    var k := FirstFreed(bs);
    forall q: nat, j: nat | q != p || j != k ensures LiveSlot(pages, q, j) <==> LiveSlot(pages', q, j) {}
    OneMoreLive(pages, pages', s, p, k);
    assert after[k].live;
  }

  /** The blocks after block `k` is freed; a block that is a whole page leaves no trace. */
  function Freed(bs: seq<Block>, k: nat): seq<Block>
    requires k < |bs|
  {
    if bs[k].size == PAGE then [] else bs[k := Block(false, bs[k].size)]
  }

  lemma {:induction false} TotalSame(bs: seq<Block>, k: nat, live: bool)
    requires k < |bs|
    ensures Total(bs[k := Block(live, bs[k].size)]) == Total(bs)
  {
    if k > 0 {
      TotalSame(bs[1..], k - 1, live);
      assert bs[k := Block(live, bs[k].size)][1..] == bs[1..][k - 1 := Block(live, bs[k].size)];
    } else {
      assert bs[k := Block(live, bs[k].size)][1..] == bs[1..];
    }
  }

  lemma WholeFreed(t: seq<byte>, z: seq<half>, base: nat, bs: seq<Block>, k: nat)
    requires |t| == |z| >= base + PAGE && Chain(t, z, base, 0, bs) && k < |bs|
    requires base + Total(bs[..k]) < |z| && Total(bs[..k]) < PAGE && z[base + Total(bs[..k])] == 4097
    ensures k == 0 && bs[0].size == PAGE && Total(bs[..k]) == 0
    ensures Chain(t[base := 0], z[base := 0], base, 0, [])
  {
    ChainAt(t, z, base, 0, bs, k);
    assert bs[k..][0] == bs[k];
    TotalOfPrefix(bs, k);
  }

  /** Freeing a live block keeps the layout and takes back its address alone. */
  lemma SlotFreed(pages: seq<seq<Block>>, taken: set<nat>, s: nat, p: nat, k: nat)
    requires Layout(pages, s) && BitsAgree(pages, taken) && LiveSlot(pages, p, k)
    ensures var bs := Freed(pages[p], k); var pages' := pages[p := bs];
      && Layout(pages', s) && BitsAgree(pages', if NoneLive(bs) then taken - {FIRST_BIT + p} else taken)
      && LiveAddresses(pages', s) == LiveAddresses(pages, s) - {Address(p, k, s)}
  {
    var bs := Freed(pages[p], k);
    var pages' := pages[p := bs];
    TotalSame(pages[p], k, false);
    if s == PAGE { UniformTotal(pages[p], s); assert |pages[p]| == 1; }
    forall q: nat, j: nat | q != p || j != k ensures LiveSlot(pages', q, j) <==> LiveSlot(pages, q, j) {}
    OneMoreLive(pages', pages, s, p, k);
    assert s != PAGE ==> !bs[k].live;
  }

  // ---- the heap as a state, and what a call does to it ----

  /** The blocks of the 64 pages, and the taken pages of the map below. */
  datatype State = State(pages: seq<seq<Block>>, taken: set<nat>)

  /** Every freed block can be served again for a request of `s`. */
  predicate Suits(pages: seq<seq<Block>>, s: nat) {
    forall p :: 0 <= p < |pages| ==> FreedHave(pages[p], s)
  }

  /** The first page from `p` on that scan_address does not pass over. */
  function StopPage(pages: seq<seq<Block>>, p: nat, s: nat): (q: nat)
    requires p <= |pages|
    ensures p <= q <= |pages| && forall r :: p <= r < q ==> Scan(pages[r], s).0 == NOT_HERE
    ensures q < |pages| ==> Scan(pages[q], s).0 != NOT_HERE
    decreases |pages| - p
  {
    if p == |pages| || Scan(pages[p], s).0 != NOT_HERE then p else StopPage(pages, p + 1, s)
  }

  function FirstPage(taken: set<nat>): nat {
    LowestFree(taken, FIRST_BIT) - FIRST_BIT
  }

  /** A request of `s` ends at one of the 64 pages. */
  predicate CanServe(st: State, s: nat) {
    && |st.pages| == HEAP_PAGES && 1 <= s <= PAGE && Suits(st.pages, s)
    && FirstPage(st.taken) < HEAP_PAGES && StopPage(st.pages, FirstPage(st.taken), s) < HEAP_PAGES
  }

  /** kmem_allocate: the address it returns, and the state it leaves. */
  function Serve(st: State, s: nat): (nat, State)
    requires CanServe(st, s)
  {
    var q := StopPage(st.pages, FirstPage(st.taken), s);
    var (at, after) := Scan(st.pages[q], s);
    (GetAddrFromBit(FIRST_BIT + q) + at,
     State(st.pages[q := after], if at < PAGE then TakenAfter(st.taken, q, after) else st.taken))
  }

  lemma ServeUnfolds(st: State, s: nat)
    requires CanServe(st, s)
    ensures var q := StopPage(st.pages, FirstPage(st.taken), s); var (at, after) := Scan(st.pages[q], s);
      && Serve(st, s).0 == GetAddrFromBit(FIRST_BIT + q) + at
      && Serve(st, s).1.pages == st.pages[q := after]
      && Serve(st, s).1.taken == if at < PAGE then TakenAfter(st.taken, q, after) else st.taken
  {}

  /** Block `k` of page `p` starts where the blocks before it end. */
  function BlockAddress(pages: seq<seq<Block>>, p: nat, k: nat): nat
    requires p < |pages| && k <= |pages[p]|
  {
    GetAddrFromBit(FIRST_BIT + p) + Total(pages[p][..k])
  }

  ghost predicate IsLiveAt(pages: seq<seq<Block>>, addr: nat, p: nat, k: nat) {
    LiveSlot(pages, p, k) && addr == BlockAddress(pages, p, k)
  }

  ghost predicate IsLive(pages: seq<seq<Block>>, addr: nat) {
    exists p: nat, k: nat :: IsLiveAt(pages, addr, p, k)
  }

  /** The state without block `k` of page `p`. */
  function WithoutBlock(st: State, p: nat, k: nat): State
    requires p < |st.pages| && k < |st.pages[p]|
  {
    var bs := Freed(st.pages[p], k);
    State(st.pages[p := bs], if NoneLive(bs) then st.taken - {FIRST_BIT + p} else st.taken)
  }

  /** kernel_free. */
  ghost function Release(st: State, addr: nat): State
    requires IsLive(st.pages, addr)
  {
    var p: nat, k: nat :| IsLiveAt(st.pages, addr, p, k);
    WithoutBlock(st, p, k)
  }

  ghost predicate IsSound(pages: seq<seq<Block>>) {
    |pages| == HEAP_PAGES && forall p :: 0 <= p < |pages| ==> HasSizes(pages[p]) && Total(pages[p]) <= PAGE
  }

  /** In every heap two different blocks do not overlap, and no block crosses its page. */
  lemma BlocksApart(pages: seq<seq<Block>>, p: nat, k: nat, q: nat, j: nat)
    requires IsSound(pages) && p < |pages| && k < |pages[p]| && q < |pages| && j < |pages[q]| && (p != q || k != j)
    ensures BlockAddress(pages, p, k) + pages[p][k].size <= GetAddrFromBit(FIRST_BIT + p) + PAGE
    ensures BlockAddress(pages, p, k) + pages[p][k].size <= BlockAddress(pages, q, j) ||
      BlockAddress(pages, q, j) + pages[q][j].size <= BlockAddress(pages, p, k)
  {
    BlockEnds(pages[p], k);
    BlockEnds(pages[q], j);
    if p == q { BlocksInOrder(pages[p], if k < j then k else j, if k < j then j else k); }
  }

  lemma BlockEnds(bs: seq<Block>, k: nat)
    requires k < |bs|
    ensures Total(bs[..k]) + bs[k].size <= Total(bs)
  {
    TotalOfPrefix(bs, k);
    if k + 1 < |bs| { TotalOfPrefix(bs, k + 1); } else { assert bs[..k + 1] == bs; }
  }

  lemma {:induction false} BlocksInOrder(bs: seq<Block>, k: nat, j: nat)
    requires k < j < |bs|
    ensures Total(bs[..k]) + bs[k].size <= Total(bs[..j])
  {
    TotalOfPrefix(bs, j - 1);
    if k < j - 1 { BlocksInOrder(bs, k, j - 1); }
  }

  lemma PageOfBlock(pages: seq<seq<Block>>, addr: nat, p: nat, k: nat)
    requires IsSound(pages) && IsLiveAt(pages, addr, p, k)
    ensures addr >= KERNEL_HEAP_NO_PAGING_START && (addr - KERNEL_HEAP_NO_PAGING_START) / PAGE == p
    ensures addr % PAGE == Total(pages[p][..k]) < PAGE && GetBitFromAddr(addr) == FIRST_BIT + p
  {
    PrefixBelow(pages[p], k);
    OffsetInPage(p, Total(pages[p][..k]));
  }

  /** A live address is that of one block. */
  lemma LiveIsUnique(pages: seq<seq<Block>>, addr: nat, p: nat, k: nat, q: nat, j: nat)
    requires IsSound(pages) && IsLiveAt(pages, addr, p, k) && IsLiveAt(pages, addr, q, j)
    ensures p == q && k == j
  {
    if p != q || k != j { BlocksApart(pages, p, k, q, j); }
  }

  // ---- one size ----

  /** The heap in use for blocks of size `s`. */
  ghost predicate IsUniform(st: State, s: nat) {
    Layout(st.pages, s) && BitsAgree(st.pages, st.taken)
  }

  lemma UniformSuits(st: State, s: nat)
    requires Layout(st.pages, s)
    ensures Suits(st.pages, s) && IsSound(st.pages)
  {}

  /** From a page with its bit clear on, the scan passes over pages without a slot only, and
      stops at one with a slot whose bit is clear. */
  lemma {:induction false} UniformStop(st: State, s: nat, p: nat)
    requires IsUniform(st, s) && p <= HEAP_PAGES
    requires p < HEAP_PAGES ==> FIRST_BIT + p !in st.taken || !Tiles(s)
    ensures var q := StopPage(st.pages, p, s);
      && (q < HEAP_PAGES ==> FIRST_BIT + q !in st.taken && HasSlot(st.pages[q], s))
      && forall r :: p <= r < q ==> !HasSlot(st.pages[r], s)
    decreases HEAP_PAGES - p
  {
    if p < HEAP_PAGES {
      var bs := st.pages[p];
      if FIRST_BIT + p in st.taken { UniformTotal(bs, s); }
      NoSlotMeansGap(bs, s);
      if HasSlot(bs, s) {
        ScanUniform(bs, s);
      } else {
        UniformStop(st, s, p + 1);
      }
    }
  }

  /** With a slot on a page whose bit is clear, a request is served. */
  lemma SlotMeansServe(st: State, s: nat, w: nat)
    requires IsUniform(st, s) && w < HEAP_PAGES && FIRST_BIT + w !in st.taken && HasSlot(st.pages[w], s)
    ensures CanServe(st, s)
  {
    UniformSuits(st, s);
    ScanUniform(st.pages[w], s);
  }

  /** kmem_allocate on blocks of one size: a new address, from the first page with a slot from
      the lowest clear bit on; a page whose bit is set is not used. */
  lemma UniformServe(st: State, s: nat)
    requires IsUniform(st, s) && CanServe(st, s)
    ensures var (addr, st') := Serve(st, s); var p := FirstPage(st.taken); var q := StopPage(st.pages, p, s);
      && IsUniform(st', s) && FIRST_BIT + q !in st.taken && HasSlot(st.pages[q], s)
      && (forall r :: p <= r < q ==> !HasSlot(st.pages[r], s))
      && addr !in LiveAddresses(st.pages, s) && LiveAddresses(st'.pages, s) == LiveAddresses(st.pages, s) + {addr}
      && st'.taken - {FIRST_BIT + q} == st.taken
  {
    hide LiveAddresses, HasSlot, Layout, BitsAgree, Full;
    var p := FirstPage(st.taken);
    UniformStop(st, s, p);
    SlotServed(st.pages, st.taken, s, StopPage(st.pages, p, s));
  }

  lemma UniformLive(pages: seq<seq<Block>>, s: nat, addr: nat)
    requires Layout(pages, s)
    ensures addr in LiveAddresses(pages, s) <==> IsLive(pages, addr)
    ensures forall p: nat, k: nat :: IsLiveAt(pages, addr, p, k) ==> addr == Address(p, k, s)
  {
    forall p: nat, k: nat | LiveSlot(pages, p, k) ensures BlockAddress(pages, p, k) == Address(p, k, s) {
      UniformTotal(pages[p][..k], s);
    }
    if addr in LiveAddresses(pages, s) {
      var p: nat, k: nat :| p < |pages| && k < |pages[p]| && LiveSlot(pages, p, k) && addr == Address(p, k, s);
      assert IsLiveAt(pages, addr, p, k);
    }
  }

  /** kernel_free on blocks of one size: that address and no other is given back. */
  lemma UniformRelease(st: State, s: nat, addr: nat)
    requires IsUniform(st, s) && IsLive(st.pages, addr)
    ensures var st' := Release(st, addr);
      IsUniform(st', s) && LiveAddresses(st'.pages, s) == LiveAddresses(st.pages, s) - {addr} && addr in LiveAddresses(st.pages, s)
  {
    hide LiveAddresses, Layout, BitsAgree, NoneLive;
    UniformLive(st.pages, s, addr);
    var p: nat, k: nat :| IsLiveAt(st.pages, addr, p, k) && Release(st, addr) == WithoutBlock(st, p, k);
    SlotFreed(st.pages, st.taken, s, p, k);
    assert addr == Address(p, k, s);
    var st' := WithoutBlock(st, p, k);
    assert st'.pages == st.pages[p := Freed(st.pages[p], k)];
    assert IsUniform(st', s);
  }

  // ---- several sizes, nothing freed ----

  ghost predicate IsAllocOnly(st: State) {
    && IsSound(st.pages)
    && (forall p :: 0 <= p < |st.pages| ==> AllLive(st.pages[p]))
    && (forall p :: 0 <= p < |st.pages| && Full(st.pages[p]) ==> FIRST_BIT + p in st.taken)
  }

  /** The first page from `p` on with room for `s` after its blocks. */
  function RoomPage(pages: seq<seq<Block>>, p: nat, s: nat): (q: nat)
    requires p <= |pages|
    ensures p <= q <= |pages| && forall r :: p <= r < q ==> Total(pages[r]) + s > PAGE
    ensures q < |pages| ==> Total(pages[q]) + s <= PAGE
    decreases |pages| - p
  {
    if p == |pages| || Total(pages[p]) + s <= PAGE then p else RoomPage(pages, p + 1, s)
  }

  /** On a page where nothing was freed. */
  lemma ScanAllocOnly(bs: seq<Block>, s: nat)
    requires HasSizes(bs) && AllLive(bs) && Total(bs) <= PAGE && 1 <= s <= PAGE
    ensures Scan(bs, s) ==
      if Total(bs) + s <= PAGE then (Total(bs), bs + [Block(true, s)])
      else if IsFilledBySmall(bs) then (PAGE, bs) else (NOT_HERE, bs)
  {
    if bs == [Block(true, PAGE)] { assert Total(bs) == PAGE; }
  }

  lemma {:induction false} MixedStop(pages: seq<seq<Block>>, p: nat, s: nat)
    requires IsSound(pages) && p <= |pages| && 1 <= s <= PAGE && forall r :: 0 <= r < |pages| ==> AllLive(pages[r])
    ensures var q, f := StopPage(pages, p, s), RoomPage(pages, p, s);
      && q <= f && (q < f ==> IsFilledBySmall(pages[q])) && (forall r :: p <= r < q ==> !IsFilledBySmall(pages[r]))
    decreases |pages| - p
  {
    if p < |pages| {
      ScanAllocOnly(pages[p], s);
      MixedStop(pages, p + 1, s);
    }
  }

  /** The request of `s` got a block of its own: it is in the tables, was not before, and
      overlaps no other block. */
  ghost predicate IsNewBlock(st: State, st': State, addr: nat, s: nat) {
    exists q: nat ::
      && q < |st.pages| && st'.pages == st.pages[q := st.pages[q] + [Block(true, s)]]
      && IsSound(st'.pages) && IsLiveAt(st'.pages, addr, q, |st.pages[q]|)
  }

  /** Requests of several sizes while nothing is freed: the block is new and recorded exactly
      when no page passed over, from the lowest clear bit to the first page with room, is filled
      by small blocks. When one is, nothing is recorded, and the address is the end of that page. */
  lemma MixedServe(st: State, s: nat)
    requires IsAllocOnly(st) && CanServe(st, s)
    ensures var (addr, st') := Serve(st, s); var p := FirstPage(st.taken); var f := RoomPage(st.pages, p, s);
      && (IsNewBlock(st, st', addr, s) <==> f < HEAP_PAGES && forall r :: p <= r < f ==> !IsFilledBySmall(st.pages[r]))
      && IsAllocOnly(st')
      && (!IsNewBlock(st, st', addr, s) ==> st' == st && addr == GetAddrFromBit(FIRST_BIT + StopPage(st.pages, p, s) + 1))
  {
    hide Scan, StopPage, RoomPage, Total, Full, IsFilledBySmall;
    var p := FirstPage(st.taken);
    var q, f := StopPage(st.pages, p, s), RoomPage(st.pages, p, s);
    MixedStop(st.pages, p, s);
    ScanAllocOnly(st.pages[q], s);
    var (addr, st') := Serve(st, s);
    if q == f {
      RoomTaken(st, s, q);
      assert IsNewBlock(st, st', addr, s);
    } else {
      assert st.pages[q := st.pages[q]] == st.pages;
      assert st' == st;
      NoNewBlock(st, addr, s);
    }
  }

  lemma NoNewBlock(st: State, addr: nat, s: nat)
    ensures !IsNewBlock(st, st, addr, s)
  {
    forall q: nat | q < |st.pages| ensures st.pages != st.pages[q := st.pages[q] + [Block(true, s)]] {
      assert |st.pages[q]| != |st.pages[q] + [Block(true, s)]|;
    }
  }

  lemma RoomTaken(st: State, s: nat, q: nat)
    requires IsAllocOnly(st) && q < HEAP_PAGES && Total(st.pages[q]) + s <= PAGE && s >= 1
    ensures var bs := st.pages[q]; var after := bs + [Block(true, s)];
      var st' := State(st.pages[q := after], TakenAfter(st.taken, q, after));
      && IsAllocOnly(st') && Total(bs) < PAGE
      && IsLiveAt(st'.pages, GetAddrFromBit(FIRST_BIT + q) + Total(bs), q, |bs|)
  {
    var bs := st.pages[q];
    var after := bs + [Block(true, s)];
    TotalOfPrefix(after, |bs|);
    assert after[..|bs|] == bs && after[..|bs| + 1] == after;
    assert AllLive(after) && HasSizes(after);
  }

  const BIG := Block(true, 4000)
  const HALF := Block(true, 2048)

  /** The heap with the given blocks in its first two pages. */
  function TwoPages(first: seq<Block>, second: seq<Block>, taken: set<nat>): State {
    State([first, second] + seq(HEAP_PAGES - 2, _ => []), taken)
  }

  /** A request that ends at one of the first two pages. */
  lemma ServeIs(first: seq<Block>, second: seq<Block>, taken: set<nat>, s: nat, q: nat, at: nat, after: seq<Block>)
    requires FIRST_BIT !in taken && FreedHave(first, s) && FreedHave(second, s) && 1 <= s <= PAGE && q <= 1
    requires q == 1 ==> Scan(first, s).0 == NOT_HERE
    requires Scan(if q == 0 then first else second, s) == (at, after) && at <= PAGE
    ensures var st := TwoPages(first, second, taken);
      CanServe(st, s) && Serve(st, s) == (GetAddrFromBit(FIRST_BIT + q) + at,
        TwoPages(if q == 0 then after else first, if q == 0 then second else after,
          if at < PAGE then TakenAfter(taken, q, after) else taken))
  {
    hide Scan, Full;
    var st := TwoPages(first, second, taken);
    FirstPageIs(taken);
    if q == 1 { assert StopPage(st.pages, 1, s) == 1; }
    assert StopPage(st.pages, 0, s) == q;
    assert st.pages[q := after] == TwoPages(if q == 0 then after else first, if q == 0 then second else after, taken).pages;
  }

  /** What the pages of the example answer. */
  lemma ExampleScans()
    ensures Scan([], 4000) == (0, [BIG]) && Scan([], 2048) == (0, [HALF])
    ensures Scan([BIG], 2048) == (NOT_HERE, [BIG])
    ensures Scan([HALF], 2048) == (2048, [HALF, HALF]) && Scan([HALF, HALF], 2048) == (PAGE, [HALF, HALF])
    ensures !Full([BIG]) && !Full([HALF]) && Full([HALF, HALF])
  {
    assert [BIG][1..] == [] && [HALF][1..] == [];
    assert Total([]) == 0 && Total([BIG]) == 4000 && Total([HALF]) == 2048;
    assert Total([HALF, HALF]) == 4096 by { assert [HALF, HALF][1..] == [HALF]; }
    assert [] + [BIG] == [BIG] && [] + [HALF] == [HALF] && [HALF] + [HALF] == [HALF, HALF];
    ScanAllocOnly([], 4000);
    ScanAllocOnly([], 2048);
    ScanAllocOnly([BIG], 2048);
    ScanAllocOnly([HALF], 2048);
    ScanAllocOnly([HALF, HALF], 2048);
  }

  /** From an empty heap, requests of 4000, 2048, 2048 and 2048: the last one passes page 0, enters
      page 1 although its bit is set, and gets the end of that page, unrecorded; and so does the
      next: two allocations at one address, with nothing freed. */
  lemma OneAddressTwice()
    ensures CanRun(TwoPages([], [], {}), [Request(4000), Request(2048), Request(2048), Request(2048), Request(2048)])
    ensures Grants(TwoPages([], [], {}), [Request(4000), Request(2048), Request(2048), Request(2048), Request(2048)])
      == [0x500000, 0x501000, 0x501800, 0x502000, 0x502000]
    ensures var end := TwoPages([BIG], [HALF, HALF], {0x201});
      AfterRun(TwoPages([], [], {}), [Request(4000), Request(2048), Request(2048), Request(2048), Request(2048)]) == end
  {
    ExampleScans();
    hide Scan, Full, CanServe, Serve, TwoPages;
    ServeIs([], [], {}, 4000, 0, 0, [BIG]);
    ServeIs([BIG], [], {}, 2048, 1, 0, [HALF]);
    ServeIs([BIG], [HALF], {}, 2048, 1, 2048, [HALF, HALF]);
    ServeIs([BIG], [HALF, HALF], {0x201}, 2048, 1, 4096, [HALF, HALF]);
    var end := TwoPages([BIG], [HALF, HALF], {0x201});
    AreSound();
    assert TakenAfter({}, 0, [BIG]) == {} && TakenAfter({}, 1, [HALF]) == {} && TakenAfter({}, 1, [HALF, HALF]) == {0x201};
    RunOne(end, 2048, [], [], end, 0x502000, end);
    RunOne(end, 2048, [Request(2048)], [0x502000], end, 0x502000, end);
    RunOne(TwoPages([BIG], [HALF], {}), 2048, [Request(2048), Request(2048)], [0x502000, 0x502000], end, 0x501800, end);
    RunOne(TwoPages([BIG], [], {}), 2048, [Request(2048), Request(2048), Request(2048)], [0x501800, 0x502000, 0x502000],
      TwoPages([BIG], [HALF], {}), 0x501000, end);
    RunOne(TwoPages([], [], {}), 4000, [Request(2048), Request(2048), Request(2048), Request(2048)],
      [0x501000, 0x501800, 0x502000, 0x502000], TwoPages([BIG], [], {}), 0x500000, end);
  }

  lemma AreSound()
    ensures IsSound(TwoPages([], [], {}).pages) && IsSound(TwoPages([BIG], [], {}).pages)
    ensures IsSound(TwoPages([BIG], [HALF], {}).pages) && IsSound(TwoPages([BIG], [HALF, HALF], {0x201}).pages)
  {
    assert [BIG][1..] == [] && [HALF][1..] == [];
    assert Total([]) == 0 && Total([BIG]) == 4000 && Total([HALF]) == 2048;
    assert Total([HALF, HALF]) == 4096 by { assert [HALF, HALF][1..] == [HALF]; }
  }

  /** A request before a run. */
  lemma RunOne(st: State, s: half, rest: seq<HeapOp>, addrs: seq<nat>, next: State, addr: nat, end: State)
    requires IsSound(st.pages) && CanServe(st, s) && Serve(st, s) == (addr, next)
    requires CanRun(next, rest) && Grants(next, rest) == addrs && AfterRun(next, rest) == end
    ensures CanRun(st, [Request(s)] + rest) && Grants(st, [Request(s)] + rest) == [addr] + addrs
    ensures AfterRun(st, [Request(s)] + rest) == end
  {
    assert ([Request(s)] + rest)[1..] == rest;
  }

  lemma FirstPageIs(taken: set<nat>)
    requires FIRST_BIT !in taken
    ensures FirstPage(taken) == 0
  {}

  // ---- any sizes ----

  /** A live block of `size` bytes starts at `addr`. */
  ghost predicate HasLive(pages: seq<seq<Block>>, addr: nat, size: nat) {
    exists p: nat, k: nat :: IsLiveAt(pages, addr, p, k) && pages[p][k].size == size
  }

  /** `more` has one live block more than `less`: one of `size` bytes at `addr`, where none was. */
  ghost predicate IsOneMore(less: seq<seq<Block>>, more: seq<seq<Block>>, addr: nat, size: nat) {
    && !IsLive(less, addr) && HasLive(more, addr, size)
    && forall a: nat, z: nat :: a != addr ==> (HasLive(less, a, z) <==> HasLive(more, a, z))
  }

  /** Block `k` is live in `more`, and freed or not there yet in `less`; the others are the same. */
  predicate IsBlockMore(less: seq<Block>, more: seq<Block>, k: nat, size: nat) {
    && k < |more| && k <= |less| && more[k] == Block(true, size)
    && (if k < |less| then |more| == |less| && less[k] == Block(false, size) else |more| == k + 1)
    && forall j :: 0 <= j < |more| && j != k ==> more[j] == less[j]
  }

  lemma PrefixSame(less: seq<Block>, more: seq<Block>, k: nat, size: nat, j: nat)
    requires IsBlockMore(less, more, k, size) && j <= |less| && j <= |more|
    ensures Total(less[..j]) == Total(more[..j])
  {
    if j <= k {
      assert less[..j] == more[..j];
    } else {
      assert more[..j] == less[..j][k := Block(true, less[..j][k].size)];
      TotalSame(less[..j], k, true);
    }
  }

  lemma OneMoreBlock(less: seq<seq<Block>>, more: seq<seq<Block>>, p: nat, k: nat, size: nat)
    requires IsSound(less) && IsSound(more) && p < |more| && more == less[p := more[p]]
    requires IsBlockMore(less[p], more[p], k, size)
    ensures BlockAddress(less, p, k) == BlockAddress(more, p, k) && IsLiveAt(more, BlockAddress(more, p, k), p, k)
    ensures IsOneMore(less, more, BlockAddress(more, p, k), size)
  {
    hide Total, HasSizes;
    var addr := BlockAddress(more, p, k);
    PrefixSame(less[p], more[p], k, size, k);
    forall q: nat, j: nat, a: nat | q != p || j != k ensures IsLiveAt(less, a, q, j) <==> IsLiveAt(more, a, q, j) {
      if q == p && j < |less[p]| && j < |more[p]| { PrefixSame(less[p], more[p], k, size, j); }
    }
    assert IsLiveAt(more, addr, p, k);
    forall q: nat, j: nat | IsLiveAt(less, addr, q, j) ensures false {
      assert IsLiveAt(more, addr, q, j);
      LiveIsUnique(more, addr, p, k, q, j);
    }
  }

  /** Every byte of page `p` is in a live block. */
  ghost predicate IsCovered(pages: seq<seq<Block>>, p: nat) {
    forall byte: nat :: GetAddrFromBit(FIRST_BIT + p) <= byte < GetAddrFromBit(FIRST_BIT + p) + PAGE ==> IsInLive(pages, byte)
  }

  ghost predicate IsInLive(pages: seq<seq<Block>>, byte: nat) {
    exists addr: nat, size: nat :: HasLive(pages, addr, size) && addr <= byte < addr + size
  }

  lemma {:induction false} BlockOfByte(bs: seq<Block>, b: nat) returns (k: nat)
    requires b < Total(bs)
    ensures k < |bs| && Total(bs[..k]) <= b < Total(bs[..k]) + bs[k].size
  {
    if b < bs[0].size {
      k := 0;
    } else {
      var j := BlockOfByte(bs[1..], b - bs[0].size);
      k := j + 1;
      assert bs[..k][1..] == bs[1..][..j];
    }
  }

  /** A page is full exactly when every byte of it is in a live block. */
  lemma FullIffCovered(pages: seq<seq<Block>>, p: nat)
    requires IsSound(pages) && p < HEAP_PAGES
    ensures Full(pages[p]) <==> IsCovered(pages, p)
  {
    hide Total, HasSizes, AllLive, Full;
    var bs := pages[p];
    if IsCovered(pages, p) {
      var j := LiveBlockOver(pages, p, PAGE - 1);
      BlockEnds(bs, j);
      forall k: nat | k < |bs| ensures bs[k].live {
        PrefixInPage(pages, p, k);
        var i := LiveBlockOver(pages, p, Total(bs[..k]));
        if i != k { BlocksApart(pages, p, i, p, k); BlockIsSome(pages, p, k); }
      }
      IsFull(pages, p);
    }
    if Full(bs) {
      IsFull(pages, p);
      var start := GetAddrFromBit(FIRST_BIT + p);
      forall byte: nat | start <= byte < start + PAGE ensures IsInLive(pages, byte) {
        var k := BlockOfByte(bs, byte - start);
        assert IsLiveAt(pages, BlockAddress(pages, p, k), p, k);
        assert HasLive(pages, BlockAddress(pages, p, k), bs[k].size);
      }
    }
  }

  lemma IsFull(pages: seq<seq<Block>>, p: nat)
    requires IsSound(pages) && p < |pages|
    ensures Full(pages[p]) <==> Total(pages[p]) >= PAGE && forall k: nat :: k < |pages[p]| ==> pages[p][k].live
  {}

  lemma BlockIsSome(pages: seq<seq<Block>>, p: nat, k: nat)
    requires IsSound(pages) && p < |pages| && k < |pages[p]|
    ensures pages[p][k].size >= 1
  {}

  lemma PrefixInPage(pages: seq<seq<Block>>, p: nat, k: nat)
    requires IsSound(pages) && p < |pages| && k < |pages[p]|
    ensures Total(pages[p][..k]) < PAGE
  {
    PrefixBelow(pages[p], k);
  }

  lemma LiveBlockOver(pages: seq<seq<Block>>, p: nat, b: nat) returns (k: nat)
    requires IsSound(pages) && p < HEAP_PAGES && b < PAGE && IsCovered(pages, p)
    ensures p < |pages| && k < |pages[p]| && pages[p][k].live
    ensures Total(pages[p][..k]) <= b < Total(pages[p][..k]) + pages[p][k].size
  {
    hide Total;
    var byte := GetAddrFromBit(FIRST_BIT + p) + b;
    assert IsInLive(pages, byte);
    var addr: nat, size: nat :| HasLive(pages, addr, size) && addr <= byte < addr + size;
    var q: nat, j: nat :| IsLiveAt(pages, addr, q, j) && pages[q][j].size == size;
    BlockEnds(pages[q], j);
    k := j;
  }

  /** What scan_address does on a page, whatever the sizes of its blocks: the first freed block
      or the space after the last block becomes a live block; without either the page is as it was. */
  lemma ScanAny(bs: seq<Block>, s: nat)
    requires HasSizes(bs) && Total(bs) <= PAGE && 1 <= s <= PAGE && FreedHave(bs, s)
    ensures var (at, after) := Scan(bs, s); var k := FirstFreed(bs);
      if HasSlot(bs, s) then at == Total(bs[..k]) < PAGE && IsBlockMore(bs, after, k, s) && HasSizes(after) && Total(after) <= PAGE
      else after == bs && at == if IsFilledBySmall(bs) then PAGE else NOT_HERE
  {
    var k := FirstFreed(bs);
    if k < |bs| {
      PrefixBelow(bs, k);
      TotalSame(bs, k, true);
    } else {
      assert bs[..k] == bs;
      var after := bs + [Block(true, s)];
      TotalOfPrefix(after, |bs|);
      assert after[..|bs|] == bs && after[..|bs| + 1] == after;
      if bs == [Block(true, PAGE)] { assert Total(bs) == PAGE; }
    }
  }

  /** Page `f` is the first from `p` on with a freed block or room for `s`, and no page passed
      over on the way is filled by small blocks. */
  ghost predicate LeadsTo(pages: seq<seq<Block>>, p: nat, s: nat, f: nat) {
    && p <= f < |pages| && HasSlot(pages[f], s)
    && forall r :: p <= r < f ==> !HasSlot(pages[r], s) && !IsFilledBySmall(pages[r])
  }

  /** Page `f` is filled by small blocks, and the way from `p` leads there. */
  ghost predicate RunsOff(pages: seq<seq<Block>>, p: nat, s: nat, f: nat) {
    && p <= f < |pages| && IsFilledBySmall(pages[f])
    && forall r :: p <= r < f ==> !HasSlot(pages[r], s) && !IsFilledBySmall(pages[r])
  }

  lemma {:induction false} AnyStop(pages: seq<seq<Block>>, p: nat, s: nat)
    requires IsSound(pages) && p <= |pages| && 1 <= s <= PAGE && Suits(pages, s)
    ensures var q := StopPage(pages, p, s);
      && (forall r :: p <= r < q ==> !HasSlot(pages[r], s) && !IsFilledBySmall(pages[r]))
      && (q < |pages| ==> HasSlot(pages[q], s) || IsFilledBySmall(pages[q]))
    decreases |pages| - p
  {
    hide Scan, HasSlot, IsFilledBySmall;
    if p < |pages| {
      ScanAny(pages[p], s);
      AnyStop(pages, p + 1, s);
    }
  }

  /** The request of `s` got block `k` of page `q`, at `addr`, and every other block is as it was. */
  ghost predicate IsServedAt(st: State, st': State, addr: nat, q: nat, k: nat, s: nat) {
    && q < |st.pages| == |st'.pages| && st'.pages == st.pages[q := st'.pages[q]] && k <= |st.pages[q]|
    && IsBlockMore(st.pages[q], st'.pages[q], k, s) && addr == BlockAddress(st.pages, q, k)
  }

  /** kmem_allocate on blocks of any sizes whose freed blocks have the size asked for. The request gets
      a new block exactly when the way from the lowest clear bit leads to a page with a freed block or
      room. That block is then the first freed one of the page or comes after all of them, every other
      live block stays, and the bit of the page is set exactly when every byte of it is in a live block.
      Otherwise nothing changes and the address is the end of a page that small blocks fill. */
  lemma AnyServe(st: State, s: nat)
    requires IsSound(st.pages) && CanServe(st, s)
    ensures var (addr, st') := Serve(st, s); var p := FirstPage(st.taken); var f := (addr - KERNEL_HEAP_NO_PAGING_START) / PAGE;
      && IsSound(st'.pages) && addr >= KERNEL_HEAP_NO_PAGING_START
      && (IsOneMore(st.pages, st'.pages, addr, s) <==> exists q :: LeadsTo(st.pages, p, s, q))
      && (IsOneMore(st.pages, st'.pages, addr, s) ==>
          && LeadsTo(st.pages, p, s, f) && IsServedAt(st, st', addr, f, FirstFreed(st.pages[f]), s)
          && st'.taken == if IsCovered(st'.pages, f) then st.taken + {FIRST_BIT + f} else st.taken)
      && (!IsOneMore(st.pages, st'.pages, addr, s) ==>
          st' == st && exists q :: RunsOff(st.pages, p, s, q) && addr == GetAddrFromBit(FIRST_BIT + q + 1))
  {
    hide Scan, IsSound, HasSlot, IsFilledBySmall, Full, Total, IsOneMore, IsCovered, BlockAddress;
    var p := FirstPage(st.taken);
    var q := StopPage(st.pages, p, s);
    AnyStop(st.pages, p, s);
    var (addr, st') := Serve(st, s);
    ServedFrom(st, s, q);
    if HasSlot(st.pages[q], s) {
      assert LeadsTo(st.pages, p, s, q);
    } else {
      NotOneMore(st.pages, addr, s);
      assert RunsOff(st.pages, p, s, q);
      forall w | p <= w < HEAP_PAGES ensures !LeadsTo(st.pages, p, s, w) {
        if w > q { assert p <= q < w && IsFilledBySmall(st.pages[q]); }
      }
    }
  }

  lemma NotOneMore(pages: seq<seq<Block>>, addr: nat, s: nat)
    ensures !IsOneMore(pages, pages, addr, s)
  {
    if HasLive(pages, addr, s) {
      var p: nat, k: nat :| IsLiveAt(pages, addr, p, k) && pages[p][k].size == s;
      assert IsLive(pages, addr);
    }
  }

  /** A request served from page `q`. */
  lemma ServedFrom(st: State, s: nat, q: nat)
    requires IsSound(st.pages) && CanServe(st, s) && q == StopPage(st.pages, FirstPage(st.taken), s)
    requires HasSlot(st.pages[q], s) || IsFilledBySmall(st.pages[q])
    ensures var (addr, st') := Serve(st, s);
      && IsSound(st'.pages) && addr >= KERNEL_HEAP_NO_PAGING_START
      && (HasSlot(st.pages[q], s) ==>
          && IsOneMore(st.pages, st'.pages, addr, s) && (addr - KERNEL_HEAP_NO_PAGING_START) / PAGE == q
          && IsServedAt(st, st', addr, q, FirstFreed(st.pages[q]), s)
          && st'.taken == if IsCovered(st'.pages, q) then st.taken + {FIRST_BIT + q} else st.taken)
      && (!HasSlot(st.pages[q], s) ==> st' == st && addr == GetAddrFromBit(FIRST_BIT + q + 1))
  {
    hide Scan, HasSlot, IsFilledBySmall, Full, Total, IsOneMore, IsCovered;
    var (addr, st') := Serve(st, s);
    var bs, k := st.pages[q], FirstFreed(st.pages[q]);
    ScanAny(bs, s);
    ServeUnfolds(st, s);
    assert bs == st.pages[q];
    if HasSlot(bs, s) {
      assert IsSound(st'.pages);
      OneMoreBlock(st.pages, st'.pages, q, k, s);
      PageOfBlock(st'.pages, addr, q, k);
      FullIffCovered(st'.pages, q);
    } else {
      assert st.pages[q := bs] == st.pages;
    }
  }

  /** A block is live in page `p`. */
  ghost predicate HasBlocks(pages: seq<seq<Block>>, p: nat) {
    exists addr: nat :: IsLive(pages, addr) && IsInPage(addr, p)
  }

  predicate IsInPage(addr: nat, p: nat) {
    KERNEL_HEAP_NO_PAGING_START + p * PAGE <= addr < KERNEL_HEAP_NO_PAGING_START + (p + 1) * PAGE
  }

  lemma NoneLiveIffEmpty(pages: seq<seq<Block>>, p: nat)
    requires IsSound(pages) && p < HEAP_PAGES
    ensures NoneLive(pages[p]) <==> !HasBlocks(pages, p)
  {
    hide Total, HasSizes;
    if !NoneLive(pages[p]) {
      var k :| 0 <= k < |pages[p]| && pages[p][k].live;
      var addr := BlockAddress(pages, p, k);
      assert IsLiveAt(pages, addr, p, k);
      PageOfBlock(pages, addr, p, k);
      assert IsLive(pages, addr) && IsInPage(addr, p);
    }
    if HasBlocks(pages, p) {
      var addr: nat :| IsLive(pages, addr) && IsInPage(addr, p);
      var q: nat, k: nat :| IsLiveAt(pages, addr, q, k);
      PageOfBlock(pages, addr, q, k);
      assert q == p && pages[p][k].live;
    }
  }

  /** A block that is a whole page is alone in it. */
  lemma FreedIsLess(bs: seq<Block>, k: nat)
    requires HasSizes(bs) && Total(bs) <= PAGE && k < |bs| && bs[k].live
    ensures var less := Freed(bs, k);
      && IsBlockMore(less, bs, k, bs[k].size) && HasSizes(less) && Total(less) <= PAGE
      && (bs[k].size == PAGE ==> |bs| == 1)
  {
    TotalSame(bs, k, false);
    if bs[k].size == PAGE {
      BlockEnds(bs, k);
      if k > 0 { BlockEnds(bs, 0); BlocksInOrder(bs, 0, k); }
      if |bs| > 1 { BlocksInOrder(bs, 0, 1); BlockEnds(bs, 1); }
    }
  }

  /** The block of `size` bytes at `addr` is the one taken back, and a request of its size can have
      it again. */
  ghost predicate IsTakenBack(st: State, st': State, addr: nat, p: nat, k: nat, size: nat) {
    && p < |st.pages| == |st'.pages| && st'.pages == st.pages[p := st'.pages[p]] && IsOneMore(st'.pages, st.pages, addr, size)
    && IsBlockMore(st'.pages[p], st.pages[p], k, size) && (k < |st'.pages[p]| <==> size < PAGE)
  }

  /** kernel_free on blocks of any sizes: the address is live no more, every other live block stays, and
      the taken pages lose exactly the page of the address when no block of it is live any more. */
  lemma AnyRelease(st: State, addr: nat)
    requires IsSound(st.pages) && IsLive(st.pages, addr)
    ensures var st' := Release(st, addr); var p := (addr - KERNEL_HEAP_NO_PAGING_START) / PAGE;
      && IsSound(st'.pages) && addr >= KERNEL_HEAP_NO_PAGING_START && 0 <= p < HEAP_PAGES
      && (exists k: nat, size: nat :: IsTakenBack(st, st', addr, p, k, size))
      && st'.taken == if HasBlocks(st'.pages, p) then st.taken else st.taken - {FIRST_BIT + p}
  {
    hide Freed, Total, HasSizes, NoneLive, HasBlocks, IsOneMore;
    var p: nat, k: nat :| IsLiveAt(st.pages, addr, p, k) && Release(st, addr) == WithoutBlock(st, p, k);
    var st' := WithoutBlock(st, p, k);
    FreedIsLess(st.pages[p], k);
    PageOfBlock(st.pages, addr, p, k);
    var size := st.pages[p][k].size;
    OneMoreBlock(st'.pages, st.pages, p, k, size);
    NoneLiveIffEmpty(st'.pages, p);
    FreedLength(st, p, k);
    assert IsTakenBack(st, st', addr, p, k, size);
  }

  lemma FreedLength(st: State, p: nat, k: nat)
    requires IsSound(st.pages) && p < |st.pages| && k < |st.pages[p]|
    ensures k < |Freed(st.pages[p], k)| <==> st.pages[p][k].size < PAGE
  {
    BlockEnds(st.pages[p], k);
  }

  // ---- runs ----

  datatype HeapOp = Request(size: half) | GiveBack(addr: nat)

  /** Each request ends at one of the 64 pages, and each address given back is live. */
  ghost predicate CanRun(st: State, ops: seq<HeapOp>)
    decreases |ops|
  {
    ops == [] || (
      && IsSound(st.pages)
      && (ops[0].Request? ==> CanServe(st, ops[0].size) && CanRun(Serve(st, ops[0].size).1, ops[1..]))
      && (ops[0].GiveBack? ==> IsLive(st.pages, ops[0].addr) && CanRun(Release(st, ops[0].addr), ops[1..])))
  }

  ghost function AfterRun(st: State, ops: seq<HeapOp>): State
    requires CanRun(st, ops)
    decreases |ops|
  {
    if ops == [] then st else
      match ops[0]
      case Request(s) => AfterRun(Serve(st, s).1, ops[1..])
      case GiveBack(addr) => AfterRun(Release(st, addr), ops[1..])
  }

  /** The addresses the requests of the run get. */
  ghost function Grants(st: State, ops: seq<HeapOp>): seq<nat>
    requires CanRun(st, ops)
    decreases |ops|
  {
    if ops == [] then [] else
      match ops[0]
      case Request(s) => [Serve(st, s).0] + Grants(Serve(st, s).1, ops[1..])
      case GiveBack(addr) => Grants(Release(st, addr), ops[1..])
  }

  predicate AllOfSize(ops: seq<HeapOp>, s: nat) {
    forall i :: 0 <= i < |ops| && ops[i].Request? ==> ops[i].size == s
  }

  function GivenBack(ops: seq<HeapOp>): nat {
    if ops == [] then 0 else (if ops[0].GiveBack? then 1 else 0) + GivenBack(ops[1..])
  }

  /** Over every run of requests of one size and frees of live addresses the heap stays sound,
      live blocks stay apart, and none is lost: live + given back = live before + granted. */
  lemma {:induction false} UniformRun(st: State, s: nat, ops: seq<HeapOp>)
    requires IsUniform(st, s) && CanRun(st, ops) && AllOfSize(ops, s)
    ensures var end := AfterRun(st, ops);
      && IsUniform(end, s)
      && |LiveAddresses(end.pages, s)| + GivenBack(ops) == |LiveAddresses(st.pages, s)| + |Grants(st, ops)|
    decreases |ops|
  {
    hide LiveAddresses, IsUniform, Serve, CanServe, IsSound;
    if ops != [] {
      assert AllOfSize(ops[1..], s);
      match ops[0]
      case Request(size) =>
        UniformServe(st, s);
        UniformRun(Serve(st, s).1, s, ops[1..]);
      case GiveBack(addr) =>
        UniformRelease(st, s, addr);
        UniformRun(Release(st, addr), s, ops[1..]);
    }
  }

  /** Page `p` has a live block before and after every step of the run. */
  ghost predicate StaysInUse(st: State, ops: seq<HeapOp>, p: nat)
    requires CanRun(st, ops)
    decreases |ops|
  {
    HasBlocks(st.pages, p) && (ops == [] ||
      match ops[0]
      case Request(s) => StaysInUse(Serve(st, s).1, ops[1..], p)
      case GiveBack(addr) => StaysInUse(Release(st, addr), ops[1..], p))
  }

  /** Once the bit of a page is set it stays so, over every run of any sizes, until all blocks of the
      page are freed. */
  lemma {:induction false} BitStays(st: State, ops: seq<HeapOp>, p: nat)
    requires IsSound(st.pages) && CanRun(st, ops) && FIRST_BIT + p in st.taken && p < HEAP_PAGES && StaysInUse(st, ops, p)
    ensures FIRST_BIT + p in AfterRun(st, ops).taken
    decreases |ops|
  {
    hide HasBlocks, Serve, CanServe, IsSound;
    if ops != [] {
      match ops[0]
      case Request(s) =>
        ServeUnfolds(st, s);
        AnyServe(st, s);
        BitStays(Serve(st, s).1, ops[1..], p);
      case GiveBack(addr) =>
        AnyRelease(st, addr);
        BitStays(Release(st, addr), ops[1..], p);
    }
  }

  /** A request gets an address in page `p`, whether its bit is set or not, exactly when the way from
      the lowest clear bit leads there, or runs off the page before. */
  lemma AddressIsIn(st: State, s: nat, p: nat)
    requires IsSound(st.pages) && CanServe(st, s)
    ensures var first := FirstPage(st.taken);
      IsInPage(Serve(st, s).0, p) <==> LeadsTo(st.pages, first, s, p) || (p > 0 && RunsOff(st.pages, first, s, p - 1))
  {
    hide HasSlot, IsFilledBySmall, Serve, HasSizes, Suits, IsServedAt, IsOneMore, IsCovered;
    var first := FirstPage(st.taken);
    AnyServe(st, s);
    var addr := Serve(st, s).0;
    if w :| LeadsTo(st.pages, first, s, w) {
      OneWay(st.pages, first, s, w, p);
      if p > 0 { OneWay(st.pages, first, s, w, p - 1); }
      OneWay(st.pages, first, s, w, (addr - KERNEL_HEAP_NO_PAGING_START) / PAGE);
    } else {
      var w :| RunsOff(st.pages, first, s, w) && addr == GetAddrFromBit(FIRST_BIT + w + 1);
      if p > 0 { OneWay(st.pages, first, s, w, p - 1); }
    }
  }

  lemma OneWay(pages: seq<seq<Block>>, p: nat, s: nat, f: nat, g: nat)
    requires 1 <= s && (LeadsTo(pages, p, s, f) || RunsOff(pages, p, s, f))
    ensures LeadsTo(pages, p, s, g) ==> f == g && LeadsTo(pages, p, s, f)
    ensures RunsOff(pages, p, s, g) ==> f == g && !LeadsTo(pages, p, s, f)
  {}

  /** With several sizes a page can be used although its bit is set and one of its blocks is live: after
      4000, 2048, 2048 and a free of the second address, a request of 2048 gets it again. */
  lemma TakenPageUsed()
    ensures var st := TwoPages([BIG], [HALF, HALF], {0x201}); var ops := [GiveBack(0x501000), Request(2048)];
      && FIRST_BIT + 1 in st.taken && CanRun(st, ops) && StaysInUse(st, ops, 1) && Grants(st, ops) == [0x501000]
  {
    hide Total, Scan, Full, CanServe, Serve;
    var freed := Block(false, 2048);
    var st, mid := TwoPages([BIG], [HALF, HALF], {0x201}), TwoPages([BIG], [freed, HALF], {0x201});
    HalvesScan();
    ReleaseIs(st, 0x501000, 1, 0);
    assert mid.pages == st.pages[1 := [freed, HALF]];
    assert Freed([HALF, HALF], 0) == [freed, HALF] && [freed, HALF][1].live;
    assert !NoneLive([freed, HALF]) && st.pages[1] == [HALF, HALF];
    assert WithoutBlock(st, 1, 0) == mid;
    ServeIs([BIG], [freed, HALF], {0x201}, 2048, 1, 0, [HALF, HALF]);
    assert TakenAfter({0x201}, 1, [HALF, HALF]) == {0x201};
    RunOne(mid, 2048, [], [], st, 0x501000, st);
    assert [Request(2048)] + [] == [Request(2048)] == [GiveBack(0x501000), Request(2048)][1..];
    NoneLiveIffEmpty(st.pages, 1);
    NoneLiveIffEmpty(mid.pages, 1);
    assert st.pages[1][1].live && mid.pages[1][1].live;
  }

  lemma HalvesScan()
    ensures var freed := Block(false, 2048);
      var st, mid := TwoPages([BIG], [HALF, HALF], {0x201}), TwoPages([BIG], [freed, HALF], {0x201});
      && Scan([BIG], 2048) == (NOT_HERE, [BIG]) && Scan([freed, HALF], 2048) == (0, [HALF, HALF])
      && IsSound(st.pages) && IsSound(mid.pages) && BlockAddress(st.pages, 1, 0) == 0x501000
  {
    ExampleScans();
    AreSound();
    var freed := Block(false, 2048);
    TotalSame([HALF, HALF], 0, false);
    assert [HALF, HALF][0 := freed] == [freed, HALF] && [freed, HALF][0 := HALF] == [HALF, HALF];
  }

  lemma ReleaseIs(st: State, addr: nat, p: nat, k: nat)
    requires IsSound(st.pages) && IsLiveAt(st.pages, addr, p, k)
    ensures IsLive(st.pages, addr) && Release(st, addr) == WithoutBlock(st, p, k)
  {
    hide IsSound;
    var q: nat, j: nat :| IsLiveAt(st.pages, addr, q, j) && Release(st, addr) == WithoutBlock(st, q, j);
    LiveIsUnique(st.pages, addr, p, k, q, j);
  }

  lemma NotInTaken(st: State, s: nat, p: nat)
    requires IsUniform(st, s) && CanServe(st, s) && FIRST_BIT + p in st.taken
    ensures !IsInPage(Serve(st, s).0, p)
  {
    hide HasSlot, IsFilledBySmall, Serve, LiveAddresses, IsServedAt, BitsAgree;
    UniformSuits(st, s);
    UniformServe(st, s);
    ServedFrom(st, s, StopPage(st.pages, FirstPage(st.taken), s));
  }

  /** Over every run of requests of one size and frees: once the bit of a page is set, no request gets
      an address in that page until all its blocks are freed. */
  lemma {:induction false} NotUsedWhileTaken(st: State, s: nat, ops: seq<HeapOp>, p: nat)
    requires IsUniform(st, s) && CanRun(st, ops) && AllOfSize(ops, s)
    requires FIRST_BIT + p in st.taken && p < HEAP_PAGES && StaysInUse(st, ops, p)
    ensures forall i :: 0 <= i < |Grants(st, ops)| ==> !IsInPage(Grants(st, ops)[i], p)
    decreases |ops|
  {
    hide HasBlocks, Serve, CanServe, IsSound, LiveAddresses;
    if ops != [] {
      assert AllOfSize(ops[1..], s);
      UniformSuits(st, s);
      match ops[0]
      case Request(size) =>
        UniformServe(st, s);
        NotInTaken(st, s, p);
        NotUsedWhileTaken(Serve(st, s).1, s, ops[1..], p);
      case GiveBack(addr) =>
        AnyRelease(st, addr);
        UniformRelease(st, s, addr);
        NotUsedWhileTaken(Release(st, addr), s, ops[1..], p);
    }
  }

  class Heap {
    const pageMap: PageMap
    const freeInfo: array<byte>       // Os_memmap_free_info
    const sizeInfo: array<half>       // Os_memmap_size_info
    var memBtTemp: nat
    ghost var pages: seq<seq<Block>>

    /** init_memallocarrays_nopaging. */
    constructor (m: PageMap, ghost s: nat)
      requires m.Valid() && 1 <= s <= PAGE
      requires forall b :: b in m.Taken() ==> b < FIRST_BIT || b >= FIRST_BIT + HEAP_PAGES
      ensures pageMap == m && fresh(freeInfo) && fresh(sizeInfo)
      ensures Valid(s) && LiveAddresses(pages, s) == {}
    {
      pageMap := m;
      freeInfo := new byte[HEAP_PAGES * PAGE](_ => 0);
      sizeInfo := new half[HEAP_PAGES * PAGE](_ => 0);
      memBtTemp := 0;
      pages := seq(HEAP_PAGES, _ => []);
    }

    ghost predicate Tables() {
      freeInfo.Length == sizeInfo.Length == HEAP_PAGES * PAGE && pageMap.Valid()
    }

    /** The tables of page `p` hold the blocks `bs`. */
    ghost predicate Holds(p: nat, bs: seq<Block>)
      requires Tables() && p < HEAP_PAGES
      reads freeInfo, sizeInfo
    {
      Chain(freeInfo[..], sizeInfo[..], p * PAGE, 0, bs)
    }

    /** Walks over the live blocks from the start of the page; every cell it reads is in the page. */
    method CheckIfPageTaken(p: nat, ghost bs: seq<Block>) returns (r: bool)
      requires Tables() && p < HEAP_PAGES && Holds(p, bs)
      ensures r <==> Full(bs)
    {
      var base := p * PAGE;
      if freeInfo[base] == 1 && sizeInfo[base] == 4097 {
        WholeIsAlone(freeInfo[..], sizeInfo[..], base, bs);
        return true;
      } else if freeInfo[base] == 0 && sizeInfo[base] == 4097 {
        return false;
      }
      var flagSet := false;
      var i := 0;
      ghost var rest := bs;
      while i < PAGE
        invariant i <= PAGE && !flagSet && Chain(freeInfo[..], sizeInfo[..], base, i, rest)
        invariant Full(bs) <==> i + Total(rest) == PAGE && AllLive(rest)
        decreases PAGE - i
      {
        if freeInfo[base + i] == 1 && PAGE - i > sizeInfo[base + i] {
          if sizeInfo[base + i] == 0 { flagSet := true; }
          if !flagSet {
            i := i + sizeInfo[base + i];
            LiveTail(rest);
            rest := rest[1..];
            continue;
          }
        } else if freeInfo[base + i] == 1 && PAGE - i <= sizeInfo[base + i] {
          ChainFits(freeInfo[..], sizeInfo[..], base, i, rest);
          LiveTail(rest);
          return true;
        } else if freeInfo[base + i] == 0 {
          return false;
        }
        if flagSet {
          i := i + 4;
          flagSet := false;
        }
      }
      return true;
    }

    method CheckIfPageFreed(p: nat, ghost bs: seq<Block>) returns (r: bool)
      requires Tables() && p < HEAP_PAGES && Holds(p, bs)
      ensures r <==> NoneLive(bs)
    {
      var base := p * PAGE;
      if freeInfo[base] == 0 && sizeInfo[base] == 4097 {
        WholeIsAlone(freeInfo[..], sizeInfo[..], base, bs);
        return true;
      } else if freeInfo[base] == 1 && sizeInfo[base] == 4097 {
        return false;
      }
      var flagSet := false;
      var i := 0;
      ghost var rest := bs;
      while i < PAGE
        invariant !flagSet && Chain(freeInfo[..], sizeInfo[..], base, i, rest)
        invariant NoneLive(bs) <==> NoneLive(rest)
        invariant i > PAGE ==> rest == []
        decreases PAGE - i
      {
        if freeInfo[base + i] == 0 && PAGE - i > sizeInfo[base + i] {
          if sizeInfo[base + i] == 0 { flagSet := true; }
          if !flagSet {
            i := i + sizeInfo[base + i];
            FreedTail(rest);
            rest := rest[1..];
            continue;
          }
        } else if freeInfo[base + i] == 0 && PAGE - i <= sizeInfo[base + i] {
          ChainFits(freeInfo[..], sizeInfo[..], base, i, rest);
          FreedTail(rest);
          return true;
        } else if freeInfo[base + i] == 1 {
          return false;
        }
        if flagSet {
          i := i + 4;
          flagSet := false;
        }
      }
      return true;
    }

    method SetBitIfFull(p: nat, ghost bs: seq<Block>)
      requires Tables() && p < HEAP_PAGES && Holds(p, bs) && memBtTemp == FIRST_BIT + p
      modifies pageMap.words
      ensures pageMap.Taken() == TakenAfter(old(pageMap.Taken()), p, bs)
      ensures Holds(p, bs)
    {
      var pageTakenCheck := CheckIfPageTaken(memBtTemp - FIRST_BIT, bs);
      if pageTakenCheck {
        pageMap.SetBit(memBtTemp);
      }
    }

    /** The branch of scan_address that takes space no block has used. */
    method TakeUntouched(size: half, p: nat, i: nat, ghost bs: seq<Block>)
      requires Tables() && p < HEAP_PAGES && Holds(p, bs) && memBtTemp == FIRST_BIT + p
      requires 1 <= size <= PAGE - i && i == Total(bs)
      modifies freeInfo, sizeInfo, pageMap.words
      ensures var after := bs + [Block(true, size)];
        && Holds(p, after) && OnlyPage(old(freeInfo[..]), old(sizeInfo[..]), freeInfo[..], sizeInfo[..], p)
        && pageMap.Taken() == TakenAfter(old(pageMap.Taken()), p, after)
    {
      var base := p * PAGE;
      ChainExtend(freeInfo[..], sizeInfo[..], base, 0, bs, size);
      freeInfo[base + i] := 1;
      sizeInfo[base + i] := if size == PAGE then 4097 else size;
      SetBitIfFull(p, bs + [Block(true, size)]);
    }

    /** The branches of scan_address that take a freed block of the size asked for again. */
    method TakeFreed(size: half, p: nat, i: nat, ghost bs: seq<Block>, ghost n: nat)
      requires Tables() && p < HEAP_PAGES && Holds(p, bs) && memBtTemp == FIRST_BIT + p
      requires n < |bs| && i == Total(bs[..n]) && bs[n] == Block(false, size) && 1 <= size <= PAGE - i && size < PAGE
      requires sizeInfo[p * PAGE + i] == size
      modifies freeInfo, sizeInfo, pageMap.words
      ensures var after := bs[n := Block(true, size)];
        && Holds(p, after) && OnlyPage(old(freeInfo[..]), old(sizeInfo[..]), freeInfo[..], sizeInfo[..], p)
        && pageMap.Taken() == TakenAfter(old(pageMap.Taken()), p, after)
    {
      var base := p * PAGE;
      ghost var t, z := freeInfo[..], sizeInfo[..];
      ChainUpdate(t, z, base, 0, bs, n, true);
      if size == PAGE - i && sizeInfo[base + i] < 4097 && size <= sizeInfo[base + i] {
        freeInfo[base + i] := 1;
        assert freeInfo[..] == t[base + i := 1];
        SetBitIfFull(p, bs[n := Block(true, size)]);
        sizeInfo[base + i] := size;
      } else if size < PAGE - i && sizeInfo[base + i] < PAGE - i && size <= sizeInfo[base + i] {
        freeInfo[base + i] := 1;
        sizeInfo[base + i] := size;
        assert freeInfo[..] == t[base + i := 1];
        assert sizeInfo[..] == z;
        SetBitIfFull(p, bs[n := Block(true, size)]);
      } else {
        assert false;
      }
      assert sizeInfo[..] == z;
    }

    /** scan_address for requests of up to a page, when every freed block has the size asked for. */
    method ScanAddress(size: half, p: nat, ghost bs: seq<Block>) returns (r: nat)
      requires Tables() && p < HEAP_PAGES && Holds(p, bs) && memBtTemp == FIRST_BIT + p
      requires 1 <= size <= PAGE
      requires FreedHave(bs, size)
      modifies this`memBtTemp, freeInfo, sizeInfo, pageMap.words
      ensures var (at, after) := Scan(bs, size);
        && r == at && Holds(p, after)
        && memBtTemp == old(memBtTemp) + (if at == NOT_HERE then 1 else 0)
        && pageMap.Taken() == if at < PAGE then TakenAfter(old(pageMap.Taken()), p, after) else old(pageMap.Taken())
      ensures r <= NOT_HERE && (r > PAGE ==> Scan(bs, size).1 == bs)
      ensures OnlyPage(old(freeInfo[..]), old(sizeInfo[..]), freeInfo[..], sizeInfo[..], p)
    {
      hide PageMap.Taken, Full, TakenAfter;
      var i := 0;
      var base := p * PAGE;
      ghost var t, z := freeInfo[..], sizeInfo[..];
      ghost var n := 0;
      assert bs[0..] == bs;
      while i < PAGE
        invariant i <= PAGE && Walked(bs, n, i) && Chain(t, z, base, i, bs[n..])
        invariant freeInfo[..] == t && sizeInfo[..] == z
        invariant memBtTemp == FIRST_BIT + p && pageMap.Taken() == old(pageMap.Taken())
        decreases PAGE - i
      {
        if freeInfo[base + i] == 1 {
          if sizeInfo[base + i] > PAGE - i {
            WholePage(t, z, base, bs, n, i);
            memBtTemp := memBtTemp + 1;
            return NOT_HERE;
          } else {
            WalkOn(t, z, base, bs, n, i);
            i := i + sizeInfo[base + i];
            n := n + 1;
            continue;
          }
        } else {
          if sizeInfo[base + i] == 0 && size <= PAGE - i {
            WalkEnds(t, z, base, bs, n, i);
            TakeUntouched(size, p, i, bs);
            return i;
          }
          if sizeInfo[base + i] == 0 && size > PAGE - i {
            WalkEnds(t, z, base, bs, n, i);
            if freeInfo[base] == 1 {
              memBtTemp := memBtTemp + 1;
              return NOT_HERE;
            }
            assert false;
          }
          WalkFreed(t, z, base, bs, n, i);
          TakeFreed(size, p, i, bs, n);
          return i;
        }
      }
      WalkEnds(t, z, base, bs, n, i);
      return i;
    }

    /** The tables hold the blocks of the 64 pages. */
    ghost predicate Holding()
      reads this`pages, freeInfo, sizeInfo
    {
      Tables() && |pages| == HEAP_PAGES && Describes(freeInfo[..], sizeInfo[..], pages)
    }

    lemma HoldsAt(p: nat)
      requires Holding() && p < HEAP_PAGES
      ensures Holds(p, pages[p])
    {}

    ghost function Now(): State
      requires pageMap.Valid()
      reads this`pages, pageMap.words
    {
      State(pages, pageMap.Taken())
    }

    /** The heap in use for blocks of size `s`: the tables hold the layout, the bit of a
        full page is set, and a page whose bit is set has blocks to its last byte, some live. */
    ghost predicate Valid(s: nat)
      reads this, freeInfo, sizeInfo, pageMap.words
    {
      Holding() && Layout(pages, s) && BitsAgree(pages, pageMap.Taken())
    }

    /** The call of scan_address that kmem_allocate makes. */
    method ServeFrom(s: half) returns (scannedPos: nat)
      requires Holding() && FIRST_BIT <= memBtTemp < FIRST_BIT + HEAP_PAGES && 1 <= s <= PAGE && Suits(pages, s)
      modifies this`memBtTemp, this`pages, freeInfo, sizeInfo, pageMap.words
      ensures Holding()
      ensures var p := old(memBtTemp) - FIRST_BIT; var (at, after) := Scan(old(pages)[p], s);
        && scannedPos == at <= NOT_HERE && pages == old(pages)[p := after] && (at > PAGE ==> pages == old(pages))
        && memBtTemp == old(memBtTemp) + (if at == NOT_HERE then 1 else 0)
        && pageMap.Taken() == if at < PAGE then TakenAfter(old(pageMap.Taken()), p, after) else old(pageMap.Taken())
    {
      hide Scan, PageMap.Taken, Chain, Full;
      ghost var p := memBtTemp - FIRST_BIT;
      ghost var t, z := freeInfo[..], sizeInfo[..];
      scannedPos := ScanAddress(s, memBtTemp - FIRST_BIT, pages[p]);
      OnePageChanged(t, z, freeInfo[..], sizeInfo[..], pages, p, Scan(pages[p], s).1);
      pages := pages[p := Scan(pages[p], s).1];
    }

    /** kmem_allocate, for requests of up to a page on a heap whose freed blocks suit it. */
    method KmemAllocate(s: half) returns (addr: nat)
      requires Holding() && CanServe(Now(), s)
      modifies this, freeInfo, sizeInfo, pageMap.words
      ensures Holding() && (addr, Now()) == Serve(old(Now()), s)
      ensures memBtTemp == FIRST_BIT + StopPage(old(pages), FirstPage(old(pageMap.Taken())), s)
    {
      hide Describes, Scan, PageMap.Taken, Suits, Full, Serve, TakenAfter, OnlyPage;
      ServeUnfolds(Now(), s);
      memBtTemp := pageMap.CheckFreeMemory(FIRST_BIT);
      ghost var first := memBtTemp - FIRST_BIT;
      while memBtTemp < LAST_BIT
        invariant Holding() && Now() == old(Now())
        invariant FIRST_BIT + first <= memBtTemp <= FIRST_BIT + StopPage(pages, first, s) < FIRST_BIT + HEAP_PAGES
        decreases LAST_BIT - memBtTemp
      {
        ghost var p := memBtTemp - FIRST_BIT;
        var scannedPos := ServeFrom(s);
        if scannedPos > PAGE {
          continue;
        } else {
          addr := KERNEL_HEAP_START + memBtTemp * PAGE + scannedPos;
          return addr;
        }
      }
      assert false;
    }

    method ZeroBitIfFreed(p: nat, ghost bs: seq<Block>)
      requires Tables() && p < HEAP_PAGES && Holds(p, bs) && memBtTemp == FIRST_BIT + p
      modifies pageMap.words
      ensures pageMap.Taken() == if NoneLive(bs) then old(pageMap.Taken()) - {FIRST_BIT + p} else old(pageMap.Taken())
      ensures Holds(p, bs)
    {
      var freedCheck := CheckIfPageFreed(p, bs);
      if freedCheck {
        pageMap.ZeroBit(memBtTemp);
      }
    }

    /** kernel_free from the point where page and offset are known. */
    method FreeBlock(p: nat, offset: nat, ghost bs: seq<Block>, ghost k: nat)
      requires Tables() && p < HEAP_PAGES && Holds(p, bs) && memBtTemp == FIRST_BIT + p
      requires k < |bs| && bs[k].live && offset == Total(bs[..k]) < PAGE
      modifies freeInfo, sizeInfo, pageMap.words
      ensures Holds(p, Freed(bs, k))
      ensures OnlyPage(old(freeInfo[..]), old(sizeInfo[..]), freeInfo[..], sizeInfo[..], p)
      ensures pageMap.Taken() ==
        if NoneLive(Freed(bs, k)) then old(pageMap.Taken()) - {FIRST_BIT + p} else old(pageMap.Taken())
    {
      hide PageMap.Taken;
      var at := p * PAGE + offset;
      ghost var t, z := freeInfo[..], sizeInfo[..];
      ChainAt(t, z, p * PAGE, 0, bs, k);
      assert bs[k..][0] == bs[k];
      ChainUpdate(t, z, p * PAGE, 0, bs, k, false);
      if sizeInfo[at] == 4097 {
        WholeFreed(t, z, p * PAGE, bs, k);
        freeInfo[at] := 0;
        sizeInfo[at] := 0;
        assert freeInfo[..] == t[p * PAGE := 0] && sizeInfo[..] == z[p * PAGE := 0];
        ZeroBitIfFreed(p, []);
      }
      if sizeInfo[at] > PAGE - offset {
        assert false;
      } else {
        freeInfo[at] := 0;
        assert freeInfo[..] == t[at := 0];
        ZeroBitIfFreed(p, Freed(bs, k));
      }
    }

    /** kernel_free of an address that is live: only its block is taken back, and the bit
        of the page is cleared exactly when no block of the page is live any more. */
    method KernelFree(addr: nat)
      requires Holding() && IsSound(pages) && IsLive(pages, addr)
      modifies this`memBtTemp, this`pages, freeInfo, sizeInfo, pageMap.words
      ensures Holding() && Now() == Release(old(Now()), addr)
    {
      hide PageMap.Taken, NoneLive, Describes, Chain, IsSound, Freed, OnlyPage, Total;
      ghost var before := Now();
      ghost var p: nat, k: nat :| IsLiveAt(pages, addr, p, k) && Release(before, addr) == WithoutBlock(before, p, k);
      ghost var bs := pages[p];
      PageOfBlock(pages, addr, p, k);
      HoldsAt(p);
      ghost var t, z := freeInfo[..], sizeInfo[..];
      var currentPageSpot := (addr - KERNEL_HEAP_NO_PAGING_START) / PAGE;
      memBtTemp := currentPageSpot + FIRST_BIT;
      var currentPageOffset := addr % PAGE;
      FreeBlock(currentPageSpot, currentPageOffset, bs, k);
      OnePageChanged(t, z, freeInfo[..], sizeInfo[..], pages, p, Freed(bs, k));
      pages := pages[p := Freed(bs, k)];
      assert pageMap.Taken() == WithoutBlock(before, p, k).taken;
      assert pages == WithoutBlock(before, p, k).pages;
      assert Now() == WithoutBlock(before, p, k);
    }

    /** Any run of kmem_allocate and kernel_free does to the blocks and the bits what the run
        of the state does. */
    method RunOps(ops: seq<HeapOp>) returns (addrs: seq<nat>)
      requires Holding() && CanRun(Now(), ops)
      modifies this, freeInfo, sizeInfo, pageMap.words
      ensures Holding() && Now() == AfterRun(old(Now()), ops) && addrs == Grants(old(Now()), ops)
      decreases |ops|
    {
      hide Describes, PageMap.Taken, CanServe, Serve, IsSound, IsLive;
      if ops == [] { return []; }
      match ops[0]
      case Request(s) =>
        var addr := KmemAllocate(s);
        var rest := RunOps(ops[1..]);
        addrs := [addr] + rest;
      case GiveBack(addr) =>
        KernelFree(addr);
        addrs := RunOps(ops[1..]);
    }
  }
}
