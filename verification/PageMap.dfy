/** The 4096-byte page allocator of kernel/mem.c: one bit a page in `Os_memmap`. */
module PageMap {
  import opened Words

  const PAGES := 60800              // 1900 * 32
  const PAGE_SIZE := 4096
  const KERNEL_HEAP_START := 0x300000

  function GetAddrFromBit(p: nat): nat {
    p * PAGE_SIZE + KERNEL_HEAP_START
  }

  function GetBitFromAddr(addr: nat): nat
    requires addr >= KERNEL_HEAP_START
  {
    (addr - KERNEL_HEAP_START) / PAGE_SIZE
  }

  lemma PageOfAddr(p: nat)
    ensures GetBitFromAddr(GetAddrFromBit(p)) == p
  {}

  /** The first page from `p` on that is not in `taken`, or `PAGES` when there is none. */
  function LowestFree(taken: set<nat>, p: nat): (r: nat)
    requires p <= PAGES
    ensures p <= r <= PAGES
    ensures forall q :: p <= q < r ==> q in taken
    ensures r < PAGES ==> r !in taken
    decreases PAGES - p
  {
    if p == PAGES || p !in taken then p else LowestFree(taken, p + 1)
  }

  lemma LowestFreeIs(taken: set<nat>, p: nat, r: nat)
    requires p <= r <= PAGES
    requires forall q :: p <= q < r ==> q in taken
    requires r < PAGES ==> r !in taken
    ensures r == LowestFree(taken, p)
  {}

  /** The numbers below `n` that are in `s` cannot be more than `s` has elements. */
  lemma {:induction false} Pigeonhole(s: set<nat>, n: nat)
    requires forall q: nat :: q < n ==> q in s
    ensures |s| >= n
  {
    if n > 0 { Pigeonhole(s - {n - 1}, n - 1); }
  }

  function Below(taken: set<nat>, n: nat): set<nat> {
    set p | p in taken && p < n
  }

  /** The page allocator stays below page 0x200, where the sub-page heap begins, exactly
      while fewer than 512 of the pages below it are taken. */
  lemma AllocatorStaysBelowHeap(taken: set<nat>)
    ensures LowestFree(taken, 0) < 0x200 <==> |Below(taken, 0x200)| < 0x200
    ensures LowestFree(taken, 0) < 0x200 <==> GetAddrFromBit(LowestFree(taken, 0)) + PAGE_SIZE <= 0x500000
  {
    var r := LowestFree(taken, 0);
    var low := Below(taken, 0x200);
    if r < 0x200 {
      Bounded(low + {r}, 0x200);
      assert |low + {r}| == |low| + 1;
    } else {
      Pigeonhole(low, 0x200);
    }
  }

  lemma {:induction false} Bounded(s: set<nat>, n: nat)
    requires forall q :: q in s ==> q < n
    ensures |s| <= n
  {
    if n > 0 { Bounded(s - {n - 1}, n - 1); }
  }

  /** The search fails exactly when all 60800 pages are taken. */
  lemma ExhaustedIffFull(taken: set<nat>)
    requires forall q :: q in taken ==> q < PAGES
    ensures LowestFree(taken, 0) == PAGES <==> |taken| == PAGES
  {
    var r := LowestFree(taken, 0);
    Pigeonhole(taken, r);
    Bounded(taken, PAGES);
    if r < PAGES { Bounded(taken + {r}, PAGES); }
  }

  datatype PageOp = Allocate | Free(addr: nat)

  /** What one call does to the set of taken pages. */
  function Step(taken: set<nat>, op: PageOp): set<nat> {
    match op
    case Allocate =>
      var p := LowestFree(taken, 0);
      if p < PAGES then taken + {p} else taken
    case Free(addr) => if addr >= KERNEL_HEAP_START then taken - {GetBitFromAddr(addr)} else taken
  }

  function Run(taken: set<nat>, ops: seq<PageOp>): set<nat>
    decreases ops
  {
    if ops == [] then taken else Run(Step(taken, ops[0]), ops[1..])
  }

  /** Every `Free` of the run names a page that is live when it comes. */
  predicate FreesLivePages(taken: set<nat>, ops: seq<PageOp>)
    decreases ops
  {
    ops == [] || (
      && (ops[0].Free? ==> ops[0].addr >= KERNEL_HEAP_START && GetBitFromAddr(ops[0].addr) in taken)
      && FreesLivePages(Step(taken, ops[0]), ops[1..]))
  }

  function Granted(taken: set<nat>, ops: seq<PageOp>): nat
    decreases ops
  {
    if ops == [] then 0 else
      (if ops[0].Allocate? && LowestFree(taken, 0) < PAGES then 1 else 0) + Granted(Step(taken, ops[0]), ops[1..])
  }

  function Released(ops: seq<PageOp>): nat {
    if ops == [] then 0 else (if ops[0].Free? then 1 else 0) + Released(ops[1..])
  }

  /** What the requests of the run return: the address of a page that was free, or of page 0. */
  function PageGrants(taken: set<nat>, ops: seq<PageOp>): seq<nat>
    decreases ops
  {
    if ops == [] then [] else
      (if ops[0].Allocate? then
        [if LowestFree(taken, 0) < PAGES then GetAddrFromBit(LowestFree(taken, 0)) else KERNEL_HEAP_START]
      else []) + PageGrants(Step(taken, ops[0]), ops[1..])
  }

  /** Over any run that frees live pages only, pages are conserved: each granted request
      adds exactly one page that was not live, each release removes exactly one. */
  lemma {:induction false} RunConserves(taken: set<nat>, ops: seq<PageOp>)
    requires FreesLivePages(taken, ops)
    ensures |Run(taken, ops)| + Released(ops) == |taken| + Granted(taken, ops)
    decreases ops
  {
    if ops != [] { RunConserves(Step(taken, ops[0]), ops[1..]); }
  }

  function ToSet(ps: seq<nat>): set<nat> {
    set p | p in ps
  }

  predicate IsInMap(taken: set<nat>) {
    forall p :: p in taken ==> p < PAGES
  }

  /** The taken pages after `b` requests in a row. */
  function Requests(taken: set<nat>, b: nat): set<nat> {
    if b == 0 then taken else Step(Requests(taken, b - 1), Allocate)
  }

  /** The pages that `b` requests in a row get. */
  function LowestPages(taken: set<nat>, b: nat): (ps: seq<nat>)
    ensures |ps| == b && forall i :: 0 <= i < b ==> ps[i] == LowestFree(Requests(taken, i), 0)
  {
    if b == 0 then [] else LowestPages(taken, b - 1) + [LowestFree(Requests(taken, b - 1), 0)]
  }

  /** `ps` is increasing, was free before, and lies below every page still free. */
  ghost predicate AreLowest(taken: set<nat>, ps: seq<nat>) {
    && (forall i, j :: 0 <= i < j < |ps| ==> ps[i] < ps[j])
    && (forall i :: 0 <= i < |ps| ==> ps[i] < PAGES && ps[i] !in taken)
    && (forall i, p: nat :: 0 <= i < |ps| && p !in taken && p !in ps ==> ps[i] < p)
  }

  lemma {:induction false} LowestNext(taken: set<nat>, ps: seq<nat>, p: nat)
    requires AreLowest(taken, ps) && p < PAGES && p !in taken && p !in ps
    requires forall q: nat :: q < p ==> q in taken || q in ps
    ensures AreLowest(taken, ps + [p])
  {}

  lemma SetAppend(ps: seq<nat>, p: nat)
    ensures ToSet(ps + [p]) == ToSet(ps) + {p}
  {}

  /** With enough free pages, `b` requests in a row get the `b` lowest free pages in
      increasing order. */
  lemma {:induction false} LowestPagesAreLowest(taken: set<nat>, b: nat)
    requires IsInMap(taken) && |taken| + b <= PAGES
    ensures AreLowest(taken, LowestPages(taken, b))
    ensures Requests(taken, b) == taken + ToSet(LowestPages(taken, b)) && |Requests(taken, b)| == |taken| + b
    ensures IsInMap(Requests(taken, b))
    decreases b
  {
    if b > 0 {
      LowestPagesAreLowest(taken, b - 1);
      OneRequest(taken, b - 1);
    } else {
      assert LowestPages(taken, 0) == [];
    }
  }

  lemma OneMore(taken: set<nat>, ps: seq<nat>, now: set<nat>, p: nat)
    requires AreLowest(taken, ps) && now == taken + ToSet(ps) && p < PAGES && p !in now
    requires forall q: nat :: q < p ==> q in now
    ensures AreLowest(taken, ps + [p]) && now + {p} == taken + ToSet(ps + [p]) && |now + {p}| == |now| + 1
  {
    hide AreLowest;
    SetAppend(ps, p);
    InSet(ps);
    hide ToSet;
    forall q: nat | q < p ensures q in taken || q in ps {
      assert q in taken + ToSet(ps);
    }
    LowestNext(taken, ps, p);
  }

  lemma StepTakes(now: set<nat>)
    requires IsInMap(now) && |now| < PAGES
    ensures var p := LowestFree(now, 0);
      p < PAGES && p !in now && Step(now, Allocate) == now + {p} && IsInMap(now + {p}) && forall q: nat :: q < p ==> q in now
  {
    ExhaustedIffFull(now);
  }

  lemma {:induction false} PagesAppend(taken: set<nat>, b: nat)
    ensures LowestPages(taken, b + 1) == LowestPages(taken, b) + [LowestFree(Requests(taken, b), 0)]
    ensures Requests(taken, b + 1) == Step(Requests(taken, b), Allocate)
  {
    hide LowestFree, Step;
  }

  lemma {:induction false} OneRequest(taken: set<nat>, b: nat)
    requires |taken| + b < PAGES && AreLowest(taken, LowestPages(taken, b))
    requires Requests(taken, b) == taken + ToSet(LowestPages(taken, b)) && |Requests(taken, b)| == |taken| + b
    requires IsInMap(Requests(taken, b))
    ensures AreLowest(taken, LowestPages(taken, b + 1))
    ensures Requests(taken, b + 1) == taken + ToSet(LowestPages(taken, b + 1)) && |Requests(taken, b + 1)| == |taken| + b + 1
    ensures IsInMap(Requests(taken, b + 1))
  {
    hide LowestFree, AreLowest, ToSet, IsInMap, Step, LowestPages, Requests;
    var ps, now := LowestPages(taken, b), Requests(taken, b);
    PagesAppend(taken, b);
    StepTakes(now);
    OneMore(taken, ps, now, LowestFree(now, 0));
  }

  lemma InSet(ps: seq<nat>)
    ensures forall q :: q in ToSet(ps) <==> q in ps
  {}

  class PageMap {
    // The 1900 words of Os_memmap, and the word after them, which the search for a
    // free page reads (and nothing writes) when every page is taken.
    const words: array<word>
    const memBlock: array<word>

    constructor ()
      ensures Valid() && fresh(words) && fresh(memBlock) && Taken() == {}
    {
      words := new word[1901](_ => 0);
      memBlock := new word[128](_ => 0);
      new;
      forall p: nat | p < PAGES ensures !BitAt(words[..], p) { ShrZero(p % 32); }
    }

    ghost predicate Valid() {
      words.Length == 1901 && memBlock.Length == 128 && words != memBlock
    }

    ghost function Taken(): set<nat>
      requires Valid()
      reads words
    {
      set p: nat | p < PAGES && BitAt(words[..], p)
    }

    /** Bit 60800 is in the word after the map. */
    method SetBit(p: nat)
      requires Valid() && p <= PAGES
      modifies words
      ensures Taken() == old(Taken()) + if p < PAGES then {p} else {}
    {
      ghost var before := words[..];
      words[p / 32] := WithBit(words[p / 32], p % 32);
      WriteBitWrites(before, p, true);
      assert words[..] == WriteBit(before, p, true);
    }

    method ZeroBit(p: nat)
      requires Valid() && p < PAGES
      modifies words
      ensures Taken() == old(Taken()) - {p}
    {
      ghost var before := words[..];
      words[p / 32] := WithoutBit(words[p / 32], p % 32);
      WriteBitWrites(before, p, false);
      assert words[..] == WriteBit(before, p, false);
    }

    /** Whether a page is taken; bits 60800 to 60831 belong to the word after the map. */
    method CheckBit(p: nat) returns (b: bool)
      requires Valid() && p <= PAGES
      ensures p < PAGES ==> (b <==> p in Taken())
      ensures p == PAGES ==> (b <==> BitAt(words[..], p))
    {
      b := Bit(words[p / 32], p % 32);
      assert words[p / 32] == words[..][p / 32];
    }

    method CheckFirstFreeMemory() returns (p: nat)
      requires Valid()
      ensures p == LowestFree(Taken(), 0)
    {
      var memLoop, temp := 0, true;
      while memLoop <= PAGES && temp
        invariant memLoop <= PAGES + 1
        invariant forall q: nat :: q < memLoop - 1 && q < PAGES ==> q in Taken()
        invariant temp ==> forall q: nat :: q < memLoop && q < PAGES ==> q in Taken()
        invariant !temp ==> memLoop > 0 && memLoop - 1 !in Taken()
      {
        temp := CheckBit(memLoop);
        memLoop := memLoop + 1;
      }
      p := memLoop - 1;
      LowestFreeIs(Taken(), 0, p);
    }

    method CheckFreeMemory(start: nat) returns (p: nat)
      requires Valid()
      ensures start < PAGES && LowestFree(Taken(), start) < PAGES ==> p == LowestFree(Taken(), start)
      ensures start < PAGES && LowestFree(Taken(), start) == PAGES ==> p == PAGES - 1
      ensures start >= PAGES ==> p == start - 1
    {
      if start >= PAGES { return start - 1; }
      var memLoop, temp := start, true;
      while memLoop < PAGES && temp
        invariant start <= memLoop <= PAGES
        invariant temp ==> forall q: nat :: start <= q < memLoop ==> q in Taken()
        invariant !temp ==> start < memLoop && memLoop - 1 !in Taken()
        invariant forall q: nat :: start <= q < memLoop - 1 ==> q in Taken()
        invariant memLoop == start ==> temp
      {
        temp := CheckBit(memLoop);
        memLoop := memLoop + 1;
      }
      p := memLoop - 1;
      LowestFreeIs(Taken(), start, if temp then PAGES else p);
    }

    /** Takes the lowest free page; with none free it returns the address of page 0,
        which is then taken already, and changes nothing. */
    method Kmem4kAllocate() returns (addr: nat)
      requires Valid()
      modifies words
      ensures var p := LowestFree(old(Taken()), 0);
        if p < PAGES then addr == GetAddrFromBit(p) && Taken() == old(Taken()) + {p}
        else addr == KERNEL_HEAP_START && Taken() == old(Taken())
      ensures Taken() == Step(old(Taken()), Allocate)
      ensures GetBitFromAddr(addr) in old(Taken()) <==> |old(Taken())| == PAGES
    {
      ExhaustedIffFull(Taken());
      var p := CheckFirstFreeMemory();
      PageOfAddr(p);
      if p < PAGES {
        SetBit(p);
        addr := KERNEL_HEAP_START + p * PAGE_SIZE;
      } else {
        addr := KERNEL_HEAP_START;
      }
    }

    method FreeMemUint(addr: nat)
      requires Valid() && KERNEL_HEAP_START <= addr && GetBitFromAddr(addr) < PAGES
      modifies words
      ensures Taken() == old(Taken()) - {GetBitFromAddr(addr)} == Step(old(Taken()), Free(addr))
    {
      ZeroBit(GetBitFromAddr(addr));
    }

    /** Takes the lowest free page; with none free it sets the bit after the map, and returns
        the address of the page after the last. */
    method AllocFreeMem() returns (addr: word)
      requires Valid()
      modifies words
      ensures addr == GetAddrFromBit(LowestFree(old(Taken()), 0))
      ensures Taken() == Step(old(Taken()), Allocate)
    {
      var p := CheckFirstFreeMemory();
      SetBit(p);
      addr := GetAddrFromBit(p);
    }

    /** Takes `b` pages, one request each, and stores their addresses. */
    method AllocFreeBlocks(b: nat)
      requires Valid() && b <= 128
      modifies words, memBlock
      ensures Taken() == Requests(old(Taken()), b)
      ensures forall i :: 0 <= i < b ==> memBlock[i] == GetAddrFromBit(LowestPages(old(Taken()), b)[i])
      ensures forall i :: b <= i < 128 ==> memBlock[i] == old(memBlock[i])
    {
      hide Taken, LowestFree, Step, LowestPages;
      ghost var was := Taken();
      for i := 0 to b
        invariant Taken() == Requests(was, i)
        invariant forall j :: 0 <= j < i ==> memBlock[j] == GetAddrFromBit(LowestFree(Requests(was, j), 0))
        invariant forall j :: i <= j < 128 ==> memBlock[j] == old(memBlock[j])
      {
        memBlock[i] := AllocFreeMem();
      }
    }

    /** Any run of kmem_4k_allocate and free_mem_uint does to the map what the run of the set
        does; no page is lost or granted twice. */
    method RunOps(ops: seq<PageOp>) returns (addrs: seq<nat>)
      requires Valid() && FreesLivePages(Taken(), ops)
      modifies words
      ensures Taken() == Run(old(Taken()), ops) && addrs == PageGrants(old(Taken()), ops)
      ensures |Taken()| + Released(ops) == |old(Taken())| + Granted(old(Taken()), ops)
      decreases |ops|
    {
      RunConserves(Taken(), ops);
      hide Taken, Step;
      if ops == [] { return []; }
      match ops[0]
      case Allocate =>
        var addr := Kmem4kAllocate();
        var rest := RunOps(ops[1..]);
        addrs := [addr] + rest;
      case Free(addr) =>
        TakenInMap(GetBitFromAddr(addr));
        FreeMemUint(addr);
        addrs := RunOps(ops[1..]);
    }

    lemma TakenInMap(p: nat)
      requires Valid()
      ensures p in Taken() ==> p < PAGES
    {}
  }
}
