/** The physical page allocator: one bit per 4096-byte page, set while the page is in use. */
module Pmm {
  // ---- Bits of a bitmap byte ----

  /** `1 << i` */
  function Mask(i: nat): bv8
    requires i < 8
  {
    if i == 0 then 1 else if i == 1 then 2 else if i == 2 then 4 else if i == 3 then 8
    else if i == 4 then 16 else if i == 5 then 32 else if i == 6 then 64 else 128
  }

  predicate InUse(b: bv8, i: nat)
    requires i < 8
  {
    b & Mask(i) != 0
  }

  lemma SetBit(b: bv8, i: nat, j: nat)
    requires i < 8 && j < 8
    ensures InUse(b | Mask(i), j) <==> i == j || InUse(b, j)
  {
    assert b | Mask(i) == b | Mask(i);
  }

  lemma ClearBit(b: bv8, i: nat, j: nat)
    requires i < 8 && j < 8
    ensures InUse(b & !Mask(i), j) <==> i != j && InUse(b, j)
  {
  }

  lemma AllSet(j: nat)
    requires j < 8
    ensures InUse(0xFF, j)
  {
  }

  function U64(x: int): (r: nat)
    ensures r < 0x1_0000_0000_0000_0000
    ensures 0 <= x < 0x1_0000_0000_0000_0000 ==> r == x
  {
    x % 0x1_0000_0000_0000_0000
  }

  // ---- Sets of pages ----

  /**
   * The set is the pages from `k` up to `lim`, and those in `tail` above: what memory looks like while
   * pages are only allocated. Beyond `lim` it is some of `tail`.
   */
  ghost predicate IsUpper(s: set<nat>, k: nat, lim: nat, tail: set<nat>) {
    && (forall p :: p in tail ==> lim <= p)
    && (forall p :: p in s ==> p in tail || k <= p < lim)
    && (k <= lim ==> forall p: nat :: p in tail || k <= p < lim ==> p in s)
  }

  predicate Least(p: nat, s: set<nat>) {
    p in s && forall q :: q in s ==> p <= q
  }

  /** Taking the least page of an upper interval leaves an upper interval. */
  lemma UpperTake(s: set<nat>, k: nat, lim: nat, tail: set<nat>, p: nat)
    requires IsUpper(s, k, lim, tail) && Least(p, s)
    ensures k < lim ==> p == k
    ensures IsUpper(s - {p}, k + 1, lim, tail)
  {
    assert k < lim ==> k in s;
  }

  /** The start of an upper interval has moved up by `n`. */
  ghost predicate MovedUp(before: set<nat>, after: set<nat>, n: nat) {
    forall k: nat, lim: nat, tail :: IsUpper(before, k, lim, tail) ==> IsUpper(after, k + n, lim, tail)
  }

  /** `n` pages went, the least ones. */
  ghost predicate Took(before: set<nat>, after: set<nat>, n: nat) {
    after <= before && |before| == |after| + n && MovedUp(before, after, n)
  }

  lemma TookNothing(s: set<nat>)
    ensures Took(s, s, 0)
  {
  }

  lemma TookLeast(s: set<nat>, page: nat)
    requires Least(page, s)
    ensures Took(s, s - {page}, 1)
  {
    forall k: nat, lim: nat, tail | IsUpper(s, k, lim, tail)
      ensures IsUpper(s - {page}, k + 1, lim, tail)
    {
      UpperTake(s, k, lim, tail, page);
    }
  }

  lemma TookTwice(s: set<nat>, t: set<nat>, u: set<nat>, m: nat, n: nat)
    requires Took(s, t, m) && Took(t, u, n)
    ensures Took(s, u, m + n)
  {
    hide IsUpper;
    forall k: nat, lim: nat, tail | IsUpper(s, k, lim, tail)
      ensures IsUpper(u, k + (m + n), lim, tail)
    {
      assert IsUpper(t, k + m, lim, tail);
      assert k + (m + n) == k + m + n;
    }
  }

  /** How many pages an upper interval has at least. */
  lemma {:induction false} UpperSize(s: set<nat>, k: nat, lim: nat, tail: set<nat>)
    requires IsUpper(s, k, lim, tail) && k <= lim
    ensures |s| >= lim - k
    decreases lim - k
  {
    if k < lim {
      UpperSize(s - {k}, k + 1, lim, tail);
    }
  }

  class Allocator {
    const bitmap: array<bv8>
    const maxPages: nat
    const base: nat

    ghost predicate Valid() {
      bitmap.Length == (maxPages + 7) / 8
    }

    /** The pages whose bit is clear. */
    ghost function Free(): set<nat>
      requires Valid()
      reads bitmap
    {
      set p: nat | p < maxPages && !InUse(bitmap[p / 8], p % 8)
    }

    function Addr(p: nat): nat {
      base + p * 4096
    }

    /** `PMM_Init`: every page starts in use. */
    constructor (memSize: nat, base: nat)
      ensures Valid() && fresh(bitmap) && this.base == base && maxPages == memSize / 4096
      ensures Free() == {}
    {
      maxPages := memSize / 4096;
      this.base := base;
      bitmap := new bv8[(memSize / 4096 + 7) / 8];
      new;
      for i := 0 to (maxPages + 7) / 8
        invariant forall k :: 0 <= k < i ==> bitmap[k] == 0xFF
      {
        bitmap[i] := 0xFF;
      }
      forall p: nat | p < maxPages
        ensures InUse(bitmap[p / 8], p % 8)
      {
        AllSet(p % 8);
      }
    }

    method MarkFree(page: nat)
      requires Valid() && page < maxPages
      modifies bitmap
      ensures Free() == old(Free()) + {page}
    {
      ghost var was := bitmap[..];
      bitmap[page / 8] := bitmap[page / 8] & !Mask(page % 8);
      forall p: nat | p < maxPages
        ensures InUse(bitmap[p / 8], p % 8) <==> p != page && InUse(was[p / 8], p % 8)
      {
        if p / 8 == page / 8 {
          ClearBit(was[p / 8], page % 8, p % 8);
        }
      }
    }

    method MarkUsed(page: nat)
      requires Valid() && page < maxPages
      modifies bitmap
      ensures Free() == old(Free()) - {page}
    {
      ghost var was := bitmap[..];
      bitmap[page / 8] := bitmap[page / 8] | Mask(page % 8);
      forall p: nat | p < maxPages
        ensures InUse(bitmap[p / 8], p % 8) <==> p == page || InUse(was[p / 8], p % 8)
      {
        if p / 8 == page / 8 {
          SetBit(was[p / 8], page % 8, p % 8);
        }
      }
    }

    /** Something else is stored over byte `i` of the bitmap. */
    method Overwrite(i: nat, b: bv8)
      requires Valid() && i < bitmap.Length
      modifies bitmap
      ensures forall p: nat :: p in Free() <==>
        p < maxPages && (if p / 8 == i then !InUse(b, p % 8) else p in old(Free()))
    {
      bitmap[i] := b;
    }

    /** `PMM_FreePages`: the range is cut at the end of memory, and touches nothing else. */
    method FreePages(addr: nat, count: nat)
      requires Valid()
      modifies bitmap
      ensures var start := U64(addr - base) / 4096;
        forall p: nat :: p in Free() <==> p in old(Free()) || (start <= p < start + count && p < maxPages)
    {
      var start := U64(addr - base) / 4096;
      var i := 0;
      while i < count
        invariant i <= count
        invariant forall p: nat :: p in Free() <==> p in old(Free()) || (start <= p < start + i && p < maxPages)
      {
        var page := start + i;
        if page >= maxPages {
          break;
        }
        MarkFree(page);
        i := i + 1;
      }
    }

    /** `PMM_FreePage`: an address outside the region is ignored. */
    method FreePage(addr: nat)
      requires Valid()
      modifies bitmap
      ensures var page := U64(addr - base) / 4096;
        Free() == if page < maxPages then old(Free()) + {page} else old(Free())
    {
      var page := U64(addr - base) / 4096;
      if page < maxPages {
        MarkFree(page);
      }
    }

    /**
     * `PMM_AllocatePage`: the least free page, which is then in use; NULL, with nothing changed,
     * exactly when no page is free.
     */
    method AllocatePage() returns (addr: nat, ghost page: nat)
      requires Valid()
      modifies bitmap
      ensures old(Free()) == {} ==> addr == 0 && Free() == {}
      ensures old(Free()) != {} ==> Least(page, old(Free())) && page < maxPages && addr == Addr(page)
      ensures old(Free()) != {} ==> Free() == old(Free()) - {page}
      ensures Took(old(Free()), Free(), if old(Free()) == {} then 0 else 1)
    {
      hide MovedUp;
      ghost var free := Free();
      page := 0;
      for i := 0 to maxPages
        invariant forall p: nat :: p < i ==> p !in free
        invariant Free() == free
      {
        if !InUse(bitmap[i / 8], i % 8) {
          page := i;
          assert i in free;
          MarkUsed(i);
          TookLeast(free, i);
          return base + i * 4096, page;
        }
      }
      addr := 0;
      TookNothing(free);
    }
  }

  // ---- The bitmap's own pages ----

  function BitmapBytes(maxPages: nat): nat {
    (maxPages + 7) / 8
  }

  /** Pages `kernel_main` keeps back for the bitmap. */
  function BitmapPages(maxPages: nat): nat {
    var n := (maxPages / 8 + 4095) / 4096;
    if n == 0 then 1 else n
  }

  predicate BitmapFits(maxPages: nat) {
    BitmapBytes(maxPages) <= 4096 * BitmapPages(maxPages)
  }

  /** The pages kept back hold the bitmap except when up to seven pages spill over a full last one. */
  lemma BitmapFitsIff(maxPages: nat)
    ensures BitmapFits(maxPages) <==> maxPages < 32768 || maxPages % 32768 !in {1, 2, 3, 4, 5, 6, 7}
    ensures !BitmapFits(maxPages) ==>
      && BitmapBytes(maxPages) == 4096 * BitmapPages(maxPages) + 1
      && 32768 * BitmapPages(maxPages) < maxPages < 32768 * BitmapPages(maxPages) + 8
  {
    var q, r := maxPages / 32768, maxPages % 32768;
    assert maxPages == 32768 * q + r;
    assert maxPages / 8 == 4096 * q + r / 8;
    assert (maxPages + 7) / 8 == 4096 * q + (r + 7) / 8;
    assert (maxPages / 8 + 4095) / 4096 == q + (r / 8 + 4095) / 4096;
  }

  /** Where they do not, the spilled byte lies in the first page the allocator hands out. */
  lemma SpillIsInFirstPage(maxPages: nat)
    requires !BitmapFits(maxPages)
    ensures (BitmapBytes(maxPages) - 1) / 4096 == BitmapPages(maxPages)
    ensures (BitmapBytes(maxPages) - 1) % 4096 == 0
  {
    BitmapFitsIff(maxPages);
  }
}
