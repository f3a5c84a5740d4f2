/**
 * The physical page allocator: a bitmap with one bit per managed page. Pages are named by their
 * page number, the physical address without its twelve low bits.
 */
module PageAllocator {
  import opened Base

  /** A set within `lo..hi` has at most `hi - lo` members, fewer if it misses one of them. */
  lemma {:induction false} BoundedCard(s: set<nat>, lo: nat, hi: nat)
    requires lo <= hi && forall p | p in s :: lo <= p < hi
    ensures |s| <= hi - lo
    ensures forall p: nat | lo <= p < hi && p !in s :: |s| < hi - lo
    decreases hi
  {
    if lo < hi {
      BoundedCard(s - {hi - 1}, lo, hi - 1);
      if hi - 1 in s {
        assert forall p: nat | lo <= p < hi && p !in s :: p !in s - {hi - 1} && p < hi - 1;
      } else {
        assert s - {hi - 1} == s;
      }
    }
  }

  /** A set that holds all of a range has at least as many members. */
  lemma {:induction false} AllUsed(used: set<nat>, base: nat, total: nat)
    requires forall p: nat | base <= p < base + total :: p in used
    ensures |used| >= total
    decreases total
  {
    if total > 0 {
      AllUsed(used - {base + total - 1}, base, total - 1);
    }
  }

  /** The `n` pages from `start` all lie below `end` and none is used. */
  ghost predicate FreeRun(used: set<nat>, end: nat, start: nat, n: nat) {
    start + n <= end && forall p: nat | start <= p < start + n :: p !in used
  }

  /** Exactly the `n` pages from `start` have joined `before`. */
  ghost predicate RunTaken(before: set<nat>, after: set<nat>, start: nat, n: nat) {
    forall p: nat :: p in after <==> p in before || start <= p < start + n
  }

  class Pmm {
    const basePage: nat
    const totalPages: nat
    /** One bit per managed page, set when the page is taken. */
    var bitmap: seq<bool>
    var freePages: nat
    /** The pages marked in the bitmap. */
    ghost var used: set<nat>

    /** One past the last managed page. */
    ghost function End(): nat {
      basePage + totalPages
    }

    ghost predicate Valid()
      reads this
    {
      && |bitmap| == totalPages
      && 0 < basePage && basePage + totalPages < 0x100_0000_0000
      && (forall p: nat | basePage <= p < basePage + totalPages :: (p in used) == bitmap[p - basePage])
      && (forall p | p in used :: basePage <= p < basePage + totalPages)
      && freePages + |used| == totalPages
    }

    constructor (basePage: nat, totalPages: nat)
      requires 0 < basePage && basePage + totalPages < 0x100_0000_0000
      ensures Valid() && used == {}
      ensures this.basePage == basePage && this.totalPages == totalPages
    {
      this.basePage := basePage;
      this.totalPages := totalPages;
      this.bitmap := seq(totalPages, i => false);
      this.freePages := totalPages;
      this.used := {};
    }

    method BmGet(i: nat) returns (b: bool)
      requires Valid() && i < totalPages
      ensures b == (basePage + i in used)
    {
      b := bitmap[i];
    }

    /** Sets one clear bit and counts the page as taken. */
    method BmSet(i: nat)
      requires Valid() && i < totalPages && basePage + i !in used
      modifies this
      ensures Valid() && used == old(used) + {basePage + i} && freePages == old(freePages) - 1
    {
      BoundedCard(used, basePage, basePage + totalPages);
      bitmap := bitmap[i := true];
      freePages := freePages - 1;
      used := used + {basePage + i};
    }

    /** Clears one set bit and counts the page as free. */
    method BmClr(i: nat)
      requires Valid() && i < totalPages && basePage + i in used
      modifies this
      ensures Valid() && used == old(used) - {basePage + i} && freePages == old(freePages) + 1
    {
      bitmap := bitmap[i := false];
      freePages := freePages + 1;
      used := used - {basePage + i};
    }

    /** Takes the lowest free page; fails exactly when every page is in use. */
    method Alloc() returns (r: Result<nat>)
      requires Valid()
      modifies this
      ensures Valid() && (r.Ok? <==> old(freePages) > 0)
      ensures freePages == old(freePages) - if r.Ok? then 1 else 0
      ensures r.Err? ==> r.error == NoMem && used == old(used)
      ensures r.Err? ==> forall p: nat | basePage <= p < basePage + totalPages :: p in used
      ensures r.Ok? ==>
                && basePage <= r.value < basePage + totalPages
                && r.value !in old(used) && used == old(used) + {r.value}
                && forall p: nat | basePage <= p < r.value :: p in old(used)
    {
      var i := 0;
      while i < totalPages
        invariant i <= totalPages
        invariant forall p: nat | basePage <= p < basePage + i :: p in used
        invariant Valid() && used == old(used)
      {
        var taken := BmGet(i);
        if !taken {
          BmSet(i);
          return Ok(basePage + i);
        }
        i := i + 1;
      }
      AllUsed(used, basePage, totalPages);
      return Err(NoMem);
    }

    method TakeRun(start: nat, n: nat)
      requires Valid() && FreeRun(used, End(), basePage + start, n)
      modifies this
      ensures Valid() && RunTaken(old(used), used, basePage + start, n)
    {
      var k := start;
      while k < start + n
        invariant start <= k <= start + n
        invariant Valid() && RunTaken(old(used), used, basePage + start, k - start)
      {
        BmSet(k);
        k := k + 1;
      }
    }

    /** Takes the lowest run of `n` consecutive free pages; fails only when there is none. */
    method AllocN(n: nat) returns (r: Result<nat>)
      requires Valid()
      modifies this
      ensures Valid()
      ensures n == 0 <==> r == Err(Inval)
      ensures r.Err? ==> r.error in {Inval, NoMem} && used == old(used)
      ensures r == Err(NoMem) ==>
                forall s: nat | s >= basePage :: !FreeRun(used, End(), s, n)
      ensures r.Ok? ==>
                && r.value >= basePage
                && FreeRun(old(used), End(), r.value, n)
                && (forall s: nat | basePage <= s < r.value :: !FreeRun(old(used), End(), s, n))
                && RunTaken(old(used), used, r.value, n)
    {
      if n == 0 {
        return Err(Inval);
      }
      var run, start, i := 0, 0, 0;
      while i < totalPages
        invariant i <= totalPages && run <= i && run < n
        invariant Valid() && used == old(used)
        invariant run > 0 ==> start == i - run
        invariant forall p: nat | basePage + i - run <= p < basePage + i :: p !in used
        invariant run < i ==> basePage + i - run - 1 in used
        invariant forall s: nat | basePage <= s && s + n <= basePage + i :: !FreeRun(used, End(), s, n)
      {
        var taken := BmGet(i);
        if !taken {
          if run == 0 {
            start := i;
          }
          run := run + 1;
          if run == n {
            TakeRun(start, n);
            return Ok(basePage + start);
          }
        } else {
          run := 0;
        }
        i := i + 1;
      }
      return Err(NoMem);
    }

    /**
     * Gives a page back. A page outside the managed range and a page that is already free are
     * ignored.
     */
    method Free(page: nat)
      requires Valid()
      modifies this
      ensures Valid() && used == old(used) - {page}
    {
      if page >= basePage && page - basePage < totalPages {
        var taken := BmGet(page - basePage);
        if taken {
          BmClr(page - basePage);
        }
      }
    }
  }
}
