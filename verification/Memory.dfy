/** One page allocator under page clients and the slab allocator, over whole runs of their calls. */
module MemorySpec {
  import opened Base
  import opened PageAllocator
  import opened SlabSpec

  /** The slab state with the pages taken, those that page clients hold, and the managed range. */
  datatype Mem = Mem(s: State, held: set<nat>, base: nat, total: nat)

  /** A page in one of the slab lists. */
  predicate InSlab(s: State, p: nat) {
    exists c: nat :: c < |s.lists| && p in s.lists[c]
  }

  /** Every page taken is held by a page client or is a slab page, and never both. */
  ghost predicate MemInv(m: Mem) {
    && Inv(m.s) && (forall p | p in m.s.used :: m.base <= p < m.base + m.total)
    && (forall p: nat :: p in m.s.used <==> p in m.held || InSlab(m.s, p))
    && (forall p: nat | p in m.held :: !InSlab(m.s, p))
  }

  ghost function SlabPages(m: Mem): set<nat> {
    set p | p in m.s.used && InSlab(m.s, p)
  }

  /** The `n` pages from `start` on. */
  ghost function PageRun(start: nat, n: nat): (ps: set<nat>)
    ensures forall p: nat :: p in ps <==> start <= p < start + n
  {
    if n == 0 then {} else PageRun(start, n - 1) + {start + n - 1}
  }

  lemma RunIsTaken(before: set<nat>, after: set<nat>, start: nat, n: nat)
    requires RunTaken(before, after, start, n)
    ensures after == before + PageRun(start, n)
  {
    hide PageRun;
  }

  // ----- steps

  /** A call and what it did; a call that failed or ignored its argument did nothing. */
  datatype Step =
    | Nothing
    | TakePages(pages: set<nat>)
    | GivePage(page: nat)
    | TakeObject(kind: nat, page: nat, slot: nat)
    | GiveObject(kind: nat, page: nat, slot: nat, place: nat)

  ghost predicate Next(m: Mem, m': Mem, e: Step) {
    match e
    case Nothing => m' == m
    case TakePages(ps) =>
      && (forall p | p in ps :: p !in m.s.used && m.base <= p < m.base + m.total)
      && m' == m.(s := m.s.(used := m.s.used + ps), held := m.held + ps)
    case GivePage(p) => p in m.held && m' == m.(s := m.s.(used := m.s.used - {p}), held := m.held - {p})
    case TakeObject(c, p, k) => m' == m.(s := m'.s) && StepAlloc(m.s, m'.s, c, p, k) && m.base <= p < m.base + m.total
    case GiveObject(c, p, k, i) => m' == m.(s := m'.s) && StepFree(m.s, m'.s, c, p, k, i)
  }

  /** The slab lists do not notice pages that are in none of them. */
  lemma OtherPages(s: State, s': State)
    requires Inv(s) && s' == s.(used := s'.used) && forall p: nat | InSlab(s, p) :: p in s'.used
    ensures Inv(s') && forall p: nat :: InSlab(s', p) <==> InSlab(s, p)
  {
    forall c: nat | c < CLASSES
      ensures ListOk(s', c)
    {
      assert ListOk(s, c);
      forall i: nat | i < |s.lists[c]|
        ensures NodeOk(s', c, s.lists[c], i)
      {
        assert NodeOk(s, c, s.lists[c], i) && s.lists[c][i] in s.lists[c];
        assert InSlab(s, s.lists[c][i]);
      }
    }
    assert forall p: nat :: InSlab(s', p) <==> InSlab(s, p) by {
      assert s'.lists == s.lists;
    }
  }

  lemma TakeObjectPages(s: State, s': State, c: nat, p: nat, k: nat)
    requires Inv(s) && StepAlloc(s, s', c, p, k)
    ensures s'.used == s.used + {p} && forall q: nat :: InSlab(s', q) <==> InSlab(s, q) || q == p
  {
    forall q: nat
      ensures InSlab(s', q) <==> InSlab(s, q) || q == p
    {
      assert |s'.lists| == |s.lists| && p in s'.lists[c];
      if InSlab(s, q) {
        var d: nat :| d < |s.lists| && q in s.lists[d];
        assert q in s'.lists[d];
      }
      if InSlab(s', q) {
        var d: nat :| d < |s'.lists| && q in s'.lists[d];
        assert q == p || q in s.lists[d];
      }
    }
    if p in s.lists[c] {
      PageClass(s, c, p);
    }
  }

  lemma GiveObjectPages(s: State, s': State, c: nat, p: nat, k: nat, i: nat)
    requires Inv(s) && StepFree(s, s', c, p, k, i)
    ensures s'.used == s.used || s'.used == s.used - {p}
    ensures forall q: nat :: InSlab(s', q) <==> InSlab(s, q) && (q != p || p in s'.used)
  {
    PageClass(s, c, p);
    assert p in s.lists[c];
    if s.hdrs[p].freeCount + 1 < s.hdrs[p].capacity {
      assert s'.lists == s.lists && s'.used == s.used;
    } else {
      assert ListOk(s, c);
      StillDistinct(s.lists[c], i);
      assert s'.lists == s.lists[c := Without(s.lists[c], i)] && s'.used == s.used - {p};
      forall q: nat
        ensures InSlab(s', q) <==> InSlab(s, q) && q != p
      {
        ReleasedPages(s, s', c, p, i, q);
      }
    }
  }

  lemma ReleasedPages(s: State, s': State, c: nat, p: nat, i: nat, q: nat)
    requires Inv(s) && c < CLASSES && i < |s.lists[c]| && s.lists[c][i] == p
    requires s'.lists == s.lists[c := Without(s.lists[c], i)]
    requires p !in Without(s.lists[c], i) && forall q | q != p :: q in Without(s.lists[c], i) <==> q in s.lists[c]
    ensures InSlab(s', q) <==> InSlab(s, q) && q != p
  {
    if InSlab(s, q) && q != p {
      var d: nat :| d < |s.lists| && q in s.lists[d];
      assert q in s'.lists[d];
    }
    if InSlab(s', q) {
      var d: nat :| d < |s'.lists| && q in s'.lists[d];
      PageClass(s, c, p);
      assert q in s.lists[d];
      PageClass(s, d, q);
    }
  }

  /** Every call keeps page clients and slab apart. */
  lemma NextInv(m: Mem, m': Mem, e: Step)
    requires MemInv(m) && Next(m, m', e)
    ensures MemInv(m')
  {
    hide Inv, StepAlloc, StepFree;
    match e
    case Nothing =>
    case TakePages(ps) => OtherPages(m.s, m'.s);
    case GivePage(p) => OtherPages(m.s, m'.s);
    case TakeObject(c, p, k) => TakeObjectInv(m, m', c, p, k);
    case GiveObject(c, p, k, i) => GiveObjectInv(m, m', c, p, k, i);
  }

  lemma TakeObjectInv(m: Mem, m': Mem, c: nat, p: nat, k: nat)
    requires MemInv(m) && Next(m, m', TakeObject(c, p, k))
    ensures MemInv(m')
  {
    hide Inv, StepAlloc, InSlab;
    StepAllocInv(m.s, m'.s, c, p, k);
    TakeObjectPages(m.s, m'.s, c, p, k);
    TakeObjectFresh(m, m', c, p, k);
  }

  lemma GiveObjectInv(m: Mem, m': Mem, c: nat, p: nat, k: nat, i: nat)
    requires MemInv(m) && Next(m, m', GiveObject(c, p, k, i))
    ensures MemInv(m')
  {
    assert InSlab(m.s, p);
    hide Inv, StepFree, InSlab;
    StepFreeInv(m.s, m'.s, c, p, k, i);
    GiveObjectPages(m.s, m'.s, c, p, k, i);
  }

  /** The page of an object handed out is nobody else's. */
  lemma TakeObjectFresh(m: Mem, m': Mem, c: nat, p: nat, k: nat)
    requires MemInv(m) && StepAlloc(m.s, m'.s, c, p, k)
    ensures p !in m.held
  {
    if p in m.s.lists[c] {
      assert InSlab(m.s, p);
    }
  }

  // ----- runs

  ghost predicate IsRun(run: seq<Mem>, steps: seq<Step>) {
    |run| == |steps| + 1 && MemInv(run[0]) && forall i: nat | i < |steps| :: Next(run[i], run[i + 1], steps[i])
  }

  lemma {:induction false} RunInv(run: seq<Mem>, steps: seq<Step>, i: nat)
    requires IsRun(run, steps) && i < |run|
    ensures MemInv(run[i])
  {
    if i > 0 {
      RunInv(run, steps, i - 1);
      assert Next(run[i - 1], run[(i - 1) + 1], steps[i - 1]);
      NextInv(run[i - 1], run[i], steps[i - 1]);
    }
  }

  /** No two objects overlap, and none lies in a page that a page client holds. */
  ghost predicate AllDisjoint(m: Mem) {
    && (forall c: nat, p: nat, k: nat | Live(m.s, c, p, k) :: p !in m.held)
    && forall c: nat, p: nat, k: nat, c': nat, p': nat, k': nat
         | Live(m.s, c, p, k) && Live(m.s, c', p', k') && (c, p, k) != (c', p', k') ::
         Address(c, p, k) + ObjSize(c) <= Address(c', p', k') || Address(c', p', k') + ObjSize(c') <= Address(c, p, k)
  }

  /** A class without an object has no page. */
  ghost predicate NoIdlePage(m: Mem) {
    forall c: nat | c < CLASSES == |m.s.lists| && m.s.lists[c] != [] :: exists p: nat, k: nat :: Live(m.s, c, p, k)
  }

  /**
   * At every state of every run of page and slab calls: the pages add up, no memory is handed out
   * twice, and no class keeps a page without an object.
   */
  lemma RunMeans(run: seq<Mem>, steps: seq<Step>, i: nat)
    requires IsRun(run, steps) && i < |run|
    ensures var m := run[i];
            && |m.s.used| == |m.held| + |SlabPages(m)| && m.held !! SlabPages(m)
            && AllDisjoint(m) && NoIdlePage(m)
  {
    var m := run[i];
    RunInv(run, steps, i);
    assert m.s.used == m.held + SlabPages(m);
    Disjoint(m);
    NoIdle(m);
  }

  lemma Disjoint(m: Mem)
    requires MemInv(m)
    ensures AllDisjoint(m)
  {
    forall c: nat, p: nat, k: nat | Live(m.s, c, p, k)
      ensures p !in m.held
    {
      assert InSlab(m.s, p);
    }
    forall c: nat, p: nat, k: nat, c': nat, p': nat, k': nat
      | Live(m.s, c, p, k) && Live(m.s, c', p', k') && (c, p, k) != (c', p', k')
      ensures Address(c, p, k) + ObjSize(c) <= Address(c', p', k')
              || Address(c', p', k') + ObjSize(c') <= Address(c, p, k)
    {
      LiveDisjoint(m.s, c, p, k, c', p', k');
    }
  }

  lemma NoIdle(m: Mem)
    requires MemInv(m)
    ensures NoIdlePage(m)
  {
    forall c: nat | c < CLASSES && m.s.lists[c] != []
      ensures exists p: nat, k: nat :: Live(m.s, c, p, k)
    {
      if forall p: nat, k: nat :: !Live(m.s, c, p, k) {
        NoObjectNoPage(m.s, c);
      }
    }
  }

  /** When all pages and objects have been given back, every page is free again. */
  lemma AllReturned(run: seq<Mem>, steps: seq<Step>, i: nat)
    requires IsRun(run, steps) && i < |run|
    requires run[i].held == {} && forall c: nat, p: nat, k: nat :: !Live(run[i].s, c, p, k)
    ensures run[i].s.used == {}
  {
    var m := run[i];
    RunMeans(run, steps, i);
    RunInv(run, steps, i);
    assert forall c: nat | c < CLASSES :: m.s.lists[c] == [];
    assert forall p: nat :: !InSlab(m.s, p);
  }
}

/** The kernel's memory calls on one page allocator. */
module Memory {
  import opened Base
  import opened PageAllocator
  import opened SlabSpec
  import opened Slab
  import opened MemorySpec

  class KernelMemory {
    const slab: Slab
    /** The pages that page clients hold. */
    ghost var held: set<nat>

    ghost function M(): Mem
      reads this, slab, slab.pmm
    {
      Mem(slab.S(), held, slab.pmm.basePage, slab.pmm.totalPages)
    }

    ghost predicate Valid()
      reads this, slab, slab.pmm
    {
      slab.Valid() && MemInv(M())
    }

    constructor (slab: Slab)
      requires slab.Valid() && forall c: nat, p: nat, k: nat :: !Live(slab.S(), c, p, k)
      ensures Valid() && this.slab == slab && held == slab.pmm.used
    {
      this.slab, this.held := slab, slab.pmm.used;
      new;
      forall c: nat | c < CLASSES
        ensures slab.lists[c] == []
      {
        NoObjectNoPage(slab.S(), c);
      }
      assert forall p: nat :: !InSlab(slab.S(), p);
    }

    /** The free count is what neither page clients nor the slab have. */
    lemma FreeCount()
      requires Valid()
      ensures slab.pmm.freePages + |held| + |SlabPages(M())| == slab.pmm.totalPages
    {
      assert M().s.used == held + SlabPages(M()) && held !! SlabPages(M());
    }

    method AllocPage() returns (r: Result<nat>, ghost e: Step)
      requires Valid()
      modifies this, slab.pmm
      ensures Valid() && Next(old(M()), M(), e)
      ensures r.Ok? ==> e == TakePages({r.value})
      ensures r.Err? ==> e == Nothing && r.error == NoMem && slab.pmm.freePages == 0
    {
      ghost var m := M();
      r := slab.pmm.Alloc();
      if r.Ok? {
        held := held + {r.value};
        e := TakePages({r.value});
      } else {
        e := Nothing;
      }
      NextInv(m, M(), e);
    }

    method AllocPages(n: nat) returns (r: Result<nat>, ghost e: Step)
      requires Valid()
      modifies this, slab.pmm
      ensures Valid() && Next(old(M()), M(), e)
      ensures r.Ok? ==> e == TakePages(PageRun(r.value, n))
      ensures r.Err? ==> e == Nothing
    {
      hide PageRun, Inv, RunTaken;
      ghost var m := M();
      r := slab.pmm.AllocN(n);
      if r.Ok? {
        RunIsTaken(m.s.used, slab.pmm.used, r.value, n);
        held := held + PageRun(r.value, n);
        e := TakePages(PageRun(r.value, n));
      } else {
        e := Nothing;
      }
      NextInv(m, M(), e);
    }

    /** Gives a page back; one that nobody has is ignored. */
    method FreePage(page: nat) returns (ghost e: Step)
      requires Valid() && !InSlab(slab.S(), page)
      modifies this, slab.pmm
      ensures Valid() && Next(old(M()), M(), e)
      ensures e == if page in old(held) then GivePage(page) else Nothing
    {
      ghost var m := M();
      slab.pmm.Free(page);
      e := if page in held then GivePage(page) else Nothing;
      held := held - {page};
      NextInv(m, M(), e);
    }

    method AllocObject(size: nat) returns (r: Option<nat>, ghost e: Step)
      requires Valid()
      modifies slab, slab.pmm
      ensures Valid() && Next(old(M()), M(), e)
      ensures r.Some? ==>
                && e.TakeObject? && ClassFor(size) == Some(e.kind)
                && r.value == Address(e.kind, e.page, e.slot) && !Live(old(slab.S()), e.kind, e.page, e.slot)
      ensures r.None? ==> e == Nothing
    {
      ghost var m, c, p, k := M(), 0, 0, 0;
      r, c, p, k := slab.Alloc(size);
      e := if r.Some? then TakeObject(c, p, k) else Nothing;
      if r.Some? {
        TakeObjectPages(m.s, slab.S(), c, p, k);
      }
      NextInv(m, M(), e);
    }

    method FreeObject(ptr: nat, ghost c: nat, ghost p: nat, ghost k: nat) returns (b: bool, ghost e: Step)
      requires Valid() && ptr < WORD && (Names(slab.hdrs, ptr) ==> Live(slab.S(), c, p, k) && ptr == Address(c, p, k))
      modifies slab, slab.pmm
      ensures Valid() && Next(old(M()), M(), e)
      ensures b == Names(old(slab.hdrs), ptr)
      ensures if b then e.GiveObject? && (e.kind, e.page, e.slot) == (c, p, k) else e == Nothing
    {
      ghost var m, i := M(), 0;
      b, i := slab.Free(ptr, c, p, k);
      e := if b then GiveObject(c, p, k, i) else Nothing;
      NextInv(m, M(), e);
    }
  }
}
