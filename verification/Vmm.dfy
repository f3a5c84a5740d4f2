/** The virtual memory manager: walking, splitting and mapping over tables that live in pages. */
module Vmm {
  import opened Base
  import opened PageAllocator
  import opened PageTables
  import opened Teardown
  import opened AddressSpaces

  /** The coarsest level whose pieces fit the rest of a mapping. */
  function BestLevel(va: nat, pa: nat, remaining: nat): (level: nat)
    requires va % 0x1000 == 0 && pa % 0x1000 == 0
    ensures level <= 2 && va % Size(level) == 0 && pa % Size(level) == 0
    ensures level > 0 ==> Size(level) <= remaining
    ensures forall l: nat | level < l <= 2 :: va % Size(l) != 0 || pa % Size(l) != 0 || remaining < Size(l)
  {
    if remaining >= 0x4000_0000 && va % 0x4000_0000 == 0 && pa % 0x4000_0000 == 0 then 2
    else if remaining >= 0x20_0000 && va % 0x20_0000 == 0 && pa % 0x20_0000 == 0 then 1
    else 0
  }

  /** A size in whole pages. */
  function PageRound(size: nat): (n: nat)
    ensures size <= n < size + 0x1000 && n % 0x1000 == 0
  {
    (size + 0xFFF) / 0x1000 * 0x1000
  }

  predicate Aligned(x: nat) {
    x % 0x1000 == 0
  }

  /**
   * Taking a whole piece off a range keeps the rest aligned and takes it off the whole pages; the
   * last piece is all of them.
   */
  lemma PieceFits(va: nat, pa: nat, remaining: nat, piece: nat)
    requires Aligned(va) && Aligned(pa) && Aligned(piece)
    requires 0 < remaining && (piece <= remaining || piece == 0x1000)
    ensures Aligned(va + piece) && Aligned(pa + piece)
    ensures piece <= remaining ==> piece + PageRound(remaining - piece) == PageRound(remaining)
    ensures piece >= remaining ==> piece == PageRound(remaining)
  {
  }

  /** One page is taken, or there was none. */
  ghost predicate PageTaken(before: nat, after: nat, ok: bool) {
    if ok then before == after + 1 else before == after == 0
  }

  /** No entry points at a lower table. */
  predicate NoTables(entries: seq<Pte>) {
    forall k: nat | k < |entries| :: !entries[k].IsTable()
  }

  /** The tables between the root and a level that are not there for `va`. */
  function Missing(ts: Tables, root: nat, va: nat, level: nat): nat {
    (if level < 2 && TableAt(ts, root, 2, va, 1).None? then 1 else 0)
    + (if level < 1 && TableAt(ts, root, 2, va, 0).None? then 1 else 0)
  }

  /** A walk has found the old path down to a level, or is in a table that points at no other. */
  ghost predicate OnPath(m: Memory, m': Memory, root: nat, va: nat, level: nat, table: nat) {
    level <= 2 &&
    match TableAt(m.tables, root, 2, va, level)
    case Some(t) => t == table && m' == m
    case None => table in m'.tables && NoTables(m'.tables[table])
  }

  /** What one level of a walk with `create` does to memory, to the free pages and to the path. */
  ghost predicate Stepped(m: Memory, m': Memory, t: nat, i: nat, before: nat, after: nat, r: Result<nat>)
    requires t in m.tables && i < |m.tables[t]|
  {
    if m.tables[t][i].IsTable() then r == Ok(m.tables[t][i].ppn) && m' == m && after == before
    else PageTaken(before, after, r.Ok?) && (r.Ok? ==> r.value in m'.tables && NoTables(m'.tables[r.value]))
  }

  lemma LinkedFresh(m: Memory, t: nat, i: nat, page: nat, entries: seq<Pte>)
    requires LinkOk(m, t, i, page, entries)
    ensures var ts := Linked(m, t, i, page, entries).tables; page in ts && NoTables(ts[page])
  {
  }

  lemma LookupStep(ts: Tables, t: nat, level: nat, va: nat)
    requires t in ts && |ts[t]| == PTES && level > 0
    ensures var e := ts[t][Idx(va, level)];
            if e.IsTable() then Lookup(ts, t, level, va) == Lookup(ts, e.ppn, level - 1, va)
            else Lookup(ts, t, level, va).Some? <==> e.IsValid()
  {
  }

  lemma MissingMore(ts: Tables, root: nat, va: nat, level: nat, low: nat)
    requires low <= level
    ensures Missing(ts, root, va, level) <= Missing(ts, root, va, low)
  {
  }

  lemma StepCounted(m: Memory, m1: Memory, m': Memory, root: nat, va: nat, level: nat, t: nat,
                    start: nat, before: nat, after: nat, r: Result<nat>)
    requires 0 < level <= 2 && OnPath(m, m1, root, va, level, t)
    requires t in m1.tables && |m1.tables[t]| == PTES
    requires Stepped(m1, m', t, Idx(va, level), before, after, r)
    requires start == before + Missing(m.tables, root, va, level)
    ensures if r.Ok? then
              OnPath(m, m', root, va, level - 1, r.value) && start == after + Missing(m.tables, root, va, level - 1)
            else after == 0 && start < Missing(m.tables, root, va, level - 1)
  {
    PathNext(m.tables, root, 2, va, level);
    if level == 1 {
      PathNext(m.tables, root, 2, va, 2);
    }
  }

  /** A walk takes exactly the missing tables, and fails exactly when there are too few free pages. */
  ghost predicate Supplied(ts: Tables, root: nat, va: nat, level: nat, before: nat, after: nat, ok: bool) {
    var missing := Missing(ts, root, va, level);
    (ok <==> missing <= before) && after == if ok then before - missing else 0
  }

  lemma NoPages()
    ensures PageRound(0) == 0
  {
  }

  lemma SetCount(s: set<nat>, t: set<nat>, x: nat)
    requires t <= s && x in s && x !in t
    ensures |t + {x}| == |t| + 1 && |s - (t + {x})| == |s| - |t + {x}|
  {
    assert |s| == |s - (t + {x})| + |t + {x}|;
  }

  lemma OneMore(used: set<nat>, below: set<nat>, x: nat)
    requires x !in below
    ensures used - below - {x} == used - (below + {x}) && |below + {x}| == |below| + 1
  {
  }

  class Vmm {
    const pmm: Pmm
    /** Physical pages read as page tables. */
    var tables: Tables
    /** Physical pages read as bytes. */
    var data: Bytes
    /** The tables in use: level and referencing slot of each. */
    ghost var shape: Shape
    /** The slot of each user page. */
    ghost var leaves: Leaves

    constructor (pmm: Pmm)
      requires pmm.Valid()
      ensures this.pmm == pmm && Valid() && shape == map[] && Owned(M())
    {
      this.pmm := pmm;
      tables, data, shape, leaves := map[], map[], map[], map[];
    }

    /** The memory as a value. */
    ghost function M(): Memory
      reads this, pmm
    {
      Memory(pmm.used, tables, data, shape, leaves)
    }

    ghost predicate Valid()
      reads this, pmm
    {
      pmm.Valid() && Sound(M())
    }

    ghost predicate IsRoot(root: nat)
      reads this
    {
      root in shape && shape[root].level == 2
    }

    /** Takes a free page and zeroes it. */
    method AllocZero() returns (r: Result<nat>)
      requires Valid()
      modifies this, pmm
      ensures pmm.Valid() && PageTaken(old(pmm.freePages), pmm.freePages, r.Ok?)
      ensures r.Err? ==> r.error == NoMem && M() == old(M())
      ensures r.Ok? ==>
                && r.value !in old(pmm.used) && 0 < r.value < PPN_LIMIT
                && M() == Memory(old(pmm.used) + {r.value}, old(tables)[r.value := ZeroTable],
                                 old(data)[r.value := ZeroPage()], old(shape), old(leaves))
    {
      r := pmm.Alloc();
      if r.Ok? {
        tables := tables[r.value := ZeroTable];
        data := data[r.value := ZeroPage()];
      }
    }

    /** Writes the 512 pieces of leaf `e` into a page. */
    method FillSplit(page: nat, e: Pte, level: nat)
      requires page in tables && |tables[page]| == PTES && 0 < level
      modifies this`tables
      ensures tables == old(tables)[page := SplitEntries(e, level)]
    {
      var k := 0;
      while k < PTES
        invariant k <= PTES
        invariant page in tables && |tables[page]| == PTES
        invariant forall j: nat | j < k :: tables[page][j] == SplitEntries(e, level)[j]
        invariant tables == old(tables)[page := tables[page]]
      {
        tables := tables[page := tables[page][k := ValidPte(e.flags, e.ppn + k * Span(level - 1))]];
        k := k + 1;
      }
      assert tables[page] == SplitEntries(e, level);
    }

    /**
     * Splits the leaf at slot `i` of `t` into a table of 512 leaves one level down, and hangs the
     * table in its place.
     */
    method SplitLeaf(t: nat, i: nat, level: nat) returns (r: Result<nat>)
      requires Valid() && t in shape && shape[t].level == level && 0 < level && i < PTES
      requires tables[t][i].IsValid() && tables[t][i].IsLeaf()
      modifies this, pmm
      ensures pmm.Valid() && PageTaken(old(pmm.freePages), pmm.freePages, r.Ok?)
      ensures r.Err? ==> r.error == NoMem && M() == old(M())
      ensures r.Ok? ==>
                && LinkOk(old(M()), t, i, r.value, SplitEntries(old(tables)[t][i], level))
                && M() == Linked(old(M()), t, i, r.value, SplitEntries(old(tables)[t][i], level))
    {
      var e := tables[t][i];
      ghost var m := M();
      hide Forest, ShowsSame, SplitEntries;
      r := AllocZero();
      if r.Err? {
        return;
      }
      var page := r.value;
      SplitLinkOk(m, t, i, page);
      FillSplit(page, e, level);
      tables := tables[t := tables[t][i := ValidPte(NoFlags, page)]];
      shape := shape[page := Node(level - 1, t, i)];
      assert tables == Link(m.tables, t, i, page, SplitEntries(e, level));
    }

    /** Hangs a zeroed table at the empty slot `i` of `t`. */
    method GrowTable(t: nat, i: nat, level: nat) returns (r: Result<nat>)
      requires Valid() && t in shape && shape[t].level == level && 0 < level && i < PTES
      requires !tables[t][i].IsValid()
      modifies this, pmm
      ensures pmm.Valid() && PageTaken(old(pmm.freePages), pmm.freePages, r.Ok?)
      ensures r.Err? ==> r.error == NoMem && M() == old(M())
      ensures r.Ok? ==>
                && LinkOk(old(M()), t, i, r.value, ZeroTable)
                && M() == Linked(old(M()), t, i, r.value, ZeroTable)
    {
      ghost var m := M();
      hide ShowsSame;
      r := AllocZero();
      if r.Err? {
        return;
      }
      var page := r.value;
      ZeroLinkOk(m, t, i, page);
      tables := tables[t := tables[t][i := ValidPte(NoFlags, page)]];
      shape := shape[page := Node(level - 1, t, i)];
      assert tables == Link(m.tables, t, i, page, ZeroTable);
    }

    /** One level of a walk: the table below slot `i` of `t`, made or split off when it is missing. */
    method Descend(t: nat, i: nat, level: nat, create: bool) returns (r: Result<nat>)
      requires Valid() && t in shape && shape[t].level == level && 0 < level && i < PTES
      modifies this, pmm
      ensures pmm.Valid() && Invisible(old(M()), M())
      ensures !create ==> M() == old(M())
      ensures !create ==> (r.Ok? <==> tables[t][i].IsTable())
      ensures r.Err? ==> r.error == if create then NoMem else if tables[t][i].IsValid() then Inval else NoEnt
      ensures create ==> Stepped(old(M()), M(), t, i, old(pmm.freePages), pmm.freePages, r)
      ensures r.Ok? ==>
                && t in shape && tables[t][i].IsTable() && r.value == tables[t][i].ppn
                && r.value in shape && shape[r.value].level == level - 1
      ensures forall u | u in old(shape) && u != t :: u in tables && tables[u] == old(tables)[u]
    {
      var e := tables[t][i];
      ghost var m := M();
      assert EntryOk(tables, shape, t, i);
      assert Invisible(m, m);
      hide SameViews, DistinctUserPages, ValidPte, ShowsSame, EntryOk;
      if !e.IsValid() {
        if !create {
          return Err(NoEnt);
        }
        r := GrowTable(t, i, level);
        if r.Ok? {
          LinkInvisible(m, t, i, r.value, ZeroTable);
          LinkedFresh(m, t, i, r.value, ZeroTable);
        }
      } else if e.IsLeaf() {
        if !create {
          return Err(Inval);
        }
        r := SplitLeaf(t, i, level);
        if r.Ok? {
          LinkInvisible(m, t, i, r.value, SplitEntries(e, level));
          LinkedFresh(m, t, i, r.value, SplitEntries(e, level));
        }
      } else {
        return Ok(e.ppn);
      }
    }

    /**
     * Finds the slot for `va` at `leafLevel`. With `create`, missing tables are made and leaves in
     * the way are split; no address of any address space changes its translation or its flags,
     * whether the walk succeeds or runs out of memory half way. It takes exactly one page for each
     * missing table, and fails exactly when there are too few. Without `create` nothing changes.
     */
    method Walk(root: nat, va: nat, leafLevel: nat, create: bool) returns (r: Result<(nat, nat)>)
      requires Valid() && IsRoot(root) && leafLevel <= 2
      modifies this, pmm
      ensures pmm.Valid() && Invisible(old(M()), M())
      ensures !create ==> M() == old(M())
      ensures !create ==> (r.Ok? <==> TableAt(tables, root, 2, va, leafLevel).Some?)
      ensures !create && r.Err? ==> r.error == if Lookup(tables, root, 2, va).Some? then Inval else NoEnt
      ensures create ==> Supplied(old(tables), root, va, leafLevel, old(pmm.freePages), pmm.freePages, r.Ok?)
      ensures create && r.Err? ==> r.error == NoMem
      ensures r.Ok? ==>
                && TableAt(tables, root, 2, va, leafLevel) == Some(r.value.0)
                && r.value.0 in shape && shape[r.value.0].level == leafLevel
                && r.value.1 == Idx(va, leafLevel)
    {
      var table, level := root, 2;
      while level > leafLevel
        invariant leafLevel <= level <= 2
        invariant pmm.Valid() && Invisible(old(M()), M())
        invariant !create ==> M() == old(M())
        invariant IsRoot(root) && table in shape && shape[table].level == level
        invariant TableAt(tables, root, 2, va, level) == Some(table)
        invariant !create ==> Lookup(tables, table, level, va) == Lookup(tables, root, 2, va)
        invariant create ==> OnPath(old(M()), M(), root, va, level, table)
        invariant create ==> old(pmm.freePages) == pmm.freePages + Missing(old(tables), root, va, level)
      {
        hide Forest, SameViews, Owned, Idx, Pte.IsTable, OnPath, Stepped, Missing, Lookup;
        ghost var m, free := M(), pmm.freePages;
        LookupStep(tables, table, level, va);
        var next := Descend(table, Idx(va, level), level, create);
        if create {
          StepCounted(old(M()), m, M(), root, va, level, table, old(pmm.freePages), free, pmm.freePages, next);
          MissingMore(old(tables), root, va, level - 1, leafLevel);
        }
        PathKept(m.tables, tables, m.shape, root, va, level);
        InvisibleTrans(old(M()), m, M());
        if next.Err? {
          return Err(next.error);
        }
        PathStep(tables, root, 2, va, level, table);
        table, level := next.value, level - 1;
      }
      return Ok((table, Idx(va, leafLevel)));
    }

    /** The level loop of `translate`; with `user`, of `translate_user`. */
    method TranslateWalk(root: nat, va: nat, user: bool) returns (pa: nat)
      requires Valid() && IsRoot(root)
      ensures pa == if user then TranslateUser(tables, root, va) else Translate(tables, root, va)
    {
      var t, level := root, 2;
      while true
        invariant level <= 2 && t in shape && shape[t].level == level
        invariant Lookup(tables, t, level, va) == Lookup(tables, root, 2, va)
        decreases level
      {
        var e := tables[t][Idx(va, level)];
        assert EntryOk(tables, shape, t, Idx(va, level));
        if !e.IsValid() {
          return 0;
        }
        if e.IsLeaf() {
          return if user && !e.flags.u then 0 else e.ppn * 0x1000 + va % Size(level);
        }
        if level == 0 {
          return 0;
        }
        t, level := e.ppn, level - 1;
      }
    }

    /**
     * Maps the piece of `va` at a level to the page `ppn` and those after it. It takes a page for
     * each missing table, and fails exactly when there are too few. On success exactly the
     * addresses of that piece, in this address space, change. A spare page given to a user as
     * a 4 KiB leaf keeps user pages distinct.
     */
    method MapOne(root: nat, va: nat, ppn: nat, flags: Flags, level: nat) returns (r: Result<()>)
      requires Valid() && IsRoot(root) && level <= 2 && va < VA_LIMIT
      requires ppn + Span(level) <= PPN_LIMIT && flags.IsLeaf()
      modifies this, pmm
      ensures Valid() && IsRoot(root) && Grows(old(M()), M())
      ensures Supplied(old(tables), root, va, level, old(pmm.freePages), pmm.freePages, r.Ok?)
      ensures r.Err? ==> r.error == NoMem && Invisible(old(M()), M())
      ensures r.Ok? ==>
                RemapsTo(old(M()), M(), root, Start(va, level), Start(va, level) + Size(level), ppn * 0x1000,
                  flags.(v := true))
      ensures old(Owned(M())) && (flags.u ==> level == 0 && Spare(old(M()), ppn)) ==> Owned(M())
      ensures r.Ok? ==> leaves.Keys == old(leaves).Keys + if flags.u then {ppn} else {}
    {
      hide Idx, Size, Start, TableAt, SameViews, Remaps, DistinctUserPages, Supplied;
      ghost var m0 := M();
      var slot := Walk(root, va, level, true);
      if slot.Err? {
        return Err(slot.error);
      }
      var (t, i) := slot.value;
      var leaf := ValidPte(flags, ppn);
      WriteAfterWalk(m0, M(), root, va, level, t, leaf);
      tables := tables[t := tables[t][i := leaf]];
      if flags.u {
        leaves := leaves[ppn := (t, i)];
      }
      return Ok(());
    }

    /** Maps the first piece of a range with the coarsest leaf that fits. */
    method MapPiece(root: nat, va: nat, pa: nat, remaining: nat, flags: Flags) returns (r: Result<()>, piece: nat)
      requires Valid() && IsRoot(root) && flags.IsLeaf() && remaining > 0
      requires Aligned(va) && Aligned(pa)
      requires va + PageRound(remaining) <= VA_LIMIT && pa + PageRound(remaining) <= PPN_LIMIT * 0x1000
      modifies this, pmm
      ensures Valid() && IsRoot(root)
      ensures piece > 0 && Aligned(piece) && (piece <= remaining || piece == 0x1000)
      ensures r.Err? ==> r.error == NoMem && pmm.freePages == 0 && Invisible(old(M()), M())
      ensures r.Ok? ==> Mapped(old(M()), M(), root, va, va + piece, pa, flags.(v := true, a := true, d := true))
    {
      hide Forest, Remaps, Invisible, Grows, Sound;
      var level := BestLevel(va, pa, remaining);
      piece := Size(level);
      assert piece <= PageRound(remaining);
      r := MapOne(root, va, pa / 0x1000, flags.(a := true, d := true), level);
    }

    /**
     * Maps a range of addresses, choosing 1 GiB, 2 MiB or 4 KiB leaves as they fit. The choice is
     * invisible: on success every address of the range, and no other address of any address
     * space, changes, to the same offset from `pa`. It fails only when no free page is left; then
     * the same holds for the first `done` bytes of the range.
     */
    method Map(root: nat, va: nat, pa: nat, size: nat, flags: Flags) returns (r: Result<()>, ghost done: nat)
      requires Valid() && IsRoot(root) && (flags.r || flags.x)
      requires Aligned(va) && Aligned(pa)
      requires va + PageRound(size) <= VA_LIMIT && pa + PageRound(size) <= PPN_LIMIT * 0x1000
      modifies this, pmm
      ensures Valid() && IsRoot(root)
      ensures Mapped(old(M()), M(), root, va, va + done, pa, flags.(v := true, a := true, d := true))
      ensures r.Ok? ==> done == PageRound(size)
      ensures r.Err? ==> r.error == NoMem && pmm.freePages == 0 && done < size
    {
      var va', pa', remaining: nat := va, pa, size;
      done := 0;
      ghost var leafFlags := flags.(v := true, a := true, d := true);
      ghost var m0 := M();
      hide *;
      NothingMapped(m0, root, va, pa, leafFlags);
      NoPages();
      while remaining > 0
        invariant Valid() && IsRoot(root) && Mapped(m0, M(), root, va, va + done, pa, leafFlags)
        invariant done + PageRound(remaining) == PageRound(size)
        invariant remaining > 0 ==> va' == va + done && pa' == pa + done && done + remaining == size
        invariant remaining > 0 ==> Aligned(va') && Aligned(pa')
      {
        ghost var m := M();
        var one, piece := MapPiece(root, va', pa', remaining, flags);
        if one.Err? {
          MappedThenInvisible(m0, m, M(), root, va, va + done, pa, leafFlags);
          return Err(one.error), done;
        }
        MappedMore(m0, m, M(), root, va, va', va' + piece, pa, leafFlags);
        PieceFits(va', pa', remaining, piece);
        var chunk := if piece < remaining then piece else remaining;
        done := done + piece;
        va', pa', remaining := va' + chunk, pa' + chunk, remaining - chunk;
      }
      return Ok(()), done;
    }

    /** Frees the pages below slot `i` of table `t`. */
    method FreeEntry(t: nat, i: nat, level: nat) returns (ghost calls: nat)
      requires pmm.Valid() && Forest(tables, shape) && DistinctUserPages(tables, shape, leaves)
      requires t in shape && shape[t].level == level && i < PTES
      requires EntryPages(tables, tables[t][i], level) <= pmm.used
      modifies pmm
      ensures pmm.Valid() && pmm.used == old(pmm.used) - EntryPages(tables, tables[t][i], level)
      ensures calls == |EntryPages(tables, tables[t][i], level)|
      decreases level, 0
    {
      var e := tables[t][i];
      ghost var pages := EntryPages(tables, e, level);
      assert e.IsTable() && level > 0 ==> e.ppn in shape && shape[e.ppn].level == level - 1 by {
        assert EntryOk(tables, shape, t, i);
      }
      assert pages == if !e.IsValid() then {}
                      else if e.IsLeaf() then if e.flags.u then {e.ppn} else {}
                      else if level == 0 then {}
                      else Subtree(tables, e.ppn, level - 1) + {e.ppn};
      calls := 0;
      hide EntryPages, Subtree, Forest, DistinctUserPages;
      if e.IsValid() {
        if e.IsLeaf() {
          if e.flags.u {
            pmm.Free(e.ppn);
            calls := 1;
          }
        } else if level > 0 {
          calls := FreeTable(e.ppn, level - 1);
        }
      }
    }

    /** Frees everything below a table, then the table. */
    method FreeTable(t: nat, level: nat) returns (ghost calls: nat)
      requires pmm.Valid() && Forest(tables, shape) && DistinctUserPages(tables, shape, leaves)
      requires t in shape && shape[t].level == level
      requires Subtree(tables, t, level) + {t} <= pmm.used
      modifies pmm
      ensures pmm.Valid() && pmm.used == old(pmm.used) - (Subtree(tables, t, level) + {t})
      ensures calls == |Subtree(tables, t, level) + {t}|
      decreases level, 2
    {
      SubtreeNotSelf(tables, shape, leaves, t);
      OneMore(pmm.used, Subtree(tables, t, level), t);
      hide Subtree, Forest, DistinctUserPages;
      calls := FreeSubtree(t, level);
      pmm.Free(t);
      calls := calls + 1;
    }

    /** Frees every table and user page below a table, each once. */
    method FreeSubtree(t: nat, level: nat) returns (ghost calls: nat)
      requires pmm.Valid() && Forest(tables, shape) && DistinctUserPages(tables, shape, leaves)
      requires t in shape && shape[t].level == level
      requires Subtree(tables, t, level) <= pmm.used
      modifies pmm
      ensures pmm.Valid() && pmm.used == old(pmm.used) - Subtree(tables, t, level)
      ensures calls == |Subtree(tables, t, level)|
      decreases level, 1
    {
      var i := 0;
      calls := 0;
      while i < PTES
        invariant i <= PTES && pmm.Valid()
        invariant pmm.used == old(pmm.used) - Below(tables, t, level, i)
        invariant calls == |Below(tables, t, level, i)|
      {
        SlotsDisjoint(tables, shape, leaves, t, i);
        BelowGrows(tables, t, level, i, |tables[t]|);
        var n := FreeEntry(t, i, level);
        calls := calls + n;
        i := i + 1;
      }
    }

    /** Frees everything below a root, then the root. */
    method FreeSpace(root: nat) returns (ghost calls: nat)
      requires pmm.Valid() && IsRoot(root) && Owned(M())
      modifies pmm
      ensures pmm.Valid() && pmm.used == old(pmm.used) - Space(old(M()), root)
      ensures calls == |Space(old(M()), root)| && pmm.freePages == old(pmm.freePages) + calls
    {
      ghost var below := Subtree(tables, root, 2);
      SubtreeNotSelf(tables, shape, leaves, root);
      SubtreeOwned(tables, shape, leaves, root);
      SetCount(pmm.used, below, root);
      hide Forest, DistinctUserPages, Subtree;
      calls := FreeTable(root, 2);
    }

    /**
     * Gives a whole address space back: its root and every table and user page that one of its
     * addresses uses, each exactly once (as many calls as pages) and nothing else, so the free
     * count rises by their number. Every other address space stays in place.
     */
    method DestroyRoot(root: nat) returns (ghost calls: nat)
      requires Valid() && IsRoot(root) && Owned(M())
      modifies this`shape, this`leaves, pmm
      ensures Valid() && Owned(M()) && M() == Without(old(M()), Space(old(M()), root))
      ensures calls == |Space(old(M()), root)| && pmm.freePages == old(pmm.freePages) + calls
      ensures forall p: nat :: p in old(pmm.used) - pmm.used <==> p == root || Used(old(tables), root, p)
      ensures forall r | r in old(shape) && old(shape)[r].level == 2 && r != root :: IsRoot(r)
    {
      WithoutSpace(M(), root);
      SpaceUsed(M(), root);
      ghost var gone := Space(M(), root);
      hide Space, Owned, Sound, Used;
      calls := FreeSpace(root);
      shape := shape - gone;
      leaves := leaves - gone;
    }
  }
}
