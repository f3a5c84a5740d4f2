/** The memory the manager works on, as a value: what one step of a walk or a mapping does to it. */
module AddressSpaces {
  import opened Base
  import opened PageTables
  import opened Teardown

  const PAGE_SIZE := 4096
  function ZeroPage(): (z: seq<Byte>)
    ensures |z| == PAGE_SIZE && forall i: nat | i < PAGE_SIZE :: z[i] == 0
  {
    seq(PAGE_SIZE, i => 0)
  }

  type Bytes = map<nat, seq<Byte>>

  /**
   * Physical memory: the pages taken from the allocator, their contents read as tables and as
   * bytes, the tables in use with the slot that points at each, and the slot of each user page.
   */
  datatype Memory = Memory(used: set<nat>, tables: Tables, data: Bytes, shape: Shape, leaves: Leaves)

  ghost predicate Sound(m: Memory) {
    Forest(m.tables, m.shape) && m.shape.Keys <= m.used
  }

  /** User leaves are distinct 4 KiB pages taken from the allocator. */
  ghost predicate Owned(m: Memory) {
    Sound(m) && DistinctUserPages(m.tables, m.shape, m.leaves) && m.leaves.Keys <= m.used
  }

  /**
   * No page is given back, the pages newly taken are exactly the new tables, and every page taken
   * before keeps its bytes.
   */
  ghost predicate Grows(m: Memory, m': Memory) {
    && Extends(m.shape, m'.shape)
    && m.used <= m'.used && m'.used - m'.shape.Keys == m.used - m.shape.Keys
    && forall p | p in m.used && p in m.data :: p in m'.data && m'.data[p] == m.data[p]
  }

  /** Growing without any visible effect: every address space shows what it showed. */
  ghost predicate Invisible(m: Memory, m': Memory) {
    && Sound(m) && Sound(m') && Grows(m, m') && SameViews(m.shape, m.tables, m'.tables)
    && m'.leaves == m.leaves && (Owned(m) ==> Owned(m'))
  }

  lemma GrowsTrans(a: Memory, b: Memory, c: Memory)
    requires Grows(a, b) && Grows(b, c)
    ensures Grows(a, c)
  {
  }

  lemma InvisibleTrans(a: Memory, b: Memory, c: Memory)
    requires Invisible(a, b) && Invisible(b, c)
    ensures Invisible(a, c)
  {
    hide Forest, SameViews, DistinctUserPages;
    GrowsTrans(a, b, c);
    SameViewsTrans(a.shape, b.shape, a.tables, b.tables, c.tables);
  }

  /** A new page filled with `entries` and hung at slot `i` of table `t`. */
  ghost function Linked(m: Memory, t: nat, i: nat, page: nat, entries: seq<Pte>): Memory
    requires t in m.shape && m.shape[t].level > 0 && t in m.tables && i < |m.tables[t]|
  {
    Memory(m.used + {page}, Link(m.tables, t, i, page, entries), m.data[page := ZeroPage()],
           m.shape[page := Node(m.shape[t].level - 1, t, i)], m.leaves)
  }

  ghost predicate LinkOk(m: Memory, t: nat, i: nat, page: nat, entries: seq<Pte>) {
    && Sound(m) && page !in m.used && CanLink(m.tables, m.shape, t, i, page, entries)
    && ShowsSame(m.tables, m.shape, t, i, entries)
    && forall k: nat | k < PTES && entries[k].IsLeaf() ::
         entries[k].flags.u ==> m.tables[t][i].IsValid() && m.tables[t][i].IsLeaf() && m.tables[t][i].flags.u
  }

  /** Hanging a table that shows the same is invisible. */
  lemma LinkInvisible(m: Memory, t: nat, i: nat, page: nat, entries: seq<Pte>)
    requires LinkOk(m, t, i, page, entries)
    ensures var m' := Linked(m, t, i, page, entries);
            Invisible(m, m') && m'.tables[t][i].IsTable() && m'.tables[t][i].ppn == page
  {
    var m' := Linked(m, t, i, page, entries);
    LinkKeepsViews(m.tables, m.shape, t, i, page, entries);
    if Owned(m) {
      assert UserEntryOk(m.tables, m.shape, m.leaves, t, i);
      LinkKeepsUserPages(m.tables, m.shape, m.leaves, t, i, page, entries);
    }
  }

  lemma SplitLinkOk(m: Memory, t: nat, i: nat, page: nat)
    requires Sound(m) && t in m.shape && i < PTES && 0 < m.shape[t].level && page !in m.used && page < PPN_LIMIT
    requires m.tables[t][i].IsValid() && m.tables[t][i].IsLeaf()
    ensures LinkOk(m, t, i, page, SplitEntries(m.tables[t][i], m.shape[t].level))
  {
    SplitShowsSame(m.tables, m.shape, t, i);
  }

  lemma ZeroLinkOk(m: Memory, t: nat, i: nat, page: nat)
    requires Sound(m) && t in m.shape && i < PTES && 0 < m.shape[t].level && page !in m.used && page < PPN_LIMIT
    requires !m.tables[t][i].IsValid()
    ensures LinkOk(m, t, i, page, ZeroTable)
  {
    ZeroTableShowsSame(m.tables, m.shape, t, i);
  }

  /** A leaf written at slot `i` of table `t`. */
  ghost function Written(m: Memory, t: nat, i: nat, leaf: Pte): Memory
    requires t in m.tables && i < |m.tables[t]|
  {
    Memory(m.used, m.tables[t := m.tables[t][i := leaf]], m.data, m.shape,
           if leaf.flags.u then m.leaves[leaf.ppn := (t, i)] else m.leaves)
  }

  /** Address space `root` takes `lo..hi` to `pa..` and nothing else changes in any address space. */
  ghost predicate RemapsTo(m: Memory, m': Memory, root: nat, lo: nat, hi: nat, pa: nat, flags: Flags) {
    Remaps(m.shape, m.tables, m'.tables, root, lo, hi, pa, flags)
  }

  /** Memory only grew, and `lo..hi` was mapped. */
  ghost predicate Mapped(m: Memory, m': Memory, root: nat, lo: nat, hi: nat, pa: nat, flags: Flags) {
    Grows(m, m') && RemapsTo(m, m', root, lo, hi, pa, flags)
  }

  lemma NothingMapped(m: Memory, root: nat, lo: nat, pa: nat, flags: Flags)
    ensures Mapped(m, m, root, lo, lo, pa, flags)
  {
  }

  /** Two mappings side by side are one mapping. */
  lemma MappedMore(a: Memory, b: Memory, c: Memory, root: nat, lo: nat, mid: nat, hi: nat, pa: nat, flags: Flags)
    requires lo <= mid <= hi
    requires Mapped(a, b, root, lo, mid, pa, flags) && Mapped(b, c, root, mid, hi, pa + (mid - lo), flags)
    ensures Mapped(a, c, root, lo, hi, pa, flags)
  {
    GrowsTrans(a, b, c);
    RemapsJoin(a.shape, b.shape, a.tables, b.tables, c.tables, root, lo, mid, hi, pa, flags);
  }

  lemma MappedThenInvisible(a: Memory, b: Memory, c: Memory, root: nat, lo: nat, hi: nat, pa: nat, flags: Flags)
    requires Mapped(a, b, root, lo, hi, pa, flags) && Invisible(b, c)
    ensures Mapped(a, c, root, lo, hi, pa, flags)
  {
    GrowsTrans(a, b, c);
    RemapsKept(a.shape, b.shape, a.tables, b.tables, c.tables, root, lo, hi, pa, flags);
  }

  /** A page that a mapping may give to a user: taken, and in no other role. */
  ghost predicate Spare(m: Memory, page: nat) {
    page in m.used && page !in m.shape && page !in m.leaves
  }

  /** A leaf written where a walk ended, seen from before the walk. */
  lemma WriteAfterWalk(m0: Memory, m: Memory, root: nat, va: nat, level: nat, t: nat, leaf: Pte)
    requires Invisible(m0, m) && root in m0.shape && m0.shape[root].level == 2 && va < VA_LIMIT && level <= 2
    requires t in m.shape && m.shape[t].level == level && TableAt(m.tables, root, 2, va, level) == Some(t)
    requires leaf.IsValid() && leaf.IsLeaf() && leaf.ppn + Span(level) <= PPN_LIMIT
    ensures var m' := Written(m, t, Idx(va, level), leaf);
            && Sound(m') && Grows(m0, m')
            && RemapsTo(m0, m', root, Start(va, level), Start(va, level) + Size(level), leaf.ppn * 0x1000, leaf.flags)
            && (Owned(m0) && (leaf.flags.u ==> level == 0 && Spare(m0, leaf.ppn)) ==> Owned(m'))
  {
    WriteLeafForest(m.tables, m.shape, t, Idx(va, level), leaf);
    WriteLeafRemaps(m0.shape, m0.tables, m.shape, m.tables, root, va, level, t, leaf);
    if Owned(m0) && (leaf.flags.u ==> level == 0 && Spare(m0, leaf.ppn)) {
      WriteKeepsUserPages(m.tables, m.shape, m.leaves, t, Idx(va, level), leaf);
    }
  }

  /** What an address space owns: its root and everything below it. */
  ghost function Space(m: Memory, root: nat): set<nat> {
    Subtree(m.tables, root, 2) + {root}
  }

  /** Memory after `gone` has been given back. */
  ghost function Without(m: Memory, gone: set<nat>): Memory {
    Memory(m.used - gone, m.tables, m.data, m.shape - gone, m.leaves - gone)
  }

  /** Taking an address space away keeps the rest sound, and every other root in place. */
  lemma WithoutSpace(m: Memory, root: nat)
    requires Owned(m) && root in m.shape && m.shape[root].level == 2
    ensures Owned(Without(m, Space(m, root)))
    ensures forall r | r in m.shape && m.shape[r].level == 2 && r != root :: r !in Space(m, root)
  {
    RemainingForest(m.tables, m.shape, m.leaves, root);
    OtherRootsStay(m.tables, m.shape, m.leaves, root);
  }

  /** An address space is its root and the tables and user pages that its addresses use. */
  lemma SpaceUsed(m: Memory, root: nat)
    requires Owned(m) && root in m.shape && m.shape[root].level == 2
    ensures forall p: nat :: p in Space(m, root) <==> p == root || Used(m.tables, root, p)
    ensures Space(m, root) <= m.used
  {
    SubtreeOwned(m.tables, m.shape, m.leaves, root);
    hide Forest, DistinctUserPages, Subtree, Used;
    forall p: nat
      ensures p in Space(m, root) <==> p == root || Used(m.tables, root, p)
    {
      SpaceIff(m.tables, m.shape, m.leaves, root, p);
    }
  }
}
