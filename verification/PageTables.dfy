/**
 * Sv39 page tables (section 4.4 of the RISC-V Privileged Architecture, version 20211203) as data:
 * page-table entries, the tables in physical memory, and what a three-level lookup finds.
 */
module PageTables {
  import opened Base

  const PTES := 512
  const PPN_LIMIT := 0x1000_0000_0000   // 2^44: a page number is 44 bits wide
  const VA_LIMIT := 0x80_0000_0000      // 2^39

  /** The ten low bits of a page-table word. */
  datatype Flags = Flags(v: bool, r: bool, w: bool, x: bool, u: bool, g: bool, a: bool, d: bool, rsw: nat) {
    /** An entry with R or X set ends the walk. */
    predicate IsLeaf() {
      r || x
    }
  }

  const NoFlags := Flags(false, false, false, false, false, false, false, false, 0)

  /** A page-table word: its flag bits and its page number. */
  datatype Pte = Pte(flags: Flags, ppn: nat) {
    predicate IsValid() {
      flags.v
    }
    predicate IsLeaf() {
      flags.IsLeaf()
    }
    /** A valid entry that points at a lower table. */
    predicate IsTable() {
      IsValid() && !IsLeaf()
    }
  }

  /** The word `PTE_V | flags | (ppn << 10)`, whose page number is cut to 44 bits when it is read. */
  function ValidPte(flags: Flags, ppn: nat): Pte {
    Pte(flags.(v := true), ppn % PPN_LIMIT)
  }

  const ZeroPte := Pte(NoFlags, 0)
  const ZeroTable: seq<Pte> := seq(PTES, i => ZeroPte)

  type Tables = map<nat, seq<Pte>>

  /** Bytes covered by one entry at a level: 4 KiB, 2 MiB, 1 GiB. */
  function Size(level: nat): (n: nat)
    ensures n > 0
  {
    if level == 0 then 0x1000 else if level == 1 then 0x20_0000 else 0x4000_0000
  }

  /** Pages covered by one entry at a level. */
  function Span(level: nat): (n: nat)
    ensures Size(level) == n * 0x1000
  {
    if level == 0 then 1 else if level == 1 then 512 else 0x4_0000
  }

  /** The slot of `va` in its table at a level. */
  function Idx(va: nat, level: nat): (i: nat)
    ensures i < PTES
  {
    if level == 0 then (va / 0x1000) % 512
    else if level == 1 then (va / 0x20_0000) % 512
    else (va / 0x4000_0000) % 512
  }

  /** Where an address lands, and with which flags. */
  datatype Mapping = Mapping(pa: nat, flags: Flags)

  /** What a walk from table `t` finds for `va`. */
  function Lookup(ts: Tables, t: nat, level: nat, va: nat): Option<Mapping>
    decreases level
  {
    if t !in ts || |ts[t]| != PTES then None
    else EntryView(ts, ts[t][Idx(va, level)], level, va)
  }

  function EntryView(ts: Tables, e: Pte, level: nat, va: nat): Option<Mapping>
    decreases level, 0
  {
    if !e.IsTable() then LeafView(e, level, va)
    else if level == 0 then None
    else Lookup(ts, e.ppn, level - 1, va)
  }

  /** What an entry that points at no table shows. */
  function LeafView(e: Pte, level: nat, va: nat): Option<Mapping> {
    if e.IsValid() && e.IsLeaf() then Some(Mapping(e.ppn * 0x1000 + va % Size(level), e.flags)) else None
  }

  /** The table at `target` level on the way from `t` to `va`, when only tables are on the way. */
  function TableAt(ts: Tables, t: nat, level: nat, va: nat, target: nat): Option<nat>
    requires target <= level
    decreases level
  {
    if level == target then Some(t)
    else if t !in ts || |ts[t]| != PTES then None
    else
      var e := ts[t][Idx(va, level)];
      if e.IsTable() then TableAt(ts, e.ppn, level - 1, va, target) else None
  }

  /** What `translate` returns: the physical address, or 0. */
  function Translate(ts: Tables, root: nat, va: nat): nat {
    match Lookup(ts, root, 2, va)
    case None => 0
    case Some(m) => m.pa
  }

  /** What `translate_user` returns: the physical address if the leaf has the U bit, or 0. */
  function TranslateUser(ts: Tables, root: nat, va: nat): nat {
    match Lookup(ts, root, 2, va)
    case None => 0
    case Some(m) => if m.flags.u then m.pa else 0
  }

  // ----- the shape every operation keeps

  /** A table page's level and the one slot that may point at it. */
  datatype Node = Node(level: nat, parent: nat, slot: nat)

  type Shape = map<nat, Node>

  ghost predicate EntryOk(ts: Tables, sh: Shape, t: nat, i: nat)
    requires t in sh && t in ts && i < |ts[t]|
  {
    var e := ts[t][i];
    && (e.IsTable() && sh[t].level > 0 ==>
          e.ppn in sh && sh[e.ppn] == Node(sh[t].level - 1, t, i))
    && (e.IsValid() && e.IsLeaf() ==> e.ppn + Span(sh[t].level) <= PPN_LIMIT)
  }

  /**
   * The tables form a forest: a table page is referenced from at most one slot, one level up; the
   * roots, at level 2, from none. Every leaf stays below the last physical page.
   */
  ghost predicate Forest(ts: Tables, sh: Shape) {
    && (forall t | t in sh :: t in ts && |ts[t]| == PTES && sh[t].level <= 2)
    && (forall t, i: nat | t in sh && i < PTES :: EntryOk(ts, sh, t, i))
  }

  /** Every table of `sh` shows the same addresses, with the same flags, in both memories. */
  ghost predicate SameViews(sh: Shape, ts: Tables, ts': Tables) {
    forall t, va: nat | t in sh :: Lookup(ts', t, sh[t].level, va) == Lookup(ts, t, sh[t].level, va)
  }

  /** `sh'` knows every table of `sh`, unchanged. */
  ghost predicate Extends(sh: Shape, sh': Shape) {
    forall t | t in sh :: t in sh' && sh'[t] == sh[t]
  }

  lemma SameViewsTrans(sh: Shape, sh': Shape, a: Tables, b: Tables, c: Tables)
    requires SameViews(sh, a, b) && SameViews(sh', b, c) && Extends(sh, sh')
    ensures SameViews(sh, a, c)
  {
    forall t, va: nat | t in sh
      ensures Lookup(c, t, sh[t].level, va) == Lookup(a, t, sh[t].level, va)
    {
      assert sh'[t] == sh[t];
      assert Lookup(c, t, sh'[t].level, va) == Lookup(b, t, sh'[t].level, va);
    }
  }

  // ----- hanging a new table below a slot

  /** Memory after table `page` has been filled with `entries` and hung at slot `i` of `t`. */
  function Link(ts: Tables, t: nat, i: nat, page: nat, entries: seq<Pte>): Tables
    requires t in ts && i < |ts[t]|
  {
    ts[page := entries][t := ts[t][i := ValidPte(NoFlags, page)]]
  }

  ghost predicate CanLink(ts: Tables, sh: Shape, t: nat, i: nat, page: nat, entries: seq<Pte>) {
    && Forest(ts, sh) && t in sh && sh[t].level > 0 && i < PTES
    && page !in sh && page < PPN_LIMIT && |entries| == PTES
    && (forall k: nat | k < PTES :: !entries[k].IsTable())
    && (forall k: nat | k < PTES && entries[k].IsLeaf() ::
          entries[k].ppn + Span(sh[t].level - 1) <= PPN_LIMIT)
  }

  /** The slot holds no table, and what the new table shows for its addresses is what it showed. */
  ghost predicate ShowsSame(ts: Tables, sh: Shape, t: nat, i: nat, entries: seq<Pte>)
    requires t in sh && t in ts && i < |ts[t]| && |entries| == PTES && sh[t].level > 0
  {
    && !ts[t][i].IsTable()
    && forall va: nat | Idx(va, sh[t].level) == i ::
         LeafView(entries[Idx(va, sh[t].level - 1)], sh[t].level - 1, va) == LeafView(ts[t][i], sh[t].level, va)
  }

  lemma LinkedSlotShows(ts: Tables, sh: Shape, t: nat, page: nat, entries: seq<Pte>, va: nat)
    requires t in sh && CanLink(ts, sh, t, Idx(va, sh[t].level), page, entries)
    requires ShowsSame(ts, sh, t, Idx(va, sh[t].level), entries)
    ensures Lookup(Link(ts, t, Idx(va, sh[t].level), page, entries), t, sh[t].level, va)
            == Lookup(ts, t, sh[t].level, va)
  {
    var level := sh[t].level;
    var i := Idx(va, level);
    var ts', e := Link(ts, t, i, page, entries), entries[Idx(va, level - 1)];
    assert !ts[t][i].IsTable() && !e.IsTable() && LeafView(e, level - 1, va) == LeafView(ts[t][i], level, va);
    assert ts'[page] == entries && ts'[t][i].IsTable() && ts'[t][i].ppn == page;
    hide Forest, Idx, LeafView, ShowsSame;
    assert Lookup(ts', page, level - 1, va) == LeafView(e, level - 1, va);
  }

  lemma {:induction false} LinkKeepsLookup(ts: Tables, sh: Shape, t: nat, i: nat, page: nat, entries: seq<Pte>,
                                           t': nat, va: nat)
    requires CanLink(ts, sh, t, i, page, entries) && ShowsSame(ts, sh, t, i, entries)
    requires t' in sh
    ensures Lookup(Link(ts, t, i, page, entries), t', sh[t'].level, va) == Lookup(ts, t', sh[t'].level, va)
    decreases sh[t'].level
  {
    var ts' := Link(ts, t, i, page, entries);
    var level := sh[t'].level;
    var k := Idx(va, level);
    var e := ts[t'][k];
    assert EntryOk(ts, sh, t', k);
    if t' == t && k == i {
      LinkedSlotShows(ts, sh, t, page, entries, va);
      return;
    }
    hide Forest, Idx, LeafView, ShowsSame;
    if e.IsTable() && level > 0 {
      LinkKeepsLookup(ts, sh, t, i, page, entries, e.ppn, va);
    }
  }

  /** Hanging a table that shows the same addresses changes no view and keeps the forest. */
  lemma LinkKeepsViews(ts: Tables, sh: Shape, t: nat, i: nat, page: nat, entries: seq<Pte>)
    requires CanLink(ts, sh, t, i, page, entries) && ShowsSame(ts, sh, t, i, entries)
    ensures SameViews(sh, ts, Link(ts, t, i, page, entries))
    ensures Forest(Link(ts, t, i, page, entries), sh[page := Node(sh[t].level - 1, t, i)])
  {
    var ts' := Link(ts, t, i, page, entries);
    var sh' := sh[page := Node(sh[t].level - 1, t, i)];
    forall t', va: nat | t' in sh
      ensures Lookup(ts', t', sh[t'].level, va) == Lookup(ts, t', sh[t'].level, va)
    {
      LinkKeepsLookup(ts, sh, t, i, page, entries, t', va);
    }
    forall t', k: nat | t' in sh' && k < PTES
      ensures EntryOk(ts', sh', t', k)
    {
      if t' != page {
        assert EntryOk(ts, sh, t', k);
      }
    }
  }

  /** An empty slot shows nothing, and neither does a zeroed table. */
  lemma ZeroTableShowsSame(ts: Tables, sh: Shape, t: nat, i: nat)
    requires t in sh && t in ts && i < |ts[t]| && sh[t].level > 0
    requires !ts[t][i].IsValid()
    ensures ShowsSame(ts, sh, t, i, ZeroTable)
  {
  }

  /** The entries a split writes for leaf `e` of a level: the same flags over consecutive pieces. */
  function SplitEntries(e: Pte, level: nat): (r: seq<Pte>)
    requires level > 0
    ensures |r| == PTES
  {
    seq(PTES, (k: nat) => ValidPte(e.flags, e.ppn + k * Span(level - 1)))
  }

  lemma OffsetSplits(va: nat, level: nat)
    requires 0 < level <= 2
    ensures va % Size(level) == Idx(va, level - 1) * Size(level - 1) + va % Size(level - 1)
  {
    if level == 1 {
      assert va == (va / 0x1000) * 0x1000 + va % 0x1000;
      assert va / 0x1000 == ((va / 0x1000) / 512) * 512 + (va / 0x1000) % 512;
    } else {
      assert va == (va / 0x20_0000) * 0x20_0000 + va % 0x20_0000;
      assert va / 0x20_0000 == ((va / 0x20_0000) / 512) * 512 + (va / 0x20_0000) % 512;
    }
  }

  /** Splitting a leaf shows every address of the leaf exactly as before. */
  lemma SplitShowsSame(ts: Tables, sh: Shape, t: nat, i: nat)
    requires Forest(ts, sh) && t in sh && i < PTES && 0 < sh[t].level
    requires ts[t][i].IsValid() && ts[t][i].IsLeaf()
    ensures ShowsSame(ts, sh, t, i, SplitEntries(ts[t][i], sh[t].level))
    ensures forall page: nat | page !in sh && page < PPN_LIMIT ::
              CanLink(ts, sh, t, i, page, SplitEntries(ts[t][i], sh[t].level))
  {
    var e := ts[t][i];
    var level := sh[t].level;
    var entries := SplitEntries(e, level);
    assert EntryOk(ts, sh, t, i);
    forall k: nat | k < PTES
      ensures !entries[k].IsTable() && entries[k].IsLeaf()
      ensures entries[k] == Pte(e.flags, e.ppn + k * Span(level - 1))
      ensures entries[k].ppn + Span(level - 1) <= PPN_LIMIT
    {
    }
    forall va: nat | Idx(va, level) == i
      ensures LeafView(entries[Idx(va, level - 1)], level - 1, va) == LeafView(e, level, va)
    {
      OffsetSplits(va, level);
    }
  }

  // ----- writing a leaf

  lemma {:induction false} WriteBelow(ts: Tables, sh: Shape, t: nat, i: nat, leaf: Pte, t': nat, va: nat)
    requires Forest(ts, sh) && t in sh && i < PTES && t' in sh && sh[t'].level < sh[t].level
    ensures Lookup(ts[t := ts[t][i := leaf]], t', sh[t'].level, va) == Lookup(ts, t', sh[t'].level, va)
    decreases sh[t'].level
  {
    var k := Idx(va, sh[t'].level);
    assert EntryOk(ts, sh, t', k);
    if ts[t'][k].IsTable() && sh[t'].level > 0 {
      WriteBelow(ts, sh, t, i, leaf, ts[t'][k].ppn, va);
    }
  }

  /** Writing a leaf at slot `i` of `t` changes exactly the addresses whose walk passes that slot. */
  lemma {:induction false} WriteLeafLookup(ts: Tables, sh: Shape, t: nat, i: nat, leaf: Pte, t': nat, va: nat)
    requires Forest(ts, sh) && t in sh && i < PTES && t' in sh && sh[t].level <= sh[t'].level
    requires leaf.IsValid() && leaf.IsLeaf()
    ensures Lookup(ts[t := ts[t][i := leaf]], t', sh[t'].level, va)
            == if TableAt(ts, t', sh[t'].level, va, sh[t].level) == Some(t) && Idx(va, sh[t].level) == i
               then Some(Mapping(leaf.ppn * 0x1000 + va % Size(sh[t].level), leaf.flags))
               else Lookup(ts, t', sh[t'].level, va)
    decreases sh[t'].level
  {
    var level := sh[t'].level;
    var k := Idx(va, level);
    var e := ts[t'][k];
    assert EntryOk(ts, sh, t', k);
    if level == sh[t].level {
      if (t' != t || k != i) && e.IsTable() && level > 0 {
        WriteBelow(ts, sh, t, i, leaf, e.ppn, va);
      }
    } else if e.IsTable() {
      WriteLeafLookup(ts, sh, t, i, leaf, e.ppn, va);
    }
  }

  /** The addresses that reach a table from a root have that root and agree on all higher slots. */
  lemma PathUnique(ts: Tables, sh: Shape, r: nat, r': nat, va: nat, va': nat, target: nat)
    requires Forest(ts, sh) && r in sh && r' in sh && sh[r].level == 2 && sh[r'].level == 2 && target <= 2
    requires TableAt(ts, r, 2, va, target).Some?
    requires TableAt(ts, r, 2, va, target) == TableAt(ts, r', 2, va', target)
    ensures r == r' && forall l: nat | target < l <= 2 :: Idx(va, l) == Idx(va', l)
  {
    assert EntryOk(ts, sh, r, Idx(va, 2)) && EntryOk(ts, sh, r', Idx(va', 2));
    if target == 0 {
      var c, c' := ts[r][Idx(va, 2)].ppn, ts[r'][Idx(va', 2)].ppn;
      assert EntryOk(ts, sh, c, Idx(va, 1)) && EntryOk(ts, sh, c', Idx(va', 1));
    }
  }

  /** Equal higher slots mean equal paths. */
  lemma {:induction false} PathSame(ts: Tables, t: nat, level: nat, va: nat, va': nat, target: nat)
    requires target <= level
    requires forall l: nat | target < l <= level :: Idx(va, l) == Idx(va', l)
    ensures TableAt(ts, t, level, va, target) == TableAt(ts, t, level, va', target)
    decreases level
  {
    if target < level && t in ts && |ts[t]| == PTES && ts[t][Idx(va, level)].IsTable() {
      PathSame(ts, ts[t][Idx(va, level)].ppn, level - 1, va, va', target);
    }
  }

  /** An address below 2^39 is its three slots, from the root down, and its place in the page. */
  lemma IdxParts(va: nat)
    requires va < VA_LIMIT
    ensures va == Idx(va, 2) * 0x4000_0000 + Idx(va, 1) * 0x20_0000 + Idx(va, 0) * 0x1000 + va % 0x1000
  {
    var a2, a1, a0 := va / 0x4000_0000, va / 0x20_0000, va / 0x1000;
    assert a1 / 512 == a2 && a0 / 512 == a1 && a2 < 512;
    assert a1 == a2 * 512 + a1 % 512 && a0 == a1 * 512 + a0 % 512 && va == a0 * 0x1000 + va % 0x1000;
  }

  /** Two addresses share all slots from a level up exactly when they lie in the same piece. */
  lemma SamePiece(va: nat, va': nat, level: nat)
    requires va < VA_LIMIT && va' < VA_LIMIT && level <= 2
    ensures (forall l: nat | level <= l <= 2 :: Idx(va, l) == Idx(va', l)) <==> va / Size(level) == va' / Size(level)
  {
    var a2, a1, a0 := va / 0x4000_0000, va / 0x20_0000, va / 0x1000;
    var b2, b1, b0 := va' / 0x4000_0000, va' / 0x20_0000, va' / 0x1000;
    assert a1 / 512 == a2 && a0 / 512 == a1 && b1 / 512 == b2 && b0 / 512 == b1;
    assert a2 < 512 && b2 < 512;
    assert Idx(va, 2) == a2 && Idx(va', 2) == b2;
    assert a1 == a2 * 512 + Idx(va, 1) && b1 == b2 * 512 + Idx(va', 1);
    assert a0 == a1 * 512 + Idx(va, 0) && b0 == b1 * 512 + Idx(va', 0);
  }

  /** The first address of the piece of `va` at a level. */
  function Start(va: nat, level: nat): (lo: nat)
    ensures lo <= va
  {
    if level == 0 then va - va % 0x1000 else if level == 1 then va - va % 0x20_0000 else va - va % 0x4000_0000
  }

  lemma PieceBounds(x: nat, va: nat, level: nat)
    ensures x / Size(level) == va / Size(level) <==> Start(va, level) <= x < Start(va, level) + Size(level)
    ensures x / Size(level) == va / Size(level) ==> x % Size(level) == x - Start(va, level)
  {
    if level == 0 {
    } else if level == 1 {
    } else {
    }
  }

  /** What a leaf written on the path of `va` does to every address of every address space. */
  lemma WriteLeafView(ts: Tables, sh: Shape, root: nat, va: nat, level: nat, t: nat, leaf: Pte, r: nat, x: nat)
    requires Forest(ts, sh) && root in sh && sh[root].level == 2 && r in sh && sh[r].level == 2
    requires t in sh && sh[t].level == level && TableAt(ts, root, 2, va, level) == Some(t)
    requires leaf.IsValid() && leaf.IsLeaf() && va < VA_LIMIT && x < VA_LIMIT
    ensures Lookup(ts[t := ts[t][Idx(va, level) := leaf]], r, 2, x)
            == if r == root && Start(va, level) <= x < Start(va, level) + Size(level)
               then Some(Mapping(leaf.ppn * 0x1000 + (x - Start(va, level)), leaf.flags))
               else Lookup(ts, r, 2, x)
  {
    WriteLeafLookup(ts, sh, t, Idx(va, level), leaf, r, x);
    SamePiece(va, x, level);
    PieceBounds(x, va, level);
    hide Idx, Size, Start, Lookup;
    if TableAt(ts, r, 2, x, level) == Some(t) && Idx(x, level) == Idx(va, level) {
      PathUnique(ts, sh, root, r, va, x, level);
    } else if r == root && x / Size(level) == va / Size(level) {
      PathSame(ts, root, 2, va, x, level);
    }
  }

  /** An entry written for a 4 KiB page maps it exactly when it grants reading or execution. */
  lemma MappedIffRights(ts: Tables, sh: Shape, root: nat, va: nat, t: nat, e: Pte)
    requires Forest(ts, sh) && root in sh && sh[root].level == 2 && t in sh && sh[t].level == 0
    requires TableAt(ts, root, 2, va, 0) == Some(t) && e.IsValid() && va < VA_LIMIT
    ensures Lookup(ts[t := ts[t][Idx(va, 0) := e]], root, 2, va).Some? <==> e.IsLeaf()
  {
    var ts' := ts[t := ts[t][Idx(va, 0) := e]];
    var e2 := ts[root][Idx(va, 2)];
    assert EntryOk(ts, sh, root, Idx(va, 2));
    var t1 := e2.ppn;
    assert e2.IsTable() && t1 in sh && sh[t1].level == 1;
    var e1 := ts[t1][Idx(va, 1)];
    assert EntryOk(ts, sh, t1, Idx(va, 1));
    assert TableAt(ts, t1, 1, va, 0) == Some(t);
    assert e1.IsTable() && e1.ppn == t;
    hide Idx;
    assert Lookup(ts', t, 0, va) == EntryView(ts', e, 0, va);
    assert Lookup(ts', t1, 1, va) == EntryView(ts', e1, 1, va) == Lookup(ts', t, 0, va);
    assert Lookup(ts', root, 2, va) == EntryView(ts', e2, 2, va) == Lookup(ts', t1, 1, va);
  }

  /** Writing a leaf keeps the forest. */
  lemma WriteLeafForest(ts: Tables, sh: Shape, t: nat, i: nat, leaf: Pte)
    requires Forest(ts, sh) && t in sh && i < PTES && leaf.IsLeaf()
    requires leaf.ppn + Span(sh[t].level) <= PPN_LIMIT
    ensures Forest(ts[t := ts[t][i := leaf]], sh)
  {
    var ts' := ts[t := ts[t][i := leaf]];
    forall t', k: nat | t' in sh && k < PTES
      ensures EntryOk(ts', sh, t', k)
    {
      assert EntryOk(ts, sh, t', k);
    }
  }

  // ----- paths

  lemma {:induction false} PathStep(ts: Tables, t: nat, level: nat, va: nat, target: nat, u: nat)
    requires 0 < target <= level && TableAt(ts, t, level, va, target) == Some(u)
    requires u in ts && |ts[u]| == PTES && ts[u][Idx(va, target)].IsTable()
    ensures TableAt(ts, t, level, va, target - 1) == Some(ts[u][Idx(va, target)].ppn)
    decreases level
  {
    if target < level {
      PathStep(ts, ts[t][Idx(va, level)].ppn, level - 1, va, target, u);
    } else {
      assert TableAt(ts, ts[u][Idx(va, target)].ppn, level - 1, va, target - 1) == Some(ts[u][Idx(va, target)].ppn);
    }
  }

  /** The path one level further down. */
  lemma {:induction false} PathNext(ts: Tables, t: nat, level: nat, va: nat, target: nat)
    requires 0 < target <= level
    ensures TableAt(ts, t, level, va, target - 1) ==
            match TableAt(ts, t, level, va, target)
            case None => None
            case Some(u) =>
              if u in ts && |ts[u]| == PTES && ts[u][Idx(va, target)].IsTable() then Some(ts[u][Idx(va, target)].ppn)
              else None
    decreases level
  {
    if t in ts && |ts[t]| == PTES && ts[t][Idx(va, level)].IsTable() {
      if target < level {
        PathNext(ts, ts[t][Idx(va, level)].ppn, level - 1, va, target);
      } else {
        assert TableAt(ts, ts[t][Idx(va, target)].ppn, level - 1, va, target - 1) == Some(ts[t][Idx(va, target)].ppn);
      }
    }
  }

  /** A change to a table leaves the paths that lead down to its level alone. */
  lemma {:induction false} PathKept(ts: Tables, ts': Tables, sh: Shape, t: nat, va: nat, target: nat)
    requires Forest(ts, sh) && t in sh && target <= sh[t].level
    requires forall u | u in sh && sh[u].level > target :: u in ts' && ts'[u] == ts[u]
    ensures TableAt(ts', t, sh[t].level, va, target) == TableAt(ts, t, sh[t].level, va, target)
    decreases sh[t].level
  {
    var i := Idx(va, sh[t].level);
    assert EntryOk(ts, sh, t, i);
    if target < sh[t].level && ts[t][i].IsTable() {
      PathKept(ts, ts', sh, ts[t][i].ppn, va, target);
    }
  }

  /** A page that is no table of the forest can hold anything. */
  lemma {:induction false} OutsideKeepsLookup(ts: Tables, sh: Shape, page: nat, content: seq<Pte>, t: nat, va: nat)
    requires Forest(ts, sh) && t in sh && page !in sh
    ensures Lookup(ts[page := content], t, sh[t].level, va) == Lookup(ts, t, sh[t].level, va)
    decreases sh[t].level
  {
    var i := Idx(va, sh[t].level);
    assert EntryOk(ts, sh, t, i);
    if ts[t][i].IsTable() && sh[t].level > 0 {
      OutsideKeepsLookup(ts, sh, page, content, ts[t][i].ppn, va);
    }
  }

  lemma OutsideKeepsViews(ts: Tables, sh: Shape, page: nat, content: seq<Pte>)
    requires Forest(ts, sh) && page !in sh
    ensures Forest(ts[page := content], sh) && SameViews(sh, ts, ts[page := content])
  {
    var ts' := ts[page := content];
    forall t, i: nat | t in sh && i < PTES
      ensures EntryOk(ts', sh, t, i)
    {
      assert EntryOk(ts, sh, t, i);
    }
    forall t, va: nat | t in sh
      ensures Lookup(ts', t, sh[t].level, va) == Lookup(ts, t, sh[t].level, va)
    {
      OutsideKeepsLookup(ts, sh, page, content, t, va);
    }
  }

  // ----- the effect of mapping, seen as a function from addresses

  /**
   * From `ts` to `ts'`, address space `root` now takes each x of `lo..hi` to `pa + (x - lo)` with
   * the given flags, and nothing else changed in it or in any other address space of `sh`.
   */
  ghost predicate Remaps(sh: Shape, ts: Tables, ts': Tables, root: nat, lo: nat, hi: nat, pa: nat, flags: Flags) {
    forall x: nat, s | x < VA_LIMIT && s in sh && sh[s].level == 2 ::
      Lookup(ts', s, 2, x)
      == if s == root && lo <= x < hi then Some(Mapping(pa + (x - lo), flags)) else Lookup(ts, s, 2, x)
  }

  /** A leaf written after a walk that changed no view remaps exactly the piece of `va`. */
  lemma WriteLeafRemaps(sh0: Shape, ts0: Tables, sh: Shape, ts: Tables, root: nat, va: nat, level: nat, t: nat,
                        leaf: Pte)
    requires Extends(sh0, sh) && SameViews(sh0, ts0, ts) && Forest(ts, sh)
    requires root in sh0 && sh0[root].level == 2 && va < VA_LIMIT && level <= 2
    requires t in sh && sh[t].level == level && TableAt(ts, root, 2, va, level) == Some(t)
    requires leaf.IsValid() && leaf.IsLeaf()
    ensures Remaps(sh0, ts0, ts[t := ts[t][Idx(va, level) := leaf]], root,
                   Start(va, level), Start(va, level) + Size(level), leaf.ppn * 0x1000, leaf.flags)
  {
    var lo := Start(va, level);
    var ts' := ts[t := ts[t][Idx(va, level) := leaf]];
    forall x: nat, s | x < VA_LIMIT && s in sh0 && sh0[s].level == 2
      ensures Lookup(ts', s, 2, x)
              == if s == root && lo <= x < lo + Size(level) then Some(Mapping(leaf.ppn * 0x1000 + (x - lo), leaf.flags))
                 else Lookup(ts0, s, 2, x)
    {
      assert s in sh && sh[s].level == 2;
      hide *;
      WriteLeafView(ts, sh, root, va, level, t, leaf, s, x);
      SameViewAt(sh0, ts0, ts, s, x);
    }
  }

  lemma SameViewAt(sh: Shape, ts: Tables, ts': Tables, t: nat, va: nat)
    requires SameViews(sh, ts, ts') && t in sh
    ensures Lookup(ts', t, sh[t].level, va) == Lookup(ts, t, sh[t].level, va)
  {
  }

  /** Two mappings side by side are one mapping. */
  lemma RemapsJoin(sh: Shape, sh': Shape, a: Tables, b: Tables, c: Tables, root: nat, lo: nat, mid: nat, hi: nat,
                   pa: nat, flags: Flags)
    requires Extends(sh, sh') && lo <= mid <= hi
    requires Remaps(sh, a, b, root, lo, mid, pa, flags) && Remaps(sh', b, c, root, mid, hi, pa + (mid - lo), flags)
    ensures Remaps(sh, a, c, root, lo, hi, pa, flags)
  {
    forall x: nat, s | x < VA_LIMIT && s in sh && sh[s].level == 2
      ensures Lookup(c, s, 2, x)
              == if s == root && lo <= x < hi then Some(Mapping(pa + (x - lo), flags)) else Lookup(a, s, 2, x)
    {
      assert Lookup(b, s, 2, x)
              == if s == root && lo <= x < mid then Some(Mapping(pa + (x - lo), flags)) else Lookup(a, s, 2, x);
      assert sh'[s] == sh[s];
    }
  }

  lemma RemapsKept(sh: Shape, sh': Shape, a: Tables, b: Tables, c: Tables, root: nat, lo: nat, hi: nat, pa: nat,
                   flags: Flags)
    requires Extends(sh, sh') && Remaps(sh, a, b, root, lo, hi, pa, flags) && SameViews(sh', b, c)
    ensures Remaps(sh, a, c, root, lo, hi, pa, flags)
  {
    forall x: nat, s | x < VA_LIMIT && s in sh && sh[s].level == 2
      ensures Lookup(c, s, 2, x) == Lookup(b, s, 2, x)
    {
      SameViewAt(sh', b, c, s, x);
    }
  }
}
