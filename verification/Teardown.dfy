/** Tearing an address space down: which pages go back to the allocator, and how often. */
module Teardown {
  import opened Base
  import opened PageTables

  // ----- the pages an address space owns

  /** The pages below entry `e` of a table: a user page, or a table and all below it. */
  ghost function EntryPages(ts: Tables, e: Pte, level: nat): set<nat>
    decreases level, 0
  {
    if !e.IsValid() then {}
    else if e.IsLeaf() then if e.flags.u then {e.ppn} else {}
    else if level == 0 then {}
    else {e.ppn} + Subtree(ts, e.ppn, level - 1)
  }

  /** The pages below the first `n` slots of table `t`. */
  ghost function Below(ts: Tables, t: nat, level: nat, n: nat): set<nat>
    decreases level, n + 1
  {
    if n == 0 || t !in ts || |ts[t]| < n then {}
    else Below(ts, t, level, n - 1) + EntryPages(ts, ts[t][n - 1], level)
  }

  /** The pages below a whole table. */
  ghost function Subtree(ts: Tables, t: nat, level: nat): set<nat>
    decreases level, |if t in ts then ts[t] else []| + 2
  {
    if t in ts then Below(ts, t, level, |ts[t]|) else {}
  }

  /** The slot that maps each user page; user pages are distinct, 4 KiB and no tables. */
  type Leaves = map<nat, (nat, nat)>

  ghost predicate UserEntryOk(ts: Tables, sh: Shape, leaves: Leaves, t: nat, i: nat)
    requires t in sh && t in ts && i < |ts[t]|
  {
    var e := ts[t][i];
    e.IsValid() && e.IsLeaf() && e.flags.u ==>
      sh[t].level == 0 && e.ppn !in sh && e.ppn in leaves && leaves[e.ppn] == (t, i)
  }

  ghost predicate DistinctUserPages(ts: Tables, sh: Shape, leaves: Leaves)
    requires Forest(ts, sh)
  {
    forall t, i: nat | t in sh && i < PTES :: UserEntryOk(ts, sh, leaves, t, i)
  }

  // ----- every page has one home slot on each level above it

  /** Climbs from slot `i` of `t` to the slot at `level` above it. */
  ghost function Climb(sh: Shape, t: nat, i: nat, level: nat): (nat, nat)
    decreases if t in sh && sh[t].level < level then level - sh[t].level else 0
  {
    if t in sh && sh[t].level < level && sh[t].parent in sh && sh[sh[t].parent].level == sh[t].level + 1
    then Climb(sh, sh[t].parent, sh[t].slot, level)
    else (t, i)
  }

  ghost function Home(sh: Shape, leaves: Leaves, p: nat, level: nat): (nat, nat) {
    if p in sh then Climb(sh, sh[p].parent, sh[p].slot, level)
    else if p in leaves then Climb(sh, leaves[p].0, leaves[p].1, level)
    else (p, 0)
  }

  lemma {:induction false} ClimbStep(sh: Shape, t: nat, i: nat, level: nat, t1: nat, i1: nat)
    requires t in sh && sh[t].level <= level && Climb(sh, t, i, level) == (t1, i1)
    requires t1 in sh && sh[t1].level == level && sh[t1].parent in sh && sh[sh[t1].parent].level == level + 1
    ensures Climb(sh, t, i, level + 1) == (sh[t1].parent, sh[t1].slot)
    decreases level - sh[t].level
  {
    if sh[t].level < level {
      ClimbStep(sh, sh[t].parent, sh[t].slot, level, t1, i1);
    } else {
      assert Climb(sh, sh[t].parent, sh[t].slot, level + 1) == (sh[t].parent, sh[t].slot);
    }
  }

  /** A page below a table is itself a user page or a lower table. */
  ghost predicate Lower(sh: Shape, leaves: Leaves, p: nat, level: nat) {
    if p in sh then sh[p].level < level && sh[p].parent in sh && sh[sh[p].parent].level == sh[p].level + 1
    else p in leaves && leaves[p].0 in sh && sh[leaves[p].0].level == 0
  }

  lemma HomeStep(sh: Shape, leaves: Leaves, p: nat, level: nat, t: nat, i: nat)
    requires Lower(sh, leaves, p, level) && Home(sh, leaves, p, level) == (t, i)
    requires t in sh && sh[t].level == level && sh[t].parent in sh && sh[sh[t].parent].level == level + 1
    ensures Home(sh, leaves, p, level + 1) == (sh[t].parent, sh[t].slot)
    ensures Lower(sh, leaves, p, level + 1)
  {
    var (t0, i0) := if p in sh then (sh[p].parent, sh[p].slot) else leaves[p];
    ClimbStep(sh, t0, i0, level, t, i);
  }

  lemma {:induction false} HomeOfEntryPage(ts: Tables, sh: Shape, leaves: Leaves, t: nat, i: nat, p: nat)
    requires Forest(ts, sh) && DistinctUserPages(ts, sh, leaves)
    requires t in sh && i < PTES && p in EntryPages(ts, ts[t][i], sh[t].level)
    ensures Home(sh, leaves, p, sh[t].level) == (t, i) && Lower(sh, leaves, p, sh[t].level)
    decreases sh[t].level, 0
  {
    var e, level := ts[t][i], sh[t].level;
    assert EntryOk(ts, sh, t, i) && UserEntryOk(ts, sh, leaves, t, i);
    assert Climb(sh, t, i, level) == (t, i);
    if e.IsTable() && p != e.ppn {
      var j := HomeOfBelow(ts, sh, leaves, e.ppn, |ts[e.ppn]|, p);
      HomeStep(sh, leaves, p, level - 1, e.ppn, j);
    }
  }

  lemma {:induction false} HomeOfBelow(ts: Tables, sh: Shape, leaves: Leaves, t: nat, n: nat, p: nat) returns (i: nat)
    requires Forest(ts, sh) && DistinctUserPages(ts, sh, leaves)
    requires t in sh && n <= PTES && p in Below(ts, t, sh[t].level, n)
    ensures i < n && p in EntryPages(ts, ts[t][i], sh[t].level)
    ensures Home(sh, leaves, p, sh[t].level) == (t, i) && Lower(sh, leaves, p, sh[t].level)
    decreases sh[t].level, n + 1
  {
    if p in EntryPages(ts, ts[t][n - 1], sh[t].level) {
      i := n - 1;
      HomeOfEntryPage(ts, sh, leaves, t, i, p);
    } else {
      i := HomeOfBelow(ts, sh, leaves, t, n - 1, p);
    }
  }

  /** Different slots own different pages. */
  lemma SlotsDisjoint(ts: Tables, sh: Shape, leaves: Leaves, t: nat, i: nat)
    requires Forest(ts, sh) && DistinctUserPages(ts, sh, leaves) && t in sh && i < PTES
    ensures Below(ts, t, sh[t].level, i) !! EntryPages(ts, ts[t][i], sh[t].level)
  {
    forall p | p in Below(ts, t, sh[t].level, i) && p in EntryPages(ts, ts[t][i], sh[t].level)
      ensures false
    {
      var j := HomeOfBelow(ts, sh, leaves, t, i, p);
      HomeOfEntryPage(ts, sh, leaves, t, i, p);
    }
  }

  lemma SubtreeNotSelf(ts: Tables, sh: Shape, leaves: Leaves, t: nat)
    requires Forest(ts, sh) && DistinctUserPages(ts, sh, leaves) && t in sh
    ensures t !in Subtree(ts, t, sh[t].level)
  {
    if t in Subtree(ts, t, sh[t].level) {
      var j := HomeOfBelow(ts, sh, leaves, t, |ts[t]|, t);
    }
  }

  lemma {:induction false} BelowGrows(ts: Tables, t: nat, level: nat, i: nat, n: nat)
    requires t in ts && i < n <= |ts[t]|
    ensures Below(ts, t, level, i) <= Below(ts, t, level, n)
    ensures EntryPages(ts, ts[t][i], level) <= Below(ts, t, level, n)
    decreases n
  {
    if i < n - 1 {
      BelowGrows(ts, t, level, i, n - 1);
    }
  }

  /** Two address spaces share no page. */
  lemma SpacesDisjoint(ts: Tables, sh: Shape, leaves: Leaves, r: nat, r': nat)
    requires Forest(ts, sh) && DistinctUserPages(ts, sh, leaves)
    requires r in sh && r' in sh && sh[r].level == 2 && sh[r'].level == 2 && r != r'
    ensures Subtree(ts, r, 2) + {r} !! Subtree(ts, r', 2) + {r'}
  {
    forall p | p in Subtree(ts, r, 2) + {r} && p in Subtree(ts, r', 2) + {r'}
      ensures false
    {
      if p in Subtree(ts, r, 2) {
        var i := HomeOfBelow(ts, sh, leaves, r, |ts[r]|, p);
      }
      if p in Subtree(ts, r', 2) {
        var i' := HomeOfBelow(ts, sh, leaves, r', |ts[r']|, p);
      }
    }
  }

  /** The table that points at a page of a subtree is in the subtree too, or is its top. */
  lemma {:induction false} ParentBelow(ts: Tables, sh: Shape, leaves: Leaves, t: nat, n: nat, p: nat)
    requires Forest(ts, sh) && DistinctUserPages(ts, sh, leaves)
    requires t in sh && n <= PTES && p in Below(ts, t, sh[t].level, n)
    ensures p in sh || p in leaves
    ensures var q := if p in sh then sh[p].parent else leaves[p].0; q == t || q in Below(ts, t, sh[t].level, n)
    decreases sh[t].level, n
  {
    var e := ts[t][n - 1];
    assert EntryOk(ts, sh, t, n - 1) && UserEntryOk(ts, sh, leaves, t, n - 1);
    if p in Below(ts, t, sh[t].level, n - 1) {
      ParentBelow(ts, sh, leaves, t, n - 1, p);
    } else if p != e.ppn {
      assert p in EntryPages(ts, e, sh[t].level);
      assert p in Subtree(ts, e.ppn, sh[t].level - 1);
      ParentBelow(ts, sh, leaves, e.ppn, |ts[e.ppn]|, p);
    }
  }

  /** Taking a whole address space away leaves a forest with distinct user pages. */
  lemma RemainingForest(ts: Tables, sh: Shape, leaves: Leaves, r: nat)
    requires Forest(ts, sh) && DistinctUserPages(ts, sh, leaves) && r in sh && sh[r].level == 2
    ensures var gone := Subtree(ts, r, 2) + {r};
            Forest(ts, sh - gone) && DistinctUserPages(ts, sh - gone, leaves - gone)
  {
    var gone := Subtree(ts, r, 2) + {r};
    var sh', leaves' := sh - gone, leaves - gone;
    forall t, i: nat | t in sh' && i < PTES
      ensures EntryOk(ts, sh', t, i) && UserEntryOk(ts, sh', leaves', t, i)
    {
      var p := ts[t][i].ppn;
      assert EntryOk(ts, sh, t, i) && UserEntryOk(ts, sh, leaves, t, i);
      if p in Subtree(ts, r, 2) {
        ParentBelow(ts, sh, leaves, r, |ts[r]|, p);
      }
    }
  }

  lemma OtherRootsStay(ts: Tables, sh: Shape, leaves: Leaves, r: nat)
    requires Forest(ts, sh) && DistinctUserPages(ts, sh, leaves) && r in sh && sh[r].level == 2
    ensures forall r' | r' in sh && sh[r'].level == 2 && r' != r :: r' !in Subtree(ts, r, 2)
  {
    forall r' | r' in sh && sh[r'].level == 2 && r' != r
      ensures r' !in Subtree(ts, r, 2)
    {
      SpacesDisjoint(ts, sh, leaves, r, r');
    }
  }

  // ----- mapping keeps user pages distinct

  /** Everything below a table is a table or a user page. */
  lemma SubtreeOwned(ts: Tables, sh: Shape, leaves: Leaves, t: nat)
    requires Forest(ts, sh) && DistinctUserPages(ts, sh, leaves) && t in sh
    ensures Subtree(ts, t, sh[t].level) <= sh.Keys + leaves.Keys
  {
    forall p | p in Subtree(ts, t, sh[t].level)
      ensures p in sh.Keys + leaves.Keys
    {
      var i := HomeOfBelow(ts, sh, leaves, t, |ts[t]|, p);
    }
  }

  lemma LinkKeepsUserPages(ts: Tables, sh: Shape, leaves: Leaves, t: nat, i: nat, page: nat, entries: seq<Pte>)
    requires CanLink(ts, sh, t, i, page, entries) && DistinctUserPages(ts, sh, leaves) && page !in leaves
    requires forall k: nat | k < PTES :: !entries[k].flags.u || !entries[k].IsValid()
    requires Forest(Link(ts, t, i, page, entries), sh[page := Node(sh[t].level - 1, t, i)])
    ensures DistinctUserPages(Link(ts, t, i, page, entries), sh[page := Node(sh[t].level - 1, t, i)], leaves)
  {
    var ts' := Link(ts, t, i, page, entries);
    var sh' := sh[page := Node(sh[t].level - 1, t, i)];
    forall q, k: nat | q in sh' && k < PTES
      ensures UserEntryOk(ts', sh', leaves, q, k)
    {
      if q in sh {
        assert UserEntryOk(ts, sh, leaves, q, k);
      }
    }
  }

  lemma WriteKeepsUserPages(ts: Tables, sh: Shape, leaves: Leaves, t: nat, i: nat, leaf: Pte)
    requires Forest(ts, sh) && DistinctUserPages(ts, sh, leaves) && t in sh && i < PTES
    requires leaf.flags.u ==> sh[t].level == 0 && leaf.ppn !in sh && leaf.ppn !in leaves
    requires Forest(ts[t := ts[t][i := leaf]], sh)
    ensures DistinctUserPages(ts[t := ts[t][i := leaf]], sh,
                              if leaf.flags.u then leaves[leaf.ppn := (t, i)] else leaves)
  {
    var ts' := ts[t := ts[t][i := leaf]];
    var leaves' := if leaf.flags.u then leaves[leaf.ppn := (t, i)] else leaves;
    forall q, k: nat | q in sh && k < PTES
      ensures UserEntryOk(ts', sh, leaves', q, k)
    {
      assert UserEntryOk(ts, sh, leaves, q, k);
    }
  }

  lemma OutsideKeepsUserPages(ts: Tables, sh: Shape, leaves: Leaves, page: nat, content: seq<Pte>)
    requires Forest(ts, sh) && DistinctUserPages(ts, sh, leaves) && page !in sh
    requires Forest(ts[page := content], sh)
    ensures DistinctUserPages(ts[page := content], sh, leaves)
  {
    var ts' := ts[page := content];
    forall q, k: nat | q in sh && k < PTES
      ensures UserEntryOk(ts', sh, leaves, q, k)
    {
      assert UserEntryOk(ts, sh, leaves, q, k);
    }
  }

  // ----- the same pages, by the addresses that use them

  /** A lookup passes the lower table `p`. */
  ghost predicate Passes(ts: Tables, t: nat, level: nat, va: nat, p: nat) {
    exists l: nat :: l < level && TableAt(ts, t, level, va, l) == Some(p)
  }

  /** A lookup from table `t` finds the page `p` with the U bit, or passes the table `p`. */
  ghost predicate Uses(ts: Tables, t: nat, level: nat, va: nat, p: nat) {
    var found := Lookup(ts, t, level, va);
    (found.Some? && found.value.flags.u && found.value.pa / 0x1000 == p) || Passes(ts, t, level, va, p)
  }

  /** Addresses that agree below a level. */
  predicate SameBelow(va: nat, va': nat, level: nat) {
    forall l: nat | l <= level :: Idx(va, l) == Idx(va', l) && va % Size(l) == va' % Size(l)
  }

  lemma PieceOfTwoMegabytes(i: nat, rest: nat)
    requires i < PTES && rest < 0x20_0000
    ensures Idx(i * 0x20_0000 + rest, 1) == i && SameBelow(i * 0x20_0000 + rest, rest, 0)
  {
    var va := i * 0x20_0000 + rest;
    assert va / 0x1000 == i * 512 + rest / 0x1000 && va / 0x20_0000 == i;
  }

  lemma PieceOfOneGigabyte(i: nat, rest: nat)
    requires i < PTES && rest < 0x4000_0000
    ensures Idx(i * 0x4000_0000 + rest, 2) == i && SameBelow(i * 0x4000_0000 + rest, rest, 1)
  {
    var va := i * 0x4000_0000 + rest;
    assert va / 0x4000_0000 == i && va / 0x20_0000 == i * 512 + rest / 0x20_0000;
    assert Idx(va, 1) == Idx(rest, 1) && va % 0x20_0000 == rest % 0x20_0000;
    assert va / 0x1000 == i * 0x4_0000 + rest / 0x1000;
    assert (i * 0x4_0000 + rest / 0x1000) % 512 == rest / 0x1000 % 512;
    assert Idx(va, 0) == Idx(rest, 0) && va % 0x1000 == rest % 0x1000;
  }

  lemma PieceAddress(i: nat, rest: nat, level: nat)
    requires 0 < level <= 2 && i < PTES && rest < Size(level)
    ensures Idx(i * Size(level) + rest, level) == i && SameBelow(i * Size(level) + rest, rest, level - 1)
  {
    hide Idx, SameBelow;
    if level == 1 {
      PieceOfTwoMegabytes(i, rest);
    } else {
      PieceOfOneGigabyte(i, rest);
    }
  }

  lemma PieceBound(i: nat, rest: nat, level: nat)
    requires 0 < level <= 2 && i < PTES && rest < Size(level - 1) * PTES
    ensures rest < Size(level) && i * Size(level) + rest < Size(level) * PTES
  {
  }

  lemma PageAddress(i: nat, ppn: nat)
    requires i < PTES
    ensures Idx(i * 0x1000, 0) == i && (ppn * 0x1000 + i * 0x1000 % Size(0)) / 0x1000 == ppn
  {
  }

  lemma {:induction false} SameLookup(ts: Tables, t: nat, level: nat, va: nat, va': nat)
    requires SameBelow(va, va', level)
    ensures Lookup(ts, t, level, va) == Lookup(ts, t, level, va')
    ensures forall l: nat | l <= level :: TableAt(ts, t, level, va, l) == TableAt(ts, t, level, va', l)
    decreases level
  {
    hide Idx, Size;
    if t in ts && |ts[t]| == PTES && level > 0 && ts[t][Idx(va, level)].IsTable() {
      SameLookup(ts, ts[t][Idx(va, level)].ppn, level - 1, va, va');
    }
  }

  lemma LeafUse(ts: Tables, t: nat, i: nat)
    requires t in ts && |ts[t]| == PTES && i < PTES
    requires ts[t][i].IsValid() && ts[t][i].IsLeaf() && ts[t][i].flags.u
    ensures Uses(ts, t, 0, i * 0x1000, ts[t][i].ppn)
  {
    PageAddress(i, ts[t][i].ppn);
    hide Idx;
    assert Lookup(ts, t, 0, i * 0x1000) == LeafView(ts[t][i], 0, i * 0x1000);
  }

  lemma TableUse(ts: Tables, t: nat, i: nat, level: nat)
    requires t in ts && |ts[t]| == PTES && i < PTES && 0 < level <= 2 && ts[t][i].IsTable()
    ensures Uses(ts, t, level, i * Size(level), ts[t][i].ppn)
  {
    var va, p, low := i * Size(level), ts[t][i].ppn, level - 1;
    PieceAddress(i, 0, level);
    hide Idx, SameBelow;
    assert TableAt(ts, t, level, va, low) == TableAt(ts, p, low, va, low) == Some(p);
  }

  lemma UseBelow(ts: Tables, t: nat, level: nat, low: nat, va: nat, rest: nat, p: nat)
    requires level == low + 1 && t in ts && |ts[t]| == PTES && ts[t][Idx(va, level)].IsTable()
    requires SameBelow(va, rest, low) && Uses(ts, ts[t][Idx(va, level)].ppn, low, rest, p)
    ensures Uses(ts, t, level, va, p)
  {
    var e := ts[t][Idx(va, level)];
    SameLookup(ts, e.ppn, low, va, rest);
    hide Idx, Size, SameBelow;
    assert Lookup(ts, t, level, va) == Lookup(ts, e.ppn, low, va);
    if Passes(ts, e.ppn, low, rest, p) {
      var l: nat :| l < low && TableAt(ts, e.ppn, low, rest, l) == Some(p);
      assert TableAt(ts, t, level, va, l) == TableAt(ts, e.ppn, low, va, l);
    }
  }

  lemma {:induction false} SlotOf(ts: Tables, t: nat, level: nat, n: nat, p: nat) returns (i: nat)
    requires t in ts && n <= |ts[t]| && p in Below(ts, t, level, n)
    ensures i < n && p in EntryPages(ts, ts[t][i], level)
    decreases n
  {
    hide EntryPages;
    i := n - 1;
    if p !in EntryPages(ts, ts[t][n - 1], level) {
      i := SlotOf(ts, t, level, n - 1, p);
    }
  }

  /** The slot that a page below a table comes from, and what the slot then holds. */
  lemma FindSlot(ts: Tables, sh: Shape, leaves: Leaves, t: nat, level: nat, p: nat) returns (i: nat, e: Pte)
    requires Forest(ts, sh) && DistinctUserPages(ts, sh, leaves)
    requires t in sh && sh[t].level == level && p in Subtree(ts, t, level)
    ensures t in ts && |ts[t]| == PTES && i < PTES && e == ts[t][i] && e.IsValid() && level <= 2
    ensures e.IsLeaf() ==> level == 0 && e.flags.u && p == e.ppn
    ensures !e.IsLeaf() ==> e.IsTable() && level > 0
    ensures !e.IsLeaf() && p != e.ppn ==>
              e.ppn in sh && sh[e.ppn].level == level - 1 && p in Subtree(ts, e.ppn, level - 1)
  {
    hide Below, Home, Lower, Climb;
    assert p in Below(ts, t, level, |ts[t]|);
    i := SlotOf(ts, t, level, |ts[t]|, p);
    e := ts[t][i];
    assert EntryOk(ts, sh, t, i) && UserEntryOk(ts, sh, leaves, t, i);
  }

  /** Every page below a table is used by some address. */
  lemma {:induction false} FindUse(ts: Tables, sh: Shape, leaves: Leaves, t: nat, level: nat, p: nat)
    returns (va: nat)
    requires Forest(ts, sh) && DistinctUserPages(ts, sh, leaves)
    requires t in sh && sh[t].level == level && p in Subtree(ts, t, level)
    ensures va < Size(level) * PTES && Uses(ts, t, level, va, p)
    decreases level
  {
    hide Forest, DistinctUserPages, Subtree, Idx, SameBelow, Uses;
    var i, e := FindSlot(ts, sh, leaves, t, level, p);
    if e.IsLeaf() {
      va := i * 0x1000;
      LeafUse(ts, t, i);
    } else if p == e.ppn {
      va := i * Size(level);
      PieceBound(i, 0, level);
      TableUse(ts, t, i, level);
    } else {
      var rest := FindUse(ts, sh, leaves, e.ppn, level - 1, p);
      PieceBound(i, rest, level);
      va := i * Size(level) + rest;
      PieceAddress(i, rest, level);
      UseBelow(ts, t, level, level - 1, va, rest, p);
    }
  }

  /** Every page that an address uses is below the table. */
  lemma {:induction false} UsedIsBelow(ts: Tables, sh: Shape, leaves: Leaves, t: nat, va: nat, p: nat)
    requires Forest(ts, sh) && DistinctUserPages(ts, sh, leaves) && t in sh && Uses(ts, t, sh[t].level, va, p)
    ensures p in Subtree(ts, t, sh[t].level)
    decreases sh[t].level
  {
    var level, i := sh[t].level, Idx(va, sh[t].level);
    var e := ts[t][i];
    assert EntryOk(ts, sh, t, i) && UserEntryOk(ts, sh, leaves, t, i);
    BelowGrows(ts, t, level, i, |ts[t]|);
    hide Idx;
    if e.IsTable() && p != e.ppn {
      if Passes(ts, t, level, va, p) {
        var l: nat :| l < level && TableAt(ts, t, level, va, l) == Some(p);
        assert TableAt(ts, e.ppn, level - 1, va, l) == Some(p) && l < level - 1;
      }
      UsedIsBelow(ts, sh, leaves, e.ppn, va, p);
    }
  }

  /** Some address below 2^39 uses the page `p`. */
  ghost predicate Used(ts: Tables, root: nat, p: nat) {
    exists va: nat :: va < VA_LIMIT && Uses(ts, root, 2, va, p)
  }

  /** The pages below a root are exactly the tables and user pages that some address uses. */
  lemma SpaceIff(ts: Tables, sh: Shape, leaves: Leaves, root: nat, p: nat)
    requires Forest(ts, sh) && DistinctUserPages(ts, sh, leaves) && root in sh && sh[root].level == 2
    ensures p in Subtree(ts, root, 2) <==> Used(ts, root, p)
  {
    if p in Subtree(ts, root, 2) {
      var va := FindUse(ts, sh, leaves, root, 2, p);
    }
    if va: nat :| va < VA_LIMIT && Uses(ts, root, 2, va, p) {
      UsedIsBelow(ts, sh, leaves, root, va, p);
    }
  }
}
