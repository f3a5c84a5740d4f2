/**
 * What the program loader builds: an address space seen as bytes at virtual addresses, and the
 * bytes the segments of an executable put there.
 */
module LoaderSpec {
  import opened Base
  import opened PageTables
  import opened Teardown
  import opened AddressSpaces
  import Rle

  // ----- an address space as bytes

  /** The user pages of an address space: virtual page number to physical page number. */
  type UserMap = map<nat, nat>

  function Vp(va: nat): nat {
    va / 0x1000
  }

  function Vo(va: nat): (o: nat)
    ensures o < 0x1000
  {
    va % 0x1000
  }

  lemma PageStart(vp: nat)
    ensures Start(vp * 0x1000, 0) == vp * 0x1000 && Vp(vp * 0x1000) == vp && Vo(vp * 0x1000) == 0
  {
  }

  lemma PageSplit(va: nat)
    ensures va == Vp(va) * 0x1000 + Vo(va)
  {
  }

  lemma InPage(va: nat, hi: nat)
    requires va < hi <= VA_LIMIT
    ensures va < (Vp(va) + 1) * 0x1000 <= VA_LIMIT
  {
  }

  /** Addresses of one page. */
  lemma SamePage(va: nat, k: nat)
    requires Vo(va) + k < 0x1000
    ensures Vp(va + k) == Vp(va) && Vo(va + k) == Vo(va) + k
  {
  }

  /** A user address finds its page with the U bit; any other finds none, or one of the kernel's. */
  ghost predicate Shows(ts: Tables, root: nat, um: UserMap, va: nat) {
    var found := Lookup(ts, root, 2, va);
    if Vp(va) in um then found.Some? && found.value.flags.u && found.value.pa == um[Vp(va)] * 0x1000 + Vo(va)
    else found.Some? ==> !found.value.flags.u
  }

  ghost predicate PageOk(m: Memory, page: nat) {
    0 < page && page in m.used && page in m.data && |m.data[page]| == PAGE_SIZE
  }

  /** The user pages of address space `root` are `um`: distinct, taken, and with contents. */
  ghost predicate View(m: Memory, root: nat, um: UserMap) {
    && root in m.shape && m.shape[root].level == 2
    && (forall va: nat | va < VA_LIMIT :: Shows(m.tables, root, um, va))
    && (forall vp | vp in um :: PageOk(m, um[vp]))
    && (forall vp, vp' | vp in um && vp' in um && vp != vp' :: um[vp] != um[vp'])
  }

  ghost predicate Contents(um: UserMap, data: Bytes) {
    forall vp | vp in um :: um[vp] in data && |data[um[vp]]| == PAGE_SIZE
  }

  /** The byte a program reads at `va`. */
  ghost function ByteAt(um: UserMap, data: Bytes, va: nat): Byte
    requires Contents(um, data) && Vp(va) in um
  {
    data[um[Vp(va)]][Vo(va)]
  }

  ghost predicate Covered(um: UserMap, lo: nat, hi: nat) {
    forall va: nat | lo <= va < hi :: Vp(va) in um
  }

  lemma CoveredAt(um: UserMap, lo: nat, hi: nat, lo': nat, hi': nat)
    requires Covered(um, lo, hi) && lo <= lo' <= hi' <= hi
    ensures Covered(um, lo', hi') && (lo' < hi' ==> Vp(lo') in um)
  {
  }

  /** No address space but `root` changed. */
  ghost predicate OthersKept(m: Memory, m': Memory, root: nat) {
    && Extends(m.shape, m'.shape)
    && forall va: nat, s | va < VA_LIMIT && s in m.shape && m.shape[s].level == 2 && s != root ::
         Lookup(m'.tables, s, 2, va) == Lookup(m.tables, s, 2, va)
  }

  /** Pages that were taken, other than the user pages of `um`, keep their bytes. */
  ghost predicate RestKept(m: Memory, m': Memory, um: UserMap) {
    forall p | p in m.used && p in m.data && p !in um.Values :: p in m'.data && m'.data[p] == m.data[p]
  }

  /** From `m` to `m'` exactly the virtual pages `ps` of `root` were mapped anew, with these flags. */
  ghost predicate Maps(m: Memory, m': Memory, root: nat, ps: set<nat>, flags: Flags) {
    forall va: nat | va < VA_LIMIT :: MapsAt(m, m', root, ps, flags, va)
  }

  ghost predicate MapsAt(m: Memory, m': Memory, root: nat, ps: set<nat>, flags: Flags, va: nat) {
    var found := Lookup(m'.tables, root, 2, va);
    if Vp(va) in ps then found.Some? && found.value.flags == flags else found == Lookup(m.tables, root, 2, va)
  }

  lemma MapsNothing(m: Memory, m': Memory, root: nat, flags: Flags)
    requires m'.tables == m.tables
    ensures Maps(m, m', root, {}, flags)
  {
    assert forall va: nat | va < VA_LIMIT :: MapsAt(m, m', root, {}, flags, va);
  }

  lemma MapsMore(a: Memory, b: Memory, c: Memory, root: nat, ps: set<nat>, qs: set<nat>, flags: Flags)
    requires Maps(a, b, root, ps, flags) && Maps(b, c, root, qs, flags)
    ensures Maps(a, c, root, ps + qs, flags)
  {
    hide Lookup;
    forall va: nat | va < VA_LIMIT
      ensures MapsAt(a, c, root, ps + qs, flags, va)
    {
      assert MapsAt(a, b, root, ps, flags, va) && MapsAt(b, c, root, qs, flags, va);
    }
  }

  /** Views that stay the same map nothing. */
  lemma MapsInvisible(m: Memory, m': Memory, root: nat, flags: Flags)
    requires SameViews(m.shape, m.tables, m'.tables) && root in m.shape && m.shape[root].level == 2
    ensures Maps(m, m', root, {}, flags)
  {
    hide Lookup;
    forall va: nat | va < VA_LIMIT
      ensures MapsAt(m, m', root, {}, flags, va)
    {
      SameViewAt(m.shape, m.tables, m'.tables, root, va);
    }
  }

  /** A 4 KiB piece remapped is one page mapped. */
  lemma MapsPiece(m: Memory, m': Memory, root: nat, vp: nat, pa: nat, flags: Flags)
    requires RemapsTo(m, m', root, vp * 0x1000, vp * 0x1000 + 0x1000, pa, flags)
    requires root in m.shape && m.shape[root].level == 2
    ensures Maps(m, m', root, {vp}, flags)
  {
    hide Lookup;
    forall va: nat | va < VA_LIMIT
      ensures MapsAt(m, m', root, {vp}, flags, va)
    {
      PageSplit(va);
    }
  }

  // ----- storing bytes

  /** The address space holds `bs` from `lo` on, and what it held everywhere else. */
  ghost predicate Stored(um: UserMap, data: Bytes, data': Bytes, lo: nat, bs: seq<Byte>) {
    && Contents(um, data) && Contents(um, data')
    && forall va: nat | Vp(va) in um ::
         ByteAt(um, data', va) == if lo <= va < lo + |bs| then bs[va - lo] else ByteAt(um, data, va)
  }

  lemma StoredNothing(um: UserMap, data: Bytes, lo: nat)
    requires Contents(um, data)
    ensures Stored(um, data, data, lo, [])
  {
  }

  lemma StoredMore(um: UserMap, a: Bytes, b: Bytes, c: Bytes, lo: nat, bs: seq<Byte>, cs: seq<Byte>)
    requires Stored(um, a, b, lo, bs) && Stored(um, b, c, lo + |bs|, cs)
    ensures Stored(um, a, c, lo, bs + cs)
  {
    hide Contents;
  }

  lemma TakeMore(bs: seq<Byte>, n: nat, k: nat)
    requires n + k <= |bs|
    ensures bs[..n] + bs[n..n + k] == bs[..n + k]
  {
  }

  lemma TakeAll(bs: seq<Byte>)
    ensures bs[..0] == [] && bs[..|bs|] == bs
  {
  }

  /** `page` with `bs` copied in at `off`. */
  function Patched(page: seq<Byte>, off: nat, bs: seq<Byte>): (r: seq<Byte>)
    requires off + |bs| <= |page|
    ensures |r| == |page|
  {
    page[..off] + bs + page[off + |bs|..]
  }

  ghost function Patch(m: Memory, page: nat, off: nat, bs: seq<Byte>): Memory
    requires page in m.data && off + |bs| <= |m.data[page]|
  {
    Memory(m.used, m.tables, m.data[page := Patched(m.data[page], off, bs)], m.shape, m.leaves)
  }

  lemma PatchedAt(um: UserMap, data: Bytes, lo: nat, bs: seq<Byte>, va: nat)
    requires Contents(um, data) && Vp(lo) in um && Vo(lo) + |bs| <= PAGE_SIZE && Vp(va) in um
    requires forall vp, vp' | vp in um && vp' in um && vp != vp' :: um[vp] != um[vp']
    ensures var data' := data[um[Vp(lo)] := Patched(data[um[Vp(lo)]], Vo(lo), bs)];
            && Contents(um, data')
            && ByteAt(um, data', va) == if lo <= va < lo + |bs| then bs[va - lo] else ByteAt(um, data, va)
  {
    PageSplit(lo);
    PageSplit(va);
    if lo <= va < lo + |bs| {
      SamePage(lo, va - lo);
    }
    hide Vp, Vo;
  }

  /** Copying into one page stores the bytes there and nowhere else. */
  lemma PatchStores(m: Memory, root: nat, um: UserMap, lo: nat, bs: seq<Byte>)
    requires View(m, root, um) && Vp(lo) in um && Vo(lo) + |bs| <= PAGE_SIZE
    ensures var m' := Patch(m, um[Vp(lo)], Vo(lo), bs);
            View(m', root, um) && Stored(um, m.data, m'.data, lo, bs) && (Owned(m) ==> Owned(m'))
  {
    var m' := Patch(m, um[Vp(lo)], Vo(lo), bs);
    forall va: nat | Vp(va) in um
      ensures ByteAt(um, m'.data, va) == if lo <= va < lo + |bs| then bs[va - lo] else ByteAt(um, m.data, va)
    {
      PatchedAt(um, m.data, lo, bs, va);
    }
    assert forall va: nat | va < VA_LIMIT :: Shows(m.tables, root, um, va) ==> Shows(m'.tables, root, um, va);
  }

  // ----- new pages

  /** Memory after a page has been taken and zeroed; read as a table, it now holds `entries`. */
  ghost function Taken(m: Memory, page: nat, entries: seq<Pte>): Memory {
    Memory(m.used + {page}, m.tables[page := entries], m.data[page := ZeroPage()], m.shape, m.leaves)
  }

  /** Taking a page shows nowhere. */
  lemma TakenKeeps(m: Memory, root: nat, um: UserMap, page: nat, entries: seq<Pte>)
    requires Owned(m) && View(m, root, um) && page !in m.used && page > 0
    ensures var m' := Taken(m, page, entries);
            && Owned(m') && View(m', root, um) && Spare(m', page) && PageOk(m', page)
            && OthersKept(m, m', root) && page !in um.Values
  {
    var m' := Taken(m, page, entries);
    OutsideKeepsViews(m.tables, m.shape, page, entries);
    OutsideKeepsUserPages(m.tables, m.shape, m.leaves, page, entries);
    hide Lookup, Forest;
    forall va: nat | va < VA_LIMIT
      ensures Shows(m'.tables, root, um, va)
    {
      assert Shows(m.tables, root, um, va);
      SameViewAt(m.shape, m.tables, m'.tables, root, va);
    }
    forall va: nat, s | va < VA_LIMIT && s in m.shape && m.shape[s].level == 2 && s != root
      ensures Lookup(m'.tables, s, 2, va) == Lookup(m.tables, s, 2, va)
    {
      SameViewAt(m.shape, m.tables, m'.tables, s, va);
    }
  }

  /** Changing no view keeps this one. */
  lemma InvisibleKeeps(m: Memory, m': Memory, root: nat, um: UserMap)
    requires Invisible(m, m') && View(m, root, um)
    ensures View(m', root, um) && OthersKept(m, m', root) && RestKept(m, m', map[])
    ensures forall vp | vp in um :: m'.data[um[vp]] == m.data[um[vp]]
  {
    hide Lookup, Forest, Owned;
    forall va: nat | va < VA_LIMIT
      ensures Shows(m'.tables, root, um, va)
    {
      assert Shows(m.tables, root, um, va);
      SameViewAt(m.shape, m.tables, m'.tables, root, va);
    }
    forall va: nat, s | va < VA_LIMIT && s in m.shape && m.shape[s].level == 2 && s != root
      ensures Lookup(m'.tables, s, 2, va) == Lookup(m.tables, s, 2, va)
    {
      SameViewAt(m.shape, m.tables, m'.tables, s, va);
    }
    forall vp | vp in um
      ensures PageOk(m', um[vp]) && m'.data[um[vp]] == m.data[um[vp]]
    {
      assert PageOk(m, um[vp]);
    }
  }

  /** Mapping a page that no address uses adds it to the view. */
  lemma MappedPage(m: Memory, m': Memory, root: nat, um: UserMap, vp: nat, page: nat, flags: Flags)
    requires View(m, root, um) && page !in um.Values && PageOk(m, page) && flags.u && (vp + 1) * 0x1000 <= VA_LIMIT
    requires Mapped(m, m', root, vp * 0x1000, vp * 0x1000 + 0x1000, page * 0x1000, flags)
    ensures View(m', root, um[vp := page]) && OthersKept(m, m', root) && RestKept(m, m', map[])
    ensures m'.data[page] == m.data[page] && forall v | v in um :: m'.data[um[v]] == m.data[um[v]]
  {
    hide Lookup;
    var um' := um[vp := page];
    forall va: nat | va < VA_LIMIT
      ensures Shows(m'.tables, root, um', va)
    {
      assert Shows(m.tables, root, um, va);
      PageSplit(va);
    }
    forall v | v in um'
      ensures PageOk(m', um'[v]) && m'.data[um'[v]] == m.data[um'[v]]
    {
      assert v in um ==> PageOk(m, um[v]);
    }
    assert forall v, v' | v in um' && v' in um' && v != v' :: um'[v] != um'[v'];
    assert RestKept(m, m', map[]);
  }

  // ----- steps of loading

  /** What a program reads at `va`, with 0 where nothing is mapped. */
  ghost function Held(um: UserMap, data: Bytes, va: nat): Byte
    requires Contents(um, data)
  {
    if Vp(va) in um then ByteAt(um, data, va) else 0
  }

  /** An address space that the loader works on. */
  ghost predicate Ready(m: Memory, root: nat, um: UserMap) {
    Owned(m) && View(m, root, um)
  }

  lemma ReadyOwned(m: Memory, root: nat, um: UserMap)
    requires Ready(m, root, um)
    ensures Owned(m) && Sound(m)
  {
  }

  lemma ReadyContents(m: Memory, root: nat, um: UserMap)
    requires View(m, root, um)
    ensures Contents(um, m.data)
  {
    forall vp | vp in um
      ensures um[vp] in m.data && |m.data[um[vp]]| == PAGE_SIZE
    {
      assert PageOk(m, um[vp]);
    }
  }

  /**
   * Loading touches nothing outside `root`: other address spaces show what they showed, and pages
   * taken before keep their bytes unless they are user pages of `root`. Its new pages are new.
   */
  ghost predicate Apart(m: Memory, m': Memory, root: nat, um: UserMap, um': UserMap) {
    && OthersKept(m, m', root) && RestKept(m, m', um) && m.used <= m'.used
    && forall p | p in um'.Values :: p in um.Values || p !in m.used
  }

  lemma OthersTrans(a: Memory, b: Memory, c: Memory, root: nat)
    requires OthersKept(a, b, root) && OthersKept(b, c, root)
    ensures OthersKept(a, c, root)
  {
    hide Lookup;
    forall va: nat, s | va < VA_LIMIT && s in a.shape && a.shape[s].level == 2 && s != root
      ensures Lookup(c.tables, s, 2, va) == Lookup(a.tables, s, 2, va)
    {
      assert Lookup(b.tables, s, 2, va) == Lookup(a.tables, s, 2, va);
    }
  }

  lemma ApartTrans(a: Memory, b: Memory, c: Memory, root: nat, um: UserMap, um': UserMap, um'': UserMap)
    requires Apart(a, b, root, um, um') && Apart(b, c, root, um', um'')
    ensures Apart(a, c, root, um, um'')
  {
    OthersTrans(a, b, c, root);
    hide OthersKept;
  }

  lemma ApartSelf(m: Memory, root: nat, um: UserMap)
    ensures Apart(m, m, root, um, um)
  {
  }

  lemma PatchApart(m: Memory, root: nat, um: UserMap, vp: nat, off: nat, bs: seq<Byte>)
    requires vp in um && um[vp] in m.data && off + |bs| <= |m.data[um[vp]]|
    ensures Apart(m, Patch(m, um[vp], off, bs), root, um, um)
  {
  }

  /** Everything reads as before. */
  ghost predicate SameHeld(um: UserMap, data: Bytes, um': UserMap, data': Bytes) {
    && Contents(um, data) && Contents(um', data')
    && forall va: nat :: Held(um', data', va) == Held(um, data, va)
  }

  /** Page `vp` reads as zeros and everything else as before. */
  ghost predicate ZeroedPage(um: UserMap, data: Bytes, um': UserMap, data': Bytes, vp: nat) {
    && Contents(um, data) && Contents(um', data')
    && forall va: nat :: Held(um', data', va) == if Vp(va) == vp then 0 else Held(um, data, va)
  }

  lemma NewPageHeld(m: Memory, m': Memory, root: nat, um: UserMap, vp: nat, page: nat)
    requires View(m, root, um) && View(m', root, um[vp := page])
    requires page in m'.data && m'.data[page] == ZeroPage()
    requires forall v | v in um :: um[v] in m.data && um[v] in m'.data && m'.data[um[v]] == m.data[um[v]]
    ensures ZeroedPage(um, m.data, um[vp := page], m'.data, vp)
  {
    ReadyContents(m, root, um);
    ReadyContents(m', root, um[vp := page]);
  }

  lemma KeptHeld(m: Memory, m': Memory, root: nat, um: UserMap)
    requires View(m, root, um) && View(m', root, um)
    requires forall v | v in um :: um[v] in m.data && um[v] in m'.data && m'.data[um[v]] == m.data[um[v]]
    ensures SameHeld(um, m.data, um, m'.data)
  {
    ReadyContents(m, root, um);
    ReadyContents(m', root, um);
  }

  /** From `m` to `m'` the loader put a zeroed page at `vp`, or ran out of memory. */
  ghost predicate PageDone(m: Memory, m': Memory, root: nat, um: UserMap, um': UserMap, vp: nat, flags: Flags,
                           ok: bool) {
    && Ready(m', root, um') && Apart(m, m', root, um, um') && Maps(m, m', root, if ok then {vp} else {}, flags)
    && if ok then um'.Keys == um.Keys + {vp} && ZeroedPage(um, m.data, um', m'.data, vp)
       else um' == um && SameHeld(um, m.data, um, m'.data)
  }

  /** A page taken and mapped, seen from before. */
  lemma PageMapped(m: Memory, m': Memory, root: nat, um: UserMap, vp: nat, page: nat, entries: seq<Pte>, flags: Flags)
    requires Ready(m, root, um) && page !in m.used && page > 0 && flags.u && (vp + 1) * 0x1000 <= VA_LIMIT
    requires Owned(m') && Grows(Taken(m, page, entries), m')
    requires RemapsTo(Taken(m, page, entries), m', root, Start(vp * 0x1000, 0), Start(vp * 0x1000, 0) + Size(0),
             page * 0x1000, flags)
    ensures PageDone(m, m', root, um, um[vp := page], vp, flags, true)
  {
    var m1 := Taken(m, page, entries);
    PageStart(vp);
    TakenKeeps(m, root, um, page, entries);
    MappedPage(m1, m', root, um, vp, page, flags);
    OutsideKeepsViews(m.tables, m.shape, page, entries);
    MapsInvisible(m, m1, root, flags);
    MapsPiece(m1, m', root, vp, page * 0x1000, flags);
    MapsMore(m, m1, m', root, {}, {vp}, flags);
    assert {} + {vp} == {vp};
    hide Mapped, Owned, Lookup, Maps;
    OthersTrans(m, m1, m', root);
    NewPageHeld(m, m', root, um, vp, page);
  }

  lemma PageDoneReady(m: Memory, m': Memory, root: nat, um: UserMap, um': UserMap, vp: nat, flags: Flags, ok: bool)
    requires PageDone(m, m', root, um, um', vp, flags, ok)
    ensures Ready(m', root, um') && Apart(m, m', root, um, um')
  {
  }

  lemma NoPage(m: Memory, root: nat, um: UserMap, vp: nat, flags: Flags)
    requires Ready(m, root, um)
    ensures PageDone(m, m, root, um, um, vp, flags, false)
  {
    MapsNothing(m, m, root, flags);
    ReadyContents(m, root, um);
    ApartSelf(m, root, um);
  }

  /** A page taken for nothing: nobody sees it. */
  lemma PageNotMapped(m: Memory, m': Memory, root: nat, um: UserMap, vp: nat, page: nat, entries: seq<Pte>,
                      flags: Flags)
    requires Ready(m, root, um) && page !in m.used && page > 0 && Invisible(Taken(m, page, entries), m')
    ensures PageDone(m, m', root, um, um, vp, flags, false)
  {
    var m1 := Taken(m, page, entries);
    TakenKeeps(m, root, um, page, entries);
    OutsideKeepsViews(m.tables, m.shape, page, entries);
    MapsInvisible(m, m1, root, flags);
    MapsInvisible(m1, m', root, flags);
    var none: set<nat> := {};
    MapsMore(m, m1, m', root, none, none, flags);
    assert none + none == none;
    hide Maps;
    InvisibleKeeps(m1, m', root, um);
    OthersTrans(m, m1, m', root);
    hide Owned, Lookup, OthersKept;
    KeptHeld(m, m', root, um);
  }

  /** From `m` to `m'`, the loader stored `bs` at `lo` and did nothing else. */
  ghost predicate Filled(m: Memory, m': Memory, root: nat, um: UserMap, lo: nat, bs: seq<Byte>) {
    && m'.tables == m.tables && Ready(m', root, um) && Apart(m, m', root, um, um)
    && Stored(um, m.data, m'.data, lo, bs)
  }

  lemma FilledReady(m: Memory, m': Memory, root: nat, um: UserMap, lo: nat, bs: seq<Byte>)
    requires Filled(m, m', root, um, lo, bs)
    ensures Ready(m', root, um) && Apart(m, m', root, um, um)
  {
  }

  lemma FilledNothing(m: Memory, root: nat, um: UserMap, lo: nat)
    requires Ready(m, root, um)
    ensures Filled(m, m, root, um, lo, [])
  {
    ReadyContents(m, root, um);
    StoredNothing(um, m.data, lo);
    ApartSelf(m, root, um);
    hide View, Owned;
  }

  lemma FilledMore(m: Memory, m1: Memory, m2: Memory, root: nat, um: UserMap, lo: nat, mid: nat, bs: seq<Byte>,
                   cs: seq<Byte>)
    requires Filled(m, m1, root, um, lo, bs) && mid == lo + |bs| && Filled(m1, m2, root, um, mid, cs)
    ensures Filled(m, m2, root, um, lo, bs + cs)
  {
    hide Ready, Apart, Stored;
    ApartTrans(m, m1, m2, root, um, um, um);
    StoredMore(um, m.data, m1.data, m2.data, lo, bs, cs);
  }

  lemma FilledPatch(m: Memory, root: nat, um: UserMap, lo: nat, bs: seq<Byte>)
    requires Ready(m, root, um) && Vp(lo) in um && Vo(lo) + |bs| <= PAGE_SIZE
    ensures um[Vp(lo)] in m.data && |m.data[um[Vp(lo)]]| == PAGE_SIZE
    ensures Filled(m, Patch(m, um[Vp(lo)], Vo(lo), bs), root, um, lo, bs)
  {
    assert PageOk(m, um[Vp(lo)]);
    PatchStores(m, root, um, lo, bs);
    PatchApart(m, root, um, Vp(lo), Vo(lo), bs);
    hide View, Apart, Stored, Owned;
  }

  /** The base of a user page is found with and without asking for the U bit. */
  lemma FindsPage(m: Memory, root: nat, um: UserMap, va: nat)
    requires Ready(m, root, um) && Vp(va) in um && va < VA_LIMIT
    ensures Translate(m.tables, root, Vp(va) * 0x1000) == um[Vp(va)] * 0x1000
    ensures TranslateUser(m.tables, root, Vp(va) * 0x1000) == um[Vp(va)] * 0x1000
  {
    PageStart(Vp(va));
    PageSplit(va);
    assert Shows(m.tables, root, um, Vp(va) * 0x1000);
    hide Lookup, Owned;
  }

  // ----- segments

  /** A segment of an executable. `flags` are its access bits. */
  datatype Segment = Segment(vaddr: nat, filesz: nat, memsz: nat, offset: nat, flags: Flags, compressedSize: nat)

  /** A range of addresses has one in virtual page `vp`. */
  predicate Touches(lo: nat, hi: nat, vp: nat) {
    lo < hi && Vp(lo) <= vp <= Vp(hi - 1)
  }

  /** The flags of a segment's pages: its own, and valid, user, accessed and dirty. */
  function SegmentFlags(s: Segment): Flags {
    s.flags.(v := true, u := true, a := true, d := true)
  }

  /** Readable and writable for users, not executable. */
  const UserFlags := Flags(true, true, true, false, true, false, true, true, 0)

  function Min(a: nat, b: nat): nat {
    if a < b then a else b
  }

  function Copies(n: nat, x: Byte): (r: seq<Byte>)
    ensures |r| == n
  {
    seq(n, _ => x)
  }

  /**
   * `out` followed by the expansion of `src`, cut off at `cap` bytes; None when `src` is cut short.
   */
  function Unpack(src: seq<Byte>, out: seq<Byte>, cap: nat): Option<seq<Byte>>
    decreases |src|
  {
    if |src| == 0 || |out| >= cap then Some(out)
    else if src[0] >= 0x80 then
      if |src| < 2 then None
      else Unpack(src[2..], out + Copies(Min(src[0] - 0x80 + 1, cap - |out|), src[1]), cap)
    else
      var left := Min(src[0] + 1, cap - |out|);
      if 1 + left > |src| then None else Unpack(src[1 + left..], out + src[1..1 + left], cap)
  }

  /** A run in the stream, decoded where it stands. */
  lemma {:induction false} UnpackRun(src: seq<Byte>, i: nat, out: seq<Byte>, cap: nat, room: nat)
    requires i + 1 < |src| && |out| + room == cap && room > 0 && src[i] >= 0x80
    ensures Unpack(src[i..], out, cap)
            == Unpack(src[i + 2..], out + Copies(Min(src[i] - 0x80 + 1, room), src[i + 1]), cap)
  {
    var rest := src[i..];
    assert rest[2..] == src[i + 2..] && rest[1] == src[i + 1];
  }

  /** A literal in the stream, decoded where it stands. */
  lemma {:induction false} UnpackLiteral(src: seq<Byte>, i: nat, out: seq<Byte>, cap: nat, room: nat, left: nat)
    requires i < |src| && |out| + room == cap && room > 0 && src[i] < 0x80
    requires left == Min(src[i] as int + 1, room) && i + 1 + left <= |src|
    ensures Unpack(src[i..], out, cap) == Unpack(src[i + 1 + left..], out + src[i + 1..i + 1 + left], cap)
  {
    var rest := src[i..];
    assert rest[1 + left..] == src[i + 1 + left..] && rest[1..1 + left] == src[i + 1..i + 1 + left];
  }

  /** A packet that the end of the stream cuts off. */
  lemma {:induction false} UnpackShort(src: seq<Byte>, i: nat, out: seq<Byte>, cap: nat, room: nat)
    requires i < |src| && |out| + room == cap && room > 0
    requires if src[i] >= 0x80 then i + 1 == |src| else i + 1 + Min(src[i] as int + 1, room) > |src|
    ensures Unpack(src[i..], out, cap) == None
  {
  }

  lemma UnpackEnd(src: seq<Byte>, i: nat, out: seq<Byte>, cap: nat)
    requires i <= |src| && (i == |src| || |out| >= cap)
    ensures Unpack(src[i..], out, cap) == Some(out)
  {
  }

  /** Where the snapshot decoder succeeds, so does this one, with the same bytes. */
  lemma {:induction false} UnpackAgrees(src: seq<Byte>, out: seq<Byte>, cap: nat)
    requires Rle.Expand(src, out, cap).Some?
    ensures Unpack(src, out, cap) == Rle.Expand(src, out, cap)
    decreases |src|
  {
    if |src| > 0 && |out| < cap {
      if src[0] >= 0x80 {
        assert Copies(src[0] - 0x80 + 1, src[1]) == seq(src[0] - 0x80 + 1, _ => src[1]);
        UnpackAgrees(src[2..], out + seq(src[0] - 0x80 + 1, _ => src[1]), cap);
      } else {
        UnpackAgrees(src[src[0] + 2..], out + src[1..src[0] + 2], cap);
      }
    }
  }

  predicate IsPacked(s: Segment, compressed: bool) {
    compressed && s.compressedSize > 0
  }

  /** The bytes of the image that hold a segment. */
  function StoredSize(s: Segment, compressed: bool): nat {
    if IsPacked(s, compressed) then s.compressedSize else s.filesz
  }

  /** The bytes a segment puts into memory, or None when its compressed form is cut short. */
  function SegmentBytes(image: seq<Byte>, s: Segment, compressed: bool): Option<seq<Byte>>
    requires s.offset + StoredSize(s, compressed) <= |image|
  {
    if IsPacked(s, compressed) then Unpack(image[s.offset..s.offset + s.compressedSize], [], s.filesz)
    else Some(image[s.offset..s.offset + s.filesz])
  }

  /** The image holds `raw` for a segment the way `elf2onx` writes it: compressed if that is shorter. */
  ghost predicate Packed(image: seq<Byte>, s: Segment, compressed: bool, raw: seq<Byte>) {
    && s.filesz == |raw| && s.offset + StoredSize(s, compressed) <= |image|
    && if IsPacked(s, compressed)
       then image[s.offset..s.offset + s.compressedSize] == Rle.Compress(raw, 0)
       else image[s.offset..s.offset + s.filesz] == raw
  }

  /** What the host tool packed is what the kernel unpacks. */
  lemma PackedBytes(image: seq<Byte>, s: Segment, compressed: bool, raw: seq<Byte>)
    requires Packed(image, s, compressed, raw)
    ensures SegmentBytes(image, s, compressed) == Some(raw)
  {
    if IsPacked(s, compressed) {
      Rle.RoundTrip(raw, s.filesz);
      UnpackAgrees(Rle.Compress(raw, 0), [], s.filesz);
    }
  }

  predicate InSegment(s: Segment, bs: seq<Byte>, va: nat) {
    s.vaddr <= va < s.vaddr + |bs|
  }

  /** The byte at `va` once the first `k` segments are in place: the last one that has it wins. */
  function Loaded(segs: seq<Segment>, bytes: seq<seq<Byte>>, k: nat, va: nat): Byte
    requires k <= |segs| == |bytes|
  {
    if k == 0 then 0
    else if InSegment(segs[k - 1], bytes[k - 1], va) then bytes[k - 1][va - segs[k - 1].vaddr]
    else Loaded(segs, bytes, k - 1, va)
  }

  // ----- mapping the pages of a range

  /** From `m` to `m'` user pages were added, with these flags, that read as zeros, and nothing else changed. */
  ghost predicate PagesAdded(m: Memory, m': Memory, root: nat, um: UserMap, um': UserMap, flags: Flags) {
    && Ready(m', root, um') && Apart(m, m', root, um, um') && Maps(m, m', root, um'.Keys - um.Keys, flags)
    && SameHeld(um, m.data, um', m'.data) && um.Keys <= um'.Keys
  }

  lemma NothingAdded(m: Memory, root: nat, um: UserMap, flags: Flags)
    requires Ready(m, root, um)
    ensures PagesAdded(m, m, root, um, um, flags)
  {
    MapsNothing(m, m, root, flags);
    assert um.Keys - um.Keys == {};
    ReadyContents(m, root, um);
    ApartSelf(m, root, um);
  }

  lemma AddedReady(m: Memory, m': Memory, root: nat, um: UserMap, um': UserMap, flags: Flags)
    requires PagesAdded(m, m', root, um, um', flags)
    ensures Ready(m', root, um') && Apart(m, m', root, um, um')
  {
  }

  /** A page put where none was adds zeros; running out of memory adds nothing. */
  lemma AddedMore(m: Memory, m1: Memory, m2: Memory, root: nat, um: UserMap, um1: UserMap, um2: UserMap, vp: nat,
                  flags: Flags, ok: bool)
    requires PagesAdded(m, m1, root, um, um1, flags) && PageDone(m1, m2, root, um1, um2, vp, flags, ok) && vp !in um1
    ensures PagesAdded(m, m2, root, um, um2, flags) && (ok ==> vp in um2) && um1.Keys <= um2.Keys <= um1.Keys + {vp}
  {
    hide Ready, Apart, Maps;
    MapsMore(m, m1, m2, root, um1.Keys - um.Keys, if ok then {vp} else {}, flags);
    assert um1.Keys - um.Keys + (if ok then {vp} else {}) == um2.Keys - um.Keys;
    ApartTrans(m, m1, m2, root, um, um1, um2);
    assert SameHeld(um1, m1.data, um2, m2.data);
    SameTrans(um, m.data, um1, m1.data, um2, m2.data);
    hide Ready, Apart, SameHeld, ZeroedPage;
  }

  lemma SameTrans(um: UserMap, d: Bytes, um1: UserMap, d1: Bytes, um2: UserMap, d2: Bytes)
    requires SameHeld(um, d, um1, d1) && SameHeld(um1, d1, um2, d2)
    ensures SameHeld(um, d, um2, d2)
  {
    hide Held, Contents;
  }

  /** Where no user page is, `translate_user` finds nothing. */
  lemma FindsNoPage(m: Memory, root: nat, um: UserMap, va: nat)
    requires Ready(m, root, um) && va < VA_LIMIT
    ensures TranslateUser(m.tables, root, Vp(va) * 0x1000) == 0 <==> Vp(va) !in um
  {
    PageStart(Vp(va));
    PageSplit(va);
    assert Shows(m.tables, root, um, Vp(va) * 0x1000);
    if Vp(va) in um {
      assert PageOk(m, um[Vp(va)]);
    }
    hide Lookup, Owned;
  }

  lemma InRange(lo: nat, va: nat, hi: nat)
    requires lo <= va < hi
    ensures Touches(lo, hi, Vp(va))
  {
  }

  /** Covering goes on to the end of the page. */
  lemma CoveredMore(um: UserMap, um': UserMap, lo: nat, va: nat, hi: nat)
    requires Covered(um, lo, va) && um.Keys <= um'.Keys && Vp(va) in um' && lo <= va && hi <= (Vp(va) + 1) * 0x1000
    ensures Covered(um', lo, hi)
  {
    forall x: nat | lo <= x < hi
      ensures Vp(x) in um'
    {
      if x < va {
        assert Vp(x) in um.Keys;
      } else {
        PageSplit(va);
        PageSplit(x);
        assert Vp(x) == Vp(va);
      }
    }
  }

  /** From `m` to `m'` a segment was loaded: its memory is mapped, holds `bs`, and all else is kept. */
  ghost predicate SegmentLoaded(m: Memory, m': Memory, root: nat, um: UserMap, um': UserMap, s: Segment,
                                bs: seq<Byte>) {
    && Ready(m', root, um') && Apart(m, m', root, um, um') && um.Keys <= um'.Keys
    && Covered(um', s.vaddr, s.vaddr + s.memsz) && Maps(m, m', root, um'.Keys - um.Keys, SegmentFlags(s))
    && (forall vp | vp in um' && vp !in um :: Touches(s.vaddr, s.vaddr + s.memsz, vp))
    && Contents(um, m.data) && Contents(um', m'.data)
    && forall va: nat ::
         Held(um', m'.data, va) == if InSegment(s, bs, va) then bs[va - s.vaddr] else Held(um, m.data, va)
  }

  lemma LoadsSegment(m: Memory, m1: Memory, m2: Memory, root: nat, um: UserMap, um': UserMap, s: Segment, bs: seq<Byte>)
    requires PagesAdded(m, m1, root, um, um', SegmentFlags(s)) && Covered(um', s.vaddr, s.vaddr + s.memsz)
    requires |bs| <= s.memsz && forall vp | vp in um' && vp !in um :: Touches(s.vaddr, s.vaddr + s.memsz, vp)
    requires Filled(m1, m2, root, um', s.vaddr, bs)
    ensures SegmentLoaded(m, m2, root, um, um', s, bs)
  {
    hide Ready, Apart, Held, Contents, ByteAt, Covered, Vp, Maps, Touches, SegmentFlags;
    MapsNothing(m1, m2, root, SegmentFlags(s));
    MapsMore(m, m1, m2, root, um'.Keys - um.Keys, {}, SegmentFlags(s));
    assert um'.Keys - um.Keys + {} == um'.Keys - um.Keys;
    ApartTrans(m, m1, m2, root, um, um', um');
    forall va: nat
      ensures Held(um', m2.data, va) == if InSegment(s, bs, va) then bs[va - s.vaddr] else Held(um, m.data, va)
    {
      HeldAt(um', m1.data, m2.data, s, bs, va);
      assert Held(um', m1.data, va) == Held(um, m.data, va);
    }
  }

  lemma HeldAt(um: UserMap, data: Bytes, data': Bytes, s: Segment, bs: seq<Byte>, va: nat)
    requires Covered(um, s.vaddr, s.vaddr + s.memsz) && |bs| <= s.memsz && Stored(um, data, data', s.vaddr, bs)
    ensures Held(um, data', va) == if InSegment(s, bs, va) then bs[va - s.vaddr] else Held(um, data, va)
  {
    hide Contents;
    if InSegment(s, bs, va) {
      assert Vp(va) in um;
    }
  }

  lemma {:induction false} UnpackLen(src: seq<Byte>, out: seq<Byte>, cap: nat)
    requires |out| <= cap && Unpack(src, out, cap).Some?
    ensures |Unpack(src, out, cap).value| <= cap
    decreases |src|
  {
    if |src| > 0 && |out| < cap {
      if src[0] >= 0x80 {
        UnpackLen(src[2..], out + Copies(Min(src[0] - 0x80 + 1, cap - |out|), src[1]), cap);
      } else {
        var left := Min(src[0] + 1, cap - |out|);
        UnpackLen(src[1 + left..], out + src[1..1 + left], cap);
      }
    }
  }

  lemma SegmentBytesLen(image: seq<Byte>, s: Segment, compressed: bool)
    requires s.offset + StoredSize(s, compressed) <= |image| && SegmentBytes(image, s, compressed).Some?
    ensures |SegmentBytes(image, s, compressed).value| <= s.filesz
  {
    if IsPacked(s, compressed) {
      UnpackLen(image[s.offset..s.offset + s.compressedSize], [], s.filesz);
    }
  }

  /** How a segment is stored, and the flags its pages get. */
  lemma SegmentFacts(image: seq<Byte>, s: Segment, compressed: bool)
    requires s.offset + StoredSize(s, compressed) <= |image| && s.filesz <= s.memsz
    ensures StoredSize(s, compressed) == if compressed && s.compressedSize > 0 then s.compressedSize else s.filesz
    ensures SegmentBytes(image, s, compressed)
            == if compressed && s.compressedSize > 0
               then Unpack(image[s.offset..s.offset + s.compressedSize], [], s.filesz)
               else Some(image[s.offset..s.offset + s.filesz])
    ensures SegmentBytes(image, s, compressed).Some? ==> |SegmentBytes(image, s, compressed).value| <= s.memsz
    ensures s.flags.IsLeaf() ==> s.flags.(u := true, a := true, d := true).IsLeaf()
    ensures s.flags.(u := true, a := true, d := true).u
    ensures s.flags.(u := true, a := true, d := true).(v := true) == SegmentFlags(s)
  {
    if SegmentBytes(image, s, compressed).Some? {
      SegmentBytesLen(image, s, compressed);
    }
  }

  // ----- all segments, then stack and heap

  /** Every address reads as the first `k` segments leave it. */
  ghost predicate HoldsSegments(um: UserMap, data: Bytes, segs: seq<Segment>, bytes: seq<seq<Byte>>, k: nat)
    requires k <= |segs| == |bytes|
  {
    && Contents(um, data)
    && (forall va: nat :: Held(um, data, va) == Loaded(segs, bytes, k, va))
    && forall j: nat | j < k :: Covered(um, segs[j].vaddr, segs[j].vaddr + segs[j].memsz)
  }

  lemma HoldsNone(um: UserMap, data: Bytes, segs: seq<Segment>)
    requires um == map[]
    ensures HoldsSegments(um, data, segs, seq(|segs|, _ => []), 0)
  {
  }

  lemma LoadedPrefix(segs: seq<Segment>, bytes: seq<seq<Byte>>, bytes': seq<seq<Byte>>, k: nat, va: nat)
    requires k <= |segs| == |bytes| == |bytes'| && forall j: nat | j < k :: bytes'[j] == bytes[j]
    ensures Loaded(segs, bytes', k, va) == Loaded(segs, bytes, k, va)
  {
  }

  /** One more segment. */
  lemma HoldsMore(m: Memory, m': Memory, root: nat, um: UserMap, um': UserMap, segs: seq<Segment>,
                  bytes: seq<seq<Byte>>, k: nat, bs: seq<Byte>)
    requires k < |segs| == |bytes| && HoldsSegments(um, m.data, segs, bytes, k)
    requires SegmentLoaded(m, m', root, um, um', segs[k], bs)
    ensures HoldsSegments(um', m'.data, segs, bytes[k := bs], k + 1)
  {
    var bytes' := bytes[k := bs];
    hide Ready, Apart, Contents, Vp;
    forall va: nat
      ensures Held(um', m'.data, va) == Loaded(segs, bytes', k + 1, va)
    {
      assert Held(um, m.data, va) == Loaded(segs, bytes, k, va);
      LoadedPrefix(segs, bytes, bytes', k, va);
    }
    forall j: nat | j < k + 1
      ensures Covered(um', segs[j].vaddr, segs[j].vaddr + segs[j].memsz)
    {
      if j < k {
        CoveredGrows(um, um', segs[j].vaddr, segs[j].vaddr + segs[j].memsz);
      }
    }
  }

  lemma CoveredGrows(um: UserMap, um': UserMap, lo: nat, hi: nat)
    requires Covered(um, lo, hi) && um.Keys <= um'.Keys
    ensures Covered(um', lo, hi)
  {
    forall va: nat | lo <= va < hi
      ensures Vp(va) in um'
    {
      assert Vp(va) in um.Keys;
    }
  }

  // ----- a new address space, and zeroed ranges in it

  /** A root whose slots are empty or hold kernel leaves. */
  predicate KernelEntry(e: Pte) {
    !e.IsValid() || (e.IsLeaf() && !e.flags.u && e.ppn + Span(2) <= PPN_LIMIT)
  }

  ghost function WithRoot(m: Memory, root: nat, entries: seq<Pte>): Memory {
    Memory(m.used + {root}, m.tables[root := entries], m.data[root := ZeroPage()], m.shape[root := Node(2, root, 0)],
      m.leaves)
  }

  /** A new address space shows no user page, and is apart from all others. */
  lemma NewSpace(m: Memory, root: nat, entries: seq<Pte>)
    requires Owned(m) && root !in m.used && |entries| == PTES && forall i: nat | i < PTES :: KernelEntry(entries[i])
    ensures Ready(WithRoot(m, root, entries), root, map[])
    ensures Apart(m, WithRoot(m, root, entries), root, map[], map[])
  {
    var m' := WithRoot(m, root, entries);
    OutsideKeepsViews(m.tables, m.shape, root, entries);
    OutsideKeepsUserPages(m.tables, m.shape, m.leaves, root, entries);
    forall t, i: nat | t in m'.shape && i < PTES
      ensures EntryOk(m'.tables, m'.shape, t, i) && UserEntryOk(m'.tables, m'.shape, m'.leaves, t, i)
    {
      NewSpaceEntry(m, root, entries, t, i);
    }
    forall va: nat, s | va < VA_LIMIT && s in m.shape && m.shape[s].level == 2 && s != root
      ensures Lookup(m'.tables, s, 2, va) == Lookup(m.tables, s, 2, va)
    {
      SameViewAt(m.shape, m.tables, m'.tables, s, va);
    }
    forall va: nat | va < VA_LIMIT
      ensures Shows(m'.tables, root, map[], va)
    {
      assert KernelEntry(entries[Idx(va, 2)]);
    }
  }

  lemma NewSpaceEntry(m: Memory, root: nat, entries: seq<Pte>, t: nat, i: nat)
    requires Owned(m) && root !in m.used && |entries| == PTES && forall k: nat | k < PTES :: KernelEntry(entries[k])
    requires t in WithRoot(m, root, entries).shape && i < PTES
    ensures var m' := WithRoot(m, root, entries);
            t in m'.tables && |m'.tables[t]| == PTES
            && EntryOk(m'.tables, m'.shape, t, i) && UserEntryOk(m'.tables, m'.shape, m'.leaves, t, i)
  {
    if t == root {
      assert KernelEntry(entries[i]);
    } else {
      assert EntryOk(m.tables, m.shape, t, i) && UserEntryOk(m.tables, m.shape, m.leaves, t, i);
    }
  }

  function PageRange(lo: nat, hi: nat): (ps: set<nat>)
    ensures forall vp: nat :: vp in ps <==> lo <= vp < hi
  {
    if hi <= lo then {} else PageRange(lo, hi - 1) + {hi - 1}
  }

  lemma RangeMore(lo: nat, hi: nat)
    requires lo <= hi
    ensures PageRange(lo, hi + 1) == PageRange(lo, hi) + {hi}
  {
  }

  /** From `m` to `m'` the pages `lo..hi` were mapped anew: they read as zeros, all else as before. */
  ghost predicate RangeZeroed(m: Memory, m': Memory, root: nat, um: UserMap, um': UserMap, lo: nat, hi: nat) {
    && Ready(m', root, um') && Apart(m, m', root, um, um') && um.Keys <= um'.Keys
    && um'.Keys == um.Keys + PageRange(lo, hi) && Maps(m, m', root, PageRange(lo, hi), UserFlags)
    && Contents(um, m.data) && Contents(um', m'.data)
    && forall va: nat :: Held(um', m'.data, va) == if lo <= Vp(va) < hi then 0 else Held(um, m.data, va)
  }

  lemma NothingZeroed(m: Memory, root: nat, um: UserMap, lo: nat)
    requires Ready(m, root, um)
    ensures RangeZeroed(m, m, root, um, um, lo, lo)
  {
    MapsNothing(m, m, root, UserFlags);
    assert PageRange(lo, lo) == {} && um.Keys + {} == um.Keys;
    ReadyContents(m, root, um);
    ApartSelf(m, root, um);
  }

  lemma ZeroedReady(m: Memory, m': Memory, root: nat, um: UserMap, um': UserMap, lo: nat, hi: nat)
    requires RangeZeroed(m, m', root, um, um', lo, hi)
    ensures Ready(m', root, um') && Apart(m, m', root, um, um')
  {
  }

  lemma ZeroedMore(m: Memory, m1: Memory, m2: Memory, root: nat, um: UserMap, um1: UserMap, um2: UserMap, lo: nat,
                   hi: nat)
    requires RangeZeroed(m, m1, root, um, um1, lo, hi) && lo <= hi
    requires PageDone(m1, m2, root, um1, um2, hi, UserFlags, true)
    ensures RangeZeroed(m, m2, root, um, um2, lo, hi + 1)
  {
    hide Ready, Apart, Held, Contents, Maps, PageRange;
    RangeMore(lo, hi);
    MapsMore(m, m1, m2, root, PageRange(lo, hi), {hi}, UserFlags);
    assert um2.Keys == um.Keys + PageRange(lo, hi + 1);
    ApartTrans(m, m1, m2, root, um, um1, um2);
    forall va: nat
      ensures Held(um2, m2.data, va) == if lo <= Vp(va) < hi + 1 then 0 else Held(um, m.data, va)
    {
      assert Held(um1, m1.data, va) == if lo <= Vp(va) < hi then 0 else Held(um, m.data, va);
    }
  }

  // ----- the whole image

  /** Virtual pages `lo..hi` and the addresses of a segment have nothing in common. */
  predicate ClearOf(s: Segment, lo: nat, hi: nat) {
    s.vaddr + s.memsz <= lo * 0x1000 || hi * 0x1000 <= s.vaddr
  }

  const STACK_LO := 0x3_FFC0    // 64 pages below USER_TOP
  const STACK_HI := 0x4_0000
  const HEAP_LO := 0x1000       // 16 pages from USER_HEAP_BASE on
  const HEAP_HI := 0x1010

  /** An address space into which segments with these bytes have been loaded, with stack and heap. */
  ghost predicate HoldsImage(um: UserMap, data: Bytes, segs: seq<Segment>, bytes: seq<seq<Byte>>)
    requires |segs| == |bytes|
  {
    && Contents(um, data)
    && (forall j: nat | j < |segs| :: Covered(um, segs[j].vaddr, segs[j].vaddr + segs[j].memsz))
    && (forall vp: nat | STACK_LO <= vp < STACK_HI || HEAP_LO <= vp < HEAP_HI :: vp in um)
    && forall va: nat ::
         Held(um, data, va) == if STACK_LO <= Vp(va) < STACK_HI || HEAP_LO <= Vp(va) < HEAP_HI then 0
                               else Loaded(segs, bytes, |segs|, va)
  }

  lemma HoldsAll(m1: Memory, m2: Memory, m3: Memory, root: nat, um1: UserMap, um2: UserMap, um3: UserMap,
                 segs: seq<Segment>, bytes: seq<seq<Byte>>)
    requires |segs| == |bytes| && HoldsSegments(um1, m1.data, segs, bytes, |segs|)
    requires RangeZeroed(m1, m2, root, um1, um2, STACK_LO, STACK_HI)
             && RangeZeroed(m2, m3, root, um2, um3, HEAP_LO, HEAP_HI)
    ensures HoldsImage(um3, m3.data, segs, bytes)
  {
    hide Ready, Apart, Held, Contents, Loaded, Maps, PageRange;
    forall va: nat
      ensures Held(um3, m3.data, va) == if STACK_LO <= Vp(va) < STACK_HI || HEAP_LO <= Vp(va) < HEAP_HI then 0
                                        else Loaded(segs, bytes, |segs|, va)
    {
      assert Held(um2, m2.data, va) == if STACK_LO <= Vp(va) < STACK_HI then 0 else Held(um1, m1.data, va);
      assert Held(um1, m1.data, va) == Loaded(segs, bytes, |segs|, va);
    }
    forall j: nat | j < |segs|
      ensures Covered(um3, segs[j].vaddr, segs[j].vaddr + segs[j].memsz)
    {
      CoveredGrows(um1, um2, segs[j].vaddr, segs[j].vaddr + segs[j].memsz);
      CoveredGrows(um2, um3, segs[j].vaddr, segs[j].vaddr + segs[j].memsz);
    }
    assert forall vp: nat | STACK_LO <= vp < STACK_HI || HEAP_LO <= vp < HEAP_HI :: vp in um3.Keys;
  }

  // ----- the page table of a loaded program

  const KernelFlags := Flags(true, true, true, true, false, false, true, true, 0)

  /** What a new address space shows: the first three gigabytes as they are, for the kernel alone. */
  function KernelView(va: nat): Option<Mapping> {
    if va < 0xC000_0000 then Some(Mapping(va, Flags(true, true, true, true, false, false, true, true, 0))) else None
  }

  function KernelLeaf(i: nat): Pte {
    Pte(KernelFlags, i * 0x4_0000)
  }

  /** A root with the kernel's leaves in its first three slots and nothing else. */
  ghost predicate KernelRoot(entries: seq<Pte>) {
    && |entries| == PTES && (forall k: nat | k < 3 :: entries[k] == KernelLeaf(k))
    && forall k: nat | 3 <= k < PTES :: !entries[k].IsValid()
  }

  lemma KernelRootEntries(entries: seq<Pte>)
    requires KernelRoot(entries)
    ensures |entries| == PTES && forall k: nat | k < PTES :: KernelEntry(entries[k])
  {
  }

  lemma KernelRootShows(ts: Tables, root: nat, va: nat)
    requires root in ts && KernelRoot(ts[root]) && va < VA_LIMIT
    ensures Lookup(ts, root, 2, va) == KernelView(va)
    ensures va < 0xC000_0000 ==> Translate(ts, root, va) == va
  {
    var i := va / 0x4000_0000;
    assert Idx(va, 2) == i && va == i * 0x4000_0000 + va % 0x4000_0000;
  }

  lemma KernelRootIdentity(ts: Tables, root: nat)
    requires root in ts && KernelRoot(ts[root])
    ensures forall x: nat | x < 0xC000_0000 :: Translate(ts, root, x) == x
  {
    forall x: nat | x < 0xC000_0000
      ensures Translate(ts, root, x) == x
    {
      KernelRootShows(ts, root, x);
    }
  }

  /** Segment `j` is the first that has an address in virtual page `vp`. */
  predicate FirstTouches(segs: seq<Segment>, j: nat, vp: nat) {
    && j < |segs| && SegmentTouches(segs[j], vp)
    && forall i: nat | i < j :: !SegmentTouches(segs[i], vp)
  }

  predicate SegmentTouches(s: Segment, vp: nat) {
    Touches(s.vaddr, s.vaddr + s.memsz, vp)
  }

  /** A page of a segment has the rights of the first segment there; other pages are the kernel's. */
  ghost predicate SegmentView(m: Memory, root: nat, um: UserMap, segs: seq<Segment>, k: nat, va: nat)
    requires k <= |segs|
  {
    var found := Lookup(m.tables, root, 2, va);
    && (Vp(va) !in um ==> found == KernelView(va))
    && forall j: nat | j < k && FirstTouches(segs, j, Vp(va)) ::
         found.Some? && found.value.flags == segs[j].flags.(v := true, u := true, a := true, d := true)
  }

  /** The page table after the first `k` segments. */
  ghost predicate SegmentViews(m: Memory, root: nat, um: UserMap, segs: seq<Segment>, k: nat)
    requires k <= |segs|
  {
    && (forall vp: nat | vp in um :: exists j: nat :: j < k && SegmentTouches(segs[j], vp))
    && (forall vp: nat, j: nat | j < k && SegmentTouches(segs[j], vp) :: vp in um)
    && forall va: nat | va < VA_LIMIT :: SegmentView(m, root, um, segs, k, va)
  }

  lemma TouchedAddress(lo: nat, hi: nat, vp: nat) returns (va: nat)
    requires Touches(lo, hi, vp)
    ensures lo <= va < hi && Vp(va) == vp
  {
    va := if lo <= vp * 0x1000 then vp * 0x1000 else lo;
  }

  lemma ViewsNone(m: Memory, root: nat, segs: seq<Segment>)
    requires root in m.tables && KernelRoot(m.tables[root])
    ensures SegmentViews(m, root, map[], segs, 0)
  {
    forall va: nat | va < VA_LIMIT
      ensures SegmentView(m, root, map[], segs, 0, va)
    {
      KernelRootShows(m.tables, root, va);
    }
  }

  /** One more segment: its new pages get its rights, and all others keep theirs. */
  lemma ViewsMore(m: Memory, m': Memory, root: nat, um: UserMap, um': UserMap, segs: seq<Segment>, k: nat,
                  bs: seq<Byte>)
    requires k < |segs| && SegmentViews(m, root, um, segs, k) && SegmentLoaded(m, m', root, um, um', segs[k], bs)
    ensures SegmentViews(m', root, um', segs, k + 1)
  {
    hide Lookup, Ready, Apart, Contents, Held, Touches, Vp;
    forall vp: nat, j: nat | j < k + 1 && SegmentTouches(segs[j], vp)
      ensures vp in um'
    {
      if j == k {
        var va := TouchedAddress(segs[k].vaddr, segs[k].vaddr + segs[k].memsz, vp);
      } else {
        assert vp in um.Keys;
      }
    }
    forall vp: nat | vp in um'
      ensures exists j: nat :: j < k + 1 && SegmentTouches(segs[j], vp)
    {
      if vp !in um {
        assert SegmentTouches(segs[k], vp);
      }
    }
    var n := k + 1;
    forall va: nat | va < VA_LIMIT
      ensures SegmentView(m', root, um', segs, n, va)
    {
      ViewMore(m, m', root, um, um', segs, k, va);
    }
  }

  lemma ViewMore(m: Memory, m': Memory, root: nat, um: UserMap, um': UserMap, segs: seq<Segment>, k: nat, va: nat)
    requires k < |segs| && SegmentViews(m, root, um, segs, k) && va < VA_LIMIT && um.Keys <= um'.Keys
    requires Maps(m, m', root, um'.Keys - um.Keys, SegmentFlags(segs[k]))
    requires SegmentTouches(segs[k], Vp(va)) ==> Vp(va) in um'
    ensures SegmentView(m', root, um', segs, k + 1, va)
  {
    hide Lookup, Touches, Vp;
    assert MapsAt(m, m', root, um'.Keys - um.Keys, SegmentFlags(segs[k]), va) && SegmentView(m, root, um, segs, k, va);
    forall j: nat | j < k + 1 && FirstTouches(segs, j, Vp(va))
      ensures var found := Lookup(m'.tables, root, 2, va);
              found.Some? && found.value.flags == segs[j].flags.(v := true, u := true, a := true, d := true)
    {
      if j < k {
        assert Vp(va) in um;
      } else {
        assert Vp(va) !in um;
      }
    }
  }

  /** From `m` to `m'` the first `k` segments of an image were loaded. */
  ghost predicate SegmentsDone(m: Memory, m': Memory, root: nat, um: UserMap, image: seq<Byte>, segs: seq<Segment>,
                               compressed: bool, bytes: seq<seq<Byte>>, k: nat) {
    && k <= |segs| == |bytes| && Ready(m', root, um) && Apart(m, m', root, map[], um)
    && HoldsSegments(um, m'.data, segs, bytes, k) && Unpacks(image, segs, compressed, bytes, k)
    && SegmentViews(m', root, um, segs, k)
  }

  lemma NoneDone(m: Memory, root: nat, image: seq<Byte>, segs: seq<Segment>, compressed: bool)
    requires Ready(m, root, map[]) && root in m.tables && KernelRoot(m.tables[root])
    ensures SegmentsDone(m, m, root, map[], image, segs, compressed, seq(|segs|, _ => []), 0)
  {
    HoldsNone(map[], m.data, segs);
    ApartSelf(m, root, map[]);
    ViewsNone(m, root, segs);
    hide Ready, Apart, SegmentViews, KernelRoot;
  }

  lemma OneDone(m: Memory, m1: Memory, m2: Memory, root: nat, um: UserMap, um': UserMap, image: seq<Byte>,
                segs: seq<Segment>, compressed: bool, bytes: seq<seq<Byte>>, k: nat, bs: seq<Byte>)
    requires k < |segs| && SegmentsDone(m, m1, root, um, image, segs, compressed, bytes, k)
    requires SegmentLoaded(m1, m2, root, um, um', segs[k], bs) && UnpacksAt(image, segs[k], compressed, bs)
    ensures SegmentsDone(m, m2, root, um', image, segs, compressed, bytes[k := bs], k + 1)
  {
    hide Ready, Apart, SegmentViews, HoldsSegments, UnpacksAt;
    ApartTrans(m, m1, m2, root, map[], um, um');
    HoldsMore(m1, m2, root, um, um', segs, bytes, k, bs);
    ViewsMore(m1, m2, root, um, um', segs, k, bs);
  }

  lemma DoneReady(m: Memory, m': Memory, root: nat, um: UserMap, image: seq<Byte>, segs: seq<Segment>,
                  compressed: bool, bytes: seq<seq<Byte>>, k: nat)
    requires SegmentsDone(m, m', root, um, image, segs, compressed, bytes, k)
    ensures k <= |segs| == |bytes| && Ready(m', root, um) && Apart(m, m', root, map[], um)
    ensures k == |segs| ==>
              && HoldsSegments(um, m'.data, segs, bytes, k) && Unpacks(image, segs, compressed, bytes, k)
              && SegmentViews(m', root, um, segs, k)
  {
  }

  /** The whole page table of a loaded program: stack and heap, then segments, then the kernel. */
  ghost predicate LoadedView(m: Memory, root: nat, um: UserMap, segs: seq<Segment>, va: nat) {
    if 0x3FFC_0000 <= va < 0x4000_0000 || 0x100_0000 <= va < 0x101_0000 then
      var found := Lookup(m.tables, root, 2, va);
      found.Some? && found.value.flags == Flags(true, true, true, false, true, false, true, true, 0)
    else
      SegmentView(m, root, um, segs, |segs|, va)
  }

  lemma StackAndHeap(va: nat)
    ensures STACK_LO <= Vp(va) < STACK_HI <==> 0x3FFC_0000 <= va < 0x4000_0000
    ensures HEAP_LO <= Vp(va) < HEAP_HI <==> 0x100_0000 <= va < 0x101_0000
  {
  }

  lemma LoadedViews(m1: Memory, m2: Memory, m3: Memory, root: nat, um1: UserMap, um2: UserMap, um3: UserMap,
                    segs: seq<Segment>, va: nat)
    requires SegmentViews(m1, root, um1, segs, |segs|) && va < VA_LIMIT
    requires RangeZeroed(m1, m2, root, um1, um2, STACK_LO, STACK_HI)
    requires RangeZeroed(m2, m3, root, um2, um3, HEAP_LO, HEAP_HI)
    ensures LoadedView(m3, root, um3, segs, va)
  {
    hide Lookup, Ready, Apart, Contents, Held, Touches, Vp, PageRange;
    StackAndHeap(va);
    assert MapsAt(m1, m2, root, PageRange(STACK_LO, STACK_HI), UserFlags, va);
    assert MapsAt(m2, m3, root, PageRange(HEAP_LO, HEAP_HI), UserFlags, va);
    assert SegmentView(m1, root, um1, segs, |segs|, va);
  }

  /** Every segment unpacks to its bytes. */
  ghost predicate Unpacks(image: seq<Byte>, segs: seq<Segment>, compressed: bool, bytes: seq<seq<Byte>>, k: nat)
    requires k <= |segs| == |bytes|
  {
    forall j: nat | j < k :: UnpacksAt(image, segs[j], compressed, bytes[j])
  }

  ghost predicate UnpacksAt(image: seq<Byte>, s: Segment, compressed: bool, bs: seq<Byte>) {
    && s.filesz <= s.memsz && s.offset + StoredSize(s, compressed) <= |image|
    && SegmentBytes(image, s, compressed) == Some(bs)
  }

  /**
   * From the host tool to the running program: in an image whose segments are disjoint and clear of
   * stack and heap, the program reads at each address of a segment the byte that was packed, and
   * zeros behind them, whichever segments were compressed and whichever share pages.
   */
  lemma ImageReads(m: Memory, root: nat, um: UserMap, image: seq<Byte>, segs: seq<Segment>, compressed: bool,
                   bytes: seq<seq<Byte>>, j: nat, raw: seq<Byte>, i: nat)
    requires Ready(m, root, um) && Contents(um, m.data) && |segs| == |bytes| && HoldsImage(um, m.data, segs, bytes)
    requires DisjointSegments(segs) && j < |segs| && i < segs[j].memsz && segs[j].vaddr + segs[j].memsz <= VA_LIMIT
    requires Unpacks(image, segs, compressed, bytes, |segs|) && Packed(image, segs[j], compressed, raw)
    requires ClearOf(segs[j], STACK_LO, STACK_HI) && ClearOf(segs[j], HEAP_LO, HEAP_HI)
    ensures Reads(m, root, segs[j].vaddr + i, if i < |raw| then raw[i] else 0)
  {
    var va := segs[j].vaddr + i;
    ImageHeld(um, m.data, image, segs, compressed, bytes, j, raw, i);
    assert Shows(m.tables, root, um, va) && PageOk(m, um[Vp(va)]);
    PageAddress(um[Vp(va)], Vo(va));
  }

  /** A program running in `root` that reads at `va` finds a user page and in it the byte `x`. */
  ghost predicate Reads(m: Memory, root: nat, va: nat, x: Byte) {
    var found := Lookup(m.tables, root, 2, va);
    && found.Some? && found.value.flags.u && PageOk(m, found.value.pa / 0x1000)
    && m.data[found.value.pa / 0x1000][found.value.pa % 0x1000] == x
  }

  lemma PageAddress(page: nat, o: nat)
    requires o < 0x1000
    ensures (page * 0x1000 + o) / 0x1000 == page && (page * 0x1000 + o) % 0x1000 == o
  {
  }

  lemma ImageHeld(um: UserMap, data: Bytes, image: seq<Byte>, segs: seq<Segment>, compressed: bool,
                  bytes: seq<seq<Byte>>, j: nat, raw: seq<Byte>, i: nat)
    requires Contents(um, data) && |segs| == |bytes| && HoldsImage(um, data, segs, bytes)
    requires Unpacks(image, segs, compressed, bytes, |segs|)
    requires DisjointSegments(segs) && j < |segs| && i < segs[j].memsz
    requires ClearOf(segs[j], STACK_LO, STACK_HI) && ClearOf(segs[j], HEAP_LO, HEAP_HI)
    requires Packed(image, segs[j], compressed, raw)
    ensures var va := segs[j].vaddr + i;
            Vp(va) in um && ByteAt(um, data, va) == if i < |raw| then raw[i] else 0
  {
    var va := segs[j].vaddr + i;
    forall h: nat | h < |segs|
      ensures |bytes[h]| <= segs[h].memsz
    {
      assert UnpacksAt(image, segs[h], compressed, bytes[h]);
      SegmentBytesLen(image, segs[h], compressed);
    }
    assert UnpacksAt(image, segs[j], compressed, bytes[j]);
    PackedBytes(image, segs[j], compressed, raw);
    LoadedOwn(segs, bytes, |segs|, j, i);
    PageSplit(va);
    assert Covered(um, segs[j].vaddr, segs[j].vaddr + segs[j].memsz);
    assert Held(um, data, va) == Loaded(segs, bytes, |segs|, va);
  }

  /** No address belongs to two segments, counting all the memory they ask for. */
  ghost predicate DisjointSegments(segs: seq<Segment>) {
    forall i: nat, j: nat | i < j < |segs| :: SegmentsApart(segs[i], segs[j])
  }

  predicate SegmentsApart(s: Segment, t: Segment) {
    s.vaddr + s.memsz <= t.vaddr || t.vaddr + t.memsz <= s.vaddr
  }

  /** In disjoint segments each keeps its own bytes, with zeros behind them, whatever the order. */
  lemma {:induction false} LoadedOwn(segs: seq<Segment>, bytes: seq<seq<Byte>>, k: nat, j: nat, i: nat)
    requires j < k <= |segs| == |bytes| && DisjointSegments(segs) && i < segs[j].memsz
    requires forall h: nat | h < |segs| :: |bytes[h]| <= segs[h].memsz
    ensures Loaded(segs, bytes, k, segs[j].vaddr + i) == if i < |bytes[j]| then bytes[j][i] else 0
    decreases k
  {
    if j < k - 1 {
      assert SegmentsApart(segs[j], segs[k - 1]);
      LoadedOwn(segs, bytes, k - 1, j, i);
    } else {
      LoadedNone(segs, bytes, j, j, i);
    }
  }

  lemma {:induction false} LoadedNone(segs: seq<Segment>, bytes: seq<seq<Byte>>, k: nat, j: nat, i: nat)
    requires k <= j < |segs| == |bytes| && DisjointSegments(segs) && i < segs[j].memsz
    requires forall h: nat | h < |segs| :: |bytes[h]| <= segs[h].memsz
    ensures Loaded(segs, bytes, k, segs[j].vaddr + i) == 0
  {
    if k > 0 {
      assert SegmentsApart(segs[k - 1], segs[j]);
      LoadedNone(segs, bytes, k - 1, j, i);
    }
  }
}

/** The loader of OnyxExec images: user pages are mapped, then filled through the page table. */
module Loader {
  import opened Base
  import opened PageTables
  import opened AddressSpaces
  import opened LoaderSpec
  import opened Vmm
  import Rle

  const USER_BASE := 0x1_0000
  const USER_TOP := 0x4000_0000

  /** Takes a zeroed page, which nobody sees yet. */
  method TakePage(v: Vmm, root: nat, ghost um: UserMap) returns (page: Result<nat>)
    requires v.Valid() && Ready(v.M(), root, um)
    modifies v, v.pmm
    ensures v.Valid() && v.IsRoot(root)
    ensures page.Err? ==> page.error == NoMem && v.pmm.freePages == 0 && v.M() == old(v.M())
    ensures page.Ok? ==>
              && page.value !in old(v.M()).used && 0 < page.value < PPN_LIMIT
              && v.M() == Taken(old(v.M()), page.value, ZeroTable) && Owned(v.M()) && Spare(v.M(), page.value)
  {
    ghost var m := v.M();
    page := v.AllocZero();
    if page.Ok? {
      TakenKeeps(m, root, um, page.value, ZeroTable);
      hide View, Apart, OthersKept, Forest;
    }
  }

  /** Maps a zeroed page at virtual page `vp`, in place of what was there. */
  method MapPage(v: Vmm, root: nat, vp: nat, flags: Flags, ghost um: UserMap)
    returns (r: Result<()>, ghost um': UserMap)
    requires v.Valid() && Ready(v.M(), root, um) && flags.IsLeaf() && flags.u && (vp + 1) * 0x1000 <= VA_LIMIT
    modifies v, v.pmm
    ensures v.Valid() && PageDone(old(v.M()), v.M(), root, um, um', vp, flags.(v := true), r.Ok?)
    ensures r.Err? ==> r.error == NoMem && v.pmm.freePages == 0
  {
    um' := um;
    ghost var m := v.M();
    assert Span(0) == 1;
    hide *;
    var page := TakePage(v, root, um);
    if page.Err? {
      NoPage(m, root, um, vp, flags.(v := true));
      return Err(page.error), um';
    }
    r := v.MapOne(root, vp * 0x1000, page.value, flags, 0);
    if r.Err? {
      PageNotMapped(m, v.M(), root, um, vp, page.value, ZeroTable, flags.(v := true));
      return;
    }
    PageMapped(m, v.M(), root, um, vp, page.value, ZeroTable, flags.(v := true));
    um' := um[vp := page.value];
  }

  /** Finds the page of `va` and copies `bs` into it. */
  method StoreChunk(v: Vmm, root: nat, va: nat, bs: seq<Byte>, user: bool, ghost um: UserMap)
    requires v.Valid() && Ready(v.M(), root, um)
    requires va < VA_LIMIT && Vp(va) in um && Vo(va) + |bs| <= PAGE_SIZE
    modifies v`data
    ensures v.Valid() && Filled(old(v.M()), v.M(), root, um, va, bs)
  {
    ghost var m := v.M();
    FindsPage(m, root, um, va);
    FilledPatch(m, root, um, va, bs);
    assert v.IsRoot(root);
    hide Ready, Filled, Forest, Translate, TranslateUser, Vo, Vp;
    var pa := v.TranslateWalk(root, Vp(va) * 0x1000, user);
    var page := pa / 0x1000;
    v.data := v.data[page := Patched(v.data[page], Vo(va), bs)];
    assert v.M() == Patch(m, um[Vp(va)], Vo(va), bs);
  }

  /** Stores `bs` page by page. */
  method StoreBytes(v: Vmm, root: nat, va: nat, bs: seq<Byte>, ghost um: UserMap)
    requires v.Valid() && Ready(v.M(), root, um) && va + |bs| <= VA_LIMIT && Covered(um, va, va + |bs|)
    modifies v`data
    ensures v.Valid() && Filled(old(v.M()), v.M(), root, um, va, bs)
  {
    assert PAGE_SIZE == 0x1000;
    hide *;
    var outVa: nat, left: nat := va, |bs|;
    ghost var m := v.M();
    FilledNothing(m, root, um, va);
    TakeAll(bs);
    while left > 0
      invariant left <= |bs| && outVa == va + (|bs| - left)
      invariant v.Valid() && Filled(m, v.M(), root, um, va, bs[..|bs| - left])
    {
      var done: nat := |bs| - left;
      var room := PAGE_SIZE - Vo(outVa);
      var chunk := if left < room then left else room;
      var part := bs[done..done + chunk];
      ghost var m1 := v.M();
      CoveredAt(um, va, va + |bs|, outVa, va + |bs|);
      FilledReady(m, m1, root, um, va, bs[..done]);
      TakeMore(bs, done, chunk);
      StoreChunk(v, root, outVa, part, false, um);
      FilledMore(m, m1, v.M(), root, um, va, outVa, bs[..done], part);
      outVa, left := outVa + chunk, left - chunk;
    }
  }

  /**
   * Reads one packet at `inOff`: the bytes it stands for, cut to `room`, and where the next starts.
   * It is not ok when the stream ends inside it.
   */
  method ReadPacket(src: seq<Byte>, inOff: nat, room: nat, ghost out: seq<Byte>, ghost cap: nat)
    returns (ok: bool, part: seq<Byte>, next: nat)
    requires inOff < |src| && room > 0 && |out| + room == cap
    ensures inOff < next <= |src| && |part| <= room
    ensures Unpack(src[inOff..], out, cap) == if ok then Unpack(src[next..], out + part, cap) else None
  {
    hide Unpack, Copies;
    var tag: nat := src[inOff];
    ok, part, next := false, [], inOff + 1;
    if tag >= 0x80 {
      if inOff + 1 < |src| {
        UnpackRun(src, inOff, out, cap, room);
        ok, part, next := true, Copies(Min(tag - 0x80 + 1, room), src[inOff + 1]), inOff + 2;
      } else {
        UnpackShort(src, inOff, out, cap, room);
      }
    } else {
      var left := Min(tag + 1, room);
      if inOff + 1 + left <= |src| {
        UnpackLiteral(src, inOff, out, cap, room, left);
        ok, part, next := true, src[inOff + 1..inOff + 1 + left], inOff + 1 + left;
      } else {
        UnpackShort(src, inOff, out, cap, room);
      }
    }
  }

  /** Expands a compressed segment into its pages. */
  method DecompressToPages(v: Vmm, root: nat, s: Segment, image: seq<Byte>, ghost um: UserMap) returns (r: Result<()>)
    requires v.Valid() && Ready(v.M(), root, um)
    requires s.vaddr + s.filesz <= VA_LIMIT && Covered(um, s.vaddr, s.vaddr + s.filesz)
    requires s.offset + s.compressedSize <= |image|
    modifies v`data
    ensures v.Valid() && Ready(v.M(), root, um) && Apart(old(v.M()), v.M(), root, um, um)
    ensures var bs := Unpack(image[s.offset..s.offset + s.compressedSize], [], s.filesz);
            if bs.None? then r == Err(Inval) else r == Ok(()) && Filled(old(v.M()), v.M(), root, um, s.vaddr, bs.value)
  {
    var src := image[s.offset..s.offset + s.compressedSize];
    var inOff: nat, outVa: nat := 0, s.vaddr;
    ghost var m := v.M();
    ghost var out: seq<Byte> := [];
    FilledNothing(m, root, um, s.vaddr);
    assert src[0..] == src;
    hide *;
    while inOff < |src| && outVa < s.vaddr + s.filesz
      invariant inOff <= |src| && outVa == s.vaddr + |out| && |out| <= s.filesz
      invariant v.Valid() && Filled(m, v.M(), root, um, s.vaddr, out)
      invariant Unpack(src[inOff..], out, s.filesz) == Unpack(src, [], s.filesz)
      decreases |src| - inOff
    {
      ghost var m1 := v.M();
      FilledReady(m, m1, root, um, s.vaddr, out);
      var ok, part, next := ReadPacket(src, inOff, s.vaddr + s.filesz - outVa, out, s.filesz);
      if !ok {
        return Err(Inval);
      }
      CoveredAt(um, s.vaddr, s.vaddr + s.filesz, outVa, outVa + |part|);
      StoreBytes(v, root, outVa, part, um);
      FilledMore(m, m1, v.M(), root, um, s.vaddr, outVa, out, part);
      out := out + part;
      inOff, outVa := next, outVa + |part|;
    }
    FilledReady(m, v.M(), root, um, s.vaddr, out);
    UnpackEnd(src, inOff, out, s.filesz);
    return Ok(());
  }

  /** Copies an uncompressed segment into its pages. */
  method CopyRawToPages(v: Vmm, root: nat, s: Segment, image: seq<Byte>, ghost um: UserMap)
    requires v.Valid() && Ready(v.M(), root, um) && s.filesz <= s.memsz
    requires s.vaddr + s.memsz <= VA_LIMIT && Covered(um, s.vaddr, s.vaddr + s.memsz)
    requires s.offset + s.filesz <= |image|
    modifies v`data
    ensures v.Valid() && Filled(old(v.M()), v.M(), root, um, s.vaddr, image[s.offset..s.offset + s.filesz])
  {
    assert PAGE_SIZE == 0x1000;
    hide *;
    var va, end, filePos: nat := s.vaddr, s.vaddr + s.memsz, 0;
    var bs := image[s.offset..s.offset + s.filesz];
    ghost var m := v.M();
    FilledNothing(m, root, um, s.vaddr);
    TakeAll(bs);
    while va < end
      invariant s.vaddr <= va <= end && filePos <= |bs|
      invariant filePos == va - s.vaddr || (filePos == |bs| && va - s.vaddr >= |bs|)
      invariant v.Valid() && Filled(m, v.M(), root, um, s.vaddr, bs[..filePos])
    {
      var pageEnd := va + (PAGE_SIZE - Vo(va));
      var pageVaEnd := if pageEnd < end then pageEnd else end;
      var copyLen := if pageVaEnd - va < |bs| - filePos then pageVaEnd - va else |bs| - filePos;
      if copyLen > 0 {
        var part := bs[filePos..filePos + copyLen];
        ghost var m1 := v.M();
        CoveredAt(um, s.vaddr, end, va, end);
        FilledReady(m, m1, root, um, s.vaddr, bs[..filePos]);
        TakeMore(bs, filePos, copyLen);
        StoreChunk(v, root, va, part, true, um);
        FilledMore(m, m1, v.M(), root, um, s.vaddr, va, bs[..filePos], part);
      }
      filePos := filePos + copyLen;
      va := pageVaEnd;
    }
  }

  /** Whether a page of the range has no user page yet. */
  method IsMissing(v: Vmm, root: nat, va: nat, ghost um: UserMap) returns (b: bool)
    requires v.Valid() && Ready(v.M(), root, um) && va < VA_LIMIT
    ensures b == (Vp(va) !in um)
  {
    FindsNoPage(v.M(), root, um, va);
    assert v.IsRoot(root);
    hide Ready, TranslateUser, Vp;
    var pa := v.TranslateWalk(root, Vp(va) * 0x1000, true);
    b := pa == 0;
  }

  /** Maps a zeroed page wherever the range has none yet. */
  method MapMissing(v: Vmm, root: nat, lo: nat, hi: nat, flags: Flags, ghost um: UserMap)
    returns (r: Result<()>, ghost um': UserMap)
    requires v.Valid() && Ready(v.M(), root, um) && flags.IsLeaf() && flags.u && lo <= hi <= VA_LIMIT
    modifies v, v.pmm
    ensures v.Valid() && PagesAdded(old(v.M()), v.M(), root, um, um', flags.(v := true))
    ensures forall vp | vp in um' && vp !in um :: Touches(lo, hi, vp)
    ensures if r.Ok? then Covered(um', lo, hi) else r.error == NoMem && v.pmm.freePages == 0
  {
    var va := lo;
    um' := um;
    ghost var m := v.M();
    NothingAdded(m, root, um, flags.(v := true));
    assert Covered(um, lo, lo) && VA_LIMIT == 0x80_0000_0000;
    hide *;
    while va < hi
      invariant lo <= va <= hi && v.Valid() && PagesAdded(m, v.M(), root, um, um', flags.(v := true))
      invariant Covered(um', lo, va) && forall vp | vp in um' && vp !in um :: Touches(lo, hi, vp)
    {
      ghost var m1, um1 := v.M(), um';
      AddedReady(m, m1, root, um, um', flags.(v := true));
      InPage(va, hi);
      InRange(lo, va, hi);
      var missing := IsMissing(v, root, va, um');
      if missing {
        r, um' := MapPage(v, root, Vp(va), flags, um');
        AddedMore(m, m1, v.M(), root, um, um1, um', Vp(va), flags.(v := true), r.Ok?);
        if r.Err? {
          return;
        }
      }
      var pageEnd := (Vp(va) + 1) * 0x1000;
      var next := if pageEnd < hi then pageEnd else hi;
      CoveredMore(um1, um', lo, va, next);
      va := next;
    }
    return Ok(()), um';
  }

  /** Loads one segment: maps its memory, then fills it from the image. */
  method MapSegmentData(v: Vmm, root: nat, s: Segment, image: seq<Byte>, compressed: bool, ghost um: UserMap)
    returns (r: Result<()>, ghost um': UserMap)
    requires v.Valid() && Ready(v.M(), root, um) && s.flags.IsLeaf()
    requires s.filesz <= s.memsz && s.vaddr + s.memsz <= VA_LIMIT
    requires s.offset + StoredSize(s, compressed) <= |image|
    modifies v, v.pmm
    ensures v.Valid() && Ready(v.M(), root, um') && Apart(old(v.M()), v.M(), root, um, um')
    ensures var bs := SegmentBytes(image, s, compressed);
            match r
            case Ok(_) => bs.Some? && SegmentLoaded(old(v.M()), v.M(), root, um, um', s, bs.value)
            case Err(e) => (e == NoMem && v.pmm.freePages == 0) || (e == Inval && bs.None?)
  {
    hide *;
    ghost var m := v.M();
    ghost var bs := SegmentBytes(image, s, compressed);
    SegmentFacts(image, s, compressed);
    r, um' := MapMissing(v, root, s.vaddr, s.vaddr + s.memsz, s.flags.(u := true, a := true, d := true), um);
    ghost var m1 := v.M();
    AddedReady(m, m1, root, um, um', SegmentFlags(s));
    if r.Err? {
      return;
    }
    CoveredAt(um', s.vaddr, s.vaddr + s.memsz, s.vaddr, s.vaddr + s.filesz);
    if compressed && s.compressedSize > 0 {
      r := DecompressToPages(v, root, s, image, um');
    } else {
      CopyRawToPages(v, root, s, image, um');
      FilledReady(m1, v.M(), root, um', s.vaddr, bs.value);
    }
    ApartTrans(m, m1, v.M(), root, um, um', um');
    if r.Ok? {
      LoadsSegment(m, m1, v.M(), root, um, um', s, bs.value);
    }
  }

  /** Makes an address space that maps the first three gigabytes for the kernel. */
  method NewAddressSpace(v: Vmm) returns (r: Result<nat>)
    requires v.Valid() && Owned(v.M())
    modifies v, v.pmm
    ensures v.Valid() && Owned(v.M())
    ensures r.Err? ==> r.error == NoMem && v.pmm.freePages == 0 && v.M() == old(v.M())
    ensures r.Ok? ==> r.value !in old(v.M()).used && Ready(v.M(), r.value, map[])
    ensures r.Ok? ==> Apart(old(v.M()), v.M(), r.value, map[], map[])
    ensures r.Ok? ==> r.value in v.tables && KernelRoot(v.tables[r.value])
    ensures r.Ok? ==> forall x: nat | x < 3 * 0x4000_0000 :: Translate(v.tables, r.value, x) == x
  {
    ghost var m := v.M();
    r := v.AllocZero();
    if r.Err? {
      return;
    }
    var root := r.value;
    hide Sound, Owned, Ready, Apart, KernelEntry, KernelRoot, Translate, Forest;
    MapKernel(v, root);
    KernelRootIdentity(v.tables, root);
    KernelRootEntries(v.tables[root]);
    NewSpace(m, root, v.tables[root]);
    assert m.tables[root := ZeroTable][root := v.tables[root]] == m.tables[root := v.tables[root]];
    v.shape := v.shape[root := Node(2, root, 0)];
    assert v.M() == WithRoot(m, root, v.tables[root]);
    ReadyOwned(v.M(), root, map[]);
  }

  /** Writes the kernel's three 1 GiB leaves into an empty root. */
  method MapKernel(v: Vmm, root: nat)
    requires root in v.tables && v.tables[root] == ZeroTable
    modifies v`tables
    ensures root in v.tables && v.tables == old(v.tables)[root := v.tables[root]] && KernelRoot(v.tables[root])
  {
    var i := 0;
    while i < 3
      invariant i <= 3 && root in v.tables && |v.tables[root]| == PTES
      invariant v.tables == old(v.tables)[root := v.tables[root]]
      invariant forall k: nat | k < PTES :: v.tables[root][k] == if k < i then KernelLeaf(k) else ZeroPte
    {
      v.tables := v.tables[root := v.tables[root][i := KernelLeaf(i)]];
      i := i + 1;
    }
  }

  /** Loads all segments of an image. */
  method LoadSegments(v: Vmm, root: nat, segs: seq<Segment>, image: seq<Byte>, compressed: bool)
    returns (r: Result<()>, ghost um: UserMap, ghost bytes: seq<seq<Byte>>)
    requires v.Valid() && Ready(v.M(), root, map[]) && root in v.tables && KernelRoot(v.tables[root])
    requires forall j: nat | j < |segs| && segs[j].vaddr < USER_TOP :: Loadable(segs[j])
    modifies v, v.pmm
    ensures v.Valid() && Ready(v.M(), root, um) && Apart(old(v.M()), v.M(), root, map[], um)
    ensures |bytes| == |segs|
    ensures r.Ok? ==> HoldsSegments(um, v.M().data, segs, bytes, |segs|)
    ensures r.Ok? ==> Unpacks(image, segs, compressed, bytes, |segs|)
    ensures r.Ok? ==> SegmentViews(v.M(), root, um, segs, |segs|)
    ensures r.Err? ==> Rejected(image, segs, compressed, r.error) || (r.error == NoMem && v.pmm.freePages == 0)
    ensures r.Ok? ==> forall j: nat | j < |segs| :: Fault(image, segs[j], compressed).None?
  {
    hide SegmentsDone, SegmentBytes, SegmentLoaded, SegmentViews, HoldsSegments, Ready, Apart, Unpacks, Vmm.M,
         Vmm.Valid;
    ghost var m := v.M();
    um := map[];
    bytes := seq(|segs|, _ => []);
    assert v.M().tables == v.tables by {
      TablesOf(v);
    }
    NoneDone(m, root, image, segs, compressed);
    var k := 0;
    while k < |segs|
      invariant k <= |segs| == |bytes| && v.Valid()
      invariant SegmentsDone(m, v.M(), root, um, image, segs, compressed, bytes, k)
      invariant forall j: nat | j < k :: Fault(image, segs[j], compressed).None?
    {
      var s := segs[k];
      DoneReady(m, v.M(), root, um, image, segs, compressed, bytes, k);
      if s.vaddr < USER_BASE || s.vaddr >= USER_TOP {
        return Err(Range), um, bytes;
      }
      if s.filesz > s.memsz {
        return Err(Inval), um, bytes;
      }
      if s.offset + StoredSize(s, compressed) > |image| {
        return Err(Range), um, bytes;
      }
      ghost var m1, um1 := v.M(), um;
      r, um := MapSegmentData(v, root, s, image, compressed, um);
      if r.Err? {
        ApartTrans(m, m1, v.M(), root, map[], um1, um);
        return;
      }
      ghost var bs := SegmentBytes(image, s, compressed).value;
      OneDone(m, m1, v.M(), root, um1, um, image, segs, compressed, bytes, k, bs);
      bytes := bytes[k := bs];
      k := k + 1;
    }
    DoneReady(m, v.M(), root, um, image, segs, compressed, bytes, k);
    return Ok(()), um, bytes;
  }

  lemma TablesOf(v: Vmm)
    ensures v.M().tables == v.tables
  {
  }

  /** Why a segment is refused, whatever memory there is. */
  function Fault(image: seq<Byte>, s: Segment, compressed: bool): Option<Errno> {
    if s.vaddr < 0x1_0000 || s.vaddr >= 0x4000_0000 then Some(Range)
    else if s.filesz > s.memsz then Some(Inval)
    else if s.offset + StoredSize(s, compressed) > |image| then Some(Range)
    else if SegmentBytes(image, s, compressed).None? then Some(Inval)
    else None
  }

  /** The first segment with a fault has the fault `e`. */
  ghost predicate Rejected(image: seq<Byte>, segs: seq<Segment>, compressed: bool, e: Errno) {
    exists k: nat :: k < |segs| && Fault(image, segs[k], compressed) == Some(e)
                     && forall j: nat | j < k :: Fault(image, segs[j], compressed).None?
  }

  /** What the loader needs of a segment: it is readable or executable, and ends below 2^39. */
  predicate Loadable(s: Segment) {
    s.flags.IsLeaf() && s.vaddr + s.memsz <= VA_LIMIT
  }

  lemma UserRights()
    ensures UserFlags.IsLeaf() && UserFlags.u && UserFlags.(v := true) == UserFlags
  {
  }

  /** Maps zeroed pages at virtual pages `lo..hi`. */
  method MapZeroed(v: Vmm, root: nat, lo: nat, hi: nat, ghost um: UserMap) returns (r: Result<()>, ghost um': UserMap)
    requires v.Valid() && Ready(v.M(), root, um) && lo <= hi && hi * 0x1000 <= VA_LIMIT
    modifies v, v.pmm
    ensures v.Valid() && Ready(v.M(), root, um') && Apart(old(v.M()), v.M(), root, um, um')
    ensures r.Ok? ==> RangeZeroed(old(v.M()), v.M(), root, um, um', lo, hi)
    ensures r.Err? ==> r.error == NoMem && v.pmm.freePages == 0
  {
    hide *;
    ghost var m := v.M();
    um' := um;
    NothingZeroed(m, root, um, lo);
    UserRights();
    var vp := lo;
    while vp < hi
      invariant lo <= vp <= hi && v.Valid() && RangeZeroed(m, v.M(), root, um, um', lo, vp)
    {
      ghost var m1, um1 := v.M(), um';
      ZeroedReady(m, m1, root, um, um', lo, vp);
      r, um' := MapPage(v, root, vp, UserFlags, um');
      PageDoneReady(m1, v.M(), root, um1, um', vp, UserFlags, r.Ok?);
      ApartTrans(m, m1, v.M(), root, um, um1, um');
      if r.Err? {
        return;
      }
      ZeroedMore(m, m1, v.M(), root, um, um1, um', lo, vp);
      vp := vp + 1;
    }
    ZeroedReady(m, v.M(), root, um, um', lo, vp);
    return Ok(()), um';
  }

  /**
   * Loads an image into a new address space: its segments, then the stack and the heap. Whatever
   * happens, other address spaces and the pages taken before stay as they are.
   */
  method Load(v: Vmm, segs: seq<Segment>, image: seq<Byte>, compressed: bool)
    returns (r: Result<nat>, ghost um: UserMap, ghost bytes: seq<seq<Byte>>)
    requires v.Valid() && Owned(v.M())
    requires forall j: nat | j < |segs| && segs[j].vaddr < USER_TOP :: Loadable(segs[j])
    modifies v, v.pmm
    ensures v.Valid() && Owned(v.M())
    ensures r.Err? ==> Rejected(image, segs, compressed, r.error) || (r.error == NoMem && v.pmm.freePages == 0)
    ensures r.Ok? ==> forall j: nat | j < |segs| :: Fault(image, segs[j], compressed).None?
    ensures r.Ok? ==>
              && |bytes| == |segs| && r.value !in old(v.M()).used
              && Ready(v.M(), r.value, um) && Apart(old(v.M()), v.M(), r.value, map[], um)
              && HoldsImage(um, v.M().data, segs, bytes) && Unpacks(image, segs, compressed, bytes, |segs|)
    ensures r.Ok? ==> forall va: nat | va < VA_LIMIT :: LoadedView(v.M(), r.value, um, segs, va)
  {
    ghost var m := v.M();
    um, bytes := map[], [];
    assert STACK_HI == 0x4_0000 && HEAP_HI == 0x1010 && STACK_LO == 0x3_FFC0 && HEAP_LO == 0x1000
           && VA_LIMIT == 0x80_0000_0000;
    hide *;
    r := NewAddressSpace(v);
    if r.Err? {
      return;
    }
    var root := r.value;
    ghost var m0 := v.M();
    var one;
    one, um, bytes := LoadSegments(v, root, segs, image, compressed);
    ghost var m1, um1 := v.M(), um;
    ReadyOwned(m1, root, um);
    ApartTrans(m, m0, m1, root, map[], map[], um);
    if one.Err? {
      return Err(one.error), um, bytes;
    }
    one, um := MapZeroed(v, root, STACK_LO, STACK_HI, um);
    ghost var m2, um2 := v.M(), um;
    ReadyOwned(m2, root, um);
    ApartTrans(m, m1, m2, root, map[], um1, um);
    if one.Err? {
      return Err(one.error), um, bytes;
    }
    one, um := MapZeroed(v, root, HEAP_LO, HEAP_HI, um);
    ReadyOwned(v.M(), root, um);
    ApartTrans(m, m2, v.M(), root, map[], um2, um);
    if one.Err? {
      return Err(one.error), um, bytes;
    }
    HoldsAll(m1, m2, v.M(), root, um1, um2, um, segs, bytes);
    forall va: nat | va < VA_LIMIT
      ensures LoadedView(v.M(), root, um, segs, va)
    {
      LoadedViews(m1, m2, v.M(), root, um1, um2, um, segs, va);
    }
    return Ok(root), um, bytes;
  }
}
