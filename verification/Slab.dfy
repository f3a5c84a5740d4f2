/** The slab allocator as a value: lists of pages per size class, with a set of free slots in each. */
module SlabSpec {
  import opened Base
  import opened PageAllocator

  const PAGE := 4096
  const HDR := 32
  const CLASSES := 3

  /** The object size of a class. */
  function ObjSize(c: nat): (n: nat)
    requires c < CLASSES
    ensures n > 0
  {
    if c == 0 then 64 else if c == 1 then 256 else 1024
  }

  /** The slots of a page. */
  function Capacity(c: nat): (n: nat)
    requires c < CLASSES
    ensures 1 < n <= 64 && HDR + n * ObjSize(c) <= PAGE < HDR + (n + 1) * ObjSize(c)
  {
    (PAGE - HDR) / ObjSize(c)
  }

  /** The smallest class whose objects are large enough. */
  function ClassFor(size: nat): (r: Option<nat>)
    ensures r.Some? ==> r.value < CLASSES && size <= ObjSize(r.value)
    ensures r.Some? ==> forall c: nat | c < r.value :: ObjSize(c) < size
    ensures r.None? <==> size > ObjSize(2)
  {
    if size <= 64 then Some(0) else if size <= 256 then Some(1) else if size <= 1024 then Some(2) else None
  }

  /** All slots of a page with `n` of them. */
  function Slots(n: nat): (s: set<nat>)
    ensures |s| == n && forall k: nat :: k in s <==> k < n
  {
    if n == 0 then {} else Slots(n - 1) + {n - 1}
  }

  /** The header at the start of a slab page; `next` is a page, or 0. `freeBits` is the set of set bits. */
  datatype Header = Header(sizeIdx: nat, freeBits: set<nat>, capacity: nat, freeCount: nat, next: nat)

  /** Heads and headers as they are in memory, the pages of each list, and the pages taken. */
  datatype State = State(heads: seq<nat>, hdrs: map<nat, Header>, lists: seq<seq<nat>>, used: set<nat>)

  function First(l: seq<nat>): nat {
    if l == [] then 0 else l[0]
  }

  function NextOf(l: seq<nat>, i: nat): nat {
    if i + 1 < |l| then l[i + 1] else 0
  }

  /**
   * A page in a list: its header belongs to the class, its count is the number of its free bits,
   * at least one slot is taken, and its link leads on.
   */
  ghost predicate NodeOk(s: State, c: nat, l: seq<nat>, i: nat)
    requires c < CLASSES && i < |l|
  {
    var p := l[i];
    && p > 0 && p in s.used && p in s.hdrs
    && var h := s.hdrs[p];
       && h.sizeIdx == c && h.capacity == Capacity(c) && h.next == NextOf(l, i)
       && (forall k | k in h.freeBits :: k < h.capacity)
       && h.freeCount == |h.freeBits| < h.capacity
  }

  predicate Distinct(l: seq<nat>) {
    forall i: nat, j: nat | i < j < |l| :: l[i] != l[j]
  }

  ghost predicate ListOk(s: State, c: nat)
    requires c < CLASSES && |s.heads| == |s.lists| == CLASSES
  {
    var l := s.lists[c];
    && s.heads[c] == First(l) && Distinct(l)
    && forall i: nat | i < |l| :: NodeOk(s, c, l, i)
  }

  ghost predicate Inv(s: State) {
    |s.heads| == |s.lists| == CLASSES && forall c: nat | c < CLASSES :: ListOk(s, c)
  }

  /** An object handed out: a taken slot of a page in the list of class `c`. */
  ghost predicate Live(s: State, c: nat, p: nat, k: nat) {
    && c < CLASSES == |s.lists| && p in s.lists[c] && p in s.hdrs
    && k < Capacity(c) && k !in s.hdrs[p].freeBits
  }

  function Address(c: nat, p: nat, k: nat): nat
    requires c < CLASSES
  {
    p * PAGE + HDR + k * ObjSize(c)
  }

  lemma PageClass(s: State, c: nat, p: nat)
    requires Inv(s) && c < CLASSES && p in s.lists[c]
    ensures p in s.hdrs && s.hdrs[p].sizeIdx == c && p in s.used && p > 0
    ensures s.hdrs[p].capacity == Capacity(c) && s.hdrs[p].freeCount == |s.hdrs[p].freeBits| < Capacity(c)
    ensures forall k | k in s.hdrs[p].freeBits :: k < Capacity(c)
  {
    assert ListOk(s, c);
    var i: nat :| i < |s.lists[c]| && s.lists[c][i] == p;
    assert NodeOk(s, c, s.lists[c], i);
  }

  /** A pointer leads back to its page and slot. */
  lemma AddressParts(c: nat, p: nat, k: nat)
    requires c < CLASSES && k < Capacity(c)
    ensures var a := Address(c, p, k);
            && a / PAGE == p && a >= p * PAGE + HDR
            && (a - p * PAGE - HDR) % ObjSize(c) == 0 && (a - p * PAGE - HDR) / ObjSize(c) == k
  {
    ObjectInPage(c, p, k);
    var off := Address(c, p, k) - p * PAGE - HDR;
    hide Capacity;
    if c == 0 {
      assert off == k * 64;
    } else if c == 1 {
      assert off == k * 256;
    } else {
      assert off == k * 1024;
    }
  }

  /** A page is about to lose its last object exactly when all other bits are set. */
  lemma LastObject(s: State, c: nat, p: nat, k: nat)
    requires Inv(s) && Live(s, c, p, k)
    ensures s.hdrs[p].freeCount + 1 == s.hdrs[p].capacity <==> forall k': nat | k' != k :: !Live(s, c, p, k')
  {
    PageClass(s, c, p);
    var free, cap := s.hdrs[p].freeBits, Capacity(c);
    BoundedCard(free + {k}, 0, cap);
    if forall k': nat | k' != k :: !Live(s, c, p, k') {
      forall j: nat | j < cap
        ensures j in free + {k}
      {
        assert j != k ==> !Live(s, c, p, j);
      }
      SlotCount(cap, free + {k});
    }
  }

  /** Every object lies inside its page, behind the header. */
  lemma ObjectInPage(c: nat, p: nat, k: nat)
    requires c < CLASSES && k < Capacity(c)
    ensures p * PAGE + HDR <= Address(c, p, k) && Address(c, p, k) + ObjSize(c) <= (p + 1) * PAGE
  {
    assert (k + 1) * ObjSize(c) <= Capacity(c) * ObjSize(c);
  }

  /** Two live objects, of whatever classes, do not overlap. */
  lemma LiveDisjoint(s: State, c: nat, p: nat, k: nat, c': nat, p': nat, k': nat)
    requires Inv(s) && Live(s, c, p, k) && Live(s, c', p', k') && (c, p, k) != (c', p', k')
    ensures var (a, a') := (Address(c, p, k), Address(c', p', k'));
            a + ObjSize(c) <= a' || a' + ObjSize(c') <= a
  {
    PageClass(s, c, p);
    PageClass(s, c', p');
    ObjectInPage(c, p, k);
    ObjectInPage(c', p', k');
    if p == p' {
      if k < k' {
        assert (k + 1) * ObjSize(c) <= k' * ObjSize(c);
      } else {
        assert (k' + 1) * ObjSize(c) <= k * ObjSize(c);
      }
    } else if p < p' {
      assert (p + 1) * PAGE <= p' * PAGE;
    } else {
      assert (p' + 1) * PAGE <= p * PAGE;
    }
  }

  /** A class holds a page only while one of its objects is live. */
  lemma NoObjectNoPage(s: State, c: nat)
    requires Inv(s) && c < CLASSES && forall p: nat, k: nat :: !Live(s, c, p, k)
    ensures s.lists[c] == [] && s.heads[c] == 0
  {
    assert ListOk(s, c);
    var l := s.lists[c];
    if l != [] {
      PageClass(s, c, l[0]);
      var free := s.hdrs[l[0]].freeBits;
      forall k: nat | k < Capacity(c)
        ensures k in free
      {
        assert !Live(s, c, l[0], k);
      }
      SlotCount(Capacity(c), free);
    }
  }

  /** A set of slots of a page that misses none has all of them. */
  lemma {:induction false} SlotCount(n: nat, free: set<nat>)
    requires forall k: nat | k < n :: k in free
    ensures |free| >= n
  {
    if n > 0 {
      SlotCount(n - 1, free - {n - 1});
    }
  }

  // ----- taking and giving back a slot

  ghost function WithBits(s: State, p: nat, bits: set<nat>): State
    requires p in s.hdrs
  {
    var h := s.hdrs[p];
    State(s.heads, s.hdrs[p := Header(h.sizeIdx, bits, h.capacity, |bits|, h.next)], s.lists, s.used)
  }

  /** Changing the bits of a page in order, without freeing it all, keeps everything in order. */
  lemma BitsInv(s: State, c: nat, p: nat, bits: set<nat>)
    requires Inv(s) && c < CLASSES && p in s.lists[c] && p in s.hdrs
    requires |bits| < Capacity(c) && forall k | k in bits :: k < Capacity(c)
    ensures Inv(WithBits(s, p, bits))
  {
    var s' := WithBits(s, p, bits);
    PageClass(s, c, p);
    forall c': nat | c' < CLASSES
      ensures ListOk(s', c')
    {
      assert ListOk(s, c');
      var l := s.lists[c'];
      forall i: nat | i < |l|
        ensures NodeOk(s', c', l, i)
      {
        assert NodeOk(s, c', l, i);
      }
    }
  }

  /** Taking a free slot makes exactly that object live. */
  lemma SlotTaken(s: State, c: nat, p: nat, k: nat)
    requires Inv(s) && c < CLASSES && p in s.lists[c] && p in s.hdrs && k in s.hdrs[p].freeBits
    ensures var s' := WithBits(s, p, s.hdrs[p].freeBits - {k});
            && Inv(s') && !Live(s, c, p, k)
            && forall c': nat, p': nat, k': nat ::
              Live(s', c', p', k') <==> Live(s, c', p', k') || (c', p', k') == (c, p, k)
  {
    var s' := WithBits(s, p, s.hdrs[p].freeBits - {k});
    PageClass(s, c, p);
    BitsInv(s, c, p, s.hdrs[p].freeBits - {k});
    forall c': nat, p': nat, k': nat
      ensures Live(s', c', p', k') <==> Live(s, c', p', k') || (c', p', k') == (c, p, k)
    {
      if c' < CLASSES && p' == p && p in s.lists[c'] {
        PageClass(s, c', p);
      }
    }
  }

  /** Giving back a slot of a page with other live objects ends exactly that object. */
  lemma SlotGiven(s: State, c: nat, p: nat, k: nat)
    requires Inv(s) && Live(s, c, p, k) && s.hdrs[p].freeCount + 1 < s.hdrs[p].capacity
    ensures var s' := WithBits(s, p, s.hdrs[p].freeBits + {k});
            && Inv(s')
            && forall c': nat, p': nat, k': nat ::
              Live(s', c', p', k') <==> Live(s, c', p', k') && (c', p', k') != (c, p, k)
  {
    var s' := WithBits(s, p, s.hdrs[p].freeBits + {k});
    PageClass(s, c, p);
    BitsInv(s, c, p, s.hdrs[p].freeBits + {k});
    forall c': nat, p': nat, k': nat
      ensures Live(s', c', p', k') <==> Live(s, c', p', k') && (c', p', k') != (c, p, k)
    {
      if c' < CLASSES && p' == p && p in s.lists[c'] {
        PageClass(s, c', p);
      }
    }
  }

  // ----- adding and releasing a page

  ghost function WithPage(s: State, c: nat, p: nat): State
    requires c < CLASSES && |s.heads| == |s.lists| == CLASSES
  {
    State(s.heads[c := p],
          s.hdrs[p := Header(c, Slots(Capacity(c)) - {0}, Capacity(c), Capacity(c) - 1, s.heads[c])],
          s.lists[c := [p] + s.lists[c]], s.used + {p})
  }

  lemma PageAddedInv(s: State, c: nat, p: nat)
    requires Inv(s) && c < CLASSES && p !in s.used && p > 0
    ensures Inv(WithPage(s, c, p))
  {
    var s' := WithPage(s, c, p);
    forall c': nat | c' < CLASSES
      ensures ListOk(s', c')
    {
      assert ListOk(s, c');
      var l, l' := s.lists[c'], s'.lists[c'];
      forall i: nat | i < |l'|
        ensures NodeOk(s', c', l', i) && (i > 0 ==> l'[i] != p || c' != c)
      {
        var j := if c' == c then i - 1 else i;
        if j >= 0 {
          assert NodeOk(s, c', l, j);
        }
      }
      assert Distinct(l');
    }
  }

  /** A new page brings exactly its first object. */
  lemma PageAdded(s: State, c: nat, p: nat)
    requires Inv(s) && c < CLASSES && p !in s.used && p > 0
    ensures Inv(WithPage(s, c, p)) && !Live(s, c, p, 0)
    ensures forall c': nat, p': nat, k': nat ::
              Live(WithPage(s, c, p), c', p', k') <==> Live(s, c', p', k') || (c', p', k') == (c, p, 0)
  {
    PageAddedInv(s, c, p);
    var s' := WithPage(s, c, p);
    if p in s.lists[c] {
      PageClass(s, c, p);
    }
    forall c': nat, p': nat, k': nat
      ensures Live(s', c', p', k') <==> Live(s, c', p', k') || (c', p', k') == (c, p, 0)
    {
      if c' < CLASSES && p' in s.lists[c'] {
        PageClass(s, c', p');
      }
    }
  }

  function Without(l: seq<nat>, i: nat): (r: seq<nat>)
    requires i < |l|
    ensures |r| == |l| - 1
  {
    l[..i] + l[i + 1..]
  }

  /** The page at place `i` of a list unlinked and given back, with all its bits set. */
  ghost function WithoutPage(s: State, c: nat, i: nat, bits: set<nat>): State
    requires c < CLASSES && |s.heads| == |s.lists| == CLASSES && i < |s.lists[c]|
    requires forall j: nat | j < |s.lists[c]| :: Linked(s.hdrs, s.lists[c], j)
  {
    var l := s.lists[c];
    assert Linked(s.hdrs, l, i) && (i > 0 ==> Linked(s.hdrs, l, i - 1));
    var s1 := WithBits(s, l[i], bits);
    var next := s1.hdrs[l[i]].next;
    if i == 0 then State(s.heads[c := next], s1.hdrs, s.lists[c := Without(l, 0)], s.used - {l[0]})
    else State(s.heads, s1.hdrs[l[i - 1] := s1.hdrs[l[i - 1]].(next := next)], s.lists[c := Without(l, i)],
      s.used - {l[i]})
  }

  /** The page at place `j` of a list has a header that links on. */
  predicate Linked(hdrs: map<nat, Header>, l: seq<nat>, j: nat) {
    j < |l| && l[j] in hdrs && l[j] > 0 && hdrs[l[j]].next == NextOf(l, j)
  }

  lemma ListLinked(s: State, c: nat)
    requires Inv(s) && c < CLASSES
    ensures s.heads[c] == First(s.lists[c]) && Distinct(s.lists[c])
    ensures forall j: nat | j < |s.lists[c]| :: Linked(s.hdrs, s.lists[c], j)
  {
    assert ListOk(s, c);
    forall j: nat | j < |s.lists[c]|
      ensures Linked(s.hdrs, s.lists[c], j)
    {
      assert NodeOk(s, c, s.lists[c], j);
    }
  }

  lemma WithoutNode(s: State, c: nat, i: nat, bits: set<nat>, j: nat)
    requires Inv(s) && c < CLASSES && i < |s.lists[c]| && j < |s.lists[c]| - 1
    requires forall j: nat | j < |s.lists[c]| :: Linked(s.hdrs, s.lists[c], j)
    ensures NodeOk(WithoutPage(s, c, i, bits), c, Without(s.lists[c], i), j)
  {
    var l := s.lists[c];
    assert ListOk(s, c);
    var h := if j < i then j else j + 1;
    assert NodeOk(s, c, l, h) && NodeOk(s, c, l, i);
    assert Without(l, i)[j] == l[h];
    assert j + 1 < |l| - 1 ==> Without(l, i)[j + 1] == l[if j + 1 < i then j + 1 else j + 2];
    assert h < i ==> l[h] != l[i];
    assert i < h ==> l[i] != l[h];
    assert i > 0 && h < i - 1 ==> l[h] != l[i - 1];
    assert i > 0 && i - 1 < h ==> l[i - 1] != l[h];
  }

  lemma ReleasedInv(s: State, c: nat, i: nat, bits: set<nat>)
    requires Inv(s) && c < CLASSES && i < |s.lists[c]|
    requires forall j: nat | j < |s.lists[c]| :: Linked(s.hdrs, s.lists[c], j)
    ensures Inv(WithoutPage(s, c, i, bits))
  {
    var s', l := WithoutPage(s, c, i, bits), s.lists[c];
    assert ListOk(s, c);
    assert NodeOk(s, c, l, i);
    assert i > 0 ==> NodeOk(s, c, l, i - 1);
    forall c': nat | c' < CLASSES
      ensures ListOk(s', c')
    {
      assert ListOk(s, c');
      if c' == c {
        forall j: nat | j < |l| - 1
          ensures NodeOk(s', c, Without(l, i), j)
        {
          WithoutNode(s, c, i, bits, j);
        }
        StillDistinct(l, i);
      } else {
        forall j: nat | j < |s.lists[c']|
          ensures NodeOk(s', c', s.lists[c'], j)
        {
          assert NodeOk(s, c', s.lists[c'], j);
        }
      }
    }
  }

  lemma StillDistinct(l: seq<nat>, i: nat)
    requires Distinct(l) && i < |l|
    ensures Distinct(Without(l, i)) && l[i] !in Without(l, i)
    ensures forall p | p != l[i] :: p in Without(l, i) <==> p in l
  {
    var r := Without(l, i);
    forall a: nat, b: nat | a < b < |r|
      ensures r[a] != r[b]
    {
      assert r[a] == l[if a < i then a else a + 1] && r[b] == l[if b < i then b else b + 1];
    }
    forall p | p in l && p != l[i]
      ensures p in r
    {
      var a: nat :| a < |l| && l[a] == p;
      assert r[if a < i then a else a - 1] == p;
    }
  }

  /** Giving back the last live slot of a page ends that object and gives the page back. */
  lemma PageReleased(s: State, c: nat, i: nat, k: nat)
    requires Inv(s) && c < CLASSES && i < |s.lists[c]| && Live(s, c, s.lists[c][i], k)
    requires s.hdrs[s.lists[c][i]].freeCount + 1 == s.hdrs[s.lists[c][i]].capacity
    requires forall j: nat | j < |s.lists[c]| :: Linked(s.hdrs, s.lists[c], j)
    ensures var p := s.lists[c][i];
            var s' := WithoutPage(s, c, i, s.hdrs[p].freeBits + {k});
            && Inv(s') && s'.used == s.used - {p}
            && forall c': nat, p': nat, k': nat ::
              Live(s', c', p', k') <==> Live(s, c', p', k') && (c', p', k') != (c, p, k)
  {
    var p := s.lists[c][i];
    var bits := s.hdrs[p].freeBits + {k};
    var s' := WithoutPage(s, c, i, bits);
    PageClass(s, c, p);
    ReleasedInv(s, c, i, bits);
    assert ListOk(s, c);
    StillDistinct(s.lists[c], i);
    BoundedCard(bits, 0, Capacity(c));
    forall c': nat, p': nat, k': nat
      ensures Live(s', c', p', k') <==> Live(s, c', p', k') && (c', p', k') != (c, p, k)
    {
      if c' < CLASSES && p' in s.lists[c'] {
        PageClass(s, c', p');
      }
    }
  }

  // ----- steps

  /** An object is handed out: a free slot of a page in order, or the first one of a new page. */
  /** The first `n` pages of a list have no free slot. */
  ghost predicate FullTo(hdrs: map<nat, Header>, l: seq<nat>, n: nat) {
    n <= |l| && forall j: nat | j < n :: l[j] in hdrs && hdrs[l[j]].freeBits == {}
  }

  /** Slot `k` of page `p` is the lowest free one of the first page in the list that has one. */
  ghost predicate FirstFree(hdrs: map<nat, Header>, l: seq<nat>, p: nat, k: nat) {
    && (exists i: nat :: i < |l| && l[i] == p && FullTo(hdrs, l, i))
    && p in hdrs && k in hdrs[p].freeBits && forall b: nat | b < k :: b !in hdrs[p].freeBits
  }

  ghost predicate StepAlloc(s: State, s': State, c: nat, p: nat, k: nat) {
    && c < CLASSES == |s.lists| == |s.heads|
    && if p in s.lists[c] then p in s.hdrs && k in s.hdrs[p].freeBits && s' == WithBits(s, p, s.hdrs[p].freeBits - {k})
       else p !in s.used && p > 0 && k == 0 && s' == WithPage(s, c, p)
  }

  /** Object `k` of page `p` is handed out: it was not live, and it is the only one more. */
  ghost predicate Handed(s: State, s': State, c: nat, p: nat, k: nat) {
    && !Live(s, c, p, k) && StepAlloc(s, s', c, p, k)
    && forall c': nat, p': nat, k': nat :: Live(s', c', p', k') <==> Live(s, c', p', k') || (c', p', k') == (c, p, k)
  }

  lemma ThreeLists(s: State)
    requires Inv(s)
    ensures |s.heads| == |s.lists| == CLASSES
  {
  }

  lemma PageHanded(s: State, c: nat, p: nat)
    requires Inv(s) && c < CLASSES && p !in s.used && p > 0
    ensures Inv(WithPage(s, c, p)) && p !in s.lists[c] && Handed(s, WithPage(s, c, p), c, p, 0)
  {
    PageAdded(s, c, p);
    if p in s.lists[c] {
      PageClass(s, c, p);
    }
    hide Inv, Live;
  }

  /** An object is taken back: its bit is set, and with the last one the page, at place `i`, goes. */
  ghost predicate StepFree(s: State, s': State, c: nat, p: nat, k: nat, i: nat) {
    && Live(s, c, p, k) && |s.heads| == CLASSES && i < |s.lists[c]| && s.lists[c][i] == p
    && (forall j: nat | j < |s.lists[c]| :: Linked(s.hdrs, s.lists[c], j))
    && var bits := s.hdrs[p].freeBits + {k};
       s' == if s.hdrs[p].freeCount + 1 < s.hdrs[p].capacity then WithBits(s, p, bits) else WithoutPage(s, c, i, bits)
  }

  lemma StepAllocInv(s: State, s': State, c: nat, p: nat, k: nat)
    requires Inv(s) && StepAlloc(s, s', c, p, k)
    ensures Inv(s') && !Live(s, c, p, k) && Live(s', c, p, k)
    ensures forall c': nat, p': nat, k': nat ::
            Live(s', c', p', k') <==> Live(s, c', p', k') || (c', p', k') == (c, p, k)
  {
    hide Inv, WithPage, WithBits;
    if p in s.lists[c] {
      SlotTaken(s, c, p, k);
    } else {
      PageAdded(s, c, p);
    }
  }

  lemma StepFreeInv(s: State, s': State, c: nat, p: nat, k: nat, i: nat)
    requires Inv(s) && StepFree(s, s', c, p, k, i)
    ensures Inv(s')
    ensures forall c': nat, p': nat, k': nat ::
            Live(s', c', p', k') <==> Live(s, c', p', k') && (c', p', k') != (c, p, k)
  {
    PageClass(s, c, p);
    hide Inv, WithoutPage, WithBits;
    if s.hdrs[p].freeCount + 1 < s.hdrs[p].capacity {
      SlotGiven(s, c, p, k);
    } else {
      PageReleased(s, c, i, k);
    }
  }

  /** Every header belongs to a class; a page given back keeps its header until it is overwritten. */
  predicate HeadersOk(hdrs: map<nat, Header>) {
    forall p | p in hdrs :: hdrs[p].sizeIdx < CLASSES && hdrs[p].capacity == Capacity(hdrs[p].sizeIdx)
  }

  const WORD := 0x1_0000_0000_0000_0000

  /** A pointer into the header gives a wrapped offset, which is no multiple of an object size. */
  lemma OffsetWraps(c: nat, ptr: nat)
    requires c < CLASSES && ptr < WORD
    ensures var offset := ptr - ptr / PAGE * PAGE - HDR;
            if offset >= 0 then offset % WORD == offset else offset % WORD % ObjSize(c) != 0
  {
    var offset := ptr - ptr / PAGE * PAGE - HDR;
    assert -HDR <= offset < PAGE - HDR;
    if offset < 0 {
      assert offset % WORD == WORD + offset;
      if c == 0 {
        assert (WORD + offset) % 64 == 64 + offset;
      } else if c == 1 {
        assert (WORD + offset) % 256 == 256 + offset;
      } else {
        assert (WORD + offset) % 1024 == 1024 + offset;
      }
    }
  }

  /** The slot that a pointer into a slab page names, if it names one. */
  predicate Names(hdrs: map<nat, Header>, ptr: nat) {
    var page := ptr / PAGE;
    && page != 0 && page in hdrs && hdrs[page].sizeIdx < CLASSES && ptr >= page * PAGE + HDR
    && (ptr - page * PAGE - HDR) % ObjSize(hdrs[page].sizeIdx) == 0
    && (ptr - page * PAGE - HDR) / ObjSize(hdrs[page].sizeIdx) < hdrs[page].capacity
  }
}

/** The slab allocator in memory. */
module Slab {
  import opened Base
  import opened PageAllocator
  import opened SlabSpec

  class Slab {
    const pmm: Pmm
    var heads: seq<nat>
    var hdrs: map<nat, Header>
    ghost var lists: seq<seq<nat>>

    ghost function S(): State
      reads this, pmm
    {
      State(heads, hdrs, lists, pmm.used)
    }

    ghost predicate Valid()
      reads this, pmm
    {
      pmm.Valid() && Inv(S()) && HeadersOk(hdrs)
    }

    constructor (pmm: Pmm)
      requires pmm.Valid()
      ensures Valid() && this.pmm == pmm && forall c: nat, p: nat, k: nat :: !Live(S(), c, p, k)
    {
      this.pmm := pmm;
      heads, hdrs, lists := [0, 0, 0], map[], [[], [], []];
    }

    /** The lowest free slot of a page that has one. */
    method FindSlot(h: Header) returns (k: nat)
      requires h.freeCount == |h.freeBits| && h.freeCount > 0 && forall b | b in h.freeBits :: b < h.capacity
      ensures k in h.freeBits && forall b: nat | b < k :: b !in h.freeBits
    {
      var b :| b in h.freeBits;
      k := 0;
      while k < h.capacity && k !in h.freeBits
        invariant k <= b && forall b: nat | b < k :: b !in h.freeBits
      {
        k := k + 1;
      }
    }

    /** The first page of a class with a free slot, or 0. */
    method FindPage(c: nat) returns (p: nat)
      requires Valid() && c < CLASSES
      ensures p == 0 ==> FullTo(hdrs, lists[c], |lists[c]|)
      ensures p != 0 ==> p in lists[c] && p in hdrs && hdrs[p].freeBits != {}
      ensures p != 0 ==> exists i: nat :: i < |lists[c]| && lists[c][i] == p && FullTo(hdrs, lists[c], i)
    {
      ghost var l, i := lists[c], 0;
      ListLinked(S(), c);
      assert ListOk(S(), c);
      assert |l| > 0 ==> Linked(hdrs, l, 0);
      p := heads[c];
      while p != 0
        invariant i <= |l| && p == (if i < |l| then l[i] else 0) && (i < |l| ==> p > 0)
        invariant FullTo(hdrs, l, i)
        decreases |l| - i
      {
        assert NodeOk(S(), c, l, i);
        assert i + 1 < |l| ==> Linked(hdrs, l, i + 1);
        if hdrs[p].freeCount > 0 {
          return;
        }
        p := hdrs[p].next;
        i := i + 1;
      }
    }

    /** The first free slot of a class, with page 0 if there is none. */
    method FindFree(c: nat) returns (p: nat, k: nat)
      requires Valid() && c < CLASSES
      ensures p == 0 ==> FullTo(hdrs, lists[c], |lists[c]|)
      ensures p != 0 ==> p in lists[c] && p in hdrs && k in hdrs[p].freeBits && FirstFree(hdrs, lists[c], p, k)
    {
      hide FullTo, Inv;
      k := 0;
      p := FindPage(c);
      if p != 0 {
        PageClass(S(), c, p);
        assert hdrs[p].freeCount > 0;
        k := FindSlot(hdrs[p]);
      }
    }

    /** Takes a free slot of a page. */
    method TakeSlot(c: nat, page: nat, slot: nat)
      requires Valid() && c < CLASSES && page in lists[c] && page in hdrs && slot in hdrs[page].freeBits
      modifies this`hdrs
      ensures Valid() && Handed(old(S()), S(), c, page, slot)
    {
      var h := hdrs[page];
      PageClass(S(), c, page);
      SlotTaken(S(), c, page, slot);
      hdrs := hdrs[page := Header(h.sizeIdx, h.freeBits - {slot}, h.capacity, h.freeCount - 1, h.next)];
      assert S() == WithBits(old(S()), page, h.freeBits - {slot});
    }

    /** Puts a new page at the head of a list and takes its first slot. */
    method AddPage(c: nat) returns (page: Option<nat>)
      requires Valid() && c < CLASSES
      modifies this, pmm
      ensures Valid()
      ensures page.None? ==> S() == old(S()) && pmm.freePages == 0
      ensures page.Some? ==> page.value !in old(lists)[c] && Handed(old(S()), S(), c, page.value, 0)
    {
      hide Inv, Handed, Capacity, Slots;
      ghost var s := S();
      ThreeLists(s);
      var taken := pmm.Alloc();
      if taken.Err? {
        return None;
      }
      PageHanded(s, c, taken.value);
      var cap := Capacity(c);
      hdrs := hdrs[taken.value := Header(c, Slots(cap) - {0}, cap, cap - 1, heads[c])];
      heads := heads[c := taken.value];
      lists := lists[c := [taken.value] + lists[c]];
      assert S() == WithPage(s, c, taken.value);
      return Some(taken.value);
    }

    /**
     * Hands out an object of the smallest class that is large enough: the lowest free slot of the
     * first page that has one, or the first of a new page when all are full. It is new: not live
     * before, and afterwards the only one more. It fails only for a size over 1024, or when every
     * page of the class is full and no page is left.
     */
    method Alloc(size: nat) returns (r: Option<nat>, ghost c: nat, ghost p: nat, ghost k: nat)
      requires Valid()
      modifies this, pmm
      ensures Valid()
      ensures r.Some? ==>
                ClassFor(size) == Some(c) && r.value == Address(c, p, k) && Handed(old(S()), S(), c, p, k)
      ensures r.Some? ==>
                if p in old(lists)[c] then FirstFree(old(hdrs), old(lists)[c], p, k)
                else k == 0 && FullTo(old(hdrs), old(lists)[c], |old(lists)[c]|)
      ensures r.None? ==> S() == old(S())
      ensures r.None? && size <= 1024 ==>
                pmm.freePages == 0 && ClassFor(size) == Some(c) && FullTo(hdrs, lists[c], |lists[c]|)
    {
      hide FullTo, FirstFree, Handed;
      c, p, k := 0, 0, 0;
      var cls := ClassFor(size);
      if cls.None? {
        return None, c, p, k;
      }
      c := cls.value;
      var page, slot := FindFree(cls.value);
      if page != 0 {
        TakeSlot(cls.value, page, slot);
        p, k := page, slot;
        return Some(Address(cls.value, page, slot)), c, p, k;
      }
      var added := AddPage(cls.value);
      if added.None? {
        return None, c, p, k;
      }
      p := added.value;
      return Some(Address(cls.value, added.value, 0)), c, p, k;
    }

    /** Unlinks a page from the list of its class. */
    method Unlink(c: nat, page: nat, ghost i: nat)
      requires c < CLASSES && |heads| == |lists| == CLASSES && i < |lists[c]| && lists[c][i] == page && page != 0
      requires heads[c] == First(lists[c]) && Distinct(lists[c])
      requires forall j: nat | j < |lists[c]| :: Linked(hdrs, lists[c], j)
      modifies this
      ensures lists == old(lists)[c := Without(old(lists)[c], i)]
      ensures i == 0 ==> page in old(hdrs) && heads == old(heads)[c := old(hdrs)[page].next] && hdrs == old(hdrs)
      ensures i > 0 ==>
                var prev := old(lists)[c][i - 1];
                && prev in old(hdrs) && page in old(hdrs)
                && heads == old(heads) && hdrs == old(hdrs)[prev := old(hdrs)[prev].(next := old(hdrs)[page].next)]
    {
      ghost var l, j := lists[c], 0;
      var cur, prev := heads[c], 0;
      assert Linked(hdrs, l, i);
      while cur != 0 && cur != page
        invariant j <= i && cur == l[j] && (if j > 0 then prev == l[j - 1] && Linked(hdrs, l, j - 1) else prev == 0)
        invariant unchanged(this)
        decreases |l| - j
      {
        assert Linked(hdrs, l, j);
        prev := cur;
        cur := hdrs[cur].next;
        j := j + 1;
      }
      assert Linked(hdrs, l, j);
      assert j == i;
      if prev == 0 {
        heads := heads[c := hdrs[cur].next];
      } else {
        hdrs := hdrs[prev := hdrs[prev].(next := hdrs[cur].next)];
      }
      lists := lists[c := Without(l, i)];
    }

    /**
     * Takes an object back. A pointer that names no slot, for lack of a slab header or of alignment,
     * is refused. The object is gone and all others stay; the page goes back to the page allocator
     * with its last object.
     */
    method Free(ptr: nat, ghost c: nat, ghost p: nat, ghost k: nat) returns (b: bool, ghost i: nat)
      requires Valid() && ptr < WORD && (Names(hdrs, ptr) ==> Live(S(), c, p, k) && ptr == Address(c, p, k))
      modifies this, pmm
      ensures Valid() && b == Names(old(hdrs), ptr)
      ensures !b ==> S() == old(S())
      ensures b ==>
                && StepFree(old(S()), S(), c, p, k, i)
                && forall c': nat, p': nat, k': nat ::
                     Live(S(), c', p', k') <==> Live(old(S()), c', p', k') && (c', p', k') != (c, p, k)
      ensures b ==>
                pmm.used == old(pmm.used) - if exists k': nat :: k' != k && Live(old(S()), c, p, k') then {} else {p}
    {
      i := 0;
      var page := ptr / PAGE;
      if page == 0 || page !in hdrs {
        return false, i;
      }
      var h := hdrs[page];
      var objSize := ObjSize(h.sizeIdx);
      var offset := (ptr - page * PAGE - HDR) % WORD;
      OffsetWraps(h.sizeIdx, ptr);
      if offset % objSize != 0 {
        return false, i;
      }
      var slot := offset / objSize;
      if slot >= h.capacity {
        return false, i;
      }
      assert Names(hdrs, ptr);
      hide Names;
      i := GiveBack(h, page, slot, c, p, k);
      return true, i;
    }

    /** Gives back the slot that a pointer named. */
    method GiveBack(h: Header, page: nat, slot: nat, ghost c: nat, ghost p: nat, ghost k: nat) returns (ghost i: nat)
      requires Valid() && Live(S(), c, p, k) && page in hdrs && hdrs[page] == h
      requires var a := Address(c, p, k);
               a / PAGE == page && h.sizeIdx < CLASSES && slot == (a - page * PAGE - HDR) / ObjSize(h.sizeIdx)
      modifies this, pmm
      ensures Valid() && StepFree(old(S()), S(), c, p, k, i)
      ensures forall c': nat, p': nat, k': nat ::
                Live(S(), c', p', k') <==> Live(old(S()), c', p', k') && (c', p', k') != (c, p, k)
      ensures pmm.used == old(pmm.used) - if exists k': nat :: k' != k && Live(old(S()), c, p, k') then {} else {p}
    {
      ghost var s := S();
      PageClass(s, c, p);
      AddressParts(c, p, k);
      LastObject(s, c, p, k);
      i :| i < |lists[c]| && lists[c][i] == p;
      ListLinked(s, c);
      hide Inv;
      if h.freeCount + 1 == h.capacity {
        PageReleased(s, c, i, k);
        GiveLast(h, h.sizeIdx, page, slot, i);
      } else {
        SlotGiven(s, c, p, k);
        hdrs := hdrs[page := Header(h.sizeIdx, h.freeBits + {slot}, h.capacity, h.freeCount + 1, h.next)];
        assert S() == WithBits(s, p, h.freeBits + {k});
      }
    }

    /** Sets the last bit of a page, unlinks it and gives it back. */
    method GiveLast(h: Header, c: nat, page: nat, slot: nat, ghost i: nat)
      requires Valid() && c < CLASSES && i < |lists[c]| && lists[c][i] == page && Live(S(), c, page, slot)
               && hdrs[page] == h
      requires forall j: nat | j < |lists[c]| :: Linked(hdrs, lists[c], j)
      requires Inv(WithoutPage(S(), c, i, h.freeBits + {slot}))
      modifies this, pmm
      ensures Valid() && S() == WithoutPage(old(S()), c, i, h.freeBits + {slot})
    {
      ghost var s := S();
      PageClass(s, c, page);
      var hdrs' := hdrs[page := Header(h.sizeIdx, h.freeBits + {slot}, h.capacity, h.freeCount + 1, h.next)];
      forall j: nat | j < |lists[c]|
        ensures Linked(hdrs', lists[c], j)
      {
        assert Linked(hdrs, lists[c], j);
      }
      ListLinked(s, c);
      assert i > 0 ==> Linked(hdrs, lists[c], i - 1);
      assert |s.heads| == |s.lists| == CLASSES;
      hide Inv, Distinct, NextOf;
      hdrs := hdrs';
      Unlink(c, page, i);
      pmm.Free(page);
      assert S() == WithoutPage(s, c, i, h.freeBits + {slot});
    }
  }
}
