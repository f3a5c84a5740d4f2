/** The kernel heap as a value: blocks, in address order, that tile the heap. */
module HeapSpec {
  import opened Base

  const HEAP_SIZE := 0x40_0000
  const MIN_BLOCK := 16
  const HDR := 32                          // bytes of a block header
  const WORD := 0x1_0000_0000_0000_0000    // addresses and sizes are 64 bits wide

  /** A block: its payload size and whether it is free. */
  datatype Blk = Blk(size: nat, free: bool)

  type Blocks = seq<Blk>

  /** Bytes taken by blocks and their headers. */
  function Span(l: Blocks): nat {
    if l == [] then 0 else Span(l[..|l| - 1]) + HDR + l[|l| - 1].size
  }

  /** The offset of block `i` from the start of the heap. */
  function Off(l: Blocks, i: nat): nat
    requires i <= |l|
  {
    Span(l[..i])
  }

  lemma {:induction false} SpanAdd(a: Blocks, b: Blocks)
    ensures Span(a + b) == Span(a) + Span(b)
    decreases |b|
  {
    if b == [] {
      assert a + b == a;
    } else {
      var b' := b[..|b| - 1];
      SpanAdd(a, b');
      assert (a + b)[..|a + b| - 1] == a + b';
    }
  }

  lemma OffStep(l: Blocks, i: nat)
    requires i < |l|
    ensures Off(l, i + 1) == Off(l, i) + HDR + l[i].size
  {
    assert l[..i + 1][..i] == l[..i];
  }

  /** Blocks lie one after the other: a later one starts behind the payload of an earlier one. */
  lemma {:induction false} OffGrows(l: Blocks, i: nat, j: nat)
    requires i < j <= |l|
    ensures Off(l, i) + HDR + l[i].size <= Off(l, j)
    decreases j
  {
    OffStep(l, j - 1);
    if i < j - 1 {
      OffGrows(l, i, j - 1);
    }
  }

  /** `l` with its `n` blocks from `i` on replaced. */
  function Replace(l: Blocks, i: nat, n: nat, m: Blocks): Blocks
    requires i + n <= |l|
  {
    l[..i] + m + l[i + n..]
  }

  lemma ReplaceAt(l: Blocks, i: nat, n: nat, m: Blocks, k: nat)
    requires i + n <= |l|
    ensures |Replace(l, i, n, m)| == |l| - n + |m|
    ensures k < |l| - n + |m| ==>
              Replace(l, i, n, m)[k] == if k < i then l[k] else if k < i + |m| then m[k - i] else l[k - |m| + n]
  {
  }

  /** Replacing blocks by others of the same span moves nothing else. */
  lemma OffReplace(l: Blocks, i: nat, n: nat, m: Blocks, j: nat)
    requires i + n <= |l| && Span(m) == Span(l[i..i + n])
    ensures j <= i ==> Off(Replace(l, i, n, m), j) == Off(l, j)
    ensures i + n <= j <= |l| ==> Off(Replace(l, i, n, m), j - n + |m|) == Off(l, j)
    ensures Span(Replace(l, i, n, m)) == Span(l)
  {
    hide Span;
    var r := Replace(l, i, n, m);
    if j <= i {
      assert r[..j] == l[..j];
    }
    if i + n <= j <= |l| {
      OffBehind(l, i, n, m, j);
    }
    OffBehind(l, i, n, m, |l|);
    assert l[..|l|] == l && r[..|r|] == r;
  }

  lemma {:induction false} OffBehind(l: Blocks, i: nat, n: nat, m: Blocks, j: nat)
    requires i + n <= j <= |l| && Span(m) == Span(l[i..i + n])
    ensures |Replace(l, i, n, m)| == |l| - n + |m|
    ensures Off(Replace(l, i, n, m), j - n + |m|) == Off(l, j)
    decreases j
  {
    var r := Replace(l, i, n, m);
    if j == i + n {
      assert r[..i + |m|] == l[..i] + m && l[..i + n] == l[..i] + l[i..i + n];
      hide Span;
      SpanAdd(l[..i], m);
      SpanAdd(l[..i], l[i..i + n]);
    } else {
      hide Span, Off;
      OffBehind(l, i, n, m, j - 1);
      ReplaceAt(l, i, n, m, j - 1 - n + |m|);
      OffStep(l, j - 1);
      OffStep(r, j - 1 - n + |m|);
    }
  }

  // ----- the invariant

  predicate Aligned(size: nat) {
    size % 16 == 0
  }

  lemma AlignedSum(a: nat, b: nat)
    requires Aligned(a) && Aligned(b)
    ensures Aligned(a + HDR + b) && (a >= b + HDR ==> Aligned(a - b - HDR))
  {
  }

  /** Block `i` and the one after it are not both free, and its size keeps payloads aligned. */
  predicate BlockOk(l: Blocks, i: nat)
    requires i < |l|
  {
    Aligned(l[i].size) && !(l[i].free && i + 1 < |l| && l[i + 1].free)
  }

  /** The blocks tile the heap exactly and no two neighbours are both free. */
  ghost predicate Inv(l: Blocks) {
    l != [] && Span(l) == HEAP_SIZE && forall i: nat | i < |l| :: BlockOk(l, i)
  }

  const Initial: Blocks := [Blk(HEAP_SIZE - HDR, true)]

  /** With nothing allocated the heap is one block again. */
  lemma AllFree(l: Blocks)
    requires Inv(l) && forall i: nat | i < |l| :: l[i].free
    ensures l == Initial
  {
    assert BlockOk(l, 0);
    assert l[..1][..0] == [];
    if |l| == 1 {
      assert l[..1] == l;
      assert Span(l) == Span(l[..0]) + HDR + l[0].size;
    }
  }

  // ----- requests

  /** `(size + 15) & !15` in 64-bit arithmetic. */
  function Needed(size: nat): nat {
    (size + 15) % WORD / 16 * 16
  }

  /** The rounding, and adding a header to it, are sound exactly up to this size. */
  lemma NeededIff(size: nat)
    requires size < WORD
    ensures Needed(size) >= size && Needed(size) + HDR < WORD <==> size <= WORD - 48
    ensures size <= WORD - 48 ==> Needed(size) < size + 16 && Aligned(Needed(size))
  {
    if size + 15 < WORD {
      assert (size + 15) % WORD == size + 15;
    } else {
      assert (size + 15) % WORD == size + 15 - WORD;
    }
  }

  /** The first block from `i` on that can serve a request. */
  function FirstFit(l: Blocks, needed: nat, i: nat): (r: Option<nat>)
    requires i <= |l|
    ensures r.Some? ==> i <= r.value < |l| && l[r.value].free && l[r.value].size >= needed + HDR
    decreases |l| - i
  {
    if i == |l| then None
    else if l[i].free && l[i].size >= needed + HDR then Some(i)
    else FirstFit(l, needed, i + 1)
  }

  /** A block that can serve a request. */
  predicate FitsAt(l: Blocks, needed: nat, k: nat)
    requires k < |l|
  {
    l[k].free && l[k].size >= needed + HDR
  }

  /** No block before the one found fits, and none at all if none is found. */
  lemma {:induction false} FirstFitIsFirst(l: Blocks, needed: nat, i: nat)
    requires i <= |l|
    ensures match FirstFit(l, needed, i)
            case Some(b) => FitsAt(l, needed, b) && forall k: nat | i <= k < b :: !FitsAt(l, needed, k)
            case None => forall k: nat | i <= k < |l| :: !FitsAt(l, needed, k)
    decreases |l| - i
  {
    if i < |l| {
      FirstFitIsFirst(l, needed, i + 1);
    }
  }

  /** What block `i` becomes when it serves a request: itself, or an allocated part and a free rest. */
  function Served(b: Blk, needed: nat): (r: Blocks)
    requires b.size >= needed + HDR
    ensures |r| >= 1
  {
    if b.size >= needed + HDR + MIN_BLOCK + HDR
    then [Blk(needed, false), Blk(b.size - needed - HDR, true)] else [Blk(b.size, false)]
  }

  function Allocated(l: Blocks, i: nat, needed: nat): Blocks
    requires i < |l| && l[i].size >= needed + HDR
  {
    Replace(l, i, 1, Served(l[i], needed))
  }

  lemma ServedSpan(b: Blk, needed: nat)
    requires b.size >= needed + HDR
    ensures Span(Served(b, needed)) == Span([b])
  {
    var s := Served(b, needed);
    assert [b][..0] == [] && s[..1][..0] == [];
    if |s| == 2 {
      assert s[..1] == [s[0]];
    }
  }

  // ----- live payloads

  predicate LiveAt(l: Blocks, i: nat, off: nat, size: nat) {
    i < |l| && !l[i].free && Off(l, i) == off && l[i].size == size
  }

  /** A live payload: an allocated block at `off` with `size` bytes after its header. */
  ghost predicate Live(l: Blocks, off: nat, size: nat) {
    exists i: nat :: LiveAt(l, i, off, size)
  }

  /** Live payloads do not overlap, and lie inside the heap. */
  lemma LiveDisjoint(l: Blocks, off: nat, size: nat, off': nat, size': nat)
    requires Inv(l) && Live(l, off, size) && Live(l, off', size')
    ensures (off, size) != (off', size') ==> off + HDR + size <= off' || off' + HDR + size' <= off
    ensures off + HDR + size <= HEAP_SIZE
  {
    var i: nat :| LiveAt(l, i, off, size);
    var j: nat :| LiveAt(l, j, off', size');
    assert l[..|l|] == l;
    OffGrows(l, i, |l|);
    if i < j {
      OffGrows(l, i, j);
    } else if j < i {
      OffGrows(l, j, i);
    }
  }

  lemma LiveMoves(l: Blocks, i: nat, n: nat, m: Blocks, j: nat, k: nat, off: nat, size: nat)
    requires i + n <= |l| && Span(m) == Span(l[i..i + n])
    requires (j < i && k == j) || (j >= i + n && k == j - n + |m|)
    ensures LiveAt(Replace(l, i, n, m), k, off, size) <==> LiveAt(l, j, off, size)
  {
    if j < |l| {
      OffReplace(l, i, n, m, j);
    }
    ReplaceAt(l, i, n, m, k);
    hide Off, Replace, Span;
  }

  /** Replacing blocks by others of the same span keeps every other live payload. */
  lemma ReplaceLive(l: Blocks, i: nat, n: nat, m: Blocks, off: nat, size: nat)
    requires i + n <= |l| && Span(m) == Span(l[i..i + n])
    requires forall k: nat | i <= k < i + n :: !LiveAt(l, k, off, size)
    requires forall k: nat | i <= k < i + |m| :: !LiveAt(Replace(l, i, n, m), k, off, size)
    ensures Live(Replace(l, i, n, m), off, size) <==> Live(l, off, size)
  {
    hide LiveAt, Replace, Span;
    if j: nat :| LiveAt(l, j, off, size) {
      LiveMoves(l, i, n, m, j, if j < i then j else j - n + |m|, off, size);
    }
    if k: nat :| LiveAt(Replace(l, i, n, m), k, off, size) {
      LiveMoves(l, i, n, m, if k < i then k else k - |m| + n, k, off, size);
    }
  }

  /**
   * Serving a request adds exactly one live payload. It is as large as asked for, or it is the
   * whole block, when what would be left does not hold two headers and 16 bytes.
   */
  lemma AllocatedLive(l: Blocks, i: nat, needed: nat, off: nat, size: nat)
    requires Inv(l) && i < |l| && l[i].free && l[i].size >= needed + HDR
    ensures Live(Allocated(l, i, needed), off, size) <==>
              Live(l, off, size)
              || (off == Off(l, i) && size == if l[i].size < needed + 80 then l[i].size else needed)
  {
    var b, m := l[i], Served(l[i], needed);
    var r := Allocated(l, i, needed);
    ServedSpan(b, needed);
    assert l[i..i + 1] == [b];
    OffReplace(l, i, 1, m, i);
    assert r[i] == m[0];
    if off == Off(l, i) && size == m[0].size {
      assert LiveAt(r, i, off, size);
    } else {
      ReplaceLive(l, i, 1, m, off, size);
    }
  }

  /** One payload is new, at `off`, with `n` bytes: enough for `size`, and fewer than 96 more. */
  ghost predicate NewPayload(l: Blocks, l': Blocks, off: nat, size: nat, n: nat) {
    && size <= n < size + 96
    && forall off': nat, n': nat :: Live(l', off', n') <==> Live(l, off', n') || (off' == off && n' == n)
  }

  ghost predicate Gains(l: Blocks, l': Blocks, off: nat, size: nat) {
    exists n: nat :: NewPayload(l, l', off, size, n)
  }

  /** A request takes the first free block that holds it and a header, if there is one. */
  lemma RequestServed(l: Blocks, size: nat)
    requires Inv(l) && size <= WORD - 48
    ensures match FirstFit(l, Needed(size), 0)
            case Some(i) => Gains(l, Allocated(l, i, Needed(size)), Off(l, i), size)
            case None => forall k: nat | k < |l| && l[k].free :: l[k].size < Needed(size) + 32
  {
    NeededIff(size);
    var needed := Needed(size);
    FirstFitIsFirst(l, needed, 0);
    match FirstFit(l, needed, 0)
    case None =>
      forall k: nat | k < |l| && l[k].free
        ensures l[k].size < needed + 32
      {
        assert !FitsAt(l, needed, k);
      }
    case Some(i) =>
      var n := if l[i].size < needed + 80 then l[i].size else needed;
      hide Inv, Allocated, Live, Off, Needed;
      forall off': nat, n': nat
        ensures Live(Allocated(l, i, needed), off', n') <==> Live(l, off', n') || (off' == Off(l, i) && n' == n)
      {
        AllocatedLive(l, i, needed, off', n');
      }
      assert NewPayload(l, Allocated(l, i, needed), Off(l, i), size, n);
  }

  lemma AllocatedInv(l: Blocks, i: nat, needed: nat)
    requires Inv(l) && i < |l| && l[i].free && l[i].size >= needed + HDR && Aligned(needed)
    ensures Inv(Allocated(l, i, needed))
  {
    assert BlockOk(l, i);
    AlignedSum(l[i].size, needed);
    hide Aligned;
    var b, m := l[i], Served(l[i], needed);
    var r := Allocated(l, i, needed);
    ServedSpan(b, needed);
    assert l[i..i + 1] == [b];
    OffReplace(l, i, 1, m, i);
    assert BlockOk(l, i);
    forall k: nat | k < |r|
      ensures BlockOk(r, k)
    {
      if k < i {
        assert BlockOk(l, k) && r[k] == l[k] && (k + 1 < i ==> r[k + 1] == l[k + 1]) && r[i] == m[0];
      } else if k >= i + |m| {
        var j := k - |m| + 1;
        assert BlockOk(l, j) && r[k] == l[j] && (k + 1 < |r| ==> r[k + 1] == l[j + 1]);
      } else {
        assert r[k] == m[k - i] && (k + 1 < |r| && k + 1 >= i + |m| ==> r[k + 1] == l[i + 1]);
      }
    }
  }

  // ----- freeing

  /** Block `i` swallows the one after it. */
  function Merged(l: Blocks, i: nat): Blocks
    requires i + 1 < |l|
  {
    Replace(l, i, 2, [Blk(l[i].size + HDR + l[i + 1].size, l[i].free)])
  }

  lemma MergedSpan(l: Blocks, i: nat)
    requires i + 1 < |l|
    ensures Span([Blk(l[i].size + HDR + l[i + 1].size, l[i].free)]) == Span(l[i..i + 2])
  {
    assert l[i..i + 2] == [l[i], l[i + 1]];
    assert [l[i], l[i + 1]][..1] == [l[i]] && [l[i]][..0] == [];
    assert [Blk(l[i].size + HDR + l[i + 1].size, l[i].free)][..0] == [];
  }

  function MarkFree(l: Blocks, i: nat): Blocks
    requires i < |l|
  {
    l[i := Blk(l[i].size, true)]
  }

  function MergeNext(l: Blocks, i: nat): (r: Blocks)
    requires i < |l|
    ensures i < |r|
  {
    if i + 1 < |l| && l[i + 1].free then Merged(l, i) else l
  }

  function MergePrev(l: Blocks, i: nat): Blocks
    requires i < |l|
  {
    if i > 0 && l[i - 1].free then Merged(l, i - 1) else l
  }

  /** Block `i` freed and joined with its free neighbours. */
  function Freed(l: Blocks, i: nat): Blocks
    requires i < |l|
  {
    MergePrev(MergeNext(MarkFree(l, i), i), i)
  }

  /** Merging two free blocks keeps live payloads as they are. */
  lemma MergedLive(l: Blocks, i: nat, off: nat, size: nat)
    requires i + 1 < |l| && l[i].free && l[i + 1].free
    ensures Live(Merged(l, i), off, size) <==> Live(l, off, size)
    ensures Span(Merged(l, i)) == Span(l)
  {
    hide Replace, Span, Off;
    MergedSpan(l, i);
    var m := [Blk(l[i].size + HDR + l[i + 1].size, l[i].free)];
    OffReplace(l, i, 2, m, i);
    ReplaceAt(l, i, 2, m, i);
    ReplaceLive(l, i, 2, m, off, size);
  }

  lemma {:induction false} SpanSame(l: Blocks, l': Blocks, n: nat)
    requires |l| == |l'| && n <= |l| && forall k: nat | k < |l| :: l'[k].size == l[k].size
    ensures Span(l'[..n]) == Span(l[..n])
  {
    if n > 0 {
      SpanSame(l, l', n - 1);
      assert l[..n][..n - 1] == l[..n - 1] && l'[..n][..n - 1] == l'[..n - 1];
    }
  }

  lemma MarkFreeLive(l: Blocks, i: nat, off: nat, size: nat)
    requires i < |l| && !l[i].free
    ensures Live(MarkFree(l, i), off, size) <==> Live(l, off, size) && off != Off(l, i)
    ensures Span(MarkFree(l, i)) == Span(l)
  {
    var r := MarkFree(l, i);
    SpanSame(l, r, |l|);
    assert l[..|l|] == l && r[..|l|] == r;
    if k: nat :| LiveAt(r, k, off, size) {
      SpanSame(l, r, k);
      assert LiveAt(l, k, off, size);
      if k < i {
        OffGrows(l, k, i);
      } else {
        OffGrows(l, i, k);
      }
    }
    if k: nat :| LiveAt(l, k, off, size) && off != Off(l, i) {
      SpanSame(l, r, k);
      assert LiveAt(r, k, off, size);
    }
  }

  /** Freeing takes away exactly the freed payload. */
  lemma FreedLive(l: Blocks, i: nat, off: nat, size: nat)
    requires i < |l| && !l[i].free
    ensures Live(Freed(l, i), off, size) <==> Live(l, off, size) && off != Off(l, i)
    ensures Span(Freed(l, i)) == Span(l)
  {
    var l1 := MarkFree(l, i);
    var l2 := MergeNext(l1, i);
    MarkFreeLive(l, i, off, size);
    if i + 1 < |l1| && l1[i + 1].free {
      MergedLive(l1, i, off, size);
    }
    assert l2[i].free;
    if i > 0 && l2[i - 1].free {
      MergedLive(l2, i - 1, off, size);
    }
  }

  lemma {:induction false} SpanAligned(l: Blocks)
    requires forall k: nat | k < |l| :: Aligned(l[k].size)
    ensures Aligned(Span(l))
  {
    if l != [] {
      var front := l[..|l| - 1];
      SpanAligned(front);
      AlignedSum(Span(front), l[|l| - 1].size);
    }
  }

  /** `n` blocks joined into a free one. */
  function Joined(l: Blocks, i: nat, n: nat): Blocks
    requires i + n <= |l| && Span(l[i..i + n]) >= HDR
  {
    Replace(l, i, n, [Blk(Span(l[i..i + n]) - HDR, true)])
  }

  lemma JoinedAt(l: Blocks, i: nat, n: nat, k: nat)
    requires Inv(l) && 1 <= n && i + n <= |l| && Span(l[i..i + n]) >= HDR && Aligned(Span(l[i..i + n]) - HDR)
    requires i > 0 ==> !l[i - 1].free
    requires i + n < |l| ==> !l[i + n].free
    requires k <= |l| - n && |Joined(l, i, n)| == |l| - n + 1
    ensures BlockOk(Joined(l, i, n), k)
  {
    var m := [Blk(Span(l[i..i + n]) - HDR, true)];
    assert k < i ==> BlockOk(l, k);
    assert k > i ==> BlockOk(l, k - 1 + n);
    ReplaceAt(l, i, n, m, k);
    ReplaceAt(l, i, n, m, k + 1);
    hide Replace, Span, Aligned;
  }

  /** One free block in place of a run, between allocated neighbours, keeps the invariant. */
  lemma JoinedInv(l: Blocks, i: nat, n: nat)
    requires Inv(l) && 1 <= n && i + n <= |l|
    requires i > 0 ==> !l[i - 1].free
    requires i + n < |l| ==> !l[i + n].free
    ensures Span(l[i..i + n]) >= HDR && Inv(Joined(l, i, n))
  {
    var s := l[i..i + n];
    forall k: nat | k < |s|
      ensures Aligned(s[k].size)
    {
      assert BlockOk(l, i + k);
    }
    SpanAligned(s);
    assert Aligned(Span(s) - HDR);
    var m := [Blk(Span(s) - HDR, true)];
    PairSpan(m, 0, 1);
    assert m[0..1] == m;
    OffReplace(l, i, n, m, i);
    ReplaceAt(l, i, n, m, 0);
    var r := Joined(l, i, n);
    hide Joined, BlockOk, Aligned, Span;
    forall k: nat | k < |r|
      ensures BlockOk(r, k)
    {
      JoinedAt(l, i, n, k);
    }
  }

  lemma PairSpan(l: Blocks, i: nat, n: nat)
    requires i + n <= |l| && 1 <= n <= 3
    ensures Span(l[i..i + n])
            == n * HDR + l[i].size + (if n >= 2 then l[i + 1].size else 0) + (if n == 3 then l[i + 2].size else 0)
  {
    var s := l[i..i + n];
    assert s[..n - 1] == l[i..i + n - 1];
    if n > 1 {
      PairSpan(l, i, n - 1);
    } else {
      assert s[..0] == [];
    }
  }

  /** Freeing keeps the invariant: both free neighbours are swallowed. */
  lemma FreedInv(l: Blocks, i: nat)
    requires Inv(l) && i < |l| && !l[i].free
    ensures Inv(Freed(l, i))
  {
    hide Freed, Joined, Inv, Span, FreedFrom, FreedCount;
    FreedBetween(l, i);
    FreedIs(l, i);
    JoinedInv(l, FreedFrom(l, i), FreedCount(l, i));
  }

  /** What freeing joins lies between allocated blocks. */
  lemma FreedBetween(l: Blocks, i: nat)
    requires Inv(l) && i < |l| && !l[i].free
    ensures var lo, n := FreedFrom(l, i), FreedCount(l, i);
            1 <= n && lo + n <= |l| && (lo > 0 ==> !l[lo - 1].free) && (lo + n < |l| ==> !l[lo + n].free)
  {
    hide Span, Aligned;
    if i > 1 {
      assert BlockOk(l, i - 2);
    }
    if i + 1 < |l| {
      assert BlockOk(l, i + 1);
    }
  }

  function FreedFrom(l: Blocks, i: nat): nat
    requires i < |l|
  {
    if i > 0 && l[i - 1].free then i - 1 else i
  }

  function FreedCount(l: Blocks, i: nat): nat
    requires i < |l|
  {
    1 + (if i > 0 && l[i - 1].free then 1 else 0) + (if i + 1 < |l| && l[i + 1].free then 1 else 0)
  }

  /** Both merges at once. */
  lemma FreedIs(l: Blocks, i: nat)
    requires i < |l|
    ensures var lo, n := FreedFrom(l, i), FreedCount(l, i);
            lo + n <= |l| && Span(l[lo..lo + n]) >= HDR && Freed(l, i) == Joined(l, lo, n)
  {
    hide Span, Replace, Merged, MergeNext, MarkFree;
    PairSpan(l, FreedFrom(l, i), FreedCount(l, i));
    var next := i + 1 < |l| && l[i + 1].free;
    var n, b := if next then 2 else 1, Blk(if next then l[i].size + HDR + l[i + 1].size else l[i].size, true);
    NextIs(l, i);
    ReplaceAt(l, i, n, [b], i);
    if i > 0 {
      ReplaceAt(l, i, n, [b], i - 1);
      PrevIs(l, i, n, b);
    }
  }

  lemma NextIs(l: Blocks, i: nat)
    requires i < |l|
    ensures MergeNext(MarkFree(l, i), i)
            == if i + 1 < |l| && l[i + 1].free then Replace(l, i, 2, [Blk(l[i].size + HDR + l[i + 1].size, true)])
               else Replace(l, i, 1, [Blk(l[i].size, true)])
  {
  }

  lemma PrevIs(l: Blocks, i: nat, n: nat, b: Blk)
    requires 0 < i && i + n <= |l|
    ensures |Replace(l, i, n, [b])| > i
    ensures Merged(Replace(l, i, n, [b]), i - 1)
            == Replace(l, i - 1, n + 1, [Blk(l[i - 1].size + HDR + b.size, l[i - 1].free)])
  {
  }

  // ----- runs

  /** A call: a request for some bytes, or freeing the live payload of a block. */
  datatype Call = Alloc(size: nat) | Free(block: nat)

  predicate Allowed(l: Blocks, c: Call) {
    match c
    case Alloc(size) => 0 < size <= WORD - 48
    case Free(i) => i < |l| && !l[i].free
  }

  function Step(l: Blocks, c: Call): Blocks
    requires Allowed(l, c)
  {
    match c
    case Alloc(size) =>
      var fit := FirstFit(l, Needed(size), 0);
      if fit.None? then l else Allocated(l, fit.value, Needed(size))
    case Free(i) => Freed(l, i)
  }

  ghost predicate IsRun(ls: seq<Blocks>, cs: seq<Call>) {
    |ls| == |cs| + 1 && ls[0] == Initial && forall k: nat | k < |cs| :: StepAt(ls, cs, k)
  }

  ghost predicate StepAt(ls: seq<Blocks>, cs: seq<Call>, k: nat)
    requires |ls| == |cs| + 1 && k < |cs|
  {
    Allowed(ls[k], cs[k]) && ls[k + 1] == Step(ls[k], cs[k])
  }

  lemma InitialInv()
    ensures Inv(Initial)
  {
    PairSpan(Initial, 0, 1);
    assert Initial[0..1] == Initial;
  }

  lemma StepInv(l: Blocks, c: Call)
    requires Inv(l) && Allowed(l, c)
    ensures Inv(Step(l, c))
  {
    match c
    case Alloc(size) =>
      NeededIff(size);
      var fit := FirstFit(l, Needed(size), 0);
      if fit.Some? {
        AllocatedInv(l, fit.value, Needed(size));
      }
    case Free(i) =>
      FreedInv(l, i);
  }

  /** However calls are mixed, the blocks always tile the heap, with no two free neighbours. */
  lemma {:induction false} RunKeepsInv(ls: seq<Blocks>, cs: seq<Call>, k: nat)
    requires IsRun(ls, cs) && k < |ls|
    ensures Inv(ls[k])
  {
    if k == 0 {
      InitialInv();
    } else {
      RunKeepsInv(ls, cs, k - 1);
      assert StepAt(ls, cs, k - 1);
      StepInv(ls[k - 1], cs[k - 1]);
    }
  }

  /** Freeing everything restores the whole heap, whatever was allocated and in whatever order. */
  lemma RunRestores(ls: seq<Blocks>, cs: seq<Call>, k: nat)
    requires IsRun(ls, cs) && k < |ls|
    requires forall off: nat, size: nat :: !Live(ls[k], off, size)
    ensures ls[k] == Initial
  {
    RunKeepsInv(ls, cs, k);
    var l := ls[k];
    forall i: nat | i < |l|
      ensures l[i].free
    {
      assert !Live(l, Off(l, i), l[i].size);
      assert !LiveAt(l, i, Off(l, i), l[i].size);
    }
    AllFree(l);
  }
}

/** The heap as the kernel keeps it: block headers in memory, doubly linked. */
module Heap {
  import opened Base
  import opened HeapSpec

  /** A block header; 0 is the null pointer. */
  datatype Header = Header(size: nat, free: bool, next: nat, prev: nat)

  type Headers = map<nat, Header>

  function Addr(base: nat, l: Blocks, i: nat): nat
    requires i <= |l|
  {
    base + Off(l, i)
  }

  /** The header that block `i` must have. */
  function HeaderOf(base: nat, l: Blocks, i: nat): Header
    requires i < |l|
  {
    Header(l[i].size, l[i].free,
           if i + 1 < |l| then Addr(base, l, i + 1) else 0, if i > 0 then Addr(base, l, i - 1) else 0)
  }

  ghost predicate HeaderAt(hs: Headers, base: nat, l: Blocks, i: nat)
    requires i < |l|
  {
    Addr(base, l, i) in hs && hs[Addr(base, l, i)] == HeaderOf(base, l, i)
  }

  /** The headers in memory spell out the blocks. */
  ghost predicate Rep(hs: Headers, base: nat, l: Blocks) {
    forall i: nat | i < |l| :: HeaderAt(hs, base, l, i)
  }

  lemma AddrsDiffer(base: nat, l: Blocks, i: nat, j: nat)
    requires i <= |l| && j <= |l| && i != j
    ensures Addr(base, l, i) != Addr(base, l, j)
  {
    if i < j {
      OffGrows(l, i, j);
    } else {
      OffGrows(l, j, i);
    }
  }

  /** Headers after the block at `cur` has swallowed the next one. */
  function Absorbed(hs: Headers, cur: nat): Headers
    requires cur in hs && hs[cur].next in hs
  {
    var next := hs[hs[cur].next];
    var hs' := hs[cur := Header(hs[cur].size + HDR + next.size, hs[cur].free, next.next, hs[cur].prev)];
    if next.next != 0 && next.next in hs' then hs'[next.next := hs'[next.next].(prev := cur)] else hs'
  }

  lemma AbsorbedRep(hs: Headers, base: nat, l: Blocks, i: nat)
    requires Rep(hs, base, l) && i + 1 < |l| && base > 0
    ensures var cur := Addr(base, l, i);
            && cur in hs && hs[cur].next in hs && hs[cur].next == Addr(base, l, i + 1)
            && Rep(Absorbed(hs, cur), base, Merged(l, i))
            && Addr(base, Merged(l, i), i) == cur
  {
    var r, cur := Merged(l, i), Addr(base, l, i);
    var m := [Blk(l[i].size + HDR + l[i + 1].size, l[i].free)];
    assert HeaderAt(hs, base, l, i) && HeaderAt(hs, base, l, i + 1);
    var hs' := Absorbed(hs, cur);
    MergedSpan(l, i);
    OffReplace(l, i, 2, m, i);
    ReplaceAt(l, i, 2, m, 0);
    forall k: nat | k < |r|
      ensures HeaderAt(hs', base, r, k)
    {
      MergedHeader(hs, base, l, i, k);
    }
  }

  /** The headers of a merged list, in terms of the old one. */
  lemma MergedHeaderOf(base: nat, l: Blocks, i: nat, k: nat)
    requires i + 1 < |l| && k < |l| - 1
    ensures |Merged(l, i)| == |l| - 1
    ensures var j := if k <= i then k else k + 1;
            && Addr(base, Merged(l, i), k) == Addr(base, l, j)
            && HeaderOf(base, Merged(l, i), k)
               == if k == i then Header(l[i].size + HDR + l[i + 1].size, l[i].free,
                                        HeaderOf(base, l, i + 1).next, HeaderOf(base, l, i).prev)
                  else if k == i + 1 then HeaderOf(base, l, i + 2).(prev := Addr(base, l, i))
                  else HeaderOf(base, l, j)
  {
    hide Off, Replace, Span;
    var m := [Blk(l[i].size + HDR + l[i + 1].size, l[i].free)];
    MergedSpan(l, i);
    ReplaceAt(l, i, 2, m, k);
    OffReplace(l, i, 2, m, if k <= i then k else k + 1);
    OffReplace(l, i, 2, m, if k + 1 <= i then k + 1 else k + 2);
    if k > 0 {
      OffReplace(l, i, 2, m, if k - 1 <= i then k - 1 else k);
    }
  }

  lemma MergedHeader(hs: Headers, base: nat, l: Blocks, i: nat, k: nat)
    requires Rep(hs, base, l) && i + 1 < |l| && base > 0 && k < |l| - 1
    requires Addr(base, l, i) in hs && hs[Addr(base, l, i)].next in hs && |Merged(l, i)| == |l| - 1
    ensures HeaderAt(Absorbed(hs, Addr(base, l, i)), base, Merged(l, i), k)
  {
    var j := if k <= i then k else k + 1;
    assert HeaderAt(hs, base, l, i) && HeaderAt(hs, base, l, i + 1) && HeaderAt(hs, base, l, j);
    MergedHeaderOf(base, l, i, k);
    if j != i {
      AddrsDiffer(base, l, i, j);
    }
    if i + 2 < |l| {
      AddrsDiffer(base, l, i + 2, i);
      if j != i + 2 {
        AddrsDiffer(base, l, i + 2, j);
      }
      assert HeaderAt(hs, base, l, i + 2);
    }
    hide Off, Merged, Span;
  }

  /** Headers after a free rest has been cut off the block at `cur`, which keeps `needed` bytes. */
  function CutOff(hs: Headers, cur: nat, needed: nat): Headers
    requires cur in hs && hs[cur].size >= needed + HDR
  {
    var b, rest := hs[cur], cur + HDR + needed;
    var hs' := hs[rest := Header(b.size - needed - HDR, true, b.next, cur)];
    var hs'' := if b.next != 0 && b.next in hs' then hs'[b.next := hs'[b.next].(prev := rest)] else hs';
    hs''[cur := Header(needed, b.free, rest, b.prev)]
  }

  /** Block `i` cut in two, the first part with `needed` bytes. */
  function Halves(l: Blocks, i: nat, needed: nat): Blocks
    requires i < |l| && l[i].size >= needed + HDR
  {
    Replace(l, i, 1, [Blk(needed, l[i].free), Blk(l[i].size - needed - HDR, true)])
  }

  lemma HalvesSpan(b: Blk, needed: nat)
    requires b.size >= needed + HDR
    ensures Span([Blk(needed, b.free), Blk(b.size - needed - HDR, true)]) == Span([b])
  {
    PairSpan([Blk(needed, b.free), Blk(b.size - needed - HDR, true)], 0, 2);
    PairSpan([b], 0, 1);
    assert [Blk(needed, b.free), Blk(b.size - needed - HDR, true)][0..2]
           == [Blk(needed, b.free), Blk(b.size - needed - HDR, true)];
    assert [b][0..1] == [b];
  }

  lemma HalvesHeaderOf(base: nat, l: Blocks, i: nat, needed: nat, k: nat)
    requires i < |l| && l[i].size >= needed + HDR && k < |l| + 1
    ensures |Halves(l, i, needed)| == |l| + 1
    ensures var r, rest := Halves(l, i, needed), Addr(base, l, i) + HDR + needed;
            && Addr(base, r, k)
               == (if k <= i then Addr(base, l, k) else if k == i + 1 then rest else Addr(base, l, k - 1))
            && HeaderOf(base, r, k)
               == if k == i then Header(needed, l[i].free, rest, HeaderOf(base, l, i).prev)
                  else if k == i + 1
                  then Header(l[i].size - needed - HDR, true, HeaderOf(base, l, i).next, Addr(base, l, i))
                  else if k == i + 2 then HeaderOf(base, l, i + 1).(prev := rest)
                  else HeaderOf(base, l, if k < i then k else k - 1)
  {
    hide Off, Replace, Span;
    var m := [Blk(needed, l[i].free), Blk(l[i].size - needed - HDR, true)];
    ReplaceAt(l, i, 1, m, k);
    HalvesOff(l, i, needed, k);
    HalvesOff(l, i, needed, k + 1);
    if k > 0 {
      HalvesOff(l, i, needed, k - 1);
    }
  }

  lemma HalvesOff(l: Blocks, i: nat, needed: nat, k: nat)
    requires i < |l| && l[i].size >= needed + HDR && k <= |l| + 1
    ensures |Halves(l, i, needed)| == |l| + 1
    ensures Off(Halves(l, i, needed), k)
            == (if k <= i then Off(l, k) else if k == i + 1 then Off(l, i) + HDR + needed else Off(l, k - 1))
  {
    var m := [Blk(needed, l[i].free), Blk(l[i].size - needed - HDR, true)];
    HalvesSpan(l[i], needed);
    assert l[i..i + 1] == [l[i]];
    hide Off, Replace, Span;
    ReplaceAt(l, i, 1, m, i);
    OffReplace(l, i, 1, m, if k <= i then k else k - 1);
    if k == i + 1 {
      OffReplace(l, i, 1, m, i);
      OffStep(Halves(l, i, needed), i);
    }
  }

  lemma HalvesHeader(hs: Headers, base: nat, l: Blocks, i: nat, needed: nat, k: nat)
    requires Rep(hs, base, l) && i < |l| && base > 0 && l[i].size >= needed + HDR && k < |l| + 1
    requires Addr(base, l, i) in hs && hs[Addr(base, l, i)].size == l[i].size && |Halves(l, i, needed)| == |l| + 1
    ensures HeaderAt(CutOff(hs, Addr(base, l, i), needed), base, Halves(l, i, needed), k)
  {
    hide Off, Halves, Span;
    var j := if k <= i then k else if k == i + 1 then i else k - 1;
    assert HeaderAt(hs, base, l, i) && HeaderAt(hs, base, l, j);
    HalvesHeaderOf(base, l, i, needed, k);
    OffStep(l, i);
    RestBetween(base, l, i, needed, j);
    if j != i {
      AddrsDiffer(base, l, i, j);
    }
    if i + 1 < |l| {
      assert HeaderAt(hs, base, l, i + 1);
      AddrsDiffer(base, l, i, i + 1);
      RestBetween(base, l, i, needed, i + 1);
      if j != i + 1 {
        AddrsDiffer(base, l, i + 1, j);
      }
    }
  }

  /** The new header lies strictly inside the old block, so on no other header. */
  lemma RestBetween(base: nat, l: Blocks, i: nat, needed: nat, j: nat)
    requires i < |l| && j < |l| && l[i].size >= needed + HDR
    ensures Addr(base, l, i) + HDR + needed != Addr(base, l, j)
  {
    if j < i {
      OffGrows(l, j, i);
    } else if i < j {
      OffGrows(l, i, j);
    }
  }

  lemma HalvesRep(hs: Headers, base: nat, l: Blocks, i: nat, needed: nat)
    requires Rep(hs, base, l) && i < |l| && base > 0 && l[i].size >= needed + HDR
    ensures var cur := Addr(base, l, i);
            && cur in hs && hs[cur].size == l[i].size
            && Rep(CutOff(hs, cur, needed), base, Halves(l, i, needed)) && |Halves(l, i, needed)| == |l| + 1
            && Addr(base, Halves(l, i, needed), i) == cur
  {
    assert HeaderAt(hs, base, l, i);
    HalvesHeaderOf(base, l, i, needed, i);
    hide Off, Halves, Span, CutOff;
    var r := Halves(l, i, needed);
    forall k: nat | k < |r|
      ensures HeaderAt(CutOff(hs, Addr(base, l, i), needed), base, r, k)
    {
      HalvesHeader(hs, base, l, i, needed, k);
    }
  }

  /** Headers after the block at `cur` has been marked. */
  function Marked(hs: Headers, cur: nat, free: bool): Headers
    requires cur in hs
  {
    hs[cur := hs[cur].(free := free)]
  }

  lemma MarkedHeader(hs: Headers, base: nat, l: Blocks, i: nat, free: bool, k: nat)
    requires Rep(hs, base, l) && i < |l| && k < |l| && Addr(base, l, i) in hs
    ensures HeaderAt(Marked(hs, Addr(base, l, i), free), base, l[i := Blk(l[i].size, free)], k)
  {
    var r := l[i := Blk(l[i].size, free)];
    assert HeaderAt(hs, base, l, k);
    SpanSame(l, r, k);
    SpanSame(l, r, k + 1);
    if k > 0 {
      SpanSame(l, r, k - 1);
    }
    assert HeaderOf(base, r, k) == if k == i then HeaderOf(base, l, i).(free := free) else HeaderOf(base, l, k);
    hide Off, HeaderOf;
    if k != i {
      AddrsDiffer(base, l, i, k);
    }
  }

  lemma MarkedRep(hs: Headers, base: nat, l: Blocks, i: nat, free: bool)
    requires Rep(hs, base, l) && i < |l|
    ensures var cur := Addr(base, l, i);
            && cur in hs && hs[cur] == HeaderOf(base, l, i)
            && Rep(Marked(hs, cur, free), base, l[i := Blk(l[i].size, free)])
            && Addr(base, l[i := Blk(l[i].size, free)], i) == cur
  {
    var r, cur := l[i := Blk(l[i].size, free)], Addr(base, l, i);
    assert HeaderAt(hs, base, l, i);
    SpanSame(l, r, i);
    hide Marked, Off;
    forall k: nat | k < |r|
      ensures HeaderAt(Marked(hs, cur, free), base, r, k)
    {
      MarkedHeader(hs, base, l, i, free, k);
    }
  }

  /** The kernel heap: headers in memory from `base` on. `blocks` is the list they spell out. */
  class Heap {
    const base: nat
    var hdrs: Headers
    var freeList: nat
    var used: nat
    ghost var blocks: Blocks

    ghost predicate Valid()
      reads this
    {
      base > 0 && freeList == base && Inv(blocks) && Rep(hdrs, base, blocks)
    }

    constructor (base: nat)
      requires base > 0
      ensures Valid() && blocks == Initial && used == 0 && this.base == base
    {
      this.base := base;
      hdrs := map[base := Header(HEAP_SIZE - HDR, true, 0, 0)];
      freeList, used := base, 0;
      blocks := Initial;
      InitialInv();
      assert Off(Initial, 0) == 0;
    }

    /** Cuts a free rest off the block at `cur`. */
    method Split(cur: nat, needed: nat, ghost i: nat)
      requires base > 0 && Rep(hdrs, base, blocks) && i < |blocks| && cur == Addr(base, blocks, i)
      requires blocks[i].size >= needed + HDR
      modifies this`hdrs, this`blocks
      ensures Rep(hdrs, base, blocks) && blocks == Halves(old(blocks), i, needed)
      ensures i < |blocks| && Addr(base, blocks, i) == cur
    {
      HalvesRep(hdrs, base, blocks, i, needed);
      var b, rest := hdrs[cur], cur + HDR + needed;
      ghost var hs0 := hdrs;
      hdrs := hdrs[rest := Header(b.size - needed - HDR, true, b.next, cur)];
      assert HeaderAt(hs0, base, blocks, i) && (i + 1 < |blocks| ==> HeaderAt(hs0, base, blocks, i + 1));
      if b.next != 0 {
        hdrs := hdrs[b.next := hdrs[b.next].(prev := rest)];
      }
      hdrs := hdrs[cur := Header(needed, b.free, rest, b.prev)];
      assert hdrs == CutOff(hs0, cur, needed);
      blocks := Halves(blocks, i, needed);
    }

    /** Serves a request from the first block that fits; fails only if none does. */
    method Kmalloc(size: nat) returns (r: Result<nat>)
      requires Valid() && size <= WORD - 48
      modifies this
      ensures Valid()
      ensures r == if size == 0 then Err(Inval)
                   else if FirstFit(old(blocks), Needed(size), 0).None? then Err(NoMem)
                   else Ok(Addr(base, old(blocks), FirstFit(old(blocks), Needed(size), 0).value) + HDR)
      ensures r.Err? ==> blocks == old(blocks) && used == old(used)
      ensures r.Ok? ==> blocks == Allocated(old(blocks), FirstFit(old(blocks), Needed(size), 0).value, Needed(size))
                        && used == old(used) + Needed(size)
      ensures r == Err(NoMem) ==> forall k: nat | k < |blocks| && blocks[k].free :: blocks[k].size < Needed(size) + 32
      ensures r.Ok? ==> r.value >= base + 32 && Gains(old(blocks), blocks, r.value - base - 32, size)
    {
      if size == 0 {
        return Err(Inval);
      }
      var needed := (size + 15) % WORD / 16 * 16;
      NeededIff(size);
      RequestServed(blocks, size);
      assert needed == Needed(size);
      hide Gains, Allocated, Needed;
      var total := needed + HDR;
      ghost var l, i := blocks, 0;
      var cur := freeList;
      assert Off(blocks, 0) == 0;
      while cur != 0
        invariant Valid() && blocks == l && used == old(used)
        invariant i <= |l| && cur == if i < |l| then Addr(base, l, i) else 0
        invariant FirstFit(l, needed, 0) == FirstFit(l, needed, i)
        decreases |l| - i
      {
        assert HeaderAt(hdrs, base, l, i);
        var blk := hdrs[cur];
        if blk.free && blk.size >= total {
          Serve(cur, needed, i);
          used := used + needed;
          return Ok(cur + HDR);
        }
        cur := blk.next;
        i := i + 1;
      }
      return Err(NoMem);
    }

    /** Takes the block at `cur`, cutting off what is not needed when that leaves a block. */
    method Serve(cur: nat, needed: nat, ghost i: nat)
      requires Valid() && i < |blocks| && cur == Addr(base, blocks, i)
      requires blocks[i].free && blocks[i].size >= needed + HDR && Aligned(needed)
      modifies this`hdrs, this`blocks
      ensures Valid() && blocks == Allocated(old(blocks), i, needed)
    {
      ghost var l := blocks;
      AllocatedInv(l, i, needed);
      assert HeaderAt(hdrs, base, blocks, i);
      if hdrs[cur].size >= needed + HDR + MIN_BLOCK + HDR {
        Split(cur, needed, i);
      }
      MarkedRep(hdrs, base, blocks, i, false);
      hdrs := hdrs[cur := hdrs[cur].(free := false)];
      blocks := blocks[i := Blk(blocks[i].size, false)];
      AllocatedIs(l, i, needed);
    }

    /** The block at `cur` swallows the next one. */
    method Absorb(cur: nat, ghost i: nat)
      requires base > 0 && Rep(hdrs, base, blocks) && i + 1 < |blocks| && cur == Addr(base, blocks, i)
      modifies this`hdrs, this`blocks
      ensures Rep(hdrs, base, blocks) && blocks == Merged(old(blocks), i)
      ensures i < |blocks| && Addr(base, blocks, i) == cur
    {
      AbsorbedRep(hdrs, base, blocks, i);
      ghost var hs0 := hdrs;
      var next := hdrs[hdrs[cur].next];
      hdrs := hdrs[cur := Header(hdrs[cur].size + HDR + next.size, hdrs[cur].free, next.next, hdrs[cur].prev)];
      assert HeaderAt(hs0, base, blocks, i) && HeaderAt(hs0, base, blocks, i + 1);
      assert i + 2 < |blocks| ==> HeaderAt(hs0, base, blocks, i + 2);
      if next.next != 0 {
        hdrs := hdrs[next.next := hdrs[next.next].(prev := cur)];
      }
      assert hdrs == Absorbed(hs0, cur);
      blocks := Merged(blocks, i);
    }

    /** Frees the live payload at `p` and joins its block with both neighbours that are free. */
    method Kfree(p: nat, ghost i: nat)
      requires Valid()
      requires p != 0 ==> i < |blocks| && !blocks[i].free && p == Addr(base, blocks, i) + HDR
      modifies this`hdrs, this`blocks
      ensures Valid() && used == old(used)
      ensures blocks == if p == 0 then old(blocks) else Freed(old(blocks), i)
    {
      if p == 0 {
        return;
      }
      var cur := p - HDR;
      FreedInv(blocks, i);
      MarkedRep(hdrs, base, blocks, i, true);
      hdrs := hdrs[cur := hdrs[cur].(free := true)];
      blocks := MarkFree(blocks, i);
      JoinNext(cur, i);
      JoinPrev(cur, i);
    }

    method JoinNext(cur: nat, ghost i: nat)
      requires base > 0 && Rep(hdrs, base, blocks) && i < |blocks| && cur == Addr(base, blocks, i)
      modifies this`hdrs, this`blocks
      ensures Rep(hdrs, base, blocks) && blocks == MergeNext(old(blocks), i)
      ensures i < |blocks| && Addr(base, blocks, i) == cur
    {
      assert HeaderAt(hdrs, base, blocks, i);
      if i + 1 < |blocks| {
        assert HeaderAt(hdrs, base, blocks, i + 1);
      }
      if hdrs[cur].next != 0 && hdrs[hdrs[cur].next].free {
        Absorb(cur, i);
      }
    }

    method JoinPrev(cur: nat, ghost i: nat)
      requires base > 0 && Rep(hdrs, base, blocks) && i < |blocks| && cur == Addr(base, blocks, i)
      modifies this`hdrs, this`blocks
      ensures Rep(hdrs, base, blocks) && blocks == MergePrev(old(blocks), i)
    {
      assert HeaderAt(hdrs, base, blocks, i);
      if i > 0 {
        assert HeaderAt(hdrs, base, blocks, i - 1);
      }
      if hdrs[cur].prev != 0 && hdrs[hdrs[cur].prev].free {
        Absorb(hdrs[cur].prev, i - 1);
      }
    }
  }

  lemma AllocatedIs(l: Blocks, i: nat, needed: nat)
    requires i < |l| && l[i].size >= needed + HDR
    ensures var l' := if l[i].size >= needed + HDR + MIN_BLOCK + HDR then Halves(l, i, needed) else l;
            i < |l'| && Allocated(l, i, needed) == l'[i := Blk(l'[i].size, false)]
  {
  }
}
