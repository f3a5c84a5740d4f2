/** OnyxFS files: inodes in a table, data blocks marked in a bitmap, and the bytes they make up. */
module FilesSpec {
  import opened Base
  import opened Disks
  import opened JournalSpec

  const BITS := 32768            // one bitmap block
  const MAX_SIZE := 40960        // ten direct blocks
  const WORD := 0x1_0000_0000

  /** Where things are on the device; data blocks come last. */
  datatype Layout = Layout(area: Area, table: nat, tableBlocks: nat, bitmap: nat, dataStart: nat) {
    predicate InTable(b: nat) {
      table <= b < table + tableBlocks
    }

    predicate Fits(d: Disk) {
      && table + tableBlocks <= dataStart && bitmap < dataStart <= |d| && dataStart + BITS <= WORD
      && !InTable(bitmap) && !area.Holds(bitmap) && area.start + area.size <= dataStart
      && (area.start + area.size <= table || table + tableBlocks <= area.start)
    }
  }

  // ----- bits

  function Pow2(k: nat): (p: nat)
    ensures p > 0
  {
    if k == 0 then 1 else 2 * Pow2(k - 1)
  }

  /** Bit `k` of a number. */
  predicate BitOf(x: nat, k: nat) {
    if k == 0 then x % 2 == 1 else BitOf(x / 2, k - 1)
  }

  /** Adding a clear bit sets it and no other, without a carry. */
  lemma {:induction false} AddBit(x: nat, k: nat, j: nat)
    requires !BitOf(x, k)
    ensures BitOf(x + Pow2(k), j) <==> j == k || BitOf(x, j)
  {
    if k == 0 {
      assert (x + 1) / 2 == x / 2;
    } else {
      assert (x + Pow2(k)) / 2 == x / 2 + Pow2(k - 1);
      if j > 0 {
        AddBit(x / 2, k - 1, j - 1);
      }
    }
  }

  lemma {:induction false} AddBitFits(x: nat, k: nat, n: nat)
    requires !BitOf(x, k) && k < n && x < Pow2(n)
    ensures x + Pow2(k) < Pow2(n)
  {
    var half := Pow2(n - 1);
    assert Pow2(n) == 2 * half;
    if k == 0 {
      assert x == 2 * (x / 2);
    } else {
      AddBitFits(x / 2, k - 1, n - 1);
      assert x == 2 * (x / 2) + x % 2 && Pow2(k) == 2 * Pow2(k - 1);
    }
  }

  /** A byte with a clear bit is not 0xFF. */
  lemma {:induction false} FullByte(x: nat, n: nat, k: nat)
    requires x == Pow2(n) - 1 && k < n
    ensures BitOf(x, k)
  {
    if k > 0 {
      assert x / 2 == Pow2(n - 1) - 1;
      FullByte(x / 2, n - 1, k - 1);
    }
  }

  lemma ByteRange()
    ensures Pow2(8) == 256
  {
    assert Pow2(4) == 16;
  }

  /** Bit `i` of a bitmap block. */
  predicate BitAt(b: Block, i: nat)
    requires i < BITS
  {
    BitOf(b[i / 8], i % 8)
  }

  /** Every block is marked. */
  ghost predicate AllSet(b: Block) {
    forall i: nat | i < BITS :: BitAt(b, i)
  }

  function SetBit(b: Block, i: nat): Block
    requires i < BITS && !BitAt(b, i)
  {
    ByteRange();
    AddBitFits(b[i / 8], i % 8, 8);
    b[i / 8 := b[i / 8] + Pow2(i % 8)]
  }

  lemma SetBitAt(b: Block, i: nat, j: nat)
    requires i < BITS && !BitAt(b, i) && j < BITS
    ensures BitAt(SetBit(b, i), j) <==> j == i || BitAt(b, j)
  {
    AddBit(b[i / 8], i % 8, j % 8);
  }

  /** The clear bits among the first `n`. */
  function ClearBelow(b: Block, n: nat): nat
    requires n <= BITS
  {
    if n == 0 then 0 else ClearBelow(b, n - 1) + if BitAt(b, n - 1) then 0 else 1
  }

  lemma {:induction false} ClearNone(b: Block, n: nat)
    requires n <= BITS && forall i: nat | i < n :: BitAt(b, i)
    ensures ClearBelow(b, n) == 0
  {
    if n > 0 {
      ClearNone(b, n - 1);
    }
  }

  lemma {:induction false} ClearSome(b: Block, i: nat, n: nat)
    requires i < n <= BITS && !BitAt(b, i)
    ensures ClearBelow(b, n) > 0
  {
    if i < n - 1 {
      ClearSome(b, i, n - 1);
    }
  }

  /** Taking a clear bit leaves one fewer below every bound behind it. */
  lemma {:induction false} ClearTaken(b: Block, i: nat, n: nat)
    requires i < BITS && !BitAt(b, i) && n <= BITS
    ensures ClearBelow(SetBit(b, i), n) == ClearBelow(b, n) - if i < n then 1 else 0
  {
    if n > 0 {
      ClearTaken(b, i, n - 1);
      SetBitAt(b, i, n - 1);
    }
  }

  // ----- inodes

  const WORDS := 32    // words of an inode

  /**
   * An inode: its size, its direct blocks, and the words that hold its other fields, with 0 in the
   * places of size, blocks and padding.
   */
  datatype Inode = Inode(size: nat, blocks: seq<nat>, meta: seq<nat>)

  predicate IsMeta(w: nat) {
    w == 0 || 14 <= w < 19 || 24 <= w
  }

  predicate InodeOk(i: Inode) {
    && i.size < WORD * WORD && |i.blocks| == DIRECT && |i.meta| == WORDS
    && (forall k: nat | k < DIRECT :: i.blocks[k] < WORD)
    && (forall w: nat | w < WORDS :: i.meta[w] < WORD && (!IsMeta(w) ==> i.meta[w] == 0))
  }

  /** Word `w` of the stored form. */
  function WordOf(i: Inode, w: nat): (x: nat)
    requires InodeOk(i) && w < WORDS
    ensures x < WORD
  {
    if w == 2 then i.size % WORD
    else if w == 3 then i.size / WORD
    else if 4 <= w < 14 then i.blocks[w - 4]
    else i.meta[w]
  }

  /** The words of the inode in a slot of an inode-table block. */
  function WordAt(b: Block, slot: nat, w: nat): nat
    requires slot < INODES_PER_BLOCK && w < WORDS
  {
    Le32At(b, slot * INODE_SIZE + 4 * w)
  }

  function Decode(b: Block, slot: nat): Inode
    requires slot < INODES_PER_BLOCK
  {
    Inode(WordAt(b, slot, 2) + WORD * WordAt(b, slot, 3),
          seq(DIRECT, (k: nat) requires k < DIRECT => WordAt(b, slot, 4 + k)),
          seq(WORDS, (w: nat) requires w < WORDS => if IsMeta(w) then WordAt(b, slot, w) else 0))
  }

  lemma DecodeOk(b: Block, slot: nat)
    requires slot < INODES_PER_BLOCK
    ensures InodeOk(Decode(b, slot))
  {
  }

  /** The first `n` words of the stored form, as bytes. */
  function Bytes(i: Inode, n: nat): (r: seq<Byte>)
    requires InodeOk(i) && n <= WORDS
    ensures |r| == 4 * n
  {
    if n == 0 then [] else Bytes(i, n - 1) + ToLe32(WordOf(i, n - 1))
  }

  lemma {:induction false} BytesAt(i: Inode, n: nat, w: nat)
    requires InodeOk(i) && w < n <= WORDS
    ensures Bytes(i, n)[4 * w..4 * w + 4] == ToLe32(WordOf(i, w))
  {
    hide WordOf;
    if w < n - 1 {
      BytesAt(i, n - 1, w);
      assert Bytes(i, n)[4 * w..4 * w + 4] == Bytes(i, n - 1)[4 * w..4 * w + 4];
    }
  }

  function PutInode(b: Block, slot: nat, i: Inode): Block
    requires slot < INODES_PER_BLOCK && InodeOk(i)
  {
    b[..slot * INODE_SIZE] + Bytes(i, WORDS) + b[(slot + 1) * INODE_SIZE..]
  }

  lemma PutInodeWord(b: Block, slot: nat, i: Inode, slot': nat, w: nat)
    requires slot < INODES_PER_BLOCK && slot' < INODES_PER_BLOCK && InodeOk(i) && w < WORDS
    ensures WordAt(PutInode(b, slot, i), slot', w) == if slot' == slot then WordOf(i, w) else WordAt(b, slot', w)
  {
    hide Bytes, WordOf;
    PutSlice(b, slot * INODE_SIZE, Bytes(i, WORDS), slot' * INODE_SIZE + 4 * w);
    if slot' == slot {
      BytesAt(i, WORDS, w);
      Le32RoundTrip(WordOf(i, w));
    }
  }

  lemma PutSlice(b: Block, a: nat, m: seq<Byte>, off: nat)
    requires a + |m| <= BLOCK_SIZE && off + 4 <= BLOCK_SIZE
    ensures var p := b[..a] + m + b[a + |m|..];
            && (a <= off && off + 4 <= a + |m| ==> p[off..off + 4] == m[off - a..off - a + 4])
            && (off + 4 <= a || a + |m| <= off ==> p[off..off + 4] == b[off..off + 4])
  {
  }

  /** An inode stored in its slot is read back as it was, and the others as before. */
  lemma PutInodeDecode(b: Block, slot: nat, i: Inode, slot': nat)
    requires slot < INODES_PER_BLOCK && slot' < INODES_PER_BLOCK && InodeOk(i)
    ensures Decode(PutInode(b, slot, i), slot') == if slot' == slot then i else Decode(b, slot')
  {
    var p := PutInode(b, slot, i);
    forall w: nat | w < WORDS
      ensures WordAt(p, slot', w) == if slot' == slot then WordOf(i, w) else WordAt(b, slot', w)
    {
      PutInodeWord(b, slot, i, slot', w);
    }
    hide PutInode, WordAt;
    var r := Decode(p, slot');
    if slot' == slot {
      assert r.size == i.size && r.blocks == i.blocks && r.meta == i.meta;
    } else {
      var q := Decode(b, slot');
      assert r.size == q.size && r.blocks == q.blocks && r.meta == q.meta;
    }
  }

  // ----- the inode table on the device

  function InodeAt(L: Layout, d: Disk, x: nat): Inode
    requires x < L.tableBlocks * INODES_PER_BLOCK && L.table + L.tableBlocks <= |d|
  {
    Decode(d[L.table + x / INODES_PER_BLOCK], x % INODES_PER_BLOCK)
  }

  /** The inode table holds `inodes`. */
  ghost predicate Table(L: Layout, d: Disk, inodes: seq<Inode>) {
    && L.Fits(d) && |inodes| == L.tableBlocks * INODES_PER_BLOCK
    && forall x: nat | x < |inodes| :: InodeAt(L, d, x) == inodes[x]
  }

  /** Nothing outside the journal differs, except block `b`. */
  ghost predicate OnlyBlock(L: Layout, d: Disk, d': Disk, b: nat) {
    |d'| == |d| && forall c: nat | c < |d| && c != b && !L.area.Holds(c) :: d'[c] == d[c]
  }

  lemma TableKept(L: Layout, d: Disk, d': Disk, b: nat, inodes: seq<Inode>)
    requires Table(L, d, inodes) && OnlyBlock(L, d, d', b) && !L.InTable(b)
    ensures Table(L, d', inodes)
  {
    forall x: nat | x < |inodes|
      ensures InodeAt(L, d', x) == inodes[x]
    {
      assert InodeAt(L, d, x) == inodes[x];
      assert L.InTable(L.table + x / INODES_PER_BLOCK);
    }
  }

  /** Storing an inode changes that entry of the table and no other. */
  lemma TableUpdated(L: Layout, d: Disk, d': Disk, inodes: seq<Inode>, x: nat, i: Inode)
    requires Table(L, d, inodes) && x < |inodes| && InodeOk(i)
    requires var b := L.table + x / INODES_PER_BLOCK;
             OnlyBlock(L, d, d', b) && d'[b] == PutInode(d[b], x % INODES_PER_BLOCK, i)
    ensures Table(L, d', inodes[x := i])
  {
    var b := L.table + x / INODES_PER_BLOCK;
    forall y: nat | y < |inodes|
      ensures InodeAt(L, d', y) == inodes[x := i][y]
    {
      assert InodeAt(L, d, y) == inodes[y];
      var c := L.table + y / INODES_PER_BLOCK;
      assert L.InTable(c);
      hide PutInode, Decode;
      if c == b {
        PutInodeDecode(d[b], x % INODES_PER_BLOCK, i, y % INODES_PER_BLOCK);
      }
    }
  }

  // ----- who owns which block

  /** The inode and the place in it that hold a block. */
  type Owners = map<nat, (nat, nat)>

  /** A data block that is marked in the bitmap and lies on the device. */
  ghost predicate DataBlock(L: Layout, d: Disk, b: nat) {
    L.Fits(d) && L.dataStart <= b < L.dataStart + BITS && b < |d| && BitAt(d[L.bitmap], b - L.dataStart)
  }

  /** The block in place `k` of inode `x` is none, or a marked data block that nobody else holds. */
  ghost predicate PlaceOk(L: Layout, d: Disk, owner: Owners, x: nat, k: nat, b: nat) {
    b != 0 ==> DataBlock(L, d, b) && b in owner && owner[b] == (x, k)
  }

  /** The size fits ten blocks, and every block below it is there. */
  predicate SizeOk(i: Inode) {
    InodeOk(i) && i.size <= MAX_SIZE && forall k: nat | k < DIRECT && k * BLOCK_SIZE < i.size :: i.blocks[k] != 0
  }

  /** Every block of the inode is a marked data block of its own. */
  ghost predicate PlacesOk(L: Layout, d: Disk, owner: Owners, x: nat, i: Inode) {
    |i.blocks| == DIRECT && forall k: nat | k < DIRECT :: PlaceOk(L, d, owner, x, k, i.blocks[k])
  }

  ghost predicate InodeInv(L: Layout, d: Disk, owner: Owners, x: nat, i: Inode) {
    SizeOk(i) && PlacesOk(L, d, owner, x, i)
  }

  ghost predicate Inv(L: Layout, d: Disk, inodes: seq<Inode>, owner: Owners) {
    forall x: nat | x < |inodes| :: InodeInv(L, d, owner, x, inodes[x])
  }

  /** No data block belongs to two places. */
  lemma OwnedOnce(L: Layout, d: Disk, inodes: seq<Inode>, owner: Owners, x: nat, k: nat, x': nat, k': nat)
    requires Inv(L, d, inodes, owner) && x < |inodes| && x' < |inodes| && k < DIRECT && k' < DIRECT
    ensures |inodes[x].blocks| == |inodes[x'].blocks| == DIRECT
    ensures var b := inodes[x].blocks[k];
            b != 0 ==> DataBlock(L, d, b) && (b == inodes[x'].blocks[k'] ==> (x, k) == (x', k'))
  {
    assert InodeInv(L, d, owner, x, inodes[x]) && InodeInv(L, d, owner, x', inodes[x']);
    assert PlaceOk(L, d, owner, x, k, inodes[x].blocks[k]) && PlaceOk(L, d, owner, x', k', inodes[x'].blocks[k']);
  }

  /** The number of bits that stand for a block of the device. */
  function Bits(L: Layout, d: Disk): (n: nat)
    requires L.Fits(d)
    ensures n <= BITS
  {
    if |d| - L.dataStart < BITS then |d| - L.dataStart else BITS
  }

  /** The data blocks of the device that are not marked. */
  function FreeBlocks(L: Layout, d: Disk): nat
    requires L.Fits(d)
  {
    ClearBelow(d[L.bitmap], Bits(L, d))
  }

  /** Marking the lowest free block takes one on the device exactly when there is one. */
  lemma LowestTaken(L: Layout, d: Disk, d': Disk, i: nat)
    requires L.Fits(d) && |d'| == |d| && i < BITS && !BitAt(d[L.bitmap], i)
    requires forall k: nat | k < i :: BitAt(d[L.bitmap], k)
    requires d'[L.bitmap] == SetBit(d[L.bitmap], i)
    ensures L.dataStart + i < |d| <==> FreeBlocks(L, d) > 0
    ensures L.Fits(d') && (L.dataStart + i < |d| ==> FreeBlocks(L, d') == FreeBlocks(L, d) - 1)
  {
    var bm, n := d[L.bitmap], Bits(L, d);
    ClearTaken(bm, i, n);
    if i < n {
      ClearSome(bm, i, n);
    } else {
      ClearNone(bm, n);
    }
  }

  // ----- contents

  /** Every byte up to `n` is in a block on the device. */
  ghost predicate Mapped(d: Disk, i: Inode, n: nat) {
    |i.blocks| == DIRECT && n <= MAX_SIZE && forall k: nat | k < DIRECT && k * BLOCK_SIZE < n ::
      i.blocks[k] != 0 && i.blocks[k] < |d|
  }

  ghost function ByteOf(d: Disk, i: Inode, p: nat): Byte
    requires Mapped(d, i, p + 1)
  {
    PlaceOf(p);
    d[i.blocks[p / BLOCK_SIZE]][p % BLOCK_SIZE]
  }

  lemma PlaceOf(p: nat)
    requires p < MAX_SIZE
    ensures p / BLOCK_SIZE < DIRECT && p / BLOCK_SIZE * BLOCK_SIZE <= p < p / BLOCK_SIZE * BLOCK_SIZE + BLOCK_SIZE
  {
  }

  lemma MappedLess(d: Disk, i: Inode, n: nat, m: nat)
    requires Mapped(d, i, n) && m <= n
    ensures Mapped(d, i, m)
  {
  }

  lemma InvMapped(L: Layout, d: Disk, owner: Owners, x: nat, i: Inode)
    requires InodeInv(L, d, owner, x, i)
    ensures Mapped(d, i, i.size)
  {
    forall k: nat | k < DIRECT && k * BLOCK_SIZE < i.size
      ensures i.blocks[k] != 0 && i.blocks[k] < |d|
    {
      assert PlaceOk(L, d, owner, x, k, i.blocks[k]);
    }
  }

  /** The blocks of an inode hold `f` from its first byte on. */
  ghost predicate Holds(d: Disk, i: Inode, f: seq<Byte>) {
    Mapped(d, i, |f|) && forall p: nat | p < |f| :: HoldsAt(d, i, f, p)
  }

  ghost predicate HoldsAt(d: Disk, i: Inode, f: seq<Byte>, p: nat)
    requires Mapped(d, i, |f|) && p < |f|
  {
    MappedLess(d, i, |f|, p + 1);
    ByteOf(d, i, p) == f[p]
  }

  /** A file is the bytes its inode counts. */
  ghost predicate IsFile(d: Disk, i: Inode, f: seq<Byte>) {
    |f| == i.size && Holds(d, i, f)
  }

  /** Only one sequence can be the file. */
  lemma FileUnique(d: Disk, i: Inode, f: seq<Byte>, f': seq<Byte>)
    requires IsFile(d, i, f) && IsFile(d, i, f')
    ensures f == f'
  {
    forall p: nat | p < |f|
      ensures f[p] == f'[p]
    {
      assert HoldsAt(d, i, f, p) && HoldsAt(d, i, f', p);
    }
  }

  /** Every inode's file. */
  ghost predicate Contents(d: Disk, inodes: seq<Inode>, files: seq<seq<Byte>>) {
    |files| == |inodes| && forall x: nat | x < |inodes| :: IsFile(d, inodes[x], files[x])
  }

  /** `f` overwritten at `off`, growing if need be. */
  function Overwrite(f: seq<Byte>, off: nat, bs: seq<Byte>): seq<Byte>
    requires off <= |f|
  {
    f[..off] + bs + if off + |bs| < |f| then f[off + |bs|..] else []
  }

  // ----- what one block write does to the files

  lemma HoldsSame(d: Disk, d': Disk, i: Inode, f: seq<Byte>)
    requires Holds(d, i, f) && |d'| == |d|
    requires forall k: nat | k < DIRECT && i.blocks[k] != 0 && i.blocks[k] < |d| :: d'[i.blocks[k]] == d[i.blocks[k]]
    ensures Holds(d', i, f)
  {
    forall p: nat | p < |f|
      ensures Mapped(d', i, |f|) && HoldsAt(d', i, f, p)
    {
      assert HoldsAt(d, i, f, p);
      PlaceOf(p);
    }
  }

  /** A write to a block that inode `x` does not hold leaves its file and its places alone. */
  lemma OtherKept(L: Layout, d: Disk, d': Disk, b: nat, owner: Owners, x: nat, i: Inode, f: seq<Byte>)
    requires L.Fits(d) && OnlyBlock(L, d, d', b) && InodeInv(L, d, owner, x, i) && IsFile(d, i, f)
    requires b < L.dataStart || (b in owner && owner[b].0 != x) || b !in owner
    ensures IsFile(d', i, f)
  {
    forall k: nat | k < DIRECT && i.blocks[k] != 0 && i.blocks[k] < |d|
      ensures d'[i.blocks[k]] == d[i.blocks[k]]
    {
      assert PlaceOk(L, d, owner, x, k, i.blocks[k]);
    }
    HoldsSame(d, d', i, f);
  }

  /** Places stay in order while no bit is cleared and the device keeps its size. */
  lemma InodeInvKept(L: Layout, d: Disk, d': Disk, owner: Owners, owner': Owners, x: nat, i: Inode)
    requires InodeInv(L, d, owner, x, i) && |d'| == |d|
    requires forall b | b in owner && DataBlock(L, d, b) :: DataBlock(L, d', b) && b in owner' && owner'[b] == owner[b]
    ensures InodeInv(L, d', owner', x, i)
  {
    forall k: nat | k < DIRECT
      ensures PlaceOk(L, d', owner', x, k, i.blocks[k])
    {
      assert PlaceOk(L, d, owner, x, k, i.blocks[k]);
    }
  }

  // ----- a write in progress

  /** The device, the table on it, and the inode in memory that the write works on. */
  datatype Work = Work(d: Disk, inodes: seq<Inode>, owner: Owners, x: nat, inode: Inode)

  /** The inode that counts: the one in memory, or the one on the device. */
  function Cur(w: Work, y: nat): Inode
    requires y < |w.inodes|
  {
    if y == w.x then w.inode else w.inodes[y]
  }

  /** `i` has every block of `i0`, the same size and the same other fields. */
  predicate Grown(i0: Inode, i: Inode) {
    && |i.blocks| == |i0.blocks| == DIRECT && i.size == i0.size && i.meta == i0.meta
    && forall k: nat | k < DIRECT && i0.blocks[k] != 0 :: i.blocks[k] == i0.blocks[k]
  }

  /** The write has brought its file to `f`; the other files are as in `files`. */
  ghost predicate Open(L: Layout, w: Work, files: seq<seq<Byte>>, f: seq<Byte>) {
    && Table(L, w.d, w.inodes) && w.x < |w.inodes| == |files|
    && (forall y: nat | y < |files| :: InodeInv(L, w.d, w.owner, y, Cur(w, y)))
    && Grown(w.inodes[w.x], w.inode) && SizeOk(w.inodes[w.x])
    && (forall y: nat | y < |files| && y != w.x :: IsFile(w.d, w.inodes[y], files[y]))
    && Holds(w.d, w.inode, f) && w.inode.size <= |f|
  }

  /** No place holds block `b`. */
  ghost predicate Unheld(w: Work, b: nat) {
    forall y: nat, k: nat | y < |w.inodes| && k < |Cur(w, y).blocks| :: Cur(w, y).blocks[k] != b
  }

  ghost predicate BitsKept(L: Layout, d: Disk, d': Disk)
    requires L.bitmap < |d| && L.bitmap < |d'|
  {
    forall i: nat | i < BITS && BitAt(d[L.bitmap], i) :: BitAt(d'[L.bitmap], i)
  }

  lemma OpenOther(L: Layout, w: Work, files: seq<seq<Byte>>, f: seq<Byte>, y: nat)
    requires Open(L, w, files, f) && y < |files|
    ensures InodeInv(L, w.d, w.owner, y, Cur(w, y))
    ensures y != w.x ==> IsFile(w.d, w.inodes[y], files[y])
  {
    assert InodeInv(L, w.d, w.owner, y, Cur(w, y));
  }

  /** Writing the journal, or setting bits in the bitmap, changes no file. */
  lemma OpenMeta(L: Layout, w: Work, files: seq<seq<Byte>>, f: seq<Byte>, d': Disk, b: nat)
    requires Open(L, w, files, f) && OnlyBlock(L, w.d, d', b) && b < L.dataStart && !L.InTable(b)
    requires BitsKept(L, w.d, d')
    ensures Open(L, w.(d := d'), files, f)
  {
    TableKept(L, w.d, d', b, w.inodes);
    assert L.Fits(d');
    forall y: nat | y < |files|
      ensures InodeInv(L, d', w.owner, y, Cur(w, y)) && (y != w.x ==> IsFile(d', w.inodes[y], files[y]))
    {
      OpenOther(L, w, files, f, y);
      InodeInvKept(L, w.d, d', w.owner, w.owner, y, Cur(w, y));
      if y != w.x {
        OtherKept(L, w.d, d', b, w.owner, y, w.inodes[y], files[y]);
      }
    }
    OpenOther(L, w, files, f, w.x);
    OwnKept(L, w, d', b, f);
  }

  /** None of the blocks of the inode differs. */
  ghost predicate SamePlaces(d: Disk, d': Disk, i: Inode) {
    && |d'| == |d| && |i.blocks| == DIRECT
    && forall k: nat | k < DIRECT && i.blocks[k] != 0 && i.blocks[k] < |d| :: d'[i.blocks[k]] == d[i.blocks[k]]
  }

  lemma OwnPlaces(L: Layout, w: Work, d': Disk, b: nat)
    requires L.Fits(w.d) && OnlyBlock(L, w.d, d', b) && InodeInv(L, w.d, w.owner, w.x, w.inode)
    requires forall k: nat | k < DIRECT :: w.inode.blocks[k] != b || b < L.dataStart
    ensures SamePlaces(w.d, d', w.inode)
  {
    forall k: nat | k < DIRECT && w.inode.blocks[k] != 0 && w.inode.blocks[k] < |w.d|
      ensures d'[w.inode.blocks[k]] == w.d[w.inode.blocks[k]]
    {
      assert PlaceOk(L, w.d, w.owner, w.x, k, w.inode.blocks[k]);
    }
  }

  /** A write to none of its blocks keeps the bytes of the file. */
  lemma OwnKept(L: Layout, w: Work, d': Disk, b: nat, f: seq<Byte>)
    requires L.Fits(w.d) && OnlyBlock(L, w.d, d', b) && Holds(w.d, w.inode, f)
    requires InodeInv(L, w.d, w.owner, w.x, w.inode)
    requires forall k: nat | k < DIRECT :: w.inode.blocks[k] != b || b < L.dataStart
    ensures Holds(d', w.inode, f)
  {
    OwnPlaces(L, w, d', b);
    HoldsSame(w.d, d', w.inode, f);
  }

  /** A data block whose bit is clear belongs to nobody. */
  lemma ClearUnheld(L: Layout, w: Work, files: seq<seq<Byte>>, f: seq<Byte>, i: nat)
    requires Open(L, w, files, f) && i < BITS && !BitAt(w.d[L.bitmap], i)
    ensures Unheld(w, L.dataStart + i)
  {
    assert L.dataStart > 0;
    hide Table, IsFile, Holds, Grown, BitAt;
    forall y: nat, k: nat | y < |w.inodes| && k < |Cur(w, y).blocks|
      ensures Cur(w, y).blocks[k] != L.dataStart + i
    {
      OpenOther(L, w, files, f, y);
      assert PlaceOk(L, w.d, w.owner, y, k, Cur(w, y).blocks[k]);
    }
  }

  ghost function WithBlock(w: Work, d': Disk, k: nat, b: nat): Work
    requires k < |w.inode.blocks|
  {
    Work(d', w.inodes, w.owner[b := (w.x, k)], w.x, w.inode.(blocks := w.inode.blocks[k := b]))
  }

  /** A block taken and written becomes a place of the file, which nothing shows yet. */
  lemma OpenBlock(L: Layout, w: Work, files: seq<seq<Byte>>, f: seq<Byte>, d': Disk, k: nat, b: nat)
    requires Open(L, w, files, f) && OnlyBlock(L, w.d, d', b) && DataBlock(L, w.d, b) && Unheld(w, b)
    requires k < DIRECT && w.inode.blocks[k] == 0
    ensures Open(L, WithBlock(w, d', k, b), files, f)
  {
    var w' := WithBlock(w, d', k, b);
    TableKept(L, w.d, d', b, w.inodes);
    forall y: nat | y < |files|
      ensures InodeInv(L, d', w'.owner, y, Cur(w', y)) && (y != w.x ==> IsFile(d', w.inodes[y], files[y]))
    {
      OpenOther(L, w, files, f, y);
      PlacesAfterBlock(L, w, d', k, b, y);
      if y != w.x {
        OthersAfterBlock(L, w, d', b, y, files[y]);
      }
    }
    OpenOther(L, w, files, f, w.x);
    OwnKept(L, w, d', b, f);
    forall p: nat | p < |f|
      ensures Mapped(d', w'.inode, |f|) && HoldsAt(d', w'.inode, f, p)
    {
      assert HoldsAt(d', w.inode, f, p);
      PlaceOf(p);
    }
  }

  lemma OthersAfterBlock(L: Layout, w: Work, d': Disk, b: nat, y: nat, g: seq<Byte>)
    requires L.Fits(w.d) && OnlyBlock(L, w.d, d', b) && Unheld(w, b) && y < |w.inodes| && y != w.x
    requires InodeInv(L, w.d, w.owner, y, w.inodes[y]) && IsFile(w.d, w.inodes[y], g)
    ensures IsFile(d', w.inodes[y], g)
  {
    var i := w.inodes[y];
    forall k: nat | k < DIRECT && i.blocks[k] != 0 && i.blocks[k] < |w.d|
      ensures d'[i.blocks[k]] == w.d[i.blocks[k]]
    {
      assert PlaceOk(L, w.d, w.owner, y, k, i.blocks[k]);
      assert Cur(w, y).blocks[k] != b;
    }
    HoldsSame(w.d, d', i, g);
  }

  lemma PlacesAfterBlock(L: Layout, w: Work, d': Disk, k: nat, b: nat, y: nat)
    requires L.Fits(w.d) && OnlyBlock(L, w.d, d', b) && DataBlock(L, w.d, b) && Unheld(w, b)
    requires k < DIRECT == |w.inode.blocks| && w.inode.blocks[k] == 0 && y < |w.inodes|
    requires InodeInv(L, w.d, w.owner, y, Cur(w, y))
    ensures InodeInv(L, d', w.owner[b := (w.x, k)], y, Cur(WithBlock(w, d', k, b), y))
  {
    var i := Cur(w, y);
    var i' := Cur(WithBlock(w, d', k, b), y);
    assert SizeOk(i');
    forall j: nat | j < DIRECT
      ensures PlaceOk(L, d', w.owner[b := (w.x, k)], y, j, i'.blocks[j])
    {
      assert PlaceOk(L, w.d, w.owner, y, j, i.blocks[j]);
      assert i.blocks[j] != b;
    }
  }

  /** A block with `part` copied in at `o`. */
  function Splice(b: Block, o: nat, part: seq<Byte>): Block
    requires o + |part| <= BLOCK_SIZE
  {
    b[..o] + part + b[o + |part|..]
  }

  lemma OverwriteAt(f: seq<Byte>, off: nat, bs: seq<Byte>, p: nat)
    requires off <= |f|
    ensures |Overwrite(f, off, bs)| == if off + |bs| < |f| then |f| else off + |bs|
    ensures p < |Overwrite(f, off, bs)| ==>
              Overwrite(f, off, bs)[p] == if off <= p < off + |bs| then bs[p - off] else f[p]
  {
  }

  /** Copying in twice, one part behind the other, is copying in once. */
  lemma OverwriteMore(f: seq<Byte>, off: nat, bs: seq<Byte>, cs: seq<Byte>)
    requires off <= |f|
    ensures |Overwrite(f, off, bs)| >= off + |bs|
    ensures Overwrite(Overwrite(f, off, bs), off + |bs|, cs) == Overwrite(f, off, bs + cs)
  {
  }

  ghost predicate SpliceOk(L: Layout, w: Work, d': Disk, k: nat, o: nat, part: seq<Byte>) {
    && k < DIRECT == |w.inode.blocks| && w.inode.blocks[k] != 0 && w.inode.blocks[k] < |w.d| && o + |part| <= BLOCK_SIZE
    && OnlyBlock(L, w.d, d', w.inode.blocks[k]) && d'[w.inode.blocks[k]] == Splice(w.d[w.inode.blocks[k]], o, part)
  }

  lemma SpliceMapped(L: Layout, w: Work, f: seq<Byte>, d': Disk, k: nat, o: nat, part: seq<Byte>)
    requires SpliceOk(L, w, d', k, o, part) && Mapped(w.d, w.inode, |f|) && k * BLOCK_SIZE + o <= |f|
    ensures Mapped(d', w.inode, |Overwrite(f, k * BLOCK_SIZE + o, part)|)
  {
    OverwriteAt(f, k * BLOCK_SIZE + o, part, 0);
    hide Overwrite, Splice;
    var n := |Overwrite(f, k * BLOCK_SIZE + o, part)|;
    forall j: nat | j < DIRECT && j * BLOCK_SIZE < n
      ensures w.inode.blocks[j] != 0 && w.inode.blocks[j] < |d'|
    {
      if j * BLOCK_SIZE >= |f| {
        assert j == k;
      }
    }
  }

  lemma SpliceByte(L: Layout, w: Work, f: seq<Byte>, d': Disk, k: nat, o: nat, part: seq<Byte>, p: nat)
    requires SpliceOk(L, w, d', k, o, part) && Holds(w.d, w.inode, f) && k * BLOCK_SIZE + o <= |f|
    requires InodeInv(L, w.d, w.owner, w.x, w.inode) && L.Fits(w.d)
    requires var f' := Overwrite(f, k * BLOCK_SIZE + o, part);
             p < |f'| && Mapped(d', w.inode, |f'|)
    ensures HoldsAt(d', w.inode, Overwrite(f, k * BLOCK_SIZE + o, part), p)
  {
    OverwriteAt(f, k * BLOCK_SIZE + o, part, p);
    var q := p / BLOCK_SIZE;
    PlaceOf(p);
    assert PlaceOk(L, w.d, w.owner, w.x, q, w.inode.blocks[q]) && PlaceOk(L, w.d, w.owner, w.x, k, w.inode.blocks[k]);
    assert p < |f| ==> HoldsAt(w.d, w.inode, f, p);
    hide Overwrite;
    if q != k {
      assert d'[w.inode.blocks[q]] == w.d[w.inode.blocks[q]];
    }
  }

  /** Writing into a block of the file overwrites the file there, and no other file. */
  lemma OpenData(L: Layout, w: Work, files: seq<seq<Byte>>, f: seq<Byte>, d': Disk, k: nat, o: nat, part: seq<Byte>)
    requires Open(L, w, files, f) && SpliceOk(L, w, d', k, o, part) && k * BLOCK_SIZE + o <= |f|
    ensures Open(L, w.(d := d'), files, Overwrite(f, k * BLOCK_SIZE + o, part))
  {
    var b := w.inode.blocks[k];
    OpenOther(L, w, files, f, w.x);
    assert PlaceOk(L, w.d, w.owner, w.x, k, b);
    TableKept(L, w.d, d', b, w.inodes);
    forall y: nat | y < |files|
      ensures InodeInv(L, d', w.owner, y, Cur(w, y)) && (y != w.x ==> IsFile(d', w.inodes[y], files[y]))
    {
      OpenOther(L, w, files, f, y);
      InodeInvKept(L, w.d, d', w.owner, w.owner, y, Cur(w, y));
      if y != w.x {
        OtherKept(L, w.d, d', b, w.owner, y, w.inodes[y], files[y]);
      }
    }
    SpliceMapped(L, w, f, d', k, o, part);
    var f' := Overwrite(f, k * BLOCK_SIZE + o, part);
    OverwriteAt(f, k * BLOCK_SIZE + o, part, 0);
    forall p: nat | p < |f'|
      ensures HoldsAt(d', w.inode, f', p)
    {
      SpliceByte(L, w, f, d', k, o, part, p);
    }
  }

  lemma SetBitKeeps(bm: Block, i: nat)
    requires i < BITS && !BitAt(bm, i)
    ensures BitAt(SetBit(bm, i), i) && forall k: nat | k < BITS && BitAt(bm, k) :: BitAt(SetBit(bm, i), k)
  {
    forall k: nat | k < BITS
      ensures BitAt(SetBit(bm, i), k) <==> k == i || BitAt(bm, k)
    {
      SetBitAt(bm, i, k);
    }
  }

  lemma UnheldMoves(w: Work, w': Work, b: nat)
    requires Unheld(w, b) && w' == w.(d := w'.d)
    ensures Unheld(w', b)
  {
    forall y: nat, k: nat | y < |w'.inodes| && k < |Cur(w', y).blocks|
      ensures Cur(w', y).blocks[k] != b
    {
      assert Cur(w', y) == Cur(w, y);
    }
  }

  lemma OpenDataAt(L: Layout, w: Work, files: seq<seq<Byte>>, f: seq<Byte>, d': Disk, off: nat, part: seq<Byte>)
    requires Open(L, w, files, f) && SpliceOk(L, w, d', off / BLOCK_SIZE, off % BLOCK_SIZE, part) && off <= |f|
    ensures Open(L, w.(d := d'), files, Overwrite(f, off, part))
  {
    hide Open, SpliceOk, Overwrite;
    OpenData(L, w, files, f, d', off / BLOCK_SIZE, off % BLOCK_SIZE, part);
  }

  /** Writing into a block behind the end of what the file shows changes nothing that shows. */
  lemma OpenBehind(L: Layout, w: Work, files: seq<seq<Byte>>, f: seq<Byte>, d': Disk, k: nat, o: nat, part: seq<Byte>)
    requires Open(L, w, files, f) && SpliceOk(L, w, d', k, o, part) && |f| <= k * BLOCK_SIZE + o
    ensures Open(L, w.(d := d'), files, f)
  {
    var b := w.inode.blocks[k];
    OpenOther(L, w, files, f, w.x);
    assert PlaceOk(L, w.d, w.owner, w.x, k, b);
    TableKept(L, w.d, d', b, w.inodes);
    forall y: nat | y < |files|
      ensures InodeInv(L, d', w.owner, y, Cur(w, y)) && (y != w.x ==> IsFile(d', w.inodes[y], files[y]))
    {
      OpenOther(L, w, files, f, y);
      InodeInvKept(L, w.d, d', w.owner, w.owner, y, Cur(w, y));
      if y != w.x {
        OtherKept(L, w.d, d', b, w.owner, y, w.inodes[y], files[y]);
      }
    }
    forall p: nat | p < |f|
      ensures Mapped(d', w.inode, |f|) && HoldsAt(d', w.inode, f, p)
    {
      assert HoldsAt(w.d, w.inode, f, p);
      PlaceOf(p);
      SpliceOther(L, w, d', k, o, part, p / BLOCK_SIZE, p % BLOCK_SIZE);
    }
  }

  /** A byte outside the part that is copied in stays. */
  lemma SpliceOther(L: Layout, w: Work, d': Disk, k: nat, o: nat, part: seq<Byte>, q: nat, r: nat)
    requires L.Fits(w.d) && SpliceOk(L, w, d', k, o, part) && PlacesOk(L, w.d, w.owner, w.x, w.inode)
    requires q < DIRECT && r < BLOCK_SIZE && w.inode.blocks[q] != 0 && (q == k ==> r < o || o + |part| <= r)
    ensures w.inode.blocks[q] < |w.d| && d'[w.inode.blocks[q]][r] == w.d[w.inode.blocks[q]][r]
  {
    assert PlaceOk(L, w.d, w.owner, w.x, q, w.inode.blocks[q]) && PlaceOk(L, w.d, w.owner, w.x, k, w.inode.blocks[k]);
  }

  /** A filesystem at rest. */
  ghost predicate Sound(L: Layout, d: Disk, inodes: seq<Inode>, owner: Owners, files: seq<seq<Byte>>) {
    Table(L, d, inodes) && Inv(L, d, inodes, owner) && Contents(d, inodes, files)
  }

  /** A device holds one table and one set of files. */
  lemma SoundUnique(L: Layout, d: Disk, inodes: seq<Inode>, owner: Owners, files: seq<seq<Byte>>,
                    inodes': seq<Inode>, owner': Owners, files': seq<seq<Byte>>)
    requires Sound(L, d, inodes, owner, files) && Sound(L, d, inodes', owner', files')
    ensures inodes == inodes' && files == files'
  {
    forall x: nat | x < |inodes|
      ensures inodes[x] == inodes'[x] && files[x] == files'[x]
    {
      assert InodeAt(L, d, x) == inodes[x] && InodeAt(L, d, x) == inodes'[x];
      hide InodeAt;
      FileUnique(d, inodes[x], files[x], files'[x]);
    }
  }

  lemma NotSound(L: Layout, d: Disk, inodes: seq<Inode>, owner: Owners, files: seq<seq<Byte>>, x: nat)
    requires x < |inodes| && !SizeOk(inodes[x])
    ensures !Sound(L, d, inodes, owner, files)
  {
    assert !InodeInv(L, d, owner, x, inodes[x]);
  }

  lemma Begin(L: Layout, d: Disk, inodes: seq<Inode>, owner: Owners, files: seq<seq<Byte>>, x: nat)
    requires Sound(L, d, inodes, owner, files) && x < |inodes|
    ensures Open(L, Work(d, inodes, owner, x, inodes[x]), files, files[x])
  {
    var w := Work(d, inodes, owner, x, inodes[x]);
    forall y: nat | y < |files|
      ensures InodeInv(L, d, owner, y, Cur(w, y))
    {
      assert InodeInv(L, d, owner, y, inodes[y]);
    }
    assert IsFile(d, inodes[x], files[x]);
  }

  /** A write given up leaves the table as it was; its file has what was copied into old blocks. */
  lemma GivenUp(L: Layout, w: Work, files: seq<seq<Byte>>, f: seq<Byte>)
    requires Open(L, w, files, f)
    ensures Sound(L, w.d, w.inodes, w.owner, files[w.x := f[..w.inode.size]])
  {
    var i0, g := w.inodes[w.x], f[..w.inode.size];
    OpenOther(L, w, files, f, w.x);
    OldPlaces(L, w, i0);
    InvMapped(L, w.d, w.owner, w.x, i0);
    OldBytes(L, w, i0, f);
    hide Table, InodeInv, IsFile, Holds, Grown, SizeOk;
    var files' := files[w.x := g];
    forall y: nat | y < |files|
      ensures InodeInv(L, w.d, w.owner, y, w.inodes[y]) && IsFile(w.d, w.inodes[y], files'[y])
    {
      OpenOther(L, w, files, f, y);
    }
  }

  lemma OldBytes(L: Layout, w: Work, i0: Inode, f: seq<Byte>)
    requires Grown(i0, w.inode) && Mapped(w.d, i0, i0.size) && Holds(w.d, w.inode, f) && i0.size <= |f|
    ensures IsFile(w.d, i0, f[..i0.size])
  {
    var g := f[..i0.size];
    forall p: nat | p < |g|
      ensures HoldsAt(w.d, i0, g, p)
    {
      assert HoldsAt(w.d, w.inode, f, p);
      PlaceOf(p);
    }
  }

  lemma OldPlaces(L: Layout, w: Work, i0: Inode)
    requires InodeInv(L, w.d, w.owner, w.x, w.inode) && Grown(i0, w.inode) && SizeOk(i0)
    ensures InodeInv(L, w.d, w.owner, w.x, i0)
  {
    forall k: nat | k < DIRECT
      ensures PlaceOk(L, w.d, w.owner, w.x, k, i0.blocks[k])
    {
      assert PlaceOk(L, w.d, w.owner, w.x, k, w.inode.blocks[k]);
    }
  }

  /** Storing the inode makes the new file the one on the device. */
  lemma Finish(L: Layout, w: Work, files: seq<seq<Byte>>, f: seq<Byte>, d': Disk, i: Inode)
    requires Open(L, w, files, f) && i.blocks == w.inode.blocks && i.size == |f| && InodeOk(i)
    requires var b := L.table + w.x / INODES_PER_BLOCK;
             OnlyBlock(L, w.d, d', b) && d'[b] == PutInode(w.d[b], w.x % INODES_PER_BLOCK, i)
    ensures Sound(L, d', w.inodes[w.x := i], w.owner, files[w.x := f])
  {
    var b := L.table + w.x / INODES_PER_BLOCK;
    TableUpdated(L, w.d, d', w.inodes, w.x, i);
    assert L.InTable(b) && L.Fits(d');
    OpenOther(L, w, files, f, w.x);
    FinishOwn(L, w, f, d', b, i);
    var inodes', files' := w.inodes[w.x := i], files[w.x := f];
    forall y: nat | y < |files|
      ensures InodeInv(L, d', w.owner, y, inodes'[y]) && IsFile(d', inodes'[y], files'[y])
    {
      OpenOther(L, w, files, f, y);
      if y != w.x {
        InodeInvKept(L, w.d, d', w.owner, w.owner, y, w.inodes[y]);
        OtherKept(L, w.d, d', b, w.owner, y, w.inodes[y], files[y]);
      }
    }
  }

  lemma FinishOwn(L: Layout, w: Work, f: seq<Byte>, d': Disk, b: nat, i: Inode)
    requires L.Fits(w.d) && InodeInv(L, w.d, w.owner, w.x, w.inode) && Holds(w.d, w.inode, f)
    requires OnlyBlock(L, w.d, d', b) && L.InTable(b) && i.blocks == w.inode.blocks && i.size == |f| && InodeOk(i)
    ensures InodeInv(L, d', w.owner, w.x, i) && IsFile(d', i, f)
  {
    OwnKept(L, w, d', b, f);
    forall k: nat | k < DIRECT
      ensures PlaceOk(L, d', w.owner, w.x, k, i.blocks[k])
    {
      assert PlaceOk(L, w.d, w.owner, w.x, k, w.inode.blocks[k]);
    }
    forall p: nat | p < |f|
      ensures Mapped(d', i, |f|) && HoldsAt(d', i, f, p)
    {
      assert HoldsAt(d', w.inode, f, p);
    }
  }

  /** An inode emptied on the device owns nothing; the blocks it had stay marked. */
  lemma Emptied(L: Layout, d: Disk, inodes: seq<Inode>, owner: Owners, files: seq<seq<Byte>>, x: nat, d': Disk,
                i: Inode)
    requires Sound(L, d, inodes, owner, files) && x < |inodes| && InodeOk(i) && i.size == 0
    requires forall k: nat | k < DIRECT :: i.blocks[k] == 0
    requires var b := L.table + x / INODES_PER_BLOCK;
             OnlyBlock(L, d, d', b) && d'[b] == PutInode(d[b], x % INODES_PER_BLOCK, i)
    ensures Sound(L, d', inodes[x := i], owner, files[x := []])
  {
    var b := L.table + x / INODES_PER_BLOCK;
    TableUpdated(L, d, d', inodes, x, i);
    assert L.InTable(b) && L.Fits(d');
    var inodes', files' := inodes[x := i], files[x := []];
    forall y: nat | y < |files|
      ensures InodeInv(L, d', owner, y, inodes'[y]) && IsFile(d', inodes'[y], files'[y])
    {
      assert InodeInv(L, d, owner, y, inodes[y]) && IsFile(d, inodes[y], files[y]);
      if y != x {
        InodeInvKept(L, d, d', owner, owner, y, inodes[y]);
        OtherKept(L, d, d', b, owner, y, inodes[y], files[y]);
      }
    }
  }

  // ----- reading

  /** The number of bytes a read asks for that the file has. */
  function Available(size: nat, off: nat, len: nat): (n: nat)
    ensures n <= len && (n > 0 ==> off + n <= size)
  {
    if off >= size then 0 else if len < size - off then len else size - off
  }

  /** What a read returns: it starts from the first block whatever the offset. */
  function ReadBytes(f: seq<Byte>, off: nat, len: nat): seq<Byte> {
    var n := Available(|f|, off, len);
    if n == 0 then [] else
    var lo := off % BLOCK_SIZE;
    OffsetInBlock(off);
    f[lo..lo + n]
  }

  lemma OffsetInBlock(off: nat)
    ensures off % BLOCK_SIZE <= off && (off < BLOCK_SIZE ==> off % BLOCK_SIZE == off)
    ensures off >= BLOCK_SIZE ==> off % BLOCK_SIZE < off
  {
  }

  /** The bytes a read should return: from `off` on, at most `len`, up to the end of the file. */
  function Wanted(f: seq<Byte>, off: nat, len: nat): seq<Byte> {
    if off > |f| then [] else if off + len < |f| then f[off..off + len] else f[off..]
  }

  /** A read that starts in the first block returns as many bytes as asked for or there, and these. */
  lemma ReadExact(f: seq<Byte>, off: nat, len: nat)
    requires off < BLOCK_SIZE
    ensures var buf := ReadBytes(f, off, len);
            && |buf| <= len && (buf == [] || off + |buf| <= |f|) && (|buf| == len || off + |buf| >= |f|)
            && forall i: nat | i < |buf| :: buf[i] == f[off + i]
  {
  }

  /** Any read returns as many bytes as it should. */
  lemma ReadLength(f: seq<Byte>, off: nat, len: nat)
    ensures |ReadBytes(f, off, len)| == |Wanted(f, off, len)|
  {
  }

  /** A file of zeros with a one at `at`. */
  function Spike(size: nat, at: nat): (f: seq<Byte>)
    ensures |f| == size
  {
    seq(size, p => if p == at then 1 else 0)
  }

  /** A read behind the first block misses the one byte that is not zero. */
  lemma ReadMissesSpike(size: nat, off: nat, len: nat)
    requires off >= BLOCK_SIZE && Available(size, off, len) > 0
    ensures ReadBytes(Spike(size, off), off, len) != Wanted(Spike(size, off), off, len)
  {
    OffsetInBlock(off);
    var f := Spike(size, off);
    assert ReadBytes(f, off, len)[0] == 0 && Wanted(f, off, len)[0] == 1;
  }

  /** Reads are right for every file of a size exactly when they start in the first block or get nothing. */
  lemma ReadRightIff(size: nat, off: nat, len: nat)
    ensures (forall f: seq<Byte> | |f| == size :: ReadBytes(f, off, len) == Wanted(f, off, len))
            <==> off < BLOCK_SIZE || Available(size, off, len) == 0
  {
    OffsetInBlock(off);
    if off >= BLOCK_SIZE && Available(size, off, len) > 0 {
      ReadMissesSpike(size, off, len);
    }
  }

  // ----- the block loop of a write

  /** The bytes of a write that fit below the end of the tenth block. */
  function Room(off: nat, len: nat): nat {
    if off >= MAX_SIZE then 0 else if len < MAX_SIZE - off then len else MAX_SIZE - off
  }

  lemma ChunkFits(off: nat, chunk: nat)
    requires off / BLOCK_SIZE < DIRECT && chunk <= BLOCK_SIZE - off % BLOCK_SIZE
    ensures off < MAX_SIZE && off + chunk <= MAX_SIZE
  {
  }

  lemma OverwriteStep(f: seq<Byte>, off: nat, buf: seq<Byte>, n: nat, chunk: nat)
    requires off <= |f| && n + chunk <= |buf|
    ensures off + n <= |Overwrite(f, off, buf[..n])|
    ensures Overwrite(Overwrite(f, off, buf[..n]), off + n, buf[n..n + chunk]) == Overwrite(f, off, buf[..n + chunk])
  {
    OverwriteMore(f, off, buf[..n], buf[n..n + chunk]);
    assert buf[..n] + buf[n..n + chunk] == buf[..n + chunk];
  }

  lemma BeginWrite(L: Layout, d: Disk, inodes: seq<Inode>, owner: Owners, files: seq<seq<Byte>>, x: nat)
    requires Sound(L, d, inodes, owner, files) && x < |files|
    ensures |inodes| == |files| == L.tableBlocks * INODES_PER_BLOCK && InodeAt(L, d, x) == inodes[x]
    ensures Open(L, Work(d, inodes, owner, x, inodes[x]), files, files[x])
    ensures |inodes[x].blocks| == DIRECT && |files[x]| == inodes[x].size <= MAX_SIZE
  {
    Begin(L, d, inodes, owner, files, x);
    assert InodeAt(L, d, x) == inodes[x];
    assert InodeInv(L, d, owner, x, inodes[x]) && IsFile(d, inodes[x], files[x]);
  }

  lemma OpenTable(L: Layout, w: Work, files: seq<seq<Byte>>, f: seq<Byte>)
    requires Open(L, w, files, f)
    ensures |w.inodes| == |files| == L.tableBlocks * INODES_PER_BLOCK
  {
  }

  lemma OpenSizes(L: Layout, w: Work, files: seq<seq<Byte>>, f: seq<Byte>)
    requires Open(L, w, files, f)
    ensures w.x < |w.inodes| == |files| && w.inode.size == w.inodes[w.x].size <= |f| <= MAX_SIZE && InodeOk(w.inode)
  {
    OpenOther(L, w, files, f, w.x);
  }

  /** The other fields of an inode with a new modification time. */
  function Timed(meta: seq<nat>, now: nat): seq<nat> {
    if |meta| == WORDS then meta[28 := now % WORD][29 := now / WORD] else meta
  }

  /** The inode with a new size and modification time. */
  function Stamped(i: Inode, size: nat, now: nat): (r: Inode)
    requires InodeOk(i) && size < WORD * WORD && now < WORD * WORD
    ensures InodeOk(r) && r.blocks == i.blocks && r.size == size && r.meta == Timed(i.meta, now)
  {
    Inode(size, i.blocks, Timed(i.meta, now))
  }

  lemma FileIs(L: Layout, d: Disk, inodes: seq<Inode>, owner: Owners, files: seq<seq<Byte>>, x: nat)
    requires Sound(L, d, inodes, owner, files) && x < |files|
    ensures x < |inodes| && IsFile(d, inodes[x], files[x]) && Mapped(d, inodes[x], |files[x]|)
  {
  }

  /** A piece of a block is the piece of the file at its place. */
  lemma FileChunk(d: Disk, i: Inode, f: seq<Byte>, k: nat, o: nat, n: nat)
    requires IsFile(d, i, f) && k < DIRECT && o + n <= BLOCK_SIZE && k * BLOCK_SIZE + o + n <= |f| && n > 0
    ensures i.blocks[k] != 0 && i.blocks[k] < |d|
    ensures d[i.blocks[k]][o..o + n] == f[k * BLOCK_SIZE + o..k * BLOCK_SIZE + o + n]
  {
    InBlock(k, o);
    assert HoldsAt(d, i, f, k * BLOCK_SIZE + o);
    var s, t := d[i.blocks[k]][o..o + n], f[k * BLOCK_SIZE + o..k * BLOCK_SIZE + o + n];
    forall q: nat | q < |s|
      ensures s[q] == t[q]
    {
      assert HoldsAt(d, i, f, k * BLOCK_SIZE + o + q);
      InBlock(k, o + q);
    }
  }

  lemma InBlock(k: nat, o: nat)
    requires o < BLOCK_SIZE
    ensures (k * BLOCK_SIZE + o) / BLOCK_SIZE == k && (k * BLOCK_SIZE + o) % BLOCK_SIZE == o
  {
  }

  /** A chunk that is not the last one ends at the end of its block. */
  lemma NextBlock(off: nat, chunk: nat, remaining: nat)
    requires chunk == if BLOCK_SIZE - off % BLOCK_SIZE < remaining then BLOCK_SIZE - off % BLOCK_SIZE else remaining
    ensures remaining - chunk > 0 ==> (off + chunk) % BLOCK_SIZE == 0 && chunk == BLOCK_SIZE - off % BLOCK_SIZE
  {
  }

  /** A read of `n` bytes in progress: `buf` is the start of what it will return. */
  ghost predicate Reading(f: seq<Byte>, lo: nat, n: nat, k: nat, off: nat, buf: seq<Byte>) {
    && k <= DIRECT && |buf| <= n && lo + n <= |f| && buf == f[lo..lo + |buf|]
    && (|buf| < n ==> lo + |buf| == k * BLOCK_SIZE + off % BLOCK_SIZE)
  }

  lemma ReadStep(d: Disk, i: Inode, f: seq<Byte>, lo: nat, n: nat, k: nat, off: nat, buf: seq<Byte>, chunk: nat)
    requires IsFile(d, i, f) && Reading(f, lo, n, k, off, buf) && |buf| < n && k < DIRECT
    requires chunk == if BLOCK_SIZE - off % BLOCK_SIZE < n - |buf| then BLOCK_SIZE - off % BLOCK_SIZE else n - |buf|
    ensures i.blocks[k] != 0 && i.blocks[k] < |d|
    ensures Reading(f, lo, n, k + 1, off + chunk, buf + d[i.blocks[k]][off % BLOCK_SIZE..off % BLOCK_SIZE + chunk])
  {
    hide IsFile;
    NextBlock(off, chunk, n - |buf|);
    FileChunk(d, i, f, k, off % BLOCK_SIZE, chunk);
    assert f[lo..lo + |buf|] + f[lo + |buf|..lo + |buf| + chunk] == f[lo..lo + |buf| + chunk];
  }

  /** When the blocks run out, so does the file. */
  lemma ReadEnd(f: seq<Byte>, lo: nat, n: nat, off: nat, buf: seq<Byte>)
    requires Reading(f, lo, n, DIRECT, off, buf) && |f| <= MAX_SIZE
    ensures |buf| == n
  {
  }

  lemma ReadAll(f: seq<Byte>, off: nat, len: nat, k: nat, off': nat, buf: seq<Byte>)
    requires Reading(f, off % BLOCK_SIZE, Available(|f|, off, len), k, off', buf) && |buf| == Available(|f|, off, len)
    ensures buf == ReadBytes(f, off, len)
  {
  }

  lemma ReadStart(d: Disk, i: Inode, f: seq<Byte>, off: nat, len: nat)
    requires IsFile(d, i, f)
    ensures |f| == i.size
    ensures var n := Available(i.size, off, len);
            if n > 0 then Reading(f, off % BLOCK_SIZE, n, 0, off, []) else ReadBytes(f, off, len) == []
  {
    OffsetInBlock(off);
  }

  /** An inode without blocks. */
  function EmptyInode(i: Inode): (r: Inode)
    requires InodeOk(i)
    ensures InodeOk(r) && r.size == 0 && forall k: nat | k < DIRECT :: r.blocks[k] == 0
  {
    Inode(0, seq(DIRECT, _ => 0), i.meta[24 := 0][25 := 0])
  }

  /** The ten places of an inode are empty. */
  predicate NoPlaces(i: Inode) {
    |i.blocks| == 10 && forall k: nat | k < 10 :: i.blocks[k] == 0
  }

  /** The two indirect places, bytes 96 to 103 of an inode, are empty; its other fields are as before. */
  predicate IndirectCleared(meta: seq<nat>, meta': seq<nat>) {
    && |meta| == |meta'| == 32 && meta'[24] == meta'[25] == 0
    && forall w: nat | w < 32 && w != 24 && w != 25 :: meta'[w] == meta[w]
  }

  lemma EmptyFields(i: Inode)
    requires InodeOk(i)
    ensures NoPlaces(EmptyInode(i)) && IndirectCleared(i.meta, EmptyInode(i).meta)
  {
  }

  /** No mark is taken away. */
  ghost predicate AllKept(L: Layout, d: Disk, d': Disk) {
    L.bitmap < |d| && L.bitmap < |d'| && BitsKept(L, d, d')
  }
}

/** The OnyxFS read and write paths. */
module Files {
  import opened Base
  import opened Disks
  import opened JournalSpec
  import opened Journal
  import opened FilesSpec
  import opened WriteSpec

  /** The block loop of `read`. It starts at the first block, whatever the offset is. */
  method ReadBlocks(d: Disk, inode: Inode, off: nat, len: nat, ghost f: seq<Byte>) returns (buf: seq<Byte>)
    requires IsFile(d, inode, f) && |f| <= MAX_SIZE && |inode.blocks| == DIRECT
    ensures buf == ReadBytes(f, off, len)
  {
    hide Reading, IsFile, ReadBytes, Available;
    ReadStart(d, inode, f, off, len);
    var remaining: nat := Available(inode.size, off, len);
    ghost var n, lo := remaining, off % BLOCK_SIZE;
    buf := [];
    if remaining == 0 {
      return;
    }
    var off': nat, k: nat := off, 0;
    while k < DIRECT
      invariant k <= DIRECT && |buf| + remaining == n && Reading(f, lo, n, k, off', buf)
    {
      if remaining == 0 {
        break;
      }
      var chunkOff := off' % BLOCK_SIZE;
      var chunk: nat := if BLOCK_SIZE - chunkOff < remaining then BLOCK_SIZE - chunkOff else remaining;
      ReadStep(d, inode, f, lo, n, k, off', buf, chunk);
      var b := inode.blocks[k];
      if b == 0 {
        break;
      }
      buf := buf + d[b][chunkOff..chunkOff + chunk];
      off', remaining, k := off' + chunk, remaining - chunk, k + 1;
    }
    if k == DIRECT {
      ReadEnd(f, lo, n, off', buf);
    }
    ReadAll(f, off, len, k, off', buf);
  }

  class Files {
    const j: Journal
    const L: Layout
    /** The inode table as decoded, the place of each block, and every file's bytes. */
    ghost var inodes: seq<Inode>
    ghost var owner: Owners
    ghost var files: seq<seq<Byte>>

    constructor (j: Journal, L: Layout, ghost inodes: seq<Inode>, ghost owner: Owners, ghost files: seq<seq<Byte>>)
      requires j.Valid() && j.area == L.area && Sound(L, j.disk, inodes, owner, files)
      ensures Valid() && this.j == j && this.L == L && this.files == files
    {
      this.j, this.L, this.inodes, this.owner, this.files := j, L, inodes, owner, files;
    }

    ghost predicate Valid()
      reads this, j
    {
      Ready() && Sound(L, j.disk, inodes, owner, files)
    }

    ghost predicate Ready()
      reads j
    {
      j.Valid() && j.area == L.area && L.Fits(j.disk)
    }

    /** The journal has no room left. */
    predicate LogFull()
      reads j
    {
      j.Configured() && j.head >= j.area.size
    }

    /** Why a write fails: the log or the bitmap is full, or a free block lies off the device. */
    ghost predicate Reason(e: Errno)
      requires L.bitmap < |j.disk|
      reads j
    {
      || (e == NoSpace && (LogFull() || AllSet(j.disk[L.bitmap])))
      || (e == Io && |j.disk| < L.dataStart + BITS)
    }

    /** The log has room for `n` more entries. */
    predicate HasRoom(n: nat)
      reads j
    {
      !j.Configured() || j.head + n <= j.area.size
    }

    /** `n` entries were logged since the head was at `head`. */
    predicate Paid(head: nat, n: nat)
      reads j
    {
      j.Configured() ==> j.head == head + n
    }

    ghost function Free(): nat
      requires L.Fits(j.disk)
      reads j
    {
      FreeBlocks(L, j.disk)
    }

    /** The log holds the writes of this transaction alone, and each is also in place. */
    ghost predicate Clean()
      reads j
    {
      j.Configured() && Unmarked(L.area, j.disk) && Mirrors(L.area, j.disk, j.head)
    }

    /** A write has copied `m` bytes in, and power loss never met another state since `from`. */
    ghost predicate Busy(w: Work, job: Job, m: nat, from: nat)
      reads j
    {
      && Ready() && Writing(L, w, job, m) && w.d == j.disk && Covered(L, j.trace, from, job)
      && (job.clean ==> Unmarked(L.area, j.disk))
    }

    /** Logs the new contents of a block, then writes it. */
    method Update(b: nat, x: Block) returns (r: Result<()>)
      requires Ready() && b < WORD && !L.area.Holds(b)
      modifies j
      ensures Ready() && OnlyBlock(L, old(j.disk), j.disk, b)
      ensures r.Ok? <==> old(HasRoom(1)) && b < |j.disk|
      ensures r.Ok? ==> j.disk[b] == x && Paid(old(j.head), 1) && (old(Clean()) ==> Clean())
      ensures r.Err? ==> SameOutside(L, old(j.disk), j.disk)
      ensures r.Err? ==> (r.error == NoSpace && LogFull()) || (r.error == Io && b >= |j.disk|)
      ensures Stepped(L, old(j.trace), old(j.disk), j.trace, j.disk)
      ensures old(LogFull()) ==> r == Err(NoSpace) && LogFull()
    {
      hide Kind, Entry, Mirrors;
      if Unmarked(L.area, j.disk) && j.head < L.area.size {
        UnmarkedLogged(L.area, j.disk, j.head, b, x);
      }
      r := j.JournalLog(b, x);
      if r.Ok? {
        var ok := j.WriteBlock(b, x);
        if !ok {
          r := Err(Io);
        } else if old(Clean()) {
          MirrorsLogged(L.area, old(j.disk), j.disk, old(j.head), b, x);
        }
      }
    }

    /** The lowest clear bit of the bitmap. */
    method FindClear(bm: Block) returns (r: Option<nat>)
      ensures r.None? ==> AllSet(bm)
      ensures r.Some? ==> r.value < BITS && !BitAt(bm, r.value) && forall i: nat | i < r.value :: BitAt(bm, i)
    {
      var n := 0;
      while n < BLOCK_SIZE
        invariant n <= BLOCK_SIZE
        invariant forall i: nat | i < 8 * n :: BitAt(bm, i)
      {
        var full := bm[n] == 0xFF;
        if !full {
          var k := 0;
          while k < 8
            invariant k <= 8
            invariant forall i: nat | i < 8 * n + k :: BitAt(bm, i)
          {
            assert (8 * n + k) / 8 == n && (8 * n + k) % 8 == k;
            if !BitOf(bm[n], k) {
              return Some(8 * n + k);
            }
            k := k + 1;
          }
        } else {
          FullBits(bm, n);
        }
        n := n + 1;
      }
      return None;
    }

    lemma FullBits(bm: Block, n: nat)
      requires n < BLOCK_SIZE && bm[n] == 0xFF
      ensures forall i: nat | 8 * n <= i < 8 * n + 8 :: BitAt(bm, i)
    {
      forall i: nat | 8 * n <= i < 8 * n + 8
        ensures BitAt(bm, i)
      {
        ByteRange();
        FullByte(bm[n], 8, i - 8 * n);
      }
    }

    /** Marks the lowest free data block; fails exactly when none is free or the log is full. */
    method AllocDataBlock(ghost w: Work, ghost job: Job, ghost m: nat, ghost from: nat) returns (r: Result<nat>)
      requires Busy(w, job, m, from)
      modifies j
      ensures Busy(w.(d := j.disk), job, m, from)
      ensures r.Ok? <==> old(HasRoom(1)) && !AllSet(old(j.disk)[L.bitmap])
      ensures r.Ok? ==>
                && L.dataStart <= r.value < L.dataStart + BITS && Unheld(w, r.value)
                && BitAt(j.disk[L.bitmap], r.value - L.dataStart)
                && Paid(old(j.head), 1) && (old(Clean()) ==> Clean())
      ensures r.Ok? ==> if r.value < |j.disk| then Free() == old(Free()) - 1 else old(Free()) == 0
      ensures r.Err? ==> r.error == NoSpace && Reason(NoSpace)
      ensures old(LogFull()) ==> r.Err? && LogFull()
    {
      var bm := j.disk[L.bitmap];
      var bit := FindClear(bm);
      if bit.None? {
        return Err(NoSpace);
      }
      WritingUnheld(L, w, job, m, bit.value);
      var x := SetBit(bm, bit.value);
      SetBitKeeps(bm, bit.value);
      hide BitAt, SetBit, Writing, Unheld, Clean, FreeBlocks, Covered, Stepped, Unmarked;
      ghost var trace := j.trace;
      var done := Update(L.bitmap, x);
      WritingMeta(L, w, job, m, j.disk, L.bitmap);
      CoveredMore(L, trace, j.trace, from, job, w, m, w.(d := j.disk), m);
      if done.Err? {
        return Err(done.error);
      }
      LowestTaken(L, w.d, j.disk, bit.value);
      return Ok(L.dataStart + bit.value);
    }

    /** Takes a block for the empty place `k` of the inode and zeroes it. */
    method TakeBlock(k: nat, inode: Inode, ghost w: Work, ghost job: Job, ghost m: nat, ghost from: nat)
      returns (r: Result<nat>, ghost w': Work)
      requires Busy(w, job, m, from) && w.inode == inode && k < DIRECT == |inode.blocks| && inode.blocks[k] == 0
      modifies j
      ensures Busy(w', job, m, from) && w'.inodes == w.inodes
      ensures r.Ok? <==> old(HasRoom(2)) && old(Free()) > 0
      ensures r.Ok? ==> 0 < r.value < |j.disk| && w'.inode == inode.(blocks := inode.blocks[k := r.value])
      ensures r.Ok? ==> Paid(old(j.head), 2) && Free() == old(Free()) - 1 && (old(Clean()) ==> Clean())
      ensures r.Err? ==> Reason(r.error)
      ensures old(LogFull()) ==> r == Err(NoSpace) && LogFull()
    {
      AllSetFree(L, j.disk);
      hide Writing, Unheld, BitAt, AllSet, OnlyBlock, Clean, FreeBlocks, Covered, Stepped, Unmarked, SameOutside;
      r := AllocDataBlock(w, job, m, from);
      w' := w.(d := j.disk);
      if r.Err? {
        return;
      }
      var b := r.value;
      UnheldMoves(w, w', b);
      ghost var trace, w1 := j.trace, w';
      var done := Update(b, ZeroBlock());
      if done.Err? {
        WritingQuiet(L, w1, job, m, j.disk);
        w' := w1.(d := j.disk);
        CoveredMore(L, trace, j.trace, from, job, w1, m, w', m);
        return Err(done.error), w';
      }
      WritingBlock(L, w1, job, m, j.disk, k, b);
      w' := WithBlock(w1, j.disk, k, b);
      CoveredMore(L, trace, j.trace, from, job, w1, m, w', m);
      FreeSame(L, w1.d, j.disk, b);
    }

    /** The block in place `k` of the inode; a missing one is taken and zeroed. */
    method EnsureBlock(k: nat, inode: Inode, ghost w: Work, ghost job: Job, ghost m: nat, ghost from: nat)
      returns (r: Result<nat>, inode': Inode, ghost w': Work)
      requires Busy(w, job, m, from) && w.inode == inode && k < DIRECT == |inode.blocks|
      modifies j
      ensures Busy(w', job, m, from) && w'.inodes == w.inodes
      ensures r.Ok? <==> inode.blocks[k] != 0 || (old(HasRoom(2)) && old(Free()) > 0)
      ensures r.Ok? ==>
                && w'.inode == inode' && Filled(inode, inode', k) && r.value == inode'.blocks[k] && r.value < |j.disk|
                && (old(Clean()) ==> Clean())
                && if inode.blocks[k] != 0 then Paid(old(j.head), 0) && Free() == old(Free())
                   else Paid(old(j.head), 2) && Free() == old(Free()) - 1
      ensures r.Err? ==> Reason(r.error)
      ensures old(LogFull()) && r.Err? ==> r == Err(NoSpace)
      ensures old(LogFull()) ==> LogFull()
    {
      hide Writing, AllSet, Clean, FreeBlocks, Covered, Unmarked;
      inode', w' := inode, w;
      if inode.blocks[k] != 0 {
        WritingPlace(L, w, job, m, k);
        return Ok(inode.blocks[k]), inode', w';
      }
      r, w' := TakeBlock(k, inode, w, job, m, from);
      if r.Ok? {
        inode' := inode.(blocks := inode.blocks[k := r.value]);
      }
    }

    /** The next bytes of a write fail exactly for lack of log entries or of a block. */
    ghost predicate Affords(cost: nat, missing: nat)
      requires L.Fits(j.disk)
      reads j
    {
      HasRoom(cost) && missing <= Free()
    }

    /** Copies `part` into the block in place `off / BLOCK_SIZE`, which is there. */
    method PutPart(off: nat, part: seq<Byte>, b: nat, ghost w: Work, ghost job: Job, ghost m: nat, ghost from: nat)
      returns (r: Result<()>)
      requires Busy(w, job, m, from) && off == job.off + m && m + |part| <= |job.buf| && part == job.buf[m..m + |part|]
      requires off / BLOCK_SIZE < DIRECT == |w.inode.blocks| && off % BLOCK_SIZE + |part| <= BLOCK_SIZE
      requires b == w.inode.blocks[off / BLOCK_SIZE] != 0
      modifies j
      ensures Busy(w.(d := j.disk), job, if r.Ok? then m + |part| else m, from)
      ensures r.Ok? <==> old(HasRoom(1))
      ensures r.Ok? ==> Paid(old(j.head), 1) && Free() == old(Free()) && (old(Clean()) ==> Clean())
      ensures r.Err? ==> r.error == NoSpace && LogFull()
      ensures old(LogFull()) ==> LogFull()
    {
      hide Writing, Splice, Clean, FreeBlocks, Covered, Unmarked, Stepped, SameOutside;
      WritingPlace(L, w, job, m, off / BLOCK_SIZE);
      ghost var trace := j.trace;
      var buf := Splice(j.disk[b], off % BLOCK_SIZE, part);
      r := Update(b, buf);
      ghost var w' := w.(d := j.disk);
      if r.Err? {
        WritingQuiet(L, w, job, m, j.disk);
        CoveredMore(L, trace, j.trace, from, job, w, m, w', m);
        return;
      }
      WritingData(L, w, job, m, j.disk, part);
      CoveredMore(L, trace, j.trace, from, job, w, m, w', m + |part|);
      FreeSame(L, w.d, j.disk, b);
    }

    /** Writes `part` at `off`, inside one block. */
    method WriteChunk(off: nat, part: seq<Byte>, inode: Inode, ghost w: Work, ghost job: Job, ghost m: nat,
                      ghost from: nat)
      returns (r: Result<()>, inode': Inode, ghost w': Work)
      requires Busy(w, job, m, from) && w.inode == inode && |inode.blocks| == DIRECT
      requires off == job.off + m && m + |part| <= |job.buf| && part == job.buf[m..m + |part|]
      requires off < MAX_SIZE && off % BLOCK_SIZE + |part| <= BLOCK_SIZE
      modifies j
      ensures w'.inodes == w.inodes && Busy(w', job, if r.Ok? then m + |part| else m, from)
      ensures off / BLOCK_SIZE < DIRECT && L.Fits(j.disk)
      ensures var lack := if inode.blocks[off / BLOCK_SIZE] == 0 then 1 else 0;
              && (r.Ok? <==> old(Affords(1 + 2 * lack, lack)))
              && (r.Ok? ==> Paid(old(j.head), 1 + 2 * lack) && Free() == old(Free()) - lack)
      ensures r.Ok? ==> w'.inode == inode' && Filled(inode, inode', off / BLOCK_SIZE) && |inode'.blocks| == DIRECT
      ensures r.Ok? ==> (old(Clean()) ==> Clean())
      ensures r.Err? ==> Reason(r.error)
      ensures old(LogFull()) ==> r == Err(NoSpace) && LogFull()
    {
      PlaceOf(off);
      hide Writing, AllSet, Clean, FreeBlocks, Covered, Unmarked;
      var b;
      b, inode', w' := EnsureBlock(off / BLOCK_SIZE, inode, w, job, m, from);
      if b.Err? {
        return Err(b.error), inode', w';
      }
      r := PutPart(off, part, b.value, w', job, m, from);
      w' := w'.(d := j.disk);
    }

    /** Stores an inode in its slot of the table. */
    method WriteInode(x: nat, i: Inode) returns (r: Result<()>)
      requires Ready() && x < L.tableBlocks * INODES_PER_BLOCK && InodeOk(i)
      modifies j
      ensures Ready() && (r.Ok? <==> old(HasRoom(1)))
      ensures r.Ok? ==> InodePut(L, old(j.disk), j.disk, x, i) && (old(Clean()) ==> Clean())
      ensures r.Err? ==> SameOutside(L, old(j.disk), j.disk) && r.error == NoSpace && LogFull()
      ensures Stepped(L, old(j.trace), old(j.disk), j.trace, j.disk)
      ensures OnlyBlock(L, old(j.disk), j.disk, L.table + x / INODES_PER_BLOCK)
      ensures old(LogFull()) ==> r == Err(NoSpace) && LogFull()
    {
      var b := L.table + x / INODES_PER_BLOCK;
      assert L.InTable(b);
      hide PutInode, Stepped, Clean, Unmarked;
      r := Update(b, PutInode(j.disk[b], x % INODES_PER_BLOCK, i));
    }

    /** The state in which the block loop starts. */
    ghost function Start(w: Work): Beginning
      requires L.Fits(j.disk)
      reads j
    {
      Beginning(w.inodes, w.inode, j.head, Free(), Clean(), LogFull())
    }

    /** What the loop started with suffices for that many log entries and blocks. */
    predicate Sufficed(at: Beginning, cost: nat, missing: nat) {
      (j.Configured() ==> at.head + cost <= j.area.size) && missing <= at.free
    }

    /** The block loop has written `m` bytes. */
    ghost predicate Looping(at: Beginning, w: Work, job: Job, m: nat, from: nat, spent: nat, took: nat)
      reads j
    {
      && Busy(w, job, m, from) && w.inodes == at.inodes
      && Progress(at.inode, w.inode, job.off, Room(job.off, |job.buf|), m, spent, took)
      && Paid(at.head, spent) && Free() == at.free - took && (at.clean ==> Clean()) && (at.full ==> LogFull() && m == 0)
    }

    /** One turn of the block loop. */
    method WriteNext(off: nat, part: seq<Byte>, inode: Inode, ghost at: Beginning, ghost w: Work, ghost job: Job,
                     ghost m: nat, ghost from: nat, ghost spent: nat, ghost took: nat)
      returns (r: Result<()>, inode': Inode, ghost w': Work, ghost spent': nat, ghost took': nat)
      requires Looping(at, w, job, m, from, spent, took) && w.inode == inode && |inode.blocks| == DIRECT
      requires off == job.off + m && m + |part| <= |job.buf| && part == job.buf[m..m + |part|]
      requires m < |job.buf| && off / BLOCK_SIZE < DIRECT
      requires var o, rest := off % BLOCK_SIZE, |job.buf| - m;
               |part| == if BLOCK_SIZE - o < rest then BLOCK_SIZE - o else rest
      modifies j
      ensures m + |part| <= Room(job.off, |job.buf|) && part != [] && |at.inode.blocks| == DIRECT
      ensures r.Ok? ==> Looping(at, w', job, m + |part|, from, spent', took')
      ensures r.Ok? ==> w'.inode == inode' && |inode'.blocks| == DIRECT
      ensures r.Err? ==>
                && w'.inodes == at.inodes && Busy(w', job, m, from) && Reason(r.error)
                && var n := Room(job.off, |job.buf|);
                   !Sufficed(at, BlockCost(at.inode, job.off, n), Missing(at.inode, job.off, n))
      ensures at.full ==> r == Err(NoSpace) && LogFull() && m == 0
    {
      hide Files.Looping, Files.Busy, Files.Ready, Files.Reason, Files.Clean, FreeBlocks, AllSet, Writing, Covered,
           Room;
      hide Progress, BlockCost, Missing, Filled, Extends;
      LoopAhead(at, w, job, m, from, spent, took, |part|);
      ghost var lack, head, clean := if inode.blocks[off / BLOCK_SIZE] == 0 then 1 else 0, j.head, Clean();
      spent', took' := spent + 1 + 2 * lack, took + lack;
      r, inode', w' := WriteChunk(off, part, inode, w, job, m, from);
      if r.Ok? {
        LoopMore(at, inode, w', job, m, from, spent, took, |part|, head, clean);
      }
    }

    lemma LoopMore(at: Beginning, i: Inode, w: Work, job: Job, m: nat, from: nat, spent: nat, took: nat, chunk: nat,
                   head: nat, clean: bool)
      requires Progress(at.inode, i, job.off, Room(job.off, |job.buf|), m, spent, took) && m < Room(job.off, |job.buf|)
      requires Filled(i, w.inode, (job.off + m) / BLOCK_SIZE) && Busy(w, job, m + chunk, from) && w.inodes == at.inodes
      requires var o, rest := (job.off + m) % BLOCK_SIZE, Room(job.off, |job.buf|) - m;
               chunk == if BLOCK_SIZE - o < rest then BLOCK_SIZE - o else rest
      requires j.Configured() ==> head == at.head + spent
      requires (at.clean ==> clean) && (clean ==> Clean()) && !at.full
      requires var lack := if i.blocks[(job.off + m) / BLOCK_SIZE] == 0 then 1 else 0;
               Paid(head, 1 + 2 * lack) && Free() == at.free - took - lack
      ensures var lack := if i.blocks[(job.off + m) / BLOCK_SIZE] == 0 then 1 else 0;
              Looping(at, w, job, m + chunk, from, spent + 1 + 2 * lack, took + lack)
    {
      hide Progress, Filled, Files.Busy, FreeBlocks, Files.Clean, Room;
      ProgressStep(at.inode, i, job.off, Room(job.off, |job.buf|), m, spent, took, w.inode, chunk);
    }

    /** A turn of the block loop that has work to do. */
    lemma LoopAhead(at: Beginning, w: Work, job: Job, m: nat, from: nat, spent: nat, took: nat, chunk: nat)
      requires Looping(at, w, job, m, from, spent, took)
      requires m < |job.buf| && (job.off + m) / BLOCK_SIZE < DIRECT
      requires var o, rest := (job.off + m) % BLOCK_SIZE, |job.buf| - m;
               chunk == if BLOCK_SIZE - o < rest then BLOCK_SIZE - o else rest
      ensures Busy(w, job, m, from) && w.inodes == at.inodes && L.Fits(j.disk) && (at.full ==> LogFull() && m == 0)
      ensures Paid(at.head, spent) && Free() == at.free - took && (at.clean ==> Clean())
      ensures var n, o := Room(job.off, |job.buf|), (job.off + m) % BLOCK_SIZE;
              && 0 < chunk == (if BLOCK_SIZE - o < n - m then BLOCK_SIZE - o else n - m)
              && job.off + m < MAX_SIZE && job.off + n <= MAX_SIZE && |w.inode.blocks| == |at.inode.blocks| == DIRECT
              && Progress(at.inode, w.inode, job.off, n, m, spent, took)
              && var lack := if w.inode.blocks[(job.off + m) / BLOCK_SIZE] == 0 then 1 else 0;
                 && spent + 1 + 2 * lack <= BlockCost(at.inode, job.off, n)
                 && took + lack <= Missing(at.inode, job.off, n)
    {
      hide Files.Busy, Files.Clean, FreeBlocks, Progress;
      ChunkInRoom(job.off, |job.buf|, m, chunk);
      ProgressAhead(at.inode, w.inode, job.off, Room(job.off, |job.buf|), m, spent, took);
      assert L.Fits(j.disk) by {
        LoopFits(at, w, job, m, from, spent, took);
      }
    }

    lemma LoopFits(at: Beginning, w: Work, job: Job, m: nat, from: nat, spent: nat, took: nat)
      requires Looping(at, w, job, m, from, spent, took)
      ensures L.Fits(j.disk)
    {
    }

    lemma LoopStart(w: Work, job: Job, from: nat)
      requires Busy(w, job, 0, from) && |w.inode.blocks| == DIRECT
      ensures L.Fits(j.disk) && Looping(Start(w), w, job, 0, from, 0, 0)
    {
      ProgressStart(w.inode, job.off, |job.buf|);
      hide Progress, Writing, Covered, Clean, FreeBlocks;
    }

    /** The block loop of `write`. It stops early only at the end of the tenth block. */
    method WriteBlocks(off: nat, buf: seq<Byte>, inode: Inode, ghost w: Work, ghost job: Job, ghost from: nat)
      returns (r: Result<nat>, inode': Inode, ghost w': Work, ghost done: nat)
      requires Busy(w, job, 0, from) && w.inode == inode && |inode.blocks| == DIRECT && job.off == off && job.buf == buf
      modifies j
      ensures w'.inodes == w.inodes && done <= Room(off, |buf|) && Busy(w', job, done, from)
      ensures var n := Room(off, |buf|);
              && (r.Ok? <==> old(Affords(BlockCost(inode, off, n), Missing(inode, off, n))))
              && (r.Ok? ==> r.value == done == n && Paid(old(j.head), BlockCost(inode, off, n)))
      ensures r.Ok? ==> w'.inode == inode' == inode.(blocks := inode'.blocks) && Extends(inode, inode', off, done)
      ensures r.Ok? ==> (old(Clean()) ==> Clean())
      ensures r.Err? ==> Reason(r.error)
      ensures old(LogFull()) ==> LogFull() && done == 0 && (r.Err? ==> r == Err(NoSpace))
    {
      hide Files.Looping, Files.Busy, Files.Ready, Files.Reason, Files.Clean, FreeBlocks, AllSet, Writing, Covered,
           Room;
      hide Progress, BlockCost, Missing, Filled, Extends;
      LoopStart(w, job, from);
      var curOff, remaining: nat, written := off, |buf|, 0;
      ghost var n, at, spent: nat, took: nat := Room(off, |buf|), Start(w), 0, 0;
      inode', w', done := inode, w, 0;
      while remaining > 0
        invariant done == written <= n && curOff == off + written && remaining == |buf| - written
        invariant Looping(at, w', job, written, from, spent, took) && w'.inode == inode' && |inode'.blocks| == DIRECT
      {
        if curOff / BLOCK_SIZE >= DIRECT {
          break;
        }
        var room := BLOCK_SIZE - curOff % BLOCK_SIZE;
        var chunk := if room < remaining then room else remaining;
        var part := buf[written..written + chunk];
        var one;
        one, inode', w', spent, took := WriteNext(curOff, part, inode', at, w', job, written, from, spent, took);
        if one.Err? {
          return Err(one.error), inode', w', done;
        }
        written, curOff, remaining := written + chunk, curOff + chunk, remaining - chunk;
        done := written;
      }
      RoomReached(off, |buf|, written);
      LoopEnd(at, w', job, from, spent, took);
      return Ok(written), inode', w', done;
    }

    lemma LoopEnd(at: Beginning, w: Work, job: Job, from: nat, spent: nat, took: nat)
      requires Looping(at, w, job, Room(job.off, |job.buf|), from, spent, took)
      ensures var n := Room(job.off, |job.buf|);
              && |at.inode.blocks| == DIRECT && Busy(w, job, n, from) && w.inodes == at.inodes
              && Paid(at.head, BlockCost(at.inode, job.off, n))
              && Sufficed(at, BlockCost(at.inode, job.off, n), Missing(at.inode, job.off, n))
              && w.inode == at.inode.(blocks := w.inode.blocks) && Extends(at.inode, w.inode, job.off, n)
      ensures at.clean ==> Clean()
      ensures at.full ==> LogFull() && Room(job.off, |job.buf|) == 0
    {
      ProgressEnd(at.inode, w.inode, job.off, Room(job.off, |job.buf|), spent, took);
      hide BlockCost, Missing, Extends, FreeBlocks, Progress, Writing, Clean, Covered;
    }

    /** What `write` needs: the log entries of its blocks and its inode, and the missing blocks. */
    ghost predicate CanWrite(i: Inode, off: nat, n: nat)
      requires L.Fits(j.disk) && |i.blocks| == DIRECT && (n == 0 || off + n <= MAX_SIZE)
      reads j
    {
      Affords(BlockCost(i, off, n) + 1, Missing(i, off, n))
    }

    /** A journal of 32 blocks that is empty is always long enough: only free blocks can run out. */
    lemma EmptyJournalSuffices(i: Inode, off: nat, n: nat)
      requires L.Fits(j.disk) && |i.blocks| == DIRECT && (n == 0 || off + n <= MAX_SIZE)
      requires j.head == 0 && j.area.size == 32
      ensures CanWrite(i, off, n) <==> Missing(i, off, n) <= Free()
    {
      CostBound(i, off, n);
    }

    /** A write of `n` bytes is stored: places, size and time of its inode; the others are as before. */
    ghost predicate Placed(before: seq<Inode>, x: nat, off: nat, n: nat, now: nat)
      reads this, j
    {
      && x < |before| == |inodes| && inodes == before[x := inodes[x]] && Table(L, j.disk, inodes)
      && Extends(before[x], inodes[x], off, n) && inodes[x].size == Larger(off + n, before[x].size)
      && PlacesOk(L, j.disk, owner, x, inodes[x]) && inodes[x].meta == Timed(before[x].meta, now)
    }

    /** Recovery of any device since `from` leaves the old files overlaid, or the new ones. */
    ghost predicate CrashSafe(from: nat, job: Job)
      reads this, j
    {
      from <= |j.trace| && forall k: nat | from <= k < |j.trace| :: CrashSafeAt(j.trace[k], job)
    }

    ghost predicate CrashSafeAt(d: Disk, job: Job)
      reads this, j
    {
      && Survives(L, d, job, j.disk)
      && (Rests(L, Recovered(L.area, d), job) || (Valid() ==> Sound(L, Recovered(L.area, d), inodes, owner, files)))
    }

    lemma AllSafe(from: nat, job: Job)
      requires from <= |j.trace| && forall k: nat | from <= k < |j.trace| :: Survives(L, j.trace[k], job, j.disk)
      ensures CrashSafe(from, job)
    {
      forall k: nat | from <= k < |j.trace|
        ensures CrashSafeAt(j.trace[k], job)
      {
        var r := Recovered(L.area, j.trace[k]);
        if Valid() && !Rests(L, r, job) {
          OutsideKeeps(L, j.disk, r, inodes, owner, files);
        }
      }
    }

    /** The outcome of `write`, when it stored its inode and when it did not. */
    ghost predicate WriteDone(job: Job, before: seq<Inode>, from: nat, done: nat, ok: bool, now: nat)
      requires job.x < |before| && |before[job.x].blocks| == DIRECT && job.x < |job.files| && done <= |job.buf|
      reads this, j
    {
      && Ready() && (job.clean ==> CrashSafe(from, job))
      && (Valid() <==> !ok || NoHole(before[job.x], job.off, done))
      && if ok then Placed(before, job.x, job.off, done, now) && (Valid() ==> FilesAfter(job, done, files))
         else inodes == before && files == Outcome(job, done)
    }

    /**
     * Writes `buf` at `off`, at most to the end of the tenth block. It succeeds exactly when the log
     * has room for three entries per missing block, one per present one and one for the inode, and
     * enough free blocks lie on the device. The file becomes the old one overwritten there, or
     * continued behind a gap, and every other file stays; the filesystem stays in order unless the
     * write skips a block. When it fails, the old inode still counts: the file keeps its size, and
     * shows what was copied into the blocks it already had. If the log was empty, power loss at any
     * point leaves a device that recovers to one of these.
     */
    method Write(x: nat, off: nat, buf: seq<Byte>, now: nat) returns (r: Result<nat>, ghost done: nat)
      requires Valid() && x < |files| && off < WORD && now < WORD * WORD
      modifies this, j
      ensures |old(inodes)| == |old(files)| && |old(inodes)[x].blocks| == DIRECT && done <= Room(off, |buf|)
      ensures r.Ok? <==> old(CanWrite(inodes[x], off, Room(off, |buf|)))
      ensures r.Ok? ==> r.value == done == Room(off, |buf|)
      ensures var clean := old(j.Configured() && j.head == 0 && EmptyLog(j.area, j.disk));
              WriteDone(Job(old(files), x, off, buf, clean), old(inodes), old(|j.trace|), done, r.Ok?, now)
      ensures r.Ok? ==> r.value == |buf| || (r.value < |buf| && off + r.value >= 40960)
      ensures r.Ok? && r.value > 0 ==> off + r.value <= 40960
      ensures r.Ok? && off <= |old(files)[x]| ==> BytesWritten(old(files), files, x, off, buf[..done])
      ensures r.Ok? ==> x < |inodes| && TimeWritten(old(inodes)[x].meta, inodes[x].meta, now)
      ensures off <= |old(files)[x]| ==> Valid()
      ensures r.Err? ==> Reason(r.error)
      ensures old(LogFull()) ==> r == Err(NoSpace) && files == old(files) && LogFull()
    {
      hide Files.Valid, Files.Ready, Files.Reason, Files.Busy, Files.Clean, Files.WriteDone, Sound, Decode, EmptyLog,
           SizeOk, Overwrite, BytesWritten, TimeWritten;
      hide BlockCost, Missing, FreeBlocks, Extends, NoHole, Outcome, AllSet, InodeOk;
      Locate(x);
      var inode := Decode(j.disk[L.table + x / INODES_PER_BLOCK], x % INODES_PER_BLOCK);
      ghost var from, clean := |j.trace|, j.Configured() && j.head == 0 && EmptyLog(j.area, j.disk);
      ghost var job := Job(files, x, off, buf, clean);
      ghost var w := Work(j.disk, inodes, owner, x, inode);
      BeginJob(w, job, from);
      OutcomeNone(job);
      var inode';
      r, inode', w, done := WriteBlocks(off, buf, inode, w, job, from);
      if r.Err? {
        GiveUp(w, job, done, from, now);
      } else {
        var end := off + r.value;
        var closed := Close(x, inode', if end > inode'.size then end else inode'.size, now, w, job, done, from, inode);
        if closed.Err? {
          r := Err(closed.error);
        }
      }
      InsideValid(job, old(inodes), from, done, r.Ok?, now);
      if r.Ok? {
        TimeStored(job, old(inodes), from, done, now);
        if off <= |job.files[x]| {
          OverwriteBytes(job.files, x, off, buf[..done]);
        }
      }
    }

    lemma TimeStored(job: Job, before: seq<Inode>, from: nat, done: nat, now: nat)
      requires job.x < |before| && SizeOk(before[job.x]) && job.x < |job.files| && done <= |job.buf|
      requires WriteDone(job, before, from, done, true, now)
      ensures job.x < |inodes| && TimeWritten(before[job.x].meta, inodes[job.x].meta, now)
    {
      hide Files.Ready, Files.CrashSafe, NoHole, Files.Valid;
    }

    /** One byte at 4096 of a file without blocks: the write succeeds and leaves a hole. */
    method WriteSecondBlockFirst(x: nat, b: Byte, now: nat)
      requires Valid() && x < |files| == |inodes| && now < WORD * WORD
      requires inodes[x] == Inode(0, ZeroWords(DIRECT), ZeroWords(WORDS)) && CanWrite(inodes[x], BLOCK_SIZE, 1)
      modifies this, j
      ensures !Valid()
    {
      hide Files.Valid, Files.Placed, Files.CrashSafe, NoHole, BlockCost, Missing, FreeBlocks, EmptyLog;
      SecondBlockFirst();
      var r, done := Write(x, BLOCK_SIZE, [b], now);
    }

    lemma Locate(x: nat)
      requires Valid() && x < |files|
      ensures x < L.tableBlocks * INODES_PER_BLOCK && L.table + L.tableBlocks <= |j.disk| && L.Fits(j.disk)
      ensures j.Valid() && j.area == L.area
    {
    }

    /** A write that starts inside its file leaves the filesystem in order. */
    lemma InsideValid(job: Job, before: seq<Inode>, from: nat, done: nat, ok: bool, now: nat)
      requires job.x < |before| && SizeOk(before[job.x]) && job.x < |job.files| && done <= |job.buf|
      requires before[job.x].size == |job.files[job.x]| && WriteDone(job, before, from, done, ok, now)
      requires ok ==> done == Room(job.off, |job.buf|)
      ensures job.off <= |job.files[job.x]| ==> Valid()
      ensures !ok ==> files == Outcome(job, done) && Valid()
      ensures ok && job.off <= |job.files[job.x]| ==>
                files == job.files[job.x := Overwrite(job.files[job.x], job.off, job.buf[..done])]
    {
      hide Files.Ready, Files.CrashSafe, Files.Placed, NoHole, Outcome, Overwrite, Files.Valid;
      if ok && job.off <= |job.files[job.x]| {
        InsideNoHole(before[job.x], job.off, |job.buf|);
      }
    }

    /** The state in which `write` finds its file. */
    lemma BeginJob(w: Work, job: Job, from: nat)
      requires Valid() && job.x < |files| && job.files == files && from == |j.trace|
      requires w == Work(j.disk, inodes, owner, job.x, InodeAt(L, j.disk, job.x))
      requires job.clean ==> j.Configured() && j.head == 0 && EmptyLog(j.area, j.disk)
      ensures Busy(w, job, 0, from) && |inodes| == |files| && w.inode == inodes[job.x] && SizeOk(w.inode)
      ensures |w.inode.blocks| == DIRECT && w.inode.size == |files[job.x]|
      ensures job.clean ==> Clean()
    {
      BeginWrite(L, j.disk, inodes, owner, files, job.x);
      ShownNone(files[job.x], job.off, job.buf);
      hide Open, Sound;
    }

    /** Stores the inode of a finished write and commits. */
    method Close(x: nat, inode: Inode, size: nat, now: nat, ghost w: Work, ghost job: Job, ghost m: nat,
                 ghost from: nat, ghost i0: Inode) returns (r: Result<()>)
      requires Busy(w, job, m, from) && job.x == x && w.inode == inode && size == Larger(job.off + m, inode.size)
      requires now < WORD * WORD && job.off < WORD && m <= MAX_SIZE && inodes == w.inodes && files == job.files
      requires x < |inodes| && inodes[x] == i0
      requires SizeOk(i0) && Extends(i0, inode, job.off, m) && inode == i0.(blocks := inode.blocks)
      requires job.clean ==> Clean()
      modifies this, j
      ensures r.Ok? <==> old(HasRoom(1))
      ensures WriteDone(job, old(inodes), from, m, r.Ok?, now)
      ensures r.Err? ==> r.error == NoSpace && Reason(NoSpace)
      ensures old(LogFull()) ==> r.Err? && LogFull()
    {
      hide Files.Valid, Files.WriteDone, Writing, Covered, Stepped, SizeOk, Extends, AllSet, Sound;
      hide Unmarked, SameOutside, InodePut, Committing, OnlyBlock, Mirrors, InodeOk, PlacesOk, Table;
      BusyParts(w, job, m, from);
      var inode' := Stamped(inode, size, now);
      ghost var trace := j.trace;
      r := WriteInode(x, inode');
      if r.Err? {
        ghost var w' := w.(d := j.disk);
        WritingQuiet(L, w, job, m, j.disk);
        CoveredMore(L, trace, j.trace, from, job, w, m, w', m);
        GiveUp(w', job, m, from, now);
        return;
      }
      ghost var d, head, trace1 := j.disk, j.head, j.trace;
      ghost var files' := Closed(L, w, job, m, d, inode');
      ExtendsSame(i0, inode, inode', job.off, m);
      Commit(w.inodes[x := inode'], w.owner, files');
      Concluded(w, job, m, from, i0, inode', d, trace, trace1, head, files', now);
    }

    lemma BusyParts(w: Work, job: Job, m: nat, from: nat)
      requires Busy(w, job, m, from)
      ensures Ready() && Writing(L, w, job, m) && w.d == j.disk && Covered(L, j.trace, from, job)
      ensures job.clean ==> Unmarked(L.area, j.disk)
      ensures w.x == job.x < |w.inodes| == |job.files| == L.tableBlocks * INODES_PER_BLOCK && m <= |job.buf|
      ensures InodeOk(w.inode) && w.inode.size <= MAX_SIZE && |w.inodes[w.x].blocks| == DIRECT
    {
      WritingOwn(L, w, job, m);
      OpenTable(L, w, job.files, Shown(job.files[job.x], job.off, job.buf[..m]));
    }

    /** The inode of a write is on the device and the transaction is over. */
    lemma Concluded(w: Work, job: Job, m: nat, from: nat, i0: Inode, i: Inode, d: Disk, trace: seq<Disk>,
                    trace1: seq<Disk>, head: nat, files': seq<seq<Byte>>, now: nat)
      requires Ready() && Writing(L, w, job, m) && w.x < |w.inodes| && w.inodes[w.x] == i0
               && Covered(L, trace, from, job)
      requires SizeOk(i0) && InodeOk(i) && Extends(i0, i, job.off, m) && i.size == Larger(job.off + m, i0.size)
      requires i.meta == Timed(i0.meta, now)
      requires inodes == w.inodes[w.x := i] && owner == w.owner && files == files'
      requires Table(L, d, inodes) && PlacesOk(L, d, owner, w.x, i)
      requires SizeOk(i) <==> Sound(L, d, inodes, owner, files)
      requires SizeOk(i) ==> FilesAfter(job, m, files)
      requires Stepped(L, trace, w.d, trace1, d) && Committing(L, d, head, trace1, j.disk, j.trace)
               && SameOutside(L, d, j.disk)
      requires job.clean ==> Unmarked(L.area, w.d) && Mirrors(L.area, d, head)
      ensures job.x < |w.inodes| && |w.inodes[job.x].blocks| == DIRECT && job.x < |job.files| && m <= |job.buf|
      ensures WriteDone(job, w.inodes, from, m, true, now)
    {
      hide Files.CrashSafe, Files.Ready, FilesAfter, Extends, NoHole, Stepped, Committing, Covered, Unmarked, Mirrors;
      hide Larger, Open, Stored, Sound, Table, PlacesOk, SameOutside;
      NoHoleIff(i0, i, job.off, m);
      OutsidePlaces(L, d, j.disk, inodes, owner, w.x, i);
      if SizeOk(i) {
        OutsideKeeps(L, d, j.disk, inodes, owner, files);
      } else {
        NotSound(L, j.disk, inodes, owner, files, w.x);
      }
      if job.clean {
        ClosedSurvives(L, trace, from, job, w, m, d, trace1, head, j.disk, j.trace);
        AllSafe(from, job);
      }
    }

    /** Ends the transaction: the inodes and files are now these. */
    method Commit(ghost inodes': seq<Inode>, ghost owner': Owners, ghost files': seq<seq<Byte>>)
      requires Ready()
      modifies this, j
      ensures Ready() && inodes == inodes' && owner == owner' && files == files' && SameOutside(L, old(j.disk), j.disk)
      ensures Committing(L, old(j.disk), old(j.head), old(j.trace), j.disk, j.trace)
    {
      hide Marker;
      j.JournalCommit();
      inodes, owner, files := inodes', owner', files';
    }

    /** Records what a write that failed left behind. */
    ghost method GiveUp(w: Work, job: Job, m: nat, from: nat, now: nat)
      requires Busy(w, job, m, from) && inodes == w.inodes && files == job.files
      modifies this`owner, this`files
      ensures job.x < |inodes| && |inodes[job.x].blocks| == DIRECT && job.x < |job.files| && m <= |job.buf|
      ensures WriteDone(job, inodes, from, m, false, now)
    {
      hide Files.CrashSafe, Covered, Sound, Survives;
      BusyParts(w, job, m, from);
      GivenUp(L, w, files, Shown(files[w.x], job.off, job.buf[..m]));
      owner, files := w.owner, Outcome(job, m);
      if job.clean {
        CoveredSurvives(L, j.trace, from, job, j.disk);
        AllSafe(from, job);
      }
    }

    /** Reads from a file. */
    method Read(x: nat, off: nat, len: nat) returns (buf: seq<Byte>)
      requires Valid() && x < |files|
      ensures buf == ReadBytes(files[x], off, len) && |buf| == |Wanted(files[x], off, len)|
      ensures off < BLOCK_SIZE ==>
                && |buf| <= len && (buf == [] || off + |buf| <= |files[x]|)
                && (|buf| == len || off + |buf| >= |files[x]|)
                && forall i: nat | i < |buf| :: buf[i] == files[x][off + i]
    {
      var inode := Decode(j.disk[L.table + x / INODES_PER_BLOCK], x % INODES_PER_BLOCK);
      BeginWrite(L, j.disk, inodes, owner, files, x);
      FileIs(L, j.disk, inodes, owner, files, x);
      ReadLength(files[x], off, len);
      if off < BLOCK_SIZE {
        ReadExact(files[x], off, len);
      }
      hide Sound, Decode, Open, IsFile, ReadBytes, Wanted;
      buf := ReadBlocks(j.disk, inode, off, len, files[x]);
    }

    /** Empties a file. The blocks it had stay marked in the bitmap. */
    method Truncate(x: nat) returns (r: Result<()>)
      requires Valid() && x < |files|
      modifies this, j
      ensures Valid()
      ensures r.Ok? ==> files == old(files)[x := []]
      ensures r.Err? ==> r.error == NoSpace && LogFull() && files == old(files)
      ensures r.Ok? <==> old(HasRoom(1))
      ensures r.Ok? ==> x < |old(inodes)| && inodes == old(inodes)[x := inodes[x]]
      ensures r.Ok? ==> NoPlaces(inodes[x]) && IndirectCleared(old(inodes)[x].meta, inodes[x].meta)
      ensures AllKept(L, old(j.disk), j.disk)
    {
      var inode := Decode(j.disk[L.table + x / INODES_PER_BLOCK], x % INODES_PER_BLOCK);
      BeginWrite(L, j.disk, inodes, owner, files, x);
      DecodeOk(j.disk[L.table + x / INODES_PER_BLOCK], x % INODES_PER_BLOCK);
      var empty := EmptyInode(inode);
      EmptyFields(inode);
      ghost var d := j.disk;
      assert L.InTable(L.table + x / INODES_PER_BLOCK);
      hide Sound, Decode, Open, PutInode, BitAt, EmptyInode, Stepped, Files.Clean, Committing, NoPlaces,
           IndirectCleared;
      r := WriteInode(x, empty);
      if r.Err? {
        OutsideKeeps(L, d, j.disk, inodes, owner, files);
        return;
      }
      Emptied(L, d, inodes, owner, files, x, j.disk, empty);
      ghost var d1 := j.disk;
      Commit(inodes[x := empty], owner, files[x := []]);
      OutsideKeeps(L, d1, j.disk, inodes, owner, files);
    }

    /** A write that starts inside its file and fits ten blocks. */
    method WriteInside(op: WriteOp, now: nat) returns (r: Result<()>, ghost done: nat)
      requires Valid() && op.x < |files| && op.off <= |files[op.x]| && op.off + |op.bytes| <= MAX_SIZE
               && now < WORD * WORD
      modifies this, j
      ensures Valid() && done <= |op.bytes|
      ensures r.Ok? ==> files == Written(old(files), op)
      ensures r.Err? ==> files == Outcome(Job(old(files), op.x, op.off, op.bytes, false), done)
    {
      hide Files.Valid, Files.WriteDone, Files.Reason, Overwrite, Sound, Open, EmptyLog;
      Locate(op.x);
      ghost var before, from, clean := inodes, |j.trace|, j.Configured() && j.head == 0 && EmptyLog(j.area, j.disk);
      SizesKnown(op.x);
      var n;
      n, done := Write(op.x, op.off, op.bytes, now);
      InsideValid(Job(old(files), op.x, op.off, op.bytes, clean), before, from, done, n.Ok?, now);
      assert op.bytes[..|op.bytes|] == op.bytes;
      r := if n.Ok? then Ok(()) else Err(n.error);
    }

    lemma SizesKnown(x: nat)
      requires Valid() && x < |files|
      ensures |inodes| == |files| && SizeOk(inodes[x]) && inodes[x].size == |files[x]|
    {
      assert InodeInv(L, j.disk, owner, x, inodes[x]) && IsFile(j.disk, inodes[x], files[x]);
    }

    /**
     * A run of writes: each file ends as the plain byte sequence overwritten in the same way. If the
     * write `k` fails, those before it have been done, and the first bytes of it show.
     */
    method WriteAll(ops: seq<WriteOp>, now: nat) returns (r: Result<()>, ghost k: nat, ghost done: nat)
      requires Valid() && InRange(files, ops) && now < WORD * WORD
      modifies this, j
      ensures Valid()
      ensures r.Ok? ==> files == AfterAll(old(files), ops)
      ensures r.Err? ==>
                && k < |ops| && done <= |ops[k].bytes| && InRange(old(files), ops[..k])
                && var before := AfterAll(old(files), ops[..k]);
                   && ops[k].x < |before|
                   && files == Outcome(Job(before, ops[k].x, ops[k].off, ops[k].bytes, false), done)
    {
      hide Files.Valid, Overwrite, Outcome;
      var i := 0;
      k, done := 0, 0;
      assert ops[..0] == [] && ops[..0] + ops[0..] == ops;
      while i < |ops|
        invariant k == i <= |ops| && Valid() && InRange(old(files), ops[..i]) && files == AfterAll(old(files), ops[..i])
      {
        var op := ops[i];
        NextInRange(old(files), ops, i);
        var one;
        one, done := WriteInside(op, now);
        if one.Err? {
          return Err(one.error), k, done;
        }
        i, k := i + 1, k + 1;
      }
      assert ops[..i] == ops;
      return Ok(()), k, done;
    }
  }
}
