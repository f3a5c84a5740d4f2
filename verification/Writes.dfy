/**
 * A whole file write: its blocks one after the other, what they cost, its inode and its commit, and
 * what a power loss leaves of it.
 */
module WriteSpec {
  import opened Base
  import opened Disks
  import opened JournalSpec
  import opened FilesSpec

  // ----- a write from its first byte to its last

  /** A write: the files before it, which one is written where, and whether the log was empty. */
  datatype Job = Job(files: seq<seq<Byte>>, x: nat, off: nat, buf: seq<Byte>, clean: bool)

  /** What shows of a file when `bs` was copied in at `off`: nothing of it behind the end. */
  function Shown(f: seq<Byte>, off: nat, bs: seq<Byte>): (r: seq<Byte>)
    ensures |r| >= |f|
  {
    if off <= |f| then Overwrite(f, off, bs) else f
  }

  /** The blocks of the inode hold `bs` from byte `off` on. */
  ghost predicate Stored(d: Disk, i: Inode, off: nat, bs: seq<Byte>) {
    && |i.blocks| == DIRECT && (bs == [] || off + |bs| <= MAX_SIZE)
    && forall q: nat | q < |bs| :: StoredAt(d, i, off + q, bs[q])
  }

  ghost predicate StoredAt(d: Disk, i: Inode, p: nat, x: Byte)
    requires |i.blocks| == DIRECT
  {
    && p < MAX_SIZE
    && (PlaceOf(p);
        var b := i.blocks[p / BLOCK_SIZE];
        b != 0 && b < |d| && d[b][p % BLOCK_SIZE] == x)
  }

  /** The write has copied `m` bytes in. */
  ghost predicate Writing(L: Layout, w: Work, job: Job, m: nat) {
    && job.x < |job.files| && w.x == job.x && m <= |job.buf| && w.inode.size == |job.files[job.x]|
    && Open(L, w, job.files, Shown(job.files[job.x], job.off, job.buf[..m]))
    && Stored(w.d, w.inode, job.off, job.buf[..m])
  }

  lemma WritingOwn(L: Layout, w: Work, job: Job, m: nat)
    requires Writing(L, w, job, m)
    ensures L.Fits(w.d) && InodeInv(L, w.d, w.owner, w.x, w.inode)
  {
    OpenOther(L, w, job.files, Shown(job.files[job.x], job.off, job.buf[..m]), w.x);
  }

  lemma StoredSame(d: Disk, d': Disk, i: Inode, i': Inode, off: nat, bs: seq<Byte>)
    requires Stored(d, i, off, bs) && SamePlaces(d, d', i)
    requires |i'.blocks| == DIRECT && forall k: nat | k < DIRECT && i.blocks[k] != 0 :: i'.blocks[k] == i.blocks[k]
    ensures Stored(d', i', off, bs)
  {
    forall q: nat | q < |bs|
      ensures StoredAt(d', i', off + q, bs[q])
    {
      assert StoredAt(d, i, off + q, bs[q]);
      PlaceOf(off + q);
    }
  }

  lemma WritingMeta(L: Layout, w: Work, job: Job, m: nat, d': Disk, b: nat)
    requires Writing(L, w, job, m) && OnlyBlock(L, w.d, d', b) && b < L.dataStart && !L.InTable(b)
    requires BitsKept(L, w.d, d')
    ensures Writing(L, w.(d := d'), job, m)
  {
    var f := Shown(job.files[job.x], job.off, job.buf[..m]);
    OpenOther(L, w, job.files, f, w.x);
    OwnPlaces(L, w, d', b);
    StoredSame(w.d, d', w.inode, w.inode, job.off, job.buf[..m]);
    hide Open, Stored, Shown;
    OpenMeta(L, w, job.files, f, d', b);
  }

  /** Nothing outside the journal differs. */
  ghost predicate SameOutside(L: Layout, d: Disk, d': Disk) {
    |d'| == |d| && forall c: nat | c < |d| && !L.area.Holds(c) :: d'[c] == d[c]
  }

  lemma WritingQuiet(L: Layout, w: Work, job: Job, m: nat, d': Disk)
    requires Writing(L, w, job, m) && SameOutside(L, w.d, d')
    ensures Writing(L, w.(d := d'), job, m)
  {
    WritingMeta(L, w, job, m, d', L.bitmap);
  }

  lemma WritingBlock(L: Layout, w: Work, job: Job, m: nat, d': Disk, k: nat, b: nat)
    requires Writing(L, w, job, m) && OnlyBlock(L, w.d, d', b) && DataBlock(L, w.d, b) && Unheld(w, b)
    requires k < DIRECT && w.inode.blocks[k] == 0
    ensures Writing(L, WithBlock(w, d', k, b), job, m)
  {
    var f := Shown(job.files[job.x], job.off, job.buf[..m]);
    OpenOther(L, w, job.files, f, w.x);
    forall j: nat | j < DIRECT
      ensures w.inode.blocks[j] != b
    {
      assert Cur(w, w.x).blocks[j] != b;
    }
    OwnPlaces(L, w, d', b);
    StoredSame(w.d, d', w.inode, w.inode.(blocks := w.inode.blocks[k := b]), job.off, job.buf[..m]);
    hide Open, Stored, Shown, Unheld;
    OpenBlock(L, w, job.files, f, d', k, b);
  }

  /** Copying the next bytes in. */
  lemma WritingData(L: Layout, w: Work, job: Job, m: nat, d': Disk, part: seq<Byte>)
    requires Writing(L, w, job, m) && m + |part| <= |job.buf| && part == job.buf[m..m + |part|]
    requires SpliceOk(L, w, d', (job.off + m) / BLOCK_SIZE, (job.off + m) % BLOCK_SIZE, part)
    ensures Writing(L, w.(d := d'), job, m + |part|)
  {
    hide Open, Stored, SpliceOk, Overwrite, Shown;
    StoredMore(L, w, job, m, d', part);
    ShownMore(L, w, job, m, d', part);
  }

  lemma ShownMore(L: Layout, w: Work, job: Job, m: nat, d': Disk, part: seq<Byte>)
    requires Writing(L, w, job, m) && m + |part| <= |job.buf| && part == job.buf[m..m + |part|]
    requires SpliceOk(L, w, d', (job.off + m) / BLOCK_SIZE, (job.off + m) % BLOCK_SIZE, part)
    ensures Open(L, w.(d := d'), job.files, Shown(job.files[job.x], job.off, job.buf[..m + |part|]))
  {
    hide Open, Stored, SpliceOk, Overwrite;
    var f, off := job.files[job.x], job.off;
    if off <= |f| {
      OverwriteStep(f, off, job.buf, m, |part|);
      OpenDataAt(L, w, job.files, Overwrite(f, off, job.buf[..m]), d', off + m, part);
    } else {
      OpenBehind(L, w, job.files, f, d', (off + m) / BLOCK_SIZE, (off + m) % BLOCK_SIZE, part);
    }
  }

  lemma StoredMore(L: Layout, w: Work, job: Job, m: nat, d': Disk, part: seq<Byte>)
    requires Writing(L, w, job, m) && m + |part| <= |job.buf| && part == job.buf[m..m + |part|]
    requires SpliceOk(L, w, d', (job.off + m) / BLOCK_SIZE, (job.off + m) % BLOCK_SIZE, part)
    ensures Stored(d', w.inode, job.off, job.buf[..m + |part|])
  {
    WritingOwn(L, w, job, m);
    hide Open, Shown, PlacesOk, SpliceOk, Stored;
    StoredBoth(L, w, job.off, job.buf[..m], d', job.off + m, part);
    assert job.buf[..m] + part == job.buf[..m + |part|];
  }

  lemma StoredBoth(L: Layout, w: Work, off: nat, bs: seq<Byte>, d': Disk, p0: nat, part: seq<Byte>)
    requires L.Fits(w.d) && PlacesOk(L, w.d, w.owner, w.x, w.inode) && Stored(w.d, w.inode, off, bs) && p0 == off + |bs|
    requires SpliceOk(L, w, d', p0 / BLOCK_SIZE, p0 % BLOCK_SIZE, part)
    ensures Stored(d', w.inode, off, bs + part)
  {
    ChunkFits(p0, |part|);
    hide PlacesOk, SpliceOk, StoredAt;
    forall q: nat | q < |bs + part|
      ensures StoredAt(d', w.inode, off + q, (bs + part)[q])
    {
      if q < |bs| {
        assert StoredAt(w.d, w.inode, off + q, bs[q]);
        StoredOld(L, w, d', p0, part, off + q, bs[q]);
      } else {
        StoredNew(L, w, d', p0, part, q - |bs|);
      }
    }
  }

  lemma StoredOld(L: Layout, w: Work, d': Disk, p0: nat, part: seq<Byte>, p: nat, x: Byte)
    requires L.Fits(w.d) && PlacesOk(L, w.d, w.owner, w.x, w.inode) && p < p0
    requires SpliceOk(L, w, d', p0 / BLOCK_SIZE, p0 % BLOCK_SIZE, part) && StoredAt(w.d, w.inode, p, x)
    ensures StoredAt(d', w.inode, p, x)
  {
    PlaceOf(p);
    SpliceOther(L, w, d', p0 / BLOCK_SIZE, p0 % BLOCK_SIZE, part, p / BLOCK_SIZE, p % BLOCK_SIZE);
  }

  lemma StoredNew(L: Layout, w: Work, d': Disk, p0: nat, part: seq<Byte>, q: nat)
    requires SpliceOk(L, w, d', p0 / BLOCK_SIZE, p0 % BLOCK_SIZE, part) && q < |part|
    ensures StoredAt(d', w.inode, p0 + q, part[q])
  {
    var k, o := p0 / BLOCK_SIZE, p0 % BLOCK_SIZE;
    assert p0 == k * BLOCK_SIZE + o;
    InBlock(k, o + q);
  }

  // ----- writing behind the end of a file

  /** The blocks that hold a number of bytes. */
  function BlockCount(size: nat): (n: nat)
    ensures forall k: nat :: k < n <==> k * BLOCK_SIZE < size
  {
    (size + BLOCK_SIZE - 1) / BLOCK_SIZE
  }

  /** The blocks an inode has are exactly those below its size. */
  predicate Exact(i: Inode) {
    SizeOk(i) && forall k: nat | k < DIRECT && i.blocks[k] != 0 :: k * BLOCK_SIZE < i.size
  }

  /** The block in place `k` is touched by a write of `n` bytes at `off`. */
  predicate Touched(off: nat, n: nat, k: nat) {
    n > 0 && off / BLOCK_SIZE <= k <= (off + n - 1) / BLOCK_SIZE
  }

  /** Place `k` of the inode that a write of `n` bytes at `off` makes of `i`: a missing block is taken. */
  predicate ExtendsAt(i: Inode, i': Inode, off: nat, n: nat, k: nat)
    requires |i.blocks| == |i'.blocks| == DIRECT && k < DIRECT
  {
    if Touched(off, n, k) && i.blocks[k] == 0 then i'.blocks[k] != 0 else i'.blocks[k] == i.blocks[k]
  }

  predicate Extends(i: Inode, i': Inode, off: nat, n: nat) {
    |i.blocks| == |i'.blocks| == DIRECT && forall k: nat | k < DIRECT :: ExtendsAt(i, i', off, n, k)
  }

  /** Place `k` is filled; no other place changes, and neither does a place that was. */
  predicate Filled(i: Inode, i': Inode, k: nat) {
    && |i.blocks| == |i'.blocks| == DIRECT && k < DIRECT && i' == i.(blocks := i'.blocks) && i'.blocks[k] != 0
    && forall j: nat | j < DIRECT && (j != k || i.blocks[j] != 0) :: i'.blocks[j] == i.blocks[j]
  }

  lemma ExtendsStep(i: Inode, i1: Inode, i2: Inode, off: nat, n: nat, chunk: nat)
    requires Extends(i, i1, off, n) && Filled(i1, i2, (off + n) / BLOCK_SIZE)
    requires 0 < chunk <= BLOCK_SIZE - (off + n) % BLOCK_SIZE
    ensures Extends(i, i2, off, n + chunk)
  {
    var last, n' := (off + n) / BLOCK_SIZE, n + chunk;
    assert (off + n' - 1) / BLOCK_SIZE == last;
    forall k: nat | k < DIRECT
      ensures ExtendsAt(i, i2, off, n', k)
    {
      assert ExtendsAt(i, i1, off, n, k);
      assert k != last ==> (Touched(off, n', k) <==> Touched(off, n, k));
      assert Touched(off, n', last);
    }
  }

  lemma ExtendsSame(i: Inode, i1: Inode, i2: Inode, off: nat, n: nat)
    requires Extends(i, i1, off, n) && i2.blocks == i1.blocks
    ensures Extends(i, i2, off, n)
  {
    forall k: nat | k < DIRECT
      ensures ExtendsAt(i, i2, off, n, k)
    {
      assert ExtendsAt(i, i1, off, n, k);
    }
  }

  lemma ExtendsNothing(i: Inode, off: nat)
    requires |i.blocks| == DIRECT
    ensures Extends(i, i, off, 0)
  {
    assert forall k: nat | k < DIRECT :: ExtendsAt(i, i, off, 0, k);
  }

  function Larger(a: nat, b: nat): nat {
    if a > b then a else b
  }

  /** No block before the write is missing, apart from those it takes. */
  predicate NoHole(i: Inode, off: nat, n: nat)
    requires |i.blocks| == DIRECT
  {
    off + n <= MAX_SIZE && forall k: nat | k < DIRECT && k * BLOCK_SIZE < off && !Touched(off, n, k) :: i.blocks[k] != 0
  }

  /** The inode that a write stores is in order exactly when there is no hole before it. */
  lemma NoHoleIff(i: Inode, i': Inode, off: nat, n: nat)
    requires SizeOk(i) && InodeOk(i') && Extends(i, i', off, n) && i'.size == Larger(off + n, i.size)
    ensures SizeOk(i') <==> NoHole(i, off, n)
  {
    if NoHole(i, off, n) {
      forall k: nat | k < DIRECT && k * BLOCK_SIZE < i'.size
        ensures i'.blocks[k] != 0
      {
        assert ExtendsAt(i, i', off, n, k);
        if off <= k * BLOCK_SIZE < off + n {
          TouchedInside(off, n, k);
        }
      }
    } else if off + n <= MAX_SIZE {
      var k: nat :| k < DIRECT && k * BLOCK_SIZE < off && !Touched(off, n, k) && i.blocks[k] == 0;
      assert ExtendsAt(i, i', off, n, k);
    }
  }

  lemma TouchedInside(off: nat, n: nat, k: nat)
    requires off <= k * BLOCK_SIZE < off + n
    ensures Touched(off, n, k)
  {
  }

  /** A write that starts inside the file leaves no hole. */
  lemma InsideNoHole(i: Inode, off: nat, len: nat)
    requires SizeOk(i) && off <= i.size
    ensures NoHole(i, off, Room(off, len))
  {
  }

  /**
   * A write that starts behind the end leaves an inode in order exactly when it skips no block: it
   * touches the last block or the next one, or it writes nothing and the last block reaches so far.
   */
  lemma GapIff(i: Inode, off: nat, len: nat)
    requires Exact(i) && off > i.size
    ensures var n := Room(off, len);
            NoHole(i, off, n)
            <==> if n > 0 then off / BLOCK_SIZE <= BlockCount(i.size) else BlockCount(off) <= BlockCount(i.size)
  {
    var n := Room(off, len);
    var m := if n > 0 then off / BLOCK_SIZE else BlockCount(off);
    var k := BlockCount(i.size);
    assert n > 0 ==> forall k: nat :: Touched(off, n, k) ==> k >= m;
    if m <= k {
      assert forall j: nat | j < DIRECT && j * BLOCK_SIZE < off && !Touched(off, n, j) :: j < m;
    } else if k < DIRECT {
      assert k * BLOCK_SIZE < off && !Touched(off, n, k) && i.blocks[k] == 0;
    }
  }

  /** One byte at 4096 in an empty file skips the first block. */
  lemma SecondBlockFirst()
    ensures var i := Inode(0, ZeroWords(DIRECT), ZeroWords(WORDS));
            Exact(i) && Room(BLOCK_SIZE, 1) == 1 && !NoHole(i, BLOCK_SIZE, 1)
  {
    var i := Inode(0, ZeroWords(DIRECT), ZeroWords(WORDS));
    assert !Touched(BLOCK_SIZE, 1, 0) && i.blocks[0] == 0;
  }

  function ZeroWords(n: nat): (z: seq<nat>)
    ensures |z| == n && forall k: nat | k < n :: z[k] == 0
  {
    seq(n, _ => 0)
  }

  // ----- what a write costs

  /** The missing ones among the places from `lo` up to `hi`. */
  function MissingIn(blocks: seq<nat>, lo: nat, hi: nat): nat
    requires lo <= hi <= |blocks|
    decreases hi - lo
  {
    if lo == hi then 0 else MissingIn(blocks, lo + 1, hi) + if blocks[lo] == 0 then 1 else 0
  }

  /** The place behind the last one touched. */
  function EndPlace(off: nat, n: nat): (k: nat)
    requires n > 0 && off + n <= MAX_SIZE
    ensures off / BLOCK_SIZE < k <= DIRECT
  {
    (off + n - 1) / BLOCK_SIZE + 1
  }

  /** The blocks that a write of `n` bytes at `off` has to take. */
  function Missing(i: Inode, off: nat, n: nat): nat
    requires |i.blocks| == DIRECT && (n == 0 || off + n <= MAX_SIZE)
  {
    if n == 0 then 0 else MissingIn(i.blocks, off / BLOCK_SIZE, EndPlace(off, n))
  }

  /** The log entries of its blocks: one each, and two more for each that has to be taken. */
  function BlockCost(i: Inode, off: nat, n: nat): nat
    requires |i.blocks| == DIRECT && (n == 0 || off + n <= MAX_SIZE)
  {
    if n == 0 then 0 else EndPlace(off, n) - off / BLOCK_SIZE + 2 * Missing(i, off, n)
  }

  /** The first block's share of the cost, and the rest's. */
  lemma CostStep(i: Inode, i': Inode, off: nat, n: nat, chunk: nat)
    requires |i.blocks| == DIRECT && off + n <= MAX_SIZE && Filled(i, i', off / BLOCK_SIZE)
    requires 0 < chunk == if BLOCK_SIZE - off % BLOCK_SIZE < n then BLOCK_SIZE - off % BLOCK_SIZE else n
    ensures var lack := if i.blocks[off / BLOCK_SIZE] == 0 then 1 else 0;
            && BlockCost(i, off, n) == 1 + 2 * lack + BlockCost(i', off + chunk, n - chunk)
            && Missing(i, off, n) == lack + Missing(i', off + chunk, n - chunk)
  {
    var k := off / BLOCK_SIZE;
    if chunk < n {
      assert (off + chunk) / BLOCK_SIZE == k + 1;
      assert EndPlace(off, n) == EndPlace(off + chunk, n - chunk);
      MissingSame(i.blocks, i'.blocks, k + 1, EndPlace(off, n));
    } else {
      assert EndPlace(off, n) == k + 1 && MissingIn(i.blocks, k + 1, k + 1) == 0;
    }
  }

  lemma {:induction false} MissingSame(bs: seq<nat>, bs': seq<nat>, lo: nat, hi: nat)
    requires lo <= hi <= |bs| == |bs'| && forall k: nat | lo <= k < hi :: bs[k] == bs'[k]
    ensures MissingIn(bs, lo, hi) == MissingIn(bs', lo, hi)
    decreases hi - lo
  {
    if lo < hi {
      MissingSame(bs, bs', lo + 1, hi);
    }
  }

  lemma {:induction false} MissingAtMost(bs: seq<nat>, lo: nat, hi: nat)
    requires lo <= hi <= |bs|
    ensures MissingIn(bs, lo, hi) <= hi - lo
    decreases hi - lo
  {
    if lo < hi {
      MissingAtMost(bs, lo + 1, hi);
    }
  }

  /** With its inode a write never needs more than 31 log entries. */
  lemma CostBound(i: Inode, off: nat, n: nat)
    requires |i.blocks| == DIRECT && (n == 0 || off + n <= MAX_SIZE)
    ensures BlockCost(i, off, n) + 1 <= 31 && Missing(i, off, n) <= DIRECT
  {
    if n > 0 {
      MissingAtMost(i.blocks, off / BLOCK_SIZE, EndPlace(off, n));
    }
  }

  // ----- the end of a write

  /** The bytes an inode counts. */
  ghost function FileBytes(d: Disk, i: Inode): (f: seq<Byte>)
    requires Mapped(d, i, i.size)
    ensures |f| == i.size && IsFile(d, i, f)
  {
    var f := seq(i.size, (p: nat) requires p < i.size => (MappedLess(d, i, i.size, p + 1); ByteOf(d, i, p)));
    assert forall p: nat | p < |f| :: HoldsAt(d, i, f, p);
    f
  }

  /** `g` is `f`, some bytes, and `bs` from `off` on. */
  predicate Bridged(f: seq<Byte>, off: nat, bs: seq<Byte>, g: seq<Byte>) {
    |f| < off && |g| == off + |bs| && f <= g && g[off..] == bs
  }

  /** The files after a write of `m` bytes. */
  predicate FilesAfter(job: Job, m: nat, files: seq<seq<Byte>>) {
    && job.x < |job.files| == |files| && m <= |job.buf| && files == job.files[job.x := files[job.x]]
    && var f, bs := job.files[job.x], job.buf[..m];
       if job.off <= |f| then files[job.x] == Overwrite(f, job.off, bs) else Bridged(f, job.off, bs, files[job.x])
  }

  /** In file `x`, the bytes from `off` on are `bs`; every other byte is as before, and so is every other file. */
  predicate BytesWritten(files: seq<seq<Byte>>, files': seq<seq<Byte>>, x: nat, off: nat, bs: seq<Byte>) {
    && x < |files| == |files'| && (forall y: nat | y < |files| && y != x :: files'[y] == files[y])
    && var f, f' := files[x], files'[x];
       && |f'| == Larger(off + |bs|, |f|) && off <= |f|
       && (forall i: nat | off <= i < off + |bs| :: f'[i] == bs[i - off])
       && (forall i: nat | i < |f| && !(off <= i < off + |bs|) :: f'[i] == f[i])
  }

  lemma OverwriteBytes(files: seq<seq<Byte>>, x: nat, off: nat, bs: seq<Byte>)
    requires x < |files| && off <= |files[x]|
    ensures BytesWritten(files, files[x := Overwrite(files[x], off, bs)], x, off, bs)
  {
  }

  /** The modification time, bytes 112 to 119 of an inode, is `now`; its other fields are as before. */
  predicate TimeWritten(meta: seq<nat>, meta': seq<nat>, now: nat) {
    && |meta| == |meta'| == 32 && meta'[28] + 0x1_0000_0000 * meta'[29] == now
    && forall w: nat | w < 32 && w != 28 && w != 29 :: meta'[w] == meta[w]
  }

  /** The inode is stored in its slot and nothing else changes. */
  ghost predicate InodePut(L: Layout, d: Disk, d': Disk, x: nat, i: Inode)
    requires InodeOk(i)
  {
    var b := L.table + x / INODES_PER_BLOCK;
    b < |d| && OnlyBlock(L, d, d', b) && d'[b] == PutInode(d[b], x % INODES_PER_BLOCK, i)
  }

  /**
   * Storing the inode of a write: its places are its own, and the filesystem is in order exactly
   * when the inode is. Then the file is the old one overwritten, or continued behind a gap.
   */
  lemma Closed(L: Layout, w: Work, job: Job, m: nat, d': Disk, i: Inode) returns (files': seq<seq<Byte>>)
    requires Writing(L, w, job, m) && i.blocks == w.inode.blocks && InodeOk(i)
    requires i.size == Larger(job.off + m, w.inode.size) && InodePut(L, w.d, d', w.x, i)
    ensures w.x < |w.inodes| && Table(L, d', w.inodes[w.x := i]) && PlacesOk(L, d', w.owner, w.x, i)
    ensures SizeOk(i) <==> Sound(L, d', w.inodes[w.x := i], w.owner, files')
    ensures SizeOk(i) ==> FilesAfter(job, m, files')
  {
    ClosedTable(L, w, job, m, d', i);
    hide Open, Stored, PutInode, Table, PlacesOk, FilesAfter, Overwrite;
    files' := job.files;
    if job.off <= |job.files[job.x]| {
      files' := ClosedInside(L, w, job, m, d', i);
    } else if SizeOk(i) {
      files' := ClosedBehind(L, w, job, m, d', i);
    } else {
      assert !InodeInv(L, d', w.owner, w.x, w.inodes[w.x := i][w.x]);
    }
  }

  lemma ClosedInside(L: Layout, w: Work, job: Job, m: nat, d': Disk, i: Inode) returns (files': seq<seq<Byte>>)
    requires Writing(L, w, job, m) && i.blocks == w.inode.blocks && InodeOk(i) && job.off <= |job.files[job.x]|
    requires i.size == Larger(job.off + m, w.inode.size) && InodePut(L, w.d, d', w.x, i)
    ensures w.x < |w.inodes| && SizeOk(i) && Sound(L, d', w.inodes[w.x := i], w.owner, files')
            && FilesAfter(job, m, files')
  {
    var f, bs := job.files[job.x], job.buf[..m];
    var g := Overwrite(f, job.off, bs);
    OverwriteAt(f, job.off, bs, 0);
    OpenSizes(L, w, job.files, g);
    hide Open, Overwrite, PutInode, Stored;
    Finish(L, w, job.files, g, d', i);
    files' := job.files[job.x := g];
    hide Table, Contents, PlacesOk;
    assert InodeInv(L, d', w.owner, w.x, w.inodes[w.x := i][w.x]);
  }

  lemma ClosedTable(L: Layout, w: Work, job: Job, m: nat, d': Disk, i: Inode)
    requires Writing(L, w, job, m) && i.blocks == w.inode.blocks && InodeOk(i) && InodePut(L, w.d, d', w.x, i)
    ensures w.x < |w.inodes| && L.Fits(d') && L.InTable(L.table + w.x / INODES_PER_BLOCK)
    ensures Table(L, d', w.inodes[w.x := i]) && PlacesOk(L, d', w.owner, w.x, i)
  {
    TableUpdated(L, w.d, d', w.inodes, w.x, i);
    WritingOwn(L, w, job, m);
    assert L.InTable(L.table + w.x / INODES_PER_BLOCK) && L.Fits(d');
    InodeInvKept(L, w.d, d', w.owner, w.owner, w.x, w.inode);
  }

  lemma ClosedBehind(L: Layout, w: Work, job: Job, m: nat, d': Disk, i: Inode) returns (files': seq<seq<Byte>>)
    requires Writing(L, w, job, m) && i.blocks == w.inode.blocks && SizeOk(i) && job.off > |job.files[job.x]|
    requires i.size == job.off + m && InodePut(L, w.d, d', w.x, i)
    ensures w.x < |w.inodes| && Sound(L, d', w.inodes[w.x := i], w.owner, files') && FilesAfter(job, m, files')
  {
    var f, b := job.files[job.x], L.table + w.x / INODES_PER_BLOCK;
    ClosedTable(L, w, job, m, d', i);
    InvMapped(L, d', w.owner, w.x, i);
    var g := FileBytes(d', i);
    files' := job.files[job.x := g];
    BehindBytes(L, w, job, m, d', i, g);
    hide Table, InodeInv, IsFile, Holds, Stored, PutInode;
    var inodes' := w.inodes[w.x := i];
    forall y: nat | y < |job.files|
      ensures InodeInv(L, d', w.owner, y, inodes'[y]) && IsFile(d', inodes'[y], files'[y])
    {
      if y == w.x {
        assert InodeInv(L, d', w.owner, w.x, i);
      } else {
        OpenOther(L, w, job.files, f, y);
        InodeInvKept(L, w.d, d', w.owner, w.owner, y, w.inodes[y]);
        OtherKept(L, w.d, d', b, w.owner, y, w.inodes[y], job.files[y]);
      }
    }
  }

  lemma BehindBytes(L: Layout, w: Work, job: Job, m: nat, d': Disk, i: Inode, g: seq<Byte>)
    requires Writing(L, w, job, m) && i.blocks == w.inode.blocks && job.off > |job.files[job.x]| && InodeOk(i)
    requires i.size == job.off + m && InodePut(L, w.d, d', w.x, i) && IsFile(d', i, g)
    requires L.InTable(L.table + w.x / INODES_PER_BLOCK)
    ensures Bridged(job.files[job.x], job.off, job.buf[..m], g)
  {
    var f, off, bs, b := job.files[job.x], job.off, job.buf[..m], L.table + w.x / INODES_PER_BLOCK;
    WritingOwn(L, w, job, m);
    OwnPlaces(L, w, d', b);
    HoldsSame(w.d, d', w.inode, f);
    StoredSame(w.d, d', w.inode, i, off, bs);
    hide Open, Writing, InodeInv, PutInode;
    forall p: nat | p < |f|
      ensures g[p] == f[p]
    {
      assert HoldsAt(d', w.inode, f, p) && HoldsAt(d', i, g, p);
    }
    forall q: nat | q < |bs|
      ensures g[off + q] == bs[q]
    {
      assert StoredAt(d', i, off + q, bs[q]) && HoldsAt(d', i, g, off + q);
    }
    assert g[off..] == bs;
  }

  // ----- power loss during a write

  /** A device that the write passes through before its inode is stored. */
  ghost predicate Midway(L: Layout, d: Disk, job: Job) {
    && (job.clean ==> Unmarked(L.area, d))
    && exists w: Work, m: nat :: w.d == d && Writing(L, w, job, m)
  }

  /** All devices since the write began. */
  ghost predicate Covered(L: Layout, trace: seq<Disk>, from: nat, job: Job) {
    from <= |trace| && forall k: nat | from <= k < |trace| :: Midway(L, trace[k], job)
  }

  /** A block write that was logged first, and the devices on the way. */
  ghost predicate Stepped(L: Layout, trace: seq<Disk>, d: Disk, trace': seq<Disk>, d': Disk) {
    && |d'| == |d| && trace <= trace'
    && (forall k: nat | |trace| <= k < |trace'| :: trace'[k] == d' || SameOutside(L, d, trace'[k]))
    && (Unmarked(L.area, d) ==>
          Unmarked(L.area, d') && forall k: nat | |trace| <= k < |trace'| :: Unmarked(L.area, trace'[k]))
  }

  lemma CoveredMore(L: Layout, trace: seq<Disk>, trace': seq<Disk>, from: nat, job: Job, w: Work, m: nat, w': Work,
                    m': nat)
    requires Covered(L, trace, from, job) && Stepped(L, trace, w.d, trace', w'.d)
    requires Writing(L, w, job, m) && Writing(L, w', job, m') && (job.clean ==> Unmarked(L.area, w.d))
    ensures Covered(L, trace', from, job) && (job.clean ==> Unmarked(L.area, w'.d))
  {
    hide Writing, Unmarked, SameOutside;
    forall k: nat | from <= k < |trace'|
      ensures Midway(L, trace'[k], job)
    {
      if k < |trace| {
        assert Midway(L, trace[k], job);
      } else if trace'[k] != w'.d {
        WritingQuiet(L, w, job, m, trace'[k]);
        assert w.(d := trace'[k]).d == trace'[k];
      }
    }
  }

  lemma ShownNone(f: seq<Byte>, off: nat, buf: seq<Byte>)
    ensures Shown(f, off, buf[..0]) == f
  {
  }

  /** The files when a write that copied `m` bytes in was cut off: the old sizes count. */
  function Outcome(job: Job, m: nat): seq<seq<Byte>>
    requires job.x < |job.files| && m <= |job.buf|
  {
    var f := job.files[job.x];
    job.files[job.x := Shown(f, job.off, job.buf[..m])[..|f|]]
  }

  lemma OutcomeNone(job: Job)
    requires job.x < |job.files|
    ensures Outcome(job, 0) == job.files
  {
    var f := job.files[job.x];
    ShownNone(f, job.off, job.buf);
    assert f[..|f|] == f && job.files[job.x := f] == job.files;
  }

  /** A filesystem in order whose files are those before the write, overlaid by a start of it. */
  ghost predicate Rests(L: Layout, d: Disk, job: Job) {
    && job.x < |job.files|
    && exists inodes: seq<Inode>, owner: Owners, m: nat ::
         m <= |job.buf| && Sound(L, d, inodes, owner, Outcome(job, m))
  }

  lemma MidwayRests(L: Layout, d: Disk, job: Job)
    requires Midway(L, d, job)
    ensures Rests(L, d, job)
  {
    var w: Work, m: nat :| w.d == d && Writing(L, w, job, m);
    var f := job.files[job.x];
    GivenUp(L, w, job.files, Shown(f, job.off, job.buf[..m]));
    assert Sound(L, d, w.inodes, w.owner, Outcome(job, m));
  }

  /** What lies in the journal counts for no file. */
  lemma OutsideKeeps(L: Layout, d: Disk, d': Disk, inodes: seq<Inode>, owner: Owners, files: seq<seq<Byte>>)
    requires Sound(L, d, inodes, owner, files) && SameOutside(L, d, d')
    ensures Sound(L, d', inodes, owner, files)
  {
    TableKept(L, d, d', L.bitmap, inodes);
    forall y: nat | y < |files|
      ensures InodeInv(L, d', owner, y, inodes[y]) && IsFile(d', inodes[y], files[y])
    {
      assert InodeInv(L, d, owner, y, inodes[y]) && IsFile(d, inodes[y], files[y]);
      InodeInvKept(L, d, d', owner, owner, y, inodes[y]);
      OtherKept(L, d, d', L.bitmap, owner, y, inodes[y], files[y]);
    }
  }

  lemma OutsidePlaces(L: Layout, d: Disk, d': Disk, inodes: seq<Inode>, owner: Owners, x: nat, i: Inode)
    requires Table(L, d, inodes) && PlacesOk(L, d, owner, x, i) && SameOutside(L, d, d')
    ensures Table(L, d', inodes) && PlacesOk(L, d', owner, x, i)
  {
    TableKept(L, d, d', L.bitmap, inodes);
    forall k: nat | k < DIRECT
      ensures PlaceOk(L, d', owner, x, k, i.blocks[k])
    {
      assert PlaceOk(L, d, owner, x, k, i.blocks[k]);
    }
  }

  // ----- small facts for the block loop

  lemma WritingUnheld(L: Layout, w: Work, job: Job, m: nat, i: nat)
    requires Writing(L, w, job, m) && i < BITS && !BitAt(w.d[L.bitmap], i)
    ensures Unheld(w, L.dataStart + i)
  {
    ClearUnheld(L, w, job.files, Shown(job.files[job.x], job.off, job.buf[..m]), i);
  }

  lemma WritingPlace(L: Layout, w: Work, job: Job, m: nat, k: nat)
    requires Writing(L, w, job, m) && k < DIRECT == |w.inode.blocks| && w.inode.blocks[k] != 0
    ensures var b := w.inode.blocks[k];
            L.dataStart <= b < L.dataStart + BITS && b < |w.d| && !L.area.Holds(b) && b != L.bitmap
  {
    WritingOwn(L, w, job, m);
    assert PlaceOk(L, w.d, w.owner, w.x, k, w.inode.blocks[k]);
  }

  lemma AllSetFree(L: Layout, d: Disk)
    requires L.Fits(d)
    ensures AllSet(d[L.bitmap]) ==> FreeBlocks(L, d) == 0
  {
    if AllSet(d[L.bitmap]) {
      ClearNone(d[L.bitmap], Bits(L, d));
    }
  }

  lemma FreeSame(L: Layout, d: Disk, d': Disk, b: nat)
    requires L.Fits(d) && L.Fits(d') && OnlyBlock(L, d, d', b) && b != L.bitmap
    ensures FreeBlocks(L, d') == FreeBlocks(L, d)
  {
  }

  lemma ChunkInRoom(off: nat, len: nat, written: nat, chunk: nat)
    requires written < len && (off + written) / BLOCK_SIZE < DIRECT
    requires var o, rest := (off + written) % BLOCK_SIZE, len - written;
             chunk == if BLOCK_SIZE - o < rest then BLOCK_SIZE - o else rest
    ensures 0 < chunk && off + written < MAX_SIZE && written + chunk <= Room(off, len)
    ensures var o, rest := (off + written) % BLOCK_SIZE, Room(off, len) - written;
            chunk == if BLOCK_SIZE - o < rest then BLOCK_SIZE - o else rest
  {
    ChunkFits(off + written, chunk);
  }

  lemma RoomReached(off: nat, len: nat, written: nat)
    requires written <= Room(off, len) && (written == len || (off + written) / BLOCK_SIZE >= DIRECT)
    ensures written == Room(off, len)
  {
  }

  /** The next block is part of what is to be paid. */
  lemma CostAhead(i: Inode, off: nat, n: nat)
    requires |i.blocks| == DIRECT && 0 < n && off + n <= MAX_SIZE
    ensures off / BLOCK_SIZE < DIRECT
    ensures var lack := if i.blocks[off / BLOCK_SIZE] == 0 then 1 else 0;
            BlockCost(i, off, n) >= 1 + 2 * lack && Missing(i, off, n) >= lack
  {
  }

  /**
   * The block loop has written `written` of `n` bytes: the inode it works on, the log entries it
   * spent and the blocks it took.
   */
  ghost predicate Progress(i0: Inode, i: Inode, off: nat, n: nat, written: nat, spent: nat, took: nat) {
    && |i0.blocks| == |i.blocks| == DIRECT && i == i0.(blocks := i.blocks) && Extends(i0, i, off, written)
    && written <= n && (n == 0 || off + n <= MAX_SIZE)
    && spent + BlockCost(i, off + written, n - written) == BlockCost(i0, off, n)
    && took + Missing(i, off + written, n - written) == Missing(i0, off, n)
  }

  /** What the block loop starts with. */
  datatype Beginning = Beginning(inodes: seq<Inode>, inode: Inode, head: nat, free: nat, clean: bool, full: bool)

  lemma ProgressStart(i: Inode, off: nat, len: nat)
    requires |i.blocks| == DIRECT
    ensures Progress(i, i, off, Room(off, len), 0, 0, 0)
  {
    ExtendsNothing(i, off);
  }

  lemma ProgressStep(i0: Inode, i: Inode, off: nat, n: nat, written: nat, spent: nat, took: nat, i': Inode, chunk: nat)
    requires Progress(i0, i, off, n, written, spent, took) && written < n
    requires Filled(i, i', (off + written) / BLOCK_SIZE)
    requires var o, rest := (off + written) % BLOCK_SIZE, n - written;
             chunk == if BLOCK_SIZE - o < rest then BLOCK_SIZE - o else rest
    ensures var lack := if i.blocks[(off + written) / BLOCK_SIZE] == 0 then 1 else 0;
            Progress(i0, i', off, n, written + chunk, spent + 1 + 2 * lack, took + lack)
  {
    hide BlockCost, Missing, Extends;
    CostStep(i, i', off + written, n - written, chunk);
    ExtendsStep(i0, i, i', off, written, chunk);
  }

  /** What is spent and the next block are part of the whole. */
  lemma ProgressAhead(i0: Inode, i: Inode, off: nat, n: nat, written: nat, spent: nat, took: nat)
    requires Progress(i0, i, off, n, written, spent, took) && written < n
    ensures (off + written) / BLOCK_SIZE < DIRECT == |i0.blocks| == |i.blocks| && off + n <= MAX_SIZE
    ensures var lack := if i.blocks[(off + written) / BLOCK_SIZE] == 0 then 1 else 0;
            spent + 1 + 2 * lack <= BlockCost(i0, off, n) && took + lack <= Missing(i0, off, n)
  {
    CostAhead(i, off + written, n - written);
  }

  lemma ProgressEnd(i0: Inode, i: Inode, off: nat, n: nat, spent: nat, took: nat)
    requires Progress(i0, i, off, n, n, spent, took)
    ensures |i0.blocks| == DIRECT && (n == 0 || off + n <= MAX_SIZE)
    ensures spent == BlockCost(i0, off, n) && took == Missing(i0, off, n)
    ensures i == i0.(blocks := i.blocks) && Extends(i0, i, off, n)
  {
  }

  // ----- what recovery finds

  /** The commit at the end of a write: a marker behind its entries, if there is room. */
  ghost predicate Committing(L: Layout, d: Disk, head: nat, trace: seq<Disk>, d': Disk, trace': seq<Disk>) {
    || (d' == d && trace' == trace)
    || (&& OnDevice(L.area, d) && head < L.area.size && trace' == trace + [d']
        && d' == d[L.area.start + head := Marker()])
  }

  /** Recovery finds the write midway, and ignores its log, or it finds it done. */
  ghost predicate Survives(L: Layout, d: Disk, job: Job, last: Disk) {
    && Replayable(L.area, d)
    && (Rests(L, Recovered(L.area, d), job) || SameOutside(L, last, Recovered(L.area, d)))
  }

  lemma MidwaySurvives(L: Layout, d: Disk, job: Job, last: Disk)
    requires Midway(L, d, job) && job.clean
    ensures Survives(L, d, job, last)
  {
    NoMarker(L.area, d);
    MidwayRests(L, d, job);
  }

  lemma CoveredSurvives(L: Layout, trace: seq<Disk>, from: nat, job: Job, last: Disk)
    requires Covered(L, trace, from, job) && job.clean
    ensures forall k: nat | from <= k < |trace| :: Survives(L, trace[k], job, last)
  {
    hide Midway, Survives;
    forall k: nat | from <= k < |trace|
      ensures Survives(L, trace[k], job, last)
    {
      MidwaySurvives(L, trace[k], job, last);
    }
  }

  /** The devices of the last step of a write: storing its inode and committing. */
  lemma LastSurvives(L: Layout, trace: seq<Disk>, job: Job, w: Work, m: nat, d: Disk, trace1: seq<Disk>, head: nat,
                     last: Disk, trace2: seq<Disk>, k: nat)
    requires Writing(L, w, job, m) && Unmarked(L.area, w.d) && Stepped(L, trace, w.d, trace1, d)
    requires Mirrors(L.area, d, head) && Committing(L, d, head, trace1, last, trace2) && |trace| <= k < |trace2|
    ensures SameOutside(L, d, last) && Survives(L, trace2[k], job, last)
  {
    hide Writing, Kind, Marker, Mirrors, Rests, Recovered;
    if k < |trace1| {
      var d1 := trace1[k];
      NoMarker(L.area, d1);
      if d1 != d {
        WritingQuiet(L, w, job, m, d1);
        assert w.(d := d1).d == d1;
        MidwayRests(L, d1, job);
      }
    } else {
      MarkedRecovers(L.area, d, head, last);
    }
  }

  lemma ClosedSurvives(L: Layout, trace: seq<Disk>, from: nat, job: Job, w: Work, m: nat, d: Disk, trace1: seq<Disk>,
                       head: nat, last: Disk, trace2: seq<Disk>)
    requires Covered(L, trace, from, job) && job.clean
    requires Writing(L, w, job, m) && Unmarked(L.area, w.d) && Stepped(L, trace, w.d, trace1, d)
    requires Mirrors(L.area, d, head) && Committing(L, d, head, trace1, last, trace2)
    ensures from <= |trace2| && forall k: nat | from <= k < |trace2| :: Survives(L, trace2[k], job, last)
  {
    CoveredSurvives(L, trace, from, job, last);
    assert trace <= trace1 <= trace2;
    hide Writing, Unmarked, Stepped, Mirrors, Committing, Survives, Midway;
    forall k: nat | |trace| <= k < |trace2|
      ensures Survives(L, trace2[k], job, last)
    {
      LastSurvives(L, trace, job, w, m, d, trace1, head, last, trace2, k);
    }
  }

  // ----- runs

  datatype WriteOp = WriteOp(x: nat, off: nat, bytes: seq<Byte>)

  /** Each write starts inside its file, as it then is, and fits ten blocks. */
  ghost predicate InRange(files: seq<seq<Byte>>, ops: seq<WriteOp>)
    decreases |ops|
  {
    ops == []
    || (&& ops[0].x < |files| && ops[0].off <= |files[ops[0].x]| && ops[0].off + |ops[0].bytes| <= MAX_SIZE
        && InRange(Written(files, ops[0]), ops[1..]))
  }

  function Written(files: seq<seq<Byte>>, op: WriteOp): seq<seq<Byte>>
    requires op.x < |files| && op.off <= |files[op.x]|
  {
    files[op.x := Overwrite(files[op.x], op.off, op.bytes)]
  }

  lemma {:induction false} NextInRange(files: seq<seq<Byte>>, ops: seq<WriteOp>, k: nat)
    requires InRange(files, ops) && k < |ops|
    ensures InRange(files, ops[..k]) && InRange(files, ops[..k + 1])
    ensures var before, op := AfterAll(files, ops[..k]), ops[k];
            && op.x < |before| && op.off <= |before[op.x]| && op.off + |op.bytes| <= MAX_SIZE
            && AfterAll(files, ops[..k + 1]) == Written(before, op)
    decreases k
  {
    if k == 0 {
      assert ops[..1] == [ops[0]] && ops[..1][1..] == [];
    } else {
      NextInRange(Written(files, ops[0]), ops[1..], k - 1);
      assert ops[..k][1..] == ops[1..][..k - 1] && ops[..k + 1][1..] == ops[1..][..k];
    }
  }

  /** The files after a run of writes, as plain byte sequences. */
  ghost function AfterAll(files: seq<seq<Byte>>, ops: seq<WriteOp>): seq<seq<Byte>>
    requires InRange(files, ops)
    decreases |ops|
  {
    if ops == [] then files else AfterAll(Written(files, ops[0]), ops[1..])
  }
}
