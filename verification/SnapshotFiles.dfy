/** Snapshots of a filesystem: what is captured, in terms of inodes, and what a rollback gives back. */
module SnapshotFiles {
  import opened Base
  import opened Disks
  import F = FilesSpec
  import W = WriteSpec
  import S = SnapshotSpec
  import Rle
  import opened Snapshots

  /** The superblock places inode table and data bitmap where the filesystem has them. */
  predicate Describes(sb: S.Super, L: F.Layout) {
    sb.tableStart == L.table && sb.tableBlocks == L.tableBlocks && sb.bitmapStart == L.bitmap
  }

  /** An inode in use: its mode is not 0. */
  predicate InUse(i: F.Inode) {
    |i.meta| == F.WORDS && i.meta[0] != 0
  }

  /** Block `b` is a direct block of an inode in use. */
  ghost predicate FileBlock(inodes: seq<F.Inode>, b: nat) {
    b != 0 && exists x: nat, k: nat ::
      x < |inodes| && InUse(inodes[x]) && k < |inodes[x].blocks| && inodes[x].blocks[k] == b
  }

  // ----- what is captured

  lemma {:induction false} InodeBlocksIff(t: Block, slot: nat, n: nat, b: nat)
    requires slot < INODES_PER_BLOCK && n <= DIRECT
    ensures b in S.InodeBlocks(t, slot, n) <==> b != 0 && exists k: nat :: k < n && F.Decode(t, slot).blocks[k] == b
  {
    hide Le32At;
    if n > 0 {
      InodeBlocksIff(t, slot, n - 1, b);
      assert S.DirectBlock(t, slot, n - 1) == F.Decode(t, slot).blocks[n - 1];
    }
  }

  lemma {:induction false} TableBlocksIff(t: Block, n: nat, b: nat)
    requires n <= INODES_PER_BLOCK
    ensures b in S.TableBlocks(t, n)
            <==> exists slot: nat :: slot < n && InUse(F.Decode(t, slot)) && b in S.InodeBlocks(t, slot, DIRECT)
  {
    hide Le32At, S.InodeBlocks;
    if n > 0 {
      TableBlocksIff(t, n - 1, b);
      assert InUse(F.Decode(t, n - 1)) <==> Le32At(t, (n - 1) * INODE_SIZE) != 0;
    }
  }

  lemma {:induction false} LiveBlocksIff(sb: S.Super, d: Disk, n: nat, b: nat)
    requires n <= sb.tableBlocks && sb.tableStart + sb.tableBlocks <= |d|
    ensures b in S.LiveBlocks(sb, d, n)
            <==> exists p: nat :: sb.tableStart <= p < sb.tableStart + n && b in S.TableBlocks(d[p], INODES_PER_BLOCK)
  {
    hide S.TableBlocks;
    if n > 0 {
      LiveBlocksIff(sb, d, n - 1, b);
    }
  }

  /** The blocks of the inodes in use are the non-zero direct blocks of the decoded table. */
  lemma LiveIsFileBlock(sb: S.Super, L: F.Layout, d: Disk, inodes: seq<F.Inode>, b: nat)
    requires F.Table(L, d, inodes) && Describes(sb, L)
    ensures b in S.LiveBlocks(sb, d, sb.tableBlocks) <==> FileBlock(inodes, b)
  {
    LiveBlocksIff(sb, d, sb.tableBlocks, b);
    hide F.Decode, S.InodeBlocks, S.TableBlocks, S.LiveBlocks, F.Table, InUse;
    if b in S.LiveBlocks(sb, d, sb.tableBlocks) {
      var p: nat :| sb.tableStart <= p < sb.tableStart + sb.tableBlocks && b in S.TableBlocks(d[p], INODES_PER_BLOCK);
      InTableBlock(L, d, inodes, p - L.table, p, b);
    }
    if FileBlock(inodes, b) {
      var x: nat, k: nat :| x < |inodes| && InUse(inodes[x]) && k < |inodes[x].blocks| && inodes[x].blocks[k] == b;
      OfInode(L, d, inodes, x, k, b);
    }
  }

  lemma SlotOf(i: nat, slot: nat, n: nat)
    requires slot < INODES_PER_BLOCK && i < n
    ensures var x := i * INODES_PER_BLOCK + slot;
            x / INODES_PER_BLOCK == i && x % INODES_PER_BLOCK == slot && x < n * INODES_PER_BLOCK
  {
  }

  lemma DecodedAt(L: F.Layout, d: Disk, inodes: seq<F.Inode>, x: nat)
    requires F.Table(L, d, inodes) && x < |inodes|
    ensures x / INODES_PER_BLOCK < L.tableBlocks && L.table + L.tableBlocks <= |d|
    ensures F.Decode(d[L.table + x / INODES_PER_BLOCK], x % INODES_PER_BLOCK) == inodes[x]
  {
    assert F.InodeAt(L, d, x) == inodes[x];
  }

  lemma InTableBlock(L: F.Layout, d: Disk, inodes: seq<F.Inode>, i: nat, p: nat, b: nat)
    requires F.Table(L, d, inodes) && i < L.tableBlocks && p == L.table + i
    requires b in S.TableBlocks(d[p], INODES_PER_BLOCK)
    ensures FileBlock(inodes, b)
  {
    hide F.Decode, S.InodeBlocks, S.TableBlocks, InUse;
    var t := d[p];
    TableBlocksIff(t, INODES_PER_BLOCK, b);
    var slot: nat :| slot < INODES_PER_BLOCK && InUse(F.Decode(t, slot)) && b in S.InodeBlocks(t, slot, DIRECT);
    InodeBlocksIff(t, slot, DIRECT, b);
    F.DecodeOk(t, slot);
    var k: nat :| k < DIRECT && F.Decode(t, slot).blocks[k] == b;
    var x := i * INODES_PER_BLOCK + slot;
    SlotOf(i, slot, L.tableBlocks);
    DecodedAt(L, d, inodes, x);
    assert inodes[x].blocks[k] == b;
  }

  lemma OfInode(L: F.Layout, d: Disk, inodes: seq<F.Inode>, x: nat, k: nat, b: nat)
    requires F.Table(L, d, inodes) && x < |inodes| && InUse(inodes[x]) && k < |inodes[x].blocks|
    requires inodes[x].blocks[k] == b != 0
    ensures x / INODES_PER_BLOCK < L.tableBlocks
    ensures b in S.TableBlocks(d[L.table + x / INODES_PER_BLOCK], INODES_PER_BLOCK)
  {
    DecodedAt(L, d, inodes, x);
    var t, slot := d[L.table + x / INODES_PER_BLOCK], x % INODES_PER_BLOCK;
    InodeBlocksIff(t, slot, DIRECT, b);
    TableBlocksIff(t, INODES_PER_BLOCK, b);
  }

  /**
   * A snapshot captures a block exactly if it is one of the inode table, the data bitmap, or a
   * direct block of an inode in use, as the filesystem decodes them.
   */
  lemma CapturedIff(sb: S.Super, L: F.Layout, d: Disk, inodes: seq<F.Inode>, blocks: seq<nat>, b: nat)
    requires F.Table(L, d, inodes) && Describes(sb, L) && S.Collect([], S.Candidates(sb, d)) == Some(blocks)
    ensures b in blocks <==> L.InTable(b) || b == L.bitmap || FileBlock(inodes, b)
  {
    S.CollectExact([], S.Candidates(sb, d));
    LiveIsFileBlock(sb, L, d, inodes, b);
    hide S.Collect, S.LiveBlocks, FileBlock, F.Table;
    var table := S.Consecutive(sb.tableStart, sb.tableBlocks);
    if L.InTable(b) {
      assert table[b - L.table] == b;
    }
    if b in table {
      var i: nat :| i < |table| && table[i] == b;
    }
    assert b in blocks <==> b in table || b in [sb.bitmapStart] || b in S.LiveBlocks(sb, d, sb.tableBlocks);
  }

  // ----- what a rollback gives back

  /** Table, bitmap and the blocks of inodes in use are the same. */
  ghost predicate SameCaptured(L: F.Layout, d: Disk, r: Disk, inodes: seq<F.Inode>) {
    && |r| == |d|
    && forall b: nat | b < |d| && (L.InTable(b) || b == L.bitmap || FileBlock(inodes, b)) :: r[b] == d[b]
  }

  lemma PlacesKept(L: F.Layout, d: Disk, r: Disk, inodes: seq<F.Inode>, owner: F.Owners, x: nat)
    requires F.Table(L, d, inodes) && SameCaptured(L, d, r, inodes) && x < |inodes|
    requires F.InodeInv(L, d, owner, x, inodes[x])
    ensures F.InodeInv(L, r, owner, x, inodes[x])
  {
    hide F.BitAt;
    forall k: nat | k < DIRECT
      ensures F.PlaceOk(L, r, owner, x, k, inodes[x].blocks[k])
    {
      assert F.PlaceOk(L, d, owner, x, k, inodes[x].blocks[k]);
    }
  }

  lemma FileKept(L: F.Layout, d: Disk, r: Disk, inodes: seq<F.Inode>, x: nat, f: seq<Byte>)
    requires F.Table(L, d, inodes) && SameCaptured(L, d, r, inodes) && x < |inodes|
    requires InUse(inodes[x]) && F.IsFile(d, inodes[x], f)
    ensures F.IsFile(r, inodes[x], f)
  {
    var i := inodes[x];
    forall k: nat | k < DIRECT && i.blocks[k] != 0 && i.blocks[k] < |d|
      ensures r[i.blocks[k]] == d[i.blocks[k]]
    {
      assert FileBlock(inodes, i.blocks[k]);
    }
    F.HoldsSame(d, r, i, f);
  }

  lemma TableKept(L: F.Layout, d: Disk, r: Disk, inodes: seq<F.Inode>)
    requires F.Table(L, d, inodes) && SameCaptured(L, d, r, inodes)
    ensures F.Table(L, r, inodes)
  {
    forall x: nat | x < |inodes|
      ensures F.InodeAt(L, r, x) == inodes[x]
    {
      assert F.InodeAt(L, d, x) == inodes[x];
      assert L.InTable(L.table + x / INODES_PER_BLOCK);
    }
  }

  /** A device with the captured blocks of a filesystem in order is one, with the files in use. */
  lemma CapturedSuffices(L: F.Layout, d: Disk, r: Disk, inodes: seq<F.Inode>, owner: F.Owners, files: seq<seq<Byte>>)
    returns (files': seq<seq<Byte>>)
    requires F.Sound(L, d, inodes, owner, files) && SameCaptured(L, d, r, inodes)
    ensures F.Sound(L, r, inodes, owner, files')
    ensures |files'| == |files| == |inodes| && forall x: nat | x < |files| && InUse(inodes[x]) :: files'[x] == files[x]
  {
    TableKept(L, d, r, inodes);
    forall x: nat | x < |inodes|
      ensures F.InodeInv(L, r, owner, x, inodes[x]) && F.Mapped(r, inodes[x], inodes[x].size)
    {
      assert F.InodeInv(L, d, owner, x, inodes[x]);
      PlacesKept(L, d, r, inodes, owner, x);
      F.InvMapped(L, r, owner, x, inodes[x]);
    }
    hide F.Table, F.InodeInv, F.Mapped, SameCaptured, F.IsFile;
    files' := seq(|inodes|, (x: nat) requires x < |inodes| => W.FileBytes(r, inodes[x]));
    forall x: nat | x < |inodes|
      ensures F.IsFile(r, inodes[x], files'[x]) && (InUse(inodes[x]) ==> files'[x] == files[x])
    {
      assert files'[x] == W.FileBytes(r, inodes[x]);
      assert F.IsFile(d, inodes[x], files[x]);
      if InUse(inodes[x]) {
        FileKept(L, d, r, inodes, x, files[x]);
        F.FileUnique(r, inodes[x], files[x], files'[x]);
      }
    }
  }

  /** No captured block has a compressed form as long as a block. */
  ghost predicate NoneAwkward(d: Disk, blocks: seq<nat>) {
    forall k: nat | k < |blocks| && blocks[k] < |d| :: |Rle.Compress(d[blocks[k]], 0)| != BLOCK_SIZE
  }

  /**
   * Whatever became of a filesystem in order since `d`, rolling back to its snapshot gives a
   * filesystem in order, with the same inodes and every file in use as it was.
   */
  lemma RollbackRestoresFiles(sb: S.Super, L: F.Layout, d: Disk, d': Disk, blocks: seq<nat>, inodes: seq<F.Inode>,
                              owner: F.Owners, files: seq<seq<Byte>>) returns (files': seq<seq<Byte>>)
    requires F.Sound(L, d, inodes, owner, files) && Describes(sb, L) && |d'| == |d|
    requires S.Collect([], S.Candidates(sb, d)) == Some(blocks) && NoneAwkward(d, blocks)
    requires forall k: nat | k < |blocks| :: blocks[k] < |d|
    ensures F.Sound(L, S.Rolled(d', S.Captured(d, blocks), |blocks|), inodes, owner, files')
    ensures |files'| == |files| == |inodes| && forall x: nat | x < |files| && InUse(inodes[x]) :: files'[x] == files[x]
  {
    S.CollectExact([], S.Candidates(sb, d));
    var img := S.Captured(d, blocks);
    var r := S.Rolled(d', img, |blocks|);
    S.RollbackExact(d', img);
    assert forall k: nat | k < |blocks| :: img.contents[k] == d[blocks[k]];
    SoundTable(L, d, inodes, owner, files);
    hide S.Rolled, Rle.Compress, S.Captured, F.Sound, S.Collect, S.Candidates, F.Table, FileBlock;
    forall b: nat | b < |d| && (L.InTable(b) || b == L.bitmap || FileBlock(inodes, b))
      ensures r[b] == d[b]
    {
      CapturedIff(sb, L, d, inodes, blocks, b);
      var k: nat :| k < |blocks| && blocks[k] == b;
      assert r[img.blocks[k]] == img.contents[k];
    }
    files' := CapturedSuffices(L, d, r, inodes, owner, files);
  }

  lemma SoundTable(L: F.Layout, d: Disk, inodes: seq<F.Inode>, owner: F.Owners, files: seq<seq<Byte>>)
    requires F.Sound(L, d, inodes, owner, files)
    ensures F.Table(L, d, inodes)
  {
  }

  /** Writes by the rest of the system. */
  datatype BlockWrite = BlockWrite(block: nat, bytes: Block)

  /** They stay on the device and clear of the blocks that the snapshots use. */
  ghost predicate Elsewhere(sb: S.Super, images: seq<S.Image>, writes: seq<BlockWrite>, size: nat) {
    forall i: nat | i < |writes| ::
      && writes[i].block < size
      && forall k: nat | k < |images| :: !S.InRegion(sb, k + 1, |images[k].blocks|, writes[i].block)
  }

  /** The device after the first `n` writes. */
  function Overlaid(d: Disk, writes: seq<BlockWrite>, n: nat): (r: Disk)
    requires n <= |writes| && forall i: nat | i < n :: writes[i].block < |d|
    ensures |r| == |d|
  {
    if n == 0 then d else Overlaid(d, writes, n - 1)[writes[n - 1].block := writes[n - 1].bytes]
  }

  method WriteAllOutside(s: Snapshots, writes: seq<BlockWrite>)
    requires s.Valid() && Elsewhere(s.sb, s.images, writes, |s.disk|)
    modifies s`disk
    ensures s.Valid() && s.disk == Overlaid(old(s.disk), writes, |writes|)
  {
    hide S.AllOk, S.InRegion;
    for i := 0 to |writes|
      invariant s.Valid() && s.disk == Overlaid(old(s.disk), writes, i)
    {
      s.WriteOutside(writes[i].block, writes[i].bytes);
    }
  }

  /**
   * The promise of snapshots: take one of a filesystem in order, write whatever you like to blocks
   * that no snapshot uses, files in use included, and roll back. Every file in use is as it was.
   */
  method SaveAndRestore(s: Snapshots, meta: seq<Byte>, super: Block, writes: seq<BlockWrite>, ghost L: F.Layout,
                        ghost inodes: seq<F.Inode>, ghost owner: F.Owners, ghost files: seq<seq<Byte>>)
    returns (r: Result<nat>, ghost files': seq<seq<Byte>>)
    requires s.Valid() && |meta| == 64 && s.sb.tableStart + s.sb.tableBlocks <= |s.disk|
    requires F.Sound(L, s.disk, inodes, owner, files) && Describes(s.sb, L)
    requires s.ToCapture().Some? ==>
               var img := S.Captured(s.disk, s.ToCapture().value);
               && S.Clear(s.sb, s.images, img) && NoneAwkward(s.disk, img.blocks)
               && Elsewhere(s.sb, s.images + [img], writes, |s.disk|)
    modifies s
    ensures s.Valid()
    ensures r.Ok? ==>
              && F.Sound(L, s.disk, inodes, owner, files')
              && |files'| == |files| == |inodes|
              && forall x: nat | x < |files| && InUse(inodes[x]) :: files'[x] == files[x]
  {
    hide S.AllOk, S.Clear, NoneAwkward, Elsewhere, F.Sound, S.Captured, S.Rolled, S.Collect, S.Candidates, WritesOnly;
    files' := files;
    ghost var d, blocks := s.disk, s.ToCapture();
    r := s.SnapshotCreate(meta, super);
    if r.Err? {
      return;
    }
    WriteAllOutside(s, writes);
    ghost var d1 := s.disk;
    var rolled := s.SnapshotRollback(r.value);
    files' := RollbackRestoresFiles(s.sb, L, d, d1, blocks.value, inodes, owner, files);
  }
}
