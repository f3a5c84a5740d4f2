/** What a snapshot looks like on disk, and what rolling back to it does. */
module SnapshotSpec {
  import opened Base
  import opened Disks
  import opened Rle

  const EACH := 64      // blocks reserved per snapshot
  const SLOTS := 31     // captured blocks per snapshot

  /** The first block of a snapshot's own region. */
  function SnapStart(areaStart: nat, id: nat): nat
    requires id >= 1
  {
    areaStart + 1 + (id - 1) * EACH
  }

  /** The two blocks that hold captured block `i` are `SlotStart` and the one after it. */
  function SlotStart(start: nat, i: nat): nat {
    start + 1 + 2 * i
  }

  /** No two slots of any two snapshots share a block, and none is a header. */
  lemma SlotsDisjoint(areaStart: nat, id: nat, i: nat, id': nat, i': nat)
    requires 1 <= id <= id' && i < SLOTS && i' < SLOTS
    ensures var (s, s') := (SnapStart(areaStart, id), SnapStart(areaStart, id'));
            && s < SlotStart(s, i) && SlotStart(s, i) + 1 < s + EACH
            && (id < id' ==> s + EACH <= s')
            && ((id, i) != (id', i') ==>
              SlotStart(s, i) + 1 < SlotStart(s', i') || SlotStart(s', i') + 1 < SlotStart(s, i))
  {
    if id < id' {
      assert (id' - 1) * EACH >= id * EACH;
    }
  }

  // ----- the image of a snapshot

  /** Which blocks were captured, and what they held. */
  datatype Image = Image(blocks: seq<nat>, contents: seq<Block>)

  /** The 8192 bytes of a slot. */
  function SlotBytes(d: Disk, slot: nat): (r: seq<Byte>)
    requires slot + 1 < |d|
    ensures |r| == 2 * BLOCK_SIZE
  {
    var first: seq<Byte> := d[slot];
    first + d[slot + 1]
  }

  /** Captured block `k` is recorded in the header and stored, compressed, in its slot. */
  predicate Holds(d: Disk, start: nat, img: Image, k: nat)
    requires start + 1 + 2 * (k + 1) <= |d| && k < |img.blocks| == |img.contents| && k < SLOTS
  {
    var c := Compress(img.contents[k], 0);
    && Le32At(d[start], 4 + 8 * k) == img.blocks[k]
    && Le32At(d[start], 8 + 8 * k) == |c|
    && c <= SlotBytes(d, SlotStart(start, k))
  }

  predicate IsImage(d: Disk, start: nat, img: Image) {
    && start + 1 + 2 * |img.blocks| <= |d| && |img.blocks| == |img.contents| <= SLOTS
    && Le32At(d[start], 0) == |img.blocks|
    && forall k: nat | k < |img.blocks| :: Holds(d, start, img, k)
  }

  /** An image depends on its header and the slots it uses. */
  lemma ImageKept(d: Disk, d': Disk, start: nat, img: Image)
    requires IsImage(d, start, img) && |d'| == |d|
    requires forall b: nat | start <= b <= start + 2 * |img.blocks| && b < |d| :: d'[b] == d[b]
    ensures IsImage(d', start, img)
  {
    hide Le32At, Compress;
    forall k: nat | k < |img.blocks|
      ensures Holds(d', start, img, k)
    {
      assert Holds(d, start, img, k);
    }
  }

  /** What rolling back writes for a captured block: a stored size of 4096 is taken to mean raw. */
  function Restored(x: Block): Block {
    var c := Compress(x, 0);
    if |c| == BLOCK_SIZE then c else x
  }

  /** The device after the first `n` captured blocks have been written back. */
  function Rolled(d: Disk, img: Image, n: nat): (r: Disk)
    requires n <= |img.blocks| == |img.contents| && forall k: nat | k < n :: img.blocks[k] < |d|
    ensures |r| == |d|
  {
    if n == 0 then d else Rolled(d, img, n - 1)[img.blocks[n - 1] := Restored(img.contents[n - 1])]
  }

  predicate Distinct(blocks: seq<nat>) {
    forall i: nat, j: nat | i < j < |blocks| :: blocks[i] != blocks[j]
  }

  lemma {:induction false} RolledBlock(d: Disk, img: Image, n: nat, b: nat)
    requires n <= |img.blocks| == |img.contents| && Distinct(img.blocks) && b < |d|
    requires forall k: nat | k < |img.blocks| :: img.blocks[k] < |d|
    ensures forall k: nat | k < n && img.blocks[k] == b :: Rolled(d, img, n)[b] == Restored(img.contents[k])
    ensures b !in img.blocks[..n] ==> Rolled(d, img, n)[b] == d[b]
  {
    hide Restored;
    if n > 0 {
      RolledBlock(d, img, n - 1, b);
    }
  }

  /**
   * Rolling back gives a captured block its captured bytes back exactly when their compressed form
   * is not 4096 bytes long.
   */
  lemma RestoredIff(x: Block)
    ensures Restored(x) == x <==> |Compress(x, 0)| != BLOCK_SIZE
  {
    NotOwnCompression(x);
  }

  /** A run of 34 bytes, then bytes that do not repeat. */
  function Awkward(): Block {
    seq(BLOCK_SIZE, (i: nat) => if i < 34 then 7 else if i % 2 == 0 then 0 else 1)
  }

  lemma AwkwardByte(i: nat)
    requires 34 <= i < BLOCK_SIZE
    ensures Awkward()[i] == if i % 2 == 0 then 0 else 1
  {
  }

  lemma AwkwardNoTriple(j: nat)
    requires 34 <= j
    ensures !Triple(Awkward(), j)
  {
    hide Awkward;
    if j + 1 < BLOCK_SIZE {
      AwkwardByte(j);
      AwkwardByte(j + 1);
    }
  }

  /** A run of 34 saves as many bytes as the 32 literals after it add. */
  lemma FitsExactly(x: Block)
    requires RunLen(x, 0, 1) == 34 && forall j: nat | 34 <= j < |x| :: !Triple(x, j)
    ensures |Compress(x, 0)| == BLOCK_SIZE
  {
    assert |Packet(x, 0).0| == 2 && Packet(x, 0).1 == 34;
    hide Packet, RunLen;
    SizeReached(x, 34);
    assert Compress(x, 0) == Packet(x, 0).0 + Compress(x, 34);
  }

  /** There are such blocks: this one compresses to 4096 bytes and is not given back. */
  lemma AwkwardNotRestored()
    ensures |Compress(Awkward(), 0)| == BLOCK_SIZE && Restored(Awkward()) != Awkward()
  {
    var x := Awkward();
    RunIs(x, 0, 34);
    hide Awkward, Triple, RunLen, Compress, Restored;
    forall j: nat | 34 <= j < |x|
      ensures !Triple(x, j)
    {
      AwkwardNoTriple(j);
    }
    FitsExactly(x);
    RestoredIff(x);
  }

  /** Rolling back restores every captured block, and touches no other. */
  lemma RollbackExact(d: Disk, img: Image)
    requires |img.blocks| == |img.contents| && Distinct(img.blocks)
    requires forall k: nat | k < |img.blocks| :: img.blocks[k] < |d|
    ensures var r := Rolled(d, img, |img.blocks|);
            && (forall k: nat | k < |img.blocks| ::
                  r[img.blocks[k]] == img.contents[k] <==> |Compress(img.contents[k], 0)| != BLOCK_SIZE)
            && (forall b: nat | b < |d| && b !in img.blocks :: r[b] == d[b])
  {
    var n := |img.blocks|;
    var r := Rolled(d, img, n);
    hide Compress, Restored, Rolled;
    forall k: nat | k < n
      ensures r[img.blocks[k]] == img.contents[k] <==> |Compress(img.contents[k], 0)| != BLOCK_SIZE
    {
      RolledBlock(d, img, n, img.blocks[k]);
      RestoredIff(img.contents[k]);
    }
    forall b: nat | b < |d| && b !in img.blocks
      ensures r[b] == d[b]
    {
      RolledBlock(d, img, n, b);
      assert img.blocks[..n] == img.blocks;
    }
  }

  // ----- which blocks a snapshot captures

  /** Collecting block numbers without duplicates; a full list refuses even a duplicate. */
  function Collect(found: seq<nat>, more: seq<nat>): Option<seq<nat>>
    decreases |more|
  {
    if more == [] then Some(found)
    else if |found| >= SLOTS then None
    else Collect(if more[0] in found then found else found + [more[0]], more[1..])
  }

  /** Everything offered is collected once, and nothing else. */
  lemma {:induction false} CollectExact(found: seq<nat>, more: seq<nat>)
    requires Distinct(found) && |found| <= SLOTS
    ensures match Collect(found, more)
            case Some(r) => Distinct(r) && |r| <= SLOTS && forall b :: b in r <==> b in found || b in more
            case None => true
    decreases |more|
  {
    if more != [] && |found| < SLOTS {
      var found' := if more[0] in found then found else found + [more[0]];
      CollectExact(found', more[1..]);
      assert forall b :: b in more <==> b == more[0] || b in more[1..];
    }
  }

  ghost function Members(s: seq<nat>): set<nat> {
    set b | b in s
  }

  lemma {:induction false} DistinctCount(s: seq<nat>)
    requires Distinct(s)
    ensures |Members(s)| == |s|
  {
    if s != [] {
      var init := s[..|s| - 1];
      DistinctCount(init);
      assert Members(s) == Members(init) + {s[|s| - 1]};
    }
  }

  /** Collecting fails exactly when something is offered after 31 different blocks. */
  lemma {:induction false} CollectFails(found: seq<nat>, more: seq<nat>)
    requires Distinct(found) && |found| <= SLOTS
    ensures Collect(found, more) == None <==> exists k: nat :: k < |more| && |Members(found + more[..k])| >= 31
    decreases |more|
  {
    DistinctCount(found);
    assert found + more[..0] == found;
    if more != [] && |found| < SLOTS {
      var found', rest := if more[0] in found then found else found + [more[0]], more[1..];
      CollectFails(found', rest);
      forall k: nat | k < |rest|
        ensures Members(found' + rest[..k]) == Members(found + more[..k + 1])
      {
        assert more[..k + 1] == [more[0]] + rest[..k];
      }
      if k: nat :| k < |more| && |Members(found + more[..k])| >= SLOTS {
        assert Members(found' + rest[..k - 1]) == Members(found + more[..k]);
      }
    }
  }

  // ----- enumerating live blocks

  /** The direct block `i` of the inode in a slot of an inode-table block. */
  function DirectBlock(t: Block, slot: nat, i: nat): nat
    requires slot < INODES_PER_BLOCK && i < DIRECT
  {
    Le32At(t, slot * INODE_SIZE + 16 + 4 * i)
  }

  /** The first `n` direct blocks of an inode that are set. */
  function InodeBlocks(t: Block, slot: nat, n: nat): seq<nat>
    requires slot < INODES_PER_BLOCK && n <= DIRECT
  {
    if n == 0 then []
    else
      var b := DirectBlock(t, slot, n - 1);
      InodeBlocks(t, slot, n - 1) + if b != 0 then [b] else []
  }

  /** The blocks of the live inodes among the first `n` of an inode-table block. */
  function TableBlocks(t: Block, n: nat): seq<nat>
    requires n <= INODES_PER_BLOCK
  {
    if n == 0 then []
    else TableBlocks(t, n - 1) + if Le32At(t, (n - 1) * INODE_SIZE) != 0 then InodeBlocks(t, n - 1, DIRECT) else []
  }

  /** The parts of the superblock a snapshot needs. */
  datatype Super = Super(areaStart: nat, enabled: bool, tableStart: nat, tableBlocks: nat, bitmapStart: nat)

  /** The blocks of the live inodes of the first `n` inode-table blocks. */
  function LiveBlocks(sb: Super, d: Disk, n: nat): seq<nat>
    requires n <= sb.tableBlocks && sb.tableStart + sb.tableBlocks <= |d|
  {
    if n == 0 then [] else LiveBlocks(sb, d, n - 1) + TableBlocks(d[sb.tableStart + n - 1], INODES_PER_BLOCK)
  }

  function Consecutive(lo: nat, n: nat): (r: seq<nat>)
    ensures |r| == n
  {
    seq(n, (i: nat) => lo + i)
  }

  /** What a snapshot captures: the inode table, the data bitmap, and every block of a live inode. */
  function Candidates(sb: Super, d: Disk): seq<nat>
    requires sb.tableStart + sb.tableBlocks <= |d|
  {
    Consecutive(sb.tableStart, sb.tableBlocks) + [sb.bitmapStart] + LiveBlocks(sb, d, sb.tableBlocks)
  }

  lemma {:induction false} CollectSplit(found: seq<nat>, xs: seq<nat>, ys: seq<nat>)
    ensures Collect(found, xs + ys)
            == match Collect(found, xs) { case Some(f) => Collect(f, ys) case None => None }
    decreases |xs|
  {
    if xs == [] {
      assert xs + ys == ys;
    } else if |found| < SLOTS {
      assert (xs + ys)[1..] == xs[1..] + ys;
      CollectSplit(if xs[0] in found then found else found + [xs[0]], xs[1..], ys);
    }
  }

  /** The image of `blocks` as they are on a device. */
  function Captured(d: Disk, blocks: seq<nat>): (img: Image)
    ensures img.blocks == blocks && |img.contents| == |blocks|
  {
    Image(blocks,
          seq(|blocks|, (k: nat) requires k < |blocks| => if blocks[k] < |d| then d[blocks[k]] else ZeroBlock()))
  }

  /**
   * The round trip. `d0` is the device when `blocks` were captured, `d1` when their image had been
   * stored, `d2` after any writes outside the image's blocks. The image is still there in `d2`;
   * rolling back to it gives each captured block what it held in `d0`, exactly if that does not
   * compress to 4096 bytes, and leaves every other block as in `d2`.
   */
  lemma SnapshotRoundTrip(d0: Disk, d1: Disk, d2: Disk, blocks: seq<nat>, start: nat)
    requires |d0| == |d1| == |d2| && Distinct(blocks) && forall k: nat | k < |blocks| :: blocks[k] < |d0|
    requires IsImage(d1, start, Captured(d0, blocks))
    requires forall b: nat | start <= b <= start + 2 * |blocks| && b < |d1| :: d2[b] == d1[b]
    ensures IsImage(d2, start, Captured(d0, blocks))
    ensures var r := Rolled(d2, Captured(d0, blocks), |blocks|);
            && (forall k: nat | k < |blocks| ::
              r[blocks[k]] == d0[blocks[k]] <==> |Compress(d0[blocks[k]], 0)| != BLOCK_SIZE)
            && (forall b: nat | b < |d2| && b !in blocks :: r[b] == d2[b])
  {
    var img := Captured(d0, blocks);
    ImageKept(d1, d2, start, img);
    RollbackExact(d2, img);
    hide Compress, Rolled, IsImage;
    var r := Rolled(d2, img, |blocks|);
    forall k: nat | k < |blocks|
      ensures r[blocks[k]] == d0[blocks[k]] <==> |Compress(d0[blocks[k]], 0)| != BLOCK_SIZE
    {
      assert img.contents[k] == d0[blocks[k]];
      assert r[img.blocks[k]] == img.contents[k] <==> |Compress(img.contents[k], 0)| != BLOCK_SIZE;
    }
  }

  // ----- all snapshots together

  const MAX_SNAPSHOTS := 64    // metadata records that fit the area's first block

  /** The blocks of a snapshot with `n` captured blocks: its header and the slots it uses. */
  predicate InRegion(sb: Super, id: nat, n: nat, b: nat)
    requires id >= 1
  {
    SnapStart(sb.areaStart, id) <= b <= SnapStart(sb.areaStart, id) + 2 * n
  }

  lemma RegionsDisjoint(sb: Super, id: nat, n: nat, id': nat, n': nat, b: nat)
    requires id >= 1 && id' >= 1 && id != id' && n <= SLOTS && n' <= SLOTS
    ensures !(InRegion(sb, id, n, b) && InRegion(sb, id', n', b)) && !InRegion(sb, id, n, sb.areaStart)
  {
    if id < id' {
      assert (id' - 1) * EACH >= id * EACH;
    } else {
      assert (id - 1) * EACH >= id' * EACH;
    }
  }

  /** A block that neither the snapshots nor their bookkeeping use. */
  ghost predicate Untouched(sb: Super, images: seq<Image>, b: nat) {
    && b != 0 && b != sb.areaStart
    && forall j: nat | j < |images| :: !InRegion(sb, j + 1, |images[j].blocks|, b)
  }

  /** An image in place, of blocks that no snapshot uses. */
  ghost predicate ImageOk(sb: Super, d: Disk, images: seq<Image>, k: nat)
    requires k < |images|
  {
    && IsImage(d, SnapStart(sb.areaStart, k + 1), images[k]) && Distinct(images[k].blocks)
    && forall i: nat | i < |images[k].blocks| :: images[k].blocks[i] < |d| && Untouched(sb, images, images[k].blocks[i])
  }

  /** Every snapshot taken so far can be rolled back to, without harm to the others. */
  ghost predicate AllOk(sb: Super, d: Disk, images: seq<Image>) {
    && |d| <= 0x1_0000_0000 && |images| <= MAX_SNAPSHOTS
    && forall k: nat | k < |images| :: ImageOk(sb, d, images, k)
  }

  /** Snapshots survive every write outside the blocks they use. */
  lemma ImagesSurvive(sb: Super, d: Disk, d': Disk, images: seq<Image>)
    requires AllOk(sb, d, images) && |d'| == |d|
    requires forall k: nat, b: nat | k < |images| && b < |d| && InRegion(sb, k + 1, |images[k].blocks|, b) ::
             d'[b] == d[b]
    ensures AllOk(sb, d', images)
  {
    forall k: nat | k < |images|
      ensures ImageOk(sb, d', images, k)
    {
      assert ImageOk(sb, d, images, k);
      ImageKept(d, d', SnapStart(sb.areaStart, k + 1), images[k]);
    }
  }

  /**
   * There is room for one more image: what it captures is used by no snapshot, itself included, and
   * its own blocks were captured by none before.
   */
  ghost predicate Clear(sb: Super, images: seq<Image>, img: Image) {
    && (forall i: nat | i < |img.blocks| :: Untouched(sb, images + [img], img.blocks[i]))
    && forall k: nat, i: nat | k < |images| && i < |images[k].blocks| ::
         !InRegion(sb, |images| + 1, |img.blocks|, images[k].blocks[i])
  }

  /** With one more image in place all can be rolled back to exactly when there was room for it. */
  lemma AddImageIff(sb: Super, d: Disk, images: seq<Image>, img: Image)
    requires AllOk(sb, d, images) && |images| < MAX_SNAPSHOTS
    requires IsImage(d, SnapStart(sb.areaStart, |images| + 1), img) && Distinct(img.blocks)
    requires forall i: nat | i < |img.blocks| :: img.blocks[i] < |d|
    ensures AllOk(sb, d, images + [img]) <==> Clear(sb, images, img)
  {
    var images', n := images + [img], |images|;
    hide IsImage, Distinct, InRegion;
    if Clear(sb, images, img) {
      forall k: nat | k < |images'|
        ensures ImageOk(sb, d, images', k)
      {
        if k < n {
          AddImageKeeps(sb, d, images, img, k);
        }
      }
    }
    if AllOk(sb, d, images') {
      assert ImageOk(sb, d, images', n) && images'[n] == img;
      forall k: nat, i: nat | k < |images| && i < |images[k].blocks|
        ensures !InRegion(sb, n + 1, |img.blocks|, images[k].blocks[i])
      {
        assert ImageOk(sb, d, images', k) && images'[k] == images[k];
        assert Untouched(sb, images', images'[k].blocks[i]);
      }
    }
  }

  lemma AddImageKeeps(sb: Super, d: Disk, images: seq<Image>, img: Image, k: nat)
    requires AllOk(sb, d, images) && Clear(sb, images, img) && k < |images|
    ensures ImageOk(sb, d, images + [img], k)
  {
    hide IsImage, Distinct, InRegion;
    var images' := images + [img];
    assert ImageOk(sb, d, images, k) && images'[k] == images[k];
    forall i: nat | i < |images'[k].blocks|
      ensures images'[k].blocks[i] < |d| && Untouched(sb, images', images'[k].blocks[i])
    {
      assert Untouched(sb, images, images[k].blocks[i]);
    }
  }

  // ----- which snapshot overwrites live blocks

  /** The snapshot taken after `count` others, of `blocks`, overwrites one of them. */
  ghost predicate OverwritesLive(sb: Super, count: nat, blocks: seq<nat>) {
    exists b :: b in blocks && InRegion(sb, count + 1, |blocks|, b)
  }

  /** The live blocks when the data blocks in use are `m` blocks from `data` on. */
  ghost predicate LiveLayout(sb: Super, data: nat, m: nat, blocks: seq<nat>) {
    forall b :: b in blocks <==>
      b == sb.bitmapStart || sb.tableStart <= b < sb.tableStart + sb.tableBlocks || data <= b < data + m
  }

  /** A snapshot's blocks, `2 * n + 1` from `start` on, meet the `size` blocks from `lo` on. */
  predicate Meets(start: nat, n: nat, lo: nat, size: nat) {
    size > 0 && start < lo + size && lo <= start + 2 * n
  }

  /** When a snapshot overwrites live blocks, from the count and the layout alone. */
  lemma OverwritesLiveIff(sb: Super, count: nat, data: nat, m: nat, blocks: seq<nat>)
    requires LiveLayout(sb, data, m, blocks)
    ensures var start := SnapStart(sb.areaStart, count + 1);
            OverwritesLive(sb, count, blocks) <==>
            || Meets(start, |blocks|, sb.bitmapStart, 1)
            || Meets(start, |blocks|, sb.tableStart, sb.tableBlocks)
            || Meets(start, |blocks|, data, m)
  {
    var start := SnapStart(sb.areaStart, count + 1);
    if Meets(start, |blocks|, sb.bitmapStart, 1) {
      assert sb.bitmapStart in blocks;
    }
    if Meets(start, |blocks|, sb.tableStart, sb.tableBlocks) {
      assert (if start < sb.tableStart then sb.tableStart else start) in blocks;
    }
    if Meets(start, |blocks|, data, m) {
      assert (if start < data then data else start) in blocks;
    }
  }

  /**
   * The layout that `mkimage` writes: superblock, two bitmaps and `t` blocks of inode table, then
   * 256 blocks for snapshots, 32 for the journal, and data.
   */
  predicate MkimageLayout(sb: Super, t: nat) {
    sb.enabled && sb.bitmapStart == 2 && sb.tableStart == 3 && sb.tableBlocks == t && sb.areaStart == 3 + t
  }

  function MkimageJournal(t: nat): nat {
    3 + t + 256
  }

  function MkimageData(t: nat): nat {
    3 + t + 288
  }

  /** The live blocks of such an image: bitmap, table, and data blocks from the root directory's on. */
  ghost predicate MkimageLive(sb: Super, blocks: seq<nat>) {
    var t := sb.tableBlocks;
    && MkimageLayout(sb, t) && t + 2 <= |blocks| <= SLOTS
    && LiveLayout(sb, MkimageData(t), |blocks| - t - 1, blocks)
  }

  /**
   * On such an image only the fifth snapshot harms live blocks, and it does exactly when at least
   * 16 blocks are live; then it overwrites the first data block, which is the root directory.
   */
  lemma MkimageFifthIff(sb: Super, blocks: seq<nat>, count: nat)
    requires MkimageLive(sb, blocks)
    ensures OverwritesLive(sb, count, blocks) <==> count == 4 && |blocks| >= 16
    ensures OverwritesLive(sb, count, blocks) ==> InRegion(sb, count + 1, |blocks|, MkimageData(sb.tableBlocks))
  {
    var t := sb.tableBlocks;
    OverwritesLiveIff(sb, count, MkimageData(t), |blocks| - t - 1, blocks);
    assert count < 4 ==> count * EACH <= 3 * EACH;
    assert count > 4 ==> count * EACH >= 5 * EACH;
  }

  /** It overwrites the journal whatever is live: its header lies there. The first four do not. */
  lemma MkimageFifthHitsJournal(sb: Super, t: nat, n: nat)
    requires MkimageLayout(sb, t)
    ensures InRegion(sb, 5, n, MkimageJournal(t) + 1)
    ensures forall id: nat, b: nat | 1 <= id <= 4 && n <= SLOTS && InRegion(sb, id, n, b) :: b < MkimageJournal(t)
  {
    forall id: nat, b: nat | 1 <= id <= 4 && n <= SLOTS && InRegion(sb, id, n, b)
      ensures b < MkimageJournal(t)
    {
      assert (id - 1) * EACH <= 3 * EACH;
    }
  }

  /** The blocks a snapshot may use there without harm: before the data, or past it. */
  lemma MkimageRegionFree(sb: Super, id: nat, n: nat, blocks: seq<nat>, b: nat)
    requires MkimageLive(sb, blocks) && b in blocks && 1 <= id && n <= SLOTS && (id == 5 ==> n < 16)
    ensures !InRegion(sb, id, n, b) && b != 0 && b != sb.areaStart
  {
    assert id < 5 ==> (id - 1) * EACH <= 3 * EACH;
    assert id > 5 ==> (id - 1) * EACH >= 5 * EACH;
  }

  /**
   * Over a whole run of snapshots of such an image, whatever was live at each: the next one keeps
   * all of them usable unless it is the fifth and at least 16 blocks are live.
   */
  lemma MkimageClearIff(sb: Super, d: Disk, images: seq<Image>, img: Image)
    requires AllOk(sb, d, images) && forall k: nat | k < |images| :: MkimageLive(sb, images[k].blocks)
    requires MkimageLive(sb, img.blocks)
    ensures Clear(sb, images, img) <==> !(|images| == 4 && |img.blocks| >= 16)
  {
    var images', n := images + [img], |images|;
    hide IsImage, Distinct, InRegion, MkimageLayout, LiveLayout;
    if n == 4 && |img.blocks| >= 16 {
      MkimageFifthIff(sb, img.blocks, n);
      var i: nat :| i < |img.blocks| && InRegion(sb, n + 1, |img.blocks|, img.blocks[i]);
      assert images'[n] == img && !Untouched(sb, images', img.blocks[i]);
    } else {
      if n > 4 {
        MkimageFifthSmall(sb, d, images);
      }
      forall j: nat, k: nat, i: nat | j <= n && k <= n && i < |images'[k].blocks|
        ensures !InRegion(sb, j + 1, |images'[j].blocks|, images'[k].blocks[i])
        ensures images'[k].blocks[i] != 0 && images'[k].blocks[i] != sb.areaStart
      {
        assert MkimageLive(sb, images'[j].blocks) && MkimageLive(sb, images'[k].blocks);
        MkimageRegionFree(sb, j + 1, |images'[j].blocks|, images'[k].blocks, images'[k].blocks[i]);
      }
      forall i: nat | i < |img.blocks|
        ensures Untouched(sb, images', img.blocks[i])
      {
        assert images'[n] == img;
      }
      assert forall k: nat | k < n :: images'[k] == images[k];
    }
  }

  /** A fifth image that can be rolled back to captured fewer than 16 blocks. */
  lemma MkimageFifthSmall(sb: Super, d: Disk, images: seq<Image>)
    requires AllOk(sb, d, images) && |images| > 4 && MkimageLive(sb, images[4].blocks)
    ensures |images[4].blocks| < 16
  {
    var blocks := images[4].blocks;
    assert ImageOk(sb, d, images, 4);
    forall b | b in blocks
      ensures !InRegion(sb, 5, |blocks|, b)
    {
      var i: nat :| i < |blocks| && blocks[i] == b;
      assert Untouched(sb, images, blocks[i]);
    }
    MkimageFifthIff(sb, blocks, 4);
  }
}

/** The snapshot code: creating a snapshot and rolling back to one. */
module Snapshots {
  import opened Base
  import opened Disks
  import opened Rle
  import opened SnapshotSpec

  /** None of the blocks lies where the snapshot is stored. */
  predicate Missed(blocks: seq<nat>, start: nat) {
    forall k: nat | k < |blocks| :: !(start <= blocks[k] <= start + 2 * |blocks|)
  }

  /** What creating a snapshot writes: its own blocks, the metadata block and the superblock. */
  predicate Writes(sb: Super, id: nat, n: nat, b: nat)
    requires id >= 1
  {
    InRegion(sb, id, n, b) || b == sb.areaStart || b == 0
  }

  /** A device change within what creating a snapshot writes. */
  ghost predicate WritesOnly(sb: Super, d: Disk, d': Disk, id: nat, n: nat)
    requires id >= 1
  {
    |d'| == |d| && forall b: nat | b < |d| && !Writes(sb, id, n, b) :: d'[b] == d[b]
  }

  predicate OnDevice(blocks: seq<nat>, size: nat) {
    forall k: nat | k < |blocks| :: blocks[k] < size
  }

  /** Nothing stops a snapshot of `blocks`: room on the device and in the metadata block. */
  predicate Fits(sb: Super, size: nat, count: nat, blocks: seq<nat>) {
    && count < MAX_SNAPSHOTS && OnDevice(blocks, size)
    && SnapStart(sb.areaStart, count + 1) + 2 * |blocks| < size
  }

  /** Storing a new snapshot leaves the earlier ones in place. */
  lemma EarlierKept(sb: Super, d: Disk, d': Disk, images: seq<Image>, n: nat)
    requires AllOk(sb, d, images) && |d'| == |d| && n <= SLOTS
    requires forall b: nat | b < |d| && !InRegion(sb, |images| + 1, n, b) :: d'[b] == d[b]
    ensures AllOk(sb, d', images)
  {
    forall k: nat, b: nat | k < |images| && b < |d| && InRegion(sb, k + 1, |images[k].blocks|, b)
      ensures d'[b] == d[b]
    {
      assert ImageOk(sb, d, images, k);
      RegionsDisjoint(sb, k + 1, |images[k].blocks|, |images| + 1, n, b);
    }
    ImagesSurvive(sb, d, d', images);
  }

  /** Metadata and superblock are no part of a snapshot. */
  lemma RegisteredIff(sb: Super, d: Disk, d': Disk, images: seq<Image>, img: Image)
    requires AllOk(sb, d, images) && |d'| == |d| && |images| < MAX_SNAPSHOTS && sb.areaStart > 0
    requires |img.blocks| <= SLOTS && Distinct(img.blocks) && OnDevice(img.blocks, |d|)
    requires Missed(img.blocks, SnapStart(sb.areaStart, |images| + 1)) ==>
             IsImage(d, SnapStart(sb.areaStart, |images| + 1), img)
    requires forall b: nat | 0 < b < |d| && b != sb.areaStart :: d'[b] == d[b]
    ensures AllOk(sb, d', images) && (AllOk(sb, d', images + [img]) <==> Clear(sb, images, img))
  {
    var images', n := images + [img], |images|;
    ImagesSurvive(sb, d, d', images);
    hide IsImage, Distinct;
    if Missed(img.blocks, SnapStart(sb.areaStart, n + 1)) {
      ImageKept(d, d', SnapStart(sb.areaStart, n + 1), img);
      AddImageIff(sb, d', images, img);
    } else {
      var k: nat :| k < |img.blocks| && InRegion(sb, n + 1, |img.blocks|, img.blocks[k]);
      assert images'[n] == img && !Untouched(sb, images', img.blocks[k]);
      assert !ImageOk(sb, d', images', n);
    }
  }

  /** Adds a block number to the list unless it is there; None when the list is full. */
  function Push(found: seq<nat>, b: nat): Option<seq<nat>> {
    Collect(found, [b])
  }

  /** Pushes the direct blocks of one live inode. */
  method PushInode(found: seq<nat>, t: Block, slot: nat) returns (r: Option<seq<nat>>)
    requires slot < INODES_PER_BLOCK
    ensures r == Collect(found, InodeBlocks(t, slot, DIRECT))
  {
    hide Le32At, Collect;
    CollectNothing(found);
    r := Some(found);
    for i := 0 to DIRECT
      invariant r == Collect(found, InodeBlocks(t, slot, i))
    {
      var b := DirectBlock(t, slot, i);
      CollectSplit(found, InodeBlocks(t, slot, i), if b != 0 then [b] else []);
      if r.Some? && b != 0 {
        r := Push(r.value, b);
      } else if r.Some? {
        CollectNothing(r.value);
      }
    }
  }

  lemma CollectNothing(found: seq<nat>)
    ensures Collect(found, []) == Some(found)
  {
  }

  /** Pushes the blocks of the live inodes of one inode-table block. */
  method PushTable(found: seq<nat>, t: Block) returns (r: Option<seq<nat>>)
    ensures r == Collect(found, TableBlocks(t, INODES_PER_BLOCK))
  {
    hide Le32At, Collect;
    CollectNothing(found);
    r := Some(found);
    for slot := 0 to INODES_PER_BLOCK
      invariant r == Collect(found, TableBlocks(t, slot))
    {
      var live := Le32At(t, slot * INODE_SIZE) != 0;
      CollectSplit(found, TableBlocks(t, slot), if live then InodeBlocks(t, slot, DIRECT) else []);
      if r.Some? && live {
        r := PushInode(r.value, t, slot);
      } else if r.Some? {
        CollectNothing(r.value);
      }
    }
  }

  /** Lists the blocks to capture: the inode table, the bitmap, and the blocks of live inodes. */
  method Enumerate(sb: Super, d: Disk) returns (r: Option<seq<nat>>)
    requires sb.tableStart + sb.tableBlocks <= |d|
    ensures r == Collect([], Candidates(sb, d))
  {
    hide Collect, TableBlocks;
    CollectNothing([]);
    r := Some([]);
    for i := 0 to sb.tableBlocks
      invariant r == Collect([], Consecutive(sb.tableStart, i))
    {
      CollectSplit([], Consecutive(sb.tableStart, i), [sb.tableStart + i]);
      assert Consecutive(sb.tableStart, i + 1) == Consecutive(sb.tableStart, i) + [sb.tableStart + i];
      if r.Some? {
        r := Push(r.value, sb.tableStart + i);
      }
    }
    ghost var fixed := Consecutive(sb.tableStart, sb.tableBlocks) + [sb.bitmapStart];
    CollectSplit([], Consecutive(sb.tableStart, sb.tableBlocks), [sb.bitmapStart]);
    if r.Some? {
      r := Push(r.value, sb.bitmapStart);
    }
    assert fixed + LiveBlocks(sb, d, 0) == fixed;
    for n := 0 to sb.tableBlocks
      invariant r == Collect([], fixed + LiveBlocks(sb, d, n))
    {
      ghost var more := TableBlocks(d[sb.tableStart + n], INODES_PER_BLOCK);
      CollectSplit([], fixed + LiveBlocks(sb, d, n), more);
      assert fixed + LiveBlocks(sb, d, n + 1) == (fixed + LiveBlocks(sb, d, n)) + more;
      if r.Some? {
        r := PushTable(r.value, d[sb.tableStart + n]);
      }
    }
  }

  /** A header block for `n` captured blocks: the count, then number and stored size of each. */
  method Header(blocks: seq<nat>, sizes: seq<nat>) returns (h: Block)
    requires |blocks| == |sizes| <= SLOTS
    requires forall k: nat | k < |blocks| :: blocks[k] < 0x1_0000_0000 && sizes[k] < 0x1_0000_0000
    ensures Le32At(h, 0) == |blocks|
    ensures forall k: nat | k < |blocks| :: Le32At(h, 4 + 8 * k) == blocks[k] && Le32At(h, 8 + 8 * k) == sizes[k]
  {
    hide Le32At, PutLe32;
    PutGet(ZeroBlock(), 0, |blocks|, 0);
    h := PutLe32(ZeroBlock(), 0, |blocks|);
    for i := 0 to |blocks|
      invariant Le32At(h, 0) == |blocks|
      invariant forall k: nat | k < i :: Le32At(h, 4 + 8 * k) == blocks[k] && Le32At(h, 8 + 8 * k) == sizes[k]
    {
      h := PutEntry(h, i, blocks[i], sizes[i]);
    }
  }

  method PutEntry(h: Block, i: nat, block: nat, size: nat) returns (h': Block)
    requires i < SLOTS && block < 0x1_0000_0000 && size < 0x1_0000_0000
    ensures Le32At(h', 0) == Le32At(h, 0) && Le32At(h', 4 + 8 * i) == block && Le32At(h', 8 + 8 * i) == size
    ensures forall k: nat | k < i ::
            Le32At(h', 4 + 8 * k) == Le32At(h, 4 + 8 * k) && Le32At(h', 8 + 8 * k) == Le32At(h, 8 + 8 * k)
  {
    hide Le32At, PutLe32;
    var h1 := PutLe32(h, 4 + 8 * i, block);
    h' := PutLe32(h1, 8 + 8 * i, size);
    forall off: nat | off + 4 <= BLOCK_SIZE
      && ((off < 4 + 8 * i && off % 4 == 0) || off == 4 + 8 * i || off == 8 + 8 * i)
      ensures Le32At(h', off) == if off == 8 + 8 * i then size else if off == 4 + 8 * i then block else Le32At(h, off)
    {
      PutGet(h, 4 + 8 * i, block, off);
      PutGet(h1, 8 + 8 * i, size, off);
    }
  }

  class Snapshots {
    const sb: Super
    var count: nat
    var disk: Disk
    /** What each snapshot captured. */
    ghost var images: seq<Image>
    /** The blocks written so far. */
    ghost var written: set<nat>

    ghost predicate Valid()
      reads this
    {
      |images| == count && AllOk(sb, disk, images)
    }

    constructor (sb: Super, disk: Disk)
      requires |disk| <= 0x1_0000_0000
      ensures Valid() && this.sb == sb && this.disk == disk && count == 0 && written == {}
    {
      this.sb, this.disk, this.count, this.images, this.written := sb, disk, 0, [], {};
    }

    method WriteBlock(b: nat, x: Block) returns (ok: bool)
      modifies this`disk, this`written
      ensures ok == (b < old(|disk|))
      ensures disk == if ok then old(disk)[b := x] else old(disk)
      ensures written == old(written) + if ok then {b} else {}
    {
      ok := b < |disk|;
      if ok {
        disk := disk[b := x];
        written := written + {b};
      }
    }

    /** Any write by the rest of the filesystem to a block no snapshot uses keeps every snapshot. */
    method WriteOutside(b: nat, x: Block)
      requires Valid() && b < |disk| && forall k: nat | k < |images| :: !InRegion(sb, k + 1, |images[k].blocks|, b)
      modifies this`disk
      ensures Valid() && disk == old(disk)[b := x]
    {
      ImagesSurvive(sb, disk, disk[b := x], images);
      disk := disk[b := x];
    }

    /** Compresses a block into its two-block slot. It always fits, so it is never stored raw. */
    method StoreBlock(x: Block, comp: array<Byte>, slot: nat) returns (ok: bool, size: nat)
      requires comp.Length == 2 * BLOCK_SIZE
      modifies this`disk, this`written, comp
      ensures ok == (slot + 1 < old(|disk|)) && |disk| == old(|disk|)
      ensures size == |Compress(x, 0)| && 0 < size <= BLOCK_SIZE + 32
      ensures ok ==> Compress(x, 0) <= SlotBytes(disk, slot) && written == old(written) + {slot, slot + 1}
      ensures written <= old(written) + {slot, slot + 1}
      ensures forall b: nat | b < |disk| && b != slot && b != slot + 1 :: disk[b] == old(disk)[b]
    {
      SizeBound(x, 0);
      FormNotEmpty(x);
      hide Compress;
      size := RleCompress(x, comp);
      ok := WriteBlock(slot, comp[..BLOCK_SIZE]);
      if ok {
        ok := WriteBlock(slot + 1, comp[BLOCK_SIZE..]);
      }
      assert comp[..] == comp[..BLOCK_SIZE] + comp[BLOCK_SIZE..];
    }

    /**
     * Stores every captured block of a snapshot. It writes exactly the slots, whatever lies there;
     * what it stores is what the blocks held before if none of them lies there.
     */
    method StoreAll(blocks: seq<nat>, start: nat) returns (ok: bool, sizes: seq<nat>)
      requires |blocks| <= SLOTS
      modifies this`disk, this`written
      ensures |disk| == old(|disk|)
      ensures forall b: nat | b < |disk| && !(start < b <= start + 2 * |blocks|) :: disk[b] == old(disk)[b]
      ensures forall b | b in written :: b in old(written) || start < b <= start + 2 * |blocks|
      ensures ok ==> forall b: nat | b in old(written) || start < b <= start + 2 * |blocks| :: b in written
      ensures ok <==> (blocks == [] || start + 2 * |blocks| < |disk|) && OnDevice(blocks, |disk|)
      ensures ok ==> |sizes| == |blocks| && forall k: nat | k < |blocks| :: sizes[k] <= BLOCK_SIZE + 32
      ensures ok && Missed(blocks, start) ==> forall k: nat | k < |blocks| ::
                && sizes[k] == |Compress(old(disk)[blocks[k]], 0)|
                && Compress(old(disk)[blocks[k]], 0) <= SlotBytes(disk, SlotStart(start, k))
    {
      hide Compress;
      var comp := new Byte[2 * BLOCK_SIZE](_ => 0);
      sizes := [];
      for i := 0 to |blocks|
        invariant |sizes| == i && |disk| == old(|disk|)
        invariant forall b: nat | b < |disk| && !(start < b <= start + 2 * i) :: disk[b] == old(disk)[b]
        invariant forall b: nat :: b in written <==> b in old(written) || start < b <= start + 2 * i
        invariant i == 0 || start + 1 + 2 * i <= |disk|
        invariant forall k: nat | k < i :: blocks[k] < |disk| && sizes[k] <= BLOCK_SIZE + 32
        invariant Missed(blocks, start) ==> forall k: nat | k < i ::
                    && sizes[k] == |Compress(old(disk)[blocks[k]], 0)|
                    && Compress(old(disk)[blocks[k]], 0) <= SlotBytes(disk, SlotStart(start, k))
      {
        if blocks[i] >= |disk| {
          return false, sizes;
        }
        var stored, size := StoreBlock(disk[blocks[i]], comp, SlotStart(start, i));
        if !stored {
          return false, sizes;
        }
        sizes := sizes + [size];
      }
      return true, sizes;
    }

    /** The image stored by a run of `StoreAll` and a header is the image of the captured blocks. */
    lemma StoredImage(d: Disk, blocks: seq<nat>, sizes: seq<nat>, start: nat)
      requires |blocks| == |sizes| <= SLOTS && start + 1 + 2 * |blocks| <= |disk|
      requires forall k: nat | k < |blocks| :: blocks[k] < |d|
      requires Le32At(disk[start], 0) == |blocks|
      requires forall k: nat | k < |blocks| ::
                 && Le32At(disk[start], 4 + 8 * k) == blocks[k] && Le32At(disk[start], 8 + 8 * k) == sizes[k]
      requires forall k: nat | k < |blocks| ::
                 && sizes[k] == |Compress(d[blocks[k]], 0)|
                 && Compress(d[blocks[k]], 0) <= SlotBytes(disk, SlotStart(start, k))
      ensures IsImage(disk, start, Captured(d, blocks))
    {
      hide Compress, Le32At;
      var img := Captured(d, blocks);
      forall k: nat | k < |img.blocks|
        ensures Holds(disk, start, img, k)
      {
        assert img.contents[k] == d[blocks[k]];
      }
    }

    /** Stores the captured blocks and the header of the next snapshot. */
    method StoreImage(blocks: seq<nat>, start: nat) returns (ok: bool)
      requires |disk| <= 0x1_0000_0000 && |blocks| <= SLOTS
      modifies this`disk, this`written
      ensures |disk| == old(|disk|)
      ensures ok <==> start + 2 * |blocks| < |disk| && OnDevice(blocks, |disk|)
      ensures forall b: nat | b < |disk| && !(start <= b <= start + 2 * |blocks|) :: disk[b] == old(disk)[b]
      ensures forall b | b in written :: b in old(written) || start <= b <= start + 2 * |blocks|
      ensures ok ==> forall b: nat | b in old(written) || start <= b <= start + 2 * |blocks| :: b in written
      ensures ok && Missed(blocks, start) ==> IsImage(disk, start, Captured(old(disk), blocks))
    {
      hide Compress, Le32At;
      var sizes;
      ok, sizes := StoreAll(blocks, start);
      if !ok {
        return;
      }
      var header := Header(blocks, sizes);
      ok := WriteBlock(start, header);
      if ok && Missed(blocks, start) {
        StoredImage(old(disk), blocks, sizes, start);
      }
    }

    /** The blocks a snapshot taken now would capture. */
    ghost function ToCapture(): Option<seq<nat>>
      requires sb.tableStart + sb.tableBlocks <= |disk|
      reads this
    {
      Collect([], Candidates(sb, disk))
    }

    /**
     * Creates a snapshot of every live block. Success adds the image of those blocks as they are
     * now, and every snapshot can be rolled back to exactly when there was room for it. It writes
     * exactly its header, the slots it uses, the metadata block and the superblock, live or not; a
     * failure leaves all earlier snapshots as they were.
     */
    method SnapshotCreate(meta: seq<Byte>, super: Block) returns (r: Result<nat>)
      requires Valid() && |meta| == 64 && sb.tableStart + sb.tableBlocks <= |disk|
      modifies this
      ensures |disk| == old(|disk|) && AllOk(sb, disk, old(images))
      ensures r == Err(NoSys) <==> sb.areaStart == 0 || !sb.enabled
      ensures r.Err? ==> Valid() && images == old(images) && count == old(count)
      ensures r.Ok? <==>
                && sb.areaStart > 0 && sb.enabled && old(ToCapture()).Some?
                && Fits(sb, |disk|, old(count), old(ToCapture()).value)
      ensures r.Ok? ==> r.value == count && Added(old(disk), old(images), old(written), old(ToCapture()).value)
      ensures r.Ok? ==> disk[0] == super && RecordPut(old(disk)[sb.areaStart], disk[sb.areaStart], old(count), meta)
      ensures old(ToCapture()).Some? ==> WritesOnly(sb, old(disk), disk, old(count) + 1, |old(ToCapture()).value|)
      ensures old(ToCapture()).None? ==> disk == old(disk) && written == old(written)
    {
      if sb.areaStart == 0 || !sb.enabled {
        return Err(NoSys);
      }
      var found := Enumerate(sb, disk);
      if found.None? {
        return Err(NoMem);
      }
      CollectExact([], Candidates(sb, disk));
      hide *;
      r := Store(found.value, meta, super);
    }

    /** The state that a snapshot of `blocks` leaves when it succeeds. */
    ghost predicate Added(d: Disk, before: seq<Image>, wrote: set<nat>, blocks: seq<nat>)
      reads this
    {
      var img := Captured(d, blocks);
      && count == |before| + 1 && images == before + [img]
      && (Valid() <==> Clear(sb, before, img))
      && forall b: nat :: b in written <==> b in wrote || Writes(sb, count, |blocks|, b)
    }

    /** Stores a snapshot of the listed blocks and records it. */
    method Store(blocks: seq<nat>, meta: seq<Byte>, super: Block) returns (r: Result<nat>)
      requires Valid() && |meta| == 64 && sb.areaStart > 0 && |blocks| <= SLOTS && Distinct(blocks)
      modifies this
      ensures |disk| == old(|disk|) && AllOk(sb, disk, old(images)) && r != Err(NoSys)
      ensures r.Err? ==> Valid() && images == old(images) && count == old(count)
      ensures r.Ok? <==> Fits(sb, |disk|, old(count), blocks)
      ensures r.Ok? ==> r.value == count && Added(old(disk), old(images), old(written), blocks)
      ensures r.Ok? ==> disk[0] == super && RecordPut(old(disk)[sb.areaStart], disk[sb.areaStart], old(count), meta)
      ensures WritesOnly(sb, old(disk), disk, old(count) + 1, |blocks|)
    {
      assert |disk| <= 0x1_0000_0000 && |images| <= MAX_SNAPSHOTS;
      hide AllOk, Clear, Captured, IsImage, Distinct, Missed;
      var start := SnapStart(sb.areaStart, count + 1);
      var stored := StoreImage(blocks, start);
      EarlierKept(sb, old(disk), disk, images, |blocks|);
      if !stored {
        return Err(Io);
      }
      if count * 64 + 64 > BLOCK_SIZE {
        return Err(NoMem);
      }
      Register(Captured(old(disk), blocks), meta, super);
      return Ok(count);
    }

    /** Records a stored image: its metadata, the count, and the superblock. */
    method Register(ghost img: Image, meta: seq<Byte>, super: Block)
      requires Valid() && |meta| == 64 && count < MAX_SNAPSHOTS && 0 < sb.areaStart < |disk|
      requires |img.blocks| <= SLOTS && Distinct(img.blocks) && OnDevice(img.blocks, |disk|)
      requires Missed(img.blocks, SnapStart(sb.areaStart, count + 1)) ==>
               IsImage(disk, SnapStart(sb.areaStart, count + 1), img)
      modifies this
      ensures count == old(count) + 1 && images == old(images) + [img] && |disk| == old(|disk|)
      ensures AllOk(sb, disk, old(images)) && (Valid() <==> Clear(sb, old(images), img))
      ensures written == old(written) + {sb.areaStart, 0}
      ensures disk[0] == super && RecordPut(old(disk)[sb.areaStart], disk[sb.areaStart], old(count), meta)
      ensures forall b: nat | 0 < b < |disk| && b != sb.areaStart :: disk[b] == old(disk)[b]
    {
      var _ := WriteBlock(sb.areaStart, WithMeta(disk[sb.areaStart], count * 64, meta));
      var _ := WriteBlock(0, super);
      RegisteredIff(sb, old(disk), disk, images, img);
      count, images := count + 1, images + [img];
    }

    /** Reads one slot back: raw when its stored size is 4096, decompressed otherwise. */
    method ReadSlot(slot: nat, size: nat, ghost x: Block) returns (out: array<Byte>, ok: bool)
      requires slot + 1 < |disk| && size == |Compress(x, 0)| && Compress(x, 0) <= SlotBytes(disk, slot)
      ensures fresh(out) && out.Length == BLOCK_SIZE && ok && out[..] == Restored(x)
    {
      var comp := SlotBytes(disk, slot);
      out := new Byte[BLOCK_SIZE](_ => 0);
      if size == BLOCK_SIZE {
        PutBytes(comp, 0, BLOCK_SIZE, out, 0);
        assert out[..] == out[..BLOCK_SIZE] == comp[0..BLOCK_SIZE];
        ok := true;
      } else {
        RoundTrip(x, BLOCK_SIZE);
        hide Compress, Expand;
        assert comp[..size] == Compress(x, 0);
        var dec := RleDecompress(comp[..size], out);
        ok := dec == BLOCK_SIZE;
        assert out[..] == out[..BLOCK_SIZE];
      }
    }

    /** Writes captured block `i` back, reading its slot, which is as in `d`. */
    method RestoreOne(start: nat, i: nat, header: Block, ghost img: Image, ghost d: Disk) returns (ok: bool)
      requires i < SLOTS && start + 1 + 2 * (i + 1) <= |d| == |disk| && i < |img.blocks| == |img.contents|
      requires Holds(d, start, img, i) && header == d[start] && img.blocks[i] < |disk|
      requires disk[SlotStart(start, i)] == d[SlotStart(start, i)]
               && disk[SlotStart(start, i) + 1] == d[SlotStart(start, i) + 1]
      modifies this`disk, this`written
      ensures ok && disk == old(disk)[img.blocks[i] := Restored(img.contents[i])]
    {
      hide Compress, Le32At, Restored, SlotBytes;
      SlotKept(d, disk, SlotStart(start, i));
      var out;
      out, ok := ReadSlot(SlotStart(start, i), Le32At(header, 8 + 8 * i), img.contents[i]);
      if ok {
        ok := WriteBlock(Le32At(header, 4 + 8 * i), out[..]);
      }
    }

    /** Writes the first `n` captured blocks back. */
    method WriteBack(start: nat, n: nat, header: Block, ghost img: Image) returns (ok: bool)
      requires IsImage(disk, start, img) && header == disk[start] && n == |img.blocks|
      requires forall k: nat | k < n :: img.blocks[k] < |disk| && !(start <= img.blocks[k] <= start + 2 * n)
      modifies this`disk, this`written
      ensures ok && disk == Rolled(old(disk), img, n)
      ensures forall b: nat | b < |disk| && b !in img.blocks :: disk[b] == old(disk)[b]
    {
      hide Compress, Le32At, Restored, SlotBytes;
      for i := 0 to n
        invariant |disk| == old(|disk|) && disk == Rolled(old(disk), img, i)
        invariant forall b: nat | b < |disk| && b !in img.blocks :: disk[b] == old(disk)[b]
      {
        assert Holds(old(disk), start, img, i);
        ok := RestoreOne(start, i, header, img, old(disk));
        if !ok {
          return;
        }
      }
      ok := true;
    }

    /**
     * Rolls back to a snapshot: every captured block is written back, nothing else changes, and
     * every snapshot stays usable.
     */
    method SnapshotRollback(id: nat) returns (r: Result<()>)
      requires Valid()
      modifies this`disk, this`written
      ensures Valid()
      ensures r.Err? ==> disk == old(disk)
      ensures r == Err(NoSys) <==> sb.areaStart == 0
      ensures r == Err(NoEnt) <==> sb.areaStart > 0 && (id == 0 || id > count)
      ensures r.Ok? <==> sb.areaStart > 0 && 1 <= id <= count
      ensures r.Ok? ==>
                && ImageOk(sb, old(disk), images, id - 1)
                && disk == Rolled(old(disk), images[id - 1], |images[id - 1].blocks|)
    {
      if sb.areaStart == 0 {
        return Err(NoSys);
      }
      if id == 0 || id > count {
        return Err(NoEnt);
      }
      var start := SnapStart(sb.areaStart, id);
      ghost var img := images[id - 1];
      assert ImageOk(sb, disk, images, id - 1);
      var header := disk[start];
      var n := Le32At(header, 0);
      if n > SLOTS {
        return Err(Io);
      }
      hide Compress, Le32At, IsImage, AllOk, Distinct, Rolled;
      var ok := WriteBack(start, n, header, img);
      if !ok {
        return Err(Io);
      }
      ImagesSurvive(sb, old(disk), disk, images);
      return Ok(());
    }

    lemma SlotKept(d: Disk, d': Disk, slot: nat)
      requires |d| == |d'| && slot + 1 < |d| && d'[slot] == d[slot] && d'[slot + 1] == d[slot + 1]
      ensures SlotBytes(d', slot) == SlotBytes(d, slot)
    {
    }
  }

  /** A metadata block with one record replaced. */
  function WithMeta(b: Block, off: nat, meta: seq<Byte>): Block
    requires |meta| == 64 && off + 64 <= BLOCK_SIZE
  {
    b[..off] + meta + b[off + 64..]
  }

  /** Record `k` of a metadata block holds `meta`; the other records are as before. */
  predicate RecordPut(b: Block, b': Block, k: nat, meta: seq<Byte>) {
    && k < 64 == |meta| && b'[64 * k..64 * k + 64] == meta
    && forall i: nat | i < 4096 && !(64 * k <= i < 64 * k + 64) :: b'[i] == b[i]
  }

  lemma FormNotEmpty(x: Block)
    ensures |Compress(x, 0)| > 0
  {
    SecondByte(x, 0);
  }
}
