/** Disk blocks, as the filesystem drivers see them. */
module Disks {
  import opened Base

  const BLOCK_SIZE := 4096

  function ZeroBytes(n: nat): (z: seq<Byte>)
    ensures |z| == n && forall i: nat | i < n :: z[i] == 0
  {
    seq(n, i => 0)
  }

  type Block = b: seq<Byte> | |b| == BLOCK_SIZE witness ZeroBytes(BLOCK_SIZE)

  function ZeroBlock(): Block {
    ZeroBytes(BLOCK_SIZE)
  }

  /** The device: block number to contents. */
  type Disk = seq<Block>

  /** Inodes are 128 bytes long and have ten direct blocks. */
  const INODE_SIZE := 128
  const INODES_PER_BLOCK := 32
  const DIRECT := 10

  // ----- words in a block

  function Le32At(b: Block, off: nat): nat
    requires off + 4 <= BLOCK_SIZE
  {
    Le32(b[off..off + 4])
  }

  function PutLe32(b: Block, off: nat, w: nat): Block
    requires off + 4 <= BLOCK_SIZE && w < 0x1_0000_0000
  {
    b[..off] + ToLe32(w) + b[off + 4..]
  }

  lemma PutGet(b: Block, off: nat, w: nat, off': nat)
    requires off + 4 <= BLOCK_SIZE && off' + 4 <= BLOCK_SIZE && w < 0x1_0000_0000
    requires off' == off || off' + 4 <= off || off + 4 <= off'
    ensures Le32At(PutLe32(b, off, w), off') == if off' == off then w else Le32At(b, off')
  {
    var p := PutLe32(b, off, w);
    if off' == off {
      assert p[off'..off' + 4] == ToLe32(w);
      Le32RoundTrip(w);
    } else {
      assert p[off'..off' + 4] == b[off'..off' + 4];
    }
  }
}
