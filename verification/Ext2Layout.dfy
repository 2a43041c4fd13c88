/** On-disk layout of the ext2 write driver: geometry, bitmaps, inode records,
    and the tree of block pointers that hangs from every inode. */
module Ext2Layout {
  import opened Bytes

  const BLOCK_SIZE := 1024
  const BLOCKS_PER_GROUP := 8192
  const INODES_PER_GROUP := 2048
  const INODE_SIZE := 128
  const MAX_GROUPS := 256
  const PPB := 256           // pointers per block
  const S_IFDIR := 0x4000
  const S_IFREG := 0x8000

  type Block = b: seq<byte> | |b| == BLOCK_SIZE witness Zeros(BLOCK_SIZE)
  type Disk = seq<Block>

  function ZeroBlock(): (b: Block)
    ensures forall i | 0 <= i < BLOCK_SIZE :: b[i] == 0
  {
    Zeros(BLOCK_SIZE)
  }

  // ---- geometry ----

  /** The superblock fields and group tables cached by a mount. */
  datatype Mount = Mount(
    inodesCount: u32, blocksCount: u32, firstDataBlock: u32, blocksPerGroup: u32,
    inodesPerGroup: u32, inodeSize: u32, revLevel: u32, blockSize: u32, ngroups: nat,
    blockBitmap: seq<u32>, inodeBitmap: seq<u32>, inodeTable: seq<u32>)

  function Groups(blocks: nat): nat {
    (blocks + BLOCKS_PER_GROUP - 1) / BLOCKS_PER_GROUP
  }

  function GdtBlocks(groups: nat): nat {
    (groups * 32 + BLOCK_SIZE - 1) / BLOCK_SIZE
  }

  /** First block of group g's 258-block metadata run. */
  function MetaBase(m: Mount, g: nat): nat {
    2 + GdtBlocks(m.ngroups) + g * 258
  }

  /** First block past all metadata. */
  function MetaEnd(m: Mount): nat {
    2 + GdtBlocks(m.ngroups) + m.ngroups * 258
  }

  /** The layout mkfs produces and the write driver requires. */
  ghost predicate MkfsGeometry(m: Mount) {
    && m.firstDataBlock == 1 && m.blocksPerGroup == BLOCKS_PER_GROUP
    && m.inodesPerGroup == INODES_PER_GROUP && m.inodeSize == INODE_SIZE
    && m.revLevel == 1 && m.blockSize == BLOCK_SIZE
    && m.ngroups == Groups(m.blocksCount) && 1 <= m.ngroups <= MAX_GROUPS
    && m.inodesCount == m.ngroups * INODES_PER_GROUP
    && MetaEnd(m) + 2 < m.blocksCount
    && |m.blockBitmap| == |m.inodeBitmap| == |m.inodeTable| == m.ngroups
    && forall g {:trigger m.blockBitmap[g]} {:trigger m.inodeBitmap[g]} {:trigger m.inodeTable[g]} |
      0 <= g < m.ngroups ::
         m.blockBitmap[g] == MetaBase(m, g) && m.inodeBitmap[g] == MetaBase(m, g) + 1
           && m.inodeTable[g] == MetaBase(m, g) + 2
  }

  /** A mkfs-shaped file system on a device that holds all its blocks. */
  ghost predicate Mounted(m: Mount, d: Disk) {
    MkfsGeometry(m) && m.blocksCount <= |d|
  }

  // ---- bitmaps ----

  /** Is block b marked used? Bit i of group g stands for block 1 + g * 8192 + i. */
  ghost predicate Used(m: Mount, d: Disk, b: nat)
    requires Mounted(m, d) && 1 <= b < m.blocksCount
  {
    TestBit(d[m.blockBitmap[(b - 1) / BLOCKS_PER_GROUP]], (b - 1) % BLOCKS_PER_GROUP)
  }

  /** Is inode ino marked used? Bit i of group g stands for inode g * 2048 + i + 1. */
  ghost predicate InodeUsed(m: Mount, d: Disk, ino: nat)
    requires Mounted(m, d) && 1 <= ino <= m.inodesCount
  {
    TestBit(d[m.inodeBitmap[(ino - 1) / INODES_PER_GROUP]], (ino - 1) % INODES_PER_GROUP)
  }

  // ---- inodes ----

  datatype InodeFields = InodeFields(mode: u16, size: u32, block: seq<u32>)
  type Inode = i: InodeFields | |i.block| == 15 witness InodeFields(0, 0, [0,0,0,0,0,0,0,0,0,0,0,0,0,0,0])

  function EmptyInode(mode: u16): Inode {
    InodeFields(mode, 0, [0,0,0,0,0,0,0,0,0,0,0,0,0,0,0])
  }

  predicate IsDir(i: Inode) { i.mode / S_IFDIR % 2 == 1 }
  predicate IsReg(i: Inode) { i.mode / S_IFREG % 2 == 1 }

  function DecodeInode(b: Block, off: nat): Inode
    requires off + INODE_SIZE <= BLOCK_SIZE
  {
    InodeFields(Le16(b, off), Le32(b, off + 4),
      seq(15, i requires 0 <= i < 15 => Le32(b, off + 40 + 4 * i)))
  }

  /** Patch an inode record in its table block. */
  function EncodeInode(b: Block, off: nat, i: Inode): (r: Block)
    requires off + INODE_SIZE <= BLOCK_SIZE
    ensures DecodeInode(r, off) == i
    ensures forall k {:trigger r[k]} {:trigger b[k]} | 0 <= k < BLOCK_SIZE && !(off <= k < off + INODE_SIZE) ::
      r[k] == b[k]
  {
    PutWords(Put32(Put16(b, off, i.mode), off + 4, i.size), off + 40, i.block)
  }

  /** Where an inode lives: table block and byte offset. */
  function InodeBlock(m: Mount, ino: nat): nat
    requires MkfsGeometry(m) && 1 <= ino <= m.inodesCount
  {
    m.inodeTable[(ino - 1) / INODES_PER_GROUP] + (ino - 1) % INODES_PER_GROUP * INODE_SIZE / BLOCK_SIZE
  }

  function InodeOffset(ino: nat): (r: nat)
    requires 1 <= ino
    ensures r + INODE_SIZE <= BLOCK_SIZE
  {
    (ino - 1) % INODES_PER_GROUP * INODE_SIZE % BLOCK_SIZE
  }

  function InodeAt(m: Mount, d: Disk, ino: nat): Inode
    requires Mounted(m, d) && 1 <= ino <= m.inodesCount
  {
    DecodeInode(d[InodeBlock(m, ino)], InodeOffset(ino))
  }

  // ---- where the metadata lies ----

  lemma InodePlace(m: Mount, ino: nat)
    requires MkfsGeometry(m) && 1 <= ino <= m.inodesCount
    ensures var g := (ino - 1) / INODES_PER_GROUP;
            g < m.ngroups && MetaBase(m, g) + 2 <= InodeBlock(m, ino) < MetaBase(m, g + 1) <= MetaEnd(m)
  {
  }

  lemma TableIndex(k: nat)
    ensures k * INODE_SIZE / BLOCK_SIZE == k / 8 && k * INODE_SIZE % BLOCK_SIZE == k % 8 * INODE_SIZE
  {
  }

  /** Inode records never overlap: two inodes in one table block lie at least a record apart. */
  lemma InodesApart(m: Mount, i: nat, j: nat)
    requires MkfsGeometry(m) && 1 <= i <= m.inodesCount && 1 <= j <= m.inodesCount && i != j
    ensures InodeBlock(m, i) != InodeBlock(m, j)
         || InodeOffset(i) + INODE_SIZE <= InodeOffset(j) || InodeOffset(j) + INODE_SIZE <= InodeOffset(i)
  {
    var g, h, k, l := (i - 1) / INODES_PER_GROUP, (j - 1) / INODES_PER_GROUP, (i - 1) % INODES_PER_GROUP,
      (j - 1) % INODES_PER_GROUP;
    TableIndex(k);
    TableIndex(l);
    assert i == g * INODES_PER_GROUP + k + 1 && j == h * INODES_PER_GROUP + l + 1;
    if g == h && k / 8 == l / 8 { assert k % 8 != l % 8; }
  }
}
