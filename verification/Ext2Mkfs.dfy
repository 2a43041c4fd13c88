/** Formatting a device, and probing what was written. */
module Ext2Mkfs {
  import opened Bytes
  import opened Ext2Layout
  import opened Ext2View
  import opened Ext2Alloc
  import opened Ext2Dir
  import opened Ext2Fs
  import opened Ext2Driver
  import opened Ext2Load
  import opened Ext2Run

  const SUPER_MAGIC := 0xEF53
  const ROOT_INO := 2
  const LOSTFOUND_INO := 11

  /** "lost+found" */
  const LOSTFOUND: seq<byte> := [108, 111, 115, 116, 43, 102, 111, 117, 110, 100]

  /** The mount record of a freshly formatted device of so many blocks. */
  function MkfsMount(blocks: u32): Mount
    requires Groups(blocks) <= MAX_GROUPS
  {
    var n := Groups(blocks);
    var base := 2 + GdtBlocks(n);
    Mount(n * INODES_PER_GROUP, blocks, 1, BLOCKS_PER_GROUP, INODES_PER_GROUP, INODE_SIZE, 1, BLOCK_SIZE, n,
      seq(n, g requires 0 <= g < n => base + g * 258),
      seq(n, g requires 0 <= g < n => base + g * 258 + 1),
      seq(n, g requires 0 <= g < n => base + g * 258 + 2))
  }

  /** Devices of at least 8 MiB always have room for their metadata. */
  lemma MkfsFits(blocks: u32)
    requires 8192 <= blocks && Groups(blocks) <= MAX_GROUPS
    ensures MkfsGeometry(MkfsMount(blocks))
  {
  }

  /** Block bitmap of group g: metadata, the two directory blocks, and everything past the end. */
  ghost predicate BlockBitmapIs(m: Mount, g: nat, bm: Block) {
    forall i | 0 <= i < BLOCKS_PER_GROUP :: var b := 1 + g * BLOCKS_PER_GROUP + i;
      TestBit(bm, i) == (b >= m.blocksCount || b < MetaEnd(m) + 2)
  }

  method BlockBitmap(m: Mount, g: nat) returns (bm: Block)
    requires MkfsGeometry(m)
    ensures BlockBitmapIs(m, g, bm)
  {
    bm := ZeroBlock();
    ZeroBits();
    for i := 0 to BLOCKS_PER_GROUP
      invariant forall j | 0 <= j < BLOCKS_PER_GROUP ::
        var b := 1 + g * BLOCKS_PER_GROUP + j; TestBit(bm, j) == (j < i && (b >= m.blocksCount || b < MetaEnd(m) + 2))
    {
      var b := m.firstDataBlock + g * m.blocksPerGroup + i;
      if b >= m.blocksCount {
        bm := SetBit(bm, i);
      } else if b < MetaEnd(m) + 2 {
        bm := SetBit(bm, i);
      }
    }
  }

  lemma ZeroBits()
    ensures forall j | 0 <= j < 8 * BLOCK_SIZE :: !TestBit(ZeroBlock(), j)
  {
    forall j | 0 <= j < 8 * BLOCK_SIZE ensures !TestBit(ZeroBlock(), j) { NoBit(j % 8); }
  }

  lemma {:induction false} NoBit(k: nat)
    ensures !Bit(0, k)
  {
    if k != 0 { NoBit(k - 1); }
  }

  /** Inode bitmap of group g: inodes 1 .. 11 of group 0. */
  ghost predicate InodeBitmapIs(g: nat, bm: Block) {
    forall i | 0 <= i < BLOCKS_PER_GROUP :: TestBit(bm, i) == (g == 0 && i < LOSTFOUND_INO)
  }

  method InodeBitmap(g: nat) returns (bm: Block)
    ensures InodeBitmapIs(g, bm)
  {
    bm := ZeroBlock();
    ZeroBits();
    if g == 0 {
      for i := 0 to LOSTFOUND_INO
        invariant forall j | 0 <= j < BLOCKS_PER_GROUP :: TestBit(bm, j) == (j < i)
      {
        bm := SetBit(bm, i);
      }
    }
  }

  // ---- group descriptors ----

  /** Block b holds the descriptor of group g. */
  ghost predicate DescIs(m: Mount, g: nat, b: Block)
    requires g < |m.blockBitmap| == |m.inodeBitmap| == |m.inodeTable|
  {
    var off := g % 32 * 32;
    Le32(b, off) == m.blockBitmap[g] && Le32(b, off + 4) == m.inodeBitmap[g] && Le32(b, off + 8) == m.inodeTable[g]
  }

  method PutDesc(m: Mount, g: nat, b: Block) returns (b': Block)
    requires g < |m.blockBitmap| == |m.inodeBitmap| == |m.inodeTable|
    ensures DescIs(m, g, b')
    ensures forall i | 0 <= i < BLOCK_SIZE && !(g % 32 * 32 <= i < g % 32 * 32 + 12) :: b'[i] == b[i]
  {
    var off := g * 32 % BLOCK_SIZE;
    assert off == g % 32 * 32;
    b' := Put32(b, off, m.blockBitmap[g]);
    b' := Put32(b', off + 4, m.inodeBitmap[g]);
    b' := Put32(b', off + 8, m.inodeTable[g]);
  }

  lemma DescFrame(m: Mount, g: nat, h: nat, b: Block, b': Block)
    requires h < |m.blockBitmap| == |m.inodeBitmap| == |m.inodeTable| && h % 32 != g % 32 && DescIs(m, h, b)
    requires forall i | 0 <= i < BLOCK_SIZE && !(g % 32 * 32 <= i < g % 32 * 32 + 12) :: b'[i] == b[i]
    ensures DescIs(m, h, b')
  {
    var off := h % 32 * 32;
    assert off + 32 <= g % 32 * 32 || g % 32 * 32 + 32 <= off;
  }

  /** Groups of one descriptor block before g. */
  ghost predicate DescsIn(m: Mount, lo: nat, hi: nat, b: Block)
    requires hi <= |m.blockBitmap| == |m.inodeBitmap| == |m.inodeTable|
  {
    forall h | lo <= h < hi :: DescIs(m, h, b)
  }

  /** Filling one descriptor block, for groups lo .. hi-1. */
  method FillDescs(m: Mount, lo: nat, hi: nat, fill: Block) returns (b: Block)
    requires lo <= hi <= |m.blockBitmap| == |m.inodeBitmap| == |m.inodeTable| && lo % 32 == 0 && hi <= lo + 32
    ensures DescsIn(m, lo, hi, b)
  {
    b := fill;
    for g := lo to hi
      invariant DescsIn(m, lo, g, b)
    {
      var b' := PutDesc(m, g, b);
      forall h | lo <= h < g ensures DescIs(m, h, b') { DescFrame(m, g, h, b, b'); }
      b := b';
    }
  }

  // ---- the two directories ----

  /** What the root directory of a fresh file system lists. */
  function RootEntries(): seq<Entry> {
    [Entry(ROOT_INO, DOT, FT_DIR), Entry(ROOT_INO, DOTDOT, FT_DIR), Entry(LOSTFOUND_INO, LOSTFOUND, FT_DIR)]
  }

  method RootBlock() returns (b: Block)
    ensures Tiled(b, 0) && Walk(b, 0) == RootEntries()
  {
    var es := RootEntries();
    var b1 := DirentPut(ZeroBlock(), 0, 12, es[0]);
    var b2 := DirentPut(b1, 12, 12, es[1]);
    b := DirentPut(b2, 24, BLOCK_SIZE - 24, es[2]);
    HoldsRecord(ZeroBlock(), b1, 0, 12, es[0], 0, 12);
    HoldsRecord(b1, b2, 12, 12, es[1], 12, 24);
    HoldsRecord(b2, b, 24, BLOCK_SIZE - 24, es[2], 24, BLOCK_SIZE);
    RecordFrame(b1, b2, 0);
    RecordFrame(b2, b, 0);
    RecordFrame(b2, b, 12);
    ThreeSteps(b, es[0], es[1], es[2]);
  }

  lemma ThreeSteps(b: Block, x: Entry, y: Entry, z: Entry)
    requires RecordOk(b, 0) && RecLen(b, 0) == 12 && EntryAt(b, 0) == [x]
    requires RecordOk(b, 12) && RecLen(b, 12) == 12 && EntryAt(b, 12) == [y]
    requires RecordOk(b, 24) && RecLen(b, 24) == BLOCK_SIZE - 24 && EntryAt(b, 24) == [z]
    ensures Tiled(b, 0) && Walk(b, 0) == [x, y, z]
  {
    WalkStep(b, 24);
    WalkStep(b, 12);
    WalkStep(b, 0);
    assert Walk(b, BLOCK_SIZE) == [];
  }

  /** An inode-table block, all empty but for one directory record. */
  ghost predicate TableIs(b: Block, off: nat, blk: u32) {
    forall k {:trigger DecodeInode(b, k * INODE_SIZE)} | 0 <= k < 8 ::
      DecodeInode(b, k * INODE_SIZE) == if k * INODE_SIZE == off then DirInode(MODE_DIR, blk) else EmptyInode(0)
  }

  lemma ZeroRecord(off: nat)
    requires off + INODE_SIZE <= BLOCK_SIZE
    ensures DecodeInode(ZeroBlock(), off) == EmptyInode(0)
  {
    assert DecodeInode(ZeroBlock(), off).block == EmptyInode(0).block;
  }

  lemma DirRecord(b: Block, off: nat, blk: u32)
    requires off + INODE_SIZE <= BLOCK_SIZE && Le16(b, off) == MODE_DIR && Le32(b, off + 4) == BLOCK_SIZE
    requires Le32(b, off + 40) == blk
    requires forall i | off + 44 <= i < off + INODE_SIZE :: b[i] == 0
    ensures DecodeInode(b, off) == DirInode(MODE_DIR, blk)
  {
    var x, y := DecodeInode(b, off).block, DirInode(MODE_DIR, blk).block;
    forall i | 0 <= i < 15 ensures x[i] == y[i] {
      if i != 0 { assert Le32(b, off + 40 + 4 * i) == 0; }
    }
  }

  method TableBlock(off: nat, blk: u32) returns (b: Block)
    requires off == 128 || off == 256
    ensures TableIs(b, off, blk)
  {
    b := Put16(ZeroBlock(), off, MODE_DIR);
    b := Put32(b, off + 4, BLOCK_SIZE);
    b := Put32(b, off + 40, blk);
    OneRecordTable(b, off, blk);
  }

  lemma OneRecordTable(b: Block, off: nat, blk: u32)
    requires off == 128 || off == 256
    requires Le16(b, off) == MODE_DIR && Le32(b, off + 4) == BLOCK_SIZE && Le32(b, off + 40) == blk
    requires forall i | 0 <= i < BLOCK_SIZE && !(off <= i < off + 44) :: b[i] == 0
    ensures TableIs(b, off, blk)
  {
    forall k | 0 <= k < 8
      ensures DecodeInode(b, k * INODE_SIZE) == if k * INODE_SIZE == off then DirInode(MODE_DIR, blk) else EmptyInode(0)
    {
      if k * INODE_SIZE == off {
        DirRecord(b, off, blk);
      } else {
        ZeroRecord(k * INODE_SIZE);
        DecodeFrame(ZeroBlock(), b, k * INODE_SIZE);
      }
    }
  }

  // ---- the superblock ----

  ghost predicate SuperIs(m: Mount, b: Block) {
    && Le32(b, 0) == m.inodesCount && Le32(b, 4) == m.blocksCount && Le32(b, 20) == m.firstDataBlock && Le32(b, 24) == 0
    && Le32(b, 32) == m.blocksPerGroup && Le32(b, 36) == m.blocksPerGroup && Le32(b, 40) == m.inodesPerGroup
    && Le16(b, 56) == SUPER_MAGIC && Le16(b, 58) == 1 && Le32(b, 76) == 1 && Le32(b, 84) == 11
    && Le16(b, 88) == m.inodeSize
  }

  method SuperBlock(m: Mount) returns (b: Block)
    requires MkfsGeometry(m)
    ensures SuperIs(m, b)
  {
    b := Put32(ZeroBlock(), 0, m.inodesCount);
    b := Put32(b, 4, m.blocksCount);
    b := Put32(b, 20, m.firstDataBlock);
    b := Put32(b, 24, 0);
    b := Put32(b, 32, m.blocksPerGroup);
    b := Put32(b, 36, m.blocksPerGroup);
    b := Put32(b, 40, m.inodesPerGroup);
    b := Put16(b, 56, SUPER_MAGIC);
    b := Put16(b, 58, 1);
    b := Put32(b, 76, 1);
    b := Put32(b, 84, 11);
    b := Put16(b, 88, m.inodeSize);
  }

  // ---- formatting ----

  /** What a block of the layout is for. */
  datatype Kind =
    | Boot | Super | Descs(k: nat) | BlockMap(g: nat) | InodeMap(g: nat) | Table(g: nat, k: nat)
    | RootDir | LostDir | Data

  function KindOf(m: Mount, b: nat): Kind {
    var base := 2 + GdtBlocks(m.ngroups);
    if b == 0 then Boot
    else if b == 1 then Super
    else if b < base then Descs(b - 2)
    else if b < MetaEnd(m) then
      var g, r := (b - base) / 258, (b - base) % 258;
      if r == 0 then BlockMap(g) else if r == 1 then InodeMap(g) else Table(g, r - 2)
    else if b == MetaEnd(m) then RootDir
    else if b == MetaEnd(m) + 1 then LostDir
    else Data
  }

  /** The metadata areas of a mount are pairwise disjoint and inside the device: each number belongs to its own area. */
  lemma Areas(m: Mount, g: nat)
    requires MkfsGeometry(m) && g < m.ngroups
    ensures KindOf(m, m.blockBitmap[g]) == BlockMap(g) && KindOf(m, m.inodeBitmap[g]) == InodeMap(g)
    ensures forall k | 0 <= k < 256 :: KindOf(m, m.inodeTable[g] + k) == Table(g, k)
    ensures m.inodeTable[g] + 256 <= MetaEnd(m) < m.blocksCount
  {
  }

  /** A block of the given kind holds what mkfs puts there; outside the layout it holds what it held. */
  ghost predicate BlockOk(m: Mount, k: Kind, was: Block, c: Block)
    requires MkfsGeometry(m)
  {
    match k
    case Boot => c == was
    case Super => SuperIs(m, c)
    case Descs(k) => DescsIn(m, 32 * k, if 32 * k + 32 < m.ngroups then 32 * k + 32 else m.ngroups, c)
    case BlockMap(g) => BlockBitmapIs(m, g, c)
    case InodeMap(g) => InodeBitmapIs(g, c)
    case Table(g, k) =>
      if g == 0 && k == 0 then TableIs(c, 128, MetaEnd(m))
      else if g == 0 && k == 1 then TableIs(c, 256, MetaEnd(m) + 1)
      else c == ZeroBlock()
    case RootDir => Tiled(c, 0) && Walk(c, 0) == RootEntries()
    case LostDir => Tiled(c, 0) && Walk(c, 0) == DotEntries(LOSTFOUND_INO, ROOT_INO)
    case Data => c == was
  }

  /** Device d is d0 formatted. */
  ghost predicate Formatted(m: Mount, d0: Disk, d: Disk) {
    Mounted(m, d) && |d| == |d0| && forall b {:trigger d[b]} {:trigger KindOf(m, b)} | 0 <= b < |d| ::
      BlockOk(m, KindOf(m, b), d0[b], d[b])
  }

  /** Zero blocks lo .. hi-1. */
  method ZeroRun(d: Disk, lo: nat, hi: nat) returns (d': Disk)
    requires lo <= hi <= |d|
    ensures |d'| == |d| && forall b | 0 <= b < |d| :: d'[b] == if lo <= b < hi then ZeroBlock() else d[b]
  {
    d' := d;
    for b := lo to hi
      invariant |d'| == |d| && forall x | 0 <= x < |d| :: d'[x] == if lo <= x < b then ZeroBlock() else d[x]
    {
      d' := d'[b := ZeroBlock()];
    }
  }

  /** The descriptor table, block by block through one buffer whose first contents are arbitrary. */
  method WriteGdt(m: Mount, d: Disk, fill: Block) returns (d': Disk)
    requires Mounted(m, d)
    ensures |d'| == |d|
    ensures forall b | 0 <= b < |d| ::
      if KindOf(m, b).Descs? then BlockOk(m, KindOf(m, b), d[b], d'[b]) else d'[b] == d[b]
  {
    d' := d;
    var buf := fill;
    var n := GdtBlocks(m.ngroups);
    for k := 0 to n
      invariant |d'| == |d|
      invariant forall b | 0 <= b < |d| ::
        if 2 <= b < 2 + k then BlockOk(m, Descs(b - 2), d[b], d'[b]) else d'[b] == d[b]
    {
      var gd := FillDescs(m, 32 * k, if 32 * k + 32 < m.ngroups then 32 * k + 32 else m.ngroups, buf);
      d' := d'[2 + k := gd];
      buf := ZeroBlock();
    }
  }

  method WriteBlockBitmaps(m: Mount, d: Disk) returns (d': Disk)
    requires Mounted(m, d)
    ensures |d'| == |d|
    ensures forall b | 0 <= b < |d| ::
      if KindOf(m, b).BlockMap? then BlockOk(m, KindOf(m, b), d[b], d'[b]) else d'[b] == d[b]
  {
    d' := d;
    for g := 0 to m.ngroups
      invariant |d'| == |d|
      invariant forall b | 0 <= b < |d| ::
        if KindOf(m, b).BlockMap? && KindOf(m, b).g < g then BlockOk(m, KindOf(m, b), d[b], d'[b]) else d'[b] == d[b]
    {
      var bm := BlockBitmap(m, g);
      Areas(m, g);
      d' := d'[m.blockBitmap[g] := bm];
    }
    KindGroups(m);
  }

  method WriteInodeBitmaps(m: Mount, d: Disk) returns (d': Disk)
    requires Mounted(m, d)
    ensures |d'| == |d|
    ensures forall b | 0 <= b < |d| ::
      if KindOf(m, b).InodeMap? then BlockOk(m, KindOf(m, b), d[b], d'[b]) else d'[b] == d[b]
  {
    d' := d;
    for g := 0 to m.ngroups
      invariant |d'| == |d|
      invariant forall b | 0 <= b < |d| ::
        if KindOf(m, b).InodeMap? && KindOf(m, b).g < g then BlockOk(m, KindOf(m, b), d[b], d'[b]) else d'[b] == d[b]
    {
      var bm := InodeBitmap(g);
      Areas(m, g);
      d' := d'[m.inodeBitmap[g] := bm];
    }
    KindGroups(m);
  }

  lemma KindGroups(m: Mount)
    requires MkfsGeometry(m)
    ensures forall b {:trigger KindOf(m, b)} | KindOf(m, b).BlockMap? || KindOf(m, b).InodeMap? ::
      KindOf(m, b).g < m.ngroups
  {
  }

  /** ext2_mkfs on a device of so many 512-byte sectors. fill is what the
      descriptor buffer held before its first use. */
  method Mkfs(sectors: u32, d0: Disk, fill: Block) returns (rc: int, d: Disk)
    requires |d0| == sectors / 2
    ensures rc == 0 || rc == -1
    ensures rc == 0 <==> sectors >= 16384 && Groups(sectors / 2) <= MAX_GROUPS
    ensures rc == -1 ==> d == d0
    ensures rc == 0 ==> Formatted(MkfsMount(sectors / 2), d0, d)
  {
    if sectors < 16384 { return -1, d0; }
    var blocks := sectors / 2;
    if Groups(blocks) > MAX_GROUPS { return -1, d0; }
    var m := MkfsMount(blocks);
    MkfsFits(blocks);
    if MetaEnd(m) + 2 >= m.blocksCount { return -1, d0; }
    d := Format(m, d0, fill);
    rc := 0;
  }

  /** Tables and bitmaps are in place, the inode tables zeroed. */
  ghost predicate TablesOk(m: Mount, d0: Disk, d: Disk)
    requires MkfsGeometry(m) && |d| == |d0|
  {
    forall b {:trigger KindOf(m, b)} | 0 <= b < |d| ::
      match KindOf(m, b)
      case Descs(_) => BlockOk(m, KindOf(m, b), d0[b], d[b])
      case BlockMap(_) => BlockOk(m, KindOf(m, b), d0[b], d[b])
      case InodeMap(_) => BlockOk(m, KindOf(m, b), d0[b], d[b])
      case Table(_, _) => d[b] == ZeroBlock()
      case Super => true
      case _ => d[b] == d0[b]
  }

  method WriteTables(m: Mount, d0: Disk, fill: Block) returns (d: Disk)
    requires Mounted(m, d0)
    ensures |d| == |d0| && TablesOk(m, d0, d)
  {
    var d1 := ZeroRun(d0, 1, MetaEnd(m));
    var d2 := WriteGdt(m, d1, fill);
    var d3 := WriteBlockBitmaps(m, d2);
    d := WriteInodeBitmaps(m, d3);
    forall b | 0 <= b < |d|
      ensures KindOf(m, b).Boot? || KindOf(m, b).RootDir? || KindOf(m, b).LostDir? || KindOf(m, b).Data? ==>
        d1[b] == d0[b] {}
    assert forall b | 0 <= b < |d| && !KindOf(m, b).InodeMap? :: d[b] == d3[b];
  }

  method Format(m: Mount, d0: Disk, fill: Block) returns (d: Disk)
    requires Mounted(m, d0)
    ensures Formatted(m, d0, d)
  {
    var d4 := WriteTables(m, d0, fill);
    d := PlaceLast(m, d0, d4);
  }

  /** The directories, their inodes and the superblock. */
  method PlaceLast(m: Mount, d0: Disk, d4: Disk) returns (d: Disk)
    requires Mounted(m, d4) && |d4| == |d0| && TablesOk(m, d0, d4)
    ensures Formatted(m, d0, d)
  {
    var root, lost, table0, table1, super := LastBlocks(m);
    Areas(m, 0);
    d := Overwrite(d4, MetaEnd(m), m.inodeTable[0], root, lost, table0, table1, super);
    AllPlaced(m, d0, d4, root, lost, table0, table1, super, d);
  }

  method LastBlocks(m: Mount) returns (root: Block, lost: Block, table0: Block, table1: Block, super: Block)
    requires MkfsGeometry(m)
    ensures LastOk(m, root, lost, table0, table1, super)
  {
    root, lost := DirBlocks();
    table0 := TableBlock(128, MetaEnd(m));
    table1 := TableBlock(256, MetaEnd(m) + 1);
    super := SuperBlock(m);
  }

  method DirBlocks() returns (root: Block, lost: Block)
    ensures DirsOk(root, lost)
  {
    root := RootBlock();
    lost := DotBlock(LOSTFOUND_INO, ROOT_INO);
  }

  ghost predicate DirsOk(root: Block, lost: Block) {
    && Tiled(root, 0) && Walk(root, 0) == RootEntries()
    && Tiled(lost, 0) && Walk(lost, 0) == DotEntries(LOSTFOUND_INO, ROOT_INO)
  }

  ghost predicate LastOk(m: Mount, root: Block, lost: Block, table0: Block, table1: Block, super: Block)
    requires MkfsGeometry(m)
  {
    && DirsOk(root, lost)
    && TableIs(table0, 128, MetaEnd(m)) && TableIs(table1, 256, MetaEnd(m) + 1) && SuperIs(m, super)
  }

  function Overwrite(d: Disk, dirs: nat, table: nat, root: Block, lost: Block, table0: Block, table1: Block,
      super: Block): Disk
    requires dirs + 1 < |d| && table + 1 < |d| && 1 < |d|
  {
    d[dirs := root][dirs + 1 := lost][table := table0][table + 1 := table1][1 := super]
  }

  lemma AllPlaced(m: Mount, d0: Disk, d4: Disk, root: Block, lost: Block, table0: Block, table1: Block, super: Block,
      d: Disk)
    requires Mounted(m, d4) && |d4| == |d0| && TablesOk(m, d0, d4)
    requires d == Overwrite(d4, MetaEnd(m), m.inodeTable[0], root, lost, table0, table1, super)
    requires LastOk(m, root, lost, table0, table1, super)
    ensures Formatted(m, d0, d)
  {
    Areas(m, 0);
    forall b | 0 <= b < |d| ensures BlockOk(m, KindOf(m, b), d0[b], d[b]) {
      Placed(m, d4, b, root, lost, table0, table1, super, d);
    }
  }

  /** The last writes, seen at one block. */
  lemma Placed(m: Mount, d4: Disk, b: nat, root: Block, lost: Block, table0: Block, table1: Block, super: Block,
      d: Disk)
    requires Mounted(m, d4) && b < |d4|
    requires KindOf(m, m.inodeTable[0] + 0) == Table(0, 0) && KindOf(m, m.inodeTable[0] + 1) == Table(0, 1)
    requires d == Overwrite(d4, MetaEnd(m), m.inodeTable[0], root, lost, table0, table1, super)
    ensures d[b] == match KindOf(m, b)
                    case Super => super
                    case RootDir => root
                    case LostDir => lost
                    case Table(g, k) => if g == 0 && k == 0 then table0 else if g == 0 && k == 1 then table1 else d4[b]
                    case _ => d4[b]
  {
  }

  // ---- what a formatted device holds ----

  function FreshInode(m: Mount, ino: nat): Inode
    requires MetaEnd(m) + 1 < 0x1_0000_0000
  {
    if ino == ROOT_INO then DirInode(MODE_DIR, MetaEnd(m))
    else if ino == LOSTFOUND_INO then DirInode(MODE_DIR, MetaEnd(m) + 1)
    else EmptyInode(0)
  }

  ghost function DataBlock(m: Mount, d: Disk, b: nat): Block
    requires Mounted(m, d) && b < m.blocksCount
  {
    if b < MetaEnd(m) then ZeroBlock() else d[b]
  }

  /** The file system of a freshly formatted device. */
  ghost function FreshView(m: Mount, d: Disk): (w: View)
    requires Mounted(m, d)
    ensures |w.d| == m.blocksCount && |w.inodes| == m.inodesCount
    ensures forall b | 0 <= b < m.blocksCount :: w.d[b] == DataBlock(m, d, b)
    ensures forall i | 0 <= i < m.inodesCount :: w.inodes[i] == FreshInode(m, i + 1)
    ensures w.used == {MetaEnd(m), MetaEnd(m) + 1} && forall i :: i in w.taken <==> 1 <= i <= LOSTFOUND_INO
  {
    View(seq(m.blocksCount, b requires 0 <= b < m.blocksCount => DataBlock(m, d, b)),
         seq(m.inodesCount, i requires 0 <= i < m.inodesCount => FreshInode(m, i + 1)),
         {MetaEnd(m), MetaEnd(m) + 1}, {1, 2, 3, 4, 5, 6, 7, 8, 9, 10, LOSTFOUND_INO})
  }

  lemma FreshInodeAt(m: Mount, d0: Disk, d: Disk, ino: nat)
    requires Formatted(m, d0, d) && 1 <= ino <= m.inodesCount
    ensures InodeAt(m, d, ino) == FreshInode(m, ino)
  {
    var g, k := (ino - 1) / INODES_PER_GROUP, (ino - 1) % INODES_PER_GROUP;
    assert ino == g * INODES_PER_GROUP + k + 1 && g < m.ngroups;
    TableIndex(k);
    Areas(m, g);
    var b := m.inodeTable[g] + k / 8;
    assert InodeBlock(m, ino) == b && InodeOffset(ino) == k % 8 * INODE_SIZE;
    assert KindOf(m, b) == Table(g, k / 8);
    assert BlockOk(m, KindOf(m, b), d0[b], d[b]);
    ZeroRecord(k % 8 * INODE_SIZE);
    assert ino == ROOT_INO <==> g == 0 && k == 1;
    assert ino == LOSTFOUND_INO <==> g == 0 && k == 10;
  }

  lemma FreshBit(m: Mount, d0: Disk, d: Disk, b: nat)
    requires Formatted(m, d0, d) && 1 <= b < m.blocksCount
    ensures Used(m, d, b) == (b < MetaEnd(m) + 2)
  {
    var g, i := (b - 1) / BLOCKS_PER_GROUP, (b - 1) % BLOCKS_PER_GROUP;
    assert b == 1 + g * BLOCKS_PER_GROUP + i && g < m.ngroups;
    Areas(m, g);
    assert BlockOk(m, KindOf(m, m.blockBitmap[g]), d0[m.blockBitmap[g]], d[m.blockBitmap[g]]);
  }

  lemma FreshInodeBit(m: Mount, d0: Disk, d: Disk, ino: nat)
    requires Formatted(m, d0, d) && 1 <= ino <= m.inodesCount
    ensures InodeUsed(m, d, ino) == (ino <= LOSTFOUND_INO)
  {
    var g, i := (ino - 1) / INODES_PER_GROUP, (ino - 1) % INODES_PER_GROUP;
    assert ino == g * INODES_PER_GROUP + i + 1 && g < m.ngroups;
    Areas(m, g);
    assert BlockOk(m, KindOf(m, m.inodeBitmap[g]), d0[m.inodeBitmap[g]], d[m.inodeBitmap[g]]);
  }

  /** The bytes of a formatted device hold the fresh file system; its free blocks are exactly meta_end + 2 up to
      blocks_count. */
  lemma FormattedModels(m: Mount, d0: Disk, d: Disk)
    requires Formatted(m, d0, d)
    ensures Models(m, d, FreshView(m, d))
  {
    ModelsFresh(m, d0, d, FreshView(m, d));
  }

  lemma ModelsFresh(m: Mount, d0: Disk, d: Disk, w: View)
    requires Formatted(m, d0, d) && |w.d| == m.blocksCount && |w.inodes| == m.inodesCount
    requires forall b | 0 <= b < m.blocksCount :: w.d[b] == DataBlock(m, d, b)
    requires forall i | 0 <= i < m.inodesCount :: w.inodes[i] == FreshInode(m, i + 1)
    requires w.used == {MetaEnd(m), MetaEnd(m) + 1} && forall i :: i in w.taken <==> 1 <= i <= LOSTFOUND_INO
    ensures Models(m, d, w)
  {
    FreshTables(m, d0, d);
    ModelsFrom(m, d, w);
  }

  /** Inode table and bitmaps are those of a fresh file system. */
  ghost predicate TablesFresh(m: Mount, d: Disk)
    requires Mounted(m, d)
  {
    && (forall i {:trigger InodeAt(m, d, i)} | 1 <= i <= m.inodesCount :: InodeAt(m, d, i) == FreshInode(m, i))
    && (forall i {:trigger InodeUsed(m, d, i)} | 1 <= i <= m.inodesCount :: InodeUsed(m, d, i) == (i <= LOSTFOUND_INO))
    && forall b {:trigger Used(m, d, b)} | 1 <= b < m.blocksCount :: Used(m, d, b) == (b < MetaEnd(m) + 2)
  }

  lemma FreshTables(m: Mount, d0: Disk, d: Disk)
    requires Formatted(m, d0, d)
    ensures TablesFresh(m, d)
  {
    forall i | 1 <= i <= m.inodesCount ensures InodeAt(m, d, i) == FreshInode(m, i) { FreshInodeAt(m, d0, d, i); }
    forall i | 1 <= i <= m.inodesCount
      ensures InodeUsed(m, d, i) == (i <= LOSTFOUND_INO)
    { FreshInodeBit(m, d0, d, i); }
    forall b | 1 <= b < m.blocksCount ensures Used(m, d, b) == (b < MetaEnd(m) + 2) { FreshBit(m, d0, d, b); }
  }

  lemma ModelsFrom(m: Mount, d: Disk, w: View)
    requires Mounted(m, d) && TablesFresh(m, d) && |w.d| == m.blocksCount && |w.inodes| == m.inodesCount
    requires forall b | 0 <= b < m.blocksCount :: w.d[b] == DataBlock(m, d, b)
    requires forall i | 0 <= i < m.inodesCount :: w.inodes[i] == FreshInode(m, i + 1)
    requires w.used == {MetaEnd(m), MetaEnd(m) + 1} && forall i :: i in w.taken <==> 1 <= i <= LOSTFOUND_INO
    ensures Models(m, d, w)
  {
    forall i {:trigger InodeAt(m, d, i)} | 1 <= i <= m.inodesCount
      ensures InodeAt(m, d, i) == w.inodes[i - 1]
    { assert w.inodes[i - 1] == FreshInode(m, i - 1 + 1); }
  }

  /** The only pointers of a fresh file system: the two directories' first blocks. */
  function FreshPointer(m: Mount, r: Ref): int
  {
    if r == Ref(ROOT_INO, Top(0)) then MetaEnd(m)
    else if r == Ref(LOSTFOUND_INO, Top(0)) then MetaEnd(m) + 1
    else 0
  }

  lemma FreshSlots(m: Mount, d: Disk, r: Ref)
    requires Mounted(m, d)
    ensures V(FreshView(m, d), r) == FreshPointer(m, r)
  {
    var w := FreshView(m, d);
    if 1 <= r.ino <= m.inodesCount {
      assert w.inodes[r.ino - 1] == FreshInode(m, r.ino);
      if r.slot.Leaf? { assert Ptr(w.d, 0, r.slot.k) == 0; }
    }
  }

  lemma FreshOwned(m: Mount, d: Disk)
    requires Mounted(m, d)
    ensures Owned(FreshView(m, d))
  {
    forall r
      ensures V(FreshView(m, d), r) == FreshPointer(m, r)
    { FreshSlots(m, d, r); }
  }

  /** A formatted device is a well-formed file system. Its free blocks are zero exactly when its data area was all
      zero: mkfs itself leaves the data area as it found it. */
  lemma FreshOk(m: Mount, d0: Disk, d: Disk)
    requires Formatted(m, d0, d)
    ensures FsOk(FreshView(m, d)) && (Clean(FreshView(m, d)) <==> ZeroFrom(d0, MetaEnd(m) + 2, m.blocksCount))
  {
    FreshOwned(m, d);
    FreshClean(m, d0, d);
    forall i | 1 <= i <= m.inodesCount ensures InodeOk(FreshView(m, d), i) { FreshInodeOk(m, d0, d, i); }
  }

  /** Blocks lo .. hi-1 are all zero. */
  ghost predicate ZeroFrom(d: Disk, lo: nat, hi: nat)
    requires hi <= |d|
  {
    forall b | lo <= b < hi :: d[b] == ZeroBlock()
  }

  /** The root lists exactly itself and lost+found. */
  lemma FreshRoot(m: Mount, d0: Disk, d: Disk)
    requires Formatted(m, d0, d)
    ensures Listing(FreshView(m, d), ROOT_INO) == RootEntries()
  {
    FreshDir(m, d0, d, ROOT_INO, MetaEnd(m));
  }

  lemma FreshRootDir(m: Mount, d: Disk)
    requires Mounted(m, d) && ROOT_INO <= m.inodesCount
    ensures IsDir(FreshView(m, d).inodes[ROOT_INO - 1])
  {
    ModeBits(MetaEnd(m));
    assert FreshView(m, d).inodes[ROOT_INO - 1] == FreshInode(m, ROOT_INO);
  }

  /** Every entry of a formatted device names a typed inode. */
  lemma FreshReferenced(m: Mount, d0: Disk, d: Disk)
    requires Formatted(m, d0, d) && LOSTFOUND_INO <= m.inodesCount
    ensures AllReferenced(FreshView(m, d))
  {
    var w := FreshView(m, d);
    FreshModes(m, d, LOSTFOUND_INO);
    forall i {:trigger Referenced(w, i)} | 1 <= i <= |w.inodes| && IsDir(w.inodes[i - 1]) ensures Referenced(w, i) {
      FreshModes(m, d, i);
      FreshDir(m, d0, d, i, if i == ROOT_INO then MetaEnd(m) else MetaEnd(m) + 1);
      EntriesNamed(w, i);
    }
  }

  lemma FreshModes(m: Mount, d: Disk, i: nat)
    requires Mounted(m, d) && 1 <= i <= m.inodesCount
    ensures var n := FreshView(m, d).inodes[i - 1];
      if i == ROOT_INO || i == LOSTFOUND_INO then n.mode != 0 else !IsDir(n)
  {
    ModeBits(0);
    assert FreshView(m, d).inodes[i - 1] == FreshInode(m, i);
  }

  lemma EntriesNamed(w: View, i: nat)
    requires (i == ROOT_INO || i == LOSTFOUND_INO) && LOSTFOUND_INO <= |w.inodes|
      && w.inodes[LOSTFOUND_INO - 1].mode != 0
    requires Listing(w, i) == if i == ROOT_INO then RootEntries() else DotEntries(LOSTFOUND_INO, ROOT_INO)
    ensures Referenced(w, i)
  {
  }

  lemma FreshInodeOk(m: Mount, d0: Disk, d: Disk, i: nat)
    requires Formatted(m, d0, d) && 1 <= i <= m.inodesCount
    ensures InodeOk(FreshView(m, d), i)
  {
    var w := FreshView(m, d);
    assert w.inodes[i - 1] == FreshInode(m, i);
    if i == ROOT_INO {
      ModeBits(MetaEnd(m));
      FreshDir(m, d0, d, ROOT_INO, MetaEnd(m));
    } else if i == LOSTFOUND_INO {
      ModeBits(MetaEnd(m) + 1);
      FreshDir(m, d0, d, LOSTFOUND_INO, MetaEnd(m) + 1);
    }
  }

  lemma FreshClean(m: Mount, d0: Disk, d: Disk)
    requires Formatted(m, d0, d)
    ensures Clean(FreshView(m, d)) <==> ZeroFrom(d0, MetaEnd(m) + 2, m.blocksCount)
  {
    var w := FreshView(m, d);
    forall b | MetaEnd(m) + 2 <= b < m.blocksCount
      ensures w.d[b] == d0[b]
    { assert KindOf(m, b) == Data && BlockOk(m, KindOf(m, b), d0[b], d[b]); }
    if Clean(w) {
      forall b | MetaEnd(m) + 2 <= b < m.blocksCount ensures d0[b] == ZeroBlock() { assert w.d[b] == d0[b]; }
    }
  }

  lemma FreshDir(m: Mount, d0: Disk, d: Disk, ino: nat, b: nat)
    requires Formatted(m, d0, d) && MetaEnd(m) <= b <= MetaEnd(m) + 1 && (ino == ROOT_INO <==> b == MetaEnd(m))
    requires (ino == LOSTFOUND_INO <==> b == MetaEnd(m) + 1)
    ensures var w := FreshView(m, d);
      && DirOk(w, ino) && Listing(w, ino) == Walk(d[b], 0)
      && Walk(d[b], 0) == if ino == ROOT_INO then RootEntries() else DotEntries(LOSTFOUND_INO, ROOT_INO)
  {
    var w := FreshView(m, d);
    assert BlockOk(m, KindOf(m, b), d0[b], d[b]);
    NewDirIs(w, ino, FreshInode(m, ino), b, d[b]);
    OneBlockListing(w, ino, d[b]);
    assert AllTiled([d[b]]);
  }

  // ---- probing ----

  datatype Option<T> = None | Some(value: T)

  /** The 32-bit field at a byte address of the device. */
  function Word(d: Disk, a: nat): u32
    requires a % 4 == 0 && a + 4 <= |d| * BLOCK_SIZE
  {
    Le32(d[a / BLOCK_SIZE], a % BLOCK_SIZE)
  }

  /** Block sizes the driver accepts: 1 KiB shifted left by at most 6. */
  predicate BlockSizeOk(n: nat) {
    n == 1024 || n == 2048 || n == 4096 || n == 8192 || n == 16384 || n == 32768 || n == 65536
  }

  lemma ShiftedSize(log: nat)
    requires log <= 6
    ensures BlockSizeOk(1024 * Pow2(log))
  {
    assert Pow2(0) == 1 && Pow2(1) == 2 && Pow2(2) == 4 && Pow2(3) == 8 && Pow2(4) == 16 && Pow2(5) == 32
      && Pow2(6) == 64;
  }

  /** Byte address of group g's descriptor: block and offset as the driver computes them. */
  function DescAddr(gdBlock: nat, blockSize: nat, g: nat): nat
    requires BlockSizeOk(blockSize)
  {
    (gdBlock + g * 32 / blockSize) * blockSize + g * 32 % blockSize
  }

  /** Byte address just past the block that holds it. */
  function DescEnd(gdBlock: nat, blockSize: nat, g: nat): nat
    requires BlockSizeOk(blockSize)
  {
    (gdBlock + g * 32 / blockSize) * blockSize + blockSize
  }

  lemma Aligned(a: nat, k: nat)
    requires a == 32 * k
    ensures a % 4 == 0 && (a + 4) % 4 == 0 && (a + 8) % 4 == 0
  {
  }

  lemma Regrouped(x: int, q: int, r: int, b: int, p: int, g: int)
    requires b == 32 * p && q * b + r == 32 * g && 0 <= r < b
    ensures (x + q) * b + r == x * b + 32 * g == 32 * (x * p + g) && r + 32 <= b
  {
    assert (x + q) * b == x * b + q * b;
    assert x * b == 32 * (x * p);
    assert r == 32 * (g - q * p);
  }

  lemma SizeIn32(blockSize: nat) returns (p: nat)
    requires BlockSizeOk(blockSize)
    ensures blockSize == 32 * p
  {
    p := blockSize / 32;
  }

  /** Descriptors follow one another, are aligned and never straddle a block. */
  lemma DescAddrIs(gdBlock: nat, blockSize: nat, g: nat)
    requires BlockSizeOk(blockSize)
    ensures var a := DescAddr(gdBlock, blockSize, g);
            a == gdBlock * blockSize + 32 * g && a + 32 <= DescEnd(gdBlock, blockSize, g) && a % 4 == 0
              && (a + 4) % 4 == 0 && (a + 8) % 4 == 0
  {
    var p := SizeIn32(blockSize);
    Euclid(g * 32, blockSize);
    Regrouped(gdBlock, g * 32 / blockSize, g * 32 % blockSize, blockSize, p, g);
    Aligned(DescAddr(gdBlock, blockSize, g), gdBlock * p + g);
  }

  lemma Euclid(x: nat, b: nat)
    requires b > 0
    ensures x / b * b + x % b == x && 0 <= x % b < b
  {
  }

  function Quotient(a: nat, b: nat): nat
    requires b > 0
  {
    a / b
  }

  /** Number of groups: by blocks or by inodes, whichever is more, in 32-bit arithmetic. */
  function GroupCount(blocks: u32, perGroup: u32, inodes: u32, inodesPerGroup: u32): nat
    requires perGroup > 0 && inodesPerGroup > 0
  {
    var byBlocks := Quotient((blocks as int + perGroup - 1) % 0x1_0000_0000, perGroup);
    var byInodes := Quotient((inodes as int + inodesPerGroup - 1) % 0x1_0000_0000, inodesPerGroup);
    if byInodes > byBlocks then byInodes else byBlocks
  }

  /** The superblock fields of a device, if they pass the driver's plausibility
      checks; the group tables are still empty. */
  function ProbeSuper(d: Disk): (r: Option<Mount>)
    ensures r.Some? ==> BlockSizeOk(r.value.blockSize)
  {
    if |d| < 2 then None
    else
      var sb := d[1];
      var logSize, perGroup, ipg, rev := Le32(sb, 24), Le32(sb, 32), Le32(sb, 40), Le32(sb, 76);
      if Le16(sb, 56) != SUPER_MAGIC || logSize > 6 then None
      else
        var blockSize := 1024 * Pow2(logSize);
        ShiftedSize(logSize);
        var inodeSize := if rev >= 1 then Le16(sb, 88) else 128;
        if inodeSize < 128 || perGroup == 0 || perGroup > 8 * blockSize || ipg == 0 then None
        else
          var n := GroupCount(Le32(sb, 4), perGroup, Le32(sb, 0), ipg);
          if n > MAX_GROUPS then None
          else Some(Mount(Le32(sb, 0), Le32(sb, 4), Le32(sb, 20), perGroup, ipg, inodeSize, rev, blockSize, n,
            [], [], []))
  }

  /** The descriptor at byte address a. */
  ghost predicate DescAt(d: Disk, a: nat, bb: u32, ib: u32, it: u32) {
    && a % 4 == 0 && (a + 4) % 4 == 0 && (a + 8) % 4 == 0 && a + 12 <= |d| * BLOCK_SIZE
    && bb == Word(d, a) && ib == Word(d, a + 4) && it == Word(d, a + 8)
  }

  method ReadDesc(d: Disk, gdBlock: nat, blockSize: nat, g: nat) returns (ok: bool, bb: u32, ib: u32, it: u32)
    requires BlockSizeOk(blockSize)
    ensures ok <==> DescEnd(gdBlock, blockSize, g) <= |d| * BLOCK_SIZE
    ensures ok ==> DescAt(d, DescAddr(gdBlock, blockSize, g), bb, ib, it)
  {
    DescAddrIs(gdBlock, blockSize, g);
    var a := DescAddr(gdBlock, blockSize, g);
    if DescEnd(gdBlock, blockSize, g) > |d| * BLOCK_SIZE { return false, 0, 0, 0; }
    return true, Word(d, a), Word(d, a + 4), Word(d, a + 8);
  }

  /** Cache n group descriptors; fails when one lies in a block past the device. */
  method CacheTables(d: Disk, gdBlock: nat, blockSize: nat, n: nat)
    returns (ok: bool, bb: seq<u32>, ib: seq<u32>, it: seq<u32>)
    requires BlockSizeOk(blockSize)
    ensures ok <==> TablesReadable(d, gdBlock, blockSize, n)
    ensures ok ==> |bb| == |ib| == |it| == n
    ensures ok ==> forall g | 0 <= g < n :: DescAt(d, DescAddr(gdBlock, blockSize, g), bb[g], ib[g], it[g])
  {
    bb, ib, it := [], [], [];
    for g := 0 to n
      invariant |bb| == |ib| == |it| == g
      invariant forall h | 0 <= h < g ::
        && DescEnd(gdBlock, blockSize, h) <= |d| * BLOCK_SIZE
        && DescAt(d, DescAddr(gdBlock, blockSize, h), bb[h], ib[h], it[h])
    {
      var good, x, y, z := ReadDesc(d, gdBlock, blockSize, g);
      if !good { return false, bb, ib, it; }
      bb, ib, it := bb + [x], ib + [y], it + [z];
    }
    return true, bb, ib, it;
  }

  /** Every group descriptor of a plausible superblock lies on the device. */
  ghost predicate TablesReadable(d: Disk, gdBlock: nat, blockSize: nat, n: nat)
    requires BlockSizeOk(blockSize)
  {
    forall g | 0 <= g < n :: DescEnd(gdBlock, blockSize, g) <= |d| * BLOCK_SIZE
  }

  ghost predicate TablesCached(d: Disk, m: Mount)
    requires BlockSizeOk(m.blockSize)
  {
    && |m.blockBitmap| == |m.inodeBitmap| == |m.inodeTable| == m.ngroups
    && forall g | 0 <= g < m.ngroups ::
      DescAt(d, DescAddr(m.firstDataBlock as int + 1, m.blockSize, g), m.blockBitmap[g], m.inodeBitmap[g],
        m.inodeTable[g])
  }

  /** Probe a device: check the superblock, then cache every group descriptor. */
  method Probe(d: Disk) returns (r: Option<Mount>)
    ensures r.Some? <==>
      ProbeSuper(d).Some? && var m := ProbeSuper(d).value;
      TablesReadable(d, m.firstDataBlock as int + 1, m.blockSize, m.ngroups)
    ensures r.Some? ==> var m := ProbeSuper(d).value;
      && r.value == m.(blockBitmap := r.value.blockBitmap, inodeBitmap := r.value.inodeBitmap,
        inodeTable := r.value.inodeTable)
      && TablesCached(d, r.value)
  {
    var s := ProbeSuper(d);
    if s.None? { return None; }
    var m := s.value;
    var ok, bb, ib, it := CacheTables(d, m.firstDataBlock as int + 1, m.blockSize, m.ngroups);
    if !ok { return None; }
    return Some(m.(blockBitmap := bb, inodeBitmap := ib, inodeTable := it));
  }

  // ---- probing recovers what mkfs wrote ----

  lemma DescPlace(g: nat)
    ensures var a, k, off := DescAddr(2, BLOCK_SIZE, g), g / 32, g % 32 * 32;
            && a / BLOCK_SIZE == (a + 4) / BLOCK_SIZE == (a + 8) / BLOCK_SIZE == 2 + k
            && a % BLOCK_SIZE == off && (a + 4) % BLOCK_SIZE == off + 4 && (a + 8) % BLOCK_SIZE == off + 8
  {
    assert g * 32 / BLOCK_SIZE == g / 32 && g * 32 % BLOCK_SIZE == g % 32 * 32;
  }

  lemma DescOf(m: Mount, d0: Disk, d: Disk, g: nat)
    requires Formatted(m, d0, d) && g < m.ngroups
    ensures 2 + g / 32 < |d| && DescIs(m, g, d[2 + g / 32])
  {
    var k := g / 32;
    assert k < GdtBlocks(m.ngroups) && KindOf(m, 2 + k) == Descs(k);
    assert BlockOk(m, KindOf(m, 2 + k), d0[2 + k], d[2 + k]);
  }

  lemma DescRecovered(m: Mount, d0: Disk, d: Disk, g: nat, bb: u32, ib: u32, it: u32)
    requires Formatted(m, d0, d) && g < m.ngroups && DescAt(d, DescAddr(2, BLOCK_SIZE, g), bb, ib, it)
    ensures bb == m.blockBitmap[g] && ib == m.inodeBitmap[g] && it == m.inodeTable[g]
  {
    DescPlace(g);
    DescOf(m, d0, d, g);
  }

  lemma GroupsCounted(blocks: u32, inodes: u32, n: nat)
    requires n == Groups(blocks) && 1 <= n <= MAX_GROUPS && inodes == n * INODES_PER_GROUP && blocks > 1
    ensures GroupCount(blocks, BLOCKS_PER_GROUP, inodes, INODES_PER_GROUP) == n
  {
  }

  lemma SuperProbed(m: Mount, d: Disk)
    requires MkfsGeometry(m) && |d| >= 2 && SuperIs(m, d[1])
    ensures ProbeSuper(d) == Some(m.(blockBitmap := [], inodeBitmap := [], inodeTable := []))
  {
    assert Pow2(0) == 1;
    GroupsCounted(m.blocksCount, m.inodesCount, m.ngroups);
  }

  lemma SuperRecovered(m: Mount, d0: Disk, d: Disk)
    requires Formatted(m, d0, d)
    ensures ProbeSuper(d) == Some(m.(blockBitmap := [], inodeBitmap := [], inodeTable := []))
    ensures TablesReadable(d, 2, BLOCK_SIZE, m.ngroups)
  {
    assert KindOf(m, 1) == Super && BlockOk(m, KindOf(m, 1), d0[1], d[1]);
    SuperProbed(m, d);
    forall g | 0 <= g < m.ngroups
      ensures DescEnd(2, BLOCK_SIZE, g) <= |d| * BLOCK_SIZE
    { DescOf(m, d0, d, g); DescPlace(g); }
  }

  /** Whatever Probe returns on a formatted device, it is the mount mkfs used. */
  lemma ProbeRecovers(m: Mount, d0: Disk, d: Disk, p: Mount)
    requires Formatted(m, d0, d) && ProbeSuper(d).Some?
    requires p == ProbeSuper(d).value.(blockBitmap := p.blockBitmap, inodeBitmap := p.inodeBitmap,
      inodeTable := p.inodeTable)
    requires TablesCached(d, p)
    ensures p == m
  {
    SuperRecovered(m, d0, d);
    forall g | 0 <= g < m.ngroups
      ensures p.blockBitmap[g] == m.blockBitmap[g] && p.inodeBitmap[g] == m.inodeBitmap[g]
        && p.inodeTable[g] == m.inodeTable[g]
    {
      DescRecovered(m, d0, d, g, p.blockBitmap[g], p.inodeBitmap[g], p.inodeTable[g]);
    }
    assert p.blockBitmap == m.blockBitmap && p.inodeBitmap == m.inodeBitmap && p.inodeTable == m.inodeTable;
  }

  /** Format, then probe: the same geometry and group tables come back, the root
      lists lost+found, and the mount is a well-formed file system, whose free
      blocks are zero exactly when the data area was zero beforehand. */
  method FormatAndProbe(sectors: u32, d0: Disk, fill: Block) returns (ok: bool, d: Disk, m: Mount)
    requires |d0| == sectors / 2
    ensures ok <==> sectors >= 16384 && Groups(sectors / 2) <= MAX_GROUPS
    ensures ok ==> m == MkfsMount(sectors / 2) && Formatted(m, d0, d) && Models(m, d, FreshView(m, d))
    ensures ok ==> Listing(FreshView(m, d), ROOT_INO) == RootEntries() && FsOk(FreshView(m, d))
    ensures ok ==> (Clean(FreshView(m, d)) <==> ZeroFrom(d0, MetaEnd(m) + 2, m.blocksCount))
  {
    var rc;
    rc, d := Mkfs(sectors, d0, fill);
    m := MkfsMount(8192);
    if rc != 0 { return false, d, m; }
    ghost var mk := MkfsMount(sectors / 2);
    SuperRecovered(mk, d0, d);
    var r := Probe(d);
    ProbeRecovers(mk, d0, d, r.value);
    FormattedModels(mk, d0, d);
    FreshOk(mk, d0, d);
    FreshRoot(mk, d0, d);
    return true, d, r.value;
  }

  /** Any run from a fresh format of a device with a zero data area, failing calls
      included, ends in a well-formed file system. */
  method FormatAndRun(sectors: u32, d0: Disk, fill: Block, ops: seq<Op>) returns (dev: Ext2, ghost h: History)
    requires |d0| == sectors / 2 && sectors >= 16384 && Groups(sectors / 2) <= MAX_GROUPS
    requires MetaEnd(MkfsMount(sectors / 2)) + 2 <= |d0|
    requires ZeroFrom(d0, MetaEnd(MkfsMount(sectors / 2)) + 2, sectors / 2)
    requires forall k | 0 <= k < |ops| && ops[k].WriteOp? :: |ops[k].data| < 0x1_0000_0000
    ensures dev.Valid() && FsOk(dev.fs) && Clean(dev.fs) && IsRun(h) && h.ops == ops && h.states[|ops|] == dev.fs
    ensures AllReferenced(dev.fs) && Roots(dev.fs, Added(h, ROOT_INO, 0, |ops|))
  {
    var ok, d, m := FormatAndProbe(sectors, d0, fill);
    dev := new Ext2(m, d, true, FreshView(m, d));
    FreshReferenced(m, d0, d);
    FreshRootDir(m, d);
    h := Run(dev, ops);
    RunReferenced(h, |ops|);
    Listings(h, ROOT_INO, 0, |ops|);
  }

  /** The root lists "lost+found", its dot entries and es, in some order. */
  ghost predicate Roots(w: View, es: seq<Entry>) {
    ROOT_INO <= |w.inodes| && Gains(RootEntries(), Listing(w, ROOT_INO), es)
  }
}
