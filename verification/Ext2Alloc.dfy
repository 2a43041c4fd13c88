/** The driver's primitives on device bytes, and what each does to the file
    system its callers see. */
module Ext2Alloc {
  import opened Bytes
  import opened Ext2Layout
  import opened Ext2View

  // ---- from bytes to a view ----

  /** The bytes of a mounted device, its metadata all marked used, hold file system w. */
  ghost predicate Models(m: Mount, d: Disk, w: View) {
    && Mounted(m, d) && |w.d| == m.blocksCount && |w.inodes| == m.inodesCount
    && (forall i {:trigger InodeAt(m, d, i)} | 1 <= i <= m.inodesCount :: InodeAt(m, d, i) == w.inodes[i - 1])
    && (forall i {:trigger InodeUsed(m, d, i)} | 1 <= i <= m.inodesCount :: InodeUsed(m, d, i) == (i in w.taken))
    && (forall b {:trigger Used(m, d, b)} | 1 <= b < m.blocksCount :: Used(m, d, b) == (b < MetaEnd(m) || b in w.used))
    && (forall b | b in w.used :: MetaEnd(m) <= b < m.blocksCount)
    && (forall i | i in w.taken :: 1 <= i <= m.inodesCount)
    && (forall b {:trigger d[b]} | MetaEnd(m) <= b < m.blocksCount :: d[b] == w.d[b])
    && (forall b {:trigger w.d[b]} | 0 <= b < MetaEnd(m) :: w.d[b] == ZeroBlock())
  }

  /** How many data blocks are free. */
  function FreeBlocks(m: Mount, w: View): int {
    m.blocksCount - MetaEnd(m) - |w.used|
  }

  /** There is a free block exactly when fewer blocks are used than there are data blocks. */
  lemma Enough(m: Mount, d: Disk, w: View)
    requires Models(m, d, w)
    ensures 0 <= FreeBlocks(m, w)
    ensures FreeBlocks(m, w) == 0 <==> forall b | MetaEnd(m) <= b < m.blocksCount :: b in w.used
  {
    Interval(w.used, MetaEnd(m), m.blocksCount);
  }

  lemma {:induction false} Interval(s: set<nat>, lo: nat, hi: nat)
    requires lo <= hi && forall b | b in s :: lo <= b < hi
    ensures |s| <= hi - lo && (|s| == hi - lo <==> forall b | lo <= b < hi :: b in s)
    decreases hi - lo
  {
    if lo < hi {
      var t := s - {hi - 1};
      Interval(t, lo, hi - 1);
      assert hi - 1 in s ==> s == t + {hi - 1};
      assert hi - 1 !in s ==> s == t;
    }
  }

  // ---- frames: which bytes each part depends on ----

  lemma UsedFrame(m: Mount, d: Disk, d': Disk, b: nat)
    requires Mounted(m, d) && |d'| == |d| && 1 <= b < m.blocksCount
    requires forall g | 0 <= g < m.ngroups :: d'[m.blockBitmap[g]] == d[m.blockBitmap[g]]
    ensures Used(m, d', b) == Used(m, d, b)
  {
    assert 0 <= (b - 1) / BLOCKS_PER_GROUP < m.ngroups;
  }

  lemma TakenFrame(m: Mount, d: Disk, d': Disk, i: nat)
    requires Mounted(m, d) && |d'| == |d| && 1 <= i <= m.inodesCount
    requires forall g | 0 <= g < m.ngroups :: d'[m.inodeBitmap[g]] == d[m.inodeBitmap[g]]
    ensures InodeUsed(m, d', i) == InodeUsed(m, d, i)
  {
    assert 0 <= (i - 1) / INODES_PER_GROUP < m.ngroups;
  }

  /** Bitmaps of both kinds and the inode table never share a block. */
  lemma AreasApart(m: Mount, g: nat, h: nat)
    requires MkfsGeometry(m) && g < m.ngroups && h < m.ngroups
    ensures m.blockBitmap[g] != m.inodeBitmap[h] && m.blockBitmap[g] < MetaEnd(m) && m.inodeBitmap[g] < MetaEnd(m)
    ensures g != h ==> m.blockBitmap[g] != m.blockBitmap[h] && m.inodeBitmap[g] != m.inodeBitmap[h]
  {
  }

  lemma TableApart(m: Mount, ino: nat, g: nat)
    requires MkfsGeometry(m) && 1 <= ino <= m.inodesCount && g < m.ngroups
    ensures InodeBlock(m, ino) != m.blockBitmap[g] && InodeBlock(m, ino) != m.inodeBitmap[g]
    ensures InodeBlock(m, ino) < MetaEnd(m)
  {
    InodePlace(m, ino);
  }

  // ---- what each primitive does ----

  /** What the block allocator does when it returns b: the lowest clear bit, and only it, is set. */
  ghost predicate Allocated(m: Mount, d: Disk, d': Disk, b: nat)
    requires Mounted(m, d)
  {
    && |d'| == |d|
    && 1 <= b < m.blocksCount && !Used(m, d, b)
    && (forall c {:trigger Used(m, d, c)} | 1 <= c < b :: Used(m, d, c))
    && (forall c {:trigger Used(m, d', c)} {:trigger Used(m, d, c)} | 1 <= c < m.blocksCount ::
      Used(m, d', c) == (Used(m, d, c) || c == b))
    && (forall x {:trigger d'[x]} {:trigger d[x]} | 0 <= x < |d| && x != m.blockBitmap[(b - 1) / BLOCKS_PER_GROUP] ::
      d'[x] == d[x])
  }

  /** What the inode allocator does when it returns ino. */
  ghost predicate InodeAllocated(m: Mount, d: Disk, d': Disk, ino: nat)
    requires Mounted(m, d)
  {
    && |d'| == |d|
    && 1 <= ino <= m.inodesCount && !InodeUsed(m, d, ino)
    && (forall i {:trigger InodeUsed(m, d, i)} | 1 <= i < ino :: InodeUsed(m, d, i))
    && (forall i {:trigger InodeUsed(m, d', i)} {:trigger InodeUsed(m, d, i)} | 1 <= i <= m.inodesCount ::
      InodeUsed(m, d', i) == (InodeUsed(m, d, i) || i == ino))
    && (forall x {:trigger d'[x]} {:trigger d[x]} | 0 <= x < |d| && x != m.inodeBitmap[(ino - 1) / INODES_PER_GROUP] ::
      d'[x] == d[x])
  }

  lemma AllocatedModel(m: Mount, d: Disk, d': Disk, b: nat, w: View)
    requires Models(m, d, w) && Allocated(m, d, d', b)
    ensures 0 < b < |w.d| && b !in w.used && Models(m, d', w.(used := w.used + {b}))
  {
    var g := (b - 1) / BLOCKS_PER_GROUP;
    AllocatedInodes(m, d, d', b);
    AreasApart(m, g, g);
  }

  /** No inode and no inode bit changes. */
  lemma AllocatedInodes(m: Mount, d: Disk, d': Disk, b: nat)
    requires Mounted(m, d) && Allocated(m, d, d', b)
    ensures forall i | 1 <= i <= m.inodesCount :: InodeAt(m, d', i) == InodeAt(m, d, i)
    ensures forall i | 1 <= i <= m.inodesCount :: InodeUsed(m, d', i) == InodeUsed(m, d, i)
  {
    var g := (b - 1) / BLOCKS_PER_GROUP;
    forall i | 1 <= i <= m.inodesCount ensures InodeAt(m, d', i) == InodeAt(m, d, i) { TableApart(m, i, g); }
    forall h | 0 <= h < m.ngroups ensures d'[m.inodeBitmap[h]] == d[m.inodeBitmap[h]] { AreasApart(m, g, h); }
    forall i | 1 <= i <= m.inodesCount ensures InodeUsed(m, d', i) == InodeUsed(m, d, i) { TakenFrame(m, d, d', i); }
  }

  lemma InodeAllocatedModel(m: Mount, d: Disk, d': Disk, ino: nat, w: View)
    requires Models(m, d, w) && InodeAllocated(m, d, d', ino)
    ensures ino !in w.taken && Models(m, d', w.(taken := w.taken + {ino}))
  {
    var g := (ino - 1) / INODES_PER_GROUP;
    forall i | 1 <= i <= m.inodesCount ensures InodeAt(m, d', i) == InodeAt(m, d, i) { TableApart(m, i, g); }
    forall h | 0 <= h < m.ngroups ensures d'[m.blockBitmap[h]] == d[m.blockBitmap[h]] { AreasApart(m, h, g); }
    forall b | 1 <= b < m.blocksCount ensures Used(m, d', b) == Used(m, d, b) { UsedFrame(m, d, d', b); }
    AreasApart(m, g, g);
  }

  /** Writing one data-area block. */
  lemma DataModel(m: Mount, d: Disk, x: nat, c: Block, w: View)
    requires Models(m, d, w) && MetaEnd(m) <= x < m.blocksCount
    ensures Models(m, d[x := c], w.(d := w.d[x := c]))
  {
    var d' := d[x := c];
    forall i | 1 <= i <= m.inodesCount ensures InodeAt(m, d', i) == InodeAt(m, d, i) { TableApart(m, i, 0); }
    forall h | 0 <= h < m.ngroups
      ensures d'[m.blockBitmap[h]] == d[m.blockBitmap[h]] && d'[m.inodeBitmap[h]] == d[m.inodeBitmap[h]]
    { AreasApart(m, h, h); }
    forall b | 1 <= b < m.blocksCount ensures Used(m, d', b) == Used(m, d, b) { UsedFrame(m, d, d', b); }
    forall i | 1 <= i <= m.inodesCount ensures InodeUsed(m, d', i) == InodeUsed(m, d, i) { TakenFrame(m, d, d', i); }
  }

  lemma DecodeFrame(b: Block, b': Block, off: nat)
    requires off + INODE_SIZE <= BLOCK_SIZE
    requires forall k | off <= k < off + INODE_SIZE :: b'[k] == b[k]
    ensures DecodeInode(b', off) == DecodeInode(b, off)
  {
  }

  /** Replacing one record of a table block leaves every other inode. */
  lemma OtherInode(m: Mount, d: Disk, ino: nat, c: Block, i: nat)
    requires Mounted(m, d) && 1 <= ino <= m.inodesCount && 1 <= i <= m.inodesCount && i != ino
    requires forall k | 0 <= k < BLOCK_SIZE && !(InodeOffset(ino) <= k < InodeOffset(ino) + INODE_SIZE) ::
      c[k] == d[InodeBlock(m, ino)][k]
    ensures InodeAt(m, d[InodeBlock(m, ino) := c], i) == InodeAt(m, d, i)
  {
    InodesApart(m, i, ino);
    if InodeBlock(m, i) == InodeBlock(m, ino) { DecodeFrame(d[InodeBlock(m, ino)], c, InodeOffset(i)); }
  }

  /** Storing one inode record. */
  lemma InodeModel(m: Mount, d: Disk, ino: nat, c: Block, n: Inode, w: View)
    requires Models(m, d, w) && 1 <= ino <= m.inodesCount && DecodeInode(c, InodeOffset(ino)) == n
    requires forall k | 0 <= k < BLOCK_SIZE && !(InodeOffset(ino) <= k < InodeOffset(ino) + INODE_SIZE) ::
      c[k] == d[InodeBlock(m, ino)][k]
    ensures Models(m, d[InodeBlock(m, ino) := c], WithInode(w, ino, n))
  {
    var d' := d[InodeBlock(m, ino) := c];
    forall i | 1 <= i <= m.inodesCount && i != ino
      ensures InodeAt(m, d', i) == InodeAt(m, d, i)
    { OtherInode(m, d, ino, c, i); }
    forall h | 0 <= h < m.ngroups
      ensures d'[m.blockBitmap[h]] == d[m.blockBitmap[h]] && d'[m.inodeBitmap[h]] == d[m.inodeBitmap[h]]
    { TableApart(m, ino, h); }
    forall b | 1 <= b < m.blocksCount ensures Used(m, d', b) == Used(m, d, b) { UsedFrame(m, d, d', b); }
    forall i | 1 <= i <= m.inodesCount ensures InodeUsed(m, d', i) == InodeUsed(m, d, i) { TakenFrame(m, d, d', i); }
    TableApart(m, ino, 0);
  }

  // ---- bitmap scans ----

  ghost predicate UsedBelow(m: Mount, d: Disk, n: nat)
    requires Mounted(m, d)
  {
    forall c {:trigger Used(m, d, c)} | 1 <= c < n && c < m.blocksCount :: Used(m, d, c)
  }

  lemma AllUsed(m: Mount, d: Disk, n: nat, w: View)
    requires Models(m, d, w) && m.blocksCount <= n && UsedBelow(m, d, n)
    ensures forall b | MetaEnd(m) <= b < m.blocksCount :: b in w.used
  {
    forall b | MetaEnd(m) <= b < m.blocksCount ensures b in w.used { assert Used(m, d, b); }
  }

  ghost predicate InodesUsedBelow(m: Mount, d: Disk, n: nat)
    requires Mounted(m, d)
  {
    forall c {:trigger InodeUsed(m, d, c)} | 1 <= c < n && c <= m.inodesCount :: InodeUsed(m, d, c)
  }

  /** The bits of group g found set extend the run of used blocks. */
  lemma BlocksScanned(m: Mount, d: Disk, g: nat, n: nat)
    requires Mounted(m, d) && g < m.ngroups && n <= BLOCKS_PER_GROUP && UsedBelow(m, d, 1 + g * BLOCKS_PER_GROUP)
    requires forall j | 0 <= j < n && 1 + g * BLOCKS_PER_GROUP + j < m.blocksCount :: TestBit(d[m.blockBitmap[g]], j)
    ensures UsedBelow(m, d, 1 + g * BLOCKS_PER_GROUP + n)
  {
    forall c | 1 + g * BLOCKS_PER_GROUP <= c < 1 + g * BLOCKS_PER_GROUP + n && c < m.blocksCount ensures Used(m, d, c) {
      assert (c - 1) / BLOCKS_PER_GROUP == g;
    }
  }

  lemma InodesScanned(m: Mount, d: Disk, g: nat, n: nat)
    requires Mounted(m, d) && g < m.ngroups && n <= INODES_PER_GROUP && InodesUsedBelow(m, d, 1 + g * INODES_PER_GROUP)
    requires forall j | 0 <= j < n :: TestBit(d[m.inodeBitmap[g]], j)
    ensures InodesUsedBelow(m, d, 1 + g * INODES_PER_GROUP + n)
  {
    forall c | 1 + g * INODES_PER_GROUP <= c < 1 + g * INODES_PER_GROUP + n && c <= m.inodesCount
      ensures InodeUsed(m, d, c)
    {
      assert (c - 1) / INODES_PER_GROUP == g;
    }
  }

  /** bm' is bm with bit i set. */
  ghost predicate BitAdded(bm: Block, bm': Block, i: nat) {
    forall j | 0 <= j < 8 * BLOCK_SIZE :: TestBit(bm', j) == (j == i || TestBit(bm, j))
  }

  /** Setting the lowest clear bit i of group g's bitmap allocates block 1 + g * 8192 + i. */
  lemma BlockBitSet(m: Mount, d: Disk, g: nat, i: nat, bm': Block)
    requires Mounted(m, d) && g < m.ngroups && i < BLOCKS_PER_GROUP
    requires !TestBit(d[m.blockBitmap[g]], i) && BitAdded(d[m.blockBitmap[g]], bm', i)
    requires 1 + g * BLOCKS_PER_GROUP + i < m.blocksCount && UsedBelow(m, d, 1 + g * BLOCKS_PER_GROUP + i)
    ensures Allocated(m, d, d[m.blockBitmap[g] := bm'], 1 + g * BLOCKS_PER_GROUP + i)
  {
    var d' := d[m.blockBitmap[g] := bm'];
    var b := 1 + g * BLOCKS_PER_GROUP + i;
    assert (b - 1) / BLOCKS_PER_GROUP == g && (b - 1) % BLOCKS_PER_GROUP == i;
    forall c | 1 <= c < m.blocksCount ensures Used(m, d', c) == (Used(m, d, c) || c == b) {
      var h, j := (c - 1) / BLOCKS_PER_GROUP, (c - 1) % BLOCKS_PER_GROUP;
      assert c == 1 + h * BLOCKS_PER_GROUP + j;
      if h != g { assert d'[m.blockBitmap[h]] == d[m.blockBitmap[h]]; }
    }
  }

  lemma InodeBitSet(m: Mount, d: Disk, g: nat, i: nat, bm': Block)
    requires Mounted(m, d) && g < m.ngroups && i < INODES_PER_GROUP
    requires !TestBit(d[m.inodeBitmap[g]], i) && BitAdded(d[m.inodeBitmap[g]], bm', i)
    requires InodesUsedBelow(m, d, 1 + g * INODES_PER_GROUP + i)
    ensures InodeAllocated(m, d, d[m.inodeBitmap[g] := bm'], g * INODES_PER_GROUP + i + 1)
  {
    var d' := d[m.inodeBitmap[g] := bm'];
    var n := g * INODES_PER_GROUP + i + 1;
    assert (n - 1) / INODES_PER_GROUP == g && (n - 1) % INODES_PER_GROUP == i;
    forall c | 1 <= c <= m.inodesCount ensures InodeUsed(m, d', c) == (InodeUsed(m, d, c) || c == n) {
      var h, j := (c - 1) / INODES_PER_GROUP, (c - 1) % INODES_PER_GROUP;
      assert c == h * INODES_PER_GROUP + j + 1;
      if h != g { assert d'[m.inodeBitmap[h]] == d[m.inodeBitmap[h]]; }
    }
  }

  /** Scan one bitmap block byte by byte, then bit by bit: the lowest clear bit
      whose object number base + i is below limit, or 8 * nbytes when there is none. */
  method FirstClear(bm: Block, nbytes: nat, base: nat, limit: nat) returns (i: nat)
    requires nbytes <= BLOCK_SIZE
    ensures i <= 8 * nbytes
    ensures i < 8 * nbytes ==> !TestBit(bm, i) && base + i < limit
    ensures forall j | 0 <= j < i && base + j < limit :: TestBit(bm, j)
  {
    var at := 0;
    while at < nbytes
      invariant at <= nbytes
      invariant forall j | 0 <= j < 8 * at && base + j < limit :: TestBit(bm, j)
    {
      if bm[at] == 0xFF {
        forall j | 8 * at <= j < 8 * at + 8 ensures TestBit(bm, j) { AllOnes(8, j - 8 * at); }
      } else {
        var bit := 0;
        while bit < 8
          invariant bit <= 8
          invariant forall j | 0 <= j < 8 * at + bit && base + j < limit :: TestBit(bm, j)
        {
          if !Bit(bm[at], bit) {
            if base + 8 * at + bit < limit { return 8 * at + bit; }
            break;
          }
          bit := bit + 1;
        }
      }
      at := at + 1;
    }
    return 8 * nbytes;
  }

  /** Scan the groups in order and set the first clear bit below blocks_count:
      the bitmap blocks afterwards, and the block found or 0. */
  method TakeBlock(m: Mount, d: Disk) returns (result: u32, d': Disk)
    requires Mounted(m, d)
    ensures result == 0 ==> d' == d && UsedBelow(m, d, m.blocksCount)
    ensures result != 0 ==> Allocated(m, d, d', result)
  {
    var g := 0;
    while g < m.ngroups
      invariant g <= m.ngroups && UsedBelow(m, d, 1 + g * BLOCKS_PER_GROUP)
    {
      var bm := d[m.blockBitmap[g]];
      var base := m.firstDataBlock + g * m.blocksPerGroup;
      var i := FirstClear(bm, m.blockSize, base, m.blocksCount);
      BlocksScanned(m, d, g, i);
      if i < 8 * m.blockSize {
        BlockBitSet(m, d, g, i, SetBit(bm, i));
        return base + i, d[m.blockBitmap[g] := SetBit(bm, i)];
      }
      g := g + 1;
    }
    return 0, d;
  }

  /** The same over the inode bitmaps. */
  method TakeInode(m: Mount, d: Disk) returns (result: u32, d': Disk)
    requires Mounted(m, d)
    ensures result == 0 ==> d' == d && InodesUsedBelow(m, d, m.inodesCount + 1)
    ensures result != 0 ==> InodeAllocated(m, d, d', result)
  {
    var g := 0;
    while g < m.ngroups
      invariant g <= m.ngroups && InodesUsedBelow(m, d, 1 + g * INODES_PER_GROUP)
    {
      var bm := d[m.inodeBitmap[g]];
      var base := g * m.inodesPerGroup + 1;
      var i := FirstClear(bm, (m.inodesPerGroup + 7) / 8, base, m.inodesCount + 1);
      InodesScanned(m, d, g, i);
      if i < m.inodesPerGroup {
        InodeBitSet(m, d, g, i, SetBit(bm, i));
        return base + i, d[m.inodeBitmap[g] := SetBit(bm, i)];
      }
      g := g + 1;
    }
    return 0, d;
  }
}
