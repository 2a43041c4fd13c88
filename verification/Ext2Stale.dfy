/** What the write path does on a device whose free blocks are not zero: it takes
    them as indirect blocks as they are. */
module Ext2Stale {
  import opened Bytes
  import opened Ext2Layout
  import opened Ext2View
  import opened Ext2Alloc
  import opened Ext2File
  import opened Ext2Dir
  import opened Ext2Fs
  import opened Ext2Need
  import opened Ext2Driver
  import opened Ext2Mkfs

  lemma {:induction false} AtLeast(s: set<nat>, lo: nat, n: nat)
    requires forall b | lo <= b < lo + n :: b in s
    ensures |s| >= n
  {
    if n > 0 { AtLeast(s - {lo + n - 1}, lo, n - 1); }
  }

  /** Fifty blocks do not fill a formatted device, nor fifty inodes its tables. */
  lemma RoomLeft(m: Mount, w: View)
    requires MkfsGeometry(m) && m.blocksCount >= 8192
    ensures |w.used| <= 50 ==> exists b | MetaEnd(m) <= b < m.blocksCount :: b !in w.used
    ensures |w.taken| <= 50 ==> exists i | 1 <= i <= m.inodesCount :: i !in w.taken
  {
    assert MetaEnd(m) + 51 <= m.blocksCount;
    if forall b | MetaEnd(m) <= b < m.blocksCount :: b in w.used { AtLeast(w.used, MetaEnd(m), 51); }
    if forall i | 1 <= i <= m.inodesCount :: i in w.taken { AtLeast(w.taken, 1, 51); }
  }

  /** Every block of the data area that mkfs leaves alone starts with the number of the root directory's block. */
  ghost predicate StaleArea(m: Mount, d0: Disk)
    requires m.blocksCount <= |d0|
  {
    forall b | MetaEnd(m) + 2 <= b < m.blocksCount :: Le32(d0[b], 0) == MetaEnd(m)
  }

  ghost predicate StaleFree(w: View, x: nat) {
    forall b {:trigger w.d[b]} | x <= b < |w.d| && b !in w.used :: Le32(w.d[b], 0) == x
  }

  lemma FreshStale(m: Mount, d0: Disk, d: Disk)
    requires Formatted(m, d0, d) && StaleArea(m, d0)
    ensures StaleFree(FreshView(m, d), MetaEnd(m)) && V(FreshView(m, d), Ref(ROOT_INO, Top(0))) == MetaEnd(m)
  {
    var w := FreshView(m, d);
    forall b {:trigger w.d[b]} | MetaEnd(m) <= b < |w.d| && b !in w.used ensures Le32(w.d[b], 0) == MetaEnd(m) {
      assert KindOf(m, b) == Data && BlockOk(m, KindOf(m, b), d0[b], d[b]);
    }
    FreshSlots(m, d, Ref(ROOT_INO, Top(0)));
  }

  lemma StaleKept(w: View, w': View, x: nat)
    requires StaleFree(w, x) && FreeKept(w, w')
    ensures StaleFree(w', x)
  {
    forall b {:trigger w'.d[b]} | x <= b < |w'.d| && b !in w'.used ensures Le32(w'.d[b], 0) == x {
      assert StillFree(w, w', b);
      assert Le32(w.d[b], 0) == x;
    }
  }

  /** The root directory's only block is x, and at most so many blocks and inodes are taken. */
  ghost predicate RootAt(w: View, x: nat, blocks: nat, inodes: nat) {
    |w.inodes| >= ROOT_INO && w.inodes[ROOT_INO - 1].block[0] == x && x in w.used && |w.used| <= blocks
      && |w.taken| <= inodes
  }

  /** The file system is well formed, and its free blocks start with the number of the root's block. */
  ghost predicate Stale(dev: Ext2, blocks: nat, inodes: nat)
    reads dev
  {
    && dev.Valid() && dev.writable && dev.m.blocksCount >= 8192 && FsOk(dev.fs)
    && StaleFree(dev.fs, MetaEnd(dev.m)) && RootAt(dev.fs, MetaEnd(dev.m), blocks, inodes)
  }

  /** Format a device with such a data area. */
  method FormatStale(sectors: u32, d0: Disk, fill: Block) returns (dev: Ext2)
    requires |d0| == sectors / 2 && sectors >= 16384 && Groups(sectors / 2) <= MAX_GROUPS
    requires StaleArea(MkfsMount(sectors / 2), d0)
    ensures fresh(dev) && Stale(dev, 2, 11) && dev.fs.inodes[ROOT_INO - 1] == DirInode(MODE_DIR, MetaEnd(dev.m))
  {
    var ok, d, m := FormatAndProbe(sectors, d0, fill);
    ghost var w := FreshView(m, d);
    FreshStale(m, d0, d);
    assert w.inodes[ROOT_INO - 1] == FreshInode(m, ROOT_INO);
    dev := new Ext2(m, d, true, w);
  }

  /** Create a file in the root. */
  method CreateStale(dev: Ext2, name: seq<byte>) returns (ino: u32)
    requires Stale(dev, 2, 11) && dev.fs.inodes[ROOT_INO - 1] == DirInode(MODE_DIR, MetaEnd(dev.m))
    requires 0 < |name| < 0x100
    modifies dev
    ensures Stale(dev, 4, 12) && ROOT_INO != ino && 1 <= ino <= |dev.fs.inodes|
    ensures dev.fs.inodes[ino - 1] == EmptyInode(MODE_FILE)
  {
    ghost var w, x := dev.fs, MetaEnd(dev.m);
    ModeBits(x);
    ghost var child;
    ino, child := dev.CreateFile(ROOT_INO, name);
    StaleStays(w, dev.fs, x);
    RoomLeft(dev.m, dev.fs);
    assert ino == 0 ==> SameFile(w, dev.fs, ROOT_INO);
  }

  lemma StaleStays(w: View, w': View, x: nat)
    requires StaleFree(w, x) && RootAt(w, x, 2, 11) && Grew(w, w', 2, 1) && |w'.inodes| == |w.inodes| && Owned(w')
    requires 0 < x
    ensures StaleFree(w', x) && RootAt(w', x, 4, 12)
  {
    var r := Ref(ROOT_INO, Top(0));
    assert V(w, r) == x && KeptAt(w, w', r);
    StaleKept(w, w', x);
  }

  /** Write the first twelve blocks of the data to an empty file, which take no indirect block. */
  method TwelveBlocks(dev: Ext2, ino: u32, data: seq<byte>) returns (inode: Inode)
    requires Stale(dev, 4, 12) && ROOT_INO != ino && 1 <= ino <= |dev.fs.inodes|
    requires dev.fs.inodes[ino - 1] == EmptyInode(MODE_FILE)
    modifies dev
    ensures dev.Valid() && |dev.fs.inodes| == |old(dev.fs).inodes| && inode.block[12] == 0
    ensures StaleFree(dev.fs, MetaEnd(dev.m)) && RootAt(dev.fs, MetaEnd(dev.m), 40, 12)
    ensures Owned(WithInode(dev.fs, ino, inode)) && Written(WithInode(dev.fs, ino, inode), ino, data, 12)
  {
    ghost var w := dev.fs;
    var ok;
    ok, inode := dev.ReadInode(ino);
    ghost var n := inode;
    ghost var bn: nat;
    ok, inode, bn := dev.WriteBlocks(w, ino, inode, data, 12);
    NeededBound(w, ino, if ok then 12 else bn + 1);
    assert inode.block[12..][0] == n.block[12..][0];
    RoomLeft(dev.m, dev.fs);
    StaleKept(w, dev.fs, MetaEnd(dev.m));
  }

  /** The thirteenth block needs the singly indirect block. */
  method ThirteenthBlock(dev: Ext2, ino: u32, n: Inode, data: seq<byte>)
    requires dev.Valid() && dev.m.blocksCount >= 8192 && ROOT_INO != ino && 1 <= ino <= |dev.fs.inodes|
    requires n.block[12] == 0 && |data| == 13 * BLOCK_SIZE
    requires StaleFree(dev.fs, MetaEnd(dev.m)) && RootAt(dev.fs, MetaEnd(dev.m), 40, 12)
    modifies dev
    ensures dev.Valid() && V(dev.fs, Ref(ino, Ind(0))) == V(dev.fs, Ref(ROOT_INO, Top(0))) == MetaEnd(dev.m)
    ensures !Owned(dev.fs)
    ensures FileBlock(dev.fs, ROOT_INO, 0) == Chunk(data, 12)
  {
    ghost var w, x := dev.fs, MetaEnd(dev.m);
    RoomLeft(dev.m, dev.fs);
    var b := dev.AllocBlock();
    assert Le32(w.d[b], 0) == x;
    var inode := WithTop(n, 12, b);
    var phys := dev.IndGet(b, 0);
    dev.WriteBlock(phys, Chunk(data, 12));
    dev.WriteInode(ino, inode.(size := |data|));
    Shared(w, ino, inode.(size := |data|), b, x, Chunk(data, 12));
  }

  lemma Shared(w: View, ino: nat, n: Inode, b: nat, x: nat, c: Block)
    requires 1 <= ino <= |w.inodes| && ino != ROOT_INO <= |w.inodes| && n.block[12] == b && 0 < x < |w.d|
    requires 0 < b < |w.d| && b != x
    requires Le32(w.d[b], 0) == x && w.inodes[ROOT_INO - 1].block[0] == x
    ensures var w' := WithInode(w.(used := w.used + {b}, d := w.d[x := c]), ino, n);
      && V(w', Ref(ino, Ind(0))) == V(w', Ref(ROOT_INO, Top(0))) == x && !Owned(w') && FileBlock(w', ROOT_INO, 0) == c
  {
    var w' := WithInode(w.(used := w.used + {b}, d := w.d[x := c]), ino, n);
    assert Ptr(w'.d, b, 0) == x;
  }

  /** A thirteen-block write to a new file. The twelve direct blocks go well. For the thirteenth a free block is taken
      as singly indirect block as it is, its stale first entry is taken for the file's block, and the data overwrites
      the root directory's block, which the file and the root now share. */
  method StaleIndirect(sectors: u32, d0: Disk, fill: Block, name: seq<byte>, data: seq<byte>)
    returns (dev: Ext2, ino: u32)
    requires |d0| == sectors / 2 && sectors >= 16384 && Groups(sectors / 2) <= MAX_GROUPS && 0 < |name| < 0x100
    requires StaleArea(MkfsMount(sectors / 2), d0) && |data| == 13 * BLOCK_SIZE
    ensures dev.Valid() && ino != ROOT_INO && V(dev.fs, Ref(ino, Ind(0))) == V(dev.fs, Ref(ROOT_INO, Top(0))) != 0
    ensures !Owned(dev.fs)
    ensures FileBlock(dev.fs, ROOT_INO, 0) == Chunk(data, 12)
  {
    dev := FormatStale(sectors, d0, fill);
    ino := CreateStale(dev, name);
    var inode := TwelveBlocks(dev, ino, data);
    ThirteenthBlock(dev, ino, inode, data);
  }
}
