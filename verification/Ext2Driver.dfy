/** The ext2 write driver: one mount over one block device. */
module Ext2Driver {
  import opened Bytes
  import opened Ext2Layout
  import opened Ext2View
  import opened Ext2Alloc
  import opened Ext2File
  import opened Ext2Dir
  import opened Ext2Fs
  import opened Ext2Need

  class Ext2 {
    const m: Mount
    const writable: bool
    var disk: Disk

    /** The file system on the device. */
    ghost var fs: View

    ghost predicate Valid()
      reads this
    {
      Models(m, disk, fs)
    }

    /** No data block is free. */
    ghost predicate NoFreeBlock()
      reads this
    {
      forall b | MetaEnd(m) <= b < m.blocksCount :: b in fs.used
    }

    ghost predicate NoFreeInode()
      reads this
    {
      forall i | 1 <= i <= m.inodesCount :: i in fs.taken
    }

    /** Why an entry may fail to be linked: the target is no directory, the name is bad, the directory is at its size
        limit, or no block is free. */
    ghost predicate CannotLink(dirIno: u32, name: seq<byte>)
      reads this
    {
      !(1 <= dirIno <= |fs.inodes| && IsDir(fs.inodes[dirIno - 1]) && 0 < |name| < 0x100)
        || fs.inodes[dirIno - 1].size >= DIR_MAX_BLOCKS * BLOCK_SIZE || NoFreeBlock()
    }

    constructor (m: Mount, disk: Disk, writable: bool, ghost fs: View)
      requires Models(m, disk, fs)
      ensures this.m == m && this.disk == disk && this.writable == writable && this.fs == fs && Valid()
    {
      this.m, this.disk, this.writable, this.fs := m, disk, writable, fs;
    }

    // ---- primitives ----

    /** Returns the lowest clear block below blocks_count, setting only its bit,
        or 0 exactly when every block is used. */
    method AllocBlock() returns (result: u32)
      requires Valid()
      modifies this
      ensures Valid()
      ensures result == 0 ==> disk == old(disk) && fs == old(fs) && NoFreeBlock()
      ensures result != 0 ==> Allocated(m, old(disk), disk, result)
      ensures result != 0 ==> result < |fs.d| && result !in old(fs).used
      ensures result != 0 ==> fs == old(fs).(used := old(fs).used + {result})
      ensures |fs.used| == |old(fs).used| + if result == 0 then 0 else 1
    {
      result, disk := TakeBlock(m, disk);
      if result == 0 {
        AllUsed(m, disk, m.blocksCount, fs);
      } else {
        AllocatedModel(m, old(disk), disk, result, fs);
        fs := fs.(used := fs.used + {result});
      }
    }

    /** Returns the lowest clear inode, setting only its bit, or 0 exactly when every inode is used. */
    method AllocInode() returns (result: u32)
      requires Valid()
      modifies this
      ensures Valid()
      ensures result == 0 ==> disk == old(disk) && fs == old(fs) && NoFreeInode()
      ensures result != 0 ==> InodeAllocated(m, old(disk), disk, result)
      ensures result != 0 ==> result <= |fs.inodes| && result !in old(fs).taken
      ensures result != 0 ==> fs == old(fs).(taken := old(fs).taken + {result})
    {
      result, disk := TakeInode(m, disk);
      if result == 0 {
        forall i | 1 <= i <= m.inodesCount ensures i in fs.taken { assert InodeUsed(m, disk, i); }
      } else {
        InodeAllocatedModel(m, old(disk), disk, result, fs);
        fs := fs.(taken := fs.taken + {result});
      }
    }

    /** Decode one inode record; none outside the table. */
    method ReadInode(ino: u32) returns (ok: bool, n: Inode)
      requires Valid()
      ensures ok == (1 <= ino <= |fs.inodes|)
      ensures ok ==> n == fs.inodes[ino - 1]
    {
      n := EmptyInode(0);
      ok := 1 <= ino <= m.inodesCount;
      if ok { n := InodeAt(m, disk, ino); }
    }

    /** Patch one inode record in its table block. */
    method WriteInode(ino: nat, n: Inode)
      requires Valid() && 1 <= ino <= |fs.inodes|
      modifies this
      ensures Valid() && fs == WithInode(old(fs), ino, n)
    {
      var blk := InodeBlock(m, ino);
      var buf := EncodeInode(disk[blk], InodeOffset(ino), n);
      InodeModel(m, disk, ino, buf, n, fs);
      disk := disk[blk := buf];
      fs := WithInode(fs, ino, n);
    }

    method ReadBlock(x: nat) returns (c: Block)
      requires Valid() && x in fs.used
      ensures x < |fs.d| && c == fs.d[x]
    {
      c := disk[x];
    }

    method WriteBlock(x: nat, c: Block)
      requires Valid() && x in fs.used
      modifies this
      ensures Valid() && x < |old(fs).d| && fs == old(fs).(d := old(fs).d[x := c])
    {
      DataModel(m, disk, x, c, fs);
      disk := disk[x := c];
      fs := fs.(d := fs.d[x := c]);
    }

    /** Entry j of indirect block x. */
    method IndGet(x: u32, j: nat) returns (v: u32)
      requires Valid() && x in fs.used && j < PPB
      ensures v == Ptr(fs.d, x, j)
    {
      var ibuf := ReadBlock(x);
      v := Le32(ibuf, j * 4);
    }

    /** Patch entry j of indirect block x. */
    method IndSet(x: u32, j: nat, v: u32)
      requires Valid() && x in fs.used && j < PPB
      modifies this
      ensures Valid() && EntryPatched(old(fs).d, fs.d, x, j, v) && fs == old(fs).(d := fs.d)
    {
      var ibuf := ReadBlock(x);
      WriteBlock(x, Put32(ibuf, j * 4, v));
    }

    // ---- whole-file write ----

    /** i_block[i] of the copy, allocated on demand. */
    method MapTop(ghost w0: View, ghost ino: nat, n: Inode, i: nat, ghost need: set<Slot>) returns (n': Inode)
      requires Valid() && Writing(w0, fs, ino, n) && i < 15 && (HoldsPointers(Top(i)) ==> Clean(w0))
      requires Counted(w0, fs, ino, n, need)
      modifies this
      ensures Valid() && Writing(w0, fs, ino, n') && n'.mode == n.mode && n'.size == n.size
      ensures n'.block == n.block[i := n'.block[i]]
      ensures Extends(WithInode(old(fs), ino, n), WithInode(fs, ino, n'))
      ensures SlotSet(WithInode(old(fs), ino, n), WithInode(fs, ino, n'), Ref(ino, Top(i)), n'.block[i])
      ensures n'.block[i] != 0 ==> Counted(w0, fs, ino, n', AddIf(w0, ino, need, Top(i)))
      ensures n'.block[i] == 0 ==> NoFreeBlock() && Counted(w0, fs, ino, n', need)
    {
      n' := n;
      if n.block[i] == 0 {
        var b := AllocBlock();
        if b != 0 {
          AllocStep(w0, old(fs), ino, n, b);
          if Clean(w0) { CleanKept(w0, old(fs)); }
          TopStep(w0, fs, ino, n, i, b);
          ExtendsTransitive(WithInode(old(fs), ino, n), WithInode(fs, ino, n), WithInode(fs, ino, WithTop(n, i, b)));
          n' := WithTop(n, i, b);
          CountSlot(w0, old(fs), fs, ino, n, n', need, Top(i), b);
        }
      } else {
        CountNone(w0, fs, ino, n, need, Top(i));
      }
    }

    /** Entry j of the pointer block that slot p names, allocated on demand. */
    method MapEntry(ghost w0: View, ghost p: Ref, n: Inode, blk: u32, j: nat, ghost need: set<Slot>) returns (phys: u32)
      requires Valid() && Writing(w0, fs, p.ino, n) && HoldsPointers(p.slot) && j < PPB && Clean(w0)
      requires Counted(w0, fs, p.ino, n, need)
      requires blk == V(WithInode(fs, p.ino, n), p) != 0
      modifies this
      ensures Valid() && Writing(w0, fs, p.ino, n)
      ensures Extends(WithInode(old(fs), p.ino, n), WithInode(fs, p.ino, n))
      ensures SlotSet(WithInode(old(fs), p.ino, n), WithInode(fs, p.ino, n), Child(p, j), phys)
      ensures phys != 0 ==> Counted(w0, fs, p.ino, n, AddIf(w0, p.ino, need, Child(p, j).slot))
      ensures phys == 0 ==> NoFreeBlock() && Counted(w0, fs, p.ino, n, need)
    {
      phys := IndGet(blk, j);
      if phys == 0 {
        phys := FillEntry(w0, p, n, blk, j, need);
      } else {
        CountNone(w0, fs, p.ino, n, need, Child(p, j).slot);
      }
    }

    /** Allocate a block for the empty entry j. */
    method FillEntry(ghost w0: View, ghost p: Ref, ghost n: Inode, blk: u32, j: nat, ghost need: set<Slot>)
      returns (phys: u32)
      requires Valid() && Writing(w0, fs, p.ino, n) && HoldsPointers(p.slot) && j < PPB && Clean(w0)
      requires Counted(w0, fs, p.ino, n, need) && V(WithInode(fs, p.ino, n), Child(p, j)) == 0
      requires blk == V(WithInode(fs, p.ino, n), p) != 0
      modifies this
      ensures Valid() && Writing(w0, fs, p.ino, n)
      ensures Extends(WithInode(old(fs), p.ino, n), WithInode(fs, p.ino, n))
      ensures SlotSet(WithInode(old(fs), p.ino, n), WithInode(fs, p.ino, n), Child(p, j), phys)
      ensures phys != 0 ==> Counted(w0, fs, p.ino, n, AddIf(w0, p.ino, need, Child(p, j).slot))
      ensures phys == 0 ==> NoFreeBlock() && Counted(w0, fs, p.ino, n, need)
    {
      phys := AllocBlock();
      if phys != 0 {
        ghost var w1 := fs;
        AllocStep(w0, old(fs), p.ino, n, phys);
        IndSet(blk, j, phys);
        EntryFilled(w0, old(fs), w1, n, p, j, phys, fs.d, need);
      }
    }

    /** The last level: entry j of the pointer block that slot p names, none if blocks ran out on the way to it. */
    method MapLast(ghost w0: View, ghost w: View, ghost n: Inode, n': Inode, ghost p: Ref, blk: u32, j: nat,
        ghost bn: nat, ghost need: set<Slot>, ghost above: set<Slot>)
      returns (phys: u32)
      requires Valid() && Writing(w0, fs, p.ino, n') && HoldsPointers(p.slot) && j < PPB && Clean(w0)
      requires p.ino <= |w.inodes| == |fs.inodes| && blk == V(WithInode(fs, p.ino, n'), p)
      requires Extends(WithInode(w, p.ino, n), WithInode(fs, p.ino, n'))
      requires SameMap(WithInode(w, p.ino, n), WithInode(fs, p.ino, n'), p.ino)
      requires 12 <= bn && Child(p, j) == Ref(p.ino, SlotOf(bn))
      requires AddPath(w0, p.ino, need, bn) == AddIf(w0, p.ino, above, SlotOf(bn))
      requires if blk != 0 then Counted(w0, fs, p.ino, n', above) else NoFreeBlock() && |fs.used| < |w0.used| + |above|
      modifies this
      ensures Valid() && Writing(w0, fs, p.ino, n') && Extends(WithInode(w, p.ino, n), WithInode(fs, p.ino, n'))
      ensures MappedOne(w0, w, fs, p.ino, n, n', bn, phys, need) && (phys == 0 ==> NoFreeBlock())
    {
      ghost var w1 := fs;
      if blk == 0 {
        NoSlot(w0, w, fs, n, n', p, j, bn, need, above);
        phys := 0;
      } else {
        phys := MapEntry(w0, p, n', blk, j, above);
        ExtendsTransitive(WithInode(w, p.ino, n), WithInode(w1, p.ino, n'), WithInode(fs, p.ino, n'));
        LastSlot(w0, w, w1, fs, p.ino, n, n', bn, phys, need, above);
      }
    }

    /** Singly indirect mapping of logical block 12 + l1. */
    method MapSingle(ghost w0: View, ghost ino: nat, n: Inode, l1: nat, ghost need: set<Slot>)
      returns (n': Inode, phys: u32)
      requires Valid() && Writing(w0, fs, ino, n) && l1 < PPB && Clean(w0) && Counted(w0, fs, ino, n, need)
      modifies this
      ensures Valid() && Writing(w0, fs, ino, n') && n'.mode == n.mode
      ensures Extends(WithInode(old(fs), ino, n), WithInode(fs, ino, n'))
      ensures MappedOne(w0, old(fs), fs, ino, n, n', 12 + l1, phys, need) && (phys == 0 ==> NoFreeBlock())
    {
      ghost var p, above := Ref(ino, Top(12)), AddIf(w0, ino, need, Top(12));
      n' := MapTop(w0, ino, n, 12, need);
      PointerSlot(WithInode(old(fs), ino, n), WithInode(fs, ino, n'), ino, p, n'.block[12]);
      if n'.block[12] == 0 { CountOwed(w0, fs, ino, n', need, Top(12)); }
      phys := MapLast(w0, old(fs), n, n', p, n'.block[12], l1, 12 + l1, need, above);
    }

    /** The second-level block j of the copy, allocated on demand with the doubly indirect block above it. */
    method MapSecond(ghost w0: View, ghost ino: nat, n: Inode, j: nat, ghost need: set<Slot>)
      returns (n': Inode, blk: u32)
      requires Valid() && Writing(w0, fs, ino, n) && j < PPB && Clean(w0) && Counted(w0, fs, ino, n, need)
      modifies this
      ensures Valid() && Writing(w0, fs, ino, n') && n'.mode == n.mode
      ensures Extends(WithInode(old(fs), ino, n), WithInode(fs, ino, n'))
      ensures SameMap(WithInode(old(fs), ino, n), WithInode(fs, ino, n'), ino)
      ensures blk == V(WithInode(fs, ino, n'), Ref(ino, Dind(j)))
      ensures blk != 0 ==> Counted(w0, fs, ino, n', AddIf(w0, ino, AddIf(w0, ino, need, Top(13)), Dind(j)))
      ensures blk == 0 ==> NoFreeBlock()
      ensures blk == 0 ==> |fs.used| < |w0.used| + |AddIf(w0, ino, AddIf(w0, ino, need, Top(13)), Dind(j))|
    {
      ghost var u0, need1 := WithInode(fs, ino, n), AddIf(w0, ino, need, Top(13));
      AddIfGrows(w0, ino, need1, Dind(j));
      n' := MapTop(w0, ino, n, 13, need);
      ghost var u1 := WithInode(fs, ino, n');
      PointerSlot(u0, u1, ino, Ref(ino, Top(13)), n'.block[13]);
      if n'.block[13] == 0 {
        CountOwed(w0, fs, ino, n', need, Top(13));
        return n', 0;
      }
      blk := MapEntry(w0, Ref(ino, Top(13)), n', n'.block[13], j, need1);
      ghost var u2 := WithInode(fs, ino, n');
      ExtendsTransitive(u0, u1, u2);
      PointerSlot(u1, u2, ino, Ref(ino, Dind(j)), blk);
      SameMapTransitive(u0, u1, u2, ino);
      if blk == 0 { CountOwed(w0, fs, ino, n', need1, Dind(j)); }
    }

    /** Doubly indirect mapping of logical block 12 + 256 + l2. */
    method MapDouble(ghost w0: View, ghost ino: nat, n: Inode, l2: nat, ghost need: set<Slot>)
      returns (n': Inode, phys: u32)
      requires Valid() && Writing(w0, fs, ino, n) && l2 < PPB * PPB && Clean(w0) && Counted(w0, fs, ino, n, need)
      modifies this
      ensures Valid() && Writing(w0, fs, ino, n') && n'.mode == n.mode
      ensures Extends(WithInode(old(fs), ino, n), WithInode(fs, ino, n'))
      ensures MappedOne(w0, old(fs), fs, ino, n, n', 12 + PPB + l2, phys, need) && (phys == 0 ==> NoFreeBlock())
    {
      var j, k := l2 / PPB, l2 % PPB;
      ghost var above := AddIf(w0, ino, AddIf(w0, ino, need, Top(13)), Dind(j));
      assert SlotOf(12 + PPB + l2) == Leaf(j, k);
      var blk;
      n', blk := MapSecond(w0, ino, n, j, need);
      phys := MapLast(w0, old(fs), n, n', Ref(ino, Dind(j)), blk, k, 12 + PPB + l2, need, above);
    }

    /** The block that maps logical block bn, allocating every missing level;
        0 when blocks run out or the file would need triple indirection. */
    method MapBlock(ghost w0: View, ghost ino: nat, n: Inode, bn: nat, ghost need: set<Slot>)
      returns (n': Inode, phys: u32)
      requires Valid() && Writing(w0, fs, ino, n) && (bn >= 12 ==> Clean(w0)) && Counted(w0, fs, ino, n, need)
      modifies this
      ensures Valid() && Writing(w0, fs, ino, n') && n'.mode == n.mode
      ensures Extends(WithInode(old(fs), ino, n), WithInode(fs, ino, n'))
      ensures bn < MAX_BLOCKS ==> MappedOne(w0, old(fs), fs, ino, n, n', bn, phys, need)
      ensures bn < MAX_BLOCKS ==> (phys == 0 ==> NoFreeBlock())
      ensures bn >= MAX_BLOCKS ==> phys == 0 && fs == old(fs) && n' == n
      ensures bn < 12 ==> n'.block == n.block[bn := n'.block[bn]]
    {
      if bn < 12 {
        n' := MapTop(w0, ino, n, bn, need);
        phys := n'.block[bn];
        MappedFrom(WithInode(old(fs), ino, n), WithInode(fs, ino, n'), ino, bn, phys);
        if phys == 0 { CountOwed(w0, fs, ino, n', need, Top(bn)); }
      } else if bn < 12 + PPB {
        n', phys := MapSingle(w0, ino, n, bn - 12, need);
      } else if bn < MAX_BLOCKS {
        n', phys := MapDouble(w0, ino, n, bn - 12 - PPB, need);
      } else {
        ExtendsRefl(WithInode(fs, ino, n));
        n', phys := n, 0;
      }
    }

    /** A write of n blocks in progress: the first bn hold their chunks, and every slot on the way to them is paid
        for. */
    ghost predicate Midway(w0: View, ino: nat, n: Inode, data: seq<byte>, bn: nat)
      requires 1 <= ino <= |fs.inodes|
      reads this
    {
      var u := WithInode(fs, ino, n);
      && Written(u, ino, data, bn) && RestKept(w0, u, ino, bn) && PointersKept(w0, u)
      && Counted(w0, fs, ino, n, Needed(w0, ino, bn))
    }

    /** Put chunk bn of the data in the block just mapped for it. */
    method PutChunk(ghost w0: View, ghost ino: nat, ghost n: Inode, data: seq<byte>, bn: nat, phys: u32)
      requires Valid() && Writing(w0, fs, ino, n) && phys == V(WithInode(fs, ino, n), Ref(ino, SlotOf(bn))) != 0
      requires Written(WithInode(fs, ino, n), ino, data, bn) && RestKept(w0, WithInode(fs, ino, n), ino, bn + 1)
      requires PointersKept(w0, WithInode(fs, ino, n)) && Counted(w0, fs, ino, n, Needed(w0, ino, bn + 1))
      modifies this
      ensures Valid() && Writing(w0, fs, ino, n) && Midway(w0, ino, n, data, bn + 1)
    {
      ghost var w1, u1 := fs, WithInode(fs, ino, n);
      SlotOfInjective(bn, bn);
      DataSlotAlone(u1, Ref(ino, SlotOf(bn)));
      WriteBlock(phys, Chunk(data, bn));
      BlockStep(w0, w1, ino, n, phys, Chunk(data, bn));
      ghost var u2 := WithInode(fs, ino, n);
      WrittenMore(u1, ino, bn, data, u2);
      RestWritten(w0, u1, u2, ino, bn, Chunk(data, bn));
      CountSame(w0, w1, fs, ino, n, n, Needed(w0, ino, bn + 1));
      KeptSame(w0, u1, u2);
    }

    /** A write that could not map block bn, for want of a block or of a level of indirection. */
    ghost predicate Stopped(w0: View, ino: nat, n: Inode, data: seq<byte>, bn: nat)
      requires 1 <= ino <= |fs.inodes|
      reads this
    {
      var u := WithInode(fs, ino, n);
      && Written(u, ino, data, bn) && RestKept(w0, u, ino, bn) && PointersKept(w0, u)
      && GivesUp(w0, ino, bn, FreeBlocks(m, w0))
      && (bn < MAX_BLOCKS ==> NoFreeBlock() && |fs.used| < |w0.used| + |Needed(w0, ino, bn + 1)|)
    }

    /** Map block bn and put its chunk there. */
    method WriteOne(ghost w0: View, ghost ino: nat, n: Inode, data: seq<byte>, bn: nat)
      returns (ok: bool, n': Inode, bn': nat)
      requires Valid() && Writing(w0, fs, ino, n) && Midway(w0, ino, n, data, bn)
      requires bn <= MAX_BLOCKS && (bn >= 12 ==> Clean(w0))
      modifies this
      ensures Valid() && Writing(w0, fs, ino, n') && n'.mode == n.mode && bn' == if ok then bn + 1 else bn
      ensures if ok then bn < MAX_BLOCKS && Midway(w0, ino, n', data, bn + 1) else Stopped(w0, ino, n', data, bn)
      ensures bn < 12 ==> n'.block[12..] == n.block[12..]
    {
      ghost var u := WithInode(fs, ino, n);
      Enough(m, disk, fs);
      var phys;
      n', phys := MapBlock(w0, ino, n, bn, Needed(w0, ino, bn));
      ghost var u1 := WithInode(fs, ino, n');
      ExtendsWritten(u, u1, ino, data, bn);
      KeptExtends(w0, u, u1);
      if bn < MAX_BLOCKS { RestMapped(w0, u, u1, ino, bn, phys); }
      ok, bn' := phys != 0, if phys != 0 then bn + 1 else bn;
      if ok { PutChunk(w0, ino, n', data, bn, phys); } else { Enough(m, disk, fs); }
    }

    /** Write blocks 0 .. n-1 of the data, mapping each first; not ok when a block cannot be mapped. */
    method WriteBlocks(ghost w0: View, ghost ino: nat, start: Inode, data: seq<byte>, n: nat)
      returns (ok: bool, inode: Inode, ghost at: nat)
      requires Valid() && fs == w0 && 1 <= ino <= |w0.inodes| && Owned(w0) && start == w0.inodes[ino - 1]
      requires (n > 12 ==> Clean(w0))
      modifies this
      ensures Valid() && Writing(w0, fs, ino, inode) && inode.mode == start.mode && at <= n
      ensures if ok then at == n <= MAX_BLOCKS && Midway(w0, ino, inode, data, n)
        else at < n && Stopped(w0, ino, inode, data, at)
      ensures n <= 12 ==> inode.block[12..] == start.block[12..]
    {
      inode, ok := start, true;
      WritingStart(w0, ino);
      StartMidway(w0, ino, data);
      var bn := 0;
      while ok && bn < n
        invariant Valid() && Writing(w0, fs, ino, inode) && inode.mode == start.mode && bn <= n && bn <= MAX_BLOCKS
        invariant if ok then Midway(w0, ino, inode, data, bn) else bn < n && Stopped(w0, ino, inode, data, bn)
        invariant n <= 12 ==> inode.block[12..] == start.block[12..]
        decreases ok, n - bn
      {
        ok, inode, bn := WriteOne(w0, ino, inode, data, bn);
      }
      at := bn;
    }

    lemma StartMidway(w0: View, ino: nat, data: seq<byte>)
      requires fs == w0 && 1 <= ino <= |w0.inodes|
      ensures Midway(w0, ino, w0.inodes[ino - 1], data, 0)
    {
      assert WithInode(w0, ino, w0.inodes[ino - 1]) == w0 by {
        assert w0.inodes[ino - 1 := w0.inodes[ino - 1]] == w0.inodes;
      }
      CountStart(w0, ino);
      RestStart(w0, ino);
    }

    /** Replace the contents of regular file ino by data. On success the file
        reads back as exactly the data; whatever the outcome, the file system
        stays well formed and every other inode keeps its record, contents and
        listing. A write of an acceptable size to a regular file succeeds exactly
        when there is a free block for every empty slot on the way to its blocks.
        One that fails leaves the record, and new data in a prefix of the blocks. */
    method WriteFile(ino: u32, data: seq<byte>) returns (rc: int)
      requires Valid() && FsOk(fs) && Clean(fs) && |data| < 0x1_0000_0000
      modifies this
      ensures Valid() && FsOk(fs) && Clean(fs) && Wrote(old(fs), fs, ino, data, rc, writable, FreeBlocks(m, old(fs)))
      ensures !Target(writable, old(fs), ino) ==> disk == old(disk)
    {
      ghost var w0, free := fs, FreeBlocks(m, fs);
      var ok; var inode: Inode;
      ok, inode := ReadInode(ino);
      if !writable || !ok || !IsReg(inode) {
        NoTarget(fs, ino, data, writable, free);
        return -1;
      }
      var nblocks := (|data| + m.blockSize - 1) / m.blockSize;
      WritingStart(w0, ino);
      ghost var bn: nat;
      ok, inode, bn := WriteBlocks(w0, ino, inode, data, nblocks);
      CleanKept(w0, fs);
      Enough(m, disk, fs);
      if !ok {
        Abandon(w0, fs, ino, inode);
        RegularOk(w0, fs, ino);
        GaveUp(w0, fs, ino, inode, data, bn);
        WriteFailed(w0, fs, ino, data, writable, free, bn);
        return -1;
      }
      ghost var w1, u1 := fs, WithInode(fs, ino, inode);
      inode := inode.(size := |data|);
      WriteInode(ino, inode);
      Commit(w0, w1, ino, u1.inodes[ino - 1], inode);
      ExtendsWritten(u1, fs, ino, data, nblocks);
      WrittenContent(fs, ino, data);
      RegularOk(w0, fs, ino);
      rc := |data|;
    }

    // ---- whole-file read ----

    /** Read up to size bytes of inode ino: exactly that prefix of its contents. */
    method ReadFile(ino: u32, size: nat) returns (rc: int, buffer: seq<byte>)
      requires Valid() && Owned(fs)
      ensures !(1 <= ino <= |fs.inodes|) ==> rc == -1
      ensures 1 <= ino <= |fs.inodes| ==>
        var c := Content(fs, ino);
        rc == |buffer| && buffer == if size < |c| then c[..size] else c
    {
      var ok; var inode: Inode;
      ok, inode := ReadInode(ino);
      if !ok { return -1, []; }
      var size := if size > inode.size then inode.size else size;
      var nblocks := (size + m.blockSize - 1) / m.blockSize;
      buffer := [];
      var b := 0;
      while b < nblocks && |buffer| < size
        invariant b <= nblocks && |buffer| == if b < nblocks then b * BLOCK_SIZE else size
        invariant buffer == Content(fs, ino)[..|buffer|]
      {
        var copy := if |buffer| + m.blockSize > size then size - |buffer| else m.blockSize;
        var phys, bbuf := BlockOf(ino, inode, b);
        ReadSlice(fs, ino, b, copy);
        buffer := buffer + bbuf[..copy];
        b := b + 1;
      }
      rc := |buffer|;
    }

    /** Logical block b of an inode through the read path's mapping; a hole reads as zeros. */
    method BlockOf(ghost ino: nat, inode: Inode, b: nat) returns (phys: u32, c: Block)
      requires Valid() && Owned(fs) && 1 <= ino <= |fs.inodes| && inode == fs.inodes[ino - 1]
      ensures phys == V(fs, Ref(ino, SlotOf(b))) && c == FileBlock(fs, ino, b)
    {
      BmapFindsSlot(fs, disk, ino, b);
      phys := Bmap(disk, inode.block, b);
      if phys == 0 { return 0, ZeroBlock(); }
      c := ReadBlock(phys);
    }

    // ---- directories ----

    /** Link e into the first block of directory ino that has room. */
    method LinkInExisting(ino: nat, dir: Inode, e: Entry, ghost bs: seq<Block>) returns (done: bool)
      requires Valid() && FsOk(fs) && 1 <= ino <= |fs.inodes| && dir == fs.inodes[ino - 1] && IsDir(dir)
      requires DirIs(fs, ino, bs) && AllTiled(bs) && 0 < |e.name| < 0x100 && e.ino != 0
      modifies this
      ensures Valid()
      ensures !done ==> fs == old(fs) && forall k | 0 <= k < |bs| :: Full(bs[k], MinLen(|e.name|))
      ensures Grew(old(fs), fs, 0, 0)
      ensures done ==> FsOk(fs) && fs == old(fs).(d := fs.d) && OthersKept(old(fs), fs, ino)
      ensures done ==> Inserted(Listing(old(fs), ino), Listing(fs, ino), e)
    {
      var nblocks := (dir.size + m.blockSize - 1) / m.blockSize;
      var b := 0;
      while b < nblocks
        invariant b <= nblocks == |bs| && Valid() && fs == old(fs)
        invariant forall k | 0 <= k < b :: Full(bs[k], MinLen(|e.name|))
      {
        var phys, dbuf := BlockOf(ino, dir, b);
        assert dbuf == bs[b];
        var linked, dbuf' := LinkInBlock(dbuf, e);
        if linked {
          WriteBlock(phys, dbuf');
          LinkedOk(old(fs), fs, ino, bs, b, dbuf', e);
          return true;
        }
        b := b + 1;
      }
      GrewRefl(fs);
      return false;
    }

    /** Give the copy a zeroed singly indirect block. */
    method ZeroTop(ghost w0: View, ghost ino: nat, n: Inode, ghost nb: u32) returns (ok: bool, n': Inode)
      requires Valid() && Writing(w0, fs, ino, n) && n.block[12] == 0 && Fresh(WithInode(fs, ino, n), nb)
      modifies this
      ensures Valid() && n'.mode == n.mode && n'.size == n.size && |fs.used| <= |old(fs).used| + 1
      ensures !ok ==> fs == old(fs) && NoFreeBlock()
      ensures ok ==> Writing(w0, fs, ino, n') && n'.block[12] != 0 && Fresh(WithInode(fs, ino, n'), nb)
      ensures ok ==> fs.d[nb] == old(fs).d[nb]
      ensures ok ==> Extends(WithInode(old(fs), ino, n), WithInode(fs, ino, n'))
      ensures ok ==> SlotSet(WithInode(old(fs), ino, n), WithInode(fs, ino, n'), Ref(ino, Top(12)), n'.block[12])
    {
      n' := n;
      var ind := AllocBlock();
      ok := ind != 0;
      if ok {
        WriteBlock(ind, ZeroBlock());
        ZeroTopStep(w0, old(fs), fs, ino, n, ind, nb);
        n' := WithTop(n, 12, ind);
      }
    }

    /** Point slot bn of the copy at block nb, building the singly indirect block if needed. */
    method LinkNew(ghost w0: View, ghost ino: nat, n: Inode, bn: nat, nb: u32) returns (ok: bool, n': Inode)
      requires Valid() && Writing(w0, fs, ino, n) && Fresh(WithInode(fs, ino, n), nb)
      requires V(WithInode(fs, ino, n), Ref(ino, SlotOf(bn))) == 0
      modifies this
      ensures Valid() && n'.mode == n.mode && n'.size == n.size
      ensures !ok ==> fs == old(fs) && (bn >= DIR_MAX_BLOCKS || NoFreeBlock())
      ensures ok ==> bn < DIR_MAX_BLOCKS && Writing(w0, fs, ino, n') && fs.d[nb] == old(fs).d[nb]
      ensures ok ==> |fs.used| <= |old(fs).used| + 1
      ensures ok ==> Extends(WithInode(old(fs), ino, n), WithInode(fs, ino, n'))
      ensures ok ==> Mapped(WithInode(old(fs), ino, n), WithInode(fs, ino, n'), ino, bn, nb)
    {
      n', ok := n, bn < DIR_MAX_BLOCKS;
      if bn < 12 {
        TopStep(w0, fs, ino, n, bn, nb);
        n' := WithTop(n, bn, nb);
        MappedFrom(WithInode(fs, ino, n), WithInode(fs, ino, n'), ino, bn, nb);
      } else if ok && n.block[12] != 0 {
        LinkSingle(w0, ino, n, bn, nb);
      } else if ok {
        ok, n' := ZeroTop(w0, ino, n, nb);
        if ok {
          ghost var u0, u1 := WithInode(old(fs), ino, n), WithInode(fs, ino, n');
          MappedSame(u0, u1, ino, Ref(ino, Top(12)), n'.block[12]);
          LinkSingle(w0, ino, n', bn, nb);
          MappedThrough(u0, u1, WithInode(fs, ino, n'), ino, n'.block[12], bn, nb);
        }
      }
    }

    /** Point slot bn at block nb in the singly indirect block that is there. */
    method LinkSingle(ghost w0: View, ghost ino: nat, n: Inode, bn: nat, nb: u32)
      requires Valid() && Writing(w0, fs, ino, n) && Fresh(WithInode(fs, ino, n), nb) && n.block[12] != 0
      requires 12 <= bn < DIR_MAX_BLOCKS && V(WithInode(fs, ino, n), Ref(ino, SlotOf(bn))) == 0
      modifies this
      ensures Valid() && Writing(w0, fs, ino, n) && fs.d[nb] == old(fs).d[nb] && fs.used == old(fs).used
      ensures Extends(WithInode(old(fs), ino, n), WithInode(fs, ino, n))
      ensures Mapped(WithInode(old(fs), ino, n), WithInode(fs, ino, n), ino, bn, nb)
    {
      assert V(WithInode(fs, ino, n), Ref(ino, Top(12))) == n.block[12];
      IndSet(n.block[12], bn - 12, nb);
      EntryStep(w0, old(fs), n, Ref(ino, Top(12)), bn - 12, nb, fs.d);
      MappedFrom(WithInode(old(fs), ino, n), WithInode(fs, ino, n), ino, bn, nb);
    }

    /** Take a block and fill it with e alone. */
    method NewEntryBlock(ghost ino: nat, ghost dir: Inode, e: Entry) returns (nb: u32)
      requires Valid() && Owned(fs) && 1 <= ino <= |fs.inodes| && dir == fs.inodes[ino - 1] && 0 < |e.name| < 0x100
      requires e.ino != 0
      modifies this
      ensures Valid() && (nb == 0 ==> fs == old(fs) && NoFreeBlock())
      ensures nb != 0 ==> Writing(old(fs), fs, ino, dir) && WithInode(fs, ino, dir) == fs && Fresh(fs, nb)
      ensures nb != 0 ==> Extends(old(fs), fs) && SameSlots(old(fs), fs) && Tiled(fs.d[nb], 0)
      ensures nb != 0 ==> Walk(fs.d[nb], 0) == [e]
      ensures nb != 0 ==> nb !in old(fs).used
      ensures nb != 0 ==> fs == old(fs).(d := old(fs).d[nb := fs.d[nb]], used := old(fs).used + {nb})
    {
      ghost var w0 := fs;
      nb := AllocBlock();
      if nb == 0 { return; }
      WritingStart(w0, ino);
      AllocStep(w0, w0, ino, dir, nb);
      var dbuf := DirentPut(ZeroBlock(), 0, m.blockSize, e);
      OneRecord(ZeroBlock(), dbuf, e);
      ghost var w1 := fs;
      WriteBlock(nb, dbuf);
      BlockStep(w0, w1, ino, dir, nb, dbuf);
      assert WithInode(w1, ino, dir) == w1 && WithInode(fs, ino, dir) == fs;
      ExtendsTransitive(w0, w1, fs);
    }

    /** Append a fresh block holding e alone to directory ino. */
    method AppendBlock(ino: nat, dir: Inode, e: Entry, ghost bs: seq<Block>) returns (rc: int)
      requires Valid() && FsOk(fs) && 1 <= ino <= |fs.inodes| && dir == fs.inodes[ino - 1] && IsDir(dir)
      requires DirIs(fs, ino, bs) && AllTiled(bs) && 0 < |e.name| < 0x100 && e.ino != 0
      modifies this
      ensures Valid() && FsOk(fs) && fs.taken == old(fs).taken && (rc == 0 || rc == -1) && Grew(old(fs), fs, 2, 0)
      ensures rc == 0 ==> OthersKept(old(fs), fs, ino) && fs.inodes[ino - 1].mode == dir.mode
      ensures rc == 0 ==> Inserted(Listing(old(fs), ino), Listing(fs, ino), e)
      ensures rc == -1 ==> OthersKept(old(fs), fs, 0) && (|bs| >= DIR_MAX_BLOCKS || NoFreeBlock())
    {
      rc := -1;
      var nb := NewEntryBlock(ino, dir, e);
      if nb == 0 {
        GrewRefl(fs);
      } else {
        rc := AppendFresh(old(fs), ino, dir, e, nb, bs);
      }
    }

    /** Link the block that holds e into the directory. */
    method AppendFresh(ghost w0: View, ino: nat, dir: Inode, e: Entry, nb: u32, ghost bs: seq<Block>) returns (rc: int)
      requires FsOk(w0) && 1 <= ino <= |w0.inodes| && dir == w0.inodes[ino - 1] && IsDir(dir)
      requires DirIs(w0, ino, bs) && AllTiled(bs) && e.ino != 0
      requires Valid() && Writing(w0, fs, ino, dir) && WithInode(fs, ino, dir) == fs && Fresh(fs, nb)
      requires Extends(w0, fs) && SameSlots(w0, fs) && Tiled(fs.d[nb], 0) && Walk(fs.d[nb], 0) == [e]
      requires nb !in w0.used && fs == w0.(d := w0.d[nb := fs.d[nb]], used := w0.used + {nb})
      modifies this
      ensures Valid() && FsOk(fs) && fs.taken == w0.taken && (rc == 0 || rc == -1) && Grew(w0, fs, 2, 0)
      ensures rc == 0 ==> OthersKept(w0, fs, ino) && fs.inodes[ino - 1].mode == dir.mode
      ensures rc == 0 ==> Inserted(Listing(w0, ino), Listing(fs, ino), e)
      ensures rc == -1 ==> OthersKept(w0, fs, 0) && (|bs| >= DIR_MAX_BLOCKS || NoFreeBlock())
    {
      ghost var w2 := fs;
      GrewMore(w0, w0.(used := w2.used), nb);
      WholeBlocks(|bs|);
      var bn := (dir.size + m.blockSize - 1) / m.blockSize;
      assert V(w2, Ref(ino, SlotOf(bn))) == V(w0, Ref(ino, SlotOf(|bs|))) == 0;
      var ok, n := LinkNew(w0, ino, dir, bn, nb);
      if !ok {
        NothingLinked(w0, fs, nb);
        return -1;
      }
      ExtendsTransitive(w0, w2, WithInode(fs, ino, n));
      assert Mapped(w0, WithInode(fs, ino, n), ino, bn, nb);
      AppendedOk(w0, fs, ino, n, nb, e, bs);
      WriteInode(ino, n.(size := n.size + m.blockSize));
      return 0;
    }

    /** Link an entry into directory dirIno: into a dead record, into the slack
        after a live one, or into a fresh block. On success the directory lists
        its old entries with e inserted; on failure no inode changes at all.
        Every other inode keeps its record, contents and listing. */
    method AddDirent(dirIno: u32, e: Entry) returns (rc: int)
      requires Valid() && FsOk(fs) && e.ino != 0
      modifies this
      ensures Valid() && FsOk(fs) && fs.taken == old(fs).taken && (rc == 0 || rc == -1) && Grew(old(fs), fs, 2, 0)
      ensures Linked(old(fs), fs, dirIno, e, rc == 0)
      ensures rc == -1 ==> CannotLink(dirIno, e.name)
    {
      SameFileRefl(fs);
      var ok; var dir: Inode;
      ok, dir := ReadInode(dirIno);
      if !ok || !IsDir(dir) || |e.name| == 0 || |e.name| > 255 { return -1; }
      assert InodeOk(fs, dirIno);
      ghost var bs :| DirIs(fs, dirIno, bs) && AllTiled(bs);
      var done := LinkInExisting(dirIno, dir, e, bs);
      if done {
        rc := 0;
        AllOthersSame(old(fs), fs, dirIno);
      } else {
        rc := AppendBlock(dirIno, dir, e, bs);
        AllOthersSame(old(fs), fs, if rc == 0 then dirIno else 0);
      }
    }

    /** Reserve an inode and type it as an empty regular file. */
    method NewFile() returns (ino: u32)
      requires Valid() && FsOk(fs)
      modifies this
      ensures Valid() && FsOk(fs) && Grew(old(fs), fs, 0, 1)
      ensures ino == 0 ==> fs == old(fs) && NoFreeInode()
      ensures ino != 0 ==> ino <= |fs.inodes| && old(fs).inodes[ino - 1] == EmptyInode(0)
      ensures ino != 0 ==> fs.inodes[ino - 1] == EmptyInode(MODE_FILE) && OthersKept(old(fs), fs, ino)
    {
      ino := AllocInode();
      if ino != 0 {
        NewFileOk(old(fs), fs, ino, EmptyInode(MODE_FILE));
        WriteInode(ino, EmptyInode(MODE_FILE));
      }
    }

    /** Link a child typed since w0 into directory dirIno; the child's number, or 0 on failure. */
    method LinkChild(ghost w0: View, dirIno: u32, child: u32, name: seq<byte>, ftype: byte) returns (ino: u32)
      requires Valid() && FsOk(fs) && 1 <= child <= |w0.inodes| && w0.inodes[child - 1].mode == 0
      requires OthersKept(w0, fs, child)
      modifies this
      ensures Valid() && FsOk(fs) && Grew(old(fs), fs, 2, 0) && (ino == 0 || ino == child)
      ensures Created(w0, fs, dirIno, Entry(ino, name, ftype), ino != 0)
      ensures AllBut(w0, fs, child, if ino != 0 then dirIno else 0)
      ensures Linked(old(fs), fs, dirIno, Entry(child, name, ftype), ino != 0)
      ensures ino == 0 ==> CannotLink(dirIno, name)
    {
      var rc := AddDirent(dirIno, Entry(child, name, ftype));
      CreatedFrom(w0, old(fs), fs, dirIno, Entry(child, name, ftype), rc == 0);
      ino := if rc == 0 then child else 0;
    }

    /** A new empty regular file in directory dirIno; 0 on failure. A new inode
        was untyped before, so no existing file is overwritten. */
    method CreateFile(dirIno: u32, name: seq<byte>) returns (ino: u32, ghost child: u32)
      requires Valid() && FsOk(fs)
      modifies this
      ensures Valid() && FsOk(fs) && Grew(old(fs), fs, 2, 1) && FileMade(old(fs), fs, dirIno, name, ino, child)
      ensures ino == 0 ==> !writable || NoFreeInode() || CannotLink(dirIno, name)
    {
      GrewRefl(fs);
      KeptRefl(fs);
      NotMade(fs, fs, dirIno, name);
      ino, child := 0, 0;
      if writable && 0 < |name| <= 255 {
        var made := NewFile();
        if made != 0 {
          ghost var w1 := fs;
          ino := LinkChild(old(fs), dirIno, made, name, FT_REG_FILE);
          GrewTransitive(old(fs), w1, fs, 0, 1, 2, 0);
          FileLinked(old(fs), w1, fs, dirIno, name, ino, made);
          child := made;
        }
      }
    }

    /** Type a reserved inode as a directory whose block, reserved too, lists "." and "..". */
    method FillDir(ghost w: View, child: u32, blk: u32, parent: u32)
      requires Valid() && FsOk(w) && 1 <= child <= |w.inodes| && child !in w.taken && 0 < blk < |w.d| && blk !in w.used
      requires fs == w.(taken := w.taken + {child}, used := w.used + {blk})
      modifies this
      ensures Valid() && FsOk(fs) && Grew(w, fs, 1, 1) && w.inodes[child - 1] == EmptyInode(0)
      ensures OthersKept(w, fs, child) && fs.inodes[child - 1] == DirInode(MODE_DIR, blk)
      ensures Listing(fs, child) == DotEntries(child, parent)
    {
      var dbuf := DotBlock(child, parent);
      WriteBlock(blk, dbuf);
      NewDirOk(w, fs, child, blk, dbuf);
      WriteInode(child, DirInode(MODE_DIR, blk));
      OneBlockListing(fs, child, dbuf);
    }

    /** Reserve an inode and type it as a directory of one block listing "." and "..". */
    method NewDir(parent: u32) returns (ino: u32)
      requires Valid() && FsOk(fs)
      modifies this
      ensures Valid() && FsOk(fs) && Grew(old(fs), fs, 1, 1)
      ensures ino == 0 ==> OthersKept(old(fs), fs, 0) && (NoFreeInode() || NoFreeBlock())
      ensures ino != 0 ==> ino <= |fs.inodes| && old(fs).inodes[ino - 1] == EmptyInode(0)
      ensures ino != 0 ==> fs.inodes[ino - 1].mode == MODE_DIR && OthersKept(old(fs), fs, ino)
      ensures ino != 0 ==> Listing(fs, ino) == DotEntries(ino, parent)
    {
      GrewRefl(fs);
      ino := AllocInode();
      if ino != 0 {
        TakenOk(old(fs), ino);
        ino := DirInto(old(fs), ino, parent);
      }
    }

    /** The same with the inode reserved. */
    method DirInto(ghost w: View, child: u32, parent: u32) returns (ino: u32)
      requires Valid() && FsOk(w) && FsOk(fs) && 1 <= child <= |w.inodes| && child !in w.taken
      requires fs == w.(taken := w.taken + {child}) && OthersKept(w, fs, 0) && Grew(w, fs, 0, 1)
      modifies this
      ensures Valid() && FsOk(fs) && Grew(w, fs, 1, 1) && (ino == 0 || ino == child)
      ensures ino == 0 ==> OthersKept(w, fs, 0) && NoFreeBlock()
      ensures ino != 0 ==> w.inodes[child - 1] == EmptyInode(0) && OthersKept(w, fs, child)
      ensures ino != 0 ==> fs.inodes[child - 1].mode == MODE_DIR && Listing(fs, child) == DotEntries(child, parent)
    {
      var blk := AllocBlock();
      if blk == 0 {
        ino := 0;
      } else {
        FillDir(w, child, blk, parent);
        ino := child;
      }
    }

    /** A new directory in directory dirIno; 0 on failure. */
    method CreateDir(dirIno: u32, name: seq<byte>) returns (ino: u32, ghost child: u32)
      requires Valid() && FsOk(fs)
      modifies this
      ensures Valid() && FsOk(fs) && Grew(old(fs), fs, 3, 1) && DirMade(old(fs), fs, dirIno, name, ino, child)
      ensures ino == 0 ==> !writable || NoFreeInode() || CannotLink(dirIno, name)
    {
      GrewRefl(fs);
      KeptRefl(fs);
      NotMade(fs, fs, dirIno, name);
      ino, child := 0, 0;
      if writable && 0 < |name| <= 255 {
        var made := NewDir(dirIno);
        ghost var w1 := fs;
        if made == 0 {
          NotMade(old(fs), fs, dirIno, name);
        } else {
          ino := LinkChild(old(fs), dirIno, made, name, FT_DIR);
          GrewTransitive(old(fs), w1, fs, 1, 1, 2, 0);
          DirLinked(old(fs), w1, fs, dirIno, name, ino, made);
          child := made;
        }
      }
    }
  }
}
