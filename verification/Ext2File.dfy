/** Whole-file contents: the read path's block mapping, what a file holds, and
    the state of a write in progress. */
module Ext2File {
  import opened Bytes
  import opened Ext2Layout
  import opened Ext2View

  /** Blocks a file can have without triple indirection. */
  const MAX_BLOCKS := 12 + PPB + PPB * PPB

  // ---- reading ----

  /** The read path's mapping of a logical block, 0 for a hole. */
  function Bmap(d: seq<Block>, top: seq<u32>, bn: nat): u32
    requires |top| == 15
  {
    if bn < 12 then top[bn]
    else
      var n := bn - 12;
      if n < PPB then
        if top[12] == 0 || top[12] >= |d| then 0 else Le32(d[top[12]], n * 4)
      else
        var n := n - PPB;
        if n < PPB * PPB then
          if top[13] == 0 || top[13] >= |d| then 0
          else
            var l1 := Le32(d[top[13]], n / PPB * 4);
            if l1 == 0 || l1 >= |d| then 0 else Le32(d[l1], n % PPB * 4)
        else 0
  }

  /** Logical block bn of a file; a hole reads as zeros. */
  ghost function FileBlock(w: View, ino: nat, bn: nat): Block {
    var b := V(w, Ref(ino, SlotOf(bn)));
    if b == 0 || b >= |w.d| then ZeroBlock() else w.d[b]
  }

  /** The bytes of a file. */
  ghost function Content(w: View, ino: nat): (r: seq<byte>)
    requires 1 <= ino <= |w.inodes|
    ensures |r| == w.inodes[ino - 1].size
  {
    seq(w.inodes[ino - 1].size, i requires 0 <= i => FileBlock(w, ino, i / BLOCK_SIZE)[i % BLOCK_SIZE])
  }

  /** The read path finds exactly the slot that maps the block, on any disk that
      agrees with the view on used blocks. */
  lemma BmapFindsSlot(w: View, d: seq<Block>, ino: nat, bn: nat)
    requires Owned(w) && 1 <= ino <= |w.inodes|
    requires |w.d| <= |d| && forall b | b in w.used && b < |w.d| :: d[b] == w.d[b]
    ensures Bmap(d, w.inodes[ino - 1].block, bn) == V(w, Ref(ino, SlotOf(bn)))
  {
    var top := w.inodes[ino - 1].block;
    assert V(w, Ref(ino, Top(12))) == top[12] && V(w, Ref(ino, Top(13))) == top[13];
    if 12 + PPB <= bn { var l1 := V(w, Ref(ino, Dind((bn - 12 - PPB) / PPB))); }
  }

  lemma Append(c: seq<byte>, at: nat, data: seq<byte>, copy: nat)
    requires at + copy <= |c| && copy <= |data|
    requires forall i | 0 <= i < copy :: c[at + i] == data[i]
    ensures c[..at + copy] == c[..at] + data[..copy]
  {
  }

  /** One step of the read loop: the next slice of the contents. */
  lemma ReadSlice(w: View, ino: nat, b: nat, copy: nat)
    requires 1 <= ino <= |w.inodes| && copy <= BLOCK_SIZE && b * BLOCK_SIZE + copy <= w.inodes[ino - 1].size
    ensures Content(w, ino)[..b * BLOCK_SIZE + copy] == Content(w, ino)[..b * BLOCK_SIZE] + FileBlock(w, ino, b)[..copy]
  {
    forall i | 0 <= i < copy ensures Content(w, ino)[b * BLOCK_SIZE + i] == FileBlock(w, ino, b)[i] {
      assert (b * BLOCK_SIZE + i) / BLOCK_SIZE == b && (b * BLOCK_SIZE + i) % BLOCK_SIZE == i;
    }
    Append(Content(w, ino), b * BLOCK_SIZE, FileBlock(w, ino, b), copy);
  }

  /** An inode untouched by a change reads the same. */
  lemma KeptContent(w: View, w': View, ino: nat, i: nat)
    requires OthersKept(w, w', ino) && i != ino && 1 <= i <= |w.inodes|
    ensures Content(w', i) == Content(w, i)
  {
    forall k: nat ensures FileBlock(w', i, k) == FileBlock(w, i, k) {
      var r := Ref(i, SlotOf(k));
      assert V(w', r) == V(w, r);
    }
  }

  // ---- writing ----

  /** Blocks the data takes. */
  function BlocksFor(data: seq<byte>): nat {
    (|data| + BLOCK_SIZE - 1) / BLOCK_SIZE
  }

  /** Block bn of the data being written, zero-padded. */
  function Chunk(data: seq<byte>, bn: nat): Block {
    seq(BLOCK_SIZE, i requires 0 <= i < BLOCK_SIZE =>
      if bn * BLOCK_SIZE + i < |data| then data[bn * BLOCK_SIZE + i] else 0)
  }

  /** Blocks 0 .. n-1 of the file hold the first n chunks of the data. */
  ghost predicate Written(w: View, ino: nat, data: seq<byte>, n: nat) {
    forall k {:trigger SlotOf(k)} | 0 <= k < n ::
      0 < V(w, Ref(ino, SlotOf(k))) < |w.d| && w.d[V(w, Ref(ino, SlotOf(k)))] == Chunk(data, k)
  }

  /** A file whose blocks all hold their chunks reads back as the data. */
  lemma WrittenContent(w: View, ino: nat, data: seq<byte>)
    requires 1 <= ino <= |w.inodes| && w.inodes[ino - 1].size == |data|
    requires Written(w, ino, data, (|data| + BLOCK_SIZE - 1) / BLOCK_SIZE)
    ensures Content(w, ino) == data
  {
    forall i | 0 <= i < |data| ensures Content(w, ino)[i] == data[i] {
      var k := i / BLOCK_SIZE;
      var s := SlotOf(k);
      assert FileBlock(w, ino, k) == Chunk(data, k);
    }
  }

  lemma ExtendsWritten(w: View, w': View, ino: nat, data: seq<byte>, n: nat)
    requires Extends(w, w') && Written(w, ino, data, n)
    ensures Written(w', ino, data, n)
  {
    forall k | 0 <= k < n
      ensures 0 < V(w', Ref(ino, SlotOf(k))) < |w'.d| && w'.d[V(w', Ref(ino, SlotOf(k)))] == Chunk(data, k)
    {
      SlotOfInjective(k, k);
      assert V(w, Ref(ino, SlotOf(k))) != 0;
    }
  }

  lemma WrittenMore(w: View, ino: nat, bn: nat, data: seq<byte>, w': View)
    requires Owned(w) && Written(w, ino, data, bn) && V(w, Ref(ino, SlotOf(bn))) != 0
    requires w' == w.(d := w.d[V(w, Ref(ino, SlotOf(bn))) := Chunk(data, bn)]) && SameSlots(w, w')
    ensures Written(w', ino, data, bn + 1)
  {
    forall k | 0 <= k < bn + 1
      ensures 0 < V(w', Ref(ino, SlotOf(k))) < |w'.d| && w'.d[V(w', Ref(ino, SlotOf(k)))] == Chunk(data, k)
    {
      assert V(w', Ref(ino, SlotOf(k))) == V(w, Ref(ino, SlotOf(k)));
      if k < bn && SlotOf(k) == SlotOf(bn) { SlotOfInjective(k, bn); }
    }
  }

  /** A change of inode ino in progress: w0 the file system at the start, w now,
      n the inode copy in memory, not yet stored. */
  ghost predicate Writing(w0: View, w: View, ino: nat, n: Inode) {
    && 1 <= ino <= |w0.inodes| && w.inodes == w0.inodes && w.taken == w0.taken
    && (forall i | 0 <= i < 15 :: w0.inodes[ino - 1].block[i] == 0 || w0.inodes[ino - 1].block[i] == n.block[i])
    && Owned(WithInode(w, ino, n)) && OthersKept(w0, WithInode(w, ino, n), ino) && FreeKept(w0, w)
  }

  /** Taking a free block: it is fresh, zero if all free blocks are, and all else stays. */
  lemma AllocStep(w0: View, w: View, ino: nat, n: Inode, b: nat)
    requires Writing(w0, w, ino, n) && 0 < b < |w.d| && b !in w.used
    ensures var w' := w.(used := w.used + {b});
            && Writing(w0, w', ino, n) && Fresh(WithInode(w', ino, n), b) && (Clean(w) ==> w'.d[b] == ZeroBlock())
            && Extends(WithInode(w, ino, n), WithInode(w', ino, n))
            && SameSlots(WithInode(w, ino, n), WithInode(w', ino, n))
  {
    Allocate(WithInode(w, ino, n), b);
    FreeKeptOn(w0, w, w.(used := w.used + {b}));
  }

  /** A fresh block stored into an empty i_block slot of the copy. */
  lemma TopStep(w0: View, w: View, ino: nat, n: Inode, i: nat, b: u32)
    requires Writing(w0, w, ino, n) && Fresh(WithInode(w, ino, n), b)
    requires i < 15 && n.block[i] == 0 && (HoldsPointers(Top(i)) ==> w.d[b] == ZeroBlock())
    ensures var n' := WithTop(n, i, b);
            && Writing(w0, w, ino, n') && Extends(WithInode(w, ino, n), WithInode(w, ino, n'))
            && SlotSet(WithInode(w, ino, n), WithInode(w, ino, n'), Ref(ino, Top(i)), b)
  {
    SetTop(WithInode(w, ino, n), ino, i, b);
    assert WithInode(WithInode(w, ino, n), ino, WithTop(n, i, b)) == WithInode(w, ino, WithTop(n, i, b));
  }

  /** A fresh block stored into an empty entry of one of the file's pointer blocks. */
  lemma EntryStep(w0: View, w: View, n: Inode, p: Ref, j: nat, b: u32, d': seq<Block>)
    requires Writing(w0, w, p.ino, n) && Fresh(WithInode(w, p.ino, n), b) && HoldsPointers(p.slot) && j < PPB
    requires var u := WithInode(w, p.ino, n);
             && V(u, p) != 0 && V(u, Child(p, j)) == 0 && (HoldsPointers(Child(p, j).slot) ==> w.d[b] == ZeroBlock())
             && EntryPatched(w.d, d', V(u, p), j, b)
    ensures var u, u' := WithInode(w, p.ino, n), WithInode(w.(d := d'), p.ino, n);
            Writing(w0, w.(d := d'), p.ino, n) && Extends(u, u') && SlotSet(u, u', Child(p, j), b)
  {
    SetChild(WithInode(w, p.ino, n), d', p, j, b);
    FreeKeptOn(w0, w, w.(d := d'));
  }

  /** Overwriting a used block that is the file's own data or not yet named. */
  lemma BlockStep(w0: View, w: View, ino: nat, n: Inode, x: nat, c: Block)
    requires Writing(w0, w, ino, n) && 0 < x < |w.d| && x in w.used
    requires forall r: Ref | r.ino != ino || HoldsPointers(r.slot) :: V(WithInode(w, ino, n), r) != x
    ensures var w' := w.(d := w.d[x := c]);
            Writing(w0, w', ino, n) && SameSlots(WithInode(w, ino, n), WithInode(w', ino, n))
            && (Fresh(WithInode(w, ino, n), x) ==> Extends(WithInode(w, ino, n), WithInode(w', ino, n)))
  {
    WriteData(WithInode(w, ino, n), x, c);
    FreeKeptOn(w0, w, w.(d := w.d[x := c]));
  }

  /** A free block, zeroed and stored in the empty singly indirect slot of the copy. */
  lemma ZeroTopStep(w0: View, w: View, w': View, ino: nat, n: Inode, ind: u32, nb: nat)
    requires Writing(w0, w, ino, n) && n.block[12] == 0 && Fresh(WithInode(w, ino, n), nb)
    requires 0 < ind < |w.d| && ind !in w.used
    requires w' == w.(used := w.used + {ind}, d := w.d[ind := ZeroBlock()])
    ensures var n' := WithTop(n, 12, ind);
      && Writing(w0, w', ino, n') && Fresh(WithInode(w', ino, n'), nb) && w'.d[nb] == w.d[nb]
      && Extends(WithInode(w, ino, n), WithInode(w', ino, n'))
      && SlotSet(WithInode(w, ino, n), WithInode(w', ino, n'), Ref(ino, Top(12)), ind)
  {
    var u0, w1 := WithInode(w, ino, n), w.(used := w.used + {ind});
    AllocStep(w0, w, ino, n, ind);
    BlockStep(w0, w1, ino, n, ind, ZeroBlock());
    ExtendsTransitive(u0, WithInode(w1, ino, n), WithInode(w', ino, n));
    TopStep(w0, w', ino, n, 12, ind);
    ExtendsTransitive(u0, WithInode(w', ino, n), WithInode(w', ino, WithTop(n, 12, ind)));
  }

  /** A data slot's block belongs to no other slot. */
  lemma DataSlotAlone(w: View, r0: Ref)
    requires Owned(w) && !HoldsPointers(r0.slot) && V(w, r0) != 0
    ensures V(w, r0) in w.used && V(w, r0) < |w.d|
    ensures forall r: Ref | r.ino != r0.ino || HoldsPointers(r.slot) :: V(w, r) != V(w, r0)
  {
  }

  /** Giving up: the stored inode still names a subset of the copy's blocks. */
  lemma Abandon(w0: View, w: View, ino: nat, n: Inode)
    requires Writing(w0, w, ino, n)
    ensures Owned(w) && OthersKept(w0, w, ino)
  {
    var u := WithInode(w, ino, n);
    DropTops(u, ino, w0.inodes[ino - 1]);
    assert WithInode(u, ino, w0.inodes[ino - 1]) == w;
  }

  /** Finishing: the copy becomes the stored inode. */
  lemma Commit(w0: View, w: View, ino: nat, n: Inode, n': Inode)
    requires Writing(w0, w, ino, n) && n'.block == n.block
    ensures var w' := WithInode(w, ino, n');
            Owned(w') && OthersKept(w0, w', ino) && Extends(WithInode(w, ino, n), w')
              && SameSlots(WithInode(w, ino, n), w')
  {
    var u := WithInode(w, ino, n);
    SameTops(u, ino, n');
    assert WithInode(u, ino, n') == WithInode(w, ino, n');
  }
}
