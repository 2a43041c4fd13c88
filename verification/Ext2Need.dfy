/** What a whole-file write costs and leaves: the blocks it has to take, counted
    by the pointer slots it fills, and the contents it mixes when they run out. */
module Ext2Need {
  import opened Bytes
  import opened Ext2Layout
  import opened Ext2View
  import opened Ext2File
  import opened Ext2Fs

  // ---- the slots a write fills ----

  /** need, with slot s of inode ino as well if it is empty in w. */
  ghost function AddIf(w: View, ino: nat, need: set<Slot>, s: Slot): set<Slot> {
    if V(w, Ref(ino, s)) == 0 then need + {s} else need
  }

  /** The empty slots on the way to logical block bn. */
  ghost function AddPath(w: View, ino: nat, need: set<Slot>, bn: nat): set<Slot> {
    if bn < 12 then AddIf(w, ino, need, Top(bn))
    else if bn < 12 + PPB then AddIf(w, ino, AddIf(w, ino, need, Top(12)), Ind(bn - 12))
    else
      var j, k := (bn - 12 - PPB) / PPB, (bn - 12 - PPB) % PPB;
      AddIf(w, ino, AddIf(w, ino, AddIf(w, ino, need, Top(13)), Dind(j)), Leaf(j, k))
  }

  /** The empty slots on the way to the first n logical blocks: one block to take for each. */
  ghost function Needed(w: View, ino: nat, n: nat): set<Slot> {
    if n == 0 then {} else AddPath(w, ino, Needed(w, ino, n - 1), n - 1)
  }

  lemma {:induction false} NeededGrows(w: View, ino: nat, k: nat, n: nat)
    requires k <= n
    ensures |Needed(w, ino, k)| <= |Needed(w, ino, n)|
    decreases n - k
  {
    if k < n {
      PathGrows(w, ino, Needed(w, ino, k), k);
      NeededGrows(w, ino, k + 1, n);
    }
  }

  /** Three blocks suffice for a logical block. */
  lemma {:induction false} NeededBound(w: View, ino: nat, n: nat)
    ensures |Needed(w, ino, n)| <= 3 * n
  {
    if n > 0 { NeededBound(w, ino, n - 1); }
  }

  lemma PathGrows(w: View, ino: nat, need: set<Slot>, bn: nat)
    ensures |need| <= |AddPath(w, ino, need, bn)|
  {
    Subset(need, AddPath(w, ino, need, bn));
  }

  lemma {:induction false} Subset(s: set<Slot>, t: set<Slot>)
    ensures s <= t ==> |s| <= |t|
  {
    if s <= t && s != {} {
      var x :| x in s;
      Subset(s - {x}, t - {x});
    }
  }

  // ---- counting as the write goes ----

  ghost predicate FilledAt(w0: View, u: View, ino: nat, need: set<Slot>, s: Slot) {
    V(u, Ref(ino, s)) != 0 <==> V(w0, Ref(ino, s)) != 0 || s in need
  }

  /** Since w0 exactly the slots in need were filled, and one block was taken for each. */
  ghost predicate Counted(w0: View, w: View, ino: nat, n: Inode, need: set<Slot>)
    requires 1 <= ino <= |w.inodes|
  {
    && |w.used| == |w0.used| + |need|
    && forall s {:trigger FilledAt(w0, WithInode(w, ino, n), ino, need, s)} ::
      FilledAt(w0, WithInode(w, ino, n), ino, need, s)
  }

  /** A block taken and stored in an empty slot. */
  lemma CountSlot(w0: View, w: View, w': View, ino: nat, n: Inode, n': Inode, need: set<Slot>, s: Slot, b: u32)
    requires 1 <= ino <= |w.inodes| == |w'.inodes| && Counted(w0, w, ino, n, need) && |w'.used| == |w.used| + 1
    requires b != 0
    requires V(WithInode(w, ino, n), Ref(ino, s)) == 0
    requires SlotSet(WithInode(w, ino, n), WithInode(w', ino, n'), Ref(ino, s), b)
    ensures AddIf(w0, ino, need, s) == need + {s} && Counted(w0, w', ino, n', need + {s})
  {
    var u, u' := WithInode(w, ino, n), WithInode(w', ino, n');
    assert FilledAt(w0, u, ino, need, s);
    forall t {:trigger FilledAt(w0, u', ino, need + {s}, t)} ensures FilledAt(w0, u', ino, need + {s}, t) {
      assert FilledAt(w0, u, ino, need, t);
      assert V(u', Ref(ino, t)) == if t == s then b else V(u, Ref(ino, t));
    }
  }

  /** A slot in use costs nothing. */
  lemma CountNone(w0: View, w: View, ino: nat, n: Inode, need: set<Slot>, s: Slot)
    requires 1 <= ino <= |w.inodes| && Counted(w0, w, ino, n, need) && V(WithInode(w, ino, n), Ref(ino, s)) != 0
    ensures AddIf(w0, ino, need, s) == need
  {
    assert FilledAt(w0, WithInode(w, ino, n), ino, need, s);
  }

  /** An empty slot is still to be paid for. */
  lemma CountOwed(w0: View, w: View, ino: nat, n: Inode, need: set<Slot>, s: Slot)
    requires 1 <= ino <= |w.inodes| && Counted(w0, w, ino, n, need) && V(WithInode(w, ino, n), Ref(ino, s)) == 0
    ensures s !in need && AddIf(w0, ino, need, s) == need + {s} && |AddIf(w0, ino, need, s)| == |need| + 1
  {
    assert FilledAt(w0, WithInode(w, ino, n), ino, need, s);
  }

  /** Slots that stay as they are stay counted. */
  lemma CountSame(w0: View, w: View, w': View, ino: nat, n: Inode, n': Inode, need: set<Slot>)
    requires 1 <= ino <= |w.inodes| == |w'.inodes| && Counted(w0, w, ino, n, need) && |w'.used| == |w.used|
    requires SameSlots(WithInode(w, ino, n), WithInode(w', ino, n'))
    ensures Counted(w0, w', ino, n', need)
  {
    var u, u' := WithInode(w, ino, n), WithInode(w', ino, n');
    forall t {:trigger FilledAt(w0, u', ino, need, t)} ensures FilledAt(w0, u', ino, need, t) {
      assert FilledAt(w0, u, ino, need, t);
      assert V(u', Ref(ino, t)) == V(u, Ref(ino, t));
    }
  }

  lemma AddIfGrows(w: View, ino: nat, need: set<Slot>, s: Slot)
    ensures |need| <= |AddIf(w, ino, need, s)|
  {
    Subset(need, AddIf(w, ino, need, s));
  }

  lemma CountStart(w: View, ino: nat)
    requires 1 <= ino <= |w.inodes|
    ensures Counted(w, w, ino, w.inodes[ino - 1], {})
  {
    assert w.inodes[ino - 1 := w.inodes[ino - 1]] == w.inodes;
  }

  // ---- the mapping as the write goes ----

  ghost predicate SameMap(u: View, u': View, ino: nat) {
    forall k {:trigger SlotOf(k)} :: V(u', Ref(ino, SlotOf(k))) == V(u, Ref(ino, SlotOf(k)))
  }

  lemma PointerSlot(u: View, u': View, ino: nat, c: Ref, v: u32)
    requires SlotSet(u, u', c, v) && HoldsPointers(c.slot)
    ensures SameMap(u, u', ino)
  {
    MappedSame(u, u', ino, c, v);
  }

  lemma MapThen(u: View, u1: View, u2: View, ino: nat, bn: nat, b: u32)
    requires SameMap(u, u1, ino) && Mapped(u1, u2, ino, bn, b)
    ensures Mapped(u, u2, ino, bn, b)
  {
  }

  lemma SameMapTransitive(u: View, u1: View, u2: View, ino: nat)
    requires SameMap(u, u1, ino) && SameMap(u1, u2, ino)
    ensures SameMap(u, u2, ino)
  {
  }

  /** Without the pointer block its entries are not there. */
  lemma Unmapped(u: View, u': View, p: Ref, j: nat, bn: nat)
    requires 1 <= p.ino <= |u'.inodes| && HoldsPointers(p.slot) && j < PPB && V(u', p) == 0
    requires SameMap(u, u', p.ino) && Child(p, j) == Ref(p.ino, SlotOf(bn))
    ensures Mapped(u, u', p.ino, bn, 0)
  {
    assert Ptr(u'.d, 0, j) == 0;
    assert V(u', Child(p, j)) == 0;
  }

  /** A free block taken in w1 and stored in the empty entry j of a pointer block. */
  lemma EntryFilled(w0: View, w: View, w1: View, n: Inode, p: Ref, j: nat, phys: u32, d': seq<Block>, need: set<Slot>)
    requires Writing(w0, w, p.ino, n) && HoldsPointers(p.slot) && j < PPB && Clean(w0) && Counted(w0, w, p.ino, n, need)
    requires V(WithInode(w, p.ino, n), p) != 0 == V(WithInode(w, p.ino, n), Child(p, j))
    requires 0 < phys < |w.d| && phys !in w.used && w1 == w.(used := w.used + {phys})
    requires EntryPatched(w1.d, d', V(WithInode(w, p.ino, n), p), j, phys)
    ensures var u, u' := WithInode(w, p.ino, n), WithInode(w1.(d := d'), p.ino, n);
      && Writing(w0, w1.(d := d'), p.ino, n) && Extends(u, u') && SlotSet(u, u', Child(p, j), phys)
      && Counted(w0, w1.(d := d'), p.ino, n, AddIf(w0, p.ino, need, Child(p, j).slot))
  {
    var u := WithInode(w, p.ino, n);
    CleanKept(w0, w);
    AllocStep(w0, w, p.ino, n, phys);
    EntryStep(w0, w1, n, p, j, phys, d');
    ExtendsTransitive(u, WithInode(w1, p.ino, n), WithInode(w1.(d := d'), p.ino, n));
    CountSlot(w0, w, w1.(d := d'), p.ino, n, n, need, Child(p, j).slot, phys);
  }

  /** What mapping block bn did: the block is mapped and every slot on the way paid for, or one is left to pay for. */
  ghost predicate MappedOne(w0: View, w: View, w': View, ino: nat, n: Inode, n': Inode, bn: nat, phys: u32,
      need: set<Slot>) {
    && 1 <= ino <= |w.inodes| == |w'.inodes| && Mapped(WithInode(w, ino, n), WithInode(w', ino, n'), ino, bn, phys)
    && if phys != 0 then Counted(w0, w', ino, n', AddPath(w0, ino, need, bn))
      else |w'.used| < |w0.used| + |AddPath(w0, ino, need, bn)|
  }

  /** The last slot on the way, the pointer blocks above it being there since w1. */
  lemma LastSlot(w0: View, w: View, w1: View, w': View, ino: nat, n: Inode, n': Inode, bn: nat, phys: u32,
      need: set<Slot>, above: set<Slot>)
    requires 1 <= ino <= |w.inodes| == |w1.inodes| == |w'.inodes|
    requires SameMap(WithInode(w, ino, n), WithInode(w1, ino, n'), ino)
    requires SlotSet(WithInode(w1, ino, n'), WithInode(w', ino, n'), Ref(ino, SlotOf(bn)), phys)
    requires AddPath(w0, ino, need, bn) == AddIf(w0, ino, above, SlotOf(bn))
    requires Counted(w0, w', ino, n', if phys != 0 then AddIf(w0, ino, above, SlotOf(bn)) else above)
    ensures MappedOne(w0, w, w', ino, n, n', bn, phys, need)
  {
    var u, u1, u' := WithInode(w, ino, n), WithInode(w1, ino, n'), WithInode(w', ino, n');
    MappedFrom(u1, u', ino, bn, phys);
    MapThen(u, u1, u', ino, bn, phys);
    if phys == 0 { CountOwed(w0, w', ino, n', above, SlotOf(bn)); }
  }

  /** A pointer block on the way is missing. */
  lemma NoSlot(w0: View, w: View, w': View, n: Inode, n': Inode, p: Ref, j: nat, bn: nat, need: set<Slot>,
      above: set<Slot>)
    requires 1 <= p.ino <= |w.inodes| == |w'.inodes| && HoldsPointers(p.slot) && j < PPB
    requires SameMap(WithInode(w, p.ino, n), WithInode(w', p.ino, n'), p.ino) && V(WithInode(w', p.ino, n'), p) == 0
    requires Child(p, j) == Ref(p.ino, SlotOf(bn)) && |w'.used| < |w0.used| + |above|
    requires AddPath(w0, p.ino, need, bn) == AddIf(w0, p.ino, above, SlotOf(bn))
    ensures MappedOne(w0, w, w', p.ino, n, n', bn, 0, need)
  {
    Unmapped(WithInode(w, p.ino, n), WithInode(w', p.ino, n'), p, j, bn);
    AddIfGrows(w0, p.ino, above, SlotOf(bn));
  }

  // ---- contents as the write goes ----

  /** From block n on the file is as it was. */
  ghost predicate RestKept(w0: View, u: View, ino: nat, n: nat) {
    forall k {:trigger SlotOf(k)} | n <= k :: V(u, Ref(ino, SlotOf(k))) == V(w0, Ref(ino, SlotOf(k)))
      && FileBlock(u, ino, k) == FileBlock(w0, ino, k)
  }

  /** Mapping block bn leaves the rest. */
  lemma RestMapped(w0: View, u: View, u': View, ino: nat, bn: nat, b: u32)
    requires RestKept(w0, u, ino, bn) && Mapped(u, u', ino, bn, b) && Extends(u, u')
    requires (b == 0 ==> V(u, Ref(ino, SlotOf(bn))) == 0)
    ensures RestKept(w0, u', ino, if b == 0 then bn else bn + 1)
  {
    forall k: nat {:trigger SlotOf(k)} | (if b == 0 then bn else bn + 1) <= k
      ensures V(u', Ref(ino, SlotOf(k))) == V(w0, Ref(ino, SlotOf(k))) && FileBlock(u', ino, k) == FileBlock(w0, ino, k)
    {
      SlotOfInjective(k, k);
      var r := Ref(ino, SlotOf(k));
      assert V(u', r) == V(u, r);
    }
  }

  /** Writing block bn leaves the rest. */
  lemma RestWritten(w0: View, u: View, u': View, ino: nat, bn: nat, c: Block)
    requires RestKept(w0, u, ino, bn + 1) && Owned(u) && V(u, Ref(ino, SlotOf(bn))) != 0
    requires u' == u.(d := u.d[V(u, Ref(ino, SlotOf(bn))) := c]) && SameSlots(u, u')
    ensures RestKept(w0, u', ino, bn + 1)
  {
    forall k: nat {:trigger SlotOf(k)} | bn + 1 <= k
      ensures V(u', Ref(ino, SlotOf(k))) == V(w0, Ref(ino, SlotOf(k))) && FileBlock(u', ino, k) == FileBlock(w0, ino, k)
    {
      var r := Ref(ino, SlotOf(k));
      assert V(u', r) == V(u, r);
      if SlotOf(k) == SlotOf(bn) { SlotOfInjective(k, bn); }
    }
  }

  lemma RestStart(w: View, ino: nat)
    ensures RestKept(w, w, ino, 0)
  {
  }

  /** A write gives up at block bn: the blocks before it can be paid for, and it cannot or needs triple indirection. */
  ghost predicate GivesUp(w: View, ino: nat, bn: nat, free: int) {
    && |Needed(w, ino, bn)| <= free && bn <= MAX_BLOCKS
    && (bn == MAX_BLOCKS || free < |Needed(w, ino, bn + 1)|)
  }

  lemma {:induction false} GivesUpOnce(w: View, ino: nat, a: nat, b: nat, free: int)
    requires GivesUp(w, ino, a, free) && GivesUp(w, ino, b, free)
    ensures a == b
  {
    if a < b { NeededGrows(w, ino, a + 1, b); } else if b < a { NeededGrows(w, ino, b + 1, a); }
  }

  /** A write that gave up at block bn: the blocks before it that the file still reaches hold the data, all others what
      they held. */
  ghost predicate Mixed(w0: View, w: View, ino: nat, data: seq<byte>, bn: nat) {
    forall k {:trigger FileBlock(w, ino, k)} | 0 <= k ::
      FileBlock(w, ino, k) == if k < bn && V(w, Ref(ino, SlotOf(k))) != 0 then Chunk(data, k) else FileBlock(w0, ino, k)
  }

  /** Ino is a regular file of a writable mount. */
  ghost predicate Target(writable: bool, w: View, ino: nat) {
    writable && 1 <= ino <= |w.inodes| && IsReg(w.inodes[ino - 1])
  }

  /** A whole-file write that returned rc, with so many blocks free before it. */
  ghost predicate Wrote(w: View, w': View, ino: nat, data: seq<byte>, rc: int, writable: bool, free: int) {
    && |w'.inodes| == |w.inodes|
    && (forall i {:trigger SameFile(w, w', i)} | 1 <= i <= |w.inodes| && i != ino :: SameFile(w, w', i))
    && (rc != -1 <==>
      Target(writable, w, ino) && BlocksFor(data) <= MAX_BLOCKS && |Needed(w, ino, BlocksFor(data))| <= free)
    && (!Target(writable, w, ino) ==> w' == w)
    && (rc == -1 && Target(writable, w, ino) ==> w'.inodes == w.inodes && LeftMixed(w, w', ino, data, free))
    && (rc != -1 ==> rc == |data| && Content(w', ino) == data && w'.inodes[ino - 1].mode == w.inodes[ino - 1].mode)
  }

  /** The write gave up at the one block at which it must. */
  ghost predicate LeftMixed(w: View, w': View, ino: nat, data: seq<byte>, free: int) {
    exists bn: nat :: bn < BlocksFor(data) && GivesUp(w, ino, bn, free) && Mixed(w, w', ino, data, bn)
  }

  lemma NoTarget(w: View, ino: nat, data: seq<byte>, writable: bool, free: int)
    requires !Target(writable, w, ino)
    ensures Wrote(w, w, ino, data, -1, writable, free)
  {
    SameFileRefl(w);
  }

  lemma WriteFailed(w: View, w': View, ino: nat, data: seq<byte>, writable: bool, free: int, bn: nat)
    requires Target(writable, w, ino) && w'.inodes == w.inodes && GivesUp(w, ino, bn, free) && bn < BlocksFor(data)
    requires Mixed(w, w', ino, data, bn)
    requires forall i {:trigger SameFile(w, w', i)} | 1 <= i <= |w.inodes| && i != ino :: SameFile(w, w', i)
    ensures Wrote(w, w', ino, data, -1, writable, free)
  {
    if BlocksFor(data) <= MAX_BLOCKS { NeededGrows(w, ino, bn + 1, BlocksFor(data)); }
  }

  /** Giving up drops the copy's new i_block slots; what the file reached before it still reaches. */
  lemma GaveUp(w0: View, w: View, ino: nat, n: Inode, data: seq<byte>, bn: nat)
    requires Writing(w0, w, ino, n) && PointersKept(w0, WithInode(w, ino, n))
    requires Written(WithInode(w, ino, n), ino, data, bn) && RestKept(w0, WithInode(w, ino, n), ino, bn)
    ensures Mixed(w0, w, ino, data, bn)
  {
    var u := WithInode(w, ino, n);
    forall k: nat
      ensures FileBlock(w, ino, k) == if k < bn && V(w, Ref(ino, SlotOf(k))) != 0 then Chunk(data, k)
        else FileBlock(w0, ino, k)
    {
      var r := Ref(ino, SlotOf(k));
      StillReached(w0, w, ino, n, r);
    }
  }

  lemma StillReached(w0: View, w: View, ino: nat, n: Inode, r: Ref)
    requires Writing(w0, w, ino, n) && PointersKept(w0, WithInode(w, ino, n)) && r.ino == ino
    ensures (V(w, r) == 0 || V(w, r) == V(WithInode(w, ino, n), r)) && (V(w0, r) != 0 ==> V(w, r) == V(w0, r))
  {
    var u, top := WithInode(w, ino, n), w0.inodes[ino - 1].block;
    DropTops(u, ino, w0.inodes[ino - 1]);
    assert WithInode(u, ino, w0.inodes[ino - 1]) == w;
    assert KeptAt(w0, u, r);
    if r.slot.Leaf? {
      assert KeptAt(w0, u, Ref(ino, Dind(r.slot.j)));
      assert Ptr(w0.d, 0, r.slot.k) == 0;
    }
  }
}
