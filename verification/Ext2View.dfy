/** A file system as the driver's callers see it: data blocks, inodes, and which
    blocks and inodes are taken. The pointer tree of every inode is one total
    function on pointer slots; ownership says every live pointer names a used
    block and no two pointers of any inodes name the same one. */
module Ext2View {
  import opened Bytes
  import opened Ext2Layout

  /** d: all blocks, metadata blanked; used: data blocks marked used; taken: inodes marked used. */
  datatype View = View(d: seq<Block>, inodes: seq<Inode>, used: set<nat>, taken: set<nat>)

  /** A pointer slot of an inode: one of i_block[15], an entry of the singly
      indirect block, of the doubly indirect block, or of a second-level block. */
  datatype Slot = Top(i: nat) | Ind(j: nat) | Dind(j: nat) | Leaf(j: nat, k: nat)
  datatype Ref = Ref(ino: nat, slot: Slot)

  /** Entry j of indirect block b; an absent or unreadable block has no entries. */
  function Ptr(d: seq<Block>, b: nat, j: nat): u32 {
    if b == 0 || b >= |d| || j >= PPB then 0 else Le32(d[b], 4 * j)
  }

  /** The block a slot names, 0 when it names none. */
  function V(w: View, r: Ref): u32 {
    if !(1 <= r.ino <= |w.inodes|) then 0 else
    var top := w.inodes[r.ino - 1].block;
    match r.slot
    case Top(i) => if i < 15 then top[i] else 0
    case Ind(j) => Ptr(w.d, top[12], j)
    case Dind(j) => Ptr(w.d, top[13], j)
    case Leaf(j, k) => Ptr(w.d, Ptr(w.d, top[13], j), k)
  }

  /** Slots whose block holds further pointers. */
  predicate HoldsPointers(s: Slot) {
    s == Top(12) || s == Top(13) || s.Dind?
  }

  /** The slot that entry j of a pointer block fills. */
  function Child(p: Ref, j: nat): Ref
    requires HoldsPointers(p.slot)
  {
    Ref(p.ino, match p.slot case Top(i) => if i == 12 then Ind(j) else Dind(j) case Dind(k) => Leaf(k, j))
  }

  /** The slot that maps logical block bn. */
  function SlotOf(bn: nat): Slot {
    if bn < 12 then Top(bn)
    else if bn < 12 + PPB then Ind(bn - 12)
    else Leaf((bn - 12 - PPB) / PPB, (bn - 12 - PPB) % PPB)
  }

  lemma SlotOfInjective(a: nat, b: nat)
    requires SlotOf(a) == SlotOf(b)
    ensures a == b && !HoldsPointers(SlotOf(a))
  {
  }

  // ---- invariants ----

  ghost predicate Owned(w: View) {
    && (forall r {:trigger V(w, r)} :: V(w, r) != 0 ==> V(w, r) in w.used && V(w, r) < |w.d|)
    && (forall r, q {:trigger V(w, r), V(w, q)} :: V(w, r) == V(w, q) != 0 ==> r == q)
  }

  /** Every block not used is all zero. */
  ghost predicate Clean(w: View) {
    forall b {:trigger w.d[b]} | 0 <= b < |w.d| && b !in w.used :: w.d[b] == ZeroBlock()
  }

  /** Only free blocks were taken into use, and those still free hold what they held. */
  ghost predicate FreeKept(w: View, w': View) {
    |w'.d| == |w.d| && w.used <= w'.used && forall b {:trigger StillFree(w, w', b)} :: StillFree(w, w', b)
  }

  ghost predicate StillFree(w: View, w': View, b: int)
    requires |w'.d| == |w.d|
  {
    0 <= b < |w.d| && b !in w'.used ==> w'.d[b] == w.d[b]
  }

  /** Every pointer in use stays. */
  ghost predicate PointersKept(w: View, w': View) {
    forall r {:trigger KeptAt(w, w', r)} :: KeptAt(w, w', r)
  }

  ghost predicate KeptAt(w: View, w': View, r: Ref) {
    V(w, r) != 0 ==> V(w', r) == V(w, r)
  }

  /** At most so many blocks and inodes were taken; no pointer moved and no block still free changed. */
  ghost predicate Grew(w: View, w': View, blocks: nat, inodes: nat) {
    FreeKept(w, w') && PointersKept(w, w') && |w'.used| <= |w.used| + blocks && |w'.taken| <= |w.taken| + inodes
  }

  lemma GrewRefl(w: View)
    ensures Grew(w, w, 0, 0)
  {
  }

  lemma GrewMore(w: View, w': View, b: nat)
    requires w' == w.(used := w.used + {b})
    ensures Grew(w, w', 1, 0) && |w'.used| <= |w.used| + 1
  {
    assert SameSlots(w, w');
  }

  lemma GrewTransitive(a: View, b: View, c: View, i: nat, j: nat, k: nat, l: nat)
    requires Grew(a, b, i, j) && Grew(b, c, k, l)
    ensures Grew(a, c, i + k, j + l)
  {
    FreeKeptTransitive(a, b, c);
    forall r {:trigger KeptAt(a, c, r)} ensures KeptAt(a, c, r) { assert KeptAt(a, b, r) && KeptAt(b, c, r); }
  }

  lemma FreeKeptOn(a: View, w: View, w': View)
    requires FreeKept(a, w) && |w'.d| == |w.d| && w.used <= w'.used
    requires forall b | 0 <= b < |w.d| && b !in w'.used :: w'.d[b] == w.d[b]
    ensures FreeKept(a, w')
  {
    forall x {:trigger StillFree(a, w', x)} ensures StillFree(a, w', x) { assert StillFree(a, w, x); }
  }

  lemma ExtendsKeeps(w: View, w': View)
    requires Extends(w, w')
    ensures PointersKept(w, w')
  {
  }

  lemma KeptSame(w: View, u: View, u': View)
    requires PointersKept(w, u) && SameSlots(u, u')
    ensures PointersKept(w, u')
  {
    forall r {:trigger KeptAt(w, u', r)} ensures KeptAt(w, u', r) { assert KeptAt(w, u, r) && V(u', r) == V(u, r); }
  }

  lemma KeptExtends(w: View, u: View, u': View)
    requires PointersKept(w, u) && Extends(u, u')
    ensures PointersKept(w, u')
  {
    forall r {:trigger KeptAt(w, u', r)}
      ensures KeptAt(w, u', r)
    { assert KeptAt(w, u, r) && (V(u, r) != 0 ==> V(u', r) == V(u, r)); }
  }

  lemma FreeKeptTransitive(a: View, b: View, c: View)
    requires FreeKept(a, b) && FreeKept(b, c)
    ensures FreeKept(a, c)
  {
    forall x {:trigger StillFree(a, c, x)}
      ensures StillFree(a, c, x)
    { assert StillFree(a, b, x) && StillFree(b, c, x); }
  }

  lemma CleanKept(w: View, w': View)
    requires Clean(w) && FreeKept(w, w')
    ensures Clean(w')
  {
    forall b {:trigger w'.d[b]} | 0 <= b < |w'.d| && b !in w'.used ensures w'.d[b] == ZeroBlock() {
      assert StillFree(w, w', b);
      assert w.d[b] == ZeroBlock();
    }
  }

  /** A used block that no pointer names yet. */
  ghost predicate Fresh(w: View, b: nat) {
    0 < b < |w.d| && b in w.used && forall r :: V(w, r) != b
  }

  /** w' is w with slot c, and no other, naming v. */
  ghost predicate SlotSet(w: View, w': View, c: Ref, v: u32) {
    forall r {:trigger V(w', r)} {:trigger V(w, r)} :: V(w', r) == if r == c then v else V(w, r)
  }

  ghost predicate SameSlots(w: View, w': View) {
    forall r {:trigger V(w', r)} {:trigger V(w, r)} :: V(w', r) == V(w, r)
  }

  /** Every other inode keeps its record, its pointers and the blocks they name. */
  ghost predicate OthersKept(w: View, w': View, ino: nat) {
    && |w'.inodes| == |w.inodes|
    && (forall i {:trigger w'.inodes[i]} {:trigger w.inodes[i]} | 0 <= i < |w.inodes| && i != ino - 1 ::
      w'.inodes[i] == w.inodes[i])
    && |w'.d| == |w.d| && forall r: Ref {:trigger V(w', r)} {:trigger V(w, r)} | r.ino != ino ::
         V(w', r) == V(w, r) && (0 < V(w, r) < |w.d| ==> w'.d[V(w, r)] == w.d[V(w, r)])
  }

  /** Every pointer in use stays, and so does the data block it names. */
  ghost predicate Extends(w: View, w': View) {
    |w'.d| == |w.d| && forall r: Ref {:trigger V(w', r)} {:trigger V(w, r)} | V(w, r) != 0 ::
      V(w', r) == V(w, r) && (!HoldsPointers(r.slot) && V(w, r) < |w.d| ==> w'.d[V(w, r)] == w.d[V(w, r)])
  }

  lemma ExtendsRefl(w: View)
    ensures Extends(w, w)
  {
  }

  lemma ExtendsTransitive(a: View, b: View, c: View)
    requires Extends(a, b) && Extends(b, c)
    ensures Extends(a, c)
  {
  }

  // ---- elementary changes ----

  /** Only blocks that hold pointers matter to V. */
  lemma SameTree(w: View, w': View)
    requires w'.inodes == w.inodes && |w'.d| == |w.d|
    requires forall r: Ref | HoldsPointers(r.slot) && 0 < V(w, r) < |w.d| :: w'.d[V(w, r)] == w.d[V(w, r)]
    ensures SameSlots(w, w')
  {
    forall r ensures V(w', r) == V(w, r) {
      if 1 <= r.ino <= |w.inodes| {
        var a, b := V(w, Ref(r.ino, Top(12))), V(w, Ref(r.ino, Top(13)));
        match r.slot
        case Top(_) =>
        case Ind(_) =>
        case Dind(_) =>
        case Leaf(j, k) => var c := V(w, Ref(r.ino, Dind(j)));
      }
    }
  }

  /** Allocating a free block: no pointer changes, and the block is fresh. */
  lemma Allocate(w: View, b: nat)
    requires Owned(w) && 0 < b < |w.d| && b !in w.used
    ensures var w' := w.(used := w.used + {b}); Owned(w') && SameSlots(w, w') && Fresh(w', b)
  {
    var w' := w.(used := w.used + {b});
    SameTree(w, w');
  }

  /** Pointing a slot at a fresh block keeps ownership. */
  lemma AdoptFresh(w: View, w': View, c: Ref, v: u32)
    requires Owned(w) && Fresh(w, v) && w'.used == w.used && |w'.d| == |w.d| && SlotSet(w, w', c, v)
    ensures Owned(w')
  {
  }

  lemma NoEntries(d: seq<Block>, b: nat)
    requires b < |d| && d[b] == ZeroBlock()
    ensures forall j :: Ptr(d, b, j) == 0
  {
  }

  function WithInode(w: View, ino: nat, n: Inode): View
    requires 1 <= ino <= |w.inodes|
  {
    w.(inodes := w.inodes[ino - 1 := n])
  }

  function WithTop(n: Inode, i: nat, v: u32): Inode
    requires i < 15
  {
    n.(block := n.block[i := v])
  }

  /** Storing a fresh block into i_block of an inode. */
  lemma SetTop(w: View, ino: nat, i: nat, v: u32)
    requires Owned(w) && Fresh(w, v) && 1 <= ino <= |w.inodes| && i < 15
    requires HoldsPointers(Top(i)) ==> V(w, Ref(ino, Top(i))) == 0 && w.d[v] == ZeroBlock()
    ensures var w' := WithInode(w, ino, WithTop(w.inodes[ino - 1], i, v));
      Owned(w') && SlotSet(w, w', Ref(ino, Top(i)), v)
  {
    var w' := WithInode(w, ino, WithTop(w.inodes[ino - 1], i, v));
    assert SlotSet(w, w', Ref(ino, Top(i)), v) by {
      if HoldsPointers(Top(i)) { NoEntries(w.d, v); }
      forall r ensures V(w', r) == if r == Ref(ino, Top(i)) then v else V(w, r) {
        if r.ino == ino && !r.slot.Top? && i == 13 { assert Ptr(w.d, 0, 0) == 0; }
      }
    }
    AdoptFresh(w, w', Ref(ino, Top(i)), v);
  }

  /** Entry j of block x, and no other entry of any block, becomes v. */
  ghost predicate EntryPatched(d: seq<Block>, d': seq<Block>, x: nat, j: nat, v: u32) {
    && |d'| == |d| && (forall y {:trigger d'[y]} {:trigger d[y]} | 0 <= y < |d| && y != x :: d'[y] == d[y])
    && forall b, i {:trigger Ptr(d', b, i)} {:trigger Ptr(d, b, i)} ::
      Ptr(d', b, i) == if b == x && i == j then v else Ptr(d, b, i)
  }

  /** What each slot names once entry j of the block that slot p names is v. */
  lemma SlotPatched(w: View, d': seq<Block>, p: Ref, j: nat, v: u32, r: Ref)
    requires |d'| == |w.d| && 1 <= r.ino <= |w.inodes|
    requires HoldsPointers(p.slot) && V(w, p) != 0 && V(w, p) != v
    requires forall b, i :: Ptr(d', b, i) == if b == V(w, p) && i == j then v else Ptr(w.d, b, i)
    requires forall q :: V(w, q) == V(w, p) ==> q == p
    requires HoldsPointers(Child(p, j).slot) ==> V(w, Child(p, j)) == 0
    ensures V(w.(d := d'), r) ==
      if r == Child(p, j) then v
      else if r.ino == p.ino && Under(Child(p, j).slot, r.slot) then Shown(w.d, Child(p, j).slot, v, r.slot)
      else V(w, r)
  {
    var top := w.inodes[r.ino - 1].block;
    assert V(w, Ref(r.ino, Top(12))) == top[12] && V(w, Ref(r.ino, Top(13))) == top[13];
    if r.slot.Leaf? {
      var q := Ref(r.ino, Dind(r.slot.j));
      var c := Ptr(w.d, top[13], r.slot.j);
      assert V(w, q) == c;
      assert Ptr(d', top[13], r.slot.j) == if q == Child(p, j) then v else c;
    }
  }

  /** Patching entry j of a pointer block to name a fresh block. */
  lemma SetChild(w: View, d': seq<Block>, p: Ref, j: nat, v: u32)
    requires Owned(w) && Fresh(w, v) && HoldsPointers(p.slot) && V(w, p) != 0 && j < PPB
    requires HoldsPointers(Child(p, j).slot) ==> V(w, Child(p, j)) == 0 && w.d[v] == ZeroBlock()
    requires EntryPatched(w.d, d', V(w, p), j, v)
    ensures Owned(w.(d := d')) && SlotSet(w, w.(d := d'), Child(p, j), v)
  {
    if HoldsPointers(Child(p, j).slot) { NoEntries(w.d, v); }
    forall r ensures V(w.(d := d'), r) == if r == Child(p, j) then v else V(w, r) {
      if 1 <= r.ino <= |w.inodes| {
        SlotPatched(w, d', p, j, v, r);
        if r.ino == p.ino && Under(Child(p, j).slot, r.slot) { assert Ptr(w.d, 0, r.slot.k) == 0; }
      }
    }
    AdoptFresh(w, w.(d := d'), Child(p, j), v);
  }

  /** Overwriting a used block that holds no pointers changes no pointer. */
  lemma WriteData(w: View, x: nat, c: Block)
    requires Owned(w) && 0 < x < |w.d| && x in w.used && forall r: Ref | HoldsPointers(r.slot) :: V(w, r) != x
    ensures var w' := w.(d := w.d[x := c]); Owned(w') && SameSlots(w, w')
  {
    SameTree(w, w.(d := w.d[x := c]));
  }

  /** An inode whose i_block differs only by missing pointers keeps ownership. */
  lemma DropTops(w: View, ino: nat, n: Inode)
    requires Owned(w) && 1 <= ino <= |w.inodes|
    requires forall i | 0 <= i < 15 :: n.block[i] == 0 || n.block[i] == w.inodes[ino - 1].block[i]
    ensures Owned(WithInode(w, ino, n))
    ensures forall r :: V(WithInode(w, ino, n), r) == 0 || V(WithInode(w, ino, n), r) == V(w, r)
  {
    var w' := WithInode(w, ino, n);
    forall r ensures V(w', r) == 0 || V(w', r) == V(w, r) {
      if r.ino == ino && r.slot.Leaf? { assert Ptr(w.d, 0, r.slot.k) == 0; }
    }
  }

  /** An inode replaced by one with the same i_block. */
  lemma SameTops(w: View, ino: nat, n: Inode)
    requires 1 <= ino <= |w.inodes| && n.block == w.inodes[ino - 1].block
    ensures SameSlots(w, WithInode(w, ino, n))
  {
  }

  // ---- adopting a pointer block without zeroing it ----

  /** Slot s lies in the tree below pointer slot c. */
  predicate Under(c: Slot, s: Slot) {
    (c == Top(12) && s.Ind?) || (c == Top(13) && (s.Dind? || s.Leaf?)) || (c.Dind? && s.Leaf? && s.j == c.j)
  }

  /** The pointer that block b, taken as it is into slot c, shows in slot s below. */
  function Shown(d: seq<Block>, c: Slot, b: nat, s: Slot): u32 {
    if !Under(c, s) then 0
    else if c.Dind? then Ptr(d, b, s.k)
    else if s.Leaf? then Ptr(d, Ptr(d, b, s.j), s.k)
    else Ptr(d, b, s.j)
  }

  /** The pointers a free block happens to show name used, unnamed, distinct blocks. */
  ghost predicate Harmless(w: View, c: Slot, b: nat) {
    && (forall s {:trigger Shown(w.d, c, b, s)} :: Shown(w.d, c, b, s) != 0 ==> Fresh(w, Shown(w.d, c, b, s)))
    && (forall s, t {:trigger Shown(w.d, c, b, s), Shown(w.d, c, b, t)} ::
      Shown(w.d, c, b, s) == Shown(w.d, c, b, t) != 0 ==> s == t)
  }

  /** w' is w with free block b taken into the empty pointer slot c, its contents left alone. */
  ghost predicate Adopted(w: View, w': View, c: Ref, b: u32) {
    && w'.used == w.used + {b} && |w'.d| == |w.d| && 0 < b < |w.d| && b !in w.used && HoldsPointers(c.slot)
    && (forall r {:trigger V(w', r)} ::
      V(w', r) ==
        if r == c then b
        else if r.ino == c.ino && Under(c.slot, r.slot) then Shown(w.d, c.slot, b, r.slot)
        else V(w, r))
    && forall r: Ref {:trigger V(w, r)} | r == c || (r.ino == c.ino && Under(c.slot, r.slot)) :: V(w, r) == 0
  }

  lemma AdoptedHarmless(w: View, w': View, c: Ref, b: u32)
    requires Owned(w) && Owned(w') && Adopted(w, w', c, b)
    ensures Harmless(w, c.slot, b)
  {
    forall s | Shown(w.d, c.slot, b, s) != 0 ensures Fresh(w, Shown(w.d, c.slot, b, s)) {
      assert V(w', Ref(c.ino, s)) == Shown(w.d, c.slot, b, s) && V(w', c) == b;
      forall r ensures V(w, r) != Shown(w.d, c.slot, b, s) { assert V(w, r) == 0 || V(w', r) == V(w, r); }
    }
    forall s, t | Shown(w.d, c.slot, b, s) == Shown(w.d, c.slot, b, t) != 0 ensures s == t {
      assert V(w', Ref(c.ino, s)) == V(w', Ref(c.ino, t));
    }
  }

  /** Taking a free block into a pointer slot as it is keeps ownership exactly when what it shows is harmless. */
  lemma AdoptExactly(w: View, w': View, c: Ref, b: u32)
    requires Owned(w) && Adopted(w, w', c, b)
    ensures Owned(w') <==> Harmless(w, c.slot, b)
  {
    if Owned(w') { AdoptedHarmless(w, w', c, b); }
  }

  /** When every used block has an owner, that means exactly: it shows no pointer. */
  lemma AdoptNeedsZero(w: View, w': View, c: Ref, b: u32)
    requires Owned(w) && Adopted(w, w', c, b) && forall x | x in w.used :: exists r :: V(w, r) == x
    ensures Owned(w') <==> forall s :: Shown(w.d, c.slot, b, s) == 0
  {
    AdoptExactly(w, w', c, b);
  }

  /** What storing free block b in i_block[12] or i_block[13] of an inode does. */
  lemma AdoptTop(w: View, ino: nat, i: nat, b: u32)
    requires 1 <= ino <= |w.inodes| && (i == 12 || i == 13) && w.inodes[ino - 1].block[i] == 0 && 0 < b < |w.d|
    requires b !in w.used
    ensures Adopted(w, WithInode(w.(used := w.used + {b}), ino, WithTop(w.inodes[ino - 1], i, b)), Ref(ino, Top(i)), b)
  {
    var w' := WithInode(w.(used := w.used + {b}), ino, WithTop(w.inodes[ino - 1], i, b));
    var c := Ref(ino, Top(i));
    forall j, k ensures Ptr(w.d, Ptr(w.d, 0, j), k) == 0 { assert Ptr(w.d, 0, j) == 0; }
    forall r: Ref {:trigger V(w, r)} | r == c || (r.ino == ino && Under(Top(i), r.slot)) ensures V(w, r) == 0 { }
    forall r {:trigger V(w', r)}
      ensures V(w', r) ==
        if r == c then b
        else if r.ino == ino && Under(Top(i), r.slot) then Shown(w.d, Top(i), b, r.slot)
        else V(w, r)
    { }
  }

  /** What storing free block b in entry j of an inode's doubly indirect block does. */
  lemma AdoptSecond(w: View, d': seq<Block>, ino: nat, j: nat, b: u32)
    requires Owned(w) && 0 < b < |w.d| && b !in w.used && j < PPB
    requires V(w, Ref(ino, Top(13))) != 0 && V(w, Ref(ino, Dind(j))) == 0
    requires EntryPatched(w.d, d', V(w, Ref(ino, Top(13))), j, b)
    ensures Adopted(w, w.(used := w.used + {b}, d := d'), Ref(ino, Dind(j)), b)
  {
    var w', p, c := w.(used := w.used + {b}, d := d'), Ref(ino, Top(13)), Ref(ino, Dind(j));
    forall r: Ref {:trigger V(w, r)} | r == c || (r.ino == ino && Under(Dind(j), r.slot)) ensures V(w, r) == 0 {
      if r != c { assert Ptr(w.d, 0, r.slot.k) == 0; }
    }
    forall r {:trigger V(w', r)}
      ensures V(w', r) ==
        if r == c then b
        else if r.ino == ino && Under(Dind(j), r.slot) then Shown(w.d, Dind(j), b, r.slot)
        else V(w, r)
    {
      if 1 <= r.ino <= |w.inodes| { SlotPatched(w, d', p, j, b, r); }
    }
  }
}
