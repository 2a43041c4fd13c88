/** The whole file system: inode types, directory contents, and what every
    operation keeps. */
module Ext2Fs {
  import opened Bytes
  import opened Ext2Layout
  import opened Ext2View
  import opened Ext2File
  import opened Ext2Dir

  const DIR_MAX_BLOCKS := 12 + PPB

  /** Directory ino is a run of blocks: slot k names a block that reads bs[k], and no slot past them names any. */
  ghost predicate DirIs(w: View, ino: nat, bs: seq<Block>) {
    && 1 <= ino <= |w.inodes| && w.inodes[ino - 1].size == |bs| * BLOCK_SIZE && |bs| <= DIR_MAX_BLOCKS
    && (forall k {:trigger bs[k]} {:trigger SlotOf(k)} | 0 <= k < |bs| ::
      0 < V(w, Ref(ino, SlotOf(k))) < |w.d| && w.d[V(w, Ref(ino, SlotOf(k)))] == bs[k])
    && (forall k {:trigger SlotOf(k)} | |bs| <= k :: V(w, Ref(ino, SlotOf(k))) == 0)
  }

  ghost predicate AllTiled(bs: seq<Block>) {
    forall k | 0 <= k < |bs| :: Tiled(bs[k], 0)
  }

  /** A well-formed directory: whole blocks, each exactly tiled by its records. */
  ghost predicate DirOk(w: View, ino: nat) {
    exists bs :: DirIs(w, ino, bs) && AllTiled(bs)
  }

  /** Typed inodes are marked used, untyped ones are empty, and directories are well formed. */
  ghost predicate InodeOk(w: View, ino: nat)
    requires 1 <= ino <= |w.inodes|
  {
    var n := w.inodes[ino - 1];
    && (if n.mode == 0 then n == EmptyInode(0) else ino in w.taken)
    && (IsDir(n) ==> !IsReg(n) && DirOk(w, ino))
  }

  /** The invariant of every run. */
  ghost predicate FsOk(w: View) {
    Owned(w) && forall ino | 1 <= ino <= |w.inodes| :: InodeOk(w, ino)
  }

  // ---- listings ----

  function WalksOf(bs: seq<Block>): (r: seq<seq<Entry>>)
    ensures |r| == |bs|
  {
    seq(|bs|, k requires 0 <= k < |bs| => Walk(bs[k], 0))
  }

  function Concat(ess: seq<seq<Entry>>): seq<Entry> {
    if ess == [] then [] else Concat(ess[..|ess| - 1]) + ess[|ess| - 1]
  }

  /** The blocks of an inode in order, a hole reading as zeros. */
  ghost function Blocks(w: View, ino: nat): seq<Block>
    requires 1 <= ino <= |w.inodes|
  {
    seq((w.inodes[ino - 1].size + BLOCK_SIZE - 1) / BLOCK_SIZE, k requires 0 <= k => FileBlock(w, ino, k))
  }

  /** The entries of a directory, in the order the loader's walk meets them. */
  ghost function Listing(w: View, ino: nat): seq<Entry>
    requires 1 <= ino <= |w.inodes|
  {
    Concat(WalksOf(Blocks(w, ino)))
  }

  lemma DirIsBlocks(w: View, ino: nat, bs: seq<Block>)
    requires DirIs(w, ino, bs)
    ensures Blocks(w, ino) == bs
  {
    forall k | 0 <= k < |bs| ensures FileBlock(w, ino, k) == bs[k] { var s := SlotOf(k); }
  }

  lemma InsertedRight(a: seq<Entry>, t: seq<Entry>, s: seq<Entry>, e: Entry)
    requires Inserted(t, s, e)
    ensures Inserted(a + t, a + s, e)
  {
    var k :| 0 <= k <= |t| && s == t[..k] + [e] + t[k..];
    var u, i := a + t, |a| + k;
    assert u[..i] == a + t[..k] && u[i..] == t[k..];
    assert a + s == u[..i] + [e] + u[i..];
  }

  lemma InsertedLeft(t: seq<Entry>, s: seq<Entry>, c: seq<Entry>, e: Entry)
    requires Inserted(t, s, e)
    ensures Inserted(t + c, s + c, e)
  {
    var k :| 0 <= k <= |t| && s == t[..k] + [e] + t[k..];
    var u := t + c;
    assert u[..k] == t[..k] && u[k..] == t[k..] + c;
    assert s + c == u[..k] + [e] + u[k..];
  }

  /** An entry inserted in one block is inserted in the listing. */
  lemma {:induction false} ConcatInsert(ess: seq<seq<Entry>>, k: nat, s: seq<Entry>, e: Entry)
    requires k < |ess| && Inserted(ess[k], s, e)
    ensures Inserted(Concat(ess), Concat(ess[k := s]), e)
  {
    var n := |ess| - 1;
    if k == n {
      assert ess[k := s][..n] == ess[..n];
      InsertedRight(Concat(ess[..n]), ess[n], s, e);
    } else {
      assert ess[k := s][..n] == ess[..n][k := s];
      ConcatInsert(ess[..n], k, s, e);
      InsertedLeft(Concat(ess[..n]), Concat(ess[..n][k := s]), ess[n], e);
    }
  }

  /** So is an entry alone in a new last block. */
  lemma ConcatAppend(ess: seq<seq<Entry>>, e: Entry)
    ensures Inserted(Concat(ess), Concat(ess + [[e]]), e)
  {
    assert (ess + [[e]])[..|ess|] == ess;
    var t := Concat(ess);
    assert t[..|t|] == t && t[|t|..] == [] && t + [e] + [] == t + [e];
  }

  // ---- what a change of one inode keeps ----

  lemma SlotsKept(w: View, w': View, ino: nat, i: nat)
    requires OthersKept(w, w', ino) && i != ino && 1 <= i <= |w.inodes|
    ensures forall k: nat ::
      FileBlock(w', i, k) == FileBlock(w, i, k) && V(w', Ref(i, SlotOf(k))) == V(w, Ref(i, SlotOf(k)))
  {
    forall k: nat
      ensures FileBlock(w', i, k) == FileBlock(w, i, k) && V(w', Ref(i, SlotOf(k))) == V(w, Ref(i, SlotOf(k)))
    {
      var r := Ref(i, SlotOf(k));
      assert V(w', r) == V(w, r);
    }
  }

  /** What a caller can observe of an inode. */
  ghost predicate SameFile(w: View, w': View, i: nat)
    requires 1 <= i <= |w.inodes| == |w'.inodes|
  {
    w'.inodes[i - 1] == w.inodes[i - 1] && Content(w', i) == Content(w, i) && Listing(w', i) == Listing(w, i)
  }

  lemma OthersSame(w: View, w': View, ino: nat, i: nat)
    requires OthersKept(w, w', ino) && i != ino && 1 <= i <= |w.inodes|
    ensures SameFile(w, w', i)
  {
    KeptContent(w, w', ino, i);
    SlotsKept(w, w', ino, i);
    assert Blocks(w', i) == Blocks(w, i);
  }

  lemma OthersOk(w: View, w': View, ino: nat, i: nat)
    requires OthersKept(w, w', ino) && i != ino && 1 <= i <= |w.inodes| && w.taken <= w'.taken && InodeOk(w, i)
    ensures InodeOk(w', i)
  {
    if IsDir(w.inodes[i - 1]) {
      var bs :| DirIs(w, i, bs) && AllTiled(bs);
      assert DirIs(w', i, bs) by {
        forall k: nat ensures V(w', Ref(i, SlotOf(k))) == V(w, Ref(i, SlotOf(k))) {}
        forall k | 0 <= k < |bs|
          ensures 0 < V(w', Ref(i, SlotOf(k))) < |w'.d| && w'.d[V(w', Ref(i, SlotOf(k)))] == bs[k]
        {
          var r := Ref(i, SlotOf(k));
          assert V(w', r) == V(w, r);
        }
      }
    }
  }

  /** With every other inode kept, the invariant hangs on inode ino. */
  lemma FsOkFrom(w: View, w': View, ino: nat)
    requires FsOk(w) && OthersKept(w, w', ino) && w.taken <= w'.taken && Owned(w')
    requires 1 <= ino <= |w.inodes| ==> InodeOk(w', ino)
    ensures FsOk(w') && forall i | 1 <= i <= |w.inodes| && i != ino :: SameFile(w, w', i)
  {
    forall i | 1 <= i <= |w.inodes| ensures InodeOk(w', i) {
      if i != ino { OthersOk(w, w', ino, i); }
    }
    forall i | 1 <= i <= |w.inodes| && i != ino ensures SameFile(w, w', i) { OthersSame(w, w', ino, i); }
  }

  // ---- linking an entry ----

  /** An entry linked inside block k of a directory. */
  lemma DirSet(w: View, w': View, ino: nat, bs: seq<Block>, k: nat, b: Block, e: Entry)
    requires DirIs(w, ino, bs) && AllTiled(bs) && k < |bs| && Owned(w)
    requires w' == w.(d := w.d[V(w, Ref(ino, SlotOf(k))) := b]) && SameSlots(w, w')
    requires Tiled(b, 0) && Inserted(Walk(bs[k], 0), Walk(b, 0), e)
    ensures DirOk(w', ino) && Inserted(Listing(w, ino), Listing(w', ino), e)
  {
    var bs' := bs[k := b];
    forall i | 0 <= i < |bs|
      ensures 0 < V(w', Ref(ino, SlotOf(i))) < |w'.d| && w'.d[V(w', Ref(ino, SlotOf(i)))] == bs'[i]
    {
      var r := Ref(ino, SlotOf(i));
      assert V(w', r) == V(w, r);
      if i != k && SlotOf(i) == SlotOf(k) { SlotOfInjective(i, k); }
    }
    forall i | |bs| <= i
      ensures V(w', Ref(ino, SlotOf(i))) == 0
    { assert V(w', Ref(ino, SlotOf(i))) == V(w, Ref(ino, SlotOf(i))); }
    assert DirIs(w', ino, bs');
    DirIsBlocks(w, ino, bs);
    DirIsBlocks(w', ino, bs');
    WalksOfSet(bs, k, b, e);
  }

  lemma WalksOfSet(bs: seq<Block>, k: nat, b: Block, e: Entry)
    requires k < |bs| && Inserted(Walk(bs[k], 0), Walk(b, 0), e)
    ensures Inserted(Concat(WalksOf(bs)), Concat(WalksOf(bs[k := b])), e)
  {
    assert WalksOf(bs[k := b]) == WalksOf(bs)[k := Walk(b, 0)];
    ConcatInsert(WalksOf(bs), k, Walk(b, 0), e);
  }

  /** An entry alone in a block appended to a directory. */
  lemma DirGrew(w: View, w': View, ino: nat, bs: seq<Block>, nb: u32, e: Entry)
    requires DirIs(w, ino, bs) && AllTiled(bs) && |bs| < DIR_MAX_BLOCKS && Extends(w, w') && 0 < nb < |w'.d|
    requires 1 <= ino <= |w'.inodes| && w'.inodes[ino - 1].size == (|bs| + 1) * BLOCK_SIZE
    requires forall k {:trigger SlotOf(k)} ::
      V(w', Ref(ino, SlotOf(k))) == if k == |bs| then nb else V(w, Ref(ino, SlotOf(k)))
    requires Tiled(w'.d[nb], 0) && Walk(w'.d[nb], 0) == [e]
    ensures DirOk(w', ino) && Inserted(Listing(w, ino), Listing(w', ino), e)
  {
    var bs' := bs + [w'.d[nb]];
    forall k | 0 <= k < |bs'|
      ensures 0 < V(w', Ref(ino, SlotOf(k))) < |w'.d| && w'.d[V(w', Ref(ino, SlotOf(k)))] == bs'[k]
    {
      SlotOfInjective(k, k);
      var v := V(w, Ref(ino, SlotOf(k)));
    }
    assert DirIs(w', ino, bs');
    DirIsBlocks(w, ino, bs);
    DirIsBlocks(w', ino, bs');
    assert WalksOf(bs') == WalksOf(bs) + [[e]];
    ConcatAppend(WalksOf(bs), e);
  }

  /** Marking an inode number taken changes nothing a caller can observe. */
  lemma TakenOk(w: View, ino: nat)
    requires FsOk(w)
    ensures var w' := w.(taken := w.taken + {ino}); FsOk(w') && OthersKept(w, w', 0) && Grew(w, w', 0, 1)
  {
    var w' := w.(taken := w.taken + {ino});
    assert SameSlots(w, w');
    FsOkFrom(w, w', 0);
  }

  lemma WholeBlocks(n: nat)
    ensures (n * BLOCK_SIZE + BLOCK_SIZE - 1) / BLOCK_SIZE == n
  {
  }

  lemma WritingStart(w: View, ino: nat)
    requires Owned(w) && 1 <= ino <= |w.inodes|
    ensures WithInode(w, ino, w.inodes[ino - 1]) == w && Writing(w, w, ino, w.inodes[ino - 1])
  {
    assert w.inodes[ino - 1 := w.inodes[ino - 1]] == w.inodes;
  }

  lemma SameFileRefl(w: View)
    ensures forall i | 1 <= i <= |w.inodes| :: SameFile(w, w, i)
  {
  }

  /** A change of a regular file keeps the invariant. */
  lemma RegularOk(w: View, w': View, ino: nat)
    requires FsOk(w) && OthersKept(w, w', ino) && w.taken == w'.taken && Owned(w')
    requires 1 <= ino <= |w.inodes| && IsReg(w.inodes[ino - 1]) && w'.inodes[ino - 1].mode == w.inodes[ino - 1].mode
    ensures FsOk(w') && forall i | 1 <= i <= |w.inodes| && i != ino :: SameFile(w, w', i)
  {
    assert InodeOk(w, ino);
    FsOkFrom(w, w', ino);
  }

  /** Linking an entry into an existing block keeps the invariant. */
  lemma LinkedOk(w: View, w': View, ino: nat, bs: seq<Block>, k: nat, b: Block, e: Entry)
    requires FsOk(w) && 1 <= ino <= |w.inodes| && IsDir(w.inodes[ino - 1]) && DirIs(w, ino, bs) && AllTiled(bs)
    requires k < |bs|
    requires w' == w.(d := w.d[V(w, Ref(ino, SlotOf(k))) := b])
    requires Tiled(b, 0) && Inserted(Walk(bs[k], 0), Walk(b, 0), e)
    ensures FsOk(w') && OthersKept(w, w', ino) && Inserted(Listing(w, ino), Listing(w', ino), e) && Grew(w, w', 0, 0)
  {
    BlockSet(w, w', ino, bs, k, b);
    DirSet(w, w', ino, bs, k, b, e);
    assert InodeOk(w, ino);
    FsOkFrom(w, w', ino);
  }

  lemma BlockSet(w: View, w': View, ino: nat, bs: seq<Block>, k: nat, b: Block)
    requires Owned(w) && 1 <= ino <= |w.inodes| && DirIs(w, ino, bs) && k < |bs|
    requires w' == w.(d := w.d[V(w, Ref(ino, SlotOf(k))) := b])
    ensures Owned(w') && SameSlots(w, w') && OthersKept(w, w', ino) && Grew(w, w', 0, 0)
  {
    var r := Ref(ino, SlotOf(k));
    SlotOfInjective(k, k);
    assert V(w, r) != 0;
    DataSlotAlone(w, r);
    WriteData(w, V(w, r), b);
  }

  /** Slot bn of inode ino becomes nb; every other mapping slot stays. */
  ghost predicate Mapped(u: View, u': View, ino: nat, bn: nat, nb: u32) {
    forall k {:trigger SlotOf(k)} :: V(u', Ref(ino, SlotOf(k))) == if k == bn then nb else V(u, Ref(ino, SlotOf(k)))
  }

  lemma MappedFrom(u: View, u': View, ino: nat, bn: nat, nb: u32)
    requires SlotSet(u, u', Ref(ino, SlotOf(bn)), nb)
    ensures Mapped(u, u', ino, bn, nb)
  {
    forall k: nat ensures V(u', Ref(ino, SlotOf(k))) == if k == bn then nb else V(u, Ref(ino, SlotOf(k))) {
      if SlotOf(k) == SlotOf(bn) { SlotOfInjective(k, bn); }
    }
  }

  /** Setting a pointer-block slot leaves the mapping slots. */
  lemma MappedSame(u: View, u': View, ino: nat, c: Ref, v: u32)
    requires SlotSet(u, u', c, v) && HoldsPointers(c.slot)
    ensures forall k {:trigger SlotOf(k)} :: V(u', Ref(ino, SlotOf(k))) == V(u, Ref(ino, SlotOf(k)))
  {
    forall k: nat ensures V(u', Ref(ino, SlotOf(k))) == V(u, Ref(ino, SlotOf(k))) { SlotOfInjective(k, k); }
  }

  /** A slot set behind the singly indirect block that was just put in place. */
  lemma MappedThrough(u: View, u1: View, u2: View, ino: nat, ind: u32, bn: nat, nb: u32)
    requires SlotSet(u, u1, Ref(ino, Top(12)), ind) && Extends(u, u1) && Extends(u1, u2) && Mapped(u1, u2, ino, bn, nb)
    ensures Extends(u, u2) && Mapped(u, u2, ino, bn, nb)
  {
    ExtendsTransitive(u, u1, u2);
    MappedSame(u, u1, ino, Ref(ino, Top(12)), ind);
  }

  /** Storing the inode of a directory whose copy has one more block keeps the invariant. */
  lemma AppendedOk(w0: View, w: View, ino: nat, n: Inode, nb: u32, e: Entry, bs: seq<Block>)
    requires FsOk(w0) && Writing(w0, w, ino, n) && IsDir(w0.inodes[ino - 1]) && DirIs(w0, ino, bs) && AllTiled(bs)
    requires n.mode == w0.inodes[ino - 1].mode && n.size == w0.inodes[ino - 1].size && |bs| < DIR_MAX_BLOCKS
    requires Extends(w0, WithInode(w, ino, n)) && Mapped(w0, WithInode(w, ino, n), ino, |bs|, nb)
    requires 0 < nb < |w.d| && Tiled(w.d[nb], 0) && Walk(w.d[nb], 0) == [e]
    ensures var w' := WithInode(w, ino, n.(size := n.size + BLOCK_SIZE));
            FsOk(w') && OthersKept(w0, w', ino) && Inserted(Listing(w0, ino), Listing(w', ino), e) && FreeKept(w0, w')
              && PointersKept(w0, w')
  {
    var u, n' := WithInode(w, ino, n), n.(size := n.size + BLOCK_SIZE);
    var w' := WithInode(w, ino, n');
    Commit(w0, w, ino, n, n');
    ExtendsTransitive(w0, u, w');
    ExtendsKeeps(w0, w');
    FreeKeptOn(w0, w, w');
    forall k: nat ensures V(w', Ref(ino, SlotOf(k))) == if k == |bs| then nb else V(w0, Ref(ino, SlotOf(k))) {
      assert V(w', Ref(ino, SlotOf(k))) == V(u, Ref(ino, SlotOf(k)));
    }
    DirGrew(w0, w', ino, bs, nb, e);
    assert InodeOk(w0, ino);
    FsOkFrom(w0, w', ino);
  }

  /** A block taken and filled but linked nowhere changes nothing a caller can observe. */
  lemma NothingLinked(w: View, w': View, nb: nat)
    requires FsOk(w) && 0 < nb < |w.d| && nb !in w.used && |w'.d| == |w.d|
    requires w' == w.(d := w'.d, used := w.used + {nb}) && forall b | 0 <= b < |w.d| && b != nb :: w'.d[b] == w.d[b]
    ensures FsOk(w') && OthersKept(w, w', 0) && Grew(w, w', 1, 0)
  {
    SameTree(w, w');
    FsOkFrom(w, w', 0);
  }

  lemma AllOthersSame(w: View, w': View, ino: nat)
    requires OthersKept(w, w', ino)
    ensures forall i | 1 <= i <= |w.inodes| && i != ino :: SameFile(w, w', i)
  {
    forall i | 1 <= i <= |w.inodes| && i != ino ensures SameFile(w, w', i) { OthersSame(w, w', ino, i); }
  }

  /** Typing a reserved inode as an empty regular file. */
  lemma NewFileOk(w: View, w1: View, ino: nat, n: Inode)
    requires FsOk(w) && 1 <= ino <= |w.inodes| && ino !in w.taken && w1 == w.(taken := w.taken + {ino})
    requires n.mode != 0 && !IsDir(n) && n == EmptyInode(n.mode)
    ensures w.inodes[ino - 1] == EmptyInode(0)
    ensures FsOk(WithInode(w1, ino, n)) && OthersKept(w, WithInode(w1, ino, n), ino)
    ensures Grew(w, WithInode(w1, ino, n), 0, 1)
  {
    assert InodeOk(w, ino);
    TakenOk(w, ino);
    SameTops(w1, ino, n);
    var w' := WithInode(w1, ino, n);
    assert SameSlots(w, w1);
    FsOkFrom(w, w', ino);
  }

  /** Linking e into directory dirIno: every other inode is as before; with ok the
      directory lists e besides its old entries, otherwise it is as before too. */
  ghost predicate Linked(w: View, w': View, dirIno: nat, e: Entry, ok: bool) {
    && |w'.inodes| == |w.inodes|
    && (forall i {:trigger SameFile(w, w', i)} | 1 <= i <= |w.inodes| && (i != dirIno || !ok) :: SameFile(w, w', i))
    && (ok ==> 1 <= dirIno <= |w.inodes| && IsDir(w.inodes[dirIno - 1]))
    && (ok ==>
      w'.inodes[dirIno - 1].mode == w.inodes[dirIno - 1].mode && Inserted(Listing(w, dirIno), Listing(w', dirIno), e))
  }

  /** Creating an object: typed inodes are as before, except that with ok the
      directory lists the new, formerly untyped inode. */
  ghost predicate Created(w: View, w': View, dirIno: nat, e: Entry, ok: bool) {
    && |w'.inodes| == |w.inodes|
    && (forall i {:trigger SameFile(w, w', i)} |
      1 <= i <= |w.inodes| && w.inodes[i - 1].mode != 0 && (i != dirIno || !ok) :: SameFile(w, w', i))
    && (ok ==> 1 <= e.ino <= |w.inodes| && w.inodes[e.ino - 1].mode == 0)
    && (ok ==> 1 <= dirIno <= |w.inodes| && (dirIno != e.ino ==> Inserted(Listing(w, dirIno), Listing(w', dirIno), e)))
    && (ok && dirIno != e.ino ==>
      IsDir(w.inodes[dirIno - 1]) && w'.inodes[dirIno - 1].mode == w.inodes[dirIno - 1].mode)
  }

  /** Inodes other than c and d are as before. */
  ghost predicate AllBut(w: View, w': View, c: nat, d: nat) {
    && |w'.inodes| == |w.inodes|
    && forall i {:trigger SameFile(w, w', i)} | 1 <= i <= |w.inodes| && i != c && i != d :: SameFile(w, w', i)
  }

  /** A file creation that returned ino, child being the inode it typed, 0 if none: with ino 0 the child stays
      unlinked. */
  ghost predicate FileMade(w: View, w': View, dirIno: nat, name: seq<byte>, ino: u32, child: nat) {
    && Created(w, w', dirIno, Entry(ino, name, FT_REG_FILE), ino != 0)
    && AllBut(w, w', child, if ino != 0 then dirIno else 0) && (ino == 0 || ino == child != dirIno)
    && (child != 0 ==> 1 <= child <= |w.inodes| && w.inodes[child - 1].mode == 0)
    && (child != 0 ==> w'.inodes[child - 1] == EmptyInode(MODE_FILE))
  }

  /** The same for a directory, which lists its dot entries; linked into itself it lists that entry as well. */
  ghost predicate DirMade(w: View, w': View, dirIno: u32, name: seq<byte>, ino: u32, child: u32) {
    && Created(w, w', dirIno, Entry(ino, name, FT_DIR), ino != 0)
    && AllBut(w, w', child, if ino != 0 then dirIno else 0) && (ino == 0 || ino == child)
    && (child != 0 ==> 1 <= child <= |w.inodes| && w.inodes[child - 1].mode == 0)
    && (child != 0 ==> w'.inodes[child - 1].mode == MODE_DIR && NewListing(w', dirIno, name, child, ino != 0))
  }

  ghost predicate NewListing(w: View, dirIno: u32, name: seq<byte>, child: u32, ok: bool)
    requires 1 <= child <= |w.inodes|
  {
    if ok && dirIno == child then Inserted(DotEntries(child, child), Listing(w, child), Entry(child, name, FT_DIR))
    else Listing(w, child) == DotEntries(child, dirIno)
  }

  /** Nothing made: no inode changed. */
  lemma NotMade(w: View, w': View, dirIno: u32, name: seq<byte>)
    requires OthersKept(w, w', 0)
    ensures FileMade(w, w', dirIno, name, 0, 0) && DirMade(w, w', dirIno, name, 0, 0)
  {
    AllOthersSame(w, w', 0);
  }

  lemma KeptRefl(w: View)
    ensures OthersKept(w, w, 0)
  {
  }

  /** A new inode typed, then linked. */
  lemma CreatedFrom(w: View, w2: View, w': View, dirIno: nat, e: Entry, ok: bool)
    requires 1 <= e.ino <= |w.inodes| && w.inodes[e.ino - 1].mode == 0 && OthersKept(w, w2, e.ino)
    requires Linked(w2, w', dirIno, e, ok)
    ensures Created(w, w', dirIno, e, ok) && AllBut(w, w', e.ino, if ok then dirIno else 0)
  {
    AllOthersSame(w, w2, e.ino);
    forall i | 1 <= i <= |w.inodes| && w.inodes[i - 1].mode != 0 && (i != dirIno || !ok) ensures SameFile(w, w', i) {
      assert SameFile(w, w2, i) && SameFile(w2, w', i);
    }
    forall i {:trigger SameFile(w, w', i)} | 1 <= i <= |w.inodes| && i != e.ino && i != (if ok then dirIno else 0)
      ensures SameFile(w, w', i)
    {
      assert SameFile(w, w2, i) && SameFile(w2, w', i);
    }
    if ok && dirIno != e.ino { assert SameFile(w, w2, dirIno); }
  }

  /** A file typed in w1 and then linked, or not. */
  lemma FileLinked(w: View, w1: View, w': View, dirIno: u32, name: seq<byte>, ino: u32, child: u32)
    requires 1 <= child <= |w.inodes| == |w1.inodes| && w.inodes[child - 1].mode == 0
    requires w1.inodes[child - 1] == EmptyInode(MODE_FILE) && (ino == 0 || ino == child)
    requires Created(w, w', dirIno, Entry(ino, name, FT_REG_FILE), ino != 0)
    requires AllBut(w, w', child, if ino != 0 then dirIno else 0)
    requires Linked(w1, w', dirIno, Entry(child, name, FT_REG_FILE), ino != 0)
    ensures FileMade(w, w', dirIno, name, ino, child)
  {
    ModeBits(0);
    if ino == 0 || dirIno != child { assert SameFile(w1, w', child); }
  }

  lemma DirLinked(w: View, w1: View, w': View, dirIno: u32, name: seq<byte>, ino: u32, child: u32)
    requires 1 <= child <= |w.inodes| == |w1.inodes| && w.inodes[child - 1].mode == 0
    requires w1.inodes[child - 1].mode == MODE_DIR && Listing(w1, child) == DotEntries(child, dirIno)
    requires (ino == 0 || ino == child) && Created(w, w', dirIno, Entry(ino, name, FT_DIR), ino != 0)
    requires AllBut(w, w', child, if ino != 0 then dirIno else 0)
    requires Linked(w1, w', dirIno, Entry(child, name, FT_DIR), ino != 0)
    ensures DirMade(w, w', dirIno, name, ino, child)
  {
    if ino == 0 || dirIno != child { assert SameFile(w1, w', child); }
  }

  function DirInode(mode: u16, blk: u32): Inode {
    WithTop(EmptyInode(mode), 0, blk).(size := BLOCK_SIZE)
  }

  const MODE_FILE: u16 := 0x81A4
  const MODE_DIR: u16 := 0x41ED

  lemma ModeBits(blk: u32)
    ensures IsDir(DirInode(MODE_DIR, blk)) && !IsReg(DirInode(MODE_DIR, blk))
    ensures IsReg(EmptyInode(MODE_FILE)) && !IsDir(EmptyInode(MODE_FILE))
  {
  }

  /** Typing a reserved inode as a directory of one block b, taken and filled beforehand. */
  lemma NewDirOk(w: View, w3: View, ino: nat, blk: u32, b: Block)
    requires FsOk(w) && 1 <= ino <= |w.inodes| && ino !in w.taken && 0 < blk < |w.d| && blk !in w.used
    requires w3 == w.(taken := w.taken + {ino}, used := w.used + {blk}, d := w.d[blk := b])
    requires Tiled(b, 0)
    ensures w.inodes[ino - 1] == EmptyInode(0)
    ensures var w' := WithInode(w3, ino, DirInode(MODE_DIR, blk));
            FsOk(w') && OthersKept(w, w', ino) && DirIs(w', ino, [b]) && Grew(w, w', 1, 1)
  {
    assert InodeOk(w, ino);
    TakenOk(w, ino);
    ModeBits(blk);
    var w1 := w.(taken := w.taken + {ino});
    var w2 := w1.(used := w1.used + {blk});
    var n, n' := EmptyInode(0), DirInode(MODE_DIR, blk);
    WritingStart(w1, ino);
    AllocStep(w1, w1, ino, n, blk);
    BlockStep(w1, w2, ino, n, blk, b);
    assert w3 == w2.(d := w2.d[blk := b]);
    TopStep(w1, w3, ino, n, 0, blk);
    Commit(w1, w3, ino, WithTop(n, 0, blk), n');
    var w' := WithInode(w3, ino, n');
    NewDirIs(w', ino, n', blk, b);
    FsOkFrom(w1, w', ino);
  }

  lemma NewDirIs(w': View, ino: nat, n: Inode, blk: u32, b: Block)
    requires 1 <= ino <= |w'.inodes| && w'.inodes[ino - 1] == n && n == DirInode(n.mode, blk) && 0 < blk < |w'.d|
    requires w'.d[blk] == b
    ensures DirIs(w', ino, [b])
  {
    forall k: nat | 1 <= k ensures V(w', Ref(ino, SlotOf(k))) == 0 {
      if SlotOf(k).Leaf? { assert Ptr(w'.d, 0, SlotOf(k).k) == 0; }
    }
  }

  lemma OneBlockListing(w: View, ino: nat, b: Block)
    requires DirIs(w, ino, [b])
    ensures Listing(w, ino) == Walk(b, 0)
  {
    DirIsBlocks(w, ino, [b]);
    var x := Walk(b, 0);
    assert WalksOf([b]) == [x] && [x][..0] == [] && Concat([]) + x == x;
  }
}
