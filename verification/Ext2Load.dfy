/** The loader: from a directory's blocks to the children it shows. */
module Ext2Load {
  import opened Bytes
  import opened Ext2Layout
  import opened Ext2View
  import opened Ext2File
  import opened Ext2Dir
  import opened Ext2Fs
  import opened Ext2Driver

  const MAX_DIR_ENTRIES := 2048

  datatype Child = Child(name: seq<byte>, isDir: bool, ino: u32, size: u32)

  /** A C string: the bytes before the first zero byte. */
  function CString(s: seq<byte>): seq<byte> {
    if s == [] || s[0] == 0 then [] else [s[0]] + CString(s[1..])
  }

  /** The child an entry stands for: none for "." and "..", nor for an entry of
      unknown type whose inode does not exist. */
  function ChildOf(inodes: seq<Inode>, e: Entry): seq<Child> {
    var name := CString(e.name);
    var found := 1 <= e.ino <= |inodes|;
    if name == DOT || name == DOTDOT then []
    else if e.ftype == FT_DIR then [Child(name, true, e.ino, 0)]
    else if e.ftype == FT_REG_FILE then [Child(name, false, e.ino, if found then inodes[e.ino - 1].size else 0)]
    else if !found then []
    else if IsDir(inodes[e.ino - 1]) then [Child(name, true, e.ino, 0)]
    else [Child(name, false, e.ino, inodes[e.ino - 1].size)]
  }

  function Children(inodes: seq<Inode>, es: seq<Entry>): seq<Child> {
    if es == [] then [] else Children(inodes, es[..|es| - 1]) + ChildOf(inodes, es[|es| - 1])
  }

  lemma {:induction false} ChildrenAppend(inodes: seq<Inode>, a: seq<Entry>, b: seq<Entry>)
    ensures Children(inodes, a + b) == Children(inodes, a) + Children(inodes, b)
  {
    if b == [] {
      assert a + b == a;
    } else {
      var n := |b| - 1;
      assert (a + b)[..|a + b| - 1] == a + b[..n];
      ChildrenAppend(inodes, a, b[..n]);
      Reassociate(Children(inodes, a), Children(inodes, b[..n]), ChildOf(inodes, b[n]));
    }
  }

  lemma ChildrenAround(inodes: seq<Inode>, a: seq<Entry>, e: Entry, c: seq<Entry>)
    ensures Children(inodes, a + [e] + c) == Children(inodes, a) + ChildOf(inodes, e) + Children(inodes, c)
  {
    OneChild(inodes, e);
    ChildrenAppend(inodes, a, [e]);
    ChildrenAppend(inodes, a + [e], c);
  }

  lemma Halves(a: seq<Child>, c: seq<Child>)
    ensures (a + c)[..|a|] == a && (a + c)[|a|..] == c
  {
  }

  /** r is cs with x wedged in at k. */
  ghost predicate Wedged(r: seq<Child>, cs: seq<Child>, x: seq<Child>, k: nat) {
    k <= |cs| && r == cs[..k] + x + cs[k..]
  }

  lemma ChildWedged(inodes: seq<Inode>, a: seq<Entry>, c: seq<Entry>, e: Entry)
    ensures Wedged(Children(inodes, a + [e] + c), Children(inodes, a + c), ChildOf(inodes, e), |Children(inodes, a)|)
  {
    ChildrenAround(inodes, a, e, c);
    ChildrenAppend(inodes, a, c);
    Halves(Children(inodes, a), Children(inodes, c));
  }

  /** A linked entry adds its child and no other, wherever it was inserted. */
  lemma ChildInserted(inodes: seq<Inode>, t: seq<Entry>, s: seq<Entry>, e: Entry)
    requires Inserted(t, s, e)
    ensures exists k: nat :: Wedged(Children(inodes, s), Children(inodes, t), ChildOf(inodes, e), k)
  {
    var i :| 0 <= i <= |t| && s == t[..i] + [e] + t[i..];
    ChildWedged(inodes, t[..i], t[i..], e);
    assert t == t[..i] + t[i..];
  }

  function Capped(cs: seq<Child>): seq<Child> {
    if |cs| <= MAX_DIR_ENTRIES then cs else cs[..MAX_DIR_ENTRIES]
  }

  lemma Reassociate(a: seq<Child>, b: seq<Child>, c: seq<Child>)
    ensures a + b + c == a + (b + c)
  {
  }

  lemma WalkChildren(inodes: seq<Inode>, b: Block, off: nat)
    requires off + 8 <= BLOCK_SIZE && RecLen(b, off) >= 8
    ensures Children(inodes, Walk(b, off)) ==
      Children(inodes, EntryAt(b, off)) + Children(inodes, Walk(b, off + RecLen(b, off)))
  {
    ChildrenAppend(inodes, EntryAt(b, off), Walk(b, off + RecLen(b, off)));
  }

  lemma OneChild(inodes: seq<Inode>, e: Entry)
    ensures Children(inodes, [e]) == ChildOf(inodes, e)
  {
    assert [e][..0] == [] && [] + ChildOf(inodes, e) == ChildOf(inodes, e);
  }

  lemma CappedMore(cs: seq<Child>, more: seq<Child>, rest: seq<Child>)
    requires |cs| <= MAX_DIR_ENTRIES
    ensures Capped(Capped(cs + more) + rest) == Capped(cs + more + rest)
  {
  }

  /** The child of one record, if it has one; type and size come from the inode where the record does not tell. */
  method LoadRecord(dev: Ext2, b: Block, off: nat) returns (child: seq<Child>)
    requires dev.Valid() && off + 8 <= BLOCK_SIZE
    ensures child == Children(dev.fs.inodes, EntryAt(b, off))
  {
    if Le32(b, off) == 0 || b[off + 6] == 0 { return []; }
    var end := off + 8 + b[off + 6];
    var e := Entry(Le32(b, off), b[off + 8..if end <= BLOCK_SIZE then end else BLOCK_SIZE], b[off + 7]);
    OneChild(dev.fs.inodes, e);
    var ok; var n: Inode;
    ok, n := dev.ReadInode(e.ino);
    child := MakeChild(e, ok, n, dev.fs.inodes);
  }

  method MakeChild(e: Entry, ok: bool, n: Inode, ghost inodes: seq<Inode>) returns (child: seq<Child>)
    requires ok == (1 <= e.ino <= |inodes|) && (ok ==> n == inodes[e.ino - 1])
    ensures child == ChildOf(inodes, e)
  {
    var name := CString(e.name);
    if name == DOT || name == DOTDOT { return []; }
    var isDir := e.ftype == FT_DIR;
    if e.ftype != FT_DIR && e.ftype != FT_REG_FILE {
      if !ok { return []; }
      isDir := IsDir(n);
    }
    return [Child(name, isDir, e.ino, if !isDir && ok then n.size else 0)];
  }

  /** Walk one block, adding children until the table is full. */
  method LoadBlock(dev: Ext2, b: Block, seen: seq<Child>) returns (cs: seq<Child>)
    requires dev.Valid() && |seen| <= MAX_DIR_ENTRIES
    ensures cs == Capped(seen + Children(dev.fs.inodes, Walk(b, 0)))
  {
    cs := seen;
    ghost var inodes := dev.fs.inodes;
    ghost var goal := Capped(seen + Children(inodes, Walk(b, 0)));
    var off := 0;
    while off + 8 <= BLOCK_SIZE && |cs| < MAX_DIR_ENTRIES
      invariant |cs| <= MAX_DIR_ENTRIES && goal == Capped(cs + Children(inodes, Walk(b, off)))
      decreases BLOCK_SIZE - off
    {
      var recLen := RecLen(b, off);
      if recLen < 8 { break; }
      var child := LoadRecord(dev, b, off);
      AtMostOne(inodes, b, off);
      WalkChildren(inodes, b, off);
      Reassociate(cs, child, Children(inodes, Walk(b, off + recLen)));
      cs := cs + child;
      off := off + recLen;
    }
  }

  lemma AtMostOne(inodes: seq<Inode>, b: Block, off: nat)
    requires off + 8 <= BLOCK_SIZE
    ensures |Children(inodes, EntryAt(b, off))| <= 1
  {
    if EntryAt(b, off) != [] { OneChild(inodes, EntryAt(b, off)[0]); }
  }

  lemma ConcatOneMore(ess: seq<seq<Entry>>, k: nat)
    requires k < |ess|
    ensures Concat(ess[..k + 1]) == Concat(ess[..k]) + ess[k]
  {
    assert ess[..k + 1][..k] == ess[..k];
  }

  /** The children the loader shows for directory ino: those of its listing, in
      order, up to the table's capacity. */
  method LoadDir(dev: Ext2, ino: u32) returns (cs: seq<Child>)
    requires dev.Valid() && Owned(dev.fs)
    ensures var w := dev.fs;
      cs == if 1 <= ino <= |w.inodes| && IsDir(w.inodes[ino - 1]) then Loaded(w, ino) else []
  {
    var ok; var inode: Inode;
    ok, inode := dev.ReadInode(ino);
    if !ok || !IsDir(inode) { return []; }
    ghost var w := dev.fs;
    ghost var ws := WalksOf(Blocks(w, ino));
    cs := [];
    var nblocks := (inode.size + BLOCK_SIZE - 1) / BLOCK_SIZE;
    for b := 0 to nblocks
      invariant |cs| <= MAX_DIR_ENTRIES && cs == Capped(Children(w.inodes, Concat(ws[..b])))
    {
      var phys, bbuf := dev.BlockOf(ino, inode, b);
      LoadStep(w.inodes, ws, b, cs);
      cs := LoadBlock(dev, bbuf, cs);
    }
    assert ws[..nblocks] == ws;
  }

  lemma LoadStep(inodes: seq<Inode>, ws: seq<seq<Entry>>, b: nat, cs: seq<Child>)
    requires b < |ws| && cs == Capped(Children(inodes, Concat(ws[..b])))
    ensures Capped(cs + Children(inodes, ws[b])) == Capped(Children(inodes, Concat(ws[..b + 1])))
  {
    ConcatOneMore(ws, b);
    var all := Children(inodes, Concat(ws[..b]));
    ChildrenAppend(inodes, Concat(ws[..b]), ws[b]);
    assert [] + all == all;
    CappedMore([], all, Children(inodes, ws[b]));
  }

  // ---- creating, then loading ----

  predicate IsDot(e: Entry) {
    e.name == DOT || e.name == DOTDOT
  }

  lemma DotShown(e: Entry)
    requires IsDot(e)
    ensures CString(e.name) == e.name
  {
    assert CString([]) == [] && CString(DOT) == DOT && DOTDOT[1..] == DOT;
  }

  /** An entry of directory ino, not "." or "..", names a typed inode; if it names the directory itself it says so. */
  ghost predicate Names(w: View, ino: nat, e: Entry) {
    IsDot(e) || (1 <= e.ino <= |w.inodes| && w.inodes[e.ino - 1].mode != 0 && (e.ino == ino ==> e.ftype == FT_DIR))
  }

  ghost predicate Referenced(w: View, ino: nat)
    requires 1 <= ino <= |w.inodes|
  {
    forall e | e in Listing(w, ino) :: Names(w, ino, e)
  }

  lemma {:induction false} ChildrenSame(inodes: seq<Inode>, inodes': seq<Inode>, es: seq<Entry>)
    requires forall e | e in es :: ChildOf(inodes', e) == ChildOf(inodes, e)
    ensures Children(inodes', es) == Children(inodes, es)
  {
    if es != [] {
      var n := |es| - 1;
      assert es[n] in es;
      ChildrenSame(inodes, inodes', es[..n]);
    }
  }

  /** A creation changes no child the directory already had. */
  lemma OldChildren(w: View, w': View, ino: nat, e: Entry)
    requires Created(w, w', ino, e, true) && Referenced(w, ino)
    ensures Children(w'.inodes, Listing(w, ino)) == Children(w.inodes, Listing(w, ino))
  {
    var es := Listing(w, ino);
    forall x | x in es ensures ChildOf(w'.inodes, x) == ChildOf(w.inodes, x) {
      if IsDot(x) {
        DotShown(x);
      } else {
        RecordKept(w, w', ino, e, x.ino);
        ChildSame(w.inodes, w'.inodes, ino, x);
      }
    }
    ChildrenSame(w.inodes, w'.inodes, es);
  }

  lemma RecordKept(w: View, w': View, ino: nat, e: Entry, i: nat)
    requires Created(w, w', ino, e, true) && 1 <= i <= |w.inodes| && w.inodes[i - 1].mode != 0
    ensures |w'.inodes| == |w.inodes| && (i != ino ==> w'.inodes[i - 1] == w.inodes[i - 1])
  {
    if i != ino { assert SameFile(w, w', i); }
  }

  lemma ChildSame(inodes: seq<Inode>, inodes': seq<Inode>, ino: nat, e: Entry)
    requires |inodes'| == |inodes| && (e.ino == ino ==> e.ftype == FT_DIR)
    requires e.ino != ino && 1 <= e.ino <= |inodes| ==> inodes'[e.ino - 1] == inodes[e.ino - 1]
    ensures ChildOf(inodes', e) == ChildOf(inodes, e)
  {
  }

  /** Below the capacity, a linked entry adds its child to what the loader shows. */
  lemma Shown(inodes: seq<Inode>, t: seq<Entry>, s: seq<Entry>, e: Entry, before: seq<Child>, after: seq<Child>)
    requires Inserted(t, s, e) && before == Capped(Children(inodes, t)) && after == Capped(Children(inodes, s))
    requires |before| < MAX_DIR_ENTRIES
    ensures exists k: nat :: Wedged(after, before, ChildOf(inodes, e), k)
  {
    ChildInserted(inodes, t, s, e);
    var k: nat :| Wedged(Children(inodes, s), Children(inodes, t), ChildOf(inodes, e), k);
    assert Wedged(after, before, ChildOf(inodes, e), k);
  }

  /** What the loader shows of a new object: nothing if it is named "." or "..". */
  function NewOnes(ino: u32, shown: seq<byte>, isDir: bool): seq<Child> {
    if shown == DOT || shown == DOTDOT then [] else [Child(shown, isDir, ino, 0)]
  }

  /** An entry of a new object. */
  predicate IsNew(inodes: seq<Inode>, e: Entry) {
    e.ftype == FT_DIR || (e.ftype == FT_REG_FILE && 1 <= e.ino <= |inodes| && inodes[e.ino - 1].size == 0)
  }

  lemma NewChild(inodes: seq<Inode>, e: Entry, shown: seq<byte>)
    requires IsNew(inodes, e) && shown == CString(e.name)
    ensures ChildOf(inodes, e) == NewOnes(e.ino, shown, e.ftype == FT_DIR)
  {
  }

  /** What the loader shows of a directory. */
  ghost function Loaded(w: View, ino: nat): seq<Child>
    requires 1 <= ino <= |w.inodes|
  {
    Capped(Children(w.inodes, Listing(w, ino)))
  }

  /** Below the table's capacity, a second load shows the children of the first with more at some place. */
  ghost predicate ShowsNew(w: View, w': View, dirIno: nat, more: seq<Child>) {
    && 1 <= dirIno <= |w.inodes| == |w'.inodes|
    && (|Loaded(w, dirIno)| < MAX_DIR_ENTRIES ==>
      exists k: nat :: Wedged(Loaded(w', dirIno), Loaded(w, dirIno), more, k))
  }

  lemma MadeShows(w: View, w': View, dirIno: u32, e: Entry, shown: seq<byte>)
    requires Created(w, w', dirIno, e, true) && dirIno != e.ino && Referenced(w, dirIno) && shown == CString(e.name)
    requires IsNew(w'.inodes, e)
    ensures ShowsNew(w, w', dirIno, NewOnes(e.ino, shown, e.ftype == FT_DIR))
  {
    NewChild(w'.inodes, e, shown);
    OldChildren(w, w', dirIno, e);
    if |Loaded(w, dirIno)| < MAX_DIR_ENTRIES {
      Shown(w'.inodes, Listing(w, dirIno), Listing(w', dirIno), e, Loaded(w, dirIno), Loaded(w', dirIno));
    }
  }
}
