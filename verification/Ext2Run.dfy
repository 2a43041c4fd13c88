/** Runs of the driver: what every call keeps, and what a file and a directory hold in the end. */
module Ext2Run {
  import opened Bytes
  import opened Ext2Layout
  import opened Ext2View
  import opened Ext2Alloc
  import opened Ext2File
  import opened Ext2Dir
  import opened Ext2Fs
  import opened Ext2Need
  import opened Ext2Driver
  import opened Ext2Load

  datatype Op =
    | CreateFileOp(dir: u32, name: seq<byte>)
    | CreateDirOp(dir: u32, name: seq<byte>)
    | WriteOp(ino: u32, data: seq<byte>)

  /** What a call did: the number it returned and the inode it typed, or the count it returned. */
  datatype Outcome = Made(ino: u32, child: u32) | Put(rc: int)

  datatype History = History(m: Mount, writable: bool, ops: seq<Op>, outcomes: seq<Outcome>, states: seq<View>)

  ghost predicate Stepped(m: Mount, writable: bool, x: View, op: Op, r: Outcome, y: View) {
    match op
    case CreateFileOp(dir, name) => r.Made? && FileMade(x, y, dir, name, r.ino, r.child)
    case CreateDirOp(dir, name) => r.Made? && DirMade(x, y, dir, name, r.ino, r.child)
    case WriteOp(ino, data) => r.Put? && Wrote(x, y, ino, data, r.rc, writable, FreeBlocks(m, x))
  }

  ghost predicate Sized(h: History) {
    |h.outcomes| == |h.ops| && |h.states| == |h.ops| + 1
  }

  ghost predicate StepAt(h: History, k: nat)
    requires Sized(h) && k < |h.ops|
  {
    FsOk(h.states[k]) && Stepped(h.m, h.writable, h.states[k], h.ops[k], h.outcomes[k], h.states[k + 1])
  }

  /** Each call leads from one state to the next. */
  ghost predicate IsRun(h: History) {
    Sized(h) && forall k {:trigger StepAt(h, k)} | 0 <= k < |h.ops| :: StepAt(h, k)
  }

  ghost function More(h: History, op: Op, r: Outcome, y: View): History {
    h.(ops := h.ops + [op], outcomes := h.outcomes + [r], states := h.states + [y])
  }

  lemma RunMore(h: History, op: Op, r: Outcome, x: View, y: View)
    requires IsRun(h) && x == h.states[|h.ops|] && FsOk(x) && Stepped(h.m, h.writable, x, op, r, y)
    ensures IsRun(More(h, op, r, y))
  {
    var g := More(h, op, r, y);
    forall k {:trigger StepAt(g, k)} | 0 <= k < |g.ops| ensures StepAt(g, k) {
      if k < |h.ops| { assert StepAt(h, k); }
    }
  }

  method Step(dev: Ext2, op: Op) returns (ghost r: Outcome)
    requires dev.Valid() && FsOk(dev.fs) && Clean(dev.fs) && (op.WriteOp? ==> |op.data| < 0x1_0000_0000)
    modifies dev
    ensures dev.Valid() && FsOk(dev.fs) && Clean(dev.fs)
    ensures Stepped(dev.m, dev.writable, old(dev.fs), op, r, dev.fs)
  {
    match op
    case CreateFileOp(dir, name) =>
      var ino; ghost var child;
      ino, child := dev.CreateFile(dir, name);
      CleanKept(old(dev.fs), dev.fs);
      r := Made(ino, child);
    case CreateDirOp(dir, name) =>
      var ino; ghost var child;
      ino, child := dev.CreateDir(dir, name);
      CleanKept(old(dev.fs), dev.fs);
      r := Made(ino, child);
    case WriteOp(ino, data) =>
      var rc := dev.WriteFile(ino, data);
      r := Put(rc);
  }

  /** Any run of creations and writes, whatever calls fail part-way, keeps the invariant: every block reached from the
      inode table is a used data block, reached by exactly one pointer of exactly one inode. */
  method Run(dev: Ext2, ops: seq<Op>) returns (ghost h: History)
    requires dev.Valid() && FsOk(dev.fs) && Clean(dev.fs)
    requires forall k | 0 <= k < |ops| && ops[k].WriteOp? :: |ops[k].data| < 0x1_0000_0000
    modifies dev
    ensures dev.Valid() && FsOk(dev.fs) && Clean(dev.fs)
    ensures IsRun(h) && h.ops == ops && h.states[0] == old(dev.fs) && h.states[|ops|] == dev.fs
    ensures h.m == dev.m && h.writable == dev.writable
  {
    h := History(dev.m, dev.writable, [], [], [dev.fs]);
    for k := 0 to |ops|
      invariant dev.Valid() && FsOk(dev.fs) && Clean(dev.fs)
      invariant IsRun(h) && h.ops == ops[..k] && h.states[0] == old(dev.fs) && h.states[k] == dev.fs
      invariant h.m == dev.m && h.writable == dev.writable
    {
      ghost var x := dev.fs;
      ghost var r := Step(dev, ops[k]);
      RunMore(h, ops[k], r, x, dev.fs);
      h := More(h, ops[k], r, dev.fs);
    }
  }

  // ---- files ----

  /** A typed inode keeps its type; every other inode but the one typed does too. */
  lemma ModeKept(m: Mount, writable: bool, x: View, op: Op, r: Outcome, y: View, i: nat)
    requires Stepped(m, writable, x, op, r, y) && 1 <= i <= |x.inodes|
    requires x.inodes[i - 1].mode != 0 || !r.Made? || i != r.child
    ensures |y.inodes| == |x.inodes| && y.inodes[i - 1].mode == x.inodes[i - 1].mode
  {
    match op
    case CreateFileOp(dir, name) => MadeModes(x, y, dir, Entry(r.ino, name, FT_REG_FILE), r.child, i);
    case CreateDirOp(dir, name) => MadeModes(x, y, dir, Entry(r.ino, name, FT_DIR), r.child, i);
    case WriteOp(ino, data) => WroteModes(x, y, ino, data, r.rc, writable, FreeBlocks(m, x), i);
  }

  lemma MadeModes(x: View, y: View, dir: nat, e: Entry, child: nat, i: nat)
    requires Created(x, y, dir, e, e.ino != 0) && AllBut(x, y, child, if e.ino != 0 then dir else 0)
    requires (e.ino == 0 || e.ino == child) && (child != 0 ==> child <= |x.inodes| && x.inodes[child - 1].mode == 0)
    requires 1 <= i <= |x.inodes| && (x.inodes[i - 1].mode != 0 || i != child)
    ensures |y.inodes| == |x.inodes| && y.inodes[i - 1].mode == x.inodes[i - 1].mode
  {
    if e.ino == 0 || i != dir { assert SameFile(x, y, i); }
  }

  lemma WroteModes(x: View, y: View, ino: nat, data: seq<byte>, rc: int, writable: bool, free: int, i: nat)
    requires Wrote(x, y, ino, data, rc, writable, free) && 1 <= i <= |x.inodes|
    ensures |y.inodes| == |x.inodes| && y.inodes[i - 1].mode == x.inodes[i - 1].mode
  {
    if i != ino { assert SameFile(x, y, i); }
  }

  /** A call that does not write regular file i leaves it as it is. */
  lemma FileKept(m: Mount, writable: bool, x: View, op: Op, r: Outcome, y: View, i: nat)
    requires FsOk(x) && Stepped(m, writable, x, op, r, y) && 1 <= i <= |x.inodes| && IsReg(x.inodes[i - 1])
    requires op.WriteOp? ==> op.ino != i
    ensures |y.inodes| == |x.inodes| && SameFile(x, y, i)
  {
    match op
    case CreateFileOp(dir, name) => MadeKeeps(x, y, dir, Entry(r.ino, name, FT_REG_FILE), i);
    case CreateDirOp(dir, name) => MadeKeeps(x, y, dir, Entry(r.ino, name, FT_DIR), i);
    case WriteOp(_, _) =>
  }

  lemma MadeKeeps(x: View, y: View, dir: nat, e: Entry, i: nat)
    requires FsOk(x) && Created(x, y, dir, e, e.ino != 0) && 1 <= i <= |x.inodes| && IsReg(x.inodes[i - 1])
    ensures |y.inodes| == |x.inodes| && SameFile(x, y, i)
  {
    ModeBits(0);
    assert InodeOk(x, i);
  }

  ghost predicate NotWritten(ops: seq<Op>, i: nat, j: nat, k: nat) {
    forall t | j <= t < k && t < |ops| && ops[t].WriteOp? :: ops[t].ino != i
  }

  lemma FileAt(h: History, i: nat, j: nat)
    requires IsRun(h) && j < |h.ops| && 1 <= i <= |h.states[j].inodes| && IsReg(h.states[j].inodes[i - 1])
    requires h.ops[j].WriteOp? ==> h.ops[j].ino != i
    ensures |h.states[j + 1].inodes| == |h.states[j].inodes| && SameFile(h.states[j], h.states[j + 1], i)
  {
    assert StepAt(h, j);
    FileKept(h.m, h.writable, h.states[j], h.ops[j], h.outcomes[j], h.states[j + 1], i);
  }

  lemma SameFileTrans(x: View, y: View, z: View, i: nat)
    requires 1 <= i <= |x.inodes| == |y.inodes| == |z.inodes| && SameFile(x, y, i) && SameFile(y, z, i)
    ensures SameFile(x, z, i)
  {
  }

  /** A file is as it was as long as no call writes it. */
  lemma {:induction false} FileStays(h: History, i: nat, j: nat, k: nat)
    requires IsRun(h) && j <= k <= |h.ops| && NotWritten(h.ops, i, j, k)
    requires 1 <= i <= |h.states[j].inodes| && IsReg(h.states[j].inodes[i - 1])
    ensures |h.states[k].inodes| == |h.states[j].inodes| && SameFile(h.states[j], h.states[k], i)
    decreases k - j
  {
    if j < k {
      FileAt(h, i, j);
      FileStays(h, i, j + 1, k);
      SameFileTrans(h.states[j], h.states[j + 1], h.states[k], i);
    }
  }

  /** After any run a file holds what its last write put there, if that write succeeded. */
  lemma LastWrite(h: History, j: nat)
    requires IsRun(h) && j < |h.ops| && h.ops[j].WriteOp? && h.outcomes[j] != Put(-1)
    requires NotWritten(h.ops, h.ops[j].ino, j + 1, |h.ops|)
    ensures var w, ino := h.states[|h.ops|], h.ops[j].ino;
      1 <= ino <= |w.inodes| && Content(w, ino) == h.ops[j].data
  {
    assert StepAt(h, j);
    var x, y, i := h.states[j], h.states[j + 1], h.ops[j].ino;
    ModeKept(h.m, h.writable, x, h.ops[j], h.outcomes[j], y, i);
    FileStays(h, i, j + 1, |h.ops|);
  }

  // ---- directories ----

  /** The entry a call adds to directory d. */
  ghost function Adds(op: Op, r: Outcome, d: nat): seq<Entry> {
    if op.WriteOp? || !r.Made? || r.ino == 0 || op.dir != d then []
    else [Entry(r.ino, op.name, if op.CreateFileOp? then FT_REG_FILE else FT_DIR)]
  }

  /** The entries added to directory d by the calls from j up to k. */
  ghost function Added(h: History, d: nat, j: nat, k: nat): seq<Entry>
    requires Sized(h) && j <= k <= |h.ops|
    decreases k - j
  {
    if j == k then [] else Adds(h.ops[j], h.outcomes[j], d) + Added(h, d, j + 1, k)
  }

  /** s has the entries of t and es, in some order. */
  ghost predicate Gains(t: seq<Entry>, s: seq<Entry>, es: seq<Entry>) {
    multiset(s) == multiset(t) + multiset(es)
  }

  lemma GainsOne(t: seq<Entry>, s: seq<Entry>, e: Entry)
    requires Inserted(t, s, e)
    ensures Gains(t, s, [e])
  {
    var i :| 0 <= i <= |t| && s == t[..i] + [e] + t[i..];
    assert t == t[..i] + t[i..];
  }

  lemma GainsNone(t: seq<Entry>)
    ensures Gains(t, t, [])
  {
  }

  lemma GainsTrans(t: seq<Entry>, u: seq<Entry>, s: seq<Entry>, es: seq<Entry>, fs: seq<Entry>)
    requires Gains(t, u, es) && Gains(u, s, fs)
    ensures Gains(t, s, es + fs)
  {
  }

  lemma GainsIn(t: seq<Entry>, s: seq<Entry>, es: seq<Entry>, e: Entry)
    requires Gains(t, s, es) && e in s
    ensures e in t || e in es
  {
    assert e in multiset(s);
  }

  lemma MadeGains(x: View, y: View, dir: nat, e: Entry, d: nat)
    requires Created(x, y, dir, e, e.ino != 0) && 1 <= d <= |x.inodes| && x.inodes[d - 1].mode != 0
    ensures |y.inodes| == |x.inodes|
    ensures Gains(Listing(x, d), Listing(y, d), if e.ino != 0 && dir == d then [e] else [])
  {
    if e.ino != 0 && dir == d {
      GainsOne(Listing(x, d), Listing(y, d), e);
    } else {
      assert SameFile(x, y, d);
      GainsNone(Listing(x, d));
    }
  }

  /** A write leaves what is not a regular file. */
  lemma WroteKeeps(x: View, y: View, ino: nat, data: seq<byte>, rc: int, writable: bool, free: int, d: nat)
    requires Wrote(x, y, ino, data, rc, writable, free) && 1 <= d <= |x.inodes| && !IsReg(x.inodes[d - 1])
    ensures |y.inodes| == |x.inodes| && Listing(y, d) == Listing(x, d)
  {
    if d != ino { assert SameFile(x, y, d); }
  }

  lemma DirStep(m: Mount, writable: bool, x: View, op: Op, r: Outcome, y: View, d: nat)
    requires FsOk(x) && Stepped(m, writable, x, op, r, y) && 1 <= d <= |x.inodes| && IsDir(x.inodes[d - 1])
    ensures |y.inodes| == |x.inodes| && y.inodes[d - 1].mode == x.inodes[d - 1].mode
    ensures Gains(Listing(x, d), Listing(y, d), Adds(op, r, d))
  {
    ModeKept(m, writable, x, op, r, y, d);
    assert InodeOk(x, d);
    EntriesStep(m, writable, x, op, r, y, d);
  }

  lemma EntriesStep(m: Mount, writable: bool, x: View, op: Op, r: Outcome, y: View, d: nat)
    requires Stepped(m, writable, x, op, r, y) && 1 <= d <= |x.inodes| == |y.inodes|
    requires IsDir(x.inodes[d - 1]) && !IsReg(x.inodes[d - 1])
    ensures Gains(Listing(x, d), Listing(y, d), Adds(op, r, d))
  {
    match op
    case CreateFileOp(dir, name) =>
      ModeBits(0);
      MadeGains(x, y, dir, Entry(r.ino, name, FT_REG_FILE), d);
    case CreateDirOp(dir, name) =>
      ModeBits(0);
      MadeGains(x, y, dir, Entry(r.ino, name, FT_DIR), d);
    case WriteOp(ino, data) =>
      WroteKeeps(x, y, ino, data, r.rc, writable, FreeBlocks(m, x), d);
      GainsNone(Listing(x, d));
  }

  lemma DirAt(h: History, d: nat, j: nat)
    requires IsRun(h) && j < |h.ops| && 1 <= d <= |h.states[j].inodes| && IsDir(h.states[j].inodes[d - 1])
    ensures |h.states[j + 1].inodes| == |h.states[j].inodes| && IsDir(h.states[j + 1].inodes[d - 1])
    ensures Gains(Listing(h.states[j], d), Listing(h.states[j + 1], d), Adds(h.ops[j], h.outcomes[j], d))
  {
    assert StepAt(h, j);
    DirStep(h.m, h.writable, h.states[j], h.ops[j], h.outcomes[j], h.states[j + 1], d);
  }

  /** From any point of a run on, a directory keeps its entries and gains those of the creations in it that succeed,
      each as often as it was created, and no other. */
  lemma {:induction false} Listings(h: History, d: nat, j: nat, k: nat)
    requires IsRun(h) && j <= k <= |h.ops| && 1 <= d <= |h.states[j].inodes| && IsDir(h.states[j].inodes[d - 1])
    ensures |h.states[k].inodes| == |h.states[j].inodes| && IsDir(h.states[k].inodes[d - 1])
    ensures Gains(Listing(h.states[j], d), Listing(h.states[k], d), Added(h, d, j, k))
    decreases k - j
  {
    if j < k {
      DirAt(h, d, j);
      Listings(h, d, j + 1, k);
      GainsTrans(Listing(h.states[j], d), Listing(h.states[j + 1], d), Listing(h.states[k], d),
        Adds(h.ops[j], h.outcomes[j], d), Added(h, d, j + 1, k));
    } else {
      GainsNone(Listing(h.states[j], d));
    }
  }

  // ---- what entries name ----

  ghost predicate AllReferenced(w: View) {
    forall d {:trigger Referenced(w, d)} | 1 <= d <= |w.inodes| && IsDir(w.inodes[d - 1]) :: Referenced(w, d)
  }

  /** An entry that named a typed inode still does. */
  lemma NamesKept(m: Mount, writable: bool, x: View, op: Op, r: Outcome, y: View, d: nat, e: Entry)
    requires Stepped(m, writable, x, op, r, y) && Names(x, d, e)
    ensures Names(y, d, e)
  {
    if !IsDot(e) {
      ModeKept(m, writable, x, op, r, y, e.ino);
      SameNames(x, y, d, e);
    }
  }

  lemma SameNames(x: View, y: View, d: nat, e: Entry)
    requires Names(x, d, e) && !IsDot(e) && |y.inodes| == |x.inodes|
    requires y.inodes[e.ino - 1].mode == x.inodes[e.ino - 1].mode
    ensures Names(y, d, e)
  {
  }

  lemma NewNamed(m: Mount, writable: bool, x: View, op: Op, r: Outcome, y: View, d: nat)
    requires Stepped(m, writable, x, op, r, y) && Adds(op, r, d) != []
    ensures Names(y, d, Adds(op, r, d)[0])
  {
    ModeBits(0);
  }

  lemma DotsNamed(w: View, d: nat, self: u32, parent: u32)
    ensures forall e | e in DotEntries(self, parent) :: Names(w, d, e)
  {
  }

  lemma InsertedIn(t: seq<Entry>, s: seq<Entry>, e: Entry, x: Entry)
    requires Inserted(t, s, e) && x in s
    ensures x in t || x == e
  {
  }

  /** The entry is one the directory had, the new one, or a new directory's dot entry. */
  lemma EntryFrom(m: Mount, writable: bool, x: View, op: Op, r: Outcome, y: View, d: nat, e: Entry)
    requires FsOk(x) && Stepped(m, writable, x, op, r, y) && AllReferenced(x)
    requires 1 <= d <= |y.inodes| && IsDir(y.inodes[d - 1]) && e in Listing(y, d)
    ensures Names(y, d, e)
  {
    ModeBits(0);
    if r.Made? && r.child == d {
      NewDirEntry(x, op, r, y, d, e);
    } else {
      ModeKept(m, writable, x, op, r, y, d);
      DirStep(m, writable, x, op, r, y, d);
      assert Referenced(x, d);
      GainsIn(Listing(x, d), Listing(y, d), Adds(op, r, d), e);
      if e in Listing(x, d) {
        NamesKept(m, writable, x, op, r, y, d, e);
      } else {
        NewNamed(m, writable, x, op, r, y, d);
      }
    }
  }

  lemma NewDirEntry(x: View, op: Op, r: Outcome, y: View, d: nat, e: Entry)
    requires r.Made? && r.child == d && 1 <= d <= |y.inodes| && IsDir(y.inodes[d - 1]) && e in Listing(y, d)
    requires op.CreateFileOp? ==> FileMade(x, y, op.dir, op.name, r.ino, r.child)
    requires op.CreateDirOp? ==> DirMade(x, y, op.dir, op.name, r.ino, r.child)
    requires !op.WriteOp?
    ensures Names(y, d, e)
  {
    ModeBits(0);
    DotsNamed(y, d, r.child, op.dir);
    if r.ino != 0 && op.dir == d { InsertedIn(DotEntries(d, d), Listing(y, d), Entry(d, op.name, FT_DIR), e); }
  }

  lemma ReferencedAt(h: History, k: nat)
    requires IsRun(h) && k < |h.ops| && AllReferenced(h.states[k])
    ensures AllReferenced(h.states[k + 1])
  {
    assert StepAt(h, k);
    ReferencedStep(h.m, h.writable, h.states[k], h.ops[k], h.outcomes[k], h.states[k + 1]);
  }

  lemma ReferencedStep(m: Mount, writable: bool, x: View, op: Op, r: Outcome, y: View)
    requires FsOk(x) && Stepped(m, writable, x, op, r, y) && AllReferenced(x)
    ensures AllReferenced(y)
  {
    forall d {:trigger Referenced(y, d)} | 1 <= d <= |y.inodes| && IsDir(y.inodes[d - 1]) ensures Referenced(y, d) {
      forall e | e in Listing(y, d) ensures Names(y, d, e) { EntryFrom(m, writable, x, op, r, y, d, e); }
    }
  }

  /** No run leaves an entry, "." and ".." aside, that names an untyped inode. */
  lemma {:induction false} RunReferenced(h: History, k: nat)
    requires IsRun(h) && k <= |h.ops| && AllReferenced(h.states[0])
    ensures AllReferenced(h.states[k])
  {
    if k > 0 {
      RunReferenced(h, k - 1);
      ReferencedAt(h, k - 1);
    }
  }

  /** Load a directory, create an object in it at any point of a run and load it again: below the table's capacity the
      second load shows the children of the first with the new one at some place, and no other. */
  lemma CreatedShows(h: History, k: nat, shown: seq<byte>)
    requires IsRun(h) && AllReferenced(h.states[0]) && k < |h.ops| && !h.ops[k].WriteOp? && h.outcomes[k].Made?
    requires h.outcomes[k].ino != 0 && h.outcomes[k].ino != h.ops[k].dir && shown == CString(h.ops[k].name)
    ensures var more := NewOnes(h.outcomes[k].ino, shown, h.ops[k].CreateDirOp?);
      ShowsNew(h.states[k], h.states[k + 1], h.ops[k].dir, more)
  {
    RunReferenced(h, k);
    assert StepAt(h, k);
    var x, y, op, r := h.states[k], h.states[k + 1], h.ops[k], h.outcomes[k];
    assert Referenced(x, op.dir);
    MadeShows(x, y, op.dir, Adds(op, r, op.dir)[0], shown);
  }
}
