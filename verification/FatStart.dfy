/** From a formatted disk to a running file system. */
module FatStart {
  import opened Bytes
  import opened FatDisk
  import opened FatChain
  import opened FatFile
  import opened FatVolume
  import opened FatFormat
  import opened FatIo
  import opened FatDir
  import opened FatName
  import opened FatTree
  import opened FatFs
  import opened FatCreate
  import opened FatDriver

  lemma RootEmpty(g: Geo, disk: seq<Sector>, v: View, fat: seq<u32>)
    requires Models(g, disk, v) && g.rootCluster == 2 && g.sectorsPerCluster == 1
    requires SectorOn(g, disk, 2, 0) == ZeroSector()
    requires FreshFat(v.fat) && fat == v.fat[2 := EOC]
    ensures EmptyVolume(v.(fat := fat), 2)
  {
    ShapeOf(g, disk, v);
    var root := v.data[2];
    assert root[0] == SectorOn(g, disk, 2, 0);
    forall k | 0 <= k < |Slots(root)| ensures Slots(root)[k][0] == 0 { assert Slots(root)[k] == SlotAt(root, k); }
  }

  /** A volume just formatted, with the entry of its root cluster marked, and its empty tree. */
  method FormatMark(disk0: seq<Sector>, boot: Sector) returns (fs: Driver)
    requires |disk0| == DISK_MAX_SECTORS
    ensures fresh(fs) && fresh(fs.vol) && fs.Valid() && fs.vol.cached && Started(fs.Now())
    ensures fs.vol.g.sectorsPerCluster == 1 && |fs.vol.v.data| == MaxCluster(fs.vol.g) == 64998
  {
    var disk, g := Format(disk0, boot);
    ghost var v := ViewOf(g, disk);
    RootEmpty(g, disk, v, v.fat[2 := EOC]);
    var vol := new Volume(g, disk, v);
    vol.LoadCache();
    vol.WriteEntry(2, EOC);
    fs := new Driver(vol);
    ShapeOf(g, vol.disk, vol.v);
    OneCluster(vol.v.data, 2);
  }

  /** The empty tree: only the root's cluster is taken, and FSInfo's count is unknown. */
  ghost predicate Started(x: State) {
    Shape(x.v) && x.v.free == UNKNOWN && x.chains == map[ROOT := [2]] && x.nodes.Keys == {ROOT} && RootHolds(x, 0)
  }

  /** Once the entry of its root cluster is marked, a fresh volume mounts as an empty tree, and every run of calls from
      there keeps tree and disk, and the cached table and the table on disk, in agreement. FSInfo's count is unknown,
      exact or one short, and one short exactly when a directory creation forgot its cluster and the disk was never full
      since. */
  method FormatMarkRun(disk0: seq<Sector>, boot: Sector, ops: seq<Op>) returns (fs: Driver, ghost trace: seq<State>)
    requires |disk0| == DISK_MAX_SECTORS
    ensures fs.Valid() && fs.vol.cached && Coherent(fs.vol.g, fs.vol.disk, fs.vol.cache)
    ensures |trace| == |ops| + 1 && IsRun(trace, ops, |ops|, 1) && Started(trace[0]) && trace[|ops|] == fs.Now()
    ensures Shape(fs.vol.v) && 0 <= Short(fs.vol.v) <= 1 && (Short(fs.vol.v) == 1 <==> Missed(trace, ops, |ops|, 1))
  {
    fs := FormatMark(disk0, boot);
    trace := fs.Run(ops);
    CountAlong(trace, ops, |ops|, 1);
  }

  // ---- a run after which FSInfo misses a cluster ----

  /** The root directory is one cluster with its first n slots and table places taken, by names of one letter; no
      other cluster is taken. */
  ghost predicate RootHolds(x: State, n: nat) {
    && Shape(x.v) && ROOT in x.nodes && x.nodes[ROOT].isDir && ROOT in x.chains && x.chains[ROOT] == [2]
    && (forall c | 3 <= c < |x.v.data| :: x.v.fat[c] == 0) && SlotsTaken(x, n)
  }

  ghost predicate SlotsTaken(x: State, n: nat)
    requires Shape(x.v) && ROOT in x.nodes
  {
    && |Dir(x.v.data, [2])| == SLOTS
    && (forall k {:trigger Dir(x.v.data, [2])[k]} | 0 <= k < SLOTS :: Free(Dir(x.v.data, [2])[k]) <==> n <= k)
    && |x.nodes[ROOT].children| == MAX_DIR_ENTRIES
    && (forall k | 0 <= k < MAX_DIR_ENTRIES :: x.nodes[ROOT].children[k] == NULL <==> n <= k)
    && forall z {:trigger IsChild(x.nodes, ROOT, z)} | IsChild(x.nodes, ROOT, z) ::
      |x.nodes[z].name| == 1 && x.nodes[z].name[0] as int < 0x61 + n
  }

  function Letter(n: nat): seq<byte>
    requires n <= SLOTS
  {
    [(0x61 + n) as byte]
  }

  /** The next letter is a new name and has a place in the tree and, below the slots of one cluster, on disk. */
  lemma LetterFits(x: State, n: nat)
    requires RootHolds(x, n) && n <= SLOTS
    ensures Passes(x.nodes, ROOT, Letter(n)) && NoNul(Letter(n)) && (n < SLOTS ==> !NoRoom(x.v, x.chains[ROOT]))
  {
    assert x.nodes[ROOT].children[n] == NULL;
    if n < SLOTS { assert Free(Dir(x.v.data, [2])[n]); }
    forall z | IsChild(x.nodes, ROOT, z) ensures x.nodes[z].name != Letter(n) { }
  }

  /** One more file fills one more slot. */
  lemma OneMore(x: State, y: State, n: nat)
    requires RootHolds(x, n) && n < SLOTS && FileMade(x, y, ROOT, Letter(n)) && Shape(y.v) && x.next > NULL
    ensures RootHolds(y, n + 1) && x.next in y.nodes && x.next in y.chains && y.chains[x.next] == []
    ensures !y.nodes[x.next].isDir
    ensures y.nodes[x.next].parent == ROOT && x.next != ROOT
  {
    LetterFits(x, n);
    var slots, slots', sn := Dir(x.v.data, [2]), Dir(y.v.data, y.chains[ROOT]), y.nodes[x.next].diskName;
    var k: nat :| Inserted(slots, slots', Entry(sn, ATTR_ARCHIVE, 0), k) && (k < |slots| ==> y.chains[ROOT] == [2]);
    assert Free(slots[n]);
    FirstIs(slots, n, k);
    assert Entry(sn, ATTR_ARCHIVE, 0)[0] == NameOf(Entry(sn, ATTR_ARCHIVE, 0))[0] == sn[0];
    TableMore(x, y, n);
    assert y.chains[ROOT] == [2];
  }

  lemma FirstIs(slots: seq<Slot>, n: nat, k: nat)
    requires n < |slots| && (forall j | 0 <= j < |slots| :: Free(slots[j]) <==> n <= j)
    ensures First(slots, Free, k) ==> k == n
    ensures !Misses(slots, Free)
  {
    assert Free(slots[n]);
    if n < k < |slots| { assert slots[..k][n] == slots[n] && !Misses(slots[..k], Free); }
  }

  lemma TableMore(x: State, y: State, n: nat)
    requires RootHolds(x, n) && n < SLOTS && IsAdded(x.nodes, y.nodes, ROOT, x.next, Letter(n), false, 0)
    requires x.next > NULL
    ensures ROOT in y.nodes && y.nodes[ROOT].isDir && |y.nodes[ROOT].children| == MAX_DIR_ENTRIES && x.next != ROOT
    ensures forall k | 0 <= k < MAX_DIR_ENTRIES :: y.nodes[ROOT].children[k] == NULL <==> n + 1 <= k
    ensures forall z {:trigger IsChild(y.nodes, ROOT, z)} | IsChild(y.nodes, ROOT, z) ::
      |y.nodes[z].name| == 1 && y.nodes[z].name[0] as int < 0x61 + n + 1
  {
    var t := x.nodes[ROOT].children;
    var i :| 0 <= i < |t| && FirstNull(t, i)
      && y.nodes == x.nodes[x.next := y.nodes[x.next]][ROOT := x.nodes[ROOT].(children := t[i := x.next])];
    assert t[n] == NULL && i == n;
    forall z {:trigger IsChild(y.nodes, ROOT, z)} | IsChild(y.nodes, ROOT, z)
      ensures |y.nodes[z].name| == 1 && y.nodes[z].name[0] as int < 0x61 + n + 1
    {
      if z != x.next { assert IsChild(x.nodes, ROOT, z); }
    }
  }

  lemma {:induction false} CountAtLeast(fat: seq<u32>, lo: nat, from: nat, hi: nat)
    requires lo <= from <= hi <= |fat| && forall k | from <= k < hi :: fat[k] == 0
    ensures CountZero(fat, lo, hi) >= hi - from
    decreases hi
  {
    if from < hi { CountAtLeast(fat, lo, from, hi - 1); }
  }

  lemma {:induction false} CountOne(fat: seq<u32>, lo: nat, hi: nat) returns (c: nat)
    requires lo <= hi <= |fat| && CountZero(fat, lo, hi) == 1
    ensures lo <= c < hi && fat[c] == 0 && forall k | lo <= k < hi && k != c :: fat[k] != 0
    decreases hi
  {
    if fat[hi - 1] == 0 {
      c := hi - 1;
      forall k | lo <= k < hi - 1 ensures fat[k] != 0 { if fat[k] == 0 { CountPositive(fat, lo, hi - 1, k); } }
    } else {
      c := CountOne(fat, lo, hi - 1);
    }
  }

  /** A file written into all free clusters but one leaves the full root and that one cluster. */
  lemma OneLeft(x: State, y: State, id: int, file: seq<byte>)
    requires RootHolds(x, SLOTS) && id in x.nodes && !x.nodes[id].isDir && x.nodes[id].parent == ROOT && id in x.chains
    requires x.chains[id] == []
    requires Uniform(y.v.data, 1) && 2 <= FreeIn(x.v) <= 65536 && |file| == SECTOR_SIZE * (FreeIn(x.v) - 1)
    requires Written(x, y, id, file, 1) && WriteCounted(x, y, id, file, 1)
    ensures TakesLast(y, ROOT, Letter(SLOTS))
  {
    WholeWritten(x, y, id, file);
    OneFree(x, y, id, file);
    StillFull(x, y, id, file);
    TableSame(x, y, id, file);
  }

  lemma WholeWritten(x: State, y: State, id: int, file: seq<byte>)
    requires Written(x, y, id, file, 1) && WriteCounted(x, y, id, file, 1) && !x.nodes[id].isDir && x.chains[id] == []
    requires |file| <= MAX_FILE_SIZE && 1 <= FreeIn(x.v) && |file| <= SECTOR_SIZE * FreeIn(x.v)
    ensures Rewritten(x, y, id, file, 1) && FreeIn(y.v) + |y.chains[id]| == FreeIn(x.v)
  {
    assert Clipped(file) == file;
    assert Enough(x.v, 1, |file|);
  }

  lemma OneFree(x: State, y: State, id: int, file: seq<byte>)
    requires id in x.nodes && id in x.chains && x.chains[id] == [] && Shape(x.v) && Uniform(y.v.data, 1)
    requires 2 <= FreeIn(x.v) && |file| == SECTOR_SIZE * (FreeIn(x.v) - 1)
    requires Rewritten(x, y, id, file, 1) && Shape(y.v) && FreeIn(y.v) + |y.chains[id]| == FreeIn(x.v)
    ensures exists c | 2 <= c < |y.v.data| :: OnlyFree(y.v, c)
  {
    SectorsLength(y.v.data, y.chains[id], 1);
    assert FreeIn(y.v) == 1;
    var c := CountOne(y.v.fat, 2, |y.v.data|);
    assert OnlyFree(y.v, c);
  }

  lemma StillFull(x: State, y: State, id: int, file: seq<byte>)
    requires RootHolds(x, SLOTS) && id in x.nodes && x.nodes[id].parent == ROOT && Shape(y.v)
    requires Rewritten(x, y, id, file, 1)
    ensures Misses(Dir(y.v.data, [2]), Free)
  {
    var slots, slots', sn, first := Dir(x.v.data, [2]), Dir(y.v.data, [2]), x.nodes[id].diskName, y.nodes[id].first;
    var k: nat :| DirMoved(x.v.data, y.v.data, [2], sn, k, first, |file|);
    forall j | 0 <= j < |slots'| ensures !Free(slots'[j]) {
      assert !Free(slots[j]);
      assert j == k ==> slots'[j][0] == slots'[j][..20][0] == slots[j][..20][0];
    }
  }

  lemma TableSame(x: State, y: State, id: int, file: seq<byte>)
    requires RootHolds(x, SLOTS) && id in x.nodes && !x.nodes[id].isDir && Rewritten(x, y, id, file, 1)
    ensures ROOT in y.nodes && Passes(y.nodes, ROOT, Letter(SLOTS))
  {
    LetterFits(x, SLOTS);
    forall z | IsChild(y.nodes, ROOT, z) ensures y.nodes[z].name != Letter(SLOTS) { assert IsChild(x.nodes, ROOT, z); }
  }

  /** The driver of a small volume with n files in its root. */
  ghost predicate Small(fs: Driver, n: nat)
    reads fs, fs.vol
  {
    && fs.Valid() && RootHolds(fs.Now(), n) && 0 <= Short(fs.vol.v)
    && fs.vol.g.sectorsPerCluster == 1 && |fs.vol.v.data| == MaxCluster(fs.vol.g) == 64998
  }

  /** A file of the root without clusters. */
  ghost predicate EmptyFile(x: State, id: int) {
    id in x.nodes && !x.nodes[id].isDir && x.nodes[id].parent == ROOT && id in x.chains && x.chains[id] == []
  }

  /** One more file in the root. */
  method AddFile(fs: Driver, n: nat) returns (id: int)
    requires Small(fs, n) && n < SLOTS
    modifies fs, fs.vol`disk, fs.vol`cache, fs.vol`v, fs.vol`hint
    ensures Small(fs, n + 1) && EmptyFile(fs.Now(), id)
  {
    ghost var x := fs.Now();
    LetterFits(x, n);
    var err;
    id, err := fs.CreateFile(ROOT, Letter(n));
    assert NodeOk(fs.nodes, fs.chains, id);
    OneMore(x, fs.Now(), n);
    ShapeOf(fs.vol.g, fs.vol.disk, fs.vol.v);
  }

  /** Write a file into all free clusters but one. */
  method FillUp(fs: Driver, id: int)
    requires Small(fs, SLOTS) && EmptyFile(fs.Now(), id)
    modifies fs, fs.vol`disk, fs.vol`cache, fs.vol`v, fs.vol`hint
    ensures fs.Valid() && TakesLast(fs.Now(), ROOT, Letter(SLOTS)) && Shape(fs.vol.v) && 0 <= Short(fs.vol.v)
  {
    ghost var x := fs.Now();
    var file := AllButOne(fs);
    var _ := fs.WriteFile(id, file);
    OneLeft(x, fs.Now(), id, file);
  }

  /** As many bytes as all free clusters but one hold. */
  method AllButOne(fs: Driver) returns (file: seq<byte>)
    requires Small(fs, SLOTS)
    ensures Shape(fs.vol.v) && 2 <= FreeIn(fs.vol.v) <= 65536
    ensures |file| == SECTOR_SIZE * (FreeIn(fs.vol.v) - 1)
  {
    var free := fs.vol.CountFree(MaxCluster(fs.vol.g));
    CountAtLeast(fs.vol.v.fat, 2, 3, |fs.vol.v.data|);
    file := Zeros(SECTOR_SIZE * (free - 1));
  }

  /** Fill the root's only cluster with files, write one of them into all free clusters but one, and make a directory:
      the call fails, nothing in use changes, and FSInfo misses the cluster from then on. */
  method MissOne(disk0: seq<Sector>, boot: Sector) returns (fs: Driver, err: Error)
    requires |disk0| == DISK_MAX_SECTORS
    ensures fs.Valid() && err == Io && Shape(fs.vol.v) && FreeIn(fs.vol.v) == 1 && fs.vol.v.free == 0
  {
    fs := FormatMark(disk0, boot);
    var id := NULL;
    for n := 0 to SLOTS
      invariant fresh(fs) && fresh(fs.vol) && Small(fs, n) && (n > 0 ==> EmptyFile(fs.Now(), id))
    {
      id := AddFile(fs, n);
    }
    FillUp(fs, id);
    id, err := fs.CreateDir(ROOT, Letter(SLOTS));
  }
}
