/** The FAT branches of the file-system calls: creating, writing, reading and
    deleting, on the in-memory tree and the disk together. */
module FatDriver {
  import opened Bytes
  import opened FatDisk
  import opened FatChain
  import opened FatFile
  import opened FatVolume
  import opened FatIo
  import opened FatDir
  import opened FatName
  import opened FatTree
  import opened FatFs
  import opened FatCreate
  import opened FatDelete

  const MAX_FILE_SIZE := 32 * 1024 * 1024

  // ---- what the write steps amount to ----

  /** A laid chain leaves every existing chain as it was. */
  lemma LaidKeeps(w: View, w': View, chains: Chains, cs: seq<int>, x: int)
    requires Space(w, chains) && Laid(w, w', cs) && x in chains
    ensures IsChain(w'.fat, |w.data|, chains[x]) && SameOn(w.data, w'.data, chains[x])
    ensures forall c | c in chains[x] :: c !in cs
  {
    forall c | c in chains[x] ensures 2 <= c < |w.data| && w.fat[c] != 0 { ChainUsed(w.fat, |w.data|, chains[x], c); }
    ChainFrame(w.fat, w'.fat, |w.data|, chains[x]);
  }

  lemma LaidDir(w: View, w': View, chains: Chains, cs: seq<int>, d: int)
    requires Space(w, chains) && Laid(w, w', cs) && d in chains
    ensures Inside(|w.data|, chains[d]) && Dir(w'.data, chains[d]) == Dir(w.data, chains[d])
  {
    LaidKeeps(w, w', chains, cs, d);
    DirFrame(w.data, w'.data, chains[d]);
  }

  /** Ownership after the swap: the new chain laid, the old one freed. */
  lemma SwapSpace(w: View, w1: View, w3: View, chains: Chains, id: int, cs: seq<int>)
    requires Space(w, chains) && id in chains && Laid(w, w1, cs) && Shape(w3) && |w3.data| == |w.data| && Ranged(w3.fat)
    requires Cleared(w1.fat, w3.fat, chains[id])
    ensures Space(w3, chains[id := cs])
  {
    LaidKeeps(w, w1, chains, cs, id);
    forall c | c in cs ensures 0 <= c < |w.fat| && w3.fat[c] == w1.fat[c] { }
    ChainFrame(w1.fat, w3.fat, |w.data|, cs);
    SpaceSet(w, w3, chains, id, cs);
  }

  /** Nothing but an empty root directory. */
  ghost predicate EmptyVolume(v: View, root: u32) {
    && Ranged(v.fat) && 2 <= root < |v.data| <= |v.fat| && v.fat[root] == EOC
    && (forall c | 2 <= c < |v.data| && c != root :: v.fat[c] == 0)
    && forall k | 0 <= k < |Slots(v.data[root])| :: Slots(v.data[root])[k][0] == 0
  }

  lemma EmptySpace(v: View, root: u32, chains: Chains)
    requires Shape(v) && EmptyVolume(v, root) && chains == map[ROOT := [root]]
    ensures Space(v, chains)
  {
    var cs := [root];
    assert After(cs, 0) == EOC && cs[0] in chains[ROOT];
  }

  lemma EmptyContents(v: View, root: u32, nodes: Nodes)
    requires Shape(v) && EmptyVolume(v, root) && nodes.Keys == {ROOT} && nodes[ROOT].isDir && nodes[ROOT].first == root
    requires nodes[ROOT].size == 0
    requires |nodes[ROOT].children| == MAX_DIR_ENTRIES
    requires forall i | 0 <= i < MAX_DIR_ENTRIES :: nodes[ROOT].children[i] == NULL
    ensures var chains := map[ROOT := [root]]; Tree(nodes, chains, ROOT + 1) && ContentsOk(v.data, nodes, chains)
  {
    var cs := [root];
    assert cs[..0] == [] && Sectors(v.data, cs) == v.data[root];
    assert forall id :: !IsChild(nodes, ROOT, id);
    assert TableOk(nodes, ROOT);
  }

  /** A directory's slot k, named sn, points at another chain; no cluster outside the directory changed. */
  ghost predicate EntryMoved(data: seq<Cluster>, data': seq<Cluster>, cs: seq<int>, sn: seq<byte>, k: nat, first: u32,
      size: u32) {
    && |data'| == |data| && Inside(|data|, cs) && (forall c | 0 <= c < |data| && c !in cs :: data'[c] == data[c])
    && k < |Dir(data, cs)| && NameOf(Dir(data, cs)[k]) == sn
    && Dir(data', cs) == Dir(data, cs)[k := Repoint(Dir(data, cs)[k], first, size)]
  }

  /** Repoint the directory entry with a given short name. */
  method UpdateEntry(vol: Volume, dir: u32, sn: seq<byte>, first: u32, size: u32, ghost cs: seq<int>)
    returns (ghost k: nat)
    requires vol.Valid() && IsChain(vol.v.fat, |vol.v.data|, cs) && cs != [] && dir == cs[0]
    requires InUse(Dir(vol.v.data, cs), sn)
    modifies vol`disk, vol`v
    ensures vol.Valid() && vol.v == old(vol.v).(data := vol.v.data)
    ensures EntryMoved(old(vol.v.data), vol.v.data, cs, sn, k, first, size)
  {
    var hit := (e: Slot) => NameOf(e) == sn && e[0] != DELETED;
    ghost var n;
    var found, c, s, i;
    found, c, s, i, n := FindSlot(vol, dir, hit, cs);
    assert found;
    var e := ReadSlot(vol, c, s, i, cs, n);
    k := Place(vol.v.data, cs, n, s, i);
    PatchSlot(vol, c, s, i, Repoint(e, first, size), cs, n);
  }

  /** Some slot that is not deleted has this name. */
  ghost predicate InUse(slots: seq<Slot>, sn: seq<byte>) {
    exists k | 0 <= k < |slots| :: NameOf(slots[k]) == sn && slots[k][0] != DELETED
  }

  /** The swap at the end of a write: repoint the entry, then free the old chain. */
  method Commit(vol: Volume, dir: u32, sn: seq<byte>, first: u32, size: u32, oldFirst: u32, ghost cs: seq<int>,
      ghost was: seq<int>)
    returns (ghost k: nat)
    requires vol.Valid() && IsChain(vol.v.fat, |vol.v.data|, cs) && cs != [] && dir == cs[0]
    requires InUse(Dir(vol.v.data, cs), sn)
    requires Ranged(vol.v.fat) && IsChain(vol.v.fat, |vol.v.data|, was) && oldFirst == (if was == [] then 0 else was[0])
    modifies vol`disk, vol`cache, vol`v, vol`hint
    ensures vol.Valid() && Shape(vol.v) && Ranged(vol.v.fat) && Cleared(old(vol.v.fat), vol.v.fat, was)
    ensures EntryMoved(old(vol.v.data), vol.v.data, cs, sn, k, first, size)
    ensures GivenBack(old(vol.v), vol.v) && FreeIn(vol.v) == FreeIn(old(vol.v)) + |was|
  {
    ShapeOf(vol.g, vol.disk, vol.v);
    k := UpdateEntry(vol, dir, sn, first, size, cs);
    ghost var w1 := vol.v;
    if oldFirst != 0 { vol.FreeChain(oldFirst, was); } else { assert was == []; }
    assert vol.v.data == w1.data && FreeIn(w1) == FreeIn(old(vol.v));
  }

  predicate BadName(name: seq<byte>) {
    name == [] || |name| >= 256
  }

  ghost predicate HasName(nodes: Nodes, d: int, name: seq<byte>) {
    exists x :: IsChild(nodes, d, x) && nodes[x].name == name
  }

  /** The checks a create passes before it writes anything. */
  ghost predicate Passes(nodes: Nodes, d: int, name: seq<byte>)
    requires d in nodes
  {
    !BadName(name) && !HasName(nodes, d, name) && NULL in nodes[d].children
  }

  datatype Error = Ok | Exists | Full | Invalid | Io

  lemma TableSolid(w: View, nodes: Nodes, chains: Chains, next: int, d: int)
    requires FsOk(w, nodes, chains, next) && d in nodes && nodes[d].isDir
    ensures TableOk(nodes, d) && Solid(nodes, d)
    ensures forall x | IsChild(nodes, d, x) :: x != NULL && x in nodes[d].children
  {
    assert NodeOk(nodes, chains, d);
    assert EntityOk(w.data, nodes, chains[d], d);
    forall x | IsChild(nodes, d, x) ensures x != NULL { assert NodeOk(nodes, chains, x); }
  }

  /** A directory changed in one slot only: the one named sn points at another chain. */
  ghost predicate DirMoved(data: seq<Cluster>, data': seq<Cluster>, cs: seq<int>, sn: seq<byte>, k: nat, first: u32,
      size: u32) {
    && Inside(|data|, cs) && |data'| == |data| && k < |Dir(data, cs)| && NameOf(Dir(data, cs)[k]) == sn
    && Dir(data', cs) == Dir(data, cs)[k := Repoint(Dir(data, cs)[k], first, size)]
  }

  // ---- what each call does to the whole state ----

  datatype State = State(v: View, nodes: Nodes, next: int, chains: Chains)

  /** A node's clusters are the same and hold the same. */
  ghost predicate Untouched(x: State, y: State, id: int) {
    id in x.chains && id in y.chains && y.chains[id] == x.chains[id] && SameOn(x.v.data, y.v.data, x.chains[id])
  }

  /** A new child of d with its entry in d's directory; no other node changed. */
  ghost predicate ChildMade(x: State, y: State, d: int, name: seq<byte>, isDir: bool, first: u32) {
    && d in x.chains && d in y.chains && y.next == x.next + 1
    && IsAdded(x.nodes, y.nodes, d, x.next, name, isDir, first)
    && Entered(x.v.data, y.v.data, x.chains[d], y.chains[d], y.nodes[x.next].diskName, AttrOf(isDir), first)
    && forall id {:trigger Untouched(x, y, id)} | id in x.nodes && id != d :: Untouched(x, y, id)
  }

  /** fs_create_file, FAT backend. */
  ghost predicate FileMade(x: State, y: State, d: int, name: seq<byte>) {
    && d in x.nodes && d in x.chains
    && if Passes(x.nodes, d, name) && !NoRoom(x.v, x.chains[d])
       then ChildMade(x, y, d, name, false, 0) && Grown(x.v, y.v, x.chains[d], y.chains[d]) && x.next in y.chains
         && y.chains[x.next] == []
       else y == x
  }

  /** The call would take the last free cluster for a directory whose parent is full. */
  ghost predicate TakesLast(x: State, d: int, name: seq<byte>) {
    d in x.nodes && d in x.chains && Passes(x.nodes, d, name) && RoomForOne(x.v, x.chains[d])
  }

  /** Only the tree's and the table's view of a call that failed: nothing in use changed. */
  ghost predicate OnlyFreeChanged(x: State, y: State) {
    y == x.(v := y.v) && y.v.fat == x.v.fat && SameUsed(x.v, y.v)
  }

  /** fs_create_dir, FAT backend. */
  ghost predicate DirMade(x: State, y: State, d: int, name: seq<byte>) {
    && d in x.nodes && d in x.chains && Shape(x.v)
    && if Passes(x.nodes, d, name) && !NoneFree(x.v) && !RoomForOne(x.v, x.chains[d])
       then x.next in y.nodes && ChildMade(x, y, d, name, true, y.nodes[x.next].first)
         && DotsIn(y, x.next, x.nodes[d].first)
       else if TakesLast(x, d, name) then OnlyFreeChanged(x, y) else y == x
  }

  /** A directory holds "." and ".." and nothing else. */
  ghost predicate DotsIn(y: State, id: int, parent: u32) {
    id in y.nodes && id in y.chains && Inside(|y.v.data|, y.chains[id])
      && DotsFor(Dir(y.v.data, y.chains[id]), y.nodes[id].first, parent)
  }

  function Clipped(bytes: seq<byte>): seq<byte> {
    if |bytes| > MAX_FILE_SIZE then bytes[..MAX_FILE_SIZE] else bytes
  }

  /** fs_write_file, FAT backend. */
  ghost predicate Written(x: State, y: State, id: int, bytes: seq<byte>, spc: nat) {
    && id in x.nodes && id in x.chains && Shape(x.v)
    && if !x.nodes[id].isDir && Enough(x.v, spc, |Clipped(bytes)|)
       then Rewritten(x, y, id, Clipped(bytes), spc)
       else OnlyFreeChanged(x, y) && (x.nodes[id].isDir ==> y == x)
  }

  /** FSInfo's count after a write: the old chain is freed once the new one is laid; a write that runs out has taken
      every free cluster by then. */
  ghost predicate WriteCounted(x: State, y: State, id: int, bytes: seq<byte>, spc: nat) {
    && id in x.nodes && id in x.chains && Shape(x.v) && Shape(y.v)
    && if x.nodes[id].isDir then y == x
       else if !Enough(x.v, spc, |Clipped(bytes)|) then ShortKept(x.v, y.v, 0)
       else
         && id in y.chains && |x.chains[id]| <= FreeIn(y.v)
         && FreeIn(y.v) + |y.chains[id]| == FreeIn(x.v) + |x.chains[id]|
         && ShortKept(x.v, y.v, FreeIn(y.v) - |x.chains[id]|)
  }

  /** The file holds the bytes in as few clusters as they take, its entry says so, and no other node changed. */
  ghost predicate Rewritten(x: State, y: State, id: int, file: seq<byte>, spc: nat)
    requires id in x.nodes
  {
    && id in y.nodes && id in y.chains && y.next == x.next && y.chains == x.chains[id := y.chains[id]]
    && |file| <= MAX_FILE_SIZE && y.nodes == x.nodes[id := x.nodes[id].(first := y.nodes[id].first, size := |file|)]
    && FileOk(y.v.data, |file|, y.chains[id]) && Content(Sectors(y.v.data, y.chains[id]), |file|) == file
    && Tight(|y.chains[id]|, spc, |file|)
    && Moved(x, y, x.nodes[id].parent, x.nodes[id].diskName, y.nodes[id].first, |file|)
    && forall z {:trigger Untouched(x, y, z)} | z in x.nodes && z != id && z != x.nodes[id].parent :: Untouched(x, y, z)
  }

  ghost predicate Moved(x: State, y: State, d: int, sn: seq<byte>, first: u32, size: u32) {
    d in x.chains && exists k: nat :: DirMoved(x.v.data, y.v.data, x.chains[d], sn, k, first, size)
  }

  /** fs_delete_entry, FAT backend. */
  ghost predicate Unlinked(x: State, y: State, d: int, name: seq<byte>) {
    if HasName(x.nodes, d, name) then exists i: nat, R :: Gone(x, y, d, name, i, R) else y == x
  }

  ghost predicate Gone(x: State, y: State, d: int, name: seq<byte>, i: nat, R: set<int>) {
    && Deleted(x.nodes, y.nodes, d, name, i, R) && y.chains == x.chains - R && y.next == x.next
    && forall z {:trigger Untouched(x, y, z)} | z in y.nodes && z != d :: Untouched(x, y, z)
  }

  class Driver {
    const vol: Volume
    var nodes: Nodes
    var next: int
    ghost var chains: Chains

    ghost predicate Valid()
      reads this, vol
    {
      vol.Valid() && FsOk(vol.v, nodes, chains, next)
    }

    ghost function Now(): State
      reads this, vol
    {
      State(vol.v, nodes, next, chains)
    }

    /** The root of an empty volume. */
    constructor (vol: Volume)
      requires vol.Valid() && EmptyVolume(vol.v, vol.g.rootCluster)
      ensures Valid() && this.vol == vol && nodes.Keys == {ROOT} && nodes[ROOT].first == vol.g.rootCluster
      ensures chains == map[ROOT := [vol.g.rootCluster]] && nodes[ROOT].isDir
      ensures |nodes[ROOT].children| == MAX_DIR_ENTRIES
      ensures forall i | 0 <= i < MAX_DIR_ENTRIES :: nodes[ROOT].children[i] == NULL
    {
      this.vol := vol;
      var table := seq(MAX_DIR_ENTRIES, _ => NULL);
      nodes := map[ROOT := Node([0x2F], true, 0, vol.g.rootCluster, Zeros(NAME_LEN), NULL, table)];
      next := ROOT + 1;
      chains := map[ROOT := [vol.g.rootCluster]];
      new;
      ShapeOf(vol.g, vol.disk, vol.v);
      EmptySpace(vol.v, vol.g.rootCluster, chains);
      EmptyContents(vol.v, vol.g.rootCluster, nodes);
    }

    /** The bytes of a file. */
    ghost function FileData(id: int): seq<byte>
      requires id in nodes && id in chains && FileOk(vol.v.data, nodes[id].size, chains[id])
      reads this, vol
    {
      Content(Sectors(vol.v.data, chains[id]), nodes[id].size)
    }

    // fs_read_file, FAT backend
    method ReadFile(id: int, size: nat) returns (r: int, buf: seq<byte>)
      requires Valid() && id in nodes
      ensures nodes[id].isDir ==> r == -1
      ensures !nodes[id].isDir ==> r == |buf| == (if size > nodes[id].size then nodes[id].size else size)
      ensures !nodes[id].isDir ==> id in chains && FileOk(vol.v.data, nodes[id].size, chains[id])
      ensures !nodes[id].isDir ==> buf == FileData(id)[..r]
    {
      buf := [];
      if nodes[id].isDir { return -1, []; }
      assert NodeOk(nodes, chains, id);
      assert EntityOk(vol.v.data, nodes, chains[id], id);
      assert IsChain(vol.v.fat, |vol.v.data|, chains[id]);
      var n := size;
      if n > nodes[id].size { n := nodes[id].size; }
      if nodes[id].first == 0 { return 0, []; }
      ContentPrefix(Sectors(vol.v.data, chains[id]), n, nodes[id].size);
      buf := ReadChain(vol, nodes[id].first, n, chains[id]);
      r := n;
    }

    /** The checks both create calls make before touching the disk. */
    method CheckNew(d: int, name: seq<byte>) returns (err: Error)
      requires Valid() && d in nodes && nodes[d].isDir
      ensures (err == Invalid <==> BadName(name)) && (err == Exists <==> !BadName(name) && HasName(nodes, d, name))
      ensures err == Full <==> !BadName(name) && !HasName(nodes, d, name) && NULL !in nodes[d].children
      ensures err == Ok <==> !BadName(name) && !HasName(nodes, d, name) && NULL in nodes[d].children
      ensures err != Io
    {
      if name == [] || |name| >= 256 { return Invalid; }
      var t := nodes[d].children;
      ghost var w := vol.v;
      TableSolid(w, nodes, chains, next, d);
      var i := FindNamed(nodes, t, name);
      if i < |t| {
        assert IsChild(nodes, d, t[i]);
        return Exists;
      }
      i := FindNull(t);
      err := if i == |t| then Full else Ok;
    }

    // fs_create_file, FAT backend
    method CreateFile(d: int, name: seq<byte>) returns (id: int, err: Error)
      requires Valid() && d in nodes && nodes[d].isDir && NoNul(name)
      modifies this, vol`disk, vol`cache, vol`v, vol`hint
      ensures Valid() && FileMade(old(Now()), Now(), d, name) && id == if err == Ok then old(next) else NULL
      ensures err == Invalid <==> BadName(name)
      ensures err == Exists <==> !BadName(name) && HasName(old(nodes), d, name)
      ensures err == Full <==> !BadName(name) && !HasName(old(nodes), d, name) && NULL !in old(nodes)[d].children
      ensures d in old(chains) && (err == Io <==> Passes(old(nodes), d, name) && NoRoom(old(vol.v), old(chains)[d]))
      ensures Spent(old(vol.v), vol.v)
    {
      id := NULL;
      err := CheckNew(d, name);
      if err == Ok {
        var ok := AddChild(d, name);
        id, err := if ok then next - 1 else NULL, if ok then Ok else Io;
      }
    }

    /** Hang an empty file in a directory whose checks passed. */
    method AddChild(d: int, name: seq<byte>) returns (ok: bool)
      requires Valid() && d in nodes && nodes[d].isDir && NoNul(name) && Passes(nodes, d, name)
      modifies this, vol`disk, vol`cache, vol`v, vol`hint
      ensures Valid() && FileMade(old(Now()), Now(), d, name) && (ok ==> next == old(next) + 1)
      ensures d in old(chains) && (ok <==> !NoRoom(old(vol.v), old(chains)[d])) && Spent(old(vol.v), vol.v)
    {
      ghost var w, x, cs' := vol.v, Now(), [];
      PreparedFile(w, nodes, chains, next);
      var nodes';
      ok, nodes', cs' := Hang(vol, nodes, next, d, name, false, 0, w, chains, []);
      if ok {
        nodes, chains, next := nodes', chains[next := []][d := cs'], next + 1;
        ChildIs(x, Now(), d, name, false, 0, [], cs');
      }
    }

    // fs_create_dir, FAT backend
    method CreateDir(d: int, name: seq<byte>) returns (id: int, err: Error)
      requires Valid() && d in nodes && nodes[d].isDir && NoNul(name)
      modifies this, vol`disk, vol`cache, vol`v, vol`hint
      ensures Valid() && DirMade(old(Now()), Now(), d, name) && id == if err == Ok then old(next) else NULL
      ensures err == Invalid <==> BadName(name)
      ensures err == Exists <==> !BadName(name) && HasName(old(nodes), d, name)
      ensures Shape(old(vol.v)) && Shape(vol.v)
      ensures err == Full <==>
        !BadName(name) && !HasName(old(nodes), d, name) && (NULL !in old(nodes)[d].children || NoneFree(old(vol.v)))
      ensures err == Io <==> TakesLast(old(Now()), d, name)
      ensures err != Io ==> Spent(old(vol.v), vol.v)
      ensures err == Io && 0 <= Short(old(vol.v)) ==> Short(vol.v) == 1 && vol.v.free == 0
    {
      id := NULL;
      err := CheckNew(d, name);
      if err != Ok { return; }
      var nodes', next';
      ghost var chains';
      err, nodes', next', chains' := NewDir(vol, nodes, next, d, name, chains);
      if err == Ok { id := next; }
      nodes, chains, next := nodes', chains', next';
    }

    // fs_write_file, FAT backend
    method WriteFile(id: int, bytes: seq<byte>) returns (r: int)
      requires Valid() && id in nodes
      modifies this, vol`disk, vol`cache, vol`v, vol`hint
      ensures Valid() && Written(old(Now()), Now(), id, bytes, vol.g.sectorsPerCluster)
      ensures r ==
        if !old(nodes)[id].isDir && Enough(old(vol.v), vol.g.sectorsPerCluster, |Clipped(bytes)|) then |Clipped(bytes)|
        else -1
      ensures WriteCounted(old(Now()), Now(), id, bytes, vol.g.sectorsPerCluster)
    {
      ShapeOf(vol.g, vol.disk, vol.v);
      if nodes[id].isDir { return -1; }
      var ok, nodes';
      ghost var chains';
      ok, nodes', chains' := Save(vol, nodes, next, id, bytes, chains);
      nodes, chains := nodes', chains';
      r := if ok then |Clipped(bytes)| else -1;
    }

    // fs_delete_entry, FAT backend
    method Delete(d: int, name: seq<byte>) returns (r: int)
      requires Valid() && d in nodes && nodes[d].isDir
      modifies this, vol`disk, vol`cache, vol`v, vol`hint
      ensures Valid() && Unlinked(old(Now()), Now(), d, name)
      ensures r == if HasName(old(nodes), d, name) then 0 else -1
      ensures r == -1 ==> unchanged(this) && unchanged(vol)
      ensures GivenBack(old(vol.v), vol.v)
    {
      ghost var x := Now();
      ShapeOf(vol.g, vol.disk, vol.v);
      TableSolid(vol.v, nodes, chains, next, d);
      var t := nodes[d].children;
      var i := FindNamed(nodes, t, name);
      if i == |t| { return -1; }
      assert IsChild(nodes, d, t[i]) && nodes[t[i]].name == name;
      ghost var R;
      var nodes';
      nodes', R := Remove(vol, nodes, next, d, i, chains);
      nodes, chains := nodes', chains - R;
      assert Deleted(x.nodes, nodes, d, name, i, R);
      RestKept(x, Now(), d, name, i, R);
      r := 0;
    }

    method StepFile(d: int, name: seq<byte>)
      requires Valid()
      modifies this, vol`disk, vol`cache, vol`v, vol`hint
      ensures Valid() && Stepped(old(Now()), Now(), MakeFile(d, name), vol.g.sectorsPerCluster)
    {
      ShapeOf(vol.g, vol.disk, vol.v);
      if d in nodes && nodes[d].isDir && NoZero(name) { var _, _ := CreateFile(d, name); }
    }

    method StepDir(d: int, name: seq<byte>)
      requires Valid()
      modifies this, vol`disk, vol`cache, vol`v, vol`hint
      ensures Valid() && Stepped(old(Now()), Now(), MakeDirectory(d, name), vol.g.sectorsPerCluster)
    {
      ShapeOf(vol.g, vol.disk, vol.v);
      if d in nodes && nodes[d].isDir && NoZero(name) { var _, _ := CreateDir(d, name); }
    }

    method StepWrite(id: int, bytes: seq<byte>)
      requires Valid()
      modifies this, vol`disk, vol`cache, vol`v, vol`hint
      ensures Valid() && Stepped(old(Now()), Now(), Write(id, bytes), vol.g.sectorsPerCluster)
    {
      ShapeOf(vol.g, vol.disk, vol.v);
      if id in nodes {
        ghost var x := Now();
        var _ := WriteFile(id, bytes);
        WriteStepped(x, Now(), id, bytes, vol.g.sectorsPerCluster);
      }
    }

    method StepUnlink(d: int, name: seq<byte>)
      requires Valid()
      modifies this, vol`disk, vol`cache, vol`v, vol`hint
      ensures Valid() && Stepped(old(Now()), Now(), Unlink(d, name), vol.g.sectorsPerCluster)
    {
      ShapeOf(vol.g, vol.disk, vol.v);
      if d in nodes && nodes[d].isDir { var _ := Delete(d, name); }
    }

    /** One call, if its arguments name a node of the right kind. */
    method Step(op: Op)
      requires Valid()
      modifies this, vol`disk, vol`cache, vol`v, vol`hint
      ensures Valid() && Stepped(old(Now()), Now(), op, vol.g.sectorsPerCluster)
    {
      match op
      case MakeFile(d, name) => StepFile(d, name);
      case MakeDirectory(d, name) => StepDir(d, name);
      case Write(id, bytes) => StepWrite(id, bytes);
      case Unlink(d, name) => StepUnlink(d, name);
    }

    /** Any run of calls, failed ones included, keeps tree and disk in agreement and goes through the states its calls
        lead to. */
    method Run(ops: seq<Op>) returns (ghost trace: seq<State>)
      requires Valid()
      modifies this, vol`disk, vol`cache, vol`v, vol`hint
      ensures Valid() && |trace| == |ops| + 1 && IsRun(trace, ops, |ops|, vol.g.sectorsPerCluster)
      ensures trace[0] == old(Now()) && trace[|ops|] == Now()
    {
      trace := [Now()];
      for k := 0 to |ops|
        invariant Valid() && |trace| == k + 1 && IsRun(trace, ops, k, vol.g.sectorsPerCluster)
        invariant trace[0] == old(Now()) && trace[k] == Now()
      {
        Step(ops[k]);
        RunMore(trace, ops, k, vol.g.sectorsPerCluster, Now());
        trace := trace + [Now()];
      }
    }
  }

  // ---- runs ----

  /** The arguments of a call name a node of the right kind. */
  ghost predicate Applies(x: State, op: Op) {
    match op
    case MakeFile(d, name) => d in x.nodes && x.nodes[d].isDir && NoNul(name)
    case MakeDirectory(d, name) => d in x.nodes && x.nodes[d].isDir && NoNul(name)
    case Write(id, _) => id in x.nodes
    case Unlink(d, _) => d in x.nodes && x.nodes[d].isDir
  }

  /** One call takes x to y. */
  ghost predicate Stepped(x: State, y: State, op: Op, spc: nat) {
    && Shape(x.v) && Shape(y.v)
    && if !Applies(x, op) then y == x else CountStep(x, y, op, spc) && match op
      case MakeFile(d, name) => FileMade(x, y, d, name)
      case MakeDirectory(d, name) => DirMade(x, y, d, name)
      case Write(id, bytes) => Written(x, y, id, bytes, spc)
      case Unlink(d, name) => Unlinked(x, y, d, name)
  }

  /** The fewest clusters that were free at any moment of a call. A rewrite frees the old chain last; one that runs out
      has taken every free cluster by then. */
  ghost function Fewest(x: State, y: State, op: Op, spc: nat): int
    requires Shape(x.v) && Shape(y.v) && Applies(x, op)
  {
    match op
    case MakeFile(_, _) => FreeIn(y.v)
    case MakeDirectory(d, name) => if TakesLast(x, d, name) then 0 else FreeIn(y.v)
    case Write(id, bytes) =>
      if x.nodes[id].isDir || id !in x.chains then FreeIn(x.v)
      else if Enough(x.v, spc, |Clipped(bytes)|) then FreeIn(y.v) - |x.chains[id]| else 0
    case Unlink(_, _) => FreeIn(x.v)
  }

  /** The call makes FSInfo miss a cluster. */
  ghost predicate Forgets(x: State, op: Op) {
    op.MakeDirectory? && Applies(x, op) && TakesLast(x, op.d, op.name)
  }

  /** How many clusters FSInfo's count misses after a call. */
  ghost predicate CountStep(x: State, y: State, op: Op, spc: nat)
    requires Shape(x.v) && Shape(y.v) && Applies(x, op)
  {
    && 0 <= Fewest(x, y, op, spc)
    && if Forgets(x, op) then 0 <= Short(x.v) ==> Short(y.v) == 1 else ShortKept(x.v, y.v, Fewest(x, y, op, spc))
  }

  /** The first n calls lead through the first states of the trace. */
  ghost predicate IsRun(trace: seq<State>, ops: seq<Op>, n: nat, spc: nat) {
    n <= |ops| && n < |trace| && forall k {:trigger StepAt(trace, ops, k, spc)} | 0 <= k < n ::
      StepAt(trace, ops, k, spc)
  }

  ghost predicate StepAt(trace: seq<State>, ops: seq<Op>, k: nat, spc: nat) {
    k < |ops| && k + 1 < |trace| && Stepped(trace[k], trace[k + 1], ops[k], spc)
  }

  lemma RunMore(trace: seq<State>, ops: seq<Op>, n: nat, spc: nat, y: State)
    requires IsRun(trace, ops, n, spc) && |trace| == n + 1 && n < |ops| && Stepped(trace[n], y, ops[n], spc)
    ensures IsRun(trace + [y], ops, n + 1, spc)
  {
    var t := trace + [y];
    forall k: nat {:trigger StepAt(t, ops, k, spc)} | k < n + 1 ensures StepAt(t, ops, k, spc) {
      if k < n { assert StepAt(trace, ops, k, spc); }
    }
  }

  /** Some cluster was free all through call k. */
  ghost predicate NeverFull(trace: seq<State>, ops: seq<Op>, k: nat, spc: nat) {
    && k < |ops| && k + 1 < |trace| && Shape(trace[k].v) && Shape(trace[k + 1].v)
    && (Applies(trace[k], ops[k]) ==> Fewest(trace[k], trace[k + 1], ops[k], spc) > 0)
  }

  /** Call j - 1 made FSInfo miss a cluster, and since then the disk was never full. */
  ghost predicate MissedSince(trace: seq<State>, ops: seq<Op>, n: nat, spc: nat, j: nat)
    requires n <= |ops| && n < |trace|
  {
    && 0 < j <= n && Forgets(trace[j - 1], ops[j - 1])
    && forall k {:trigger NeverFull(trace, ops, k, spc)} | j <= k < n :: NeverFull(trace, ops, k, spc)
  }

  ghost predicate Missed(trace: seq<State>, ops: seq<Op>, n: nat, spc: nat)
    requires n <= |ops| && n < |trace|
  {
    exists j: nat :: MissedSince(trace, ops, n, spc, j)
  }

  /** Over every run from a state whose FSInfo count is unknown or exact, the count is unknown, exact or one short; it
      is one short exactly when a directory creation forgot its cluster and the disk has not been full since. */
  lemma {:induction false} CountAlong(trace: seq<State>, ops: seq<Op>, n: nat, spc: nat)
    requires IsRun(trace, ops, n, spc) && Shape(trace[0].v) && Short(trace[0].v) == 0
    ensures Shape(trace[n].v) && 0 <= Short(trace[n].v) <= 1
    ensures Short(trace[n].v) == 1 <==> Missed(trace, ops, n, spc)
  {
    if n > 0 {
      CountAlong(trace, ops, n - 1, spc);
      assert StepAt(trace, ops, n - 1, spc);
      CountOnce(trace, ops, n - 1, spc);
      MissedStep(trace, ops, n, spc);
    }
  }

  lemma CountOnce(trace: seq<State>, ops: seq<Op>, k: nat, spc: nat)
    requires StepAt(trace, ops, k, spc) && 0 <= Short(trace[k].v) <= 1
    ensures 0 <= Short(trace[k + 1].v) <= 1
    ensures Short(trace[k + 1].v) == 1 <==>
      Forgets(trace[k], ops[k]) || (Short(trace[k].v) == 1 && NeverFull(trace, ops, k, spc))
  {
  }

  /** Whether a cluster is missed after a call, from whether one was before. */
  lemma MissedStep(trace: seq<State>, ops: seq<Op>, n: nat, spc: nat)
    requires 0 < n <= |ops| && n < |trace|
    ensures Missed(trace, ops, n, spc) <==>
      Forgets(trace[n - 1], ops[n - 1]) || (Missed(trace, ops, n - 1, spc) && NeverFull(trace, ops, n - 1, spc))
  {
    if Forgets(trace[n - 1], ops[n - 1]) { assert MissedSince(trace, ops, n, spc, n); }
    forall j: nat | j < n
      ensures MissedSince(trace, ops, n, spc, j) <==>
        MissedSince(trace, ops, n - 1, spc, j) && NeverFull(trace, ops, n - 1, spc)
    { }
    if Missed(trace, ops, n, spc) && !Forgets(trace[n - 1], ops[n - 1]) {
      var j: nat :| MissedSince(trace, ops, n, spc, j);
      assert j != n;
    }
    if Missed(trace, ops, n - 1, spc) && NeverFull(trace, ops, n - 1, spc) {
      var j: nat :| MissedSince(trace, ops, n - 1, spc, j);
      assert MissedSince(trace, ops, n, spc, j);
    }
  }

  // ---- the state relations hold ----

  lemma WriteStepped(x: State, y: State, id: int, bytes: seq<byte>, spc: nat)
    requires Written(x, y, id, bytes, spc) && WriteCounted(x, y, id, bytes, spc)
    ensures Stepped(x, y, Write(id, bytes), spc)
  {
  }

  lemma ChildIs(x: State, y: State, d: int, name: seq<byte>, isDir: bool, first: u32, cs: seq<int>, cs': seq<int>)
    requires x.chains.Keys == x.nodes.Keys && x.next !in x.chains && d in x.chains && y.next == x.next + 1
    requires y.chains == x.chains[x.next := cs][d := cs']
    requires IsAdded(x.nodes, y.nodes, d, x.next, name, isDir, first)
    requires Entered(x.v.data, y.v.data, x.chains[d], cs', y.nodes[x.next].diskName, AttrOf(isDir), first)
    requires forall z {:trigger SameOn(x.v.data, y.v.data, x.chains[z])} | z in x.nodes && z != d ::
      SameOn(x.v.data, y.v.data, x.chains[z])
    ensures ChildMade(x, y, d, name, isDir, first)
  {
    forall id {:trigger Untouched(x, y, id)} | id in x.nodes && id != d ensures Untouched(x, y, id) {
      assert SameOn(x.v.data, y.v.data, x.chains[id]);
    }
  }

  lemma RewrittenIs(x: State, y: State, id: int, file: seq<byte>, spc: nat, k: nat)
    requires x.chains.Keys == x.nodes.Keys && id in x.nodes && id in y.chains && y.next == x.next
    requires y.chains == x.chains[id := y.chains[id]] && y.chains[id] != []
    requires |file| <= MAX_FILE_SIZE && 0 <= y.chains[id][0] < 0x1_0000_0000
    requires y.nodes == x.nodes[id := x.nodes[id].(first := y.chains[id][0], size := |file|)]
    requires FileOk(y.v.data, |file|, y.chains[id]) && Content(Sectors(y.v.data, y.chains[id]), |file|) == file
    requires Tight(|y.chains[id]|, spc, |file|)
    requires x.nodes[id].parent in x.chains
    requires DirMoved(x.v.data, y.v.data, x.chains[x.nodes[id].parent], x.nodes[id].diskName, k, y.chains[id][0],
      |file|)
    requires forall z {:trigger SameOn(x.v.data, y.v.data, x.chains[z])} | z in x.nodes && z != id
      && z != x.nodes[id].parent :: SameOn(x.v.data, y.v.data, x.chains[z])
    ensures Rewritten(x, y, id, file, spc)
  {
    assert Moved(x, y, x.nodes[id].parent, x.nodes[id].diskName, y.nodes[id].first, |file|);
    forall z {:trigger Untouched(x, y, z)} | z in x.nodes && z != id && z != x.nodes[id].parent
      ensures Untouched(x, y, z)
    {
      assert SameOn(x.v.data, y.v.data, x.chains[z]);
    }
  }

  lemma RestKept(x: State, y: State, d: int, name: seq<byte>, i: nat, R: set<int>)
    requires Deleted(x.nodes, y.nodes, d, name, i, R) && y.chains == x.chains - R && y.next == x.next
    requires x.chains.Keys == x.nodes.Keys && y.chains.Keys == y.nodes.Keys
    requires forall z {:trigger SameOn(x.v.data, y.v.data, x.chains[z])} | z in x.nodes && z != d ::
      SameOn(x.v.data, y.v.data, x.chains[z])
    ensures Gone(x, y, d, name, i, R)
  {
    forall z {:trigger Untouched(x, y, z)} | z in y.nodes && z != d ensures Untouched(x, y, z) {
      assert z in y.chains;
      assert SameOn(x.v.data, y.v.data, x.chains[z]);
    }
  }

  /** Make a directory that passed the checks, and the state after it. */
  method NewDir(vol: Volume, nodes: Nodes, next: int, d: int, name: seq<byte>, ghost chains: Chains)
    returns (err: Error, nodes': Nodes, next': int, ghost chains': Chains)
    requires vol.Valid() && FsOk(vol.v, nodes, chains, next) && d in nodes && nodes[d].isDir && NoNul(name)
    requires Passes(nodes, d, name)
    modifies vol`disk, vol`cache, vol`v, vol`hint
    ensures vol.Valid() && FsOk(vol.v, nodes', chains', next') && (err == Ok || err == Full || err == Io)
    ensures Shape(old(vol.v)) && Shape(vol.v)
    ensures DirMade(State(old(vol.v), nodes, next, chains), State(vol.v, nodes', next', chains'), d, name)
    ensures (err == Full <==> NoneFree(old(vol.v)))
    ensures (err == Io <==> TakesLast(State(old(vol.v), nodes, next, chains), d, name))
    ensures err != Io ==> Spent(old(vol.v), vol.v)
    ensures err == Io && 0 <= Short(old(vol.v)) ==> Short(vol.v) == 1 && vol.v.free == 0
  {
    ghost var cs', x := [], State(vol.v, nodes, next, chains);
    var c, ok;
    c, ok, nodes', cs' := MakeDir(vol, nodes, next, d, name, chains);
    err, next', chains' := if ok then Ok else if c == 0 then Full else Io, next, chains;
    if !ok {
      nodes' := nodes;
      return;
    }
    next', chains' := next + 1, chains[next := [c]][d := cs'];
    ChildIs(x, State(vol.v, nodes', next', chains'), d, name, true, c, [c], cs');
  }

  /** The first child of d with this name went, with everything below it. */
  ghost predicate Deleted(nodes: Nodes, nodes': Nodes, d: int, name: seq<byte>, i: nat, R: set<int>) {
    && d in nodes && i < |nodes[d].children| && nodes[d].children[i] in nodes
    && nodes[nodes[d].children[i]].name == name
    && Removed(nodes, nodes', d, nodes[d].children[i], R, i)
    && forall j | 0 <= j < i && nodes[d].children[j] != NULL && nodes[d].children[j] in nodes ::
      nodes[nodes[d].children[j]].name != name
  }

  datatype Op =
    | MakeFile(d: int, name: seq<byte>)
    | MakeDirectory(d: int, name: seq<byte>)
    | Write(id: int, bytes: seq<byte>)
    | Unlink(d: int, name: seq<byte>)

  predicate NoZero(name: seq<byte>)
    ensures NoZero(name) <==> NoNul(name)
  {
    forall i | 0 <= i < |name| :: name[i] != 0
  }

  /** Make a laid chain the file's own: repoint its entry, update its node, free its old chain. */
  method Swap(vol: Volume, nodes: Nodes, next: int, id: int, first: u32, size: nat, ghost w: View,
      ghost chains: Chains, ghost cs: seq<int>)
    returns (nodes': Nodes, ghost k: nat)
    requires vol.Valid() && FsOk(w, nodes, chains, next) && Laid(w, vol.v, cs) && first == cs[0] && id in nodes
    requires id != ROOT && !nodes[id].isDir
    requires size <= MAX_FILE_SIZE && FileOk(vol.v.data, size, cs)
    modifies vol`disk, vol`cache, vol`v, vol`hint
    ensures vol.Valid() && FsOk(vol.v, nodes', chains[id := cs], next)
    ensures nodes' == nodes[id := nodes[id].(first := first, size := size)]
    ensures FileOk(vol.v.data, size, cs)
    ensures Content(Sectors(vol.v.data, cs), size) == Content(Sectors(old(vol.v.data), cs), size)
    ensures nodes[id].parent in chains
    ensures DirMoved(w.data, vol.v.data, chains[nodes[id].parent], nodes[id].diskName, k, first, size)
    ensures forall x {:trigger SameOn(w.data, vol.v.data, chains[x])} | x in nodes && x != id
      && x != nodes[id].parent :: SameOn(w.data, vol.v.data, chains[x])
    ensures GivenBack(old(vol.v), vol.v) && id in chains && FreeIn(vol.v) == FreeIn(old(vol.v)) + |chains[id]|
  {
    ghost var d, w1 := nodes[id].parent, vol.v;
    SwapStart(w, w1, nodes, chains, next, id, cs);
    var dir, sn, oldFirst := nodes[nodes[id].parent].first, nodes[id].diskName, nodes[id].first;
    k := Commit(vol, dir, sn, first, size, oldFirst, chains[d], chains[id]);
    LaidDir(w, w1, chains, cs, d);
    nodes' := nodes[id := nodes[id].(first := first, size := size)];
    SwapDone(w, w1, vol.v, nodes, nodes', chains, next, id, cs, size, k);
  }

  /** Lay the bytes out in a new chain and swap it in, or change nothing that is in use. */
  method Store(vol: Volume, nodes: Nodes, next: int, id: int, file: seq<byte>, ghost chains: Chains)
    returns (ok: bool, nodes': Nodes, ghost cs: seq<int>, ghost k: nat)
    requires vol.Valid() && FsOk(vol.v, nodes, chains, next) && id in nodes && id != ROOT && !nodes[id].isDir
    requires |file| <= MAX_FILE_SIZE
    modifies vol`disk, vol`cache, vol`v, vol`hint
    ensures vol.Valid() && Shape(vol.v) && (ok <==> Enough(old(vol.v), vol.g.sectorsPerCluster, |file|))
    ensures !ok ==> FsOk(vol.v, nodes, chains, next) && vol.v.fat == old(vol.v.fat) && SameUsed(old(vol.v), vol.v)
    ensures ok ==> cs != [] && 0 <= cs[0] < 0x1_0000_0000 && FsOk(vol.v, nodes', chains[id := cs], next)
    ensures ok ==> nodes' == nodes[id := nodes[id].(first := cs[0], size := |file|)]
    ensures ok ==> FileOk(vol.v.data, |file|, cs) && Content(Sectors(vol.v.data, cs), |file|) == file
    ensures ok ==> nodes[id].parent in chains
    ensures ok ==> DirMoved(old(vol.v.data), vol.v.data, chains[nodes[id].parent], nodes[id].diskName, k, cs[0], |file|)
    ensures ok ==> forall x {:trigger SameOn(old(vol.v.data), vol.v.data, chains[x])} | x in nodes && x != id &&
      x != nodes[id].parent :: SameOn(old(vol.v.data), vol.v.data, chains[x])
    ensures id in chains && Shape(old(vol.v))
    ensures ok ==> |chains[id]| <= FreeIn(vol.v) && FreeIn(vol.v) + |cs| == FreeIn(old(vol.v)) + |chains[id]|
    ensures ok ==> ShortKept(old(vol.v), vol.v, FreeIn(vol.v) - |chains[id]|)
    ensures ok ==> Tight(|cs|, vol.g.sectorsPerCluster, |file|)
    ensures !ok ==> ShortKept(old(vol.v), vol.v, 0)
  {
    ghost var w := vol.v;
    nodes', k := nodes, 0;
    var first;
    first, cs := WriteChain(vol, file);
    ok := first != 0;
    if ok {
      CountLaid(w, vol.v, cs);
      nodes', k := Swap(vol, nodes, next, id, first, |file|, w, chains, cs);
    } else {
      UsedOnly(w, vol.v, nodes, chains, next);
    }
  }

  /** Store as much of the bytes as a file may hold. */
  method Save(vol: Volume, nodes: Nodes, next: int, id: int, bytes: seq<byte>, ghost chains: Chains)
    returns (ok: bool, nodes': Nodes, ghost chains': Chains)
    requires vol.Valid() && FsOk(vol.v, nodes, chains, next) && id in nodes && !nodes[id].isDir
    modifies vol`disk, vol`cache, vol`v, vol`hint
    ensures vol.Valid() && Shape(old(vol.v)) && (ok <==> Enough(old(vol.v), vol.g.sectorsPerCluster, |Clipped(bytes)|))
    ensures FsOk(vol.v, nodes', chains', next)
    ensures Written(State(old(vol.v), nodes, next, chains), State(vol.v, nodes', next, chains'), id, bytes,
      vol.g.sectorsPerCluster)
    ensures WriteCounted(State(old(vol.v), nodes, next, chains), State(vol.v, nodes', next, chains'), id, bytes,
      vol.g.sectorsPerCluster)
  {
    ghost var x := State(vol.v, nodes, next, chains);
    assert NodeOk(nodes, chains, id);
    ghost var cs, k;
    ok, nodes', cs, k := Store(vol, nodes, next, id, Clipped(bytes), chains);
    chains' := chains;
    if ok { chains' := chains[id := cs]; } else { nodes' := nodes; }
    Saved(x, State(vol.v, nodes', next, chains'), id, bytes, vol.g.sectorsPerCluster, ok, cs, k);
  }

  lemma Saved(x: State, y: State, id: int, bytes: seq<byte>, spc: nat, ok: bool, cs: seq<int>, k: nat)
    requires Shape(x.v) && Shape(y.v) && x.chains.Keys == x.nodes.Keys && id in x.nodes && !x.nodes[id].isDir
    requires y.next == x.next
    requires ok <==> Enough(x.v, spc, |Clipped(bytes)|)
    requires ok ==> cs != [] && 0 <= cs[0] < 0x1_0000_0000
    requires ok ==> y.nodes == x.nodes[id := x.nodes[id].(first := cs[0], size := |Clipped(bytes)|)]
    requires ok ==> y.chains == x.chains[id := cs]
    requires ok ==> FileOk(y.v.data, |Clipped(bytes)|, cs)
    requires ok ==> Content(Sectors(y.v.data, cs), |Clipped(bytes)|) == Clipped(bytes)
    requires ok ==> Tight(|cs|, spc, |Clipped(bytes)|) && x.nodes[id].parent in x.chains
    requires ok ==>
      DirMoved(x.v.data, y.v.data, x.chains[x.nodes[id].parent], x.nodes[id].diskName, k, cs[0], |Clipped(bytes)|)
    requires ok ==> forall z {:trigger SameOn(x.v.data, y.v.data, x.chains[z])} | z in x.nodes && z != id &&
      z != x.nodes[id].parent :: SameOn(x.v.data, y.v.data, x.chains[z])
    requires ok ==> |x.chains[id]| <= FreeIn(y.v) && FreeIn(y.v) + |cs| == FreeIn(x.v) + |x.chains[id]|
    requires ok ==> ShortKept(x.v, y.v, FreeIn(y.v) - |x.chains[id]|)
    requires !ok ==> y == x.(v := y.v) && y.v.fat == x.v.fat && SameUsed(x.v, y.v) && ShortKept(x.v, y.v, 0)
    ensures Written(x, y, id, bytes, spc) && WriteCounted(x, y, id, bytes, spc)
  {
    if ok { RewrittenIs(x, y, id, Clipped(bytes), spc, k); }
  }

  /** The laid chain disturbs neither the parent directory nor the file's old chain. */
  lemma SwapStart(w: View, w1: View, nodes: Nodes, chains: Chains, next: int, id: int, cs: seq<int>)
    requires FsOk(w, nodes, chains, next) && Laid(w, w1, cs) && id in nodes && id != ROOT && !nodes[id].isDir
    ensures var d := nodes[id].parent;
      && d in nodes && d != id && d in chains && id in chains && nodes[d].isDir && chains[d] != []
      && nodes[d].first == chains[d][0] && Proper(nodes[id].diskName) && IsChild(nodes, d, id)
      && IsChain(w1.fat, |w.data|, chains[d]) && InUse(Dir(w1.data, chains[d]), nodes[id].diskName)
    ensures IsChain(w1.fat, |w.data|, chains[id]) && nodes[id].first == (if chains[id] == [] then 0 else chains[id][0])
  {
    var d := nodes[id].parent;
    assert NodeOk(nodes, chains, id);
    assert NodeOk(nodes, chains, d);
    assert EntityOk(w.data, nodes, chains[d], d);
    LaidKeeps(w, w1, chains, cs, d);
    LaidKeeps(w, w1, chains, cs, id);
    DirFrame(w.data, w1.data, chains[d]);
    ChildInUse(Dir(w.data, chains[d]), nodes, d, id);
  }

  /** Contents after the swap: the file holds the new chain, its parent the repointed entry, all else is as before. */
  lemma SwapContents(w: View, w1: View, data': seq<Cluster>, nodes: Nodes, nodes': Nodes, chains: Chains, next: int,
      id: int, cs: seq<int>, size: u32, k: nat)
    requires FsOk(w, nodes, chains, next) && Laid(w, w1, cs) && id in nodes && id != ROOT && !nodes[id].isDir
    requires nodes[id].parent in chains
    requires 0 <= cs[0] < 0x1_0000_0000 && Repointed(nodes, nodes', id, cs[0], size) && FileOk(w1.data, size, cs)
    requires EntryMoved(w1.data, data', chains[nodes[id].parent], nodes[id].diskName, k, cs[0], size)
    ensures Tree(nodes', chains[id := cs], next) && ContentsOk(data', nodes', chains[id := cs])
    ensures FileOk(data', size, cs) && Content(Sectors(data', cs), size) == Content(Sectors(w1.data, cs), size)
    ensures forall x {:trigger SameOn(w.data, data', chains[x])} | x in nodes && x != id && x != nodes[id].parent ::
      SameOn(w.data, data', chains[x])
  {
    var d := nodes[id].parent;
    SwapParent(w, w1, data', nodes, nodes', chains, next, id, cs, size, k);
    SwapOthers(w, w1, data', nodes, chains, id, cs, size);
    SwapTree(w, nodes, nodes', chains, next, id, cs, size);
    RepointedContents(w.data, data', nodes, nodes', chains, chains[id := cs], next, id, cs, cs[0], size);
  }

  lemma SwapTree(w: View, nodes: Nodes, nodes': Nodes, chains: Chains, next: int, id: int, cs: seq<int>, size: u32)
    requires FsOk(w, nodes, chains, next) && cs != [] && 0 <= cs[0] < 0x1_0000_0000
    requires Repointed(nodes, nodes', id, cs[0], size)
    ensures Tree(nodes', chains[id := cs], next) && AllSolid(nodes')
  {
    AllSolidOf(w.data, nodes, chains, next);
    RepointedTree(nodes, nodes', chains, chains[id := cs], next, id, cs, size);
  }

  lemma SwapParent(w: View, w1: View, data': seq<Cluster>, nodes: Nodes, nodes': Nodes, chains: Chains, next: int,
      id: int, cs: seq<int>, size: u32, k: nat)
    requires FsOk(w, nodes, chains, next) && Laid(w, w1, cs) && id in nodes && id != ROOT && nodes[id].parent in chains
    requires 0 <= cs[0] < 0x1_0000_0000 && Repointed(nodes, nodes', id, cs[0], size)
    requires EntryMoved(w1.data, data', chains[nodes[id].parent], nodes[id].diskName, k, cs[0], size)
    ensures nodes[id].parent in nodes && DirOk(data', nodes', chains[nodes[id].parent], nodes[id].parent)
  {
    var d := nodes[id].parent;
    assert NodeOk(nodes, chains, id);
    assert EntityOk(w.data, nodes, chains[d], d);
    LaidKeeps(w, w1, chains, cs, d);
    DirFrame(w.data, w1.data, chains[d]);
    RepointedParent(Dir(w1.data, chains[d]), Dir(data', chains[d]), nodes, nodes', d, id, cs[0], size, k);
  }

  lemma SwapOthers(w: View, w1: View, data': seq<Cluster>, nodes: Nodes, chains: Chains, id: int, cs: seq<int>,
      size: u32)
    requires Space(w, chains) && chains.Keys == nodes.Keys && Laid(w, w1, cs) && id in nodes
    requires nodes[id].parent in chains && FileOk(w1.data, size, cs)
    requires |data'| == |w.data|
    requires forall c | 0 <= c < |data'| && c !in chains[nodes[id].parent] :: data'[c] == w1.data[c]
    ensures FileOk(data', size, cs) && Content(Sectors(data', cs), size) == Content(Sectors(w1.data, cs), size)
    ensures forall x {:trigger SameOn(w.data, data', chains[x])} | x in nodes && x != id && x != nodes[id].parent ::
      SameOn(w.data, data', chains[x])
  {
    LaidKeeps(w, w1, chains, cs, nodes[id].parent);
    FileKept(w1.data, data', size, cs);
    forall x | x in nodes && x != id && x != nodes[id].parent ensures SameOn(w.data, data', chains[x]) {
      LaidKeeps(w, w1, chains, cs, x);
      assert Disjoint(chains[x], chains[nodes[id].parent]);
    }
  }

  lemma SwapDone(w: View, w1: View, w3: View, nodes: Nodes, nodes': Nodes, chains: Chains, next: int, id: int,
      cs: seq<int>, size: u32, k: nat)
    requires FsOk(w, nodes, chains, next) && Laid(w, w1, cs) && id in nodes && id != ROOT && !nodes[id].isDir
    requires nodes[id].parent in chains
    requires 0 <= cs[0] < 0x1_0000_0000 && Repointed(nodes, nodes', id, cs[0], size) && FileOk(w1.data, size, cs)
    requires EntryMoved(w1.data, w3.data, chains[nodes[id].parent], nodes[id].diskName, k, cs[0], size)
    requires Shape(w3) && Ranged(w3.fat) && id in chains && Cleared(w1.fat, w3.fat, chains[id])
    ensures FsOk(w3, nodes', chains[id := cs], next)
    ensures FileOk(w3.data, size, cs) && Content(Sectors(w3.data, cs), size) == Content(Sectors(w1.data, cs), size)
    ensures forall x {:trigger SameOn(w.data, w3.data, chains[x])} | x in nodes && x != id && x != nodes[id].parent ::
      SameOn(w.data, w3.data, chains[x])
  {
    SwapSpace(w, w1, w3, chains, id, cs);
    SwapContents(w, w1, w3.data, nodes, nodes', chains, next, id, cs, size, k);
  }

  /** A child's name is in use in its directory. */
  lemma ChildInUse(slots: seq<Slot>, nodes: Nodes, d: int, id: int)
    requires Agrees(slots, nodes, d) && IsChild(nodes, d, id)
    ensures InUse(slots, nodes[id].diskName)
  {
    assert HasSlot(slots, nodes[id]);
    var k :| 0 <= k < |slots| && Live(slots[k]) && Matches(nodes[id], slots[k]);
  }
}
