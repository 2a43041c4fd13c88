/** Loading the whole tree from disk, and why it finds what is in memory. */
module FatReload {
  import opened Bytes
  import opened FatDisk
  import opened FatChain
  import opened FatFile
  import opened FatVolume
  import opened FatIo
  import opened FatDir
  import opened FatName
  import opened FatTree
  import opened FatFs
  import opened FatLoad
  import opened FatDriver

  /** An entry read from disk, with what lies below it. */
  datatype Loaded = Loaded(name: seq<byte>, isDir: bool, size: u32, first: u32, diskName: seq<byte>, kids: seq<Loaded>)

  /** t is node n as the disk tells it; the name is the one the short name is shown as. */
  ghost predicate Describes(t: Loaded, n: Node) {
    && t.isDir == n.isDir && t.size == n.size && t.first == n.first && t.diskName == n.diskName
    && |n.diskName| == NAME_LEN && t.name == Shown(n.diskName)
  }

  /** ids are the children of d, each once. */
  ghost predicate Lists(nodes: Nodes, d: int, ids: seq<int>) {
    && (forall i | 0 <= i < |ids| :: IsChild(nodes, d, ids[i]))
    && (forall i, j | 0 <= i < j < |ids| :: ids[i] != ids[j])
    && forall id | IsChild(nodes, d, id) :: id in ids
  }

  /** kids describe the children of d, each once, and so do theirs down to the leaves. */
  ghost predicate Reflects(kids: seq<Loaded>, nodes: Nodes, d: int)
    decreases kids, 1
  {
    exists ids :: Lists(nodes, d, ids) && Reflected(kids, nodes, ids)
  }

  ghost predicate Reflected(kids: seq<Loaded>, nodes: Nodes, ids: seq<int>)
    decreases kids, 0
  {
    && |kids| == |ids|
    && forall i | 0 <= i < |kids| ::
      ids[i] in nodes && Describes(kids[i], nodes[ids[i]]) && Reflects(kids[i].kids, nodes, ids[i])
  }

  /** The nodes the entries stand for. */
  ghost predicate Stands(es: seq<Slot>, nodes: Nodes, d: int, ids: seq<int>) {
    |ids| == |es| && forall i | 0 <= i < |es| :: IsChild(nodes, d, ids[i]) && Matches(nodes[ids[i]], es[i])
  }

  lemma {:induction false} IdsOf(es: seq<Slot>, nodes: Nodes, d: int) returns (ids: seq<int>)
    requires forall i | 0 <= i < |es| :: HasChild(nodes, d, es[i])
    ensures Stands(es, nodes, d, ids)
  {
    ids := [];
    if es != [] {
      var n := |es| - 1;
      assert HasChild(nodes, d, es[n]);
      var id :| IsChild(nodes, d, id) && Matches(nodes[id], es[n]);
      var rest := IdsOf(es[..n], nodes, d);
      ids := rest + [id];
    }
  }

  /** Where tree and disk agree, the entries stand for the children, each once. */
  lemma EntriesStand(slots: seq<Slot>, nodes: Nodes, d: int) returns (ids: seq<int>)
    requires Agrees(slots, nodes, d)
    ensures Stands(Entries(slots), nodes, d, ids) && Lists(nodes, d, ids)
  {
    var es := Entries(slots);
    var at := ReloadsChildren(slots, nodes, d);
    ids := IdsOf(es, nodes, d);
    forall id | IsChild(nodes, d, id) ensures id in ids {
      var i :| OnlyEntry(es, nodes, id, i);
      assert nodes[ids[i]].diskName == nodes[id].diskName && ids[i] == id;
    }
  }

  /** A child table holds no more than its size. */
  lemma Fits(nodes: Nodes, d: int, ids: seq<int>)
    requires d in nodes && TableOk(nodes, d) && Lists(nodes, d, ids)
    ensures |ids| <= |nodes[d].children|
  {
    var t := nodes[d].children;
    forall i | 0 <= i < |ids| ensures ids[i] in t { assert IsChild(nodes, d, ids[i]); }
    Pigeons(ids, t);
  }

  /** Distinct elements of a sequence are no more than its length. */
  lemma {:induction false} Pigeons(ids: seq<int>, t: seq<int>)
    requires (forall i | 0 <= i < |ids| :: ids[i] in t) && forall i, j | 0 <= i < j < |ids| :: ids[i] != ids[j]
    ensures |ids| <= |t|
  {
    if ids != [] {
      var n := |ids| - 1;
      var k :| 0 <= k < |t| && t[k] == ids[n];
      var t' := t[..k] + t[k + 1..];
      forall i | 0 <= i < n ensures ids[i] in t' {
        var j :| 0 <= j < |t| && t[j] == ids[i];
        assert t'[if j < k then j else j - 1] == ids[i];
      }
      Pigeons(ids[..n], t');
    }
  }

  /** A file has no children. */
  lemma NoKids(nodes: Nodes, chains: Chains, next: int, id: int)
    requires Tree(nodes, chains, next) && id in nodes && !nodes[id].isDir
    ensures Reflects([], nodes, id)
  {
    forall c ensures !IsChild(nodes, id, c) { assert c in nodes ==> NodeOk(nodes, chains, c); }
    assert Lists(nodes, id, []) && Reflected([], nodes, []);
  }

  lemma OneMore(kids: seq<Loaded>, t: Loaded, nodes: Nodes, ids: seq<int>, i: nat)
    requires i < |ids| && Reflected(kids, nodes, ids[..i]) && ids[i] in nodes && Describes(t, nodes[ids[i]])
    requires Reflects(t.kids, nodes, ids[i])
    ensures Reflected(kids + [t], nodes, ids[..i + 1])
  {
  }

  // fs_create_entry_from_dir
  method EntryFrom(e: Slot, kids: seq<Loaded>, ghost n: Node) returns (t: Loaded)
    requires Matches(n, e)
    ensures Describes(t, n) && t.kids == kids
  {
    var name := ParseShort(NameOf(e));
    t := Loaded(name, e[NAME_LEN] / 16 % 2 == 1, SizeOf(e), FirstOf(e), NameOf(e), kids);
  }

  // fs_load_directory
  method LoadDirectory(fs: Driver, first: u32, ghost d: int) returns (kids: seq<Loaded>)
    requires fs.Valid() && d in fs.nodes && fs.nodes[d].isDir && first == fs.nodes[d].first
    ensures Reflects(kids, fs.nodes, d)
    decreases fs.next - d
  {
    ghost var nodes := fs.nodes;
    var es := ReadDir(fs, first, d);
    ghost var ids := EntriesStand(Dir(fs.vol.v.data, fs.chains[d]), nodes, d);
    Fits(nodes, d, ids);
    kids := [];
    var i := 0;
    while i < |es| && |kids| < MAX_DIR_ENTRIES
      invariant |kids| == i <= |es| && Reflected(kids, nodes, ids[..i])
    {
      var t := LoadEntry(fs, es[i], d, ids[i]);
      OneMore(kids, t, nodes, ids, i);
      kids := kids + [t];
      i := i + 1;
    }
    assert ids[..i] == ids;
  }

  method ReadDir(fs: Driver, first: u32, ghost d: int) returns (es: seq<Slot>)
    requires fs.Valid() && d in fs.nodes && fs.nodes[d].isDir && first == fs.nodes[d].first
    ensures d in fs.chains && DirOk(fs.vol.v.data, fs.nodes, fs.chains[d], d)
    ensures es == Entries(Dir(fs.vol.v.data, fs.chains[d]))
    ensures TableOk(fs.nodes, d) && |fs.nodes[d].children| == MAX_DIR_ENTRIES && d < fs.next
  {
    assert NodeOk(fs.nodes, fs.chains, d) && EntityOk(fs.vol.v.data, fs.nodes, fs.chains[d], d);
    es := ReadEntries(fs.vol, first, fs.chains[d]);
  }

  method LoadEntry(fs: Driver, e: Slot, ghost d: int, ghost id: int) returns (t: Loaded)
    requires fs.Valid() && IsChild(fs.nodes, d, id) && Matches(fs.nodes[id], e) && d < fs.next
    ensures Describes(t, fs.nodes[id]) && Reflects(t.kids, fs.nodes, id)
    decreases fs.next - d, 0
  {
    assert NodeOk(fs.nodes, fs.chains, id);
    var kids := [];
    if e[NAME_LEN] / 16 % 2 == 1 {
      kids := LoadDirectory(fs, FirstOf(e), id);
    } else {
      NoKids(fs.nodes, fs.chains, fs.next, id);
    }
    t := EntryFrom(e, kids, fs.nodes[id]);
  }

  /** After any run a load from disk rebuilds the tree in memory: every node once, under its parent, with its kind,
      size, chain and short name. */
  method RunAndLoad(fs: Driver, ops: seq<Op>) returns (kids: seq<Loaded>)
    requires fs.Valid()
    modifies fs, fs.vol`disk, fs.vol`cache, fs.vol`v, fs.vol`hint
    ensures fs.Valid() && Reflects(kids, fs.nodes, ROOT)
  {
    ghost var trace := fs.Run(ops);
    kids := LoadDirectory(fs, fs.nodes[ROOT].first, ROOT);
  }
}
