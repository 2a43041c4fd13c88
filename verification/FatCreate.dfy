/** What creating a file or a directory does to the file system state. */
module FatCreate {
  import opened Bytes
  import opened FatDisk
  import opened FatChain
  import opened FatFile
  import opened FatVolume
  import opened FatDir
  import opened FatName
  import opened FatTree
  import opened FatFs

  // ---- child tables ----

  /** The first free slot of a child table, or its length. */
  method FindNull(t: seq<int>) returns (i: nat)
    ensures i <= |t| && (i < |t| ==> t[i] == NULL) && forall j | 0 <= j < i :: t[j] != NULL
  {
    i := 0;
    while i < |t| && t[i] != NULL
      invariant i <= |t| && forall j | 0 <= j < i :: t[j] != NULL
    {
      i := i + 1;
    }
  }

  /** The first child with this name, or the table's length. */
  method FindNamed(nodes: Nodes, t: seq<int>, name: seq<byte>) returns (i: nat)
    requires forall j | 0 <= j < |t| && t[j] != NULL :: t[j] in nodes
    ensures i <= |t| && (i < |t| ==> t[i] != NULL && nodes[t[i]].name == name)
    ensures forall j | 0 <= j < i && t[j] != NULL :: nodes[t[j]].name != name
  {
    i := 0;
    while i < |t| && (t[i] == NULL || nodes[t[i]].name != name)
      invariant i <= |t| && forall j | 0 <= j < i && t[j] != NULL :: nodes[t[j]].name != name
    {
      i := i + 1;
    }
  }

  // ---- the new directory's cluster ----

  /** A directory holding "." and ".." and nothing else. */
  ghost predicate DotsAlone(slots: seq<Slot>) {
    && |slots| >= 2 && NameOf(slots[0]) == DotName() && NameOf(slots[1]) == DotDotName()
    && forall k | 2 <= k < |slots| :: slots[k][0] == 0
  }

  /** The same, with "." naming the directory's own cluster and ".." its parent's. */
  ghost predicate DotsFor(slots: seq<Slot>, c: u32, parent: u32) {
    DotsAlone(slots) && slots[0] == Entry(DotName(), ATTR_DIRECTORY, c)
      && slots[1] == Entry(DotDotName(), ATTR_DIRECTORY, parent)
  }

  lemma DotsAgree(slots: seq<Slot>, nodes: Nodes, d: int)
    requires DotsAlone(slots) && forall y :: !IsChild(nodes, d, y)
    ensures Agrees(slots, nodes, d)
  {
    assert DotName()[0] == DOT && DotDotName()[0] == DOT && DotName()[1] != DotDotName()[1];
    assert NameOf(slots[0])[0] == slots[0][0] && NameOf(slots[1])[0] == slots[1][0];
  }

  function DotSector(c: u32, parent: u32): (b: Sector) {
    Splice(Splice(ZeroSector(), 0, Entry(DotName(), ATTR_DIRECTORY, c)), SLOT_SIZE,
      Entry(DotDotName(), ATTR_DIRECTORY, parent))
  }

  lemma DotsMade(cluster: Cluster, c: u32, parent: u32)
    requires |cluster| > 0 && cluster[0] == DotSector(c, parent)
    requires forall s | 1 <= s < |cluster| :: cluster[s] == ZeroSector()
    ensures DotsFor(Slots(cluster), c, parent)
  {
    var dot, dotdot := Entry(DotName(), ATTR_DIRECTORY, c), Entry(DotDotName(), ATTR_DIRECTORY, parent);
    var b0: Sector := Splice(ZeroSector(), 0, dot);
    var b := DotSector(c, parent);
    assert SlotIn(b0, 0) == dot;
    SpliceApart(b0, 1, 0, dotdot);
    assert SlotIn(b, 1) == dotdot;
    assert Slots(cluster)[0] == SlotAt(cluster, 0) && Slots(cluster)[1] == SlotAt(cluster, 1);
    forall k | 2 <= k < |Slots(cluster)| ensures Slots(cluster)[k][0] == 0 {
      assert Slots(cluster)[k] == SlotAt(cluster, k);
      if k < SLOTS {
        SpliceApart(b0, 1, k, dotdot);
        SpliceApart(ZeroSector(), 0, k, dot);
      }
    }
  }

  /** Clear a directory's first cluster and write its "." and ".." entries. */
  method WriteDots(vol: Volume, c: u32, parent: u32)
    requires vol.Valid() && 2 <= c < |vol.v.data|
    modifies vol`disk, vol`v
    ensures vol.Valid() && vol.v == old(vol.v).(data := vol.v.data) && |vol.v.data| == |old(vol.v.data)|
    ensures forall d | 0 <= d < |vol.v.data| && d != c :: vol.v.data[d] == old(vol.v.data)[d]
    ensures DotsFor(Slots(vol.v.data[c]), c, parent)
  {
    var s := 0;
    while s < vol.g.sectorsPerCluster
      invariant vol.Valid() && vol.v == old(vol.v).(data := vol.v.data) && |vol.v.data| == |old(vol.v.data)|
      invariant forall d | 0 <= d < |vol.v.data| && d != c :: vol.v.data[d] == old(vol.v.data)[d]
      invariant s <= |vol.v.data[c]| == vol.g.sectorsPerCluster
      invariant forall t | 0 <= t < s :: vol.v.data[c][t] == ZeroSector()
    {
      vol.PutSector(c, s, ZeroSector());
      s := s + 1;
    }
    vol.PutSector(c, 0, DotSector(c, parent));
    DotsMade(vol.v.data[c], c, parent);
  }

  // ---- the step as a whole ----

  lemma GrownSpace(w: View, w': View, chains: Chains, d: int, cs': seq<int>)
    requires Space(w, chains) && d in chains && Grown(w, w', chains[d], cs') && Shape(w')
    ensures Space(w', chains[d := cs'])
    ensures forall x {:trigger SameOn(w.data, w'.data, chains[x])} | x in chains && x != d ::
      SameOn(w.data, w'.data, chains[x])
  {
    assert forall i | 0 <= i < |chains[d]| :: chains[d][i] == cs'[i];
    SpaceSet(w, w', chains, d, cs');
    forall x | x in chains && x != d ensures SameOn(w.data, w'.data, chains[x]) {
      assert IsChain(w.fat, |w.data|, chains[x]);
      forall c | c in chains[x] ensures 2 <= c < |w.data| && c !in cs' { NotMine(w, chains, d, cs', x, c); }
    }
  }

  /** The new node's contents after the parent's directory has been written. */
  lemma NewContents(data: seq<Cluster>, data': seq<Cluster>, nodes': Nodes, id: int, cs: seq<int>)
    requires id in nodes' && Inside(|data|, cs) && SameOn(data, data', cs) && Solid(nodes', id)
    requires forall y :: !IsChild(nodes', id, y)
    requires if nodes'[id].isDir then DotsAlone(Dir(data, cs)) else nodes'[id].size == 0
    ensures EntityOk(data', nodes', cs, id)
  {
    DirFrame(data, data', cs);
    if nodes'[id].isDir { DotsAgree(Dir(data', cs), nodes', id); }
  }

  /** w1 differs from w only in that the new node's clusters cs are allocated. */
  ghost predicate Prepared(w: View, w1: View, nodes: Nodes, chains: Chains, id: int, cs: seq<int>) {
    && Space(w1, chains[id := cs]) && |w1.data| == |w.data|
    && forall x {:trigger SameOn(w.data, w1.data, chains[x])} | x in nodes && x in chains ::
      SameOn(w.data, w1.data, chains[x])
  }

  lemma CreatedParent(w: View, w1: View, w': View, nodes: Nodes, nodes': Nodes, chains: Chains, next: int, d: int,
      n: Node, i: nat, cs': seq<int>, e: Slot, k: nat)
    requires FsOk(w, nodes, chains, next) && Added(nodes, nodes', d, next, n, i) && SameOn(w.data, w1.data, chains[d])
    requires Matches(n, e)
    requires Inside(|w1.data|, chains[d]) && Inside(|w'.data|, cs')
    requires Inserted(Dir(w1.data, chains[d]), Dir(w'.data, cs'), e, k)
    requires Proper(NameOf(e)) && !Taken(Dir(w1.data, chains[d]), NameOf(e))
    ensures DirOk(w'.data, nodes', cs', d)
  {
    assert EntityOk(w.data, nodes, chains[d], d);
    DirFrame(w.data, w1.data, chains[d]);
    AddedParent(Dir(w.data, chains[d]), Dir(w'.data, cs'), nodes, nodes', chains, next, d, n, i, e, k);
  }

  /** The state after a create: the new node prepared, the entry inserted in its parent's directory. */
  lemma Created(w: View, w1: View, w': View, nodes: Nodes, nodes': Nodes, chains: Chains, next: int, d: int, n: Node,
      i: nat, cs: seq<int>, cs': seq<int>, e: Slot, k: nat)
    requires FsOk(w, nodes, chains, next) && Added(nodes, nodes', d, next, n, i) && NewNode(n, cs) && Matches(n, e)
    requires Prepared(w, w1, nodes, chains, next, cs) && Inside(|w1.data|, cs)
    requires (n.isDir ==> DotsAlone(Dir(w1.data, cs)))
    requires d in chains && Shape(w') && Grown(w1, w', chains[d], cs') && Inside(|w1.data|, chains[d])
    requires Inserted(Dir(w1.data, chains[d]), Dir(w'.data, cs'), e, k) && Proper(NameOf(e))
    requires !Taken(Dir(w1.data, chains[d]), NameOf(e))
    ensures FsOk(w', nodes', chains[next := cs][d := cs'], next + 1) && SameOn(w1.data, w'.data, cs)
    ensures forall x {:trigger SameOn(w.data, w'.data, chains[x])} | x in nodes && x != d ::
      SameOn(w.data, w'.data, chains[x])
  {
    CreatedParent(w, w1, w', nodes, nodes', chains, next, d, n, i, cs', e, k);
    CreatedOthers(w, w1, w', nodes, chains, next, d, cs, cs');
    CreatedSpace(w, w1, w', nodes, chains, next, d, cs, cs');
    CreatedTree(w, nodes, nodes', chains, next, d, n, i, cs, cs');
    CreatedContents(w, w1, w', nodes, nodes', chains, next, d, n, i, cs, cs');
  }

  lemma CreatedSpace(w: View, w1: View, w': View, nodes: Nodes, chains: Chains, next: int, d: int, cs: seq<int>,
      cs': seq<int>)
    requires next !in chains && d in chains && Prepared(w, w1, nodes, chains, next, cs) && Shape(w')
    requires Grown(w1, w', chains[d], cs')
    ensures Space(w', chains[next := cs][d := cs'])
  {
    GrownSpace(w1, w', chains[next := cs], d, cs');
  }

  lemma CreatedTree(w: View, nodes: Nodes, nodes': Nodes, chains: Chains, next: int, d: int, n: Node, i: nat,
      cs: seq<int>, cs': seq<int>)
    requires FsOk(w, nodes, chains, next) && Added(nodes, nodes', d, next, n, i) && NewNode(n, cs) && chains[d] <= cs'
    ensures Tree(nodes', chains[next := cs][d := cs'], next + 1) && AllSolid(nodes')
  {
    AllSolidOf(w.data, nodes, chains, next);
    assert NodeOk(nodes, chains, d);
    assert chains[d][0] == cs'[0];
    AddedTree(nodes, nodes', chains, chains[next := cs][d := cs'], next, d, n, i, cs, cs');
  }

  lemma CreatedContents(w: View, w1: View, w': View, nodes: Nodes, nodes': Nodes, chains: Chains, next: int, d: int,
      n: Node, i: nat, cs: seq<int>, cs': seq<int>)
    requires Tree(nodes, chains, next) && ContentsOk(w.data, nodes, chains) && Added(nodes, nodes', d, next, n, i)
    requires NewNode(n, cs) && AllSolid(nodes')
    requires Inside(|w1.data|, cs) && (n.isDir ==> DotsAlone(Dir(w1.data, cs))) && SameOn(w1.data, w'.data, cs)
    requires DirOk(w'.data, nodes', cs', d)
    requires forall x {:trigger SameOn(w.data, w'.data, chains[x])} | x in nodes && x != d ::
      SameOn(w.data, w'.data, chains[x])
    ensures chains[next := cs][d := cs'].Keys == nodes'.Keys
    ensures ContentsOk(w'.data, nodes', chains[next := cs][d := cs'])
  {
    NewTable(nodes, nodes', chains, next, d, n, i, cs);
    NewContents(w1.data, w'.data, nodes', next, cs);
    AddedContents(w, w', nodes, nodes', chains, chains[next := cs][d := cs'], next, d, n, i, cs, cs');
  }

  lemma CreatedOthers(w: View, w1: View, w': View, nodes: Nodes, chains: Chains, id: int, d: int, cs: seq<int>,
      cs': seq<int>)
    requires chains.Keys == nodes.Keys && d in nodes && id !in nodes && Prepared(w, w1, nodes, chains, id, cs)
    requires Shape(w') && Grown(w1, w', chains[d], cs')
    ensures forall x {:trigger SameOn(w.data, w'.data, chains[x])} | x in nodes && x != d ::
      SameOn(w.data, w'.data, chains[x])
    ensures SameOn(w1.data, w'.data, cs)
  {
    var all := chains[id := cs];
    GrownSpace(w1, w', all, d, cs');
    assert SameOn(w1.data, w'.data, all[id]);
    forall x | x in nodes && x != d ensures SameOn(w.data, w'.data, chains[x]) {
      assert SameOn(w.data, w1.data, chains[x]) && SameOn(w1.data, w'.data, all[x]);
    }
  }

  /** The parent's directory when its entry is about to be written. */
  lemma ParentReady(w: View, w1: View, nodes: Nodes, chains: Chains, next: int, d: int, cs: seq<int>)
    requires FsOk(w, nodes, chains, next) && Prepared(w, w1, nodes, chains, next, cs) && d in nodes && nodes[d].isDir
    ensures d in chains && d < next && next !in nodes && next !in chains && chains[d] != []
    ensures nodes[d].first == chains[d][0] && |nodes[d].children| == MAX_DIR_ENTRIES
    ensures IsChain(w1.fat, |w1.data|, chains[d]) && Tidy(Dir(w1.data, chains[d]))
    ensures CountUsed(Dir(w1.data, chains[d])) < MAX_TRIES
    ensures Solid(nodes, d)
  {
    assert NodeOk(nodes, chains, d) && TableOk(nodes, d);
    assert EntityOk(w.data, nodes, chains[d], d);
    assert IsChain(w1.fat, |w1.data|, chains[next := cs][d]);
    assert SameOn(w.data, w1.data, chains[d]);
    DirFrame(w.data, w1.data, chains[d]);
    FewUsed(Dir(w.data, chains[d]), nodes, d, nodes[d].children);
  }

  /** Choose a short name and write the entry: the disk half of both create calls. */
  method WriteNew(vol: Volume, dir: u32, name: seq<byte>, attr: byte, first: u32, ghost cs: seq<int>)
    returns (ok: bool, sn: seq<byte>, ghost cs': seq<int>, ghost k: nat)
    requires vol.Valid() && Ranged(vol.v.fat) && IsChain(vol.v.fat, |vol.v.data|, cs) && cs != [] && dir == cs[0]
    requires NoNul(name)
    requires Tidy(Dir(vol.v.data, cs)) && CountUsed(Dir(vol.v.data, cs)) < MAX_TRIES
    modifies vol`disk, vol`cache, vol`v, vol`hint
    ensures vol.Valid() && Shape(vol.v) && Proper(sn) && !Taken(Dir(old(vol.v.data), cs), sn)
    ensures (ok <==> !NoRoom(old(vol.v), cs)) && (!ok ==> vol.v == old(vol.v))
    ensures ok ==> Grown(old(vol.v), vol.v, cs, cs')
    ensures ok ==> Inserted(Dir(old(vol.v.data), cs), Dir(vol.v.data, cs'), Entry(sn, attr, first), k)
    ensures ok && k < |Dir(old(vol.v.data), cs)| ==> cs' == cs
    ensures Spent(old(vol.v), vol.v)
  {
    sn := UniqueShort(vol, name, dir, cs);
    SeenTaken(Dir(vol.v.data, cs), sn);
    ok, cs', k := WriteEntry(vol, dir, Entry(sn, attr, first), cs);
  }

  /** nodes' is nodes with a new child of d in the first free slot of its table. */
  ghost predicate IsAdded(nodes: Nodes, nodes': Nodes, d: int, id: int, name: seq<byte>, isDir: bool, first: u32) {
    && d in nodes && id in nodes' && id !in nodes && nodes'[id].name == name && nodes'[id].isDir == isDir
    && nodes'[id].first == first && nodes'[id].size == 0
    && nodes'[id].parent == d
    && exists i | 0 <= i < |nodes[d].children| ::
      FirstNull(nodes[d].children, i)
        && nodes' == nodes[id := nodes'[id]][d := nodes[d].(children := nodes[d].children[i := id])]
  }

  ghost predicate FirstNull(t: seq<int>, i: nat) {
    i < |t| && t[i] == NULL && forall j | 0 <= j < i :: t[j] != NULL
  }

  lemma AddedIs(nodes: Nodes, nodes': Nodes, d: int, id: int, n: Node, i: nat)
    requires Added(nodes, nodes', d, id, n, i) && FirstNull(nodes[d].children, i) && n.size == 0
    ensures IsAdded(nodes, nodes', d, id, n.name, n.isDir, n.first)
  {
    assert nodes'[id] == n;
  }

  /** The directory at cs, now at cs', has one more entry: in its first free slot, or in a new cluster if it had
      none. */
  ghost predicate Entered(data: seq<Cluster>, data': seq<Cluster>, cs: seq<int>, cs': seq<int>, sn: seq<byte>,
      attr: byte, first: u32) {
    && Inside(|data|, cs) && Inside(|data'|, cs') && Proper(sn)
    && exists k: nat :: Inserted(Dir(data, cs), Dir(data', cs'), Entry(sn, attr, first), k) && (k < |Dir(data, cs)| ==>
      cs' == cs)
  }

  lemma EnteredAt(data: seq<Cluster>, data': seq<Cluster>, cs: seq<int>, cs': seq<int>, sn: seq<byte>, attr: byte,
      first: u32, k: nat)
    requires Inside(|data|, cs) && Inside(|data'|, cs') && Proper(sn)
    requires Inserted(Dir(data, cs), Dir(data', cs'), Entry(sn, attr, first), k)
    requires k < |Dir(data, cs)| ==> cs' == cs
    ensures Entered(data, data', cs, cs', sn, attr, first)
  {
  }

  function NewFor(name: seq<byte>, isDir: bool, first: u32, sn: seq<byte>, d: int): Node {
    Node(name, isDir, 0, first, sn, d, if isDir then seq(MAX_DIR_ENTRIES, _ => NULL) else [])
  }

  /** Write the new node's entry in its parent's directory and hang it in the tree: the tail of both create calls. */
  method Hang(vol: Volume, nodes: Nodes, next: int, d: int, name: seq<byte>, isDir: bool, first: u32, ghost w: View,
      ghost chains: Chains, ghost cs: seq<int>)
    returns (ok: bool, nodes': Nodes, ghost cs': seq<int>)
    requires vol.Valid() && FsOk(w, nodes, chains, next) && Prepared(w, vol.v, nodes, chains, next, cs)
    requires d in nodes && nodes[d].isDir && NULL in nodes[d].children && NoNul(name)
    requires first == (if cs == [] then 0 else cs[0]) && isDir == (cs != []) && Inside(|vol.v.data|, cs)
    requires (isDir ==> DotsAlone(Dir(vol.v.data, cs)))
    modifies vol`disk, vol`cache, vol`v, vol`hint
    ensures vol.Valid() && (!ok ==> vol.v == old(vol.v)) && d in chains && (ok <==> !NoRoom(old(vol.v), chains[d]))
    ensures ok ==> FsOk(vol.v, nodes', chains[next := cs][d := cs'], next + 1)
    ensures ok ==> IsAdded(nodes, nodes', d, next, name, isDir, first)
    ensures ok ==> d in chains && d != next && SameOn(old(vol.v.data), vol.v.data, cs)
    ensures ok ==> Grown(old(vol.v), vol.v, chains[d], cs')
    ensures ok ==>
      Entered(old(vol.v.data), vol.v.data, chains[d], cs', nodes'[next].diskName, AttrOf(isDir), first)
    ensures ok ==> forall x {:trigger SameOn(w.data, vol.v.data, chains[x])} | x in nodes && x != d ::
      SameOn(w.data, vol.v.data, chains[x])
    ensures Spent(old(vol.v), vol.v)
  {
    ghost var w1 := vol.v;
    ParentReady(w, w1, nodes, chains, next, d, cs);
    var attr, sn := AttrOf(isDir), [];
    ghost var k;
    ok, sn, cs', k := WriteNew(vol, nodes[d].first, name, attr, first, chains[d]);
    nodes' := nodes;
    if ok {
      var i := FindNull(nodes[d].children);
      var n := NewFor(name, isDir, first, sn, d);
      nodes' := nodes[next := n][d := nodes[d].(children := nodes[d].children[i := next])];
      Hung(w, w1, vol.v, nodes, nodes', chains, next, d, name, isDir, first, sn, i, cs, cs', k);
    }
  }

  lemma Hung(w: View, w1: View, w': View, nodes: Nodes, nodes': Nodes, chains: Chains, next: int, d: int,
      name: seq<byte>, isDir: bool, first: u32, sn: seq<byte>, i: nat, cs: seq<int>, cs': seq<int>, k: nat)
    requires FsOk(w, nodes, chains, next) && Prepared(w, w1, nodes, chains, next, cs) && d in nodes && nodes[d].isDir
    requires FirstNull(nodes[d].children, i)
    requires first == (if cs == [] then 0 else cs[0]) && isDir == (cs != []) && Inside(|w1.data|, cs)
    requires (isDir ==> DotsAlone(Dir(w1.data, cs)))
    requires d in chains && Shape(w') && Grown(w1, w', chains[d], cs') && Inside(|w1.data|, chains[d]) && Proper(sn)
    requires !Taken(Dir(w1.data, chains[d]), sn)
    requires Inserted(Dir(w1.data, chains[d]), Dir(w'.data, cs'),
      Entry(sn, AttrOf(isDir), first), k)
    requires k < |Dir(w1.data, chains[d])| ==> cs' == chains[d]
    requires nodes' ==
      nodes[next := NewFor(name, isDir, first, sn, d)][d := nodes[d].(children := nodes[d].children[i := next])]
    ensures FsOk(w', nodes', chains[next := cs][d := cs'], next + 1)
    ensures IsAdded(nodes, nodes', d, next, name, isDir, first)
    ensures d != next && SameOn(w1.data, w'.data, cs)
    ensures Entered(w1.data, w'.data, chains[d], cs', nodes'[next].diskName, AttrOf(isDir), first)
    ensures forall x {:trigger SameOn(w.data, w'.data, chains[x])} | x in nodes && x != d ::
      SameOn(w.data, w'.data, chains[x])
  {
    var attr, n := AttrOf(isDir), NewFor(name, isDir, first, sn, d);
    AddedIs(nodes, nodes', d, next, n, i);
    EnteredAt(w1.data, w'.data, chains[d], cs', sn, attr, first, k);
    Created(w, w1, w', nodes, nodes', chains, next, d, n, i, cs, cs', Entry(sn, attr, first), k);
  }

  /** A new file has no clusters yet. */
  lemma PreparedFile(w: View, nodes: Nodes, chains: Chains, next: int)
    requires FsOk(w, nodes, chains, next)
    ensures Prepared(w, w, nodes, chains, next, [])
  {
    assert next !in chains;
    SpaceSet(w, w, chains, next, []);
    forall x {:trigger SameOn(w.data, w.data, chains[x])} | x in nodes && x in chains
      ensures SameOn(w.data, w.data, chains[x])
    {
      assert IsChain(w.fat, |w.data|, chains[x]);
    }
  }

  /** A new directory owns one freshly allocated cluster. */
  lemma PreparedDir(w: View, w1: View, nodes: Nodes, chains: Chains, next: int, c: u32)
    requires FsOk(w, nodes, chains, next) && 2 <= c < |w.data| && w.fat[c] == 0 && w1.fat == w.fat[c := EOC]
    requires |w1.data| == |w.data|
    requires forall d | 0 <= d < |w.data| && d != c as int :: w1.data[d] == w.data[d]
    ensures Prepared(w, w1, nodes, chains, next, [c])
  {
    assert next !in chains && After([c], 0) == EOC;
    SpaceSet(w, w1, chains, next, [c]);
    forall x {:trigger SameOn(w.data, w1.data, chains[x])} | x in nodes && x in chains
      ensures SameOn(w.data, w1.data, chains[x])
    {
      NotInChain(w.fat, |w.data|, chains[x], c);
    }
  }

  lemma OneCluster(data: seq<Cluster>, c: int)
    requires 2 <= c < |data|
    ensures Dir(data, [c]) == Slots(data[c])
  {
    assert [c][..0] == [];
    assert Sectors(data, [c]) == data[c];
  }

  /** Give a new directory its cluster, holding "." and "..". */
  method MakeDots(vol: Volume, parent: u32, nodes: Nodes, next: int, ghost chains: Chains) returns (c: u32)
    requires vol.Valid() && FsOk(vol.v, nodes, chains, next)
    modifies vol`disk, vol`cache, vol`v, vol`hint
    ensures vol.Valid() && Shape(vol.v) && Shape(old(vol.v)) && (c == 0 ==> vol.v == old(vol.v))
    ensures (c == 0 <==> NoneFree(old(vol.v)))
    ensures c != 0 ==> 2 <= c < |vol.v.data| && old(vol.v.fat)[c] == 0 && vol.v.fat == old(vol.v.fat)[c := EOC]
    ensures c != 0 ==> Prepared(old(vol.v), vol.v, nodes, chains, next, [c]) && DotsFor(Dir(vol.v.data, [c]), c, parent)
    ensures Spent(old(vol.v), vol.v) && (c != 0 ==> vol.v.free != UNKNOWN)
  {
    c := vol.AllocCluster();
    if c == 0 { return; }
    vol.WriteEntry(c, EOC);
    WriteDots(vol, c, parent);
    PreparedDir(old(vol.v), vol.v, nodes, chains, next, c);
    OneCluster(vol.v.data, c);
  }

  /** Undoing the allocation of a directory that could not be entered in its parent. */
  lemma DotsUndone(w: View, w1: View, w': View, nodes: Nodes, chains: Chains, next: int, c: u32)
    requires FsOk(w, nodes, chains, next) && 2 <= c < |w.data| && w.fat[c] == 0 && w1.fat == w.fat[c := EOC]
    requires Prepared(w, w1, nodes, chains, next, [c]) && w'.fat == w1.fat[c := 0] && w'.data == w1.data
    ensures w'.fat == w.fat && SameUsed(w, w') && FsOk(w', nodes, chains, next)
  {
    forall e | 2 <= e < |w.data| && w.fat[e] != 0 ensures w'.data[e] == w.data[e] {
      assert Owned(chains, e);
      var x :| x in chains && e in chains[x];
      assert SameOn(w.data, w1.data, chains[x]);
    }
    UsedOnly(w, w', nodes, chains, next);
  }

  /** The directory is full and one cluster is left, which the new directory itself will take. */
  ghost predicate RoomForOne(v: View, cs: seq<int>) {
    Shape(v) && Inside(|v.data|, cs) && Misses(Dir(v.data, cs), Free) && exists c | 2 <= c < |v.data| :: OnlyFree(v, c)
  }

  ghost predicate OnlyFree(v: View, c: int)
    requires Shape(v) && 2 <= c < |v.data|
  {
    v.fat[c] == 0 && forall k | 2 <= k < |v.data| && k != c :: v.fat[k] != 0
  }

  /** Once the new directory has its cluster, the parent has no room exactly when that was the last one. */
  lemma LastOne(w: View, w1: View, nodes: Nodes, chains: Chains, next: int, d: int, c: u32)
    requires FsOk(w, nodes, chains, next) && d in nodes && 2 <= c < |w.data| && w.fat[c] == 0
    requires w1.fat == w.fat[c := EOC] && Shape(w1)
    requires Prepared(w, w1, nodes, chains, next, [c])
    ensures d in chains && (NoRoom(w1, chains[d]) <==> RoomForOne(w, chains[d]))
  {
    assert SameOn(w.data, w1.data, chains[d]) && IsChain(w.fat, |w.data|, chains[d]);
    DirFrame(w.data, w1.data, chains[d]);
    assert NoneFree(w1) <==> OnlyFree(w, c) by {
      if NoneFree(w1) { assert forall k | 2 <= k < |w.data| && k != c as int :: w1.fat[k] == w.fat[k]; }
      if OnlyFree(w, c) { assert forall k | 2 <= k < |w.data| :: w1.fat[k] != 0; }
    }
  }

  /** fs_create_dir once its checks have passed; 0 when the directory could not be entered in its parent. */
  method MakeDir(vol: Volume, nodes: Nodes, next: int, d: int, name: seq<byte>, ghost chains: Chains)
    returns (c: u32, ok: bool, nodes': Nodes, ghost cs': seq<int>)
    requires vol.Valid() && FsOk(vol.v, nodes, chains, next) && d in nodes && nodes[d].isDir
    requires NULL in nodes[d].children && NoNul(name)
    modifies vol`disk, vol`cache, vol`v, vol`hint
    ensures vol.Valid() && Shape(vol.v) && Shape(old(vol.v)) && (c == 0 ==> !ok && vol.v == old(vol.v))
    ensures (c == 0 <==> NoneFree(old(vol.v)))
    ensures d in chains && (c != 0 ==> (ok <==> !RoomForOne(old(vol.v), chains[d])))
    ensures !ok ==> vol.v.fat == old(vol.v.fat) && SameUsed(old(vol.v), vol.v) && FsOk(vol.v, nodes, chains, next)
    ensures ok ==> FsOk(vol.v, nodes', chains[next := [c]][d := cs'], next + 1)
    ensures ok ==> IsAdded(nodes, nodes', d, next, name, true, c)
    ensures ok ==> d in chains && d != next && 2 <= c < |vol.v.data| && DotsFor(Dir(vol.v.data, [c]), c, nodes[d].first)
    ensures ok ==> Entered(old(vol.v.data), vol.v.data, chains[d], cs', nodes'[next].diskName, ATTR_DIRECTORY, c)
    ensures ok ==> forall x {:trigger SameOn(old(vol.v.data), vol.v.data, chains[x])} | x in nodes && x != d ::
      SameOn(old(vol.v.data), vol.v.data, chains[x])
    ensures if ok || c == 0 then Spent(old(vol.v), vol.v) else 0 <= Short(old(vol.v)) ==>
      Short(vol.v) == 1 && vol.v.free == 0
  {
    ghost var w := vol.v;
    nodes', cs', ok := nodes, [], false;
    c := MakeDots(vol, nodes[d].first, nodes, next, chains);
    if c == 0 { return; }
    LastOne(w, vol.v, nodes, chains, next, d, c);
    ok, nodes', cs' := HangDir(vol, nodes, next, d, name, c, w, chains);
  }

  /** Enter a directory that has its cluster in its parent, or give the cluster back. */
  method HangDir(vol: Volume, nodes: Nodes, next: int, d: int, name: seq<byte>, c: u32, ghost w: View,
      ghost chains: Chains)
    returns (ok: bool, nodes': Nodes, ghost cs': seq<int>)
    requires vol.Valid() && FsOk(w, nodes, chains, next) && d in nodes && nodes[d].isDir && NULL in nodes[d].children
    requires NoNul(name)
    requires 2 <= c < |w.data| && w.fat[c] == 0 && vol.v.fat == w.fat[c := EOC]
    requires Prepared(w, vol.v, nodes, chains, next, [c])
    requires DotsFor(Dir(vol.v.data, [c]), c, nodes[d].first) && Spent(w, vol.v) && vol.v.free != UNKNOWN
    modifies vol`disk, vol`cache, vol`v, vol`hint
    ensures vol.Valid() && Shape(vol.v) && d in chains && (ok <==> !NoRoom(old(vol.v), chains[d]))
    ensures !ok ==> vol.v.fat == w.fat && SameUsed(w, vol.v) && FsOk(vol.v, nodes, chains, next)
    ensures ok ==> FsOk(vol.v, nodes', chains[next := [c]][d := cs'], next + 1)
    ensures ok ==> IsAdded(nodes, nodes', d, next, name, true, c)
    ensures ok ==> d != next && c < |vol.v.data| && DotsFor(Dir(vol.v.data, [c]), c, nodes[d].first)
    ensures ok ==> Entered(w.data, vol.v.data, chains[d], cs', nodes'[next].diskName, ATTR_DIRECTORY, c)
    ensures ok ==> forall x {:trigger SameOn(w.data, vol.v.data, chains[x])} | x in nodes && x != d ::
      SameOn(w.data, vol.v.data, chains[x])
    ensures if ok then Spent(w, vol.v) else 0 <= Short(w) ==> Short(vol.v) == 1 && vol.v.free == 0
  {
    ghost var w1 := vol.v;
    ok, nodes', cs' := Hang(vol, nodes, next, d, name, true, c, w, chains, [c]);
    if ok {
      EnteredFrom(w, w1, vol.v, nodes, chains, next, d, c, cs', nodes'[next].diskName);
      DirFrame(w1.data, vol.v.data, [c]);
    } else {
      UndoDots(vol, c, w, nodes, chains, next);
    }
  }

  /** Give a new directory's cluster back. FSInfo, which counted it as taken, is not told. */
  method UndoDots(vol: Volume, c: u32, ghost w: View, ghost nodes: Nodes, ghost chains: Chains, ghost next: int)
    requires vol.Valid() && FsOk(w, nodes, chains, next) && 2 <= c < |w.data| && w.fat[c] == 0
    requires vol.v.fat == w.fat[c := EOC]
    requires Prepared(w, vol.v, nodes, chains, next, [c]) && NoneFree(vol.v) && Spent(w, vol.v) && vol.v.free != UNKNOWN
    modifies vol`disk, vol`cache, vol`v
    ensures vol.Valid() && Shape(vol.v) && vol.v.fat == w.fat && SameUsed(w, vol.v) && FsOk(vol.v, nodes, chains, next)
    ensures 0 <= Short(w) ==> Short(vol.v) == 1 && vol.v.free == 0
  {
    ghost var w1 := vol.v;
    CountNone(w1.fat, 2, |w1.data|);
    CountSet(w1.fat, 2, |w1.data|, c, 0);
    vol.WriteEntry(c, 0);
    DotsUndone(w, w1, vol.v, nodes, chains, next, c);
  }

  /** The new directory's own cluster is none of its parent's. */
  lemma EnteredFrom(w: View, w1: View, w': View, nodes: Nodes, chains: Chains, next: int, d: int, c: u32,
      cs': seq<int>, sn: seq<byte>)
    requires FsOk(w, nodes, chains, next) && d in nodes && d in chains && Prepared(w, w1, nodes, chains, next, [c])
    requires Entered(w1.data, w'.data, chains[d], cs', sn, ATTR_DIRECTORY, c)
    ensures Entered(w.data, w'.data, chains[d], cs', sn, ATTR_DIRECTORY, c)
  {
    assert SameOn(w.data, w1.data, chains[d]) && IsChain(w.fat, |w.data|, chains[d]);
    DirFrame(w.data, w1.data, chains[d]);
  }
}
