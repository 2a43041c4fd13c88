/** The whole FAT file system state: cluster ownership, the in-memory tree and
    its agreement with the disk, and what each operation does to them. */
module FatFs {
  import opened Bytes
  import opened FatDisk
  import opened FatChain
  import opened FatFile
  import opened FatIo
  import opened FatDir
  import opened FatName
  import opened FatTree

  type Chains = map<int, seq<int>>

  // ---- the tree ----

  ghost predicate NodeOk(nodes: Nodes, chains: Chains, id: int)
    requires id in nodes && id in chains
  {
    var n, cs := nodes[id], chains[id];
    && id > NULL && n.first == (if cs == [] then 0 else cs[0])
    && (id != ROOT ==> n.parent in nodes && n.parent < id && nodes[n.parent].isDir && Proper(n.diskName))
    && if n.isDir then cs != [] && n.size == 0 && |n.children| == MAX_DIR_ENTRIES else n.children == []
  }

  /** A child table lists exactly the children, once each; a freed child may still be listed. */
  ghost predicate TableOk(nodes: Nodes, d: int)
    requires d in nodes
  {
    var t := nodes[d].children;
    && (forall i | 0 <= i < |t| && t[i] != NULL && t[i] in nodes :: IsChild(nodes, d, t[i]))
    && (forall i, j | 0 <= i < j < |t| && t[i] == t[j] :: t[i] == NULL)
    && forall id | IsChild(nodes, d, id) :: id in t
  }

  /** No freed child is listed. */
  ghost predicate Solid(nodes: Nodes, d: int)
    requires d in nodes
  {
    forall i | 0 <= i < |nodes[d].children| && nodes[d].children[i] != NULL :: nodes[d].children[i] in nodes
  }

  ghost predicate Tree(nodes: Nodes, chains: Chains, next: int) {
    && chains.Keys == nodes.Keys && ROOT in nodes && nodes[ROOT].isDir
    && (forall id | id in nodes :: id < next)
    && forall id {:trigger NodeOk(nodes, chains, id)} {:trigger TableOk(nodes, id)} | id in nodes ::
      NodeOk(nodes, chains, id) && TableOk(nodes, id)
  }

  // ---- agreement with the disk ----

  ghost predicate DirOk(data: seq<Cluster>, nodes: Nodes, cs: seq<int>, d: int) {
    Inside(|data|, cs) && Agrees(Dir(data, cs), nodes, d)
  }

  ghost predicate FileOk(data: seq<Cluster>, size: u32, cs: seq<int>) {
    Inside(|data|, cs) && size <= SECTOR_SIZE * |Sectors(data, cs)|
  }

  ghost predicate EntityOk(data: seq<Cluster>, nodes: Nodes, cs: seq<int>, id: int)
    requires id in nodes
  {
    if nodes[id].isDir then DirOk(data, nodes, cs, id) && Solid(nodes, id) else FileOk(data, nodes[id].size, cs)
  }

  ghost predicate ContentsOk(data: seq<Cluster>, nodes: Nodes, chains: Chains)
    requires chains.Keys == nodes.Keys
  {
    forall id {:trigger EntityOk(data, nodes, chains[id], id)} | id in nodes :: EntityOk(data, nodes, chains[id], id)
  }

  ghost predicate FsOk(v: View, nodes: Nodes, chains: Chains, next: int) {
    Space(v, chains) && Tree(nodes, chains, next) && ContentsOk(v.data, nodes, chains)
  }

  // ---- steps that leave the tree alone ----

  ghost predicate SameOn(data: seq<Cluster>, data': seq<Cluster>, cs: seq<int>) {
    |data'| == |data| && forall c | c in cs :: 0 <= c < |data| && data'[c] == data[c]
  }

  lemma DirKept(data: seq<Cluster>, data': seq<Cluster>, nodes: Nodes, nodes': Nodes, cs: seq<int>, d: int)
    requires DirOk(data, nodes, cs, d) && SameOn(data, data', cs) && SameChildren(nodes, nodes', d)
    ensures DirOk(data', nodes', cs, d)
  {
    DirFrame(data, data', cs);
    AgreesFrame(Dir(data, cs), nodes, nodes', d);
  }

  lemma FileKept(data: seq<Cluster>, data': seq<Cluster>, size: u32, cs: seq<int>)
    requires FileOk(data, size, cs) && SameOn(data, data', cs)
    ensures FileOk(data', size, cs) && Content(Sectors(data', cs), size) == Content(Sectors(data, cs), size)
  {
    SectorsFrame(data, data', cs);
  }

  /** A node keeps its contents when its clusters and its children do. */
  lemma EntityKept(data: seq<Cluster>, data': seq<Cluster>, nodes: Nodes, nodes': Nodes, cs: seq<int>, id: int)
    requires id in nodes && id in nodes' && EntityOk(data, nodes, cs, id) && SameOn(data, data', cs)
    requires nodes'[id] == nodes[id] && (nodes[id].isDir ==> SameChildren(nodes, nodes', id) && Solid(nodes', id))
    ensures EntityOk(data', nodes', cs, id)
  {
    if nodes[id].isDir { DirKept(data, data', nodes, nodes', cs, id); }
      else { FileKept(data, data', nodes[id].size, cs); }
  }

  /** Clusters in use are the same in both views. */
  ghost predicate SameUsed(v: View, v': View) {
    |v'.data| == |v.data| <= |v.fat| && forall c | 2 <= c < |v.data| && v.fat[c] != 0 :: v'.data[c] == v.data[c]
  }

  lemma UsedSame(v: View, v': View, cs: seq<int>)
    requires IsChain(v.fat, |v.data|, cs) && SameUsed(v, v')
    ensures SameOn(v.data, v'.data, cs)
  {
    forall c | c in cs ensures 2 <= c < |v.data| && v.fat[c] != 0 { ChainUsed(v.fat, |v.data|, cs, c); }
  }

  lemma ContentsUsed(v: View, v': View, nodes: Nodes, chains: Chains)
    requires Space(v, chains) && chains.Keys == nodes.Keys && ContentsOk(v.data, nodes, chains) && SameUsed(v, v')
    ensures ContentsOk(v'.data, nodes, chains)
  {
    forall id | id in nodes ensures EntityOk(v'.data, nodes, chains[id], id) {
      UsedSame(v, v', chains[id]);
      EntityKept(v.data, v'.data, nodes, nodes, chains[id], id);
    }
  }

  /** Data of free clusters does not matter. */
  lemma UsedOnly(v: View, v': View, nodes: Nodes, chains: Chains, next: int)
    requires FsOk(v, nodes, chains, next) && v'.fat == v.fat && SameUsed(v, v')
    ensures FsOk(v', nodes, chains, next)
  {
    ContentsUsed(v, v', nodes, chains);
  }

  // ---- adding a node ----

  /** nodes' is nodes with a new child of d in the free table slot i. */
  ghost predicate Added(nodes: Nodes, nodes': Nodes, d: int, id: int, n: Node, i: nat) {
    && d in nodes && nodes[d].isDir && id !in nodes && id != ROOT && id > d && n.parent == d
    && i < |nodes[d].children| && nodes[d].children[i] == NULL
    && nodes' == nodes[id := n][d := nodes[d].(children := nodes[d].children[i := id])]
  }

  /** A node as the create operations make it. */
  ghost predicate NewNode(n: Node, cs: seq<int>) {
    && Proper(n.diskName) && n.size == 0 && n.first == (if cs == [] then 0 else cs[0])
    && if n.isDir then cs != [] && |n.children| == MAX_DIR_ENTRIES && forall i | 0 <= i < MAX_DIR_ENTRIES ::
      n.children[i] == NULL else n.children == []
  }

  lemma AddedChild(nodes: Nodes, nodes': Nodes, chains: Chains, next: int, d: int, n: Node, i: nat, x: int, y: int)
    requires Tree(nodes, chains, next) && Added(nodes, nodes', d, next, n, i)
    ensures IsChild(nodes', x, y) == if y == next then x == d else IsChild(nodes, x, y)
    ensures IsChild(nodes, x, y) ==> x in nodes
    ensures IsChild(nodes, x, y) ==>
      nodes'[y] == (if y == d then nodes[y].(children := nodes'[y].children) else nodes[y])
  {
    if IsChild(nodes, x, y) { assert NodeOk(nodes, chains, y); }
  }

  lemma AddedTable(nodes: Nodes, nodes': Nodes, chains: Chains, next: int, d: int, n: Node, i: nat, x: int)
    requires Tree(nodes, chains, next) && Added(nodes, nodes', d, next, n, i) && x in nodes && Solid(nodes, x)
    ensures TableOk(nodes', x) && Solid(nodes', x)
  {
    assert TableOk(nodes, x);
    var t, t' := nodes[x].children, nodes'[x].children;
    forall j | 0 <= j < |t'| && t'[j] != NULL && t'[j] in nodes' ensures IsChild(nodes', x, t'[j]) {
      AddedChild(nodes, nodes', chains, next, d, n, i, x, t'[j]);
    }
    forall y | IsChild(nodes', x, y) ensures y in t' {
      AddedChild(nodes, nodes', chains, next, d, n, i, x, y);
      if y == next { assert t'[i] == next; }
      else {
        assert NodeOk(nodes, chains, y);
        var j :| 0 <= j < |t| && t[j] == y;
        assert t'[j] == y;
      }
    }
  }

  ghost predicate AllSolid(nodes: Nodes) {
    forall x | x in nodes :: Solid(nodes, x)
  }

  lemma AllSolidOf(data: seq<Cluster>, nodes: Nodes, chains: Chains, next: int)
    requires Tree(nodes, chains, next) && ContentsOk(data, nodes, chains)
    ensures AllSolid(nodes)
  {
    forall x | x in nodes ensures Solid(nodes, x) {
      assert NodeOk(nodes, chains, x);
      assert EntityOk(data, nodes, chains[x], x);
    }
  }

  /** The tree stays well formed when a node is added and its parent's chain grows. */
  lemma AddedTree(nodes: Nodes, nodes': Nodes, chains: Chains, chains': Chains, next: int, d: int, n: Node, i: nat,
      cs: seq<int>, cs': seq<int>)
    requires Tree(nodes, chains, next) && AllSolid(nodes) && Added(nodes, nodes', d, next, n, i) && NewNode(n, cs)
    requires chains' == chains[next := cs][d := cs'] && cs' != [] && chains[d] != [] && cs'[0] == chains[d][0]
    ensures Tree(nodes', chains', next + 1) && AllSolid(nodes')
  {
    forall x | x in nodes'
      ensures x < next + 1 && NodeOk(nodes', chains', x) && TableOk(nodes', x) && Solid(nodes', x)
    {
      if x == next { NewTable(nodes, nodes', chains, next, d, n, i, cs); }
      else {
        AddedTable(nodes, nodes', chains, next, d, n, i, x);
        AddedNode(nodes, nodes', chains, chains', next, d, n, i, x);
      }
    }
  }

  lemma AddedNode(nodes: Nodes, nodes': Nodes, chains: Chains, chains': Chains, next: int, d: int, n: Node, i: nat,
      x: int)
    requires Tree(nodes, chains, next) && Added(nodes, nodes', d, next, n, i) && x in nodes && x in chains'
    requires if x == d then chains'[x] != [] && chains[x] != [] && chains'[x][0] == chains[x][0]
      else chains'[x] == chains[x]
    ensures x < next && NodeOk(nodes', chains', x)
  {
    assert NodeOk(nodes, chains, x);
  }

  lemma NewTable(nodes: Nodes, nodes': Nodes, chains: Chains, next: int, d: int, n: Node, i: nat, cs: seq<int>)
    requires Tree(nodes, chains, next) && Added(nodes, nodes', d, next, n, i) && NewNode(n, cs)
    ensures TableOk(nodes', next) && Solid(nodes', next) && forall y :: !IsChild(nodes', next, y)
  {
    forall y ensures !IsChild(nodes', next, y) { AddedChild(nodes, nodes', chains, next, d, n, i, next, y); }
  }

  lemma AddedSiblings(nodes: Nodes, nodes': Nodes, chains: Chains, next: int, d: int, n: Node, i: nat, x: int)
    requires Tree(nodes, chains, next) && Added(nodes, nodes', d, next, n, i) && x != d && x in nodes
    ensures SameChildren(nodes, nodes', x)
  {
    forall y {:trigger IsChild(nodes, x, y)} {:trigger IsChild(nodes', x, y)}
      ensures IsChild(nodes, x, y) == IsChild(nodes', x, y)
      ensures (IsChild(nodes, x, y) ==> nodes'[y] == nodes[y].(children := nodes'[y].children))
    {
      AddedChild(nodes, nodes', chains, next, d, n, i, x, y);
    }
  }

  /** The parent agrees with its directory again once the entry is on disk. */
  lemma AddedParent(slots: seq<Slot>, slots': seq<Slot>, nodes: Nodes, nodes': Nodes, chains: Chains, next: int,
      d: int, n: Node, i: nat, e: Slot, k: nat)
    requires Tree(nodes, chains, next) && Added(nodes, nodes', d, next, n, i) && Agrees(slots, nodes, d)
    requires Inserted(slots, slots', e, k) && Proper(NameOf(e)) && !Taken(slots, NameOf(e)) && Matches(n, e)
    ensures Agrees(slots', nodes', d)
  {
    forall y {:trigger IsChild(nodes', d, y)} {:trigger IsChild(nodes, d, y)} | y != next
      ensures IsChild(nodes', d, y) == IsChild(nodes, d, y) && (IsChild(nodes, d, y) ==> nodes'[y] == nodes[y])
    {
      AddedChild(nodes, nodes', chains, next, d, n, i, d, y);
      if IsChild(nodes, d, y) { assert NodeOk(nodes, chains, y); }
    }
    AgreesInsert(slots, slots', nodes, nodes', d, next, e, k);
  }

  lemma AddedContents(v: View, v': View, nodes: Nodes, nodes': Nodes, chains: Chains, chains': Chains, next: int,
      d: int, n: Node, i: nat, cs: seq<int>, cs': seq<int>)
    requires Tree(nodes, chains, next) && AllSolid(nodes') && ContentsOk(v.data, nodes, chains)
    requires Added(nodes, nodes', d, next, n, i)
    requires chains' == chains[next := cs][d := cs'] && DirOk(v'.data, nodes', cs', d)
    requires EntityOk(v'.data, nodes', cs, next)
    requires forall x {:trigger SameOn(v.data, v'.data, chains[x])} | x in nodes && x != d ::
      SameOn(v.data, v'.data, chains[x])
    ensures chains'.Keys == nodes'.Keys && ContentsOk(v'.data, nodes', chains')
  {
    forall x | x in nodes' ensures EntityOk(v'.data, nodes', chains'[x], x) {
      if x != next && x != d {
        AddedSiblings(nodes, nodes', chains, next, d, n, i, x);
        EntityKept(v.data, v'.data, nodes, nodes', chains[x], x);
      }
    }
  }

  // ---- giving a file another chain ----

  /** nodes' is nodes with a file repointed. */
  ghost predicate Repointed(nodes: Nodes, nodes': Nodes, id: int, first: u32, size: u32) {
    id in nodes && id != ROOT && !nodes[id].isDir && nodes' == nodes[id := nodes[id].(first := first, size := size)]
  }

  lemma RepointedTree(nodes: Nodes, nodes': Nodes, chains: Chains, chains': Chains, next: int, id: int, cs: seq<int>,
      size: u32)
    requires Tree(nodes, chains, next) && AllSolid(nodes) && cs != [] && 0 <= cs[0] < 0x1_0000_0000
    requires Repointed(nodes, nodes', id, cs[0], size)
    requires chains' == chains[id := cs]
    ensures Tree(nodes', chains', next) && AllSolid(nodes')
  {
    forall x | x in nodes' ensures x < next && NodeOk(nodes', chains', x) && TableOk(nodes', x) && Solid(nodes', x) {
      assert NodeOk(nodes, chains, x) && TableOk(nodes, x) && Solid(nodes, x);
      RepointedTable(nodes, nodes', id, cs[0], size, x);
    }
  }

  lemma RepointedTable(nodes: Nodes, nodes': Nodes, id: int, first: u32, size: u32, x: int)
    requires Repointed(nodes, nodes', id, first, size) && x in nodes && TableOk(nodes, x) && Solid(nodes, x)
    ensures TableOk(nodes', x) && Solid(nodes', x)
  {
    forall y ensures IsChild(nodes', x, y) == IsChild(nodes, x, y) { }
  }

  lemma RepointedSiblings(nodes: Nodes, nodes': Nodes, id: int, first: u32, size: u32, x: int)
    requires Repointed(nodes, nodes', id, first, size) && x != nodes[id].parent
    ensures SameChildren(nodes, nodes', x)
  {
  }

  /** The parent agrees with its directory again once the entry is repointed. */
  lemma RepointedParent(slots: seq<Slot>, slots': seq<Slot>, nodes: Nodes, nodes': Nodes, d: int, id: int, first: u32,
      size: u32, k: nat)
    requires Repointed(nodes, nodes', id, first, size) && Agrees(slots, nodes, d) && IsChild(nodes, d, id)
    requires Proper(nodes[id].diskName)
    requires k < |slots| && NameOf(slots[k]) == nodes[id].diskName
    requires slots' == slots[k := Repoint(slots[k], first, size)]
    ensures Agrees(slots', nodes', d)
  {
    var e := Repoint(slots[k], first, size);
    RepointKeeps(slots[k], first, size);
    assert NameOf(slots[k])[0] == slots[k][0];
    OneSlot(slots, nodes, d, id, k);
    assert forall y {:trigger IsChild(nodes', d, y)} {:trigger IsChild(nodes, d, y)} ::
      IsChild(nodes', d, y) == IsChild(nodes, d, y);
    AgreesUpdate(slots, slots', nodes, nodes', d, id, k, e);
  }

  lemma RepointedContents(data: seq<Cluster>, data': seq<Cluster>, nodes: Nodes, nodes': Nodes, chains: Chains,
      chains': Chains, next: int, id: int, cs: seq<int>, first: u32, size: u32)
    requires Tree(nodes, chains, next) && AllSolid(nodes') && ContentsOk(data, nodes, chains)
    requires Repointed(nodes, nodes', id, first, size)
    requires chains' == chains[id := cs] && FileOk(data', size, cs) && nodes[id].parent in nodes
    requires DirOk(data', nodes', chains[nodes[id].parent], nodes[id].parent)
    requires forall x {:trigger SameOn(data, data', chains[x])} | x in nodes && x != id && x != nodes[id].parent ::
      SameOn(data, data', chains[x])
    ensures chains'.Keys == nodes'.Keys && ContentsOk(data', nodes', chains')
  {
    var d := nodes[id].parent;
    forall x | x in nodes' ensures EntityOk(data', nodes', chains'[x], x) {
      if x != id && x != d {
        RepointedSiblings(nodes, nodes', id, first, size, x);
        assert EntityOk(data, nodes, chains[x], x);
        EntityKept(data, data', nodes, nodes', chains[x], x);
      } else if x == d {
        assert NodeOk(nodes, chains, id);
      }
    }
  }

  // ---- deleting a subtree ----

  /** R holds the children of its members. */
  ghost predicate Closed(nodes: Nodes, R: set<int>) {
    ROOT !in R && forall x {:trigger x in R} | x in nodes && x != ROOT && nodes[x].parent in R :: x in R
  }

  /** R is exactly the node id and everything below it. */
  ghost predicate Subtree(nodes: Nodes, id: int, R: set<int>) {
    && Closed(nodes, R) && id in R && R <= nodes.Keys
    && forall x {:trigger x in R} | x in R :: x >= id && (x == id || nodes[x].parent in R)
  }

  lemma WithoutTree(nodes: Nodes, chains: Chains, next: int, R: set<int>)
    requires Tree(nodes, chains, next) && Closed(nodes, R)
    ensures Tree(nodes - R, chains - R, next)
  {
    var nodes', chains' := nodes - R, chains - R;
    forall x | x in nodes' ensures x < next && NodeOk(nodes', chains', x) && TableOk(nodes', x) {
      assert NodeOk(nodes, chains, x) && TableOk(nodes, x);
      WithoutTable(nodes, R, x);
    }
  }

  lemma WithoutTable(nodes: Nodes, R: set<int>, x: int)
    requires x in nodes && x !in R && TableOk(nodes, x)
    ensures TableOk(nodes - R, x)
  {
    var nodes' := nodes - R;
    forall y ensures IsChild(nodes', x, y) == (IsChild(nodes, x, y) && y !in R) { }
  }

  /** Deleting below one more child. */
  lemma MoreRemoved(nodes: Nodes, R: set<int>, now: Nodes, c: int, Rc: set<int>)
    requires Closed(nodes, R) && now == nodes - R && Subtree(now, c, Rc)
    ensures Closed(nodes, R + Rc) && now - Rc == nodes - (R + Rc)
  {
    forall x {:trigger x in R + Rc} | x in nodes && x != ROOT && nodes[x].parent in R + Rc ensures x in R + Rc {
      if x !in R { assert x in now && now[x].parent in Rc; }
    }
  }

  /** nodes' is nodes without a subtree, its slot in the parent's table cleared. */
  ghost predicate Removed(nodes: Nodes, nodes': Nodes, d: int, id: int, R: set<int>, i: nat) {
    && Subtree(nodes, id, R) && IsChild(nodes, d, id) && d in nodes && d !in R && i < |nodes[d].children|
    && nodes[d].children[i] == id
    && nodes' == (nodes - R)[d := nodes[d].(children := nodes[d].children[i := NULL])]
  }

  lemma RemovedChild(nodes: Nodes, nodes': Nodes, d: int, id: int, R: set<int>, i: nat, x: int, y: int)
    requires Removed(nodes, nodes', d, id, R, i) && x !in R
    ensures IsChild(nodes', x, y) == (IsChild(nodes, x, y) && y != id)
    ensures IsChild(nodes', x, y) ==>
      nodes'[y] == if y == d then nodes[y].(children := nodes'[y].children) else nodes[y]
  {
    if IsChild(nodes, x, y) && y in R { assert nodes[y].parent !in R; }
  }

  lemma RemovedTree(nodes: Nodes, nodes': Nodes, chains: Chains, next: int, d: int, id: int, R: set<int>, i: nat)
    requires Tree(nodes, chains, next) && AllSolid(nodes) && Removed(nodes, nodes', d, id, R, i)
    ensures Tree(nodes', chains - R, next) && AllSolid(nodes')
  {
    forall x | x in nodes' ensures x < next && NodeOk(nodes', chains - R, x) && TableOk(nodes', x) && Solid(nodes', x) {
      assert NodeOk(nodes, chains, x) && TableOk(nodes, x) && Solid(nodes, x);
      RemovedTable(nodes, nodes', d, id, R, i, x);
    }
  }

  lemma RemovedTable(nodes: Nodes, nodes': Nodes, d: int, id: int, R: set<int>, i: nat, x: int)
    requires Removed(nodes, nodes', d, id, R, i) && x in nodes && x !in R && TableOk(nodes, x) && Solid(nodes, x)
    ensures TableOk(nodes', x) && Solid(nodes', x)
  {
    var t, t' := nodes[x].children, nodes'[x].children;
    forall j | 0 <= j < |t'| && t'[j] != NULL ensures IsChild(nodes', x, t'[j]) {
      assert t'[j] == t[j] && IsChild(nodes, x, t[j]);
      RemovedChild(nodes, nodes', d, id, R, i, x, t[j]);
    }
    forall y | IsChild(nodes', x, y) ensures y in t' {
      RemovedChild(nodes, nodes', d, id, R, i, x, y);
      var j :| 0 <= j < |t| && t[j] == y;
      assert t'[j] == y;
    }
  }

  lemma RemovedSiblings(nodes: Nodes, nodes': Nodes, d: int, id: int, R: set<int>, i: nat, x: int)
    requires Removed(nodes, nodes', d, id, R, i) && x !in R && x != d
    ensures SameChildren(nodes, nodes', x)
  {
    forall y {:trigger IsChild(nodes, x, y)} {:trigger IsChild(nodes', x, y)}
      ensures IsChild(nodes, x, y) == IsChild(nodes', x, y)
      ensures (IsChild(nodes, x, y) ==> nodes'[y] == nodes[y].(children := nodes'[y].children))
    {
      RemovedChild(nodes, nodes', d, id, R, i, x, y);
    }
  }

  lemma RemovedParent(slots: seq<Slot>, slots': seq<Slot>, nodes: Nodes, nodes': Nodes, d: int, id: int, R: set<int>,
      i: nat, k: nat, e: Slot)
    requires Removed(nodes, nodes', d, id, R, i) && Agrees(slots, nodes, d) && Proper(nodes[id].diskName)
    requires forall y | IsChild(nodes, d, y) :: y != d
    requires k < |slots| && NameOf(slots[k]) == nodes[id].diskName && e[0] == DELETED && slots' == slots[k := e]
    ensures Agrees(slots', nodes', d)
  {
    assert NameOf(slots[k])[0] == slots[k][0];
    OneSlot(slots, nodes, d, id, k);
    forall y {:trigger IsChild(nodes', d, y)} {:trigger IsChild(nodes, d, y)} | y != id
      ensures IsChild(nodes', d, y) == IsChild(nodes, d, y) && (IsChild(nodes, d, y) ==> nodes'[y] == nodes[y])
    {
      RemovedChild(nodes, nodes', d, id, R, i, d, y);
    }
    RemovedChild(nodes, nodes', d, id, R, i, d, id);
    AgreesRemove(slots, slots', nodes, nodes', d, id, k, e);
  }

  lemma RemovedContents(data: seq<Cluster>, data': seq<Cluster>, nodes: Nodes, nodes': Nodes, chains: Chains, d: int,
      id: int, R: set<int>, i: nat)
    requires chains.Keys == nodes.Keys && AllSolid(nodes') && ContentsOk(data, nodes, chains)
    requires Removed(nodes, nodes', d, id, R, i)
    requires nodes[d].isDir && DirOk(data', nodes', chains[d], d)
    requires forall x {:trigger SameOn(data, data', chains[x])} | x in nodes && x != d :: SameOn(data, data', chains[x])
    ensures (chains - R).Keys == nodes'.Keys && ContentsOk(data', nodes', chains - R)
  {
    forall x | x in nodes' ensures EntityOk(data', nodes', (chains - R)[x], x) {
      if x != d {
        RemovedSiblings(nodes, nodes', d, id, R, i, x);
        assert EntityOk(data, nodes, chains[x], x);
        EntityKept(data, data', nodes, nodes', chains[x], x);
      }
    }
  }
}
