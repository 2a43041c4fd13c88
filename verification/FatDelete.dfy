/** Deleting an entry and everything below it. */
module FatDelete {
  import opened Bytes
  import opened FatDisk
  import opened FatChain
  import opened FatFile
  import opened FatVolume
  import opened FatDir
  import opened FatName
  import opened FatTree
  import opened FatFs

  /** Cluster ownership and tree of a file system in the middle of a deletion. */
  ghost predicate Deleting(v: View, nodes: Nodes, chains: Chains, next: int, id: int) {
    && Space(v, chains) && Tree(nodes, chains, next) && id in nodes && id != ROOT
    && forall x {:trigger Solid(nodes, x)} | x in nodes && x >= id :: Solid(nodes, x)
  }

  /** The children removed so far: everything below the first i table slots of id. */
  ghost predicate Below(nodes: Nodes, id: int, i: nat, R: set<int>) {
    && id in nodes && i <= |nodes[id].children| && Closed(nodes, R) && R <= nodes.Keys
    && (forall x {:trigger x in R} | x in R ::
      x > id && (nodes[x].parent in R || (nodes[x].parent == id && x in nodes[id].children[..i])))
    && forall j | 0 <= j < i && nodes[id].children[j] != NULL :: nodes[id].children[j] in R
  }

  lemma BelowStep(nodes: Nodes, id: int, i: nat, R: set<int>, c: int, Rc: set<int>)
    requires Below(nodes, id, i, R) && TableOk(nodes, id) && i < |nodes[id].children|
    requires c == nodes[id].children[i] != NULL && c > id
    requires Subtree(nodes - R, c, Rc) && nodes[c].parent == id
    ensures Below(nodes, id, i + 1, R + Rc) && (nodes - R) - Rc == nodes - (R + Rc)
  {
    MoreRemoved(nodes, R, nodes - R, c, Rc);
    var t := nodes[id].children;
    assert t[..i + 1] == t[..i] + [c];
  }

  lemma BelowSkip(nodes: Nodes, id: int, i: nat, R: set<int>)
    requires Below(nodes, id, i, R) && i < |nodes[id].children| && nodes[id].children[i] == NULL
    ensures Below(nodes, id, i + 1, R)
  {
    assert nodes[id].children[..i + 1] == nodes[id].children[..i] + [NULL];
  }

  /** Once every child's subtree is gone, the node itself completes its own subtree. */
  lemma BelowAll(nodes: Nodes, id: int, R: set<int>)
    requires id in nodes && Below(nodes, id, |nodes[id].children|, R) && TableOk(nodes, id) && id != ROOT
    requires forall x | IsChild(nodes, id, x) :: x != NULL
    ensures Subtree(nodes, id, R + {id})
  {
    var t := nodes[id].children;
    forall x {:trigger x in R + {id}} | x in nodes && x != ROOT && nodes[x].parent in R + {id} ensures x in R + {id} {
      if nodes[x].parent == id {
        assert IsChild(nodes, id, x);
        var j :| 0 <= j < |t| && t[j] == x;
      }
    }
  }

  /** The next child to delete is still there. */
  lemma BelowNext(nodes: Nodes, chains: Chains, next: int, id: int, i: nat, R: set<int>)
    requires Tree(nodes, chains, next) && Below(nodes, id, i, R) && Solid(nodes, id) && i < |nodes[id].children|
    requires nodes[id].children[i] != NULL
    ensures var c := nodes[id].children[i]; c in nodes && c !in R && c != ROOT && nodes[c].parent == id && c > id
  {
    var t := nodes[id].children;
    assert TableOk(nodes, id);
    assert IsChild(nodes, id, t[i]);
    assert NodeOk(nodes, chains, t[i]);
    assert t[i] !in t[..i];
  }

  /** Tables below id that survive list no removed node. */
  lemma BelowSolid(nodes: Nodes, chains: Chains, next: int, id: int, i: nat, R: set<int>, x: int)
    requires Tree(nodes, chains, next) && Below(nodes, id, i, R) && x in nodes && x !in R && x > id && Solid(nodes, x)
    ensures Solid(nodes - R, x)
  {
    var t := nodes[x].children;
    assert TableOk(nodes, x);
    forall j | 0 <= j < |t| && t[j] != NULL ensures t[j] !in R { assert IsChild(nodes, x, t[j]); }
  }

  lemma BelowDeleting(v: View, v': View, nodes: Nodes, chains: Chains, next: int, id: int, i: nat, R: set<int>)
    requires Deleting(v, nodes, chains, next, id) && Below(nodes, id, i, R) && Space(v', chains - R)
    requires i < |nodes[id].children| && nodes[id].children[i] != NULL
    ensures Deleting(v', nodes - R, chains - R, next, nodes[id].children[i])
    ensures nodes[id].children[i] > id && nodes[nodes[id].children[i]].parent == id
  {
    assert Solid(nodes, id);
    BelowNext(nodes, chains, next, id, i, R);
    WithoutTree(nodes, chains, next, R);
    forall x {:trigger Solid(nodes - R, x)} | x in nodes - R && x >= nodes[id].children[i] ensures Solid(nodes - R, x) {
      assert Solid(nodes, x);
      BelowSolid(nodes, chains, next, id, i, R, x);
    }
  }

  /** Freeing an owner's whole chain removes the owner. */
  lemma FreedOne(v: View, v': View, chains: Chains, id: int)
    requires Space(v, chains) && id in chains && Shape(v') && |v'.data| == |v.data| && Ranged(v'.fat)
    requires Cleared(v.fat, v'.fat, chains[id])
    ensures Space(v', chains - {id})
  {
    SpaceSet(v, v', chains, id, []);
    SpaceDrop(v', chains[id := []], id);
    assert chains[id := []] - {id} == chains - {id};
  }

  lemma ChildrenReal(nodes: Nodes, chains: Chains, next: int, id: int)
    requires Tree(nodes, chains, next)
    ensures forall x | IsChild(nodes, id, x) :: x != NULL
  {
    forall x | IsChild(nodes, id, x) ensures x != NULL { assert NodeOk(nodes, chains, x); }
  }

  /** Free a node's own chain. */
  method FreeNode(vol: Volume, first: u32, id: int, ghost chains: Chains)
    requires vol.Valid() && Space(vol.v, chains) && id in chains
    requires first == (if chains[id] == [] then 0 else chains[id][0])
    modifies vol`disk, vol`cache, vol`v, vol`hint
    ensures vol.Valid() && Space(vol.v, chains - {id}) && vol.v.data == old(vol.v.data)
    ensures GivenBack(old(vol.v), vol.v)
  {
    assert IsChain(vol.v.fat, |vol.v.data|, chains[id]);
    if first != 0 { vol.FreeChain(first, chains[id]); }
    FreedOne(old(vol.v), vol.v, chains, id);
  }

  // fs_delete_entry_recursive. The dying node's table is freed with it, so its slots are not cleared one by one.
  method DeleteRec(vol: Volume, nodes: Nodes, next: int, id: int, ghost chains: Chains)
    returns (nodes': Nodes, ghost R: set<int>)
    requires vol.Valid() && Deleting(vol.v, nodes, chains, next, id)
    modifies vol`disk, vol`cache, vol`v, vol`hint
    ensures vol.Valid() && Subtree(nodes, id, R) && nodes' == nodes - R && Space(vol.v, chains - R)
    ensures vol.v.data == old(vol.v.data)
    ensures GivenBack(old(vol.v), vol.v)
    decreases next - id
  {
    nodes', R := nodes, {};
    assert NodeOk(nodes, chains, id) && TableOk(nodes, id);
    var t := nodes[id].children;
    assert chains - R == chains && nodes - R == nodes;
    for i := 0 to |t|
      invariant vol.Valid() && vol.v.data == old(vol.v.data) && nodes' == nodes - R && Below(nodes, id, i, R)
      invariant Space(vol.v, chains - R)
      invariant GivenBack(old(vol.v), vol.v)
    {
      if t[i] != NULL {
        BelowDeleting(old(vol.v), vol.v, nodes, chains, next, id, i, R);
        ghost var Rc;
        nodes', Rc := DeleteRec(vol, nodes', next, t[i], chains - R);
        BelowStep(nodes, id, i, R, t[i], Rc);
        assert (chains - R) - Rc == chains - (R + Rc);
        R := R + Rc;
      } else {
        BelowSkip(nodes, id, i, R);
      }
    }
    FreeNode(vol, nodes[id].first, id, chains - R);
    ChildrenReal(nodes, chains, next, id);
    BelowAll(nodes, id, R);
    assert (chains - R) - {id} == chains - (R + {id}) && (nodes - R) - {id} == nodes - (R + {id});
    nodes', R := nodes' - {id}, R + {id};
  }

  // ---- the whole call ----

  /** Slot k, named sn, is marked deleted; no cluster outside the directory changed. */
  ghost predicate Marked(data: seq<Cluster>, data': seq<Cluster>, cs: seq<int>, sn: seq<byte>, k: nat, e: Slot) {
    && |data'| == |data| && Inside(|data|, cs) && (forall c | 0 <= c < |data| && c !in cs :: data'[c] == data[c])
    && k < |Dir(data, cs)| && NameOf(Dir(data, cs)[k]) == sn && e[0] == DELETED
    && Dir(data', cs) == Dir(data, cs)[k := e]
  }

  ghost predicate Named(slots: seq<Slot>, sn: seq<byte>) {
    exists k | 0 <= k < |slots| :: NameOf(slots[k]) == sn
  }

  /** Mark the first slot with a given short name deleted. */
  method Mark(vol: Volume, dir: u32, sn: seq<byte>, ghost cs: seq<int>) returns (ghost k: nat, ghost e': Slot)
    requires vol.Valid() && IsChain(vol.v.fat, |vol.v.data|, cs) && cs != [] && dir == cs[0]
    requires Named(Dir(vol.v.data, cs), sn)
    modifies vol`disk, vol`v
    ensures vol.Valid() && vol.v == old(vol.v).(data := vol.v.data)
    ensures Marked(old(vol.v.data), vol.v.data, cs, sn, k, e')
  {
    var hit := (e: Slot) => NameOf(e) == sn;
    ghost var n;
    var found, c, s, i;
    found, c, s, i, n := FindSlot(vol, dir, hit, cs);
    assert found;
    var e := ReadSlot(vol, c, s, i, cs, n);
    k := Place(vol.v.data, cs, n, s, i);
    var dead: Slot := e[0 := DELETED];
    e' := dead;
    PatchSlot(vol, c, s, i, dead, cs, n);
  }

  lemma RemoveStart(w: View, nodes: Nodes, chains: Chains, next: int, d: int, i: nat)
    requires FsOk(w, nodes, chains, next) && d in nodes && nodes[d].isDir && i < |nodes[d].children|
    requires nodes[d].children[i] != NULL
    ensures var id := nodes[d].children[i];
      && IsChild(nodes, d, id) && d < id && id != ROOT && Proper(nodes[id].diskName) && Solid(nodes, d)
      && IsChain(w.fat, |w.data|, chains[d]) && chains[d] != [] && nodes[d].first == chains[d][0]
      && Named(Dir(w.data, chains[d]), nodes[id].diskName)
    ensures AllSolid(nodes)
  {
    AllSolidOf(w.data, nodes, chains, next);
    assert NodeOk(nodes, chains, d) && TableOk(nodes, d) && Solid(nodes, d);
    var id := nodes[d].children[i];
    assert IsChild(nodes, d, id);
    assert NodeOk(nodes, chains, id);
    assert EntityOk(w.data, nodes, chains[d], d);
    assert HasSlot(Dir(w.data, chains[d]), nodes[id]);
    var k :| 0 <= k < |Dir(w.data, chains[d])| && Live(Dir(w.data, chains[d])[k])
      && Matches(nodes[id], Dir(w.data, chains[d])[k]);
  }

  lemma MarkedOthers(w: View, data': seq<Cluster>, nodes: Nodes, chains: Chains, d: int)
    requires Space(w, chains) && chains.Keys == nodes.Keys && d in chains && |data'| == |w.data|
    requires forall c | 0 <= c < |w.data| && c !in chains[d] :: data'[c] == w.data[c]
    ensures forall x {:trigger SameOn(w.data, data', chains[x])} | x in nodes && x != d ::
      SameOn(w.data, data', chains[x])
  {
    forall x | x in nodes && x != d ensures SameOn(w.data, data', chains[x]) {
      assert Disjoint(chains[x], chains[d]) && IsChain(w.fat, |w.data|, chains[x]);
    }
  }

  /** The state after a delete: the subtree's nodes, entry and clusters are gone, and nothing else. */
  lemma RemoveDone(w: View, w': View, nodes: Nodes, nodes': Nodes, chains: Chains, next: int, d: int, i: nat,
      R: set<int>, k: nat, e: Slot)
    requires FsOk(w, nodes, chains, next) && d in nodes && nodes[d].isDir && i < |nodes[d].children|
    requires nodes[d].children[i] != NULL
    requires Removed(nodes, nodes', d, nodes[d].children[i], R, i) && Space(w', chains - R)
    requires d in chains && Marked(w.data, w'.data, chains[d], nodes[nodes[d].children[i]].diskName, k, e)
    ensures FsOk(w', nodes', chains - R, next)
    ensures forall x {:trigger SameOn(w.data, w'.data, chains[x])} | x in nodes && x != d ::
      SameOn(w.data, w'.data, chains[x])
  {
    var id := nodes[d].children[i];
    RemoveStart(w, nodes, chains, next, d, i);
    RemovedTree(nodes, nodes', chains, next, d, id, R, i);
    MarkedOthers(w, w'.data, nodes, chains, d);
    RemovedDir(w, w', nodes, nodes', chains, next, d, id, i, R, k, e);
    RemovedContents(w.data, w'.data, nodes, nodes', chains, d, id, R, i);
  }

  lemma RemovedDir(w: View, w': View, nodes: Nodes, nodes': Nodes, chains: Chains, next: int, d: int, id: int, i: nat,
      R: set<int>, k: nat, e: Slot)
    requires FsOk(w, nodes, chains, next) && d in nodes && nodes[d].isDir && d in chains
    requires Removed(nodes, nodes', d, id, R, i) && Proper(nodes[id].diskName)
    requires Marked(w.data, w'.data, chains[d], nodes[id].diskName, k, e)
    ensures DirOk(w'.data, nodes', chains[d], d)
  {
    assert EntityOk(w.data, nodes, chains[d], d);
    forall y | IsChild(nodes, d, y) ensures y != d { assert NodeOk(nodes, chains, y); }
    RemovedParent(Dir(w.data, chains[d]), Dir(w'.data, chains[d]), nodes, nodes', d, id, R, i, k, e);
  }

  /** Mark the entry deleted, free everything below it and clear its slot in the parent's table. */
  method Remove(vol: Volume, nodes: Nodes, next: int, d: int, i: nat, ghost chains: Chains)
    returns (nodes': Nodes, ghost R: set<int>)
    requires vol.Valid() && FsOk(vol.v, nodes, chains, next) && d in nodes && nodes[d].isDir && i < |nodes[d].children|
    requires nodes[d].children[i] != NULL
    modifies vol`disk, vol`cache, vol`v, vol`hint
    ensures vol.Valid() && Removed(nodes, nodes', d, nodes[d].children[i], R, i)
    ensures FsOk(vol.v, nodes', chains - R, next)
    ensures forall x {:trigger SameOn(old(vol.v.data), vol.v.data, chains[x])} | x in nodes && x != d ::
      SameOn(old(vol.v.data), vol.v.data, chains[x])
    ensures GivenBack(old(vol.v), vol.v)
  {
    ghost var w := vol.v;
    RemoveStart(w, nodes, chains, next, d, i);
    var id := nodes[d].children[i];
    ghost var k, e;
    k, e := Mark(vol, nodes[d].first, nodes[id].diskName, chains[d]);
    nodes', R := DeleteRec(vol, nodes, next, id, chains);
    nodes' := nodes'[d := nodes[d].(children := nodes[d].children[i := NULL])];
    RemoveDone(w, vol.v, nodes, nodes', chains, next, d, i, R, k, e);
  }
}
