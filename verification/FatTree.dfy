/** The in-memory directory tree and when it agrees with the directories on
    disk. */
module FatTree {
  import opened Bytes
  import opened FatDisk
  import opened FatChain
  import opened FatFile
  import opened FatDir
  import opened FatName

  const NULL := 0
  const ROOT := 1
  const MAX_DIR_ENTRIES := 2048
  const ATTR_DIRECTORY: byte := 0x10
  const ATTR_ARCHIVE: byte := 0x20

  /** fs_entry_t, its pointers replaced by node numbers. */
  datatype Node = Node(name: seq<byte>, isDir: bool, size: u32, first: u32, diskName: seq<byte>, parent: int,
    children: seq<int>)

  type Nodes = map<int, Node>

  // ---- directory entries ----

  function FirstOf(e: Slot): u32 {
    Le16(e, 26) + 0x1_0000 * Le16(e, 20)
  }

  function SizeOf(e: Slot): u32 {
    Le32(e, 28)
  }

  /** An entry in use that is neither "." nor "..". */
  predicate Live(e: Slot) {
    !Free(e) && e[0] != DOT
  }

  function AttrOf(isDir: bool): byte {
    if isDir then ATTR_DIRECTORY else ATTR_ARCHIVE
  }

  /** The on-disk entry says what the node says. */
  ghost predicate Matches(n: Node, e: Slot) {
    && NameOf(e) == n.diskName && e[NAME_LEN] == AttrOf(n.isDir)
    && FirstOf(e) == n.first && SizeOf(e) == n.size
  }

  /** Point an entry at a chain. */
  function Repoint(e: Slot, first: u32, size: u32): (r: Slot)
    ensures FirstOf(r) == first && SizeOf(r) == size && r[..20] == e[..20]
  {
    Put32(Put16(Put16(e, 26, first % 0x1_0000), 20, first / 0x1_0000), 28, size)
  }

  function Entry(sn: seq<byte>, attr: byte, first: u32): (r: Slot)
    requires |sn| == NAME_LEN
    ensures NameOf(r) == sn && r[NAME_LEN] == attr && FirstOf(r) == first && SizeOf(r) == 0
  {
    var e: Slot := sn + [attr] + Zeros(SLOT_SIZE - NAME_LEN - 1);
    var r := Repoint(e, first, 0);
    assert r[..20][..NAME_LEN] == e[..20][..NAME_LEN] == sn && r[..20][NAME_LEN] == e[..20][NAME_LEN];
    r
  }

  // ---- one directory ----

  ghost predicate IsChild(nodes: Nodes, d: int, id: int) {
    id in nodes && id != ROOT && nodes[id].parent == d
  }

  ghost predicate HasChild(nodes: Nodes, d: int, e: Slot) {
    exists id :: IsChild(nodes, d, id) && Matches(nodes[id], e)
  }

  ghost predicate HasSlot(slots: seq<Slot>, n: Node) {
    exists k | 0 <= k < |slots| :: Live(slots[k]) && Matches(n, slots[k])
  }

  ghost predicate NamesApart(slots: seq<Slot>) {
    forall j, k | 0 <= j < k < |slots| && !Free(slots[j]) && !Free(slots[k]) :: NameOf(slots[j]) != NameOf(slots[k])
  }

  function DotName(): (r: seq<byte>)
    ensures |r| == NAME_LEN
  {
    [DOT] + Zeros(10)
  }

  function DotDotName(): (r: seq<byte>)
    ensures |r| == NAME_LEN
  {
    [DOT, DOT] + Zeros(9)
  }

  ghost predicate DotsOnly(slots: seq<Slot>) {
    forall k | 0 <= k < |slots| && slots[k][0] == DOT :: NameOf(slots[k]) == DotName()
      || NameOf(slots[k]) == DotDotName()
  }

  ghost predicate EntriesOwned(slots: seq<Slot>, nodes: Nodes, d: int) {
    forall k {:trigger HasChild(nodes, d, slots[k])} | 0 <= k < |slots| && Live(slots[k]) ::
      HasChild(nodes, d, slots[k])
  }

  ghost predicate ChildrenEntered(slots: seq<Slot>, nodes: Nodes, d: int) {
    forall id {:trigger HasSlot(slots, nodes[id])} | IsChild(nodes, d, id) :: HasSlot(slots, nodes[id])
  }

  ghost predicate SiblingsApart(nodes: Nodes, d: int) {
    forall a, b | IsChild(nodes, d, a) && IsChild(nodes, d, b) && nodes[a].diskName == nodes[b].diskName :: a == b
  }

  /** Children and live entries correspond one to one: every entry has a child that matches it, every child an entry,
      and names are distinct on both sides. */
  ghost predicate Agrees(slots: seq<Slot>, nodes: Nodes, d: int) {
    && Tidy(slots) && NamesApart(slots) && DotsOnly(slots)
    && EntriesOwned(slots, nodes, d) && ChildrenEntered(slots, nodes, d) && SiblingsApart(nodes, d)
  }

  /** Each child has exactly one entry in use under its name, and each live entry exactly one child. */
  lemma OneToOne(slots: seq<Slot>, nodes: Nodes, d: int)
    requires Agrees(slots, nodes, d)
    ensures forall id | IsChild(nodes, d, id) ::
      exists k | 0 <= k < |slots| :: Live(slots[k]) && Matches(nodes[id], slots[k]) &&
        forall j | 0 <= j < |slots| && !Free(slots[j]) && NameOf(slots[j]) == nodes[id].diskName :: j == k
    ensures forall k | 0 <= k < |slots| && Live(slots[k]) ::
      exists id | IsChild(nodes, d, id) ::
        && Matches(nodes[id], slots[k])
        && forall x | IsChild(nodes, d, x) && nodes[x].diskName == NameOf(slots[k]) :: x == id
  {
    forall id | IsChild(nodes, d, id)
      ensures exists k | 0 <= k < |slots| ::
        Live(slots[k]) && Matches(nodes[id], slots[k]) && forall j | 0 <= j < |slots| && !Free(slots[j])
          && NameOf(slots[j]) == nodes[id].diskName :: j == k
    {
      assert HasSlot(slots, nodes[id]);
      var k :| 0 <= k < |slots| && Live(slots[k]) && Matches(nodes[id], slots[k]);
      assert !Free(slots[k]);
    }
    forall k | 0 <= k < |slots| && Live(slots[k])
      ensures exists id | IsChild(nodes, d, id) ::
        Matches(nodes[id], slots[k]) && forall x | IsChild(nodes, d, x) && nodes[x].diskName == NameOf(slots[k]) ::
          x == id
    {
      assert HasChild(nodes, d, slots[k]);
    }
  }

  /** A child's entry is the only slot in use with its name. */
  lemma OneSlot(slots: seq<Slot>, nodes: Nodes, d: int, id: int, k: nat)
    requires Agrees(slots, nodes, d) && IsChild(nodes, d, id) && k < |slots| && !Free(slots[k])
    requires NameOf(slots[k]) == nodes[id].diskName
    ensures Live(slots[k]) && Matches(nodes[id], slots[k])
  {
    assert HasSlot(slots, nodes[id]);
    var j :| 0 <= j < |slots| && Live(slots[j]) && Matches(nodes[id], slots[j]);
    if j < k { assert !Free(slots[j]); } else if k < j { assert !Free(slots[j]); }
  }

  /** Another live slot belongs to another child. */
  lemma OtherChild(slots: seq<Slot>, nodes: Nodes, d: int, id: int, k: nat, j: nat)
    requires Agrees(slots, nodes, d) && k < |slots| && j < |slots| && j != k && Live(slots[k]) && Live(slots[j])
    requires id in nodes && Matches(nodes[id], slots[k])
    ensures exists x | x != id :: IsChild(nodes, d, x) && Matches(nodes[x], slots[j])
  {
    assert HasChild(nodes, d, slots[j]);
    var x :| IsChild(nodes, d, x) && Matches(nodes[x], slots[j]);
    assert NameOf(slots[j]) != NameOf(slots[k]);
  }

  /** Only the children of d matter. */
  ghost predicate SameChildren(nodes: Nodes, nodes': Nodes, d: int) {
    forall id {:trigger IsChild(nodes, d, id)} {:trigger IsChild(nodes', d, id)} ::
      && IsChild(nodes, d, id) == IsChild(nodes', d, id)
      && (IsChild(nodes, d, id) ==> nodes'[id] == nodes[id].(children := nodes'[id].children))
  }

  lemma AgreesFrame(slots: seq<Slot>, nodes: Nodes, nodes': Nodes, d: int)
    requires Agrees(slots, nodes, d) && SameChildren(nodes, nodes', d)
    ensures Agrees(slots, nodes', d)
  {
    forall k | 0 <= k < |slots| && Live(slots[k]) ensures HasChild(nodes', d, slots[k]) {
      assert HasChild(nodes, d, slots[k]);
      var id :| IsChild(nodes, d, id) && Matches(nodes[id], slots[k]);
      assert IsChild(nodes', d, id);
    }
    forall id | IsChild(nodes', d, id) ensures HasSlot(slots, nodes'[id]) {
      assert IsChild(nodes, d, id);
      assert HasSlot(slots, nodes[id]);
      var k :| 0 <= k < |slots| && Live(slots[k]) && Matches(nodes[id], slots[k]);
    }
  }

  /** Adding a child and its entry. */
  lemma AgreesInsert(slots: seq<Slot>, slots': seq<Slot>, nodes: Nodes, nodes': Nodes, d: int, id: int, e: Slot, k: nat)
    requires Agrees(slots, nodes, d) && Inserted(slots, slots', e, k) && Proper(NameOf(e)) && !Taken(slots, NameOf(e))
    requires id !in nodes && IsChild(nodes', d, id) && Matches(nodes'[id], e)
    requires forall x {:trigger IsChild(nodes', d, x)} {:trigger IsChild(nodes, d, x)} | x != id ::
      IsChild(nodes', d, x) == IsChild(nodes, d, x) && (IsChild(nodes, d, x) ==> nodes'[x] == nodes[x])
    ensures Agrees(slots', nodes', d)
  {
    InsertNames(slots, slots', e, k);
    forall j | 0 <= j < |slots'| && Live(slots'[j]) ensures HasChild(nodes', d, slots'[j]) {
      if j != k {
        assert slots'[j] == slots[j];
        assert HasChild(nodes, d, slots[j]);
        var x :| IsChild(nodes, d, x) && Matches(nodes[x], slots[j]);
        assert IsChild(nodes', d, x);
      }
    }
    forall x | IsChild(nodes', d, x)
      ensures HasSlot(slots', nodes'[x]) && (nodes'[x].diskName == NameOf(e) ==> x == id)
    {
      if x == id { assert Live(slots'[k]); }
      else {
        assert IsChild(nodes, d, x);
        assert HasSlot(slots, nodes[x]);
        var j :| 0 <= j < |slots| && Live(slots[j]) && Matches(nodes[x], slots[j]);
        assert j != k && slots'[j] == slots[j];
        assert NameOf(slots[j]) == nodes[x].diskName;
      }
    }
  }

  lemma InsertNames(slots: seq<Slot>, slots': seq<Slot>, e: Slot, k: nat)
    requires Tidy(slots) && NamesApart(slots) && DotsOnly(slots) && Inserted(slots, slots', e, k) && Proper(NameOf(e))
    requires !Taken(slots, NameOf(e))
    ensures Tidy(slots') && NamesApart(slots') && DotsOnly(slots') && Live(e)
  {
    assert NameOf(e)[0] == e[0];
    forall i | 0 <= i < k ensures !Free(slots[i]) {
      if k < |slots| { assert slots[..k][i] == slots[i]; }
    }
    forall i, j | 0 <= i < j < |slots'| && !Free(slots'[i]) && !Free(slots'[j])
      ensures NameOf(slots'[i]) != NameOf(slots'[j])
    {
      if i == k {
        assert j < |slots| ==> slots'[j] == slots[j];
      } else if j == k {
        assert i < |slots| ==> slots'[i] == slots[i];
      }
    }
  }

  /** Repointing a child and its entry. */
  lemma AgreesUpdate(slots: seq<Slot>, slots': seq<Slot>, nodes: Nodes, nodes': Nodes, d: int, id: int, k: nat, e: Slot)
    requires Agrees(slots, nodes, d) && IsChild(nodes, d, id) && k < |slots| && !Free(slots[k])
    requires NameOf(slots[k]) == nodes[id].diskName
    requires slots' == slots[k := e] && NameOf(e) == NameOf(slots[k]) && e[0] == slots[k][0]
    requires IsChild(nodes', d, id) && Matches(nodes'[id], e)
    requires forall x {:trigger IsChild(nodes', d, x)} {:trigger IsChild(nodes, d, x)} | x != id ::
      IsChild(nodes', d, x) == IsChild(nodes, d, x) && (IsChild(nodes, d, x) ==> nodes'[x] == nodes[x])
    ensures Agrees(slots', nodes', d)
  {
    OneSlot(slots, nodes, d, id, k);
    UpdateNames(slots, slots', k, e);
    assert nodes'[id].diskName == nodes[id].diskName && Live(e);
    UpdateOwned(slots, slots', nodes, nodes', d, id, k, e);
    UpdateEntered(slots, slots', nodes, nodes', d, id, k, e);
    UpdateSiblings(nodes, nodes', d, id);
  }

  lemma UpdateEntered(slots: seq<Slot>, slots': seq<Slot>, nodes: Nodes, nodes': Nodes, d: int, id: int, k: nat,
      e: Slot)
    requires ChildrenEntered(slots, nodes, d) && SiblingsApart(nodes, d) && IsChild(nodes, d, id) && k < |slots|
    requires Matches(nodes[id], slots[k])
    requires slots' == slots[k := e] && (IsChild(nodes', d, id) ==> Live(e) && Matches(nodes'[id], e))
    requires forall x {:trigger IsChild(nodes', d, x)} | x != id && IsChild(nodes', d, x) ::
      IsChild(nodes, d, x) && nodes'[x] == nodes[x]
    ensures ChildrenEntered(slots', nodes', d)
  {
    forall x | IsChild(nodes', d, x) ensures HasSlot(slots', nodes'[x]) {
      if x == id { assert Live(slots'[k]); } else { KeepsSlot(slots, slots', nodes[x], k, nodes[id]); }
    }
  }

  lemma UpdateSiblings(nodes: Nodes, nodes': Nodes, d: int, id: int)
    requires SiblingsApart(nodes, d)
    requires forall x {:trigger IsChild(nodes', d, x)} | IsChild(nodes', d, x) ::
      IsChild(nodes, d, x) && nodes'[x].diskName == nodes[x].diskName
    ensures SiblingsApart(nodes', d)
  {
    forall a, b | IsChild(nodes', d, a) && IsChild(nodes', d, b) && nodes'[a].diskName == nodes'[b].diskName
      ensures a == b
    {
      assert IsChild(nodes, d, a) && IsChild(nodes, d, b);
    }
  }

  lemma UpdateOwned(slots: seq<Slot>, slots': seq<Slot>, nodes: Nodes, nodes': Nodes, d: int, id: int, k: nat, e: Slot)
    requires Agrees(slots, nodes, d) && id in nodes && k < |slots| && Live(slots[k]) && Matches(nodes[id], slots[k])
    requires slots' == slots[k := e]
    requires Live(e) ==> IsChild(nodes', d, id) && Matches(nodes'[id], e)
    requires forall x {:trigger IsChild(nodes, d, x)} | x != id && IsChild(nodes, d, x) ::
      IsChild(nodes', d, x) && nodes'[x] == nodes[x]
    ensures EntriesOwned(slots', nodes', d)
  {
    forall j | 0 <= j < |slots'| && Live(slots'[j]) ensures HasChild(nodes', d, slots'[j]) {
      if j != k {
        OtherChild(slots, nodes, d, id, k, j);
        var x :| x != id && IsChild(nodes, d, x) && Matches(nodes[x], slots[j]);
        assert IsChild(nodes', d, x);
      }
    }
  }

  /** A slot in use under another name is not the one rewritten. */
  lemma KeepsSlot(slots: seq<Slot>, slots': seq<Slot>, n: Node, k: nat, m: Node)
    requires HasSlot(slots, n) && k < |slots| && Matches(m, slots[k]) && n.diskName != m.diskName
    requires |slots'| == |slots| && forall j | 0 <= j < |slots| && j != k :: slots'[j] == slots[j]
    ensures HasSlot(slots', n)
  {
    var j :| 0 <= j < |slots| && Live(slots[j]) && Matches(n, slots[j]);
    assert Live(slots'[j]);
  }

  lemma UpdateNames(slots: seq<Slot>, slots': seq<Slot>, k: nat, e: Slot)
    requires Tidy(slots) && NamesApart(slots) && DotsOnly(slots) && k < |slots| && !Free(slots[k])
    requires slots' == slots[k := e] && NameOf(e) == NameOf(slots[k]) && e[0] == slots[k][0]
    ensures Tidy(slots') && NamesApart(slots') && DotsOnly(slots')
  {
    forall i, j | 0 <= i < j < |slots'| && !Free(slots'[i]) && !Free(slots'[j])
      ensures NameOf(slots'[i]) != NameOf(slots'[j])
    {
      assert !Free(slots[i]) && !Free(slots[j]);
    }
  }

  lemma RepointKeeps(e: Slot, first: u32, size: u32)
    ensures var r := Repoint(e, first, size); NameOf(r) == NameOf(e) && r[NAME_LEN] == e[NAME_LEN] && r[0] == e[0]
  {
    var r := Repoint(e, first, size);
    assert forall i | 0 <= i < 20 :: r[..20][i] == e[..20][i] == r[i];
  }

  /** Deleting a child and marking its entry. */
  lemma AgreesRemove(slots: seq<Slot>, slots': seq<Slot>, nodes: Nodes, nodes': Nodes, d: int, id: int, k: nat, e: Slot)
    requires Agrees(slots, nodes, d) && IsChild(nodes, d, id) && k < |slots| && !Free(slots[k])
    requires NameOf(slots[k]) == nodes[id].diskName
    requires e[0] == DELETED && slots' == slots[k := e] && !IsChild(nodes', d, id)
    requires forall x {:trigger IsChild(nodes', d, x)} {:trigger IsChild(nodes, d, x)} | x != id ::
      IsChild(nodes', d, x) == IsChild(nodes, d, x) && (IsChild(nodes, d, x) ==> nodes'[x] == nodes[x])
    ensures Agrees(slots', nodes', d)
  {
    OneSlot(slots, nodes, d, id, k);
    UpdateOwned(slots, slots', nodes, nodes', d, id, k, e);
    UpdateEntered(slots, slots', nodes, nodes', d, id, k, e);
    UpdateSiblings(nodes, nodes', d, id);
  }

  // ---- how many slots can be in use ----

  /** Distinct names drawn from a list fill no more slots than the list has names. */
  lemma {:induction false} NamesFrom(slots: seq<Slot>, names: seq<seq<byte>>)
    requires NamesApart(slots) && forall k | 0 <= k < |slots| && !Free(slots[k]) :: NameOf(slots[k]) in names
    ensures CountUsed(slots) <= |names|
    decreases |slots|
  {
    if slots != [] {
      var n := |slots| - 1;
      var pre := slots[..n];
      if Free(slots[n]) { NamesFrom(pre, names); }
      else {
        var i :| 0 <= i < |names| && names[i] == NameOf(slots[n]);
        var rest := names[..i] + names[i + 1..];
        forall k | 0 <= k < |pre| && !Free(pre[k]) ensures NameOf(pre[k]) in rest {
          assert pre[k] == slots[k];
          var j :| 0 <= j < |names| && names[j] == NameOf(slots[k]);
          assert j != i && names[j] == if j < i then rest[j] else rest[j - 1];
        }
        NamesFrom(pre, rest);
      }
    }
  }

  /** The disk names in a child table. */
  ghost function KidNames(nodes: Nodes, children: seq<int>): (r: seq<seq<byte>>)
    ensures |r| == |children|
  {
    seq(|children|, i requires 0 <= i < |children| => if children[i] in nodes then nodes[children[i]].diskName else [])
  }

  /** A directory whose children fit the child table never exhausts the mangling counters. */
  lemma FewUsed(slots: seq<Slot>, nodes: Nodes, d: int, children: seq<int>)
    requires Agrees(slots, nodes, d) && |children| == MAX_DIR_ENTRIES
    requires forall id | IsChild(nodes, d, id) :: id in children
    ensures CountUsed(slots) < MAX_TRIES
  {
    var names := KidNames(nodes, children) + [DotName(), DotDotName()];
    forall k | 0 <= k < |slots| && !Free(slots[k]) ensures NameOf(slots[k]) in names {
      if slots[k][0] == DOT {
        assert names[MAX_DIR_ENTRIES] == DotName() && names[MAX_DIR_ENTRIES + 1] == DotDotName();
      } else {
        assert Live(slots[k]);
        assert HasChild(nodes, d, slots[k]);
        var id :| IsChild(nodes, d, id) && Matches(nodes[id], slots[k]);
        var i :| 0 <= i < |children| && children[i] == id;
        assert names[i] == nodes[id].diskName;
      }
    }
    NamesFrom(slots, names);
  }
}
