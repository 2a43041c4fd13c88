/** Reading a directory back from disk, and why a reload finds the tree's
    children. */
module FatLoad {
  import opened Bytes
  import opened FatDisk
  import opened FatChain
  import opened FatFile
  import opened FatVolume
  import opened FatDir
  import opened FatTree

  const ATTR_LONG_NAME := 0x0F
  const ATTR_VOLUME_ID := 0x08

  /** The loader keeps the entry: in use, not a long-name or volume-label entry, not "." or "..". */
  predicate Kept(e: Slot) {
    e[0] != DELETED && e[NAME_LEN] % 16 != ATTR_LONG_NAME && e[NAME_LEN] != ATTR_VOLUME_ID && e[0] != DOT
  }

  /** The entries kept among the first n slots. */
  ghost function Listed(slots: seq<Slot>, n: nat): (r: seq<Slot>)
    requires n <= |slots|
  {
    if n == 0 then [] else Listed(slots, n - 1) + if Kept(slots[n - 1]) then [slots[n - 1]] else []
  }

  /** No slot before n ends the directory. */
  ghost predicate Unended(slots: seq<Slot>, n: nat) {
    n <= |slots| && forall k | 0 <= k < n :: slots[k][0] != 0
  }

  ghost predicate Ends(slots: seq<Slot>, n: nat) {
    Unended(slots, n) && (n < |slots| ==> slots[n][0] == 0)
  }

  /** Where the directory ends, searching from a given slot. */
  ghost function EndFrom(slots: seq<Slot>, k: nat): nat
    requires k <= |slots|
    decreases |slots| - k
  {
    if k == |slots| || slots[k][0] == 0 then k else EndFrom(slots, k + 1)
  }

  lemma {:induction false} EndsThere(slots: seq<Slot>, n: nat, k: nat)
    requires Ends(slots, n) && k <= n
    ensures EndFrom(slots, k) == n
    decreases n - k
  {
    if k < n { EndsThere(slots, n, k + 1); }
  }

  lemma {:induction false} EndIs(slots: seq<Slot>, k: nat)
    requires Unended(slots, k)
    ensures EndFrom(slots, k) <= |slots| && Ends(slots, EndFrom(slots, k))
    decreases |slots| - k
  {
    if k < |slots| && slots[k][0] != 0 { EndIs(slots, k + 1); }
  }

  /** The entries a load of the directory keeps, in order. */
  ghost function Entries(slots: seq<Slot>): seq<Slot> {
    EndIs(slots, 0);
    Listed(slots, EndFrom(slots, 0))
  }

  method ReadSector(b: Sector, start: seq<Slot>, ghost slots: seq<Slot>, ghost at: nat)
    returns (out: seq<Slot>, done: bool, ghost n: nat)
    requires at + SLOTS <= |slots| && Unended(slots, at) && start == Listed(slots, at)
    requires forall i {:trigger SlotIn(b, i)} | 0 <= i < SLOTS :: slots[at + i] == SlotIn(b, i)
    ensures at <= n <= at + SLOTS && Unended(slots, n) && out == Listed(slots, n)
    ensures if done then n < |slots| && slots[n][0] == 0 else n == at + SLOTS
  {
    out, done, n := start, false, at;
    for i := 0 to SLOTS
      invariant n == at + i && Unended(slots, n) && out == Listed(slots, n)
    {
      var e := SlotIn(b, i);
      if e[0] == 0 { return out, true, n; }
      if Kept(e) { out := out + [e]; }
      n := n + 1;
    }
  }

  lemma SectorSlots(data: seq<Cluster>, cs: seq<int>, k: nat, s: nat)
    requires Inside(|data|, cs) && k < |cs| && s < |data[cs[k]]|
    ensures Place(data, cs, k, s, 0) + SLOTS <= |Dir(data, cs)|
    ensures forall i {:trigger SlotIn(data[cs[k]][s], i)} | 0 <= i < SLOTS ::
      Dir(data, cs)[Place(data, cs, k, s, 0) + i] == SlotIn(data[cs[k]][s], i)
  {
    forall i {:trigger SlotIn(data[cs[k]][s], i)} | 0 <= i < SLOTS
      ensures Place(data, cs, k, s, 0) + i < |Dir(data, cs)|
      ensures Dir(data, cs)[Place(data, cs, k, s, 0) + i] == SlotIn(data[cs[k]][s], i)
    {
      DirAt(data, cs, k, s, i);
    }
    DirAt(data, cs, k, s, SLOTS - 1);
  }

  method ReadCluster(vol: Volume, c: int, start: seq<Slot>, ghost cs: seq<int>, ghost k: nat)
    returns (out: seq<Slot>, done: bool, ghost n: nat)
    requires vol.Valid() && Inside(|vol.v.data|, cs) && k < |cs| && c == cs[k]
    requires Unended(Dir(vol.v.data, cs), Place(vol.v.data, cs, k, 0, 0))
    requires start == Listed(Dir(vol.v.data, cs), Place(vol.v.data, cs, k, 0, 0))
    ensures Unended(Dir(vol.v.data, cs), n) && out == Listed(Dir(vol.v.data, cs), n)
    ensures if done then n < |Dir(vol.v.data, cs)| && Dir(vol.v.data, cs)[n][0] == 0
      else n == Place(vol.v.data, cs, k + 1, 0, 0)
  {
    out, done, n := start, false, Place(vol.v.data, cs, k, 0, 0);
    ghost var slots := Dir(vol.v.data, cs);
    var s := 0;
    while s < vol.g.sectorsPerCluster
      invariant s <= vol.g.sectorsPerCluster && n == Place(vol.v.data, cs, k, s, 0) && Unended(slots, n)
      invariant out == Listed(slots, n)
    {
      var b := vol.GetSector(c, s);
      SectorSlots(vol.v.data, cs, k, s);
      out, done, n := ReadSector(b, out, slots, n);
      if done { return; }
      s := s + 1;
    }
    done := false;
    assert cs[..k + 1] == cs[..k] + [cs[k]];
    SectorsAppend(vol.v.data, cs[..k], cs[k]);
  }

  // read_directory_entries
  method ReadEntries(vol: Volume, first: u32, ghost cs: seq<int>) returns (out: seq<Slot>)
    requires vol.Valid() && IsChain(vol.v.fat, |vol.v.data|, cs) && cs != [] && first == cs[0]
    ensures out == Entries(Dir(vol.v.data, cs))
  {
    ShapeOf(vol.g, vol.disk, vol.v);
    out := [];
    var cur := first;
    ghost var k, n := 0, 0;
    while cur != 0 && cur != EOC && cur != IO_ERROR
      invariant k <= |cs| && cur == (if k < |cs| then cs[k] else EOC) && n == Place(vol.v.data, cs, k, 0, 0)
      invariant Unended(Dir(vol.v.data, cs), n) && out == Listed(Dir(vol.v.data, cs), n)
      decreases |cs| - k
    {
      var done;
      out, done, n := ReadCluster(vol, cur, out, cs, k);
      if done {
        EndsThere(Dir(vol.v.data, cs), n, 0);
        return;
      }
      assert vol.v.fat[cs[k]] == After(cs, k);
      cur := vol.ReadEntry(cur);
      k := k + 1;
    }
    assert cs[..k] == cs;
    EndsThere(Dir(vol.v.data, cs), n, 0);
  }

  // ---- a reload finds the children ----

  /** at gives the slots of the entries kept among the first n, in order. */
  ghost predicate PicksOf(slots: seq<Slot>, n: nat, at: seq<int>)
    requires n <= |slots|
  {
    && |at| == |Listed(slots, n)|
    && (forall i | 0 <= i < |at| :: 0 <= at[i] < n && slots[at[i]] == Listed(slots, n)[i] && Kept(slots[at[i]]))
    && (forall i, j | 0 <= i < j < |at| :: at[i] < at[j]) && forall k | 0 <= k < n && Kept(slots[k]) :: k in at
  }

  lemma {:induction false} Picked(slots: seq<Slot>, n: nat) returns (at: seq<int>)
    requires n <= |slots|
    ensures PicksOf(slots, n, at)
  {
    at := [];
    if n > 0 {
      var rest := Picked(slots, n - 1);
      if Kept(slots[n - 1]) {
        at := rest + [n - 1];
        PickedOne(slots, n - 1, rest);
      } else {
        at := rest;
      }
    }
  }

  lemma PickedOne(slots: seq<Slot>, n: nat, at: seq<int>)
    requires n < |slots| && PicksOf(slots, n, at) && Kept(slots[n])
    ensures PicksOf(slots, n + 1, at + [n])
  {
    assert Listed(slots, n + 1) == Listed(slots, n) + [slots[n]];
    forall k | 0 <= k < n + 1 && Kept(slots[k])
      ensures k in at + [n]
    { if k < n { assert k in at; } else { assert (at + [n])[|at|] == k; } }
  }

  /** Entry i is the only one with the name of child id, and says what the child says. */
  ghost predicate OnlyEntry(es: seq<Slot>, nodes: Nodes, id: int, i: int)
    requires id in nodes
  {
    0 <= i < |es| && Matches(nodes[id], es[i]) && forall j | 0 <= j < |es| && NameOf(es[j]) == nodes[id].diskName ::
      j == i
  }

  /** Where tree and disk agree, the loader reads exactly the children, each once and in the order of their slots: every
      entry it keeps matches one child, and every child is the one match of one entry. */
  lemma ReloadsChildren(slots: seq<Slot>, nodes: Nodes, d: int) returns (at: seq<int>)
    requires Agrees(slots, nodes, d)
    ensures |at| == |Entries(slots)|
    ensures (forall i | 0 <= i < |at| :: 0 <= at[i] < |slots| && slots[at[i]] == Entries(slots)[i])
    ensures forall i, j | 0 <= i < j < |at| :: at[i] < at[j] && NameOf(Entries(slots)[i]) != NameOf(Entries(slots)[j])
    ensures forall i | 0 <= i < |at| :: HasChild(nodes, d, Entries(slots)[i])
    ensures forall id | IsChild(nodes, d, id) :: exists i :: OnlyEntry(Entries(slots), nodes, id, i)
  {
    EndIs(slots, 0);
    var n := EndFrom(slots, 0);
    var es := Entries(slots);
    at := Picked(slots, n);
    forall i | 0 <= i < |at| ensures !Free(es[i]) && HasChild(nodes, d, es[i]) { assert Live(slots[at[i]]); }
    forall i, j | 0 <= i < j < |at|
      ensures at[i] < at[j] && NameOf(es[i]) != NameOf(es[j])
    { assert !Free(slots[at[i]]) && !Free(slots[at[j]]); }
    forall id | IsChild(nodes, d, id)
      ensures exists i :: OnlyEntry(es, nodes, id, i)
    { EntryOf(slots, nodes, d, n, at, id); }
  }

  lemma EntryOf(slots: seq<Slot>, nodes: Nodes, d: int, n: nat, at: seq<int>, id: int)
    requires Agrees(slots, nodes, d) && Ends(slots, n) && PicksOf(slots, n, at) && IsChild(nodes, d, id)
    requires forall i, j | 0 <= i < j < |at| :: NameOf(Listed(slots, n)[i]) != NameOf(Listed(slots, n)[j])
    ensures exists i :: OnlyEntry(Listed(slots, n), nodes, id, i)
  {
    assert HasSlot(slots, nodes[id]);
    var k :| 0 <= k < |slots| && Live(slots[k]) && Matches(nodes[id], slots[k]);
    assert Kept(slots[k]) && k < n;
    var i :| 0 <= i < |at| && at[i] == k;
    assert OnlyEntry(Listed(slots, n), nodes, id, i);
  }
}
