/** Cluster chains of a FAT: what the allocator and the chain walks rely on. */
module FatChain {
  import opened Bytes
  import opened FatDisk

  type Cluster = seq<Sector>

  /** A FAT volume: the table, the data clusters by number, and FSInfo's free count. */
  datatype View = View(fat: seq<u32>, data: seq<Cluster>, free: u32)

  ghost predicate Shape(v: View) {
    2 < |v.data| <= |v.fat| < EOC
  }

  /** Entries are zero, end-of-chain or an entry number: what freeing a chain needs to stop. */
  ghost predicate Ranged(fat: seq<u32>) {
    forall i | 2 <= i < |fat| :: fat[i] == 0 || fat[i] == EOC || 2 <= fat[i] < |fat|
  }

  // ---- chains ----

  ghost predicate Inside(max: nat, cs: seq<int>) {
    forall i | 0 <= i < |cs| :: 2 <= cs[i] < max
  }

  ghost predicate Distinct(cs: seq<int>) {
    forall i, j | 0 <= i < j < |cs| :: cs[i] != cs[j]
  }

  /** The value the FAT holds for the i-th cluster of a chain. */
  ghost function After(cs: seq<int>, i: nat): int
    requires i < |cs|
  {
    if i + 1 < |cs| then cs[i + 1] else EOC
  }

  ghost predicate Linked(fat: seq<u32>, cs: seq<int>)
    requires Inside(|fat|, cs)
  {
    forall i | 0 <= i < |cs| :: fat[cs[i]] == After(cs, i)
  }

  /** A well-formed, possibly empty chain of allocatable clusters. */
  ghost predicate IsChain(fat: seq<u32>, max: nat, cs: seq<int>) {
    max <= |fat| && Inside(max, cs) && Distinct(cs) && Linked(fat, cs)
  }

  /** A table that agrees on a chain's clusters has that chain. */
  lemma ChainFrame(fat: seq<u32>, fat': seq<u32>, max: nat, cs: seq<int>)
    requires IsChain(fat, max, cs) && |fat'| == |fat|
    requires forall c | c in cs :: 0 <= c < |fat| && fat'[c] == fat[c]
    ensures IsChain(fat', max, cs)
  {
    forall i | 0 <= i < |cs| ensures fat'[cs[i]] == After(cs, i) { assert cs[i] in cs; }
  }

  /** Clusters of a chain are in use. */
  lemma ChainUsed(fat: seq<u32>, max: nat, cs: seq<int>, c: int)
    requires IsChain(fat, max, cs) && c in cs
    ensures 2 <= c < max && fat[c] != 0
  {
    var i :| 0 <= i < |cs| && cs[i] == c;
    assert fat[cs[i]] == After(cs, i);
  }

  lemma NotInChain(fat: seq<u32>, max: nat, cs: seq<int>, c: int)
    requires IsChain(fat, max, cs) && 0 <= c < |fat| && fat[c] == 0
    ensures c !in cs
  {
    if c in cs { ChainUsed(fat, max, cs, c); }
  }

  /** Linking the last cluster of a chain to a fresh end-of-chain cluster extends the chain. */
  lemma ChainExtend(fat: seq<u32>, max: nat, cs: seq<int>, c: int)
    requires IsChain(fat, max, cs) && |cs| > 0 && 2 <= c < max && c !in cs && fat[c] == EOC && c < 0x1_0000_0000
    ensures IsChain(fat[cs[|cs| - 1] := c], max, cs + [c])
  {
    var fat', cs', n := fat[cs[|cs| - 1] := c], cs + [c], |cs|;
    forall i | 0 <= i < |cs'| ensures 2 <= cs'[i] < max && fat'[cs'[i]] == After(cs', i) {
      if i < n - 1 { assert cs[i] != cs[n - 1] && fat[cs[i]] == After(cs, i); }
      else if i == n { assert cs[n - 1] in cs; }
    }
  }

  /** A table with the entries of some clusters zeroed and no other changed. */
  ghost predicate Cleared(fat: seq<u32>, fat': seq<u32>, cs: seq<int>) {
    |fat'| == |fat| && forall i | 0 <= i < |fat| :: fat'[i] == if i in cs then 0 else fat[i]
  }

  // ---- counting ----

  /** How many entries in [lo, hi) are zero. */
  ghost function CountZero(fat: seq<u32>, lo: nat, hi: nat): (n: nat)
    requires lo <= hi <= |fat|
    ensures n <= hi - lo
    decreases hi
  {
    if lo == hi then 0 else CountZero(fat, lo, hi - 1) + if fat[hi - 1] == 0 then 1 else 0
  }

  ghost function One(b: bool): nat { if b then 1 else 0 }

  /** Changing one entry moves the count by that entry alone. */
  lemma {:induction false} CountSet(fat: seq<u32>, lo: nat, hi: nat, c: nat, x: u32)
    requires lo <= hi <= |fat| && c < |fat|
    ensures CountZero(fat[c := x], lo, hi) + One(lo <= c < hi && fat[c] == 0) ==
      CountZero(fat, lo, hi) + One(lo <= c < hi && x == 0)
    decreases hi
  {
    if lo < hi { CountSet(fat, lo, hi - 1, c, x); }
  }

  lemma {:induction false} CountSame(fat: seq<u32>, fat': seq<u32>, lo: nat, hi: nat)
    requires lo <= hi <= |fat| == |fat'| && forall i | lo <= i < hi :: fat'[i] == fat[i]
    ensures CountZero(fat', lo, hi) == CountZero(fat, lo, hi)
    decreases hi
  {
    if lo < hi { CountSame(fat, fat', lo, hi - 1); }
  }

  lemma {:induction false} CountPositive(fat: seq<u32>, lo: nat, hi: nat, c: int)
    requires lo <= c < hi <= |fat| && fat[c] == 0
    ensures CountZero(fat, lo, hi) > 0
    decreases hi
  {
    if c < hi - 1 { CountPositive(fat, lo, hi - 1, c); }
  }

  lemma {:induction false} CountNone(fat: seq<u32>, lo: nat, hi: nat)
    requires lo <= hi <= |fat| && forall k | lo <= k < hi :: fat[k] != 0
    ensures CountZero(fat, lo, hi) == 0
    decreases hi
  {
    if lo < hi { CountNone(fat, lo, hi - 1); }
  }

  /** Zeroing the entries of a chain adds its length to the count. */
  lemma {:induction false} CountCleared(fat: seq<u32>, fat': seq<u32>, max: nat, cs: seq<int>)
    requires 2 <= max <= |fat| && Inside(max, cs) && Distinct(cs) && Cleared(fat, fat', cs)
    requires forall c | c in cs :: 0 <= c < |fat| && fat[c] != 0
    ensures CountZero(fat', 2, max) == CountZero(fat, 2, max) + |cs|
    decreases |cs|
  {
    if cs == [] {
      CountSame(fat, fat', 2, max);
    } else {
      var n := |cs| - 1;
      var c, rest := cs[n], cs[..n];
      assert c in cs && c !in rest && cs == rest + [c];
      var mid := fat'[c := fat[c]];
      forall i | 0 <= i < |fat| ensures mid[i] == if i in rest then 0 else fat[i] { }
      CountCleared(fat, mid, max, rest);
      CountSet(mid, 2, max, c, 0);
      assert mid[c := 0] == fat';
    }
  }

  /** How many clusters are free. */
  ghost function FreeIn(v: View): nat
    requires Shape(v)
  {
    CountZero(v.fat, 2, |v.data|)
  }

  /** How many of the free clusters FSInfo's count misses; an unknown count misses none. */
  ghost function Short(v: View): int
    requires Shape(v)
  {
    if v.free == UNKNOWN then 0 else FreeIn(v) - v.free
  }

  /** A count that was not too high misses as many clusters as before, or only low if no more were free at some
      moment. */
  ghost predicate ShortKept(w: View, w': View, low: int) {
    Shape(w) && Shape(w') && (0 <= Short(w) ==> Short(w') == if low < Short(w) then low else Short(w))
  }

  /** No cluster was freed between w and w'. */
  ghost predicate Spent(w: View, w': View) {
    Shape(w) && Shape(w') && FreeIn(w') <= FreeIn(w) && ShortKept(w, w', FreeIn(w'))
  }

  /** Clusters were freed between w and w', and none taken. */
  ghost predicate GivenBack(w: View, w': View) {
    Shape(w) && Shape(w') && FreeIn(w) <= FreeIn(w') && ShortKept(w, w', FreeIn(w))
  }

  // ---- who owns which cluster ----

  ghost predicate Owned(chains: map<int, seq<int>>, c: int) {
    exists id | id in chains :: c in chains[id]
  }

  ghost predicate Apart(chains: map<int, seq<int>>) {
    forall a, b {:trigger Disjoint(chains[a], chains[b])} | a in chains && b in chains && a != b ::
      Disjoint(chains[a], chains[b])
  }

  ghost predicate Disjoint(s: seq<int>, t: seq<int>) {
    forall c | c in s :: c !in t
  }

  /** Every owner has a well-formed chain, no cluster has two owners, and no used cluster has none. */
  ghost predicate Space(v: View, chains: map<int, seq<int>>) {
    && Shape(v) && Ranged(v.fat) && Apart(chains)
    && (forall id {:trigger IsChain(v.fat, |v.data|, chains[id])} | id in chains ::
      IsChain(v.fat, |v.data|, chains[id]))
    && forall c {:trigger Owned(chains, c)} | 2 <= c < |v.data| && v.fat[c] != 0 :: Owned(chains, c)
  }

  /** Giving one owner another chain, made of free clusters and its own; what it gives up is freed. */
  lemma SpaceSet(v: View, v': View, chains: map<int, seq<int>>, id: int, cs: seq<int>)
    requires Space(v, chains) && Shape(v') && |v'.fat| == |v.fat| && |v'.data| == |v.data| && Ranged(v'.fat)
    requires IsChain(v'.fat, |v.data|, cs)
    requires forall c | c in cs :: 0 <= c < |v.fat| && (v.fat[c] == 0 || (id in chains && c in chains[id]))
    requires forall i | 0 <= i < |v.fat| && i !in cs ::
      v'.fat[i] == if id in chains && i in chains[id] then 0 else v.fat[i]
    ensures Space(v', chains[id := cs])
  {
    var chains' := chains[id := cs];
    forall a, b {:trigger Disjoint(chains'[a], chains'[b])} | a in chains' && b in chains' && a != b
      ensures Disjoint(chains'[a], chains'[b])
    {
      if a != id && b != id { assert Disjoint(chains[a], chains[b]); }
      forall c | c in chains'[a] ensures c !in chains'[b] {
        NotMine(v, chains, id, cs, a, c); NotMine(v, chains, id, cs, b, c);
      }
    }
    forall a | a in chains' ensures IsChain(v'.fat, |v.data|, chains'[a]) {
      if a != id {
        assert IsChain(v.fat, |v.data|, chains[a]);
        forall c | c in chains[a] ensures v'.fat[c] == v.fat[c] && 0 <= c < |v.fat| {
          ChainUsed(v.fat, |v.data|, chains[a], c);
          NotMine(v, chains, id, cs, a, c);
        }
        ChainFrame(v.fat, v'.fat, |v.data|, chains[a]);
      }
    }
    forall c | 2 <= c < |v.data| && v'.fat[c] != 0 ensures Owned(chains', c) {
      if c in cs { assert c in chains'[id]; }
      else {
        assert Owned(chains, c);
        var a :| a in chains && c in chains[a];
        assert c in chains'[a];
      }
    }
  }

  /** Another owner's cluster is neither free nor the given owner's. */
  lemma NotMine(v: View, chains: map<int, seq<int>>, id: int, cs: seq<int>, a: int, c: int)
    requires Space(v, chains)
    requires forall c | c in cs :: 0 <= c < |v.fat| && (v.fat[c] == 0 || (id in chains && c in chains[id]))
    ensures a in chains && a != id && c in chains[a] ==> c !in cs && (id in chains ==> c !in chains[id])
  {
    if a in chains && c in chains[a] { ChainUsed(v.fat, |v.data|, chains[a], c); }
    if a in chains && id in chains && a != id { assert Disjoint(chains[a], chains[id]); }
  }

  /** An owner with no clusters may be forgotten. */
  lemma SpaceDrop(v: View, chains: map<int, seq<int>>, id: int)
    requires Space(v, chains) && id in chains && chains[id] == []
    ensures Space(v, chains - {id})
  {
    var chains' := chains - {id};
    forall a | a in chains' ensures IsChain(v.fat, |v.data|, chains'[a]) { assert IsChain(v.fat, |v.data|, chains[a]); }
    forall c | 2 <= c < |v.data| && v.fat[c] != 0 ensures Owned(chains', c) {
      assert Owned(chains, c);
      var a :| a in chains && c in chains[a];
      assert a in chains' && c in chains'[a];
    }
    forall a, b {:trigger Disjoint(chains'[a], chains'[b])} | a in chains' && b in chains' && a != b
      ensures Disjoint(chains'[a], chains'[b])
    {
      assert Disjoint(chains[a], chains[b]);
    }
  }
}
