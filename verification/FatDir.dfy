/** Directory slots on disk: searching a chain, patching one slot and growing
    the chain. */
module FatDir {
  import opened Bytes
  import opened FatDisk
  import opened FatChain
  import opened FatFile
  import opened FatVolume

  const NAME_LEN := 11
  const DELETED: byte := 0xE5
  const DOT: byte := 0x2E

  // ---- slots ----

  function NameOf(e: Slot): (r: seq<byte>) {
    e[..NAME_LEN]
  }

  /** The slot may be taken by a new entry. */
  predicate Free(e: Slot) {
    e[0] == 0 || e[0] == DELETED
  }

  /** The name occurs in a slot in use. */
  ghost predicate Taken(slots: seq<Slot>, sn: seq<byte>) {
    exists k | 0 <= k < |slots| :: !Free(slots[k]) && NameOf(slots[k]) == sn
  }

  /** Never-used slots form the end of the directory, where name scans stop. */
  ghost predicate Tidy(slots: seq<Slot>) {
    forall j, k | 0 <= j < k < |slots| && slots[j][0] == 0 :: slots[k][0] == 0
  }

  /** The name occurs in a slot in use before the first never-used one. */
  ghost predicate Seen(slots: seq<Slot>, sn: seq<byte>) {
    exists k | 0 <= k < |slots| ::
      !Free(slots[k]) && NameOf(slots[k]) == sn && forall j | 0 <= j < k :: slots[j][0] != 0
  }

  /** The directory held by a chain. */
  ghost function Dir(data: seq<Cluster>, cs: seq<int>): (r: seq<Slot>)
    requires Inside(|data|, cs)
  {
    Slots(Sectors(data, cs))
  }

  lemma DirFrame(data: seq<Cluster>, data': seq<Cluster>, cs: seq<int>)
    requires Inside(|data|, cs) && |data'| == |data| && forall c | c in cs :: 0 <= c < |data| && data'[c] == data[c]
    ensures Dir(data', cs) == Dir(data, cs)
  {
    SectorsFrame(data, data', cs);
  }

  lemma DirAppend(data: seq<Cluster>, cs: seq<int>, c: nat)
    requires Inside(|data|, cs) && 2 <= c < |data|
    ensures Inside(|data|, cs + [c]) && Dir(data, cs + [c]) == Dir(data, cs) + Slots(data[c])
  {
    SectorsAppend(data, cs, c);
    SlotsConcat(Sectors(data, cs), data[c]);
  }

  lemma {:induction false} DirPrefix(data: seq<Cluster>, cs: seq<int>, n: nat)
    requires Inside(|data|, cs) && n <= |cs|
    ensures Dir(data, cs[..n]) <= Dir(data, cs)
    decreases |cs|
  {
    if n == |cs| {
      assert cs[..n] == cs;
    } else {
      var m := |cs| - 1;
      assert cs[..m][..n] == cs[..n] && cs[..m] + [cs[m]] == cs;
      DirPrefix(data, cs[..m], n);
      DirAppend(data, cs[..m], cs[m]);
    }
  }

  lemma DirStep(data: seq<Cluster>, cs: seq<int>, n: nat)
    requires Inside(|data|, cs) && n < |cs|
    ensures Dir(data, cs[..n + 1]) == Dir(data, cs[..n]) + Slots(data[cs[n]]) && Dir(data, cs[..n + 1]) <= Dir(data, cs)
  {
    assert cs[..n + 1] == cs[..n] + [cs[n]];
    DirAppend(data, cs[..n], cs[n]);
    DirPrefix(data, cs, n + 1);
  }

  // ---- searching ----

  method FindInSector(b: Sector, hit: Slot -> bool) returns (found: bool, i: nat)
    ensures found ==> i < SLOTS && hit(SlotIn(b, i))
    ensures forall j | 0 <= j < SLOTS && (!found || j < i) :: !hit(SlotIn(b, j))
  {
    i := 0;
    while i < SLOTS
      invariant i <= SLOTS && forall j | 0 <= j < i :: !hit(SlotIn(b, j))
    {
      if hit(SlotIn(b, i)) { return true, i; }
      i := i + 1;
    }
    found := false;
  }

  ghost predicate Misses(slots: seq<Slot>, hit: Slot -> bool) {
    forall k | 0 <= k < |slots| :: !hit(slots[k])
  }

  /** k is the first slot that satisfies hit. */
  ghost predicate First(slots: seq<Slot>, hit: Slot -> bool, k: nat) {
    k < |slots| && hit(slots[k]) && Misses(slots[..k], hit)
  }

  lemma ScannedSector(cluster: Cluster, s: nat, hit: Slot -> bool, found: bool, i: nat)
    requires s < |cluster| && Misses(Slots(cluster)[..SLOTS * s], hit)
    requires (found ==> i < SLOTS && hit(SlotIn(cluster[s], i)))
    requires forall j | 0 <= j < SLOTS && (!found || j < i) :: !hit(SlotIn(cluster[s], j))
    ensures if found then First(Slots(cluster), hit, SLOTS * s + i) else Misses(Slots(cluster)[..SLOTS * (s + 1)], hit)
  {
    var slots := Slots(cluster);
    var m := SLOTS * s + if found then i else SLOTS;
    forall k | 0 <= k < m ensures !hit(slots[k]) {
      if k < SLOTS * s { assert slots[k] == slots[..SLOTS * s][k]; } else { assert slots[k] == SlotAt(cluster, k); }
    }
    if found { assert slots[m] == SlotAt(cluster, m); }
  }

  method FindInCluster(vol: Volume, c: nat, hit: Slot -> bool) returns (found: bool, s: nat, i: nat)
    requires vol.Valid() && 2 <= c < |vol.v.data|
    ensures found ==> s < vol.g.sectorsPerCluster && i < SLOTS && First(Slots(vol.v.data[c]), hit, SLOTS * s + i)
    ensures !found ==> Misses(Slots(vol.v.data[c]), hit)
  {
    s := 0;
    ghost var slots := Slots(vol.v.data[c]);
    while s < vol.g.sectorsPerCluster
      invariant s <= |vol.v.data[c]| == vol.g.sectorsPerCluster
      invariant Misses(slots[..SLOTS * s], hit)
    {
      var b := vol.GetSector(c, s);
      found, i := FindInSector(b, hit);
      ScannedSector(vol.v.data[c], s, hit, found, i);
      if found { return; }
      s := s + 1;
    }
    found, i := false, 0;
    assert slots[..SLOTS * s] == slots;
  }

  lemma MissedCluster(data: seq<Cluster>, cs: seq<int>, n: nat, hit: Slot -> bool)
    requires Inside(|data|, cs) && n < |cs| && Misses(Dir(data, cs[..n]), hit) && Misses(Slots(data[cs[n]]), hit)
    ensures Misses(Dir(data, cs[..n + 1]), hit)
  {
    DirStep(data, cs, n);
  }

  lemma FoundInCluster(data: seq<Cluster>, cs: seq<int>, n: nat, hit: Slot -> bool, s: nat, i: nat)
    requires Inside(|data|, cs) && n < |cs| && Misses(Dir(data, cs[..n]), hit)
    requires First(Slots(data[cs[n]]), hit, SLOTS * s + i)
    ensures First(Dir(data, cs), hit, Place(data, cs, n, s, i))
  {
    DirStep(data, cs, n);
    var all, pre, here := Dir(data, cs), Dir(data, cs[..n]), Slots(data[cs[n]]);
    var m := SLOTS * s + i;
    var k := |pre| + m;
    assert k == Place(data, cs, n, s, i) && all[k] == here[m];
    forall j | 0 <= j < k ensures !hit(all[j]) {
      if j < |pre| { assert all[j] == pre[j]; } else { assert all[j] == here[..m][j - |pre|]; }
    }
  }

  /** Where slot i of sector s of the n-th cluster sits in the directory. */
  ghost function Place(data: seq<Cluster>, cs: seq<int>, n: nat, s: nat, i: nat): nat
    requires Inside(|data|, cs) && n <= |cs|
  {
    SLOTS * (|Sectors(data, cs[..n])| + s) + i
  }

  /** The chain walk shared by the directory scans: the first slot that satisfies hit. */
  method FindSlot(vol: Volume, first: u32, hit: Slot -> bool, ghost cs: seq<int>)
    returns (found: bool, c: nat, s: nat, i: nat, ghost n: nat)
    requires vol.Valid() && IsChain(vol.v.fat, |vol.v.data|, cs) && |cs| > 0 && first == cs[0]
    ensures found ==> n < |cs| && c == cs[n] && s < vol.g.sectorsPerCluster && i < SLOTS
    ensures found ==> First(Dir(vol.v.data, cs), hit, Place(vol.v.data, cs, n, s, i))
    ensures !found ==> c == cs[|cs| - 1] && Misses(Dir(vol.v.data, cs), hit)
  {
    ShapeOf(vol.g, vol.disk, vol.v);
    c, n, s, i, found := 0, 0, 0, 0, false;
    var cur := first;
    while cur != 0 && cur != EOC && cur != IO_ERROR
      invariant n <= |cs| && cur == (if n < |cs| then cs[n] else EOC) && (n > 0 ==> c == cs[n - 1])
      invariant Misses(Dir(vol.v.data, cs[..n]), hit)
      decreases |cs| - n
    {
      c := cur;
      found, s, i := FindInCluster(vol, cur, hit);
      if found {
        FoundInCluster(vol.v.data, cs, n, hit, s, i);
        return;
      }
      MissedCluster(vol.v.data, cs, n, hit);
      assert vol.v.fat[cs[n]] == After(cs, n);
      cur := vol.ReadEntry(cur);
      n := n + 1;
    }
    assert cs[..n] == cs;
  }

  lemma DirAt(data: seq<Cluster>, cs: seq<int>, n: nat, s: nat, i: nat)
    requires Inside(|data|, cs) && n < |cs| && s < |data[cs[n]]| && i < SLOTS
    ensures Place(data, cs, n, s, i) < |Dir(data, cs)|
    ensures Dir(data, cs)[Place(data, cs, n, s, i)] == SlotIn(data[cs[n]][s], i)
  {
    SectorsAt(data, cs, n, s);
    assert Dir(data, cs)[Place(data, cs, n, s, i)] == SlotAt(Sectors(data, cs), Place(data, cs, n, s, i));
  }

  method ReadSlot(vol: Volume, c: nat, s: nat, i: nat, ghost cs: seq<int>, ghost n: nat) returns (e: Slot)
    requires vol.Valid() && Inside(|vol.v.data|, cs) && n < |cs| && c == cs[n] && s < vol.g.sectorsPerCluster
    requires i < SLOTS
    ensures Place(vol.v.data, cs, n, s, i) < |Dir(vol.v.data, cs)|
    ensures e == Dir(vol.v.data, cs)[Place(vol.v.data, cs, n, s, i)]
  {
    var b := vol.GetSector(c, s);
    DirAt(vol.v.data, cs, n, s, i);
    e := SlotIn(b, i);
  }

  // fat_short_name_exists
  method NameExists(vol: Volume, first: u32, sn: seq<byte>, ghost cs: seq<int>) returns (b: bool)
    requires vol.Valid() && IsChain(vol.v.fat, |vol.v.data|, cs) && |cs| > 0 && first == cs[0]
    ensures b <==> Seen(Dir(vol.v.data, cs), sn)
  {
    var stop := (e: Slot) => e[0] == 0 || (e[0] != DELETED && NameOf(e) == sn);
    ghost var n;
    var found, c, s, i;
    found, c, s, i, n := FindSlot(vol, first, stop, cs);
    b := false;
    if found {
      var e := ReadSlot(vol, c, s, i, cs, n);
      b := e[0] != 0;
    }
    NameScan(Dir(vol.v.data, cs), sn, stop, found, if found then Place(vol.v.data, cs, n, s, i) else 0);
  }

  /** Where never-used slots end the directory, a scan sees every slot in use. */
  lemma SeenTaken(slots: seq<Slot>, sn: seq<byte>)
    ensures Seen(slots, sn) ==> Taken(slots, sn)
    ensures Tidy(slots) ==> (Seen(slots, sn) <==> Taken(slots, sn))
  {
  }

  lemma NameScan(slots: seq<Slot>, sn: seq<byte>, stop: Slot -> bool, found: bool, k: nat)
    requires forall e: Slot :: stop(e) == (e[0] == 0 || (e[0] != DELETED && NameOf(e) == sn))
    requires if found then First(slots, stop, k) else Misses(slots, stop)
    ensures Seen(slots, sn) <==> found && slots[k][0] != 0
  {
    if found { assert forall j | 0 <= j < k :: slots[..k][j] == slots[j]; }
  }

  // ---- patching ----

  /** Rewrite one slot: the directory changes at that slot, and no other cluster moves. */
  method PatchSlot(vol: Volume, c: nat, s: nat, i: nat, e: Slot, ghost cs: seq<int>, ghost n: nat)
    requires vol.Valid() && Inside(|vol.v.data|, cs) && Distinct(cs) && n < |cs| && c == cs[n]
    requires s < vol.g.sectorsPerCluster && i < SLOTS
    requires Place(vol.v.data, cs, n, s, i) < |Dir(vol.v.data, cs)|
    modifies vol`disk, vol`v
    ensures vol.Valid() && vol.v == old(vol.v).(data := vol.v.data) && |vol.v.data| == |old(vol.v.data)|
    ensures forall d | 0 <= d < |vol.v.data| && d != c :: vol.v.data[d] == old(vol.v.data)[d]
    ensures Dir(vol.v.data, cs) == Dir(old(vol.v.data), cs)[Place(old(vol.v.data), cs, n, s, i) := e]
  {
    var b := vol.GetSector(c, s);
    var b': Sector := Splice(b, SLOT_SIZE * i, e);
    vol.PutSector(c, s, b');
    DirPatch(old(vol.v.data), vol.v.data, cs, n, s, i, e, b');
  }

  lemma DirPatch(data: seq<Cluster>, data': seq<Cluster>, cs: seq<int>, n: nat, s: nat, i: nat, e: Slot, b: Sector)
    requires Inside(|data|, cs) && Distinct(cs) && n < |cs| && s < |data[cs[n]]| && i < SLOTS
    requires b == Splice(data[cs[n]][s], SLOT_SIZE * i, e) && data' == WithSector(data, cs[n], s, b)
    ensures Place(data, cs, n, s, i) < |Dir(data, cs)| && Dir(data', cs) == Dir(data, cs)[Place(data, cs, n, s, i) := e]
  {
    SectorsAt(data, cs, n, s);
    SectorsPatch(data, data', cs, n, s, b);
    SlotsPatch(Sectors(data, cs), |Sectors(data, cs[..n])| + s, i, e, b);
  }

  /** A cluster holding one entry and then never-used slots. */
  ghost predicate OneEntry(cluster: Cluster, e: Slot) {
    && |Slots(cluster)| > 0 && Slots(cluster)[0] == e
    && forall k | 1 <= k < |Slots(cluster)| :: Slots(cluster)[k][0] == 0
  }

  lemma OneEntryMade(cluster: Cluster, e: Slot)
    requires |cluster| > 0 && cluster[0] == Splice(ZeroSector(), 0, e)
    requires forall s | 1 <= s < |cluster| :: cluster[s] == ZeroSector()
    ensures OneEntry(cluster, e)
  {
    var b: Sector := Splice(ZeroSector(), 0, e);
    forall k | 0 <= k < |Slots(cluster)|
      ensures Slots(cluster)[k] == SlotIn(if k < SLOTS then b else ZeroSector(), k % SLOTS)
    {
      assert Slots(cluster)[k] == SlotAt(cluster, k);
    }
    assert SlotIn(b, 0) == e;
  }

  method WriteFresh(vol: Volume, c: nat, e: Slot)
    requires vol.Valid() && 2 <= c < |vol.v.data|
    modifies vol`disk, vol`v
    ensures vol.Valid() && vol.v == old(vol.v).(data := vol.v.data) && |vol.v.data| == |old(vol.v.data)|
    ensures forall d | 0 <= d < |vol.v.data| && d != c :: vol.v.data[d] == old(vol.v.data)[d]
    ensures OneEntry(vol.v.data[c], e)
  {
    var b: Sector := Splice(ZeroSector(), 0, e);
    var s := 0;
    while s < vol.g.sectorsPerCluster
      invariant vol.Valid() && vol.v == old(vol.v).(data := vol.v.data) && |vol.v.data| == |old(vol.v.data)|
      invariant forall d | 0 <= d < |vol.v.data| && d != c :: vol.v.data[d] == old(vol.v.data)[d]
      invariant s <= |vol.v.data[c]| == vol.g.sectorsPerCluster
      invariant b == if s == 0 then Splice(ZeroSector(), 0, e) else ZeroSector()
      invariant forall t | 0 <= t < s :: vol.v.data[c][t] == if t == 0 then Splice(ZeroSector(), 0, e) else ZeroSector()
    {
      vol.PutSector(c, s, b);
      b := ZeroSector();
      s := s + 1;
    }
    OneEntryMade(vol.v.data[c], e);
  }

  /** slots' is slots with e put in the first free slot, or appended with never-used slots after it when there is
      none. */
  ghost predicate Inserted(slots: seq<Slot>, slots': seq<Slot>, e: Slot, k: nat) {
    && k < |slots'| && slots'[k] == e && k <= |slots| <= |slots'|
    && (forall j | 0 <= j < |slots| && j != k :: slots'[j] == slots[j])
    && (k < |slots| ==> First(slots, Free, k) && |slots'| == |slots|) && (k == |slots| ==> Misses(slots, Free))
    && forall j | |slots| <= j < |slots'| && j != k :: slots'[j][0] == 0
  }

  /** w' is w with a directory's chain unchanged or one formerly free cluster longer. */
  ghost predicate Grown(w: View, w': View, cs: seq<int>, cs': seq<int>) {
    && Shape(w) && |w'.fat| == |w.fat| && |w'.data| == |w.data| && Ranged(w'.fat) && IsChain(w'.fat, |w.data|, cs')
    && |cs| > 0 && cs <= cs'
    && (forall c | c in cs' && c !in cs :: 0 <= c < |w.fat| && w.fat[c] == 0)
    && (forall i | 0 <= i < |w.fat| && i !in cs' :: w'.fat[i] == w.fat[i])
    && forall c | 0 <= c < |w.data| && c !in cs' :: w'.data[c] == w.data[c]
  }

  /** Extend a full directory by a cluster holding the entry. */
  method GrowDir(vol: Volume, last: nat, e: Slot, ghost cs: seq<int>) returns (ok: bool, ghost c: nat)
    requires vol.Valid() && Ranged(vol.v.fat) && IsChain(vol.v.fat, |vol.v.data|, cs) && |cs| > 0
    requires last == cs[|cs| - 1]
    modifies vol`disk, vol`cache, vol`v, vol`hint
    ensures vol.Valid() && Shape(vol.v) && (!ok ==> vol.v == old(vol.v))
    ensures !ok ==> forall c | 2 <= c < |vol.v.data| :: vol.v.fat[c] != 0
    ensures ok ==> Grown(old(vol.v), vol.v, cs, cs + [c]) && 2 <= c < |vol.v.data| && old(vol.v.fat)[c] == 0 && c !in cs
    ensures ok ==> OneEntry(vol.v.data[c], e)
    ensures ok ==> forall d | 0 <= d < |vol.v.data| && d != c :: vol.v.data[d] == old(vol.v.data)[d]
    ensures Spent(old(vol.v), vol.v)
  {
    ShapeOf(vol.g, vol.disk, vol.v);
    var added := vol.AllocCluster();
    ok, c := added != 0, added;
    if ok { LinkCluster(vol, last, added, e, cs, old(vol.v)); }
  }

  /** Link a cluster just taken to the end of a directory and put the entry in it. */
  method LinkCluster(vol: Volume, last: nat, c: u32, e: Slot, ghost cs: seq<int>, ghost w: View)
    requires vol.Valid() && Shape(w) && Ranged(w.fat) && IsChain(w.fat, |w.data|, cs) && |cs| > 0
    requires last == cs[|cs| - 1] && 2 <= c < |w.data| && w.fat[c] == 0
    requires vol.v.fat == w.fat[c := EOC] && vol.v.data == w.data && Spent(w, vol.v)
    modifies vol`disk, vol`cache, vol`v
    ensures vol.Valid() && Shape(vol.v) && Grown(w, vol.v, cs, cs + [c]) && c !in cs && c < |vol.v.data|
    ensures OneEntry(vol.v.data[c], e) && Spent(w, vol.v)
    ensures forall d | 0 <= d < |vol.v.data| && d != c :: vol.v.data[d] == w.data[d]
  {
    LinkGrown(w, cs, c);
    ghost var w1 := vol.v;
    vol.WriteEntry(last, c);
    WriteFresh(vol, c, e);
    ClusterLinked(w, w1, vol.v, cs, c);
  }

  lemma ClusterLinked(w: View, w1: View, w': View, cs: seq<int>, c: u32)
    requires Shape(w) && Ranged(w.fat) && IsChain(w.fat, |w.data|, cs) && |cs| > 0 && 2 <= c < |w.data| && w.fat[c] == 0
    requires w1.fat == w.fat[c := EOC] && w1.data == w.data && Spent(w, w1)
    requires w'.fat == w1.fat[cs[|cs| - 1] := c] && w'.free == w1.free && |w'.data| == |w.data|
    requires forall d | 0 <= d < |w.data| && d != c :: w'.data[d] == w.data[d]
    ensures Grown(w, w', cs, cs + [c]) && Spent(w, w')
  {
    LinkGrown(w, cs, c);
    CountSet(w1.fat, 2, |w.data|, cs[|cs| - 1], c);
  }

  /** Linking a free cluster to the end of a chain. */
  lemma LinkGrown(w: View, cs: seq<int>, c: u32)
    requires Shape(w) && Ranged(w.fat) && IsChain(w.fat, |w.data|, cs) && |cs| > 0 && 2 <= c < |w.data| && w.fat[c] == 0
    ensures c !in cs && w.fat[cs[|cs| - 1]] == EOC
    ensures var fat' := w.fat[c := EOC][cs[|cs| - 1] := c]; IsChain(fat', |w.data|, cs + [c]) && Ranged(fat')
  {
    NotInChain(w.fat, |w.data|, cs, c);
    assert w.fat[cs[|cs| - 1]] == After(cs, |cs| - 1);
    ChainFrame(w.fat, w.fat[c := EOC], |w.data|, cs);
    ChainExtend(w.fat[c := EOC], |w.data|, cs, c);
  }

  lemma PatchedEntry(w: View, w': View, cs: seq<int>, c: nat, e: Slot, k: nat)
    requires Shape(w) && IsChain(w.fat, |w.data|, cs) && Ranged(w.fat) && w'.fat == w.fat && |w'.data| == |w.data|
    requires c in cs
    requires forall d | 0 <= d < |w.data| && d != c :: w'.data[d] == w.data[d]
    requires First(Dir(w.data, cs), Free, k) && Dir(w'.data, cs) == Dir(w.data, cs)[k := e]
    ensures Grown(w, w', cs, cs) && Inserted(Dir(w.data, cs), Dir(w'.data, cs), e, k)
  {
  }

  lemma AppendedEntry(w: View, w': View, cs: seq<int>, c: nat, e: Slot)
    requires Inside(|w.data|, cs) && |w'.data| == |w.data| && 2 <= c < |w.data| && c !in cs && OneEntry(w'.data[c], e)
    requires forall d | 0 <= d < |w.data| && d != c :: w'.data[d] == w.data[d]
    requires Misses(Dir(w.data, cs), Free)
    ensures Inside(|w.data|, cs + [c]) && Inserted(Dir(w.data, cs), Dir(w'.data, cs + [c]), e, |Dir(w.data, cs)|)
  {
    DirFrame(w.data, w'.data, cs);
    DirAppend(w'.data, cs, c);
    var slots, slots' := Dir(w.data, cs), Dir(w'.data, cs + [c]);
    forall j | |slots| <= j < |slots'| && j != |slots| ensures slots'[j][0] == 0 {
      assert slots'[j] == Slots(w'.data[c])[j - |slots|];
    }
  }

  ghost predicate NoneFree(v: View)
    requires Shape(v)
  {
    forall c | 2 <= c < |v.data| :: v.fat[c] != 0
  }

  /** No slot of the directory is free, and no cluster. */
  ghost predicate NoRoom(v: View, cs: seq<int>) {
    Shape(v) && Inside(|v.data|, cs) && Misses(Dir(v.data, cs), Free) && NoneFree(v)
  }

  // fs_write_directory_entry
  method WriteEntry(vol: Volume, first: u32, e: Slot, ghost cs: seq<int>)
    returns (ok: bool, ghost cs': seq<int>, ghost k: nat)
    requires vol.Valid() && Ranged(vol.v.fat) && IsChain(vol.v.fat, |vol.v.data|, cs) && |cs| > 0 && first == cs[0]
    modifies vol`disk, vol`cache, vol`v, vol`hint
    ensures vol.Valid() && Shape(vol.v) && (!ok ==> vol.v == old(vol.v))
    ensures ok <==> !NoRoom(old(vol.v), cs)
    ensures ok ==> Grown(old(vol.v), vol.v, cs, cs') && Inserted(Dir(old(vol.v.data), cs), Dir(vol.v.data, cs'), e, k)
    ensures ok && k < |Dir(old(vol.v.data), cs)| ==> cs' == cs
    ensures Spent(old(vol.v), vol.v)
  {
    ShapeOf(vol.g, vol.disk, vol.v);
    cs' := cs;
    ghost var n;
    var found, c, s, i;
    found, c, s, i, n := FindSlot(vol, first, Free, cs);
    if found {
      k := Place(vol.v.data, cs, n, s, i);
      PatchSlot(vol, c, s, i, e, cs, n);
      PatchedEntry(old(vol.v), vol.v, cs, c, e, k);
      assert Free(Dir(old(vol.v.data), cs)[k]);
      return true, cs, k;
    }
    k := |Dir(vol.v.data, cs)|;
    ghost var d;
    ok, d := GrowDir(vol, c, e, cs);
    if ok {
      cs' := cs + [d];
      AppendedEntry(old(vol.v), vol.v, cs, d, e);
    }
  }
}
