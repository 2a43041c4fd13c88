/** File bytes through cluster chains: laying a new chain, with rollback when
    clusters run out, and reading one back. */
module FatIo {
  import opened Bytes
  import opened FatDisk
  import opened FatChain
  import opened FatFile
  import opened FatVolume

  /** w' holds a chain cs laid in clusters free in w, and is otherwise w. */
  ghost predicate Laid(w: View, w': View, cs: seq<int>) {
    && Shape(w) && |w'.fat| == |w.fat| && |w'.data| == |w.data| && Ranged(w'.fat)
    && |cs| > 0 && IsChain(w'.fat, |w.data|, cs)
    && (forall c | c in cs :: 2 <= c < |w.data| && w.fat[c] == 0)
    && (forall i | 0 <= i < |w.fat| && i !in cs :: w'.fat[i] == w.fat[i])
    && forall c | 0 <= c < |w.data| && c !in cs :: w'.data[c] == w.data[c]
  }

  lemma LaidStart(w: View, w': View, c: u32)
    requires Shape(w) && Ranged(w.fat) && 2 <= c < |w.data| && w.fat[c] == 0 && w'.fat == w.fat[c := EOC]
    requires w'.data == w.data
    ensures Laid(w, w', [c])
  {
    assert After([c], 0) == EOC;
  }

  lemma LaidGrow(w: View, w1: View, w2: View, cs: seq<int>, c: u32)
    requires Laid(w, w1, cs) && 2 <= c < |w.data| && w1.fat[c] == 0
    requires w2.fat == w1.fat[c := EOC][cs[|cs| - 1] := c] && w2.data == w1.data
    ensures Laid(w, w2, cs + [c])
  {
    if c in cs { ChainUsed(w1.fat, |w.data|, cs, c); }
    ChainFrame(w1.fat, w1.fat[c := EOC], |w.data|, cs);
    ChainExtend(w1.fat[c := EOC], |w.data|, cs, c);
    assert cs[|cs| - 1] in cs;
  }

  /** Freeing a laid chain puts every FAT entry back. */
  lemma LaidUndo(w: View, w1: View, w2: View, cs: seq<int>)
    requires Laid(w, w1, cs) && Cleared(w1.fat, w2.fat, cs)
    ensures w2.fat == w.fat
  {
    forall i | 0 <= i < |w.fat| ensures w2.fat[i] == w.fat[i] { }
  }

  lemma LaidData(w: View, w1: View, w2: View, cs: seq<int>, c: nat)
    requires Laid(w, w1, cs) && c in cs && w2.fat == w1.fat && |w2.data| == |w.data|
    requires forall e | 0 <= e < |w.data| && e != c :: w2.data[e] == w1.data[e]
    ensures Laid(w, w2, cs)
  {
  }

  function Chunk(file: seq<byte>, off: nat, n: nat): (b: Sector)
    requires off + n <= |file| && n <= SECTOR_SIZE && (n < SECTOR_SIZE ==> off + n == |file|)
    ensures b == Padded(file, off)
  {
    file[off..off + n] + Zeros(SECTOR_SIZE - n)
  }

  /** k sectors of a cluster hold the file from byte off on. */
  ghost predicate Filled(cluster: Cluster, file: seq<byte>, off: nat, k: nat) {
    k <= |cluster| && forall s | 0 <= s < k :: cluster[s] == Padded(file, off + SECTOR_SIZE * s)
  }

  lemma HoldsMore(done: seq<Sector>, cluster: Cluster, file: seq<byte>, k: nat)
    requires Holds(done, file) && Filled(cluster, file, SECTOR_SIZE * |done|, k)
    ensures Holds(done + cluster[..k], file)
  {
    var all := done + cluster[..k];
    forall j {:trigger all[j]} | 0 <= j < |all| ensures all[j] == Padded(file, SECTOR_SIZE * j) {
      if j >= |done| { assert all[j] == cluster[j - |done|]; }
    }
  }

  /** Write one cluster's worth of the file. */
  method FillCluster(vol: Volume, c: nat, file: seq<byte>, start: nat) returns (off: nat, ghost k: nat)
    requires vol.Valid() && 2 <= c < |vol.v.data| && start <= |file|
    modifies vol`disk, vol`v
    ensures vol.Valid() && vol.v.fat == old(vol.v.fat) && vol.v.free == old(vol.v.free)
    ensures |vol.v.data| == |old(vol.v.data)|
    ensures forall e | 0 <= e < |vol.v.data| && e != c :: vol.v.data[e] == old(vol.v.data)[e]
    ensures |vol.v.data[c]| == vol.g.sectorsPerCluster && Filled(vol.v.data[c], file, start, k)
    ensures off == if start + SECTOR_SIZE * k < |file| then start + SECTOR_SIZE * k else |file|
    ensures off == |file| || k == vol.g.sectorsPerCluster
  {
    off := start;
    var s := 0;
    while s < vol.g.sectorsPerCluster && off < |file|
      invariant vol.Valid() && vol.v.fat == old(vol.v.fat) && vol.v.free == old(vol.v.free)
      invariant |vol.v.data| == |old(vol.v.data)|
      invariant forall e | 0 <= e < |vol.v.data| && e != c :: vol.v.data[e] == old(vol.v.data)[e]
      invariant s <= |vol.v.data[c]| == vol.g.sectorsPerCluster && Filled(vol.v.data[c], file, start, s)
      invariant off == if start + SECTOR_SIZE * s < |file| then start + SECTOR_SIZE * s else |file|
    {
      var n := SECTOR_SIZE;
      if off + n > |file| { n := |file| - off; }
      var b := Chunk(file, off, n);
      vol.PutSector(c, s, b);
      off := off + n;
      s := s + 1;
    }
    k := s;
  }

  /** Where the chain written so far has got to. */
  ghost predicate Progress(data: seq<Cluster>, cs: seq<int>, file: seq<byte>, off: nat)
    requires Inside(|data|, cs) && |cs| > 0
  {
    var done := Sectors(data, cs[..|cs| - 1]);
    if off < |file| then off == SECTOR_SIZE * |done| && Holds(done, file)
    else |file| <= SECTOR_SIZE * |Sectors(data, cs)| && Content(Sectors(data, cs), |file|) == file
  }

  /** Filling the last cluster of the chain either finishes the file or completes the chain's sectors. */
  lemma ProgressFill(w: View, w': View, cs: seq<int>, file: seq<byte>, off: nat, off': nat, k: nat)
    requires IsChain(w.fat, |w.data|, cs) && |cs| > 0 && |w'.data| == |w.data| && off < |file|
    requires Progress(w.data, cs, file, off)
    requires forall e | 0 <= e < |w.data| && e != cs[|cs| - 1] :: w'.data[e] == w.data[e]
    requires Filled(w'.data[cs[|cs| - 1]], file, off, k)
    requires off' == if off + SECTOR_SIZE * k < |file| then off + SECTOR_SIZE * k else |file|
    requires off' == |file| || k == |w'.data[cs[|cs| - 1]]|
    ensures off' == |file| ==> Progress(w'.data, cs, file, off')
    ensures off' < |file| ==> off' == SECTOR_SIZE * |Sectors(w'.data, cs)| && Holds(Sectors(w'.data, cs), file)
  {
    var m := |cs| - 1;
    var done, c := Sectors(w'.data, cs[..m]), cs[m];
    forall e | e in cs[..m] ensures w'.data[e] == w.data[e] && 0 <= e < |w.data| { }
    SectorsFrame(w.data, w'.data, cs[..m]);
    var all := Sectors(w'.data, cs);
    HoldsMore(done, w'.data[c], file, k);
    assert all == done + w'.data[c] && all[..|done| + k] == done + w'.data[c][..k];
    if off' == |file| { HoldsContent(all, file, |done| + k); }
    else { assert w'.data[c][..k] == w'.data[c]; }
  }

  // ---- how much fits ----

  /** There are free clusters for a file of n bytes; even an empty one takes a cluster. */
  ghost predicate Enough(w: View, spc: nat, n: nat)
    requires Shape(w)
  {
    var free := CountZero(w.fat, 2, |w.data|);
    free >= 1 && n <= SECTOR_SIZE * (free * spc)
  }

  ghost predicate Uniform(data: seq<Cluster>, spc: nat) {
    forall c | 2 <= c < |data| :: |data[c]| == spc
  }

  lemma {:induction false} SectorsLength(data: seq<Cluster>, cs: seq<int>, spc: nat)
    requires Inside(|data|, cs) && Uniform(data, spc)
    ensures |Sectors(data, cs)| == |cs| * spc
    decreases |cs|
  {
    if cs != [] {
      SectorsLength(data, cs[..|cs| - 1], spc);
      assert |cs| * spc == (|cs| - 1) * spc + spc;
    }
  }

  /** A laid chain has used up its length of free clusters. */
  lemma CountLaid(w: View, w': View, cs: seq<int>)
    requires Laid(w, w', cs)
    ensures CountZero(w.fat, 2, |w.data|) == CountZero(w'.fat, 2, |w.data|) + |cs|
  {
    forall c | c in cs ensures 0 <= c < |w'.fat| && w'.fat[c] != 0 { ChainUsed(w'.fat, |w.data|, cs, c); }
    CountCleared(w'.fat, w.fat, |w.data|, cs);
  }

  /** A file that was laid out did fit. */
  lemma LaidFits(w: View, w': View, cs: seq<int>, spc: nat, n: nat)
    requires Laid(w, w', cs) && Uniform(w'.data, spc) && n <= SECTOR_SIZE * |Sectors(w'.data, cs)|
    ensures Enough(w, spc, n)
  {
    CountLaid(w, w', cs);
    SectorsLength(w'.data, cs, spc);
    Scaled(|cs|, CountZero(w.fat, 2, |w.data|), spc);
  }

  /** When a full chain has taken every free cluster and bytes remain, the file does not fit. */
  lemma LaidFull(w: View, w': View, cs: seq<int>, spc: nat, n: nat)
    requires Laid(w, w', cs) && Uniform(w'.data, spc) && n > SECTOR_SIZE * |Sectors(w'.data, cs)|
    requires CountZero(w.fat, 2, |w.data|) == |cs|
    ensures !Enough(w, spc, n)
  {
    SectorsLength(w'.data, cs, spc);
  }

  /** A file of n bytes takes no fewer than k clusters. */
  ghost predicate Tight(k: int, spc: nat, n: nat) {
    k == 1 || SECTOR_SIZE * ((k - 1) * spc) < n
  }

  lemma TightGrow(data: seq<Cluster>, cs: seq<int>, spc: nat, n: nat)
    requires Inside(|data|, cs) && Uniform(data, spc) && SECTOR_SIZE * |Sectors(data, cs)| < n
    ensures Tight(|cs| + 1, spc, n)
  {
    SectorsLength(data, cs, spc);
  }

  /** Add a cluster to a laid chain, or give all its clusters back. */
  method GrowChain(vol: Volume, ghost w: View, first: u32, ghost cs: seq<int>, last: nat) returns (next: u32)
    requires vol.Valid() && Laid(w, vol.v, cs) && cs[0] == first && cs[|cs| - 1] == last
    modifies vol`disk, vol`cache, vol`v, vol`hint
    ensures vol.Valid() && Shape(vol.v) && Ranged(vol.v.fat) && vol.v.data == old(vol.v.data)
    ensures next == 0 ==> vol.v.fat == w.fat && CountZero(w.fat, 2, |w.data|) == |cs| && ShortKept(old(vol.v), vol.v, 0)
    ensures next != 0 ==> Laid(w, vol.v, cs + [next]) && Spent(old(vol.v), vol.v)
  {
    ghost var w1 := vol.v;
    next := vol.AllocCluster();
    if next == 0 {
      CountLaid(w, w1, cs);
      CountNone(w1.fat, 2, |w.data|);
      vol.FreeChain(first, cs);
      LaidUndo(w, w1, vol.v, cs);
    } else {
      LinkNext(vol, w, w1, cs, last, next);
    }
  }

  /** Link the last cluster of a laid chain to one just taken. */
  method LinkNext(vol: Volume, ghost w: View, ghost w1: View, ghost cs: seq<int>, last: nat, next: u32)
    requires vol.Valid() && Shape(vol.v) && Laid(w, w1, cs) && cs[|cs| - 1] == last && 2 <= next < |w.data|
    requires w1.fat[next] == 0 && vol.v.fat == w1.fat[next := EOC] && vol.v.data == w1.data
    modifies vol`disk, vol`cache, vol`v
    ensures vol.Valid() && Shape(vol.v) && vol.v.data == w1.data && vol.v.free == old(vol.v.free)
    ensures Laid(w, vol.v, cs + [next]) && FreeIn(vol.v) == FreeIn(old(vol.v))
  {
    LaidLast(w, w1, cs);
    CountSet(vol.v.fat, 2, |w.data|, last, next);
    vol.WriteEntry(last, next);
    LaidGrow(w, w1, vol.v, cs, next);
  }

  lemma LaidLast(w: View, w1: View, cs: seq<int>)
    requires Laid(w, w1, cs)
    ensures w1.fat[cs[|cs| - 1]] == EOC
  {
    assert After(cs, |cs| - 1) == EOC;
  }

  /** Fill the last cluster of a laid chain. */
  method FillLast(vol: Volume, ghost w: View, ghost cs: seq<int>, cur: nat, file: seq<byte>, start: nat)
    returns (off: nat)
    requires vol.Valid() && Laid(w, vol.v, cs) && cur == cs[|cs| - 1] && start < |file|
    requires Progress(vol.v.data, cs, file, start)
    modifies vol`disk, vol`v
    ensures vol.Valid() && vol.v == old(vol.v).(data := vol.v.data) && Laid(w, vol.v, cs) && start < off <= |file|
    ensures FilledTo(vol.v, cs, file, off)
  {
    ghost var w1 := vol.v;
    ghost var k;
    off, k := FillCluster(vol, cur, file, start);
    ProgressFill(w1, vol.v, cs, file, start, off, k);
    LaidData(w, w1, vol.v, cs, cur);
  }

  lemma ProgressGrow(data: seq<Cluster>, cs: seq<int>, cs': seq<int>, file: seq<byte>, off: nat)
    requires Inside(|data|, cs) && Inside(|data|, cs') && |cs'| == |cs| + 1 && cs <= cs'
    requires off < |file| && off == SECTOR_SIZE * |Sectors(data, cs)| && Holds(Sectors(data, cs), file)
    ensures Progress(data, cs', file, off)
  {
    assert cs'[..|cs|] == cs;
  }

  /** After a round of the write loop: the chain, now cs', holds the file up to off, or clusters ran out and all that
      were taken are back. */
  ghost predicate Advanced(w: View, w0: View, w': View, first: u32, cs: seq<int>, next: u32, cs': seq<int>,
      file: seq<byte>, off: nat, spc: nat)
    requires Shape(w)
  {
    if next == 0
    then
      && !Enough(w, spc, |file|) && w'.fat == w.fat && |w'.data| == |w.data| && ShortKept(w0, w', 0)
      && forall c | 0 <= c < |w.data| && w.fat[c] != 0 :: w'.data[c] == w.data[c]
    else
      && Laid(w, w', cs') && cs'[0] == first && next == cs'[|cs'| - 1] && Progress(w'.data, cs', file, off)
      && Spent(w0, w') && (Tight(|cs|, spc, |file|) ==> Tight(|cs'|, spc, |file|))
  }

  lemma AdvancedFrom(w: View, w0: View, w1: View, w': View, first: u32, cs: seq<int>, next: u32, cs': seq<int>,
      file: seq<byte>, off: nat, spc: nat)
    requires w1 == w0.(data := w1.data) && |w1.data| == |w0.data| && Shape(w)
    requires Advanced(w, w1, w', first, cs, next, cs', file, off, spc)
    ensures Advanced(w, w0, w', first, cs, next, cs', file, off, spc)
  {
  }

  lemma GrownOn(w: View, w1: View, w': View, first: u32, cs: seq<int>, next: u32, file: seq<byte>, off: nat, spc: nat)
    requires Laid(w, w1, cs) && cs[0] == first && w'.data == w1.data && Uniform(w1.data, spc)
    requires off < |file| && off == SECTOR_SIZE * |Sectors(w1.data, cs)| && Holds(Sectors(w1.data, cs), file)
    requires next == 0 ==> w'.fat == w.fat && CountZero(w.fat, 2, |w.data|) == |cs| && ShortKept(w1, w', 0)
    requires next != 0 ==> Laid(w, w', cs + [next]) && Spent(w1, w')
    ensures Advanced(w, w1, w', first, cs, next, cs + [next], file, off, spc)
  {
    if next == 0 {
      LaidFull(w, w1, cs, spc, |file|);
    } else {
      TightGrow(w1.data, cs, spc, |file|);
      ProgressGrow(w'.data, cs, cs + [next], file, off);
    }
  }

  /** Another round. */
  lemma AdvancedOn(w: View, w1: View, w': View, first: u32, cs1: seq<int>, next: u32, cs': seq<int>, file: seq<byte>,
      off: nat, spc: nat)
    requires Shape(w) && Spent(w, w1) && Tight(|cs1|, spc, |file|)
    requires Advanced(w, w1, w', first, cs1, next, cs', file, off, spc)
    ensures Advanced(w, w, w', first, [first], next, cs', file, off, spc)
  {
  }

  lemma AllIn(w: View, w1: View, first: u32, cs: seq<int>, cur: u32, file: seq<byte>, off: nat, spc: nat)
    requires Laid(w, w1, cs) && Shape(w1) && cs[0] == first && cur == cs[|cs| - 1]
    requires Progress(w1.data, cs, file, off)
    ensures Advanced(w, w1, w1, first, cs, cur, cs, file, off, spc)
  {
  }

  /** A filled chain: linked to another cluster if bytes remain. */
  ghost predicate FilledTo(v: View, cs: seq<int>, file: seq<byte>, off: nat)
    requires Inside(|v.data|, cs) && |cs| > 0
  {
    if off == |file| then Progress(v.data, cs, file, off)
    else off < |file| && off == SECTOR_SIZE * |Sectors(v.data, cs)| && Holds(Sectors(v.data, cs), file)
  }

  method NextCluster(vol: Volume, ghost w: View, first: u32, ghost cs: seq<int>, cur: u32, file: seq<byte>, off: nat)
    returns (next: u32, ghost cs': seq<int>)
    requires vol.Valid() && Shape(vol.v) && Laid(w, vol.v, cs) && cs[0] == first && cur == cs[|cs| - 1]
    requires FilledTo(vol.v, cs, file, off)
    modifies vol`disk, vol`cache, vol`v, vol`hint
    ensures vol.Valid() && Shape(vol.v) && Ranged(vol.v.fat)
    ensures Advanced(w, old(vol.v), vol.v, first, cs, next, cs', file, off, vol.g.sectorsPerCluster)
  {
    ShapeOf(vol.g, vol.disk, vol.v);
    if off == |file| {
      next, cs' := cur, cs;
      AllIn(w, vol.v, first, cs, cur, file, off, vol.g.sectorsPerCluster);
    } else {
      next := GrowChain(vol, w, first, cs, cur);
      cs' := cs + [next];
      GrownOn(w, old(vol.v), vol.v, first, cs, next, file, off, vol.g.sectorsPerCluster);
    }
  }

  /** One round of the write loop: fill the last cluster, then link another if bytes remain; 0 if clusters ran out. */
  method WriteStep(vol: Volume, ghost w: View, first: u32, ghost cs: seq<int>, cur: u32, file: seq<byte>, start: nat)
    returns (off: nat, next: u32, ghost cs': seq<int>)
    requires vol.Valid() && Shape(vol.v) && Laid(w, vol.v, cs) && cs[0] == first && cur == cs[|cs| - 1]
    requires start < |file| && Progress(vol.v.data, cs, file, start)
    modifies vol`disk, vol`cache, vol`v, vol`hint
    ensures vol.Valid() && Shape(vol.v) && Ranged(vol.v.fat) && start < off <= |file|
    ensures Advanced(w, old(vol.v), vol.v, first, cs, next, cs', file, off, vol.g.sectorsPerCluster)
  {
    off := FillLast(vol, w, cs, cur, file, start);
    ghost var w1 := vol.v;
    next, cs' := NextCluster(vol, w, first, cs, cur, file, off);
    AdvancedFrom(w, old(vol.v), w1, vol.v, first, cs, next, cs', file, off, vol.g.sectorsPerCluster);
  }

  /** The chain-building half of fs_write_file: a new chain holding the file, or every FAT entry as it was. */
  method WriteChain(vol: Volume, file: seq<byte>) returns (first: u32, ghost cs: seq<int>)
    requires vol.Valid() && Ranged(vol.v.fat)
    modifies vol`disk, vol`cache, vol`v, vol`hint
    ensures vol.Valid() && Shape(vol.v) && Ranged(vol.v.fat) && |vol.v.data| == |old(vol.v.data)|
    ensures |vol.v.fat| == |old(vol.v.fat)|
    ensures first == 0 ==> vol.v.fat == old(vol.v.fat) && old(Shape(vol.v))
    ensures first == 0 ==> !Enough(old(vol.v), vol.g.sectorsPerCluster, |file|)
    ensures first == 0 ==> forall c | 0 <= c < |vol.v.data| && vol.v.fat[c] != 0 :: vol.v.data[c] == old(vol.v.data)[c]
    ensures first != 0 ==> Laid(old(vol.v), vol.v, cs) && first == cs[0]
    ensures first != 0 ==> Enough(old(vol.v), vol.g.sectorsPerCluster, |file|)
    ensures first != 0 ==> |file| <= SECTOR_SIZE * |Sectors(vol.v.data, cs)|
    ensures first != 0 ==> Content(Sectors(vol.v.data, cs), |file|) == file
    ensures if first == 0 then ShortKept(old(vol.v), vol.v, 0) else Spent(old(vol.v), vol.v)
    ensures first != 0 ==> Tight(|cs|, vol.g.sectorsPerCluster, |file|)
  {
    ShapeOf(vol.g, vol.disk, vol.v);
    first := vol.AllocCluster();
    cs := [];
    if first == 0 {
      CountNone(vol.v.fat, 2, |vol.v.data|);
      return;
    }
    LaidStart(old(vol.v), vol.v, first);
    cs := [first];
    var cur, off := first, 0;
    while cur != 0 && off < |file|
      invariant vol.Valid() && Shape(vol.v) && Ranged(vol.v.fat) && off <= |file|
      invariant Advanced(old(vol.v), old(vol.v), vol.v, first, [first], cur, cs, file, off, vol.g.sectorsPerCluster)
      decreases |file| - off
    {
      ghost var w1, cs1 := vol.v, cs;
      off, cur, cs := WriteStep(vol, old(vol.v), first, cs, cur, file, off);
      AdvancedOn(old(vol.v), w1, vol.v, first, cs1, cur, cs, file, off, vol.g.sectorsPerCluster);
    }
    ShapeOf(vol.g, vol.disk, vol.v);
    if cur == 0 {
      first := 0;
    } else {
      LaidFits(old(vol.v), vol.v, cs, vol.g.sectorsPerCluster, |file|);
    }
  }

  // ---- reading ----

  /** Copy from one cluster of a chain into the buffer. */
  method ReadCluster(vol: Volume, c: nat, size: nat, ghost cs: seq<int>, ghost n: nat, start: seq<byte>)
    returns (buf: seq<byte>)
    requires vol.Valid() && Inside(|vol.v.data|, cs) && n < |cs| && c == cs[n]
    requires size <= SECTOR_SIZE * |Sectors(vol.v.data, cs)|
    requires |start| == SECTOR_SIZE * |Sectors(vol.v.data, cs[..n])| <= size
    requires start == Content(Sectors(vol.v.data, cs), |start|)
    ensures |buf| <= size && buf == Content(Sectors(vol.v.data, cs), |buf|)
    ensures |buf| < size ==> |buf| == SECTOR_SIZE * |Sectors(vol.v.data, cs[..n + 1])|
  {
    buf := start;
    ghost var secs, at := Sectors(vol.v.data, cs), |Sectors(vol.v.data, cs[..n])|;
    var s := 0;
    while s < vol.g.sectorsPerCluster && |buf| < size
      invariant s <= vol.g.sectorsPerCluster && |buf| <= size && buf == Content(secs, |buf|)
      invariant |buf| < size ==> |buf| == SECTOR_SIZE * (at + s)
    {
      var b := vol.GetSector(c, s);
      SectorsAt(vol.v.data, cs, n, s);
      var k := SECTOR_SIZE;
      if |buf| + k > size { k := size - |buf|; }
      ContentStep(secs, |buf|, k);
      buf := buf + b[..k];
      s := s + 1;
    }
    assert cs[..n + 1] == cs[..n] + [c];
    SectorsAppend(vol.v.data, cs[..n], c);
  }

  /** The chain walk of fs_read_file: exactly the first size bytes the chain holds. */
  method ReadChain(vol: Volume, first: u32, size: nat, ghost cs: seq<int>) returns (buf: seq<byte>)
    requires vol.Valid() && IsChain(vol.v.fat, |vol.v.data|, cs) && |cs| > 0 && first == cs[0]
    requires size <= SECTOR_SIZE * |Sectors(vol.v.data, cs)|
    ensures buf == Content(Sectors(vol.v.data, cs), size)
  {
    ShapeOf(vol.g, vol.disk, vol.v);
    buf := [];
    var cur := first;
    ghost var n := 0;
    while |buf| < size && cur != EOC && cur != IO_ERROR
      invariant |buf| <= size && n <= |cs| && buf == Content(Sectors(vol.v.data, cs), |buf|)
      invariant cur == if n < |cs| then cs[n] else EOC
      invariant |buf| < size ==> |buf| == SECTOR_SIZE * |Sectors(vol.v.data, cs[..n])|
      decreases |cs| - n
    {
      buf := ReadCluster(vol, cur, size, cs, n, buf);
      assert vol.v.fat[cs[n]] == After(cs, n);
      cur := vol.ReadEntry(cur);
      n := n + 1;
    }
    assert cs[..|cs|] == cs;
  }
}
