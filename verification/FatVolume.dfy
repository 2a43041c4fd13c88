/** The FAT32 cluster layer: cached table, allocator, chain freeing and the
    sector transfers, over a sector device. */
module FatVolume {
  import opened Bytes
  import opened FatDisk
  import opened FatChain
  import opened FatFile

  // ---- the device and its view ----

  /** Entry i of the FAT on disk. */
  ghost function EntryOn(reserved: nat, disk: seq<Sector>, i: nat): u32
    requires reserved + i * 4 / SECTOR_SIZE < |disk|
  {
    Le32(disk[reserved + i * 4 / SECTOR_SIZE], i * 4 % SECTOR_SIZE)
  }

  ghost predicate FatModel(g: Geo, disk: seq<Sector>, fat: seq<u32>)
    requires GeoOk(g) && |disk| == DISK_MAX_SECTORS
  {
    && |fat| == EntryCount(g) && g.reserved + g.sectorsPerFat <= DISK_MAX_SECTORS
    && forall i {:trigger EntryOn(g.reserved, disk, i)} | 0 <= i < |fat| :: fat[i] == EntryOn(g.reserved, disk, i)
  }

  /** Sector s of cluster c on disk. */
  ghost function SectorOn(g: Geo, disk: seq<Sector>, c: nat, s: nat): Sector
    requires GeoOk(g) && |disk| == DISK_MAX_SECTORS && InRange(g, c) && s < g.sectorsPerCluster
  {
    ClusterInside(g, c, s);
    disk[ClusterSector(g, c) + s]
  }

  ghost predicate DataModel(g: Geo, disk: seq<Sector>, data: seq<Cluster>)
    requires GeoOk(g) && |disk| == DISK_MAX_SECTORS
  {
    && |data| == MaxCluster(g)
    && (forall c | 2 <= c < |data| :: |data[c]| == g.sectorsPerCluster)
    && forall c, s {:trigger SectorOn(g, disk, c, s)} | 2 <= c < |data| && 0 <= s < g.sectorsPerCluster ::
      data[c][s] == SectorOn(g, disk, c, s)
  }

  /** What a device holds: its first FAT, its clusters and the FSInfo free count. */
  ghost predicate Models(g: Geo, disk: seq<Sector>, v: View) {
    && GeoOk(g) && |disk| == DISK_MAX_SECTORS && g.infoSector < DISK_MAX_SECTORS
    && FatModel(g, disk, v.fat) && DataModel(g, disk, v.data) && v.free == Le32(disk[g.infoSector], 0)
  }

  /** The in-memory table equals the FAT sectors on disk. */
  ghost predicate Coherent(g: Geo, disk: seq<Sector>, cache: seq<byte>) {
    && |cache| == SECTOR_SIZE * g.sectorsPerFat && g.reserved + g.sectorsPerFat <= |disk|
    && forall s | 0 <= s < g.sectorsPerFat ::
      cache[SECTOR_SIZE * s..SECTOR_SIZE * s + SECTOR_SIZE] == disk[g.reserved + s]
  }

  lemma ShapeOf(g: Geo, disk: seq<Sector>, v: View)
    requires Models(g, disk, v)
    ensures Shape(v)
  {
    FatsBeforeData(g);
  }

  lemma EntryPlace(c: nat)
    ensures c * 4 % SECTOR_SIZE + 4 <= SECTOR_SIZE && c * 4 % SECTOR_SIZE % 4 == 0
    ensures SECTOR_SIZE * (c * 4 / SECTOR_SIZE) + c * 4 % SECTOR_SIZE == 4 * c
  {
  }

  lemma OtherWord(b: seq<byte>, i: nat, j: nat, x: u32)
    requires i + 4 <= |b| && j + 4 <= |b| && (i + 4 <= j || j + 4 <= i)
    ensures Le32(Put32(b, i, x), j) == Le32(b, j)
  {
  }

  lemma EntryRead(g: Geo, disk: seq<Sector>, cache: seq<byte>, fat: seq<u32>, c: nat)
    requires GeoOk(g) && |disk| == DISK_MAX_SECTORS && FatModel(g, disk, fat) && Coherent(g, disk, cache)
    requires c < EntryCount(g)
    ensures 4 * c + 4 <= |cache| && Le32(cache, 4 * c) == fat[c]
  {
    EntryPlace(c);
    var s, o := c * 4 / SECTOR_SIZE, c * 4 % SECTOR_SIZE;
    assert fat[c] == EntryOn(g.reserved, disk, c);
    WordIn(cache, SECTOR_SIZE * s, o, disk[g.reserved + s]);
  }

  lemma WordIn(cache: seq<byte>, from: nat, o: nat, b: Sector)
    requires from + SECTOR_SIZE <= |cache| && cache[from..from + SECTOR_SIZE] == b && o + 4 <= SECTOR_SIZE
    ensures Le32(cache, from + o) == Le32(b, o)
  {
    assert b[o] == cache[from + o] && b[o + 1] == cache[from + o + 1] && b[o + 2] == cache[from + o + 2]
      && b[o + 3] == cache[from + o + 3];
  }

  lemma EntryPatched(reserved: nat, disk: seq<Sector>, c: nat, x: u32, sector: nat, b: Sector, i: nat)
    requires sector == reserved + c * 4 / SECTOR_SIZE < |disk| && c * 4 % SECTOR_SIZE + 4 <= SECTOR_SIZE
    requires b == Put32(disk[sector], c * 4 % SECTOR_SIZE, x) && reserved + i * 4 / SECTOR_SIZE < |disk|
    ensures EntryOn(reserved, disk[sector := b], i) == if i == c then x else EntryOn(reserved, disk, i)
  {
    EntryPlace(c);
    EntryPlace(i);
    if i != c && i * 4 / SECTOR_SIZE == c * 4 / SECTOR_SIZE {
      OtherWord(disk[sector], c * 4 % SECTOR_SIZE, i * 4 % SECTOR_SIZE, x);
    }
  }

  /** Storing an entry in its FAT sector changes that entry and no other. */
  lemma EntryWrite(g: Geo, disk: seq<Sector>, fat: seq<u32>, c: nat, x: u32, sector: nat, b: Sector)
    requires GeoOk(g) && |disk| == DISK_MAX_SECTORS && FatModel(g, disk, fat) && c < |fat|
    requires sector == g.reserved + c * 4 / SECTOR_SIZE < DISK_MAX_SECTORS && c * 4 % SECTOR_SIZE + 4 <= SECTOR_SIZE
    requires b == Put32(disk[sector], c * 4 % SECTOR_SIZE, x)
    ensures FatModel(g, disk[sector := b], fat[c := x])
  {
    var d', fat' := disk[sector := b], fat[c := x];
    forall i {:trigger EntryOn(g.reserved, d', i)} | 0 <= i < |fat'| ensures fat'[i] == EntryOn(g.reserved, d', i) {
      EntryPatched(g.reserved, disk, c, x, sector, b, i);
    }
  }

  lemma CacheWrite(g: Geo, disk: seq<Sector>, cache: seq<byte>, c: nat, x: u32, sector: nat, b: Sector)
    requires GeoOk(g) && |disk| == DISK_MAX_SECTORS && Coherent(g, disk, cache) && 4 * c + 4 <= |cache|
    requires sector == g.reserved + c * 4 / SECTOR_SIZE < DISK_MAX_SECTORS && c * 4 % SECTOR_SIZE + 4 <= SECTOR_SIZE
    requires b == Put32(disk[sector], c * 4 % SECTOR_SIZE, x)
    ensures Coherent(g, disk[sector := b], Put32(cache, 4 * c, x))
  {
    EntryPlace(c);
    var t, o := c * 4 / SECTOR_SIZE, c * 4 % SECTOR_SIZE;
    var d', k := disk[sector := b], Put32(cache, 4 * c, x);
    forall s | 0 <= s < g.sectorsPerFat
      ensures k[SECTOR_SIZE * s..SECTOR_SIZE * s + SECTOR_SIZE] == d'[g.reserved + s]
    {
      PutInSlice(cache, SECTOR_SIZE * s, disk[g.reserved + s], 4 * c, x);
    }
  }

  /** Storing a word in a buffer stores it in the sector-sized slice that holds it and leaves the other slices alone. */
  lemma PutInSlice(cache: seq<byte>, from: nat, b: Sector, i: nat, x: u32)
    requires from + SECTOR_SIZE <= |cache| && cache[from..from + SECTOR_SIZE] == b && i + 4 <= |cache|
    ensures from <= i && i + 4 <= from + SECTOR_SIZE ==>
      Put32(cache, i, x)[from..from + SECTOR_SIZE] == Put32(b, i - from, x)
    ensures i + 4 <= from || from + SECTOR_SIZE <= i ==> Put32(cache, i, x)[from..from + SECTOR_SIZE] == b
  {
    var k := Put32(cache, i, x)[from..from + SECTOR_SIZE];
    forall j | 0 <= j < SECTOR_SIZE && !(i <= from + j < i + 4) ensures k[j] == b[j] { assert k[j] == cache[from + j]; }
    if from <= i && i + 4 <= from + SECTOR_SIZE {
      var p := Put32(b, i - from, x);
      forall j | 0 <= j < SECTOR_SIZE ensures k[j] == p[j] {
        if i <= from + j < i + 4 { SameWord(cache, i, b, i - from, x, from + j - i); }
      }
    }
  }

  lemma SameWord(a: seq<byte>, i: nat, b: seq<byte>, j: nat, x: u32, k: nat)
    requires i + 4 <= |a| && j + 4 <= |b| && k < 4
    ensures Put32(a, i, x)[i + k] == Put32(b, j, x)[j + k]
  {
  }

  lemma SectorPatched(g: Geo, disk: seq<Sector>, c: nat, s: nat, b: Sector, at: nat, e: nat, t: nat)
    requires GeoOk(g) && |disk| == DISK_MAX_SECTORS && InRange(g, c) && s < g.sectorsPerCluster && InRange(g, e)
    requires t < g.sectorsPerCluster
    requires at == ClusterSector(g, c) + s < DISK_MAX_SECTORS
    ensures SectorOn(g, disk[at := b], e, t) == if e == c && t == s then b else SectorOn(g, disk, e, t)
  {
    ClusterInside(g, e, t);
    var p := ClusterSector(g, e) + t;
    if e == c && t == s { } else { SectorsApart(g, c, s, e, t); }
    assert SectorOn(g, disk, e, t) == disk[p] && SectorOn(g, disk[at := b], e, t) == disk[at := b][p];
  }

  lemma FatFrame(g: Geo, disk: seq<Sector>, fat: seq<u32>, at: nat, b: Sector)
    requires GeoOk(g) && |disk| == DISK_MAX_SECTORS && FatModel(g, disk, fat) && at < DISK_MAX_SECTORS
    requires at < g.reserved || g.reserved + g.sectorsPerFat <= at
    ensures FatModel(g, disk[at := b], fat)
  {
    FatsBeforeData(g);
    var d' := disk[at := b];
    forall i {:trigger EntryOn(g.reserved, d', i)} | 0 <= i < |fat| ensures fat[i] == EntryOn(g.reserved, d', i) {
      EntryPlace(i);
      assert fat[i] == EntryOn(g.reserved, disk, i);
    }
  }

  /** A sector write inside a cluster changes that sector of the view and nothing else. */
  lemma SectorWrite(g: Geo, disk: seq<Sector>, v: View, c: nat, s: nat, b: Sector, at: nat, data': seq<Cluster>)
    requires Models(g, disk, v) && 2 <= c < |v.data| && s < g.sectorsPerCluster && data' == WithSector(v.data, c, s, b)
    requires at == ClusterSector(g, c) + s && FirstData(g) <= at < DISK_MAX_SECTORS
    ensures Models(g, disk[at := b], v.(data := data'))
  {
    FatsBeforeData(g);
    FatFrame(g, disk, v.fat, at, b);
    var d' := disk[at := b];
    forall e, t {:trigger SectorOn(g, d', e, t)} | 2 <= e < |data'| && 0 <= t < g.sectorsPerCluster
      ensures data'[e][t] == SectorOn(g, d', e, t)
    {
      SectorPatched(g, disk, c, s, b, at, e, t);
    }
  }

  /** No data-cluster write lands in a FAT sector. */
  lemma DataCoherent(g: Geo, disk: seq<Sector>, cache: seq<byte>, c: nat, s: nat, b: Sector)
    requires GeoOk(g) && |disk| == DISK_MAX_SECTORS && InRange(g, c) && s < g.sectorsPerCluster
    requires Coherent(g, disk, cache)
    ensures 0 <= ClusterSector(g, c) + s < DISK_MAX_SECTORS
    ensures Coherent(g, disk[ClusterSector(g, c) + s := b], cache)
  {
    ClusterInside(g, c, s);
    FatsBeforeData(g);
  }

  lemma DataFrame(g: Geo, disk: seq<Sector>, data: seq<Cluster>, at: nat, b: Sector)
    requires GeoOk(g) && |disk| == DISK_MAX_SECTORS && DataModel(g, disk, data) && at < FirstData(g)
    ensures DataModel(g, disk[at := b], data)
  {
    var d' := disk[at := b];
    forall c, s {:trigger SectorOn(g, d', c, s)} | 2 <= c < |data| && 0 <= s < g.sectorsPerCluster
      ensures data[c][s] == SectorOn(g, d', c, s)
    {
      ClusterInside(g, c, s);
      assert data[c][s] == SectorOn(g, disk, c, s);
    }
  }

  lemma EntrySector(g: Geo, disk: seq<Sector>, v: View, c: nat)
    requires Models(g, disk, v) && c < |v.fat|
    ensures g.reserved + c * 4 / SECTOR_SIZE < FirstData(g) <= DISK_MAX_SECTORS
    ensures c * 4 % SECTOR_SIZE + 4 <= SECTOR_SIZE
    ensures c < EntryCount(g) && 4 * c + 4 <= SECTOR_SIZE * g.sectorsPerFat
  {
    FatsBeforeData(g);
    EntryPlace(c);
  }

  /** A FAT entry write changes the view's table at that entry, and neither the clusters nor FSInfo. */
  lemma EntryModels(g: Geo, disk: seq<Sector>, v: View, c: nat, x: u32, sector: nat, b: Sector, fat': seq<u32>)
    requires Models(g, disk, v) && c < |v.fat|
    requires sector == g.reserved + c * 4 / SECTOR_SIZE < DISK_MAX_SECTORS && c * 4 % SECTOR_SIZE + 4 <= SECTOR_SIZE
    requires b == Put32(disk[sector], c * 4 % SECTOR_SIZE, x) && fat' == v.fat[c := x]
    ensures Models(g, disk[sector := b], v.(fat := fat'))
  {
    EntrySector(g, disk, v, c);
    EntryWrite(g, disk, v.fat, c, x, sector, b);
    DataFrame(g, disk, v.data, sector, b);
  }

  /** FSInfo's 32-bit free count after freeing n clusters. */
  function FreeAfter(free: u32, n: nat): u32 {
    if free == UNKNOWN then UNKNOWN else (free + n) % 0x1_0000_0000
  }

  /** c is the first free cluster at or after the hint, going round once. */
  ghost predicate NextFit(fat: seq<u32>, max: nat, hint: int, c: int)
    requires 2 <= max <= |fat|
  {
    var start := if 2 <= hint < max then hint else 2;
    && 2 <= c < max && fat[c] == 0
    && if c >= start then forall k | start <= k < c :: fat[k] != 0
       else (forall k | start <= k < max :: fat[k] != 0) && forall k | 2 <= k < c :: fat[k] != 0
  }

  class Volume {
    const g: Geo
    var disk: seq<Sector>
    var cache: seq<byte>
    var cached: bool
    var hint: u32
    ghost var v: View

    ghost predicate Valid()
      reads this
    {
      Models(g, disk, v) && (cached ==> Coherent(g, disk, cache))
    }

    /** A volume just probed, its table not cached yet. */
    constructor (g: Geo, disk: seq<Sector>, ghost v: View)
      requires Models(g, disk, v)
      ensures Valid() && this.g == g && this.v == v && !cached && hint == 2
    {
      this.g, this.disk, this.v := g, disk, v;
      cache, cached, hint := [], false, 2;
    }

    // fat_read_entry; a number beyond the table names a word after it, or no sector at all
    method ReadEntry(c: nat) returns (x: u32)
      requires Valid()
      ensures c < |v.fat| ==> x == v.fat[c]
      ensures c >= |v.fat| ==>
        x == if g.reserved + c * 4 / SECTOR_SIZE < |disk| then EntryOn(g.reserved, disk, c) else IO_ERROR
    {
      if cached && c < EntryCount(g) {
        EntryRead(g, disk, cache, v.fat, c);
        x := Le32(cache, c * 4);
      } else {
        var sector := g.reserved + c * 4 / SECTOR_SIZE;
        if c < |v.fat| { EntrySector(g, disk, v, c); }
        EntryPlace(c);
        x := IO_ERROR;
        if sector < |disk| {
          var b := disk[sector];
          x := Le32(b, c * 4 % SECTOR_SIZE);
          assert x == EntryOn(g.reserved, disk, c);
        }
      }
    }

    // fat_write_entry, for an entry of the table
    method WriteEntry(c: nat, x: u32)
      requires Valid() && c < |v.fat|
      modifies this`disk, this`cache, this`v
      ensures Valid() && v == old(v).(fat := old(v.fat)[c := x])
    {
      EntrySector(g, disk, v, c);
      var sector, off := g.reserved + c * 4 / SECTOR_SIZE, c * 4 % SECTOR_SIZE;
      var b: Sector := Put32(disk[sector], off, x);
      ghost var fat' := v.fat[c := x];
      EntryModels(g, disk, v, c, x, sector, b, fat');
      if cached && c < EntryCount(g) {
        CacheWrite(g, disk, cache, c, x, sector, b);
        cache := Put32(cache, c * 4, x);
      }
      disk := disk[sector := b];
      v := v.(fat := fat');
    }

    // disk_read_sector inside a cluster
    method GetSector(c: nat, s: nat) returns (b: Sector)
      requires Valid() && 2 <= c < |v.data| && s < g.sectorsPerCluster
      ensures s < |v.data[c]| && b == v.data[c][s]
    {
      ClusterInside(g, c, s);
      assert v.data[c][s] == SectorOn(g, disk, c, s);
      b := disk[ClusterSector(g, c) + s];
    }

    // disk_write_sector inside a cluster
    method PutSector(c: nat, s: nat, b: Sector)
      requires Valid() && 2 <= c < |v.data| && s < g.sectorsPerCluster
      modifies this`disk, this`v
      ensures Valid() && s < |old(v.data)[c]| && v == old(v).(data := WithSector(old(v.data), c, s, b))
    {
      ghost var data' := WithSector(v.data, c, s, b);
      ClusterInside(g, c, s);
      var at := ClusterSector(g, c) + s;
      SectorWrite(g, disk, v, c, s, b, at, data');
      if cached { DataCoherent(g, disk, cache, c, s, b); }
      disk := disk[at := b];
      v := v.(data := data');
    }

    /** Rewrite FSInfo's free count and next-free hint. */
    method WriteInfo(free: u32, next: u32)
      requires Valid()
      modifies this`disk, this`v
      ensures Valid() && v == old(v).(free := free)
    {
      FatsBeforeData(g);
      var b: Sector := Put32(Put32(disk[g.infoSector], 4, next), 0, free);
      FatFrame(g, disk, v.fat, g.infoSector, b);
      DataFrame(g, disk, v.data, g.infoSector, b);
      disk := disk[g.infoSector := b];
      v := v.(free := free);
    }

    // fat_cache_load
    method LoadCache()
      requires Valid() && !cached
      modifies this`cache, this`cached
      ensures Valid() && cached
    {
      FatsBeforeData(g);
      var buf: seq<byte> := [];
      for s := 0 to g.sectorsPerFat
        invariant |buf| == SECTOR_SIZE * s
        invariant forall t | 0 <= t < s :: buf[SECTOR_SIZE * t..SECTOR_SIZE * t + SECTOR_SIZE] == disk[g.reserved + t]
      {
        var b := disk[g.reserved + s];
        ghost var was := buf;
        buf := buf + b;
        forall t | 0 <= t < s + 1 ensures buf[SECTOR_SIZE * t..SECTOR_SIZE * t + SECTOR_SIZE] == disk[g.reserved + t] {
          if t < s {
            var p, q := SECTOR_SIZE * t, SECTOR_SIZE * t + SECTOR_SIZE;
            assert buf[p..q] == was[p..q];
          }
        }
      }
      cache, cached := buf, true;
    }

    /** Count the free clusters in the allocatable range. */
    method CountFree(max: nat) returns (n: nat)
      requires Valid() && 2 <= max <= |v.fat|
      ensures n == CountZero(v.fat, 2, max)
    {
      n := 0;
      for c := 2 to max
        invariant n == CountZero(v.fat, 2, c)
      {
        var x := ReadEntry(c);
        if x == 0 { n := n + 1; }
      }
    }

    /** FSInfo after handing out a cluster: counted on the first allocation, decremented later. */
    method NoteAlloc(c: u32, max: nat)
      requires Valid() && Shape(v) && max == |v.data| && 2 <= c < max
      modifies this`disk, this`v
      ensures Valid() && v == old(v).(free := v.free)
      ensures v.free == if old(v.free) == UNKNOWN then CountZero(v.fat, 2, max)
        else if old(v.free) > 0 then old(v.free) - 1 else 0
    {
      var free: u32 := Le32(disk[g.infoSector], 0);
      if free == UNKNOWN {
        free := CountFree(max);
      } else if free > 0 {
        free := free - 1;
      }
      WriteInfo(free, c);
    }

    // fat_alloc_cluster
    method AllocCluster() returns (c: u32)
      requires Valid()
      modifies this`disk, this`cache, this`v, this`hint
      ensures Valid() && Shape(v) && Shape(old(v)) && v.data == old(v.data)
      ensures c == 0 ==> v == old(v) && forall k | 2 <= k < |v.data| :: v.fat[k] != 0
      ensures c != 0 ==> 2 <= c < |v.data| && old(v.fat)[c] == 0 && v.fat == old(v.fat)[c := EOC]
      ensures c != 0 ==> NextFit(old(v.fat), |v.data|, old(hint), c) && hint == if c + 1 >= |v.data| then 2 else c + 1
      ensures Spent(old(v), v) && (c != 0 ==> v.free != UNKNOWN && FreeIn(v) == FreeIn(old(v)) - 1)
    {
      ShapeOf(g, disk, v);
      FatsBeforeData(g);
      var max := MaxCluster(g);
      var start: nat := hint;
      if start < 2 || start >= max { start := 2; }
      var k := start;
      ghost var wrapped := false;
      while true
        invariant 2 <= start < max && 2 <= k < max && v == old(v)
        invariant !wrapped ==> start <= k && forall j | start <= j < k :: v.fat[j] != 0
        invariant wrapped ==> k < start && forall j | start <= j < max || 2 <= j < k :: v.fat[j] != 0
        invariant disk == old(disk) && cache == old(cache)
        decreases if wrapped then start - k else max + start - k
      {
        var x := ReadEntry(k);
        if x == 0 {
          Claim(k, max);
          hint := if k + 1 >= max then 2 else k + 1;
          return k;
        }
        k := k + 1;
        if k >= max { k := 2; wrapped := true; }
        if k == start { break; }
      }
      c := 0;
    }

    /** Mark a free cluster end-of-chain and count it. */
    method Claim(c: u32, max: nat)
      requires Valid() && Shape(v) && max == |v.data| == MaxCluster(g) && 2 <= c < max && v.fat[c] == 0
      modifies this`disk, this`cache, this`v
      ensures Valid() && Shape(v) && v.data == old(v.data) && v.fat == old(v.fat)[c := EOC]
      ensures Spent(old(v), v) && v.free != UNKNOWN && FreeIn(v) == FreeIn(old(v)) - 1
    {
      WriteEntry(c, EOC);
      CountSet(old(v.fat), 2, max, c, EOC);
      CountPositive(old(v.fat), 2, max, c);
      NoteAlloc(c, max);
    }

    /** Walk a chain, zeroing every entry met. Each step spends a non-zero entry, so it ends even on a cycle. */
    method ZeroChain(first: u32, ghost cs: seq<int>) returns (freed: nat)
      requires Valid() && Ranged(v.fat) && (first == 0 || first == EOC || first == IO_ERROR || 2 <= first < |v.fat|)
      modifies this`disk, this`cache, this`v
      ensures Valid() && Shape(v) && Ranged(v.fat) && |v.fat| == |old(v.fat)| && v == old(v).(fat := v.fat)
      ensures IsChain(old(v.fat), |v.data|, cs) && |cs| > 0 && first == cs[0] ==> Cleared(old(v.fat), v.fat, cs)
      ensures IsChain(old(v.fat), |v.data|, cs) && |cs| > 0 && first == cs[0] ==> freed == |cs|
    {
      ShapeOf(g, disk, v);
      var cluster := first;
      freed := 0;
      while cluster != 0 && cluster != EOC && cluster != IO_ERROR
        invariant Valid() && Shape(v) && v == old(v).(fat := v.fat)
        invariant Freeing(old(v.fat), v.fat, |v.data|, cs, first, freed, cluster)
        decreases
          |v.fat| - CountZero(v.fat, 0, |v.fat|),
          if cluster == 0 || cluster == EOC || cluster == IO_ERROR then 0 else 1
      {
        var next := ReadEntry(cluster);
        CountSet(v.fat, 0, |v.fat|, cluster, 0);
        FreeOn(old(v.fat), v.fat, |v.data|, cs, first, freed, cluster);
        WriteEntry(cluster, 0);
        freed := freed + 1;
        cluster := next;
      }
      FreedAll(old(v.fat), v.fat, |v.data|, cs, first, freed, cluster);
    }

    // fat_free_cluster_chain
    method FreeChain(first: u32, ghost cs: seq<int>)
      requires Valid() && Ranged(v.fat) && (first == 0 || first == EOC || first == IO_ERROR || 2 <= first < |v.fat|)
      modifies this`disk, this`cache, this`v, this`hint
      ensures Valid() && Shape(v) && v.data == old(v.data) && Ranged(v.fat) && |v.fat| == |old(v.fat)|
      ensures IsChain(old(v.fat), |v.data|, cs) && |cs| > 0 && first == cs[0] ==> Cleared(old(v.fat), v.fat, cs)
      ensures IsChain(old(v.fat), |v.data|, cs) && |cs| > 0 && first == cs[0] ==> GivenBack(old(v), v)
      ensures IsChain(old(v.fat), |v.data|, cs) && |cs| > 0 && first == cs[0] ==> FreeIn(v) == FreeIn(old(v)) + |cs|
    {
      ShapeOf(g, disk, v);
      if 2 <= first < hint { hint := first; }
      var freed := ZeroChain(first, cs);
      if freed > 0 { NoteFreed(freed); }
      if IsChain(old(v.fat), |v.data|, cs) && |cs| > 0 && first == cs[0] { FreedCount(old(v), v, cs); }
    }

    /** FSInfo after freeing clusters. */
    method NoteFreed(freed: nat)
      requires Valid()
      modifies this`disk, this`v
      ensures Valid() && v == old(v).(free := FreeAfter(old(v.free), freed))
    {
      var free: u32 := Le32(disk[g.infoSector], 0);
      WriteInfo(FreeAfter(free, freed), 2);
    }
  }

  /** One step of freeing a chain. */
  /** The first freed entries of a walk from first are zero; on a proper chain they are its first clusters. */
  ghost predicate Freeing(fat: seq<u32>, now: seq<u32>, max: nat, cs: seq<int>, first: u32, freed: nat, cluster: u32) {
    && |now| == |fat| && Ranged(now)
    && (cluster == 0 || cluster == EOC || cluster == IO_ERROR || 2 <= cluster < |now|)
    && (IsChain(fat, max, cs) && |cs| > 0 && first == cs[0] ==>
      && freed <= |cs| && cluster == (if freed < |cs| then cs[freed] else EOC)
      && Cleared(fat, now, cs[..freed]))
  }

  lemma FreeOn(fat: seq<u32>, now: seq<u32>, max: nat, cs: seq<int>, first: u32, freed: nat, cluster: u32)
    requires Freeing(fat, now, max, cs, first, freed, cluster) && 2 <= cluster < |now| < EOC
    ensures Freeing(fat, now[cluster := 0], max, cs, first, freed + 1, now[cluster])
  {
    if IsChain(fat, max, cs) && |cs| > 0 && first == cs[0] { FreeStep(fat, now, max, cs, freed); }
  }

  lemma FreedAll(fat: seq<u32>, now: seq<u32>, max: nat, cs: seq<int>, first: u32, freed: nat, cluster: u32)
    requires Freeing(fat, now, max, cs, first, freed, cluster) && |fat| < EOC
    requires cluster == 0 || cluster == EOC || cluster == IO_ERROR
    ensures IsChain(fat, max, cs) && |cs| > 0 && first == cs[0] ==> Cleared(fat, now, cs) && freed == |cs|
  {
    if IsChain(fat, max, cs) && |cs| > 0 && first == cs[0] && freed == |cs| { assert cs[..freed] == cs; }
  }

  lemma FreeStep(fat: seq<u32>, now: seq<u32>, max: nat, cs: seq<int>, i: nat)
    requires IsChain(fat, max, cs) && i < |cs| && Cleared(fat, now, cs[..i])
    ensures now[cs[i]] == After(cs, i) && Cleared(fat, now[cs[i] := 0], cs[..i + 1])
  {
    assert cs[i] !in cs[..i];
    assert cs[..i + 1] == cs[..i] + [cs[i]];
  }

  lemma NoCarry(free: u32, n: nat)
    requires free + n < UNKNOWN
    ensures FreeAfter(free, n) == free + n
  {
  }

  /** A freed chain's length is what its clusters add to the free count, and the sum does not overflow. */
  lemma FreedCount(w: View, w': View, cs: seq<int>)
    requires Shape(w) && Shape(w') && |w'.fat| == |w.fat| && |w'.data| == |w.data| && IsChain(w.fat, |w.data|, cs)
    requires Cleared(w.fat, w'.fat, cs)
    requires w'.free == FreeAfter(w.free, |cs|)
    ensures GivenBack(w, w') && FreeIn(w') == FreeIn(w) + |cs|
  {
    forall c | c in cs ensures c < |w.fat| && w.fat[c] != 0 { ChainUsed(w.fat, |w.data|, cs, c); }
    CountCleared(w.fat, w'.fat, |w.data|, cs);
    assert FreeIn(w') == FreeIn(w) + |cs| < EOC;
    if w.free != UNKNOWN && 0 <= Short(w) { NoCarry(w.free, |cs|); }
  }
}
