/** Formatting a FAT32 volume: how the table is sized, and what a fresh volume
    looks like to the allocator. */
module FatFormat {
  import opened Bytes
  import opened FatDisk
  import opened FatChain
  import opened FatFile
  import opened FatVolume

  const RESERVED := 32

  /** Clusters, counting the two reserved numbers, left on a disk of a given size by a table of spf sectors. */
  function ClustersFor(total: int, spf: int): int {
    total - RESERVED - spf + 2
  }

  /** Sectors a table for n clusters takes. */
  function SectorsFor(n: int): int {
    (n * 4 + SECTOR_SIZE - 1) / SECTOR_SIZE
  }

  /** With 129 q + r clusters and table sectors together, one sizing step from q + e gives q + ceil((r - e) / 128). */
  lemma SizeStep(q: int, r: int, e: int)
    ensures SectorsFor(129 * q + r - (q + e)) == q + (r - e + 127) / 128
  {
    assert (129 * q + r - (q + e)) * 4 + 511 == 512 * q + (4 * (r - e) + 511);
    assert (4 * (r - e) + 511) / 512 == (r - e + 127) / 128;
  }

  /** Four steps from 1 settle within one sector of the fixed point. */
  lemma FourSteps(q: int, r: int, e1: int, e2: int, e3: int, e4: int)
    requires 0 <= q <= 2_080_895 && 0 <= r < 129 && (q == 0 ==> r >= 34) && 129 * q + r <= 0x1000_0000
    requires e1 == (r - (1 - q) + 127) / 128 && e2 == (r - e1 + 127) / 128 && e3 == (r - e2 + 127) / 128
    requires e4 == (r - e3 + 127) / 128
    ensures e4 == if r <= 1 then 0 else 1
  {
    assert 0 <= e1 <= 16258;
    assert -127 <= e2 <= 1;
    assert 0 <= e3 <= 2;
  }

  /** The sizing loop of fs_format. The table is at most one entry short of the clusters the disk has, and it is short
      exactly when the disk is 31 sectors more than a multiple of 129. */
  method SizeFat(total: nat) returns (spf: nat)
    requires 64 <= total <= 0x1000_0000
    ensures 1 <= spf < total - RESERVED && spf == (total - 30) / 129 + if (total - 30) % 129 <= 1 then 0 else 1
    ensures ClustersFor(total, spf) <= spf * SECTOR_SIZE / 4 + 1
    ensures ClustersFor(total, spf) <= spf * SECTOR_SIZE / 4 <==> total % 129 != 31
  {
    var sectors := 1;
    ghost var q, r := (total - 30) / 129, (total - 30) % 129;
    ghost var e := [1 - q];
    for iter := 0 to 4
      invariant |e| == iter + 1 && e[0] == 1 - q && sectors == q + e[iter]
      invariant forall j {:trigger e[j]} | 1 <= j <= iter :: e[j] == (r - e[j - 1] + 127) / 128
    {
      SizeStep(q, r, e[iter]);
      var clusters := ClustersFor(total, sectors);
      sectors := SectorsFor(clusters);
      e := e + [(r - e[iter] + 127) / 128];
    }
    FourSteps(q, r, e[1], e[2], e[3], e[4]);
    spf := sectors;
    ShortBy(total, spf);
  }

  /** How a table of that size compares with the clusters it leaves. */
  lemma ShortBy(total: nat, spf: nat)
    requires 64 <= total <= 0x1000_0000 && spf == (total - 30) / 129 + if (total - 30) % 129 <= 1 then 0 else 1
    ensures 1 <= spf < total - RESERVED && ClustersFor(total, spf) <= spf * SECTOR_SIZE / 4 + 1
    ensures ClustersFor(total, spf) <= spf * SECTOR_SIZE / 4 <==> total % 129 != 31
  {
  }

  // ---- the fresh volume ----

  /** What a device with this geometry holds. */
  ghost function ViewOf(g: Geo, disk: seq<Sector>): (v: View)
    requires GeoOk(g) && |disk| == DISK_MAX_SECTORS
    ensures Models(g, disk, v)
  {
    FatsBeforeData(g);
    var fat: seq<u32> := seq(EntryCount(g), i requires 0 <= i < EntryCount(g) => EntryAt(g, disk, i));
    var data: seq<Cluster> := seq(MaxCluster(g), c requires 0 <= c < MaxCluster(g) => ClusterAt(g, disk, c));
    View(fat, data, Le32(disk[g.infoSector], 0))
  }

  ghost function EntryAt(g: Geo, disk: seq<Sector>, i: nat): (x: u32)
    requires GeoOk(g) && |disk| == DISK_MAX_SECTORS && i < EntryCount(g)
    ensures g.reserved + i * 4 / SECTOR_SIZE < |disk| && x == EntryOn(g.reserved, disk, i)
  {
    FatsBeforeData(g);
    EntryPlace(i);
    EntryOn(g.reserved, disk, i)
  }

  ghost function ClusterAt(g: Geo, disk: seq<Sector>, c: nat): (r: Cluster)
    requires GeoOk(g) && |disk| == DISK_MAX_SECTORS && c < MaxCluster(g)
    ensures c >= 2 ==> |r| == g.sectorsPerCluster
    ensures c >= 2 ==> forall s {:trigger SectorOn(g, disk, c, s)} | 0 <= s < g.sectorsPerCluster ::
      r[s] == SectorOn(g, disk, c, s)
  {
    if c < 2 then [] else seq(g.sectorsPerCluster, s requires 0 <= s < g.sectorsPerCluster => SectorOn(g, disk, c, s))
  }

  /** The geometry fs_format records. */
  function FormatGeo(spf: nat): Geo {
    Geo(RESERVED, 1, spf, 1, 2, 1)
  }

  /** A disk of this size has a table that covers every cluster. */
  lemma FormatGeoOk(spf: nat)
    requires 1 <= spf < DISK_MAX_SECTORS - RESERVED && ClustersFor(DISK_MAX_SECTORS, spf) <= spf * SECTOR_SIZE / 4
    ensures GeoOk(FormatGeo(spf)) && MaxCluster(FormatGeo(spf)) == ClustersFor(DISK_MAX_SECTORS, spf)
  {
  }

  /** The table a fresh format leaves: the two reserved entries, and no cluster in use, not even the root's. */
  ghost predicate FreshFat(fat: seq<u32>) {
    |fat| > 2 && fat[0] == 0x0FFF_FFF8 && fat[1] == EOC && forall i | 2 <= i < |fat| :: fat[i] == 0
  }

  /** The first sector of the table. */
  function FatHead(): (b: Sector)
    ensures Le32(b, 0) == 0x0FFF_FFF8 && Le32(b, 4) == EOC && forall i | 8 <= i < SECTOR_SIZE :: b[i] == 0
  {
    var b := Put32(ZeroSector(), 0, 0x0FFF_FFF8);
    OtherWord(b, 4, 0, EOC);
    Put32(b, 4, EOC)
  }

  ghost predicate TableZeroed(disk: seq<Sector>, spf: nat) {
    1 <= spf && RESERVED + spf <= |disk| && disk[RESERVED] == FatHead() && forall s | RESERVED < s < RESERVED + spf ::
      disk[s] == ZeroSector()
  }

  lemma FreshTable(g: Geo, disk: seq<Sector>, spf: nat)
    requires g == FormatGeo(spf) && GeoOk(g) && |disk| == DISK_MAX_SECTORS && TableZeroed(disk, spf)
    ensures FreshFat(ViewOf(g, disk).fat)
  {
    var fat := ViewOf(g, disk).fat;
    assert |fat| == EntryCount(g) && EntryCount(g) > 2;
    forall i | 0 <= i < |fat| ensures fat[i] == if i == 0 then 0x0FFF_FFF8 else if i == 1 then EOC else 0 {
      FreshEntry(g, disk, spf, i);
    }
  }

  lemma FreshEntry(g: Geo, disk: seq<Sector>, spf: nat, i: nat)
    requires g == FormatGeo(spf) && GeoOk(g) && |disk| == DISK_MAX_SECTORS && TableZeroed(disk, spf)
    requires i < EntryCount(g)
    ensures EntryAt(g, disk, i) == if i == 0 then 0x0FFF_FFF8 else if i == 1 then EOC else 0
  {
    FatsBeforeData(g);
    EntryPlace(i);
    var s, o := i * 4 / SECTOR_SIZE, i * 4 % SECTOR_SIZE;
    var b := disk[RESERVED + s];
    assert s < spf && (s == 0 ==> o == 4 * i);
    assert s > 0 ==> b == ZeroSector();
    if i >= 2 { assert b[o] == 0 && b[o + 1] == 0 && b[o + 2] == 0 && b[o + 3] == 0; }
  }

  // fs_format; boot is the packed boot sector
  method Format(disk0: seq<Sector>, boot: Sector) returns (disk: seq<Sector>, g: Geo)
    requires |disk0| == DISK_MAX_SECTORS
    ensures |disk| == DISK_MAX_SECTORS && GeoOk(g) && g.rootCluster == 2 && disk[0] == boot
    ensures g.sectorsPerCluster == 1 && g.sectorsPerFat == 508
    ensures MaxCluster(g) == 2 + DISK_MAX_SECTORS - FirstData(g) == 64998
    ensures FreshFat(ViewOf(g, disk).fat) && ViewOf(g, disk).free == UNKNOWN
    ensures SectorOn(g, disk, 2, 0) == ZeroSector()
  {
    var spf := SizeFat(DISK_MAX_SECTORS);
    g := FormatGeo(spf);
    FormatGeoOk(spf);
    disk := disk0[0 := boot];
    var info: Sector := Put32(Put32(Splice(boot, 0, Zeros(488)), 4, UNKNOWN), 0, UNKNOWN);
    disk := disk[1 := info];
    for i := RESERVED to RESERVED + spf
      invariant |disk| == DISK_MAX_SECTORS && disk[0] == boot && disk[1] == info
    {
      disk := disk[i := ZeroSector()];
    }
    disk := disk[RESERVED := FatHead()];
    for i := RESERVED + 1 to RESERVED + spf
      invariant |disk| == DISK_MAX_SECTORS && disk[0] == boot && disk[1] == info && disk[RESERVED] == FatHead()
      invariant forall s | RESERVED + 1 <= s < i :: disk[s] == ZeroSector()
    {
      disk := disk[i := ZeroSector()];
    }
    disk := disk[ClusterSector(g, 2) := ZeroSector()];
    FreshTable(g, disk, spf);
  }

  lemma FirstFree(fat: seq<u32>, max: nat, c: int)
    requires 2 < max <= |fat| && fat[2] == 0 && NextFit(fat, max, 2, c)
    ensures c == 2
  {
  }

  /** For some hint the allocator hands out the root cluster if and only if the root's entry is zero. */
  lemma RootHandedOut(fat: seq<u32>, max: nat, root: u32)
    requires 2 <= root < max <= |fat|
    ensures (exists hint :: NextFit(fat, max, hint, root)) <==> fat[root] == 0
  {
    if fat[root] == 0 { assert NextFit(fat, max, root, root); }
  }

  /** fs_format leaves the root directory's own entry zero, so the first allocation on the fresh volume hands out the
      root cluster. */
  method FormatThenAllocate(disk0: seq<Sector>, boot: Sector) returns (g: Geo, c: u32)
    requires |disk0| == DISK_MAX_SECTORS
    ensures c == g.rootCluster
  {
    var disk;
    disk, g := Format(disk0, boot);
    ghost var v := ViewOf(g, disk);
    var vol := new Volume(g, disk, v);
    ShapeOf(g, disk, v);
    assert v.fat[2] == 0;
    c := vol.AllocCluster();
    FirstFree(v.fat, |v.data|, c);
  }
}
