/** FAT32 on a sector device: geometry, the cached file allocation table, data
    clusters and the FSInfo sector. */
module FatDisk {
  import opened Bytes

  const SECTOR_SIZE := 512
  const DISK_MAX_SECTORS := 65536
  const EOC: u32 := 0x0FFF_FFFF
  const IO_ERROR: u32 := 0xFFFF_FFFF
  const UNKNOWN: u32 := 0xFFFF_FFFF      // FSInfo free count not yet known

  type Sector = b: seq<byte> | |b| == SECTOR_SIZE witness Zeros(SECTOR_SIZE)

  function ZeroSector(): (b: Sector)
    ensures forall i | 0 <= i < SECTOR_SIZE :: b[i] == 0
  {
    Zeros(SECTOR_SIZE)
  }

  // ---- geometry ----

  /** The boot-sector fields the driver uses. */
  datatype Geo = Geo(reserved: nat, fatCount: nat, sectorsPerFat: nat, sectorsPerCluster: nat, rootCluster: u32,
    infoSector: nat)

  function FirstData(g: Geo): nat {
    g.reserved + g.fatCount * g.sectorsPerFat
  }

  function ClusterSector(g: Geo, c: nat): int {
    FirstData(g) + (c - 2) * g.sectorsPerCluster
  }

  /** Entries of one FAT. */
  function EntryCount(g: Geo): nat {
    g.sectorsPerFat * SECTOR_SIZE / 4
  }

  /** One past the last cluster the allocator hands out: inside the disk, and with its entry inside the FAT. */
  function MaxCluster(g: Geo): int
    requires g.sectorsPerCluster > 0
  {
    var byDisk := 2 + (DISK_MAX_SECTORS - FirstData(g)) / g.sectorsPerCluster;
    if byDisk > EntryCount(g) then EntryCount(g) else byDisk
  }

  /** A well-formed boot sector. */
  ghost predicate GeoOk(g: Geo) {
    && 1 <= g.sectorsPerCluster <= 128 && 1 <= g.fatCount && 1 <= g.sectorsPerFat && g.infoSector < g.reserved
    && FirstData(g) <= DISK_MAX_SECTORS && 2 <= g.rootCluster < MaxCluster(g)
  }

  ghost predicate InRange(g: Geo, c: nat)
    requires GeoOk(g)
  {
    2 <= c < MaxCluster(g)
  }

  lemma FatsBeforeData(g: Geo)
    requires GeoOk(g)
    ensures g.reserved + g.sectorsPerFat <= FirstData(g) && MaxCluster(g) <= EntryCount(g) == 128 * g.sectorsPerFat
  {
    Scaled(1, g.fatCount, g.sectorsPerFat);
  }

  lemma {:induction false} Scaled(a: int, b: int, n: nat)
    requires a <= b
    ensures a * n <= b * n
    decreases b - a
  {
    if a < b {
      Scaled(a + 1, b, n);
      assert (a + 1) * n == a * n + n;
    }
  }

  lemma Quotient(c: int, room: nat, n: nat)
    requires n > 0 && c <= room / n
    ensures c * n <= room
  {
    Scaled(c, room / n, n);
    assert room / n * n == room - room % n;
  }

  /** Every cluster in range lies past the FATs and inside the disk. */
  lemma ClusterInside(g: Geo, c: nat, s: nat)
    requires GeoOk(g) && InRange(g, c) && s < g.sectorsPerCluster
    ensures FirstData(g) <= ClusterSector(g, c) + s < DISK_MAX_SECTORS
  {
    Quotient(c - 1, DISK_MAX_SECTORS - FirstData(g), g.sectorsPerCluster);
    Scaled(0, c - 2, g.sectorsPerCluster);
    assert (c - 1) * g.sectorsPerCluster == (c - 2) * g.sectorsPerCluster + g.sectorsPerCluster;
  }

  /** Distinct sectors of clusters are distinct sectors of the disk. */
  lemma SectorsApart(g: Geo, c: nat, s: nat, d: nat, t: nat)
    requires GeoOk(g) && s < g.sectorsPerCluster && t < g.sectorsPerCluster && (c, s) != (d, t)
    ensures ClusterSector(g, c) + s != ClusterSector(g, d) + t
  {
    if c < d { Wider(c, d, g.sectorsPerCluster); } else if d < c { Wider(d, c, g.sectorsPerCluster); }
  }

  lemma Wider(c: nat, d: nat, spc: nat)
    requires c < d
    ensures (c - 2) * spc + spc <= (d - 2) * spc
  {
    Scaled(c - 1, d - 2, spc);
    assert (c - 1) * spc == (c - 2) * spc + spc;
  }
}
