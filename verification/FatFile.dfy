/** What a cluster chain holds: sectors, file bytes and directory slots. */
module FatFile {
  import opened Bytes
  import opened FatDisk
  import opened FatChain

  // ---- sectors ----

  /** The sectors of a chain's clusters, in order. */
  ghost function Sectors(data: seq<Cluster>, cs: seq<int>): (r: seq<Sector>)
    requires Inside(|data|, cs)
    decreases |cs|
  {
    if cs == [] then [] else Sectors(data, cs[..|cs| - 1]) + data[cs[|cs| - 1]]
  }

  lemma {:induction false} SectorsFrame(data: seq<Cluster>, data': seq<Cluster>, cs: seq<int>)
    requires Inside(|data|, cs) && |data'| == |data| && forall c | c in cs :: 0 <= c < |data| && data'[c] == data[c]
    ensures Sectors(data', cs) == Sectors(data, cs)
    decreases |cs|
  {
    if cs != [] {
      assert cs[|cs| - 1] in cs;
      SectorsFrame(data, data', cs[..|cs| - 1]);
    }
  }

  /** Where the sectors of the n-th cluster sit among those of the chain. */
  lemma {:induction false} SectorsAt(data: seq<Cluster>, cs: seq<int>, n: nat, s: nat)
    requires Inside(|data|, cs) && n < |cs| && s < |data[cs[n]]|
    ensures |Sectors(data, cs[..n])| + s < |Sectors(data, cs)|
    ensures Sectors(data, cs)[|Sectors(data, cs[..n])| + s] == data[cs[n]][s]
    decreases |cs|
  {
    var m := |cs| - 1;
    if n < m {
      assert cs[..m][..n] == cs[..n];
      SectorsAt(data, cs[..m], n, s);
    }
  }

  ghost function WithSector(data: seq<Cluster>, c: nat, s: nat, b: Sector): (r: seq<Cluster>)
    requires c < |data| && s < |data[c]|
  {
    var k: Cluster := data[c][s := b];
    data[c := k]
  }

  /** Patching one sector of a chain changes that sector of its contents and no other. */
  lemma {:induction false} SectorsPatch(data: seq<Cluster>, data': seq<Cluster>, cs: seq<int>, n: nat, s: nat,
      b: Sector)
    requires Inside(|data|, cs) && Distinct(cs) && n < |cs| && s < |data[cs[n]]|
    requires data' == WithSector(data, cs[n], s, b)
    ensures |Sectors(data, cs[..n])| + s < |Sectors(data, cs)|
    ensures Sectors(data', cs) == Sectors(data, cs)[|Sectors(data, cs[..n])| + s := b]
    decreases |cs|
  {
    var m := |cs| - 1;
    SectorsAt(data, cs, n, s);
    if n < m {
      assert cs[..m][..n] == cs[..n];
      SectorsPatch(data, data', cs[..m], n, s, b);
    } else {
      SectorsFrame(data, data', cs[..m]);
    }
  }

  /** Appending a cluster appends its sectors. */
  lemma SectorsAppend(data: seq<Cluster>, cs: seq<int>, c: nat)
    requires Inside(|data|, cs) && 2 <= c < |data|
    ensures Inside(|data|, cs + [c]) && Sectors(data, cs + [c]) == Sectors(data, cs) + data[c]
  {
    assert (cs + [c])[..|cs|] == cs;
  }

  // ---- file bytes ----

  /** The first size bytes held by a run of sectors. */
  ghost function Content(secs: seq<Sector>, size: nat): (r: seq<byte>)
    requires size <= SECTOR_SIZE * |secs|
    ensures |r| == size
  {
    seq(size, i requires 0 <= i < size => secs[i / SECTOR_SIZE][i % SECTOR_SIZE])
  }

  /** The sector of a file image starting at byte off, padded with zeros. */
  ghost function Padded(file: seq<byte>, off: nat): (b: Sector) {
    seq(SECTOR_SIZE, i requires 0 <= i < SECTOR_SIZE => if off + i < |file| then file[off + i] else 0)
  }

  /** Sectors that hold a file image from its start. */
  ghost predicate Holds(secs: seq<Sector>, file: seq<byte>) {
    forall j {:trigger secs[j]} | 0 <= j < |secs| :: secs[j] == Padded(file, SECTOR_SIZE * j)
  }

  lemma HoldsContent(secs: seq<Sector>, file: seq<byte>, k: nat)
    requires k <= |secs| && Holds(secs[..k], file) && |file| <= SECTOR_SIZE * k
    ensures Content(secs, |file|) == file
  {
    forall i | 0 <= i < |file| ensures Content(secs, |file|)[i] == file[i] {
      assert secs[i / SECTOR_SIZE] == secs[..k][i / SECTOR_SIZE];
    }
  }

  /** Reading on by one sector. */
  lemma ContentStep(secs: seq<Sector>, off: nat, n: nat)
    requires off % SECTOR_SIZE == 0 && n <= SECTOR_SIZE && off / SECTOR_SIZE < |secs|
    ensures off + n <= SECTOR_SIZE * |secs|
    ensures Content(secs, off + n) == Content(secs, off) + secs[off / SECTOR_SIZE][..n]
  {
  }

  lemma ContentPrefix(secs: seq<Sector>, n: nat, size: nat)
    requires n <= size <= SECTOR_SIZE * |secs|
    ensures Content(secs, n) == Content(secs, size)[..n]
  {
  }

  // ---- directory slots ----

  const SLOT_SIZE := 32
  const SLOTS := 16      // per sector

  type Slot = b: seq<byte> | |b| == SLOT_SIZE witness Zeros(SLOT_SIZE)

  function SlotIn(b: Sector, i: nat): (r: Slot)
    requires i < SLOTS
  {
    b[SLOT_SIZE * i..SLOT_SIZE * i + SLOT_SIZE]
  }

  ghost function SlotAt(secs: seq<Sector>, k: nat): (r: Slot)
    requires k < SLOTS * |secs|
  {
    SlotIn(secs[k / SLOTS], k % SLOTS)
  }

  /** The 32-byte slots of a directory, in order. */
  ghost function Slots(secs: seq<Sector>): (r: seq<Slot>)
    ensures IsSlots(secs, r)
  {
    assert IsSlots(secs, seq(SLOTS * |secs|, k requires 0 <= k < SLOTS * |secs| => SlotAt(secs, k)));
    var r :| IsSlots(secs, r);
    r
  }

  ghost predicate IsSlots(secs: seq<Sector>, r: seq<Slot>) {
    |r| == SLOTS * |secs| && forall k {:trigger SlotAt(secs, k)} | 0 <= k < |r| :: r[k] == SlotAt(secs, k)
  }

  /** Two runs of slots are equal when every slot is. */
  lemma SlotsEqual(secs: seq<Sector>, r: seq<Slot>)
    requires |r| == SLOTS * |secs| && forall k {:trigger SlotAt(secs, k)} | 0 <= k < |r| :: SlotAt(secs, k) == r[k]
    ensures Slots(secs) == r
  {
    forall k | 0 <= k < |r| ensures Slots(secs)[k] == r[k] { assert r[k] == SlotAt(secs, k); }
  }

  /** Splicing a slot into its sector changes that slot and no other. */
  lemma SlotsPatch(secs: seq<Sector>, j: nat, i: nat, e: Slot, b: Sector)
    requires j < |secs| && i < SLOTS && b == Splice(secs[j], SLOT_SIZE * i, e)
    ensures SLOTS * j + i < |Slots(secs)|
    ensures Slots(secs[j := b]) == Slots(secs)[SLOTS * j + i := e]
  {
    var secs', r: seq<Slot> := secs[j := b], Slots(secs)[SLOTS * j + i := e];
    forall k {:trigger SlotAt(secs', k)} | 0 <= k < |r| ensures SlotAt(secs', k) == r[k] {
      assert SlotAt(secs, k) == Slots(secs)[k];
      if k / SLOTS == j && k % SLOTS != i { SpliceApart(secs[j], i, k % SLOTS, e); }
    }
    SlotsEqual(secs', r);
  }

  lemma SpliceApart(b: Sector, i: nat, i': nat, e: Slot)
    requires i < SLOTS && i' < SLOTS && i != i'
    ensures SlotIn(Splice(b, SLOT_SIZE * i, e), i') == SlotIn(b, i')
  {
  }

  lemma SlotsConcat(a: seq<Sector>, b: seq<Sector>)
    ensures Slots(a + b) == Slots(a) + Slots(b)
  {
    var r := Slots(a) + Slots(b);
    forall k {:trigger SlotAt(a + b, k)} | 0 <= k < |r| ensures SlotAt(a + b, k) == r[k] {
      if k < SLOTS * |a| { assert SlotAt(a + b, k) == SlotAt(a, k); }
      else { assert SlotAt(b, k - SLOTS * |a|) == SlotAt(a + b, k); }
    }
    SlotsEqual(a + b, r);
  }
}
