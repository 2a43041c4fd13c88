/** User address spaces over physical frames: page tables, region tables and
    what keeps them sound. */
module UvmModel {
  import opened Bytes

  const PAGE_SIZE := 4096
  const MAX_VM_REGIONS := 24

  type Page = b: seq<byte> | |b| == PAGE_SIZE witness Zeros(PAGE_SIZE)

  function ZeroPage(): (b: Page)
    ensures forall i | 0 <= i < PAGE_SIZE :: b[i] == 0
  {
    Zeros(PAGE_SIZE)
  }

  lemma Inhabited(s: set<int>)
    ensures s != {} ==> exists x :: x in s
  {
    if forall x :: x !in s { assert s == {}; }
  }

  // ---- protections ----

  datatype Prot = Prot(read: bool, write: bool, exec: bool)

  /** A present user page-table entry. */
  datatype Pte = Pte(frame: int, writable: bool, nx: bool)

  function ToPte(frame: int, p: Prot): Pte {
    Pte(frame, p.write, !p.exec)
  }

  function FromPte(e: Pte): Prot {
    Prot(true, e.writable, !e.nx)
  }

  function Or(p: Prot, q: Prot): Prot {
    Prot(p.read || q.read, p.write || q.write, p.exec || q.exec)
  }

  /** Remapping a page that is already mapped: the address bits handed back to the page table keep the old
      no-execute bit. */
  function Merge(e: Pte, p: Prot): Pte {
    var merged := Or(FromPte(e), p);
    Pte(e.frame, merged.write, e.nx || !merged.exec)
  }

  /** The merged entry carries the OR of both protections exactly when execution is not being added to a page that
      lacks it. */
  lemma MergeExact(e: Pte, p: Prot)
    ensures FromPte(Merge(e, p)) == Or(FromPte(e), p) <==> !(e.nx && p.exec)
  {
  }

  // ---- region tables, in pages ----

  datatype Region = Region(used: bool, start: int, end: int, prot: Prot)

  predicate In(r: Region, p: int) {
    r.used && r.start <= p < r.end
  }

  /** The page lies in a tracked region. */
  ghost predicate Covered(rs: seq<Region>, p: int) {
    exists i | 0 <= i < |rs| :: In(rs[i], p)
  }

  /** The region meets or touches [s, e). */
  predicate Touches(r: Region, s: int, e: int) {
    r.used && !(r.end < s || r.start > e)
  }

  ghost predicate Full(rs: seq<Region>) {
    forall i | 0 <= i < |rs| :: rs[i].used
  }

  ghost predicate Ordered(rs: seq<Region>) {
    forall i | 0 <= i < |rs| && rs[i].used :: rs[i].start <= rs[i].end
  }

  /** Region i, new or already of this protection, now also tracks [s, e); the others are as before. */
  ghost predicate Grew(rs: seq<Region>, rs': seq<Region>, i: int, s: int, e: int, prot: Prot) {
    && 0 <= i < |rs| == |rs'| && (forall j | 0 <= j < |rs| && j != i :: rs'[j] == rs[j])
    && (rs[i].used ==> rs[i].prot == prot) && rs'[i].used && rs'[i].prot == prot
    && forall p {:trigger In(rs'[i], p)} :: In(rs'[i], p) <==> In(rs[i], p) || s <= p < e
  }

  /** The range was recorded under its protection, or the table had no room. */
  ghost predicate Recorded(rs: seq<Region>, rs': seq<Region>, s: int, e: int, prot: Prot) {
    (Full(rs) && rs' == rs) || exists i :: Grew(rs, rs', i, s, e, prot)
  }

  // region_commit
  method Commit(rs: seq<Region>, s: int, e: int, prot: Prot) returns (rs': seq<Region>)
    requires s <= e && Ordered(rs)
    ensures |rs'| == |rs| && Ordered(rs')
    ensures forall p :: Covered(rs, p) ==> Covered(rs', p)
    ensures forall p :: Covered(rs', p) ==> Covered(rs, p) || s <= p < e
    ensures (forall p | s <= p < e :: Covered(rs', p)) || (Full(rs) && rs' == rs)
    ensures Recorded(rs, rs', s, e, prot)
  {
    rs' := rs;
    for i := 0 to |rs|
      invariant rs' == rs
    {
      if Touches(rs[i], s, e) && rs[i].prot == prot {
        var start, end := if s < rs[i].start then s else rs[i].start, if e > rs[i].end then e else rs[i].end;
        var r := rs[i].(start := start, end := end);
        rs' := rs[i := r];
        Replaced(rs, rs', i, s, e);
        assert Grew(rs, rs', i, s, e, prot);
        return;
      }
    }
    for i := 0 to |rs|
      invariant rs' == rs && forall j | 0 <= j < i :: rs[j].used
    {
      if !rs[i].used {
        rs' := rs[i := Region(true, s, e, prot)];
        Replaced(rs, rs', i, s, e);
        assert Grew(rs, rs', i, s, e, prot);
        return;
      }
    }
  }

  lemma Replaced(rs: seq<Region>, rs': seq<Region>, i: nat, s: int, e: int)
    requires i < |rs| && |rs'| == |rs| && forall j | 0 <= j < |rs| && j != i :: rs'[j] == rs[j]
    requires forall p :: In(rs'[i], p) <==> In(rs[i], p) || s <= p < e
    ensures forall p :: Covered(rs', p) <==> Covered(rs, p) || s <= p < e
  {
    forall p ensures Covered(rs', p) <==> Covered(rs, p) || s <= p < e {
      if Covered(rs, p) {
        var j :| 0 <= j < |rs| && In(rs[j], p);
        assert In(rs'[j], p);
      }
      if s <= p < e { assert In(rs'[i], p); }
      if Covered(rs', p) {
        var j :| 0 <= j < |rs| && In(rs'[j], p);
        assert j == i || In(rs[j], p);
      }
    }
  }

  /** What an unmap of [s, e) leaves of one region. */
  function Cut(r: Region, s: int, e: int): Region {
    if !r.used || r.end <= s || r.start >= e then r
    else if r.start >= s && r.end <= e then r.(used := false)
    else if r.start < s then r.(end := s)
    else r.(start := e)
  }

  /** A cut region tracks exactly the pages it tracked outside the hole, except that a hole in its middle also loses
      the tail. */
  lemma CutExact(r: Region, s: int, e: int, p: int)
    requires s <= e
    ensures In(Cut(r, s, e), p) <==> In(r, p) && !(s <= p < e) && !(r.start < s && e < r.end && e <= p)
  {
  }

  /** The region loop of uvm_unmap_range. */
  method CutAll(rs: seq<Region>, s: int, e: int) returns (rs': seq<Region>)
    ensures |rs'| == |rs| && forall i | 0 <= i < |rs| :: rs'[i] == Cut(rs[i], s, e)
  {
    rs' := rs;
    for i := 0 to |rs|
      invariant |rs'| == |rs| && (forall j | 0 <= j < i :: rs'[j] == Cut(rs[j], s, e))
      invariant forall j | i <= j < |rs| :: rs'[j] == rs[j]
    {
      rs' := rs'[i := Cut(rs'[i], s, e)];
    }
  }

  /** After the cut no tracked page is in the hole, and none is new. */
  lemma CutCovers(rs: seq<Region>, rs': seq<Region>, s: int, e: int, p: int)
    requires s <= e && |rs'| == |rs| && (forall i | 0 <= i < |rs| :: rs'[i] == Cut(rs[i], s, e)) && Covered(rs', p)
    ensures Covered(rs, p) && !(s <= p < e)
  {
    var i :| 0 <= i < |rs'| && In(rs'[i], p);
    assert In(rs[i], p);
  }
}
