/** User memory of many processes over one pool of frames: map, unmap, protect,
    mmap, release, and the copies through the identity map. */
module Uvm {
  import opened Bytes
  import opened UvmModel

  const UVM_ELF_BASE := 0x1000_0000
  const UVM_MMAP_BASE := 0x1800_0000
  const UVM_MMAP_LIMIT := 0x7F00_0000
  const ADDRESS_LIMIT := 0x1_0000_0000_0000_0000

  /** An address space: page table by page number, region table, and the brk and mmap cursors. */
  datatype Mm = Mm(pt: map<int, Pte>, regions: seq<Region>, brkStart: int, brkCur: int, mmapTop: int)

  type Spaces = map<int, Mm>
  type Memory = map<int, Page>

  // ---- soundness ----

  ghost predicate Maps(sp: Spaces, a: int, p: int) {
    a in sp && p in sp[a].pt
  }

  ghost function FrameAt(sp: Spaces, a: int, p: int): int
    requires Maps(sp, a, p)
  {
    sp[a].pt[p].frame
  }

  /** Every mapped page has an allocated frame. */
  ghost predicate Backed(mem: Memory, free: set<int>, sp: Spaces) {
    forall a, p {:trigger Maps(sp, a, p)} | Maps(sp, a, p) :: FrameAt(sp, a, p) in mem && FrameAt(sp, a, p) !in free
  }

  /** No frame backs two pages, in the same address space or in two. */
  ghost predicate Exclusive(sp: Spaces) {
    forall a, p, b, q {:trigger Maps(sp, a, p), Maps(sp, b, q)} | Maps(sp, a, p) && Maps(sp, b, q)
      && FrameAt(sp, a, p) == FrameAt(sp, b, q) :: a == b && p == q
  }

  ghost predicate TablesOk(sp: Spaces) {
    forall a {:trigger sp[a]} | a in sp :: |sp[a].regions| == MAX_VM_REGIONS && Ordered(sp[a].regions)
  }

  ghost predicate Sound(mem: Memory, free: set<int>, sp: Spaces) {
    free <= mem.Keys && 0 !in mem && Backed(mem, free, sp) && Exclusive(sp) && TablesOk(sp)
  }

  /** Every tracked page is mapped. */
  ghost predicate Tracked(m: Mm) {
    forall p {:trigger Covered(m.regions, p)} | Covered(m.regions, p) :: p in m.pt
  }

  function SetPt(sp: Spaces, a: int, pt: map<int, Pte>): Spaces
    requires a in sp
  {
    sp[a := sp[a].(pt := pt)]
  }

  function SetRegions(sp: Spaces, a: int, rs: seq<Region>): Spaces
    requires a in sp
  {
    sp[a := sp[a].(regions := rs)]
  }

  // ---- one page ----

  /** Mapping a free frame, whatever the page had before. */
  lemma MapSound(mem: Memory, free: set<int>, sp: Spaces, a: int, p: int, e: Pte)
    requires Sound(mem, free, sp) && a in sp && e.frame in free
    ensures Sound(mem, free - {e.frame}, SetPt(sp, a, sp[a].pt[p := e]))
  {
    var sp' := SetPt(sp, a, sp[a].pt[p := e]);
    forall b, q {:trigger Maps(sp', b, q)} | Maps(sp', b, q)
      ensures if b == a && q == p then FrameAt(sp', b, q) == e.frame
        else Maps(sp, b, q) && FrameAt(sp', b, q) == FrameAt(sp, b, q) { }
    assert forall b, q {:trigger Maps(sp', b, q)} | Maps(sp', b, q) && !(b == a && q == p) :: Maps(sp, b, q);
  }

  /** Changing an entry but not its frame. */
  lemma RemapSound(mem: Memory, free: set<int>, sp: Spaces, a: int, p: int, e: Pte)
    requires Sound(mem, free, sp) && Maps(sp, a, p) && e.frame == FrameAt(sp, a, p)
    ensures Sound(mem, free, SetPt(sp, a, sp[a].pt[p := e]))
  {
    var sp' := SetPt(sp, a, sp[a].pt[p := e]);
    forall b, q {:trigger Maps(sp', b, q)} | Maps(sp', b, q)
      ensures Maps(sp, b, q) && FrameAt(sp', b, q) == FrameAt(sp, b, q)
    { }
  }

  /** Unmapping a page gives its frame back; nobody else has it. */
  lemma UnmapSound(mem: Memory, free: set<int>, sp: Spaces, a: int, p: int)
    requires Sound(mem, free, sp) && Maps(sp, a, p)
    ensures var sp' := SetPt(sp, a, sp[a].pt - {p}); var f := FrameAt(sp, a, p);
      f !in free && f in mem && (forall b, q | Maps(sp', b, q) :: FrameAt(sp', b, q) != f)
        && Sound(mem, free + {f}, sp')
  {
    var sp' := SetPt(sp, a, sp[a].pt - {p});
    forall b, q {:trigger Maps(sp', b, q)} | Maps(sp', b, q)
      ensures Maps(sp, b, q) && FrameAt(sp', b, q) == FrameAt(sp, b, q) && !(b == a && q == p)
    { }
  }

  function PageDown(a: int): int {
    a / PAGE_SIZE
  }

  function PageUp(a: int): int {
    (a + PAGE_SIZE - 1) / PAGE_SIZE
  }

  lemma RegionsSound(mem: Memory, free: set<int>, sp: Spaces, a: int, rs: seq<Region>)
    requires Sound(mem, free, sp) && a in sp && |rs| == MAX_VM_REGIONS && Ordered(rs)
    ensures Sound(mem, free, SetRegions(sp, a, rs)) && SameData(mem, sp, mem, SetRegions(sp, a, rs))
  {
    var sp' := SetRegions(sp, a, rs);
    forall b, q {:trigger Maps(sp', b, q)}
      ensures Maps(sp', b, q) == Maps(sp, b, q) && (Maps(sp, b, q) ==> FrameAt(sp', b, q) == FrameAt(sp, b, q))
    { }
  }

  /** The region table now tracks [s, e) as well, or it was full and tracks what it did. */
  ghost predicate Committed(rs: seq<Region>, rs': seq<Region>, s: int, e: int) {
    && |rs'| == |rs|
    && (forall p {:trigger Covered(rs', p)} {:trigger Covered(rs, p)} :: Covered(rs, p) ==> Covered(rs', p))
    && (forall p {:trigger Covered(rs', p)} :: Covered(rs', p) ==> Covered(rs, p) || s <= p < e)
    && ((forall p {:trigger Covered(rs', p)} | s <= p < e :: Covered(rs', p)) || (Full(rs) && rs' == rs))
  }

  ghost predicate IsCut(rs: seq<Region>, rs': seq<Region>, s: int, e: int) {
    |rs'| == |rs| && forall i | 0 <= i < |rs| :: rs'[i] == Cut(rs[i], s, e)
  }

  lemma CutOrdered(rs: seq<Region>, rs': seq<Region>, s: int, e: int)
    requires Ordered(rs) && IsCut(rs, rs', s, e) && s <= e
    ensures Ordered(rs')
  {
  }

  // ---- a range of pages ----

  function Without(pt: map<int, Pte>, s: int, e: int): map<int, Pte> {
    map q | q in pt && !(s <= q < e) :: pt[q]
  }

  /** The frames behind a range. */
  function Frames(pt: map<int, Pte>, s: int, e: int): set<int> {
    set q | q in pt && s <= q < e :: pt[q].frame
  }

  /** What a page holds. */
  ghost function Data(mem: Memory, sp: Spaces, a: int, p: int): Page
    requires Maps(sp, a, p) && FrameAt(sp, a, p) in mem
  {
    mem[FrameAt(sp, a, p)]
  }

  /** Pages mapped before and after hold the same bytes. */
  ghost predicate SameData(mem: Memory, sp: Spaces, mem': Memory, sp': Spaces) {
    forall b, q {:trigger Maps(sp', b, q)} | Maps(sp, b, q) && Maps(sp', b, q) ::
      FrameAt(sp, b, q) in mem && FrameAt(sp', b, q) in mem' && Data(mem', sp', b, q) == Data(mem, sp, b, q)
  }

  /** Address spaces other than a are as they were, and so are the bytes of their pages. There are as many frames. */
  ghost predicate OthersKept(mem: Memory, sp: Spaces, mem': Memory, sp': Spaces, a: int) {
    && a in sp && a in sp' && sp' == sp[a := sp'[a]] && mem'.Keys == mem.Keys
    && forall b, q {:trigger Maps(sp, b, q)} | b != a && Maps(sp, b, q) ::
      FrameAt(sp, b, q) in mem && FrameAt(sp, b, q) in mem' && mem'[FrameAt(sp, b, q)] == mem[FrameAt(sp, b, q)]
  }

  lemma OthersFromSame(mem: Memory, free: set<int>, sp: Spaces, mem': Memory, sp': Spaces, a: int)
    requires Sound(mem, free, sp) && a in sp && a in sp' && sp' == sp[a := sp'[a]] && SameData(mem, sp, mem', sp')
    requires mem'.Keys == mem.Keys
    ensures OthersKept(mem, sp, mem', sp', a)
  {
    forall b, q {:trigger Maps(sp, b, q)} | b != a && Maps(sp, b, q)
      ensures FrameAt(sp, b, q) in mem && FrameAt(sp, b, q) in mem' && mem'[FrameAt(sp, b, q)] == mem[FrameAt(sp, b, q)]
    {
      assert Maps(sp', b, q);
    }
  }

  lemma KeptRefl(mem: Memory, free: set<int>, sp: Spaces, a: int)
    requires Sound(mem, free, sp) && a in sp
    ensures OthersKept(mem, sp, mem, sp, a)
  {
    assert sp == sp[a := sp[a]];
  }

  lemma OthersTrans(mem: Memory, sp: Spaces, mem1: Memory, sp1: Spaces, mem2: Memory, sp2: Spaces, a: int)
    requires OthersKept(mem, sp, mem1, sp1, a) && OthersKept(mem1, sp1, mem2, sp2, a)
    ensures OthersKept(mem, sp, mem2, sp2, a)
  {
    forall b, q {:trigger Maps(sp, b, q)} | b != a && Maps(sp, b, q)
      ensures FrameAt(sp, b, q) in mem && FrameAt(sp, b, q) in mem2 && mem2[FrameAt(sp, b, q)] == mem[FrameAt(sp, b, q)]
    {
      assert Maps(sp1, b, q);
    }
  }

  /** The pages [s, p) of a have been mapped: old ones keep their frame, new ones have a zeroed frame each. */
  ghost predicate RangeMapped(mem: Memory, free: set<int>, sp: Spaces, mem': Memory, free': set<int>, sp': Spaces,
      a: int, s: int, p: int, prot: Prot) {
    && a in sp && a in sp' && sp' == SetPt(sp, a, sp'[a].pt) && mem'.Keys == mem.Keys
    && (forall q :: q in sp'[a].pt <==> q in sp[a].pt || s <= q < p)
    && (forall q | q in sp[a].pt :: sp'[a].pt[q] == if s <= q < p then Merge(sp[a].pt[q], prot) else sp[a].pt[q])
    && (forall q {:trigger NewPage(free, free', mem', sp'[a].pt[q], prot)} | s <= q < p && q !in sp[a].pt ::
      NewPage(free, free', mem', sp'[a].pt[q], prot))
    && (forall f {:trigger Behind(sp[a].pt, sp'[a].pt, s, p, f)} | f in free && f !in free' ::
      Behind(sp[a].pt, sp'[a].pt, s, p, f))
    && free' <= free && forall f | f in mem && f !in free :: mem'[f] == mem[f]
  }

  /** The frame is behind a page of [s, p) that was not mapped before. */
  ghost predicate Behind(pt: map<int, Pte>, pt': map<int, Pte>, s: int, p: int, f: int) {
    exists q | q in pt' :: s <= q < p && q !in pt && pt'[q].frame == f
  }

  ghost predicate NewPage(free: set<int>, free': set<int>, mem': Memory, e: Pte, prot: Prot) {
    e.frame in free && e.frame !in free' && e == ToPte(e.frame, prot) && e.frame in mem' && mem'[e.frame] == ZeroPage()
  }

  lemma RangeStep(mem: Memory, free: set<int>, sp: Spaces, mem1: Memory, free1: set<int>, sp1: Spaces, mem2: Memory,
      free2: set<int>, sp2: Spaces, a: int, s: int, p: int, prot: Prot)
    requires RangeMapped(mem, free, sp, mem1, free1, sp1, a, s, p, prot) && s <= p && free <= mem.Keys
    requires PageMapped(mem1, free1, sp1, mem2, free2, sp2, a, p, prot)
    ensures RangeMapped(mem, free, sp, mem2, free2, sp2, a, s, p + 1, prot)
  {
    forall q {:trigger NewPage(free, free2, mem2, sp2[a].pt[q], prot)} | s <= q < p + 1 && q !in sp[a].pt
      ensures NewPage(free, free2, mem2, sp2[a].pt[q], prot)
    {
      if q < p { assert NewPage(free, free1, mem1, sp1[a].pt[q], prot); }
    }
    forall f {:trigger Behind(sp[a].pt, sp2[a].pt, s, p + 1, f)} | f in free && f !in free2
      ensures Behind(sp[a].pt, sp2[a].pt, s, p + 1, f)
    {
      if f !in free1 {
        assert Behind(sp[a].pt, sp1[a].pt, s, p, f);
        var q :| q in sp1[a].pt && s <= q < p && q !in sp[a].pt && sp1[a].pt[q].frame == f;
        assert sp2[a].pt[q] == sp1[a].pt[q];
      }
    }
  }

  /** Undoing a partial mapping takes out the whole range, pages that were there before included. */
  lemma RollbackExact(mem: Memory, free: set<int>, sp: Spaces, mem1: Memory, free1: set<int>, sp1: Spaces, a: int,
      s: int, v: int, prot: Prot)
    requires RangeMapped(mem, free, sp, mem1, free1, sp1, a, s, v, prot)
    ensures Without(sp1[a].pt, s, v) == Without(sp[a].pt, s, v)
    ensures free1 + Frames(sp1[a].pt, s, v) == free + Frames(sp[a].pt, s, v)
  {
    var pt, pt1 := sp[a].pt, sp1[a].pt;
    forall f | f in free + Frames(pt, s, v) ensures f in free1 + Frames(pt1, s, v) {
      if f in Frames(pt, s, v) {
        var q :| q in pt && s <= q < v && pt[q].frame == f;
        assert q in pt1 && pt1[q].frame == f;
      } else if f !in free1 {
        assert Behind(pt, pt1, s, v, f);
        var q :| q in pt1 && s <= q < v && q !in pt && pt1[q].frame == f;
      }
    }
    forall f | f in Frames(pt1, s, v) ensures f in free + Frames(pt, s, v) {
      var q :| q in pt1 && s <= q < v && pt1[q].frame == f;
      if q in pt { assert pt[q].frame == f; } else { assert NewPage(free, free1, mem1, pt1[q], prot); }
    }
  }

  lemma RangeData(mem: Memory, free: set<int>, sp: Spaces, mem1: Memory, free1: set<int>, sp1: Spaces, a: int, s: int,
      p: int, prot: Prot)
    requires Sound(mem, free, sp) && RangeMapped(mem, free, sp, mem1, free1, sp1, a, s, p, prot)
    ensures SameData(mem, sp, mem1, sp1)
  {
  }

  lemma WithoutAll(pt: map<int, Pte>, s: int, e: int)
    ensures e <= s ==> Without(pt, s, e) == pt && Frames(pt, s, e) == {}
    ensures s <= e ==> Without(pt, s, e + 1) == Without(pt, s, e) - {e}
    ensures s <= e ==> Frames(pt, s, e + 1) == Frames(pt, s, e) + if e in pt then {pt[e].frame} else {}
  {
  }

  // ---- how many frames a range takes ----

  /** The pages of a range that are not mapped. */
  ghost function Missing(pt: map<int, Pte>, s: int, e: int): set<int> {
    set q | s <= q < e && q !in pt
  }

  /** The pages of [s, e) are now mapped as well. */
  ghost predicate Widened(pt: map<int, Pte>, pt': map<int, Pte>, s: int, e: int) {
    forall q {:trigger q in pt'} :: q in pt' <==> q in pt || s <= q < e
  }

  lemma Smaller(s: set<int>, t: set<int>)
    requires s <= t
    ensures |s| <= |t|
  {
    assert t == s + (t - s);
  }

  lemma MissingStep(pt: map<int, Pte>, s: int, v: int)
    requires s <= v
    ensures |Missing(pt, s, v + 1)| == |Missing(pt, s, v)| + if v in pt then 0 else 1
  {
    assert Missing(pt, s, v + 1) == Missing(pt, s, v) + if v in pt then {} else {v};
  }

  /** Stopping at an unmapped page with the pool used up means the whole range needs more than the pool had. */
  lemma TooFew(pt: map<int, Pte>, s: int, v: int, e: int, had: nat)
    requires s <= v < e && v !in pt && had == |Missing(pt, s, v)|
    ensures had < |Missing(pt, s, e)|
  {
    MissingStep(pt, s, v);
    Smaller(Missing(pt, s, v + 1), Missing(pt, s, e));
  }

  lemma NoneMissing(pt: map<int, Pte>, s: int)
    ensures Missing(pt, s, s) == {}
  {
  }

  /** Unmapping a range of exclusive frames frees as many frames as it has mapped pages. */
  lemma {:induction false} FramesCount(sp: Spaces, a: int, s: int, e: int)
    requires a in sp && Exclusive(sp) && s <= e
    ensures |Frames(sp[a].pt, s, e)| + |Missing(sp[a].pt, s, e)| == e - s
    decreases e - s
  {
    var pt := sp[a].pt;
    if s == e {
      assert Frames(pt, s, e) == {} && Missing(pt, s, e) == {};
    } else {
      FramesCount(sp, a, s, e - 1);
      MissingStep(pt, s, e - 1);
      WithoutAll(pt, s, e - 1);
      if e - 1 in pt {
        assert Maps(sp, a, e - 1);
        forall q | q in pt && s <= q < e - 1 ensures pt[q].frame != pt[e - 1].frame { assert Maps(sp, a, q); }
        assert pt[e - 1].frame !in Frames(pt, s, e - 1);
      }
    }
  }

  /** After a range is unmapped, mapping it again needs no more than the frames it was short of. */
  lemma RemapNeeds(mem: Memory, free: set<int>, sp: Spaces, a: int, s: int, e: int)
    requires Sound(mem, free, sp) && a in sp && s <= e
    ensures |Missing(Without(sp[a].pt, s, e), s, e)| <= |free + Frames(sp[a].pt, s, e)| <==>
      |Missing(sp[a].pt, s, e)| <= |free|
  {
    var pt := sp[a].pt;
    FramesCount(sp, a, s, e);
    Interval(Without(pt, s, e), s, e);
    forall f | f in Frames(pt, s, e) ensures f !in free {
      var q :| q in pt && s <= q < e && pt[q].frame == f;
      assert Maps(sp, a, q);
    }
    assert |free + Frames(pt, s, e)| == |free| + |Frames(pt, s, e)|;
  }

  lemma {:induction false} Interval(pt: map<int, Pte>, s: int, e: int)
    requires s <= e && forall q | s <= q < e :: q !in pt
    ensures |Missing(pt, s, e)| == e - s
    decreases e - s
  {
    if s == e { NoneMissing(pt, s); } else {
      Interval(pt, s, e - 1);
      MissingStep(pt, s, e - 1);
    }
  }

  // ---- tracked pages stay mapped ----

  lemma MapTracked(m: Mm, m': Mm, s: int, e: int)
    requires Tracked(m) && Committed(m.regions, m'.regions, s, e) && forall q | q in m.pt || s <= q < e :: q in m'.pt
    ensures Tracked(m')
  {
  }

  lemma UnmapTracked(m: Mm, m': Mm, s: int, e: int)
    requires Tracked(m) && s <= e && IsCut(m.regions, m'.regions, s, e) && m'.pt == Without(m.pt, s, e)
    ensures Tracked(m')
  {
    forall p {:trigger Covered(m'.regions, p)} | Covered(m'.regions, p)
      ensures p in m'.pt
    { CutCovers(m.regions, m'.regions, s, e, p); }
  }

  // ---- where a map that runs out of frames stops ----

  /** With so many frames, mapping the pages from s on runs out at page at. */
  ghost predicate StopsAt(pt: map<int, Pte>, frames: nat, s: int, e: int, at: int) {
    s <= at < e && at !in pt && |Missing(pt, s, at)| == frames
  }

  /** The pages before that one are those up to which the frames suffice. */
  lemma BelowStop(pt: map<int, Pte>, frames: nat, s: int, e: int, at: int, p: int)
    requires StopsAt(pt, frames, s, e, at) && s <= p < e
    ensures p < at <==> |Missing(pt, s, p + 1)| <= frames
  {
    if p < at {
      Smaller(Missing(pt, s, p + 1), Missing(pt, s, at));
    } else {
      MissingStep(pt, s, at);
      Smaller(Missing(pt, s, at + 1), Missing(pt, s, p + 1));
    }
  }

  /** The frames suffice for the range, or they run out before any tracked page of it. */
  ghost predicate Spares(m: Mm, frames: nat, s: int, e: int) {
    |Missing(m.pt, s, e)| <= frames || forall p {:trigger Covered(m.regions, p)} | s <= p < e
      && Covered(m.regions, p) :: frames < |Missing(m.pt, s, p + 1)|
  }

  /** A map that runs out of frames keeps every tracked page mapped exactly when it runs out before any of them. */
  lemma RollbackTracked(m: Mm, frames: nat, s: int, e: int, at: int)
    requires Tracked(m) && StopsAt(m.pt, frames, s, e, at)
    ensures Tracked(m.(pt := Without(m.pt, s, at))) <==> Spares(m, frames, s, e)
  {
    var m' := m.(pt := Without(m.pt, s, at));
    TooFew(m.pt, s, at, e, frames);
    forall p {:trigger Covered(m.regions, p)} | s <= p < e
      ensures p < at <==> |Missing(m.pt, s, p + 1)| <= frames
    { BelowStop(m.pt, frames, s, e, at, p); }
    assert Tracked(m') ==>
      forall p {:trigger Covered(m.regions, p)} | s <= p < e && Covered(m.regions, p) :: p >= at
    by {
      if Tracked(m') {
        forall p {:trigger Covered(m.regions, p)} | s <= p < e && Covered(m.regions, p)
          ensures p >= at
        { assert Covered(m'.regions, p); }
      }
    }
  }

  // ---- what each call does ----

  datatype State = State(mem: Memory, free: set<int>, sp: Spaces)

  /** The range is mapped and recorded: old pages keep their frames, new ones have a zeroed frame each. */
  ghost predicate RangeAdded(x: State, y: State, a: int, s: int, e: int, prot: Prot)
    requires a in x.sp && a in y.sp
  {
    && RangeMapped(x.mem, x.free, x.sp, y.mem, y.free, SetRegions(y.sp, a, x.sp[a].regions), a, s, e, prot)
    && Committed(x.sp[a].regions, y.sp[a].regions, s, e)
    && Recorded(x.sp[a].regions, y.sp[a].regions, s, e, prot)
    && |x.free| == |y.free| + |Missing(x.sp[a].pt, s, e)|
  }

  /** The pages before at are unmapped, also those mapped before, and their frames are back in the pool. */
  ghost predicate RolledBack(x: State, y: State, a: int, s: int, at: int)
    requires a in x.sp
  {
    y.sp == SetPt(x.sp, a, Without(x.sp[a].pt, s, at)) && y.free == x.free + Frames(x.sp[a].pt, s, at)
  }

  /** Mapping [s, e), not empty: all of it when the pool has a frame for each unmapped page, else a rollback from the
      page where the pool ran out. */
  ghost predicate MapDone(x: State, y: State, a: int, s: int, e: int, prot: Prot) {
    && a in x.sp && OthersKept(x.mem, x.sp, y.mem, y.sp, a) && SameData(x.mem, x.sp, y.mem, y.sp)
    && (|Missing(x.sp[a].pt, s, e)| <= |x.free| ==> RangeAdded(x, y, a, s, e, prot))
    && (|Missing(x.sp[a].pt, s, e)| > |x.free| ==> exists at ::
      StopsAt(x.sp[a].pt, |x.free|, s, e, at) && RolledBack(x, y, a, s, at))
  }

  /** Unmapping [s, e). */
  ghost predicate UnmapDone(x: State, y: State, a: int, s: int, e: int) {
    && a in x.sp && a in y.sp && y.mem == x.mem
    && y.sp == SetRegions(SetPt(x.sp, a, Without(x.sp[a].pt, s, e)), a, y.sp[a].regions)
    && y.free == x.free + Frames(x.sp[a].pt, s, e) && IsCut(x.sp[a].regions, y.sp[a].regions, s, e)
  }

  /** Changing the protection of [s, e): nothing unless every page of it is tracked and mapped. */
  ghost predicate ProtectDone(x: State, y: State, a: int, s: int, e: int, prot: Prot) {
    && a in x.sp && a in y.sp && y.mem == x.mem && y.free == x.free
    && (Usable(x.sp[a], s, e) ==>
      y.sp == x.sp[a := x.sp[a].(pt := y.sp[a].pt, regions := y.sp[a].regions)]
        && Protected(x.sp[a], y.sp[a], s, e, prot))
    && (!Usable(x.sp[a], s, e) ==> y.sp == x.sp)
  }

  /** Unmapping [s, e) and then mapping it, unless it is empty. */
  ghost predicate Remapped(x: State, y: State, a: int, s: int, e: int, prot: Prot) {
    exists z :: UnmapDone(x, z, a, s, e) && if s == e then y == z else MapDone(z, y, a, s, e, prot)
  }

  /** A fixed mmap outside the arena does nothing. */
  ghost predicate FixedDone(x: State, y: State, a: int, s: int, e: int, prot: Prot) {
    if s * PAGE_SIZE < UVM_ELF_BASE || e * PAGE_SIZE > UVM_MMAP_LIMIT then y == x else Remapped(x, y, a, s, e, prot)
  }

  /** Mapping [s, e) where the cursor is, and moving it past the range if that succeeds. */
  ghost predicate Bumped(z: State, y: State, a: int, s: int, e: int, prot: Prot)
    requires a in z.sp
  {
    if |Missing(z.sp[a].pt, s, e)| > |z.free| then MapDone(z, y, a, s, e, prot)
    else exists z' :: MapDone(z, z', a, s, e, prot) && a in z'.sp && y == z'.(sp := SetTop(z'.sp, a, e * PAGE_SIZE))
  }

  /** The same for so many pages, unless there are none or they would end past the arena. */
  ghost predicate BumpedTo(z: State, y: State, a: int, s: int, pages: int, prot: Prot)
    requires a in z.sp
  {
    if pages == 0 || (s + pages) * PAGE_SIZE > UVM_MMAP_LIMIT then y == z else Bumped(z, y, a, s, s + pages, prot)
  }

  /** Any other mmap raises the cursor to the arena first. */
  ghost predicate BumpDone(x: State, y: State, a: int, pages: int, prot: Prot) {
    && a in x.sp
    && BumpedTo(x.(sp := SetTop(x.sp, a, Cursor(x.sp[a]))), y, a, PageUp(Cursor(x.sp[a])), pages, prot)
  }

  lemma BumpedFrom(x: State, z: State, y: State, a: int, s: int, pages: int, prot: Prot, ok: bool)
    requires a in x.sp && a in z.sp && 0 <= pages && (s + pages) * PAGE_SIZE <= UVM_MMAP_LIMIT
    requires if pages == 0 then z == x && !ok else MapDone(x, z, a, s, s + pages, prot)
    requires pages > 0 ==> (ok <==> |Missing(x.sp[a].pt, s, s + pages)| <= |x.free|)
    requires y.mem == z.mem && y.free == z.free
    requires y.sp == if ok then SetTop(z.sp, a, (s + pages) * PAGE_SIZE) else z.sp
    ensures BumpedTo(x, y, a, s, pages, prot)
  {
    assert y == if ok then z.(sp := SetTop(z.sp, a, (s + pages) * PAGE_SIZE)) else z;
  }

  lemma BumpFrom(x: State, z: State, y: State, a: int, s: int, pages: int, prot: Prot, ok: bool)
    requires a in x.sp && z == x.(sp := SetTop(x.sp, a, Cursor(x.sp[a]))) && s == PageUp(Cursor(x.sp[a]))
    requires 0 <= pages && BumpedTo(z, y, a, s, pages, prot)
    requires ok <==>
      0 < pages && (s + pages) * PAGE_SIZE <= UVM_MMAP_LIMIT && |Missing(z.sp[a].pt, s, s + pages)| <= |z.free|
    ensures BumpDone(x, y, a, pages, prot) && (ok <==> CanMap(x.sp[a].pt, x.free, s, pages, UVM_MMAP_BASE))
    ensures x.sp[a].mmapTop <= s * PAGE_SIZE && UVM_MMAP_BASE <= s * PAGE_SIZE
  {
  }

  ghost predicate MmapDone(x: State, y: State, a: int, hint: int, len: int, prot: Prot, fixed: bool) {
    if fixed then FixedDone(x, y, a, PageDown(hint), PageDown(hint) + PageUp(len), prot)
    else BumpDone(x, y, a, PageUp(len), prot)
  }

  class Kernel {
    var mem: Memory
    var free: set<int>
    var spaces: Spaces

    ghost predicate Valid()
      reads this
    {
      Sound(mem, free, spaces)
    }

    ghost function Now(): State
      reads this
    {
      State(mem, free, spaces)
    }

    constructor (mem: Memory)
      requires 0 !in mem
      ensures Valid() && spaces == map[] && free == mem.Keys
    {
      this.mem, free, spaces := mem, mem.Keys, map[];
    }

    // pmm_alloc_page: some unallocated frame, or 0
    method AllocFrame() returns (f: int)
      requires free <= mem.Keys && 0 !in mem
      modifies this`free
      ensures if old(free) == {} then f == 0 && free == old(free)
        else f in old(free) && f != 0 && free == old(free) - {f}
    {
      f := 0;
      if free != {} {
        Inhabited(free);
        f :| f in free;
        free := free - {f};
      }
    }

    // pmm_free_page: only ever called on an allocated frame that no page maps
    method FreeFrame(f: int)
      requires f in mem && f !in free && forall a, p | Maps(spaces, a, p) :: FrameAt(spaces, a, p) != f
      modifies this`free
      ensures free == old(free) + {f}
    {
      free := free + {f};
    }

    /** Map one page: keep a page already mapped and widen its protection, else give it a zeroed frame. */
    method MapPage(a: int, p: int, prot: Prot) returns (ok: bool)
      requires Valid() && a in spaces
      modifies this
      ensures Valid() && (!ok <==> p !in old(spaces)[a].pt && old(free) == {})
      ensures !ok ==> unchanged(this)
      ensures ok ==> PageMapped(old(mem), old(free), old(spaces), mem, free, spaces, a, p, prot)
      ensures ok ==> |old(free)| == |free| + if p in old(spaces)[a].pt then 0 else 1
    {
      if p in spaces[a].pt {
        var e := Merge(spaces[a].pt[p], prot);
        RemapSound(mem, free, spaces, a, p, e);
        spaces := SetPt(spaces, a, spaces[a].pt[p := e]);
        return true;
      }
      var f := AllocFrame();
      if f == 0 { return false; }
      MapSound(mem, old(free), spaces, a, p, ToPte(f, prot));
      spaces := SetPt(spaces, a, spaces[a].pt[p := ToPte(f, prot)]);
      mem := mem[f := ZeroPage()];
      ok := true;
    }

    /** Unmap one page and free its frame; an unmapped page is left alone. */
    method UnmapPage(a: int, p: int)
      requires Valid() && a in spaces
      modifies this`free, this`spaces
      ensures Valid() && spaces == SetPt(old(spaces), a, old(spaces)[a].pt - {p})
      ensures free == old(free) + if p in old(spaces)[a].pt then {old(spaces)[a].pt[p].frame} else {}
    {
      if p in spaces[a].pt {
        var f := spaces[a].pt[p].frame;
        assert Maps(spaces, a, p);
        UnmapSound(mem, free, spaces, a, p);
        spaces := SetPt(spaces, a, spaces[a].pt - {p});
        FreeFrame(f);
      } else {
        assert spaces[a].pt - {p} == spaces[a].pt;
        assert spaces == SetPt(spaces, a, spaces[a].pt);
      }
    }

    /** Unmap every page of a range. */
    method UnmapPages(a: int, s: int, e: int)
      requires Valid() && a in spaces
      modifies this`free, this`spaces
      ensures Valid() && spaces == SetPt(old(spaces), a, Without(old(spaces)[a].pt, s, e))
      ensures free == old(free) + Frames(old(spaces)[a].pt, s, e)
    {
      ghost var pt := spaces[a].pt;
      WithoutAll(pt, s, s);
      assert spaces == SetPt(spaces, a, pt);
      var v := s;
      while v < e
        invariant (v <= e || v == s) && s <= v && Valid() && a in spaces
        invariant spaces == SetPt(old(spaces), a, Without(pt, s, v)) && free == old(free) + Frames(pt, s, v)
      {
        WithoutAll(pt, s, v);
        UnmapPage(a, v);
        v := v + 1;
      }
      if e < s { WithoutAll(pt, s, e); }
    }

    /** One more page of a range being mapped. */
    method MapNext(a: int, s: int, v: int, prot: Prot, ghost mem0: Memory, ghost free0: set<int>, ghost sp0: Spaces)
      returns (ok: bool)
      requires Valid() && s <= v && free0 <= mem0.Keys
      requires RangeMapped(mem0, free0, sp0, mem, free, spaces, a, s, v, prot)
      requires |free0| == |free| + |Missing(sp0[a].pt, s, v)|
      modifies this
      ensures Valid() && (!ok ==> unchanged(this) && free == {} && v !in sp0[a].pt)
      ensures ok ==> RangeMapped(mem0, free0, sp0, mem, free, spaces, a, s, v + 1, prot)
      ensures ok ==> |free0| == |free| + |Missing(sp0[a].pt, s, v + 1)|
    {
      MissingStep(sp0[a].pt, s, v);
      assert v in spaces[a].pt <==> v in sp0[a].pt;
      ghost var mem1, free1, sp1 := mem, free, spaces;
      ok := MapPage(a, v, prot);
      if ok { RangeStep(mem0, free0, sp0, mem1, free1, sp1, mem, free, spaces, a, s, v, prot); }
    }

    /** Take the pages mapped so far out again. */
    method Rollback(a: int, s: int, v: int, ghost prot: Prot, ghost mem0: Memory, ghost free0: set<int>,
        ghost sp0: Spaces)
      requires Valid() && Sound(mem0, free0, sp0) && RangeMapped(mem0, free0, sp0, mem, free, spaces, a, s, v, prot)
      modifies this`free, this`spaces
      ensures Valid() && SameData(mem0, sp0, mem, spaces)
      ensures spaces == SetPt(sp0, a, Without(sp0[a].pt, s, v)) && free == free0 + Frames(sp0[a].pt, s, v)
    {
      RollbackExact(mem0, free0, sp0, mem, free, spaces, a, s, v, prot);
      RangeData(mem0, free0, sp0, mem, free, spaces, a, s, v, prot);
      UnmapPages(a, s, v);
    }

    /** The page loop of uvm_map_range, with its rollback. */
    method MapPages(a: int, s: int, e: int, prot: Prot) returns (ok: bool, ghost at: int)
      requires Valid() && a in spaces && s <= e
      modifies this
      ensures Valid() && SameData(old(mem), old(spaces), mem, spaces) && s <= at <= e
      ensures ok ==> RangeMapped(old(mem), old(free), old(spaces), mem, free, spaces, a, s, e, prot)
      ensures !ok ==> StopsAt(old(spaces)[a].pt, |old(free)|, s, e, at) && RolledBack(old(Now()), Now(), a, s, at)
      ensures mem.Keys == old(mem).Keys
      ensures ok <==> |Missing(old(spaces)[a].pt, s, e)| <= |old(free)|
      ensures ok ==> |old(free)| == |free| + |Missing(old(spaces)[a].pt, s, e)|
    {
      assert spaces == SetPt(spaces, a, spaces[a].pt);
      NoneMissing(spaces[a].pt, s);
      var v := s;
      while v < e
        invariant s <= v <= e && Valid()
        invariant RangeMapped(old(mem), old(free), old(spaces), mem, free, spaces, a, s, v, prot)
        invariant |old(free)| == |free| + |Missing(old(spaces)[a].pt, s, v)|
      {
        ok := MapNext(a, s, v, prot, old(mem), old(free), old(spaces));
        if !ok {
          TooFew(old(spaces)[a].pt, s, v, e, |old(free)|);
          Rollback(a, s, v, prot, old(mem), old(free), old(spaces));
          return false, v;
        }
        v := v + 1;
      }
      RangeData(old(mem), old(free), old(spaces), mem, free, spaces, a, s, e, prot);
      ok, at := true, e;
    }

    // uvm_map_range
    method MapRange(a: int, start: int, end: int, prot: Prot) returns (r: int)
      requires Valid() && a in spaces && 0 <= start && end + PAGE_SIZE <= ADDRESS_LIMIT
      modifies this
      ensures Valid() && (r == 0 || r == -1)
      ensures end <= start ==> r == -1 && unchanged(this)
      ensures start < end ==> MapDone(old(Now()), Now(), a, PageDown(start), PageUp(end), prot)
      ensures r == 0 <==> start < end && |Missing(old(spaces)[a].pt, PageDown(start), PageUp(end))| <= |old(free)|
    {
      if end <= start { return -1; }
      var s, e := PageDown(start), PageUp(end);
      var ok;
      ghost var at;
      ok, at := MapPages(a, s, e, prot);
      OthersFromSame(old(mem), old(free), old(spaces), mem, spaces, a);
      if !ok { return -1; }
      ghost var sp1 := spaces;
      var rs := Commit(spaces[a].regions, s, e, prot);
      RegionsSound(mem, free, spaces, a, rs);
      spaces := SetRegions(spaces, a, rs);
      assert SetRegions(spaces, a, sp1[a].regions) == sp1;
      r := 0;
    }

    // uvm_unmap_range
    method UnmapRange(a: int, start: int, end: int)
      requires Valid() && a in spaces && 0 <= start <= end && end + PAGE_SIZE <= ADDRESS_LIMIT
      modifies this`free, this`spaces
      ensures Valid() && SameData(mem, old(spaces), mem, spaces) && OthersKept(mem, old(spaces), mem, spaces, a)
      ensures UnmapDone(old(Now()), Now(), a, PageDown(start), PageUp(end))
    {
      var s, e := PageDown(start), PageUp(end);
      UnmapPages(a, s, e);
      var rs := CutAll(spaces[a].regions, s, e);
      CutOrdered(spaces[a].regions, rs, s, e);
      RegionsSound(mem, free, spaces, a, rs);
      spaces := SetRegions(spaces, a, rs);
      OthersFromSame(mem, old(free), old(spaces), mem, spaces, a);
    }

    // uvm_check_range
    method CheckRange(a: int, uaddr: int, len: int) returns (ok: bool)
      requires a in spaces && 0 <= uaddr && 0 <= len
      ensures ok <==>
        len == 0 || (uaddr + len < ADDRESS_LIMIT && Usable(spaces[a], PageDown(uaddr), PageUp(uaddr + len)))
    {
      if len == 0 { return true; }
      if uaddr + len >= ADDRESS_LIMIT { return false; }
      var p := PageDown(uaddr);
      while p * PAGE_SIZE < uaddr + len
        invariant PageDown(uaddr) <= p <= PageUp(uaddr + len) && Usable(spaces[a], PageDown(uaddr), p)
      {
        var inside := FindRegion(spaces[a].regions, p);
        if !inside || p !in spaces[a].pt { return false; }
        p := p + 1;
      }
      ok := true;
    }

    method ReprotectPages(a: int, s: int, e: int, prot: Prot)
      requires Valid() && a in spaces && s <= e
      modifies this`spaces
      ensures Valid() && a in spaces && spaces == SetPt(old(spaces), a, spaces[a].pt)
      ensures SameData(mem, old(spaces), mem, spaces)
      ensures Reprotected(old(spaces)[a].pt, spaces[a].pt, s, e, prot)
    {
      assert spaces == SetPt(spaces, a, spaces[a].pt);
      var v := s;
      while v < e
        invariant s <= v <= e && Valid() && a in spaces && spaces == SetPt(old(spaces), a, spaces[a].pt)
        invariant SameData(mem, old(spaces), mem, spaces) && Reprotected(old(spaces)[a].pt, spaces[a].pt, s, v, prot)
      {
        if v in spaces[a].pt {
          var e' := ToPte(spaces[a].pt[v].frame, prot);
          assert Maps(spaces, a, v);
          RemapSound(mem, free, spaces, a, v, e');
          spaces := SetPt(spaces, a, spaces[a].pt[v := e']);
        }
        v := v + 1;
      }
    }

    // uvm_change_prot
    method ChangeProt(a: int, start: int, end: int, prot: Prot) returns (r: int)
      requires Valid() && a in spaces && 0 <= start <= end && end + PAGE_SIZE <= ADDRESS_LIMIT
      modifies this`spaces
      ensures Valid() && SameData(mem, old(spaces), mem, spaces) && a in spaces
      ensures (r == 0 <==> Usable(old(spaces)[a], PageDown(start), PageUp(end))) && (r == 0 || r == -1)
      ensures ProtectDone(old(Now()), Now(), a, PageDown(start), PageUp(end), prot)
    {
      var s, e := PageDown(start), PageUp(end);
      var ok := CheckRange(a, s * PAGE_SIZE, (e - s) * PAGE_SIZE);
      if !ok { return -1; }
      assert Usable(spaces[a], s, e);
      ReprotectPages(a, s, e, prot);
      var rs := ProtAll(spaces[a].regions, s, e, prot);
      RegionsSound(mem, free, spaces, a, rs);
      spaces := SetRegions(spaces, a, rs);
      r := 0;
    }

    // uvm_mmap_anon
    method MmapAnon(a: int, hint: int, len: int, prot: Prot, fixed: bool) returns (va: int)
      requires Valid() && a in spaces && 0 <= hint && 0 <= len && 0 <= spaces[a].mmapTop && NoWrap(hint, len)
      requires NoWrap(Cursor(spaces[a]), len)
      modifies this
      ensures Valid() && OthersKept(old(mem), old(spaces), mem, spaces, a)
      ensures MmapDone(old(Now()), Now(), a, hint, len, prot, fixed)
      ensures va != 0 <==>
        CanMap(old(spaces)[a].pt, old(free), Target(old(spaces)[a], hint, fixed), PageUp(len),
          if fixed then UVM_ELF_BASE else UVM_MMAP_BASE)
      ensures va != 0 ==> var s := Target(old(spaces)[a], hint, fixed);
        va == s * PAGE_SIZE && forall p | s <= p < s + PageUp(len) :: p in spaces[a].pt
      ensures va != 0 && fixed ==> Zeroed(mem, spaces, a, PageDown(hint), PageDown(hint) + PageUp(len))
      ensures va != 0 && !fixed ==> va >= old(spaces)[a].mmapTop && spaces[a].mmapTop == va + PageUp(len) * PAGE_SIZE
    {
      var pages := PageUp(len);
      if fixed {
        va := MmapFixed(a, PageDown(hint), pages, prot);
      } else {
        va := MmapBump(a, pages, prot);
      }
    }

    /** A fixed mmap that fails inside the arena has already unmapped the range and cut the regions. */
    method MmapFixed(a: int, s: int, pages: int, prot: Prot) returns (va: int)
      requires Valid() && a in spaces && 0 <= s && 0 <= pages
      modifies this
      ensures Valid() && OthersKept(old(mem), old(spaces), mem, spaces, a)
      ensures FixedDone(old(Now()), Now(), a, s, s + pages, prot)
      ensures va != 0 ==> va == s * PAGE_SIZE && UVM_ELF_BASE <= va && va + pages * PAGE_SIZE <= UVM_MMAP_LIMIT
      ensures va != 0 ==> Zeroed(mem, spaces, a, s, s + pages)
      ensures va != 0 ==> forall p | s <= p < s + pages :: p in spaces[a].pt
      ensures va != 0 <==> CanMap(old(spaces)[a].pt, old(free), s, pages, UVM_ELF_BASE)
      ensures va == 0 && UVM_ELF_BASE <= s * PAGE_SIZE && (s + pages) * PAGE_SIZE <= UVM_MMAP_LIMIT ==>
        UnmapDone(old(Now()), Now().(mem := old(mem)), a, s, s + pages)
    {
      va := 0;
      if s * PAGE_SIZE < UVM_ELF_BASE || (s + pages) * PAGE_SIZE > UVM_MMAP_LIMIT {
        KeptRefl(mem, free, spaces, a);
      } else {
        va := FixedInside(a, s, pages, prot);
      }
    }

    method FixedInside(a: int, s: int, pages: int, prot: Prot) returns (va: int)
      requires Valid() && a in spaces && 0 <= pages
      requires UVM_ELF_BASE <= s * PAGE_SIZE && (s + pages) * PAGE_SIZE <= UVM_MMAP_LIMIT
      modifies this
      ensures Valid() && OthersKept(old(mem), old(spaces), mem, spaces, a)
      ensures Remapped(old(Now()), Now(), a, s, s + pages, prot)
      ensures va == 0 || va == s * PAGE_SIZE
      ensures va != 0 ==> Zeroed(mem, spaces, a, s, s + pages) && forall p | s <= p < s + pages :: p in spaces[a].pt
      ensures va != 0 <==> 0 < pages && |Missing(old(spaces)[a].pt, s, s + pages)| <= |old(free)|
      ensures va == 0 ==> UnmapDone(old(Now()), Now().(mem := old(mem)), a, s, s + pages)
    {
      PageSum(s, 0);
      PageSum(s + pages, 0);
      var r := Replace(a, s * PAGE_SIZE, (s + pages) * PAGE_SIZE, s, s + pages, prot);
      va := if r == 0 then s * PAGE_SIZE else 0;
    }

    /** Unmap a range and map it afresh. */
    method Replace(a: int, start: int, end: int, ghost s: int, ghost e: int, prot: Prot) returns (r: int)
      requires Valid() && a in spaces && 0 <= start <= end && end + PAGE_SIZE <= ADDRESS_LIMIT && s == PageDown(start)
      requires e == PageUp(end) && (start == end <==> s == e)
      modifies this
      ensures Valid() && OthersKept(old(mem), old(spaces), mem, spaces, a)
      ensures Remapped(old(Now()), Now(), a, s, e, prot)
      ensures r == 0 ==> Zeroed(mem, spaces, a, s, e) && forall p | s <= p < e :: p in spaces[a].pt
      ensures r == 0 <==> start < end && |Missing(old(spaces)[a].pt, s, e)| <= |old(free)|
      ensures r != 0 ==> UnmapDone(old(Now()), Now().(mem := old(mem)), a, s, e)
    {
      RemapNeeds(mem, free, spaces, a, s, e);
      UnmapRange(a, start, end);
      ghost var z := Now();
      KeptRefl(mem, free, spaces, a);
      r := MapRange(a, start, end, prot);
      OthersTrans(old(mem), old(spaces), z.mem, z.sp, mem, spaces, a);
      if r == 0 { FreshZero(z.mem, z.free, z.sp, mem, free, spaces, a, s, e, prot); }
      else if start < end { NothingBack(z, Now(), a, s, e); }
      assert UnmapDone(old(Now()), z, a, s, e);
    }

    method MmapBump(a: int, pages: int, prot: Prot) returns (va: int)
      requires Valid() && a in spaces && 0 <= pages && 0 <= spaces[a].mmapTop
      modifies this
      ensures Valid() && OthersKept(old(mem), old(spaces), mem, spaces, a)
      ensures BumpDone(old(Now()), Now(), a, pages, prot)
      ensures va != 0 ==> va == PageUp(Cursor(old(spaces)[a])) * PAGE_SIZE && va >= old(spaces)[a].mmapTop
      ensures va != 0 ==> va + pages * PAGE_SIZE <= UVM_MMAP_LIMIT
      ensures va != 0 ==> spaces[a].mmapTop == va + pages * PAGE_SIZE
      ensures va != 0 ==> forall p | PageUp(Cursor(old(spaces)[a])) <= p < PageUp(Cursor(old(spaces)[a])) + pages ::
        p in spaces[a].pt
      ensures va != 0 <==> CanMap(old(spaces)[a].pt, old(free), PageUp(Cursor(old(spaces)[a])), pages, UVM_MMAP_BASE)
    {
      RaiseCursor(a);
      ghost var z := Now();
      var s := PageUp(spaces[a].mmapTop);
      var r := BumpAt(a, s, pages, prot);
      OthersTrans(old(mem), old(spaces), z.mem, z.sp, mem, spaces, a);
      BumpFrom(old(Now()), z, Now(), a, s, pages, prot, r == 0);
      va := if r == 0 then s * PAGE_SIZE else 0;
    }

    method RaiseCursor(a: int)
      requires Valid() && a in spaces
      modifies this`spaces
      ensures Valid() && spaces == SetTop(old(spaces), a, Cursor(old(spaces)[a]))
      ensures OthersKept(mem, old(spaces), mem, spaces, a)
    {
      KeptRefl(mem, free, spaces, a);
      assert spaces == SetTop(spaces, a, spaces[a].mmapTop);
      if spaces[a].mmapTop < UVM_MMAP_BASE { SetCursor(a, UVM_MMAP_BASE, mem, spaces); }
    }

    /** Map pages where the cursor is and move it past them. */
    method BumpAt(a: int, s: int, pages: int, prot: Prot) returns (r: int)
      requires Valid() && a in spaces && 0 <= s && 0 <= pages
      modifies this
      ensures Valid() && OthersKept(old(mem), old(spaces), mem, spaces, a)
      ensures BumpedTo(old(Now()), Now(), a, s, pages, prot)
      ensures r == 0 <==>
        0 < pages && (s + pages) * PAGE_SIZE <= UVM_MMAP_LIMIT
          && |Missing(old(spaces)[a].pt, s, s + pages)| <= |old(free)|
      ensures r == 0 ==> spaces[a].mmapTop == (s + pages) * PAGE_SIZE
      ensures r == 0 ==> forall p | s <= p < s + pages :: p in spaces[a].pt
    {
      r := -1;
      if (s + pages) * PAGE_SIZE > UVM_MMAP_LIMIT {
        KeptRefl(mem, free, spaces, a);
      } else {
        r := BumpInside(a, s, pages, prot);
      }
    }

    method BumpInside(a: int, s: int, pages: int, prot: Prot) returns (r: int)
      requires Valid() && a in spaces && 0 <= s && 0 <= pages && (s + pages) * PAGE_SIZE <= UVM_MMAP_LIMIT
      modifies this
      ensures Valid() && OthersKept(old(mem), old(spaces), mem, spaces, a)
      ensures BumpedTo(old(Now()), Now(), a, s, pages, prot)
      ensures r == 0 <==> 0 < pages && |Missing(old(spaces)[a].pt, s, s + pages)| <= |old(free)|
      ensures r == 0 ==> spaces[a].mmapTop == (s + pages) * PAGE_SIZE
      ensures r == 0 ==> forall p | s <= p < s + pages :: p in spaces[a].pt
    {
      r := Extend(a, s, s + pages, prot);
      ghost var z := Now();
      Advance(a, (s + pages) * PAGE_SIZE, r == 0, old(mem), old(spaces));
      BumpedFrom(old(Now()), z, Now(), a, s, pages, prot, r == 0);
    }

    method Advance(a: int, top: int, ok: bool, ghost mem0: Memory, ghost sp0: Spaces)
      requires Valid() && a in spaces && OthersKept(mem0, sp0, mem, spaces, a)
      modifies this`spaces
      ensures Valid() && spaces == (if ok then SetTop(old(spaces), a, top) else old(spaces))
      ensures OthersKept(mem0, sp0, mem, spaces, a)
    {
      if ok { SetCursor(a, top, mem0, sp0); }
    }

    /** Map a range given by its pages. */
    method Extend(a: int, s: int, e: int, prot: Prot) returns (r: int)
      requires Valid() && a in spaces && 0 <= s <= e && (e + 1) * PAGE_SIZE <= ADDRESS_LIMIT
      modifies this
      ensures Valid() && OthersKept(old(mem), old(spaces), mem, spaces, a)
      ensures spaces[a].mmapTop == old(spaces)[a].mmapTop
      ensures if s == e then Now() == old(Now()) else MapDone(old(Now()), Now(), a, s, e, prot)
      ensures r == 0 ==> forall p | s <= p < e :: p in spaces[a].pt
      ensures r == 0 <==> s < e && |Missing(old(spaces)[a].pt, s, e)| <= |old(free)|
    {
      KeptRefl(mem, free, spaces, a);
      PageSum(s, 0);
      PageSum(e, 0);
      r := MapRange(a, s * PAGE_SIZE, e * PAGE_SIZE, prot);
    }

    method SetCursor(a: int, top: int, ghost mem0: Memory, ghost sp0: Spaces)
      requires Valid() && a in spaces && OthersKept(mem0, sp0, mem, spaces, a)
      modifies this`spaces
      ensures Valid() && spaces == SetTop(old(spaces), a, top) && OthersKept(mem0, sp0, mem, spaces, a)
    {
      CursorSound(mem, free, spaces, a, top);
      spaces := SetTop(spaces, a, top);
      CursorKept(mem, free, old(spaces), spaces, a);
      OthersTrans(mem0, sp0, mem, old(spaces), mem, spaces, a);
    }
  }

  /** One step of mapping a range. */
  ghost predicate PageMapped(mem: Memory, free: set<int>, sp: Spaces, mem': Memory, free': set<int>, sp': Spaces,
      a: int, p: int, prot: Prot) {
    && a in sp && a in sp' && p in sp'[a].pt
    && sp' == SetPt(sp, a, sp[a].pt[p := sp'[a].pt[p]])
    && if p in sp[a].pt then sp'[a].pt[p] == Merge(sp[a].pt[p], prot) && mem' == mem && free' == free
       else var f := sp'[a].pt[p].frame;
         sp'[a].pt[p] == ToPte(f, prot) && f in free && free' == free - {f} && mem' == mem[f := ZeroPage()]
  }

  /** Every page of the range is tracked and mapped. */
  ghost predicate Usable(m: Mm, s: int, e: int) {
    forall p {:trigger Covered(m.regions, p)} | s <= p < e :: Covered(m.regions, p) && p in m.pt
  }

  ghost predicate Reprotected(pt: map<int, Pte>, pt': map<int, Pte>, s: int, e: int, prot: Prot) {
    pt'.Keys == pt.Keys && forall q | q in pt :: pt'[q] == if s <= q < e then ToPte(pt[q].frame, prot) else pt[q]
  }

  /** Pages of the range have the new protection and keep their frames; regions that overlap it are relabelled; the same
      pages are tracked. */
  ghost predicate Protected(m: Mm, m': Mm, s: int, e: int, prot: Prot) {
    && Reprotected(m.pt, m'.pt, s, e, prot) && |m'.regions| == |m.regions|
    && forall i | 0 <= i < |m.regions| ::
      m'.regions[i] ==
        if m.regions[i].used && m.regions[i].end > s && m.regions[i].start < e then m.regions[i].(prot := prot)
        else m.regions[i]
  }

  method FindRegion(rs: seq<Region>, p: int) returns (inside: bool)
    ensures inside <==> Covered(rs, p)
  {
    for i := 0 to |rs|
      invariant forall j | 0 <= j < i :: !In(rs[j], p)
    {
      if In(rs[i], p) { return true; }
    }
    inside := false;
  }

  method ProtAll(rs: seq<Region>, s: int, e: int, prot: Prot) returns (rs': seq<Region>)
    ensures |rs'| == |rs| && (Ordered(rs) ==> Ordered(rs'))
    ensures forall i | 0 <= i < |rs| ::
      rs'[i] == if rs[i].used && rs[i].end > s && rs[i].start < e then rs[i].(prot := prot) else rs[i]
  {
    rs' := rs;
    for i := 0 to |rs|
      invariant |rs'| == |rs| && forall j | i <= j < |rs| :: rs'[j] == rs[j]
      invariant forall j | 0 <= j < i ::
        rs'[j] == if rs[j].used && rs[j].end > s && rs[j].start < e then rs[j].(prot := prot) else rs[j]
    {
      if rs[i].used && rs[i].end > s && rs[i].start < e { rs' := rs'[i := rs[i].(prot := prot)]; }
    }
  }

  // ---- mmap ----

  function SetTop(sp: Spaces, a: int, top: int): Spaces
    requires a in sp
  {
    sp[a := sp[a].(mmapTop := top)]
  }

  lemma CursorSound(mem: Memory, free: set<int>, sp: Spaces, a: int, top: int)
    requires Sound(mem, free, sp) && a in sp
    ensures Sound(mem, free, SetTop(sp, a, top))
  {
    var sp' := SetTop(sp, a, top);
    forall b, q {:trigger Maps(sp', b, q)}
      ensures Maps(sp', b, q) == Maps(sp, b, q) && (Maps(sp, b, q) ==> FrameAt(sp', b, q) == FrameAt(sp, b, q))
    { }
  }

  lemma CursorKept(mem: Memory, free: set<int>, sp: Spaces, sp': Spaces, a: int)
    requires Sound(mem, free, sp) && a in sp && a in sp' && sp' == sp[a := sp[a].(mmapTop := sp'[a].mmapTop)]
    ensures OthersKept(mem, sp, mem, sp', a)
  {
  }

  ghost predicate Zeroed(mem: Memory, sp: Spaces, a: int, s: int, e: int) {
    forall p {:trigger Maps(sp, a, p)} | s <= p < e :: Maps(sp, a, p) && FrameAt(sp, a, p) in mem
      && Data(mem, sp, a, p) == ZeroPage()
  }

  /** Rounded to pages, the range does not wrap around the address space. */
  predicate NoWrap(at: int, len: int) {
    at + len + 2 * PAGE_SIZE <= ADDRESS_LIMIT
  }

  /** Where the next anonymous mapping may start. */
  function Cursor(m: Mm): int {
    if m.mmapTop < UVM_MMAP_BASE then UVM_MMAP_BASE else m.mmapTop
  }

  /** The pages lie in the arena, are not none, and the pool has a frame for each one that has none. */
  ghost predicate CanMap(pt: map<int, Pte>, free: set<int>, s: int, pages: int, low: int) {
    0 < pages && low <= s * PAGE_SIZE && (s + pages) * PAGE_SIZE <= UVM_MMAP_LIMIT
      && |Missing(pt, s, s + pages)| <= |free|
  }

  lemma PageSum(s: int, len: int)
    ensures PageDown(s * PAGE_SIZE) == s && PageUp(s * PAGE_SIZE) == s && PageUp(s * PAGE_SIZE + len) == s + PageUp(len)
  {
  }

  /** The first page an mmap maps. */
  function Target(m: Mm, hint: int, fixed: bool): int {
    if fixed then PageDown(hint) else PageUp(Cursor(m))
  }

  /** Rolling back a range that had no mapped page changes nothing. */
  lemma NothingBack(z: State, y: State, a: int, s: int, e: int)
    requires a in z.sp && (forall q | s <= q < e :: q !in z.sp[a].pt)
    requires exists at :: StopsAt(z.sp[a].pt, |z.free|, s, e, at) && RolledBack(z, y, a, s, at)
    ensures y.sp == z.sp && y.free == z.free
  {
    var at :| StopsAt(z.sp[a].pt, |z.free|, s, e, at) && RolledBack(z, y, a, s, at);
    assert Without(z.sp[a].pt, s, at) == z.sp[a].pt && Frames(z.sp[a].pt, s, at) == {};
  }

  /** A range that was unmapped is mapped to zeroed frames. */
  lemma FreshZero(mem: Memory, free: set<int>, sp: Spaces, mem': Memory, free': set<int>, sp': Spaces, a: int, s: int,
      e: int, prot: Prot)
    requires a in sp && a in sp'
    requires RangeMapped(mem, free, sp, mem', free', SetRegions(sp', a, sp[a].regions), a, s, e, prot)
    requires forall q | s <= q < e :: q !in sp[a].pt
    ensures Zeroed(mem', sp', a, s, e)
  {
    forall p {:trigger Maps(sp', a, p)} | s <= p < e
      ensures Maps(sp', a, p) && FrameAt(sp', a, p) in mem' && Data(mem', sp', a, p) == ZeroPage()
    {
      var sp1 := SetRegions(sp', a, sp[a].regions);
      assert p in sp1[a].pt && sp1[a].pt == sp'[a].pt;
      assert NewPage(free, free', mem', sp1[a].pt[p], prot);
    }
  }
}
