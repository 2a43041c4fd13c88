/** Releasing and forking address spaces, and copying to and from user memory. */
module UvmFork {
  import opened Bytes
  import opened UvmModel
  import opened Uvm

  // ---- release ----

  /** The page lies in one of the first n tracked regions. */
  ghost predicate CoveredBy(rs: seq<Region>, n: nat, p: int)
    requires n <= |rs|
  {
    exists i | 0 <= i < n :: In(rs[i], p)
  }

  lemma CoveredNext(rs: seq<Region>, n: nat, p: int)
    requires n < |rs|
    ensures CoveredBy(rs, n + 1, p) <==> CoveredBy(rs, n, p) || In(rs[n], p)
  {
  }

  /** pt' is pt without the pages of the first n regions; their frames, and no others, were freed. */
  ghost predicate Dropped(pt: map<int, Pte>, free: set<int>, pt': map<int, Pte>, free': set<int>, rs: seq<Region>,
      n: nat)
    requires n <= |rs|
  {
    && (forall q :: q in pt' <==> q in pt && !CoveredBy(rs, n, q))
    && (forall q | q in pt' :: pt'[q] == pt[q])
    && (forall q | q in pt && q !in pt' :: pt[q].frame in free')
    && free <= free' && forall f | f in free' && f !in free :: exists q | q in pt :: q !in pt' && pt[q].frame == f
  }

  lemma DroppedNext(pt: map<int, Pte>, free: set<int>, pt1: map<int, Pte>, free1: set<int>, pt2: map<int, Pte>,
      free2: set<int>, rs: seq<Region>, n: nat)
    requires n < |rs| && Dropped(pt, free, pt1, free1, rs, n)
    requires
      if rs[n].used then pt2 == Without(pt1, rs[n].start, rs[n].end)
        && free2 == free1 + Frames(pt1, rs[n].start, rs[n].end)
      else pt2 == pt1 && free2 == free1
    ensures Dropped(pt, free, pt2, free2, rs, n + 1)
  {
    forall q ensures CoveredBy(rs, n + 1, q) <==> CoveredBy(rs, n, q) || In(rs[n], q) { CoveredNext(rs, n, q); }
    forall q | q in pt && q !in pt2 ensures pt[q].frame in free2 {
      if q in pt1 { assert pt1[q].frame in Frames(pt1, rs[n].start, rs[n].end); }
    }
    forall f | f in free2 && f !in free ensures exists q | q in pt :: q !in pt2 && pt[q].frame == f {
      if f in free1 {
        var q :| q in pt && q !in pt1 && pt[q].frame == f;
        assert q !in pt2;
      } else {
        var q :| q in pt1 && rs[n].start <= q < rs[n].end && pt1[q].frame == f;
        assert q in pt && q !in pt2;
      }
    }
  }

  function Unused(r: Region): Region {
    r.(used := false)
  }

  // uvm_release_mm
  method Release(k: Kernel, a: int)
    requires k.Valid() && a in k.spaces
    modifies k`free, k`spaces
    ensures k.Valid() && OthersKept(k.mem, old(k.spaces), k.mem, k.spaces, a)
    ensures Dropped(old(k.spaces)[a].pt, old(k.free), k.spaces[a].pt, k.free, old(k.spaces)[a].regions, MAX_VM_REGIONS)
    ensures (forall p :: !Covered(k.spaces[a].regions, p))
    ensures k.spaces[a].brkStart == k.spaces[a].brkCur == k.spaces[a].mmapTop == 0
  {
    ghost var rs, pt := k.spaces[a].regions, k.spaces[a].pt;
    KeptRefl(k.mem, k.free, k.spaces, a);
    for i := 0 to MAX_VM_REGIONS
      invariant k.Valid() && OthersKept(k.mem, old(k.spaces), k.mem, k.spaces, a)
      invariant Dropped(pt, old(k.free), k.spaces[a].pt, k.free, rs, i)
      invariant |k.spaces[a].regions| == |rs| == MAX_VM_REGIONS
      invariant forall j | 0 <= j < MAX_VM_REGIONS :: k.spaces[a].regions[j] == if j < i then Unused(rs[j]) else rs[j]
    {
      ghost var pt1, free1 := k.spaces[a].pt, k.free;
      DropRegion(k, a, i);
      DroppedNext(pt, old(k.free), pt1, free1, k.spaces[a].pt, k.free, rs, i);
    }
    ClearCursors(k, a);
  }

  /** Unmap one region, if in use, and drop it. */
  method DropRegion(k: Kernel, a: int, i: nat)
    requires k.Valid() && a in k.spaces && i < MAX_VM_REGIONS == |k.spaces[a].regions|
    modifies k`free, k`spaces
    ensures k.Valid() && OthersKept(k.mem, old(k.spaces), k.mem, k.spaces, a)
    ensures k.spaces[a].regions == old(k.spaces)[a].regions[i := Unused(old(k.spaces)[a].regions[i])]
    ensures var r, pt := old(k.spaces)[a].regions[i], old(k.spaces)[a].pt;
      if r.used then k.spaces[a].pt == Without(pt, r.start, r.end) && k.free == old(k.free) + Frames(pt, r.start, r.end)
      else k.spaces[a].pt == pt && k.free == old(k.free)
  {
    var r := k.spaces[a].regions[i];
    if r.used { k.UnmapPages(a, r.start, r.end); }
    var rs := k.spaces[a].regions[i := Unused(r)];
    RegionsSound(k.mem, k.free, k.spaces, a, rs);
    k.spaces := SetRegions(k.spaces, a, rs);
    OthersFromSame(k.mem, old(k.free), old(k.spaces), k.mem, k.spaces, a);
  }

  method ClearCursors(k: Kernel, a: int)
    requires k.Valid() && a in k.spaces
    modifies k`spaces
    ensures k.Valid() && k.spaces == old(k.spaces)[a := old(k.spaces)[a].(brkStart := 0, brkCur := 0, mmapTop := 0)]
  {
    ghost var sp := k.spaces;
    k.spaces := k.spaces[a := k.spaces[a].(brkStart := 0, brkCur := 0, mmapTop := 0)];
    CursorsSound(k.mem, k.free, sp, k.spaces, a);
  }

  lemma CursorsSound(mem: Memory, free: set<int>, sp: Spaces, sp': Spaces, a: int)
    requires Sound(mem, free, sp) && a in sp && a in sp' && sp' == sp[a := sp'[a]] && sp'[a].pt == sp[a].pt
    requires sp'[a].regions == sp[a].regions
    ensures Sound(mem, free, sp') && OthersKept(mem, sp, mem, sp', a)
  {
    forall b, q {:trigger Maps(sp', b, q)}
      ensures Maps(sp', b, q) == Maps(sp, b, q) && (Maps(sp, b, q) ==> FrameAt(sp', b, q) == FrameAt(sp, b, q))
    { }
  }

  // ---- fork ----

  /** The child's page: the parent's bytes in a frame of its own, the parent's write bit, and no no-execute bit, since
      only the low flag bits are copied. */
  ghost predicate PageCopied(mem: Memory, sp: Spaces, a: int, c: int, q: int) {
    && Maps(sp, a, q) && Maps(sp, c, q) && FrameAt(sp, a, q) in mem && FrameAt(sp, c, q) in mem
    && Data(mem, sp, c, q) == Data(mem, sp, a, q) && sp[c].pt[q] == Pte(FrameAt(sp, c, q), sp[a].pt[q].writable, false)
  }

  /** The child has copies of exactly the pages in done; every other address space is untouched. */
  ghost predicate Copied(mem: Memory, sp: Spaces, mem': Memory, sp': Spaces, a: int, c: int, done: set<int>) {
    && a != c && OthersKept(mem, sp, mem', sp', c) && sp'[c].pt.Keys == done
    && forall q {:trigger PageCopied(mem', sp', a, c, q)} | q in done :: PageCopied(mem', sp', a, c, q)
  }

  lemma CopiedStep(mem: Memory, free: set<int>, sp: Spaces, mem1: Memory, free1: set<int>, sp1: Spaces, mem2: Memory,
      sp2: Spaces, a: int, c: int, done: set<int>, v: int, e: Pte)
    requires Sound(mem1, free1, sp1) && Copied(mem, sp, mem1, sp1, a, c, done) && Maps(sp1, a, v) && e.frame in free1
    requires mem2 == mem1[e.frame := mem1[FrameAt(sp1, a, v)]] && sp2 == SetPt(sp1, c, sp1[c].pt[v := e])
    requires e == Pte(e.frame, sp1[a].pt[v].writable, false)
    ensures Copied(mem, sp, mem2, sp2, a, c, done + {v})
  {
    forall b, q {:trigger Maps(sp, b, q)} | b != c && Maps(sp, b, q)
      ensures FrameAt(sp, b, q) in mem && FrameAt(sp, b, q) in mem2 && mem2[FrameAt(sp, b, q)] == mem[FrameAt(sp, b, q)]
    {
      assert Maps(sp1, b, q);
    }
    forall q {:trigger PageCopied(mem2, sp2, a, c, q)} | q in done + {v} ensures PageCopied(mem2, sp2, a, c, q) {
      assert Maps(sp1, a, v);
      if q != v {
        assert PageCopied(mem1, sp1, a, c, q);
        assert Maps(sp1, a, q) && Maps(sp1, c, q);
      }
    }
  }

  // ---- frames taken by a fork ----

  ghost function PtFrames(pt: map<int, Pte>): set<int> {
    set q | q in pt :: pt[q].frame
  }

  /** The pool only shrank, and the frames behind pt came from it. */
  ghost predicate Drawn(free0: set<int>, free: set<int>, pt: map<int, Pte>) {
    free <= free0 && forall q {:trigger FromPool(free0, pt, q)} | q in pt :: FromPool(free0, pt, q)
  }

  ghost predicate FromPool(free0: set<int>, pt: map<int, Pte>, q: int)
    requires q in pt
  {
    pt[q].frame in free0
  }

  /** Frames taken that no page of pt maps. */
  ghost function LostFrames(free0: set<int>, free: set<int>, pt: map<int, Pte>): set<int> {
    free0 - free - PtFrames(pt)
  }

  lemma {:induction false} KeyCount(pt: map<int, Pte>, ks: set<int>, fs: set<int>)
    requires ks <= pt.Keys && fs == set q | q in ks :: pt[q].frame
    requires forall p, q | p in ks && q in ks && pt[p].frame == pt[q].frame :: p == q
    ensures |fs| == |ks|
    decreases |ks|
  {
    if ks != {} {
      Inhabited(ks);
      var q :| q in ks;
      assert fs == (set x | x in ks - {q} :: pt[x].frame) + {pt[q].frame};
      KeyCount(pt, ks - {q}, set x | x in ks - {q} :: pt[x].frame);
    }
  }

  /** Lost frames are those taken beyond one for each page. */
  lemma LostCount(mem: Memory, free0: set<int>, free: set<int>, sp: Spaces, c: int)
    requires Sound(mem, free, sp) && c in sp && Drawn(free0, free, sp[c].pt)
    ensures |LostFrames(free0, free, sp[c].pt)| == |free0| - |free| - |sp[c].pt.Keys|
  {
    var pt := sp[c].pt;
    forall p, q | p in pt.Keys && q in pt.Keys && pt[p].frame == pt[q].frame
      ensures p == q
    { assert Maps(sp, c, p) && Maps(sp, c, q); }
    assert PtFrames(pt) == set q | q in pt.Keys :: pt[q].frame;
    KeyCount(pt, pt.Keys, PtFrames(pt));
    forall f | f in PtFrames(pt) ensures f !in free && f in free0 {
      var q :| q in pt && pt[q].frame == f;
      assert Maps(sp, c, q) && FromPool(free0, pt, q);
    }
    Rest(free0, free, PtFrames(pt));
  }

  lemma Rest(s: set<int>, t: set<int>, u: set<int>)
    requires t <= s && u <= s && t !! u
    ensures |s - t - u| == |s| - |t| - |u|
  {
    assert s == (s - t) + t && s - t == (s - t - u) + u;
  }

  lemma DrawnStep(free0: set<int>, free: set<int>, pt: map<int, Pte>, v: int, e: Pte)
    requires Drawn(free0, free, pt) && e.frame in free
    ensures Drawn(free0, free - {e.frame}, pt[v := e])
  {
    forall q {:trigger FromPool(free0, pt[v := e], q)} | q in pt[v := e] ensures FromPool(free0, pt[v := e], q) {
      if q != v { assert FromPool(free0, pt, q); }
    }
  }

  // ---- pages a fork copies ----

  ghost function Present(pt: map<int, Pte>, s: int, e: int): set<int> {
    set q | q in pt && s <= q < e
  }

  /** How many they are. */
  ghost function Count(pt: map<int, Pte>, s: int, e: int): nat
    decreases e - s
  {
    if e <= s then 0 else Count(pt, s, e - 1) + if e - 1 in pt then 1 else 0
  }

  /** The mapped pages of the first n regions. */
  ghost function InFirst(m: Mm, n: nat): set<int>
    requires n <= |m.regions|
  {
    set q | q in m.pt && CoveredBy(m.regions, n, q)
  }

  /** How many copies forking the first n regions makes: a page in two of them is copied twice. */
  ghost function Copies(m: Mm, n: nat): nat
    requires n <= |m.regions|
  {
    if n == 0 then 0
    else
      Copies(m, n - 1)
      + if m.regions[n - 1].used then Count(m.pt, m.regions[n - 1].start, m.regions[n - 1].end) else 0
  }

  lemma PresentStep(pt: map<int, Pte>, s: int, v: int)
    requires s <= v
    ensures Present(pt, s, v + 1) == Present(pt, s, v) + if v in pt then {v} else {}
  {
  }

  lemma {:induction false} CountPresent(pt: map<int, Pte>, s: int, e: int)
    requires s <= e
    ensures Count(pt, s, e) == |Present(pt, s, e)|
    decreases e - s
  {
    if s == e { NonePresent(pt, s); } else {
      CountPresent(pt, s, e - 1);
      PresentStep(pt, s, e - 1);
    }
  }

  lemma {:induction false} CountMore(pt: map<int, Pte>, s: int, v: int, e: int)
    requires v <= e
    ensures Count(pt, s, v) <= Count(pt, s, e)
    decreases e - v
  {
    if v < e { CountMore(pt, s, v, e - 1); }
  }

  lemma NonePresent(pt: map<int, Pte>, s: int)
    ensures Present(pt, s, s) == {}
  {
  }

  lemma FirstNext(m: Mm, n: nat)
    requires n < |m.regions|
    ensures InFirst(m, n + 1) == InFirst(m, n)
      + if m.regions[n].used then Present(m.pt, m.regions[n].start, m.regions[n].end) else {}
  {
    forall q
      ensures CoveredBy(m.regions, n + 1, q) <==> CoveredBy(m.regions, n, q) || In(m.regions[n], q)
    { CoveredNext(m.regions, n, q); }
  }

  lemma {:induction false} CopiesMore(m: Mm, n: nat, k: nat)
    requires n <= k <= |m.regions|
    ensures Copies(m, n) <= Copies(m, k)
  {
    if n < k { CopiesMore(m, n, k - 1); }
  }

  /** Stopping at a mapped page with the pool used up means the fork needs more than the pool had. */
  lemma TooFewCopies(m: Mm, n: nat, v: int, had: nat)
    requires n < |m.regions| && m.regions[n].used && m.regions[n].start <= v < m.regions[n].end && v in m.pt
    requires had == Copies(m, n) + Count(m.pt, m.regions[n].start, v)
    ensures had < Copies(m, |m.regions|)
  {
    CountMore(m.pt, m.regions[n].start, v + 1, m.regions[n].end);
    CopiesMore(m, n + 1, |m.regions|);
  }

  /** No mapped page lies in two of the first n regions. */
  ghost predicate Apart(m: Mm, n: nat)
    requires n <= |m.regions|
  {
    forall q, i, j {:trigger In(m.regions[i], q), In(m.regions[j], q)} | q in m.pt && 0 <= i < j < n
      && In(m.regions[i], q) :: !In(m.regions[j], q)
  }

  /** One copy for each page, exactly when no page lies in two regions. */
  lemma {:induction false} CopiesExact(m: Mm, n: nat)
    requires n <= |m.regions| && Ordered(m.regions)
    ensures Copies(m, n) >= |InFirst(m, n)| && (Copies(m, n) == |InFirst(m, n)| <==> Apart(m, n))
  {
    if n == 0 {
      assert InFirst(m, 0) == {};
    } else {
      CopiesExact(m, n - 1);
      FirstNext(m, n - 1);
      var s := InFirst(m, n - 1);
      var t := if m.regions[n - 1].used then Present(m.pt, m.regions[n - 1].start, m.regions[n - 1].end) else {};
      if m.regions[n - 1].used { CountPresent(m.pt, m.regions[n - 1].start, m.regions[n - 1].end); }
      Union(s, t);
      ApartNext(m, n - 1, s, t);
    }
  }

  lemma Union(s: set<int>, t: set<int>)
    ensures |s + t| <= |s| + |t| && (|s + t| == |s| + |t| <==> s !! t)
  {
    assert s + t == s + (t - s) && t == (t - s) + t * s;
    assert |s + (t - s)| == |s| + |t - s| && |(t - s) + t * s| == |t - s| + |t * s|;
  }

  lemma ApartNext(m: Mm, n: nat, s: set<int>, t: set<int>)
    requires n < |m.regions| && s == InFirst(m, n)
    requires t == if m.regions[n].used then Present(m.pt, m.regions[n].start, m.regions[n].end) else {}
    ensures Apart(m, n + 1) <==> Apart(m, n) && s !! t
  {
    forall q ensures q in t <==> q in m.pt && In(m.regions[n], q) { }
    if Apart(m, n + 1) {
      forall q | q in s ensures q !in t {
        var i :| 0 <= i < n && In(m.regions[i], q);
        assert In(m.regions[i], q);
      }
    }
    if Apart(m, n) && s !! t {
      forall q, i, j {:trigger In(m.regions[i], q), In(m.regions[j], q)} | q in m.pt && 0 <= i < j < n + 1
        && In(m.regions[i], q)
        ensures !In(m.regions[j], q)
      {
        if j == n { assert CoveredBy(m.regions, n, q) && q in s; }
      }
    }
  }

  // ---- the fork loops ----

  /** Copy one page of the parent, if mapped, into a fresh frame of the child. */
  method ForkPage(k: Kernel, a: int, c: int, v: int, ghost mem: Memory, ghost sp: Spaces, ghost done: set<int>,
      ghost free0: set<int>, ghost had: nat)
    returns (ok: bool, ghost has: nat)
    requires k.Valid() && a in k.spaces && Copied(mem, sp, k.mem, k.spaces, a, c, done)
    requires Drawn(free0, k.free, k.spaces[c].pt) && had == |k.free|
    modifies k
    ensures k.Valid() && c in k.spaces && k.spaces[c].regions == old(k.spaces)[c].regions
    ensures Drawn(free0, k.free, k.spaces[c].pt)
    ensures a in k.spaces && k.spaces[a] == old(k.spaces)[a]
    ensures ok ==> Copied(mem, sp, k.mem, k.spaces, a, c, done + if v in old(k.spaces)[a].pt then {v} else {})
    ensures has == |k.free| && (ok ==> had == has + if v in old(k.spaces)[a].pt then 1 else 0)
    ensures !ok ==> unchanged(k) && has == 0 && v in k.spaces[a].pt
  {
    has := had;
    if v !in k.spaces[a].pt {
      assert done + {} == done;
      return true, had;
    }
    assert Maps(k.spaces, a, v);
    var pte := k.spaces[a].pt[v];
    ghost var free1 := k.free;
    var f := k.AllocFrame();
    if f == 0 { return false, had; }
    has := had - 1;
    var e := Pte(f, pte.writable, false);
    DrawnStep(free0, free1, k.spaces[c].pt, v, e);
    MapSound(k.mem, free1, k.spaces, c, v, e);
    CopiedStep(mem, free1, sp, k.mem, free1, k.spaces, k.mem[f := k.mem[pte.frame]],
      SetPt(k.spaces, c, k.spaces[c].pt[v := e]), a, c, done, v, e);
    k.mem := k.mem[f := k.mem[pte.frame]];
    k.spaces := SetPt(k.spaces, c, k.spaces[c].pt[v := e]);
    ok := true;
  }

  lemma Regroup(s: set<int>, t: set<int>, u: set<int>)
    ensures s + t + u == s + (t + u)
  {
  }

  /** The child has copies of the pages in done, in frames from the pool. */
  ghost predicate Forking(k: Kernel, a: int, c: int, mem: Memory, sp: Spaces, done: set<int>, free0: set<int>)
    reads k
  {
    k.Valid() && a in k.spaces && a in sp && k.spaces[a] == sp[a] && Copied(mem, sp, k.mem, k.spaces, a, c, done)
      && Drawn(free0, k.free, k.spaces[c].pt)
  }

  method ForkStep(k: Kernel, a: int, c: int, ghost s: int, v: int, ghost mem: Memory, ghost sp: Spaces,
      ghost first: set<int>, ghost free0: set<int>, ghost had: nat)
    returns (ok: bool, v': int, ghost has: nat)
    requires a in sp && s <= v && Forking(k, a, c, mem, sp, first + Present(sp[a].pt, s, v), free0) && had == |k.free|
    modifies k
    ensures c in k.spaces && c in old(k.spaces) && k.spaces[c].regions == old(k.spaces)[c].regions
    ensures v' == (if ok then v + 1 else v) && Forking(k, a, c, mem, sp, first + Present(sp[a].pt, s, v'), free0)
    ensures has == |k.free| && had + Count(sp[a].pt, s, v) == has + Count(sp[a].pt, s, v')
    ensures !ok ==> unchanged(k) && has == 0 && v in sp[a].pt
  {
    PresentStep(sp[a].pt, s, v);
    Regroup(first, Present(sp[a].pt, s, v), if v in sp[a].pt then {v} else {});
    ok, has := ForkPage(k, a, c, v, mem, sp, first + Present(sp[a].pt, s, v), free0, had);
    v' := if ok then v + 1 else v;
  }

  /** Copy the pages of one region; without a free frame it stops at a mapped page. */
  method ForkRegion(k: Kernel, a: int, c: int, r: Region, ghost mem: Memory, ghost sp: Spaces, ghost first: set<int>,
      ghost free0: set<int>, ghost had: nat)
    returns (ok: bool, ghost at: int)
    requires a in sp && Forking(k, a, c, mem, sp, first, free0) && r.start <= r.end && had == |k.free|
    modifies k
    ensures c in k.spaces && c in old(k.spaces) && k.spaces[c].regions == old(k.spaces)[c].regions
    ensures Forking(k, a, c, mem, sp, first + Present(sp[a].pt, r.start, at), free0)
    ensures had == |k.free| + Count(sp[a].pt, r.start, at)
    ensures ok ==> at == r.end
    ensures !ok ==> r.start <= at < r.end && at in sp[a].pt && |k.free| == 0
  {
    NonePresent(sp[a].pt, r.start);
    assert first + {} == first;
    ghost var has := had;
    var v := r.start;
    ok := true;
    while ok && v < r.end
      invariant r.start <= v <= r.end && Forking(k, a, c, mem, sp, first + Present(sp[a].pt, r.start, v), free0)
      invariant c in k.spaces && k.spaces[c].regions == old(k.spaces)[c].regions
      invariant has == |k.free| && had == has + Count(sp[a].pt, r.start, v)
      invariant (!ok ==> v < r.end && v in sp[a].pt && has == 0)
      decreases ok, r.end - v
    {
      ok, v, has := ForkStep(k, a, c, r.start, v, mem, sp, first, free0, has);
    }
    at := v;
  }

  /** The child tracks what the first n regions of the parent track. */
  ghost predicate Mirrors(crs: seq<Region>, rs: seq<Region>, n: nat)
    requires n <= |rs|
  {
    forall p {:trigger Covered(crs, p)} {:trigger CoveredBy(rs, n, p)} :: Covered(crs, p) <==> CoveredBy(rs, n, p)
  }

  lemma MirrorNext(crs: seq<Region>, crs': seq<Region>, rs: seq<Region>, n: nat, j: nat)
    requires n < |rs| && Mirrors(crs, rs, n) && j < |crs| && !crs[j].used && crs' == crs[j := rs[n]]
    ensures Mirrors(crs', rs, n + 1)
  {
    forall p {:trigger Covered(crs', p)} ensures Covered(crs', p) <==> CoveredBy(rs, n + 1, p) {
      CoveredNext(rs, n, p);
      if Covered(crs', p) {
        var i :| 0 <= i < |crs'| && In(crs'[i], p);
        assert i == j || In(crs[i], p);
      }
      if Covered(crs, p) {
        var i :| 0 <= i < |crs| && In(crs[i], p);
        assert In(crs'[i], p);
      }
      if In(rs[n], p) { assert In(crs'[j], p); }
    }
  }

  lemma MirrorSkip(crs: seq<Region>, rs: seq<Region>, n: nat)
    requires n < |rs| && Mirrors(crs, rs, n) && !rs[n].used
    ensures Mirrors(crs, rs, n + 1)
  {
    forall p {:trigger Covered(crs, p)} ensures Covered(crs, p) <==> CoveredBy(rs, n + 1, p) { CoveredNext(rs, n, p); }
  }

  method FindUnused(rs: seq<Region>) returns (j: nat)
    ensures j <= |rs| && (j < |rs| ==> !rs[j].used) && forall i | 0 <= i < j :: rs[i].used
  {
    j := 0;
    while j < |rs| && rs[j].used
      invariant j <= |rs| && forall i | 0 <= i < j :: rs[i].used
    {
      j := j + 1;
    }
  }

  ghost predicate UnusedFrom(rs: seq<Region>, n: nat) {
    |rs| == MAX_VM_REGIONS && forall j | n <= j < |rs| :: !rs[j].used
  }

  /** Mirror a region entry in the first unused slot of the child's table. */
  method MirrorRegion(k: Kernel, a: int, c: int, i: nat, ghost mem: Memory, ghost sp: Spaces, ghost done: set<int>)
    returns (ok: bool)
    requires k.Valid() && a in k.spaces && a in sp && Copied(mem, sp, k.mem, k.spaces, a, c, done)
    requires |sp[a].regions| == MAX_VM_REGIONS
    requires i < |sp[a].regions| && sp[a].regions[i].used && sp[a].regions[i].start <= sp[a].regions[i].end
    requires Mirrors(k.spaces[c].regions, sp[a].regions, i)
    modifies k`spaces
    ensures k.Valid() && Copied(mem, sp, k.mem, k.spaces, a, c, done) && k.spaces[c].pt == old(k.spaces)[c].pt
    ensures ok ==> Mirrors(k.spaces[c].regions, sp[a].regions, i + 1) && k.free == old(k.free)
    ensures !ok ==> Full(k.spaces[c].regions)
    ensures UnusedFrom(old(k.spaces)[c].regions, i) ==> ok && UnusedFrom(k.spaces[c].regions, i + 1)
  {
    assert k.spaces[a] == sp[a];
    ghost var crs, sp1 := k.spaces[c].regions, k.spaces;
    assert Ordered(crs) && |crs| == MAX_VM_REGIONS;
    assert UnusedFrom(crs, i) ==> !crs[i].used;
    var j := FindUnused(k.spaces[c].regions);
    if j == |k.spaces[c].regions| { return false; }
    var rs := k.spaces[c].regions[j := k.spaces[a].regions[i]];
    RegionsSound(k.mem, k.free, k.spaces, c, rs);
    MirrorNext(crs, rs, sp[a].regions, i, j);
    k.spaces := SetRegions(k.spaces, c, rs);
    CopiedRegions(mem, sp, k.mem, sp1, k.spaces, a, c, done);
    ok := true;
  }

  lemma CopiedRegions(mem: Memory, sp: Spaces, mem1: Memory, sp1: Spaces, sp2: Spaces, a: int, c: int, done: set<int>)
    requires Copied(mem, sp, mem1, sp1, a, c, done) && c in sp2 && sp2 == sp1[c := sp2[c]] && sp2[c].pt == sp1[c].pt
    ensures Copied(mem, sp, mem1, sp2, a, c, done)
  {
    forall q {:trigger PageCopied(mem1, sp2, a, c, q)} | q in done
      ensures PageCopied(mem1, sp2, a, c, q)
    { assert PageCopied(mem1, sp1, a, c, q); }
  }

  /** Every tracked, mapped page of the parent is in the child with the same bytes; the child has nothing else, tracks
      what the parent tracks, and no other address space changed. */
  ghost predicate Forked(mem: Memory, sp: Spaces, mem': Memory, sp': Spaces, a: int, c: int) {
    && a in sp && a != c && OthersKept(mem, sp, mem', sp', c)
    && (forall q {:trigger PageCopied(mem', sp', a, c, q)} | q in sp[a].pt && Covered(sp[a].regions, q) ::
      PageCopied(mem', sp', a, c, q))
    && (forall q :: q in sp'[c].pt <==> q in sp[a].pt && Covered(sp[a].regions, q))
    && (forall p {:trigger Covered(sp'[c].regions, p)} :: Covered(sp'[c].regions, p) <==> Covered(sp[a].regions, p))
    && sp'[c].brkStart == sp[a].brkStart && sp'[c].brkCur == sp[a].brkCur && sp'[c].mmapTop == sp[a].mmapTop
  }

  /** An address space that maps and tracks nothing. */
  ghost predicate Fresh(m: Mm) {
    m.pt == map[] && forall i | 0 <= i < |m.regions| :: !m.regions[i].used
  }

  // uvm_fork
  method Fork(k: Kernel, a: int, c: int) returns (r: int)
    requires k.Valid() && a in k.spaces && c in k.spaces && a != c && Fresh(k.spaces[c])
    modifies k
    ensures k.Valid() && (r == 0 || r == -1) && OthersKept(old(k.mem), old(k.spaces), k.mem, k.spaces, c)
    ensures r == 0 <==> Copies(old(k.spaces)[a], MAX_VM_REGIONS) <= |old(k.free)|
    ensures r == 0 ==> Forked(old(k.mem), old(k.spaces), k.mem, k.spaces, a, c)
    ensures r == 0 ==> (Tracked(old(k.spaces)[a]) ==> Tracked(k.spaces[c]))
    ensures r == 0 ==> Drawn(old(k.free), k.free, k.spaces[c].pt)
    ensures r == 0 ==>
      |LostFrames(old(k.free), k.free, k.spaces[c].pt)| ==
      Copies(old(k.spaces)[a], MAX_VM_REGIONS) - |k.spaces[c].pt.Keys|
    ensures r == 0 ==> (LostFrames(old(k.free), k.free, k.spaces[c].pt) == {} <==>
      Apart(old(k.spaces)[a], MAX_VM_REGIONS))
    ensures r != 0 ==> (forall p :: !Covered(k.spaces[c].regions, p))
    ensures r != 0 ==> exists i, at :: Stranded(old(k.free), old(k.spaces)[a], k.free, k.spaces[c].pt, i, at)
  {
    ghost var mem, sp, free0 := k.mem, k.spaces, k.free;
    ForkStart(mem, k.free, sp, a, c);
    var ok := ForkRegions(k, a, c, mem, sp, free0);
    if ok {
      ForkFinish(k, a, c, mem, sp, free0);
      r := 0;
    } else {
      r := -1;
    }
  }

  /** What holds once the first n regions are copied. */
  ghost predicate ForkedTo(x: State, y: State, a: int, c: int, n: nat)
    requires a in x.sp && n <= |x.sp[a].regions|
  {
    && a in y.sp && Copied(x.mem, x.sp, y.mem, y.sp, a, c, InFirst(x.sp[a], n))
    && Mirrors(y.sp[c].regions, x.sp[a].regions, n) && UnusedFrom(y.sp[c].regions, n)
    && Drawn(x.free, y.free, y.sp[c].pt) && |x.free| == |y.free| + Copies(x.sp[a], n)
  }

  method ForkRegions(k: Kernel, a: int, c: int, ghost mem: Memory, ghost sp: Spaces, ghost free0: set<int>)
    returns (ok: bool)
    requires k.Valid() && a in sp && MAX_VM_REGIONS == |sp[a].regions|
    requires ForkedTo(State(mem, free0, sp), k.Now(), a, c, 0)
    modifies k
    ensures k.Valid() && OthersKept(mem, sp, k.mem, k.spaces, c)
    ensures ok ==> ForkedTo(State(mem, free0, sp), k.Now(), a, c, MAX_VM_REGIONS)
    ensures !ok ==> Copies(sp[a], MAX_VM_REGIONS) > |free0| && forall p :: !Covered(k.spaces[c].regions, p)
    ensures !ok ==> exists i, at :: Stranded(free0, sp[a], k.free, k.spaces[c].pt, i, at)
  {
    ok := true;
    var i := 0;
    ghost var at, last := 0, 0;
    while ok && i < MAX_VM_REGIONS
      invariant k.Valid() && i <= MAX_VM_REGIONS && OthersKept(mem, sp, k.mem, k.spaces, c)
      invariant ok ==> ForkedTo(State(mem, free0, sp), k.Now(), a, c, i)
      invariant !ok ==> Copies(sp[a], MAX_VM_REGIONS) > |free0| && forall p :: !Covered(k.spaces[c].regions, p)
      invariant !ok ==> Stranded(free0, sp[a], k.free, k.spaces[c].pt, last, at)
      decreases MAX_VM_REGIONS - i
    {
      last := i;
      ok, at := ForkNext(k, a, c, i, mem, sp, free0);
      i := i + 1;
    }
  }

  method ForkFinish(k: Kernel, a: int, c: int, ghost mem: Memory, ghost sp: Spaces, ghost free0: set<int>)
    requires k.Valid() && a in sp && a != c && MAX_VM_REGIONS == |sp[a].regions| && Sound(mem, free0, sp)
    requires ForkedTo(State(mem, free0, sp), k.Now(), a, c, MAX_VM_REGIONS)
    modifies k`spaces
    ensures k.Valid() && Forked(mem, sp, k.mem, k.spaces, a, c) && (Tracked(sp[a]) ==> Tracked(k.spaces[c]))
    ensures Drawn(free0, k.free, k.spaces[c].pt) && Copies(sp[a], MAX_VM_REGIONS) <= |free0|
    ensures |LostFrames(free0, k.free, k.spaces[c].pt)| == Copies(sp[a], MAX_VM_REGIONS) - |k.spaces[c].pt.Keys|
    ensures LostFrames(free0, k.free, k.spaces[c].pt) == {} <==> Apart(sp[a], MAX_VM_REGIONS)
  {
    ghost var sp1 := k.spaces;
    CopyCursors(k, a, c);
    CopiedRegions(mem, sp, k.mem, sp1, k.spaces, a, c, InFirst(sp[a], MAX_VM_REGIONS));
    ForkEnd(mem, sp, k.mem, k.spaces, a, c);
    LostCount(k.mem, free0, k.free, k.spaces, c);
    CopiesExact(sp[a], MAX_VM_REGIONS);
  }

  /** Copy and mirror region i, if in use, or give up and release the child. */
  method ForkNext(k: Kernel, a: int, c: int, i: nat, ghost mem: Memory, ghost sp: Spaces, ghost free0: set<int>)
    returns (ok: bool, ghost at: int)
    requires k.Valid() && a in k.spaces && a in sp && i < MAX_VM_REGIONS == |sp[a].regions|
    requires Copied(mem, sp, k.mem, k.spaces, a, c, InFirst(sp[a], i)) && Mirrors(k.spaces[c].regions, sp[a].regions, i)
    requires Drawn(free0, k.free, k.spaces[c].pt) && UnusedFrom(k.spaces[c].regions, i)
    requires |free0| == |k.free| + Copies(sp[a], i)
    modifies k
    ensures k.Valid() && a in k.spaces && OthersKept(mem, sp, k.mem, k.spaces, c)
    ensures Drawn(free0, k.free, k.spaces[c].pt)
    ensures ok ==> Copied(mem, sp, k.mem, k.spaces, a, c, InFirst(sp[a], i + 1))
    ensures ok ==> Mirrors(k.spaces[c].regions, sp[a].regions, i + 1)
    ensures ok ==> UnusedFrom(k.spaces[c].regions, i + 1) && |free0| == |k.free| + Copies(sp[a], i + 1)
    ensures !ok ==> (forall p :: !Covered(k.spaces[c].regions, p))
    ensures !ok ==> Stranded(free0, sp[a], k.free, k.spaces[c].pt, i, at) && |free0| < Copies(sp[a], |sp[a].regions|)
  {
    assert k.spaces[a] == sp[a];
    FirstNext(sp[a], i);
    var r := k.spaces[a].regions[i];
    if !r.used {
      assert InFirst(sp[a], i) + {} == InFirst(sp[a], i);
      MirrorSkip(k.spaces[c].regions, sp[a].regions, i);
      return true, 0;
    }
    ok, at := ForkRegion(k, a, c, r, mem, sp, InFirst(sp[a], i), free0, |k.free|);
    if ok { ok := MirrorRegion(k, a, c, i, mem, sp, InFirst(sp[a], i + 1)); }
    if !ok {
      TooFewCopies(sp[a], i, at, |free0|);
      Abandon(k, a, c, i, at, mem, sp, free0);
    }
  }

  lemma ForkStart(mem: Memory, free: set<int>, sp: Spaces, a: int, c: int)
    requires Sound(mem, free, sp) && a in sp && c in sp && a != c && Fresh(sp[c])
    ensures Copied(mem, sp, mem, sp, a, c, InFirst(sp[a], 0)) && Mirrors(sp[c].regions, sp[a].regions, 0)
    ensures |sp[a].regions| == MAX_VM_REGIONS
    ensures Drawn(free, free, sp[c].pt) && UnusedFrom(sp[c].regions, 0)
  {
    KeptRefl(mem, free, sp, c);
    assert InFirst(sp[a], 0) == {} && PtFrames(sp[c].pt) == {};
  }

  lemma ForkEnd(mem: Memory, sp: Spaces, mem': Memory, sp': Spaces, a: int, c: int)
    requires a in sp && Copied(mem, sp, mem', sp', a, c, InFirst(sp[a], |sp[a].regions|))
    requires Mirrors(sp'[c].regions, sp[a].regions, |sp[a].regions|)
    requires sp'[c].brkStart == sp[a].brkStart && sp'[c].brkCur == sp[a].brkCur && sp'[c].mmapTop == sp[a].mmapTop
    ensures Forked(mem, sp, mem', sp', a, c) && (Tracked(sp[a]) ==> Tracked(sp'[c]))
  {
    forall p ensures Covered(sp[a].regions, p) <==> CoveredBy(sp[a].regions, |sp[a].regions|, p) { }
    forall q {:trigger PageCopied(mem', sp', a, c, q)} | q in sp[a].pt && Covered(sp[a].regions, q)
      ensures PageCopied(mem', sp', a, c, q)
    { assert q in InFirst(sp[a], |sp[a].regions|); }
  }

  /** What a fork that ran out of frames leaves: it stopped at page at of the parent's region i. The child still maps
      the pages of that region copied so far, except those in regions already mirrored, and nothing tracks them. Every
      other frame is back in the pool, but for those lost to pages met twice. */
  ghost predicate Stranded(free0: set<int>, m: Mm, free: set<int>, pt: map<int, Pte>, i: int, at: int) {
    && 0 <= i < |m.regions| && m.regions[i].used && m.regions[i].start <= at < m.regions[i].end && at in m.pt
    && |free0| == Copies(m, i) + Count(m.pt, m.regions[i].start, at)
    && pt.Keys == Present(m.pt, m.regions[i].start, at) - InFirst(m, i) && Drawn(free0, free, pt)
    && |LostFrames(free0, free, pt)| == |free0| - |InFirst(m, i) + Present(m.pt, m.regions[i].start, at)|
  }

  /** Dropping pages returns their frames to the pool and loses no more. */
  lemma DropLost(free0: set<int>, free: set<int>, pt: map<int, Pte>, free': set<int>, pt': map<int, Pte>,
      rs: seq<Region>, n: nat)
    requires n <= |rs| && Drawn(free0, free, pt) && Dropped(pt, free, pt', free', rs, n)
    requires forall p, q | p in pt && q in pt && pt[p].frame == pt[q].frame :: p == q
    ensures Drawn(free0, free', pt') && LostFrames(free0, free', pt') == LostFrames(free0, free, pt)
  {
    forall f | f in PtFrames(pt) ensures f in free' || f in PtFrames(pt') {
      var q :| q in pt && pt[q].frame == f;
      if q in pt' { assert pt'[q].frame == f; }
    }
    forall f | f in PtFrames(pt') ensures f in PtFrames(pt) {
      var q :| q in pt' && pt'[q].frame == f;
      assert q in pt && pt[q].frame == f;
    }
    forall f | f in free' && f !in free ensures f in PtFrames(pt) && f in free0 {
      var q :| q in pt && q !in pt' && pt[q].frame == f;
      assert FromPool(free0, pt, q);
    }
    forall q {:trigger FromPool(free0, pt', q)} | q in pt'
      ensures FromPool(free0, pt', q)
    { assert FromPool(free0, pt, q); }
  }

  /** Out of frames: release what the child tracks so far. */
  method Abandon(k: Kernel, ghost a: int, c: int, ghost i: nat, ghost at: int, ghost mem: Memory, ghost sp: Spaces,
      ghost free0: set<int>)
    requires k.Valid() && a in sp && i < |sp[a].regions|
    requires Copied(mem, sp, k.mem, k.spaces, a, c, InFirst(sp[a], i) + Present(sp[a].pt, sp[a].regions[i].start, at))
    requires Mirrors(k.spaces[c].regions, sp[a].regions, i) && Drawn(free0, k.free, k.spaces[c].pt) && k.free == {}
    requires |free0| == Copies(sp[a], i) + Count(sp[a].pt, sp[a].regions[i].start, at)
    requires sp[a].regions[i].used && sp[a].regions[i].start <= at < sp[a].regions[i].end && at in sp[a].pt
    modifies k`free, k`spaces
    ensures k.Valid() && OthersKept(mem, sp, k.mem, k.spaces, c) && forall p :: !Covered(k.spaces[c].regions, p)
    ensures Stranded(free0, sp[a], k.free, k.spaces[c].pt, i, at)
  {
    ghost var sp1, free1 := k.spaces, k.free;
    LostCount(k.mem, free0, free1, sp1, c);
    Release(k, c);
    OthersTrans(mem, sp, k.mem, sp1, k.mem, k.spaces, c);
    forall p, q | p in sp1[c].pt && q in sp1[c].pt && sp1[c].pt[p].frame == sp1[c].pt[q].frame
      ensures p == q
    { assert Maps(sp1, c, p) && Maps(sp1, c, q); }
    DropLost(free0, free1, sp1[c].pt, k.free, k.spaces[c].pt, sp1[c].regions, MAX_VM_REGIONS);
    LeftBehind(sp[a], sp1[c].regions, sp1[c].pt, k.spaces[c].pt, i, at);
  }

  lemma LeftBehind(m: Mm, crs: seq<Region>, pt1: map<int, Pte>, pt: map<int, Pte>, i: nat, at: int)
    requires i < |m.regions| && Mirrors(crs, m.regions, i)
    requires pt1.Keys == InFirst(m, i) + Present(m.pt, m.regions[i].start, at)
    requires forall q :: q in pt <==> q in pt1 && !CoveredBy(crs, |crs|, q)
    ensures pt.Keys == Present(m.pt, m.regions[i].start, at) - InFirst(m, i)
  {
    forall q ensures q in pt <==> q in Present(m.pt, m.regions[i].start, at) && q !in InFirst(m, i) {
      assert CoveredBy(crs, |crs|, q) <==> Covered(crs, q);
      assert Covered(crs, q) <==> CoveredBy(m.regions, i, q);
    }
  }

  method CopyCursors(k: Kernel, a: int, c: int)
    requires k.Valid() && a in k.spaces && c in k.spaces && a != c
    modifies k`spaces
    ensures k.Valid() && c in k.spaces
    ensures k.spaces == old(k.spaces)[c := old(k.spaces)[c].(brkStart := k.spaces[c].brkStart,
      brkCur := k.spaces[c].brkCur, mmapTop := k.spaces[c].mmapTop)]
    ensures var m, p := k.spaces[c], old(k.spaces)[a];
      m.brkStart == p.brkStart && m.brkCur == p.brkCur && m.mmapTop == p.mmapTop
  {
    ghost var sp := k.spaces;
    k.spaces := k.spaces[c := k.spaces[c].(brkStart := k.spaces[a].brkStart, brkCur := k.spaces[a].brkCur,
      mmapTop := k.spaces[a].mmapTop)];
    CursorsSound(k.mem, k.free, sp, k.spaces, c);
  }

  // ---- copies through the identity map ----

  /** The address is mapped in a. */
  ghost predicate Mapped(sp: Spaces, a: int, addr: int) {
    Maps(sp, a, addr / PAGE_SIZE)
  }

  ghost function ByteAt(mem: Memory, sp: Spaces, a: int, addr: int): byte
    requires Mapped(sp, a, addr) && FrameAt(sp, a, addr / PAGE_SIZE) in mem
  {
    mem[FrameAt(sp, a, addr / PAGE_SIZE)][addr % PAGE_SIZE]
  }

  /** mem' is mem with the n bytes at va of a overwritten; every other byte of every address space is as before. */
  ghost predicate Stored(mem: Memory, mem': Memory, sp: Spaces, a: int, va: int, bytes: seq<byte>, n: nat) {
    && n <= |bytes| && mem'.Keys == mem.Keys
    && forall b, addr {:trigger Mapped(sp, b, addr)} | Mapped(sp, b, addr) && FrameAt(sp, b, addr / PAGE_SIZE) in mem ::
         ByteAt(mem', sp, b, addr) == if b == a && va <= addr < va + n then bytes[addr - va]
           else ByteAt(mem, sp, b, addr)
  }

  /** Writing a chunk inside one page's frame. */
  lemma StoreChunk(mem: Memory, free: set<int>, mem1: Memory, mem2: Memory, sp: Spaces, a: int, va: int,
      bytes: seq<byte>, n: nat, chunk: nat, page: Page)
    requires Sound(mem1, free, sp) && Stored(mem, mem1, sp, a, va, bytes, n) && n + chunk <= |bytes|
    requires Mapped(sp, a, va + n)
    requires (va + n) % PAGE_SIZE + chunk <= PAGE_SIZE
    requires FrameAt(sp, a, (va + n) / PAGE_SIZE) in mem1
    requires page == Splice(mem1[FrameAt(sp, a, (va + n) / PAGE_SIZE)], (va + n) % PAGE_SIZE, bytes[n..n + chunk])
    requires mem2 == mem1[FrameAt(sp, a, (va + n) / PAGE_SIZE) := page]
    ensures Stored(mem, mem2, sp, a, va, bytes, n + chunk)
  {
    forall b, addr {:trigger Mapped(sp, b, addr)} | Mapped(sp, b, addr) && FrameAt(sp, b, addr / PAGE_SIZE) in mem
      ensures ByteAt(mem2, sp, b, addr) == if b == a && va <= addr < va + n + chunk then bytes[addr - va]
        else ByteAt(mem, sp, b, addr)
    {
      ChunkAt(mem1, mem2, sp, a, va + n, bytes[n..n + chunk], page, b, addr);
    }
  }

  /** One byte after a chunk is written. */
  lemma ChunkAt(mem: Memory, mem': Memory, sp: Spaces, a: int, at: int, chunk: seq<byte>, page: Page, b: int, addr: int)
    requires Exclusive(sp) && Mapped(sp, a, at) && at % PAGE_SIZE + |chunk| <= PAGE_SIZE
    requires FrameAt(sp, a, at / PAGE_SIZE) in mem && mem' == mem[FrameAt(sp, a, at / PAGE_SIZE) := page]
    requires page == Splice(mem[FrameAt(sp, a, at / PAGE_SIZE)], at % PAGE_SIZE, chunk)
    requires Mapped(sp, b, addr) && FrameAt(sp, b, addr / PAGE_SIZE) in mem
    ensures ByteAt(mem', sp, b, addr) ==
      if b == a && at <= addr < at + |chunk| then chunk[addr - at] else ByteAt(mem, sp, b, addr)
  {
    var p := at / PAGE_SIZE;
    if FrameAt(sp, b, addr / PAGE_SIZE) == FrameAt(sp, a, p) {
      assert b == a && addr / PAGE_SIZE == p;
      InChunk(mem[FrameAt(sp, a, p)], page, at, addr, chunk);
    } else {
      OtherPage(at, |chunk|, addr, p);
    }
  }

  lemma InChunk(was: Page, page: Page, at: int, addr: int, chunk: seq<byte>)
    requires at / PAGE_SIZE == addr / PAGE_SIZE && at % PAGE_SIZE + |chunk| <= PAGE_SIZE
    requires page == Splice(was, at % PAGE_SIZE, chunk)
    ensures page[addr % PAGE_SIZE] == if at <= addr < at + |chunk| then chunk[addr - at] else was[addr % PAGE_SIZE]
  {
    assert addr - at == addr % PAGE_SIZE - at % PAGE_SIZE;
    if at <= addr < at + |chunk| {
      assert page[at % PAGE_SIZE..at % PAGE_SIZE + |chunk|][addr - at] == page[addr % PAGE_SIZE];
    }
  }

  lemma OtherPage(at: int, chunk: nat, addr: int, p: int)
    requires p == at / PAGE_SIZE && at % PAGE_SIZE + chunk <= PAGE_SIZE
    ensures at <= addr < at + chunk ==> addr / PAGE_SIZE == p && addr % PAGE_SIZE == at % PAGE_SIZE + addr - at
  {
  }

  // uvm_write_user_va: stops at the first unmapped page; n says how far it got
  method WriteUser(k: Kernel, a: int, va: int, bytes: seq<byte>) returns (n: nat)
    requires k.Valid() && a in k.spaces && 0 <= va
    modifies k`mem
    ensures k.Valid() && Stored(old(k.mem), k.mem, k.spaces, a, va, bytes, n)
    ensures n == |bytes| || !Mapped(k.spaces, a, va + n)
    ensures forall addr {:trigger Mapped(k.spaces, a, addr)} | va <= addr < va + n :: Mapped(k.spaces, a, addr)
  {
    var done := 0;
    while done < |bytes|
      invariant done <= |bytes| && k.Valid() && Stored(old(k.mem), k.mem, k.spaces, a, va, bytes, done)
      invariant forall addr {:trigger Mapped(k.spaces, a, addr)} | va <= addr < va + done :: Mapped(k.spaces, a, addr)
    {
      var p, off := (va + done) / PAGE_SIZE, (va + done) % PAGE_SIZE;
      if p !in k.spaces[a].pt { return done; }
      assert Mapped(k.spaces, a, va + done) && Maps(k.spaces, a, p);
      var chunk := PAGE_SIZE - off;
      if chunk > |bytes| - done { chunk := |bytes| - done; }
      var f := k.spaces[a].pt[p].frame;
      var page: Page := Splice(k.mem[f], off, bytes[done..done + chunk]);
      StoreChunk(old(k.mem), k.free, k.mem, k.mem[f := page], k.spaces, a, va, bytes, done, chunk, page);
      ChunkMapped(k.spaces, a, va, done, chunk);
      k.mem := k.mem[f := page];
      done := done + chunk;
    }
    n := done;
  }

  lemma ChunkMapped(sp: Spaces, a: int, va: int, done: nat, chunk: nat)
    requires Mapped(sp, a, va + done) && (va + done) % PAGE_SIZE + chunk <= PAGE_SIZE
    requires forall addr {:trigger Mapped(sp, a, addr)} | va <= addr < va + done :: Mapped(sp, a, addr)
    ensures forall addr {:trigger Mapped(sp, a, addr)} | va <= addr < va + done + chunk :: Mapped(sp, a, addr)
  {
    forall addr {:trigger Mapped(sp, a, addr)} | va <= addr < va + done + chunk ensures Mapped(sp, a, addr) {
      if addr >= va + done { OtherPage(va + done, chunk, addr, (va + done) / PAGE_SIZE); }
    }
  }

  /** out is what a holds from va on. */
  ghost predicate Holds(mem: Memory, sp: Spaces, a: int, va: int, out: seq<byte>) {
    forall addr {:trigger Mapped(sp, a, addr)} | va <= addr < va + |out| ::
      Mapped(sp, a, addr) && FrameAt(sp, a, addr / PAGE_SIZE) in mem && ByteAt(mem, sp, a, addr) == out[addr - va]
  }

  lemma HoldsMore(mem: Memory, sp: Spaces, a: int, va: int, out: seq<byte>, piece: seq<byte>)
    requires Holds(mem, sp, a, va, out) && Mapped(sp, a, va + |out|) && FrameAt(sp, a, (va + |out|) / PAGE_SIZE) in mem
    requires (va + |out|) % PAGE_SIZE + |piece| <= PAGE_SIZE
    requires var page, off := mem[FrameAt(sp, a, (va + |out|) / PAGE_SIZE)], (va + |out|) % PAGE_SIZE;
      piece == page[off..off + |piece|]
    ensures Holds(mem, sp, a, va, out + piece)
  {
    var at := va + |out|;
    forall addr {:trigger Mapped(sp, a, addr)} | va <= addr < va + |out + piece|
      ensures Mapped(sp, a, addr) && FrameAt(sp, a, addr / PAGE_SIZE) in mem
      ensures ByteAt(mem, sp, a, addr) == (out + piece)[addr - va]
    {
      if addr >= at {
        OtherPage(at, |piece|, addr, at / PAGE_SIZE);
        assert (out + piece)[addr - va] == piece[addr - at];
      } else {
        assert Mapped(sp, a, addr);
      }
    }
  }

  // uvm_read_user_va: the bytes up to the first unmapped page
  method ReadUser(k: Kernel, a: int, va: int, len: nat) returns (out: seq<byte>)
    requires k.Valid() && a in k.spaces && 0 <= va
    ensures |out| <= len && (|out| == len || !Mapped(k.spaces, a, va + |out|)) && Holds(k.mem, k.spaces, a, va, out)
  {
    out := [];
    while |out| < len
      invariant |out| <= len && Holds(k.mem, k.spaces, a, va, out)
    {
      var at := va + |out|;
      var p, off := at / PAGE_SIZE, at % PAGE_SIZE;
      if p !in k.spaces[a].pt { return; }
      assert Maps(k.spaces, a, p);
      var chunk := PAGE_SIZE - off;
      if chunk > len - |out| { chunk := len - |out|; }
      var piece := k.mem[k.spaces[a].pt[p].frame][off..off + chunk];
      HoldsMore(k.mem, k.spaces, a, va, out, piece);
      out := out + piece;
    }
  }

  /** What a read returns is determined by the mapped bytes, so unchanged bytes read the same. */
  lemma SameRead(mem: Memory, mem': Memory, sp: Spaces, b: int, va: int, len: nat, out: seq<byte>, out': seq<byte>)
    requires |out| <= len && (|out| == len || !Mapped(sp, b, va + |out|)) && Holds(mem, sp, b, va, out)
    requires |out'| <= len && (|out'| == len || !Mapped(sp, b, va + |out'|)) && Holds(mem', sp, b, va, out')
    requires forall addr {:trigger Mapped(sp, b, addr)} | Mapped(sp, b, addr) && FrameAt(sp, b, addr / PAGE_SIZE) in mem
      && FrameAt(sp, b, addr / PAGE_SIZE) in mem' :: ByteAt(mem', sp, b, addr) == ByteAt(mem, sp, b, addr)
    ensures out' == out
  {
    assert |out| < |out'| ==> Mapped(sp, b, va + |out|);
    assert |out'| < |out| ==> Mapped(sp, b, va + |out'|);
    forall i | 0 <= i < |out| ensures out'[i] == out[i] { assert Mapped(sp, b, va + i); }
  }

  /** Any writes to one process leave what any other process reads unchanged. */
  method WriteManyRead(k: Kernel, a: int, writes: seq<(int, seq<byte>)>, b: int, va: int, len: nat)
    returns (before: seq<byte>, after: seq<byte>)
    requires k.Valid() && a in k.spaces && b in k.spaces && a != b && 0 <= va
    requires forall i | 0 <= i < |writes| :: 0 <= writes[i].0
    modifies k`mem
    ensures k.Valid() && after == before
  {
    before := ReadUser(k, b, va, len);
    for i := 0 to |writes|
      invariant k.Valid() && k.mem.Keys == old(k.mem).Keys
      invariant forall addr {:trigger Mapped(k.spaces, b, addr)} | Mapped(k.spaces, b, addr)
        && FrameAt(k.spaces, b, addr / PAGE_SIZE) in k.mem ::
          ByteAt(k.mem, k.spaces, b, addr) == ByteAt(old(k.mem), k.spaces, b, addr)
    {
      var _ := WriteUser(k, a, writes[i].0, writes[i].1);
    }
    after := ReadUser(k, b, va, len);
    SameRead(old(k.mem), k.mem, k.spaces, b, va, len, before, after);
  }

  lemma FullRead(sp: Spaces, a: int, va: int, len: nat, n: nat)
    requires n <= len && (n == len || !Mapped(sp, a, va + n))
    requires forall addr {:trigger Mapped(sp, a, addr)} | va <= addr < va + len :: Mapped(sp, a, addr)
    ensures n == len
  {
  }

  /** A range the parent may use reads the same in the child right after the fork. */
  method ForkAndRead(k: Kernel, a: int, c: int, va: int, len: nat) returns (r: int, x: seq<byte>, y: seq<byte>)
    requires k.Valid() && a in k.spaces && c in k.spaces && a != c && Fresh(k.spaces[c])
    requires 0 <= va && Usable(k.spaces[a], PageDown(va), PageUp(va + len))
    modifies k
    ensures k.Valid() && (r == 0 ==> |x| == len && y == x)
  {
    ghost var sp := k.spaces;
    r := Fork(k, a, c);
    x, y := [], [];
    if r != 0 { return; }
    assert k.spaces[a] == sp[a];
    x := ReadUser(k, a, va, len);
    y := ReadUser(k, c, va, len);
    forall addr {:trigger Mapped(k.spaces, a, addr)} {:trigger Mapped(k.spaces, c, addr)} | va <= addr < va + len
      ensures Mapped(k.spaces, a, addr) && Mapped(k.spaces, c, addr)
      ensures ByteAt(k.mem, k.spaces, a, addr) == ByteAt(k.mem, k.spaces, c, addr)
    {
      var p := addr / PAGE_SIZE;
      assert Covered(sp[a].regions, p);
      assert PageCopied(k.mem, k.spaces, a, c, p);
    }
    FullRead(k.spaces, a, va, len, |x|);
    FullRead(k.spaces, c, va, len, |y|);
    forall i | 0 <= i < len ensures x[i] == y[i] { assert Mapped(k.spaces, a, va + i) && Mapped(k.spaces, c, va + i); }
  }
}
