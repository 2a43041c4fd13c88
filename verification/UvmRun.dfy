/** Runs of address-space calls: when tracked pages stay mapped, and where every
    frame is. */
module UvmRun {
  import opened Bytes
  import opened UvmModel
  import opened Uvm
  import opened UvmFork

  datatype Call =
    | NewSpace(a: int)
    | MapCall(a: int, start: int, end: int, prot: Prot)
    | UnmapCall(a: int, start: int, end: int)
    | ProtectCall(a: int, start: int, end: int, prot: Prot)
    | MmapCall(a: int, hint: int, len: int, prot: Prot, fixed: bool)
    | ForkCall(a: int, c: int)
    | ReleaseCall(a: int)
    | WriteCall(a: int, va: int, bytes: seq<byte>)

  /** An address space that maps and tracks nothing. */
  function EmptySpace(): (m: Mm)
    ensures Fresh(m) && |m.regions| == MAX_VM_REGIONS
  {
    Mm(map[], seq(MAX_VM_REGIONS, _ => Region(false, 0, 0, Prot(false, false, false))), 0, 0, 0)
  }

  predicate RangeOk(start: int, end: int) {
    0 <= start <= end && end + PAGE_SIZE <= ADDRESS_LIMIT
  }

  predicate MmapOk(m: Mm, hint: int, len: int) {
    0 <= hint && 0 <= len && 0 <= m.mmapTop && NoWrap(hint, len) && NoWrap(Cursor(m), len)
  }

  // ---- the step relation ----

  /** Forking a into c, which maps and tracks nothing in x. */
  ghost predicate ForkDone(x: State, y: State, a: int, c: int) {
    && a in x.sp && c in x.sp && OthersKept(x.mem, x.sp, y.mem, y.sp, c) && |x.sp[a].regions| == MAX_VM_REGIONS
    && (Copies(x.sp[a], MAX_VM_REGIONS) <= |x.free| ==>
          && Forked(x.mem, x.sp, y.mem, y.sp, a, c) && Drawn(x.free, y.free, y.sp[c].pt)
          && |LostFrames(x.free, y.free, y.sp[c].pt)| == Copies(x.sp[a], MAX_VM_REGIONS) - |y.sp[c].pt.Keys|
          && (LostFrames(x.free, y.free, y.sp[c].pt) == {} <==> Apart(x.sp[a], MAX_VM_REGIONS)))
    && (Copies(x.sp[a], MAX_VM_REGIONS) > |x.free| ==>
          && (forall p :: !Covered(y.sp[c].regions, p))
          && exists i, at :: Stranded(x.free, x.sp[a], y.free, y.sp[c].pt, i, at))
  }

  ghost predicate ReleaseDone(x: State, y: State, a: int) {
    && a in x.sp && OthersKept(x.mem, x.sp, y.mem, y.sp, a) && y.mem == x.mem && |x.sp[a].regions| == MAX_VM_REGIONS
    && Dropped(x.sp[a].pt, x.free, y.sp[a].pt, y.free, x.sp[a].regions, MAX_VM_REGIONS)
    && forall p :: !Covered(y.sp[a].regions, p)
  }

  ghost predicate WriteDone(x: State, y: State, a: int, va: int, bytes: seq<byte>) {
    && y.sp == x.sp && y.free == x.free
    && exists n :: Stored(x.mem, y.mem, x.sp, a, va, bytes, n) && (n == |bytes| || !Mapped(x.sp, a, va + n))
  }

  /** x with an address space that maps and tracks nothing. */
  function WithSpace(x: State, a: int): State {
    x.(sp := x.sp[a := EmptySpace()])
  }

  /** What one call does; calls on unknown address spaces and ranges that would wrap around do nothing. */
  ghost predicate Stepped(x: State, call: Call, y: State) {
    match call
    case NewSpace(a) => y == if a in x.sp then x else WithSpace(x, a)
    case MapCall(a, start, end, prot) =>
      if a in x.sp && RangeOk(start, end) && start < end then MapDone(x, y, a, PageDown(start), PageUp(end), prot)
      else y == x
    case UnmapCall(a, start, end) =>
      if a in x.sp && RangeOk(start, end) then UnmapDone(x, y, a, PageDown(start), PageUp(end)) else y == x
    case ProtectCall(a, start, end, prot) =>
      if a in x.sp && RangeOk(start, end) then ProtectDone(x, y, a, PageDown(start), PageUp(end), prot) else y == x
    case MmapCall(a, hint, len, prot, fixed) =>
      if a in x.sp && MmapOk(x.sp[a], hint, len) then MmapDone(x, y, a, hint, len, prot, fixed) else y == x
    case ForkCall(a, c) => if a in x.sp && c !in x.sp then ForkDone(WithSpace(x, c), y, a, c) else y == x
    case ReleaseCall(a) => if a in x.sp then ReleaseDone(x, y, a) else y == x
    case WriteCall(a, va, bytes) => if a in x.sp && 0 <= va then WriteDone(x, y, a, va, bytes) else y == x
  }

  ghost predicate Fine(x: State) {
    Sound(x.mem, x.free, x.sp)
  }

  // ---- tracked pages ----

  ghost predicate AllTracked(sp: Spaces) {
    forall b {:trigger Tracked(sp[b])} | b in sp :: Tracked(sp[b])
  }

  /** Where a call maps a range that may run out of frames, they suffice or run out before any tracked page of it. */
  ghost predicate Safe(x: State, call: Call) {
    match call
    case MapCall(a, start, end, _) =>
      a in x.sp && RangeOk(start, end) && start < end ==> Spares(x.sp[a], |x.free|, PageDown(start), PageUp(end))
    case MmapCall(a, hint, len, _, fixed) =>
      a in x.sp && MmapOk(x.sp[a], hint, len) && !fixed ==> BumpSafe(x.sp[a], |x.free|, PageUp(len))
    case _ => true
  }

  ghost predicate BumpSafe(m: Mm, frames: nat, pages: int) {
    var s := PageUp(Cursor(m));
    pages == 0 || (s + pages) * PAGE_SIZE > UVM_MMAP_LIMIT || Spares(m, frames, s, s + pages)
  }

  /** With one address space changed, all is tracked exactly when that one is. */
  lemma OneChanged(sp: Spaces, sp': Spaces, a: int)
    requires a in sp' && sp' == sp[a := sp'[a]] && AllTracked(sp)
    ensures AllTracked(sp') <==> Tracked(sp'[a])
  {
    if Tracked(sp'[a]) {
      forall b {:trigger Tracked(sp'[b])} | b in sp' ensures Tracked(sp'[b]) { if b != a { assert Tracked(sp[b]); } }
    }
  }

  lemma MapDoneTracked(x: State, y: State, a: int, s: int, e: int, prot: Prot)
    requires MapDone(x, y, a, s, e, prot) && Tracked(x.sp[a])
    ensures Tracked(y.sp[a]) <==> Spares(x.sp[a], |x.free|, s, e)
  {
    if |Missing(x.sp[a].pt, s, e)| <= |x.free| {
      AddedTracked(x, y, a, s, e, prot);
    } else {
      var at :| StopsAt(x.sp[a].pt, |x.free|, s, e, at) && RolledBack(x, y, a, s, at);
      RollbackTracked(x.sp[a], |x.free|, s, e, at);
    }
  }

  lemma AddedTracked(x: State, y: State, a: int, s: int, e: int, prot: Prot)
    requires a in x.sp && a in y.sp && RangeAdded(x, y, a, s, e, prot) && Tracked(x.sp[a])
    ensures Tracked(y.sp[a])
  {
    var sp1 := SetRegions(y.sp, a, x.sp[a].regions);
    forall q | q in x.sp[a].pt || s <= q < e ensures q in y.sp[a].pt { assert q in sp1[a].pt; }
    MapTracked(x.sp[a], y.sp[a], s, e);
  }

  lemma RemappedTracked(x: State, y: State, a: int, s: int, e: int, prot: Prot)
    requires Remapped(x, y, a, s, e, prot) && s <= e && a in x.sp && Tracked(x.sp[a])
    ensures a in y.sp && Tracked(y.sp[a])
  {
    var z :| UnmapDone(x, z, a, s, e) && if s == e then y == z else MapDone(z, y, a, s, e, prot);
    UnmapTracked(x.sp[a], z.sp[a], s, e);
    if s < e {
      forall p {:trigger Covered(z.sp[a].regions, p)} | s <= p < e ensures !Covered(z.sp[a].regions, p) {
        if Covered(z.sp[a].regions, p) { CutCovers(x.sp[a].regions, z.sp[a].regions, s, e, p); }
      }
      MapDoneTracked(z, y, a, s, e, prot);
    }
  }

  lemma BumpedTracked(z: State, y: State, a: int, s: int, e: int, prot: Prot)
    requires a in z.sp && Bumped(z, y, a, s, e, prot) && Tracked(z.sp[a])
    ensures a in y.sp && (Tracked(y.sp[a]) <==> Spares(z.sp[a], |z.free|, s, e))
  {
    if |Missing(z.sp[a].pt, s, e)| > |z.free| {
      MapDoneTracked(z, y, a, s, e, prot);
    } else {
      var z' :| MapDone(z, z', a, s, e, prot) && a in z'.sp && y == z'.(sp := SetTop(z'.sp, a, e * PAGE_SIZE));
      MapDoneTracked(z, z', a, s, e, prot);
      SameTracked(z'.sp[a], y.sp[a]);
    }
  }

  lemma SameTracked(m: Mm, m': Mm)
    requires m'.pt == m.pt && m'.regions == m.regions
    ensures Tracked(m') <==> Tracked(m)
    ensures forall frames, s, e {:trigger Spares(m', frames, s, e)} :: Spares(m', frames, s, e) <==>
      Spares(m, frames, s, e)
  {
  }

  lemma BumpTracked(x: State, y: State, a: int, pages: int, prot: Prot)
    requires BumpDone(x, y, a, pages, prot) && Tracked(x.sp[a])
    ensures a in y.sp && (Tracked(y.sp[a]) <==> BumpSafe(x.sp[a], |x.free|, pages))
  {
    var z, s := x.(sp := SetTop(x.sp, a, Cursor(x.sp[a]))), PageUp(Cursor(x.sp[a]));
    SameTracked(x.sp[a], z.sp[a]);
    if pages != 0 && (s + pages) * PAGE_SIZE <= UVM_MMAP_LIMIT {
      BumpedTracked(z, y, a, s, s + pages, prot);
      assert Spares(z.sp[a], |z.free|, s, s + pages) <==> Spares(x.sp[a], |x.free|, s, s + pages);
    }
  }

  lemma ProtectTracked(x: State, y: State, a: int, s: int, e: int, prot: Prot)
    requires ProtectDone(x, y, a, s, e, prot) && Tracked(x.sp[a])
    ensures Tracked(y.sp[a])
  {
    if Usable(x.sp[a], s, e) {
      forall p {:trigger Covered(y.sp[a].regions, p)} | Covered(y.sp[a].regions, p) ensures p in y.sp[a].pt {
        var i :| 0 <= i < |y.sp[a].regions| && In(y.sp[a].regions[i], p);
        assert In(x.sp[a].regions[i], p) && Covered(x.sp[a].regions, p);
      }
    }
  }

  lemma ForkTracked(x: State, y: State, a: int, c: int)
    requires ForkDone(x, y, a, c) && a != c && Tracked(x.sp[a])
    ensures Tracked(y.sp[c])
  {
    if Copies(x.sp[a], MAX_VM_REGIONS) <= |x.free| {
      forall p {:trigger Covered(y.sp[c].regions, p)} | Covered(y.sp[c].regions, p)
        ensures p in y.sp[c].pt
      { assert Covered(x.sp[a].regions, p); }
    }
  }

  /** The address space a call changes. */
  function Of(call: Call): int {
    if call.ForkCall? then call.c else call.a
  }

  lemma EmptyTracked()
    ensures Tracked(EmptySpace()) && forall p :: !Covered(EmptySpace().regions, p)
  {
  }

  lemma MmapTracked(x: State, y: State, call: Call)
    requires call.MmapCall? && AllTracked(x.sp) && Stepped(x, call, y) && call.a in x.sp
    requires MmapOk(x.sp[call.a], call.hint, call.len)
    ensures call.a in y.sp && (Tracked(y.sp[call.a]) <==> Safe(x, call))
  {
    var a := call.a;
    assert Tracked(x.sp[a]);
    if call.fixed {
      var s, e := PageDown(call.hint), PageDown(call.hint) + PageUp(call.len);
      if s * PAGE_SIZE >= UVM_ELF_BASE && e * PAGE_SIZE <= UVM_MMAP_LIMIT { RemappedTracked(x, y, a, s, e, call.prot); }
    } else {
      BumpTracked(x, y, a, PageUp(call.len), call.prot);
    }
  }

  /** No address space but a changed, and the frames are the same. */
  ghost predicate Local(x: State, y: State, a: int) {
    a in y.sp && y.sp == x.sp[a := y.sp[a]] && y.mem.Keys == x.mem.Keys
  }

  lemma LocalTrans(x: State, z: State, y: State, a: int)
    requires Local(x, z, a) && Local(z, y, a)
    ensures Local(x, y, a)
  {
  }

  lemma MapLocal(x: State, y: State, a: int, s: int, e: int, prot: Prot)
    requires MapDone(x, y, a, s, e, prot)
    ensures Local(x, y, a)
  {
  }

  lemma RemappedOthers(x: State, y: State, a: int, s: int, e: int, prot: Prot)
    requires Remapped(x, y, a, s, e, prot)
    ensures Local(x, y, a)
  {
    var z :| UnmapDone(x, z, a, s, e) && if s == e then y == z else MapDone(z, y, a, s, e, prot);
    assert Local(x, z, a);
    if s != e {
      MapLocal(z, y, a, s, e, prot);
      LocalTrans(x, z, y, a);
    }
  }

  lemma BumpedOthers(z: State, y: State, a: int, s: int, e: int, prot: Prot)
    requires a in z.sp && Bumped(z, y, a, s, e, prot)
    ensures Local(z, y, a)
  {
    if |Missing(z.sp[a].pt, s, e)| > |z.free| {
      MapLocal(z, y, a, s, e, prot);
    } else {
      var z' :| MapDone(z, z', a, s, e, prot) && a in z'.sp && y == z'.(sp := SetTop(z'.sp, a, e * PAGE_SIZE));
      MapLocal(z, z', a, s, e, prot);
      LocalTrans(z, z', y, a);
    }
  }

  lemma BumpOthers(x: State, y: State, a: int, pages: int, prot: Prot)
    requires BumpDone(x, y, a, pages, prot)
    ensures Local(x, y, a)
  {
    var z, s := x.(sp := SetTop(x.sp, a, Cursor(x.sp[a]))), PageUp(Cursor(x.sp[a]));
    assert Local(x, z, a);
    if pages != 0 && (s + pages) * PAGE_SIZE <= UVM_MMAP_LIMIT {
      BumpedOthers(z, y, a, s, s + pages, prot);
      LocalTrans(x, z, y, a);
    }
  }

  /** The call changes nothing, being on an unknown address space or range. */
  ghost predicate Idle(x: State, call: Call) {
    match call
    case NewSpace(a) => a in x.sp
    case MapCall(a, start, end, _) => !(a in x.sp && RangeOk(start, end) && start < end)
    case UnmapCall(a, start, end) => !(a in x.sp && RangeOk(start, end))
    case ProtectCall(a, start, end, _) => !(a in x.sp && RangeOk(start, end))
    case MmapCall(a, hint, len, _, _) => !(a in x.sp && MmapOk(x.sp[a], hint, len))
    case ForkCall(a, c) => !(a in x.sp && c !in x.sp)
    case ReleaseCall(a) => a !in x.sp
    case WriteCall(a, va, _) => !(a in x.sp && 0 <= va)
  }

  /** A call changes its own address space only. */
  lemma StepLocal(x: State, call: Call, y: State)
    requires Stepped(x, call, y) && !Idle(x, call) && !call.WriteCall?
    ensures Local(x, y, Of(call))
  {
    var a := Of(call);
    match call
    case NewSpace(_) => LocalTrans(x, y, y, a);
    case MapCall(_, start, end, prot) => MapLocal(x, y, a, PageDown(start), PageUp(end), prot);
    case UnmapCall(_, start, end) => UnmapLocal(x, y, a, PageDown(start), PageUp(end));
    case ProtectCall(_, start, end, prot) => ProtectLocal(x, y, a, PageDown(start), PageUp(end), prot);
    case MmapCall(_, hint, len, prot, fixed) => if fixed { FixedOthers(x, y, call); }
      else { BumpOthers(x, y, a, PageUp(len), prot); }
    case ForkCall(b, _) => LocalTrans(x, WithSpace(x, a), y, a);
    case ReleaseCall(_) =>
  }

  lemma UnmapLocal(x: State, y: State, a: int, s: int, e: int)
    requires UnmapDone(x, y, a, s, e)
    ensures Local(x, y, a)
  {
  }

  lemma ProtectLocal(x: State, y: State, a: int, s: int, e: int, prot: Prot)
    requires ProtectDone(x, y, a, s, e, prot)
    ensures Local(x, y, a)
  {
  }

  lemma FixedOthers(x: State, y: State, call: Call)
    requires call.MmapCall? && call.fixed && Stepped(x, call, y) && !Idle(x, call)
    ensures Local(x, y, call.a)
  {
    var s, e := PageDown(call.hint), PageDown(call.hint) + PageUp(call.len);
    if s * PAGE_SIZE < UVM_ELF_BASE || e * PAGE_SIZE > UVM_MMAP_LIMIT {
      assert y.sp == y.sp[call.a := y.sp[call.a]];
    } else {
      RemappedOthers(x, y, call.a, s, e, call.prot);
    }
  }

  lemma OneTracked(x: State, call: Call, y: State)
    requires AllTracked(x.sp) && Stepped(x, call, y) && !Idle(x, call) && !call.WriteCall? && Of(call) in y.sp
    ensures Tracked(y.sp[Of(call)]) <==> Safe(x, call)
  {
    var a := Of(call);
    assert !call.ForkCall? && !call.NewSpace? ==> Tracked(x.sp[a]);
    match call
    case NewSpace(_) => EmptyTracked();
    case MapCall(_, start, end, prot) => MapDoneTracked(x, y, a, PageDown(start), PageUp(end), prot);
    case UnmapCall(_, start, end) => UnmapTracked(x.sp[a], y.sp[a], PageDown(start), PageUp(end));
    case ProtectCall(_, start, end, prot) => ProtectTracked(x, y, a, PageDown(start), PageUp(end), prot);
    case MmapCall(_, hint, len, _, _) => MmapTracked(x, y, call);
    case ForkCall(b, _) =>
      assert Tracked(x.sp[b]);
      ForkTracked(WithSpace(x, a), y, b, a);
    case ReleaseCall(_) =>
  }

  /** A step keeps every tracked page mapped exactly when it is safe. */
  lemma TrackedStep(x: State, call: Call, y: State)
    requires AllTracked(x.sp) && Stepped(x, call, y)
    ensures AllTracked(y.sp) <==> Safe(x, call)
  {
    if !Idle(x, call) && !call.WriteCall? {
      StepLocal(x, call, y);
      OneTracked(x, call, y);
      OneChanged(x.sp, y.sp, Of(call));
    }
  }

  // ---- where every frame is ----

  /** The frames behind the pages of all address spaces. */
  ghost function MappedFrames(sp: Spaces): set<int> {
    set a, p | a in sp && p in sp[a].pt :: sp[a].pt[p].frame
  }

  /** Frames that are neither in the pool nor behind a page. */
  ghost function LostSet(x: State): set<int> {
    x.mem.Keys - x.free - MappedFrames(x.sp)
  }

  ghost function PtOf(sp: Spaces, a: int): map<int, Pte> {
    if a in sp then sp[a].pt else map[]
  }

  /** What a holds, and the rest. */
  lemma MappedSplit(sp: Spaces, a: int, f: int)
    ensures f in MappedFrames(sp) <==> f in PtFrames(PtOf(sp, a)) || exists b, q ::
      b != a && b in sp && q in sp[b].pt && sp[b].pt[q].frame == f
  {
    if f in MappedFrames(sp) {
      var b, q :| b in sp && q in sp[b].pt && sp[b].pt[q].frame == f;
      if b == a { assert q in PtOf(sp, a); }
    }
    if f in PtFrames(PtOf(sp, a)) {
      var q :| q in PtOf(sp, a) && PtOf(sp, a)[q].frame == f;
      assert a in sp && q in sp[a].pt;
    }
  }

  /** Pool and pages of a together have the same frames. */
  ghost predicate SamePool(x: State, y: State, a: int) {
    forall f {:trigger f in y.free} {:trigger f in x.free} ::
      f in y.free || f in PtFrames(PtOf(y.sp, a)) <==> f in x.free || f in PtFrames(PtOf(x.sp, a))
  }

  lemma SamePoolTrans(x: State, z: State, y: State, a: int)
    requires SamePool(x, z, a) && SamePool(z, y, a)
    ensures SamePool(x, y, a)
  {
    forall f {:trigger f in y.free} {:trigger f in x.free}
      ensures f in y.free || f in PtFrames(PtOf(y.sp, a)) <==> f in x.free || f in PtFrames(PtOf(x.sp, a))
    {
      assert f in z.free || f in PtFrames(PtOf(z.sp, a)) <==> f in x.free || f in PtFrames(PtOf(x.sp, a));
    }
  }

  /** Then nothing is lost and nothing found. */
  lemma NothingLost(x: State, y: State, a: int)
    requires Local(x, y, a) && SamePool(x, y, a)
    ensures LostSet(y) == LostSet(x)
  {
    forall f ensures f in LostSet(y) <==> f in LostSet(x) {
      MappedSplit(x.sp, a, f);
      MappedSplit(y.sp, a, f);
      OthersSame(x.sp, y.sp, a, f);
      assert f in y.free || f in PtFrames(PtOf(y.sp, a)) <==> f in x.free || f in PtFrames(PtOf(x.sp, a));
    }
  }

  lemma OthersSame(sp: Spaces, sp': Spaces, a: int, f: int)
    requires a in sp' && sp' == sp[a := sp'[a]]
    ensures (exists b, q :: b != a && b in sp && q in sp[b].pt && sp[b].pt[q].frame == f) <==> exists b, q ::
      b != a && b in sp' && q in sp'[b].pt && sp'[b].pt[q].frame == f
  {
    if b, q :| b != a && b in sp && q in sp[b].pt && sp[b].pt[q].frame == f {
      assert b in sp' && q in sp'[b].pt && sp'[b].pt[q].frame == f;
    }
    if b, q :| b != a && b in sp' && q in sp'[b].pt && sp'[b].pt[q].frame == f {
      assert b in sp && q in sp[b].pt && sp[b].pt[q].frame == f;
    }
  }

  /** Taking a range out of a page table. */
  lemma WithoutPool(x: State, y: State, a: int, s: int, e: int)
    requires a in x.sp && a in y.sp && y.sp[a].pt == Without(x.sp[a].pt, s, e)
    requires y.free == x.free + Frames(x.sp[a].pt, s, e)
    ensures SamePool(x, y, a)
  {
    var pt, pt' := x.sp[a].pt, y.sp[a].pt;
    forall f {:trigger f in y.free} {:trigger f in x.free}
      ensures f in y.free || f in PtFrames(pt') <==> f in x.free || f in PtFrames(pt)
    {
      if f in PtFrames(pt) {
        var q :| q in pt && pt[q].frame == f;
        if q in pt' { assert pt'[q].frame == f; } else { assert f in Frames(pt, s, e); }
      }
      if f in PtFrames(pt') {
        var q :| q in pt' && pt'[q].frame == f;
        assert q in pt && pt[q].frame == f;
      }
      if f in Frames(pt, s, e) {
        var q :| q in pt && s <= q < e && pt[q].frame == f;
        assert f in PtFrames(pt);
      }
    }
  }

  lemma AddedPool(x: State, y: State, a: int, s: int, e: int, prot: Prot)
    requires a in x.sp && a in y.sp && RangeAdded(x, y, a, s, e, prot)
    ensures SamePool(x, y, a)
  {
    var pt, pt' := x.sp[a].pt, y.sp[a].pt;
    assert SetRegions(y.sp, a, x.sp[a].regions)[a].pt == pt';
    forall f {:trigger f in y.free} {:trigger f in x.free}
      ensures f in y.free || f in PtFrames(pt') <==> f in x.free || f in PtFrames(pt)
    {
      if f in PtFrames(pt) {
        var q :| q in pt && pt[q].frame == f;
        assert q in pt' && pt'[q].frame == f;
      }
      if f in x.free && f !in y.free {
        assert Behind(pt, pt', s, e, f);
        var q :| q in pt' && s <= q < e && q !in pt && pt'[q].frame == f;
        assert f in PtFrames(pt');
      }
      if f in PtFrames(pt') {
        var q :| q in pt' && pt'[q].frame == f;
        if q in pt { assert pt[q].frame == f; } else { assert NewPage(x.free, y.free, y.mem, pt'[q], prot); }
      }
    }
  }

  lemma MapPool(x: State, y: State, a: int, s: int, e: int, prot: Prot)
    requires MapDone(x, y, a, s, e, prot)
    ensures SamePool(x, y, a)
  {
    if |Missing(x.sp[a].pt, s, e)| <= |x.free| {
      AddedPool(x, y, a, s, e, prot);
    } else {
      var at :| StopsAt(x.sp[a].pt, |x.free|, s, e, at) && RolledBack(x, y, a, s, at);
      WithoutPool(x, y, a, s, at);
    }
  }

  lemma RemappedPool(x: State, y: State, a: int, s: int, e: int, prot: Prot)
    requires Remapped(x, y, a, s, e, prot)
    ensures SamePool(x, y, a)
  {
    var z :| UnmapDone(x, z, a, s, e) && if s == e then y == z else MapDone(z, y, a, s, e, prot);
    WithoutPool(x, z, a, s, e);
    if s != e {
      MapPool(z, y, a, s, e, prot);
      SamePoolTrans(x, z, y, a);
    }
  }

  lemma SamePt(x: State, y: State, a: int)
    requires PtOf(y.sp, a) == PtOf(x.sp, a) && y.free == x.free
    ensures SamePool(x, y, a)
  {
  }

  lemma BumpedPool(z: State, y: State, a: int, s: int, e: int, prot: Prot)
    requires a in z.sp && Bumped(z, y, a, s, e, prot)
    ensures SamePool(z, y, a)
  {
    if |Missing(z.sp[a].pt, s, e)| > |z.free| {
      MapPool(z, y, a, s, e, prot);
    } else {
      var z' :| MapDone(z, z', a, s, e, prot) && a in z'.sp && y == z'.(sp := SetTop(z'.sp, a, e * PAGE_SIZE));
      MapPool(z, z', a, s, e, prot);
      SamePt(z', y, a);
      SamePoolTrans(z, z', y, a);
    }
  }

  lemma BumpPool(x: State, y: State, a: int, pages: int, prot: Prot)
    requires BumpDone(x, y, a, pages, prot)
    ensures SamePool(x, y, a)
  {
    var z, s := x.(sp := SetTop(x.sp, a, Cursor(x.sp[a]))), PageUp(Cursor(x.sp[a]));
    SamePt(x, z, a);
    if pages != 0 && (s + pages) * PAGE_SIZE <= UVM_MMAP_LIMIT {
      BumpedPool(z, y, a, s, s + pages, prot);
      SamePoolTrans(x, z, y, a);
    }
  }

  lemma ProtectPool(x: State, y: State, a: int, s: int, e: int, prot: Prot)
    requires ProtectDone(x, y, a, s, e, prot)
    ensures SamePool(x, y, a)
  {
    if Usable(x.sp[a], s, e) {
      var pt, pt' := x.sp[a].pt, y.sp[a].pt;
      forall f ensures f in PtFrames(pt') <==> f in PtFrames(pt) {
        if f in PtFrames(pt) {
          var q :| q in pt && pt[q].frame == f;
          assert q in pt' && pt'[q].frame == f;
        }
        if f in PtFrames(pt') {
          var q :| q in pt' && pt'[q].frame == f;
          assert q in pt && pt[q].frame == f;
        }
      }
    }
  }

  lemma ReleasePool(x: State, y: State, a: int)
    requires ReleaseDone(x, y, a)
    ensures SamePool(x, y, a)
  {
    var pt, pt' := x.sp[a].pt, y.sp[a].pt;
    forall f {:trigger f in y.free} {:trigger f in x.free}
      ensures f in y.free || f in PtFrames(pt') <==> f in x.free || f in PtFrames(pt)
    {
      if f in PtFrames(pt) {
        var q :| q in pt && pt[q].frame == f;
        if q in pt' { assert pt'[q].frame == f; }
      }
      if f in PtFrames(pt') {
        var q :| q in pt' && pt'[q].frame == f;
        assert q in pt && pt[q].frame == f;
      }
      if f in y.free && f !in x.free {
        var q :| q in pt && q !in pt' && pt[q].frame == f;
      }
    }
  }

  /** Where copying stops for want of frames: at page at of region i. */
  ghost predicate CopyStop(m: Mm, frames: nat, i: int, at: int) {
    && 0 <= i < |m.regions| && m.regions[i].used && m.regions[i].start <= at < m.regions[i].end && at in m.pt
    && frames == Copies(m, i) + Count(m.pt, m.regions[i].start, at)
  }

  /** A fork with so many free frames makes k more copies than it copies pages. */
  ghost predicate Doubles(m: Mm, frames: nat, k: int)
    requires |m.regions| == MAX_VM_REGIONS
  {
    if Copies(m, MAX_VM_REGIONS) <= frames then k == Copies(m, MAX_VM_REGIONS) - |InFirst(m, MAX_VM_REGIONS)|
    else exists i, at ::
      CopyStop(m, frames, i, at) && k == frames - |InFirst(m, i) + Present(m.pt, m.regions[i].start, at)|
  }

  /** It makes none when no page lies in two regions. */
  lemma ApartNoDoubles(m: Mm, frames: nat, k: int)
    requires |m.regions| == MAX_VM_REGIONS && Ordered(m.regions) && Apart(m, MAX_VM_REGIONS) && Doubles(m, frames, k)
    ensures k == 0
  {
    if Copies(m, MAX_VM_REGIONS) <= frames {
      CopiesExact(m, MAX_VM_REGIONS);
    } else {
      var i, at :| CopyStop(m, frames, i, at) && k == frames - |InFirst(m, i) + Present(m.pt, m.regions[i].start, at)|;
      var first, part := InFirst(m, i), Present(m.pt, m.regions[i].start, at);
      CopiesExact(m, i);
      CountPresent(m.pt, m.regions[i].start, at);
      forall q | q in first ensures q !in part {
        var j :| 0 <= j < i && In(m.regions[j], q);
        assert In(m.regions[j], q) && !In(m.regions[i], q);
      }
      Union(first, part);
    }
  }

  /** Only a fork loses frames: those of its second copies. */
  ghost predicate LostStep(x: State, call: Call, y: State) {
    if call.ForkCall? && !Idle(x, call)
    then LostSet(x) <= LostSet(y) && |x.sp[call.a].regions| == MAX_VM_REGIONS
      && Doubles(x.sp[call.a], |x.free|, |LostSet(y)| - |LostSet(x)|)
    else LostSet(y) == LostSet(x)
  }

  lemma ForkDrawn(z: State, y: State, a: int, c: int)
    requires ForkDone(z, y, a, c)
    ensures Drawn(z.free, y.free, y.sp[c].pt) && Doubles(z.sp[a], |z.free|, |LostFrames(z.free, y.free, y.sp[c].pt)|)
  {
    if Copies(z.sp[a], MAX_VM_REGIONS) <= |z.free| {
      CoveredAll(z.sp[a], y.sp[c].pt);
    } else {
      var i, at :| Stranded(z.free, z.sp[a], y.free, y.sp[c].pt, i, at);
      assert CopyStop(z.sp[a], |z.free|, i, at);
    }
  }

  lemma ForkLost(x: State, y: State, c: int, m: Mm)
    requires Fine(x) && c !in x.sp && Local(x, y, c) && Drawn(x.free, y.free, y.sp[c].pt)
    requires |m.regions| == MAX_VM_REGIONS
    requires Doubles(m, |x.free|, |LostFrames(x.free, y.free, y.sp[c].pt)|)
    ensures LostSet(x) <= LostSet(y) && Doubles(m, |x.free|, |LostSet(y)| - |LostSet(x)|)
  {
    ForkSplit(x, y, c);
    Grows(LostSet(x), LostFrames(x.free, y.free, y.sp[c].pt), LostSet(y));
  }

  lemma Grows(s: set<int>, t: set<int>, u: set<int>)
    requires u == s + t && s !! t
    ensures s <= u && |t| == |u| - |s|
  {
  }

  lemma CoveredAll(m: Mm, pt: map<int, Pte>)
    requires forall q :: q in pt <==> q in m.pt && Covered(m.regions, q)
    ensures pt.Keys == InFirst(m, |m.regions|)
  {
    forall q
      ensures q in pt <==> q in InFirst(m, |m.regions|)
    { assert CoveredBy(m.regions, |m.regions|, q) <==> Covered(m.regions, q); }
  }

  /** What a fork loses comes from the pool. */
  lemma ForkSplit(x: State, y: State, c: int)
    requires Fine(x) && c !in x.sp && Local(x, y, c) && Drawn(x.free, y.free, y.sp[c].pt)
    ensures LostSet(y) == LostSet(x) + LostFrames(x.free, y.free, y.sp[c].pt)
    ensures LostSet(x) !! LostFrames(x.free, y.free, y.sp[c].pt)
  {
    var l := LostFrames(x.free, y.free, y.sp[c].pt);
    forall f ensures f in LostSet(y) <==> f in LostSet(x) || f in l {
      MappedSplit(x.sp, c, f);
      MappedSplit(y.sp, c, f);
      OthersSame(x.sp, y.sp, c, f);
      assert PtFrames(PtOf(x.sp, c)) == {};
      assert f in x.free ==> f in x.mem && f !in MappedFrames(x.sp) by {
        if f in MappedFrames(x.sp) {
          var b, q :| b in x.sp && q in x.sp[b].pt && x.sp[b].pt[q].frame == f;
          assert Maps(x.sp, b, q);
        }
      }
      if f in PtFrames(y.sp[c].pt) {
        var q :| q in y.sp[c].pt && y.sp[c].pt[q].frame == f;
        assert FromPool(x.free, y.sp[c].pt, q);
      }
    }
  }

  lemma StepPool(x: State, call: Call, y: State)
    requires Stepped(x, call, y) && !Idle(x, call) && !call.WriteCall? && !call.ForkCall?
    ensures SamePool(x, y, call.a)
  {
    var a := call.a;
    match call
    case NewSpace(_) => SamePt(x, y, a);
    case MapCall(_, start, end, prot) => MapPool(x, y, a, PageDown(start), PageUp(end), prot);
    case UnmapCall(_, start, end) => WithoutPool(x, y, a, PageDown(start), PageUp(end));
    case ProtectCall(_, start, end, prot) => ProtectPool(x, y, a, PageDown(start), PageUp(end), prot);
    case MmapCall(_, hint, len, prot, fixed) => if fixed { FixedPool(x, y, call); }
      else { BumpPool(x, y, a, PageUp(len), prot); }
    case ReleaseCall(_) => ReleasePool(x, y, a);
  }

  lemma FixedPool(x: State, y: State, call: Call)
    requires call.MmapCall? && call.fixed && Stepped(x, call, y) && !Idle(x, call)
    ensures SamePool(x, y, call.a)
  {
    var s, e := PageDown(call.hint), PageDown(call.hint) + PageUp(call.len);
    if s * PAGE_SIZE < UVM_ELF_BASE || e * PAGE_SIZE > UVM_MMAP_LIMIT { SamePt(x, y, call.a); }
      else { RemappedPool(x, y, call.a, s, e, call.prot); }
  }

  lemma LostStepHolds(x: State, call: Call, y: State)
    requires Fine(x) && Stepped(x, call, y)
    ensures LostStep(x, call, y)
  {
    if Idle(x, call) {
    } else if call.ForkCall? {
      StepLocal(x, call, y);
      ForkDrawn(WithSpace(x, call.c), y, call.a, call.c);
      ForkLost(x, y, call.c, x.sp[call.a]);
    } else if call.WriteCall? {
      var n :| Stored(x.mem, y.mem, x.sp, call.a, call.va, call.bytes, n)
        && (n == |call.bytes| || !Mapped(x.sp, call.a, call.va + n));
    } else {
      StepLocal(x, call, y);
      StepPool(x, call, y);
      NothingLost(x, y, call.a);
    }
  }

  // ---- runs ----

  /** A trace of the first n calls, sound throughout. */
  ghost predicate IsRun(trace: seq<State>, calls: seq<Call>, n: nat) {
    && n <= |calls| && |trace| == n + 1 && (forall i | 0 <= i <= n :: Fine(trace[i]))
    && forall i {:trigger calls[i]} | 0 <= i < n :: Stepped(trace[i], calls[i], trace[i + 1])
  }

  lemma RunStep(trace: seq<State>, trace': seq<State>, calls: seq<Call>, n: nat)
    requires IsRun(trace, calls, n) && n < |calls| && |trace'| == n + 2 && trace'[..n + 1] == trace
    requires Fine(trace'[n + 1]) && Stepped(trace[n], calls[n], trace'[n + 1])
    ensures IsRun(trace', calls, n + 1)
  {
    assert forall i | 0 <= i <= n :: trace'[i] == trace[i];
  }

  ghost predicate TrackedTo(trace: seq<State>, n: nat) {
    forall i | 0 <= i <= n && i < |trace| :: AllTracked(trace[i].sp)
  }

  ghost predicate SafeTo(trace: seq<State>, calls: seq<Call>, n: nat)
    requires n <= |calls| && n <= |trace|
  {
    forall i | 0 <= i < n :: Safe(trace[i], calls[i])
  }

  ghost predicate KeepsTracked(x: State, call: Call, y: State) {
    AllTracked(x.sp) ==> (AllTracked(y.sp) <==> Safe(x, call))
  }

  lemma {:induction false} TrackedAlong(trace: seq<State>, calls: seq<Call>, n: nat)
    requires |trace| == |calls| + 1 && n <= |calls|
    requires forall i {:trigger calls[i]} | 0 <= i < |calls| :: KeepsTracked(trace[i], calls[i], trace[i + 1])
    ensures TrackedTo(trace, n) <==> AllTracked(trace[0].sp) && SafeTo(trace, calls, n)
  {
    if n > 0 {
      TrackedAlong(trace, calls, n - 1);
      assert KeepsTracked(trace[n - 1], calls[n - 1], trace[n - 1 + 1]);
    }
  }

  /** Tracked pages are mapped all along a run exactly when they are at the start and every step is safe. */
  lemma RunTracked(trace: seq<State>, calls: seq<Call>)
    requires IsRun(trace, calls, |calls|)
    ensures TrackedTo(trace, |calls|) <==> AllTracked(trace[0].sp) && SafeTo(trace, calls, |calls|)
  {
    forall i {:trigger calls[i]} | 0 <= i < |calls| ensures KeepsTracked(trace[i], calls[i], trace[i + 1]) {
      if AllTracked(trace[i].sp) { TrackedStep(trace[i], calls[i], trace[i + 1]); }
    }
    TrackedAlong(trace, calls, |calls|);
  }

  // ---- what a release leaves ----

  /** The pages mapped that no region tracks. */
  ghost function Untracked(m: Mm): map<int, Pte> {
    map p | p in m.pt && !Covered(m.regions, p) :: m.pt[p]
  }

  /** Address space a is there and maps exactly pt, none of whose frames is in the pool. */
  ghost predicate StillMaps(x: State, a: int, pt: map<int, Pte>) {
    a in x.sp && x.sp[a].pt == pt && PtFrames(pt) !! x.free
  }

  lemma HeldFrames(x: State, a: int)
    requires Fine(x) && a in x.sp
    ensures StillMaps(x, a, x.sp[a].pt)
  {
    forall f | f in PtFrames(x.sp[a].pt) ensures f !in x.free {
      var q :| q in x.sp[a].pt && x.sp[a].pt[q].frame == f;
      assert Maps(x.sp, a, q);
    }
  }

  lemma ReleaseStep(x: State, y: State, a: int)
    requires Fine(y) && ReleaseDone(x, y, a)
    ensures StillMaps(y, a, Untracked(x.sp[a]))
  {
    var rs, pt, left := x.sp[a].regions, y.sp[a].pt, Untracked(x.sp[a]);
    HeldFrames(y, a);
    forall p ensures p in pt <==> p in left {
      assert CoveredBy(rs, MAX_VM_REGIONS, p) <==> Covered(rs, p);
    }
    assert pt == left;
  }

  /** A call on another address space. */
  lemma HeldStep(x: State, call: Call, y: State, a: int, pt: map<int, Pte>)
    requires Fine(y) && Stepped(x, call, y) && Of(call) != a && StillMaps(x, a, pt)
    ensures StillMaps(y, a, pt)
  {
    if !Idle(x, call) && !call.WriteCall? { StepLocal(x, call, y); }
    HeldFrames(y, a);
  }

  /** A release frees the tracked pages and no other: until a later call on that address space it goes on mapping
      exactly the untracked ones, and their frames stay out of the pool. */
  lemma {:induction false} ReleaseLeaves(trace: seq<State>, calls: seq<Call>, i: nat, n: nat)
    requires IsRun(trace, calls, |calls|) && i < n <= |calls| && calls[i].ReleaseCall? && calls[i].a in trace[i].sp
    requires forall j | i < j < n :: Of(calls[j]) != calls[i].a
    ensures StillMaps(trace[n], calls[i].a, Untracked(trace[i].sp[calls[i].a]))
  {
    var a := calls[i].a;
    assert calls[n - 1] == calls[n - 1] && Fine(trace[n]);
    assert Stepped(trace[n - 1], calls[n - 1], trace[n - 1 + 1]);
    if n == i + 1 {
      ReleaseStep(trace[i], trace[n], a);
    } else {
      ReleaseLeaves(trace, calls, i, n - 1);
      HeldStep(trace[n - 1], calls[n - 1], trace[n], a, Untracked(trace[i].sp[a]));
    }
  }

  /** Every run is a run of the step relation in which each frame backs at most one page and no mapped frame is in the
      pool. Tracked pages stay mapped exactly when every step is safe, and only forks lose frames, those of pages they
      copy twice. */
  method Run(k: Kernel, calls: seq<Call>) returns (ghost trace: seq<State>)
    requires k.Valid()
    modifies k
    ensures k.Valid() && IsRun(trace, calls, |calls|) && trace[0] == old(k.Now()) && trace[|calls|] == k.Now()
    ensures TrackedTo(trace, |calls|) <==> AllTracked(old(k.spaces)) && SafeTo(trace, calls, |calls|)
    ensures forall i {:trigger calls[i]} | 0 <= i < |calls| :: LostStep(trace[i], calls[i], trace[i + 1])
  {
    trace := [k.Now()];
    for i := 0 to |calls|
      invariant k.Valid() && IsRun(trace, calls, i) && trace[0] == old(k.Now()) && trace[i] == k.Now()
    {
      ghost var before := trace;
      Step(k, calls[i]);
      trace := trace + [k.Now()];
      RunStep(before, trace, calls, i);
    }
    RunTracked(trace, calls);
    forall i {:trigger calls[i]} | 0 <= i < |calls|
      ensures LostStep(trace[i], calls[i], trace[i + 1])
    { LostStepHolds(trace[i], calls[i], trace[i + 1]); }
  }

  method AddSpace(k: Kernel, a: int)
    requires k.Valid() && a !in k.spaces
    modifies k`spaces
    ensures k.Valid() && k.Now() == WithSpace(old(k.Now()), a)
  {
    ghost var sp := k.spaces;
    k.spaces := k.spaces[a := EmptySpace()];
    forall b, q {:trigger Maps(k.spaces, b, q)} | Maps(k.spaces, b, q)
      ensures Maps(sp, b, q) && FrameAt(k.spaces, b, q) == FrameAt(sp, b, q)
    { }
  }

  method Step(k: Kernel, call: Call)
    requires k.Valid()
    modifies k
    ensures k.Valid() && Stepped(old(k.Now()), call, k.Now())
  {
    match call
    case NewSpace(a) => if a !in k.spaces { AddSpace(k, a); }
    case MapCall(a, start, end, prot) =>
      if a in k.spaces && RangeOk(start, end) { var _ := k.MapRange(a, start, end, prot); }
    case UnmapCall(a, start, end) => if a in k.spaces && RangeOk(start, end) { k.UnmapRange(a, start, end); }
    case ProtectCall(a, start, end, prot) =>
      if a in k.spaces && RangeOk(start, end) { var _ := k.ChangeProt(a, start, end, prot); }
    case MmapCall(a, hint, len, prot, fixed) =>
      if a in k.spaces && MmapOk(k.spaces[a], hint, len) { var _ := k.MmapAnon(a, hint, len, prot, fixed); }
    case ForkCall(a, c) => if a in k.spaces && c !in k.spaces { StepFork(k, a, c); }
    case ReleaseCall(a) => if a in k.spaces { Release(k, a); }
    case WriteCall(a, va, bytes) => if a in k.spaces && 0 <= va { var _ := WriteUser(k, a, va, bytes); }
  }

  method StepFork(k: Kernel, a: int, c: int)
    requires k.Valid() && a in k.spaces && c !in k.spaces
    modifies k
    ensures k.Valid() && ForkDone(WithSpace(old(k.Now()), c), k.Now(), a, c)
  {
    AddSpace(k, c);
    var _ := Fork(k, a, c);
  }

  /** A process that has mapped one page with the only frame. */
  method OnePage(p: int, rw: Prot) returns (k: Kernel)
    requires 0 <= p && (p + 2) * PAGE_SIZE <= ADDRESS_LIMIT
    ensures fresh(k) && k.Valid() && 1 in k.spaces && k.free == {} && Covered(k.spaces[1].regions, p)
    ensures k.spaces[1].pt.Keys == {p}
  {
    k := new Kernel(map[1 := ZeroPage()]);
    AddSpace(k, 1);
    ghost var x := k.Now();
    OneFrame(x.sp[1].pt, p, k.free);
    PageSum(p, PAGE_SIZE);
    var r := k.MapRange(1, p * PAGE_SIZE, (p + 1) * PAGE_SIZE, rw);
    assert !x.sp[1].regions[0].used;
    forall q
      ensures q in k.spaces[1].pt <==> q == p
    { assert q in SetRegions(k.spaces, 1, x.sp[1].regions)[1].pt <==> q in x.sp[1].pt || p <= q < p + 1; }
  }

  /** A rollback does lose a tracked page: with one frame, mapping a page and then that page and the next takes the
      first one away again, while the region table still tracks it. */
  method RollbackLoses() returns (k: Kernel)
    ensures k.Valid() && 1 in k.spaces && !Tracked(k.spaces[1])
  {
    var p, rw := PageDown(UVM_ELF_BASE), Prot(true, true, false);
    k := OnePage(p, rw);
    ghost var x := k.Now();
    MissingStep(x.sp[1].pt, p, p + 1);
    MissingStep(x.sp[1].pt, p, p);
    NoneMissing(x.sp[1].pt, p);
    PageSum(p, 2 * PAGE_SIZE);
    var r := k.MapRange(1, p * PAGE_SIZE, p * PAGE_SIZE + 2 * PAGE_SIZE, rw);
    ghost var at :| StopsAt(x.sp[1].pt, |x.free|, p, p + 2, at) && RolledBack(x, k.Now(), 1, p, at);
    assert at == p + 1 && p !in k.spaces[1].pt && Covered(k.spaces[1].regions, p);
  }

  lemma OneFrame(pt: map<int, Pte>, p: int, free: set<int>)
    requires pt == map[] && free == map[1 := ZeroPage()].Keys
    ensures |Missing(pt, p, p + 1)| == 1 && |free| == 1
  {
    NoneMissing(pt, p);
    MissingStep(pt, p, p);
    assert free == {1};
  }
}
