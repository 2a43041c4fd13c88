/** Loading an ELF64 image into an address space. */
module Elf {
  import opened Bytes
  import opened UvmModel
  import opened Uvm
  import opened UvmFork

  const EHDR_SIZE := 64
  const PHDR_SIZE := 56
  const PT_LOAD := 1
  const PT_INTERP := 3
  const ET_EXEC := 2
  const ET_DYN := 3
  const EM_X86_64 := 62
  const INTERP_MAX := 64        // sizeof(out->interp)
  const USER_LIMIT := 0x8000_0000_0000   // canonical user addresses

  datatype Error = Ok | Format | Layout | Map | Phdrs

  // ---- the image ----

  /** elf_range_ok: [off, off + len) lies inside the image. */
  predicate RangeOk(off: int, len: int, size: int) {
    off <= size && len <= size - off
  }

  function Type(d: seq<byte>): int requires |d| >= EHDR_SIZE { Le16(d, 16) }
  function Entry(d: seq<byte>): int requires |d| >= EHDR_SIZE { Le64(d, 24) }
  function PhOff(d: seq<byte>): int requires |d| >= EHDR_SIZE { Le64(d, 32) }
  function PhNum(d: seq<byte>): int requires |d| >= EHDR_SIZE { Le16(d, 56) }

  /** The entry point of an image loaded with a bias. */
  function EntryFor(d: seq<byte>, bias: int): int
    requires |d| >= EHDR_SIZE
  {
    (bias + Entry(d)) % ADDRESS_LIMIT
  }

  /** The checks on the ELF header, but for where its program header table ends. */
  predicate HeaderShape(d: seq<byte>) {
    && |d| >= EHDR_SIZE && d[0] == 0x7F && d[1] == 0x45 && d[2] == 0x4C && d[3] == 0x46 && d[4] == 2 && d[5] == 1
    && Le16(d, 18) == EM_X86_64 && Le16(d, 54) == PHDR_SIZE && PhNum(d) != 0
    && (Type(d) == ET_EXEC || Type(d) == ET_DYN)
  }

  function TableEnd(d: seq<byte>): int
    requires |d| >= EHDR_SIZE
  {
    PhOff(d) + PhNum(d) * PHDR_SIZE
  }

  /** The header as the code checks it: the end of the table is computed in 64 bits. */
  predicate Accepted(d: seq<byte>) {
    HeaderShape(d) && TableEnd(d) % ADDRESS_LIMIT <= |d|
  }

  /** The header is right and its table inside the image. */
  predicate HeaderOk(d: seq<byte>) {
    HeaderShape(d) && TableEnd(d) <= |d|
  }

  /** The check keeps the table inside the image if and only if the table's end does not wrap. */
  lemma TableInside(d: seq<byte>)
    requires Accepted(d) && |d| < ADDRESS_LIMIT
    ensures HeaderOk(d) <==> TableEnd(d) < ADDRESS_LIMIT
  {
    if TableEnd(d) < ADDRESS_LIMIT { assert TableEnd(d) % ADDRESS_LIMIT == TableEnd(d); }
  }

  /** An x86-64 header with one program header at 2^64 - 56. */
  function HeaderByte(i: nat): byte {
    if i == 0 then 0x7F else if i == 1 then 0x45 else if i == 2 then 0x4C else if i == 3 then 0x46
    else if i == 4 then 2 else if i == 5 then 1 else if i == 16 then 3 else if i == 18 then 0x3E
    else if i == 32 then 0xC8 else if 33 <= i < 40 then 0xFF else if i == 54 then 56 else if i == 56 then 1 else 0
  }

  /** Its table ends at 2^64, and it passes the check. */
  method WrappingHeader() returns (d: seq<byte>)
    ensures |d| == EHDR_SIZE && Accepted(d) && TableEnd(d) == ADDRESS_LIMIT && !HeaderOk(d)
  {
    d := seq(EHDR_SIZE, i requires 0 <= i < EHDR_SIZE => HeaderByte(i));
  }

  datatype Phdr = Phdr(kind: int, read: bool, write: bool, exec: bool, offset: int, vaddr: int, filesz: int, memsz: int)

  function PhdrAt(d: seq<byte>, i: nat): (p: Phdr)
    requires HeaderOk(d) && i < PhNum(d)
    ensures 0 <= p.offset && 0 <= p.vaddr && 0 <= p.filesz && 0 <= p.memsz
  {
    var at := PhOff(d) + i * PHDR_SIZE;
    var flags := Le32(d, at + 4);
    Phdr(Le32(d, at), flags / 4 % 2 == 1, flags / 2 % 2 == 1, flags % 2 == 1, Le64(d, at + 8),
      Le64(d, at + 16), Le64(d, at + 32), Le64(d, at + 40))
  }

  function Headers(d: seq<byte>): (hs: seq<Phdr>)
    requires HeaderOk(d)
    ensures |hs| == PhNum(d) && forall i | 0 <= i < |hs| :: hs[i] == PhdrAt(d, i)
  {
    seq(PhNum(d), i requires 0 <= i < PhNum(d) => PhdrAt(d, i))
  }

  /** A segment that occupies memory. */
  predicate Loads(p: Phdr) {
    p.kind == PT_LOAD && p.memsz > 0
  }

  function ProtOf(p: Phdr): Prot {
    if !p.read && !p.write && !p.exec then Prot(true, false, false) else Prot(p.read, p.write, p.exec)
  }

  // ---- what a loaded image looks like ----

  /** The address is a file byte of segment p, loaded at a given bias. */
  predicate InFile(p: Phdr, bias: int, addr: int) {
    Loads(p) && bias + p.vaddr <= addr < bias + p.vaddr + p.filesz
  }

  predicate InSegment(p: Phdr, bias: int, addr: int) {
    Loads(p) && bias + p.vaddr <= addr < bias + p.vaddr + p.memsz
  }

  /** Segments do not overlap in memory and are no longer in the file than in memory. */
  ghost predicate Separate(hs: seq<Phdr>) {
    && Trimmed(hs)
    && forall i, j | 0 <= i < j < |hs| && Loads(hs[i]) && Loads(hs[j]) ::
      hs[i].vaddr + hs[i].memsz <= hs[j].vaddr || hs[j].vaddr + hs[j].memsz <= hs[i].vaddr
  }

  /** Byte addr of a is readable and equal to x. */
  ghost predicate Is(mem: Memory, sp: Spaces, a: int, addr: int, x: byte) {
    Mapped(sp, a, addr) && FrameAt(sp, a, addr / PAGE_SIZE) in mem && ByteAt(mem, sp, a, addr) == x
  }

  /** The first n segments are in memory: their file bytes where they belong, and zero everywhere else on the pages
      that were not mapped in pt0. */
  ghost predicate Loaded(mem: Memory, sp: Spaces, a: int, d: seq<byte>, hs: seq<Phdr>, n: nat, bias: int,
      pt0: map<int, Pte>)
    requires n <= |hs|
  {
    && (forall j {:trigger hs[j]} | 0 <= j < n && Loads(hs[j]) :: SegmentIn(mem, sp, a, d, hs[j], bias))
    && forall addr {:trigger Mapped(sp, a, addr)} | Mapped(sp, a, addr) && addr / PAGE_SIZE !in pt0
      && (forall j | 0 <= j < n :: !InFile(hs[j], bias, addr)) :: Is(mem, sp, a, addr, 0)
  }

  /** One segment's file bytes are in memory, and all its pages are mapped. */
  ghost predicate SegmentIn(mem: Memory, sp: Spaces, a: int, d: seq<byte>, p: Phdr, bias: int) {
    && (forall addr {:trigger InFile(p, bias, addr)} |
      InFile(p, bias, addr) && 0 <= p.offset + addr - bias - p.vaddr < |d| ::
      Is(mem, sp, a, addr, d[p.offset + addr - bias - p.vaddr]))
    && forall addr {:trigger InSegment(p, bias, addr)} | InSegment(p, bias, addr) :: Mapped(sp, a, addr)
  }

  /** None of the pages the segments touch was mapped. */
  ghost predicate FreshPages(hs: seq<Phdr>, bias: int, pt0: map<int, Pte>) {
    forall j, p {:trigger hs[j], p in pt0} | 0 <= j < |hs| && Loads(hs[j])
      && PageDown(bias + hs[j].vaddr) <= p < PageUp(bias + hs[j].vaddr + hs[j].memsz) :: p !in pt0
  }

  /** Mapping more pages keeps what is loaded: old pages keep their bytes, new ones are zero. */
  lemma LoadMap(mem: Memory, free: set<int>, sp: Spaces, mem1: Memory, free1: set<int>, sp1: Spaces, a: int,
      d: seq<byte>, hs: seq<Phdr>, n: nat, bias: int, pt0: map<int, Pte>, s: int, e: int, prot: Prot)
    requires Sound(mem1, free1, sp1) && n <= |hs| && Loaded(mem, sp, a, d, hs, n, bias, pt0)
    requires SameData(mem, sp, mem1, sp1)
    requires a in sp && a in sp1
    requires RangeMapped(mem, free, sp, mem1, free1, SetRegions(sp1, a, sp[a].regions), a, s, e, prot)
    ensures Loaded(mem1, sp1, a, d, hs, n, bias, pt0)
  {
    forall j {:trigger hs[j]} | 0 <= j < n && Loads(hs[j]) ensures SegmentIn(mem1, sp1, a, d, hs[j], bias) {
      assert SegmentIn(mem, sp, a, d, hs[j], bias);
      forall addr {:trigger InFile(hs[j], bias, addr)} | InFile(hs[j], bias, addr)
        && 0 <= hs[j].offset + addr - bias - hs[j].vaddr < |d|
        ensures Is(mem1, sp1, a, addr, d[hs[j].offset + addr - bias - hs[j].vaddr])
      {
        assert Mapped(sp, a, addr);
        SameByte(mem, sp, mem1, sp1, a, addr);
      }
      forall addr {:trigger InSegment(hs[j], bias, addr)} | InSegment(hs[j], bias, addr)
        ensures Mapped(sp1, a, addr)
      { assert Mapped(sp, a, addr); }
    }
    forall addr {:trigger Mapped(sp1, a, addr)} | Mapped(sp1, a, addr) && addr / PAGE_SIZE !in pt0
      && (forall j | 0 <= j < n :: !InFile(hs[j], bias, addr))
      ensures Is(mem1, sp1, a, addr, 0)
    {
      var p := addr / PAGE_SIZE;
      if p in sp[a].pt {
        assert Mapped(sp, a, addr);
        SameByte(mem, sp, mem1, sp1, a, addr);
      } else {
        assert NewPage(free, free1, mem1, sp1[a].pt[p], prot);
      }
    }
  }

  lemma SameByte(mem: Memory, sp: Spaces, mem1: Memory, sp1: Spaces, a: int, addr: int)
    requires SameData(mem, sp, mem1, sp1) && Mapped(sp, a, addr) && Mapped(sp1, a, addr)
    ensures FrameAt(sp, a, addr / PAGE_SIZE) in mem && FrameAt(sp1, a, addr / PAGE_SIZE) in mem1
    ensures ByteAt(mem1, sp1, a, addr) == ByteAt(mem, sp, a, addr)
  {
    assert Maps(sp1, a, addr / PAGE_SIZE);
  }

  /** Copying a segment's file bytes onto its mapped pages loads it and disturbs no other. */
  lemma LoadCopy(mem: Memory, mem1: Memory, sp: Spaces, a: int, d: seq<byte>, hs: seq<Phdr>, n: nat, bias: int,
      pt0: map<int, Pte>, bytes: seq<byte>)
    requires n < |hs| && Loads(hs[n]) && Separate(hs) && Loaded(mem, sp, a, d, hs, n, bias, pt0)
    requires RangeOk(hs[n].offset, hs[n].filesz, |d|) && 0 <= hs[n].offset && 0 <= hs[n].filesz
    requires bytes == d[hs[n].offset..hs[n].offset + hs[n].filesz]
    requires Stored(mem, mem1, sp, a, bias + hs[n].vaddr, bytes, |bytes|)
    requires forall addr {:trigger InSegment(hs[n], bias, addr)} | InSegment(hs[n], bias, addr) :: Mapped(sp, a, addr)
    requires forall addr {:trigger Mapped(sp, a, addr)} | Mapped(sp, a, addr) :: FrameAt(sp, a, addr / PAGE_SIZE) in mem
    ensures Loaded(mem1, sp, a, d, hs, n + 1, bias, pt0)
  {
    forall j {:trigger hs[j]} | 0 <= j < n + 1 && Loads(hs[j]) ensures SegmentIn(mem1, sp, a, d, hs[j], bias) {
      forall addr {:trigger InFile(hs[j], bias, addr)} | InFile(hs[j], bias, addr)
        && 0 <= hs[j].offset + addr - bias - hs[j].vaddr < |d|
        ensures Is(mem1, sp, a, addr, d[hs[j].offset + addr - bias - hs[j].vaddr])
      {
        if j < n {
          assert SegmentIn(mem, sp, a, d, hs[j], bias);
          assert Is(mem, sp, a, addr, d[hs[j].offset + addr - bias - hs[j].vaddr]);
        } else {
          assert InSegment(hs[n], bias, addr);
        }
      }
      if j < n { assert SegmentIn(mem, sp, a, d, hs[j], bias); }
    }
    forall addr {:trigger Mapped(sp, a, addr)} | Mapped(sp, a, addr) && addr / PAGE_SIZE !in pt0
      && (forall j | 0 <= j < n + 1 :: !InFile(hs[j], bias, addr))
      ensures Is(mem1, sp, a, addr, 0)
    {
      assert !InFile(hs[n], bias, addr);
      assert Is(mem, sp, a, addr, 0);
    }
  }

  /** A segment that occupies no memory changes nothing. */
  lemma LoadSkip(mem: Memory, sp: Spaces, a: int, d: seq<byte>, hs: seq<Phdr>, n: nat, bias: int, pt0: map<int, Pte>)
    requires n < |hs| && !Loads(hs[n]) && Loaded(mem, sp, a, d, hs, n, bias, pt0)
    ensures Loaded(mem, sp, a, d, hs, n + 1, bias, pt0)
  {
  }

  // ---- the loader ----

  /** Segment addresses are canonical user addresses. */
  ghost predicate UserImage(hs: seq<Phdr>) {
    forall i | 0 <= i < |hs| && Loads(hs[i]) :: hs[i].vaddr + hs[i].memsz <= USER_LIMIT
  }

  /** Interpreter names are inside the image, not empty and short enough. */
  ghost predicate InterpsOk(hs: seq<Phdr>, size: int) {
    forall i | 0 <= i < |hs| && hs[i].kind == PT_INTERP :: RangeOk(hs[i].offset, hs[i].filesz, size)
      && 0 != hs[i].filesz < INTERP_MAX
  }

  /** The lowest address of the segments among the first n, or the highest address there is. */
  ghost function LowestVaddr(hs: seq<Phdr>, n: nat): int
    requires n <= |hs|
  {
    if n == 0 then ADDRESS_LIMIT - 1
    else
      var low := LowestVaddr(hs, n - 1);
      if Loads(hs[n - 1]) && hs[n - 1].vaddr < low then hs[n - 1].vaddr else low
  }

  lemma {:induction false} LowestVaddrIs(hs: seq<Phdr>, n: nat)
    requires n <= |hs|
    ensures forall i | 0 <= i < n && Loads(hs[i]) :: LowestVaddr(hs, n) <= hs[i].vaddr
    ensures LowestVaddr(hs, n) == ADDRESS_LIMIT - 1 || exists i | 0 <= i < n ::
      Loads(hs[i]) && hs[i].vaddr == LowestVaddr(hs, n)
  {
    if n > 0 { LowestVaddrIs(hs, n - 1); }
  }

  /** The first pass: check the interpreter entries and find the lowest segment. */
  method Scan(hs: seq<Phdr>, size: int) returns (ok: bool, min: int)
    ensures ok <==> InterpsOk(hs, size)
    ensures ok ==> min == LowestVaddr(hs, |hs|)
  {
    min := ADDRESS_LIMIT - 1;
    for i := 0 to |hs|
      invariant forall j | 0 <= j < i && hs[j].kind == PT_INTERP ::
        RangeOk(hs[j].offset, hs[j].filesz, size) && 0 != hs[j].filesz < INTERP_MAX
      invariant min == LowestVaddr(hs, i)
    {
      var p := hs[i];
      if p.kind == PT_INTERP && (!RangeOk(p.offset, p.filesz, size) || p.filesz == 0 || p.filesz >= INTERP_MAX) {
        return false, min;
      }
      if Loads(p) && p.vaddr < min { min := p.vaddr; }
    }
    ok := true;
  }

  lemma StoredKept(mem: Memory, free: set<int>, mem1: Memory, sp: Spaces, a: int, va: int, bytes: seq<byte>, n: nat)
    requires Sound(mem, free, sp) && a in sp && Stored(mem, mem1, sp, a, va, bytes, n)
    ensures OthersKept(mem, sp, mem1, sp, a)
  {
    assert sp == sp[a := sp[a]];
    forall b, q {:trigger Maps(sp, b, q)} | b != a && Maps(sp, b, q)
      ensures FrameAt(sp, b, q) in mem && FrameAt(sp, b, q) in mem1 && mem1[FrameAt(sp, b, q)] == mem[FrameAt(sp, b, q)]
    {
      forall i | 0 <= i < PAGE_SIZE ensures mem1[FrameAt(sp, b, q)][i] == mem[FrameAt(sp, b, q)][i] {
        var addr := q * PAGE_SIZE + i;
        assert addr / PAGE_SIZE == q && addr % PAGE_SIZE == i;
        assert Mapped(sp, b, addr);
      }
    }
  }

  lemma SegmentMapped(sp: Spaces, a: int, p: Phdr, bias: int)
    requires a in sp && Loads(p)
    requires forall q | PageDown(bias + p.vaddr) <= q < PageUp(bias + p.vaddr + p.memsz) :: q in sp[a].pt
    ensures SegmentThere(sp, a, p, bias)
  {
    forall addr {:trigger InSegment(p, bias, addr)} | InSegment(p, bias, addr) ensures Mapped(sp, a, addr) {
      assert PageDown(bias + p.vaddr) <= addr / PAGE_SIZE < PageUp(bias + p.vaddr + p.memsz);
    }
  }

  /** The pages a segment touches. */
  function FirstPage(p: Phdr, bias: int): int {
    PageDown(bias + p.vaddr)
  }

  function LastPage(p: Phdr, bias: int): int {
    PageUp(bias + p.vaddr + p.memsz)
  }

  // elf_copy_segment: fails exactly when an address of the segment's file range is not mapped
  method CopySegment(k: Kernel, a: int, d: seq<byte>, hs: seq<Phdr>, n: nat, bias: int, ghost pt0: map<int, Pte>)
    returns (ok: bool)
    requires k.Valid() && a in k.spaces && n < |hs| && Loads(hs[n]) && 0 <= hs[n].offset && 0 <= hs[n].filesz
    requires RangeOk(hs[n].offset, hs[n].filesz, |d|) && 0 <= bias + hs[n].vaddr
    modifies k`mem
    ensures k.Valid() && OthersKept(old(k.mem), k.spaces, k.mem, k.spaces, a)
    ensures ok <==> forall addr {:trigger InFile(hs[n], bias, addr)} | InFile(hs[n], bias, addr) ::
      Mapped(k.spaces, a, addr)
    ensures ok ==>
      Stored(old(k.mem), k.mem, k.spaces, a, bias + hs[n].vaddr, d[hs[n].offset..hs[n].offset + hs[n].filesz],
        hs[n].filesz)
    ensures ok && SegmentThere(k.spaces, a, hs[n], bias) && Separate(hs) ==>
      (Loaded(old(k.mem), k.spaces, a, d, hs, n, bias, pt0) ==> Loaded(k.mem, k.spaces, a, d, hs, n + 1, bias, pt0))
  {
    var p := hs[n];
    var bytes := d[p.offset..p.offset + p.filesz];
    var m := WriteUser(k, a, bias + p.vaddr, bytes);
    StoredKept(old(k.mem), k.free, k.mem, k.spaces, a, bias + p.vaddr, bytes, m);
    assert m < p.filesz ==> InFile(p, bias, bias + p.vaddr + m);
    ok := m == p.filesz;
    if ok && SegmentThere(k.spaces, a, p, bias) && Separate(hs)
      && Loaded(old(k.mem), k.spaces, a, d, hs, n, bias, pt0) {
      AllBacked(old(k.mem), k.free, k.spaces, a);
      LoadCopy(old(k.mem), k.mem, k.spaces, a, d, hs, n, bias, pt0, bytes);
    }
  }

  lemma AllBacked(mem: Memory, free: set<int>, sp: Spaces, a: int)
    requires Sound(mem, free, sp)
    ensures forall addr {:trigger Mapped(sp, a, addr)} | Mapped(sp, a, addr) :: FrameAt(sp, a, addr / PAGE_SIZE) in mem
  {
    forall addr {:trigger Mapped(sp, a, addr)} | Mapped(sp, a, addr)
      ensures FrameAt(sp, a, addr / PAGE_SIZE) in mem
    { assert Maps(sp, a, addr / PAGE_SIZE); }
  }

  /** All pages of the segment are mapped. */
  ghost predicate SegmentThere(sp: Spaces, a: int, p: Phdr, bias: int) {
    forall addr {:trigger InSegment(p, bias, addr)} | InSegment(p, bias, addr) :: Mapped(sp, a, addr)
  }

  /** Map one segment and copy its file bytes. */
  method LoadSegment(k: Kernel, a: int, d: seq<byte>, hs: seq<Phdr>, n: nat, bias: int, ghost pt0: map<int, Pte>,
      ghost had: nat)
    returns (err: Error, ghost has: nat)
    requires k.Valid() && a in k.spaces && n < |hs| && Loads(hs[n]) && 0 <= bias + hs[n].vaddr
    requires bias + hs[n].vaddr + hs[n].memsz + PAGE_SIZE <= ADDRESS_LIMIT
    requires 0 <= hs[n].offset && 0 <= hs[n].filesz && had == |k.free|
    modifies k
    ensures k.Valid() && has == |k.free| && OthersKept(old(k.mem), old(k.spaces), k.mem, k.spaces, a)
    ensures (err == Ok || err == Format || err == Map)
    ensures err == Format <==> !RangeOk(hs[n].offset, hs[n].filesz, |d|)
    ensures err == Map && hs[n].filesz <= hs[n].memsz ==>
      had < |Missing(old(k.spaces)[a].pt, FirstPage(hs[n], bias), LastPage(hs[n], bias))|
    ensures err == Ok ==> had == has + |Missing(old(k.spaces)[a].pt, FirstPage(hs[n], bias), LastPage(hs[n], bias))|
    ensures err == Ok ==> Widened(old(k.spaces)[a].pt, k.spaces[a].pt, FirstPage(hs[n], bias), LastPage(hs[n], bias))
    ensures err == Format ==> unchanged(k)
    ensures err == Map ==>
      Leaves(old(k.spaces)[a].pt, had, FirstPage(hs[n], bias), LastPage(hs[n], bias), k.spaces[a].pt)
    ensures err == Ok && Separate(hs) && old(Loaded(k.mem, k.spaces, a, d, hs, n, bias, pt0)) ==>
      Loaded(k.mem, k.spaces, a, d, hs, n + 1, bias, pt0)
  {
    if !RangeOk(hs[n].offset, hs[n].filesz, |d|) {
      KeptRefl(k.mem, k.free, k.spaces, a);
      return Format, had;
    }
    var ok := MapSegment(k, a, d, hs, n, bias, pt0);
    has := |k.free|;
    err := Map;
    if ok {
      ghost var mem1, sp := k.mem, k.spaces;
      ok := CopySegment(k, a, d, hs, n, bias, pt0);
      OthersTrans(old(k.mem), old(k.spaces), mem1, sp, k.mem, sp, a);
      FileMapped(sp, a, hs[n], bias);
      err := if ok then Ok else Map;
    }
  }

  /** Map the pages of one segment. */
  method MapSegment(k: Kernel, a: int, ghost d: seq<byte>, hs: seq<Phdr>, n: nat, bias: int, ghost pt0: map<int, Pte>)
    returns (ok: bool)
    requires k.Valid() && a in k.spaces && n < |hs| && Loads(hs[n]) && 0 <= bias + hs[n].vaddr
    requires bias + hs[n].vaddr + hs[n].memsz + PAGE_SIZE <= ADDRESS_LIMIT
    modifies k
    ensures k.Valid() && OthersKept(old(k.mem), old(k.spaces), k.mem, k.spaces, a)
    ensures SegmentPages(old(k.Now()), k.Now(), a, hs[n], bias, ok)
    ensures ok ==> SegmentThere(k.spaces, a, hs[n], bias)
    ensures ok && old(Loaded(k.mem, k.spaces, a, d, hs, n, bias, pt0)) ==>
      Loaded(k.mem, k.spaces, a, d, hs, n, bias, pt0)
  {
    ghost var x := k.Now();
    var vs := bias + hs[n].vaddr;
    var r := k.MapRange(a, vs, vs + hs[n].memsz, ProtOf(hs[n]));
    MappedPages(x, k.Now(), a, hs[n], bias);
    if r == 0 && Loaded(x.mem, x.sp, a, d, hs, n, bias, pt0) {
      LoadMap(x.mem, x.free, x.sp, k.mem, k.free, k.spaces, a, d, hs, n, bias, pt0, FirstPage(hs[n], bias),
        LastPage(hs[n], bias), ProtOf(hs[n]));
    }
    ok := r == 0;
  }

  /** What mapping a segment does to the page table and the pool. */
  ghost predicate SegmentPages(x: State, y: State, a: int, p: Phdr, bias: int, ok: bool) {
    && a in x.sp && a in y.sp
    && var pt, s, e := x.sp[a].pt, FirstPage(p, bias), LastPage(p, bias);
    && (ok <==> |Missing(pt, s, e)| <= |x.free|)
    && (ok ==> |x.free| == |y.free| + |Missing(pt, s, e)| && Widened(pt, y.sp[a].pt, s, e))
    && (!ok ==> Leaves(pt, |x.free|, s, e, y.sp[a].pt))
  }

  lemma MappedPages(x: State, y: State, a: int, p: Phdr, bias: int)
    requires MapDone(x, y, a, FirstPage(p, bias), LastPage(p, bias), ProtOf(p)) && Loads(p)
    ensures SegmentPages(x, y, a, p, bias, |Missing(x.sp[a].pt, FirstPage(p, bias), LastPage(p, bias))| <= |x.free|)
    ensures |Missing(x.sp[a].pt, FirstPage(p, bias), LastPage(p, bias))| <= |x.free| ==> SegmentThere(y.sp, a, p, bias)
  {
    var s, e := FirstPage(p, bias), LastPage(p, bias);
    if |Missing(x.sp[a].pt, s, e)| <= |x.free| {
      RangeWidened(x.mem, x.free, x.sp, y.mem, y.free, y.sp, a, s, e, ProtOf(p));
      SegmentMapped(y.sp, a, p, bias);
    }
  }

  /** What a failed map of a segment leaves: without enough frames the rollback of MapRange, else all its pages. */
  ghost predicate Leaves(pt: map<int, Pte>, frames: nat, s: int, e: int, pt': map<int, Pte>) {
    if |Missing(pt, s, e)| <= frames then Widened(pt, pt', s, e)
    else exists at :: StopsAt(pt, frames, s, e, at) && pt' == Without(pt, s, at)
  }

  lemma RangeWidened(mem: Memory, free: set<int>, sp: Spaces, mem1: Memory, free1: set<int>, sp1: Spaces, a: int,
      s: int, e: int, prot: Prot)
    requires a in sp && a in sp1
    requires RangeMapped(mem, free, sp, mem1, free1, SetRegions(sp1, a, sp[a].regions), a, s, e, prot)
    ensures Widened(sp[a].pt, sp1[a].pt, s, e)
  {
    var sp2 := SetRegions(sp1, a, sp[a].regions);
    forall q {:trigger q in sp1[a].pt}
      ensures q in sp1[a].pt <==> q in sp[a].pt || s <= q < e
    { assert q in sp2[a].pt <==> q in sp1[a].pt; }
  }

  lemma FileMapped(sp: Spaces, a: int, p: Phdr, bias: int)
    requires SegmentThere(sp, a, p, bias)
    ensures p.filesz <= p.memsz ==> forall addr {:trigger InFile(p, bias, addr)} | InFile(p, bias, addr) ::
      Mapped(sp, a, addr)
  {
    if p.filesz <= p.memsz {
      forall addr {:trigger InFile(p, bias, addr)} | InFile(p, bias, addr)
        ensures Mapped(sp, a, addr)
      { assert InSegment(p, bias, addr); }
    }
  }

  ghost predicate InImage(hs: seq<Phdr>, n: nat, size: int)
    requires n <= |hs|
  {
    forall j {:trigger hs[j]} | 0 <= j < n && Loads(hs[j]) :: RangeOk(hs[j].offset, hs[j].filesz, size)
  }

  /** Every segment's end is at or below the given address. */
  ghost predicate Above(hs: seq<Phdr>, n: nat, bias: int, top: int)
    requires n <= |hs|
  {
    forall j {:trigger hs[j]} | 0 <= j < n && Loads(hs[j]) :: bias + hs[j].vaddr + hs[j].memsz <= top
  }

  /** The page-aligned end of some segment, or 0 when there is none. */
  ghost predicate EndOf(hs: seq<Phdr>, n: nat, bias: int, top: int)
    requires n <= |hs|
  {
    if forall j {:trigger hs[j]} | 0 <= j < n :: !Loads(hs[j]) then top == 0
    else exists j {:trigger hs[j]} | 0 <= j < n && Loads(hs[j]) :: top == LastPage(hs[j], bias) * PAGE_SIZE
  }

  /** No segment is longer in the file than in memory. */
  ghost predicate Trimmed(hs: seq<Phdr>) {
    forall i | 0 <= i < |hs| && Loads(hs[i]) :: hs[i].filesz <= hs[i].memsz
  }

  // ---- how many frames an image takes ----

  ghost predicate OnPage(hs: seq<Phdr>, n: nat, bias: int, q: int)
    requires n <= |hs|
  {
    exists j {:trigger hs[j]} | 0 <= j < n && Loads(hs[j]) :: FirstPage(hs[j], bias) <= q < LastPage(hs[j], bias)
  }

  lemma OnPageNext(hs: seq<Phdr>, n: nat, bias: int, q: int)
    requires n < |hs|
    ensures OnPage(hs, n + 1, bias, q) <==>
      OnPage(hs, n, bias, q) || (Loads(hs[n]) && FirstPage(hs[n], bias) <= q < LastPage(hs[n], bias))
  {
  }

  /** The pages of the first n segments that are not mapped in pt. */
  ghost function NewPages(hs: seq<Phdr>, n: nat, bias: int, pt: map<int, Pte>): set<int>
    requires n <= |hs|
  {
    set j, q | 0 <= j < n && Loads(hs[j]) && FirstPage(hs[j], bias) <= q < LastPage(hs[j], bias) && q !in pt :: q
  }

  lemma NewPagesAre(hs: seq<Phdr>, n: nat, bias: int, pt: map<int, Pte>, q: int)
    requires n <= |hs|
    ensures q in NewPages(hs, n, bias, pt) <==> q !in pt && OnPage(hs, n, bias, q)
  {
  }

  lemma NewPagesMore(hs: seq<Phdr>, n: nat, m: nat, bias: int, pt: map<int, Pte>)
    requires n <= m <= |hs|
    ensures |NewPages(hs, n, bias, pt)| <= |NewPages(hs, m, bias, pt)|
  {
    Smaller(NewPages(hs, n, bias, pt), NewPages(hs, m, bias, pt));
  }

  lemma NewPagesSkip(hs: seq<Phdr>, n: nat, bias: int, pt: map<int, Pte>)
    requires n < |hs| && !Loads(hs[n])
    ensures NewPages(hs, n + 1, bias, pt) == NewPages(hs, n, bias, pt)
  {
  }

  /** The pages mapped after the first n segments. */
  ghost predicate MappedSoFar(hs: seq<Phdr>, n: nat, bias: int, pt0: map<int, Pte>, pt: map<int, Pte>)
    requires n <= |hs|
  {
    forall q {:trigger q in pt} :: q in pt <==> q in pt0 || q in NewPages(hs, n, bias, pt0)
  }

  lemma NewPagesStep(hs: seq<Phdr>, n: nat, bias: int, pt0: map<int, Pte>, pt: map<int, Pte>)
    requires n < |hs| && Loads(hs[n]) && MappedSoFar(hs, n, bias, pt0, pt)
    ensures |NewPages(hs, n + 1, bias, pt0)| ==
      |NewPages(hs, n, bias, pt0)| + |Missing(pt, FirstPage(hs[n], bias), LastPage(hs[n], bias))|
  {
    var s, e, was := FirstPage(hs[n], bias), LastPage(hs[n], bias), NewPages(hs, n, bias, pt0);
    forall q ensures q in NewPages(hs, n + 1, bias, pt0) <==> q in was || q in Missing(pt, s, e) {
      assert q in pt <==> q in pt0 || q in was;
      NewPagesAre(hs, n, bias, pt0, q);
      NewPagesAre(hs, n + 1, bias, pt0, q);
      OnPageNext(hs, n, bias, q);
    }
    forall q | q in was ensures q !in Missing(pt, s, e) { assert q in pt; }
    assert NewPages(hs, n + 1, bias, pt0) == was + Missing(pt, s, e);
    Union(was, Missing(pt, s, e));
  }

  lemma SoFarStep(hs: seq<Phdr>, n: nat, bias: int, pt0: map<int, Pte>, pt: map<int, Pte>, pt': map<int, Pte>)
    requires n < |hs| && Loads(hs[n]) && MappedSoFar(hs, n, bias, pt0, pt)
    requires Widened(pt, pt', FirstPage(hs[n], bias), LastPage(hs[n], bias))
    ensures MappedSoFar(hs, n + 1, bias, pt0, pt')
  {
    forall q {:trigger q in pt'} ensures q in pt' <==> q in pt0 || q in NewPages(hs, n + 1, bias, pt0) {
      assert q in pt' <==> q in pt || FirstPage(hs[n], bias) <= q < LastPage(hs[n], bias);
      NewPagesAre(hs, n, bias, pt0, q);
      NewPagesAre(hs, n + 1, bias, pt0, q);
      OnPageNext(hs, n, bias, q);
    }
  }

  /** The first n segments are inside the image, and top is where they end. */
  ghost predicate Spans(hs: seq<Phdr>, n: nat, bias: int, top: int, size: int)
    requires n <= |hs|
  {
    top % PAGE_SIZE == 0 && Above(hs, n, bias, top) && EndOf(hs, n, bias, top) && InImage(hs, n, size)
  }

  lemma SpansStep(hs: seq<Phdr>, n: nat, bias: int, top: int, top': int, size: int)
    requires n < |hs| && Spans(hs, n, bias, top, size)
    requires (Loads(hs[n]) ==> RangeOk(hs[n].offset, hs[n].filesz, size) && 0 <= LastPage(hs[n], bias))
    requires top' ==
      if Loads(hs[n]) && LastPage(hs[n], bias) * PAGE_SIZE > top then LastPage(hs[n], bias) * PAGE_SIZE else top
    ensures Spans(hs, n + 1, bias, top', size)
  {
    if Loads(hs[n]) && top' == top && top != 0 {
      var j :| 0 <= j < n && Loads(hs[j]) && top == LastPage(hs[j], bias) * PAGE_SIZE;
      assert Loads(hs[j]);
    }
    if !Loads(hs[n]) && exists j | 0 <= j < n :: Loads(hs[j]) {
      var j :| 0 <= j < n && Loads(hs[j]) && top == LastPage(hs[j], bias) * PAGE_SIZE;
      assert Loads(hs[j]);
    }
  }

  /** The n-th step of the second pass. */
  method LoadNext(k: Kernel, a: int, d: seq<byte>, hs: seq<Phdr>, n: nat, bias: int, ghost pt0: map<int, Pte>,
      ghost pt1: map<int, Pte>, ghost had: nat)
    returns (err: Error, ghost has: nat)
    requires k.Valid() && a in k.spaces && n < |hs| && 0 <= hs[n].offset && 0 <= hs[n].filesz && had == |k.free|
    requires Loads(hs[n]) ==> 0 <= bias + hs[n].vaddr && bias + hs[n].vaddr + hs[n].memsz + PAGE_SIZE <= ADDRESS_LIMIT
    requires MappedSoFar(hs, n, bias, pt1, k.spaces[a].pt)
    modifies k
    ensures k.Valid() && has == |k.free| && OthersKept(old(k.mem), old(k.spaces), k.mem, k.spaces, a)
    ensures (err == Ok || err == Format || err == Map)
    ensures err == Format <==> Loads(hs[n]) && !RangeOk(hs[n].offset, hs[n].filesz, |d|)
    ensures err == Map && Trimmed(hs) ==> had + |NewPages(hs, n, bias, pt1)| < |NewPages(hs, n + 1, bias, pt1)|
    ensures err == Format ==> unchanged(k)
    ensures err == Map ==> Loads(hs[n])
    ensures err == Map ==>
      Leaves(old(k.spaces)[a].pt, had, FirstPage(hs[n], bias), LastPage(hs[n], bias), k.spaces[a].pt)
    ensures err == Ok ==> had + |NewPages(hs, n, bias, pt1)| == has + |NewPages(hs, n + 1, bias, pt1)|
    ensures err == Ok ==> MappedSoFar(hs, n + 1, bias, pt1, k.spaces[a].pt)
    ensures err == Ok && Separate(hs) && old(Loaded(k.mem, k.spaces, a, d, hs, n, bias, pt0)) ==>
      Loaded(k.mem, k.spaces, a, d, hs, n + 1, bias, pt0)
  {
    if Loads(hs[n]) {
      NewPagesStep(hs, n, bias, pt1, k.spaces[a].pt);
      err, has := LoadSegment(k, a, d, hs, n, bias, pt0, had);
      if err == Ok { SoFarStep(hs, n, bias, pt1, old(k.spaces)[a].pt, k.spaces[a].pt); }
    } else {
      KeptRefl(k.mem, k.free, k.spaces, a);
      NewPagesSkip(hs, n, bias, pt1);
      if Separate(hs) && Loaded(k.mem, k.spaces, a, d, hs, n, bias, pt0) {
        LoadSkip(k.mem, k.spaces, a, d, hs, n, bias, pt0);
      }
      err, has := Ok, had;
    }
  }

  /** Loading gave up at segment n, the earlier ones being mapped in pt: its file range is bad and nothing more was
      mapped, or its pages could not all be mapped or copied. */
  ghost predicate GaveUp(hs: seq<Phdr>, n: int, bias: int, size: int, pt0: map<int, Pte>, frames: nat,
      pt: map<int, Pte>, pt': map<int, Pte>, err: Error) {
    && 0 <= n < |hs| && Loads(hs[n]) && InImage(hs, n, size) && MappedSoFar(hs, n, bias, pt0, pt)
    && |NewPages(hs, n, bias, pt0)| <= frames
    && (err == Format || err == Map) && (err == Format <==> !RangeOk(hs[n].offset, hs[n].filesz, size))
    && (err == Format ==> pt' == pt)
    && (err == Map ==>
      Leaves(pt, frames - |NewPages(hs, n, bias, pt0)|, FirstPage(hs[n], bias), LastPage(hs[n], bias), pt'))
  }

  function Higher(p: Phdr, bias: int, top: int): int {
    if Loads(p) && LastPage(p, bias) * PAGE_SIZE > top then LastPage(p, bias) * PAGE_SIZE else top
  }

  /** The second pass: map and copy every segment, and find where the image ends. */
  method LoadSegments(k: Kernel, a: int, d: seq<byte>, hs: seq<Phdr>, bias: int, ghost pt0: map<int, Pte>)
    returns (err: Error, top: int)
    requires k.Valid() && a in k.spaces && forall j | 0 <= j < |hs| :: 0 <= hs[j].offset && 0 <= hs[j].filesz
    requires forall j | 0 <= j < |hs| && Loads(hs[j]) ::
      0 <= bias + hs[j].vaddr && bias + hs[j].vaddr + hs[j].memsz + PAGE_SIZE <= ADDRESS_LIMIT
    modifies k
    ensures k.Valid() && OthersKept(old(k.mem), old(k.spaces), k.mem, k.spaces, a) && err != Layout && err != Phdrs
    ensures Trimmed(hs) ==> (err == Ok <==>
      InImage(hs, |hs|, |d|) && |NewPages(hs, |hs|, bias, old(k.spaces)[a].pt)| <= |old(k.free)|)
    ensures err == Ok ==> Spans(hs, |hs|, bias, top, |d|)
    ensures err == Ok ==> MappedSoFar(hs, |hs|, bias, old(k.spaces)[a].pt, k.spaces[a].pt)
    ensures err != Ok ==> exists n, pt ::
      GaveUp(hs, n, bias, |d|, old(k.spaces)[a].pt, |old(k.free)|, pt, k.spaces[a].pt, err)
    ensures err == Ok && Separate(hs) && old(Loaded(k.mem, k.spaces, a, d, hs, 0, bias, pt0)) ==>
      Loaded(k.mem, k.spaces, a, d, hs, |hs|, bias, pt0)
  {
    top := 0;
    ghost var pt1 := k.spaces[a].pt;
    ghost var had, has, need := |k.free|, |k.free|, |NewPages(hs, |hs|, bias, pt1)|;
    KeptRefl(k.mem, k.free, k.spaces, a);
    for i := 0 to |hs|
      invariant k.Valid() && OthersKept(old(k.mem), old(k.spaces), k.mem, k.spaces, a)
      invariant Spans(hs, i, bias, top, |d|)
      invariant has == |k.free| && had == has + |NewPages(hs, i, bias, pt1)|
      invariant MappedSoFar(hs, i, bias, pt1, k.spaces[a].pt)
      invariant Separate(hs) && old(Loaded(k.mem, k.spaces, a, d, hs, 0, bias, pt0)) ==>
        Loaded(k.mem, k.spaces, a, d, hs, i, bias, pt0)
    {
      NewPagesMore(hs, i + 1, |hs|, bias, pt1);
      ghost var mem1, sp1 := k.mem, k.spaces;
      err, has := LoadNext(k, a, d, hs, i, bias, pt0, pt1, has);
      OthersTrans(old(k.mem), old(k.spaces), mem1, sp1, k.mem, k.spaces, a);
      if err != Ok {
        assert err == Format ==> !InImage(hs, |hs|, |d|);
        assert err == Map && Trimmed(hs) ==> had < need;
        assert GaveUp(hs, i, bias, |d|, pt1, had, sp1[a].pt, k.spaces[a].pt, err);
        return;
      }
      ghost var was := top;
      top := Higher(hs[i], bias, top);
      SpansStep(hs, i, bias, was, top, |d|);
    }
    err := Ok;
  }

  /** The segment's memory is its file bytes followed by zeros. */
  ghost predicate SegmentExact(mem: Memory, sp: Spaces, a: int, d: seq<byte>, p: Phdr, bias: int)
    requires 0 <= p.offset && 0 <= p.filesz && RangeOk(p.offset, p.filesz, |d|)
  {
    forall addr {:trigger InSegment(p, bias, addr)} | InSegment(p, bias, addr) ::
      Is(mem, sp, a, addr, if addr < bias + p.vaddr + p.filesz then d[p.offset + addr - bias - p.vaddr] else 0)
  }

  lemma ImageExact(mem: Memory, sp: Spaces, a: int, d: seq<byte>, hs: seq<Phdr>, bias: int, pt0: map<int, Pte>, j: nat)
    requires Loaded(mem, sp, a, d, hs, |hs|, bias, pt0) && Separate(hs) && FreshPages(hs, bias, pt0)
    requires j < |hs| && Loads(hs[j]) && 0 <= hs[j].offset && 0 <= hs[j].filesz
    requires RangeOk(hs[j].offset, hs[j].filesz, |d|)
    ensures SegmentExact(mem, sp, a, d, hs[j], bias)
  {
    var p := hs[j];
    assert SegmentIn(mem, sp, a, d, p, bias);
    forall addr {:trigger InSegment(p, bias, addr)} | InSegment(p, bias, addr)
      ensures Is(mem, sp, a, addr, if addr < bias + p.vaddr + p.filesz then d[p.offset + addr - bias - p.vaddr] else 0)
    {
      if addr < bias + p.vaddr + p.filesz { assert InFile(p, bias, addr); }
      else {
        OnFreshPage(hs, bias, pt0, j, addr);
        assert forall i | 0 <= i < |hs| :: !InFile(hs[i], bias, addr);
        assert Mapped(sp, a, addr);
      }
    }
  }

  lemma OnFreshPage(hs: seq<Phdr>, bias: int, pt0: map<int, Pte>, j: nat, addr: int)
    requires FreshPages(hs, bias, pt0) && j < |hs| && InSegment(hs[j], bias, addr)
    ensures addr / PAGE_SIZE !in pt0
  {
    var p := addr / PAGE_SIZE;
    assert PageDown(bias + hs[j].vaddr) <= p < PageUp(bias + hs[j].vaddr + hs[j].memsz);
    assert p in pt0 ==> hs[j] == hs[j];
  }

  /** The segment's file range holds [off, off + len). */
  predicate HoldsRange(p: Phdr, off: int, len: int, size: int) {
    Loads(p) && p.offset <= off && RangeOk(p.offset, p.filesz, size) && off + len <= p.offset + p.filesz
  }

  ghost predicate HasPhdrs(hs: seq<Phdr>, off: int, len: int, size: int) {
    exists i | 0 <= i < |hs| :: HoldsRange(hs[i], off, len, size)
  }

  /** The third pass: the first segment whose file range holds the program header table. */
  method FindPhdrs(hs: seq<Phdr>, off: int, len: int, bias: int, size: int) returns (ok: bool, va: int, ghost j: nat)
    ensures ok <==> HasPhdrs(hs, off, len, size)
    ensures ok ==> j < |hs| && HoldsRange(hs[j], off, len, size) && va == bias + hs[j].vaddr + off - hs[j].offset
    ensures ok ==> forall i | 0 <= i < j :: !HoldsRange(hs[i], off, len, size)
  {
    for i := 0 to |hs|
      invariant forall k | 0 <= k < i :: !HoldsRange(hs[k], off, len, size)
    {
      if HoldsRange(hs[i], off, len, size) { return true, bias + hs[i].vaddr + (off - hs[i].offset), i; }
    }
    ok, va, j := false, 0, 0;
  }

  datatype Image = Image(entry: int, brkStart: int, phdr: int, phnum: int)

  /** Everything the loader promises of an accepted image. */
  ghost predicate Good(mem: Memory, sp: Spaces, a: int, d: seq<byte>, bias: int, out: Image)
    requires HeaderOk(d)
  {
    var hs := Headers(d);
    && (forall j {:trigger hs[j]} | 0 <= j < |hs| && Loads(hs[j]) ::
      RangeOk(hs[j].offset, hs[j].filesz, |d|) && SegmentExact(mem, sp, a, d, hs[j], bias))
    && FileIn(mem, sp, a, d, PhOff(d), PhNum(d) * PHDR_SIZE, out.phdr)
  }

  /** Memory at va holds the len image bytes at off. */
  ghost predicate FileIn(mem: Memory, sp: Spaces, a: int, d: seq<byte>, off: int, len: int, va: int) {
    forall x {:trigger d[x]} | 0 <= off <= x < off + len && x < |d| :: Is(mem, sp, a, va + x - off, d[x])
  }

  /** How far the image is moved: nowhere, or its lowest page to the chosen base. */
  ghost function BiasFor(d: seq<byte>, forcedBase: int): int
    requires HeaderOk(d)
  {
    if Type(d) != ET_DYN then 0
    else
      var base := if forcedBase != 0 then forcedBase else UVM_ELF_BASE;
      base - PageDown(LowestVaddr(Headers(d), |Headers(d)|)) * PAGE_SIZE
  }

  lemma PlacedBounds(d: seq<byte>, forcedBase: int, p: Phdr)
    requires HeaderOk(d) && 0 <= forcedBase <= USER_LIMIT && 0 <= LowestVaddr(Headers(d), |Headers(d)|) <= p.vaddr
    requires 0 <= p.memsz && p.vaddr + p.memsz <= USER_LIMIT
    ensures 0 <= BiasFor(d, forcedBase) + p.vaddr
    ensures BiasFor(d, forcedBase) + p.vaddr + p.memsz + PAGE_SIZE <= ADDRESS_LIMIT
  {
  }

  /** A movable image's lowest segment starts on the page of the chosen base; a fixed one stays above the arena's. */
  lemma PlacedLowest(d: seq<byte>, hs: seq<Phdr>, forcedBase: int, j: nat)
    requires HeaderOk(d) && hs == Headers(d) && UserImage(hs) && Fits(d, hs, forcedBase) && j < |hs| && Loads(hs[j])
    requires forall i | 0 <= i < |hs| && Loads(hs[i]) :: hs[j].vaddr <= hs[i].vaddr
    ensures Type(d) != ET_DYN ==> BiasFor(d, forcedBase) == 0 && hs[j].vaddr >= UVM_ELF_BASE
    ensures Type(d) == ET_DYN && (forcedBase != 0 ==> forcedBase % PAGE_SIZE == 0) ==>
      PageDown(BiasFor(d, forcedBase) + hs[j].vaddr) == PageDown(if forcedBase != 0 then forcedBase else UVM_ELF_BASE)
  {
    LowestVaddrIs(hs, |hs|);
    assert hs[j].vaddr == LowestVaddr(hs, |hs|);
    var base := if forcedBase != 0 then forcedBase else UVM_ELF_BASE;
    Shifted(base, hs[j].vaddr);
  }

  lemma Shifted(base: int, v: int)
    ensures base % PAGE_SIZE == 0 ==> PageDown(base - PageDown(v) * PAGE_SIZE + v) == PageDown(base)
  {
  }

  /** The program header table is inside a loaded segment's file bytes, so it is in memory. */
  lemma PhdrsLoaded(mem: Memory, sp: Spaces, a: int, d: seq<byte>, p: Phdr, bias: int, off: nat, len: nat, va: int)
    requires 0 <= p.offset && 0 <= p.filesz && RangeOk(p.offset, p.filesz, |d|) && SegmentExact(mem, sp, a, d, p, bias)
    requires Loads(p) && p.filesz <= p.memsz
    requires p.offset <= off && off + len <= p.offset + p.filesz && va == bias + p.vaddr + off - p.offset
    ensures FileIn(mem, sp, a, d, off, len, va)
  {
    forall x {:trigger d[x]} | 0 <= off <= x < off + len && x < |d| ensures Is(mem, sp, a, va + x - off, d[x]) {
      assert InSegment(p, bias, va + x - off);
    }
  }

  lemma AllGood(mem: Memory, sp: Spaces, a: int, d: seq<byte>, hs: seq<Phdr>, bias: int, pt0: map<int, Pte>,
      out: Image, j: nat)
    requires HeaderOk(d) && hs == Headers(d) && Loaded(mem, sp, a, d, hs, |hs|, bias, pt0) && Separate(hs)
    requires FreshPages(hs, bias, pt0) && InImage(hs, |hs|, |d|)
    requires j < |hs| && HoldsRange(hs[j], PhOff(d), PhNum(d) * PHDR_SIZE, |d|)
    requires out.phdr == bias + hs[j].vaddr + PhOff(d) - hs[j].offset
    ensures Good(mem, sp, a, d, bias, out)
  {
    forall i {:trigger hs[i]} | 0 <= i < |hs| && Loads(hs[i])
      ensures RangeOk(hs[i].offset, hs[i].filesz, |d|) && SegmentExact(mem, sp, a, d, hs[i], bias)
    {
      ImageExact(mem, sp, a, d, hs, bias, pt0, i);
    }
    PhdrsLoaded(mem, sp, a, d, hs[j], bias, PhOff(d), PhNum(d) * PHDR_SIZE, out.phdr);
  }

  /** The image may go where it is linked or asked to go. */
  ghost predicate Fits(d: seq<byte>, hs: seq<Phdr>, forcedBase: int)
    requires HeaderOk(d)
  {
    Type(d) == ET_DYN || (forcedBase == 0 && forall j | 0 <= j < |hs| && Loads(hs[j]) :: hs[j].vaddr >= UVM_ELF_BASE)
  }

  /** The first pass and the choice of the load bias. */
  method Place(d: seq<byte>, hs: seq<Phdr>, forcedBase: int) returns (err: Error, b: int)
    requires HeaderOk(d) && hs == Headers(d) && UserImage(hs) && 0 <= forcedBase <= USER_LIMIT
    ensures (err == Ok || err == Format || err == Layout) && (err == Format <==> !InterpsOk(hs, |d|))
    ensures (err == Layout <==> InterpsOk(hs, |d|) && !Fits(d, hs, forcedBase))
    ensures err == Ok ==> b == BiasFor(d, forcedBase)
    ensures err == Ok ==> forall j | 0 <= j < |hs| && Loads(hs[j]) ::
      0 <= b + hs[j].vaddr && b + hs[j].vaddr + hs[j].memsz + PAGE_SIZE <= ADDRESS_LIMIT
  {
    b := 0;
    var ok, min := Scan(hs, |d|);
    if !ok { return Format, 0; }
    LowestVaddrIs(hs, |hs|);
    if Type(d) == ET_DYN {
      b := (if forcedBase != 0 then forcedBase else UVM_ELF_BASE) - PageDown(min) * PAGE_SIZE;
    } else if min < UVM_ELF_BASE || forcedBase != 0 {
      return Layout, 0;
    }
    forall j | 0 <= j < |hs| && Loads(hs[j])
      ensures 0 <= b + hs[j].vaddr && b + hs[j].vaddr + hs[j].memsz + PAGE_SIZE <= ADDRESS_LIMIT
    {
      PlacedBounds(d, forcedBase, hs[j]);
    }
    err := Ok;
  }

  lemma TopAbove(hs: seq<Phdr>, bias: int, top: int, size: int, j: nat)
    requires Spans(hs, |hs|, bias, top, size) && j < |hs| && Loads(hs[j]) && 0 <= bias + hs[j].vaddr
    ensures top > 0
  {
  }

  /** What it takes for an image to be accepted. */
  ghost predicate Loadable(d: seq<byte>, forcedBase: int, pt: map<int, Pte>, free: set<int>)
    requires HeaderOk(d)
  {
    var hs := Headers(d);
    && InterpsOk(hs, |d|) && Fits(d, hs, forcedBase) && InImage(hs, |hs|, |d|)
    && HasPhdrs(hs, PhOff(d), PhNum(d) * PHDR_SIZE, |d|)
    && |NewPages(hs, |hs|, BiasFor(d, forcedBase), pt)| <= |free|
  }

  /** The page table of a process after a failed load: as before when the image was refused unplaced, with all segments
      when only the header table was missing, else as left by the segment at which loading gave up. */
  ghost predicate LoadLeft(d: seq<byte>, forcedBase: int, pt: map<int, Pte>, frames: nat, pt': map<int, Pte>,
      err: Error)
    requires HeaderOk(d)
  {
    var hs, bias := Headers(d), BiasFor(d, forcedBase);
    if !InterpsOk(hs, |d|) || !Fits(d, hs, forcedBase) then pt' == pt
    else SegmentsLeft(hs, bias, |d|, pt, frames, pt', err)
  }

  ghost predicate SegmentsLeft(hs: seq<Phdr>, bias: int, size: int, pt: map<int, Pte>, frames: nat, pt': map<int, Pte>,
      err: Error) {
    if err == Phdrs then MappedSoFar(hs, |hs|, bias, pt, pt')
    else exists n, pt1 :: GaveUp(hs, n, bias, size, pt, frames, pt1, pt', err)
  }

  /** The second and third passes over a placed image. */
  method LoadPlaced(k: Kernel, a: int, d: seq<byte>, hs: seq<Phdr>, b: int) returns (err: Error, out: Image)
    requires k.Valid() && a in k.spaces && HeaderOk(d) && hs == Headers(d) && UserImage(hs)
    requires forall j | 0 <= j < |hs| && Loads(hs[j]) ::
      0 <= b + hs[j].vaddr && b + hs[j].vaddr + hs[j].memsz + PAGE_SIZE <= ADDRESS_LIMIT
    modifies k
    ensures k.Valid() && OthersKept(old(k.mem), old(k.spaces), k.mem, k.spaces, a) && err != Layout
    ensures Trimmed(hs) ==> (err == Ok <==>
      InImage(hs, |hs|, |d|) && HasPhdrs(hs, PhOff(d), PhNum(d) * PHDR_SIZE, |d|)
        && |NewPages(hs, |hs|, b, old(k.spaces)[a].pt)| <= |old(k.free)|)
    ensures err != Ok ==> SegmentsLeft(hs, b, |d|, old(k.spaces)[a].pt, |old(k.free)|, k.spaces[a].pt, err)
    ensures err == Ok ==> Spans(hs, |hs|, b, out.brkStart, |d|) && out.entry == EntryFor(d, b)
    ensures err == Ok ==> out.phnum == PhNum(d)
    ensures err == Ok && Separate(hs) && FreshPages(hs, b, old(k.spaces)[a].pt) ==> Good(k.mem, k.spaces, a, d, b, out)
  {
    out := Image(0, 0, 0, 0);
    ghost var pt0 := k.spaces[a].pt;
    var top;
    err, top := LoadSegments(k, a, d, hs, b, pt0);
    if err != Ok { return err, out; }
    var found, va;
    ghost var j;
    found, va, j := FindPhdrs(hs, PhOff(d), PhNum(d) * PHDR_SIZE, b, |d|);
    if !found { return Phdrs, out; }
    TopAbove(hs, b, top, |d|, j);
    out := Image(EntryFor(d, b), if top > 0 then top else UVM_ELF_BASE, va, PhNum(d));
    if Separate(hs) && FreshPages(hs, b, pt0) { AllGood(k.mem, k.spaces, a, d, hs, b, pt0, out, j); }
  }

  // elf_load_at
  method LoadAt(k: Kernel, a: int, d: seq<byte>, forcedBase: int) returns (err: Error, out: Image)
    requires k.Valid() && a in k.spaces && 0 <= forcedBase <= USER_LIMIT
    requires |d| >= EHDR_SIZE ==> TableEnd(d) < ADDRESS_LIMIT
    requires HeaderOk(d) ==> UserImage(Headers(d))
    modifies k
    ensures k.Valid() && OthersKept(old(k.mem), old(k.spaces), k.mem, k.spaces, a)
    ensures !HeaderOk(d) ==> err == Format && unchanged(k)
    ensures HeaderOk(d) ==> (err == Layout <==> InterpsOk(Headers(d), |d|) && !Fits(d, Headers(d), forcedBase))
    ensures HeaderOk(d) && Trimmed(Headers(d)) ==> (err == Ok <==>
      Loadable(d, forcedBase, old(k.spaces)[a].pt, old(k.free)))
    ensures HeaderOk(d) && err != Ok ==>
      LoadLeft(d, forcedBase, old(k.spaces)[a].pt, |old(k.free)|, k.spaces[a].pt, err)
    ensures err == Ok ==> HeaderOk(d) && Spans(Headers(d), |Headers(d)|, BiasFor(d, forcedBase), out.brkStart, |d|)
    ensures err == Ok ==> out.entry == EntryFor(d, BiasFor(d, forcedBase)) && out.phnum == PhNum(d)
    ensures err == Ok && Separate(Headers(d)) ==>
      (FreshPages(Headers(d), BiasFor(d, forcedBase), old(k.spaces)[a].pt) ==>
        Good(k.mem, k.spaces, a, d, BiasFor(d, forcedBase), out))
  {
    if Accepted(d) {
      err, out := LoadChecked(k, a, d, forcedBase);
    } else {
      KeptRefl(k.mem, k.free, k.spaces, a);
      err, out := Format, Image(0, 0, 0, 0);
    }
  }

  /** The same with the header accepted. */
  method LoadChecked(k: Kernel, a: int, d: seq<byte>, forcedBase: int) returns (err: Error, out: Image)
    requires k.Valid() && a in k.spaces && 0 <= forcedBase <= USER_LIMIT && HeaderOk(d) && UserImage(Headers(d))
    modifies k
    ensures k.Valid() && OthersKept(old(k.mem), old(k.spaces), k.mem, k.spaces, a)
    ensures err == Layout <==> InterpsOk(Headers(d), |d|) && !Fits(d, Headers(d), forcedBase)
    ensures Trimmed(Headers(d)) ==> (err == Ok <==> Loadable(d, forcedBase, old(k.spaces)[a].pt, old(k.free)))
    ensures err != Ok ==> LoadLeft(d, forcedBase, old(k.spaces)[a].pt, |old(k.free)|, k.spaces[a].pt, err)
    ensures err == Ok ==> Spans(Headers(d), |Headers(d)|, BiasFor(d, forcedBase), out.brkStart, |d|)
    ensures err == Ok ==> out.entry == EntryFor(d, BiasFor(d, forcedBase)) && out.phnum == PhNum(d)
    ensures err == Ok && Separate(Headers(d)) ==>
      (FreshPages(Headers(d), BiasFor(d, forcedBase), old(k.spaces)[a].pt) ==>
        Good(k.mem, k.spaces, a, d, BiasFor(d, forcedBase), out))
  {
    var hs := Headers(d);
    var b;
    err, b := Place(d, hs, forcedBase);
    if err == Ok {
      err, out := LoadPlaced(k, a, d, hs, b);
    } else {
      KeptRefl(k.mem, k.free, k.spaces, a);
      out := Image(0, 0, 0, 0);
    }
  }

  // elf_load_interp
  method LoadInterp(k: Kernel, a: int, d: seq<byte>, base: int) returns (err: Error, out: Image)
    requires k.Valid() && a in k.spaces && 0 <= base <= USER_LIMIT
    requires |d| >= EHDR_SIZE ==> TableEnd(d) < ADDRESS_LIMIT
    requires HeaderOk(d) ==> UserImage(Headers(d))
    modifies k
    ensures k.Valid() && OthersKept(old(k.mem), old(k.spaces), k.mem, k.spaces, a)
    ensures base == 0 || base % PAGE_SIZE != 0 || !HeaderOk(d) ==> err == Format && unchanged(k)
    ensures base != 0 && base % PAGE_SIZE == 0 && HeaderOk(d) && Trimmed(Headers(d)) ==> (err == Ok <==>
      Loadable(d, base, old(k.spaces)[a].pt, old(k.free)))
    ensures base != 0 && base % PAGE_SIZE == 0 && HeaderOk(d) && err != Ok ==>
      LoadLeft(d, base, old(k.spaces)[a].pt, |old(k.free)|, k.spaces[a].pt, err)
    ensures err == Ok ==> HeaderOk(d) && Spans(Headers(d), |Headers(d)|, BiasFor(d, base), out.brkStart, |d|)
    ensures err == Ok && Separate(Headers(d)) && FreshPages(Headers(d), BiasFor(d, base), old(k.spaces)[a].pt) ==>
      Good(k.mem, k.spaces, a, d, BiasFor(d, base), out)
  {
    KeptRefl(k.mem, k.free, k.spaces, a);
    if base == 0 || base % PAGE_SIZE != 0 { return Format, Image(0, 0, 0, 0); }
    err, out := LoadAt(k, a, d, base);
  }
}
