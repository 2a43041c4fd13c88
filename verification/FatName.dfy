/** 8.3 short names: formatting, and mangling until the name is unused in the
    directory. */
module FatName {
  import opened Bytes
  import opened FatDisk
  import opened FatChain
  import opened FatFile
  import opened FatVolume
  import opened FatDir

  const SPACE: byte := 0x20
  const TILDE: byte := 0x7E
  const MAX_TRIES := 999_999

  /** The characters FAT short names may not hold: * ? : " < > | / \ */
  predicate Illegal(c: byte) {
    c == 0x2A || c == 0x3F || c == 0x3A || c == 0x22 || c == 0x3C || c == 0x3E || c == 0x7C || c == 0x2F || c == 0x5C
  }

  function Upper(c: byte): byte {
    if 0x61 <= c <= 0x7A then c - 32 else c
  }

  /** The legal characters of s, in upper case. */
  function Cleaned(s: seq<byte>): (r: seq<byte>)
    ensures |r| <= |s|
    decreases |s|
  {
    if s == [] then [] else
      var rest, c := Cleaned(s[..|s| - 1]), s[|s| - 1];
      if Illegal(c) then rest else rest + [Upper(c)]
  }

  function Take(s: seq<byte>, n: nat): seq<byte> {
    if |s| <= n then s else s[..n]
  }

  lemma {:induction false} CleanedPrefix(s: seq<byte>, n: nat)
    requires n <= |s|
    ensures Cleaned(s[..n]) <= Cleaned(s)
    decreases |s|
  {
    if n == |s| {
      assert s[..n] == s;
    } else {
      assert s[..|s| - 1][..n] == s[..n];
      CleanedPrefix(s[..|s| - 1], n);
    }
  }

  /** The filter loops of the formatter: the first max cleaned characters. */
  method Clean(src: seq<byte>, max: nat) returns (out: seq<byte>)
    ensures out == Take(Cleaned(src), max)
  {
    out := [];
    var i := 0;
    while i < |src| && |out| < max
      invariant i <= |src| && |out| <= max && out == Cleaned(src[..i])
    {
      assert src[..i + 1][..i] == src[..i];
      if !Illegal(src[i]) { out := out + [Upper(src[i])]; }
      i := i + 1;
    }
    CleanedPrefix(src, i);
    assert src[..|src|] == src;
  }

  /** The index of the first dot, or the length. */
  function FirstDot(name: seq<byte>): (d: nat)
    ensures d <= |name| && (d < |name| ==> name[d] == DOT) && forall i | 0 <= i < d :: name[i] != DOT
  {
    if name == [] || name[0] == DOT then 0 else 1 + FirstDot(name[1..])
  }

  function Extension(name: seq<byte>): seq<byte> {
    if FirstDot(name) < |name| then name[FirstDot(name) + 1..] else []
  }

  function Pad(s: seq<byte>, n: nat): (r: seq<byte>)
    requires |s| <= n
    ensures |r| == n
  {
    s + seq(n - |s|, _ => SPACE)
  }

  /** Lay out an 8.3 name; a first byte that would read as "deleted" is stored as 0x05. */
  function Layout(stem: seq<byte>, ext: seq<byte>): (sn: seq<byte>)
    requires |stem| <= 8 && |ext| <= 3
    ensures |sn| == NAME_LEN
  {
    var sn := Pad(stem, 8) + Pad(ext, 3);
    if sn[0] == DELETED then sn[0 := 5] else sn
  }

  // ---- decimal counters ----

  function Decimal(n: nat): (r: seq<byte>)
    ensures |r| > 0 && forall i | 0 <= i < |r| :: 0x30 <= r[i] <= 0x39
  {
    if n < 10 then [0x30 + n] else Decimal(n / 10) + [0x30 + n % 10]
  }

  lemma {:induction false} DecimalInjective(n: nat, m: nat)
    requires Decimal(n) == Decimal(m)
    ensures n == m
  {
    var a, b := Decimal(n), Decimal(m);
    assert a[|a| - 1] == 0x30 + n % 10 && b[|b| - 1] == 0x30 + m % 10;
    if n >= 10 && m >= 10 {
      assert a[..|a| - 1] == Decimal(n / 10) && b[..|b| - 1] == Decimal(m / 10);
      DecimalInjective(n / 10, m / 10);
    }
  }

  lemma {:induction false} DecimalLength(n: nat, k: nat, bound: nat)
    requires n < bound && bound == Tens(k) && k > 0
    ensures |Decimal(n)| <= k
    decreases k
  {
    if n >= 10 { DecimalLength(n / 10, k - 1, bound / 10); }
  }

  function Tens(k: nat): nat {
    if k == 0 then 1 else 10 * Tens(k - 1)
  }

  // ---- mangled names ----

  /** NAME~n.EXT: the counter, cut into the first seven characters. */
  function Mangled(stem: seq<byte>, ext: seq<byte>, n: nat): (sn: seq<byte>)
    requires |ext| <= 3 && |Decimal(n)| <= 6
    ensures |sn| == NAME_LEN
  {
    Layout(Take(stem, 6 - |Decimal(n)|) + [TILDE] + Decimal(n), ext)
  }

  predicate Digits(d: seq<byte>) {
    forall i | 0 <= i < |d| :: 0x30 <= d[i] <= 0x39
  }

  /** The stem field of sn has a tilde at p, then the digits d, then spaces. */
  ghost predicate Counter(sn: seq<byte>, p: nat, d: seq<byte>) {
    && |sn| == NAME_LEN && p + 1 + |d| <= 7 && sn[p] == TILDE && Digits(d) && sn[p + 1..p + 1 + |d|] == d
    && forall j | p + 1 + |d| <= j < 8 :: sn[j] == SPACE
  }

  lemma CounterLaid(a: seq<byte>, d: seq<byte>, ext: seq<byte>)
    requires |a| + |d| <= 6 && Digits(d) && |ext| <= 3
    ensures Counter(Layout(a + [TILDE] + d, ext), |a|, d)
  {
    var s := a + [TILDE] + d;
    var sn := Layout(s, ext);
    assert Pad(s, 8)[|a|] == TILDE;
    forall j | 1 <= j < 8 ensures sn[j] == Pad(s, 8)[j] { }
    assert sn[|a| + 1..|a| + 1 + |d|] == d;
  }

  /** The last tilde of the stem field starts the counter. */
  lemma CounterAfter(sn: seq<byte>, p: nat, d: seq<byte>, j: nat)
    requires Counter(sn, p, d) && p < j < 8
    ensures sn[j] != TILDE
  {
    if j < p + 1 + |d| { assert sn[j] == d[j - p - 1]; }
  }

  lemma CounterUnique(sn: seq<byte>, p: nat, d: seq<byte>, q: nat, e: seq<byte>)
    requires Counter(sn, p, d) && Counter(sn, q, e) && |d| <= |e|
    ensures d == e
  {
    if p < q { CounterAfter(sn, p, d, q); } else if q < p { CounterAfter(sn, q, e, p); }
    assert sn[p + 1 + |d|] == SPACE;
    assert forall i {:trigger e[i]} | 0 <= i < |e| :: e[i] == sn[q + 1 + i];
  }

  /** Distinct counters give distinct names. */
  lemma MangledInjective(stem: seq<byte>, ext: seq<byte>, n: nat, m: nat)
    requires |ext| <= 3 && |Decimal(n)| <= 6 && |Decimal(m)| <= 6 && Mangled(stem, ext, n) == Mangled(stem, ext, m)
    ensures n == m
  {
    var sn, d, e := Mangled(stem, ext, n), Decimal(n), Decimal(m);
    var a, b := Take(stem, 6 - |d|), Take(stem, 6 - |e|);
    CounterLaid(a, d, ext);
    CounterLaid(b, e, ext);
    if |d| <= |e| { CounterUnique(sn, |a|, d, |b|, e); } else { CounterUnique(sn, |b|, e, |a|, d); }
    DecimalInjective(n, m);
  }

  // ---- the search ----

  /** Slots in use. */
  ghost function CountUsed(slots: seq<Slot>): (n: nat)
    ensures n <= |slots|
    decreases |slots|
  {
    if slots == [] then 0 else CountUsed(slots[..|slots| - 1]) + if Free(slots[|slots| - 1]) then 0 else 1
  }

  lemma {:induction false} CountFreed(slots: seq<Slot>, k: nat, e: Slot)
    requires k < |slots| && !Free(slots[k]) && Free(e)
    ensures CountUsed(slots[k := e]) + 1 == CountUsed(slots)
    decreases |slots|
  {
    var n, slots' := |slots| - 1, slots[k := e];
    if k < n {
      CountFreed(slots[..n], k, e);
      assert slots'[..n] == slots[..n][k := e];
    } else {
      assert slots'[..n] == slots[..n];
    }
  }

  /** Pigeonhole: distinct names that are all taken need as many slots in use. */
  lemma {:induction false} Pigeonhole(slots: seq<Slot>, names: seq<seq<byte>>)
    requires forall i | 0 <= i < |names| :: Taken(slots, names[i])
    requires forall i, j | 0 <= i < j < |names| :: names[i] != names[j]
    ensures |names| <= CountUsed(slots)
    decreases |names|
  {
    if names != [] {
      var n := |names| - 1;
      var k :| 0 <= k < |slots| && !Free(slots[k]) && NameOf(slots[k]) == names[n];
      var e: Slot := Zeros(SLOT_SIZE);
      var slots': seq<Slot> := slots[k := e];
      CountFreed(slots, k, e);
      forall i | 0 <= i < n ensures Taken(slots', names[i]) {
        var j :| 0 <= j < |slots| && !Free(slots[j]) && NameOf(slots[j]) == names[i];
        assert slots'[j] == slots[j];
      }
      Pigeonhole(slots', names[..n]);
    }
  }

  /** A name fit for an entry in use: neither free, nor one of the dot entries, nor padded with zeros. */
  predicate Proper(sn: seq<byte>) {
    |sn| == NAME_LEN && sn[0] != DELETED && sn[0] != DOT && forall i | 0 <= i < NAME_LEN :: sn[i] != 0
  }

  ghost predicate NoNul(s: seq<byte>) {
    forall i | 0 <= i < |s| :: s[i] != 0
  }

  ghost predicate Plain(s: seq<byte>) {
    forall i | 0 <= i < |s| :: s[i] != 0 && s[i] != DOT
  }

  lemma {:induction false} CleanedKeeps(s: seq<byte>)
    ensures NoNul(s) ==> NoNul(Cleaned(s))
    ensures Plain(s) ==> Plain(Cleaned(s))
    decreases |s|
  {
    if s != [] { CleanedKeeps(s[..|s| - 1]); }
  }

  lemma LayoutProper(stem: seq<byte>, ext: seq<byte>)
    requires |stem| <= 8 && |ext| <= 3 && Plain(stem) && NoNul(ext)
    ensures Proper(Layout(stem, ext))
  {
    var sn := Pad(stem, 8) + Pad(ext, 3);
    forall i | 0 <= i < NAME_LEN ensures sn[i] != 0 { }
    assert sn[0] != DOT;
  }

  // format_short_name
  method FormatShort(name: seq<byte>) returns (sn: seq<byte>)
    requires NoNul(name)
    ensures sn == PlainShort(name) && Proper(sn)
  {
    var dot := FirstDot(name);
    var stem := Clean(Take(name[..dot], 8), 8);
    var ext := Clean(Take(Extension(name), 3), 3);
    CleanedKeeps(Take(name[..dot], 8));
    CleanedKeeps(Take(Extension(name), 3));
    LayoutProper(stem, ext);
    sn := Layout(stem, ext);
  }

  /** Every counter the search tries has at most six digits. */
  lemma TryLength(n: nat)
    requires n <= MAX_TRIES
    ensures |Decimal(n)| <= 6
  {
    assert Tens(6) == 1_000_000;
    DecimalLength(n, 6, Tens(6));
  }

  /** Names for the counters 1, 2, … that have been tried. */
  ghost predicate Tried(names: seq<seq<byte>>, stem: seq<byte>, ext: seq<byte>)
    requires |ext| <= 3 && |names| <= MAX_TRIES
  {
    forall i | 0 <= i < |names| :: |Decimal(i + 1)| <= 6 && names[i] == Mangled(stem, ext, i + 1)
  }

  lemma TriedMore(names: seq<seq<byte>>, stem: seq<byte>, ext: seq<byte>, n: nat)
    requires |ext| <= 3 && |names| < MAX_TRIES && Tried(names, stem, ext) && n == |names| + 1 && |Decimal(n)| <= 6
    ensures Tried(names + [Mangled(stem, ext, n)], stem, ext)
  {
  }

  /** When every counter's name is taken, the directory has that many slots in use. */
  lemma AllTried(slots: seq<Slot>, names: seq<seq<byte>>, stem: seq<byte>, ext: seq<byte>)
    requires |ext| <= 3 && |names| <= MAX_TRIES && Tried(names, stem, ext) && AllSeen(slots, names)
    ensures |names| <= CountUsed(slots)
  {
    forall i, j | 0 <= i < j < |names| ensures names[i] != names[j] {
      if names[i] == names[j] { MangledInjective(stem, ext, i + 1, j + 1); }
    }
    forall i | 0 <= i < |names| ensures Taken(slots, names[i]) { SeenTaken(slots, names[i]); }
    Pigeonhole(slots, names);
  }

  lemma MangledProper(stem: seq<byte>, ext: seq<byte>, n: nat)
    requires |ext| <= 3 && |Decimal(n)| <= 6 && Plain(stem) && NoNul(ext)
    ensures Proper(Mangled(stem, ext, n))
  {
    LayoutProper(Take(stem, 6 - |Decimal(n)|) + [TILDE] + Decimal(n), ext);
  }

  ghost predicate AllSeen(slots: seq<Slot>, names: seq<seq<byte>>) {
    forall i {:trigger names[i]} | 0 <= i < |names| :: Seen(slots, names[i])
  }

  /** The name with counter n is seen in the directory. */
  ghost predicate SeenAt(slots: seq<Slot>, stem: seq<byte>, ext: seq<byte>, n: nat)
    requires |ext| <= 3
  {
    |Decimal(n)| <= 6 && Seen(slots, Mangled(stem, ext, n))
  }

  /** sn is the name with the lowest counter that is not seen, or with the last one when all are. */
  ghost predicate Lowest(slots: seq<Slot>, stem: seq<byte>, ext: seq<byte>, n: nat, sn: seq<byte>)
    requires |ext| <= 3
  {
    && 1 <= n <= MAX_TRIES && |Decimal(n)| <= 6 && sn == Mangled(stem, ext, n)
    && (forall k: nat {:trigger SeenAt(slots, stem, ext, k)} | 1 <= k < n :: SeenAt(slots, stem, ext, k))
    && (SeenAt(slots, stem, ext, n) ==> n == MAX_TRIES)
  }

  /** So far the names with the counters before n are seen; the name with counter n is too, or it is sn. */
  ghost predicate Going(slots: seq<Slot>, stem: seq<byte>, ext: seq<byte>, names: seq<seq<byte>>, n: nat, sn: seq<byte>,
      taken: bool)
    requires |ext| <= 3
  {
    && |names| == (if taken then n else n - 1) <= MAX_TRIES && Tried(names, stem, ext) && AllSeen(slots, names)
    && SeenTo(slots, stem, ext, |names|) && (n > 0 ==> IsCounted(stem, ext, n, sn)) && (!taken ==> !Seen(slots, sn))
  }

  ghost predicate SeenTo(slots: seq<Slot>, stem: seq<byte>, ext: seq<byte>, n: nat)
    requires |ext| <= 3
  {
    forall k: nat {:trigger SeenAt(slots, stem, ext, k)} | 1 <= k <= n :: SeenAt(slots, stem, ext, k)
  }

  ghost predicate IsCounted(stem: seq<byte>, ext: seq<byte>, n: nat, sn: seq<byte>)
    requires |ext| <= 3
  {
    |Decimal(n)| <= 6 && sn == Mangled(stem, ext, n) && Proper(sn)
  }

  lemma SeenMore(slots: seq<Slot>, stem: seq<byte>, ext: seq<byte>, names: seq<seq<byte>>, sn: seq<byte>)
    requires |ext| <= 3 && AllSeen(slots, names) && SeenTo(slots, stem, ext, |names|) && Seen(slots, sn)
    requires IsCounted(stem, ext, |names| + 1, sn)
    ensures AllSeen(slots, names + [sn]) && SeenTo(slots, stem, ext, |names| + 1)
  {
    assert SeenAt(slots, stem, ext, |names| + 1);
  }

  lemma GoingOn(slots: seq<Slot>, stem: seq<byte>, ext: seq<byte>, names: seq<seq<byte>>, n: nat, sn: seq<byte>,
      sn': seq<byte>, taken: bool)
    returns (names': seq<seq<byte>>)
    requires |ext| <= 3 && Plain(stem) && NoNul(ext) && n < MAX_TRIES && Going(slots, stem, ext, names, n, sn, true)
    requires |Decimal(n + 1)| <= 6 && sn' == Mangled(stem, ext, n + 1) && taken == Seen(slots, sn')
    ensures Going(slots, stem, ext, names', n + 1, sn', taken)
  {
    MangledProper(stem, ext, n + 1);
    assert IsCounted(stem, ext, n + 1, sn');
    names' := names;
    if taken {
      TriedMore(names, stem, ext, n + 1);
      SeenMore(slots, stem, ext, names, sn');
      names' := names + [sn'];
    }
  }

  lemma GoingEnds(slots: seq<Slot>, stem: seq<byte>, ext: seq<byte>, names: seq<seq<byte>>, n: nat, sn: seq<byte>,
      taken: bool)
    requires |ext| <= 3 && 0 < n <= MAX_TRIES && Going(slots, stem, ext, names, n, sn, taken)
    requires taken ==> n == MAX_TRIES
    ensures Proper(sn) && Lowest(slots, stem, ext, n, sn) && (CountUsed(slots) < MAX_TRIES ==> !Seen(slots, sn))
  {
    AllTried(slots, names, stem, ext);
  }

  /** Try NAME~1, NAME~2, … until a name is free. */
  method TryCounters(vol: Volume, stem: seq<byte>, ext: seq<byte>, first: u32, ghost cs: seq<int>)
    returns (sn: seq<byte>, ghost at: nat)
    requires vol.Valid() && IsChain(vol.v.fat, |vol.v.data|, cs) && |cs| > 0 && first == cs[0]
    requires |ext| <= 3 && Plain(stem) && NoNul(ext)
    ensures Proper(sn) && Lowest(Dir(vol.v.data, cs), stem, ext, at, sn)
    ensures CountUsed(Dir(vol.v.data, cs)) < MAX_TRIES ==> !Seen(Dir(vol.v.data, cs), sn)
  {
    ghost var slots, names := Dir(vol.v.data, cs), [];
    var n, taken := 0, true;
    sn := stem;
    while taken && n < MAX_TRIES
      invariant n <= MAX_TRIES && (n == 0 ==> taken) && Going(slots, stem, ext, names, n, sn, taken)
    {
      TryLength(n + 1);
      var next := Mangled(stem, ext, n + 1);
      taken := NameExists(vol, first, next, cs);
      names := GoingOn(slots, stem, ext, names, n, sn, next, taken);
      n, sn := n + 1, next;
    }
    at := n;
    GoingEnds(slots, stem, ext, names, n, sn, taken);
  }

  /** What a mangled name keeps of the long one. */
  method CounterParts(name: seq<byte>) returns (stem: seq<byte>, ext: seq<byte>)
    requires NoNul(name)
    ensures stem == Take(Cleaned(name[..FirstDot(name)]), 6) && ext == Take(Cleaned(Extension(name)), 3)
    ensures Plain(stem) && NoNul(ext)
  {
    CleanedKeeps(name[..FirstDot(name)]);
    CleanedKeeps(Extension(name));
    stem := Clean(name[..FirstDot(name)], 6);
    ext := Clean(Extension(name), 3);
  }

  /** The cleaned, padded 8.3 form of a name. */
  function PlainShort(name: seq<byte>): seq<byte> {
    Layout(Cleaned(Take(name[..FirstDot(name)], 8)), Cleaned(Take(Extension(name), 3)))
  }

  /** sn is the plain short name if no scanned slot has it, else the lowest unseen mangled name, else the last one. */
  ghost predicate Chosen(slots: seq<Slot>, name: seq<byte>, sn: seq<byte>) {
    if !Seen(slots, PlainShort(name)) then sn == PlainShort(name)
    else exists n: nat ::
      Lowest(slots, Take(Cleaned(name[..FirstDot(name)]), 6), Take(Cleaned(Extension(name)), 3), n, sn)
  }

  // format_short_name_unique
  method UniqueShort(vol: Volume, name: seq<byte>, first: u32, ghost cs: seq<int>) returns (sn: seq<byte>)
    requires vol.Valid() && IsChain(vol.v.fat, |vol.v.data|, cs) && |cs| > 0 && first == cs[0] && NoNul(name)
    ensures Proper(sn) && Chosen(Dir(vol.v.data, cs), name, sn)
    ensures CountUsed(Dir(vol.v.data, cs)) < MAX_TRIES ==> !Seen(Dir(vol.v.data, cs), sn)
  {
    sn := FormatShort(name);
    var taken := NameExists(vol, first, sn, cs);
    if taken {
      var stem, ext := CounterParts(name);
      ghost var n;
      sn, n := TryCounters(vol, stem, ext, first, cs);
    }
  }

  // ---- the names a reload shows ----

  /** The index of the first space, or the length. */
  function FirstSpace(s: seq<byte>): (d: nat)
    ensures d <= |s| && (d < |s| ==> s[d] == SPACE) && forall i | 0 <= i < d :: s[i] != SPACE
  {
    if s == [] || s[0] == SPACE then 0 else 1 + FirstSpace(s[1..])
  }

  /** A field of a short name up to its first space. */
  function Field(s: seq<byte>): seq<byte> {
    s[..FirstSpace(s)]
  }

  /** The name shown for a short name: its stem, and its extension after a dot if there is one. */
  function Shown(sn: seq<byte>): seq<byte>
    requires |sn| == NAME_LEN
  {
    Field(sn[..8]) + if sn[8] == SPACE then [] else [DOT] + Field(sn[8..])
  }

  function Dotted(ext: seq<byte>): seq<byte> {
    if ext == [] then [] else [DOT] + ext
  }

  // parse_short_name
  method ParseShort(sn: seq<byte>) returns (name: seq<byte>)
    requires |sn| == NAME_LEN
    ensures name == Shown(sn)
  {
    var i := 0;
    while i < 8 && sn[i] != SPACE
      invariant i <= 8 && forall j | 0 <= j < i :: sn[j] != SPACE
    {
      i := i + 1;
    }
    FieldIs(sn[..8], i);
    name := sn[..i];
    if sn[8] != SPACE {
      i := 8;
      while i < NAME_LEN && sn[i] != SPACE
        invariant 8 <= i <= NAME_LEN && forall j | 8 <= j < i :: sn[j] != SPACE
      {
        i := i + 1;
      }
      FieldIs(sn[8..], i - 8);
      name := name + [DOT] + sn[8..i];
    }
  }

  lemma FieldIs(s: seq<byte>, n: nat)
    requires n <= |s| && (n < |s| ==> s[n] == SPACE) && forall j | 0 <= j < n :: s[j] != SPACE
    ensures Field(s) == s[..n]
  {
  }

  /** The fields of a short name hold nothing after their first space. */
  predicate Padded(sn: seq<byte>)
    requires |sn| == NAME_LEN
  {
    && (forall i | FirstSpace(sn[..8]) <= i < 8 :: sn[i] == SPACE)
    && forall i | 8 + FirstSpace(sn[8..]) <= i < NAME_LEN :: sn[i] == SPACE
  }

  lemma StemFrom(sn: seq<byte>)
    requires |sn| == NAME_LEN && forall i | 0 <= i < 8 :: sn[i] != DOT
    ensures FirstDot(Shown(sn)) == |Field(sn[..8])|
  {
    var name, stem := Shown(sn), Field(sn[..8]);
    assert forall i | 0 <= i < |stem| :: name[i] == sn[i];
    if sn[8] != SPACE { assert name[|stem|] == DOT; }
  }

  /** Two short names without a dot in the stem show as the same name if and only if they agree up to the first space of
      each field. */
  lemma ShownExactly(a: seq<byte>, b: seq<byte>)
    requires |a| == |b| == NAME_LEN && forall i | 0 <= i < 8 :: a[i] != DOT && b[i] != DOT
    ensures Shown(a) == Shown(b) <==> Field(a[..8]) == Field(b[..8]) && Field(a[8..]) == Field(b[8..])
  {
    StemFrom(a);
    StemFrom(b);
    ShownParts(a);
    ShownParts(b);
    if Shown(a) == Shown(b) {
      var n := |Field(a[..8])|;
      assert Shown(a)[..n] == Shown(b)[..n] && Shown(a)[n..] == Shown(b)[n..];
    }
  }

  lemma ShownParts(sn: seq<byte>)
    requires |sn| == NAME_LEN
    ensures var stem, ext := Field(sn[..8]), Field(sn[8..]);
      && Shown(sn) == stem + Dotted(ext) && Shown(sn)[..|stem|] == stem && Shown(sn)[|stem|..] == Dotted(ext)
      && (ext != [] ==> Dotted(ext)[1..] == ext)
  {
    assert sn[8..][0] == sn[8] && (sn[8] == SPACE <==> FirstSpace(sn[8..]) == 0);
  }

  /** So padded names show apart. */
  lemma ShownApart(a: seq<byte>, b: seq<byte>)
    requires |a| == |b| == NAME_LEN && (forall i | 0 <= i < 8 :: a[i] != DOT && b[i] != DOT) && Padded(a) && Padded(b)
    ensures Shown(a) == Shown(b) <==> a == b
  {
    ShownExactly(a, b);
    if Shown(a) == Shown(b) {
      forall i | 0 <= i < NAME_LEN ensures a[i] == b[i] {
        if i < |Field(a[..8])| { assert Field(a[..8])[i] == a[i] && Field(b[..8])[i] == b[i]; }
        else if 8 <= i < 8 + |Field(a[8..])| { assert Field(a[8..])[i - 8] == a[i] && Field(b[8..])[i - 8] == b[i]; }
      }
    }
  }

  /** Spaces are legal in a name, so "a b" and "a c" get different short names that a reload shows as one. */
  method ShownCollide() returns (a: seq<byte>, b: seq<byte>)
    ensures Proper(a) && Proper(b) && a != b && Shown(a) == Shown(b)
  {
    a := FormatShort([0x61, SPACE, 0x62]);
    b := FormatShort([0x61, SPACE, 0x63]);
    SpacedShort(0x62);
    SpacedShort(0x63);
    FieldIs(a[..8], 1);
    FieldIs(b[..8], 1);
    assert a[2] != b[2] && a[..8][..1] == b[..8][..1] && a[8] == b[8] == SPACE;
  }

  lemma SpacedShort(c: byte)
    requires c == 0x62 || c == 0x63
    ensures PlainShort([0x61, SPACE, c]) == Pad([0x41, SPACE, c - 32], NAME_LEN)
  {
    var name: seq<byte> := [0x61, SPACE, c];
    assert FirstDot(name) == 3 && name[..3] == name && name[..2] == [0x61, SPACE] && name[..2][..1] == [0x61];
    assert Cleaned([0x61]) == [0x41] by { assert [0x61][..0] == []; }
    assert Cleaned(name[..2]) == [0x41, SPACE];
    assert Cleaned(name) == [0x41, SPACE, c - 32];
    assert Pad([0x41, SPACE, c - 32], 8) + Pad([], 3) == Pad([0x41, SPACE, c - 32], NAME_LEN);
  }
}
