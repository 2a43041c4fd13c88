/** Little-endian fields and bitmap bits inside byte buffers, as the drivers
    read and patch them in place. */
module Bytes {

  type byte = x: int | 0 <= x < 0x100
  type u16 = x: int | 0 <= x < 0x1_0000
  type u32 = x: int | 0 <= x < 0x1_0000_0000

  function Le16(b: seq<byte>, off: nat): u16
    requires off + 2 <= |b|
  {
    b[off] as int + 0x100 * (b[off + 1] as int)
  }

  function Le32(b: seq<byte>, off: nat): u32
    requires off + 4 <= |b|
  {
    b[off] as int + 0x100 * (b[off + 1] as int) + 0x1_0000 * (b[off + 2] as int) + 0x100_0000 * (b[off + 3] as int)
  }

  function Le64(b: seq<byte>, off: nat): (r: int)
    requires off + 8 <= |b|
    ensures 0 <= r < 0x1_0000_0000_0000_0000
  {
    Le32(b, off) as int + 0x1_0000_0000 * (Le32(b, off + 4) as int)
  }

  /** Store a 16-bit field: it reads back, and no other byte moves. */
  function Put16(b: seq<byte>, off: nat, v: u16): (r: seq<byte>)
    requires off + 2 <= |b|
    ensures |r| == |b| && Le16(r, off) == v
    ensures forall i {:trigger r[i]} {:trigger b[i]} | 0 <= i < |b| && !(off <= i < off + 2) :: r[i] == b[i]
  {
    b[off := v % 0x100][off + 1 := v / 0x100]
  }

  lemma SplitWord(v: u32)
    ensures v == v % 0x100 + 0x100 * (v / 0x100 % 0x100) + 0x1_0000 * (v / 0x1_0000 % 0x100)
      + 0x100_0000 * (v / 0x100_0000)
  {
    assert v / 0x1_0000 == v / 0x100 / 0x100 && v / 0x100_0000 == v / 0x1_0000 / 0x100;
  }

  /** Store a 32-bit field: it reads back, and no other byte moves. */
  function Put32(b: seq<byte>, off: nat, v: u32): (r: seq<byte>)
    requires off + 4 <= |b|
    ensures |r| == |b| && Le32(r, off) == v
    ensures forall i {:trigger r[i]} {:trigger b[i]} | 0 <= i < |b| && !(off <= i < off + 4) :: r[i] == b[i]
  {
    SplitWord(v);
    b[off := v % 0x100][off + 1 := v / 0x100 % 0x100][off + 2 := v / 0x1_0000 % 0x100][off + 3 := v / 0x100_0000]
  }

  /** Store consecutive 32-bit fields: each reads back, and no byte outside them moves. */
  function PutWords(b: seq<byte>, off: nat, ws: seq<u32>): (r: seq<byte>)
    requires off + 4 * |ws| <= |b|
    ensures |r| == |b|
    ensures forall k | 0 <= k < |ws| :: Le32(r, off + 4 * k) == ws[k]
    ensures forall i {:trigger r[i]} {:trigger b[i]} | 0 <= i < |b| && !(off <= i < off + 4 * |ws|) :: r[i] == b[i]
    decreases |ws|
  {
    if ws == [] then b
    else
      var n := |ws| - 1;
      Put32(PutWords(b, off, ws[..n]), off + 4 * n, ws[n])
  }

  /** Overwrite a slice of a buffer. */
  function Splice(b: seq<byte>, off: nat, s: seq<byte>): (r: seq<byte>)
    requires off + |s| <= |b|
    ensures |r| == |b| && r[off..off + |s|] == s
    ensures forall i {:trigger r[i]} {:trigger b[i]} | 0 <= i < |b| && !(off <= i < off + |s|) :: r[i] == b[i]
  {
    b[..off] + s + b[off + |s|..]
  }

  function Zeros(n: nat): (r: seq<byte>)
    ensures |r| == n && forall i | 0 <= i < n :: r[i] == 0
  {
    seq(n, _ => 0)
  }

  /** Bit k of a number. */
  predicate Bit(x: nat, k: nat) {
    if k == 0 then x % 2 == 1 else Bit(x / 2, k - 1)
  }

  function Pow2(n: nat): (r: nat)
    ensures r > 0
  {
    if n == 0 then 1 else 2 * Pow2(n - 1)
  }

  /** Set bit k of an n-bit number: that bit and no other changes. */
  function WithBit(x: nat, k: nat, n: nat): (r: nat)
    requires k < n && x < Pow2(n)
    ensures r < Pow2(n)
    ensures forall j: nat :: Bit(r, j) == (j == k || Bit(x, j))
  {
    if k == 0 then x / 2 * 2 + 1 else 2 * WithBit(x / 2, k - 1, n - 1) + x % 2
  }

  /** A byte that reads 0xFF has no clear bit, so the scans may skip it. */
  lemma {:induction false} AllOnes(n: nat, k: nat)
    requires k < n
    ensures Bit(Pow2(n) - 1, k)
  {
    if k != 0 { AllOnes(n - 1, k - 1); }
  }

  /** Bit i of a bitmap: bit i % 8 of byte i / 8. */
  predicate TestBit(bm: seq<byte>, i: nat)
    requires i < 8 * |bm|
  {
    Bit(bm[i / 8], i % 8)
  }

  /** Set one bit of a bitmap: it and no other changes. */
  function SetBit(bm: seq<byte>, i: nat): (r: seq<byte>)
    requires i < 8 * |bm|
    ensures |r| == |bm|
    ensures forall j {:trigger TestBit(r, j)} {:trigger TestBit(bm, j)} | 0 <= j < 8 * |bm| ::
      TestBit(r, j) == (j == i || TestBit(bm, j))
  {
    bm[i / 8 := WithBit(bm[i / 8], i % 8, 8)]
  }
}
