/** Directory blocks: variable-length records that tile the block, the loader's
    walk over them, and linking a new entry into dead or slack space. */
module Ext2Dir {
  import opened Bytes
  import opened Ext2Layout

  /** A live directory entry as the walk reports it. */
  datatype Entry = Entry(ino: u32, name: seq<byte>, ftype: byte)

  /** Smallest record that holds a name: 8 bytes and the name, rounded up to 4. */
  function MinLen(nameLen: nat): (r: nat)
    ensures r % 4 == 0 && 8 + nameLen <= r < 8 + nameLen + 4
  {
    (8 + nameLen + 3) / 4 * 4
  }

  function RecLen(b: Block, off: nat): u16
    requires off + 8 <= BLOCK_SIZE
  {
    Le16(b, off + 4)
  }

  /** The entry of one record, if it is live and named. */
  function EntryAt(b: Block, off: nat): seq<Entry>
    requires off + 8 <= BLOCK_SIZE
  {
    if Le32(b, off) != 0 && b[off + 6] > 0 then
      var end := off + 8 + b[off + 6];
      [Entry(Le32(b, off), b[off + 8..if end <= BLOCK_SIZE then end else BLOCK_SIZE], b[off + 7])]
    else []
  }

  /** The walk from offset off to the end of the block. */
  function Walk(b: Block, off: nat): seq<Entry>
    decreases BLOCK_SIZE - off
  {
    if off + 8 > BLOCK_SIZE || RecLen(b, off) < 8 then []
    else EntryAt(b, off) + Walk(b, off + RecLen(b, off))
  }

  /** A record that fits its block and, when live, its own name. */
  predicate RecordOk(b: Block, off: nat) {
    && off + 8 <= BLOCK_SIZE && RecLen(b, off) >= 8 && off + RecLen(b, off) <= BLOCK_SIZE
    && (Le32(b, off) != 0 ==> MinLen(b[off + 6]) <= RecLen(b, off))
  }

  /** The records from off tile the rest of the block exactly. */
  predicate Tiled(b: Block, off: nat)
    decreases BLOCK_SIZE - off
  {
    off == BLOCK_SIZE || (RecordOk(b, off) && Tiled(b, off + RecLen(b, off)))
  }

  /** Offset off is a record boundary met when walking from o. */
  predicate OnWalk(b: Block, o: nat, off: nat)
    decreases off - o
  {
    o == off || (o < off && RecordOk(b, o) && OnWalk(b, o + RecLen(b, o), off))
  }

  // ---- walks over blocks that agree on a range ----

  /** The entries of the records from o up to boundary off. */
  function Before(b: Block, o: nat, off: nat): seq<Entry>
    requires OnWalk(b, o, off)
    decreases off - o
  {
    if o == off then [] else EntryAt(b, o) + Before(b, o + RecLen(b, o), off)
  }

  lemma {:induction false} WalkSplit(b: Block, o: nat, off: nat)
    requires OnWalk(b, o, off)
    ensures o <= off && Walk(b, o) == Before(b, o, off) + Walk(b, off)
    decreases off - o
  {
    if o != off {
      var next := o + RecLen(b, o);
      WalkSplit(b, next, off);
      Regroup(EntryAt(b, o), Before(b, next, off), Walk(b, off));
    }
  }

  /** A record reads the same wherever its own bytes are the same. */
  lemma RecordFrame(b: Block, b': Block, off: nat)
    requires RecordOk(b, off) && forall i | off <= i < off + RecLen(b, off) :: b'[i] == b[i]
    ensures RecordOk(b', off) && RecLen(b', off) == RecLen(b, off) && EntryAt(b', off) == EntryAt(b, off)
  {
    assert Le32(b', off) == Le32(b, off) && RecLen(b', off) == RecLen(b, off) && b'[off + 6] == b[off + 6]
      && b'[off + 7] == b[off + 7];
    if Le32(b, off) != 0 {
      var end := off + 8 + b[off + 6];
      assert b'[off + 8..end] == b[off + 8..end];
    }
  }

  lemma {:induction false} SuffixFrame(b: Block, b': Block, off: nat)
    requires Tiled(b, off) && forall i | off <= i < BLOCK_SIZE :: b'[i] == b[i]
    ensures Walk(b', off) == Walk(b, off) && Tiled(b', off)
    decreases BLOCK_SIZE - off
  {
    if off < BLOCK_SIZE {
      RecordFrame(b, b', off);
      SuffixFrame(b, b', off + RecLen(b, off));
    }
  }

  lemma {:induction false} PrefixFrame(b: Block, b': Block, o: nat, off: nat)
    requires OnWalk(b, o, off) && off <= BLOCK_SIZE && forall i | o <= i < off :: b'[i] == b[i]
    ensures OnWalk(b', o, off) && Before(b', o, off) == Before(b, o, off)
    ensures Tiled(b', off) ==> Tiled(b', o)
    decreases off - o
  {
    if o != off {
      WalkSplit(b, o + RecLen(b, o), off);
      RecordFrame(b, b', o);
      PrefixFrame(b, b', o + RecLen(b, o), off);
    }
  }

  // ---- linking an entry ----

  /** s is t with e inserted at some place. */
  ghost predicate Inserted(t: seq<Entry>, s: seq<Entry>, e: Entry) {
    exists k | 0 <= k <= |t| :: s == t[..k] + [e] + t[k..]
  }

  lemma InsertedAfter(a: seq<Entry>, x: seq<Entry>, e: Entry, c: seq<Entry>)
    ensures Inserted(a + x + c, a + (x + [e]) + c, e)
  {
    var t := a + x + c;
    assert t[..|a + x|] == a + x && t[|a + x|..] == c;
    assert a + (x + [e]) + c == t[..|a + x|] + [e] + t[|a + x|..];
  }

  /** b and b' agree outside [lo, hi). */
  ghost predicate Agree(b: Block, b': Block, lo: nat, hi: nat) {
    forall i {:trigger b'[i]} {:trigger b[i]} | 0 <= i < BLOCK_SIZE && !(lo <= i < hi) :: b'[i] == b[i]
  }

  /** b' holds entry e in a record of length recLen at off, and agrees with b outside [lo, hi). */
  ghost predicate Holds(b: Block, b': Block, off: nat, recLen: nat, e: Entry, lo: nat, hi: nat) {
    && off + recLen <= BLOCK_SIZE && 8 <= MinLen(|e.name|) <= recLen
    && RecLen(b', off) == recLen && EntryAt(b', off) == (if e.ino != 0 then [e] else []) && Le32(b', off) == e.ino
    && b'[off + 6] == |e.name|
    && Agree(b, b', lo, hi)
  }

  /** dirent_put: fill a record's header and name. */
  method DirentPut(b: Block, off: nat, recLen: u16, e: Entry) returns (b': Block)
    requires 0 < |e.name| < 0x100 && MinLen(|e.name|) <= recLen && off + recLen <= BLOCK_SIZE
    ensures Holds(b, b', off, recLen, e, off, off + recLen)
  {
    b' := Put32(b, off, e.ino);
    b' := Put16(b', off + 4, recLen);
    b' := b'[off + 6 := |e.name|][off + 7 := e.ftype];
    b' := Splice(b', off + 8, e.name);
  }

  /** Rewriting the records between two boundaries so that they list e last. */
  lemma Rewrite(b: Block, b': Block, off: nat, next: nat, mid: seq<Entry>, e: Entry)
    requires OnWalk(b, 0, off) && off <= next <= BLOCK_SIZE && Tiled(b, next) && Agree(b, b', off, next)
    requires Walk(b, off) == mid + Walk(b, next)
    requires Tiled(b', next) ==> Tiled(b', off) && Walk(b', off) == mid + [e] + Walk(b', next)
    ensures Tiled(b', 0) && Inserted(Walk(b, 0), Walk(b', 0), e)
  {
    SuffixFrame(b, b', next);
    PrefixFrame(b, b', 0, off);
    WalkSplit(b, 0, off);
    WalkSplit(b', 0, off);
    Regroup(Before(b, 0, off), mid, Walk(b, next));
    Regroup(Before(b, 0, off), mid + [e], Walk(b, next));
    InsertedAfter(Before(b, 0, off), mid, e, Walk(b, next));
  }

  lemma Regroup(a: seq<Entry>, b: seq<Entry>, c: seq<Entry>)
    ensures a + b + c == a + (b + c)
  {
  }

  lemma WalkStep(b: Block, off: nat)
    requires RecordOk(b, off)
    ensures Walk(b, off) == EntryAt(b, off) + Walk(b, off + RecLen(b, off))
    ensures Tiled(b, off) == Tiled(b, off + RecLen(b, off))
  {
  }

  /** Two records in a row, the second holding e. */
  lemma TwoSteps(b: Block, off: nat, mine: nat, rest: nat, e: Entry)
    requires RecordOk(b, off) && RecLen(b, off) == mine && RecordOk(b, off + mine) && RecLen(b, off + mine) == rest
    requires EntryAt(b, off + mine) == [e]
    ensures Walk(b, off) == EntryAt(b, off) + [e] + Walk(b, off + mine + rest)
    ensures Tiled(b, off) == Tiled(b, off + mine + rest)
  {
    WalkStep(b, off);
    WalkStep(b, off + mine);
    Regroup(EntryAt(b, off), [e], Walk(b, off + mine + rest));
  }

  lemma HoldsRecord(b: Block, b': Block, off: nat, recLen: nat, e: Entry, lo: nat, hi: nat)
    requires Holds(b, b', off, recLen, e, lo, hi)
    ensures RecordOk(b', off)
  {
  }

  /** Reusing a dead record. */
  lemma FillDead(b: Block, b': Block, off: nat, len: nat, e: Entry)
    requires OnWalk(b, 0, off) && RecordOk(b, off) && RecLen(b, off) == len && EntryAt(b, off) == []
    requires Tiled(b, off + len)
    requires RecordOk(b', off) && RecLen(b', off) == len && EntryAt(b', off) == [e] && Agree(b, b', off, off + len)
    ensures Tiled(b', 0) && Inserted(Walk(b, 0), Walk(b', 0), e)
  {
    WalkStep(b, off);
    WalkStep(b', off);
    assert [] + [e] == [e];
    Rewrite(b, b', off, off + len, [], e);
  }

  /** Splitting the slack off a live record: b' has the record cut to length mine and e in the rest. */
  lemma SplitLive(b: Block, b': Block, off: nat, mine: nat, rest: nat, e: Entry)
    requires OnWalk(b, 0, off) && RecordOk(b, off) && Tiled(b, off + mine + rest) && RecLen(b, off) == mine + rest
    requires RecordOk(b', off) && RecLen(b', off) == mine && EntryAt(b', off) == EntryAt(b, off)
    requires RecordOk(b', off + mine) && RecLen(b', off + mine) == rest && EntryAt(b', off + mine) == [e]
    requires Agree(b, b', off, off + mine + rest)
    ensures Tiled(b', 0) && Inserted(Walk(b, 0), Walk(b', 0), e)
  {
    WalkStep(b, off);
    TwoSteps(b', off, mine, rest, e);
    Rewrite(b, b', off, off + mine + rest, EntryAt(b, off), e);
  }

  /** A live record cut to its minimal length keeps its entry. */
  lemma ShrinkRecord(b: Block, b1: Block, b': Block, off: nat, mine: u16, rest: nat)
    requires RecordOk(b, off) && Le32(b, off) != 0 && mine == MinLen(b[off + 6]) && RecLen(b, off) == mine + rest
    requires RecLen(b1, off) == mine && Agree(b, b1, off + 4, off + 6) && Agree(b1, b', off + mine, off + mine + rest)
    ensures RecordOk(b', off) && RecLen(b', off) == mine && EntryAt(b', off) == EntryAt(b, off)
    ensures Agree(b, b', off, off + mine + rest)
  {
    assert Le32(b', off) == Le32(b, off) && b'[off + 6] == b[off + 6] && b'[off + 7] == b[off + 7];
    var end := off + 8 + b[off + 6];
    assert b'[off + 8..end] == b[off + 8..end];
  }

  // ---- scanning a block for room ----

  lemma {:induction false} WalkOn(b: Block, o: nat, off: nat)
    requires OnWalk(b, o, off) && RecordOk(b, off)
    ensures OnWalk(b, o, off + RecLen(b, off))
    decreases off - o
  {
    if o == off {
      assert OnWalk(b, off + RecLen(b, off), off + RecLen(b, off));
    } else {
      WalkSplit(b, o + RecLen(b, o), off);
      WalkOn(b, o + RecLen(b, o), off);
    }
  }

  /** Two boundaries of one walk lie on one walk. */
  lemma {:induction false} OneWalk(b: Block, o: nat, p: nat, q: nat)
    requires OnWalk(b, o, p) && OnWalk(b, o, q) && p <= q
    ensures OnWalk(b, p, q)
    decreases p - o
  {
    if o < p {
      WalkSplit(b, o + RecLen(b, o), p);
      OneWalk(b, o + RecLen(b, o), p, q);
    }
  }

  /** The record at off has room for an entry of size need. */
  predicate Room(b: Block, off: nat, need: nat)
    requires RecordOk(b, off)
  {
    if Le32(b, off) == 0 then RecLen(b, off) >= need else RecLen(b, off) >= MinLen(b[off + 6]) + need
  }

  /** No record of the block has room. */
  ghost predicate Full(b: Block, need: nat) {
    forall o {:trigger OnWalk(b, 0, o)} | 0 <= o < BLOCK_SIZE && OnWalk(b, 0, o) && RecordOk(b, o) :: !Room(b, o, need)
  }

  /** Link e at a record with room: reuse it when dead, else split its slack off. */
  method LinkAt(b: Block, off: nat, e: Entry) returns (b': Block)
    requires OnWalk(b, 0, off) && RecordOk(b, off) && Tiled(b, off + RecLen(b, off))
    requires 0 < |e.name| < 0x100 && e.ino != 0 && Room(b, off, MinLen(|e.name|))
    ensures Tiled(b', 0) && Inserted(Walk(b, 0), Walk(b', 0), e)
  {
    var recLen := RecLen(b, off);
    if Le32(b, off) == 0 {
      b' := DirentPut(b, off, recLen, e);
      HoldsRecord(b, b', off, recLen, e, off, off + recLen);
      FillDead(b, b', off, recLen, e);
    } else {
      var mine := MinLen(b[off + 6]);
      var b1 := CutRecord(b, off, mine);
      b' := DirentPut(b1, off + mine, recLen - mine, e);
      LinkedLive(b, b1, b', off, mine, recLen - mine, off + recLen, e);
    }
  }

  lemma LinkedLive(b: Block, b1: Block, b': Block, off: nat, mine: u16, rest: nat, end: nat, e: Entry)
    requires OnWalk(b, 0, off) && RecordOk(b, off) && end == off + mine + rest && Tiled(b, end) && e.ino != 0
    requires Le32(b, off) != 0 && mine == MinLen(b[off + 6]) && RecLen(b, off) == mine + rest
    requires RecLen(b1, off) == mine && Agree(b, b1, off + 4, off + 6)
    requires Holds(b1, b', off + mine, rest, e, off + mine, off + mine + rest)
    ensures Tiled(b', 0) && Inserted(Walk(b, 0), Walk(b', 0), e)
  {
    HoldsRecord(b1, b', off + mine, rest, e, off + mine, off + mine + rest);
    ShrinkRecord(b, b1, b', off, mine, rest);
    SplitLive(b, b', off, mine, rest, e);
  }

  method CutRecord(b: Block, off: nat, recLen: u16) returns (b': Block)
    requires off + 8 <= BLOCK_SIZE
    ensures RecLen(b', off) == recLen && Agree(b, b', off + 4, off + 6)
  {
    b' := Put16(b, off + 4, recLen);
  }

  lemma NoBoundaryInside(b: Block, off: nat, o: nat)
    requires OnWalk(b, 0, off) && RecordOk(b, off) && OnWalk(b, 0, o) && off < o
    ensures off + RecLen(b, off) <= o
  {
    OneWalk(b, 0, off, o);
    WalkSplit(b, off + RecLen(b, off), o);
  }

  /** Link an entry into the first record with room: the records still tile the
      block and the walk yields the old entries with e inserted. Otherwise no
      record had room and the block is untouched. */
  method LinkInBlock(b: Block, e: Entry) returns (done: bool, b': Block)
    requires Tiled(b, 0) && 0 < |e.name| < 0x100 && e.ino != 0
    ensures done ==> Tiled(b', 0) && Inserted(Walk(b, 0), Walk(b', 0), e)
    ensures !done ==> b' == b && Full(b, MinLen(|e.name|))
  {
    var need := MinLen(|e.name|);
    var off := 0;
    while off + 8 <= BLOCK_SIZE
      invariant OnWalk(b, 0, off) && Tiled(b, off)
      invariant forall o | 0 <= o < off && OnWalk(b, 0, o) && RecordOk(b, o) :: !Room(b, o, need)
      decreases BLOCK_SIZE - off
    {
      if Room(b, off, need) {
        b' := LinkAt(b, off, e);
        return true, b';
      }
      WalkOn(b, 0, off);
      forall o | off < o && OnWalk(b, 0, o) ensures off + RecLen(b, off) <= o { NoBoundaryInside(b, off, o); }
      off := off + RecLen(b, off);
    }
    return false, b;
  }

  /** A block holding e alone. */
  lemma OneRecord(b: Block, b': Block, e: Entry)
    requires Holds(b, b', 0, BLOCK_SIZE, e, 0, BLOCK_SIZE) && e.ino != 0
    ensures Tiled(b', 0) && Walk(b', 0) == [e]
  {
    WalkStep(b', 0);
    assert Walk(b', BLOCK_SIZE) == [] && [e] + [] == [e];
  }

  /** A block holding two records. */
  lemma TwoRecords(b: Block, b1: Block, b': Block, e: Entry, f: Entry, len: nat)
    requires 8 <= len <= BLOCK_SIZE - 8 && Holds(b, b1, 0, len, e, 0, len)
    requires Holds(b1, b', len, BLOCK_SIZE - len, f, len, BLOCK_SIZE)
    ensures Tiled(b', 0) && Walk(b', 0) == (if e.ino != 0 then [e] else []) + (if f.ino != 0 then [f] else [])
  {
    RecordFrame(b1, b', 0);
    WalkStep(b', 0);
    WalkStep(b', len);
    assert Walk(b', BLOCK_SIZE) == [];
    var x := EntryAt(b', len);
    assert x + [] == x;
  }

  const FT_REG_FILE: byte := 1
  const FT_DIR: byte := 2
  const DOT: seq<byte> := ['.' as int]
  const DOTDOT: seq<byte> := ['.' as int, '.' as int]

  /** The two entries a new directory lists; a zero parent is a dead record. */
  function DotEntries(self: u32, parent: u32): seq<Entry> {
    [Entry(self, DOT, FT_DIR)] + if parent == 0 then [] else [Entry(parent, DOTDOT, FT_DIR)]
  }

  /** The first block of a new directory. */
  method DotBlock(self: u32, parent: u32) returns (b: Block)
    requires self != 0
    ensures Tiled(b, 0) && Walk(b, 0) == DotEntries(self, parent)
  {
    var b1 := DirentPut(ZeroBlock(), 0, 12, Entry(self, DOT, FT_DIR));
    b := DirentPut(b1, 12, BLOCK_SIZE - 12, Entry(parent, DOTDOT, FT_DIR));
    TwoRecords(ZeroBlock(), b1, b, Entry(self, DOT, FT_DIR), Entry(parent, DOTDOT, FT_DIR), 12);
  }
}
