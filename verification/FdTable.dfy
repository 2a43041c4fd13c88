/** Open files and fd tables: two levels of reference counts under dup, dup2,
    fork, CLONE_FILES sharing and exit. */
module FdTable {
  const NULL := 0
  const LNX_MAX_FDS := 64
  const EBADF := -9

  /** An fd table (files_t): its count and its slots, NULL or the number of an open file. */
  datatype Table = Table(refs: int, fds: seq<int>)

  type Files = map<int, int>
  type Tables = map<int, Table>

  // ---- counting ----

  /** The slots that name a file. */
  ghost function SlotsOf(ts: Tables, f: int): (r: set<(int, int)>)
    ensures forall x :: x in r <==> Names(ts, x.0, x.1, f)
  {
    set t, i | t in ts && 0 <= i < |ts[t].fds| && ts[t].fds[i] == f :: (t, i)
  }

  /** Slot i of table t names the file. */
  ghost predicate Names(ts: Tables, t: int, i: int, f: int) {
    t in ts && 0 <= i < |ts[t].fds| && ts[t].fds[i] == f
  }

  /** The processes that hold a table. */
  ghost function Holders(ps: map<int, int>, t: int): set<int> {
    set p | p in ps && ps[p] == t
  }

  /** Every file's count is the slots that name it, the references lost by a dup that met a full table, and those still
      in hand. */
  ghost predicate Balanced(fs: Files, ts: Tables, lost: map<int, int>, hand: multiset<int>) {
    && lost.Keys == fs.Keys && hand[NULL] == 0 && NULL !in fs
    && (forall f {:trigger SlotsOf(ts, f)} | f in fs :: fs[f] == |SlotsOf(ts, f)| + lost[f] + hand[f])
    && (forall f {:trigger fs[f]} | f in fs :: fs[f] > 0 && lost[f] >= 0)
    && forall f {:trigger hand[f]} | hand[f] > 0 :: f in fs
  }

  /** No slot names a released file. */
  ghost predicate Live(fs: Files, ts: Tables) {
    forall t, i {:trigger ts[t].fds[i]} | t in ts && 0 <= i < |ts[t].fds| && ts[t].fds[i] != NULL :: ts[t].fds[i] in fs
  }

  /** A table's count is the processes that hold it. */
  ghost predicate Held(ts: Tables, ps: map<int, int>) {
    && NULL !in ts
    && (forall t {:trigger ts[t]} | t in ts :: |ts[t].fds| == LNX_MAX_FDS && ts[t].refs > 0)
    && (forall t {:trigger Holders(ps, t)} | t in ts :: ts[t].refs == |Holders(ps, t)|)
    && forall p {:trigger ps[p]} | p in ps && ps[p] != NULL :: ps[p] in ts
  }

  // ---- slots ----

  function SetFds(ts: Tables, t: int, fds: seq<int>): Tables
    requires t in ts
  {
    ts[t := ts[t].(fds := fds)]
  }

  lemma SlotsGrow(was: set<(int, int)>, now: set<(int, int)>, t: int, i: int, more: bool)
    requires (t, i) !in was && forall x :: x in now <==> x in was || (more && x == (t, i))
    ensures |now| == |was| + if more then 1 else 0
  {
    var want := if more then was + {(t, i)} else was;
    assert now == want;
  }

  /** Filling an empty slot adds it to the slots of that file and changes no others. */
  lemma SlotFilled(ts: Tables, t: int, i: nat, f: int, g: int)
    requires t in ts && i < |ts[t].fds| && ts[t].fds[i] == NULL && f != NULL && g != NULL
    ensures |SlotsOf(SetFds(ts, t, ts[t].fds[i := f]), g)| == |SlotsOf(ts, g)| + if g == f then 1 else 0
  {
    var ts' := SetFds(ts, t, ts[t].fds[i := f]);
    var was, now := SlotsOf(ts, g), SlotsOf(ts', g);
    forall x
      ensures x in now <==> x in was || (g == f && x == (t, i))
    { assert Names(ts', x.0, x.1, g) <==> Names(ts, x.0, x.1, g) || (g == f && x == (t, i)); }
    SlotsGrow(was, now, t, i, g == f);
  }

  /** Clearing a slot takes it from its file and changes no others. */
  lemma SlotCleared(ts: Tables, t: int, i: nat, g: int)
    requires t in ts && i < |ts[t].fds| && ts[t].fds[i] != NULL && g != NULL
    ensures |SlotsOf(SetFds(ts, t, ts[t].fds[i := NULL]), g)| + (if g == ts[t].fds[i] then 1 else 0) == |SlotsOf(ts, g)|
  {
    var ts' := SetFds(ts, t, ts[t].fds[i := NULL]);
    var was, now := SlotsOf(ts, g), SlotsOf(ts', g);
    forall x ensures x in was <==> x in now || (g == ts[t].fds[i] && x == (t, i)) {
      assert Names(ts, x.0, x.1, g) <==> Names(ts', x.0, x.1, g) || (g == ts[t].fds[i] && x == (t, i));
    }
    SlotsGrow(now, was, t, i, g == ts[t].fds[i]);
  }

  // ---- whole tables ----

  /** The slots of one table that name a file, among the first n. */
  ghost function Row(t: int, fds: seq<int>, n: nat, f: int): set<(int, int)>
    requires n <= |fds|
  {
    set i | 0 <= i < n && fds[i] == f :: (t, i)
  }

  lemma {:induction false} RowCount(t: int, fds: seq<int>, n: nat, f: int)
    requires n <= |fds|
    ensures |Row(t, fds, n, f)| == multiset(fds[..n])[f]
  {
    if n > 0 {
      RowCount(t, fds, n - 1, f);
      assert fds[..n] == fds[..n - 1] + [fds[n - 1]];
      if fds[n - 1] == f { assert Row(t, fds, n, f) == Row(t, fds, n - 1, f) + {(t, n - 1)}; }
      else { assert Row(t, fds, n, f) == Row(t, fds, n - 1, f); }
    }
  }

  /** Dropping a table takes its slots from every file. */
  lemma TableDropped(ts: Tables, t: int, f: int)
    requires t in ts
    ensures |SlotsOf(ts - {t}, f)| + multiset(ts[t].fds)[f] == |SlotsOf(ts, f)|
  {
    var fds := ts[t].fds;
    var row := Row(t, fds, |fds|, f);
    RowCount(t, fds, |fds|, f);
    assert fds[..|fds|] == fds;
    assert SlotsOf(ts, f) == SlotsOf(ts - {t}, f) + row;
    assert SlotsOf(ts - {t}, f) !! row;
  }

  /** A table with no open slots adds none. */
  lemma TableAdded(ts: Tables, t: int, m: Table, f: int)
    requires t !in ts && f != NULL && forall i | 0 <= i < |m.fds| :: m.fds[i] == NULL
    ensures |SlotsOf(ts[t := m], f)| == |SlotsOf(ts, f)|
  {
    assert SlotsOf(ts[t := m], f) == SlotsOf(ts, f);
  }

  // ---- steps that keep the balance ----

  /** Taking a reference. */
  lemma Ref(fs: Files, ts: Tables, lost: map<int, int>, hand: multiset<int>, f: int)
    requires Balanced(fs, ts, lost, hand) && f in fs
    ensures Balanced(fs[f := fs[f] + 1], ts, lost, hand + multiset{f})
  {
  }

  /** Giving back a reference in hand; at zero the file is released. */
  lemma Unref(fs: Files, ts: Tables, lost: map<int, int>, hand: multiset<int>, f: int)
    requires Balanced(fs, ts, lost, hand) && Live(fs, ts) && hand[f] > 0
    ensures fs[f] > 1 ==> Balanced(fs[f := fs[f] - 1], ts, lost, hand - multiset{f}) && Live(fs[f := fs[f] - 1], ts)
    ensures fs[f] == 1 ==> Balanced(fs - {f}, ts, lost - {f}, hand - multiset{f}) && Live(fs - {f}, ts)
  {
    if fs[f] == 1 {
      assert SlotsOf(ts, f) == {};
      forall t, i {:trigger ts[t].fds[i]} | t in ts && 0 <= i < |ts[t].fds| && ts[t].fds[i] != NULL
        ensures ts[t].fds[i] in fs - {f}
      {
        assert (t, i) !in SlotsOf(ts, f);
      }
    }
  }

  /** Putting a reference in hand into an empty slot. */
  lemma Put(fs: Files, ts: Tables, lost: map<int, int>, hand: multiset<int>, t: int, i: nat, f: int)
    requires Balanced(fs, ts, lost, hand) && Live(fs, ts) && hand[f] > 0 && t in ts && i < |ts[t].fds|
    requires ts[t].fds[i] == NULL
    ensures var ts' := SetFds(ts, t, ts[t].fds[i := f]); Balanced(fs, ts', lost, hand - multiset{f}) && Live(fs, ts')
  {
    var ts' := SetFds(ts, t, ts[t].fds[i := f]);
    forall g | g in fs
      ensures |SlotsOf(ts', g)| == |SlotsOf(ts, g)| + if g == f then 1 else 0
    { SlotFilled(ts, t, i, f, g); }
    Shift(fs, ts, ts', lost, hand - multiset{f}, hand, f);
    LiveSet(fs, ts, t, i, f);
  }

  /** Moving a reference between hand and slots keeps the balance. */
  lemma Shift(fs: Files, ts: Tables, ts': Tables, lost: map<int, int>, less: multiset<int>, more: multiset<int>, f: int)
    requires more == less + multiset{f} && f in fs
    requires forall g | g in fs :: |SlotsOf(ts', g)| == |SlotsOf(ts, g)| + if g == f then 1 else 0
    ensures Balanced(fs, ts, lost, more) ==> Balanced(fs, ts', lost, less)
    ensures Balanced(fs, ts', lost, less) ==> Balanced(fs, ts, lost, more)
  {
    assert forall g :: more[g] == less[g] + if g == f then 1 else 0;
  }

  lemma LiveSet(fs: Files, ts: Tables, t: int, i: nat, f: int)
    requires Live(fs, ts) && t in ts && i < |ts[t].fds| && (f == NULL || f in fs)
    ensures Live(fs, SetFds(ts, t, ts[t].fds[i := f]))
  {
    var ts' := SetFds(ts, t, ts[t].fds[i := f]);
    forall u, j {:trigger ts'[u].fds[j]} | u in ts' && 0 <= j < |ts'[u].fds| && ts'[u].fds[j] != NULL
      ensures ts'[u].fds[j] in fs
    {
      if u != t || j != i { assert ts'[u].fds[j] == ts[u].fds[j]; }
    }
  }

  /** Taking the reference out of a slot. */
  lemma TakeOut(fs: Files, ts: Tables, lost: map<int, int>, hand: multiset<int>, t: int, i: nat)
    requires Balanced(fs, ts, lost, hand) && Live(fs, ts) && t in ts && i < |ts[t].fds| && ts[t].fds[i] != NULL
    ensures var ts' := SetFds(ts, t, ts[t].fds[i := NULL]);
      Balanced(fs, ts', lost, hand + multiset{ts[t].fds[i]}) && Live(fs, ts')
  {
    var f := ts[t].fds[i];
    var ts' := SetFds(ts, t, ts[t].fds[i := NULL]);
    assert f in fs;
    forall g | g in fs
      ensures |SlotsOf(ts, g)| == |SlotsOf(ts', g)| + if g == f then 1 else 0
    { SlotCleared(ts, t, i, g); }
    Shift(fs, ts', ts, lost, hand, hand + multiset{f}, f);
    LiveSet(fs, ts, t, i, NULL);
  }

  /** A reference in hand that is never put back. */
  lemma Lose(fs: Files, ts: Tables, lost: map<int, int>, hand: multiset<int>, f: int)
    requires Balanced(fs, ts, lost, hand) && hand[f] > 0
    ensures f in lost && Balanced(fs, ts, lost[f := lost[f] + 1], hand - multiset{f})
  {
  }

  /** The references of a dropped table are in hand. */
  lemma DropTable(fs: Files, ts: Tables, lost: map<int, int>, t: int)
    requires Balanced(fs, ts, lost, multiset{}) && Live(fs, ts) && t in ts
    ensures Balanced(fs, ts - {t}, lost, Open(ts[t].fds)) && Live(fs, ts - {t})
  {
    var ts' := ts - {t};
    forall g {:trigger SlotsOf(ts', g)} | g in fs
      ensures fs[g] == |SlotsOf(ts', g)| + lost[g] + Open(ts[t].fds)[g]
    { TableDropped(ts, t, g); }
    forall f {:trigger Open(ts[t].fds)[f]} | Open(ts[t].fds)[f] > 0 ensures f in fs {
      assert f in multiset(ts[t].fds);
      var i :| 0 <= i < |ts[t].fds| && ts[t].fds[i] == f;
    }
    forall u, i {:trigger ts'[u].fds[i]} | u in ts' && 0 <= i < |ts'[u].fds| && ts'[u].fds[i] != NULL
      ensures ts'[u].fds[i] in fs
    { assert ts[u].fds[i] in fs; }
  }

  /** The open files among some slots. */
  ghost function Open(fds: seq<int>): multiset<int> {
    multiset(fds)[NULL := 0]
  }

  lemma AddTable(fs: Files, ts: Tables, lost: map<int, int>, hand: multiset<int>, t: int, m: Table)
    requires Balanced(fs, ts, lost, hand) && Live(fs, ts) && t !in ts && forall i | 0 <= i < |m.fds| :: m.fds[i] == NULL
    ensures Balanced(fs, ts[t := m], lost, hand) && Live(fs, ts[t := m])
  {
    var ts' := ts[t := m];
    forall g {:trigger SlotsOf(ts', g)} | g in fs
      ensures fs[g] == |SlotsOf(ts', g)| + lost[g] + hand[g]
    { TableAdded(ts, t, m, g); }
    forall u, i {:trigger ts'[u].fds[i]} | u in ts' && 0 <= i < |ts'[u].fds| && ts'[u].fds[i] != NULL
      ensures ts'[u].fds[i] in fs
    { assert u != t; assert ts[u].fds[i] in fs; }
  }

  // ---- who holds a table ----

  function SetRefs(ts: Tables, t: int, n: int): Tables
    requires t in ts
  {
    ts[t := ts[t].(refs := n)]
  }

  /** A process without a table takes up one. */
  lemma Joined(ts: Tables, ps: map<int, int>, p: int, t: int)
    requires Held(ts, ps) && t in ts && (p in ps ==> ps[p] == NULL)
    ensures Held(SetRefs(ts, t, ts[t].refs + 1), ps[p := t])
  {
    var ps' := ps[p := t];
    var ts' := SetRefs(ts, t, ts[t].refs + 1);
    forall u {:trigger Holders(ps', u)} | u in ts'
      ensures ts'[u].refs == |Holders(ps', u)|
    { OneMore(ps, ps', p, t, u); }
  }

  /** One process more holds t, and no other table. */
  lemma OneMore(ps: map<int, int>, ps': map<int, int>, p: int, t: int, u: int)
    requires ps' == ps[p := t] && (p in ps ==> ps[p] == NULL) && u != NULL && t != NULL
    ensures |Holders(ps', u)| == |Holders(ps, u)| + if u == t then 1 else 0
  {
    if u == t { assert Holders(ps', u) == Holders(ps, u) + {p}; } else { assert Holders(ps', u) == Holders(ps, u); }
  }

  /** A process without a table takes up a new one. */
  lemma Founded(ts: Tables, ps: map<int, int>, p: int, t: int, m: Table)
    requires Held(ts, ps) && t !in ts && t != NULL && (p in ps ==> ps[p] == NULL) && m.refs == 1
    requires |m.fds| == LNX_MAX_FDS
    ensures Held(ts[t := m], ps[p := t])
  {
    var ps' := ps[p := t];
    assert forall q {:trigger ps[q]} | q in ps :: ps[q] == NULL || ps[q] in ts;
    assert Holders(ps', t) == {p};
    forall u | u != NULL && u != t ensures Holders(ps', u) == Holders(ps, u) { }
  }

  /** A process lets go of its table; the last one to do so drops it. */
  lemma Left(ts: Tables, ps: map<int, int>, p: int)
    requires Held(ts, ps) && p in ps && ps[p] != NULL
    ensures var t := ps[p]; ts[t].refs > 1 ==> Held(SetRefs(ts, t, ts[t].refs - 1), ps[p := NULL])
    ensures var t := ps[p]; ts[t].refs == 1 ==> Held(ts - {t}, ps[p := NULL])
  {
    var t, ps' := ps[p], ps[p := NULL];
    assert ps == ps'[p := t];
    forall u | u != NULL
      ensures |Holders(ps, u)| == |Holders(ps', u)| + if u == t then 1 else 0
    { OneMore(ps', ps, p, t, u); }
    if ts[t].refs == 1 {
      assert Holders(ps', t) == {};
      forall q {:trigger ps'[q]} | q in ps' && ps'[q] != NULL
        ensures ps'[q] in ts - {t}
      { assert q !in Holders(ps', t); assert ps[q] in ts; }
    }
  }

  lemma SlotsHeld(ts: Tables, ps: map<int, int>, t: int, fds: seq<int>)
    requires Held(ts, ps) && t in ts && |fds| == LNX_MAX_FDS
    ensures Held(SetFds(ts, t, fds), ps)
  {
  }

  class FdLayer {
    var files: Files
    var tables: Tables
    var procs: map<int, int>
    ghost var lost: map<int, int>

    /** Counts are right, with some references in hand. */
    ghost predicate Holding(hand: multiset<int>)
      reads this
    {
      Balanced(files, tables, lost, hand) && Live(files, tables) && Held(tables, procs)
    }

    ghost predicate Valid()
      reads this
    {
      Holding(multiset{})
    }

    constructor ()
      ensures Valid() && procs == map[] && files == map[] && tables == map[] && lost == map[]
    {
      files, tables, procs, lost := map[], map[], map[], map[];
    }

    // file_ref
    method FileRef(f: int, ghost hand: multiset<int>)
      requires Holding(hand) && f in files
      modifies this`files
      ensures Holding(hand + multiset{f}) && files == old(files)[f := old(files)[f] + 1]
    {
      Ref(files, tables, lost, hand, f);
      files := files[f := files[f] + 1];
    }

    // file_close
    method FileClose(f: int, ghost hand: multiset<int>) returns (released: bool)
      requires Holding(hand) && hand[f] > 0
      modifies this`files, this`lost
      ensures Holding(hand - multiset{f}) && released == (old(files)[f] == 1)
      ensures files == (if released then old(files) - {f} else old(files)[f := old(files)[f] - 1])
      ensures lost == (if released then old(lost) - {f} else old(lost)) && LostKept(old(lost), lost)
    {
      assert f in files && files[f] == |SlotsOf(tables, f)| + lost[f] + hand[f];
      Unref(files, tables, lost, hand, f);
      released := files[f] == 1;
      if released {
        files, lost := files - {f}, lost - {f};
      } else {
        files := files[f := files[f] - 1];
      }
    }

    // file_new
    method FileNew(f: int, ghost hand: multiset<int>)
      requires Holding(hand) && f != NULL && f !in files
      modifies this`files, this`lost
      ensures Holding(hand + multiset{f}) && files == old(files)[f := 1] && lost == old(lost)[f := 0]
    {
      NewFile(files, tables, lost, hand, f);
      files, lost := files[f := 1], lost[f := 0];
    }

    // fd_install
    method Install(t: int, f: int, ghost hand: multiset<int>) returns (fd: int)
      requires Holding(hand) && t in tables && hand[f] > 0
      modifies this`tables
      ensures fd == -1 ==> tables == old(tables) && NULL !in tables[t].fds
      ensures fd != -1 ==> LowestFree(old(tables)[t].fds, fd)
      ensures fd != -1 ==> tables == SetFds(old(tables), t, old(tables)[t].fds[fd := f]) && Holding(hand - multiset{f})
    {
      var i := 0;
      while i < LNX_MAX_FDS
        invariant 0 <= i <= LNX_MAX_FDS == |tables[t].fds| && tables == old(tables)
        invariant forall j | 0 <= j < i :: tables[t].fds[j] != NULL
      {
        if tables[t].fds[i] == NULL {
          Put(files, tables, lost, hand, t, i, f);
          SlotsHeld(tables, procs, t, tables[t].fds[i := f]);
          tables := SetFds(tables, t, tables[t].fds[i := f]);
          return i;
        }
        i := i + 1;
      }
      fd := -1;
    }

    /** Take the reference out of a slot. */
    method ClearSlot(t: int, fd: nat) returns (f: int)
      requires Valid() && t in tables && fd < LNX_MAX_FDS == |tables[t].fds| && tables[t].fds[fd] != NULL
      modifies this`tables
      ensures f == old(tables)[t].fds[fd] && tables == SetFds(old(tables), t, old(tables)[t].fds[fd := NULL])
      ensures Holding(multiset{f})
    {
      f := tables[t].fds[fd];
      TakeOut(files, tables, lost, multiset{}, t, fd);
      assert multiset{} + multiset{f} == multiset{f};
      SlotsHeld(tables, procs, t, tables[t].fds[fd := NULL]);
      tables := SetFds(tables, t, tables[t].fds[fd := NULL]);
    }

    // fd_get_file
    function FileAt(p: int, fd: int): (f: int)
      requires Valid() && p in procs
      reads this
      ensures f != NULL ==> f in files && procs[p] in tables && 0 <= fd < LNX_MAX_FDS == |tables[procs[p]].fds|
      ensures f != NULL ==> tables[procs[p]].fds[fd] == f
    {
      if procs[p] == NULL || fd < 0 || fd >= LNX_MAX_FDS then NULL else tables[procs[p]].fds[fd]
    }

    /** An open: a new file in the lowest free slot, or closed again if the table is full. */
    method OpenFile(p: int, f: int) returns (fd: int)
      requires Valid() && p in procs && f != NULL && f !in files
      modifies this
      ensures Valid() && procs == old(procs)
      ensures fd == -1 ==> (procs[p] == NULL || NULL !in old(tables)[procs[p]].fds) && tables == old(tables)
      ensures fd == -1 ==> files == old(files)
      ensures fd != -1 ==> procs[p] != NULL && LowestFree(old(tables)[procs[p]].fds, fd)
      ensures fd != -1 ==> tables == SetFds(old(tables), procs[p], old(tables)[procs[p]].fds[fd := f])
      ensures fd != -1 ==> files == old(files)[f := 1]
      ensures LostKept(old(lost), lost)
    {
      FileNew(f, multiset{});
      assert multiset{} + multiset{f} == multiset{f} && multiset{f} - multiset{f} == multiset{};
      fd := -1;
      if procs[p] != NULL { fd := Install(procs[p], f, multiset{f}); }
      if fd == -1 {
        var _ := FileClose(f, multiset{f});
        assert files == old(files);
      }
    }

    // fd_close
    method Close(p: int, fd: int) returns (r: int)
      requires Valid() && p in procs
      modifies this`files, this`tables, this`lost
      ensures Valid() && (r == 0 || r == EBADF) && (r == EBADF <==> old(FileAt(p, fd)) == NULL)
      ensures r == EBADF ==> unchanged(this)
      ensures r == 0 ==> tables == SetFds(old(tables), procs[p], old(tables)[procs[p]].fds[fd := NULL])
      ensures r == 0 ==> files == Dropped(old(files), old(FileAt(p, fd)))
      ensures LostKept(old(lost), lost)
    {
      var f := FileAt(p, fd);
      if f == NULL { return EBADF; }
      f := ClearSlot(procs[p], fd);
      assert multiset{f} - multiset{f} == multiset{};
      var _ := FileClose(f, multiset{f});
      r := 0;
    }

    // fd_dup: when the table is full the new reference is never given back
    method Dup(p: int, fd: int) returns (r: int)
      requires Valid() && p in procs
      modifies this
      ensures Valid() && procs == old(procs) && (r == EBADF <==> old(FileAt(p, fd)) == NULL)
      ensures (r == EBADF ==> unchanged(this))
      ensures var f := old(FileAt(p, fd)); r != EBADF ==> files == old(files)[f := old(files)[f] + 1]
      ensures var f := old(FileAt(p, fd)); r == -1 ==>
        tables == old(tables) && NULL !in tables[procs[p]].fds && lost == old(lost)[f := old(lost)[f] + 1]
      ensures var f := old(FileAt(p, fd)); r >= 0 ==>
        && LowestFree(old(tables)[procs[p]].fds, r) && lost == old(lost)
        && tables == SetFds(old(tables), procs[p], old(tables)[procs[p]].fds[r := f])
      ensures r >= 0 || r == -1 || r == EBADF
    {
      var f := FileAt(p, fd);
      if f == NULL { return EBADF; }
      FileRef(f, multiset{});
      assert multiset{} + multiset{f} == multiset{f} && multiset{f} - multiset{f} == multiset{};
      r := Install(procs[p], f, multiset{f});
      if r == -1 {
        Lose(files, tables, lost, multiset{f}, f);
        lost := lost[f := lost[f] + 1];
      }
    }

    // fd_dup2
    method Dup2(p: int, fd: int, fd2: int) returns (r: int)
      requires Valid() && p in procs
      modifies this
      ensures Valid() && procs == old(procs) && LostKept(old(lost), lost)
      ensures fd == fd2 ==> r == fd2 && unchanged(this)
      ensures fd != fd2 ==> (r == EBADF <==> old(FileAt(p, fd)) == NULL || fd2 < 0 || fd2 >= LNX_MAX_FDS)
      ensures fd != fd2 ==> (r == EBADF ==> unchanged(this))
      ensures fd != fd2 && r != EBADF ==> r == fd2
      ensures fd != fd2 && r != EBADF ==>
        tables == SetFds(old(tables), procs[p], old(tables)[procs[p]].fds[fd2 := old(FileAt(p, fd))])
    {
      if fd == fd2 { return fd2; }
      var f := FileAt(p, fd);
      if f == NULL || fd2 < 0 || fd2 >= LNX_MAX_FDS { return EBADF; }
      var t := procs[p];
      ghost var fds := tables[t].fds;
      var c := Close(p, fd2);
      assert tables == SetFds(old(tables), t, fds[fd2 := NULL]) by { if c != 0 { assert fds[fd2 := NULL] == fds
        && tables[t] == tables[t].(fds := fds); } }
      assert FileAt(p, fd) == f;
      FileRef(f, multiset{});
      PutAt(t, fd2, f);
      assert fds[fd2 := NULL][fd2 := f] == fds[fd2 := f];
      r := fd2;
    }

    /** A fresh table held by one process. */
    method NewTable(p: int, t: int)
      requires Valid() && t != NULL && t !in tables && (p in procs ==> procs[p] == NULL)
      modifies this`tables, this`procs
      ensures Valid() && procs == old(procs)[p := t]
      ensures tables == old(tables)[t := Table(1, seq(LNX_MAX_FDS, _ => NULL))]
    {
      var m := Table(1, seq(LNX_MAX_FDS, _ => NULL));
      AddTable(files, tables, lost, multiset{}, t, m);
      Founded(tables, procs, p, t, m);
      tables, procs := tables[t := m], procs[p := t];
    }

    // fd_table_init
    method Init(p: int, t: int, tty: seq<int>)
      requires Valid() && t != NULL && t !in tables && (p in procs ==> procs[p] == NULL)
      requires |tty| == 3 && (forall i | 0 <= i < 3 :: tty[i] != NULL && tty[i] !in files)
      requires forall i, j | 0 <= i < j < 3 :: tty[i] != tty[j]
      modifies this
      ensures Valid() && procs == old(procs)[p := t] && t in tables && tables == old(tables)[t := tables[t]]
      ensures tables[t].refs == 1 && |tables[t].fds| == LNX_MAX_FDS && tables[t].fds[..3] == tty
      ensures forall i | 3 <= i < LNX_MAX_FDS :: tables[t].fds[i] == NULL
      ensures LostKept(old(lost), lost)
    {
      NewTable(p, t);
      for i := 0 to 3
        invariant Valid() && procs == old(procs)[p := t] && t in tables && tables == old(tables)[t := tables[t]]
        invariant tables[t].refs == 1 && |tables[t].fds| == LNX_MAX_FDS
        invariant forall j | i <= j < 3 :: tty[j] !in files
        invariant LostKept(old(lost), lost)
        invariant forall j | 0 <= j < LNX_MAX_FDS :: tables[t].fds[j] == if j < i then tty[j] else NULL
      {
        PutNew(t, i, tty[i]);
      }
    }

    /** Put a new file into an empty slot. */
    method PutNew(t: int, i: nat, f: int)
      requires Valid() && f != NULL && f !in files && t in tables && i < |tables[t].fds| == LNX_MAX_FDS
      requires tables[t].fds[i] == NULL
      modifies this
      ensures Valid() && tables == SetFds(old(tables), t, old(tables)[t].fds[i := f]) && procs == old(procs)
      ensures files.Keys == old(files).Keys + {f} && LostKept(old(lost), lost)
    {
      FileNew(f, multiset{});
      PutAt(t, i, f);
    }

    /** Put the one reference in hand into an empty slot. */
    method PutAt(t: int, i: nat, f: int)
      requires Holding(multiset{} + multiset{f}) && f != NULL && t in tables && i < |tables[t].fds| == LNX_MAX_FDS
      requires tables[t].fds[i] == NULL
      modifies this`tables
      ensures Valid() && tables == SetFds(old(tables), t, old(tables)[t].fds[i := f])
    {
      assert multiset{} + multiset{f} == multiset{f} && multiset{f} - multiset{f} == multiset{};
      Put(files, tables, lost, multiset{f}, t, i, f);
      SlotsHeld(tables, procs, t, tables[t].fds[i := f]);
      tables := SetFds(tables, t, tables[t].fds[i := f]);
    }

    // fd_table_fork
    method Fork(parent: int, child: int, t: int)
      requires Valid() && parent in procs && procs[parent] != NULL && parent != child
      requires (child in procs ==> procs[child] == NULL) && t != NULL && t !in tables
      modifies this
      ensures Valid() && procs == old(procs)[child := t] && lost == old(lost)
      ensures tables == old(tables)[t := Table(1, old(tables)[old(procs)[parent]].fds)]
    {
      var src := tables[procs[parent]].fds;
      NewTable(child, t);
      for i := 0 to LNX_MAX_FDS
        invariant Valid() && procs == old(procs)[child := t] && lost == old(lost) && t in tables
        invariant tables == old(tables)[t := tables[t]]
        invariant tables[t].refs == 1 && |tables[t].fds| == LNX_MAX_FDS
        invariant forall j | 0 <= j < LNX_MAX_FDS :: tables[t].fds[j] == if j < i then src[j] else NULL
      {
        if src[i] != NULL {
          assert tables[old(procs)[parent]].fds[i] in files;
          FileRef(src[i], multiset{});
          PutAt(t, i, src[i]);
        }
      }
      assert tables[t].fds == src;
      assert tables[t] == Table(1, src);
    }

    // fd_table_share
    method Share(parent: int, child: int)
      requires Valid() && parent in procs && (child in procs ==> procs[child] == NULL)
      modifies this`tables, this`procs
      ensures Valid() && (old(procs)[parent] == NULL ==> unchanged(this))
      ensures old(procs)[parent] != NULL ==> procs == old(procs)[child := old(procs)[parent]]
      ensures var t := old(procs)[parent]; t != NULL ==>
        tables == old(tables)[t := Table(old(tables)[t].refs + 1, old(tables)[t].fds)]
    {
      var t := procs[parent];
      if t == NULL { return; }
      Joined(tables, procs, child, t);
      RefsBalance(files, tables, lost, t, tables[t].refs + 1);
      tables, procs := SetRefs(tables, t, tables[t].refs + 1), procs[child := t];
    }

    // fd_table_exit. A table nobody holds goes before its files are closed; no one can reach it in between.
    method Exit(p: int)
      requires Valid() && p in procs
      modifies this
      ensures Valid() && procs == old(procs)[p := NULL]
      ensures var t := old(procs)[p]; t == NULL ==> tables == old(tables) && files == old(files)
      ensures var t := old(procs)[p]; t != NULL && old(tables)[t].refs > 1 ==>
        tables == SetRefs(old(tables), t, old(tables)[t].refs - 1) && files == old(files)
      ensures var t := old(procs)[p]; t != NULL && old(tables)[t].refs == 1 ==> tables == old(tables) - {t}
      ensures LostKept(old(lost), lost)
    {
      var t := procs[p];
      if t == NULL {
        assert procs == procs[p := NULL];
        return;
      }
      Left(tables, procs, p);
      if tables[t].refs > 1 {
        RefsBalance(files, tables, lost, t, tables[t].refs - 1);
        tables, procs := SetRefs(tables, t, tables[t].refs - 1), procs[p := NULL];
        return;
      }
      var fds := tables[t].fds;
      DropTable(files, tables, lost, t);
      tables, procs := tables - {t}, procs[p := NULL];
      CloseAll(fds);
    }

    /** Close every file of a dropped table. */
    method CloseAll(fds: seq<int>)
      requires Holding(Open(fds))
      modifies this`files, this`lost
      ensures Valid() && LostKept(old(lost), lost)
    {
      assert fds[0..] == fds;
      for i := 0 to |fds|
        invariant Holding(Open(fds[i..])) && LostKept(old(lost), lost)
      {
        OpenRest(fds, i);
        if fds[i] != NULL { var _ := FileClose(fds[i], Open(fds[i..])); }
      }
      assert fds[|fds|..] == [];
    }

    ghost function Now(): State
      reads this
    {
      State(files, tables, procs, lost)
    }

    /** Every run is a run of the step relation that keeps the counts right throughout, and the references lost to a
        file are the dups of it that met a full table, no more and no fewer. */
    method Run(calls: seq<Call>) returns (ghost trace: seq<State>)
      requires Valid()
      modifies this
      ensures Valid() && IsRun(trace, calls, |calls|) && trace[0] == old(Now()) && trace[|calls|] == Now()
      ensures forall f :: LostIn(Now(), f) == LostIn(old(Now()), f) + FullDups(trace, calls, |calls|, f)
    {
      trace := [Now()];
      for i := 0 to |calls|
        invariant Valid() && IsRun(trace, calls, i) && trace[0] == old(Now()) && trace[i] == Now()
      {
        ghost var before := trace;
        Step(calls[i]);
        trace := trace + [Now()];
        RunStep(before, trace, calls, i);
      }
      forall f
        ensures LostIn(Now(), f) == LostIn(old(Now()), f) + FullDups(trace, calls, |calls|, f)
      { LostCounted(trace, calls, |calls|, f); }
    }

    method Step(call: Call)
      requires Valid()
      modifies this
      ensures Valid() && Stepped(old(Now()), call, Now())
    {
      if call.DupCall? {
        if call.p in procs { var _ := Dup(call.p, call.fd); }
      } else {
        StepKept(call);
        KeptStep(old(Now()), call, Now());
      }
    }

    /** A call other than dup loses no reference. */
    method StepKept(call: Call)
      requires Valid() && !call.DupCall?
      modifies this
      ensures Valid() && TablesStep(old(Now()), call, Now()) && LostKept(old(lost), lost)
    {
      match call
      case InitCall(p, t, tty) => if CanInit(files, tables, procs, p, t, tty) { Init(p, t, tty); }
      case OpenCall(p, f) => if p in procs && f != NULL && f !in files { var _ := OpenFile(p, f); }
      case CloseCall(p, fd) => if p in procs { var _ := Close(p, fd); }
      case Dup2Call(p, fd, fd2) => if p in procs { var _ := Dup2(p, fd, fd2); }
      case ForkCall(p, c, t) => if CanFork(tables, procs, p, c, t) { Fork(p, c, t); }
      case ShareCall(p, c) => if CanShare(procs, p, c) { Share(p, c); }
      case ExitCall(p) => if p in procs { Exit(p); }
    }
  }

  datatype Call =
    | InitCall(p: int, t: int, tty: seq<int>)
    | OpenCall(p: int, f: int)
    | CloseCall(p: int, fd: int)
    | DupCall(p: int, fd: int)
    | Dup2Call(p: int, fd: int, fd2: int)
    | ForkCall(p: int, c: int, t: int)
    | ShareCall(p: int, c: int)
    | ExitCall(p: int)

  // ---- runs ----

  datatype State = State(files: Files, tables: Tables, procs: map<int, int>, lost: map<int, int>)

  predicate CanInit(files: Files, tables: Tables, procs: map<int, int>, p: int, t: int, tty: seq<int>) {
    && t != NULL && t !in tables && (p in procs ==> procs[p] == NULL) && |tty| == 3
    && (forall i | 0 <= i < 3 :: tty[i] != NULL && tty[i] !in files) && forall i, j | 0 <= i < j < 3 :: tty[i] != tty[j]
  }

  predicate CanFork(tables: Tables, procs: map<int, int>, p: int, c: int, t: int) {
    p in procs && procs[p] != NULL && p != c && (c in procs ==> procs[c] == NULL) && t != NULL && t !in tables
  }

  predicate CanShare(procs: map<int, int>, p: int, c: int) {
    p in procs && procs[p] != NULL && (c in procs ==> procs[c] == NULL)
  }

  /** The counts are right. They fix the files from the tables and what was lost. */
  ghost predicate Fine(s: State) {
    Balanced(s.files, s.tables, s.lost, multiset{}) && Live(s.files, s.tables) && Held(s.tables, s.procs)
  }

  /** The file a process has under a descriptor. */
  ghost function FileIn(s: State, p: int, fd: int): int {
    if p in s.procs && s.procs[p] in s.tables && 0 <= fd < |s.tables[s.procs[p]].fds| then s.tables[s.procs[p]].fds[fd]
    else NULL
  }

  ghost predicate TableFull(s: State, p: int) {
    p in s.procs && s.procs[p] in s.tables && NULL !in s.tables[s.procs[p]].fds
  }

  /** The call is a dup of an open file f in a table without a free slot. */
  ghost predicate MeetsFull(s: State, call: Call, f: int) {
    call.DupCall? && f != NULL && FileIn(s, call.p, call.fd) == f && TableFull(s, call.p)
  }

  ghost predicate SameTables(s: State, s': State) {
    s'.tables == s.tables && s'.procs == s.procs
  }

  /** Slot fd of the table of p, and no other slot, now holds f. */
  ghost predicate SlotSet(s: State, s': State, p: int, fd: int, f: int) {
    && s'.procs == s.procs && p in s.procs && s.procs[p] in s.tables && 0 <= fd < |s.tables[s.procs[p]].fds|
    && s'.tables == SetFds(s.tables, s.procs[p], s.tables[s.procs[p]].fds[fd := f])
  }

  /** The lowest free slot of the table of p now holds f; there is one. */
  ghost predicate Installed(s: State, s': State, p: int, f: int) {
    && p in s.procs && s.procs[p] in s.tables
    && exists fd :: LowestFree(s.tables[s.procs[p]].fds, fd) && SlotSet(s, s', p, fd, f)
  }

  ghost predicate Started(m: Table, tty: seq<int>) {
    m.refs == 1 && |m.fds| == LNX_MAX_FDS && |tty| == 3 && m.fds[..3] == tty && forall i | 3 <= i < LNX_MAX_FDS ::
      m.fds[i] == NULL
  }

  /** What one call does to the tables and to who holds them. */
  ghost predicate TablesStep(s: State, call: Call, s': State) {
    match call
    case InitCall(p, t, tty) =>
      if CanInit(s.files, s.tables, s.procs, p, t, tty)
      then t in s'.tables && Started(s'.tables[t], tty) && s'.tables == s.tables[t := s'.tables[t]]
        && s'.procs == s.procs[p := t]
      else SameTables(s, s')
    case OpenCall(p, f) =>
      if p in s.procs && s.procs[p] != NULL && !TableFull(s, p) && f != NULL && f !in s.files
      then Installed(s, s', p, f)
      else SameTables(s, s')
    case CloseCall(p, fd) => if FileIn(s, p, fd) != NULL then SlotSet(s, s', p, fd, NULL) else SameTables(s, s')
    case DupCall(p, fd) =>
      if FileIn(s, p, fd) != NULL && !TableFull(s, p) then Installed(s, s', p, FileIn(s, p, fd)) else SameTables(s, s')
    case Dup2Call(p, fd, fd2) =>
      if fd != fd2 && FileIn(s, p, fd) != NULL && 0 <= fd2 < LNX_MAX_FDS then SlotSet(s, s', p, fd2, FileIn(s, p, fd))
      else SameTables(s, s')
    case ForkCall(p, c, t) =>
      if CanFork(s.tables, s.procs, p, c, t)
      then s.procs[p] in s.tables && s'.tables == s.tables[t := Table(1, s.tables[s.procs[p]].fds)]
        && s'.procs == s.procs[c := t]
      else SameTables(s, s')
    case ShareCall(p, c) =>
      if CanShare(s.procs, p, c)
      then var t := s.procs[p];
        t in s.tables && s'.tables == SetRefs(s.tables, t, s.tables[t].refs + 1) && s'.procs == s.procs[c := t]
      else SameTables(s, s')
    case ExitCall(p) =>
      if p in s.procs && s.procs[p] in s.tables
      then
        var t := s.procs[p];
        s'.procs == s.procs[p := NULL] &&
        s'.tables == if s.tables[t].refs > 1 then SetRefs(s.tables, t, s.tables[t].refs - 1) else s.tables - {t}
      else SameTables(s, s')
  }

  /** References lost to a file so far. */
  ghost function LostIn(s: State, f: int): int {
    if f in s.lost then s.lost[f] else 0
  }

  ghost predicate LostStep(s: State, call: Call, s': State) {
    forall f {:trigger LostIn(s', f)} :: LostIn(s', f) == LostIn(s, f) + if MeetsFull(s, call, f) then 1 else 0
  }

  lemma KeptStep(s: State, call: Call, s': State)
    requires !call.DupCall? && LostKept(s.lost, s'.lost)
    ensures LostStep(s, call, s')
  {
  }

  ghost predicate Stepped(s: State, call: Call, s': State) {
    TablesStep(s, call, s') && LostStep(s, call, s')
  }

  /** A trace of the first n calls. */
  ghost predicate IsRun(trace: seq<State>, calls: seq<Call>, n: nat) {
    && n <= |calls| && |trace| == n + 1 && (forall i | 0 <= i <= n :: Fine(trace[i]))
    && forall i {:trigger calls[i]} | 0 <= i < n :: Stepped(trace[i], calls[i], trace[i + 1])
  }

  /** How many of the first n calls were dups of f that met a full table. */
  ghost function FullDups(trace: seq<State>, calls: seq<Call>, n: nat, f: int): nat
    requires n <= |calls| && n <= |trace|
  {
    if n == 0 then 0 else FullDups(trace, calls, n - 1, f) + if MeetsFull(trace[n - 1], calls[n - 1], f) then 1 else 0
  }

  lemma RunStep(trace: seq<State>, trace': seq<State>, calls: seq<Call>, n: nat)
    requires IsRun(trace, calls, n) && n < |calls| && |trace'| == n + 2 && trace'[..n + 1] == trace
    requires Fine(trace'[n + 1]) && Stepped(trace[n], calls[n], trace'[n + 1])
    ensures IsRun(trace', calls, n + 1)
  {
    assert forall i | 0 <= i <= n :: trace'[i] == trace[i];
  }

  lemma {:induction false} LostCounted(trace: seq<State>, calls: seq<Call>, n: nat, f: int)
    requires IsRun(trace, calls, |calls|) && n <= |calls|
    ensures LostIn(trace[n], f) == LostIn(trace[0], f) + FullDups(trace, calls, n, f)
  {
    if n > 0 {
      LostCounted(trace, calls, n - 1, f);
      assert Stepped(trace[n - 1], calls[n - 1], trace[n - 1 + 1]);
    }
  }

  lemma NoHolders(ps: map<int, int>, t: int)
    requires forall p | p in ps :: ps[p] == NULL
    ensures t != NULL ==> |Holders(ps, t)| == 0
  {
    if t != NULL {
      forall p ensures p !in Holders(ps, t) { assert p in ps ==> ps[p] == NULL; }
      assert Holders(ps, t) == {};
    }
  }

  /** Once no process holds a table, exactly the files that lost a reference are still open, each with the references
      it lost. */
  lemma Leftovers(s: State)
    requires Fine(s) && forall p | p in s.procs :: s.procs[p] == NULL
    ensures s.tables == map[]
    ensures forall f :: (f in s.files <==> LostIn(s, f) > 0) && (f in s.files ==> s.files[f] == LostIn(s, f))
  {
    forall t ensures t !in s.tables { NoHolders(s.procs, t); }
    assert s.tables == map[];
    forall f ensures (f in s.files <==> LostIn(s, f) > 0) && (f in s.files ==> s.files[f] == LostIn(s, f)) {
      assert SlotsOf(s.tables, f) == {};
    }
  }

  /** So after a run from nothing in which every process has exited, a file is still open exactly when some dup of it
      met a full table. */
  lemma LeftOpen(trace: seq<State>, calls: seq<Call>, f: int)
    requires IsRun(trace, calls, |calls|) && trace[0] == State(map[], map[], map[], map[])
    requires forall p | p in trace[|calls|].procs :: trace[|calls|].procs[p] == NULL
    ensures f in trace[|calls|].files <==> FullDups(trace, calls, |calls|, f) > 0
  {
    LostCounted(trace, calls, |calls|, f);
    Leftovers(trace[|calls|]);
  }

  lemma OpenRest(fds: seq<int>, i: nat)
    requires i < |fds|
    ensures fds[i] == NULL ==> Open(fds[i + 1..]) == Open(fds[i..])
    ensures fds[i] != NULL ==> Open(fds[i..])[fds[i]] > 0 && Open(fds[i..]) - multiset{fds[i]} == Open(fds[i + 1..])
  {
    assert fds[i..] == [fds[i]] + fds[i + 1..];
  }

  lemma RefsBalance(fs: Files, ts: Tables, lost: map<int, int>, t: int, n: int)
    requires Balanced(fs, ts, lost, multiset{}) && Live(fs, ts) && t in ts
    ensures Balanced(fs, SetRefs(ts, t, n), lost, multiset{}) && Live(fs, SetRefs(ts, t, n))
  {
    var ts' := SetRefs(ts, t, n);
    forall g {:trigger SlotsOf(ts', g)} | g in fs ensures fs[g] == |SlotsOf(ts', g)| + lost[g] + multiset{}[g] {
      forall x
        ensures x in SlotsOf(ts', g) <==> x in SlotsOf(ts, g)
      { assert Names(ts', x.0, x.1, g) == Names(ts, x.0, x.1, g); }
      assert SlotsOf(ts', g) == SlotsOf(ts, g);
    }
    forall u, i {:trigger ts'[u].fds[i]} | u in ts' && 0 <= i < |ts'[u].fds| && ts'[u].fds[i] != NULL
      ensures ts'[u].fds[i] in fs
    { assert ts[u].fds[i] in fs; }
  }

  /** One reference less. */
  function Dropped(fs: Files, f: int): Files
    requires f in fs
  {
    if fs[f] == 1 then fs - {f} else fs[f := fs[f] - 1]
  }

  /** What is lost stays lost: a new file has lost nothing, and only a file that has lost nothing is released. */
  ghost predicate LostKept(lost: map<int, int>, lost': map<int, int>) {
    && (forall g {:trigger lost'[g]} | g in lost' :: lost'[g] == if g in lost then lost[g] else 0)
    && forall g {:trigger lost[g]} | g in lost && g !in lost' :: lost[g] == 0
  }

  ghost predicate LowestFree(fds: seq<int>, fd: int) {
    0 <= fd < |fds| && fds[fd] == NULL && forall j | 0 <= j < fd :: fds[j] != NULL
  }

  lemma NewFile(fs: Files, ts: Tables, lost: map<int, int>, hand: multiset<int>, f: int)
    requires Balanced(fs, ts, lost, hand) && Live(fs, ts) && f != NULL && f !in fs
    ensures Balanced(fs[f := 1], ts, lost[f := 0], hand + multiset{f}) && Live(fs[f := 1], ts)
  {
    forall x ensures x !in SlotsOf(ts, f) { assert Names(ts, x.0, x.1, f) ==> f in fs; }
    assert SlotsOf(ts, f) == {};
    assert hand[f] == 0;
  }

  /** With nothing in hand a file's count is at least the slots that name it, and equal to them exactly when no
      reference to it was lost. */
  lemma CountExact(fs: Files, ts: Tables, lost: map<int, int>, f: int)
    requires Balanced(fs, ts, lost, multiset{}) && f in fs
    ensures fs[f] >= |SlotsOf(ts, f)| && (fs[f] == |SlotsOf(ts, f)| <==> lost[f] == 0)
  {
  }
}
