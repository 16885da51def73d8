/** Why replaying a trail slice is harmless: the algebra of cell operations, the replay
    theorem for keymove-free slices, table-wise reordering, and the idempotence of moves. */
module Replay {
  import opened Records
  import opened Store

  // ---------------------------------------------------------------- cell algebra

  function Compose(a: CellOp, b: CellOp): CellOp {
    match b
    case Keep => a
    case Put(_) => b
    case Merge(q, _) =>
      match a
      case Keep => b
      case Put(c) => Put(RunOp(b, c))
      case Merge(p, blank) => Merge(p + q, blank)
  }

  lemma ComposeRuns(a: CellOp, b: CellOp, cell: Option<Row>)
    ensures RunOp(Compose(a, b), cell) == RunOp(b, RunOp(a, cell))
  {
    if a.Merge? && b.Merge? {
      var base := if cell.Some? then cell.value else a.blank;
      assert base + (a.fields + b.fields) == base + a.fields + b.fields;
    }
  }

  lemma OpIdempotent(a: CellOp, cell: Option<Row>)
    ensures RunOp(a, RunOp(a, cell)) == RunOp(a, cell)
  {
    if a.Merge? {
      var base := if cell.Some? then cell.value else a.blank;
      assert base + a.fields + a.fields == base + a.fields;
    }
  }

  // ---------------------------------------------------------------- folds, cell by cell

  /** The records of `rs` that address `loc`, in order. */
  function At(env: Env, rs: seq<Record>, loc: Loc): seq<Record> {
    if rs == [] then []
    else
      var r := rs[|rs| - 1];
      At(env, rs[..|rs| - 1], loc) + if Known(env, r) && LocOf(env, r) == loc then [r] else []
  }

  /** The single cell operation a sequence of same-cell records amounts to. */
  function Summary(env: Env, rs: seq<Record>): CellOp {
    if rs == [] then Keep
    else
      var r := rs[|rs| - 1];
      Compose(Summary(env, rs[..|rs| - 1]), if Known(env, r) then OpOf(env, r) else Keep)
  }

  lemma {:induction false} SummaryConcat(env: Env, a: seq<Record>, b: seq<Record>, cell: Option<Row>)
    ensures RunOp(Summary(env, a + b), cell) == RunOp(Summary(env, b), RunOp(Summary(env, a), cell))
  {
    if b == [] {
      assert a + b == a;
    } else {
      var b' := b[..|b| - 1];
      assert (a + b)[..|a + b| - 1] == a + b';
      var r := b[|b| - 1];
      var op := if Known(env, r) then OpOf(env, r) else Keep;
      SummaryConcat(env, a, b', cell);
      ComposeRuns(Summary(env, a + b'), op, cell);
      ComposeRuns(Summary(env, b'), op, RunOp(Summary(env, a), cell));
    }
  }

  lemma {:induction false} FoldConcat(env: Env, a: seq<Record>, b: seq<Record>, db: DB)
    ensures Fold(env, a + b, db) == Fold(env, b, Fold(env, a, db))
  {
    if b == [] {
      assert a + b == a;
    } else {
      assert (a + b)[..|a + b| - 1] == a + b[..|b| - 1];
      FoldConcat(env, a, b[..|b| - 1], db);
    }
  }

  /** A keymove-free fold acts on every cell independently. */
  lemma {:induction false} FoldCell(env: Env, rs: seq<Record>, db: DB, loc: Loc)
    requires NoKeymove(env, rs)
    ensures CellAt(Fold(env, rs, db), loc) == RunOp(Summary(env, At(env, rs, loc)), CellAt(db, loc))
  {
    if rs != [] {
      var r, rs' := rs[|rs| - 1], rs[..|rs| - 1];
      assert r in rs && forall x :: x in rs' ==> x in rs;
      FoldCell(env, rs', db, loc);
      StepCell(env, Fold(env, rs', db), r, loc);
      SummaryNext(env, rs, loc);
      hide Step, OpOf, Classify, Summary, RunOp, Compose, CellAt, Known, LocOf, IsKeymove;
      if Known(env, r) && LocOf(env, r) == loc {
        ComposeRuns(Summary(env, At(env, rs', loc)), OpOf(env, r), CellAt(db, loc));
      }
    }
  }

  /** A record that is no move works on its own cell only. */
  lemma StepCell(env: Env, db: DB, r: Record, loc: Loc)
    requires !IsKeymove(env, r)
    ensures CellAt(Step(env, db, r), loc) ==
            if Known(env, r) && LocOf(env, r) == loc then RunOp(OpOf(env, r), CellAt(db, loc)) else CellAt(db, loc)
  {
    hide OpOf, RunOp, Classify, IsKeymove;
  }

  lemma SummaryNext(env: Env, rs: seq<Record>, loc: Loc)
    requires rs != []
    ensures var r, before := rs[|rs| - 1], At(env, rs[..|rs| - 1], loc);
            Summary(env, At(env, rs, loc)) ==
            if Known(env, r) && LocOf(env, r) == loc then Compose(Summary(env, before), OpOf(env, r))
            else Summary(env, before)
  {
    hide OpOf, Compose, LocOf;
    var r, before := rs[|rs| - 1], At(env, rs[..|rs| - 1], loc);
    assert (before + [r])[..|before|] == before;
    assert before + [] == before;
  }

  lemma SameCells(a: DB, b: DB)
    requires forall loc :: CellAt(a, loc) == CellAt(b, loc)
    ensures a == b
  {
    forall loc | loc in a || loc in b ensures loc in a && loc in b && a[loc] == b[loc] {
      assert CellAt(a, loc) == CellAt(b, loc);
    }
  }

  /** On every cell, `done` has got exactly through some prefix of the records `w` holds for it. */
  ghost predicate KeyPrefix(env: Env, done: seq<Record>, w: seq<Record>) {
    forall loc :: At(env, done, loc) <= At(env, w, loc)
  }

  lemma {:induction false} AtMembers(env: Env, rs: seq<Record>, loc: Loc, r: Record)
    ensures r in At(env, rs, loc) <==> r in rs && Known(env, r) && LocOf(env, r) == loc
  {
    if rs != [] {
      AtMembers(env, rs[..|rs| - 1], loc, r);
      assert rs == rs[..|rs| - 1] + [rs[|rs| - 1]];
    }
  }

  /** The replay theorem: from any state in which each key has advanced through its own prefix of a
      keymove-free slice, applying the whole slice gives what applying it once gives. */
  lemma ReplayConverges(env: Env, w: seq<Record>, done: seq<Record>, db: DB)
    requires NoKeymove(env, w)
    requires KeyPrefix(env, done, w)
    ensures Fold(env, w, Fold(env, done, db)) == Fold(env, w, db)
  {
    forall r | r in done && Known(env, r) ensures r in w {
      AtMembers(env, done, LocOf(env, r), r);
      AtMembers(env, w, LocOf(env, r), r);
    }
    var mid := Fold(env, done, db);
    forall loc ensures CellAt(Fold(env, w, mid), loc) == CellAt(Fold(env, w, db), loc) {
      var d, all := At(env, done, loc), At(env, w, loc);
      var rest := all[|d|..];
      assert all == d + rest;
      var c := CellAt(db, loc);
      FoldCell(env, done, db, loc);
      FoldCell(env, w, mid, loc);
      FoldCell(env, w, db, loc);
      SummaryConcat(env, d, rest, RunOp(Summary(env, d), c));
      SummaryConcat(env, d, rest, c);
      OpIdempotent(Summary(env, d), c);
    }
    SameCells(Fold(env, w, mid), Fold(env, w, db));
  }

  lemma {:induction false} AtConcat(env: Env, a: seq<Record>, b: seq<Record>, loc: Loc)
    ensures At(env, a + b, loc) == At(env, a, loc) + At(env, b, loc)
  {
    if b == [] {
      assert a + b == a;
    } else {
      assert (a + b)[..|a + b| - 1] == a + b[..|b| - 1];
      AtConcat(env, a, b[..|b| - 1], loc);
    }
  }

  /** Replaying a prefix before the whole slice changes nothing. */
  lemma ReplayPrefix(env: Env, a: seq<Record>, b: seq<Record>, db: DB)
    requires NoKeymove(env, a + b)
    ensures Fold(env, a + b, Fold(env, a, db)) == Fold(env, a + b, db)
  {
    forall loc ensures At(env, a, loc) <= At(env, a + b, loc) {
      AtConcat(env, a, b, loc);
    }
    assert forall r :: r in a ==> r in a + b;
    ReplayConverges(env, a + b, a, db);
  }

  // ---------------------------------------------------------------- tables

  /** The records of `rs` that belong to the known table `t`, in order. */
  function OfTable(env: Env, rs: seq<Record>, t: string): seq<Record> {
    if rs == [] then []
    else
      var r := rs[|rs| - 1];
      OfTable(env, rs[..|rs| - 1], t) + if Known(env, r) && Upper(r.table) == t then [r] else []
  }

  ghost predicate SameTable(a: DB, b: DB, t: string) {
    forall loc: Loc :: loc.table == t ==> CellAt(a, loc) == CellAt(b, loc)
  }

  /** A record acts inside its own table and looks at nothing else. */
  lemma StepLocal(env: Env, a: DB, b: DB, r: Record, t: string)
    requires SameTable(a, b, t)
    ensures Known(env, r) && Upper(r.table) == t ==> SameTable(Step(env, a, r), Step(env, b, r), t)
    ensures !(Known(env, r) && Upper(r.table) == t) ==> SameTable(Step(env, a, r), b, t)
  {
    if Known(env, r) {
      var to, from := LocOf(env, r), OldLoc(env, r);
      if to.table == t {
        assert CellAt(a, to) == CellAt(b, to);
        assert CellAt(a, from) == CellAt(b, from);
      }
      forall loc: Loc | loc.table == t
        ensures Upper(r.table) == t ==> CellAt(Step(env, a, r), loc) == CellAt(Step(env, b, r), loc)
        ensures Upper(r.table) != t ==> CellAt(Step(env, a, r), loc) == CellAt(b, loc)
      {
        assert CellAt(a, loc) == CellAt(b, loc);
      }
    }
  }

  lemma {:induction false} FoldTable(env: Env, rs: seq<Record>, db: DB, t: string)
    ensures SameTable(Fold(env, rs, db), Fold(env, OfTable(env, rs, t), db), t)
  {
    if rs != [] {
      var r, rs' := rs[|rs| - 1], rs[..|rs| - 1];
      var kept := OfTable(env, rs', t);
      FoldTable(env, rs', db, t);
      StepLocal(env, Fold(env, rs', db), Fold(env, kept, db), r, t);
      if Known(env, r) && Upper(r.table) == t {
        assert OfTable(env, rs, t) == kept + [r];
        assert (kept + [r])[..|kept + [r]| - 1] == kept;
      } else {
        assert OfTable(env, rs, t) == kept;
      }
    }
  }

  /** Reordering across tables preserves meaning, moves included: only the order within each
      table matters. */
  lemma TableReorder(env: Env, a: seq<Record>, b: seq<Record>, db: DB)
    requires forall t :: OfTable(env, a, t) == OfTable(env, b, t)
    ensures Fold(env, a, db) == Fold(env, b, db)
  {
    forall loc: Loc ensures CellAt(Fold(env, a, db), loc) == CellAt(Fold(env, b, db), loc) {
      FoldTable(env, a, db, loc.table);
      FoldTable(env, b, db, loc.table);
      assert OfTable(env, a, loc.table) == OfTable(env, b, loc.table);
    }
    SameCells(Fold(env, a, db), Fold(env, b, db));
  }

  lemma {:induction false} OfTableConcat(env: Env, a: seq<Record>, b: seq<Record>, t: string)
    ensures OfTable(env, a + b, t) == OfTable(env, a, t) + OfTable(env, b, t)
  {
    if b == [] {
      assert a + b == a;
    } else {
      assert (a + b)[..|a + b| - 1] == a + b[..|b| - 1];
      OfTableConcat(env, a, b[..|b| - 1], t);
    }
  }

  /** The records of one cell are among the records of its table. */
  lemma {:induction false} AtOfTable(env: Env, rs: seq<Record>, loc: Loc)
    ensures At(env, rs, loc) == At(env, OfTable(env, rs, loc.table), loc)
  {
    if rs != [] {
      var r, rs' := rs[|rs| - 1], rs[..|rs| - 1];
      AtOfTable(env, rs', loc);
      if Known(env, r) && Upper(r.table) == loc.table {
        AtConcat(env, OfTable(env, rs', loc.table), [r], loc);
        assert OfTable(env, rs, loc.table) == OfTable(env, rs', loc.table) + [r];
        assert [r][..0] == [];
        assert At(env, [], loc) == [];
        assert At(env, [r], loc) == if LocOf(env, r) == loc then [r] else [];
      } else {
        assert OfTable(env, rs, loc.table) == OfTable(env, rs', loc.table);
      }
    }
  }

  /** A table-wise prefix is a key-wise prefix. */
  lemma TablePrefixIsKeyPrefix(env: Env, done: seq<Record>, w: seq<Record>)
    requires forall t :: OfTable(env, done, t) <= OfTable(env, w, t)
    ensures KeyPrefix(env, done, w)
  {
    forall loc ensures At(env, done, loc) <= At(env, w, loc) {
      var d, all := OfTable(env, done, loc.table), OfTable(env, w, loc.table);
      assert d <= all;
      assert all == d + all[|d|..];
      AtOfTable(env, done, loc);
      AtOfTable(env, w, loc);
      AtConcat(env, d, all[|d|..], loc);
    }
  }

  // ---------------------------------------------------------------- moves

  lemma MoveIdempotent(m: Meta, db: DB, from: Loc, to: Loc, after: Image)
    requires from != to
    ensures MoveRow(m, MoveRow(m, db, from, to, after), from, to, after) == MoveRow(m, db, from, to, after)
  {
    var p := Patch(m, after);
    var once := MoveRow(m, db, from, to, after);
    assert from !in once && to in once;
    assert forall row: Row :: row + p + p == row + p;
    assert once[to := once[to] + p] == once;
  }
  /** A move touches the two keys only, never leaves the old-key row behind, and keeps every column
      that the after-image omits. */
  lemma MoveKeepsOmitted(m: Meta, db: DB, from: Loc, to: Loc, after: Image, c: string)
    requires from != to
    ensures var moved := MoveRow(m, db, from, to, after);
            && from !in moved && to in moved
            && (forall loc :: loc != from && loc != to ==> CellAt(moved, loc) == CellAt(db, loc))
            && (from in db && c in db[from] && c !in after ==> c in moved[to] && moved[to][c] == db[from][c])
            && (from !in db && to in db && c in db[to] && c !in after ==> c in moved[to] && moved[to][c] == db[to][c])
  {
    var p := Patch(m, after);
    assert c !in after ==> c !in p;
  }
}
