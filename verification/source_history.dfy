/** What the records mean at the source: a history of row changes, the records captured from it, and
    that applying them to an equal target gives the source's own state. */
module SourceHistory {
  import opened Records
  import opened Store
  import opened ApplyLemmas
  import opened LiveLog
  import opened RunLemmas
  import opened Dedup
  import MySqlCapture
  import PgCapture

  /** A row change.  `provided` holds the non-key columns the log carries - all that changed, and maybe
      others; what it omits is unchanged. */
  datatype Change =
    | Ins(table: string, key: Image, row: Row)
    | Upd(table: string, key: Image, provided: Row)
    | Del(table: string, key: Image)
    | Move(table: string, from: Image, key: Image, provided: Row)

  predicate Keyed(env: Env, c: Change) {
    Upper(c.table) in env.schema && env.schema[Upper(c.table)].pk != [] && ValidMeta(env.schema[Upper(c.table)])
  }

  function MetaFor(env: Env, c: Change): Meta
    requires Keyed(env, c)
  {
    env.schema[Upper(c.table)]
  }

  function At(env: Env, c: Change): Loc
    requires Keyed(env, c)
  {
    Loc(Upper(c.table), KeyOf(c.key, MetaFor(env, c).pk))
  }

  function From(env: Env, c: Change): Loc
    requires Keyed(env, c) && c.Move?
  {
    Loc(Upper(c.table), KeyOf(c.from, MetaFor(env, c).pk))
  }

  /** What the source allows: inserts of new keys, changes of existing rows, moves to free keys. */
  ghost predicate Allowed(env: Env, db: DB, c: Change) {
    && Keyed(env, c)
    && match c
       case Ins(_, _, row) => At(env, c) !in db && row.Keys == NonKey(MetaFor(env, c))
       case Upd(_, _, p) => At(env, c) in db && p.Keys <= NonKey(MetaFor(env, c))
       case Del(_, _) => At(env, c) in db
       case Move(_, from, _, p) =>
         && From(env, c) in db && At(env, c) !in db && From(env, c) != At(env, c)
         && p.Keys <= NonKey(MetaFor(env, c)) && from != map[]
  }

  /** The source's own state after a change. */
  function Changed(env: Env, db: DB, c: Change): DB
    requires Allowed(env, db, c)
  {
    match c
    case Ins(_, _, row) => db[At(env, c) := row]
    case Upd(_, _, p) => db[At(env, c) := db[At(env, c)] + p]
    case Del(_, _) => db - {At(env, c)}
    case Move(_, _, _, p) => (db - {From(env, c)})[At(env, c) := db[From(env, c)] + p]
  }

  ghost predicate History(env: Env, db: DB, cs: seq<Change>)
    decreases |cs|, 0
  {
    cs == [] || (History(env, db, cs[..|cs| - 1]) && Allowed(env, After(env, db, cs[..|cs| - 1]), cs[|cs| - 1]))
  }

  ghost function After(env: Env, db: DB, cs: seq<Change>): DB
    requires History(env, db, cs)
    decreases |cs|, 1
  {
    if cs == [] then db else Changed(env, After(env, db, cs[..|cs| - 1]), cs[|cs| - 1])
  }

  /** The record of a change, but for its position and transaction tags. */
  function Emitted(env: Env, c: Change): Record
    requires Keyed(env, c)
  {
    var key := KeyImage(MetaFor(env, c), c.key);
    match c
    case Ins(t, _, row) => Record(Insert, t, key, row + key, map[], Absent, None, false)
    case Upd(t, _, p) => Record(Update, t, key, p + key, map[], Absent, None, false)
    case Del(t, _) => Record(Delete, t, key, map[], map[], Absent, None, false)
    case Move(t, from, _, p) =>
      Record(Update, t, key, p + key, KeyImage(MetaFor(env, c), from), Absent, None, false)
  }

  /** A captured record says what the change says. */
  ghost predicate Says(env: Env, r: Record, c: Change) {
    Keyed(env, c) && r.(pos := Absent, txnId := None, txnEnd := false) == Emitted(env, c)
  }

  ghost predicate SaysAll(env: Env, rs: seq<Record>, cs: seq<Change>) {
    |rs| == |cs| && forall i :: 0 <= i < |rs| ==> Says(env, rs[i], cs[i])
  }

  // ---------------------------------------------------------------- one change

  lemma PatchOf(m: Meta, p: Row, key: Image)
    requires p.Keys <= NonKey(m)
    ensures Patch(m, p + KeyImage(m, key)) == p
  {
  }

  /** Applying a change's record does to an equal target what the change did to the source: omitted
      columns keep their values, a move takes the row along. */
  lemma SameStep(env: Env, db: DB, c: Change, r: Record)
    requires Allowed(env, db, c) && Says(env, r, c) && !env.drop(r) && ValidDB(env.schema, db)
    ensures Step(env, db, r) == Changed(env, db, c) && ValidDB(env.schema, Changed(env, db, c))
  {
    var m := MetaFor(env, c);
    KeyOfImage(m, c.key);
    assert Known(env, r) && LocOf(env, r) == At(env, c);
    match c
    case Ins(_, _, row) => InsertStep(env, db, c, r);
    case Upd(_, _, p) => UpdateStep(env, db, c, r);
    case Del(_, _) =>
    case Move(_, from, _, p) => MoveStep(env, db, c, r);
  }

  lemma InsertStep(env: Env, db: DB, c: Change, r: Record)
    requires c.Ins? && Allowed(env, db, c) && Says(env, r, c) && !env.drop(r) && ValidDB(env.schema, db)
    requires Known(env, r) && LocOf(env, r) == At(env, c)
    ensures Step(env, db, r) == Changed(env, db, c) && ValidDB(env.schema, Changed(env, db, c))
  {
    var m := MetaFor(env, c);
    PatchOf(m, c.row, c.key);
    assert Classify(r, m) == KindFull;
    assert Blank(m) + c.row == c.row;
  }

  lemma UpdateStep(env: Env, db: DB, c: Change, r: Record)
    requires c.Upd? && Allowed(env, db, c) && Says(env, r, c) && !env.drop(r) && ValidDB(env.schema, db)
    requires Known(env, r) && LocOf(env, r) == At(env, c)
    ensures Step(env, db, r) == Changed(env, db, c) && ValidDB(env.schema, Changed(env, db, c))
  {
    var m, row := MetaFor(env, c), db[At(env, c)];
    PatchOf(m, c.provided, c.key);
    assert row.Keys == NonKey(m);
    if Classify(r, m) == KindFull {
      assert c.provided.Keys == NonKey(m) by {
        forall n | n in NonKey(m) ensures n in c.provided {
          assert n in r.after;
        }
      }
      assert Blank(m) + c.provided == row + c.provided;
    } else if c.provided == map[] {
      assert row + c.provided == row;
    }
    assert (row + c.provided).Keys == NonKey(m);
  }

  lemma MoveStep(env: Env, db: DB, c: Change, r: Record)
    requires c.Move? && Allowed(env, db, c) && Says(env, r, c) && !env.drop(r) && ValidDB(env.schema, db)
    requires Known(env, r) && LocOf(env, r) == At(env, c)
    ensures Step(env, db, r) == Changed(env, db, c) && ValidDB(env.schema, Changed(env, db, c))
    ensures IsKeymove(env, r)
  {
    var m := MetaFor(env, c);
    KeyOfImage(m, c.from);
    KeyOfImage(m, c.key);
    PatchOf(m, c.provided, c.key);
    assert m.pk[0] in KeyImage(m, c.from);
    assert OldLoc(env, r) == From(env, c);
    assert db[From(env, c)].Keys == NonKey(m);
  }

  // ---------------------------------------------------------------- the captures say it

  /** The row event of a change under full row images; `rest` is whatever else the old row held. */
  function BinlogRow(env: Env, c: Change, rest: Row): MySqlCapture.RowImage
    requires Keyed(env, c)
  {
    var m := MetaFor(env, c);
    var key := KeyImage(m, c.key);
    match c
    case Ins(_, _, row) => MySqlCapture.Written(row + key)
    case Upd(_, _, p) => MySqlCapture.Updated(rest + key, p + key)
    case Del(_, _) => MySqlCapture.Deleted(rest + key)
    case Move(_, from, _, p) => MySqlCapture.Updated(rest + KeyImage(m, from), p + key)
  }

  lemma BinlogSays(env: Env, c: Change, rest: Row, pos: SourcePos)
    requires Keyed(env, c) && (c.Move? ==> At(env, c) != From(env, c))
    ensures Says(env, MySqlCapture.RowRecord(MetaFor(env, c), c.table, BinlogRow(env, c, rest), pos), c)
  {
    var m := MetaFor(env, c);
    KeyImageOver(m, rest, c.key);
    match c
    case Ins(_, _, row) => KeyImageOver(m, row, c.key);
    case Upd(_, _, p) => KeyImageOver(m, p, c.key);
    case Del(_, _) =>
    case Move(_, from, _, p) =>
      KeyImageOver(m, p, c.key);
      KeyImageOver(m, rest, from);
      KeyOfImage(m, from);
      KeyOfImage(m, c.key);
  }

  /** The images hold every column of the table, and every column in them has a name. */
  ghost predicate WholeRow(env: Env, c: Change, rest: Row) {
    && Keyed(env, c)
    && (forall n :: n in MetaFor(env, c).cols || n in rest ==> !MySqlCapture.Placeholder(n))
    && match c
       case Ins(_, _, row) => row.Keys == NonKey(MetaFor(env, c))
       case Upd(_, _, p) => p.Keys == NonKey(MetaFor(env, c))
       case Del(_, _) => true
       case Move(_, _, _, p) => p.Keys == NonKey(MetaFor(env, c))
  }

  /** The row of any change under full images is accepted. */
  lemma BinlogAccepted(env: Env, c: Change, rest: Row)
    requires WholeRow(env, c, rest)
    ensures MySqlCapture.RowOk(MetaFor(env, c), BinlogRow(env, c, rest))
  {
    hide MySqlCapture.RowOk, MySqlCapture.Placeholder;
    var m := MetaFor(env, c);
    assert m.pk[0] in m.pk && m.pk[0] in KeyImage(m, c.key);
    if c.Move? { assert m.pk[0] in KeyImage(m, c.from); }
    assert MySqlCapture.FullRow(m, BinlogRow(env, c, rest));
    MySqlCapture.AcceptsFull(m, BinlogRow(env, c, rest));
  }

  lemma KeyImageOver(m: Meta, row: Row, key: Image)
    ensures KeyImage(m, row + KeyImage(m, key)) == KeyImage(m, key)
  {
  }

  /** The decoded line of a change: an update that leaves the key alone has no pre-image, a move has
      one, and may omit the key columns it did not change. */
  function DecodedChange(env: Env, c: Change, omitted: set<string>): PgCapture.Change
    requires Keyed(env, c)
  {
    var m := MetaFor(env, c);
    var key := KeyImage(m, c.key);
    match c
    case Ins(_, _, row) => PgCapture.Inserted(row + key)
    case Upd(_, _, p) => PgCapture.Changed(None, p + key)
    case Del(_, _) => PgCapture.Removed(key)
    case Move(_, from, _, p) => PgCapture.Changed(Some(KeyImage(m, from)), p + (key - omitted))
  }

  lemma OmittedKeyFilled(m: Meta, p: Row, from: Image, to: Image, omitted: set<string>)
    requires p.Keys <= NonKey(m) && forall k :: k in omitted && k in m.pk ==> Get(from, k) == Get(to, k)
    ensures PgCapture.Filled(p + (KeyImage(m, to) - omitted), KeyImage(m, from), m.pk) == Some(p + KeyImage(m, to))
  {
    var pre, key := KeyImage(m, from), KeyImage(m, to);
    var after := p + (key - omitted);
    var full := after + map c | c in m.pk && c !in after && c in pre :: pre[c];
    assert full.Keys == (p + key).Keys;
    assert full == p + key;
  }

  lemma DecodedSays(env: Env, c: Change, omitted: set<string>)
    requires Keyed(env, c)
    requires c.Move? ==>
               && At(env, c) != From(env, c) && c.provided.Keys <= NonKey(MetaFor(env, c))
               && forall k :: k in omitted && k in MetaFor(env, c).pk ==> Get(c.from, k) == Get(c.key, k)
    ensures var r := PgCapture.RecordOf(c.table, DecodedChange(env, c, omitted), MetaFor(env, c));
            r.Some? && Says(env, r.value, c)
  {
    var m := MetaFor(env, c);
    match c
    case Ins(_, _, row) => KeyImageOver(m, row, c.key);
    case Upd(_, _, p) => KeyImageOver(m, p, c.key);
    case Del(_, _) =>
    case Move(_, from, _, p) =>
      var pre, key := KeyImage(m, from), KeyImage(m, c.key);
      KeyOfImage(m, from);
      KeyOfImage(m, c.key);
      OmittedKeyFilled(m, p, from, c.key, omitted);
      KeyImageOver(m, p, c.key);
      assert KeyImage(m, pre) == pre;
  }

  /** The row in the binlog of a change under full row images. */
  ghost predicate LoggedRow(env: Env, tables: MySqlCapture.Tables, row: (string, MySqlCapture.RowImage), c: Change) {
    && Keyed(env, c) && row.0 == c.table && MySqlCapture.MetaFor(tables, c.table) == MetaFor(env, c)
    && exists rest :: row.1 == BinlogRow(env, c, rest)
  }

  /** The binlog events hold one row for each change, in order. */
  ghost predicate Logged(env: Env, tables: MySqlCapture.Tables, es: seq<MySqlCapture.Event>, cs: seq<Change>) {
    && |MySqlCapture.RowsOf(es)| == |cs|
    && forall i :: 0 <= i < |cs| ==> LoggedRow(env, tables, MySqlCapture.RowsOf(es)[i], cs[i])
  }

  /** A binlog written under full images and metadata. */
  ghost predicate FullyLogged(env: Env, tables: MySqlCapture.Tables, es: seq<MySqlCapture.Event>, cs: seq<Change>) {
    && |MySqlCapture.RowsOf(es)| == |cs|
    && forall i :: 0 <= i < |cs| ==> FullyLoggedRow(env, tables, MySqlCapture.RowsOf(es)[i], cs[i])
  }

  ghost predicate FullyLoggedRow(env: Env, tables: MySqlCapture.Tables, row: (string, MySqlCapture.RowImage),
                                 c: Change) {
    && Keyed(env, c) && row.0 == c.table && MySqlCapture.MetaFor(tables, c.table) == MetaFor(env, c)
    && exists rest :: row.1 == BinlogRow(env, c, rest) && WholeRow(env, c, rest)
  }

  /** Nothing in such a binlog is refused, so that every capture of it succeeds; and it logs the history. */
  lemma LogAccepted(env: Env, tables: MySqlCapture.Tables, es: seq<MySqlCapture.Event>, cs: seq<Change>)
    requires FullyLogged(env, tables, es, cs)
    ensures Logged(env, tables, es, cs)
    ensures forall e :: e in es ==> MySqlCapture.FullEvent(tables, e)
  {
    hide MySqlCapture.RowsOf, MySqlCapture.FullRow, WholeRow, BinlogRow, MySqlCapture.RowOk;
    var rows := MySqlCapture.RowsOf(es);
    forall e, row | e in es && e.Rows? && row in e.rows
      ensures MySqlCapture.FullRow(MySqlCapture.MetaFor(tables, e.table), row)
    {
      MySqlCapture.RowListed(es, e, row);
      var i :| 0 <= i < |rows| && rows[i] == (e.table, row);
      assert FullyLoggedRow(env, tables, rows[i], cs[i]);
      var rest :| row == BinlogRow(env, cs[i], rest) && WholeRow(env, cs[i], rest);
      BinlogAccepted(env, cs[i], rest);
      MySqlCapture.AcceptsFull(MetaFor(env, cs[i]), row);
    }
    forall i | 0 <= i < |cs| ensures LoggedRow(env, tables, rows[i], cs[i]) {
      assert FullyLoggedRow(env, tables, rows[i], cs[i]);
    }
  }

  lemma LoggedRowSays(env: Env, tables: MySqlCapture.Tables, row: (string, MySqlCapture.RowImage), c: Change,
                      r: Record, raw: Record, pos: SourcePos)
    requires LoggedRow(env, tables, row, c) && (c.Move? ==> At(env, c) != From(env, c))
    requires raw == MySqlCapture.RowRecord(MySqlCapture.MetaFor(tables, row.0), row.0, row.1, pos)
    requires MySqlCapture.Untagged(r) == MySqlCapture.Untagged(raw)
    ensures Says(env, r, c)
  {
    var rest :| row.1 == BinlogRow(env, c, rest);
    BinlogSays(env, c, rest, pos);
    hide MySqlCapture.RowRecord, BinlogRow, Emitted;
    assert r.(pos := Absent, txnId := None, txnEnd := false) == raw.(pos := Absent, txnId := None, txnEnd := false) by {
      assert MySqlCapture.Untagged(r).(pos := Absent) == MySqlCapture.Untagged(raw).(pos := Absent);
    }
  }

  lemma MovesApart(env: Env, db: DB, cs: seq<Change>, i: nat)
    requires History(env, db, cs) && i < |cs|
    ensures Keyed(env, cs[i]) && (cs[i].Move? ==> At(env, cs[i]) != From(env, cs[i]))
  {
    HistoryPrefix(env, db, cs, i + 1);
    assert cs[..i + 1][i] == cs[i];
    hide After;
    assert exists now :: Allowed(env, now, cs[i]) by {
      assert Allowed(env, After(env, db, cs[..i + 1][..i]), cs[i]);
    }
  }

  /** What any captures of the binlog make of a history, however they tag it, says the history. */
  lemma LogSays(env: Env, db: DB, tables: MySqlCapture.Tables, es: seq<MySqlCapture.Event>, cs: seq<Change>,
                src: seq<Record>)
    requires History(env, db, cs) && Logged(env, tables, es, cs)
    requires MySqlCapture.Retagged(src, MySqlCapture.RawAll(tables, es))
    ensures SaysAll(env, src, cs)
  {
    hide History, LoggedRow, Says, MySqlCapture.RowsOf, MySqlCapture.RawAll, MySqlCapture.RowRecord;
    hide MySqlCapture.Untagged;
    var rows, raws := MySqlCapture.RowsOf(es), MySqlCapture.RawAll(tables, es);
    MySqlCapture.RecordOfRow(tables, es);
    forall i | 0 <= i < |src| ensures Says(env, src[i], cs[i]) {
      assert MySqlCapture.RecordAt(tables, raws, rows, i);
      var pos :| raws[i] == MySqlCapture.RowRecord(MySqlCapture.MetaFor(tables, rows[i].0), rows[i].0, rows[i].1, pos);
      MovesApart(env, db, cs, i);
      LoggedRowSays(env, tables, rows[i], cs[i], src[i], raws[i], pos);
    }
  }

  // ---------------------------------------------------------------- whole histories

  lemma {:induction false} HistoryPrefix(env: Env, db: DB, cs: seq<Change>, n: nat)
    requires History(env, db, cs) && n <= |cs|
    ensures History(env, db, cs[..n])
    decreases |cs|
  {
    if n == |cs| {
      assert cs[..n] == cs;
    } else {
      HistoryPrefix(env, db, cs[..|cs| - 1], n);
      assert cs[..|cs| - 1][..n] == cs[..n];
    }
  }

  /** Folding the records of a history over an equal target gives the source's state. */
  lemma {:induction false} FoldIsHistory(env: Env, db: DB, cs: seq<Change>, rs: seq<Record>)
    requires History(env, db, cs) && SaysAll(env, rs, cs) && ValidDB(env.schema, db)
    requires forall r :: r in rs ==> !env.drop(r)
    ensures Fold(env, rs, db) == After(env, db, cs) && ValidDB(env.schema, After(env, db, cs))
  {
    if cs != [] {
      var n := |cs| - 1;
      FoldIsHistory(env, db, cs[..n], rs[..n]);
      SameStep(env, After(env, db, cs[..n]), cs[n], rs[n]);
    }
  }

  /** A history of runs that reached the end of the stream leaves the source's state. */
  lemma EndIsSource(env: Env, db0: DB, cs: seq<Change>, src: seq<Record>, db: DB)
    requires History(env, db0, cs) && SaysAll(env, src, cs) && ValidDB(env.schema, db0)
    requires forall r :: r in src ==> !env.drop(r)
    requires Converging(env, src, {}, 0, db0, |src|, db)
    ensures db == After(env, db0, cs)
  {
    hide History, SaysAll, After, Fold;
    LiveAll(src, {}, 0, |src|);
    LiveAll(src, {}, |src|, |src|);
    assert src[0..|src|] == src && src[|src|..|src|] == [];
    FoldNothing(env, db);
    FoldIsHistory(env, db0, cs, src);
  }

  /** Source to target: a trail that holds the whole source stream exactly once, applied to its end by
      any history of crashing runs, leaves the target in the source's state. */
  lemma EndToEnd(env: Env, db0: DB, cs: seq<Change>, src: seq<Record>, trailed: seq<Record>, pos: Option<int>, db: DB)
    requires History(env, db0, cs) && SaysAll(env, src, cs) && ValidDB(env.schema, db0)
    requires forall r :: r in src ==> !env.drop(r)
    requires ExactlyOnce(src, trailed, |src|, pos) && forall r :: r in trailed ==> r in src
    requires Converging(env, trailed, {}, 0, db0, |trailed|, db)
    ensures db == After(env, db0, cs)
  {
    hide History, SaysAll, After, Converging;
    CapturedAll(trailed, src);
    assert trailed == src;
    EndIsSource(env, db0, cs, src, db);
  }

  lemma SaysPrefix(env: Env, rs: seq<Record>, cs: seq<Change>, m: nat)
    requires SaysAll(env, rs, cs) && m <= |rs|
    ensures |rs| == |cs| && SaysAll(env, rs[..m], cs[..m]) && forall r :: r in rs[..m] ==> r in rs
  {
    hide Says;
  }

  /** Every target state committed at a transaction boundary is a state the source itself had at that
      transaction's end. */
  lemma CommittedStates(env: Env, db0: DB, cs: seq<Change>, src: seq<Record>, db: DB) returns (m: nat)
    requires History(env, db0, cs) && SaysAll(env, src, cs) && ValidDB(env.schema, db0)
    requires forall r :: r in src ==> !env.drop(r)
    requires BoundaryState(env, src, {}, 0, db0, db)
    ensures m <= |cs| && History(env, db0, cs[..m]) && Boundary(src, m) && db == After(env, db0, cs[..m])
  {
    hide History, SaysAll, After, Fold, Boundary, Says, ValidDB;
    m :| 0 < m <= |src| && Boundary(src, m) && db == Fold(env, Live(src, {}, 0, m), db0);
    hide Live;
    LiveAll(src, {}, 0, m);
    SaysPrefix(env, src, cs, m);
    HistoryPrefix(env, db0, cs, m);
    assert src[0..m] == src[..m];
    FoldIsHistory(env, db0, cs[..m], src[..m]);
  }
}
