/** How batches of driver calls relate to the record-by-record reference semantics. */
module ApplyLemmas {
  import opened Records
  import opened Store
  import opened Replay
  import opened Target

  /** A maximal run of neighbours of one kind. */
  datatype Run = Run(kind: Kind, recs: seq<Record>)

  function Flatten(runs: seq<Run>): seq<Record> {
    if runs == [] then [] else Flatten(runs[..|runs| - 1]) + runs[|runs| - 1].recs
  }

  /** All records of the run belong to table `t` and have the run's kind. */
  ghost predicate RunOf(env: Env, t: string, run: Run) {
    && t in env.schema && env.schema[t].pk != []
    && forall r :: r in run.recs ==> Upper(r.table) == t && Classify(r, env.schema[t]) == run.kind
  }

  /** Maximal homogeneous runs: none empty, neighbours of different kinds. */
  ghost predicate MaximalRuns(env: Env, t: string, runs: seq<Run>) {
    && (forall i :: 0 <= i < |runs| ==> runs[i].recs != [] && RunOf(env, t, runs[i]))
    && (forall i :: 0 < i < |runs| ==> runs[i - 1].kind != runs[i].kind)
  }

  /** The runs closed and the run still open after the first `i` records. */
  ghost predicate Grouped(env: Env, t: string, runs: seq<Run>, run: Run, rs: seq<Record>, i: nat) {
    && i <= |rs| && (i == 0 <==> run.recs == [])
    && Flatten(runs) + run.recs == rs[..i]
    && MaximalRuns(env, t, runs) && RunOf(env, t, run)
    && (runs != [] ==> runs[|runs| - 1].kind != run.kind)
  }

  lemma NothingGrouped(env: Env, t: string, rs: seq<Record>)
    requires t in env.schema && env.schema[t].pk != []
    ensures Grouped(env, t, [], Run(KindDelete, []), rs, 0)
  {
  }

  lemma AllGrouped(env: Env, t: string, runs: seq<Run>, run: Run, rs: seq<Record>)
    requires Grouped(env, t, runs, run, rs, |rs|)
    ensures var all := if run.recs != [] then runs + [run] else runs;
            Flatten(all) == rs && MaximalRuns(env, t, all)
  {
    assert rs[..|rs|] == rs;
    if run.recs != [] {
      CloseRun(env, t, runs, run);
    }
  }

  lemma GrowRun(env: Env, t: string, runs: seq<Run>, run: Run, rs: seq<Record>, i: nat, kind: Kind)
    requires Grouped(env, t, runs, run, rs, i) && i < |rs|
    requires t in env.schema && Upper(rs[i].table) == t && kind == Classify(rs[i], env.schema[t])
    requires run.recs != [] ==> kind == run.kind
    ensures Grouped(env, t, runs, Run(kind, run.recs + [rs[i]]), rs, i + 1)
  {
    hide Flatten, MaximalRuns;
    assert rs[..i + 1] == rs[..i] + [rs[i]];
    assert Flatten(runs) + (run.recs + [rs[i]]) == (Flatten(runs) + run.recs) + [rs[i]];
    if run.recs == [] {
      assert i == 0 && runs == [] by { EmptyFlatten(env, t, runs); }
    }
  }

  lemma EmptyFlatten(env: Env, t: string, runs: seq<Run>)
    requires MaximalRuns(env, t, runs) && Flatten(runs) == []
    ensures runs == []
  {
  }

  lemma NextRun(env: Env, t: string, runs: seq<Run>, run: Run, rs: seq<Record>, i: nat, kind: Kind)
    requires Grouped(env, t, runs, run, rs, i) && i < |rs| && run.recs != []
    requires t in env.schema && Upper(rs[i].table) == t && kind == Classify(rs[i], env.schema[t]) && kind != run.kind
    ensures Grouped(env, t, runs + [run], Run(kind, [rs[i]]), rs, i + 1)
  {
    CloseRun(env, t, runs, run);
    hide Flatten, MaximalRuns;
    assert rs[..i + 1] == rs[..i] + [rs[i]];
  }

  lemma CloseRun(env: Env, t: string, runs: seq<Run>, run: Run)
    requires MaximalRuns(env, t, runs) && RunOf(env, t, run) && run.recs != []
    requires runs != [] ==> runs[|runs| - 1].kind != run.kind
    ensures MaximalRuns(env, t, runs + [run]) && Flatten(runs + [run]) == Flatten(runs) + run.recs
  {
    hide RunOf, Flatten;
    FlattenOne(runs, run);
    ClosedRuns(env, t, runs, run);
  }

  lemma ClosedRuns(env: Env, t: string, runs: seq<Run>, run: Run)
    requires MaximalRuns(env, t, runs) && RunOf(env, t, run) && run.recs != []
    requires runs != [] ==> runs[|runs| - 1].kind != run.kind
    ensures MaximalRuns(env, t, runs + [run])
  {
    hide RunOf;
    var all := runs + [run];
    forall i | 0 <= i < |all| ensures all[i].recs != [] && RunOf(env, t, all[i]) {
      assert all[i] == if i < |runs| then runs[i] else run;
    }
    forall i | 0 < i < |all| ensures all[i - 1].kind != all[i].kind {
      assert all[i] == if i < |runs| then runs[i] else run;
      assert all[i - 1] == runs[i - 1];
    }
  }

  lemma FlattenOne(runs: seq<Run>, run: Run)
    ensures Flatten(runs + [run]) == Flatten(runs) + run.recs
  {
    assert (runs + [run])[..|runs|] == runs;
  }

  /** What the apply relies on for one record: a sound image, and a poison policy that leaves
      out exactly what the target refuses. */
  ghost predicate Sound(env: Env, r: Record) {
    WellFormed(env, r) && (!IsKeymove(env, r) ==> (env.drop(r) <==> Refused(env, r)))
  }

  ghost predicate AllSound(env: Env, rs: seq<Record>) {
    forall r :: r in rs ==> Sound(env, r)
  }

  function KeyImages(m: Meta, rs: seq<Record>): (s: seq<Image>)
    ensures |s| == |rs| && forall i :: 0 <= i < |s| ==> s[i] == KeyImage(m, rs[i].key)
  {
    seq(|rs|, i requires 0 <= i < |rs| => KeyImage(m, rs[i].key))
  }

  function AfterImages(m: Meta, rs: seq<Record>): (s: seq<Image>)
    ensures |s| == |rs| && forall i :: 0 <= i < |s| ==> s[i] == Present(m, rs[i].after)
  {
    seq(|rs|, i requires 0 <= i < |rs| => Present(m, rs[i].after))
  }

  lemma KeyOfImage(m: Meta, key: Image)
    ensures KeyOf(KeyImage(m, key), m.pk) == KeyOf(key, m.pk)
  {
    forall i | 0 <= i < |m.pk| ensures Get(KeyImage(m, key), m.pk[i]) == Get(key, m.pk[i]) {
      assert m.pk[i] in m.pk;
    }
  }

  lemma KeyOfPresent(env: Env, r: Record)
    requires ValidSchema(env.schema) && Known(env, r) && WellFormed(env, r) && r.op != Delete
    ensures KeyOf(Present(MetaOf(env, r), r.after), MetaOf(env, r).pk) == LocOf(env, r).key
  {
    var m := MetaOf(env, r);
    forall i | 0 <= i < |m.pk| ensures Get(Present(m, r.after), m.pk[i]) == Get(r.key, m.pk[i]) {
      assert m.pk[i] in m.pk;
    }
  }

  // ---------------------------------------------------------------- deletes

  /** A record of table `t` and kind `kind`. */
  ghost predicate Of(env: Env, t: string, kind: Kind, r: Record) {
    t in env.schema && env.schema[t].pk != [] && Upper(r.table) == t && Classify(r, env.schema[t]) == kind
  }

  lemma StepDelete(env: Env, t: string, r: Record, db: DB)
    requires Of(env, t, KindDelete, r) && Sound(env, r)
    requires !env.refuses(t, KeyImage(env.schema[t], r.key))
    ensures Step(env, db, r) == db - {Loc(t, KeyOf(KeyImage(env.schema[t], r.key), env.schema[t].pk))}
  {
    KeyOfImage(env.schema[t], r.key);
  }

  lemma RemoveOneMore(m: Meta, t: string, db: DB, ws: seq<Image>, w: Image)
    ensures RemoveKeys(m, t, db, ws + [w]) == RemoveKeys(m, t, db, ws) - {Loc(t, KeyOf(w, m.pk))}
  {
  }

  /** One batched delete is the fold of its run. */
  lemma {:induction false} DeleteRun(env: Env, t: string, rs: seq<Record>, db: DB)
    requires forall r :: r in rs ==> Of(env, t, KindDelete, r) && Sound(env, r)
    requires t in env.schema
    requires forall w :: w in KeyImages(env.schema[t], rs) ==> !env.refuses(t, w)
    ensures Fold(env, rs, db) == RemoveKeys(env.schema[t], t, db, KeyImages(env.schema[t], rs))
  {
    var m := env.schema[t];
    if rs == [] {
      assert KeyImages(m, rs) == [];
    } else {
      var rs', r := rs[..|rs| - 1], rs[|rs| - 1];
      var w := KeyImage(m, r.key);
      assert KeyImages(m, rs) == KeyImages(m, rs') + [w];
      assert w in KeyImages(m, rs);
      DeleteRun(env, t, rs', db);
      StepDelete(env, t, r, Fold(env, rs', db));
      RemoveOneMore(m, t, db, KeyImages(m, rs'), w);
    }
  }

  // ---------------------------------------------------------------- full images

  lemma {:induction false} LastByKeyFrom(images: seq<Image>, pk: seq<string>, k: Key)
    requires k in LastByKey(images, pk)
    ensures LastByKey(images, pk)[k] in images && KeyOf(LastByKey(images, pk)[k], pk) == k
  {
    var last := images[|images| - 1];
    if KeyOf(last, pk) != k {
      LastByKeyFrom(images[..|images| - 1], pk, k);
    }
  }

  lemma StepFull(env: Env, t: string, r: Record, db: DB, loc: Loc)
    requires ValidSchema(env.schema) && Of(env, t, KindFull, r) && Sound(env, r)
    ensures var m := env.schema[t];
            var image := Present(m, r.after);
            CellAt(Step(env, db, r), loc) ==
              if loc != Loc(t, KeyOf(image, m.pk)) || env.refuses(t, image) then CellAt(db, loc)
              else Some(Blank(m) + Patch(m, image))
  {
    var m := env.schema[t];
    KeyOfPresent(env, r);
    assert Patch(m, Present(m, r.after)) == Patch(m, r.after);
  }

  /** After folding a run of full images, each key whose last image the target accepts holds that
      image, and every other cell is untouched. */
  ghost predicate HoldsLast(env: Env, t: string, last: map<Key, Image>, before: DB, now: DB, loc: Loc)
    requires t in env.schema
  {
    var m := env.schema[t];
    if loc.table == t && loc.key in last then
      !env.refuses(t, last[loc.key]) ==> CellAt(now, loc) == Some(Blank(m) + Patch(m, last[loc.key]))
    else CellAt(now, loc) == CellAt(before, loc)
  }

  lemma {:induction false} FullRunCells(env: Env, t: string, rs: seq<Record>, db: DB, loc: Loc)
    requires ValidSchema(env.schema) && t in env.schema
    requires forall r :: r in rs ==> Of(env, t, KindFull, r) && Sound(env, r)
    ensures HoldsLast(env, t, LastByKey(AfterImages(env.schema[t], rs), env.schema[t].pk),
                      db, Fold(env, rs, db), loc)
  {
    var m := env.schema[t];
    if rs == [] {
      assert AfterImages(m, rs) == [];
    } else {
      var rs', r := rs[..|rs| - 1], rs[|rs| - 1];
      assert AfterImages(m, rs)[..|rs| - 1] == AfterImages(m, rs');
      FullRunCells(env, t, rs', db, loc);
      StepFull(env, t, r, Fold(env, rs', db), loc);
    }
  }

  /** A full image leaves nothing of the stored row: merging and replacing upserts agree. */
  lemma UpsertedFull(merge: bool, m: Meta, stored: Option<Row>, image: Image)
    requires Patch(m, image).Keys == NonKey(m)
    requires stored.Some? ==> stored.value.Keys == NonKey(m)
    ensures Upserted(merge, m, stored, image) == Blank(m) + Patch(m, image) == Patch(m, image)
  {
  }

  lemma LastIsPut(env: Env, merge: bool, t: string, last: map<Key, Image>, db: DB, now: DB)
    requires t in env.schema && ValidDB(env.schema, db)
    requires forall k :: k in last ==> Patch(env.schema[t], last[k]).Keys == NonKey(env.schema[t])
    requires !AnyRefused(env, t, last)
    requires forall loc :: HoldsLast(env, t, last, db, now, loc)
    ensures now == PutRows(merge, env.schema[t], t, db, last)
  {
    var m := env.schema[t];
    var next := PutRows(merge, m, t, db, last);
    forall loc ensures CellAt(now, loc) == CellAt(next, loc) {
      assert HoldsLast(env, t, last, db, now, loc);
      PutRowsAt(merge, m, t, db, last, loc);
      if loc.table == t && loc.key in last {
        UpsertedFull(merge, m, CellAt(db, loc), last[loc.key]);
      }
    }
    SameCells(now, next);
  }

  /** One batched upsert, merging or replacing, is the fold of its run. */
  lemma FullRun(env: Env, merge: bool, t: string, rs: seq<Record>, db: DB)
    requires ValidSchema(env.schema) && ValidDB(env.schema, db) && t in env.schema
    requires forall r :: r in rs ==> Of(env, t, KindFull, r) && Sound(env, r)
    requires !AnyRefused(env, t, LastByKey(AfterImages(env.schema[t], rs), env.schema[t].pk))
    ensures Fold(env, rs, db) ==
            PutRows(merge, env.schema[t], t, db,
                    LastByKey(AfterImages(env.schema[t], rs), env.schema[t].pk))
  {
    var m := env.schema[t];
    var images := AfterImages(m, rs);
    var last := LastByKey(images, m.pk);
    forall k | k in last ensures Patch(m, last[k]).Keys == NonKey(m) {
      LastByKeyFrom(images, m.pk, k);
      var i :| 0 <= i < |images| && images[i] == last[k];
      assert rs[i] in rs;
    }
    forall loc ensures HoldsLast(env, t, last, db, Fold(env, rs, db), loc) {
      FullRunCells(env, t, rs, db, loc);
    }
    LastIsPut(env, merge, t, last, db, Fold(env, rs, db));
  }

  // ---------------------------------------------------------------- single images

  /** The in-place refresh of the row at `loc`, if there is one. */
  function Refresh(m: Meta, db: DB, loc: Loc, after: Image): DB {
    if loc in db then db[loc := db[loc] + Patch(m, after)] else db
  }

  lemma PatchKeepsKey(m: Meta, wh: Image, patch: Image)
    requires patch.Keys <= NonKey(m)
    ensures KeyAfter(m, wh, patch) == KeyOf(wh, m.pk) && Patch(m, patch) == patch
  {
    forall i | 0 <= i < |m.pk| ensures Get(wh + patch, m.pk[i]) == Get(wh, m.pk[i]) {
      assert m.pk[i] in m.pk;
    }
  }

  /** The keyed update of a partial image is its whole effect when the row exists, and none
      otherwise. */
  lemma UpdatePresent(m: Meta, t: string, db: DB, wh: Image, after: Image)
    ensures var loc := Loc(t, KeyOf(wh, m.pk));
            UpdateRow(m, t, db, wh, Patch(m, after)) == Refresh(m, db, loc, after)
    ensures !KeyTaken(m, t, db, wh, Patch(m, after))
  {
    PatchKeepsKey(m, wh, Patch(m, after));
    var loc := Loc(t, KeyOf(wh, m.pk));
    if loc in db {
      assert (db - {loc})[loc := db[loc] + Patch(m, after)] == db[loc := db[loc] + Patch(m, after)];
    }
  }

  /** Inserting the provided columns of an absent row: merging and replacing upserts agree. */
  lemma InsertProvided(env: Env, merge: bool, t: string, db: DB, r: Record)
    requires ValidSchema(env.schema) && t in env.schema && env.schema[t].pk != []
    requires Upper(r.table) == t && WellFormed(env, r) && r.op != Delete
    requires LocOf(env, r) !in db
    ensures var m := env.schema[t];
            LastByKey([Present(m, r.after)], m.pk) == map[LocOf(env, r).key := Present(m, r.after)] &&
            PutRows(merge, m, t, db, LastByKey([Present(m, r.after)], m.pk)) ==
              db[LocOf(env, r) := Blank(m) + Patch(m, r.after)]
  {
    var m, loc := env.schema[t], LocOf(env, r);
    var image := Present(m, r.after);
    KeyOfPresent(env, r);
    assert Patch(m, image) == Patch(m, r.after);
    assert [image][..0] == [];
    assert LastByKey([image], m.pk) == map[loc.key := image];
    var next := PutRows(merge, m, t, db, map[loc.key := image]);
    forall l ensures CellAt(next, l) == CellAt(db[loc := Blank(m) + Patch(m, image)], l) {
      PutRowsAt(merge, m, t, db, map[loc.key := image], l);
    }
    SameCells(next, db[loc := Blank(m) + Patch(m, image)]);
  }

  lemma PartialStep(env: Env, t: string, r: Record, db: DB)
    requires Of(env, t, KindPartial, r) && Sound(env, r) && !Refused(env, r)
    ensures var m, loc := env.schema[t], LocOf(env, r);
            Step(env, db, r) ==
              if Patch(m, r.after) == map[] then db
              else if loc in db then Refresh(m, db, loc, r.after)
              else db[loc := Blank(m) + Patch(m, r.after)]
  {
  }

  lemma OneRefused(env: Env, t: string, key: Key, image: Image)
    ensures AnyRefused(env, t, map[key := image]) <==> env.refuses(t, image)
  {
    var byKey := map[key := image];
    assert key in byKey && byKey[key] == image;
  }

  lemma PartialRefused(env: Env, t: string, r: Record)
    requires Of(env, t, KindPartial, r) && Sound(env, r)
    ensures var m := env.schema[t];
            Refused(env, r) <==> Patch(m, r.after) != map[] && env.refuses(t, Present(m, r.after))
    ensures Upper(r.table) == t && WellFormed(env, r) && r.op != Delete
  {
  }

  lemma PartialImage(env: Env, t: string, r: Record)
    requires ValidSchema(env.schema) && Of(env, t, KindPartial, r) && Sound(env, r)
    ensures var m := env.schema[t];
            KeyImage(m, r.key) + Patch(m, r.after) == Present(m, r.after) &&
            Loc(t, KeyOf(KeyImage(m, r.key), m.pk)) == LocOf(env, r)
  {
    KeyOfImage(env.schema[t], r.key);
  }

  // ---------------------------------------------------------------- moves, step by step

  /** Every intermediate state of a move leads to the same result when the move is redone. */
  lemma MoveStages(m: Meta, db: DB, from: Loc, to: Loc, after: Image)
    requires from != to
    ensures var s1 := Refresh(m, db, from, after);
            MoveRow(m, s1, from, to, after) == MoveRow(m, db, from, to, after)
    ensures from in db ==>
              var s2 := Refresh(m, db, from, after) - {to};
              MoveRow(m, s2, from, to, after) == MoveRow(m, db, from, to, after) &&
              (s2 - {from})[to := s2[from]] == MoveRow(m, db, from, to, after)
    ensures from !in db && to in db ==> Refresh(m, db, to, after) == MoveRow(m, db, from, to, after)
    ensures MoveRow(m, MoveRow(m, db, from, to, after), from, to, after) == MoveRow(m, db, from, to, after)
  {
    var p := Patch(m, after);
    MoveIdempotent(m, db, from, to, after);
    assert forall row: Row :: row + p + p == row + p;
    if from in db {
      var s1 := Refresh(m, db, from, after);
      var s2 := s1 - {to};
      assert from in s2 && s2[from] == db[from] + p;
      assert (s1 - {from})[to := db[from] + p] == (db - {from})[to := db[from] + p];
      assert (s2 - {from})[to := db[from] + p] == (db - {from})[to := db[from] + p];
    }
  }

  /** The states a move passes through, and that redoing it from any of them ends the same way. */
  lemma MoveSteps(env: Env, t: string, r: Record, db: DB)
    requires Of(env, t, KindKeymove, r)
    ensures var m, from, to := env.schema[t], OldLoc(env, r), LocOf(env, r);
            var once, s1 := Step(env, db, r), Refresh(m, db, from, r.after);
            && from != to
            && Step(env, once, r) == once
            && Step(env, s1, r) == once
            && (from in db ==>
                  && from in s1 - {to}
                  && Step(env, s1 - {to}, r) == once
                  && ((s1 - {to}) - {from})[to := s1[from]] == once)
            && (from !in db && to in db ==> Refresh(m, db, to, r.after) == once)
            && (from !in db && to !in db ==> once == db[to := Blank(m) + Patch(m, r.after)])
  {
    MoveStages(env.schema[t], db, OldLoc(env, r), LocOf(env, r), r.after);
  }

  /** Only a move can meet a refused image, and the state decides which. */
  lemma MoveRejectsRefused(env: Env, db: DB, r: Record)
    requires Known(env, r) && MoveRejects(env, db, r)
    ensures MoveRefused(env, r)
  {
  }

  /** What the record of a move brings to its new key. */
  lemma MovedImage(env: Env, t: string, r: Record, db: DB)
    requires ValidSchema(env.schema) && Of(env, t, KindKeymove, r) && Sound(env, r)
    ensures var m, wh := env.schema[t], KeyImage(env.schema[t], r.key);
            && Known(env, r) && Upper(r.table) == t && WellFormed(env, r) && r.op != Delete
            && wh.Keys == (set c | c in m.pk) && Loc(t, KeyOf(wh, m.pk)) == LocOf(env, r)
            && wh + Patch(m, r.after) == Present(m, r.after)
            && (LocOf(env, r) !in db ==> Refresh(m, db, LocOf(env, r), r.after) == db)
            && (OldLoc(env, r) !in db ==>
                  (MoveRejects(env, db, r) <==> env.refuses(t, wh + Patch(m, r.after))))
  {
    KeyOfImage(env.schema[t], r.key);
  }

  lemma MoveOf(env: Env, t: string, r: Record)
    requires Of(env, t, KindKeymove, r)
    ensures Known(env, r) && IsKeymove(env, r)
  {
  }

  lemma StuckOn(env: Env, rs: seq<Record>, r: Record)
    requires r in rs && Known(env, r) && IsKeymove(env, r) && MoveRefused(env, r)
    ensures Stuck(env, rs)
  {
    hide IsKeymove, MoveRefused, Refusing, Known;
  }

  lemma StuckWider(env: Env, rs: seq<Record>, all: seq<Record>)
    requires forall r :: r in rs ==> r in all
    ensures Refusing(env, rs) ==> Refusing(env, all)
    ensures Stuck(env, rs) ==> Stuck(env, all)
  {
    hide IsKeymove, MoveRefused, Refused, Known;
  }

  /** The key images of a move address its two locations. */
  lemma MoveKeys(env: Env, t: string, r: Record, db: DB)
    requires ValidSchema(env.schema) && Of(env, t, KindKeymove, r)
    ensures var m := env.schema[t];
            var oldWh, newWh := KeyImage(m, r.beforeKey), KeyImage(m, r.key);
            && Known(env, r) && IsKeymove(env, r)
            && oldWh.Keys == newWh.Keys == (set c | c in m.pk)
            && Loc(t, KeyOf(oldWh, m.pk)) == OldLoc(env, r) && Loc(t, KeyOf(newWh, m.pk)) == LocOf(env, r)
            && RemoveKeys(m, t, db, [newWh]) == db - {LocOf(env, r)}
  {
    var m := env.schema[t];
    KeyOfImage(m, r.beforeKey);
    KeyOfImage(m, r.key);
    RemoveOne(m, t, db, KeyImage(m, r.key));
  }

  lemma RemoveOne(m: Meta, t: string, db: DB, wh: Image)
    ensures RemoveKeys(m, t, db, [wh]) == db - {Loc(t, KeyOf(wh, m.pk))}
  {
    assert (set w | w in [wh] :: Loc(t, KeyOf(w, m.pk))) == {Loc(t, KeyOf(wh, m.pk))};
  }

  lemma FoldStart(env: Env, rs: seq<Record>, db: DB)
    ensures Fold(env, rs[..0], db) == db
  {
  }

  lemma FoldAlong(env: Env, rs: seq<Record>, i: nat, db: DB)
    requires i < |rs|
    ensures Fold(env, rs[..i + 1], db) == Step(env, Fold(env, rs[..i], db), rs[i])
  {
    hide Step;
    assert rs[..i + 1][..i] == rs[..i];
  }

  lemma OneStep(env: Env, rs: seq<Record>, db: DB)
    requires |rs| == 1
    ensures Fold(env, rs, db) == Step(env, db, rs[0])
  {
    hide Step;
    FoldAlong(env, rs, 0, db);
    assert rs[..1] == rs && rs[..0] == [];
  }

  /** A completed move does nothing when it is redone. */
  lemma WholeMove(env: Env, t: string, rs: seq<Record>, db: DB)
    requires |rs| == 1 && Of(env, t, KindKeymove, rs[0])
    ensures Fold(env, rs, Fold(env, rs, db)) == Fold(env, rs, db)
  {
    hide Fold, Step, OldLoc, LocOf, Of;
    OneStep(env, rs, db);
    OneStep(env, rs, Fold(env, rs, db));
    MoveSteps(env, t, rs[0], db);
  }

  /** Setting a key column to its own value matches the row and changes nothing. */
  lemma ProbeChangesNothing(m: Meta, t: string, db: DB, wh: Image, probe: Image, after: Image)
    requires Patch(m, after) == map[] && probe.Keys <= (set c | c in m.pk)
    requires forall c :: c in probe ==> c in wh && wh[c] == probe[c]
    ensures UpdateRow(m, t, db, wh, probe) == Refresh(m, db, Loc(t, KeyOf(wh, m.pk)), after)
    ensures !KeyTaken(m, t, db, wh, probe)
  {
    var loc := Loc(t, KeyOf(wh, m.pk));
    assert wh + probe == wh;
    assert Patch(m, probe) == map[];
    if loc in db {
      assert db[loc] + map[] == db[loc];
      assert (db - {loc})[loc := db[loc]] == db;
    }
  }

  /** Overwriting the key columns moves the row, keeping all its other columns. */
  lemma RekeyRow(m: Meta, t: string, db: DB, oldWh: Image, newWh: Image)
    requires oldWh.Keys == newWh.Keys == (set c | c in m.pk)
    ensures var from, to := Loc(t, KeyOf(oldWh, m.pk)), Loc(t, KeyOf(newWh, m.pk));
            && KeyAfter(m, oldWh, newWh) == to.key && oldWh + newWh == newWh
            && (from in db ==> UpdateRow(m, t, db, oldWh, newWh) == (db - {from})[to := db[from]])
            && (to !in db ==> !KeyTaken(m, t, db, oldWh, newWh))
  {
    var from := Loc(t, KeyOf(oldWh, m.pk));
    assert oldWh + newWh == newWh;
    assert Patch(m, newWh) == map[];
    if from in db {
      assert db[from] + map[] == db[from];
    }
  }

  // ---------------------------------------------------------------- batches by table

  /** The records whose raw table spelling is `name`, in order: one bucket of the apply. */
  function ByName(rs: seq<Record>, name: string): seq<Record> {
    if rs == [] then []
    else
      var r := rs[|rs| - 1];
      ByName(rs[..|rs| - 1], name) + if r.table == name then [r] else []
  }

  /** The buckets of `names`, one after the other. */
  function Gather(rs: seq<Record>, names: seq<string>): seq<Record> {
    if names == [] then [] else Gather(rs, names[..|names| - 1]) + ByName(rs, names[|names| - 1])
  }

  /** Buckets are formed on the raw spelling but resolved in upper case: one spelling per table. */
  ghost predicate OneSpelling(env: Env, rs: seq<Record>) {
    forall a, b :: a in rs && b in rs && Known(env, a) && Upper(a.table) == Upper(b.table) ==>
                     a.table == b.table
  }

  ghost predicate Used(rs: seq<Record>, name: string) {
    exists r :: r in rs && r.table == name
  }

  ghost predicate AllUsed(rs: seq<Record>, names: seq<string>) {
    forall n :: n in names ==> Used(rs, n)
  }

  ghost predicate Names(names: seq<string>, t: string) {
    exists n :: n in names && Upper(n) == t
  }

  ghost predicate Distinct<T>(s: seq<T>) {
    forall i, j :: 0 <= i < j < |s| ==> s[i] != s[j]
  }

  /** The buckets of the first `i` records, by order of first appearance. */
  ghost predicate Bucketing(rs: seq<Record>, i: nat, names: seq<string>, buckets: map<string, seq<Record>>) {
    i <= |rs| && NamesSeen(rs, i, names) && FirstSeen(rs, i, names) && Filled(rs[..i], names, buckets)
  }

  /** A record before line `k` has that table. */
  ghost predicate SeenBefore(rs: seq<Record>, k: nat, name: string)
    requires k <= |rs|
  {
    exists j: nat :: j < k && rs[j].table == name
  }

  /** The names stand in the order in which the first `i` records bring them up. */
  ghost predicate FirstSeen(rs: seq<Record>, i: nat, names: seq<string>)
    requires i <= |rs|
  {
    && (forall a :: 0 <= a < |names| ==> SeenBefore(rs, i, names[a]))
    && (forall a, b, k: nat :: 0 <= a < b < |names| && k < i && rs[k].table == names[b] ==> SeenBefore(rs, k, names[a]))
  }

  lemma SeenNext(rs: seq<Record>, i: nat, names: seq<string>)
    requires i < |rs| && NamesSeen(rs, i, names) && FirstSeen(rs, i, names)
    ensures FirstSeen(rs, i + 1, if rs[i].table in names then names else names + [rs[i].table])
  {
    var n := rs[i].table;
    var names' := if n in names then names else names + [n];
    forall a | 0 <= a < |names'| ensures SeenBefore(rs, i + 1, names'[a]) {
      if a < |names| { assert SeenBefore(rs, i, names[a]); }
    }
    forall a, b, k: nat | 0 <= a < b < |names'| && k < i + 1 && rs[k].table == names'[b]
      ensures SeenBefore(rs, k, names'[a])
    {
      if k == i {
        assert SeenBefore(rs, i, names[a]);
      } else {
        assert rs[k].table in names;
        assert b < |names|;
      }
    }
  }

  ghost predicate NamesSeen(rs: seq<Record>, i: nat, names: seq<string>)
    requires i <= |rs|
  {
    Distinct(names) && AllUsed(rs, names) && forall k :: 0 <= k < i ==> rs[k].table in names
  }

  ghost predicate Filled(rs: seq<Record>, names: seq<string>, buckets: map<string, seq<Record>>) {
    && (forall n :: n in names <==> n in buckets)
    && (forall n :: ByName(rs, n) == if n in buckets then buckets[n] else [])
  }

  lemma NothingBucketed(rs: seq<Record>)
    ensures Bucketing(rs, 0, [], map[])
  {
  }

  lemma BucketOne(rs: seq<Record>, i: nat, names: seq<string>, buckets: map<string, seq<Record>>)
    requires Bucketing(rs, i, names, buckets) && i < |rs|
    ensures var n := rs[i].table;
            var names' := if n in buckets then names else names + [n];
            Bucketing(rs, i + 1, names', buckets[n := (if n in buckets then buckets[n] else []) + [rs[i]]])
  {
    assert rs[..i + 1] == rs[..i] + [rs[i]];
    NameSeen(rs, i, names);
    SeenNext(rs, i, names);
    hide NamesSeen, FirstSeen;
    FillOne(rs[..i], rs[i], names, buckets);
  }

  lemma NameSeen(rs: seq<Record>, i: nat, names: seq<string>)
    requires i < |rs| && NamesSeen(rs, i, names)
    ensures NamesSeen(rs, i + 1, if rs[i].table in names then names else names + [rs[i].table])
  {
    assert rs[i] in rs;
  }

  lemma FillOne(rs: seq<Record>, r: Record, names: seq<string>, buckets: map<string, seq<Record>>)
    requires Filled(rs, names, buckets)
    ensures var n := r.table;
            Filled(rs + [r], if n in buckets then names else names + [n],
                   buckets[n := (if n in buckets then buckets[n] else []) + [r]])
  {
    hide ByName;
    forall x ensures ByName(rs + [r], x) == if x == r.table then ByName(rs, x) + [r] else ByName(rs, x) {
      ByNameNext(rs, r, x);
    }
  }

  lemma ByNameNext(rs: seq<Record>, r: Record, n: string)
    ensures ByName(rs + [r], n) == if n == r.table then ByName(rs, n) + [r] else ByName(rs, n)
  {
    assert (rs + [r])[..|rs|] == rs;
  }

  lemma BucketsDone(rs: seq<Record>, names: seq<string>, buckets: map<string, seq<Record>>)
    requires Bucketing(rs, |rs|, names, buckets)
    ensures Distinct(names) && AllUsed(rs, names) && forall r :: r in rs ==> r.table in names
    ensures FirstSeen(rs, |rs|, names)
    ensures forall n :: n in names ==> n in buckets && buckets[n] == ByName(rs, n)
  {
    assert rs[..|rs|] == rs;
    hide ByName, FirstSeen;
  }

  lemma {:induction false} ByNameMembers(rs: seq<Record>, name: string, r: Record)
    ensures r in ByName(rs, name) <==> r in rs && r.table == name
  {
    if rs != [] {
      ByNameMembers(rs[..|rs| - 1], name, r);
      assert rs == rs[..|rs| - 1] + [rs[|rs| - 1]];
    }
  }

  lemma {:induction false} OfTableMembers(env: Env, rs: seq<Record>, t: string, r: Record)
    ensures r in OfTable(env, rs, t) <==> r in rs && Known(env, r) && Upper(r.table) == t
  {
    if rs != [] {
      OfTableMembers(env, rs[..|rs| - 1], t, r);
      assert rs == rs[..|rs| - 1] + [rs[|rs| - 1]];
    }
  }

  /** A bucket holds all records of its own table and none of any other. */
  lemma {:induction false} BucketTable(env: Env, rs: seq<Record>, name: string, t: string)
    requires forall r :: r in rs && Known(env, r) && Upper(r.table) == t && Upper(name) == t ==> r.table == name
    ensures OfTable(env, ByName(rs, name), t) == if Upper(name) == t then OfTable(env, rs, t) else []
  {
    if rs != [] {
      var rs', r := rs[..|rs| - 1], rs[|rs| - 1];
      BucketTable(env, rs', name, t);
      if r.table == name {
        OfTableConcat(env, ByName(rs', name), [r], t);
        assert [r][..0] == [];
        assert OfTable(env, [], t) == [];
      } else {
        assert ByName(rs, name) == ByName(rs', name);
      }
    }
  }

  /** Two used spellings of one known table are the same spelling. */
  lemma SpellingUnique(env: Env, rs: seq<Record>, n: string, x: string)
    requires OneSpelling(env, rs) && Used(rs, n) && Used(rs, x) && Upper(n) == Upper(x)
    requires OfTable(env, rs, Upper(n)) != []
    ensures n == x
  {
    OfTableMembers(env, rs, Upper(n), OfTable(env, rs, Upper(n))[0]);
    var p :| p in rs && p.table == n;
    var q :| q in rs && q.table == x;
  }

  lemma BucketUsed(env: Env, rs: seq<Record>, n: string, t: string)
    requires OneSpelling(env, rs) && Used(rs, n)
    ensures OfTable(env, ByName(rs, n), t) == if Upper(n) == t then OfTable(env, rs, t) else []
  {
    var q :| q in rs && q.table == n;
    BucketTable(env, rs, n, t);
  }

  lemma {:induction false} GatherTable(env: Env, rs: seq<Record>, names: seq<string>, t: string)
    requires OneSpelling(env, rs) && Distinct(names) && AllUsed(rs, names)
    ensures OfTable(env, Gather(rs, names), t) == if Names(names, t) then OfTable(env, rs, t) else []
  {
    if names != [] {
      var names', n := names[..|names| - 1], names[|names| - 1];
      assert names == names' + [n];
      assert n !in names';
      GatherNext(rs, names', n);
      hide OfTable, Gather, ByName;
      GatherTable(env, rs, names', t);
      BucketUsed(env, rs, n, t);
      OfTableConcat(env, Gather(rs, names'), ByName(rs, n), t);
      if Upper(n) == t && OfTable(env, rs, t) != [] {
        forall x | x in names' ensures Upper(x) != t {
          if Upper(x) == t { SpellingUnique(env, rs, n, x); }
        }
      }
      assert Names(names, t) <==> Names(names', t) || Upper(n) == t;
    }
  }

  lemma NoTable(env: Env, rs: seq<Record>, names: seq<string>, t: string)
    requires forall r :: r in rs ==> r.table in names
    requires !Names(names, t)
    ensures OfTable(env, rs, t) == []
  {
    if OfTable(env, rs, t) != [] {
      OfTableMembers(env, rs, t, OfTable(env, rs, t)[0]);
      assert false;
    }
  }

  /** Applying all buckets, in whatever order, is folding the batch in trail order. */
  lemma GatherAll(env: Env, rs: seq<Record>, names: seq<string>, db: DB)
    requires OneSpelling(env, rs) && Distinct(names) && AllUsed(rs, names)
    requires forall r :: r in rs ==> r.table in names
    ensures Fold(env, Gather(rs, names), db) == Fold(env, rs, db)
  {
    forall t ensures OfTable(env, Gather(rs, names), t) == OfTable(env, rs, t) {
      GatherTable(env, rs, names, t);
      if !Names(names, t) {
        NoTable(env, rs, names, t);
      }
    }
    TableReorder(env, Gather(rs, names), rs, db);
  }

  /** Some whole buckets and a prefix of the next one are a key-wise prefix of the batch. */
  lemma GatherPrefix(env: Env, rs: seq<Record>, names: seq<string>, n: string, d: seq<Record>)
    requires OneSpelling(env, rs) && Distinct(names + [n]) && AllUsed(rs, names + [n])
    requires d <= ByName(rs, n)
    ensures KeyPrefix(env, Gather(rs, names) + d, rs)
  {
    forall t ensures OfTable(env, Gather(rs, names) + d, t) <= OfTable(env, rs, t) {
      GatherPrefixOf(env, rs, names, n, d, t);
    }
    hide OfTable, Gather, OneSpelling;
    TablePrefixIsKeyPrefix(env, Gather(rs, names) + d, rs);
  }

  lemma GatherPrefixOf(env: Env, rs: seq<Record>, names: seq<string>, n: string, d: seq<Record>, t: string)
    requires OneSpelling(env, rs) && Distinct(names + [n]) && AllUsed(rs, names + [n])
    requires d <= ByName(rs, n)
    ensures OfTable(env, Gather(rs, names) + d, t) <= OfTable(env, rs, t)
  {
    GatherNext(rs, names, n);
    hide OfTable, Gather, ByName, OneSpelling, Distinct, AllUsed, Names;
    var rest := ByName(rs, n)[|d|..];
    GatherTable(env, rs, names + [n], t);
    assert Gather(rs, names + [n]) == (Gather(rs, names) + d) + rest;
    OfTableConcat(env, Gather(rs, names) + d, rest, t);
  }

  lemma GatherNext(rs: seq<Record>, names: seq<string>, n: string)
    ensures Gather(rs, names + [n]) == Gather(rs, names) + ByName(rs, n)
  {
    assert (names + [n])[..|names|] == names;
  }

  // ---------------------------------------------------------------- trail order across tables

  /** The records of keyed tables, in trail order. */
  function KnownOnly(env: Env, rs: seq<Record>): seq<Record> {
    if rs == [] then []
    else KnownOnly(env, rs[..|rs| - 1]) + if Known(env, rs[|rs| - 1]) then [rs[|rs| - 1]] else []
  }

  lemma {:induction false} KnownFold(env: Env, rs: seq<Record>, db: DB)
    ensures Fold(env, KnownOnly(env, rs), db) == Fold(env, rs, db)
    ensures forall r :: r in KnownOnly(env, rs) ==> r in rs && Known(env, r)
  {
    if rs != [] {
      var rs', r := rs[..|rs| - 1], rs[|rs| - 1];
      assert rs == rs' + [r];
      KnownAppend(env, rs', r);
      FoldAppend(env, rs', r, db);
      FoldAppend(env, KnownOnly(env, rs'), r, db);
      UnknownStep(env, Fold(env, rs', db), r);
      hide *;
      KnownFold(env, rs', db);
    }
  }

  lemma FoldAppend(env: Env, rs: seq<Record>, r: Record, db: DB)
    ensures Fold(env, rs + [r], db) == Step(env, Fold(env, rs, db), r)
  {
    hide Step;
    assert (rs + [r])[..|rs|] == rs;
  }

  lemma KnownAppend(env: Env, rs: seq<Record>, r: Record)
    ensures KnownOnly(env, rs + [r]) == if Known(env, r) then KnownOnly(env, rs) + [r] else KnownOnly(env, rs)
  {
    assert (rs + [r])[..|rs|] == rs;
  }

  lemma UnknownStep(env: Env, db: DB, r: Record)
    ensures !Known(env, r) ==> Step(env, db, r) == db
  {
  }

  lemma {:induction false} KnownConcat(env: Env, a: seq<Record>, b: seq<Record>)
    ensures KnownOnly(env, a + b) == KnownOnly(env, a) + KnownOnly(env, b)
  {
    if b == [] {
      assert a + b == a;
    } else {
      assert (a + b)[..|a + b| - 1] == a + b[..|b| - 1];
      KnownConcat(env, a, b[..|b| - 1]);
    }
  }

  // ---------------------------------------------------------------- bookkeeping

  lemma {:induction false} UnknownFold(env: Env, rs: seq<Record>, db: DB)
    requires forall r :: r in rs ==> !Known(env, r)
    ensures Fold(env, rs, db) == db
  {
    if rs != [] {
      UnknownFold(env, rs[..|rs| - 1], db);
    }
  }

  lemma {:induction false} FlattenConcat(a: seq<Run>, b: seq<Run>)
    ensures Flatten(a + b) == Flatten(a) + Flatten(b)
  {
    if b == [] {
      assert a + b == a;
    } else {
      assert (a + b)[..|a + b| - 1] == a + b[..|b| - 1];
      FlattenConcat(a, b[..|b| - 1]);
    }
  }

  lemma FlattenPrefix(a: seq<Run>, b: seq<Run>, all: seq<Run>)
    requires all == a + b
    ensures Flatten(a) <= Flatten(all)
  {
    hide Flatten;
    FlattenConcat(a, b);
  }

  lemma RunCut(runs: seq<Run>, i: nat)
    requires i < |runs|
    ensures runs[..i + 1] == runs[..i] + [runs[i]] && runs == runs[..i + 1] + runs[i + 1..]
  {
  }

  lemma FlattenNone(runs: seq<Run>)
    ensures Flatten(runs[..0]) == []
  {
  }

  lemma FlattenSplit(runs: seq<Run>, i: nat)
    requires i < |runs|
    ensures Flatten(runs[..i + 1]) == Flatten(runs[..i]) + runs[i].recs
    ensures Flatten(runs[..i + 1]) <= Flatten(runs)
  {
    hide *;
    RunCut(runs, i);
    FlattenOne(runs[..i], runs[i]);
    FlattenPrefix(runs[..i + 1], runs[i + 1..], runs);
  }

  /** Run `i` consists of records of the batch. */
  lemma RunRecords(rs: seq<Record>, runs: seq<Run>, i: nat)
    requires i < |runs| && Flatten(runs) == rs
    ensures forall r :: r in runs[i].recs ==> r in rs
    ensures |Flatten(runs[..i])| + |runs[i].recs| <= |rs|
    ensures |runs[i].recs| == |rs| ==> runs[i].recs == rs && Flatten(runs[..i]) == []
  {
    FlattenSplit(runs, i);
    var pre := Flatten(runs[..i]);
    var upto := pre + runs[i].recs;
    assert upto <= rs;
    forall r | r in runs[i].recs ensures r in rs {
      assert r in upto;
    }
  }

  lemma KindOfRun(env: Env, t: string, rs: seq<Record>, runs: seq<Run>, i: nat)
    requires i < |runs| && Flatten(runs) == rs && MaximalRuns(env, t, runs)
    ensures forall r :: r in runs[i].recs ==> r in rs
    ensures RunOf(env, t, runs[i]) && (NoKeymove(env, rs) ==> runs[i].kind != KindKeymove)
    ensures |rs| == 1 ==> runs[i].recs == rs && Flatten(runs[..i]) == []
    ensures |rs| == 1 && !NoKeymove(env, rs) ==> runs[i].kind == KindKeymove
  {
    RunRecords(rs, runs, i);
    var r := runs[i].recs[0];
    assert r in runs[i].recs && r in rs;
    assert IsKeymove(env, r) <==> runs[i].kind == KindKeymove;
  }

  lemma SingleBucket(rs: seq<Record>, names: seq<string>, i: nat)
    requires |rs| == 1 && i < |names| && Distinct(names) && AllUsed(rs, names)
    ensures i == 0 && ByName(rs, names[i]) == rs && Gather(rs, names[..0]) == []
  {
    assert Used(rs, names[i]) && Used(rs, names[0]);
    assert rs[..0] == [];
  }

  /** A keymove-free batch stopped inside bucket `i`: replaying the whole batch is safe. */
  lemma BucketStopped(env: Env, rs: seq<Record>, names: seq<string>, i: nat, d: seq<Record>, db: DB)
    requires OneSpelling(env, rs) && Distinct(names) && AllUsed(rs, names) && i < |names|
    requires NoKeymove(env, rs) && d <= ByName(rs, names[i])
    ensures KeyPrefix(env, Gather(rs, names[..i]) + d, rs)
    ensures Fold(env, Gather(rs, names[..i]) + d, db) == Fold(env, d, Fold(env, Gather(rs, names[..i]), db))
  {
    var done := Gather(rs, names[..i]);
    assert names[..i + 1] == names[..i] + [names[i]];
    FoldConcat(env, done, d, db);
    GatherPrefix(env, rs, names[..i], names[i], d);
  }

  /** Where a batch may have got to, whole or not: a keymove-free batch is somewhere along each
      key, and a lone record can be redone. */
  ghost predicate Reached(env: Env, rs: seq<Record>, done: seq<Record>, before: DB, now: DB) {
    && (NoKeymove(env, rs) ==> KeyPrefix(env, done, rs) && now == Fold(env, done, before))
    && (|rs| == 1 ==> Fold(env, rs, now) == Fold(env, rs, before))
  }

  lemma StoppedInBucket(env: Env, rs: seq<Record>, names: seq<string>, i: nat, d: seq<Record>, db: DB, now: DB)
    requires OneSpelling(env, rs) && Distinct(names) && AllUsed(rs, names) && i < |names|
    requires var mid, bucket := Fold(env, Gather(rs, names[..i]), db), ByName(rs, names[i]);
             && (NoKeymove(env, rs) ==> d <= bucket && now == Fold(env, d, mid))
             && (|rs| == 1 && !NoKeymove(env, rs) ==> Fold(env, bucket, now) == Fold(env, bucket, mid))
    ensures Reached(env, rs, Gather(rs, names[..i]) + d, db, now)
  {
    if NoKeymove(env, rs) {
      BucketStopped(env, rs, names, i, d, db);
      ReplayConverges(env, rs, Gather(rs, names[..i]) + d, db);
    } else if |rs| == 1 {
      SingleBucket(rs, names, i);
    }
  }

  lemma WholeBatch(env: Env, rs: seq<Record>, db: DB)
    ensures Reached(env, rs, rs, db, Fold(env, rs, db))
  {
    if NoKeymove(env, rs) {
      WholeTwice(env, rs, db);
    } else if |rs| == 1 {
      assert rs == [rs[0]];
      MoveTwice(env, rs[0], db);
    }
  }

  lemma MoveTwice(env: Env, r: Record, db: DB)
    requires IsKeymove(env, r)
    ensures Fold(env, [r], Fold(env, [r], db)) == Fold(env, [r], db)
  {
    assert [r][..0] == [];
    MoveSteps(env, Upper(r.table), r, db);
  }

  lemma BucketRecords(rs: seq<Record>, n: string)
    ensures forall r :: r in ByName(rs, n) <==> r in rs && r.table == n
  {
    forall r ensures r in ByName(rs, n) <==> r in rs && r.table == n { ByNameMembers(rs, n, r); }
  }

  /** A keymove-free run of neighbours of `rs`, not yet handed to the driver. */
  ghost predicate PendingRun(env: Env, rs: seq<Record>, t: string, run: Run) {
    RunOf(env, t, run) && run.kind != KindKeymove && forall r :: r in run.recs ==> r in rs
  }

  lemma NothingApplied(env: Env, rs: seq<Record>, db: DB)
    ensures Gather(rs, []) == [] && KnownOnly(env, []) == [] && Fold(env, [], db) == db
  {
  }

  lemma PendingGrows(env: Env, rs: seq<Record>, t: string, run: Run, i: nat)
    requires i < |rs| && Known(env, rs[i]) && Upper(rs[i].table) == t
    requires Classify(rs[i], env.schema[t]) == run.kind && run.kind != KindKeymove
    requires run.recs != [] ==> PendingRun(env, rs, t, run)
    ensures PendingRun(env, rs, t, Run(run.kind, run.recs + [rs[i]]))
  {
    assert rs[i] in rs;
  }

  lemma KnownNext(env: Env, rs: seq<Record>, i: nat)
    requires i < |rs|
    ensures KnownOnly(env, rs[..i + 1]) == KnownOnly(env, rs[..i]) + if Known(env, rs[i]) then [rs[i]] else []
    ensures NoKeymove(env, rs[..i]) && !IsKeymove(env, rs[i]) ==> NoKeymove(env, rs[..i + 1])
  {
    assert rs[..i + 1][..i] == rs[..i];
    assert rs[..i + 1] == rs[..i] + [rs[i]];
  }

  lemma HasKeymove(env: Env, rs: seq<Record>, i: nat)
    requires i < |rs| && IsKeymove(env, rs[i])
    ensures !NoKeymove(env, rs)
  {
    hide IsKeymove;
  }

  lemma KnownUpTo(env: Env, rs: seq<Record>, i: nat)
    requires i <= |rs|
    ensures KnownOnly(env, rs[..i]) <= KnownOnly(env, rs)
  {
    KnownConcat(env, rs[..i], rs[i..]);
    assert rs[..i] + rs[i..] == rs;
  }

  /** A batch and one record more, got through in part. */
  lemma PrefixAndOne(env: Env, w: seq<Record>, j: nat, d: seq<Record>)
    requires j < |w| && KeyPrefix(env, d, [w[j]])
    ensures KeyPrefix(env, w[..j] + d, w)
  {
    hide At;
    assert w[..j] + [w[j]] + w[j + 1..] == w;
    forall loc ensures At(env, w[..j] + d, loc) <= At(env, w, loc) {
      AtConcat(env, w[..j], d, loc);
      AtConcat(env, w[..j], [w[j]], loc);
      AtConcat(env, w[..j] + [w[j]], w[j + 1..], loc);
    }
  }

  /** Dropping a record from the fold: a left-out record has no effect. */
  lemma DroppedStep(env: Env, r: Record, db: DB)
    requires !IsKeymove(env, r) && env.drop(r)
    ensures Step(env, db, r) == db
  {
  }

  // ---------------------------------------------------------------- slices around the barrier

  /** A record of `rs` that the target refuses, and no move. */
  ghost predicate Parkable(env: Env, rs: seq<Record>, r: Record) {
    r in rs && Refused(env, r) && !IsKeymove(env, r)
  }

  /** What was parked between two moments was parkable. */
  ghost predicate ParksOnlyRefused(env: Env, before: seq<Record>, now: seq<Record>, rs: seq<Record>) {
    before <= now && forall i :: |before| <= i < |now| ==> Parkable(env, rs, now[i])
  }

  lemma ParksNothing(env: Env, parked: seq<Record>, rs: seq<Record>)
    ensures ParksOnlyRefused(env, parked, parked, rs)
  {
  }

  lemma ParksThen(env: Env, a: seq<Record>, b: seq<Record>, c: seq<Record>, rs: seq<Record>)
    requires ParksOnlyRefused(env, a, b, rs) && ParksOnlyRefused(env, b, c, rs)
    ensures ParksOnlyRefused(env, a, c, rs)
  {
    forall i | |a| <= i < |c| ensures Parkable(env, rs, c[i]) {
      if i < |b| { assert c[i] == b[i]; }
    }
  }

  lemma ParksWider(env: Env, a: seq<Record>, b: seq<Record>, rs: seq<Record>, all: seq<Record>)
    requires ParksOnlyRefused(env, a, b, rs) && forall r :: r in rs ==> r in all
    ensures ParksOnlyRefused(env, a, b, all)
  {
    forall i | |a| <= i < |b| ensures Parkable(env, all, b[i]) {
      assert Parkable(env, rs, b[i]);
    }
  }

  lemma SliceOne(rs: seq<Record>, i: nat)
    requires i < |rs|
    ensures rs[i..] == [rs[i]] + rs[i + 1..] && rs[..i + 1] == rs[..i] + [rs[i]] && rs[i] in rs
  {
  }

  lemma SplitFold(env: Env, rs: seq<Record>, i: nat, db: DB)
    requires i <= |rs|
    ensures Fold(env, rs[i..], Fold(env, rs[..i], db)) == Fold(env, rs, db)
    ensures i < |rs| ==> Fold(env, [rs[i]], Fold(env, rs[..i], db)) == Fold(env, rs[..i + 1], db)
  {
    FoldConcat(env, rs[..i], rs[i..], db);
    assert rs[..i] + rs[i..] == rs;
    if i < |rs| {
      FoldConcat(env, rs[..i], [rs[i]], db);
      assert rs[..i + 1] == rs[..i] + [rs[i]];
    }
  }

  /** A move stopped midway: the rest of the slice, the move first, still leads to the same end. */
  lemma RedoMove(env: Env, rs: seq<Record>, i: nat, db: DB, now: DB)
    requires i < |rs|
    requires Fold(env, [rs[i]], now) == Fold(env, [rs[i]], Fold(env, rs[..i], db))
    ensures Fold(env, rs[i..], now) == Fold(env, rs, db)
  {
    SliceOne(rs, i);
    FoldConcat(env, [rs[i]], rs[i + 1..], now);
    FoldConcat(env, [rs[i]], rs[i + 1..], Fold(env, rs[..i], db));
    SplitFold(env, rs, i, db);
  }

  lemma BatchSlice(env: Env, rs: seq<Record>, b: nat, i: nat, db: DB)
    requires b <= i <= |rs|
    ensures forall r :: r in rs[b..i] ==> r in rs
    ensures Fold(env, rs[b..i], Fold(env, rs[..b], db)) == Fold(env, rs[..i], db)
    ensures Fold(env, rs[b..], Fold(env, rs[..b], db)) == Fold(env, rs, db)
  {
    assert rs[..i] == rs[..b] + rs[b..i];
    FoldConcat(env, rs[..b], rs[b..i], db);
    SplitFold(env, rs, b, db);
  }

  /** A batch from which the whole batch can be replayed, or which is done. */
  lemma BatchReplay(env: Env, rs: seq<Record>, b: nat, i: nat, db: DB, now: DB)
    requires b <= i <= |rs|
    requires Fold(env, rs[b..i], now) == Fold(env, rs[..i], db)
    ensures Fold(env, rs[b..], now) == Fold(env, rs, db)
    ensures now == Fold(env, rs[..i], db) ==> Fold(env, rs[i..], now) == Fold(env, rs, db)
  {
    assert rs[b..] == rs[b..i] + rs[i..];
    FoldConcat(env, rs[b..i], rs[i..], now);
    SplitFold(env, rs, i, db);
  }

  /** One record of an isolated batch, however far its attempts got. */
  lemma IsolatedStep(env: Env, batch: seq<Record>, j: nat, d: seq<Record>, db: DB)
    requires j < |batch| && NoKeymove(env, batch)
    ensures var mid := Fold(env, batch[..j], db);
            && Fold(env, [batch[j]], mid) == Fold(env, batch[..j + 1], db)
            && (env.drop(batch[j]) ==> Fold(env, batch[..j + 1], db) == mid)
            && Fold(env, batch, mid) == Fold(env, batch, db)
            && (KeyPrefix(env, d, [batch[j]]) ==>
                  Fold(env, batch, Fold(env, d, mid)) == Fold(env, batch, db))
    ensures batch[j] in batch
  {
    var mid := Fold(env, batch[..j], db);
    SplitFold(env, batch, j, db);
    assert batch[..j + 1][..j] == batch[..j];
    assert batch[..j] + batch[j..] == batch;
    ReplayPrefix(env, batch[..j], batch[j..], db);
    if env.drop(batch[j]) {
      DroppedStep(env, batch[j], mid);
    }
    if KeyPrefix(env, d, [batch[j]]) {
      PrefixAndOne(env, batch, j, d);
      FoldConcat(env, batch[..j], d, db);
      ReplayConverges(env, batch, batch[..j] + d, db);
    }
  }

  lemma NothingTried(env: Env, r: Record, db: DB)
    ensures KeyPrefix(env, [], [r]) && Fold(env, [], db) == db
  {
  }

  /** One more attempt at a record: it has been applied or not. */
  lemma TriedAgain(env: Env, r: Record, a: seq<Record>, b: seq<Record>, db: DB, mid: DB, now: DB)
    returns (d: seq<Record>)
    requires !IsKeymove(env, r) && KeyPrefix(env, a, [r]) && KeyPrefix(env, b, [r])
    requires mid == Fold(env, a, db) && now == Fold(env, b, mid)
    ensures KeyPrefix(env, d, [r]) && now == Fold(env, d, db)
    ensures Fold(env, [r], mid) == Fold(env, [r], db)
  {
    hide Fold, KeyPrefix, IsKeymove;
    ReplayConverges(env, [r], a, db);
    OneOrNone(env, r, b, mid);
    if now == mid {
      d := a;
    } else {
      d := [r];
      WholePrefix(env, [r]);
    }
  }

  lemma WholePrefix(env: Env, rs: seq<Record>)
    ensures KeyPrefix(env, rs, rs)
  {
  }

  /** Folds agree when they hold the same records for every cell. */
  lemma SameFold(env: Env, a: seq<Record>, b: seq<Record>, db: DB)
    requires NoKeymove(env, a) && NoKeymove(env, b) && forall loc :: At(env, a, loc) == At(env, b, loc)
    ensures Fold(env, a, db) == Fold(env, b, db)
  {
    hide At, Fold, Summary, RunOp, NoKeymove;
    forall loc ensures CellAt(Fold(env, a, db), loc) == CellAt(Fold(env, b, db), loc) {
      FoldCell(env, a, db, loc);
      FoldCell(env, b, db, loc);
    }
    SameCells(Fold(env, a, db), Fold(env, b, db));
  }

  /** What got through a prefix of one record for each key has applied it or nothing. */
  lemma OneOrNone(env: Env, r: Record, b: seq<Record>, db: DB)
    requires !IsKeymove(env, r) && KeyPrefix(env, b, [r])
    ensures Fold(env, b, db) == db || Fold(env, b, db) == Fold(env, [r], db)
  {
    PrefixMembers(env, r, b);
    hide Fold, At, IsKeymove, KeyPrefix;
    if loc :| At(env, b, loc) != [] {
      WholeAt(env, r, b, loc);
      SameFold(env, b, [r], db);
    } else {
      NothingAt(env);
      SameFold(env, b, [], db);
      NoRecords(env, db);
    }
  }

  lemma WholeAt(env: Env, r: Record, b: seq<Record>, loc: Loc)
    requires KeyPrefix(env, b, [r]) && At(env, b, loc) != []
    ensures forall l :: At(env, b, l) == At(env, [r], l)
  {
    OneAt(env, r);
    hide At, LocOf, Known;
    forall l ensures At(env, b, l) == At(env, [r], l) {
      assert At(env, b, l) <= At(env, [r], l) && At(env, b, loc) <= At(env, [r], loc);
    }
  }

  lemma NothingAt(env: Env)
    ensures forall loc :: At(env, [], loc) == []
  {
  }

  lemma NoRecords(env: Env, db: DB)
    ensures Fold(env, [], db) == db
  {
  }

  lemma OneAt(env: Env, r: Record)
    ensures forall loc :: At(env, [r], loc) == if Known(env, r) && LocOf(env, r) == loc then [r] else []
  {
    assert [r][..0] == [];
    forall loc ensures At(env, [r], loc) == if Known(env, r) && LocOf(env, r) == loc then [r] else [] {
      assert At(env, [], loc) == [];
    }
  }

  lemma PrefixMembers(env: Env, r: Record, b: seq<Record>)
    requires !IsKeymove(env, r) && KeyPrefix(env, b, [r])
    ensures NoKeymove(env, b)
  {
    hide At, Classify;
    forall x | x in b ensures !IsKeymove(env, x) {
      if Known(env, x) {
        AtMembers(env, b, LocOf(env, x), x);
        AtMembers(env, [r], LocOf(env, x), x);
      }
    }
  }

  lemma WholeTwice(env: Env, w: seq<Record>, db: DB)
    requires NoKeymove(env, w)
    ensures Fold(env, w, Fold(env, w, db)) == Fold(env, w, db)
  {
    assert w + [] == w;
    ReplayPrefix(env, w, [], db);
  }

  /** The records from `b` to `i` are no moves. */
  ghost predicate NoMoves(env: Env, rs: seq<Record>, b: nat, i: nat)
    requires i <= |rs|
  {
    forall k :: b <= k < i ==> !IsKeymove(env, rs[k])
  }

  lemma NoMovesNext(env: Env, rs: seq<Record>, b: nat, i: nat)
    requires i < |rs|
    ensures NoMoves(env, rs, i, i) && NoMoves(env, rs, i + 1, i + 1)
    ensures NoMoves(env, rs, b, i) && !IsKeymove(env, rs[i]) ==> NoMoves(env, rs, b, i + 1)
  {
    hide IsKeymove;
  }

  lemma FoldNothing(env: Env, db: DB)
    ensures Fold(env, [], db) == db
  {
  }

  // ---------------------------------------------------------------- source transactions

  /** What an atomic group can leave durable, and why redoing the group is harmless. */
  ghost predicate AllOrNothing(env: Env, rs: seq<Record>, before: DB, now: DB) {
    (now == before || now == Fold(env, rs, before)) && Fold(env, rs, now) == Fold(env, rs, before)
  }
}
