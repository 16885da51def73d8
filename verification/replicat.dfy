/** The replicat: applies trail records to the target through the driver's apply seam, in
    batches, with every key move isolated and every step allowed to be the last one. */
module Apply {
  import opened Processes
  import opened Records
  import opened Store
  import opened Replay
  import opened Target
  import opened ApplyLemmas
  import opened Rejection
  import opened Poison

  datatype Outcome = Returned | Raised | Died

  /** A single move fails by itself exactly if it meets an image that the target refuses. */
  ghost predicate MoveVerdict(env: Env, rs: seq<Record>, db: DB, out: Outcome, down: bool) {
    |rs| == 1 && IsKeymove(env, rs[0]) ==>
      && (out == Raised ==> down || MoveRejects(env, db, rs[0]))
      && (out == Returned ==> !MoveRejects(env, db, rs[0]))
  }

  /** Some move of the slice, in the state that the records before it leave, meets a refused image. */
  ghost predicate MoveStuck(env: Env, rs: seq<Record>, db: DB) {
    exists i: nat :: i < |rs| && MoveStuckAt(env, rs, db, i)
  }

  ghost predicate MoveStuckAt(env: Env, rs: seq<Record>, db: DB, i: nat)
    requires i < |rs|
  {
    IsKeymove(env, rs[i]) && MoveRejects(env, Fold(env, rs[..i], db), rs[i])
  }

  lemma UnknownVerdict(env: Env, name: string, rs: seq<Record>, db: DB, down: bool)
    requires forall r :: r in rs ==> r.table == name
    requires Upper(name) !in env.schema || env.schema[Upper(name)].pk == []
    ensures MoveVerdict(env, rs, db, Returned, down)
  {
    if |rs| == 1 { assert rs[0] in rs; }
  }

  /** The cursor is in front of the batch `rs[b..i]`, everything before it is applied, and the batch has no
      move. */
  ghost predicate AtBatch(env: Env, rs: seq<Record>, b: nat, i: nat, base: nat, cursor: nat, cur: DB, db: DB,
                          parked0: seq<Record>, parked: seq<Record>)
  {
    && b <= i <= |rs| && cursor == base + b && cur == Fold(env, rs[..b], db)
    && (b > 0 ==> IsKeymove(env, rs[b - 1])) && NoMoves(env, rs, b, i)
    && ParksOnlyRefused(env, parked0, parked, rs) && Accounted(env, rs, b, parked)
  }

  /** Wherever the cursor is left, the rest of the slice leads to what the whole of it leads to. */
  ghost predicate Leaves(env: Env, rs: seq<Record>, base: nat, cursor: nat, cur: DB, db: DB,
                         parked0: seq<Record>, parked: seq<Record>)
  {
    && base <= cursor <= base + |rs| && BesideMove(env, rs, cursor - base)
    && Fold(env, rs[cursor - base..], cur) == Fold(env, rs, db)
    && ParksOnlyRefused(env, parked0, parked, rs) && Accounted(env, rs, cursor - base, parked)
  }

  lemma LeftAt(env: Env, rs: seq<Record>, base: nat, cursor: nat, cur: DB, db: DB, parked0: seq<Record>,
               parked: seq<Record>)
    requires Leaves(env, rs, base, cursor, cur, db, parked0, parked)
    ensures base <= cursor <= base + |rs| && BesideMove(env, rs, cursor - base)
    ensures Fold(env, rs[cursor - base..], cur) == Fold(env, rs, db)
    ensures ParksOnlyRefused(env, parked0, parked, rs) && Accounted(env, rs, cursor - base, parked)
  {
    hide BesideMove, Fold, Accounted, ParksOnlyRefused;
  }

  lemma StartBatch(env: Env, rs: seq<Record>, base: nat, db: DB, parked: seq<Record>)
    ensures AtBatch(env, rs, 0, 0, base, base, db, db, parked, parked)
  {
    hide Fold, Accounted, ParksOnlyRefused, IsKeymove, NoMoves;
    FoldNothing(env, db);
    NothingPassed(env, rs, parked);
    NoMovesYet(env, rs);
    assert rs[..0] == [];
  }

  lemma OpenBatch(env: Env, rs: seq<Record>, b: nat, i: nat, base: nat, cursor: nat, cur: DB, db: DB,
                  parked0: seq<Record>, parked: seq<Record>)
    requires AtBatch(env, rs, b, i, base, cursor, cur, db, parked0, parked)
    ensures b <= i <= |rs| && cursor == base + b && cur == Fold(env, rs[..b], db)
    ensures NoMoves(env, rs, b, i) && Accounted(env, rs, b, parked)
    ensures (b > 0 ==> IsKeymove(env, rs[b - 1])) && ParksOnlyRefused(env, parked0, parked, rs)
  {
    hide Fold, Accounted, ParksOnlyRefused, IsKeymove, NoMoves;
  }

  lemma GrowBatch(env: Env, rs: seq<Record>, b: nat, i: nat, base: nat, cursor: nat, cur: DB, db: DB,
                  parked0: seq<Record>, parked: seq<Record>)
    requires AtBatch(env, rs, b, i, base, cursor, cur, db, parked0, parked)
    requires i < |rs| && !IsKeymove(env, rs[i])
    ensures AtBatch(env, rs, b, i + 1, base, cursor, cur, db, parked0, parked)
  {
    hide Fold, Accounted, ParksOnlyRefused, IsKeymove, NoMoves;
    NoMovesNext(env, rs, b, i);
  }

  /** What the move `rs[i]` and the batch before it leave. */
  lemma PassedMove(env: Env, rs: seq<Record>, b: nat, i: nat, base: nat, cursor: nat, cur: DB, db: DB,
                   parked0: seq<Record>, parked1: seq<Record>, parked: seq<Record>, whole: bool)
    requires b <= i < |rs| && IsKeymove(env, rs[i]) && (b > 0 ==> IsKeymove(env, rs[b - 1]))
    requires cursor == base + b || cursor == base + i || cursor == base + i + 1
    requires whole ==> cursor == base + i + 1 && cur == Fold(env, rs[..i + 1], db)
    requires Fold(env, rs[cursor - base..], cur) == Fold(env, rs, db)
    requires ParksOnlyRefused(env, parked0, parked1, rs) && ParksOnlyRefused(env, parked1, parked, rs)
    requires Accounted(env, rs, cursor - base, parked)
    ensures Leaves(env, rs, base, cursor, cur, db, parked0, parked)
    ensures whole ==> AtBatch(env, rs, i + 1, i + 1, base, cursor, cur, db, parked0, parked)
  {
    hide Fold, Accounted, ParksOnlyRefused, IsKeymove, NoMoves;
    ParksThen(env, parked0, parked1, parked, rs);
    NoMovesNext(env, rs, b, i);
  }

  lemma LastBatch(env: Env, rs: seq<Record>, b: nat, base: nat, cursor: nat, cur: DB, db: DB,
                  parked0: seq<Record>, parked1: seq<Record>, parked: seq<Record>)
    requires b <= |rs| && (b > 0 ==> IsKeymove(env, rs[b - 1])) && (cursor == base + b || cursor == base + |rs|)
    requires Fold(env, rs[cursor - base..], cur) == Fold(env, rs, db)
    requires ParksOnlyRefused(env, parked0, parked1, rs) && ParksOnlyRefused(env, parked1, parked, rs)
    requires Accounted(env, rs, cursor - base, parked)
    ensures Leaves(env, rs, base, cursor, cur, db, parked0, parked)
  {
    hide Fold, Accounted, ParksOnlyRefused, IsKeymove;
    ParksThen(env, parked0, parked1, parked, rs);
  }

  lemma NoMovesYet(env: Env, rs: seq<Record>)
    ensures NoMoves(env, rs, 0, 0)
  {
  }

  lemma StuckAtMove(env: Env, rs: seq<Record>, db: DB, i: nat)
    requires i < |rs|
    ensures MoveStuckAt(env, rs, db, i) ==> MoveStuck(env, rs, db)
  {
    hide MoveStuckAt;
  }

  lemma NothingMoves(env: Env, db: DB, down: bool)
    ensures MoveVerdict(env, [], db, Returned, down)
  {
  }

  lemma ManyMoves(env: Env, rs: seq<Record>, db: DB, out: Outcome, down: bool)
    ensures |rs| != 1 ==> MoveVerdict(env, rs, db, out, down)
  {
  }

  /** The verdict on a single record is the verdict on its run. */
  lemma VerdictHere(env: Env, rs: seq<Record>, run: Run, before: DB, db: DB, out: Outcome, down: bool)
    requires |rs| == 1 ==> run.recs == rs && before == db
    requires |rs| == 1 && !NoKeymove(env, rs) ==> run.kind == KindKeymove
    requires run.kind == KindKeymove ==> MoveVerdict(env, run.recs, before, out, down)
    ensures MoveVerdict(env, rs, db, out, down)
  {
    hide IsKeymove, MoveRejects;
    if |rs| == 1 && IsKeymove(env, rs[0]) { HasKeymove(env, rs, 0); }
  }

  function OutcomeOf(reply: Reply): Outcome {
    match reply
    case Done(_) => Returned
    case Crashed => Died
    case _ => Raised
  }

  class Replicat {
    const target: TargetDriver
    const env: Env

    ghost predicate Valid()
      reads target
    {
      target.Valid() && target.env == env
    }

    constructor (target: TargetDriver)
      requires target.Valid()
      ensures this.target == target && this.env == target.env && Valid()
    {
      this.target, this.env := target, target.env;
    }

    /** A keyed update of the provided non-key columns; an absent row is inserted instead. */
    method ApplyPartial(t: string, r: Record) returns (out: Outcome)
      requires Valid() && Sound(env, r) && Of(env, t, KindPartial, r)
      modifies target
      ensures Valid() && target.Framed()
      ensures out == Returned ==> target.cur == Step(env, old(target.cur), r) && !Refused(env, r)
      ensures out == Raised ==> target.down || (target.cur == old(target.cur) && Refused(env, r))
      ensures target.cur == old(target.cur) || target.cur == Step(env, old(target.cur), r)
      ensures out == Died ==> target.life.mortal
    {
      hide Step, Sound, Refused, WellFormed, LocOf, UpdateRow, PutRows, LastByKey, Patch, Present, Classify, AnyRefused;
      var m := env.schema[t];
      var patch := Patch(m, r.after);
      ghost var db := target.cur;
      PartialRefused(env, t, r);
      if !Refused(env, r) { PartialStep(env, t, r, db); }
      if patch == map[] {
        return Returned;
      }
      var wh := KeyImage(m, r.key);
      PartialImage(env, t, r);
      UpdatePresent(m, t, db, wh, r.after);
      var reply := target.UpdateColumns(t, wh, patch);
      if !reply.Done? || reply.matched != 0 {
        return OutcomeOf(reply);
      }
      InsertProvided(env, target.merge, t, db, r);
      OneRefused(env, t, LocOf(env, r).key, Present(m, r.after));
      reply := target.Upsert(t, [Present(m, r.after)]);
      out := OutcomeOf(reply);
    }

    /** Updates the provided non-key columns of the row at `wh`, or probes it when there is none;
        the count of matched rows tells whether the row exists. */
    method RefreshOrProbe(t: string, r: Record, wh: Image) returns (reply: Reply)
      requires Valid() && t in env.schema && env.schema[t].pk != []
      requires wh.Keys == (set c | c in env.schema[t].pk)
      modifies target
      ensures Valid() && target.Framed()
      ensures var m := env.schema[t];
              var loc := Loc(t, KeyOf(wh, m.pk));
              && (reply.Done? ==> target.cur == Refresh(m, old(target.cur), loc, r.after) &&
                                  (reply.matched == 0 <==> loc !in old(target.cur)))
              && (!reply.Done? ==> target.cur == old(target.cur) ||
                                   target.cur == Refresh(m, old(target.cur), loc, r.after))
      ensures !reply.Conflict?
      ensures reply.Unreachable? ==> target.down
      ensures reply.Crashed? ==> target.life.mortal
      ensures reply.Rejected? ==>
                && Loc(t, KeyOf(wh, env.schema[t].pk)) in old(target.cur)
                && env.refuses(t, wh + Patch(env.schema[t], r.after))
      ensures reply.Done? && reply.matched != 0 ==> !env.refuses(t, wh + Patch(env.schema[t], r.after))
    {
      var m := env.schema[t];
      var patch := Patch(m, r.after);
      ghost var db := target.cur;
      if patch != map[] {
        UpdatePresent(m, t, db, wh, r.after);
        reply := target.UpdateColumns(t, wh, patch);
      } else {
        var probe := map[m.pk[0] := wh[m.pk[0]]];
        ProbeChangesNothing(m, t, db, wh, probe, r.after);
        assert wh + probe == wh && wh + patch == wh;
        reply := target.UpdateColumns(t, wh, probe);
      }
    }

    /** The old-key row is present: clear the new key, then move the row over. */
    method MoveOver(t: string, r: Record, ghost db: DB) returns (out: Outcome)
      requires Valid() && Sound(env, r) && Of(env, t, KindKeymove, r)
      requires OldLoc(env, r) in db
      requires target.cur == Refresh(env.schema[t], db, OldLoc(env, r), r.after)
      modifies target
      ensures Valid() && target.Framed()
      ensures out == Returned ==> target.cur == Step(env, db, r)
      ensures Step(env, target.cur, r) == Step(env, db, r)
      ensures out == Raised ==> target.down || env.refuses(t, KeyImage(env.schema[t], r.key))
      ensures out == Returned ==> !env.refuses(t, KeyImage(env.schema[t], r.key))
      ensures out == Died ==> target.life.mortal
    {
      hide Step, Sound, Refresh, LocOf, OldLoc, KeyImage, KeyOf, RemoveKeys, UpdateRow, KeyTaken, KeyAfter, Patch;
      hide Classify, Blank;
      var m := env.schema[t];
      var oldWh, newWh := KeyImage(m, r.beforeKey), KeyImage(m, r.key);
      ghost var s1, to := target.cur, LocOf(env, r);
      MoveSteps(env, t, r, db);
      MoveKeys(env, t, r, s1);
      assert newWh in [newWh];
      var reply := target.DeleteKeys(t, [newWh]);
      if !reply.Done? {
        return OutcomeOf(reply);
      }
      RekeyRow(m, t, s1 - {to}, oldWh, newWh);
      reply := target.UpdateColumns(t, oldWh, newWh);
      assert !reply.Conflict?;
      out := OutcomeOf(reply);
    }

    /** The old-key row is absent: refresh the moved row, or insert what the record provides. */
    method RefreshMoved(t: string, r: Record) returns (out: Outcome)
      requires Valid() && Sound(env, r) && Of(env, t, KindKeymove, r)
      requires OldLoc(env, r) !in target.cur
      modifies target
      ensures Valid() && target.Framed()
      ensures out == Returned ==> target.cur == Step(env, old(target.cur), r)
      ensures Step(env, target.cur, r) == Step(env, old(target.cur), r)
      ensures out == Raised ==> target.down || MoveRejects(env, old(target.cur), r)
      ensures out == Returned ==> !MoveRejects(env, old(target.cur), r)
      ensures out == Died ==> target.life.mortal
    {
      hide Step, Sound, Refresh, LocOf, OldLoc, KeyImage, KeyOf, PutRows, LastByKey, Patch, Present, Blank;
      hide Classify, AnyRefused, MoveRejects, WellFormed;
      var m := env.schema[t];
      ghost var db := target.cur;
      MoveSteps(env, t, r, db);
      MovedImage(env, t, r, db);
      var reply := RefreshOrProbe(t, r, KeyImage(m, r.key));
      if reply.Done? && reply.matched == 0 {
        InsertProvided(env, target.merge, t, db, r);
        OneRefused(env, t, LocOf(env, r).key, Present(m, r.after));
        reply := target.Upsert(t, [Present(m, r.after)]);
      }
      out := OutcomeOf(reply);
    }

    /** Moves one row to its new key.  Wherever the call stops, redoing the move gives what one
        undisturbed move gives, and the move never meets an occupied key. */
    method ApplyKeymove(t: string, r: Record) returns (out: Outcome)
      requires Valid() && Sound(env, r) && Of(env, t, KindKeymove, r)
      modifies target
      ensures Valid() && target.Framed()
      ensures out == Returned ==> target.cur == Step(env, old(target.cur), r)
      ensures Step(env, target.cur, r) == Step(env, old(target.cur), r)
      ensures out == Raised ==> target.down || MoveRejects(env, old(target.cur), r)
      ensures out == Returned ==> !MoveRejects(env, old(target.cur), r)
      ensures out == Died ==> target.life.mortal
    {
      var m := env.schema[t];
      ghost var db := target.cur;
      MoveSteps(env, t, r, db);
      KeyOfImage(m, r.beforeKey);
      var reply := RefreshOrProbe(t, r, KeyImage(m, r.beforeKey));
      if !reply.Done? {
        return OutcomeOf(reply);
      }
      if reply.matched >= 1 {
        out := MoveOver(t, r, db);
      } else {
        out := RefreshMoved(t, r);
      }
    }

    /** Maximal runs of one kind, in order. */
    method RunsByKind(t: string, rs: seq<Record>) returns (runs: seq<Run>)
      requires t in env.schema && env.schema[t].pk != []
      requires forall r :: r in rs ==> Upper(r.table) == t
      ensures Flatten(runs) == rs
      ensures MaximalRuns(env, t, runs)
    {
      hide Flatten, MaximalRuns, RunOf, Grouped, Classify;
      runs := [];
      var run := Run(KindDelete, []);
      NothingGrouped(env, t, rs);
      for i := 0 to |rs|
        invariant Grouped(env, t, runs, run, rs, i)
      {
        var kind := Classify(rs[i], env.schema[t]);
        if run.recs != [] && kind != run.kind {
          NextRun(env, t, runs, run, rs, i, kind);
          assert [] + [rs[i]] == [rs[i]];
          runs, run := runs + [run], Run(kind, []);
        } else {
          GrowRun(env, t, runs, run, rs, i, kind);
        }
        run := Run(kind, run.recs + [rs[i]]);
      }
      AllGrouped(env, t, runs, run, rs);
      if run.recs != [] {
        runs := runs + [run];
      }
    }

    /** Applies one run through the driver calls of its kind; `done` is how far it got. */
    method ApplyRun(t: string, run: Run) returns (out: Outcome, ghost done: seq<Record>)
      requires Valid() && RunOf(env, t, run) && AllSound(env, run.recs)
      modifies target
      ensures Valid() && target.Framed()
      ensures out == Returned ==> done == run.recs && target.cur == Fold(env, done, old(target.cur))
      ensures out != Returned && run.kind != KindKeymove ==>
                done <= run.recs && target.cur == Fold(env, done, old(target.cur))
      ensures out != Returned && run.kind == KindKeymove && |run.recs| == 1 ==>
                Fold(env, run.recs, target.cur) == Fold(env, run.recs, old(target.cur))
      ensures out == Returned && run.kind != KindKeymove ==> !Rejects(env, run.recs)
      ensures out == Raised && run.kind != KindKeymove ==> target.down || Rejects(env, run.recs)
      ensures out == Raised && run.kind != KindKeymove && |run.recs| == 1 ==>
                target.down || target.cur == old(target.cur)
      ensures out == Raised ==> target.down || Stuck(env, run.recs)
      ensures run.kind == KindKeymove ==> MoveVerdict(env, run.recs, old(target.cur), out, target.down)
      ensures out == Died ==> target.life.mortal
    {
      hide Rejects, Refused, Stuck, MoveVerdict;
      var m := env.schema[t];
      ghost var db := target.cur;
      assert forall r :: r in run.recs ==> Of(env, t, run.kind, r);
      match run.kind
      case KindDelete =>
        RejectsDelete(env, t, run.recs);
        if Rejects(env, run.recs) { RejectsRefusing(env, run.recs); }
        var reply := target.DeleteKeys(t, KeyImages(m, run.recs));
        out := OutcomeOf(reply);
        if target.cur != db || out == Returned {
          DeleteRun(env, t, run.recs, db);
          done := run.recs;
        } else {
          done := [];
        }
      case KindFull =>
        RejectsFull(env, t, run.recs);
        if Rejects(env, run.recs) { RejectsRefusing(env, run.recs); }
        var reply := target.Upsert(t, AfterImages(m, run.recs));
        out := OutcomeOf(reply);
        if target.cur != db || out == Returned {
          FullRun(env, target.merge, t, run.recs, db);
          done := run.recs;
        } else {
          done := [];
        }
      case KindPartial =>
        RejectsPlain(env, t, KindPartial, run.recs);
        out, done := ApplyPartials(t, run.recs);
        if Rejects(env, run.recs) { RejectsRefusing(env, run.recs); }
      case KindKeymove =>
        out := ApplyKeymoves(t, run.recs);
        done := run.recs;
    }

    method ApplyPartials(t: string, rs: seq<Record>) returns (out: Outcome, ghost done: seq<Record>)
      requires Valid() && forall r :: r in rs ==> Of(env, t, KindPartial, r) && Sound(env, r)
      modifies target
      ensures Valid() && target.Framed()
      ensures done <= rs && target.cur == Fold(env, done, old(target.cur))
      ensures out == Returned ==> done == rs && forall r :: r in rs ==> !Refused(env, r)
      ensures out == Raised ==> target.down || exists r :: r in rs && Refused(env, r)
      ensures out == Raised && |rs| == 1 ==> target.down || target.cur == old(target.cur)
      ensures out == Died ==> target.life.mortal
    {
      done := [];
      for i := 0 to |rs|
        invariant Valid() && target.Framed()
        invariant done == rs[..i] && target.cur == Fold(env, done, old(target.cur))
        invariant forall r :: r in rs[..i] ==> !Refused(env, r)
      {
        ghost var before := target.cur;
        out := ApplyPartial(t, rs[i]);
        assert rs[..i + 1] == done + [rs[i]];
        assert (done + [rs[i]])[..|done|] == done;
        if target.cur != before || out == Returned {
          done := done + [rs[i]];
        }
        if out != Returned {
          return;
        }
      }
      out := Returned;
    }

    method ApplyKeymoves(t: string, rs: seq<Record>) returns (out: Outcome)
      requires Valid() && forall r :: r in rs ==> Of(env, t, KindKeymove, r) && Sound(env, r)
      modifies target
      ensures Valid() && target.Framed()
      ensures out == Returned ==> target.cur == Fold(env, rs, old(target.cur))
      ensures |rs| == 1 ==> Fold(env, rs, target.cur) == Fold(env, rs, old(target.cur))
      ensures out == Raised ==> target.down || Stuck(env, rs)
      ensures MoveVerdict(env, rs, old(target.cur), out, target.down)
      ensures out == Died ==> target.life.mortal
    {
      hide Fold, Step, Sound, Of, Stuck, MoveRejects, MoveRefused, Refused;
      ghost var db := target.cur;
      FoldStart(env, rs, db);
      for i := 0 to |rs|
        invariant Valid() && target.Framed()
        invariant target.cur == Fold(env, rs[..i], db)
        invariant i > 0 ==> Known(env, rs[0]) && !MoveRejects(env, db, rs[0])
      {
        FoldAlong(env, rs, i, db);
        ghost var before := target.cur;
        MoveOf(env, t, rs[i]);
        out := ApplyKeymove(t, rs[i]);
        if out != Returned {
          if |rs| == 1 { OneStep(env, rs, before); OneStep(env, rs, target.cur); }
          if out == Raised && MoveRejects(env, before, rs[i]) {
            MoveRejectsRefused(env, before, rs[i]);
            StuckOn(env, rs, rs[i]);
          }
          return;
        }
      }
      if |rs| == 1 {
        WholeMove(env, t, rs, db);
      }
      assert rs[..|rs|] == rs;
      out := Returned;
    }

    /** Applies one table's bucket, run by run; an unkeyed table is skipped. */
    method ApplyBucket(name: string, rs: seq<Record>) returns (out: Outcome, ghost done: seq<Record>)
      requires Valid() && AllSound(env, rs) && forall r :: r in rs ==> r.table == name
      modifies target
      ensures Valid() && target.Framed()
      ensures out == Returned ==> done == rs && target.cur == Fold(env, done, old(target.cur))
      ensures out != Returned && NoKeymove(env, rs) ==>
                done <= rs && target.cur == Fold(env, done, old(target.cur))
      ensures out != Returned && |rs| == 1 && !NoKeymove(env, rs) ==>
                Fold(env, rs, target.cur) == Fold(env, rs, old(target.cur))
      ensures out == Returned && NoKeymove(env, rs) ==> !Rejects(env, rs)
      ensures out == Raised && NoKeymove(env, rs) ==> target.down || Rejects(env, rs)
      ensures out == Raised && NoKeymove(env, rs) && |rs| == 1 ==> target.down || target.cur == old(target.cur)
      ensures out == Raised ==> target.down || Stuck(env, rs)
      ensures MoveVerdict(env, rs, old(target.cur), out, target.down)
      ensures out == Died ==> target.life.mortal
    {
      hide Rejects, Fold, Flatten, MaximalRuns, NoKeymove, Sound, Stuck, MoveVerdict;
      var t := Upper(name);
      ghost var db := target.cur;
      done := [];
      NoRecords(env, db);
      if t !in env.schema || env.schema[t].pk == [] {
        done := rs;
        UnknownFold(env, rs, db);
        UnknownAccepted(env, rs);
        UnknownVerdict(env, name, rs, db, target.down);
        return Returned, done;
      }
      var runs := RunsByKind(t, rs);
      RejectsRuns(env, t, runs);
      FlattenNone(runs);
      for i := 0 to |runs|
        invariant Valid() && target.Framed()
        invariant done == Flatten(runs[..i]) && target.cur == Fold(env, done, db)
        invariant NoKeymove(env, rs) ==> forall k :: 0 <= k < i ==> !Rejects(env, runs[k].recs)
        invariant i > 0 ==> MoveVerdict(env, rs, db, Returned, target.down)
      {
        ghost var d;
        FlattenSplit(runs, i);
        KindOfRun(env, t, rs, runs, i);
        ghost var before := target.cur;
        out, d := ApplyRun(t, runs[i]);
        if out == Returned || runs[i].kind != KindKeymove {
          FoldConcat(env, done, d, db);
          done := done + d;
        } else if |rs| == 1 {
          assert done == [];
          assert before == db;
        }
        StuckWider(env, runs[i].recs, rs);
        VerdictHere(env, rs, runs[i], before, db, out, target.down);
        if out != Returned {
          return;
        }
      }
      assert runs[..|runs|] == runs;
      if rs == [] { NothingMoves(env, db, target.down); }
      out := Returned;
    }

    /** Applies a batch table by table.  A batch that is applied leaves what folding its records in
        trail order leaves; one that stops midway can be replayed whole. */
    method Apply(rs: seq<Record>) returns (out: Outcome, ghost done: seq<Record>)
      requires Valid() && AllSound(env, rs) && OneSpelling(env, rs)
      modifies target
      ensures Valid() && target.Framed()
      ensures out == Returned ==> target.cur == Fold(env, rs, old(target.cur))
      ensures Reached(env, rs, done, old(target.cur), target.cur)
      ensures out == Returned && NoKeymove(env, rs) ==> !BatchRejects(env, rs)
      ensures out == Raised && NoKeymove(env, rs) ==> target.down || BatchRejects(env, rs)
      ensures out == Raised && NoKeymove(env, rs) && |rs| == 1 ==> target.down || target.cur == old(target.cur)
      ensures out == Raised ==> target.down || Stuck(env, rs)
      ensures MoveVerdict(env, rs, old(target.cur), out, target.down)
      ensures out == Died ==> target.life.mortal
    {
      hide Fold, Sound, Refused, Gather, ByName, AllUsed, FirstSeen, KeyPrefix, Rejects, Stuck, MoveVerdict;
      ghost var db := target.cur;
      var names, buckets := Buckets(rs);
      done := [];
      NothingApplied(env, rs, db);
      assert names[..0] == [];
      for i := 0 to |names|
        invariant Valid() && target.Framed()
        invariant done == Gather(rs, names[..i]) && target.cur == Fold(env, done, db)
        invariant NoKeymove(env, rs) ==> forall k :: 0 <= k < i ==> !Rejects(env, ByName(rs, names[k]))
        invariant i > 0 && |rs| == 1 ==> MoveVerdict(env, rs, db, Returned, target.down)
      {
        ghost var d;
        var n := names[i];
        assert names[..i + 1] == names[..i] + [n];
        GatherNext(rs, names[..i], n);
        BucketRecords(rs, n);
        ghost var mid := target.cur;
        out, d := ApplyBucket(n, buckets[n]);
        StuckWider(env, buckets[n], rs);
        if |rs| == 1 { SingleBucket(rs, names, i); }
        if out != Returned {
          StoppedInBucket(env, rs, names, i, d, db, target.cur) by {
            if |rs| == 1 { SingleBucket(rs, names, i); }
          }
          done := done + d;
          ManyMoves(env, rs, db, out, target.down);
          return;
        }
        FoldConcat(env, done, d, db);
        done := done + d;
      }
      assert names[..|names|] == names;
      GatherAll(env, rs, names, db);
      WholeBatch(env, rs, db);
      if NoKeymove(env, rs) { BucketsAccepted(env, rs, names); }
      ManyMoves(env, rs, db, Returned, target.down);
      if |rs| == 1 { assert rs[0] in rs && rs[0].table in names; }
      done := rs;
      out := Returned;
    }

    /** The buckets in order of first appearance. */
    method Buckets(rs: seq<Record>) returns (names: seq<string>, buckets: map<string, seq<Record>>)
      ensures Distinct(names) && AllUsed(rs, names) && FirstSeen(rs, |rs|, names)
      ensures forall r :: r in rs ==> r.table in names
      ensures forall n :: n in names ==> n in buckets && buckets[n] == ByName(rs, n)
    {
      hide Bucketing, ByName, Distinct, AllUsed, FirstSeen;
      names, buckets := [], map[];
      NothingBucketed(rs);
      for i := 0 to |rs|
        invariant Bucketing(rs, i, names, buckets)
      {
        var r := rs[i];
        ghost var was := buckets;
        BucketOne(rs, i, names, buckets);
        if r.table !in buckets {
          names := names + [r.table];
          buckets := buckets[r.table := []];
        }
        buckets := buckets[r.table := buckets[r.table] + [r]];
        assert buckets == was[r.table := (if r.table in was then was[r.table] else []) + [r]];
      }
      BucketsDone(rs, names, buckets);
    }

    /** Applies records in strict trail order across tables, coalescing only neighbours of one table
        and kind; `issued` is the concatenation of the runs handed to the driver. */
    method ApplyOrdered(rs: seq<Record>) returns (out: Outcome, ghost issued: seq<Record>)
      requires Valid() && AllSound(env, rs)
      modifies target
      ensures Valid() && target.Framed()
      ensures target.cur == Fold(env, issued, old(target.cur))
      ensures issued <= KnownOnly(env, rs)
      ensures out == Returned ==> issued == KnownOnly(env, rs) && NoKeymove(env, rs)
      ensures out == Returned ==> target.cur == Fold(env, rs, old(target.cur))
      ensures out == Returned ==> !Rejects(env, rs)
      ensures out == Raised ==> target.down || !NoKeymove(env, rs) || Rejects(env, rs)
      ensures out == Died ==> target.life.mortal
    {
      hide Fold, Sound, Refused, KnownOnly, PendingRun, PendingFrom, Cut, NoKeymove, Rejects, Seam, AllSound;
      hide Classify, ValidDB, ValidSchema, ValidMeta, Upper;
      ghost var db := target.cur;
      var t, run := "", Run(KindDelete, []);
      issued := [];
      NothingApplied(env, rs, db);
      NothingPending(env, rs);
      assert rs[..0] == [];
      for i := 0 to |rs|
        invariant Valid() && target.Framed()
        invariant target.cur == Fold(env, issued, db)
        invariant PendingFrom(env, rs, run.recs, i)
        invariant issued + run.recs == KnownOnly(env, rs[..i])
        invariant run.recs != [] ==> PendingRun(env, rs, t, run)
        invariant NoKeymove(env, rs[..i])
      {
        var r := rs[i];
        KnownNext(env, rs, i);
        KnownUpTo(env, rs, i);
        KnownUpTo(env, rs, i + 1);
        if !Known(env, r) {
          UnknownSeam(env, rs, i);
          RunDone(env, rs, run.recs, i);
          out, issued := Flush(rs, t, run, issued, db);
          if out != Returned { return; }
          run := Run(KindDelete, []);
        } else {
          var kind := Classify(r, env.schema[Upper(r.table)]);
          if kind == KindKeymove {
            assert !NoKeymove(env, rs) by { HasKeymove(env, rs, i); }
            return Raised, issued;
          }
          if run.recs != [] && (Upper(r.table) != t || kind != run.kind) {
            RunSeam(env, rs, t, run, i);
            RunDone(env, rs, run.recs, i);
            out, issued := Flush(rs, t, run, issued, db);
            if out != Returned { return; }
            run := Run(kind, []);
          }
          PendingGrows(env, rs, Upper(r.table), Run(kind, run.recs), i);
          PendingMore(env, rs, run.recs, i);
          t, run := Upper(r.table), Run(kind, run.recs + [r]);
        }
      }
      assert rs[..|rs|] == rs;
      RunDone(env, rs, run.recs, |rs|);
      out, issued := Flush(rs, t, run, issued, db);
      KnownFold(env, rs, db);
    }

    /** Hands the pending run to the driver. */
    method Flush(ghost rs: seq<Record>, t: string, run: Run, ghost sofar: seq<Record>, ghost db: DB)
      returns (out: Outcome, ghost issued: seq<Record>)
      requires Valid() && AllSound(env, rs)
      requires run.recs != [] ==> PendingRun(env, rs, t, run)
      requires target.cur == Fold(env, sofar, db)
      modifies target
      ensures Valid() && target.Framed()
      ensures sofar <= issued <= sofar + run.recs && target.cur == Fold(env, issued, db)
      ensures out == Returned ==> issued == sofar + run.recs && !Rejects(env, run.recs)
      ensures out == Raised ==> target.down || Rejects(env, run.recs)
      ensures out == Died ==> target.life.mortal
    {
      hide Rejects;
      RejectsNone(env);
      issued := sofar;
      if run.recs == [] {
        return Returned, issued;
      }
      ghost var d;
      out, d := ApplyRun(t, run);
      FoldConcat(env, sofar, d, db);
      issued := sofar + d;
    }

    // -------------------------------------------------------------- the keymove barrier

    /** Applies a slice with every key move alone, persisting the cursor around it.  At every moment
        the records from the persisted cursor on still lead to what the whole slice leads to; every
        refused record behind the cursor is in the dead letter or replaced by a later image of its row;
        and only refused records are parked, never a move. */
    method ApplyBarriered(rs: seq<Record>, base: nat, reg: Registry, sink: DeadLetter, retries: nat)
      returns (out: Outcome)
      requires Valid() && AllSound(env, rs) && OneSpelling(env, rs) && sink.Valid()
      requires !target.inTxn && reg.cursor == base
      modifies target, reg, sink
      ensures Valid() && target.Framed() && sink.Valid()
      ensures base <= reg.cursor <= base + |rs| && BesideMove(env, rs, reg.cursor - base)
      ensures Fold(env, rs[reg.cursor - base..], target.cur) == Fold(env, rs, old(target.cur))
      ensures out == Returned ==> reg.cursor == base + |rs|
      ensures ParksOnlyRefused(env, old(sink.parked), sink.parked, rs)
      ensures Accounted(env, rs, reg.cursor - base, sink.parked)
      ensures out == Raised ==>
                || target.down || sink.Tripped() || (retries == 0 && Refusing(env, rs))
                || MoveStuck(env, rs, old(target.cur))
      ensures out == Died ==> target.life.mortal || reg.life.mortal || sink.life.mortal
    {
      hide Fold, Accounted, ParksOnlyRefused, IsKeymove, AllSound, OneSpelling, ValidDB, ValidSchema, Refusing;
      hide MoveRejects, MoveStuck, MoveStuckAt, NoMoves, AtBatch, Leaves, BesideMove;
      hide DeadLetter.Valid, DeadLetter.Tripped;
      ghost var db, parked0 := target.cur, sink.parked;
      StartBatch(env, rs, base, db, parked0);
      out := Barriers(rs, base, reg, sink, retries, db, parked0);
      LeftAt(env, rs, base, reg.cursor, target.cur, db, parked0, sink.parked);
    }

    /** What stops a slice, with its moves met in the states that the records before them leave. */
    ghost predicate BarrierExcused(out: Outcome, rs: seq<Record>, db: DB, reg: Registry, sink: DeadLetter, retries: nat)
      reads target, sink, target.life, reg.life, sink.life
    {
      && (out == Raised ==>
            || target.down || sink.Tripped() || (retries == 0 && Refusing(env, rs)) || MoveStuck(env, rs, db))
      && (out == Died ==> target.life.mortal || reg.life.mortal || sink.life.mortal)
    }

    /** Batch by batch and move by move. */
    method Barriers(rs: seq<Record>, base: nat, reg: Registry, sink: DeadLetter, retries: nat,
                    ghost db: DB, ghost parked0: seq<Record>)
      returns (out: Outcome)
      requires Valid() && AllSound(env, rs) && OneSpelling(env, rs) && sink.Valid() && !target.inTxn
      requires AtBatch(env, rs, 0, 0, base, reg.cursor, target.cur, db, parked0, sink.parked)
      modifies target, reg, sink
      ensures Valid() && target.Framed() && sink.Valid() && BarrierExcused(out, rs, db, reg, sink, retries)
      ensures Leaves(env, rs, base, reg.cursor, target.cur, db, parked0, sink.parked)
      ensures out == Returned ==> reg.cursor == base + |rs|
    {
      hide Fold, Accounted, ParksOnlyRefused, IsKeymove, AllSound, OneSpelling, ValidDB, ValidSchema, Refusing;
      hide MoveStuck, AtBatch, Leaves, BarrierExcused, DeadLetter.Valid;
      var b, i := 0, 0;        // the batch is rs[b..i]
      while i < |rs|
        invariant 0 <= b <= i <= |rs| && sink.Valid()
        invariant Valid() && target.Framed()
        invariant AtBatch(env, rs, b, i, base, reg.cursor, target.cur, db, parked0, sink.parked)
      {
        if IsKeymove(env, rs[i]) {
          out := MoveAt(rs, b, i, base, reg, sink, retries, db, parked0);
          if out != Returned { return; }
          b := i + 1;
        } else {
          GrowBatch(env, rs, b, i, base, reg.cursor, target.cur, db, parked0, sink.parked);
        }
        i := i + 1;
      }
      out := LastFlush(rs, b, base, reg, sink, retries, db, parked0);
    }

    method MoveAt(rs: seq<Record>, b: nat, i: nat, base: nat, reg: Registry, sink: DeadLetter, retries: nat,
                  ghost db: DB, ghost parked0: seq<Record>)
      returns (out: Outcome)
      requires Valid() && AllSound(env, rs) && OneSpelling(env, rs) && sink.Valid() && !target.inTxn
      requires i < |rs| && IsKeymove(env, rs[i])
      requires AtBatch(env, rs, b, i, base, reg.cursor, target.cur, db, parked0, sink.parked)
      modifies target, reg, sink
      ensures Valid() && target.Framed() && sink.Valid() && BarrierExcused(out, rs, db, reg, sink, retries)
      ensures Leaves(env, rs, base, reg.cursor, target.cur, db, parked0, sink.parked)
      ensures out == Returned ==>
                AtBatch(env, rs, i + 1, i + 1, base, reg.cursor, target.cur, db, parked0, sink.parked)
    {
      hide Fold, Accounted, ParksOnlyRefused, IsKeymove, AllSound, OneSpelling, ValidDB, ValidSchema, Refusing;
      hide MoveStuck, MoveStuckAt, AtBatch, Leaves, NoMoves, DeadLetter.Valid;
      ghost var parked1 := sink.parked;
      OpenBatch(env, rs, b, i, base, reg.cursor, target.cur, db, parked0, sink.parked);
      out := BarrierAt(rs, b, i, base, reg, sink, retries, db);
      StuckAtMove(env, rs, db, i);
      PassedMove(env, rs, b, i, base, reg.cursor, target.cur, db, parked0, parked1, sink.parked, out == Returned);
    }

    method LastFlush(rs: seq<Record>, b: nat, base: nat, reg: Registry, sink: DeadLetter, retries: nat,
                     ghost db: DB, ghost parked0: seq<Record>)
      returns (out: Outcome)
      requires Valid() && AllSound(env, rs) && OneSpelling(env, rs) && sink.Valid() && !target.inTxn
      requires AtBatch(env, rs, b, |rs|, base, reg.cursor, target.cur, db, parked0, sink.parked)
      modifies target, reg, sink
      ensures Valid() && target.Framed() && sink.Valid() && BarrierExcused(out, rs, db, reg, sink, retries)
      ensures Leaves(env, rs, base, reg.cursor, target.cur, db, parked0, sink.parked)
      ensures out == Returned ==> reg.cursor == base + |rs|
    {
      hide Fold, Accounted, ParksOnlyRefused, IsKeymove, AllSound, OneSpelling, ValidDB, ValidSchema, Refusing;
      hide MoveStuck, AtBatch, Leaves, NoMoves, DeadLetter.Valid;
      ghost var parked1 := sink.parked;
      OpenBatch(env, rs, b, |rs|, base, reg.cursor, target.cur, db, parked0, sink.parked);
      out := FlushBatch(rs, b, |rs|, base, reg, sink, retries, db);
      LastBatch(env, rs, b, base, reg.cursor, target.cur, db, parked0, parked1, sink.parked);
    }

    /** The pending batch, then the key move `rs[i]` alone. */
    method BarrierAt(rs: seq<Record>, b: nat, i: nat, base: nat, reg: Registry, sink: DeadLetter,
                     retries: nat, ghost db: DB)
      returns (out: Outcome)
      requires b <= i < |rs| && AllSound(env, rs) && OneSpelling(env, rs) && IsKeymove(env, rs[i])
      requires NoMoves(env, rs, b, i)
      requires Valid() && !target.inTxn && reg.cursor == base + b && sink.Valid()
      requires target.cur == Fold(env, rs[..b], db) && Accounted(env, rs, b, sink.parked)
      modifies target, reg, sink
      ensures Valid() && target.Framed() && sink.Valid()
      ensures reg.cursor == base + b || reg.cursor == base + i || reg.cursor == base + i + 1
      ensures out == Returned ==> reg.cursor == base + i + 1 && target.cur == Fold(env, rs[..i + 1], db)
      ensures Fold(env, rs[reg.cursor - base..], target.cur) == Fold(env, rs, db)
      ensures ParksOnlyRefused(env, old(sink.parked), sink.parked, rs)
      ensures Accounted(env, rs, reg.cursor - base, sink.parked)
      ensures out == Raised ==>
                || target.down || sink.Tripped() || (retries == 0 && Refusing(env, rs))
                || MoveStuckAt(env, rs, db, i)
      ensures out == Died ==> target.life.mortal || reg.life.mortal || sink.life.mortal
    {
      hide Fold, Accounted, ParksOnlyRefused, Refusing, MoveStuckAt;
      out := FlushBatch(rs, b, i, base, reg, sink, retries, db);
      if out == Returned {
        out := PassKeymove(rs, i, base, reg, db);
        AccountedMove(env, rs, i, sink.parked);
      }
    }

    /** Applies the key move `rs[i]` alone and persists the cursor behind it; a failing move is
        never parked. */
    method PassKeymove(rs: seq<Record>, i: nat, base: nat, reg: Registry, ghost db: DB)
      returns (out: Outcome)
      requires i < |rs| && AllSound(env, rs) && IsKeymove(env, rs[i])
      requires Valid() && !target.inTxn && reg.cursor == base + i
      requires target.cur == Fold(env, rs[..i], db)
      modifies target, reg
      ensures Valid() && target.Framed()
      ensures reg.cursor == base + i || reg.cursor == base + i + 1
      ensures out == Returned ==> reg.cursor == base + i + 1 && target.cur == Fold(env, rs[..i + 1], db)
      ensures Fold(env, rs[reg.cursor - base..], target.cur) == Fold(env, rs, db)
      ensures out == Raised ==> target.down || MoveStuckAt(env, rs, db, i)
      ensures out == Died ==> target.life.mortal || reg.life.mortal
    {
      hide Fold, Sound, Refused, IsKeymove, Known, MoveRejects;
      ghost var d;
      SliceOne(rs, i);
      SplitFold(env, rs, i, db);
      SplitFold(env, rs, i + 1, db);
      out, d := Apply([rs[i]]);
      RedoMove(env, rs, i, db, target.cur);
      if out == Returned {
        out := reg.SetApplyCursor(base + i + 1);
      }
    }

    /** Applies the pending keymove-free batch `rs[b..i]` and persists the cursor behind it. */
    method FlushBatch(rs: seq<Record>, b: nat, i: nat, base: nat, reg: Registry, sink: DeadLetter,
                      retries: nat, ghost db: DB)
      returns (out: Outcome)
      requires b <= i <= |rs| && AllSound(env, rs) && OneSpelling(env, rs)
      requires NoMoves(env, rs, b, i)
      requires Valid() && !target.inTxn && reg.cursor == base + b && sink.Valid()
      requires target.cur == Fold(env, rs[..b], db) && Accounted(env, rs, b, sink.parked)
      modifies target, reg, sink
      ensures Valid() && target.Framed() && sink.Valid()
      ensures reg.cursor == base + b || reg.cursor == base + i
      ensures out == Returned ==> reg.cursor == base + i && target.cur == Fold(env, rs[..i], db)
      ensures Fold(env, rs[reg.cursor - base..], target.cur) == Fold(env, rs, db)
      ensures ParksOnlyRefused(env, old(sink.parked), sink.parked, rs)
      ensures Accounted(env, rs, reg.cursor - base, sink.parked)
      ensures out == Raised ==> target.down || sink.Tripped() || (retries == 0 && Refusing(env, rs))
      ensures out == Died ==> target.life.mortal || reg.life.mortal || sink.life.mortal
    {
      hide Fold, Sound, Refused, Known, ParksOnlyRefused, Accounted, BatchParks, Refusing;
      var batch := rs[b..i];
      BatchSlice(env, rs, b, i, db);
      if batch == [] {
        ParksNothing(env, sink.parked, rs);
        return Returned;
      }
      ghost var parked0 := sink.parked;
      out := ApplyBatch(batch, sink, retries);
      ParksWider(env, parked0, sink.parked, batch, rs);
      StuckWider(env, batch, rs);
      BatchReplay(env, rs, b, i, db, target.cur);
      AccountedMore(env, rs, b, parked0, sink.parked);
      if out == Returned {
        AccountedBatch(env, rs, b, i, parked0, sink.parked);
        out := reg.SetApplyCursor(base + i);
      }
    }

    /** Applies a keymove-free batch under the poison policy (`retries == 0` turns it off).  A batch
        that returns has parked nothing if the target accepts it, and otherwise exactly the records
        that the target refuses. */
    method ApplyBatch(batch: seq<Record>, sink: DeadLetter, retries: nat) returns (out: Outcome)
      requires Valid() && AllSound(env, batch) && OneSpelling(env, batch) && NoKeymove(env, batch)
      requires sink.Valid()
      modifies target, sink
      ensures Valid() && target.Framed() && sink.Valid()
      ensures out == Returned ==> target.cur == Fold(env, batch, old(target.cur))
      ensures Fold(env, batch, target.cur) == Fold(env, batch, old(target.cur))
      ensures ParksOnlyRefused(env, old(sink.parked), sink.parked, batch)
      ensures out == Returned ==> sink.parked == ParkAll(old(sink.parked), BatchParks(env, batch))
      ensures out == Raised ==> target.down || sink.Tripped() || (retries == 0 && Refusing(env, batch))
      ensures out == Died ==> target.life.mortal || sink.life.mortal
    {
      hide Fold, Refused, ParksOnlyRefused, BatchRejects, Refusing;
      ghost var d;
      ghost var before := target.cur;
      ParksNothing(env, sink.parked, batch);
      out, d := Apply(batch);
      ReplayConverges(env, batch, d, before);
      if out == Raised && BatchRejects(env, batch) {
        BatchRejectsRejects(env, batch);
        RejectsRefusing(env, batch);
      }
      if out == Raised && retries > 0 {
        out := ApplyIsolatingPoison(batch, sink, retries);
      }
    }

    /** Up to `retries` attempts at one record. */
    method TryRecord(r: Record, retries: nat) returns (out: Outcome, ghost d: seq<Record>)
      requires Valid() && Sound(env, r) && !IsKeymove(env, r) && retries > 0
      modifies target
      ensures Valid() && target.Framed()
      ensures KeyPrefix(env, d, [r]) && target.cur == Fold(env, d, old(target.cur))
      ensures out == Raised ==> target.down || (target.cur == old(target.cur) && Refused(env, r))
      ensures out == Returned ==> target.cur == Fold(env, [r], old(target.cur)) && !Refused(env, r)
      ensures out == Died ==> target.life.mortal
    {
      hide BatchRejects, Refused, Fold, KeyPrefix;
      BatchRejectsOne(env, r);
      ghost var before := target.cur;
      var k := 0;
      out, d := Raised, [];
      NothingTried(env, r, before);
      while out == Raised && k < retries
        invariant Valid() && target.Framed() && k <= retries
        invariant KeyPrefix(env, d, [r]) && target.cur == Fold(env, d, before)
        invariant out == Raised ==> target.down || target.cur == before
        invariant out == Raised && k > 0 ==> target.down || Refused(env, r)
        invariant out == Returned ==> target.cur == Fold(env, [r], before) && !Refused(env, r)
        invariant out == Died ==> target.life.mortal
      {
        ghost var more;
        ghost var mid := target.cur;
        out, more := Apply([r]);
        d := TriedAgain(env, r, d, more, before, mid, target.cur);
        k := k + 1;
      }
    }

    /** Re-applies a failed batch one record at a time, parking each record that the target keeps
        refusing while it answers: when it returns, exactly the refused records were handed to the
        dead letter, in order. */
    method ApplyIsolatingPoison(batch: seq<Record>, sink: DeadLetter, retries: nat)
      returns (out: Outcome)
      requires Valid() && AllSound(env, batch) && NoKeymove(env, batch)
      requires retries > 0 && sink.Valid()
      modifies target, sink
      ensures Valid() && target.Framed() && sink.Valid()
      ensures out == Returned ==> target.cur == Fold(env, batch, old(target.cur))
      ensures Fold(env, batch, target.cur) == Fold(env, batch, old(target.cur))
      ensures ParksOnlyRefused(env, old(sink.parked), sink.parked, batch)
      ensures out == Returned ==> sink.parked == ParkAll(old(sink.parked), RefusedIn(env, batch))
      ensures out == Returned && RefusedIn(env, batch) != [] ==> !old(target.down)
      ensures out == Raised ==> target.down || sink.Tripped()
      ensures out == Died ==> target.life.mortal || sink.life.mortal
    {
      hide Fold, Refused, ParksOnlyRefused, ParkAll, ParkOne, DeadLetter.Valid, RefusedIn;
      ghost var db := target.cur;
      ghost var parked0 := sink.parked;
      NothingParked(env, parked0, batch);
      FoldNothing(env, db);
      assert batch[..0] == [];
      for j := 0 to |batch|
        invariant Valid() && target.Framed() && sink.Valid()
        invariant target.cur == Fold(env, batch[..j], db)
        invariant ParksOnlyRefused(env, parked0, sink.parked, batch)
        invariant sink.parked == ParkAll(parked0, RefusedIn(env, batch[..j]))
        invariant RefusedIn(env, batch[..j]) != [] ==> !old(target.down)
      {
        ghost var d;
        out, d := TryRecord(batch[j], retries);
        IsolatedStep(env, batch, j, d, db);
        NextRefused(env, parked0, batch, j);
        if out == Died { return; }
        if out == Raised {
          var up := target.Ping();
          if !up { return; }
          ghost var parked1 := sink.parked;
          out := sink.Park(batch[j]);
          ParksOne(env, parked1, sink.parked, batch[j], batch);
          ParksThen(env, parked0, parked1, sink.parked, batch);
          if out != Returned { return; }
        }
      }
      assert batch[..|batch|] == batch;
      WholeTwice(env, batch, db);
      out := Returned;
    }

    // -------------------------------------------------------------- one source transaction

    /** Applies a keymove-free source transaction in one target transaction.  What becomes durable
        is all of it or nothing.  When it returns, either the target accepts the group, all of it is
        durable and nothing is parked; or the target answers but rejects it, nothing is durable, and
        the whole group was handed to the dead letter.  In every case applying the group again leads to
        the same state. */
    method ApplyTxn(rs: seq<Record>, sink: DeadLetter, retries: nat) returns (out: Outcome)
      requires Valid() && AllSound(env, rs) && NoKeymove(env, rs) && !target.inTxn && sink.Valid()
      modifies target, sink
      ensures Valid() && (out != Died ==> !target.inTxn) && sink.Valid()
      ensures AllOrNothing(env, rs, old(target.committed), target.committed)
      ensures old(target.history) <= target.history
      ensures forall i :: |old(target.history)| <= i < |target.history| ==>
                target.history[i] == Fold(env, rs, old(target.committed))
      ensures target.history != old(target.history) ==> !Rejects(env, rs)
      ensures out == Returned ==>
                if Rejects(env, rs) then
                  target.committed == old(target.committed) && retries > 0 && !target.down
                else
                  target.committed == Fold(env, rs, old(target.committed))
      ensures out == Returned ==> sink.parked == ParkAll(old(sink.parked), GroupParks(env, rs))
      ensures old(sink.parked) <= sink.parked
      ensures sink.parked != old(sink.parked) ==> Rejects(env, rs) && retries > 0
      ensures forall i :: |old(sink.parked)| <= i < |sink.parked| ==> sink.parked[i] in rs
      ensures (old(target.down) ==> target.down) && (target.down ==> old(target.down) || target.life.flaky)
      ensures out == Raised ==> target.down || sink.Tripped() || (retries == 0 && Rejects(env, rs))
      ensures out == Died ==> target.life.mortal || sink.life.mortal
    {
      hide Fold, Rejects, ParkAll;
      ghost var db := target.committed;
      ghost var h0 := target.history;
      WholeTwice(env, rs, db);
      ParkNothing(sink.parked);
      var k := 0;
      while k < (if retries > 0 then retries else 1)
        invariant Valid() && !target.inTxn
        invariant NothingYet(h0, db) || (target.down && Landed(rs, h0, db) && !Rejects(env, rs))
        invariant sink.parked == old(sink.parked) && sink.Valid()
        invariant k > 0 ==> target.down || Rejects(env, rs)
        invariant (old(target.down) ==> target.down) && (target.down ==> old(target.down) || target.life.flaky)
      {
        var reply := target.Begin();
        if !reply.Done? {
          return OutcomeOf(reply);
        }
        out := AttemptTxn(rs, db, h0);
        if out != Raised { return; }
        target.Rollback();
        k := k + 1;
      }
      if retries == 0 {
        return Raised;
      }
      var up := target.Ping();
      if !up {
        return Raised;
      }
      out := ParkGroup(rs, sink);
    }

    ghost predicate NothingYet(h0: seq<DB>, db: DB)
      reads target
    {
      target.history == h0 && target.committed == db
    }

    ghost predicate Landed(rs: seq<Record>, h0: seq<DB>, db: DB)
      reads target
    {
      target.history == h0 + [Fold(env, rs, db)] && target.committed == Fold(env, rs, db)
    }

    /** One attempt inside the open transaction. */
    method AttemptTxn(rs: seq<Record>, ghost db: DB, ghost h0: seq<DB>) returns (out: Outcome)
      requires Valid() && AllSound(env, rs) && NoKeymove(env, rs) && target.inTxn
      requires target.committed == db == target.cur && target.history == h0
      modifies target
      ensures Valid() && (old(target.down) ==> target.down)
      ensures target.down ==> old(target.down) || target.life.flaky
      ensures out == Died ==> target.life.mortal
      ensures NothingYet(h0, db) || (Landed(rs, h0, db) && !Rejects(env, rs))
      ensures out == Returned ==>
                !target.inTxn && target.committed == Fold(env, rs, db) && !Rejects(env, rs)
      ensures out == Raised ==> target.down || (NothingYet(h0, db) && Rejects(env, rs))
    {
      hide Fold, Rejects;
      ghost var issued;
      out, issued := ApplyOrdered(rs);
      if out == Returned {
        var reply := target.Commit();
        out := OutcomeOf(reply);
      }
    }

    /** Hands a whole group to the dead letter. */
    method ParkGroup(rs: seq<Record>, sink: DeadLetter) returns (out: Outcome)
      requires sink.Valid()
      modifies sink
      ensures sink.Valid() && old(sink.parked) <= sink.parked
      ensures forall i :: |old(sink.parked)| <= i < |sink.parked| ==> sink.parked[i] in rs
      ensures out == Returned ==> sink.parked == ParkAll(old(sink.parked), rs)
      ensures out == Raised ==> sink.Tripped()
      ensures out == Died ==> sink.life.mortal
    {
      ParkNothing(sink.parked);
      assert rs[..0] == [];
      for j := 0 to |rs|
        invariant sink.Valid() && old(sink.parked) <= sink.parked
        invariant forall i :: |old(sink.parked)| <= i < |sink.parked| ==> sink.parked[i] in rs
        invariant sink.parked == ParkAll(old(sink.parked), rs[..j])
      {
        ParkNext(old(sink.parked), rs, j);
        out := sink.Park(rs[j]);
        if out != Returned { return; }
      }
      assert rs[..|rs|] == rs;
      out := Returned;
    }
  }

  /** The registry row of the extract: the persisted apply cursor. */
  class Registry {
    var cursor: nat
    const life: Process

    constructor (c: nat, life: Process)
      ensures cursor == c && this.life == life
    {
      cursor, this.life := c, life;
    }

    method SetApplyCursor(c: nat) returns (out: Outcome)
      modifies this
      ensures out == Returned ==> cursor == c
      ensures out != Returned ==> out == Died && life.mortal && (cursor == c || cursor == old(cursor))
    {
      var alive := life.Lives();
      var landed := *;
      if alive || landed { cursor := c; }
      out := if alive then Returned else Died;
    }
  }

  /** The dead-letter file with its replay filter and its per-run circuit breaker. */
  class DeadLetter {
    var parked: seq<Record>
    var seen: set<SourcePos>     // the positions in the file
    var count: nat               // recorded in this run
    const maxPerRun: nat         // 0 turns the breaker off
    const life: Process

    ghost predicate Valid()
      reads this
    {
      Once(parked) && forall p :: p in seen <==> p != Absent && Holds(parked, p)
    }

    constructor (maxPerRun: nat, life: Process)
      ensures Valid() && parked == [] && count == 0 && this.maxPerRun == maxPerRun && this.life == life
    {
      parked, seen, count, this.maxPerRun, this.life := [], {}, 0, maxPerRun, life;
    }

    /** This run has recorded more than its limit. */
    predicate Tripped()
      reads this
    {
      maxPerRun > 0 && count > maxPerRun
    }

    /** A new run reads the positions that earlier runs recorded, and counts from zero. */
    method Reopen()
      requires Valid()
      modifies this`seen, this`count
      ensures Valid() && count == 0
    {
      seen := set r | r in parked && r.pos != Absent :: r.pos;
      count := 0;
    }

    /** Records a poison record unless its position is on file; the breaker trips exactly when a run
        has recorded more than its limit. */
    method Park(r: Record) returns (out: Outcome)
      requires Valid()
      modifies this
      ensures Valid() && (parked == old(parked) || parked == old(parked) + [r])
      ensures out != Died ==> parked == ParkOne(old(parked), r)
      ensures out != Died ==> count == old(count) + |parked| - |old(parked)|
      ensures out == Raised <==> out != Died && parked != old(parked) && maxPerRun > 0 && count > maxPerRun
      ensures out == Died ==> life.mortal
    {
      if r.pos != Absent && r.pos in seen {
        return Returned;
      }
      OnceMore(parked, r);
      var alive := life.Lives();
      var landed := *;
      if alive || landed {
        HoldsMore(parked, r);
        parked := parked + [r];
        if r.pos != Absent { seen := seen + {r.pos}; }
      }
      if !alive {
        return Died;
      }
      count := count + 1;
      out := if maxPerRun > 0 && count > maxPerRun then Raised else Returned;
    }
  }
}
