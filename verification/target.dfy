/** The target driver's apply seam: keyed upsert, column-subset update, delete by key, and one
    explicit transaction.  Every call is atomic and may be refused, find the target unreachable,
    or never return because the process dies before or after the call took effect. */
module Target {
  import opened Processes
  import opened Records
  import opened Store

  datatype Reply =
    | Done(matched: nat)   // the call took effect
    | Rejected             // rejected: the same call is always rejected
    | Conflict             // unique-key violation
    | Unreachable          // the target is down, and stays down for this process
    | Crashed              // the process died around the call

  // ---------------------------------------------------------------- what the calls do

  /** The batch after de-duplication: the last image of each key wins. */
  function LastByKey(images: seq<Image>, pk: seq<string>): map<Key, Image> {
    if images == [] then map[]
    else
      var last := images[|images| - 1];
      LastByKey(images[..|images| - 1], pk)[KeyOf(last, pk) := last]
  }

  /** Merging upserts keep the stored value of an omitted column; replacing ones (DELETE and
      INSERT) set it to NULL. */
  function Upserted(merge: bool, m: Meta, stored: Option<Row>, image: Image): Row {
    if merge && stored.Some? then stored.value + Patch(m, image) else Blank(m) + Patch(m, image)
  }

  function PutRows(merge: bool, m: Meta, t: string, db: DB, byKey: map<Key, Image>): DB {
    db + (map k | k in byKey :: Loc(t, k) := Upserted(merge, m, CellAt(db, Loc(t, k)), byKey[k]))
  }

  /** Whether the target rejects the batch: it does when it refuses any image it is given. */
  predicate AnyRefused(env: Env, t: string, byKey: map<Key, Image>) {
    exists k :: k in byKey && env.refuses(t, byKey[k])
  }

  function RemoveKeys(m: Meta, t: string, db: DB, wheres: seq<Image>): DB {
    db - (set w | w in wheres :: Loc(t, KeyOf(w, m.pk)))
  }

  /** The key a row has after `sets` overwrote some of its columns. */
  function KeyAfter(m: Meta, wh: Image, sets: Image): Key {
    KeyOf(wh + sets, m.pk)
  }

  function UpdateRow(m: Meta, t: string, db: DB, wh: Image, sets: Image): DB {
    var from, to := Loc(t, KeyOf(wh, m.pk)), Loc(t, KeyAfter(m, wh, sets));
    if from in db then (db - {from})[to := db[from] + Patch(m, sets)] else db
  }

  predicate KeyTaken(m: Meta, t: string, db: DB, wh: Image, sets: Image) {
    var from, to := Loc(t, KeyOf(wh, m.pk)), Loc(t, KeyAfter(m, wh, sets));
    from in db && to != from && to in db
  }

  class TargetDriver {
    const env: Env
    const merge: bool          // merging upsert, or DELETE and INSERT
    const life: Process
    var committed: DB          // what survives a crash
    var cur: DB                // what this connection sees
    var inTxn: bool
    var down: bool
    ghost var history: seq<DB> // every committed state so far

    ghost predicate Valid()
      reads this
    {
      && ValidSchema(env.schema)
      && ValidDB(env.schema, cur)
      && ValidDB(env.schema, committed)
      && (!inTxn ==> cur == committed)
      && history != [] && history[|history| - 1] == committed
    }

    /** What every call leaves alone: outside a transaction each effect is committed at once,
        inside one nothing is. */
    twostate predicate Framed()
      reads this, life
    {
      && Valid()
      && inTxn == old(inTxn)
      && (old(down) ==> down) && (down ==> old(down) || life.flaky)
      && (inTxn ==> committed == old(committed) && history == old(history))
      && old(history) <= history
    }

    constructor (env: Env, merge: bool, db: DB, life: Process)
      requires ValidSchema(env.schema) && ValidDB(env.schema, db)
      ensures Valid() && !inTxn && !down && committed == db && history == [db]
      ensures this.env == env && this.merge == merge && this.life == life
    {
      this.env, this.merge, this.life := env, merge, life;
      committed, cur, inTxn, down := db, db, false, false;
      history := [db];
    }

    /** Makes `next` what the connection sees, and durable outside a transaction. */
    method Land(next: DB)
      requires Valid() && ValidDB(env.schema, next)
      modifies this
      ensures Framed() && cur == next && down == old(down)
      ensures !inTxn ==> history == old(history) + [next]
    {
      cur := next;
      if !inTxn {
        committed := next;
        history := history + [next];
      }
    }

    /** The fate of a call that the target would accept: with no `effect` to be seen, the process is dead
        or the target down, and the call may have `landed` all the same. */
    method Fate() returns (alive: bool, effect: bool, landed: bool)
      requires Valid()
      modifies this`down
      ensures Framed() && cur == old(cur) && committed == old(committed) && history == old(history)
      ensures alive && !effect ==> down
      ensures alive && effect ==> !down
      ensures effect || old(down) ==> !landed
      ensures alive || life.mortal
    {
      alive := life.Lives();
      effect, landed := *, *;
      if !life.flaky { effect := true; }
      if alive && down { effect := false; }
      landed := landed && !effect && !down;
      if alive { down := !effect; }
    }

    method Upsert(t: string, images: seq<Image>) returns (reply: Reply)
      requires Valid() && t in env.schema
      modifies this
      ensures Framed()
      ensures reply.Done? ==>
                cur == PutRows(merge, env.schema[t], t, old(cur), LastByKey(images, env.schema[t].pk))
      ensures reply.Done? ==> !AnyRefused(env, t, LastByKey(images, env.schema[t].pk))
      ensures reply.Rejected? ==> cur == old(cur) && !down
      ensures reply.Rejected? ==> AnyRefused(env, t, LastByKey(images, env.schema[t].pk))
      ensures reply.Unreachable? ==> down
      ensures reply.Crashed? || reply.Unreachable? ==>
                cur == old(cur) ||
                (cur == PutRows(merge, env.schema[t], t, old(cur), LastByKey(images, env.schema[t].pk)) &&
                 !AnyRefused(env, t, LastByKey(images, env.schema[t].pk)))
      ensures reply.Crashed? ==> life.mortal
      ensures !reply.Conflict?
    {
      var m := env.schema[t];
      var byKey: map<Key, Image> := map[];
      for i := 0 to |images|
        invariant byKey == LastByKey(images[..i], m.pk)
      {
        assert images[..i + 1][..i] == images[..i];
        byKey := byKey[KeyOf(images[i], m.pk) := images[i]];
      }
      assert images[..|images|] == images;
      var next := PutRows(merge, m, t, cur, byKey);
      assert ValidDB(env.schema, next) by { PutRowsValid(env.schema, merge, t, cur, byKey); }
      var alive, effect, landed := Fate();
      if !effect {
        if landed && !AnyRefused(env, t, byKey) { Land(next); }
        return if alive then Unreachable else Crashed;
      }
      if AnyRefused(env, t, byKey) {
        return if alive then Rejected else Crashed;
      }
      Land(next);
      reply := if alive then Done(|byKey|) else Crashed;
    }

    method UpdateColumns(t: string, wh: Image, sets: Image) returns (reply: Reply)
      requires Valid() && t in env.schema
      modifies this
      ensures Framed()
      ensures reply.Done? ==>
                && cur == UpdateRow(env.schema[t], t, old(cur), wh, sets)
                && (reply.matched == 0 <==> Loc(t, KeyOf(wh, env.schema[t].pk)) !in old(cur))
                && (reply.matched != 0 ==> !env.refuses(t, wh + sets))
      ensures reply.Rejected? ==>
                && cur == old(cur) && !down && env.refuses(t, wh + sets)
                && Loc(t, KeyOf(wh, env.schema[t].pk)) in old(cur)
      ensures reply.Conflict? ==> cur == old(cur) && KeyTaken(env.schema[t], t, old(cur), wh, sets)
      ensures reply.Unreachable? ==> down
      ensures reply.Crashed? || reply.Unreachable? ==>
                cur == old(cur) ||
                (cur == UpdateRow(env.schema[t], t, old(cur), wh, sets) && !env.refuses(t, wh + sets))
      ensures reply.Crashed? ==> life.mortal
    {
      var m := env.schema[t];
      var alive, effect, landed := Fate();
      if !effect {
        if landed && !env.refuses(t, wh + sets) && !KeyTaken(m, t, cur, wh, sets) {
          Land(UpdateRow(m, t, cur, wh, sets));
        }
        return if alive then Unreachable else Crashed;
      }
      if Loc(t, KeyOf(wh, m.pk)) !in cur {
        return if alive then Done(0) else Crashed;
      }
      if env.refuses(t, wh + sets) {
        return if alive then Rejected else Crashed;
      }
      if KeyTaken(m, t, cur, wh, sets) {
        return if alive then Conflict else Crashed;
      }
      Land(UpdateRow(m, t, cur, wh, sets));
      reply := if alive then Done(1) else Crashed;
    }

    method DeleteKeys(t: string, wheres: seq<Image>) returns (reply: Reply)
      requires Valid() && t in env.schema
      modifies this
      ensures Framed()
      ensures reply.Done? ==>
                && cur == RemoveKeys(env.schema[t], t, old(cur), wheres)
                && forall w :: w in wheres ==> !env.refuses(t, w)
      ensures reply.Rejected? ==>
                cur == old(cur) && !down && exists w :: w in wheres && env.refuses(t, w)
      ensures reply.Unreachable? ==> down
      ensures reply.Crashed? || reply.Unreachable? ==>
                cur == old(cur) ||
                (cur == RemoveKeys(env.schema[t], t, old(cur), wheres) &&
                 forall w :: w in wheres ==> !env.refuses(t, w))
      ensures reply.Crashed? ==> life.mortal
      ensures !reply.Conflict?
    {
      var refused := exists w :: w in wheres && env.refuses(t, w);
      var alive, effect, landed := Fate();
      if !effect {
        if landed && !refused { Land(RemoveKeys(env.schema[t], t, cur, wheres)); }
        return if alive then Unreachable else Crashed;
      }
      if refused {
        return if alive then Rejected else Crashed;
      }
      Land(RemoveKeys(env.schema[t], t, cur, wheres));
      reply := if alive then Done(|wheres|) else Crashed;
    }

    /** The liveness probe: true when the target answers. */
    method Ping() returns (up: bool)
      requires Valid()
      modifies this`down
      ensures Framed() && cur == old(cur) && committed == old(committed) && history == old(history)
      ensures up == !down
    {
      var alive, effect, _ := Fate();
      up := !down;
    }

    method Begin() returns (reply: Reply)
      requires Valid() && !inTxn
      modifies this
      ensures Valid() && (old(down) ==> down) && (down ==> old(down) || life.flaky)
      ensures reply.Crashed? ==> life.mortal
      ensures cur == old(cur) && committed == old(committed) && history == old(history)
      ensures reply.Done? ==> inTxn && !down
      ensures reply.Unreachable? ==> down && !inTxn
      ensures reply.Done? || reply.Unreachable? || reply.Crashed?
    {
      var alive, effect, _ := Fate();
      if !effect {
        return if alive then Unreachable else Crashed;
      }
      inTxn := true;
      reply := if alive then Done(0) else Crashed;
    }

    /** A commit whose acknowledgement is lost may or may not have landed. */
    method Commit() returns (reply: Reply)
      requires Valid() && inTxn
      modifies this
      ensures Valid() && (old(down) ==> down) && (down ==> old(down) || life.flaky) && cur == old(cur)
      ensures reply.Crashed? ==> life.mortal
      ensures reply.Done? ==> !inTxn && committed == old(cur)
      ensures reply.Unreachable? ==> inTxn && down
      ensures (committed == old(committed) && history == old(history)) ||
              (committed == old(cur) && history == old(history) + [old(cur)])
      ensures reply.Done? || reply.Unreachable? || reply.Crashed?
    {
      var alive, effect, landed := Fate();
      if effect || landed {
        committed := cur;
        history := history + [cur];
      }
      if !effect {
        return if alive then Unreachable else Crashed;
      }
      inTxn := false;
      reply := if alive then Done(0) else Crashed;
    }

    /** A new process connects: only what was committed is there. */
    method Reconnect()
      requires Valid()
      modifies this
      ensures Valid() && !inTxn && cur == committed && (down ==> life.flaky)
      ensures committed == old(committed) && history == old(history)
    {
      cur, inTxn, down := committed, false, *;
      down := down && life.flaky;
    }

    /** Whatever the connection had not committed is gone, reachable or not. */
    method Rollback()
      requires Valid()
      modifies this
      ensures Valid() && !inTxn && cur == committed && (old(down) ==> down) && (down ==> old(down) || life.flaky)
      ensures committed == old(committed) && history == old(history)
    {
      cur := committed;
      inTxn := false;
      var alive, effect, _ := Fate();
    }
  }

  lemma PutRowsAt(merge: bool, m: Meta, t: string, db: DB, byKey: map<Key, Image>, loc: Loc)
    ensures CellAt(PutRows(merge, m, t, db, byKey), loc) ==
            if loc.table == t && loc.key in byKey then
              Some(Upserted(merge, m, CellAt(db, loc), byKey[loc.key]))
            else CellAt(db, loc)
  {
    assert loc.table == t ==> loc == Loc(t, loc.key);
  }

  lemma PutRowsValid(schema: map<string, Meta>, merge: bool, t: string, db: DB, byKey: map<Key, Image>)
    requires ValidDB(schema, db) && t in schema
    ensures ValidDB(schema, PutRows(merge, schema[t], t, db, byKey))
  {
    var next := PutRows(merge, schema[t], t, db, byKey);
    forall loc | loc in next && loc.table in schema
      ensures next[loc].Keys == NonKey(schema[loc.table])
    {
      if loc.table == t && loc.key in byKey {
        assert loc == Loc(t, loc.key);
      } else {
        assert next[loc] == db[loc];
      }
    }
  }
}
