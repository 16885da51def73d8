/** Source to target as one history: binlog captures, extract cycles and replicat runs on one trail, every
    process possibly dying at any step. */
module Pipeline {
  import opened Records
  import opened Store
  import opened Replay
  import opened Target
  import opened ApplyLemmas
  import opened Rejection
  import Poison
  import opened LiveLog
  import opened Processes
  import opened Apply
  import opened TrailLog
  import opened Engine
  import opened RunLemmas
  import opened Runs
  import opened Dedup
  import Extracting
  import MySqlCapture
  import SourceHistory

  /** What the source did and how its binlog holds it.  The stream `src` is the rows of the binlog under
      whatever tags the captures gave them; the target refuses what it refuses. */
  ghost predicate Scenario(env: Env, db0: DB, tables: MySqlCapture.Tables, es: seq<MySqlCapture.Event>,
                           src: seq<Record>, cs: seq<SourceHistory.Change>, anchor: int) {
    && ValidSchema(env.schema) && ValidDB(env.schema, db0)
    && SourceHistory.History(env, db0, cs) && SourceHistory.Logged(env, tables, es, cs)
    && MySqlCapture.Retagged(src, MySqlCapture.RawAll(tables, es)) && MySqlCapture.Behind(es, anchor)
    && (forall r :: r in src && !IsKeymove(env, r) ==> (env.drop(r) <==> Refused(env, r)))
    && OneSpelling(env, src)
  }

  /** The target accepts every record. */
  ghost predicate Accepting(env: Env, src: seq<Record>) {
    forall r :: r in src ==> !env.drop(r) && !Refused(env, r)
  }

  // ---------------------------------------------------------------- the parts fit

  lemma SaysSound(env: Env, r: Record, c: SourceHistory.Change)
    requires SourceHistory.Says(env, r, c) && (!IsKeymove(env, r) ==> (env.drop(r) <==> Refused(env, r)))
    ensures Sound(env, r)
  {
    hide Refused, IsKeymove;
  }

  lemma AllSaysSound(env: Env, rs: seq<Record>, cs: seq<SourceHistory.Change>)
    requires SourceHistory.SaysAll(env, rs, cs)
    requires forall r :: r in rs && !IsKeymove(env, r) ==> (env.drop(r) <==> Refused(env, r))
    ensures AllSound(env, rs)
  {
    hide SourceHistory.Says, Sound, Refused, IsKeymove;
    forall r | r in rs ensures Sound(env, r) {
      var i :| 0 <= i < |rs| && rs[i] == r;
      SaysSound(env, r, cs[i]);
    }
  }

  /** What a scenario gives the extract and the replicat. */
  lemma ScenarioFits(env: Env, db0: DB, tables: MySqlCapture.Tables, es: seq<MySqlCapture.Event>,
                     src: seq<Record>, cs: seq<SourceHistory.Change>, anchor: int)
    requires Scenario(env, db0, tables, es, src, cs, anchor)
    ensures ValidSchema(env.schema) && ValidDB(env.schema, db0) && AllSound(env, src) && OneSpelling(env, src)
    ensures SourceHistory.History(env, db0, cs) && SourceHistory.SaysAll(env, src, cs)
    ensures KeysUp(src) && CutAt(src, anchor, 0) && MySqlCapture.Behind(es, anchor)
    ensures MySqlCapture.Retagged(src, MySqlCapture.RawAll(tables, es))
  {
    hide SourceHistory.History, SourceHistory.Logged, SourceHistory.SaysAll, MySqlCapture.Retagged;
    hide MySqlCapture.Behind, Refused, IsKeymove, OneSpelling, ValidDB, AllSound, KeysUp, CutAt, ValidSchema;
    SourceHistory.LogSays(env, db0, tables, es, cs, src);
    AllSaysSound(env, src, cs);
    MySqlCapture.CutAnywhere(tables, es, src, anchor, 0);
    NoRows(tables);
    assert es[..0] == [];
  }

  lemma NoRows(tables: MySqlCapture.Tables)
    ensures MySqlCapture.RawAll(tables, []) == []
  {
  }

  /** How the coordinates of two events cut the stream. */
  lemma CaptureFits(tables: MySqlCapture.Tables, es: seq<MySqlCapture.Event>, src: seq<Record>, anchor: int,
                    i: nat, j: nat)
    requires MySqlCapture.Behind(es, anchor) && i <= j <= |es|
    requires MySqlCapture.Retagged(src, MySqlCapture.RawAll(tables, es))
    ensures var p, q := |MySqlCapture.RawAll(tables, es[..i])|, |MySqlCapture.RawAll(tables, es[..j])|;
            && KeysUp(src) && p <= q <= |src|
            && CutAt(src, MySqlCapture.Coordinate(es, anchor, i), p)
            && CutAt(src, MySqlCapture.Coordinate(es, anchor, j), q)
  {
    hide MySqlCapture.RawAll, CutAt, KeysUp, MySqlCapture.Retagged, MySqlCapture.Behind, MySqlCapture.Emit;
    MySqlCapture.CutAnywhere(tables, es, src, anchor, i);
    MySqlCapture.CutAnywhere(tables, es, src, anchor, j);
    MySqlCapture.AnyCapture(tables, es, src, i, j);
  }

  /** Captures that start and stop at commits are the pieces of the stream that one capture of everything
      would give. */
  lemma WholeFits(tables: MySqlCapture.Tables, es: seq<MySqlCapture.Event>, i: nat, j: nat)
    requires MySqlCapture.Advancing(es) && i <= j <= |es|
    requires MySqlCapture.Buffer(tables, es[..i]) == [] && MySqlCapture.Buffer(tables, es[..j]) == []
    ensures var p, q := |MySqlCapture.RawAll(tables, es[..i])|, |MySqlCapture.RawAll(tables, es[..j])|;
            && MySqlCapture.Retagged(MySqlCapture.Emit(tables, es), MySqlCapture.RawAll(tables, es))
            && p <= q <= |MySqlCapture.Emit(tables, es)|
            && MySqlCapture.Emit(tables, es[i..j]) == MySqlCapture.Emit(tables, es)[p..q]
  {
    hide MySqlCapture.Emit, MySqlCapture.RawAll, MySqlCapture.Buffer, MySqlCapture.Advancing, MySqlCapture.Untagged;
    hide KeysUp, CutAt;
    MySqlCapture.CaptureIsSlice(tables, es, i, j);
    MySqlCapture.EmitRows(tables, es);
    MySqlCapture.EmitRows(tables, es[..i]);
    MySqlCapture.EmitRows(tables, es[..j]);
  }

  /** What another process appended to the trail of an anchored extract. */
  lemma Resynced(src: seq<Record>, b: nat, pos: Option<int>, d: nat)
    requires b <= d <= |src| && ExactlyOnce(src, src[..b], b, pos) && pos.Some?
    ensures ExactlyOnce(src, src[..d], d, pos)
  {
    Extracting.TrailedRun(src, d);
    var p: nat :| p <= b && CutAt(src, pos.value, p);
  }

  /** A state the source itself had at the end of a transaction. */
  ghost predicate SourceState(env: Env, db0: DB, cs: seq<SourceHistory.Change>, src: seq<Record>, db: DB) {
    exists m: nat :: m <= |cs| && SourceHistory.History(env, db0, cs[..m]) && Boundary(src, m) &&
                     db == SourceHistory.After(env, db0, cs[..m])
  }

  lemma AlignedIsSource(env: Env, db0: DB, cs: seq<SourceHistory.Change>, src: seq<Record>, c: nat, db: DB,
                        h: seq<DB>)
    requires SourceHistory.History(env, db0, cs) && SourceHistory.SaysAll(env, src, cs) && ValidDB(env.schema, db0)
    requires Accepting(env, src)
    requires Aligned(env, src, {}, 0, db0, [db0], c, db, h)
    ensures forall i :: 0 < i < |h| ==> SourceState(env, db0, cs, src, h[i])
  {
    hide SourceHistory.History, SourceHistory.SaysAll, SourceHistory.After, OneAhead, BoundaryState, Refused;
    forall i | 0 < i < |h| ensures SourceState(env, db0, cs, src, h[i]) {
      assert BoundaryState(env, src, {}, 0, db0, h[i]);
      var m := SourceHistory.CommittedStates(env, db0, cs, src, h[i]);
    }
  }

  /** Where nothing is refused, the end of the stream is the source's state. */
  lemma EndAccepted(env: Env, db0: DB, cs: seq<SourceHistory.Change>, src: seq<Record>, db: DB)
    requires SourceHistory.History(env, db0, cs) && SourceHistory.SaysAll(env, src, cs) && ValidDB(env.schema, db0)
    requires Accepting(env, src) && Converging(env, src, {}, 0, db0, |src|, db)
    ensures db == SourceHistory.After(env, db0, cs)
  {
    hide SourceHistory.History, SourceHistory.SaysAll, SourceHistory.After, Converging, Refused;
    SourceHistory.EndIsSource(env, db0, cs, src, db);
  }

  // ---------------------------------------------------------------- the history

  /** The apply side of an empty trail. */
  method NewRun(env: Env, merge: bool, db0: DB, trail: Trail, src: seq<Record>, maxPerRun: nat, grouped: bool)
    returns (run: ReplicatRun)
    requires trail.Valid() && trail.log == [] && trail.purged == 0
    requires ValidSchema(env.schema) && ValidDB(env.schema, db0) && AllSound(env, src) && OneSpelling(env, src)
    ensures fresh(run.rep.target) && fresh(run.reg) && fresh(run.sink)
    ensures fresh(run.rep.target.life) && fresh(run.reg.life) && fresh(run.sink.life)
    ensures run.Durable() && run.reader.trail == trail && run.reader.all == src && run.first == 0
    ensures run.rep.env == env && run.grouped == grouped && run.sink.parked == [] && run.reg.cursor == 0
    ensures run.rep.target.committed == db0 && run.rep.target.history == [db0]
  {
    hide Settled, AllSound, OneSpelling, ValidDB, ValidSchema, Ordered, Holds, CacheRight, ReplicatRun.Gone;
    hide Poison.Holds, Poison.Once;
    var life := new Process();
    var reader := new TrailReader(trail, src);
    var target := new TargetDriver(env, merge, db0, life);
    var rep := new Replicat(target);
    var reg := new Registry(0, life);
    var sink := new DeadLetter(maxPerRun, life);
    run := new ReplicatRun(reader, rep, reg, sink, grouped);
    assert Settled(env, src, run.Gone(), 0, 0, []) by { NothingSettled(env, src, run.Gone()); }
  }

  class Replication {
    const tables: MySqlCapture.Tables
    const es: seq<MySqlCapture.Event>
    const anchor: int
    const src: seq<Record>
    const trail: Trail
    const ex: Extracting.Extract
    const run: ReplicatRun
    var at: nat                  // the events behind the durable source position

    /** The events are in order, and the stream is their rows. */
    ghost predicate Stream() {
      && MySqlCapture.Retagged(src, MySqlCapture.RawAll(tables, es)) && MySqlCapture.Behind(es, anchor)
      && ex.trail == trail && run.reader.trail == trail && ex.src == src && run.reader.all == src && run.first == 0
      && (run.grouped ==> Terminated(src) && Stable(run.rep.env, src, 0))
    }

    /** Both sides agree on the trail, and the durable position lies behind event `at`. */
    ghost predicate Valid()
      reads this, ex, trail, run.rep.target, run.reg, run.sink
    {
      && Stream()
      && ex.Valid() && run.Durable() && ex.Trailed() == src[..ex.upto]
      && at <= |es| && ex.pos == Some(MySqlCapture.Coordinate(es, anchor, at))
    }

    constructor (env: Env, merge: bool, db0: DB, tables: MySqlCapture.Tables, es: seq<MySqlCapture.Event>,
                 src: seq<Record>, ghost cs: seq<SourceHistory.Change>, anchor: int, rotateBytes: nat,
                 lineBytes: TrailLog.Line -> nat, maxPerRun: nat, grouped: bool)
      requires Scenario(env, db0, tables, es, src, cs, anchor)
      requires grouped ==> Terminated(src) && Stable(env, src, 0)
      ensures Valid() && fresh(ex) && fresh(trail) && fresh(run.rep.target) && fresh(run.reg) && fresh(run.sink)
      ensures fresh(ex.life) && fresh(run.rep.target.life) && fresh(run.reg.life) && fresh(run.sink.life)
      ensures this.tables == tables && this.es == es && this.anchor == anchor && this.src == src
      ensures run.rep.env == env && run.grouped == grouped && run.sink.parked == []
      ensures run.reg.cursor == 0 && run.rep.target.committed == db0 && run.rep.target.history == [db0]
    {
      hide SourceHistory.History, SourceHistory.SaysAll, KeysUp, CutAt, Settled, Refused, Scenario, Terminated;
      hide AllSound, OneSpelling, ExactlyOnce, ValidDB, ValidSchema, Stable, MySqlCapture.Retagged;
      hide Ordered, Holds, CacheRight, Poison.Holds, Poison.Once, MySqlCapture.Behind, ReplicatRun.Gone;
      hide ReplicatRun.Durable;
      ScenarioFits(env, db0, tables, es, src, cs, anchor);
      var trail := new Trail(rotateBytes, lineBytes);
      var extracting := new Process();
      var ex := new Extracting.Extract.Anchored(trail, src, anchor, extracting);
      var run := NewRun(env, merge, db0, trail, src, maxPerRun, grouped);
      this.tables, this.es, this.anchor, this.src, this.trail := tables, es, anchor, src, trail;
      this.ex, this.run, this.at := ex, run, 0;
    }

    /** A capture of what the binlog shows, up to some commit or to where it drains, maybe inside a
        transaction, and the extract cycle that appends it.  The stream is what the captures made of the
        binlog: its records are those of the capture. */
    method CaptureStep(shown: nat, cap: nat)
      requires Valid()
      modifies this`at, ex`upto, ex`pos, ex`known, trail`segs, trail`log
      ensures Valid() && old(at) <= at
      ensures old(Capturable(shown)) && cap == 0 ==>
                at == shown && ex.upto >= |MySqlCapture.RawAll(tables, es[..shown])|
    {
      hide MySqlCapture.Emit, MySqlCapture.Buffer, MySqlCapture.Capped, MySqlCapture.Through, MySqlCapture.RawAll;
      hide KeysUp, CutAt, ReplicatRun.Durable, Extracting.Extract.Valid, Recs, Concat, Stable, Terminated;
      hide MySqlCapture.Retagged, MySqlCapture.Behind, MySqlCapture.FullEvent, Stream, Refused;
      StreamLinks();
      if shown < at || shown > |es| { return; }
      var res := MySqlCapture.Capture(tables, es[at..shown], MySqlCapture.Coordinate(es, anchor, shown), cap);
      if res.BadImage? { return; }
      StopsBehind(shown, cap, res);
      if cap == 0 { CapsNothing(es[at..shown][..res.consumed]); }
      WholeSlice(es[at..shown]);
      var j := at + res.consumed;
      CaptureFits(tables, es, src, anchor, at, j);
      if res.records == src[|MySqlCapture.RawAll(tables, es[..at])|..|MySqlCapture.RawAll(tables, es[..j])|] {
        ExtractStep(res.records, j);
      }
    }

    /** The extract cycle that captured the records up to event `j`, unless the trail hides its tail. */
    method ExtractStep(records: seq<Record>, j: nat)
      requires Valid() && at <= j <= |es|
      requires var p, q := |MySqlCapture.RawAll(tables, es[..at])|, |MySqlCapture.RawAll(tables, es[..j])|;
               && p <= q <= |src| && records == src[p..q] && KeysUp(src)
               && CutAt(src, MySqlCapture.Coordinate(es, anchor, at), p)
               && CutAt(src, MySqlCapture.Coordinate(es, anchor, j), q)
      modifies this`at, ex`upto, ex`pos, ex`known, trail`segs, trail`log
      ensures Valid() && old(at) <= at
      ensures !ex.life.mortal && old(Readable()) ==> at == j && ex.upto >= |MySqlCapture.RawAll(tables, es[..j])|
    {
      hide MySqlCapture.RawAll, KeysUp, CutAt, ExactlyOnce, Settled, Refused, Recs, Concat;
      hide AllSound, OneSpelling, ReplicatRun.WellPlaced, ReplicatRun.Gone, ReplicatRun.Conserved, Stream;
      hide Holds, Ordered, CacheRight, Trail.Valid;
      StreamLinks();
      ghost var p, q := |MySqlCapture.RawAll(tables, es[..at])|, |MySqlCapture.RawAll(tables, es[..j])|;
      var shown := ex.TailShown();
      if !shown { return; }
      WindowStart(src, ex.Trailed(), ex.upto, ex.pos.value, p);
      ghost var b := ex.upto;
      var _ := ex.MySqlCycle(records, MySqlCapture.Coordinate(es, anchor, j), false, [], {}, 1, p, q);
      ex.UptoWithin();
      Grown(src, b, ex.upto);
      if ex.pos == Some(MySqlCapture.Coordinate(es, anchor, j)) {
        at := j;
      }
    }

    /** The trail shows its tail, or was never purged. */
    ghost predicate Readable()
      reads ex, ex.trail
    {
      ex.OnDisk() != [] || ex.trail.purged == 0
    }

    /** A capture up to event `shown` can succeed: full images, the stream's tags, a trail that shows its tail,
        and a process that lives. */
    ghost predicate Capturable(shown: nat)
      reads this, ex, ex.trail, ex.life
    {
      && !ex.life.mortal && Readable() && at <= shown <= |es|
      && (forall e :: e in es[at..shown] ==> MySqlCapture.FullEvent(tables, e))
      && var p, q := |MySqlCapture.RawAll(tables, es[..at])|, |MySqlCapture.RawAll(tables, es[..shown])|;
         p <= q <= |src| && MySqlCapture.Emit(tables, es[at..shown]) == src[p..q]
    }

    lemma CapsNothing(part: seq<MySqlCapture.Event>)
      ensures !MySqlCapture.Capped(tables, part, 0)
    {
      hide MySqlCapture.Flushed;
    }

    lemma StreamLinks()
      requires Stream()
      ensures ex.trail == trail && run.reader.trail == trail && ex.src == src && run.reader.all == src
      ensures run.first == 0 && (run.grouped ==> Terminated(src) && Stable(run.rep.env, src, 0))
      ensures MySqlCapture.Retagged(src, MySqlCapture.RawAll(tables, es)) && MySqlCapture.Behind(es, anchor)
    {
      hide MySqlCapture.Retagged, MySqlCapture.Behind, Stable, Terminated;
    }

    /** A replicat run or a purge; while a run reads the trail, another extract process may append to it. */
    method ApplyStep(clean: bool, always: bool)
      requires Valid() && (clean ==> forall r :: r in src ==> !Refused(run.rep.env, r))
      modifies ex`upto, trail, run.rep.target, run.reg, run.sink, run.rep.target.life, run.reg.life, run.sink.life
      ensures Valid() && run.Parks(old(run.sink.parked))
      ensures Converging(run.rep.env, src, run.Gone(), old(run.reg.cursor), old(run.rep.target.committed),
                         run.reg.cursor, run.rep.target.committed)
      ensures AtomicMode(run.rep.env, src, old(run.reg.cursor), always || run.grouped) ==>
                Aligned(run.rep.env, src, run.Gone(), old(run.reg.cursor), old(run.rep.target.committed),
                        old(run.rep.target.history), run.reg.cursor, run.rep.target.committed,
                        run.rep.target.history)
    {
      hide ExactlyOnce, Settled, Refused, Recs, Concat, Fold, Stable, Terminated, ReplicatRun.Gone;
      hide AllSound, OneSpelling, ReplicatRun.WellPlaced, ReplicatRun.Conserved, ReplicatRun.Parks, Stream;
      hide Holds, Ordered, CacheRight, Trail.Valid, Converging, Aligned, AtomicMode;
      StreamLinks();
      ghost var b := ex.upto;
      ex.UptoWithin();
      run.NextProcess(clean, always);
      RecsOfLines(src[..|trail.log|]);
      Resynced(src, b, ex.pos, |trail.log|);
      ex.upto := |trail.log|;
    }

    /** Nothing disturbs the two processes, and nothing in the stream blocks them. */
    ghost predicate Calm(retries: nat)
      reads this, ex, ex.trail, ex.life, run.rep.target.life, run.reg.life, run.sink.life
    {
      && Capturable(|es|) && !run.grouped
      && run.Undisturbed(false) && !run.Blocked(src, retries)
    }

    /** Whatever went before: one capture of the whole binlog and one replicat run that nothing disturbs bring
        the cursor to the end of the stream. */
    method CatchUp(retries: nat)
      requires Valid()
      modifies this`at, ex`upto, ex`pos, ex`known, trail, run.rep.target, run.reg, run.sink
      ensures Valid() && run.Parks(old(run.sink.parked))
      ensures Converging(run.rep.env, src, run.Gone(), old(run.reg.cursor), old(run.rep.target.committed),
                         run.reg.cursor, run.rep.target.committed)
      ensures old(Calm(retries)) ==> run.reg.cursor == |src|
    {
      hide ExactlyOnce, Settled, Refused, Recs, Concat, Fold, Stable, Terminated, ReplicatRun.Gone;
      hide AllSound, OneSpelling, ReplicatRun.WellPlaced, ReplicatRun.Conserved, ReplicatRun.Parks, Stream;
      hide Holds, Ordered, CacheRight, Trail.Valid, Converging, Capturable;
      hide ReplicatRun.Blocked, ReplicatRun.Excused, MySqlCapture.RawAll;
      StreamLinks();
      ghost var calm := Calm(retries);
      CaptureStep(|es|, 0);
      WholeStream();
      ghost var b := ex.upto;
      ex.UptoWithin();
      run.StartProcess();
      ghost var c := run.reg.cursor;
      assert calm ==> |trail.log| == |src| by { LogLength(); }
      var out := run.RunReplicat(None, retries, run.grouped);
      if calm { NotBlocked(c, |trail.log|, retries); }
      RecsOfLines(src[..|trail.log|]);
      Resynced(src, b, ex.pos, |trail.log|);
      ex.upto := |trail.log|;
    }

    /** So whatever a history of crashes left, two processes that nothing disturbs complete it: the target is in
        the state of the clean pass, and where nothing is refused in the source's own. */
    method Complete(retries: nat, ghost db0: DB, ghost cs: seq<SourceHistory.Change>)
      requires Valid() && Scenario(run.rep.env, db0, tables, es, src, cs, anchor)
      requires Converging(run.rep.env, src, run.Gone(), 0, db0, run.reg.cursor, run.rep.target.committed)
      modifies this`at, ex`upto, ex`pos, ex`known, trail, run.rep.target, run.reg, run.sink
      ensures Valid()
      ensures Converging(run.rep.env, src, run.Gone(), 0, db0, run.reg.cursor, run.rep.target.committed)
      ensures old(Calm(retries)) ==>
                && run.rep.target.committed == Fold(run.rep.env, Live(src, run.Gone(), 0, |src|), db0)
                && (Accepting(run.rep.env, src) ==>
                      run.rep.target.committed == SourceHistory.After(run.rep.env, db0, cs))
    {
      hide *;
      ghost var c1, db1 := run.reg.cursor, run.rep.target.committed;
      CatchUp(retries);
      ConvergingCompose(run.rep.env, src, run.Gone(), 0, db0, c1, db1, run.reg.cursor, run.rep.target.committed);
      ConvergedAtEnd(run.rep.env, src, run.Gone(), 0, db0, run.rep.target.committed, run.reg.cursor);
      ScenarioFits(run.rep.env, db0, tables, es, src, cs, anchor);
      if Accepting(run.rep.env, src) {
        NothingGone();
        if run.reg.cursor == |src| { EndAccepted(run.rep.env, db0, cs, src, run.rep.target.committed); }
      }
    }

    lemma LogLength()
      requires ex.Valid() && ex.upto <= |src| && ex.Trailed() == src[..ex.upto] && ex.trail == trail
      ensures |trail.log| == ex.upto
    {
      hide Recs, ExactlyOnce, Trail.Valid;
    }

    lemma WholeStream()
      requires Stream()
      ensures es[..|es|] == es && |MySqlCapture.RawAll(tables, es)| == |src|
    {
      hide MySqlCapture.RawAll, MySqlCapture.Behind, Stable, Terminated;
    }

    lemma NotBlocked(c: nat, k: nat, retries: nat)
      requires c <= k <= |src| && !run.Blocked(src, retries)
      ensures !run.Blocked(src[c..k], retries)
    {
      hide IsKeymove, MoveRefused, Refused, Refusing;
      StuckWider(run.rep.env, src[c..k], src);
    }

    /** Any number of captures, extract cycles, replicat runs and purges, interleaved in any order and each
        possibly dying at any step.  When everything is applied the target is in the state of one clean
        pass over the source's stream, which is the source's own state if nothing is refused; whatever is
        refused is parked or replaced, and nothing else is parked.  In a stream of whole transactions
        without moves, applied by transactions, every state the target ever committed is a state at the
        end of one: if nothing is refused, the source's own. */
    method Replicate(n: nat, clean: bool, always: bool, ghost db0: DB, ghost cs: seq<SourceHistory.Change>)
      returns (done: bool)
      requires Valid() && Scenario(run.rep.env, db0, tables, es, src, cs, anchor)
      requires clean ==> forall r :: r in src ==> !Refused(run.rep.env, r)
      requires run.reg.cursor == 0 && run.rep.target.committed == db0 && run.rep.target.history == [db0]
      modifies this`at, ex`upto, ex`pos, ex`known, trail, run.rep.target, run.reg, run.sink
      modifies run.rep.target.life, run.reg.life, run.sink.life, ex.life
      ensures Valid() && run.Parks(old(run.sink.parked)) && (done <==> run.reg.cursor == |src|)
      ensures Converging(run.rep.env, src, run.Gone(), 0, db0, run.reg.cursor, run.rep.target.committed)
      ensures done ==> run.rep.target.committed == Fold(run.rep.env, Live(src, run.Gone(), 0, |src|), db0)
      ensures done && Accepting(run.rep.env, src) ==>
                run.rep.target.committed == SourceHistory.After(run.rep.env, db0, cs)
      ensures AtomicMode(run.rep.env, src, 0, always || run.grouped) ==>
                Aligned(run.rep.env, src, run.Gone(), 0, db0, [db0],
                        run.reg.cursor, run.rep.target.committed, run.rep.target.history)
      ensures AtomicMode(run.rep.env, src, 0, always || run.grouped) && Accepting(run.rep.env, src) ==>
                forall i :: 0 < i < |run.rep.target.history| ==>
                  SourceState(run.rep.env, db0, cs, src, run.rep.target.history[i])
    {
      hide *;
      ghost var parked0 := run.sink.parked;
      HistoryOpens(run.rep.env, src, run.Gone(), db0, parked0, always || run.grouped);
      for i := 0 to n
        invariant Valid()
        invariant SoFar(run.rep.env, src, run.Gone(), db0, parked0, always || run.grouped, run.reg.cursor,
                           run.rep.target.committed, run.rep.target.history, run.sink.parked)
      {
        ghost var c1, db1, h1 := run.reg.cursor, run.rep.target.committed, run.rep.target.history;
        ghost var parked1 := run.sink.parked;
        var capture := *;
        if capture {
          ex.life.Begin();
          var shown: nat, cap: nat := *, *;
          CaptureStep(shown, cap);
        } else {
          ApplyStep(clean, always);
          ParksNow(parked1);
          StepComposes(run.rep.env, src, run.Gone(), db0, parked0, always || run.grouped, c1, db1, h1, parked1,
                       run.reg.cursor, run.rep.target.committed, run.rep.target.history, run.sink.parked);
        }
      }
      done := run.reg.cursor == |src|;
      HistoryEnds(run.rep.env, src, run.Gone(), db0, parked0, always || run.grouped, run.reg.cursor,
                  run.rep.target.committed, run.rep.target.history, run.sink.parked);
      ParksNow(parked0);
      if Accepting(run.rep.env, src) { NothingGone(); }
      SourceReached(run.rep.env, db0, tables, es, src, run.Gone(), cs, anchor, always || run.grouped,
                    run.reg.cursor, run.rep.target.committed, run.rep.target.history);
    }

    lemma ParksNow(before: seq<Record>)
      requires Valid()
      ensures run.Parks(before) <==> ParksLeftOut(run.rep.env, src, run.Gone(), before, run.sink.parked)
    {
      hide ParksLeftOut, Stream, ReplicatRun.Durable, Extracting.Extract.Valid, ReplicatRun.Gone;
      StreamLinks();
    }

    /** Where nothing is refused, nothing is left out. */
    lemma NothingGone()
      requires Valid() && Accepting(run.rep.env, src)
      ensures run.Gone() == {}
    {
      hide Stream, ReplicatRun.Durable, Extracting.Extract.Valid, Refused, RejectedTxns;
      StreamLinks();
      if run.grouped { NoneRejected(run.rep.env, src, 0); }
    }

    /** The capture ends behind some event, and the coordinate it returns is that event's. */
    lemma StopsBehind(shown: nat, cap: nat, res: MySqlCapture.Outcome)
      requires at <= shown <= |es| && res.Done?
      requires MySqlCapture.Through(tables, es[at..shown], res.consumed, cap)
      requires if MySqlCapture.Capped(tables, es[at..shown][..res.consumed], cap)
               then res.consumed > 0 && res.newPos == es[at..shown][res.consumed - 1].at
               else res.consumed == shown - at && res.newPos == MySqlCapture.Coordinate(es, anchor, shown)
      ensures var j := at + res.consumed; j <= shown && res.newPos == MySqlCapture.Coordinate(es, anchor, j)
    {
      hide MySqlCapture.Capped;
    }
  }

  /** What a history keeps, counted from its start. */
  ghost predicate SoFar(env: Env, src: seq<Record>, gone: set<nat>, db0: DB, parked0: seq<Record>, always: bool,
                           c: nat, db: DB, h: seq<DB>, parked: seq<Record>) {
    && ParksLeftOut(env, src, gone, parked0, parked)
    && Converging(env, src, gone, 0, db0, c, db)
    && (AtomicMode(env, src, 0, always) ==>
          Boundary(src, c) && Aligned(env, src, gone, 0, db0, [db0], c, db, h))
  }

  lemma HistoryOpens(env: Env, src: seq<Record>, gone: set<nat>, db0: DB, parked0: seq<Record>, always: bool)
    ensures SoFar(env, src, gone, db0, parked0, always, 0, db0, [db0], parked0)
  {
    hide Converging, Aligned, ParksLeftOut, Boundary, AtomicMode;
    HistoryStart(env, src, gone, 0, db0, [db0], always);
    ParksNoMore(env, src, gone, parked0);
  }

  lemma HistoryEnds(env: Env, src: seq<Record>, gone: set<nat>, db0: DB, parked0: seq<Record>, always: bool,
                    c: nat, db: DB, h: seq<DB>, parked: seq<Record>)
    requires SoFar(env, src, gone, db0, parked0, always, c, db, h, parked)
    ensures ParksLeftOut(env, src, gone, parked0, parked) && Converging(env, src, gone, 0, db0, c, db)
    ensures c == |src| ==> db == Fold(env, Live(src, gone, 0, |src|), db0)
    ensures AtomicMode(env, src, 0, always) ==> Aligned(env, src, gone, 0, db0, [db0], c, db, h)
  {
    hide Converging, Aligned, ParksLeftOut, Boundary, AtomicMode, Fold, Live;
    ConvergedAtEnd(env, src, gone, 0, db0, db, c);
  }

  /** Where nothing is refused, the history follows the source. */
  lemma SourceReached(env: Env, db0: DB, tables: MySqlCapture.Tables, es: seq<MySqlCapture.Event>, src: seq<Record>,
                      gone: set<nat>, cs: seq<SourceHistory.Change>, anchor: int, always: bool,
                      c: nat, db: DB, h: seq<DB>)
    requires Scenario(env, db0, tables, es, src, cs, anchor)
    requires Accepting(env, src) ==> gone == {}
    requires Converging(env, src, gone, 0, db0, c, db)
    requires AtomicMode(env, src, 0, always) ==> Aligned(env, src, gone, 0, db0, [db0], c, db, h)
    ensures SourceHistory.History(env, db0, cs)
    ensures Accepting(env, src) && c == |src| ==> db == SourceHistory.After(env, db0, cs)
    ensures Accepting(env, src) && AtomicMode(env, src, 0, always) ==>
              forall i :: 0 < i < |h| ==> SourceState(env, db0, cs, src, h[i])
  {
    hide *;
    ScenarioFits(env, db0, tables, es, src, cs, anchor);
    if Accepting(env, src) {
      if c == |src| { EndAccepted(env, db0, cs, src, db); }
      if AtomicMode(env, src, 0, always) { AlignedIsSource(env, db0, cs, src, c, db, h); }
    }
  }

  /** A target that accepts every record rejects no transaction. */
  lemma NoneRejected(env: Env, all: seq<Record>, first: nat)
    requires forall r :: r in all ==> !Refused(env, r)
    ensures RejectedTxns(env, all, first) == {}
  {
    hide Refused, TxnRun;
    forall i: nat | i < |all| ensures !RejectedAt(env, all, first, i) {
      forall b: nat, e: nat ensures !RejectedRun(env, all, first, i, b, e) {
        if RejectedRun(env, all, first, i, b, e) {
          InBounds(all, first, b, e);
          RejectsSome(env, all[b..e]);
        }
      }
    }
  }

  lemma StepComposes(env: Env, src: seq<Record>, gone: set<nat>, db0: DB, parked0: seq<Record>, always: bool,
                     c1: nat, db1: DB, h1: seq<DB>, parked1: seq<Record>,
                     c2: nat, db2: DB, h2: seq<DB>, parked2: seq<Record>)
    requires SoFar(env, src, gone, db0, parked0, always, c1, db1, h1, parked1)
    requires ParksLeftOut(env, src, gone, parked1, parked2) && Converging(env, src, gone, c1, db1, c2, db2)
    requires AtomicMode(env, src, c1, always) ==> Aligned(env, src, gone, c1, db1, h1, c2, db2, h2)
    ensures SoFar(env, src, gone, db0, parked0, always, c2, db2, h2, parked2)
  {
    hide Exact, Fold, Aligned, TxnStream, Boundary, ParksLeftOut, NoKeymove;
    LeftOutThen(env, src, gone, parked0, parked1, parked2);
    ConvergingCompose(env, src, gone, 0, db0, c1, db1, c2, db2);
    if AtomicMode(env, src, 0, always) {
      AlignedBoundary(env, src, gone, c1, db1, h1, c2, db2, h2);
      AlignedCompose(env, src, gone, 0, db0, [db0], c1, db1, h1, c2, db2, h2);
    }
  }

  lemma WholeSlice<T>(s: seq<T>)
    ensures s[..|s|] == s
  {
  }

  lemma Grown(src: seq<Record>, b: nat, d: nat)
    requires b <= d <= |src|
    ensures src[..b] + src[b..d] == src[..d]
  {
  }

  lemma NothingSettled(env: Env, all: seq<Record>, gone: set<nat>)
    ensures Settled(env, all, gone, 0, 0, [])
  {
  }
}
