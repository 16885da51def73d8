/** Executing a resumable load: workers that take their chunks through the ledger's states in any
    interleaving, over any number of sessions that may die anywhere. */
module Loading {
  import opened Processes
  import opened Records
  import opened Chunks
  import opened Counting
  import opened Ledger
  import opened Planning

  type Tables = map<string, seq<Row>>

  function TableOf(t: Tables, fqn: string): seq<Row> {
    if fqn in t then t[fqn] else []
  }

  /** The rows inside a range, in order. */
  function Inside(rows: seq<Row>, c: Range): seq<Row> {
    if rows == [] then []
    else Inside(rows[..|rows| - 1], c) + if In(c, rows[|rows| - 1].key) then [rows[|rows| - 1]] else []
  }

  function Outside(rows: seq<Row>, c: Range): seq<Row> {
    if rows == [] then []
    else Outside(rows[..|rows| - 1], c) + if In(c, rows[|rows| - 1].key) then [] else [rows[|rows| - 1]]
  }

  lemma {:induction false} CountInside(rows: seq<Row>, c: Range, x: Row)
    ensures Count(Inside(rows, c), x) == if In(c, x.key) then Count(rows, x) else 0
    ensures Count(Outside(rows, c), x) == if In(c, x.key) then 0 else Count(rows, x)
  {
    hide Count;
    if rows == [] {
      CountNext<Row>([], x, x);
    } else {
      var r, before := rows[|rows| - 1], rows[..|rows| - 1];
      CountInside(before, c, x);
      assert rows == before + [r];
      CountNext(before, r, x);
      CountNext(Inside(before, c), r, x);
      CountNext(Outside(before, c), r, x);
      assert Inside(before, c) + [] == Inside(before, c);
      assert Outside(before, c) + [] == Outside(before, c);
    }
  }

  /** The table holds the same rows in this range as the source does. */
  ghost predicate SameIn(a: seq<Row>, b: seq<Row>, c: Range) {
    forall x: Row :: In(c, x.key) ==> Count(a, x) == Count(b, x)
  }

  /** Deleting a range and loading it from the source. */
  function Reload(target: seq<Row>, source: seq<Row>, c: Range): seq<Row> {
    Outside(target, c) + Inside(source, c)
  }

  lemma CountReload(target: seq<Row>, source: seq<Row>, c: Range, x: Row)
    ensures Count(Reload(target, source, c), x) == if In(c, x.key) then Count(source, x) else Count(target, x)
  {
    CountInside(target, c, x);
    CountInside(source, c, x);
    CountConcat(Outside(target, c), Inside(source, c), x);
  }

  /** A reloaded range is right whatever was there before, a disjoint one is left as it was, and
      reloading again changes nothing. */
  lemma ReloadRange(target: seq<Row>, source: seq<Row>, c: Range, d: Range)
    ensures SameIn(Reload(target, source, c), source, c)
    ensures (forall x :: !(In(c, x) && In(d, x))) && SameIn(target, source, d) ==>
              SameIn(Reload(target, source, c), source, d)
    ensures (forall x :: x in target ==> x in source) ==> forall x :: x in Reload(target, source, c) ==> x in source
    ensures multiset(Reload(Reload(target, source, c), source, c)) == multiset(Reload(target, source, c))
  {
    hide Count, Reload;
    var next := Reload(target, source, c);
    forall x: Row
      ensures Count(next, x) == if In(c, x.key) then Count(source, x) else Count(target, x)
      ensures Count(Reload(next, source, c), x) == Count(next, x)
      ensures multiset(Reload(next, source, c))[x] == multiset(next)[x]
    {
      CountReload(target, source, c, x);
      CountReload(next, source, c, x);
      CountIsMultiplicity(next, x);
      CountIsMultiplicity(Reload(next, source, c), x);
    }
    if forall x :: x in target ==> x in source {
      forall x | x in next ensures x in source {
        CountIsMultiplicity(next, x);
        CountIsMultiplicity(source, x);
        CountIsMultiplicity(target, x);
      }
    }
  }

  // ---------------------------------------------------------------- the load invariant

  type View = string -> seq<Row>

  /** Any complete plan of a table puts each of its source rows into exactly one chunk. */
  ghost predicate FixedView(plans: Plans, src: View) {
    forall fqn, plan :: plans(fqn, plan) ==> Partitions(plan, src(fqn))
  }

  /** What the planner makes of a source's rounded-down bounds is such a plan. */
  lemma LivePlanFits(p: Planner, t: TableDef, bounds: Bounds, src: View)
    requires p.GoodBounds(bounds)
    requires t.pkCol.Some? && bounds(t.fqn).Some? ==>
               FlooredBounds(src(t.fqn), bounds(t.fqn).value.0, bounds(t.fqn).value.1)
    ensures Partitions(p.LivePlan(t, bounds), src(t.fqn))
  {
    PlanCoversRows(src(t.fqn), if t.pkCol.Some? then bounds(t.fqn) else None, p.target);
  }

  /** So is every plan of whatever rounded-down bounds a session reads, when all such plans are allowed. */
  lemma EveryBounds(p: Planner, bounds: Bounds, src: View)
    requires p.GoodBounds(bounds)
    requires forall t :: t in p.tables && t.pkCol.Some? && bounds(t.fqn).Some? ==>
               FlooredBounds(src(t.fqn), bounds(t.fqn).value.0, bounds(t.fqn).value.1)
    ensures p.LivePlans(bounds, (fqn, plan) => Partitions(plan, src(fqn)))
    ensures FixedView((fqn, plan) => Partitions(plan, src(fqn)), src)
  {
    hide Partitions, FlooredBounds;
    forall t | t in p.tables ensures Partitions(p.LivePlan(t, bounds), src(t.fqn)) {
      LivePlanFits(p, t, bounds, src);
    }
  }

  /** Loaded chunks hold exactly the source's rows, and so do those in `written`; nothing but source
      rows is ever on the target. */
  ghost predicate Faithful(tgt: Tables, rows: Rows, written: set<ChunkKey>, src: View) {
    && (forall k :: k in rows && (rows[k].state == Loaded || k in written) ==>
          SameIn(TableOf(tgt, k.fqn), src(k.fqn), rows[k].range))
    && (forall fqn, x :: x in TableOf(tgt, fqn) ==> x in src(fqn))
  }

  /** Two chunks of one completely planned table do not overlap. */
  lemma Disjoint(rows: Rows, plans: Plans, src: View, a: ChunkKey, b: ChunkKey)
    requires FixedView(plans, src) && FullyPlanned(rows, a.fqn, plans)
    requires a in rows && b in rows && a.fqn == b.fqn && a != b
    ensures forall x :: !(In(rows[a].range, x) && In(rows[b].range, x))
  {
    var plan :| plans(a.fqn, plan) && Follows(rows, a.fqn, plan);
    assert Partitions(plan, src(a.fqn));
    assert a == ChunkKey(a.fqn, a.ord) && b == ChunkKey(a.fqn, b.ord);
    assert RowFor(rows[ChunkKey(a.fqn, a.ord)], plan[a.ord]) && RowFor(rows[ChunkKey(a.fqn, b.ord)], plan[b.ord]);
    forall x ensures !(In(rows[a].range, x) && In(rows[b].range, x)) {
      assert In(plan[a.ord], x) && In(plan[b.ord], x) ==> a.ord == b.ord;
    }
  }

  /** Marking a chunk: as loaded only once its range is written. */
  lemma MarkKeeps(tgt: Tables, rows: Rows, written: set<ChunkKey>, src: View, k: ChunkKey, state: State,
                  rest: set<ChunkKey>)
    requires Faithful(tgt, rows, written, src) && k in rows && rest <= written
    requires state == Loaded ==> k in written
    ensures Faithful(tgt, rows[k := rows[k].(state := state)], rest, src)
  {
    hide SameIn;
  }

  lemma FewerWritten(tgt: Tables, rows: Rows, written: set<ChunkKey>, src: View, rest: set<ChunkKey>)
    requires Faithful(tgt, rows, written, src) && rest <= written
    ensures Faithful(tgt, rows, rest, src)
  {
  }

  /** One worker reloads its range; every other chunk that was right stays right. */
  lemma WriteRange(tgt: Tables, rows: Rows, written: set<ChunkKey>, src: View, plans: Plans, k: ChunkKey)
    requires Faithful(tgt, rows, written, src) && FixedView(plans, src)
    requires k in rows && FullyPlanned(rows, k.fqn, plans)
    ensures var next := tgt[k.fqn := Reload(TableOf(tgt, k.fqn), src(k.fqn), rows[k].range)];
            Faithful(next, rows, written + {k}, src)
  {
    hide SameIn, Reload, FullyPlanned, FixedView;
    var mine := Reload(TableOf(tgt, k.fqn), src(k.fqn), rows[k].range);
    var next := tgt[k.fqn := mine];
    ReloadRange(TableOf(tgt, k.fqn), src(k.fqn), rows[k].range, rows[k].range);
    forall c | c in rows && (rows[c].state == Loaded || c in written + {k})
      ensures SameIn(TableOf(next, c.fqn), src(c.fqn), rows[c].range)
    {
      if c != k && c.fqn == k.fqn {
        Disjoint(rows, plans, src, k, c);
        ReloadRange(TableOf(tgt, k.fqn), src(k.fqn), rows[k].range, rows[c].range);
      } else if c.fqn != k.fqn {
        assert TableOf(next, c.fqn) == TableOf(tgt, c.fqn);
      }
    }
    forall fqn, x | x in TableOf(next, fqn) ensures x in src(fqn) {
      if fqn != k.fqn { assert x in TableOf(tgt, fqn); }
    }
  }

  /** Every chunk loaded: the target holds exactly the rows of the source, each as often. */
  lemma AllLoaded(tgt: Tables, rows: Rows, src: View, plans: Plans, fqn: string)
    requires Faithful(tgt, rows, {}, src) && FixedView(plans, src) && FullyPlanned(rows, fqn, plans)
    requires forall k :: k in rows && k.fqn == fqn ==> rows[k].state == Loaded
    ensures multiset(TableOf(tgt, fqn)) == multiset(src(fqn))
  {
    var plan :| plans(fqn, plan) && Follows(rows, fqn, plan);
    var mine, theirs := TableOf(tgt, fqn), src(fqn);
    forall x: Row ensures multiset(mine)[x] == multiset(theirs)[x] {
      CountIsMultiplicity(mine, x);
      CountIsMultiplicity(theirs, x);
      if x in theirs {
        assert Partitions(plan, theirs);
        var i: nat :| i < |plan| && In(plan[i], x.key);
        assert RowFor(rows[ChunkKey(fqn, i)], plan[i]);
        assert SameIn(mine, theirs, rows[ChunkKey(fqn, i)].range);
      }
    }
  }

  /** Memory mirrors ranges, not states. */
  lemma MirrorsStates(mem: Memory, a: Rows, b: Rows, done: set<TableDef>)
    requires Mirrors(mem, a, done) && SameRanges(a, b)
    ensures Mirrors(mem, b, done)
  {
    forall id | id in mem ensures exists t :: t in done && t.name == id.name && ChunkKey(t.fqn, id.ord) in b {
      var t :| t in done && t.name == id.name && ChunkKey(t.fqn, id.ord) in a;
      assert ChunkKey(t.fqn, id.ord) in b;
    }
    forall t, i: nat | t in done && ChunkKey(t.fqn, i) in b
      ensures Id(t.name, i) in mem && mem[Id(t.name, i)] == MemOf(b[ChunkKey(t.fqn, i)], t.fqn)
    {
      assert ChunkKey(t.fqn, i) in a;
    }
  }

  // ---------------------------------------------------------------- workers

  /** A worker's chunk: not begun, marked in progress, loaded or failed but not marked yet, done. */
  datatype Phase = Queued | Started | Written | Broken | Finished

  datatype LoadOutcome = Ended | Crashed

  datatype SessionOutcome = Complete | Refused | Interrupted

  /** How often each chunk was tried. */
  type Tries = map<ChunkKey, nat>

  function At(tries: Tries, k: ChunkKey): nat {
    if k in tries then tries[k] else 0
  }

  class Load {
    const man: Manifest
    const src: View
    const faulty: (ChunkKey, nat) -> bool    // the n-th try at a chunk meets a failing source, target or ledger
    const life: Process
    var tgt: Tables
    var tries: Tries
    ghost const plans: Plans

    constructor (man: Manifest, src: View, faulty: (ChunkKey, nat) -> bool, life: Process, ghost plans: Plans)
      requires man.rows == map[]
      ensures this.man == man && this.src == src && this.plans == plans && this.faulty == faulty && this.life == life
      ensures tgt == map[] && tries == map[] && Faithful(tgt, man.rows, {}, src)
    {
      this.man, this.src, this.faulty, this.plans := man, src, faulty, plans;
      this.life, tgt, tries := life, map[], map[];
    }

    /** The durable state between any two steps. */
    ghost predicate Sound()
      reads this, man
    {
      man.Valid(plans) && Faithful(tgt, man.rows, {}, src)
    }

    ghost predicate Working(phases: map<ChunkKey, Phase>)
      reads this, man
    {
      && man.Valid(plans) && man.planned
      && (forall k :: k in phases ==> k in man.rows)
      && Faithful(tgt, man.rows, Done(phases), src)
    }

    ghost function Done(phases: map<ChunkKey, Phase>): set<ChunkKey> {
      set k | k in phases && phases[k] == Written
    }

    lemma KeepsSound(phases: map<ChunkKey, Phase>)
      requires Working(phases)
      ensures Sound()
    {
    }

    /** One step of one worker.  A load either commits its whole range or changes nothing; a commit may
        still be reported as a failure.  Only a faulty try fails, and not at every step. */
    method Step(k: ChunkKey, chunk: MemChunk, phases: map<ChunkKey, Phase>) returns (next: map<ChunkKey, Phase>)
      requires Working(phases) && FixedView(plans, src) && k in phases && phases[k] != Finished
      requires chunk == MemOf(man.rows[k], k.fqn)
      requires phases[k] == Broken ==> faulty(k, At(tries, k))
      modifies this`tgt, this`tries, man`rows
      ensures Working(next) && SameRanges(old(man.rows), man.rows)
      ensures Stepped(k, phases, old(man.rows), old(tries), next, man.rows, tries)
    {
      hide *;
      if phases[k] == Queued {
        next := TakeOn(k, phases);
      } else if phases[k] == Started {
        next := WriteOut(k, chunk, phases);
      } else {
        next := Mark(k, phases);
      }
    }

    /** A worker takes a chunk on and marks it as in progress. */
    method TakeOn(k: ChunkKey, phases: map<ChunkKey, Phase>) returns (next: map<ChunkKey, Phase>)
      requires Working(phases) && k in phases && phases[k] == Queued
      modifies this`tries, man`rows
      ensures Working(next) && SameRanges(old(man.rows), man.rows)
      ensures Stepped(k, phases, old(man.rows), old(tries), next, man.rows, tries)
    {
      hide Trustworthy, Faithful, SameIn, Stepped, SameRanges;
      ghost var rows0, written := man.rows, Done(phases);
      tries := tries[k := At(tries, k) + 1];
      var fails := *;
      if fails && faulty(k, tries[k]) {
        next := phases[k := Broken];
      } else {
        man.SetChunkState(k, InProgress);
        next := phases[k := Started];
        MarkKeeps(tgt, rows0, written, src, k, InProgress, written);
      }
      assert Done(next) == written;
      StepMade(k, phases, rows0, old(tries), next[k], man.rows[k].state, tries);
      SameButState(rows0, k, man.rows[k].state);
      StatesKeepTrust(rows0, man.rows, plans);
    }

    lemma SameButState(rows: Rows, k: ChunkKey, state: State)
      requires k in rows
      ensures SameRanges(rows, rows[k := rows[k].(state := state)])
      ensures rows[k := rows[k].(state := rows[k].state)] == rows
    {
    }

    /** A step that changes one chunk's phase and state, and counts a try if it begins one. */
    lemma StepMade(k: ChunkKey, phases: map<ChunkKey, Phase>, rows: Rows, tries: Tries, phase: Phase, state: State,
                   tries': Tries)
      requires k in phases && k in rows && Rank(phase) < Rank(phases[k])
      requires tries' == if phases[k] == Queued then tries[k := At(tries, k) + 1] else tries
      requires phase == Broken ==> faulty(k, At(tries', k))
      requires phase == Finished ==> state == Loaded || (state == Failed && faulty(k, At(tries', k)))
      ensures Stepped(k, phases, rows, tries, phases[k := phase], rows[k := rows[k].(state := state)], tries')
    {
    }

    /** A worker reloads its range in one target transaction. */
    method WriteOut(k: ChunkKey, chunk: MemChunk, phases: map<ChunkKey, Phase>) returns (next: map<ChunkKey, Phase>)
      requires Working(phases) && FixedView(plans, src) && k in phases && phases[k] == Started
      requires chunk == MemOf(man.rows[k], k.fqn)
      modifies this`tgt
      ensures Working(next) && SameRanges(old(man.rows), man.rows)
      ensures Stepped(k, phases, old(man.rows), old(tries), next, man.rows, tries)
    {
      hide Trustworthy, FixedView, Faithful, SameIn, Reload;
      ghost var written := Done(phases);
      var fails, commits := *, *;
      fails := fails && faulty(k, At(tries, k));
      if commits || !fails {
        RecordedIsPlanned(k);
        WriteRange(tgt, man.rows, written, src, plans, k);
        tgt := tgt[k.fqn := Reload(TableOf(tgt, k.fqn), src(k.fqn), chunk.range)];
      }
      next := phases[k := if fails then Broken else Written];
      assert Done(next) == if fails then written else written + {k};
      FewerWritten(tgt, man.rows, if commits || !fails then written + {k} else written, src, Done(next));
    }

    /** A worker marks its chunk, as loaded if it was written. */
    method Mark(k: ChunkKey, phases: map<ChunkKey, Phase>) returns (next: map<ChunkKey, Phase>)
      requires Working(phases) && k in phases && (phases[k] == Written || phases[k] == Broken)
      requires phases[k] == Broken ==> faulty(k, At(tries, k))
      modifies man`rows
      ensures Working(next) && SameRanges(old(man.rows), man.rows)
      ensures Stepped(k, phases, old(man.rows), old(tries), next, man.rows, tries)
    {
      hide Trustworthy, Faithful, SameIn, Stepped, SameRanges;
      ghost var rows0, written := man.rows, Done(phases);
      var fails := *;
      fails := phases[k] == Broken || (fails && faulty(k, At(tries, k)));
      man.SetChunkState(k, if fails then Failed else Loaded);
      next := phases[k := Finished];
      assert Done(next) == written - {k};
      MarkKeeps(tgt, rows0, written, src, k, if fails then Failed else Loaded, Done(next));
      StepMade(k, phases, rows0, tries, next[k], man.rows[k].state, tries);
      SameButState(rows0, k, man.rows[k].state);
      StatesKeepTrust(rows0, man.rows, plans);
    }

    lemma RecordedIsPlanned(k: ChunkKey)
      requires man.Valid(plans) && man.planned && k in man.rows
      ensures FullyPlanned(man.rows, k.fqn, plans)
    {
      assert Recorded(man.rows, k.fqn);
    }

    /** The chunks still to be worked on. */
    function Above(phases: map<ChunkKey, Phase>, rank: nat): set<ChunkKey> {
      set k | k in phases && Rank(phases[k]) > rank
    }

    lemma StepProgress(phases: map<ChunkKey, Phase>, next: map<ChunkKey, Phase>, k: ChunkKey,
                       rows: Rows, tries: Tries, rows': Rows, tries': Tries)
      requires Stepped(k, phases, rows, tries, next, rows', tries')
      ensures Above(next, 0) <= Above(phases, 0) && Above(next, 1) <= Above(phases, 1)
      ensures Above(next, 2) <= Above(phases, 2)
      ensures |Above(next, 0)| <= |Above(phases, 0)| && |Above(next, 1)| <= |Above(phases, 1)|
      ensures |Above(next, 2)| <= |Above(phases, 2)|
      ensures |Above(next, 2)| + |Above(next, 1)| + |Above(next, 0)| <
              |Above(phases, 2)| + |Above(phases, 1)| + |Above(phases, 0)|
    {
      forall r: nat ensures Above(next, r) <= Above(phases, r) {
      }
      Smaller(Above(next, 0), Above(phases, 0));
      Smaller(Above(next, 1), Above(phases, 1));
      Smaller(Above(next, 2), Above(phases, 2));
      var r: nat := Rank(phases[k]) - 1;
      assert k in Above(phases, r) && k !in Above(next, r);
      Drops(Above(next, r), Above(phases, r), k);
    }

    lemma Smaller(a: set<ChunkKey>, b: set<ChunkKey>)
      requires a <= b
      ensures |a| <= |b|
    {
      assert b == a + (b - a);
    }

    lemma Drops(a: set<ChunkKey>, b: set<ChunkKey>, k: ChunkKey)
      requires a <= b && k in b && k !in a
      ensures |a| < |b|
    {
      Smaller(a, b - {k});
    }

    /** What a session works with: a planner whose memory mirrors this ledger. */
    ghost predicate PlannedBy(p: Planner)
      reads this, man, p
    {
      p.man == man && p.Distinct() && man.Valid(plans) && man.planned && p.AllReady(plans) && !p.Vanished(man.rows)
    }

    /** The in-memory chunk of a recorded one. */
    method ChunkFor(p: Planner, k: ChunkKey) returns (chunk: MemChunk)
      requires PlannedBy(p) && k in man.rows
      ensures chunk == MemOf(man.rows[k], k.fqn)
    {
      assert p.Listed(k.fqn);
      var t :| t in p.tables && t.fqn == k.fqn;
      assert t in (set u | u in p.tables) && k == ChunkKey(t.fqn, k.ord);
      chunk := p.chunks[Id(t.name, k.ord)];
    }

    /** A recorded chunk changes its state only: the plan stays ready and mirrored. */
    lemma StaysPlanned(p: Planner, a: Rows, b: Rows)
      requires SameRanges(a, b) && p.ReadyFrom(p.chunks, a, plans) && !p.Vanished(a)
      ensures p.ReadyFrom(p.chunks, b, plans) && !p.Vanished(b)
    {
      hide Mirrors, Planner.Ready, SameRanges;
      forall t | t in p.tables ensures p.Ready(b, t, plans) {
        StaysReady(p, a, b, t);
      }
      MirrorsStates(p.chunks, a, b, set t | t in p.tables);
      StillListed(p, a, b);
    }

    lemma StillListed(p: Planner, a: Rows, b: Rows)
      requires SameRanges(a, b) && !p.Vanished(a)
      ensures !p.Vanished(b)
    {
      p.FewerVanish(a, b);
    }

    lemma StaysReady(p: Planner, a: Rows, b: Rows, t: TableDef)
      requires SameRanges(a, b) && p.Ready(a, t, plans)
      ensures p.Ready(b, t, plans)
    {
      var plan :| plans(t.fqn, plan) && Follows(a, t.fqn, plan);
      assert Follows(b, t.fqn, plan);
      var k :| k in a && k.fqn == t.fqn;
      assert k in b;
    }

    /** One step of one worker of a session. */
    method WorkOn(p: Planner, k: ChunkKey, phases: map<ChunkKey, Phase>) returns (next: map<ChunkKey, Phase>)
      requires PlannedBy(p) && Working(phases) && FixedView(plans, src) && k in Above(phases, 0)
      requires phases[k] == Broken ==> faulty(k, At(tries, k))
      modifies this`tgt, this`tries, man`rows
      ensures PlannedBy(p) && Working(next) && SameRanges(old(man.rows), man.rows)
      ensures Stepped(k, phases, old(man.rows), old(tries), next, man.rows, tries)
    {
      hide Trustworthy, FixedView, Faithful, Planner.ReadyFrom, Planner.Vanished, Stepped;
      var chunk := ChunkFor(p, k);
      next := Step(k, chunk, phases);
      StaysPlanned(p, old(man.rows), man.rows);
    }

    /** How far a chunk has got in a pass: it was in state `s0` and tried `t0` times, now it is in state `s`
        and was tried `t` times, and `phase` is where its worker is.  Loaded chunks stay as they are; each
        other has a worker, which takes it on once and leaves it loaded unless that try is faulty. */
    predicate Passing(k: ChunkKey, s0: State, t0: nat, s: State, t: nat, phase: Option<Phase>) {
      match phase
      case None => s0 == Loaded && s == Loaded && t == t0
      case Some(Queued) => s0 != Loaded && t == t0
      case Some(Broken) => s0 != Loaded && t == t0 + 1 && faulty(k, t)
      case Some(Finished) => s0 != Loaded && t == t0 + 1 && (s == Loaded || (s == Failed && faulty(k, t)))
      case Some(_) => s0 != Loaded && t == t0 + 1
    }

    function PhaseOf(phases: map<ChunkKey, Phase>, k: ChunkKey): Option<Phase> {
      if k in phases then Some(phases[k]) else None
    }

    ghost predicate AllPassing(rows0: Rows, tries0: Tries, rows: Rows, tries: Tries, phases: map<ChunkKey, Phase>) {
      && rows.Keys == rows0.Keys && phases.Keys <= rows.Keys
      && (forall k :: k in rows ==>
            Passing(k, rows0[k].state, At(tries0, k), rows[k].state, At(tries, k), PhaseOf(phases, k)))
    }

    /** One worker's step: other chunks stay as they are. */
    ghost predicate Stepped(k: ChunkKey, phases: map<ChunkKey, Phase>, rows: Rows, tries: Tries,
                            next: map<ChunkKey, Phase>, rows': Rows, tries': Tries)
    {
      && rows'.Keys == rows.Keys && next.Keys == phases.Keys && k in phases && k in rows
      && Rank(next[k]) < Rank(phases[k]) && (forall c :: c in phases && c != k ==> next[c] == phases[c])
      && (forall c :: c in rows && c != k ==> rows'[c] == rows[c])
      && (forall c :: At(tries', c) == At(tries, c) + if c == k && phases[k] == Queued then 1 else 0)
      && (next[k] == Broken ==> faulty(k, At(tries', k)))
      && (next[k] == Finished ==> rows'[k].state == Loaded || (rows'[k].state == Failed && faulty(k, At(tries', k))))
    }

    /** What a pass that ended leaves: every chunk that was not loaded was tried once more, and is loaded
        unless that try was faulty. */
    ghost predicate Passed(rows0: Rows, tries0: Tries, rows: Rows, tries: Tries) {
      && rows.Keys == rows0.Keys
      && (forall k :: k in rows && rows0[k].state == Loaded ==>
            rows[k].state == Loaded && At(tries, k) == At(tries0, k))
      && (forall k :: k in rows && rows0[k].state != Loaded ==>
            && At(tries, k) == At(tries0, k) + 1
            && (rows[k].state == Loaded || (rows[k].state == Failed && faulty(k, At(tries, k)))))
    }

    lemma RangesChain(a: Rows, b: Rows, c: Rows)
      requires SameRanges(a, b) && SameRanges(b, c)
      ensures SameRanges(a, c) && b.Keys == c.Keys
    {
    }

    lemma PassingNext(rows0: Rows, tries0: Tries, rows: Rows, tries: Tries, phases: map<ChunkKey, Phase>,
                      rows': Rows, tries': Tries, next: map<ChunkKey, Phase>, k: ChunkKey)
      requires AllPassing(rows0, tries0, rows, tries, phases)
      requires Stepped(k, phases, rows, tries, next, rows', tries')
      ensures AllPassing(rows0, tries0, rows', tries', next)
    {
      hide Passing;
      forall c | c in rows'
        ensures Passing(c, rows0[c].state, At(tries0, c), rows'[c].state, At(tries', c), PhaseOf(next, c))
      {
        if c == k {
          PassingStep(k, rows0[k].state, At(tries0, k), rows[k].state, At(tries, k), phases[k],
                      rows'[k].state, At(tries', k), next[k]);
        } else {
          assert At(tries', c) == At(tries, c) && PhaseOf(next, c) == PhaseOf(phases, c);
        }
      }
    }

    lemma PassingStep(k: ChunkKey, s0: State, t0: nat, s: State, t: nat, phase: Phase, s': State, t': nat, next: Phase)
      requires Passing(k, s0, t0, s, t, Some(phase)) && Rank(next) < Rank(phase)
      requires t' == t + if phase == Queued then 1 else 0
      requires next == Broken ==> faulty(k, t')
      requires next == Finished ==> s' == Loaded || (s' == Failed && faulty(k, t'))
      ensures Passing(k, s0, t0, s', t', Some(next))
    {
    }

    lemma PassingEnds(rows0: Rows, tries0: Tries, rows: Rows, tries: Tries, phases: map<ChunkKey, Phase>)
      requires AllPassing(rows0, tries0, rows, tries, phases) && Above(phases, 0) == {}
      ensures Passed(rows0, tries0, rows, tries)
    {
      forall k | k in phases ensures phases[k] == Finished {
        assert k !in Above(phases, 0);
      }
    }

    lemma BrokenIsFaulty(rows0: Rows, tries0: Tries, rows: Rows, tries: Tries, phases: map<ChunkKey, Phase>,
                         k: ChunkKey)
      requires AllPassing(rows0, tries0, rows, tries, phases) && k in Above(phases, 0)
      ensures k in phases && k in rows && (phases[k] == Broken ==> faulty(k, At(tries, k)))
    {
      assert Passing(k, rows0[k].state, At(tries0, k), rows[k].state, At(tries, k), PhaseOf(phases, k));
    }

    /** At the start of a pass every chunk that is not loaded is queued. */
    lemma PassingStarts(rows0: Rows, rows: Rows, tries: Tries, phases: map<ChunkKey, Phase>)
      requires rows == Recovered(rows0)
      requires phases.Keys == (set k | k in rows && (rows[k].state == Pending || rows[k].state == Failed))
      requires forall k :: k in phases ==> phases[k] == Queued
      ensures AllPassing(rows0, tries, rows, tries, phases)
    {
    }

    /** One pass: recovers chunks that a crash left in progress, then lets the workers of all pending
        and failed chunks run in any interleaving. */
    method LoadPending(p: Planner) returns (out: LoadOutcome)
      requires PlannedBy(p) && Sound() && FixedView(plans, src)
      modifies this`tgt, this`tries, man`rows
      ensures PlannedBy(p) && Sound() && SameRanges(old(man.rows), man.rows)
      ensures out == Ended ==> Passed(old(man.rows), old(tries), man.rows, tries)
      ensures out == Crashed ==> life.mortal
    {
      hide *;
      ghost var rows0, tries0 := man.rows, tries;
      var phases := Recover(p);
      while Above(phases, 0) != {}
        invariant PlannedBy(p) && Working(phases) && SameRanges(rows0, man.rows)
        invariant AllPassing(rows0, tries0, man.rows, tries, phases)
        decreases |Above(phases, 2)| + |Above(phases, 1)| + |Above(phases, 0)|
      {
        var alive := life.Lives();
        if !alive {
          KeepsSound(phases);
          return Crashed;
        }
        var k :| k in Above(phases, 0);
        ghost var before, rows, tries1 := phases, man.rows, tries;
        BrokenIsFaulty(rows0, tries0, rows, tries1, before, k);
        phases := WorkOn(p, k, phases);
        StepProgress(before, phases, k, rows, tries1, man.rows, tries);
        RangesChain(rows0, rows, man.rows);
        PassingNext(rows0, tries0, rows, tries1, before, man.rows, tries, phases, k);
      }
      KeepsSound(phases);
      PassingEnds(rows0, tries0, man.rows, tries, phases);
      out := Ended;
    }

    method Recover(p: Planner) returns (phases: map<ChunkKey, Phase>)
      requires PlannedBy(p) && Sound()
      modifies man`rows
      ensures PlannedBy(p) && Working(phases) && SameRanges(old(man.rows), man.rows)
      ensures AllPassing(old(man.rows), tries, man.rows, tries, phases)
    {
      hide Trustworthy, Faithful, Planner.ReadyFrom, Planner.Vanished, SameIn, AllPassing, Recovered;
      ghost var rows0 := man.rows;
      RecoverKeeps(rows0);
      man.Recover();
      StaysPlanned(p, rows0, man.rows);
      var pending := man.PendingChunks();
      phases := map k | k in pending :: Queued;
      PassingStarts(rows0, man.rows, tries, phases);
      assert Done(phases) == {};
    }

    lemma RecoverKeeps(rows: Rows)
      requires man.Valid(plans) && man.planned && rows == man.rows && Faithful(tgt, rows, {}, src)
      ensures Trustworthy(Recovered(rows), true, plans) && SameRanges(rows, Recovered(rows))
      ensures Faithful(tgt, Recovered(rows), {}, src)
    {
      hide SameIn;
      StatesKeepTrust(rows, Recovered(rows), plans);
    }

    /** Executes a planned load; a second, serial pass mops up what failed under contention.  A chunk is left
        unloaded only by a faulty try in each pass. */
    method Run(p: Planner, mopUp: bool) returns (out: LoadOutcome)
      requires PlannedBy(p) && Sound() && FixedView(plans, src)
      modifies this`tgt, this`tries, man`rows
      ensures PlannedBy(p) && Sound() && man.rows.Keys == old(man.rows).Keys
      ensures out == Ended ==>
                forall k :: k in man.rows && man.rows[k].state != Loaded ==>
                  && man.rows[k].state == Failed && faulty(k, At(old(tries), k) + 1)
                  && (mopUp ==> faulty(k, At(old(tries), k) + 2))
      ensures out == Crashed ==> life.mortal
    {
      hide Trustworthy, FixedView, Faithful, Planner.AllReady, Planner.Vanished, PlannedBy, Sound, Manifest.Valid;
      ghost var rows0 := man.rows;
      out := LoadPending(p);
      RangesKeys(rows0, man.rows);
      if out == Ended && mopUp {
        ghost var rows1 := man.rows;
        out := LoadPending(p);
        RangesKeys(rows1, man.rows);
      }
    }

    lemma RangesKeys(a: Rows, b: Rows)
      requires SameRanges(a, b)
      ensures a.Keys == b.Keys
    {
    }

    /** Planning leaves the target alone and marks nothing as loaded. */
    lemma PlanKeeps(a: Rows, b: Rows)
      requires Faithful(tgt, a, {}, src) && NoNewProgress(a, b)
      ensures Faithful(tgt, b, {}, src)
    {
      hide SameIn;
    }

    /** A table whose recorded chunks are all loaded holds exactly the rows of the source. */
    lemma Converged(fqn: string)
      requires Sound() && FixedView(plans, src) && Recorded(man.rows, fqn)
      requires forall k :: k in man.rows && k.fqn == fqn ==> man.rows[k].state == Loaded
      ensures multiset(TableOf(tgt, fqn)) == multiset(src(fqn))
    {
      var k :| k in man.rows && k.fqn == fqn;
      assert HasProgress(man.rows, fqn);
      AllLoaded(tgt, man.rows, src, plans, fqn);
    }

    /** What holds between the sessions of one run. */
    ghost predicate Between(p: Planner)
      reads this, man, p
    {
      && p.man == man && p.Distinct() && !p.startOver && FixedView(plans, src)
      && Sound() && man.Consistent() && (man.hash.Some? ==> man.hash.value == p.cfgHash)
    }

    /** One session: plans or resumes, then loads.  It may die at any write or load.  If it ends, then every
        table of the source whose chunks met a good try holds exactly the rows of the source. */
    method Session(p: Planner, bounds: Bounds, captured: Option<int>, mopUp: bool) returns (out: SessionOutcome)
      requires Between(p) && p.LivePlans(bounds, plans)
      modifies this`tgt, this`tries, p, man
      ensures Between(p)
      ensures out == Complete ==>
                forall t :: t in p.tables &&
                            (forall k: ChunkKey :: k.fqn == t.fqn ==> GoodTry(k, At(old(tries), k), mopUp)) ==>
                  multiset(TableOf(tgt, t.fqn)) == multiset(src(t.fqn))
      ensures out == Refused ==> p.Vanished(old(man.rows)) || p.Drifted(old(man.rows), old(man.planned))
      ensures out == Interrupted ==> p.life.mortal || life.mortal
    {
      hide Trustworthy, FixedView, Faithful, Planner.LivePlans, Planner.Distinct, Planner.AllReady, Planner.Vanished;
      hide Planner.Drifted;
      ghost var rows, tries0 := man.rows, tries;
      var planned := p.Plan(bounds, captured, plans);
      PlanKeeps(rows, man.rows);
      if planned != Planned {
        return if planned == Raised then Refused else Interrupted;
      }
      var done := Run(p, mopUp);
      if done != Ended { return Interrupted; }
      out := Complete;
      forall t | t in p.tables && forall k: ChunkKey :: k.fqn == t.fqn ==> GoodTry(k, At(tries0, k), mopUp)
        ensures multiset(TableOf(tgt, t.fqn)) == multiset(src(t.fqn))
      {
        ReadyIsRecorded(p, t);
        Converged(t.fqn);
      }
    }

    /** One of the next tries at a chunk is not faulty: the first, or the one of the mop-up. */
    predicate GoodTry(k: ChunkKey, n: nat, mopUp: bool) {
      !faulty(k, n + 1) || (mopUp && !faulty(k, n + 2))
    }

    lemma ReadyIsRecorded(p: Planner, t: TableDef)
      requires PlannedBy(p) && t in p.tables
      ensures Recorded(man.rows, t.fqn)
    {
      hide Trustworthy, Mirrors;
      assert p.Ready(man.rows, t, plans);
    }

    /** Any number of sessions of one run, with an unchanged configuration and unchanged source rows, each
        with whatever key bounds it reads and floors, and each possibly dying.  Whatever happened, a table
        whose recorded chunks are all loaded holds exactly the rows of the source, each as often. */
    method Sessions(p: Planner, bounds: seq<Bounds>)
      requires Between(p)
      requires forall i :: 0 <= i < |bounds| ==> p.LivePlans(bounds[i], plans)
      modifies this`tgt, this`tries, p, man, p.life, life
      ensures Between(p)
      ensures forall fqn :: Recorded(man.rows, fqn) &&
                            (forall k :: k in man.rows && k.fqn == fqn ==> man.rows[k].state == Loaded) ==>
                multiset(TableOf(tgt, fqn)) == multiset(src(fqn))
    {
      hide Trustworthy, FixedView, Faithful, Planner.LivePlans, Planner.Distinct, Planner.AllReady, Planner.Vanished;
      hide Planner.Drifted;
      for i := 0 to |bounds|
        invariant Between(p)
      {
        p.life.Begin();
        life.Begin();
        var captured: Option<int>, mopUp: bool := *, *;
        var _ := Session(p, bounds[i], captured, mopUp);
      }
      forall fqn | Recorded(man.rows, fqn) && forall k :: k in man.rows && k.fqn == fqn ==> man.rows[k].state == Loaded
        ensures multiset(TableOf(tgt, fqn)) == multiset(src(fqn))
      {
        Converged(fqn);
      }
    }
  }

  function Rank(p: Phase): nat {
    match p
    case Queued => 3
    case Started => 2
    case Written => 1
    case Broken => 1
    case Finished => 0
  }
}
