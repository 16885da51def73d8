/** Planning a resumable load: fresh, replayed from the ledger, or salvaged from a planning session
    that died. */
module Planning {
  import opened Processes
  import opened Records
  import opened Chunks
  import opened Ledger

  /** A source table with its key column, if that is a single one. */
  datatype TableDef = TableDef(fqn: string, name: string, pkCol: Option<string>)

  /** Chunk ids carry the bare table name. */
  datatype Id = Id(name: string, ord: nat)

  /** A chunk of the in-memory plan: the range it deletes on the target, the predicate it reads by. */
  datatype MemChunk = MemChunk(fqn: string, range: Range, where: Option<string>)

  type Memory = map<Id, MemChunk>

  /** The rounded-down key bounds of each table, as one session reads them. */
  type Bounds = string -> Option<(int, int)>

  /** DiedInReset: between storing a new configuration and clearing the rows of the old one. */
  datatype PlanOutcome = Planned | Raised | Died | DiedInReset

  function MemOf(row: ChunkRow, fqn: string): MemChunk {
    MemChunk(fqn, row.range, row.where)
  }

  /** The in-memory plan is the ledger's, for the tables in `done`. */
  ghost predicate Mirrors(mem: Memory, rows: Rows, done: set<TableDef>) {
    && (forall t, i: nat :: t in done && ChunkKey(t.fqn, i) in rows ==>
          Id(t.name, i) in mem && mem[Id(t.name, i)] == MemOf(rows[ChunkKey(t.fqn, i)], t.fqn))
    && (forall id :: id in mem ==> exists t :: t in done && t.name == id.name && ChunkKey(t.fqn, id.ord) in rows)
  }

  /** No two tables share a qualified name or a bare name: chunk ids carry the bare name, and one
      introspection lists the tables of one namespace. */
  ghost predicate DistinctTables(ts: set<TableDef>) {
    forall a, b :: a in ts && b in ts && (a.fqn == b.fqn || a.name == b.name) ==> a == b
  }

  // ---------------------------------------------------------------- one table's plan in memory

  function PlanMem(t: TableDef, plan: seq<Range>, where: seq<Option<string>>, n: nat): Memory
    requires n <= |plan| == |where|
  {
    if n == 0 then map[]
    else PlanMem(t, plan, where, n - 1)[Id(t.name, n - 1) := MemChunk(t.fqn, plan[n - 1], where[n - 1])]
  }

  lemma PlanMemNext(mem: Memory, t: TableDef, plan: seq<Range>, where: seq<Option<string>>, n: nat)
    requires n < |plan| == |where|
    ensures mem + PlanMem(t, plan, where, n + 1) ==
            (mem + PlanMem(t, plan, where, n))[Id(t.name, n) := MemChunk(t.fqn, plan[n], where[n])]
  {
  }

  lemma MirrorsMore(mem: Memory, rows: Rows, done: set<TableDef>, t: TableDef, plan: seq<Range>,
                    where: seq<Option<string>>)
    requires Mirrors(mem, rows, done) && DistinctTables(done + {t}) && t !in done
    requires |plan| == |where| && !Recorded(rows, t.fqn)
    ensures Mirrors(mem + PlanMem(t, plan, where, |plan|), rows + PlanRows(t.fqn, plan, where, |plan|), done + {t})
  {
    hide PlanMem, PlanRows, Mirrors, DistinctTables, Recorded, Pairs;
    PlanPairs(t, plan, where, |plan|);
    MirrorsJoin(mem, rows, done, t, PlanMem(t, plan, where, |plan|), PlanRows(t.fqn, plan, where, |plan|));
  }

  /** The memory and the rows of one table belong together. */
  ghost predicate Pairs(t: TableDef, mem: Memory, rows: Rows) {
    && (forall k: ChunkKey :: k in rows ==> k.fqn == t.fqn)
    && (forall id: Id :: id in mem ==> id.name == t.name && ChunkKey(t.fqn, id.ord) in rows)
    && (forall i: nat :: ChunkKey(t.fqn, i) in rows ==>
          Id(t.name, i) in mem && mem[Id(t.name, i)] == MemOf(rows[ChunkKey(t.fqn, i)], t.fqn))
  }

  lemma {:induction false} PlanPairs(t: TableDef, plan: seq<Range>, where: seq<Option<string>>, n: nat)
    requires n <= |plan| == |where|
    ensures Pairs(t, PlanMem(t, plan, where, n), PlanRows(t.fqn, plan, where, n))
  {
    hide Pairs;
    if n == 0 {
      NoPairs(t);
    } else {
      PlanPairs(t, plan, where, n - 1);
      PairsNext(t, PlanMem(t, plan, where, n - 1), PlanRows(t.fqn, plan, where, n - 1), n - 1,
                ChunkRow(plan[n - 1], where[n - 1], Pending));
    }
  }

  lemma NoPairs(t: TableDef)
    ensures Pairs(t, map[], map[])
  {
  }

  lemma PairsNext(t: TableDef, mem: Memory, rows: Rows, i: nat, row: ChunkRow)
    requires Pairs(t, mem, rows)
    ensures Pairs(t, mem[Id(t.name, i) := MemOf(row, t.fqn)], rows[ChunkKey(t.fqn, i) := row])
  {
  }

  lemma MirrorsJoin(mem: Memory, rows: Rows, done: set<TableDef>, t: TableDef, more: Memory, moreRows: Rows)
    requires Mirrors(mem, rows, done) && DistinctTables(done + {t}) && t !in done && !Recorded(rows, t.fqn)
    requires Pairs(t, more, moreRows)
    ensures Mirrors(mem + more, rows + moreRows, done + {t})
  {
    var mem', rows' := mem + more, rows + moreRows;
    forall u, i: nat | u in done + {t} && ChunkKey(u.fqn, i) in rows'
      ensures Id(u.name, i) in mem' && mem'[Id(u.name, i)] == MemOf(rows'[ChunkKey(u.fqn, i)], u.fqn)
    {
      JoinedChunk(mem, rows, done, t, more, moreRows, u, i);
    }
    forall id | id in mem'
      ensures exists u :: u in done + {t} && u.name == id.name && ChunkKey(u.fqn, id.ord) in rows'
    {
      if id in more {
        assert t.name == id.name && ChunkKey(t.fqn, id.ord) in rows';
      } else {
        var u :| u in done && u.name == id.name && ChunkKey(u.fqn, id.ord) in rows;
        assert ChunkKey(u.fqn, id.ord) in rows';
      }
    }
  }

  lemma JoinedChunk(mem: Memory, rows: Rows, done: set<TableDef>, t: TableDef, more: Memory, moreRows: Rows,
                    u: TableDef, i: nat)
    requires Mirrors(mem, rows, done) && DistinctTables(done + {t}) && t !in done && !Recorded(rows, t.fqn)
    requires Pairs(t, more, moreRows) && u in done + {t} && ChunkKey(u.fqn, i) in rows + moreRows
    ensures var mem', rows' := mem + more, rows + moreRows;
            Id(u.name, i) in mem' && mem'[Id(u.name, i)] == MemOf(rows'[ChunkKey(u.fqn, i)], u.fqn)
  {
    if u == t {
      assert ChunkKey(t.fqn, i) !in rows;
    } else {
      assert u.fqn != t.fqn && u.name != t.name;
    }
  }

  /** Dropping or adding rows of other tables does not disturb a mirror. */
  lemma MirrorsKept(mem: Memory, a: Rows, b: Rows, done: set<TableDef>)
    requires Mirrors(mem, a, done) && forall t :: t in done ==> SameTable(a, b, t.fqn)
    ensures Mirrors(mem, b, done)
  {
    forall id | id in mem ensures exists t :: t in done && t.name == id.name && ChunkKey(t.fqn, id.ord) in b {
      var t :| t in done && t.name == id.name && ChunkKey(t.fqn, id.ord) in a;
      assert ChunkKey(t.fqn, id.ord) in b;
    }
  }

  class Planner {
    const man: Manifest
    const tables: seq<TableDef>
    const cfgHash: int
    const startOver: bool
    const target: int
    const dec: int -> string
    const life: Process
    var chunks: Memory

    constructor (man: Manifest, tables: seq<TableDef>, cfgHash: int, startOver: bool, target: int, dec: int -> string,
                 life: Process)
      ensures this.man == man && this.tables == tables && this.cfgHash == cfgHash && this.startOver == startOver
      ensures this.target == target && this.life == life && chunks == map[]
    {
      this.life := life;
      this.man, this.tables, this.cfgHash, this.startOver := man, tables, cfgHash, startOver;
      this.target, this.dec, chunks := target, dec, map[];
    }

    ghost predicate Distinct() {
      && DistinctTables(set t | t in tables)
      && forall i, j :: 0 <= i < j < |tables| ==> tables[i] != tables[j]
    }

    /** The source predicate of a range over the table's current key column. */
    function WhereOf(t: TableDef, c: Range): Option<string> {
      if c.Whole? || t.pkCol.None? then None
      else Some(SourceWhere(t.pkCol.value, dec(c.lo), dec(c.hi)))
    }

    /** The target-side delete of every recorded chunk covers exactly what its predicate reads. */
    ghost predicate ReadsWhatItDeletes(rows: Rows, t: TableDef) {
      forall k: ChunkKey :: k in rows && k.fqn == t.fqn ==> rows[k].where == WhereOf(t, rows[k].range)
    }

    /** The plan the live source gives for a table now. */
    function LivePlan(t: TableDef, bounds: Bounds): (plan: seq<Range>)
      requires GoodBounds(bounds)
      ensures forall i :: 0 <= i < |plan| ==> (WhereOf(t, plan[i]).None? <==> plan[i].Whole?)
    {
      var b := if t.pkCol.Some? then bounds(t.fqn) else None;
      PlanShape(b, target);
      PlanOf(b, target)
    }

    ghost predicate GoodBounds(bounds: Bounds) {
      forall f :: bounds(f).Some? ==> bounds(f).value.0 <= bounds(f).value.1
    }

    ghost predicate LivePlans(bounds: Bounds, plans: Plans) {
      GoodBounds(bounds) && forall t :: t in tables ==> plans(t.fqn, LivePlan(t, bounds))
    }

    // -------------------------------------------------------------- fresh planning

    /** Computes and records the plan of one table, row by row; it may die behind any row. */
    method PlanTable(t: TableDef, bounds: Bounds, ghost done: set<TableDef>, ghost plans: Plans)
      returns (alive: bool)
      requires GoodBounds(bounds) && DistinctTables(done + {t}) && t !in done
      requires Trustworthy(man.rows, false, plans) && !Recorded(man.rows, t.fqn)
      requires Mirrors(chunks, man.rows, done)
      modifies this, man`rows
      ensures Trustworthy(man.rows, false, plans) && NoNewProgress(old(man.rows), man.rows)
      ensures forall f :: f != t.fqn ==> SameTable(old(man.rows), man.rows, f)
      ensures alive ==> Follows(man.rows, t.fqn, LivePlan(t, bounds)) && ReadsWhatItDeletes(man.rows, t)
      ensures alive ==> Mirrors(chunks, man.rows, done + {t})
      ensures alive || life.mortal
    {
      hide Trustworthy, DistinctTables, PlanOf;
      var b := if t.pkCol.Some? then bounds(t.fqn) else None;
      var plan := ComputeChunks(b, target);
      ghost var where := Wheres(t, plan);
      ghost var mem0, rows0 := chunks, man.rows;
      ghost var n;
      PlanIsLive(t, bounds, plan);
      alive, n := RecordRows(t, plan);
      PartialKeepsTrust(rows0, t.fqn, plan, where, n, plans);
      if alive {
        MirrorsMore(mem0, rows0, done, t, plan, where);
        RowsReadWhatTheyDelete(rows0, t, plan);
      }
    }

    ghost function Wheres(t: TableDef, plan: seq<Range>): (w: seq<Option<string>>)
      ensures |w| == |plan| && forall i :: 0 <= i < |w| ==> w[i] == WhereOf(t, plan[i])
    {
      seq(|plan|, i requires 0 <= i < |plan| => WhereOf(t, plan[i]))
    }

    lemma PlanIsLive(t: TableDef, bounds: Bounds, plan: seq<Range>)
      requires GoodBounds(bounds) && plan == PlanOf(if t.pkCol.Some? then bounds(t.fqn) else None, target)
      ensures plan == LivePlan(t, bounds)
    {
    }

    lemma RowsReadWhatTheyDelete(rows0: Rows, t: TableDef, plan: seq<Range>)
      requires !Recorded(rows0, t.fqn)
      ensures ReadsWhatItDeletes(rows0 + PlanRows(t.fqn, plan, Wheres(t, plan), |plan|), t)
    {
      PlanRowsAre(t.fqn, plan, Wheres(t, plan), |plan|);
      hide PlanRows;
    }

    lemma NothingPlanned(rows: Rows, mem: Memory, t: TableDef, plan: seq<Range>)
      ensures rows + PlanRows(t.fqn, plan, Wheres(t, plan), 0) == rows
      ensures mem + PlanMem(t, plan, Wheres(t, plan), 0) == mem
    {
    }

    /** Records the chunks of one table, in memory and in the ledger; it may die behind any row. */
    method RecordRows(t: TableDef, plan: seq<Range>) returns (alive: bool, ghost n: nat)
      requires !Recorded(man.rows, t.fqn)
      modifies this, man`rows
      ensures n <= |plan| && (alive ==> n == |plan|) && (alive || life.mortal)
      ensures man.rows == old(man.rows) + PlanRows(t.fqn, plan, Wheres(t, plan), n)
      ensures chunks == old(chunks) + PlanMem(t, plan, Wheres(t, plan), n)
    {
      hide PlanRows, PlanMem, Recorded;
      ghost var where, rows0, mem0 := Wheres(t, plan), man.rows, chunks;
      NothingPlanned(rows0, mem0, t, plan);
      for i := 0 to |plan|
        invariant man.rows == rows0 + PlanRows(t.fqn, plan, where, i)
        invariant chunks == mem0 + PlanMem(t, plan, where, i)
      {
        PlanRowsNext(rows0, t.fqn, plan, where, i);
        PlanMemNext(mem0, t, plan, where, i);
        chunks := chunks[Id(t.name, i) := MemChunk(t.fqn, plan[i], WhereOf(t, plan[i]))];
        man.AddChunk(ChunkKey(t.fqn, i), plan[i], WhereOf(t, plan[i]));
        alive := life.Lives();
        if !alive {
          n := i + 1;
          return;
        }
      }
      alive, n := true, |plan|;
    }

    /** Plans the listed tables, none of which the ledger knows. */
    method PlanFresh(list: seq<TableDef>, bounds: Bounds,
                     ghost done0: set<TableDef>, ghost plans: Plans)
      returns (alive: bool)
      requires LivePlans(bounds, plans) && Distinct()
      requires forall t :: t in list || t in done0 ==> t in tables
      requires forall i, j :: 0 <= i < j < |list| ==> list[i] != list[j]
      requires forall t :: t in list ==> t !in done0 && !Recorded(man.rows, t.fqn)
      requires Trustworthy(man.rows, false, plans) && Mirrors(chunks, man.rows, done0)
      requires forall t :: t in done0 ==> Ready(man.rows, t, plans)
      modifies this, man`rows
      ensures Trustworthy(man.rows, false, plans) && NoNewProgress(old(man.rows), man.rows)
      ensures forall f :: (forall t :: t in list ==> t.fqn != f) ==> SameTable(old(man.rows), man.rows, f)
      ensures alive ==> forall t :: t in done0 || t in list ==> Ready(man.rows, t, plans)
      ensures alive ==> Mirrors(chunks, man.rows, done0 + set t | t in list)
      ensures alive || life.mortal
    {
      hide Trustworthy, Mirrors, Follows, SameTable, Recorded, ReadsWhatItDeletes, FullyPlanned, LivePlan;
      hide NoNewProgress;
      ghost var rows0 := man.rows;
      SameAsItself(rows0);
      assert done0 + Upto(list, 0) == done0;
      for i := 0 to |list|
        invariant Trustworthy(man.rows, false, plans) && NoNewProgress(rows0, man.rows)
        invariant Mirrors(chunks, man.rows, done0 + Upto(list, i))
        invariant forall f :: (forall k :: 0 <= k < i ==> list[k].fqn != f) ==> SameTable(rows0, man.rows, f)
        invariant forall t :: t in done0 + Upto(list, i) ==> Ready(man.rows, t, plans)
      {
        ghost var done, before := done0 + Upto(list, i), man.rows;
        NotYetPlanned(list, i, done0, rows0, before);
        alive := PlanTable(list[i], bounds, done, plans);
        Untouched(list, i, rows0, before, man.rows);
        ProgressChain(rows0, before, man.rows);
        if !alive { return; }
        assert done + {list[i]} == done0 + Upto(list, i + 1);
        assert Ready(man.rows, list[i], plans) by { PlannedNow(list[i], bounds, plans); }
        forall t | t in done ensures Ready(man.rows, t, plans) {
          assert t.fqn != list[i].fqn;
          ReadyKept(before, man.rows, t, plans);
        }
      }
      assert Upto(list, |list|) == set t | t in list;
      alive := true;
    }

    /** A table is ready to load: completely recorded, and every chunk reads what it deletes. */
    ghost predicate Ready(rows: Rows, t: TableDef, plans: Plans) {
      FullyPlanned(rows, t.fqn, plans) && Recorded(rows, t.fqn) && ReadsWhatItDeletes(rows, t)
    }

    ghost function Upto(list: seq<TableDef>, i: nat): set<TableDef>
      requires i <= |list|
    {
      set k | 0 <= k < i :: list[k]
    }

    lemma NotYetPlanned(list: seq<TableDef>, i: nat, done0: set<TableDef>, rows0: Rows, rows: Rows)
      requires Distinct() && i < |list|
      requires forall t :: t in list || t in done0 ==> t in tables
      requires forall a, b :: 0 <= a < b < |list| ==> list[a] != list[b]
      requires forall t :: t in list ==> t !in done0 && !Recorded(rows0, t.fqn)
      requires forall f :: (forall k :: 0 <= k < i ==> list[k].fqn != f) ==> SameTable(rows0, rows, f)
      ensures DistinctTables(done0 + Upto(list, i) + {list[i]}) && list[i] !in done0 + Upto(list, i)
      ensures !Recorded(rows, list[i].fqn)
      ensures forall t :: t in done0 + Upto(list, i) ==> t.fqn != list[i].fqn
    {
      assert list[i] in list;
      forall t | t in done0 + Upto(list, i) + {list[i]} ensures t in tables {
        if t in Upto(list, i) {
          var k :| 0 <= k < i && list[k] == t;
          assert t in list;
        }
      }
      assert list[i] in (set t | t in tables);
      forall t | t in done0 + Upto(list, i) ensures t.fqn != list[i].fqn && t != list[i] {
        assert t in (set u | u in tables);
      }
      forall k | 0 <= k < i ensures list[k].fqn != list[i].fqn {
        assert list[k] in Upto(list, i);
      }
      assert SameTable(rows0, rows, list[i].fqn);
    }

    lemma Untouched(list: seq<TableDef>, i: nat, rows0: Rows, before: Rows, rows: Rows)
      requires i < |list|
      requires forall f :: (forall k :: 0 <= k < i ==> list[k].fqn != f) ==> SameTable(rows0, before, f)
      requires forall f :: f != list[i].fqn ==> SameTable(before, rows, f)
      ensures forall f :: (forall k :: 0 <= k < i + 1 ==> list[k].fqn != f) ==> SameTable(rows0, rows, f)
      ensures forall f :: (forall t :: t in list ==> t.fqn != f) ==> SameTable(rows0, rows, f)
    {
      forall f | forall k :: 0 <= k < i + 1 ==> list[k].fqn != f ensures SameTable(rows0, rows, f) {
        assert SameTable(rows0, before, f) && SameTable(before, rows, f);
      }
    }

    lemma PlannedNow(t: TableDef, bounds: Bounds, plans: Plans)
      requires LivePlans(bounds, plans) && t in tables
      requires Follows(man.rows, t.fqn, LivePlan(t, bounds)) && ReadsWhatItDeletes(man.rows, t)
      ensures Ready(man.rows, t, plans)
    {
      PlanNotEmpty(t, bounds);
      assert ChunkKey(t.fqn, 0) in man.rows;
    }

    lemma PlanNotEmpty(t: TableDef, bounds: Bounds)
      requires GoodBounds(bounds)
      ensures |LivePlan(t, bounds)| > 0
    {
      var b := if t.pkCol.Some? then bounds(t.fqn) else None;
      if target > 1 && b.Some? {
        PlanTiled(b.value.0, b.value.1, target);
      }
    }

    lemma ReadyKept(a: Rows, b: Rows, t: TableDef, plans: Plans)
      requires Ready(a, t, plans) && SameTable(a, b, t.fqn)
      ensures Ready(b, t, plans)
    {
      SameTablePlanned(a, b, t.fqn, plans);
    }

    lemma SameAsItself(rows: Rows)
      ensures NoNewProgress(rows, rows) && forall f :: SameTable(rows, rows, f)
    {
    }

    // -------------------------------------------------------------- replay

    /** Rebuilds one table's chunks from its recorded rows; refuses them if a recorded predicate is not
        the one the table's current key column renders. */
    method ReplayTable(t: TableDef, ghost done: set<TableDef>, ghost plans: Plans) returns (ok: bool)
      requires FullyPlanned(man.rows, t.fqn, plans) && t !in done && DistinctTables(done + {t})
      requires Mirrors(chunks, man.rows, done)
      modifies this
      ensures ok <==> ReadsWhatItDeletes(man.rows, t)
      ensures ok ==> Mirrors(chunks, man.rows, done + {t})
    {
      hide DistinctTables, Mirrors, ReplayMem;
      ghost var mem0 := chunks;
      var all := set k | k in man.rows && k.fqn == t.fqn;
      RowsRendered(t, plans);
      var waiting := all;
      ghost var seen: set<ChunkKey> := {};
      ReplayMemNone(mem0, t, man.rows);
      while waiting != {}
        invariant waiting + seen == all
        invariant chunks == mem0 + ReplayMem(t, man.rows, seen)
        invariant forall k :: k in seen ==> man.rows[k].where == WhereOf(t, man.rows[k].range)
        decreases |waiting|
      {
        var k :| k in waiting;
        var row := man.rows[k];
        if row.where.Some? {
          if t.pkCol.None? { return false; }
          if SourceWhere(t.pkCol.value, dec(row.range.lo), dec(row.range.hi)) != row.where.value { return false; }
        }
        ReplayMemNext(mem0, t, man.rows, seen, k);
        chunks := chunks[Id(t.name, k.ord) := MemChunk(t.fqn, row.range, row.where)];
        waiting, seen := waiting - {k}, seen + {k};
      }
      assert seen == all;
      ok := true;
      MirrorsReplayed(mem0, man.rows, done, t);
    }

    lemma RowsRendered(t: TableDef, plans: Plans)
      requires FullyPlanned(man.rows, t.fqn, plans)
      ensures forall k: ChunkKey :: k in man.rows && k.fqn == t.fqn ==>
                (man.rows[k].where.None? <==> man.rows[k].range.Whole?)
    {
      var plan :| plans(t.fqn, plan) && Follows(man.rows, t.fqn, plan);
      forall k: ChunkKey | k in man.rows && k.fqn == t.fqn
        ensures man.rows[k].where.None? <==> man.rows[k].range.Whole?
      {
        assert k == ChunkKey(t.fqn, k.ord);
        assert RowFor(man.rows[ChunkKey(t.fqn, k.ord)], plan[k.ord]);
      }
    }

    predicate Listed(fqn: string) {
      exists t :: t in tables && t.fqn == fqn
    }

    /** A recorded table is no longer in the source. */
    predicate Vanished(rows: Rows) {
      exists k :: k in rows && !Listed(k.fqn)
    }

    /** The recorded tables that a replay trusts. */
    ghost predicate Trusted(rows: Rows, trustAll: bool, fqn: string) {
      Recorded(rows, fqn) && (trustAll || HasProgress(rows, fqn))
    }

    /** A trusted table has a chunk that would delete another range than it reads. */
    ghost predicate Drifted(rows: Rows, trustAll: bool) {
      exists t :: t in tables && Trusted(rows, trustAll, t.fqn) && !ReadsWhatItDeletes(rows, t)
    }

    lemma DriftedHere(rows0: Rows, rows: Rows, trustAll: bool, t: TableDef)
      requires t in tables && Recorded(rows, t.fqn) && (trustAll || HasProgress(rows, t.fqn))
      requires SameTable(rows0, rows, t.fqn) && !ReadsWhatItDeletes(rows, t)
      ensures Drifted(rows0, trustAll)
    {
      hide SourceWhere, WhereOf;
      assert Trusted(rows0, trustAll, t.fqn);
    }

    lemma ReadyIsNotDrifted(rows0: Rows, rows: Rows, trustAll: bool, mem: Memory, plans: Plans)
      requires ReadyFrom(mem, rows, plans)
      requires forall f :: Trusted(rows0, trustAll, f) ==> SameTable(rows0, rows, f)
      ensures !Drifted(rows0, trustAll)
    {
      hide Mirrors, SourceWhere, WhereOf, FullyPlanned;
      forall t | t in tables && Trusted(rows0, trustAll, t.fqn) ensures ReadsWhatItDeletes(rows0, t) {
        assert Ready(rows, t, plans);
      }
    }

    /** How far a replay of the recorded tables has got. */
    ghost predicate Replaying(mem: Memory, rows: Rows, rows0: Rows, trustAll: bool, waiting: set<TableDef>,
                              replan: set<TableDef>, done: set<TableDef>, plans: Plans)
    {
      && Trustworthy(rows0, trustAll, plans) && Trustworthy(rows, false, plans) && Mirrors(mem, rows, done)
      && waiting + replan + done == (set t | t in tables) && waiting !! replan && waiting !! done && replan !! done
      && (forall t :: t in waiting ==> SameTable(rows0, rows, t.fqn) && Recorded(rows, t.fqn))
      && (forall t :: t in done ==> Ready(rows, t, plans))
      && (forall t :: t in replan ==> !Recorded(rows, t.fqn) && !Trusted(rows0, trustAll, t.fqn))
      && (forall f :: Trusted(rows0, trustAll, f) ==> SameTable(rows0, rows, f))
      && !Vanished(rows) && NoNewProgress(rows0, rows)
    }

    lemma FewerVanish(a: Rows, b: Rows)
      requires !Vanished(a) && b.Keys <= a.Keys
      ensures !Vanished(b)
    {
    }

    lemma NoneVanish(a: Rows, b: Rows, list: seq<TableDef>)
      requires !Vanished(a) && forall t :: t in list ==> t in tables
      requires forall f :: (forall t :: t in list ==> t.fqn != f) ==> SameTable(a, b, f)
      ensures !Vanished(b)
    {
      forall k | k in b ensures Listed(k.fqn) {
        if forall t :: t in list ==> t.fqn != k.fqn {
          assert SameTable(a, b, k.fqn);
          assert k in a;
        }
      }
    }

    lemma ReplayStarts(rows0: Rows, trustAll: bool, plans: Plans)
      requires Trustworthy(rows0, trustAll, plans) && !Vanished(rows0)
      ensures Replaying(map[], rows0, rows0, trustAll, set t | t in tables && Recorded(rows0, t.fqn),
                        set t | t in tables && !Recorded(rows0, t.fqn), {}, plans)
    {
    }

    lemma Salvaged(mem: Memory, rows: Rows, rows0: Rows, waiting: set<TableDef>, replan: set<TableDef>,
                   done: set<TableDef>, plans: Plans, t: TableDef)
      requires Distinct() && Replaying(mem, rows, rows0, false, waiting, replan, done, plans)
      requires t in waiting && !HasProgress(rows, t.fqn)
      ensures Replaying(mem, Without(rows, t.fqn), rows0, false, waiting - {t}, replan + {t}, done, plans)
    {
      hide Trustworthy, Mirrors, Ready, Vanished, FullyPlanned;
      var next := Without(rows, t.fqn);
      FewerVanish(rows, next);
      ProgressChain(rows0, rows, next) by { DropKeepsTrust(rows, t.fqn, plans); }
      DropKeepsTrust(rows, t.fqn, plans);
      assert forall u :: u in waiting + replan + done ==> u in (set u | u in tables);
      forall u | u in waiting + replan + done && u != t ensures u.fqn != t.fqn && SameTable(rows, next, u.fqn) {
      }
      SameTablePlanned(rows0, rows, t.fqn, plans);
      MirrorsKept(mem, rows, next, done);
      forall u | u in done ensures Ready(next, u, plans) {
        ReadyKept(rows, next, u, plans);
      }
      forall u | u in waiting - {t} ensures SameTable(rows0, next, u.fqn) && Recorded(next, u.fqn) {
        SameTablePlanned(rows, next, u.fqn, plans);
      }
      forall u | u in replan + {t} ensures !Recorded(next, u.fqn) {
        if u != t { SameTablePlanned(rows, next, u.fqn, plans); }
      }
    }

    lemma Replayed(mem: Memory, mem': Memory, rows: Rows, rows0: Rows, trustAll: bool, waiting: set<TableDef>,
                   replan: set<TableDef>, done: set<TableDef>, plans: Plans, t: TableDef)
      requires Replaying(mem, rows, rows0, trustAll, waiting, replan, done, plans) && t in waiting
      requires FullyPlanned(rows, t.fqn, plans) && ReadsWhatItDeletes(rows, t) && Mirrors(mem', rows, done + {t})
      ensures Replaying(mem', rows, rows0, trustAll, waiting - {t}, replan, done + {t}, plans)
    {
      hide Trustworthy, Mirrors, FullyPlanned, ReadsWhatItDeletes, SameTable, Trusted;
    }

    /** A trusted table has a complete plan. */
    lemma TrustedIsPlanned(mem: Memory, rows: Rows, rows0: Rows, trustAll: bool, waiting: set<TableDef>,
                           replan: set<TableDef>, done: set<TableDef>, plans: Plans, t: TableDef)
      requires Distinct() && Replaying(mem, rows, rows0, trustAll, waiting, replan, done, plans) && t in waiting
      ensures trustAll || HasProgress(rows, t.fqn) ==> FullyPlanned(rows, t.fqn, plans)
      ensures t !in done && DistinctTables(done + {t}) && Mirrors(mem, rows, done)
    {
      SameTablePlanned(rows0, rows, t.fqn, plans);
      assert forall u :: u in done + {t} ==> u in (set u | u in tables);
    }

    /** Rebuilds the plan from the ledger.  Without the plan-complete marker only tables with progress
        are trusted; the rows of the others are dropped and planned anew, like those of new tables. */
    method ReplayPlan(bounds: Bounds, trustAll: bool,
                      ghost plans: Plans) returns (out: PlanOutcome)
      requires LivePlans(bounds, plans) && Distinct() && chunks == map[]
      requires Trustworthy(man.rows, trustAll, plans)
      modifies this, man`rows
      ensures out != DiedInReset && Trustworthy(man.rows, false, plans) && NoNewProgress(old(man.rows), man.rows)
      ensures out == Planned ==> AllReady(plans) && !Vanished(man.rows)
      ensures forall f :: Trusted(old(man.rows), trustAll, f) ==> SameTable(old(man.rows), man.rows, f)
      ensures Vanished(old(man.rows)) ==> out == Raised && man.rows == old(man.rows)
      ensures out == Raised ==> Vanished(old(man.rows)) || Drifted(old(man.rows), trustAll)
      ensures Drifted(old(man.rows), trustAll) ==> out != Planned
      ensures out == Died ==> life.mortal
    {
      hide Drifted, Trustworthy, SameTable, ReadsWhatItDeletes, FullyPlanned, Replaying, Trusted, Mirrors;
      ghost var rows0 := man.rows;
      NotVanishedYet(rows0, trustAll, plans);
      if Vanished(man.rows) {
        return Raised;
      }
      ReplayStarts(rows0, trustAll, plans);
      var waiting := set t | t in tables && Recorded(man.rows, t.fqn);
      var replan := set t | t in tables && !Recorded(man.rows, t.fqn);
      ghost var done: set<TableDef> := {};
      while waiting != {}
        invariant Replaying(chunks, man.rows, rows0, trustAll, waiting, replan, done, plans)
        decreases |waiting|
      {
        var t :| t in waiting;
        ghost var next;
        out, replan, next := ReplayOne(t, trustAll, rows0, waiting, replan, done, plans);
        if out != Planned { return; }
        waiting, done := waiting - {t}, next;
      }
      out := PlanMissing(bounds, trustAll, rows0, replan, done, plans);
      if out == Planned { ReadyIsNotDrifted(rows0, man.rows, trustAll, chunks, plans); }
    }

    /** Replays one recorded table, or drops its rows. */
    method ReplayOne(t: TableDef, trustAll: bool, ghost rows0: Rows, ghost waiting: set<TableDef>,
                     replan: set<TableDef>, ghost done: set<TableDef>, ghost plans: Plans)
      returns (out: PlanOutcome, replan': set<TableDef>, ghost done': set<TableDef>)
      requires Distinct() && t in waiting
      requires Replaying(chunks, man.rows, rows0, trustAll, waiting, replan, done, plans)
      modifies this, man`rows
      ensures out == Planned || out == Raised || out == Died
      ensures out == Raised ==> Drifted(rows0, trustAll)
      ensures out == Died ==> life.mortal
      ensures out == Planned ==> Replaying(chunks, man.rows, rows0, trustAll, waiting - {t}, replan', done', plans)
      ensures Trustworthy(man.rows, false, plans) && NoNewProgress(rows0, man.rows)
      ensures forall f :: Trusted(rows0, trustAll, f) ==> SameTable(rows0, man.rows, f)
    {
      hide *;
      replan', done' := replan, done;
      ghost var mem, rows := chunks, man.rows;
      TrustedIsPlanned(mem, rows, rows0, trustAll, waiting, replan, done, plans, t);
      ReplayKeeps(mem, rows, rows0, trustAll, waiting, replan, done, plans);
      var progress := man.TableHasProgress(t.fqn);
      if !trustAll && !progress {
        Salvaged(mem, rows, rows0, waiting, replan, done, plans, t);
        man.DeleteTableChunks(t.fqn);
        replan' := replan + {t};
        ReplayKeeps(mem, man.rows, rows0, trustAll, waiting - {t}, replan', done, plans);
        var alive := life.Lives();
        out := if alive then Planned else Died;
      } else {
        var ok := ReplayTable(t, done, plans);
        if !ok {
          TrustedHere(mem, rows, rows0, trustAll, waiting, replan, done, plans, t);
          DriftedHere(rows0, rows, trustAll, t);
          return Raised, replan, done;
        }
        Replayed(mem, chunks, rows, rows0, trustAll, waiting, replan, done, plans, t);
        out, done' := Planned, done + {t};
      }
    }

    lemma TrustedHere(mem: Memory, rows: Rows, rows0: Rows, trustAll: bool, waiting: set<TableDef>,
                      replan: set<TableDef>, done: set<TableDef>, plans: Plans, t: TableDef)
      requires Replaying(mem, rows, rows0, trustAll, waiting, replan, done, plans) && t in waiting
      ensures t in tables && Recorded(rows, t.fqn) && SameTable(rows0, rows, t.fqn)
    {
      hide Trustworthy, Mirrors, SameTable, Recorded, Trusted;
    }

    lemma NotVanishedYet(rows0: Rows, trustAll: bool, plans: Plans)
      requires Trustworthy(rows0, trustAll, plans)
      ensures Trustworthy(rows0, false, plans) && NoNewProgress(rows0, rows0)
      ensures forall f :: SameTable(rows0, rows0, f)
    {
    }

    lemma ReplayKeeps(mem: Memory, rows: Rows, rows0: Rows, trustAll: bool, waiting: set<TableDef>,
                      replan: set<TableDef>, done: set<TableDef>, plans: Plans)
      requires Replaying(mem, rows, rows0, trustAll, waiting, replan, done, plans)
      ensures Trustworthy(rows, false, plans) && NoNewProgress(rows0, rows)
      ensures forall f :: Trusted(rows0, trustAll, f) ==> SameTable(rows0, rows, f)
    {
    }

    /** Every table of the source is ready to load, and the in-memory plan is the ledger's. */
    ghost predicate AllReady(plans: Plans)
      reads `chunks, man`rows
    {
      ReadyFrom(chunks, man.rows, plans)
    }

    ghost predicate ReadyFrom(mem: Memory, rows: Rows, plans: Plans) {
      && (forall t :: t in tables ==> Ready(rows, t, plans))
      && Mirrors(mem, rows, set t | t in tables)
    }

    /** Plans what the ledger does not know, or no longer trusts. */
    method PlanMissing(bounds: Bounds, ghost trustAll: bool, ghost rows0: Rows,
                       replan: set<TableDef>, ghost done: set<TableDef>, ghost plans: Plans)
      returns (out: PlanOutcome)
      requires LivePlans(bounds, plans) && Distinct()
      requires Replaying(chunks, man.rows, rows0, trustAll, {}, replan, done, plans)
      modifies this, man`rows
      ensures out == Planned || (out == Died && life.mortal)
      ensures Trustworthy(man.rows, false, plans) && NoNewProgress(rows0, man.rows)
      ensures out == Planned ==> AllReady(plans) && !Vanished(man.rows)
      ensures forall f :: Trusted(rows0, trustAll, f) ==> SameTable(rows0, man.rows, f)
    {
      hide Trustworthy, ReadsWhatItDeletes, FullyPlanned, Mirrors, DistinctTables, Vanished, Ready;
      ghost var rows := man.rows;
      var list := [];
      for i := 0 to |tables|
        invariant forall t :: t in list <==> t in replan && t in tables[..i]
        invariant forall a, b :: 0 <= a < b < |list| ==> list[a] != list[b]
      {
        assert tables[i] !in tables[..i];
        if tables[i] in replan {
          list := list + [tables[i]];
        }
      }
      assert tables[..|tables|] == tables;
      assert forall t :: t in replan ==> t in (set u | u in tables);
      assert forall t :: t in list <==> t in replan;
      var alive := PlanFresh(list, bounds, done, plans);
      forall f | Trusted(rows0, trustAll, f) ensures SameTable(rows0, man.rows, f) {
        assert forall t :: t in list ==> t.fqn != f;
        assert SameTable(rows0, rows, f) && SameTable(rows, man.rows, f);
      }
      ProgressChain(rows0, rows, man.rows);
      NoneVanish(rows, man.rows, list);
      assert done + (set t | t in list) == set t | t in tables;
      out := if alive then Planned else Died;
    }

    // -------------------------------------------------------------- the planning session

    /** The recorded state is not to be trusted: a forced restart, or another configuration. */
    predicate Resets(hash: Option<int>) {
      startOver || (hash.Some? && hash.value != cfgHash)
    }

    /** Stores the configuration, then clears the rows of a run that starts over, then the marker. */
    method BeginRun(ghost plans: Plans) returns (out: PlanOutcome)
      requires man.Valid(plans)
      modifies man
      ensures man.Valid(plans) && out != Raised && man.snapshot == old(man.snapshot)
      ensures out != Planned ==> life.mortal
      ensures man.hash == Some(cfgHash) && (out == Planned ==> !man.planned)
      ensures out == Planned && (Resets(old(man.hash)) || old(man.Consistent())) ==> man.under == cfgHash
      ensures !Resets(old(man.hash)) ==> man.rows == old(man.rows)
      ensures NoNewProgress(old(man.rows), man.rows)
      ensures out == Planned ==> man.rows == if Resets(old(man.hash)) then map[] else old(man.rows)
      ensures man.rows == old(man.rows) || startOver || (old(man.hash).Some? && old(man.hash) != Some(cfgHash))
      ensures out == Planned && (startOver || (old(man.hash).Some? && old(man.hash) != Some(cfgHash))) ==>
                man.rows == map[]
      ensures out != DiedInReset && old(man.Consistent()) ==> man.Consistent()
      ensures out == DiedInReset ==>
                && Resets(old(man.hash)) && man.hash == Some(cfgHash)
                && man.rows == old(man.rows) && man.planned == old(man.planned)
                && (old(man.Consistent()) ==>
                      (man.Consistent() <==> man.rows == map[] || old(man.hash) == Some(cfgHash)))
    {
      var reset := Resets(man.hash);
      man.StartRun(cfgHash);
      var alive := life.Lives();
      if reset {
        if !alive { return DiedInReset; }
        man.ResetRun();
        alive := life.Lives();
      }
      if man.rows == map[] {
        man.under := cfgHash;
      }
      if !alive { return Died; }
      man.MarkPlanComplete(false);
      alive := life.Lives();
      out := if alive then Planned else Died;
    }

    /** One planning session.  Wherever it stops, a table with progress is completely recorded; when it
        returns, every table is, the marker is set and memory mirrors the ledger; when it does not, no
        in-memory plan is left. */
    method Plan(bounds: Bounds, captured: Option<int>,
                ghost plans: Plans) returns (out: PlanOutcome)
      requires man.Valid(plans) && LivePlans(bounds, plans) && Distinct()
      modifies this, man
      ensures man.Valid(plans) && (out != DiedInReset && old(man.Consistent()) ==> man.Consistent())
      ensures NoNewProgress(old(man.rows), man.rows) && man.hash == Some(cfgHash)
      ensures out == DiedInReset ==>
                && Resets(old(man.hash)) && man.rows == old(man.rows) && man.planned == old(man.planned)
                && (old(man.Consistent()) ==>
                      (man.Consistent() <==> man.rows == map[] || old(man.hash) == Some(cfgHash)))
      ensures out == Planned ==> man.planned && AllReady(plans) && !Vanished(man.rows)
      ensures out != Planned ==> chunks == map[]
      ensures !Resets(old(man.hash)) ==>
                forall f :: Trusted(old(man.rows), old(man.planned), f) ==> SameTable(old(man.rows), man.rows, f)
      ensures !startOver && old(man.hash) == Some(cfgHash) ==>
                forall f :: Trusted(old(man.rows), old(man.planned), f) ==> SameTable(old(man.rows), man.rows, f)
      ensures !Resets(old(man.hash)) && old(man.snapshot).Some? ==> man.snapshot == old(man.snapshot)
      ensures out == Planned && (Resets(old(man.hash)) || old(man.snapshot).None?) ==> man.snapshot == Some(captured)
      ensures !Resets(old(man.hash)) && Vanished(old(man.rows)) ==> out != Planned
      ensures out == Raised ==>
                && !Resets(old(man.hash)) && old(man.hash).Some?
                && (Vanished(old(man.rows)) || Drifted(old(man.rows), old(man.planned)))
      ensures !Resets(old(man.hash)) && old(man.hash).Some? && Drifted(old(man.rows), old(man.planned)) ==>
                out != Planned
      ensures out == Died || out == DiedInReset ==> life.mortal
    {
      hide Drifted, Trustworthy, SameTable, AllReady, Trusted, Vanished, LivePlans, Distinct, NoNewProgress;
      chunks := map[];
      SameAsItself(man.rows);
      var recorded := man.planned;
      var resets, resume := Resets(man.hash), man.hash.Some? && !Resets(man.hash);
      out := BeginRun(plans);
      if out != Planned { return; }
      if resets || man.snapshot.None? {
        man.SetSnapshot(captured);
      }
      var alive := life.Lives();
      if !alive { return Died; }
      ghost var rows := man.rows;
      out := RecordPlan(resume, recorded, bounds, plans);
      ProgressChain(old(man.rows), rows, man.rows);
      if out == Planned {
        man.MarkPlanComplete(true);
        MarkerHolds(plans);
        alive := life.Lives();
        out := if alive then Planned else Died;
      }
      if out != Planned {
        chunks := map[];
      }
    }

    /** Replays the recorded plan of a resumed run, or plans every table. */
    method RecordPlan(resume: bool, recorded: bool, bounds: Bounds, ghost plans: Plans)
      returns (out: PlanOutcome)
      requires LivePlans(bounds, plans) && Distinct() && chunks == map[]
      requires Trustworthy(man.rows, resume && recorded, plans) && (!resume ==> man.rows == map[])
      modifies this, man`rows
      ensures out != DiedInReset && Trustworthy(man.rows, false, plans) && NoNewProgress(old(man.rows), man.rows)
      ensures out == Planned ==> AllReady(plans) && !Vanished(man.rows)
      ensures forall f :: Trusted(old(man.rows), recorded, f) ==> SameTable(old(man.rows), man.rows, f)
      ensures Vanished(old(man.rows)) ==> out != Planned
      ensures out == Raised ==> resume && (Vanished(old(man.rows)) || Drifted(old(man.rows), recorded))
      ensures resume && Drifted(old(man.rows), recorded) ==> out != Planned
      ensures out == Died ==> life.mortal
    {
      hide Trustworthy, SameTable, Ready, Mirrors, LivePlan, Drifted;
      if resume {
        out := ReplayPlan(bounds, recorded, plans);
      } else {
        NothingRecorded(plans);
        assert {} + (set t | t in tables) == set t | t in tables;
        ghost var rows := man.rows;
        var alive := PlanFresh(tables, bounds, {}, plans);
        NoneVanish(rows, man.rows, tables);
        out := if alive then Planned else Died;
      }
    }

    lemma NothingRecorded(plans: Plans)
      ensures forall f :: !Recorded(map[], f)
      ensures Mirrors(map[], map[], {}) && Trustworthy(map[], false, plans)
    {
    }

    lemma MarkerHolds(plans: Plans)
      requires AllReady(plans) && Trustworthy(man.rows, false, plans) && !Vanished(man.rows)
      ensures Trustworthy(man.rows, true, plans)
    {
      forall f | Recorded(man.rows, f) ensures FullyPlanned(man.rows, f, plans) {
        var k :| k in man.rows && k.fqn == f;
        assert Listed(k.fqn);
      }
    }
  }

  function ReplayMem(t: TableDef, rows: Rows, keys: set<ChunkKey>): Memory
    requires forall k :: k in keys ==> k in rows && k.fqn == t.fqn
  {
    map id: Id | id in (set k | k in keys :: Id(t.name, k.ord)) :: MemOf(rows[ChunkKey(t.fqn, id.ord)], t.fqn)
  }

  lemma ReplayMemNone(mem: Memory, t: TableDef, rows: Rows)
    ensures mem + ReplayMem(t, rows, {}) == mem
  {
  }

  lemma ReplayMemNext(mem: Memory, t: TableDef, rows: Rows, keys: set<ChunkKey>, k: ChunkKey)
    requires forall c :: c in keys + {k} ==> c in rows && c.fqn == t.fqn
    ensures mem + ReplayMem(t, rows, keys + {k}) ==
            (mem + ReplayMem(t, rows, keys))[Id(t.name, k.ord) := MemOf(rows[k], t.fqn)]
  {
    assert k == ChunkKey(t.fqn, k.ord);
    var a := mem + ReplayMem(t, rows, keys + {k});
    var b := (mem + ReplayMem(t, rows, keys))[Id(t.name, k.ord) := MemOf(rows[k], t.fqn)];
    assert a.Keys == b.Keys;
    forall id | id in a ensures a[id] == b[id] {
    }
  }

  lemma MirrorsReplayed(mem: Memory, rows: Rows, done: set<TableDef>, t: TableDef)
    requires Mirrors(mem, rows, done) && DistinctTables(done + {t}) && t !in done
    ensures Mirrors(mem + ReplayMem(t, rows, set k | k in rows && k.fqn == t.fqn), rows, done + {t})
  {
    var keys := set k | k in rows && k.fqn == t.fqn;
    var mem' := mem + ReplayMem(t, rows, keys);
    forall u, i: nat | u in done + {t} && ChunkKey(u.fqn, i) in rows
      ensures Id(u.name, i) in mem' && mem'[Id(u.name, i)] == MemOf(rows[ChunkKey(u.fqn, i)], u.fqn)
    {
      if u != t {
        assert u.name != t.name;
      } else {
        assert ChunkKey(t.fqn, i) in keys;
      }
    }
    forall id | id in mem' ensures exists u :: u in done + {t} && u.name == id.name && ChunkKey(u.fqn, id.ord) in rows {
      if id in ReplayMem(t, rows, keys) {
        assert t.name == id.name && ChunkKey(t.fqn, id.ord) in rows;
      } else {
        var u :| u in done && u.name == id.name && ChunkKey(u.fqn, id.ord) in rows;
      }
    }
  }
}
