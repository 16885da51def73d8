/** The resumable-load ledger: recorded chunk rows with their states, the plan-complete marker and
    the snapshot decision of one run.  Every method is one committed write or one query. */
module Ledger {
  import opened Records
  import opened Chunks

  datatype State = Pending | InProgress | Loaded | Failed

  datatype ChunkKey = ChunkKey(fqn: string, ord: nat)

  /** A recorded chunk; `where` is its rendered source range, absent for a whole table. */
  datatype ChunkRow = ChunkRow(range: Range, where: Option<string>, state: State)

  type Rows = map<ChunkKey, ChunkRow>

  /** Which complete plans a live source may give for a table. */
  type Plans = (string, seq<Range>) -> bool

  predicate Recorded(rows: Rows, fqn: string) {
    exists k :: k in rows && k.fqn == fqn
  }

  predicate HasProgress(rows: Rows, fqn: string) {
    exists k :: k in rows && k.fqn == fqn && rows[k].state != Pending
  }

  /** A row with range `c`; only whole tables have no predicate. */
  predicate RowFor(row: ChunkRow, c: Range) {
    row.range == c && (row.where.None? <==> c.Whole?)
  }

  /** The rows of the table are exactly those of `plan`. */
  ghost predicate Follows(rows: Rows, fqn: string, plan: seq<Range>) {
    && (forall i: nat :: ChunkKey(fqn, i) in rows <==> i < |plan|)
    && (forall i: nat :: i < |plan| ==> RowFor(rows[ChunkKey(fqn, i)], plan[i]))
  }

  ghost predicate FullyPlanned(rows: Rows, fqn: string, plans: Plans) {
    exists plan :: plans(fqn, plan) && Follows(rows, fqn, plan)
  }

  /** A table with progress has a completely recorded plan; under the marker every table has. */
  ghost predicate Trustworthy(rows: Rows, planned: bool, plans: Plans) {
    && (forall fqn :: HasProgress(rows, fqn) ==> FullyPlanned(rows, fqn, plans))
    && (planned ==> forall fqn :: Recorded(rows, fqn) ==> FullyPlanned(rows, fqn, plans))
  }

  ghost predicate SameTable(a: Rows, b: Rows, fqn: string) {
    forall k: ChunkKey :: k.fqn == fqn ==> (k in a <==> k in b) && (k in a ==> a[k] == b[k])
  }

  lemma SameTablePlanned(a: Rows, b: Rows, fqn: string, plans: Plans)
    requires SameTable(a, b, fqn)
    ensures FullyPlanned(a, fqn, plans) <==> FullyPlanned(b, fqn, plans)
    ensures HasProgress(a, fqn) <==> HasProgress(b, fqn)
    ensures Recorded(a, fqn) <==> Recorded(b, fqn)
  {
    if FullyPlanned(a, fqn, plans) {
      var plan :| plans(fqn, plan) && Follows(a, fqn, plan);
      assert Follows(b, fqn, plan);
    }
    if FullyPlanned(b, fqn, plans) {
      var plan :| plans(fqn, plan) && Follows(b, fqn, plan);
      assert Follows(a, fqn, plan);
    }
  }

  /** Planning makes no progress: what has left the pending state did so before. */
  ghost predicate NoNewProgress(a: Rows, b: Rows) {
    forall k :: k in b && b[k].state != Pending ==> k in a && a[k] == b[k]
  }

  lemma ProgressChain(a: Rows, b: Rows, c: Rows)
    requires NoNewProgress(a, b) && NoNewProgress(b, c)
    ensures NoNewProgress(a, c)
  {
  }

  class Manifest {
    var hash: Option<int>
    var snapshot: Option<Option<int>>
    var planned: bool
    var rows: Rows
    ghost var under: int        // the configuration whose plan the rows follow

    constructor ()
      ensures hash == None && snapshot == None && !planned && rows == map[]
    {
      hash, snapshot, planned, rows, under := None, None, false, map[], 0;
    }

    ghost predicate Valid(plans: Plans)
      reads this
    {
      Trustworthy(rows, planned, plans) && (hash.None? ==> rows == map[])
    }

    /** The stored configuration is the one the recorded rows were planned under. */
    ghost predicate Consistent()
      reads this
    {
      hash.Some? && rows != map[] ==> under == hash.value
    }

    method StartRun(configHash: int)
      modifies this`hash
      ensures hash == Some(configHash)
    {
      hash := Some(configHash);
    }

    method ResetRun()
      modifies this`rows
      ensures rows == map[]
    {
      rows := map[];
    }

    method MarkPlanComplete(complete: bool)
      modifies this`planned
      ensures planned == complete
    {
      planned := complete;
    }

    method SetSnapshot(token: Option<int>)
      modifies this`snapshot
      ensures snapshot == Some(token)
    {
      snapshot := Some(token);
    }

    method TableHasProgress(fqn: string) returns (p: bool)
      ensures p <==> HasProgress(rows, fqn)
      ensures p <==> exists k :: k in rows && k.fqn == fqn && rows[k].state in {InProgress, Loaded, Failed}
    {
      p := HasProgress(rows, fqn);
    }

    /** A row that exists is left as it is. */
    method AddChunk(key: ChunkKey, range: Range, where: Option<string>)
      modifies this`rows
      ensures rows == if key in old(rows) then old(rows) else old(rows)[key := ChunkRow(range, where, Pending)]
    {
      if key !in rows {
        rows := rows[key := ChunkRow(range, where, Pending)];
      }
    }

    method DeleteTableChunks(fqn: string)
      modifies this`rows
      ensures rows == Without(old(rows), fqn)
    {
      rows := Without(rows, fqn);
    }

    method SetChunkState(key: ChunkKey, state: State)
      modifies this`rows
      ensures rows == if key in old(rows) then old(rows)[key := old(rows)[key].(state := state)] else old(rows)
    {
      if key in rows {
        rows := rows[key := rows[key].(state := state)];
      }
    }

    /** A crash left chunks in progress: they are pending again. */
    method Recover()
      modifies this`rows
      ensures rows == Recovered(old(rows))
    {
      rows := Recovered(rows);
    }

    method PendingChunks() returns (keys: set<ChunkKey>)
      ensures keys == set k | k in rows && (rows[k].state == Pending || rows[k].state == Failed)
    {
      keys := set k | k in rows && (rows[k].state == Pending || rows[k].state == Failed);
    }
  }

  function Without(rows: Rows, fqn: string): Rows {
    map k | k in rows && k.fqn != fqn :: rows[k]
  }

  function Recovered(rows: Rows): Rows {
    map k | k in rows :: if rows[k].state == InProgress then rows[k].(state := Pending) else rows[k]
  }

  // ---------------------------------------------------------------- what writes keep

  /** The first `n` rows a table's plan records. */
  function PlanRows(fqn: string, plan: seq<Range>, where: seq<Option<string>>, n: nat): Rows
    requires n <= |plan| == |where|
  {
    if n == 0 then map[]
    else PlanRows(fqn, plan, where, n - 1)[ChunkKey(fqn, n - 1) := ChunkRow(plan[n - 1], where[n - 1], Pending)]
  }

  lemma {:induction false} PlanRowsAre(fqn: string, plan: seq<Range>, where: seq<Option<string>>, n: nat)
    requires n <= |plan| == |where|
    ensures forall k: ChunkKey :: k in PlanRows(fqn, plan, where, n) <==> k.fqn == fqn && k.ord < n
    ensures forall k: ChunkKey :: k in PlanRows(fqn, plan, where, n) ==>
              PlanRows(fqn, plan, where, n)[k] == ChunkRow(plan[k.ord], where[k.ord], Pending)
  {
    if n > 0 {
      PlanRowsAre(fqn, plan, where, n - 1);
    }
  }

  /** Recording one more row. */
  lemma PlanRowsNext(rows: Rows, fqn: string, plan: seq<Range>, where: seq<Option<string>>, n: nat)
    requires n < |plan| == |where| && !Recorded(rows, fqn)
    ensures ChunkKey(fqn, n) !in rows + PlanRows(fqn, plan, where, n)
    ensures rows + PlanRows(fqn, plan, where, n + 1) ==
            (rows + PlanRows(fqn, plan, where, n))[ChunkKey(fqn, n) := ChunkRow(plan[n], where[n], Pending)]
  {
    PlanRowsAre(fqn, plan, where, n);
  }

  /** A partly recorded table has no progress, so it is not trusted. */
  lemma PartialKeepsTrust(rows: Rows, fqn: string, plan: seq<Range>, where: seq<Option<string>>, n: nat, plans: Plans)
    requires Trustworthy(rows, false, plans) && !Recorded(rows, fqn) && n <= |plan| == |where|
    requires forall i :: 0 <= i < |plan| ==> (where[i].None? <==> plan[i].Whole?)
    ensures Trustworthy(rows + PlanRows(fqn, plan, where, n), false, plans)
    ensures n == |plan| ==> Follows(rows + PlanRows(fqn, plan, where, n), fqn, plan)
    ensures NoNewProgress(rows, rows + PlanRows(fqn, plan, where, n))
    ensures forall f :: f != fqn ==> SameTable(rows, rows + PlanRows(fqn, plan, where, n), f)
  {
    var next := rows + PlanRows(fqn, plan, where, n);
    PlanRowsAre(fqn, plan, where, n);
    hide PlanRows;
    forall f | f != fqn ensures SameTable(rows, next, f) {
    }
    forall f | HasProgress(next, f) ensures FullyPlanned(next, f, plans) {
      if f != fqn {
        SameTablePlanned(rows, next, f, plans);
      }
    }
  }

  /** Dropping a table's rows touches no other table. */
  lemma DropKeepsTrust(rows: Rows, fqn: string, plans: Plans)
    requires Trustworthy(rows, false, plans)
    ensures var next := Without(rows, fqn);
            && Trustworthy(next, false, plans) && !Recorded(next, fqn) && NoNewProgress(rows, next)
            && forall f :: f != fqn ==> SameTable(rows, next, f)
  {
    var next := Without(rows, fqn);
    forall f | f != fqn ensures SameTable(rows, next, f) {
    }
    forall f | HasProgress(next, f) ensures FullyPlanned(next, f, plans) {
      SameTablePlanned(rows, next, f, plans);
    }
  }

  /** States may change under the marker: ranges and rows do not. */
  ghost predicate SameRanges(a: Rows, b: Rows) {
    a.Keys == b.Keys && forall k :: k in a ==> a[k].range == b[k].range && a[k].where == b[k].where
  }

  lemma StatesKeepTrust(a: Rows, b: Rows, plans: Plans)
    requires Trustworthy(a, true, plans) && SameRanges(a, b)
    ensures Trustworthy(b, true, plans)
  {
    forall f | Recorded(b, f) ensures FullyPlanned(b, f, plans) {
      var k :| k in b && k.fqn == f;
      assert k in a && Recorded(a, f);
      var plan :| plans(f, plan) && Follows(a, f, plan);
      assert Follows(b, f, plan);
    }
  }
}
