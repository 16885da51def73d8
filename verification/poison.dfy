/** What becomes of the records the target refuses: parked in the dead letter, or replaced by a later
    image of their row; and what the dead letter's filter by source position can lose. */
module Poison {
  import opened Records
  import opened Store
  import opened Replay
  import opened ApplyLemmas
  import opened Rejection

  // ---------------------------------------------------------------- the dead letter as a value

  ghost predicate Holds(parked: seq<Record>, p: SourcePos) {
    exists q :: q in parked && q.pos == p
  }

  /** A record is skipped when its position is already there; one without a position never is. */
  ghost function ParkOne(parked: seq<Record>, r: Record): seq<Record> {
    if r.pos != Absent && Holds(parked, r.pos) then parked else parked + [r]
  }

  ghost function ParkAll(parked: seq<Record>, rs: seq<Record>): seq<Record> {
    if rs == [] then parked else ParkOne(ParkAll(parked, rs[..|rs| - 1]), rs[|rs| - 1])
  }

  /** The dead letter holds the record, or another one of its position. */
  ghost predicate Noted(parked: seq<Record>, r: Record) {
    r in parked || (r.pos != Absent && Holds(parked, r.pos))
  }

  /** No position was recorded twice. */
  ghost predicate Once(parked: seq<Record>) {
    forall i, j :: 0 <= i < j < |parked| && parked[i].pos != Absent ==> parked[i].pos != parked[j].pos
  }

  lemma ParkNext(parked: seq<Record>, rs: seq<Record>, i: nat)
    requires i < |rs|
    ensures ParkAll(parked, rs[..i + 1]) == ParkOne(ParkAll(parked, rs[..i]), rs[i])
  {
    assert rs[..i + 1][..i] == rs[..i];
  }

  lemma NotedMore(a: seq<Record>, b: seq<Record>, r: Record)
    requires a <= b && Noted(a, r)
    ensures Noted(b, r)
  {
    if Holds(a, r.pos) {
      var q :| q in a && q.pos == r.pos;
      assert q in b;
    }
  }

  lemma ParkNothing(parked: seq<Record>)
    ensures ParkAll(parked, []) == parked
  {
  }

  lemma HoldsMore(parked: seq<Record>, r: Record)
    ensures forall p :: Holds(parked + [r], p) <==> Holds(parked, p) || p == r.pos
  {
    forall p ensures Holds(parked + [r], p) <==> Holds(parked, p) || p == r.pos {
      if Holds(parked, p) {
        var q :| q in parked && q.pos == p;
        assert q in parked + [r];
      }
      assert r in parked + [r];
    }
  }

  /** Everything handed over is noted, nothing else is added, and no position comes twice. */
  lemma {:induction false} ParkAllNotes(parked: seq<Record>, rs: seq<Record>)
    ensures parked <= ParkAll(parked, rs)
    ensures forall r :: r in rs ==> Noted(ParkAll(parked, rs), r)
    ensures forall i :: |parked| <= i < |ParkAll(parked, rs)| ==> ParkAll(parked, rs)[i] in rs
    ensures Once(parked) ==> Once(ParkAll(parked, rs))
  {
    if rs != [] {
      var before, r := rs[..|rs| - 1], rs[|rs| - 1];
      ParkAllNotes(parked, before);
      var a := ParkAll(parked, before);
      assert rs == before + [r];
      forall x | x in rs ensures Noted(ParkOne(a, r), x) {
        if x in before {
          NotedMore(a, ParkOne(a, r), x);
        } else {
          assert x == r && (r in a + [r]);
        }
      }
      if Once(a) { OnceMore(a, r); }
    }
  }

  lemma OnceMore(a: seq<Record>, r: Record)
    requires Once(a)
    ensures Once(ParkOne(a, r))
  {
    var b := ParkOne(a, r);
    if b != a {
      forall i, j | 0 <= i < j < |b| && b[i].pos != Absent ensures b[i].pos != b[j].pos {
        assert b[i] in a;
      }
    }
  }

  /** Different records never share a position. */
  ghost predicate OwnPositions(rs: seq<Record>) {
    forall a, b :: a in rs && b in rs && a.pos == b.pos && a.pos != Absent ==> a == b
  }

  /** The filter by position loses nothing that is handed to an empty dead letter exactly when different
      records have different positions. */
  lemma LostExactly(rs: seq<Record>)
    ensures (forall r :: r in rs ==> r in ParkAll([], rs)) <==> OwnPositions(rs)
  {
    var all := ParkAll([], rs);
    ParkAllNotes([], rs);
    if OwnPositions(rs) {
      forall r | r in rs ensures r in all { NotedIsThere(all, rs, r); }
    }
    if forall r :: r in rs ==> r in all {
      forall a, b | a in rs && b in rs && a.pos == b.pos && a.pos != Absent ensures a == b {
        OneOfPosition(all, a, b);
      }
    }
  }

  lemma OneOfPosition(parked: seq<Record>, a: Record, b: Record)
    requires Once(parked) && a in parked && b in parked && a.pos == b.pos && a.pos != Absent
    ensures a == b
  {
  }

  /** A noted record is there itself when the dead letter only holds records of a set with positions of
      their own. */
  lemma NotedIsThere(parked: seq<Record>, rs: seq<Record>, r: Record)
    requires OwnPositions(rs) && r in rs && Noted(parked, r) && forall q :: q in parked ==> q in rs
    ensures r in parked
  {
  }

  /** Of two different records of one position the second is dropped without a trace. */
  lemma SharedPositionLost(a: Record, b: Record, lsn: int)
    requires a.pos == Plain(lsn) && b.pos == Plain(lsn) && a != b
    ensures ParkAll([], [a, b]) == [a] && b !in ParkAll([], [a, b])
  {
    assert [a, b][..1] == [a] && [a][..0] == [];
    assert a in [a];
    assert ParkAll([], [a]) == [a];
  }

  // ---------------------------------------------------------------- one batch

  ghost function RefusedIn(env: Env, rs: seq<Record>): seq<Record> {
    if rs == [] then []
    else RefusedIn(env, rs[..|rs| - 1]) + if Refused(env, rs[|rs| - 1]) then [rs[|rs| - 1]] else []
  }

  lemma {:induction false} RefusedMembers(env: Env, rs: seq<Record>, r: Record)
    ensures r in RefusedIn(env, rs) <==> r in rs && Refused(env, r)
  {
    if rs != [] {
      hide Refused;
      RefusedMembers(env, rs[..|rs| - 1], r);
      assert rs == rs[..|rs| - 1] + [rs[|rs| - 1]];
    }
  }

  lemma RefusedAll(env: Env, rs: seq<Record>)
    ensures RefusedIn(env, rs) == rs <==> forall r :: r in rs ==> Refused(env, r)
  {
    hide Refused, RefusedIn;
    if forall r :: r in rs ==> Refused(env, r) {
      AllRefusedIn(env, rs);
    }
    if RefusedIn(env, rs) == rs {
      forall r | r in rs ensures Refused(env, r) { RefusedMembers(env, rs, r); }
    }
  }

  lemma {:induction false} AllRefusedIn(env: Env, rs: seq<Record>)
    requires forall r :: r in rs ==> Refused(env, r)
    ensures RefusedIn(env, rs) == rs
  {
    hide Refused;
    if rs != [] {
      var before, last := rs[..|rs| - 1], rs[|rs| - 1];
      AllRefusedIn(env, before);
      assert last in rs && RefusedIn(env, rs) == before + [last];
    }
  }

  lemma RefusedNext(env: Env, rs: seq<Record>, r: Record)
    ensures RefusedIn(env, rs + [r]) == RefusedIn(env, rs) + if Refused(env, r) then [r] else []
  {
    hide Refused;
    assert (rs + [r])[..|rs|] == rs;
  }

  /** What a batch that returned has handed to the dead letter. */
  ghost function BatchParks(env: Env, rs: seq<Record>): seq<Record> {
    if BatchRejects(env, rs) then RefusedIn(env, rs) else []
  }

  /** What a source transaction that returned has handed to it. */
  ghost function GroupParks(env: Env, rs: seq<Record>): seq<Record> {
    if Rejects(env, rs) then rs else []
  }

  /** `b` is an accepted full image of the row that `a` changes. */
  ghost predicate Replaces(env: Env, a: Record, b: Record) {
    Known(env, a) && FullOf(env, b, Upper(a.table)) && LocOf(env, a) == LocOf(env, b) && !Refused(env, b)
  }

  /** Of the first `upto` records, each refused one is noted, or a later one of them replaces it. */
  ghost predicate Accounted(env: Env, rs: seq<Record>, upto: nat, parked: seq<Record>)
    requires upto <= |rs|
  {
    forall i: nat :: i < upto && Refused(env, rs[i]) ==> Noted(parked, rs[i]) || ReplacedBelow(env, rs, i, upto)
  }

  ghost predicate ReplacedBelow(env: Env, rs: seq<Record>, i: nat, upto: nat)
    requires i < upto <= |rs|
  {
    exists j: nat :: i < j < upto && Replaces(env, rs[i], rs[j])
  }

  /** In a slice that is not rejected, an accepted image replaces each refused record. */
  lemma Survivor(env: Env, rs: seq<Record>, i: nat) returns (j: nat)
    requires !Rejects(env, rs) && i < |rs| && Refused(env, rs[i])
    ensures i < j < |rs| && Replaces(env, rs[i], rs[j])
    decreases |rs| - i
  {
    assert Overwritten(env, rs, i);
    j :| i < j < |rs| && Replaced(env, rs, i, j);
    StretchAt(env, rs, i, j, j);
    if Refused(env, rs[j]) {
      hide Refused, Classify;
      var k := Survivor(env, rs, j);
      j := k;
    }
  }

  lemma SurvivorInBatch(env: Env, rs: seq<Record>, i: nat)
    requires !BatchRejects(env, rs) && i < |rs| && Refused(env, rs[i])
    ensures ReplacedBelow(env, rs, i, |rs|)
  {
    hide Refused, Rejects, Replaces;
    var n := rs[i].table;
    Slot(rs, i);
    assert !Rejects(env, ByName(rs, n));
    var q := Survivor(env, ByName(rs, n), |ByName(rs[..i], n)|);
    var j := Unslot(rs, n, q);
    if j <= i { SlotOrder(rs, n, i, j); }
  }

  /** A batch that returned accounts for all its records. */
  lemma BatchAccounted(env: Env, rs: seq<Record>, parked: seq<Record>)
    ensures Accounted(env, rs, |rs|, ParkAll(parked, BatchParks(env, rs)))
  {
    hide Refused;
    var now := ParkAll(parked, BatchParks(env, rs));
    ParkAllNotes(parked, BatchParks(env, rs));
    forall i: nat | i < |rs| && Refused(env, rs[i]) ensures Noted(now, rs[i]) || ReplacedBelow(env, rs, i, |rs|) {
      if BatchRejects(env, rs) {
        assert rs[i] in rs;
        RefusedMembers(env, rs, rs[i]);
      } else {
        SurvivorInBatch(env, rs, i);
      }
    }
  }

  /** So does a source transaction that returned. */
  lemma GroupAccounted(env: Env, rs: seq<Record>, parked: seq<Record>)
    ensures Accounted(env, rs, |rs|, ParkAll(parked, GroupParks(env, rs)))
    ensures Rejects(env, rs) ==> forall r :: r in rs ==> Noted(ParkAll(parked, GroupParks(env, rs)), r)
  {
    hide Refused;
    var now := ParkAll(parked, GroupParks(env, rs));
    ParkAllNotes(parked, GroupParks(env, rs));
    forall i: nat | i < |rs| && Refused(env, rs[i]) ensures Noted(now, rs[i]) || ReplacedBelow(env, rs, i, |rs|) {
      if Rejects(env, rs) {
        assert rs[i] in rs;
      } else {
        var j := Survivor(env, rs, i);
      }
    }
  }

  lemma NothingParked(env: Env, parked: seq<Record>, batch: seq<Record>)
    ensures RefusedIn(env, []) == [] && ParkAll(parked, []) == parked && ParksOnlyRefused(env, parked, parked, batch)
  {
  }

  /** The records parked up to `j`, and one more. */
  lemma NextRefused(env: Env, parked: seq<Record>, batch: seq<Record>, j: nat)
    requires j < |batch|
    ensures var before, now := RefusedIn(env, batch[..j]), RefusedIn(env, batch[..j + 1]);
            now == (if Refused(env, batch[j]) then before + [batch[j]] else before) &&
            ParkAll(parked, before + [batch[j]]) == ParkOne(ParkAll(parked, before), batch[j])
  {
    var before := RefusedIn(env, batch[..j]);
    assert batch[..j + 1] == batch[..j] + [batch[j]];
    RefusedNext(env, batch[..j], batch[j]);
    assert (before + [batch[j]])[..|before|] == before;
  }

  lemma ParksOne(env: Env, before: seq<Record>, now: seq<Record>, r: Record, batch: seq<Record>)
    requires now == before || now == before + [r]
    requires Parkable(env, batch, r)
    ensures ParksOnlyRefused(env, before, now, batch)
  {
  }

  // ---------------------------------------------------------------- around the barrier

  lemma NothingPassed(env: Env, rs: seq<Record>, parked: seq<Record>)
    ensures Accounted(env, rs, 0, parked) && ParksOnlyRefused(env, parked, parked, rs)
  {
  }

  /** The end of the slice, or next to a move. */
  ghost predicate BesideMove(env: Env, rs: seq<Record>, k: nat)
    requires k <= |rs|
  {
    k == 0 || k == |rs| || IsKeymove(env, rs[k - 1]) || IsKeymove(env, rs[k])
  }

  lemma AccountedMore(env: Env, rs: seq<Record>, upto: nat, parked: seq<Record>, now: seq<Record>)
    requires upto <= |rs| && Accounted(env, rs, upto, parked) && parked <= now
    ensures Accounted(env, rs, upto, now)
  {
    hide Refused, ReplacedBelow, Noted;
    forall i: nat | i < upto && Refused(env, rs[i]) ensures Noted(now, rs[i]) || ReplacedBelow(env, rs, i, upto) {
      if Noted(parked, rs[i]) { NotedMore(parked, now, rs[i]); }
    }
  }

  lemma AccountedMove(env: Env, rs: seq<Record>, i: nat, parked: seq<Record>)
    requires i < |rs| && IsKeymove(env, rs[i]) && Accounted(env, rs, i, parked)
    ensures Accounted(env, rs, i + 1, parked)
  {
    hide Replaces, Noted, Classify;
    assert !Refused(env, rs[i]);
    forall k: nat | k < i && Refused(env, rs[k]) ensures Noted(parked, rs[k]) || ReplacedBelow(env, rs, k, i + 1) {
      if ReplacedBelow(env, rs, k, i) {
        var j: nat :| k < j < i && Replaces(env, rs[k], rs[j]);
      }
    }
  }

  /** What is accounted for in one slice behind another is accounted for in both. */
  lemma AccountedJoin(env: Env, rs: seq<Record>, b: nat, seg: seq<Record>, k: nat, parked: seq<Record>)
    requires b + |seg| <= |rs| && seg == rs[b..b + |seg|] && k <= |seg|
    requires Accounted(env, rs, b, parked) && Accounted(env, seg, k, parked)
    ensures Accounted(env, rs, b + k, parked)
  {
    hide Refused, Replaces, Noted;
    forall i: nat | i < b + k && Refused(env, rs[i])
      ensures Noted(parked, rs[i]) || ReplacedBelow(env, rs, i, b + k)
    {
      if i < b {
        if ReplacedBelow(env, rs, i, b) {
          var j: nat :| i < j < b && Replaces(env, rs[i], rs[j]);
        }
      } else {
        assert seg[i - b] == rs[i];
        if ReplacedBelow(env, seg, i - b, k) {
          var j: nat :| i - b < j < k && Replaces(env, seg[i - b], seg[j]);
          assert seg[j] == rs[b + j];
        }
      }
    }
  }

  lemma AccountedBatch(env: Env, rs: seq<Record>, b: nat, i: nat, parked: seq<Record>, now: seq<Record>)
    requires b <= i <= |rs| && Accounted(env, rs, b, parked)
    requires now == ParkAll(parked, BatchParks(env, rs[b..i]))
    ensures Accounted(env, rs, i, now)
  {
    hide Accounted, BatchParks;
    ParkAllNotes(parked, BatchParks(env, rs[b..i]));
    AccountedMore(env, rs, b, parked, now);
    BatchAccounted(env, rs[b..i], parked);
    AccountedJoin(env, rs, b, rs[b..i], i - b, now);
  }

  // ---------------------------------------------------------------- what an interruption changes

  lemma {:induction false} DroppedFold(env: Env, rs: seq<Record>, db: DB)
    requires NoKeymove(env, rs) && forall r :: r in rs ==> env.drop(r)
    ensures Fold(env, rs, db) == db
  {
    if rs != [] {
      var before, r := rs[..|rs| - 1], rs[|rs| - 1];
      assert rs == before + [r] && r in rs;
      DroppedFold(env, before, db);
      DroppedStep(env, r, db);
    }
  }

  /** The record does nothing: its table has no key, it is left out, or it sets no column. */
  ghost predicate NoEffect(env: Env, r: Record) {
    Known(env, r) ==> OpOf(env, r) == Keep
  }

  lemma {:induction false} NoEffectFold(env: Env, rs: seq<Record>, db: DB)
    requires NoKeymove(env, rs) && forall r :: r in rs ==> NoEffect(env, r)
    ensures Fold(env, rs, db) == db
  {
    if rs != [] {
      var before, r := rs[..|rs| - 1], rs[|rs| - 1];
      assert rs == before + [r] && r in rs;
      NoEffectFold(env, before, db);
      NoEffectStep(env, r, db);
    }
  }

  lemma NoEffectStep(env: Env, r: Record, db: DB)
    requires !IsKeymove(env, r) && NoEffect(env, r)
    ensures Step(env, db, r) == db
  {
    hide OpOf, IsKeymove;
  }

  lemma {:induction false} SummaryKeeps(env: Env, rs: seq<Record>)
    ensures Summary(env, rs) == Keep <==> forall r :: r in rs ==> NoEffect(env, r)
  {
    if rs != [] {
      hide OpOf, Known, Compose;
      var before, r := rs[..|rs| - 1], rs[|rs| - 1];
      assert rs == before + [r] && r in rs && forall x :: x in before ==> x in rs;
      SummaryKeeps(env, before);
      ComposeKeeps(Summary(env, before), if Known(env, r) then OpOf(env, r) else Keep);
    }
  }

  lemma ComposeKeeps(a: CellOp, b: CellOp)
    ensures Compose(a, b) == Keep <==> a == Keep && b == Keep
  {
  }

  /** A database that an operation other than `Keep` changes. */
  lemma ChangesSome(env: Env, r: Record, op: CellOp) returns (db: DB)
    requires Known(env, r) && op != Keep
    ensures ValidDB(env.schema, db) && RunOp(op, CellAt(db, LocOf(env, r))) != CellAt(db, LocOf(env, r))
  {
    db := if op == Put(None) then map[LocOf(env, r) := Blank(MetaOf(env, r))] else map[];
  }

  /** A move-free slice leaves every database as it is exactly when each of its records does nothing. */
  lemma FoldIdentity(env: Env, rs: seq<Record>)
    requires NoKeymove(env, rs)
    ensures (forall db | ValidDB(env.schema, db) :: Fold(env, rs, db) == db) <==>
            forall r :: r in rs ==> NoEffect(env, r)
  {
    hide OpOf, Fold, At, Summary, RunOp, ValidDB, LocOf, NoKeymove, Known;
    if forall r :: r in rs ==> NoEffect(env, r) {
      forall db ensures Fold(env, rs, db) == db { NoEffectFold(env, rs, db); }
    } else {
      var r :| r in rs && !NoEffect(env, r);
      var loc := LocOf(env, r);
      AtMembers(env, rs, loc, r);
      SummaryKeeps(env, At(env, rs, loc));
      var db := ChangesSome(env, r, Summary(env, At(env, rs, loc)));
      FoldCell(env, rs, db, loc);
      assert Fold(env, rs, db) != db;
    }
  }

  /** The move-free rest of a transaction behind its last move: without an interruption the barrier
      applies it as one batch, and a run that takes it up there applies it as one atomic group.  Both
      park the same records exactly when the group is accepted or all of it is refused; and both leave the
      same state of every database exactly when it is accepted or none of its records does anything. */
  lemma ResumedTail(env: Env, rest: seq<Record>)
    requires OneSpelling(env, rest) && AllSound(env, rest) && NoKeymove(env, rest)
    ensures BatchParks(env, rest) == GroupParks(env, rest) <==>
            (Rejects(env, rest) ==> forall r :: r in rest ==> Refused(env, r))
    ensures (forall db | ValidDB(env.schema, db) ::
               (if Rejects(env, rest) then db else Fold(env, rest, db)) == Fold(env, rest, db)) <==>
            (Rejects(env, rest) ==> forall r :: r in rest ==> NoEffect(env, r))
    ensures (forall r :: r in rest ==> Refused(env, r)) ==> forall r :: r in rest ==> NoEffect(env, r)
  {
    ResumedParks(env, rest);
    FoldIdentity(env, rest);
    hide Rejects, Fold, BatchParks, GroupParks, ValidDB, Refused;
    forall r | r in rest && Refused(env, r) ensures NoEffect(env, r) {
      assert Sound(env, r);
    }
  }

  lemma ResumedParks(env: Env, rest: seq<Record>)
    requires OneSpelling(env, rest)
    ensures BatchParks(env, rest) == GroupParks(env, rest) <==>
            (Rejects(env, rest) ==> forall r :: r in rest ==> Refused(env, r))
  {
    hide Refused, Rejects, BatchRejects, RefusedIn;
    RefusedAll(env, rest);
    if BatchRejects(env, rest) { BatchRejectsRejects(env, rest); }
    RejectsNone(env);
    if rest != [] && forall r :: r in rest ==> Refused(env, r) { AllRefusedRejects(env, rest); }
  }

  /** The same where the barrier's batch goes on behind that transaction, with `more`. */
  lemma ResumedTailAmong(env: Env, rest: seq<Record>, more: seq<Record>)
    ensures var parks := if BatchRejects(env, rest + more) then RefusedIn(env, rest) else [];
            parks == GroupParks(env, rest) <==>
              if Rejects(env, rest) then BatchRejects(env, rest + more) && forall r :: r in rest ==> Refused(env, r)
              else BatchRejects(env, rest + more) ==> forall r :: r in rest ==> !Refused(env, r)
  {
    hide Refused, Rejects, BatchRejects;
    RefusedAll(env, rest);
    RejectsNone(env);
    forall r ensures r in RefusedIn(env, rest) <==> r in rest && Refused(env, r) { RefusedMembers(env, rest, r); }
    if RefusedIn(env, rest) != [] {
      assert RefusedIn(env, rest)[0] in RefusedIn(env, rest);
    }
  }

  lemma AllRefusedFold(env: Env, rs: seq<Record>, db: DB)
    requires AllSound(env, rs) && NoKeymove(env, rs) && forall r :: r in rs ==> Refused(env, r)
    ensures Fold(env, rs, db) == db
  {
    hide Fold, Refused;
    forall r | r in rs ensures env.drop(r) { assert Sound(env, r); }
    DroppedFold(env, rs, db);
  }

  lemma AllRefusedRejects(env: Env, rs: seq<Record>)
    requires rs != [] && forall r :: r in rs ==> Refused(env, r)
    ensures BatchRejects(env, rs)
  {
    var n := rs[|rs| - 1].table;
    var bucket := ByName(rs, n);
    var p: nat := |bucket| - 1;
    ByNameMembers(rs, n, bucket[p]);
    assert !Overwritten(env, bucket, p);
    assert Rejects(env, bucket);
  }
}
