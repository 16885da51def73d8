/** The replicat run: transaction-aligned chunks of the trail, segmented into atomic groups and
    barrier runs, applied with the cursor persisted behind each. */
module TxnChunks {
  import opened Records
  import opened Store

  datatype Segment = Atomic(recs: seq<Record>) | Barrier(recs: seq<Record>)

  function Join(segs: seq<Segment>): seq<Record> {
    if segs == [] then [] else Join(segs[..|segs| - 1]) + segs[|segs| - 1].recs
  }

  ghost predicate Untagged(rs: seq<Record>) {
    forall r :: r in rs ==> r.txnId.None?
  }

  /** All of `rs` carries one transaction tag. */
  ghost predicate SameTxn(rs: seq<Record>) {
    forall i, j :: 0 <= i < |rs| && 0 <= j < |rs| ==> rs[i].txnId == rs[j].txnId
  }

  /** The records before `to` end in a tagged run that nothing certifies as complete: no
      terminator, and no record of another transaction behind it. */
  ghost predicate HeldTail(all: seq<Record>, from: nat, to: nat) {
    from < to <= |all| && all[from].txnId.Some? && SameTxn(all[from..to]) && !all[to - 1].txnEnd
  }

  /** A chunk may end before `to`: the last record is untagged, ends its transaction, or is
      followed by a record of another transaction. */
  ghost predicate Certified(all: seq<Record>, to: nat) {
    0 < to <= |all| &&
    (all[to - 1].txnId.None? || all[to - 1].txnEnd ||
     (to < |all| && all[to].txnId != all[to - 1].txnId))
  }

  /** Record `i` shares its transaction with a move. */
  ghost predicate MoveNear(env: Env, rs: seq<Record>, i: nat) {
    exists p: nat, q: nat :: MoveWithin(env, rs, i, p, q)
  }

  ghost predicate MoveWithin(env: Env, rs: seq<Record>, i: nat, p: nat, q: nat) {
    p <= i < q <= |rs| && SameTxn(rs[p..q]) && !NoKeymove(env, rs[p..q])
  }

  /** An atomic segment is a tagged run without a move; a barrier segment is not empty and holds untagged
      records and records of transactions with a move. */
  ghost predicate GoodSegment(env: Env, s: Segment) {
    && s.recs != []
    && (s.Atomic? ==> s.recs[0].txnId.Some? && SameTxn(s.recs) && NoKeymove(env, s.recs))
    && (s.Barrier? ==> forall i: nat :: i < |s.recs| && s.recs[i].txnId.Some? ==> MoveNear(env, s.recs, i))
  }

  /** `follow` does not continue the transaction at the end of the segment. */
  ghost predicate Ends(s: Segment, follow: seq<Record>) {
    s.recs != [] && follow != [] && s.recs[|s.recs| - 1].txnId.Some? ==>
      follow[0].txnId != s.recs[|s.recs| - 1].txnId
  }

  /** No segment stops inside a run of one transaction. */
  ghost predicate WholeRuns(segs: seq<Segment>, rest: seq<Record>) {
    forall j :: 0 <= j < |segs| ==> Ends(segs[j], After(segs, j, rest))
  }

  /** What follows segment `j`. */
  function After(segs: seq<Segment>, j: nat, rest: seq<Record>): seq<Record> {
    if j + 1 < |segs| then segs[j + 1].recs else rest
  }

  lemma JoinOne(segs: seq<Segment>, s: Segment)
    ensures Join(segs + [s]) == Join(segs) + s.recs
  {
    assert (segs + [s])[..|segs|] == segs;
  }

  lemma JoinUpTo(segs: seq<Segment>, j: nat)
    requires j < |segs|
    ensures Join(segs[..j + 1]) == Join(segs[..j]) + segs[j].recs
    ensures Join(segs) == Join(segs[..j]) + segs[j].recs + Join(segs[j + 1..])
    decreases |segs| - j
  {
    CutAround(segs, j);
    hide Join;
    JoinOne(segs[..j], segs[j]);
    JoinSplit(segs[..j + 1], segs[j + 1..]);
  }

  lemma CutAround<T>(s: seq<T>, j: nat)
    requires j < |s|
    ensures s[..j + 1] == s[..j] + [s[j]] && s[..j + 1] + s[j + 1..] == s
  {
  }

  lemma JoinHead(segs: seq<Segment>)
    requires segs != []
    ensures Join(segs) == segs[0].recs + Join(segs[1..])
  {
    assert segs == [segs[0]] + segs[1..];
    JoinSplit([segs[0]], segs[1..]);
    assert Join([segs[0]]) == Join([]) + segs[0].recs by {
      assert [segs[0]][..0] == [];
    }
  }

  lemma {:induction false} JoinSplit(a: seq<Segment>, b: seq<Segment>)
    ensures Join(a + b) == Join(a) + Join(b)
  {
    if b == [] {
      assert a + b == a;
    } else {
      assert (a + b)[..|a + b| - 1] == a + b[..|b| - 1];
      JoinSplit(a, b[..|b| - 1]);
    }
  }

  lemma AddSegment(env: Env, segs: seq<Segment>, s: Segment, rest: seq<Record>)
    requires forall j :: 0 <= j < |segs| ==> GoodSegment(env, segs[j])
    requires GoodSegment(env, s) && WholeRuns(segs, s.recs + rest)
    requires Ends(s, rest)
    ensures forall j :: 0 <= j < |segs + [s]| ==> GoodSegment(env, (segs + [s])[j])
    ensures WholeRuns(segs + [s], rest) && Join(segs + [s]) == Join(segs) + s.recs
  {
    hide Join;
    JoinOne(segs, s);
    var next := segs + [s];
    forall j | 0 <= j < |next|
      ensures GoodSegment(env, next[j])
      ensures Ends(next[j], After(next, j, rest))
    {
      if j < |segs| {
        assert next[j] == segs[j];
        assert Ends(segs[j], After(segs, j, s.recs + rest));
        if j + 1 < |segs| {
          assert next[j + 1] == segs[j + 1];
        } else {
          assert (s.recs + rest)[0] == s.recs[0];
        }
      }
    }
  }

  /** Splits a chunk, in order, into atomic groups and barrier runs. */
  method SegmentForApply(env: Env, rs: seq<Record>, enabled: bool) returns (segs: seq<Segment>)
    ensures Join(segs) == rs
    ensures enabled ==> forall j :: 0 <= j < |segs| ==> GoodSegment(env, segs[j])
    ensures !enabled ==> forall j :: 0 <= j < |segs| ==> segs[j].Barrier?
    ensures WholeRuns(segs, [])
  {
    if !enabled || rs == [] {
      JoinOne([], Barrier(rs));
      return if rs == [] then [] else [] + [Barrier(rs)];
    }
    hide Segmented, SameTxn, Untagged, GoodSegment, WholeRuns, Join;
    segs := [];
    var i, barrier: seq<Record> := 0, [];
    NothingSegmented(env, rs);
    while i < |rs|
      invariant 0 <= i <= |rs|
      invariant Segmented(env, segs, barrier, rs, i)
    {
      var k := i + 1;
      OneRecord(rs, i);
      if rs[i].txnId.Some? {
        k := RunEnd(rs, i);
      }
      var group := rs[i..k];
      if rs[i].txnId.Some? && forall r :: r in group ==> !IsKeymove(env, r) {
        if barrier != [] {
          CloseBarrier(env, segs, barrier, rs, i);
          segs, barrier := segs + [Barrier(barrier)], [];
        }
        AddGroup(env, segs, rs, i, k);
        segs := segs + [Atomic(group)];
      } else {
        GrowBarrier(env, segs, barrier, rs, i, k);
        barrier := barrier + group;
      }
      i := k;
    }
    if barrier != [] {
      CloseBarrier(env, segs, barrier, rs, i);
      segs, barrier := segs + [Barrier(barrier)], [];
    }
    AllSegmented(env, segs, rs);
  }

  lemma OneRecord(rs: seq<Record>, i: nat)
    requires i < |rs|
    ensures SameTxn(rs[i..i + 1]) && (rs[i].txnId.None? ==> Untagged(rs[i..i + 1]))
  {
  }

  /** The segments emitted and the barrier pending after the first `i` records. */
  ghost predicate Segmented(env: Env, segs: seq<Segment>, barrier: seq<Record>, rs: seq<Record>, i: nat) {
    && i <= |rs|
    && Join(segs) + barrier == rs[..i]
    && (forall j :: 0 <= j < |segs| ==> GoodSegment(env, segs[j]))
    && (barrier != [] ==> GoodSegment(env, Barrier(barrier)) && Ends(Barrier(barrier), rs[i..]))
    && WholeRuns(segs, barrier + rs[i..])
  }

  lemma NothingSegmented(env: Env, rs: seq<Record>)
    ensures Segmented(env, [], [], rs, 0)
  {
  }

  lemma AllSegmented(env: Env, segs: seq<Segment>, rs: seq<Record>)
    requires Segmented(env, segs, [], rs, |rs|)
    ensures Join(segs) == rs && WholeRuns(segs, [])
    ensures forall j :: 0 <= j < |segs| ==> GoodSegment(env, segs[j])
  {
    assert rs[..|rs|] == rs && [] + rs[|rs|..] == [];
    assert Join(segs) + [] == Join(segs);
  }

  lemma CloseBarrier(env: Env, segs: seq<Segment>, barrier: seq<Record>, rs: seq<Record>, i: nat)
    requires Segmented(env, segs, barrier, rs, i) && barrier != []
    ensures Segmented(env, segs + [Barrier(barrier)], [], rs, i)
  {
    hide Join, Ends, GoodSegment, WholeRuns;
    AddSegment(env, segs, Barrier(barrier), rs[i..]);
    Ended(Join(segs) + barrier, rs[i..]);
  }

  lemma Ended<T>(a: seq<T>, b: seq<T>)
    ensures a + [] == a && [] + b == b
  {
  }

  lemma AddGroup(env: Env, segs: seq<Segment>, rs: seq<Record>, i: nat, k: nat)
    requires Segmented(env, segs, [], rs, i) && i < k <= |rs|
    requires rs[i].txnId.Some? && SameTxn(rs[i..k]) && NoKeymove(env, rs[i..k])
    requires k < |rs| ==> rs[k].txnId != rs[i].txnId
    ensures Segmented(env, segs + [Atomic(rs[i..k])], [], rs, k)
  {
    hide Join;
    assert [] + rs[i..] == rs[i..k] + rs[k..];
    AddSegment(env, segs, Atomic(rs[i..k]), rs[k..]);
    assert [] + rs[k..] == rs[k..];
    assert Join(segs) + [] == Join(segs);
    assert rs[..k] == rs[..i] + rs[i..k];
    assert Join(segs) + rs[i..k] + [] == rs[..k];
  }

  lemma GrowBarrier(env: Env, segs: seq<Segment>, barrier: seq<Record>, rs: seq<Record>, i: nat, k: nat)
    requires Segmented(env, segs, barrier, rs, i) && i < k <= |rs|
    requires !NoKeymove(env, rs[i..k]) || Untagged(rs[i..k])
    requires SameTxn(rs[i..k]) && (k < |rs| && rs[i].txnId.Some? ==> rs[k].txnId != rs[i].txnId)
    ensures Segmented(env, segs, barrier + rs[i..k], rs, k)
  {
    BarrierEnds(barrier, rs, i, k);
    hide Join, Ends, GoodSegment, WholeRuns, SameTxn, NoKeymove, Untagged;
    MovesNear(env, barrier, rs[i..k]);
    SliceSteps(rs, i, k);
    GrownSegmented(env, segs, barrier, rs[i..k], rs[k..], rs, i, k);
  }

  /** The parts of `Segmented` once the barrier has taken up `more`. */
  lemma GrownSegmented(env: Env, segs: seq<Segment>, barrier: seq<Record>, more: seq<Record>, rest: seq<Record>,
                       rs: seq<Record>, i: nat, k: nat)
    requires Segmented(env, segs, barrier, rs, i) && i <= k <= |rs|
    requires rs[i..] == more + rest && rs[k..] == rest && rs[..k] == rs[..i] + more
    requires GoodSegment(env, Barrier(barrier + more)) && Ends(Barrier(barrier + more), rest)
    ensures Segmented(env, segs, barrier + more, rs, k)
  {
    hide Join, Ends, GoodSegment, WholeRuns;
    BarrierGrows(segs, barrier, more, rest);
    GrownJoin(segs, barrier, more, rs[..i]);
  }

  lemma GrownJoin(segs: seq<Segment>, barrier: seq<Record>, more: seq<Record>, before: seq<Record>)
    requires Join(segs) + barrier == before
    ensures Join(segs) + (barrier + more) == before + more
  {
    hide Join;
    Regroup(Join(segs), barrier, more);
  }

  lemma Regroup<T>(a: seq<T>, b: seq<T>, c: seq<T>)
    ensures a + (b + c) == (a + b) + c
  {
  }

  lemma SliceSteps(rs: seq<Record>, i: nat, k: nat)
    requires i < k <= |rs|
    ensures rs[i..] == rs[i..k] + rs[k..] && rs[..k] == rs[..i] + rs[i..k]
  {
  }

  lemma BarrierEnds(barrier: seq<Record>, rs: seq<Record>, i: nat, k: nat)
    requires i < k <= |rs| && SameTxn(rs[i..k]) && (k < |rs| && rs[i].txnId.Some? ==> rs[k].txnId != rs[i].txnId)
    ensures Ends(Barrier(barrier + rs[i..k]), rs[k..])
  {
    assert rs[i..k][0] == rs[i] && rs[i..k][k - i - 1] == rs[k - 1];
  }

  lemma BarrierGrows(segs: seq<Segment>, barrier: seq<Record>, more: seq<Record>, rest: seq<Record>)
    requires WholeRuns(segs, barrier + (more + rest))
    ensures WholeRuns(segs, (barrier + more) + rest)
  {
    Regroup(barrier, more, rest);
  }

  lemma MovesNear(env: Env, barrier: seq<Record>, more: seq<Record>)
    requires barrier == [] || GoodSegment(env, Barrier(barrier))
    requires more != [] && SameTxn(more) && (!NoKeymove(env, more) || Untagged(more))
    ensures GoodSegment(env, Barrier(barrier + more))
  {
    hide SameTxn, NoKeymove;
    var all := barrier + more;
    forall i: nat | i < |all| && all[i].txnId.Some? ensures MoveNear(env, all, i) {
      if i < |barrier| {
        assert MoveNear(env, barrier, i);
        var p: nat, q: nat :| MoveWithin(env, barrier, i, p, q);
        assert all[p..q] == barrier[p..q];
        assert MoveWithin(env, all, i, p, q);
      } else {
        assert all[|barrier|..|all|] == more && all[i] in more;
        assert MoveWithin(env, all, i, |barrier|, |all|);
      }
    }
  }

  /** What a segmentation makes of one transaction, or of what a crash behind its moves left of it: a
      transaction with a move goes through the barrier record by record, but its move-free rest, taken
      up again from the persisted cursor, is one atomic group.  So whether the poison policy parks
      single records of it or all of them depends on where a run was interrupted. */
  lemma RegroupedTail(env: Env, rs: seq<Record>, segs: seq<Segment>)
    requires rs != [] && SameTxn(rs) && rs[0].txnId.Some?
    requires segs != [] && Join(segs) == rs && WholeRuns(segs, [])
    requires forall j :: 0 <= j < |segs| ==> GoodSegment(env, segs[j])
    ensures segs == [if NoKeymove(env, rs) then Atomic(rs) else Barrier(rs)]
  {
    OneSegment(env, rs, segs);
    hide *;
    SegmentKind(env, rs, segs[0]);
  }

  /** A segment of one tagged transaction is atomic exactly if it has no move. */
  lemma SegmentKind(env: Env, rs: seq<Record>, s: Segment)
    requires GoodSegment(env, s) && s.recs == rs && rs != [] && rs[0].txnId.Some?
    ensures s == if NoKeymove(env, rs) then Atomic(rs) else Barrier(rs)
  {
    hide SameTxn, NoKeymove, MoveNear;
    if s.Barrier? {
      NearMove(env, rs, 0);
    }
  }

  lemma OneSegment(env: Env, rs: seq<Record>, segs: seq<Segment>)
    requires rs != [] && SameTxn(rs) && rs[0].txnId.Some?
    requires segs != [] && Join(segs) == rs && WholeRuns(segs, [])
    requires forall j :: 0 <= j < |segs| ==> GoodSegment(env, segs[j])
    ensures segs == [segs[0]] && segs[0].recs == rs
    ensures GoodSegment(env, segs[0])
  {
    hide *;
    FirstSegment(env, rs, segs);
    NoSeams(rs);
  }

  lemma NoSeams(rs: seq<Record>)
    requires SameTxn(rs)
    ensures forall k: nat :: 0 < k < |rs| ==> rs[k].txnId == rs[k - 1].txnId
    ensures forall k: nat :: k < |rs| ==> rs[k].txnId == rs[0].txnId
  {
  }

  lemma NearMove(env: Env, rs: seq<Record>, i: nat)
    requires MoveNear(env, rs, i)
    ensures !NoKeymove(env, rs)
  {
    hide IsKeymove;
    var p: nat, q: nat :| MoveWithin(env, rs, i, p, q);
    var r :| r in rs[p..q] && IsKeymove(env, r);
    assert r in rs;
  }

  /** The first segment ends where a transaction does. */
  lemma FirstSegment(env: Env, rs: seq<Record>, segs: seq<Segment>)
    requires segs != [] && Join(segs) == rs && WholeRuns(segs, [])
    requires forall j :: 0 <= j < |segs| ==> GoodSegment(env, segs[j])
    ensures if |segs| == 1 then rs == segs[0].recs
            else
              0 < |segs[0].recs| < |rs| &&
              (rs[|segs[0].recs| - 1].txnId.Some? ==> rs[|segs[0].recs|].txnId != rs[|segs[0].recs| - 1].txnId)
  {
    JoinHead(segs);
    assert GoodSegment(env, segs[0]);
    if |segs| > 1 {
      assert GoodSegment(env, segs[1]) && Ends(segs[0], segs[1].recs) by {
        assert Ends(segs[0], After(segs, 0, []));
      }
      JoinHead(segs[1..]);
      hide Join, SameTxn;
      SeamAt(segs[0].recs, segs[1].recs, Join(segs[1..][1..]), rs);
    } else {
      JoinNone();
      assert segs[1..] == [];
    }
  }

  lemma SeamAt(a: seq<Record>, b: seq<Record>, c: seq<Record>, rs: seq<Record>)
    requires a != [] && b != [] && rs == a + (b + c)
    ensures |a| < |rs| && rs[|a| - 1] == a[|a| - 1] && rs[|a|] == b[0]
  {
  }

  lemma JoinNone()
    ensures Join([]) == []
  {
  }

  /** The end of the maximal same-transaction run that starts at `i`. */
  method RunEnd(rs: seq<Record>, i: nat) returns (k: nat)
    requires i < |rs|
    ensures i < k <= |rs| && SameTxn(rs[i..k])
    ensures k < |rs| ==> rs[k].txnId != rs[i].txnId
  {
    k := i;
    while k < |rs| && rs[k].txnId == rs[i].txnId
      invariant i <= k <= |rs|
      invariant forall j :: i <= j < k ==> rs[j].txnId == rs[i].txnId
    {
      k := k + 1;
    }
  }
}

module Engine {
  import opened Records
  import opened Store
  import opened Replay
  import opened TrailLog
  import opened TxnChunks

  lemma StillPrefix(all: seq<Record>, have: nat, n: nat, k: nat)
    requires have + n <= |all| && k <= n
    ensures Lines(all[..have]) + Lines(all[have..have + n][..k]) == Lines(all[..have + k])
  {
    assert all[have..have + n][..k] == all[have..have + k];
    assert all[..have] + all[have..have + k] == all[..have + k];
  }

  lemma CertifiedAt(all: seq<Record>, k: nat, to: nat)
    requires 0 < to <= k <= |all|
    ensures Certified(all[..k], to) <==>
              || all[to - 1].txnId.None? || all[to - 1].txnEnd
              || (to < k && all[to].txnId != all[to - 1].txnId)
  {
  }

  lemma HeldFrom(all: seq<Record>, from: nat, to: nat)
    requires from < to <= |all| && all[to - 1].txnId.Some? && !all[to - 1].txnEnd
    requires forall i :: from <= i < to ==> all[i].txnId == all[to - 1].txnId
    ensures HeldTail(all, from, to)
  {
  }

  /** The records `all[start..next]` and the first `cut` of those behind them, all with one id from `from` on. */
  lemma RunGrows(all: seq<Record>, start: nat, from: nat, next: nat, more: seq<Record>, cut: nat, id: Option<int>)
    requires start <= next && from <= next && next + |more| <= |all| && more == all[next..next + |more|]
    requires cut <= |more| && forall i :: 0 <= i < cut ==> more[i].txnId == id
    requires forall i :: from <= i < next ==> all[i].txnId == id
    ensures all[start..next] + more[..cut] == all[start..next + cut]
    ensures forall i :: from <= i < next + cut ==> all[i].txnId == id
    ensures cut < |more| ==> all[next + cut] == more[cut]
  {
    forall i | from <= i < next + cut ensures all[i].txnId == id {
      if i >= next { assert all[i] == more[i - next]; }
    }
  }

  lemma SliceRecs(log: seq<Line>, all: seq<Record>, a: nat, b: nat)
    requires |log| <= |all| && log == Lines(all[..|log|]) && a <= b <= |log|
    ensures Recs(log[a..b]) == all[a..b]
  {
    hide Recs;
    assert log[a..b] == Lines(all[a..b]);
    RecsOfLines(all[a..b]);
  }

  /** One extract's apply side.  `all` is everything its extracts will ever append: at any moment the
      trail holds a prefix of it, and another process may extend that prefix between two reads. */
  class TrailReader {
    const trail: Trail
    const all: seq<Record>

    constructor (trail: Trail, all: seq<Record>)
      ensures this.trail == trail && this.all == all
    {
      this.trail, this.all := trail, all;
    }

    ghost predicate Valid()
      reads trail
    {
      trail.Reconciled() && |trail.log| <= |all| && trail.log == Lines(all[..|trail.log|])
    }

    /** Another process runs an extract, which may die at any byte. */
    method Interfere()
      requires Valid()
      modifies trail`segs, trail`log
      ensures Valid() && |old(trail.log)| <= |trail.log| <= |all|
    {
      hide Concat, Ordered, Holds, CacheRight, LeftoverIn;
      var acts, n: nat := *, *;
      if !acts { return; }
      var _ := trail.HealTornTail();
      var have := trail.LineCount();
      if n > |all| - have { return; }
      ghost var before := trail.log;
      var _ := trail.ConcurrentAppend(all[have..have + n]);
      ghost var k :| 0 <= k <= n && trail.log == before + Lines(all[have..have + n][..k]);
      StillPrefix(all, have, n, k);
    }

    /** The records after line `cursor`, at most `limit`; a trail of records never fails to read. */
    method ReadRecords(cursor: nat, limit: Option<nat>) returns (records: seq<Record>, to: nat)
      requires Valid() && trail.purged <= cursor <= |trail.log| && (limit.Some? ==> limit.value > 0)
      modifies trail`segs, trail`log, trail`cache
      ensures Valid() && |old(trail.log)| <= |trail.log|
      ensures cursor <= to <= |trail.log| && records == all[cursor..to]
      ensures limit.Some? ==> to - cursor <= limit.value
      ensures to < |trail.log| ==> limit.Some? && to - cursor == limit.value
      ensures to == cursor ==> cursor == |trail.log|
      ensures |trail.log| <= |all|
    {
      hide Recs;
      Interfere();
      var res := trail.Read(cursor, limit);
      assert res.Slice?;
      records, to := res.records, res.cursor;
      SliceRecs(trail.log, all, cursor, to);
    }

    /** The next chunk: whole transactions only, and none that nothing certifies as complete. */
    method ReadTxnAligned(start: nat, limit: Option<nat>, enabled: bool)
      returns (records: seq<Record>, next: nat)
      requires Valid() && trail.purged <= start <= |trail.log| && (limit.Some? ==> limit.value > 0)
      modifies trail`segs, trail`log, trail`cache
      ensures Valid() && |old(trail.log)| <= |trail.log| <= |all|
      ensures start <= next <= |trail.log| && records == all[start..next]
      ensures enabled && records != [] ==> Certified(all[..|trail.log|], next)
      ensures records == [] ==> Exhausted(start, |old(trail.log)|, |trail.log|, enabled)
      ensures limit.Some? && next - start > limit.value ==>
                forall i :: start + limit.value <= i < next ==> all[i].txnId == all[start + limit.value - 1].txnId
    {
      hide Valid, HeldTail;
      records, next := ReadRecords(start, limit);
      if !enabled || records == [] {
        return;
      }
      if limit.Some? && records[|records| - 1].txnId.Some? {
        records, next := Overshoot(start, next, limit);
      }
      records, next := HoldIncompleteTxnTail(start, next, |old(trail.log)|);
    }

    /** Nothing is left to apply after `start`: it is the end of the trail, or everything behind it
        up to some later end `n` of the trail is an uncertified transaction tail. */
    ghost predicate Exhausted(start: nat, from: nat, to: nat, enabled: bool) {
      from <= start == to || (enabled && exists n :: from <= n <= to && HeldTail(all, start, n))
    }

    /** Extends a bounded read until its last transaction ends or the trail does. */
    method Overshoot(start: nat, from: nat, limit: Option<nat>) returns (records: seq<Record>, next: nat)
      requires Valid() && trail.purged <= start < from <= |trail.log| <= |all|
      requires limit.Some? && limit.value > 0 && all[from - 1].txnId.Some?
      requires from - start <= limit.value
      requires from < |trail.log| ==> from - start == limit.value
      modifies trail`segs, trail`log, trail`cache
      ensures Valid() && |old(trail.log)| <= |trail.log| <= |all|
      ensures from <= next <= |trail.log| && records == all[start..next]
      ensures forall i :: from - 1 <= i < next ==> all[i].txnId == all[from - 1].txnId
      ensures next >= |old(trail.log)| || (next < |trail.log| && all[next].txnId != all[next - 1].txnId)
    {
      hide Valid;
      var last := all[from - 1].txnId;
      records, next := all[start..from], from;
      while true
        invariant Valid() && |old(trail.log)| <= |trail.log| <= |all| && trail.purged <= start
        invariant from <= next <= |trail.log| && records == all[start..next]
        invariant forall i :: from - 1 <= i < next ==> all[i].txnId == last
        decreases |all| - next
      {
        var more, nc := ReadRecords(next, limit);
        if more == [] {
          return;
        }
        var cut := 0;
        while cut < |more| && more[cut].txnId == last
          invariant 0 <= cut <= |more|
          invariant forall i :: 0 <= i < cut ==> more[i].txnId == last
        {
          cut := cut + 1;
        }
        RunGrows(all, start, from - 1, next, more, cut, last);
        records := records + more[..cut];
        next := next + cut;
        if cut < |more| {
          return;
        }
      }
    }

    /** Gives up the trailing transaction of the chunk when nothing certifies it as complete. */
    method HoldIncompleteTxnTail(start: nat, upto: nat, ghost seen: nat)
      returns (records: seq<Record>, next: nat)
      requires Valid() && trail.purged <= start < upto <= |trail.log| <= |all|
      requires upto >= seen || (upto < |trail.log| && all[upto].txnId != all[upto - 1].txnId) ||
               all[upto - 1].txnId.None?
      modifies trail`segs, trail`log, trail`cache
      ensures Valid() && |old(trail.log)| <= |trail.log| <= |all|
      ensures start <= next <= upto && records == all[start..next]
      ensures records != [] ==> Certified(all[..|trail.log|], next)
      ensures next < upto ==> seen <= upto && HeldTail(all, next, upto)
    {
      hide Valid, Certified, HeldTail;
      records, next := all[start..upto], upto;
      var last := all[upto - 1];
      CertifiedAt(all, |trail.log|, upto);
      if last.txnId.None? || last.txnEnd {
        return;
      }
      var nxt, _ := ReadRecords(upto, Some(1));
      CertifiedAt(all, |trail.log|, upto);
      if nxt != [] && nxt[0].txnId != last.txnId {
        return;
      }
      while next > start && all[next - 1].txnId == last.txnId
        invariant start <= next <= upto
        invariant forall i :: next <= i < upto ==> all[i].txnId == last.txnId
      {
        next := next - 1;
      }
      records := records[..next - start];
      if next > start { CertifiedAt(all, |trail.log|, next); }
      HeldFrom(all, next, upto);
    }
  }
}
