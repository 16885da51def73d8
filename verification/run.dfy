/** Whole replicat runs, any number of them, interrupted anywhere. */
module RunLemmas {
  import opened Records
  import opened Store
  import opened Replay
  import opened ApplyLemmas
  import opened TxnChunks
  import opened Rejection
  import opened Poison
  import opened LiveLog

  /** From the persisted cursor on, the log still leads to what a clean pass leads to. */
  ghost predicate Converging(env: Env, all: seq<Record>, gone: set<nat>, c0: nat, db0: DB, cursor: nat, db: DB) {
    && c0 <= cursor <= |all|
    && Fold(env, Live(all, gone, cursor, |all|), db) == Fold(env, Live(all, gone, c0, |all|), db0)
  }

  /** The target is exactly where the persisted cursor says. */
  ghost predicate Exact(env: Env, all: seq<Record>, gone: set<nat>, c0: nat, db0: DB, cursor: nat, db: DB) {
    c0 <= cursor <= |all| && db == Fold(env, Live(all, gone, c0, cursor), db0)
  }

  lemma ExactConverges(env: Env, all: seq<Record>, gone: set<nat>, c0: nat, db0: DB, cursor: nat, db: DB)
    requires Exact(env, all, gone, c0, db0, cursor, db)
    ensures Converging(env, all, gone, c0, db0, cursor, db)
  {
    hide Fold, Live;
    LiveJoin(all, gone, c0, cursor, |all|);
    FoldConcat(env, Live(all, gone, c0, cursor), Live(all, gone, cursor, |all|), db0);
  }

  lemma ExactStart(env: Env, all: seq<Record>, gone: set<nat>, c0: nat, db0: DB)
    requires c0 <= |all|
    ensures Exact(env, all, gone, c0, db0, c0, db0)
  {
  }

  /** A run's view of convergence composes with the history before it. */
  lemma ConvergingCompose(env: Env, all: seq<Record>, gone: set<nat>, c0: nat, db0: DB, c1: nat, db1: DB,
                          c2: nat, db2: DB)
    requires Converging(env, all, gone, c0, db0, c1, db1) && Converging(env, all, gone, c1, db1, c2, db2)
    ensures Converging(env, all, gone, c0, db0, c2, db2)
  {
  }

  /** A stretch of the log applied in part, with the cursor persisted inside it or around it. */
  lemma StretchConverges(env: Env, all: seq<Record>, gone: set<nat>, c0: nat, db0: DB, base: nat, e: nat,
                         before: DB, cursor: nat, now: DB)
    requires base <= cursor <= e <= |all| && Exact(env, all, gone, c0, db0, base, before)
    requires Fold(env, Live(all, gone, cursor, e), now) == Fold(env, Live(all, gone, base, e), before)
    ensures Converging(env, all, gone, c0, db0, cursor, now)
    ensures now == Fold(env, Live(all, gone, base, e), before) ==> Exact(env, all, gone, c0, db0, e, now)
    ensures cursor == e ==> Exact(env, all, gone, c0, db0, e, now)
  {
    assert cursor == e ==> Fold(env, Live(all, gone, cursor, e), now) == now;
    hide Fold, Live;
    var rest := Live(all, gone, e, |all|);
    LiveJoin(all, gone, cursor, e, |all|);
    LiveJoin(all, gone, base, e, |all|);
    LiveJoin(all, gone, c0, base, e);
    FoldConcat(env, Live(all, gone, cursor, e), rest, now);
    FoldConcat(env, Live(all, gone, base, e), rest, before);
    FoldConcat(env, Live(all, gone, c0, base), Live(all, gone, base, e), db0);
    ExactConverges(env, all, gone, c0, db0, base, before);
  }

  /** A segment of the clean pass, applied in part. */
  lemma SegmentConverges(env: Env, all: seq<Record>, gone: set<nat>, c0: nat, db0: DB, base: nat, seg: seq<Record>,
                         before: DB, cursor: nat, now: DB)
    requires base + |seg| <= |all| && seg == all[base..base + |seg|] && base <= cursor <= base + |seg|
    requires Exact(env, all, gone, c0, db0, base, before) && NoneGone(gone, base, base + |seg|)
    requires Fold(env, seg[cursor - base..], now) == Fold(env, seg, before)
    ensures Converging(env, all, gone, c0, db0, cursor, now)
    ensures now == Fold(env, seg, before) ==> Exact(env, all, gone, c0, db0, base + |seg|, now)
    ensures cursor == base + |seg| ==> Exact(env, all, gone, c0, db0, base + |seg|, now)
  {
    hide Fold, Live;
    LiveAll(all, gone, base, base + |seg|);
    LiveAll(all, gone, cursor, base + |seg|);
    assert all[cursor..base + |seg|] == seg[cursor - base..];
    StretchConverges(env, all, gone, c0, db0, base, base + |seg|, before, cursor, now);
  }

  /** A rejected transaction changes nothing, and the clean pass is not changed by it either. */
  lemma GroupLeftOut(env: Env, all: seq<Record>, gone: set<nat>, c0: nat, db0: DB, base: nat, s: Segment,
                     before: DB, cursor: nat, retries: nat)
    requires base + |s.recs| <= |all| && s.recs == all[base..base + |s.recs|]
    requires cursor == base || cursor == base + |s.recs|
    requires Exact(env, all, gone, c0, db0, base, before)
    requires s.Atomic? && NoKeymove(env, s.recs) && AllSound(env, s.recs)
    requires Agrees(env, gone, base, s, retries) && retries > 0 && Rejects(env, s.recs)
    ensures Converging(env, all, gone, c0, db0, cursor, before)
    ensures cursor == base + |s.recs| ==> Exact(env, all, gone, c0, db0, base + |s.recs|, before)
  {
    var e := base + |s.recs|;
    if AllGone(gone, base, e) {
      LiveNone(all, gone, base, e);
      FoldNothing(env, before);
    } else {
      hide Fold, Live, Rejects, Refused;
      LiveAll(all, gone, base, e);
      AllRefusedFold(env, s.recs, before);
    }
    LiveAll(all, gone, e, e);
    FoldNothing(env, before);
    hide Fold, Live, Rejects, Refused;
    assert all[e..e] == [];
    StretchConverges(env, all, gone, c0, db0, base, e, before, cursor, before);
  }

  lemma SubSound(env: Env, all: seq<Record>, a: nat, b: nat)
    requires a <= b <= |all| && AllSound(env, all) && OneSpelling(env, all)
    ensures AllSound(env, all[a..b]) && OneSpelling(env, all[a..b])
    ensures forall r :: r in all[a..b] ==> r in all
  {
    forall r | r in all[a..b] ensures r in all {
    }
  }

  // ---------------------------------------------------------------- transaction boundaries

  /** A log of whole tagged transactions: the terminator marks exactly the last record of each, and
      neighbouring transactions carry different tags. */
  ghost predicate TxnStream(all: seq<Record>) {
    forall i :: 0 <= i < |all| ==>
      all[i].txnId.Some? &&
      (all[i].txnEnd <==> (i + 1 == |all| || all[i + 1].txnId != all[i].txnId))
  }

  ghost predicate Boundary(all: seq<Record>, m: nat) {
    m <= |all| && (m == 0 || all[m - 1].txnEnd)
  }

  /** The state a clean pass has at some later transaction boundary. */
  ghost predicate BoundaryState(env: Env, all: seq<Record>, gone: set<nat>, c0: nat, db0: DB, db: DB) {
    exists m :: c0 < m <= |all| && Boundary(all, m) && db == Fold(env, Live(all, gone, c0, m), db0)
  }

  /** `e` ends the transaction that starts at `c`. */
  ghost predicate NextBoundary(all: seq<Record>, c: nat, e: nat) {
    c < e <= |all| && Boundary(all, e) && forall m :: c < m < e ==> !Boundary(all, m)
  }

  /** The target is where the cursor says, or one whole transaction further. */
  ghost predicate OneAhead(env: Env, all: seq<Record>, gone: set<nat>, c0: nat, db0: DB, cursor: nat, db: DB) {
    || Exact(env, all, gone, c0, db0, cursor, db)
    || exists e :: NextBoundary(all, cursor, e) && Exact(env, all, gone, c0, db0, e, db)
  }

  ghost predicate BoundaryStates(env: Env, all: seq<Record>, gone: set<nat>, c0: nat, db0: DB, h0: seq<DB>,
                                 h: seq<DB>) {
    h0 <= h && forall i :: |h0| <= i < |h| ==> BoundaryState(env, all, gone, c0, db0, h[i])
  }

  /** Starting over one transaction behind the target changes nothing beyond that transaction. */
  lemma ExactAfterReplay(env: Env, all: seq<Record>, gone: set<nat>, c0: nat, db0: DB, c1: nat, db1: DB, m: nat,
                         db: DB)
    requires NoKeymove(env, all) && c0 <= c1 && OneAhead(env, all, gone, c0, db0, c1, db1)
    requires Exact(env, all, gone, c1, db1, m, db) && Boundary(all, m) && c1 < m
    ensures Exact(env, all, gone, c0, db0, m, db)
  {
    hide Fold;
    if Exact(env, all, gone, c0, db0, c1, db1) {
      FoldConcat(env, Live(all, gone, c0, c1), Live(all, gone, c1, m), db0);
      LiveJoin(all, gone, c0, c1, m);
    } else {
      var e: nat :| NextBoundary(all, c1, e) && Exact(env, all, gone, c0, db0, e, db1);
      assert e <= m;
      var clean := Fold(env, Live(all, gone, c0, c1), db0);
      FoldConcat(env, Live(all, gone, c0, c1), Live(all, gone, c1, e), db0);
      LiveJoin(all, gone, c0, c1, e);
      FoldConcat(env, Live(all, gone, c1, e), Live(all, gone, e, m), db1);
      FoldConcat(env, Live(all, gone, c1, e), Live(all, gone, e, m), clean);
      LiveJoin(all, gone, c1, e, m);
      FoldConcat(env, Live(all, gone, c0, c1), Live(all, gone, c1, m), db0);
      LiveJoin(all, gone, c0, c1, m);
      WholeTwice(env, Live(all, gone, c1, e), clean) by {
        LiveMembers(all, gone, c1, e);
      }
    }
  }

  lemma OneAheadCompose(env: Env, all: seq<Record>, gone: set<nat>, c0: nat, db0: DB, c1: nat, db1: DB, c2: nat,
                        db2: DB)
    requires NoKeymove(env, all) && c0 <= c1 <= c2 && Boundary(all, c2)
    requires OneAhead(env, all, gone, c0, db0, c1, db1) && OneAhead(env, all, gone, c1, db1, c2, db2)
    ensures OneAhead(env, all, gone, c0, db0, c2, db2)
  {
    if Exact(env, all, gone, c1, db1, c2, db2) {
      if c1 == c2 {
        FoldNothing(env, db1);
      } else {
        ExactAfterReplay(env, all, gone, c0, db0, c1, db1, c2, db2);
      }
    } else {
      var e: nat :| NextBoundary(all, c2, e) && Exact(env, all, gone, c1, db1, e, db2);
      ExactAfterReplay(env, all, gone, c0, db0, c1, db1, e, db2);
    }
  }

  lemma StatesCompose(env: Env, all: seq<Record>, gone: set<nat>, c0: nat, db0: DB, c1: nat, db1: DB, h1: seq<DB>,
                      h: seq<DB>)
    requires NoKeymove(env, all) && c0 <= c1 && OneAhead(env, all, gone, c0, db0, c1, db1)
    requires BoundaryStates(env, all, gone, c1, db1, h1, h)
    ensures BoundaryStates(env, all, gone, c0, db0, h1, h)
  {
    forall i | |h1| <= i < |h| ensures BoundaryState(env, all, gone, c0, db0, h[i]) {
      assert BoundaryState(env, all, gone, c1, db1, h[i]);
      var m: nat :| c1 < m <= |all| && Boundary(all, m) && h[i] == Fold(env, Live(all, gone, c1, m), db1);
      ExactAfterReplay(env, all, gone, c0, db0, c1, db1, m, h[i]);
    }
  }

  /** The all-or-nothing guarantee from (`c0`, `db0`) on: the cursor is at a boundary, the target is
      there or one transaction further, and so was every state committed since history `h0`. */
  ghost predicate Aligned(env: Env, all: seq<Record>, gone: set<nat>, c0: nat, db0: DB, h0: seq<DB>,
                          cursor: nat, db: DB, h: seq<DB>) {
    && Boundary(all, cursor)
    && OneAhead(env, all, gone, c0, db0, cursor, db)
    && BoundaryStates(env, all, gone, c0, db0, h0, h)
  }

  lemma AlignedStart(env: Env, all: seq<Record>, gone: set<nat>, c0: nat, db0: DB, c: nat, db: DB, h: seq<DB>)
    requires Exact(env, all, gone, c0, db0, c, db) && Boundary(all, c)
    ensures Aligned(env, all, gone, c0, db0, h, c, db, h)
  {
  }

  lemma AlignedMore(env: Env, all: seq<Record>, gone: set<nat>, c0: nat, db0: DB, h0: seq<DB>, c1: nat, db1: DB,
                    h1: seq<DB>,
                    c2: nat, db2: DB, h2: seq<DB>)
    requires Aligned(env, all, gone, c0, db0, h0, c1, db1, h1) && Aligned(env, all, gone, c0, db0, h1, c2, db2, h2)
    ensures Aligned(env, all, gone, c0, db0, h0, c2, db2, h2)
  {
    forall i | |h0| <= i < |h2| ensures BoundaryState(env, all, gone, c0, db0, h2[i]) {
      if i < |h1| { assert h2[i] == h1[i]; }
    }
  }

  /** Whole runs compose, also when the second starts one transaction behind the target. */
  lemma AlignedCompose(env: Env, all: seq<Record>, gone: set<nat>, c0: nat, db0: DB, h0: seq<DB>, c1: nat, db1: DB,
                       h1: seq<DB>,
                       c2: nat, db2: DB, h2: seq<DB>)
    requires NoKeymove(env, all) && c0 <= c1 <= c2
    requires Aligned(env, all, gone, c0, db0, h0, c1, db1, h1) && Aligned(env, all, gone, c1, db1, h1, c2, db2, h2)
    ensures Aligned(env, all, gone, c0, db0, h0, c2, db2, h2)
  {
    OneAheadCompose(env, all, gone, c0, db0, c1, db1, c2, db2);
    StatesCompose(env, all, gone, c0, db0, c1, db1, h1, h2);
    forall i | |h0| <= i < |h2| ensures BoundaryState(env, all, gone, c0, db0, h2[i]) {
      if i < |h1| { assert h2[i] == h1[i]; }
    }
  }

  /** One atomic segment, wherever it stopped. */
  lemma AlignedSegment(env: Env, all: seq<Record>, gone: set<nat>, c0: nat, db0: DB, b: nat, s: Segment, db1: DB,
                       h1: seq<DB>,
                       cursor: nat, db: DB, h: seq<DB>)
    requires TxnStream(all) && GoodSegment(env, s) && s.Atomic? && c0 <= b
    requires b + |s.recs| <= |all| && s.recs == all[b..b + |s.recs|]
    requires Boundary(all, b) && Boundary(all, b + |s.recs|)
    requires || (cursor == b && Exact(env, all, gone, c0, db0, b, db))
             || ((cursor == b || cursor == b + |s.recs|) && Exact(env, all, gone, c0, db0, b + |s.recs|, db))
    requires h1 <= h
    requires forall i :: |h1| <= i < |h| ==> Exact(env, all, gone, c0, db0, b + |s.recs|, h[i])
    ensures Aligned(env, all, gone, c0, db0, h1, cursor, db, h)
  {
    GroupIsOne(all, b, b + |s.recs|);
    forall i | |h1| <= i < |h| ensures BoundaryState(env, all, gone, c0, db0, h[i]) {
      assert Exact(env, all, gone, c0, db0, b + |s.recs|, h[i]);
    }
  }

  /** A transaction group has no boundary inside. */
  lemma GroupIsOne(all: seq<Record>, b: nat, e: nat)
    requires TxnStream(all) && b < e <= |all| && SameTxn(all[b..e]) && Boundary(all, e)
    ensures NextBoundary(all, b, e)
  {
    forall m | b < m < e ensures !Boundary(all, m) {
      assert all[b..e][m - b] == all[m] && all[b..e][m - 1 - b] == all[m - 1];
    }
  }

  /** The conditions of the all-or-nothing guarantee. */
  ghost predicate AtomicMode(env: Env, all: seq<Record>, c0: nat, enabled: bool) {
    enabled && TxnStream(all) && NoKeymove(env, all) && Boundary(all, c0)
  }

  /** In a stream of whole transactions, a certified chunk ends at a boundary. */
  lemma CertifiedBoundary(all: seq<Record>, k: nat, to: nat)
    requires TxnStream(all) && k <= |all| && Certified(all[..k], to)
    ensures Boundary(all, to)
  {
  }

  /** A certified chunk of a log with proper terminators never ends inside a transaction. */
  lemma CertifiedEnds(all: seq<Record>, k: nat, to: nat)
    requires Terminated(all) && k <= |all| && Certified(all[..k], to)
    ensures EndsAt(all, to)
  {
  }

  /** A stream of whole transactions without moves needs no further condition. */
  lemma StreamIsStable(env: Env, all: seq<Record>, first: nat)
    requires TxnStream(all)
    ensures Terminated(all) && (NoKeymove(env, all) ==> Stable(env, all, first))
  {
    if NoKeymove(env, all) {
      forall b: nat, k: nat, e: nat ensures !LastMove(env, all, b, k, e) {
        assert b < k <= |all| ==> all[k - 1] in all;
      }
    }
  }

  lemma MiddleSlice(all: seq<Record>, start: nat, next: nat, pre: seq<Record>, mid: seq<Record>, post: seq<Record>)
    requires start <= next <= |all| && pre + mid + post == all[start..next]
    ensures start + |pre| + |mid| <= next
    ensures mid == all[start + |pre|..start + |pre| + |mid|]
    ensures post == [] ==> start + |pre| + |mid| == next
  {
    assert |pre + mid + post| == next - start;
    forall i | 0 <= i < |mid| ensures mid[i] == all[start + |pre| + i] {
      assert (pre + mid + post)[|pre| + i] == mid[i];
      assert all[start..next][|pre| + i] == all[start + |pre| + i];
    }
  }

  /** Where segment `j` of the chunk `all[start..next]` lies in the log. */
  lemma SegmentSpan(all: seq<Record>, start: nat, next: nat, segs: seq<Segment>, j: nat)
    requires start <= next <= |all| && Join(segs) == all[start..next] && j < |segs|
    ensures Join(segs[..j + 1]) == Join(segs[..j]) + segs[j].recs
    ensures var b, e := start + |Join(segs[..j])|, start + |Join(segs[..j + 1])|;
            && e <= next && segs[j].recs == all[b..e]
            && (j + 1 == |segs| ==> e == next)
            && (j + 1 < |segs| && segs[j + 1].recs != [] ==> e < next && segs[j + 1].recs[0] == all[e])
  {
    hide *;
    JoinUpTo(segs, j);
    MiddleSlice(all, start, next, Join(segs[..j]), segs[j].recs, Join(segs[j + 1..]));
    if j + 1 < |segs| {
      JoinUpTo(segs, j + 1);
      MiddleSlice(all, start, next, Join(segs[..j + 1]), segs[j + 1].recs, Join(segs[j + 2..]));
    } else {
      NothingBehind(segs);
    }
  }

  lemma NothingBehind(segs: seq<Segment>)
    ensures Join(segs[|segs|..]) == []
  {
  }

  /** A tagged keymove-free segment is atomic, and ends where its transaction does. */
  lemma SegmentBoundary(env: Env, all: seq<Record>, s: Segment, b: nat, e: nat, follow: seq<Record>)
    requires TxnStream(all) && NoKeymove(env, all)
    requires b <= e <= |all| && s.recs == all[b..e] && GoodSegment(env, s) && Ends(s, follow)
    requires if follow == [] then Boundary(all, e) else e < |all| && follow[0] == all[e]
    ensures s.Atomic? && Boundary(all, e)
  {
    forall r | r in s.recs ensures !IsKeymove(env, r) {
      assert r in all[b..e];
    }
    assert s.recs[0] in s.recs && s.recs[0] == all[b];
    assert s.recs[|s.recs| - 1] == all[e - 1];
  }
}

module Runs {
  import opened Processes
  import opened Records
  import opened Store
  import opened Replay
  import opened Target
  import opened ApplyLemmas
  import opened Apply
  import opened TrailLog
  import opened TxnChunks
  import opened Engine
  import opened Rejection
  import opened Poison
  import opened LiveLog
  import opened RunLemmas

  /** The apply side of one extract.  `grouped` says that all its runs apply whole transactions. */
  class ReplicatRun {
    const reader: TrailReader
    const rep: Replicat
    const reg: Registry
    const sink: DeadLetter
    const grouped: bool
    ghost const first: nat       // where the history of its runs starts

    constructor (reader: TrailReader, rep: Replicat, reg: Registry, sink: DeadLetter, grouped: bool)
      ensures this.reader == reader && this.rep == rep && this.reg == reg && this.sink == sink
      ensures this.grouped == grouped && first == reg.cursor
    {
      this.reader, this.rep, this.reg, this.sink, this.grouped := reader, rep, reg, sink, grouped;
      first := reg.cursor;
    }

    /** The lines a clean pass leaves out as a whole: the transactions that the target rejects. */
    ghost function Gone(): set<nat>
    {
      if grouped then RejectedTxns(rep.env, reader.all, first) else {}
    }

    /** A run's mode and poison policy.  Runs that always apply whole transactions may park them, if no
        interruption can change what a transaction with a move amounts to.  Otherwise whole transactions
        are applied only where none is parked. */
    ghost predicate Policy(retries: nat, enabled: bool)
    {
      if grouped then enabled && Terminated(reader.all) && Stable(rep.env, reader.all, first)
      else enabled && retries > 0 ==> forall r :: r in reader.all ==> !Refused(rep.env, r)
    }

    ghost predicate WellPlaced(c: nat)
    {
      grouped ==> Placed(rep.env, reader.all, first, c)
    }

    /** Every record behind the cursor is applied, in the dead letter, or replaced by a later one. */
    ghost predicate Conserved(cursor: nat)
      reads sink
    {
      first <= cursor && sink.Valid() && Settled(rep.env, reader.all, Gone(), first, cursor, sink.parked)
    }

    /** The durable state between runs: a trail of sound records that is purged no further than it is
        applied, and a cursor inside it. */
    ghost predicate Durable()
      reads reader.trail, rep.target, reg, sink
    {
      && reader.trail.Valid()
      && |reader.trail.log| <= |reader.all| && reader.trail.log == Lines(reader.all[..|reader.trail.log|])
      && rep.Valid()
      && AllSound(rep.env, reader.all) && OneSpelling(rep.env, reader.all)
      && reader.trail.purged <= reg.cursor <= |reader.trail.log|
      && Conserved(reg.cursor) && WellPlaced(reg.cursor)
    }

    ghost predicate Ready()
      reads reader.trail, rep.target, reg, sink
    {
      Durable() && reader.Valid() && !rep.target.inTxn
    }

    /** What a segment, a chunk or a run keeps however it ends, and what it reaches when it returns. */
    ghost predicate Reached(c0: nat, db0: DB, out: Outcome, goal: nat)
      reads rep.target, reg
    {
      && Converging(rep.env, reader.all, Gone(), c0, db0, reg.cursor, rep.target.committed)
      && (out == Returned ==>
            && reg.cursor == goal && !rep.target.inTxn
            && Exact(rep.env, reader.all, Gone(), c0, db0, goal, rep.target.committed))
    }

    /** What stops these records from being applied: a move that meets a refused image, or without the
        poison policy a refused record. */
    ghost predicate Blocked(rs: seq<Record>, retries: nat) {
      if retries == 0 then Stuck(rep.env, rs)
      else exists r :: r in rs && IsKeymove(rep.env, r) && MoveRefused(rep.env, r)
    }

    /** Why these records may not have got through: the target is down, the circuit breaker has tripped, one of
        them is blocked, or the process may be killed. */
    ghost predicate Excused(out: Outcome, rs: seq<Record>, retries: nat)
      reads rep.target, sink, rep.target.life, reg.life, sink.life
    {
      && (out == Raised ==> rep.target.down || sink.Tripped() || Blocked(rs, retries))
      && (out == Died ==> rep.target.life.mortal || reg.life.mortal || sink.life.mortal)
    }

    lemma ExcusedWider(out: Outcome, rs: seq<Record>, all: seq<Record>, retries: nat)
      requires Excused(out, rs, retries) && forall r :: r in rs ==> r in all
      ensures Excused(out, all, retries)
    {
      hide IsKeymove, MoveRefused, Refused;
      StuckWider(rep.env, rs, all);
    }

    lemma BlockedBySlice(rs: seq<Record>, retries: nat, db: DB)
      ensures retries == 0 && Refusing(rep.env, rs) ==> Blocked(rs, retries)
      ensures retries == 0 && Rejects(rep.env, rs) ==> Blocked(rs, retries)
      ensures MoveStuck(rep.env, rs, db) ==> Blocked(rs, retries)
    {
      hide IsKeymove, MoveRefused, Refused, Rejects, MoveRejects, Fold;
      if Rejects(rep.env, rs) { RejectsRefusing(rep.env, rs); }
      if MoveStuck(rep.env, rs, db) {
        var i: nat :| i < |rs| && MoveStuckAt(rep.env, rs, db, i);
        MoveKnown(rep.env, rs[i]);
        MoveRejectsRefused(rep.env, Fold(rep.env, rs[..i], db), rs[i]);
        StuckOn(rep.env, rs, rs[i]);
      }
    }

    ghost predicate Parks(before: seq<Record>)
      reads sink
    {
      ParksLeftOut(rep.env, reader.all, Gone(), before, sink.parked)
    }

    /** Segment `s` of the log at line `base`. */
    ghost predicate SegmentAt(s: Segment, base: nat, retries: nat)
    {
      && AllSound(rep.env, reader.all) && OneSpelling(rep.env, reader.all)
      && base + |s.recs| <= |reader.all| && s.recs == reader.all[base..base + |s.recs|]
      && (s.Atomic? ==> NoKeymove(rep.env, s.recs))
      && Agrees(rep.env, Gone(), base, s, retries)
    }

    /** Applies one segment and persists the cursor behind it. */
    method ApplySegment(s: Segment, base: nat, retries: nat, ghost c0: nat, ghost db0: DB)
      returns (out: Outcome)
      requires rep.Valid() && SegmentAt(s, base, retries)
      requires Reached(c0, db0, Returned, base) && Conserved(base)
      modifies rep.target, reg, sink
      ensures rep.Valid() && Reached(c0, db0, out, base + |s.recs|)
      ensures base <= reg.cursor <= base + |s.recs| && BesideMove(rep.env, s.recs, reg.cursor - base)
      ensures Conserved(reg.cursor) && Parks(old(sink.parked))
      ensures Excused(out, s.recs, retries)
      ensures rep.target.down ==> old(rep.target.down) || rep.target.life.flaky
      ensures s.Atomic? ==> Whole(s, base, c0, db0, old(rep.target.history))
    {
      hide Fold, Excused;
      if s.Atomic? {
        out := ApplyGroup(s, base, retries, c0, db0);
      } else {
        out := ApplyBarrier(s, base, retries, c0, db0);
      }
    }

    /** What an atomic segment leaves: the cursor in front of it or behind it, and only states before
        it or after it. */
    ghost predicate Whole(s: Segment, base: nat, c0: nat, db0: DB, h0: seq<DB>)
      reads rep.target, reg
    {
      && (|| (reg.cursor == base && Exact(rep.env, reader.all, Gone(), c0, db0, base, rep.target.committed))
          || ((reg.cursor == base || reg.cursor == base + |s.recs|) &&
              Exact(rep.env, reader.all, Gone(), c0, db0, base + |s.recs|, rep.target.committed)))
      && h0 <= rep.target.history
      && forall i :: |h0| <= i < |rep.target.history| ==>
           Exact(rep.env, reader.all, Gone(), c0, db0, base + |s.recs|, rep.target.history[i])
    }

    /** An atomic segment: accepted and applied, or rejected and parked as a whole. */
    method ApplyGroup(s: Segment, base: nat, retries: nat, ghost c0: nat, ghost db0: DB)
      returns (out: Outcome)
      requires rep.Valid() && s.Atomic? && SegmentAt(s, base, retries)
      requires Reached(c0, db0, Returned, base) && Conserved(base)
      modifies rep.target, reg, sink
      ensures rep.Valid() && Reached(c0, db0, out, base + |s.recs|)
      ensures reg.cursor == base || reg.cursor == base + |s.recs|
      ensures Conserved(reg.cursor) && Parks(old(sink.parked))
      ensures Excused(out, s.recs, retries)
      ensures rep.target.down ==> old(rep.target.down) || rep.target.life.flaky
      ensures Whole(s, base, c0, db0, old(rep.target.history))
    {
      hide Fold, Rejects, Converging, Exact, Settled, ParksLeftOut, GroupParks, NoKeymove, Agrees, AllSound;
      hide OneSpelling, Blocked;
      BlockedBySlice(s.recs, retries, rep.target.committed);
      ghost var before, parked0 := rep.target.committed, sink.parked;
      SubSound(rep.env, reader.all, base, base + |s.recs|);
      out := rep.ApplyTxn(s.recs, sink, retries);
      ghost var now := rep.target.committed;
      GroupApplied(rep.env, reader.all, Gone(), c0, db0, base, s, before, now, retries);
      GroupSettled(rep.env, reader.all, Gone(), first, base, s, parked0, sink.parked, retries);
      if out == Returned {
        out := reg.SetApplyCursor(base + |s.recs|);
      }
    }

    /** A barrier segment. */
    method ApplyBarrier(s: Segment, base: nat, retries: nat, ghost c0: nat, ghost db0: DB)
      returns (out: Outcome)
      requires rep.Valid() && s.Barrier? && SegmentAt(s, base, retries)
      requires Reached(c0, db0, Returned, base) && Conserved(base)
      modifies rep.target, reg, sink
      ensures rep.Valid() && Reached(c0, db0, out, base + |s.recs|)
      ensures base <= reg.cursor <= base + |s.recs| && BesideMove(rep.env, s.recs, reg.cursor - base)
      ensures Conserved(reg.cursor) && Parks(old(sink.parked))
      ensures Excused(out, s.recs, retries)
      ensures rep.target.down ==> old(rep.target.down) || rep.target.life.flaky
    {
      hide Fold, Converging, Exact, Settled, ParksLeftOut, Accounted, AllSound, OneSpelling, Gone, IsKeymove;
      hide Parkable, Blocked, Refusing, MoveStuck;
      BlockedBySlice(s.recs, retries, rep.target.committed);
      ghost var before, parked0, n := rep.target.committed, sink.parked, |s.recs|;
      SubSound(rep.env, reader.all, base, base + n);
      out := rep.ApplyBarriered(s.recs, base, reg, sink, retries);
      SegmentConverges(rep.env, reader.all, Gone(), c0, db0, base, s.recs, before, reg.cursor, rep.target.committed);
      LeftOutBarrier(rep.env, reader.all, Gone(), base, s.recs, parked0, sink.parked);
      SettledSegment(rep.env, reader.all, Gone(), first, base, s.recs, reg.cursor - base, parked0, sink.parked);
    }

    /** Applies one segment; in `atomic` mode it is a whole transaction, and the guarantee is kept. */
    method ApplyAligned(s: Segment, base: nat, retries: nat, ghost c0: nat, ghost db0: DB,
                        ghost atomic: bool, ghost h0: seq<DB>)
      returns (out: Outcome)
      requires rep.Valid() && SegmentAt(s, base, retries)
      requires c0 <= base && Reached(c0, db0, Returned, base) && Conserved(base)
      requires atomic ==>
                 && TxnStream(reader.all) && GoodSegment(rep.env, s) && s.Atomic?
                 && Boundary(reader.all, base) && Boundary(reader.all, base + |s.recs|)
                 && Aligned(rep.env, reader.all, Gone(), c0, db0, h0, base, rep.target.committed, rep.target.history)
      modifies rep.target, reg, sink
      ensures rep.Valid() && Reached(c0, db0, out, base + |s.recs|)
      ensures base <= reg.cursor <= base + |s.recs| && BesideMove(rep.env, s.recs, reg.cursor - base)
      ensures Conserved(reg.cursor) && Parks(old(sink.parked))
      ensures Excused(out, s.recs, retries)
      ensures rep.target.down ==> old(rep.target.down) || rep.target.life.flaky
      ensures atomic ==>
                Aligned(rep.env, reader.all, Gone(), c0, db0, h0, reg.cursor, rep.target.committed, rep.target.history)
    {
      hide Fold, Excused, GoodSegment, TxnStream, Aligned, Converging, Exact, Settled, ParksLeftOut;
      ghost var db1, h1 := rep.target.committed, rep.target.history;
      out := ApplySegment(s, base, retries, c0, db0);
      if atomic {
        AlignedSegment(rep.env, reader.all, Gone(), c0, db0, base, s, db1, h1,
                       reg.cursor, rep.target.committed, rep.target.history);
        AlignedMore(rep.env, reader.all, Gone(), c0, db0, h0, base, db1, h1,
                    reg.cursor, rep.target.committed, rep.target.history);
      }
    }

    /** Applies the chunk `all[start..next]`, segment by segment. */
    method ApplyChunk(records: seq<Record>, start: nat, next: nat, retries: nat, enabled: bool,
                      ghost c0: nat, ghost db0: DB)
      returns (out: Outcome)
      requires rep.Valid() && AllSound(rep.env, reader.all) && OneSpelling(rep.env, reader.all)
      requires start <= next <= |reader.all| && records == reader.all[start..next]
      requires c0 <= start && Reached(c0, db0, Returned, start) && Conserved(start)
      requires Policy(retries, enabled) && WellPlaced(start) && (grouped ==> EndsAt(reader.all, next))
      modifies rep.target, reg, sink
      ensures rep.Valid() && Reached(c0, db0, out, next)
      ensures start <= reg.cursor <= next && WellPlaced(reg.cursor)
      ensures Conserved(reg.cursor) && Parks(old(sink.parked))
      ensures Excused(out, records, retries)
      ensures rep.target.down ==> old(rep.target.down) || rep.target.life.flaky
      ensures AtomicMode(rep.env, reader.all, start, enabled) && Boundary(reader.all, next) ==>
                Aligned(rep.env, reader.all, Gone(), c0, db0, old(rep.target.history),
                        reg.cursor, rep.target.committed, rep.target.history)
    {
      hide Fold, Join, GoodSegment, WholeRuns, Aligned, Converging, Exact, SameTxn, AllSound, OneSpelling;
      hide Boundary, TxnStream, NoKeymove, Settled, ParksLeftOut, Placed, EndsAt, Stable, Terminated, Agrees;
      hide BesideMove;
      hide Gone, Policy, Conserved, Refused, SegmentAt, WellPlaced, Excused;
      ghost var h0, parked0 := rep.target.history, sink.parked;
      ghost var atomic := AtomicMode(rep.env, reader.all, start, enabled) && Boundary(reader.all, next);
      var segs := SegmentForApply(rep.env, records, enabled);
      JoinEnds(segs);
      ParksNoMore(rep.env, reader.all, Gone(), parked0);
      var at: nat := start;
      if atomic { AlignedStart(rep.env, reader.all, Gone(), c0, db0, start, rep.target.committed, h0); }
      for j := 0 to |segs|
        invariant rep.Valid() && Reached(c0, db0, Returned, at)
        invariant at == start + |Join(segs[..j])| <= next && reg.cursor == at && c0 <= start
        invariant Conserved(at) && WellPlaced(at) && Parks(parked0)
        invariant rep.target.down ==> old(rep.target.down) || rep.target.life.flaky
        invariant atomic ==> Boundary(reader.all, at)
        invariant atomic ==>
                    Aligned(rep.env, reader.all, Gone(), c0, db0, h0, at, rep.target.committed, rep.target.history)
      {
        ghost var parked1 := sink.parked;
        SegmentReady(segs, j, start, at, next, retries, enabled);
        out := ApplyAligned(segs[j], at, retries, c0, db0, atomic, h0);
        LeftOutThen(rep.env, reader.all, Gone(), parked0, parked1, sink.parked);
        StaysPlaced(segs[j], at, retries, reg.cursor - at);
        if out != Returned {
          SegmentMembers(reader.all, start, next, at, segs[j], retries);
          ExcusedWider(out, segs[j].recs, records, retries);
          return;
        }
        at := at + |segs[j].recs|;
      }
      out := Returned;
      NothingToExcuse(records, retries);
    }

    /** The process lives, keeps its target, and parks without limit. */
    ghost predicate Undisturbed(wasDown: bool)
      reads rep.target.life, reg.life, sink.life
    {
      && !rep.target.life.mortal && !reg.life.mortal && !sink.life.mortal
      && !wasDown && !rep.target.life.flaky && sink.maxPerRun == 0
    }

    lemma UndisturbedReturns(wasDown: bool, out: Outcome, rs: seq<Record>, retries: nat)
      requires Excused(out, rs, retries) && (rep.target.down ==> wasDown || rep.target.life.flaky)
      ensures Undisturbed(wasDown) && !Blocked(rs, retries) ==> out == Returned
    {
      hide Blocked;
    }

    lemma DeathExcused(rs: seq<Record>, retries: nat)
      requires rep.target.life.mortal || reg.life.mortal || sink.life.mortal
      ensures Excused(Died, rs, retries)
    {
    }

    lemma NothingToExcuse(rs: seq<Record>, retries: nat)
      ensures Excused(Returned, rs, retries)
    {
    }

    lemma SegmentMembers(all: seq<Record>, start: nat, next: nat, at: nat, s: Segment, retries: nat)
      requires start <= at && at + |s.recs| <= next <= |all| && SegmentAt(s, at, retries) && all == reader.all
      ensures forall r :: r in s.recs ==> r in all[start..next]
    {
      hide AllSound, OneSpelling, NoKeymove, Agrees;
      Inside(all, start, next, at, s.recs);
    }

    /** A cursor in a segment, next to a move or at one of its ends, is well placed. */
    lemma StaysPlaced(s: Segment, at: nat, retries: nat, k: nat)
      requires SegmentAt(s, at, retries) && WellPlaced(at) && k <= |s.recs| && BesideMove(rep.env, s.recs, k)
      requires grouped ==> EndsAt(reader.all, at + |s.recs|)
      ensures WellPlaced(at + k)
    {
      hide Agrees, NoKeymove, Placed, BesideMove, AllSound, OneSpelling;
      if grouped { PlacedBeside(rep.env, reader.all, first, at, s.recs, k); }
    }

    /** What segment `j` of the chunk brings along for being applied at line `at`. */
    lemma SegmentReady(segs: seq<Segment>, j: nat, start: nat, at: nat, next: nat, retries: nat, enabled: bool)
      requires AllSound(rep.env, reader.all) && OneSpelling(rep.env, reader.all)
      requires Policy(retries, enabled) && WellPlaced(at) && (grouped ==> EndsAt(reader.all, next))
      requires j < |segs| && WholeRuns(segs, [])
      requires enabled ==> forall k :: 0 <= k < |segs| ==> GoodSegment(rep.env, segs[k])
      requires !enabled ==> forall k :: 0 <= k < |segs| ==> segs[k].Barrier?
      requires start <= next <= |reader.all| && Join(segs) == reader.all[start..next]
      requires at == start + |Join(segs[..j])|
      ensures SegmentAt(segs[j], at, retries)
      ensures at + |segs[j].recs| == start + |Join(segs[..j + 1])| <= next
      ensures grouped ==> EndsAt(reader.all, at + |segs[j].recs|)
      ensures enabled && TxnStream(reader.all) && NoKeymove(rep.env, reader.all) && Boundary(reader.all, next) ==>
                segs[j].Atomic? && GoodSegment(rep.env, segs[j]) && Boundary(reader.all, at + |segs[j].recs|)
    {
      hide Join, GoodSegment, WholeRuns, TxnStream, NoKeymove, Boundary, EndsAt, Policy, AllSound, OneSpelling;
      hide Agrees;
      SegmentSpan(reader.all, start, next, segs, j);
      SegmentNeeds(rep.env, reader.all, segs, j, at, next, enabled);
      SegmentFits(segs, j, at, next, retries, enabled);
    }

    /** Under its policy, a segment of a chunk leaves what the clean pass leaves. */
    lemma SegmentFits(segs: seq<Segment>, j: nat, at: nat, next: nat, retries: nat, enabled: bool)
      requires Policy(retries, enabled) && WellPlaced(at) && (grouped ==> EndsAt(reader.all, next))
      requires j < |segs| && WholeRuns(segs, [])
      requires enabled ==> forall k :: 0 <= k < |segs| ==> GoodSegment(rep.env, segs[k])
      requires !enabled ==> forall k :: 0 <= k < |segs| ==> segs[k].Barrier?
      requires at + |segs[j].recs| <= next <= |reader.all|
      requires segs[j].recs == reader.all[at..at + |segs[j].recs|]
      requires j + 1 == |segs| ==> at + |segs[j].recs| == next
      requires j + 1 < |segs| && segs[j + 1].recs != [] ==>
                 at + |segs[j].recs| < next && segs[j + 1].recs[0] == reader.all[at + |segs[j].recs|]
      ensures Agrees(rep.env, Gone(), at, segs[j], retries)
      ensures grouped ==> EndsAt(reader.all, at + |segs[j].recs|)
    {
      hide Rejects, Refused, Stable, Terminated, Placed, GoodSegment, WholeRuns, EndsAt, NoKeymove, After, Ends;
      if grouped {
        SegmentEnds(rep.env, reader.all, segs, j, at, next);
        SegmentAgrees(rep.env, reader.all, first, at, segs[j], retries);
      } else if Rejects(rep.env, segs[j].recs) {
        RejectsSome(rep.env, segs[j].recs);
      }
    }

    /** One replicat run: reconcile the trail, then read, apply and persist chunk by chunk.  Wherever
        it ends - a crash between any two steps, a refusal, an outage, a tripped circuit breaker -
        the persisted cursor and the committed target still lead to the clean result; a run that
        returns has reached it exactly, up to an uncertified tail.  With whole keymove-free
        transactions, every state committed on the way and every persisted cursor is at a
        transaction boundary. */
    method RunReplicat(limit: Option<nat>, retries: nat, enabled: bool) returns (out: Outcome)
      requires Durable() && !rep.target.inTxn && Policy(retries, enabled)
      requires limit.Some? ==> limit.value > 0
      modifies reader.trail, rep.target, reg, sink
      ensures Durable() && |old(reader.trail.log)| <= |reader.trail.log| && Parks(old(sink.parked))
      ensures old(reg.cursor) <= |reader.trail.log|
      ensures Excused(out, reader.all[old(reg.cursor)..|reader.trail.log|], retries)
      ensures rep.target.down ==> old(rep.target.down) || rep.target.life.flaky
      ensures var todo := reader.all[old(reg.cursor)..|reader.trail.log|];
              Undisturbed(old(rep.target.down)) && !Blocked(todo, retries) ==> out == Returned
      ensures Converging(rep.env, reader.all, Gone(), old(reg.cursor), old(rep.target.committed),
                         reg.cursor, rep.target.committed)
      ensures out == Returned ==>
                && Exact(rep.env, reader.all, Gone(), old(reg.cursor), old(rep.target.committed),
                         reg.cursor, rep.target.committed)
                && reader.Exhausted(reg.cursor, |old(reader.trail.log)|, |reader.trail.log|, enabled)
      ensures AtomicMode(rep.env, reader.all, old(reg.cursor), enabled) ==>
                Aligned(rep.env, reader.all, Gone(), old(reg.cursor), old(rep.target.committed),
                        old(rep.target.history),
                        reg.cursor, rep.target.committed, rep.target.history)
    {
      hide Fold, Converging, Exact, Aligned, TxnStream, Certified, HeldTail, Settled, ParksLeftOut, Stable;
      hide Terminated, Placed;
      hide Gone, Conserved, WellPlaced, AllSound, OneSpelling, NoKeymove, Boundary, Policy;
      hide Ordered, TrailLog.Holds, CacheRight, ValidDB, ValidSchema, Excused, Blocked, Undisturbed;
      ghost var c0, db0, h0 := reg.cursor, rep.target.committed, rep.target.history;
      ghost var atomic := AtomicMode(rep.env, reader.all, c0, enabled);
      ghost var parked0 := sink.parked;
      ParksNoMore(rep.env, reader.all, Gone(), parked0);
      ExactStart(rep.env, reader.all, Gone(), c0, db0);
      ExactConverges(rep.env, reader.all, Gone(), c0, db0, c0, db0);
      if atomic { AlignedStart(rep.env, reader.all, Gone(), c0, db0, c0, db0, h0); }
      var alive := reader.trail.ReconcilePurged(rep.target.life.mortal);
      if !alive {
        DeathExcused(reader.all[c0..|reader.trail.log|], retries);
        UndisturbedReturns(old(rep.target.down), Died, reader.all[c0..|reader.trail.log|], retries);
        return Died;
      }
      var start := reg.cursor;
      while true
        invariant Ready() && reg.cursor == start && c0 <= start && Parks(parked0)
        invariant |old(reader.trail.log)| <= |reader.trail.log|
        invariant Exact(rep.env, reader.all, Gone(), c0, db0, start, rep.target.committed)
        invariant Converging(rep.env, reader.all, Gone(), c0, db0, start, rep.target.committed)
        invariant atomic ==> Boundary(reader.all, start)
        invariant atomic ==>
                    Aligned(rep.env, reader.all, Gone(), c0, db0, h0, start, rep.target.committed, rep.target.history)
        invariant rep.target.down ==> old(rep.target.down) || rep.target.life.flaky
        decreases |reader.all| - start
      {
        ghost var db1, h1, parked1 := rep.target.committed, rep.target.history, sink.parked;
        var next;
        out, next := RunChunk(start, limit, retries, enabled, c0, db0);
        LeftOutThen(rep.env, reader.all, Gone(), parked0, parked1, sink.parked);
        if atomic {
          AlignedMore(rep.env, reader.all, Gone(), c0, db0, h0, start, db1, h1,
                      reg.cursor, rep.target.committed, rep.target.history);
        }
        ghost var k := |reader.trail.log|;
        Inside(reader.all, c0, k, start, reader.all[start..k]);
        ExcusedWider(out, reader.all[start..k], reader.all[c0..k], retries);
        UndisturbedReturns(old(rep.target.down), out, reader.all[c0..k], retries);
        if out != Returned || next == start { return; }
        start := next;
      }
    }

    /** Reads, applies and persists one chunk; `next == start` when nothing was left to apply. */
    method RunChunk(start: nat, limit: Option<nat>, retries: nat, enabled: bool, ghost c0: nat, ghost db0: DB)
      returns (out: Outcome, next: nat)
      requires Ready() && reg.cursor == start && c0 <= start && Reached(c0, db0, Returned, start)
      requires Policy(retries, enabled) && (limit.Some? ==> limit.value > 0)
      modifies reader.trail`segs, reader.trail`log, reader.trail`cache, rep.target, reg, sink
      ensures Durable() && |old(reader.trail.log)| <= |reader.trail.log| && Parks(old(sink.parked))
      ensures Reached(c0, db0, out, next) && start <= next
      ensures Excused(out, reader.all[start..|reader.trail.log|], retries)
      ensures rep.target.down ==> old(rep.target.down) || rep.target.life.flaky
      ensures out == Returned ==> Ready()
      ensures out == Returned && next == start ==>
                reader.Exhausted(start, |old(reader.trail.log)|, |reader.trail.log|, enabled)
      ensures AtomicMode(rep.env, reader.all, start, enabled) ==>
                Aligned(rep.env, reader.all, Gone(), c0, db0, old(rep.target.history),
                        reg.cursor, rep.target.committed, rep.target.history)
    {
      hide Fold, Converging, Exact, Aligned, TxnStream, Certified, HeldTail, Settled, ParksLeftOut, Stable;
      hide Terminated, Placed, Excused, Ordered, TrailLog.Holds, CacheRight, ValidDB, ValidSchema, AllSound;
      hide OneSpelling, Gone, Conserved;
      var records;
      ghost var atomic := AtomicMode(rep.env, reader.all, start, enabled);
      ghost var h0 := rep.target.history;
      if atomic { AlignedStart(rep.env, reader.all, Gone(), c0, db0, start, rep.target.committed, h0); }
      ParksNoMore(rep.env, reader.all, Gone(), sink.parked);
      records, next := reader.ReadTxnAligned(start, limit, enabled);
      NothingToExcuse(reader.all[start..|reader.trail.log|], retries);
      if records == [] {
        return Returned, start;
      }
      if atomic {
        CertifiedBoundary(reader.all, |reader.trail.log|, next);
      }
      if grouped {
        CertifiedEnds(reader.all, |reader.trail.log|, next);
        PlacedAtEnd(rep.env, reader.all, first, start, next);
      }
      out := ApplyChunk(records, start, next, retries, enabled, c0, db0);
      Inside(reader.all, start, |reader.trail.log|, start, records);
      ExcusedWider(out, records, reader.all[start..|reader.trail.log|], retries);
      if out == Returned {
        out := reg.SetApplyCursor(next);
        if out == Died { DeathExcused(reader.all[start..|reader.trail.log|], retries); }
      }
    }

    /** Purges closed segments up to a cursor that was read before the lock was taken. */
    method Purge(upto: nat) returns (alive: bool)
      requires Durable() && upto <= reg.cursor
      modifies reader.trail
      ensures Durable() && reader.trail.log == old(reader.trail.log) && (alive || rep.target.life.mortal)
      ensures alive ==> reader.trail.Reconciled()
      ensures alive ==> |reader.trail.segs| <= 1 || reader.trail.purged + |reader.trail.segs[0].lines| > upto
    {
      alive := reader.trail.PurgeApplied(upto, [], rep.target.life.mortal);
    }

    /** Any number of replicat runs, each with its own batch limit, poison policy and apply mode, with
        purges between them, every one of them possibly dying at any step.  However the history goes,
        the persisted cursor and the committed target still lead to the state of one clean pass, every
        refused record behind the cursor is in the dead letter or replaced, and nothing else is parked.
        If every run applies whole transactions, every state committed on the way was at a transaction
        boundary.  Unless the mode is fixed (`grouped`) or nothing is refused (`clean`), the runs that
        apply whole transactions do not park. */
    method History(n: nat, clean: bool, always: bool)
      requires Durable() && !rep.target.inTxn
      requires clean ==> forall r :: r in reader.all ==> !Refused(rep.env, r)
      requires grouped ==> Terminated(reader.all) && Stable(rep.env, reader.all, first)
      modifies reader.trail, rep.target, reg, sink, rep.target.life, reg.life, sink.life
      ensures Durable() && Parks(old(sink.parked))
      ensures Converging(rep.env, reader.all, Gone(), old(reg.cursor), old(rep.target.committed),
                         reg.cursor, rep.target.committed)
      ensures reg.cursor == |reader.all| ==>
                rep.target.committed ==
                Fold(rep.env, Live(reader.all, Gone(), old(reg.cursor), |reader.all|), old(rep.target.committed))
      ensures AtomicMode(rep.env, reader.all, old(reg.cursor), always || grouped) ==>
                Aligned(rep.env, reader.all, Gone(), old(reg.cursor), old(rep.target.committed),
                        old(rep.target.history),
                        reg.cursor, rep.target.committed, rep.target.history)
    {
      ghost var c0, db0, h0 := reg.cursor, rep.target.committed, rep.target.history;
      ghost var parked0 := sink.parked;
      ghost var atomic := AtomicMode(rep.env, reader.all, c0, always || grouped);
      HistoryStart(rep.env, reader.all, Gone(), c0, db0, h0, always || grouped);
      ParksNoMore(rep.env, reader.all, Gone(), parked0);
      hide Fold, Converging, Aligned, TxnStream, Exact, Settled, ParksLeftOut, Stable, Terminated, Refused;
      hide Gone, WellPlaced, AllSound, OneSpelling, NoKeymove, Boundary, Conserved;
      for i := 0 to n
        invariant Durable() && Parks(parked0)
        invariant Converging(rep.env, reader.all, Gone(), c0, db0, reg.cursor, rep.target.committed)
        invariant c0 <= reg.cursor
        invariant atomic ==>
                    && Boundary(reader.all, reg.cursor)
                    && Aligned(rep.env, reader.all, Gone(), c0, db0, h0,
                               reg.cursor, rep.target.committed, rep.target.history)
      {
        ghost var c1, db1, h1, parked1 := reg.cursor, rep.target.committed, rep.target.history, sink.parked;
        NextProcess(clean, always);
        LeftOutThen(rep.env, reader.all, Gone(), parked0, parked1, sink.parked);
        ConvergingCompose(rep.env, reader.all, Gone(), c0, db0, c1, db1, reg.cursor, rep.target.committed);
        if atomic {
          AlignedBoundary(rep.env, reader.all, Gone(), c1, db1, h1,
                          reg.cursor, rep.target.committed, rep.target.history);
          AlignedCompose(rep.env, reader.all, Gone(), c0, db0, h0, c1, db1, h1,
                         reg.cursor, rep.target.committed, rep.target.history);
        }
      }
      ConvergedAtEnd(rep.env, reader.all, Gone(), c0, db0, rep.target.committed, reg.cursor);
    }

    /** A process starts: it connects, opens the trail and reads the positions on file. */
    method StartProcess()
      requires Durable()
      modifies rep.target, reader.trail`cache, sink`seen, sink`count
      ensures Durable() && !rep.target.inTxn && rep.target.committed == old(rep.target.committed)
      ensures rep.target.history == old(rep.target.history) && (rep.target.down ==> rep.target.life.flaky)
    {
      hide Settled, AllSound, OneSpelling, WellPlaced, Gone, Ordered, TrailLog.Holds, ValidDB, ValidSchema;
      rep.target.Reconnect();
      reader.trail.Reopen();
      sink.Reopen();
    }

    lemma DurableAt()
      requires Durable()
      ensures reg.cursor <= |reader.trail.log| <= |reader.all|
    {
    }

    /** A new process: a purge, or a replicat run with parameters of its own. */
    method NextProcess(clean: bool, always: bool)
      requires Durable()
      requires clean ==> forall r :: r in reader.all ==> !Refused(rep.env, r)
      requires grouped ==> Terminated(reader.all) && Stable(rep.env, reader.all, first)
      modifies reader.trail, rep.target, reg, sink, rep.target.life, reg.life, sink.life
      ensures Durable() && Parks(old(sink.parked)) && |old(reader.trail.log)| <= |reader.trail.log|
      ensures Converging(rep.env, reader.all, Gone(), old(reg.cursor), old(rep.target.committed),
                         reg.cursor, rep.target.committed)
      ensures AtomicMode(rep.env, reader.all, old(reg.cursor), always || grouped) ==>
                Aligned(rep.env, reader.all, Gone(), old(reg.cursor), old(rep.target.committed),
                        old(rep.target.history),
                        reg.cursor, rep.target.committed, rep.target.history)
    {
      HistoryStart(rep.env, reader.all, Gone(), reg.cursor, rep.target.committed, rep.target.history,
                   always || grouped);
      ParksNoMore(rep.env, reader.all, Gone(), sink.parked);
      hide Fold, Converging, Aligned, TxnStream, Exact, Settled, ParksLeftOut, Stable, Terminated;
      hide Gone, WellPlaced, AllSound, OneSpelling, NoKeymove, Boundary, Refused, Durable, Excused, Blocked;
      hide Undisturbed;
      rep.target.life.Begin();
      reg.life.Begin();
      sink.life.Begin();
      StartProcess();
      DurableAt();
      var purge, upto: nat := *, *;
      if purge && upto <= reg.cursor {
        var _ := Purge(upto);
      } else {
        var limit: Option<nat>, retries: nat, enabled := *, *, *;
        if limit.Some? && limit.value == 0 { limit := None; }
        enabled := enabled || always || grouped;
        if !clean && !grouped && enabled { retries := 0; }
        var _ := RunReplicat(limit, retries, enabled);
      }
    }
  }

  lemma Inside(all: seq<Record>, a: nat, b: nat, at: nat, rs: seq<Record>)
    requires a <= at && at + |rs| <= b <= |all| && rs == all[at..at + |rs|]
    ensures forall r :: r in rs ==> r in all[a..b]
  {
    forall r | r in rs ensures r in all[a..b] {
      var i :| 0 <= i < |rs| && rs[i] == r;
      assert all[a..b][at - a + i] == rs[i];
    }
  }

  lemma MoveKnown(env: Env, r: Record)
    requires IsKeymove(env, r)
    ensures Known(env, r)
  {
  }

  /** What an atomic group leaves for the clean pass. */
  lemma GroupApplied(env: Env, all: seq<Record>, gone: set<nat>, c0: nat, db0: DB, base: nat, s: Segment,
                     before: DB, now: DB, retries: nat)
    requires base + |s.recs| <= |all| && s.recs == all[base..base + |s.recs|]
    requires s.Atomic? && NoKeymove(env, s.recs) && AllSound(env, s.recs)
    requires Agrees(env, gone, base, s, retries) && Exact(env, all, gone, c0, db0, base, before)
    requires AllOrNothing(env, s.recs, before, now) && (Rejects(env, s.recs) ==> now == before)
    ensures Converging(env, all, gone, c0, db0, base, now)
    ensures now == before || Exact(env, all, gone, c0, db0, base + |s.recs|, now)
    ensures !Rejects(env, s.recs) ==>
              Exact(env, all, gone, c0, db0, base + |s.recs|, Fold(env, s.recs, before))
    ensures (if Rejects(env, s.recs) then retries > 0 else now == Fold(env, s.recs, before)) ==>
              Exact(env, all, gone, c0, db0, base + |s.recs|, now) &&
              Converging(env, all, gone, c0, db0, base + |s.recs|, now)
  {
    hide Fold, Rejects, Converging, Exact, NoKeymove, AllSound;
    var e := base + |s.recs|;
    ExactConverges(env, all, gone, c0, db0, base, before);
    if Rejects(env, s.recs) {
      if retries > 0 {
        GroupLeftOut(env, all, gone, c0, db0, base, s, before, base, retries);
        GroupLeftOut(env, all, gone, c0, db0, base, s, before, e, retries);
      }
    } else {
      assert s.recs[base - base..] == s.recs;
      WholeTwice(env, s.recs, before);
      SegmentConverges(env, all, gone, c0, db0, base, s.recs, before, base, now);
      SegmentConverges(env, all, gone, c0, db0, base, s.recs, before, base, Fold(env, s.recs, before));
      ExactConverges(env, all, gone, c0, db0, e, Fold(env, s.recs, before));
    }
  }

  /** What an atomic group leaves in the dead letter. */
  lemma GroupSettled(env: Env, all: seq<Record>, gone: set<nat>, first: nat, base: nat, s: Segment,
                     parked: seq<Record>, now: seq<Record>, retries: nat)
    requires Settled(env, all, gone, first, base, parked) && parked <= now
    requires base + |s.recs| <= |all| && s.recs == all[base..base + |s.recs|]
    requires s.Atomic? && NoKeymove(env, s.recs) && Agrees(env, gone, base, s, retries)
    requires forall i :: |parked| <= i < |now| ==> now[i] in s.recs
    requires now != parked ==> Rejects(env, s.recs) && retries > 0
    ensures Settled(env, all, gone, first, base, now) && ParksLeftOut(env, all, gone, parked, now)
    ensures now == ParkAll(parked, GroupParks(env, s.recs)) ==> Settled(env, all, gone, first, base + |s.recs|, now)
  {
    hide Settled, Rejects, Refused, NoKeymove, ParkAll, Accounted, LeftOut;
    SettledMore(env, all, gone, first, base, parked, now);
    if now != parked {
      LeftOutGroup(env, all, gone, base, s.recs, parked, now);
    }
    if now == ParkAll(parked, GroupParks(env, s.recs)) {
      GroupAccounted(env, s.recs, parked);
      if AllGone(gone, base, base + |s.recs|) && Rejects(env, s.recs) {
        SettledGone(env, all, gone, first, base, s.recs, parked, now);
      } else {
        SettledSegment(env, all, gone, first, base, s.recs, |s.recs|, parked, now);
      }
    }
  }

  lemma ParksNoMore(env: Env, all: seq<Record>, gone: set<nat>, parked: seq<Record>)
    ensures ParksLeftOut(env, all, gone, parked, parked)
  {
  }

  lemma PlacedBeside(env: Env, all: seq<Record>, first: nat, at: nat, seg: seq<Record>, k: nat)
    requires Placed(env, all, first, at) && at + |seg| <= |all| && seg == all[at..at + |seg|]
    requires k <= |seg| && BesideMove(env, seg, k) && EndsAt(all, at + |seg|)
    ensures Placed(env, all, first, at + k)
  {
    hide IsKeymove;
    if 0 < k < |seg| {
      assert seg[k - 1] == all[at + k - 1] && seg[k] == all[at + k];
    }
  }

  lemma PlacedAtEnd(env: Env, all: seq<Record>, first: nat, c: nat, e: nat)
    requires Placed(env, all, first, c) && c <= e <= |all| && EndsAt(all, e)
    ensures Placed(env, all, first, e)
  {
  }

  /** A segment of a chunk that ends between transactions ends between transactions. */
  lemma SegmentEnds(env: Env, all: seq<Record>, segs: seq<Segment>, j: nat, at: nat, next: nat)
    requires j < |segs| && WholeRuns(segs, []) && next <= |all| && EndsAt(all, next)
    requires forall k :: 0 <= k < |segs| ==> GoodSegment(env, segs[k])
    requires at + |segs[j].recs| <= next && segs[j].recs == all[at..at + |segs[j].recs|]
    requires j + 1 == |segs| ==> at + |segs[j].recs| == next
    requires j + 1 < |segs| && segs[j + 1].recs != [] ==>
               at + |segs[j].recs| < next && segs[j + 1].recs[0] == all[at + |segs[j].recs|]
    ensures EndsAt(all, at + |segs[j].recs|)
  {
    hide SameTxn, NoKeymove, MoveNear;
    assert GoodSegment(env, segs[j]) && Ends(segs[j], After(segs, j, []));
    var e := at + |segs[j].recs|;
    assert segs[j].recs[|segs[j].recs| - 1] == all[e - 1];
    if j + 1 < |segs| { assert GoodSegment(env, segs[j + 1]); }
  }

  lemma HistoryStart(env: Env, all: seq<Record>, gone: set<nat>, c0: nat, db0: DB, h0: seq<DB>, enabled: bool)
    requires c0 <= |all|
    ensures Converging(env, all, gone, c0, db0, c0, db0)
    ensures AtomicMode(env, all, c0, enabled) ==> Boundary(all, c0) && Aligned(env, all, gone, c0, db0, h0, c0, db0, h0)
  {
    ExactStart(env, all, gone, c0, db0);
    if AtomicMode(env, all, c0, enabled) {
      AlignedStart(env, all, gone, c0, db0, c0, db0, h0);
    }
  }

  lemma AlignedBoundary(env: Env, all: seq<Record>, gone: set<nat>, c0: nat, db0: DB, h0: seq<DB>, c: nat, db: DB,
                        h: seq<DB>)
    requires Aligned(env, all, gone, c0, db0, h0, c, db, h)
    ensures Boundary(all, c)
  {
  }

  /** A history that reaches the end of the log leaves exactly the clean state. */
  lemma ConvergedAtEnd(env: Env, all: seq<Record>, gone: set<nat>, c0: nat, db0: DB, db: DB, cursor: nat)
    requires Converging(env, all, gone, c0, db0, cursor, db)
    ensures cursor == |all| ==> db == Fold(env, Live(all, gone, c0, |all|), db0)
  {
  }

  lemma JoinEnds(segs: seq<Segment>)
    ensures Join(segs[..0]) == [] && Join(segs[..|segs|]) == Join(segs)
  {
    assert segs[..|segs|] == segs;
  }

  lemma SegmentIs(env: Env, s: Segment)
    requires GoodSegment(env, s)
    ensures s.recs != [] && (s.Atomic? ==> NoKeymove(env, s.recs))
  {
    hide NoKeymove, SameTxn, MoveNear;
  }

  /** What the segments of a chunk bring along for being applied. */
  lemma SegmentNeeds(env: Env, all: seq<Record>, segs: seq<Segment>, j: nat, at: nat, next: nat, enabled: bool)
    requires j < |segs| && WholeRuns(segs, [])
    requires enabled ==> forall k :: 0 <= k < |segs| ==> GoodSegment(env, segs[k])
    requires !enabled ==> forall k :: 0 <= k < |segs| ==> segs[k].Barrier?
    requires at + |segs[j].recs| <= next <= |all| && segs[j].recs == all[at..at + |segs[j].recs|]
    requires j + 1 == |segs| ==> at + |segs[j].recs| == next
    requires j + 1 < |segs| && segs[j + 1].recs != [] ==>
               at + |segs[j].recs| < next && segs[j + 1].recs[0] == all[at + |segs[j].recs|]
    ensures segs[j].Atomic? ==> NoKeymove(env, segs[j].recs)
    ensures forall r :: r in segs[j].recs ==> r in all
    ensures enabled && TxnStream(all) && NoKeymove(env, all) && Boundary(all, next) ==>
              segs[j].Atomic? && Boundary(all, at + |segs[j].recs|) && GoodSegment(env, segs[j]) && segs[j].recs != []
  {
    hide TxnStream, Boundary, NoKeymove, GoodSegment, Ends;
    if enabled { SegmentIs(env, segs[j]); }
    Inside(all, 0, |all|, at, segs[j].recs);
    assert all[0..|all|] == all;
    if enabled && TxnStream(all) && NoKeymove(env, all) && Boundary(all, next) {
      assert GoodSegment(env, segs[j]) && Ends(segs[j], After(segs, j, []));
      if j + 1 < |segs| { SegmentIs(env, segs[j + 1]); }
      SegmentBoundary(env, all, segs[j], at, at + |segs[j].recs|, After(segs, j, []));
    }
  }
}
