/** The log a clean pass applies: without the transactions that the target rejects as a whole.  Where
    runs may stop so that the next one groups the records alike, and what is parked in the end. */
module LiveLog {
  import opened Records
  import opened Store
  import opened Replay
  import opened ApplyLemmas
  import opened Rejection
  import opened Poison
  import opened TxnChunks

  /** The records from line `a` to line `b` without the lines in `gone`. */
  function Live(all: seq<Record>, gone: set<nat>, a: nat, b: nat): seq<Record>
    requires a <= b <= |all|
  {
    if a == b then []
    else Live(all, gone, a, b - 1) + if b - 1 in gone then [] else [all[b - 1]]
  }

  lemma {:induction false} LiveJoin(all: seq<Record>, gone: set<nat>, a: nat, b: nat, c: nat)
    requires a <= b <= c <= |all|
    ensures Live(all, gone, a, b) + Live(all, gone, b, c) == Live(all, gone, a, c)
  {
    if b == c {
      assert Live(all, gone, a, b) + [] == Live(all, gone, a, b);
    } else {
      LiveJoin(all, gone, a, b, c - 1);
    }
  }

  lemma {:induction false} LiveAll(all: seq<Record>, gone: set<nat>, a: nat, b: nat)
    requires a <= b <= |all| && forall i: nat :: a <= i < b ==> i !in gone
    ensures Live(all, gone, a, b) == all[a..b]
  {
    if a < b {
      LiveAll(all, gone, a, b - 1);
      assert all[a..b] == all[a..b - 1] + [all[b - 1]];
    }
  }

  lemma {:induction false} LiveNone(all: seq<Record>, gone: set<nat>, a: nat, b: nat)
    requires a <= b <= |all| && forall i: nat :: a <= i < b ==> i in gone
    ensures Live(all, gone, a, b) == []
  {
    if a < b {
      LiveNone(all, gone, a, b - 1);
    }
  }

  lemma {:induction false} LiveMembers(all: seq<Record>, gone: set<nat>, a: nat, b: nat)
    requires a <= b <= |all|
    ensures forall r :: r in Live(all, gone, a, b) ==> r in all
  {
    if a < b {
      LiveMembers(all, gone, a, b - 1);
    }
  }

  // ---------------------------------------------------------------- transactions in the log

  /** Lines `b` to `e` are a maximal run of one tag, counted from line `first` on. */
  ghost predicate TxnRun(all: seq<Record>, first: nat, b: nat, e: nat) {
    && first <= b < e <= |all| && all[b].txnId.Some? && SameTxn(all[b..e])
    && (b == first || all[b - 1].txnId != all[b].txnId)
    && EndsAt(all, e)
  }

  /** The transaction of the record before line `e`, if it has one, does not go on. */
  ghost predicate EndsAt(all: seq<Record>, e: nat) {
    0 < e < |all| && all[e - 1].txnId.Some? ==> all[e].txnId != all[e - 1].txnId
  }

  /** Line `i` belongs to a transaction without a move that the target rejects. */
  ghost predicate RejectedAt(env: Env, all: seq<Record>, first: nat, i: nat) {
    exists b: nat, e: nat :: RejectedRun(env, all, first, i, b, e)
  }

  ghost predicate RejectedRun(env: Env, all: seq<Record>, first: nat, i: nat, b: nat, e: nat) {
    TxnRun(all, first, b, e) && b <= i < e && NoKeymove(env, all[b..e]) && Rejects(env, all[b..e])
  }

  ghost function RejectedTxns(env: Env, all: seq<Record>, first: nat): set<nat> {
    set i: nat | i < |all| && RejectedAt(env, all, first, i)
  }

  /** A terminator is followed by another transaction. */
  ghost predicate Terminated(all: seq<Record>) {
    forall e: nat :: 0 < e <= |all| && all[e - 1].txnEnd ==> EndsAt(all, e)
  }

  /** The rest of a transaction behind its last move, if rejected, is refused record by record. */
  ghost predicate Stable(env: Env, all: seq<Record>, first: nat) {
    forall b: nat, k: nat, e: nat :: TxnRun(all, first, b, e) && LastMove(env, all, b, k, e) ==>
      (Rejects(env, all[k..e]) ==> forall r :: r in all[k..e] ==> Refused(env, r))
  }

  ghost predicate LastMove(env: Env, all: seq<Record>, b: nat, k: nat, e: nat) {
    b < k < e <= |all| && IsKeymove(env, all[k - 1]) && NoKeymove(env, all[k..e])
  }

  /** Where a persisted cursor can be: between transactions, or next to a move. */
  ghost predicate Placed(env: Env, all: seq<Record>, first: nat, c: nat) {
    first <= c <= |all| &&
    (c == first || EndsAt(all, c) || (0 < c < |all| && (IsKeymove(env, all[c - 1]) || IsKeymove(env, all[c]))))
  }

  lemma SameIn(all: seq<Record>, b: nat, e: nat, i: nat, j: nat)
    requires b <= i < e <= |all| && b <= j < e && SameTxn(all[b..e])
    ensures all[i].txnId == all[j].txnId
  {
    assert all[b..e][i - b] == all[i] && all[b..e][j - b] == all[j];
  }

  /** A line belongs to one run only. */
  lemma OneRun(all: seq<Record>, first: nat, i: nat, b: nat, e: nat, b2: nat, e2: nat)
    requires TxnRun(all, first, b, e) && b <= i < e && first <= b2 <= i < e2 <= |all| && SameTxn(all[b2..e2])
    ensures b <= b2 && e2 <= e
  {
    if b2 < b {
      SameIn(all, b2, e2, b - 1, b);
    }
    SameIn(all, b, e, b, e - 1);
    if e < e2 {
      SameIn(all, b2, e2, e - 1, e);
    }
  }

  /** Where the run around line `k` starts. */
  lemma RunStart(all: seq<Record>, first: nat, k: nat, e: nat) returns (b: nat)
    requires first <= k < e <= |all| && all[k].txnId.Some? && SameTxn(all[k..e]) && EndsAt(all, e)
    ensures b <= k && TxnRun(all, first, b, e)
    decreases k
  {
    b := k;
    if first < k && all[k - 1].txnId == all[k].txnId {
      GrowSame(all, k, e);
      b := RunStart(all, first, k - 1, e);
    }
  }

  lemma GrowSame(all: seq<Record>, k: nat, e: nat)
    requires 0 < k < e <= |all| && SameTxn(all[k..e]) && all[k - 1].txnId == all[k].txnId
    ensures SameTxn(all[k - 1..e])
  {
    var more, run := all[k - 1..e], all[k..e];
    forall i, j | 0 <= i < |more| && 0 <= j < |more| ensures more[i].txnId == more[j].txnId {
      assert more[i].txnId == run[if i == 0 then 0 else i - 1].txnId;
      assert more[j].txnId == run[if j == 0 then 0 else j - 1].txnId;
    }
  }

  // ---------------------------------------------------------------- segments against the clean pass

  ghost predicate AllGone(gone: set<nat>, b: nat, e: nat) {
    forall i: nat :: b <= i < e ==> i in gone
  }

  ghost predicate NoneGone(gone: set<nat>, b: nat, e: nat) {
    forall i: nat :: b <= i < e ==> i !in gone
  }

  /** Applying the segment at line `b` under the poison policy leaves what the clean pass leaves. */
  ghost predicate Agrees(env: Env, gone: set<nat>, b: nat, s: Segment, retries: nat) {
    var e := b + |s.recs|;
    || (s.Atomic? && AllGone(gone, b, e) && Rejects(env, s.recs))
    || (NoneGone(gone, b, e) &&
        (s.Atomic? && retries > 0 && Rejects(env, s.recs) ==> forall r :: r in s.recs ==> Refused(env, r)))
  }

  /** A whole transaction without a move is gone exactly when it is rejected. */
  lemma WholeTxn(env: Env, all: seq<Record>, first: nat, b: nat, e: nat)
    requires TxnRun(all, first, b, e) && NoKeymove(env, all[b..e])
    ensures var gone := RejectedTxns(env, all, first);
            if Rejects(env, all[b..e]) then AllGone(gone, b, e) else NoneGone(gone, b, e)
  {
    InBounds(all, first, b, e);
    hide Rejects, NoKeymove, TxnRun;
    forall i: nat | b <= i < e ensures RejectedAt(env, all, first, i) <==> Rejects(env, all[b..e]) {
      if Rejects(env, all[b..e]) {
        assert RejectedRun(env, all, first, i, b, e);
      } else if RejectedAt(env, all, first, i) {
        var b2: nat, e2: nat :| RejectedRun(env, all, first, i, b2, e2);
        TwoRuns(all, first, i, b, e, b2, e2);
      }
    }
  }

  lemma InBounds(all: seq<Record>, first: nat, b: nat, e: nat)
    requires TxnRun(all, first, b, e)
    ensures first <= b < e <= |all|
  {
  }

  lemma TwoRuns(all: seq<Record>, first: nat, i: nat, b: nat, e: nat, b2: nat, e2: nat)
    requires TxnRun(all, first, b, e) && TxnRun(all, first, b2, e2) && b <= i < e && b2 <= i < e2
    ensures b == b2 && e == e2
  {
    OneRun(all, first, i, b, e, b2, e2);
    OneRun(all, first, i, b2, e2, b, e);
  }

  /** Nothing of a transaction with a move is gone. */
  lemma MoveKeeps(env: Env, all: seq<Record>, first: nat, i: nat, p: nat, q: nat)
    requires first <= p <= i < q <= |all| && SameTxn(all[p..q]) && !NoKeymove(env, all[p..q])
    ensures i !in RejectedTxns(env, all, first)
  {
    hide Rejects, IsKeymove;
    if RejectedAt(env, all, first, i) {
      var b: nat, e: nat :| RejectedRun(env, all, first, i, b, e);
      OneRun(all, first, i, b, e, p, q);
      WiderHasMove(env, all, p, q, b, e);
    }
  }

  lemma WiderHasMove(env: Env, all: seq<Record>, p: nat, q: nat, b: nat, e: nat)
    requires b <= p <= q <= e <= |all| && !NoKeymove(env, all[p..q])
    ensures !NoKeymove(env, all[b..e])
  {
    hide IsKeymove;
    var r :| r in all[p..q] && IsKeymove(env, r);
    var k :| p <= k < q && all[k] == r;
    assert all[b..e][k - b] == r;
  }

  lemma BarrierKept(env: Env, all: seq<Record>, first: nat, b: nat, e: nat)
    requires first <= b <= e <= |all| && GoodSegment(env, Barrier(all[b..e]))
    ensures NoneGone(RejectedTxns(env, all, first), b, e)
  {
    hide NoKeymove, SameTxn;
    var rs := all[b..e];
    forall i: nat | b <= i < e ensures i !in RejectedTxns(env, all, first) {
      assert rs[i - b] == all[i];
      if all[i].txnId.None? {
        UntaggedKept(env, all, first, i);
      } else {
        assert MoveNear(env, rs, i - b);
        var p: nat, q: nat :| MoveWithin(env, rs, i - b, p, q);
        SubSlice(all, b, e, p, q);
        MoveKeeps(env, all, first, i, b + p, b + q);
      }
    }
  }

  lemma SubSlice<T>(s: seq<T>, b: nat, e: nat, p: nat, q: nat)
    requires b <= e <= |s| && p <= q <= e - b
    ensures s[b + p..b + q] == s[b..e][p..q]
  {
    var t, u := s[b + p..b + q], s[b..e][p..q];
    assert |t| == |u| && forall i :: 0 <= i < |t| ==> t[i] == u[i];
  }

  lemma UntaggedKept(env: Env, all: seq<Record>, first: nat, i: nat)
    requires i < |all| && all[i].txnId.None?
    ensures i !in RejectedTxns(env, all, first)
  {
    hide Rejects, NoKeymove;
    if RejectedAt(env, all, first, i) {
      var b: nat, e: nat :| RejectedRun(env, all, first, i, b, e);
      SameIn(all, b, e, i, b);
    }
  }

  /** The rest of a transaction behind its last move. */
  lemma RestAgrees(env: Env, all: seq<Record>, first: nat, k: nat, e: nat, retries: nat)
    requires Stable(env, all, first) && first < k < e <= |all|
    requires all[k].txnId.Some? && SameTxn(all[k..e]) && EndsAt(all, e) && NoKeymove(env, all[k..e])
    requires all[k - 1].txnId == all[k].txnId && IsKeymove(env, all[k - 1])
    ensures Agrees(env, RejectedTxns(env, all, first), k, Atomic(all[k..e]), retries)
  {
    hide Rejects, Refused, NoKeymove, IsKeymove;
    var b := RunStart(all, first, k, e);
    if b == k {
      assert false;
    }
    assert LastMove(env, all, b, k, e);
    assert !NoKeymove(env, all[b..e]) by { HasMove(env, all, b, k, e); }
    forall i: nat | k <= i < e ensures i !in RejectedTxns(env, all, first) {
      MoveKeeps(env, all, first, i, b, e);
    }
  }

  lemma HasMove(env: Env, all: seq<Record>, b: nat, k: nat, e: nat)
    requires b < k <= e <= |all| && IsKeymove(env, all[k - 1])
    ensures !NoKeymove(env, all[b..e])
  {
    assert all[b..e][k - 1 - b] == all[k - 1];
  }

  /** A segment of a run that starts at a well-placed cursor, or at the end of another segment. */
  lemma SegmentAgrees(env: Env, all: seq<Record>, first: nat, b: nat, s: Segment, retries: nat)
    requires Stable(env, all, first) && Placed(env, all, first, b) && GoodSegment(env, s)
    requires b + |s.recs| <= |all| && s.recs == all[b..b + |s.recs|] && EndsAt(all, b + |s.recs|)
    ensures Agrees(env, RejectedTxns(env, all, first), b, s, retries)
  {
    hide Rejects, NoKeymove, IsKeymove, Stable, MoveNear;
    var e := b + |s.recs|;
    if s.Barrier? {
      BarrierKept(env, all, first, b, e);
    } else {
      assert s.recs[0] == all[b] && s.recs[0] in s.recs;
      if b == first || all[b - 1].txnId != all[b].txnId {
        WholeTxn(env, all, first, b, e);
      } else {
        assert !IsKeymove(env, all[b]) by { FirstIsNoMove(env, s.recs); }
        RestAgrees(env, all, first, b, e, retries);
      }
    }
  }

  lemma FirstIsNoMove(env: Env, rs: seq<Record>)
    requires rs != [] && NoKeymove(env, rs)
    ensures !IsKeymove(env, rs[0])
  {
  }

  lemma GoneNoMove(env: Env, all: seq<Record>, first: nat, i: nat)
    requires i in RejectedTxns(env, all, first)
    ensures i < |all| && !IsKeymove(env, all[i])
  {
    hide Rejects, IsKeymove, TxnRun;
    var b: nat, e: nat :| RejectedRun(env, all, first, i, b, e);
    InBounds(all, first, b, e);
    assert all[b..e][i - b] == all[i];
  }

  // ---------------------------------------------------------------- what is parked

  /** Of the lines from `first` to the cursor, those of rejected transactions are in the dead letter; and
      so is every other refused record, unless a later line that was applied replaces it. */
  ghost predicate Settled(env: Env, all: seq<Record>, gone: set<nat>, first: nat, cursor: nat, parked: seq<Record>) {
    cursor <= |all| && forall i: nat :: first <= i < cursor ==> SettledAt(env, all, gone, i, cursor, parked)
  }

  ghost predicate SettledAt(env: Env, all: seq<Record>, gone: set<nat>, i: nat, upto: nat, parked: seq<Record>)
    requires i < upto <= |all|
  {
    if i in gone then Noted(parked, all[i])
    else Refused(env, all[i]) ==> Noted(parked, all[i]) || ReplacedLive(env, all, gone, i, upto)
  }

  ghost predicate ReplacedLive(env: Env, all: seq<Record>, gone: set<nat>, i: nat, upto: nat)
    requires i < upto <= |all|
  {
    exists j: nat :: i < j < upto && j !in gone && Replaces(env, all[i], all[j])
  }

  lemma SettledMore(env: Env, all: seq<Record>, gone: set<nat>, first: nat, c: nat, parked: seq<Record>,
                    now: seq<Record>)
    requires Settled(env, all, gone, first, c, parked) && parked <= now
    ensures Settled(env, all, gone, first, c, now)
  {
    hide Refused, Noted, ReplacedLive;
    forall i: nat | first <= i < c ensures SettledAt(env, all, gone, i, c, now) {
      assert SettledAt(env, all, gone, i, c, parked);
      if Noted(parked, all[i]) { NotedMore(parked, now, all[i]); }
    }
  }

  lemma SettledFurther(env: Env, all: seq<Record>, gone: set<nat>, i: nat, c: nat, d: nat, parked: seq<Record>)
    requires i < c <= d <= |all| && SettledAt(env, all, gone, i, c, parked)
    ensures SettledAt(env, all, gone, i, d, parked)
  {
    hide Refused, Noted, Replaces;
    if ReplacedLive(env, all, gone, i, c) {
      var j: nat :| i < j < c && j !in gone && Replaces(env, all[i], all[j]);
    }
  }

  /** Passing `k` records of a segment that the clean pass keeps. */
  lemma SettledSegment(env: Env, all: seq<Record>, gone: set<nat>, first: nat, base: nat, seg: seq<Record>, k: nat,
                       parked: seq<Record>, now: seq<Record>)
    requires Settled(env, all, gone, first, base, parked) && parked <= now
    requires base + |seg| <= |all| && seg == all[base..base + |seg|] && k <= |seg|
    requires NoneGone(gone, base, base + k) && Accounted(env, seg, k, now)
    ensures Settled(env, all, gone, first, base + k, now)
  {
    hide Refused, Noted, Replaces;
    SettledMore(env, all, gone, first, base, parked, now);
    var c := base + k;
    forall i: nat | first <= i < c ensures SettledAt(env, all, gone, i, c, now) {
      if i < base {
        assert SettledAt(env, all, gone, i, base, now);
        SettledFurther(env, all, gone, i, base, c, now);
      } else if Refused(env, all[i]) {
        assert seg[i - base] == all[i];
        if ReplacedBelow(env, seg, i - base, k) {
          var j: nat :| i - base < j < k && Replaces(env, seg[i - base], seg[j]);
          assert all[base + j] == seg[j];
        }
      }
    }
  }

  /** Passing a transaction that the clean pass leaves out. */
  lemma SettledGone(env: Env, all: seq<Record>, gone: set<nat>, first: nat, base: nat, seg: seq<Record>,
                    parked: seq<Record>, now: seq<Record>)
    requires Settled(env, all, gone, first, base, parked) && parked <= now
    requires base + |seg| <= |all| && seg == all[base..base + |seg|]
    requires AllGone(gone, base, base + |seg|) && forall r :: r in seg ==> Noted(now, r)
    ensures Settled(env, all, gone, first, base + |seg|, now)
  {
    hide Refused, Noted, Replaces;
    SettledMore(env, all, gone, first, base, parked, now);
    var c := base + |seg|;
    forall i: nat | first <= i < c ensures SettledAt(env, all, gone, i, c, now) {
      if i < base {
        assert SettledAt(env, all, gone, i, base, now);
        SettledFurther(env, all, gone, i, base, c, now);
      } else {
        assert seg[i - base] == all[i];
      }
    }
  }

  /** Records the clean pass leaves out: refused ones, and those of rejected transactions; never a move. */
  ghost predicate LeftOut(env: Env, all: seq<Record>, gone: set<nat>, r: Record) {
    !IsKeymove(env, r) && exists i: nat :: i < |all| && all[i] == r && (i in gone || Refused(env, r))
  }

  /** Nothing else was parked between two moments. */
  ghost predicate ParksLeftOut(env: Env, all: seq<Record>, gone: set<nat>, before: seq<Record>, now: seq<Record>) {
    before <= now && forall i :: |before| <= i < |now| ==> LeftOut(env, all, gone, now[i])
  }

  lemma LeftOutThen(env: Env, all: seq<Record>, gone: set<nat>, a: seq<Record>, b: seq<Record>, c: seq<Record>)
    requires ParksLeftOut(env, all, gone, a, b) && ParksLeftOut(env, all, gone, b, c)
    ensures ParksLeftOut(env, all, gone, a, c)
  {
    forall i | |a| <= i < |c| ensures LeftOut(env, all, gone, c[i]) {
      if i < |b| { assert c[i] == b[i]; }
    }
  }

  lemma LeftOutBarrier(env: Env, all: seq<Record>, gone: set<nat>, base: nat, seg: seq<Record>,
                       before: seq<Record>, now: seq<Record>)
    requires base + |seg| <= |all| && seg == all[base..base + |seg|] && ParksOnlyRefused(env, before, now, seg)
    ensures ParksLeftOut(env, all, gone, before, now)
  {
    hide Refused, IsKeymove;
    forall i | |before| <= i < |now| ensures LeftOut(env, all, gone, now[i]) {
      assert Parkable(env, seg, now[i]);
      var k :| 0 <= k < |seg| && seg[k] == now[i];
      assert all[base + k] == now[i];
    }
  }

  lemma LeftOutGroup(env: Env, all: seq<Record>, gone: set<nat>, base: nat, seg: seq<Record>,
                     before: seq<Record>, now: seq<Record>)
    requires base + |seg| <= |all| && seg == all[base..base + |seg|] && NoKeymove(env, seg)
    requires AllGone(gone, base, base + |seg|) || forall r :: r in seg ==> Refused(env, r)
    requires before <= now && forall i :: |before| <= i < |now| ==> now[i] in seg
    ensures ParksLeftOut(env, all, gone, before, now)
  {
    hide Refused, IsKeymove;
    forall i | |before| <= i < |now| ensures LeftOut(env, all, gone, now[i]) {
      var k :| 0 <= k < |seg| && seg[k] == now[i];
      assert all[base + k] == now[i];
    }
  }

  // ---------------------------------------------------------------- nothing lost

  /** With positions of their own, the left-out records behind the cursor are in the dead letter
      themselves. */
  lemma AllParked(env: Env, all: seq<Record>, gone: set<nat>, first: nat, cursor: nat, parked: seq<Record>, i: nat)
    requires gone <= RejectedTxns(env, all, first)
    requires Settled(env, all, gone, first, cursor, parked) && first <= i < cursor
    requires forall q :: q in parked ==> LeftOut(env, all, gone, q)
    requires forall a, b | LeftOut(env, all, gone, a) && LeftOut(env, all, gone, b) ::
               a.pos == b.pos && a.pos != Absent ==> a == b
    requires i in gone || (Refused(env, all[i]) && !ReplacedLive(env, all, gone, i, cursor))
    ensures all[i] in parked
  {
    assert SettledAt(env, all, gone, i, cursor, parked);
    if i in gone {
      GoneNoMove(env, all, first, i);
    }
    assert LeftOut(env, all, gone, all[i]);
  }

  // ---------------------------------------------------------------- an interruption that matters

  /** A shop whose target refuses one value. */
  function ShopEnv(): Env {
    Env(map["T" := Meta(["k"], ["k", "v"])],
        (t: string, image: Image) => "v" in image && image["v"] == Text("bad"),
        (r: Record) => "v" in r.after && r.after["v"] == Text("bad"))
  }

  function ShopRecord(op: Op, from: Image, k: string, v: string, end: bool): Record {
    Record(op, "T", map["k" := Text(k)], map["k" := Text(k), "v" := Text(v)], from, Absent, Some(1), end)
  }

  /** One transaction: a row changes its key, one row is inserted that the target accepts, and one that it
      refuses. */
  function ShopLog(): seq<Record> {
    [ShopRecord(Update, map["k" := Text("1")], "2", "ok", false),
     ShopRecord(Insert, map[], "3", "ok", false),
     ShopRecord(Insert, map[], "4", "bad", true)]
  }

  lemma ShopSchema()
    ensures ValidSchema(ShopEnv().schema) && Upper("T") == "T" && ShopEnv().schema["T"] == Meta(["k"], ["k", "v"])
  {
  }

  lemma ShopKey(image: Image, k: string)
    requires "k" in image && image["k"] == Text(k)
    ensures KeyOf(image, ["k"]) == [Text(k)]
  {
  }

  /** An inserted row. */
  lemma ShopInsert(k: string, v: string, end: bool)
    ensures var env, r := ShopEnv(), ShopRecord(Insert, map[], k, v, end);
            && FullOf(env, r, "T") && !IsKeymove(env, r) && LocOf(env, r) == Loc("T", [Text(k)])
            && (Refused(env, r) <==> v == "bad") && Sound(env, r)
  {
    var env, r := ShopEnv(), ShopRecord(Insert, map[], k, v, end);
    ShopSchema();
    ShopKey(r.key, k);
    hide Upper, KeyOf;
    assert Present(Meta(["k"], ["k", "v"]), r.after) == r.after;
  }

  /** A row that changes its key. */
  lemma ShopMove(from: string, to: string, v: string, end: bool)
    requires from != to
    ensures var env, r := ShopEnv(), ShopRecord(Update, map["k" := Text(from)], to, v, end);
            IsKeymove(env, r) && Known(env, r) && Sound(env, r)
  {
    var env, r := ShopEnv(), ShopRecord(Update, map["k" := Text(from)], to, v, end);
    ShopSchema();
    ShopKey(r.beforeKey, from);
    ShopKey(r.key, to);
    hide Upper, KeyOf;
  }

  /** Uninterrupted, the refused row is parked and the accepted one lands.  A run that dies behind the move
      makes the next one park both, and the accepted row is gone. */
  lemma InterruptionMatters()
    ensures var env, all := ShopEnv(), ShopLog();
            var rest := all[1..];
            && AllSound(env, all) && OneSpelling(env, all)
            && TxnRun(all, 0, 0, 3) && LastMove(env, all, 0, 1, 3) && !Stable(env, all, 0)
            && BatchParks(env, rest) == [all[2]] && GroupParks(env, rest) == rest == [all[1], all[2]]
            && Rejects(env, rest) && Loc("T", [Text("3")]) in Fold(env, rest, map[])
  {
    var env, all := ShopEnv(), ShopLog();
    ShopMove("1", "2", "ok", false);
    ShopInsert("3", "ok", false);
    ShopInsert("4", "bad", true);
    hide *;
    ShopTables();
    ShopStory(env, all, all[0], all[1], all[2]);
  }

  lemma ShopTables()
    ensures var all := ShopLog();
            && |all| == 3 && (forall i :: 0 <= i < 3 ==> all[i].table == "T" && all[i].txnId == Some(1))
            && all[0] == ShopRecord(Update, map["k" := Text("1")], "2", "ok", false)
            && all[1] == ShopRecord(Insert, map[], "3", "ok", false)
            && all[2] == ShopRecord(Insert, map[], "4", "bad", true)
  {
  }

  lemma ShopStory(env: Env, all: seq<Record>, move: Record, good: Record, bad: Record)
    requires all == [move, good, bad] && move.table == good.table == bad.table
    requires move.txnId == good.txnId == bad.txnId == Some(1)
    requires IsKeymove(env, move) && FullOf(env, good, "T") && FullOf(env, bad, "T")
    requires LocOf(env, good) != LocOf(env, bad) && !Refused(env, good) && Refused(env, bad)
    requires Sound(env, move) && Sound(env, good) && Sound(env, bad)
    ensures AllSound(env, all) && OneSpelling(env, all)
    ensures TxnRun(all, 0, 0, 3) && LastMove(env, all, 0, 1, 3) && !Stable(env, all, 0)
    ensures var rest := all[1..];
            && rest == [good, bad] && BatchParks(env, rest) == [bad] && GroupParks(env, rest) == rest
            && Rejects(env, rest) && LocOf(env, good) in Fold(env, rest, map[])
  {
    hide Refused, IsKeymove, LocOf, FullOf, Sound, Rejects, Fold, BatchParks, GroupParks, NoKeymove, Stable;
    assert all[1..] == [good, bad] && all[1..3] == [good, bad];
    ShopRest(env, good, bad);
    ShopUnstable(env, all);
  }

  lemma ShopUnstable(env: Env, all: seq<Record>)
    requires |all| == 3 && all[0].txnId == all[1].txnId == all[2].txnId == Some(1)
    requires IsKeymove(env, all[0]) && NoKeymove(env, all[1..3]) && Rejects(env, all[1..3]) && !Refused(env, all[1])
    ensures TxnRun(all, 0, 0, 3) && LastMove(env, all, 0, 1, 3) && !Stable(env, all, 0)
  {
    hide Rejects, Refused, IsKeymove, NoKeymove;
    assert TxnRun(all, 0, 0, 3) && LastMove(env, all, 0, 1, 3);
    assert all[1..3][0] == all[1] && all[1] in all[1..3];
  }

  /** An accepted row in front of a refused one. */
  lemma ShopRest(env: Env, good: Record, bad: Record)
    requires FullOf(env, good, "T") && FullOf(env, bad, "T") && LocOf(env, good) != LocOf(env, bad)
    requires !Refused(env, good) && Refused(env, bad) && Sound(env, good) && Sound(env, bad)
    requires good.table == bad.table
    ensures Rejects(env, [good, bad]) && RefusedIn(env, [good, bad]) == [bad]
    ensures BatchParks(env, [good, bad]) == [bad] && GroupParks(env, [good, bad]) == [good, bad]
    ensures NoKeymove(env, [good, bad]) && LocOf(env, good) in Fold(env, [good, bad], map[])
  {
    hide Refused, Rejects, LocOf, Known, Overwritten, RefusedIn, BatchRejects;
    LastRefused(env, [good, bad]);
    OneRejects(env, [good, bad], good.table);
    ShopRefused(env, good, bad);
    ShopFold(env, good, bad);
  }

  lemma ShopRefused(env: Env, good: Record, bad: Record)
    requires !Refused(env, good) && Refused(env, bad)
    ensures RefusedIn(env, [good, bad]) == [bad]
  {
    hide Refused, RefusedIn;
    assert RefusedIn(env, []) == [] by { NoneRefusedIn(env); }
    assert [] + [good] == [good] && [good] + [bad] == [good, bad] && [] + [bad] == [bad];
    RefusedNext(env, [], good);
    RefusedNext(env, [good], bad);
  }

  lemma NoneRefusedIn(env: Env)
    ensures RefusedIn(env, []) == []
  {
  }

  /** A batch of one table is one bucket. */
  lemma OneRejects(env: Env, rs: seq<Record>, n: string)
    requires Rejects(env, rs) && forall r :: r in rs ==> r.table == n
    ensures BatchRejects(env, rs)
  {
    hide Rejects, ByName;
    ByNameAll(rs, n);
    assert Rejects(env, ByName(rs, n));
  }

  /** Nothing comes behind the last record, so nothing replaces it. */
  lemma LastRefused(env: Env, rs: seq<Record>)
    requires rs != [] && Refused(env, rs[|rs| - 1])
    ensures Rejects(env, rs)
  {
    hide Refused, Replaced;
    assert !Overwritten(env, rs, |rs| - 1);
  }

  lemma ShopFold(env: Env, good: Record, bad: Record)
    requires FullOf(env, good, "T") && FullOf(env, bad, "T")
    requires LocOf(env, good) != LocOf(env, bad)
    requires !Refused(env, good) && Refused(env, bad) && Sound(env, good) && Sound(env, bad)
    ensures LocOf(env, good) in Fold(env, [good, bad], map[])
  {
    hide Refused;
    assert [good, bad][..1] == [good] && [good][..0] == [];
    assert Fold(env, [good], map[]) == Step(env, map[], good);
    DroppedStep(env, bad, Fold(env, [good], map[]));
  }
}
