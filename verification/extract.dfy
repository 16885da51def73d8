/** Exactly-once capture: what an extract cycle appends, and why no crash makes it lose or repeat a
    source record. */
module Dedup {
  import opened Records

  type PosKeyT = (int, int)

  function KeyIn(r: Record): PosKeyT
    requires PosKey(r.pos).Some?
  {
    PosKey(r.pos).value
  }

  /** Extract-start dedup: with the resume coordinate `since` (None: a fresh anchor) and the tail key
      of the trail, keep what is not already in the trail.  Without a tail key, or with a tail below
      the resume coordinate, there is no crash window and nothing is dropped; an unordered record is
      never dropped. */
  function Remaining(rs: seq<Record>, tail: PosKeyT): seq<Record> {
    if rs == [] then []
    else
      var r := rs[|rs| - 1];
      Remaining(rs[..|rs| - 1], tail) +
      if PosKey(r.pos).None? || KeyBefore(tail, PosKey(r.pos).value) then [r] else []
  }

  function Deduped(rs: seq<Record>, since: Option<PosKeyT>, tail: Option<PosKeyT>): seq<Record> {
    if since.None? || tail.None? || KeyBefore(tail.value, since.value) then rs
    else Remaining(rs, tail.value)
  }

  method DropAlreadyTrailed(rs: seq<Record>, since: Option<PosKeyT>, tail: Option<PosKeyT>)
    returns (kept: seq<Record>)
    ensures kept == Deduped(rs, since, tail)
  {
    if since.None? || tail.None? || KeyBefore(tail.value, since.value) {
      return rs;
    }
    kept := [];
    for i := 0 to |rs|
      invariant kept == Remaining(rs[..i], tail.value)
    {
      assert rs[..i + 1][..i] == rs[..i];
      var key := PosKey(rs[i].pos);
      if key.None? || KeyBefore(tail.value, key.value) {
        kept := kept + [rs[i]];
      }
    }
    assert rs[..|rs|] == rs;
  }

  // ---------------------------------------------------------------- what deduplication should keep

  /** The records of a capture that the trail lacks. */
  function Missing(rs: seq<Record>, trailed: seq<Record>): seq<Record> {
    if rs == [] then []
    else Missing(rs[..|rs| - 1], trailed) + if rs[|rs| - 1] in trailed then [] else [rs[|rs| - 1]]
  }

  /** The record orders behind the trail tail, or has no order. */
  predicate Later(r: Record, tail: PosKeyT) {
    PosKey(r.pos).None? || KeyBefore(tail, PosKey(r.pos).value)
  }

  lemma {:induction false} RemainingMembers(rs: seq<Record>, tail: PosKeyT, r: Record)
    ensures r in Remaining(rs, tail) <==> r in rs && Later(r, tail)
  {
    if rs != [] {
      hide KeyBefore, PosKey;
      RemainingMembers(rs[..|rs| - 1], tail, r);
      assert rs == rs[..|rs| - 1] + [rs[|rs| - 1]];
    }
  }

  lemma {:induction false} MissingMembers(rs: seq<Record>, trailed: seq<Record>, r: Record)
    ensures r in Missing(rs, trailed) <==> r in rs && r !in trailed
  {
    if rs != [] {
      MissingMembers(rs[..|rs| - 1], trailed, r);
      assert rs == rs[..|rs| - 1] + [rs[|rs| - 1]];
    }
  }

  lemma {:induction false} SameKept(rs: seq<Record>, trailed: seq<Record>, tail: PosKeyT)
    requires forall r :: r in rs ==> (Later(r, tail) <==> r !in trailed)
    ensures Remaining(rs, tail) == Missing(rs, trailed)
  {
    if rs != [] {
      hide KeyBefore, PosKey;
      SameKept(rs[..|rs| - 1], trailed, tail);
    }
  }

  lemma {:induction false} NoneTrailed(rs: seq<Record>, trailed: seq<Record>)
    requires forall r :: r in rs ==> r !in trailed
    ensures Missing(rs, trailed) == rs
  {
    if rs != [] {
      NoneTrailed(rs[..|rs| - 1], trailed);
    }
  }

  /** Whatever the order of a capture: against a readable tail, deduplication keeps exactly the records
      that the trail lacks if and only if, of the captured records, just those that order behind the tail
      are missing - or none is trailed where the tail lies below the resume coordinate. */
  lemma DedupExactly(rs: seq<Record>, trailed: seq<Record>, since: PosKeyT, tail: PosKeyT)
    ensures Deduped(rs, Some(since), Some(tail)) == Missing(rs, trailed) <==>
            forall r :: r in rs ==> (KeyBefore(tail, since) || Later(r, tail) <==> r !in trailed)
  {
    hide Remaining, Missing, Later, KeyBefore;
    var kept := Deduped(rs, Some(since), Some(tail));
    forall r ensures r in kept <==> r in rs && (KeyBefore(tail, since) || Later(r, tail)) {
      RemainingMembers(rs, tail, r);
    }
    if kept == Missing(rs, trailed) {
      forall r | r in rs ensures KeyBefore(tail, since) || Later(r, tail) <==> r !in trailed {
        MissingMembers(rs, trailed, r);
      }
    }
    if forall r :: r in rs ==> (KeyBefore(tail, since) || Later(r, tail) <==> r !in trailed) {
      if KeyBefore(tail, since) {
        NoneTrailed(rs, trailed);
      } else {
        SameKept(rs, trailed, tail);
      }
    }
  }

  // ---------------------------------------------------------------- ordered streams

  predicate Keyed(rs: seq<Record>) {
    forall i :: 0 <= i < |rs| ==> PosKey(rs[i].pos).Some?
  }

  /** Every record carries a position, and positions strictly increase. */
  ghost predicate KeysUp(rs: seq<Record>) {
    Keyed(rs) && forall i, j :: 0 <= i < j < |rs| ==> KeyBefore(KeyIn(rs[i]), KeyIn(rs[j]))
  }

  /** The coordinate `c` cuts the stream after its first `i` records. */
  predicate CutAt(src: seq<Record>, c: int, i: nat) {
    && i <= |src| && Keyed(src)
    && (forall k :: 0 <= k < i ==> KeyIn(src[k]).0 <= c)
    && (forall k :: i <= k < |src| ==> KeyIn(src[k]).0 > c)
  }

  lemma {:induction false} RemainingAll(rs: seq<Record>, tail: PosKeyT)
    requires Keyed(rs) && forall i :: 0 <= i < |rs| ==> KeyBefore(tail, KeyIn(rs[i]))
    ensures Remaining(rs, tail) == rs
  {
    if rs != [] {
      hide KeyBefore;
      assert rs == rs[..|rs| - 1] + [rs[|rs| - 1]];
      RemainingAll(rs[..|rs| - 1], tail);
    }
  }

  lemma {:induction false} RemainingNone(rs: seq<Record>, tail: PosKeyT)
    requires Keyed(rs) && forall i :: 0 <= i < |rs| ==> !KeyBefore(tail, KeyIn(rs[i]))
    ensures Remaining(rs, tail) == []
  {
    if rs != [] {
      hide KeyBefore;
      RemainingNone(rs[..|rs| - 1], tail);
    }
  }

  lemma {:induction false} RemainingSplit(a: seq<Record>, b: seq<Record>, tail: PosKeyT)
    ensures Remaining(a + b, tail) == Remaining(a, tail) + Remaining(b, tail)
  {
    if b == [] {
      assert a + b == a;
    } else {
      assert (a + b)[..|a + b| - 1] == a + b[..|b| - 1];
      RemainingSplit(a, b[..|b| - 1], tail);
    }
  }

  /** A capture of `src[p..q]` against a trail that holds `src[..b]` and whose tail lies between the
      two parts: exactly the missing part remains. */
  lemma RemainingExact(src: seq<Record>, p: nat, q: nat, b: nat, tail: PosKeyT)
    requires Keyed(src) && KeysUp(src) && p <= b <= |src| && p <= q <= |src|
    requires b > 0 ==> !KeyBefore(tail, KeyIn(src[b - 1]))
    requires forall k :: b <= k < |src| ==> KeyBefore(tail, KeyIn(src[k]))
    ensures Remaining(src[p..q], tail) == if b <= q then src[b..q] else []
  {
    hide Remaining;
    if b <= q {
      PartGone(src, p, b, b, tail);
      PartKept(src, b, q, b, tail);
      SliceMeets(src, p, b, q);
      RemainingParts(src[p..q], src[p..b], src[b..q], tail);
    } else {
      PartGone(src, p, q, b, tail);
    }
  }

  lemma SliceMeets<T>(s: seq<T>, p: nat, m: nat, q: nat)
    requires p <= m <= q <= |s|
    ensures s[p..q] == s[p..m] + s[m..q]
  {
  }

  lemma RemainingParts(whole: seq<Record>, gone: seq<Record>, kept: seq<Record>, tail: PosKeyT)
    requires whole == gone + kept && Remaining(gone, tail) == [] && Remaining(kept, tail) == kept
    ensures Remaining(whole, tail) == kept
  {
    hide Remaining;
    RemainingSplit(gone, kept, tail);
    assert [] + kept == kept;
  }

  /** Nothing remains of a part that is already trailed. */
  lemma PartGone(src: seq<Record>, p: nat, q: nat, b: nat, tail: PosKeyT)
    requires Keyed(src) && KeysUp(src) && p <= q <= b <= |src|
    requires b > 0 ==> !KeyBefore(tail, KeyIn(src[b - 1]))
    ensures Remaining(src[p..q], tail) == []
  {
    hide Remaining;
    NotBehind(src, b, tail);
    SliceRemaining(src, p, q, tail, false);
  }

  /** All of a missing part remains. */
  lemma PartKept(src: seq<Record>, p: nat, q: nat, b: nat, tail: PosKeyT)
    requires Keyed(src) && b <= p <= q <= |src|
    requires forall k :: b <= k < |src| ==> KeyBefore(tail, KeyIn(src[k]))
    ensures Remaining(src[p..q], tail) == src[p..q]
  {
    hide Remaining;
    SliceRemaining(src, p, q, tail, true);
  }

  lemma SliceRemaining(src: seq<Record>, p: nat, q: nat, tail: PosKeyT, later: bool)
    requires Keyed(src) && p <= q <= |src|
    requires forall k :: p <= k < q ==> (KeyBefore(tail, KeyIn(src[k])) <==> later)
    ensures Remaining(src[p..q], tail) == if later then src[p..q] else []
  {
    SliceKeyed(src, p, q);
    hide KeyBefore, KeyIn, Keyed, Remaining;
    if later {
      RemainingAll(src[p..q], tail);
    } else {
      RemainingNone(src[p..q], tail);
    }
  }

  lemma NotBehind(src: seq<Record>, b: nat, tail: PosKeyT)
    requires Keyed(src) && KeysUp(src) && b <= |src| && (b > 0 ==> !KeyBefore(tail, KeyIn(src[b - 1])))
    ensures forall k :: 0 <= k < b ==> !KeyBefore(tail, KeyIn(src[k]))
  {
    forall k | 0 <= k < b ensures !KeyBefore(tail, KeyIn(src[k])) {
      if k < b - 1 { assert KeyBefore(KeyIn(src[k]), KeyIn(src[b - 1])); }
    }
  }

  lemma SliceKeyed(src: seq<Record>, a: nat, b: nat)
    requires Keyed(src) && a <= b <= |src|
    ensures Keyed(src[a..b]) && forall i :: 0 <= i < b - a ==> KeyIn(src[a..b][i]) == KeyIn(src[a + i])
  {
  }

  // ---------------------------------------------------------------- what the trail holds

  /** The records of the trail that are source records, in order. */
  function Captured(rs: seq<Record>, src: seq<Record>): seq<Record> {
    if rs == [] then []
    else
      Captured(rs[..|rs| - 1], src) + if rs[|rs| - 1] in src then [rs[|rs| - 1]] else []
  }

  lemma {:induction false} CapturedSplit(a: seq<Record>, b: seq<Record>, src: seq<Record>)
    ensures Captured(a + b, src) == Captured(a, src) + Captured(b, src)
  {
    if b == [] {
      assert a + b == a;
    } else {
      assert (a + b)[..|a + b| - 1] == a + b[..|b| - 1];
      CapturedSplit(a, b[..|b| - 1], src);
    }
  }

  lemma {:induction false} CapturedAll(rs: seq<Record>, src: seq<Record>)
    requires forall r :: r in rs ==> r in src
    ensures Captured(rs, src) == rs
  {
    if rs != [] {
      var before, last := rs[..|rs| - 1], rs[|rs| - 1];
      CapturedAll(before, src);
      assert last in rs && Captured(rs, src) == before + [last];
    }
  }

  lemma {:induction false} CapturedNone(rs: seq<Record>, src: seq<Record>)
    requires forall r :: r in rs ==> r !in src
    ensures Captured(rs, src) == []
  {
    if rs != [] {
      CapturedNone(rs[..|rs| - 1], src);
    }
  }

  lemma {:induction false} CapturedMembers(rs: seq<Record>, src: seq<Record>, r: Record)
    ensures r in Captured(rs, src) <==> r in rs && r in src
  {
    if rs != [] {
      CapturedMembers(rs[..|rs| - 1], src, r);
      assert rs == rs[..|rs| - 1] + [rs[|rs| - 1]];
    }
  }

  /** The trail holds the source stream up to record `b`, once and in order, possibly with snapshot
      rows in between; its keys strictly increase and lie before every later source record; and the
      durable position `pos` is no further than the trail. */
  ghost predicate ExactlyOnce(src: seq<Record>, rs: seq<Record>, b: nat, pos: Option<int>) {
    && KeysUp(src) && KeysUp(rs) && b <= |src|
    && Captured(rs, src) == src[..b]
    && (forall k :: b <= k < |src| && rs != [] ==> KeyBefore(KeyIn(rs[|rs| - 1]), KeyIn(src[k])))
    && (pos.None? ==> b == 0)
    && (pos.Some? ==> exists p: nat :: p <= b && CutAt(src, pos.value, p))
  }

  /** The last trailed record orders at or after every captured one. */
  lemma TailCovers(src: seq<Record>, rs: seq<Record>, b: nat, k: nat)
    requires KeysUp(src) && KeysUp(rs) && b <= |src| && Captured(rs, src) == src[..b] && k < b
    ensures rs != [] && !KeyBefore(KeyIn(rs[|rs| - 1]), KeyIn(src[k]))
  {
    assert src[..b][k] == src[k];
    CapturedMembers(rs, src, src[k]);
    var i :| 0 <= i < |rs| && rs[i] == src[k];
    if i < |rs| - 1 { assert KeyBefore(KeyIn(rs[i]), KeyIn(rs[|rs| - 1])); }
  }

  /** Appending the next source records keeps the invariant. */
  lemma AppendCaptured(src: seq<Record>, rs: seq<Record>, b: nat, pos: Option<int>, j: nat)
    requires ExactlyOnce(src, rs, b, pos) && b + j <= |src| && (pos.None? ==> j == 0)
    ensures ExactlyOnce(src, rs + src[b..b + j], b + j, pos)
  {
    if j == 0 {
      assert rs + src[b..b] == rs;
      return;
    }
    hide KeysUp, KeyBefore, Captured, CutAt, KeyIn, Keyed;
    NextCaptured(src, rs, src[b..b + j], b);
    NextKeys(src, rs, b, j);
    var p: nat :| p <= b && CutAt(src, pos.value, p);
    assert p <= b + j && CutAt(src, pos.value, p);
  }

  lemma NextCaptured(src: seq<Record>, rs: seq<Record>, more: seq<Record>, b: nat)
    requires b + |more| <= |src| && Captured(rs, src) == src[..b] && more == src[b..b + |more|]
    ensures Captured(rs + more, src) == src[..b + |more|]
  {
    hide Captured;
    CapturedSplit(rs, more, src);
    CapturedAll(more, src);
    assert src[..b] + src[b..b + |more|] == src[..b + |more|];
  }

  lemma NextKeys(src: seq<Record>, rs: seq<Record>, b: nat, j: nat)
    requires KeysUp(src) && KeysUp(rs) && b + j <= |src| && j > 0
    requires forall k :: b <= k < |src| && rs != [] ==> KeyBefore(KeyIn(rs[|rs| - 1]), KeyIn(src[k]))
    ensures var all := rs + src[b..b + j];
            KeysUp(all) && forall k :: b + j <= k < |src| ==> KeyBefore(KeyIn(all[|all| - 1]), KeyIn(src[k]))
  {
    var more := src[b..b + j];
    SliceKeyed(src, b, b + j);
    assert KeysUp(more);
    KeysJoin(rs, more);
    assert (rs + more)[|rs + more| - 1] == src[b + j - 1];
  }

  lemma KeysJoin(a: seq<Record>, b: seq<Record>)
    requires KeysUp(a) && KeysUp(b)
    requires a != [] ==> forall i :: 0 <= i < |b| ==> KeyBefore(KeyIn(a[|a| - 1]), KeyIn(b[i]))
    ensures KeysUp(a + b)
  {
    var all := a + b;
    forall i, k | 0 <= i < k < |all| ensures KeyBefore(KeyIn(all[i]), KeyIn(all[k])) {
      if i < |a| <= k {
        assert KeyBefore(KeyIn(a[|a| - 1]), KeyIn(b[k - |a|]));
        if i < |a| - 1 { assert KeyBefore(KeyIn(a[i]), KeyIn(a[|a| - 1])); }
      }
    }
  }

  /** Snapshot rows tagged at a coordinate beyond everything trailed and before everything to come
      keep the invariant, and none of them can be mistaken for a source record. */
  lemma AppendSnapshot(src: seq<Record>, rs: seq<Record>, b: nat, pos: Option<int>, rows: seq<Record>)
    requires ExactlyOnce(src, rs, b, pos) && KeysUp(rows)
    requires rs != [] ==> forall i :: 0 <= i < |rows| ==> KeyBefore(KeyIn(rs[|rs| - 1]), KeyIn(rows[i]))
    requires forall i, k :: 0 <= i < |rows| && b <= k < |src| ==> KeyBefore(KeyIn(rows[i]), KeyIn(src[k]))
    ensures ExactlyOnce(src, rs + rows, b, pos)
  {
    forall r | r in rows ensures r !in src {
      if r in src {
        var k :| 0 <= k < |src| && src[k] == r;
        var i :| 0 <= i < |rows| && rows[i] == r;
        if k < b {
          TailCovers(src, rs, b, k);
        }
        assert false;
      }
    }
    CapturedSplit(rs, rows, src);
    CapturedNone(rows, src);
    KeysJoin(rs, rows);
  }

  /** The tail key a cycle sees: that of the last complete line still on disk. */
  ghost predicate TailSeen(rs: seq<Record>, tail: Option<PosKeyT>) {
    tail.Some? ==> rs != [] && PosKey(rs[|rs| - 1].pos) == tail
  }

  /** Which records a cycle keeps: with a readable tail exactly the missing ones.  Without one - the
      trail is purged down to an empty active file - it keeps the whole capture, which repeats
      records exactly when some of them were already trailed. */
  lemma KeptExactly(src: seq<Record>, rs: seq<Record>, b: nat, at: int, p: nat, q: nat,
                    since: PosKeyT, tail: Option<PosKeyT>)
    requires ExactlyOnce(src, rs, b, Some(at)) && CutAt(src, at, p) && p <= b && p <= q <= |src|
    requires TailSeen(rs, tail) && !KeyBefore((at, 0), since)
    ensures Deduped(src[p..q], Some(since), tail) == (if b <= q then src[b..q] else []) <==>
            tail.Some? || p == b || p == q
  {
    if tail.Some? {
      var t := tail.value;
      if KeyBefore(t, since) {
        if p < b {
          TailCovers(src, rs, b, p);
          assert false;
        }
      } else {
        if b > 0 { TailCovers(src, rs, b, b - 1); }
        RemainingExact(src, p, q, b, t);
      }
    } else if p < b && p < q {
      assert |src[p..q]| > |if b <= q then src[b..q] else []|;
    }
  }

  // ---------------------------------------------------------------- snapshot rows

  /** The lowest ordinal at coordinate `base` above every captured record and above the trail tail. */
  method SnapshotStartSeq(rs: seq<Record>, base: int, tail: Option<PosKeyT>) returns (s: nat)
    ensures forall r :: r in rs && PosKey(r.pos).Some? && KeyIn(r).0 == base ==> KeyIn(r).1 < s
    ensures tail.Some? && tail.value.0 == base ==> tail.value.1 < s
    ensures s > 0 ==>
              || (exists r :: r in rs && PosKey(r.pos) == Some((base, s - 1)))
              || tail == Some((base, s - 1))
  {
    var mx := -1;
    for i := 0 to |rs|
      invariant mx >= -1
      invariant forall r :: r in rs[..i] && PosKey(r.pos).Some? && KeyIn(r).0 == base ==> KeyIn(r).1 <= mx
      invariant mx >= 0 ==> exists r :: r in rs && PosKey(r.pos) == Some((base, mx))
    {
      assert rs[i] in rs;
      var key := PosKey(rs[i].pos);
      if key.Some? && key.value.0 == base && key.value.1 > mx {
        mx := key.value.1;
      }
    }
    assert rs[..|rs|] == rs;
    if tail.Some? && tail.value.0 == base && tail.value.1 > mx {
      mx := tail.value.1;
    }
    s := mx + 1;
  }

  /** Rows of newly adopted tables, tagged at the advance coordinate from ordinal `s` on. */
  function Tagged(rows: seq<Record>, base: int, s: nat): (t: seq<Record>)
    ensures |t| == |rows| && forall i :: 0 <= i < |t| ==> PosKey(t[i].pos) == Some((base, s + i))
  {
    seq(|rows|, i requires 0 <= i < |rows| => rows[i].(pos := Compound(base, s + i)))
  }

  /** A coordinate cuts the stream in one place, and further coordinates cut further on. */
  lemma CutOrder(src: seq<Record>, c: int, i: nat, d: int, j: nat)
    requires CutAt(src, c, i) && CutAt(src, d, j) && c <= d
    ensures i <= j
  {
    assert j < |src| ==> KeyIn(src[j]).0 > d;
  }

  /** The last record is not beyond coordinate `c`. */
  ghost predicate Within(rs: seq<Record>, c: int) {
    rs != [] && PosKey(rs[|rs| - 1].pos).Some? ==> KeyIn(rs[|rs| - 1]).0 <= c
  }

  lemma WithinNone(c: int)
    ensures Within([], c)
  {
  }

  /** The durable position moves to a coordinate that the trail has reached. */
  lemma MovePos(src: seq<Record>, rs: seq<Record>, b: nat, pos: Option<int>, to: int, q: nat)
    requires ExactlyOnce(src, rs, b, pos) && CutAt(src, to, q) && q <= b
    ensures ExactlyOnce(src, rs, b, Some(to))
  {
  }

  /** The window between position and trail starts at the position's cut. */
  lemma WindowStart(src: seq<Record>, rs: seq<Record>, b: nat, at: int, p: nat)
    requires ExactlyOnce(src, rs, b, Some(at)) && CutAt(src, at, p)
    ensures p <= b
  {
    var p': nat :| p' <= b && CutAt(src, at, p');
    CutOrder(src, at, p, at, p');
  }

  /** With everything up to `base` trailed and the tail not beyond `base`, the ordinals above the
      tail's are free. */
  lemma RoomFromTail(src: seq<Record>, rs: seq<Record>, b: nat, pos: Option<int>, base: int, q: nat,
                     tail: Option<PosKeyT>, s: nat)
    requires ExactlyOnce(src, rs, b, pos) && CutAt(src, base, q) && q <= b
    requires TailSeen(rs, tail) && (rs != [] ==> tail.Some?) && Within(rs, base)
    requires tail.Some? && tail.value.0 == base ==> tail.value.1 < s
    ensures Room(src, rs, b, base, s)
  {
  }

  /** Ordinals from `s` on at coordinate `base` lie behind everything trailed and before every source
      record that is still to be trailed. */
  ghost predicate Room(src: seq<Record>, rs: seq<Record>, b: nat, base: int, s: nat) {
    && Keyed(rs) && Keyed(src) && b <= |src|
    && (rs != [] ==> KeyBefore(KeyIn(rs[|rs| - 1]), (base, s)))
    && (forall k :: b <= k < |src| ==> KeyIn(src[k]).0 > base)
  }

  /** Snapshot rows that fit keep the invariant and leave room for the ones behind them. */
  lemma AppendSnapshotRows(src: seq<Record>, rs: seq<Record>, b: nat, pos: Option<int>, rows: seq<Record>,
                     base: int, s: nat, n: nat)
    requires ExactlyOnce(src, rs, b, pos) && Room(src, rs, b, base, s) && n <= |rows|
    ensures ExactlyOnce(src, rs + Tagged(rows, base, s)[..n], b, pos)
    ensures Room(src, rs + Tagged(rows, base, s)[..n], b, base, s + n)
  {
    var t := Tagged(rows, base, s)[..n];
    assert forall i :: 0 <= i < n ==> KeyIn(t[i]) == (base, s + i);
    AppendSnapshot(src, rs, b, pos, t);
    if n > 0 { assert (rs + t)[|rs + t| - 1] == t[n - 1]; }
  }

  lemma TaggedSlice(rows: seq<Record>, base: int, s: nat, i: nat, j: nat)
    requires i <= j <= |rows|
    ensures Tagged(rows, base, s)[i..j] == Tagged(rows[i..j], base, s + i)
  {
  }

  lemma TaggedWhole(rows: seq<Record>, base: int, s: nat)
    ensures Tagged(rows, base, s)[..|rows|] == Tagged(rows, base, s)
  {
  }

  /** Of the tagged rows `all`, the first `k` are trailed behind `rs0` and the next ones buffered. */
  ghost predicate Buffering(rs0: seq<Record>, rs: seq<Record>, all: seq<Record>, k: nat, buf: seq<Record>) {
    k + |buf| <= |all| && buf == all[k..k + |buf|] && rs == rs0 + all[..k]
  }

  lemma NothingBuffered(rs: seq<Record>, all: seq<Record>)
    ensures Buffering(rs, rs, all, 0, [])
  {
    assert rs + all[..0] == rs;
  }

  lemma BufferOne(rs0: seq<Record>, rs: seq<Record>, rows: seq<Record>, base: int, s: nat, k: nat,
                  buf: seq<Record>, i: nat)
    requires Buffering(rs0, rs, Tagged(rows, base, s), k, buf) && i == k + |buf| < |rows|
    ensures Buffering(rs0, rs, Tagged(rows, base, s), k, buf + [rows[i].(pos := Compound(base, s + i))])
  {
    SliceGrows(Tagged(rows, base, s), k, i);
  }

  lemma SliceGrows<T>(t: seq<T>, k: nat, i: nat)
    requires k <= i < |t|
    ensures t[k..i + 1] == t[k..i] + [t[i]]
  {
  }

  lemma BufferIs(rs0: seq<Record>, rs: seq<Record>, all: seq<Record>, k: nat, buf: seq<Record>)
    requires Buffering(rs0, rs, all, k, buf)
    ensures k + |buf| <= |all| && buf == all[k..k + |buf|]
  {
  }

  lemma BufferLanded(rs0: seq<Record>, rs: seq<Record>, all: seq<Record>, k: nat, buf: seq<Record>, n: nat)
    requires Buffering(rs0, rs, all, k, buf) && n <= |buf|
    ensures rs + buf[..n] == rs0 + all[..k + n]
    ensures n == |buf| ==> Buffering(rs0, rs + buf[..n], all, k + |buf|, [])
    ensures k + n == |all| ==> rs + buf[..n] == rs0 + all
  {
    assert all[..k + n] == all[..k] + all[k..k + |buf|][..n];
  }

  /** Snapshot rows keep the trail in order exactly when their coordinate is not below the tail's. */
  lemma SnapshotOrder(rs: seq<Record>, rows: seq<Record>, base: int, s: nat)
    requires KeysUp(rs) && rs != [] && rows != []
    requires KeyIn(rs[|rs| - 1]).0 == base ==> KeyIn(rs[|rs| - 1]).1 < s
    ensures KeysUp(rs + Tagged(rows, base, s)) <==> KeyIn(rs[|rs| - 1]).0 <= base
  {
    var t := Tagged(rows, base, s);
    var all := rs + t;
    if KeyIn(rs[|rs| - 1]).0 <= base {
      KeysJoin(rs, t);
    } else {
      assert !KeyBefore(KeyIn(all[|rs| - 1]), KeyIn(all[|rs|]));
    }
  }

  /** A capture that reached coordinate `base` with only `q` of the `b` trailed records (a smaller
      capture limit than the crashed run's), followed by snapshot rows at `base`, makes the next cycle
      repeat every already trailed record it captures beyond `base`. */
  lemma SnapshotBehindTail(src: seq<Record>, rs: seq<Record>, b: nat, at: int, rows: seq<Record>,
                           base: int, s: nat, q: nat, q2: nat)
    requires ExactlyOnce(src, rs, b, Some(at)) && CutAt(src, base, q) && rows != []
    requires q <= b && q <= q2 <= |src|
    ensures var kept := Deduped(src[q..q2], Some((base, 0)), Some((base, s + |rows| - 1)));
            kept == src[q..q2] && (kept == (if b <= q2 then src[b..q2] else []) <==> q == b || q == q2)
    ensures q < b ==> src[q] in rs
  {
    SliceKeyed(src, q, q2);
    RemainingAll(src[q..q2], (base, s + |rows| - 1));
    if q < b {
      assert src[..b][q] == src[q];
      CapturedMembers(rs, src, src[q]);
    }
    if q < b && q < q2 {
      assert |src[q..q2]| > |if b <= q2 then src[b..q2] else []|;
    }
  }
}

module Extracting {
  import opened Processes
  import opened Records
  import opened TrailLog
  import opened Dedup

  datatype CycleOutcome = Completed | Refused | Dead

  /** Behind `before` there are the first rows of a snapshot, or all of them. */
  ghost predicate SnapshotUpTo(now: seq<Record>, before: seq<Record>, rows: seq<Record>, c: int, whole: bool) {
    exists s: nat, n: nat :: n <= |rows| && (whole ==> n == |rows|) && now == before + Tagged(rows, c, s)[..n]
  }

  /** The new tables are adopted only when their whole snapshot is behind `before`. */
  ghost predicate AdoptedBehind(known: set<string>, was: set<string>, tables: set<string>, now: seq<Record>,
                                before: seq<Record>, rows: seq<Record>, c: int)
  {
    known == was || (known == was + tables && SnapshotUpTo(now, before, rows, c, true))
  }

  lemma NoneAdopted(known: set<string>, tables: set<string>, now: seq<Record>, before: seq<Record>,
                    rows: seq<Record>, c: int)
    ensures AdoptedBehind(known, known, tables, now, before, rows, c)
  {
  }

  lemma NoSnapshot(now: seq<Record>, rows: seq<Record>, c: int)
    ensures SnapshotUpTo(now, now, rows, c, false)
  {
    assert now == now + Tagged(rows, c, 0)[..0];
  }

  /** Behind `before` there is the whole snapshot and nothing else. */
  ghost predicate SnapshotBehind(now: seq<Record>, before: seq<Record>, rows: seq<Record>, c: int) {
    exists s: nat :: now == before + Tagged(rows, c, s)
  }

  lemma WholeSnapshot(now: seq<Record>, before: seq<Record>, rows: seq<Record>, c: int)
    ensures SnapshotUpTo(now, before, rows, c, true) ==>
              SnapshotUpTo(now, before, rows, c, false) && SnapshotBehind(now, before, rows, c)
  {
    if SnapshotUpTo(now, before, rows, c, true) {
      var s: nat, n: nat :| n == |rows| && now == before + Tagged(rows, c, s)[..n];
      TaggedWhole(rows, c, s);
      assert now == before + Tagged(rows, c, s);
    }
  }

  /** The capture side of one extract: its trail and its durable source position.  `src` is the stream
      of source records beyond the first durable anchor. */
  class Extract {
    const trail: Trail
    const life: Process
    var pos: Option<int>
    var known: set<string>       // the registry's tables: those that are captured
    const src: seq<Record>
    ghost var upto: nat          // how many source records the trail holds

    constructor (trail: Trail, src: seq<Record>, life: Process)
      requires trail.Valid() && trail.log == [] && KeysUp(src)
      ensures Valid() && this.trail == trail && this.src == src && this.life == life && pos == None && upto == 0
    {
      this.trail, this.src, this.life := trail, src, life;
      pos, upto, known := None, 0, {};
    }

    /** An extract that has written its anchor, a coordinate before the whole stream. */
    constructor Anchored(trail: Trail, src: seq<Record>, anchor: int, life: Process)
      requires trail.Valid() && trail.log == [] && KeysUp(src) && CutAt(src, anchor, 0)
      ensures Valid() && this.trail == trail && this.src == src && this.life == life && pos == Some(anchor) && upto == 0
    {
      this.trail, this.src, this.life := trail, src, life;
      pos, upto, known := Some(anchor), 0, {};
    }

    ghost function Trailed(): seq<Record>
      reads this, trail
    {
      Recs(trail.log)
    }

    ghost function OnDisk(): seq<Line>
      reads this, trail
    {
      Concat(trail.segs)
    }

    ghost predicate Valid()
      reads this, trail
    {
      && trail.Valid()
      && trail.log == Lines(Trailed())
      && ExactlyOnce(src, Trailed(), upto, pos)
    }

    /** The trail is sound and holds records only, whatever their order. */
    ghost predicate Intact()
      reads this, trail
    {
      trail.Valid() && trail.log == Lines(Trailed())
    }

    /** A snapshot at coordinate `c` would lie behind everything trailed. */
    ghost predicate SnapshotFits(c: int)
      reads this, trail
    {
      (Trailed() != [] ==> OnDisk() != []) && TailWithin(c)
    }

    /** A capture from the durable position: the next source records up to the new coordinate. */
    ghost predicate CapturedFrom(captured: seq<Record>, newPos: int, p: nat, q: nat)
      reads this
    {
      if pos.None? then captured == [] && p == 0 && q == 0 && CutAt(src, newPos, 0)
      else p <= q <= |src| && CutAt(src, pos.value, p) && CutAt(src, newPos, q) && captured == src[p..q]
    }

    /** The crash window is readable: the trail still shows its last line, or it holds nothing beyond
        the durable position. */
    ghost predicate WindowReadable(p: nat)
      reads this, trail
    {
      OnDisk() != [] || p == upto
    }

    /** The order key of the last complete line on disk. */
    method TailKey() returns (tail: Option<PosKeyT>)
      requires Valid()
      ensures TailSeen(Trailed(), tail) && (OnDisk() != [] <==> tail.Some?)
    {
      hide Concat, ExactlyOnce;
      var p := trail.LastSourcePos();
      TailOnDisk();
      TailOfRecords(trail.segs);
      tail := PosKey(p);
    }

    lemma TailOnDisk()
      requires Valid()
      ensures OnDisk() != [] ==>
                Trailed() != [] && OnDisk()[|OnDisk()| - 1] == Rec(Trailed()[|Trailed()| - 1]) &&
                PosKey(Trailed()[|Trailed()| - 1].pos).Some?
      ensures forall l :: l in OnDisk() ==> l.Rec?
    {
      hide Concat, Recs;
      forall l | l in OnDisk() ensures l.Rec? {
        assert l in trail.log;
      }
      if OnDisk() != [] {
        assert trail.log != [] && OnDisk()[|OnDisk()| - 1] == trail.log[|trail.log| - 1];
      }
    }

    /** Appends records that extend the invariant record by record; a crash keeps a prefix. */
    method AppendCapturedRecords(kept: seq<Record>) returns (alive: bool)
      requires Valid() && trail.Healed() && (pos.None? ==> kept == [])
      requires upto + |kept| <= |src| && kept == src[upto..upto + |kept|]
      modifies this`upto, trail`segs, trail`log
      ensures Valid() && (alive ==> upto == old(upto) + |kept| && trail.Healed())
      ensures (alive ==> Trailed() == old(Trailed()) + kept) && (alive || life.mortal)
      ensures old(upto) <= upto <= old(upto) + |kept|
      ensures Trailed() == old(Trailed()) + kept[..upto - old(upto)] == old(Trailed()) + src[old(upto)..upto]
      ensures alive && kept != [] ==> OnDisk() != []
      ensures alive && old(OnDisk()) != [] ==> OnDisk() != []
    {
      hide Concat, Recs, ExactlyOnce, Lines, Trail.Valid, Trail.Healed, Trail.WentTo;
      ghost var before, log0 := Trailed(), trail.log;
      alive := trail.Append(kept, life.mortal);
      ghost var n: nat :| 0 <= n <= |kept| && trail.log == log0 + Lines(kept[..n]) && (alive ==> n == |kept|);
      assert kept[..n] == src[upto..upto + n];
      AppendCaptured(src, before, upto, pos, n);
      LogGrew(log0, kept[..n], trail.log);
      assert alive ==> kept[..n] == kept;
      upto := upto + n;
    }

    lemma LogGrew(log0: seq<Line>, more: seq<Record>, log: seq<Line>)
      requires log0 == Lines(Recs(log0)) && log == log0 + Lines(more)
      ensures Recs(log) == Recs(log0) + more && log == Lines(Recs(log))
    {
      LinesAfter(log0, Recs(log0), more);
    }

    /** Ordinals from `s` on at coordinate `base` lie behind the trail and before every source record
        that is still to be trailed. */
    ghost predicate RoomAt(base: int, s: nat)
      reads this, trail
    {
      Room(src, Trailed(), upto, base, s)
    }

    /** Drops a torn tail; the records stay. */
    method Heal()
      requires Valid()
      modifies trail`segs, trail`log
      ensures Valid() && trail.Healed()
      ensures Trailed() == old(Trailed()) && OnDisk() == old(OnDisk())
    {
      hide Concat, Recs, ExactlyOnce;
      var _ := trail.HealTornTail();
    }

    /** Appends one chunk of the tagged snapshot rows: those from `k` on.  `fits` says that there is room
        for them behind everything trailed. */
    method AppendTagged(buf: seq<Record>, ghost rows: seq<Record>, ghost base: int, ghost s: nat, ghost k: nat,
                        ghost fits: bool)
      returns (alive: bool)
      requires Intact() && trail.Healed() && k + |buf| <= |rows|
      requires buf == Tagged(rows, base, s)[k..k + |buf|] && (fits ==> Valid() && RoomAt(base, s + k))
      modifies trail`segs, trail`log
      ensures Intact() && (fits ==> Valid())
      ensures exists n: nat :: n <= |buf| && Trailed() == old(Trailed()) + buf[..n] && (alive ==> n == |buf|)
      ensures alive ==> trail.Healed() && (fits ==> RoomAt(base, s + k + |buf|))
      ensures alive || life.mortal
    {
      hide Concat, Recs, ExactlyOnce, Room, Tagged, Lines, LeftoverIn, Trail.Healed, Trail.Valid, Trail.WentTo;
      ghost var before, log0 := Trailed(), trail.log;
      alive := trail.Append(buf, life.mortal);
      ghost var n: nat :| n <= |buf| && trail.log == log0 + Lines(buf[..n]) && (alive ==> n == |buf|);
      LogGrew(log0, buf[..n], trail.log);
      TaggedSlice(rows, base, s, k, k + |buf|);
      if fits { AppendSnapshotRows(src, before, upto, pos, rows[k..k + |buf|], base, s + k, n); }
    }

    /** Appends snapshot rows in bounded chunks, tagged from ordinal `s` on; a crash keeps a prefix. */
    method SnapshotTables(rows: seq<Record>, base: int, s: nat, chunk: nat, ghost fits: bool) returns (alive: bool)
      requires Intact() && trail.Healed() && (fits ==> Valid() && RoomAt(base, s)) && chunk > 0
      modifies trail`segs, trail`log
      ensures Intact() && (fits ==> Valid())
      ensures exists n: nat :: n <= |rows| && Trailed() == old(Trailed()) + Tagged(rows, base, s)[..n]
      ensures alive ==> trail.Healed() && Trailed() == old(Trailed()) + Tagged(rows, base, s)
      ensures alive || life.mortal
    {
      hide Recs, ExactlyOnce, Room, Tagged, Buffering, Concat;
      ghost var all, rs0, k: nat := Tagged(rows, base, s), Trailed(), 0;
      var buf: seq<Record>, ord := [], s;
      NothingBuffered(rs0, all);
      for i := 0 to |rows|
        invariant Intact() && trail.Healed()
        invariant ord == s + i && k + |buf| == i && (fits ==> Valid() && RoomAt(base, s + k))
        invariant Buffering(rs0, Trailed(), all, k, buf)
      {
        BufferOne(rs0, Trailed(), rows, base, s, k, buf, i);
        buf := buf + [rows[i].(pos := Compound(base, ord))];
        ord := ord + 1;
        if |buf| >= chunk {
          alive := AppendBuffer(buf, rows, base, s, k, rs0, fits);
          if !alive { return; }
          k, buf := k + |buf|, [];
        }
      }
      alive := AppendBuffer(buf, rows, base, s, k, rs0, fits);
    }

    /** Appends the buffered rows of a snapshot. */
    method AppendBuffer(buf: seq<Record>, ghost rows: seq<Record>, ghost base: int, ghost s: nat, ghost k: nat,
                        ghost rs0: seq<Record>, ghost fits: bool)
      returns (alive: bool)
      requires Intact() && trail.Healed() && (fits ==> Valid() && RoomAt(base, s + k))
      requires Buffering(rs0, Trailed(), Tagged(rows, base, s), k, buf)
      modifies trail`segs, trail`log
      ensures Intact() && (fits ==> Valid())
      ensures exists n: nat :: n <= |rows| && Trailed() == rs0 + Tagged(rows, base, s)[..n]
      ensures alive ==> trail.Healed() && (fits ==> RoomAt(base, s + k + |buf|))
      ensures alive ==> Buffering(rs0, Trailed(), Tagged(rows, base, s), k + |buf|, [])
      ensures alive && k + |buf| == |rows| ==> Trailed() == rs0 + Tagged(rows, base, s)
      ensures alive || life.mortal
    {
      hide Recs, ExactlyOnce, Room, Tagged, Buffering, Concat;
      ghost var all, before := Tagged(rows, base, s), Trailed();
      BufferIs(rs0, before, all, k, buf);
      alive := AppendTagged(buf, rows, base, s, k, fits);
      ghost var n: nat :| n <= |buf| && Trailed() == before + buf[..n] && (alive ==> n == |buf|);
      BufferLanded(rs0, before, all, k, buf, n);
    }

    /** Whether the trail tail orders ahead of the stream end, comparing base coordinates only. */
    method SameEpoch(newPos: int) returns (ok: bool)
      requires Valid()
      ensures ok ==> OnDisk() != [] ==> TailWithin(newPos)
      ensures !ok ==> OnDisk() != [] && !TailWithin(newPos)
    {
      hide Concat, Recs, ExactlyOnce;
      var tail := TailKey();
      ok := tail.None? || tail.value.0 <= newPos;
    }

    /** The last trailed record is not beyond coordinate `c`. */
    ghost predicate TailWithin(c: int)
      reads this, trail
    {
      Within(Trailed(), c)
    }

    /** Drops what is already trailed and appends the rest. */
    method DedupAndAppend(captured: seq<Record>, since: Option<PosKeyT>, newPos: int, ghost p: nat, ghost q: nat)
      returns (kept: seq<Record>, alive: bool)
      requires Valid() && trail.Healed() && CapturedFrom(captured, newPos, p, q) && WindowReadable(p)
      requires since.None? <==> pos.None?
      requires pos.Some? ==> !KeyBefore((pos.value, 0), since.value)
      modifies this`upto, trail`segs, trail`log
      ensures Valid() && old(upto) <= upto
      ensures kept == if old(upto) <= q then src[old(upto)..q] else []
      ensures upto <= if old(upto) <= q then q else old(upto)
      ensures exists n: nat :: n <= |kept| && Trailed() == old(Trailed()) + kept[..n]
      ensures alive ==> Trailed() == old(Trailed()) + kept
      ensures Trailed() == old(Trailed()) + src[old(upto)..upto]
      ensures alive ==> trail.Healed() && upto == if old(upto) <= q then q else old(upto)
      ensures alive && (old(OnDisk()) != [] || kept != []) ==> OnDisk() != []
      ensures alive || life.mortal
    {
      hide Concat, Recs, ExactlyOnce, KeyBefore, CutAt, Deduped, TailSeen, CapturedFrom, Trail.Valid, Lines;
      var tail := TailKey();
      kept := DropAlreadyTrailed(captured, since, tail);
      KeptMissing(captured, since, tail, newPos, p, q);
      UptoWithin();
      alive := AppendCapturedRecords(kept);
    }

    /** What deduplication keeps of a capture are the records the trail lacks. */
    lemma KeptMissing(captured: seq<Record>, since: Option<PosKeyT>, tail: Option<PosKeyT>, newPos: int, p: nat, q: nat)
      requires Valid() && CapturedFrom(captured, newPos, p, q) && WindowReadable(p)
      requires since.None? <==> pos.None?
      requires pos.Some? ==> !KeyBefore((pos.value, 0), since.value)
      requires TailSeen(Trailed(), tail) && (OnDisk() != [] <==> tail.Some?)
      ensures Deduped(captured, since, tail) == if upto <= q then src[upto..q] else []
      ensures pos.None? ==> Deduped(captured, since, tail) == []
      ensures q <= |src|
    {
      hide Concat, Recs, ExactlyOnce, KeyBefore, CutAt;
      if pos.Some? {
        WindowStart(src, Trailed(), upto, pos.value, p);
        KeptExactly(src, Trailed(), upto, pos.value, p, q, since.value, tail);
      } else {
        NothingYet();
      }
    }

    lemma NothingAdded()
      requires Valid()
      ensures upto <= |src| && Trailed() + src[upto..upto] == Trailed()
    {
    }

    lemma UptoWithin()
      requires Valid()
      ensures upto <= |src|
    {
    }

    lemma NothingYet()
      requires Valid() && pos.None?
      ensures upto == 0
    {
    }

    /** Snapshots newly adopted tables behind everything trailed; their adoption follows only when the
        last row has landed.  Where the trail shows a tail beyond the coordinate, the rows break the order
        of the trail. */
    method SnapshotAndAdopt(kept: seq<Record>, rows: seq<Record>, tables: set<string>, newPos: int, chunk: nat,
                            ghost q: nat)
      returns (alive: bool)
      requires Valid() && trail.Healed() && CutAt(src, newPos, q) && q <= upto && chunk > 0
      modifies this`known, trail`segs, trail`log
      ensures Intact() && (old(SnapshotFits(newPos)) ==> Valid())
      ensures alive && rows != [] && old(OnDisk()) != [] && !old(TailWithin(newPos)) ==> !KeysUp(Trailed())
      ensures SnapshotUpTo(Trailed(), old(Trailed()), rows, newPos, alive)
      ensures AdoptedBehind(known, old(known), tables, Trailed(), old(Trailed()), rows, newPos)
      ensures (alive ==> known == old(known) + tables) && (alive || life.mortal)
    {
      hide Concat, Recs, ExactlyOnce, CutAt, Tagged, Room, KeyBefore, KeysUp, KeyIn, TailSeen, Within, PosKey;
      hide Trail.Valid, Trail.Healed, Lines;
      ghost var rs0, fits := Trailed(), SnapshotFits(newPos);
      var tail := TailKey();
      var s := SnapshotStartSeq(kept, newPos, tail);
      if fits { RoomFromTail(src, rs0, upto, pos, newPos, q, tail, s); }
      if OnDisk() != [] && rows != [] { OutOfOrder(rs0, tail, rows, newPos, s); }
      alive := SnapshotTables(rows, newPos, s, chunk, fits);
      TaggedWhole(rows, newPos, s);
      assert alive ==> Trailed() == rs0 + Tagged(rows, newPos, s)[..|rows|];
      if !alive { return; }
      var written := *;
      alive := life.Lives();
      if alive || written { known := known + tables; }
    }

    lemma OutOfOrder(rs: seq<Record>, tail: Option<PosKeyT>, rows: seq<Record>, base: int, s: nat)
      requires Valid() && rs == Trailed() && TailSeen(rs, tail) && tail.Some? && rows != []
      requires tail.value.0 == base ==> tail.value.1 < s
      ensures !Within(rs, base) ==> !KeysUp(rs + Tagged(rows, base, s))
    {
      hide Recs;
      SnapshotOrder(rs, rows, base, s);
    }

    /** Replaces the durable position in one step. */
    method WritePosition(newPos: int, ghost q: nat) returns (alive: bool)
      requires Intact() && CutAt(src, newPos, q) && q <= upto
      modifies this`pos
      ensures Intact() && (old(Valid()) ==> Valid())
      ensures (pos == old(pos) || pos == Some(newPos)) && (alive ==> pos == Some(newPos)) && (alive || life.mortal)
    {
      hide Concat, Recs, CutAt;
      var written := *;
      alive := life.Lives();
      if alive || written {
        if Valid() { MovePos(src, Trailed(), upto, pos, newPos, q); }
        pos := Some(newPos);
      }
    }

    /** Behind `before` the trail has the next source records and then, if the cycle asked for a snapshot, its
        rows: all of them once it is complete. */
    ghost predicate Appended(before: seq<Record>, b: nat, refresh: bool, rows: seq<Record>, c: int, whole: bool)
      reads this, trail
    {
      b <= upto <= |src| &&
      if refresh then SnapshotUpTo(Trailed(), before + src[b..upto], rows, c, whole)
      else Trailed() == before + src[b..upto]
    }

    /** New tables are adopted by a completed snapshot, and never before all its rows are in the trail. */
    ghost predicate Adopted(was: set<string>, tables: set<string>, before: seq<Record>, b: nat, rows: seq<Record>,
                            c: int, whole: bool)
      reads this, trail
    {
      b <= upto <= |src| && AdoptedBehind(known, was, tables, Trailed(), before + src[b..upto], rows, c) &&
      (whole ==> known == was + tables)
    }

    /** One MySQL extract cycle: heal, drop what is trailed (or check the epoch of a fresh anchor),
        append, snapshot new tables, persist the position.  It may die at any step.  The trail stays
        exactly-once unless it snapshots at a coordinate below the tail, which breaks its order. */
    method MySqlCycle(captured: seq<Record>, newPos: int, refresh: bool, rows: seq<Record>, tables: set<string>,
                      chunk: nat, ghost p: nat, ghost q: nat)
      returns (out: CycleOutcome)
      requires Valid() && CapturedFrom(captured, newPos, p, q) && WindowReadable(p) && chunk > 0
      modifies this`upto, this`pos, this`known, trail`segs, trail`log
      ensures Intact() && ((refresh ==> old(SnapshotFits(newPos))) ==> Valid())
      ensures old(upto) <= upto && (pos == old(pos) || pos == Some(newPos))
      ensures out == Completed && refresh && rows != [] && old(OnDisk()) != [] && !old(TailWithin(newPos)) ==>
                !KeysUp(Trailed())
      ensures out == Completed ==> pos == Some(newPos) && upto == if old(upto) <= q then q else old(upto)
      ensures out == Refused <==> old(pos).None? && old(OnDisk()) != [] && !old(TailWithin(newPos))
      ensures out == Refused ==> pos == None && upto == old(upto) && Trailed() == old(Trailed())
      ensures upto <= |src| && Appended(old(Trailed()), old(upto), refresh, rows, newPos, out == Completed)
      ensures !refresh ==> Trailed() == old(Trailed()) + src[old(upto)..upto] && known == old(known)
      ensures out == Completed && refresh ==>
                SnapshotBehind(Trailed(), old(Trailed()) + src[old(upto)..upto], rows, newPos)
      ensures Adopted(old(known), tables, old(Trailed()), old(upto), rows, newPos, out == Completed && refresh)
      ensures out == Dead ==> life.mortal
    {
      hide Concat, Recs, ExactlyOnce, CutAt, KeyBefore, Within, KeysUp, Tagged, SnapshotUpTo, AdoptedBehind;
      hide SnapshotBehind, Trail.Valid, Trail.Healed, Lines, PosKey;
      Heal();
      var since: Option<PosKeyT> := None;
      if pos.Some? {
        since := Some((pos.value, 0));
        NotBefore(since.value);
      } else {
        var same := SameEpoch(newPos);
        if !same {
          NothingAdded();
          NoSnapshot(Trailed(), rows, newPos);
          NoneAdopted(known, tables, Trailed(), Trailed(), rows, newPos);
          return Refused;
        }
      }
      out := MySqlAdvance(captured, since, newPos, refresh, rows, tables, chunk, p, q);
    }

    /** The appending part of a MySQL cycle, behind a heal and, for a fresh anchor, a passed epoch check. */
    method MySqlAdvance(captured: seq<Record>, since: Option<PosKeyT>, newPos: int, refresh: bool, rows: seq<Record>,
                        tables: set<string>, chunk: nat, ghost p: nat, ghost q: nat)
      returns (out: CycleOutcome)
      requires Valid() && CapturedFrom(captured, newPos, p, q) && WindowReadable(p) && chunk > 0 && trail.Healed()
      requires since.None? <==> pos.None?
      requires pos.Some? ==> !KeyBefore((pos.value, 0), since.value)
      modifies this`upto, this`pos, this`known, trail`segs, trail`log
      ensures Intact() && ((refresh ==> old(SnapshotFits(newPos))) ==> Valid())
      ensures old(upto) <= upto && (pos == old(pos) || pos == Some(newPos))
      ensures out == Completed && refresh && rows != [] && old(OnDisk()) != [] && !old(TailWithin(newPos)) ==>
                !KeysUp(Trailed())
      ensures out == Completed ==> pos == Some(newPos) && upto == if old(upto) <= q then q else old(upto)
      ensures out != Refused
      ensures upto <= |src| && Appended(old(Trailed()), old(upto), refresh, rows, newPos, out == Completed)
      ensures !refresh ==> Trailed() == old(Trailed()) + src[old(upto)..upto] && known == old(known)
      ensures out == Completed && refresh ==>
                SnapshotBehind(Trailed(), old(Trailed()) + src[old(upto)..upto], rows, newPos)
      ensures Adopted(old(known), tables, old(Trailed()), old(upto), rows, newPos, out == Completed && refresh)
      ensures out == Dead ==> life.mortal
    {
      hide Concat, Recs, ExactlyOnce, CutAt, KeyBefore, Within, KeysUp, Tagged, SnapshotUpTo, AdoptedBehind;
      hide SnapshotBehind, Trail.Valid, Trail.Healed, Lines, PosKey, TailSeen, KeyIn;
      var kept, alive := DedupAndAppend(captured, since, newPos, p, q);
      UptoWithin();
      NoSnapshot(Trailed(), rows, newPos);
      NoneAdopted(known, tables, Trailed(), Trailed(), rows, newPos);
      if !alive { return Dead; }
      if refresh {
        ghost var before := Trailed();
        TailMoves(old(Trailed()), kept, old(upto), old(pos), newPos, q);
        alive := SnapshotAndAdopt(kept, rows, tables, newPos, chunk, q);
        WholeSnapshot(Trailed(), before, rows, newPos);
        if !alive { return Dead; }
      }
      alive := WritePosition(newPos, q);
      out := if alive then Completed else Dead;
    }

    /** One PostgreSQL extract cycle: the slot position is the durable one, and it advances before
        the snapshot. */
    method PgCycle(captured: seq<Record>, newPos: int, refresh: bool, rows: seq<Record>, tables: set<string>,
                   chunk: nat, ghost p: nat, ghost q: nat)
      returns (out: CycleOutcome)
      requires Valid() && CapturedFrom(captured, newPos, p, q) && WindowReadable(p) && chunk > 0
      requires pos.Some? && pos.value >= 0
      modifies this`upto, this`pos, this`known, trail`segs, trail`log
      ensures Intact() && ((refresh ==> old(SnapshotFits(newPos))) ==> Valid())
      ensures old(upto) <= upto && (pos == old(pos) || pos == Some(newPos))
      ensures out == Completed ==> pos == Some(newPos) && upto == if old(upto) <= q then q else old(upto)
      ensures out == Refused ==> pos == old(pos) && upto == old(upto) && Trailed() == old(Trailed())
      ensures out == Refused <==> old(OnDisk()) != [] && !old(TailWithin(newPos))
      ensures upto <= |src| && Appended(old(Trailed()), old(upto), refresh, rows, newPos, out == Completed)
      ensures !refresh ==> Trailed() == old(Trailed()) + src[old(upto)..upto] && known == old(known)
      ensures out == Completed && refresh ==>
                SnapshotBehind(Trailed(), old(Trailed()) + src[old(upto)..upto], rows, newPos)
      ensures Adopted(old(known), tables, old(Trailed()), old(upto), rows, newPos, out == Completed && refresh)
      ensures out == Dead ==> life.mortal
    {
      hide Concat, Recs, ExactlyOnce, CutAt, KeyBefore, Within, KeysUp, Tagged, SnapshotUpTo, AdoptedBehind;
      hide SnapshotBehind;
      Heal();
      var same := SameEpoch(newPos);
      if !same {
        NothingAdded();
        NoSnapshot(Trailed(), rows, newPos);
        NoneAdopted(known, tables, Trailed(), Trailed(), rows, newPos);
        return Refused;
      }
      NotBeforeZero(pos.value);
      out := PgAdvance(captured, newPos, refresh, rows, tables, chunk, p, q);
    }

    /** The appending part of a PostgreSQL cycle, behind a heal and a passed epoch check. */
    method PgAdvance(captured: seq<Record>, newPos: int, refresh: bool, rows: seq<Record>, tables: set<string>,
                     chunk: nat, ghost p: nat, ghost q: nat)
      returns (out: CycleOutcome)
      requires Valid() && CapturedFrom(captured, newPos, p, q) && WindowReadable(p) && chunk > 0
      requires trail.Healed() && pos.Some? && !KeyBefore((pos.value, 0), (0, 0))
      requires OnDisk() != [] ==> TailWithin(newPos)
      modifies this`upto, this`pos, this`known, trail`segs, trail`log
      ensures Intact() && ((refresh ==> old(SnapshotFits(newPos))) ==> Valid())
      ensures old(upto) <= upto && (pos == old(pos) || pos == Some(newPos))
      ensures out == Completed ==> pos == Some(newPos) && upto == if old(upto) <= q then q else old(upto)
      ensures out != Refused
      ensures upto <= |src| && Appended(old(Trailed()), old(upto), refresh, rows, newPos, out == Completed)
      ensures !refresh ==> Trailed() == old(Trailed()) + src[old(upto)..upto] && known == old(known)
      ensures out == Completed && refresh ==>
                SnapshotBehind(Trailed(), old(Trailed()) + src[old(upto)..upto], rows, newPos)
      ensures Adopted(old(known), tables, old(Trailed()), old(upto), rows, newPos, out == Completed && refresh)
      ensures out == Dead ==> life.mortal
    {
      hide Concat, Recs, ExactlyOnce, CutAt, KeyBefore, Within, KeysUp, Tagged, SnapshotUpTo, AdoptedBehind;
      hide SnapshotBehind, Trail.Valid, Trail.Healed, Lines, PosKey, TailSeen, KeyIn;
      var kept, alive := DedupAndAppend(captured, Some((0, 0)), newPos, p, q);
      UptoWithin();
      NoSnapshot(Trailed(), rows, newPos);
      NoneAdopted(known, tables, Trailed(), Trailed(), rows, newPos);
      if !alive { return Dead; }
      alive := WritePosition(newPos, q);
      if !alive { return Dead; }
      if refresh {
        ghost var before := Trailed();
        TailMoves(old(Trailed()), kept, old(upto), old(pos), newPos, q);
        alive := SnapshotAndAdopt(kept, rows, tables, newPos, chunk, q);
        WholeSnapshot(Trailed(), before, rows, newPos);
        if !alive { return Dead; }
      }
      out := Completed;
    }

    /** The place where a coordinate cuts the source stream. */
    method CutOf(c: int) returns (i: nat)
      requires KeysUp(src)
      ensures CutAt(src, c, i)
    {
      i := 0;
      while i < |src| && KeyIn(src[i]).0 <= c
        invariant i <= |src| && forall k :: 0 <= k < i ==> KeyIn(src[k]).0 <= c
      {
        i := i + 1;
      }
      forall k | i <= k < |src| ensures KeyIn(src[k]).0 > c {
        if i < k { assert KeyBefore(KeyIn(src[i]), KeyIn(src[k])); }
      }
    }

    /** Any number of extract cycles, with purges between them, each capturing as far as it likes and each
        possibly dying mid-append, before a snapshot row or before the position write.  The trail always
        holds a gap-free, duplicate-free run of the source, under strictly increasing keys.  A cycle is
        started where the trail shows its tail or was never purged; what happens otherwise is said by
        `KeptExactly`. */
    method Cycles(n: nat, pg: bool)
      requires Valid()
      requires pg ==> pos.Some? && pos.value >= 0
      modifies this`upto, this`pos, this`known, trail, life
      ensures Valid() && old(upto) <= upto
      ensures Captured(Trailed(), src) == src[..upto] && KeysUp(Trailed())
      ensures pos.Some? ==> exists p: nat :: p <= upto && CutAt(src, pos.value, p)
    {
      hide Concat, Recs, ExactlyOnce, CutAt, KeyBefore, KeysUp, Within;
      for i := 0 to n
        invariant Valid() && old(upto) <= upto
        invariant pg ==> pos.Some? && pos.value >= 0
      {
        life.Begin();
        trail.Reopen();
        var purge, cursor: nat := *, *;
        if purge {
          var _ := trail.PurgeApplied(cursor, [], life.mortal);
        } else {
          var _ := Cycle(pg);
        }
      }
      CyclesEnd();
    }

    lemma CyclesEnd()
      requires Valid()
      ensures Captured(Trailed(), src) == src[..upto] && KeysUp(Trailed())
      ensures pos.Some? ==> exists p: nat :: p <= upto && CutAt(src, pos.value, p)
    {
    }

    /** One cycle, unless a purge has left a trail that does not show its tail. */
    method Cycle(pg: bool) returns (out: CycleOutcome)
      requires Valid()
      requires pg ==> pos.Some? && pos.value >= 0
      modifies this`upto, this`pos, this`known, trail`segs, trail`log
      ensures Valid() && old(upto) <= upto
      ensures pg ==> pos.Some? && pos.value >= 0
    {
      hide *;
      var shown := TailShown();
      if !shown {
        return Dead;
      }
      out := OpenCycle(pg);
    }

    /** Whether the trail shows its tail, or was never purged. */
    method TailShown() returns (ok: bool)
      requires Valid()
      ensures ok ==> (Trailed() != [] ==> OnDisk() != []) && (Trailed() == [] ==> upto == 0)
      ensures ok <==> OnDisk() != [] || trail.purged == 0
    {
      hide Recs, ExactlyOnce, Concat, KeysUp, TailSeen, Trail.Valid;
      var tail := TailKey();
      ok := tail.Some? || trail.purged == 0;
      if trail.purged == 0 { AllOnDisk(); }
      EmptyTrail();
    }

    lemma EmptyTrail()
      requires Valid()
      ensures Trailed() == [] ==> upto == 0
    {
      hide Recs;
      if Trailed() == [] { assert src[..upto] == []; }
    }

    /** One cycle that captures up to some coordinate at or beyond the durable one.  A snapshot is
        only asked for where the trail tail is not beyond that coordinate. */
    method OpenCycle(pg: bool) returns (out: CycleOutcome)
      requires Valid() && (Trailed() != [] ==> OnDisk() != []) && (Trailed() == [] ==> upto == 0)
      requires pg ==> pos.Some? && pos.value >= 0
      modifies this`upto, this`pos, this`known, trail`segs, trail`log
      ensures Valid() && old(upto) <= upto
      ensures pg ==> pos.Some? && pos.value >= 0
    {
      hide Recs, ExactlyOnce, CutAt, KeyBefore, KeysUp, Within;
      var newPos: int, refresh: bool, rows: seq<Record>, tables: set<string>, chunk: nat := *, *, *, *, *;
      if chunk == 0 || (pos.Some? && newPos < pos.value) { return Dead; }
      SrcUp();
      var q := CutOf(newPos);
      var p := 0;
      if pos.Some? {
        p := CutOf(pos.value);
        CutOrder(src, pos.value, p, newPos, q);
        WindowStart(src, Trailed(), upto, pos.value, p);
      } else if q > 0 {
        return Dead;
      }
      CutWithin(newPos, q);
      if Trailed() == [] { WithinNone(newPos); }
      var within := SameEpoch(newPos);
      if pos.None? {
        out := MySqlCycle([], newPos, refresh && within, rows, tables, chunk, 0, 0);
      } else if pg {
        out := PgCycle(src[p..q], newPos, refresh, rows, tables, chunk, p, q);
      } else {
        out := MySqlCycle(src[p..q], newPos, refresh && within, rows, tables, chunk, p, q);
      }
    }

    lemma SrcUp()
      requires Valid()
      ensures KeysUp(src)
    {
    }

    lemma CutWithin(c: int, i: nat)
      requires CutAt(src, c, i)
      ensures i <= |src|
    {
    }

    /** An unpurged trail has all its lines on disk, so its crash window is always readable. */
    lemma AllOnDisk()
      requires Valid() && trail.purged == 0
      ensures Trailed() != [] ==> OnDisk() != []
    {
      hide Concat;
      assert OnDisk() == trail.log;
    }

    /** The append leaves the tail within the new position, or beyond it, where it was. */
    lemma TailMoves(before: seq<Record>, kept: seq<Record>, b: nat, at: Option<int>, newPos: int, q: nat)
      requires ExactlyOnce(src, before, b, at) && CutAt(src, newPos, q) && Trailed() == before + kept
      requires kept == if b <= q then src[b..q] else []
      ensures TailWithin(newPos) <==> Within(before, newPos)
    {
      hide Recs;
      if Within(before, newPos) {
        TailAfter(before, kept, b, newPos, q);
      } else {
        MissingIsWithin(before, b, at, newPos, q);
        assert Trailed() == before;
      }
    }

    /** Something missing up to coordinate `c` puts the tail within it. */
    lemma MissingIsWithin(rs: seq<Record>, b: nat, at: Option<int>, c: int, q: nat)
      requires ExactlyOnce(src, rs, b, at) && CutAt(src, c, q)
      ensures b < q ==> Within(rs, c)
    {
      if b < q && rs != [] { assert KeyBefore(KeyIn(rs[|rs| - 1]), KeyIn(src[b])); }
    }

    /** After the append the tail is still within the new position. */
    lemma TailAfter(before: seq<Record>, kept: seq<Record>, b: nat, newPos: int, q: nat)
      requires CutAt(src, newPos, q) && Trailed() == before + kept
      requires kept == if b <= q then src[b..q] else []
      requires Within(before, newPos)
      ensures TailWithin(newPos)
    {
      hide Recs;
      if kept != [] {
        assert Trailed()[|Trailed()| - 1] == src[q - 1];
      } else {
        assert Trailed() == before;
      }
    }
  }

  /** The window that a hidden tail leaves open: a cycle appended the records from `p` to `b` and died before
      the position write; they were applied; the next append started a file and was torn; a purge removed
      the applied file.  The following cycle heals, sees no tail, and repeats them all. */
  lemma HiddenTailRepeats(src: seq<Record>, at: int, p: nat, b: nat, torn: nat)
    requires KeysUp(src) && p < b <= |src| && CutAt(src, at, p)
    ensures var left := [SegFile(1, [], 0)];
            && Laid(left, b, 0, Lines(src[..b])) && TailPos(left) == Absent
            && ExactlyOnce(src, src[..b], b, Some(at))
            && Deduped(src[p..b], Some((at, 0)), PosKey(TailPos(left))) == src[p..b]
            && forall r :: r in src[p..b] ==> r in src[..b]
  {
    hide *;
    HiddenTail(Lines(src[..b]), torn);
    LinesLength(src, b);
    WindowRepeats(src, at, p, b);
    NoPosition();
  }

  lemma NoPosition()
    ensures PosKey(Absent) == None
  {
  }

  lemma LinesLength(src: seq<Record>, b: nat)
    requires b <= |src|
    ensures |Lines(src[..b])| == b
  {
  }

  /** Without a tail, a cycle keeps what is trailed already. */
  lemma WindowRepeats(src: seq<Record>, at: int, p: nat, b: nat)
    requires KeysUp(src) && p <= b <= |src| && CutAt(src, at, p)
    ensures ExactlyOnce(src, src[..b], b, Some(at))
    ensures Deduped(src[p..b], Some((at, 0)), None) == src[p..b] && forall r :: r in src[p..b] ==> r in src[..b]
  {
    TrailedRun(src, b);
    hide KeysUp, Captured, KeyBefore, CutAt, Remaining;
    SliceInside(src, p, b);
  }

  lemma SliceInside(src: seq<Record>, p: nat, b: nat)
    requires p <= b <= |src|
    ensures forall r :: r in src[p..b] ==> r in src[..b]
  {
    forall r | r in src[p..b] ensures r in src[..b] {
      var k :| p <= k < b && src[k] == r;
      assert src[..b][k] == r;
    }
  }

  /** A trail that holds the first `b` records of the source. */
  lemma TrailedRun(src: seq<Record>, b: nat)
    requires KeysUp(src) && b <= |src|
    ensures KeysUp(src[..b]) && Captured(src[..b], src) == src[..b]
    ensures forall k :: b <= k < |src| && src[..b] != [] ==> KeyBefore(KeyIn(src[..b][|src[..b]| - 1]), KeyIn(src[k]))
  {
    CapturedAll(src[..b], src);
    hide Captured;
    forall k | b <= k < |src| && src[..b] != []
      ensures KeyBefore(KeyIn(src[..b][|src[..b]| - 1]), KeyIn(src[k]))
    {
      assert src[..b][b - 1] == src[b - 1];
    }
  }

  lemma NotBefore(k: PosKeyT)
    ensures !KeyBefore(k, k)
  {
  }

  lemma NotBeforeZero(at: int)
    requires at >= 0
    ensures !KeyBefore((at, 0), (0, 0))
  {
  }
}
