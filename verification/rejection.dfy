/** Which slices the target rejects, seen from their records alone: a refused record makes it reject its
    driver call unless a later image of the same row replaces it inside that call. */
module Rejection {
  import opened Records
  import opened Store
  import opened Replay
  import opened Target
  import opened ApplyLemmas

  /** Records `i` to `j` are full images of one table, so they go into one upsert. */
  ghost predicate FullStretch(env: Env, rs: seq<Record>, i: nat, j: nat)
    requires i <= j < |rs|
  {
    forall k :: i <= k <= j ==> FullOf(env, rs[k], Upper(rs[i].table))
  }

  ghost predicate FullOf(env: Env, r: Record, t: string) {
    Known(env, r) && Upper(r.table) == t && Classify(r, MetaOf(env, r)) == KindFull
  }

  ghost predicate Replaced(env: Env, rs: seq<Record>, i: nat, j: nat)
    requires i < j < |rs|
  {
    FullStretch(env, rs, i, j) && Known(env, rs[i]) && LocOf(env, rs[j]) == LocOf(env, rs[i])
  }

  /** A later image of the same row replaces record `i` inside the same upsert. */
  ghost predicate Overwritten(env: Env, rs: seq<Record>, i: nat)
    requires i < |rs|
  {
    exists j: nat :: i < j < |rs| && Replaced(env, rs, i, j)
  }

  /** Applied in order, coalescing neighbours, these records make the target reject a call. */
  ghost predicate Rejects(env: Env, rs: seq<Record>) {
    exists i: nat :: i < |rs| && Refused(env, rs[i]) && !Overwritten(env, rs, i)
  }

  /** Applied table bucket by table bucket, they do. */
  ghost predicate BatchRejects(env: Env, rs: seq<Record>) {
    exists n :: Rejects(env, ByName(rs, n))
  }

  lemma RejectsSome(env: Env, rs: seq<Record>)
    requires Rejects(env, rs)
    ensures exists r :: r in rs && Refused(env, r)
  {
  }

  lemma RejectsOne(env: Env, r: Record)
    ensures Rejects(env, [r]) <==> Refused(env, r)
  {
    assert [r][0] == r;
    if Refused(env, r) {
      assert Refused(env, [r][0]) && !Overwritten(env, [r], 0);
    }
  }

  lemma RejectsNone(env: Env)
    ensures !Rejects(env, [])
  {
  }

  lemma RejectsRefusing(env: Env, rs: seq<Record>)
    requires Rejects(env, rs)
    ensures Refusing(env, rs) && Stuck(env, rs)
  {
    hide IsKeymove, MoveRefused, Refused;
  }

  // ---------------------------------------------------------------- seams

  /** Neighbours that never go into one upsert. */
  ghost predicate Seam(env: Env, a: Record, b: Record) {
    !FullOf(env, a, Upper(a.table)) || !FullOf(env, b, Upper(a.table))
  }

  /** A cut between driver calls. */
  ghost predicate Cut(env: Env, rs: seq<Record>, p: nat) {
    0 < p < |rs| ==> Seam(env, rs[p - 1], rs[p])
  }

  lemma ReplacedAt(env: Env, a: seq<Record>, i: nat, j: nat, b: seq<Record>, o: int)
    requires i < j < |a| && 0 <= i + o && j + o < |b| && a[i..j + 1] == b[i + o..j + o + 1]
    ensures Replaced(env, a, i, j) <==> Replaced(env, b, i + o, j + o)
  {
    hide FullOf, LocOf, Known;
    var x, y := a[i..j + 1], b[i + o..j + o + 1];
    assert forall k :: i <= k <= j ==> a[k] == x[k - i];
    assert forall k :: i + o <= k <= j + o ==> b[k] == y[k - i - o];
    assert forall k :: i <= k <= j ==> a[k] == b[k + o];
    assert forall k :: i + o <= k <= j + o ==> b[k] == a[k - o];
  }

  lemma OverwrittenJoin(env: Env, a: seq<Record>, b: seq<Record>, i: nat)
    requires i < |a + b| && (a != [] && b != [] ==> Seam(env, a[|a| - 1], b[0]))
    ensures Overwritten(env, a + b, i) <==> if i < |a| then Overwritten(env, a, i) else Overwritten(env, b, i - |a|)
  {
    hide Replaced, Seam;
    var all := a + b;
    if Overwritten(env, all, i) {
      var j: nat :| i < j < |all| && Replaced(env, all, i, j);
      ReplacedJoin(env, a, b, i, j);
      if j < |a| { OverwrittenBy(env, a, i, j); } else { OverwrittenBy(env, b, i - |a|, j - |a|); }
    }
    if i >= |a| && Overwritten(env, b, i - |a|) {
      var j: nat :| i - |a| < j < |b| && Replaced(env, b, i - |a|, j);
      ReplacedJoin(env, a, b, i, j + |a|);
      OverwrittenBy(env, all, i, j + |a|);
    }
    if i < |a| && Overwritten(env, a, i) {
      var j: nat :| i < j < |a| && Replaced(env, a, i, j);
      ReplacedJoin(env, a, b, i, j);
      OverwrittenBy(env, all, i, j);
    }
  }

  lemma ReplacedJoin(env: Env, a: seq<Record>, b: seq<Record>, i: nat, j: nat)
    requires i < j < |a + b| && (a != [] && b != [] ==> Seam(env, a[|a| - 1], b[0]))
    ensures Replaced(env, a + b, i, j) <==>
              if j < |a| then Replaced(env, a, i, j) else i >= |a| && Replaced(env, b, i - |a|, j - |a|)
  {
    hide Replaced, Seam;
    var all := a + b;
    if j < |a| {
      SliceLeft(a, b, i, j + 1);
      ReplacedAt(env, a, i, j, all, 0);
    } else if i >= |a| {
      SliceRight(a, b, i, j + 1);
      ReplacedAt(env, b, i - |a|, j - |a|, all, |a|);
    } else {
      NotAcross(env, all, i, j, |a|);
    }
  }

  lemma SliceLeft<T>(a: seq<T>, b: seq<T>, i: nat, j: nat)
    requires i <= j <= |a|
    ensures (a + b)[i..j] == a[i..j]
  {
  }

  lemma SliceRight<T>(a: seq<T>, b: seq<T>, i: nat, j: nat)
    requires |a| <= i <= j <= |a + b|
    ensures (a + b)[i..j] == b[i - |a|..j - |a|]
  {
  }

  lemma NotAcross(env: Env, rs: seq<Record>, i: nat, j: nat, p: nat)
    requires i < p <= j < |rs| && Seam(env, rs[p - 1], rs[p])
    ensures !Replaced(env, rs, i, j)
  {
    var q: nat := p - 1;
    if Replaced(env, rs, i, j) {
      StretchAt(env, rs, i, j, q);
      StretchAt(env, rs, i, j, p);
    }
  }

  lemma StretchAt(env: Env, rs: seq<Record>, i: nat, j: nat, k: nat)
    requires i <= k <= j < |rs| && FullStretch(env, rs, i, j)
    ensures FullOf(env, rs[k], Upper(rs[i].table))
  {
  }

  /** A slice is rejected exactly when one of its parts is, if no upsert spans the cut. */
  lemma RejectsJoin(env: Env, a: seq<Record>, b: seq<Record>)
    requires a != [] && b != [] ==> Seam(env, a[|a| - 1], b[0])
    ensures Rejects(env, a + b) <==> Rejects(env, a) || Rejects(env, b)
  {
    hide Overwritten, Refused, Seam;
    var all := a + b;
    forall i: nat | i < |all|
      ensures Overwritten(env, all, i) <==> if i < |a| then Overwritten(env, a, i) else Overwritten(env, b, i - |a|)
    {
      OverwrittenJoin(env, a, b, i);
    }
    if Rejects(env, a) {
      var i: nat :| i < |a| && Refused(env, a[i]) && !Overwritten(env, a, i);
      assert all[i] == a[i];
    }
    if Rejects(env, b) {
      var i: nat :| i < |b| && Refused(env, b[i]) && !Overwritten(env, b, i);
      assert all[i + |a|] == b[i];
    }
    if Rejects(env, all) {
      var i: nat :| i < |all| && Refused(env, all[i]) && !Overwritten(env, all, i);
      if i < |a| {
        assert all[i] == a[i];
      } else {
        assert all[i] == b[i - |a|];
      }
    }
  }

  lemma StretchRejects(env: Env, rs: seq<Record>, p: nat, i: nat)
    requires p <= i <= |rs| && Cut(env, rs, p)
    ensures Rejects(env, rs[..i]) <==> Rejects(env, rs[..p]) || Rejects(env, rs[p..i])
    ensures Cut(env, rs, i) ==> (Rejects(env, rs) <==> Rejects(env, rs[..i]) || Rejects(env, rs[i..]))
  {
    hide *;
    Stretches(rs, p, i);
    CutWithin(env, rs, p, i);
    CutSeam(env, rs[..i], p);
    RejectsJoin(env, rs[..p], rs[p..i]);
    if Cut(env, rs, i) {
      CutSeam(env, rs, i);
      RejectsJoin(env, rs[..i], rs[i..]);
    }
  }

  lemma Stretches(rs: seq<Record>, p: nat, i: nat)
    requires p <= i <= |rs|
    ensures rs[..i][..p] == rs[..p] && rs[..i][p..] == rs[p..i]
    ensures rs[..i] == rs[..p] + rs[p..i] && rs == rs[..i] + rs[i..]
  {
  }

  lemma CutWithin(env: Env, rs: seq<Record>, p: nat, i: nat)
    requires p <= i <= |rs| && Cut(env, rs, p)
    ensures Cut(env, rs[..i], p)
  {
    hide Seam;
  }

  lemma CutSeam(env: Env, rs: seq<Record>, p: nat)
    requires p <= |rs| && Cut(env, rs, p)
    ensures rs[..p] != [] && rs[p..] != [] ==> Seam(env, rs[..p][p - 1], rs[p..][0])
  {
    hide Seam;
  }

  // ---------------------------------------------------------------- one driver call

  /** Where nothing is a full image, nothing is replaced. */
  lemma RejectsPlain(env: Env, t: string, kind: Kind, rs: seq<Record>)
    requires kind != KindFull && forall r :: r in rs ==> Of(env, t, kind, r)
    ensures Rejects(env, rs) <==> exists r :: r in rs && Refused(env, r)
  {
    if r :| r in rs && Refused(env, r) {
      var i: nat :| i < |rs| && rs[i] == r;
      assert Of(env, t, kind, rs[i]);
      PlainKept(env, rs, i);
    }
  }

  lemma PlainKept(env: Env, rs: seq<Record>, i: nat)
    requires i < |rs| && !FullOf(env, rs[i], Upper(rs[i].table))
    ensures !Overwritten(env, rs, i)
  {
    forall j: nat | i < j < |rs| ensures !Replaced(env, rs, i, j) {
      if Replaced(env, rs, i, j) { StretchAt(env, rs, i, j, i); }
    }
  }

  /** A batched delete is rejected exactly when its run is. */
  lemma RejectsDelete(env: Env, t: string, rs: seq<Record>)
    requires t in env.schema && forall r :: r in rs ==> Of(env, t, KindDelete, r)
    ensures Rejects(env, rs) <==> exists w :: w in KeyImages(env.schema[t], rs) && env.refuses(t, w)
  {
    var ws := KeyImages(env.schema[t], rs);
    RejectsPlain(env, t, KindDelete, rs);
    hide Rejects;
    if r :| r in rs && Refused(env, r) {
      var i :| 0 <= i < |rs| && rs[i] == r;
      assert ws[i] in ws;
    }
    if w :| w in ws && env.refuses(t, w) {
      var i :| 0 <= i < |ws| && ws[i] == w;
      assert rs[i] in rs;
    }
  }

  lemma {:induction false} LastIndex(images: seq<Image>, pk: seq<string>, k: Key) returns (i: nat)
    requires k in LastByKey(images, pk)
    ensures i < |images| && images[i] == LastByKey(images, pk)[k] && KeyOf(images[i], pk) == k
    ensures forall j :: i < j < |images| ==> KeyOf(images[j], pk) != k
  {
    i := |images| - 1;
    if KeyOf(images[i], pk) != k {
      i := LastIndex(images[..|images| - 1], pk, k);
    }
  }

  lemma {:induction false} LastKeys(images: seq<Image>, pk: seq<string>, i: nat)
    requires i < |images|
    ensures KeyOf(images[i], pk) in LastByKey(images, pk)
  {
    if i < |images| - 1 {
      LastKeys(images[..|images| - 1], pk, i);
    }
  }

  /** The last image of each key is what a batched upsert presents. */
  lemma LastPresented(images: seq<Image>, pk: seq<string>, i: nat)
    requires i < |images| && forall j :: i < j < |images| ==> KeyOf(images[j], pk) != KeyOf(images[i], pk)
    ensures KeyOf(images[i], pk) in LastByKey(images, pk) && LastByKey(images, pk)[KeyOf(images[i], pk)] == images[i]
  {
    LastKeys(images, pk, i);
    var l := LastIndex(images, pk, KeyOf(images[i], pk));
  }

  /** A batched upsert is rejected exactly when its run is. */
  lemma RejectsFull(env: Env, t: string, rs: seq<Record>)
    requires ValidSchema(env.schema) && t in env.schema
    requires forall r :: r in rs ==> Of(env, t, KindFull, r) && Sound(env, r)
    ensures Rejects(env, rs) <==> AnyRefused(env, t, LastByKey(AfterImages(env.schema[t], rs), env.schema[t].pk))
  {
    var m := env.schema[t];
    var images := AfterImages(m, rs);
    var last := LastByKey(images, m.pk);
    forall i | 0 <= i < |rs|
      ensures Of(env, t, KindFull, rs[i]) && KeyOf(images[i], m.pk) == LocOf(env, rs[i]).key
      ensures Refused(env, rs[i]) <==> env.refuses(t, images[i])
    {
      assert rs[i] in rs;
      KeyOfPresent(env, rs[i]);
    }
    hide Refused, Classify, LocOf, KeyOf, LastByKey;
    if Rejects(env, rs) {
      var i: nat :| i < |rs| && Refused(env, rs[i]) && !Overwritten(env, rs, i);
      forall j | i < j < |images| ensures KeyOf(images[j], m.pk) != KeyOf(images[i], m.pk) {
        LaterReplaces(env, t, rs, i, j);
      }
      LastPresented(images, m.pk, i);
    }
    if AnyRefused(env, t, last) {
      var k :| k in last && env.refuses(t, last[k]);
      var i := LastIndex(images, m.pk, k);
      assert Refused(env, rs[i]);
      if j: nat :| i < j < |rs| && Replaced(env, rs, i, j) {
        assert false;
      }
    }
  }

  lemma LaterReplaces(env: Env, t: string, rs: seq<Record>, i: nat, j: nat)
    requires i < j < |rs| && forall r :: r in rs ==> Of(env, t, KindFull, r)
    ensures Known(env, rs[i]) && Known(env, rs[j])
    ensures LocOf(env, rs[j]) == LocOf(env, rs[i]) ==> Overwritten(env, rs, i)
    ensures LocOf(env, rs[j]).key == LocOf(env, rs[i]).key ==> LocOf(env, rs[j]) == LocOf(env, rs[i])
  {
    assert forall k :: i <= k <= j ==> rs[k] in rs;
    hide Classify;
    assert rs[i] in rs && rs[j] in rs;
    assert FullStretch(env, rs, i, j);
    assert LocOf(env, rs[j]) == LocOf(env, rs[i]) ==> Replaced(env, rs, i, j);
  }

  // ---------------------------------------------------------------- runs and buckets

  /** Runs of different kinds never share a driver call. */
  lemma {:induction false} RejectsRuns(env: Env, t: string, runs: seq<Run>)
    requires MaximalRuns(env, t, runs)
    ensures Rejects(env, Flatten(runs)) <==> exists i :: 0 <= i < |runs| && Rejects(env, runs[i].recs)
  {
    if runs != [] {
      var before, run := runs[..|runs| - 1], runs[|runs| - 1];
      RejectsRuns(env, t, before);
      if before != [] {
        var last := before[|before| - 1];
        FlattenEnds(before);
        assert RunOf(env, t, last) && RunOf(env, t, run);
        assert last.recs[|last.recs| - 1] in last.recs && run.recs[0] in run.recs;
      }
      RejectsJoin(env, Flatten(before), run.recs);
      hide Rejects;
      if Rejects(env, Flatten(runs)) && !Rejects(env, run.recs) {
        var i :| 0 <= i < |before| && Rejects(env, before[i].recs);
        assert runs[i] == before[i];
      }
      if i :| 0 <= i < |runs| && Rejects(env, runs[i].recs) {
        assert i < |before| ==> runs[i] == before[i];
      }
    }
  }

  lemma FlattenEnds(runs: seq<Run>)
    requires runs != [] && runs[|runs| - 1].recs != []
    ensures var rs, last := Flatten(runs), runs[|runs| - 1].recs;
            rs != [] && rs[|rs| - 1] == last[|last| - 1]
  {
  }

  lemma BatchRejectsOne(env: Env, r: Record)
    ensures BatchRejects(env, [r]) <==> Refused(env, r)
  {
    assert [r][..0] == [];
    forall n ensures ByName([r], n) == if r.table == n then [r] else [] {
      assert ByName([], n) == [];
    }
    RejectsOne(env, r);
    RejectsNone(env);
    if Refused(env, r) { assert Rejects(env, ByName([r], r.table)); }
  }

  lemma {:induction false} ByNameConcat(a: seq<Record>, b: seq<Record>, n: string)
    ensures ByName(a + b, n) == ByName(a, n) + ByName(b, n)
  {
    if b == [] {
      assert a + b == a;
    } else {
      assert (a + b)[..|a + b| - 1] == a + b[..|b| - 1];
      ByNameConcat(a, b[..|b| - 1], n);
    }
  }

  lemma {:induction false} ByNameAll(rs: seq<Record>, n: string)
    requires forall r :: r in rs ==> r.table == n
    ensures ByName(rs, n) == rs
  {
    if rs != [] {
      ByNameAll(rs[..|rs| - 1], n);
    }
  }

  /** Where record `p` of a bucket stands in the batch. */
  lemma {:induction false} Unslot(rs: seq<Record>, n: string, p: nat) returns (i: nat)
    requires p < |ByName(rs, n)|
    ensures i < |rs| && rs[i].table == n && ByName(rs, n)[p] == rs[i] && |ByName(rs[..i], n)| == p
  {
    var before := rs[..|rs| - 1];
    if p < |ByName(before, n)| {
      i := Unslot(before, n, p);
      assert before[..i] == rs[..i];
    } else {
      i := |rs| - 1;
    }
  }

  /** Where record `i` of the batch stands in its bucket. */
  lemma Slot(rs: seq<Record>, i: nat)
    requires i < |rs|
    ensures var n := rs[i].table; var p := |ByName(rs[..i], n)|;
            p < |ByName(rs, n)| && ByName(rs, n)[p] == rs[i]
  {
    var n := rs[i].table;
    assert rs == rs[..i] + ([rs[i]] + rs[i + 1..]);
    ByNameConcat(rs[..i], [rs[i]] + rs[i + 1..], n);
    ByNameConcat([rs[i]], rs[i + 1..], n);
    assert [rs[i]][..0] == [];
    assert ByName([rs[i]], n) == [rs[i]];
  }

  lemma SlotOrder(rs: seq<Record>, n: string, i: nat, j: nat)
    requires j <= i <= |rs|
    ensures |ByName(rs[..j], n)| <= |ByName(rs[..i], n)|
  {
    ByNameConcat(rs[..j], rs[j..i], n);
    assert rs[..j] + rs[j..i] == rs[..i];
  }

  /** A batch that is rejected bucket by bucket is also rejected in trail order: a bucket only coalesces
      more. */
  lemma BatchRejectsRejects(env: Env, rs: seq<Record>)
    requires OneSpelling(env, rs) && BatchRejects(env, rs)
    ensures Rejects(env, rs)
  {
    var n :| Rejects(env, ByName(rs, n));
    var bucket := ByName(rs, n);
    var p: nat :| p < |bucket| && Refused(env, bucket[p]) && !Overwritten(env, bucket, p);
    var i := Unslot(rs, n, p);
    if Overwritten(env, rs, i) {
      var j: nat :| i < j < |rs| && Replaced(env, rs, i, j);
      StretchInBucket(env, rs, n, i, j);
      assert false;
    }
  }

  /** A stretch of one table is a stretch of its bucket. */
  lemma StretchInBucket(env: Env, rs: seq<Record>, n: string, i: nat, j: nat)
    requires OneSpelling(env, rs) && i < j < |rs| && rs[i].table == n && Replaced(env, rs, i, j)
    ensures |ByName(rs[..i], n)| < |ByName(rs, n)| && Overwritten(env, ByName(rs, n), |ByName(rs[..i], n)|)
  {
    hide *;
    StretchTables(env, rs, i, j);
    BucketMiddle(rs, n, i, j);
    BucketStretch(env, rs, i, j, ByName(rs, n), |ByName(rs[..i], n)|);
  }

  lemma BucketStretch(env: Env, rs: seq<Record>, i: nat, j: nat, bucket: seq<Record>, p: nat)
    requires i < j < |rs| && Replaced(env, rs, i, j)
    requires p + j - i < |bucket| && bucket[p..p + j - i + 1] == rs[i..j + 1]
    ensures Overwritten(env, bucket, p)
  {
    hide *;
    ReplacedFrom(env, rs, i, j, bucket, p);
    OverwrittenBy(env, bucket, p, p + (j - i));
  }

  lemma StretchTables(env: Env, rs: seq<Record>, i: nat, j: nat)
    requires OneSpelling(env, rs) && i < j < |rs| && Replaced(env, rs, i, j)
    ensures forall r :: r in rs[i..j + 1] ==> r.table == rs[i].table
  {
    hide *;
    forall r | r in rs[i..j + 1] ensures r.table == rs[i].table {
      StretchTable(env, rs, i, j, r);
    }
  }

  lemma ReplacedFrom(env: Env, a: seq<Record>, i: nat, j: nat, b: seq<Record>, p: nat)
    requires i < j < |a| && p + j - i < |b| && b[p..p + j - i + 1] == a[i..j + 1]
    ensures Replaced(env, a, i, j) <==> Replaced(env, b, p, p + (j - i))
  {
    hide *;
    ReplacedAt(env, a, i, j, b, p - i);
  }

  lemma OverwrittenBy(env: Env, rs: seq<Record>, i: nat, j: nat)
    requires i < j < |rs| && Replaced(env, rs, i, j)
    ensures Overwritten(env, rs, i)
  {
  }

  lemma BucketMiddle(rs: seq<Record>, n: string, i: nat, j: nat)
    requires i < j < |rs| && forall r :: r in rs[i..j + 1] ==> r.table == n
    ensures var p := |ByName(rs[..i], n)|;
            p + j - i < |ByName(rs, n)| &&
            ByName(rs, n)[p..p + j - i + 1] == rs[i..j + 1]
  {
    hide ByName;
    var pre, mid, post := rs[..i], rs[i..j + 1], rs[j + 1..];
    ByNameAll(mid, n);
    assert rs == pre + (mid + post);
    ByNameConcat(pre, mid + post, n);
    ByNameConcat(mid, post, n);
    assert (ByName(pre, n) + (mid + ByName(post, n)))[|ByName(pre, n)|..|ByName(pre, n)| + |mid|] == mid;
  }

  lemma StretchTable(env: Env, rs: seq<Record>, i: nat, j: nat, r: Record)
    requires OneSpelling(env, rs) && i < j < |rs| && Replaced(env, rs, i, j) && r in rs[i..j + 1]
    ensures r.table == rs[i].table
  {
    var k :| i <= k <= j && rs[k] == r;
    assert FullOf(env, rs[k], Upper(rs[i].table)) && FullOf(env, rs[i], Upper(rs[i].table));
  }

  lemma UnknownAccepted(env: Env, rs: seq<Record>)
    requires forall r :: r in rs ==> !Known(env, r)
    ensures !Rejects(env, rs)
  {
  }

  lemma BucketsAccepted(env: Env, rs: seq<Record>, names: seq<string>)
    requires forall r :: r in rs ==> r.table in names
    requires forall k :: 0 <= k < |names| ==> !Rejects(env, ByName(rs, names[k]))
    ensures !BatchRejects(env, rs)
  {
    hide Rejects;
    forall n ensures !Rejects(env, ByName(rs, n)) {
      if n in names {
        var k :| 0 <= k < |names| && names[k] == n;
      } else {
        if ByName(rs, n) != [] { ByNameMembers(rs, n, ByName(rs, n)[0]); }
        RejectsNone(env);
      }
    }
  }

  // ---------------------------------------------------------------- trail order

  /** `recs` are the last of the first `i` records; what lies before them is applied. */
  ghost predicate PendingFrom(env: Env, rs: seq<Record>, recs: seq<Record>, i: nat) {
    && |recs| <= i <= |rs| && recs == rs[i - |recs|..i]
    && Cut(env, rs, i - |recs|) && !Rejects(env, rs[..i - |recs|])
  }

  lemma NothingPending(env: Env, rs: seq<Record>)
    ensures NoKeymove(env, rs[..0])
    ensures Cut(env, rs, |rs|) && PendingFrom(env, rs, [], 0) && !Rejects(env, [])
  {
    hide Rejects, Seam, IsKeymove;
    RejectsNone(env);
    assert rs[0..0] == [] && rs[..0] == [];
  }

  lemma UnknownSeam(env: Env, rs: seq<Record>, i: nat)
    requires i < |rs| && !Known(env, rs[i])
    ensures Cut(env, rs, i) && Cut(env, rs, i + 1)
    ensures !Rejects(env, [rs[i]])
  {
    RejectsOne(env, rs[i]);
  }

  lemma RunSeam(env: Env, rs: seq<Record>, t: string, run: Run, i: nat)
    requires i < |rs| && run.recs != [] && PendingFrom(env, rs, run.recs, i) && PendingRun(env, rs, t, run)
    requires Known(env, rs[i])
    requires Upper(rs[i].table) != t || Classify(rs[i], MetaOf(env, rs[i])) != run.kind
    ensures Cut(env, rs, i)
  {
    assert rs[i - 1] == run.recs[|run.recs| - 1];
  }

  /** What handing the pending records to the driver settles. */
  lemma RunDone(env: Env, rs: seq<Record>, recs: seq<Record>, i: nat)
    requires PendingFrom(env, rs, recs, i)
    ensures Cut(env, rs, i) && Rejects(env, recs) ==> Rejects(env, rs)
    ensures !Rejects(env, recs) ==> !Rejects(env, rs[..i])
    ensures Cut(env, rs, i) && !Rejects(env, recs) ==> PendingFrom(env, rs, [], i)
    ensures i < |rs| && !Known(env, rs[i]) && !Rejects(env, recs) ==> PendingFrom(env, rs, [], i + 1)
  {
    hide Rejects, Seam;
    StretchRejects(env, rs, i - |recs|, i);
    if i < |rs| && !Known(env, rs[i]) {
      UnknownSeam(env, rs, i);
      StretchRejects(env, rs, i, i + 1);
      assert rs[i..i + 1] == [rs[i]];
    }
  }

  lemma PendingMore(env: Env, rs: seq<Record>, recs: seq<Record>, i: nat)
    requires PendingFrom(env, rs, recs, i) && i < |rs|
    ensures PendingFrom(env, rs, recs + [rs[i]], i + 1)
  {
  }
}
