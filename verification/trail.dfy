/** The trail: a segmented append-only log under one global line cursor, with rotation, a crash-safe
    purge and cached line counts.  Seen from outside it is one sequence of lines. */
module TrailLog {
  import opened Records

  /** A newline-terminated line: a record, a blank line, or one that does not parse. */
  datatype Line = Rec(r: Record) | Blank | Corrupt

  /** A segment file: its complete lines and the length of an unterminated tail (0: none). */
  datatype SegFile = SegFile(idx: nat, lines: seq<Line>, torn: nat)

  datatype ReadResult = Slice(records: seq<Record>, cursor: nat) | ReadError(line: nat)

  function Recs(lines: seq<Line>): seq<Record> {
    if lines == [] then []
    else
      var last := lines[|lines| - 1];
      Recs(lines[..|lines| - 1]) + if last.Rec? then [last.r] else []
  }

  function Lines(rs: seq<Record>): (lines: seq<Line>)
    ensures |lines| == |rs| && forall i :: 0 <= i < |rs| ==> lines[i] == Rec(rs[i])
  {
    seq(|rs|, i requires 0 <= i < |rs| => Rec(rs[i]))
  }

  function Concat(segs: seq<SegFile>): seq<Line> {
    if segs == [] then [] else Concat(segs[..|segs| - 1]) + segs[|segs| - 1].lines
  }

  lemma {:induction false} ConcatSplit(a: seq<SegFile>, b: seq<SegFile>)
    ensures Concat(a + b) == Concat(a) + Concat(b)
  {
    if b == [] {
      assert a + b == a;
    } else {
      assert (a + b)[..|a + b| - 1] == a + b[..|b| - 1];
      ConcatSplit(a, b[..|b| - 1]);
    }
  }

  lemma {:induction false} RecsSplit(a: seq<Line>, b: seq<Line>)
    ensures Recs(a + b) == Recs(a) + Recs(b)
  {
    if b == [] {
      assert a + b == a;
    } else {
      assert (a + b)[..|a + b| - 1] == a + b[..|b| - 1];
      RecsSplit(a, b[..|b| - 1]);
    }
  }

  lemma {:induction false} RecsOfLines(rs: seq<Record>)
    ensures Recs(Lines(rs)) == rs
  {
    if rs != [] {
      assert Lines(rs)[..|rs| - 1] == Lines(rs[..|rs| - 1]);
      RecsOfLines(rs[..|rs| - 1]);
    }
  }

  lemma LinesAfter(lines: seq<Line>, rs: seq<Record>, more: seq<Record>)
    requires lines == Lines(rs)
    ensures Recs(lines + Lines(more)) == rs + more && lines + Lines(more) == Lines(rs + more)
  {
    hide Recs;
    RecsSplit(lines, Lines(more));
    RecsOfLines(rs);
    RecsOfLines(more);
  }

  lemma ConcatFirst(segs: seq<SegFile>)
    requires segs != []
    ensures Concat(segs) == segs[0].lines + Concat(segs[1..])
  {
    assert segs == [segs[0]] + segs[1..];
    ConcatSplit([segs[0]], segs[1..]);
    assert [segs[0]][..0] == [];
  }

  lemma ConcatLast(segs: seq<SegFile>, last: SegFile)
    ensures Concat(segs + [last]) == Concat(segs) + last.lines
  {
    assert (segs + [last])[..|segs|] == segs;
  }

  lemma ConcatUpTo(segs: seq<SegFile>, i: nat)
    requires i < |segs|
    ensures Concat(segs[..i + 1]) == Concat(segs[..i]) + segs[i].lines
    ensures Concat(segs) == Concat(segs[..i]) + segs[i].lines + Concat(segs[i + 1..])
  {
    hide *;
    FilesUpTo(segs, i);
    ConcatLast(segs[..i], segs[i]);
    ConcatSplit(segs[..i + 1], segs[i + 1..]);
  }

  lemma FilesUpTo(segs: seq<SegFile>, i: nat)
    requires i < |segs|
    ensures segs[..i + 1] == segs[..i] + [segs[i]] && segs[..i + 1] + segs[i + 1..] == segs
  {
  }

  // ---------------------------------------------------------------- what a read returns

  /** A read that starts after line `cursor` and stops at line `to` returns the records between
      them, met nothing unreadable, and stopped at the end or at the limit. */
  ghost predicate ReadsTo(log: seq<Line>, cursor: nat, limit: Option<nat>, out: seq<Record>, to: nat) {
    && cursor <= to <= |log|
    && out == Recs(log[cursor..to])
    && (forall g :: cursor <= g < to ==> !log[g].Corrupt?)
    && (limit.Some? ==> |out| <= limit.value)
    && (to < |log| ==> limit.Some? && |out| == limit.value)
  }

  /** A read fails exactly at the first unreadable line it reaches below its limit. */
  ghost predicate FailsAt(log: seq<Line>, cursor: nat, limit: Option<nat>, g: nat) {
    && cursor <= g < |log| && log[g].Corrupt?
    && (forall h :: cursor <= h < g ==> !log[h].Corrupt?)
    && (limit.Some? ==> |Recs(log[cursor..g])| < limit.value)
  }

  // ---------------------------------------------------------------- the layout of a trail

  /** A closed segment that is already counted as purged but whose file is still there. */
  ghost predicate LeftoverIn(segs: seq<SegFile>, lastPurged: int) {
    |segs| > 1 && segs[0].idx <= lastPurged
  }

  ghost function CountedIn(segs: seq<SegFile>, lastPurged: int): nat {
    if LeftoverIn(segs, lastPurged) then |segs[0].lines| else 0
  }

  ghost predicate Ordered(segs: seq<SegFile>, lastPurged: int) {
    && (forall i, j :: 0 <= i < j < |segs| ==> segs[i].idx < segs[j].idx)
    && (forall i :: 0 <= i < |segs| - 1 ==> segs[i].torn == 0)
    && (forall i :: 0 < i < |segs| ==> segs[i].idx > lastPurged)
    && (segs != [] ==> segs[|segs| - 1].idx > lastPurged)
  }

  /** The files hold the log from the first line that is not counted as purged, plus the counted
      leftover, if there is one. */
  ghost predicate Holds(segs: seq<SegFile>, purged: nat, lastPurged: int, log: seq<Line>) {
    && (segs == [] ==> purged == 0)
    && CountedIn(segs, lastPurged) <= purged <= |log| + CountedIn(segs, lastPurged)
    && log[purged - CountedIn(segs, lastPurged)..] == Concat(segs)
  }

  ghost predicate CacheRight(segs: seq<SegFile>, cache: map<nat, nat>) {
    forall k :: k in cache ==>
                  exists i :: 0 <= i < |segs| - 1 && segs[i].idx == k && cache[k] == |segs[i].lines|
  }

  /** Growing the active file grows the log. */
  lemma ExtendLayout(segs: seq<SegFile>, purged: nat, lastPurged: int, cache: map<nat, nat>,
                     log: seq<Line>, lines: seq<Line>, torn: nat)
    requires segs != []
    requires Ordered(segs, lastPurged) && Holds(segs, purged, lastPurged, log) && CacheRight(segs, cache)
    ensures var k := |segs| - 1;
            var next := segs[k := SegFile(segs[k].idx, segs[k].lines + lines, torn)];
            && Ordered(next, lastPurged) && Holds(next, purged, lastPurged, log + lines)
            && CacheRight(next, cache) && LeftoverIn(next, lastPurged) == LeftoverIn(segs, lastPurged)
            && Concat(next) == Concat(segs) + lines
  {
    hide *;
    var k := |segs| - 1;
    var last := SegFile(segs[k].idx, segs[k].lines + lines, torn);
    LastOrdered(segs, last, lastPurged);
    LastCached(segs, last, cache);
    LastConcat(segs, last, lines);
    LastHolds(segs, segs[k := last], purged, lastPurged, log, lines);
  }

  lemma LastOrdered(segs: seq<SegFile>, last: SegFile, lastPurged: int)
    requires segs != [] && last.idx == segs[|segs| - 1].idx && Ordered(segs, lastPurged)
    ensures var next := segs[|segs| - 1 := last];
            && Ordered(next, lastPurged) && LeftoverIn(next, lastPurged) == LeftoverIn(segs, lastPurged)
            && CountedIn(next, lastPurged) == CountedIn(segs, lastPurged)
  {
  }

  lemma LastCached(segs: seq<SegFile>, last: SegFile, cache: map<nat, nat>)
    requires segs != [] && CacheRight(segs, cache)
    ensures CacheRight(segs[|segs| - 1 := last], cache)
  {
    var next := segs[|segs| - 1 := last];
    forall c | c in cache
      ensures exists i :: 0 <= i < |next| - 1 && next[i].idx == c && cache[c] == |next[i].lines|
    {
      var i :| 0 <= i < |segs| - 1 && segs[i].idx == c && cache[c] == |segs[i].lines|;
      assert next[i] == segs[i];
    }
  }

  lemma LastConcat(segs: seq<SegFile>, last: SegFile, lines: seq<Line>)
    requires segs != [] && last.lines == segs[|segs| - 1].lines + lines
    ensures Concat(segs[|segs| - 1 := last]) == Concat(segs) + lines
  {
    hide Concat;
    var k := |segs| - 1;
    assert segs == segs[..k] + [segs[k]] && segs[k := last] == segs[..k] + [last];
    ConcatLast(segs[..k], segs[k]);
    ConcatLast(segs[..k], last);
  }

  lemma LastHolds(segs: seq<SegFile>, next: seq<SegFile>, purged: nat, lastPurged: int, log: seq<Line>,
                  lines: seq<Line>)
    requires Holds(segs, purged, lastPurged, log) && segs != [] && next != []
    requires CountedIn(next, lastPurged) == CountedIn(segs, lastPurged) && Concat(next) == Concat(segs) + lines
    ensures Holds(next, purged, lastPurged, log + lines)
  {
    hide Concat, CountedIn;
    var from := purged - CountedIn(segs, lastPurged);
    assert (log + lines)[from..] == log[from..] + lines;
  }

  /** Starting a new, empty active file changes no line. */
  lemma RotateLayout(segs: seq<SegFile>, purged: nat, lastPurged: int, cache: map<nat, nat>, log: seq<Line>)
    requires Ordered(segs, lastPurged) && Holds(segs, purged, lastPurged, log) && CacheRight(segs, cache)
    requires segs != [] ==> segs[|segs| - 1].torn == 0
    requires segs == [] ==> lastPurged < 0
    ensures var next := segs + [SegFile(if segs == [] then 0 else segs[|segs| - 1].idx + 1, [], 0)];
            && Ordered(next, lastPurged) && Holds(next, purged, lastPurged, log)
            && CacheRight(next, cache) && LeftoverIn(next, lastPurged) == LeftoverIn(segs, lastPurged)
            && Concat(next) == Concat(segs)
  {
    hide Concat;
    var last := SegFile(if segs == [] then 0 else segs[|segs| - 1].idx + 1, [], 0);
    var next := segs + [last];
    ConcatLast(segs, last);
    assert CountedIn(next, lastPurged) == CountedIn(segs, lastPurged);
    forall c | c in cache
      ensures exists i :: 0 <= i < |next| - 1 && next[i].idx == c && cache[c] == |next[i].lines|
    {
      var i :| 0 <= i < |segs| - 1 && segs[i].idx == c && cache[c] == |segs[i].lines|;
      assert next[i] == segs[i];
    }
  }

  /** Counting the first closed segment as purged makes it the leftover. */
  lemma CountFirst(segs: seq<SegFile>, purged: nat, lastPurged: int, log: seq<Line>)
    requires |segs| > 1 && Ordered(segs, lastPurged) && Holds(segs, purged, lastPurged, log)
    requires !LeftoverIn(segs, lastPurged)
    ensures Ordered(segs, segs[0].idx) && LeftoverIn(segs, segs[0].idx)
    ensures Holds(segs, purged + |segs[0].lines|, segs[0].idx, log)
  {
    hide Concat;
    ConcatFirst(segs);
  }

  /** Removing the counted leftover restores every surviving line's index. */
  lemma DropFirst(segs: seq<SegFile>, purged: nat, lastPurged: int, cache: map<nat, nat>, log: seq<Line>)
    requires LeftoverIn(segs, lastPurged)
    requires Ordered(segs, lastPurged) && Holds(segs, purged, lastPurged, log) && CacheRight(segs, cache)
    ensures Ordered(segs[1..], lastPurged) && Holds(segs[1..], purged, lastPurged, log)
    ensures !LeftoverIn(segs[1..], lastPurged) && purged <= |log|
    ensures CacheRight(segs[1..], cache - {segs[0].idx})
  {
    hide Concat;
    ConcatFirst(segs);
    var n := |segs[0].lines|;
    assert log[purged - n..][n..] == log[purged..];
    forall c | c in cache - {segs[0].idx}
      ensures exists i :: 0 <= i < |segs[1..]| - 1 && segs[1..][i].idx == c &&
                (cache - {segs[0].idx})[c] == |segs[1..][i].lines|
    {
      var i :| 0 <= i < |segs| - 1 && segs[i].idx == c && cache[c] == |segs[i].lines|;
      assert segs[1..][i - 1] == segs[i];
    }
  }

  /** The position of the last line of the last file that does not end in a blank line. */
  function TailPos(segs: seq<SegFile>): SourcePos {
    if segs == [] then Absent
    else
      var lines := segs[|segs| - 1].lines;
      if lines == [] || lines[|lines| - 1].Blank? then TailPos(segs[..|segs| - 1])
      else if lines[|lines| - 1].Rec? then lines[|lines| - 1].r.pos
      else Absent
  }

  /** Where every line is a record, that is the position of the last record on disk, in whichever file. */
  lemma {:induction false} TailOfRecords(segs: seq<SegFile>)
    requires forall l :: l in Concat(segs) ==> l.Rec?
    ensures TailPos(segs) == if Concat(segs) == [] then Absent else Concat(segs)[|Concat(segs)| - 1].r.pos
  {
    if segs != [] {
      var before, lines := Concat(segs[..|segs| - 1]), segs[|segs| - 1].lines;
      assert Concat(segs) == before + lines;
      if lines != [] {
        assert lines[|lines| - 1] in before + lines;
      } else {
        TailOfRecords(segs[..|segs| - 1]);
      }
    }
  }

  /** The files and the meta agree with the log. */
  ghost predicate Laid(segs: seq<SegFile>, purged: nat, lastPurged: int, log: seq<Line>) {
    Ordered(segs, lastPurged) && Holds(segs, purged, lastPurged, log)
  }

  lemma FullFile(log: seq<Line>)
    ensures Laid([SegFile(0, log, 0)], 0, -1, log)
  {
    ConcatLast([], SegFile(0, log, 0));
    assert [] + [SegFile(0, log, 0)] == [SegFile(0, log, 0)] && Concat([]) == [] && [] + log == log;
  }

  /** The next append starts a file, and only a fragment of its first line lands. */
  lemma TornStart(log: seq<Line>, torn: nat)
    requires Laid([SegFile(0, log, 0)], 0, -1, log)
    ensures Laid([SegFile(0, log, 0), SegFile(1, [], torn)], 0, -1, log)
  {
    hide Concat, Ordered, Holds;
    var full := [SegFile(0, log, 0)];
    RotateLayout(full, 0, -1, map[], log);
    var next := full + [SegFile(1, [], 0)];
    ExtendLayout(next, 0, -1, map[], log, [], torn);
    assert next == [SegFile(0, log, 0), SegFile(1, [], 0)] && log + [] == log;
    assert next[1].lines + [] == [];
    assert next[1 := SegFile(1, next[1].lines + [], torn)] == [SegFile(0, log, 0), SegFile(1, [], torn)];
  }

  /** A purge counts the full file and removes it. */
  lemma PurgedFull(log: seq<Line>, torn: nat)
    requires Laid([SegFile(0, log, 0), SegFile(1, [], torn)], 0, -1, log)
    ensures Laid([SegFile(0, log, 0), SegFile(1, [], torn)], |log|, 0, log)
    ensures Laid([SegFile(1, [], torn)], |log|, 0, log)
  {
    hide Concat, Ordered, Holds;
    var segs := [SegFile(0, log, 0), SegFile(1, [], torn)];
    CountFirst(segs, 0, -1, log);
    DropFirst(segs, |log|, 0, map[], log);
    assert segs[1..] == [SegFile(1, [], torn)];
  }

  /** The heal drops the fragment. */
  lemma HealedEmpty(log: seq<Line>, torn: nat)
    requires Laid([SegFile(1, [], torn)], |log|, 0, log)
    ensures Laid([SegFile(1, [], 0)], |log|, 0, log) && TailPos([SegFile(1, [], 0)]) == Absent
  {
    var segs := [SegFile(1, [], torn)];
    assert [SegFile(1, [], 0)][..0] == [] && TailPos([]) == Absent;
    hide Concat, Ordered, Holds;
    ExtendLayout(segs, |log|, 0, map[], log, [], 0);
    assert segs[0 := SegFile(1, [] + [], 0)] == [SegFile(1, [], 0)] && log + [] == log;
  }

  /** How a trail comes to hide its tail: its only file is full, the next append starts a file and is torn,
      a purge counts and removes the full file, and a heal drops the fragment. */
  lemma HiddenTail(log: seq<Line>, torn: nat)
    ensures Laid([SegFile(0, log, 0)], 0, -1, log)
    ensures Laid([SegFile(0, log, 0), SegFile(1, [], torn)], 0, -1, log)
    ensures Laid([SegFile(0, log, 0), SegFile(1, [], torn)], |log|, 0, log)
    ensures Laid([SegFile(1, [], torn)], |log|, 0, log)
    ensures Laid([SegFile(1, [], 0)], |log|, 0, log) && TailPos([SegFile(1, [], 0)]) == Absent
  {
    hide *;
    FullFile(log);
    TornStart(log, torn);
    PurgedFull(log, torn);
    HealedEmpty(log, torn);
  }

  class Trail {
    var segs: seq<SegFile>       // the existing files, by index
    var purged: nat              // trail.meta: lines counted as gone
    var lastPurged: int          // trail.meta: the highest counted segment, -1 for none
    var cache: map<nat, nat>     // line counts of closed segments
    const rotateBytes: nat       // 0 turns rotation off
    const lineBytes: Line -> nat
    ghost var log: seq<Line>     // every complete line ever appended

    ghost predicate Valid()
      reads this
    {
      && Ordered(segs, lastPurged)
      && Holds(segs, purged, lastPurged, log)
      && CacheRight(segs, cache)
      && (segs == [] ==> lastPurged < 0)
    }

    ghost predicate Leftover()
      reads this
    {
      LeftoverIn(segs, lastPurged)
    }

    /** No counted leftover: surviving lines sit at their original global index. */
    ghost predicate Reconciled()
      reads this
    {
      Valid() && !Leftover()
    }

    constructor (rotateBytes: nat, lineBytes: Line -> nat)
      ensures Reconciled() && log == [] && segs == [] && purged == 0
    {
      segs, purged, lastPurged, cache := [], 0, -1, map[];
      log := [];
      this.rotateBytes, this.lineBytes := rotateBytes, lineBytes;
    }

    function Bytes(lines: seq<Line>): nat {
      if lines == [] then 0 else Bytes(lines[..|lines| - 1]) + lineBytes(lines[|lines| - 1])
    }

    predicate Healed()
      reads this
    {
      segs == [] || segs[|segs| - 1].torn == 0
    }

    /** A new process opens the trail: it has counted nothing yet. */
    method Reopen()
      requires Valid()
      modifies this`cache
      ensures Valid() && cache == map[]
    {
      cache := map[];
    }

    // -------------------------------------------------------------- append

    /** The active file has reached the size cap, or there is none. */
    ghost predicate CapReached(segs: seq<SegFile>) {
      segs != [] ==> rotateBytes > 0 && Bytes(segs[|segs| - 1].lines) + segs[|segs| - 1].torn >= rotateBytes
    }

    ghost function LastIndex(segs: seq<SegFile>): (i: int)
      ensures i >= -1
    {
      if segs == [] then -1 else segs[|segs| - 1].idx
    }

    /** `lines` went, all of them, to the active file of `before`, or to a new one if that is full. */
    ghost predicate WentTo(before: seq<SegFile>, now: seq<SegFile>, lines: seq<Line>, torn: nat) {
      && now != []
      && (if CapReached(before) then
            && |now| == |before| + 1 && now[..|before|] == before
            && now[|before|] == SegFile(now[|before|].idx, lines, torn) && now[|before|].idx == LastIndex(before) + 1
          else
            && |now| == |before| && now[..|before| - 1] == before[..|before| - 1]
            && now[|before| - 1] == SegFile(LastIndex(before), before[|before| - 1].lines + lines, torn))
      && (rotateBytes > 0 ==> Bytes(now[|now| - 1].lines) < rotateBytes + Bytes(lines))
    }

    lemma NothingWritten(lines: seq<Line>, rs: seq<Record>)
      ensures lines + Lines(rs[..0]) == lines && rs[..|rs|] == rs
      ensures rs != [] ==> Lines(rs) != []
    {
    }

    lemma {:induction false} BytesJoin(a: seq<Line>, b: seq<Line>)
      ensures Bytes(a + b) == Bytes(a) + Bytes(b)
    {
      if b == [] {
        assert a + b == a;
      } else {
        BytesJoin(a, b[..|b| - 1]);
        assert (a + b)[..|a + b| - 1] == a + b[..|b| - 1];
      }
    }

    /** Appends one line per record, rotating first when the active file is full, so that no file exceeds
        the cap by more than its last batch.  A crash keeps a prefix of the records and possibly a torn
        fragment of the next. */
    method Append(rs: seq<Record>, mortal: bool) returns (alive: bool)
      requires Valid() && Healed()
      modifies this`segs, this`log
      ensures Valid() && Leftover() == old(Leftover())
      ensures exists n :: 0 <= n <= |rs| && log == old(log) + Lines(rs[..n]) && (alive ==> n == |rs|)
      ensures (alive ==> Healed()) && (alive || mortal)
      ensures rs == [] ==> alive && segs == old(segs)
      ensures rs != [] ==>
                exists n, torn :: 0 <= n <= |rs| && log == old(log) + Lines(rs[..n]) &&
                                  (alive ==> n == |rs| && torn == 0) && WentTo(old(segs), segs, Lines(rs[..n]), torn)
      ensures alive && (rs != [] || old(Concat(segs)) != []) ==> Concat(segs) != []
      ensures |old(segs)| <= |segs|
      ensures forall k :: 0 <= k < |old(segs)| - 1 ==> segs[k] == old(segs)[k]
      ensures old(segs) != [] ==> segs[|old(segs)| - 1].idx == old(segs)[|old(segs)| - 1].idx
    {
      hide Concat, Ordered, Holds, CacheRight, WentTo, CapReached, LastIndex, Bytes, Leftover, Lines;
      NothingWritten(log, rs);
      if rs == [] {
        return true;
      }
      Rotate();
      var n: nat, torn: nat := *, *;
      alive := *;
      alive := alive || !mortal;
      if alive || n >= |rs| {
        n, torn := |rs|, 0;
      }
      ghost var rotated := segs;
      ReplaceActive(Lines(rs[..n]), torn);
      WentBehind(old(segs), rotated, segs, Lines(rs[..n]), torn);
      assert rs[..|rs|] == rs;
    }

    /** Starts a new active file when there is none or the active one is full. */
    method Rotate()
      requires Valid() && Healed()
      modifies this`segs
      ensures Valid() && segs != [] && Leftover() == old(Leftover())
      ensures old(segs) <= segs && Concat(segs) == old(Concat(segs))
      ensures segs == if CapReached(old(segs)) then old(segs) + [SegFile(LastIndex(old(segs)) + 1, [], 0)]
                      else old(segs)
    {
      hide Concat, Ordered, Holds, CacheRight;
      if segs == [] ||
         (rotateBytes > 0 && Bytes(segs[|segs| - 1].lines) + segs[|segs| - 1].torn >= rotateBytes)
      {
        RotateLayout(segs, purged, lastPurged, cache, log);
        segs := segs + [SegFile(if segs == [] then 0 else segs[|segs| - 1].idx + 1, [], 0)];
      }
    }

    lemma WentBehind(before: seq<SegFile>, rotated: seq<SegFile>, now: seq<SegFile>, lines: seq<Line>, torn: nat)
      requires rotated == if CapReached(before) then before + [SegFile(LastIndex(before) + 1, [], 0)] else before
      requires |now| == |rotated| > 0 && now[..|now| - 1] == rotated[..|now| - 1]
      requires now[|now| - 1] == SegFile(rotated[|now| - 1].idx, rotated[|now| - 1].lines + lines, torn)
      ensures WentTo(before, now, lines, torn)
    {
      hide Bytes;
      BytesJoin(rotated[|now| - 1].lines, lines);
      BytesNone();
      assert [] + lines == lines;
    }

    lemma BytesNone()
      ensures Bytes([]) == 0
    {
    }

    /** Adds complete lines to the active file and sets its unterminated tail. */
    method ReplaceActive(lines: seq<Line>, torn: nat)
      requires Valid() && segs != []
      modifies this`segs, this`log
      ensures Valid() && log == old(log) + lines && Leftover() == old(Leftover())
      ensures (Healed() <==> torn == 0) && Concat(segs) == old(Concat(segs)) + lines
      ensures |segs| == |old(segs)| && segs[..|segs| - 1] == old(segs)[..|segs| - 1]
      ensures var k := |segs| - 1; segs[k] == SegFile(old(segs)[k].idx, old(segs)[k].lines + lines, torn)
    {
      hide Concat;
      ExtendLayout(segs, purged, lastPurged, cache, log, lines, torn);
      var k := |segs| - 1;
      segs := segs[k := SegFile(segs[k].idx, segs[k].lines + lines, torn)];
      log := log + lines;
    }

    // -------------------------------------------------------------- heal

    /** Drops the unterminated tail of the active file. */
    method HealTornTail() returns (healed: bool)
      requires Valid()
      modifies this`segs, this`log
      ensures Valid() && Healed() && Leftover() == old(Leftover())
      ensures log == old(log) && (healed <==> old(!Healed()))
      ensures |segs| == |old(segs)|
      ensures forall k :: 0 <= k < |segs| - 1 ==> segs[k] == old(segs)[k]
      ensures segs != [] ==> segs[|segs| - 1].idx == old(segs)[|segs| - 1].idx
    {
      hide Concat;
      if segs == [] || segs[|segs| - 1].torn == 0 {
        return false;
      }
      assert log + [] == log;
      ReplaceActive([], 0);
      healed := true;
    }

    // -------------------------------------------------------------- purge

    /** Removes a segment file that a crashed purge had already counted. */
    method ReconcilePurged(mortal: bool) returns (alive: bool)
      requires Valid()
      modifies this`segs, this`cache
      ensures Valid() && (alive ==> Reconciled()) && (alive || mortal)
      ensures segs == old(segs) || (old(Leftover()) && segs == old(segs[1..]))
      ensures alive && old(Leftover()) ==> segs == old(segs[1..])
    {
      hide Concat;
      alive := true;
      while alive && |segs| > 1 && segs[0].idx <= lastPurged
        invariant Valid() && (alive || mortal)
        invariant segs == old(segs) || (old(Leftover()) && !Leftover() && segs == old(segs[1..]))
        decreases |segs|, alive
      {
        var removed := *;
        alive := *;
        alive := alive || !mortal;
        if alive || removed {
          DropFirst(segs, purged, lastPurged, cache, log);
          cache := cache - {segs[0].idx};
          segs := segs[1..];
        }
      }
    }

    method ClosedSegLineCount(i: nat) returns (n: nat)
      requires Valid() && i < |segs| - 1
      modifies this`cache
      ensures Valid() && n == |segs[i].lines|
      ensures old(cache).Keys <= cache.Keys <= old(cache).Keys + {segs[i].idx}
    {
      if segs[i].idx in cache {
        n := cache[segs[i].idx];
      } else {
        n := |segs[i].lines|;
        cache := cache[segs[i].idx := n];
      }
    }

    /** Writes the meta that counts the first closed segment as purged; the write is atomic. */
    method CountSegment(end: nat, mortal: bool) returns (alive: bool)
      requires Reconciled() && |segs| > 1 && end == purged + |segs[0].lines|
      modifies this`purged, this`lastPurged
      ensures Valid() && (alive ==> Leftover()) && (alive || mortal)
      ensures if Leftover() then purged == end else purged == old(purged)
    {
      hide Concat;
      var written := *;
      alive := *;
      alive := alive || !mortal;
      CountFirst(segs, purged, lastPurged, log);
      if alive || written {
        purged, lastPurged := end, segs[0].idx;
      }
    }

    /** Deletes closed segments whose every line is at or below `cursor`, writing the meta before
        removing the file, while extracts may go on appending (`arrivals`).  However it stops, no line
        above the cursor is gone, and what it leaves is at most one counted segment. */
    method PurgeApplied(cursor: nat, arrivals: seq<seq<Record>>, mortal: bool) returns (alive: bool)
      requires Valid()
      modifies this
      ensures Valid() && old(log) <= log && (arrivals == [] ==> log == old(log))
      ensures old(purged) <= purged && (purged == old(purged) || purged <= cursor)
      ensures (alive ==> Reconciled()) && (alive || mortal)
      ensures alive && arrivals == [] ==> |segs| <= 1 || purged + |segs[0].lines| > cursor
    {
      hide Concat;
      alive := ReconcilePurged(mortal);
      if !alive || |segs| <= 1 { return; }
      var closed := |segs| - 1;
      for j := 0 to closed
        invariant Reconciled() && old(log) <= log && (arrivals == [] ==> log == old(log))
        invariant old(purged) <= purged && (purged == old(purged) || purged <= cursor)
        invariant |segs| >= closed - j + 1 && (arrivals == [] ==> |segs| == closed - j + 1)
      {
        var done;
        alive, done := PurgeFirst(cursor, if j < |arrivals| then arrivals[j] else [], mortal);
        if !alive || done { return; }
      }
      alive := true;
    }

    /** Purges the first closed segment, unless it holds a line above the cursor. */
    method PurgeFirst(cursor: nat, arrival: seq<Record>, mortal: bool) returns (alive: bool, done: bool)
      requires Reconciled() && |segs| > 1
      modifies this
      ensures Valid() && old(log) <= log && (arrival == [] ==> log == old(log))
      ensures old(purged) <= purged && (purged == old(purged) || purged <= cursor)
      ensures (alive ==> Reconciled()) && (alive || mortal)
      ensures alive && done ==> |segs| > 1 && purged + |segs[0].lines| > cursor
      ensures alive && !done ==> |segs| >= |old(segs)| - 1
      ensures alive && !done && arrival == [] ==> |segs| == |old(segs)| - 1
    {
      hide Concat, Ordered, Holds, CacheRight;
      var n := ClosedSegLineCount(0);
      done := purged + n > cursor;
      if done {
        return true, true;
      }
      alive := CountSegment(purged + n, mortal);
      if !alive { return; }
      if arrival != [] {
        var _ := ConcurrentAppend(arrival);
      }
      alive := ReconcilePurged(mortal);
    }

    /** Another process runs an extract: it heals the active file and appends. */
    method ConcurrentAppend(rs: seq<Record>) returns (alive: bool)
      requires Valid()
      modifies this`segs, this`log
      ensures Valid() && Leftover() == old(Leftover())
      ensures exists n :: 0 <= n <= |rs| && log == old(log) + Lines(rs[..n])
      ensures |old(segs)| <= |segs|
      ensures forall k :: 0 <= k < |old(segs)| - 1 ==> segs[k] == old(segs)[k]
      ensures old(segs) != [] ==> segs[|old(segs)| - 1].idx == old(segs)[|old(segs)| - 1].idx
    {
      hide Concat;
      var _ := HealTornTail();
      alive := Append(rs, true);
    }

    // -------------------------------------------------------------- counting

    /** The total number of lines, purged ones included.  An unreconciled leftover is counted twice, and a
        torn tail as one line more. */
    method LineCount() returns (n: nat)
      requires Valid()
      ensures n == |log| + CountedIn(segs, lastPurged) + if Healed() then 0 else 1
    {
      n := purged;
      for i := 0 to |segs|
        invariant n == purged + |Concat(segs[..i])| + if i == |segs| && !Healed() then 1 else 0
      {
        ConcatUpTo(segs, i);
        n := n + |segs[i].lines| + if segs[i].torn > 0 then 1 else 0;
      }
      assert segs[..|segs|] == segs;
    }

    // -------------------------------------------------------------- the tail position

    /** The source position of the last complete line on disk, active file first; a file whose last line
        is blank is passed over, and a line that does not parse has no position.  A torn tail does not
        count, so healing it changes nothing. */
    method LastSourcePos() returns (pos: SourcePos)
      ensures pos == TailPos(segs)
    {
      var i := |segs|;
      assert segs[..|segs|] == segs;
      while i > 0
        invariant 0 <= i <= |segs| && TailPos(segs[..i]) == TailPos(segs)
      {
        i := i - 1;
        assert segs[..i + 1][..i] == segs[..i];
        var lines := segs[i].lines;
        if lines != [] && !lines[|lines| - 1].Blank? {
          return if lines[|lines| - 1].Rec? then lines[|lines| - 1].r.pos else Absent;
        }
      }
      pos := Absent;
    }

    // -------------------------------------------------------------- read

    /** Returns the records after global line `cursor`, at most `limit` of them, and the cursor to
        continue from.  Closed segments that end at or below the cursor are skipped by their cached
        line count; a torn tail is never read. */
    method Read(cursor: nat, limit: Option<nat>) returns (res: ReadResult)
      requires Reconciled() && purged <= cursor
      requires limit.Some? ==> limit.value > 0
      modifies this`cache
      ensures Reconciled()
      ensures cursor <= |log| ==>
                match res
                case Slice(records, to) => ReadsTo(log, cursor, limit, records, to)
                case ReadError(g) => FailsAt(log, cursor, limit, g)
      ensures cursor > |log| ==> res == Slice([], cursor)
    {
      hide Concat, Recs;
      var out: seq<Record>, gidx := [], purged;
      RecsNone();
      assert segs[..0] == [];
      for i := 0 to |segs|
        invariant Reconciled() && purged <= cursor
        invariant gidx == purged + |Concat(segs[..i])| <= |log|
        invariant Progress(log, cursor, limit, out, gidx)
      {
        ConcatUpTo(segs, i);
        var skip := false;
        if i < |segs| - 1 {
          var n := ClosedSegLineCount(i);
          skip := gidx + n <= cursor;
        }
        if skip {
          gidx := gidx + |segs[i].lines|;
          SkipBelow(log, cursor, limit, gidx - |segs[i].lines|, gidx);
        } else {
          var stop;
          out, gidx, stop := ReadSegment(i, gidx, cursor, limit, out);
          match stop
          case Bad => return ReadError(gidx);
          case Full => return Slice(out, gidx);
          case No =>
          // An in-flight tail of the active file: stop before it.
          if segs[i].torn > 0 && gidx + 1 > cursor {
            assert i == |segs| - 1 && segs[..i + 1] == segs;
            ReadAll(log, cursor, limit, out, gidx);
            return Slice(out, if cursor >= gidx then cursor else gidx);
          }
        }
      }
      assert segs[..|segs|] == segs;
      res := Slice(out, if cursor >= gidx then cursor else gidx);
      ReadAll(log, cursor, limit, out, gidx);
    }

    /** Scans the lines of segment `i`, whose first line has global index `start`. */
    method ReadSegment(i: nat, start: nat, cursor: nat, limit: Option<nat>, sofar: seq<Record>)
      returns (out: seq<Record>, gidx: nat, stop: Stop)
      requires Reconciled() && i < |segs| && (limit.Some? ==> limit.value > 0)
      requires start == purged + |Concat(segs[..i])| && start + |segs[i].lines| <= |log|
      requires Concat(segs) == Concat(segs[..i]) + segs[i].lines + Concat(segs[i + 1..])
      requires Progress(log, cursor, limit, sofar, start)
      ensures stop == No ==> gidx == start + |segs[i].lines| && Progress(log, cursor, limit, out, gidx)
      ensures stop == Full ==> cursor <= |log| && ReadsTo(log, cursor, limit, out, gidx)
      ensures stop == Bad ==> cursor <= |log| && FailsAt(log, cursor, limit, gidx)
    {
      hide Concat, Recs;
      out, gidx := sofar, start;
      for j := 0 to |segs[i].lines|
        invariant gidx == start + j
        invariant Progress(log, cursor, limit, out, gidx)
      {
        var line := segs[i].lines[j];
        assert line == log[gidx] by { LineAt(i, start, j); }
        RecsNext(log, cursor, gidx);
        gidx := gidx + 1;
        if gidx > cursor {
          if line.Corrupt? {
            return out, gidx - 1, Bad;
          }
          if line.Rec? {
            out := out + [line.r];
            if limit.Some? && |out| >= limit.value {
              return out, gidx, Full;
            }
          }
        }
      }
      stop := No;
    }

    lemma LineAt(i: nat, start: nat, j: nat)
      requires Reconciled() && i < |segs| && j < |segs[i].lines|
      requires start == purged + |Concat(segs[..i])| && start + j < |log|
      requires Concat(segs) == Concat(segs[..i]) + segs[i].lines + Concat(segs[i + 1..])
      ensures segs[i].lines[j] == log[start + j]
    {
      hide Concat;
      assert log[purged..][start - purged + j] == Concat(segs)[start - purged + j];
    }
  }

  datatype Stop = No | Full | Bad

  /** How far a scan has got: everything between the cursor and `gidx` is read, below the limit. */
  ghost predicate Progress(log: seq<Line>, cursor: nat, limit: Option<nat>, out: seq<Record>, gidx: nat) {
    && gidx <= |log|
    && (gidx <= cursor ==> out == [])
    && (cursor < gidx ==>
          && out == Recs(log[cursor..gidx])
          && (forall g :: cursor <= g < gidx ==> !log[g].Corrupt?))
    && (limit.Some? ==> |out| < limit.value)
  }

  lemma RecsNone()
    ensures Recs([]) == [] && Concat([]) == []
  {
  }

  lemma RecsNext(log: seq<Line>, cursor: nat, gidx: nat)
    requires gidx < |log|
    ensures cursor <= gidx ==>
              Recs(log[cursor..gidx + 1]) == Recs(log[cursor..gidx]) + if log[gidx].Rec? then [log[gidx].r] else []
    ensures cursor == gidx ==> Recs(log[cursor..gidx]) == []
  {
    if cursor <= gidx {
      assert log[cursor..gidx + 1][..gidx - cursor] == log[cursor..gidx];
    }
  }

  lemma SkipBelow(log: seq<Line>, cursor: nat, limit: Option<nat>, from: nat, to: nat)
    requires from <= to <= cursor && to <= |log|
    requires Progress(log, cursor, limit, [], from)
    ensures Progress(log, cursor, limit, [], to)
  {
  }

  lemma ReadAll(log: seq<Line>, cursor: nat, limit: Option<nat>, out: seq<Record>, gidx: nat)
    requires Progress(log, cursor, limit, out, gidx) && gidx == |log|
    ensures cursor <= |log| ==> ReadsTo(log, cursor, limit, out, |log|)
    ensures cursor > |log| ==> out == []
  {
    if cursor == |log| {
      assert log[cursor..] == [];
    }
  }

  // ---------------------------------------------------------------- reads compose

  /** Reading on from where a limited read stopped gives what one longer read gives. */
  lemma ReadsCompose(log: seq<Line>, cursor: nat, limit: Option<nat>, a: seq<Record>, mid: nat,
                     limit2: Option<nat>, b: seq<Record>, to: nat)
    requires ReadsTo(log, cursor, limit, a, mid) && ReadsTo(log, mid, limit2, b, to)
    ensures a + b == Recs(log[cursor..to])
    ensures to == |log| ==> ReadsTo(log, cursor, None, a + b, to)
  {
    RecsSplit(log[cursor..mid], log[mid..to]);
    assert log[cursor..to] == log[cursor..mid] + log[mid..to];
  }
}
