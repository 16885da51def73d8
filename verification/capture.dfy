/** Transaction tags as both log captures emit them: every record of a committed transaction carries
    its id, and exactly the last one carries the terminator. */
module TxnTags {
  import opened Records
  import opened RunLemmas

  function Tag(rs: seq<Record>, xid: Option<int>): (t: seq<Record>)
    ensures |t| == |rs|
    ensures forall i :: 0 <= i < |rs| ==>
              t[i] == rs[i].(txnId := xid, txnEnd := xid.Some? && i == |rs| - 1)
  {
    seq(|rs|, i requires 0 <= i < |rs| => rs[i].(txnId := xid, txnEnd := xid.Some? && i == |rs| - 1))
  }

  /** The last record, if there is one, carries the terminator. */
  ghost predicate Closed(rs: seq<Record>) {
    rs != [] ==> rs[|rs| - 1].txnEnd
  }

  ghost predicate OtherTag(rs: seq<Record>, xid: int) {
    rs != [] ==> rs[|rs| - 1].txnId != Some(xid)
  }

  /** Adding one tagged transaction keeps a stream of whole transactions exactly when its id differs
      from its predecessor's. */
  lemma AddTxn(a: seq<Record>, rs: seq<Record>, xid: int)
    requires Closed(a)
    ensures TxnStream(a + Tag(rs, Some(xid))) <==> TxnStream(a) && (rs != [] ==> OtherTag(a, xid))
    ensures Closed(a + Tag(rs, Some(xid)))
  {
    var t := Tag(rs, Some(xid));
    if rs == [] {
      assert a + t == a;
    } else {
      TxnStreamJoin(a, t);
    }
  }

  /** Streams join exactly when the tags differ at the seam. */
  lemma TxnStreamJoin(a: seq<Record>, t: seq<Record>)
    requires Closed(a) && t != []
    ensures TxnStream(a + t) <==> TxnStream(a) && TxnStream(t) && (a != [] ==> a[|a| - 1].txnId != t[0].txnId)
    ensures Closed(t) ==> Closed(a + t)
  {
    var all := a + t;
    forall i | 0 <= i < |all|
      ensures EndsRight(all, i) <==>
                if i >= |a| then EndsRight(t, i - |a|)
                else if i + 1 < |a| then EndsRight(a, i)
                else a[i].txnId.Some? && a[i].txnId != t[0].txnId
    {
      EndsJoined(a, t, i);
    }
    StreamByRecord(a);
    StreamByRecord(t);
    StreamByRecord(all);
    hide TxnStream;
    if TxnStream(all) {
      forall i | 0 <= i < |a| ensures EndsRight(a, i) { assert EndsRight(all, i); }
      forall i | 0 <= i < |t| ensures EndsRight(t, i) { assert EndsRight(all, |a| + i); }
      if a != [] { assert EndsRight(all, |a| - 1); }
    } else {
      var i: nat :| i < |all| && !EndsRight(all, i);
    }
  }

  lemma EndsJoined(a: seq<Record>, t: seq<Record>, i: nat)
    requires Closed(a) && t != [] && i < |a + t|
    ensures EndsRight(a + t, i) <==>
              if i >= |a| then EndsRight(t, i - |a|)
              else if i + 1 < |a| then EndsRight(a, i)
              else a[i].txnId.Some? && a[i].txnId != t[0].txnId
  {
    var all := a + t;
    if i + 1 < |all| {
      assert all[i + 1] == if i + 1 < |a| then a[i + 1] else t[i + 1 - |a|];
    }
  }

  ghost predicate EndsRight(rs: seq<Record>, i: nat)
    requires i < |rs|
  {
    rs[i].txnId.Some? && (rs[i].txnEnd <==> (i + 1 == |rs| || rs[i + 1].txnId != rs[i].txnId))
  }

  lemma StreamByRecord(rs: seq<Record>)
    ensures TxnStream(rs) <==> forall i :: 0 <= i < |rs| ==> EndsRight(rs, i)
  {
    if TxnStream(rs) {
      forall i | 0 <= i < |rs| ensures EndsRight(rs, i) { var r := rs[i]; }
    }
    if forall i :: 0 <= i < |rs| ==> EndsRight(rs, i) {
      forall i | 0 <= i < |rs|
        ensures rs[i].txnId.Some? && (rs[i].txnEnd <==> (i + 1 == |rs| || rs[i + 1].txnId != rs[i].txnId))
      {
        assert EndsRight(rs, i);
      }
    }
  }
}

/** MySQL binlog capture: rows buffered until their transaction's commit event. */
module MySqlCapture {
  import opened Records
  import opened Store
  import opened ApplyLemmas
  import opened Dedup
  import opened RunLemmas
  import opened TxnTags

  /** A row of a row event; an UPDATE without a before-image has an empty one. */
  datatype RowImage = Written(values: Image) | Updated(before: Image, values: Image) | Deleted(values: Image)

  /** A binlog event with the encoded coordinate of its end. */
  datatype Event = Rows(at: int, table: string, rows: seq<RowImage>) | Commit(at: int, xid: Option<int>)

  type Tables = map<string, Meta>

  datatype Outcome = Done(records: seq<Record>, newPos: int, consumed: nat) | BadImage(event: nat)

  const FILE_SPAN := 0x1_0000_0000_0000

  /** A binlog coordinate as one integer. */
  function PosInt(file: nat, pos: nat): int {
    file * FILE_SPAN + pos
  }

  /** The encoding preserves the order of files and offsets while offsets stay below 2^48. */
  lemma PosIntOrder(f: nat, p: nat, g: nat, q: nat)
    requires p < FILE_SPAN && q < FILE_SPAN
    ensures PosInt(f, p) < PosInt(g, q) <==> f < g || (f == g && p < q)
  {
    if f < g {
      assert (f + 1) * FILE_SPAN <= g * FILE_SPAN;
    } else if g < f {
      assert (g + 1) * FILE_SPAN <= f * FILE_SPAN;
    }
  }

  // ---------------------------------------------------------------- rows

  function MetaFor(tables: Tables, t: string): Meta {
    if t in tables then tables[t] else Meta([], [])
  }

  predicate Unnamed(c: string) {
    "UNKNOWN_COL" <= Upper(c)
  }

  predicate FullImage(image: Image, expected: seq<string>) {
    (forall c :: c in image ==> !Unnamed(c)) && (forall c :: c in expected ==> c in image)
  }

  /** Anything but a full image is rejected loudly. */
  predicate RowOk(m: Meta, row: RowImage) {
    match row
    case Written(v) => FullImage(v, m.cols)
    case Updated(b, v) => FullImage(v, m.cols) && (m.pk != [] ==> b != map[])
    case Deleted(v) => FullImage(v, m.pk)
  }

  /** A column the server did not name. */
  ghost predicate Placeholder(c: string) {
    exists rest: string :: Upper(c) == "UNKNOWN_COL" + rest
  }

  /** The image names its columns and has a value, maybe NULL, for each of these. */
  ghost predicate Carries(image: Image, cols: seq<string>) {
    (forall i :: 0 <= i < |cols| ==> cols[i] in image.Keys) && !exists c :: c in image.Keys && Placeholder(c)
  }

  /** What `binlog_row_image=FULL` and `binlog_row_metadata=FULL` promise of a row. */
  ghost predicate FullRow(m: Meta, row: RowImage) {
    match row
    case Written(v) => Carries(v, m.cols)
    case Updated(before, v) => Carries(v, m.cols) && (m.pk == [] || exists c :: c in before)
    case Deleted(v) => Carries(v, m.pk)
  }

  ghost predicate FullEvent(tables: Tables, e: Event) {
    e.Rows? ==> forall row :: row in e.rows ==> FullRow(MetaFor(tables, e.table), row)
  }

  lemma UnnamedExactly(c: string)
    ensures Unnamed(c) <==> Placeholder(c)
  {
    if Unnamed(c) {
      assert Upper(c) == "UNKNOWN_COL" + Upper(c)[11..];
    }
  }

  lemma CarriesExactly(image: Image, cols: seq<string>)
    ensures FullImage(image, cols) <==> Carries(image, cols)
  {
    hide Unnamed, Placeholder;
    forall c ensures Unnamed(c) <==> Placeholder(c) { UnnamedExactly(c); }
    if Carries(image, cols) {
      forall c | c in cols ensures c in image {
        var i :| 0 <= i < |cols| && cols[i] == c;
      }
    }
    if FullImage(image, cols) {
      forall i | 0 <= i < |cols| ensures cols[i] in image.Keys { assert cols[i] in cols; }
    }
  }

  /** A row is accepted exactly when it is a full one. */
  lemma AcceptsFull(m: Meta, row: RowImage)
    ensures RowOk(m, row) <==> FullRow(m, row)
  {
    hide FullImage, Carries;
    match row
    case Written(v) => CarriesExactly(v, m.cols);
    case Updated(before, v) =>
      CarriesExactly(v, m.cols);
      assert before != map[] <==> exists c :: c in before by {
        if before != map[] { assert before.Keys != {}; }
      }
    case Deleted(v) => CarriesExactly(v, m.pk);
  }

  lemma AcceptsEvent(tables: Tables, e: Event)
    ensures EventOk(tables, e) <==> FullEvent(tables, e)
  {
    hide RowOk, FullRow;
    if e.Rows? {
      forall row ensures RowOk(MetaFor(tables, e.table), row) <==> FullRow(MetaFor(tables, e.table), row) {
        AcceptsFull(MetaFor(tables, e.table), row);
      }
    }
  }

  function RowRecord(m: Meta, table: string, row: RowImage, pos: SourcePos): Record {
    match row
    case Written(v) => Record(Insert, table, KeyImage(m, v), v, map[], pos, None, false)
    case Updated(b, v) =>
      Record(Update, table, KeyImage(m, v), v,
             if m.pk != [] && KeyImage(m, b) != KeyImage(m, v) then KeyImage(m, b) else map[],
             pos, None, false)
    case Deleted(v) => Record(Delete, table, KeyImage(m, v), map[], map[], pos, None, false)
  }

  /** An accepted row yields a record the apply side can rely on: its after-image carries the key, it
      never is a partial update, and it is a move exactly when the key changed. */
  lemma AcceptedRow(env: Env, m: Meta, table: string, row: RowImage, pos: SourcePos)
    requires RowOk(m, row) && ValidMeta(m)
    requires Upper(table) in env.schema && env.schema[Upper(table)] == m && m.pk != []
    ensures var r := RowRecord(m, table, row, pos);
            && WellFormed(env, r)
            && Classify(r, m) != KindPartial
            && (IsKeymove(env, r) <==> row.Updated? && KeyOf(row.before, m.pk) != KeyOf(row.values, m.pk))
  {
    var r := RowRecord(m, table, row, pos);
    KeyOfImage(m, row.values);
    if row.Updated? {
      KeyOfImage(m, row.before);
      if KeyImage(m, row.before) == KeyImage(m, row.values) {
        assert KeyOf(row.before, m.pk) == KeyOf(KeyImage(m, row.before), m.pk);
      } else {
        KeyImagesDiffer(m, row.before, row.values);
        assert m.pk[0] in KeyImage(m, row.before);
      }
    }
  }

  lemma KeyImagesDiffer(m: Meta, a: Image, b: Image)
    requires KeyImage(m, a) != KeyImage(m, b)
    ensures KeyOf(a, m.pk) != KeyOf(b, m.pk)
  {
    assert KeyImage(m, a).Keys == KeyImage(m, b).Keys;
    var c :| c in KeyImage(m, a) && KeyImage(m, a)[c] != KeyImage(m, b)[c];
    var i :| 0 <= i < |m.pk| && m.pk[i] == c;
    assert KeyOf(a, m.pk)[i] == Get(a, c) && KeyOf(b, m.pk)[i] == Get(b, c);
  }

  // ---------------------------------------------------------------- events

  predicate EventOk(tables: Tables, e: Event) {
    e.Rows? ==> forall i :: 0 <= i < |e.rows| ==> RowOk(MetaFor(tables, e.table), e.rows[i])
  }

  function RowPos(e: Event, i: nat): SourcePos
    requires e.Rows?
  {
    if |e.rows| > 1 then Compound(e.at, i) else Plain(e.at)
  }

  /** The untagged records of a row event. */
  function Raw(tables: Tables, e: Event): (rs: seq<Record>)
    ensures |rs| == if e.Rows? then |e.rows| else 0
    ensures forall i :: 0 <= i < |rs| ==> rs[i].pos == RowPos(e, i) && PosKey(rs[i].pos) == Some((e.at, i))
  {
    if e.Commit? then []
    else seq(|e.rows|, i requires 0 <= i < |e.rows| =>
               RowRecord(MetaFor(tables, e.table), e.table, e.rows[i], RowPos(e, i)))
  }

  /** The rows that wait for their commit event. */
  function Buffer(tables: Tables, es: seq<Event>): seq<Record> {
    if es == [] || es[|es| - 1].Commit? then []
    else Buffer(tables, es[..|es| - 1]) + Raw(tables, es[|es| - 1])
  }

  /** The records released at commit events. */
  function Flushed(tables: Tables, es: seq<Event>): seq<Record> {
    if es == [] then []
    else
      var before := es[..|es| - 1];
      Flushed(tables, before) +
      if es[|es| - 1].Commit? then Tag(Buffer(tables, before), es[|es| - 1].xid) else []
  }

  /** What a capture of these events returns: the tail without a commit event stays untagged. */
  function Emit(tables: Tables, es: seq<Event>): seq<Record> {
    Flushed(tables, es) + Tag(Buffer(tables, es), None)
  }

  /** A capture limit stops at a commit event, once enough records are released. */
  predicate Capped(tables: Tables, es: seq<Event>, cap: nat) {
    cap > 0 && es != [] && es[|es| - 1].Commit? && |Flushed(tables, es)| >= cap
  }

  lemma Next(tables: Tables, es: seq<Event>, e: Event)
    ensures Flushed(tables, es + [e]) ==
            Flushed(tables, es) + if e.Commit? then Tag(Buffer(tables, es), e.xid) else []
    ensures Buffer(tables, es + [e]) == if e.Commit? then [] else Buffer(tables, es) + Raw(tables, e)
  {
    assert (es + [e])[..|es|] == es;
  }

  lemma LastEvent(es: seq<Event>)
    requires es != []
    ensures es == es[..|es| - 1] + [es[|es| - 1]]
  {
  }

  ghost predicate Unmarked(rs: seq<Record>) {
    forall i :: 0 <= i < |rs| ==> !rs[i].txnEnd && rs[i].txnId.None?
  }

  lemma RawUnmarked(tables: Tables, e: Event)
    ensures Unmarked(Raw(tables, e))
  {
  }

  lemma {:induction false} BufferUnmarked(tables: Tables, es: seq<Event>)
    ensures Unmarked(Buffer(tables, es))
  {
    if es != [] && es[|es| - 1].Rows? {
      BufferUnmarked(tables, es[..|es| - 1]);
      RawUnmarked(tables, es[|es| - 1]);
      hide Raw;
    }
  }

  // ---------------------------------------------------------------- the capture loop

  /** Releases the buffered rows of a transaction: a commit marks the last row and tags them all. */
  method Flush(records: seq<Record>, buf: seq<Record>, xid: Option<int>) returns (out: seq<Record>)
    requires Unmarked(buf)
    ensures out == records + Tag(buf, xid)
  {
    var marked := buf;
    if buf != [] && xid.Some? {
      marked := buf[|buf| - 1 := buf[|buf| - 1].(txnEnd := true)];
    }
    out := records;
    for i := 0 to |marked|
      invariant out == records + Tag(buf, xid)[..i]
    {
      assert marked[i].(txnId := xid) == Tag(buf, xid)[i];
      out := out + [marked[i].(txnId := xid)];
    }
    assert Tag(buf, xid)[..|buf|] == Tag(buf, xid);
  }

  /** Buffers the rows of one event, unless one of them is no full image. */
  method BufferRows(tables: Tables, e: Event, buf: seq<Record>) returns (ok: bool, out: seq<Record>)
    requires e.Rows?
    ensures ok <==> EventOk(tables, e)
    ensures ok ==> out == buf + Raw(tables, e)
  {
    var m := MetaFor(tables, e.table);
    out := buf;
    for i := 0 to |e.rows|
      invariant out == buf + Raw(tables, e)[..i]
      invariant forall k :: 0 <= k < i ==> RowOk(m, e.rows[k])
    {
      if !RowOk(m, e.rows[i]) {
        return false, out;
      }
      out := out + [RowRecord(m, e.table, e.rows[i], RowPos(e, i))];
    }
    ok := true;
    assert Raw(tables, e)[..|e.rows|] == Raw(tables, e);
  }

  /** The events up to `n` are accepted, and none before reached the limit. */
  ghost predicate Through(tables: Tables, events: seq<Event>, n: nat, cap: nat) {
    && n <= |events|
    && (forall k :: 0 <= k < n ==> EventOk(tables, events[k]))
    && (forall k :: 0 <= k < n ==> !Capped(tables, events[..k], cap))
  }

  /** Reads binlog events until the stream drains or a commit reaches the limit.  The returned
      coordinate is that commit's, or the end of the stream. */
  method Capture(tables: Tables, events: seq<Event>, endAt: int, cap: nat) returns (res: Outcome)
    ensures match res
            case Done(records, newPos, n) =>
              && Through(tables, events, n, cap) && records == Emit(tables, events[..n])
              && (if Capped(tables, events[..n], cap) then n > 0 && newPos == events[n - 1].at
                  else n == |events| && newPos == endAt)
            case BadImage(k) => Through(tables, events, k, cap) && k < |events| && !EventOk(tables, events[k])
    ensures match res
            case Done(_, _, n) => n <= |events| && forall k :: 0 <= k < n ==> FullEvent(tables, events[k])
            case BadImage(k) => k < |events| && !FullEvent(tables, events[k])
    ensures (forall e :: e in events ==> FullEvent(tables, e)) ==> res.Done?
  {
    hide Tag, Raw, EventOk, FullEvent, Through, Flushed, Buffer;
    NothingRead(tables, events, cap);
    var records, buf, newPos := [], [], endAt;
    var n := 0;
    while n < |events|
      invariant n <= |events| && Through(tables, events, n, cap) && !Capped(tables, events[..n], cap)
      invariant records == Flushed(tables, events[..n]) && buf == Buffer(tables, events[..n])
    {
      var e := events[n];
      ThroughFull(tables, events, n, cap);
      NextEvent(tables, events, n, cap);
      Next(tables, events[..n], e);
      n := n + 1;
      if e.Commit? {
        BufferUnmarked(tables, events[..n - 1]);
        records := Flush(records, buf, e.xid);
        buf := [];
        if cap > 0 && |records| >= cap {
          newPos := e.at;
          break;
        }
      } else {
        var ok;
        ok, buf := BufferRows(tables, e, buf);
        if !ok {
          AcceptsEvent(tables, e);
          return BadImage(n - 1);
        }
      }
    }
    BufferUnmarked(tables, events[..n]);
    ThroughFull(tables, events, n, cap);
    records := Flush(records, buf, None);
    res := Done(records, newPos, n);
  }

  lemma NothingRead(tables: Tables, events: seq<Event>, cap: nat)
    ensures Through(tables, events, 0, cap) && !Capped(tables, events[..0], cap)
    ensures Flushed(tables, events[..0]) == [] && Buffer(tables, events[..0]) == []
  {
  }

  lemma ThroughFull(tables: Tables, events: seq<Event>, n: nat, cap: nat)
    requires Through(tables, events, n, cap)
    ensures n <= |events| && forall k :: 0 <= k < n ==> FullEvent(tables, events[k])
  {
    hide EventOk, FullEvent, Capped;
    forall k | 0 <= k < n ensures FullEvent(tables, events[k]) { AcceptsEvent(tables, events[k]); }
  }

  lemma NextEvent(tables: Tables, events: seq<Event>, n: nat, cap: nat)
    requires n < |events| && Through(tables, events, n, cap) && !Capped(tables, events[..n], cap)
    ensures events[..n + 1][..n] == events[..n] && events[..n + 1][n] == events[n]
    ensures events[..n + 1] == events[..n] + [events[n]]
    ensures EventOk(tables, events[n]) ==> Through(tables, events, n + 1, cap)
    ensures events[n].Commit? ==> EventOk(tables, events[n])
  {
  }

  // ---------------------------------------------------------------- whole transactions

  /** Every commit has an id, and no two neighbouring transactions with rows share one. */
  ghost predicate IdsAlternate(tables: Tables, es: seq<Event>) {
    es == [] ||
    (var before := es[..|es| - 1];
     && IdsAlternate(tables, before)
     && (es[|es| - 1].Commit? ==>
           es[|es| - 1].xid.Some? &&
           (Buffer(tables, before) != [] ==> OtherTag(Flushed(tables, before), es[|es| - 1].xid.value))))
  }

  ghost predicate AllIds(es: seq<Event>) {
    forall i :: 0 <= i < |es| && es[i].Commit? ==> es[i].xid.Some?
  }

  /** The released records form a stream of whole transactions exactly when ids alternate. */
  lemma {:induction false} WholeTransactions(tables: Tables, es: seq<Event>)
    requires AllIds(es)
    ensures Closed(Flushed(tables, es))
    ensures TxnStream(Flushed(tables, es)) <==> IdsAlternate(tables, es)
  {
    if es != [] {
      var before, e := es[..|es| - 1], es[|es| - 1];
      WholeTransactions(tables, before);
      if e.Commit? {
        AddTxn(Flushed(tables, before), Buffer(tables, before), e.xid.value);
      } else {
        assert Flushed(tables, es) == Flushed(tables, before);
      }
    }
  }

  /** The id under which rows still buffered will be released. */
  function FirstId(es: seq<Event>): Option<int> {
    if es == [] then None
    else if es[0].Commit? then es[0].xid
    else FirstId(es[1..])
  }

  lemma {:induction false} FlushedConcat(tables: Tables, a: seq<Event>, b: seq<Event>)
    requires Buffer(tables, a) == []
    ensures Flushed(tables, a + b) == Flushed(tables, a) + Flushed(tables, b)
    ensures Buffer(tables, a + b) == Buffer(tables, b)
  {
    hide Flushed, Buffer, Tag, Raw;
    if b == [] {
      NoEvents(tables);
      assert a + b == a;
    } else {
      var b', e := b[..|b| - 1], b[|b| - 1];
      LastEvent(b);
      FlushedConcat(tables, a, b');
      Next(tables, b', e);
      Next(tables, a + b', e);
      assert a + b == (a + b') + [e];
      var more := if e.Commit? then Tag(Buffer(tables, b'), e.xid) else [];
      assert Flushed(tables, a + b) == (Flushed(tables, a) + Flushed(tables, b')) + more;
    }
  }

  lemma NoEvents(tables: Tables)
    ensures Flushed(tables, []) == [] && Buffer(tables, []) == []
  {
  }

  /** Capturing in two cycles that meet at a commit gives what one capture gives. */
  lemma CaptureSplits(tables: Tables, a: seq<Event>, b: seq<Event>)
    requires Buffer(tables, a) == []
    ensures Emit(tables, a) + Emit(tables, b) == Emit(tables, a + b)
  {
    hide Flushed, Buffer;
    FlushedConcat(tables, a, b);
    assert Tag([], None) == [];
  }

  /** The rows that `a` leaves buffered are released by the first commit in `b`, under its id. */
  lemma {:induction false} LeftoverTag(tables: Tables, a: seq<Event>, b: seq<Event>)
    requires Buffer(tables, a) != []
    ensures if HasCommit(b) then
              |Flushed(tables, a + b)| > |Flushed(tables, a)| &&
              Flushed(tables, a + b)[|Flushed(tables, a)|].txnId == FirstId(b)
            else
              Flushed(tables, a + b) == Flushed(tables, a) && Buffer(tables, a + b) != []
  {
    hide Flushed, Buffer, Raw;
    if b == [] {
      assert a + b == a;
    } else {
      var b', e := b[..|b| - 1], b[|b| - 1];
      LastEvent(b);
      assert a + b == (a + b') + [e];
      LeftoverTag(tables, a, b');
      FirstIdGrows(b', e);
      Next(tables, a + b', e);
    }
  }

  predicate HasCommit(es: seq<Event>) {
    exists i :: 0 <= i < |es| && es[i].Commit?
  }

  lemma {:induction false} FirstIdGrows(es: seq<Event>, e: Event)
    ensures FirstId(es + [e]) == if HasCommit(es) then FirstId(es) else if e.Commit? then e.xid else None
    ensures HasCommit(es + [e]) <==> HasCommit(es) || e.Commit?
  {
    var all := es + [e];
    if HasCommit(es) {
      var i :| 0 <= i < |es| && es[i].Commit?;
      assert all[i].Commit?;
    } else if e.Commit? {
      assert all[|es|].Commit?;
    }
    if es == [] {
      assert all[1..] == [];
    } else {
      assert all[1..] == es[1..] + [e];
      FirstIdGrows(es[1..], e);
      if HasCommit(es) && es[0].Rows? {
        var i :| 0 <= i < |es| && es[i].Commit?;
        assert es[1..][i - 1].Commit?;
      }
      if HasCommit(es[1..]) {
        var i :| 0 <= i < |es[1..]| && es[1..][i].Commit?;
        assert es[i + 1].Commit?;
      }
    }
  }

  /** Two captures that meet inside a run of rows give what one capture gives exactly when nothing was
      buffered there or the next commit event has no id: otherwise the stream that drained in the middle
      split a transaction, whose first rows stay untagged. */
  lemma SplitTransaction(tables: Tables, a: seq<Event>, b: seq<Event>)
    ensures Emit(tables, a) + Emit(tables, b) == Emit(tables, a + b) <==>
            Buffer(tables, a) == [] || FirstId(b).None?
  {
    if Buffer(tables, a) == [] {
      CaptureSplits(tables, a, b);
    } else if FirstId(b).None? {
      hide Emit, Flushed, Buffer;
      SplitUntagged(tables, a, b);
      JoinedEmission(tables, a, b);
    } else {
      FirstIdCommits(b);
      LeftoverTag(tables, a, b);
      var k := |Flushed(tables, a)|;
      assert (Emit(tables, a) + Emit(tables, b))[k].txnId == None;
      assert Emit(tables, a + b)[k].txnId == FirstId(b);
    }
  }

  /** Behind rows still buffered, with no commit event that has an id. */
  ghost predicate JoinsUntagged(tables: Tables, a: seq<Event>, b: seq<Event>) {
    if HasCommit(b) then
      Flushed(tables, a + b) == (Flushed(tables, a) + Tag(Buffer(tables, a), None)) + Flushed(tables, b) &&
      Buffer(tables, a + b) == Buffer(tables, b)
    else
      Flushed(tables, a + b) == Flushed(tables, a) && Flushed(tables, b) == [] &&
      Buffer(tables, a + b) == Buffer(tables, a) + Buffer(tables, b)
  }

  lemma TagBoth(a: seq<Record>, b: seq<Record>)
    ensures Tag(a + b, None) == Tag(a, None) + Tag(b, None)
  {
  }

  lemma {:induction false} SplitUntagged(tables: Tables, a: seq<Event>, b: seq<Event>)
    requires FirstId(b).None?
    ensures JoinsUntagged(tables, a, b)
  {
    if b == [] {
      NoEvents(tables);
      assert a + b == a && Buffer(tables, a) + [] == Buffer(tables, a);
    } else {
      var b', e := b[..|b| - 1], b[|b| - 1];
      LastEvent(b);
      hide *;
      FirstIdGrows(b', e);
      NoCommitNoId(b');
      SplitUntagged(tables, a, b');
      SplitNext(tables, a, b', e);
    }
  }

  lemma SplitNext(tables: Tables, a: seq<Event>, b: seq<Event>, e: Event)
    requires JoinsUntagged(tables, a, b) && (!HasCommit(b) && e.Commit? ==> e.xid.None?)
    ensures JoinsUntagged(tables, a, b + [e])
  {
    hide Flushed, Buffer, Tag, Raw, HasCommit, FirstId;
    FirstIdGrows(b, e);
    Regroup(a, b, [e]);
    Next(tables, b, e);
    Next(tables, a + b, e);
    TagBoth(Buffer(tables, a), Buffer(tables, b));
    var f, t, g := Flushed(tables, a), Tag(Buffer(tables, a), None), Flushed(tables, b);
    if e.Commit? {
      var more := Tag(Buffer(tables, b), e.xid);
      if HasCommit(b) {
        Regroup(f + t, g, more);
      } else {
        Regroup(f, t, more);
        assert [] + more == more;
      }
    } else {
      Regroup(Buffer(tables, a), Buffer(tables, b), Raw(tables, e));
      assert f + [] == f && g + [] == g && ((f + t) + g) + [] == (f + t) + g;
    }
  }

  lemma Regroup<T>(a: seq<T>, b: seq<T>, c: seq<T>)
    ensures (a + b) + c == a + (b + c)
  {
  }

  lemma {:induction false} NoCommitNoId(es: seq<Event>)
    ensures !HasCommit(es) ==> FirstId(es).None?
  {
    if es != [] && !HasCommit(es) {
      forall i | 0 <= i < |es[1..]| ensures !es[1..][i].Commit? { assert es[1..][i] == es[i + 1]; }
      NoCommitNoId(es[1..]);
    }
  }

  lemma JoinedEmission(tables: Tables, a: seq<Event>, b: seq<Event>)
    requires JoinsUntagged(tables, a, b)
    ensures Emit(tables, a) + Emit(tables, b) == Emit(tables, a + b)
  {
    hide Flushed, Buffer, Tag;
    TagBoth(Buffer(tables, a), Buffer(tables, b));
    var f, t, g := Flushed(tables, a), Tag(Buffer(tables, a), None), Flushed(tables, b);
    var u := Tag(Buffer(tables, b), None);
    assert (f + t) + (g + u) == ((f + t) + g) + u;
    if !HasCommit(b) {
      assert (f + t) + ([] + u) == f + (t + u);
    }
  }

  lemma {:induction false} FirstIdCommits(es: seq<Event>)
    requires FirstId(es).Some?
    ensures HasCommit(es)
  {
    if es[0].Rows? {
      FirstIdCommits(es[1..]);
      var i :| 0 <= i < |es[1..]| && es[1..][i].Commit?;
      assert es[i + 1].Commit?;
    }
  }

  // ---------------------------------------------------------------- the transactions behind the events

  /** A transaction at the source: its row events, and its commit event unless its engine writes none. */
  datatype SourceTxn = SourceTxn(rows: seq<Event>, commit: Option<Event>)

  ghost predicate ProperTxn(t: SourceTxn) {
    && (forall e :: e in t.rows ==> e.Rows?)
    && (t.commit.Some? ==> t.commit.value.Commit?)
  }

  ghost predicate ProperTxns(ts: seq<SourceTxn>) {
    forall t :: t in ts ==> ProperTxn(t)
  }

  function Id(t: SourceTxn): Option<int>
    requires ProperTxn(t)
  {
    if t.commit.Some? then t.commit.value.xid else None
  }

  function Events(t: SourceTxn): seq<Event> {
    t.rows + if t.commit.Some? then [t.commit.value] else []
  }

  /** The events of transactions one after the other. */
  function Binlog(ts: seq<SourceTxn>): seq<Event> {
    if ts == [] then [] else Binlog(ts[..|ts| - 1]) + Events(ts[|ts| - 1])
  }

  function RawAll(tables: Tables, es: seq<Event>): seq<Record> {
    if es == [] then [] else RawAll(tables, es[..|es| - 1]) + Raw(tables, es[|es| - 1])
  }

  /** Every row under the id of its own transaction, and none without one. */
  ghost function OwnTags(tables: Tables, ts: seq<SourceTxn>): seq<Record>
    requires ProperTxns(ts)
  {
    if ts == [] then []
    else
      var t := ts[|ts| - 1];
      assert t in ts;
      OwnTags(tables, ts[..|ts| - 1]) + Tag(RawAll(tables, t.rows), Id(t))
  }

  /** The last transactions, since the last commit event, have rows. */
  ghost predicate OpenRows(tables: Tables, ts: seq<SourceTxn>) {
    exists i: nat :: i < |ts| && RawAll(tables, ts[i].rows) != [] && forall k :: i <= k < |ts| ==> ts[k].commit.None?
  }

  /** A transaction without a commit event is followed by a commit event with an id. */
  ghost predicate Leaks(tables: Tables, ts: seq<SourceTxn>) {
    exists j: nat :: LeaksAt(tables, ts, j)
  }

  ghost predicate LeaksAt(tables: Tables, ts: seq<SourceTxn>, j: nat) {
    j < |ts| && ProperTxn(ts[j]) && Id(ts[j]).Some? && OpenRows(tables, ts[..j])
  }

  lemma {:induction false} RowEvents(tables: Tables, es: seq<Event>, rows: seq<Event>)
    requires forall e :: e in rows ==> e.Rows?
    ensures Flushed(tables, es + rows) == Flushed(tables, es)
    ensures Buffer(tables, es + rows) == Buffer(tables, es) + RawAll(tables, rows)
  {
    if rows == [] {
      assert es + rows == es;
      assert Buffer(tables, es) + [] == Buffer(tables, es);
    } else {
      var before, e := rows[..|rows| - 1], rows[|rows| - 1];
      LastEvent(rows);
      assert e in rows && forall x :: x in before ==> x in rows;
      assert RawAll(tables, rows) == RawAll(tables, before) + Raw(tables, e);
      hide *;
      RowEvents(tables, es, before);
      Regroup(es, before, [e]);
      Next(tables, es + before, e);
      Regroup(Buffer(tables, es), RawAll(tables, before), Raw(tables, e));
      assert Flushed(tables, es) + [] == Flushed(tables, es);
    }
  }

  /** What one more transaction adds. */
  lemma NextTxn(tables: Tables, es: seq<Event>, t: SourceTxn)
    requires ProperTxn(t)
    ensures var all, rows := es + Events(t), RawAll(tables, t.rows);
            if t.commit.Some? then
              Flushed(tables, all) == Flushed(tables, es) + Tag(Buffer(tables, es) + rows, Id(t)) &&
              Buffer(tables, all) == []
            else
              Flushed(tables, all) == Flushed(tables, es) && Buffer(tables, all) == Buffer(tables, es) + rows
  {
    hide Flushed, Buffer, Raw, RawAll, Tag;
    RowEvents(tables, es, t.rows);
    if t.commit.Some? {
      assert es + Events(t) == (es + t.rows) + [t.commit.value];
      Next(tables, es + t.rows, t.commit.value);
    } else {
      assert es + Events(t) == es + t.rows;
    }
  }

  /** The rows still buffered are those of the last transactions, all of them without a commit event. */
  ghost predicate Pending(tables: Tables, ts: seq<SourceTxn>)
    requires ProperTxns(ts)
  {
    var es := Binlog(ts);
    && |OwnTags(tables, ts)| == |Flushed(tables, es)| + |Buffer(tables, es)|
    && OwnTags(tables, ts)[|Flushed(tables, es)|..] == Tag(Buffer(tables, es), None)
    && (Buffer(tables, es) != [] <==> OpenRows(tables, ts))
  }

  lemma TxnsPrefix(ts: seq<SourceTxn>)
    requires ProperTxns(ts) && ts != []
    ensures ProperTxns(ts[..|ts| - 1]) && ProperTxn(ts[|ts| - 1])
    ensures ts == ts[..|ts| - 1] + [ts[|ts| - 1]]
  {
    assert ts[|ts| - 1] in ts;
  }

  lemma OpenRowsNext(tables: Tables, ts: seq<SourceTxn>, t: SourceTxn)
    ensures OpenRows(tables, ts + [t]) <==>
            t.commit.None? && (OpenRows(tables, ts) || RawAll(tables, t.rows) != [])
  {
    hide RawAll;
    var all := ts + [t];
    assert all[|ts|] == t;
    if OpenRows(tables, all) {
      var i: nat :| i < |all| && RawAll(tables, all[i].rows) != [] &&
                    forall k :: i <= k < |all| ==> all[k].commit.None?;
      if i < |ts| {
        assert all[i] == ts[i];
        assert forall k :: i <= k < |ts| ==> ts[k] == all[k];
      }
    }
    if t.commit.None? && OpenRows(tables, ts) {
      var i: nat :| i < |ts| && RawAll(tables, ts[i].rows) != [] && forall k :: i <= k < |ts| ==> ts[k].commit.None?;
      assert all[i] == ts[i];
      assert forall k :: i <= k < |all| ==> all[k] == if k < |ts| then ts[k] else t;
    }
  }

  lemma {:induction false} PendingRows(tables: Tables, ts: seq<SourceTxn>)
    requires ProperTxns(ts)
    ensures Pending(tables, ts)
  {
    if ts == [] {
      NoEvents(tables);
    } else {
      TxnsPrefix(ts);
      var before, t := ts[..|ts| - 1], ts[|ts| - 1];
      PendingRows(tables, before);
      NextTxn(tables, Binlog(before), t);
      OpenRowsNext(tables, before, t);
      BinlogNext(ts);
      OwnTagsNext(tables, before, t);
      hide Flushed, Buffer, RawAll, OpenRows, Tag, Events, Binlog, OwnTags, Id;
      PendingNext(Flushed(tables, Binlog(before)), Buffer(tables, Binlog(before)), OwnTags(tables, before),
                  RawAll(tables, t.rows), Id(t));
      EmptyJoin(Buffer(tables, Binlog(before)), RawAll(tables, t.rows));
    }
  }

  lemma EmptyJoin<T>(a: seq<T>, b: seq<T>)
    ensures a + b != [] <==> a != [] || b != []
  {
  }

  lemma OwnTagsNext(tables: Tables, ts: seq<SourceTxn>, t: SourceTxn)
    requires ProperTxns(ts) && ProperTxn(t) && ProperTxns(ts + [t])
    ensures OwnTags(tables, ts + [t]) == OwnTags(tables, ts) + Tag(RawAll(tables, t.rows), Id(t))
  {
    assert (ts + [t])[..|ts|] == ts;
  }

  /** Either the buffer grows, or everything is released. */
  lemma PendingNext(f: seq<Record>, b: seq<Record>, own: seq<Record>, rows: seq<Record>, id: Option<int>)
    requires |own| == |f| + |b| && own[|f|..] == Tag(b, None)
    ensures var all := own + Tag(rows, None);
            |all| == |f| + |b + rows| && all[|f|..] == Tag(b + rows, None)
    ensures var all := own + Tag(rows, id);
            |all| == |f + Tag(b + rows, id)| && all[|all|..] == Tag([], None)
  {
    TagBoth(b, rows);
    StillPending(own, Tag(rows, None), |f|);
  }

  lemma StillPending<T>(own: seq<T>, more: seq<T>, k: nat)
    requires k <= |own|
    ensures (own + more)[k..] == own[k..] + more
  {
  }

  lemma LeaksNext(tables: Tables, ts: seq<SourceTxn>, t: SourceTxn)
    requires ProperTxn(t)
    ensures Leaks(tables, ts + [t]) <==> Leaks(tables, ts) || (Id(t).Some? && OpenRows(tables, ts))
  {
    hide OpenRows;
    var all := ts + [t];
    assert all[..|ts|] == ts && all[|ts|] == t;
    if Leaks(tables, all) {
      var j: nat :| LeaksAt(tables, all, j);
      if j < |ts| {
        assert all[..j] == ts[..j] && all[j] == ts[j];
        assert LeaksAt(tables, ts, j);
      }
    }
    if Leaks(tables, ts) {
      var j: nat :| LeaksAt(tables, ts, j);
      assert all[..j] == ts[..j] && all[j] == ts[j];
      assert LeaksAt(tables, all, j);
    }
    if Id(t).Some? && OpenRows(tables, ts) {
      assert LeaksAt(tables, all, |ts|);
    }
  }

  /** A capture gives every row the id of its own transaction, and none to rows without a commit event,
      exactly when no transaction without a commit event is followed by a commit event with an id. */
  lemma {:induction false} OwnTagsExactly(tables: Tables, ts: seq<SourceTxn>)
    requires ProperTxns(ts)
    ensures Emit(tables, Binlog(ts)) == OwnTags(tables, ts) <==> !Leaks(tables, ts)
  {
    if ts == [] {
      NoEvents(tables);
    } else {
      TxnsPrefix(ts);
      var before, t := ts[..|ts| - 1], ts[|ts| - 1];
      OwnTagsExactly(tables, before);
      PendingRows(tables, before);
      NextTxn(tables, Binlog(before), t);
      LeaksNext(tables, before, t);
      hide Leaks, OpenRows, RawAll, Events, Binlog;
      OneTxn(Flushed(tables, Binlog(before)), Buffer(tables, Binlog(before)), OwnTags(tables, before),
             RawAll(tables, t.rows), Id(t));
      assert Binlog(ts) == Binlog(before) + Events(t) by { BinlogNext(ts); }
      assert Tag([], None) == [];
      TagBoth(Buffer(tables, Binlog(before)), RawAll(tables, t.rows));
    }
  }

  lemma BinlogNext(ts: seq<SourceTxn>)
    requires ts != []
    ensures Binlog(ts) == Binlog(ts[..|ts| - 1]) + Events(ts[|ts| - 1])
  {
  }

  /** Releasing buffered rows under the next id is right exactly when there are none, or no id. */
  lemma OneTxn(f: seq<Record>, b: seq<Record>, own: seq<Record>, rows: seq<Record>, id: Option<int>)
    requires |own| == |f| + |b| && own[|f|..] == Tag(b, None)
    ensures f + Tag(b + rows, id) == own + Tag(rows, id) <==> f + Tag(b, None) == own && (b == [] || id.None?)
    ensures f + Tag(b + rows, None) == own + Tag(rows, None) <==> f + Tag(b, None) == own
  {
    var all, sum := f + Tag(b + rows, id), own + Tag(rows, id);
    TagBoth(b, rows);
    assert own == own[..|f|] + Tag(b, None);
    assert f + Tag(b, None) == own <==> f == own[..|f|] by { assert (f + Tag(b, None))[..|f|] == f; }
    assert (own[..|f|] + Tag(b, None)) + Tag(rows, None) == own[..|f|] + Tag(b + rows, None);
    assert (f + Tag(b + rows, None))[..|f|] == f && (own[..|f|] + Tag(b + rows, None))[..|f|] == own[..|f|];
    if b == [] {
      assert b + rows == rows && Tag(b, None) == [];
      assert all[..|f|] == f && sum[..|f|] == own[..|f|];
    } else if id.Some? {
      assert all[|f|].txnId == id && own[|f|] == Tag(b, None)[0];
    }
  }

  /** A row of an engine without commit events, followed by somebody else's transaction, is released under
      that transaction's id. */
  lemma ForeignTag(tables: Tables, lone: Event, theirs: SourceTxn)
    requires lone.Rows? && |lone.rows| > 0 && ProperTxn(theirs) && Id(theirs).Some?
    ensures var ts := [SourceTxn([lone], None), theirs];
            && ProperTxns(ts) && Leaks(tables, ts)
            && |Emit(tables, Binlog(ts))| > 0 && Emit(tables, Binlog(ts))[0].txnId == Id(theirs)
            && |OwnTags(tables, ts)| > 0 && OwnTags(tables, ts)[0].txnId == None
  {
    var mine := SourceTxn([lone], None);
    var ts := [mine, theirs];
    LoneTxn(tables, lone, mine);
    assert ts[..1] == [mine] && ts == [mine] + [theirs];
    LoneLeaks(tables, mine, theirs);
    BinlogNext(ts);
    assert OwnTags(tables, ts) == OwnTags(tables, [mine]) + Tag(RawAll(tables, theirs.rows), Id(theirs));
    hide Flushed, Buffer, Raw, RawAll, OwnTags, Events, Binlog, Leaks, Id;
    NextTxn(tables, Binlog([mine]), theirs);
  }

  lemma LoneLeaks(tables: Tables, mine: SourceTxn, theirs: SourceTxn)
    requires mine.commit.None? && RawAll(tables, mine.rows) != [] && ProperTxn(theirs) && Id(theirs).Some?
    ensures Leaks(tables, [mine, theirs])
  {
    hide RawAll;
    var ts := [mine, theirs];
    assert ts[..1] == [mine] && [mine][0] == mine;
    assert OpenRows(tables, ts[..1]);
    assert LeaksAt(tables, ts, 1);
  }

  /** One event without a commit. */
  lemma LoneTxn(tables: Tables, lone: Event, mine: SourceTxn)
    requires lone.Rows? && |lone.rows| > 0 && mine == SourceTxn([lone], None)
    ensures ProperTxns([mine]) && RawAll(tables, mine.rows) == Raw(tables, lone)
    ensures Flushed(tables, Binlog([mine])) == [] && Buffer(tables, Binlog([mine])) == Raw(tables, lone)
    ensures OwnTags(tables, [mine]) == Tag(Raw(tables, lone), None)
  {
    assert [mine][..0] == [] && [lone][..0] == [];
    assert Binlog([mine]) == [lone] by { assert [lone] + [] == [lone] && [] + [lone] == [lone]; }
    NoEvents(tables);
    Next(tables, [], lone);
    assert [] + [lone] == [lone] && [] + Raw(tables, lone) == Raw(tables, lone);
    var own := Tag(Raw(tables, lone), None);
    assert [] + own == own;
  }

  // ---------------------------------------------------------------- positions

  ghost predicate Advancing(es: seq<Event>) {
    forall i, j :: 0 <= i < j < |es| ==> es[i].at < es[j].at
  }

  /** Records come out in coordinate order, all of them at coordinates of their events. */
  lemma KeysAdvance(tables: Tables, es: seq<Event>)
    requires Advancing(es)
    ensures KeysUp(Emit(tables, es))
    ensures forall i :: 0 <= i < |Emit(tables, es)| ==> KeyIn(Emit(tables, es)[i]).0 <= es[|es| - 1].at
    ensures es == [] ==> Emit(tables, es) == []
  {
    hide Emit, KeysUp, KeyIn;
    if es == [] {
      NothingEmitted(tables);
      NoKeys();
    } else {
      EmittedUpTo(tables, es);
    }
  }

  ghost predicate UpTo(rs: seq<Record>, top: int) {
    KeysUp(rs) && forall i :: 0 <= i < |rs| ==> KeyIn(rs[i]).0 <= top
  }

  lemma NothingEmitted(tables: Tables)
    ensures Emit(tables, []) == []
  {
  }

  lemma NoKeys()
    ensures KeysUp([])
  {
  }

  lemma NoKeysUpTo(top: int)
    ensures UpTo([], top)
  {
  }

  lemma {:induction false} EmittedUpTo(tables: Tables, es: seq<Event>)
    requires Advancing(es) && es != []
    ensures UpTo(Emit(tables, es), es[|es| - 1].at)
  {
    hide *;
    var before, e := es[..|es| - 1], es[|es| - 1];
    AdvancingBefore(es);
    EmitNext(tables, before, e);
    LastEvent(es);
    if before == [] {
      NothingEmitted(tables);
      NoKeysUpTo(e.at - 1);
      KeysNext(tables, Emit(tables, before), e, e.at - 1, Emit(tables, es));
    } else {
      EmittedUpTo(tables, before);
      KeysNext(tables, Emit(tables, before), e, before[|before| - 1].at, Emit(tables, es));
    }
  }

  lemma AdvancingBefore(es: seq<Event>)
    requires Advancing(es) && es != []
    ensures Advancing(es[..|es| - 1]) && (|es| > 1 ==> es[|es| - 2].at < es[|es| - 1].at)
  {
  }

  lemma KeysNext(tables: Tables, rs: seq<Record>, e: Event, top: int, out: seq<Record>)
    requires UpTo(rs, top) && top < e.at && SamePos(rs + Raw(tables, e), out)
    ensures UpTo(out, e.at)
  {
    hide Raw, KeysUp, KeyIn;
    KeysLater(tables, rs, e, top);
    SameKeys(rs + Raw(tables, e), out);
  }

  ghost predicate SamePos(a: seq<Record>, b: seq<Record>) {
    |a| == |b| && forall i :: 0 <= i < |a| ==> a[i].pos == b[i].pos
  }

  lemma SameKeys(a: seq<Record>, b: seq<Record>)
    requires SamePos(a, b) && KeysUp(a)
    ensures KeysUp(b) && forall i :: 0 <= i < |a| ==> KeyIn(b[i]) == KeyIn(a[i])
  {
  }

  lemma KeysLater(tables: Tables, rs: seq<Record>, e: Event, top: int)
    requires KeysUp(rs) && top < e.at && forall i :: 0 <= i < |rs| ==> KeyIn(rs[i]).0 <= top
    ensures KeysUp(rs + Raw(tables, e))
    ensures forall i :: 0 <= i < |rs + Raw(tables, e)| ==> KeyIn((rs + Raw(tables, e))[i]).0 <= e.at
  {
    var raw := Raw(tables, e);
    assert forall i :: 0 <= i < |raw| ==> KeyIn(raw[i]) == (e.at, i);
    KeysJoin(rs, raw);
  }

  /** An event's rows come out behind everything before it, whenever they are released. */
  lemma EmitNext(tables: Tables, es: seq<Event>, e: Event)
    ensures SamePos(Emit(tables, es) + Raw(tables, e), Emit(tables, es + [e]))
  {
    hide Flushed, Buffer;
    Next(tables, es, e);
  }

  /** A capture that starts and stops at commits is a slice of the source stream, and its coordinate
      cuts the stream there: what an extract cycle takes its captures to be. */
  lemma CaptureIsSlice(tables: Tables, es: seq<Event>, i: nat, j: nat)
    requires Advancing(es) && i <= j <= |es|
    requires Buffer(tables, es[..i]) == [] && Buffer(tables, es[..j]) == []
    ensures var p, q := |Emit(tables, es[..i])|, |Emit(tables, es[..j])|;
            && p <= q <= |Emit(tables, es)|
            && Emit(tables, es[i..j]) == Emit(tables, es)[p..q]
            && KeysUp(Emit(tables, es))
            && (j > 0 ==> CutAt(Emit(tables, es), es[j - 1].at, q))
  {
    hide Flushed, Buffer, Raw, Emit, Tag, KeysUp, CutAt;
    assert es[..j] == es[..i] + es[i..j] && es == es[..j] + es[j..];
    CaptureSplits(tables, es[..i], es[i..j]);
    CaptureSplits(tables, es[..j], es[j..]);
    KeysAdvance(tables, es);
    if j > 0 {
      CutBehind(tables, es, j);
    }
  }

  /** The coordinate of a commit cuts the stream behind it. */
  lemma CutBehind(tables: Tables, es: seq<Event>, j: nat)
    requires Advancing(es) && 0 < j <= |es|
    requires Emit(tables, es[..j]) + Emit(tables, es[j..]) == Emit(tables, es)
    ensures CutAt(Emit(tables, es), es[j - 1].at, |Emit(tables, es[..j])|)
  {
    hide Emit;
    KeysAdvance(tables, es[..j]);
    TailBeyond(tables, es[j..], es[j - 1].at);
    assert es[..j][j - 1] == es[j - 1];
    JoinCut(Emit(tables, es[..j]), Emit(tables, es[j..]), es[j - 1].at);
  }

  lemma JoinCut(a: seq<Record>, b: seq<Record>, at: int)
    requires Keyed(a) && Keyed(b)
    requires forall i :: 0 <= i < |a| ==> KeyIn(a[i]).0 <= at
    requires forall i :: 0 <= i < |b| ==> KeyIn(b[i]).0 > at
    ensures CutAt(a + b, at, |a|)
  {
    forall k | 0 <= k < |a + b| ensures (a + b)[k] == if k < |a| then a[k] else b[k - |a|] {
    }
  }

  lemma {:induction false} TailBeyond(tables: Tables, es: seq<Event>, at: int)
    requires forall i :: 0 <= i < |es| ==> at < es[i].at
    ensures Keyed(Emit(tables, es)) && forall i :: 0 <= i < |Emit(tables, es)| ==> KeyIn(Emit(tables, es)[i]).0 > at
  {
    if es != [] {
      var before, e := es[..|es| - 1], es[|es| - 1];
      hide Flushed, Buffer, Emit, KeyIn, Raw, Keyed, RowPos;
      TailBeyond(tables, before, at);
      EmitNext(tables, before, e);
      LastEvent(es);
      RawBeyond(tables, e, at);
      JoinBeyond(Emit(tables, before), Raw(tables, e), Emit(tables, es), at);
    }
  }

  lemma RawBeyond(tables: Tables, e: Event, at: int)
    requires at < e.at
    ensures Keyed(Raw(tables, e)) && forall i :: 0 <= i < |Raw(tables, e)| ==> KeyIn(Raw(tables, e)[i]).0 > at
  {
  }

  lemma JoinBeyond(a: seq<Record>, b: seq<Record>, c: seq<Record>, at: int)
    requires Keyed(a) && Keyed(b) && SamePos(a + b, c)
    requires forall i :: 0 <= i < |a| ==> KeyIn(a[i]).0 > at
    requires forall i :: 0 <= i < |b| ==> KeyIn(b[i]).0 > at
    ensures Keyed(c) && forall i :: 0 <= i < |c| ==> KeyIn(c[i]).0 > at
  {
    forall i | 0 <= i < |c| ensures PosKey(c[i].pos).Some? && PosKey(c[i].pos).value.0 > at {
      assert (a + b)[i].pos == c[i].pos;
      if i < |a| {
        assert KeyIn(a[i]).0 > at;
      } else {
        assert KeyIn(b[i - |a|]).0 > at;
      }
    }
  }

  // ---------------------------------------------------------------- captures that stop anywhere

  /** The row events' rows, one after the other, each with its table. */
  function RowsOf(es: seq<Event>): seq<(string, RowImage)> {
    if es == [] then [] else RowsOf(es[..|es| - 1]) + EventRows(es[|es| - 1])
  }

  function EventRows(e: Event): (rs: seq<(string, RowImage)>)
    ensures |rs| == if e.Rows? then |e.rows| else 0
    ensures forall i :: 0 <= i < |rs| ==> rs[i] == (e.table, e.rows[i])
  {
    if e.Commit? then [] else seq(|e.rows|, i requires 0 <= i < |e.rows| => (e.table, e.rows[i]))
  }

  lemma {:induction false} RowListed(es: seq<Event>, e: Event, row: RowImage)
    requires e in es && e.Rows? && row in e.rows
    ensures (e.table, row) in RowsOf(es)
  {
    var before, last := es[..|es| - 1], es[|es| - 1];
    if e in before {
      RowListed(before, e, row);
    } else {
      var i :| 0 <= i < |e.rows| && e.rows[i] == row;
      assert EventRows(e)[i] == (e.table, row);
    }
  }

  function Untagged(r: Record): Record {
    r.(txnId := None, txnEnd := false)
  }

  /** The same records but for their transaction tags. */
  ghost predicate Retagged(a: seq<Record>, b: seq<Record>) {
    |a| == |b| && forall i :: 0 <= i < |a| ==> Untagged(a[i]) == Untagged(b[i])
  }

  lemma RetaggedJoin(a: seq<Record>, a': seq<Record>, b: seq<Record>, b': seq<Record>)
    requires Retagged(a, a') && Retagged(b, b')
    ensures Retagged(a + b, a' + b')
  {
  }

  lemma BufferGrows(tables: Tables, es: seq<Event>, e: Event)
    ensures Retagged(Emit(tables, es + [e]), Emit(tables, es) + Raw(tables, e))
  {
    hide Flushed, Buffer, Tag, Retagged;
    Next(tables, es, e);
    if e.Commit? {
      Released(Flushed(tables, es), Buffer(tables, es), e.xid);
    } else {
      StillBuffered(Flushed(tables, es), Buffer(tables, es), Raw(tables, e));
    }
  }

  lemma Released(f: seq<Record>, buf: seq<Record>, xid: Option<int>)
    ensures Retagged((f + Tag(buf, xid)) + Tag([], None), (f + Tag(buf, None)) + [])
  {
  }

  lemma StillBuffered(f: seq<Record>, buf: seq<Record>, raw: seq<Record>)
    ensures Retagged((f + []) + Tag(buf + raw, None), (f + Tag(buf, None)) + raw)
  {
  }

  /** Whatever tags a capture gives its records, they are the rows of its events in order. */
  lemma {:induction false} EmitRows(tables: Tables, es: seq<Event>)
    ensures Retagged(Emit(tables, es), RawAll(tables, es))
  {
    if es == [] {
      assert Emit(tables, es) == [];
    } else {
      var before, e := es[..|es| - 1], es[|es| - 1];
      EmitRows(tables, before);
      hide Emit, Raw;
      BufferGrows(tables, before, e);
      LastEvent(es);
      RetaggedJoin(Emit(tables, before), RawAll(tables, before), Raw(tables, e), Raw(tables, e));
    }
  }

  lemma {:induction false} RowsJoin(tables: Tables, a: seq<Event>, b: seq<Event>)
    ensures RawAll(tables, a + b) == RawAll(tables, a) + RawAll(tables, b)
  {
    if b == [] {
      assert a + b == a && RawAll(tables, a) + [] == RawAll(tables, a);
    } else {
      var b', e := b[..|b| - 1], b[|b| - 1];
      RowsJoin(tables, a, b');
      assert (a + b)[..|a + b| - 1] == a + b' && (a + b)[|a + b| - 1] == e;
      assert RawAll(tables, b) == RawAll(tables, b') + Raw(tables, e);
      hide *;
      Regroup(RawAll(tables, a), RawAll(tables, b'), Raw(tables, e));
    }
  }

  /** Record `i` is the record of row `i`. */
  ghost predicate RecordAt(tables: Tables, rs: seq<Record>, rows: seq<(string, RowImage)>, i: nat)
    requires i < |rs| == |rows|
  {
    exists pos :: rs[i] == RowRecord(MetaFor(tables, rows[i].0), rows[i].0, rows[i].1, pos)
  }

  lemma {:induction false} RecordOfRow(tables: Tables, es: seq<Event>)
    ensures |RawAll(tables, es)| == |RowsOf(es)|
    ensures forall i: nat :: i < |RowsOf(es)| ==> RecordAt(tables, RawAll(tables, es), RowsOf(es), i)
  {
    if es != [] {
      var before, e := es[..|es| - 1], es[|es| - 1];
      RecordOfRow(tables, before);
      RecordOfEvent(tables, e);
      var a, r, b, w := RawAll(tables, before), Raw(tables, e), RowsOf(before), EventRows(e);
      assert RawAll(tables, es) == a + r && RowsOf(es) == b + w;
      hide RawAll, RowsOf, Raw, EventRows;
      RecordsJoin(tables, a, r, b, w);
    }
  }

  lemma RecordOfEvent(tables: Tables, e: Event)
    ensures |Raw(tables, e)| == |EventRows(e)|
    ensures forall i: nat :: i < |EventRows(e)| ==> RecordAt(tables, Raw(tables, e), EventRows(e), i)
  {
    hide RowRecord;
    forall i: nat | i < |EventRows(e)| ensures RecordAt(tables, Raw(tables, e), EventRows(e), i) {
      assert Raw(tables, e)[i] == RowRecord(MetaFor(tables, e.table), e.table, e.rows[i], RowPos(e, i));
    }
  }

  lemma RecordsJoin(tables: Tables, a: seq<Record>, r: seq<Record>, b: seq<(string, RowImage)>,
                    w: seq<(string, RowImage)>)
    requires |a| == |b| && |r| == |w|
    requires forall i: nat :: i < |b| ==> RecordAt(tables, a, b, i)
    requires forall i: nat :: i < |w| ==> RecordAt(tables, r, w, i)
    ensures forall i: nat :: i < |b + w| ==> RecordAt(tables, a + r, b + w, i)
  {
    hide RowRecord;
    forall i: nat | i < |b + w| ensures RecordAt(tables, a + r, b + w, i) {
      var row := (b + w)[i];
      if i < |b| {
        assert RecordAt(tables, a, b, i) && row == b[i] && (a + r)[i] == a[i];
      } else {
        assert RecordAt(tables, r, w, i - |b|) && row == w[i - |b|] && (a + r)[i] == r[i - |b|];
      }
      var pos :| (a + r)[i] == RowRecord(MetaFor(tables, row.0), row.0, row.1, pos);
    }
  }

  /** The coordinate behind the first `i` events. */
  function Coordinate(es: seq<Event>, anchor: int, i: nat): int
    requires i <= |es|
  {
    if i == 0 then anchor else es[i - 1].at
  }

  ghost predicate Behind(es: seq<Event>, anchor: int) {
    Advancing(es) && forall i :: 0 <= i < |es| ==> anchor < es[i].at
  }

  /** However its records are tagged, the stream's positions increase, and the coordinate behind any event,
      inside a transaction or not, cuts it behind that event's rows. */
  lemma CutAnywhere(tables: Tables, es: seq<Event>, src: seq<Record>, anchor: int, i: nat)
    requires Behind(es, anchor) && i <= |es| && Retagged(src, RawAll(tables, es))
    ensures KeysUp(src) && CutAt(src, Coordinate(es, anchor, i), |RawAll(tables, es[..i])|)
  {
    hide Emit, Raw, RawAll, KeysUp, CutAt;
    var a, b, c := es[..i], es[i..], Coordinate(es, anchor, i);
    assert es == a + b;
    KeysAdvance(tables, es);
    EmitRows(tables, es);
    RetaggedKeys(src, RawAll(tables, es), Emit(tables, es));
    EmitRows(tables, a);
    EmitRows(tables, b);
    RowsJoin(tables, a, b);
    RetaggedJoin(Emit(tables, a), RawAll(tables, a), Emit(tables, b), RawAll(tables, b));
    KeysAdvance(tables, a);
    UpKeyed(Emit(tables, a));
    TailBeyond(tables, b, c);
    JoinCut(Emit(tables, a), Emit(tables, b), c);
    RetaggedCut(src, RawAll(tables, es), Emit(tables, a) + Emit(tables, b), c, |RawAll(tables, a)|);
  }

  lemma UpKeyed(rs: seq<Record>)
    requires KeysUp(rs)
    ensures Keyed(rs)
  {
  }

  lemma RetaggedKeys(a: seq<Record>, b: seq<Record>, c: seq<Record>)
    requires Retagged(a, b) && Retagged(c, b) && KeysUp(c)
    ensures KeysUp(a)
  {
    RetaggedPos(a, b, c);
    SameKeys(c, a);
  }

  lemma RetaggedPos(a: seq<Record>, b: seq<Record>, c: seq<Record>)
    requires Retagged(a, b) && Retagged(c, b)
    ensures SamePos(c, a)
  {
    forall i | 0 <= i < |a| ensures c[i].pos == a[i].pos {
      assert Untagged(a[i]) == Untagged(c[i]);
    }
  }

  lemma RetaggedCut(a: seq<Record>, b: seq<Record>, c: seq<Record>, at: int, k: nat)
    requires Retagged(a, b) && Retagged(c, b) && CutAt(c, at, k)
    ensures CutAt(a, at, k)
  {
    RetaggedPos(a, b, c);
  }

  /** What a capture between any two events can be: its records in place of the stream's leave a stream
      of the same rows. */
  lemma AnyCapture(tables: Tables, es: seq<Event>, src: seq<Record>, i: nat, j: nat)
    requires i <= j <= |es| && Retagged(src, RawAll(tables, es))
    ensures var p, q := |RawAll(tables, es[..i])|, |RawAll(tables, es[..j])|;
            && p <= q <= |src| && |Emit(tables, es[i..j])| == q - p
            && Retagged(src[..p] + Emit(tables, es[i..j]) + src[q..], RawAll(tables, es))
  {
    hide Emit, RawAll, Untagged;
    var a, m, b := es[..i], es[i..j], es[j..];
    assert es[..j] == a + m && es == es[..j] + b;
    RowsJoin(tables, a, m);
    RowsJoin(tables, es[..j], b);
    EmitRows(tables, m);
    Between(src, RawAll(tables, a), RawAll(tables, m), RawAll(tables, b), Emit(tables, m));
  }

  lemma Between(src: seq<Record>, a: seq<Record>, m: seq<Record>, b: seq<Record>, e: seq<Record>)
    requires Retagged(src, a + m + b) && Retagged(e, m)
    ensures Retagged(src[..|a|] + e + src[|a + m|..], a + m + b)
  {
    hide Untagged;
    var all, now := a + m + b, src[..|a|] + e + src[|a + m|..];
    forall i | 0 <= i < |all| ensures Untagged(now[i]) == Untagged(all[i]) {
      if i < |a| {
        assert now[i] == src[i];
      } else if i < |a + m| {
        assert now[i] == e[i - |a|] && all[i] == m[i - |a|];
      } else {
        assert now[i] == src[i];
      }
    }
  }
}
