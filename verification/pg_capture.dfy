/** PostgreSQL logical capture: the records of a peeked slot, with their transaction tags and their
    ordinals within an LSN. */
module PgCapture {
  import opened Counting
  import opened Records
  import opened Store
  import opened Dedup
  import opened RunLemmas
  import Poison
  import opened TxnTags

  // ---------------------------------------------------------------- one change

  datatype Change = Inserted(values: Image) | Changed(pre: Option<Image>, values: Image) | Removed(identity: Image)

  /** Backfills key columns omitted from `after` (unchanged out-of-line values) from the pre-image;
      fails if a key column is in neither. */
  method FillPkFromOld(after: Image, pre: Image, pk: seq<string>) returns (res: Option<Image>)
    ensures res == Filled(after, pre, pk)
  {
    hide FilledUpTo;
    for i := 0 to |pk|
      invariant forall k :: 0 <= k < i ==> pk[k] in after || pk[k] in pre
    {
      if pk[i] !in after && pk[i] !in pre {
        return None;
      }
    }
    var full := after;
    FillNone(after, pre, pk);
    for i := 0 to |pk|
      invariant full == FilledUpTo(after, pre, pk[..i])
    {
      FillOne(after, pre, pk, i);
      if pk[i] !in full {
        full := full[pk[i] := pre[pk[i]]];
      }
    }
    assert pk[..|pk|] == pk;
    res := Some(full);
  }

  function FilledUpTo(after: Image, pre: Image, pk: seq<string>): Image {
    after + map c | c in pk && c !in after && c in pre :: pre[c]
  }

  lemma FillNone(after: Image, pre: Image, pk: seq<string>)
    ensures FilledUpTo(after, pre, pk[..0]) == after
  {
  }

  lemma FillOne(after: Image, pre: Image, pk: seq<string>, i: nat)
    requires i < |pk| && (pk[i] in after || pk[i] in pre)
    ensures var full, c := FilledUpTo(after, pre, pk[..i]), pk[i];
            && (c !in full ==> c in pre)
            && FilledUpTo(after, pre, pk[..i + 1]) == if c in full then full else full[c := pre[c]]
  {
    assert forall c :: c in pk[..i + 1] <==> c in pk[..i] || c == pk[i];
    var full, c := FilledUpTo(after, pre, pk[..i]), pk[i];
    assert FilledUpTo(after, pre, pk[..i + 1]).Keys == full.Keys + {c};
  }

  function Filled(after: Image, pre: Image, pk: seq<string>): Option<Image> {
    if forall c :: c in pk ==> c in after || c in pre then
      Some(FilledUpTo(after, pre, pk))
    else None
  }

  predicate Covers(image: Image, pk: seq<string>) {
    forall c :: c in pk ==> c in image
  }

  /** The record of one change line; None stands for the loud refusal of a change whose row cannot be
      identified. */
  function RecordOf(table: string, c: Change, m: Meta): Option<Record> {
    match c
    case Removed(id) => Some(Record(Delete, table, id, map[], map[], Absent, None, false))
    case Inserted(v) =>
      if Covers(v, m.pk) then Some(Record(Insert, table, KeyImage(m, v), v, map[], Absent, None, false)) else None
    case Changed(None, v) =>
      if Covers(v, m.pk) then Some(Record(Update, table, KeyImage(m, v), v, map[], Absent, None, false)) else None
    case Changed(Some(pre), v) =>
      match Filled(v, pre, m.pk)
      case None => None
      case Some(full) =>
        if !Covers(pre, m.pk) then None
        else Some(Record(Update, table, KeyImage(m, full), full,
                         if KeyImage(m, pre) == KeyImage(m, full) then map[] else KeyImage(m, pre),
                         Absent, None, false))
  }

  ghost predicate KeyChanged(m: Meta, c: Change)
    requires RecordOf("", c, m).Some?
  {
    c.Changed? && c.pre.Some? && exists k :: k in m.pk && k in c.values && c.values[k] != c.pre.value[k]
  }

  /** An accepted insert or update carries its whole key and is a move exactly when the key changed; a key column
      the change left alone keeps its old value. */
  lemma AcceptedChange(env: Env, m: Meta, table: string, c: Change)
    requires RecordOf(table, c, m).Some? && ValidMeta(m) && m.pk != []
    requires Upper(table) in env.schema && env.schema[Upper(table)] == m
    ensures var r := RecordOf(table, c, m).value;
            && WellFormed(env, r)
            && (IsKeymove(env, r) <==> KeyChanged(m, c))
            && (c.Changed? && c.pre.Some? ==>
                  forall k :: k in m.pk ==>
                    r.key[k] == if k in c.values then c.values[k] else c.pre.value[k])
  {
    if c.Changed? && c.pre.Some? {
      var pre, full := c.pre.value, Filled(c.values, c.pre.value, m.pk).value;
      var r := RecordOf(table, c, m).value;
      assert forall k :: k in m.pk ==> Get(pre, k) == pre[k] && Get(full, k) == full[k];
      if KeyImage(m, pre) == KeyImage(m, full) {
        forall k | k in m.pk && k in c.values ensures c.values[k] == pre[k] {
          assert KeyImage(m, pre)[k] == pre[k] && KeyImage(m, full)[k] == full[k];
        }
      } else {
        assert KeyImage(m, pre).Keys == KeyImage(m, full).Keys;
        var k :| k in KeyImage(m, pre) && KeyImage(m, pre)[k] != KeyImage(m, full)[k];
        var i :| 0 <= i < |m.pk| && m.pk[i] == k;
        assert KeyOf(r.beforeKey, m.pk)[i] != KeyOf(r.key, m.pk)[i];
      }
    }
  }

  /** No row of the table has a NULL in its key. */
  ghost predicate KeysNotNull(db: DB, t: string) {
    forall loc :: loc in db && loc.table == t ==> Null !in loc.key
  }

  /** The columns of the deleted row that its replica identity carries. */
  function Identity(row: Image, columns: set<string>): Image {
    map c | c in row && c in columns :: row[c]
  }

  /** A captured delete says its change exactly when the replica identity covers the primary key.
      Without one of its columns - an identity on another index - it addresses a NULL key, which no row
      has, and the delete is lost. */
  lemma DeleteSaysExactly(env: Env, m: Meta, table: string, row: Image, columns: set<string>, db: DB)
    requires Upper(table) in env.schema && env.schema[Upper(table)] == m && m.pk != []
    requires forall c :: c in m.pk ==> c in row && row[c] != Null
    requires Loc(Upper(table), KeyOf(row, m.pk)) in db && KeysNotNull(db, Upper(table))
    ensures var r := RecordOf(table, Removed(Identity(row, columns)), m).value;
            var gone := db - {Loc(Upper(table), KeyOf(row, m.pk))};
            && (!env.drop(r) ==> (Step(env, db, r) == gone <==> Covers(Identity(row, columns), m.pk)))
            && (!Covers(Identity(row, columns), m.pk) ==> Step(env, db, r) == db)
  {
    var id, t := Identity(row, columns), Upper(table);
    var r := RecordOf(table, Removed(id), m).value;
    var loc := Loc(t, KeyOf(row, m.pk));
    assert Known(env, r) && Classify(r, m) == KindDelete && LocOf(env, r) == Loc(t, KeyOf(id, m.pk));
    if Covers(id, m.pk) {
      assert KeyOf(id, m.pk) == KeyOf(row, m.pk) by {
        forall i | 0 <= i < |m.pk| ensures Get(id, m.pk[i]) == Get(row, m.pk[i]) { assert m.pk[i] in m.pk; }
      }
    } else {
      var i :| 0 <= i < |m.pk| && m.pk[i] !in id;
      assert KeyOf(id, m.pk)[i] == Null;
      assert LocOf(env, r) !in db;
    }
    assert loc in db;
  }

  // ---------------------------------------------------------------- the peeked stream

  /** A decoded line: transaction bounds, a change of a captured table, or anything else. */
  datatype Data = Begin(xid: Option<int>) | Finish | Row(r: Record) | Other

  /** `lsn` is None when the value is empty or malformed. */
  datatype Line = Line(lsn: Option<int>, data: Data)

  /** The LSNs of the captured records. */
  function Bases(ls: seq<Line>): seq<Option<int>> {
    if ls == [] then []
    else Bases(ls[..|ls| - 1]) + if ls[|ls| - 1].data.Row? then [ls[|ls| - 1].lsn] else []
  }

  /** The position of a record behind records at `before`: its LSN, with an ordinal unless it is the
      first there. */
  function PosAt(before: seq<Option<int>>, base: Option<int>): SourcePos {
    match base
    case None => Absent
    case Some(b) => if Count(before, base) == 0 then Plain(b) else Compound(b, Count(before, base))
  }

  /** The open transaction's id after these lines. */
  function CurTxn(ls: seq<Line>): Option<int> {
    if ls == [] then None
    else match ls[|ls| - 1].data
      case Begin(xid) => xid
      case Finish => None
      case _ => CurTxn(ls[..|ls| - 1])
  }

  /** The index of the open transaction's latest record. */
  function LastOfTxn(ls: seq<Line>): Option<nat> {
    if ls == [] then None
    else
      var before := ls[..|ls| - 1];
      match ls[|ls| - 1].data
      case Begin(_) => None
      case Finish => None
      case Row(_) => if CurTxn(before).Some? then Some(|Captured(before)|) else LastOfTxn(before)
      case Other => LastOfTxn(before)
  }

  /** What a capture of these lines returns. */
  function Captured(ls: seq<Line>): seq<Record> {
    if ls == [] then []
    else
      var before, line := ls[..|ls| - 1], ls[|ls| - 1];
      match line.data
      case Row(r) =>
        Captured(before) + [Numbered(r, CurTxn(before), Bases(before), line.lsn)]
      case Finish => Mark(Captured(before), LastOfTxn(before))
      case _ => Captured(before)
  }

  function Mark(rs: seq<Record>, at: Option<nat>): (out: seq<Record>)
    ensures |out| == |rs|
    ensures forall i :: 0 <= i < |rs| ==> out[i] == if at == Some(i) then rs[i].(txnEnd := true) else rs[i]
  {
    if at.Some? && at.value < |rs| then rs[at.value := rs[at.value].(txnEnd := true)] else rs
  }

  function LastLsn(ls: seq<Line>): Option<int> {
    if ls == [] then None
    else if ls[|ls| - 1].lsn.Some? then ls[|ls| - 1].lsn
    else LastLsn(ls[..|ls| - 1])
  }

  /** What one more line does. */
  lemma Next(ls: seq<Line>, line: Line)
    ensures var d, all := line.data, ls + [line];
            && Bases(all) == (if d.Row? then Bases(ls) + [line.lsn] else Bases(ls))
            && CurTxn(all) == (if d.Begin? then d.xid else if d.Finish? then None else CurTxn(ls))
            && LastOfTxn(all) == (if d.Begin? || d.Finish? then None
                                  else if d.Row? && CurTxn(ls).Some? then Some(|Captured(ls)|)
                                  else LastOfTxn(ls))
            && Captured(all) == (if d.Row? then Captured(ls) + [Numbered(d.r, CurTxn(ls), Bases(ls), line.lsn)]
                                 else if d.Finish? then Mark(Captured(ls), LastOfTxn(ls))
                                 else Captured(ls))
            && LastLsn(all) == (if line.lsn.Some? then line.lsn else LastLsn(ls))
  {
    assert (ls + [line])[..|ls|] == ls;
  }

  function Numbered(r: Record, xid: Option<int>, before: seq<Option<int>>, base: Option<int>): Record {
    r.(txnId := xid, txnEnd := false, pos := PosAt(before, base))
  }

  lemma LastLine(ls: seq<Line>)
    requires ls != []
    ensures ls == ls[..|ls| - 1] + [ls[|ls| - 1]]
  {
  }

  /** Positions are counted over the captured LSNs. */
  ghost predicate PositionsFrom(rs: seq<Record>, bases: seq<Option<int>>) {
    |rs| == |bases| && forall i :: 0 <= i < |rs| ==> rs[i].pos == PosAt(bases[..i], bases[i])
  }

  lemma OneMorePosition(rs: seq<Record>, bases: seq<Option<int>>, r: Record, base: Option<int>)
    requires PositionsFrom(rs, bases) && r.pos == PosAt(bases, base)
    ensures PositionsFrom(rs + [r], bases + [base])
  {
    assert forall i :: 0 <= i <= |bases| ==> (bases + [base])[..i] == bases[..i];
    assert bases[..|bases|] == bases;
  }

  lemma {:induction false} CapturedShape(ls: seq<Line>)
    ensures PositionsFrom(Captured(ls), Bases(ls))
    ensures LastOfTxn(ls).Some? ==> LastOfTxn(ls).value < |Captured(ls)|
  {
    if ls != [] {
      hide Captured, Bases, LastOfTxn, CurTxn, PosAt;
      var before, line := ls[..|ls| - 1], ls[|ls| - 1];
      LastLine(ls);
      CapturedShape(before);
      Next(before, line);
      if line.data.Row? {
        OneMorePosition(Captured(before), Bases(before),
                        Numbered(line.data.r, CurTxn(before), Bases(before), line.lsn), line.lsn);
      }
    }
  }

  /** Walks the peeked lines, tagging, numbering and terminating records as they come. */
  method Capture(lines: seq<Line>) returns (records: seq<Record>, last: Option<int>)
    ensures records == Captured(lines) && last == LastLsn(lines)
  {
    hide Captured, Bases, LastOfTxn, CurTxn, LastLsn, Count;
    NoLines();
    var seqByBase: map<int, nat> := map[];
    var curTxn: Option<int>, lastOfTxn: Option<nat> := None, None;
    records, last := [], None;
    for n := 0 to |lines|
      invariant records == Captured(lines[..n]) && last == LastLsn(lines[..n])
      invariant curTxn == CurTxn(lines[..n]) && lastOfTxn == LastOfTxn(lines[..n])
      invariant forall b :: (if b in seqByBase then seqByBase[b] else 0) == Count(Bases(lines[..n]), Some(b))
    {
      assert lines[..n + 1] == lines[..n] + [lines[n]];
      CapturedShape(lines[..n]);
      Next(lines[..n], lines[n]);
      var lsn := lines[n].lsn;
      if lsn.Some? {
        last := lsn;
      }
      match lines[n].data
      case Begin(xid) =>
        curTxn, lastOfTxn := xid, None;
      case Finish =>
        if lastOfTxn.Some? {
          records := records[lastOfTxn.value := records[lastOfTxn.value].(txnEnd := true)];
        }
        curTxn, lastOfTxn := None, None;
      case Row(r) =>
        var pos := Absent;
        if lsn.Some? {
          var ord := if lsn.value in seqByBase then seqByBase[lsn.value] else 0;
          seqByBase := seqByBase[lsn.value := ord + 1];
          pos := if ord == 0 then Plain(lsn.value) else Compound(lsn.value, ord);
        }
        forall b { CountNext(Bases(lines[..n]), lsn, Some(b)); }
        if curTxn.Some? {
          lastOfTxn := Some(|records|);
        }
        records := records + [r.(txnId := curTxn, txnEnd := false, pos := pos)];
      case Other =>
    }
    assert lines[..|lines|] == lines;
  }

  lemma NoLines()
    ensures Captured([]) == [] && Bases([]) == [] && LastOfTxn([]) == None && CurTxn([]) == None
    ensures LastLsn([]) == None
    ensures forall b: int :: Count([], Some(b)) == 0
  {
  }

  // ---------------------------------------------------------------- whole transactions

  /** Every change lies between its transaction's bounds, which carry an id. */
  ghost predicate Bracketed(ls: seq<Line>) {
    ls == [] ||
    (var before := ls[..|ls| - 1];
     Bracketed(before) &&
     match ls[|ls| - 1].data
     case Begin(xid) => CurTxn(before).None? && xid.Some?
     case Finish => CurTxn(before).Some?
     case Row(_) => CurTxn(before).Some?
     case Other => true)
  }

  /** How many records precede the open transaction. */
  ghost function OpenAt(ls: seq<Line>): nat {
    if ls == [] then 0
    else match ls[|ls| - 1].data
      case Begin(_) => |Captured(ls[..|ls| - 1])|
      case Finish => |Captured(ls[..|ls| - 1])|
      case _ => OpenAt(ls[..|ls| - 1])
  }

  /** No two neighbouring transactions with captured records share an id. */
  ghost predicate IdsAlternate(ls: seq<Line>) {
    ls == [] ||
    (var before := ls[..|ls| - 1];
     && IdsAlternate(before)
     && (ls[|ls| - 1].data.Finish? && CurTxn(before).Some? && OpenAt(before) < |Captured(before)| ==>
           OtherTag(Captured(before)[..OpenAt(before)], CurTxn(before).value)))
  }

  /** The records of the open transaction: tagged with its id, not terminated yet. */
  ghost predicate OpenGroup(rs: seq<Record>, from: nat, xid: Option<int>, last: Option<nat>) {
    && from <= |rs|
    && (xid.None? ==> from == |rs|)
    && (forall i :: from <= i < |rs| ==> rs[i].txnId == xid && !rs[i].txnEnd)
    && last == if from < |rs| then Some(|rs| - 1) else None
  }

  /** The finished records, which form a stream of whole transactions exactly if `alternate`, and the
      open group behind them. */
  ghost predicate Shaped(rs: seq<Record>, from: nat, xid: Option<int>, last: Option<nat>, alternate: bool) {
    OpenGroup(rs, from, xid, last) && Closed(rs[..from]) && (TxnStream(rs[..from]) <==> alternate)
  }

  /** Finished records form a stream of whole transactions exactly when ids alternate. */
  lemma {:induction false} WholeTransactions(ls: seq<Line>)
    requires Bracketed(ls)
    ensures Shaped(Captured(ls), OpenAt(ls), CurTxn(ls), LastOfTxn(ls), IdsAlternate(ls))
  {
    if ls != [] {
      var before, line := ls[..|ls| - 1], ls[|ls| - 1];
      BracketedNext(ls);
      OpenNext(ls);
      hide *;
      LastLine(ls);
      Next(before, line);
      WholeTransactions(before);
      var rs, k, xid, alt := Captured(before), OpenAt(before), CurTxn(before), IdsAlternate(before);
      if line.data.Begin? {
        ShapedBegin(rs, k, LastOfTxn(before), alt, line.data.xid);
      } else if line.data.Finish? {
        ShapedFinish(rs, k, xid, LastOfTxn(before), alt);
      } else if line.data.Row? {
        ShapedRow(rs, k, xid, LastOfTxn(before), alt, Numbered(line.data.r, xid, Bases(before), line.lsn));
        NumberedTag(line.data.r, xid, Bases(before), line.lsn);
      }
    } else {
      assert Captured(ls)[..OpenAt(ls)] == [];
    }
  }

  lemma BracketedNext(ls: seq<Line>)
    requires ls != [] && Bracketed(ls)
    ensures var before, d := ls[..|ls| - 1], ls[|ls| - 1].data;
            && Bracketed(before)
            && (d.Begin? ==> CurTxn(before).None? && d.xid.Some?)
            && (d.Finish? || d.Row? ==> CurTxn(before).Some?)
  {
  }

  lemma OpenNext(ls: seq<Line>)
    requires ls != [] && Bracketed(ls)
    ensures var before, d := ls[..|ls| - 1], ls[|ls| - 1].data;
            && OpenAt(ls) == (if d.Begin? || d.Finish? then |Captured(before)| else OpenAt(before))
            && (IdsAlternate(ls) <==>
                  IdsAlternate(before) &&
                  (d.Finish? && OpenAt(before) < |Captured(before)| ==>
                     CurTxn(before).Some? && OtherTag(Captured(before)[..OpenAt(before)], CurTxn(before).value)))
  {
    hide Captured, OtherTag;
    BracketedNext(ls);
    WellOpen(ls[..|ls| - 1]);
  }

  lemma {:induction false} WellOpen(ls: seq<Line>)
    ensures OpenAt(ls) <= |Captured(ls)|
  {
    if ls != [] {
      WellOpen(ls[..|ls| - 1]);
    }
  }

  lemma NumberedTag(r: Record, xid: Option<int>, before: seq<Option<int>>, base: Option<int>)
    ensures Numbered(r, xid, before, base).txnId == xid && !Numbered(r, xid, before, base).txnEnd
  {
  }

  lemma ShapedBegin(rs: seq<Record>, k: nat, last: Option<nat>, alt: bool, xid: Option<int>)
    requires Shaped(rs, k, None, last, alt)
    ensures Shaped(rs, |rs|, xid, None, alt)
  {
    assert rs[..|rs|] == rs[..k];
  }

  lemma ShapedRow(rs: seq<Record>, k: nat, xid: Option<int>, last: Option<nat>, alt: bool, r: Record)
    requires Shaped(rs, k, xid, last, alt) && xid.Some? && r.txnId == xid && !r.txnEnd
    ensures Shaped(rs + [r], k, xid, Some(|rs|), alt)
  {
    hide TxnStream, Closed;
    assert (rs + [r])[..k] == rs[..k];
  }

  lemma ShapedFinish(rs: seq<Record>, k: nat, xid: Option<int>, last: Option<nat>, alt: bool)
    requires Shaped(rs, k, xid, last, alt) && xid.Some?
    ensures k <= |rs|
    ensures Shaped(Mark(rs, last), |rs|, None, None, alt && (k < |rs| ==> OtherTag(rs[..k], xid.value)))
  {
    FinishGroup(rs, k, xid.value);
    var out := Mark(rs, last);
    assert out[..|rs|] == out;
  }

  /** Terminating the open group adds it as one transaction. */
  lemma FinishGroup(rs: seq<Record>, k: nat, xid: int)
    requires OpenGroup(rs, k, Some(xid), if k < |rs| then Some(|rs| - 1) else None) && Closed(rs[..k])
    ensures var out := Mark(rs, if k < |rs| then Some(|rs| - 1) else None);
            && Closed(out)
            && (TxnStream(out) <==> TxnStream(rs[..k]) && (k < |rs| ==> OtherTag(rs[..k], xid)))
  {
    MarkIsTag(rs, k, xid);
    hide *;
    AddTxn(rs[..k], rs[k..], xid);
  }

  /** Marking the last row of an open group completes its tags. */
  lemma MarkIsTag(rs: seq<Record>, k: nat, xid: int)
    requires OpenGroup(rs, k, Some(xid), if k < |rs| then Some(|rs| - 1) else None)
    ensures Mark(rs, if k < |rs| then Some(|rs| - 1) else None) == rs[..k] + Tag(rs[k..], Some(xid))
  {
  }

  // ---------------------------------------------------------------- positions

  ghost predicate BasesUp(bases: seq<Option<int>>) {
    && (forall i :: 0 <= i < |bases| ==> bases[i].Some?)
    && (forall i, j :: 0 <= i < j < |bases| ==> bases[i].value <= bases[j].value)
  }

  /** Positions strictly increase exactly when the LSNs never step back. */
  lemma KeysUpExactly(ls: seq<Line>)
    ensures KeysUp(Captured(ls)) <==> BasesUp(Bases(ls))
  {
    CapturedShape(ls);
    var rs, bases := Captured(ls), Bases(ls);
    forall i | 0 <= i < |rs|
      ensures PosKey(rs[i].pos) == if bases[i].Some? then Some((bases[i].value, Count(bases[..i], bases[i]))) else None
    {
    }
    if BasesUp(bases) {
      forall i, j | 0 <= i < j < |rs| ensures KeyBefore(KeyIn(rs[i]), KeyIn(rs[j])) {
        if bases[i] == bases[j] {
          CountGrows(bases, i, j);
        }
      }
    }
    if KeysUp(rs) {
      forall i, j | 0 <= i < j < |bases| ensures bases[i].Some? && bases[j].Some? && bases[i].value <= bases[j].value {
        assert KeyBefore(KeyIn(rs[i]), KeyIn(rs[j]));
      }
      forall i | 0 <= i < |bases| ensures bases[i].Some? { var r := rs[i]; }
    }
  }

  // ---------------------------------------------------------------- interleaved transactions

  /** The lines of a transaction with one change at LSN `lsn`, committed at `end`. */
  function OneChange(xid: int, r: Record, lsn: int, end: int): seq<Line> {
    [Line(Some(lsn), Begin(Some(xid))), Line(Some(lsn), Row(r)), Line(Some(end), Finish)]
  }

  lemma OneChangeCaptured(xid: int, r: Record, lsn: int, end: int)
    ensures Captured(OneChange(xid, r, lsn, end)) == [r.(txnId := Some(xid), txnEnd := true, pos := Plain(lsn))]
    ensures LastLsn(OneChange(xid, r, lsn, end)) == Some(end)
  {
    var ls := OneChange(xid, r, lsn, end);
    NoLines();
    hide Captured, Bases, CurTxn, LastOfTxn, LastLsn, Numbered;
    assert [] + [ls[0]] == [ls[0]] && [ls[0]] + [ls[1]] == [ls[0], ls[1]] && [ls[0], ls[1]] + [ls[2]] == ls;
    Next([], ls[0]);
    Next([ls[0]], ls[1]);
    Next([ls[0], ls[1]], ls[2]);
    FirstPosition(r, xid, lsn);
  }

  lemma FirstPosition(r: Record, xid: int, lsn: int)
    ensures Numbered(r, Some(xid), [], Some(lsn)) == r.(txnId := Some(xid), txnEnd := false, pos := Plain(lsn))
  {
  }

  /** Two transactions interleave: `late` changes its row first but commits last.  A peek between the
      commits returns `early` alone, with the higher LSN; it is trailed and the slot advances.  The next
      peek returns `late`, whose LSN lies below the trail tail, up to a coordinate beyond it; the window is
      open for every peek.  So the change is dropped, though the trail lacks it. */
  lemma InterleavedLost(early: Record, late: Record, x: int, y: int, low: int, high: int, end: int, last: int)
    requires 0 <= low < high <= end < last
    ensures var trailed := Captured(OneChange(x, early, high, end));
            var captured := Captured(OneChange(y, late, low, last));
            && |trailed| == 1 && PosKey(trailed[0].pos) == Some((high, 0))
            && LastLsn(OneChange(y, late, low, last)) == Some(last)
            && Deduped(captured, Some((0, 0)), PosKey(trailed[0].pos)) == []
            && Missing(captured, trailed) == captured != []
  {
    OneChangeCaptured(x, early, high, end);
    OneChangeCaptured(y, late, low, last);
    var trailed := Captured(OneChange(x, early, high, end));
    var captured := Captured(OneChange(y, late, low, last));
    hide Captured, LastLsn;
    assert captured[0] !in trailed by { assert captured[0].pos != trailed[0].pos; }
    NoneTrailed(captured, trailed);
    RemainingNone(captured, (high, 0));
  }

  // ---------------------------------------------------------------- peeks that follow each other

  ghost predicate SharedBase(a: seq<Option<int>>, b: seq<Option<int>>) {
    exists i, j :: 0 <= i < |a| && 0 <= j < |b| && a[i].Some? && a[i] == b[j]
  }

  /** `rs` with its positions counted behind the records at `before`. */
  function Behind(before: seq<Option<int>>, bases: seq<Option<int>>, rs: seq<Record>): (out: seq<Record>)
    requires |bases| == |rs|
    ensures |out| == |rs|
    ensures forall i :: 0 <= i < |rs| ==> out[i] == rs[i].(pos := PosAt(before + bases[..i], bases[i]))
  {
    seq(|rs|, i requires 0 <= i < |rs| => rs[i].(pos := PosAt(before + bases[..i], bases[i])))
  }

  /** One peek over two stretches against a peek of each. */
  ghost predicate Meets(a: seq<Line>, b: seq<Line>) {
    && |Captured(b)| == |Bases(b)|
    && Bases(a + b) == Bases(a) + Bases(b)
    && CurTxn(a + b) == CurTxn(b)
    && LastOfTxn(a + b) == (if LastOfTxn(b).Some? then Some(|Captured(a)| + LastOfTxn(b).value) else None)
    && Captured(a + b) == Captured(a) + Behind(Bases(a), Bases(b), Captured(b))
  }

  lemma {:induction false} PeekConcat(a: seq<Line>, b: seq<Line>)
    requires CurTxn(a).None? && LastOfTxn(a).None?
    ensures Meets(a, b)
  {
    if b == [] {
      assert a + b == a;
    } else {
      hide *;
      LastLine(b);
      PeekConcat(a, b[..|b| - 1]);
      PeekNext(a, b[..|b| - 1], b[|b| - 1]);
    }
  }

  lemma PeekNext(a: seq<Line>, b: seq<Line>, line: Line)
    requires Meets(a, b)
    ensures Meets(a, b + [line])
  {
    hide *;
    if line.data.Finish? {
      PeekFinish(a, b, line);
    } else if line.data.Row? {
      PeekRow(a, b, line);
    } else {
      PeekOther(a, b, line);
    }
  }

  lemma PeekFinish(a: seq<Line>, b: seq<Line>, line: Line)
    requires Meets(a, b) && line.data.Finish?
    ensures Meets(a, b + [line])
  {
    hide Captured, Bases, LastOfTxn, CurTxn, LastLsn, PosAt, Behind, Mark, Numbered;
    Associate(a, b, [line]);
    LastInside(b);
    Next(b, line);
    Next(a + b, line);
    BehindMark(Bases(a), Bases(b), Captured(b), LastOfTxn(b));
    MarkBehind(Captured(a), Behind(Bases(a), Bases(b), Captured(b)), LastOfTxn(b));
  }

  lemma PeekRow(a: seq<Line>, b: seq<Line>, line: Line)
    requires Meets(a, b) && line.data.Row?
    ensures Meets(a, b + [line])
  {
    hide Captured, Bases, LastOfTxn, CurTxn, LastLsn, PosAt, Behind, Mark, Numbered;
    Associate(a, b, [line]);
    Next(b, line);
    Next(a + b, line);
    var rs := Behind(Bases(a), Bases(b), Captured(b));
    BehindNext(Bases(a), Bases(b), Captured(b), line, CurTxn(b));
    Associate(Bases(a), Bases(b), [line.lsn]);
    Associate(Captured(a), rs, [Numbered(line.data.r, CurTxn(b), Bases(a) + Bases(b), line.lsn)]);
  }

  lemma PeekOther(a: seq<Line>, b: seq<Line>, line: Line)
    requires Meets(a, b) && !line.data.Row? && !line.data.Finish?
    ensures Meets(a, b + [line])
  {
    hide Captured, Bases, LastOfTxn, CurTxn, LastLsn, PosAt, Behind, Mark, Numbered;
    Associate(a, b, [line]);
    Next(b, line);
    Next(a + b, line);
  }

  lemma LastInside(ls: seq<Line>)
    ensures LastOfTxn(ls).Some? ==> LastOfTxn(ls).value < |Captured(ls)|
  {
    hide *;
    CapturedShape(ls);
  }

  lemma Associate<T>(a: seq<T>, b: seq<T>, c: seq<T>)
    ensures a + (b + c) == (a + b) + c
  {
  }

  lemma MarkBehind(a: seq<Record>, rs: seq<Record>, last: Option<nat>)
    requires last.Some? ==> last.value < |rs|
    ensures Mark(a + rs, if last.Some? then Some(|a| + last.value) else None) == a + Mark(rs, last)
  {
  }

  lemma BehindMark(before: seq<Option<int>>, bases: seq<Option<int>>, rs: seq<Record>, last: Option<nat>)
    requires |bases| == |rs|
    ensures Behind(before, bases, Mark(rs, last)) == Mark(Behind(before, bases, rs), last)
  {
    hide PosAt;
  }

  lemma BehindNext(before: seq<Option<int>>, bases: seq<Option<int>>, rs: seq<Record>, line: Line, xid: Option<int>)
    requires |bases| == |rs| && line.data.Row?
    ensures Behind(before, bases + [line.lsn], rs + [Numbered(line.data.r, xid, bases, line.lsn)]) ==
            Behind(before, bases, rs) + [Numbered(line.data.r, xid, before + bases, line.lsn)]
  {
    hide PosAt;
    assert forall i :: 0 <= i <= |bases| ==> (bases + [line.lsn])[..i] == bases[..i];
    assert bases[..|bases|] == bases;
  }

  lemma Renumbered(before: seq<Option<int>>, bases: seq<Option<int>>, i: nat)
    requires i < |bases|
    ensures PosAt(before + bases[..i], bases[i]) == PosAt(bases[..i], bases[i]) <==>
            bases[i].None? || bases[i] !in before
  {
    hide Count;
    CountConcat(before, bases[..i], bases[i]);
    CountIsMultiplicity(before, bases[i]);
  }

  /** Two peeks that meet between transactions return what one peek would exactly when they share
      no LSN: ordinals start over in every peek. */
  lemma PeeksCompose(a: seq<Line>, b: seq<Line>)
    requires CurTxn(a).None? && LastOfTxn(a).None?
    ensures Captured(a + b) == Captured(a) + Captured(b) <==> !SharedBase(Bases(a), Bases(b))
  {
    hide Captured, Bases, LastOfTxn, CurTxn, PosAt, Count;
    PeekConcat(a, b);
    CapturedShape(b);
    var rs, bases := Captured(b), Bases(b);
    var moved := Behind(Bases(a), bases, rs);
    forall i | 0 <= i < |rs| ensures rs[i] == moved[i] <==> bases[i].None? || bases[i] !in Bases(a) {
      Renumbered(Bases(a), bases, i);
    }
    assert Captured(a + b) == Captured(a) + rs <==> moved == rs by {
      assert forall s: seq<Record> :: (Captured(a) + s)[|Captured(a)|..] == s;
    }
    if SharedBase(Bases(a), bases) {
      var i, j :| 0 <= i < |Bases(a)| && 0 <= j < |bases| && Bases(a)[i].Some? && Bases(a)[i] == bases[j];
      assert rs[j] != moved[j];
    }
  }

  /** A record that is the first of its peek at some LSN has that LSN for its position. */
  lemma FirstAtLsn(ls: seq<Line>, i: nat, lsn: int)
    requires i < |Captured(ls)| && |Bases(ls)| == |Captured(ls)| && Bases(ls)[i] == Some(lsn)
    requires Some(lsn) !in Bases(ls)[..i]
    ensures Captured(ls)[i].pos == Plain(lsn)
  {
    CapturedShape(ls);
    CountIsMultiplicity(Bases(ls)[..i], Some(lsn));
  }

  /** Two peeks that share an LSN number its records alike.  If both start with a refused record there, the
      second is dropped without being recorded. */
  lemma PeeksShareLost(a: seq<Line>, b: seq<Line>, i: nat, j: nat, lsn: int)
    requires i < |Captured(a)| && |Bases(a)| == |Captured(a)| && Bases(a)[i] == Some(lsn)
    requires j < |Captured(b)| && |Bases(b)| == |Captured(b)| && Bases(b)[j] == Some(lsn)
    requires Some(lsn) !in Bases(a)[..i] && Some(lsn) !in Bases(b)[..j] && Captured(a)[i] != Captured(b)[j]
    ensures Poison.ParkAll([], [Captured(a)[i], Captured(b)[j]]) == [Captured(a)[i]]
  {
    FirstAtLsn(a, i, lsn);
    FirstAtLsn(b, j, lsn);
    Poison.SharedPositionLost(Captured(a)[i], Captured(b)[j], lsn);
  }
}
