/** Splitting a table into key-range chunks, and the two renderings of a chunk's range. */
module Chunks {
  import opened Records

  /** A half-open key range, or the whole table. */
  datatype Range = Whole | Between(lo: int, hi: int)

  /** A source row: its key - possibly fractional - and everything else. */
  datatype Row = Row(key: real, body: string)

  predicate In(c: Range, x: real) {
    c.Whole? || c.lo as real <= x < c.hi as real
  }

  function Min(a: int, b: int): int {
    if a < b then a else b
  }

  // ---------------------------------------------------------------- the planner

  /** The ranges from `start` on, `step` wide, the last one ending at `hi`. */
  function PlanFrom(start: int, hi: int, step: int): seq<Range>
    requires step > 0
    decreases hi + 1 - start
  {
    if start > hi then []
    else [Between(start, Min(start + step, hi + 1))] + PlanFrom(Min(start + step, hi + 1), hi, step)
  }

  /** How many pieces the planner aims for. */
  function Pieces(span: int, target: int): int {
    if Min(target, span) < 1 then 1 else Min(target, span)
  }

  function StepOf(span: int, target: int): int
    requires span > 0
  {
    (span + Pieces(span, target) - 1) / Pieces(span, target)
  }

  /** The chunks of a table: `bounds` are the integer bounds of its single-column key, if it has one
      and holds a row. */
  function PlanOf(bounds: Option<(int, int)>, target: int): seq<Range>
    requires bounds.Some? ==> bounds.value.0 <= bounds.value.1
  {
    if target > 1 && bounds.Some? then
      var (lo, hi) := bounds.value;
      StepFacts(hi - lo + 1, target);
      PlanFrom(lo, hi, StepOf(hi - lo + 1, target))
    else [Whole]
  }

  lemma StepFacts(span: int, target: int)
    requires span > 0
    ensures var n, step := Pieces(span, target), StepOf(span, target);
            step > 0 && 1 <= n && (target > 1 ==> n <= target) && span <= n * step < span + n
  {
    var n := Pieces(span, target);
    var q := span + n - 1;
    assert q == n * (q / n) + q % n;
    assert q / n > 0;
  }

  method ComputeChunks(bounds: Option<(int, int)>, target: int) returns (chunks: seq<Range>)
    requires bounds.Some? ==> bounds.value.0 <= bounds.value.1
    ensures chunks == PlanOf(bounds, target)
    ensures target > 1 && bounds.Some? ==> Even(chunks, bounds.value.0, bounds.value.1, target)
    ensures target <= 1 || bounds.None? ==> chunks == [Whole]
  {
    hide Even, StepOf;
    if target > 1 && bounds.Some? {
      var (lo, hi) := bounds.value;
      var span := hi - lo + 1;
      PlanPartitions(lo, hi, target);
      StepFacts(span, target);
      var step := StepOf(span, target);
      chunks := [];
      var start := lo;
      while start <= hi
        invariant lo <= start <= hi + 1
        invariant chunks + PlanFrom(start, hi, step) == PlanFrom(lo, hi, step)
        decreases hi + 1 - start
      {
        var end := Min(start + step, hi + 1);
        assert chunks + PlanFrom(start, hi, step) == chunks + [Between(start, end)] + PlanFrom(end, hi, step);
        chunks := chunks + [Between(start, end)];
        start := end;
      }
      return;
    }
    chunks := [Whole];
  }

  // ---------------------------------------------------------------- a partition

  /** The ranges join up without gap or overlap from `lo` to `end`, none empty, none wider than `step`. */
  ghost predicate Tiles(chunks: seq<Range>, lo: int, end: int, step: int) {
    && (forall i :: 0 <= i < |chunks| ==> chunks[i].Between? && chunks[i].lo < chunks[i].hi <= chunks[i].lo + step)
    && (forall i :: 0 <= i < |chunks| - 1 ==> chunks[i].hi == chunks[i + 1].lo)
    && (if chunks == [] then lo == end else chunks[0].lo == lo && chunks[|chunks| - 1].hi == end)
  }

  lemma {:induction false} PlanTiles(start: int, hi: int, step: int)
    requires step > 0 && start <= hi + 1
    ensures Tiles(PlanFrom(start, hi, step), start, hi + 1, step)
    ensures (|PlanFrom(start, hi, step)| - 1) * step < hi + 1 - start || start > hi
    decreases hi + 1 - start
  {
    if start <= hi {
      var end := Min(start + step, hi + 1);
      PlanTiles(end, hi, step);
      var rest := PlanFrom(end, hi, step);
      assert PlanFrom(start, hi, step) == [Between(start, end)] + rest;
      if end <= hi {
        assert |rest| * step == (|rest| - 1) * step + step;
      } else {
        assert rest == [];
      }
    }
  }

  /** An even split of the integers from `lo` to `hi` into at most `target` ranges, or one for each integer:
      every range but the last has one width, the last is no wider, and that width is the least with which
      so many ranges cover the span. */
  ghost predicate Even(chunks: seq<Range>, lo: int, hi: int, target: int) {
    EvenInto(chunks, lo, hi, if target < hi - lo + 1 then target else hi - lo + 1)
  }

  ghost predicate EvenInto(chunks: seq<Range>, lo: int, hi: int, n: int) {
    && 1 <= |chunks| <= n
    && (forall i :: 0 <= i < |chunks| ==> chunks[i].Between? && chunks[i].lo < chunks[i].hi)
    && (forall i :: 0 <= i < |chunks| - 1 ==> chunks[i].hi == chunks[i + 1].lo)
    && chunks[0].lo == lo && chunks[|chunks| - 1].hi == hi + 1
    && (forall i :: 0 <= i < |chunks| - 1 ==> chunks[i].hi - chunks[i].lo == chunks[0].hi - lo)
    && chunks[|chunks| - 1].hi - chunks[|chunks| - 1].lo <= chunks[0].hi - lo
    && (chunks[0].hi - lo - 1) * n < hi - lo + 1 <= (chunks[0].hi - lo) * n
  }

  /** Every range but the last is a whole step wide. */
  lemma {:induction false} PlanWidth(start: int, hi: int, step: int, i: nat)
    requires step > 0 && i + 1 < |PlanFrom(start, hi, step)|
    ensures PlanFrom(start, hi, step)[i].Between?
    ensures PlanFrom(start, hi, step)[i].hi - PlanFrom(start, hi, step)[i].lo == step
    decreases i
  {
    var end := Min(start + step, hi + 1);
    var rest := PlanFrom(end, hi, step);
    assert PlanFrom(start, hi, step) == [Between(start, end)] + rest;
    assert end <= hi;
    if i > 0 {
      PlanWidth(end, hi, step, i - 1);
    }
  }

  lemma PlanWidths(lo: int, hi: int, step: int)
    requires 0 < step <= hi + 1 - lo
    ensures var plan := PlanFrom(lo, hi, step);
            && plan != [] && plan[0].Between? && plan[0].hi == lo + step
            && forall i :: 0 <= i < |plan| - 1 ==> plan[i].Between? && plan[i].hi - plan[i].lo == step
  {
    var plan := PlanFrom(lo, hi, step);
    forall i: nat | i < |plan| - 1 ensures plan[i].Between? && plan[i].hi - plan[i].lo == step {
      PlanWidth(lo, hi, step, i);
    }
  }

  /** Planned ranges are an even split. */
  lemma PlanPartitions(lo: int, hi: int, target: int)
    requires lo <= hi && target > 1
    ensures Even(PlanOf(Some((lo, hi)), target), lo, hi, target)
  {
    hide PlanFrom, StepOf, Pieces, Tiles, EvenInto;
    var span := hi - lo + 1;
    PlanTiled(lo, hi, target);
    StepFacts(span, target);
    PiecesAre(span, target);
    StepWithin(span, Pieces(span, target), StepOf(span, target));
    PlanWidths(lo, hi, StepOf(span, target));
    EvenPlan(PlanFrom(lo, hi, StepOf(span, target)), lo, hi, Pieces(span, target), StepOf(span, target));
  }

  lemma PiecesAre(span: int, target: int)
    requires span > 0 && target > 0
    ensures Pieces(span, target) == if target < span then target else span
  {
  }

  lemma EvenPlan(plan: seq<Range>, lo: int, hi: int, n: int, step: int)
    requires 1 <= |plan| <= n && Tiles(plan, lo, hi + 1, step) && step <= hi - lo + 1
    requires forall i :: 0 <= i < |plan| - 1 ==> plan[i].hi - plan[i].lo == step
    requires |plan| == 1 ==> plan[0].hi == lo + step
    requires hi - lo + 1 <= n * step < hi - lo + 1 + n
    ensures EvenInto(plan, lo, hi, n)
  {
    assert (step - 1) * n == n * step - n;
  }

  lemma StepWithin(span: int, n: int, step: int)
    requires 1 <= n && 1 <= span && n * step < span + n
    ensures step <= span
  {
    assert (span + 1) * n == span * n + n;
    Multiply(1, n, span);
    if step > span {
      Multiply(span + 1, step, n);
    }
  }

  /** At most as many ranges as aimed for, each at most a step wide. */
  lemma PlanTiled(lo: int, hi: int, target: int)
    requires lo <= hi && target > 1
    ensures var plan, span := PlanOf(Some((lo, hi)), target), hi - lo + 1;
            && 1 <= |plan| <= Pieces(span, target) <= target
            && Tiles(plan, lo, hi + 1, StepOf(span, target))
  {
    hide PlanFrom, Tiles, Pieces, StepOf;
    var span := hi - lo + 1;
    StepFacts(span, target);
    PlanTiles(lo, hi, StepOf(span, target));
    TilesStart(PlanFrom(lo, hi, StepOf(span, target)), lo, hi + 1, StepOf(span, target));
    CountWithin(|PlanFrom(lo, hi, StepOf(span, target))|, Pieces(span, target), StepOf(span, target), span);
  }

  lemma TilesStart(chunks: seq<Range>, lo: int, end: int, step: int)
    requires Tiles(chunks, lo, end, step) && lo < end
    ensures chunks != []
  {
  }

  lemma CountWithin(count: int, n: int, step: int, span: int)
    requires step > 0 && (count - 1) * step < span <= n * step
    ensures count <= n
  {
    if count > n {
      Multiply(n, count - 1, step);
    }
  }

  /** There is only one even split. */
  lemma OneEvenSplit(a: seq<Range>, b: seq<Range>, lo: int, hi: int, target: int)
    requires Even(a, lo, hi, target) && Even(b, lo, hi, target)
    ensures a == b
  {
    var n := if target < hi - lo + 1 then target else hi - lo + 1;
    var v := a[0].hi - lo;
    SameCeiling(hi - lo + 1, n, v, b[0].hi - lo);
    EvenStarts(a, lo, hi, n, |a| - 1);
    EvenStarts(b, lo, hi, n, |b| - 1);
    SameCount(|a| - 1, |b| - 1, v, hi + 1 - a[|a| - 1].lo, hi + 1 - b[|b| - 1].lo);
    forall i: nat | i < |a| ensures a[i] == b[i] {
      EvenStarts(a, lo, hi, n, i);
      EvenStarts(b, lo, hi, n, i);
    }
  }

  lemma SameCeiling(span: int, n: int, v: int, w: int)
    requires n > 0 && (v - 1) * n < span <= v * n && (w - 1) * n < span <= w * n
    ensures v == w
  {
    if v < w { Multiply(v, w - 1, n); }
    if w < v { Multiply(w, v - 1, n); }
  }

  /** Whole widths and a rest that is no wider come to one sum in one way. */
  lemma SameCount(i: int, j: int, w: int, x: int, y: int)
    requires w > 0 && 0 < x <= w && 0 < y <= w && i * w + x == j * w + y
    ensures i == j
  {
    assert (i + 1) * w == i * w + w && (j + 1) * w == j * w + w;
    if i < j { Multiply(i + 1, j, w); }
    if j < i { Multiply(j + 1, i, w); }
  }

  lemma {:induction false} EvenStarts(chunks: seq<Range>, lo: int, hi: int, n: int, i: nat)
    requires EvenInto(chunks, lo, hi, n) && i < |chunks|
    ensures chunks[i].lo == lo + i * (chunks[0].hi - lo)
  {
    if i > 0 {
      EvenStarts(chunks, lo, hi, n, i - 1);
      var w := chunks[0].hi - lo;
      assert i * w == (i - 1) * w + w;
    }
  }

  /** Only bounds make ranges. */
  lemma PlanShape(bounds: Option<(int, int)>, target: int)
    requires bounds.Some? ==> bounds.value.0 <= bounds.value.1
    ensures bounds.None? ==> PlanOf(bounds, target) == [Whole]
    ensures PlanOf(bounds, target) == [Whole]
            || forall i :: 0 <= i < |PlanOf(bounds, target)| ==> PlanOf(bounds, target)[i].Between?
  {
    if bounds.Some? && target > 1 {
      PlanTiled(bounds.value.0, bounds.value.1, target);
    }
  }

  lemma Multiply(a: int, b: int, c: int)
    requires a <= b && c >= 0
    ensures a * c <= b * c
  {
  }

  /** Tiles are ordered. */
  lemma {:induction false} TilesOrdered(chunks: seq<Range>, lo: int, end: int, step: int, i: nat, j: nat)
    requires Tiles(chunks, lo, end, step) && i < j < |chunks|
    ensures chunks[i].hi <= chunks[j].lo
    decreases j
  {
    if i < j - 1 {
      TilesOrdered(chunks, lo, end, step, i, j - 1);
    }
  }

  /** Every key between the bounds lies in exactly one tile. */
  lemma ExactlyOneTile(chunks: seq<Range>, lo: int, end: int, step: int, x: real) returns (i: nat)
    requires Tiles(chunks, lo, end, step) && lo as real <= x < end as real
    ensures i < |chunks| && In(chunks[i], x)
    ensures forall j :: 0 <= j < |chunks| && In(chunks[j], x) ==> j == i
  {
    i := 0;
    while chunks[i].hi as real <= x
      invariant i < |chunks| && chunks[i].lo as real <= x
      decreases |chunks| - i
    {
      assert i < |chunks| - 1;
      i := i + 1;
    }
    forall j | 0 <= j < |chunks| && In(chunks[j], x) ensures j == i {
      if i < j {
        TilesOrdered(chunks, lo, end, step, i, j);
      } else if j < i {
        TilesOrdered(chunks, lo, end, step, j, i);
      }
    }
  }

  // ---------------------------------------------------------------- plans and rows

  /** Every row is in exactly one chunk. */
  ghost predicate Partitions(plan: seq<Range>, rows: seq<Row>) {
    && (forall r :: r in rows ==> exists i :: 0 <= i < |plan| && In(plan[i], r.key))
    && (forall i, j, x :: 0 <= i < |plan| && 0 <= j < |plan| && In(plan[i], x) && In(plan[j], x) ==> i == j)
  }

  /** Integer bounds that hold every key, rounded down: of a non-empty table, those of its smallest and
      largest key, or wider ones. */
  ghost predicate FlooredBounds(rows: seq<Row>, lo: int, hi: int) {
    forall r :: r in rows ==> lo <= r.key.Floor <= hi
  }

  lemma RowWithin(rows: seq<Row>, lo: int, hi: int, r: Row)
    requires FlooredBounds(rows, lo, hi) && r in rows
    ensures lo as real <= r.key < (hi + 1) as real
  {
  }

  lemma TilesApart(plan: seq<Range>, lo: int, end: int, step: int)
    requires Tiles(plan, lo, end, step)
    ensures forall i, j, x :: 0 <= i < |plan| && 0 <= j < |plan| && In(plan[i], x) && In(plan[j], x) ==> i == j
  {
    forall i, j, x | 0 <= i < |plan| && 0 <= j < |plan| && In(plan[i], x) && In(plan[j], x) ensures i == j {
      if i < j {
        TilesOrdered(plan, lo, end, step, i, j);
      } else if j < i {
        TilesOrdered(plan, lo, end, step, j, i);
      }
    }
  }

  /** Planned from the rounded-down bounds, fractional keys included, every row is in exactly one
      chunk; so it is in the one whole-table chunk of a table that cannot be split. */
  lemma PlanCoversRows(rows: seq<Row>, bounds: Option<(int, int)>, target: int)
    requires bounds.Some? ==> bounds.value.0 <= bounds.value.1 && FlooredBounds(rows, bounds.value.0, bounds.value.1)
    ensures Partitions(PlanOf(bounds, target), rows)
  {
    var plan := PlanOf(bounds, target);
    if target > 1 && bounds.Some? {
      var (lo, hi) := bounds.value;
      var step := StepOf(hi - lo + 1, target);
      PlanTiled(lo, hi, target);
      hide PlanOf, FlooredBounds, StepOf, Tiles, In;
      forall r | r in rows ensures exists i :: 0 <= i < |plan| && In(plan[i], r.key) {
        RowWithin(rows, lo, hi, r);
        var i := ExactlyOneTile(plan, lo, hi + 1, step, r.key);
      }
      TilesApart(plan, lo, hi + 1, step);
    } else {
      assert forall r :: r in rows ==> In(plan[0], r.key);
    }
  }

  // ---------------------------------------------------------------- rendered ranges

  /** An identifier with its double quotes doubled. */
  function Escape(s: string): string {
    if s == "" then "" else Escape(s[..|s| - 1]) + if s[|s| - 1] == '"' then "\"\"" else [s[|s| - 1]]
  }

  function Quote(col: string): string {
    "\"" + Escape(col) + "\""
  }

  /** The recorded source predicate of a range, with its bounds already in decimal. */
  function SourceWhere(col: string, lo: string, hi: string): string {
    Quote(col) + " >= " + lo + " AND " + Quote(col) + " < " + hi
  }

  lemma {:induction false} EscapeInjective(a: string, b: string)
    requires Escape(a) == Escape(b)
    ensures a == b
  {
    if a == "" || b == "" {
      EscapeEmpty(a);
      EscapeEmpty(b);
    } else {
      var x, y := a[|a| - 1], b[|b| - 1];
      var ea, eb := Escape(a[..|a| - 1]), Escape(b[..|b| - 1]);
      assert Escape(a)[|Escape(a)| - 1] == x && Escape(b)[|Escape(b)| - 1] == y;
      var n := if x == '"' then 2 else 1;
      assert ea == Escape(a)[..|Escape(a)| - n] && eb == Escape(b)[..|Escape(b)| - n];
      EscapeInjective(a[..|a| - 1], b[..|b| - 1]);
      assert a == a[..|a| - 1] + [x] && b == b[..|b| - 1] + [y];
    }
  }

  lemma EscapeEmpty(a: string)
    ensures Escape(a) == "" <==> a == ""
  {
  }

  /** Re-rendering recorded bounds reproduces the recorded predicate exactly when the key column is
      the recorded one: the guard against a key that changed between runs is exact. */
  lemma RerenderedIffSameColumn(a: string, b: string, lo: string, hi: string)
    ensures SourceWhere(a, lo, hi) == SourceWhere(b, lo, hi) <==> a == b
  {
    hide *;
    WhereParts(a, lo, hi);
    WhereParts(b, lo, hi);
    if SourceWhere(a, lo, hi) == SourceWhere(b, lo, hi) {
      EscapeInjective(a, b);
    }
  }

  /** The column in a predicate, between its quotes. */
  lemma WhereParts(col: string, lo: string, hi: string)
    ensures |SourceWhere(col, lo, hi)| == 2 * |Escape(col)| + 16 + |lo| + |hi|
    ensures SourceWhere(col, lo, hi)[1..|Escape(col)| + 1] == Escape(col)
  {
    hide Escape;
  }
}
