/** The test_decoding field-list parser, and the printer it inverts. */
module FieldParser {

  const TOAST := "unchanged-toast-datum"

  // ---------------------------------------------------------------- scanning

  /** Slicing with bounds clamped to the string. */
  function Slice(s: string, a: nat, b: nat): string {
    if a <= b <= |s| then s[a..b] else if a <= |s| <= b then s[a..] else ""
  }

  /** The first index from `j` on that holds `c`, or the end. */
  function IndexFrom(s: string, j: nat, c: char): (e: nat)
    ensures e >= j && (j <= |s| ==> e <= |s|)
    decreases |s| - j
  {
    if j < |s| && s[j] != c then IndexFrom(s, j + 1, c) else j
  }

  function SkipSpaces(s: string, i: nat): (e: nat)
    ensures e >= i && (i <= |s| ==> e <= |s|)
    decreases |s| - i
  {
    if i < |s| && s[i] == ' ' then SkipSpaces(s, i + 1) else i
  }

  /** The index of the quote that closes a quoted run; a doubled quote does not close it. */
  function Closing(s: string, j: nat, q: char): (e: nat)
    ensures e >= j && (j <= |s| ==> e <= |s|)
    decreases |s| - j
  {
    if j >= |s| then j
    else if s[j] != q then Closing(s, j + 1, q)
    else if j + 1 < |s| && s[j + 1] == q then Closing(s, j + 2, q)
    else j
  }

  /** The text of a quoted run, with doubled quotes undone. */
  function Unquoted(s: string, j: nat, q: char): string
    decreases |s| - j
  {
    if j >= |s| then ""
    else if s[j] != q then [s[j]] + Unquoted(s, j + 1, q)
    else if j + 1 < |s| && s[j + 1] == q then [q] + Unquoted(s, j + 2, q)
    else ""
  }

  /** Undoes doubled double quotes, from the left. */
  function Undouble(t: string): string {
    if |t| >= 2 && t[0] == '"' && t[1] == '"' then ['"'] + Undouble(t[2..])
    else if t == "" then "" else [t[0]] + Undouble(t[1..])
  }

  /** The index of the bracket that brings the depth back to zero, or the end. */
  function TypeEnd(s: string, i: nat, depth: int): (e: nat)
    ensures e >= i && (i <= |s| ==> e <= |s|)
    decreases |s| - i
  {
    if i >= |s| then i
    else if s[i] == '[' then TypeEnd(s, i + 1, depth + 1)
    else if s[i] == ']' && depth == 1 then i
    else if s[i] == ']' then TypeEnd(s, i + 1, depth - 1)
    else TypeEnd(s, i + 1, depth)
  }

  // ---------------------------------------------------------------- one field

  /** A column as it stands in the list: `quoted` tells a quoted value from a bare token. */
  datatype Field = Field(name: string, typ: string, quoted: bool, text: string)

  datatype Step = Stop | Next(field: Field, at: nat)

  function NameAt(s: string, i: nat): (r: (string, nat))
    requires i < |s|
    ensures r.1 >= i
  {
    if s[i] == '"' then
      (Undouble(Slice(s, i + 1, Closing(s, i + 1, '"'))), Closing(s, i + 1, '"') + 1)
    else (s[i..IndexFrom(s, i, '[')], IndexFrom(s, i, '['))
  }

  function ValueAt(s: string, i: nat): (r: (bool, string, nat))
    ensures r.2 >= i
  {
    if i < |s| && s[i] == '\'' then (true, Unquoted(s, i + 1, '\''), Closing(s, i + 1, '\'') + 1)
    else (false, Slice(s, i, IndexFrom(s, i, ' ')), IndexFrom(s, i, ' '))
  }

  /** The field that starts at `i`; a name without a bracketed type ends the list. */
  function FieldAt(s: string, i: nat): (step: Step)
    requires i < |s|
    ensures step.Next? ==> step.at > i
  {
    var (name, k) := NameAt(s, i);
    if k >= |s| || s[k] != '[' then Stop
    else
      var e := TypeEnd(s, k, 0);
      var v := if e + 1 < |s| && s[e + 1] == ':' then e + 2 else e + 1;
      var (quoted, text, at) := ValueAt(s, v);
      Next(Field(name, Slice(s, k + 1, e), quoted, text), at)
  }

  /** A bare unchanged-TOAST sentinel leaves its column out. */
  function Add<V>(out: map<string, V>, f: Field, coerce: (string, bool, string) -> V): map<string, V> {
    if !f.quoted && f.text == TOAST then out else out[f.name := coerce(f.text, f.quoted, f.typ)]
  }

  function ParseFrom<V>(s: string, i: nat, coerce: (string, bool, string) -> V, out: map<string, V>): map<string, V>
    decreases |s| - i
  {
    if i >= |s| || SkipSpaces(s, i) >= |s| then out
    else match FieldAt(s, SkipSpaces(s, i))
      case Stop => out
      case Next(f, at) => ParseFrom(s, at, coerce, Add(out, f, coerce))
  }

  // ---------------------------------------------------------------- the parser

  method ReadQuoted(s: string, i: nat) returns (text: string, at: nat)
    requires i < |s|
    ensures text == Unquoted(s, i + 1, '\'') && at == Closing(s, i + 1, '\'') + 1
  {
    hide Closing, Unquoted;
    var j, buf := i + 1, "";
    while j < |s|
      invariant j <= |s|
      invariant buf + Unquoted(s, j, '\'') == Unquoted(s, i + 1, '\'')
      invariant Closing(s, j, '\'') == Closing(s, i + 1, '\'')
    {
      QuotedStep(s, j, '\'');
      if s[j] == '\'' {
        if j + 1 < |s| && s[j + 1] == '\'' {
          assert buf + ("'" + Unquoted(s, j + 2, '\'')) == (buf + "'") + Unquoted(s, j + 2, '\'');
          buf := buf + "'";
          j := j + 2;
          continue;
        }
        break;
      }
      assert buf + ([s[j]] + Unquoted(s, j + 1, '\'')) == (buf + [s[j]]) + Unquoted(s, j + 1, '\'');
      buf := buf + [s[j]];
      j := j + 1;
    }
    QuotedStep(s, j, '\'');
    assert Unquoted(s, j, '\'') == "" && buf + "" == buf;
    text, at := buf, j + 1;
  }

  method ReadName(s: string, i: nat) returns (name: string, at: nat)
    requires i < |s|
    ensures (name, at) == NameAt(s, i)
  {
    var j;
    if s[i] == '"' {
      j := i + 1;
      while j < |s|
        invariant i < j <= |s| && Closing(s, j, '"') == Closing(s, i + 1, '"')
      {
        if s[j] == '"' {
          if j + 1 < |s| && s[j + 1] == '"' {
            j := j + 2;
            continue;
          }
          break;
        }
        j := j + 1;
      }
      name, at := Undouble(s[i + 1..j]), j + 1;
    } else {
      j := i;
      while j < |s| && s[j] != '['
        invariant i <= j <= |s| && IndexFrom(s, j, '[') == IndexFrom(s, i, '[')
      {
        j := j + 1;
      }
      name, at := s[i..j], j;
    }
  }

  method ReadType(s: string, k: nat) returns (e: nat)
    requires k < |s| && s[k] == '['
    ensures e == TypeEnd(s, k, 0)
  {
    var depth := 0;
    e := k;
    while e < |s|
      invariant k <= e <= |s| && TypeEnd(s, e, depth) == TypeEnd(s, k, 0)
    {
      if s[e] == '[' {
        depth := depth + 1;
      } else if s[e] == ']' {
        depth := depth - 1;
        if depth == 0 {
          break;
        }
      }
      e := e + 1;
    }
  }

  method ReadValue(s: string, i: nat) returns (quoted: bool, text: string, at: nat)
    ensures (quoted, text, at) == ValueAt(s, i)
  {
    if i < |s| && s[i] == '\'' {
      text, at := ReadQuoted(s, i);
      return true, text, at;
    }
    var j := i;
    while j < |s| && s[j] != ' '
      invariant i <= j && IndexFrom(s, j, ' ') == IndexFrom(s, i, ' ')
    {
      j := j + 1;
    }
    quoted, text, at := false, Slice(s, i, j), j;
  }

  /** Reads the field at `k`, if there is one. */
  method ReadField(s: string, k: nat) returns (step: Step)
    requires k < |s|
    ensures step == FieldAt(s, k)
  {
    hide NameAt, TypeEnd, ValueAt, Slice;
    var name, i := ReadName(s, k);
    if i >= |s| || s[i] != '[' {
      return Stop;
    }
    var e := ReadType(s, i);
    var typ := Slice(s, i + 1, e);
    i := e + 1;
    if i < |s| && s[i] == ':' {
      i := i + 1;
    }
    var quoted, text, at := ReadValue(s, i);
    step := Next(Field(name, typ, quoted, text), at);
  }

  /** Parses a field list; it ends on every string. */
  method ParseFields<V>(s: string, coerce: (string, bool, string) -> V) returns (out: map<string, V>)
    ensures out == ParseFrom(s, 0, coerce, map[])
  {
    hide FieldAt;
    out := map[];
    var i := 0;
    while i < |s|
      invariant ParseFrom(s, i, coerce, out) == ParseFrom(s, 0, coerce, map[])
      decreases |s| - i
    {
      ghost var start := i;
      while i < |s| && s[i] == ' '
        invariant start <= i <= |s| && SkipSpaces(s, i) == SkipSpaces(s, start)
      {
        i := i + 1;
      }
      if i >= |s| {
        break;
      }
      var step := ReadField(s, i);
      if step.Stop? {
        return;
      }
      var f := step.field;
      if f.quoted || f.text != TOAST {
        out := out[f.name := coerce(f.text, f.quoted, f.typ)];
      }
      i := step.at;
    }
  }

  // ---------------------------------------------------------------- the printer

  function Double(t: string, q: char): string {
    if t == "" then "" else (if t[0] == q then [q, q] else [t[0]]) + Double(t[1..], q)
  }

  /** How a name is spelled: quoted, or bare if it can be. */
  datatype Column = Column(field: Field, quotedName: bool)

  predicate Balanced(t: string, depth: nat) {
    if t == "" then depth == 0
    else if t[0] == '[' then Balanced(t[1..], depth + 1)
    else if t[0] == ']' then depth > 0 && Balanced(t[1..], depth - 1)
    else Balanced(t[1..], depth)
  }

  /** What the printer emits: a bare name has no bracket and does not start like a quoted one, types
      are balanced, a bare token has no space and does not start like a quoted value. */
  predicate Printable(c: Column) {
    && (!c.quotedName ==> '[' !in c.field.name && (c.field.name != "" ==> c.field.name[0] !in {'"', ' '}))
    && Balanced(c.field.typ, 0)
    && (!c.field.quoted ==> ' ' !in c.field.text && (c.field.text != "" ==> c.field.text[0] != '\''))
  }

  function PrintName(c: Column): string {
    if c.quotedName then ['"'] + Double(c.field.name, '"') + ['"'] else c.field.name
  }

  function PrintValue(f: Field): string {
    if f.quoted then ['\''] + Double(f.text, '\'') + ['\''] else f.text
  }

  function Print(c: Column): string {
    PrintName(c) + "[" + c.field.typ + "]:" + PrintValue(c.field)
  }

  function PrintAll(cs: seq<Column>): string {
    if cs == [] then ""
    else if |cs| == 1 then Print(cs[0])
    else Print(cs[0]) + " " + PrintAll(cs[1..])
  }

  // ---------------------------------------------------------------- round trip

  lemma {:induction false} UndoubleDouble(t: string)
    ensures Undouble(Double(t, '"')) == t
  {
    if t != "" {
      UndoubleDouble(t[1..]);
      var d := Double(t, '"');
      if t[0] == '"' {
        assert d[2..] == Double(t[1..], '"');
      } else {
        assert d[1..] == Double(t[1..], '"');
      }
    }
  }

  /** `p` stands at index `i` of `s`. */
  ghost predicate At(s: string, i: nat, p: string) {
    i + |p| <= |s| && s[i..i + |p|] == p
  }

  lemma AtSplit(s: string, i: nat, a: string, b: string)
    requires At(s, i, a + b)
    ensures At(s, i, a) && At(s, i + |a|, b)
  {
    assert s[i..i + |a|] == s[i..i + |a + b|][..|a|] == a;
    assert s[i + |a|..i + |a + b|] == s[i..i + |a + b|][|a|..] == b;
  }

  lemma AtChar(s: string, i: nat, p: string, k: nat)
    requires At(s, i, p) && k < |p|
    ensures i + k < |s| && s[i + k] == p[k]
  {
    assert s[i + k] == s[i..i + |p|][k];
  }

  /** A quoted run that was printed is read back up to its closing quote. */
  lemma {:induction false} QuotedRun(s: string, j: nat, t: string, q: char)
    requires At(s, j, Double(t, q) + [q])
    requires j + |Double(t, q)| + 1 < |s| ==> s[j + |Double(t, q)| + 1] != q
    ensures Closing(s, j, q) == j + |Double(t, q)| && Unquoted(s, j, q) == t
    decreases |t|
  {
    hide At, Double, Closing, Unquoted;
    QuotedStep(s, j, q);
    if t == "" {
      DoubleNone(q);
      AtChar(s, j, [q], 0);
    } else {
      DoubleStep(t, q);
      var head, rest := if t[0] == q then [q, q] else [t[0]], Double(t[1..], q) + [q];
      AtSplit(s, j, head, rest);
      AtChar(s, j, head, 0);
      if t[0] == q { AtChar(s, j, head, 1); }
      QuotedRun(s, j + |head|, t[1..], q);
    }
  }

  lemma QuotedStep(s: string, j: nat, q: char)
    ensures j < |s| && s[j] != q ==>
              Closing(s, j, q) == Closing(s, j + 1, q) && Unquoted(s, j, q) == [s[j]] + Unquoted(s, j + 1, q)
    ensures j + 1 < |s| && s[j] == q && s[j + 1] == q ==>
              Closing(s, j, q) == Closing(s, j + 2, q) && Unquoted(s, j, q) == [q] + Unquoted(s, j + 2, q)
    ensures j < |s| && s[j] == q && (j + 1 < |s| ==> s[j + 1] != q) ==>
              Closing(s, j, q) == j && Unquoted(s, j, q) == ""
    ensures j >= |s| ==> Closing(s, j, q) == j && Unquoted(s, j, q) == ""
  {
  }

  lemma DoubleNone(q: char)
    ensures Double("", q) == "" && Double("", q) + [q] == [q]
  {
  }

  lemma DoubleStep(t: string, q: char)
    requires t != ""
    ensures var head := if t[0] == q then [q, q] else [t[0]];
            Double(t, q) == head + Double(t[1..], q) && Double(t, q) + [q] == head + (Double(t[1..], q) + [q])
  {
  }

  lemma {:induction false} PlainRun(s: string, j: nat, t: string, c: char)
    requires At(s, j, t) && c !in t && (j + |t| < |s| ==> s[j + |t|] == c)
    ensures IndexFrom(s, j, c) == j + |t|
    decreases |t|
  {
    if t != "" {
      AtChar(s, j, t, 0);
      assert t == [t[0]] + t[1..];
      AtSplit(s, j, [t[0]], t[1..]);
      PlainRun(s, j + 1, t[1..], c);
    }
  }

  lemma {:induction false} TypeRun(s: string, i: nat, t: string, depth: nat)
    requires At(s, i, t) && i + |t| < |s| && s[i + |t|] == ']' && Balanced(t, depth)
    ensures TypeEnd(s, i, depth as int + 1) == i + |t|
    decreases |t|
  {
    if t != "" {
      AtChar(s, i, t, 0);
      assert t == [t[0]] + t[1..];
      AtSplit(s, i, [t[0]], t[1..]);
      TypeRun(s, i + 1, t[1..], if t[0] == '[' then depth + 1 else if t[0] == ']' then depth - 1 else depth);
    }
  }

  lemma NameBack(s: string, i: nat, c: Column)
    requires Printable(c) && At(s, i, PrintName(c) + "[")
    ensures NameAt(s, i) == (c.field.name, i + |PrintName(c)|)
  {
    hide At, NameAt, Double, Balanced;
    if c.quotedName {
      QuotedNameBack(s, i, c.field.name, Double(c.field.name, '"'));
    } else {
      PlainNameBack(s, i, c.field.name);
    }
  }

  lemma QuotedNameBack(s: string, i: nat, name: string, d: string)
    requires d == Double(name, '"') && At(s, i, (['"'] + d + ['"']) + "[")
    ensures NameAt(s, i) == (name, i + |(['"'] + d + ['"'])|)
  {
    hide At, Double, Undouble, Closing, Unquoted, Slice;
    QuotedParts(s, i, d);
    QuotedRun(s, i + 1, name, '"');
    AtSlice(s, i + 1, d);
    UndoubleDouble(name);
  }

  /** A quoted piece is its quotes and what is between them. */
  lemma QuotedParts(s: string, i: nat, d: string)
    requires At(s, i, (['"'] + d + ['"']) + "[")
    ensures i + |d| + 2 < |s| && s[i] == '"' && s[i + |d| + 2] == '['
    ensures At(s, i + 1, d + ['"']) && At(s, i + 1, d)
  {
    hide At;
    assert (['"'] + d + ['"']) + "[" == ['"'] + ((d + ['"']) + "[");
    AtSplit(s, i, ['"'], (d + ['"']) + "[");
    AtSplit(s, i + 1, d + ['"'], "[");
    AtSplit(s, i + 1, d, ['"']);
    AtChar(s, i, ['"'], 0);
    AtChar(s, i + |d| + 2, "[", 0);
  }

  lemma PlainNameBack(s: string, i: nat, name: string)
    requires At(s, i, name + "[") && '[' !in name && (name != "" ==> name[0] != '"')
    ensures NameAt(s, i) == (name, i + |name|)
  {
    hide At;
    AtSplit(s, i, name, "[");
    AtChar(s, i + |name|, "[", 0);
    AtChar(s, i, name + "[", 0);
    PlainRun(s, i, name, '[');
    AtSlice(s, i, name);
  }

  lemma AtSlice(s: string, i: nat, p: string)
    requires At(s, i, p)
    ensures Slice(s, i, i + |p|) == p && i + |p| <= |s| && s[i..i + |p|] == p
  {
  }

  lemma ValueBack(s: string, i: nat, f: Field)
    requires !f.quoted ==> ' ' !in f.text && (f.text != "" ==> f.text[0] != '\'')
    requires At(s, i, PrintValue(f)) && (i + |PrintValue(f)| < |s| ==> s[i + |PrintValue(f)|] == ' ')
    ensures ValueAt(s, i) == (f.quoted, f.text, i + |PrintValue(f)|)
  {
    hide At, Double, Closing, Unquoted, Slice;
    if f.quoted {
      QuotedValueBack(s, i, f);
    } else {
      PlainValueBack(s, i, f);
    }
  }

  lemma QuotedValueBack(s: string, i: nat, f: Field)
    requires f.quoted && At(s, i, PrintValue(f))
    requires i + |PrintValue(f)| < |s| ==> s[i + |PrintValue(f)|] == ' '
    ensures ValueAt(s, i) == (true, f.text, i + |PrintValue(f)|)
  {
    hide At, Double, Closing, Unquoted, Slice;
    var d := Double(f.text, '\'');
    assert PrintValue(f) == ['\''] + (d + ['\'']);
    AtSplit(s, i, ['\''], d + ['\'']);
    AtChar(s, i, ['\''], 0);
    QuotedRun(s, i + 1, f.text, '\'');
  }

  lemma PlainValueBack(s: string, i: nat, f: Field)
    requires !f.quoted && ' ' !in f.text && (f.text != "" ==> f.text[0] != '\'')
    requires At(s, i, PrintValue(f)) && (i + |PrintValue(f)| < |s| ==> s[i + |PrintValue(f)|] == ' ')
    ensures ValueAt(s, i) == (false, f.text, i + |PrintValue(f)|)
  {
    hide At, Closing, Unquoted;
    PlainRun(s, i, f.text, ' ');
    AtSlice(s, i, f.text);
    if f.text != "" { AtChar(s, i, f.text, 0); }
  }

  lemma TypeBack(s: string, i: nat, typ: string)
    requires Balanced(typ, 0) && At(s, i, "[" + (typ + "]"))
    ensures TypeEnd(s, i, 0) == i + 1 + |typ| && Slice(s, i + 1, i + 1 + |typ|) == typ
  {
    hide At, Slice, Balanced;
    AtSplit(s, i, "[", typ + "]");
    AtSplit(s, i + 1, typ, "]");
    AtChar(s, i, "[", 0);
    AtChar(s, i + 1 + |typ|, "]", 0);
    AtSlice(s, i + 1, typ);
    TypeRun(s, i + 1, typ, 0);
  }

  /** The parts of a printed column, where they stand. */
  /** The same characters, bracketed from the left and from the right. */
  lemma PrintSplit(name: string, typ: string, value: string)
    ensures name + "[" + typ + "]:" + value == name + (("[" + (typ + "]")) + (":" + value))
    ensures name + "[" + typ + "]:" + value == (name + "[") + (typ + "]:" + value)
  {
    hide *;
    var left := name + "[";
    assert (left + typ) + "]:" + value == left + (typ + "]:" + value);
    assert "]:" == "]" + ":";
    assert typ + "]:" + value == (typ + "]") + (":" + value);
    assert left + ((typ + "]") + (":" + value)) == name + (("[" + (typ + "]")) + (":" + value));
  }

  lemma PartsAt(s: string, i: nat, name: string, typ: string, value: string, all: string)
    requires At(s, i, all) && all == name + (typ + (":" + value))
    ensures At(s, i + |name|, typ) && At(s, i + |name| + |typ| + 1, value)
    ensures i + |name| + |typ| < |s| && s[i + |name| + |typ|] == ':'
  {
    hide At;
    AtSplit(s, i, name, typ + (":" + value));
    AtSplit(s, i + |name|, typ, ":" + value);
    AtSplit(s, i + |name| + |typ|, ":", value);
    AtChar(s, i + |name| + |typ|, ":", 0);
  }

  lemma FieldParts(s: string, i: nat, c: Column)
    requires At(s, i, Print(c))
    ensures var k := i + |PrintName(c)|;
            && At(s, i, PrintName(c) + "[") && At(s, k, "[" + (c.field.typ + "]"))
            && k + |c.field.typ| + 2 < |s| && s[k + |c.field.typ| + 2] == ':'
            && At(s, k + |c.field.typ| + 3, PrintValue(c.field))
            && k + |c.field.typ| + 3 + |PrintValue(c.field)| == i + |Print(c)|
  {
    hide At, PrintName, PrintValue;
    var name, typ, value := PrintName(c), c.field.typ, PrintValue(c.field);
    PrintSplit(name, typ, value);
    PartsAt(s, i, name, "[" + (typ + "]"), value, Print(c));
    AtSplit(s, i, name + "[", typ + "]:" + value);
  }

  /** A printed column is read back, and the reader stops right behind it. */
  lemma FieldBack(s: string, i: nat, c: Column)
    requires Printable(c) && At(s, i, Print(c)) && (i + |Print(c)| < |s| ==> s[i + |Print(c)|] == ' ')
    ensures i < |s| && FieldAt(s, i) == Next(c.field, i + |Print(c)|)
  {
    hide Print, PrintName, PrintValue, TypeEnd, NameAt, ValueAt, Balanced, At, Slice;
    var k := i + |PrintName(c)|;
    FieldParts(s, i, c);
    AtChar(s, k, "[" + (c.field.typ + "]"), 0);
    NameBack(s, i, c);
    TypeBack(s, k, c.field.typ);
    ValueBack(s, k + |c.field.typ| + 3, c.field);
  }

  /** The columns of the list, one after the other. */
  function Expected<V>(cs: seq<Column>, coerce: (string, bool, string) -> V, out: map<string, V>): map<string, V> {
    if cs == [] then out else Expected(cs[1..], coerce, Add(out, cs[0].field, coerce))
  }

  ghost predicate AllPrintable(cs: seq<Column>) {
    forall i :: 0 <= i < |cs| ==> Printable(cs[i])
  }

  lemma TailPrintable(cs: seq<Column>)
    requires AllPrintable(cs) && cs != []
    ensures Printable(cs[0]) && AllPrintable(cs[1..])
  {
  }

  /** The list is what remains of `s` from `i` on. */
  ghost predicate Rest(s: string, i: nat, cs: seq<Column>) {
    i <= |s| && s[i..] == PrintAll(cs)
  }

  lemma RestIs(s: string, i: nat, cs: seq<Column>)
    ensures Rest(s, i, cs) <==> i <= |s| && s[i..] == PrintAll(cs)
  {
  }

  lemma RestNone(s: string, i: nat)
    requires Rest(s, i, [])
    ensures i >= |s|
  {
  }

  lemma {:induction false} ParsePrinted<V>(s: string, i: nat, cs: seq<Column>, coerce: (string, bool, string) -> V,
                                           out: map<string, V>)
    requires AllPrintable(cs) && Rest(s, i, cs)
    ensures ParseFrom(s, i, coerce, out) == Expected(cs, coerce, out)
    decreases |cs|
  {
    if cs != [] {
      TailPrintable(cs);
      ExpectedNext(cs, coerce, out);
      hide *;
      var at := ParseFirst(s, i, cs, coerce, out);
      ParsePrinted(s, at, cs[1..], coerce, Add(out, cs[0].field, coerce));
    } else {
      RestNone(s, i);
      ParseEnd(s, i, coerce, out);
      ExpectedNext(cs, coerce, out);
    }
  }

  /** Parsing takes the first column and goes on behind it. */
  lemma ParseFirst<V>(s: string, i: nat, cs: seq<Column>, coerce: (string, bool, string) -> V, out: map<string, V>)
    returns (at: nat)
    requires cs != [] && Printable(cs[0]) && Rest(s, i, cs)
    ensures Rest(s, at, cs[1..])
    ensures ParseFrom(s, i, coerce, out) == ParseFrom(s, at, coerce, Add(out, cs[0].field, coerce))
  {
    hide *;
    var f, end := cs[0].field, i + |Print(cs[0])|;
    NextColumn(s, i, cs);
    FieldBack(s, i, cs[0]);
    ParseNext(s, i, f, end, coerce, out);
    if |cs| == 1 {
      NothingRests(s, cs);
      at := |s|;
    } else {
      AfterSpace(s, end, coerce, Add(out, f, coerce));
      at := end + 1;
    }
  }

  lemma NothingRests(s: string, cs: seq<Column>)
    requires |cs| == 1
    ensures Rest(s, |s|, cs[1..])
  {
  }

  lemma NextColumn(s: string, i: nat, cs: seq<Column>)
    requires cs != [] && Rest(s, i, cs) && Printable(cs[0])
    ensures var at := i + |Print(cs[0])|;
            && At(s, i, Print(cs[0])) && at > i && i < |s| && s[i] != ' '
            && (if |cs| == 1 then at == |s| else at < |s| && s[at] == ' ' && Rest(s, at + 1, cs[1..]))
  {
    PrintSome(cs);
    NotSpace(cs[0]);
    RestIs(s, i, cs);
    hide *;
    if |cs| == 1 {
      EndsList(s, i, Print(cs[0]));
    } else {
      GoesOn(s, i, Print(cs[0]), PrintAll(cs[1..]));
      RestIs(s, i + |Print(cs[0])| + 1, cs[1..]);
    }
  }

  lemma EndsList(s: string, i: nat, p: string)
    requires i <= |s| && s[i..] == p + "" && p != ""
    ensures At(s, i, p) && i + |p| == |s| && s[i] == p[0]
  {
    assert p + "" == p;
    Standing(s, i, p);
    AtChar(s, i, p, 0);
  }

  lemma GoesOn(s: string, i: nat, p: string, rest: string)
    requires i <= |s| && s[i..] == p + (" " + rest) && p != ""
    ensures At(s, i, p) && i + |p| < |s| && s[i] == p[0] && s[i + |p|] == ' ' && s[i + |p| + 1..] == rest
  {
    Standing(s, i, p + (" " + rest));
    hide At;
    AtSplit(s, i, p, " " + rest);
    AtChar(s, i, p, 0);
    AtChar(s, i + |p|, " " + rest, 0);
    assert p + (" " + rest) == (p + " ") + rest;
    Ending(s, i, p + " ", rest);
  }

  lemma PrintSome(cs: seq<Column>)
    requires cs != []
    ensures PrintAll(cs) == Print(cs[0]) + if |cs| == 1 then "" else " " + PrintAll(cs[1..])
  {
  }

  lemma Standing(s: string, i: nat, p: string)
    requires i <= |s| && s[i..] == p
    ensures At(s, i, p) && i + |p| == |s|
  {
    assert s[i..i + |p|] == s[i..];
  }

  lemma Ending(s: string, i: nat, a: string, b: string)
    requires i <= |s| && s[i..] == a + b
    ensures i + |a| <= |s| && s[i + |a|..] == b
  {
    assert s[i..][|a|..] == s[i + |a|..];
  }

  lemma ExpectedNext<V>(cs: seq<Column>, coerce: (string, bool, string) -> V, out: map<string, V>)
    ensures Expected(cs, coerce, out) ==
            if cs == [] then out else Expected(cs[1..], coerce, Add(out, cs[0].field, coerce))
  {
  }

  lemma NotSpace(c: Column)
    requires Printable(c)
    ensures Print(c) != "" && Print(c)[0] != ' '
  {
  }

  lemma ParseNext<V>(s: string, i: nat, f: Field, at: nat, coerce: (string, bool, string) -> V, out: map<string, V>)
    requires i < |s| && s[i] != ' ' && FieldAt(s, i) == Next(f, at)
    ensures ParseFrom(s, i, coerce, out) == ParseFrom(s, at, coerce, Add(out, f, coerce))
  {
    hide FieldAt, Add;
  }

  lemma ParseEnd<V>(s: string, i: nat, coerce: (string, bool, string) -> V, out: map<string, V>)
    ensures i >= |s| ==> ParseFrom(s, i, coerce, out) == out
  {
  }

  lemma AfterSpace<V>(s: string, i: nat, coerce: (string, bool, string) -> V, out: map<string, V>)
    requires i < |s| && s[i] == ' '
    ensures ParseFrom(s, i, coerce, out) == ParseFrom(s, i + 1, coerce, out)
  {
  }

  // ---------------------------------------------------------------- what comes back

  ghost predicate DistinctNames(cs: seq<Column>) {
    forall i, j :: 0 <= i < j < |cs| ==> cs[i].field.name != cs[j].field.name
  }

  predicate Omitted(f: Field) {
    !f.quoted && f.text == TOAST
  }

  lemma {:induction false} ExpectedExactly<V>(cs: seq<Column>, coerce: (string, bool, string) -> V, out: map<string,
                                              V>)
    requires DistinctNames(cs) && forall i :: 0 <= i < |cs| ==> cs[i].field.name !in out
    ensures forall i :: 0 <= i < |cs| ==>
              var f := cs[i].field;
              (f.name in Expected(cs, coerce, out) <==> !Omitted(f)) &&
              (!Omitted(f) ==> Expected(cs, coerce, out)[f.name] == coerce(f.text, f.quoted, f.typ))
    ensures forall n :: n in Expected(cs, coerce, out) ==>
              n in out || exists i :: 0 <= i < |cs| && cs[i].field.name == n
    ensures forall n :: n in out ==> n in Expected(cs, coerce, out) && Expected(cs, coerce, out)[n] == out[n]
    decreases |cs|
  {
    if cs != [] {
      hide Add;
      var next := Add(out, cs[0].field, coerce);
      AddExactly(out, cs[0].field, coerce);
      var rest := cs[1..];
      forall i | 0 <= i < |rest| ensures rest[i].field.name !in next {
        assert rest[i] == cs[i + 1];
      }
      ExpectedExactly(rest, coerce, next);
      forall i | 0 < i < |cs| ensures cs[i] == rest[i - 1] {
      }
    }
  }

  lemma AddExactly<V>(out: map<string, V>, f: Field, coerce: (string, bool, string) -> V)
    requires f.name !in out
    ensures Add(out, f, coerce) == if Omitted(f) then out else out[f.name := coerce(f.text, f.quoted, f.typ)]
  {
  }

  /** Parsing a printed list of distinct columns gives back every column with its coerced value, leaves
      out exactly the unchanged-TOAST ones, and invents none. */
  lemma RoundTrip<V>(cs: seq<Column>, coerce: (string, bool, string) -> V)
    requires DistinctNames(cs) && AllPrintable(cs)
    ensures var out := ParseFrom(PrintAll(cs), 0, coerce, map[]);
            && (forall i :: 0 <= i < |cs| ==>
                  var f := cs[i].field;
                  (f.name in out <==> !Omitted(f)) &&
                  (!Omitted(f) ==> out[f.name] == coerce(f.text, f.quoted, f.typ)))
            && (forall n :: n in out ==> exists i :: 0 <= i < |cs| && cs[i].field.name == n)
  {
    hide ParseFrom, PrintAll, Printable, Expected, AllPrintable;
    assert Rest(PrintAll(cs), 0, cs);
    ParsePrinted(PrintAll(cs), 0, cs, coerce, map[]);
    ExpectedExactly(cs, coerce, map[]);
  }
}
