/** Change records, table metadata and source positions: the values that flow from a
    source through the trail to the target. */
module Records {

  datatype Option<+T> = None | Some(value: T)

  /** A bound column value.  Only SQL NULL is distinguished; every other value is opaque. */
  datatype Value = Null | Text(s: string)

  /** A (partial) row image: column name to value. */
  type Image = map<string, Value>

  /** The values of the primary-key columns, in primary-key order. */
  type Key = seq<Value>

  datatype Op = Insert | Update | Delete

  /** A source position as a trail line carries it: absent, a bare coordinate, or a
      coordinate with the record's ordinal at it.  Malformed stands for any other value. */
  datatype SourcePos = Absent | Plain(at: int) | Compound(base: int, ord: int) | Malformed

  datatype Record = Record(
    op: Op,
    table: string,
    key: Image,
    after: Image,
    beforeKey: Image,
    pos: SourcePos,
    txnId: Option<int>,
    txnEnd: bool)

  /** The apply-side metadata of one table; an empty `pk` means the table has no primary key. */
  datatype Meta = Meta(pk: seq<string>, cols: seq<string>)

  predicate ValidMeta(m: Meta) {
    forall c :: c in m.pk ==> c in m.cols
  }

  datatype Kind = KindDelete | KindFull | KindPartial | KindKeymove

  function Get(m: Image, c: string): Value {
    if c in m then m[c] else Null
  }

  function KeyOf(m: Image, pk: seq<string>): (k: Key)
    ensures |k| == |pk|
  {
    seq(|pk|, i requires 0 <= i < |pk| => Get(m, pk[i]))
  }

  function Classify(r: Record, m: Meta): Kind {
    if r.op == Delete then KindDelete
    else if r.beforeKey != map[] && KeyOf(r.beforeKey, m.pk) != KeyOf(r.key, m.pk) then KindKeymove
    else if forall c :: c in m.cols ==> c in r.after then KindFull
    else KindPartial
  }

  /** ASCII upper-casing, the spelling under which table metadata is looked up. */
  function Upper(s: string): (u: string)
    ensures |u| == |s|
  {
    seq(|s|, i requires 0 <= i < |s| =>
      if 'a' <= s[i] <= 'z' then (s[i] as int - 32) as char else s[i])
  }

  /** The total order key of a source position: a bare coordinate `p` orders as `(p, 0)`. */
  function PosKey(p: SourcePos): Option<(int, int)> {
    match p
    case Plain(at) => Some((at, 0))
    case Compound(base, ord) => Some((base, ord))
    case _ => None
  }

  predicate KeyBefore(a: (int, int), b: (int, int)) {
    a.0 < b.0 || (a.0 == b.0 && a.1 < b.1)
  }
}
