/** The target database as a value, and what one change record does to it.

    A database is a flat map from locations (table, key) to rows.  A row holds the non-key
    columns only: the key columns are the location. */
module Store {
  import opened Records

  datatype Loc = Loc(table: string, key: Key)
  type Row = Image
  type DB = map<Loc, Row>

  /** What the apply depends on besides the records: the table metadata by upper-case name,
      the row images the target deterministically refuses, and the records that the poison
      policy leaves out of the target (a record is left out by having no effect). */
  datatype Env = Env(
    schema: map<string, Meta>,
    refuses: (string, Image) -> bool,
    drop: Record -> bool)

  ghost predicate ValidSchema(schema: map<string, Meta>) {
    forall t :: t in schema ==> ValidMeta(schema[t])
  }

  // ---------------------------------------------------------------- rows

  function NonKey(m: Meta): set<string> {
    set c | c in m.cols && c !in m.pk
  }

  /** The non-key part of an image. */
  function Patch(m: Meta, image: Image): Row {
    map c | c in NonKey(m) && c in image :: image[c]
  }

  /** A freshly inserted row: every omitted column is NULL. */
  function Blank(m: Meta): Row {
    map c | c in NonKey(m) :: Null
  }

  /** The columns of the table that `after` provides. */
  function Present(m: Meta, after: Image): Image {
    map c | c in m.cols && c in after :: after[c]
  }

  function KeyImage(m: Meta, key: Image): Image {
    map c | c in m.pk :: Get(key, c)
  }

  // ---------------------------------------------------------------- records

  predicate Known(env: Env, r: Record) {
    Upper(r.table) in env.schema && env.schema[Upper(r.table)].pk != []
  }

  function MetaOf(env: Env, r: Record): Meta
    requires Known(env, r)
  {
    env.schema[Upper(r.table)]
  }

  function LocOf(env: Env, r: Record): Loc
    requires Known(env, r)
  {
    Loc(Upper(r.table), KeyOf(r.key, MetaOf(env, r).pk))
  }

  predicate IsKeymove(env: Env, r: Record) {
    Known(env, r) && Classify(r, MetaOf(env, r)) == KindKeymove
  }

  /** Both capture paths emit only such records: a non-delete after-image carries the key. */
  ghost predicate WellFormed(env: Env, r: Record) {
    Known(env, r) && r.op != Delete ==>
      forall c :: c in MetaOf(env, r).pk ==> c in r.after && r.after[c] == Get(r.key, c)
  }

  /** The target refuses this record whenever it is presented on its own. */
  predicate Refused(env: Env, r: Record) {
    Known(env, r) &&
    match Classify(r, MetaOf(env, r))
    case KindDelete => env.refuses(Upper(r.table), KeyImage(MetaOf(env, r), r.key))
    case KindFull => env.refuses(Upper(r.table), Present(MetaOf(env, r), r.after))
    case KindPartial =>
      Patch(MetaOf(env, r), r.after) != map[] &&
      env.refuses(Upper(r.table), Present(MetaOf(env, r), r.after))
    case KindKeymove => false
  }

  /** Moving the row meets an image the target refuses: with the old row there, it is refreshed, the new
      key cleared and the row re-keyed; without it, the record's image goes to the new key. */
  predicate MoveRejects(env: Env, db: DB, r: Record)
    requires Known(env, r)
  {
    var m, t := MetaOf(env, r), Upper(r.table);
    if OldLoc(env, r) in db then
      env.refuses(t, KeyImage(m, r.beforeKey) + Patch(m, r.after)) || env.refuses(t, KeyImage(m, r.key))
    else env.refuses(t, KeyImage(m, r.key) + Patch(m, r.after))
  }

  /** The same for some state of the target. */
  predicate MoveRefused(env: Env, r: Record)
    requires Known(env, r)
  {
    var m, t := MetaOf(env, r), Upper(r.table);
    || env.refuses(t, KeyImage(m, r.beforeKey) + Patch(m, r.after))
    || env.refuses(t, KeyImage(m, r.key))
    || env.refuses(t, KeyImage(m, r.key) + Patch(m, r.after))
  }

  /** Some record is refused on its own. */
  ghost predicate Refusing(env: Env, rs: seq<Record>) {
    exists r :: r in rs && Refused(env, r)
  }

  /** A record that cannot be applied: a refused one, or a move that meets a refused image. */
  ghost predicate Stuck(env: Env, rs: seq<Record>) {
    Refusing(env, rs) || exists r :: r in rs && IsKeymove(env, r) && MoveRefused(env, r)
  }

  // ---------------------------------------------------------------- one cell

  /** What a non-keymove record does to the single cell it addresses. */
  datatype CellOp = Keep | Put(cell: Option<Row>) | Merge(fields: Row, blank: Row)

  function RunOp(op: CellOp, cell: Option<Row>): Option<Row> {
    match op
    case Keep => cell
    case Put(c) => c
    case Merge(fields, blank) => Some((if cell.Some? then cell.value else blank) + fields)
  }

  function OpOf(env: Env, r: Record): CellOp
    requires Known(env, r)
  {
    var m := MetaOf(env, r);
    if env.drop(r) then Keep
    else match Classify(r, m)
      case KindDelete => Put(None)
      case KindFull => Put(Some(Blank(m) + Patch(m, r.after)))
      case KindPartial =>
        if Patch(m, r.after) == map[] then Keep else Merge(Patch(m, r.after), Blank(m))
      case KindKeymove => Keep
  }

  function CellAt(db: DB, loc: Loc): Option<Row> {
    if loc in db then Some(db[loc]) else None
  }

  function SetCell(db: DB, loc: Loc, cell: Option<Row>): DB {
    match cell
    case None => db - {loc}
    case Some(row) => db[loc := row]
  }

  // ---------------------------------------------------------------- one record

  /** The effect of a primary-key move: the old-key row takes the provided columns and lands
      on the new key; without an old-key row the new-key row is refreshed or inserted. */
  function MoveRow(m: Meta, db: DB, from: Loc, to: Loc, after: Image): DB {
    if from in db then (db - {from})[to := db[from] + Patch(m, after)]
    else if to in db then db[to := db[to] + Patch(m, after)]
    else db[to := Blank(m) + Patch(m, after)]
  }

  function OldLoc(env: Env, r: Record): Loc
    requires Known(env, r)
  {
    Loc(Upper(r.table), KeyOf(r.beforeKey, MetaOf(env, r).pk))
  }

  function Step(env: Env, db: DB, r: Record): DB {
    if !Known(env, r) then db
    else if IsKeymove(env, r) then
      MoveRow(MetaOf(env, r), db, OldLoc(env, r), LocOf(env, r), r.after)
    else
      SetCell(db, LocOf(env, r), RunOp(OpOf(env, r), CellAt(db, LocOf(env, r))))
  }

  /** The reference semantics: the records applied one at a time, in trail order. */
  function Fold(env: Env, rs: seq<Record>, db: DB): DB {
    if rs == [] then db else Step(env, Fold(env, rs[..|rs| - 1], db), rs[|rs| - 1])
  }

  ghost predicate NoKeymove(env: Env, rs: seq<Record>) {
    forall r :: r in rs ==> !IsKeymove(env, r)
  }

  /** Every stored row holds exactly the non-key columns of its table. */
  ghost predicate ValidDB(schema: map<string, Meta>, db: DB) {
    forall loc :: loc in db && loc.table in schema ==> db[loc].Keys == NonKey(schema[loc.table])
  }
}
