/** Why table names must be spelled in one way: batches are bucketed by the raw spelling but resolved
    in upper case. */
module Spelling {
  import opened Records
  import opened Store
  import opened ApplyLemmas

  /** Two of these spellings name one known table. */
  ghost predicate Clash(env: Env, spellings: set<string>) {
    exists a, b :: Clashing(env, spellings, a, b)
  }

  ghost predicate Clashing(env: Env, spellings: set<string>, a: string, b: string) {
    && a in spellings && b in spellings && a != b && Upper(a) == Upper(b)
    && Upper(a) in env.schema && env.schema[Upper(a)].pk != []
  }

  /** A log over these spellings and the buckets it falls into. */
  ghost predicate Bucketed(env: Env, spellings: set<string>, rs: seq<Record>, names: seq<string>) {
    && AllSound(env, rs) && (forall r :: r in rs ==> r.table in spellings)
    && Distinct(names) && AllUsed(rs, names) && (forall r :: r in rs ==> r.table in names)
  }

  /** Applying bucket after bucket always gives what applying in trail order gives. */
  ghost predicate BucketsKeepMeaning(env: Env, spellings: set<string>) {
    forall rs, names, db :: Bucketed(env, spellings, rs, names) ==>
      Fold(env, Gather(rs, names), db) == Fold(env, rs, db)
  }

  /** The key is there in full and without NULLs, as in every record of an existing row. */
  ghost predicate HasKey(env: Env, r: Record) {
    Known(env, r) ==> forall c :: c in MetaOf(env, r).pk ==> c in r.key && r.key[c] != Null
  }

  /** The same for logs of records that have a key. */
  ghost predicate BucketsKeepKeyedMeaning(env: Env, spellings: set<string>) {
    forall rs, names, db :: Bucketed(env, spellings, rs, names) && (forall r :: r in rs ==> HasKey(env, r)) ==>
      Fold(env, Gather(rs, names), db) == Fold(env, rs, db)
  }

  /** Insert, delete and insert one row again, with the delete spelled differently. */
  function TwoSpellings(m: Meta, a: string, b: string): seq<Record> {
    var key: Image := map c | c in m.pk :: Text("1");
    var ins := Record(Insert, a, key, map c | c in m.cols :: Text("1"), map[], Absent, None, false);
    [ins, Record(Delete, b, key, map[], map[], Absent, None, false), ins]
  }

  lemma TwoSpellingsDiffer(env: Env, a: string, b: string)
    requires a != b && Upper(a) == Upper(b) && Upper(a) in env.schema
    requires env.schema[Upper(a)].pk != [] && ValidMeta(env.schema[Upper(a)])
    requires forall r :: !env.drop(r) && !Refused(env, r)
    ensures var rs := TwoSpellings(env.schema[Upper(a)], a, b);
            && Bucketed(env, {a, b}, rs, [a, b]) && (forall r :: r in rs ==> HasKey(env, r))
            && Fold(env, Gather(rs, [a, b]), map[]) != Fold(env, rs, map[])
  {
    var m := env.schema[Upper(a)];
    var rs := TwoSpellings(m, a, b);
    var ins, del := rs[0], rs[1];
    TwoSound(env, a, b);
    hide Sound, Refused, Classify, HasKey;
    GatherThree(ins, del);
    assert Bucketed(env, {a, b}, rs, [a, b]) by {
      assert ins in rs && del in rs;
    }
    FoldThree(env, ins, del, ins);
    FoldThree(env, ins, ins, del);
    assert LocOf(env, ins) in Fold(env, [ins, del, ins], map[]);
    assert LocOf(env, ins) !in Fold(env, [ins, ins, del], map[]);
  }

  lemma TwoSound(env: Env, a: string, b: string)
    requires Upper(a) == Upper(b) && Upper(a) in env.schema
    requires env.schema[Upper(a)].pk != [] && ValidMeta(env.schema[Upper(a)])
    requires forall r :: !env.drop(r) && !Refused(env, r)
    ensures var rs := TwoSpellings(env.schema[Upper(a)], a, b); var ins, del := rs[0], rs[1];
            && AllSound(env, rs) && (forall r :: r in rs ==> HasKey(env, r))
            && Known(env, ins) && Known(env, del) && LocOf(env, ins) == LocOf(env, del)
            && (forall db :: Step(env, db, del) == db - {LocOf(env, del)})
            && (forall db :: LocOf(env, ins) in Step(env, db, ins))
  {
    var rs := TwoSpellings(env.schema[Upper(a)], a, b);
    var ins, del := rs[0], rs[1];
    assert !IsKeymove(env, ins) && !IsKeymove(env, del);
    forall r | r in rs ensures Sound(env, r) && HasKey(env, r) { assert r == ins || r == del; }
  }

  lemma GatherThree(ins: Record, del: Record)
    requires ins.table != del.table
    ensures Gather([ins, del, ins], [ins.table, del.table]) == [ins, ins, del]
  {
    var rs := [ins, del, ins];
    var n, m := ins.table, del.table;
    assert rs[..2] == [ins, del] && [ins, del][..1] == [ins] && [ins][..0] == [];
    assert ByName([ins], n) == [ins] && ByName([ins], m) == [];
    assert ByName([ins, del], n) == [ins] && ByName([ins, del], m) == [del];
    assert ByName(rs, n) == [ins, ins] && ByName(rs, m) == [del];
    assert [n, m][..1] == [n] && [n][..0] == [];
    assert Gather(rs, [n]) == ByName(rs, n);
  }

  lemma FoldThree(env: Env, a: Record, b: Record, c: Record)
    ensures Fold(env, [a, b, c], map[]) == Step(env, Step(env, Step(env, map[], a), b), c)
  {
    assert [a, b, c][..2] == [a, b] && [a, b][..1] == [a] && [a][..0] == [];
    assert Fold(env, [a], map[]) == Step(env, map[], a);
  }

  /** Bucketing by spelling is sound for every log over a set of spellings exactly when no two of them
      name one table. */
  lemma SpellingExactly(env: Env, spellings: set<string>)
    requires ValidSchema(env.schema) && forall r :: !env.drop(r) && !Refused(env, r)
    ensures BucketsKeepMeaning(env, spellings) <==> !Clash(env, spellings)
    ensures BucketsKeepKeyedMeaning(env, spellings) <==> !Clash(env, spellings)
  {
    if Clash(env, spellings) {
      var a, b :| Clashing(env, spellings, a, b);
      TwoSpellingsDiffer(env, a, b);
      var rs := TwoSpellings(env.schema[Upper(a)], a, b);
      assert Bucketed(env, spellings, rs, [a, b]);
      assert !BucketsKeepMeaning(env, spellings) && !BucketsKeepKeyedMeaning(env, spellings);
    } else {
      forall rs, names, db | Bucketed(env, spellings, rs, names)
        ensures Fold(env, Gather(rs, names), db) == Fold(env, rs, db)
      {
        forall a: Record, b: Record | a in rs && b in rs && Known(env, a) && Upper(a.table) == Upper(b.table)
          ensures a.table == b.table
        {
          assert !Clashing(env, spellings, a.table, b.table);
        }
        GatherAll(env, rs, names, db);
      }
    }
  }
}
