/** The checksum merge-compare of a table's rows, and why its row checksum cannot confuse rows. */
module Compare {

  // ---------------------------------------------------------------- the row frame

  const SEP: char := 1 as char

  function Digit(d: nat): (c: char)
    requires d < 10
    ensures c != SEP
  {
    ('0' as int + d) as char
  }

  function Dec(n: nat): string {
    if n < 10 then [Digit(n)] else Dec(n / 10) + [Digit(n % 10)]
  }

  /** The bytes hashed for a row: each rendered field behind its length and a separator. */
  function Frame(fields: seq<string>): string {
    if fields == [] then "" else Dec(|fields[0]|) + [SEP] + fields[0] + Frame(fields[1..])
  }

  lemma {:induction false} DecNoSep(n: nat)
    ensures SEP !in Dec(n) && Dec(n) != ""
  {
    if n >= 10 {
      DecNoSep(n / 10);
    }
  }

  lemma {:induction false} DecInjective(m: nat, n: nat)
    requires Dec(m) == Dec(n)
    ensures m == n
  {
    DecNoSep(m / 10);
    DecNoSep(n / 10);
    if m < 10 || n < 10 {
      assert |Dec(m)| == |Dec(n)|;
    } else {
      assert Dec(m)[..|Dec(m)| - 1] == Dec(m / 10) && Dec(n)[..|Dec(n)| - 1] == Dec(n / 10);
      assert Dec(m)[|Dec(m)| - 1] == Digit(m % 10) && Dec(n)[|Dec(n)| - 1] == Digit(n % 10);
      DecInjective(m / 10, n / 10);
    }
  }

  /** A length prefix ends where the first separator stands. */
  lemma PrefixEnds(a: string, x: string, b: string, y: string)
    requires SEP !in a && SEP !in b && a + [SEP] + x == b + [SEP] + y
    ensures a == b && x == y
  {
    var s := a + [SEP] + x;
    assert s[|a|] == SEP && (b + [SEP] + y)[|b|] == SEP;
    assert forall k :: 0 <= k < |a| ==> s[k] == a[k];
    assert forall k :: 0 <= k < |b| ==> s[k] == b[k];
    assert |a| == |b|;
    assert a == s[..|a|] == b;
    assert x == s[|a| + 1..] == y;
  }

  lemma FrameEmpty(a: seq<string>)
    ensures Frame(a) == "" <==> a == []
  {
  }

  /** Different rows never frame alike. */
  lemma {:induction false} FrameInjective(a: seq<string>, b: seq<string>)
    requires Frame(a) == Frame(b)
    ensures a == b
    decreases |a|
  {
    if a == [] || b == [] {
      FrameEmpty(a);
      FrameEmpty(b);
    } else {
      var x, y := a[0], b[0];
      DecNoSep(|x|);
      DecNoSep(|y|);
      assert Frame(a) == Dec(|x|) + [SEP] + (x + Frame(a[1..]));
      assert Frame(b) == Dec(|y|) + [SEP] + (y + Frame(b[1..]));
      PrefixEnds(Dec(|x|), x + Frame(a[1..]), Dec(|y|), y + Frame(b[1..]));
      DecInjective(|x|, |y|);
      assert (x + Frame(a[1..]))[..|x|] == x && (y + Frame(b[1..]))[..|x|] == y;
      assert (x + Frame(a[1..]))[|x|..] == Frame(a[1..]) && (y + Frame(b[1..]))[|x|..] == Frame(b[1..]);
      FrameInjective(a[1..], b[1..]);
      assert a == [x] + a[1..] && b == [y] + b[1..];
    }
  }

  // ---------------------------------------------------------------- the merge

  /** A row by its collation-stable key, with its rendered fields. */
  datatype Row = Row(key: int, fields: seq<string>)

  ghost predicate ByKey(rows: seq<Row>) {
    forall i, j :: 0 <= i < j < |rows| ==> rows[i].key < rows[j].key
  }

  type Hash = string -> int

  ghost predicate Injective(hash: Hash) {
    forall a, b :: hash(a) == hash(b) ==> a == b
  }

  function Checksum(r: Row, hash: Hash): int {
    hash(Frame(r.fields))
  }

  lemma ChecksumIdentifies(a: Row, b: Row, hash: Hash)
    requires Injective(hash)
    ensures Checksum(a, hash) == Checksum(b, hash) <==> a.fields == b.fields
  {
    if Checksum(a, hash) == Checksum(b, hash) {
      FrameInjective(a.fields, b.fields);
    }
  }

  /** The differences between two lists: rows on one side only, and rows whose fields differ. */
  function Differences(a: seq<Row>, b: seq<Row>): nat
    decreases |a| + |b|
  {
    if a == [] then |b|
    else if b == [] then |a|
    else if a[0].key == b[0].key then (if a[0].fields == b[0].fields then 0 else 1) + Differences(a[1..], b[1..])
    else if a[0].key < b[0].key then 1 + Differences(a[1..], b)
    else 1 + Differences(a, b[1..])
  }

  datatype Verdict = Verdict(passed: bool, mismatches: nat, stoppedEarly: bool)

  /** Merge-compares two lists ordered by key.  With a positive error limit it passes exactly when the
      lists are equal, and without an early stop its mismatches and the unpaired rest are all the
      differences.  With a limit of zero or less it looks at no more than the first rows. */
  method MergeCompare(src: seq<Row>, tgt: seq<Row>, maxErrors: int, hash: Hash)
    returns (v: Verdict, ghost rest: nat)
    requires ByKey(src) && ByKey(tgt) && Injective(hash)
    ensures maxErrors >= 1 ==> (v.passed <==> src == tgt)
    ensures !v.stoppedEarly ==> v.mismatches + rest == Differences(src, tgt)
    ensures v.stoppedEarly ==> v.mismatches >= maxErrors && (maxErrors >= 1 ==> v.mismatches == maxErrors)
    ensures maxErrors <= 0 ==>
              (v.passed <==> |src| == |tgt| && (src == [] || src[0] == tgt[0]))
  {
    hide Differences, Checksum, ByKey, Injective;
    var passed := |src| == |tgt|;
    var i, j, mismatches, stopped := 0, 0, 0, false;
    assert src[0..] == src && tgt[0..] == tgt;
    while i < |src| && j < |tgt|
      invariant i <= |src| && j <= |tgt|
      invariant mismatches + Differences(src[i..], tgt[j..]) == Differences(src, tgt)
      invariant passed <==> |src| == |tgt| && mismatches == 0
      invariant mismatches == 0 ==> i == j
      invariant !stopped && (maxErrors >= 1 ==> mismatches < maxErrors)
      invariant maxErrors <= 0 ==> i == 0 && j == 0
      decreases |src| + |tgt| - i - j
    {
      NextPair(src, tgt, i, j);
      ChecksumIdentifies(src[i], tgt[j], hash);
      if src[i].key == tgt[j].key {
        if Checksum(src[i], hash) != Checksum(tgt[j], hash) {
          mismatches, passed := mismatches + 1, false;
        }
        i, j := i + 1, j + 1;
      } else if src[i].key < tgt[j].key {
        mismatches, passed := mismatches + 1, false;
        i := i + 1;
      } else {
        mismatches, passed := mismatches + 1, false;
        j := j + 1;
      }
      if mismatches >= maxErrors {
        stopped := true;
        break;
      }
    }
    rest := Differences(src[i..], tgt[j..]);
    OneSideLeft(src[i..], tgt[j..]);
    NoDifference(src, tgt);
    v := Verdict(passed, mismatches, stopped);
  }

  lemma NextPair(a: seq<Row>, b: seq<Row>, i: nat, j: nat)
    requires i < |a| && j < |b|
    ensures Differences(a[i..], b[j..]) ==
            if a[i].key == b[j].key then
              (if a[i].fields == b[j].fields then 0 else 1) + Differences(a[i + 1..], b[j + 1..])
            else if a[i].key < b[j].key then 1 + Differences(a[i + 1..], b[j..])
            else 1 + Differences(a[i..], b[j + 1..])
  {
    assert a[i..][1..] == a[i + 1..] && b[j..][1..] == b[j + 1..];
  }

  lemma OneSideLeft(a: seq<Row>, b: seq<Row>)
    ensures a == [] || b == [] ==> Differences(a, b) == |a| + |b|
  {
  }

  /** Equal lists, and only those, have no differences. */
  lemma {:induction false} NoDifference(a: seq<Row>, b: seq<Row>)
    ensures Differences(a, b) == 0 <==> a == b
    decreases |a| + |b|
  {
    if a != [] && b != [] && a[0].key == b[0].key {
      NoDifference(a[1..], b[1..]);
      assert a == [a[0]] + a[1..] && b == [b[0]] + b[1..];
    } else if a != [] && b != [] {
      assert a[0] != b[0];
    }
  }

  // ---------------------------------------------------------------- what a difference is

  function Keys(rows: seq<Row>): set<int> {
    set r | r in rows :: r.key
  }

  ghost predicate ChangedAt(a: seq<Row>, b: seq<Row>, k: int) {
    exists x, y :: x in a && y in b && x.key == k && y.key == k && x.fields != y.fields
  }

  ghost function Changed(a: seq<Row>, b: seq<Row>): set<int> {
    set k | k in Keys(a) && ChangedAt(a, b, k)
  }

  /** How many keys are on one side only, or on both with different rows. */
  ghost function Apart(a: seq<Row>, b: seq<Row>): nat {
    |Keys(a) - Keys(b)| + |Keys(b) - Keys(a)| + |Changed(a, b)|
  }

  /** The differences counted are the symmetric difference of the keys plus the changed rows. */
  lemma {:induction false} DifferencesCount(a: seq<Row>, b: seq<Row>)
    requires ByKey(a) && ByKey(b)
    ensures Differences(a, b) == Apart(a, b)
    decreases |a| + |b|
  {
    if a == [] || b == [] {
      ApartFromNone(a, b);
    } else {
      hide ByKey, Apart;
      TailByKey(a);
      TailByKey(b);
      if a[0].key == b[0].key {
        DifferencesCount(a[1..], b[1..]);
        ApartPaired(a, b);
      } else if a[0].key < b[0].key {
        DifferencesCount(a[1..], b);
        ApartAlone(a, b);
      } else {
        DifferencesCount(a, b[1..]);
        ApartAlone(b, a);
        ApartSymmetric(a, b);
        ApartSymmetric(a, b[1..]);
      }
    }
  }

  lemma ApartFromNone(a: seq<Row>, b: seq<Row>)
    requires ByKey(a) && ByKey(b) && (a == [] || b == [])
    ensures Apart(a, b) == |a| + |b|
  {
    KeysSize(a);
    KeysSize(b);
    assert Keys([]) == {};
    assert Keys(a) - Keys(b) == (if b == [] then Keys(a) else {});
    assert Keys(b) - Keys(a) == (if a == [] then Keys(b) else {});
    assert Changed(a, b) == {};
  }

  lemma ApartPaired(a: seq<Row>, b: seq<Row>)
    requires ByKey(a) && ByKey(b) && a != [] && b != [] && a[0].key == b[0].key
    ensures Apart(a, b) == (if a[0].fields == b[0].fields then 0 else 1) + Apart(a[1..], b[1..])
  {
    hide ByKey, Keys, Changed;
    HeadKey(a);
    HeadKey(b);
    ChangedHead(a, b);
    assert Keys(a) - Keys(b) == Keys(a[1..]) - Keys(b[1..]);
    assert Keys(b) - Keys(a) == Keys(b[1..]) - Keys(a[1..]);
  }

  lemma ApartAlone(a: seq<Row>, b: seq<Row>)
    requires ByKey(a) && ByKey(b) && a != [] && b != [] && a[0].key < b[0].key
    ensures Apart(a, b) == 1 + Apart(a[1..], b)
  {
    hide ByKey, Keys, Changed;
    OnlyHere(a, b);
    assert Keys(a) - Keys(b) == (Keys(a[1..]) - Keys(b)) + {a[0].key};
  }

  lemma ApartSymmetric(a: seq<Row>, b: seq<Row>)
    ensures Apart(a, b) == Apart(b, a)
  {
    forall k ensures ChangedAt(a, b, k) <==> ChangedAt(b, a, k) {
    }
    forall k | ChangedAt(a, b, k) ensures k in Keys(a) && k in Keys(b) {
    }
    assert Changed(a, b) == Changed(b, a);
  }

  lemma TailByKey(rows: seq<Row>)
    requires ByKey(rows) && rows != []
    ensures ByKey(rows[1..])
  {
  }

  lemma {:induction false} KeysSize(rows: seq<Row>)
    requires ByKey(rows)
    ensures |Keys(rows)| == |rows|
  {
    if rows != [] {
      HeadKey(rows);
      KeysSize(rows[1..]);
    } else {
      assert Keys(rows) == {};
    }
  }

  lemma HeadKey(rows: seq<Row>)
    requires ByKey(rows) && rows != []
    ensures Keys(rows) == Keys(rows[1..]) + {rows[0].key} && rows[0].key !in Keys(rows[1..])
    ensures forall k :: k in Keys(rows[1..]) ==> rows[0].key < k
  {
    assert rows == [rows[0]] + rows[1..];
    assert rows[0] in rows;
    forall r | r in rows[1..] ensures r in rows && rows[0].key < r.key {
    }
    forall k | k in Keys(rows) ensures k in Keys(rows[1..]) + {rows[0].key} {
      var r :| r in rows && r.key == k;
      if r != rows[0] { assert r in rows[1..]; }
    }
  }

  lemma ChangedHead(a: seq<Row>, b: seq<Row>)
    requires ByKey(a) && ByKey(b) && a != [] && b != [] && a[0].key == b[0].key
    ensures Changed(a, b) == Changed(a[1..], b[1..]) + if a[0].fields != b[0].fields then {a[0].key} else {}
    ensures a[0].key !in Changed(a[1..], b[1..])
  {
    HeadKey(a);
    HeadKey(b);
    assert a == [a[0]] + a[1..] && b == [b[0]] + b[1..];
    var k := a[0].key;
    forall n ensures ChangedAt(a, b, n) <==> ChangedAt(a[1..], b[1..], n) || (n == k && a[0].fields != b[0].fields) {
      if ChangedAt(a, b, n) {
        var x, y :| x in a && y in b && x.key == n && y.key == n && x.fields != y.fields;
        if n == k {
          assert forall r :: r in a[1..] ==> r.key in Keys(a[1..]);
          assert forall r :: r in b[1..] ==> r.key in Keys(b[1..]);
          assert x == a[0] && y == b[0];
        } else {
          assert x in a[1..] && y in b[1..];
        }
      }
      if ChangedAt(a[1..], b[1..], n) {
        var x, y :| x in a[1..] && y in b[1..] && x.key == n && y.key == n && x.fields != y.fields;
        assert x in a && y in b;
      }
      if n == k && a[0].fields != b[0].fields {
        assert a[0] in a && b[0] in b;
      }
    }
    forall n | ChangedAt(a[1..], b[1..], n) ensures n in Keys(a[1..]) {
    }
  }

  /** The head of `a` comes before everything in `b`: it is on this side only. */
  lemma OnlyHere(a: seq<Row>, b: seq<Row>)
    requires ByKey(a) && ByKey(b) && a != [] && b != [] && a[0].key < b[0].key
    ensures a[0].key !in Keys(b) && Keys(a) == Keys(a[1..]) + {a[0].key} && a[0].key !in Keys(a[1..])
    ensures Keys(b) - Keys(a) == Keys(b) - Keys(a[1..])
    ensures Changed(a, b) == Changed(a[1..], b)
  {
    HeadKey(a);
    HeadKey(b);
    assert a == [a[0]] + a[1..];
    forall n ensures ChangedAt(a, b, n) <==> ChangedAt(a[1..], b, n) {
      assert forall y :: y in b ==> y.key in Keys(b);
    }
    forall n | ChangedAt(a[1..], b, n) ensures n in Keys(a[1..]) {
    }
  }

  // ---------------------------------------------------------------- tables without a key

  ghost predicate Sorted(s: seq<int>) {
    forall i, j :: 0 <= i < j < |s| ==> s[i] <= s[j]
  }

  /** Without a key the sorted checksums are compared position by position: it passes exactly when
      both sides hold the same rows, each as often. */
  method KeylessCompare(src: seq<int>, tgt: seq<int>) returns (v: Verdict)
    requires Sorted(src) && Sorted(tgt)
    ensures v.passed <==> multiset(src) == multiset(tgt)
  {
    if |src| != |tgt| {
      assert |multiset(src)| != |multiset(tgt)|;
      return Verdict(false, if |src| > |tgt| then |src| - |tgt| else |tgt| - |src|, false);
    }
    var mism := 0;
    for i := 0 to |src|
      invariant mism == 0 <==> src[..i] == tgt[..i]
    {
      if src[i] != tgt[i] {
        mism := mism + 1;
      }
    }
    assert src[..|src|] == src && tgt[..|tgt|] == tgt;
    if multiset(src) == multiset(tgt) {
      SortedOnce(src, tgt);
    }
    v := Verdict(mism == 0, mism, false);
  }

  /** One multiset has one sorted list. */
  lemma {:induction false} SortedOnce(a: seq<int>, b: seq<int>)
    requires Sorted(a) && Sorted(b) && multiset(a) == multiset(b)
    ensures a == b
  {
    assert |a| == |multiset(a)| == |multiset(b)| == |b|;
    if a != [] {
      hide Sorted;
      Smallest(a, b);
      HeadOff(a);
      HeadOff(b);
      SortedOnce(a[1..], b[1..]);
      SameHead(a, b);
    }
  }

  lemma SameHead(a: seq<int>, b: seq<int>)
    requires a != [] && b != [] && a[0] == b[0] && a[1..] == b[1..]
    ensures a == b
  {
    assert a == [a[0]] + a[1..] && b == [b[0]] + b[1..];
  }

  lemma HeadOff(a: seq<int>)
    requires Sorted(a) && a != []
    ensures multiset(a[1..]) == multiset(a) - multiset{a[0]} && Sorted(a[1..])
  {
    assert a == [a[0]] + a[1..];
  }

  lemma Smallest(a: seq<int>, b: seq<int>)
    requires Sorted(a) && Sorted(b) && multiset(a) == multiset(b) && a != [] && b != []
    ensures a[0] == b[0]
  {
    assert a[0] in multiset(b) && b[0] in multiset(a);
    var i :| 0 <= i < |b| && b[i] == a[0];
    var j :| 0 <= j < |a| && a[j] == b[0];
  }
}
