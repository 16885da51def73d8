/** How often a value occurs in a sequence. */
module Counting {

  function Count<T(==)>(s: seq<T>, x: T): nat {
    if s == [] then 0 else Count(s[..|s| - 1], x) + if s[|s| - 1] == x then 1 else 0
  }

  lemma CountNext<T>(s: seq<T>, last: T, x: T)
    ensures Count(s + [last], x) == Count(s, x) + if last == x then 1 else 0
    ensures Count<T>([], x) == 0
  {
    assert (s + [last])[..|s|] == s;
  }

  lemma {:induction false} CountConcat<T>(a: seq<T>, b: seq<T>, x: T)
    ensures Count(a + b, x) == Count(a, x) + Count(b, x)
  {
    if b == [] {
      assert a + b == a;
    } else {
      assert (a + b)[..|a + b| - 1] == a + b[..|b| - 1];
      CountConcat(a, b[..|b| - 1], x);
    }
  }

  lemma {:induction false} CountIsMultiplicity<T>(s: seq<T>, x: T)
    ensures Count(s, x) == multiset(s)[x]
    ensures Count(s, x) > 0 <==> x in s
  {
    if s != [] {
      CountIsMultiplicity(s[..|s| - 1], x);
      assert s == s[..|s| - 1] + [s[|s| - 1]];
    }
  }

  lemma {:induction false} CountGrows<T>(s: seq<T>, i: nat, j: nat)
    requires i < j <= |s|
    ensures Count(s[..i], s[i]) < Count(s[..j], s[i])
    decreases j
  {
    assert s[..j][..j - 1] == s[..j - 1];
    if i < j - 1 {
      CountGrows(s, i, j - 1);
    }
  }
}
