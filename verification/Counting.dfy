/** How often a value occurs in a sequence. */
module Counting {

  function Count<T(==)>(s: seq<T>, x: T): nat {
    if s == [] then 0 else Count(s[..|s| - 1], x) + (if s[|s| - 1] == x then 1 else 0)
  }

  lemma {:induction false} CountConcat<T>(a: seq<T>, b: seq<T>, x: T)
    ensures Count(a + b, x) == Count(a, x) + Count(b, x)
  {
    if b == [] {
      assert a + b == a;
    } else {
      CountConcat(a, b[..|b| - 1], x);
      assert (a + b)[..|a + b| - 1] == a + b[..|b| - 1];
    }
  }

  lemma CountSplit<T>(s: seq<T>, k: nat, x: T)
    requires k < |s|
    ensures Count(s, x) == Count(s[..k], x) + Count(s[k + 1..], x) + (if s[k] == x then 1 else 0)
  {
    assert s == (s[..k] + [s[k]]) + s[k + 1..];
    CountConcat(s[..k] + [s[k]], s[k + 1..], x);
    assert (s[..k] + [s[k]])[..k] == s[..k];
  }

  lemma CountRemove<T>(s: seq<T>, k: nat, x: T)
    requires k < |s|
    ensures Count(s, x) == Count(s[..k] + s[k + 1..], x) + (if s[k] == x then 1 else 0)
  {
    CountSplit(s, k, x);
    CountConcat(s[..k], s[k + 1..], x);
  }

  lemma CountUpdate<T>(s: seq<T>, k: nat, v: T, x: T)
    requires k < |s|
    ensures Count(s[k := v], x) + (if s[k] == x then 1 else 0) == Count(s, x) + (if v == x then 1 else 0)
  {
    CountSplit(s, k, x);
    CountSplit(s[k := v], k, x);
    assert s[k := v][..k] == s[..k] && s[k := v][k + 1..] == s[k + 1..];
  }

  lemma {:induction false} CountZero<T>(s: seq<T>, x: T)
    ensures Count(s, x) == 0 <==> x !in s
  {
    if s != [] {
      CountZero(s[..|s| - 1], x);
      assert s == s[..|s| - 1] + [s[|s| - 1]];
    }
  }
}
