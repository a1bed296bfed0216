/** Sequences: their elements as a set, and sequences without one of their elements or with one more. */
module Sequences {

  ghost function Without<T>(s: seq<T>, k: int): seq<T>
    requires 0 <= k < |s|
  {
    s[..k] + s[k + 1..]
  }

  ghost function With<T>(s: seq<T>, k: int, x: T): seq<T>
    requires 0 <= k <= |s|
  {
    s[..k] + [x] + s[k..]
  }

  ghost function Elements<T>(s: seq<T>): set<T> { set x | x in s }

  lemma SameElements<T>(s: seq<T>, t: seq<T>)
    requires multiset(s) == multiset(t)
    ensures Elements(s) == Elements(t)
  {
    forall x ensures x in s <==> x in t { assert x in s <==> x in multiset(s); }
  }
}
