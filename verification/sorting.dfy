/** Python's `sorted()` on a list of strings: ascending by code point, shorter prefix first. */
module Sorting {

  /** `a <= b` on Python strings. */
  predicate LexLeq(a: string, b: string)
    decreases |a|
  {
    if a == [] then true
    else if b == [] then false
    else if a[0] != b[0] then a[0] < b[0]
    else LexLeq(a[1..], b[1..])
  }

  /** Any two strings are ordered one way or the other. */
  lemma {:induction false} LexLeqTotal(a: string, b: string)
    ensures LexLeq(a, b) || LexLeq(b, a)
    decreases |a|
  {
    if a != [] && b != [] && a[0] == b[0] {
      LexLeqTotal(a[1..], b[1..]);
    }
  }

  /** Each string is at most the next one. */
  predicate Sorted(s: seq<string>) {
    forall i :: 0 < i < |s| ==> LexLeq(s[i - 1], s[i])
  }

  /** `x` placed before the first element it is at most. */
  function Insert(x: string, s: seq<string>): (r: seq<string>)
    requires Sorted(s)
    ensures Sorted(r) && multiset(r) == multiset(s) + multiset{x}
    ensures |r| == |s| + 1 && (r[0] == x || (s != [] && r[0] == s[0]))
  {
    if s == [] then [x]
    else if LexLeq(x, s[0]) then [x] + s
    else
      var tail := Insert(x, s[1..]);
      LexLeqTotal(x, s[0]);
      assert s == [s[0]] + s[1..];
      [s[0]] + tail
  }

  /** `sorted(names)`: the same strings, in ascending order. */
  function SortStrings(names: seq<string>): (r: seq<string>)
    ensures Sorted(r) && multiset(r) == multiset(names)
    ensures |r| == |names|
  {
    if names == [] then []
    else
      assert names == [names[0]] + names[1..];
      Insert(names[0], SortStrings(names[1..]))
  }
}
