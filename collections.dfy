/** Sequence operations from lodash and Array.prototype that the gatherer is built from:
    `filter`, `_.uniq`, and the notions needed to state what they guarantee. */
module Collections {

  /** `a` is obtained from `b` by deleting elements: the same elements in the same order. */
  ghost predicate IsSubsequence<T>(a: seq<T>, b: seq<T>)
    decreases |b|
  {
    if a == [] then true
    else if b == [] then false
    else (a[0] == b[0] && IsSubsequence(a[1..], b[1..])) || IsSubsequence(a, b[1..])
  }

  /** No element occurs twice. */
  ghost predicate NoDuplicates<T>(s: seq<T>)
  {
    forall i, j :: 0 <= i < j < |s| ==> s[i] != s[j]
  }

  /** Array.prototype.filter: every occurrence of an element satisfying `p` and no other,
      in their original order. */
  function Filter<T(!new)>(p: T -> bool, s: seq<T>): (r: seq<T>)
    ensures forall x :: x in r <==> x in s && p(x)
    ensures forall x :: multiset(r)[x] == if p(x) then multiset(s)[x] else 0
    ensures IsSubsequence(r, s)
  {
    if s == [] then []
    else
      assert s == [s[0]] + s[1..];
      if p(s[0]) then [s[0]] + Filter(p, s[1..])
      else Filter(p, s[1..])
  }

  /** The walk of `_.uniq`: keeps the first occurrence of each element not already in `seen`. */
  function UniqFrom<T(==,!new)>(s: seq<T>, seen: set<T>): (r: seq<T>)
    ensures NoDuplicates(r)
    ensures forall x :: x in r <==> x in s && x !in seen
    ensures IsSubsequence(r, s)
  {
    if s == [] then []
    else if s[0] in seen then UniqFrom(s[1..], seen)
    else
      var rest := UniqFrom(s[1..], seen + {s[0]});
      assert s[0] !in rest;
      [s[0]] + rest
  }

  /** `_.uniq`: the first occurrence of every element, in order of first appearance. */
  function Uniq<T(==,!new)>(s: seq<T>): (r: seq<T>)
    ensures NoDuplicates(r)
    ensures forall x :: x in r <==> x in s
    ensures IsSubsequence(r, s)
  {
    UniqFrom(s, {})
  }

  lemma {:induction false} UniqFromKeepsDistinct<T(!new)>(s: seq<T>, seen: set<T>)
    requires NoDuplicates(s)
    requires forall x :: x in s ==> x !in seen
    ensures UniqFrom(s, seen) == s
    decreases |s|
  {
    if s != [] {
      assert s[0] !in seen;
      forall x | x in s[1..] ensures x !in seen + {s[0]} {
        var k :| 0 <= k < |s[1..]| && s[1..][k] == x;
        assert s[k + 1] == x;
      }
      UniqFromKeepsDistinct(s[1..], seen + {s[0]});
    }
  }

  /** A duplicate-free sequence is left as it is; in particular `_.uniq` is idempotent. */
  lemma UniqOfDistinct<T(!new)>(s: seq<T>)
    requires NoDuplicates(s)
    ensures Uniq(s) == s
  {
    UniqFromKeepsDistinct(s, {});
  }

  lemma UniqIdempotent<T(!new)>(s: seq<T>)
    ensures Uniq(Uniq(s)) == Uniq(s)
  {
    UniqOfDistinct(Uniq(s));
  }
}
