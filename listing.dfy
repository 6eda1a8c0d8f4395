/** `Model.find().sort("-createdAt")`: the read endpoints list records newest
    first. The store's order for equal timestamps is unspecified; this model
    keeps records with equal timestamps in table order. */
module Listing {

  /** Every record is at least as new as every record after it. */
  ghost predicate NewestFirst<T>(s: seq<T>, createdAt: T -> int) {
    forall i, j :: 0 <= i < j < |s| ==> createdAt(s[i]) >= createdAt(s[j])
  }

  /** Inserts `x` into a newest-first sequence. */
  function Insert<T>(x: T, s: seq<T>, createdAt: T -> int): (r: seq<T>)
    requires NewestFirst(s, createdAt)
    ensures NewestFirst(r, createdAt)
    ensures multiset(r) == multiset(s) + multiset{x}
    ensures |r| == |s| + 1 && (r[0] == x || (s != [] && r[0] == s[0]))
  {
    if s == [] || createdAt(x) >= createdAt(s[0]) then [x] + s
    else
      var rest := Insert(x, s[1..], createdAt);
      assert s == [s[0]] + s[1..];
      assert createdAt(s[0]) >= createdAt(rest[0]);
      [s[0]] + rest
  }

  /** The records ordered newest first: a permutation of `s` in order. */
  function SortNewestFirst<T>(s: seq<T>, createdAt: T -> int): (r: seq<T>)
    ensures NewestFirst(r, createdAt)
    ensures multiset(r) == multiset(s)
  {
    if s == [] then []
    else
      assert s == [s[0]] + s[1..];
      Insert(s[0], SortNewestFirst(s[1..], createdAt), createdAt)
  }
}
