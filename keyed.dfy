/** `Model.findOne({email})` over a table kept in insertion order, and the
    number of records with a given key. The routes and the start-up seeding
    look records up by their `email` field; the key is given as a function. */
module Keyed {
  import opened Wrappers

  /** The first record whose key is `k`, or `None` when there is none. */
  function FindFirst<T(==)>(rows: seq<T>, key: T -> string, k: string): (r: Option<T>)
    ensures r.None? <==> forall x :: x in rows ==> key(x) != k
    ensures r.Some? ==> r.value in rows && key(r.value) == k
    ensures r.Some? ==> exists i :: 0 <= i < |rows| && rows[i] == r.value &&
                          forall j :: 0 <= j < i ==> key(rows[j]) != k
  {
    if rows == [] then None
    else if key(rows[0]) == k then Some(rows[0])
    else
      var r := FindFirst(rows[1..], key, k);
      assert r.Some? ==> exists i :: 0 <= i < |rows| - 1 && rows[1..][i] == r.value &&
                          forall j :: 0 <= j < i ==> key(rows[1..][j]) != k;
      assert forall x :: x in rows ==> x == rows[0] || x in rows[1..];
      r
  }

  /** How many records have key `k`. */
  function Count<T>(rows: seq<T>, key: T -> string, k: string): nat {
    if rows == [] then 0 else (if key(rows[0]) == k then 1 else 0) + Count(rows[1..], key, k)
  }

  /** `Count` agrees with `FindFirst`: no record has the key exactly when the
      lookup finds nothing. */
  lemma {:induction false} CountZeroIffAbsent<T>(rows: seq<T>, key: T -> string, k: string)
    ensures Count(rows, key, k) == 0 <==> FindFirst(rows, key, k).None?
  {
    if rows != [] {
      CountZeroIffAbsent(rows[1..], key, k);
    }
  }

  /** Appending a record adds one to the count of its own key only. */
  lemma {:induction false} CountAppend<T>(rows: seq<T>, x: T, key: T -> string, k: string)
    ensures Count(rows + [x], key, k) == Count(rows, key, k) + (if key(x) == k then 1 else 0)
  {
    if rows != [] {
      assert (rows + [x])[1..] == rows[1..] + [x];
      CountAppend(rows[1..], x, key, k);
    }
  }

  /** In a table without the key, the lookup finds the appended record. */
  lemma {:induction false} FirstOfAppended<T>(rows: seq<T>, x: T, key: T -> string)
    requires FindFirst(rows, key, key(x)).None?
    ensures FindFirst(rows + [x], key, key(x)) == Some(x)
  {
    if rows != [] {
      assert (rows + [x])[1..] == rows[1..] + [x];
      FirstOfAppended(rows[1..], x, key);
    }
  }
}
