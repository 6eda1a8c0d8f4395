/** String helpers shared by every module: JavaScript's `startsWith`, `endsWith`
    and the `replace(/\/+$/, "")` idiom that strips trailing slashes. */
module Strings {

  /** `s.startsWith(p)`. */
  predicate StartsWith(s: string, p: string) {
    |p| <= |s| && s[..|p|] == p
  }

  /** `s.endsWith(p)`. */
  predicate EndsWith(s: string, p: string) {
    |p| <= |s| && s[|s| - |p|..] == p
  }

  /** True when `s` consists of '/' characters only (the empty string included). */
  predicate AllSlashes(s: string) {
    forall i :: 0 <= i < |s| ==> s[i] == '/'
  }

  /** `s.replace(/\/+$/, "")`: `s` without its maximal run of trailing slashes. */
  function StripTrailingSlashes(s: string): (r: string)
    ensures |r| <= |s| && s[..|r|] == r
    ensures AllSlashes(s[|r|..])
    ensures r == [] || r[|r| - 1] != '/'
    decreases |s|
  {
    if |s| > 0 && s[|s| - 1] == '/' then StripTrailingSlashes(s[..|s| - 1]) else s
  }

  /** The stripped prefix is determined by its two defining facts: any `t` that
      does not end in '/' and is followed in `s` by slashes only is the result. */
  lemma {:induction false} StripTrailingSlashesUnique(s: string, t: string)
    requires |t| <= |s| && s[..|t|] == t
    requires AllSlashes(s[|t|..])
    requires t == [] || t[|t| - 1] != '/'
    ensures StripTrailingSlashes(s) == t
    decreases |s|
  {
    if |s| > |t| {
      assert s[|s| - 1] == s[|t|..][|s| - 1 - |t|];
      var s' := s[..|s| - 1];
      assert s'[..|t|] == t;
      assert s'[|t|..] == s[|t|..][..|s'| - |t|];
      StripTrailingSlashesUnique(s', t);
    }
  }

  /** Stripping is idempotent. */
  lemma StripTrailingSlashesIdempotent(s: string)
    ensures StripTrailingSlashes(StripTrailingSlashes(s)) == StripTrailingSlashes(s)
  {
  }

  /** Adding slashes to the end does not change what stripping leaves. */
  lemma {:induction false} StripTrailingSlashesAppend(s: string, slashes: string)
    requires AllSlashes(slashes)
    ensures StripTrailingSlashes(s + slashes) == StripTrailingSlashes(s)
  {
    var t := StripTrailingSlashes(s);
    var u := s + slashes;
    assert u[..|t|] == t;
    assert u[|t|..] == s[|t|..] + slashes;
    StripTrailingSlashesUnique(u, t);
  }
}
