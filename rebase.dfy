/** The asset rebase job (backend/src/scripts/fixImageUrls.js): for the
    projects, then the clients, every stored `imageUrl` that is set and not
    already absolute is rewritten against the configured base and saved. */
module Rebase {
  import opened Wrappers
  import opened Strings

  /** A stored record as the job sees it: its id, its `imageUrl` (possibly
      unset) and its other stored fields. Mongoose's `updatedAt` timestamp,
      which a save also sets, is not part of the record here. */
  datatype Doc = Doc(id: nat, imageUrl: Option<string>, fields: map<string, string>)

  /** The job's test for a value that is already correct. */
  predicate IsAbsolute(v: string) {
    StartsWith(v, "http://") || StartsWith(v, "https://")
  }

  /** The job rewrites a record exactly when its `imageUrl` is set, non-empty
      and not absolute. */
  predicate NeedsFix(d: Doc) {
    d.imageUrl.Some? && d.imageUrl.value != "" && !IsAbsolute(d.imageUrl.value)
  }

  /** The rewritten value: the base without trailing slashes, a '/' unless the
      value already starts with one, and the value. */
  function RebaseUrl(base: string, v: string): (u: string)
    ensures StartsWith(u, StripTrailingSlashes(base)) && EndsWith(u, v)
    ensures |u| == |StripTrailingSlashes(base)| + |v| + (if StartsWith(v, "/") then 0 else 1)
  {
    var b, sep := StripTrailingSlashes(base), if StartsWith(v, "/") then "" else "/";
    assert (b + sep + v)[..|b|] == b;
    assert (b + sep + v)[|b + sep + v| - |v|..] == v;
    b + sep + v
  }

  /** One record after the job has looked at it. Only `imageUrl` can change. */
  function FixDoc(base: string, d: Doc): (r: Doc)
    ensures r.id == d.id && r.fields == d.fields
  {
    if NeedsFix(d) then d.(imageUrl := Some(RebaseUrl(base, d.imageUrl.value))) else d
  }

  /** Every record of a collection after the job has looked at it. */
  function FixAll(base: string, docs: seq<Doc>): (r: seq<Doc>)
    ensures |r| == |docs|
    ensures forall i :: 0 <= i < |docs| ==> r[i] == FixDoc(base, docs[i])
  {
    if docs == [] then [] else [FixDoc(base, docs[0])] + FixAll(base, docs[1..])
  }

  /** Index of the first record whose save fails (`saveOk[i]` is the outcome
      `doc.save()` would have for record `i`), or the number of records when
      every attempted save succeeds. Records that need no rewrite are not saved
      and cannot fail. */
  function FirstFailure(docs: seq<Doc>, saveOk: seq<bool>): (k: nat)
    requires |saveOk| == |docs|
    ensures k <= |docs|
    ensures forall j :: 0 <= j < k ==> !NeedsFix(docs[j]) || saveOk[j]
    ensures k < |docs| ==> NeedsFix(docs[k]) && !saveOk[k]
  {
    if docs == [] then 0
    else if NeedsFix(docs[0]) && !saveOk[0] then 0
    else 1 + FirstFailure(docs[1..], saveOk[1..])
  }

  /** The collection after one pass: the records before the first failing save
      are rewritten, that record and all later ones are left as stored. */
  function FixUntilFailure(base: string, docs: seq<Doc>, saveOk: seq<bool>): (r: seq<Doc>)
    requires |saveOk| == |docs|
    ensures |r| == |docs|
    ensures forall i :: 0 <= i < FirstFailure(docs, saveOk) ==> r[i] == FixDoc(base, docs[i])
    ensures forall i :: FirstFailure(docs, saveOk) <= i < |docs| ==> r[i] == docs[i]
  {
    var k := FirstFailure(docs, saveOk);
    FixAll(base, docs[..k]) + docs[k..]
  }

  /** True when the pass over a collection reaches its end. */
  predicate Completes(docs: seq<Doc>, saveOk: seq<bool>)
    requires |saveOk| == |docs|
    ensures Completes(docs, saveOk) <==>
              forall j :: 0 <= j < |docs| && NeedsFix(docs[j]) ==> saveOk[j]
  {
    FirstFailure(docs, saveOk) == |docs|
  }

  /** `fix(Model, "imageUrl")`: the loop over the loaded records. The array is
      the collection as stored; a record is written back only when its save
      succeeds, and the first failing save rejects, leaving the rest unvisited. */
  method FixCollection(docs: array<Doc>, base: string, saveOk: seq<bool>) returns (ok: bool)
    requires |saveOk| == docs.Length
    modifies docs
    ensures ok == Completes(old(docs[..]), saveOk)
    ensures docs[..] == FixUntilFailure(base, old(docs[..]), saveOk)
  {
    ghost var before := docs[..];
    ghost var k := FirstFailure(before, saveOk);
    var i := 0;
    while i < docs.Length
      invariant 0 <= i <= k
      invariant forall j :: 0 <= j < i ==> docs[j] == FixDoc(base, before[j])
      invariant forall j :: i <= j < docs.Length ==> docs[j] == before[j]
    {
      var current := docs[i].imageUrl;
      if current.None? || current.value == "" {
        i := i + 1;
        continue;
      }
      var isAbsolute := StartsWith(current.value, "http://") || StartsWith(current.value, "https://");
      if isAbsolute {
        i := i + 1;
        continue;
      }
      var newUrl := StripTrailingSlashes(base) +
                    (if StartsWith(current.value, "/") then "" else "/") + current.value;
      if !saveOk[i] {
        FixedPrefix(base, before, docs[..], i, saveOk);
        return false;
      }
      docs[i] := docs[i].(imageUrl := Some(newUrl));
      i := i + 1;
    }
    FixedPrefix(base, before, docs[..], i, saveOk);
    ok := true;
  }

  /** Connects the loop's pointwise invariant to `FixUntilFailure`. */
  lemma FixedPrefix(base: string, before: seq<Doc>, after: seq<Doc>, i: nat, saveOk: seq<bool>)
    requires |saveOk| == |before| == |after|
    requires i == FirstFailure(before, saveOk)
    requires forall j :: 0 <= j < i ==> after[j] == FixDoc(base, before[j])
    requires forall j :: i <= j < |after| ==> after[j] == before[j]
    ensures after == FixUntilFailure(base, before, saveOk)
  {
    var r := FixUntilFailure(base, before, saveOk);
    assert |FixAll(base, before[..i])| == i;
    forall j | 0 <= j < |after| ensures after[j] == r[j] {
      if j < i {
        assert r[j] == FixAll(base, before[..i])[j];
      } else {
        assert r[j] == before[i..][j - i];
      }
    }
  }

  /** The job's configuration: `FILE_BASE_URL` and `MONGO_URI`. */
  datatype Env = Env(fileBaseUrl: Option<string>, mongoUri: Option<string>)

  /** `process.env.FILE_BASE_URL || ""`. */
  function Base(env: Env): string {
    env.fileBaseUrl.GetOr("")
  }

  /** Both settings present and non-empty. */
  predicate Configured(env: Env) {
    Base(env) != "" && env.mongoUri.Some? && env.mongoUri.value != ""
  }

  /** `run()`: checks the configuration, connects (`connectOk` is the
      connection's outcome), fixes the projects, then the clients, and returns
      the process exit status. Any rejection ends the run with status 1. */
  method Run(env: Env, connectOk: bool, projects: array<Doc>, projectSaves: seq<bool>,
             clients: array<Doc>, clientSaves: seq<bool>) returns (exitCode: int)
    requires projects != clients
    requires |projectSaves| == projects.Length && |clientSaves| == clients.Length
    modifies projects, clients
    ensures !Configured(env) || !connectOk ==>
              exitCode == 1 && projects[..] == old(projects[..]) && clients[..] == old(clients[..])
    ensures Configured(env) && connectOk ==>
              projects[..] == FixUntilFailure(Base(env), old(projects[..]), projectSaves) &&
              clients[..] == (if Completes(old(projects[..]), projectSaves)
                              then FixUntilFailure(Base(env), old(clients[..]), clientSaves)
                              else old(clients[..])) &&
              exitCode == (if Completes(old(projects[..]), projectSaves) &&
                              Completes(old(clients[..]), clientSaves) then 0 else 1)
  {
    var base := env.fileBaseUrl.GetOr("");
    if base == "" {
      return 1;
    }
    if env.mongoUri.None? || env.mongoUri.value == "" {
      return 1;
    }
    if !connectOk {
      return 1;
    }
    var ok := FixCollection(projects, base, projectSaves);
    if !ok {
      return 1;
    }
    ok := FixCollection(clients, base, clientSaves);
    if !ok {
      return 1;
    }
    exitCode := 0;
  }

  // ---------------------------------------------------------------------------
  // Properties

  /** A record with an unset or empty `imageUrl`, or with one that starts with
      "http://" or "https://", is left exactly as it is, whatever the base. */
  lemma SkipsUnsetAndAbsolute(base: string, d: Doc)
    requires d.imageUrl.None? || d.imageUrl.value == "" || IsAbsolute(d.imageUrl.value)
    ensures FixDoc(base, d) == d
  {
  }

  /** A relative value is rewritten to the stripped base, exactly one '/', and
      the value without its leading '/' (if any); the result ends with the value. */
  lemma {:induction false} RewriteShape(base: string, d: Doc)
    requires NeedsFix(d)
    ensures var b, v := StripTrailingSlashes(base), d.imageUrl.value;
      var r := FixDoc(base, d).imageUrl;
      r.Some? && StartsWith(r.value, b) && EndsWith(r.value, v) &&
      (b == "" || b[|b| - 1] != '/') &&
      r.value[|b|] == '/' &&
      r.value[|b| + 1..] == (if StartsWith(v, "/") then v[1..] else v)
  {
    var b, v := StripTrailingSlashes(base), d.imageUrl.value;
    var u := RebaseUrl(base, v);
    if StartsWith(v, "/") {
      assert u == b + v;
      assert u[|b|..] == v;
    } else {
      assert u == b + ("/" + v);
      assert u[|b|..] == "/" + v;
    }
    assert u[..|b|] == b;
    assert u[|u| - |v|..] == v;
  }

  /** Trailing slashes on the base and a leading slash on the value are
      interchangeable: `("/" + p, base + "/")` gives what `(p, base)` gives. */
  lemma SlashesNormalised(base: string, p: string)
    requires !StartsWith(p, "/")
    ensures RebaseUrl(base + "/", "/" + p) == RebaseUrl(base, p)
  {
    StripTrailingSlashesAppend(base, "/");
    assert StartsWith("/" + p, "/");
  }

  /** With a base whose stripped form is absolute, every rewritten value is
      absolute, so a second pass finds nothing to do. */
  lemma FixedIsAbsolute(base: string, d: Doc)
    requires IsAbsolute(StripTrailingSlashes(base))
    ensures !NeedsFix(FixDoc(base, d))
  {
    if NeedsFix(d) {
      var b, v := StripTrailingSlashes(base), d.imageUrl.value;
      var u := RebaseUrl(base, v);
      assert u == b + ((if StartsWith(v, "/") then "" else "/") + v);
      var rest := (if StartsWith(v, "/") then "" else "/") + v;
      if StartsWith(b, "http://") {
        PrefixExtends(b, rest, "http://");
      } else {
        PrefixExtends(b, rest, "https://");
      }
    }
  }

  lemma PrefixExtends(a: string, b: string, p: string)
    requires StartsWith(a, p)
    ensures StartsWith(a + b, p)
  {
    assert (a + b)[..|p|] == a[..|p|];
  }

  /** Idempotence: with an absolute base, running the job a second time over
      the result of a complete first run saves nothing, cannot fail, and leaves
      every record as the first run left it. */
  lemma {:induction false} SecondRunIsNoOp(base: string, docs: seq<Doc>, saveOk: seq<bool>)
    requires IsAbsolute(StripTrailingSlashes(base))
    requires |saveOk| == |docs|
    ensures Completes(FixAll(base, docs), saveOk)
    ensures FixUntilFailure(base, FixAll(base, docs), saveOk) == FixAll(base, docs)
  {
    var once := FixAll(base, docs);
    forall j | 0 <= j < |docs| ensures !NeedsFix(once[j]) {
      FixedIsAbsolute(base, docs[j]);
    }
    NothingToFix(once, saveOk);
    forall j | 0 <= j < |docs| ensures FixDoc(base, once[j]) == once[j] {
    }
    assert FixAll(base, once) == once;
    assert once[..|once|] == once;
  }

  /** A collection with nothing to rewrite is always completed. */
  lemma {:induction false} NothingToFix(docs: seq<Doc>, saveOk: seq<bool>)
    requires |saveOk| == |docs|
    requires forall j :: 0 <= j < |docs| ==> !NeedsFix(docs[j])
    ensures Completes(docs, saveOk)
  {
    if docs != [] {
      NothingToFix(docs[1..], saveOk[1..]);
    }
  }

  /** When every save succeeds, a pass rewrites the whole collection. */
  lemma AllSavesSucceed(base: string, docs: seq<Doc>, saveOk: seq<bool>)
    requires |saveOk| == |docs|
    requires forall j :: 0 <= j < |saveOk| ==> saveOk[j]
    ensures Completes(docs, saveOk)
    ensures FixUntilFailure(base, docs, saveOk) == FixAll(base, docs)
  {
    assert docs[..|docs|] == docs;
  }

  /** Idempotence needs the absolute base: with a base of at least eight
      characters that is not itself absolute, a rewritten value is relative
      again and a second pass prefixes it once more. */
  lemma SchemelessBasePrefixesAgain(base: string, d: Doc)
    requires NeedsFix(d)
    requires |StripTrailingSlashes(base)| >= 8 && !IsAbsolute(StripTrailingSlashes(base))
    ensures NeedsFix(FixDoc(base, d))
    ensures FixDoc(base, FixDoc(base, d)) != FixDoc(base, d)
  {
    var b := StripTrailingSlashes(base);
    var u := FixDoc(base, d).imageUrl.value;
    RewriteShape(base, d);
    assert u[..7] == b[..7] && u[..8] == b[..8];
    assert !IsAbsolute(u);
    var w := FixDoc(base, FixDoc(base, d)).imageUrl.value;
    assert |w| >= |b| + |u|;
  }

  /** The job's test is on the scheme, not on "http": a stored "httpfoo.jpg"
      is relative and gets rewritten. */
  lemma HttpPrefixedNameIsRelative(base: string, d: Doc)
    requires d.imageUrl == Some("httpfoo.jpg")
    ensures FixDoc(base, d).imageUrl == Some(StripTrailingSlashes(base) + "/httpfoo.jpg")
  {
    var v := "httpfoo.jpg";
    assert !IsAbsolute(v) by {
      assert v[..7][4] != "http://"[4];
      assert v[..8][4] != "https://"[4];
    }
    assert !StartsWith(v, "/") by { assert v[..1][0] != '/'; }
    assert NeedsFix(d);
    assert "/" + v == "/httpfoo.jpg";
    assert RebaseUrl(base, v) == StripTrailingSlashes(base) + ("/" + v);
  }

  /** A base of slashes only strips to "": a relative value gains a leading
      '/', and a value with one is rewritten to itself, so the job is
      idempotent with such a base too. */
  lemma SlashesOnlyBaseIdempotent(base: string, d: Doc)
    requires StripTrailingSlashes(base) == ""
    ensures FixDoc(base, FixDoc(base, d)) == FixDoc(base, d)
  {
    if NeedsFix(d) {
      var v := d.imageUrl.value;
      var u := RebaseUrl(base, v);
      assert u[..1] == "/" by {
        if !StartsWith(v, "/") {
          assert u == "/" + v;
        }
      }
      assert RebaseUrl(base, u) == u;
    }
  }

  /** With a non-empty stripped base, a rewritten value that is still
      relative is rewritten again, to something longer. */
  lemma RelativeResultPrefixedAgain(base: string, d: Doc)
    requires StripTrailingSlashes(base) != ""
    requires NeedsFix(FixDoc(base, d))
    ensures FixDoc(base, FixDoc(base, d)) != FixDoc(base, d)
  {
    var u := FixDoc(base, d).imageUrl.value;
    assert |RebaseUrl(base, u)| > |u|;
  }

  /** The record of the end-to-end scenario: "/uploads/x.jpg" against
      "https://cdn.example.com" becomes "https://cdn.example.com/uploads/x.jpg",
      and a second pass leaves it unchanged. */
  lemma CdnScenario(d: Doc)
    requires d.imageUrl == Some("/uploads/x.jpg")
    ensures FixDoc("https://cdn.example.com", d).imageUrl ==
              Some("https://cdn.example.com/uploads/x.jpg")
    ensures FixDoc("https://cdn.example.com", FixDoc("https://cdn.example.com", d)) ==
              FixDoc("https://cdn.example.com", d)
  {
    var base := "https://cdn.example.com";
    CdnBase();
    assert StartsWith("/uploads/x.jpg", "/");
    assert "/uploads/x.jpg"[..1] == "/";
    assert !IsAbsolute("/uploads/x.jpg") by {
      assert "/uploads/x.jpg"[..7][0] != "http://"[0];
      assert "/uploads/x.jpg"[..8][0] != "https://"[0];
    }
    assert RebaseUrl(base, "/uploads/x.jpg") == base + "/uploads/x.jpg";
    assert NeedsFix(d);
    assert base + "/uploads/x.jpg" == "https://cdn.example.com/uploads/x.jpg";
    FixedIsAbsolute(base, d);
  }

  /** The scenario's base has no trailing '/' and is absolute. */
  lemma CdnBase()
    ensures StripTrailingSlashes("https://cdn.example.com") == "https://cdn.example.com"
    ensures IsAbsolute("https://cdn.example.com")
  {
    assert "https://cdn.example.com"[..8] == "https://";
  }
}
