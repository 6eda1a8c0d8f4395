/** The parts of Node's POSIX `path` module that the upload pipeline relies on:
    `extname`, `basename(path, suffix)` and `dirname`, stated through the last
    path component (the characters after the last '/' that precedes the
    trailing slashes). */
module NodePath {
  import opened Strings
  import opened Wrappers

  /** Index just past the last non-'/' character of `p` (0 when there is none). */
  function ComponentEnd(p: string): (e: nat)
    ensures e <= |p|
    ensures AllSlashes(p[e..])
    ensures e == 0 || p[e - 1] != '/'
  {
    |StripTrailingSlashes(p)|
  }

  /** Index of the first character of the component that ends at `e`: just past
      the last '/' before `e`, or 0. */
  function ComponentStart(p: string, e: nat): (st: nat)
    requires e <= |p|
    ensures st <= e
    ensures forall i :: st <= i < e ==> p[i] != '/'
    ensures st == 0 || p[st - 1] == '/'
    decreases e
  {
    if e == 0 then 0 else if p[e - 1] == '/' then e else ComponentStart(p, e - 1)
  }

  /** The last path component, without trailing slashes. */
  function LastComponent(p: string): (c: string)
    ensures '/' !in c
  {
    var e := ComponentEnd(p);
    p[ComponentStart(p, e)..e]
  }

  /** Index of the last '.' in `c`, if any. */
  function LastDot(c: string): (k: Option<nat>)
    ensures k.Some? ==> k.value < |c| && c[k.value] == '.' &&
                        forall i :: k.value < i < |c| ==> c[i] != '.'
    ensures k.None? ==> '.' !in c
  {
    if |c| == 0 then None
    else if c[|c| - 1] == '.' then Some(|c| - 1)
    else LastDot(c[..|c| - 1])
  }

  /** `path.extname(p)`: from the last '.' of the last component to its end,
      or "" when that component has no '.', when its last '.' is its first
      character (a dot-file such as ".jpg"), or when it is "..". */
  function Extname(p: string): string {
    var c := LastComponent(p);
    match LastDot(c)
    case None => ""
    case Some(k) => if k == 0 || c == ".." then "" else c[k..]
  }

  /** `path.basename(p, suffix)`: the last component, with `suffix` removed when
      it is a proper suffix of that component. Node's quirks are kept: the whole
      path equal to `suffix` gives "", and a component that is itself a proper
      suffix of `suffix` comes back with the path's trailing slashes. */
  function Basename(p: string, suffix: string): string {
    var e := ComponentEnd(p);
    var st := ComponentStart(p, e);
    var c := p[st..e];
    if 0 < |suffix| <= |p| then
      if suffix == p then ""
      else if |suffix| < |c| && EndsWith(c, suffix) then c[..|c| - |suffix|]
      else if |c| < |suffix| && EndsWith(suffix, c) then p[st..]
      else c
    else c
  }

  /** `path.dirname(p)`: everything before the separator that precedes the last
      component; "." for a bare name, "/" for a name directly under the root,
      and Node's "//" for a name under a leading "//". */
  function Dirname(p: string): string {
    if |p| == 0 then "."
    else
      var st := ComponentStart(p, ComponentEnd(p));
      if ComponentEnd(p) == 0 || st <= 1 then (if p[0] == '/' then "/" else ".")
      else if p[0] == '/' && st == 2 then "//"
      else p[..st - 1]
  }

  /** A directory and a file name joined by one '/' (the output location of
      the normaliser; `path.join`'s resolution of "." and ".." is not modelled). */
  function JoinPath(dir: string, name: string): string {
    dir + "/" + name
  }

  // ---------------------------------------------------------------------------
  // Properties

  /** An extension is empty or a '.' followed by characters other than '.'
      and '/', and the file name ends with it. */
  lemma ExtnameShape(p: string)
    ensures var x := Extname(p);
      (x == "" || (x[0] == '.' && '/' !in x && '.' !in x[1..])) &&
      EndsWith(LastComponent(p), x)
  {
    var c := LastComponent(p);
    match LastDot(c)
    case None =>
    case Some(k) =>
      if k != 0 && c != ".." {
        assert Extname(p) == c[k..];
        assert forall i :: 1 <= i < |c[k..]| ==> c[k..][i] == c[k + i];
      }
  }

  /** For a file name without '/', `basename(f, x)` is `f` with one trailing
      `x` removed when `f` ends with a non-empty `x`, and `f` otherwise. */
  lemma {:induction false} BasenameOfPlainName(f: string, x: string)
    requires '/' !in f
    ensures Basename(f, x) == if x != "" && EndsWith(f, x) then f[..|f| - |x|] else f
  {
    NoSlashComponent(f);
  }

  /** A name without '/' is its own (only) component. */
  lemma {:induction false} NoSlashComponent(f: string)
    requires '/' !in f
    ensures ComponentEnd(f) == |f| && ComponentStart(f, |f|) == 0
  {
    if |f| > 0 {
      assert f[|f| - 1] in f;
      assert StripTrailingSlashes(f) == f;
    }
    NoSlashStart(f, |f|);
  }

  lemma {:induction false} NoSlashStart(f: string, e: nat)
    requires '/' !in f && e <= |f|
    ensures ComponentStart(f, e) == 0
    decreases e
  {
    if e > 0 {
      assert f[e - 1] in f;
      NoSlashStart(f, e - 1);
    }
  }

  /** Under Node's `extname`, the name ".jpg" has no extension. */
  lemma DotFileHasNoExtension()
    ensures Extname(".jpg") == ""
  {
    NoSlashComponent(".jpg");
    assert LastComponent(".jpg") == ".jpg";
    assert LastDot(".jpg") == Some(0);
  }

  /** An ordinary file name keeps its last extension. */
  lemma ExtnameOfPhoto()
    ensures Extname("photo.final.png") == ".png"
  {
    NoSlashComponent("photo.final.png");
    assert LastComponent("photo.final.png") == "photo.final.png";
    assert LastDot("photo.final.png"[..14]) == Some(11);
  }

  /** Joining a directory and a plain name gives a path whose directory is
      that directory and whose last component is that name. */
  lemma {:induction false} JoinPathParts(dir: string, name: string)
    requires dir != "" && dir[|dir| - 1] != '/'
    requires name != "" && '/' !in name
    ensures Dirname(JoinPath(dir, name)) == dir
    ensures LastComponent(JoinPath(dir, name)) == name
  {
    var p := JoinPath(dir, name);
    assert p[|p| - 1] == name[|name| - 1];
    assert name[|name| - 1] in name;
    assert StripTrailingSlashes(p) == p;
    JoinStart(dir, name, |p|);
    assert p[|dir| + 1..] == name;
    assert p[..|dir|] == dir;
  }

  lemma {:induction false} JoinStart(dir: string, name: string, e: nat)
    requires '/' !in name
    requires |dir| + 1 <= e <= |dir| + 1 + |name|
    ensures ComponentStart(dir + "/" + name, e) == |dir| + 1
    decreases e
  {
    var p := dir + "/" + name;
    if e > |dir| + 1 {
      assert p[e - 1] == name[e - 1 - |dir| - 1];
      assert name[e - 1 - |dir| - 1] in name;
      JoinStart(dir, name, e - 1);
    } else {
      assert p[e - 1] == '/';
    }
  }
}
