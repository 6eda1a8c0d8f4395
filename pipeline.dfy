/** End-to-end properties that cross components: the seeded administrator can
    log in, URLs built at creation time survive the rebase job, and the two
    different "already absolute" tests of the job and of the landing page. */
module Pipeline {
  import opened Wrappers
  import opened Strings
  import opened Http
  import opened Auth
  import opened Server
  import opened Crop
  import opened Clients
  import opened Rebase
  import opened Landing

  /** With no seed configuration, the administrator seeded into an empty
      table can log in with "admin@example.com" / "admin123" and receives a
      token over its id and email that expires 172800 seconds after `now`. */
  lemma SeededAdminCanLogin(hash: string -> string, newId: nat, isEmail: string -> bool,
                            matches: (string, string) -> bool,
                            sign: (Claims, string) -> string, jwtSecret: Option<string>, now: int)
    requires isEmail("admin@example.com")
    requires matches("admin123", hash("admin123"))
    ensures var admins := Seed([], SeedEnv(None, None), hash, newId);
      Login(LoginForm(Some("admin@example.com"), Some("admin123")), admins, isEmail, matches,
            sign, jwtSecret, now) ==
        Response(200, Token(sign(Claims(newId, "admin@example.com", now, now + 172800),
                                 Secret(jwtSecret)),
                            "admin@example.com"))
  {
    var admins := Seed([], SeedEnv(None, None), hash, newId);
    SeedDefaults(hash, newId);
    assert FindByEmail(admins, "admin@example.com") == Some(admins[0]);
  }

  /** A client created with a configured absolute `FILE_BASE_URL` stores an
      absolute URL, which the rebase job leaves alone whatever its own base. */
  lemma CreatedUrlSurvivesRebase(url: string, protocol: string, host: Option<string>,
                                 f: UploadedFile, jobBase: string, d: Doc)
    requires IsAbsolute(StripTrailingSlashes(url))
    requires d.imageUrl == Some(ImageUrl(ResolveBase(Some(url), protocol, host), PublicPath(f)))
    ensures FixDoc(jobBase, d) == d
  {
    var b := StripTrailingSlashes(url);
    assert url != "";
    assert ResolveBase(Some(url), protocol, host) == b;
    if StartsWith(b, "http://") {
      PrefixExtends(b, PublicPath(f), "http://");
    } else {
      PrefixExtends(b, PublicPath(f), "https://");
    }
  }

  /** A URL rewritten by the job against an absolute base is shown by the
      landing page exactly as stored. */
  lemma RebasedUrlShownAsStored(base: string, d: Doc, viteApiUrl: Option<string>)
    requires IsAbsolute(StripTrailingSlashes(base)) && NeedsFix(d)
    ensures var u := FixDoc(base, d).imageUrl.value;
      BuildImageUrl(u, viteApiUrl) == u
  {
    FixedIsAbsolute(base, d);
    var u := FixDoc(base, d).imageUrl.value;
    assert IsAbsolute(u);
    assert u[..4] == "http" by {
      if StartsWith(u, "http://") {
        assert u[..4] == u[..7][..4];
      } else {
        assert u[..4] == u[..8][..4];
      }
    }
  }

  /** The two "already absolute" tests differ: a stored "httpfoo.jpg" is shown
      by the landing page as it is, but the rebase job treats it as relative. */
  lemma AbsoluteTestsDiffer(d: Doc, viteApiUrl: Option<string>)
    requires d.imageUrl == Some("httpfoo.jpg")
    ensures BuildImageUrl("httpfoo.jpg", viteApiUrl) == "httpfoo.jpg"
    ensures FixDoc("https://cdn.example.com", d).imageUrl ==
              Some("https://cdn.example.com" + "/httpfoo.jpg")
  {
    HttpPrefixedNameUnchanged(viteApiUrl);
    HttpPrefixedNameIsRelative("https://cdn.example.com", d);
    CdnBase();
  }
}
