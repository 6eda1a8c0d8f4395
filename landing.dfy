/** The landing page's `buildImageUrl` (frontend/src/pages/Landing.tsx): turns
    a stored `imageUrl` into something an `<img src>` can load. */
module Landing {
  import opened Wrappers
  import opened Strings

  const DefaultApiUrl := "http://localhost:4000/api"

  /** `s.replace(/\/api\/?$/, "")`: removes one trailing "/api" or "/api/". */
  function StripApiSuffix(s: string): (r: string)
    ensures EndsWith(s, "/api/") ==> s == r + "/api/"
    ensures EndsWith(s, "/api") ==> s == r + "/api"
    ensures !EndsWith(s, "/api/") && !EndsWith(s, "/api") ==> r == s
  {
    if EndsWith(s, "/api/") then
      assert s[|s| - 1] == "/api/"[4] != "/api"[3];
      s[..|s| - 5]
    else if EndsWith(s, "/api") then s[..|s| - 4]
    else s
  }

  /** `(VITE_API_URL || "http://localhost:4000/api")` without its "/api". */
  function ApiOrigin(viteApiUrl: Option<string>): string {
    var configured := viteApiUrl.GetOr("");
    StripApiSuffix(if configured != "" then configured else DefaultApiUrl)
  }

  /** `buildImageUrl(imageUrl)`: "" for an empty value, the value itself when it
      starts with "http", and otherwise the API origin, a '/' unless the value
      starts with one, and the value. */
  function BuildImageUrl(imageUrl: string, viteApiUrl: Option<string>): (r: string)
    ensures imageUrl == "" <==> r == ""
    ensures StartsWith(imageUrl, "http") ==> r == imageUrl
    ensures EndsWith(r, imageUrl)
  {
    if imageUrl == "" then ""
    else if StartsWith(imageUrl, "http") then imageUrl
    else
      var rest := (if StartsWith(imageUrl, "/") then "" else "/") + imageUrl;
      assert (ApiOrigin(viteApiUrl) + rest)[|ApiOrigin(viteApiUrl) + rest| - |imageUrl|..] == imageUrl;
      ApiOrigin(viteApiUrl) + rest
  }

  // ---------------------------------------------------------------------------
  // Properties

  /** Without `VITE_API_URL` (or with it empty) the origin is
      "http://localhost:4000". */
  lemma DefaultOrigin(viteApiUrl: Option<string>)
    requires viteApiUrl.None? || viteApiUrl.value == ""
    ensures ApiOrigin(viteApiUrl) == "http://localhost:4000"
  {
    assert EndsWith(DefaultApiUrl, "/api");
    assert !EndsWith(DefaultApiUrl, "/api/") by {
      assert DefaultApiUrl[|DefaultApiUrl| - 1] != '/';
    }
  }

  /** Only one "/api" is removed: "https://h/api/api/" keeps one. */
  lemma OneApiSuffixRemoved()
    ensures ApiOrigin(Some("https://h/api/api/")) == "https://h/api"
  {
    assert EndsWith("https://h/api/api/", "/api/");
  }

  /** A relative value is joined to the origin by exactly one appended part:
      the value itself after "/" or directly when it starts with "/". */
  lemma RelativeJoin(imageUrl: string, viteApiUrl: Option<string>)
    requires imageUrl != "" && !StartsWith(imageUrl, "http")
    ensures var o := ApiOrigin(viteApiUrl);
      BuildImageUrl(imageUrl, viteApiUrl) ==
        if StartsWith(imageUrl, "/") then o + imageUrl else o + "/" + imageUrl
  {
  }

  /** The "already absolute" test is only a prefix test on "http": a relative
      file name such as "httpfoo.jpg" is returned unchanged. */
  lemma HttpPrefixedNameUnchanged(viteApiUrl: Option<string>)
    ensures BuildImageUrl("httpfoo.jpg", viteApiUrl) == "httpfoo.jpg"
  {
    assert StartsWith("httpfoo.jpg", "http");
  }
}
