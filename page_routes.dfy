/**
 * The application-level GET handler for every path below `/api/pages/`: it decides whether
 * a request path is handed on to the pages router or answered as a lookup
 * by slug, with multi-segment slugs kept as one key.
 */
module PageRoutes {
  import opened Strings
  import Validation

  /** What the handler does with a path: hand it on (`next()`), or look the slug up. */
  datatype Intent = PassOn | GetBySlug(slug: string)

  const PagesRoot: string := "/api/pages"
  const PagesPrefix: string := "/api/pages/"
  /** The by-identifier route, which the router serves. */
  const ReservedIdPrefix: string := "/api/pages/id/"

  /** `s.replace(/^<prefix>/, '')` */
  function StripPrefix(s: string, prefix: string): (r: string)
    ensures StartsWith(s, prefix) ==> s == prefix + r
    ensures !StartsWith(s, prefix) ==> r == s
  {
    if StartsWith(s, prefix) then s[|prefix|..] else s
  }

  /** `s.replace(/^\//, '')`: at most one leading `/` is removed. */
  function StripLeadingSlash(s: string): (r: string)
    ensures s == r || s == "/" + r
    ensures |s| > 0 && s[0] == '/' ==> s == "/" + r
  {
    if |s| > 0 && s[0] == '/' then s[1..] else s
  }

  /** The handler's decision for the request path `path`. */
  function ResolvePagePath(path: string): (r: Intent)
    ensures r.GetBySlug? ==> r.slug != ""
  {
    if path == PagesRoot || StartsWith(path, ReservedIdPrefix) then PassOn
    else
      var slug := StripLeadingSlash(StripPrefix(path, PagesPrefix));
      if slug != "" then GetBySlug(slug) else PassOn
  }

  /** The reserved routes win: the collection path and anything under `/api/pages/id/` are handed on. */
  lemma ReservedRoutesPassOn(path: string)
    requires path == PagesRoot || StartsWith(path, ReservedIdPrefix)
    ensures ResolvePagePath(path) == PassOn
  {
  }

  /** No slug is ever produced from a path under `/api/pages/id/`. */
  lemma NoSlugUnderReservedPrefix(path: string)
    requires ResolvePagePath(path).GetBySlug?
    ensures !StartsWith(path, ReservedIdPrefix) && path != PagesRoot
  {
  }

  /**
   * A resolved slug is the path with `/api/pages/` and then at most one
   * more `/` removed from its front; nothing else of the path is changed.
   */
  lemma ResolvedSlugIsPathSuffix(path: string)
    requires StartsWith(path, PagesPrefix) && ResolvePagePath(path).GetBySlug?
    ensures var slug := ResolvePagePath(path).slug;
            path == PagesPrefix + slug || path == PagesPrefix + "/" + slug
  {
    var rest := StripPrefix(path, PagesPrefix);
    assert path == PagesPrefix + rest;
  }

  /**
   * Exactly which slugs the handler serves: the path `/api/pages/<s>` is
   * looked up as `s` itself if and only if `s` is non-empty, does not start
   * with `/` and does not start with the reserved `id/`.
   */
  lemma {:induction false} SlugReachable(s: string)
    ensures ResolvePagePath(PagesPrefix + s) == GetBySlug(s)
        <==> s != "" && s[0] != '/' && !StartsWith(s, "id/")
  {
    var path := PagesPrefix + s;
    assert StartsWith(path, PagesPrefix);
    assert path[..|PagesPrefix|] == PagesPrefix;
    assert path[|PagesPrefix|..] == s;
    assert StartsWith(path, ReservedIdPrefix) <==> StartsWith(s, "id/") by {
      if |s| >= 3 {
        assert path[..|ReservedIdPrefix|] == PagesPrefix + s[..3];
      }
    }
    assert path != PagesRoot by {
      assert |path| > |PagesRoot|;
    }
  }

  /** A multi-segment slug is one lookup key, its interior `/` kept. */
  lemma NestedSlugIsOneKey()
    ensures ResolvePagePath("/api/pages/news/technology") == GetBySlug("news/technology")
  {
    SlugReachable("news/technology");
    assert PagesPrefix + "news/technology" == "/api/pages/news/technology";
  }

  /** The bare prefix yields an empty slug and is handed on, not looked up. */
  lemma EmptySlugPassesOn()
    ensures ResolvePagePath("/api/pages/") == PassOn
    ensures ResolvePagePath("/api/pages//") == PassOn
  {
    assert StartsWith("/api/pages/", PagesPrefix);
    assert StartsWith("/api/pages//", PagesPrefix);
    assert !StartsWith("/api/pages/", ReservedIdPrefix);
    assert !StartsWith("/api/pages//", ReservedIdPrefix);
  }

  /** Without its trailing slash, `/api/pages/id` escapes the reserved test and is looked up as the slug `id`. */
  lemma BareIdIsASlug()
    ensures ResolvePagePath("/api/pages/id") == GetBySlug("id")
  {
    SlugReachable("id");
    assert PagesPrefix + "id" == "/api/pages/id";
  }

  /**
   * The path tests are case-sensitive, while route matching that reaches
   * the handler need not be: an upper-case path is looked up whole, as a
   * slug, and `/api/pages/ID/...` escapes the reserved test.
   */
  lemma CaseVariantPathsAreSlugs()
    ensures ResolvePagePath("/API/PAGES/home") == GetBySlug("API/PAGES/home")
    ensures ResolvePagePath("/api/pages/ID/x") == GetBySlug("ID/x")
  {
    assert "/API/PAGES/home"[..|PagesPrefix|][1] != PagesPrefix[1];
    assert "/API/PAGES/home"[..|ReservedIdPrefix|][1] != ReservedIdPrefix[1];
    assert StartsWith("/api/pages/ID/x", PagesPrefix);
    assert "/api/pages/ID/x"[..|ReservedIdPrefix|][11] != ReservedIdPrefix[11];
  }

  /**
   * Which stored slugs can be fetched through this handler: a valid slug is
   * served at `/api/pages/<slug>` unless it begins with `/` or with `id/`.
   */
  lemma ValidSlugReachable(slug: string)
    requires Validation.ValidateSlug(slug)
    ensures ResolvePagePath(PagesPrefix + slug) == GetBySlug(slug)
        <==> slug[0] != '/' && !StartsWith(slug, "id/")
  {
    SlugReachable(slug);
  }
}
