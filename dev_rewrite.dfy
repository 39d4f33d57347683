/** The `landing-pages-dev-rewrite` middleware of vite.config.ts: in the
    development server a request for one of the static landing pages, with
    or without a trailing slash, is served from that page's `index.html`,
    keeping the query string. */
module DevRewrite {

  import opened Wrappers
  import opened Text

  /** The landing pages the table covers, in its order. */
  const LandingPaths: seq<string> := [
    "/cheap-flights-from-london-to-dubai",
    "/flights-from-london-to-dubai",
    "/cheap-flights-from-london-to-lagos",
    "/flights-from-london-to-lagos",
    "/cheap-flights-from-london-to-accra",
    "/flights-from-london-to-accra",
    "/cheap-flights-from-london-to-harare",
    "/flights-from-london-to-harare",
    "/cheap-flights-from-london-to-entebbe",
    "/flights-from-london-to-entebbe",
    "/flights-to-dubai-from-uk",
    "/flights-to-lagos-from-uk",
    "/flights-to-accra-from-uk",
    "/flights-to-harare-from-uk",
    "/flights-to-entebbe-from-uk",
    "/flight-deals-to-nairobi",
    "/holiday-packages-to-zanzibar"
  ]

  /** The file a landing page is served from. */
  function Page(path: string): string
  {
    path + "/index.html"
  }

  /** The rewrite table: each path, then the same path with a trailing
      slash, both to the page's `index.html`. */
  function Entries(paths: seq<string>): (r: seq<(string, string)>)
    ensures |r| == 2 * |paths|
  {
    seq(2 * |paths|, k requires 0 <= k < 2 * |paths| =>
      (if k % 2 == 0 then paths[k / 2] else paths[k / 2] + "/", Page(paths[k / 2])))
  }

  const Rewrites: seq<(string, string)> := Entries(LandingPaths)

  /** `rewrites[pathname]` on the table's own keys: the first entry with
      that key. */
  function Lookup(table: seq<(string, string)>, key: string): (r: Option<string>)
    ensures r.Some? ==> exists k :: 0 <= k < |table| && table[k] == (key, r.value)
    ensures r.None? ==> forall k :: 0 <= k < |table| ==> table[k].0 != key
  {
    if table == [] then None
    else if table[0].0 == key then Some(table[0].1)
    else Lookup(table[1..], key)
  }

  /** A key that the table has, with the same value wherever it occurs,
      is looked up to that value. */
  lemma LookupUniform(table: seq<(string, string)>, key: string, k: nat, v: string)
    requires k < |table| && table[k] == (key, v)
    requires forall j :: 0 <= j < |table| && table[j].0 == key ==> table[j].1 == v
    ensures Lookup(table, key) == Some(v)
  {
  }

  predicate NoTrailingSlash(paths: seq<string>)
  {
    forall i :: 0 <= i < |paths| ==> paths[i] != [] && paths[i][|paths[i]| - 1] != '/'
  }

  lemma LandingPathsHaveNoTrailingSlash()
    ensures NoTrailingSlash(LandingPaths)
  {
  }

  /** Two paths with the same slashed form are the same path. */
  lemma SlashedEqual(p: string, q: string)
    ensures p + "/" == q + "/" ==> p == q
  {
    assert p == (p + "/")[..|p|] && q == (q + "/")[..|q|];
  }

  /** A path that does not end in `/` is no path's slashed form. */
  lemma NotSlashed(q: string, p: string)
    requires q != [] && q[|q| - 1] != '/'
    ensures q != p + "/"
  {
    assert (p + "/")[|p + "/"| - 1] == '/';
  }

  /** Every listed path is rewritten to its page: no other entry has it
      as key, since no path ends in `/`. */
  lemma EntryTarget(paths: seq<string>, i: nat)
    requires NoTrailingSlash(paths) && i < |paths|
    ensures Lookup(Entries(paths), paths[i]) == Some(Page(paths[i]))
  {
    var t := Entries(paths);
    var q := paths[i];
    forall j | 0 <= j < |t| && t[j].0 == q
      ensures t[j].1 == Page(q)
    {
      if j % 2 == 1 {
        NotSlashed(q, paths[j / 2]);
      }
    }
    assert t[2 * i] == (q, Page(q));
    LookupUniform(t, q, 2 * i, Page(q));
  }

  /** Every listed path with a trailing slash is rewritten to its page
      too: the slashed form of no other path, and no path itself, is the
      same text. */
  lemma SlashedEntryTarget(paths: seq<string>, i: nat)
    requires NoTrailingSlash(paths) && i < |paths|
    ensures Lookup(Entries(paths), paths[i] + "/") == Some(Page(paths[i]))
  {
    var t := Entries(paths);
    var q := paths[i];
    forall j | 0 <= j < |t| && t[j].0 == q + "/"
      ensures t[j].1 == Page(q)
    {
      if j % 2 == 0 {
        NotSlashed(paths[j / 2], q);
      } else {
        SlashedEqual(paths[j / 2], q);
      }
    }
    assert t[2 * i + 1] == (q + "/", Page(q));
    LookupUniform(t, q + "/", 2 * i + 1, Page(q));
  }

  /** Nothing but the listed paths and their slashed forms is
      rewritten. */
  lemma EntryKeys(paths: seq<string>, key: string)
    requires Lookup(Entries(paths), key).Some?
    ensures exists i :: 0 <= i < |paths| && (key == paths[i] || key == paths[i] + "/")
  {
    var t := Entries(paths);
    var k :| 0 <= k < |t| && t[k].0 == key;
    assert key == paths[k / 2] || key == paths[k / 2] + "/";
  }

  /** Each landing page, with or without a trailing slash, maps to its
      `index.html`. */
  lemma LandingPathTargets(i: nat)
    requires i < |LandingPaths|
    ensures Lookup(Rewrites, LandingPaths[i]) == Some(Page(LandingPaths[i]))
    ensures Lookup(Rewrites, LandingPaths[i] + "/") == Some(Page(LandingPaths[i]))
  {
    LandingPathsHaveNoTrailingSlash();
    EntryTarget(LandingPaths, i);
    SlashedEntryTarget(LandingPaths, i);
  }

  /** The table maps the landing pages and nothing else. */
  lemma OnlyLandingPaths(key: string)
    requires Lookup(Rewrites, key).Some?
    ensures exists i :: 0 <= i < |LandingPaths| && (key == LandingPaths[i] || key == LandingPaths[i] + "/")
  {
    EntryKeys(LandingPaths, key);
  }

  // ---------------------------------------------------------------------
  // The URL

  /** `const [pathname, query = ""] = url.split("?")`. */
  function SplitUrl(url: string): (r: (string, string))
  {
    var parts := Split(url, '?');
    (parts[0], if |parts| > 1 then parts[1] else "")
  }

  /** `query ? "?" + query : ""`. */
  function Suffix(query: string): string
  {
    if query != "" then "?" + query else ""
  }

  /** The new `req.url`. */
  function RewriteUrl(url: string): (r: string)
    ensures var target := Lookup(Rewrites, SplitUrl(url).0);
      r == if target.Some? && target.value != "" then target.value + Suffix(SplitUrl(url).1) else url
  {
    var (pathname, query) := SplitUrl(url);
    match Lookup(Rewrites, pathname)
    case Some(target) => if target != "" then target + Suffix(query) else url
    case None => url
  }

  /** A URL without `?` is all path. */
  lemma SplitWithoutQuery(url: string)
    requires '?' !in url
    ensures SplitUrl(url) == (url, "")
  {
    IndexOfAbsent(url, '?');
  }

  lemma SplitAtMark(a: string, b: string)
    requires '?' !in a
    ensures Split(a + "?" + b, '?') == [a] + Split(b, '?')
  {
    IndexOfPrefix(a, "?" + b, '?');
    assert a + "?" + b == a + ("?" + b);
    assert (a + "?" + b)[..|a|] == a && (a + "?" + b)[|a| + 1..] == b;
  }

  /** The query is the text after the first `?`, when there is no
      other. */
  lemma SplitOneQuery(path: string, query: string)
    requires '?' !in path && '?' !in query
    ensures SplitUrl(path + "?" + query) == (path, query)
  {
    SplitAtMark(path, query);
    IndexOfAbsent(query, '?');
    assert Split(query, '?') == [query];
  }

  /** The query is the text between the first and the second `?`;
      whatever follows a second `?` is dropped. */
  lemma SplitKeepsFirstQuery(path: string, query: string, rest: string)
    requires '?' !in path && '?' !in query
    ensures SplitUrl(path + "?" + (query + "?" + rest)) == (path, query)
  {
    SplitAtMark(query, rest);
    SplitAtMark(path, query + "?" + rest);
  }

  /** A URL whose path is a landing page, bare or with a trailing slash,
      is rewritten to the page's file, the query kept behind a `?` when
      there is one. */
  lemma LandingPageRewritten(url: string, i: nat)
    requires i < |LandingPaths|
    requires SplitUrl(url).0 == LandingPaths[i] || SplitUrl(url).0 == LandingPaths[i] + "/"
    ensures RewriteUrl(url) == Page(LandingPaths[i]) + Suffix(SplitUrl(url).1)
  {
    LandingPathTargets(i);
  }

  /** A path outside the table leaves the URL as it is. */
  lemma UnmappedUnchanged(url: string)
    requires Lookup(Rewrites, SplitUrl(url).0).None?
    ensures RewriteUrl(url) == url
  {
  }

  /** A rewritten URL has its own `?`-free path cut off and a table
      target put first. */
  lemma MappedRewrite(url: string)
    requires Lookup(Rewrites, SplitUrl(url).0).Some?
    ensures exists i :: 0 <= i < |LandingPaths| && RewriteUrl(url) == Page(LandingPaths[i]) + Suffix(SplitUrl(url).1)
  {
    var key := SplitUrl(url).0;
    OnlyLandingPaths(key);
    var i :| 0 <= i < |LandingPaths| && (key == LandingPaths[i] || key == LandingPaths[i] + "/");
    LandingPathTargets(i);
  }

  // ---------------------------------------------------------------------
  // The middleware

  /** The request as the middleware sees it, and how often `next` has
      been called on it. */
  class DevRequest {
    var url: Option<string>
    var nextCalls: nat

    constructor(url: Option<string>)
      ensures this.url == url && nextCalls == 0
    {
      this.url := url;
      nextCalls := 0;
    }

    /** The middleware: a missing or empty URL passes through, otherwise
        a mapped path is rewritten; `next` is called once either way. */
    method Handle()
      modifies this
      ensures old(url).None? || old(url) == Some("") ==> url == old(url)
      ensures old(url).Some? ==> url == Some(RewriteUrl(old(url).value))
      ensures nextCalls == old(nextCalls) + 1
    {
      var u := url;
      if u.None? || u.value == "" {
        nextCalls := nextCalls + 1;
        return;
      }
      var (pathname, query) := SplitUrl(u.value);
      var suffix := if query != "" then "?" + query else "";
      var target := Lookup(Rewrites, pathname);
      if target.Some? && target.value != "" {
        url := Some(target.value + suffix);
      }
      nextCalls := nextCalls + 1;
    }
  }
}
