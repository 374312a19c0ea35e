/** URL provenance and the subdirectory scope rule (`CrawledUrl::push_new`,
    `UrlFilter`). */
module Filter {
  import opened Urls

  /** Derives the entry for a link found on `parent`'s page: one hop deeper,
      and one origin change deeper exactly when the link leaves the parent's
      origin. */
  function PushNew(parent: CrawledUrl, next: Url): (child: CrawledUrl)
    ensures child.url == next
    ensures child.depth == parent.depth + 1
    ensures child.originDepth == parent.originDepth <==> OriginOf(parent.url) == OriginOf(next)
    ensures parent.originDepth <= child.originDepth <= parent.originDepth + 1
    ensures parent.originDepth <= parent.depth ==> child.originDepth <= child.depth
  {
    var isOtherOrigin := OriginOf(parent.url) != OriginOf(next);
    CrawledUrl(next, parent.depth + 1, parent.originDepth + if isOtherOrigin then 1 else 0)
  }

  /** The entry reached by following `path` link by link from `start`. */
  function Descend(start: CrawledUrl, path: seq<Url>): CrawledUrl
    decreases |path|
  {
    if path == [] then start else Descend(PushNew(start, path[0]), path[1..])
  }

  /** The number of origin changes between consecutive URLs of `hops`,
      counted from the last hop backwards. */
  function OriginChanges(hops: seq<Url>): nat
    decreases |hops|
  {
    if |hops| < 2 then 0
    else OriginChanges(hops[..|hops| - 1])
         + (if OriginOf(hops[|hops| - 2]) != OriginOf(hops[|hops| - 1]) then 1 else 0)
  }

  lemma {:induction false} DescendSnoc(start: CrawledUrl, path: seq<Url>, last: Url)
    ensures Descend(start, path + [last]) == PushNew(Descend(start, path), last)
    decreases |path|
  {
    if path == [] {
      assert path + [last] == [last];
    } else {
      assert (path + [last])[1..] == path[1..] + [last];
      DescendSnoc(PushNew(start, path[0]), path[1..], last);
    }
  }

  /** Starting from a root (depth 0, origin depth 0), the entry reached along
      `path` has depth equal to the number of hops and origin depth equal to
      the number of origin changes along root and path; hence origin depth
      never exceeds depth. */
  lemma {:induction false} DescendCountsHops(root: Url, path: seq<Url>)
    ensures Descend(RootEntry(root), path).url == if path == [] then root else path[|path| - 1]
    ensures Descend(RootEntry(root), path).depth == |path|
    ensures Descend(RootEntry(root), path).originDepth == OriginChanges([root] + path)
    ensures Descend(RootEntry(root), path).originDepth <= Descend(RootEntry(root), path).depth
    decreases |path|
  {
    if path != [] {
      var init, last := path[..|path| - 1], path[|path| - 1];
      assert path == init + [last];
      DescendSnoc(RootEntry(root), init, last);
      DescendCountsHops(root, init);
      var hops := [root] + path;
      assert hops[..|hops| - 1] == [root] + init;
      assert hops[|hops| - 2] == if init == [] then root else init[|init| - 1];
    }
  }

  datatype UrlFilterRules = UrlFilterRules(onlySubdirs: bool)

  /** A scope filter over a borrowed list of roots. */
  datatype UrlFilter = UrlFilter(rules: UrlFilterRules, roots: seq<Url>)

  function New(rules: UrlFilterRules, roots: seq<Url>): (f: UrlFilter)
    ensures f.rules == rules && f.roots == roots
  {
    UrlFilter(rules, roots)
  }

  /** `roots.iter().any(..)`: some root has `url` under it. */
  function AnyRoot(roots: seq<Url>, url: Url): (b: bool)
    ensures b <==> exists i :: 0 <= i < |roots| && UnderRoot(roots[i], url)
    decreases |roots|
  {
    if roots == [] then false
    else UnderRoot(roots[0], url) || AnyRoot(roots[1..], url)
  }

  predicate Matches(f: UrlFilter, url: Url)
  {
    if f.rules.onlySubdirs && !AnyRoot(f.roots, url) then false else true
  }

  /** With the subdirectory rule on, a URL matches exactly when some root
      shares its scheme, port and host and has a path that prefixes its path;
      with the rule off, every URL matches. */
  lemma MatchesIff(f: UrlFilter, url: Url)
    ensures f.rules.onlySubdirs ==>
      (Matches(f, url) <==> exists i :: 0 <= i < |f.roots| && UnderRoot(f.roots[i], url))
    ensures !f.rules.onlySubdirs ==> Matches(f, url)
  {
  }

  /** With the subdirectory rule on and no roots, nothing matches. */
  lemma NoRootsMatchNothing(rules: UrlFilterRules, url: Url)
    requires rules.onlySubdirs
    ensures !Matches(UrlFilter(rules, []), url)
  {
  }

  /** Every root is in scope of its own filter. */
  lemma RootMatchesItself(f: UrlFilter, i: nat)
    requires i < |f.roots|
    ensures Matches(f, f.roots[i])
  {
    assert UnderRoot(f.roots[i], f.roots[i]);
  }

  /** Adding roots never turns a match into a non-match. */
  lemma MatchesMonotone(f: UrlFilter, more: seq<Url>, url: Url)
    requires Matches(f, url)
    ensures Matches(UrlFilter(f.rules, f.roots + more), url)
  {
    if f.rules.onlySubdirs {
      var i :| 0 <= i < |f.roots| && UnderRoot(f.roots[i], url);
      assert (f.roots + more)[i] == f.roots[i];
    }
  }

  /** The scope example: with root `https://a.example/docs/`, the page
      `https://a.example/docs/x` is kept while `https://a.example/other` and
      `https://b.example/docs/x` are dropped. */
  lemma ScopeExample()
    ensures var f := UrlFilter(UrlFilterRules(true), [Url("https", "a.example", None, "/docs/", "")]);
      && Matches(f, Url("https", "a.example", None, "/docs/x", ""))
      && !Matches(f, Url("https", "a.example", None, "/other", ""))
      && !Matches(f, Url("https", "b.example", None, "/docs/x", ""))
  {
    var root := Url("https", "a.example", None, "/docs/", "");
    assert UnderRoot(root, Url("https", "a.example", None, "/docs/x", ""));
    assert "/docs/"[1] != "/other"[1];
  }
}
