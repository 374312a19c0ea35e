/** The older scope rule (`CrawlerRules`) and its copy of
    `CrawledUrl::push_new`. */
module Rules {
  import opened Urls
  import Filter

  /** Same derivation as `Filter.PushNew`, as this file writes it again. */
  function PushNew(parent: CrawledUrl, next: Url): (child: CrawledUrl)
    ensures child.url == next
    ensures child.depth == parent.depth + 1
    ensures child.originDepth == parent.originDepth <==> OriginOf(parent.url) == OriginOf(next)
    ensures parent.originDepth <= child.originDepth <= parent.originDepth + 1
  {
    var isOtherOrigin := OriginOf(parent.url) != OriginOf(next);
    CrawledUrl(next, parent.depth + 1, parent.originDepth + if isOtherOrigin then 1 else 0)
  }

  /** Both copies of `push_new` derive the same child. */
  lemma PushNewAgreesWithFilter(parent: CrawledUrl, next: Url)
    ensures PushNew(parent, next) == Filter.PushNew(parent, next)
  {
  }

  datatype CrawlerRules = CrawlerRules(onlySubdirs: bool, roots: seq<Url>)

  /** `roots.iter().find(..)`: the first root that has `url` under it. */
  function Find(roots: seq<Url>, url: Url): (r: Option<Url>)
    ensures r.Some? ==> exists i :: 0 <= i < |roots| && roots[i] == r.value && UnderRoot(roots[i], url)
                                     && forall j :: 0 <= j < i ==> !UnderRoot(roots[j], url)
    ensures r.None? <==> forall i :: 0 <= i < |roots| ==> !UnderRoot(roots[i], url)
    decreases |roots|
  {
    if roots == [] then None
    else if UnderRoot(roots[0], url) then Some(roots[0])
    else
      var rest := Find(roots[1..], url);
      assert rest.Some? ==> exists i :: 1 <= i < |roots| && roots[i] == rest.value && UnderRoot(roots[i], url)
                                        && forall j :: 0 <= j < i ==> !UnderRoot(roots[j], url)
      by {
        if rest.Some? {
          var i :| 0 <= i < |roots| - 1 && roots[1..][i] == rest.value && UnderRoot(roots[1..][i], url)
                   && forall j :: 0 <= j < i ==> !UnderRoot(roots[1..][j], url);
          assert forall j :: 1 <= j < i + 1 ==> roots[j] == roots[1..][j - 1];
        }
      }
      assert rest.None? ==> forall i :: 1 <= i < |roots| ==> !UnderRoot(roots[i], url) by {
        if rest.None? {
          forall i | 1 <= i < |roots| ensures !UnderRoot(roots[i], url) {
            assert roots[i] == roots[1..][i - 1];
          }
        }
      }
      rest
  }

  predicate Matches(rules: CrawlerRules, url: Url)
  {
    if rules.onlySubdirs && !Find(rules.roots, url).Some? then false else true
  }

  /** With the subdirectory rule on, a URL matches exactly when some root
      shares its scheme, port and host and has a path that prefixes its path;
      with the rule off, every URL matches. */
  lemma MatchesIff(rules: CrawlerRules, url: Url)
    ensures rules.onlySubdirs ==>
      (Matches(rules, url) <==> exists i :: 0 <= i < |rules.roots| && UnderRoot(rules.roots[i], url))
    ensures !rules.onlySubdirs ==> Matches(rules, url)
  {
  }

  /** With the subdirectory rule on and no roots, nothing matches. */
  lemma NoRootsMatchNothing(url: Url)
    ensures !Matches(CrawlerRules(true, []), url)
  {
  }

  /** `CrawlerRules::matches` and `UrlFilter::matches` agree for the same
      switch and the same roots. */
  lemma MatchesAgreesWithFilter(onlySubdirs: bool, roots: seq<Url>, url: Url)
    ensures Matches(CrawlerRules(onlySubdirs, roots), url)
            == Filter.Matches(Filter.UrlFilter(Filter.UrlFilterRules(onlySubdirs), roots), url)
  {
    if onlySubdirs {
      MatchesIff(CrawlerRules(onlySubdirs, roots), url);
      Filter.MatchesIff(Filter.UrlFilter(Filter.UrlFilterRules(onlySubdirs), roots), url);
    }
  }
}
