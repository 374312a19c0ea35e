/** Vocabulary shared by every part of the crawler: URLs, their origins, and a
    discovered URL together with its provenance (`CrawledUrl`). */
module Urls {

  datatype Option<+T> = None | Some(value: T)

  datatype Result<+T, +E> = Ok(value: T) | Err(error: E)

  /** An absolute URL. `port` is what the URL library reports as the explicit
      port: `None` when the URL uses its scheme's default port. `rest` stands
      for everything else in the serialised URL (credentials, query,
      fragment): no rule looks at it, but two URLs that differ only there are
      different URLs, for deduplication as everywhere else. */
  datatype Url = Url(scheme: string, host: string, port: Option<nat>, path: string, rest: string)

  /** A tuple origin: scheme, host and port. */
  datatype Origin = Origin(scheme: string, host: string, port: Option<nat>)

  function OriginOf(u: Url): (o: Origin)
    ensures o.scheme == u.scheme && o.host == u.host && o.port == u.port
  {
    Origin(u.scheme, u.host, u.port)
  }

  /** A discovered URL: `depth` counts hops from a root, `originDepth` counts
      the origin changes along those hops. */
  datatype CrawledUrl = CrawledUrl(url: Url, depth: nat, originDepth: nat)

  /** The entry a root URL is seeded with: depth 0 and origin depth 0. */
  function RootEntry(u: Url): (c: CrawledUrl)
    ensures c.url == u && c.depth == 0 && c.originDepth == 0
  {
    CrawledUrl(u, 0, 0)
  }

  /** The candidates built from a list of roots, in order. */
  function Seeds(roots: seq<Url>): (cs: seq<CrawledUrl>)
    ensures |cs| == |roots|
    ensures forall i :: 0 <= i < |roots| ==> cs[i] == RootEntry(roots[i])
  {
    seq(|roots|, i requires 0 <= i < |roots| => RootEntry(roots[i]))
  }

  /** The subdirectory rule: `url` lies under `root` when scheme, port and host
      agree and the root's path is a prefix of the URL's path. */
  predicate UnderRoot(root: Url, url: Url)
  {
    root.scheme == url.scheme && root.port == url.port && root.host == url.host
    && root.path <= url.path
  }
}
