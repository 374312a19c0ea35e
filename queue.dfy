/** The crawl frontier (`CrawlerQueue`): pending entries, the set of every URL
    ever admitted, per-origin robots.txt verdicts and the robots scan cursor.

    The pure functions below give the effect of each operation on the values
    of the queue's fields (`QueueState`); the class `CrawlerQueue` performs the
    same operations in place and its methods are proved against them. */
module Queue {
  import opened Urls

  datatype QueueState = QueueState(
    queue: seq<CrawledUrl>,
    crawled: set<Url>,
    allowedByRobots: map<Origin, bool>,
    robotsSkip: nat)

  /** The state of a freshly built queue. */
  function Fresh(): QueueState
  {
    QueueState([], {}, map[], 0)
  }

  /** The recorded robots.txt verdict for the origin of `u`, if any. */
  function Status(allowed: map<Origin, bool>, u: Url): Option<bool>
  {
    if OriginOf(u) in allowed then Some(allowed[OriginOf(u)]) else None
  }

  /** What every reachable queue state satisfies: pending entries were all
      admitted, no two share a URL, the cursor stays within the queue, and every
      entry before the cursor comes from an origin with no recorded verdict. */
  ghost predicate Inv(s: QueueState, requireRobots: bool)
  {
    && (!requireRobots ==> s.robotsSkip == 0)
    && (forall i :: 0 <= i < |s.queue| ==> s.queue[i].url in s.crawled)
    && (forall i, j :: 0 <= i < j < |s.queue| ==> s.queue[i].url != s.queue[j].url)
    && s.robotsSkip <= |s.queue|
    && (forall i :: 0 <= i < s.robotsSkip ==> Status(s.allowedByRobots, s.queue[i].url) == None)
  }

  /** The admission decision of `check_and_queue`: only the URL and the
      robots verdict of its origin are looked at. */
  predicate Accepts(s: QueueState, requireRobots: bool, url: Url)
  {
    url !in s.crawled && !(requireRobots && Status(s.allowedByRobots, url) == Some(false))
  }

  /** `check_and_queue`. */
  function Admit(s: QueueState, requireRobots: bool, c: CrawledUrl): QueueState
  {
    if Accepts(s, requireRobots, c.url)
    then s.(queue := s.queue + [c], crawled := s.crawled + {c.url})
    else s
  }

  /** `check_and_queue_iter`: the candidates are admitted one by one, in order. */
  function AdmitAll(s: QueueState, requireRobots: bool, cs: seq<CrawledUrl>): QueueState
    decreases |cs|
  {
    if cs == [] then s else AdmitAll(Admit(s, requireRobots, cs[0]), requireRobots, cs[1..])
  }

  /** `set_allowed_by_robots`. */
  function WithRobotsStatus(s: QueueState, origin: Origin, allowed: bool): QueueState
  {
    s.(allowedByRobots := s.allowedByRobots[origin := allowed], robotsSkip := 0)
  }

  /** `VecDeque::remove`. */
  function Remove(q: seq<CrawledUrl>, i: nat): (r: seq<CrawledUrl>)
    requires i < |q|
    ensures |r| == |q| - 1
    ensures forall j :: 0 <= j < i ==> r[j] == q[j]
    ensures forall j :: i <= j < |r| ==> r[j] == q[j + 1]
  {
    q[..i] + q[i + 1..]
  }

  /** What `take` returns together with the queue's new state. */
  datatype Taken = Taken(url: Option<CrawledUrl>, state: QueueState)

  /** `take`: plain FIFO without robots, a cursor scan with robots. */
  function TakeNext(s: QueueState, requireRobots: bool): Taken
  {
    if !requireRobots then
      if s.queue == [] then Taken(None, s) else Taken(Some(s.queue[0]), s.(queue := s.queue[1..]))
    else Scan(s)
  }

  /** The robots-mode loop of `take`, one entry at a time from the cursor. */
  function Scan(s: QueueState): Taken
    decreases |s.queue| - s.robotsSkip
  {
    if s.robotsSkip >= |s.queue| then Taken(None, s)
    else
      var front := s.queue[s.robotsSkip];
      match Status(s.allowedByRobots, front.url)
      case Some(true) => Taken(Some(front), s.(queue := Remove(s.queue, s.robotsSkip)))
      case Some(false) => Scan(s.(queue := Remove(s.queue, s.robotsSkip)))
      case None => Scan(s.(robotsSkip := s.robotsSkip + 1))
  }

  /** The entries of `xs` whose origin has no recorded verdict, in order. */
  function Unknowns(xs: seq<CrawledUrl>, allowed: map<Origin, bool>): (r: seq<CrawledUrl>)
    ensures |r| <= |xs|
    decreases |xs|
  {
    if xs == [] then []
    else (if Status(allowed, xs[0].url) == None then [xs[0]] else []) + Unknowns(xs[1..], allowed)
  }

  // ---------------------------------------------------------------------------
  // Admission

  /** Admitting a new URL records it and appends it at the back; anything
      else leaves the state untouched. Either way the invariant is kept. */
  lemma AdmitEffect(s: QueueState, requireRobots: bool, c: CrawledUrl)
    requires Inv(s, requireRobots)
    ensures Inv(Admit(s, requireRobots, c), requireRobots)
    ensures Accepts(s, requireRobots, c.url) ==>
      Admit(s, requireRobots, c).queue == s.queue + [c]
      && Admit(s, requireRobots, c).crawled == s.crawled + {c.url}
    ensures !Accepts(s, requireRobots, c.url) ==> Admit(s, requireRobots, c) == s
    ensures Admit(s, requireRobots, c).allowedByRobots == s.allowedByRobots
    ensures Admit(s, requireRobots, c).robotsSkip == s.robotsSkip
  {
  }

  /** A URL already admitted once is never admitted again, whatever its
      depths, and with robots required a URL whose origin is disallowed is
      rejected without being recorded. */
  lemma AdmitRejects(s: QueueState, requireRobots: bool, c: CrawledUrl)
    ensures c.url in s.crawled ==> Admit(s, requireRobots, c) == s
    ensures requireRobots && Status(s.allowedByRobots, c.url) == Some(false) ==> Admit(s, requireRobots, c) == s
  {
  }

  /** The depth fields play no part in admission: the same URL with any other
      depths gets the same decision, and even a candidate far deeper than any
      bound is admitted into an empty queue. */
  lemma AdmitIgnoresDepth(s: QueueState, requireRobots: bool, c: CrawledUrl, depth: nat, originDepth: nat)
    ensures var d := CrawledUrl(c.url, depth, originDepth);
      && Admit(s, requireRobots, d).crawled == Admit(s, requireRobots, c).crawled
      && |Admit(s, requireRobots, d).queue| == |Admit(s, requireRobots, c).queue|
    ensures Admit(Fresh(), requireRobots, CrawledUrl(c.url, depth, originDepth)).queue
            == [CrawledUrl(c.url, depth, originDepth)]
  {
  }

  /** Batch admission keeps the invariant, only grows the record of admitted
      URLs, only appends to the queue, appends only candidates, and records
      every candidate unless robots rejected its origin. */
  lemma {:induction false} AdmitAllEffect(s: QueueState, requireRobots: bool, cs: seq<CrawledUrl>)
    requires Inv(s, requireRobots)
    ensures var t := AdmitAll(s, requireRobots, cs);
      && Inv(t, requireRobots)
      && s.crawled <= t.crawled
      && s.queue <= t.queue
      && t.allowedByRobots == s.allowedByRobots
      && t.robotsSkip == s.robotsSkip
      && (forall i :: |s.queue| <= i < |t.queue| ==> t.queue[i] in cs && t.queue[i].url !in s.crawled)
      && (forall u :: u in t.crawled && u !in s.crawled ==> exists i :: |s.queue| <= i < |t.queue| && t.queue[i].url == u)
      && (forall c :: c in cs ==>
            c.url in t.crawled || (requireRobots && Status(s.allowedByRobots, c.url) == Some(false)))
    decreases |cs|
  {
    if cs != [] {
      var s1 := Admit(s, requireRobots, cs[0]);
      AdmitEffect(s, requireRobots, cs[0]);
      AdmitAllEffect(s1, requireRobots, cs[1..]);
      var t := AdmitAll(s1, requireRobots, cs[1..]);
      assert t == AdmitAll(s, requireRobots, cs);
      forall i | |s.queue| <= i < |t.queue| ensures t.queue[i] in cs && t.queue[i].url !in s.crawled {
        if i < |s1.queue| {
          assert s1.queue == s.queue + [cs[0]];
          assert t.queue[i] == s1.queue[i];
        } else {
          assert t.queue[i] in cs[1..];
        }
      }
      forall u | u in t.crawled && u !in s.crawled
        ensures exists i :: |s.queue| <= i < |t.queue| && t.queue[i].url == u
      {
        if u in s1.crawled {
          assert s1.queue == s.queue + [cs[0]] && u == cs[0].url;
          assert t.queue[|s.queue|] == s1.queue[|s.queue|];
        }
      }
      forall c | c in cs
        ensures c.url in t.crawled || (requireRobots && Status(s.allowedByRobots, c.url) == Some(false))
      {
        if c != cs[0] {
          assert c in cs[1..];
        }
      }
    }
  }

  // ---------------------------------------------------------------------------
  // Taking

  /** Removing the entry at or after the cursor keeps the invariant and the
      record, and leaves no other entry for the removed URL. */
  lemma RemoveKeeps(s: QueueState, k: nat)
    requires Inv(s, true) && s.robotsSkip <= k < |s.queue|
    ensures var r := s.(queue := Remove(s.queue, k));
      && Inv(r, true)
      && (forall x :: x in r.queue ==> x in s.queue)
      && (forall i :: 0 <= i < |r.queue| ==> r.queue[i].url != s.queue[k].url)
  {
    var r := s.(queue := Remove(s.queue, k));
    forall x | x in r.queue ensures x in s.queue {
      var i :| 0 <= i < |r.queue| && r.queue[i] == x;
      if i >= k {
        assert x == s.queue[i + 1];
      }
    }
  }

  lemma {:induction false} ScanKeeps(s: QueueState)
    requires Inv(s, true)
    ensures var t := Scan(s);
      && Inv(t.state, true)
      && t.state.crawled == s.crawled
      && t.state.allowedByRobots == s.allowedByRobots
      && (forall x :: x in t.state.queue ==> x in s.queue)
      && (t.url.Some? ==> && t.url.value in s.queue
                          && (forall i :: 0 <= i < |t.state.queue| ==> t.state.queue[i].url != t.url.value.url))
    decreases |s.queue| - s.robotsSkip
  {
    if s.robotsSkip < |s.queue| {
      var k := s.robotsSkip;
      var r := s.(queue := Remove(s.queue, k));
      match Status(s.allowedByRobots, s.queue[k].url)
      case Some(true) =>
        RemoveKeeps(s, k);
      case Some(false) =>
        RemoveKeeps(s, k);
        ScanKeeps(r);
      case None =>
        ScanKeeps(s.(robotsSkip := k + 1));
    }
  }

  /** `take` keeps the invariant, never touches the record of admitted URLs
      or the robots verdicts, never adds entries, and what it returns was
      pending and is pending no longer. */
  lemma TakeKeeps(s: QueueState, requireRobots: bool)
    requires Inv(s, requireRobots)
    ensures var t := TakeNext(s, requireRobots);
      && Inv(t.state, requireRobots)
      && t.state.crawled == s.crawled
      && t.state.allowedByRobots == s.allowedByRobots
      && (forall x :: x in t.state.queue ==> x in s.queue)
      && (t.url.Some? ==> && t.url.value in s.queue
                          && (forall i :: 0 <= i < |t.state.queue| ==> t.state.queue[i].url != t.url.value.url))
  {
    if requireRobots {
      ScanKeeps(s);
    } else if s.queue != [] {
      assert forall i :: 0 <= i < |s.queue| - 1 ==> s.queue[1..][i] == s.queue[i + 1];
    }
  }

  /** Without robots, `take` is `pop_front`: the oldest entry comes out first
      and the rest keep their order; an empty queue yields nothing. */
  lemma TakeWithoutRobotsIsFifo(s: QueueState)
    ensures s.queue == [] ==> TakeNext(s, false) == Taken(None, s)
    ensures s.queue != [] ==>
      TakeNext(s, false).url == Some(s.queue[0]) && [s.queue[0]] + TakeNext(s, false).state.queue == s.queue
  {
  }

  lemma UnknownsOfUnknown(xs: seq<CrawledUrl>, allowed: map<Origin, bool>)
    requires xs != [] && Status(allowed, xs[0].url) == None
    ensures Unknowns(xs, allowed) == [xs[0]] + Unknowns(xs[1..], allowed)
  {
  }

  lemma UnknownsOfKnown(xs: seq<CrawledUrl>, allowed: map<Origin, bool>)
    requires xs != [] && Status(allowed, xs[0].url) != None
    ensures Unknowns(xs, allowed) == Unknowns(xs[1..], allowed)
  {
  }

  /** What the robots-mode scan promises, for a scan started in state `s`
      that ended with `t`. */
  ghost predicate ScanMeets(s: QueueState, t: Taken)
    requires s.robotsSkip <= |s.queue|
  {
    var q, k0, st := s.queue, s.robotsSkip, s.allowedByRobots;
    && t.state.crawled == s.crawled
    && t.state.allowedByRobots == st
    && (t.url.None? <==> forall k :: k0 <= k < |q| ==> Status(st, q[k].url) != Some(true))
    && (t.url.None? ==>
          && t.state.queue == q[..k0] + Unknowns(q[k0..], st)
          && t.state.robotsSkip == |t.state.queue|)
    && (t.url.Some? ==> exists k :: ScannedTo(s, t, k))
  }

  /** The scan from `s` stopped at the allowed entry `k` and produced `t`. */
  ghost predicate ScannedTo(s: QueueState, t: Taken, k: int)
    requires s.robotsSkip <= |s.queue|
  {
    var q, k0, st := s.queue, s.robotsSkip, s.allowedByRobots;
    && k0 <= k < |q|
    && t.url == Some(q[k])
    && Status(st, q[k].url) == Some(true)
    && (forall j :: k0 <= j < k ==> Status(st, q[j].url) != Some(true))
    && t.state.queue == q[..k0] + Unknowns(q[k0..k], st) + q[k + 1..]
    && t.state.robotsSkip == k0 + |Unknowns(q[k0..k], st)|
  }

  lemma ScanStepDisallowed(s: QueueState, t: Taken)
    requires s.robotsSkip < |s.queue|
    requires Status(s.allowedByRobots, s.queue[s.robotsSkip].url) == Some(false)
    requires ScanMeets(s.(queue := Remove(s.queue, s.robotsSkip)), t)
    ensures ScanMeets(s, t)
  {
    if t.url.None? {
      ScanStepDisallowedNone(s, t);
    } else {
      var k' :| ScannedTo(s.(queue := Remove(s.queue, s.robotsSkip)), t, k');
      ScanStepDisallowedSome(s, t, k');
      assert ScannedTo(s, t, k' + 1);
    }
  }

  lemma ScanStepDisallowedNone(s: QueueState, t: Taken)
    requires s.robotsSkip < |s.queue|
    requires Status(s.allowedByRobots, s.queue[s.robotsSkip].url) == Some(false)
    requires ScanMeets(s.(queue := Remove(s.queue, s.robotsSkip)), t)
    requires t.url.None?
    ensures ScanMeets(s, t)
  {
    var q, k0, st := s.queue, s.robotsSkip, s.allowedByRobots;
    var q' := Remove(q, k0);
    assert q'[..k0] == q[..k0];
    assert q'[k0..] == q[k0 + 1..];
    UnknownsOfKnown(q[k0..], st);
    assert q[k0..][1..] == q[k0 + 1..];
    forall k | k0 < k < |q| ensures Status(st, q[k].url) != Some(true) {
      assert q[k] == q'[k - 1];
    }
  }

  lemma ScanStepDisallowedSome(s: QueueState, t: Taken, k': int)
    requires s.robotsSkip < |s.queue|
    requires Status(s.allowedByRobots, s.queue[s.robotsSkip].url) == Some(false)
    requires ScannedTo(s.(queue := Remove(s.queue, s.robotsSkip)), t, k')
    ensures ScannedTo(s, t, k' + 1)
  {
    var q, k0, st := s.queue, s.robotsSkip, s.allowedByRobots;
    var q' := Remove(q, k0);
    var k := k' + 1;
    assert q'[..k0] == q[..k0];
    assert q'[k0..k'] == q[k0 + 1..k];
    assert q'[k' + 1..] == q[k + 1..];
    assert q[k] == q'[k'];
    UnknownsOfKnown(q[k0..k], st);
    assert q[k0..k][1..] == q[k0 + 1..k];
    forall j | k0 < j < k ensures Status(st, q[j].url) != Some(true) {
      assert q[j] == q'[j - 1];
    }
  }

  lemma ScanStepUnknown(s: QueueState, t: Taken)
    requires s.robotsSkip < |s.queue|
    requires Status(s.allowedByRobots, s.queue[s.robotsSkip].url) == None
    requires ScanMeets(s.(robotsSkip := s.robotsSkip + 1), t)
    ensures ScanMeets(s, t)
  {
    if t.url.None? {
      ScanStepUnknownNone(s, t);
    } else {
      var k :| ScannedTo(s.(robotsSkip := s.robotsSkip + 1), t, k);
      ScanStepUnknownSome(s, t, k);
    }
  }

  lemma ScanStepUnknownNone(s: QueueState, t: Taken)
    requires s.robotsSkip < |s.queue|
    requires Status(s.allowedByRobots, s.queue[s.robotsSkip].url) == None
    requires ScanMeets(s.(robotsSkip := s.robotsSkip + 1), t)
    requires t.url.None?
    ensures ScanMeets(s, t)
  {
    var q, k0, st := s.queue, s.robotsSkip, s.allowedByRobots;
    assert q[..k0 + 1] == q[..k0] + [q[k0]];
    UnknownsOfUnknown(q[k0..], st);
    assert q[k0..][1..] == q[k0 + 1..];
  }

  lemma ScanStepUnknownSome(s: QueueState, t: Taken, k: int)
    requires s.robotsSkip < |s.queue|
    requires Status(s.allowedByRobots, s.queue[s.robotsSkip].url) == None
    requires ScannedTo(s.(robotsSkip := s.robotsSkip + 1), t, k)
    ensures ScannedTo(s, t, k)
  {
    var q, k0, st := s.queue, s.robotsSkip, s.allowedByRobots;
    assert q[..k0 + 1] == q[..k0] + [q[k0]];
    UnknownsOfUnknown(q[k0..k], st);
    assert q[k0..k][1..] == q[k0 + 1..k];
  }

  /** With robots required, `take` returns and removes the first entry at or
      after the cursor whose origin is allowed, drops every disallowed entry
      it passes and steps the cursor over the entries of unknown origin. When
      nothing is allowed it returns nothing, only entries of unknown origin
      remain from the old cursor on, and the cursor ends at the queue's end. */
  lemma {:induction false} ScanFindsFirstAllowed(s: QueueState)
    requires s.robotsSkip <= |s.queue|
    ensures ScanMeets(s, Scan(s))
    decreases |s.queue| - s.robotsSkip
  {
    var q, k0, st := s.queue, s.robotsSkip, s.allowedByRobots;
    if k0 == |q| {
      assert q[k0..] == [] && q[..k0] == q;
    } else {
      match Status(st, q[k0].url)
      case Some(true) =>
        assert q[k0..k0] == [];
        assert ScannedTo(s, Scan(s), k0);
      case Some(false) =>
        ScanFindsFirstAllowed(s.(queue := Remove(q, k0)));
        ScanStepDisallowed(s, Scan(s));
      case None =>
        ScanFindsFirstAllowed(s.(robotsSkip := k0 + 1));
        ScanStepUnknown(s, Scan(s));
    }
  }

  /** Recording a verdict resets the cursor, so the invariant holds whatever
      the verdict changes; the verdict applies to every URL of that origin and
      to no other. */
  lemma WithRobotsStatusEffect(s: QueueState, requireRobots: bool, origin: Origin, allowed: bool, u: Url)
    requires Inv(s, requireRobots)
    ensures Inv(WithRobotsStatus(s, origin, allowed), requireRobots)
    ensures Status(WithRobotsStatus(s, origin, allowed).allowedByRobots, u)
            == if OriginOf(u) == origin then Some(allowed) else Status(s.allowedByRobots, u)
  {
  }

  /** Deduplication is on the whole URL: two search pages that differ only in
      their query are both admitted, in order, and each only once. */
  lemma QueriesAreDistinctUrls(requireRobots: bool)
    ensures var one := RootEntry(Url("https", "google.com", None, "/search", "?q=1"));
      var two := RootEntry(Url("https", "google.com", None, "/search", "?q=2"));
      && AdmitAll(Fresh(), requireRobots, [one, two]).queue == [one, two]
      && AdmitAll(Fresh(), requireRobots, [one, two, one]).queue == [one, two]
  {
    var one := RootEntry(Url("https", "google.com", None, "/search", "?q=1"));
    var two := RootEntry(Url("https", "google.com", None, "/search", "?q=2"));
    assert one.url != two.url;
    var s1 := Admit(Fresh(), requireRobots, one);
    assert s1.queue == [one] && s1.crawled == {one.url};
    var s2 := Admit(s1, requireRobots, two);
    assert s2.queue == [one, two] && one.url in s2.crawled;
    assert [one, two][1..] == [two] && [one, two, one][1..] == [two, one] && [two, one][1..] == [one];
    assert AdmitAll(Fresh(), requireRobots, [one, two]) == AdmitAll(s2, requireRobots, []);
    assert Admit(s2, requireRobots, one) == s2;
    assert AdmitAll(s2, requireRobots, [one]) == s2;
    assert AdmitAll(s1, requireRobots, [two, one]) == s2;
  }

  /** Re-admitting a URL never brings it back, even after its earlier copy was
      taken from the queue or dropped as disallowed. */
  lemma ReadmitAfterTakeIsNoOp(s: QueueState, requireRobots: bool, c: CrawledUrl, again: CrawledUrl)
    requires Inv(s, requireRobots)
    requires again.url == c.url
    ensures var t := TakeNext(Admit(s, requireRobots, c), requireRobots).state;
      Admit(t, requireRobots, again) == t
  {
    AdmitEffect(s, requireRobots, c);
    TakeKeeps(Admit(s, requireRobots, c), requireRobots);
  }

  // ---------------------------------------------------------------------------
  // The queue object

  class CrawlerQueue {
    var queue: seq<CrawledUrl>
    var crawled: set<Url>
    var allowedByRobots: map<Origin, bool>
    const requireRobots: bool
    var robotsSkip: nat
    // Stored, but never consulted by any operation.
    const maxOriginDepth: Option<nat>
    const maxDepth: Option<nat>

    function State(): QueueState
      reads this
    {
      QueueState(queue, crawled, allowedByRobots, robotsSkip)
    }

    ghost predicate Valid()
      reads this
    {
      Inv(State(), requireRobots)
    }

    constructor (requireRobots: bool, maxOriginDepth: Option<nat>, maxDepth: Option<nat>)
      ensures Valid() && State() == Fresh()
      ensures this.requireRobots == requireRobots
      ensures this.maxOriginDepth == maxOriginDepth && this.maxDepth == maxDepth
    {
      queue := [];
      crawled := {};
      allowedByRobots := map[];
      this.requireRobots := requireRobots;
      robotsSkip := 0;
      this.maxOriginDepth := maxOriginDepth;
      this.maxDepth := maxDepth;
    }

    method CheckAndQueue(url: CrawledUrl)
      requires Valid()
      modifies this
      ensures Valid()
      ensures State() == Admit(old(State()), requireRobots, url)
    {
      AdmitEffect(State(), requireRobots, url);
      if url.url in crawled {
        return;
      }
      if requireRobots {
        if Status(allowedByRobots, url.url) == Some(false) {
          return;
        }
      }
      // The depth bound is looked up but nothing is done with it.
      if maxDepth.Some? {
      }
      crawled := crawled + {url.url};
      queue := queue + [url];
    }

    method CheckAndQueueIter(urls: seq<CrawledUrl>)
      requires Valid()
      modifies this
      ensures Valid()
      ensures State() == AdmitAll(old(State()), requireRobots, urls)
    {
      for i := 0 to |urls|
        invariant Valid()
        invariant AdmitAll(State(), requireRobots, urls[i..]) == AdmitAll(old(State()), requireRobots, urls)
      {
        assert urls[i..][1..] == urls[i + 1..];
        CheckAndQueue(urls[i]);
      }
    }

    method SetAllowedByRobots(origin: Origin, allowed: bool)
      requires Valid()
      modifies this
      ensures Valid()
      ensures State() == WithRobotsStatus(old(State()), origin, allowed)
    {
      allowedByRobots := allowedByRobots[origin := allowed];
      robotsSkip := 0;
    }

    /** Only the branch without robots is implemented in the source; the other
        one panics, so callers must not reach it. */
    method IsEmpty() returns (empty: bool)
      requires !requireRobots
      ensures empty <==> |queue| == 0
    {
      return queue == [];
    }

    method Take() returns (url: Option<CrawledUrl>)
      requires Valid()
      modifies this
      ensures Valid()
      ensures Taken(url, State()) == TakeNext(old(State()), requireRobots)
    {
      TakeKeeps(State(), requireRobots);
      if !requireRobots {
        if queue == [] {
          return None;
        }
        url := Some(queue[0]);
        queue := queue[1..];
        return;
      }
      // The invariant follows from `TakeKeeps` once the scan has finished.
      while robotsSkip < |queue|
        invariant Scan(State()) == Scan(old(State()))
        decreases |queue| - robotsSkip
      {
        var front := queue[robotsSkip];
        match Status(allowedByRobots, front.url)
        case Some(true) =>
          queue := Remove(queue, robotsSkip);
          return Some(front);
        case Some(false) =>
          queue := Remove(queue, robotsSkip);
        case None =>
          robotsSkip := robotsSkip + 1;
      }
      return None;
    }
  }

  // ---------------------------------------------------------------------------
  // The queue's own test scenarios, stated against the object's contracts

  /** The entry the scenarios use: `https://google.com/search` as a root. */
  function SearchEntry(): CrawledUrl
  {
    RootEntry(Url("https", "google.com", None, "/search", ""))
  }

  /** Without robots, an admitted URL can be taken. */
  method AddAndTakeWithoutRobots() returns (taken: Option<CrawledUrl>)
    ensures taken == Some(SearchEntry())
  {
    var e := SearchEntry();
    var q := new CrawlerQueue(false, None, None);
    q.CheckAndQueue(e);
    assert q.queue == [e];
    taken := q.Take();
  }

  /** With robots, a URL of an origin already allowed can be taken. */
  method AddAndTakeWithAllowedRobots() returns (taken: Option<CrawledUrl>)
    ensures taken == Some(SearchEntry())
  {
    var e := SearchEntry();
    var q := new CrawlerQueue(true, None, None);
    q.SetAllowedByRobots(OriginOf(e.url), true);
    q.CheckAndQueue(e);
    assert q.State() == QueueState([e], {e.url}, map[OriginOf(e.url) := true], 0);
    assert Status(q.allowedByRobots, e.url) == Some(true);
    taken := q.Take();
  }

  /** With robots, a URL of an unresolved origin is held back on every `take`
      until a verdict arrives; if the verdict allows it, the next `take`
      returns it, and if it forbids it, the next `take` returns nothing. */
  method AddTakeSetRobotsAndTakeAgain(allowed: bool) returns (first: Option<CrawledUrl>, second: Option<CrawledUrl>, third: Option<CrawledUrl>)
    ensures first == None && second == None
    ensures third == if allowed then Some(SearchEntry()) else None
  {
    var e := SearchEntry();
    var q := new CrawlerQueue(true, None, None);
    q.CheckAndQueue(e);
    var waiting := QueueState([e], {e.url}, map[], 1);
    assert q.State() == waiting.(robotsSkip := 0);
    assert Status(map[], e.url) == None;
    assert Scan(waiting) == Taken(None, waiting);
    first := q.Take();
    assert q.State() == waiting;
    second := q.Take();
    assert q.State() == waiting;
    q.SetAllowedByRobots(OriginOf(e.url), allowed);
    var resolved := QueueState([e], {e.url}, map[OriginOf(e.url) := allowed], 0);
    assert q.State() == resolved;
    assert Status(resolved.allowedByRobots, e.url) == Some(allowed);
    assert Remove([e], 0) == [];
    if !allowed {
      assert Scan(resolved.(queue := [])) == Taken(None, resolved.(queue := []));
    }
    third := q.Take();
  }
}
