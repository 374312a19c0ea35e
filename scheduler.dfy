/** The master loop of the crawl (`Scheduler`): it takes URLs from the
    frontier, hands each to the first idle worker, waits for any busy worker's
    reply, feeds discovered links back into the frontier, and stops once the
    frontier is empty and no worker is busy.

    Channels and tasks are not modelled: sending a job is recorded in the
    worker's handle, and a reply is the nondeterministic choice of one busy
    worker together with what fetching its URL returned. */
module Scheduler {
  import opened Urls
  import opened Queue
  import opened Workers

  datatype CrawlerError = CannotSendRequest(detail: string) | InvalidContentType(contentType: string)

  /** What the master reports to the caller's callback. */
  datatype CrawlerMessage = UrlFound(url: Url) | Error(url: Url, error: CrawlerError)

  /** What a worker sends back for one job. */
  datatype WorkerMessage = Success(urls: seq<CrawledUrl>) | Failure(error: CrawlerError, url: Url)

  /** One round of `start_worker`: the reply to a job, given what fetching it
      returned. A failure names the URL of the job that failed. */
  function WorkerReply(job: CrawledUrl, fetched: Result<seq<CrawledUrl>, CrawlerError>): (m: WorkerMessage)
    ensures m.Success? <==> fetched.Ok?
    ensures m.Success? ==> m.urls == fetched.value
    ensures m.Failure? ==> m.url == job.url && m.error == fetched.error
  {
    match fetched
    case Ok(urls) => Success(urls)
    case Err(e) => Failure(e, job.url)
  }

  /** `url` is waiting in the frontier. */
  ghost predicate Pending(q: seq<CrawledUrl>, url: Url)
  {
    exists k :: 0 <= k < |q| && q[k].url == url
  }

  /** No URL was reported found (that is, dispatched) twice, and every
      dispatched URL was admitted and is no longer waiting. */
  ghost predicate DispatchedOnce(events: seq<CrawlerMessage>, s: QueueState)
  {
    && (forall i, j :: 0 <= i < j < |events| && events[i].UrlFound? && events[j].UrlFound? ==>
          events[i].url != events[j].url)
    && (forall i :: 0 <= i < |events| && events[i].UrlFound? ==>
          events[i].url in s.crawled && !Pending(s.queue, events[i].url))
  }

  /** Every admitted URL is either still waiting or has been dispatched. */
  ghost predicate Covered(events: seq<CrawlerMessage>, s: QueueState)
  {
    forall u :: u in s.crawled ==> Pending(s.queue, u) || UrlFound(u) in events
  }

  class Scheduler {
    const queue: CrawlerQueue
    const maxJobs: nat
    // The worker vector and the busy counter are locals of `start_master`
    // in the source; they are fields here so that each step is a method.
    var workers: seq<WorkerHandle>
    var activeWorkers: nat
    // Everything passed to the callback, in order.
    ghost var events: seq<CrawlerMessage>

    ghost predicate Valid()
      reads this, queue
    {
      && queue.Valid()
      && |workers| == maxJobs
      && Consistent(workers)
      && activeWorkers == BusyCount(workers)
      && DispatchedOnce(events, queue.State())
    }

    constructor (queue: CrawlerQueue, maxJobs: nat)
      requires queue.Valid()
      ensures Valid()
      ensures this.queue == queue && this.maxJobs == maxJobs
      ensures workers == Pool(maxJobs) && activeWorkers == 0 && events == []
    {
      this.queue := queue;
      this.maxJobs := maxJobs;
      workers := Pool(maxJobs);
      activeWorkers := 0;
      events := [];
      new;
      BusyCountBounds(workers);
    }

    /** The dispatch half of one loop iteration: take a URL and, if one came
        out, give it to the first idle worker, reporting it found first. With
        no idle worker the URL is lost. */
    method Dispatch() returns (hasNextUrl: bool)
      requires Valid()
      modifies this, queue
      ensures Valid()
      ensures var t := TakeNext(old(queue.State()), queue.requireRobots);
        && queue.State() == t.state
        && hasNextUrl == t.url.Some?
        && (t.url.None? || FirstIdle(old(workers)).None? ==>
              workers == old(workers) && activeWorkers == old(activeWorkers) && events == old(events))
        && (t.url.Some? && FirstIdle(old(workers)).Some? ==>
              && workers == Assign(old(workers), FirstIdle(old(workers)).value, t.url.value)
              && activeWorkers == old(activeWorkers) + 1
              && events == old(events) + [UrlFound(t.url.value.url)])
      ensures queue.crawled == old(queue.crawled)
      ensures hasNextUrl && old(activeWorkers) < maxJobs ==> activeWorkers == old(activeWorkers) + 1
      ensures !hasNextUrl ==> activeWorkers == old(activeWorkers)
      ensures !queue.requireRobots && old(activeWorkers) < maxJobs && Covered(old(events), old(queue.State())) ==>
        Covered(events, queue.State())
    {
      ghost var s := queue.State();
      TakeKeeps(s, queue.requireRobots);
      var nextUrl := queue.Take();
      hasNextUrl := nextUrl.Some?;
      if nextUrl.Some? {
        var url := nextUrl.value;
        if activeWorkers < maxJobs {
          FirstIdleFound(workers);
        }
        var freeWorker := FirstIdle(workers);
        match freeWorker
        case None =>
          // No idle worker: the URL has left the frontier and is dropped.
          ShrinkKeepsRecord(events, s, queue.State());
        case Some(w) =>
          AssignKeeps(workers, w, url);
          activeWorkers := activeWorkers + 1;
          workers := Assign(workers, w, url);
          events := events + [UrlFound(url.url)];
          assert url.url in s.crawled;
          DispatchKeepsRecord(old(events), s, queue.State(), url);
          if !queue.requireRobots && Covered(old(events), s) {
            PopKeepsCovered(old(events), s);
          }
      } else {
        ShrinkKeepsRecord(events, s, queue.State());
        if !queue.requireRobots {
          assert queue.State() == s;
        }
      }
    }

    /** The receive half of one loop iteration: worker `w` replied; it becomes
        idle, and its reply either feeds the frontier or is reported as an
        error. */
    method Receive(w: nat, message: WorkerMessage)
      requires Valid()
      requires w < |workers| && workers[w].isWorking
      modifies this, queue
      ensures Valid()
      ensures workers == Release(old(workers), w)
      ensures activeWorkers == old(activeWorkers) - 1
      ensures message.Success? ==>
        queue.State() == AdmitAll(old(queue.State()), queue.requireRobots, message.urls) && events == old(events)
      ensures message.Failure? ==>
        queue.State() == old(queue.State()) && events == old(events) + [Error(message.url, message.error)]
      ensures Covered(old(events), old(queue.State())) ==> Covered(events, queue.State())
      ensures old(queue.crawled) <= queue.crawled
    {
      ReleaseKeeps(workers, w);
      workers := Release(workers, w);
      activeWorkers := activeWorkers - 1;
      match message
      case Success(urls) =>
        ghost var s := queue.State();
        AdmitAllEffect(s, queue.requireRobots, urls);
        queue.CheckAndQueueIter(urls);
        AdmitKeepsRecord(events, s, queue.State());
      case Failure(e, url) =>
        events := events + [Error(url, e)];
    }

    /** One iteration of the master loop: dispatch, then wait for a reply
        when nothing more can be dispatched and some worker is busy. */
    method Step(crawl: CrawledUrl -> Result<seq<CrawledUrl>, CrawlerError>)
      requires Valid()
      requires !queue.requireRobots
      requires maxJobs >= 1 ==> activeWorkers < maxJobs
      modifies this, queue
      ensures Valid()
      ensures maxJobs >= 1 ==> activeWorkers < maxJobs
      ensures old(events) <= events
      ensures old(queue.crawled) <= queue.crawled
      ensures maxJobs >= 1 && Covered(old(events), old(queue.State())) ==> Covered(events, queue.State())
    {
      var hasNextUrl := Dispatch();
      if (!hasNextUrl || activeWorkers == maxJobs) && activeWorkers != 0 {
        // The fan-in wait listens to the busy workers; there is at least one.
        BusyCountBounds(workers);
        var w: nat :| w < |workers| && workers[w].isWorking;
        var job := workers[w].job.value;
        Receive(w, WorkerReply(job, crawl(job)));
      }
    }

    /** `start_master`, run for at most `fuel` iterations (the crawl need not
        end: the pages fetched may keep linking to new URLs). `crawl` stands
        for the fetching done by the workers. */
    method StartMaster(crawl: CrawledUrl -> Result<seq<CrawledUrl>, CrawlerError>, fuel: nat) returns (finished: bool)
      requires Valid()
      requires !queue.requireRobots
      requires maxJobs >= 1 ==> activeWorkers < maxJobs
      modifies this, queue
      ensures Valid()
      ensures old(events) <= events
      ensures old(queue.crawled) <= queue.crawled
      ensures finished ==> queue.queue == [] && activeWorkers == 0 && workers == Pool(maxJobs)
      ensures maxJobs >= 1 && Covered(old(events), old(queue.State())) ==> Covered(events, queue.State())
    {
      ghost var covered := maxJobs >= 1 && Covered(events, queue.State());
      var steps := 0;
      var empty := queue.IsEmpty();
      while (!empty || activeWorkers > 0) && steps < fuel
        invariant Valid()
        invariant maxJobs >= 1 ==> activeWorkers < maxJobs
        invariant empty <==> queue.queue == []
        invariant old(events) <= events
        invariant old(queue.crawled) <= queue.crawled
        invariant covered ==> Covered(events, queue.State())
        decreases fuel - steps
      {
        Step(crawl);
        steps := steps + 1;
        empty := queue.IsEmpty();
      }
      finished := empty && activeWorkers == 0;
      if finished {
        AllIdleIsPool(workers, maxJobs);
      }
    }

    /** `start`: admit the roots in order as depth-0 entries, spawn a fresh
        pool of idle workers and run the master loop. Any queue is accepted,
        including one from which entries were already taken. When every URL
        the queue had admitted was still waiting or already reported (as for a
        new queue), and the loop finishes with at least one worker, every root
        has been reported found exactly once. */
    method Start(roots: seq<Url>, crawl: CrawledUrl -> Result<seq<CrawledUrl>, CrawlerError>, fuel: nat) returns (finished: bool)
      requires Valid()
      requires !queue.requireRobots
      modifies this, queue
      ensures Valid()
      ensures old(events) <= events
      ensures forall r :: r in roots ==> r in queue.crawled
      ensures finished ==> queue.queue == [] && activeWorkers == 0
      ensures finished && maxJobs >= 1 && Covered(old(events), old(queue.State())) ==>
        forall r :: r in roots ==> UrlFound(r) in events
    {
      ghost var s := queue.State();
      AdmitAllEffect(s, false, Seeds(roots));
      queue.CheckAndQueueIter(Seeds(roots));
      AdmitKeepsRecord(events, s, queue.State());
      assert forall r :: r in roots ==> RootEntry(r) in Seeds(roots);
      workers := Pool(maxJobs);
      activeWorkers := 0;
      BusyCountBounds(workers);
      finished := StartMaster(crawl, fuel);
    }
  }

  /** Taking entries out of the frontier without dispatching them keeps the
      record of dispatched URLs consistent. */
  lemma ShrinkKeepsRecord(events: seq<CrawlerMessage>, s: QueueState, t: QueueState)
    requires DispatchedOnce(events, s)
    requires t.crawled == s.crawled
    requires forall x :: x in t.queue ==> x in s.queue
    ensures DispatchedOnce(events, t)
  {
    forall i, j | 0 <= i < |events| && events[i].UrlFound? && 0 <= j < |t.queue|
      ensures t.queue[j].url != events[i].url
    {
      assert t.queue[j] in s.queue;
    }
  }

  /** Dispatching an entry that has left the frontier records it once. */
  lemma DispatchKeepsRecord(events: seq<CrawlerMessage>, s: QueueState, t: QueueState, url: CrawledUrl)
    requires DispatchedOnce(events, s)
    requires url in s.queue && url.url in s.crawled && t.crawled == s.crawled
    requires forall x :: x in t.queue ==> x in s.queue
    requires forall i :: 0 <= i < |t.queue| ==> t.queue[i].url != url.url
    ensures DispatchedOnce(events + [UrlFound(url.url)], t)
  {
    ShrinkKeepsRecord(events, s, t);
    var k :| 0 <= k < |s.queue| && s.queue[k] == url;
    assert Pending(s.queue, url.url);
    var events' := events + [UrlFound(url.url)];
    forall i | 0 <= i < |events| && events[i].UrlFound? ensures events'[i].url != url.url {
      assert events'[i] == events[i];
    }
  }

  /** Without robots, dispatching the front entry keeps every admitted URL
      either waiting or dispatched. */
  lemma PopKeepsCovered(events: seq<CrawlerMessage>, s: QueueState)
    requires s.queue != []
    requires Covered(events, s)
    ensures Covered(events + [UrlFound(s.queue[0].url)], s.(queue := s.queue[1..]))
  {
    forall u | u in s.crawled
      ensures Pending(s.queue[1..], u) || UrlFound(u) in events + [UrlFound(s.queue[0].url)]
    {
      if Pending(s.queue, u) && u != s.queue[0].url {
        var k :| 0 <= k < |s.queue| && s.queue[k].url == u;
        assert s.queue[1..][k - 1] == s.queue[k];
      }
    }
  }

  /** Admitting new links keeps the record of dispatched URLs consistent. */
  lemma AdmitKeepsRecord(events: seq<CrawlerMessage>, s: QueueState, t: QueueState)
    requires DispatchedOnce(events, s)
    requires s.crawled <= t.crawled && s.queue <= t.queue
    requires forall i :: |s.queue| <= i < |t.queue| ==> t.queue[i].url !in s.crawled
    requires forall u :: u in t.crawled && u !in s.crawled ==> Pending(t.queue, u)
    ensures DispatchedOnce(events, t)
    ensures Covered(events, s) ==> Covered(events, t)
  {
    forall i, j | 0 <= i < |events| && events[i].UrlFound? && 0 <= j < |t.queue|
      ensures t.queue[j].url != events[i].url
    {
      if j < |s.queue| {
        assert t.queue[j] == s.queue[j];
      }
    }
    if Covered(events, s) {
      forall u | u in t.crawled ensures Pending(t.queue, u) || UrlFound(u) in events {
        if u in s.crawled && Pending(s.queue, u) {
          var j :| 0 <= j < |s.queue| && s.queue[j].url == u;
          assert t.queue[j] == s.queue[j];
        }
      }
    }
  }

  lemma AllIdleIsPool(ws: seq<WorkerHandle>, n: nat)
    requires |ws| == n && Consistent(ws) && BusyCount(ws) == 0
    ensures ws == Pool(n)
  {
    BusyCountBounds(ws);
    forall i | 0 <= i < n ensures ws[i] == Idle() {
      assert i !in WaitSet(ws);
    }
  }
}
