/** The older master loop (`Crawler`): a plain double-ended queue with no
    deduplication, taken from the back, and a fetch stub that finds no links.

    When a worker replies, the source clears the flag at the position the
    reply had among the busy workers rather than at the replying worker's own
    index. `ReleaseAsWritten` models that bookkeeping and the lemmas below it
    show where it goes wrong; the loop itself uses `Workers.Release`, which
    clears the replying worker's own flag. */
module Crawler {
  import opened Urls
  import opened Workers
  import Rules

  /** `crawl_url`: a stub that succeeds with no links for every URL. Its error
      type has no values, so the result is just the list of links. */
  function CrawlUrl(url: CrawledUrl): (links: seq<CrawledUrl>)
    ensures links == []
  {
    []
  }

  /** The sequence read from its last element to its first. */
  function Reversed(s: seq<CrawledUrl>): seq<CrawledUrl>
    decreases |s|
  {
    if s == [] then [] else [s[|s| - 1]] + Reversed(s[..|s| - 1])
  }

  /** Position `i` of the reversed sequence holds the `i`-th element from
      the back. */
  lemma {:induction false} ReversedAt(s: seq<CrawledUrl>, i: nat)
    requires i < |s|
    ensures |Reversed(s)| == |s| && Reversed(s)[i] == s[|s| - 1 - i]
    decreases |s|
  {
    ReversedLength(s);
    if i > 0 {
      ReversedAt(s[..|s| - 1], i - 1);
    }
  }

  lemma {:induction false} ReversedLength(s: seq<CrawledUrl>)
    ensures |Reversed(s)| == |s|
    decreases |s|
  {
    if s != [] {
      ReversedLength(s[..|s| - 1]);
    }
  }

  // ---------------------------------------------------------------------------
  // Releasing a worker as the source does it

  /** The index `select_all` reports for worker `w`'s reply: its position among
      the busy workers, which are listed in index order. */
  function BusyPosition(ws: seq<WorkerHandle>, w: nat): nat
    requires w <= |ws|
  {
    BusyCount(ws[..w])
  }

  /** The busy workers occupy a prefix of the pool. */
  ghost predicate BusyPrefix(ws: seq<WorkerHandle>)
  {
    forall i, j :: 0 <= i < j < |ws| && ws[j].isWorking ==> ws[i].isWorking
  }

  /** The reply of worker `w` is consumed, then the flag at `w`'s position
      among the busy workers is cleared. */
  function ReleaseAsWritten(ws: seq<WorkerHandle>, w: nat): seq<WorkerHandle>
    requires w < |ws|
  {
    var consumed := ws[w := ws[w].(job := None)];
    var i := BusyPosition(ws, w);
    BusyCountBounds(ws[..w]);
    consumed[i := consumed[i].(isWorking := false)]
  }

  /** Two replies that leave the pool stuck. With three workers dispatched
      first-fit, worker 0 replies first (its position is its index, so the
      right flag is cleared); then worker 2 replies, its position is 1, and
      the flag of worker 1 is cleared instead. Afterwards worker 1 still owes
      a reply but is not waited for, and worker 2 is waited for but owes
      nothing: the next wait never ends. With two workers, a reply from
      worker 1 while worker 0 is idle leaves worker 1 marked working and the
      flag count one above the decremented counter. */
  lemma ReleaseAsWrittenLosesReplies(a: CrawledUrl, b: CrawledUrl, c: CrawledUrl)
    ensures var ws := Assign(Assign(Assign(Pool(3), 0, a), 1, b), 2, c);
      && ws == [WorkerHandle(true, Some(a)), WorkerHandle(true, Some(b)), WorkerHandle(true, Some(c))]
      && var stuck := ReleaseAsWritten(ReleaseAsWritten(ws, 0), 2);
      && stuck == [Idle(), WorkerHandle(false, Some(b)), WorkerHandle(true, None)]
      && !Consistent(stuck)
      && WaitSet(stuck) == {2}
    ensures var ws := [Idle(), WorkerHandle(true, Some(a))];
      && ReleaseAsWritten(ws, 1) == [Idle(), WorkerHandle(true, None)]
      && BusyCount(ReleaseAsWritten(ws, 1)) == BusyCount(ws)
  {
    var ws := Assign(Assign(Assign(Pool(3), 0, a), 1, b), 2, c);
    var ws1 := ReleaseAsWritten(ws, 0);
    assert ws[..0] == [];
    assert ws1 == [Idle(), WorkerHandle(true, Some(b)), WorkerHandle(true, Some(c))];
    assert ws1[..2] == [Idle(), WorkerHandle(true, Some(b))];
    assert ws1[..2][1..] == [WorkerHandle(true, Some(b))];
    assert ws1[..2][1..][1..] == [];
    assert BusyCount(ws1[..2][1..]) == 1;
    assert BusyPosition(ws1, 2) == 1;
    var stuck := ReleaseAsWritten(ws1, 2);
    assert stuck == [Idle(), WorkerHandle(false, Some(b)), WorkerHandle(true, None)];
    assert WaitSet(stuck) == {2} by {
      assert forall i: nat :: i in WaitSet(stuck) ==> i == 2;
      assert 2 in WaitSet(stuck);
    }
    var two := [Idle(), WorkerHandle(true, Some(a))];
    assert two[..1] == [Idle()];
    assert BusyPosition(two, 1) == 0;
  }

  lemma {:induction false} BusyCountAllWorking(ws: seq<WorkerHandle>)
    requires forall j :: 0 <= j < |ws| ==> ws[j].isWorking
    ensures BusyCount(ws) == |ws|
  {
    BusyCountBounds(ws);
  }

  /** The source's release agrees with releasing the replying worker's own
      flag for every possible reply exactly when the busy workers form a
      prefix of the pool. */
  lemma AsWrittenAgreesIffBusyPrefix(ws: seq<WorkerHandle>)
    ensures BusyPrefix(ws) <==>
      forall w :: 0 <= w < |ws| && ws[w].isWorking ==> ReleaseAsWritten(ws, w) == Release(ws, w)
  {
    if BusyPrefix(ws) {
      forall w | 0 <= w < |ws| && ws[w].isWorking ensures ReleaseAsWritten(ws, w) == Release(ws, w) {
        BusyCountAllWorking(ws[..w]);
        assert BusyPosition(ws, w) == w;
      }
    } else {
      var i, j :| 0 <= i < j < |ws| && ws[j].isWorking && !ws[i].isWorking;
      BusyCountBounds(ws[..j]);
      assert !ws[..j][i].isWorking;
      assert BusyPosition(ws, j) < j;
      assert ReleaseAsWritten(ws, j)[j].isWorking;
      assert !Release(ws, j)[j].isWorking;
    }
  }

  // ---------------------------------------------------------------------------
  // The crawler

  class Crawler {
    // Stored, but never consulted by the loop.
    const rules: Rules.CrawlerRules
    const maxJobs: nat
    var queue: seq<CrawledUrl>
    // The worker vector and the busy counter are locals of `start_master`
    // in the source; they are fields here so that each step is a method.
    var workers: seq<WorkerHandle>
    var activeWorkers: nat
    // The URLs sent to workers, in order.
    ghost var dispatched: seq<CrawledUrl>

    ghost predicate Valid()
      reads this
    {
      && |workers| == maxJobs
      && Consistent(workers)
      && activeWorkers == BusyCount(workers)
    }

    constructor (rules: Rules.CrawlerRules, maxJobs: nat)
      ensures Valid()
      ensures this.rules == rules && this.maxJobs == maxJobs
      ensures queue == [] && workers == Pool(maxJobs) && activeWorkers == 0 && dispatched == []
    {
      this.rules := rules;
      this.maxJobs := maxJobs;
      queue := [];
      workers := Pool(maxJobs);
      activeWorkers := 0;
      dispatched := [];
      new;
      BusyCountBounds(workers);
    }

    /** A `Success` reply from worker `w`: the worker becomes idle and the links
        are appended at the back, in order and without deduplication. */
    method Receive(w: nat, urls: seq<CrawledUrl>)
      requires Valid()
      requires w < |workers| && workers[w].isWorking
      modifies this
      ensures Valid()
      ensures workers == Release(old(workers), w)
      ensures activeWorkers == old(activeWorkers) - 1
      ensures queue == old(queue) + urls
      ensures dispatched == old(dispatched)
    {
      ReleaseKeeps(workers, w);
      workers := Release(workers, w);
      activeWorkers := activeWorkers - 1;
      for k := 0 to |urls|
        invariant queue == old(queue) + urls[..k]
        invariant workers == Release(old(workers), w) && activeWorkers == old(activeWorkers) - 1
        invariant dispatched == old(dispatched)
      {
        assert urls[..k + 1] == urls[..k] + [urls[k]];
        queue := queue + [urls[k]];
      }
      assert urls[..|urls|] == urls;
    }

    /** `start_master`. Entries are popped from the back; with at least one
        worker every entry is dispatched, so entries are dispatched last in,
        first out and the loop ends with nothing queued and every worker
        idle. With no worker at all, every entry is dropped. */
    method StartMaster()
      requires Valid()
      requires maxJobs >= 1 ==> activeWorkers < maxJobs
      modifies this
      ensures Valid()
      ensures queue == [] && activeWorkers == 0 && workers == Pool(maxJobs)
      ensures maxJobs >= 1 ==> dispatched == old(dispatched) + Reversed(old(queue))
      ensures maxJobs == 0 ==> dispatched == old(dispatched)
    {
      while |queue| > 0 || activeWorkers > 0
        invariant Valid()
        invariant maxJobs >= 1 ==> activeWorkers < maxJobs
        invariant maxJobs >= 1 ==> dispatched + Reversed(queue) == old(dispatched) + Reversed(old(queue))
        invariant maxJobs == 0 ==> dispatched == old(dispatched) && activeWorkers == 0
        decreases 2 * |queue| + activeWorkers
      {
        if |queue| > 0 {
          var url := queue[|queue| - 1];
          ghost var before := queue;
          queue := queue[..|queue| - 1];
          assert Reversed(before) == [url] + Reversed(queue);
          if activeWorkers < maxJobs {
            FirstIdleFound(workers);
          }
          var freeWorker := FirstIdle(workers);
          match freeWorker
          case None =>
            // No idle worker: the URL is dropped.
          case Some(w) =>
            AssignKeeps(workers, w, url);
            activeWorkers := activeWorkers + 1;
            workers := Assign(workers, w, url);
            ghost var sent := dispatched;
            dispatched := dispatched + [url];
            assert dispatched + Reversed(queue) == sent + ([url] + Reversed(queue));
        }
        if (|queue| == 0 || activeWorkers == maxJobs) && activeWorkers != 0 {
          // The fan-in wait listens to the busy workers; there is at least one.
          BusyCountBounds(workers);
          var w: nat :| w < |workers| && workers[w].isWorking;
          var urls := CrawlUrl(workers[w].job.value);
          ghost var waiting := queue;
          Receive(w, urls);
          assert queue == waiting;
        }
      }
      BusyCountBounds(workers);
      forall i | 0 <= i < |workers| ensures workers[i] == Idle() {
        assert i !in WaitSet(workers);
      }
    }

    /** `start`: the roots are appended at the back as depth-0 entries, with no
        deduplication, a fresh pool of idle workers is spawned and the master
        loop runs. With at least one worker, the entries already queued and
        then the roots are dispatched in reverse order. */
    method Start(roots: seq<Url>)
      modifies this
      ensures Valid()
      ensures queue == [] && activeWorkers == 0
      ensures maxJobs >= 1 ==> dispatched == old(dispatched) + Reversed(old(queue) + Seeds(roots))
      ensures maxJobs == 0 ==> dispatched == old(dispatched)
    {
      for i := 0 to |roots|
        invariant queue == old(queue) + Seeds(roots[..i])
        invariant dispatched == old(dispatched)
      {
        assert Seeds(roots[..i + 1]) == Seeds(roots[..i]) + [RootEntry(roots[i])];
        queue := queue + [RootEntry(roots[i])];
      }
      assert roots[..|roots|] == roots;
      workers := Pool(maxJobs);
      activeWorkers := 0;
      BusyCountBounds(workers);
      StartMaster();
    }
  }

  /** Started afresh, the crawler dispatches its roots last first: the `i`-th
      URL dispatched is the `i`-th root from the back. */
  lemma {:induction false} RootsDispatchedLastFirst(roots: seq<Url>, i: nat)
    requires i < |roots|
    ensures |Reversed(Seeds(roots))| == |roots|
    ensures Reversed(Seeds(roots))[i] == RootEntry(roots[|roots| - 1 - i])
  {
    ReversedAt(Seeds(roots), i);
  }
}
