/** The master's view of its worker pool, shared by both master loops: one
    handle per worker, the first-fit search for an idle worker, and the
    bookkeeping of busy flags. */
module Workers {
  import opened Urls

  /** The master's handle on one worker: its `is_working` flag, and the job
      sent over its command channel whose reply has not been received yet
      (this stands for the channel pair and the worker task's state). */
  datatype WorkerHandle = WorkerHandle(isWorking: bool, job: Option<CrawledUrl>)

  function Idle(): WorkerHandle
  {
    WorkerHandle(false, None)
  }

  /** A freshly spawned pool of `n` workers, none of them working. */
  function Pool(n: nat): (ws: seq<WorkerHandle>)
    ensures |ws| == n && forall i :: 0 <= i < n ==> ws[i] == Idle()
  {
    seq(n, _ => Idle())
  }

  /** Every flag tells the truth: a worker is marked working exactly when a
      job sent to it has not been answered yet. */
  ghost predicate Consistent(ws: seq<WorkerHandle>)
  {
    forall i :: 0 <= i < |ws| ==> (ws[i].isWorking <==> ws[i].job.Some?)
  }

  /** The number of workers marked working. */
  function BusyCount(ws: seq<WorkerHandle>): nat
    decreases |ws|
  {
    if ws == [] then 0 else (if ws[0].isWorking then 1 else 0) + BusyCount(ws[1..])
  }

  /** The workers a fan-in wait listens to: those marked working. */
  ghost function WaitSet(ws: seq<WorkerHandle>): set<nat>
  {
    set i: nat | i < |ws| && ws[i].isWorking
  }

  /** `workers.iter_mut().find(|x| !x.is_working)`: the lowest-index idle
      worker, if any. */
  function FirstIdle(ws: seq<WorkerHandle>): (r: Option<nat>)
    ensures r.Some? ==> r.value < |ws| && !ws[r.value].isWorking
                        && forall j :: 0 <= j < r.value ==> ws[j].isWorking
    ensures r.None? ==> forall j :: 0 <= j < |ws| ==> ws[j].isWorking
    decreases |ws|
  {
    if ws == [] then None
    else if !ws[0].isWorking then Some(0)
    else
      match FirstIdle(ws[1..])
      case None => None
      case Some(i) => Some(i + 1)
  }

  /** The count is at most the pool size; it reaches it exactly when every
      worker is working, and it is positive exactly when the wait set is not
      empty. */
  lemma {:induction false} BusyCountBounds(ws: seq<WorkerHandle>)
    ensures BusyCount(ws) <= |ws|
    ensures BusyCount(ws) == |ws| <==> forall j :: 0 <= j < |ws| ==> ws[j].isWorking
    ensures BusyCount(ws) > 0 <==> WaitSet(ws) != {}
    decreases |ws|
  {
    if ws != [] {
      BusyCountBounds(ws[1..]);
      assert forall j :: 1 <= j < |ws| ==> ws[j] == ws[1..][j - 1];
      if ws[0].isWorking {
        assert 0 in WaitSet(ws);
      } else {
        if WaitSet(ws[1..]) != {} {
          var j: nat :| j in WaitSet(ws[1..]);
          assert j + 1 in WaitSet(ws);
        }
        forall j | j in WaitSet(ws) ensures j - 1 in WaitSet(ws[1..]) {
          assert j != 0;
        }
      }
    }
  }

  /** While fewer workers are working than exist, first-fit finds one. */
  lemma FirstIdleFound(ws: seq<WorkerHandle>)
    requires BusyCount(ws) < |ws|
    ensures FirstIdle(ws).Some?
  {
    BusyCountBounds(ws);
  }

  /** Replacing one handle changes the count by the change of that flag. */
  lemma {:induction false} BusyCountUpdate(ws: seq<WorkerHandle>, i: nat, h: WorkerHandle)
    requires i < |ws|
    ensures BusyCount(ws[i := h]) + (if ws[i].isWorking then 1 else 0)
            == BusyCount(ws) + (if h.isWorking then 1 else 0)
    decreases |ws|
  {
    if i > 0 {
      assert ws[i := h][1..] == ws[1..][i - 1 := h];
      BusyCountUpdate(ws[1..], i - 1, h);
    }
  }

  /** Marking worker `w` busy with `url`. */
  function Assign(ws: seq<WorkerHandle>, w: nat, url: CrawledUrl): seq<WorkerHandle>
    requires w < |ws|
  {
    ws[w := WorkerHandle(true, Some(url))]
  }

  /** Clearing the flag of the worker whose reply arrived, by its own index. */
  function Release(ws: seq<WorkerHandle>, w: nat): seq<WorkerHandle>
    requires w < |ws|
  {
    ws[w := Idle()]
  }

  /** Giving an idle worker a job keeps the flags truthful and adds one to
      the count. */
  lemma AssignKeeps(ws: seq<WorkerHandle>, w: nat, url: CrawledUrl)
    requires Consistent(ws) && w < |ws| && !ws[w].isWorking
    ensures Consistent(Assign(ws, w, url))
    ensures BusyCount(Assign(ws, w, url)) == BusyCount(ws) + 1
  {
    BusyCountUpdate(ws, w, WorkerHandle(true, Some(url)));
  }

  /** Releasing the worker that replied keeps the flags truthful and takes one
      from the count. */
  lemma ReleaseKeeps(ws: seq<WorkerHandle>, w: nat)
    requires Consistent(ws) && w < |ws| && ws[w].isWorking
    ensures Consistent(Release(ws, w))
    ensures BusyCount(Release(ws, w)) == BusyCount(ws) - 1
    ensures WaitSet(Release(ws, w)) == WaitSet(ws) - {w}
  {
    BusyCountUpdate(ws, w, Idle());
  }

  /** With truthful flags, every worker in the wait set owes a reply, so a
      fan-in wait over it can only end with a reply from a worker that had a
      job. */
  lemma WaitSetOwesReplies(ws: seq<WorkerHandle>)
    requires Consistent(ws)
    ensures forall w :: w in WaitSet(ws) ==> ws[w].job.Some?
  {
  }
}
