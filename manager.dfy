/**
 * The scheduler and job-list bookkeeping of `RenderManagerUI.py`: the
 * `ManagerUI` object keeps every job in `renderJobs` (the order of the job
 * list box) and, per host, a queue `renderQueue[host]` whose head is the job
 * that host should be rendering.  A timer calls `update` over and over;
 * the buttons restart, remove, pause, kill and copy the selected job.
 *
 * An exception that escapes a handler is returned as the `Raised` value of
 * the step that raised it, and the code after it does not run.
 */
module Manager {
  import opened Text
  import opened JobText
  import opened JobModel
  import MayaJob
  import Form

  /** The bandwidth limit `secureCopy` passes to `scp -l` by default. */
  const CopyLimit: int := 8912

  /** What `addJob` did: appended the job, logged the IOError the
      constructor raised and returned, or let another error escape. */
  datatype AddOutcome = Added | Skipped | Escaped(error: MayaJob.InitError)

  /** What happens to the head of a host's queue in a tick, given its state:
      a job that is not running is started, and when starting it raises
      IOError it is closed and the host's queue loses its LAST element (the
      `pop()` at the end of the except clause).  An error that escapes
      `run` or `close` leaves the queue alone. */
  datatype Start = Start(job: JobSnap, popped: bool, raised: Raised)

  /** The head step of the tick.  A running head is left alone: the branch
      that would retire a completed running head cannot be taken. */
  function StartHead(s: JobSnap): (t: Start)
    ensures t.popped ==> t.raised == Clean
  {
    if s.state == Running then Start(s, false, Clean)
    else
      var r := JobModel.Run(s);
      if r.raised == IOError then
        var c := JobModel.Close(r.job);
        Start(c.job, c.raised == Clean, c.raised)
      else Start(r.job, false, r.raised)
  }

  /** Only an idle head is started.  A paused head stays paused, and a
      completed head keeps its place: no later job of that host's queue is
      ever started once its head has completed. */
  lemma StartHeadLeavesNonIdle(s: JobSnap)
    requires s.state != Idle
    ensures StartHead(s) == Start(s, false, Clean)
  {
  }

  /** Starting an idle head either leaves it running, completes it through
      `close` and drops the queue's last job, or lets the error escape. */
  lemma StartHeadIdle(s: JobSnap)
    requires s.state == Idle && Inv(s)
    ensures StartHead(s).raised == Clean && !StartHead(s).popped ==> StartHead(s).job.state == Running
    ensures StartHead(s).popped ==> Completed(StartHead(s).job) && StartHead(s).job.session.closed
    ensures Inv(StartHead(s).job)
    ensures StartHead(s).raised in {Clean, IOError, EofError, IndexError}
  {
  }

  /** The outcome of the first loop of a tick from the `i`-th host on:
      the queues, the state of each host's original head, the error that
      escaped (`Clean` for none) and the index of the host it escaped at. */
  datatype Ticked = Ticked(queue: map<string, seq<MayaJob.Job>>, heads: map<string, JobSnap>,
                           raised: Raised, stopped: nat)

  /** The first loop of a tick as a function of the queues and of the
      states of the heads, host by host in the order `hosts`, for a head
      step `f`. */
  function StartSweep(hosts: seq<string>, i: nat, q: map<string, seq<MayaJob.Job>>,
                      heads: map<string, JobSnap>, f: JobSnap -> Start): Ticked
    requires forall h :: h in q && q[h] != [] ==> h in heads
    decreases |hosts| - i
  {
    if i >= |hosts| then Ticked(q, heads, Clean, i)
    else
      var h := hosts[i];
      if h !in q || q[h] == [] then StartSweep(hosts, i + 1, q, heads, f)
      else
        var t := f(heads[h]);
        var q' := Pop(q, h, t);
        var heads' := heads[h := t.job];
        if t.raised != Clean then Ticked(q', heads', t.raised, i)
        else StartSweep(hosts, i + 1, q', heads', f)
  }

  /** The first loop of a tick, whose head step is `StartHead`. */
  function StartFrom(hosts: seq<string>, i: nat, q: map<string, seq<MayaJob.Job>>,
                     heads: map<string, JobSnap>): Ticked
    requires forall h :: h in q && q[h] != [] ==> h in heads
  {
    StartSweep(hosts, i, q, heads, StartHead)
  }

  /** The queues after the head of `host` took `t`. */
  function Pop(q: map<string, seq<MayaJob.Job>>, host: string, t: Start): map<string, seq<MayaJob.Job>>
    requires host in q && q[host] != []
  {
    if t.popped then q[host := q[host][..|q[host]| - 1]] else q
  }

  /** Heads of different hosts' queues are different jobs. */
  lemma HeadsDistinct(q: map<string, seq<MayaJob.Job>>, host: string)
    requires forall h, j :: h in q && j in q[h] ==> j.config.host == h
    requires host in q && q[host] != []
    ensures forall h :: h in q && q[h] != [] && h != host ==> q[h][0] != q[host][0]
  {
    forall h | h in q && q[h] != [] && h != host
      ensures q[h][0] != q[host][0]
    {
      assert q[h][0] in q[h] && q[host][0] in q[host];
      assert q[h][0].config.host == h && q[host][0].config.host == host;
    }
  }

  /** One unfolding of `StartFrom` at a non-empty queue. */
  lemma StartFromStep(hosts: seq<string>, i: nat, q: map<string, seq<MayaJob.Job>>,
                      heads: map<string, JobSnap>, t: Start)
    requires forall h :: h in q && q[h] != [] ==> h in heads
    requires i < |hosts| && hosts[i] in q && q[hosts[i]] != []
    requires t == StartHead(heads[hosts[i]])
    ensures StartFrom(hosts, i, q, heads)
            == if t.raised != Clean then Ticked(Pop(q, hosts[i], t), heads[hosts[i] := t.job], t.raised, i)
               else StartFrom(hosts, i + 1, Pop(q, hosts[i], t), heads[hosts[i] := t.job])
  {
  }

  /** Taking a head's step only ever shortens that host's queue, by its
      last job, and keeps every other queue. */
  lemma PopShape(q: map<string, seq<MayaJob.Job>>, host: string, t: Start)
    requires host in q && q[host] != []
    ensures Pop(q, host, t).Keys == q.Keys
    ensures Pop(q, host, t)[host] <= q[host]
    ensures |Pop(q, host, t)[host]| == |q[host]| - (if t.popped then 1 else 0)
    ensures forall h :: h in q && h != host ==> Pop(q, host, t)[h] == q[h]
    ensures forall h, j :: h in q && j in Pop(q, host, t)[h] ==> j in q[h]
  {
  }

  /** A host the first loop does not reach keeps its queue and its head,
      whatever the head step. */
  lemma {:induction false} StartSweepSkips(hosts: seq<string>, i: nat, q: map<string, seq<MayaJob.Job>>,
                                            heads: map<string, JobSnap>, f: JobSnap -> Start, k: string)
    requires forall h :: h in q && q[h] != [] ==> h in heads
    requires i <= |hosts| && k in q && k !in hosts[i..]
    ensures var r := StartSweep(hosts, i, q, heads, f);
            k in r.queue && r.queue[k] == q[k] && (k in heads ==> k in r.heads && r.heads[k] == heads[k])
    decreases |hosts| - i
  {
    if i < |hosts| {
      assert hosts[i] != k && hosts[i + 1..] == hosts[i..][1..];
      var h := hosts[i];
      if h in q && q[h] != [] {
        var t := f(heads[h]);
        PopShape(q, h, t);
        if t.raised == Clean {
          StartSweepSkips(hosts, i + 1, Pop(q, h, t), heads[h := t.job], f, k);
        }
      } else {
        StartSweepSkips(hosts, i + 1, q, heads, f, k);
      }
    }
  }

  /** Over distinct hosts, the first loop drops at most the last job of
      each queue, keeps every host, and stops exactly when an error
      escapes, whatever the head step. */
  lemma {:induction false} StartSweepShape(hosts: seq<string>, i: nat, q: map<string, seq<MayaJob.Job>>,
                                            heads: map<string, JobSnap>, f: JobSnap -> Start)
    requires forall h :: h in q && q[h] != [] ==> h in heads
    requires i <= |hosts|
    requires forall a, b :: i <= a < b < |hosts| ==> hosts[a] != hosts[b]
    ensures var r := StartSweep(hosts, i, q, heads, f);
            r.queue.Keys == q.Keys && i <= r.stopped <= |hosts| && (r.raised == Clean <==> r.stopped == |hosts|)
            && forall h :: h in q ==>
                 r.queue[h] == q[h] || (q[h] != [] && r.queue[h] == q[h][..|q[h]| - 1])
    decreases |hosts| - i
  {
    if i < |hosts| {
      var h := hosts[i];
      if h in q && q[h] != [] {
        var t := f(heads[h]);
        PopShape(q, h, t);
        var q' := Pop(q, h, t);
        if t.raised == Clean {
          StartSweepShape(hosts, i + 1, q', heads[h := t.job], f);
          assert h !in hosts[i + 1..];
          StartSweepSkips(hosts, i + 1, q', heads[h := t.job], f, h);
        }
      } else {
        StartSweepShape(hosts, i + 1, q, heads, f);
      }
    }
  }

  /** A tick in which no head is idle changes nothing: in particular a
      queue whose head has completed never moves on to its next job. */
  lemma {:induction false} StartFromNoIdle(hosts: seq<string>, i: nat, q: map<string, seq<MayaJob.Job>>,
                                            heads: map<string, JobSnap>)
    requires forall h :: h in q && q[h] != [] ==> h in heads && heads[h].state != Idle
    requires i <= |hosts|
    ensures StartFrom(hosts, i, q, heads) == Ticked(q, heads, Clean, |hosts|)
    decreases |hosts| - i
  {
    if i < |hosts| {
      var h := hosts[i];
      if h in q && q[h] != [] {
        StartHeadLeavesNonIdle(heads[h]);
        assert heads[h := heads[h]] == heads;
      }
      StartFromNoIdle(hosts, i + 1, q, heads);
    }
  }

  /** The current state of each host's head in `q`. */
  function HeadSnaps(q: map<string, seq<MayaJob.Job>>): (r: map<string, JobSnap>)
    reads set h | h in q && q[h] != [] :: q[h][0]
    ensures forall h :: h in q && q[h] != [] ==> h in r
  {
    map h | h in q && q[h] != [] :: q[h][0].Snap()
  }

  /** The outcome of a loop over the job list from the `i`-th job on: the
      jobs' states, the error that escaped (`Clean` for none) and the index
      of the job it escaped at. */
  datatype Swept = Swept(jobs: seq<JobSnap>, raised: Raised, stopped: nat)

  /** Both loops of a tick apply one step to each job in list order, from
      the `i`-th on, and stop at the first step that raises. */
  function SweepFrom(jobs: seq<JobSnap>, i: nat, f: JobSnap -> Step): (r: Swept)
    ensures |r.jobs| == |jobs|
    decreases |jobs| - i
  {
    if i >= |jobs| then Swept(jobs, Clean, |jobs|)
    else
      var c := f(jobs[i]);
      if c.raised != Clean then Swept(jobs[i := c.job], c.raised, i)
      else SweepFrom(jobs[i := c.job], i + 1, f)
  }

  /** The step of the second loop of a tick: a job that has not completed
      is updated, a completed one is skipped. */
  function PollStep(s: JobSnap): Step
  {
    if Completed(s) then Step(s, Clean) else Update(s)
  }

  /** The second loop of a tick. */
  function PollFrom(jobs: seq<JobSnap>, i: nat): Swept
  {
    SweepFrom(jobs, i, PollStep)
  }

  /** The loop of the exit branch: every job is closed. */
  function CloseFrom(jobs: seq<JobSnap>, i: nat): Swept
  {
    SweepFrom(jobs, i, JobModel.Close)
  }

  /** Where a sweep from `i` stops: at the first step that raises, or at
      the end exactly when none raises. */
  lemma {:induction false} SweepStops(jobs: seq<JobSnap>, i: nat, f: JobSnap -> Step)
    requires i <= |jobs|
    ensures var r := SweepFrom(jobs, i, f);
            i <= r.stopped <= |jobs| && (r.raised == Clean <==> r.stopped == |jobs|)
            && (r.stopped < |jobs| ==>
                  r.raised == f(jobs[r.stopped]).raised && r.jobs[r.stopped] == f(jobs[r.stopped]).job)
    decreases |jobs| - i
  {
    if i < |jobs| {
      var c := f(jobs[i]);
      if c.raised == Clean {
        var next := jobs[i := c.job];
        SweepStops(next, i + 1, f);
        assert forall k :: 0 <= k < |jobs| && k != i ==> next[k] == jobs[k];
      }
    }
  }

  /** The jobs a sweep from `i` leaves alone: those before `i` and those
      after the stop. */
  lemma {:induction false} SweepLeaves(jobs: seq<JobSnap>, i: nat, f: JobSnap -> Step)
    requires i <= |jobs|
    ensures var r := SweepFrom(jobs, i, f);
            (forall k :: 0 <= k < i ==> r.jobs[k] == jobs[k])
            && (forall k :: r.stopped < k < |jobs| ==> r.jobs[k] == jobs[k])
    decreases |jobs| - i
  {
    if i < |jobs| {
      var c := f(jobs[i]);
      if c.raised == Clean {
        var next := jobs[i := c.job];
        SweepLeaves(next, i + 1, f);
        SweepStops(next, i + 1, f);
        assert forall k :: 0 <= k < |jobs| && k != i ==> next[k] == jobs[k];
      }
    }
  }

  /** Every job before the stop of a sweep from `i` took its step without
      raising. */
  lemma {:induction false} SweepApplies(jobs: seq<JobSnap>, i: nat, f: JobSnap -> Step)
    requires i <= |jobs|
    ensures var r := SweepFrom(jobs, i, f);
            forall k :: i <= k < r.stopped && k < |jobs| ==>
              f(jobs[k]).raised == Clean && r.jobs[k] == f(jobs[k]).job
    decreases |jobs| - i
  {
    if i < |jobs| {
      var c := f(jobs[i]);
      if c.raised == Clean {
        var next := jobs[i := c.job];
        SweepApplies(next, i + 1, f);
        SweepLeaves(next, i + 1, f);
        assert forall k :: 0 <= k < |jobs| && k != i ==> next[k] == jobs[k];
      }
    }
  }

  /** The poll sweep leaves completed jobs alone and never stops at one:
      a completed job is skipped, not updated. */
  lemma PollSkipsCompleted(jobs: seq<JobSnap>)
    ensures var r := PollFrom(jobs, 0);
            (forall k :: 0 <= k < |jobs| && Completed(jobs[k]) ==> r.jobs[k] == jobs[k])
            && (r.stopped < |jobs| ==>
                  !Completed(jobs[r.stopped]) && r.raised == Update(jobs[r.stopped]).raised)
  {
    SweepStops(jobs, 0, PollStep);
    SweepLeaves(jobs, 0, PollStep);
    SweepApplies(jobs, 0, PollStep);
  }

  /** A clean exit leaves every job completed with its session closed. */
  lemma CloseAllCompletes(jobs: seq<JobSnap>)
    ensures CloseFrom(jobs, 0).raised == Clean ==>
              forall k :: 0 <= k < |jobs| ==>
                Completed(CloseFrom(jobs, 0).jobs[k]) && CloseFrom(jobs, 0).jobs[k].session.closed
  {
    SweepStops(jobs, 0, JobModel.Close);
    SweepApplies(jobs, 0, JobModel.Close);
  }

  /** The current states of the jobs `js`. */
  function SnapsOf(js: seq<MayaJob.Job>): (r: seq<JobSnap>)
    reads set j | j in js
    ensures |r| == |js| && forall k :: 0 <= k < |js| ==> r[k] == js[k].Snap()
  {
    seq(|js|, k requires 0 <= k < |js| reads set j | j in js => js[k].Snap())
  }

  /** The form and the job constructor disagree on one point: a backward
      frame range passes the form only without a resolution override, and
      then the constructor's ValueError escapes `addJob`.  Any other passing
      form gives a request whose range the constructor accepts. */
  lemma BackwardRangeEscapes(e: Form.Entries, env: MayaJob.Env)
    requires Form.FormVerdict(e).Success?
    ensures var req := Form.FormVerdict(e).value;
            (MayaJob.Init(ConfigOf(req), env) == MayaJob.Failure(MayaJob.NegativeFrameRange) <==> req.end < req.start)
            && (req.end < req.start ==> e.resOverride.None?)
  {
  }

  /** `queue[host].append(job)`, or a new one-element queue for a host not
      seen before. */
  function Enqueue(q: map<string, seq<MayaJob.Job>>, host: string, j: MayaJob.Job): map<string, seq<MayaJob.Job>>
  {
    if host in q then q[host := q[host] + [j]] else q[host := [j]]
  }

  /** No job is listed twice, and a host's queue holds only jobs for that
      host. */
  predicate Consistent(jobs: seq<MayaJob.Job>, q: map<string, seq<MayaJob.Job>>)
  {
    (forall a, b :: 0 <= a < b < |jobs| ==> jobs[a] != jobs[b])
    && (forall h, j :: h in q && j in q[h] ==> j.config.host == h)
  }

  /** Adding a job that is not yet listed to the list and to its own
      host's queue keeps the bookkeeping consistent. */
  lemma AddKeepsConsistent(jobs: seq<MayaJob.Job>, q: map<string, seq<MayaJob.Job>>, j: MayaJob.Job)
    requires Consistent(jobs, q) && j !in jobs
    ensures Consistent(jobs + [j], Enqueue(q, j.config.host, j))
  {
    var q' := Enqueue(q, j.config.host, j);
    forall h: string, i: MayaJob.Job | h in q' && i in q'[h]
      ensures i.config.host == h
    {
      if h != j.config.host || i != j {
        assert i in q[h];
      }
    }
  }

  /** The arguments `addJob` passes to the job constructor: no user, so the
      job logs in as the local user. */
  function ConfigOf(req: Form.JobRequest): MayaJob.JobConfig
  {
    MayaJob.JobConfig(req.host, req.scenePath, req.outputPath, req.start, req.end,
                      req.camOverride, req.resOverride, None, req.binPath)
  }

  /** Appending puts the job last in its host's queue, creates the queue
      for a new host and leaves every other queue as it was. */
  lemma EnqueueSpec(q: map<string, seq<MayaJob.Job>>, host: string, j: MayaJob.Job)
    ensures host in Enqueue(q, host, j)
    ensures Enqueue(q, host, j)[host] == (if host in q then q[host] else []) + [j]
    ensures Enqueue(q, host, j).Keys == q.Keys + {host}
    ensures forall h :: h in q && h != host ==> Enqueue(q, host, j)[h] == q[h]
  {
  }

  /** `del s[id]`: the list with entry `id` taken out, later entries moved
      down one place. */
  function Without<T>(s: seq<T>, id: nat): (r: seq<T>)
    requires id < |s|
    ensures |r| == |s| - 1
    ensures forall k :: 0 <= k < id ==> r[k] == s[k]
    ensures forall k :: id <= k < |r| ==> r[k] == s[k + 1]
  {
    s[..id] + s[id + 1..]
  }

  /** What the restart button did: nothing when no job is selected,
      otherwise the replacement, or the error that escaped constructing the
      new job or closing the old one. */
  datatype Restart = Restarted | Unselected | InitEscaped(error: MayaJob.InitError) | CloseEscaped(raised: Raised)

  /** The log files the remove button deletes: both logs of a job whose
      exit status is 0, none of any other. */
  function RemovedLogs(code: Option<nat>, jobLogPath: string, logPath: string): (r: seq<string>)
    ensures r == [] || r == [jobLogPath, logPath]
    ensures r != [] <==> code == Some(0)
  {
    if code == Some(0) then [jobLogPath, logPath] else []
  }

  class RenderManager {
    var renderJobs: seq<MayaJob.Job>
    var renderQueue: map<string, seq<MayaJob.Job>>
    /** The index selected in the job list, `-1` for none. */
    var selectedJobID: int
    /** Set by the exit handler; the next tick then closes every job. */
    var shouldExit: bool
    /** Whether the tick has re-armed its timer. */
    var ticking: bool
    /** The log files deleted so far, in order. */
    var removedFiles: seq<string>
    /** The `scp` command lines run so far, in order. */
    var copyCommands: seq<string>

    /** Every job the manager refers to: those in the list and those in a
        queue (a removed or restarted job can linger in its queue). */
    function Jobs(): set<MayaJob.Job>
      reads this
    {
      (set j | j in renderJobs) + (set h, j | h in renderQueue && j in renderQueue[h] :: j)
    }

    /** The jobs at the heads of the queues. */
    function Heads(): set<MayaJob.Job>
      reads this
    {
      set h | h in renderQueue && renderQueue[h] != [] :: renderQueue[h][0]
    }

    /** No job is listed twice, and a host's queue holds only jobs for that
        host. */
    predicate Valid()
      reads this
    {
      Consistent(renderJobs, renderQueue)
    }

    /** The selection is none or a job in the list. */
    predicate Selected()
      reads this
    {
      selectedJobID == -1 || 0 <= selectedJobID < |renderJobs|
    }

    constructor()
      ensures Valid() && Selected()
      ensures renderJobs == [] && renderQueue == map[] && selectedJobID == -1
      ensures !shouldExit && ticking && removedFiles == [] && copyCommands == []
    {
      renderJobs := [];
      renderQueue := map[];
      selectedJobID := -1;
      shouldExit := false;
      ticking := true;
      removedFiles := [];
      copyCommands := [];
    }

    /** `addJob`: construct the job; on success append it to the job list
        and to its host's queue. */
    method AddJob(req: Form.JobRequest, env: MayaJob.Env) returns (outcome: AddOutcome)
      requires Valid()
      modifies this
      ensures Valid()
      ensures outcome == Added <==> MayaJob.Init(ConfigOf(req), env).Success?
      ensures outcome == Skipped <==> MayaJob.Init(ConfigOf(req), env) == MayaJob.Failure(MayaJob.SceneUnreadable)
      ensures outcome.Escaped? ==> MayaJob.Init(ConfigOf(req), env) == MayaJob.Failure(outcome.error)
      ensures outcome == Added ==>
                |renderJobs| == |old(renderJobs)| + 1 && renderJobs[..|old(renderJobs)|] == old(renderJobs)
                && var j := renderJobs[|old(renderJobs)|];
                   fresh(j) && j.config == ConfigOf(req) && !j.copied
                   && j.Snap() == MayaJob.Init(ConfigOf(req), env).value
                   && renderQueue == Enqueue(old(renderQueue), req.host, j)
      ensures outcome != Added ==> renderJobs == old(renderJobs) && renderQueue == old(renderQueue)
      ensures selectedJobID == old(selectedJobID) && shouldExit == old(shouldExit) && ticking == old(ticking)
      ensures removedFiles == old(removedFiles) && copyCommands == old(copyCommands)
    {
      var created := MayaJob.Job.Create(ConfigOf(req), env);
      if created.Failure? {
        if created.error == MayaJob.SceneUnreadable {
          return Skipped;
        }
        return Escaped(created.error);
      }
      Append(created.value);
      outcome := Added;
    }

    /** The bookkeeping half of `addJob`: append a new job to the list and
        to its host's queue. */
    method Append(job: MayaJob.Job)
      requires Valid() && job !in renderJobs
      modifies this`renderJobs, this`renderQueue
      ensures Valid()
      ensures renderJobs == old(renderJobs) + [job]
      ensures renderQueue == Enqueue(old(renderQueue), job.config.host, job)
    {
      AddKeepsConsistent(renderJobs, renderQueue, job);
      renderJobs := renderJobs + [job];
      if job.config.host in renderQueue {
        renderQueue := renderQueue[job.config.host := renderQueue[job.config.host] + [job]];
      } else {
        renderQueue := renderQueue[job.config.host := [job]];
      }
    }

    /** `runningJobsOnHost`: a search of the job list for another job (by
        identity) on the same host that has not completed. */
    method RunningJobsOnHost(current: MayaJob.Job) returns (b: bool)
      ensures b <==> exists j :: j in renderJobs && j != current && j.config.host == current.config.host
                                 && !j.Completed()
    {
      for i := 0 to |renderJobs|
        invariant forall a :: 0 <= a < i ==>
                    !(renderJobs[a] != current && renderJobs[a].config.host == current.config.host
                      && !renderJobs[a].Completed())
      {
        var job := renderJobs[i];
        if job != current {
          if job.config.host == current.config.host {
            if !job.Completed() {
              return true;
            }
          }
        }
      }
      return false;
    }
    /** Whether `j` heads its host's queue in `q`. */
    static predicate IsHead(q: map<string, seq<MayaJob.Job>>, j: MayaJob.Job)
    {
      j.config.host in q && q[j.config.host] != [] && q[j.config.host][0] == j
    }

    /** The first loop of `update`, for the dictionary's iteration order
        `hosts`: it does what `StartFrom` says to the queues and to the
        heads, and changes no other job. */
    method StartHeads(hosts: seq<string>) returns (escaped: Raised, ghost stopped: nat)
      requires Valid()
      requires forall h :: h in renderQueue <==> h in hosts
      requires forall a, b :: 0 <= a < b < |hosts| ==> hosts[a] != hosts[b]
      modifies this`renderQueue, Heads()
      ensures Valid()
      ensures var model := StartFrom(hosts, 0, old(renderQueue), old(HeadSnaps(renderQueue)));
              renderQueue == model.queue && escaped == model.raised && stopped == model.stopped
              && forall h :: h in old(renderQueue) && old(renderQueue)[h] != [] ==>
                   h in model.heads && old(renderQueue)[h][0].Snap() == model.heads[h]
    {
      ghost var q0: map<string, seq<MayaJob.Job>> := renderQueue;
      ghost var heads := HeadSnaps(q0);
      ghost var goal := StartFrom(hosts, 0, q0, heads);
      var i := 0;
      while i < |hosts|
        invariant 0 <= i <= |hosts|
        invariant renderQueue.Keys == q0.Keys
        invariant forall h :: h in renderQueue ==> renderQueue[h] <= q0[h]
        invariant forall a :: i <= a < |hosts| ==> renderQueue[hosts[a]] == q0[hosts[a]]
        invariant HeadsAre(q0, heads)
        invariant StartFrom(hosts, i, renderQueue, heads) == goal
      {
        assert HeadSet(hosts[i]) <= old(Heads());
        ghost var before := renderQueue;
        var r;
        r, heads := StartNext(hosts, i, q0, heads);
        if r != Clean {
          return r, i;
        }
        forall a | i < a < |hosts|
          ensures renderQueue[hosts[a]] == q0[hosts[a]]
        {
          assert hosts[a] != hosts[i] && hosts[a] in before;
        }
        i := i + 1;
      }
      return Clean, i;
    }

    /** `heads` holds the current state of each host's original head. */
    static predicate HeadsAre(q0: map<string, seq<MayaJob.Job>>, heads: map<string, JobSnap>)
      reads set h | h in q0 && q0[h] != [] :: q0[h][0]
    {
      forall h :: h in q0 && q0[h] != [] ==> h in heads && q0[h][0].Snap() == heads[h]
    }

    /** The head of `host`'s queue, if it has one. */
    function HeadSet(host: string): set<MayaJob.Job>
      reads this
    {
      if host in renderQueue && renderQueue[host] != [] then {renderQueue[host][0]} else {}
    }

    /** One turn of that loop, stated on the model. */
    method StartNext(hosts: seq<string>, i: nat, ghost q0: map<string, seq<MayaJob.Job>>,
                     ghost heads: map<string, JobSnap>)
      returns (r: Raised, ghost heads': map<string, JobSnap>)
      requires i < |hosts| && hosts[i] in renderQueue
      requires Valid()
      requires renderQueue.Keys == q0.Keys
      requires forall h, j :: h in q0 && j in q0[h] ==> j.config.host == h
      requires forall h :: h in renderQueue ==> renderQueue[h] <= q0[h]
      requires renderQueue[hosts[i]] == q0[hosts[i]]
      requires HeadsAre(q0, heads)
      modifies this`renderQueue, HeadSet(hosts[i])
      ensures Valid()
      ensures renderQueue.Keys == q0.Keys
      ensures forall h :: h in renderQueue ==> renderQueue[h] <= q0[h]
      ensures forall h :: h in renderQueue && h != hosts[i] ==> renderQueue[h] == old(renderQueue)[h]
      ensures HeadsAre(q0, heads')
      ensures if r != Clean then StartFrom(hosts, i, old(renderQueue), heads) == Ticked(renderQueue, heads', r, i)
              else StartFrom(hosts, i, old(renderQueue), heads) == StartFrom(hosts, i + 1, renderQueue, heads')
    {
      var host := hosts[i];
      if renderQueue[host] == [] {
        return Clean, heads;
      }
      ghost var q := renderQueue;
      ghost var head := renderQueue[host][0];
      assert head == q0[host][0];
      assert heads[host] == head.Snap();
      HeadsDistinct(q0, host);
      ghost var t;
      r, t := StartHeadOf(host);
      assert t == StartHead(heads[host]);
      StartFromStep(hosts, i, q, heads, t);
      PopShape(q, host, t);
      heads' := heads[host := t.job];
      forall h | h in q0 && q0[h] != []
        ensures h in heads' && q0[h][0].Snap() == heads'[h]
      {
        if h != host {
          assert q0[h][0] != head;
        }
      }
      forall h | h in renderQueue
        ensures renderQueue[h] <= q0[h]
      {
        assert h != host ==> renderQueue[h] == q[h];
      }
    }

    /** One host of that loop: start the head unless it is running; when
        `run` raises IOError close it and drop the queue's last job. */
    method StartHeadOf(host: string) returns (raised: Raised, ghost t: Start)
      requires host in renderQueue && renderQueue[host] != []
      modifies this`renderQueue, renderQueue[host][0]
      ensures t == StartHead(old(renderQueue[host][0].Snap()))
      ensures old(renderQueue[host][0]).Snap() == t.job && raised == t.raised
      ensures renderQueue == Pop(old(renderQueue), host, t)
    {
      var head := renderQueue[host][0];
      if head.state != Running {
        var r := head.Run();
        if r == IOError {
          var c := head.Close();
          if c != Clean {
            return c, StartHead(old(head.Snap()));
          }
          renderQueue := renderQueue[host := renderQueue[host][..|renderQueue[host]| - 1]];
        } else if r != Clean {
          return r, StartHead(old(head.Snap()));
        }
      } else if head.Completed() {
        // A running head is not completed, so the retire branch is dead.
        assert false;
      }
      return Clean, StartHead(old(head.Snap()));
    }
    /** The second loop of `update`: each job in the list that has not
        completed is updated, as `PollFrom` says. */
    method PollJobs() returns (escaped: Raised, ghost stopped: nat)
      requires Valid()
      modifies set j | j in renderJobs
      ensures var model := PollFrom(old(SnapsOf(renderJobs)), 0);
              escaped == model.raised && stopped == model.stopped
              && forall k :: 0 <= k < |renderJobs| ==> renderJobs[k].Snap() == model.jobs[k]
    {
      ghost var cur := SnapsOf(renderJobs);
      ghost var goal := PollFrom(cur, 0);
      var i := 0;
      escaped := Clean;
      while i < |renderJobs| && escaped == Clean
        invariant i <= |renderJobs| && |cur| == |renderJobs|
        invariant forall k :: 0 <= k < |renderJobs| ==> renderJobs[k].Snap() == cur[k]
        invariant escaped == Clean ==> PollFrom(cur, i) == goal
        invariant escaped != Clean ==> goal == Swept(cur, escaped, i)
        decreases |renderJobs| - i, if escaped == Clean then 1 else 0
      {
        escaped, cur := PollAt(i, cur);
        if escaped == Clean {
          i := i + 1;
        }
      }
      stopped := i;
    }

    /** One turn of that loop, stated on the model: a completed job is
        skipped, any other updated. */
    method PollAt(i: nat, ghost cur: seq<JobSnap>) returns (r: Raised, ghost cur': seq<JobSnap>)
      requires Valid() && i < |renderJobs| && |cur| == |renderJobs|
      requires forall k :: 0 <= k < |renderJobs| ==> renderJobs[k].Snap() == cur[k]
      modifies renderJobs[i]
      ensures |cur'| == |renderJobs| && forall k :: 0 <= k < |renderJobs| ==> renderJobs[k].Snap() == cur'[k]
      ensures if r != Clean then PollFrom(cur, i) == Swept(cur', r, i)
              else PollFrom(cur, i) == PollFrom(cur', i + 1)
    {
      var job := renderJobs[i];
      if job.Completed() {
        assert cur[i := PollStep(cur[i]).job] == cur;
        return Clean, cur;
      }
      r := job.Update();
      cur' := cur[i := job.Snap()];
      forall k | 0 <= k < |renderJobs| && k != i
        ensures renderJobs[k].Snap() == cur'[k]
      {
        assert renderJobs[k] != job;
      }
    }

    /** The exit branch of `update`: close every job in list order, then
        drop the job list (`del self.renderJobs`). */
    method CloseAll() returns (escaped: Raised, ghost stopped: nat)
      requires Valid()
      modifies this`renderJobs, set j | j in renderJobs
      ensures var model := CloseFrom(old(SnapsOf(renderJobs)), 0);
              escaped == model.raised && stopped == model.stopped
              && forall k :: 0 <= k < |old(renderJobs)| ==> old(renderJobs)[k].Snap() == model.jobs[k]
      ensures renderJobs == if escaped == Clean then [] else old(renderJobs)
    {
      escaped, stopped := CloseEach();
      if escaped == Clean {
        renderJobs := [];
      }
    }

    /** The loop of that branch: close the jobs in list order until one
        `close` raises. */
    method CloseEach() returns (escaped: Raised, ghost stopped: nat)
      requires Valid()
      modifies set j | j in renderJobs
      ensures var model := CloseFrom(old(SnapsOf(renderJobs)), 0);
              escaped == model.raised && stopped == model.stopped
              && forall k :: 0 <= k < |renderJobs| ==> renderJobs[k].Snap() == model.jobs[k]
    {
      ghost var cur := SnapsOf(renderJobs);
      ghost var goal := CloseFrom(cur, 0);
      var i := 0;
      escaped := Clean;
      while i < |renderJobs| && escaped == Clean
        invariant i <= |renderJobs| && |cur| == |renderJobs|
        invariant forall k :: 0 <= k < |renderJobs| ==> renderJobs[k].Snap() == cur[k]
        invariant escaped == Clean ==> CloseFrom(cur, i) == goal
        invariant escaped != Clean ==> goal == Swept(cur, escaped, i)
        decreases |renderJobs| - i, if escaped == Clean then 1 else 0
      {
        escaped, cur := CloseAt(i, cur);
        if escaped == Clean {
          i := i + 1;
        }
      }
      stopped := i;
    }

    /** One turn of that loop, stated on the model: `cur` holds the jobs'
        states before it, the result their states after it. */
    method CloseAt(i: nat, ghost cur: seq<JobSnap>) returns (r: Raised, ghost cur': seq<JobSnap>)
      requires Valid() && i < |renderJobs| && |cur| == |renderJobs|
      requires forall k :: 0 <= k < |renderJobs| ==> renderJobs[k].Snap() == cur[k]
      modifies renderJobs[i]
      ensures |cur'| == |renderJobs| && forall k :: 0 <= k < |renderJobs| ==> renderJobs[k].Snap() == cur'[k]
      ensures if r != Clean then CloseFrom(cur, i) == Swept(cur', r, i)
              else CloseFrom(cur, i) == CloseFrom(cur', i + 1)
    {
      var job := renderJobs[i];
      r := job.Close();
      cur' := cur[i := job.Snap()];
      forall k | 0 <= k < |renderJobs| && k != i
        ensures renderJobs[k].Snap() == cur'[k]
      {
        assert renderJobs[k] != job;
      }
    }

    /** Every queue head is one of the manager's jobs. */
    lemma HeadsInJobs()
      ensures Heads() <= Jobs()
    {
      forall j | j in Heads()
        ensures j in Jobs()
      {
        var h :| h in renderQueue && renderQueue[h] != [] && renderQueue[h][0] == j;
        assert j in renderQueue[h];
      }
    }

    /** One run of `update`, the timer's callback, for the dictionary's
        iteration order `hosts`.  Unless asked to exit it starts the queue
        heads and then updates the list's incomplete jobs, re-arming the
        timer only when nothing escaped; when asked to exit it closes every
        job and does not re-arm. */
    method Tick(hosts: seq<string>) returns (escaped: Raised)
      requires Valid()
      requires forall h :: h in renderQueue <==> h in hosts
      requires forall a, b :: 0 <= a < b < |hosts| ==> hosts[a] != hosts[b]
      modifies this`renderQueue, this`renderJobs, this`ticking, Jobs()
      ensures Valid()
      ensures ticking == (!shouldExit && escaped == Clean)
      ensures old(shouldExit) ==>
                renderQueue == old(renderQueue)
                && escaped == CloseFrom(old(SnapsOf(renderJobs)), 0).raised
                && renderJobs == if escaped == Clean then [] else old(renderJobs)
      ensures !old(shouldExit) ==>
                renderJobs == old(renderJobs)
    {
      if shouldExit {
        ghost var stopped;
        escaped, stopped := CloseAll();
        ticking := false;
        return;
      }
      HeadsInJobs();
      ghost var mid;
      escaped, mid := Cycle(hosts);
      ticking := escaped == Clean;
    }

    /** The working branch of `update`: start the queue heads, then update
        the incomplete jobs of the list unless the first phase escaped.
        `mid` is the list's snapshots between the two phases: a job that
        heads a queue as its head was started, any other job as it was.
        When the start phase escapes, the jobs stay at `mid`. */
    method Cycle(hosts: seq<string>) returns (escaped: Raised, ghost mid: seq<JobSnap>)
      requires Valid()
      requires forall h :: h in renderQueue <==> h in hosts
      requires forall a, b :: 0 <= a < b < |hosts| ==> hosts[a] != hosts[b]
      modifies this`renderQueue, Jobs()
      ensures Valid() && renderJobs == old(renderJobs) && |mid| == |renderJobs|
      ensures var model := StartFrom(hosts, 0, old(renderQueue), old(HeadSnaps(renderQueue)));
              renderQueue == model.queue
              && (model.raised != Clean ==> escaped == model.raised)
              && (forall k :: 0 <= k < |renderJobs| && renderJobs[k] !in old(Heads()) ==>
                    mid[k] == old(renderJobs[k].Snap()))
              && (forall k, h ::
                    0 <= k < |renderJobs| && h in old(renderQueue) && old(renderQueue)[h] != []
                    && renderJobs[k] == old(renderQueue)[h][0]
                    ==> h in model.heads && mid[k] == model.heads[h])
      ensures StartFrom(hosts, 0, old(renderQueue), old(HeadSnaps(renderQueue))).raised == Clean ==>
                escaped == PollFrom(mid, 0).raised
                && forall k :: 0 <= k < |renderJobs| ==> renderJobs[k].Snap() == PollFrom(mid, 0).jobs[k]
      ensures StartFrom(hosts, 0, old(renderQueue), old(HeadSnaps(renderQueue))).raised != Clean ==>
                forall k :: 0 <= k < |renderJobs| ==> renderJobs[k].Snap() == mid[k]
    {
      HeadsInJobs();
      ghost var stopped;
      escaped, stopped := StartHeads(hosts);
      mid := SnapsOf(renderJobs);
      if escaped == Clean {
        escaped, stopped := PollJobs();
      }
    }

    /** `cleanlyRemoveJob`: delete the logs of a job that exited with
        status 0, close the job, then drop it from the list.  Its queue is
        left as it was; when closing raises, the logs are already gone and
        the job stays listed. */
    method CleanlyRemoveJob(id: nat) returns (escaped: Raised)
      requires Valid() && id < |renderJobs|
      modifies this`renderJobs, this`removedFiles, renderJobs[id]
      ensures Valid()
      ensures var job := old(renderJobs[id]);
              removedFiles == old(removedFiles) + RemovedLogs(old(job.errorCode), job.jobLogPath, job.logPath)
              && Step(job.Snap(), escaped) == JobModel.Close(old(job.Snap()))
      ensures renderJobs == if escaped == Clean then Without(old(renderJobs), id) else old(renderJobs)
    {
      var job := renderJobs[id];
      if job.errorCode == Some(0) {
        removedFiles := removedFiles + [job.jobLogPath, job.logPath];
      }
      escaped := job.Close();
      if escaped != Clean {
        return;
      }
      renderJobs := renderJobs[..id] + renderJobs[id + 1..];
    }

    /** `onJobRemove`: with a job selected, and either its frames copied or
        the warning answered `confirm`, remove it and clear the selection. */
    method OnJobRemove(confirm: bool) returns (escaped: Raised)
      requires Valid() && Selected()
      modifies this`renderJobs, this`removedFiles, this`selectedJobID, set j | j in renderJobs
      ensures Valid() && Selected()
      ensures var go := old(selectedJobID != -1 && (renderJobs[selectedJobID].copied || confirm));
              (!go ==> escaped == Clean && renderJobs == old(renderJobs) && removedFiles == old(removedFiles)
                       && selectedJobID == old(selectedJobID)
                       && forall k :: 0 <= k < |renderJobs| ==> renderJobs[k].Snap() == old(renderJobs[k].Snap()))
              && (go ==> var id := old(selectedJobID); var job := old(renderJobs[id]);
                   removedFiles == old(removedFiles) + RemovedLogs(old(job.errorCode), job.jobLogPath, job.logPath)
                   && Step(job.Snap(), escaped) == JobModel.Close(old(job.Snap()))
                   && renderJobs == (if escaped == Clean then Without(old(renderJobs), id) else old(renderJobs))
                   && selectedJobID == if escaped == Clean then -1 else id)
    {
      escaped := Clean;
      if selectedJobID != -1 {
        if !renderJobs[selectedJobID].copied && !confirm {
          return;
        }
        escaped := CleanlyRemoveJob(selectedJobID);
        if escaped != Clean {
          return;
        }
        selectedJobID := -1;
      }
    }

    /** `onJobRestart`: build a new job from the selected one's
        configuration, close the old one and put the new one in its place in
        the list.  The new job joins no queue, so no tick ever starts it. */
    method OnJobRestart(env: MayaJob.Env) returns (outcome: Restart)
      requires Valid() && Selected()
      modifies this`renderJobs, set j | j in renderJobs
      ensures Valid() && Selected() && |renderJobs| == |old(renderJobs)|
      ensures outcome == Unselected <==> old(selectedJobID) == -1
      ensures old(selectedJobID) != -1 ==>
                var id := old(selectedJobID); var job := old(renderJobs[id]);
                var init := MayaJob.Init(job.config, env);
                (init.Failure? ==> outcome == InitEscaped(init.error) && renderJobs == old(renderJobs)
                                   && job.Snap() == old(job.Snap()))
                && (init.Success? ==>
                      Step(job.Snap(), if outcome.CloseEscaped? then outcome.raised else Clean)
                        == JobModel.Close(old(job.Snap()))
                      && (outcome == Restarted || outcome.CloseEscaped?)
                      && (outcome.CloseEscaped? ==> outcome.raised != Clean && renderJobs == old(renderJobs))
                      && (outcome == Restarted ==>
                            var fresh_ := renderJobs[id];
                            renderJobs == old(renderJobs)[id := fresh_] && fresh(fresh_)
                            && fresh_.config == job.config && fresh_.Snap() == init.value && !fresh_.copied))
      ensures renderQueue == old(renderQueue) && selectedJobID == old(selectedJobID)
    {
      if selectedJobID == -1 {
        return Unselected;
      }
      var job := renderJobs[selectedJobID];
      var created := MayaJob.Job.Create(job.config, env);
      if created.Failure? {
        return InitEscaped(created.error);
      }
      var r := job.Close();
      if r != Clean {
        return CloseEscaped(r);
      }
      assert created.value !in renderJobs;
      Replace(selectedJobID, created.value);
      outcome := Restarted;
    }

    /** Put the job `job`, not yet listed, in the place of the `id`-th. */
    method Replace(id: nat, job: MayaJob.Job)
      requires Valid() && id < |renderJobs| && job !in renderJobs
      modifies this`renderJobs
      ensures Valid() && renderJobs == old(renderJobs)[id := job]
    {
      renderJobs := renderJobs[id := job];
      assert forall k :: 0 <= k < |renderJobs| && k != id ==> renderJobs[k] == old(renderJobs)[k];
    }

    /** `onJobPauseToggle`: resume the selected job when it is paused,
        pause it otherwise. */
    method OnJobPauseToggle()
      requires Valid() && Selected()
      modifies set j | j in renderJobs
      ensures forall k :: 0 <= k < |renderJobs| && k != selectedJobID ==>
                renderJobs[k].Snap() == old(renderJobs[k].Snap())
      ensures selectedJobID != -1 ==>
                var s := old(renderJobs[selectedJobID].Snap());
                renderJobs[selectedJobID].Snap() == if s.state == Paused then JobModel.Resume(s) else JobModel.Pause(s)
    {
      if selectedJobID != -1 {
        var job := renderJobs[selectedJobID];
        if job.IsPaused() {
          job.Resume();
        } else {
          job.Pause();
        }
      }
    }

    /** `onJobKill`: kill the selected job. */
    method OnJobKill()
      requires Valid() && Selected()
      modifies set j | j in renderJobs
      ensures forall k :: 0 <= k < |renderJobs| && k != selectedJobID ==>
                renderJobs[k].Snap() == old(renderJobs[k].Snap())
      ensures selectedJobID != -1 ==>
                renderJobs[selectedJobID].Snap() == JobModel.Kill(old(renderJobs[selectedJobID].Snap()))
    {
      if selectedJobID != -1 {
        renderJobs[selectedJobID].Kill();
      }
    }

    /** `verifyCopyJob` for the destination `dst` typed in the copy window,
        with `home` the user's home directory: for a completed selected job
        and a non-empty destination, run `scp` on the job's frames into the
        destination with `~` expanded, and mark the job copied.  A job that
        has not completed is never copied, whatever the answer to the
        question. */
    method VerifyCopyJob(dst: string, home: string) returns (copiedNow: bool)
      requires Valid() && Selected()
      modifies this`copyCommands, set j | j in renderJobs
      ensures copiedNow <==> old(selectedJobID != -1 && renderJobs[selectedJobID].Completed()) && dst != ""
      ensures forall k :: 0 <= k < |renderJobs| ==> renderJobs[k].Snap() == old(renderJobs[k].Snap())
      ensures forall k :: 0 <= k < |renderJobs| ==>
                renderJobs[k].copied == (old(renderJobs[k].copied) || (copiedNow && k == selectedJobID))
      ensures !copiedNow ==> copyCommands == old(copyCommands)
      ensures copiedNow ==>
                var job := renderJobs[selectedJobID];
                copyCommands == old(copyCommands)
                  + [ScpCommand(job.config.host,
                                CopyGlob(job.config.outputPath, job.outputPrefix, job.config.start, job.config.end),
                                ExpandUser(dst, home), CopyLimit)]
    {
      if selectedJobID == -1 {
        return false;
      }
      var job := renderJobs[selectedJobID];
      if !job.Completed() {
        return false;
      }
      if |dst| == 0 {
        return false;
      }
      var src := CopyGlob(job.config.outputPath, job.outputPrefix, job.config.start, job.config.end);
      copyCommands := copyCommands + [ScpCommand(job.config.host, src, ExpandUser(dst, home), CopyLimit)];
      job.copied := true;
      copiedNow := true;
    }
  }
}
