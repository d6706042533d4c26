/** internal/api/library_import_v1.go: the manager and its jobs as objects that requests and the job's goroutine
    share, and the copies handed to callers. */
module ImportManager {
  import opened Wrappers
  import opened ImportJobs

  class ImportResult {
    var items: seq<ItemStatus>
    var summary: Counters

    constructor (items: seq<ItemStatus>, summary: Counters)
      ensures this.items == items && this.summary == summary
    {
      this.items, this.summary := items, summary;
    }

    function Value(): JobResult
      reads this
    {
      JobResult(items, summary)
    }
  }

  class ImportJob {
    const id: string
    const scanId: string
    const total: nat
    var status: JobStatus
    var counters: Counters
    var currentTitle: string
    var currentPath: string
    var result: ImportResult?

    constructor (id: string, scanId: string, total: nat)
      ensures this.id == id && result == null && Value() == NewJob(id, scanId, total)
    {
      this.id, this.scanId, this.total := id, scanId, total;
      status, counters, currentTitle, currentPath, result := Pending, NONE, "", "", null;
    }

    function Value(): Job
      reads this, result
    {
      Job(id, scanId, status, counters, total, currentTitle, currentPath,
          if result == null then None else Some(result.Value()))
    }

    /** The change `run` makes after an import. */
    method Count(item: ItemStatus)
      modifies this
      ensures Value() == CountItem(item)(old(Value())) && result == old(result)
    {
      match item {
        case ItemImported => counters := counters.(imported := counters.imported + 1);
        case ItemDuplicate => counters := counters.(duplicates := counters.duplicates + 1);
        case ItemFailed => counters := counters.(failed := counters.failed + 1);
      }
    }

    /** The change `run` makes at its end. */
    method Complete(items: seq<ItemStatus>, summary: Counters)
      modifies this
      ensures fresh(result)
      ensures Value() == old(Value()).(status := Completed, currentTitle := "", currentPath := "",
                                       result := Some(JobResult(items, summary)))
    {
      status, currentTitle, currentPath := Completed, "", "";
      result := new ImportResult(items, summary);
    }

    /** cloneLibraryImportJob: the copy shares no object with the original. */
    method Clone() returns (copy: ImportJob)
      ensures fresh(copy) && (copy.result != null ==> fresh(copy.result)) && copy.Value() == Value()
    {
      copy := new ImportJob(id, scanId, total);
      copy.status, copy.counters, copy.currentTitle, copy.currentPath := status, counters, currentTitle, currentPath;
      if result != null {
        copy.result := new ImportResult(result.items, result.summary);
      }
    }
  }

  class JobManager {
    var jobs: map<string, ImportJob>
    var order: seq<string>
    var activeId: string
    ghost var Repr: set<object>

    ghost predicate Valid()
      reads this, Repr
    {
      && this in Repr
      && forall id :: id in jobs ==>
           jobs[id] in Repr && jobs[id].id == id && (jobs[id].result != null ==> jobs[id].result in Repr)
    }

    ghost function State(): Manager
      requires Valid()
      reads this, Repr
    {
      Manager(map id | id in jobs :: jobs[id].Value(), order, activeId)
    }

    constructor ()
      ensures Valid() && fresh(Repr) && State() == Manager(map[], [], "")
    {
      jobs, order, activeId := map[], [], "";
      Repr := {this};
    }

    /** One turn of pruneLocked. */
    method DropOldestJob()
      requires Valid() && order != []
      modifies this
      ensures Valid() && Repr == old(Repr) && State() == DropOldest(old(State()))
    {
      var id := order[0];
      order := order[1..];
      if id != activeId {
        jobs := jobs - {id};
      }
    }

    /** pruneLocked */
    method PruneJobs()
      requires Valid()
      modifies this
      ensures Valid() && Repr == old(Repr) && State() == Prune(old(State()))
    {
      hide DropOldest;
      while |order| > MAX_JOBS
        invariant Valid() && Repr == old(Repr)
        invariant Prune(State()) == Prune(old(State()))
        decreases |order|
      {
        hide Prune;
        PruneUnfolds(State());
        ghost var before := State();
        DropOldestJob();
        assert |State().order| < |before.order| by { DropShortens(before); }
      }
    }

    /** start, from taking the lock. The caller gets a copy of the new job, or the identifier of the running one. */
    method StartJob(id: string, scanId: string, total: nat) returns (started: ImportJob?, running: string)
      requires Valid()
      modifies Repr
      ensures Valid() && fresh(Repr - old(Repr))
      ensures var (m, answer) := Start(old(State()), id, scanId, total);
              && State() == m
              && (started != null <==> answer.Started?)
              && (started != null ==>
                    started.Value() == answer.job && fresh(started) && started !in Repr && started.result == null)
              && (answer.AlreadyRunning? ==> running == answer.jobId)
    {
      started, running := null, "";
      if total == 0 {
        return;
      }
      if activeId != "" {
        if activeId in jobs {
          running := jobs[activeId].id;
        }
        return;
      }
      hide Prune;
      var job := EnterJob(id, scanId, total);
      PruneJobs();
      started := job.Clone();
    }

    /** The new job takes its place at the end of the order. */
    method EnterJob(id: string, scanId: string, total: nat) returns (job: ImportJob)
      requires Valid()
      modifies this
      ensures Valid() && fresh(job) && Repr == old(Repr) + {job}
      ensures job.result == null && job.Value() == NewJob(id, scanId, total)
      ensures State() == Manager(old(State()).jobs[id := NewJob(id, scanId, total)], old(State()).order + [id], id)
    {
      job := new ImportJob(id, scanId, total);
      jobs := jobs[id := job];
      order := order + [id];
      activeId := id;
      Repr := Repr + {job};
    }

    /** get: a copy of the job, if it is retained. */
    method Get(id: string) returns (snapshot: ImportJob?)
      requires Valid()
      ensures Valid() && (snapshot != null <==> id in State().jobs)
      ensures snapshot != null ==>
                && snapshot.Value() == State().jobs[id] && fresh(snapshot)
                && (snapshot.result != null ==> fresh(snapshot.result))
    {
      snapshot := null;
      if id in jobs {
        snapshot := jobs[id].Clone();
      }
    }

    /** Only the job with this identifier has changed since. */
    twostate lemma {:induction false} OtherJobsUnchanged(id: string)
      requires old(Valid()) && Valid() && jobs == old(jobs) && id in jobs
      requires forall o :: o in old(Repr) && o != this && o != jobs[id] ==> unchanged(o)
      ensures State().jobs == old(State()).jobs[id := jobs[id].Value()]
    {
      forall x | x in jobs && x != id
        ensures jobs[x].Value() == old(jobs[x].Value())
      {
        assert jobs[x] != jobs[id];
        assert unchanged(jobs[x]);
      }
    }

    /** The goroutine's first section. */
    method MarkJobImporting(id: string)
      requires Valid()
      modifies Repr
      ensures Valid() && Repr == old(Repr) && State() == Update(old(State()), id, MarkImporting)
    {
      if id in jobs {
        jobs[id].status := Importing;
        OtherJobsUnchanged(id);
      }
    }

    method ShowJobCandidate(id: string, c: Candidate)
      requires Valid()
      modifies Repr
      ensures Valid() && Repr == old(Repr) && State() == Update(old(State()), id, ShowCandidate(c))
    {
      if id in jobs {
        jobs[id].currentTitle, jobs[id].currentPath := c.title, c.path;
        OtherJobsUnchanged(id);
      }
    }

    method CountJobItem(id: string, item: ItemStatus)
      requires Valid()
      modifies Repr
      ensures Valid() && Repr == old(Repr) && State() == Update(old(State()), id, CountItem(item))
    {
      if id in jobs {
        jobs[id].Count(item);
        OtherJobsUnchanged(id);
      }
    }

    /** The last section of `run`. */
    method FinishJob(id: string, items: seq<ItemStatus>)
      requires Valid()
      modifies Repr
      ensures Valid() && fresh(Repr - old(Repr)) && State() == Finish(old(State()), id, items)
    {
      var summary := CountItems(items);
      if id in jobs {
        jobs[id].Complete(items, summary);
        Repr := Repr + {jobs[id].result};
        activeId := "";
        OtherJobsUnchanged(id);
      }
    }

    /** run, when no other request comes between its sections. */
    method Run(id: string, candidates: seq<Candidate>, reports: seq<EngineReport>)
      requires Valid() && |reports| == |candidates|
      modifies Repr
      ensures Valid() && fresh(Repr - old(Repr))
      ensures State() == RunAlone(old(State()), Runner(id, candidates, false, false, []), reports)
    {
      ghost var goal := RunAlone(State(), Runner(id, candidates, false, false, []), reports);
      MarkJobImporting(id);
      var items: seq<ItemStatus> := [];
      for k := 0 to |candidates|
        invariant Valid() && fresh(Repr - old(Repr)) && |items| == k
        invariant goal == RunAlone(State(), Runner(id, candidates, true, false, items), reports)
      {
        ShowJobCandidate(id, candidates[k]);
        assert goal == RunAlone(State(), Runner(id, candidates, true, true, items), reports);
        var item := Classify(reports[k]);
        CountJobItem(id, item);
        items := items + [item];
      }
      FinishJob(id, items);
    }

    /** One section of the goroutine with the given local state, and that state afterwards unless it returned. */
    method TakeTurn(r: Runner, report: EngineReport) returns (next: Option<Runner>)
      requires Valid()
      modifies Repr
      ensures Valid() && fresh(Repr - old(Repr))
      ensures (State(), next) == RunnerStep(old(State()), r, report)
    {
      if !r.begun {
        MarkJobImporting(r.jobId);
        next := Some(r.(begun := true));
      } else if |r.items| >= |r.candidates| {
        FinishJob(r.jobId, r.items);
        next := None;
      } else if !r.showing {
        ShowJobCandidate(r.jobId, r.candidates[|r.items|]);
        next := Some(r.(showing := true));
      } else {
        var item := Classify(report);
        CountJobItem(r.jobId, item);
        next := Some(r.(showing := false, items := r.items + [item]));
      }
    }

    /** One request or one section of a goroutine. */
    method HandleEvent(runners: seq<Runner>, e: Event) returns (after: seq<Runner>)
      requires Valid()
      modifies Repr
      ensures Valid() && fresh(Repr - old(Repr))
      ensures System(State(), after) == Step(System(old(State()), runners), e)
    {
      hide Start, RunnerStep;
      after := runners;
      match e {
        case StartEvent(id, scanId, candidates) =>
          var started, running := StartJob(id, scanId, |candidates|);
          if started != null {
            after := runners + [Runner(id, candidates, false, false, [])];
          }
        case RunnerEvent(k, report) =>
          if k < |runners| {
            var next := TakeTurn(runners[k], report);
            after := if next.Some? then runners[k := next.value] else runners[..k] + runners[k + 1..];
          }
      }
    }
  }

  /** summarizeLibraryImportItems */
  method CountItems(items: seq<ItemStatus>) returns (c: Counters)
    ensures c == Summarize(items)
  {
    c := NONE;
    for k := 0 to |items|
      invariant c == Summarize(items[..k])
    {
      match items[k] {
        case ItemImported => c := c.(imported := c.imported + 1);
        case ItemDuplicate => c := c.(duplicates := c.duplicates + 1);
        case ItemFailed => c := c.(failed := c.failed + 1);
      }
      SummarizeAppend(items[..k], items[k]);
      assert items[..k + 1] == items[..k] + [items[k]];
    }
    assert items[..|items|] == items;
  }

  /** Any interleaving of requests and goroutines, with one job asked for after the first `at` events: the copy
      still holds, at the end, what the job was at that moment. */
  method Serve(m: JobManager, events: seq<Event>, at: nat, id: string)
      returns (runners: seq<Runner>, snapshot: ImportJob?)
    requires m.Valid() && m.State() == Manager(map[], [], "") && at <= |events|
    modifies m.Repr
    ensures m.Valid() && System(m.State(), runners) == ImportJobs.Run(events, |events|)
    ensures snapshot != null <==> id in ImportJobs.Run(events, at).m.jobs
    ensures snapshot != null ==> snapshot.Value() == ImportJobs.Run(events, at).m.jobs[id]
  {
    hide Step;
    runners, snapshot := [], null;
    for k := 0 to |events|
      invariant m.Valid() && fresh(m.Repr - old(m.Repr))
      invariant System(m.State(), runners) == ImportJobs.Run(events, k)
      invariant k <= at ==> snapshot == null
      invariant k > at ==> (snapshot != null <==> id in ImportJobs.Run(events, at).m.jobs)
      invariant k > at && snapshot != null ==> snapshot.Value() == ImportJobs.Run(events, at).m.jobs[id]
      invariant snapshot != null ==> snapshot !in m.Repr && (snapshot.result != null ==> snapshot.result !in m.Repr)
    {
      if k == at {
        snapshot := m.Get(id);
      }
      runners := m.HandleEvent(runners, events[k]);
    }
    if at == |events| {
      snapshot := m.Get(id);
    }
  }

  /** A copy taken before a job runs is untouched by the rest of the run, and the finished job's counters are
      its summary. */
  method PollAroundRun(m: JobManager, id: string, scanId: string, candidates: seq<Candidate>,
                       reports: seq<EngineReport>)
    returns (before: ImportJob?, after: ImportJob?)
    requires m.Valid() && |reports| == |candidates| > 0
    requires Listed(m.State()) && OthersSettled(m.State()) && m.activeId == "" && id != "" && |m.order| <= MAX_JOBS
              && id !in Staying(m.order)
    modifies m.Repr
    ensures before != null && before.Value() == NewJob(id, scanId, |candidates|)
    ensures after != null && Settled(after.Value()) && Answers(after.Value().result.value.items, reports)
    ensures m.Valid() && m.activeId == ""
  {
    before, after := null, null;
    ghost var s := m.State();
    EnteringKeepsExact(s, NewJob(id, scanId, |candidates|));
    hide Prune, Settled, Listed, OthersSettled;
    var running: string;
    before, running := m.StartJob(id, scanId, |candidates|);
    ghost var r := Runner(id, candidates, false, false, []);
    RunAloneCompletes(m.State(), r, reports);
    hide InProgress, RunAlone;
    m.Run(id, candidates, reports);
    after := m.Get(id);
  }
}
