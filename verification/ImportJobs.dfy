/** internal/api/library_import_v1.go: the import job manager as a state machine. Requests and the job's own
    goroutine take turns under one lock; each atomic section is one step. */
module ImportJobs {
  import opened Wrappers

  datatype JobStatus = Pending | Importing | Completed

  datatype ItemStatus = ItemImported | ItemDuplicate | ItemFailed

  datatype Counters = Counters(imported: nat, failed: nat, duplicates: nat, skipped: nat)

  const NONE := Counters(0, 0, 0, 0)

  function Total(c: Counters): nat {
    c.imported + c.failed + c.duplicates + c.skipped
  }

  datatype JobResult = JobResult(items: seq<ItemStatus>, summary: Counters)

  datatype Job = Job(id: string, scanId: string, status: JobStatus, counters: Counters, total: nat,
                     currentTitle: string, currentPath: string, result: Option<JobResult>)

  datatype Manager = Manager(jobs: map<string, Job>, order: seq<string>, activeId: string)

  datatype Candidate = Candidate(title: string, path: string)

  /** What the import engine reports for one candidate. */
  datatype EngineReport = EngineError | NoResult | Report(duplicates: int, inserted: int)

  /** The local state of one `run` goroutine. */
  datatype Runner = Runner(
    jobId: string, candidates: seq<Candidate>, begun: bool, showing: bool, items: seq<ItemStatus>)

  /** The manager and the goroutines that have not returned. */
  datatype System = System(m: Manager, runners: seq<Runner>)

  const MAX_JOBS := 8

  // ---------- atomic sections ----------

  /** One turn of pruneLocked. */
  function DropOldest(m: Manager): Manager
    requires m.order != []
  {
    var id, rest := m.order[0], m.order[1..];
    if id == m.activeId then m.(order := rest) else m.(order := rest, jobs := m.jobs - {id})
  }

  /** pruneLocked: drops the oldest entries; the active job would only be dropped from the order. */
  function Prune(m: Manager): Manager
    decreases |m.order|
  {
    if |m.order| <= MAX_JOBS then m else Prune(DropOldest(m))
  }

  function NewJob(id: string, scanId: string, total: nat): Job {
    Job(id, scanId, Pending, NONE, total, "", "", None)
  }

  datatype StartAnswer = Started(job: Job) | AlreadyRunning(jobId: string) | NothingSelected

  /** The part of `start` under the lock. `id` is the new job's time-stamp identifier. */
  function Start(m: Manager, id: string, scanId: string, total: nat): (Manager, StartAnswer) {
    if total == 0 then (m, NothingSelected)
    else if m.activeId != "" then (m, AlreadyRunning(if m.activeId in m.jobs then m.activeId else ""))
    else
      var job := NewJob(id, scanId, total);
      (Prune(Manager(m.jobs[id := job], m.order + [id], id)), Started(job))
  }

  /** update: applies a change to a job that is still retained. */
  function Update(m: Manager, id: string, change: Job -> Job): Manager {
    if id in m.jobs then m.(jobs := m.jobs[id := change(m.jobs[id])]) else m
  }

  function MarkImporting(j: Job): Job {
    j.(status := Importing)
  }

  function ShowCandidate(c: Candidate): Job -> Job {
    (j: Job) => j.(currentTitle := c.title, currentPath := c.path)
  }

  function Counted(c: Counters, item: ItemStatus): Counters {
    match item
    case ItemImported => c.(imported := c.imported + 1)
    case ItemDuplicate => c.(duplicates := c.duplicates + 1)
    case ItemFailed => c.(failed := c.failed + 1)
  }

  function CountItem(item: ItemStatus): Job -> Job {
    (j: Job) => j.(counters := Counted(j.counters, item))
  }

  /** The branches of `run` on the engine's answer. */
  function Classify(r: EngineReport): ItemStatus {
    match r
    case EngineError => ItemFailed
    case NoResult => ItemImported
    case Report(duplicates, inserted) => if duplicates > 0 && inserted == 0 then ItemDuplicate else ItemImported
  }

  /** summarizeLibraryImportItems */
  function Summarize(items: seq<ItemStatus>): Counters {
    if items == [] then NONE else Counted(Summarize(items[..|items| - 1]), items[|items| - 1])
  }

  /** The last section of `run`. If the job were gone the manager would stay busy. */
  function Finish(m: Manager, id: string, items: seq<ItemStatus>): Manager {
    if id !in m.jobs then m
    else
      Manager(m.jobs[id := m.jobs[id].(status := Completed, currentTitle := "", currentPath := "",
                                       result := Some(JobResult(items, Summarize(items))))],
              m.order, "")
  }

  // ---------- steps of the system ----------

  datatype Event =
    | StartEvent(id: string, scanId: string, candidates: seq<Candidate>)
    | RunnerEvent(runner: nat, report: EngineReport)

  /** The next atomic section of a goroutine, and the goroutine after it unless it has returned. */
  function RunnerStep(m: Manager, r: Runner, report: EngineReport): (Manager, Option<Runner>) {
    if !r.begun then (Update(m, r.jobId, MarkImporting), Some(r.(begun := true)))
    else if |r.items| >= |r.candidates| then (Finish(m, r.jobId, r.items), None)
    else if !r.showing then (Update(m, r.jobId, ShowCandidate(r.candidates[|r.items|])), Some(r.(showing := true)))
    else
      var item := Classify(report);
      (Update(m, r.jobId, CountItem(item)), Some(r.(showing := false, items := r.items + [item])))
  }

  function Step(s: System, e: Event): System {
    match e
    case StartEvent(id, scanId, candidates) =>
      var (m, answer) := Start(s.m, id, scanId, |candidates|);
      System(m, if answer.Started? then s.runners + [Runner(id, candidates, false, false, [])] else s.runners)
    case RunnerEvent(k, report) =>
      if k >= |s.runners| then s
      else
        var (m, next) := RunnerStep(s.m, s.runners[k], report);
        System(m, if next.Some? then s.runners[k := next.value] else s.runners[..k] + s.runners[k + 1..])
  }

  function Run(events: seq<Event>, k: nat): System
    requires k <= |events|
  {
    if k == 0 then System(Manager(map[], [], ""), []) else Step(Run(events, k - 1), events[k - 1])
  }

  // ---------- the invariant ----------

  predicate NoRepeats(order: seq<string>) {
    forall i, j :: 0 <= i < j < |order| ==> order[i] != order[j]
  }

  /** The order lists exactly the retained jobs, each once. */
  ghost predicate Listed(m: Manager) {
    NoRepeats(m.order) && forall id :: id in m.order <==> id in m.jobs
  }

  /** A finished job's counters are its result's summary, and account for every candidate. */
  predicate Settled(j: Job) {
    && j.status == Completed && j.result.Some?
    && j.counters == j.result.value.summary == Summarize(j.result.value.items)
    && Total(j.counters) == j.total && j.currentTitle == "" && j.currentPath == ""
  }

  /** The candidate an unfinished job shows: the one being imported, or the last one imported. */
  predicate ShowsCandidate(j: Job, r: Runner) {
    if r.showing then |r.items| < |r.candidates| && ShowsTitleAndPath(j, r.candidates[|r.items|])
    else if 0 < |r.items| <= |r.candidates| then ShowsTitleAndPath(j, r.candidates[|r.items| - 1])
    else j.currentTitle == "" && j.currentPath == ""
  }

  predicate ShowsTitleAndPath(j: Job, c: Candidate) {
    j.currentTitle == c.title && j.currentPath == c.path
  }

  /** An unfinished job's counters account for exactly the candidates its goroutine has processed. */
  predicate InProgress(j: Job, r: Runner) {
    && j.id == r.jobId && j.status == (if r.begun then Importing else Pending)
    && j.total == |r.candidates| > 0
    && |r.items| <= |r.candidates| && j.counters == Summarize(r.items)
    && (!r.begun ==> r.items == [] && !r.showing)
    && (r.showing ==> |r.items| < |r.candidates|) && ShowsCandidate(j, r) && j.result.None?
  }

  ghost predicate OthersSettled(m: Manager) {
    "" !in m.jobs && forall id :: id in m.jobs && id != m.activeId ==> Settled(m.jobs[id])
  }

  predicate ActiveIsLast(m: Manager) {
    m.order != [] && m.order[|m.order| - 1] == m.activeId && m.activeId in m.jobs
  }

  predicate OneGoroutine(s: System) {
    if s.m.activeId == "" then s.runners == []
    else
      && ActiveIsLast(s.m) && |s.runners| == 1 && s.runners[0].jobId == s.m.activeId
      && InProgress(s.m.jobs[s.m.activeId], s.runners[0])
  }

  /** At most one job is unfinished: the active one, which is last in the order and has the only goroutine. */
  ghost predicate Sound(s: System) {
    Listed(s.m) && |s.m.order| <= MAX_JOBS && OthersSettled(s.m) && OneGoroutine(s)
  }

  lemma {:induction false} DroppingOldestKeepsListed(m: Manager)
    requires Listed(m) && |m.order| > 1 && m.order[|m.order| - 1] == m.activeId
    ensures m.order[0] != m.activeId
    ensures Listed(WithoutOldest(m))
  {
    var rest := WithoutOldest(m);
    assert m.order[0] != m.order[|m.order| - 1];
    assert m.order == [m.order[0]] + rest.order;
    forall x
      ensures x in rest.order <==> x in rest.jobs
    {
      assert x in m.order <==> x in m.jobs;
      assert x in m.order <==> x == m.order[0] || x in rest.order;
    }
  }

  /** Every job of `p` is one of `m`, unchanged. */
  predicate KeptUnchanged(m: Manager, p: Manager) {
    forall id :: id in p.jobs ==> id in m.jobs && p.jobs[id] == m.jobs[id]
  }

  lemma {:induction false} DropShortens(m: Manager)
    requires m.order != []
    ensures |DropOldest(m).order| < |m.order|
  {
  }

  lemma {:induction false} PruneUnfolds(m: Manager)
    requires |m.order| > MAX_JOBS
    ensures Prune(m) == Prune(DropOldest(m))
  {
  }

  function WithoutOldest(m: Manager): Manager
    requires m.order != []
  {
    Manager(m.jobs - {m.order[0]}, m.order[1..], m.activeId)
  }

  lemma {:induction false} WithoutOldestKeeps(m: Manager)
    requires ActiveIsLast(m) && |m.order| > 1 && m.order[0] != m.activeId
    ensures DropOldest(m) == WithoutOldest(m) && ActiveIsLast(WithoutOldest(m)) && KeptUnchanged(m, WithoutOldest(m))
  {
  }

  lemma {:induction false} PruneDropsOldest(m: Manager)
    requires Listed(m) && ActiveIsLast(m) && |m.order| > MAX_JOBS
    ensures Prune(m) == Prune(WithoutOldest(m))
    ensures Listed(WithoutOldest(m)) && ActiveIsLast(WithoutOldest(m)) && KeptUnchanged(m, WithoutOldest(m))
  {
    hide Prune, Listed, DropOldest, KeptUnchanged;
    PruneUnfolds(m);
    DroppingOldestKeepsListed(m);
    WithoutOldestKeeps(m);
  }

  lemma {:induction false} PruneStops(m: Manager)
    requires |m.order| <= MAX_JOBS
    ensures Prune(m) == m && KeptUnchanged(m, m)
  {
  }

  lemma {:induction false} KeptTransitive(m: Manager, rest: Manager, p: Manager)
    requires KeptUnchanged(m, rest) && KeptUnchanged(rest, p)
    ensures KeptUnchanged(m, p)
  {
  }

  function Newest(order: seq<string>): seq<string> {
    if |order| > 8 then order[|order| - 8..] else order
  }

  lemma {:induction false} NewestOfRest(order: seq<string>)
    requires |order| > MAX_JOBS
    ensures Newest(order[1..]) == Newest(order)
  {
  }

  /** Pruning an exact order of any length keeps the newest eight jobs, among them the active one. */
  lemma {:induction false} PruneKeepsNewest(m: Manager)
    requires Listed(m) && ActiveIsLast(m)
    ensures var p := Prune(m);
            Listed(p) && ActiveIsLast(p) && p.activeId == m.activeId && p.order == Newest(m.order)
                && KeptUnchanged(m, p)
    decreases |m.order|
  {
    hide Prune, Listed, ActiveIsLast, KeptUnchanged;
    if |m.order| > MAX_JOBS {
      PruneDropsOldest(m);
      var rest := WithoutOldest(m);
      PruneKeepsNewest(rest);
      KeptTransitive(m, rest, Prune(rest));
      NewestOfRest(m.order);
    } else {
      PruneStops(m);
    }
  }

  lemma {:induction false} AppendKeepsListed(m: Manager, id: string, job: Job)
    requires Listed(m) && id !in m.jobs
    ensures Listed(Manager(m.jobs[id := job], m.order + [id], id))
  {
    assert id !in m.order;
    var grown := Manager(m.jobs[id := job], m.order + [id], id);
    forall x
      ensures x in grown.order <==> x in grown.jobs
    {
      assert x in m.order <==> x in m.jobs;
    }
  }

  /** The part of the order that a new job leaves: all of it, or all but the oldest when it is full. */
  function Staying(order: seq<string>): seq<string> {
    if |order| >= MAX_JOBS then order[1..] else order
  }

  /** The identifier of the oldest job may come back when the history is full: its old place is pruned while
      the new job, being active, is kept. */
  lemma {:induction false} OldestComesBack(m: Manager, job: Job)
    requires Listed(m) && |m.order| == MAX_JOBS && job.id == m.order[0]
    ensures var p := Prune(Manager(m.jobs[job.id := job], m.order + [job.id], job.id));
            && p == Manager(m.jobs[job.id := job], m.order[1..] + [job.id], job.id)
            && Listed(p) && ActiveIsLast(p)
  {
    var grown := Manager(m.jobs[job.id := job], m.order + [job.id], job.id);
    var rest := Manager(grown.jobs, m.order[1..] + [job.id], job.id);
    assert grown.order[0] == job.id && grown.order[1..] == rest.order;
    assert Prune(rest) == rest;
    assert m.order == [job.id] + m.order[1..];
    hide Prune;
    forall x
      ensures x in rest.order <==> x in rest.jobs
    {
      assert x in m.order <==> x in m.jobs;
      assert x in m.order <==> x == job.id || x in m.order[1..];
    }
  }

  lemma {:induction false} OldestOrStaying(order: seq<string>, id: string)
    requires id in order
    ensures id in Staying(order) || (|order| >= MAX_JOBS && order[0] == id)
  {
    assert order == [order[0]] + order[1..];
  }

  /** Entering a new job and pruning: the manager stays exact and every other job settled. */
  lemma {:induction false} EnteringKeepsExact(m: Manager, job: Job)
    requires Listed(m) && |m.order| <= MAX_JOBS && OthersSettled(m) && m.activeId == "" && job.id != ""
    requires job.id !in Staying(m.order)
    ensures var p := Prune(Manager(m.jobs[job.id := job], m.order + [job.id], job.id));
            Listed(p) && |p.order| <= MAX_JOBS && OthersSettled(p) && ActiveIsLast(p) && p.activeId == job.id
                && p.jobs[job.id] == job
  {
    hide Prune, NoRepeats, Settled;
    if job.id in m.jobs {
      OldestOrStaying(m.order, job.id);
      OldestComesBack(m, job);
    } else {
      AppendKeepsListed(m, job.id, job);
      hide Listed;
      PruneKeepsNewest(Manager(m.jobs[job.id := job], m.order + [job.id], job.id));
    }
  }

  lemma {:induction false} StartKeepsSound(s: System, id: string, scanId: string, candidates: seq<Candidate>)
    requires Sound(s) && id != "" && id !in Staying(s.m.order)
    ensures Sound(Step(s, StartEvent(id, scanId, candidates)))
  {
    hide Prune, Settled, Listed, OthersSettled;
    if |candidates| > 0 && s.m.activeId == "" {
      var job := NewJob(id, scanId, |candidates|);
      EnteringKeepsExact(s.m, job);
      assert InProgress(job, Runner(id, candidates, false, false, []));
      hide InProgress;
    }
  }

  predicate OnlyThisJobChanged(m: Manager, m': Manager, id: string) {
    && m'.order == m.order && m'.jobs.Keys == m.jobs.Keys
    && forall x :: x in m.jobs && x != id ==> m'.jobs[x] == m.jobs[x]
  }

  /** The goroutine's own sections: each keeps the counters equal to what has been processed; the last one
      settles the job and frees the manager. */
  lemma {:induction false} RunnerStepIsSound(m: Manager, r: Runner, report: EngineReport)
    requires r.jobId in m.jobs && InProgress(m.jobs[r.jobId], r)
    ensures var (m', next) := RunnerStep(m, r, report);
            && OnlyThisJobChanged(m, m', r.jobId)
            && (next.Some? ==>
                  m'.activeId == m.activeId && next.value.jobId == r.jobId && InProgress(m'.jobs[r.jobId], next.value))
            && (next.None? ==> m'.activeId == "" && Settled(m'.jobs[r.jobId]))
  {
    hide Summarize, Counted, Total;
    if !r.begun {
    } else if |r.items| >= |r.candidates| {
      SummarizeTotal(r.items);
    } else if r.showing {
      var item := Classify(report);
      hide Classify;
      assert Summarize(r.items + [item]) == Counted(Summarize(r.items), item) by { SummarizeAppend(r.items, item); }
    }
  }

  lemma {:induction false} SummarizeAppend(items: seq<ItemStatus>, item: ItemStatus)
    ensures Summarize(items + [item]) == Counted(Summarize(items), item)
  {
    assert (items + [item])[..|items|] == items;
  }

  lemma {:induction false} SummarizeTotal(items: seq<ItemStatus>)
    ensures Total(Summarize(items)) == |items|
  {
    if items != [] {
      SummarizeTotal(items[..|items| - 1]);
    }
  }

  /** The counters are the numbers of candidates with each answer. */
  lemma {:induction false} SummarizeCounts(items: seq<ItemStatus>)
    ensures Summarize(items) == Counters(multiset(items)[ItemImported], multiset(items)[ItemFailed],
                                         multiset(items)[ItemDuplicate], 0)
  {
    if items != [] {
      var front, last := items[..|items| - 1], items[|items| - 1];
      SummarizeCounts(front);
      assert items == front + [last];
    }
  }

  lemma {:induction false} RunnerKeepsSound(s: System, k: nat, report: EngineReport)
    requires Sound(s)
    ensures Sound(Step(s, RunnerEvent(k, report)))
  {
    hide RunnerStep, InProgress, Settled, NoRepeats;
    if k < |s.runners| {
      assert k == 0;
      RunnerStepIsSound(s.m, s.runners[0], report);
      var (m, next) := RunnerStep(s.m, s.runners[0], report);
      assert Listed(m) by {
        forall x
          ensures x in m.order <==> x in m.jobs
        {
          assert x in s.m.order <==> x in s.m.jobs;
        }
      }
      hide Listed;
    }
  }

  /** The identifiers of new jobs, time stamps in nanoseconds, differ from those of the jobs that stay. */
  ghost predicate FreshIds(events: seq<Event>) {
    forall k :: 0 <= k < |events| && events[k].StartEvent? ==>
      events[k].id != "" && events[k].id !in Staying(Run(events, k).m.order)
  }

  /** The invariant holds in every state the requests and goroutines can reach, in any interleaving. */
  lemma {:induction false} ReachableIsSound(events: seq<Event>, k: nat)
    requires k <= |events| && FreshIds(events)
    ensures Sound(Run(events, k))
  {
    hide Step, Sound;
    if k == 0 {
      assert Sound(System(Manager(map[], [], ""), [])) by { InitiallySound(); }
    } else {
      ReachableIsSound(events, k - 1);
      var s, e := Run(events, k - 1), events[k - 1];
      match e
      case StartEvent(id, scanId, candidates) => StartKeepsSound(s, id, scanId, candidates);
      case RunnerEvent(r, report) => RunnerKeepsSound(s, r, report);
    }
  }

  lemma {:induction false} InitiallySound()
    ensures Sound(System(Manager(map[], [], ""), []))
  {
  }

  /** At most one job is unfinished, it is last in the order, and the counters of every other job are its
      result's summary and account for all its candidates. */
  ghost predicate JobsInOrder(m: Manager) {
    && |m.order| <= 8 && NoRepeats(m.order)
    && (forall id :: id in m.order <==> id in m.jobs)
    && (forall id :: id in m.jobs && m.jobs[id].status != Completed ==>
          id == m.activeId && id == m.order[|m.order| - 1])
    && (forall id :: id in m.jobs && m.jobs[id].status == Completed ==>
          m.jobs[id].result.Some? && m.jobs[id].counters == m.jobs[id].result.value.summary
          && Total(m.jobs[id].counters) == m.jobs[id].total)
  }

  lemma {:induction false} SoundMeansInOrder(s: System)
    requires Sound(s)
    ensures JobsInOrder(s.m)
  {
    hide NoRepeats, Summarize, Total;
  }

  /** What this means for the jobs: at most one is unfinished, it is last in the order, and no pruning or
      finished job touches it. */
  lemma {:induction false} OneUnfinishedJob(events: seq<Event>, k: nat)
    requires k <= |events| && FreshIds(events)
    ensures JobsInOrder(Run(events, k).m)
  {
    ReachableIsSound(events, k);
    hide Run, Sound, JobsInOrder;
    SoundMeansInOrder(Run(events, k));
  }

  /** Starting keeps the order free of repeats exactly for an identifier that is none of those that stay: with
      fewer than eight jobs, of all retained ones; with a full history, of all but the oldest. */
  lemma {:induction false} RepeatedIdBreaksOrder(s: System, id: string, scanId: string, candidates: seq<Candidate>)
    requires Sound(s) && s.m.activeId == "" && id != "" && candidates != []
    ensures NoRepeats(Step(s, StartEvent(id, scanId, candidates)).m.order) <==> id !in Staying(s.m.order)
  {
    hide Settled, InProgress, NoRepeats;
    var job := NewJob(id, scanId, |candidates|);
    var grown := Manager(s.m.jobs[id := job], s.m.order + [id], id);
    PruneToEight(grown);
    assert Step(s, StartEvent(id, scanId, candidates)).m == Prune(grown);
    assert Prune(grown).order == Staying(s.m.order) + [id];
    hide Step, Start, Prune, Sound;
    StayingHasNoRepeats(s.m.order);
    NoRepeatsSnoc(Staying(s.m.order), id);
  }

  lemma {:induction false} PruneToEight(m: Manager)
    requires |m.order| <= MAX_JOBS + 1
    ensures Prune(m).order == if |m.order| <= MAX_JOBS then m.order else m.order[1..]
  {
  }

  lemma {:induction false} StayingHasNoRepeats(order: seq<string>)
    requires NoRepeats(order)
    ensures NoRepeats(Staying(order))
  {
  }

  lemma {:induction false} NoRepeatsSnoc(order: seq<string>, id: string)
    requires NoRepeats(order)
    ensures NoRepeats(order + [id]) <==> id !in order
  {
    var more := order + [id];
    if id in order {
      var i :| 0 <= i < |order| && order[i] == id;
      assert more[i] == more[|order|];
    }
  }

  // ---------- one job from start to finish ----------

  predicate WellPlaced(r: Runner) {
    |r.items| <= |r.candidates| && (r.showing ==> |r.items| < |r.candidates|) && (!r.begun ==> !r.showing)
  }

  /** How many sections of the lock a goroutine still has to take. */
  function Remaining(r: Runner): nat
    requires WellPlaced(r)
  {
    2 * (|r.candidates| - |r.items|) + 1 + (if r.begun then 0 else 1) - (if r.showing then 1 else 0)
  }

  /** Every section brings the goroutine one nearer its end, whatever the engine answers. */
  lemma {:induction false} GoroutineAdvances(m: Manager, r: Runner, report: EngineReport)
    requires WellPlaced(r)
    ensures var next := RunnerStep(m, r, report).1;
            if next.None? then Remaining(r) == 1
            else WellPlaced(next.value) && Remaining(next.value) == Remaining(r) - 1
  {
  }

  function ReportFor(r: Runner, reports: seq<EngineReport>): EngineReport {
    if |r.items| < |reports| then reports[|r.items|] else NoResult
  }

  /** The goroutine's sections one after the other; the engine's answer to candidate k is reports[k]. */
  function RunAlone(m: Manager, r: Runner, reports: seq<EngineReport>): Manager
    requires WellPlaced(r)
    decreases Remaining(r)
  {
    GoroutineAdvances(m, r, ReportFor(r, reports));
    var (m', next) := RunnerStep(m, r, ReportFor(r, reports));
    if next.None? then m' else RunAlone(m', next.value, reports)
  }

  /** A candidate failed if the engine reported an error; it is a duplicate if the engine found duplicates and
      inserted nothing; it was imported otherwise. */
  predicate Fits(item: ItemStatus, report: EngineReport) {
    && (item == ItemFailed <==> report.EngineError?)
    && (item == ItemDuplicate <==> report.Report? && report.duplicates > 0 && report.inserted == 0)
    && (item == ItemImported <==>
          report.NoResult? || (report.Report? && (report.duplicates <= 0 || report.inserted != 0)))
  }

  predicate Answers(items: seq<ItemStatus>, reports: seq<EngineReport>) {
    |items| <= |reports| && forall k :: 0 <= k < |items| ==> Fits(items[k], reports[k])
  }

  lemma {:induction false} ClassifyFits(report: EngineReport)
    ensures Fits(Classify(report), report)
  {
  }

  /** What a request to start is answered: nothing selected, the running job, or a new pending job with nothing
      counted, which is now the active one and last in the order. */
  lemma {:induction false} StartIsAnswered(s: System, id: string, scanId: string, total: nat)
    requires Sound(s) && id != "" && id !in Staying(s.m.order)
    ensures var (m, answer) := Start(s.m, id, scanId, total);
            && (answer.NothingSelected? <==> total == 0)
            && (answer.AlreadyRunning? <==> total > 0 && s.m.activeId != "")
            && (answer.AlreadyRunning? ==> answer.jobId == s.m.activeId)
            && (!answer.Started? ==> m == s.m)
            && (answer.Started? ==> IsNewJob(m, answer.job, id, scanId, total))
  {
    hide Sound, Listed, OthersSettled, IsNewJob, Staying, Start;
    SoundMeansReady(s);
    if total > 0 && s.m.activeId == "" {
      StartEnters(s.m, id, scanId, total);
    } else {
      StartIsRefused(s.m, id, scanId, total);
    }
  }

  lemma {:induction false} StartIsRefused(m: Manager, id: string, scanId: string, total: nat)
    requires total == 0 || m.activeId != ""
    requires m.activeId != "" ==> m.activeId in m.jobs
    ensures Start(m, id, scanId, total)
            == (m, if total == 0 then NothingSelected else AlreadyRunning(m.activeId))
  {
  }

  /** The job is new, active and last in the order. */
  predicate IsNewJob(m: Manager, job: Job, id: string, scanId: string, total: nat) {
    && job.id == id && job.scanId == scanId && job.status == Pending && job.total == total
    && Total(job.counters) == 0 && job.result == None
    && m.activeId == id && ActiveIsLast(m) && m.jobs[id] == job
  }

  lemma {:induction false} StartEnters(m: Manager, id: string, scanId: string, total: nat)
    requires Listed(m) && |m.order| <= MAX_JOBS && OthersSettled(m) && m.activeId == "" && total > 0
    requires id != "" && id !in Staying(m.order)
    ensures var (m', answer) := Start(m, id, scanId, total);
            answer.Started? && IsNewJob(m', answer.job, id, scanId, total)
  {
    hide Prune, Listed, OthersSettled, Staying;
    EnteringKeepsExact(m, NewJob(id, scanId, total));
  }

  lemma {:induction false} SoundMeansReady(s: System)
    requires Sound(s)
    ensures Listed(s.m) && |s.m.order| <= MAX_JOBS && OthersSettled(s.m)
    ensures s.m.activeId != "" ==> s.m.activeId in s.m.jobs
  {
    hide Listed, OthersSettled, InProgress;
  }

  lemma {:induction false} RunnerStepRecords(m: Manager, r: Runner, reports: seq<EngineReport>)
    requires WellPlaced(r) && |reports| == |r.candidates| && Answers(r.items, reports)
    ensures var (m', next) := RunnerStep(m, r, ReportFor(r, reports));
            && (next.Some? ==> next.value.candidates == r.candidates && Answers(next.value.items, reports))
            && (next.None? && r.jobId in m.jobs ==>
                  r.jobId in m'.jobs && m'.jobs[r.jobId].result == Some(JobResult(r.items, Summarize(r.items)))
                  && |r.items| == |reports|)
  {
    ClassifyFits(ReportFor(r, reports));
    hide Summarize, Classify, Fits;
  }

  /** A job left to run completes, frees the manager, touches no other job, and reports the engine's answer
      to every candidate in order. */
  lemma {:induction false} RunAloneCompletes(m: Manager, r: Runner, reports: seq<EngineReport>)
    requires r.jobId in m.jobs && InProgress(m.jobs[r.jobId], r)
    requires WellPlaced(r) && |reports| == |r.candidates| && Answers(r.items, reports)
    ensures var m' := RunAlone(m, r, reports);
            && OnlyThisJobChanged(m, m', r.jobId) && m'.activeId == "" && Settled(m'.jobs[r.jobId])
            && |m'.jobs[r.jobId].result.value.items| == |reports|
            && Answers(m'.jobs[r.jobId].result.value.items, reports)
    decreases Remaining(r)
  {
    GoroutineAdvances(m, r, ReportFor(r, reports));
    RunnerStepRecords(m, r, reports);
    RunnerStepIsSound(m, r, ReportFor(r, reports));
    var (m', next) := RunnerStep(m, r, ReportFor(r, reports));
    hide RunnerStep, InProgress, Settled, Answers, Remaining, WellPlaced, ReportFor;
    if next.Some? {
      RunAloneCompletes(m', next.value, reports);
    }
  }
}
