/** internal/api/library_repairs_v1.go: the outcome of a repair run told from the plan and from the faults alone,
    before anything is moved. */
module RepairForecast {
  import opened Wrappers
  import opened Paths
  import opened Disk
  import opened RepairPlan
  import opened RepairRun

  /** The directories there are once the first `k` entries have had their destinations prepared. */
  function DirsAfter(dirs: set<FilePath>, entries: seq<Entry>, faults: nat -> Faults, k: nat): set<FilePath>
    requires k <= |entries|
  {
    if k == 0 then dirs
    else
      var before := DirsAfter(dirs, entries, faults, k - 1);
      if entries[k - 1].status != Ready then before
      else before + Levels(Parent(entries[k - 1].dst), faults(k - 1).mkdirStopAt)
  }

  /** The status of a ready entry, given whether its destination directory could be prepared. */
  function ForecastStatus(f: Faults, prepared: bool): Status {
    if !prepared then Failed(NoDirectory)
    else if f.renameFails then Failed(NotMoved)
    else if !f.updateFails then Moved
    else if f.rollbackFails then Failed(RollbackFailed)
    else Failed(RolledBack)
  }

  function Forecast(dirs: set<FilePath>, entries: seq<Entry>, faults: nat -> Faults, i: nat): Status
    requires i < |entries|
  {
    if entries[i].status != Ready then entries[i].status
    else ForecastStatus(faults(i), Parent(entries[i].dst) in DirsAfter(dirs, entries, faults, i + 1))
  }

  /** Preparing the destination of a pending entry adds exactly the levels it got to. */
  lemma {:induction false} PreparingAddsLevels(d: Disk, e: Entry, f: Faults, w: World, legacy: FilePath)
    requires Valid(d) && w.disk == d && e.status == Ready && Pending(w, e, legacy)
    ensures var (d1, made) := MkdirAll(d, Parent(e.dst), f.mkdirStopAt);
            && d1.dirs == d.dirs + Levels(Parent(e.dst), f.mkdirStopAt)
            && (made <==> Parent(e.dst) in d1.dirs)
  {
    var up := Parent(e.dst);
    assert up == e.dst[..|e.dst| - 1] && up[..|up|] == up;
    assert forall k :: 0 <= k < |up| ==> up[..k] == e.dst[..k];
    if up in d.dirs {
      forall q | q in Levels(up, f.mkdirStopAt)
        ensures q in d.dirs
      {
        var k :| 0 <= k <= f.mkdirStopAt && k <= |up| && q == up[..k];
        if k < |up| {
          AncestorsAreDirs(d, up, k);
        }
      }
    } else {
      forall k | 0 <= k <= f.mkdirStopAt && k <= |up| && up == up[..k]
        ensures k == |up|
      {
      }
    }
  }

  /** One entry ends as forecast and leaves the forecast directories. */
  lemma {:induction false} StepIsForecast(w: World, e: Entry, f: Faults, legacy: FilePath)
    requires Valid(w.disk) && e.status == Ready && Pending(w, e, legacy)
    ensures var (w', e') := Step(w, e, f);
            && w'.disk.dirs == w.disk.dirs + Levels(Parent(e.dst), f.mkdirStopAt)
            && e'.status == ForecastStatus(f, Parent(e.dst) in w'.disk.dirs)
  {
    PreparingAddsLevels(w.disk, e, f, w, legacy);
    MkdirAllKeepsValid(w.disk, Parent(e.dst), f.mkdirStopAt);
    var (d1, made) := MkdirAll(w.disk, Parent(e.dst), f.mkdirStopAt);
    hide MkdirAll, Levels;
    assert e.src in d1.files && Parent(e.src) in d1.dirs && e.src !in d1.dirs;
    assert e.dst !in d1.dirs;
  }

  lemma {:induction false} RunIsForecast(w: World, entries: seq<Entry>, faults: nat -> Faults, k: nat, legacy: FilePath)
    requires k <= |entries| && Sound(w, entries, 0, legacy)
    ensures RunTo(w, entries, faults, k).disk.dirs == DirsAfter(w.disk.dirs, entries, faults, k)
    ensures forall i :: 0 <= i < k ==>
              Outcome(w, entries, faults, i).status == Forecast(w.disk.dirs, entries, faults, i)
  {
    hide StepStates, Levels;
    if k > 0 {
      RunIsForecast(w, entries, faults, k - 1, legacy);
      RunKeepsSound(w, entries, faults, k - 1, legacy);
      var v, e := RunTo(w, entries, faults, k - 1), entries[k - 1];
      if e.status == Ready {
        StepIsForecast(v, e, faults(k - 1), legacy);
      } else {
        IdleStep(v, e, faults(k - 1));
      }
    }
  }

  /** Every entry of a sound plan ends with the status forecast from the plan and the faults. */
  lemma {:induction false} OutcomeIsForecast(w: World, entries: seq<Entry>, faults: nat -> Faults, i: nat,
                                             legacy: FilePath)
    requires i < |entries| && Sound(w, entries, 0, legacy)
    ensures Outcome(w, entries, faults, i).status == Forecast(w.disk.dirs, entries, faults, i)
  {
    RunIsForecast(w, entries, faults, |entries|, legacy);
  }

  /** An entry that takes record `id` along, or leaves its file where it is. */
  predicate SparesRecord(e: Entry, status: Status, id: int) {
    status != Failed(RollbackFailed) && (status == Moved ==> e.fileId == id)
  }

  /** A record whose file existed points at its own content after the run, exactly if the ready entry for that
      file, if there is one, is forecast to move it together with this record or to leave it in place. */
  lemma {:induction false} RecordKeepsItsFileForecast(w: World, entries: seq<Entry>, faults: nat -> Faults, id: int,
                                                      p: FilePath, legacy: FilePath)
    requires Sound(w, entries, 0, legacy)
    requires id in w.catalog && w.catalog[id].path == Path(true, p) && p in w.disk.files
    ensures PointsAt(RunTo(w, entries, faults, |entries|), id, w.disk.files[p])
            <==> forall i :: 0 <= i < |entries| && entries[i].status == Ready && entries[i].src == p ==>
                   SparesRecord(entries[i], Forecast(w.disk.dirs, entries, faults, i), id)
  {
    RecordKeepsItsFile(w, entries, faults, id, p, legacy);
    RunIsForecast(w, entries, faults, |entries|, legacy);
    hide RunTo, Outcome, Forecast, PointsAt;
    forall i | 0 <= i < |entries| && entries[i].status == Ready && entries[i].src == p
      ensures Strands(w, entries, faults, i, id, p) <==>
              !SparesRecord(entries[i], Forecast(w.disk.dirs, entries, faults, i), id)
    {
    }
  }

  /** Without faults: exactly if the ready entry for the file is the record's own. */
  lemma {:induction false} RecordKeepsItsFileWithoutFaults(w: World, entries: seq<Entry>, faults: nat -> Faults,
                                                           id: int, p: FilePath, legacy: FilePath)
    requires Sound(w, entries, 0, legacy)
    requires forall i :: 0 <= i < |entries| ==> Faultless(faults(i), entries[i])
    requires id in w.catalog && w.catalog[id].path == Path(true, p) && p in w.disk.files
    ensures PointsAt(RunTo(w, entries, faults, |entries|), id, w.disk.files[p])
            <==> forall i :: 0 <= i < |entries| && entries[i].status == Ready && entries[i].src == p ==>
                   entries[i].fileId == id
  {
    hide RunTo, Outcome, PointsAt, Sound, Faultless;
    RecordKeepsItsFile(w, entries, faults, id, p, legacy);
    forall i | 0 <= i < |entries|
      ensures Strands(w, entries, faults, i, id, p) <==>
              entries[i].status == Ready && entries[i].src == p && entries[i].fileId != id
    {
      if entries[i].status == Ready {
        FaultlessRunMovesAll(w, entries, faults, i, legacy);
      }
    }
  }

  /** With unique catalog paths: exactly if no entry of the record's own is forecast to fail its rollback. */
  lemma {:induction false} UniqueRecordsForecast(w: World, entries: seq<Entry>, faults: nat -> Faults, id: int,
                                                 p: FilePath, legacy: FilePath)
    requires Sound(w, entries, 0, legacy) && UniquePaths(w.catalog)
    requires id in w.catalog && w.catalog[id].path == Path(true, p) && p in w.disk.files
    ensures PointsAt(RunTo(w, entries, faults, |entries|), id, w.disk.files[p])
            <==> forall i :: 0 <= i < |entries| && entries[i].status == Ready && entries[i].fileId == id ==>
                   Forecast(w.disk.dirs, entries, faults, i) != Failed(RollbackFailed)
  {
    UniqueRecordsKeepTheirFiles(w, entries, faults, id, p, legacy);
    RunIsForecast(w, entries, faults, |entries|, legacy);
    hide RunTo, Outcome, Forecast, PointsAt, Sound;
  }
}
