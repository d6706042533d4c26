/** internal/api/library_repairs_v1.go, the executor: moving the ready entries one by one, across the disk
    and the catalog, when any call may fail. */
module RepairRun {
  import opened Wrappers
  import opened Paths
  import opened Disk
  import opened RepairPlan

  /** How the environment treats the calls made for one entry. */
  datatype Faults = Faults(mkdirStopAt: nat, renameFails: bool, updateFails: bool, rollbackFails: bool)

  predicate Faultless(f: Faults, e: Entry) {
    f.mkdirStopAt >= |e.dst| && !f.renameFails && !f.updateFails
  }

  /** `LibraryService.MoveFile`: succeeds and updates the record's path, or fails and changes nothing. */
  function MoveFile(catalog: map<int, Record>, id: int, dst: FilePath): map<int, Record>
    requires id in catalog
  {
    catalog[id := catalog[id].(path := Path(true, dst))]
  }

  /** The worlds the stores pass through while one entry is executed, and the entry's new status. */
  function StepStates(w: World, e: Entry, f: Faults): (r: (seq<World>, Status))
    ensures |r.0| >= 1
  {
    if e.status != Ready then ([w], e.status)
    else
      var (d1, made) := MkdirAll(w.disk, Parent(e.dst), f.mkdirStopAt);
      var w1 := w.(disk := d1);
      if !made then ([w, w1], Failed(NoDirectory))
      else if f.renameFails || !CanRename(d1, e.src, e.dst) then ([w, w1], Failed(NotMoved))
      else
        var w2 := w.(disk := Rename(d1, e.src, e.dst));
        if f.updateFails || e.fileId !in w.catalog then
          if f.rollbackFails || !CanRename(w2.disk, e.dst, e.src) then ([w, w1, w2], Failed(RollbackFailed))
          else ([w, w1, w2, w.(disk := Rename(w2.disk, e.dst, e.src))], Failed(RolledBack))
        else ([w, w1, w2, World(w2.disk, MoveFile(w.catalog, e.fileId, e.dst))], Moved)
  }

  function Step(w: World, e: Entry, f: Faults): (World, Entry) {
    var (states, status) := StepStates(w, e, f);
    (states[|states| - 1], e.(status := status))
  }

  /** The world after the first `k` entries. */
  function RunTo(w: World, entries: seq<Entry>, faults: nat -> Faults, k: nat): World
    requires k <= |entries|
  {
    if k == 0 then w else Step(RunTo(w, entries, faults, k - 1), entries[k - 1], faults(k - 1)).0
  }

  /** Entry `i` as the run leaves it. */
  function Outcome(w: World, entries: seq<Entry>, faults: nat -> Faults, i: nat): Entry
    requires i < |entries|
  {
    Step(RunTo(w, entries, faults, i), entries[i], faults(i)).1
  }

  function Outcomes(w: World, entries: seq<Entry>, faults: nat -> Faults): (out: seq<Entry>)
    ensures |out| == |entries|
    ensures forall i :: 0 <= i < |out| ==> out[i] == Outcome(w, entries, faults, i)
  {
    seq(|entries|, i requires 0 <= i < |entries| => Outcome(w, entries, faults, i))
  }

  /** The file was left at the destination. */
  predicate Relocated(e: Entry) {
    e.status == Moved || e.status == Failed(RollbackFailed)
  }

  /** A catalog update changes the path of this one record and nothing else. */
  lemma {:induction false} MoveFileMeaning(catalog: map<int, Record>, id: int, dst: FilePath)
    requires id in catalog
    ensures var after := MoveFile(catalog, id, dst);
            && after.Keys == catalog.Keys && after[id].path == Path(true, dst)
            && after[id].contentHash == catalog[id].contentHash
            && forall other :: other in catalog && other != id ==> after[other] == catalog[other]
  {
  }

  // ---------- one entry ----------

  /** A pending entry ends in one of two disks: the file where it was, or at its destination. */
  lemma {:induction false} StepEffect(w: World, e: Entry, f: Faults, legacy: FilePath)
    requires Valid(w.disk) && e.status == Ready && Pending(w, e, legacy)
    ensures var (w', e') := Step(w, e, f);
            && Valid(w'.disk)
            && (forall p :: p in w'.disk.dirs && p !in w.disk.dirs ==> p <= Parent(e.dst))
            && w.disk.dirs <= w'.disk.dirs
            && (e'.status.Failed? || e'.status == Moved)
            && w'.disk.files == (if !Relocated(e') then w.disk.files
                                 else (w.disk.files - {e.src})[e.dst := w.disk.files[e.src]])
            && w'.catalog == (if e'.status == Moved then MoveFile(w.catalog, e.fileId, e.dst) else w.catalog)
            && (Faultless(f, e) ==> e'.status == Moved)
  {
    var d := w.disk;
    MkdirAllKeepsValid(d, Parent(e.dst), f.mkdirStopAt);
    MkdirAllSucceeds(d, Parent(e.dst), f.mkdirStopAt);
    var (d1, made) := MkdirAll(d, Parent(e.dst), f.mkdirStopAt);
    var up := Parent(e.dst);
    assert up == e.dst[..|e.dst| - 1];
    assert forall k :: 0 <= k < |up| ==> up[..k] == e.dst[..k];
    assert up !in d.files && !BelowFile(d, up);
    assert e.dst !in d1.dirs;
    if CanRename(d1, e.src, e.dst) {
      RenameKeepsValid(d1, e.src, e.dst);
      var d2 := Rename(d1, e.src, e.dst);
      if CanRename(d2, e.dst, e.src) {
        RenameKeepsValid(d2, e.dst, e.src);
        assert (d2.files - {e.dst})[e.src := d2.files[e.dst]] == d.files;
      }
    }
  }

  /** Every world passed through on the way holds the same file contents, with the same multiplicity. */
  lemma {:induction false} StepConserves(w: World, e: Entry, f: Faults, legacy: FilePath)
    requires Valid(w.disk) && (e.status == Ready ==> Pending(w, e, legacy))
    ensures forall s :: s in StepStates(w, e, f).0 ==> Valid(s.disk) && Bag(s.disk.files) == Bag(w.disk.files)
  {
    hide Bag;
    if e.status == Ready {
      var d := w.disk;
      MkdirAllKeepsValid(d, Parent(e.dst), f.mkdirStopAt);
      var (d1, made) := MkdirAll(d, Parent(e.dst), f.mkdirStopAt);
      if CanRename(d1, e.src, e.dst) {
        RenameKeepsValid(d1, e.src, e.dst);
        RenameKeepsBag(d1, e.src, e.dst);
        var d2 := Rename(d1, e.src, e.dst);
        if CanRename(d2, e.dst, e.src) {
          RenameKeepsValid(d2, e.dst, e.src);
          RenameKeepsBag(d2, e.dst, e.src);
        }
      }
    }
  }

  /** Executing one entry leaves the others pending. */
  lemma {:induction false} StepKeepsPending(w: World, e: Entry, f: Faults, other: Entry, legacy: FilePath)
    requires Valid(w.disk) && e.status == Ready
    requires Pending(w, e, legacy) && Pending(w, other, legacy) && Apart(e, other)
    ensures Pending(Step(w, e, f).0, other, legacy)
  {
    StepEffect(w, e, f, legacy);
    var w' := Step(w, e, f).0;
    hide StepStates;
    assert other.dst !in w'.disk.dirs by {
      assert other.dst <= Parent(e.dst) ==> other.dst <= e.dst;
    }
    forall k | 0 <= k < |other.dst|
      ensures other.dst[..k] !in w'.disk.files
    {
      assert other.dst[..k] <= other.dst;
    }
  }

  /** After `k` entries the rest of a sound plan is still sound. */
  lemma {:induction false} RunKeepsSound(w: World, entries: seq<Entry>, faults: nat -> Faults, k: nat, legacy: FilePath)
    requires k <= |entries| && Sound(w, entries, 0, legacy)
    ensures Sound(RunTo(w, entries, faults, k), entries, k, legacy)
  {
    if k > 0 {
      RunKeepsSound(w, entries, faults, k - 1, legacy);
      var v, e := RunTo(w, entries, faults, k - 1), entries[k - 1];
      if e.status == Ready {
        StepEffect(v, e, faults(k - 1), legacy);
        forall i | k <= i < |entries| && entries[i].status == Ready
          ensures Pending(RunTo(w, entries, faults, k), entries[i], legacy)
        {
          StepKeepsPending(v, e, faults(k - 1), entries[i], legacy);
        }
      }
    }
  }

  // ---------- nothing is overwritten or lost ----------

  /** Executing a sound plan never loses a file's content: in every world passed through, after any
      faults, the files hold the same contents as before the run. */
  lemma {:induction false} NothingIsLost(w: World, entries: seq<Entry>, faults: nat -> Faults, k: nat, legacy: FilePath)
    requires k < |entries| && Sound(w, entries, 0, legacy)
    ensures var v := RunTo(w, entries, faults, k);
            forall s :: s in StepStates(v, entries[k], faults(k)).0 ==>
              Valid(s.disk) && Bag(s.disk.files) == Bag(w.disk.files)
    decreases k
  {
    RunKeepsSound(w, entries, faults, k, legacy);
    var v := RunTo(w, entries, faults, k);
    StepConserves(v, entries[k], faults(k), legacy);
    if k > 0 {
      NothingIsLost(w, entries, faults, k - 1, legacy);
      var u := RunTo(w, entries, faults, k - 1);
      assert v in StepStates(u, entries[k - 1], faults(k - 1)).0;
    }
  }

  // ---------- every record keeps pointing at its own content ----------

  /** The record names a file holding `c`. */
  predicate PointsAt(w: World, id: int, c: Content) {
    && id in w.catalog && w.catalog[id].path.rooted
    && w.catalog[id].path.segs in w.disk.files && w.disk.files[w.catalog[id].path.segs] == c
  }

  /** The entry among the first `k`, if any, that took the file at `p` away. */
  function TakenBy(w: World, entries: seq<Entry>, faults: nat -> Faults, k: nat, p: FilePath): (h: Option<nat>)
    requires k <= |entries|
    ensures h.Some? ==> h.value < k && Takes(w, entries, faults, h.value, p)
    ensures h.None? ==> forall i :: 0 <= i < k ==> !Takes(w, entries, faults, i, p)
  {
    if k == 0 then None
    else
      var h := TakenBy(w, entries, faults, k - 1, p);
      if h.Some? then h
      else if Takes(w, entries, faults, k - 1, p) then Some(k - 1)
      else None
  }

  predicate Takes(w: World, entries: seq<Entry>, faults: nat -> Faults, i: nat, p: FilePath)
    requires i < |entries|
  {
    entries[i].status == Ready && entries[i].src == p && Relocated(Outcome(w, entries, faults, i))
  }

  /** Entry `i` took the file at `p` away without leading record `id` to its new place. */
  predicate Strands(w: World, entries: seq<Entry>, faults: nat -> Faults, i: nat, id: int, p: FilePath)
    requires i < |entries|
  {
    Takes(w, entries, faults, i, p) && !(entries[i].fileId == id && Outcome(w, entries, faults, i).status == Moved)
  }

  /** Where record `id`, which named a file at `p` holding `c`, stands in world `v`, when entry `h` took that file. */
  ghost predicate Tracked(v: World, id: int, p: FilePath, c: Content, taken: Option<Entry>, led: bool) {
    match taken
    case None => PointsAt(v, id, c) && v.catalog[id].path.segs == p
    case Some(e) =>
      && e.src == p && p !in v.disk.files
      && if led then PointsAt(v, id, c) && v.catalog[id].path.segs == e.dst
         else id in v.catalog && v.catalog[id].path == Path(true, p)
  }

  /** Executing an entry that did not take the file before. */
  lemma {:induction false} TrackStep(v: World, e: Entry, f: Faults, id: int, p: FilePath, c: Content, legacy: FilePath)
    requires Valid(v.disk) && e.status == Ready && Pending(v, e, legacy)
    requires Tracked(v, id, p, c, None, false)
    ensures var (v', e') := Step(v, e, f);
            var takes := e.src == p && Relocated(e');
            Tracked(v', id, p, c, if takes then Some(e) else None, e.fileId == id && e'.status == Moved)
  {
    StepEffect(v, e, f, legacy);
    hide StepStates;
  }

  /** Executing an entry after the file has been taken. */
  lemma {:induction false} TrackAfterwards(v: World, e: Entry, f: Faults, id: int, p: FilePath, c: Content,
                                           taken: Entry, led: bool, legacy: FilePath)
    requires Valid(v.disk) && e.status == Ready && Pending(v, e, legacy)
    requires Tracked(v, id, p, c, Some(taken), led)
    requires Apart(taken, e) && Inside(taken.src, legacy) && !Inside(taken.dst, legacy)
    ensures Tracked(Step(v, e, f).0, id, p, c, Some(taken), led)
  {
    StepEffect(v, e, f, legacy);
    hide StepStates;
  }

  lemma {:induction false} TrackRun(w: World, entries: seq<Entry>, faults: nat -> Faults, k: nat, id: int, p: FilePath,
                                    legacy: FilePath)
    requires k <= |entries| && Sound(w, entries, 0, legacy)
    requires id in w.catalog && w.catalog[id].path == Path(true, p) && p in w.disk.files
    ensures var h := TakenBy(w, entries, faults, k, p);
            var v, c := RunTo(w, entries, faults, k), w.disk.files[p];
            Tracked(v, id, p, c, if h.None? then None else Some(entries[h.value]),
                    h.Some? && !Strands(w, entries, faults, h.value, id, p))
  {
    hide StepStates;
    if k > 0 {
      TrackRun(w, entries, faults, k - 1, id, p, legacy);
      RunKeepsSound(w, entries, faults, k - 1, legacy);
      var v, e, f := RunTo(w, entries, faults, k - 1), entries[k - 1], faults(k - 1);
      var h := TakenBy(w, entries, faults, k - 1, p);
      hide Tracked, Pending;
      if e.status != Ready {
        assert Step(v, e, f).0 == v by { IdleStep(v, e, f); }
      } else if h.None? {
        TrackStep(v, e, f, id, p, w.disk.files[p], legacy);
      } else {
        var taken := entries[h.value];
        assert Inside(taken.src, legacy) && !Inside(taken.dst, legacy) by { PendingIsInside(w, taken, legacy); }
        TrackAfterwards(v, e, f, id, p, w.disk.files[p], taken, !Strands(w, entries, faults, h.value, id, p), legacy);
      }
    }
  }

  lemma {:induction false} IdleStep(w: World, e: Entry, f: Faults)
    requires e.status != Ready
    ensures Step(w, e, f) == (w, e)
  {
  }

  lemma {:induction false} PendingIsInside(w: World, e: Entry, legacy: FilePath)
    requires Pending(w, e, legacy)
    ensures Inside(e.src, legacy) && !Inside(e.dst, legacy)
  {
  }

  /** A record whose file existed points at its own content after the run, exactly unless some entry took
      that file away without updating this record. */
  lemma {:induction false} RecordKeepsItsFile(w: World, entries: seq<Entry>, faults: nat -> Faults, id: int,
                                              p: FilePath, legacy: FilePath)
    requires Sound(w, entries, 0, legacy)
    requires id in w.catalog && w.catalog[id].path == Path(true, p) && p in w.disk.files
    ensures PointsAt(RunTo(w, entries, faults, |entries|), id, w.disk.files[p])
            <==> forall i :: 0 <= i < |entries| ==> !Strands(w, entries, faults, i, id, p)
  {
    TrackRun(w, entries, faults, |entries|, id, p, legacy);
    var h := TakenBy(w, entries, faults, |entries|, p);
    hide RunTo, Outcome, StepStates;
    if h.Some? {
      forall i | 0 <= i < |entries| && Takes(w, entries, faults, i, p)
        ensures i == h.value
      {
        assert i == h.value || Apart(entries[i], entries[h.value]) || Apart(entries[h.value], entries[i]);
      }
    }
  }

  /** So a record that shares its path with a moved entry's record is left naming a file that is gone. */
  lemma {:induction false} SharedRecordIsStranded(w: World, entries: seq<Entry>, faults: nat -> Faults, i: nat, id: int,
                                                  p: FilePath, legacy: FilePath)
    requires Sound(w, entries, 0, legacy) && i < |entries|
    requires id in w.catalog && w.catalog[id].path == Path(true, p) && p in w.disk.files
    requires entries[i].status == Ready && entries[i].src == p && entries[i].fileId != id
    requires Outcome(w, entries, faults, i).status == Moved
    ensures !PointsAt(RunTo(w, entries, faults, |entries|), id, w.disk.files[p])
  {
    RecordKeepsItsFile(w, entries, faults, id, p, legacy);
    assert Strands(w, entries, faults, i, id, p);
  }

  ghost predicate UniquePaths(catalog: map<int, Record>) {
    forall a, b :: a in catalog && b in catalog && catalog[a].path == catalog[b].path ==> a == b
  }

  /** With unique catalog paths, only an entry reported as "rollback also failed" leaves its record without its file. */
  lemma {:induction false} UniqueRecordsKeepTheirFiles(w: World, entries: seq<Entry>, faults: nat -> Faults, id: int,
                                                       p: FilePath, legacy: FilePath)
    requires Sound(w, entries, 0, legacy) && UniquePaths(w.catalog)
    requires id in w.catalog && w.catalog[id].path == Path(true, p) && p in w.disk.files
    ensures PointsAt(RunTo(w, entries, faults, |entries|), id, w.disk.files[p])
            <==> forall i :: 0 <= i < |entries| && entries[i].status == Ready && entries[i].fileId == id ==>
                   Outcome(w, entries, faults, i).status != Failed(RollbackFailed)
  {
    RecordKeepsItsFile(w, entries, faults, id, p, legacy);
    hide RunTo, Outcome, PointsAt;
    forall i | 0 <= i < |entries|
      ensures Strands(w, entries, faults, i, id, p) <==>
              entries[i].status == Ready && entries[i].fileId == id
                  && Outcome(w, entries, faults, i).status == Failed(RollbackFailed)
    {
      if entries[i].status == Ready {
        ReadySourceIsOwn(w, entries[i], id, p, legacy);
      }
    }
  }

  lemma {:induction false} ReadySourceIsOwn(w: World, e: Entry, id: int, p: FilePath, legacy: FilePath)
    requires Pending(w, e, legacy) && UniquePaths(w.catalog)
    requires id in w.catalog && w.catalog[id].path == Path(true, p)
    ensures e.src == p <==> e.fileId == id
  {
  }

  // ---------- the report ----------

  function Count(entries: seq<Entry>, k: nat, counted: Status -> bool): nat
    requires k <= |entries|
  {
    if k == 0 then 0 else Count(entries, k - 1, counted) + if counted(entries[k - 1].status) then 1 else 0
  }

  /** Ready entries before the run are the moved and failed ones after it; all others keep their status. */
  lemma {:induction false} ReadyIsMovedPlusFailed(w: World, entries: seq<Entry>, faults: nat -> Faults, k: nat,
                                                  legacy: FilePath)
    requires k <= |entries| && Sound(w, entries, 0, legacy)
    requires forall i :: 0 <= i < |entries| ==> !entries[i].status.Moved? && !entries[i].status.Failed?
    ensures var out := Outcomes(w, entries, faults);
            Count(entries, k, s => s == Ready)
            == Count(out, k, s => s == Moved) + Count(out, k, (s: Status) => s.Failed?)
    ensures forall i :: 0 <= i < k && entries[i].status != Ready ==> Outcomes(w, entries, faults)[i] == entries[i]
  {
    hide StepStates, RunTo;
    if k > 0 {
      ReadyIsMovedPlusFailed(w, entries, faults, k - 1, legacy);
      RunKeepsSound(w, entries, faults, k - 1, legacy);
      var v, e, f := RunTo(w, entries, faults, k - 1), entries[k - 1], faults(k - 1);
      if e.status == Ready {
        StepEffect(v, e, f, legacy);
      } else {
        IdleStep(v, e, f);
      }
    }
  }

  /** Without faults every ready entry is moved. */
  lemma {:induction false} FaultlessRunMovesAll(w: World, entries: seq<Entry>, faults: nat -> Faults, i: nat,
                                                legacy: FilePath)
    requires Sound(w, entries, 0, legacy)
    requires forall j :: 0 <= j < |entries| ==> Faultless(faults(j), entries[j])
    requires i < |entries| && entries[i].status == Ready
    ensures Outcome(w, entries, faults, i).status == Moved
  {
    RunKeepsSound(w, entries, faults, i, legacy);
    StepEffect(RunTo(w, entries, faults, i), entries[i], faults(i), legacy);
  }
}
