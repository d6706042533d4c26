/** internal/api/library_repairs_v1.go: the repair run on the live stores, and the sweep of emptied
    directories that ends it. */
module RepairServer {
  import opened Wrappers
  import opened Paths
  import opened Disk
  import opened RepairPlan
  import opened RepairRun

  /** The directory still holds something, or the operating system refuses to remove it. */
  ghost predicate Busy(d: Disk, q: FilePath, denied: set<FilePath>) {
    Children(d, q) != {} || q in denied
  }

  /** Every surviving directory at or above `path`, down to `stopRoot`, is busy, except perhaps `free`. */
  ghost predicate Cleared(d: Disk, path: FilePath, stopRoot: FilePath, denied: set<FilePath>, free: Option<FilePath>) {
    forall q :: q in d.dirs && stopRoot <= q && q <= path && Some(q) != free ==> Busy(d, q, denied)
  }

  lemma {:induction false} PrefixTransitive(a: FilePath, b: FilePath, c: FilePath)
    requires a <= b && b <= c
    ensures a <= c
  {
    assert c[..|a|] == b[..|a|] == a;
  }

  /** `q` is one of the first `n` paths or an ancestor of one. */
  ghost predicate Covered(q: FilePath, paths: seq<FilePath>, n: nat) {
    exists j :: 0 <= j < n <= |paths| && q <= paths[j]
  }

  /** `q` lies strictly below `path` on the way to `start`. */
  ghost predicate Below(q: FilePath, path: FilePath, start: FilePath) {
    q <= start && |path| < |q|
  }

  lemma {:induction false} PrefixIsDir(d: Disk, p: FilePath, q: FilePath)
    requires Valid(d) && p in d.dirs && q <= p
    ensures q in d.dirs
  {
    assert p[..|q|] == q;
    if |q| < |p| {
      AncestorsAreDirs(d, p, |q|);
    } else {
      assert p[..|p|] == p;
    }
  }

  /** What the sweep may do to a disk: remove directories below `legacy`, nothing else. */
  ghost predicate Swept(before: Disk, after: Disk, removed: set<FilePath>, legacy: FilePath) {
    && Valid(after)
    && after.files == before.files
    && removed <= before.dirs && after.dirs == before.dirs - removed
    && forall q :: q in removed ==> Inside(q, legacy)
  }

  /** A removed directory held no file at any depth. */
  lemma {:induction false} RemovedHeldNoFile(before: Disk, after: Disk, removed: set<FilePath>, legacy: FilePath,
                                             q: FilePath, f: FilePath)
    requires Valid(before) && Swept(before, after, removed, legacy) && q in removed && f in before.files
    ensures !(q <= f)
  {
    if q <= f {
      assert f[..|q|] == q;
      assert |q| < |f| by { assert f[..|f|] == f; }
      AncestorsAreDirs(after, f, |q|);
    }
  }

  /** A directory with a surviving descendant is not empty. */
  lemma {:induction false} AncestorIsBusy(d: Disk, q: FilePath, path: FilePath, denied: set<FilePath>)
    requires Valid(d) && path in d.dirs && q <= path && q != path
    ensures Busy(d, q, denied)
  {
    assert path[..|q|] == q;
    assert path[..|path|] == path;
    var child := path[..|q| + 1];
    assert Parent(child) == q;
    assert child in d.dirs by {
      if |q| + 1 < |path| { AncestorsAreDirs(d, path, |q| + 1); } else { assert child == path; }
    }
    assert child in Children(d, q);
  }

  /** Removing `path` can only leave its parent idle. */
  lemma {:induction false} RemovalFreesParent(d: Disk, path: FilePath, q: FilePath, denied: set<FilePath>)
    requires Valid(d) && path in d.dirs && CanRemove(d, path)
    requires Busy(d, q, denied) && q != Parent(path)
    ensures Busy(Remove(d, path), q, denied)
  {
    if q !in denied {
      var c :| c in Children(d, q);
      assert c in Children(Remove(d, path), q);
    }
  }

  lemma {:induction false} ClearedAfterRemoval(d: Disk, path: FilePath, other: FilePath, stopRoot: FilePath,
                                               denied: set<FilePath>)
    requires Valid(d) && path in d.dirs && CanRemove(d, path)
    requires Cleared(d, other, stopRoot, denied, Some(path))
    ensures Cleared(Remove(d, path), other, stopRoot, denied, Some(Parent(path)))
  {
    var e := Remove(d, path);
    forall q | q in e.dirs && stopRoot <= q && q <= other && q != Parent(path)
      ensures Busy(e, q, denied)
    {
      RemovalFreesParent(d, path, q, denied);
    }
  }

  /** Where an upward walk from `paths[i]` stands: everything below `path` on the way is gone, and on the
      earlier ways only `path` itself may have become idle. */
  ghost predicate Walking(d: Disk, paths: seq<FilePath>, i: nat, path: FilePath, stopRoot: FilePath,
                          denied: set<FilePath>)
    requires i < |paths|
  {
    && path <= paths[i]
    && (forall j :: 0 <= j < i ==> Cleared(d, paths[j], stopRoot, denied, Some(path)))
    && (forall q :: q in d.dirs && q <= paths[i] ==> q <= path)
  }

  /** Three ways to stop: at a busy directory, at one removed by an earlier walk, and above the stop root. */
  lemma {:induction false} StopAtBusy(d: Disk, paths: seq<FilePath>, i: nat, path: FilePath, stopRoot: FilePath,
                                      denied: set<FilePath>)
    requires i < |paths| && Valid(d) && Walking(d, paths, i, path, stopRoot, denied)
    requires path in d.dirs && Busy(d, path, denied)
    ensures forall j :: 0 <= j <= i ==> Cleared(d, paths[j], stopRoot, denied, None)
  {
    forall q | q in d.dirs && q <= paths[i]
      ensures Busy(d, q, denied)
    {
      if q != path {
        AncestorIsBusy(d, q, path, denied);
      }
    }
  }

  lemma {:induction false} StopAtSeen(d: Disk, paths: seq<FilePath>, i: nat, path: FilePath, stopRoot: FilePath,
                                      denied: set<FilePath>, k: nat)
    requires i < |paths| && Walking(d, paths, i, path, stopRoot, denied)
    requires path !in d.dirs && k < i && path <= paths[k]
    ensures forall j :: 0 <= j <= i ==> Cleared(d, paths[j], stopRoot, denied, None)
  {
    hide Busy;
    forall q | q in d.dirs && stopRoot <= q && q <= paths[i]
      ensures Busy(d, q, denied)
    {
      assert q <= path <= paths[k];
      assert paths[k][..|q|] == path[..|q|] == q;
      assert Cleared(d, paths[k], stopRoot, denied, Some(path));
    }
  }

  lemma {:induction false} StopAboveRoot(d: Disk, paths: seq<FilePath>, i: nat, path: FilePath, stopRoot: FilePath,
                                         denied: set<FilePath>)
    requires i < |paths| && Walking(d, paths, i, path, stopRoot, denied)
    requires !(stopRoot <= path)
    ensures forall j :: 0 <= j <= i ==> Cleared(d, paths[j], stopRoot, denied, None)
  {
    hide Busy;
    forall q | q in d.dirs && q <= path
      ensures !(stopRoot <= q)
    {
      if stopRoot <= q {
        PrefixTransitive(stopRoot, q, path);
      }
    }
  }

  lemma {:induction false} StartWalk(d: Disk, paths: seq<FilePath>, i: nat, stopRoot: FilePath, denied: set<FilePath>)
    requires i < |paths| && forall j :: 0 <= j < i ==> Cleared(d, paths[j], stopRoot, denied, None)
    ensures Walking(d, paths, i, paths[i], stopRoot, denied)
  {
  }

  lemma {:induction false} SweptNothing(d: Disk, legacy: FilePath)
    requires Valid(d)
    ensures Swept(d, d, {}, legacy)
  {
  }

  lemma {:induction false} SeenIsGone(before: Disk, d: Disk, seen: set<FilePath>, legacy: FilePath, path: FilePath)
    requires Swept(before, d, seen, legacy) && path in seen
    ensures path !in d.dirs
  {
  }

  lemma {:induction false} UnseenIsDir(before: Disk, d: Disk, seen: set<FilePath>, legacy: FilePath,
                                       paths: seq<FilePath>, i: nat, path: FilePath, denied: set<FilePath>)
    requires Valid(before) && Swept(before, d, seen, legacy) && path !in seen
    requires i < |paths| && paths[i] in before.dirs && Walking(d, paths, i, path, legacy, denied)
    ensures path in d.dirs && path !in d.files && Valid(d)
  {
    PrefixIsDir(before, paths[i], path);
  }

  lemma {:induction false} StuckIsBusy(d: Disk, path: FilePath, denied: set<FilePath>)
    requires path in d.dirs && path != [] && (path in denied || !CanRemove(d, path))
    ensures Busy(d, path, denied)
  {
  }

  lemma {:induction false} SweptFurther(before: Disk, d: Disk, removed: set<FilePath>, path: FilePath, legacy: FilePath)
    requires Swept(before, d, removed, legacy) && path in d.dirs && CanRemove(d, path) && Inside(path, legacy)
    ensures Swept(before, Remove(d, path), removed + {path}, legacy)
  {
    RemoveKeepsValid(d, path);
  }

  lemma {:induction false} WalkUp(d: Disk, paths: seq<FilePath>, i: nat, path: FilePath, stopRoot: FilePath,
                                  denied: set<FilePath>)
    requires i < |paths| && Valid(d) && Walking(d, paths, i, path, stopRoot, denied)
    requires path in d.dirs && CanRemove(d, path)
    ensures Walking(Remove(d, path), paths, i, Parent(path), stopRoot, denied)
  {
    forall j | 0 <= j < i
      ensures Cleared(Remove(d, path), paths[j], stopRoot, denied, Some(Parent(path)))
    {
      ClearedAfterRemoval(d, path, paths[j], stopRoot, denied);
    }
    var up := Parent(path);
    assert up <= paths[i] by { assert paths[i][..|up|] == path[..|up|] == up; }
    forall q | q in Remove(d, path).dirs && q <= paths[i]
      ensures q <= up
    {
      assert path[..|q|] == q;
      assert |q| < |path| by { assert path[..|path|] == path; }
    }
  }

  /** The directories the first `k` entries moved files out of. */
  function MovedRoots(w: World, entries: seq<Entry>, faults: nat -> Faults, k: nat): seq<FilePath>
    requires k <= |entries|
  {
    if k == 0 then []
    else if entries[k - 1].status == Ready && Outcome(w, entries, faults, k - 1).status == Moved then
      MovedRoots(w, entries, faults, k - 1) + [Parent(entries[k - 1].src)]
    else MovedRoots(w, entries, faults, k - 1)
  }

  /** Entry `i` among the first `k` moved a file out of this directory. */
  ghost predicate MovedFrom(w: World, entries: seq<Entry>, faults: nat -> Faults, k: nat, i: nat, dir: FilePath)
    requires k <= |entries|
  {
    && i < k && entries[i].status == Ready && Outcome(w, entries, faults, i).status == Moved
    && dir == Parent(entries[i].src)
  }

  /** The sweep starts at exactly the directories that a moved file came from. */
  lemma {:induction false} MovedRootsExactly(w: World, entries: seq<Entry>, faults: nat -> Faults, k: nat,
                                             dir: FilePath)
    requires k <= |entries|
    ensures dir in MovedRoots(w, entries, faults, k) <==> exists i: nat :: MovedFrom(w, entries, faults, k, i, dir)
  {
    hide Outcome;
    if k > 0 {
      MovedRootsExactly(w, entries, faults, k - 1, dir);
      if dir in MovedRoots(w, entries, faults, k - 1) {
        var i: nat :| MovedFrom(w, entries, faults, k - 1, i, dir);
        assert MovedFrom(w, entries, faults, k, i, dir);
      }
      if i: nat :| MovedFrom(w, entries, faults, k, i, dir) && i < k - 1 {
        assert MovedFrom(w, entries, faults, k - 1, i, dir);
      }
      assert dir in MovedRoots(w, entries, faults, k) <==>
             dir in MovedRoots(w, entries, faults, k - 1) || MovedFrom(w, entries, faults, k, k - 1, dir);
    }
  }

  lemma {:induction false} MovedRootsAreDirs(w: World, entries: seq<Entry>, faults: nat -> Faults, k: nat,
                                             legacy: FilePath)
    requires k <= |entries| && Sound(w, entries, 0, legacy) && legacy != []
    ensures w.disk.dirs <= RunTo(w, entries, faults, k).disk.dirs
    ensures forall r :: r in MovedRoots(w, entries, faults, k) ==> r in w.disk.dirs
  {
    hide StepStates;
    if k > 0 {
      MovedRootsAreDirs(w, entries, faults, k - 1, legacy);
      RunKeepsSound(w, entries, faults, k - 1, legacy);
      var e := entries[k - 1];
      if e.status == Ready {
        StepEffect(RunTo(w, entries, faults, k - 1), e, faults(k - 1), legacy);
        assert Pending(w, e, legacy);
        assert Parent(e.src) in w.disk.dirs;
      } else {
        IdleStep(RunTo(w, entries, faults, k - 1), e, faults(k - 1));
      }
    }
  }

  class RepairServer {
    var disk: Disk
    var catalog: map<int, Record>

    constructor (d: Disk, c: map<int, Record>)
      ensures disk == d && catalog == c
    {
      disk, catalog := d, c;
    }

    ghost function Stores(): World
      reads this
    {
      World(disk, catalog)
    }

    /** The loop of executeNestedEbookRepair. It rewrites the statuses of the plan in place and returns
        the directories the moved files came from. */
    method MoveReadyEntries(plan: array<Entry>, faults: nat -> Faults) returns (cleanupRoots: seq<FilePath>)
      modifies this, plan
      ensures Stores() == RunTo(old(Stores()), old(plan[..]), faults, plan.Length)
      ensures plan[..] == Outcomes(old(Stores()), old(plan[..]), faults)
      ensures cleanupRoots == MovedRoots(old(Stores()), old(plan[..]), faults, plan.Length)
    {
      hide StepStates;
      ghost var w, entries := Stores(), plan[..];
      cleanupRoots := [];
      for i := 0 to plan.Length
        invariant Stores() == RunTo(w, entries, faults, i)
        invariant forall j :: 0 <= j < i ==> plan[j] == Outcome(w, entries, faults, j)
        invariant forall j :: i <= j < plan.Length ==> plan[j] == entries[j]
        invariant cleanupRoots == MovedRoots(w, entries, faults, i)
      {
        var moved := MoveOne(plan, i, faults(i));
        if moved {
          cleanupRoots := cleanupRoots + [Parent(plan[i].src)];
        }
      }
    }

    /** One turn of that loop. */
    method MoveOne(plan: array<Entry>, i: nat, f: Faults) returns (moved: bool)
      requires i < plan.Length
      modifies this, plan
      ensures (Stores(), plan[i]) == Step(old(Stores()), old(plan[i]), f)
      ensures forall j :: 0 <= j < plan.Length && j != i ==> plan[j] == old(plan[j])
      ensures moved <==> old(plan[i].status) == Ready && plan[i].status == Moved
    {
      var entry := plan[i];
      if entry.status != Ready {
        return false;
      }
      var made: bool;
      disk, made := MkdirAll(disk, Parent(entry.dst), f.mkdirStopAt).0,
          MkdirAll(disk, Parent(entry.dst), f.mkdirStopAt).1;
      if !made {
        plan[i] := entry.(status := Failed(NoDirectory));
        return false;
      }
      if f.renameFails || !CanRename(disk, entry.src, entry.dst) {
        plan[i] := entry.(status := Failed(NotMoved));
        return false;
      }
      disk := Rename(disk, entry.src, entry.dst);
      if f.updateFails || entry.fileId !in catalog {
        if f.rollbackFails || !CanRename(disk, entry.dst, entry.src) {
          plan[i] := entry.(status := Failed(RollbackFailed));
        } else {
          disk := Rename(disk, entry.dst, entry.src);
          plan[i] := entry.(status := Failed(RolledBack));
        }
        return false;
      }
      catalog := MoveFile(catalog, entry.fileId, entry.dst);
      plan[i] := entry.(status := Moved);
      moved := true;
    }

    /** removeEmptyNestedRepairDirs: from each path upwards, remove directories while they are empty.
        `denied` holds the directories the operating system refuses to remove. */
    method RemoveEmptyDirs(paths: seq<FilePath>, stopRoot: FilePath, denied: set<FilePath>)
        returns (removed: seq<FilePath>)
      requires Valid(disk) && stopRoot != []
      requires forall i :: 0 <= i < |paths| ==> paths[i] in disk.dirs
      modifies this`disk
      ensures Swept(old(disk), disk, (set q | q in removed), stopRoot)
      ensures forall i :: 0 <= i < |paths| ==> Cleared(disk, paths[i], stopRoot, denied, None)
      ensures forall q :: q in removed ==> Covered(q, paths, |paths|)
    {
      hide Busy, Cleared, Walking, Swept, Children;
      var seen: set<FilePath> := {};
      removed := [];
      ghost var before := disk;
      assert Swept(before, disk, seen, stopRoot) by { SweptNothing(disk, stopRoot); }
      for i := 0 to |paths|
        invariant seen == (set q | q in removed)
        invariant Swept(before, disk, seen, stopRoot)
        invariant forall j :: 0 <= j < i ==> Cleared(disk, paths[j], stopRoot, denied, None)
        invariant forall q :: q in seen ==> Covered(q, paths, i)
      {
        var path := paths[i];
        StartWalk(disk, paths, i, stopRoot, denied);
        while stopRoot <= path
          invariant seen == (set q | q in removed)
          invariant Swept(before, disk, seen, stopRoot)
          invariant Walking(disk, paths, i, path, stopRoot, denied)
          invariant path <= paths[i]
          invariant forall q :: q in seen ==> Below(q, path, paths[i]) || Covered(q, paths, i)
          decreases |path|
        {
          if path in seen {
            assert path !in disk.dirs by { SeenIsGone(before, disk, seen, stopRoot, path); }
            ghost var k :| 0 <= k < i && path <= paths[k];
            StopAtSeen(disk, paths, i, path, stopRoot, denied, k);
            break;
          }
          UnseenIsDir(before, disk, seen, stopRoot, paths, i, path, denied);
          if path in denied || !CanRemove(disk, path) {
            assert Busy(disk, path, denied) by { StuckIsBusy(disk, path, denied); }
            StopAtBusy(disk, paths, i, path, stopRoot, denied);
            break;
          }
          WalkUp(disk, paths, i, path, stopRoot, denied);
          SweptFurther(before, disk, seen, path, stopRoot);
          disk := Remove(disk, path);
          seen := seen + {path};
          removed := removed + [path];
          if path == stopRoot {
            assert !(stopRoot <= Parent(path));
            StopAboveRoot(disk, paths, i, Parent(path), stopRoot, denied);
            break;
          }
          path := Parent(path);
        }
        if !(stopRoot <= path) {
          StopAboveRoot(disk, paths, i, path, stopRoot, denied);
        }
        assert forall q :: q in seen && Covered(q, paths, i) ==> Covered(q, paths, i + 1);
      }
      assert forall q :: q in removed ==> q in seen;
    }

    /** executeNestedEbookRepair. */
    method Execute(plan: array<Entry>, faults: nat -> Faults, legacy: FilePath, denied: set<FilePath>)
      returns (removed: seq<FilePath>, legacyRootRemoved: bool)
      requires Sound(Stores(), plan[..], 0, legacy) && legacy != []
      modifies this, plan
      ensures plan[..] == Outcomes(old(Stores()), old(plan[..]), faults)
      ensures catalog == RunTo(old(Stores()), old(plan[..]), faults, plan.Length).catalog
      ensures Swept(RunTo(old(Stores()), old(plan[..]), faults, plan.Length).disk, disk, (set q | q in removed), legacy)
      ensures forall r :: r in MovedRoots(old(Stores()), old(plan[..]), faults, plan.Length) ==>
                Cleared(disk, r, legacy, denied, None)
      ensures legacyRootRemoved <==> legacy in removed
    {
      ghost var w, entries := Stores(), plan[..];
      RunKeepsSound(w, entries, faults, |entries|, legacy);
      MovedRootsAreDirs(w, entries, faults, |entries|, legacy);
      var roots := MoveReadyEntries(plan, faults);
      removed := RemoveEmptyDirs(roots, legacy, denied);
      legacyRootRemoved := legacy in removed;
      assert forall r :: r in roots ==> exists i :: 0 <= i < |roots| && roots[i] == r;
    }
  }

  // ---------- a second run has nothing to do ----------

  /** What a run and its sweep may change: files leave the legacy root, nothing outside it disappears, and
      a record either keeps its path or gets one outside. */
  ghost predicate Footprint(w: World, v: World, legacy: FilePath) {
    && (forall p :: p in v.disk.files && Inside(p, legacy) ==> p in w.disk.files)
    && (forall p :: p in w.disk.files && !Inside(p, legacy) ==> p in v.disk.files)
    && (forall p :: p in w.disk.dirs && !Inside(p, legacy) ==> p in v.disk.dirs)
    && v.catalog.Keys == w.catalog.Keys
    && (forall id :: id in w.catalog ==>
          v.catalog[id].path == w.catalog[id].path || !Inside(v.catalog[id].path.segs, legacy))
  }

  lemma {:induction false} RunFootprint(w: World, entries: seq<Entry>, faults: nat -> Faults, k: nat, legacy: FilePath)
    requires k <= |entries| && Sound(w, entries, 0, legacy)
    ensures Footprint(w, RunTo(w, entries, faults, k), legacy)
  {
    hide StepStates;
    if k > 0 {
      RunFootprint(w, entries, faults, k - 1, legacy);
      RunKeepsSound(w, entries, faults, k - 1, legacy);
      var v, e := RunTo(w, entries, faults, k - 1), entries[k - 1];
      if e.status == Ready {
        StepEffect(v, e, faults(k - 1), legacy);
      } else {
        IdleStep(v, e, faults(k - 1));
      }
    }
  }

  /** A file movable after a run and sweep was movable before. */
  lemma {:induction false} MovableBefore(w: World, v: World, src: FilePath, root: FilePath)
    requires root != [] && Inside(src, LegacyRoot(root))
    requires Footprint(w, v, LegacyRoot(root)) && Movable(v.disk, src, root)
    ensures Movable(w.disk, src, root)
  {
    var dst, legacy := Destination(src, root), LegacyRoot(root);
    forall k | 0 <= k < |dst|
      ensures dst[..k] !in w.disk.files
    {
      assert !Inside(dst[..k], legacy) by {
        if Inside(dst[..k], legacy) { PrefixTransitive(legacy, dst[..k], dst); }
      }
    }
  }

  /** After a run without faults and its sweep, a fresh plan has nothing ready. */
  lemma {:induction false} SecondPlanHasNothingReady(w: World, listing: seq<int>, root: FilePath,
                                                     sha: Content -> string, report: seq<Entry>, order: seq<nat>,
                                                     faults: nat -> Faults, after: Disk, removed: set<FilePath>)
    requires Valid(w.disk) && Plan(w, listing, root, sha).Ok?
    requires forall i :: 0 <= i < |report| ==> report[i].status != Ready
    requires IsOrder(order, |Plan(w, listing, root, sha).value + report|)
    requires var es := Reorder(Plan(w, listing, root, sha).value + report, order);
             (forall i :: 0 <= i < |es| ==> Faultless(faults(i), es[i]))
             && Swept(RunTo(w, es, faults, |es|).disk, after, removed, LegacyRoot(root))
    ensures var es := Reorder(Plan(w, listing, root, sha).value + report, order);
            var again := Plan(World(after, RunTo(w, es, faults, |es|).catalog), listing, root, sha);
            again.Ok? && forall i :: 0 <= i < |again.value| ==> again.value[i].status != Ready
  {
    var entries := Plan(w, listing, root, sha).value;
    var es, legacy := Reorder(entries + report, order), LegacyRoot(root);
    var v := World(after, RunTo(w, es, faults, |es|).catalog);
    PlanIsSound(w, listing, root, sha, report, order);
    RunFootprint(w, es, faults, |es|, legacy);
    assert Footprint(w, v, legacy);
    RootSurvives(w, v, root);
    var again := EntriesUpTo(v, listing, |listing|, root, sha).0;
    PlannedEntries(v, listing, |listing|, root, sha);
    EntriesAreListed(v, listing, |listing|, root, sha);
    hide RunTo, Outcome, StepStates, BuildEntry, Classify, EntriesUpTo, Footprint, Movable;
    forall i | 0 <= i < |again|
      ensures again[i].status != Ready
    {
      if again[i].status == Ready {
        assert Listed(v, listing, |listing|, again[i].fileId);
        var n :| 0 <= n < |listing| && listing[n] == again[i].fileId;
        ReadyAgainIsMoved(w, v, listing, n, root, sha, again[i]);
        ReadyFileIsGone(w, entries, report, order, faults, again[i].src, legacy);
      }
    }
  }

  lemma {:induction false} RootSurvives(w: World, v: World, root: FilePath)
    requires root != [] && Valid(w.disk) && Valid(v.disk) && Footprint(w, v, LegacyRoot(root))
    requires Exists(w.disk, root) && Lstat(w.disk, LegacyRoot(root)) != NotDir
    ensures Exists(v.disk, root) && Lstat(v.disk, LegacyRoot(root)) != NotDir
  {
    var legacy := LegacyRoot(root);
    assert legacy[..|root|] == root && Parent(legacy) == root;
    assert root in v.disk.dirs;
    ExistingIsNotBelowFile(v.disk, root);
    assert forall k :: 0 <= k < |root| ==> legacy[..k] == root[..k];
  }

  /** A file that a fresh plan finds ready was planned to be moved by the first one. */
  lemma {:induction false} ReadyAgainIsMoved(w: World, v: World, listing: seq<int>, n: nat, root: FilePath,
                                             sha: Content -> string, e: Entry)
    requires root != [] && Valid(w.disk) && Valid(v.disk) && Footprint(w, v, LegacyRoot(root))
    requires n < |listing| && listing[n] == e.fileId
    requires Inside(e.src, LegacyRoot(root)) && e.dst == Destination(e.src, root) && Pending(v, e, LegacyRoot(root))
    ensures Planned(EntriesUpTo(w, listing, |listing|, root, sha).0, e.src)
    ensures e.src in v.disk.files
    ensures e.fileId in w.catalog && w.catalog[e.fileId].path == Path(true, e.src) && e.src in w.disk.files
  {
    assert Movable(v.disk, e.src, root);
    MovableBefore(w, v, e.src, root);
    MovableIsPlanned(w, listing, |listing|, root, sha);
    assert listing[n] in w.catalog && w.catalog[listing[n]].path == Path(true, e.src);
    var b := BuildEntry(w.disk, listing[n], w.catalog[listing[n]], root, sha);
    assert b.Some? && b.value.src == e.src;
  }

  /** A run without faults takes every planned file away. */
  lemma {:induction false} ReadyFileIsGone(w: World, entries: seq<Entry>, report: seq<Entry>, order: seq<nat>,
                                           faults: nat -> Faults, p: FilePath, legacy: FilePath)
    requires IsOrder(order, |entries + report|)
    requires var es := Reorder(entries + report, order);
             Sound(w, es, 0, legacy) && forall i :: 0 <= i < |es| ==> Faultless(faults(i), es[i])
    requires Planned(entries, p)
    ensures var es := Reorder(entries + report, order); p !in RunTo(w, es, faults, |es|).disk.files
  {
    var es := Reorder(entries + report, order);
    var i :| 0 <= i < |entries| && entries[i].src == p && entries[i].status == Ready;
    assert (entries + report)[i] == entries[i];
    assert i in order;
    var j :| 0 <= j < |order| && order[j] == i;
    assert es[j] == entries[i];
    hide StepStates, RunTo;
    FaultlessRunMovesAll(w, es, faults, j, legacy);
    assert Pending(w, es[j], legacy);
    TrackRun(w, es, faults, |es|, es[j].fileId, p, legacy);
    assert Takes(w, es, faults, j, p);
  }
}
