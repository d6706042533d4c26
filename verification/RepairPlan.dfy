/** internal/api/library_repairs_v1.go, the planner: classifying catalogued ebook files that lie in the
    legacy nested root (`/books/books/...` for a library root `/books`). */
module RepairPlan {
  import opened Text
  import opened Wrappers
  import opened Paths
  import opened Disk

  datatype Failure = NoDirectory | NotMoved | RolledBack | RollbackFailed

  datatype Status = Ready | Collision | Missing | Unsafe | AlreadyRepaired | Moved | Failed(why: Failure)

  datatype Entry = Entry(fileId: int, src: FilePath, dst: FilePath, status: Status)

  /** A file record of the catalog: its cleaned path and the checksum it was catalogued with. */
  datatype Record = Record(path: Path, contentHash: string)

  /** The two stores: the disk and the catalog of file records. */
  datatype World = World(disk: Disk, catalog: map<int, Record>)

  datatype PlanError = NoNestedRoot | RootUnavailable | LegacyRootUnsafe

  /** filepath.Join(ebookRoot, filepath.Base(ebookRoot)) */
  function LegacyRoot(root: FilePath): FilePath
    requires root != []
  {
    root + [root[|root| - 1]]
  }

  /** pathWithin on cleaned absolute paths. */
  predicate Inside(p: FilePath, root: FilePath) {
    root <= p
  }

  /** Where a file below the legacy root belongs. */
  function Destination(src: FilePath, root: FilePath): FilePath
    requires root != [] && Inside(src, LegacyRoot(root))
  {
    root + src[|LegacyRoot(root)|..]
  }

  /** On cleaned absolute paths `Inside` is what both Rel-based pathWithin tests of the source decide. */
  lemma {:induction false} InsideIsPathWithin(p: FilePath, root: FilePath)
    requires IsClean(Path(true, p)) && IsClean(Path(true, root))
    ensures Inside(p, root) <==> ApiPathWithin(Show(Path(true, p)), Show(Path(true, root)))
  {
    ParseShow(Path(true, p));
    ParseShow(Path(true, root));
    PathWithinMeaning(Show(Path(true, p)), Show(Path(true, root)));
  }

  /** validateNestedRepairDestination: the nearest existing ancestor must be a directory below the root. */
  predicate DestinationParentOk(d: Disk, parent: FilePath, root: FilePath)
    decreases |parent|
  {
    match Lstat(d, parent)
    case IsDir => Inside(parent, root)
    case IsFile => false
    case NotDir => false
    case NotExist => parent != [] && DestinationParentOk(d, Parent(parent), root)
  }

  /** sameFileContent, with SHA-256 as an uninterpreted function. */
  predicate SameContent(d: Disk, src: FilePath, dst: FilePath, expected: string, sha: Content -> string) {
    && src in d.files && dst in d.files
    && |d.files[src]| == |d.files[dst]|
    && (expected == "" || EqualFold(sha(d.files[src]), expected))
    && sha(d.files[src]) == sha(d.files[dst])
  }

  /** The branches of buildNestedEbookRepairEntry after the destination has been computed. */
  function Classify(d: Disk, src: FilePath, dst: FilePath, root: FilePath, expected: string,
                    sha: Content -> string): Status
    requires root != []
  {
    if src == LegacyRoot(root) then Unsafe
    else if !Inside(dst, root) || Inside(dst, LegacyRoot(root)) then Unsafe
    else
      match Lstat(d, src)
      case NotExist => Missing
      case NotDir => Unsafe
      case IsDir => Unsafe
      case IsFile =>
        if !DestinationParentOk(d, Parent(dst), root) then Unsafe
        else
          match Lstat(d, dst)
          case NotExist => Ready
          case NotDir => Unsafe
          case IsDir => Collision
          case IsFile => if SameContent(d, src, dst, expected, sha) then AlreadyRepaired else Collision
  }

  function BuildEntry(d: Disk, id: int, record: Record, root: FilePath, sha: Content -> string): Option<Entry>
    requires root != []
  {
    var legacy := LegacyRoot(root);
    if !record.path.rooted || !Inside(record.path.segs, legacy) then None
    else
      var src := record.path.segs;
      var dst := Destination(src, root);
      Some(Entry(id, src, dst, Classify(d, src, dst, root, record.contentHash, sha)))
  }

  /** The source paths seen among the first `k` listed files, each with the first entry that used it. */
  function EntriesUpTo(w: World, listing: seq<int>, k: nat, root: FilePath, sha: Content -> string)
      : (r: (seq<Entry>, set<FilePath>))
    requires root != [] && k <= |listing|
  {
    if k == 0 then ([], {})
    else
      var (entries, seen) := EntriesUpTo(w, listing, k - 1, root, sha);
      var id := listing[k - 1];
      if id !in w.catalog then (entries, seen)
      else
        match BuildEntry(w.disk, id, w.catalog[id], root, sha)
        case None => (entries, seen)
        case Some(e) =>
          if e.src in seen then (entries + [e.(status := Unsafe)], seen)
          else (entries + [e], seen + {e.src})
  }

  /** buildNestedEbookRepairPlan up to the reconciliation report and the final sort. */
  function Plan(w: World, listing: seq<int>, root: FilePath, sha: Content -> string): Result<seq<Entry>, PlanError> {
    if root == [] then Err(NoNestedRoot)
    else if !Exists(w.disk, root) then Err(RootUnavailable)
    else if Lstat(w.disk, LegacyRoot(root)) == NotDir then Err(LegacyRootUnsafe)
    else Ok(EntriesUpTo(w, listing, |listing|, root, sha).0)
  }

  method ValidateDestination(d: Disk, dst: FilePath, root: FilePath) returns (ok: bool)
    ensures ok == DestinationParentOk(d, Parent(dst), root)
  {
    var existing := Parent(dst);
    while true
      invariant DestinationParentOk(d, Parent(dst), root) == DestinationParentOk(d, existing, root)
      decreases |existing|
    {
      match Lstat(d, existing)
      case IsDir => break;
      case IsFile => return false;
      case NotDir => return false;
      case NotExist =>
        if existing == [] {
          return false;
        }
        existing := Parent(existing);
    }
    ok := Inside(existing, root);
  }

  method BuildPlan(w: World, listing: seq<int>, root: FilePath, sha: Content -> string)
    returns (r: Result<seq<Entry>, PlanError>)
    ensures r == Plan(w, listing, root, sha)
  {
    if root == [] {
      return Err(NoNestedRoot);
    }
    if !Exists(w.disk, root) {
      return Err(RootUnavailable);
    }
    if Lstat(w.disk, LegacyRoot(root)) == NotDir {
      return Err(LegacyRootUnsafe);
    }
    var entries: seq<Entry>, seen: set<FilePath> := [], {};
    for i := 0 to |listing|
      invariant (entries, seen) == EntriesUpTo(w, listing, i, root, sha)
    {
      var id := listing[i];
      if id !in w.catalog {
        continue;
      }
      var built := BuildEntry(w.disk, id, w.catalog[id], root, sha);
      if built.None? {
        continue;
      }
      var entry := built.value;
      if entry.src in seen {
        entry := entry.(status := Unsafe);
      } else {
        seen := seen + {entry.src};
      }
      entries := entries + [entry];
    }
    r := Ok(entries);
  }

  // ---------- what a plan guarantees ----------

  /** What makes an entry safe to execute: its file is there, nothing is at or in the way of its
      destination, its record still names the source, and it leaves the legacy root. */
  ghost predicate Pending(w: World, e: Entry, legacy: FilePath) {
    && e.src in w.disk.files
    && !Exists(w.disk, e.dst) && e.dst != [] && !BelowFile(w.disk, e.dst)
    && Inside(e.src, legacy) && !Inside(e.dst, legacy)
    && e.fileId in w.catalog && w.catalog[e.fileId].path == Path(true, e.src)
  }

  /** Two entries do not meet: different sources, and neither destination is at or above the other. */
  predicate Apart(a: Entry, b: Entry) {
    a.src != b.src && !(a.dst <= b.dst) && !(b.dst <= a.dst)
  }

  ghost predicate Sound(w: World, entries: seq<Entry>, from: nat, legacy: FilePath) {
    && Valid(w.disk)
    && (forall i :: from <= i < |entries| && entries[i].status == Ready ==> Pending(w, entries[i], legacy))
    && (forall i, j :: 0 <= i < j < |entries| && entries[i].status == Ready && entries[j].status == Ready ==>
          Apart(entries[i], entries[j]))
  }

  lemma {:induction false} GoodParentIsNotBelowFile(d: Disk, parent: FilePath, root: FilePath)
    requires Valid(d) && DestinationParentOk(d, parent, root)
    ensures !BelowFile(d, parent) && parent !in d.files
    decreases |parent|
  {
    if Lstat(d, parent) == IsDir {
      ExistingIsNotBelowFile(d, parent);
    }
  }

  lemma {:induction false} ReadyIsPending(w: World, id: int, root: FilePath, sha: Content -> string)
    requires Valid(w.disk) && root != [] && id in w.catalog
    requires var b := BuildEntry(w.disk, id, w.catalog[id], root, sha); b.Some? && b.value.status == Ready
    ensures Pending(w, BuildEntry(w.disk, id, w.catalog[id], root, sha).value, LegacyRoot(root))
  {
    var e := BuildEntry(w.disk, id, w.catalog[id], root, sha).value;
    GoodParentIsNotBelowFile(w.disk, Parent(e.dst), root);
  }

  lemma {:induction false} ParentOkWhenClear(d: Disk, parent: FilePath, root: FilePath)
    requires Valid(d) && root in d.dirs && Inside(parent, root)
    requires !BelowFile(d, parent) && parent !in d.files
    ensures DestinationParentOk(d, parent, root)
    decreases |parent|
  {
    if parent !in d.dirs {
      assert |root| < |parent| by { assert parent[..|root|] == root && parent[..|parent|] == parent; }
      var up := Parent(parent);
      assert up[..|root|] == root;
      assert forall k :: 0 <= k < |up| ==> up[..k] == parent[..k];
      ParentOkWhenClear(d, up, root);
    }
  }

  /** The source is a regular file, and its destination lies outside the legacy root, does not exist, and
      has no regular file among its ancestors. */
  predicate Movable(d: Disk, src: FilePath, root: FilePath)
    requires root != [] && Inside(src, LegacyRoot(root))
  {
    var dst := Destination(src, root);
    src in d.files && !Inside(dst, LegacyRoot(root)) && !Exists(d, dst) && !BelowFile(d, dst)
  }

  /** An entry is ready exactly when its file is movable. */
  lemma {:induction false} ReadyExactly(w: World, id: int, root: FilePath, sha: Content -> string)
    requires Valid(w.disk) && root != [] && id in w.catalog
    requires BuildEntry(w.disk, id, w.catalog[id], root, sha).Some?
    ensures var e := BuildEntry(w.disk, id, w.catalog[id], root, sha).value;
            Inside(e.src, LegacyRoot(root)) && e.dst == Destination(e.src, root)
            && (e.status == Ready <==> Movable(w.disk, e.src, root))
  {
    var d := w.disk;
    var e := BuildEntry(d, id, w.catalog[id], root, sha).value;
    var legacy := LegacyRoot(root);
    if e.status == Ready {
      ReadyIsPending(w, id, root, sha);
    }
    if Movable(d, e.src, root) {
      assert e.src[..|root|] == root && |root| < |e.src|;
      AncestorsAreDirs(d, e.src, |root|);
      assert e.dst[..|root|] == root;
      assert |e.dst| > |root| by { assert |e.dst| == |root| ==> e.dst == root; }
      var up := Parent(e.dst);
      assert forall k :: 0 <= k < |up| ==> up[..k] == e.dst[..k];
      assert up[..|root|] == root;
      ParentOkWhenClear(d, up, root);
      assert e.src != legacy by { assert e.src == legacy ==> e.dst == root; }
    }
  }

  /** Destinations mirror sources, so they nest only where the sources do, and a file has no file below it. */
  lemma {:induction false} MirroredFilesAreApart(d: Disk, a: Entry, b: Entry, root: FilePath)
    requires Valid(d) && root != []
    requires a.src in d.files && b.src in d.files && a.src != b.src
    requires Inside(a.src, LegacyRoot(root)) && Inside(b.src, LegacyRoot(root))
    requires a.dst == root + a.src[|root| + 1..] && b.dst == root + b.src[|root| + 1..]
    ensures Apart(a, b)
  {
    MirrorNest(d, a.src, b.src, root);
    MirrorNest(d, b.src, a.src, root);
  }

  lemma {:induction false} FilesDoNotNest(d: Disk, p: FilePath, q: FilePath)
    requires Valid(d) && p in d.files && q in d.files && p <= q
    ensures p == q
  {
    ExistingIsNotBelowFile(d, q);
    assert q[..|p|] == p;
    assert forall k :: 0 <= k < |q| ==> q[..k] !in d.files;
  }

  lemma {:induction false} MirrorNest(d: Disk, p: FilePath, q: FilePath, root: FilePath)
    requires Valid(d) && root != [] && p in d.files && q in d.files && p != q
    requires Inside(p, LegacyRoot(root)) && Inside(q, LegacyRoot(root))
    ensures !(root + p[|root| + 1..] <= root + q[|root| + 1..])
  {
    var n := |root| + 1;
    var x, y := p[n..], q[n..];
    assert (root + x)[|root|..] == x && (root + y)[|root|..] == y;
    assert p == LegacyRoot(root) + x && q == LegacyRoot(root) + y;
    if root + x <= root + y {
      assert x == (root + y)[|root|..|root| + |x|] == y[..|x|];
      assert p <= q;
      FilesDoNotNest(d, p, q);
    }
  }

  /** Loop invariant of the planner: ready entries are pending and have pairwise different sources. */
  ghost predicate WellPlanned(w: World, entries: seq<Entry>, seen: set<FilePath>, root: FilePath)
    requires root != []
  {
    && (forall i :: 0 <= i < |entries| ==> WellPlannedEntry(w, entries[i], seen, root))
    && (forall i, j :: 0 <= i < j < |entries| && entries[i].status == Ready && entries[j].status == Ready ==>
          entries[i].src != entries[j].src)
  }

  ghost predicate WellPlannedEntry(w: World, e: Entry, seen: set<FilePath>, root: FilePath)
    requires root != []
  {
    && e.src in seen
    && Inside(e.src, LegacyRoot(root)) && e.dst == Destination(e.src, root)
    && !e.status.Moved? && !e.status.Failed?
    && (e.status == Ready ==> Pending(w, e, LegacyRoot(root)))
  }

  lemma {:induction false} PlannedEntries(w: World, listing: seq<int>, k: nat, root: FilePath, sha: Content -> string)
    requires Valid(w.disk) && root != [] && k <= |listing|
    ensures var (entries, seen) := EntriesUpTo(w, listing, k, root, sha); WellPlanned(w, entries, seen, root)
  {
    if k > 0 {
      hide BuildEntry, WellPlanned, WellPlannedEntry, Valid;
      PlannedEntries(w, listing, k - 1, root, sha);
      var id := listing[k - 1];
      if id in w.catalog {
        var built := BuildEntry(w.disk, id, w.catalog[id], root, sha);
        if built.Some? {
          var (before, seen) := EntriesUpTo(w, listing, k - 1, root, sha);
          BuiltIsWellPlanned(w, id, root, sha, seen);
          ExtendPlan(w, before, seen, built.value, root);
        }
      }
    } else {
      assert WellPlanned(w, [], {}, root);
    }
  }

  lemma {:induction false} BuiltIsWellPlanned(w: World, id: int, root: FilePath, sha: Content -> string,
                                              seen: set<FilePath>)
    requires Valid(w.disk) && root != [] && id in w.catalog && BuildEntry(w.disk, id, w.catalog[id], root, sha).Some?
    ensures var e := BuildEntry(w.disk, id, w.catalog[id], root, sha).value;
            WellPlannedEntry(w, e, seen + {e.src}, root)
  {
    if BuildEntry(w.disk, id, w.catalog[id], root, sha).value.status == Ready {
      ReadyIsPending(w, id, root, sha);
    }
    hide Pending, Valid, DestinationParentOk;
  }

  lemma {:induction false} ExtendPlan(w: World, entries: seq<Entry>, seen: set<FilePath>, e: Entry, root: FilePath)
    requires root != [] && WellPlanned(w, entries, seen, root)
    requires WellPlannedEntry(w, e, seen + {e.src}, root)
    ensures if e.src in seen then WellPlanned(w, entries + [e.(status := Unsafe)], seen, root)
            else WellPlanned(w, entries + [e], seen + {e.src}, root)
  {
    hide Pending, Inside, LegacyRoot;
    assert forall i :: 0 <= i < |entries| ==> WellPlannedEntry(w, entries[i], seen, root);
  }

  /** Some ready entry takes the file at `src`. */
  ghost predicate Planned(entries: seq<Entry>, src: FilePath) {
    exists i :: 0 <= i < |entries| && entries[i].src == src && entries[i].status == Ready
  }

  lemma {:induction false} PlannedExtends(entries: seq<Entry>, e: Entry, src: FilePath)
    ensures Planned(entries + [e], src) <==> Planned(entries, src) || (e.src == src && e.status == Ready)
  {
    var more := entries + [e];
    assert more[|entries|] == e && forall i :: 0 <= i < |entries| ==> more[i] == entries[i];
  }

  /** No movable file is forgotten: each listed record with a movable file has a ready entry for that file. */
  lemma {:induction false} MovableIsPlanned(w: World, listing: seq<int>, k: nat, root: FilePath, sha: Content -> string)
    requires Valid(w.disk) && root != [] && k <= |listing|
    ensures var (entries, seen) := EntriesUpTo(w, listing, k, root, sha);
            && (forall s :: s in seen ==>
                  Inside(s, LegacyRoot(root)) && (Movable(w.disk, s, root) ==> Planned(entries, s)))
            && (forall i :: 0 <= i < k && listing[i] in w.catalog ==>
                  var b := BuildEntry(w.disk, listing[i], w.catalog[listing[i]], root, sha);
                  b.Some? ==> b.value.src in seen)
  {
    hide Movable, Classify;
    if k > 0 {
      MovableIsPlanned(w, listing, k - 1, root, sha);
      var id := listing[k - 1];
      if id in w.catalog && BuildEntry(w.disk, id, w.catalog[id], root, sha).Some? {
        ReadyExactly(w, id, root, sha);
        var e := BuildEntry(w.disk, id, w.catalog[id], root, sha).value;
        var (before, seen) := EntriesUpTo(w, listing, k - 1, root, sha);
        hide Planned, BuildEntry;
        forall s | s in seen + {e.src} && Movable(w.disk, s, root)
          ensures Planned(EntriesUpTo(w, listing, k, root, sha).0, s)
        {
          PlannedExtends(before, e, s);
          PlannedExtends(before, e.(status := Unsafe), s);
        }
      }
    }
  }

  ghost predicate Listed(w: World, listing: seq<int>, k: nat, id: int) {
    id in w.catalog && exists n :: 0 <= n < k <= |listing| && listing[n] == id
  }

  lemma {:induction false} ListedBySome(w: World, listing: seq<int>, k: nat, n: nat)
    requires n < k <= |listing| && listing[n] in w.catalog
    ensures Listed(w, listing, k, listing[n])
  {
  }

  lemma {:induction false} ListedFurther(w: World, listing: seq<int>, k: nat, id: int)
    requires k < |listing| && Listed(w, listing, k, id)
    ensures Listed(w, listing, k + 1, id)
  {
    var n :| 0 <= n < k && listing[n] == id;
    ListedBySome(w, listing, k + 1, n);
  }

  ghost predicate AllListed(w: World, listing: seq<int>, k: nat, entries: seq<Entry>) {
    forall i :: 0 <= i < |entries| ==> Listed(w, listing, k, entries[i].fileId)
  }

  lemma {:induction false} EntriesAreListed(w: World, listing: seq<int>, k: nat, root: FilePath, sha: Content -> string)
    requires root != [] && k <= |listing|
    ensures AllListed(w, listing, k, EntriesUpTo(w, listing, k, root, sha).0)
  {
    hide Classify, Listed;
    if k > 0 {
      EntriesAreListed(w, listing, k - 1, root, sha);
      var before := EntriesUpTo(w, listing, k - 1, root, sha).0;
      var entries := EntriesUpTo(w, listing, k, root, sha).0;
      forall i | 0 <= i < |entries|
        ensures Listed(w, listing, k, entries[i].fileId)
      {
        if i < |before| {
          assert entries[i] == before[i];
          ListedFurther(w, listing, k - 1, before[i].fileId);
        } else {
          ListedBySome(w, listing, k, k - 1);
        }
      }
    }
  }

  /** sort.Slice leaves some rearrangement of the entries; no claim here depends on which. */
  predicate IsOrder(order: seq<nat>, n: nat) {
    && |order| == n
    && (forall i :: 0 <= i < n ==> order[i] < n)
    && (forall i, j :: 0 <= i < j < n ==> order[i] != order[j])
    && (forall i :: 0 <= i < n ==> i in order)
  }

  function Reorder(entries: seq<Entry>, order: seq<nat>): (out: seq<Entry>)
    requires IsOrder(order, |entries|)
    ensures |out| == |entries| && forall i :: 0 <= i < |out| ==> out[i] == entries[order[i]]
  {
    seq(|entries|, i requires 0 <= i < |entries| => entries[order[i]])
  }

  /** Every plan is sound in every order, also with the report's entries (never ready) mixed in. */
  lemma {:induction false} PlanIsSound(w: World, listing: seq<int>, root: FilePath, sha: Content -> string,
                                       report: seq<Entry>, order: seq<nat>)
    requires Valid(w.disk) && Plan(w, listing, root, sha).Ok?
    requires forall i :: 0 <= i < |report| ==> report[i].status != Ready
    requires IsOrder(order, |Plan(w, listing, root, sha).value + report|)
    ensures Sound(w, Reorder(Plan(w, listing, root, sha).value + report, order), 0, LegacyRoot(root))
  {
    var (planned, seen) := EntriesUpTo(w, listing, |listing|, root, sha);
    PlannedEntries(w, listing, |listing|, root, sha);
    var es := Reorder(planned + report, order);
    assert forall i :: 0 <= i < |es| && es[i].status == Ready ==>
      order[i] < |planned| && es[i] == planned[order[i]] && WellPlannedEntry(w, es[i], seen, root);
    forall i, j | 0 <= i < j < |es| && es[i].status == Ready && es[j].status == Ready
      ensures Apart(es[i], es[j])
    {
      var a, b := order[i], order[j];
      assert planned[a].src != planned[b].src by {
        if a < b { } else { assert b < a; }
      }
      MirroredFilesAreApart(w.disk, planned[a], planned[b], root);
    }
  }
}
