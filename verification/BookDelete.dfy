/** internal/api/books_v1_delete.go: deleting a book and, on request, its files. First every attached path
    is validated, then the files and the directories they leave empty are removed, then the catalog row. */
module BookDelete {
  import opened Text
  import opened Wrappers
  import opened Paths
  import opened Disk

  datatype PathError = Missing | Invalid | NotAbsolute | OutsideRoots | NotInspectable

  /** A path accepted for deletion and the configured root that contains it. */
  datatype Resolved = Resolved(path: FilePath, root: FilePath, missing: bool)

  datatype Outcome = Deleted | AlreadyMissing | Refused

  const NUL := 0 as char

  // ---------- validation ----------

  /** pathUnderRoot on cleaned absolute paths: below the root "/" it accepts only "/". */
  predicate UnderRoot(p: FilePath, root: FilePath) {
    root <= p && (root == [] ==> p == [])
  }

  lemma {:induction false} UnderRootIsPrefixTest(p: FilePath, root: FilePath)
    requires IsClean(Path(true, p)) && IsClean(Path(true, root))
    ensures UnderRoot(p, root) <==> PathUnderRoot(Show(Path(true, p)), Show(Path(true, root)))
  {
    var ps, rs := Show(Path(true, p)), Show(Path(true, root));
    ParseShow(Path(true, p));
    ParseShow(Path(true, root));
    ParseShow(Path(true, []));
    PathUnderRootMeaning(ps, rs);
    assert Show(Path(true, [])) == "/";
  }

  /** containingRoot */
  function ContainingRoot(p: FilePath, roots: seq<FilePath>): (r: Option<FilePath>)
    ensures r.Some? ==> r.value in roots && UnderRoot(p, r.value)
    ensures r.None? <==> forall root :: root in roots ==> !UnderRoot(p, root)
  {
    if roots == [] then None
    else if UnderRoot(p, roots[0]) then Some(roots[0])
    else
      assert roots == [roots[0]] + roots[1..];
      ContainingRoot(p, roots[1..])
  }

  /** resolveManagedDeletePath */
  function ResolvePath(d: Disk, raw: string, roots: seq<FilePath>): Result<Resolved, PathError> {
    var trimmed := TrimSpace(raw);
    if trimmed == "" then Err(Missing)
    else if NUL in trimmed then Err(Invalid)
    else if !IsAbs(trimmed) then Err(NotAbsolute)
    else
      var path := Parse(trimmed).segs;
      match ContainingRoot(path, roots)
      case None => Err(OutsideRoots)
      case Some(root) =>
        match Lstat(d, path)
        case NotExist => Ok(Resolved(path, root, true))
        case NotDir => Err(NotInspectable)
        case IsFile => Ok(Resolved(path, root, false))
        case IsDir => Ok(Resolved(path, root, false))
  }

  predicate Holds(items: seq<Resolved>, path: FilePath) {
    exists i :: 0 <= i < |items| && items[i].path == path
  }

  /** The distinct resolved paths among the first `k`, in order, and the number of paths that failed. */
  function ItemsUpTo(d: Disk, raws: seq<string>, roots: seq<FilePath>, k: nat): (r: (seq<Resolved>, nat))
    requires k <= |raws|
  {
    if k == 0 then ([], 0)
    else
      var (items, problems) := ItemsUpTo(d, raws, roots, k - 1);
      match ResolvePath(d, raws[k - 1], roots)
      case Err(_) => (items, problems + 1)
      case Ok(item) => if Holds(items, item.path) then (items, problems) else (items + [item], problems)
  }

  /** resolveBookFilesForDeletion */
  method ResolveBookFiles(d: Disk, raws: seq<string>, roots: seq<FilePath>)
      returns (items: seq<Resolved>, problems: nat)
    ensures (items, problems) == ItemsUpTo(d, raws, roots, |raws|)
  {
    hide ResolvePath;
    items, problems := [], 0;
    var seen: set<FilePath> := {};
    for i := 0 to |raws|
      invariant (items, problems) == ItemsUpTo(d, raws, roots, i)
      invariant forall p :: p in seen <==> Holds(items, p)
    {
      var resolved := ResolvePath(d, raws[i], roots);
      if resolved.Err? {
        problems := problems + 1;
        continue;
      }
      if resolved.value.path in seen {
        continue;
      }
      seen := seen + {resolved.value.path};
      HoldsMore(items, resolved.value);
      items := items + [resolved.value];
    }
  }

  lemma {:induction false} HoldsMore(items: seq<Resolved>, item: Resolved)
    ensures forall p :: Holds(items + [item], p) <==> Holds(items, p) || p == item.path
  {
    var more := items + [item];
    assert more[|items|] == item && forall i :: 0 <= i < |items| ==> more[i] == items[i];
  }

  /** An item that may be handed to the removal phase. */
  predicate Deletable(d: Disk, item: Resolved) {
    UnderRoot(item.path, item.root) && !BelowFile(d, item.path) && (item.missing ==> !Exists(d, item.path))
  }

  /** The path a stored string stands for. */
  function PathOf(raw: string): FilePath {
    Parse(TrimSpace(raw)).segs
  }

  lemma {:induction false} ResolvedIsDeletable(d: Disk, raw: string, roots: seq<FilePath>)
    requires Valid(d) && ResolvePath(d, raw, roots).Ok?
    ensures var item := ResolvePath(d, raw, roots).value;
            Deletable(d, item) && ContainingRoot(item.path, roots) == Some(item.root) && item.path == PathOf(raw)
  {
    hide Parse, TrimSpace, IsAbs;
    var item := ResolvePath(d, raw, roots).value;
    if Exists(d, item.path) {
      ExistingIsNotBelowFile(d, item.path);
    }
  }

  /** The matched root is the first configured one that contains the path. */
  lemma {:induction false} MatchedIsFirst(p: FilePath, roots: seq<FilePath>, k: nat)
    requires k < |roots| && UnderRoot(p, roots[k]) && forall j :: 0 <= j < k ==> !UnderRoot(p, roots[j])
    ensures ContainingRoot(p, roots) == Some(roots[k])
  {
    if k > 0 {
      MatchedIsFirst(p, roots[1..], k - 1);
    }
  }

  /** When a stored path resolves, to what, and why else it fails. */
  lemma {:induction false} ResolvesExactly(d: Disk, raw: string, roots: seq<FilePath>)
    requires Valid(d)
    ensures var r, text, path := ResolvePath(d, raw, roots), TrimSpace(raw), PathOf(raw);
            var contained := exists root :: root in roots && UnderRoot(path, root);
            && (r == Err(Missing) <==> text == "")
            && (r == Err(Invalid) <==> text != "" && NUL in text)
            && (r == Err(NotAbsolute) <==> text != "" && NUL !in text && text[0] != '/')
            && (r == Err(OutsideRoots) <==> text != "" && NUL !in text && text[0] == '/' && !contained)
            && (r == Err(NotInspectable) <==>
                  text != "" && NUL !in text && text[0] == '/' && contained && BelowFile(d, path))
            && (r.Ok? ==> r.value.path == path && (r.value.missing <==> !Exists(d, path))
                          && ContainingRoot(path, roots) == Some(r.value.root))
  {
    hide Parse, TrimSpace, BelowFile, UnderRoot;
    var path := PathOf(raw);
    if Exists(d, path) {
      ExistingIsNotBelowFile(d, path);
    }
  }

  /** No path failed exactly when each resolves; then each path stands among the items, and every item is deletable. */
  lemma {:induction false} ItemsMeaning(d: Disk, raws: seq<string>, roots: seq<FilePath>, k: nat)
    requires Valid(d) && k <= |raws|
    ensures var (items, problems) := ItemsUpTo(d, raws, roots, k);
            && (problems == 0 <==> forall i :: 0 <= i < k ==> ResolvePath(d, raws[i], roots).Ok?)
            && (problems == 0 ==> forall i :: 0 <= i < k ==> Holds(items, PathOf(raws[i])))
            && (forall i :: 0 <= i < |items| ==> Deletable(d, items[i]))
  {
    hide ResolvePath, Deletable, Holds, PathOf, Valid;
    if k > 0 {
      ItemsMeaning(d, raws, roots, k - 1);
      var r := ResolvePath(d, raws[k - 1], roots);
      if r.Ok? {
        HoldsMore(ItemsUpTo(d, raws, roots, k - 1).0, r.value);
        ResolvedIsDeletable(d, raws[k - 1], roots);
      }
    }
  }

  predicate Distinct(items: seq<Resolved>) {
    forall i, j :: 0 <= i < j < |items| ==> items[i].path != items[j].path
  }

  lemma {:induction false} DistinctMore(items: seq<Resolved>, item: Resolved)
    requires Distinct(items) && !Holds(items, item.path)
    ensures Distinct(items + [item])
  {
    var more := items + [item];
    forall i, j | 0 <= i < j < |more|
      ensures more[i].path != more[j].path
    {
      assert more[i] == items[i];
      assert j < |items| ==> more[j] == items[j];
    }
  }

  /** Each resolved path stands among the items once. */
  lemma {:induction false} ItemsAreDistinct(d: Disk, raws: seq<string>, roots: seq<FilePath>, k: nat)
    requires k <= |raws|
    ensures Distinct(ItemsUpTo(d, raws, roots, k).0)
  {
    hide ResolvePath, Holds, ItemsUpTo;
    if k == 0 {
      NoItems(d, raws, roots);
    } else {
      hide Distinct;
      ItemsAreDistinct(d, raws, roots, k - 1);
      ItemsUnfold(d, raws, roots, k);
      var items, r := ItemsUpTo(d, raws, roots, k - 1).0, ResolvePath(d, raws[k - 1], roots);
      if r.Ok? && !Holds(items, r.value.path) {
        DistinctMore(items, r.value);
      }
    }
  }

  lemma {:induction false} NoItems(d: Disk, raws: seq<string>, roots: seq<FilePath>)
    ensures ItemsUpTo(d, raws, roots, 0) == ([], 0)
  {
  }

  lemma {:induction false} ItemsUnfold(d: Disk, raws: seq<string>, roots: seq<FilePath>, k: nat)
    requires 0 < k <= |raws|
    ensures var items, r := ItemsUpTo(d, raws, roots, k - 1).0, ResolvePath(d, raws[k - 1], roots);
            ItemsUpTo(d, raws, roots, k).0
            == if r.Ok? && !Holds(items, r.value.path) then items + [r.value] else items
  {
    hide ResolvePath, Holds;
  }

  // ---------- removal ----------

  /** removeEmptyLibraryParents from directory `dir` upwards. */
  function SweepParents(d: Disk, dir: FilePath, root: FilePath, denied: set<FilePath>): Disk
    decreases |dir|
  {
    if dir == [] || dir == root || !UnderRoot(dir, root) then d
    else if dir in denied || !CanRemove(d, dir) then d
    else SweepParents(Remove(d, dir), Parent(dir), root, denied)
  }

  /** One item of deleteResolvedBookFiles; `denied` holds what the operating system refuses to remove. */
  function DeleteOne(d: Disk, item: Resolved, denied: set<FilePath>): (Disk, Outcome) {
    if item.missing then (d, AlreadyMissing)
    else if Lstat(d, item.path) == NotExist then (d, AlreadyMissing)
    else if item.path in denied || !CanRemove(d, item.path) then (d, Refused)
    else (SweepParents(Remove(d, item.path), Parent(item.path), item.root, denied), Deleted)
  }

  function DeleteUpTo(d: Disk, items: seq<Resolved>, denied: set<FilePath>, k: nat): (r: (Disk, bool))
    requires k <= |items|
  {
    if k == 0 then (d, false)
    else
      var (e, hardFailure) := DeleteUpTo(d, items, denied, k - 1);
      var (e', outcome) := DeleteOne(e, items[k - 1], denied);
      (e', hardFailure || outcome == Refused)
  }

  /** The outcomes of the first `k` items, each at its turn. */
  function OutcomesUpTo(d: Disk, items: seq<Resolved>, denied: set<FilePath>, k: nat): seq<Outcome>
    requires k <= |items|
  {
    if k == 0 then []
    else OutcomesUpTo(d, items, denied, k - 1) + [DeleteOne(DeleteUpTo(d, items, denied, k - 1).0, items[k - 1],
        denied).1]
  }

  // ---------- what removal may touch ----------

  /** Nothing was added or changed. */
  ghost predicate Shrunk(d: Disk, e: Disk) {
    && Valid(e) && e.dirs <= d.dirs
    && (forall p :: p in e.files ==> p in d.files && e.files[p] == d.files[p])
  }

  /** `q` lies above `path` and strictly below `root`. */
  predicate Between(q: FilePath, path: FilePath, root: FilePath) {
    q <= path && root <= q && q != root
  }

  /** The directories a sweep from `dir` removes lie on the way up, strictly below the root. */
  lemma {:induction false} SweepTouches(d: Disk, dir: FilePath, root: FilePath, denied: set<FilePath>)
    requires Valid(d) && dir !in d.files
    ensures var e := SweepParents(d, dir, root, denied);
            && Shrunk(d, e) && e.files == d.files
            && forall q :: q in d.dirs && q !in e.dirs ==> Between(q, dir, root)
    decreases |dir|
  {
    if !(dir == [] || dir == root || !UnderRoot(dir, root)) && !(dir in denied || !CanRemove(d, dir)) {
      RemoveKeepsValid(d, dir);
      assert Parent(dir) in d.dirs;
      SweepTouches(Remove(d, dir), Parent(dir), root, denied);
      BetweenParent(dir, root);
    }
  }

  lemma {:induction false} BetweenParent(p: FilePath, root: FilePath)
    ensures forall q :: Between(q, Parent(p), root) ==> Between(q, p, root)
  {
    forall q | Between(q, Parent(p), root)
      ensures Between(q, p, root)
    {
      assert p[..|q|] == Parent(p)[..|q|] == q;
    }
  }

  /** What deleting one item changes: its path, unless the removal is refused, and directories above it that
      lie strictly below its root. Afterwards the path is gone exactly unless the removal was refused. */
  lemma {:induction false} DeleteOneTouches(d: Disk, item: Resolved, denied: set<FilePath>)
    requires Valid(d) && Deletable(d, item)
    ensures var (e, outcome) := DeleteOne(d, item, denied);
            && Shrunk(d, e)
            && e.files == (if outcome == Deleted then d.files - {item.path} else d.files)
            && (forall q :: q in d.dirs && q !in e.dirs ==> q == item.path || Between(q, item.path, item.root))
            && (outcome == Refused <==> Exists(e, item.path))
            && (outcome == Refused ==> item.path in denied || item.path in d.dirs)
  {
    var p := item.path;
    if Exists(d, p) && p !in denied && CanRemove(d, p) {
      RemoveKeepsValid(d, p);
      var e := Remove(d, p);
      assert Parent(p) !in e.files by {
        assert p != [] ==> Parent(p) in d.dirs;
      }
      SweepTouches(e, Parent(p), item.root, denied);
      BetweenParent(p, item.root);
    }
  }

  lemma {:induction false} ShrunkKeepsDeletable(d: Disk, e: Disk, item: Resolved)
    requires Shrunk(d, e) && Deletable(d, item)
    ensures Deletable(e, item)
  {
  }

  /** A directory the removal phase may take away: an attached path, or one between it and its root. */
  predicate MayGo(items: seq<Resolved>, q: FilePath) {
    exists i :: 0 <= i < |items| && (q == items[i].path || Between(q, items[i].path, items[i].root))
  }

  lemma {:induction false} GoesMore(items: seq<Resolved>, k: nat)
    requires 0 < k <= |items|
    ensures forall q :: MayGo(items[..k], q) <==>
              MayGo(items[..k - 1], q) || q == items[k - 1].path || Between(q, items[k - 1].path, items[k - 1].root)
    ensures forall p :: Holds(items[..k], p) <==> Holds(items[..k - 1], p) || p == items[k - 1].path
  {
    assert items[..k] == items[..k - 1] + [items[k - 1]];
    HoldsMore(items[..k - 1], items[k - 1]);
    forall q
      ensures MayGo(items[..k], q) <==>
              MayGo(items[..k - 1], q) || q == items[k - 1].path || Between(q, items[k - 1].path, items[k - 1].root)
    {
      assert items[..k][k - 1] == items[k - 1];
      assert forall i :: 0 <= i < k - 1 ==> items[..k][i] == items[..k - 1][i];
    }
  }

  /** The removal phase only removes attached files, attached empty directories, and directories strictly
      between an attached path and its root; if nothing was refused, every attached path is gone. */
  lemma {:induction false} RemovalTouches(d: Disk, items: seq<Resolved>, denied: set<FilePath>, k: nat)
    requires Valid(d) && k <= |items| && forall i :: 0 <= i < |items| ==> Deletable(d, items[i])
    ensures var (e, hardFailure) := DeleteUpTo(d, items, denied, k);
            && Shrunk(d, e)
            && (forall p :: p in d.files && p !in e.files ==> Holds(items[..k], p))
            && (forall q :: q in d.dirs && q !in e.dirs ==> MayGo(items[..k], q))
            && (!hardFailure ==> forall p :: Holds(items[..k], p) ==> !Exists(e, p))
            && (hardFailure ==> exists p :: Holds(items[..k], p) && (p in denied || p in d.dirs))
  {
    hide DeleteOne, Deletable, MayGo, Holds, Between;
    if k > 0 {
      RemovalTouches(d, items, denied, k - 1);
      var (e, hardFailure) := DeleteUpTo(d, items, denied, k - 1);
      ShrunkKeepsDeletable(d, e, items[k - 1]);
      DeleteOneTouches(e, items[k - 1], denied);
      GoesMore(items, k);
    } else {
      assert items[..0] == [];
      NothingHeld();
    }
  }

  lemma {:induction false} NothingHeld()
    ensures forall p :: !Holds([], p) && !MayGo([], p)
  {
  }

  /** The item's path is its own root: an empty directory that nothing keeps from being removed. */
  predicate RemovesItsRoot(d: Disk, item: Resolved, denied: set<FilePath>) {
    item.path == item.root && item.path in d.dirs && item.path !in denied && CanRemove(d, item.path)
  }

  /** Deleting an item removes only directories strictly below its root, exactly unless the item is an empty
      root itself: that one is removed like any other attached path. */
  lemma {:induction false} OnlyAnEmptyRootIsRemoved(d: Disk, item: Resolved, denied: set<FilePath>)
    requires Valid(d) && Deletable(d, item)
    ensures var e := DeleteOne(d, item, denied).0;
            (forall q :: q in d.dirs && q !in e.dirs ==> item.root <= q && q != item.root)
            <==> !RemovesItsRoot(d, item, denied)
  {
    DeleteOneTouches(d, item, denied);
    hide SweepParents;
    var e := DeleteOne(d, item, denied).0;
    assert RemovesItsRoot(d, item, denied) ==> item.root in d.dirs && item.root !in e.dirs;
  }

  lemma {:induction false} EmptyRootItselfIsRemoved(d: Disk, root: FilePath)
    requires Valid(d) && root != [] && root in d.dirs && Children(d, root) == {}
    ensures var item := Resolved(root, root, false);
            && Deletable(d, item)
            && DeleteOne(d, item, {}) == (d.(dirs := d.dirs - {root}), Deleted)
  {
    ExistingIsNotBelowFile(d, root);
    assert SweepParents(Remove(d, root), Parent(root), root, {}) == Remove(d, root);
  }

  /** A configured root directly inside another one is swept like any directory, though it was never attached,
      when the only file in it is deleted under the outer root. */
  lemma {:induction false} NestedRootIsSwept(d: Disk, inner: FilePath, item: Resolved)
    requires Valid(d) && item.path in d.files && Parent(item.path) == inner && Children(d, inner) == {item.path}
    requires inner != [] && Parent(inner) == item.root && item.root != []
    ensures Deletable(d, item.(missing := false))
    ensures inner in d.dirs && inner !in DeleteOne(d, item.(missing := false), {}).0.dirs
  {
    assert item.path[..|item.root|] == inner[..|item.root|] == item.root;
    ExistingIsNotBelowFile(d, item.path);
    RemoveKeepsValid(d, item.path);
    var e := Remove(d, item.path);
    assert e == d.(files := d.files - {item.path}) && item.path !in d.dirs;
    assert forall x :: x in Children(e, inner) ==> x in Children(d, inner) && x != item.path;
    assert Children(e, inner) == {};
    SweepTouches(Remove(e, inner), item.root, item.root, {});
    assert SweepParents(e, inner, item.root, {}) == SweepParents(Remove(e, inner), item.root, item.root, {});
  }

  // ---------- the request ----------

  datatype Status = NotFound | BadRequest | Conflict | ServerError | Success

  /** The effect of a delete request on the disk and on the book's catalog row. */
  function Handle(d: Disk, raws: seq<string>, roots: seq<FilePath>, deleteFiles: bool, denied: set<FilePath>,
                  catalogFails: bool)
    : (r: (Disk, bool, Status))
  {
    if !deleteFiles then (d, !catalogFails, if catalogFails then ServerError else Success)
    else
      var (items, problems) := ItemsUpTo(d, raws, roots, |raws|);
      if roots == [] || problems > 0 then (d, false, BadRequest)
      else
        var (e, hardFailure) := DeleteUpTo(d, items, denied, |items|);
        if hardFailure then (e, false, Conflict)
        else (e, !catalogFails, if catalogFails then ServerError else Success)
  }

  /** The item's path was there at its turn, and the operating system would not remove it: refused outright, a
      directory that still held something, or the root of the file system. */
  predicate RefusedAt(d: Disk, items: seq<Resolved>, denied: set<FilePath>, i: nat)
    requires i < |items|
  {
    var e, p := DeleteUpTo(d, items, denied, i).0, items[i].path;
    && !items[i].missing
    && (p in e.files ==> p in denied)
    && (p !in e.files ==> p in e.dirs && (p in denied || p == [] || Children(e, p) != {}))
  }

  predicate NothingRefused(d: Disk, items: seq<Resolved>, denied: set<FilePath>) {
    forall i :: 0 <= i < |items| ==> !RefusedAt(d, items, denied, i)
  }

  lemma {:induction false} RefusedExactly(d: Disk, items: seq<Resolved>, denied: set<FilePath>, k: nat)
    requires Valid(d) && k <= |items| && forall i :: 0 <= i < |items| ==> Deletable(d, items[i])
    ensures DeleteUpTo(d, items, denied, k).1 <==> exists i :: 0 <= i < k && RefusedAt(d, items, denied, i)
  {
    if k > 0 {
      RefusedExactly(d, items, denied, k - 1);
      RemovalTouches(d, items, denied, k - 1);
      var e := DeleteUpTo(d, items, denied, k - 1).0;
      ShrunkKeepsDeletable(d, e, items[k - 1]);
      RefusedOne(e, items[k - 1], denied);
      hide DeleteOne, Deletable, Children;
      assert RefusedAt(d, items, denied, k - 1) <==> DeleteOne(e, items[k - 1], denied).1 == Refused;
    }
  }

  lemma {:induction false} RefusedOne(e: Disk, item: Resolved, denied: set<FilePath>)
    requires Valid(e) && Deletable(e, item)
    ensures var p := item.path;
            DeleteOne(e, item, denied).1 == Refused <==>
            && !item.missing
            && (p in e.files ==> p in denied)
            && (p !in e.files ==> p in e.dirs && (p in denied || p == [] || Children(e, p) != {}))
  {
  }

  /** Every attached path validates. */
  predicate AllResolve(d: Disk, raws: seq<string>, roots: seq<FilePath>) {
    roots != [] && forall i :: 0 <= i < |raws| ==> ResolvePath(d, raws[i], roots).Ok?
  }

  /** What validation hands to the removal phase. */
  function Items(d: Disk, raws: seq<string>, roots: seq<FilePath>): seq<Resolved> {
    ItemsUpTo(d, raws, roots, |raws|).0
  }

  /** The answer to a request for a book with these paths, and whether its row goes: without file deletion the
      disk stays as it is and the row goes unless the catalog fails; with it, the row goes exactly if moreover
      every path validates and nothing is refused. */
  ghost predicate Answered(d: Disk, raws: seq<string>, roots: seq<FilePath>, deleteFiles: bool, denied: set<FilePath>,
                           catalogFails: bool, e: Disk, dropped: bool, status: Status) {
    var valid := deleteFiles ==> AllResolve(d, raws, roots);
    var removed := deleteFiles ==> NothingRefused(d, Items(d, raws, roots), denied);
    && (!deleteFiles || !valid ==> e == d)
    && (dropped <==> valid && removed && !catalogFails)
    && (status == Success <==> dropped)
    && (status == BadRequest <==> !valid)
    && (status == Conflict <==> valid && !removed)
    && (status == ServerError <==> valid && removed && catalogFails)
    && status != NotFound
  }

  lemma {:induction false} RequestIsAnswered(d: Disk, raws: seq<string>, roots: seq<FilePath>, deleteFiles: bool,
                                             denied: set<FilePath>, catalogFails: bool)
    requires Valid(d)
    ensures var (e, dropped, status) := Handle(d, raws, roots, deleteFiles, denied, catalogFails);
            Answered(d, raws, roots, deleteFiles, denied, catalogFails, e, dropped, status)
  {
    hide Valid, Holds, Deletable, ResolvePath, DeleteUpTo, RefusedAt;
    ItemsMeaning(d, raws, roots, |raws|);
    RefusedExactly(d, Items(d, raws, roots), denied, |Items(d, raws, roots)|);
    hide ItemsUpTo;
  }

  class Library {
    var disk: Disk
    /** The stored paths of each catalogued book's files. */
    var books: map<int, seq<string>>

    constructor (d: Disk, b: map<int, seq<string>>)
      ensures disk == d && books == b
    {
      disk, books := d, b;
    }

    /** removeEmptyLibraryParents */
    method RemoveEmptyParents(path: FilePath, root: FilePath, denied: set<FilePath>)
      modifies this`disk
      ensures disk == SweepParents(old(disk), Parent(path), root, denied)
    {
      var parent := Parent(path);
      while true
        invariant SweepParents(disk, parent, root, denied) == SweepParents(old(disk), Parent(path), root, denied)
        decreases |parent|
      {
        if parent == [] || parent == root || !UnderRoot(parent, root) {
          return;
        }
        if parent in denied || !CanRemove(disk, parent) {
          return;
        }
        disk := Remove(disk, parent);
        parent := Parent(parent);
      }
    }

    /** One turn of deleteResolvedBookFiles. */
    method DeleteItem(item: Resolved, denied: set<FilePath>) returns (outcome: Outcome)
      modifies this`disk
      ensures (disk, outcome) == DeleteOne(old(disk), item, denied)
    {
      if item.missing || Lstat(disk, item.path) == NotExist {
        return AlreadyMissing;
      }
      if item.path in denied || !CanRemove(disk, item.path) {
        return Refused;
      }
      disk := Remove(disk, item.path);
      RemoveEmptyParents(item.path, item.root, denied);
      outcome := Deleted;
    }

    /** deleteResolvedBookFiles */
    method DeleteResolved(items: seq<Resolved>, denied: set<FilePath>)
        returns (outcomes: seq<Outcome>, hardFailure: bool)
      modifies this`disk
      ensures (disk, hardFailure) == DeleteUpTo(old(disk), items, denied, |items|)
      ensures outcomes == OutcomesUpTo(old(disk), items, denied, |items|) && (hardFailure <==> Refused in outcomes)
    {
      hide DeleteOne;
      outcomes, hardFailure := [], false;
      for i := 0 to |items|
        invariant (disk, hardFailure) == DeleteUpTo(old(disk), items, denied, i)
        invariant outcomes == OutcomesUpTo(old(disk), items, denied, i) && (hardFailure <==> Refused in outcomes)
      {
        var outcome := DeleteItem(items[i], denied);
        outcomes := outcomes + [outcome];
        hardFailure := hardFailure || outcome == Refused;
      }
    }

    /** handleV1BookDelete. The catalog row goes last. */
    method DeleteBook(id: int, roots: seq<FilePath>, deleteFiles: bool, denied: set<FilePath>, catalogFails: bool)
      returns (status: Status)
      modifies this
      ensures id !in old(books) ==> status == NotFound && disk == old(disk) && books == old(books)
      ensures id in old(books) ==>
                var (e, dropped, s) := Handle(old(disk), old(books)[id], roots, deleteFiles, denied, catalogFails);
                disk == e && status == s && books == if dropped then old(books) - {id} else old(books)
      ensures id in old(books) && Valid(old(disk)) ==>
                && Answered(old(disk), old(books)[id], roots, deleteFiles, denied, catalogFails, disk, id !in books,
                    status)
                && forall other :: other != id ==>
                     (other in books <==> other in old(books)) && (other in books ==> books[other] == old(books)[other])
      ensures status == NotFound <==> id !in old(books)
    {
      if id in books && Valid(disk) {
        RequestIsAnswered(disk, books[id], roots, deleteFiles, denied, catalogFails);
      }
      hide Answered;
      if id !in books {
        return NotFound;
      }
      if deleteFiles {
        var items, problems := ResolveBookFiles(disk, books[id], roots);
        if roots == [] || problems > 0 {
          return BadRequest;
        }
        var outcomes, hardFailure := DeleteResolved(items, denied);
        if hardFailure {
          return Conflict;
        }
      }
      if catalogFails {
        return ServerError;
      }
      books := books - {id};
      status := Success;
    }
  }

  // ---------- what a request may do ----------

  /** One path that fails validation stops the request before anything changes. */
  lemma {:induction false} InvalidPathChangesNothing(d: Disk, raws: seq<string>, roots: seq<FilePath>,
                                                     denied: set<FilePath>, catalogFails: bool)
    requires Valid(d)
    ensures var r := Handle(d, raws, roots, true, denied, catalogFails);
            r.2 == BadRequest <==> roots == [] || exists i :: 0 <= i < |raws| && ResolvePath(d, raws[i], roots).Err?
    ensures var r := Handle(d, raws, roots, true, denied, catalogFails); r.2 == BadRequest ==> r.0 == d && !r.1
  {
    hide Valid, Holds, Deletable, ResolvePath, DeleteUpTo;
    ItemsMeaning(d, raws, roots, |raws|);
    hide ItemsUpTo;
    if !(exists i :: 0 <= i < |raws| && ResolvePath(d, raws[i], roots).Err?) {
      assert forall i :: 0 <= i < |raws| ==> ResolvePath(d, raws[i], roots).Ok?;
    }
  }

  /** A request with file deletion that drops the catalog row leaves no attached path on the disk. */
  lemma {:induction false} DroppedRowLeavesNoFile(d: Disk, raws: seq<string>, roots: seq<FilePath>,
                                                  denied: set<FilePath>, catalogFails: bool, i: nat)
    requires Valid(d) && i < |raws|
    requires Handle(d, raws, roots, true, denied, catalogFails).1
    ensures !Exists(Handle(d, raws, roots, true, denied, catalogFails).0, PathOf(raws[i]))
  {
    hide ResolvePath, DeleteUpTo, Holds, PathOf, Deletable, Valid, Exists, Shrunk, MayGo;
    ItemsMeaning(d, raws, roots, |raws|);
    var items := ItemsUpTo(d, raws, roots, |raws|).0;
    RemovalTouches(d, items, denied, |items|);
    assert items[..|items|] == items;
    hide ItemsUpTo;
    assert Holds(items, PathOf(raws[i]));
  }

  /** An attached file stands for `p`. */
  ghost predicate Attached(raws: seq<string>, p: FilePath) {
    exists i :: 0 <= i < |raws| && PathOf(raws[i]) == p
  }

  predicate FromPath(d: Disk, raws: seq<string>, roots: seq<FilePath>, k: nat, item: Resolved) {
    exists i :: 0 <= i < k <= |raws| && ResolvePath(d, raws[i], roots) == Ok(item)
  }

  lemma {:induction false} ItemsOrigin(d: Disk, raws: seq<string>, roots: seq<FilePath>, k: nat)
    requires k <= |raws|
    ensures forall i :: 0 <= i < |ItemsUpTo(d, raws, roots, k).0|
              ==> FromPath(d, raws, roots, k, ItemsUpTo(d, raws, roots, k).0[i])
  {
    hide ResolvePath;
    if k > 0 {
      ItemsOrigin(d, raws, roots, k - 1);
      var before := ItemsUpTo(d, raws, roots, k - 1).0;
      var items := ItemsUpTo(d, raws, roots, k).0;
      forall i | 0 <= i < |items|
        ensures FromPath(d, raws, roots, k, items[i])
      {
        if i < |before| {
          assert FromPath(d, raws, roots, k - 1, before[i]);
          var n :| 0 <= n < k - 1 && ResolvePath(d, raws[n], roots) == Ok(before[i]);
          assert ResolvePath(d, raws[n], roots) == Ok(items[i]);
        } else {
          assert ResolvePath(d, raws[k - 1], roots) == Ok(items[i]);
        }
      }
    }
  }

  lemma {:induction false} OriginIsContained(d: Disk, raws: seq<string>, roots: seq<FilePath>, item: Resolved)
    requires Valid(d) && FromPath(d, raws, roots, |raws|, item)
    ensures Attached(raws, item.path) && ContainingRoot(item.path, roots) == Some(item.root)
  {
    hide ResolvePath, PathOf, Deletable, Valid;
    var i :| 0 <= i < |raws| && ResolvePath(d, raws[i], roots) == Ok(item);
    ResolvedIsDeletable(d, raws[i], roots);
  }

  /** `q` lies at or above `p` and strictly below the root that contains `p`. */
  predicate OnTheWay(q: FilePath, p: FilePath, roots: seq<FilePath>) {
    ContainingRoot(p, roots).Some? && Between(q, p, ContainingRoot(p, roots).value)
  }

  /** `q` lies on the way from an attached path up to the root that contains that path. */
  ghost predicate OnSomeWay(raws: seq<string>, roots: seq<FilePath>, q: FilePath) {
    exists i :: 0 <= i < |raws| && OnTheWay(q, PathOf(raws[i]), roots)
  }

  /** `p` is an attached path and itself the configured root it is matched with. */
  ghost predicate IsAttachedRoot(raws: seq<string>, roots: seq<FilePath>, p: FilePath) {
    Attached(raws, p) && ContainingRoot(p, roots) == Some(p)
  }

  ghost predicate FileMayGo(raws: seq<string>, roots: seq<FilePath>, p: FilePath) {
    Attached(raws, p) && ContainingRoot(p, roots).Some?
  }

  ghost predicate NoFileBelow(e: Disk, q: FilePath) {
    forall f :: f in e.files ==> !(q <= f)
  }

  ghost predicate DirMayGo(raws: seq<string>, roots: seq<FilePath>, e: Disk, q: FilePath) {
    NoFileBelow(e, q) && (OnSomeWay(raws, roots, q) || IsAttachedRoot(raws, roots, q))
  }

  /** Every file a request removes is an attached path inside its matched root; every directory it removes
      held no file any more, and lies strictly below the matched root of an attached path at or below it, or
      is itself both an attached path and the root matched with it. */
  lemma {:induction false} RemovedIsContained(d: Disk, raws: seq<string>, roots: seq<FilePath>, deleteFiles: bool,
                                              denied: set<FilePath>, catalogFails: bool)
    requires Valid(d)
    ensures var e := Handle(d, raws, roots, deleteFiles, denied, catalogFails).0;
            && Shrunk(d, e)
            && (forall p :: p in d.files && p !in e.files ==> FileMayGo(raws, roots, p))
            && (forall q :: q in d.dirs && q !in e.dirs ==> DirMayGo(raws, roots, e, q))
  {
    hide DeleteUpTo, ItemsUpTo, Valid, Shrunk, MayGo, Holds, Deletable, Attached, FromPath, ResolvePath, DirMayGo;
    var (items, problems) := ItemsUpTo(d, raws, roots, |raws|);
    var e := Handle(d, raws, roots, deleteFiles, denied, catalogFails).0;
    if e == d {
      assert Shrunk(d, d) by { ShrunkSame(d); }
    } else {
      ItemsMeaning(d, raws, roots, |raws|);
      RemovalTouches(d, items, denied, |items|);
      assert items[..|items|] == items;
      ItemsOrigin(d, raws, roots, |raws|);
      RemovedItemsAreContained(d, e, raws, roots, items);
    }
  }

  lemma {:induction false} MatchedRootIsNotOnTheWay(raws: seq<string>, roots: seq<FilePath>, q: FilePath)
    requires ContainingRoot(q, roots) == Some(q)
    ensures !OnSomeWay(raws, roots, q)
  {
    forall i | 0 <= i < |raws|
      ensures !OnTheWay(q, PathOf(raws[i]), roots)
    {
      MatchedIsInnermostOnWay(q, PathOf(raws[i]), roots);
    }
  }

  /** A root matched with itself comes before all roots above it, so nothing below it is matched above it. */
  lemma {:induction false} MatchedIsInnermostOnWay(q: FilePath, p: FilePath, roots: seq<FilePath>)
    requires ContainingRoot(q, roots) == Some(q)
    ensures !OnTheWay(q, p, roots)
  {
    if q <= p && roots != [] && !UnderRoot(q, roots[0]) && !UnderRoot(p, roots[0]) {
      MatchedIsInnermostOnWay(q, p, roots[1..]);
    }
  }

  /** All removed directories lie strictly below the matched root of an attached path, exactly if no attached
      path that is a root itself is removed; in particular if no attached path is a root. */
  lemma {:induction false} RemovedDirsAreBelowTheirRoots(d: Disk, raws: seq<string>, roots: seq<FilePath>,
                                                         deleteFiles: bool, denied: set<FilePath>, catalogFails: bool)
    requires Valid(d)
    ensures var e := Handle(d, raws, roots, deleteFiles, denied, catalogFails).0;
            (forall q :: q in d.dirs && q !in e.dirs ==> OnSomeWay(raws, roots, q))
            <==> forall q :: q in d.dirs && q !in e.dirs ==> !IsAttachedRoot(raws, roots, q)
    ensures var e := Handle(d, raws, roots, deleteFiles, denied, catalogFails).0;
            (forall p :: Attached(raws, p) ==> p !in roots)
            ==> forall q :: q in d.dirs && q !in e.dirs ==> OnSomeWay(raws, roots, q)
  {
    hide Handle, Attached, OnSomeWay, Shrunk, NoFileBelow;
    RemovedIsContained(d, raws, roots, deleteFiles, denied, catalogFails);
    var e := Handle(d, raws, roots, deleteFiles, denied, catalogFails).0;
    forall q | q in d.dirs && q !in e.dirs
      ensures OnSomeWay(raws, roots, q) <==> !IsAttachedRoot(raws, roots, q)
    {
      assert DirMayGo(raws, roots, e, q);
      if IsAttachedRoot(raws, roots, q) {
        MatchedRootIsNotOnTheWay(raws, roots, q);
      }
    }
  }

  /** The stored text of a clean path resolves to that path under its matched root. */
  lemma {:induction false} PrintedPathResolves(d: Disk, p: FilePath, roots: seq<FilePath>)
    requires Valid(d) && Exists(d, p) && IsClean(Path(true, p)) && ContainingRoot(p, roots).Some?
    requires var text := Show(Path(true, p)); TrimSpace(text) == text && NUL !in text
    ensures ResolvePath(d, Show(Path(true, p)), roots) == Ok(Resolved(p, ContainingRoot(p, roots).value, false))
    ensures PathOf(Show(Path(true, p))) == p
  {
    ParseShow(Path(true, p));
    ShowNotEmpty(Path(true, p));
    hide TrimSpace, Show, Parse, IsClean;
    ExistingIsNotBelowFile(d, p);
  }

  /** A request for a book whose one path is an empty configured root, printed: it succeeds and takes the root. */
  lemma {:induction false} EmptyRootRequestRemovesRoot(d: Disk, root: FilePath, roots: seq<FilePath>)
    requires Valid(d) && root != [] && root in d.dirs && Children(d, root) == {}
    requires IsClean(Path(true, root)) && ContainingRoot(root, roots) == Some(root)
    requires var text := Show(Path(true, root)); TrimSpace(text) == text && NUL !in text
    ensures Handle(d, [Show(Path(true, root))], roots, true, {}, false) == (d.(dirs := d.dirs - {root}), true, Success)
  {
    PrintedPathResolves(d, root, roots);
    EmptyRootItselfIsRemoved(d, root);
    hide ResolvePath, DeleteOne, Show, TrimSpace, IsClean;
    var raws, item := [Show(Path(true, root))], Resolved(root, root, false);
    assert ItemsUpTo(d, raws, roots, 0) == ([], 0);
    assert !Holds([], root);
    assert [] + [item] == [item] && raws[0] == Show(Path(true, root));
    assert ItemsUpTo(d, raws, roots, 1) == ([item], 0);
    assert DeleteUpTo(d, [item], {}, 0) == (d, false);
    assert DeleteUpTo(d, [item], {}, 1) == (d.(dirs := d.dirs - {root}), false);
  }

  lemma {:induction false} ShrunkSame(d: Disk)
    requires Valid(d)
    ensures Shrunk(d, d)
  {
  }

  lemma {:induction false} RemovedItemsAreContained(d: Disk, e: Disk, raws: seq<string>, roots: seq<FilePath>,
                                                    items: seq<Resolved>)
    requires Valid(d) && Shrunk(d, e)
    requires forall i :: 0 <= i < |items| ==> FromPath(d, raws, roots, |raws|, items[i])
    requires forall p :: p in d.files && p !in e.files ==> Holds(items, p)
    requires forall q :: q in d.dirs && q !in e.dirs ==> MayGo(items, q)
    ensures forall p :: p in d.files && p !in e.files ==> FileMayGo(raws, roots, p)
    ensures forall q :: q in d.dirs && q !in e.dirs ==> DirMayGo(raws, roots, e, q)
  {
    hide FromPath, Attached, Valid, OnSomeWay, NoFileBelow, Shrunk;
    forall p | p in d.files && p !in e.files
      ensures FileMayGo(raws, roots, p)
    {
      var i :| 0 <= i < |items| && items[i].path == p;
      OriginIsContained(d, raws, roots, items[i]);
    }
    forall q | q in d.dirs && q !in e.dirs
      ensures DirMayGo(raws, roots, e, q)
    {
      NothingIsLeftBelow(d, e, q);
      var i :| 0 <= i < |items| && (q == items[i].path || Between(q, items[i].path, items[i].root));
      OriginIsContained(d, raws, roots, items[i]);
      GoneByItem(raws, roots, items[i], q);
    }
  }

  lemma {:induction false} NothingIsLeftBelow(d: Disk, e: Disk, q: FilePath)
    requires Valid(d) && Shrunk(d, e) && q in d.dirs && q !in e.dirs
    ensures NoFileBelow(e, q)
  {
    forall f | f in e.files
      ensures !(q <= f)
    {
      GoneHoldsNoFile(d, e, q, f);
    }
  }

  lemma {:induction false} GoneByItem(raws: seq<string>, roots: seq<FilePath>, item: Resolved, q: FilePath)
    requires Attached(raws, item.path) && ContainingRoot(item.path, roots) == Some(item.root)
    requires q == item.path || Between(q, item.path, item.root)
    ensures OnSomeWay(raws, roots, q) || IsAttachedRoot(raws, roots, q)
  {
    var i :| 0 <= i < |raws| && PathOf(raws[i]) == item.path;
    assert UnderRoot(item.path, item.root);
    assert Between(q, item.path, item.root) ==> OnTheWay(q, PathOf(raws[i]), roots);
  }

  lemma {:induction false} GoneHoldsNoFile(d: Disk, e: Disk, q: FilePath, f: FilePath)
    requires Valid(d) && Shrunk(d, e) && q in d.dirs && q !in e.dirs && f in e.files
    ensures !(q <= f)
  {
    if q <= f {
      assert f[..|q|] == q && f[..|f|] == f;
      AncestorsAreDirs(e, f, |q|);
    }
  }
}
