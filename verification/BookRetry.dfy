/** internal/api/books_v1_delete.go: when a request to delete a book's files succeeds, and when one that was
    refused can be retried, as its conflict message promises. */
module BookRetry {
  import opened Text
  import opened Wrappers
  import opened Paths
  import opened Disk
  import opened BookDelete

  /** `x` lies strictly below `p`. */
  predicate Below(p: FilePath, x: FilePath) {
    p <= x && p != x
  }

  /** One of the first `k` items exists and lies at or below `x`: removing it may take `x` along. */
  predicate LedAway(d: Disk, items: seq<Resolved>, k: nat, x: FilePath)
    requires k <= |items|
  {
    exists j :: 0 <= j < k && Exists(d, items[j].path) && x <= items[j].path
  }

  /** The item is not the root of the file system, and if it is a directory, whatever lies in it is an earlier
      item or leads to one. */
  ghost predicate ContentsGoFirst(d: Disk, items: seq<Resolved>, i: nat)
    requires i < |items|
  {
    && items[i].path != []
    && (items[i].path in d.dirs ==> forall x :: Exists(d, x) && Below(items[i].path, x) ==> LedAway(d, items, i, x))
  }

  /** The root of no item lies strictly inside another item that is a directory. */
  predicate NoInnerRoot(d: Disk, items: seq<Resolved>, i: nat)
    requires i < |items|
  {
    items[i].path in d.dirs ==>
      forall j :: 0 <= j < |items| && Below(items[i].path, items[j].path) ==> !Below(items[i].path, items[j].root)
  }

  ghost predicate AllDeletable(d: Disk, items: seq<Resolved>) {
    Valid(d) && forall i :: 0 <= i < |items| ==> Deletable(d, items[i])
  }

  // ---------- what lies below a path ----------

  lemma {:induction false} ChildOnTheWay(d: Disk, p: FilePath, x: FilePath)
    requires Valid(d) && Exists(d, x) && Below(p, x)
    ensures x[..|p| + 1] in Children(d, p) && p in d.dirs
  {
    var c := x[..|p| + 1];
    assert Parent(c) == p && x[..|x|] == x && x[..|p|] == p;
    AncestorsAreDirs(d, x, |p|);
    if |c| < |x| {
      AncestorsAreDirs(d, x, |c|);
    }
  }

  function Inside(d: Disk, p: FilePath): set<FilePath> {
    set x | x in d.files.Keys + d.dirs && Below(p, x)
  }

  /** Something below a busy directory has nothing below it. */
  lemma {:induction false} Leaf(d: Disk, p: FilePath) returns (x: FilePath)
    requires Valid(d) && Children(d, p) != {}
    ensures Exists(d, x) && Below(p, x) && Children(d, x) == {}
    decreases |Inside(d, p)|
  {
    var c :| c in Children(d, p);
    assert Below(p, c) && c[..|p|] == p;
    if Children(d, c) == {} {
      x := c;
    } else {
      assert Inside(d, c) < Inside(d, p) by {
        assert c in Inside(d, p) && c !in Inside(d, c);
      }
      SubsetIsSmaller(Inside(d, c), Inside(d, p));
      x := Leaf(d, c);
    }
  }

  lemma {:induction false} SubsetIsSmaller(a: set<FilePath>, b: set<FilePath>)
    requires a < b
    ensures |a| < |b|
  {
    assert |b| == |a| + |b - a| by {
      assert b == a + (b - a);
    }
    assert b - a != {};
  }

  lemma {:induction false} BelowFurther(x: FilePath, c: FilePath, q: FilePath)
    ensures Below(x, c) && c <= q ==> Below(x, q)
  {
    if Below(x, c) && c <= q {
      assert q[..|x|] == c[..|x|] == x;
    }
  }

  // ---------- what one item does ----------

  /** A sweep stops below its root only at a directory that is not empty. */
  lemma {:induction false} SweepLeavesNoneIdle(d: Disk, dir: FilePath, root: FilePath, x: FilePath)
    requires Valid(d) && dir in d.dirs && root != [] && Below(root, x) && x <= dir
    requires x in SweepParents(d, dir, root, {}).dirs
    ensures Children(SweepParents(d, dir, root, {}), x) != {}
    decreases |dir|
  {
    assert root <= dir && dir != root && dir != [] by {
      assert dir[..|root|] == x[..|root|] == root;
    }
    if CanRemove(d, dir) {
      RemoveKeepsValid(d, dir);
      SweepTouches(Remove(d, dir), Parent(dir), root, {});
      assert x != dir;
      assert Parent(dir)[..|x|] == dir[..|x|] == x;
      SweepLeavesNoneIdle(Remove(d, dir), Parent(dir), root, x);
    } else if x != dir {
      ChildOnTheWay(d, x, dir);
    }
  }

  /** After an existing item has been dealt with, no directory above it and strictly below its root is left empty. */
  lemma {:induction false} DeleteOneLeavesNoneIdle(d: Disk, item: Resolved, x: FilePath)
    requires Valid(d) && Deletable(d, item) && Exists(d, item.path) && Below(item.root, x) && Below(x, item.path)
    requires x in DeleteOne(d, item, {}).0.dirs
    ensures Children(DeleteOne(d, item, {}).0, x) != {}
  {
    var p := item.path;
    DeleteOneTouches(d, item, {});
    if CanRemove(d, p) {
      RemoveKeepsValid(d, p);
      hide CanRemove, Children;
      assert Parent(p) in d.dirs && Parent(p)[..|x|] == p[..|x|] == x;
      assert Parent(p) in Remove(d, p).dirs;
      SweepLeavesNoneIdle(Remove(d, p), Parent(p), item.root, x);
    } else {
      ChildOnTheWay(d, x, p);
    }
  }

  /** A directory that is not above the item keeps what is in it. */
  lemma {:induction false} DeleteOneKeepsOthers(d: Disk, item: Resolved, x: FilePath)
    requires Valid(d) && Deletable(d, item) && !Below(x, item.path) && Children(d, x) != {}
    ensures Children(DeleteOne(d, item, {}).0, x) != {}
  {
    DeleteOneTouches(d, item, {});
    hide DeleteOne;
    var c :| c in Children(d, x);
    assert Below(x, c) && c[..|x|] == x;
    BelowFurther(x, c, item.path);
    assert c in Children(DeleteOne(d, item, {}).0, x);
  }

  // ---------- what a row of items does ----------

  /** Whatever disappears lies at or above an item that existed. */
  lemma {:induction false} GoneIsLedAway(d: Disk, items: seq<Resolved>, k: nat, x: FilePath)
    requires AllDeletable(d, items) && k <= |items| && Exists(d, x)
    ensures Shrunk(d, DeleteUpTo(d, items, {}, k).0)
    ensures !Exists(DeleteUpTo(d, items, {}, k).0, x) ==> LedAway(d, items, k, x)
  {
    RemovalTouches(d, items, {}, k);
    if k > 0 {
      GoneIsLedAway(d, items, k - 1, x);
      var e, item := DeleteUpTo(d, items, {}, k - 1).0, items[k - 1];
      ShrunkKeepsDeletable(d, e, item);
      DeleteOneTouches(e, item, {});
      hide DeleteOne, Deletable;
      if Exists(e, x) && !Exists(DeleteOne(e, item, {}).0, x) {
        assert Exists(e, item.path) by { AbsentItemChangesNothing(e, item); }
        assert x <= item.path;
      }
    }
  }

  lemma {:induction false} AbsentItemChangesNothing(d: Disk, item: Resolved)
    ensures !Exists(d, item.path) ==> DeleteOne(d, item, {}).0 == d
  {
  }

  /** Below the directory `p` an item's sweep leaves no empty directory on its way. */
  ghost predicate NoneIdle(d: Disk, e: Disk, items: seq<Resolved>, k: nat, p: FilePath)
    requires k <= |items|
  {
    forall x :: x in e.dirs && Below(p, x) && PassedBy(d, items, k, x) ==> Children(e, x) != {}
  }

  predicate PassedBy(d: Disk, items: seq<Resolved>, k: nat, x: FilePath)
    requires k <= |items|
  {
    exists j :: 0 <= j < k && Exists(d, items[j].path) && Below(x, items[j].path)
  }

  lemma {:induction false} PassedBefore(d: Disk, e: Disk, items: seq<Resolved>, k: nat, x: FilePath)
    requires AllDeletable(d, items) && k < |items| && e == DeleteUpTo(d, items, {}, k).0
    requires PassedBy(d, items, k + 1, x) && !(Exists(e, items[k].path) && Below(x, items[k].path))
    ensures PassedBy(d, items, k, x)
  {
    var j :| 0 <= j < k + 1 && Exists(d, items[j].path) && Below(x, items[j].path);
    if j == k {
      GoneIsLedAway(d, items, k, items[k].path);
      var t :| 0 <= t < k && Exists(d, items[t].path) && items[k].path <= items[t].path;
      assert items[t].path[..|x|] == items[k].path[..|x|] == x;
    }
  }

  lemma {:induction false} RootIsAbove(items: seq<Resolved>, d: Disk, i: nat, k: nat, x: FilePath)
    requires i < |items| && k < |items| && items[i].path in d.dirs && NoInnerRoot(d, items, i)
    requires UnderRoot(items[k].path, items[k].root)
    requires Below(items[i].path, x) && Below(x, items[k].path)
    ensures items[k].root != [] ==> Below(items[k].root, x)
    ensures items[k].root != []
  {
    var p, q, r := items[i].path, items[k].path, items[k].root;
    assert q[..|p|] == x[..|p|] == p;
    PrefixesCompare(p, r, q);
    assert r <= p;
    assert x[..|r|] == p[..|r|] == r;
  }

  lemma {:induction false} PrefixesCompare(a: FilePath, b: FilePath, q: FilePath)
    requires a <= q && b <= q
    ensures a <= b || b <= a
  {
    assert a == q[..|a|] && b == q[..|b|];
  }

  lemma {:induction false} StaysBusy(d: Disk, items: seq<Resolved>, k: nat, i: nat)
    requires AllDeletable(d, items) && k <= |items| && i < |items| && items[i].path in d.dirs
              && NoInnerRoot(d, items, i)
    ensures NoneIdle(d, DeleteUpTo(d, items, {}, k).0, items, k, items[i].path)
  {
    if k > 0 {
      StaysBusy(d, items, k - 1, i);
      var p, item := items[i].path, items[k - 1];
      var e := DeleteUpTo(d, items, {}, k - 1).0;
      RemovalTouches(d, items, {}, k - 1);
      ShrunkKeepsDeletable(d, e, item);
      DeleteOneTouches(e, item, {});
      hide DeleteOne, Children, NoInnerRoot, Deletable;
      var e' := DeleteOne(e, item, {}).0;
      forall x | x in e'.dirs && Below(p, x) && PassedBy(d, items, k, x)
        ensures Children(e', x) != {}
      {
        if Exists(e, item.path) && Below(x, item.path) {
          assert UnderRoot(item.path, item.root) by { DeletableIsUnderRoot(d, item); }
          RootIsAbove(items, d, i, k - 1, x);
          DeleteOneLeavesNoneIdle(e, item, x);
        } else {
          PassedBefore(d, e, items, k - 1, x);
          if Below(x, item.path) {
            AbsentItemChangesNothing(e, item);
          } else {
            DeleteOneKeepsOthers(e, item, x);
          }
        }
      }
    }
  }

  lemma {:induction false} DeletableIsUnderRoot(d: Disk, item: Resolved)
    requires Deletable(d, item)
    ensures UnderRoot(item.path, item.root)
  {
  }

  // ---------- exactly when nothing is refused ----------

  /** When nothing was refused so far, what an earlier item leads to is gone or not empty. */
  lemma {:induction false} BusyWhenLedAway(d: Disk, items: seq<Resolved>, k: nat, x: FilePath)
    requires AllDeletable(d, items) && k < |items| && !DeleteUpTo(d, items, {}, k).1
    requires items[k].path in d.dirs && NoInnerRoot(d, items, k)
    requires Exists(DeleteUpTo(d, items, {}, k).0, x) && Below(items[k].path, x) && LedAway(d, items, k, x)
    ensures Children(DeleteUpTo(d, items, {}, k).0, x) != {}
  {
    RemovalTouches(d, items, {}, k);
    StaysBusy(d, items, k, k);
    hide Children, DeleteUpTo, DeleteOne, NoInnerRoot, Deletable;
    var j :| 0 <= j < k && Exists(d, items[j].path) && x <= items[j].path;
    assert items[..k][j] == items[j];
    assert Holds(items[..k], items[j].path);
    assert Below(x, items[j].path);
    assert x in d.dirs by {
      assert items[j].path[..|x|] == x;
      AncestorsAreDirs(d, items[j].path, |x|);
    }
    assert PassedBy(d, items, k, x);
  }

  /** An item whose contents go first can be removed at its turn. */
  lemma {:induction false} TurnSucceeds(d: Disk, items: seq<Resolved>, k: nat)
    requires AllDeletable(d, items) && k < |items| && !DeleteUpTo(d, items, {}, k).1
    requires ContentsGoFirst(d, items, k) && NoInnerRoot(d, items, k)
    ensures !DeleteUpTo(d, items, {}, k + 1).1
  {
    var p := items[k].path;
    var e := DeleteUpTo(d, items, {}, k).0;
    RemovalTouches(d, items, {}, k);
    ShrunkKeepsDeletable(d, e, items[k]);
    if p in e.dirs && Children(e, p) != {} {
      var x := Leaf(e, p);
      hide Children, DeleteOne, NoInnerRoot, Deletable;
      BusyWhenLedAway(d, items, k, x);
    } else {
      NotRefused(e, items[k]);
    }
  }

  lemma {:induction false} NotRefused(e: Disk, item: Resolved)
    requires Valid(e) && Deletable(e, item) && item.path != [] && (item.path in e.dirs ==> Children(e, item.path) == {})
    ensures DeleteOne(e, item, {}).1 != Refused
  {
  }

  /** An item that is not refused has lost everything below it by its turn. */
  lemma {:induction false} TurnNeedsContentsGone(d: Disk, items: seq<Resolved>, k: nat)
    requires AllDeletable(d, items) && k < |items| && !DeleteUpTo(d, items, {}, k + 1).1
    ensures ContentsGoFirst(d, items, k)
  {
    var p := items[k].path;
    var e := DeleteUpTo(d, items, {}, k).0;
    RemovalTouches(d, items, {}, k);
    hide DeleteUpTo;
    if p in d.dirs {
      forall x | Exists(d, x) && Below(p, x)
        ensures LedAway(d, items, k, x)
      {
        if Exists(e, x) {
          ChildOnTheWay(e, p, x);
        }
        GoneIsLedAway(d, items, k, x);
      }
    }
  }

  /** Which items, taken in order, can all be removed when the operating system refuses nothing of itself. */
  ghost predicate AllContentsGoFirst(d: Disk, items: seq<Resolved>, k: nat)
    requires k <= |items|
  {
    forall i :: 0 <= i < k ==> ContentsGoFirst(d, items, i)
  }

  predicate NoInnerRoots(d: Disk, items: seq<Resolved>) {
    forall i :: 0 <= i < |items| ==> NoInnerRoot(d, items, i)
  }

  lemma {:induction false} NeverRefused(d: Disk, items: seq<Resolved>, k: nat)
    requires AllDeletable(d, items) && k <= |items|
    ensures !DeleteUpTo(d, items, {}, k).1 ==> AllContentsGoFirst(d, items, k)
    ensures AllContentsGoFirst(d, items, k) && NoInnerRoots(d, items) ==> !DeleteUpTo(d, items, {}, k).1
  {
    hide ContentsGoFirst, NoInnerRoot, DeleteOne, AllDeletable;
    if k > 0 {
      NeverRefused(d, items, k - 1);
      if !DeleteUpTo(d, items, {}, k).1 {
        TurnNeedsContentsGone(d, items, k - 1);
      }
      if AllContentsGoFirst(d, items, k) && NoInnerRoots(d, items) {
        assert AllContentsGoFirst(d, items, k - 1);
        TurnSucceeds(d, items, k - 1);
      }
    }
  }

  // ---------- the request ----------

  /** Every path validates, and the items' contents go before them. */
  ghost predicate CanSucceed(d: Disk, raws: seq<string>, roots: seq<FilePath>) {
    && roots != [] && (forall i :: 0 <= i < |raws| ==> ResolvePath(d, raws[i], roots).Ok?)
    && AllContentsGoFirst(d, Items(d, raws, roots), |Items(d, raws, roots)|)
  }

  /** A request that meets no refusal of the operating system itself succeeds only if every path validates and
      every attached directory's contents go first; this suffices unless a configured root with attached paths
      in it lies strictly inside an attached directory. */
  lemma {:induction false} RequestSucceedsExactly(d: Disk, raws: seq<string>, roots: seq<FilePath>)
    requires Valid(d)
    ensures Handle(d, raws, roots, true, {}, false).2 == Success ==> CanSucceed(d, raws, roots)
    ensures CanSucceed(d, raws, roots) && NoInnerRoots(d, Items(d, raws, roots)) ==>
              Handle(d, raws, roots, true, {}, false).2 == Success && Handle(d, raws, roots, true, {}, false).1
  {
    hide ItemsUpTo, DeleteUpTo, ResolvePath, AllContentsGoFirst, NoInnerRoots, Deletable;
    ItemsMeaning(d, raws, roots, |raws|);
    NeverRefused(d, Items(d, raws, roots), |Items(d, raws, roots)|);
  }

  // ---------- retrying ----------

  lemma {:induction false} ShrunkKeepsResolving(d: Disk, e: Disk, raw: string, roots: seq<FilePath>)
    requires Valid(d) && Shrunk(d, e) && ResolvePath(d, raw, roots).Ok?
    ensures ResolvePath(e, raw, roots).Ok?
  {
    ResolvedIsDeletable(d, raw, roots);
  }

  /** After an attempt that was refused something, an attempt that is refused nothing succeeds only if what lies
      in each attached directory goes before it, and this suffices unless a root with attached paths lies
      strictly inside an attached directory. The condition is about the disk the first attempt left. */
  lemma {:induction false} DeletionCanBeRetried(d: Disk, raws: seq<string>, roots: seq<FilePath>, denied: set<FilePath>)
    requires Valid(d) && Handle(d, raws, roots, true, denied, false).2 == Conflict
    ensures var e := Handle(d, raws, roots, true, denied, false).0;
            var items, again := Items(e, raws, roots), Handle(e, raws, roots, true, {}, false);
            && (again.2 == Success || again.2 == Conflict)
            && (again.2 == Success ==> AllContentsGoFirst(e, items, |items|))
            && (AllContentsGoFirst(e, items, |items|) && NoInnerRoots(e, items) ==> again.2 == Success && again.1)
  {
    hide ResolvePath, DeleteUpTo, ItemsUpTo, Valid, Shrunk, FileMayGo, DirMayGo, AllContentsGoFirst, NoInnerRoots,
        Deletable;
    var e := Handle(d, raws, roots, true, denied, false).0;
    RemovedIsContained(d, raws, roots, true, denied, false);
    StillValidates(d, e, raws, roots);
    assert Valid(e) by { ShrunkFacts(d, e); }
    ItemsMeaning(e, raws, roots, |raws|);
    RequestSucceedsExactly(e, raws, roots);
  }

  /** In particular it succeeds if no attached path is a directory. */
  lemma {:induction false} AttachedFilesCanBeRetried(d: Disk, raws: seq<string>, roots: seq<FilePath>,
                                                     denied: set<FilePath>)
    requires Valid(d)
    requires Handle(d, raws, roots, true, denied, false).2 == Conflict
    requires forall p :: Attached(raws, p) ==> p !in d.dirs
    ensures var e := Handle(d, raws, roots, true, denied, false).0;
            Handle(e, raws, roots, true, {}, false).2 == Success && Handle(e, raws, roots, true, {}, false).1
  {
    hide ResolvePath, DeleteUpTo, ItemsUpTo, Attached, Valid, Shrunk, Deletable, Holds, MayGo;
    var e := Handle(d, raws, roots, true, denied, false).0;
    RemovedIsContained(d, raws, roots, true, denied, false);
    StillValidates(d, e, raws, roots);
    assert Valid(e) && e.dirs <= d.dirs by { ShrunkFacts(d, e); }
    RetriedItems(e, raws, roots, d.dirs);
    var items := ItemsUpTo(e, raws, roots, |raws|).0;
    ItemsMeaning(e, raws, roots, |raws|);
    RemovalTouches(e, items, {}, |items|);
    assert items[..|items|] == items;
  }

  lemma {:induction false} ShrunkFacts(d: Disk, e: Disk)
    requires Shrunk(d, e)
    ensures Valid(e) && e.dirs <= d.dirs
  {
  }

  lemma {:induction false} StillValidates(d: Disk, e: Disk, raws: seq<string>, roots: seq<FilePath>)
    requires Valid(d) && Shrunk(d, e) && ItemsUpTo(d, raws, roots, |raws|).1 == 0
    ensures ItemsUpTo(e, raws, roots, |raws|).1 == 0
  {
    hide ResolvePath, Deletable, Valid, Holds;
    ItemsMeaning(d, raws, roots, |raws|);
    assert Valid(e) by { ShrunkFacts(d, e); }
    hide Shrunk, ItemsUpTo;
    forall i | 0 <= i < |raws|
      ensures ResolvePath(e, raws[i], roots).Ok?
    {
      ShrunkKeepsResolving(d, e, raws[i], roots);
    }
    ItemsMeaning(e, raws, roots, |raws|);
  }

  lemma {:induction false} RetriedItems(e: Disk, raws: seq<string>, roots: seq<FilePath>, dirs: set<FilePath>)
    requires Valid(e) && forall p :: Attached(raws, p) ==> p !in dirs
    ensures forall p :: Holds(ItemsUpTo(e, raws, roots, |raws|).0, p) ==> p !in dirs
  {
    hide Valid, FromPath, Attached;
    ItemsOrigin(e, raws, roots, |raws|);
    var items := ItemsUpTo(e, raws, roots, |raws|).0;
    hide ItemsUpTo;
    forall p | Holds(items, p)
      ensures p !in dirs
    {
      var i :| 0 <= i < |items| && items[i].path == p;
      OriginIsContained(e, raws, roots, items[i]);
    }
  }
}
