/** internal/api/library_repairs_v1.go, the planner: what each status of a planned entry means on the disk, and
    which entries a plan has. */
module RepairStatus {
  import opened Text
  import opened Wrappers
  import opened Paths
  import opened Disk
  import opened RepairPlan

  /** The elements below the legacy root; they are also those of the destination below the root. */
  function Remainder(src: FilePath, root: FilePath): FilePath {
    if |root| < |src| then src[|root| + 1..] else []
  }

  /** The source may not be the legacy root, nor its destination lie in the legacy root again. */
  predicate Misplaced(src: FilePath, root: FilePath)
    requires root != []
  {
    var rest := Remainder(src, root);
    rest == [] || rest[0] == root[|root| - 1]
  }

  /** Two files of equal length and equal SHA-256, which is the catalogued one if there is one. */
  predicate Identical(d: Disk, src: FilePath, dst: FilePath, catalogued: string, sha: Content -> string) {
    && src in d.files && dst in d.files && |d.files[src]| == |d.files[dst]|
    && sha(d.files[src]) == sha(d.files[dst])
    && (catalogued == "" || ToLower(sha(d.files[src])) == ToLower(catalogued))
  }

  /** A record's entry. */
  predicate IsEntryOf(w: World, id: int, root: FilePath, sha: Content -> string, e: Entry)
    requires root != []
  {
    id in w.catalog && BuildEntry(w.disk, id, w.catalog[id], root, sha) == Some(e)
  }

  /** A record has an entry exactly if its path is absolute and lies in the legacy root; the entry moves the
      file from there to the same place below the root. */
  lemma {:induction false} EntryMirrors(w: World, id: int, root: FilePath, sha: Content -> string)
    requires root != [] && id in w.catalog
    ensures var p := w.catalog[id].path;
            BuildEntry(w.disk, id, w.catalog[id], root, sha).Some?
            <==> p.rooted && root + [root[|root| - 1]] <= p.segs
    ensures forall e :: IsEntryOf(w, id, root, sha, e) ==>
              && e.fileId == id && |root| < |e.src| && w.catalog[id].path == Path(true, e.src)
              && e.src == root + [root[|root| - 1]] + Remainder(e.src, root)
              && e.dst == root + Remainder(e.src, root)
  {
    hide Classify;
    forall e | IsEntryOf(w, id, root, sha, e)
      ensures e.src == root + [root[|root| - 1]] + Remainder(e.src, root)
    {
      assert LegacyRoot(root) <= e.src;
    }
  }

  /** Paths as strings: the legacy root is the root joined with its own name, and the destination is the root
      joined with the source's path relative to the legacy root. */
  lemma {:induction false} PrintedMirror(root: FilePath, rest: FilePath)
    requires root != [] && rest != [] && IsClean(Path(true, LegacyRoot(root) + rest)) && IsClean(Path(true, root))
    requires IsClean(Path(true, LegacyRoot(root))) && IsClean(Path(true, root + rest))
    ensures var shownRoot, src := Show(Path(true, root)), LegacyRoot(root) + rest;
            var legacy := Join(shownRoot, root[|root| - 1]);
            && legacy == Show(Path(true, LegacyRoot(root)))
            && Rel(legacy, Show(Path(true, src))) == Some(JoinSegs(rest))
            && Join(shownRoot, JoinSegs(rest)) == Show(Path(true, Destination(src, root)))
  {
    var base := [root[|root| - 1]];
    assert JoinSegs(base) == root[|root| - 1];
    assert LegacyRoot(root) == root + base;
    JoinExtends(Path(true, root), base);
    JoinExtends(Path(true, root), rest);
    var legacy, src := Path(true, LegacyRoot(root)), Path(true, LegacyRoot(root) + rest);
    assert src.segs[|legacy.segs|..] == rest;
    assert src.segs[|legacy.segs|] == rest[0];
    hide Show, Rel, Join, JoinSegs, Parse, Clean;
    WithinBelow(legacy, src);
    RelInside(legacy, src);
  }

  lemma {:induction false} WithinBelow(b: Path, t: Path)
    requires t.rooted && b.rooted && IsClean(t) && b.segs <= t.segs && b != t
    ensures Within(t, b)
  {
  }

  lemma {:induction false} RootIsDir(d: Disk, p: FilePath, root: FilePath)
    requires Valid(d) && Exists(d, p) && root <= p && root != p
    ensures root in d.dirs
  {
    assert p[..|root|] == root && p[..|p|] == p;
    AncestorsAreDirs(d, p, |root|);
  }

  /** Where the destination's parent directories may be made: nowhere in their way is a regular file. */
  lemma {:induction false} ParentIsUsable(d: Disk, root: FilePath, rest: FilePath)
    requires Valid(d) && root in d.dirs && rest != []
    ensures DestinationParentOk(d, Parent(root + rest), root) <==> !BelowFile(d, root + rest)
  {
    var dst := root + rest;
    var up := Parent(dst);
    assert up == dst[..|dst| - 1] && up[..|up|] == up && root <= up by {
      assert up == root + rest[..|rest| - 1];
    }
    assert forall k :: 0 <= k < |up| ==> up[..k] == dst[..k];
    if !BelowFile(d, dst) {
      ParentOkWhenClear(d, up, root);
    }
    if DestinationParentOk(d, up, root) {
      GoodParentIsNotBelowFile(d, up, root);
      forall k | 0 <= k < |dst|
        ensures dst[..k] !in d.files
      {
        assert k < |up| ==> up[..k] == dst[..k];
      }
    }
  }

  /** The ancestor of k elements is a directory in the root, and nothing exists from there down to the path. */
  ghost predicate UsableFrom(d: Disk, parent: FilePath, root: FilePath, k: nat)
    requires k <= |parent|
  {
    parent[..k] in d.dirs && root <= parent[..k] && forall j :: k < j <= |parent| ==> !Exists(d, parent[..j])
  }

  /** The test on the destination's parent: the deepest of its ancestors (or itself) that exists is a directory in
      the root, and the path below that runs through no file. */
  lemma {:induction false} DestinationParentMeaning(d: Disk, parent: FilePath, root: FilePath)
    requires Valid(d)
    ensures DestinationParentOk(d, parent, root) <==>
            exists k :: 0 <= k <= |parent| && UsableFrom(d, parent, root, k)
    decreases |parent|
  {
    assert parent[..|parent|] == parent;
    if Exists(d, parent) {
      assert UsableFrom(d, parent, root, |parent|) <==> parent in d.dirs && root <= parent;
      forall k | 0 <= k < |parent|
        ensures !UsableFrom(d, parent, root, k)
      {
        assert Exists(d, parent[..|parent|]);
      }
    } else if BelowFile(d, parent) {
      FileStopsIt(d, parent, root);
    } else {
      var up := Parent(parent);
      DestinationParentMeaning(d, up, root);
      forall k | 0 <= k <= |up|
        ensures UsableFrom(d, up, root, k) <==> UsableFrom(d, parent, root, k)
      {
        UsableFromAbove(d, parent, root, k);
      }
    }
  }

  lemma {:induction false} UsableFromAbove(d: Disk, parent: FilePath, root: FilePath, k: nat)
    requires k < |parent| && !Exists(d, parent)
    ensures UsableFrom(d, Parent(parent), root, k) <==> UsableFrom(d, parent, root, k)
  {
    var up := Parent(parent);
    assert parent[..|parent|] == parent && up == parent[..|up|];
    assert forall j :: 0 <= j <= |up| ==> up[..j] == parent[..j];
  }

  lemma {:induction false} FileStopsIt(d: Disk, parent: FilePath, root: FilePath)
    requires Valid(d) && BelowFile(d, parent)
    ensures !DestinationParentOk(d, parent, root)
    ensures forall k :: 0 <= k <= |parent| ==> !UsableFrom(d, parent, root, k)
  {
    if DestinationParentOk(d, parent, root) {
      GoodParentIsNotBelowFile(d, parent, root);
      assert false;
    }
    var f :| 0 <= f < |parent| && parent[..f] in d.files;
    forall k | 0 <= k <= |parent| && parent[..k] in d.dirs
      ensures k < f && Exists(d, parent[..f])
    {
      if k > f {
        assert parent[..k][..f] == parent[..f];
        AncestorsAreDirs(d, parent[..k], f);
      }
    }
  }

  lemma {:induction false} ExistingParentIsUsable(d: Disk, root: FilePath, rest: FilePath)
    requires Valid(d) && root in d.dirs && rest != [] && Exists(d, root + rest)
    ensures DestinationParentOk(d, Parent(root + rest), root)
  {
    ExistingIsNotBelowFile(d, root + rest);
    ParentIsUsable(d, root, rest);
  }

  lemma {:induction false} MisplacedMeaning(src: FilePath, root: FilePath)
    requires root != [] && Inside(src, LegacyRoot(root))
    ensures var dst := Destination(src, root);
            && Misplaced(src, root) == (src == LegacyRoot(root) || !Inside(dst, root) || Inside(dst, LegacyRoot(root)))
            && dst == root + Remainder(src, root)
            && (src == LegacyRoot(root) <==> Remainder(src, root) == [])
  {
    var dst, rest := Destination(src, root), Remainder(src, root);
    assert dst == root + rest && src == LegacyRoot(root) + rest;
    if rest != [] {
      assert dst[|root|] == rest[0];
      assert LegacyRoot(root) <= dst <==> rest[0] == root[|root| - 1];
    }
  }

  /** What each status says of the disk and the catalogued hash; exactly one of the five holds. */
  lemma {:induction false} StatusExactly(w: World, id: int, root: FilePath, sha: Content -> string, e: Entry)
    requires Valid(w.disk) && root != [] && IsEntryOf(w, id, root, sha, e)
    ensures var d, catalogued := w.disk, w.catalog[id].contentHash;
            var placed, identical := !Misplaced(e.src, root), Identical(d, e.src, e.dst, catalogued, sha);
            && (e.status == Missing <==> placed && !Exists(d, e.src) && !BelowFile(d, e.src))
            && (e.status == Ready <==> placed && e.src in d.files && !Exists(d, e.dst) && !BelowFile(d, e.dst))
            && (e.status == AlreadyRepaired <==> placed && identical)
            && (e.status == Collision <==> placed && e.src in d.files && Exists(d, e.dst) && !identical)
            && (e.status == Unsafe <==>
                  || Misplaced(e.src, root) || e.src in d.dirs
                  || (!Exists(d, e.src) && BelowFile(d, e.src))
                  || (e.src in d.files && !Exists(d, e.dst) && BelowFile(d, e.dst)))
  {
    var d := w.disk;
    var rest := Remainder(e.src, root);
    hide DestinationParentOk, Misplaced, BelowFile, Remainder;
    MisplacedMeaning(e.src, root);
    if !Misplaced(e.src, root) && e.src in d.files {
      BelowLegacyIsBelowRoot(e.src, root);
      RootIsDir(d, e.src, root);
      ParentIsUsable(d, root, rest);
      if Exists(d, e.dst) {
        ExistingParentIsUsable(d, root, rest);
        ExistingIsNotBelowFile(d, e.dst);
      }
    }
  }

  lemma {:induction false} BelowLegacyIsBelowRoot(src: FilePath, root: FilePath)
    requires root != [] && Inside(src, LegacyRoot(root))
    ensures root <= src && root != src
  {
    assert src[..|root|] == root;
  }

  // ---------- the entries of a plan ----------

  /** Listed record `i` has an entry. */
  predicate HasEntry(w: World, listing: seq<int>, i: nat, root: FilePath)
    requires root != [] && i < |listing|
  {
    listing[i] in w.catalog && w.catalog[listing[i]].path.rooted
    && LegacyRoot(root) <= w.catalog[listing[i]].path.segs
  }

  /** How many of the first `k` listed records have an entry. */
  function Rank(w: World, listing: seq<int>, k: nat, root: FilePath): nat
    requires root != [] && k <= |listing|
  {
    if k == 0 then 0 else Rank(w, listing, k - 1, root) + if HasEntry(w, listing, k - 1, root) then 1 else 0
  }

  /** An earlier listed record names the same file. */
  predicate NamedBefore(w: World, listing: seq<int>, k: nat, root: FilePath)
    requires root != [] && k < |listing| && HasEntry(w, listing, k, root)
  {
    exists j :: 0 <= j < k && HasEntry(w, listing, j, root)
                && w.catalog[listing[j]].path == w.catalog[listing[k]].path
  }

  /** The entry listed record `k` gets: its own, unsafe if the file was named before. */
  function PlannedEntry(w: World, listing: seq<int>, k: nat, root: FilePath, sha: Content -> string): Entry
    requires root != [] && k < |listing| && HasEntry(w, listing, k, root)
  {
    var e := BuildEntry(w.disk, listing[k], w.catalog[listing[k]], root, sha).value;
    if NamedBefore(w, listing, k, root) then e.(status := Unsafe) else e
  }

  ghost predicate EntriesInOrder(w: World, listing: seq<int>, k: nat, root: FilePath, sha: Content -> string,
                                 entries: seq<Entry>)
    requires root != [] && k <= |listing|
  {
    && |entries| == Rank(w, listing, k, root)
    && forall i :: 0 <= i < k && HasEntry(w, listing, i, root) ==>
         Rank(w, listing, i, root) < |entries|
         && entries[Rank(w, listing, i, root)] == PlannedEntry(w, listing, i, root, sha)
  }

  ghost predicate SeenAreNamed(w: World, listing: seq<int>, k: nat, root: FilePath, seen: set<FilePath>)
    requires root != [] && k <= |listing|
  {
    forall p :: p in seen <==> IsNamed(w, listing, k, root, p)
  }

  predicate IsNamed(w: World, listing: seq<int>, k: nat, root: FilePath, p: FilePath)
    requires root != [] && k <= |listing|
  {
    exists j :: 0 <= j < k && HasEntry(w, listing, j, root) && w.catalog[listing[j]].path == Path(true, p)
  }

  lemma {:induction false} BuiltExactly(w: World, listing: seq<int>, k: nat, root: FilePath, sha: Content -> string)
    requires root != [] && k < |listing|
    ensures HasEntry(w, listing, k, root)
            <==> listing[k] in w.catalog && BuildEntry(w.disk, listing[k], w.catalog[listing[k]], root, sha).Some?
    ensures HasEntry(w, listing, k, root) ==>
              w.catalog[listing[k]].path
              == Path(true, BuildEntry(w.disk, listing[k], w.catalog[listing[k]], root, sha).value.src)
  {
    hide Classify;
  }

  lemma {:induction false} NamedMore(w: World, listing: seq<int>, k: nat, root: FilePath, p: FilePath)
    requires root != [] && 0 < k <= |listing|
    ensures IsNamed(w, listing, k, root, p) <==>
            IsNamed(w, listing, k - 1, root, p)
            || (HasEntry(w, listing, k - 1, root) && w.catalog[listing[k - 1]].path == Path(true, p))
  {
    hide HasEntry;
  }

  lemma {:induction false} SeenMore(w: World, listing: seq<int>, k: nat, root: FilePath, sha: Content -> string)
    requires root != [] && 0 < k <= |listing|
    requires SeenAreNamed(w, listing, k - 1, root, EntriesUpTo(w, listing, k - 1, root, sha).1)
    ensures SeenAreNamed(w, listing, k, root, EntriesUpTo(w, listing, k, root, sha).1)
  {
    hide BuildEntry, HasEntry, IsNamed;
    BuiltExactly(w, listing, k - 1, root, sha);
    var seen := EntriesUpTo(w, listing, k, root, sha).1;
    forall p
      ensures p in seen <==> IsNamed(w, listing, k, root, p)
    {
      NamedMore(w, listing, k, root, p);
    }
  }

  lemma {:induction false} EntriesMore(w: World, listing: seq<int>, k: nat, root: FilePath, sha: Content -> string)
    requires root != [] && 0 < k <= |listing|
    requires EntriesInOrder(w, listing, k - 1, root, sha, EntriesUpTo(w, listing, k - 1, root, sha).0)
    requires SeenAreNamed(w, listing, k - 1, root, EntriesUpTo(w, listing, k - 1, root, sha).1)
    ensures EntriesInOrder(w, listing, k, root, sha, EntriesUpTo(w, listing, k, root, sha).0)
  {
    hide BuildEntry, HasEntry, SeenAreNamed, PlannedEntry;
    BuiltExactly(w, listing, k - 1, root, sha);
    var (before, seenBefore) := EntriesUpTo(w, listing, k - 1, root, sha);
    var entries := EntriesUpTo(w, listing, k, root, sha).0;
    if HasEntry(w, listing, k - 1, root) {
      LastPlanned(w, listing, k - 1, root, sha, seenBefore);
    }
    assert before <= entries;
    forall i | 0 <= i < k - 1 && HasEntry(w, listing, i, root)
      ensures Rank(w, listing, i, root) < |entries|
      ensures entries[Rank(w, listing, i, root)] == PlannedEntry(w, listing, i, root, sha)
    {
      assert entries[Rank(w, listing, i, root)] == before[Rank(w, listing, i, root)];
    }
  }

  /** The entries are those of the listed records that have one, in listing order. */
  lemma {:induction false} PlanHasEachEntry(w: World, listing: seq<int>, k: nat, root: FilePath, sha: Content -> string)
    requires root != [] && k <= |listing|
    ensures var (entries, seen) := EntriesUpTo(w, listing, k, root, sha);
            EntriesInOrder(w, listing, k, root, sha, entries) && SeenAreNamed(w, listing, k, root, seen)
  {
    if k > 0 {
      hide *;
      PlanHasEachEntry(w, listing, k - 1, root, sha);
      EntriesMore(w, listing, k, root, sha);
      SeenMore(w, listing, k, root, sha);
    } else {
      forall p
        ensures !IsNamed(w, listing, 0, root, p)
      {
        NothingNamed(w, listing, root, p);
      }
    }
  }

  lemma {:induction false} NothingNamed(w: World, listing: seq<int>, root: FilePath, p: FilePath)
    requires root != []
    ensures !IsNamed(w, listing, 0, root, p)
  {
  }

  lemma {:induction false} LastPlanned(w: World, listing: seq<int>, k: nat, root: FilePath, sha: Content -> string,
                                       seen: set<FilePath>)
    requires root != [] && k < |listing| && HasEntry(w, listing, k, root) && SeenAreNamed(w, listing, k, root, seen)
    requires BuildEntry(w.disk, listing[k], w.catalog[listing[k]], root, sha).Some?
    ensures var e := BuildEntry(w.disk, listing[k], w.catalog[listing[k]], root, sha).value;
            PlannedEntry(w, listing, k, root, sha) == if e.src in seen then e.(status := Unsafe) else e
  {
    BuiltExactly(w, listing, k, root, sha);
    hide BuildEntry, HasEntry;
    var e := BuildEntry(w.disk, listing[k], w.catalog[listing[k]], root, sha).value;
    assert e.src in seen <==> IsNamed(w, listing, k, root, e.src);
  }

  /** When there is a plan at all. */
  lemma {:induction false} PlanFailsExactly(w: World, listing: seq<int>, root: FilePath, sha: Content -> string)
    requires Valid(w.disk)
    ensures var r := Plan(w, listing, root, sha);
            && (r == Err(NoNestedRoot) <==> root == [])
            && (r == Err(RootUnavailable) <==> root != [] && !Exists(w.disk, root))
            && (r == Err(LegacyRootUnsafe) <==> root != [] && root in w.disk.files)
            && (r.Ok? ==> EntriesInOrder(w, listing, |listing|, root, sha, r.value))
  {
    if root != [] && Exists(w.disk, root) {
      LegacyBelowFile(w.disk, root);
      hide EntriesUpTo, EntriesInOrder, SeenAreNamed;
      PlanHasEachEntry(w, listing, |listing|, root, sha);
    }
  }

  lemma {:induction false} LegacyBelowFile(d: Disk, root: FilePath)
    requires Valid(d) && root != [] && Exists(d, root)
    ensures Lstat(d, LegacyRoot(root)) == NotDir <==> root in d.files
  {
    var legacy := LegacyRoot(root);
    assert legacy[..|root|] == root && Parent(legacy) == root;
    ExistingIsNotBelowFile(d, root);
    assert forall k :: 0 <= k < |root| ==> legacy[..k] == root[..k];
    if Exists(d, legacy) {
      assert root in d.dirs;
    }
  }
}
