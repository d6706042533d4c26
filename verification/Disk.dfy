/** The part of a Unix file system the repository's file moves and deletions rely on: regular files with
    contents, directories, and the calls os.Lstat, os.MkdirAll, os.Rename and os.Remove. A file path is
    the element sequence of a cleaned absolute path; symbolic links are not modelled. */
module Disk {

  type FilePath = seq<string>

  /** File bytes. */
  type Content = seq<bv8>

  datatype Disk = Disk(files: map<FilePath, Content>, dirs: set<FilePath>)

  datatype Stat = IsFile | IsDir | NotExist | NotDir

  function Parent(p: FilePath): FilePath {
    if p == [] then [] else p[..|p| - 1]
  }

  predicate Exists(d: Disk, p: FilePath) {
    p in d.files || p in d.dirs
  }

  /** A tree: the root is a directory, nothing is both file and directory, parents are directories. */
  ghost predicate Valid(d: Disk) {
    && [] in d.dirs
    && (forall p :: p in d.files ==> p !in d.dirs)
    && (forall p :: Exists(d, p) && p != [] ==> Parent(p) in d.dirs)
  }

  /** Some proper ancestor of `p` is a regular file. */
  predicate BelowFile(d: Disk, p: FilePath) {
    exists k :: 0 <= k < |p| && p[..k] in d.files
  }

  /** os.Lstat (and os.Stat): a path below a regular file reports ENOTDIR, not ENOENT. */
  function Lstat(d: Disk, p: FilePath): Stat {
    if p in d.files then IsFile
    else if p in d.dirs then IsDir
    else if BelowFile(d, p) then NotDir
    else NotExist
  }

  lemma {:induction false} AncestorsAreDirs(d: Disk, p: FilePath, k: nat)
    requires Valid(d) && Exists(d, p) && k < |p|
    ensures p[..k] in d.dirs
    decreases |p| - k
  {
    if k + 1 < |p| {
      AncestorsAreDirs(d, p, k + 1);
      assert Parent(p[..k + 1]) == p[..k];
    } else {
      assert Parent(p) == p[..k];
    }
  }

  /** An existing path is never below a regular file. */
  lemma {:induction false} ExistingIsNotBelowFile(d: Disk, p: FilePath)
    requires Valid(d) && Exists(d, p)
    ensures !BelowFile(d, p)
  {
    if BelowFile(d, p) {
      var k :| 0 <= k < |p| && p[..k] in d.files;
      AncestorsAreDirs(d, p, k);
    }
  }

  // ---------- MkdirAll ----------

  /** The first `n` levels above and including `p`. */
  function Levels(p: FilePath, n: nat): set<FilePath> {
    set k | 0 <= k <= n && k <= |p| :: p[..k]
  }

  /** os.MkdirAll. It fails when the path or an ancestor is a regular file, creating nothing; `stopAt`
      lets the operating system fail after that many levels have been created. */
  function MkdirAll(d: Disk, p: FilePath, stopAt: nat): (r: (Disk, bool)) {
    if p in d.dirs then (d, true)
    else if p in d.files || BelowFile(d, p) then (d, false)
    else (d.(dirs := d.dirs + Levels(p, stopAt)), stopAt >= |p|)
  }

  lemma {:induction false} MkdirAllKeepsValid(d: Disk, p: FilePath, stopAt: nat)
    requires Valid(d)
    ensures var (e, ok) := MkdirAll(d, p, stopAt);
            Valid(e) && e.files == d.files && d.dirs <= e.dirs && (ok ==> p in e.dirs)
    ensures var (e, ok) := MkdirAll(d, p, stopAt); forall q :: q in e.dirs && q !in d.dirs ==> q <= p
  {
    var (e, ok) := MkdirAll(d, p, stopAt);
    assert p[..|p|] == p;
    if e != d {
      forall q | Exists(e, q) && q != []
        ensures Parent(q) in e.dirs
      {
        if q !in d.dirs && q !in d.files {
          var k :| 0 <= k <= stopAt && k <= |p| && q == p[..k];
          assert Parent(q) == p[..k - 1];
        }
      }
      forall q | q in e.dirs
        ensures q !in e.files
      {
        if q in Levels(p, stopAt) {
          var k :| 0 <= k <= stopAt && k <= |p| && q == p[..k];
          assert k < |p| || q == p;
        }
      }
    }
  }

  /** Without a fault it succeeds exactly when no regular file is in the way. */
  lemma {:induction false} MkdirAllSucceeds(d: Disk, p: FilePath, stopAt: nat)
    requires Valid(d)
    ensures stopAt >= |p| ==> (MkdirAll(d, p, stopAt).1 <==> p !in d.files && !BelowFile(d, p))
  {
    if p in d.dirs {
      ExistingIsNotBelowFile(d, p);
    }
  }

  // ---------- Rename ----------

  /** os.Rename of a regular file: it silently replaces an existing regular file. */
  predicate CanRename(d: Disk, src: FilePath, dst: FilePath) {
    src in d.files && dst !in d.dirs && Parent(dst) in d.dirs
  }

  function Rename(d: Disk, src: FilePath, dst: FilePath): Disk
    requires CanRename(d, src, dst)
  {
    d.(files := (d.files - {src})[dst := d.files[src]])
  }

  lemma {:induction false} RenameKeepsValid(d: Disk, src: FilePath, dst: FilePath)
    requires Valid(d) && CanRename(d, src, dst)
    ensures Valid(Rename(d, src, dst))
  {
  }

  // ---------- Remove ----------

  /** The directories and files directly inside `p`. */
  function Children(d: Disk, p: FilePath): set<FilePath> {
    set q | q in d.files.Keys + d.dirs && q != [] && Parent(q) == p
  }

  /** os.Remove deletes a regular file or an empty directory. */
  predicate CanRemove(d: Disk, p: FilePath) {
    p in d.files || (p in d.dirs && p != [] && Children(d, p) == {})
  }

  function Remove(d: Disk, p: FilePath): Disk
    requires CanRemove(d, p)
  {
    if p in d.files then d.(files := d.files - {p}) else d.(dirs := d.dirs - {p})
  }

  lemma {:induction false} RemoveKeepsValid(d: Disk, p: FilePath)
    requires Valid(d) && CanRemove(d, p)
    ensures Valid(Remove(d, p))
  {
    var e := Remove(d, p);
    forall q | Exists(e, q) && q != []
      ensures Parent(q) in e.dirs
    {
      assert q !in Children(d, p) || Parent(q) in e.dirs;
    }
  }

  // ---------- what the files hold, as a bag ----------

  ghost function PickFile(files: map<FilePath, Content>): (p: FilePath)
    requires files != map[]
    ensures p in files
  {
    var p :| p in files;
    p
  }

  /** The contents of all files, with multiplicity: what must never be lost or overwritten. */
  ghost function Bag(files: map<FilePath, Content>): multiset<Content>
    decreases files.Keys
  {
    if files == map[] then multiset{}
    else
      var p := PickFile(files);
      assert p in files.Keys && p !in (files - {p}).Keys;
      multiset{files[p]} + Bag(files - {p})
  }

  /** Any file may be counted first. */
  lemma {:induction false} BagWithout(files: map<FilePath, Content>, p: FilePath)
    requires p in files
    ensures Bag(files) == multiset{files[p]} + Bag(files - {p})
    decreases files.Keys
  {
    var q := PickFile(files);
    if p != q {
      var both := files - {p} - {q};
      assert files - {q} - {p} == both;
      BagWithoutStep(files, q);
      BagWithout(files - {q}, p);
      BagWithoutStep(files, p);
      BagWithout(files - {p}, q);
      assert Bag(files) == multiset{files[q]} + (multiset{files[p]} + Bag(both));
      assert Bag(files - {p}) == multiset{files[q]} + Bag(both);
    }
  }

  lemma {:induction false} BagWithoutStep(files: map<FilePath, Content>, p: FilePath)
    requires p in files
    ensures (files - {p}).Keys < files.Keys
  {
    assert p in files.Keys && p !in (files - {p}).Keys;
  }

  lemma {:induction false} BagPut(files: map<FilePath, Content>, p: FilePath, c: Content)
    requires p !in files
    ensures Bag(files[p := c]) == multiset{c} + Bag(files)
  {
    BagWithout(files[p := c], p);
    assert files[p := c] - {p} == files;
  }

  /** Renaming onto a path that holds no file keeps every content. */
  lemma {:induction false} RenameKeepsBag(d: Disk, src: FilePath, dst: FilePath)
    requires CanRename(d, src, dst) && dst !in d.files
    ensures Bag(Rename(d, src, dst).files) == Bag(d.files)
  {
    hide Bag;
    BagWithout(d.files, src);
    BagPut(d.files - {src}, dst, d.files[src]);
  }

  /** Renaming onto another file loses that file's content: this is what the callers must exclude. */
  lemma {:induction false} RenameOntoFileLoses(d: Disk, src: FilePath, dst: FilePath)
    requires CanRename(d, src, dst) && dst in d.files && src != dst
    ensures Bag(Rename(d, src, dst).files) == Bag(d.files) - multiset{d.files[dst]}
  {
    hide Bag;
    var rest := d.files - {src};
    var base := rest - {dst};
    BagWithout(d.files, src);
    BagWithout(rest, dst);
    BagPut(base, dst, d.files[src]);
    assert base[dst := d.files[src]] == rest[dst := d.files[src]];
  }
}
