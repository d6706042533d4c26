/** internal/db/library.go: the identity of library items. A file is recorded at most once, by its normalised
    path and by its content hash within one media type and format. */
module LibraryItems {
  import opened Text
  import opened Wrappers
  import opened Paths

  datatype Item = Item(
    title: string, author: string, path: string, originalPath: string, format: string, mediaType: string,
    sourceId: string, hash: string)

  datatype Row = Row(id: nat, item: Item)

  /** The table in scan order; `nextId` is the AUTOINCREMENT counter. */
  datatype Table = Table(rows: seq<Row>, nextId: nat)

  /** The file system, which does not change: the normal form of a path, the hash of the file at a path ("" if
      there is none), and whether a path exists. */
  datatype Env = Env(norm: string -> string, hashFile: string -> string, present: string -> bool)

  datatype Reason = SamePath | SameContent

  datatype Outcome = Outcome(id: nat, inserted: bool)

  // ---------- identity ----------

  /** filepath.Ext: from the last '.' of the last path element. */
  function Ext(path: string): string {
    if path == "" || path[|path| - 1] == '/' then ""
    else if path[|path| - 1] == '.' then "."
    else
      var e := Ext(path[..|path| - 1]);
      if e == "" then "" else e + [path[|path| - 1]]
  }

  function Undotted(s: string): string {
    TrimPrefix(ToLower(s), ".")
  }

  /** effectiveLibraryFormat */
  function EffectiveFormat(format: string, path: string): string {
    var f := Undotted(TrimSpace(format));
    if f != "" then f else Undotted(Ext(path))
  }

  function EffectiveHash(env: Env, item: Item): string {
    if item.hash != "" then item.hash else env.hashFile(item.path)
  }

  /** Two records of one file. */
  predicate SameFile(env: Env, a: Item, b: Item) {
    || (env.norm(a.path) != "" && env.norm(a.path) == env.norm(b.path))
    || (EffectiveHash(env, a) != "" && EffectiveHash(env, a) == EffectiveHash(env, b) && a.mediaType == b.mediaType
        && EffectiveFormat(a.format, a.path) == EffectiveFormat(b.format, b.path))
  }

  /** No file is recorded twice, and row numbers are fresh. */
  ghost predicate Sound(env: Env, t: Table) {
    && t.nextId > 0
    && (forall i :: 0 <= i < |t.rows| ==> 0 < t.rows[i].id < t.nextId)
    && (forall i, j :: 0 <= i < j < |t.rows| ==> t.rows[i].id != t.rows[j].id)
    && (forall i, j :: 0 <= i < j < |t.rows| ==> !SameFile(env, t.rows[i].item, t.rows[j].item))
  }

  // ---------- insertion ----------

  /** The item as AddItemWithOutcome stores it: with its own hash, lower-cased, or the file's. */
  function Stored(env: Env, item: Item): Item {
    var given := ToLower(TrimSpace(item.hash));
    item.(hash := if given != "" then given else env.hashFile(item.path))
  }

  /** What findDuplicateLibraryItemLocked tests for one row against the item to be stored. */
  function DuplicateOf(env: Env, row: Item, stored: Item): Option<Reason> {
    if env.norm(stored.path) != "" && env.norm(stored.path) == env.norm(row.path) then Some(SamePath)
    else if stored.hash == "" || row.mediaType != stored.mediaType then None
    else if (if row.hash == "" then env.hashFile(row.path) else row.hash) == stored.hash
         && EffectiveFormat(row.format, row.path) == EffectiveFormat(stored.format, stored.path) then Some(SameContent)
    else None
  }

  /** The first duplicate from row `i` on. */
  function FindFrom(env: Env, rows: seq<Row>, stored: Item, i: nat): (r: Option<nat>)
    requires i <= |rows|
    ensures r.Some? ==> i <= r.value < |rows|
    decreases |rows| - i
  {
    if i == |rows| then None
    else if DuplicateOf(env, rows[i].item, stored).Some? then Some(i)
    else FindFrom(env, rows, stored, i + 1)
  }

  lemma {:induction false} FindsFirst(env: Env, rows: seq<Row>, stored: Item, i: nat)
    requires i <= |rows|
    ensures var r := FindFrom(env, rows, stored, i);
            && (r.Some? ==> DuplicateOf(env, rows[r.value].item, stored).Some?)
            && forall j :: i <= j < (if r.Some? then r.value else |rows|)
                ==> DuplicateOf(env, rows[j].item, stored).None?
    decreases |rows| - i
  {
    hide DuplicateOf;
    if i < |rows| && DuplicateOf(env, rows[i].item, stored).None? {
      FindsFirst(env, rows, stored, i + 1);
    }
  }

  /** AddItemWithOutcome */
  function Add(env: Env, t: Table, item: Item): (Table, Outcome) {
    var stored := Stored(env, item);
    match FindFrom(env, t.rows, stored, 0)
    case Some(i) => (t, Outcome(t.rows[i].id, false))
    case None => (Table(t.rows + [Row(t.nextId, stored)], t.nextId + 1), Outcome(t.nextId, true))
  }

  /** The scan finds exactly the rows that record the same file. */
  lemma {:induction false} DuplicateIsSameFile(env: Env, row: Item, item: Item)
    ensures DuplicateOf(env, row, Stored(env, item)).Some? <==> SameFile(env, row, Stored(env, item))
  {
  }

  /** Why a row is a duplicate: it has the same path, or else the same content in the same media type and format. */
  lemma {:induction false} DuplicateReason(env: Env, row: Item, item: Item)
    ensures var stored := Stored(env, item);
            var samePath := env.norm(row.path) != "" && env.norm(row.path) == env.norm(stored.path);
            && (DuplicateOf(env, row, stored) == Some(SamePath) <==> samePath)
            && (DuplicateOf(env, row, stored) == Some(SameContent) <==> !samePath && SameFile(env, row, stored))
  {
    hide EffectiveFormat, TrimSpace, ToLower;
  }

  /** Adding keeps every file recorded once; it inserts exactly if the file is not recorded yet. */
  lemma {:induction false} AddKeepsSound(env: Env, t: Table, item: Item)
    requires Sound(env, t)
    ensures Sound(env, Add(env, t, item).0)
    ensures Add(env, t, item).1.inserted
            <==> forall i :: 0 <= i < |t.rows| ==> !SameFile(env, t.rows[i].item, Stored(env, item))
  {
    hide SameFile, DuplicateOf, Stored;
    forall i | 0 <= i < |t.rows|
      ensures DuplicateOf(env, t.rows[i].item, Stored(env, item)).Some?
              <==> SameFile(env, t.rows[i].item, Stored(env, item))
    {
      DuplicateIsSameFile(env, t.rows[i].item, item);
    }
    FindsFirst(env, t.rows, Stored(env, item), 0);
  }

  lemma {:induction false} DuplicatesItself(env: Env, item: Item)
    requires env.norm(item.path) != "" || Stored(env, item).hash != ""
    ensures DuplicateOf(env, Stored(env, item), Stored(env, item)).Some?
  {
    DuplicateIsSameFile(env, Stored(env, item), item);
  }

  /** Adding an item again inserts nothing and answers with the same row, if it has a path or a hash at all. */
  lemma {:induction false} AddingAgainChangesNothing(env: Env, t: Table, item: Item)
    requires Sound(env, t)
    requires env.norm(item.path) != "" || Stored(env, item).hash != ""
    ensures var (t1, first) := Add(env, t, item);
            var (t2, second) := Add(env, t1, item);
            t2 == t1 && second == Outcome(first.id, false)
  {
    var stored := Stored(env, item);
    var (t1, first) := Add(env, t, item);
    DuplicatesItself(env, item);
    hide Sound, Stored, DuplicateOf;
    FindsFirst(env, t.rows, stored, 0);
    FindsFirst(env, t1.rows, stored, 0);
    if first.inserted {
      assert t1.rows[|t.rows|].item == stored;
      assert forall i :: 0 <= i < |t.rows| ==> t1.rows[i] == t.rows[i];
      assert FindFrom(env, t1.rows, stored, 0) == Some(|t.rows|);
    }
  }

  // ---------- deletion ----------

  /** The rows that do not satisfy the WHERE clause. */
  function Without(rows: seq<Row>, gone: Row -> bool): (kept: seq<Row>)
    ensures |kept| <= |rows|
  {
    if rows == [] then []
    else
      var front := Without(rows[..|rows| - 1], gone);
      if gone(rows[|rows| - 1]) then front else front + [rows[|rows| - 1]]
  }

  /** Deletion keeps the other rows in order: it is a subsequence. */
  lemma {:induction false} WithoutKeepsSound(env: Env, rows: seq<Row>, nextId: nat, gone: Row -> bool)
    requires Sound(env, Table(rows, nextId))
    ensures Sound(env, Table(Without(rows, gone), nextId))
    ensures forall r :: r in Without(rows, gone) <==> r in rows && !gone(r)
  {
    hide SameFile;
    if rows != [] {
      var front := rows[..|rows| - 1];
      assert rows == front + [rows[|rows| - 1]];
      WithoutKeepsSound(env, front, nextId, gone);
      forall i | 0 <= i < |Without(front, gone)|
        ensures Without(front, gone)[i].id != rows[|rows| - 1].id
        ensures !SameFile(env, Without(front, gone)[i].item, rows[|rows| - 1].item)
      {
        assert Without(front, gone)[i] in front;
      }
    }
  }

  function HasId(id: nat): Row -> bool {
    (r: Row) => r.id == id
  }

  function HasSource(sourceId: string): Row -> bool {
    (r: Row) => r.item.sourceId == sourceId
  }

  function Delete(t: Table, gone: Row -> bool): Table {
    t.(rows := Without(t.rows, gone))
  }

  /** Deleting by number, or by source, removes exactly the rows of that number, or of that source. */
  lemma {:induction false} DeleteRemovesExactly(env: Env, t: Table, id: nat, sourceId: string)
    requires Sound(env, t)
    ensures forall r :: r in Delete(t, HasId(id)).rows <==> r in t.rows && r.id != id
    ensures forall r :: r in Delete(t, HasSource(sourceId)).rows <==> r in t.rows && r.item.sourceId != sourceId
  {
    WithoutKeepsSound(env, t.rows, t.nextId, HasId(id));
    WithoutKeepsSound(env, t.rows, t.nextId, HasSource(sourceId));
    hide Without, Sound;
  }

  /** The row an insertion adds: a new number, and the item as given, except that its hash is lower-cased and
      trimmed, or that of the file if none was given. */
  lemma {:induction false} AddedRowMeaning(env: Env, t: Table, item: Item)
    requires Sound(env, t) && Add(env, t, item).1.inserted
    ensures var (t', outcome) := Add(env, t, item);
            && |t'.rows| == |t.rows| + 1 && t'.rows[..|t.rows|] == t.rows
            && (forall i :: 0 <= i < |t.rows| ==> t.rows[i].id < outcome.id)
            && var added := t'.rows[|t.rows|];
               && added.id == outcome.id && added.item.(hash := item.hash) == item
               && (ToLower(TrimSpace(item.hash)) != "" ==> added.item.hash == ToLower(TrimSpace(item.hash)))
               && (ToLower(TrimSpace(item.hash)) == "" ==> added.item.hash == env.hashFile(item.path))
  {
    hide TrimSpace, DuplicateOf, SameFile;
  }

  // ---------- backfills ----------

  /** The row after backfillLibraryContentHashes has visited it. */
  function HashFilled(env: Env, row: Row): Row {
    if row.item.hash == "" then row.(item := row.item.(hash := env.hashFile(row.item.path))) else row
  }

  /** The text of a path up to and including its last slash. */
  function UpToSlash(path: string): string {
    if path == "" || path[|path| - 1] == '/' then path else UpToSlash(path[..|path| - 1])
  }

  /** filepath.Base(filepath.Dir(path)) */
  function DirName(path: string): string {
    var dir := Parse(UpToSlash(path));
    if dir.segs != [] then dir.segs[|dir.segs| - 1] else if dir.rooted then "/" else "."
  }

  /** matchesTorrentDerivedTitle: the title is the name of the directory the file is or was in. */
  predicate DerivedTitle(title: string, path: string, originalPath: string) {
    var t := TrimSpace(title);
    && t != ""
    && ((path != "" && EqualFold(t, DirName(path))) || (originalPath != "" && EqualFold(t, DirName(originalPath))))
  }

  /** The present and the original path count alike, and a path that is not there does not count. */
  lemma {:induction false} DerivedFromEither(title: string, path: string, originalPath: string)
    ensures DerivedTitle(title, path, originalPath) <==> DerivedTitle(title, originalPath, path)
    ensures DerivedTitle(title, path, originalPath) <==>
              DerivedTitle(title, path, "") || DerivedTitle(title, "", originalPath)
    ensures !DerivedTitle(title, "", "")
  {
    hide TrimSpace, DirName, EqualFold;
  }

  predicate FillsMetadata(env: Env, it: Item) {
    it.mediaType == "ebook" && env.present(it.path) && DerivedTitle(it.title, it.path, it.originalPath)
  }

  /** The row after BackfillLibraryMetadata has visited it. */
  function MetadataFilled(env: Env, extract: string -> (string, string), row: Row): Row {
    var it := row.item;
    if !FillsMetadata(env, it) then row
    else
      var (title, author) := extract(it.path);
      var format := if it.format == "" then EffectiveFormat("", it.path) else it.format;
      row.(item := it.(title := if title == "" then it.title else title,
                       author := if author == "" then it.author else author,
                       format := format))
  }

  /** What the metadata backfill does to a row: a title and an author that could be extracted are taken over, a
      format is filled in where there was none, and nothing else changes; other rows do not change at all. */
  lemma {:induction false} MetadataFillMeaning(env: Env, extract: string -> (string, string), row: Row)
    ensures var out, it := MetadataFilled(env, extract, row), row.item;
            var (title, author) := extract(it.path);
            && out.id == row.id
            && out.item.(title := it.title, author := it.author, format := it.format) == it
            && (it.mediaType != "ebook" || !env.present(it.path)
                || !DerivedTitle(it.title, it.path, it.originalPath) ==>
                  out == row)
            && (it.mediaType == "ebook" && env.present(it.path) && DerivedTitle(it.title, it.path, it.originalPath) ==>
                  && (title != "" ==> out.item.title == title) && (title == "" ==> out.item.title == it.title)
                  && (author != "" ==> out.item.author == author) && (author == "" ==> out.item.author == it.author)
                  && (it.format != "" ==> out.item.format == it.format)
                  && (it.format == "" ==> out.item.format == ToLower(TrimPrefix(ToLower(Ext(it.path)), "."))))
  {
    EmptyFormat(row.item.path);
    UndottedExtHasNoDot(row.item.path);
    hide DerivedTitle, EffectiveFormat, Ext;
  }

  /** The hash backfill fills in the file's hash where there was none, and changes nothing else. */
  lemma {:induction false} HashFillMeaning(env: Env, row: Row)
    ensures var out := HashFilled(env, row);
            && out.id == row.id && out.item.(hash := row.item.hash) == row.item
            && out.item.hash == if row.item.hash == "" then env.hashFile(row.item.path) else row.item.hash
  {
  }

  /** The effective format does not depend on the case of the format, nor on one dot before it. */
  lemma {:induction false} FormatIgnoresCase(format: string, path: string)
    requires TrimSpace(format) == format && TrimSpace(ToLower(format)) == ToLower(format)
    requires format != "" && format[0] != '.' && TrimSpace("." + format) == "." + format
    ensures EffectiveFormat(format, path) == ToLower(format)
    ensures EffectiveFormat("." + format, path) == ToLower(format)
  {
    hide TrimSpace, Ext;
    UndottedOnce(format);
    hide Undotted;
  }

  lemma {:induction false} UndottedOnce(format: string)
    requires format != "" && format[0] != '.'
    ensures Undotted(format) == ToLower(format) == Undotted("." + format) != ""
  {
    var dotted := "." + format;
    assert ToLower(dotted) == "." + ToLower(format);
    assert ToLower(dotted)[1..] == ToLower(format);
    assert ToLower(format)[0] != '.';
  }

  function HashFiller(env: Env): Row -> Row {
    (r: Row) => HashFilled(env, r)
  }

  function MetadataFiller(env: Env, extract: string -> (string, string)): Row -> Row {
    (r: Row) => MetadataFilled(env, extract, r)
  }

  /** A backfill that stops with an error after visiting `n` rows. */
  function FillFirst(rows: seq<Row>, n: nat, fill: Row -> Row): (out: seq<Row>)
    ensures |out| == |rows|
    ensures forall i :: 0 <= i < |rows| ==> out[i] == if i < n then fill(rows[i]) else rows[i]
  {
    seq(|rows|, i requires 0 <= i < |rows| => if i < n then fill(rows[i]) else rows[i])
  }

  /** The fill changes nothing a file is identified by. */
  predicate KeepsIdentity(env: Env, before: Row, after: Row) {
    && after.id == before.id && after.item.path == before.item.path && after.item.mediaType == before.item.mediaType
    && EffectiveHash(env, after.item) == EffectiveHash(env, before.item)
    && EffectiveFormat(after.item.format, after.item.path) == EffectiveFormat(before.item.format, before.item.path)
  }

  lemma {:induction false} FillKeepsSound(env: Env, t: Table, n: nat, fill: Row -> Row)
    requires Sound(env, t) && forall i :: 0 <= i < |t.rows| ==> KeepsIdentity(env, t.rows[i], fill(t.rows[i]))
    ensures Sound(env, t.(rows := FillFirst(t.rows, n, fill)))
  {
    var out := FillFirst(t.rows, n, fill);
    hide EffectiveFormat, EffectiveHash;
    assert forall i :: 0 <= i < |out| ==> KeepsIdentity(env, t.rows[i], out[i]);
    forall i, j | 0 <= i < j < |out|
      ensures out[i].id != out[j].id && !SameFile(env, out[i].item, out[j].item)
    {
      assert KeepsIdentity(env, t.rows[i], out[i]) && KeepsIdentity(env, t.rows[j], out[j]);
      assert !SameFile(env, t.rows[i].item, t.rows[j].item);
    }
  }

  /** Writing a hash where there was none leaves the effective hash as it was. */
  lemma {:induction false} HashFillKeepsIdentity(env: Env, row: Row)
    ensures KeepsIdentity(env, row, HashFilled(env, row))
  {
  }

  /** The extension has no blanks around it, or nothing but blanks. */
  predicate StableExtension(path: string) {
    var e := Undotted(Ext(path));
    TrimSpace(e) == e || TrimSpace(e) == ""
  }

  lemma {:induction false} ExtHasOneDot(path: string)
    ensures Ext(path) != "" ==> Ext(path)[0] == '.' && forall i :: 1 <= i < |Ext(path)| ==> Ext(path)[i] != '.'
  {
    if path != "" && path[|path| - 1] != '/' && path[|path| - 1] != '.' {
      ExtHasOneDot(path[..|path| - 1]);
    }
  }

  lemma {:induction false} UndottedExtHasNoDot(path: string)
    ensures '.' !in Undotted(Ext(path)) && ToLower(Undotted(Ext(path))) == Undotted(Ext(path))
  {
    ExtHasOneDot(path);
    var e := Ext(path);
    var l := ToLower(e);
    if e != "" {
      assert l[0] == '.' && "." <= l;
      assert Undotted(e) == l[1..];
      assert forall i :: 0 <= i < |l[1..]| ==> l[1..][i] == LowerChar(e[i + 1]);
    }
  }

  lemma {:induction false} EmptyFormat(path: string)
    ensures EffectiveFormat("", path) == Undotted(Ext(path))
  {
    TrimSpaceFixed("");
    assert ToLower("") == "";
  }

  lemma {:induction false} UndottedFixed(s: string)
    requires ToLower(s) == s && '.' !in s
    ensures Undotted(s) == s
  {
    assert s != "" ==> s[0] != '.';
  }

  lemma {:induction false} TrimmedLower(s: string)
    requires ToLower(s) == s && '.' !in s
    ensures ToLower(TrimSpace(s)) == TrimSpace(s) && '.' !in TrimSpace(s)
  {
    var a, b := TrimIsSlice(s);
    hide TrimSpace;
    var t := s[a..b];
    forall i | 0 <= i < |t|
      ensures LowerChar(t[i]) == t[i] && t[i] != '.'
    {
      assert t[i] == s[a + i] == ToLower(s)[a + i];
    }
    assert ToLower(t) == t;
  }

  /** Storing the extension as the format keeps the effective format exactly for stable extensions. */
  lemma {:induction false} FormatFillIsStable(path: string)
    ensures var e := EffectiveFormat("", path); EffectiveFormat(e, path) == e <==> StableExtension(path)
  {
    EmptyFormat(path);
    UndottedExtHasNoDot(path);
    var e := Undotted(Ext(path));
    TrimmedLower(e);
    hide TrimSpace, ToLower, Ext, Undotted;
    UndottedFixed(TrimSpace(e));
  }

  lemma {:induction false} MetadataFillKeepsIdentity(env: Env, extract: string -> (string, string), row: Row)
    ensures StableExtension(row.item.path) ==> KeepsIdentity(env, row, MetadataFilled(env, extract, row))
  {
    hide StableExtension, Ext, Undotted, TrimSpace;
    FormatFillIsStable(row.item.path);
    EmptyFormat(row.item.path);
    hide EffectiveFormat;
  }

  // ---------- every reachable table ----------

  datatype Op =
    | AddOp(item: Item)
    | DeleteOp(id: nat)
    | DeleteSourceOp(sourceId: string)
    | HashBackfill(visited: nat)
    | MetadataBackfill(extract: string -> (string, string), visited: nat)

  function Apply(env: Env, t: Table, op: Op): Table {
    match op
    case AddOp(item) => Add(env, t, item).0
    case DeleteOp(id) => Delete(t, HasId(id))
    case DeleteSourceOp(sourceId) => Delete(t, HasSource(sourceId))
    case HashBackfill(n) => t.(rows := FillFirst(t.rows, n, HashFiller(env)))
    case MetadataBackfill(extract, n) => t.(rows := FillFirst(t.rows, n, MetadataFiller(env, extract)))
  }

  function Reach(env: Env, ops: seq<Op>, k: nat): Table
    requires k <= |ops|
  {
    if k == 0 then Table([], 1) else Apply(env, Reach(env, ops, k - 1), ops[k - 1])
  }

  ghost predicate StablePaths(t: Table) {
    forall r :: r in t.rows ==> StableExtension(r.item.path)
  }

  lemma {:induction false} ApplyKeepsSound(env: Env, t: Table, op: Op)
    requires Sound(env, t) && StablePaths(t) && (op.AddOp? ==> StableExtension(op.item.path))
    ensures Sound(env, Apply(env, t, op)) && StablePaths(Apply(env, t, op))
  {
    hide SameFile, StableExtension, Sound, KeepsIdentity;
    match op
    case AddOp(item) =>
      AddKeepsSound(env, t, item);
    case DeleteOp(id) =>
      WithoutKeepsSound(env, t.rows, t.nextId, HasId(id));
    case DeleteSourceOp(sourceId) =>
      WithoutKeepsSound(env, t.rows, t.nextId, HasSource(sourceId));
    case HashBackfill(n) =>
      forall i | 0 <= i < |t.rows| { HashFillKeepsIdentity(env, t.rows[i]); }
      FillKeepsSound(env, t, n, HashFiller(env));
    case MetadataBackfill(extract, n) =>
      MetadataFillsKeepSound(env, extract, t, n);
  }

  /** Over a fixed file system no file is recorded twice in any table reached from the empty one by any
      sequence of additions, deletions and complete or interrupted backfills. */
  lemma {:induction false} ReachableIsSound(env: Env, ops: seq<Op>, k: nat)
    requires k <= |ops|
    requires forall i :: 0 <= i < |ops| && ops[i].AddOp? ==> StableExtension(ops[i].item.path)
    ensures Sound(env, Reach(env, ops, k)) && StablePaths(Reach(env, ops, k))
  {
    hide StableExtension, SameFile, Apply;
    if k > 0 {
      ReachableIsSound(env, ops, k - 1);
      ApplyKeepsSound(env, Reach(env, ops, k - 1), ops[k - 1]);
    }
  }

  /** With a blank at the end of an extension the metadata backfill can make two records of one file: their
      effective formats "epub " and "epub" differ before it and agree after it. */
  lemma {:induction false} BlankExtensionMakesDuplicates(env: Env, extract: string -> (string, string), a: Item,
                                                         b: Item)
    requires a.format == "" && a.mediaType == b.mediaType && FillsMetadata(env, a)
    requires EffectiveHash(env, a) == EffectiveHash(env, b) != ""
    requires !StableExtension(a.path)
    requires EffectiveFormat(b.format, b.path) == EffectiveFormat(EffectiveFormat("", a.path), a.path)
    requires env.norm(a.path) != env.norm(b.path)
    ensures !SameFile(env, a, b)
    ensures SameFile(env, MetadataFilled(env, extract, Row(1, a)).item, b)
  {
    FormatFillIsStable(a.path);
    hide EffectiveFormat, StableExtension;
  }

  lemma {:induction false} ExtAfterDot(dir: string, e: string)
    requires forall i :: 0 <= i < |e| ==> e[i] != '.' && e[i] != '/'
    ensures Ext(dir + "." + e) == "." + e
  {
    var path := dir + "." + e;
    if e != "" {
      ExtAfterDot(dir, e[..|e| - 1]);
      assert path[..|path| - 1] == dir + "." + e[..|e| - 1];
    }
  }

  function PlainEnv(): Env {
    Env((path: string) => path, (path: string) => "h", (path: string) => true)
  }

  function NoMetadata(): string -> (string, string) {
    (path: string) => ("", "")
  }

  function BookAt(path: string): Item {
    Item("t", "", path, "", "", "ebook", "", "h")
  }

  const SPACED := "/t/x.epub "
  const PLAIN := "/u/t/x.epub"

  lemma {:induction false} UpToSlashOf(dir: string, name: string)
    requires '/' !in name
    ensures UpToSlash(dir + "/" + name) == dir + "/"
  {
    if name != "" {
      UpToSlashOf(dir, name[..|name| - 1]);
      assert (dir + "/" + name)[..|dir + "/" + name| - 1] == dir + "/" + name[..|name| - 1];
    }
  }

  /** The directory name of a file directly in a clean directory. */
  lemma {:induction false} DirNameOf(dir: Path, name: string)
    requires IsClean(dir) && dir.segs != [] && '/' !in name
    ensures DirName(Show(dir) + "/" + name) == dir.segs[|dir.segs| - 1]
  {
    hide Show, IsClean, Parse, UpToSlash;
    UpToSlashOf(Show(dir), name);
    TrailingSlash(dir);
  }

  lemma {:induction false} TrailingSlash(dir: Path)
    requires IsClean(dir)
    ensures Parse(Show(dir) + "/") == dir
  {
    var text := Show(dir);
    ParseShow(dir);
    ShowNotEmpty(dir);
    hide Show, IsClean;
    assert text + "/" + "" == text + "/";
    SplitAppend(text, "");
    SplitOne("");
    hide Split;
    ReduceAppend(dir.rooted, [], Split(text), [""]);
    assert Reduce(dir.rooted, dir.segs, [""]) == dir.segs;
  }

  lemma {:induction false} ShownDirsOfExample()
    ensures Show(Path(true, ["t"])) == "/t" && Show(Path(true, ["u", "t"])) == "/u/t"
  {
    assert JoinSegs(["t"]) == "t";
    assert ["u", "t"][1..] == ["t"];
  }

  lemma {:induction false} DirNamesOfExample()
    ensures DirName(SPACED) == "t" && DirName(PLAIN) == "t"
  {
    hide DirName, Show;
    ShownDirsOfExample();
    var t, ut := Path(true, ["t"]), Path(true, ["u", "t"]);
    assert IsClean(t) && IsClean(ut);
    hide IsClean;
    DirNameOf(t, "x.epub ");
    DirNameOf(ut, "x.epub");
    assert SPACED == "/t" + "/" + "x.epub ";
    assert PLAIN == "/u/t" + "/" + "x.epub";
  }

  lemma {:induction false} TitlesOfExample()
    ensures FillsMetadata(PlainEnv(), BookAt(SPACED)) && FillsMetadata(PlainEnv(), BookAt(PLAIN))
  {
    hide DirName;
    DirNamesOfExample();
    TrimSpaceFixed("t");
    hide TrimSpace;
  }

  lemma {:induction false} TrimOfExample()
    ensures TrimSpace("epub ") == "epub" && TrimSpace("epub") == "epub" && TrimSpace("h") == "h"
  {
    TrimSpaceFixed("epub");
    TrimSpaceFixed("h");
    hide TrimSpace;
    TrimOneBlank("epub");
    assert "epub" + " " == "epub ";
  }

  lemma {:induction false} ExtsOfExample()
    ensures Undotted(Ext(SPACED)) == "epub " && Undotted(Ext(PLAIN)) == "epub" && Undotted("epub") == "epub"
  {
    assert SPACED == "/t/x" + "." + "epub " && PLAIN == "/u/t/x" + "." + "epub";
    ExtAfterDot("/t/x", "epub ");
    ExtAfterDot("/u/t/x", "epub");
    hide Ext;
    LowerFixed(".epub ");
    LowerFixed(".epub");
    LowerFixed("epub");
    hide ToLower;
    assert ".epub "[1..] == "epub " && ".epub"[1..] == "epub";
    UndottedFixed("epub");
  }

  lemma {:induction false} FormatsOfExample()
    ensures EffectiveFormat("", SPACED) == "epub "
    ensures EffectiveFormat("epub ", SPACED) == EffectiveFormat("epub", PLAIN) == "epub"
    ensures EffectiveFormat("", PLAIN) == "epub"
  {
    EmptyFormat(SPACED);
    EmptyFormat(PLAIN);
    hide TrimSpace, Ext, Undotted;
    TrimOfExample();
    ExtsOfExample();
  }

  lemma {:induction false} BooksDiffer()
    ensures var env, a, b := PlainEnv(), BookAt(SPACED), BookAt(PLAIN);
            && Stored(env, a) == a && Stored(env, b) == b
            && !SameFile(env, a, b) && SameFile(env, a.(format := "epub "), b.(format := "epub"))
  {
    hide EffectiveFormat, TrimSpace;
    TrimOfExample();
    FormatsOfExample();
    assert ToLower("h") == "h";
    assert SPACED[1] != PLAIN[1];
  }

  /** Two items of different files. */
  lemma {:induction false} TwoAdded(env: Env, a: Item, b: Item, ops: seq<Op>)
    requires |ops| >= 2 && ops[0] == AddOp(a) && ops[1] == AddOp(b)
    requires Stored(env, a) == a && Stored(env, b) == b && !SameFile(env, a, b)
    ensures Reach(env, ops, 2) == Table([Row(1, a), Row(2, b)], 3) && Sound(env, Reach(env, ops, 2))
  {
    hide Stored, SameFile, DuplicateOf;
    DuplicateIsSameFile(env, a, b);
    assert Reach(env, ops, 0) == Table([], 1);
    assert Reach(env, ops, 1) == Table([Row(1, a)], 2);
    assert FindFrom(env, [Row(1, a)], b, 0) == None;
    assert [Row(1, a)] + [Row(2, b)] == [Row(1, a), Row(2, b)];
  }

  lemma {:induction false} FilledExample()
    ensures MetadataFilled(PlainEnv(), NoMetadata(), Row(1, BookAt(SPACED))).item == BookAt(SPACED).(format := "epub ")
    ensures MetadataFilled(PlainEnv(), NoMetadata(), Row(2, BookAt(PLAIN))).item == BookAt(PLAIN).(format := "epub")
  {
    hide EffectiveFormat, FillsMetadata;
    FormatsOfExample();
    TitlesOfExample();
  }

  lemma {:induction false} FilledTwice(env: Env, extract: string -> (string, string), t: Table, a: Row, b: Row)
    requires t.rows == [a, b]
    requires SameFile(env, MetadataFilled(env, extract, a).item, MetadataFilled(env, extract, b).item)
    ensures !Sound(env, Apply(env, t, MetadataBackfill(extract, 2)))
  {
    hide SameFile, MetadataFilled;
    var after := Apply(env, t, MetadataBackfill(extract, 2));
    assert after.rows[0] == MetadataFilled(env, extract, a) && after.rows[1] == MetadataFilled(env, extract, b);
  }

  /** A run that ends with one file recorded twice: "/t/x.epub " and "/u/t/x.epub" with one
      content and the title "t", the name of their directories. */
  lemma {:induction false} BlankExtensionRun()
    ensures var ops := [AddOp(BookAt(SPACED)), AddOp(BookAt(PLAIN)), MetadataBackfill(NoMetadata(), 2)];
            Sound(PlainEnv(), Reach(PlainEnv(), ops, 2)) && !Sound(PlainEnv(), Reach(PlainEnv(), ops, 3))
  {
    hide SameFile, MetadataFilled, Stored, Sound, Apply, FindFrom, EffectiveFormat;
    var env, a, b := PlainEnv(), BookAt(SPACED), BookAt(PLAIN);
    var ops := [AddOp(a), AddOp(b), MetadataBackfill(NoMetadata(), 2)];
    BooksDiffer();
    FilledExample();
    TwoAdded(env, a, b, ops);
    FilledTwice(env, NoMetadata(), Reach(env, ops, 2), Row(1, a), Row(2, b));
  }

  // ---------- the store itself ----------

  class DB {
    const env: Env
    var rows: seq<Row>
    var nextId: nat

    constructor (env: Env)
      ensures this.env == env && rows == [] && nextId == 1
      ensures Sound(env, Contents())
    {
      this.env := env;
      rows, nextId := [], 1;
    }

    function Contents(): Table
      reads this
    {
      Table(rows, nextId)
    }

    /** findDuplicateLibraryItemLocked */
    method FindDuplicate(stored: Item) returns (r: Option<(nat, Reason)>)
      ensures var first := FindFrom(env, rows, stored, 0);
              (r.Some? <==> first.Some?)
              && (r.Some? ==>
                    && r.value.0 == rows[first.value].id
                    && DuplicateOf(env, rows[first.value].item, stored) == Some(r.value.1))
    {
      hide DuplicateOf;
      FindsFirst(env, rows, stored, 0);
      for i := 0 to |rows|
        invariant FindFrom(env, rows, stored, i) == FindFrom(env, rows, stored, 0)
      {
        var reason := DuplicateOf(env, rows[i].item, stored);
        if reason.Some? {
          return Some((rows[i].id, reason.value));
        }
      }
      r := None;
    }

    /** AddItemWithOutcome */
    method AddItem(item: Item) returns (outcome: Outcome)
      requires Sound(env, Contents())
      modifies this
      ensures (Contents(), outcome) == Add(env, old(Contents()), item)
      ensures Sound(env, Contents())
    {
      hide SameFile, DuplicateOf, Sound, Stored, FindFrom;
      AddKeepsSound(env, Contents(), item);
      var stored := Stored(env, item);
      var existing := FindDuplicate(stored);
      if existing.Some? {
        return Outcome(existing.value.0, false);
      }
      rows := rows + [Row(nextId, stored)];
      outcome := Outcome(nextId, true);
      nextId := nextId + 1;
    }

    /** DeleteItem; false stands for "item not found". */
    method DeleteItem(id: nat) returns (found: bool)
      requires Sound(env, Contents())
      modifies this
      ensures Contents() == Delete(old(Contents()), HasId(id)) && Sound(env, Contents())
      ensures found <==> exists r :: r in old(rows) && r.id == id
    {
      WithoutKeepsSound(env, rows, nextId, HasId(id));
      hide SameFile;
      found := exists r :: r in rows && r.id == id;
      rows := Without(rows, HasId(id));
    }

    /** backfillLibraryContentHashes: first the rows without a hash are collected, then each is updated.
        It stops with an error when `failing` says so. */
    method BackfillContentHashes(failing: nat -> bool) returns (visited: nat)
      requires Sound(env, Contents())
      modifies this
      ensures Contents() == old(Contents()).(rows := FillFirst(old(rows), visited, HashFiller(env)))
      ensures Sound(env, Contents())
    {
      ghost var before := rows;
      ghost var fill := HashFiller(env);
      visited := 0;
      assert rows == FillFirst(before, 0, fill);
      while visited < |rows|
        invariant visited <= |rows| && nextId == old(nextId)
        invariant rows == FillFirst(before, visited, fill)
      {
        var row := rows[visited];
        if row.item.hash == "" {
          var hash := env.hashFile(row.item.path);
          if hash != "" {
            if failing(visited) {
              break;
            }
            rows := rows[visited := row.(item := row.item.(hash := hash))];
          }
        }
        visited := visited + 1;
        assert rows == FillFirst(before, visited, fill);
      }
      forall i | 0 <= i < |before| { HashFillKeepsIdentity(env, before[i]); }
      FillKeepsSound(env, Table(before, nextId), visited, fill);
    }

    /** BackfillLibraryMetadata. It stops with an error when `failing` says so. */
    method BackfillMetadata(extract: string -> (string, string), failing: nat -> bool) returns (visited: nat)
      requires Sound(env, Contents()) && StablePaths(Contents())
      modifies this
      ensures Contents() == old(Contents()).(rows := FillFirst(old(rows), visited, MetadataFiller(env, extract)))
      ensures Sound(env, Contents())
    {
      ghost var before := rows;
      ghost var fill := MetadataFiller(env, extract);
      hide MetadataFilled, Sound, StablePaths;
      visited := 0;
      while visited < |rows|
        invariant visited <= |rows| && nextId == old(nextId)
        invariant rows == FillFirst(before, visited, fill)
      {
        var filled, writes := FillRow(env, extract, rows[visited]);
        if writes {
          if failing(visited) {
            break;
          }
          rows := rows[visited := filled];
        }
        visited := visited + 1;
      }
      MetadataFillsKeepSound(env, extract, Table(before, nextId), visited);
    }
  }

  /** What BackfillLibraryMetadata makes of one row, and whether it writes the row at all. */
  method FillRow(env: Env, extract: string -> (string, string), row: Row) returns (filled: Row, writes: bool)
    ensures filled == MetadataFilled(env, extract, row) && (!writes ==> filled == row)
  {
    hide EffectiveFormat, FillsMetadata;
    filled, writes := row, false;
    var it := row.item;
    if FillsMetadata(env, it) {
      var (title, author) := extract(it.path);
      var format := it.format;
      if format == "" {
        format := EffectiveFormat("", it.path);
      }
      if title == "" && author == "" && format == it.format {
        return;
      }
      if title == "" {
        title := it.title;
      }
      if author == "" {
        author := it.author;
      }
      writes := true;
      filled := row.(item := it.(title := title, author := author, format := format));
    }
  }

  lemma {:induction false} MetadataFillsKeepSound(env: Env, extract: string -> (string, string), t: Table, n: nat)
    requires Sound(env, t) && StablePaths(t)
    ensures Sound(env, t.(rows := FillFirst(t.rows, n, MetadataFiller(env, extract))))
  {
    hide Sound, MetadataFilled, KeepsIdentity, StableExtension;
    forall i | 0 <= i < |t.rows|
      ensures KeepsIdentity(env, t.rows[i], MetadataFilled(env, extract, t.rows[i]))
    {
      assert t.rows[i] in t.rows;
      MetadataFillKeepsIdentity(env, extract, t.rows[i]);
    }
    FillKeepsSound(env, t, n, MetadataFiller(env, extract));
  }
}
