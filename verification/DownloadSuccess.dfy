/** internal/download/direct.go: exactly when a download succeeds, from the answers of the servers and the state of
    the disk, and what it then leaves. */
module DownloadSuccess {
  import opened Text
  import opened Wrappers
  import opened Paths
  import opened Disk
  import opened Download
  import RemotePath

  // ---------- names in the incoming directory ----------

  /** The named file lies in the incoming directory as its path is read again, with blanks at its ends trimmed. */
  predicate InTrimmedRoot(root: string, name: string) {
    Within(Path(true, RootPath(root) + [name]), Parse(TrimSpace(root)))
  }

  lemma {:induction false} CleanKeepsOut(s: string, c: char)
    requires c !in s && c != '/' && c != '.'
    ensures c !in Clean(s)
  {
    RemotePath.SplitChars(s, c);
    RemotePath.ReduceChars(IsAbs(s), [], Split(s), c);
    RemotePath.JoinChars(Parse(s).segs, c);
  }

  lemma {:induction false} TrimKeepsNoControl(s: string)
    requires !HasControl(s)
    ensures !HasControl(TrimSpace(s))
  {
    hide TrimSpace;
    var a, b := TrimIsSlice(s);
    assert forall i :: 0 <= i < |TrimSpace(s)| ==> TrimSpace(s)[i] == s[a + i];
  }

  lemma {:induction false} CleanKeepsNoControl(s: string)
    requires !HasControl(s)
    ensures !HasControl(Clean(s))
  {
    hide Clean;
    CleanKeepsOut(s, 0 as char);
    CleanKeepsOut(s, '\r');
    CleanKeepsOut(s, '\n');
  }

  lemma {:induction false} RootHasNoControl(raw: string)
    requires DownloadRoot(raw).Some?
    ensures var root := DownloadRoot(raw).value;
            && root != "" && root[0] == '/' && !HasControl(root) && TrimSpace(root) != "" && TrimSpace(root)[0] == '/'
            && !HasControl(Clean(TrimSpace(root)))
  {
    hide Clean, TrimSpace, HasControl;
    var root := DownloadRoot(raw).value;
    TrimmedStart(root);
    TrimKeepsNoControl(root);
    CleanKeepsNoControl(TrimSpace(root));
  }

  lemma {:induction false} TrimmedStart(s: string)
    requires s != "" && !IsSpace(s[0])
    ensures TrimSpace(s) != "" && TrimSpace(s)[0] == s[0]
  {
    assert TrimLeft(s) == s;
    TrimRightStart(s);
  }

  lemma {:induction false} TrimRightStart(s: string)
    requires s != "" && !IsSpace(s[0])
    ensures TrimRight(s) != "" && TrimRight(s)[0] == s[0]
  {
    if IsSpace(s[|s| - 1]) {
      TrimRightStart(s[..|s| - 1]);
    }
  }

  /** A name joined to the root is accepted exactly if it has no control character and lies in the trimmed root. */
  lemma {:induction false} ValidatedFileExactly(raw: string, name: string)
    requires DownloadRoot(raw).Some? && IsSegment(name) && name != ".."
    ensures var root := DownloadRoot(raw).value;
            ValidatedFile(root, name)
            == if !HasControl(name) && InTrimmedRoot(root, name) then Some(RootPath(root) + [name]) else None
  {
    var root := DownloadRoot(raw).value;
    RootIsClean(raw);
    RootHasNoControl(raw);
    var p := Path(true, RootPath(root) + [name]);
    var r := Clean(TrimSpace(root));
    assert IsClean(p) by { ExtendedIsClean(Parse(root), name); }
    assert Join(root, name) == Show(p) by {
      JoinExtends(Parse(root), [name]);
      assert JoinSegs([name]) == name;
    }
    ParseShow(p);
    assert DownloadRoot(root) == Some(r) by { RootOfRoot(root); }
    ShownControl(root, name);
    hide Show, Parse, DownloadRoot, Join, Rel, TrimSpace, IsClean, HasControl, RootPath, Clean;
    assert Clean(Show(p)) == Show(p) by { CleanOfShown(p); }
    assert IsAbs(Show(p)) by { ShowNotEmpty(p); }
    ValidWithin(p, TrimSpace(root));
  }

  lemma {:induction false} CleanOfShown(p: Path)
    requires Parse(Show(p)) == p
    ensures Clean(Show(p)) == Show(p)
  {
  }

  lemma {:induction false} RootOfRoot(root: string)
    requires TrimSpace(root) != "" && TrimSpace(root)[0] == '/' && !HasControl(Clean(TrimSpace(root)))
    ensures DownloadRoot(root) == Some(Clean(TrimSpace(root)))
  {
    var q := Parse(TrimSpace(root));
    ParseIsClean(TrimSpace(root));
    ShowNotEmpty(q);
  }

  /** The containment test of validateDownloadPath. */
  lemma {:induction false} ValidWithin(p: Path, text: string)
    requires IsClean(p) && p.rooted && Parse(Show(p)) == p
    ensures var r, c := Clean(text), Show(p);
            (Rel(r, c).Some? && !IsAbs(Rel(r, c).value) && !EscapesRoot(Rel(r, c).value)) <==> Within(p, Parse(text))
  {
    var q := Parse(text);
    ParseIsClean(text);
    ParseShow(q);
    hide Parse, Show, Rel, IsClean;
    assert Clean(Show(p)) == Show(p) && Clean(Clean(text)) == Clean(text);
    PathWithinMeaning(Show(p), Clean(text));
    RemotePath.RelSame(p);
    assert IsAbs(".") == false;
  }

  /** The printed file has a control character exactly if its name has one. */
  lemma {:induction false} ShownControl(root: string, name: string)
    requires root == Show(Parse(root)) && Parse(root).rooted && !HasControl(root)
    ensures HasControl(Show(Path(true, RootPath(root) + [name]))) <==> HasControl(name)
  {
    var segs := Parse(root).segs;
    var text := Show(Path(true, segs + [name]));
    if segs == [] {
      assert segs + [name] == [name];
      assert text == "/" + name;
    } else {
      JoinPrefix(segs, [name]);
      assert text == root + "/" + name;
    }
  }

  // ---------- saving one body ----------

  function FinalPath(cfg: Config, root: string, ext: Ext): FilePath {
    RootPath(root) + [FinalName(cfg, ext)]
  }

  function TempPath(root: string, x: Exchange): FilePath {
    RootPath(root) + [TempName(x.tempId)]
  }

  /** The directory exists, or no file is in its way and its levels can all be made. */
  predicate CanHaveDir(d: Disk, dir: FilePath, stopAt: nat) {
    dir in d.dirs || (dir !in d.files && !BelowFile(d, dir) && stopAt >= |dir|)
  }

  /** The destination is free and can be renamed onto, or holds the expected content already. */
  predicate DestinationFits(cfg: Config, d: Disk, dst: FilePath, x: Exchange, expected: string) {
    || (!Exists(d, dst) && !x.renameFails)
    || (dst in d.files && expected != "" && !x.rereadFails && cfg.md5(d.files[dst]) == expected)
  }

  /** Everything a body must meet to be saved. */
  predicate Saves(cfg: Config, d: Disk, x: Exchange, expected: string) {
    && x.response.Body? && DownloadRoot(cfg.incomingDir).Some?
    && var root, bytes, ext := DownloadRoot(cfg.incomingDir).value, x.response.bytes, x.response.ext;
       && CanHaveDir(d, RootPath(root), x.mkdirStopAt)
       && !x.createFails && !Exists(d, TempPath(root, x)) && '/' !in x.tempId
       && !HasControl(TempName(x.tempId)) && InTrimmedRoot(root, TempName(x.tempId))
       && !x.writeFails && |bytes| >= 1000
       && (expected != "" ==> !x.hashFails && cfg.md5(bytes) == expected)
       && (ext == Epub ==> x.epubAccepted)
       && !HasControl(FinalName(cfg, ext)) && InTrimmedRoot(root, FinalName(cfg, ext))
       && DestinationFits(cfg, d, FinalPath(cfg, root, ext), x, expected)
  }

  /** The files after a body has been saved: the file that was already there stays, beside a temporary file that
      could not be removed; otherwise the new one holds the bytes. */
  function SavedFiles(cfg: Config, d: Disk, x: Exchange): map<FilePath, Content>
    requires x.response.Body? && DownloadRoot(cfg.incomingDir).Some?
  {
    var root := DownloadRoot(cfg.incomingDir).value;
    var dst := FinalPath(cfg, root, x.response.ext);
    if dst !in d.files then d.files[dst := x.response.bytes]
    else if x.cleanupFails then d.files[TempPath(root, x) := x.response.bytes]
    else d.files
  }

  lemma {:induction false} SiblingIsClear(d: Disk, dir: FilePath, name: string)
    requires Valid(d) && dir in d.dirs
    ensures !BelowFile(d, dir + [name])
  {
    ExistingIsNotBelowFile(d, dir);
    var p := dir + [name];
    forall k | 0 <= k < |p|
      ensures p[..k] !in d.files
    {
      assert k < |dir| ==> p[..k] == dir[..k];
      assert k == |dir| ==> p[..k] == dir;
    }
  }

  /** The commit succeeds exactly if the destination fits. */
  lemma {:induction false} CommitExactly(cfg: Config, d: Disk, dir: FilePath, tempName: string, name: string,
                                         x: Exchange, expected: string, bytes: Content)
    requires Valid(d) && dir in d.dirs && !Exists(d, dir + [tempName]) && tempName != name
    ensures var temp, dst := dir + [tempName], dir + [name];
            var (e, r) := Commit(cfg, d.(files := d.files[temp := bytes]), temp, dst, x, expected);
            && (r.Ok? <==> DestinationFits(cfg, d, dst, x, expected))
            && (r.Ok? ==> r.value == dst)
            && (r.Ok? ==> e.files == if dst !in d.files then d.files[dst := bytes]
                                     else if x.cleanupFails then d.files[temp := bytes] else d.files)
  {
    var temp, dst := dir + [tempName], dir + [name];
    assert temp[|dir|] == tempName && dst[|dir|] == name && Parent(dst) == dir && Parent(temp) == dir;
    var d2 := d.(files := d.files[temp := bytes]);
    NewFileKeepsValid(d, temp, bytes);
    SiblingIsClear(d2, dir, name);
    hide BelowFile, Valid;
    assert d2.files - {temp} == d.files;
    assert dst in d2.files <==> dst in d.files;
    if dst !in d.files && dst !in d.dirs {
      assert Rename(d2, temp, dst).files == d.files[dst := bytes];
    }
  }

  /** The temporary file is accepted exactly if its random part has no slash and the name is acceptable. */
  lemma {:induction false} TempIsAccepted(raw: string, id: string)
    requires DownloadRoot(raw).Some?
    ensures var root, name := DownloadRoot(raw).value, TempName(id);
            ValidatedFile(root, name) == Some(RootPath(root) + [name])
            <==> '/' !in id && !HasControl(name) && InTrimmedRoot(root, name)
  {
    var root, name := DownloadRoot(raw).value, TempName(id);
    if '/' !in id {
      TempIsSegment(id);
      ValidatedFileExactly(raw, name);
    } else {
      assert '/' in name by { assert name[18..18 + |id|] == id; }
      ValidatedHasNoSlash(root, name);
    }
  }

  lemma {:induction false} TempIsSegment(id: string)
    requires '/' !in id
    ensures IsSegment(TempName(id)) && TempName(id) != ".."
  {
    assert |TempName(id)| > 10;
  }

  lemma {:induction false} ValidatedHasNoSlash(root: string, name: string)
    requires '/' in name
    ensures ValidatedFile(root, name) != Some(RootPath(root) + [name])
  {
    var p := RootPath(root) + [name];
    var c := Clean(Join(root, name));
    ParseIsClean(c);
    assert p[|RootPath(root)|] == name && !IsSegment(name);
    assert Parse(c).segs != p;
  }

  lemma {:induction false} NamesDiffer(cfg: Config, id: string, ext: Ext)
    ensures TempName(id) != FinalName(cfg, ext)
  {
    FinalNameIsSegment(cfg, ext);
    hide FinalName;
    assert TempName(id)[|TempName(id)| - 1] == 't';
  }

  /** The steps from the creation of the temporary file on. */
  lemma {:induction false} SaveInSteps(cfg: Config, d: Disk, root: string, x: Exchange, expected: string)
    requires x.response.Body?
    ensures var temp, final := TempPath(root, x), ValidatedFile(root, FinalName(cfg, x.response.ext));
            var (e, r) := SaveIn(cfg, d, root, x, expected);
            var goesOn := && !x.createFails && !Exists(d, temp) && ValidatedFile(root, TempName(x.tempId)) == Some(temp)
                          && Acceptable(cfg, x, expected) && final.Some?;
            && (!goesOn ==> r.Err?)
            && (goesOn ==> (e, r) == Commit(cfg, d.(files := d.files[temp := x.response.bytes]), temp, final.value, x,
                expected))
  {
    hide ValidatedFile, FinalName, Acceptable, Commit, Discard, Exists, RootPath, TempName;
  }

  /** The part of `Saves` that the directory plays no part in. */
  predicate BodyFits(cfg: Config, d: Disk, root: string, x: Exchange, expected: string)
    requires x.response.Body?
  {
    var name := FinalName(cfg, x.response.ext);
    && !x.createFails && !Exists(d, TempPath(root, x)) && '/' !in x.tempId
    && !HasControl(TempName(x.tempId)) && InTrimmedRoot(root, TempName(x.tempId))
    && Acceptable(cfg, x, expected)
    && !HasControl(name) && InTrimmedRoot(root, name)
    && DestinationFits(cfg, d, FinalPath(cfg, root, x.response.ext), x, expected)
  }

  lemma {:induction false} SavesIsBodyFits(cfg: Config, d: Disk, x: Exchange, expected: string)
    requires x.response.Body? && DownloadRoot(cfg.incomingDir).Some?
    ensures var root := DownloadRoot(cfg.incomingDir).value;
            Saves(cfg, d, x, expected)
            <==> CanHaveDir(d, RootPath(root), x.mkdirStopAt) && BodyFits(cfg, d, root, x, expected)
  {
    hide DownloadRoot, InTrimmedRoot, HasControl, CanHaveDir, DestinationFits, FinalName, TempName, Exists;
  }

  /** From the creation of the temporary file on. */
  lemma {:induction false} SaveInExactly(cfg: Config, d: Disk, x: Exchange, expected: string)
    requires Valid(d) && x.response.Body? && DownloadRoot(cfg.incomingDir).Some?
    requires RootPath(DownloadRoot(cfg.incomingDir).value) in d.dirs
    ensures var root := DownloadRoot(cfg.incomingDir).value;
            var (e, r) := SaveIn(cfg, d, root, x, expected);
            && (r.Ok? <==> BodyFits(cfg, d, root, x, expected))
            && (r.Ok? ==> r.value == FinalPath(cfg, root, x.response.ext) && e.files == SavedFiles(cfg, d, x))
  {
    var root := DownloadRoot(cfg.incomingDir).value;
    var name := FinalName(cfg, x.response.ext);
    FinalNameIsSegment(cfg, x.response.ext);
    hide DownloadRoot, ValidatedFile, FinalName, TempName, InTrimmedRoot, HasControl, RootPath, IsSegment, Commit,
    Valid,
         DestinationFits, SaveIn, Acceptable;
    TempIsAccepted(cfg.incomingDir, x.tempId);
    ValidatedFileExactly(cfg.incomingDir, name);
    NamesDiffer(cfg, x.tempId, x.response.ext);
    SaveInSteps(cfg, d, root, x, expected);
    if !Exists(d, TempPath(root, x)) {
      CommitExactly(cfg, d, RootPath(root), TempName(x.tempId), name, x, expected, x.response.bytes);
    }
  }

  /** A body is saved exactly if it meets all that is asked of it; then the destination is named, and holds it. */
  lemma {:induction false} SaveSucceedsExactly(cfg: Config, d: Disk, x: Exchange, expected: string)
    requires Valid(d) && x.response.Body?
    ensures var (e, r) := Save(cfg, d, x, expected);
            && (r.Ok? <==> Saves(cfg, d, x, expected))
            && (r.Ok? ==> r.value == FinalPath(cfg, DownloadRoot(cfg.incomingDir).value, x.response.ext)
                          && e.files == SavedFiles(cfg, d, x))
  {
    hide SaveIn, DownloadRoot, MkdirAll, CanHaveDir, BodyFits, SavedFiles, Valid, RootPath, FinalPath;
    if DownloadRoot(cfg.incomingDir).Some? {
      var dir := RootPath(DownloadRoot(cfg.incomingDir).value);
      var (d1, made) := MkdirAll(d, dir, x.mkdirStopAt);
      MkdirAllKeepsValid(d, dir, x.mkdirStopAt);
      DirIsMade(d, dir, x.mkdirStopAt);
      SavesIsBodyFits(cfg, d, x, expected);
      if made {
        SaveInExactly(cfg, d1, x, expected);
        SavesAfterMkdir(cfg, d, d1, x, expected);
      }
    }
  }

  lemma {:induction false} DirIsMade(d: Disk, dir: FilePath, stopAt: nat)
    ensures MkdirAll(d, dir, stopAt).1 <==> CanHaveDir(d, dir, stopAt)
  {
  }

  lemma {:induction false} SavesAfterMkdir(cfg: Config, d: Disk, d1: Disk, x: Exchange, expected: string)
    requires x.response.Body? && DownloadRoot(cfg.incomingDir).Some?
    requires var dir := RootPath(DownloadRoot(cfg.incomingDir).value);
             && (d1, true) == MkdirAll(d, dir, x.mkdirStopAt) && CanHaveDir(d, dir, x.mkdirStopAt)
             && Valid(d) && Valid(d1) && d1.files == d.files && d.dirs <= d1.dirs && dir in d1.dirs
             && forall q :: q in d1.dirs && q !in d.dirs ==> q <= dir
    ensures var root := DownloadRoot(cfg.incomingDir).value;
            BodyFits(cfg, d1, root, x, expected) <==> BodyFits(cfg, d, root, x, expected)
    ensures SavedFiles(cfg, d1, x) == SavedFiles(cfg, d, x)
  {
    hide DownloadRoot, RootPath, InTrimmedRoot, HasControl, FinalName, TempName, BelowFile, Valid, MkdirAll, Acceptable;
    var root := DownloadRoot(cfg.incomingDir).value;
    assert |TempPath(root, x)| > |RootPath(root)| && |FinalPath(cfg, root, x.response.ext)| > |RootPath(root)|;
  }

  // ---------- one download ----------

  /** The answer leads from `url` to `next`: a page with a link, or a browser challenge solved for the same URL. */
  predicate LeadsOn(response: Response, url: string, next: string, mayChallenge: bool) {
    || (response.Page? && !response.notFound && response.link == Some(next))
    || (response.BrowserChallenge? && response.solved && response.cookieSet && mayChallenge && next == url)
  }

  /** No two challenges in a row: one is accepted at the beginning if `may` says so, and after a page. */
  predicate ChallengeAccepted(cfg: Config, from: nat, i: nat, may: bool) {
    if i == 0 then may else !cfg.exchanges(from + i - 1).response.BrowserChallenge?
  }

  predicate LinkAt(cfg: Config, from: nat, urls: seq<string>, i: nat, may: bool)
    requires i + 1 < |urls|
  {
    LeadsOn(cfg.exchanges(from + i).response, urls[i], urls[i + 1], ChallengeAccepted(cfg, from, i, may))
  }

  predicate AllAllowed(cfg: Config, urls: seq<string>) {
    forall i :: 0 <= i < |urls| ==> cfg.allowed(urls[i])
  }

  predicate AllLinked(cfg: Config, from: nat, urls: seq<string>, may: bool) {
    forall i :: 0 <= i < |urls| - 1 ==> LinkAt(cfg, from, urls, i, may)
  }

  /** The answers from number `from` on lead along these URLs, all allowed, to a body. */
  predicate Chain(cfg: Config, from: nat, urls: seq<string>, may: bool) {
    && urls != [] && AllAllowed(cfg, urls) && AllLinked(cfg, from, urls, may)
    && cfg.exchanges(from + |urls| - 1).response.Body?
  }

  lemma {:induction false} AllowedCons(cfg: Config, url: string, rest: seq<string>)
    ensures AllAllowed(cfg, [url] + rest) <==> cfg.allowed(url) && AllAllowed(cfg, rest)
  {
    var urls := [url] + rest;
    assert urls[0] == url && forall i :: 0 <= i < |rest| ==> urls[i + 1] == rest[i];
    if AllAllowed(cfg, urls) {
      forall i | 0 <= i < |rest|
        ensures cfg.allowed(rest[i])
      {
        assert cfg.allowed(urls[i + 1]);
      }
    }
  }

  lemma {:induction false} LinkShifts(cfg: Config, from: nat, url: string, rest: seq<string>, i: nat, may: bool)
    requires i + 1 < |rest|
    ensures LinkAt(cfg, from, [url] + rest, i + 1, may)
            == LinkAt(cfg, from + 1, rest, i, !cfg.exchanges(from).response.BrowserChallenge?)
  {
    hide LeadsOn;
  }

  lemma {:induction false} LinkedCons(cfg: Config, from: nat, url: string, rest: seq<string>, may: bool)
    requires rest != []
    ensures AllLinked(cfg, from, [url] + rest, may)
            <==> LeadsOn(cfg.exchanges(from).response, url, rest[0], may)
                 && AllLinked(cfg, from + 1, rest, !cfg.exchanges(from).response.BrowserChallenge?)
  {
    var urls, after := [url] + rest, !cfg.exchanges(from).response.BrowserChallenge?;
    assert LinkAt(cfg, from, urls, 0, may) == LeadsOn(cfg.exchanges(from).response, url, rest[0], may);
    hide LinkAt, LeadsOn;
    var next := from + 1;
    if AllLinked(cfg, from, urls, may) {
      forall i | 0 <= i < |rest| - 1
        ensures LinkAt(cfg, next, rest, i, after)
      {
        LinkShifts(cfg, from, url, rest, i, may);
        assert LinkAt(cfg, from, urls, i + 1, may);
      }
    }
    if AllLinked(cfg, from + 1, rest, after) && LinkAt(cfg, from, urls, 0, may) {
      forall i | 0 <= i < |urls| - 1
        ensures LinkAt(cfg, from, urls, i, may)
      {
        if i > 0 {
          LinkShifts(cfg, from, url, rest, i - 1, may);
        }
      }
    }
  }

  lemma {:induction false} ChainOfOne(cfg: Config, from: nat, url: string, may: bool)
    ensures Chain(cfg, from, [url], may) <==> cfg.allowed(url) && cfg.exchanges(from).response.Body?
  {
    AllowedCons(cfg, url, []);
    assert [url] + [] == [url];
  }

  lemma {:induction false} ChainGoesOn(cfg: Config, from: nat, url: string, rest: seq<string>, may: bool)
    requires rest != []
    ensures Chain(cfg, from, [url] + rest, may)
            <==> && cfg.allowed(url) && LeadsOn(cfg.exchanges(from).response, url, rest[0], may)
                 && Chain(cfg, from + 1, rest, !cfg.exchanges(from).response.BrowserChallenge?)
  {
    hide LeadsOn, AllAllowed, AllLinked;
    AllowedCons(cfg, url, rest);
    LinkedCons(cfg, from, url, rest, may);
  }

  /** A chain of more than one URL does not begin with a body. */
  lemma {:induction false} BodyEndsChain(cfg: Config, from: nat, urls: seq<string>, may: bool)
    requires Chain(cfg, from, urls, may) && cfg.exchanges(from).response.Body?
    ensures |urls| == 1
  {
    hide LinkAt;
    if |urls| > 1 {
      LinkIsNoBody(cfg, from, urls, may);
    }
  }

  lemma {:induction false} LinkIsNoBody(cfg: Config, from: nat, urls: seq<string>, may: bool)
    requires |urls| > 1 && LinkAt(cfg, from, urls, 0, may)
    ensures !cfg.exchanges(from).response.Body?
  {
  }

  /** The requests made from here on end in a body that is saved. */
  ghost predicate Arrives(cfg: Config, s: State, url: string, may: bool, hops: int, expected: string,
                          urls: seq<string>) {
    && urls != [] && urls[0] == url && |urls| <= hops + 1
    && Chain(cfg, s.exchanged, urls, may)
    && Saves(cfg, s.disk, cfg.exchanges(s.exchanged + |urls| - 1), expected)
  }

  ghost predicate CanArrive(cfg: Config, s: State, url: string, may: bool, hops: int, expected: string) {
    exists urls :: Arrives(cfg, s, url, may, hops, expected, urls)
  }

  lemma {:induction false} ArrivesAtOnce(cfg: Config, s: State, url: string, may: bool, hops: int, expected: string)
    requires cfg.exchanges(s.exchanged).response.Body?
    ensures CanArrive(cfg, s, url, may, hops, expected)
            <==> hops >= 0 && cfg.allowed(url) && Saves(cfg, s.disk, cfg.exchanges(s.exchanged), expected)
    ensures forall urls :: Arrives(cfg, s, url, may, hops, expected, urls) ==> urls == [url]
  {
    hide Saves;
    ChainOfOne(cfg, s.exchanged, url, may);
    hide Chain;
    forall urls | Arrives(cfg, s, url, may, hops, expected, urls)
      ensures urls == [url]
    {
      BodyEndsChain(cfg, s.exchanged, urls, may);
    }
    if hops >= 0 && cfg.allowed(url) && Saves(cfg, s.disk, cfg.exchanges(s.exchanged), expected) {
      assert Arrives(cfg, s, url, may, hops, expected, [url]);
    }
  }

  lemma {:induction false} ArrivesLater(cfg: Config, s: State, t: State, url: string, may: bool, hops: int,
                                        expected: string, urls: seq<string>)
    requires !cfg.exchanges(s.exchanged).response.Body? && t.exchanged == s.exchanged + 1 && t.disk == s.disk
    requires Arrives(cfg, s, url, may, hops, expected, urls)
    ensures |urls| > 1 && cfg.allowed(url) && hops > 0
    ensures LeadsOn(cfg.exchanges(s.exchanged).response, url, urls[1], may)
    ensures Arrives(cfg, t, urls[1], !cfg.exchanges(s.exchanged).response.BrowserChallenge?, hops - 1, expected,
              urls[1..])
  {
    hide Saves, LeadsOn;
    assert |urls| > 1;
    assert urls == [url] + urls[1..];
    ChainGoesOn(cfg, s.exchanged, url, urls[1..], may);
  }

  lemma {:induction false} ArrivesThrough(cfg: Config, s: State, t: State, url: string, next: string, may: bool,
                                          hops: int, expected: string, rest: seq<string>)
    requires t.exchanged == s.exchanged + 1 && t.disk == s.disk && cfg.allowed(url)
    requires LeadsOn(cfg.exchanges(s.exchanged).response, url, next, may)
    requires Arrives(cfg, t, next, !cfg.exchanges(s.exchanged).response.BrowserChallenge?, hops - 1, expected, rest)
    ensures Arrives(cfg, s, url, may, hops, expected, [url] + rest)
  {
    hide Saves, LeadsOn;
    ChainGoesOn(cfg, s.exchanged, url, rest, may);
  }

  /** The attempt after a first answer that leads on. */
  lemma {:induction false} AttemptGoesOn(cfg: Config, s: State, url: string, may: bool, depth: nat, expected: string)
    requires depth <= MAX_HOPS && cfg.allowed(url) && !cfg.exchanges(s.exchanged).response.Body?
    ensures var x := cfg.exchanges(s.exchanged);
            var t := s.(exchanged := s.exchanged + 1, requests := s.requests + [url]);
            forall next :: LeadsOn(x.response, url, next, may) ==>
              Attempt(cfg, s, url, may, depth, expected)
              == Attempt(cfg, t, next, !x.response.BrowserChallenge?, depth + 1, expected)
    ensures (forall next :: !LeadsOn(cfg.exchanges(s.exchanged).response, url, next, may)) ==>
              Attempt(cfg, s, url, may, depth, expected).1.Err?
  {
    hide Save;
    var x := cfg.exchanges(s.exchanged);
    if forall next :: !LeadsOn(x.response, url, next, may) {
      assert !LeadsOn(x.response, url, url, may);
      if x.response.Page? && x.response.link.Some? {
        assert !LeadsOn(x.response, url, x.response.link.value, may);
      }
    }
  }

  /** A download succeeds exactly if the answers lead, along allowed URLs and over at most as many links and
      challenges as are left, to a body that is saved on the disk as it is. */
  lemma {:induction false} AttemptSucceedsExactly(cfg: Config, s: State, url: string, may: bool, depth: nat,
                                                  expected: string)
    requires Valid(s.disk) && depth <= MAX_HOPS + 1
    ensures Attempt(cfg, s, url, may, depth, expected).1.Ok?
            <==> CanArrive(cfg, s, url, may, MAX_HOPS - depth, expected)
    decreases MAX_HOPS + 1 - depth
  {
    hide Save, Saves, LeadsOn, Valid;
    var x := cfg.exchanges(s.exchanged);
    var hops := MAX_HOPS - depth;
    if depth > MAX_HOPS || !cfg.allowed(url) {
      NeverArrives(cfg, s, url, may, hops, expected);
    } else if x.response.Body? {
      ArrivesAtOnce(cfg, s, url, may, hops, expected);
      SaveSucceedsExactly(cfg, s.disk, x, expected);
    } else {
      var t := s.(exchanged := s.exchanged + 1, requests := s.requests + [url]);
      AttemptGoesOn(cfg, s, url, may, depth, expected);
      hide Attempt, Arrives;
      forall urls | Arrives(cfg, s, url, may, hops, expected, urls)
        ensures Attempt(cfg, s, url, may, depth, expected).1.Ok?
      {
        ArrivesLater(cfg, s, t, url, may, hops, expected, urls);
        AttemptSucceedsExactly(cfg, t, urls[1], !x.response.BrowserChallenge?, depth + 1, expected);
      }
      forall next | LeadsOn(x.response, url, next, may) && Attempt(cfg, s, url, may, depth, expected).1.Ok?
        ensures CanArrive(cfg, s, url, may, hops, expected)
      {
        AttemptSucceedsExactly(cfg, t, next, !x.response.BrowserChallenge?, depth + 1, expected);
        var rest :| Arrives(cfg, t, next, !x.response.BrowserChallenge?, hops - 1, expected, rest);
        ArrivesThrough(cfg, s, t, url, next, may, hops, expected, rest);
      }
    }
  }

  lemma {:induction false} NeverArrives(cfg: Config, s: State, url: string, may: bool, hops: int, expected: string)
    requires hops < 0 || !cfg.allowed(url)
    ensures !CanArrive(cfg, s, url, may, hops, expected)
  {
    hide Saves;
  }

  /** What an attempt has done when it has saved body number `body` after these requests. */
  ghost predicate Saved(cfg: Config, s: State, c: (State, Result<FilePath, Error>), urls: seq<string>, body: nat) {
    && cfg.exchanges(body).response.Body? && DownloadRoot(cfg.incomingDir).Some?
    && c.1 == Ok(FinalPath(cfg, DownloadRoot(cfg.incomingDir).value, cfg.exchanges(body).response.ext))
    && c.0.disk.files == SavedFiles(cfg, s.disk, cfg.exchanges(body))
    && c.0.requests == s.requests + urls && c.0.exchanged == s.exchanged + |urls|
  }

  lemma {:induction false} SavedAtOnce(cfg: Config, s: State, url: string, may: bool, depth: nat, expected: string)
    requires Valid(s.disk) && depth <= MAX_HOPS && cfg.allowed(url) && cfg.exchanges(s.exchanged).response.Body?
    requires Saves(cfg, s.disk, cfg.exchanges(s.exchanged), expected)
    ensures Saved(cfg, s, Attempt(cfg, s, url, may, depth, expected), [url], s.exchanged)
  {
    var x := cfg.exchanges(s.exchanged);
    assert DownloadRoot(cfg.incomingDir).Some?;
    hide Save, Valid, SavedFiles, DownloadRoot, Saves, FinalPath;
    SaveSucceedsExactly(cfg, s.disk, x, expected);
    AttemptOfBody(cfg, s, url, may, depth, expected);
    hide Attempt;
  }

  lemma {:induction false} AttemptOfBody(cfg: Config, s: State, url: string, may: bool, depth: nat, expected: string)
    requires depth <= MAX_HOPS && cfg.allowed(url) && cfg.exchanges(s.exchanged).response.Body?
    ensures var (d, r) := Save(cfg, s.disk, cfg.exchanges(s.exchanged), expected);
            Attempt(cfg, s, url, may, depth, expected)
            == (s.(exchanged := s.exchanged + 1, requests := s.requests + [url], disk := d), r)
  {
    hide Save;
  }

  lemma {:induction false} SavedLater(cfg: Config, s: State, t: State, c: (State, Result<FilePath, Error>), url: string,
                                      rest: seq<string>, body: nat)
    requires t == s.(exchanged := s.exchanged + 1, requests := s.requests + [url]) && Saved(cfg, t, c, rest, body)
    ensures Saved(cfg, s, c, [url] + rest, body)
  {
    hide SavedFiles, DownloadRoot, FinalPath;
    assert s.requests + [url] + rest == s.requests + ([url] + rest);
  }

  /** A successful download makes exactly those requests, and saves exactly that body. */
  lemma {:induction false} AttemptSaves(cfg: Config, s: State, url: string, may: bool, depth: nat, expected: string,
                                        urls: seq<string>)
    requires Valid(s.disk) && depth <= MAX_HOPS + 1 && Arrives(cfg, s, url, may, MAX_HOPS - depth, expected, urls)
    ensures Saved(cfg, s, Attempt(cfg, s, url, may, depth, expected), urls, s.exchanged + |urls| - 1)
    decreases MAX_HOPS + 1 - depth
  {
    var x := cfg.exchanges(s.exchanged);
    hide LeadsOn, Valid, Attempt, Saves, Saved;
    if x.response.Body? {
      ArrivesAtOnce(cfg, s, url, may, MAX_HOPS - depth, expected);
      SavedAtOnce(cfg, s, url, may, depth, expected);
    } else {
      var t := s.(exchanged := s.exchanged + 1, requests := s.requests + [url]);
      ArrivesLater(cfg, s, t, url, may, MAX_HOPS - depth, expected, urls);
      AttemptGoesOn(cfg, s, url, may, depth, expected);
      AttemptSaves(cfg, t, urls[1], !x.response.BrowserChallenge?, depth + 1, expected, urls[1..]);
      assert urls == [url] + urls[1..];
      SavedLater(cfg, s, t, Attempt(cfg, s, url, may, depth, expected), url, urls[1..], s.exchanged + |urls| - 1);
    }
  }

  // ---------- the mirrors ----------

  /** The URL is such that a download from it, now, succeeds under this checksum. */
  ghost predicate Downloads(cfg: Config, s: State, url: string, md5: string) {
    CanArrive(cfg, s, url, true, 5, NormalizeMd5(md5))
  }

  lemma {:induction false} DownloadSucceedsExactly(cfg: Config, s: State, url: string, md5: string)
    requires Valid(s.disk)
    ensures DownloadFile(cfg, s, url, md5).1.Ok? <==> Downloads(cfg, s, url, md5)
  {
    hide Attempt, NormalizeMd5;
    AttemptSucceedsExactly(cfg, s, url, true, 0, NormalizeMd5(md5));
  }

  /** Mirror `i`, not seen before, gives a link that no download was started from. */
  predicate FreshLink(cfg: Config, s: State, seen: set<string>, i: nat, url: string)
    requires i < |cfg.mirrors|
  {
    var name := MirrorName(cfg.mirrors[i]);
    && name != "" && name !in seen && url !in s.starts
    && cfg.lookups(s.lookedUp).Link? && url == name + "/" + cfg.lookups(s.lookedUp).link
  }

  function LinkOf(cfg: Config, s: State, i: nat): string
    requires i < |cfg.mirrors|
  {
    var lookup := cfg.lookups(s.lookedUp);
    MirrorName(cfg.mirrors[i]) + "/" + if lookup.Link? then lookup.link else ""
  }

  /** The moment a download from this link is started. */
  function StartAt(s: State, url: string): State {
    s.(lookedUp := s.lookedUp + 1, starts := s.starts + [url])
  }

  /** How things stand after mirror `i` did not deliver: a blank or repeated mirror is passed over, any other has
      been looked up, and from a fresh link a download was tried. */
  function AfterMirror(cfg: Config, md5: string, at: (State, set<string>), i: nat): (State, set<string>)
    requires i < |cfg.mirrors|
  {
    var (s, seen) := at;
    var name := MirrorName(cfg.mirrors[i]);
    if name == "" || name in seen then at
    else if FreshLink(cfg, s, seen, i, LinkOf(cfg, s, i)) then
      (DownloadFile(cfg, StartAt(s, LinkOf(cfg, s, i)), LinkOf(cfg, s, i), md5).0, seen + {name})
    else (s.(lookedUp := s.lookedUp + 1), seen + {name})
  }

  /** How things stand when the first `k` mirrors did not deliver. */
  function BeforeMirror(cfg: Config, md5: string, s: State, k: nat): (State, set<string>)
    requires k <= |cfg.mirrors|
  {
    if k == 0 then (s, {}) else AfterMirror(cfg, md5, BeforeMirror(cfg, md5, s, k - 1), k - 1)
  }

  /** Mirror `k` delivers when its turn comes. */
  ghost predicate MirrorDelivers(cfg: Config, md5: string, s: State, k: nat)
    requires k < |cfg.mirrors|
  {
    var (t, seen) := BeforeMirror(cfg, md5, s, k);
    var url := LinkOf(cfg, t, k);
    FreshLink(cfg, t, seen, k, url) && Downloads(cfg, StartAt(t, url), url, md5)
  }

  lemma {:induction false} MirrorTurn(cfg: Config, md5: string, s: State, seen: set<string>, i: nat,
                                      last: Option<Error>)
      returns (later: Option<Error>)
    requires i < |cfg.mirrors| && Valid(s.disk)
    ensures var url := LinkOf(cfg, s, i);
            if FreshLink(cfg, s, seen, i, url) && DownloadFile(cfg, StartAt(s, url), url, md5).1.Ok? then
              Mirrors(cfg, s, md5, i, seen, last) == DownloadFile(cfg, StartAt(s, url), url, md5)
            else
              var (t, seen') := AfterMirror(cfg, md5, (s, seen), i);
              Mirrors(cfg, s, md5, i, seen, last) == Mirrors(cfg, t, md5, i + 1, seen', later)
  {
    hide DownloadFile, MirrorName, Valid;
    var name := MirrorName(cfg.mirrors[i]);
    later := if name == "" || name in seen then last
             else if cfg.lookups(s.lookedUp) == NoMatch then Some(NotMatched) else Some(OtherError);
  }

  lemma {:induction false} AfterMirrorIsValid(cfg: Config, md5: string, s: State, k: nat)
    requires Valid(s.disk) && k <= |cfg.mirrors|
    ensures Valid(BeforeMirror(cfg, md5, s, k).0.disk)
  {
    hide DownloadFile, MirrorName, Valid, Progress, Landed, FilesRestored, FreshLink;
    if k > 0 {
      AfterMirrorIsValid(cfg, md5, s, k - 1);
      var t := BeforeMirror(cfg, md5, s, k - 1).0;
      var url := LinkOf(cfg, t, k - 1);
      DownloadFileMeaning(cfg, StartAt(t, url), url, md5);
      ProgressFacts(cfg, StartAt(t, url), DownloadFile(cfg, StartAt(t, url), url, md5).0, 6);
    }
  }

  /** The loop from mirror `k` on, when none before it delivered. */
  lemma {:induction false} MirrorsFrom(cfg: Config, md5: string, s: State, k: nat, last: Option<Error>)
    requires Valid(s.disk) && k <= |cfg.mirrors|
    ensures var (t, seen) := BeforeMirror(cfg, md5, s, k);
            Mirrors(cfg, t, md5, k, seen, last).1.Ok? <==>
            exists j :: k <= j < |cfg.mirrors| && MirrorDelivers(cfg, md5, s, j)
    decreases |cfg.mirrors| - k
  {
    hide DownloadFile, Valid, Mirrors, FreshLink, Downloads, AfterMirror;
    var (t, seen) := BeforeMirror(cfg, md5, s, k);
    AfterMirrorIsValid(cfg, md5, s, k);
    if k == |cfg.mirrors| {
      NoMoreMirrors(cfg, t, md5, seen, last);
    } else {
      var url := LinkOf(cfg, t, k);
      var later := MirrorTurn(cfg, md5, t, seen, k, last);
      DownloadSucceedsExactly(cfg, StartAt(t, url), url, md5);
      assert MirrorDelivers(cfg, md5, s, k) <==>
             FreshLink(cfg, t, seen, k, url) && DownloadFile(cfg, StartAt(t, url), url, md5).1.Ok?;
      hide MirrorDelivers;
      if !MirrorDelivers(cfg, md5, s, k) {
        var (t', seen') := AfterMirror(cfg, md5, (t, seen), k);
        MirrorsFrom(cfg, md5, s, k + 1, later);
        assert BeforeMirror(cfg, md5, s, k + 1) == (t', seen');
      }
    }
  }

  lemma {:induction false} NoMoreMirrors(cfg: Config, s: State, md5: string, seen: set<string>, last: Option<Error>)
    ensures Mirrors(cfg, s, md5, |cfg.mirrors|, seen, last).1.Err?
  {
  }

  ghost predicate SomeMirrorDelivers(cfg: Config, md5: string, s: State) {
    exists k :: 0 <= k < |cfg.mirrors| && MirrorDelivers(cfg, md5, s, k)
  }

  /** The mirrors deliver under a checksum exactly if one of them does when its turn comes. */
  lemma {:induction false} MirrorsSucceedExactly(cfg: Config, md5: string, s: State)
    requires Valid(s.disk)
    ensures Mirrors(cfg, s, md5, 0, {}, None).1.Ok? <==> SomeMirrorDelivers(cfg, md5, s)
  {
    hide Mirrors, MirrorDelivers, Valid;
    MirrorsFrom(cfg, md5, s, 0, None);
  }

  // ---------- the alternatives and the whole run ----------

  /** A search result that is tried: a checksum not tried before, for a matching title, among the first five. */
  predicate IsTried(result: Found, at: (State, set<string>, nat)) {
    NormalizeMd5(result.md5) != "" && NormalizeMd5(result.md5) !in at.1 && result.titleMatches && at.2 < 5
  }

  function TryNow(s: State, md5: string): State {
    s.(tried := s.tried + [md5])
  }

  /** How things stand after a search result did not deliver; nothing is tried after the fifth. */
  function AfterResult(cfg: Config, result: Found, at: (State, set<string>, nat)): (State, set<string>, nat) {
    var md5 := NormalizeMd5(result.md5);
    if IsTried(result, at) then
      (Mirrors(cfg, TryNow(at.0, md5), md5, 0, {}, None).0, at.1 + {md5}, at.2 + 1)
    else at
  }

  function BeforeResult(cfg: Config, s: State, results: seq<Found>, seen: set<string>, k: nat)
      : (State, set<string>, nat)
    requires k <= |results|
  {
    if k == 0 then (s, seen, 0) else AfterResult(cfg, results[k - 1], BeforeResult(cfg, s, results, seen, k - 1))
  }

  ghost predicate ResultDelivers(cfg: Config, s: State, results: seq<Found>, seen: set<string>, k: nat)
    requires k < |results|
  {
    var at := BeforeResult(cfg, s, results, seen, k);
    var md5 := NormalizeMd5(results[k].md5);
    IsTried(results[k], at) && SomeMirrorDelivers(cfg, md5, TryNow(at.0, md5))
  }

  lemma {:induction false} MirrorsKeepValid(cfg: Config, md5: string, s: State)
    requires Valid(s.disk)
    ensures Valid(Mirrors(cfg, s, md5, 0, {}, None).0.disk)
  {
    hide Mirrors, Valid, Landed, FilesRestored, Progress;
    MirrorsMeaning(cfg, s, md5, 0, {}, None);
    ProgressKeepsValid(cfg, s, Mirrors(cfg, s, md5, 0, {}, None).0);
  }

  lemma {:induction false} BeforeResultIsValid(cfg: Config, s: State, results: seq<Found>, seen: set<string>, k: nat)
    requires Valid(s.disk) && k <= |results|
    ensures Valid(BeforeResult(cfg, s, results, seen, k).0.disk)
  {
    hide Mirrors, Valid, IsTried, NormalizeMd5;
    if k > 0 {
      BeforeResultIsValid(cfg, s, results, seen, k - 1);
      var at, md5 := BeforeResult(cfg, s, results, seen, k - 1), NormalizeMd5(results[k - 1].md5);
      MirrorsKeepValid(cfg, md5, TryNow(at.0, md5));
    }
  }

  /** Once five have been tried without success, or the results are used up, the alternatives have failed. */
  lemma {:induction false} AlternativesFrom(cfg: Config, s: State, results: seq<Found>, seen: set<string>, k: nat,
                                            last: Error)
    requires Valid(s.disk) && k <= |results|
    ensures var at := BeforeResult(cfg, s, results, seen, k);
            Alternatives(cfg, at.0, results, k, at.1, at.2, last).1.Ok?
            <==> exists j :: k <= j < |results| && ResultDelivers(cfg, s, results, seen, j)
    decreases |results| - k
  {
    hide Mirrors, Valid, NormalizeMd5, SomeMirrorDelivers;
    var at := BeforeResult(cfg, s, results, seen, k);
    BeforeResultIsValid(cfg, s, results, seen, k);
    if k < |results| {
      var md5 := NormalizeMd5(results[k].md5);
      MirrorsSucceedExactly(cfg, md5, TryNow(at.0, md5));
      var (t, r) := Mirrors(cfg, TryNow(at.0, md5), md5, 0, {}, None);
      if IsTried(results[k], at) {
        if r.Ok? {
          assert ResultDelivers(cfg, s, results, seen, k);
        } else {
          AlternativesFrom(cfg, s, results, seen, k + 1, r.error);
        }
      } else if at.2 >= 5 {
        NoneAfterFive(cfg, s, results, seen, k);
        hide ResultDelivers;
        AlternativesFrom(cfg, s, results, seen, k + 1, last);
      } else {
        AlternativesFrom(cfg, s, results, seen, k + 1, last);
      }
    }
  }

  lemma {:induction false} NoneAfterFive(cfg: Config, s: State, results: seq<Found>, seen: set<string>, k: nat)
    requires k <= |results| && BeforeResult(cfg, s, results, seen, k).2 >= 5
    ensures forall j :: k <= j < |results| ==> !ResultDelivers(cfg, s, results, seen, j)
    decreases |results| - k
  {
    hide Mirrors, NormalizeMd5, SomeMirrorDelivers;
    if k < |results| {
      NoneAfterFive(cfg, s, results, seen, k + 1);
    }
  }

  /** A whole run succeeds exactly if the fast path delivers the wanted file; or else one of the mirrors does; or
      else a search succeeds and one of the first five matching alternatives is delivered by a mirror. */
  lemma {:induction false} RunSucceedsExactly(cfg: Config, s: State, md5: string, fast: FastPath,
                                              search: Result<seq<Found>, Error>)
    requires Valid(s.disk)
    ensures var wanted := KeptMd5(md5);
            var s1 := if fast.Url? then DownloadFile(cfg, s, fast.url, wanted).0 else s;
            var s2 := Mirrors(cfg, s1, wanted, 0, {}, None).0;
            var seen := if NormalizeMd5(wanted) != "" then {NormalizeMd5(wanted)} else {};
            FromAnnas(cfg, s, md5, fast, search).1.Ok? <==>
              || (fast.Url? && Downloads(cfg, s, fast.url, wanted))
              || SomeMirrorDelivers(cfg, wanted, s1)
              || (search.Ok? && exists k :: 0 <= k < |search.value| && ResultDelivers(cfg, s2, search.value, seen, k))
  {
    hide Mirrors, DownloadFile, Alternatives, Valid, NormalizeMd5, KeptMd5, Downloads, SomeMirrorDelivers;
    hide ResultDelivers, Progress, Landed, FilesRestored;
    var wanted := KeptMd5(md5);
    var s1 := if fast.Url? then DownloadFile(cfg, s, fast.url, wanted).0 else s;
    if fast.Url? {
      DownloadSucceedsExactly(cfg, s, fast.url, wanted);
      DownloadFileMeaning(cfg, s, fast.url, wanted);
      ProgressFacts(cfg, s, s1, 6);
    }
    MirrorsSucceedExactly(cfg, wanted, s1);
    MirrorsKeepValid(cfg, wanted, s1);
    var (s2, r2) := Mirrors(cfg, s1, wanted, 0, {}, None);
    if search.Ok? && r2.Err? {
      var seen := if NormalizeMd5(wanted) != "" then {NormalizeMd5(wanted)} else {};
      AlternativesFrom(cfg, s2, search.value, seen, 0, r2.error);
    }
  }
}
