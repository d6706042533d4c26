/** internal/download/direct.go: downloading a file whose checksum is known from servers that may answer
    anything. Responses, file-system failures, search results and the hash function are parameters. */
module Download {
  import opened Text
  import opened Wrappers
  import opened Paths
  import opened Disk

  datatype Ext = Epub | Pdf | Cbr | Mobi

  function ExtText(e: Ext): (s: string)
    ensures |s| >= 4 && s[|s| - 1] != 't' && s[|s| - 1] != '/' && s[|s| - 1] != '.'
  {
    match e
    case Epub => ".epub"
    case Pdf => ".pdf"
    case Cbr => ".cbr"
    case Mobi => ".mobi"
  }

  /** What a server answers to a file request. */
  datatype Response =
    | TransportError
    | BrowserChallenge(solved: bool, cookieSet: bool)
    | HttpError
    | Page(notFound: bool, link: Option<string>)
    | Body(bytes: Content, ext: Ext)

  /** One file request: the answer, and how the file system treats an attempt to save it. */
  datatype Exchange = Exchange(
    response: Response, mkdirStopAt: nat, createFails: bool, tempId: string, writeFails: bool, hashFails: bool,
    epubAccepted: bool, rereadFails: bool, renameFails: bool, cleanupFails: bool)

  /** What a mirror's lookup page gives: a link relative to the mirror, or none. */
  datatype Lookup = NoMatch | LookupFailed | Link(link: string)

  datatype Error = NotMatched | OtherError

  datatype Config = Config(
    incomingDir: string, title: string, mirrors: seq<string>,
    allowed: string -> bool, md5: Content -> string, exchanges: nat -> Exchange, lookups: nat -> Lookup)

  /** The disk, how many answers have been consumed, and what has been asked for: every file request, every
      mirror download started, and every alternative checksum tried. */
  datatype State = State(
    disk: Disk, exchanged: nat, lookedUp: nat, requests: seq<string>, starts: seq<string>, tried: seq<string>)

  const MAX_HOPS := 5
  const MIN_BYTES := 1000
  const MAX_ALTERNATIVES := 5

  // ---------- paths ----------

  predicate HasControl(s: string) {
    0 as char in s || '\r' in s || '\n' in s
  }

  /** validatedDownloadRoot */
  function DownloadRoot(raw: string): Option<string> {
    var root := Clean(TrimSpace(raw));
    if root == "." || !IsAbs(root) || HasControl(root) then None else Some(root)
  }

  /** validateDownloadPath */
  function ValidatePath(root: string, candidate: string): Option<string> {
    match DownloadRoot(root)
    case None => None
    case Some(r) =>
      var c := Clean(candidate);
      if !IsAbs(c) || HasControl(c) then None
      else
        match Rel(r, c)
        case None => None
        case Some(rel) => if IsAbs(rel) || EscapesRoot(rel) then None else Some(c)
  }

  /** The characters a sanitised file name keeps: `[\\w\\s-]` of Go's regexp package. */
  predicate KeptInName(c: char) {
    'a' <= c <= 'z' || 'A' <= c <= 'Z' || '0' <= c <= '9' || c == '_' || c == '-'
    || c == ' ' || c == '\t' || c == '\n' || c == '\r' || c == 0x0C as char
  }

  const DIGITS := "0123456789"
  const UPPER := "ABCDEFGHIJKLMNOPQRSTUVWXYZ"
  const LOWER := "abcdefghijklmnopqrstuvwxyz"

  predicate IsNameChar(c: char) {
    c in DIGITS || c in UPPER || c in LOWER || c in "_- \t\n\r\U{000C}"
  }

  lemma {:induction false} NameChars(c: char)
    ensures KeptInName(c) <==> IsNameChar(c)
  {
    Digits(c);
    UpperLetters(c);
    LowerLetters(c);
  }

  lemma {:induction false} Digits(c: char)
    ensures c in DIGITS <==> '0' <= c <= '9'
  {
    InAlphabet(DIGITS, '0', c);
  }

  lemma {:induction false} UpperLetters(c: char)
    ensures c in UPPER <==> 'A' <= c <= 'Z'
  {
    InAlphabet(UPPER, 'A', c);
  }

  lemma {:induction false} LowerLetters(c: char)
    ensures c in LOWER <==> 'a' <= c <= 'z'
  {
    InAlphabet(LOWER, 'a', c);
  }

  lemma {:induction false} InAlphabet(alphabet: string, first: char, c: char)
    requires forall i :: 0 <= i < |alphabet| ==> alphabet[i] as int == first as int + i
    ensures c in alphabet <==> first as int <= c as int < first as int + |alphabet|
  {
    if first as int <= c as int < first as int + |alphabet| {
      assert alphabet[c as int - first as int] == c;
    }
  }

  function KeepNameChars(s: string): (t: string)
    ensures forall i :: 0 <= i < |t| ==> KeptInName(t[i])
  {
    if s == "" then "" else (if KeptInName(s[0]) then [s[0]] else "") + KeepNameChars(s[1..])
  }

  /** sanitizeFilename with a limit of 80 bytes. */
  function SanitizeFilename(name: string): string {
    CutName(TrimSpace(KeepNameChars(name)))
  }

  function CutName(trimmed: string): string {
    var cut := if |trimmed| > 80 then trimmed[..80] else trimmed;
    if cut == "" then "book" else cut
  }

  lemma {:induction false} SanitizedChars(name: string)
    ensures var t := SanitizeFilename(name); t != "" && |t| <= 80 && forall i :: 0 <= i < |t| ==> KeptInName(t[i])
  {
    hide TrimSpace, KeepNameChars, KeptInName, CutName;
    TrimKeepsNameChars(KeepNameChars(name));
    CutIsShort(TrimSpace(KeepNameChars(name)));
  }

  lemma {:induction false} CutIsShort(trimmed: string)
    ensures var t := CutName(trimmed); t != "" && |t| <= 80 && (t <= trimmed || t == "book")
    ensures (forall i :: 0 <= i < |trimmed| ==> KeptInName(trimmed[i])) ==>
              forall i :: 0 <= i < |CutName(trimmed)| ==> KeptInName(CutName(trimmed)[i])
  {
    hide KeptInName;
    assert KeptInName('b') && KeptInName('o') && KeptInName('k') by {
      BookIsKept();
    }
  }

  lemma {:induction false} BookIsKept()
    ensures KeptInName('b') && KeptInName('o') && KeptInName('k')
  {
  }

  lemma {:induction false} TrimKeepsNameChars(s: string)
    requires forall i :: 0 <= i < |s| ==> KeptInName(s[i])
    ensures forall i :: 0 <= i < |TrimSpace(s)| ==> KeptInName(TrimSpace(s)[i])
  {
    var a, b := TrimIsSlice(s);
  }

  function RootPath(root: string): FilePath {
    Parse(root).segs
  }

  function TempName(id: string): string {
    ".librarr-download-" + id + ".part"
  }

  function FinalName(cfg: Config, ext: Ext): string {
    SanitizeFilename(cfg.title) + ExtText(ext)
  }

  /** The temporary or final path, if it passes validateDownloadPath. */
  function ValidatedFile(root: string, name: string): Option<FilePath> {
    match ValidatePath(root, Join(root, name))
    case None => None
    case Some(path) => Some(Parse(path).segs)
  }

  // ---------- saving one body ----------

  /** The deferred removal of the temporary file. */
  function Discard(d: Disk, temp: FilePath, x: Exchange): Disk {
    if x.cleanupFails then d else d.(files := d.files - {temp})
  }

  /** The checks between writing the temporary file and committing it. */
  predicate Acceptable(cfg: Config, x: Exchange, expected: string)
    requires x.response.Body?
  {
    var bytes := x.response.bytes;
    && !x.writeFails && |bytes| >= MIN_BYTES
    && (expected != "" ==> !x.hashFails && cfg.md5(bytes) == expected)
    && (x.response.ext == Epub ==> x.epubAccepted)
  }

  /** Commits the temporary file, or recognises that the destination already holds the expected content. */
  function Commit(cfg: Config, d: Disk, temp: FilePath, dst: FilePath, x: Exchange, expected: string)
      : (Disk, Result<FilePath, Error>) {
    match Lstat(d, dst)
    case IsFile =>
      if expected != "" && !x.rereadFails && cfg.md5(d.files[dst]) == expected then (Discard(d, temp, x), Ok(dst))
      else (Discard(d, temp, x), Err(OtherError))
    case IsDir => (Discard(d, temp, x), Err(OtherError))
    case NotDir => (Discard(d, temp, x), Err(OtherError))
    case NotExist =>
      if x.renameFails || !CanRename(d, temp, dst) then (Discard(d, temp, x), Err(OtherError))
      else (Rename(d, temp, dst), Ok(dst))
  }

  /** From the creation of the temporary file in an existing directory on. */
  function SaveIn(cfg: Config, d: Disk, root: string, x: Exchange, expected: string): (Disk, Result<FilePath, Error>)
    requires x.response.Body?
  {
    var temp := RootPath(root) + [TempName(x.tempId)];
    if x.createFails || Exists(d, temp) then (d, Err(OtherError))
    else if ValidatedFile(root, TempName(x.tempId)) != Some(temp) then
      (Discard(d.(files := d.files[temp := []]), temp, x), Err(OtherError))
    else
      var d2 := d.(files := d.files[temp := x.response.bytes]);
      if !Acceptable(cfg, x, expected) then (Discard(d2, temp, x), Err(OtherError))
      else
        match ValidatedFile(root, FinalName(cfg, x.response.ext))
        case None => (Discard(d2, temp, x), Err(OtherError))
        case Some(dst) => Commit(cfg, d2, temp, dst, x, expected)
  }

  /** The part of downloadFileAttemptWithExpectedMD5 that saves a body. */
  function Save(cfg: Config, d: Disk, x: Exchange, expected: string): (Disk, Result<FilePath, Error>)
    requires x.response.Body?
  {
    match DownloadRoot(cfg.incomingDir)
    case None => (d, Err(OtherError))
    case Some(root) =>
      var (d1, made) := MkdirAll(d, RootPath(root), x.mkdirStopAt);
      if !made then (d1, Err(OtherError)) else SaveIn(cfg, d1, root, x, expected)
  }

  // ---------- one download ----------

  /** downloadFileAttemptWithExpectedMD5. */
  function Attempt(cfg: Config, s: State, url: string, allowChallenge: bool, depth: nat, expected: string)
      : (r: (State, Result<FilePath, Error>))
    decreases MAX_HOPS + 1 - depth
  {
    if depth > MAX_HOPS || !cfg.allowed(url) then (s, Err(OtherError))
    else
      var x := cfg.exchanges(s.exchanged);
      var t := s.(exchanged := s.exchanged + 1, requests := s.requests + [url]);
      match x.response
      case TransportError => (t, Err(OtherError))
      case HttpError => (t, Err(OtherError))
      case BrowserChallenge(solved, cookieSet) =>
        if allowChallenge && solved && cookieSet then Attempt(cfg, t, url, false, depth + 1, expected)
        else (t, Err(OtherError))
      case Page(notFound, link) =>
        if notFound || link.None? then (t, Err(OtherError))
        else Attempt(cfg, t, link.value, true, depth + 1, expected)
      case Body(_, _) =>
        var (d, r) := Save(cfg, t.disk, x, expected);
        (t.(disk := d), r)
  }

  predicate IsHex(c: char) {
    '0' <= c <= '9' || 'a' <= c <= 'f' || 'A' <= c <= 'F'
  }

  /** normalizeContentMD5: "" unless the value is 32 hexadecimal digits. */
  function NormalizeMd5(value: string): string {
    var v := ToLower(TrimSpace(value));
    if |v| == 32 && forall i :: 0 <= i < |v| ==> IsHex(v[i]) then v else ""
  }

  /** downloadFileWithExpectedMD5 */
  function DownloadFile(cfg: Config, s: State, url: string, md5: string): (State, Result<FilePath, Error>) {
    Attempt(cfg, s, url, true, 0, NormalizeMd5(md5))
  }

  // ---------- the mirrors of one checksum ----------

  function TrimRightSlashes(s: string): string {
    if s != "" && s[|s| - 1] == '/' then TrimRightSlashes(s[..|s| - 1]) else s
  }

  function MirrorName(mirror: string): string {
    TrimRightSlashes(TrimSpace(mirror))
  }

  /** downloadFromLibgenMirrors from mirror `i` on. The attempted URLs are those of `s.starts`. */
  function Mirrors(cfg: Config, s: State, md5: string, i: nat, seen: set<string>, last: Option<Error>)
      : (r: (State, Result<FilePath, Error>))
    requires i <= |cfg.mirrors|
    decreases |cfg.mirrors| - i
  {
    if i == |cfg.mirrors| then (s, Err(if last.Some? then last.value else NotMatched))
    else
      var mirror := MirrorName(cfg.mirrors[i]);
      if mirror == "" || mirror in seen then Mirrors(cfg, s, md5, i + 1, seen, last)
      else
        var s1 := s.(lookedUp := s.lookedUp + 1);
        match cfg.lookups(s.lookedUp)
        case NoMatch => Mirrors(cfg, s1, md5, i + 1, seen + {mirror}, Some(NotMatched))
        case LookupFailed => Mirrors(cfg, s1, md5, i + 1, seen + {mirror}, Some(OtherError))
        case Link(link) =>
          var url := mirror + "/" + link;
          if url in s.starts then Mirrors(cfg, s1, md5, i + 1, seen + {mirror}, Some(OtherError))
          else
            var (s2, r) := DownloadFile(cfg, s1.(starts := s.starts + [url]), url, md5);
            if r.Ok? then (s2, r) else Mirrors(cfg, s2, md5, i + 1, seen + {mirror}, Some(OtherError))
  }

  // ---------- the alternatives ----------

  /** One search result: its checksum as printed, and whether its title matches the wanted one. */
  datatype Found = Found(md5: string, titleMatches: bool)

  /** The membership download: no key, no usable URL, or one. */
  datatype FastPath = NoKey | NoUrl | Url(url: string)

  type Answer = Result<(FilePath, string), Error>

  /** The loop over search results from result `i` on, after `count` alternatives. */
  function Alternatives(cfg: Config, s: State, results: seq<Found>, i: nat, seen: set<string>, count: nat, last: Error)
      : (r: (State, Answer))
    requires i <= |results|
    decreases |results| - i
  {
    if i == |results| then (s, Err(last))
    else
      var md5 := NormalizeMd5(results[i].md5);
      if md5 == "" || md5 in seen || !results[i].titleMatches then
        Alternatives(cfg, s, results, i + 1, seen, count, last)
      else if count >= MAX_ALTERNATIVES then (s, Err(last))
      else
        var (t, r) := Mirrors(cfg, s.(tried := s.tried + [md5]), md5, 0, {}, None);
        match r
        case Ok(path) => (t, Ok((path, md5)))
        case Err(e) => Alternatives(cfg, t, results, i + 1, seen + {md5}, count + 1, e)
  }

  function KeptMd5(md5: string): string {
    if NormalizeMd5(md5) != "" then NormalizeMd5(md5) else md5
  }

  /** DownloadFromAnnas. On success the second component is the checksum the file was accepted under. */
  function FromAnnas(cfg: Config, s: State, md5: string, fast: FastPath, search: Result<seq<Found>, Error>)
      : (r: (State, Answer)) {
    var wanted := KeptMd5(md5);
    var (s1, r1) := if fast.Url? then DownloadFile(cfg, s, fast.url, wanted) else (s, Err(OtherError));
    if r1.Ok? then (s1, Ok((r1.value, wanted)))
    else
      var (s2, r2) := Mirrors(cfg, s1, wanted, 0, {}, None);
      if r2.Ok? then (s2, Ok((r2.value, wanted)))
      else
        match search
        case Err(_) => (s2, Err(OtherError))
        case Ok(results) =>
          var seen := if NormalizeMd5(wanted) != "" then {NormalizeMd5(wanted)} else {};
          Alternatives(cfg, s2, results, 0, seen, 0, r2.error)
  }

  // ---------- what saving does to the disk ----------

  /** Nothing that was there is removed or replaced. */
  ghost predicate Keeps(d: Disk, e: Disk) {
    && Valid(e) && d.dirs <= e.dirs
    && forall p :: p in d.files ==> p in e.files && e.files[p] == d.files[p]
  }

  /** The path names a temporary download file directly in the incoming directory. */
  ghost predicate IsTempFile(cfg: Config, path: FilePath) {
    && DownloadRoot(cfg.incomingDir).Some?
    && exists id :: path == RootPath(DownloadRoot(cfg.incomingDir).value) + [TempName(id)]
  }

  /** The only new files are the one delivered, if any, and, when a clean-up failed, temporary files. */
  ghost predicate Adds(cfg: Config, d: Disk, e: Disk, leftover: bool, delivered: Option<FilePath>) {
    forall q :: q in e.files && q !in d.files ==> delivered == Some(q) || (leftover && IsTempFile(cfg, q))
  }

  /** What a failed attempt leaves: the same files, or temporary files whose removal failed beside them. */
  ghost predicate Unchanged(cfg: Config, d: Disk, e: Disk, leftover: bool) {
    Keeps(d, e) && Adds(cfg, d, e, leftover, None)
  }

  lemma {:induction false} OneAddedIsUpdate(cfg: Config, d: Disk, e: Disk, path: FilePath)
    requires Keeps(d, e) && Adds(cfg, d, e, false, Some(path)) && path in e.files
    ensures e.files == d.files[path := e.files[path]]
  {
    hide IsTempFile, Valid;
    assert e.files.Keys == d.files.Keys + {path};
  }

  lemma {:induction false} NothingAddedIsSame(cfg: Config, d: Disk, e: Disk)
    requires Unchanged(cfg, d, e, false)
    ensures e.files == d.files
  {
    assert e.files.Keys == d.files.Keys;
  }

  /** The path names a file directly in the incoming directory, with the expected checksum. */
  ghost predicate Delivered(cfg: Config, d: Disk, path: FilePath, expected: string) {
    && path in d.files
    && (expected != "" ==> cfg.md5(d.files[path]) == expected)
    && DownloadRoot(cfg.incomingDir).Some?
    && exists ext :: path == RootPath(DownloadRoot(cfg.incomingDir).value) + [FinalName(cfg, ext)]
  }

  lemma {:induction false} RootIsClean(raw: string)
    requires DownloadRoot(raw).Some?
    ensures var root := DownloadRoot(raw).value;
            root == Clean(root) && root == Show(Parse(root)) && IsClean(Parse(root)) && Parse(root).rooted
  {
    ParseIsClean(TrimSpace(raw));
    ParseShow(Parse(TrimSpace(raw)));
    ShowNotEmpty(Parse(TrimSpace(raw)));
  }

  lemma {:induction false} FinalNameIsSegment(cfg: Config, ext: Ext)
    ensures var name := FinalName(cfg, ext); IsSegment(name) && name != ".." && name[|name| - 1] != 't'
  {
    SanitizedChars(cfg.title);
    hide SanitizeFilename, ExtText;
    var name, end := FinalName(cfg, ext), ExtText(ext);
    ExtIsPlain(ext);
    assert name[|name| - 1] == end[|end| - 1];
    assert '/' !in SanitizeFilename(cfg.title);
    assert |name| > 4;
  }

  lemma {:induction false} ExtIsPlain(ext: Ext)
    ensures var end := ExtText(ext); |end| >= 4 && '/' !in end && end[|end| - 1] != 't'
  {
  }

  /** A sanitised name never leads out of the directory it is joined to. */
  lemma {:induction false} ValidatedFileStaysInRoot(raw: string, name: string)
    requires DownloadRoot(raw).Some? && IsSegment(name) && name != ".."
    ensures var root := DownloadRoot(raw).value;
            var f := ValidatedFile(root, name); f == None || f == Some(RootPath(root) + [name])
  {
    RootIsClean(raw);
    var root := DownloadRoot(raw).value;
    var p := Path(true, RootPath(root) + [name]);
    hide Parse, Show, DownloadRoot, Join, Rel;
    assert IsClean(p) by { ExtendedIsClean(Parse(root), name); }
    JoinExtends(Parse(root), [name]);
    ParseShow(p);
    assert JoinSegs([name]) == name;
  }

  lemma {:induction false} ExtendedIsClean(p: Path, name: string)
    requires IsClean(p) && p.rooted && IsSegment(name) && name != ".."
    ensures IsClean(Path(true, p.segs + [name]))
  {
  }

  lemma {:induction false} NewFileKeepsValid(d: Disk, p: FilePath, c: Content)
    requires Valid(d) && !Exists(d, p) && p != [] && Parent(p) in d.dirs
    ensures Valid(d.(files := d.files[p := c])) && Keeps(d, d.(files := d.files[p := c]))
  {
  }

  /** After the temporary file is discarded the disk is as before, unless its removal failed. */
  lemma {:induction false} DiscardRestores(cfg: Config, d: Disk, temp: FilePath, c: Content, x: Exchange)
    requires Valid(d) && !Exists(d, temp) && temp != [] && Parent(temp) in d.dirs && IsTempFile(cfg, temp)
    ensures Unchanged(cfg, d, Discard(d.(files := d.files[temp := c]), temp, x), x.cleanupFails)
  {
    hide IsTempFile;
    assert d.files[temp := c] - {temp} == d.files;
  }

  lemma {:induction false} CommitDelivers(cfg: Config, d: Disk, temp: FilePath, dst: FilePath, x: Exchange,
                                          expected: string, bytes: Content)
    requires Valid(d) && !Exists(d, temp) && temp != [] && Parent(temp) in d.dirs && temp != dst
              && IsTempFile(cfg, temp)
    requires expected != "" ==> cfg.md5(bytes) == expected
    ensures var (e, r) := Commit(cfg, d.(files := d.files[temp := bytes]), temp, dst, x, expected);
            && Keeps(d, e)
            && (r.Err? ==> Unchanged(cfg, d, e, x.cleanupFails))
            && (r.Ok? ==> Adds(cfg, d, e, x.cleanupFails, Some(dst)))
            && (r.Ok? ==> r.value == dst && dst in e.files && (expected != "" ==> cfg.md5(e.files[dst]) == expected))
  {
    var d2 := d.(files := d.files[temp := bytes]);
    hide IsTempFile;
    DiscardRestores(cfg, d, temp, bytes, x);
    NewFileKeepsValid(d, temp, bytes);
    if Lstat(d2, dst) == NotExist && CanRename(d2, temp, dst) {
      RenameKeepsValid(d2, temp, dst);
      assert Rename(d2, temp, dst).files == d.files[dst := bytes];
    }
  }

  /** Saving a body never touches an existing file; if it fails the files are as before, apart from a
      temporary file that could not be removed; if it succeeds the named file has the expected checksum. */
  lemma {:induction false} SaveMeaning(cfg: Config, d: Disk, x: Exchange, expected: string)
    requires Valid(d) && x.response.Body?
    ensures CommitMeans(cfg, d, Save(cfg, d, x, expected), x, expected)
  {
    hide DownloadRoot, Delivered, MkdirAll, Valid, RootPath, SaveIn, Keeps, Unchanged, Adds;
    KeepsItself(cfg, d);
    if DownloadRoot(cfg.incomingDir).Some? {
      var root := DownloadRoot(cfg.incomingDir).value;
      MkdirAllKeepsValid(d, RootPath(root), x.mkdirStopAt);
      var (d1, made) := MkdirAll(d, RootPath(root), x.mkdirStopAt);
      KeepsItself(cfg, d1);
      KeepsThroughMkdir(cfg, d, d1, d1, x.cleanupFails);
      if made {
        SaveInMeaning(cfg, d1, root, x, expected);
        KeepsThroughMkdir(cfg, d, d1, SaveIn(cfg, d1, root, x, expected).0, x.cleanupFails);
      }
    }
  }

  lemma {:induction false} KeepsItself(cfg: Config, d: Disk)
    requires Valid(d)
    ensures Keeps(d, d) && Unchanged(cfg, d, d, false) && Unchanged(cfg, d, d, true)
  {
  }

  lemma {:induction false} KeepsThroughMkdir(cfg: Config, d: Disk, d1: Disk, e: Disk, leftover: bool)
    requires d1.files == d.files && d.dirs <= d1.dirs
    ensures Keeps(d1, e) ==> Keeps(d, e)
    ensures Unchanged(cfg, d1, e, leftover) ==> Unchanged(cfg, d, e, leftover) && Keeps(d, e)
    ensures forall delivered :: Adds(cfg, d1, e, leftover, delivered) ==> Adds(cfg, d, e, leftover, delivered)
  {
    hide IsTempFile;
  }

  lemma {:induction false} SaveInMeaning(cfg: Config, d: Disk, root: string, x: Exchange, expected: string)
    requires Valid(d) && x.response.Body? && DownloadRoot(cfg.incomingDir) == Some(root) && RootPath(root) in d.dirs
    ensures CommitMeans(cfg, d, SaveIn(cfg, d, root, x, expected), x, expected)
  {
    hide DownloadRoot, ValidatedFile, FinalName, Commit, Discard, Valid, RootPath, Acceptable, Delivered, Keeps, Adds;
    var temp := RootPath(root) + [TempName(x.tempId)];
    assert Parent(temp) == RootPath(root) && IsTempFile(cfg, temp);
    KeepsItself(cfg, d);
    if !x.createFails && !Exists(d, temp) {
      DiscardRestores(cfg, d, temp, [], x);
      DiscardRestores(cfg, d, temp, x.response.bytes, x);
      if Acceptable(cfg, x, expected) && ValidatedFile(root, FinalName(cfg, x.response.ext)).Some? {
        CommitMeaning(cfg, d, root, temp, x, expected);
      }
    }
  }

  ghost predicate CommitMeans(cfg: Config, d: Disk, c: (Disk, Result<FilePath, Error>), x: Exchange, expected: string) {
    && Keeps(d, c.0)
    && (c.1.Err? ==> Unchanged(cfg, d, c.0, x.cleanupFails))
    && (c.1.Ok? ==> Delivered(cfg, c.0, c.1.value, expected) && Adds(cfg, d, c.0, x.cleanupFails, Some(c.1.value)))
  }

  lemma {:induction false} CommitMeaning(cfg: Config, d: Disk, root: string, temp: FilePath, x: Exchange,
                                         expected: string)
    requires Valid(d) && x.response.Body? && DownloadRoot(cfg.incomingDir) == Some(root)
    requires temp == RootPath(root) + [TempName(x.tempId)] && !Exists(d, temp) && RootPath(root) in d.dirs
    requires Acceptable(cfg, x, expected) && ValidatedFile(root, FinalName(cfg, x.response.ext)).Some?
    ensures var dst := ValidatedFile(root, FinalName(cfg, x.response.ext)).value;
            var c := Commit(cfg, d.(files := d.files[temp := x.response.bytes]), temp, dst, x, expected);
            CommitMeans(cfg, d, c, x, expected)
  {
    var name := FinalName(cfg, x.response.ext);
    FinalNameIsSegment(cfg, x.response.ext);
    ValidatedFileStaysInRoot(cfg.incomingDir, name);
    hide DownloadRoot, ValidatedFile, FinalName, Commit, Discard, Valid, RootPath, IsSegment, TempName, ExtText;
    var dst := RootPath(root) + [name];
    assert temp != dst by { TempIsNotFinal(cfg, x.tempId, x.response.ext, RootPath(root)); }
    assert Parent(temp) == RootPath(root) && IsTempFile(cfg, temp);
    hide IsTempFile, Keeps, Adds;
    CommitDelivers(cfg, d, temp, dst, x, expected, x.response.bytes);
  }

  lemma {:induction false} TempIsNotFinal(cfg: Config, id: string, ext: Ext, root: FilePath)
    ensures root + [TempName(id)] != root + [FinalName(cfg, ext)]
  {
    FinalNameIsSegment(cfg, ext);
    hide FinalName, IsSegment;
    assert TempName(id)[|TempName(id)| - 1] == 't';
    assert (root + [TempName(id)])[|root|] == TempName(id);
    assert (root + [FinalName(cfg, ext)])[|root|] == FinalName(cfg, ext);
  }

  // ---------- what a run may do ----------

  predicate NoRepeats(xs: seq<string>) {
    forall i, j :: 0 <= i < j < |xs| ==> xs[i] != xs[j]
  }

  /** Some temporary file written for one of these exchanges could not be removed. */
  ghost predicate Leftover(cfg: Config, from: nat, to: nat) {
    exists n :: from <= n < to && cfg.exchanges(n).cleanupFails
  }

  /** What holds between any two moments of a run: existing files stay, every request was checked first, and
      each download started accounts for at most six requests (`extra` allows for requests of one under way). */
  ghost predicate Progress(cfg: Config, s: State, t: State, extra: nat) {
    && Keeps(s.disk, t.disk)
    && s.requests <= t.requests && s.starts <= t.starts && s.tried <= t.tried
    && t.exchanged - s.exchanged == |t.requests| - |s.requests| <= 6 * (|t.starts| - |s.starts|) + extra
    && (forall n :: |s.requests| <= n < |t.requests| ==> cfg.allowed(t.requests[n]))
    && (NoRepeats(s.starts) ==> NoRepeats(t.starts))
  }

  /** A failed stretch of a run left the files as they were, apart from temporary files that could not be removed. */
  ghost predicate FilesRestored(cfg: Config, s: State, t: State) {
    Adds(cfg, s.disk, t.disk, Leftover(cfg, s.exchanged, t.exchanged), None)
  }

  /** A successful stretch of a run delivered the file, and added nothing else but such temporary files. */
  ghost predicate Landed(cfg: Config, s: State, t: State, path: FilePath, expected: string) {
    && Delivered(cfg, t.disk, path, expected)
    && Adds(cfg, s.disk, t.disk, Leftover(cfg, s.exchanged, t.exchanged), Some(path))
  }

  lemma {:induction false} LeftoverGrows(cfg: Config, a: nat, b: nat, c: nat)
    requires a <= b <= c
    ensures Leftover(cfg, a, b) || Leftover(cfg, b, c) ==> Leftover(cfg, a, c)
  {
    if Leftover(cfg, a, b) {
      var n :| a <= n < b && cfg.exchanges(n).cleanupFails;
    } else if Leftover(cfg, b, c) {
      var n :| b <= n < c && cfg.exchanges(n).cleanupFails;
    }
  }

  lemma {:induction false} AddsComposes(cfg: Config, d: Disk, e: Disk, f: Disk, a: bool, b: bool, c: bool,
                                        delivered: Option<FilePath>)
    requires Adds(cfg, d, e, a, None) && Adds(cfg, e, f, b, delivered) && (a || b ==> c)
    ensures Adds(cfg, d, f, c, delivered)
  {
    hide IsTempFile;
  }

  /** A failed stretch followed by a successful one. */
  lemma {:induction false} LandedComposes(cfg: Config, s: State, t: State, u: State, path: FilePath, expected: string)
    requires s.exchanged <= t.exchanged <= u.exchanged
    requires FilesRestored(cfg, s, t) && Landed(cfg, t, u, path, expected)
    ensures Landed(cfg, s, u, path, expected)
  {
    hide Delivered, Adds, Leftover;
    LeftoverGrows(cfg, s.exchanged, t.exchanged, u.exchanged);
    AddsComposes(cfg, s.disk, t.disk, u.disk, Leftover(cfg, s.exchanged, t.exchanged),
                 Leftover(cfg, t.exchanged, u.exchanged), Leftover(cfg, s.exchanged, u.exchanged), Some(path));
  }

  lemma {:induction false} ProgressComposes(cfg: Config, s: State, t: State, u: State, a: nat, b: nat)
    requires Progress(cfg, s, t, a) && Progress(cfg, t, u, b)
    ensures Progress(cfg, s, u, a + b)
    ensures FilesRestored(cfg, s, t) && FilesRestored(cfg, t, u) ==> FilesRestored(cfg, s, u)
    ensures FilesRestored(cfg, s, t) ==>
              forall path, expected :: Landed(cfg, t, u, path, expected) ==> Landed(cfg, s, u, path, expected)
  {
    hide NoRepeats, Valid, FilesRestored, Landed;
    if FilesRestored(cfg, s, t) {
      forall path, expected | Landed(cfg, t, u, path, expected)
        ensures Landed(cfg, s, u, path, expected)
      {
        LandedComposes(cfg, s, t, u, path, expected);
      }
    }
    forall n | |s.requests| <= n < |u.requests|
      ensures cfg.allowed(u.requests[n])
    {
      assert n < |t.requests| ==> u.requests[n] == t.requests[n];
    }
    if FilesRestored(cfg, s, t) && FilesRestored(cfg, t, u) {
      RestoredComposes(cfg, s, t, u);
    }
  }

  lemma {:induction false} RestoredComposes(cfg: Config, s: State, t: State, u: State)
    requires s.exchanged <= t.exchanged <= u.exchanged && FilesRestored(cfg, s, t) && FilesRestored(cfg, t, u)
    ensures FilesRestored(cfg, s, u)
  {
    hide Adds, Leftover;
    LeftoverGrows(cfg, s.exchanged, t.exchanged, u.exchanged);
    AddsComposes(cfg, s.disk, t.disk, u.disk, Leftover(cfg, s.exchanged, t.exchanged),
                 Leftover(cfg, t.exchanged, u.exchanged), Leftover(cfg, s.exchanged, u.exchanged), None);
  }

  /** A request that was checked and answered, before anything is saved. */
  lemma {:induction false} RequestProgress(cfg: Config, s: State, url: string)
    requires Valid(s.disk) && cfg.allowed(url)
    ensures var t := s.(exchanged := s.exchanged + 1, requests := s.requests + [url]);
            Progress(cfg, s, t, 1) && FilesRestored(cfg, s, t)
  {
  }

  lemma {:induction false} SaveProgress(cfg: Config, s: State, url: string, expected: string)
    requires Valid(s.disk) && cfg.allowed(url) && cfg.exchanges(s.exchanged).response.Body?
    ensures var (d, r) := Save(cfg, s.disk, cfg.exchanges(s.exchanged), expected);
            var t := s.(exchanged := s.exchanged + 1, requests := s.requests + [url], disk := d);
            && Progress(cfg, s, t, 1)
            && (r.Ok? ==> Landed(cfg, s, t, r.value, expected))
            && (r.Err? ==> FilesRestored(cfg, s, t))
  {
    hide Save, Delivered, Valid, Adds;
    SaveMeaning(cfg, s.disk, cfg.exchanges(s.exchanged), expected);
    assert cfg.exchanges(s.exchanged).cleanupFails ==> Leftover(cfg, s.exchanged, s.exchanged + 1);
  }

  lemma {:induction false} MoreExtra(cfg: Config, s: State, t: State, a: nat, b: nat)
    requires Progress(cfg, s, t, a) && a <= b
    ensures Progress(cfg, s, t, b)
  {
  }

  /** One download, at any depth: at most one request per remaining hop, each checked; existing files stay;
      success delivers the file, failure restores the files. */
  lemma {:induction false} AttemptMeaning(cfg: Config, s: State, url: string, allowChallenge: bool, depth: nat,
                                          expected: string)
    requires Valid(s.disk) && depth <= MAX_HOPS + 1
    ensures var (t, r) := Attempt(cfg, s, url, allowChallenge, depth, expected);
            && Progress(cfg, s, t, MAX_HOPS + 1 - depth)
            && t.starts == s.starts && t.tried == s.tried
            && (r.Ok? ==> Landed(cfg, s, t, r.value, expected))
            && (r.Err? ==> FilesRestored(cfg, s, t))
    decreases MAX_HOPS + 1 - depth
  {
    hide Progress, Landed, FilesRestored, Valid, Save;
    IdleProgress(cfg, s, s);
    MoreExtra(cfg, s, s, 0, MAX_HOPS + 1 - depth);
    if depth <= MAX_HOPS && cfg.allowed(url) {
      var x := cfg.exchanges(s.exchanged);
      var t := s.(exchanged := s.exchanged + 1, requests := s.requests + [url]);
      RequestProgress(cfg, s, url);
      MoreExtra(cfg, s, t, 1, MAX_HOPS + 1 - depth);
      if x.response.BrowserChallenge? && allowChallenge && x.response.solved && x.response.cookieSet {
        AttemptMeaning(cfg, t, url, false, depth + 1, expected);
        ProgressComposes(cfg, s, t, Attempt(cfg, t, url, false, depth + 1, expected).0, 1, MAX_HOPS - depth);
      } else if x.response.Page? && !x.response.notFound && x.response.link.Some? {
        AttemptMeaning(cfg, t, x.response.link.value, true, depth + 1, expected);
        ProgressComposes(cfg, s, t, Attempt(cfg, t, x.response.link.value, true, depth + 1, expected).0, 1,
            MAX_HOPS - depth);
      } else if x.response.Body? {
        SaveProgress(cfg, s, url, expected);
        MoreExtra(cfg, s, t.(disk := Save(cfg, t.disk, x, expected).0), 1, MAX_HOPS + 1 - depth);
      }
    }
  }

  lemma {:induction false} DownloadFileMeaning(cfg: Config, s: State, url: string, md5: string)
    requires Valid(s.disk)
    ensures var (t, r) := DownloadFile(cfg, s, url, md5);
            && Progress(cfg, s, t, 6)
            && t.starts == s.starts && t.tried == s.tried
            && (r.Ok? ==> Landed(cfg, s, t, r.value, NormalizeMd5(md5)))
            && (r.Err? ==> FilesRestored(cfg, s, t))
  {
    hide Attempt, Landed, NormalizeMd5;
    AttemptMeaning(cfg, s, url, true, 0, NormalizeMd5(md5));
  }

  /** The distinct mirrors configured. */
  function MirrorNames(cfg: Config): set<string> {
    set m | m in cfg.mirrors && MirrorName(m) != "" :: MirrorName(m)
  }

  lemma {:induction false} FreshMirror(cfg: Config, i: nat, seen: set<string>)
    requires i < |cfg.mirrors| && MirrorName(cfg.mirrors[i]) != "" && MirrorName(cfg.mirrors[i]) !in seen
    ensures |MirrorNames(cfg) - (seen + {MirrorName(cfg.mirrors[i])})| == |MirrorNames(cfg) - seen| - 1
  {
    var m := MirrorName(cfg.mirrors[i]);
    assert cfg.mirrors[i] in cfg.mirrors && m in MirrorNames(cfg);
    assert MirrorNames(cfg) - (seen + {m}) == (MirrorNames(cfg) - seen) - {m};
  }

  /** The moment after one mirror's link has been downloaded, or found unusable. */
  lemma {:induction false} StartedProgress(cfg: Config, s: State, url: string, md5: string)
    requires Valid(s.disk) && url !in s.starts
    ensures var (t, r) := DownloadFile(cfg, s.(lookedUp := s.lookedUp + 1, starts := s.starts + [url]), url, md5);
            && Progress(cfg, s, t, 0)
            && t.starts == s.starts + [url] && t.tried == s.tried
            && (r.Ok? ==> Landed(cfg, s, t, r.value, NormalizeMd5(md5)))
            && (r.Err? ==> FilesRestored(cfg, s, t))
  {
    hide DownloadFile, Delivered, Adds, Leftover, NormalizeMd5, Valid;
    var s1 := s.(lookedUp := s.lookedUp + 1, starts := s.starts + [url]);
    DownloadFileMeaning(cfg, s1, url, md5);
  }

  lemma {:induction false} IdleProgress(cfg: Config, s: State, t: State)
    requires Valid(s.disk) && t == s.(lookedUp := t.lookedUp, tried := t.tried) && s.tried <= t.tried
    ensures Progress(cfg, s, t, 0) && FilesRestored(cfg, s, t)
  {
  }

  /** A stretch of mirror downloads under one checksum: how many were started, and how it ended. */
  ghost predicate Reaches(cfg: Config, s: State, c: (State, Result<FilePath, Error>), started: nat, expected: string) {
    && Progress(cfg, s, c.0, 0) && c.0.tried == s.tried
    && |c.0.starts| - |s.starts| <= started
    && (c.1.Ok? ==> Landed(cfg, s, c.0, c.1.value, expected))
    && (c.1.Err? ==> FilesRestored(cfg, s, c.0))
  }

  lemma {:induction false} ReachesAfter(cfg: Config, s: State, s1: State, c: (State, Result<FilePath, Error>), a: nat,
                                        b: nat, expected: string)
    requires Progress(cfg, s, s1, 0) && FilesRestored(cfg, s, s1) && s1.tried == s.tried
              && |s1.starts| - |s.starts| <= a
    requires Reaches(cfg, s1, c, b, expected)
    ensures Reaches(cfg, s, c, a + b, expected)
  {
    hide Progress, FilesRestored, Landed;
    ProgressComposes(cfg, s, s1, c.0, 0, 0);
  }

  /** One checksum: at most one download per mirror not yet seen, each from a URL never started before. */
  lemma {:induction false} MirrorsMeaning(cfg: Config, s: State, md5: string, i: nat, seen: set<string>,
                                          last: Option<Error>)
    requires Valid(s.disk) && i <= |cfg.mirrors|
    ensures Reaches(cfg, s, Mirrors(cfg, s, md5, i, seen, last), |MirrorNames(cfg) - seen|, NormalizeMd5(md5))
    decreases |cfg.mirrors| - i
  {
    hide DownloadFile, Landed, NormalizeMd5, MirrorName, MirrorNames, Valid, Keeps, FilesRestored, Progress;
    if i == |cfg.mirrors| {
      IdleProgress(cfg, s, s);
    } else {
      hide Reaches;
      var mirror := MirrorName(cfg.mirrors[i]);
      if mirror == "" || mirror in seen {
        MirrorsMeaning(cfg, s, md5, i + 1, seen, last);
      } else {
        FreshMirror(cfg, i, seen);
        var left := |MirrorNames(cfg) - (seen + {mirror})|;
        var s1 := s.(lookedUp := s.lookedUp + 1);
        var lookup := cfg.lookups(s.lookedUp);
        if !lookup.Link? || mirror + "/" + lookup.link in s.starts {
          var failure := if lookup == NoMatch then NotMatched else OtherError;
          IdleProgress(cfg, s, s1);
          MirrorsMeaning(cfg, s1, md5, i + 1, seen + {mirror}, Some(failure));
          ReachesAfter(cfg, s, s1, Mirrors(cfg, s1, md5, i + 1, seen + {mirror}, Some(failure)), 1, left,
              NormalizeMd5(md5));
        } else {
          var url := mirror + "/" + lookup.link;
          StartedProgress(cfg, s, url, md5);
          var (s2, r) := DownloadFile(cfg, s1.(starts := s.starts + [url]), url, md5);
          if r.Err? {
            assert Valid(s2.disk) by { ProgressKeepsValid(cfg, s, s2); }
            MirrorsMeaning(cfg, s2, md5, i + 1, seen + {mirror}, Some(OtherError));
            ReachesAfter(cfg, s, s2, Mirrors(cfg, s2, md5, i + 1, seen + {mirror}, Some(OtherError)), 1, left,
                NormalizeMd5(md5));
          } else {
            StartedReaches(cfg, s, (s2, r), 1 + left, NormalizeMd5(md5));
          }
        }
      }
    }
  }

  lemma {:induction false} StartedReaches(cfg: Config, s: State, c: (State, Result<FilePath, Error>), n: nat,
                                          expected: string)
    requires Progress(cfg, s, c.0, 0) && c.0.tried == s.tried && |c.0.starts| - |s.starts| <= n
    requires c.1.Ok? && Landed(cfg, s, c.0, c.1.value, expected)
    ensures Reaches(cfg, s, c, n, expected)
  {
    hide Progress, Landed, FilesRestored;
  }

  lemma {:induction false} ProgressKeepsValid(cfg: Config, s: State, t: State)
    requires Progress(cfg, s, t, 0)
    ensures Valid(t.disk)
  {
  }

  // ---------- the whole download ----------

  /** The product, as repeated addition. */
  function Times(n: nat, m: nat): nat {
    if n == 0 then 0 else Times(n - 1, m) + m
  }

  /** The alternatives tried from here on are new, at most as many as are left, and each costs at most one
      download per mirror. */
  ghost predicate WithinBudget(cfg: Config, s: State, t: State, alternatives: nat) {
    && |t.tried| - |s.tried| <= alternatives
    && |t.starts| - |s.starts| <= Times(alternatives, |MirrorNames(cfg)|)
  }

  ghost predicate TriedIsSeen(s: State, seen: set<string>) {
    NoRepeats(s.tried) && forall m :: m in s.tried ==> m in seen
  }

  lemma {:induction false} AlternativesMeaning(cfg: Config, s: State, results: seq<Found>, i: nat, seen: set<string>,
                                               count: nat, last: Error)
    requires Valid(s.disk) && i <= |results| && count <= MAX_ALTERNATIVES && TriedIsSeen(s, seen)
    ensures var (t, r) := Alternatives(cfg, s, results, i, seen, count, last);
            && Progress(cfg, s, t, 0) && WithinBudget(cfg, s, t, MAX_ALTERNATIVES - count)
            && NoRepeats(t.tried) && s.tried <= t.tried
            && (forall n :: |s.tried| <= n < |t.tried| ==>
                  t.tried[n] !in seen && NormalizeMd5(t.tried[n]) == t.tried[n] != "")
            && (r.Ok? ==> r.value.1 in t.tried && Landed(cfg, s, t, r.value.0, r.value.1))
            && (r.Err? ==> FilesRestored(cfg, s, t))
    decreases |results| - i
  {
    hide Mirrors, Landed, NormalizeMd5, MirrorNames, Valid, Keeps, FilesRestored, Progress, Times;
    IdleProgress(cfg, s, s);
    if i < |results| {
      var md5 := NormalizeMd5(results[i].md5);
      NormalizedIsFixed(results[i].md5);
      if md5 == "" || md5 in seen || !results[i].titleMatches {
        AlternativesMeaning(cfg, s, results, i + 1, seen, count, last);
      } else if count < MAX_ALTERNATIVES {
        var s1 := s.(tried := s.tried + [md5]);
        IdleProgress(cfg, s, s1);
        MirrorsMeaning(cfg, s1, md5, 0, {}, None);
        assert MirrorNames(cfg) - {} == MirrorNames(cfg);
        var (t, r) := Mirrors(cfg, s1, md5, 0, {}, None);
        ProgressComposes(cfg, s, s1, t, 0, 0);
        assert Times(MAX_ALTERNATIVES - count, |MirrorNames(cfg)|) ==
               Times(MAX_ALTERNATIVES - count - 1, |MirrorNames(cfg)|) + |MirrorNames(cfg)| by {
          TimesStep(MAX_ALTERNATIVES - count, |MirrorNames(cfg)|);
        }
        if r.Err? {
          assert Valid(t.disk) by { ProgressKeepsValid(cfg, s, t); }
          AlternativesMeaning(cfg, t, results, i + 1, seen + {md5}, count + 1, r.error);
          var u := Alternatives(cfg, t, results, i + 1, seen + {md5}, count + 1, r.error).0;
          ProgressComposes(cfg, s, t, u, 0, 0);
          assert u.tried[|s.tried|] == t.tried[|s.tried|] == md5;
        }
      }
    }
  }

  lemma {:induction false} TimesZero(m: nat)
    ensures Times(0, m) == 0
  {
  }

  lemma {:induction false} TimesStep(n: nat, m: nat)
    requires n > 0
    ensures Times(n, m) == Times(n - 1, m) + m
  {
  }

  lemma {:induction false} HexIsFixed(v: string)
    requires |v| == 32 && (forall i :: 0 <= i < |v| ==> IsHex(v[i])) && ToLower(v) == v
    ensures NormalizeMd5(v) == v
  {
    hide ToLower, TrimSpace;
    assert IsHex(v[0]) && IsHex(v[31]);
    TrimSpaceFixed(v);
  }

  lemma {:induction false} NormalizedIsFixed(value: string)
    ensures NormalizeMd5(NormalizeMd5(value)) == NormalizeMd5(value)
  {
    hide TrimSpace;
    ToLowerIdempotent(TrimSpace(value));
    hide ToLower;
    if NormalizeMd5(value) != "" {
      HexIsFixed(NormalizeMd5(value));
    } else {
      EmptyIsFixed();
    }
  }

  lemma {:induction false} EmptyIsFixed()
    ensures NormalizeMd5("") == ""
  {
    TrimSpaceFixed("");
  }

  /** A checksum of 32 hexadecimal digits is kept, in lower case; blanks around it and the case of its digits make
      no difference; anything else counts as none. */
  lemma {:induction false} Md5Meaning(value: string)
    ensures var md5 := NormalizeMd5(value);
            && (md5 != "" <==> |TrimSpace(value)| == 32
                               && forall i :: 0 <= i < 32 ==> IsHexDigit(TrimSpace(value)[i]))
            && (md5 != "" ==> |md5| == 32 && ToLower(TrimSpace(value)) == md5)
  {
    hide TrimSpace;
    var t := TrimSpace(value);
    assert forall i :: 0 <= i < |t| ==> (IsHex(ToLower(t)[i]) <==> IsHex(t[i]));
    hide IsHex, IsHexDigit;
    forall i | 0 <= i < |t|
      ensures IsHex(t[i]) <==> IsHexDigit(t[i])
    {
      HexDigits(t[i]);
    }
  }

  predicate IsHexDigit(c: char) {
    c in DIGITS || c in "abcdef" || c in "ABCDEF"
  }

  lemma {:induction false} HexDigits(c: char)
    ensures IsHex(c) <==> IsHexDigit(c)
  {
    Digits(c);
    InAlphabet("abcdef", 'a', c);
    InAlphabet("ABCDEF", 'A', c);
  }

  /** A mirror's name is its trimmed text without the slashes at its end. */
  lemma {:induction false} TrimRightSlashesMeaning(s: string)
    ensures var t := TrimRightSlashes(s);
            && t <= s && (t != "" ==> t[|t| - 1] != '/') && forall i :: |t| <= i < |s| ==> s[i] == '/'
  {
    if s != "" && s[|s| - 1] == '/' {
      TrimRightSlashesMeaning(s[..|s| - 1]);
    }
  }

  /** A title that is short enough and has only characters that are kept is used as it is. */
  lemma {:induction false} PlainTitleIsKept(name: string)
    requires 0 < |name| <= 80 && !IsSpace(name[0]) && !IsSpace(name[|name| - 1])
    requires forall i :: 0 <= i < |name| ==> IsNameChar(name[i])
    ensures SanitizeFilename(name) == name
  {
    forall i | 0 <= i < |name|
      ensures KeptInName(name[i])
    {
      NameChars(name[i]);
    }
    TrimSpaceFixed(name);
    hide KeepNameChars, TrimSpace, KeptInName, CutName;
    AllAreKept(name);
    ShortIsNotCut(name);
  }

  lemma {:induction false} ShortIsNotCut(name: string)
    requires 0 < |name| <= 80
    ensures CutName(name) == name
  {
  }

  /** A longer one is cut after 80 characters, and nothing at all becomes "book". */
  lemma {:induction false} OtherTitles(name: string)
    ensures var t := TrimSpace(KeepNameChars(name));
            && (|t| > 80 ==> SanitizeFilename(name) == t[..80]) && (t == "" ==> SanitizeFilename(name) == "book")
  {
    hide TrimSpace, KeepNameChars;
  }

  /** The name of the delivered file: the sanitised title with the extension of its kind. */
  lemma {:induction false} FinalNames(cfg: Config)
    ensures var title := SanitizeFilename(cfg.title);
            && FinalName(cfg, Epub) == title + ".epub" && FinalName(cfg, Pdf) == title + ".pdf"
            && FinalName(cfg, Cbr) == title + ".cbr" && FinalName(cfg, Mobi) == title + ".mobi"
  {
    hide SanitizeFilename;
  }

  /** The wanted checksum in normal form; a value that is none is passed on as it is. */
  lemma {:induction false} WantedMd5(md5: string)
    ensures NormalizeMd5(KeptMd5(md5)) == NormalizeMd5(md5)
    ensures NormalizeMd5(md5) != "" ==> KeptMd5(md5) == ToLower(TrimSpace(md5))
    ensures NormalizeMd5(md5) == "" ==> KeptMd5(md5) == md5
  {
    NormalizedIsFixed(md5);
    hide TrimSpace;
  }

  /** Two ways of writing a mirror count as one. */
  lemma {:induction false} MirrorNameMeaning(mirror: string)
    ensures var name, text := MirrorName(mirror), TrimSpace(mirror);
            && name <= text && (name != "" ==> name[|name| - 1] != '/')
            && forall i :: |name| <= i < |text| ==> text[i] == '/'
  {
    hide TrimSpace;
    TrimRightSlashesMeaning(TrimSpace(mirror));
  }

  lemma {:induction false} AttemptKeepsLookups(cfg: Config, s: State, url: string, may: bool, depth: nat,
                                               expected: string)
    ensures Attempt(cfg, s, url, may, depth, expected).0.lookedUp == s.lookedUp
    decreases MAX_HOPS + 1 - depth
  {
    hide Save;
    if depth <= MAX_HOPS && cfg.allowed(url) {
      var x := cfg.exchanges(s.exchanged);
      var t := s.(exchanged := s.exchanged + 1, requests := s.requests + [url]);
      if x.response.BrowserChallenge? {
        AttemptKeepsLookups(cfg, t, url, false, depth + 1, expected);
      } else if x.response.Page? && x.response.link.Some? {
        AttemptKeepsLookups(cfg, t, x.response.link.value, true, depth + 1, expected);
      }
    }
  }

  /** Why the mirrors failed: nothing was matched exactly if the last lookup, if there was any, found no match. */
  lemma {:induction false} MirrorsFailWith(cfg: Config, s: State, md5: string, i: nat, seen: set<string>,
                                           last: Option<Error>)
    requires i <= |cfg.mirrors|
    ensures var (t, r) := Mirrors(cfg, s, md5, i, seen, last);
            && t.lookedUp >= s.lookedUp
            && (r.Err? && t.lookedUp == s.lookedUp ==> r.error == if last.Some? then last.value else NotMatched)
            && (r.Err? && t.lookedUp > s.lookedUp ==> (r.error == NotMatched
                <==> cfg.lookups(t.lookedUp - 1) == NoMatch))
    decreases |cfg.mirrors| - i
  {
    hide Attempt, MirrorName, NormalizeMd5;
    if i < |cfg.mirrors| {
      var mirror := MirrorName(cfg.mirrors[i]);
      var s1 := s.(lookedUp := s.lookedUp + 1);
      if mirror == "" || mirror in seen {
        MirrorsFailWith(cfg, s, md5, i + 1, seen, last);
      } else {
        var lookup := cfg.lookups(s.lookedUp);
        if lookup.Link? && mirror + "/" + lookup.link !in s.starts {
          var url := mirror + "/" + lookup.link;
          var s2 := s1.(starts := s.starts + [url]);
          AttemptKeepsLookups(cfg, s2, url, true, 0, NormalizeMd5(md5));
          MirrorsFailWith(cfg, DownloadFile(cfg, s2, url, md5).0, md5, i + 1, seen + {mirror}, Some(OtherError));
        } else {
          MirrorsFailWith(cfg, s1, md5, i + 1, seen + {mirror},
              Some(if lookup == NoMatch then NotMatched else OtherError));
        }
      }
    }
  }

  /** A run that failed because nothing was matched had a search that worked. */
  lemma {:induction false} FailedSearchIsReported(cfg: Config, s: State, md5: string, fast: FastPath)
    ensures FromAnnas(cfg, s, md5, fast, Err(OtherError)).1 != Err(NotMatched)
    ensures FromAnnas(cfg, s, md5, fast, Err(NotMatched)).1 != Err(NotMatched)
  {
    hide Mirrors, DownloadFile, KeptMd5;
  }

  lemma {:induction false} AllAreKept(name: string)
    requires forall i :: 0 <= i < |name| ==> KeptInName(name[i])
    ensures KeepNameChars(name) == name
  {
    if name != "" {
      AllAreKept(name[1..]);
    }
  }

  /** A whole run from a clean slate, for every behaviour of the servers and the file system.
      Success delivers a file whose checksum is the one it was accepted under (the wanted one, or that of an
      alternative tried); failure leaves the files as they were, apart from temporary files whose removal
      failed; nothing existing is ever replaced. Every file request was checked first; mirror downloads start
      from pairwise different URLs, at most six per distinct mirror; at most five alternatives with pairwise
      different checksums are tried, none of them the wanted one; each download makes at most six requests. */
  lemma {:induction false} RunMeaning(cfg: Config, s: State, md5: string, fast: FastPath,
                                      search: Result<seq<Found>, Error>)
    requires Valid(s.disk) && s.requests == s.starts == s.tried == []
    ensures var (t, r) := FromAnnas(cfg, s, md5, fast, search);
            && Keeps(s.disk, t.disk)
            && (r.Ok? ==> Landed(cfg, s, t, r.value.0, NormalizeMd5(r.value.1)))
            && (r.Ok? ==> r.value.1 == KeptMd5(md5) || r.value.1 in t.tried)
            && (r.Err? ==> FilesRestored(cfg, s, t))
            && (forall n :: 0 <= n < |t.requests| ==> cfg.allowed(t.requests[n]))
            && NoRepeats(t.starts) && |t.starts| <= 6 * |MirrorNames(cfg)|
            && NoRepeats(t.tried) && |t.tried| <= MAX_ALTERNATIVES && NormalizeMd5(md5) !in t.tried
            && |t.requests| <= 6 * (|t.starts| + if fast.Url? then 1 else 0)
  {
    hide Mirrors, DownloadFile, Alternatives, Landed, NormalizeMd5, MirrorNames, Valid, FilesRestored, Times, Progress;
    var wanted := KeptMd5(md5);
    NormalizedIsFixed(md5);
    IdleProgress(cfg, s, s);
    DownloadFileMeaning(cfg, s, if fast.Url? then fast.url else "", wanted);
    var (s1, r1) := if fast.Url? then DownloadFile(cfg, s, fast.url, wanted) else (s, Err(OtherError));
    var extra := if fast.Url? then 6 else 0;
    assert Progress(cfg, s, s1, extra);
    assert MirrorNames(cfg) - {} == MirrorNames(cfg);
    assert NoRepeats(s.starts) && NoRepeats(s.tried);
    if r1.Ok? {
      ProgressFacts(cfg, s, s1, extra);
    } else {
      assert Valid(s1.disk) by { ProgressFacts(cfg, s, s1, extra); }
      MirrorsMeaning(cfg, s1, wanted, 0, {}, None);
      var (s2, r2) := Mirrors(cfg, s1, wanted, 0, {}, None);
      ProgressComposes(cfg, s, s1, s2, extra, 0);
      ProgressFacts(cfg, s, s2, extra);
      if r2.Err? && search.Ok? {
        AfterMirrors(cfg, s, s2, wanted, search.value, r2.error, extra);
      }
    }
  }

  /** When every temporary file could be removed, a failed run leaves exactly the files that were there, and a
      successful one exactly these and the file it delivered. */
  lemma {:induction false} CleanRunAddsOnlyTheFile(cfg: Config, s: State, md5: string, fast: FastPath,
                                                   search: Result<seq<Found>, Error>)
    requires Valid(s.disk) && s.requests == s.starts == s.tried == []
    requires !Leftover(cfg, s.exchanged, FromAnnas(cfg, s, md5, fast, search).0.exchanged)
    ensures var (t, r) := FromAnnas(cfg, s, md5, fast, search);
            && (r.Err? ==> t.disk.files == s.disk.files)
            && (r.Ok? ==>
                  r.value.0 in t.disk.files && t.disk.files == s.disk.files[r.value.0 := t.disk.files[r.value.0]])
  {
    RunMeaning(cfg, s, md5, fast, search);
    var (t, r) := FromAnnas(cfg, s, md5, fast, search);
    hide FromAnnas, Valid, IsTempFile, Keeps, Adds, Leftover, NoRepeats, MirrorNames;
    if r.Ok? {
      OneAddedIsUpdate(cfg, s.disk, t.disk, r.value.0);
    } else {
      NothingAddedIsSame(cfg, s.disk, t.disk);
    }
  }

  lemma {:induction false} ProgressFacts(cfg: Config, s: State, t: State, extra: nat)
    requires Progress(cfg, s, t, extra)
    ensures Valid(t.disk) && Keeps(s.disk, t.disk)
    ensures NoRepeats(s.starts) ==> NoRepeats(t.starts)
    ensures s.requests == [] ==> forall n :: 0 <= n < |t.requests| ==> cfg.allowed(t.requests[n])
    ensures |t.requests| - |s.requests| <= 6 * (|t.starts| - |s.starts|) + extra
  {
  }

  /** The search for alternatives, after the wanted file was not found on any mirror. */
  lemma {:induction false} AfterMirrors(cfg: Config, s: State, s2: State, wanted: string, results: seq<Found>,
                                        last: Error, extra: nat)
    requires Valid(s2.disk) && Progress(cfg, s, s2, extra) && s.requests == s.starts == s.tried == s2.tried == []
    requires FilesRestored(cfg, s, s2) && |s2.starts| <= |MirrorNames(cfg)|
    ensures var seen := if NormalizeMd5(wanted) != "" then {NormalizeMd5(wanted)} else {};
            var (t, r) := Alternatives(cfg, s2, results, 0, seen, 0, last);
            && Progress(cfg, s, t, extra)
            && Keeps(s.disk, t.disk)
            && (r.Ok? ==> Landed(cfg, s, t, r.value.0, NormalizeMd5(r.value.1)) && r.value.1 in t.tried)
            && (r.Err? ==> FilesRestored(cfg, s, t))
            && (forall n :: 0 <= n < |t.requests| ==> cfg.allowed(t.requests[n]))
            && NoRepeats(t.starts) && |t.starts| <= 6 * |MirrorNames(cfg)|
            && NoRepeats(t.tried) && |t.tried| <= MAX_ALTERNATIVES && NormalizeMd5(wanted) !in t.tried
            && |t.requests| <= 6 * |t.starts| + extra
  {
    hide Alternatives, Landed, NormalizeMd5, MirrorNames, Valid, FilesRestored, Progress, Keeps;
    var seen := if NormalizeMd5(wanted) != "" then {NormalizeMd5(wanted)} else {};
    AlternativesMeaning(cfg, s2, results, 0, seen, 0, last);
    var (t, r) := Alternatives(cfg, s2, results, 0, seen, 0, last);
    ProgressComposes(cfg, s, s2, t, extra, 0);
    ProgressFacts(cfg, s, t, extra);
    assert Times(5, |MirrorNames(cfg)|) == 5 * |MirrorNames(cfg)| by { FiveTimes(|MirrorNames(cfg)|); }
    assert NormalizeMd5(wanted) !in t.tried;
    if r.Ok? {
      var n :| 0 <= n < |t.tried| && t.tried[n] == r.value.1;
      assert NormalizeMd5(r.value.1) == r.value.1;
    }
  }

  lemma {:induction false} FiveTimes(m: nat)
    ensures Times(5, m) == 5 * m
  {
    hide Times;
    TimesStep(5, m);
    TimesStep(4, m);
    TimesStep(3, m);
    TimesStep(2, m);
    TimesStep(1, m);
    TimesZero(m);
  }

  // ---------- the downloader itself ----------

  class DirectDownloader {
    const cfg: Config
    var state: State

    constructor (cfg: Config, d: Disk)
      ensures this.cfg == cfg && state == State(d, 0, 0, [], [], [])
    {
      this.cfg := cfg;
      state := State(d, 0, 0, [], [], []);
    }

    /** downloadFileAttemptWithExpectedMD5 */
    method DownloadAttempt(url: string, allowChallenge: bool, depth: nat, expected: string)
        returns (r: Result<FilePath, Error>)
      modifies this
      ensures (state, r) == Attempt(cfg, old(state), url, allowChallenge, depth, expected)
      decreases MAX_HOPS + 1 - depth
    {
      if depth > MAX_HOPS {
        return Err(OtherError);
      }
      if !cfg.allowed(url) {
        return Err(OtherError);
      }
      var x := cfg.exchanges(state.exchanged);
      state := state.(exchanged := state.exchanged + 1, requests := state.requests + [url]);
      match x.response
      case TransportError =>
        r := Err(OtherError);
      case BrowserChallenge(solved, cookieSet) =>
        if allowChallenge && solved && cookieSet {
          r := DownloadAttempt(url, false, depth + 1, expected);
        } else {
          r := Err(OtherError);
        }
      case HttpError =>
        r := Err(OtherError);
      case Page(notFound, link) =>
        if notFound || link.None? {
          r := Err(OtherError);
        } else {
          r := DownloadAttempt(link.value, true, depth + 1, expected);
        }
      case Body(_, _) =>
        r := SaveBody(x, expected);
    }

    /** Writes the temporary file, checks it, and commits or discards it. */
    method SaveBody(x: Exchange, expected: string) returns (r: Result<FilePath, Error>)
      requires x.response.Body?
      modifies this
      ensures (state, r) == (old(state).(disk := Save(cfg, old(state).disk, x, expected).0),
                Save(cfg, old(state).disk, x, expected).1)
    {
      hide DownloadRoot, RootPath, MkdirAll, SaveIn;
      var validated := DownloadRoot(cfg.incomingDir);
      if validated.None? {
        return Err(OtherError);
      }
      var root := validated.value;
      var (d1, made) := MkdirAll(state.disk, RootPath(root), x.mkdirStopAt);
      state := state.(disk := d1);
      if !made {
        return Err(OtherError);
      }
      var e: Disk;
      e, r := SaveInDirectory(cfg, d1, root, x, expected);
      state := state.(disk := e);
    }

    /** downloadFileWithExpectedMD5 */
    method DownloadUrl(url: string, md5: string) returns (r: Result<FilePath, Error>)
      modifies this
      ensures (state, r) == DownloadFile(cfg, old(state), url, md5)
    {
      r := DownloadAttempt(url, true, 0, NormalizeMd5(md5));
    }

    /** downloadFromLibgenMirrors. The attempted URLs are `state.starts`. */
    method DownloadFromMirrors(md5: string) returns (r: Result<FilePath, Error>)
      modifies this
      ensures (state, r) == Mirrors(cfg, old(state), md5, 0, {}, None)
    {
      hide DownloadFile, MirrorName;
      var lastErr: Option<Error> := None;
      var seenMirrors: set<string> := {};
      for i := 0 to |cfg.mirrors|
        invariant Mirrors(cfg, state, md5, i, seenMirrors, lastErr) == Mirrors(cfg, old(state), md5, 0, {}, None)
      {
        var mirror := MirrorName(cfg.mirrors[i]);
        if mirror == "" || mirror in seenMirrors {
          continue;
        }
        seenMirrors := seenMirrors + {mirror};
        var lookup := cfg.lookups(state.lookedUp);
        state := state.(lookedUp := state.lookedUp + 1);
        if !lookup.Link? {
          lastErr := Some(if lookup == NoMatch then NotMatched else OtherError);
          continue;
        }
        var url := mirror + "/" + lookup.link;
        if url in state.starts {
          lastErr := Some(OtherError);
          continue;
        }
        state := state.(starts := state.starts + [url]);
        r := DownloadUrl(url, md5);
        if r.Ok? {
          return;
        }
        lastErr := Some(OtherError);
      }
      r := Err(if lastErr.Some? then lastErr.value else NotMatched);
    }

    /** DownloadFromAnnas */
    method DownloadFromAnnas(md5: string, fast: FastPath, search: Result<seq<Found>, Error>) returns (r: Answer)
      modifies this
      ensures (state, r) == FromAnnas(cfg, old(state), md5, fast, search)
    {
      hide DownloadFile, Mirrors, NormalizeMd5;
      var wanted := KeptMd5(md5);
      if fast.Url? {
        var quick := DownloadUrl(fast.url, wanted);
        if quick.Ok? {
          return Ok((quick.value, wanted));
        }
      }
      var original := DownloadFromMirrors(wanted);
      if original.Ok? {
        return Ok((original.value, wanted));
      }
      if search.Err? {
        return Err(OtherError);
      }
      var results := search.value;
      var lastErr := original.error;
      var matchingAlternatives := 0;
      var seenMd5: set<string> := if NormalizeMd5(wanted) != "" then {NormalizeMd5(wanted)} else {};
      for i := 0 to |results|
        invariant matchingAlternatives <= MAX_ALTERNATIVES
        invariant Alternatives(cfg, state, results, i, seenMd5, matchingAlternatives, lastErr)
                  == FromAnnas(cfg, old(state), md5, fast, search)
      {
        var resultMd5 := NormalizeMd5(results[i].md5);
        if resultMd5 == "" || resultMd5 in seenMd5 || !results[i].titleMatches {
          continue;
        }
        seenMd5 := seenMd5 + {resultMd5};
        if matchingAlternatives >= MAX_ALTERNATIVES {
          return Err(lastErr);
        }
        matchingAlternatives := matchingAlternatives + 1;
        state := state.(tried := state.tried + [resultMd5]);
        var alternative := DownloadFromMirrors(resultMd5);
        if alternative.Ok? {
          return Ok((alternative.value, resultMd5));
        }
        lastErr := alternative.error;
      }
      r := Err(lastErr);
    }
  }

  /** The end of the attempt: `committed` decides whether the deferred removal of the temporary file runs. */
  method CommitTemp(cfg: Config, d: Disk, temp: FilePath, dst: FilePath, x: Exchange, expected: string)
    returns (e: Disk, r: Result<FilePath, Error>)
    ensures (e, r) == Commit(cfg, d, temp, dst, x, expected)
  {
    var committed := false;
    e, r := d, Err(OtherError);
    var stat := Lstat(d, dst);
    if stat == IsFile {
      if expected != "" && !x.rereadFails && cfg.md5(d.files[dst]) == expected {
        r := Ok(dst);
      }
    } else if stat == NotExist {
      if !x.renameFails && CanRename(d, temp, dst) {
        e, r, committed := Rename(d, temp, dst), Ok(dst), true;
      }
    }
    if !committed {
      e := Discard(e, temp, x);
    }
  }

  method SaveInDirectory(cfg: Config, d: Disk, root: string, x: Exchange, expected: string)
    returns (e: Disk, r: Result<FilePath, Error>)
    requires x.response.Body?
    ensures (e, r) == SaveIn(cfg, d, root, x, expected)
  {
    hide ValidatedFile, RootPath, Acceptable, Discard, Commit, TempName, FinalName, Exists;
    var temp := RootPath(root) + [TempName(x.tempId)];
    if x.createFails || Exists(d, temp) {
      return d, Err(OtherError);
    }
    if ValidatedFile(root, TempName(x.tempId)) != Some(temp) {
      return Discard(d.(files := d.files[temp := []]), temp, x), Err(OtherError);
    }
    var d2 := d.(files := d.files[temp := x.response.bytes]);
    if !Acceptable(cfg, x, expected) {
      return Discard(d2, temp, x), Err(OtherError);
    }
    var dst := ValidatedFile(root, FinalName(cfg, x.response.ext));
    if dst.None? {
      return Discard(d2, temp, x), Err(OtherError);
    }
    e, r := CommitTemp(cfg, d2, temp, dst.value, x, expected);
  }
}
