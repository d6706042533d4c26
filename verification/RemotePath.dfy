/** internal/download/remotepath.go: translating a path reported by a download client into the local
    path, by the longest enabled mapping of that client. */
module RemotePath {
  import opened Text
  import opened Wrappers
  import opened Paths
  import PathLaws

  datatype Mapping = Mapping(
    clientId: string, displayName: string, remotePath: string, localPath: string, enabled: bool)

  datatype Strategy = Unmapped | Rejected | Mapped

  datatype Resolution = Resolution(
    strategy: Strategy, clientId: string, reportedPath: string,
    matchedRemote: string, localPrefix: string, resolvedPath: string, failureReason: string)

  const EMPTY_REPORT := "reported path is empty"
  const NO_MAPPING := "no enabled mapping matched the client and path"
  const ESCAPED_REMOTE := "reported path escaped the remote prefix"
  const ESCAPED_LOCAL := "resolved path escaped the local prefix"

  const NUL := 0 as char

  /** cleanPath: "" stands for a path that is unusable. */
  function CleanPath(raw: string): string {
    var trimmed := TrimSpace(ReplaceChar(raw, '\\', '/'));
    if trimmed == "" then ""
    else
      var cleaned := Clean(trimmed);
      if cleaned == "." || NUL in cleaned then "" else cleaned
  }

  /** The mapping survives the two `continue` guards of the loop. */
  predicate Candidate(m: Mapping, clientId: string, reported: string) {
    && m.enabled
    && EqualFold(TrimSpace(m.clientId), TrimSpace(clientId))
    && CleanPath(m.remotePath) != ""
    && CleanPath(m.localPath) != ""
    && DownloadPathWithin(reported, CleanPath(m.remotePath))
  }

  /** The mapping chosen among the first `k`: the earliest of those with the longest remote prefix. */
  function BestUpTo(mappings: seq<Mapping>, k: nat, clientId: string, reported: string): (best: Option<nat>)
    requires k <= |mappings|
    ensures best.Some? ==> best.value < k
  {
    if k == 0 then None
    else
      var best := BestUpTo(mappings, k - 1, clientId, reported);
      var m := mappings[k - 1];
      if !Candidate(m, clientId, reported) then best
      else if best.None? || |CleanPath(m.remotePath)| > |CleanPath(mappings[best.value].remotePath)| then Some(k - 1)
      else best
  }

  /** What the loop's answer is turned into, following the branches after it. */
  function Translate(m: Mapping, r: Resolution, reported: string): Resolution {
    var remote, local := CleanPath(m.remotePath), CleanPath(m.localPath);
    match Rel(remote, reported)
    case None => r.(strategy := Rejected, failureReason := ESCAPED_REMOTE)
    case Some(remaining) =>
      if EscapesRoot(remaining) then r.(strategy := Rejected, failureReason := ESCAPED_REMOTE)
      else
        var resolved := Clean(Join(local, remaining));
        if !DownloadPathWithin(resolved, local) then r.(strategy := Rejected, failureReason := ESCAPED_LOCAL)
        else r.(strategy := Mapped, matchedRemote := remote, localPrefix := local, resolvedPath := resolved)
  }

  function Resolve(clientId: string, reportedPath: string, mappings: seq<Mapping>): Resolution {
    var r := Resolution(Unmapped, clientId, reportedPath, "", "", "", "");
    var reported := CleanPath(reportedPath);
    if reported == "" then r.(strategy := Rejected, failureReason := EMPTY_REPORT)
    else
      match BestUpTo(mappings, |mappings|, clientId, reported)
      case None => r.(failureReason := NO_MAPPING)
      case Some(i) => Translate(mappings[i], r, reported)
  }

  method ResolveRemotePath(clientId: string, reportedPath: string, mappings: seq<Mapping>) returns (r: Resolution)
    ensures r == Resolve(clientId, reportedPath, mappings)
  {
    hide CleanPath, DownloadPathWithin, Rel, Join, Clean, EqualFold, TrimSpace;
    r := Resolution(Unmapped, clientId, reportedPath, "", "", "", "");
    var reported := CleanPath(reportedPath);
    if reported == "" {
      r := r.(strategy := Rejected, failureReason := EMPTY_REPORT);
      return;
    }
    var best: Option<nat> := None;
    var bestRemote := "";
    for i := 0 to |mappings|
      invariant best == BestUpTo(mappings, i, clientId, reported)
      invariant bestRemote == if best.None? then "" else CleanPath(mappings[best.value].remotePath)
    {
      var m := mappings[i];
      if !m.enabled || !EqualFold(TrimSpace(m.clientId), TrimSpace(clientId)) {
        continue;
      }
      var remote, local := CleanPath(m.remotePath), CleanPath(m.localPath);
      if remote == "" || local == "" || !DownloadPathWithin(reported, remote) {
        continue;
      }
      if |remote| > |bestRemote| {
        best, bestRemote := Some(i), remote;
      }
    }
    if best.None? {
      r := r.(failureReason := NO_MAPPING);
      return;
    }
    var local := CleanPath(mappings[best.value].localPath);
    var remaining := Rel(bestRemote, reported);
    if remaining.None? || EscapesRoot(remaining.value) {
      r := r.(strategy := Rejected, failureReason := ESCAPED_REMOTE);
      return;
    }
    var resolved := Clean(Join(local, remaining.value));
    if !DownloadPathWithin(resolved, local) {
      r := r.(strategy := Rejected, failureReason := ESCAPED_LOCAL);
      return;
    }
    r := r.(strategy := Mapped, matchedRemote := bestRemote, localPrefix := local, resolvedPath := resolved);
  }

  // ---------- what CleanPath leaves ----------

  lemma {:induction false} CleanPathIsClean(raw: string)
    requires CleanPath(raw) != ""
    ensures var c := CleanPath(raw);
            c == Clean(c) && IsClean(Parse(c)) && c == Show(Parse(c)) && (Parse(c).rooted || Parse(c).segs != [])
            && NUL !in c
  {
    var trimmed := TrimSpace(ReplaceChar(raw, '\\', '/'));
    ParseIsClean(trimmed);
    ParseShow(Parse(trimmed));
  }

  predicate FreeOf(segs: seq<string>, c: char) {
    forall i :: 0 <= i < |segs| ==> c !in segs[i]
  }

  lemma {:induction false} SplitChars(s: string, c: char)
    requires c !in s && c != '/'
    ensures FreeOf(Split(s), c)
  {
    if s != "" {
      assert s[0] in s && forall x :: x in s[1..] ==> x in s;
      SplitChars(s[1..], c);
    }
  }

  lemma {:induction false} ReduceChars(rooted: bool, acc: seq<string>, parts: seq<string>, c: char)
    requires c != '.' && FreeOf(acc, c) && FreeOf(parts, c)
    ensures FreeOf(Reduce(rooted, acc, parts), c)
    decreases |parts|
  {
    if parts != [] {
      var next := ReduceStep(rooted, acc, parts[0]);
      assert c !in parts[0] && c !in "..";
      assert FreeOf(next, c);
      ReduceChars(rooted, next, parts[1..], c);
    }
  }

  lemma {:induction false} JoinChars(segs: seq<string>, c: char)
    requires c != '/' && FreeOf(segs, c)
    ensures c !in JoinSegs(segs)
  {
    if |segs| > 1 {
      JoinChars(segs[1..], c);
    }
  }

  lemma {:induction false} JoinCharsBack(segs: seq<string>, c: char)
    requires c !in JoinSegs(segs)
    ensures FreeOf(segs, c)
  {
    if |segs| > 1 {
      var tail := JoinSegs(segs[1..]);
      var s := JoinSegs(segs);
      assert s == segs[0] + "/" + tail;
      assert c !in segs[0] && c !in tail;
      JoinCharsBack(segs[1..], c);
      assert forall i :: 1 <= i < |segs| ==> segs[i] == segs[1..][i - 1];
    }
  }

  /** A cleaned path holds no backslash. */
  lemma {:induction false} CleanPathHasNoBackslash(raw: string)
    ensures '\\' !in CleanPath(raw)
  {
    var t := TrimSpace(ReplaceChar(raw, '\\', '/'));
    TrimKeepsOut(ReplaceChar(raw, '\\', '/'), '\\');
    SplitChars(t, '\\');
    ReduceChars(IsAbs(t), [], Split(t), '\\');
    JoinChars(Parse(t).segs, '\\');
  }

  lemma {:induction false} TrimKeepsOut(s: string, c: char)
    requires c !in s
    ensures c !in TrimSpace(s)
  {
    var a, b := TrimIsSlice(s);
  }

  // ---------- the chosen mapping ----------

  /** On prefixes of one path a longer string means a deeper directory. */
  lemma {:induction false} LongerIsDeeper(a: Path, b: Path)
    requires IsClean(a) && IsClean(b) && a.rooted == b.rooted && a.segs <= b.segs
    requires a.rooted || a.segs != []
    ensures |Show(a)| <= |Show(b)|
    ensures |Show(a)| == |Show(b)| ==> a == b
  {
    var rest := b.segs[|a.segs|..];
    assert b.segs == a.segs + rest;
    if rest != [] {
      assert rest[0] == b.segs[|a.segs|];
      JoinHead(rest);
      if a.segs != [] {
        JoinPrefix(a.segs, rest);
      } else {
        assert a.segs + rest == rest;
      }
    } else {
      assert a.segs == b.segs;
    }
  }

  /** Of two remote prefixes that both contain the reported path, the longer lies within the shorter. */
  lemma {:induction false} NestedPrefixes(reported: string, raw0: string, raw1: string)
    requires reported != "" && reported == Clean(reported)
    requires CleanPath(raw0) != "" && DownloadPathWithin(reported, CleanPath(raw0))
    requires CleanPath(raw1) != "" && DownloadPathWithin(reported, CleanPath(raw1))
    requires |CleanPath(raw0)| <= |CleanPath(raw1)|
    ensures Within(Parse(CleanPath(raw1)), Parse(CleanPath(raw0)))
  {
    hide CleanPath, Parse, Clean, Show, DownloadPathWithin;
    var a, b := CleanPath(raw0), CleanPath(raw1);
    CleanPathIsClean(raw0);
    CleanPathIsClean(raw1);
    PathWithinMeaning(reported, a);
    PathWithinMeaning(reported, b);
    var p, pa, pb := Parse(reported), Parse(a), Parse(b);
    if |pb.segs| < |pa.segs| {
      assert pb.segs == p.segs[..|pb.segs|] && pa.segs == p.segs[..|pa.segs|];
      assert pb.segs <= pa.segs;
      LongerIsDeeper(pb, pa);
      assert false;
    } else {
      assert pa.segs <= pb.segs;
      assert |pa.segs| < |pb.segs| ==> pb.segs[|pa.segs|] == p.segs[|pa.segs|];
    }
  }

  lemma {:induction false} BestIsLongest(mappings: seq<Mapping>, k: nat, clientId: string, reported: string)
    requires k <= |mappings|
    ensures var best := BestUpTo(mappings, k, clientId, reported);
            && (best.Some? ==> Candidate(mappings[best.value], clientId, reported))
            && forall j :: 0 <= j < k && Candidate(mappings[j], clientId, reported) ==>
              best.Some? && |CleanPath(mappings[j].remotePath)| <= |CleanPath(mappings[best.value].remotePath)|
  {
    hide CleanPath, Candidate;
    if k > 0 {
      BestIsLongest(mappings, k - 1, clientId, reported);
    }
  }

  /** Of several mappings with the longest prefix the first in the list is taken. */
  lemma {:induction false} BestIsEarliest(mappings: seq<Mapping>, k: nat, clientId: string, reported: string)
    requires k <= |mappings|
    ensures var best := BestUpTo(mappings, k, clientId, reported);
            best.Some? ==>
              forall j :: 0 <= j < best.value && Candidate(mappings[j], clientId, reported) ==>
                |CleanPath(mappings[j].remotePath)| < |CleanPath(mappings[best.value].remotePath)|
  {
    hide CleanPath, Candidate;
    if k > 0 {
      BestIsEarliest(mappings, k - 1, clientId, reported);
      BestIsLongest(mappings, k - 1, clientId, reported);
    }
  }

  /** Translating through a mapping whose remote prefix contains the path never takes a rejecting
      branch: it replaces the remote prefix by the local one and keeps the remaining elements. */
  lemma {:induction false} TranslateKeepsRemainder(m: Mapping, r: Resolution, clientId: string, reported: string)
    requires reported != "" && reported == Clean(reported)
    requires Candidate(m, clientId, reported)
    ensures var remote, local := Parse(CleanPath(m.remotePath)), Parse(CleanPath(m.localPath));
            var out := Moved(Parse(reported), remote, local);
            && Within(Parse(reported), remote) && IsClean(out) && Within(out, local)
            && Translate(m, r, reported) ==
               r.(strategy := Mapped, matchedRemote := CleanPath(m.remotePath), localPrefix := CleanPath(m.localPath),
                  resolvedPath := Show(out))
  {
    var remote, local := CleanPath(m.remotePath), CleanPath(m.localPath);
    CleanPathIsClean(m.remotePath);
    CleanPathIsClean(m.localPath);
    PathWithinMeaning(reported, remote);
    ParseIsClean(reported);
    hide CleanPath, Parse, Show, DownloadPathWithin, Rel, Join, Within, EscapesRoot, IsClean, Moved;
    assert reported == Show(Parse(reported));
    JoinedRemainder(Parse(reported), Parse(remote), Parse(local));
  }

  /** `p` with the elements of `remote` replaced by those of `local`. */
  function Moved(p: Path, remote: Path, local: Path): Path {
    Path(local.rooted, local.segs + if |remote.segs| <= |p.segs| then p.segs[|remote.segs|..] else [])
  }

  lemma {:induction false} JoinedRemainder(p: Path, remote: Path, local: Path)
    requires IsClean(p) && IsClean(remote) && IsClean(local) && Within(p, remote)
    requires remote.rooted || remote.segs != []
    ensures var out := Moved(p, remote, local);
            var remaining := Rel(Show(remote), Show(p));
            && IsClean(out) && Within(out, local)
            && remaining.Some? && !EscapesRoot(remaining.value)
            && Clean(Join(Show(local), remaining.value)) == Show(out)
            && DownloadPathWithin(Show(out), Show(local))
  {
    hide Parse, Show, Rel, Join, DownloadPathWithin;
    var rest := p.segs[|remote.segs|..];
    var out := Moved(p, remote, local);
    RestStaysInside(p, remote, local);
    assert p.segs == remote.segs + rest;
    ParseShow(p);
    ParseShow(remote);
    if p == remote {
      assert local.segs + rest == local.segs;
      RelSame(p);
      JoinDot(local);
    } else {
      assert rest != [];
      RelInside(remote, p);
      JoinExtends(local, rest);
    }
    ParseShow(out);
    ParseShow(local);
    PathWithinMeaning(Show(out), Show(local));
  }

  lemma {:induction false} RelSame(p: Path)
    ensures Rel(Show(p), Show(p)) == Some(".") && !EscapesRoot(".")
  {
  }

  /** The elements below the remote prefix are ordinary names, so they extend any local prefix. */
  lemma {:induction false} RestStaysInside(p: Path, remote: Path, local: Path)
    requires IsClean(p) && IsClean(remote) && IsClean(local) && Within(p, remote)
    requires remote.rooted || remote.segs != []
    ensures var out := Moved(p, remote, local); IsClean(out) && Within(out, local)
  {
    var k := |remote.segs|;
    var rest := p.segs[k..];
    assert forall i :: 0 <= i < |rest| ==> rest[i] == p.segs[k + i];
    assert forall i :: 0 <= i < |rest| ==> rest[i] != "..";
  }

  // ---------- the answer ----------

  /** Resolution is mapped exactly when some mapping applies, and rejected exactly when the reported
      path is unusable: both later rejecting branches are unreachable. */
  lemma {:induction false} ResolveOutcome(clientId: string, reportedPath: string, mappings: seq<Mapping>)
    ensures var r := Resolve(clientId, reportedPath, mappings);
            var reported := CleanPath(reportedPath);
            && (r.strategy == Rejected <==> reported == "")
            && (r.strategy == Rejected ==> r.failureReason == EMPTY_REPORT)
            && (r.strategy == Mapped <==>
                reported != "" && exists j :: 0 <= j < |mappings| && Candidate(mappings[j], clientId, reported))
  {
    var reported := CleanPath(reportedPath);
    if reported != "" {
      CleanPathIsClean(reportedPath);
      BestIsLongest(mappings, |mappings|, clientId, reported);
      hide CleanPath, Parse, Clean, Show, Translate, Candidate, Moved, Within, IsClean;
      var best := BestUpTo(mappings, |mappings|, clientId, reported);
      if best.Some? {
        TranslateKeepsRemainder(mappings[best.value], Resolution(Unmapped, clientId, reportedPath, "", "", "", ""),
                                clientId, reported);
      }
    }
  }

  /** An answer names the client and the path it was asked for, and only a mapped one names anything else; the
      other two say why there is nothing to name. */
  lemma {:induction false} UnmappedNamesNothing(clientId: string, reportedPath: string, mappings: seq<Mapping>)
    ensures var r := Resolve(clientId, reportedPath, mappings);
            && r.clientId == clientId && r.reportedPath == reportedPath
            && (r.strategy != Mapped ==> r.matchedRemote == r.localPrefix == r.resolvedPath == "")
            && (r.strategy == Unmapped ==> r.failureReason == "no enabled mapping matched the client and path")
            && (r.strategy == Rejected ==> r.failureReason == "reported path is empty")
            && (r.strategy == Mapped ==> r.failureReason == "")
  {
    hide CleanPath, Candidate, BestUpTo, Translate;
    ResolveOutcome(clientId, reportedPath, mappings);
    var reported := CleanPath(reportedPath);
    var best := BestUpTo(mappings, |mappings|, clientId, reported);
    if reported != "" && best.Some? {
      TranslateNames(mappings[best.value], Resolution(Unmapped, clientId, reportedPath, "", "", "", ""), reported);
    }
  }

  lemma {:induction false} TranslateNames(m: Mapping, r: Resolution, reported: string)
    ensures var t := Translate(m, r, reported);
            && t.clientId == r.clientId && t.reportedPath == r.reportedPath && t.strategy != Unmapped
            && (t.strategy == Mapped ==> t.failureReason == r.failureReason)
            && (t.strategy == Rejected ==> t.matchedRemote == r.matchedRemote
                                           && t.localPrefix == r.localPrefix && t.resolvedPath == r.resolvedPath)
  {
    hide CleanPath, Rel, Join, Clean, DownloadPathWithin, EscapesRoot;
  }

  /** A mapped answer comes from an applicable mapping, the deepest one; it lies inside that mapping's
      local prefix and keeps the elements below the remote prefix. */
  lemma {:induction false} MappedAnswer(clientId: string, reportedPath: string, mappings: seq<Mapping>) returns (i: nat)
    requires Resolve(clientId, reportedPath, mappings).strategy == Mapped
    ensures i < |mappings| && Candidate(mappings[i], clientId, CleanPath(reportedPath))
    ensures var r := Resolve(clientId, reportedPath, mappings);
            var p, remote, local := Parse(CleanPath(reportedPath)), Parse(r.matchedRemote), Parse(r.localPrefix);
            && r.matchedRemote == CleanPath(mappings[i].remotePath) && r.localPrefix == CleanPath(mappings[i].localPath)
            && Within(p, remote)
            && r.resolvedPath == Show(Moved(p, remote, local))
            && IsClean(Moved(p, remote, local)) && Within(Moved(p, remote, local), local)
    ensures forall j :: 0 <= j < |mappings| && Candidate(mappings[j], clientId, CleanPath(reportedPath)) ==>
              Within(Parse(CleanPath(mappings[i].remotePath)), Parse(CleanPath(mappings[j].remotePath)))
  {
    var reported := CleanPath(reportedPath);
    hide CleanPath, Parse, Clean, Show, Translate, Moved, Within, IsClean, DownloadPathWithin;
    CleanPathIsClean(reportedPath);
    BestIsLongest(mappings, |mappings|, clientId, reported);
    i := BestUpTo(mappings, |mappings|, clientId, reported).value;
    var m := mappings[i];
    TranslateKeepsRemainder(m, Resolution(Unmapped, clientId, reportedPath, "", "", "", ""), clientId, reported);
    forall j | 0 <= j < |mappings| && Candidate(mappings[j], clientId, reported)
      ensures Within(Parse(CleanPath(m.remotePath)), Parse(CleanPath(mappings[j].remotePath)))
    {
      NestedPrefixes(reported, mappings[j].remotePath, m.remotePath);
    }
  }

  // ---------- the way back ----------

  function Swap(m: Mapping): Mapping {
    m.(remotePath := m.localPath, localPath := m.remotePath)
  }

  /** Moving back and forth between two prefixes changes nothing. */
  lemma {:induction false} MovedBack(p: Path, remote: Path, local: Path)
    requires Within(p, remote)
    ensures Moved(Moved(p, remote, local), local, remote) == p
  {
    assert p.segs == remote.segs + p.segs[|remote.segs|..];
  }

  lemma {:induction false} NotDot(p: Path)
    requires IsClean(p) && (p.rooted || p.segs != [])
    ensures Show(p) != "."
  {
    ParseShow(p);
    ParseShow(Path(false, []));
  }

  lemma {:induction false} MovedChars(p: Path, remote: Path, local: Path, c: char)
    requires c != '/' && c != '.' && c !in Show(local) && c !in Show(p)
    ensures c !in Show(Moved(p, remote, local))
  {
    var out := Moved(p, remote, local);
    JoinCharsBack(local.segs, c);
    JoinCharsBack(p.segs, c);
    JoinChars(out.segs, c);
  }

  /** Cleaning a printed clean path without backslash or NUL changes it exactly when it has a blank
      at an end. */
  lemma {:induction false} CleanPathFixed(p: Path)
    requires IsClean(p) && (p.rooted || p.segs != [])
    requires '\\' !in Show(p) && NUL !in Show(p)
    ensures CleanPath(Show(p)) == Show(p) <==> TrimSpace(Show(p)) == Show(p)
  {
    var s := Show(p);
    ParseShow(p);
    ShowNotEmpty(p);
    NotDot(p);
    assert Clean(s) == s;
    hide Show, Parse, TrimSpace, IsClean, Clean, ReplaceChar;
    ReplaceNothing(s);
    var trimmed := TrimSpace(s);
    if trimmed != s && trimmed != "" {
      CleanNeverLonger(trimmed);
    }
  }

  /** For a list holding one mapping: the way back inverts the way there exactly when the answer has no blank
      at either end. */
  lemma {:induction false} SwappedSingleInverts(m: Mapping, clientId: string, reportedPath: string)
    requires Resolve(clientId, reportedPath, [m]).strategy == Mapped
    ensures var there := Resolve(clientId, reportedPath, [m]);
            var back := Resolve(clientId, there.resolvedPath, [Swap(m)]);
            back.strategy == Mapped && back.resolvedPath == CleanPath(reportedPath)
            <==> TrimSpace(there.resolvedPath) == there.resolvedPath
  {
    var there := Resolve(clientId, reportedPath, [m]);
    var resolved := there.resolvedPath;
    var back := Resolve(clientId, resolved, [Swap(m)]);
    ResolvedShape(m, clientId, reportedPath);
    if back.strategy == Mapped {
      BackKeepsRemainder(m, clientId, reportedPath);
    }
    if CleanPath(resolved) == resolved {
      SwapApplies(m, clientId, reportedPath);
    }
  }

  lemma {:induction false} ResolvedShape(m: Mapping, clientId: string, reportedPath: string)
    requires Resolve(clientId, reportedPath, [m]).strategy == Mapped
    ensures var resolved := Resolve(clientId, reportedPath, [m]).resolvedPath;
            var p, remote, local := Parse(CleanPath(reportedPath)), Parse(CleanPath(m.remotePath)),
                Parse(CleanPath(m.localPath));
            var out := Moved(p, remote, local);
            && Within(p, remote) && IsClean(out) && Within(out, local)
            && resolved == Show(out) && CleanPath(reportedPath) == Show(p)
            && resolved != "" && (CleanPath(resolved) == resolved <==> TrimSpace(resolved) == resolved)
  {
    ResolveOutcome(clientId, reportedPath, [m]);
    var i := MappedAnswer(clientId, reportedPath, [m]);
    hide Resolve, CleanPath, Parse, Clean, Show, IsClean, Within, DownloadPathWithin;
    CleanPathIsClean(reportedPath);
    CleanPathIsClean(m.localPath);
    CleanPathHasNoBackslash(reportedPath);
    CleanPathHasNoBackslash(m.localPath);
    var p, remote, local := Parse(CleanPath(reportedPath)), Parse(CleanPath(m.remotePath)),
        Parse(CleanPath(m.localPath));
    MovedChars(p, remote, local, '\\');
    MovedChars(p, remote, local, NUL);
    ShowNotEmpty(Moved(p, remote, local));
    CleanPathFixed(Moved(p, remote, local));
  }

  /** If the way back is mapped, it puts the remote prefix back in front of what is below the local one. */
  lemma {:induction false} BackKeepsRemainder(m: Mapping, clientId: string, reportedPath: string)
    requires Resolve(clientId, reportedPath, [m]).strategy == Mapped
    requires Resolve(clientId, Resolve(clientId, reportedPath, [m]).resolvedPath, [Swap(m)]).strategy == Mapped
    ensures var resolved := Resolve(clientId, reportedPath, [m]).resolvedPath;
            Resolve(clientId, resolved, [Swap(m)]).resolvedPath == CleanPath(reportedPath)
            <==> CleanPath(resolved) == resolved
  {
    var resolved := Resolve(clientId, reportedPath, [m]).resolvedPath;
    ResolvedShape(m, clientId, reportedPath);
    ResolvedShape(Swap(m), clientId, resolved);
    hide Resolve, CleanPath, Clean, IsClean, Within, Moved, Parse, Show;
    var p, q := Parse(CleanPath(reportedPath)), Parse(CleanPath(resolved));
    var remote, local := Parse(CleanPath(m.remotePath)), Parse(CleanPath(m.localPath));
    MovedBack(p, remote, local);
    MovedBack(q, local, remote);
    ParseShow(Moved(p, remote, local));
    ParseShow(Moved(q, local, remote));
    CleanPathIsClean(reportedPath);
    ParseShow(p);
  }

  lemma {:induction false} SwapApplies(m: Mapping, clientId: string, reportedPath: string)
    requires Resolve(clientId, reportedPath, [m]).strategy == Mapped
    requires var resolved := Resolve(clientId, reportedPath, [m]).resolvedPath; CleanPath(resolved) == resolved
    ensures var resolved := Resolve(clientId, reportedPath, [m]).resolvedPath;
            Resolve(clientId, resolved, [Swap(m)]).strategy == Mapped
  {
    var resolved := Resolve(clientId, reportedPath, [m]).resolvedPath;
    ResolvedShape(m, clientId, reportedPath);
    var i := MappedAnswer(clientId, reportedPath, [m]);
    hide Resolve, CleanPath, Clean, IsClean, Within, Moved, Parse, Show, DownloadPathWithin;
    CleanPathIsClean(m.localPath);
    CleanPathIsClean(m.remotePath);
    ParseShow(Moved(Parse(CleanPath(reportedPath)), Parse(CleanPath(m.remotePath)), Parse(CleanPath(m.localPath))));
    PathWithinMeaning(resolved, CleanPath(m.localPath));
    assert Candidate([Swap(m)][0], clientId, resolved);
    ResolveOutcome(clientId, resolved, [Swap(m)]);
  }

  // ---------- the way back, from any list ----------

  /** The mapping the loop settles on. */
  function Chosen(clientId: string, reportedPath: string, mappings: seq<Mapping>): Option<nat> {
    BestUpTo(mappings, |mappings|, clientId, CleanPath(reportedPath))
  }

  /** The other mappings of the list do not matter to a mapped answer. */
  lemma {:induction false} ChosenAlone(clientId: string, reportedPath: string, mappings: seq<Mapping>)
    requires Resolve(clientId, reportedPath, mappings).strategy == Mapped
    ensures var i := Chosen(clientId, reportedPath, mappings);
            i.Some? && i.value < |mappings|
            && Resolve(clientId, reportedPath, [mappings[i.value]]) == Resolve(clientId, reportedPath, mappings)
  {
    hide CleanPath, Candidate, Translate;
    var reported := CleanPath(reportedPath);
    BestIsLongest(mappings, |mappings|, clientId, reported);
    var i := BestUpTo(mappings, |mappings|, clientId, reported);
    if i.Some? {
      var one := [mappings[i.value]];
      assert BestUpTo(one, 0, clientId, reported) == None;
      assert BestUpTo(one, 1, clientId, reported) == Some(0);
    }
  }

  /** No blank at the beginning of the local prefix, nor at the end of what the answer ends with: the local
      prefix if it is all there is, the reported path otherwise. */
  predicate NoBlankAtEnds(reported: string, remote: string, local: string) {
    var tail := if reported == remote then local else reported;
    local != "" && tail != "" && !IsSpace(local[0]) && !IsSpace(tail[|tail| - 1])
  }

  lemma {:induction false} JoinLast(segs: seq<string>)
    requires segs != [] && segs[|segs| - 1] != ""
    ensures JoinSegs(segs) != "" && JoinSegs(segs)[|JoinSegs(segs)| - 1] == segs[|segs| - 1][|segs[|segs| - 1]| - 1]
  {
    if |segs| > 1 {
      JoinLast(segs[1..]);
    }
  }

  function FirstChar(p: Path): char {
    if p.rooted || p.segs == [] || p.segs[0] == "" then '/' else p.segs[0][0]
  }

  function LastChar(p: Path): char {
    if p.segs == [] then '/'
    else
      var last := p.segs[|p.segs| - 1];
      if last == "" then '/' else last[|last| - 1]
  }

  /** The first and the last character of a clean path that is not ".". */
  lemma {:induction false} ShownEnds(p: Path)
    requires IsClean(p) && (p.rooted || p.segs != [])
    ensures var text := Show(p); text != "" && text[0] == FirstChar(p) && text[|text| - 1] == LastChar(p)
  {
    if p.segs != [] {
      assert IsSegment(p.segs[0]) && IsSegment(p.segs[|p.segs| - 1]);
      JoinHead(p.segs);
      JoinLast(p.segs);
    }
  }

  /** Where the answer's elements begin and end. */
  lemma {:induction false} MovedEnds(p: Path, remote: Path, local: Path)
    requires Within(p, remote) && (local.rooted || local.segs != [])
    ensures var out := Moved(p, remote, local);
            && FirstChar(out) == FirstChar(local) && LastChar(out) == LastChar(if p == remote then local else p)
            && (out.rooted || out.segs != [])
  {
    assert p.segs == remote.segs + p.segs[|remote.segs|..];
  }

  lemma {:induction false} ShownDiffer(p: Path, q: Path)
    requires IsClean(p) && IsClean(q)
    ensures Show(p) == Show(q) <==> p == q
  {
    ParseShow(p);
    ParseShow(q);
  }

  lemma {:induction false} AnswerEnds(p: Path, remote: Path, local: Path)
    requires IsClean(p) && IsClean(remote) && IsClean(local) && Within(p, remote) && IsClean(Moved(p, remote, local))
    requires (remote.rooted || remote.segs != []) && (local.rooted || local.segs != [])
    ensures TrimSpace(Show(Moved(p, remote, local))) == Show(Moved(p, remote, local))
            <==> NoBlankAtEnds(Show(p), Show(remote), Show(local))
  {
    hide Moved, Within, Show, TrimSpace, IsClean, IsSpace, FirstChar, LastChar;
    WithinHasName(p, remote);
    MovedEnds(p, remote, local);
    ShownTrimmed(Moved(p, remote, local));
    ShownEnds(p);
    ShownEnds(local);
    ShownDiffer(p, remote);
  }

  lemma {:induction false} WithinHasName(p: Path, remote: Path)
    requires Within(p, remote) && (remote.rooted || remote.segs != [])
    ensures p.rooted || p.segs != []
  {
  }

  lemma {:induction false} ShownTrimmed(p: Path)
    requires IsClean(p) && (p.rooted || p.segs != [])
    ensures TrimSpace(Show(p)) == Show(p) <==> !IsSpace(FirstChar(p)) && !IsSpace(LastChar(p))
  {
    ShownEnds(p);
    hide Show, IsClean, FirstChar, LastChar;
    TrimSpaceFixed(Show(p));
  }

  /** Feeding a mapped answer back through the chosen mapping with its sides exchanged returns the cleaned
      reported path exactly when there is no blank at the beginning of the local prefix or at the end of the
      answer: cleaning can expose such a blank ("/a /." becomes "/a "), and the way back trims it. */
  lemma {:induction false} SwappedMappingInverts(clientId: string, reportedPath: string, mappings: seq<Mapping>)
    requires Resolve(clientId, reportedPath, mappings).strategy == Mapped
    ensures Chosen(clientId, reportedPath, mappings).Some?
    ensures Chosen(clientId, reportedPath, mappings).value < |mappings|
    ensures var m := mappings[Chosen(clientId, reportedPath, mappings).value];
            var there := Resolve(clientId, reportedPath, mappings);
            var back := Resolve(clientId, there.resolvedPath, [Swap(m)]);
            back.strategy == Mapped && back.resolvedPath == CleanPath(reportedPath)
            <==> NoBlankAtEnds(CleanPath(reportedPath), CleanPath(m.remotePath), CleanPath(m.localPath))
  {
    ChosenAlone(clientId, reportedPath, mappings);
    var m := mappings[Chosen(clientId, reportedPath, mappings).value];
    hide CleanPath, Candidate, Translate, BestUpTo, NoBlankAtEnds, TrimSpace;
    SwappedSingleInverts(m, clientId, reportedPath);
    SingleAnswerEnds(m, clientId, reportedPath);
  }

  lemma {:induction false} SingleAnswerEnds(m: Mapping, clientId: string, reportedPath: string)
    requires Resolve(clientId, reportedPath, [m]).strategy == Mapped
    ensures var resolved := Resolve(clientId, reportedPath, [m]).resolvedPath;
            TrimSpace(resolved) == resolved
            <==> NoBlankAtEnds(CleanPath(reportedPath), CleanPath(m.remotePath), CleanPath(m.localPath))
  {
    ResolvedShape(m, clientId, reportedPath);
    var i := MappedAnswer(clientId, reportedPath, [m]);
    hide Resolve, CleanPath, Clean, Within, Moved, Parse, Show, NoBlankAtEnds, TrimSpace, DownloadPathWithin;
    CleanPathIsClean(reportedPath);
    CleanPathIsClean(m.remotePath);
    CleanPathIsClean(m.localPath);
    AnswerEnds(Parse(CleanPath(reportedPath)), Parse(CleanPath(m.remotePath)), Parse(CleanPath(m.localPath)));
  }

  // ---------- reported paths that step up ----------

  /** When a mapping applies to a cleaned path, in the terms of the mapping. */
  lemma {:induction false} CandidateMeaning(m: Mapping, clientId: string, reported: string)
    requires reported != "" && reported == Clean(reported)
    ensures Candidate(m, clientId, reported) <==>
            && m.enabled && ToLower(TrimSpace(m.clientId)) == ToLower(TrimSpace(clientId))
            && CleanPath(m.remotePath) != "" && CleanPath(m.localPath) != ""
            && Within(Parse(reported), Parse(CleanPath(m.remotePath)))
  {
    hide CleanPath, Parse, Clean, Within, DownloadPathWithin, TrimSpace, ToLower;
    if CleanPath(m.remotePath) != "" {
      CleanPathIsClean(m.remotePath);
      PathWithinMeaning(reported, CleanPath(m.remotePath));
    }
  }

  lemma {:induction false} TrimRightTail(front: string, tail: string)
    requires front != "" && !IsSpace(front[|front| - 1])
    ensures TrimRight(front + tail) == front + TrimRight(tail)
    decreases |tail|
  {
    if tail == "" {
      assert front + tail == front;
    } else if IsSpace(tail[|tail| - 1]) {
      assert (front + tail)[..|front + tail| - 1] == front + tail[..|tail| - 1];
      TrimRightTail(front, tail[..|tail| - 1]);
    }
  }

  lemma {:induction false} TrimTail(front: string, tail: string)
    requires front != "" && !IsSpace(front[0]) && !IsSpace(front[|front| - 1])
    ensures TrimSpace(front + tail) == front + TrimRight(tail)
  {
    assert (front + tail)[0] == front[0];
    assert TrimLeft(front + tail) == front + tail;
    hide TrimLeft, TrimRight;
    TrimRightTail(front, tail);
  }

  lemma {:induction false} ReplaceTail(front: string, tail: string)
    requires '\\' !in front
    ensures ReplaceChar(front + tail, '\\', '/') == front + ReplaceChar(tail, '\\', '/')
  {
  }

  /** What cleaning makes of a text that begins with a rooted path. */
  lemma {:induction false} CleanPathBelow(front: string, tail: string)
    requires front != "" && front[0] == '/' && front[|front| - 1] == '/' && '\\' !in front
    ensures var cleaned := Clean(front + TrimRight(ReplaceChar(tail, '\\', '/')));
            CleanPath(front + tail) == if cleaned == "." || NUL in cleaned then "" else cleaned
  {
    ReplaceTail(front, tail);
    TrimTail(front, ReplaceChar(tail, '\\', '/'));
    hide Clean, TrimSpace, TrimRight;
  }

  /** A reported path that enters a directory and leaves it again is the path without that detour. */
  lemma {:induction false} CleanPathTakesNameBack(p: Path, name: string, rest: string)
    requires p.rooted && IsClean(p) && '\\' !in Show(p) && PathLaws.IsName(name) && '\\' !in name
    ensures CleanPath(Show(p) + "/" + name + "/../" + rest) == CleanPath(Show(p) + "/" + rest)
  {
    var a := Show(p);
    var tail := TrimRight(ReplaceChar(rest, '\\', '/'));
    hide Show, Clean, CleanPath, TrimRight, IsClean;
    ShowNotEmpty(p);
    CleanPathBelow(a + "/" + name + "/../", rest);
    CleanPathBelow(a + "/", rest);
    PathLaws.UpTakesNameBack(p, name, tail);
    assert a + "/" + name + "/../" + rest == (a + "/" + name + "/../") + rest;
    assert a + "/" + name + "/../" + tail == (a + "/" + name + "/../") + tail;
  }

  lemma {:induction false} TranslateIgnoresReport(m: Mapping, r: Resolution, text: string, reported: string)
    ensures Translate(m, r, reported).(reportedPath := text) == Translate(m, r.(reportedPath := text), reported)
  {
    hide CleanPath, Rel, Join, Clean, DownloadPathWithin, EscapesRoot;
  }

  /** Resolution depends on the reported path only through its cleaned form. */
  lemma {:induction false} ResolveByCleanPath(clientId: string, raw: string, text: string, mappings: seq<Mapping>)
    requires CleanPath(raw) == CleanPath(text)
    ensures Resolve(clientId, raw, mappings).(reportedPath := text) == Resolve(clientId, text, mappings)
  {
    hide CleanPath, Translate;
    var best := BestUpTo(mappings, |mappings|, clientId, CleanPath(raw));
    hide BestUpTo;
    if best.Some? {
      TranslateIgnoresReport(mappings[best.value], Resolution(Unmapped, clientId, raw, "", "", "", ""), text,
                             CleanPath(raw));
    }
  }

  /** So it resolves as the path without the detour, whatever mappings name the directory that was left. */
  lemma {:induction false} ResolveTakesNameBack(clientId: string, p: Path, name: string, rest: string,
                                                mappings: seq<Mapping>)
    requires p.rooted && IsClean(p) && '\\' !in Show(p) && PathLaws.IsName(name) && '\\' !in name
    ensures var direct := Show(p) + "/" + rest;
            Resolve(clientId, Show(p) + "/" + name + "/../" + rest, mappings).(reportedPath := direct)
            == Resolve(clientId, direct, mappings)
  {
    hide CleanPath, Show, Resolve, IsClean;
    CleanPathTakesNameBack(p, name, rest);
    ResolveByCleanPath(clientId, Show(p) + "/" + name + "/../" + rest, Show(p) + "/" + rest, mappings);
  }

  /** A clean rooted path whose printed form cleaning leaves as it is. */
  predicate StaysClean(q: Path) {
    q.rooted && IsClean(q) && '\\' !in Show(q) && NUL !in Show(q) && TrimSpace(Show(q)) == Show(q)
  }

  /** What lies beside a remote prefix is not mapped by it, even when it is reached through it. */
  lemma {:induction false} NeighbourIsNotMapped(clientId: string, m: Mapping, p: Path, name: string, rest: seq<string>)
    requires p.rooted && IsClean(p) && '\\' !in Show(p) && PathLaws.IsName(name) && '\\' !in name
    requires rest != [] && rest[0] != name && StaysClean(Path(true, p.segs + rest))
    requires CleanPath(m.remotePath) == Show(Path(true, p.segs + [name]))
    ensures CleanPath(Show(p) + "/" + name + "/../" + JoinSegs(rest)) == Show(Path(true, p.segs + rest))
    ensures Resolve(clientId, Show(p) + "/" + name + "/../" + JoinSegs(rest), [m]).strategy == Unmapped
  {
    var raw, q := Show(p) + "/" + name + "/../" + JoinSegs(rest), Path(true, p.segs + rest);
    hide CleanPath, Show, JoinSegs, Resolve, StaysClean, Candidate, IsClean;
    CleanPathTakesNameBack(p, name, JoinSegs(rest));
    CleanedNeighbour(p, rest);
    SiblingIsNoCandidate(clientId, m, p, name, rest);
    assert Show(q) != "" by { StaysCleanFacts(q); }
    ResolveOutcome(clientId, raw, [m]);
  }

  lemma {:induction false} StaysCleanFacts(q: Path)
    requires StaysClean(q)
    ensures Show(q) != "" && Clean(Show(q)) == Show(q) && Parse(Show(q)) == q
  {
    ShowNotEmpty(q);
    ParseShow(q);
  }

  lemma {:induction false} SiblingIsNoCandidate(clientId: string, m: Mapping, p: Path, name: string, rest: seq<string>)
    requires p.rooted && IsClean(p) && PathLaws.IsName(name)
    requires rest != [] && rest[0] != name && StaysClean(Path(true, p.segs + rest))
    requires CleanPath(m.remotePath) == Show(Path(true, p.segs + [name]))
    ensures !Candidate(m, clientId, Show(Path(true, p.segs + rest)))
  {
    var q, remote := Path(true, p.segs + rest), Path(true, p.segs + [name]);
    StaysCleanFacts(q);
    NamedIsClean(p, name);
    ParseShow(remote);
    hide CleanPath, Show, Parse, Clean, IsClean, StaysClean, Candidate, TrimSpace, ToLower;
    SiblingIsOutside(p, name, rest);
    hide Within;
    CandidateMeaning(m, clientId, Show(q));
  }

  lemma {:induction false} SiblingIsOutside(p: Path, name: string, rest: seq<string>)
    requires rest != [] && rest[0] != name
    ensures !Within(Path(true, p.segs + rest), Path(true, p.segs + [name]))
  {
    assert (p.segs + rest)[|p.segs|] == rest[0] && (p.segs + [name])[|p.segs|] == name;
  }

  lemma {:induction false} NamedIsClean(p: Path, name: string)
    requires p.rooted && IsClean(p) && PathLaws.IsName(name)
    ensures IsClean(Path(true, p.segs + [name]))
  {
  }

  lemma {:induction false} CleanedNeighbour(p: Path, rest: seq<string>)
    requires p.rooted && IsClean(p) && rest != [] && '\\' !in Show(p) && StaysClean(Path(true, p.segs + rest))
    ensures CleanPath(Show(p) + "/" + JoinSegs(rest)) == Show(Path(true, p.segs + rest))
  {
    hide Show, JoinSegs, Clean, CleanPath, IsClean, TrimSpace, TrimRight, StaysClean;
    var q, tail := Path(true, p.segs + rest), JoinSegs(rest);
    TailOfShown(p, rest);
    TrimRightFixed(tail);
    JoinedNeighbour(p, rest);
    NotDotOrNul(q);
    ReplaceNothing(tail);
    CleanPathBelow(Show(p) + "/", tail);
  }

  lemma {:induction false} JoinedNeighbour(p: Path, rest: seq<string>)
    requires p.rooted && IsClean(p) && rest != [] && StaysClean(Path(true, p.segs + rest))
    ensures Clean(Show(p) + "/" + JoinSegs(rest)) == Show(Path(true, p.segs + rest))
    ensures Show(p) != "" && Show(p)[0] == '/'
  {
    hide Show, JoinSegs, Clean, TrimSpace;
    JoinExtends(p, rest);
    ShowNotEmpty(p);
  }

  lemma {:induction false} NotDotOrNul(q: Path)
    requires StaysClean(q)
    ensures Show(q) != "." && NUL !in Show(q)
  {
    hide Show, TrimSpace;
    NotDot(q);
  }

  lemma {:induction false} ReplaceNothing(s: string)
    requires '\\' !in s
    ensures ReplaceChar(s, '\\', '/') == s
  {
  }

  lemma {:induction false} TrimRightFixed(s: string)
    requires s != "" && !IsSpace(s[|s| - 1])
    ensures TrimRight(s) == s
  {
  }

  /** What holds of a printed path holds of its last elements. */
  lemma {:induction false} TailOfShown(p: Path, rest: seq<string>)
    requires p.rooted && rest != [] && StaysClean(Path(true, p.segs + rest))
    ensures var tail := JoinSegs(rest); tail != "" && '\\' !in tail && !IsSpace(tail[|tail| - 1])
  {
    hide StaysClean, IsClean, Show, TrimSpace, JoinSegs;
    var q := Path(true, p.segs + rest);
    LastNameEnds(q);
    assert q.segs[|q.segs| - 1] == rest[|rest| - 1];
    JoinLast(rest);
    assert FreeOf(rest, '\\') by {
      ShownIsFree(q);
      assert forall i :: 0 <= i < |rest| ==> rest[i] == q.segs[|p.segs| + i];
    }
    JoinChars(rest, '\\');
  }

  lemma {:induction false} ShownIsFree(q: Path)
    requires StaysClean(q)
    ensures FreeOf(q.segs, '\\')
  {
    hide IsClean, TrimSpace, JoinSegs;
    JoinCharsBack(q.segs, '\\');
  }

  lemma {:induction false} LastNameEnds(q: Path)
    requires StaysClean(q) && q.segs != []
    ensures var last := q.segs[|q.segs| - 1]; last != "" && !IsSpace(last[|last| - 1])
  {
    hide Show, TrimSpace;
    ShownTrimmed(q);
    assert IsSegment(q.segs[|q.segs| - 1]);
  }

  lemma {:induction false} CleanNames(name: string)
    requires IsSegment(name) && name != ".."
    ensures var p := Path(true, [name]);
            IsClean(p) && Show(p) == "/" + name && Clean("/" + name) == "/" + name
                && Clean("/" + name + "/.") == "/" + name
  {
    var p := Path(true, [name]);
    JoinDot(p);
    ParseShow(p);
    hide Parse, Clean;
    assert Join(Show(p), ".") == Clean(Show(p) + "/" + ".");
    assert Show(p) + "/" + "." == "/" + name + "/.";
  }

  /** Where such a blank comes from: for any name x, "/x /." cleans to "/x ", which cleans to something else. */
  lemma {:induction false} CleaningExposesBlank(x: string)
    requires '/' !in x && '\\' !in x && NUL !in x
    ensures var c := CleanPath("/" + x + " /."); c == "/" + x + " " && CleanPath(c) != c
  {
    var name := x + " ";
    var raw := "/" + name + "/.";
    assert raw == "/" + x + " /." && "/" + name == "/" + x + " ";
    assert name[|name| - 1] == ' ';
    CleanNames(name);
    TrimSpaceFixed(raw);
    assert ReplaceChar(raw, '\\', '/') == raw;
    hide Clean, Show, IsClean, TrimSpace;
    assert CleanPath(raw) == "/" + name;
    TrimSpaceFixed("/" + name);
    CleanPathFixed(Path(true, [name]));
  }
}
