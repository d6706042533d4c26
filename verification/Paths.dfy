/** The lexical path algebra of Go's `path/filepath` on Unix (Clean, Rel, Join), and the containment
    tests the repository builds on it. A cleaned path is a rooted flag and a sequence of elements;
    `Parse` and `Show` connect it with strings. */
module Paths {
  import opened Text
  import opened Wrappers

  datatype Path = Path(rooted: bool, segs: seq<string>)

  predicate IsSegment(s: string) {
    s != "" && s != "." && '/' !in s
  }

  /** What filepath.Clean leaves: no empty or "." element, and ".." only as a prefix of a relative path. */
  predicate IsClean(p: Path) {
    && (forall i :: 0 <= i < |p.segs| ==> IsSegment(p.segs[i]))
    && (forall i, j :: 0 <= j <= i < |p.segs| && p.segs[i] == ".." ==> !p.rooted && p.segs[j] == "..")
  }

  // ---------- strings to elements and back ----------

  /** strings.Split(s, "/") */
  function Split(s: string): (parts: seq<string>)
    ensures |parts| >= 1
  {
    if s == "" then [""]
    else if s[0] == '/' then [""] + Split(s[1..])
    else
      var rest := Split(s[1..]);
      [[s[0]] + rest[0]] + rest[1..]
  }

  /** strings.Join(segs, "/") */
  function JoinSegs(segs: seq<string>): string {
    if segs == [] then ""
    else if |segs| == 1 then segs[0]
    else segs[0] + "/" + JoinSegs(segs[1..])
  }

  function ReduceStep(rooted: bool, acc: seq<string>, part: string): seq<string> {
    if part == "" || part == "." then acc
    else if part == ".." then
      if acc != [] && acc[|acc| - 1] != ".." then acc[..|acc| - 1]
      else if rooted then acc
      else acc + [".."]
    else acc + [part]
  }

  /** Folds the elements of a path from left to right, as filepath.Clean does. */
  function Reduce(rooted: bool, acc: seq<string>, parts: seq<string>): seq<string>
    decreases |parts|
  {
    if parts == [] then acc else Reduce(rooted, ReduceStep(rooted, acc, parts[0]), parts[1..])
  }

  predicate IsAbs(s: string) {
    s != "" && s[0] == '/'
  }

  function Parse(s: string): Path {
    Path(IsAbs(s), Reduce(IsAbs(s), [], Split(s)))
  }

  function Show(p: Path): string {
    if p.rooted then "/" + JoinSegs(p.segs)
    else if p.segs == [] then "."
    else JoinSegs(p.segs)
  }

  /** filepath.Clean */
  function Clean(s: string): string {
    Show(Parse(s))
  }

  lemma {:induction false} SplitHasNoSlash(s: string)
    ensures forall i :: 0 <= i < |Split(s)| ==> '/' !in Split(s)[i]
  {
    if s != "" {
      SplitHasNoSlash(s[1..]);
    }
  }

  lemma {:induction false} SplitAppend(a: string, b: string)
    ensures Split(a + "/" + b) == Split(a) + Split(b)
  {
    var s := a + "/" + b;
    if a == "" {
      assert s[1..] == b;
    } else {
      assert s[1..] == a[1..] + "/" + b;
      SplitAppend(a[1..], b);
    }
  }

  lemma {:induction false} SplitOne(a: string)
    requires '/' !in a
    ensures Split(a) == [a]
  {
    if a != "" {
      SplitOne(a[1..]);
      assert [a[0]] + a[1..] == a;
    }
  }

  lemma {:induction false} SplitJoin(segs: seq<string>)
    requires segs != [] && forall i :: 0 <= i < |segs| ==> '/' !in segs[i]
    ensures Split(JoinSegs(segs)) == segs
  {
    SplitOne(segs[0]);
    if |segs| > 1 {
      SplitAppend(segs[0], JoinSegs(segs[1..]));
      SplitJoin(segs[1..]);
    }
  }

  lemma {:induction false} ReduceAppend(rooted: bool, acc: seq<string>, a: seq<string>, b: seq<string>)
    ensures Reduce(rooted, acc, a + b) == Reduce(rooted, Reduce(rooted, acc, a), b)
    decreases |a|
  {
    if a == [] {
      assert a + b == b;
    } else {
      assert (a + b)[1..] == a[1..] + b;
      ReduceAppend(rooted, ReduceStep(rooted, acc, a[0]), a[1..], b);
    }
  }

  lemma {:induction false} ReduceKeepsClean(rooted: bool, acc: seq<string>, parts: seq<string>)
    requires IsClean(Path(rooted, acc))
    requires forall i :: 0 <= i < |parts| ==> '/' !in parts[i]
    ensures IsClean(Path(rooted, Reduce(rooted, acc, parts)))
    decreases |parts|
  {
    if parts != [] {
      ReduceKeepsClean(rooted, ReduceStep(rooted, acc, parts[0]), parts[1..]);
    }
  }

  lemma {:induction false} ReduceOfClean(rooted: bool, acc: seq<string>, parts: seq<string>)
    requires IsClean(Path(rooted, acc + parts))
    ensures Reduce(rooted, acc, parts) == acc + parts
    decreases |parts|
  {
    if parts == [] {
      assert acc + parts == acc;
    } else {
      assert (acc + parts)[|acc|] == parts[0];
      assert forall j :: 0 <= j < |acc| ==> (acc + parts)[j] == acc[j];
      assert acc + parts == (acc + [parts[0]]) + parts[1..];
      ReduceOfClean(rooted, acc + [parts[0]], parts[1..]);
    }
  }

  /** filepath.Clean always yields a clean path. */
  lemma {:induction false} ParseIsClean(s: string)
    ensures IsClean(Parse(s))
  {
    SplitHasNoSlash(s);
    ReduceKeepsClean(IsAbs(s), [], Split(s));
  }

  lemma {:induction false} SplitShown(p: Path)
    requires IsClean(p) && p.segs != []
    ensures Split(Show(p)) == if p.rooted then [""] + p.segs else p.segs
  {
    SplitJoin(p.segs);
    if p.rooted {
      assert "" + "/" + JoinSegs(p.segs) == Show(p);
      SplitAppend("", JoinSegs(p.segs));
    }
  }

  lemma {:induction false} ParseShowEmpty(rooted: bool)
    ensures Parse(Show(Path(rooted, []))) == Path(rooted, [])
  {
    SplitOne("");
    SplitOne(".");
    assert Split("/") == ["", ""];
    assert ["", ""][1..] == [""] && ["."][1..] == [];
    assert Reduce(true, [], ["", ""]) == Reduce(true, [], [""]);
  }

  /** Reading back a printed clean path gives that path: printing is injective on clean paths. */
  lemma {:induction false} ParseShow(p: Path)
    requires IsClean(p)
    ensures Parse(Show(p)) == p
  {
    if p.segs == [] {
      ParseShowEmpty(p.rooted);
    } else {
      SplitShown(p);
      JoinHead(p.segs);
      assert [] + p.segs == p.segs;
      ReduceOfClean(p.rooted, [], p.segs);
      assert ([""] + p.segs)[1..] == p.segs;
    }
  }

  lemma {:induction false} JoinHead(segs: seq<string>)
    requires segs != [] && segs[0] != ""
    ensures JoinSegs(segs) != "" && JoinSegs(segs)[0] == segs[0][0]
  {
  }

  lemma {:induction false} CleanIdempotent(s: string)
    ensures Clean(Clean(s)) == Clean(s)
  {
    ParseIsClean(s);
    ParseShow(Parse(s));
  }

  // ---------- cleaning never lengthens a path ----------

  function Weight(segs: seq<string>): nat {
    if segs == [] then 0 else Weight(segs[..|segs| - 1]) + |segs[|segs| - 1]| + 1
  }

  lemma {:induction false} WeightCons(s: string, segs: seq<string>)
    ensures Weight([s] + segs) == |s| + 1 + Weight(segs)
  {
    if segs != [] {
      var init := segs[..|segs| - 1];
      assert ([s] + segs)[..|segs|] == [s] + init;
      WeightCons(s, init);
    } else {
      assert ([s] + segs)[..0] == [];
    }
  }

  lemma {:induction false} WeightSplit(s: string)
    ensures Weight(Split(s)) == |s| + 1
  {
    if s == "" {
      assert Split(s)[..0] == [];
    } else {
      WeightSplit(s[1..]);
      var rest := Split(s[1..]);
      if s[0] == '/' {
        WeightCons("", rest);
      } else {
        WeightCons(rest[0], rest[1..]);
        assert rest == [rest[0]] + rest[1..];
        WeightCons([s[0]] + rest[0], rest[1..]);
      }
    }
  }

  lemma {:induction false} WeightJoin(segs: seq<string>)
    requires segs != []
    ensures |JoinSegs(segs)| + 1 == Weight(segs)
  {
    assert segs == [segs[0]] + segs[1..];
    WeightCons(segs[0], segs[1..]);
    if |segs| > 1 {
      WeightJoin(segs[1..]);
    }
  }

  lemma {:induction false} WeightReduce(rooted: bool, acc: seq<string>, parts: seq<string>)
    ensures Weight(Reduce(rooted, acc, parts)) <= Weight(acc) + Weight(parts)
    decreases |parts|
  {
    if parts != [] {
      var part := parts[0];
      assert parts == [part] + parts[1..];
      WeightCons(part, parts[1..]);
      var next := ReduceStep(rooted, acc, part);
      if |next| == |acc| + 1 {
        assert next[..|acc|] == acc;
      }
      assert Weight(next) <= Weight(acc) + |part| + 1;
      WeightReduce(rooted, next, parts[1..]);
    }
  }

  lemma {:induction false} CleanNeverLonger(s: string)
    requires s != ""
    ensures |Clean(s)| <= |s|
  {
    var p := Parse(s);
    WeightSplit(s);
    if s[0] == '/' {
      var rest := Split(s[1..]);
      WeightSplit(s[1..]);
      assert ([""] + rest)[1..] == rest;
      WeightReduce(true, [], rest);
    } else {
      WeightReduce(false, [], Split(s));
    }
    if p.segs != [] {
      WeightJoin(p.segs);
    }
  }

  // ---------- Join and Rel ----------

  /** filepath.Join of two elements. */
  function Join(a: string, b: string): string {
    if a == "" && b == "" then ""
    else if a == "" then Clean(b)
    else if b == "" then Clean(a)
    else Clean(a + "/" + b)
  }

  lemma {:induction false} ShowNotEmpty(p: Path)
    requires IsClean(p)
    ensures Show(p) != ""
    ensures Show(p)[0] == '/' <==> p.rooted
  {
    if p.segs != [] {
      JoinHead(p.segs);
    }
  }

  /** Joining a clean path with elements that never step up extends the path by those elements. */
  lemma {:induction false} JoinExtends(p: Path, rest: seq<string>)
    requires IsClean(p)
    requires rest != [] && IsClean(Path(p.rooted, p.segs + rest))
    ensures JoinSegs(rest) != ""
    ensures Join(Show(p), JoinSegs(rest)) == Show(Path(p.rooted, p.segs + rest))
  {
    var a, b := Show(p), JoinSegs(rest);
    CleanTail(p, rest);
    JoinHead(rest);
    ShowNotEmpty(p);
    ParseShow(p);
    hide Show, JoinSegs, Reduce, IsClean, Split;
    SplitAppend(a, b);
    SplitJoin(rest);
    ReduceAppend(p.rooted, [], Split(a), rest);
    assert IsAbs(a + "/" + b) == p.rooted;
    ReduceOfClean(p.rooted, p.segs, rest);
  }

  lemma {:induction false} CleanTail(p: Path, rest: seq<string>)
    requires IsClean(Path(p.rooted, p.segs + rest))
    ensures forall i :: 0 <= i < |rest| ==> IsSegment(rest[i])
  {
    assert forall i :: 0 <= i < |rest| ==> (p.segs + rest)[|p.segs| + i] == rest[i];
  }

  /** Joining a clean path with "." is that path. */
  lemma {:induction false} JoinDot(p: Path)
    requires IsClean(p)
    ensures Join(Show(p), ".") == Show(p)
  {
    var a := Show(p);
    ShowNotEmpty(p);
    SplitAppend(a, ".");
    SplitOne(".");
    ReduceAppend(p.rooted, [], Split(a), ["."]);
    ParseShow(p);
    assert Reduce(p.rooted, p.segs, ["."]) == Reduce(p.rooted, p.segs, []);
  }

  function CommonPrefix(a: seq<string>, b: seq<string>): (k: nat)
    ensures k <= |a| && k <= |b| && a[..k] == b[..k]
    ensures k < |a| && k < |b| ==> a[k] != b[k]
  {
    if a == [] || b == [] || a[0] != b[0] then 0
    else
      var k := CommonPrefix(a[1..], b[1..]);
      assert a[..k + 1] == [a[0]] + a[1..][..k] && b[..k + 1] == [b[0]] + b[1..][..k];
      k + 1
  }

  function Ups(n: nat): (ups: seq<string>)
    ensures |ups| == n && forall i :: 0 <= i < n ==> ups[i] == ".."
  {
    seq(n, _ => "..")
  }

  /** filepath.Rel(base, targ); `None` stands for its error. */
  function Rel(base: string, targ: string): Option<string> {
    var b, t := Parse(base), Parse(targ);
    if b == t then Some(".")
    else if b.rooted != t.rooted then None
    else
      var k := CommonPrefix(b.segs, t.segs);
      if k < |b.segs| && b.segs[k] == ".." then None
      else Some(JoinSegs(Ups(|b.segs| - k) + t.segs[k..]))
  }

  // ---------- containment ----------

  /** `p` is `root` or lies below it: the meaning the three tests below are checked against. */
  predicate Within(p: Path, root: Path) {
    && p.rooted == root.rooted
    && root.segs <= p.segs
    && (|root.segs| < |p.segs| ==> p.segs[|root.segs|] != "..")
  }

  /** The guard on a relative path that steps out of its base. */
  predicate EscapesRoot(rel: string) {
    rel == ".." || "../" <= rel
  }

  /** pathWithin of internal/api/library_repairs_v1.go */
  predicate ApiPathWithin(path: string, root: string) {
    var path, root := Clean(path), Clean(root);
    if Clean(path) == Clean(root) then true
    else
      match Rel(root, path)
      case None => false
      case Some(rel) => !(rel == "." || EscapesRoot(rel) || IsAbs(rel))
  }

  /** pathWithin of internal/download/remotepath.go */
  predicate DownloadPathWithin(candidate: string, root: string) {
    candidate == root ||
    match Rel(root, candidate)
    case None => false
    case Some(rel) => !EscapesRoot(rel) && !IsAbs(rel)
  }

  /** pathUnderRoot of internal/api/pathvalidate.go */
  predicate PathUnderRoot(path: string, root: string) {
    path == root || HasPrefix(path, root + "/")
  }

  /** A joined relative path escapes exactly when its first element is "..": a child named "..x" does not. */
  lemma {:induction false} EscapesByFirstElement(segs: seq<string>)
    requires segs != [] && forall i :: 0 <= i < |segs| ==> segs[i] != "" && '/' !in segs[i]
    ensures EscapesRoot(JoinSegs(segs)) <==> segs[0] == ".."
    ensures !IsAbs(JoinSegs(segs))
    ensures JoinSegs(segs) == "." ==> segs == ["."]
  {
    var s := JoinSegs(segs);
    JoinHead(segs);
    assert s == if |segs| == 1 then segs[0] else segs[0] + "/" + JoinSegs(segs[1..]);
    assert segs[0] <= s;
    if "../" <= s {
      assert s[0] == '.' && s[1] == '.' && s[2] == '/';
      assert forall i :: 0 <= i < |segs[0]| ==> segs[0][i] == s[i];
    }
    if |segs| > 1 {
      assert s[|segs[0]|] == '/';
    }
  }

  lemma {:induction false} RelInside(b: Path, t: Path)
    requires IsClean(b) && IsClean(t) && b != t && Within(t, b)
    ensures var rel := JoinSegs(t.segs[|b.segs|..]);
            Rel(Show(b), Show(t)) == Some(rel) && rel != "." && !EscapesRoot(rel) && !IsAbs(rel)
  {
    ParseShow(b);
    ParseShow(t);
    CommonPrefixOfPrefix(b.segs, t.segs);
    var k := |b.segs|;
    assert Ups(0) + t.segs[k..] == t.segs[k..];
    InsideDoesNotEscape(t, k);
  }

  lemma {:induction false} CommonPrefixOfPrefix(a: seq<string>, b: seq<string>)
    requires a <= b
    ensures CommonPrefix(a, b) == |a|
  {
    assert forall i :: 0 <= i < |a| ==> a[i] == b[i];
  }

  lemma {:induction false} InsideDoesNotEscape(t: Path, k: nat)
    requires IsClean(t) && k < |t.segs| && t.segs[k] != ".."
    ensures var rel := JoinSegs(t.segs[k..]); rel != "." && !EscapesRoot(rel) && !IsAbs(rel)
  {
    var rest := t.segs[k..];
    assert forall i :: 0 <= i < |rest| ==> rest[i] == t.segs[k + i];
    EscapesByFirstElement(rest);
  }

  lemma {:induction false} RelOutside(b: Path, t: Path)
    requires IsClean(b) && IsClean(t) && b != t && !Within(t, b)
    ensures var r := Rel(Show(b), Show(t)); r == None || EscapesRoot(r.value)
  {
    ParseShow(b);
    ParseShow(t);
    var k := CommonPrefix(b.segs, t.segs);
    if b.rooted == t.rooted && !(k < |b.segs| && b.segs[k] == "..") {
      EscapesFromCommonPrefix(b, t, k);
    }
  }

  lemma {:induction false} EscapesFromCommonPrefix(b: Path, t: Path, k: nat)
    requires IsClean(b) && IsClean(t) && b != t && !Within(t, b) && b.rooted == t.rooted
    requires k <= |b.segs| && k <= |t.segs| && b.segs[..k] == t.segs[..k]
    ensures EscapesRoot(JoinSegs(Ups(|b.segs| - k) + t.segs[k..]))
  {
    var ups, rest := Ups(|b.segs| - k), t.segs[k..];
    assert forall i :: 0 <= i < |rest| ==> rest[i] == t.segs[k + i];
    if k == |b.segs| {
      assert b.segs <= t.segs;
      assert ups + rest == rest;
    } else {
      assert (ups + rest)[0] == "..";
    }
    EscapesByFirstElement(ups + rest);
  }

  /** Both Rel-based tests decide containment of the cleaned paths, for absolute and relative paths alike. */
  lemma {:induction false} PathWithinMeaning(path: string, root: string)
    ensures ApiPathWithin(path, root) <==> Within(Parse(path), Parse(root))
    ensures path == Clean(path) && root == Clean(root) ==>
              (DownloadPathWithin(path, root) <==> Within(Parse(path), Parse(root)))
  {
    var p, r := Parse(path), Parse(root);
    ParseIsClean(path);
    ParseIsClean(root);
    ParseShow(p);
    ParseShow(r);
    if p != r {
      if Within(p, r) { RelInside(r, p); } else { RelOutside(r, p); }
    }
  }

  lemma {:induction false} JoinPrefix(a: seq<string>, b: seq<string>)
    requires a != [] && b != []
    ensures JoinSegs(a + b) == JoinSegs(a) + "/" + JoinSegs(b)
  {
    if |a| == 1 {
      assert (a + b)[1..] == b;
    } else {
      assert (a + b)[1..] == a[1..] + b;
      JoinPrefix(a[1..], b);
    }
  }

  /** On cleaned absolute paths the string-prefix test is containment, except below the root "/":
      there it accepts only "/" itself. */
  lemma {:induction false} PathUnderRootMeaning(path: string, root: string)
    requires path == Clean(path) && root == Clean(root) && IsAbs(path) && IsAbs(root)
    ensures PathUnderRoot(path, root) <==> Within(Parse(path), Parse(root)) && (root == "/" ==> path == "/")
  {
    var p, r := Parse(path), Parse(root);
    ParseIsClean(path);
    ParseIsClean(root);
    assert p.rooted && r.rooted && path == Show(p) && root == Show(r);
    hide Parse, IsClean;
    RootIsSlash(r);
    RootIsSlash(p);
    if Within(p, r) && root != "/" && p != r {
      BelowHasPrefix(p, r);
    }
    NoDoubleSlash(p);
    if PathUnderRoot(path, root) && path != root {
      assert root + "/" <= path;
      PrefixIsBelow(p, r);
    }
  }

  lemma {:induction false} NoDoubleSlash(p: Path)
    requires IsClean(p) && p.rooted
    ensures |Show(p)| > 1 ==> Show(p)[1] != '/'
  {
    if p.segs != [] {
      JoinHead(p.segs);
      assert IsSegment(p.segs[0]) && p.segs[0][0] in p.segs[0];
      assert Show(p)[1] == p.segs[0][0];
    }
  }

  lemma {:induction false} RootIsSlash(r: Path)
    requires IsClean(r) && r.rooted
    ensures Show(r) == "/" <==> r.segs == []
  {
    if r.segs != [] {
      JoinHead(r.segs);
    }
  }

  lemma {:induction false} BelowHasPrefix(p: Path, r: Path)
    requires p.rooted && r.rooted && Within(p, r) && p != r && r.segs != []
    ensures Show(r) + "/" <= Show(p)
  {
    var rest := p.segs[|r.segs|..];
    assert p.segs == r.segs + rest && rest != [];
    JoinPrefix(r.segs, rest);
  }

  lemma {:induction false} PrefixIsBelow(p: Path, r: Path)
    requires IsClean(p) && IsClean(r) && p.rooted && r.rooted && Show(r) + "/" <= Show(p)
    ensures Within(p, r) && r.segs != []
  {
    var path, root := Show(p), Show(r);
    var tail := path[|root| + 1..];
    RootIsSlash(p);
    RootIsSlash(r);
    NoDoubleSlash(p);
    hide Show, Split, IsClean;
    assert path == root + "/" + tail;
    SplitShown(p);
    SplitShown(r);
    SplitAppend(root, tail);
    PrefixOfParts(p.segs, r.segs, Split(tail));
    CleanHasNoUp(p, |r.segs|);
  }

  lemma {:induction false} CleanHasNoUp(p: Path, k: nat)
    requires IsClean(p) && p.rooted
    ensures k < |p.segs| ==> p.segs[k] != ".."
  {
  }

  lemma {:induction false} PrefixOfParts(p: seq<string>, r: seq<string>, tail: seq<string>)
    requires [""] + p == [""] + r + tail
    ensures r <= p
  {
    assert p == ([""] + p)[1..] == ([""] + r + tail)[1..] == r + tail;
  }

  /** The three containment tests agree on all cleaned absolute paths with a root other than "/",
      and exactly there or at "/" itself. */
  lemma {:induction false} ContainmentTestsAgree(path: string, root: string)
    requires path == Clean(path) && root == Clean(root) && IsAbs(path) && IsAbs(root)
    ensures ApiPathWithin(path, root) == DownloadPathWithin(path, root)
    ensures PathUnderRoot(path, root) == ApiPathWithin(path, root) <==> root != "/" || path == "/"
  {
    PathWithinMeaning(path, root);
    PathUnderRootMeaning(path, root);
    ParseIsClean(path);
    ParseIsClean(root);
    if root == "/" {
      assert root == "/" + JoinSegs(Parse(root).segs);
      if Parse(root).segs != [] { JoinHead(Parse(root).segs); }
    }
  }
}
