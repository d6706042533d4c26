/** What each special element of a path does when Go's filepath.Clean reads it: empty elements and "." are
    dropped, and ".." takes back the element before it. */
module PathLaws {
  import opened Text
  import opened Wrappers
  import opened Paths

  /** A name that stands for itself in a path. */
  predicate IsName(name: string) {
    IsSegment(name) && name != ".."
  }

  /** Reading a text that begins with a printed clean path: that path's elements are read first. */
  lemma {:induction false} ParseBelow(p: Path, rest: string)
    requires IsClean(p)
    ensures Parse(Show(p) + "/" + rest) == Path(p.rooted, Reduce(p.rooted, p.segs, Split(rest)))
  {
    var a := Show(p);
    ParseShow(p);
    ShowNotEmpty(p);
    hide Show, Split, Reduce, IsClean;
    SplitAppend(a, rest);
    ReduceAppend(p.rooted, [], Split(a), Split(rest));
    assert IsAbs(a + "/" + rest) == p.rooted;
  }

  lemma {:induction false} SplitName(name: string, rest: string)
    requires '/' !in name
    ensures Split(name + "/" + rest) == [name] + Split(rest)
  {
    SplitAppend(name, rest);
    SplitOne(name);
  }

  /** A name followed by ".." is as if neither were there. */
  lemma {:induction false} UpTakesNameBack(p: Path, name: string, rest: string)
    requires IsClean(p) && IsName(name)
    ensures Clean(Show(p) + "/" + name + "/../" + rest) == Clean(Show(p) + "/" + rest)
    ensures Parse(Show(p) + "/" + name + "/../" + rest) == Parse(Show(p) + "/" + rest)
  {
    var tail := name + "/" + (".." + "/" + rest);
    assert Show(p) + "/" + name + "/../" + rest == Show(p) + "/" + tail;
    SplitName("..", rest);
    SplitName(name, ".." + "/" + rest);
    ParseBelow(p, tail);
    ParseBelow(p, rest);
    hide Show, Split, IsClean;
    NameThenUp(p.rooted, p.segs, name, Split(rest));
    assert Split(tail) == [name, ".."] + Split(rest);
  }

  lemma {:induction false} NameThenUp(rooted: bool, acc: seq<string>, name: string, parts: seq<string>)
    requires IsName(name)
    ensures Reduce(rooted, acc, [name, ".."] + parts) == Reduce(rooted, acc, parts)
  {
    var all := [name, ".."] + parts;
    assert all[1..] == [".."] + parts && all[1..][1..] == parts;
    assert (acc + [name])[..|acc|] == acc;
    assert ReduceStep(rooted, ReduceStep(rooted, acc, name), "..") == acc;
  }

  /** So for any row of names, however deep. */
  lemma {:induction false} UpsTakeNamesBack(rooted: bool, acc: seq<string>, names: seq<string>, parts: seq<string>)
    requires forall i :: 0 <= i < |names| ==> IsName(names[i])
    ensures Reduce(rooted, acc, names + Ups(|names|) + parts) == Reduce(rooted, acc, parts)
    decreases |names|
  {
    if names == [] {
      assert names + Ups(0) + parts == parts;
    } else {
      var n := |names| - 1;
      var front, last := names[..n], names[n];
      UpsShift(n);
      assert names + Ups(n + 1) + parts == front + ([last, ".."] + (Ups(n) + parts));
      ReduceAppend(rooted, acc, front, [last, ".."] + (Ups(n) + parts));
      NameThenUp(rooted, Reduce(rooted, acc, front), last, Ups(n) + parts);
      ReduceAppend(rooted, acc, front, Ups(n) + parts);
      assert front + (Ups(n) + parts) == front + Ups(n) + parts;
      UpsTakeNamesBack(rooted, acc, front, parts);
    }
  }

  lemma {:induction false} UpsShift(n: nat)
    ensures Ups(n + 1) == [".."] + Ups(n)
  {
  }

  /** Above the root there is nothing: a rooted path drops leading ".." elements. */
  lemma {:induction false} RootDropsUp(rest: string)
    ensures Clean("/../" + rest) == Clean("/" + rest)
  {
    var root := Path(true, []);
    assert Show(root) == "/";
    assert "/../" + rest == "" + "/" + (".." + "/" + rest) && "/" + rest == "" + "/" + rest;
    SplitName("..", rest);
    SplitAppend("", ".." + "/" + rest);
    SplitAppend("", rest);
    SplitOne("");
    var parts := Split(rest);
    assert [""] + ([".."] + parts) == ["", ".."] + parts;
    EmptyDropped(true, [], [".."] + parts);
    EmptyDropped(true, [], parts);
    assert ([".."] + parts)[1..] == parts;
    assert Reduce(true, [], [".."] + parts) == Reduce(true, [], parts);
    hide Show, Split;
  }

  lemma {:induction false} EmptyDropped(rooted: bool, acc: seq<string>, parts: seq<string>)
    ensures Reduce(rooted, acc, [""] + parts) == Reduce(rooted, acc, parts)
    ensures Reduce(rooted, acc, ["."] + parts) == Reduce(rooted, acc, parts)
  {
    assert ([""] + parts)[1..] == parts && (["."] + parts)[1..] == parts;
  }

  /** A relative path keeps leading ".." elements: they stand before whatever the rest amounts to. */
  lemma {:induction false} RelativeKeepsUp(rest: string)
    ensures Parse("../" + rest) == Path(false, [".."] + Parse("./" + rest).segs)
    ensures !Parse("./" + rest).rooted
  {
    assert "../" + rest == ".." + "/" + rest && "./" + rest == "." + "/" + rest;
    SplitName("..", rest);
    SplitName(".", rest);
    var parts := Split(rest);
    EmptyDropped(false, [], parts);
    assert ([".."] + parts)[1..] == parts && [] + [".."] == [".."];
    assert ReduceStep(false, [], "..") == [".."];
    UpsStayInFront([], parts);
    assert [".."] + [] == [".."];
  }

  lemma {:induction false} UpsStayInFront(acc: seq<string>, parts: seq<string>)
    ensures Reduce(false, [".."] + acc, parts) == [".."] + Reduce(false, acc, parts)
    decreases |parts|
  {
    if parts != [] {
      var below := ReduceStep(false, acc, parts[0]);
      assert ReduceStep(false, [".."] + acc, parts[0]) == [".."] + below by {
        UpStaysInFront(acc, parts[0]);
      }
      UpsStayInFront(below, parts[1..]);
    }
  }

  lemma {:induction false} UpStaysInFront(acc: seq<string>, part: string)
    ensures ReduceStep(false, [".."] + acc, part) == [".."] + ReduceStep(false, acc, part)
  {
    var all := [".."] + acc;
    if acc == [] {
      assert all == [".."];
      assert [".."] + [part] == all + [part];
    } else {
      assert all[|all| - 1] == acc[|acc| - 1];
      assert all[..|all| - 1] == [".."] + acc[..|acc| - 1];
      assert all + [part] == [".."] + (acc + [part]) && all + [".."] == [".."] + (acc + [".."]);
    }
  }

  /** "." and empty elements are as if they were not there. */
  lemma {:induction false} DotAndEmptyAreDropped(p: Path, rest: string)
    requires IsClean(p)
    ensures Clean(Show(p) + "/./" + rest) == Clean(Show(p) + "/" + rest)
    ensures Clean(Show(p) + "//" + rest) == Clean(Show(p) + "/" + rest)
  {
    assert Show(p) + "/./" + rest == Show(p) + "/" + ("." + "/" + rest);
    assert Show(p) + "//" + rest == Show(p) + "/" + ("" + "/" + rest);
    SplitName(".", rest);
    SplitName("", rest);
    ParseBelow(p, "." + "/" + rest);
    ParseBelow(p, "" + "/" + rest);
    ParseBelow(p, rest);
    hide Show, Split, IsClean;
    EmptyDropped(p.rooted, p.segs, Split(rest));
  }

  /** A name that is not taken back stays: it is the next element of the path. */
  lemma {:induction false} NameIsKept(p: Path, name: string)
    requires IsClean(p) && IsName(name)
    ensures Parse(Show(p) + "/" + name) == Path(p.rooted, p.segs + [name])
  {
    ParseBelow(p, name);
    SplitOne(name);
    assert Reduce(p.rooted, p.segs, [name]) == Reduce(p.rooted, p.segs + [name], []);
  }
}
