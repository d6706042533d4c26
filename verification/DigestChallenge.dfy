/** internal/download/digest.go: what a challenge is read as, told from the parameters the server wrote (section
    3.3 of RFC 7616), and the response in the terms of section 3.4.1. */
module DigestChallenge {
  import opened Text
  import opened Wrappers
  import opened Digest
  import opened DigestAuth

  // ---------- where the challenge begins ----------

  predicate ScansAt(s: string, sub: string, i: nat) {
    i + |sub| <= |s| && s[i..i + |sub|] == sub
  }

  lemma {:induction false} IndexOfIsFirst(s: string, sub: string)
    requires sub != ""
    ensures var r := IndexOf(s, sub);
            && (r.Some? ==> ScansAt(s, sub, r.value) && forall i: nat :: i < r.value ==> !ScansAt(s, sub, i))
            && (r.None? ==> forall i: nat :: !ScansAt(s, sub, i))
  {
    if s != "" {
      IndexOfIsFirst(s[1..], sub);
      forall i: nat | ScansAt(s, sub, i)
        ensures i == 0 || ScansAt(s[1..], sub, i - 1)
      {
        assert i > 0 ==> s[1..][i - 1..i - 1 + |sub|] == s[i..i + |sub|];
      }
      assert sub <= s <==> ScansAt(s, sub, 0);
    }
  }

  /** "No challenge" is answered exactly for a header without the word, in any case of its letters. */
  lemma {:induction false} NoChallengeExactly(header: string, cnonce: string)
    ensures ParseDigestChallenge(header, cnonce) == Err(NoChallenge)
            <==> forall i: nat :: !ScansAt(ToLower(header), "digest", i)
  {
    hide ParsePairs, TrimSpace, ToMap, ToLower, IndexOf, Lookup, ToUpper, SplitCommas, EqualFold;
    IndexOfIsFirst(ToLower(header), "digest");
  }

  // ---------- parameters with names in any case ----------

  function Lowered(p: Param): Param {
    match p
    case Quoted(key, value) => Quoted(ToLower(key), value)
    case Verbatim(key, value) => Verbatim(ToLower(key), value)
    case Token(key, value) => Token(ToLower(key), value)
  }

  /** A parameter a server may write: its name is a word, its value is quoted and readable, or a word. */
  predicate Readable(p: Param) {
    IsWord(p.key) && (p.Quoted? || IsWord(p.value)) && Faithful(p)
  }

  predicate AllReadable(ps: seq<Param>) {
    forall i :: 0 <= i < |ps| ==> Readable(ps[i])
  }

  /** The value of the last parameter with this lower-case name; "" if there is none. */
  function ValueOf(ps: seq<Param>, name: string): string {
    if ps == [] then ""
    else if ToLower(ps[|ps| - 1].key) == name then ps[|ps| - 1].value
    else ValueOf(ps[..|ps| - 1], name)
  }

  /** In a list with different names this is the value of the parameter of that name, wherever it stands. */
  lemma {:induction false} ValueOfDistinct(ps: seq<Param>, i: nat, name: string)
    requires forall j, k :: 0 <= j < k < |ps| ==> ToLower(ps[j].key) != ToLower(ps[k].key)
    ensures i < |ps| && ToLower(ps[i].key) == name ==> ValueOf(ps, name) == ps[i].value
    ensures (forall j :: 0 <= j < |ps| ==> ToLower(ps[j].key) != name) ==> ValueOf(ps, name) == ""
  {
    if ps != [] {
      ValueOfDistinct(ps[..|ps| - 1], i, name);
    }
  }

  lemma {:induction false} LoweredWord(key: string)
    requires IsWord(key)
    ensures IsName(ToLower(key)) && |ToLower(key)| == |key|
  {
    ToLowerIdempotent(key);
  }

  /** The scanner does not distinguish the cases of a name. */
  lemma {:induction false} ReadAnyCase(key: string, body: string)
    requires IsWord(key) && body != "" && !IsBlank(body[0])
    ensures ParsePairs(key + "=" + body) == ParsePairs(ToLower(key) + "=" + body)
  {
    KeyIsRead(key, body);
    LoweredWord(key);
    KeyIsRead(ToLower(key), body);
    ToLowerIdempotent(key);
  }

  /** What one turn of the scanner does behind the name. */
  function AfterName(name: string, body: string): Result<seq<Pair>, ParseError>
    requires body != ""
  {
    match ScanValue(body)
    case None => Err(Unterminated)
    case Some((value, rest)) =>
      if name == "" || value == "" then Err(InvalidParameter) else PrependPairs([(name, value)], ParsePairs(rest))
  }

  lemma {:induction false} KeyIsRead(key: string, body: string)
    requires IsWord(key) && body != "" && !IsBlank(body[0])
    ensures ParsePairs(key + "=" + body) == AfterName(ToLower(key), body)
  {
    hide ParsePairs, ScanValue, PrependPairs, ToLower;
    var text := key + "=" + body;
    assert text[0] == key[0];
    assert SkipSeparators(text) == text;
    assert text == key + ("=" + body);
    KeyLengthOfName(key, "=" + body);
    assert text[..|key|] == key && text[|key| + 1..] == body;
    TrimSpaceFixed(key);
    ReadAt(text, key, key, body, body);
  }

  /** One parameter, where its parts have been found. */
  lemma {:induction false} ReadAt(text: string, written: string, key: string, rest: string, body: string)
    requires text != "" && SkipSeparators(text) == text
    requires KeyLength(text) == |written| < |text| && text[|written|] == '='
    requires text[..|written|] == written && TrimSpace(written) == key
    requires text[|written| + 1..] == rest && SkipBlanks(rest) == body && body != ""
    ensures ParsePairs(text) == AfterName(ToLower(key), body)
  {
    hide ScanValue, PrependPairs, KeyLength, TrimSpace, ToLower, SkipSeparators, SkipBlanks;
  }

  /** How a printed parameter goes on behind its name. */
  function BodyOf(p: Param): string {
    match p
    case Quoted(_, value) => "\"" + Escape(value) + "\""
    case Verbatim(_, value) => "\"" + value + "\""
    case Token(_, value) => value
  }

  lemma {:induction false} PrintedBody(p: Param, tail: string)
    requires Readable(p)
    ensures PrintParam(p) + tail == p.key + "=" + (BodyOf(p) + tail)
    ensures BodyOf(p) + tail != "" && !IsBlank((BodyOf(p) + tail)[0])
  {
    hide EvenRuns, Escape;
    match p
    case Quoted(key, value) => assert key + "=\"" + Escape(value) + "\"" + tail == key + "=" + (BodyOf(p) + tail);
    case Verbatim(key, value) => assert key + "=\"" + value + "\"" + tail == key + "=" + (BodyOf(p) + tail);
    case Token(key, value) => assert key + "=" + value + tail == key + "=" + (BodyOf(p) + tail);
  }

  lemma {:induction false} ReadOne(p: Param, tail: string)
    requires Readable(p) && (tail == "" || tail[0] == ',')
    ensures ParsePairs(PrintParam(p) + tail) == PrependPairs([PairOf(Lowered(p))], ParsePairs(tail))
  {
    LoweredWord(p.key);
    PrintedBody(p, tail);
    assert Readable(Lowered(p)) && Printable(Lowered(p));
    PrintedBody(Lowered(p), tail);
    hide ParsePairs, PrintParam, IsWord, IsName, Faithful, Escape, ToLower;
    assert BodyOf(Lowered(p)) == BodyOf(p);
    ReadAnyCase(p.key, BodyOf(p) + tail);
    ReadParam(Lowered(p), tail);
  }

  // ---------- blanks between the parts ----------

  predicate OnlyBlanks(s: string) {
    forall i :: 0 <= i < |s| ==> s[i] == ' ' || s[i] == '\t'
  }

  /** Blanks and commas before a parameter make no difference. */
  lemma {:induction false} BlanksBefore(blanks: string, text: string)
    requires forall i :: 0 <= i < |blanks| ==> blanks[i] == ' ' || blanks[i] == '\t' || blanks[i] == ','
    ensures ParsePairs(blanks + text) == ParsePairs(text)
  {
    SeparatorsSkipped(blanks, text);
    ReadAfterSeparators(blanks + text, text);
  }

  lemma {:induction false} ReadAfterSeparators(a: string, b: string)
    requires SkipSeparators(a) == SkipSeparators(b)
    ensures ParsePairs(a) == ParsePairs(b)
  {
    hide SkipSeparators, SkipBlanks, KeyLength, ScanValue, PrependPairs, ToLower, TrimSpace;
  }

  lemma {:induction false} SeparatorsSkipped(blanks: string, text: string)
    requires forall i :: 0 <= i < |blanks| ==> blanks[i] == ' ' || blanks[i] == '\t' || blanks[i] == ','
    ensures SkipSeparators(blanks + text) == SkipSeparators(text)
  {
    if blanks == "" {
      assert blanks + text == text;
    } else {
      SeparatorsSkipped(blanks[1..], text);
      assert (blanks + text)[1..] == blanks[1..] + text;
    }
  }

  /** Nor do blanks around "=". */
  lemma {:induction false} BlanksAroundEquals(key: string, before: string, after: string, body: string)
    requires IsWord(key) && OnlyBlanks(before) && OnlyBlanks(after) && body != "" && !IsBlank(body[0])
    ensures ParsePairs(key + before + "=" + after + body) == ParsePairs(key + "=" + body)
  {
    var name, rest := key + before, after + body;
    var text := name + ("=" + rest);
    assert text == key + before + "=" + after + body;
    assert text[0] == key[0];
    assert SkipSeparators(text) == text;
    KeyLengthOfName(name, "=" + rest);
    assert text[..|name|] == name && text[|name|] == '=' && text[|name| + 1..] == rest;
    TrimmedBlanks(key, before);
    BlanksSkipped(after, body);
    KeyIsRead(key, body);
    hide ParsePairs;
    ReadAt(text, name, key, rest, body);
  }

  lemma {:induction false} BlanksSkipped(blanks: string, body: string)
    requires OnlyBlanks(blanks) && body != "" && !IsBlank(body[0])
    ensures SkipBlanks(blanks + body) == body
  {
    if blanks == "" {
      assert blanks + body == body;
    } else {
      BlanksSkipped(blanks[1..], body);
      assert (blanks + body)[1..] == blanks[1..] + body;
    }
  }

  lemma {:induction false} TrimmedBlanks(word: string, blanks: string)
    requires IsWord(word) && OnlyBlanks(blanks)
    ensures TrimSpace(word + blanks) == word
  {
    assert (word + blanks)[0] == word[0];
    assert TrimLeft(word + blanks) == word + blanks;
    hide TrimLeft;
    RightBlanks(word, blanks);
  }

  lemma {:induction false} RightBlanks(word: string, blanks: string)
    requires IsWord(word) && OnlyBlanks(blanks)
    ensures TrimRight(word + blanks) == word
  {
    if blanks == "" {
      assert word + blanks == word;
    } else {
      RightBlanks(word, blanks[..|blanks| - 1]);
      assert (word + blanks)[..|word + blanks| - 1] == word + blanks[..|blanks| - 1];
    }
  }

  /** Nor do blanks after an unquoted value. */
  lemma {:induction false} BlanksAfterValue(key: string, word: string, blanks: string, tail: string)
    requires IsWord(key) && IsWord(word) && OnlyBlanks(blanks) && (tail == "" || tail[0] == ',')
    ensures ParsePairs(key + "=" + word + blanks + tail) == ParsePairs(key + "=" + word + tail)
  {
    hide ParsePairs, ScanValue, IsWord, ToLower, PrependPairs;
    ScanWord(word, blanks, tail);
    ScanWord(word, "", tail);
    assert word + "" + tail == word + tail;
    var a, b := word + blanks + tail, word + tail;
    StartsWithWord(word, blanks + tail);
    StartsWithWord(word, tail);
    assert a == word + (blanks + tail);
    KeyIsRead(key, a);
    KeyIsRead(key, b);
    assert key + "=" + word + blanks + tail == key + "=" + a;
    assert key + "=" + word + tail == key + "=" + b;
  }

  lemma {:induction false} StartsWithWord(word: string, tail: string)
    requires IsWord(word)
    ensures word + tail != "" && !IsBlank((word + tail)[0])
  {
    assert (word + tail)[0] == word[0];
  }

  lemma {:induction false} ScanWord(word: string, blanks: string, tail: string)
    requires IsWord(word) && OnlyBlanks(blanks) && (tail == "" || tail[0] == ',')
    ensures ScanValue(word + blanks + tail) == Some((word, tail))
  {
    var value := word + blanks;
    assert (value + tail)[0] == word[0];
    ValueLengthOfWord(value, tail);
    assert (value + tail)[..|value|] == value && (value + tail)[|value|..] == tail;
    TrimmedBlanks(word, blanks);
    hide ValueLength, TrimSpace;
  }

  function LoweredPairs(ps: seq<Param>): (pairs: seq<Pair>)
    ensures |pairs| == |ps| && forall i :: 0 <= i < |ps| ==> pairs[i] == PairOf(Lowered(ps[i]))
  {
    seq(|ps|, i requires 0 <= i < |ps| => PairOf(Lowered(ps[i])))
  }

  lemma {:induction false} ReadList(ps: seq<Param>)
    requires AllReadable(ps)
    ensures ParsePairs(PrintParams(ps)) == Ok(LoweredPairs(ps))
  {
    hide ParsePairs, PrintParam, Readable;
    if ps == [] {
      PrependToEmpty([]);
    } else {
      var rest := ps[1..];
      ReadList(rest);
      var tail := if rest == [] then "" else ", " + PrintParams(rest);
      assert PrintParams(ps) == PrintParam(ps[0]) + tail;
      ReadOne(ps[0], tail);
      if rest != [] {
        ReadSeparator(PrintParams(rest));
      }
      assert LoweredPairs(ps) == [PairOf(Lowered(ps[0]))] + LoweredPairs(rest);
      PrependedPairs(PairOf(Lowered(ps[0])), ParsePairs(tail), LoweredPairs(rest));
    }
  }

  lemma {:induction false} MapHasValue(ps: seq<Param>, name: string)
    requires AllReadable(ps)
    ensures var m := ToMap(LoweredPairs(ps)); (if name in m then m[name] else "") == ValueOf(ps, name)
  {
    if ps != [] {
      MapHasValue(ps[..|ps| - 1], name);
      assert LoweredPairs(ps)[..|ps| - 1] == LoweredPairs(ps[..|ps| - 1]);
    }
  }

  /** How a parameter can be wrong: without "=", without a value, or without a name. */
  lemma {:induction false} WrongParameters(name: string, rest: string)
    requires IsWord(name)
    ensures ParsePairs(name) == Err(MissingValue)
    ensures ParsePairs(name + "," + rest) == Err(MissingValue)
    ensures ParsePairs(name + "=") == Err(MissingValue)
    ensures ParsePairs("=" + name) == Err(InvalidParameter)
    ensures ParsePairs(name + "=\"\"" + rest) == Err(InvalidParameter)
    ensures ParsePairs(name + "=\"" + name) == Err(Unterminated)
  {
    hide ParsePairs;
    NameWithoutEquals(name, "");
    assert name + "" == name;
    NameWithoutEquals(name, "," + rest);
    assert name + "," + rest == name + ("," + rest);
    NameWithoutBody(name);
    BodyWithoutName(name);
    EmptyBetweenQuotes(name, rest);
    ClosingQuoteMissing(name, name);
  }

  lemma {:induction false} EmptyBetweenQuotes(name: string, rest: string)
    requires IsWord(name)
    ensures ParsePairs(name + "=\"\"" + rest) == Err(InvalidParameter)
  {
    hide ParsePairs, TrimSpace, ToLower, PrependPairs, SkipBlanks;
    var value := "\"\"" + rest;
    assert value[1..] == "\"" + rest;
    assert ScanQuoted("\"" + rest) == Some(("", rest)) by {
      assert ("\"" + rest)[1..] == rest;
    }
    KeyIsRead(name, value);
    assert name + "=\"\"" + rest == name + "=" + value;
  }

  lemma {:induction false} ClosingQuoteMissing(name: string, value: string)
    requires IsWord(name) && forall i :: 0 <= i < |value| ==> value[i] != '"' && value[i] != '\\'
    ensures ParsePairs(name + "=\"" + value) == Err(Unterminated)
  {
    hide ParsePairs, TrimSpace, ToLower, PrependPairs, SkipBlanks, ScanQuoted;
    var quoted := "\"" + value;
    assert quoted[1..] == value;
    NeverClosed(value);
    KeyIsRead(name, quoted);
    assert name + "=\"" + value == name + "=" + quoted;
  }

  lemma {:induction false} NeverClosed(name: string)
    requires forall i :: 0 <= i < |name| ==> name[i] != '"' && name[i] != '\\'
    ensures ScanQuoted(name) == None
  {
    if name != "" {
      NeverClosed(name[1..]);
    }
  }

  lemma {:induction false} NameWithoutEquals(name: string, tail: string)
    requires IsWord(name) && (tail == "" || tail[0] == ',')
    ensures ParsePairs(name + tail) == Err(MissingValue)
  {
    var text := name + tail;
    assert text[0] == name[0];
    assert SkipSeparators(text) == text;
    NameLength(name, tail);
    hide ScanValue, PrependPairs, TrimSpace, ToLower, SkipSeparators, KeyLength;
    assert |name| < |text| ==> text[|name|] == ',';
  }

  lemma {:induction false} NameLength(name: string, tail: string)
    requires forall i :: 0 <= i < |name| ==> name[i] != '=' && name[i] != ','
    requires tail == "" || tail[0] == ','
    ensures KeyLength(name + tail) == |name|
  {
    if name == "" {
      assert name + tail == tail;
    } else {
      assert (name + tail)[1..] == name[1..] + tail;
      NameLength(name[1..], tail);
    }
  }

  lemma {:induction false} NameWithoutBody(name: string)
    requires IsWord(name)
    ensures ParsePairs(name + "=") == Err(MissingValue)
  {
    var text := name + "=";
    assert text[0] == name[0];
    assert SkipSeparators(text) == text;
    KeyLengthOfName(name, "=");
    hide ScanValue, PrependPairs, TrimSpace, ToLower, SkipSeparators, KeyLength;
    assert text[|name| + 1..] == "";
    assert SkipBlanks("") == "";
  }

  lemma {:induction false} BodyWithoutName(value: string)
    requires IsWord(value)
    ensures ParsePairs("=" + value) == Err(InvalidParameter)
  {
    var text := "=" + value;
    assert SkipSeparators(text) == text && KeyLength(text) == 0;
    assert text[..0] == "" && text[1..] == value;
    assert SkipBlanks(value) == value;
    TrimSpaceFixed("");
    assert ToLower("") == "";
    assert value[0] != '"';
    hide PrependPairs, TrimSpace, SkipSeparators, KeyLength, SkipBlanks;
  }

  // ---------- the algorithm and the quality of protection ----------

  lemma {:induction false} UpperIsMd5(s: string)
    ensures ToUpper(s) == "MD5" <==> EqualFold(s, "MD5")
    ensures ToUpper(s) == "" <==> s == ""
  {
    assert ToLower("MD5") == "md5";
    var u, l := ToUpper(s), ToLower(s);
    if |s| == 3 {
      assert u == [u[0], u[1], u[2]] && l == [l[0], l[1], l[2]];
      assert u[0] == 'M' <==> l[0] == 'm';
      assert u[1] == 'D' <==> l[1] == 'd';
      assert u[2] == '5' <==> l[2] == '5';
      assert (u == "MD5") <==> (u[0] == 'M' && u[1] == 'D' && u[2] == '5');
      assert (l == "md5") <==> (l[0] == 'm' && l[1] == 'd' && l[2] == '5');
    }
  }

  /** The stretch from `i` to `j` is one of the options between commas. */
  predicate IsOption(s: string, i: int, j: int) {
    && 0 <= i <= j <= |s|
    && (forall k :: i <= k < j ==> s[k] != ',')
    && (i == 0 || s[i - 1] == ',') && (j == |s| || s[j] == ',')
  }

  predicate IsAuth(s: string, i: int, j: int) {
    IsOption(s, i, j) && EqualFold(TrimSpace(s[i..j]), "auth")
  }

  ghost predicate OffersAuth(s: string) {
    exists i, j :: IsAuth(s, i, j)
  }

  lemma {:induction false} FirstOption(s: string)
    ensures var n := ValueLength(s); (forall k :: 0 <= k < n ==> s[k] != ',') && (n < |s| ==> s[n] == ',')
  {
    if s != "" && s[0] != ',' {
      FirstOption(s[1..]);
      assert forall k :: 1 <= k < |s| ==> s[k] == s[1..][k - 1];
    }
  }

  /** The options of a text with a comma: the one before it, and those after it. */
  lemma {:induction false} OptionsAfterComma(s: string, i: int, j: int)
    requires ValueLength(s) < |s|
    ensures var n := ValueLength(s) + 1;
            IsOption(s, i, j) <==> (i == 0 && j == n - 1) || (n <= i && IsOption(s[n..], i - n, j - n))
  {
    FirstOption(s);
    var n := ValueLength(s) + 1;
    var rest := s[n..];
    hide ValueLength;
    assert forall k :: 0 <= k < |rest| ==> rest[k] == s[n + k];
    assert forall k :: n <= k < |s| ==> s[k] == rest[k - n];
  }

  lemma {:induction false} WholeIsOption(s: string, i: int, j: int)
    requires ValueLength(s) == |s|
    ensures IsOption(s, i, j) <==> i == 0 && j == |s|
  {
    FirstOption(s);
  }

  lemma {:induction false} SplitUnfolds(s: string)
    ensures var n := ValueLength(s);
            SplitCommas(s) == if n == |s| then [s] else [s[..n]] + SplitCommas(s[n + 1..])
  {
  }

  /** Every option is one of the parts between commas, and every part an option. */
  lemma {:induction false} OptionIsPart(s: string, i: int, j: int)
    requires IsOption(s, i, j)
    ensures s[i..j] in SplitCommas(s)
    decreases |s|
  {
    hide SplitCommas, ValueLength;
    SplitUnfolds(s);
    var n := ValueLength(s);
    if n == |s| {
      WholeIsOption(s, i, j);
      assert s[i..j] == s;
    } else {
      OptionsAfterComma(s, i, j);
      hide IsOption;
      if i > n {
        var rest := s[n + 1..];
        OptionIsPart(rest, i - n - 1, j - n - 1);
        assert rest[i - n - 1..j - n - 1] == s[i..j];
      }
    }
  }

  lemma {:induction false} PartIsOption(s: string, part: string) returns (i: nat, j: nat)
    requires part in SplitCommas(s)
    ensures i <= j <= |s| && IsOption(s, i, j) && s[i..j] == part
    decreases |s|
  {
    hide IsOption, SplitCommas, ValueLength;
    var n := ValueLength(s);
    PartsUnfold(s, part);
    if n == |s| {
      i, j := 0, n;
      WholeIsOption(s, i, j);
      assert s[i..j] == s;
    } else if part == s[..n] {
      i, j := 0, n;
      OptionsAfterComma(s, i, j);
      assert s[i..j] == s[..n];
    } else {
      var a, b := PartIsOption(s[n + 1..], part);
      i, j := a + n + 1, b + n + 1;
      OptionsAfterComma(s, i, j);
      SliceOfRest(s, n + 1, a, b);
    }
  }

  lemma {:induction false} PartsUnfold(s: string, part: string)
    ensures var n := ValueLength(s);
            && n <= |s|
            && (n == |s| ==> (part in SplitCommas(s) <==> part == s))
            && (n < |s| ==> (part in SplitCommas(s) <==> part == s[..n] || part in SplitCommas(s[n + 1..])))
  {
    SplitUnfolds(s);
    var n := ValueLength(s);
    assert n <= |s|;
    hide SplitCommas, ValueLength;
    if n < |s| {
      var later := SplitCommas(s[n + 1..]);
      assert SplitCommas(s) == [s[..n]] + later;
    }
  }

  lemma {:induction false} SliceOfRest(s: string, n: nat, a: nat, b: nat)
    requires n <= |s| && a <= b <= |s| - n
    ensures s[a + n..b + n] == s[n..][a..b]
  {
  }

  lemma {:induction false} SplitOffersAuth(s: string)
    ensures (exists option :: option in SplitCommas(s) && EqualFold(TrimSpace(option), "auth")) <==> OffersAuth(s)
  {
    hide SplitCommas, IsOption, TrimSpace, EqualFold;
    if exists option :: option in SplitCommas(s) && EqualFold(TrimSpace(option), "auth") {
      var option :| option in SplitCommas(s) && EqualFold(TrimSpace(option), "auth");
      var i, j := PartIsOption(s, option);
      assert IsAuth(s, i, j);
    }
    if OffersAuth(s) {
      var i, j :| IsAuth(s, i, j);
      OptionIsPart(s, i, j);
    }
  }

  // ---------- the whole challenge ----------

  /** The trimmed value under a name. */
  function Field(ps: seq<Param>, name: string): string {
    TrimSpace(ValueOf(ps, name))
  }

  lemma {:induction false} ReadableEnds(p: Param)
    requires Readable(p)
    ensures var text := PrintParam(p); text != "" && !IsSpace(text[|text| - 1]) && !IsSpace(p.key[0]) && p.key != ""
  {
    if p.Token? {
      var text := PrintParam(p);
      assert text[|text| - 1] == p.value[|p.value| - 1];
    }
  }

  lemma {:induction false} ListIsTrimmed(ps: seq<Param>)
    requires AllReadable(ps) && ps != []
    ensures var text := PrintParams(ps); text != "" && !IsSpace(text[0]) && !IsSpace(text[|text| - 1])
  {
    forall i | 0 <= i < |ps|
      ensures ps[i].key != ""
    {
      ReadableEnds(ps[i]);
    }
    PrintEnds(ps);
    ReadableEnds(ps[0]);
    ReadableEnds(ps[|ps| - 1]);
    hide PrintParams, PrintParam, Readable;
  }

  lemma {:induction false} SchemeIsFound(scheme: string, text: string)
    requires ToLower(scheme) == "digest"
    ensures var header := scheme + " " + text;
            IndexOf(ToLower(header), "digest") == Some(0) && |header| >= 6 && header[|"digest"|..] == " " + text
  {
    var header := scheme + " " + text;
    assert |scheme| == 6;
    assert ToLower(header)[..6] == ToLower(scheme);
  }

  lemma {:induction false} ListIsStripped(ps: seq<Param>)
    requires AllReadable(ps)
    ensures TrimSpace(" " + PrintParams(ps)) == PrintParams(ps)
  {
    hide TrimSpace, AllReadable, PrintParams;
    if ps == [] {
      EmptyList();
      assert " " + PrintParams(ps) == " ";
      BlankIsEmpty();
    } else {
      ListIsTrimmed(ps);
      var text := PrintParams(ps);
      TextIsStripped(text);
      assert ("Digest " + text)[|"Digest"|..] == " " + text;
    }
  }

  lemma {:induction false} SchemeThenList(scheme: string, ps: seq<Param>, cnonce: string)
    requires ToLower(scheme) == "digest" && AllReadable(ps)
    ensures ParseDigestChallenge(scheme + " " + PrintParams(ps), cnonce) == ChallengeOf(ToMap(LoweredPairs(ps)), cnonce)
  {
    hide ParsePairs, PrintParams, ToLower, TrimSpace, IndexOf, ChallengeOf, ToMap, AllReadable;
    SchemeIsFound(scheme, PrintParams(ps));
    ListIsStripped(ps);
    ReadList(ps);
  }

  lemma {:induction false} EmptyList()
    ensures PrintParams([]) == ""
  {
  }

  lemma {:induction false} BlankIsEmpty()
    ensures TrimSpace(" ") == ""
  {
    assert TrimLeft(" ") == "";
  }

  lemma {:induction false} LookupIsField(ps: seq<Param>, name: string)
    requires AllReadable(ps)
    ensures Lookup(ToMap(LoweredPairs(ps)), name) == Field(ps, name)
  {
    hide TrimSpace, ToMap, ValueOf;
    MapHasValue(ps, name);
  }

  /** The trimmed values a challenge is made of. */
  datatype Values = Values(realm: string, nonce: string, opaqueData: string, algorithm: string, qop: string,
                           stale: string)

  function ValuesOf(ps: seq<Param>): Values {
    Values(Field(ps, "realm"), Field(ps, "nonce"), Field(ps, "opaque"), Field(ps, "algorithm"), Field(ps, "qop"),
           Field(ps, "stale"))
  }

  /** Each field is the value of its name; without realm or nonce the challenge is malformed; the algorithm may
      be left out or be MD5; the quality of protection may be left out or offer "auth" among its options. */
  ghost predicate ReadAs(v: Values, r: Result<Challenge, ChallengeError>, cnonce: string) {
    var named := v.realm != "" && v.nonce != "";
    var md5 := v.algorithm == "" || EqualFold(v.algorithm, "MD5");
    var auth := v.qop == "" || OffersAuth(v.qop);
    && (r == Err(Malformed) <==> !named)
    && (r == Err(UnsupportedAlgorithm) <==> named && !md5)
    && (r == Err(UnsupportedQop) <==> named && md5 && !auth)
    && (r.Ok? <==> named && md5 && auth)
    && (r.Ok? ==> r.value == Challenge(v.realm, v.nonce, v.opaqueData, "MD5", if v.qop == "" then "" else "auth",
                                       EqualFold(v.stale, "true"), 0, cnonce))
  }

  /** What a written challenge is read as, and when it is refused and why, whatever the order and the case of
      its names. */
  lemma {:induction false} ChallengeIsRead(scheme: string, ps: seq<Param>, cnonce: string)
    requires ToLower(scheme) == "digest" && AllReadable(ps)
    ensures ReadAs(ValuesOf(ps), ParseDigestChallenge(scheme + " " + PrintParams(ps), cnonce), cnonce)
  {
    hide ParseDigestChallenge, PrintParams, ToLower, TrimSpace, ToMap, AllReadable, ChallengeOf, ReadAs, Lookup;
    SchemeThenList(scheme, ps, cnonce);
    var m := ToMap(LoweredPairs(ps));
    LookupIsField(ps, "realm");
    LookupIsField(ps, "nonce");
    LookupIsField(ps, "opaque");
    LookupIsField(ps, "algorithm");
    LookupIsField(ps, "qop");
    LookupIsField(ps, "stale");
    hide Field, LoweredPairs;
    FieldsAreRead(m, ValuesOf(ps), cnonce);
  }

  lemma {:induction false} FieldsAreRead(m: map<string, string>, v: Values, cnonce: string)
    requires Lookup(m, "realm") == v.realm && Lookup(m, "nonce") == v.nonce && Lookup(m, "opaque") == v.opaqueData
    requires Lookup(m, "algorithm") == v.algorithm && Lookup(m, "qop") == v.qop && Lookup(m, "stale") == v.stale
    ensures ReadAs(v, ChallengeOf(m, cnonce), cnonce)
  {
    hide ToUpper, TrimSpace, Lookup, SplitCommas, EqualFold, OffersAuth;
    UpperIsMd5(v.algorithm);
    SplitOffersAuth(v.qop);
  }

  /** Text that is no parameter list after the scheme is malformed. */
  lemma {:induction false} UnreadableIsMalformed(header: string, start: nat, cnonce: string)
    requires ScansAt(ToLower(header), "digest", start)
    requires forall i: nat :: i < start ==> !ScansAt(ToLower(header), "digest", i)
    requires ParsePairs(TrimSpace(header[start + |"digest"|..])).Err?
    ensures ParseDigestChallenge(header, cnonce) == Err(Malformed)
  {
    hide ParsePairs, TrimSpace, ToLower, ChallengeOf, ToMap, IndexOf;
    IndexOfIsFirst(ToLower(header), "digest");
  }

  // ---------- the response ----------

  /** KD of section 3.3 of RFC 7616: the keyed digest of `data` with `secret`. */
  function KD(md5: string -> string, secret: string, data: string): string {
    md5(secret + ":" + data)
  }

  /** The response is the one section 3.4.1 of RFC 7616 defines: with a quality of protection it covers the
      request counter, the client nonce and the quality; A1 is user, realm and password, A2 method and URI. */
  lemma {:induction false} ResponseIsKeyedDigest(md5: string -> string, c: Challenge, username: string,
                                                 password: string, verb: string, uri: string)
    ensures var a1, a2 := username + ":" + c.realm + ":" + password, verb + ":" + uri;
            var covered := if c.qop == "" then c.nonce
                           else c.nonce + ":" + NcText(c.nc) + ":" + c.cnonce + ":" + c.qop;
            Response(md5, c, username, password, verb, uri) == KD(md5, md5(a1), covered + ":" + md5(a2))
  {
    hide NcText;
    var ha1, ha2 := md5(username + ":" + c.realm + ":" + password), md5(verb + ":" + uri);
    if c.qop == "" {
      assert ha1 + ":" + c.nonce + ":" + ha2 == ha1 + ":" + (c.nonce + ":" + ha2);
    } else {
      assert ha1 + ":" + c.nonce + ":" + NcText(c.nc) + ":" + c.cnonce + ":" + c.qop + ":" + ha2
          == ha1 + ":" + (c.nonce + ":" + NcText(c.nc) + ":" + c.cnonce + ":" + c.qop + ":" + ha2);
    }
  }
}
