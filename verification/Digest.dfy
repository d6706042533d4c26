/** internal/download/digest.go: the scanner for HTTP authentication parameters and the writer of the
    Digest `Authorization` header (section 3.4 of RFC 7616). */
module Digest {
  import opened Text
  import opened Wrappers

  type Pair = (string, string)

  datatype ParseError = MissingValue | Unterminated | InvalidParameter

  // ---------- the scanner, on the text still to be read ----------

  predicate IsBlank(c: char) {
    c == ' ' || c == '\t'
  }

  function SkipSeparators(s: string): (t: string)
    ensures |t| <= |s|
  {
    if s != "" && (IsBlank(s[0]) || s[0] == ',') then SkipSeparators(s[1..]) else s
  }

  function SkipBlanks(s: string): (t: string)
    ensures |t| <= |s|
  {
    if s != "" && IsBlank(s[0]) then SkipBlanks(s[1..]) else s
  }

  /** How many characters precede the first '=' or ','. */
  function KeyLength(s: string): (n: nat)
    ensures n <= |s|
  {
    if s == "" || s[0] == '=' || s[0] == ',' then 0 else 1 + KeyLength(s[1..])
  }

  /** How many characters precede the first ','. */
  function ValueLength(s: string): (n: nat)
    ensures n <= |s|
  {
    if s == "" || s[0] == ',' then 0 else 1 + ValueLength(s[1..])
  }

  /** After an opening quote: the unescaped value and the text after the closing quote. */
  function ScanQuoted(s: string): (r: Option<Pair>)
    ensures r.Some? ==> |r.value.1| < |s|
    decreases |s|
  {
    if s == "" then None
    else if s[0] == '\\' && |s| > 1 then Prepend([s[1]], ScanQuoted(s[2..]))
    else if s[0] == '"' then Some(("", s[1..]))
    else Prepend([s[0]], ScanQuoted(s[1..]))
  }

  function Prepend(front: string, r: Option<Pair>): Option<Pair> {
    match r
    case None => None
    case Some((value, rest)) => Some((front + value, rest))
  }

  /** The value at the head of `s` and the text after it. */
  function ScanValue(s: string): (r: Option<Pair>)
    requires s != ""
    ensures r.Some? ==> |r.value.1| <= |s|
  {
    if s[0] == '"' then ScanQuoted(s[1..])
    else
      var n := ValueLength(s);
      Some((TrimSpace(s[..n]), s[n..]))
  }

  /** The parameters in the order in which they are read. */
  function ParsePairs(s: string): Result<seq<Pair>, ParseError>
    decreases |s|
  {
    var t := SkipSeparators(s);
    if t == "" then Ok([])
    else
      var k := KeyLength(t);
      if k == |t| || t[k] != '=' then Err(MissingValue)
      else
        var key := ToLower(TrimSpace(t[..k]));
        var u := SkipBlanks(t[k + 1..]);
        if u == "" then Err(MissingValue)
        else
          match ScanValue(u)
          case None => Err(Unterminated)
          case Some((value, rest)) =>
            if key == "" || value == "" then Err(InvalidParameter)
            else PrependPairs([(key, value)], ParsePairs(rest))
  }

  function PrependPairs(front: seq<Pair>, r: Result<seq<Pair>, ParseError>): Result<seq<Pair>, ParseError> {
    match r
    case Ok(pairs) => Ok(front + pairs)
    case Err(e) => Err(e)
  }

  /** The map the scanner fills: a later parameter replaces an earlier one of the same name. */
  function ToMap(pairs: seq<Pair>): map<string, string> {
    if pairs == [] then map[] else ToMap(pairs[..|pairs| - 1])[pairs[|pairs| - 1].0 := pairs[|pairs| - 1].1]
  }

  function AsMap(r: Result<seq<Pair>, ParseError>): Result<map<string, string>, ParseError> {
    match r
    case Ok(pairs) => Ok(ToMap(pairs))
    case Err(e) => Err(e)
  }

  lemma {:induction false} PrependEmpty(r: Option<Pair>)
    ensures Prepend("", r) == r
  {
    if r.Some? {
      assert "" + r.value.0 == r.value.0;
    }
  }

  lemma {:induction false} PrependNothing(r: Result<seq<Pair>, ParseError>)
    ensures PrependPairs([], r) == r
  {
    if r.Ok? {
      assert [] + r.value == r.value;
    }
  }

  lemma {:induction false} PrependToEmpty(pairs: seq<Pair>)
    ensures PrependPairs(pairs, Ok([])) == Ok(pairs)
    ensures ParsePairs("") == Ok([])
  {
    assert pairs + [] == pairs;
  }

  lemma {:induction false} PrependFailure(pairs: seq<Pair>, e: ParseError)
    ensures PrependPairs(pairs, Err(e)) == Err(e)
  {
  }

  lemma {:induction false} PrependTwice(a: string, b: string, r: Option<Pair>)
    ensures Prepend(a, Prepend(b, r)) == Prepend(a + b, r)
  {
    if r.Some? {
      assert a + (b + r.value.0) == a + b + r.value.0;
    }
  }

  lemma {:induction false} PrependPairsTwice(a: seq<Pair>, b: seq<Pair>, r: Result<seq<Pair>, ParseError>)
    ensures PrependPairs(a, PrependPairs(b, r)) == PrependPairs(a + b, r)
  {
    if r.Ok? {
      assert a + (b + r.value) == a + b + r.value;
    }
  }

  /** The end of the text has been reached, or one parameter was read: what is left is shorter. */
  datatype Turn = Done | Failed(error: ParseError) | Read(pair: Pair, next: nat)

  /** parseAuthParams: one index walks the text. */
  method ParseAuthParams(raw: string) returns (r: Result<map<string, string>, ParseError>)
    ensures r == AsMap(ParsePairs(raw))
  {
    hide ParsePairs, PrependPairs;
    var params: map<string, string> := map[];
    ghost var pairs: seq<Pair> := [];
    var i := 0;
    assert raw[0..] == raw;
    PrependNothing(ParsePairs(raw));
    while i < |raw|
      invariant i <= |raw|
      invariant params == ToMap(pairs)
      invariant ParsePairs(raw) == PrependPairs(pairs, ParsePairs(raw[i..]))
      decreases |raw| - i
    {
      var turn := ReadParameter(raw, i);
      match turn
      case Done =>
        PrependToEmpty(pairs);
        return Ok(params);
      case Failed(e) =>
        PrependFailure(pairs, e);
        return Err(e);
      case Read((key, value), next) =>
        params := params[key := value];
        PrependPairsTwice(pairs, [(key, value)], ParsePairs(raw[next..]));
        pairs := pairs + [(key, value)];
        assert pairs[..|pairs| - 1] + [(key, value)] == pairs;
        i := next;
    }
    assert raw[|raw|..] == "";
    PrependToEmpty(pairs);
    r := Ok(params);
  }

  /** One turn of its loop. */
  method ReadParameter(raw: string, from: nat) returns (turn: Turn)
    requires from < |raw|
    ensures match turn
            case Done => ParsePairs(raw[from..]) == Ok([])
            case Failed(e) => ParsePairs(raw[from..]) == Err(e)
            case Read(pair, next) =>
              from < next <= |raw| && ParsePairs(raw[from..]) == PrependPairs([pair], ParsePairs(raw[next..]))
  {
    hide SkipSeparators, SkipBlanks, KeyLength, ScanValue, ToLower, TrimSpace, PrependPairs;
    var i := SkipSeparatorsFrom(raw, from);
    if i >= |raw| {
      return Done;
    }
    var keyStart := i;
    i := KeyEnd(raw, i);
    ghost var t := raw[keyStart..];
    if i >= |raw| || raw[i] != '=' {
      return Failed(MissingValue);
    }
    var key := ToLower(TrimSpace(raw[keyStart..i]));
    assert t[..i - keyStart] == raw[keyStart..i];
    assert t[i - keyStart + 1..] == raw[i + 1..];
    i := SkipBlanksFrom(raw, i + 1);
    if i >= |raw| {
      return Failed(MissingValue);
    }
    var value, next := ValueAt(raw, i);
    if value.None? {
      return Failed(Unterminated);
    }
    if key == "" || value.value == "" {
      return Failed(InvalidParameter);
    }
    turn := Read((key, value.value), next);
  }

  method SkipSeparatorsFrom(raw: string, from: nat) returns (i: nat)
    requires from <= |raw|
    ensures from <= i <= |raw| && raw[i..] == SkipSeparators(raw[from..])
  {
    i := from;
    while i < |raw| && (IsBlank(raw[i]) || raw[i] == ',')
      invariant from <= i <= |raw|
      invariant SkipSeparators(raw[i..]) == SkipSeparators(raw[from..])
    {
      assert raw[i..][1..] == raw[i + 1..];
      i := i + 1;
    }
  }

  method SkipBlanksFrom(raw: string, from: nat) returns (i: nat)
    requires from <= |raw|
    ensures from <= i <= |raw| && raw[i..] == SkipBlanks(raw[from..])
  {
    i := from;
    while i < |raw| && IsBlank(raw[i])
      invariant from <= i <= |raw|
      invariant SkipBlanks(raw[i..]) == SkipBlanks(raw[from..])
    {
      assert raw[i..][1..] == raw[i + 1..];
      i := i + 1;
    }
  }

  method KeyEnd(raw: string, from: nat) returns (i: nat)
    requires from <= |raw|
    ensures from <= i <= |raw| && i == from + KeyLength(raw[from..])
  {
    i := from;
    while i < |raw| && raw[i] != '=' && raw[i] != ','
      invariant from <= i <= |raw|
      invariant i + KeyLength(raw[i..]) == from + KeyLength(raw[from..])
    {
      assert raw[i..][1..] == raw[i + 1..];
      i := i + 1;
    }
  }

  method QuotedAt(raw: string, from: nat) returns (value: Option<string>, next: nat)
    requires from <= |raw|
    ensures from <= next <= |raw|
    ensures ScanQuoted(raw[from..]) == if value.None? then None else Some((value.value, raw[next..]))
  {
    var i := from;
    var b := "";
    PrependEmpty(ScanQuoted(raw[from..]));
    while i < |raw|
      invariant from <= i <= |raw|
      invariant ScanQuoted(raw[from..]) == Prepend(b, ScanQuoted(raw[i..]))
      decreases |raw| - i
    {
      ghost var rest := raw[i..];
      ScanQuotedStep(raw, i);
      hide ScanQuoted, Prepend;
      if raw[i] == '\\' && i + 1 < |raw| {
        PrependTwice(b, [raw[i + 1]], ScanQuoted(raw[i + 2..]));
        b := b + [raw[i + 1]];
        i := i + 2;
        continue;
      }
      if raw[i] == '"' {
        PrependSome(b, raw[i + 1..]);
        return Some(b), i + 1;
      }
      PrependTwice(b, [raw[i]], ScanQuoted(raw[i + 1..]));
      b := b + [raw[i]];
      i := i + 1;
    }
    assert raw[i..] == "";
    return None, i;
  }

  lemma {:induction false} PrependSome(front: string, rest: string)
    ensures Prepend(front, Some(("", rest))) == Some((front, rest))
  {
    assert front + "" == front;
  }

  /** One turn of the quoted scan, by index. */
  lemma {:induction false} ScanQuotedStep(raw: string, i: nat)
    requires i < |raw|
    ensures ScanQuoted(raw[i..]) ==
            if raw[i] == '\\' && i + 1 < |raw| then Prepend([raw[i + 1]], ScanQuoted(raw[i + 2..]))
            else if raw[i] == '"' then Some(("", raw[i + 1..]))
            else Prepend([raw[i]], ScanQuoted(raw[i + 1..]))
  {
    var rest := raw[i..];
    assert rest[1..] == raw[i + 1..];
    if i + 1 < |raw| {
      assert rest[2..] == raw[i + 2..];
    }
    hide Prepend;
  }

  method CommaFrom(raw: string, from: nat) returns (i: nat)
    requires from <= |raw|
    ensures from <= i <= |raw| && i == from + ValueLength(raw[from..])
  {
    i := from;
    while i < |raw| && raw[i] != ','
      invariant from <= i <= |raw|
      invariant i + ValueLength(raw[i..]) == from + ValueLength(raw[from..])
    {
      assert raw[i..][1..] == raw[i + 1..];
      i := i + 1;
    }
  }

  method ValueAt(raw: string, from: nat) returns (value: Option<string>, next: nat)
    requires from < |raw|
    ensures from <= next <= |raw|
    ensures ScanValue(raw[from..]) == if value.None? then None else Some((value.value, raw[next..]))
  {
    hide ScanQuoted, ValueLength, TrimSpace;
    ghost var text := raw[from..];
    assert text[0] == raw[from] && text[1..] == raw[from + 1..];
    if raw[from] == '"' {
      value, next := QuotedAt(raw, from + 1);
      return;
    }
    next := CommaFrom(raw, from);
    assert text[..next - from] == raw[from..next] && text[next - from..] == raw[next..];
    value := Some(TrimSpace(raw[from..next]));
  }

  // ---------- quoting ----------

  /** escapeDigest: the replacer doubles backslashes only two at a time, and escapes quotes. */
  function Escape(s: string): string {
    if s == "" then ""
    else if |s| >= 2 && s[0] == '\\' && s[1] == '\\' then "\\\\\\\\" + Escape(s[2..])
    else if s[0] == '"' then "\\\"" + Escape(s[1..])
    else [s[0]] + Escape(s[1..])
  }

  /** The number of backslashes at the head of `s`. */
  function LeadingRun(s: string): (n: nat)
    ensures n <= |s|
    ensures forall i :: 0 <= i < n ==> s[i] == '\\'
    ensures n < |s| ==> s[n] != '\\'
  {
    if s != "" && s[0] == '\\' then 1 + LeadingRun(s[1..]) else 0
  }

  /** Every maximal run of backslashes has even length. */
  predicate EvenRuns(s: string)
    decreases |s|
  {
    s == "" ||
    var n := LeadingRun(s);
    if n == 0 then EvenRuns(s[1..]) else n % 2 == 0 && EvenRuns(s[n..])
  }

  lemma {:induction false} LeadingRunByPairs(s: string)
    requires |s| >= 2 && s[0] == '\\' && s[1] == '\\'
    ensures LeadingRun(s) == 2 + LeadingRun(s[2..])
  {
    assert s[1..][1..] == s[2..];
  }

  lemma {:induction false} EvenRunsByPairs(s: string)
    requires |s| >= 2 && s[0] == '\\' && s[1] == '\\'
    ensures EvenRuns(s) <==> EvenRuns(s[2..])
  {
    hide LeadingRun, EvenRuns;
    LeadingRunByPairs(s);
    var t := s[2..];
    var n := LeadingRun(t);
    assert s[n + 2..] == t[n..];
    EvenRunsByRun(s);
    EvenRunsByRun(t);
  }

  lemma {:induction false} EvenRunsByRun(s: string)
    ensures EvenRuns(s) <==> LeadingRun(s) % 2 == 0 && EvenRuns(s[LeadingRun(s)..])
  {
    hide LeadingRun;
    if LeadingRun(s) == 0 {
      assert s[0..] == s;
    }
  }

  lemma {:induction false} OddRun(s: string)
    requires s != "" && s[0] == '\\' && (|s| == 1 || s[1] != '\\')
    ensures !EvenRuns(s)
  {
    assert LeadingRun(s) == 1;
  }

  /** Reading back an escaped value and its closing quote gives the value exactly when all its runs of
      backslashes are even; then the scanner stops exactly at the closing quote. */
  lemma {:induction false} ScanEscaped(v: string, tail: string)
    ensures var r := ScanQuoted(Escape(v) + "\"" + tail);
            && (r.Some? && r.value.0 == v <==> EvenRuns(v))
            && (EvenRuns(v) ==> r == Some((v, tail)))
    decreases |v|
  {
    if v == "" {
      assert (Escape(v) + "\"" + tail)[1..] == tail;
    } else if |v| >= 2 && v[0] == '\\' && v[1] == '\\' {
      ScanEscapedPair(v, tail);
      hide ScanQuoted, Escape, EvenRuns;
      ScanEscaped(v[2..], tail);
      EvenRunsByPairs(v);
      assert v == "\\\\" + v[2..];
    } else if v[0] == '\\' {
      OddRun(v);
      hide ScanQuoted, Escape, EvenRuns;
      ScanOdd(v, tail);
    } else {
      ScanEscapedChar(v, tail);
      EvenRunsByChar(v);
      hide ScanQuoted, Escape, EvenRuns;
      ScanEscaped(v[1..], tail);
      assert v == [v[0]] + v[1..];
    }
  }

  /** Two backslashes are written as four and read as two. */
  lemma {:induction false} ScanEscapedPair(v: string, tail: string)
    requires |v| >= 2 && v[0] == '\\' && v[1] == '\\'
    ensures ScanQuoted(Escape(v) + "\"" + tail) == Prepend("\\\\", ScanQuoted(Escape(v[2..]) + "\"" + tail))
  {
    var rest := Escape(v[2..]) + "\"" + tail;
    var text := Escape(v) + "\"" + tail;
    assert text == "\\\\\\\\" + rest;
    assert text[2..] == "\\\\" + rest && text[2..][2..] == rest;
    PrependTwice("\\", "\\", ScanQuoted(rest));
    assert "\\" + "\\" == "\\\\";
  }

  /** Any other character is read as it was before it was escaped. */
  lemma {:induction false} ScanEscapedChar(v: string, tail: string)
    requires v != "" && v[0] != '\\'
    ensures ScanQuoted(Escape(v) + "\"" + tail) == Prepend([v[0]], ScanQuoted(Escape(v[1..]) + "\"" + tail))
  {
    var rest := Escape(v[1..]) + "\"" + tail;
    var text := Escape(v) + "\"" + tail;
    if v[0] == '"' {
      assert text == "\\\"" + rest && text[2..] == rest;
    } else {
      assert text == [v[0]] + rest && text[1..] == rest;
    }
  }

  lemma {:induction false} EvenRunsByChar(v: string)
    requires v != "" && v[0] != '\\'
    ensures EvenRuns(v) <==> EvenRuns(v[1..])
  {
  }

  /** A lone backslash is swallowed, or swallows the closing quote. */
  lemma {:induction false} ScanOdd(v: string, tail: string)
    requires v != "" && v[0] == '\\' && (|v| == 1 || v[1] != '\\')
    ensures var r := ScanQuoted(Escape(v) + "\"" + tail); r.Some? ==> r.value.0 != v
  {
    var text := Escape(v) + "\"" + tail;
    OddStart(v, tail);
    hide Escape, ScanQuoted;
    ScanPair(text);
  }

  /** How the text of such a value begins. */
  lemma {:induction false} OddStart(v: string, tail: string)
    requires v != "" && v[0] == '\\' && (|v| == 1 || v[1] != '\\')
    ensures var text := Escape(v) + "\"" + tail;
            && |text| >= 2 && text[0] == '\\'
            && (if |v| == 1 then text[1] == '"'
                else if v[1] == '"' then text[1] == '\\' && |text| >= 3 && text[2] == '"'
                else text[1] == v[1])
  {
    assert Escape(v) == "\\" + Escape(v[1..]);
    if |v| > 1 && v[1] == '"' {
      assert Escape(v[1..]) == "\\\"" + Escape(v[1..][1..]);
    } else if |v| > 1 {
      assert Escape(v[1..])[0] == v[1];
    }
  }

  lemma {:induction false} ScanPair(text: string)
    requires |text| >= 2 && text[0] == '\\'
    ensures var r := ScanQuoted(text); r.Some? ==> r.value.0 != "" && r.value.0[0] == text[1]
    ensures var r := ScanQuoted(text); r.Some? && text[2..] != "" && text[2] == '"' ==> |r.value.0| == 1
  {
  }

  // ---------- the writer ----------

  /** A header parameter: quoted and escaped, quoted as it stands, or unquoted. */
  datatype Param =
    | Quoted(key: string, value: string)
    | Verbatim(key: string, value: string)
    | Token(key: string, value: string)

  function PrintParam(p: Param): string {
    match p
    case Quoted(key, value) => key + "=\"" + Escape(value) + "\""
    case Verbatim(key, value) => key + "=\"" + value + "\""
    case Token(key, value) => key + "=" + value
  }

  /** strings.Join(parts, ", ") */
  function PrintParams(params: seq<Param>): string {
    if params == [] then ""
    else if |params| == 1 then PrintParam(params[0])
    else PrintParam(params[0]) + ", " + PrintParams(params[1..])
  }

  function PairOf(p: Param): Pair {
    (p.key, p.value)
  }

  function PairsOf(params: seq<Param>): (pairs: seq<Pair>)
    ensures |pairs| == |params|
    ensures forall i :: 0 <= i < |params| ==> pairs[i] == PairOf(params[i])
  {
    seq(|params|, i requires 0 <= i < |params| => PairOf(params[i]))
  }

  /** Letters and digits of lower case: the parameter names and all hexadecimal tokens. */
  predicate IsWord(s: string) {
    s != "" && forall i :: 0 <= i < |s| ==> 'a' <= s[i] <= 'z' || '0' <= s[i] <= '9' || 'A' <= s[i] <= 'Z'
  }

  predicate IsName(s: string) {
    IsWord(s) && ToLower(s) == s
  }

  /** Names are names, and whatever is not escaped needs no escaping. */
  predicate Printable(p: Param) {
    IsName(p.key) && (p.Quoted? || IsWord(p.value))
  }

  /** The values for which writing and reading are inverse. */
  predicate Faithful(p: Param) {
    p.Quoted? ==> p.value != "" && EvenRuns(p.value)
  }

  // ---------- reading back what was written ----------

  lemma {:induction false} KeyLengthOfName(name: string, tail: string)
    requires forall i :: 0 <= i < |name| ==> name[i] != '=' && name[i] != ','
    requires tail != "" && tail[0] == '='
    ensures KeyLength(name + tail) == |name|
  {
    if name == "" {
      assert name + tail == tail;
    } else {
      assert (name + tail)[1..] == name[1..] + tail;
      KeyLengthOfName(name[1..], tail);
    }
  }

  lemma {:induction false} ValueLengthOfWord(word: string, tail: string)
    requires forall i :: 0 <= i < |word| ==> word[i] != ','
    requires tail == "" || tail[0] == ','
    ensures ValueLength(word + tail) == |word|
  {
    if word == "" {
      assert word + tail == tail;
    } else {
      assert (word + tail)[1..] == word[1..] + tail;
      ValueLengthOfWord(word[1..], tail);
    }
  }

  lemma {:induction false} ScanVerbatim(v: string, tail: string)
    requires forall i :: 0 <= i < |v| ==> v[i] != '"' && v[i] != '\\'
    ensures ScanQuoted(v + "\"" + tail) == Some((v, tail))
  {
    var text := v + "\"" + tail;
    if v == "" {
      assert text[1..] == tail;
    } else {
      assert text[1..] == v[1..] + "\"" + tail;
      ScanVerbatim(v[1..], tail);
      assert [v[0]] + v[1..] == v;
    }
  }

  /** Reading one parameter: the name, then whatever follows its equals sign. */
  lemma {:induction false} ReadNamed(key: string, body: string)
    requires IsName(key) && body != "" && !IsBlank(body[0])
    ensures var v := ScanValue(body);
            && (v.None? ==> ParsePairs(key + "=" + body) == Err(Unterminated))
            && (v.Some? && v.value.0 == "" ==> ParsePairs(key + "=" + body) == Err(InvalidParameter))
            && (v.Some? && v.value.0 != "" ==>
                  ParsePairs(key + "=" + body) == PrependPairs([(key, v.value.0)], ParsePairs(v.value.1)))
  {
    var text := key + "=" + body;
    assert text[0] == key[0];
    assert SkipSeparators(text) == text;
    assert text == key + ("=" + body);
    KeyLengthOfName(key, "=" + body);
    assert text[..|key|] == key && text[|key| + 1..] == body;
    TrimSpaceFixed(key);
    hide ScanValue, PrependPairs, KeyLength, TrimSpace, ToLower;
    assert SkipBlanks(body) == body;
  }

  lemma {:induction false} SkipComma(text: string)
    ensures SkipSeparators(", " + text) == SkipSeparators(text)
  {
    var s := ", " + text;
    assert s[1..] == " " + text && s[1..][1..] == text;
  }

  lemma {:induction false} ReadSeparator(text: string)
    ensures ParsePairs(", " + text) == ParsePairs(text)
  {
    SkipComma(text);
    hide SkipSeparators, SkipBlanks, KeyLength, ScanValue, PrependPairs, ToLower, TrimSpace;
  }

  lemma {:induction false} ReadQuoted(key: string, value: string, tail: string)
    requires IsName(key)
    ensures var r := ParsePairs(key + "=\"" + Escape(value) + "\"" + tail);
            && (value != "" && EvenRuns(value) ==> r == PrependPairs([(key, value)], ParsePairs(tail)))
            && (r.Ok? && r.value != [] && r.value[0] == (key, value) ==> value != "" && EvenRuns(value))
  {
    hide ParsePairs, IsName, EvenRuns, ScanQuoted;
    var inner := Escape(value) + "\"" + tail;
    var body := "\"" + inner;
    assert key + "=\"" + Escape(value) + "\"" + tail == key + "=" + body;
    assert body[1..] == inner;
    ReadNamed(key, body);
    ScanEscaped(value, tail);
  }

  lemma {:induction false} ReadVerbatim(key: string, value: string, tail: string)
    requires IsName(key) && IsWord(value)
    ensures ParsePairs(key + "=\"" + value + "\"" + tail) == PrependPairs([(key, value)], ParsePairs(tail))
  {
    hide ParsePairs, IsName;
    var inner := value + "\"" + tail;
    var body := "\"" + inner;
    assert key + "=\"" + value + "\"" + tail == key + "=" + body;
    assert body[1..] == inner;
    ReadNamed(key, body);
    ScanVerbatim(value, tail);
  }

  lemma {:induction false} ReadToken(key: string, value: string, tail: string)
    requires IsName(key) && IsWord(value) && (tail == "" || tail[0] == ',')
    ensures ParsePairs(key + "=" + value + tail) == PrependPairs([(key, value)], ParsePairs(tail))
  {
    hide ParsePairs, IsName, TrimSpace;
    var body := value + tail;
    assert key + "=" + value + tail == key + "=" + body;
    ReadNamed(key, body);
    ValueLengthOfWord(value, tail);
    TrimSpaceFixed(value);
    assert body[..|value|] == value && body[|value|..] == tail;
  }

  /** What reading finds at the head of a written parameter. */
  lemma {:induction false} ReadParam(p: Param, tail: string)
    requires Printable(p) && (tail == "" || tail[0] == ',')
    ensures Faithful(p) ==> ParsePairs(PrintParam(p) + tail) == PrependPairs([PairOf(p)], ParsePairs(tail))
    ensures var r := ParsePairs(PrintParam(p) + tail); r.Ok? && r.value != [] && r.value[0] == PairOf(p) ==> Faithful(p)
  {
    hide ParsePairs, IsName, EvenRuns, Escape, PrependPairs;
    match p
    case Quoted(key, value) => ReadQuoted(key, value, tail);
    case Verbatim(key, value) => ReadVerbatim(key, value, tail);
    case Token(key, value) => ReadToken(key, value, tail);
  }

  /** Reading a written parameter list gives the written names and values, in order, exactly when every
      escaped value is non-empty and has only even runs of backslashes. */
  lemma {:induction false} ReadParams(params: seq<Param>)
    requires forall i :: 0 <= i < |params| ==> Printable(params[i])
    ensures ParsePairs(PrintParams(params)) == Ok(PairsOf(params))
            <==> forall i :: 0 <= i < |params| ==> Faithful(params[i])
  {
    hide ParsePairs, PrintParam, Printable, Faithful;
    if params == [] {
      PrependToEmpty([]);
    } else {
      var rest := params[1..];
      ReadParams(rest);
      var tail := if rest == [] then "" else ", " + PrintParams(rest);
      assert PrintParams(params) == PrintParam(params[0]) + tail;
      ReadParam(params[0], tail);
      if rest != [] {
        ReadSeparator(PrintParams(rest));
      }
      assert PairsOf(params) == [PairOf(params[0])] + PairsOf(rest);
      assert PairsOf(params)[1..] == PairsOf(rest);
      assert forall i :: 0 <= i < |rest| ==> rest[i] == params[i + 1];
      PrependedPairs(PairOf(params[0]), ParsePairs(tail), PairsOf(rest));
      if forall i :: 0 <= i < |params| ==> Faithful(params[i]) {
        assert forall i :: 0 <= i < |rest| ==> Faithful(rest[i]);
      }
      if Faithful(params[0]) && forall i :: 0 <= i < |rest| ==> Faithful(rest[i]) {
        assert forall i :: 0 <= i < |params| ==> params[i] == if i == 0 then params[0] else rest[i - 1];
      }
    }
  }

  lemma {:induction false} PrependedPairs(first: Pair, r: Result<seq<Pair>, ParseError>, rest: seq<Pair>)
    ensures PrependPairs([first], r) == Ok([first] + rest) <==> r == Ok(rest)
  {
    if r.Ok? && [first] + r.value == [first] + rest {
      assert r.value == ([first] + r.value)[1..] == ([first] + rest)[1..] == rest;
    }
  }
}
