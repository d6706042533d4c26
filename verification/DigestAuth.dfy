/** internal/download/digest.go: accepting a server's Digest challenge and answering it. */
module DigestAuth {
  import opened Text
  import opened Wrappers
  import opened Digest

  datatype ChallengeError = NoChallenge | Malformed | UnsupportedAlgorithm | UnsupportedQop

  /** The fields a challenge is read into. `nc` is a 32-bit counter of the requests that used the nonce. */
  datatype Challenge = Challenge(
    realm: string, nonce: string, opaqueData: string, algorithm: string, qop: string, stale: bool, nc: nat,
    cnonce: string)

  const NC_MODULUS := 0x1_0000_0000

  // ---------- reading a challenge ----------

  /** strings.Index */
  function IndexOf(s: string, sub: string): (r: Option<nat>)
    ensures r.Some? ==> r.value + |sub| <= |s| && s[r.value..r.value + |sub|] == sub
  {
    if sub <= s then Some(0)
    else if s == "" then None
    else
      match IndexOf(s[1..], sub)
      case None => None
      case Some(i) => Some(i + 1)
  }

  /** strings.Split(s, ",") */
  function SplitCommas(s: string): seq<string> {
    var n := ValueLength(s);
    if n == |s| then [s] else [s[..n]] + SplitCommas(s[n + 1..])
  }

  function Lookup(params: map<string, string>, key: string): string {
    if key in params then TrimSpace(params[key]) else TrimSpace("")
  }

  function ToUpper(s: string): string {
    seq(|s|, i requires 0 <= i < |s| =>
      if 'a' <= s[i] <= 'z' then (s[i] as int - 'a' as int + 'A' as int) as char else s[i])
  }

  /** The fields of the challenge and the checks on them. */
  function ChallengeOf(params: map<string, string>, cnonce: string): (r: Result<Challenge, ChallengeError>)
    ensures r.Ok? ==>
              var c := r.value;
              && c.realm != "" && c.nonce != "" && c.algorithm == "MD5" && (c.qop == "" || c.qop == "auth")
              && c.nc == 0 && c.cnonce == cnonce
  {
    var algorithm := ToUpper(Lookup(params, "algorithm"));
    var qop := Lookup(params, "qop");
    var c := Challenge(Lookup(params, "realm"), Lookup(params, "nonce"), Lookup(params, "opaque"),
                       if algorithm == "" then "MD5" else algorithm, qop,
                       EqualFold(Lookup(params, "stale"), "true"), 0, cnonce);
    if c.realm == "" || c.nonce == "" then Err(Malformed)
    else if c.algorithm != "MD5" then Err(UnsupportedAlgorithm)
    else if qop == "" then Ok(c)
    else if exists option :: option in SplitCommas(qop) && EqualFold(TrimSpace(option), "auth") then
      Ok(c.(qop := "auth"))
    else Err(UnsupportedQop)
  }

  /** parseDigestChallenge; `cnonce` is the random client nonce. */
  function ParseDigestChallenge(header: string, cnonce: string): (r: Result<Challenge, ChallengeError>)
    ensures r.Ok? ==>
              var c := r.value;
              && c.realm != "" && c.nonce != "" && c.algorithm == "MD5" && (c.qop == "" || c.qop == "auth")
              && c.nc == 0 && c.cnonce == cnonce
  {
    match IndexOf(ToLower(header), "digest")
    case None => Err(NoChallenge)
    case Some(start) =>
      match ParsePairs(TrimSpace(header[start + |"digest"|..]))
      case Err(_) => Err(Malformed)
      case Ok(pairs) => ChallengeOf(ToMap(pairs), cnonce)
  }

  // ---------- writing the answer ----------

  function HexDigit(d: nat): char
    requires d < 16
  {
    if d < 10 then ('0' as int + d) as char else ('a' as int + d - 10) as char
  }

  function Pow16(n: nat): (p: nat)
    ensures p > 0
  {
    if n == 0 then 1 else 16 * Pow16(n - 1)
  }

  /** The last `width` hexadecimal digits of `n`: fmt's "%08x" on a 32-bit number for width 8. */
  function Hex(n: nat, width: nat): (s: string)
    ensures |s| == width
    ensures forall i :: 0 <= i < width ==> '0' <= s[i] <= '9' || 'a' <= s[i] <= 'f'
  {
    if width == 0 then "" else Hex(n / 16, width - 1) + [HexDigit(n % 16)]
  }

  /** Different counters are written differently. */
  lemma {:induction false} HexIsInjective(a: nat, b: nat, width: nat)
    requires a < Pow16(width) && b < Pow16(width) && Hex(a, width) == Hex(b, width)
    ensures a == b
  {
    if width > 0 {
      var x, y := Hex(a, width), Hex(b, width);
      assert x[width - 1] == y[width - 1];
      assert x[..width - 1] == Hex(a / 16, width - 1) && y[..width - 1] == Hex(b / 16, width - 1);
      HexIsInjective(a / 16, b / 16, width - 1);
      assert HexDigit(a % 16) == HexDigit(b % 16);
    }
  }

  function DigitValue(c: char): int {
    if '0' <= c <= '9' then c as int - '0' as int else 10 + c as int - 'a' as int
  }

  /** The number a hexadecimal text stands for. */
  function HexValue(s: string): int {
    if s == "" then 0 else 16 * HexValue(s[..|s| - 1]) + DigitValue(s[|s| - 1])
  }

  /** The digits written for a number stand for that number. */
  lemma {:induction false} HexReadsBack(n: nat, width: nat)
    requires n < Pow16(width)
    ensures HexValue(Hex(n, width)) == n
  {
    if width > 0 {
      HexReadsBack(n / 16, width - 1);
      var s := Hex(n, width);
      assert s[..width - 1] == Hex(n / 16, width - 1);
      assert DigitValue(HexDigit(n % 16)) == n % 16;
    }
  }

  function NcText(nc: nat): string {
    Hex(nc, 8)
  }

  /** Over the life of a nonce the counters sent are pairwise different until the 32-bit counter wraps. */
  lemma {:induction false} CountersDiffer(i: nat, j: nat)
    requires i < j < NC_MODULUS
    ensures NcText((i + 1) % NC_MODULUS) != NcText((j + 1) % NC_MODULUS)
  {
    assert Pow16(8) == NC_MODULUS by {
      assert Pow16(4) == 65536;
      assert Pow16(8) == 16 * Pow16(7) && Pow16(7) == 16 * Pow16(6) && Pow16(6) == 16 * Pow16(5)
          && Pow16(5) == 16 * Pow16(4);
    }
    var a, b := (i + 1) % NC_MODULUS, (j + 1) % NC_MODULUS;
    assert a == i + 1 && (b == j + 1 || b == 0);
    if NcText(a) == NcText(b) {
      HexIsInjective(a, b, 8);
    }
  }

  /** The digest of the credentials, with MD5 as an uninterpreted function to hexadecimal text. */
  function Response(md5: string -> string, c: Challenge, username: string, password: string, verb: string,
                    uri: string): string {
    var ha1 := md5(username + ":" + c.realm + ":" + password);
    var ha2 := md5(verb + ":" + uri);
    if c.qop != "" then md5(ha1 + ":" + c.nonce + ":" + NcText(c.nc) + ":" + c.cnonce + ":" + c.qop + ":" + ha2)
    else md5(ha1 + ":" + c.nonce + ":" + ha2)
  }

  function HeaderParams(c: Challenge, username: string, uri: string, response: string): seq<Param> {
    [Quoted("username", username), Quoted("realm", c.realm), Quoted("nonce", c.nonce), Quoted("uri", uri),
     Token("algorithm", "MD5")]
    + (if c.opaqueData != "" then [Quoted("opaque", c.opaqueData)] else [])
    + (if c.qop != "" then [Token("qop", "auth"), Token("nc", NcText(c.nc)), Verbatim("cnonce", c.cnonce)] else [])
    + [Verbatim("response", response)]
  }

  /** strings.Join(parts, ", ") */
  function JoinCommas(parts: seq<string>): string {
    if parts == [] then "" else if |parts| == 1 then parts[0] else parts[0] + ", " + JoinCommas(parts[1..])
  }

  function Texts(params: seq<Param>): seq<string> {
    seq(|params|, i requires 0 <= i < |params| => PrintParam(params[i]))
  }

  lemma {:induction false} JoinIsPrint(params: seq<Param>)
    ensures JoinCommas(Texts(params)) == PrintParams(params)
  {
    if |params| > 1 {
      assert Texts(params)[1..] == Texts(params[1..]);
      JoinIsPrint(params[1..]);
    }
  }

  lemma {:induction false} JoinPrefixed(prefix: string, parts: seq<string>)
    requires parts != []
    ensures JoinCommas([prefix + parts[0]] + parts[1..]) == prefix + JoinCommas(parts)
  {
    var all := [prefix + parts[0]] + parts[1..];
    assert all[1..] == parts[1..];
  }

  class DigestSession {
    var challenge: Challenge

    constructor (c: Challenge)
      ensures challenge == c
    {
      challenge := c;
    }

    /** digestAuthorization: counts the request and writes the header. */
    method Authorization(md5: string -> string, username: string, password: string, verb: string, uri: string)
        returns (header: string)
      modifies this
      ensures challenge == old(challenge).(nc := (old(challenge).nc + 1) % NC_MODULUS)
      ensures header == "Digest " + PrintParams(HeaderParams(challenge, username, uri,
                                                             Response(md5, challenge, username, password, verb, uri)))
    {
      challenge := challenge.(nc := (challenge.nc + 1) % NC_MODULUS);
      var c := challenge;
      var nc := NcText(c.nc);
      var ha1 := md5(username + ":" + c.realm + ":" + password);
      var ha2 := md5(verb + ":" + uri);
      var response := md5(ha1 + ":" + c.nonce + ":" + ha2);
      if c.qop != "" {
        response := md5(ha1 + ":" + c.nonce + ":" + nc + ":" + c.cnonce + ":" + c.qop + ":" + ha2);
      }
      var params := HeaderParams(c, username, uri, response);
      var parts := [
        "Digest username=\"" + Escape(username) + "\"",
        "realm=\"" + Escape(c.realm) + "\"",
        "nonce=\"" + Escape(c.nonce) + "\"",
        "uri=\"" + Escape(uri) + "\"",
        "algorithm=MD5"];
      if c.opaqueData != "" {
        parts := parts + ["opaque=\"" + Escape(c.opaqueData) + "\""];
      }
      if c.qop != "" {
        parts := parts + ["qop=auth", "nc=" + nc, "cnonce=\"" + c.cnonce + "\""];
      }
      parts := parts + ["response=\"" + response + "\""];
      PartsAreTexts(c, username, uri, response, parts);
      header := JoinCommas(parts);
    }
  }

  lemma {:induction false} PartsAreTexts(c: Challenge, username: string, uri: string, response: string,
                                         parts: seq<string>)
    requires parts == ["Digest username=\"" + Escape(username) + "\"", "realm=\"" + Escape(c.realm) + "\"",
                       "nonce=\"" + Escape(c.nonce) + "\"", "uri=\"" + Escape(uri) + "\"", "algorithm=MD5"]
                      + (if c.opaqueData != "" then ["opaque=\"" + Escape(c.opaqueData) + "\""] else [])
                      + (if c.qop != "" then ["qop=auth", "nc=" + NcText(c.nc), "cnonce=\"" + c.cnonce + "\""] else [])
                      + ["response=\"" + response + "\""]
    ensures JoinCommas(parts) == "Digest " + PrintParams(HeaderParams(c, username, uri, response))
  {
    var params := HeaderParams(c, username, uri, response);
    var texts := Texts(params);
    HeaderTexts(c, username, uri, response);
    hide Escape, NcText, JoinCommas, HeaderParams, Texts;
    assert parts[0] == "Digest " + texts[0];
    assert parts[1..] == texts[1..];
    assert parts == [parts[0]] + parts[1..];
    JoinPrefixed("Digest ", texts);
    JoinIsPrint(params);
  }

  lemma {:induction false} TextsAppend(a: seq<Param>, b: seq<Param>)
    ensures Texts(a + b) == Texts(a) + Texts(b)
  {
  }

  lemma {:induction false} HeaderTexts(c: Challenge, username: string, uri: string, response: string)
    ensures Texts(HeaderParams(c, username, uri, response)) ==
            ["username=\"" + Escape(username) + "\"", "realm=\"" + Escape(c.realm) + "\"",
             "nonce=\"" + Escape(c.nonce) + "\"", "uri=\"" + Escape(uri) + "\"", "algorithm=MD5"]
            + (if c.opaqueData != "" then ["opaque=\"" + Escape(c.opaqueData) + "\""] else [])
            + (if c.qop != "" then ["qop=auth", "nc=" + NcText(c.nc), "cnonce=\"" + c.cnonce + "\""] else [])
            + ["response=\"" + response + "\""]
  {
    hide Escape, NcText;
    var head := [Quoted("username", username), Quoted("realm", c.realm), Quoted("nonce", c.nonce), Quoted("uri", uri),
        Token("algorithm", "MD5")];
    var opaques := if c.opaqueData != "" then [Quoted("opaque", c.opaqueData)] else [];
    var qops := if c.qop == "" then []
                else [Token("qop", "auth"), Token("nc", NcText(c.nc)), Verbatim("cnonce", c.cnonce)];
    var last := [Verbatim("response", response)];
    assert Texts(head) == ["username=\"" + Escape(username) + "\"", "realm=\"" + Escape(c.realm) + "\"",
                           "nonce=\"" + Escape(c.nonce) + "\"", "uri=\"" + Escape(uri) + "\"", "algorithm=MD5"] by {
      HeadTexts(c, username, uri);
    }
    assert Texts(opaques) == if c.opaqueData != "" then ["opaque=\"" + Escape(c.opaqueData) + "\""] else [] by {
      OpaqueTexts(c);
    }
    assert Texts(qops) == if c.qop == "" then []
                          else ["qop=auth", "nc=" + NcText(c.nc), "cnonce=\"" + c.cnonce + "\""] by {
      QopTexts(c);
    }
    assert Texts(last) == ["response=\"" + response + "\""] by {
      assert "response" + "=\"" == "response=\"";
    }
    hide Texts;
    TextsAppend(head, opaques);
    TextsAppend(head + opaques, qops);
    TextsAppend(head + opaques + qops, last);
  }

  lemma {:induction false} HeadTexts(c: Challenge, username: string, uri: string)
    ensures Texts([Quoted("username", username), Quoted("realm", c.realm), Quoted("nonce", c.nonce),
              Quoted("uri", uri), Token("algorithm", "MD5")])
            == ["username=\"" + Escape(username) + "\"", "realm=\"" + Escape(c.realm) + "\"",
                "nonce=\"" + Escape(c.nonce) + "\"", "uri=\"" + Escape(uri) + "\"", "algorithm=MD5"]
  {
    hide Escape;
    assert "username" + "=\"" == "username=\"" && "realm" + "=\"" == "realm=\"" && "nonce" + "=\"" == "nonce=\"";
    assert "uri" + "=\"" == "uri=\"" && "algorithm" + "=" + "MD5" == "algorithm=MD5";
  }

  lemma {:induction false} OpaqueTexts(c: Challenge)
    ensures Texts(if c.opaqueData != "" then [Quoted("opaque", c.opaqueData)] else [])
            == if c.opaqueData != "" then ["opaque=\"" + Escape(c.opaqueData) + "\""] else []
  {
    hide Escape;
    assert "opaque" + "=\"" == "opaque=\"";
  }

  lemma {:induction false} QopTexts(c: Challenge)
    ensures Texts(if c.qop != "" then [Token("qop", "auth"), Token("nc", NcText(c.nc)),
              Verbatim("cnonce", c.cnonce)] else [])
            == if c.qop != "" then ["qop=auth", "nc=" + NcText(c.nc), "cnonce=\"" + c.cnonce + "\""] else []
  {
    hide NcText;
    assert "qop" + "=" + "auth" == "qop=auth" && "nc" + "=" == "nc=" && "cnonce" + "=\"" == "cnonce=\"";
  }

  // ---------- the answer reads back ----------

  ghost predicate DistinctKeys(pairs: seq<Pair>) {
    forall i, j :: 0 <= i < j < |pairs| ==> pairs[i].0 != pairs[j].0
  }

  lemma {:induction false} ToMapOfDistinct(pairs: seq<Pair>)
    requires DistinctKeys(pairs)
    ensures forall i :: 0 <= i < |pairs| ==> pairs[i].0 in ToMap(pairs) && ToMap(pairs)[pairs[i].0] == pairs[i].1
    ensures forall k :: k in ToMap(pairs) ==> exists i :: 0 <= i < |pairs| && pairs[i].0 == k
  {
    if pairs != [] {
      var front := pairs[..|pairs| - 1];
      ToMapOfDistinct(front);
      assert forall i :: 0 <= i < |front| ==> front[i] == pairs[i];
    }
  }

  /** The conditions a caller can check on the values before sending them. */
  predicate Sendable(c: Challenge, username: string, uri: string) {
    && username != "" && EvenRuns(username) && c.realm != "" && EvenRuns(c.realm)
    && c.nonce != "" && EvenRuns(c.nonce) && uri != "" && EvenRuns(uri) && EvenRuns(c.opaqueData)
  }

  predicate HexValues(c: Challenge, response: string) {
    IsWord(response) && (c.qop != "" ==> IsWord(c.cnonce))
  }

  /** The parameters of the written header read back as written, in order, exactly when the escaped values
      are sendable. */
  lemma {:induction false} HeaderReadsBack(c: Challenge, username: string, uri: string, response: string)
    requires HexValues(c, response)
    ensures var params := HeaderParams(c, username, uri, response);
            ParsePairs(PrintParams(params)) == Ok(PairsOf(params)) <==> Sendable(c, username, uri)
  {
    var params := HeaderParams(c, username, uri, response);
    HeaderIsPrintable(c, username, uri, response);
    ReadParams(params);
    HeaderIsFaithful(c, username, uri, response);
  }

  lemma {:induction false} LowerLettersAreName(s: string)
    requires s != "" && forall i :: 0 <= i < |s| ==> 'a' <= s[i] <= 'z'
    ensures IsName(s)
  {
    assert ToLower(s) == s;
  }

  lemma {:induction false} NamesAreNames()
    ensures IsName("username") && IsName("realm") && IsName("nonce") && IsName("uri") && IsName("algorithm")
    ensures IsName("opaque") && IsName("qop") && IsName("nc") && IsName("cnonce") && IsName("response")
  {
    hide IsName;
    LowerLettersAreName("username");
    LowerLettersAreName("realm");
    LowerLettersAreName("nonce");
    LowerLettersAreName("uri");
    LowerLettersAreName("algorithm");
    LowerLettersAreName("opaque");
    LowerLettersAreName("qop");
    LowerLettersAreName("nc");
    LowerLettersAreName("cnonce");
    LowerLettersAreName("response");
  }

  lemma {:induction false} HeaderIsPrintable(c: Challenge, username: string, uri: string, response: string)
    requires HexValues(c, response)
    ensures var params := HeaderParams(c, username, uri, response);
            forall i :: 0 <= i < |params| ==> Printable(params[i])
  {
    NamesAreNames();
    hide IsName;
    assert IsWord(NcText(c.nc)) && IsWord("MD5") && IsWord("auth");
  }

  lemma {:induction false} HeaderIsFaithful(c: Challenge, username: string, uri: string, response: string)
    ensures var params := HeaderParams(c, username, uri, response);
            (forall i :: 0 <= i < |params| ==> Faithful(params[i])) <==> Sendable(c, username, uri)
  {
    var params := HeaderParams(c, username, uri, response);
    hide EvenRuns, NcText;
    assert EvenRuns("") by { EvenRunsOfNothing(); }
    if forall i :: 0 <= i < |params| ==> Faithful(params[i]) {
      assert Faithful(params[0]) && Faithful(params[1]) && Faithful(params[2]) && Faithful(params[3]);
      assert c.opaqueData != "" ==> params[5] == Quoted("opaque", c.opaqueData);
    }
  }

  lemma {:induction false} EvenRunsOfNothing()
    ensures EvenRuns("")
  {
  }

  lemma {:induction false} PrintEnds(params: seq<Param>)
    requires params != [] && forall i :: 0 <= i < |params| ==> params[i].key != ""
    ensures var text := PrintParams(params);
            && text != "" && text[0] == params[0].key[0]
            && text[|text| - 1] == PrintParam(params[|params| - 1])[|PrintParam(params[|params| - 1])| - 1]
  {
    if |params| > 1 {
      PrintEnds(params[1..]);
      assert params[1..][|params| - 2] == params[|params| - 1];
    }
  }

  lemma {:induction false} HeaderEnds(c: Challenge, username: string, uri: string, response: string)
    ensures var text := PrintParams(HeaderParams(c, username, uri, response));
            text != "" && text[0] == 'u' && text[|text| - 1] == '"'
  {
    var params := HeaderParams(c, username, uri, response);
    NamesAreNames();
    hide NcText, Escape, IsName, PrintParams;
    assert forall i :: 0 <= i < |params| ==> params[i].key != "";
    PrintEnds(params);
    var last := params[|params| - 1];
    assert params[0].key[0] == 'u' && last == Verbatim("response", response);
    assert PrintParam(last)[|PrintParam(last)| - 1] == '"';
  }

  /** What parseDigestChallenge hands to the parameter scanner, applied to the written header. */
  lemma {:induction false} SchemeIsStripped(c: Challenge, username: string, uri: string, response: string)
    ensures var text := PrintParams(HeaderParams(c, username, uri, response));
            TrimSpace(("Digest " + text)[|"Digest"|..]) == text
  {
    HeaderEnds(c, username, uri, response);
    TextIsStripped(PrintParams(HeaderParams(c, username, uri, response)));
  }

  lemma {:induction false} TextIsStripped(text: string)
    requires text != "" && !IsSpace(text[0]) && !IsSpace(text[|text| - 1])
    ensures TrimSpace(("Digest " + text)[|"Digest"|..]) == text
  {
    assert ("Digest " + text)[|"Digest"|..] == " " + text;
    assert (" " + text)[1..] == text;
    TrimSpaceFixed(text);
    assert TrimLeft(text) == text;
    hide TrimRight;
    assert TrimLeft(" " + text) == text;
  }

  /** The position of a parameter in the header. */
  function Rank(key: string): nat {
    if key == "username" then 1
    else if key == "realm" then 2
    else if key == "nonce" then 3
    else if key == "uri" then 4
    else if key == "algorithm" then 5
    else if key == "opaque" then 6
    else if key == "qop" then 7
    else if key == "nc" then 8
    else if key == "cnonce" then 9
    else if key == "response" then 10
    else 0
  }

  lemma {:induction false} Ranks()
    ensures Rank("username") == 1 && Rank("realm") == 2 && Rank("nonce") == 3 && Rank("uri") == 4
              && Rank("algorithm") == 5
    ensures Rank("opaque") == 6 && Rank("qop") == 7 && Rank("nc") == 8 && Rank("cnonce") == 9 && Rank("response") == 10
  {
    assert "username"[0] == 'u' && "response"[0] == 'r' && "realm"[0] == 'r' && "nonce"[0] == 'n';
    assert "uri"[0] == 'u' && "qop"[0] == 'q' && "opaque"[0] == 'o' && "cnonce"[0] == 'c';
  }

  /** The parameters stand in the order of their ranks, and the optional ones only when they apply. */
  lemma {:induction false} HeaderIsRanked(c: Challenge, username: string, uri: string, response: string)
    ensures var params := HeaderParams(c, username, uri, response);
            && (forall i, j :: 0 <= i < j < |params| ==> Rank(params[i].key) < Rank(params[j].key))
            && (c.opaqueData == "" ==> forall i :: 0 <= i < |params| ==> Rank(params[i].key) != 6)
            && (c.qop == "" ==> forall i :: 0 <= i < |params| ==> !(7 <= Rank(params[i].key) <= 9))
  {
    Ranks();
    hide Rank, NcText;
  }

  /** Reading the header that answers a challenge gives back every value that was written, and nothing else. */
  lemma {:induction false} AnswerReadsBack(c: Challenge, username: string, uri: string, response: string)
    requires HexValues(c, response) && Sendable(c, username, uri)
    ensures var header := "Digest " + PrintParams(HeaderParams(c, username, uri, response));
            var r := AsMap(ParsePairs(TrimSpace(header[|"Digest"|..])));
            r.Ok? && Answers(r.value, c, username, uri, response)
  {
    SchemeIsStripped(c, username, uri, response);
    HeaderReadsBack(c, username, uri, response);
    PairsAnswer(c, username, uri, response);
    hide ParsePairs, PrintParams, TrimSpace, ToMap, Sendable, HexValues, HeaderParams, Answers, PairsOf;
  }

  predicate Lists(m: map<string, string>, key: string, value: string) {
    key in m && m[key] == value
  }

  /** The parameters hold the given values; the optional ones stand only when they apply. */
  predicate Answers(m: map<string, string>, c: Challenge, username: string, uri: string, response: string) {
    && Lists(m, "username", username) && Lists(m, "realm", c.realm) && Lists(m, "nonce", c.nonce)
    && Lists(m, "uri", uri) && Lists(m, "algorithm", "MD5") && Lists(m, "response", response)
    && (if c.opaqueData != "" then Lists(m, "opaque", c.opaqueData) else "opaque" !in m)
    && (if c.qop != "" then Lists(m, "qop", "auth") && Lists(m, "nc", NcText(c.nc)) && Lists(m, "cnonce", c.cnonce)
        else "qop" !in m && "nc" !in m && "cnonce" !in m)
  }

  lemma {:induction false} PairsAnswer(c: Challenge, username: string, uri: string, response: string)
    ensures Answers(ToMap(PairsOf(HeaderParams(c, username, uri, response))), c, username, uri, response)
  {
    hide NcText, ToMap, Rank, HeaderParams;
    var params := HeaderParams(c, username, uri, response);
    HeaderIsRanked(c, username, uri, response);
    RankedAreDistinct(params);
    AllListed(PairsOf(params));
    HeaderLists(c, username, uri, response, ToMap(PairsOf(params)));
    HeaderOmits(c, username, uri, response);
  }

  lemma {:induction false} RankedAreDistinct(params: seq<Param>)
    requires forall i, j :: 0 <= i < j < |params| ==> Rank(params[i].key) < Rank(params[j].key)
    ensures DistinctKeys(PairsOf(params))
  {
    hide Rank;
    var pairs := PairsOf(params);
    forall i, j | 0 <= i < j < |pairs|
      ensures pairs[i].0 != pairs[j].0
    {
      assert Rank(params[i].key) < Rank(params[j].key);
    }
  }

  /** The optional parameters that do not apply are not there. */
  lemma {:induction false} HeaderOmits(c: Challenge, username: string, uri: string, response: string)
    ensures var m := ToMap(PairsOf(HeaderParams(c, username, uri, response)));
            && (c.opaqueData == "" ==> "opaque" !in m)
            && (c.qop == "" ==> "qop" !in m && "nc" !in m && "cnonce" !in m)
  {
    hide NcText, ToMap, Rank, HeaderParams;
    var params := HeaderParams(c, username, uri, response);
    var pairs := PairsOf(params);
    HeaderIsRanked(c, username, uri, response);
    RankedAreDistinct(params);
    ToMapOfDistinct(pairs);
    Ranks();
    forall key | key in ToMap(pairs)
      ensures (c.opaqueData == "" ==> key != "opaque") && (c.qop == "" ==>
                key != "qop" && key != "nc" && key != "cnonce")
    {
      var i :| 0 <= i < |pairs| && pairs[i].0 == key;
      assert Rank(params[i].key) == Rank(key);
    }
  }

  lemma {:induction false} HeaderLists(c: Challenge, username: string, uri: string, response: string,
                                       m: map<string, string>)
    requires var params := HeaderParams(c, username, uri, response);
             forall i :: 0 <= i < |params| ==> Lists(m, params[i].key, params[i].value)
    ensures Lists(m, "username", username) && Lists(m, "realm", c.realm) && Lists(m, "nonce", c.nonce)
    ensures Lists(m, "uri", uri) && Lists(m, "algorithm", "MD5") && Lists(m, "response", response)
    ensures c.opaqueData != "" ==> Lists(m, "opaque", c.opaqueData)
    ensures c.qop != "" ==> Lists(m, "qop", "auth") && Lists(m, "nc", NcText(c.nc)) && Lists(m, "cnonce", c.cnonce)
  {
    hide NcText, Lists;
    var params := HeaderParams(c, username, uri, response);
    var n := |params|;
    assert Lists(m, params[0].key, params[0].value) && Lists(m, params[1].key, params[1].value)
        && Lists(m, params[2].key, params[2].value);
    assert Lists(m, params[3].key, params[3].value) && Lists(m, params[4].key, params[4].value);
    assert Lists(m, params[n - 1].key, params[n - 1].value);
    if c.opaqueData != "" {
      assert params[5] == Quoted("opaque", c.opaqueData);
    }
    if c.qop != "" {
      assert params[n - 4] == Token("qop", "auth") && params[n - 3] == Token("nc", NcText(c.nc))
          && params[n - 2] == Verbatim("cnonce", c.cnonce);
    }
  }

  lemma {:induction false} AllListed(pairs: seq<Pair>)
    requires DistinctKeys(pairs)
    ensures forall i :: 0 <= i < |pairs| ==> Lists(ToMap(pairs), pairs[i].0, pairs[i].1)
  {
    ToMapOfDistinct(pairs);
  }

  /** From any challenge the client accepts, the answer to it reads back as written whenever the server's
      values and the credentials have only even runs of backslashes. */
  lemma {:induction false} AcceptedChallengeIsAnswered(header: string, cnonce: string, nc: nat, username: string,
                                                       uri: string, response: string)
    requires ParseDigestChallenge(header, cnonce).Ok? && nc < NC_MODULUS
    requires IsWord(cnonce) && IsWord(response) && username != "" && uri != ""
    requires var c := ParseDigestChallenge(header, cnonce).value;
             EvenRuns(username) && EvenRuns(uri) && EvenRuns(c.realm) && EvenRuns(c.nonce) && EvenRuns(c.opaqueData)
    ensures var c := ParseDigestChallenge(header, cnonce).value.(nc := nc);
            var answer := "Digest " + PrintParams(HeaderParams(c, username, uri, response));
            var r := AsMap(ParsePairs(TrimSpace(answer[|"Digest"|..])));
            r.Ok? && Answers(r.value, c, username, uri, response) && (c.qop != "" ==> Lists(r.value, "qop", c.qop))
  {
    hide ParsePairs, PrintParams, TrimSpace, ToMap, EvenRuns, HeaderParams;
    AnswerReadsBack(ParseDigestChallenge(header, cnonce).value.(nc := nc), username, uri, response);
  }
}
