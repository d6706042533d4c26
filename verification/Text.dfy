/** The few string operations of Go's `strings` package that the modelled code relies on.
    A Go string is a sequence of bytes; here it is a `string` whose characters stand for those
    bytes, and case folding and blank trimming are those of ASCII. */
module Text {

  predicate IsSpace(c: char) {
    c == ' ' || c == '\t' || c == '\n' || c == '\r' || c == 0x0B as char || c == 0x0C as char
  }

  function TrimLeft(s: string): (t: string)
    ensures |t| <= |s| && t == s[|s| - |t|..]
    ensures t != "" ==> !IsSpace(t[0])
  {
    if s != "" && IsSpace(s[0]) then TrimLeft(s[1..]) else s
  }

  function TrimRight(s: string): (t: string)
    ensures |t| <= |s| && t == s[..|t|]
    ensures t != "" ==> !IsSpace(t[|t| - 1])
  {
    if s != "" && IsSpace(s[|s| - 1]) then TrimRight(s[..|s| - 1]) else s
  }

  /** strings.TrimSpace */
  function TrimSpace(s: string): (t: string)
    ensures |t| <= |s|
    ensures t != "" ==> !IsSpace(t[0]) && !IsSpace(t[|t| - 1])
    ensures |t| == |s| ==> t == s
  {
    TrimRight(TrimLeft(s))
  }

  /** Nothing is trimmed exactly when there is no blank at either end. */
  lemma {:induction false} TrimSpaceFixed(s: string)
    ensures TrimSpace(s) == s <==> s == "" || (!IsSpace(s[0]) && !IsSpace(s[|s| - 1]))
  {
  }

  lemma {:induction false} TrimRightOneBlank(key: string)
    ensures TrimRight(key + " ") == TrimRight(key)
  {
    assert (key + " ")[..|key + " "| - 1] == key;
  }

  lemma {:induction false} TrimOneBlank(key: string)
    requires TrimSpace(key) == key
    ensures TrimSpace(key + " ") == key
  {
    TrimSpaceFixed(key);
    if key == "" {
      assert TrimLeft(" ") == "";
    } else {
      assert (key + " ")[0] == key[0];
      assert TrimLeft(key + " ") == key + " " && TrimLeft(key) == key;
      hide TrimLeft, TrimRight;
      TrimRightOneBlank(key);
    }
  }

  /** Trimming cuts a middle part out. */
  lemma {:induction false} TrimIsSlice(s: string) returns (a: nat, b: nat)
    ensures a <= b <= |s| && TrimSpace(s) == s[a..b]
  {
    hide TrimLeft, TrimRight;
    var l := TrimLeft(s);
    var t := TrimRight(l);
    a := |s| - |l|;
    b := a + |t|;
    assert l == s[a..] && t == l[..|t|] == s[a..b];
  }

  function LowerChar(c: char): char {
    if 'A' <= c <= 'Z' then (c as int - 'A' as int + 'a' as int) as char else c
  }

  /** strings.ToLower */
  function ToLower(s: string): (t: string)
    ensures |t| == |s|
    ensures forall i :: 0 <= i < |s| ==> t[i] == LowerChar(s[i])
  {
    seq(|s|, i requires 0 <= i < |s| => LowerChar(s[i]))
  }

  lemma {:induction false} LowerFixed(s: string)
    requires forall i :: 0 <= i < |s| ==> !('A' <= s[i] <= 'Z')
    ensures ToLower(s) == s
  {
  }

  /** Nothing upper-case is left, and a character is only changed to its lower-case form. */
  lemma {:induction false} LowerMeaning(s: string)
    ensures var t := ToLower(s);
            forall i :: 0 <= i < |s| ==>
              !('A' <= t[i] <= 'Z') && (t[i] == s[i] || ('A' <= s[i] <= 'Z' && t[i] as int == s[i] as int + 32))
  {
  }

  /** Nothing blank is left at the ends. */
  lemma {:induction false} TrimMeaning(s: string)
    ensures var t, blanks := TrimSpace(s), [9, 10, 11, 12, 13, 32];
            t != "" ==> t[0] as int !in blanks && t[|t| - 1] as int !in blanks
  {
  }

  lemma {:induction false} ToLowerIdempotent(s: string)
    ensures ToLower(ToLower(s)) == ToLower(s)
  {
  }

  /** strings.EqualFold */
  predicate EqualFold(a: string, b: string) {
    ToLower(a) == ToLower(b)
  }

  /** strings.HasPrefix */
  predicate HasPrefix(s: string, prefix: string) {
    prefix <= s
  }

  /** strings.TrimPrefix */
  function TrimPrefix(s: string, prefix: string): string {
    if prefix <= s then s[|prefix|..] else s
  }

  /** strings.ReplaceAll for one character. */
  function ReplaceChar(s: string, was: char, repl: char): (t: string)
    ensures |t| == |s|
    ensures forall i :: 0 <= i < |s| ==> t[i] == if s[i] == was then repl else s[i]
  {
    seq(|s|, i requires 0 <= i < |s| => if s[i] == was then repl else s[i])
  }
}
