/** internal/db/wanted_books.go: the normalised identity of a title or an author, and when two titles count as
    the same book. */
module WantedKeys {
  import opened Text

  predicate IsWordChar(c: char) {
    'a' <= c <= 'z' || '0' <= c <= '9'
  }

  predicate AllWordChars(s: string) {
    forall i :: 0 <= i < |s| ==> IsWordChar(s[i])
  }

  predicate NoWordChars(s: string) {
    forall i :: 0 <= i < |s| ==> !IsWordChar(s[i])
  }

  predicate EndsInWord(s: string) {
    s != "" && IsWordChar(s[|s| - 1])
  }

  /** The words after one more character; `joined` says that the one before it belongs to a word. */
  function Next(words: seq<string>, joined: bool, c: char): seq<string> {
    if !IsWordChar(c) then words
    else if joined && words != [] then words[..|words| - 1] + [words[|words| - 1] + [c]]
    else words + [[c]]
  }

  /** The maximal runs of lower-case letters and digits, in order. */
  function Words(s: string): seq<string> {
    if s == "" then [] else Next(Words(s[..|s| - 1]), EndsInWord(s[..|s| - 1]), s[|s| - 1])
  }

  lemma {:induction false} WordsSnoc(s: string, c: char)
    ensures Words(s + [c]) == Next(Words(s), EndsInWord(s), c)
  {
    assert (s + [c])[..|s|] == s;
  }

  function Join(words: seq<string>): string {
    if |words| == 0 then ""
    else if |words| == 1 then words[0]
    else Join(words[..|words| - 1]) + " " + words[|words| - 1]
  }

  /** The words of the value, in lower case, with one blank between them. */
  function Key(value: string): string {
    Join(Words(ToLower(value)))
  }

  // ---------- the words of a text ----------

  predicate ProperWords(words: seq<string>) {
    forall k :: 0 <= k < |words| ==> words[k] != "" && AllWordChars(words[k])
  }

  lemma {:induction false} WordsAreProper(s: string)
    ensures ProperWords(Words(s))
  {
    if s != "" {
      WordsAreProper(s[..|s| - 1]);
    }
  }

  lemma {:induction false} WordAtEnd(s: string)
    ensures EndsInWord(s) ==> Words(s) != []
  {
  }

  /** Nothing runs across a place where a word ends or begins. */
  lemma {:induction false} WordsConcat(a: string, b: string)
    requires !EndsInWord(a) || b == "" || !IsWordChar(b[0])
    ensures Words(a + b) == Words(a) + Words(b)
  {
    hide Words, Next;
    if b == "" {
      assert a + b == a && Words("") == [] by { NoWordCharsNoWords(""); }
    } else {
      var front, c := b[..|b| - 1], b[|b| - 1];
      assert a + b == a + front + [c] && b == front + [c];
      WordsSnoc(a + front, c);
      WordsSnoc(front, c);
      WordsConcat(a, front);
      WordAtEnd(front);
      NoWordCharsNoWords("");
      NextConcat(Words(a), Words(front), EndsInWord(front), EndsInWord(a + front), c);
    }
  }

  lemma {:induction false} NextConcat(wa: seq<string>, wb: seq<string>, joined: bool, joinedAll: bool, c: char)
    requires joined ==> wb != []
    requires IsWordChar(c) ==> joined == joinedAll
    ensures Next(wa + wb, joinedAll, c) == wa + Next(wb, joined, c)
  {
    if IsWordChar(c) && joined {
      assert (wa + wb)[..|wa + wb| - 1] == wa + wb[..|wb| - 1];
    }
  }

  lemma {:induction false} NoWordCharsNoWords(s: string)
    ensures Words(s) == [] <==> NoWordChars(s)
  {
    if s != "" {
      NoWordCharsNoWords(s[..|s| - 1]);
    }
  }

  lemma {:induction false} OneWord(w: string)
    requires w != "" && AllWordChars(w)
    ensures Words(w) == [w]
  {
    var front := w[..|w| - 1];
    assert w == front + [w[|w| - 1]];
    if front != "" {
      OneWord(front);
    }
  }

  lemma {:induction false} WordsAround(a: string, d: string, b: string)
    requires d != "" && NoWordChars(d)
    ensures Words(a + d + b) == Words(a) + Words(b)
  {
    NoWordCharsNoWords(d);
    hide Words;
    WordsConcat(a, d);
    WordsConcat(a + d, b);
  }

  /** The words can be read back from the joined text. */
  lemma {:induction false} WordsOfJoin(words: seq<string>)
    requires ProperWords(words)
    ensures Words(Join(words)) == words
  {
    if |words| == 1 {
      OneWord(words[0]);
    } else if |words| > 1 {
      hide Words;
      var front, last := words[..|words| - 1], words[|words| - 1];
      WordsOfJoin(front);
      OneWord(last);
      WordsAround(Join(front), " ", last);
    }
  }

  lemma {:induction false} JoinIsLower(words: seq<string>)
    requires ProperWords(words)
    ensures ToLower(Join(words)) == Join(words)
    ensures Join(words) == "" <==> words == []
    ensures words != [] ==> IsWordChar(Join(words)[0]) && IsWordChar(Join(words)[|Join(words)| - 1])
    ensures forall i :: 0 <= i < |Join(words)| ==> IsWordChar(Join(words)[i]) || Join(words)[i] == ' '
  {
    if |words| > 1 {
      JoinIsLower(words[..|words| - 1]);
    }
  }

  lemma {:induction false} JoinConcat(a: seq<string>, b: seq<string>)
    requires a != [] && b != []
    ensures Join(a + b) == Join(a) + " " + Join(b)
  {
    if |b| == 1 {
      assert (a + b)[..|a + b| - 1] == a;
    } else {
      JoinConcat(a, b[..|b| - 1]);
      assert (a + b)[..|a + b| - 1] == a + b[..|b| - 1];
    }
  }

  // ---------- laws of the key ----------

  lemma {:induction false} KeyIsIdempotent(value: string)
    ensures Key(Key(value)) == Key(value)
  {
    WordsAreProper(ToLower(value));
    WordsOfJoin(Words(ToLower(value)));
    JoinIsLower(Words(ToLower(value)));
  }

  /** Two values have one key exactly when they have the same words. */
  lemma {:induction false} KeyDeterminesWords(a: string, b: string)
    ensures Key(a) == Key(b) <==> Words(ToLower(a)) == Words(ToLower(b))
    ensures Key(a) == "" <==> Words(ToLower(a)) == []
  {
    WordsAreProper(ToLower(a));
    WordsAreProper(ToLower(b));
    WordsOfJoin(Words(ToLower(a)));
    WordsOfJoin(Words(ToLower(b)));
    JoinIsLower(Words(ToLower(a)));
  }

  predicate IsSeparator(d: string) {
    d != "" && NoWordChars(ToLower(d))
  }

  lemma {:induction false} LowerConcat(a: string, b: string)
    ensures ToLower(a + b) == ToLower(a) + ToLower(b)
  {
  }

  lemma {:induction false} WordsOfParts(a: string, d: string, b: string)
    requires IsSeparator(d)
    ensures Words(ToLower(a + d + b)) == Words(ToLower(a)) + Words(ToLower(b))
  {
    LowerConcat(a + d, b);
    LowerConcat(a, d);
    WordsAround(ToLower(a), ToLower(d), ToLower(b));
  }

  lemma {:induction false} KeyOfParts(a: string, d: string, b: string)
    requires IsSeparator(d)
    ensures Key(a + d + b) == if Key(a) == "" then Key(b) else if Key(b) == "" then Key(a) else Key(a) + " " + Key(b)
  {
    WordsOfParts(a, d, b);
    KeyDeterminesWords(a, b);
    KeyDeterminesWords(b, a);
    var wa, wb := Words(ToLower(a)), Words(ToLower(b));
    if wa == [] {
      assert wa + wb == wb;
    } else if wb == [] {
      assert wa + wb == wa;
    } else {
      JoinConcat(wa, wb);
    }
  }

  predicate IsLetterOrDigit(c: char) {
    'a' <= c <= 'z' || 'A' <= c <= 'Z' || '0' <= c <= '9'
  }

  /** A key is empty exactly for a value without letters and digits. */
  lemma {:induction false} KeyIsEmptyExactly(value: string)
    ensures Key(value) == "" <==> forall i :: 0 <= i < |value| ==> !IsLetterOrDigit(value[i])
  {
    KeyDeterminesWords(value, value);
    NoWordCharsNoWords(ToLower(value));
    hide Key, Words;
    assert forall i :: 0 <= i < |value| ==> (IsWordChar(ToLower(value)[i]) <==> IsLetterOrDigit(value[i]));
  }

  // ---------- the loop that builds the key ----------

  lemma {:induction false} BlanksHaveNoWords(s: string)
    requires forall i :: 0 <= i < |s| ==> IsSpace(s[i])
    ensures Words(ToLower(s)) == []
  {
    NoWordCharsNoWords(ToLower(s));
  }

  lemma {:induction false} TrimLeftCutsBlanks(s: string)
    ensures forall i :: 0 <= i < |s| - |TrimLeft(s)| ==> IsSpace(s[i])
  {
    if s != "" && IsSpace(s[0]) {
      TrimLeftCutsBlanks(s[1..]);
      forall i | 0 <= i < |s| - |TrimLeft(s)|
        ensures IsSpace(s[i])
      {
        if i > 0 {
          assert s[i] == s[1..][i - 1];
        }
      }
    }
  }

  lemma {:induction false} TrimRightCutsBlanks(s: string)
    ensures forall i :: |TrimRight(s)| <= i < |s| ==> IsSpace(s[i])
  {
    if s != "" && IsSpace(s[|s| - 1]) {
      TrimRightCutsBlanks(s[..|s| - 1]);
    }
  }

  /** Trimming cuts no word. */
  lemma {:induction false} TrimKeepsWords(s: string)
    ensures Words(ToLower(TrimSpace(s))) == Words(ToLower(s))
  {
    var l := TrimLeft(s);
    var t := TrimRight(l);
    TrimLeftCutsBlanks(s);
    TrimRightCutsBlanks(l);
    hide TrimLeft, TrimRight, Words;
    BlanksAround(s[..|s| - |l|], t, l[|t|..]);
    assert s == s[..|s| - |l|] + t + l[|t|..];
  }

  lemma {:induction false} BlanksAround(before: string, t: string, after: string)
    requires forall i :: 0 <= i < |before| ==> IsSpace(before[i])
    requires forall i :: 0 <= i < |after| ==> IsSpace(after[i])
    ensures Words(ToLower(before + t + after)) == Words(ToLower(t))
  {
    BlanksHaveNoWords(before);
    BlanksHaveNoWords(after);
    LowerConcat(before + t, after);
    LowerConcat(before, t);
    assert before != "" ==> !IsWordChar(ToLower(before)[|before| - 1]);
    assert after != "" ==> !IsWordChar(ToLower(after)[0]);
    hide Words, ToLower, IsSpace, IsWordChar;
    WordsConcat(ToLower(before), ToLower(t));
    WordsConcat(ToLower(before) + ToLower(t), ToLower(after));
  }

  /** What the builder holds once the words of a prefix have been written. */
  function Built(done: string): string {
    if Words(done) != [] && !EndsInWord(done) then Join(Words(done)) + " " else Join(Words(done))
  }

  lemma {:induction false} JoinNext(words: seq<string>, joined: bool, c: char)
    requires joined ==> words != []
    ensures Join(Next(words, joined, c)) ==
            if !IsWordChar(c) then Join(words)
            else if words != [] && !joined then Join(words) + " " + [c] else Join(words) + [c]
  {
    if IsWordChar(c) {
      if joined {
        var front := words[..|words| - 1];
        var grown := front + [words[|words| - 1] + [c]];
        assert grown[..|grown| - 1] == front;
      } else {
        assert (words + [[c]])[..|words|] == words;
      }
    }
  }

  /** One turn of the loop writes the character, a blank, or nothing. */
  lemma {:induction false} BuiltGrows(done: string, c: char)
    ensures Built(done + [c]) ==
            if IsWordChar(c) then Built(done) + [c]
            else if EndsInWord(done) then Built(done) + " " else Built(done)
    ensures Words(done + [c]) == [] <==> Words(done) == [] && !IsWordChar(c)
  {
    WordsSnoc(done, c);
    WordAtEnd(done);
    JoinNext(Words(done), EndsInWord(done), c);
    hide Words, Join;
  }

  lemma {:induction false} JoinedIsTrimmed(words: seq<string>)
    requires ProperWords(words)
    ensures TrimSpace(Join(words)) == Join(words) && (Join(words) == "" <==> words == [])
  {
    JoinIsLower(words);
    TrimSpaceFixed(Join(words));
  }

  /** All that is left to trim at the end is the blank after the last word. */
  lemma {:induction false} BuiltTrimmed(done: string)
    ensures Built(done) == "" <==> Words(done) == []
    ensures TrimSpace(Built(done)) == Join(Words(done))
  {
    WordsAreProper(done);
    JoinedIsTrimmed(Words(done));
    hide Join, Words, TrimSpace;
    TrimOneBlank(Join(Words(done)));
  }

  method WriteWords(v: string) returns (b: string)
    ensures b == Built(v)
  {
    BuiltTrimmed("");
    hide TrimSpace, Join, ToLower;
    var space := false;
    b := "";
    for i := 0 to |v|
      invariant b == Built(v[..i])
      invariant space <==> Words(v[..i]) != [] && !EndsInWord(v[..i])
    {
      hide Words, Built;
      BuiltTrimmed(v[..i]);
      BuiltGrows(v[..i], v[i]);
      WordAtEnd(v[..i]);
      assert v[..i + 1] == v[..i] + [v[i]];
      if IsWordChar(v[i]) {
        b := b + [v[i]];
        space := false;
      } else if !space && b != "" {
        b := b + " ";
        space := true;
      }
    }
    assert v[..|v|] == v;
  }

  /** wantedIdentityKey */
  method WantedIdentityKey(value: string) returns (key: string)
    ensures key == Key(value)
  {
    hide Words, Built, Join, TrimSpace, ToLower;
    TrimKeepsWords(value);
    var v := ToLower(TrimSpace(value));
    var b := WriteWords(v);
    BuiltTrimmed(v);
    key := TrimSpace(b);
  }
}
