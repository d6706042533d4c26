/** internal/db/wanted_books.go: when two titles, and two authors, count as the same. */
module WantedTitles {
  import opened Wrappers
  import opened Text
  import opened WantedKeys

  const DASH := " - "
  const COLON := ":"

  predicate OccursAt(s: string, d: string, i: nat) {
    i + |d| <= |s| && s[i..i + |d|] == d
  }

  /** Where the first occurrence at or after `from` begins. */
  function Find(s: string, d: string, from: nat): (r: Option<nat>)
    ensures r.Some? ==> from <= r.value && OccursAt(s, d, r.value)
    ensures r.Some? ==> forall i :: from <= i < r.value ==> !OccursAt(s, d, i)
    ensures r.None? ==> forall i :: from <= i ==> !OccursAt(s, d, i)
    decreases |s| - from
  {
    if from + |d| > |s| then None
    else if s[from..from + |d|] == d then Some(from)
    else if from == |s| then None
    else Find(s, d, from + 1)
  }

  /** strings.SplitN(value, d, 2) found two parts. */
  predicate Splits(value: string, d: string) {
    Find(value, d, 0).Some?
  }

  function Head(value: string, d: string): string
    requires Splits(value, d)
  {
    value[..Find(value, d, 0).value]
  }

  function Tail(value: string, d: string): string
    requires Splits(value, d)
  {
    value[Find(value, d, 0).value + |d|..]
  }

  /** The test inside the loops: the part before the delimiter has a key, and it is the key of either title. */
  predicate HeadMatches(value: string, d: string, leftKey: string, rightKey: string) {
    Splits(value, d) && Key(Head(value, d)) != "" && (Key(Head(value, d)) == leftKey || Key(Head(value, d)) == rightKey)
  }

  predicate AnyHeadMatches(value: string, leftKey: string, rightKey: string) {
    HeadMatches(value, DASH, leftKey, rightKey) || HeadMatches(value, COLON, leftKey, rightKey)
  }

  predicate TitlesEquivalent(left: string, right: string) {
    var leftKey, rightKey := Key(left), Key(right);
    && leftKey != "" && rightKey != ""
    && (leftKey == rightKey || AnyHeadMatches(left, leftKey, rightKey) || AnyHeadMatches(right, leftKey, rightKey))
  }

  /** titlesEquivalent */
  method CompareTitles(left: string, right: string) returns (same: bool)
    ensures same == TitlesEquivalent(left, right)
  {
    hide Key, Find;
    var leftKey := WantedIdentityKey(left);
    var rightKey := WantedIdentityKey(right);
    if leftKey == "" || rightKey == "" {
      return false;
    }
    if leftKey == rightKey {
      return true;
    }
    var values, delimiters := [left, right], [DASH, COLON];
    for v := 0 to 2
      invariant v > 0 ==> !AnyHeadMatches(left, leftKey, rightKey)
      invariant v > 1 ==> !AnyHeadMatches(right, leftKey, rightKey)
    {
      for d := 0 to 2
        invariant d > 0 ==> !HeadMatches(values[v], DASH, leftKey, rightKey)
        invariant d > 1 ==> !HeadMatches(values[v], COLON, leftKey, rightKey)
      {
        var at := Find(values[v], delimiters[d], 0);
        if at.Some? {
          var key := WantedIdentityKey(values[v][..at.value]);
          if key != "" && (key == leftKey || key == rightKey) {
            return true;
          }
        }
      }
    }
    return false;
  }

  // ---------- what equivalence means ----------

  /** The title up to the delimiter has the same words as the other title. */
  predicate HeadIs(value: string, d: string, other: string) {
    Splits(value, d) && Key(Head(value, d)) == Key(other)
  }

  /** Nothing after the delimiter has a letter or a digit. */
  predicate TailIsBlank(value: string, d: string) {
    Splits(value, d) && Key(Tail(value, d)) == ""
  }

  predicate BlankTail(value: string) {
    TailIsBlank(value, DASH) || TailIsBlank(value, COLON)
  }

  predicate SameUpToSubtitle(left: string, right: string) {
    || Key(left) == Key(right)
    || HeadIs(left, DASH, right) || HeadIs(left, COLON, right)
    || HeadIs(right, DASH, left) || HeadIs(right, COLON, left)
  }

  lemma {:induction false} WordsOfSplit(value: string, d: string)
    requires IsSeparator(d) && Splits(value, d)
    ensures Words(ToLower(value)) == Words(ToLower(Head(value, d))) + Words(ToLower(Tail(value, d)))
  {
    var i := Find(value, d, 0).value;
    assert value == value[..i] + value[i..i + |d|] + value[i + |d|..];
    WordsOfParts(Head(value, d), d, Tail(value, d));
  }

  lemma {:induction false} HeadMatchesMeaning(value: string, d: string, leftKey: string, rightKey: string,
                                              other: string)
    requires IsSeparator(d) && Key(value) != "" && Key(other) != ""
    requires (leftKey == Key(value) && rightKey == Key(other)) || (leftKey == Key(other) && rightKey == Key(value))
    ensures HeadMatches(value, d, leftKey, rightKey) <==> HeadIs(value, d, other) || TailIsBlank(value, d)
  {
    if Splits(value, d) {
      WordsOfSplit(value, d);
      var h, t := Head(value, d), Tail(value, d);
      KeyDeterminesWords(h, value);
      KeyDeterminesWords(t, value);
      KeyDeterminesWords(value, h);
      hide Key, Words, Find, Splits, Head, Tail;
      var wh, wt := Words(ToLower(h)), Words(ToLower(t));
      assert |wh + wt| == |wh| + |wt|;
      if wt == [] {
        assert wh + wt == wh;
      }
    }
  }

  lemma {:induction false} DelimitersSeparate()
    ensures IsSeparator(DASH) && IsSeparator(COLON)
  {
  }

  /** Titles are equivalent exactly when both have words and either one of them is the other up to a subtitle,
      or one of them has a delimiter with nothing after it. */
  lemma {:induction false} TitlesEquivalentMeaning(left: string, right: string)
    ensures TitlesEquivalent(left, right) <==>
            && Key(left) != "" && Key(right) != ""
            && (SameUpToSubtitle(left, right) || BlankTail(left) || BlankTail(right))
  {
    if Key(left) != "" && Key(right) != "" {
      DelimitersSeparate();
      hide IsSeparator, HeadMatches, HeadIs, TailIsBlank, Key;
      HeadMatchesMeaning(left, DASH, Key(left), Key(right), right);
      HeadMatchesMeaning(left, COLON, Key(left), Key(right), right);
      HeadMatchesMeaning(right, DASH, Key(left), Key(right), left);
      HeadMatchesMeaning(right, COLON, Key(left), Key(right), left);
    }
  }

  lemma {:induction false} TitlesAreSymmetric(left: string, right: string)
    ensures TitlesEquivalent(left, right) == TitlesEquivalent(right, left)
  {
    TitlesEquivalentMeaning(left, right);
    TitlesEquivalentMeaning(right, left);
    hide TitlesEquivalent, HeadIs, BlankTail, Key;
  }

  predicate StartsLike(left: string, right: string) {
    Words(ToLower(left)) <= Words(ToLower(right))
  }

  lemma {:induction false} HeadIsPrefix(value: string, d: string, other: string)
    requires IsSeparator(d) && HeadIs(value, d, other)
    ensures StartsLike(other, value)
  {
    WordsOfSplit(value, d);
    KeyDeterminesWords(Head(value, d), other);
  }

  /** Apart from the blank tails, equivalent titles begin with the same words: all the words of one of them. */
  lemma {:induction false} EquivalentTitlesStartAlike(left: string, right: string)
    requires TitlesEquivalent(left, right) && !BlankTail(left) && !BlankTail(right)
    ensures StartsLike(left, right) || StartsLike(right, left)
  {
    TitlesEquivalentMeaning(left, right);
    DelimitersSeparate();
    hide HeadIs, TitlesEquivalent, BlankTail, IsSeparator;
    if Key(left) == Key(right) {
      KeyDeterminesWords(left, right);
    } else if HeadIs(left, DASH, right) {
      HeadIsPrefix(left, DASH, right);
    } else if HeadIs(left, COLON, right) {
      HeadIsPrefix(left, COLON, right);
    } else if HeadIs(right, DASH, left) {
      HeadIsPrefix(right, DASH, left);
    } else {
      HeadIsPrefix(right, COLON, left);
    }
  }

  // ---------- titles that match anything ----------

  /** A title with as many words as the given one, and a longer last word. */
  function Stranger(value: string): string {
    Key(value) + "x"
  }

  lemma {:induction false} JoinLastLonger(words: seq<string>, c: char)
    requires words != [] && IsWordChar(c)
    ensures Join(words[..|words| - 1] + [words[|words| - 1] + [c]]) == Join(words) + [c]
  {
    hide Join;
    JoinNext(words, true, c);
  }

  lemma {:induction false} StrangerIsKey(value: string)
    requires Key(value) != ""
    ensures Key(Stranger(value)) == Stranger(value) != ""
    ensures forall i :: 0 <= i < |Stranger(value)| ==> IsWordChar(Stranger(value)[i]) || Stranger(value)[i] == ' '
  {
    var words := Words(ToLower(value));
    WordsAreProper(ToLower(value));
    KeyDeterminesWords(value, value);
    hide Words;
    var n := |words|;
    var grown := words[..n - 1] + [words[n - 1] + "x"];
    assert ProperWords(grown);
    JoinLastLonger(words, 'x');
    JoinIsLower(grown);
    WordsOfJoin(grown);
    hide Join;
  }

  lemma {:induction false} StrangerDiffers(value: string)
    requires Key(value) != ""
    ensures Key(Stranger(value)) == Stranger(value) != ""
    ensures !Splits(Stranger(value), DASH) && !Splits(Stranger(value), COLON)
  {
    StrangerIsKey(value);
    hide Key, Splits, Stranger;
    NoDelimiter(Stranger(value), DASH, 1);
    NoDelimiter(Stranger(value), COLON, 0);
  }

  lemma {:induction false} SplitHas(s: string, d: string, k: nat)
    requires Splits(s, d) && k < |d|
    ensures d[k] in s
  {
    var i := Find(s, d, 0).value;
    assert s[i..i + |d|][k] == s[i + k];
  }

  lemma {:induction false} NoDelimiter(s: string, d: string, k: nat)
    requires k < |d| && d[k] !in s
    ensures !Splits(s, d)
  {
    hide Splits;
    if Splits(s, d) {
      SplitHas(s, d, k);
    }
  }

  lemma {:induction false} HeadKeyIsShorter(value: string, d: string)
    requires IsSeparator(d) && Splits(value, d)
    ensures |Key(Head(value, d))| <= |Key(value)|
  {
    var i := Find(value, d, 0).value;
    assert value == value[..i] + value[i..i + |d|] + value[i + |d|..];
    KeyOfParts(Head(value, d), d, Tail(value, d));
  }

  /** The stranger is matched only through a blank tail. */
  lemma {:induction false} StrangerMatches(value: string)
    requires Key(value) != ""
    ensures TitlesEquivalent(value, Stranger(value)) <==> BlankTail(value)
  {
    StrangerDiffers(value);
    TitlesEquivalentMeaning(value, Stranger(value));
    DelimitersSeparate();
    hide TitlesEquivalent, IsSeparator, Key, Find;
    assert Key(value) != Key(Stranger(value));
    if Splits(value, DASH) {
      HeadKeyIsShorter(value, DASH);
    }
    if Splits(value, COLON) {
      HeadKeyIsShorter(value, COLON);
    }
  }

  /** A title is equivalent to every other title with words exactly when it has a delimiter with no letter or
      digit after it. */
  lemma {:induction false} MatchesAnything(value: string)
    requires Key(value) != ""
    ensures (forall other :: Key(other) != "" ==> TitlesEquivalent(value, other)) <==> BlankTail(value)
  {
    StrangerMatches(value);
    StrangerDiffers(value);
    hide Key, TitlesEquivalent, BlankTail, Splits, Stranger;
    if BlankTail(value) {
      forall other | Key(other) != ""
        ensures TitlesEquivalent(value, other)
      {
        TitlesEquivalentMeaning(value, other);
      }
    }
  }

  lemma {:induction false} PlainWord(s: string)
    requires s != "" && AllWordChars(ToLower(s))
    ensures Key(s) == ToLower(s)
  {
    OneWord(ToLower(s));
  }

  lemma {:induction false} KeysOfExample()
    ensures Key("Dune") == "dune" && Key("Emma") == "emma" && Key(" !") == "" && Key("Dune: !") == "dune"
  {
    assert ToLower("Dune") == "dune" && ToLower("Emma") == "emma";
    PlainWord("Dune");
    PlainWord("Emma");
    DelimitersSeparate();
    NoWordCharsNoWords(ToLower(" !"));
    assert "Dune: !" == "Dune" + ":" + " !";
    hide Words;
    KeyOfParts("Dune", ":", " !");
  }

  lemma {:induction false} OccursFrom(s: string, d: string, i: nat)
    requires d != ""
    ensures OccursAt(s, d, i) ==> i < |s| && s[i] == d[0]
  {
    if OccursAt(s, d, i) {
      assert s[i..i + |d|][0] == s[i];
    }
  }

  lemma {:induction false} SplitOfExample()
    ensures Splits("Dune: !", COLON) && Head("Dune: !", COLON) == "Dune" && Tail("Dune: !", COLON) == " !"
    ensures !Splits("Dune: !", DASH) && !Splits("Emma", DASH) && !Splits("Emma", COLON)
  {
    var d := "Dune: !";
    assert OccursAt(d, COLON, 4);
    forall i: nat | i < 4
      ensures !OccursAt(d, COLON, i)
    {
      OccursFrom(d, COLON, i);
    }
    hide Find;
    assert Find(d, COLON, 0) == Some(4);
    NoDelimiter(d, DASH, 1);
    NoDelimiter("Emma", DASH, 1);
    NoDelimiter("Emma", COLON, 0);
  }

  /** Two unrelated books. */
  lemma {:induction false} UnrelatedTitlesMatch()
    ensures TitlesEquivalent("Dune: !", "Emma") && !SameUpToSubtitle("Dune: !", "Emma")
  {
    KeysOfExample();
    SplitOfExample();
    hide Key, Splits, Find, Head, Tail;
    TitlesEquivalentMeaning("Dune: !", "Emma");
  }

  // ---------- authors ----------

  /** authorsCompatible */
  predicate AuthorsCompatible(existing: string, candidate: string) {
    var e, c := Key(existing), Key(candidate);
    e == "" || e == "unknown" || c == "" || c == "unknown" || e == c
  }

  predicate AuthorKnown(author: string) {
    Words(ToLower(author)) != [] && Words(ToLower(author)) != ["unknown"]
  }

  /** Only two known authors with different words are kept apart. */
  lemma {:induction false} AuthorsCompatibleMeaning(existing: string, candidate: string)
    ensures AuthorsCompatible(existing, candidate) <==>
            !AuthorKnown(existing) || !AuthorKnown(candidate) || Words(ToLower(existing)) == Words(ToLower(candidate))
  {
    UnknownKey(existing);
    UnknownKey(candidate);
    KeyDeterminesWords(existing, candidate);
    KeyDeterminesWords(candidate, existing);
    hide Key, Words;
  }

  lemma {:induction false} UnknownKey(author: string)
    ensures Key(author) == "unknown" <==> Words(ToLower(author)) == ["unknown"]
  {
    WordsAreProper(ToLower(author));
    WordsOfJoin(Words(ToLower(author)));
    assert AllWordChars("unknown");
    OneWord("unknown");
  }
}
