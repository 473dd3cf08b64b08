/** Properties of `Tokenizer.Tokenize`: the reading of the input as tokens
    is unique (`ReadingUnique`), so the lexer succeeds exactly with that
    reading (`TokenizeIsTheSegmentation`) and otherwise fails at the
    character where it stops (`TokenizeRejectsAtTokenStart`); and, from the
    spelling contract, blank input, which inputs are accepted, one token per
    punctuation character, and the lambda token. */
module TokenizerLaws {
  import opened Results
  import opened Tokenizer

  lemma {:induction false} StripAllWhitespace(s: string)
    requires forall k | 0 <= k < |s| :: IsWhitespace(s[k])
    ensures StripWhitespace(s) == ""
  {
    if |s| > 0 {
      StripAllWhitespace(s[1..]);
    }
  }

  /** Well-formed tokens never spell the empty text, so a token list
      spells at least as many characters as it has tokens. */
  lemma {:induction false} SpellLength(isAlphanumeric: char -> bool, ts: seq<Token>)
    requires forall k | 0 <= k < |ts| :: WellFormedToken(isAlphanumeric, ts[k])
    ensures |Spell(ts)| >= |ts|
  {
    if |ts| > 0 {
      var n := |ts| - 1;
      SpellLength(isAlphanumeric, ts[..n]);
      assert WellFormedToken(isAlphanumeric, ts[n]);
    }
  }

  /** Whitespace produces no tokens: an input of whitespace only, or the
      empty input, yields the empty token list. */
  lemma WhitespaceOnlyYieldsNoTokens(isAlphanumeric: char -> bool, input: string)
    requires AlphanumericFacts(isAlphanumeric)
    requires forall k | 0 <= k < |input| :: IsWhitespace(input[k])
    ensures Tokenize(isAlphanumeric, input) == Ok([])
  {
    StripAllWhitespace(input);
    var r := Tokenize(isAlphanumeric, input);
    if r.Ok? {
      SpellLength(isAlphanumeric, r.value);
    }
  }

  /** Every character of the whitespace-free input keeps its place. */
  lemma {:induction false} StripMembers(s: string, c: char)
    ensures c in StripWhitespace(s) <==> c in s && !IsWhitespace(c)
  {
    if |s| > 0 {
      StripMembers(s[1..], c);
      assert s == [s[0]] + s[1..];
    }
  }

  /** The characters a well-formed token list spells are punctuation, the
      `L` of the lambda token, and word characters. */
  lemma {:induction false} SpellMembers(isAlphanumeric: char -> bool, ts: seq<Token>, c: char)
    requires forall k | 0 <= k < |ts| :: WellFormedToken(isAlphanumeric, ts[k])
    requires c in Spell(ts)
    ensures IsPunctuation(c) || c == 'L' || IsWordPart(isAlphanumeric, c)
  {
    var n := |ts| - 1;
    if c in Spell(ts[..n]) {
      SpellMembers(isAlphanumeric, ts[..n], c);
    } else {
      var t := ts[n];
      assert WellFormedToken(isAlphanumeric, t);
      assert c in Spelling(t);
    }
  }

  /** A successful call means every character of the input is whitespace,
      punctuation or part of a word. */
  lemma TokenizedCharacters(isAlphanumeric: char -> bool, input: string)
    requires AlphanumericFacts(isAlphanumeric)
    requires Tokenize(isAlphanumeric, input).Ok?
    ensures forall k | 0 <= k < |input| ::
              IsWhitespace(input[k]) || IsPunctuation(input[k]) || IsWordPart(isAlphanumeric, input[k])
  {
    var ts := Tokenize(isAlphanumeric, input).value;
    forall k | 0 <= k < |input|
      ensures IsWhitespace(input[k]) || IsPunctuation(input[k]) || IsWordPart(isAlphanumeric, input[k])
    {
      var c := input[k];
      if !IsWhitespace(c) {
        StripMembers(input, c);
        SpellMembers(isAlphanumeric, ts, c);
      }
    }
  }

  /** On ASCII input the lexer succeeds exactly when every character is
      whitespace, punctuation, a letter, a digit or `_`; otherwise it fails
      naming an offending character and returns no tokens at all. */
  lemma AsciiAcceptance(isAlphanumeric: char -> bool, input: string)
    requires AlphanumericFacts(isAlphanumeric)
    requires forall k | 0 <= k < |input| :: (input[k] as int) < 128
    ensures (Tokenize(isAlphanumeric, input).Ok?
             <==> forall k | 0 <= k < |input| :: IsAccepted(input[k]))
  {
    if Tokenize(isAlphanumeric, input).Ok? {
      TokenizedCharacters(isAlphanumeric, input);
      forall k | 0 <= k < |input|
        ensures IsAccepted(input[k])
      {
        var c := input[k];
        if IsWordPart(isAlphanumeric, c) && c != '_' {
          assert isAlphanumeric(c) && (c as int) < 128;
        }
      }
    }
  }

  /** Whitespace removal keeps every other character with its count. */
  lemma {:induction false} StripCount(s: string, c: char)
    requires !IsWhitespace(c)
    ensures multiset(StripWhitespace(s))[c] == multiset(s)[c]
  {
    if |s| > 0 {
      StripCount(s[1..], c);
      assert s == [s[0]] + s[1..];
    }
  }

  /** A punctuation character occurs in the spelling of a well-formed
      token once if the token stands for it and not at all otherwise. */
  lemma SpellingCount(isAlphanumeric: char -> bool, t: Token, c: char)
    requires AlphanumericFacts(isAlphanumeric)
    requires IsPunctuation(c)
    requires WellFormedToken(isAlphanumeric, t)
    ensures multiset(Spelling(t))[c] == if t == PunctuationToken(c) then 1 else 0
  {
  }

  /** A punctuation character occurs in a well-formed token list's
      spelling once per token it stands for. */
  lemma {:induction false} SpellCount(isAlphanumeric: char -> bool, ts: seq<Token>, c: char)
    requires AlphanumericFacts(isAlphanumeric)
    requires IsPunctuation(c)
    requires forall k | 0 <= k < |ts| :: WellFormedToken(isAlphanumeric, ts[k])
    ensures multiset(Spell(ts))[c] == multiset(ts)[PunctuationToken(c)]
  {
    if |ts| > 0 {
      var n := |ts| - 1;
      var t := ts[n];
      assert ts == ts[..n] + [t];
      assert multiset(ts) == multiset(ts[..n]) + multiset{t};
      assert multiset(Spell(ts)) == multiset(Spell(ts[..n])) + multiset(Spelling(t));
      SpellCount(isAlphanumeric, ts[..n], c);
      SpellingCount(isAlphanumeric, t, c);
    }
  }

  /** Each of `(`, `)`, `;`, `=` and `.` yields exactly one token of its
      own kind: there are as many such tokens as such characters. */
  lemma PunctuationTokenPerCharacter(isAlphanumeric: char -> bool, input: string, c: char)
    requires AlphanumericFacts(isAlphanumeric)
    requires IsPunctuation(c)
    requires Tokenize(isAlphanumeric, input).Ok?
    ensures multiset(Tokenize(isAlphanumeric, input).value)[PunctuationToken(c)] == multiset(input)[c]
  {
    SpellCount(isAlphanumeric, Tokenize(isAlphanumeric, input).value, c);
    StripCount(input, c);
  }

  /** The lone word `L` is the lambda token. */
  lemma LoneLIsLambda(isAlphanumeric: char -> bool)
    requires AlphanumericFacts(isAlphanumeric)
    ensures Tokenize(isAlphanumeric, "L") == Ok([Lambda])
  {
  }

  /** A longer word starting with `L` is an ordinary word. */
  lemma LongerLWordIsWord(isAlphanumeric: char -> bool)
    requires AlphanumericFacts(isAlphanumeric)
    ensures Tokenize(isAlphanumeric, "Lx") == Ok([Word("Lx")])
  {
    assert isAlphanumeric('L') && isAlphanumeric('x') by {
      assert ('L' as int) < 128 && ('x' as int) < 128;
    }
    assert WordEnd(isAlphanumeric, "Lx", 0) == 2;
    assert "Lx"[0..2] == "Lx";
    assert ReadWord(isAlphanumeric, "Lx", 0) == (Word("Lx"), 2);
    assert LexFrom(isAlphanumeric, "Lx", 2, [Word("Lx")]) == Ok([Word("Lx")]);
    assert LexFrom(isAlphanumeric, "Lx", 0, []) == LexFrom(isAlphanumeric, "Lx", 2, [] + [Word("Lx")]);
  }

  /** A position where a reading of the input may end: the end of the
      input, or a character that cannot start a token. */
  predicate ReadingStops(input: string, to: nat)
  {
    to == |input| || (to < |input| && !IsAccepted(input[to]))
  }

  /** No well-formed token is spelled by the empty text. */
  lemma SpellingNonEmpty(isAlphanumeric: char -> bool, t: Token)
    requires WellFormedToken(isAlphanumeric, t)
    ensures |Spelling(t)| > 0
  {
  }

  /** The word that starts at `i` ends at the first position, from `i`
      on, where no word character stands. */
  lemma WordEndAt(isAlphanumeric: char -> bool, input: string, i: nat, e: nat)
    requires i <= e <= |input|
    requires forall k | i <= k < e :: IsWordPart(isAlphanumeric, input[k])
    requires e == |input| || !IsWordPart(isAlphanumeric, input[e])
    ensures WordEnd(isAlphanumeric, input, i) == e
  {
  }

  /** A well-formed token spelled at a position where a token starts is
      the token the lexer makes there: the punctuation token of that
      character, or the word the lexer reads. */
  lemma TokenAtStart(isAlphanumeric: char -> bool, input: string, i: nat, t: Token)
    requires AlphanumericFacts(isAlphanumeric)
    requires i < |input| && SpelledAt(isAlphanumeric, input, i, t)
    ensures IsPunctuation(input[i]) ==> t == PunctuationToken(input[i]) && |Spelling(t)| == 1
    ensures !IsPunctuation(input[i]) ==>
              IsWordStart(input[i]) && ReadWord(isAlphanumeric, input, i) == (t, i + |Spelling(t)|)
  {
    var c := input[i];
    var e := i + |Spelling(t)|;
    match t
    case Word(text) =>
      assert c == input[i..e][0] == text[0];
      forall k | i <= k < e
        ensures IsWordPart(isAlphanumeric, input[k])
      {
        assert input[k] == input[i..e][k - i] == text[k - i];
      }
      WordEndAt(isAlphanumeric, input, i, e);
    case Lambda =>
      assert c == input[i..e][0] == 'L';
      assert isAlphanumeric('L') by {
        assert ('L' as int) < 128;
      }
      WordEndAt(isAlphanumeric, input, i, e);
    case _ =>
      assert c == input[i..e][0];
  }

  /** At most one well-formed token is spelled at a position. */
  lemma SpelledAtUnique(isAlphanumeric: char -> bool, input: string, i: nat, t1: Token, t2: Token)
    requires AlphanumericFacts(isAlphanumeric)
    requires i < |input| && SpelledAt(isAlphanumeric, input, i, t1) && SpelledAt(isAlphanumeric, input, i, t2)
    ensures t1 == t2
  {
    TokenAtStart(isAlphanumeric, input, i, t1);
    TokenAtStart(isAlphanumeric, input, i, t2);
  }

  /** At a position that holds no whitespace, a reading with no tokens
      ends right there, and one with tokens starts with a character that
      may start a token. */
  lemma ReadingAt(isAlphanumeric: char -> bool, input: string, i: nat, to: nat, ts: seq<Token>)
    requires AlphanumericFacts(isAlphanumeric)
    requires i < |input| && !IsWhitespace(input[i])
    requires Segmented(isAlphanumeric, input, i, to, ts)
    ensures |ts| == 0 ==> to == i
    ensures |ts| > 0 ==> IsAccepted(input[i])
  {
    assert NextNonWhitespace(input, i) == i;
    if |ts| > 0 {
      SegmentedFirst(isAlphanumeric, input, i, to, ts);
      TokenAtStart(isAlphanumeric, input, i, ts[0]);
    }
  }

  /** At the end of the input a reading has no tokens. */
  lemma ReadingAtEnd(isAlphanumeric: char -> bool, input: string, to: nat, ts: seq<Token>)
    requires Segmented(isAlphanumeric, input, |input|, to, ts)
    ensures ts == [] && to == |input|
  {
    assert NextNonWhitespace(input, |input|) == |input|;
    if |ts| > 0 {
      SpellingNonEmpty(isAlphanumeric, ts[0]);
    }
  }

  /** Two readings from a position that holds no whitespace, both with
      tokens, start with the same token. */
  lemma SameFirstToken(isAlphanumeric: char -> bool, input: string, i: nat,
                       to1: nat, ts1: seq<Token>, to2: nat, ts2: seq<Token>)
    requires AlphanumericFacts(isAlphanumeric)
    requires i < |input| && !IsWhitespace(input[i]) && |ts1| > 0 && |ts2| > 0
    requires Segmented(isAlphanumeric, input, i, to1, ts1)
    requires Segmented(isAlphanumeric, input, i, to2, ts2)
    ensures ts1[0] == ts2[0]
    ensures i < i + |Spelling(ts1[0])| <= |input|
    ensures Segmented(isAlphanumeric, input, i + |Spelling(ts1[0])|, to1, ts1[1..])
    ensures Segmented(isAlphanumeric, input, i + |Spelling(ts2[0])|, to2, ts2[1..])
  {
    SegmentedFirst(isAlphanumeric, input, i, to1, ts1);
    SegmentedFirst(isAlphanumeric, input, i, to2, ts2);
    SpellingNonEmpty(isAlphanumeric, ts1[0]);
    SpelledAtUnique(isAlphanumeric, input, i, ts1[0], ts2[0]);
  }

  /** A reading of the input from `i` that stops where the lexer could
      stop, at the end or at a character that cannot start a token, is
      unique: the tokens and the stopping position are determined. */
  lemma {:induction false} ReadingUnique(isAlphanumeric: char -> bool, input: string, i: nat,
                                         to1: nat, ts1: seq<Token>, to2: nat, ts2: seq<Token>)
    requires AlphanumericFacts(isAlphanumeric)
    requires i <= |input|
    requires Segmented(isAlphanumeric, input, i, to1, ts1) && ReadingStops(input, to1)
    requires Segmented(isAlphanumeric, input, i, to2, ts2) && ReadingStops(input, to2)
    ensures to1 == to2 && ts1 == ts2
    decreases |input| - i, 2
  {
    if i == |input| {
      ReadingAtEnd(isAlphanumeric, input, to1, ts1);
      ReadingAtEnd(isAlphanumeric, input, to2, ts2);
    } else if IsWhitespace(input[i]) {
      SegmentedSkip(isAlphanumeric, input, i, to1, ts1);
      SegmentedSkip(isAlphanumeric, input, i, to2, ts2);
      ReadingUnique(isAlphanumeric, input, i + 1, to1, ts1, to2, ts2);
    } else {
      ReadingUniqueAtToken(isAlphanumeric, input, i, to1, ts1, to2, ts2);
    }
  }

  /** `ReadingUnique` at a position that holds no whitespace. */
  lemma {:induction false} ReadingUniqueAtToken(isAlphanumeric: char -> bool, input: string, i: nat,
                                                to1: nat, ts1: seq<Token>, to2: nat, ts2: seq<Token>)
    requires AlphanumericFacts(isAlphanumeric)
    requires i < |input| && !IsWhitespace(input[i])
    requires Segmented(isAlphanumeric, input, i, to1, ts1) && ReadingStops(input, to1)
    requires Segmented(isAlphanumeric, input, i, to2, ts2) && ReadingStops(input, to2)
    ensures to1 == to2 && ts1 == ts2
    decreases |input| - i, 1
  {
    ReadingAt(isAlphanumeric, input, i, to1, ts1);
    ReadingAt(isAlphanumeric, input, i, to2, ts2);
    if |ts1| > 0 && |ts2| > 0 {
      ReadingUniqueNext(isAlphanumeric, input, i, to1, ts1, to2, ts2);
    }
  }

  /** `ReadingUnique` past the first token, which both readings share. */
  lemma {:induction false} ReadingUniqueNext(isAlphanumeric: char -> bool, input: string, i: nat,
                                             to1: nat, ts1: seq<Token>, to2: nat, ts2: seq<Token>)
    requires AlphanumericFacts(isAlphanumeric)
    requires i < |input| && !IsWhitespace(input[i]) && |ts1| > 0 && |ts2| > 0
    requires Segmented(isAlphanumeric, input, i, to1, ts1) && ReadingStops(input, to1)
    requires Segmented(isAlphanumeric, input, i, to2, ts2) && ReadingStops(input, to2)
    ensures to1 == to2 && ts1 == ts2
    decreases |input| - i, 0
  {
    SameFirstToken(isAlphanumeric, input, i, to1, ts1, to2, ts2);
    ReadingUnique(isAlphanumeric, input, i + |Spelling(ts1[0])|, to1, ts1[1..], to2, ts2[1..]);
    assert ts1 == [ts1[0]] + ts1[1..];
    assert ts2 == [ts2[0]] + ts2[1..];
  }

  /** Any reading of the whole input is the token list the lexer
      returns. */
  lemma TokenizeFollowsSegmentation(isAlphanumeric: char -> bool, input: string, ts: seq<Token>)
    requires AlphanumericFacts(isAlphanumeric)
    requires Segmented(isAlphanumeric, input, 0, |input|, ts)
    ensures Tokenize(isAlphanumeric, input) == Ok(ts)
  {
    var r := Tokenize(isAlphanumeric, input);
    if r.Ok? {
      ReadingUnique(isAlphanumeric, input, 0, |input|, r.value, |input|, ts);
    } else {
      var ts', k :| 0 <= k < |input| && Segmented(isAlphanumeric, input, 0, k, ts') && !IsAccepted(input[k])
                    && r.msg == "Unexpected character: " + [input[k]];
      ReadingUnique(isAlphanumeric, input, 0, k, ts', |input|, ts);
    }
  }

  /** When a reading of the input stops at a character that cannot start
      a token, the lexer fails naming that character. */
  lemma TokenizeRejectsAtTokenStart(isAlphanumeric: char -> bool, input: string, ts: seq<Token>, k: nat)
    requires AlphanumericFacts(isAlphanumeric)
    requires k < |input| && Segmented(isAlphanumeric, input, 0, k, ts) && !IsAccepted(input[k])
    ensures Tokenize(isAlphanumeric, input) == Err("Unexpected character: " + [input[k]])
  {
    var r := Tokenize(isAlphanumeric, input);
    if r.Ok? {
      ReadingUnique(isAlphanumeric, input, 0, |input|, r.value, k, ts);
    } else {
      var ts', k' :| 0 <= k' < |input| && Segmented(isAlphanumeric, input, 0, k', ts') && !IsAccepted(input[k'])
                     && r.msg == "Unexpected character: " + [input[k']];
      ReadingUnique(isAlphanumeric, input, 0, k', ts', k, ts);
    }
  }

  /** The lexer's result is characterised by `Segmented`: it returns `ts`
      exactly when `ts` is a reading of the whole input into well-formed
      tokens, so that reading is unique. */
  lemma TokenizeIsTheSegmentation(isAlphanumeric: char -> bool, input: string, ts: seq<Token>)
    requires AlphanumericFacts(isAlphanumeric)
    ensures Tokenize(isAlphanumeric, input) == Ok(ts) <==> Segmented(isAlphanumeric, input, 0, |input|, ts)
  {
    if Segmented(isAlphanumeric, input, 0, |input|, ts) {
      TokenizeFollowsSegmentation(isAlphanumeric, input, ts);
    }
  }
}
