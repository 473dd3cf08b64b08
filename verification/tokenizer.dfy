/** The single-pass lexer of src/tokenizer.rs, from characters to tokens.

    Two character classes come from Rust's standard library. Whitespace
    (`char::is_whitespace`) is the Unicode White_Space property, a fixed
    list of 25 code points, and is written out below. Alphanumeric
    (`char::is_alphanumeric`, Unicode Alphabetic or Numeric) is far too
    large to write out; it is a parameter `isAlphanumeric`, constrained by
    `AlphanumericFacts` to the two facts the lexer relies on. */
module Tokenizer {
  import opened Results

  datatype Token =
    | Word(text: string)
    | Lambda
    | Dot
    | Equal
    | Semicolon
    | LParen
    | RParen

  /** `char::is_whitespace`. */
  predicate IsWhitespace(c: char)
  {
    || ('\t' <= c <= '\r')
    || c == ' '
    || c == '\U{0085}'
    || c == '\U{00A0}'
    || c == '\U{1680}'
    || ('\U{2000}' <= c <= '\U{200A}')
    || c == '\U{2028}'
    || c == '\U{2029}'
    || c == '\U{202F}'
    || c == '\U{205F}'
    || c == '\U{3000}'
  }

  predicate IsAsciiAlphanumeric(c: char)
  {
    ('a' <= c <= 'z') || ('A' <= c <= 'Z') || ('0' <= c <= '9')
  }

  /** What holds of `char::is_alphanumeric`: on ASCII it means exactly
      letters and digits, and no whitespace character is alphanumeric. */
  ghost predicate AlphanumericFacts(isAlphanumeric: char -> bool)
  {
    && (forall c: char :: (c as int) < 128 ==> (isAlphanumeric(c) <==> IsAsciiAlphanumeric(c)))
    && (forall c: char :: isAlphanumeric(c) ==> !IsWhitespace(c))
  }

  /** Characters that each make one token by themselves. */
  predicate IsPunctuation(c: char)
  {
    c == '(' || c == ')' || c == ';' || c == '=' || c == '.'
  }

  function PunctuationToken(c: char): (t: Token)
    requires IsPunctuation(c)
  {
    match c
    case '(' => LParen
    case ')' => RParen
    case ';' => Semicolon
    case '=' => Equal
    case '.' => Dot
  }

  /** Characters that can start a word: ASCII letters, digits and `_`. */
  predicate IsWordStart(c: char)
  {
    IsAsciiAlphanumeric(c) || c == '_'
  }

  /** Characters that can continue a word: any alphanumeric character,
      ASCII or not, and `_`. */
  predicate IsWordPart(isAlphanumeric: char -> bool, c: char)
  {
    isAlphanumeric(c) || c == '_'
  }

  /** Characters a token may start with, or that are skipped. Any other
      character where a token would start is an error. */
  predicate IsAccepted(c: char)
  {
    IsWhitespace(c) || IsPunctuation(c) || IsWordStart(c)
  }

  /** The text a token stands for. */
  function Spelling(t: Token): (s: string)
  {
    match t
    case Word(text) => text
    case Lambda => "L"
    case Dot => "."
    case Equal => "="
    case Semicolon => ";"
    case LParen => "("
    case RParen => ")"
  }

  /** The texts of a token list, concatenated in order. */
  function Spell(ts: seq<Token>): (s: string)
  {
    if |ts| == 0 then "" else Spell(ts[..|ts| - 1]) + Spelling(ts[|ts| - 1])
  }

  /** The input with every whitespace character removed. */
  function StripWhitespace(s: string): (r: string)
  {
    if |s| == 0 then ""
    else if IsWhitespace(s[0]) then StripWhitespace(s[1..])
    else [s[0]] + StripWhitespace(s[1..])
  }

  /** What a token of the lexer's output looks like: a word token is a
      non-empty run of word characters that starts like a word and is not
      the lone `L`, which is the lambda token instead. */
  predicate WellFormedToken(isAlphanumeric: char -> bool, t: Token)
  {
    t.Word? ==>
      && |t.text| > 0
      && t.text != "L"
      && IsWordStart(t.text[0])
      && forall k | 0 <= k < |t.text| :: IsWordPart(isAlphanumeric, t.text[k])
  }

  /** The first position at or after `i` that holds no whitespace, or the
      end of the input. */
  function NextNonWhitespace(input: string, i: nat): (j: nat)
    requires i <= |input|
    ensures i <= j <= |input|
    ensures forall k | i <= k < j :: IsWhitespace(input[k])
    ensures j == |input| || !IsWhitespace(input[j])
    decreases |input| - i
  {
    if i < |input| && IsWhitespace(input[i]) then NextNonWhitespace(input, i + 1) else i
  }

  /** How the input from `from` reads as the tokens `ts`, whatever finds
      them: from the position `s` past any whitespace the tokens stand as
      `SegmentedAt` says, and after them, past the whitespace that
      follows, stands `to`. (Stated with the one position `s` bound by an
      existential, so that a proof can use a reading as a single fact.) */
  predicate Segmented(isAlphanumeric: char -> bool, input: string, from: nat, to: nat, ts: seq<Token>)
    requires from <= |input|
  {
    exists s | s == NextNonWhitespace(input, from) :: SegmentedAt(isAlphanumeric, input, s, to, ts)
  }

  /** The token `t` is spelled at `s`: it is well formed, its spelling
      stands at `s`, and a word or lambda token is not followed by a
      further word character. */
  predicate SpelledAt(isAlphanumeric: char -> bool, input: string, s: nat, t: Token)
  {
    var e := s + |Spelling(t)|;
    && WellFormedToken(isAlphanumeric, t)
    && e <= |input|
    && input[s..e] == Spelling(t)
    && (t.Word? || t.Lambda? ==> e == |input| || !IsWordPart(isAlphanumeric, input[e]))
  }

  /** The tokens `ts` as read from position `s`, where no whitespace
      stands: the first token is spelled at `s`, and the other tokens
      follow, past any whitespace, in the same way; when none is left, `s`
      is `to`. */
  predicate SegmentedAt(isAlphanumeric: char -> bool, input: string, s: nat, to: nat, ts: seq<Token>)
    requires s <= |input|
    decreases |ts|
  {
    if |ts| == 0 then to == s
    else
      && SpelledAt(isAlphanumeric, input, s, ts[0])
      && SegmentedAt(isAlphanumeric, input, NextNonWhitespace(input, s + |Spelling(ts[0])|), to, ts[1..])
  }

  lemma SpellAppend(ts: seq<Token>, t: Token)
    ensures Spell(ts + [t]) == Spell(ts) + Spelling(t)
  {
  }

  /** A run of non-whitespace characters survives whitespace removal as it is. */
  lemma {:induction false} StripRun(s: string, i: nat, j: nat)
    requires i <= j <= |s|
    requires forall k | i <= k < j :: !IsWhitespace(s[k])
    ensures StripWhitespace(s[i..]) == s[i..j] + StripWhitespace(s[j..])
    decreases j - i
  {
    if i < j {
      assert s[i..][1..] == s[i + 1..];
      StripRun(s, i + 1, j);
      assert s[i..j] == [s[i]] + s[i + 1..j];
    }
  }

  /** The end of the word that starts at `i`: the longest run of word
      characters there. */
  function WordEnd(isAlphanumeric: char -> bool, input: string, i: nat): (j: nat)
    requires i <= |input|
    ensures i <= j <= |input|
    ensures forall k | i <= k < j :: IsWordPart(isAlphanumeric, input[k])
    ensures j == |input| || !IsWordPart(isAlphanumeric, input[j])
    decreases |input| - i
  {
    if i < |input| && IsWordPart(isAlphanumeric, input[i]) then WordEnd(isAlphanumeric, input, i + 1)
    else i
  }

  /** The token a word becomes: the lone `L` is the lambda token. */
  function WordToken(text: string): (t: Token)
    ensures Spelling(t) == text
    ensures t == Lambda <==> text == "L"
    ensures t.Word? ==> t.text == text
  {
    if text == "L" then Lambda else Word(text)
  }

  /** The word branch of the loop: the longest run of word characters
      from `i`, as a token, and the position after it. */
  function ReadWord(isAlphanumeric: char -> bool, input: string, i: nat): (p: (Token, nat))
    requires AlphanumericFacts(isAlphanumeric)
    requires i < |input| && IsWordStart(input[i])
    ensures i < p.1 <= |input|
    ensures Spelling(p.0) == input[i..p.1]
    ensures WellFormedToken(isAlphanumeric, p.0)
    ensures forall k | i <= k < p.1 :: !IsWhitespace(input[k])
    ensures p.1 == |input| || !IsWordPart(isAlphanumeric, input[p.1])
  {
    var j := WordEnd(isAlphanumeric, input, i);
    (WordToken(input[i..j]), j)
  }

  /** Removing whitespace from the input at `i`, one character at a time. */
  lemma StripStep(input: string, i: nat)
    requires i < |input|
    ensures StripWhitespace(input[i..])
              == if IsWhitespace(input[i]) then StripWhitespace(input[i + 1..])
                 else [input[i]] + StripWhitespace(input[i + 1..])
  {
  }

  /** A punctuation character is spelled by its token, and is no whitespace. */
  lemma PunctuationSpelled(input: string, i: nat)
    requires i < |input| && IsPunctuation(input[i])
    ensures Spelling(PunctuationToken(input[i])) == input[i..i + 1]
    ensures forall k | i <= k < i + 1 :: !IsWhitespace(input[k])
  {
    assert input[i..i + 1] == [input[i]];
  }

  /** The spelling invariant survives emitting token `t` for the input
      from `i` to `j`. */
  lemma EmitStep(tokens: seq<Token>, t: Token, input: string, i: nat, j: nat, rest: string)
    requires i < j <= |input|
    requires Spelling(t) == input[i..j]
    requires forall k | i <= k < j :: !IsWhitespace(input[k])
    requires rest == Spell(tokens + [t]) + StripWhitespace(input[j..])
    ensures rest == Spell(tokens) + StripWhitespace(input[i..])
  {
    calc {
      rest;
      Spell(tokens + [t]) + StripWhitespace(input[j..]);
      { SpellAppend(tokens, t); }
      (Spell(tokens) + input[i..j]) + StripWhitespace(input[j..]);
      Spell(tokens) + (input[i..j] + StripWhitespace(input[j..]));
      { StripRun(input, i, j); }
      Spell(tokens) + StripWhitespace(input[i..]);
    }
  }

  /** The main loop from position `i`, with the tokens produced so far in
      `tokens`. On success the tokens spell the input without its
      whitespace; on failure only a message is left, naming a character
      that cannot start a token. */
  function LexFrom(isAlphanumeric: char -> bool, input: string, i: nat, tokens: seq<Token>): (r: Result<seq<Token>>)
    requires AlphanumericFacts(isAlphanumeric)
    requires i <= |input|
    requires forall k | 0 <= k < |tokens| :: WellFormedToken(isAlphanumeric, tokens[k])
    ensures r.Ok? ==> Spell(r.value) == Spell(tokens) + StripWhitespace(input[i..])
    ensures r.Ok? ==> forall k | 0 <= k < |r.value| :: WellFormedToken(isAlphanumeric, r.value[k])
    ensures r.Err? ==>
              exists k | i <= k < |input| ::
                !IsAccepted(input[k]) && r.msg == "Unexpected character: " + [input[k]]
    decreases |input| - i
  {
    if i == |input| then Ok(tokens)
    else
      var c := input[i];
      StripStep(input, i);
      if IsWhitespace(c) then
        LexFrom(isAlphanumeric, input, i + 1, tokens)
      else if IsPunctuation(c) then
        var t := PunctuationToken(c);
        var r := LexFrom(isAlphanumeric, input, i + 1, tokens + [t]);
        if r.Ok? then PunctuationSpelled(input, i); EmitStep(tokens, t, input, i, i + 1, Spell(r.value)); r else r
      else if IsWordStart(c) then
        var (t, j) := ReadWord(isAlphanumeric, input, i);
        var r := LexFrom(isAlphanumeric, input, j, tokens + [t]);
        if r.Ok? then EmitStep(tokens, t, input, i, j, Spell(r.value)); r else r
      else
        Err("Unexpected character: " + [c])
  }

  /** Whitespace in front does not change how the rest reads. */
  lemma SegmentedSkip(isAlphanumeric: char -> bool, input: string, i: nat, to: nat, ts: seq<Token>)
    requires i < |input| && IsWhitespace(input[i])
    ensures Segmented(isAlphanumeric, input, i, to, ts) == Segmented(isAlphanumeric, input, i + 1, to, ts)
  {
    assert NextNonWhitespace(input, i) == NextNonWhitespace(input, i + 1);
  }

  /** A token read at a position that holds no whitespace is the first of
      the tokens read from there. */
  lemma SegmentedCons(isAlphanumeric: char -> bool, input: string, i: nat, j: nat, t: Token,
                      to: nat, rest: seq<Token>)
    requires i < j <= |input| && !IsWhitespace(input[i])
    requires SpelledAt(isAlphanumeric, input, i, t) && j == i + |Spelling(t)|
    requires Segmented(isAlphanumeric, input, j, to, rest)
    ensures Segmented(isAlphanumeric, input, i, to, [t] + rest)
  {
    SegmentedElim(isAlphanumeric, input, j, to, rest);
    SegmentedAtCons(isAlphanumeric, input, i, j, t, to, rest);
    SegmentedIntro(isAlphanumeric, input, i, to, [t] + rest);
  }

  /** `SegmentedCons` at the position where the token is spelled. */
  lemma SegmentedAtCons(isAlphanumeric: char -> bool, input: string, i: nat, j: nat, t: Token,
                        to: nat, rest: seq<Token>)
    requires i < j <= |input| && !IsWhitespace(input[i])
    requires SpelledAt(isAlphanumeric, input, i, t) && j == i + |Spelling(t)|
    requires SegmentedAt(isAlphanumeric, input, NextNonWhitespace(input, j), to, rest)
    ensures SegmentedAt(isAlphanumeric, input, NextNonWhitespace(input, i), to, [t] + rest)
  {
    assert NextNonWhitespace(input, i) == i;
    assert ([t] + rest)[0] == t && ([t] + rest)[1..] == rest;
  }

  /** The reading a `Segmented` fact stands for. */
  lemma SegmentedElim(isAlphanumeric: char -> bool, input: string, from: nat, to: nat, ts: seq<Token>)
    requires from <= |input|
    requires Segmented(isAlphanumeric, input, from, to, ts)
    ensures SegmentedAt(isAlphanumeric, input, NextNonWhitespace(input, from), to, ts)
  {
  }

  /** A reading found at the first position past the whitespace. */
  lemma SegmentedIntro(isAlphanumeric: char -> bool, input: string, from: nat, to: nat, ts: seq<Token>)
    requires from <= |input|
    requires SegmentedAt(isAlphanumeric, input, NextNonWhitespace(input, from), to, ts)
    ensures Segmented(isAlphanumeric, input, from, to, ts)
  {
  }

  /** The converse of `SegmentedCons`: at a position that holds no
      whitespace, the first token of a reading is spelled right there. */
  lemma SegmentedFirst(isAlphanumeric: char -> bool, input: string, i: nat, to: nat, ts: seq<Token>)
    requires i < |input| && !IsWhitespace(input[i]) && |ts| > 0
    requires Segmented(isAlphanumeric, input, i, to, ts)
    ensures SpelledAt(isAlphanumeric, input, i, ts[0])
    ensures Segmented(isAlphanumeric, input, i + |Spelling(ts[0])|, to, ts[1..])
  {
    assert NextNonWhitespace(input, i) == i;
    assert SegmentedAt(isAlphanumeric, input, i, to, ts);
    assert SegmentedAt(isAlphanumeric, input, NextNonWhitespace(input, i + |Spelling(ts[0])|), to, ts[1..]);
  }

  /** What the lexer promises of its result `r` for the input from `i`,
      given the tokens read before: on success the earlier tokens come
      first and the new ones are a reading of the whole rest of the input;
      on failure the rest reads as some tokens up to a character that
      cannot start a token, and the message names that character. */
  ghost predicate LexedAs(isAlphanumeric: char -> bool, input: string, i: nat, tokens: seq<Token>,
                          r: Result<seq<Token>>)
    requires i <= |input|
  {
    && (r.Ok? ==>
          && |tokens| <= |r.value|
          && r.value[..|tokens|] == tokens
          && Segmented(isAlphanumeric, input, i, |input|, r.value[|tokens|..]))
    && (r.Err? ==>
          exists ts, k | i <= k < |input| ::
            && Segmented(isAlphanumeric, input, i, k, ts)
            && !IsAccepted(input[k])
            && r.msg == "Unexpected character: " + [input[k]])
  }

  /** Skipping one whitespace character keeps the promise. */
  lemma WhitespaceStepLexed(isAlphanumeric: char -> bool, input: string, i: nat, tokens: seq<Token>,
                            r: Result<seq<Token>>)
    requires i < |input| && IsWhitespace(input[i])
    requires LexedAs(isAlphanumeric, input, i + 1, tokens, r)
    ensures LexedAs(isAlphanumeric, input, i, tokens, r)
  {
    if r.Ok? {
      SegmentedSkip(isAlphanumeric, input, i, |input|, r.value[|tokens|..]);
    } else {
      var ts, k :| i + 1 <= k < |input| && Segmented(isAlphanumeric, input, i + 1, k, ts)
                   && !IsAccepted(input[k]) && r.msg == "Unexpected character: " + [input[k]];
      SegmentedSkip(isAlphanumeric, input, i, k, ts);
    }
  }

  /** Emitting the token `t` read from `i` to `j` keeps the promise. */
  lemma TokenStepLexed(isAlphanumeric: char -> bool, input: string, i: nat, j: nat, t: Token,
                       tokens: seq<Token>, r: Result<seq<Token>>)
    requires i < j <= |input| && !IsWhitespace(input[i])
    requires SpelledAt(isAlphanumeric, input, i, t) && j == i + |Spelling(t)|
    requires LexedAs(isAlphanumeric, input, j, tokens + [t], r)
    ensures LexedAs(isAlphanumeric, input, i, tokens, r)
  {
    if r.Ok? {
      TokenStepOk(isAlphanumeric, input, i, j, t, tokens, r.value);
    } else {
      var ts, k :| j <= k < |input| && Segmented(isAlphanumeric, input, j, k, ts)
                   && !IsAccepted(input[k]) && r.msg == "Unexpected character: " + [input[k]];
      SegmentedCons(isAlphanumeric, input, i, j, t, k, ts);
    }
  }

  /** The success half of `TokenStepLexed`. */
  lemma TokenStepOk(isAlphanumeric: char -> bool, input: string, i: nat, j: nat, t: Token,
                    tokens: seq<Token>, ts: seq<Token>)
    requires i < j <= |input| && !IsWhitespace(input[i])
    requires SpelledAt(isAlphanumeric, input, i, t) && j == i + |Spelling(t)|
    requires |tokens| + 1 <= |ts| && ts[..|tokens| + 1] == tokens + [t]
    requires Segmented(isAlphanumeric, input, j, |input|, ts[|tokens| + 1..])
    ensures ts[..|tokens|] == tokens
    ensures Segmented(isAlphanumeric, input, i, |input|, ts[|tokens|..])
  {
    SplitAfter(ts, tokens, t);
    SegmentedCons(isAlphanumeric, input, i, j, t, |input|, ts[|tokens| + 1..]);
  }

  /** A list that starts with `tokens + [t]` is `tokens`, then `t`, then
      the rest. */
  lemma SplitAfter(ts: seq<Token>, tokens: seq<Token>, t: Token)
    requires |tokens| + 1 <= |ts| && ts[..|tokens| + 1] == tokens + [t]
    ensures ts[..|tokens|] == tokens
    ensures ts[|tokens|..] == [t] + ts[|tokens| + 1..]
  {
    var n := |tokens|;
    assert ts[..n] == (tokens + [t])[..n] == tokens;
    assert ts[n] == (ts[..n + 1])[n] == t;
  }

  /** The lexer reads the input the way `Segmented` describes. */
  lemma {:induction false} LexFromSegments(isAlphanumeric: char -> bool, input: string, i: nat, tokens: seq<Token>)
    requires AlphanumericFacts(isAlphanumeric)
    requires i <= |input|
    requires forall k | 0 <= k < |tokens| :: WellFormedToken(isAlphanumeric, tokens[k])
    ensures LexedAs(isAlphanumeric, input, i, tokens, LexFrom(isAlphanumeric, input, i, tokens))
    decreases |input| - i, 1
  {
    if i == |input| {
      assert LexFrom(isAlphanumeric, input, i, tokens) == Ok(tokens);
      assert tokens[|tokens|..] == [];
      assert NextNonWhitespace(input, i) == i;
      assert SegmentedAt(isAlphanumeric, input, i, |input|, []);
    } else if IsWhitespace(input[i]) {
      LexWhitespaceSegments(isAlphanumeric, input, i, tokens);
    } else if IsPunctuation(input[i]) {
      LexPunctuationSegments(isAlphanumeric, input, i, tokens);
    } else if IsWordStart(input[i]) {
      LexWordSegments(isAlphanumeric, input, i, tokens);
    } else {
      assert LexFrom(isAlphanumeric, input, i, tokens) == Err("Unexpected character: " + [input[i]]);
      assert NextNonWhitespace(input, i) == i;
      assert SegmentedAt(isAlphanumeric, input, i, i, []);
      assert Segmented(isAlphanumeric, input, i, i, []);
    }
  }

  /** The whitespace branch of `LexFromSegments`. */
  lemma {:induction false} LexWhitespaceSegments(isAlphanumeric: char -> bool, input: string, i: nat, tokens: seq<Token>)
    requires AlphanumericFacts(isAlphanumeric)
    requires i < |input| && IsWhitespace(input[i])
    requires forall k | 0 <= k < |tokens| :: WellFormedToken(isAlphanumeric, tokens[k])
    ensures LexedAs(isAlphanumeric, input, i, tokens, LexFrom(isAlphanumeric, input, i, tokens))
    decreases |input| - i, 0
  {
    var r := LexFrom(isAlphanumeric, input, i + 1, tokens);
    assert LexFrom(isAlphanumeric, input, i, tokens) == r;
    LexFromSegments(isAlphanumeric, input, i + 1, tokens);
    WhitespaceStepLexed(isAlphanumeric, input, i, tokens, r);
  }

  /** The punctuation branch of `LexFromSegments`. */
  lemma {:induction false} LexPunctuationSegments(isAlphanumeric: char -> bool, input: string, i: nat,
                                                  tokens: seq<Token>)
    requires AlphanumericFacts(isAlphanumeric)
    requires i < |input| && !IsWhitespace(input[i]) && IsPunctuation(input[i])
    requires forall k | 0 <= k < |tokens| :: WellFormedToken(isAlphanumeric, tokens[k])
    ensures LexedAs(isAlphanumeric, input, i, tokens, LexFrom(isAlphanumeric, input, i, tokens))
    decreases |input| - i, 0
  {
    var t := PunctuationToken(input[i]);
    assert input[i..i + 1] == [input[i]] == Spelling(t) && !t.Word? && !t.Lambda?;
    assert SpelledAt(isAlphanumeric, input, i, t);
    var r := LexFrom(isAlphanumeric, input, i + 1, tokens + [t]);
    assert LexFrom(isAlphanumeric, input, i, tokens) == r;
    LexFromSegments(isAlphanumeric, input, i + 1, tokens + [t]);
    TokenStepLexed(isAlphanumeric, input, i, i + 1, t, tokens, r);
  }

  /** The word branch of `LexFromSegments`. */
  lemma {:induction false} LexWordSegments(isAlphanumeric: char -> bool, input: string, i: nat, tokens: seq<Token>)
    requires AlphanumericFacts(isAlphanumeric)
    requires i < |input| && !IsWhitespace(input[i]) && !IsPunctuation(input[i]) && IsWordStart(input[i])
    requires forall k | 0 <= k < |tokens| :: WellFormedToken(isAlphanumeric, tokens[k])
    ensures LexedAs(isAlphanumeric, input, i, tokens, LexFrom(isAlphanumeric, input, i, tokens))
    decreases |input| - i, 0
  {
    var (t, j) := ReadWord(isAlphanumeric, input, i);
    assert SpelledAt(isAlphanumeric, input, i, t);
    var r := LexFrom(isAlphanumeric, input, j, tokens + [t]);
    assert LexFrom(isAlphanumeric, input, i, tokens) == r;
    LexFromSegments(isAlphanumeric, input, j, tokens + [t]);
    TokenStepLexed(isAlphanumeric, input, i, j, t, tokens, r);
  }

  /** `tokenize`. */
  function Tokenize(isAlphanumeric: char -> bool, input: string): (r: Result<seq<Token>>)
    requires AlphanumericFacts(isAlphanumeric)
    ensures r.Ok? ==> Spell(r.value) == StripWhitespace(input)
    ensures r.Ok? ==> forall k | 0 <= k < |r.value| :: WellFormedToken(isAlphanumeric, r.value[k])
    ensures r.Ok? ==> Segmented(isAlphanumeric, input, 0, |input|, r.value)
    ensures r.Err? ==>
              exists ts, k | 0 <= k < |input| ::
                && Segmented(isAlphanumeric, input, 0, k, ts)
                && !IsAccepted(input[k])
                && r.msg == "Unexpected character: " + [input[k]]
  {
    assert input[0..] == input;
    var r := LexFrom(isAlphanumeric, input, 0, []);
    LexFromSegments(isAlphanumeric, input, 0, []);
    assert r.Ok? ==> r.value[0..] == r.value;
    r
  }
}
