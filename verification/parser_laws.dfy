/** Properties of the parser: how a document is wrapped and where it
    stops, which branch the first byte of an expression selects, one round
    of the application loop and the shape of applications, and the words
    `parse_words` reads (`SpacedWordsUnique`, `ParseWordsIsTheReading`). */
module ParserLaws {
  import opened Results
  import opened Parser

  /** A blank remainder (nothing but spaces, possibly nothing at all) is
      the empty document, `Sequence([])`, and is read to the end. */
  lemma BlankDocumentIsEmptySequence(input: seq<byte>, pos: nat)
    requires pos <= |input|
    requires forall i | pos <= i < |input| :: IsSpace(input[i])
    ensures ParseDocument(input, pos) == Parsed(Sequence([]), |input|)
  {
  }

  /** The whole of a blank input parses to the empty sequence. */
  lemma BlankInputParsesToEmptySequence(input: seq<byte>)
    requires forall i | 0 <= i < |input| :: IsSpace(input[i])
    ensures Parse(input) == Ok(Sequence([]))
  {
    BlankDocumentIsEmptySequence(input, 0);
  }

  /** One round of the document loop: read an expression, then go on after
      a `;` or stop. */
  lemma DocumentLoopStep(input: seq<byte>, pos: nat, acc: seq<Expr>, e: Expr, r: nat)
    requires pos <= |input|
    requires forall i | 0 <= i < |acc| :: WellFormed(acc[i])
    requires SkipWhitespace(input, pos) < |input|
    requires ParseExpression(input, SkipWhitespace(input, pos)) == Parsed(e, r)
    ensures r <= |input| && WellFormed(e)
    ensures var s := SkipWhitespace(input, r);
            DocumentLoop(input, pos, acc)
              == if Peek(input, s) == Some(Semicolon) then DocumentLoop(input, s + 1, acc + [e])
                 else Parsed(acc + [e], s)
  {
  }

  /** The last round of the document loop: an expression not followed by
      `;` ends the document. */
  lemma DocumentLoopStops(input: seq<byte>, pos: nat, acc: seq<Expr>, e: Expr, r: nat)
    requires pos <= |input|
    requires forall i | 0 <= i < |acc| :: WellFormed(acc[i])
    requires SkipWhitespace(input, pos) < |input|
    requires ParseExpression(input, SkipWhitespace(input, pos)) == Parsed(e, r)
    requires r <= |input| && Peek(input, SkipWhitespace(input, r)) != Some(Semicolon)
    ensures DocumentLoop(input, pos, acc) == Parsed(acc + [e], SkipWhitespace(input, r))
  {
  }

  /** One expression not followed by `;` is the whole document, returned
      unwrapped; whatever follows it is left unread and is not an error. */
  lemma SingleExpressionUnwrapped(input: seq<byte>, pos: nat, e: Expr, r: nat)
    requires pos <= |input|
    requires SkipWhitespace(input, pos) < |input|
    requires ParseExpression(input, SkipWhitespace(input, pos)) == Parsed(e, r)
    requires Peek(input, SkipWhitespace(input, r)) != Some(Semicolon)
    ensures ParseDocument(input, pos) == Parsed(e, SkipWhitespace(input, r))
  {
  }

  /** A `;` after the last expression is accepted: when only spaces follow
      it, the document ends there with that expression unwrapped. */
  lemma TrailingSemicolonAccepted(input: seq<byte>, pos: nat, e: Expr, r: nat)
    requires pos <= |input|
    requires SkipWhitespace(input, pos) < |input|
    requires ParseExpression(input, SkipWhitespace(input, pos)) == Parsed(e, r)
    requires Peek(input, SkipWhitespace(input, r)) == Some(Semicolon)
    requires forall i | SkipWhitespace(input, r) < i < |input| :: IsSpace(input[i])
    ensures ParseDocument(input, pos) == Parsed(e, |input|)
  {
    var s := SkipWhitespace(input, r);
    assert SkipWhitespace(input, s + 1) == |input|;
    assert DocumentLoop(input, s + 1, [e]) == Parsed([e], |input|);
    DocumentLoopStep(input, pos, [], e, r);
    assert [] + [e] == [e];
  }

  /** After a first expression and its `;`, the document is whatever the
      loop reads from there on, with that expression in front: it is
      wrapped in a `Sequence` exactly when a second expression follows. */
  lemma {:induction false} DocumentAfterSemicolon(input: seq<byte>, pos: nat, e1: Expr, r1: nat)
    requires pos <= |input|
    requires SkipWhitespace(input, pos) < |input|
    requires ParseExpression(input, SkipWhitespace(input, pos)) == Parsed(e1, r1)
    requires r1 <= |input| && Peek(input, SkipWhitespace(input, r1)) == Some(Semicolon)
    ensures SkipWhitespace(input, r1) < |input| && WellFormed(e1)
    ensures var d := DocumentLoop(input, SkipWhitespace(input, r1) + 1, [e1]);
            && ParseDocument(input, pos) == (if d.Failed? then Failed(d.msg) else Parsed(Wrap(d.value), d.pos))
            && (d.Parsed? ==> |d.value| >= 1 && d.value[0] == e1)
  {
    DocumentLoopStep(input, pos, [], e1, r1);
    assert [] + [e1] == [e1];
  }

  /** A leading `L` always starts a lambda, even when it begins a longer
      word: that branch is tried before the word branch, so such a word
      never starts an expression as a variable, a define or an
      application. */
  lemma LeadingLStartsLambda(input: seq<byte>, pos: nat)
    requires pos <= |input|
    requires Peek(input, SkipWhitespace(input, pos)) == Some(LambdaByte)
    ensures ParseExpression(input, pos) == ParseLambda(input, SkipWhitespace(input, pos))
    ensures var r := ParseExpression(input, pos);
            r.Parsed? ==> r.value.Lambda? && |r.value.params| > 0
  {
  }

  /** The parameters of a lambda must be followed, past any spaces, by `.`. */
  lemma LambdaNeedsDot(input: seq<byte>, q: nat, params: seq<string>, r: nat)
    requires q < |input| && input[q] == LambdaByte
    requires ParseWords(input, SkipWhitespace(input, q + 1)) == Parsed(params, r)
    requires Peek(input, SkipWhitespace(input, r)) != Some(Dot)
    ensures ParseLambda(input, q) == Failed("Expected '.' after lambda params")
  {
  }

  /** Parameters followed, past any spaces, by `.` make a lambda of those
      parameters over whatever the body parse gives, ending where the body
      ends; a body that fails fails the lambda with the body's message. */
  lemma LambdaReadsBody(input: seq<byte>, q: nat, params: seq<string>, r: nat)
    requires q < |input| && input[q] == LambdaByte
    requires ParseWords(input, SkipWhitespace(input, Next(input, q).1)) == Parsed(params, r)
    requires Next(input, SkipWhitespace(input, r)).0 == Some(Dot)
    ensures ParseLambda(input, q)
              == match ParseExpression(input, SkipWhitespace(input, r) + 1)
                 case Failed(m) => Failed(m)
                 case Parsed(body, t) => Parsed(Lambda(params, body), t)
  {
  }

  /** The cursor moves past the byte under it. */
  lemma NextAdvances(input: seq<byte>, q: nat)
    requires q < |input|
    ensures Next(input, q).1 == q + 1
  {
  }

  /** The other way round from `LambdaNeedsDot`: parameters, then `.`
      past any spaces, then a body expression make the lambda of those
      parameters and that body, ending where the body ends. */
  lemma LambdaBuilds(input: seq<byte>, q: nat, params: seq<string>, r: nat, body: Expr, t: nat)
    requires q < |input| && input[q] == LambdaByte
    requires ParseWords(input, SkipWhitespace(input, q + 1)) == Parsed(params, r)
    requires Peek(input, SkipWhitespace(input, r)) == Some(Dot)
    requires ParseExpression(input, SkipWhitespace(input, r) + 1) == Parsed(body, t)
    ensures ParseLambda(input, q) == Parsed(Lambda(params, body), t)
  {
    NextAdvances(input, q);
    NextAdvances(input, SkipWhitespace(input, r));
    LambdaReadsBody(input, q, params, r);
  }

  /** A lambda without any parameter word is an error. */
  lemma LambdaNeedsParameters(input: seq<byte>, q: nat)
    requires q < |input| && input[q] == LambdaByte
    requires var p := SkipWhitespace(input, q + 1);
             p == |input| || !IsWordChar(input[p])
    ensures ParseLambda(input, q) == Failed("Expected at least one word")
  {
  }

  /** A leading word byte other than `L` selects the word branch. */
  lemma LeadingWordByte(input: seq<byte>, pos: nat)
    requires pos <= |input|
    requires var q := SkipWhitespace(input, pos);
             q < |input| && IsWordChar(input[q]) && input[q] != LambdaByte
    ensures ParseExpression(input, pos) == ParseWordExpression(input, SkipWhitespace(input, pos))
  {
  }

  /** A word followed by `=` is a define of that word; the right-hand side
      is a whole expression. */
  lemma WordEqualsIsDefine(input: seq<byte>, q: nat, w: string, r: nat)
    requires q < |input| && IsWordChar(input[q])
    requires ParseWord(input, q) == Parsed(w, r)
    requires Peek(input, SkipWhitespace(input, r)) == Some(Equals)
    ensures var rhs := ParseExpression(input, SkipWhitespace(input, r) + 1);
            ParseWordExpression(input, q)
              == if rhs.Failed? then Failed(rhs.msg) else Parsed(Define(w, rhs.value), rhs.pos)
  {
    NextAdvances(input, SkipWhitespace(input, r));
  }

  /** A word not followed by `=` is a variable applied to zero or more
      arguments, each a whole expression; the application stops, past any
      spaces, at the end of the input or at a byte that cannot start an
      argument. */
  lemma WordWithoutEqualsIsApplication(input: seq<byte>, q: nat, w: string, r: nat)
    requires q < |input| && IsWordChar(input[q])
    requires ParseWord(input, q) == Parsed(w, r)
    requires Peek(input, SkipWhitespace(input, r)) != Some(Equals)
    ensures var res := ParseWordExpression(input, q);
            res.Parsed? ==>
              && AppliedTo(res.value, Var(w))
              && (res.pos == |input| || (!StartsArgument(input[res.pos]) && !IsSpace(input[res.pos])))
  {
  }

  /** Juxtaposition nests to the right: the argument of a word is the
      whole expression that follows it, so `f x y` is `f` applied to
      `x y`. When nothing that can start an argument follows that
      expression, the application ends there. */
  lemma ArgumentIsWholeExpression(input: seq<byte>, q: nat, w: string, r: nat,
                                  right: Expr, t: nat)
    requires q < |input| && IsWordChar(input[q])
    requires ParseWord(input, q) == Parsed(w, r)
    requires var s := SkipWhitespace(input, r);
             s < |input| && input[s] != Equals && StartsArgument(input[s])
    requires ParseExpression(input, SkipWhitespace(input, r)) == Parsed(right, t)
    requires t <= |input|
    requires var u := SkipWhitespace(input, t);
             u == |input| || !StartsArgument(input[u])
    ensures ParseWordExpression(input, q) == Parsed(Apply(Var(w), right), SkipWhitespace(input, t))
  {
    var s := SkipWhitespace(input, r);
    var u := SkipWhitespace(input, t);
    assert ParseWordExpression(input, q) == ApplyLoop(input, s, Var(w));
    assert SkipWhitespace(input, s) == s;
    assert ApplyLoop(input, t, Apply(Var(w), right)) == Parsed(Apply(Var(w), right), u);
    assert ApplyLoop(input, s, Var(w)) == ApplyLoop(input, t, Apply(Var(w), right));
  }

  /** One round of the application loop, whichever round it is: past the
      spaces, a byte that can start an argument makes the whole following
      expression `right` the argument of the accumulated one, and the loop
      carries on after `right` with `Apply(acc, right)`. */
  lemma ApplyLoopStep(input: seq<byte>, pos: nat, acc: Expr, right: Expr, r: nat)
    requires pos <= |input| && WellFormed(acc)
    requires var q := SkipWhitespace(input, pos);
             q < |input| && StartsArgument(input[q])
    requires ParseExpression(input, SkipWhitespace(input, pos)) == Parsed(right, r)
    ensures r <= |input| && WellFormed(Apply(acc, right))
    ensures ApplyLoop(input, pos, acc) == ApplyLoop(input, r, Apply(acc, right))
  {
  }

  /** An argument that fails to parse fails the whole application with its
      own message. */
  lemma ApplyLoopArgumentFails(input: seq<byte>, pos: nat, acc: Expr, m: string)
    requires pos <= |input| && WellFormed(acc)
    requires var q := SkipWhitespace(input, pos);
             q < |input| && StartsArgument(input[q])
    requires ParseExpression(input, SkipWhitespace(input, pos)) == Failed(m)
    ensures ApplyLoop(input, pos, acc) == Failed(m)
  {
  }

  /** A leading `(` selects the parenthesised branch. */
  lemma LeadingParenthesis(input: seq<byte>, pos: nat)
    requires pos <= |input|
    requires Peek(input, SkipWhitespace(input, pos)) == Some(LParen)
    ensures ParseExpression(input, pos) == ParseParenthesised(input, SkipWhitespace(input, pos))
  {
  }

  /** An opening parenthesis must be closed: when the inner document is
      followed, past spaces, by anything but `)`, the parse fails. */
  lemma UnclosedParenthesis(input: seq<byte>, q: nat, e: Expr, r: nat)
    requires q < |input| && input[q] == LParen
    requires ParseDocument(input, q + 1) == Parsed(e, r)
    requires Peek(input, SkipWhitespace(input, r)) != Some(RParen)
    ensures ParseParenthesised(input, q) == Failed("Expected ')'")
  {
  }

  /** A parenthesised document is returned as it is, without a wrapper. */
  lemma ParenthesesAreTransparent(input: seq<byte>, q: nat, e: Expr, r: nat)
    requires q < |input| && input[q] == LParen
    requires ParseDocument(input, q + 1) == Parsed(e, r)
    requires Peek(input, SkipWhitespace(input, r)) == Some(RParen)
    ensures ParseParenthesised(input, q) == Parsed(e, SkipWhitespace(input, r) + 1)
  {
  }

  /** Where a list of parameter words may end: at the end of the input or
      at a byte that is not a word byte. */
  predicate WordsStop(input: seq<byte>, to: nat)
  {
    to == |input| || (to < |input| && !IsWordChar(input[to]))
  }

  /** A word read at `s` is the run of word bytes there: it starts with a
      word byte and ends where `WordEnd` does. */
  lemma WordAt(input: seq<byte>, s: nat, w: string)
    requires s + |w| <= |input| && w == Chars(input[s..s + |w|]) && IsWord(w)
    requires s + |w| == |input| || !IsWordChar(input[s + |w|])
    ensures s < |input| && IsWordChar(input[s])
    ensures WordEnd(input, s) == s + |w|
  {
    forall k | s <= k < s + |w|
      ensures IsWordChar(input[k])
    {
      assert w[k - s] == input[k] as char;
    }
    WordEndAt(input, s, s + |w|);
  }

  /** `WordEnd` stops at the first byte that is not a word byte. */
  lemma {:induction false} WordEndAt(input: seq<byte>, s: nat, e: nat)
    requires s <= e <= |input|
    requires forall k | s <= k < e :: IsWordChar(input[k])
    requires e == |input| || !IsWordChar(input[e])
    ensures WordEnd(input, s) == e
    decreases e - s
  {
    if s < e {
      WordEndAt(input, s + 1, e);
    }
  }

  /** The first word of a reading is the run of word bytes past the
      spaces, and the rest of the reading follows that run. */
  lemma SpacedWordsHead(input: seq<byte>, p: nat, to: nat, ws: seq<string>)
    requires p <= |input| && SpacedWords(input, p, to, ws) && |ws| > 0
    ensures var s := SkipWhitespace(input, p);
            && s < |input| && IsWordChar(input[s])
            && ws[0] == Chars(input[s..WordEnd(input, s)])
            && SpacedWords(input, WordEnd(input, s), to, ws[1..])
  {
    var s := SkipWhitespace(input, p);
    WordAt(input, s, ws[0]);
  }

  /** A reading that stops where a list of words may end is empty exactly
      when no word byte stands past the spaces, and then it ends there. */
  lemma SpacedWordsNone(input: seq<byte>, p: nat, to: nat, ws: seq<string>)
    requires p <= |input| && SpacedWords(input, p, to, ws) && WordsStop(input, to)
    ensures var s := SkipWhitespace(input, p);
            && (|ws| == 0 <==> !(s < |input| && IsWordChar(input[s])))
            && (|ws| == 0 ==> to == s)
  {
    if |ws| > 0 {
      SpacedWordsHead(input, p, to, ws);
    }
  }

  /** Two readings of words from the same cursor that both stop where a
      list of words may end are the same reading. */
  lemma {:induction false} SpacedWordsUnique(input: seq<byte>, p: nat, to1: nat, ws1: seq<string>,
                                             to2: nat, ws2: seq<string>)
    requires p <= |input|
    requires SpacedWords(input, p, to1, ws1) && WordsStop(input, to1)
    requires SpacedWords(input, p, to2, ws2) && WordsStop(input, to2)
    ensures to1 == to2 && ws1 == ws2
    decreases |ws1|
  {
    SpacedWordsNone(input, p, to1, ws1);
    SpacedWordsNone(input, p, to2, ws2);
    if |ws1| > 0 {
      SpacedWordsHead(input, p, to1, ws1);
      SpacedWordsHead(input, p, to2, ws2);
      var e := WordEnd(input, SkipWhitespace(input, p));
      SpacedWordsUnique(input, e, to1, ws1[1..], to2, ws2[1..]);
      assert ws1 == [ws1[0]] + ws1[1..];
      assert ws2 == [ws2[0]] + ws2[1..];
    }
  }

  /** `parse_words` returns `ws`, stopping at `to`, exactly when `ws` is a
      non-empty reading of words from the cursor that stops where a list
      of words may end. */
  lemma ParseWordsIsTheReading(input: seq<byte>, pos: nat, ws: seq<string>, to: nat)
    requires pos <= |input|
    ensures ParseWords(input, pos) == Parsed(ws, to)
            <==> |ws| > 0 && SpacedWords(input, pos, to, ws) && WordsStop(input, to)
  {
    var r := WordsLoop(input, pos, []);
    WordsLoopReads(input, pos, []);
    assert ParseWords(input, pos) == r;
    if r.Parsed? {
      assert r.value[0..] == r.value;
    }
    if |ws| > 0 && SpacedWords(input, pos, to, ws) && WordsStop(input, to) {
      WordAt(input, SkipWhitespace(input, pos), ws[0]);
      SpacedWordsUnique(input, pos, r.pos, r.value, to, ws);
    }
  }
}
