/** The recursive-descent parser of src/parser.rs. It reads the UTF-8 bytes
    of the source through a cursor `pos`; every parsing function here takes
    the cursor it starts from and, on success, returns the cursor it stops
    at. A failure carries only the message: src/parser.rs leaves its cursor
    wherever the failure happened, and nothing reads it afterwards.

    The grammar it accepts:
      document := expr (';' expr)*
      expr     := '(' document ')' | 'L' word+ '.' expr | word '=' expr
                | word atom-expr*          (each atom-expr a whole expr)
      word     := [A-Za-z0-9_]+ */
module Parser {
  import opened Results

  newtype byte = x: int | 0 <= x < 256

  /** The tree this parser builds. It has its own constructors, distinct
      from the interpreter's `Ast.Expr`. */
  datatype Expr =
    | Var(name: string)
    | Lambda(params: seq<string>, body: Expr)
    | Apply(fn: Expr, arg: Expr)
    | Define(name: string, rhs: Expr)
    | Sequence(exprs: seq<Expr>)

  /** A parsing step: the value read and the cursor after it, or a message. */
  datatype Step<+T> = Parsed(value: T, pos: nat) | Failed(msg: string)

  const LParen: byte := 40
  const RParen: byte := 41
  const Dot: byte := 46
  const Semicolon: byte := 59
  const Equals: byte := 61
  const LambdaByte: byte := 76

  /** The bytes `skip_whitespace` consumes: space, newline, carriage return, tab. */
  predicate IsSpace(ch: byte)
  {
    ch == 32 || ch == 10 || ch == 13 || ch == 9
  }

  /** ASCII letters, digits and the underscore. */
  predicate IsWordCharacter(c: char)
  {
    ('a' <= c <= 'z') || ('A' <= c <= 'Z') || ('0' <= c <= '9') || c == '_'
  }

  /** `is_word_char`: the byte read as a character is a word character,
      that is, one of the ASCII codes of `0`-`9`, `A`-`Z`, `_`, `a`-`z`. */
  function IsWordChar(ch: byte): (b: bool)
    ensures b <==> (48 <= ch <= 57 || 65 <= ch <= 90 || ch == 95 || 97 <= ch <= 122)
  {
    IsWordCharacter(ch as char)
  }

  /** A word the parser can produce: non-empty, word characters only. */
  predicate IsWord(w: string)
  {
    |w| > 0 && forall i | 0 <= i < |w| :: IsWordCharacter(w[i])
  }

  /** Bytes read one by one as characters (`ch as char`). */
  function Chars(bs: seq<byte>): (s: string)
    ensures |s| == |bs|
    ensures forall i | 0 <= i < |bs| :: s[i] == bs[i] as char
  {
    seq(|bs|, i requires 0 <= i < |bs| => bs[i] as char)
  }

  /** `peek`: the byte under the cursor, if any. */
  function Peek(input: seq<byte>, pos: nat): (r: Option<byte>)
    ensures r.Some? <==> pos < |input|
    ensures r.Some? ==> r.value == input[pos]
  {
    if pos < |input| then Some(input[pos]) else None
  }

  /** `next`: the byte under the cursor and the advanced cursor. The cursor
      moves by exactly one when there is a byte, and not at all otherwise,
      so it never passes the end of the input. */
  function Next(input: seq<byte>, pos: nat): (r: (Option<byte>, nat))
    ensures r.0 == Peek(input, pos)
    ensures r.0.Some? ==> r.1 == pos + 1
    ensures r.0.None? ==> r.1 == pos
    ensures pos <= |input| ==> r.1 <= |input|
  {
    match Peek(input, pos)
    case Some(ch) => (Some(ch), pos + 1)
    case None => (None, pos)
  }

  /** `skip_whitespace`: the cursor after the run of spaces at `pos`. */
  function SkipWhitespace(input: seq<byte>, pos: nat): (r: nat)
    requires pos <= |input|
    ensures pos <= r <= |input|
    ensures forall i | pos <= i < r :: IsSpace(input[i])
    ensures r == |input| || !IsSpace(input[r])
    decreases |input| - pos
  {
    match Peek(input, pos)
    case Some(ch) => if IsSpace(ch) then SkipWhitespace(input, Next(input, pos).1) else pos
    case None => pos
  }

  /** The end of the run of word bytes starting at `pos`. */
  function WordEnd(input: seq<byte>, pos: nat): (r: nat)
    requires pos <= |input|
    ensures pos <= r <= |input|
    ensures forall i | pos <= i < r :: IsWordChar(input[i])
    ensures r == |input| || !IsWordChar(input[r])
    decreases |input| - pos
  {
    if pos < |input| && IsWordChar(input[pos]) then WordEnd(input, pos + 1) else pos
  }

  /** `parse_word`: the longest run of word bytes at the cursor, which must
      not be empty. */
  function ParseWord(input: seq<byte>, pos: nat): (r: Step<string>)
    requires pos <= |input|
    ensures r.Parsed? <==> pos < |input| && IsWordChar(input[pos])
    ensures r.Failed? ==> r.msg == "Expected word"
    ensures r.Parsed? ==>
              && pos < r.pos <= |input|
              && r.value == Chars(input[pos..r.pos])
              && IsWord(r.value)
              && (r.pos == |input| || !IsWordChar(input[r.pos]))
  {
    var end := WordEnd(input, pos);
    if end == pos then Failed("Expected word") else Parsed(Chars(input[pos..end]), end)
  }

  /** The words `ws` as read from `from`: past any spaces the first word
      stands as a run of word bytes that no word byte follows, the others
      follow it in the same way, and past the spaces after the last one
      stands `to`. */
  predicate SpacedWords(input: seq<byte>, from: nat, to: nat, ws: seq<string>)
    requires from <= |input|
    decreases |ws|
  {
    var s := SkipWhitespace(input, from);
    if |ws| == 0 then to == s
    else
      var e := s + |ws[0]|;
      && e <= |input|
      && ws[0] == Chars(input[s..e])
      && IsWord(ws[0])
      && (e == |input| || !IsWordChar(input[e]))
      && SpacedWords(input, e, to, ws[1..])
  }

  /** Reading one more word in front keeps `SpacedWords`. */
  lemma SpacedWordsCons(input: seq<byte>, pos: nat, w: string, r: nat, to: nat, ws: seq<string>)
    requires pos <= |input|
    requires ParseWord(input, SkipWhitespace(input, pos)) == Parsed(w, r)
    requires SpacedWords(input, r, to, ws)
    ensures SpacedWords(input, pos, to, [w] + ws)
  {
    assert ([w] + ws)[0] == w && ([w] + ws)[1..] == ws;
  }

  /** The loop of `parse_words`, with the words read so far in `acc`: it
      stops past the spaces at a byte that is not a word byte, and fails
      only when it has read no word at all. */
  function WordsLoop(input: seq<byte>, pos: nat, acc: seq<string>): (r: Step<seq<string>>)
    requires pos <= |input|
    requires forall i | 0 <= i < |acc| :: IsWord(acc[i])
    ensures r.Failed? ==> |acc| == 0 && r.msg == "Expected at least one word"
    ensures r.Parsed? ==>
              && pos <= r.pos <= |input|
              && |r.value| > 0
              && (forall i | 0 <= i < |r.value| :: IsWord(r.value[i]))
              && (r.pos == |input| || (!IsWordChar(input[r.pos]) && !IsSpace(input[r.pos])))
    decreases |input| - pos
  {
    var q := SkipWhitespace(input, pos);
    if q < |input| && IsWordChar(input[q]) then
      match ParseWord(input, q)
      case Failed(m) => Failed(m)
      case Parsed(w, r) =>
        WordsLoop(input, r, acc + [w])
    else if |acc| == 0 then Failed("Expected at least one word")
    else Parsed(acc, q)
  }

  /** What `WordsLoop` reads: it keeps the words in `acc` in front and
      adds a reading of words from `pos` to the cursor it stops at. */
  lemma {:induction false} WordsLoopReads(input: seq<byte>, pos: nat, acc: seq<string>)
    requires pos <= |input|
    requires forall i | 0 <= i < |acc| :: IsWord(acc[i])
    ensures var r := WordsLoop(input, pos, acc);
            r.Parsed? ==>
              && |acc| <= |r.value| && r.value[..|acc|] == acc
              && SpacedWords(input, pos, r.pos, r.value[|acc|..])
    decreases |input| - pos
  {
    var q := SkipWhitespace(input, pos);
    if q < |input| && IsWordChar(input[q]) {
      var step := ParseWord(input, q);
      var acc' := acc + [step.value];
      assert forall i | 0 <= i < |acc'| :: IsWord(acc'[i]);
      WordsLoopReads(input, step.pos, acc');
      var res := WordsLoop(input, step.pos, acc');
      if res.Parsed? {
        WordsStep(input, pos, acc, step.value, step.pos, res.value, res.pos);
      }
    } else {
      assert acc[..|acc|] == acc && acc[|acc|..] == [];
    }
  }

  /** The step of `WordsLoop` that reads the word `w`. */
  lemma WordsStep(input: seq<byte>, pos: nat, acc: seq<string>, w: string, r: nat, ws: seq<string>, to: nat)
    requires pos <= |input|
    requires ParseWord(input, SkipWhitespace(input, pos)) == Parsed(w, r)
    requires |acc| + 1 <= |ws| && ws[..|acc| + 1] == acc + [w]
    requires SpacedWords(input, r, to, ws[|acc| + 1..])
    ensures ws[..|acc|] == acc
    ensures SpacedWords(input, pos, to, ws[|acc|..])
  {
    var n := |acc|;
    assert ws[..n] == (acc + [w])[..n] == acc;
    assert ws[n] == (ws[..n + 1])[n] == w;
    assert ws[n..] == [w] + ws[n + 1..];
    SpacedWordsCons(input, pos, w, r, to, ws[n + 1..]);
  }

  /** `parse_words`: one or more words separated by spaces. */
  function ParseWords(input: seq<byte>, pos: nat): (r: Step<seq<string>>)
    requires pos <= |input|
    ensures r.Parsed? <==>
              var q := SkipWhitespace(input, pos); q < |input| && IsWordChar(input[q])
    ensures r.Failed? ==> r.msg == "Expected at least one word"
    ensures r.Parsed? ==>
              && pos < r.pos <= |input|
              && |r.value| > 0
              && (forall i | 0 <= i < |r.value| :: IsWord(r.value[i]))
              && (r.pos == |input| || (!IsWordChar(input[r.pos]) && !IsSpace(input[r.pos])))
  {
    WordsLoop(input, pos, [])
  }

  /** What the parser produces: every name is a word, every lambda has at
      least one parameter, and a sequence never holds exactly one element
      (a lone expression is returned unwrapped). */
  predicate WellFormed(e: Expr)
  {
    match e
    case Var(name) => IsWord(name)
    case Lambda(params, body) =>
      && |params| > 0
      && (forall i | 0 <= i < |params| :: IsWord(params[i]))
      && WellFormed(body)
    case Apply(fn, arg) => WellFormed(fn) && WellFormed(arg)
    case Define(name, rhs) => IsWord(name) && WellFormed(rhs)
    case Sequence(exprs) => |exprs| != 1 && forall i | 0 <= i < |exprs| :: WellFormed(exprs[i])
  }

  /** Bytes that make the application loop read one more argument. */
  predicate StartsArgument(ch: byte)
  {
    IsWordChar(ch) || ch == LambdaByte || ch == LParen
  }

  /** `e` is `head` applied to zero or more further arguments. */
  predicate AppliedTo(e: Expr, head: Expr)
  {
    e == head || (e.Apply? && AppliedTo(e.fn, head))
  }

  /** An application of `Apply(head, arg)` is also an application of `head`. */
  lemma {:induction false} AppliedToApply(e: Expr, head: Expr, arg: Expr)
    requires AppliedTo(e, Apply(head, arg))
    ensures AppliedTo(e, head)
  {
    if e != Apply(head, arg) {
      AppliedToApply(e.fn, head, arg);
    }
  }

  /** `parse_expression`: past the spaces, the first byte selects the
      branch, `(` first, then `L`, then any other word byte. A successful
      parse consumes at least one byte. */
  function ParseExpression(input: seq<byte>, pos: nat): (r: Step<Expr>)
    requires pos <= |input|
    ensures r.Parsed? ==> pos < r.pos <= |input| && WellFormed(r.value)
    ensures var q := SkipWhitespace(input, pos);
            && (q == |input| ==> r == Failed("Unexpected end of input"))
            && (q < |input| && !(input[q] == LParen || input[q] == LambdaByte || IsWordChar(input[q])) ==>
                  r == Failed("Unexpected character"))
    decreases |input| - pos, 3
  {
    var q := SkipWhitespace(input, pos);
    match Peek(input, q)
    case None => Failed("Unexpected end of input")
    case Some(ch) =>
      if ch == LParen then ParseParenthesised(input, q)
      else if ch == LambdaByte then ParseLambda(input, q)
      else if IsWordChar(ch) then ParseWordExpression(input, q)
      else Failed("Unexpected character")
  }

  /** The `(` branch: a whole document, then `)`. */
  function ParseParenthesised(input: seq<byte>, q: nat): (r: Step<Expr>)
    requires q < |input| && input[q] == LParen
    ensures r.Parsed? ==> q < r.pos <= |input| && WellFormed(r.value)
    decreases |input| - q, 2
  {
    match ParseDocument(input, Next(input, q).1)
    case Failed(m) => Failed(m)
    case Parsed(e, r) =>
      var s := SkipWhitespace(input, r);
      if Next(input, s).0 != Some(RParen) then Failed("Expected ')'")
      else Parsed(e, s + 1)
  }

  /** The `L` branch: one or more parameter words, `.`, and the body, a
      whole expression. */
  function ParseLambda(input: seq<byte>, q: nat): (r: Step<Expr>)
    requires q < |input| && input[q] == LambdaByte
    ensures r.Parsed? ==> q < r.pos <= |input| && WellFormed(r.value) && r.value.Lambda?
    decreases |input| - q, 2
  {
    match ParseWords(input, SkipWhitespace(input, Next(input, q).1))
    case Failed(m) => Failed(m)
    case Parsed(params, r) =>
      var s := SkipWhitespace(input, r);
      if Next(input, s).0 != Some(Dot) then Failed("Expected '.' after lambda params")
      else
        match ParseExpression(input, s + 1)
        case Failed(m) => Failed(m)
        case Parsed(body, t) => Parsed(Lambda(params, body), t)
  }

  /** The word branch: `word = expr` is a define; otherwise the word is a
      variable, applied to whatever arguments follow it. */
  function ParseWordExpression(input: seq<byte>, q: nat): (r: Step<Expr>)
    requires q < |input| && IsWordChar(input[q])
    ensures r.Parsed? ==> q < r.pos <= |input| && WellFormed(r.value)
    decreases |input| - q, 2
  {
    match ParseWord(input, q)
    case Failed(m) => Failed(m)
    case Parsed(first, r) =>
      var s := SkipWhitespace(input, r);
      if Peek(input, s) == Some(Equals) then
        match ParseExpression(input, Next(input, s).1)
        case Failed(m) => Failed(m)
        case Parsed(rhs, t) => Parsed(Define(first, rhs), t)
      else
        ApplyLoop(input, s, Var(first))
  }

  /** The juxtaposition loop of `parse_expression`: while the next byte
      can start an expression, parse a whole expression and apply the
      accumulated one to it. It stops, past any spaces, at the end of the
      input or at a byte that cannot start an argument. */
  function ApplyLoop(input: seq<byte>, pos: nat, acc: Expr): (r: Step<Expr>)
    requires pos <= |input|
    requires WellFormed(acc)
    ensures r.Parsed? ==>
              && pos <= r.pos <= |input|
              && WellFormed(r.value)
              && AppliedTo(r.value, acc)
              && (r.pos == |input| || (!StartsArgument(input[r.pos]) && !IsSpace(input[r.pos])))
    decreases |input| - pos, 4
  {
    var q := SkipWhitespace(input, pos);
    match Peek(input, q)
    case Some(ch) =>
      if StartsArgument(ch) then
        match ParseExpression(input, q)
        case Failed(m) => Failed(m)
        case Parsed(right, r) =>
          var res := ApplyLoop(input, r, Apply(acc, right));
          if res.Parsed? then AppliedToApply(res.value, acc, right); res else res
      else Parsed(acc, q)
    case None => Parsed(acc, q)
  }

  /** The loop of `parse_document`, with the expressions read so far in
      `acc`. It stops at the end of the input or, past the spaces after an
      expression, at the first byte that is not `;`. */
  function DocumentLoop(input: seq<byte>, pos: nat, acc: seq<Expr>): (r: Step<seq<Expr>>)
    requires pos <= |input|
    requires forall i | 0 <= i < |acc| :: WellFormed(acc[i])
    ensures r.Parsed? ==>
              && pos <= r.pos <= |input|
              && |r.value| >= |acc| && (forall i | 0 <= i < |acc| :: r.value[i] == acc[i])
              && (forall i | 0 <= i < |r.value| :: WellFormed(r.value[i]))
              && (r.pos == |input| || (input[r.pos] != Semicolon && !IsSpace(input[r.pos])))
    decreases |input| - pos, 4
  {
    var q := SkipWhitespace(input, pos);
    if q >= |input| then Parsed(acc, q)
    else
      match ParseExpression(input, q)
      case Failed(m) => Failed(m)
      case Parsed(e, r) =>
        var s := SkipWhitespace(input, r);
        if Peek(input, s) == Some(Semicolon) then DocumentLoop(input, s + 1, acc + [e])
        else Parsed(acc + [e], s)
  }

  /** How `parse_document` packs what it read: a lone expression is
      returned as it is; none, or two or more, are wrapped in a `Sequence`. */
  function Wrap(es: seq<Expr>): (e: Expr)
    ensures |es| == 1 ==> e == es[0]
    ensures |es| != 1 ==> e == Sequence(es)
    ensures (forall i | 0 <= i < |es| :: WellFormed(es[i])) ==> WellFormed(e)
  {
    if |es| == 1 then es[0] else Sequence(es)
  }

  /** `parse_document`. */
  function ParseDocument(input: seq<byte>, pos: nat): (r: Step<Expr>)
    requires pos <= |input|
    ensures r.Parsed? ==> pos <= r.pos <= |input| && WellFormed(r.value)
    decreases |input| - pos, 5
  {
    match DocumentLoop(input, pos, [])
    case Failed(m) => Failed(m)
    case Parsed(es, r) => Parsed(Wrap(es), r)
  }

  /** `Parser::new(..).parse()`: the whole input from its first byte. Bytes
      left over after the document are ignored. */
  function Parse(input: seq<byte>): (r: Result<Expr>)
    ensures r.Ok? ==> WellFormed(r.value)
  {
    match ParseDocument(input, 0)
    case Failed(m) => Err(m)
    case Parsed(e, _) => Ok(e)
  }
}
