# lintre core, modelled in Dafny

lintre is a small interpreter for an untyped lambda-calculus notation: a
lexer turns text into tokens, a recursive-descent parser turns the bytes
of a program into an expression tree, and a tree-walking evaluator
reduces an expression to a value under a mutable environment. This
project models those three pieces as pure Dafny functions and proves
what they promise.

- `results.dfy`: `Result` (`Ok`/`Err` with a message string) and `Option`.
- `ast.dfy`: the evaluator's `Expr` (`Word`, `Function`, `Define`,
  `Sequence`), its size (the evaluator's termination measure) and the
  names an expression may define.
- `interpreter.dfy`: `Value` (`Word`, `Closure` with a captured
  environment), `Env` as `map<string, Value>`, and `Eval`, which returns
  the result together with the environment the interpreter is left with.
- `interpreter_laws.dfy`: what each kind of expression does, and how
  sequences compose.
- `parser.dfy`: the parser over `seq<byte>` with an explicit cursor. It
  has its own `Expr` (`Var`, `Lambda`, `Apply`, `Define`, `Sequence`),
  because the constructors it builds are not those of `src/ast.rs`. Each
  parsing function returns `Parsed(value, cursor)` or `Failed(message)`.
- `parser_laws.dfy`: how a document is wrapped, which branch the first
  byte selects, what each branch does, and which words `parse_words`
  reads.
- `tokenizer.dfy`, `tokenizer_laws.dfy`: the lexer and its contracts.
  Concatenating the token texts gives the input without its whitespace,
  and the token list is the one way to read the input as well-formed
  tokens, each word or lambda token ending where no word character
  follows it (`Segmented`).

The evaluator computes what `src/interpreter.rs` computes, and no more.
It has no application case, no substitution and no divergence guard.
Defines inside a sequence are never undone. The only values it can
produce are closures. `Sequence([])` is the error `"Empty sequence"`, and
a define inside a sequence stays bound after it.

As written, the source does not fit together. `src/parser.rs` builds
`Expr::Var`, `Expr::Lambda` and `Expr::Apply`, which `src/ast.rs` does not
declare. `src/tokenizer.rs` is not declared as a module in `src/main.rs`.
So the three pieces are modelled separately, each as its own code reads.
Parser output is never fed to the evaluator.

Two character classes come from Rust's standard library.
`char::is_whitespace` is the fixed Unicode White_Space list, and it is
written out. `char::is_alphanumeric` is a parameter of the lexer. It is
constrained by `AlphanumericFacts` to agree with ASCII letters and digits
on ASCII, and to never hold of whitespace. Both facts hold of the real
function.

## Model

| member | source | states |
|---|---|---|
| Interpreter.New | src/interpreter.rs:17-19 | a new interpreter starts with no bindings |
| Interpreter.Eval | src/interpreter.rs:21-41 | evaluation never removes a binding; a name changes only if a define evaluated inside the expression targets it; from an environment of closures, every result and every binding afterwards is a closure |
| Interpreter.EvalSeq | src/interpreter.rs:34-40 | the loop over a sequence never removes a binding; it changes only names its elements define; it keeps the closure-only invariant |
| InterpreterLaws.EvalWordLooksUp | src/interpreter.rs:23-25 | a word yields exactly its binding and leaves the environment unchanged; it succeeds iff the name is bound, else fails with `Unbound variable: <name>` |
| InterpreterLaws.EvalFunctionCaptures | src/interpreter.rs:26-28 | a function expression never fails and changes nothing; its closure captures the current environment |
| InterpreterLaws.EvalDefineBinds | src/interpreter.rs:29-33 | a failing body's outcome is passed on unchanged; on success the define returns the body's value and binds the name to it, overwriting any earlier binding; no other name changes from the post-body environment |
| InterpreterLaws.ClosureIsSnapshot | src/interpreter.rs:26-33 | a closure stored by a define still carries the environment of its creation after a later define rebinds another name |
| InterpreterLaws.EvalEmptySequence | src/interpreter.rs:34-39 | the empty sequence fails with `Empty sequence` and changes nothing |
| InterpreterLaws.EvalSingleton | src/interpreter.rs:34-39 | a one-element sequence behaves exactly like its element |
| InterpreterLaws.SequenceSplit | src/interpreter.rs:34-38 | sequences evaluate left to right and thread the environment: `a + b` is `a`, then `b` in the environment `a` left, unless `a` failed |
| InterpreterLaws.FirstErrorAborts | src/interpreter.rs:34-38 | the first failing element decides the outcome of the whole sequence, error and environment alike; bindings made before it are kept |
| InterpreterLaws.SequenceReturnsLast | src/interpreter.rs:34-39 | a successful sequence returns its last element's value, evaluated after all the others succeeded |
| InterpreterLaws.DefinitionsPersist | src/interpreter.rs:29-40 | a define that succeeded inside a sequence stays bound after the sequence, whether or not later elements fail |
| InterpreterLaws.FreshInterpreterYieldsClosures | src/interpreter.rs:5-41 | from a fresh interpreter every result and binding is a closure, so `Value::Word` is never produced |
| Parser.IsWordChar | src/parser.rs:155-157 | holds exactly of the ASCII codes of digits, upper- and lower-case letters and `_` |
| Parser.Peek | src/parser.rs:16-18 | yields a byte exactly when the cursor is inside the input, and then the byte under it |
| Parser.Next | src/parser.rs:20-24 | yields what `peek` yields; the cursor moves by one exactly when there is a byte, so it never passes the end |
| Parser.SkipWhitespace | src/parser.rs:26-34 | consumes exactly the maximal run of space, newline, carriage return and tab bytes |
| Parser.ParseWord | src/parser.rs:137-157 | succeeds iff the cursor is on `[A-Za-z0-9_]`; the result is the maximal such run, read as characters; otherwise it fails with `Expected word` |
| Parser.WordsLoop | src/parser.rs:117-134 | the word loop yields one or more words, each a word, and stops past spaces at a byte that is no word byte; with nothing read it fails with `Expected at least one word` |
| Parser.WordsLoopReads | src/parser.rs:117-129 | the loop keeps the words already read in front and adds, in order, the maximal runs of word bytes it finds past spaces, ending past the spaces after the last one |
| Parser.ParseWords | src/parser.rs:116-135 | succeeds iff a word byte follows the spaces; the result is a non-empty list of words |
| ParserLaws.ParseWordsIsTheReading | src/parser.rs:116-152 | returns `ws` stopping at `to` iff `ws` is non-empty, each word is the maximal run of word bytes past the spaces after the previous one, and `to` is past the spaces after the last, at the end or at a byte that is no word byte |
| ParserLaws.SpacedWordsUnique | src/parser.rs:116-152 | two such readings of words from one cursor that both stop at the end or at a non-word byte are the same words, stopping at the same cursor |
| Parser.ParseExpression | src/parser.rs:63-114 | a successful parse consumes at least one byte and is well formed; end of input fails with `Unexpected end of input`; a byte that starts nothing fails with `Unexpected character` |
| Parser.ParseParenthesised | src/parser.rs:66-74 | the parenthesised branch consumes at least one byte and yields a well-formed tree |
| Parser.ParseLambda | src/parser.rs:75-85 | the `L` branch yields only lambdas, with at least one parameter |
| Parser.ParseWordExpression | src/parser.rs:86-110 | the word branch consumes at least one byte and yields a well-formed tree |
| Parser.ApplyLoop | src/parser.rs:94-108 | the result is the accumulated expression applied to zero or more arguments; it stops past spaces at the end or at a byte that cannot start an argument |
| Parser.Wrap | src/parser.rs:56-60 | one expression is returned unwrapped, any other number wrapped in `Sequence`; wrapping well-formed expressions gives a well-formed tree, never a one-element sequence |
| Parser.DocumentLoop | src/parser.rs:41-55 | keeps the expressions already read, in order; stops at the end or at a byte other than `;` |
| Parser.ParseDocument | src/parser.rs:40-61 | a successful document is well formed: names are words, lambdas have parameters, no sequence has exactly one element |
| Parser.Parse | src/parser.rs:36-38 | a successful parse of the whole input is well formed |
| ParserLaws.BlankDocumentIsEmptySequence | src/parser.rs:40-61 | a blank remainder is `Sequence([])`, read to the end |
| ParserLaws.BlankInputParsesToEmptySequence | src/parser.rs:36-61 | an empty or whitespace-only program parses to `Sequence([])` |
| ParserLaws.DocumentLoopStep | src/parser.rs:42-55 | one round of the document loop reads an expression, then continues after `;` or stops |
| ParserLaws.DocumentLoopStops | src/parser.rs:47-54 | an expression not followed by `;` is the last one read |
| ParserLaws.SingleExpressionUnwrapped | src/parser.rs:40-61 | a lone expression is the document itself; input left after it is not an error |
| ParserLaws.TrailingSemicolonAccepted | src/parser.rs:42-57 | a `;` followed only by spaces after the last expression is accepted |
| ParserLaws.DocumentAfterSemicolon | src/parser.rs:42-60 | after `expr ;` the document starts with that expression; it is wrapped in `Sequence` exactly when more follow |
| ParserLaws.LeadingLStartsLambda | src/parser.rs:75-86 | a leading `L` always takes the lambda branch, so a word starting with `L` never begins an expression as a variable |
| ParserLaws.LambdaNeedsDot | src/parser.rs:78-82 | parameters not followed by `.` fail with `Expected '.' after lambda params` |
| ParserLaws.LambdaReadsBody | src/parser.rs:75-85 | parameters followed by `.` make the lambda of those parameters over the body expression after the `.`, ending where the body ends; a failing body fails the lambda with its message |
| ParserLaws.LambdaBuilds | src/parser.rs:75-85 | parameters, `.` and a body that parses make `Lambda(params, body)`, with the cursor where the body ends |
| ParserLaws.LambdaNeedsParameters | src/parser.rs:116-134 | a lambda with no parameter word fails with `Expected at least one word` |
| ParserLaws.LeadingWordByte | src/parser.rs:86 | a word byte other than `L` selects the word branch |
| ParserLaws.WordEqualsIsDefine | src/parser.rs:87-92 | a word followed by `=` is `Define(word, rhs)`, where rhs is a whole expression |
| ParserLaws.WordWithoutEqualsIsApplication | src/parser.rs:93-108 | a word not followed by `=` is that variable applied to zero or more arguments |
| ParserLaws.ApplyLoopStep | src/parser.rs:95-107 | in any round of the application loop, a byte past the spaces that can start an argument makes the whole following expression the argument, and the loop continues after it from `Apply(acc, right)`, so `f (g) h` is `Apply(Apply(f, g), h)` |
| ParserLaws.ApplyLoopArgumentFails | src/parser.rs:95-107 | an argument that fails to parse fails the whole application with the argument's own message |
| ParserLaws.ArgumentIsWholeExpression | src/parser.rs:94-108 | the argument of a word is the whole expression after it, so `f x y` nests to the right as `Apply(f, Apply(x, y))` |
| ParserLaws.LeadingParenthesis | src/parser.rs:66 | a leading `(` selects the parenthesised branch |
| ParserLaws.UnclosedParenthesis | src/parser.rs:66-72 | a document not followed by `)` fails with `Expected ')'` |
| ParserLaws.ParenthesesAreTransparent | src/parser.rs:66-73 | a parenthesised document is returned as it is, cursor after `)` |
| Tokenizer.WordToken | src/tokenizer.rs:32-36 | a word becomes a token that spells it: `Lambda` exactly for the text `L`, otherwise `Word` of the same text |
| Tokenizer.ReadWord | src/tokenizer.rs:24-36 | reads a non-empty word with no whitespace; the token is `Lambda` only for a lone `L`; the next character is not alphanumeric or `_` |
| Tokenizer.LexFrom | src/tokenizer.rs:16-40 | the loop's tokens spell the rest of the input without whitespace and are well formed; a failure names a character that cannot start a token |
| Tokenizer.LexFromSegments | src/tokenizer.rs:16-40 | on success the tokens read before come first and the new ones are a reading of the rest of the input, token by token past whitespace; on failure the rest reads as tokens up to a character that cannot start a token, and the message names that character |
| Tokenizer.Tokenize | src/tokenizer.rs:12-43 | on success the tokens, in order, spell the input without whitespace, are well formed (word tokens non-empty and never the lone `L`) and are a reading of the whole input; on failure the input reads as tokens up to a character that cannot start a token, which the message names |
| TokenizerLaws.TokenAtStart | src/tokenizer.rs:19-36 | a well-formed token spelled where a token starts, with no word character after a word, is the token the loop makes there: that punctuation token or the word it reads |
| TokenizerLaws.SpelledAtUnique | src/tokenizer.rs:19-36 | at most one such token is spelled at a position |
| TokenizerLaws.ReadingUnique | src/tokenizer.rs:16-40 | two readings from one position that both stop at the end or at a character that cannot start a token are the same tokens, stopping at the same place |
| TokenizerLaws.TokenizeFollowsSegmentation | src/tokenizer.rs:12-43 | any reading of the whole input into well-formed tokens, each word ending where no word character follows, is exactly what the lexer returns |
| TokenizerLaws.TokenizeRejectsAtTokenStart | src/tokenizer.rs:16-40 | when the input reads as tokens up to a character that cannot start a token, the lexer fails naming that very character |
| TokenizerLaws.TokenizeIsTheSegmentation | src/tokenizer.rs:12-43 | the lexer returns `Ok(ts)` iff `ts` is a reading of the whole input |
| TokenizerLaws.WhitespaceOnlyYieldsNoTokens | src/tokenizer.rs:16-18 | an input of whitespace only yields `Ok([])` |
| TokenizerLaws.TokenizedCharacters | src/tokenizer.rs:16-40 | after a successful call, every input character is whitespace, punctuation or a word character |
| TokenizerLaws.AsciiAcceptance | src/tokenizer.rs:16-40 | on ASCII input the call succeeds iff every character is whitespace, punctuation, or a letter, digit or `_` |
| TokenizerLaws.PunctuationTokenPerCharacter | src/tokenizer.rs:19-23 | there are as many `(`, `)`, `;`, `=`, `.` tokens as such characters |
| TokenizerLaws.LoneLIsLambda | src/tokenizer.rs:32-33 | the input `L` is the single token `Lambda` |
| TokenizerLaws.LongerLWordIsWord | src/tokenizer.rs:24-36 | the input `Lx` is the single token `Word("Lx")` |

## Left out

- `src/main.rs` is left out: argument checks, reading the file, printing and the panics of `expect` are I/O.
- The `&str` to UTF-8 bytes step of `Parser::new` is left out: the parser starts from a byte sequence.
- After a parse error the cursor of src/parser.rs is left wherever the error happened. Nothing reads it afterwards, so `Failed` carries only the message.
- The `usize` cursor is an unbounded `nat`. It never exceeds the input length, so it cannot overflow.
- `HashMap` hashing and iteration order are left out: the environment is a finite map, and only lookups and inserts are used.
- `char::is_alphanumeric` is not written out (it is the whole Unicode Alphabetic and Numeric classes). The lexer takes it as a parameter that satisfies `AlphanumericFacts`.
- Cloning and ownership in the evaluator are left out: values are immutable, so a clone is the value itself.
- The source has no application, beta-reduction, substitution, currying, `Unit` value, scope restoration or divergence guard, so the model has none either.
- Tokenizer.LexFrom: its own failure clause says only that the message names some character that cannot start a token. Which one is stated by `LexFromSegments`, and for the whole input by `TokenizerLaws.TokenizeRejectsAtTokenStart`.
- Parser.WordsLoop: its own contract gives the shape of the result only. The words themselves are stated by `Parser.WordsLoopReads`, and for `parse_words` by `ParserLaws.ParseWordsIsTheReading`.
- Recursion depth is left out: `eval`, `parse_expression` and `parse_document` recurse once per nesting level, so deeply nested input overflows the native stack and aborts the process; the Dafny functions have no stack and always return a value.
