/** The scanner of the metadata compiler (src/compiler/meta_compiler.cpp:38-250).

    A source text is a `string`: one `char` per byte, classified as in the "C" locale.
    The first part specifies scanning as functions of a text and a position in it. The class
    `Scanner` is the scanner itself, a cursor moved by nested loops, and is proved to compute
    those functions. The main theorems are `LexRespaced` and `LexPrintStable`: the tokens of any
    text, printed with any trivia between them, are scanned again as the same tokens. */
module Lexer {

  datatype Kind =
    | ClassDef | StructDef | NamespaceDef
    | Colon | Comma | LBrace | RBrace | LParen | RParen
    | LAngle | RAngle | LBracket | RBracket
    | Template | AlignAs | AlignOf | RegisterContext
    | SemiColon | Identifier
    | Public | Private | Protected | Virtual
    | EndOfStream | Unknown | ScopeResolution | StringLiteral

  datatype Token = Token(kind: Kind, payload: string)

  const END := Token(EndOfStream, "")

  predicate IsSpace(c: char) {
    c == ' ' || c == '\t' || c == '\n' || c == '\r' || c == '\U{0b}' || c == '\U{0c}'
  }

  predicate IsIdentChar(c: char) {
    'a' <= c <= 'z' || 'A' <= c <= 'Z' || '0' <= c <= '9' || c == '_'
  }

  // ---------------------------------------------------------------- trivia

  /** The next newline at or after `i`, or the end of the text. */
  function LineEnd(s: string, i: nat): (e: nat)
    requires i <= |s|
    ensures i <= e <= |s|
    decreases |s| - i
  {
    if i == |s| || s[i] == '\n' then i else LineEnd(s, i + 1)
  }

  /** The end of a block comment whose opening is behind; the end of the text if it is never closed. */
  function CommentEnd(s: string, i: nat): (e: nat)
    requires i <= |s|
    ensures i <= e <= |s|
    decreases |s| - i
  {
    if i + 1 >= |s| then |s|
    else if s[i] == '*' && s[i + 1] == '/' then i + 2
    else CommentEnd(s, i + 1)
  }

  /** The next position in a preprocessor line: a backslash takes the line break behind it along. */
  function DirectiveNext(s: string, i: nat): (e: nat)
    requires i < |s|
    ensures i < e <= |s|
  {
    if s[i] != '\\' then i + 1
    else
      var j := if i + 1 < |s| && s[i + 1] == '\r' then i + 2 else i + 1;
      if j < |s| && s[j] == '\n' then j + 1 else j
  }

  /** The end of a preprocessor line with its continuation lines. */
  function DirectiveEnd(s: string, i: nat): (e: nat)
    requires i <= |s|
    ensures i <= e <= |s|
    decreases |s| - i
  {
    if i == |s| || s[i] == '\n' then i else DirectiveEnd(s, DirectiveNext(s, i))
  }

  predicate Opens(s: string, i: nat, second: char) {
    i + 1 < |s| && s[i] == '/' && s[i + 1] == second
  }

  /** The scanner stops skipping here: the text ends or a token starts. */
  predicate AtToken(s: string, i: nat) {
    i >= |s| || (!IsSpace(s[i]) && s[i] != '#' && !Opens(s, i, '/') && !Opens(s, i, '*'))
  }

  /** The end of the piece of trivia that starts at `i`. */
  function PieceEnd(s: string, i: nat): (e: nat)
    requires !AtToken(s, i)
    ensures i < e <= |s|
  {
    if IsSpace(s[i]) then i + 1
    else if Opens(s, i, '/') then LineEnd(s, i + 1)
    else if Opens(s, i, '*') then CommentEnd(s, i + 2)
    else DirectiveEnd(s, i + 1)
  }

  /** Past whitespace, comments and preprocessor lines. */
  function TriviaEnd(s: string, i: nat): (e: nat)
    requires i <= |s|
    ensures i <= e <= |s| && AtToken(s, e)
    decreases |s| - i
  {
    if AtToken(s, i) then i else TriviaEnd(s, PieceEnd(s, i))
  }

  // ---------------------------------------------------------------- tokens

  function IdentEnd(s: string, i: nat): (e: nat)
    requires i <= |s|
    ensures i <= e <= |s|
    decreases |s| - i
  {
    if i == |s| || !IsIdentChar(s[i]) then i else IdentEnd(s, i + 1)
  }

  /** Past the closing quote of a literal whose opening quote is behind; the end of the text
      if the literal is never closed. */
  function QuotedEnd(s: string, i: nat, quote: char): (e: nat)
    requires i <= |s|
    ensures i <= e <= |s|
    decreases |s| - i
  {
    if i == |s| then i
    else if s[i] == quote then i + 1
    else if s[i] == '\\' then (if i + 1 == |s| then i + 1 else QuotedEnd(s, i + 2, quote))
    else QuotedEnd(s, i + 1, quote)
  }

  /** The next `c` at or after `i`, or the end of the text. */
  function IndexFrom(s: string, i: nat, c: char): (e: nat)
    requires i <= |s|
    ensures i <= e <= |s|
    decreases |s| - i
  {
    if i == |s| || s[i] == c then i else IndexFrom(s, i + 1, c)
  }

  predicate MarkerAt(s: string, i: nat, marker: string) {
    i + |marker| <= |s| && s[i..i + |marker|] == marker
  }

  /** Past the first marker at or after `i`, or the end of the text. */
  function MarkerEnd(s: string, i: nat, marker: string): (e: nat)
    requires i <= |s|
    ensures i <= e <= |s|
    decreases |s| - i
  {
    if MarkerAt(s, i, marker) then i + |marker|
    else if i == |s| then i
    else MarkerEnd(s, i + 1, marker)
  }

  predicate IsRawPrefix(word: string) {
    word == "R" || word == "uR" || word == "UR" || word == "LR" || word == "u8R"
  }

  function EndMarker(delimiter: string): (m: string)
    ensures |m| == |delimiter| + 2
  {
    ")" + delimiter + "\""
  }

  /** The end of a raw string whose opening quote is behind: delimiter, parenthesis, text and
      end marker; the end of the text if it is never closed. */
  function RawEnd(s: string, i: nat): (e: nat)
    requires i <= |s|
    ensures i <= e <= |s|
  {
    var d := IndexFrom(s, i, '(');
    if d == |s| then d else MarkerEnd(s, d + 1, EndMarker(s[i..d]))
  }

  function WordKind(word: string): (k: Kind)
    ensures k != EndOfStream
  {
    if word == "class" then ClassDef
    else if word == "struct" then StructDef
    else if word == "namespace" then NamespaceDef
    else if word == "public" then Public
    else if word == "private" then Private
    else if word == "protected" then Protected
    else if word == "virtual" then Virtual
    else if word == "REGISTER_CONTEXT" then RegisterContext
    else if word == "template" then Template
    else if word == "alignas" then AlignAs
    else if word == "alignof" then AlignOf
    else Identifier
  }

  function PunctuationKind(c: char): (k: Kind)
    ensures k != EndOfStream && k != Identifier
  {
    match c
    case ':' => Colon
    case ',' => Comma
    case '(' => LParen
    case ')' => RParen
    case '<' => LAngle
    case '>' => RAngle
    case ';' => SemiColon
    case '{' => LBrace
    case '}' => RBrace
    case '[' => LBracket
    case ']' => RBracket
    case _ => Unknown
  }

  predicate IsQuote(c: char) { c == '"' || c == '\'' }

  predicate DoubleColon(s: string, i: nat) { i + 1 < |s| && s[i] == ':' && s[i + 1] == ':' }

  predicate StartsRaw(s: string, i: nat)
    requires i <= |s|
  {
    var e := IdentEnd(s, i);
    e < |s| && s[e] == '"' && IsRawPrefix(s[i..e])
  }

  /** The end of the token that starts at `i`. */
  function TokenEnd(s: string, i: nat): (e: nat)
    requires i < |s|
    ensures i < e <= |s|
  {
    if DoubleColon(s, i) then i + 2
    else if IsQuote(s[i]) then QuotedEnd(s, i + 1, s[i])
    else if IsIdentChar(s[i]) then
      var e := IdentEnd(s, i);
      if StartsRaw(s, i) then RawEnd(s, e + 1) else e
    else i + 1
  }

  /** The kind of the token that starts at `i`. */
  function TokenKind(s: string, i: nat): (k: Kind)
    requires i < |s|
    ensures k != EndOfStream
  {
    if DoubleColon(s, i) then ScopeResolution
    else if IsQuote(s[i]) then StringLiteral
    else if IsIdentChar(s[i]) then
      if StartsRaw(s, i) then StringLiteral else WordKind(s[i..IdentEnd(s, i)])
    else PunctuationKind(s[i])
  }

  function TokenAt(s: string, i: nat): Token
    requires i < |s|
  {
    Token(TokenKind(s, i), s[i..TokenEnd(s, i)])
  }

  /** The tokens from position `i` on, in order. */
  function LexFrom(s: string, i: nat): (ts: seq<Token>)
    requires i <= |s|
    decreases |s| - i
  {
    var j := TriviaEnd(s, i);
    if j == |s| then [] else [TokenAt(s, j)] + LexFrom(s, TokenEnd(s, j))
  }

  /** All tokens of a text. */
  function Lex(s: string): seq<Token> { LexFrom(s, 0) }

  // ---------------------------------------------------------------- texts that agree

  /** Between `lo` and `hi` the text `s` reads the same as `u` does, `delta` further on. */
  predicate Same(s: string, u: string, lo: int, hi: int, delta: int) {
    0 <= lo <= hi <= |s| && 0 <= lo + delta && hi + delta <= |u| &&
    forall k :: lo <= k < hi ==> s[k] == u[k + delta]
  }

  /** From `i` on the two texts are the same. */
  predicate SameTail(s: string, u: string, i: int, delta: int) {
    Same(s, u, i, |s|, delta) && |u| == |s| + delta
  }

  lemma {:induction false} LineShift(s: string, u: string, i: nat, delta: int)
    requires SameTail(s, u, i, delta)
    ensures LineEnd(u, i + delta) == LineEnd(s, i) + delta
    decreases |s| - i
  {
    if i == |s| {
    } else {
      LineShift(s, u, i + 1, delta);
    }
  }

  lemma {:induction false} CommentShift(s: string, u: string, i: nat, delta: int)
    requires SameTail(s, u, i, delta)
    ensures CommentEnd(u, i + delta) == CommentEnd(s, i) + delta
    decreases |s| - i
  {
    if i + 1 >= |s| {
    } else {
      CommentShift(s, u, i + 1, delta);
    }
  }

  lemma NextShift(s: string, u: string, i: nat, delta: int)
    requires SameTail(s, u, i, delta) && i < |s|
    ensures DirectiveNext(u, i + delta) == DirectiveNext(s, i) + delta
  {
  }

  lemma TailShrinks(s: string, u: string, i: nat, j: nat, delta: int)
    requires SameTail(s, u, i, delta) && i <= j <= |s|
    ensures SameTail(s, u, j, delta)
    ensures i < |s| ==> s[i] == u[i + delta]
  {
  }

  lemma {:induction false} DirectiveShift(s: string, u: string, i: nat, delta: int)
    requires SameTail(s, u, i, delta)
    ensures DirectiveEnd(u, i + delta) == DirectiveEnd(s, i) + delta
    decreases |s| - i
  {
    if i == |s| {
    } else {
      hide Same, DirectiveNext;
      NextShift(s, u, i, delta);
      var j := DirectiveNext(s, i);
      TailShrinks(s, u, i, j, delta);
      DirectiveShift(s, u, j, delta);
    }
  }

  lemma PieceShift(s: string, u: string, i: nat, delta: int)
    requires SameTail(s, u, i, delta)
    ensures AtToken(u, i + delta) == AtToken(s, i)
    ensures !AtToken(s, i) ==> PieceEnd(u, i + delta) == PieceEnd(s, i) + delta
  {
    hide LineEnd, DirectiveEnd, CommentEnd, IsSpace;
    if !AtToken(s, i) {
      LineShift(s, u, i + 1, delta);
      DirectiveShift(s, u, i + 1, delta);
      if i + 2 <= |s| { CommentShift(s, u, i + 2, delta); }
    }
  }

  lemma {:induction false} TriviaShift(s: string, u: string, i: nat, delta: int)
    requires SameTail(s, u, i, delta)
    ensures TriviaEnd(u, i + delta) == TriviaEnd(s, i) + delta
    decreases |s| - i
  {
    PieceShift(s, u, i, delta);
    if AtToken(s, i) {
    } else {
      TriviaShift(s, u, PieceEnd(s, i), delta);
    }
  }

  /** A word is read again where the same characters stand and something else follows. */
  lemma {:induction false} IdentSame(s: string, u: string, i: nat, delta: int)
    requires i <= |s| && Same(s, u, i, IdentEnd(s, i), delta)
    requires var e := IdentEnd(s, i) + delta; e == |u| || !IsIdentChar(u[e])
    ensures IdentEnd(u, i + delta) == IdentEnd(s, i) + delta
    decreases |s| - i
  {
    if i == IdentEnd(s, i) {
    } else {
      IdentSame(s, u, i + 1, delta);
    }
  }

  lemma {:induction false} QuotedSame(s: string, u: string, i: nat, quote: char, delta: int)
    requires i <= |s| && Same(s, u, i, QuotedEnd(s, i, quote), delta)
    requires QuotedEnd(s, i, quote) < |s| || |u| == |s| + delta
    ensures QuotedEnd(u, i + delta, quote) == QuotedEnd(s, i, quote) + delta
    decreases |s| - i
  {
    if i == |s| || s[i] == quote {
    } else {
      if s[i] != '\\' { QuotedSame(s, u, i + 1, quote, delta); }
      else if i + 1 < |s| { QuotedSame(s, u, i + 2, quote, delta); }
    }
  }

  lemma {:induction false} IndexSame(s: string, u: string, i: nat, c: char, delta: int)
    requires i <= |s| && Same(s, u, i, IndexFrom(s, i, c), delta)
    requires var e := IndexFrom(s, i, c) + delta; e == |u| || u[e] == c
    ensures IndexFrom(u, i + delta, c) == IndexFrom(s, i, c) + delta
    decreases |s| - i
  {
    if i == IndexFrom(s, i, c) {
    } else {
      IndexSame(s, u, i + 1, c, delta);
    }
  }

  lemma SliceSame(s: string, u: string, lo: int, hi: int, delta: int)
    requires Same(s, u, lo, hi, delta)
    ensures s[lo..hi] == u[lo + delta..hi + delta]
  {
  }

  lemma MarkerAtSame(s: string, u: string, i: nat, marker: string, delta: int)
    requires i + |marker| <= |s| && Same(s, u, i, i + |marker|, delta)
    ensures MarkerAt(u, i + delta, marker) == MarkerAt(s, i, marker)
  {
    SliceSame(s, u, i, i + |marker|, delta);
  }

  /** A marker search that stops before the end of the text stopped at a marker. */
  lemma {:induction false} MarkerFound(s: string, i: nat, marker: string)
    requires i <= |s| && MarkerEnd(s, i, marker) < |s|
    ensures i + |marker| <= MarkerEnd(s, i, marker)
    decreases |s| - i
  {
    if MarkerAt(s, i, marker) {
    } else {
      MarkerFound(s, i + 1, marker);
    }
  }

  lemma {:induction false} MarkerSame(s: string, u: string, i: nat, marker: string, delta: int)
    requires i <= |s| && Same(s, u, i, MarkerEnd(s, i, marker), delta)
    requires MarkerEnd(s, i, marker) < |s| || |u| == |s| + delta
    ensures MarkerEnd(u, i + delta, marker) == MarkerEnd(s, i, marker) + delta
    decreases |s| - i
  {
    if MarkerEnd(s, i, marker) < |s| { MarkerFound(s, i, marker); }
    if i + |marker| <= |s| { MarkerAtSame(s, u, i, marker, delta); }
    if i == |s| || MarkerAt(s, i, marker) {
    } else {
      MarkerSame(s, u, i + 1, marker, delta);
    }
  }

  lemma RawSame(s: string, u: string, i: nat, delta: int)
    requires i <= |s| && Same(s, u, i, RawEnd(s, i), delta)
    requires RawEnd(s, i) < |s| || |u| == |s| + delta
    ensures RawEnd(u, i + delta) == RawEnd(s, i) + delta
  {
    hide IndexFrom, MarkerEnd, EndMarker;
    var d := IndexFrom(s, i, '(');
    IndexStops(s, i, '(');
    IndexSame(s, u, i, '(', delta);
    if d < |s| {
      SliceSame(s, u, i, d, delta);
      MarkerSame(s, u, d + 1, EndMarker(s[i..d]), delta);
    }
  }

  lemma {:induction false} IndexStops(s: string, i: nat, c: char)
    requires i <= |s|
    ensures var e := IndexFrom(s, i, c); e == |s| || s[e] == c
    decreases |s| - i
  {
    if i == |s| || s[i] == c {
    } else {
      IndexStops(s, i + 1, c);
    }
  }

  lemma {:induction false} IdentStops(s: string, i: nat)
    requires i <= |s|
    ensures var e := IdentEnd(s, i); e == |s| || !IsIdentChar(s[e])
    ensures forall k :: i <= k < IdentEnd(s, i) ==> IsIdentChar(s[k])
    decreases |s| - i
  {
    if i == |s| || !IsIdentChar(s[i]) {
    } else {
      IdentStops(s, i + 1);
    }
  }

  /** What stands at `e` cannot run together with a token that starts with `c`. */
  predicate Separates(c: char, u: string, e: nat) {
    e >= |u| ||
    ((IsIdentChar(c) ==> !IsIdentChar(u[e]) && u[e] != '"') &&
     (c == ':' ==> u[e] != ':') &&
     (c == '/' ==> u[e] != '/' && u[e] != '*'))
  }

  /** The token at `i` may be read again in `u`: the rest of the text is the same, or what follows
      separates; behind an unclosed literal nothing may follow. */
  predicate Rereads(s: string, u: string, i: nat, delta: int)
    requires i < |s|
  {
    var e := TokenEnd(s, i);
    Same(s, u, i, e, delta) &&
    (SameTail(s, u, i, delta) || ((e < |s| || |u| == e + delta) && Separates(s[i], u, e + delta)))
  }

  lemma WordSame(s: string, u: string, i: nat, delta: int)
    requires i < |s| && IsIdentChar(s[i]) && Rereads(s, u, i, delta)
    ensures TokenEnd(u, i + delta) == TokenEnd(s, i) + delta && TokenKind(u, i + delta) == TokenKind(s, i)
  {
    hide WordKind, IsRawPrefix, RawEnd, IdentEnd;
    var e := IdentEnd(s, i);
    IdentStops(s, i);
    IdentSame(s, u, i, delta);
    SliceSame(s, u, i, e, delta);
    if StartsRaw(s, i) {
      RawSame(s, u, e + 1, delta);
    }
  }

  /** A token is read again, with the same kind and payload, wherever it stands unharmed. */
  lemma TokenSame(s: string, u: string, i: nat, delta: int)
    requires i < |s| && AtToken(s, i) && Rereads(s, u, i, delta)
    ensures AtToken(u, i + delta) && TokenAt(u, i + delta) == TokenAt(s, i)
    ensures TokenEnd(u, i + delta) == TokenEnd(s, i) + delta
  {
    hide IsIdentChar, StartsRaw, IdentEnd, WordKind, QuotedEnd;
    SliceSame(s, u, i, TokenEnd(s, i), delta);
    if IsIdentChar(s[i]) {
      WordSame(s, u, i, delta);
    } else if IsQuote(s[i]) {
      QuotedSame(s, u, i + 1, s[i], delta);
    }
  }

  /** The tokens of a text do not depend on what stands in front of it. */
  lemma {:induction false} LexShift(s: string, u: string, i: nat, delta: int)
    requires SameTail(s, u, i, delta)
    ensures LexFrom(u, i + delta) == LexFrom(s, i)
    decreases |s| - i
  {
    hide TriviaEnd, TokenEnd, TokenAt, AtToken;
    TriviaShift(s, u, i, delta);
    var j := TriviaEnd(s, i);
    if j == |s| {
    } else {
      TokenSame(s, u, j, delta);
      LexShift(s, u, TokenEnd(s, j), delta);
    }
  }

  lemma LexBehind(a: string, b: string)
    ensures LexFrom(a + b, |a|) == Lex(b)
  {
    LexShift(b, a + b, 0, |a|);
  }

  // ---------------------------------------------------------------- the grammar of literals

  /** Between `i` and `e` stand plain characters and two-character escapes only. */
  predicate QuotedBody(s: string, i: nat, e: nat, quote: char)
    requires e <= |s|
    decreases e - i
  {
    i == e || (i < e &&
    if s[i] == '\\' then i + 1 < e && QuotedBody(s, i + 2, e, quote)
    else s[i] != quote && QuotedBody(s, i + 1, e, quote))
  }

  /** A literal is closed where it is exactly if a body and a closing quote stand there. */
  lemma {:induction false} QuotedGrammar(s: string, i: nat, e: nat, quote: char)
    requires quote != '\\' && i <= e < |s|
    ensures (s[e] == quote && QuotedBody(s, i, e, quote)) <==>
            (QuotedEnd(s, i, quote) == e + 1 && QuotedClosed(s, i, quote))
    decreases e - i
  {
    if i == e || s[i] == quote {
    } else {
      if s[i] != '\\' { QuotedGrammar(s, i + 1, e, quote); }
      else if i + 1 < e { QuotedGrammar(s, i + 2, e, quote); }
    }
  }

  /** The literal is ended by its quote, not by the end of the text. */
  predicate QuotedClosed(s: string, i: nat, quote: char)
    requires i <= |s|
    decreases |s| - i
  {
    i < |s| &&
    (s[i] == quote ||
     if s[i] == '\\' then i + 1 < |s| && QuotedClosed(s, i + 2, quote) else QuotedClosed(s, i + 1, quote))
  }

  /** The marker search stops at the first occurrence: an occurrence ends there, none starts before. */
  lemma {:induction false} MarkerIsFirst(s: string, i: nat, m: nat, marker: string)
    requires i <= m && MarkerAt(s, m, marker)
    ensures var e := MarkerEnd(s, i, marker);
            i + |marker| <= e <= m + |marker| && MarkerAt(s, e - |marker|, marker)
    ensures forall k :: i <= k && k + |marker| < MarkerEnd(s, i, marker) ==> !MarkerAt(s, k, marker)
    decreases m - i
  {
    if MarkerAt(s, i, marker) {
    } else {
      MarkerIsFirst(s, i + 1, m, marker);
    }
  }

  /** A raw string ends with the first marker made of its own delimiter. */
  lemma RawGrammar(s: string, i: nat, d: nat, m: nat)
    requires i <= d < m <= |s| && s[d] == '(' && (forall k :: i <= k < d ==> s[k] != '(')
    requires MarkerAt(s, m, EndMarker(s[i..d]))
    requires forall k :: d < k < m ==> !MarkerAt(s, k, EndMarker(s[i..d]))
    ensures RawEnd(s, i) == m + |EndMarker(s[i..d])|
  {
    IndexIs(s, i, d, '(');
    var marker := EndMarker(s[i..d]);
    MarkerIsFirst(s, d + 1, m, marker);
  }

  lemma {:induction false} IndexIs(s: string, i: nat, e: nat, c: char)
    requires i <= e < |s| && s[e] == c && forall k :: i <= k < e ==> s[k] != c
    ensures IndexFrom(s, i, c) == e
    decreases e - i
  {
    if i == e {
    } else {
      IndexIs(s, i + 1, e, c);
    }
  }

  // ---------------------------------------------------------------- gaps

  predicate Closes(s: string, k: nat) { k + 1 < |s| && s[k] == '*' && s[k + 1] == '/' }

  /** Between `i` and `e` stand characters that do not end the line and backslashes, each with the line
      break behind it if there is one. */
  predicate DirectiveBody(s: string, i: nat, e: nat)
    requires e <= |s|
    decreases e - i
  {
    i == e || (i < e && s[i] != '\n' && DirectiveBody(s, DirectiveNext(s, i), e))
  }

  /** What may stand between two tokens. */
  datatype Gap =
    | Blank(c: char)
    | LineComment(text: string)
    | BlockComment(text: string)
    | Directive(text: string)
  {
    /** The comment is not closed before its end, and the directive ends with its last newline only. */
    predicate Valid() {
      match this
      case Blank(c) => IsSpace(c)
      case LineComment(text) => forall k :: 0 <= k < |text| ==> text[k] != '\n'
      case BlockComment(text) => forall k :: 0 <= k < |text| - 1 ==> !Closes(text, k)
      case Directive(text) => DirectiveBody(text + "\n", 0, |text|)
    }

    function Text(): (s: string)
      ensures s != []
    {
      match this
      case Blank(c) => [c]
      case LineComment(text) => "//" + text + "\n"
      case BlockComment(text) => "/*" + text + "*/"
      case Directive(text) => "#" + text + "\n"
    }
  }

  lemma {:induction false} LineEndIs(s: string, i: nat, e: nat)
    requires i <= e < |s| && s[e] == '\n' && forall k :: i <= k < e ==> s[k] != '\n'
    ensures LineEnd(s, i) == e
    decreases e - i
  {
    if i == e {
    } else {
      LineEndIs(s, i + 1, e);
    }
  }

  /** A preprocessor line ends at a newline exactly if its body ends there. */
  lemma {:induction false} DirectiveEndIs(s: string, i: nat, e: nat)
    requires i <= e < |s| && s[e] == '\n'
    ensures DirectiveEnd(s, i) == e <==> DirectiveBody(s, i, e)
    decreases e - i
  {
    if i == e || s[i] == '\n' {
    } else if DirectiveNext(s, i) <= e {
      DirectiveEndIs(s, DirectiveNext(s, i), e);
    }
  }

  /** A body that ends at a newline is a body wherever its characters stand. */
  lemma {:induction false} BodyShift(s: string, u: string, i: nat, e: nat, delta: int)
    requires i <= e < |s| && Same(s, u, i, e + 1, delta) && s[e] == '\n' && DirectiveBody(s, i, e)
    ensures DirectiveBody(u, i + delta, e + delta)
    decreases e - i
  {
    if i == e {
    } else {
      var j := DirectiveNext(s, i);
      assert j <= e;
      assert DirectiveNext(u, i + delta) == j + delta;
      BodyShift(s, u, j, e, delta);
    }
  }

  lemma {:induction false} CommentEndIs(s: string, i: nat, e: nat)
    requires i <= e && Closes(s, e) && forall k :: i <= k < e ==> !Closes(s, k)
    ensures CommentEnd(s, i) == e + 2
    decreases e - i
  {
    if i == e {
    } else {
      assert !Closes(s, i);
      CommentEndIs(s, i + 1, e);
    }
  }

  /** A piece of trivia at the front of a text ends where its text does, but for a last newline. */
  lemma GapPiece(g: Gap, u: string)
    requires g.Valid()
    ensures var s, n := g.Text() + u, |g.Text()|;
            !AtToken(s, 0) && (PieceEnd(s, 0) == n || (PieceEnd(s, 0) == n - 1 && s[n - 1] == '\n'))
  {
    hide LineEnd, DirectiveEnd, CommentEnd;
    var s, n := g.Text() + u, |g.Text()|;
    match g
    case Blank(c) =>
    case LineComment(text) => LineEndIs(s, 1, n - 1);
    case BlockComment(text) =>
      forall k | 2 <= k < n - 2
        ensures !Closes(s, k)
      {
        assert k - 2 < |text| - 1 ==> !Closes(text, k - 2);
      }
      CommentEndIs(s, 2, n - 2);
    case Directive(text) =>
      BodyShift(text + "\n", s, 0, |text|, 1);
      DirectiveEndIs(s, 1, n - 1);
  }

  lemma LexSkipsPiece(s: string, i: nat)
    requires i <= |s| && !AtToken(s, i)
    ensures LexFrom(s, i) == LexFrom(s, PieceEnd(s, i))
  {
    hide PieceEnd, AtToken, TokenEnd;
  }

  /** A well-formed piece of trivia is invisible, whatever follows it. */
  lemma GapInvisible(g: Gap, u: string)
    requires g.Valid()
    ensures Lex(g.Text() + u) == Lex(u)
  {
    var s, n := g.Text() + u, |g.Text()|;
    hide LexFrom;
    GapPiece(g, u);
    LexSkipsPiece(s, 0);
    if PieceEnd(s, 0) == n - 1 { LexSkipsPiece(s, n - 1); }
    LexBehind(g.Text(), u);
  }

  function GapText(gs: seq<Gap>): string {
    if gs == [] then "" else gs[0].Text() + GapText(gs[1..])
  }

  lemma {:induction false} GapsInvisible(gs: seq<Gap>, u: string)
    requires forall i :: 0 <= i < |gs| ==> gs[i].Valid()
    ensures Lex(GapText(gs) + u) == Lex(u)
  {
    hide Lex;
    if gs == [] {
      assert GapText(gs) + u == u;
    } else {
      var t := GapText(gs[1..]);
      assert gs[0].Text() + t + u == gs[0].Text() + (t + u);
      GapInvisible(gs[0], t + u);
      GapsInvisible(gs[1..], u);
    }
  }

  /** `u` may stand right behind the token. */
  predicate Apart(t: Token, u: string) { t.payload != "" ==> Separates(t.payload[0], u, 0) }

  /** Well-formed trivia that keeps two tokens apart. It may be empty where they cannot run together, and
      may start with a comment unless the token in front is a slash. */
  predicate GoodGap(t: Token, gs: seq<Gap>, next: Token) {
    Apart(t, GapText(gs) + next.payload) && forall i :: 0 <= i < |gs| ==> gs[i].Valid()
  }

  /** A blank behind the token does not become part of it: the token is no unclosed literal. */
  predicate Complete(t: Token) { Lex(t.payload + " ") == [t] }

  /** A text without tokens that may stand at the end: also a comment or preprocessor line that the end of
      the text cuts short. Behind an unclosed literal nothing may stand. */
  predicate GoodTail(ts: seq<Token>, tail: string) {
    Lex(tail) == [] &&
    (ts != [] && tail != "" ==> Complete(ts[|ts| - 1]) && Apart(ts[|ts| - 1], tail))
  }

  /** Gaps and tail fit the tokens. */
  predicate Spaced(ts: seq<Token>, gaps: seq<seq<Gap>>, tail: string) {
    |ts| <= |gaps| + 1 && GoodTail(ts, tail) &&
    forall k :: 0 <= k < |ts| - 1 ==> GoodGap(ts[k], gaps[k], ts[k + 1])
  }

  // ---------------------------------------------------------------- the main theorems

  /** The token payloads with the given gaps between them and a tail behind the last one. */
  function Respace(ts: seq<Token>, gaps: seq<seq<Gap>>, tail: string): string
    requires |ts| <= |gaps| + 1
  {
    if ts == [] then tail
    else if |ts| == 1 then ts[0].payload + tail
    else ts[0].payload + (GapText(gaps[0]) + Respace(ts[1..], gaps[1..], tail))
  }

  /** A token cut out of a text and put in front of another one. */
  lemma LexCut(s: string, j: nat, t: string)
    requires j < |s| && AtToken(s, j) && Separates(s[j], t, 0) && (TokenEnd(s, j) < |s| || t == [])
    ensures Lex(TokenAt(s, j).payload + t) == [TokenAt(s, j)] + Lex(t)
    ensures AtToken(TokenAt(s, j).payload + t, 0)
  {
    hide TokenEnd, TokenKind, LexFrom, AtToken;
    var p := s[j..TokenEnd(s, j)];
    var u := p + t;
    var back: int := 0 - j;
    TokenSame(s, u, j, back);
    LexOne(u);
    LexBehind(p, t);
  }

  lemma LexOne(u: string)
    requires u != [] && AtToken(u, 0)
    ensures Lex(u) == [TokenAt(u, 0)] + LexFrom(u, TokenEnd(u, 0))
  {
    hide TokenEnd, TokenAt;
  }

  lemma LexNothing()
    ensures Lex("") == []
  {
  }

  /** What follows in the respaced text keeps the first token apart from it. */
  lemma GapSeparates(ts: seq<Token>, gaps: seq<seq<Gap>>, tail: string)
    requires |ts| > 1 && Spaced(ts, gaps, tail) && ts[0].payload != "" && ts[1].payload != ""
    ensures Separates(ts[0].payload[0], GapText(gaps[0]) + Respace(ts[1..], gaps[1..], tail), 0)
  {
    hide GapText, Lex, IsIdentChar;
    assert GoodGap(ts[0], gaps[0], ts[1]);
    var u := GapText(gaps[0]) + Respace(ts[1..], gaps[1..], tail);
    assert u[0] == (GapText(gaps[0]) + ts[1].payload)[0];
  }

  lemma SpacedTail(ts: seq<Token>, gaps: seq<seq<Gap>>, tail: string)
    requires |ts| > 1 && Spaced(ts, gaps, tail)
    ensures Spaced(ts[1..], gaps[1..], tail)
  {
    hide GoodGap, Apart, Complete, Lex;
  }

  /** Every token with something behind it is complete: only the last one of a text can fail to be. */
  lemma InnerComplete(s: string, j: nat)
    requires j < |s| && AtToken(s, j) && TokenEnd(s, j) < |s|
    ensures Complete(TokenAt(s, j))
  {
    hide LexFrom, TokenAt, TokenEnd;
    LexCut(s, j, " ");
    GapInvisible(Blank(' '), "");
    assert Blank(' ').Text() + "" == " ";
    LexNothing();
  }

  /** A token in front of a tail. */
  lemma LexLast(t: Token, tail: string)
    requires t.payload != "" && AtToken(t.payload, 0) && Lex(t.payload) == [t] && GoodTail([t], tail)
    ensures Lex(t.payload + tail) == [t]
  {
    hide LexFrom;
    if tail == "" {
      assert t.payload + tail == t.payload;
    } else {
      var s := t.payload + " ";
      WholeToken(t);
      LexCut(s, 0, tail);
    }
  }

  /** A complete token is what is scanned at the front of its own payload with a blank behind it. */
  lemma WholeToken(t: Token)
    requires t.payload != "" && AtToken(t.payload, 0) && Complete(t)
    ensures var s := t.payload + " "; AtToken(s, 0) && TokenAt(s, 0) == t && TokenEnd(s, 0) < |s|
  {
    hide TokenEnd, TokenKind, LexFrom;
    var s := t.payload + " ";
    assert AtToken(s, 0);
    LexOne(s);
    assert ([TokenAt(s, 0)] + LexFrom(s, TokenEnd(s, 0)))[0] == t;
    assert |t.payload| == TokenEnd(s, 0);
  }

  lemma {:induction false} LexSpaced(s: string, i: nat, gaps: seq<seq<Gap>>, tail: string)
    requires i <= |s| && Spaced(LexFrom(s, i), gaps, tail)
    ensures Lex(Respace(LexFrom(s, i), gaps, tail)) == LexFrom(s, i)
    decreases |s| - i
  {
    hide Lex, TokenEnd, TokenKind, TokenAt, AtToken, GapText, GoodTail;
    var j := TriviaEnd(s, i);
    if j == |s| {
      NoTokens(tail);
    } else {
      var ts := LexFrom(s, i);
      var e := TokenEnd(s, j);
      var rest := LexFrom(s, e);
      PayloadAt(s, j);
      if rest == [] {
        LexCut(s, j, "");
        LexNothing();
        assert ts[0].payload + "" == ts[0].payload;
        LexLast(ts[0], tail);
      } else {
        var u := Respace(rest, gaps[1..], tail);
        assert ts[1..] == rest;
        PayloadAt(s, TriviaEnd(s, e));
        GapSeparates(ts, gaps, tail);
        LexCut(s, j, GapText(gaps[0]) + u);
        GapsInvisible(gaps[0], u);
        SpacedTail(ts, gaps, tail);
        LexSpaced(s, e, gaps[1..], tail);
      }
    }
  }

  lemma NoTokens(tail: string)
    requires GoodTail([], tail)
    ensures Lex(tail) == []
  {
  }

  lemma PayloadAt(s: string, j: nat)
    requires j < |s|
    ensures TokenAt(s, j).payload != "" && TokenAt(s, j).payload[0] == s[j]
  {
  }

  /** Tokens do not depend on the trivia around them: take any text, put any blanks, comments and
      preprocessor lines in front of its tokens, between them and behind them, and scanning gives the
      same kinds and payloads. */
  lemma LexRespaced(s: string, lead: seq<Gap>, gaps: seq<seq<Gap>>, tail: string)
    requires Spaced(Lex(s), gaps, tail) && forall k :: 0 <= k < |lead| ==> lead[k].Valid()
    ensures Lex(GapText(lead) + Respace(Lex(s), gaps, tail)) == Lex(s)
  {
    hide LexFrom, GoodTail, GoodGap, Respace, GapText;
    LexSpaced(s, 0, gaps, tail);
    GapsInvisible(lead, Respace(Lex(s), gaps, tail));
  }

  /** The printer of the stability theorem: payloads with one space between two of them. */
  function Print(ts: seq<Token>): string {
    if ts == [] then ""
    else if |ts| == 1 then ts[0].payload
    else ts[0].payload + (" " + Print(ts[1..]))
  }

  lemma {:induction false} PrintIsRespace(ts: seq<Token>, gaps: seq<seq<Gap>>)
    requires |ts| <= |gaps| + 1
    requires forall i :: 0 <= i < |gaps| ==> gaps[i] == [Blank(' ')]
    ensures Print(ts) == Respace(ts, gaps, "")
  {
    if |ts| <= 1 {
    } else {
      PrintIsRespace(ts[1..], gaps[1..]);
      assert GapText([Blank(' ')]) == " " + GapText([]);
    }
  }

  lemma PrintSpaced(ts: seq<Token>, gaps: seq<seq<Gap>>)
    requires |ts| <= |gaps| + 1
    requires forall i :: 0 <= i < |gaps| ==> gaps[i] == [Blank(' ')]
    ensures Spaced(ts, gaps, "")
  {
    hide Lex;
    LexNothing();
    assert GapText([Blank(' ')]) == " " + GapText([]);
  }

  /** Printing the tokens of any text and scanning the print gives the same tokens. */
  lemma LexPrintStable(s: string)
    ensures Lex(Print(Lex(s))) == Lex(s)
  {
    hide LexFrom, Print, Respace, Spaced;
    var gaps := seq(|Lex(s)|, i => [Blank(' ')]);
    PrintIsRespace(Lex(s), gaps);
    PrintSpaced(Lex(s), gaps);
    LexSpaced(s, 0, gaps, "");
  }

  // ---------------------------------------------------------------- the scanner

  lemma NoEndInside(s: string, i: nat)
    requires i <= |s|
    ensures LexFrom(s, i) != [] ==> LexFrom(s, i)[0].kind != EndOfStream
  {
  }

  lemma LexAtEnd(s: string)
    ensures LexFrom(s, |s|) == []
  {
  }

  /** The scanner: a cursor into an unchanging text and the kind of the last token handed out. */
  class Scanner {
    const source: string
    var cursor: nat
    var lastKind: Kind

    /** How many tokens were handed out. */
    ghost var taken: nat

    ghost predicate Valid()
      reads this
      ensures Valid() ==> taken <= |All()|
    {
      InText() && taken <= |All()| && LexFrom(source, cursor) == All()[taken..]
    }

    ghost predicate InText()
      reads this
    {
      cursor <= |source|
    }

    /** The tokens of the whole text. */
    ghost function All(): seq<Token> { Lex(source) }

    constructor (text: string)
      ensures Valid() && source == text && cursor == 0 && taken == 0 && lastKind == Unknown
    {
      source, cursor, lastKind, taken := text, 0, Unknown, 0;
    }

    method SkipLine()
      requires InText()
      modifies this`cursor
      ensures InText() && cursor == LineEnd(source, old(cursor))
    {
      while cursor < |source| && source[cursor] != '\n'
        invariant InText() && LineEnd(source, cursor) == LineEnd(source, old(cursor))
      {
        cursor := cursor + 1;
      }
    }

    method SkipComment()
      requires InText()
      modifies this`cursor
      ensures InText() && cursor == CommentEnd(source, old(cursor))
    {
      while cursor + 1 < |source| && !(source[cursor] == '*' && source[cursor + 1] == '/')
        invariant InText() && CommentEnd(source, cursor) == CommentEnd(source, old(cursor))
      {
        cursor := cursor + 1;
      }
      if cursor + 1 < |source| {
        cursor := cursor + 2;
      } else {
        cursor := |source|;
      }
    }

    method SkipDirective()
      requires InText()
      modifies this`cursor
      ensures InText() && cursor == DirectiveEnd(source, old(cursor))
    {
      while cursor < |source| && source[cursor] != '\n'
        invariant InText() && DirectiveEnd(source, cursor) == DirectiveEnd(source, old(cursor))
      {
        if source[cursor] == '\\' {
          cursor := cursor + 1;
          if cursor < |source| && source[cursor] == '\r' { cursor := cursor + 1; }
          if cursor < |source| && source[cursor] == '\n' { cursor := cursor + 1; }
        } else {
          cursor := cursor + 1;
        }
      }
    }

    method AdvanceWhitespace()
      requires InText()
      modifies this`cursor
      ensures InText() && cursor == TriviaEnd(source, old(cursor))
    {
      while cursor < |source|
        invariant InText() && TriviaEnd(source, cursor) == TriviaEnd(source, old(cursor))
        decreases |source| - cursor
      {
        if IsSpace(source[cursor]) {
          cursor := cursor + 1;
        } else if cursor + 1 < |source| && source[cursor] == '/' && source[cursor + 1] == '/' {
          SkipLine();
        } else if cursor + 1 < |source| && source[cursor] == '/' && source[cursor + 1] == '*' {
          cursor := cursor + 2;
          SkipComment();
        } else if source[cursor] == '#' {
          SkipDirective();
        } else {
          break;
        }
      }
    }

    method ScanQuoted()
      requires InText() && cursor < |source|
      modifies this`cursor
      ensures InText() && cursor == QuotedEnd(source, old(cursor) + 1, source[old(cursor)])
    {
      var quote := source[cursor];
      cursor := cursor + 1;
      ghost var start := cursor;
      while cursor < |source| && source[cursor] != quote
        invariant start <= cursor <= |source|
        invariant QuotedEnd(source, cursor, quote) == QuotedEnd(source, start, quote)
      {
        if source[cursor] == '\\' {
          cursor := cursor + 1;
          if cursor < |source| { cursor := cursor + 1; }
        } else {
          cursor := cursor + 1;
        }
      }
      if cursor < |source| { cursor := cursor + 1; }
    }

    method ScanWord()
      requires InText()
      modifies this`cursor
      ensures InText() && cursor == IdentEnd(source, old(cursor))
    {
      while cursor < |source| && IsIdentChar(source[cursor])
        invariant InText() && IdentEnd(source, cursor) == IdentEnd(source, old(cursor))
      {
        cursor := cursor + 1;
      }
    }

    /** The library search the raw-string branch relies on: past the first marker. */
    method FindThrough(marker: string) returns (end: nat)
      requires InText() && marker != []
      ensures end == MarkerEnd(source, cursor, marker)
    {
      end := cursor;
      while end < |source| && !(end + |marker| <= |source| && source[end..end + |marker|] == marker)
        invariant cursor <= end <= |source|
        invariant MarkerEnd(source, end, marker) == MarkerEnd(source, cursor, marker)
      {
        end := end + 1;
      }
      if end < |source| { end := end + |marker|; }
    }

    method ScanRaw()
      requires InText()
      modifies this`cursor
      ensures InText() && cursor == RawEnd(source, old(cursor))
    {
      var start := cursor;
      while cursor < |source| && source[cursor] != '('
        invariant start <= cursor <= |source|
        invariant IndexFrom(source, cursor, '(') == IndexFrom(source, start, '(')
      {
        cursor := cursor + 1;
      }
      var delimiter := source[start..cursor];
      if cursor < |source| { cursor := cursor + 1; }
      cursor := FindThrough(")" + delimiter + "\"");
    }

    method ScanWordToken() returns (kind: Kind)
      requires InText() && cursor < |source| && IsIdentChar(source[cursor])
      modifies this`cursor
      ensures InText() && cursor == TokenEnd(source, old(cursor)) && kind == TokenKind(source, old(cursor))
    {
      var start := cursor;
      ScanWord();
      var word := source[start..cursor];
      if cursor < |source| && source[cursor] == '"' && IsRawPrefix(word) {
        cursor := cursor + 1;
        ScanRaw();
        kind := StringLiteral;
      } else {
        kind := WordKind(word);
      }
    }

    method ScanToken() returns (t: Token)
      requires InText() && cursor < |source|
      modifies this`cursor
      ensures InText() && cursor == TokenEnd(source, old(cursor)) && t == TokenAt(source, old(cursor))
    {
      var start := cursor;
      var current := source[cursor];
      var kind: Kind;
      if current == ':' && cursor + 1 < |source| && source[cursor + 1] == ':' {
        cursor := cursor + 2;
        kind := ScopeResolution;
      } else if IsQuote(current) {
        ScanQuoted();
        kind := StringLiteral;
      } else if IsIdentChar(current) {
        kind := ScanWordToken();
      } else {
        cursor := cursor + 1;
        kind := PunctuationKind(current);
      }
      t := Token(kind, source[start..cursor]);
    }

    /** The next token and the position behind it; `END` if there is none. */
    method ExtractInternal() returns (t: Token)
      requires InText()
      modifies this`cursor
      ensures InText() && cursor >= old(cursor)
      ensures var ts := LexFrom(source, old(cursor));
              if ts == [] then t == END && cursor == |source|
              else t == ts[0] && LexFrom(source, cursor) == ts[1..] && cursor > old(cursor)
    {
      AdvanceWhitespace();
      if cursor >= |source| {
        return END;
      }
      t := ScanToken();
    }

    /** Hands out the next token and moves on, and hands out `END` for ever once the text is used up. */
    method ExtractNext() returns (t: Token)
      requires Valid()
      modifies this
      ensures Valid() && lastKind == t.kind
      ensures if old(taken) == |All()| then t == END && taken == old(taken) && cursor == |source|
              else t == All()[old(taken)] && taken == old(taken) + 1 && cursor > old(cursor)
      ensures t.kind == EndOfStream <==> old(taken) == |All()|
    {
      t := ExtractInternal();
      lastKind := t.kind;
      NoEndInside(source, old(cursor));
      LexAtEnd(source);
      if t.kind != EndOfStream { taken := taken + 1; }
    }

    /** Looks at the next token and leaves the scanner as it was. */
    method PeekNext() returns (t: Token)
      requires Valid()
      modifies this
      ensures Valid() && cursor == old(cursor) && lastKind == old(lastKind) && taken == old(taken)
      ensures t == if taken == |All()| then END else All()[taken]
    {
      var savedCursor, savedLast := cursor, lastKind;
      t := ExtractInternal();
      cursor, lastKind := savedCursor, savedLast;
    }
  }
}
