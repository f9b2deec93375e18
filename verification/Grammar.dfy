/** The grammar of the scanner, character by character (src/compiler/meta_compiler.cpp:82-248): what each
    token looks like and what stands in front of any text without being seen. Every law names its characters
    and words; none refers to the functions that specify the scanner's branches. */
module Grammar {
  import opened Lexer

  predicate WordChar(c: char) {
    'a' <= c <= 'z' || 'A' <= c <= 'Z' || '0' <= c <= '9' || c == '_'
  }

  predicate BlankChar(c: char) {
    c == ' ' || c == '\t' || c == '\n' || c == '\r' || c == '\U{0b}' || c == '\U{0c}'
  }

  /** The prefixes that turn a quote into a raw string. */
  predicate RawPrefix(w: string) {
    w == "R" || w == "uR" || w == "UR" || w == "LR" || w == "u8R"
  }

  predicate Keyword(w: string, kind: Kind) { Declaring(w, kind) || Other(w, kind) }

  predicate Declaring(w: string, kind: Kind) {
    || (w == "class" && kind == ClassDef)
    || (w == "struct" && kind == StructDef)
    || (w == "namespace" && kind == NamespaceDef)
    || (w == "REGISTER_CONTEXT" && kind == RegisterContext)
    || (w == "template" && kind == Template)
  }

  predicate Other(w: string, kind: Kind) {
    || (w == "public" && kind == Public)
    || (w == "private" && kind == Private)
    || (w == "protected" && kind == Protected)
    || (w == "virtual" && kind == Virtual)
    || (w == "alignas" && kind == AlignAs)
    || (w == "alignof" && kind == AlignOf)
  }

  predicate Punctuation(c: char, kind: Kind) {
    || (c == ',' && kind == Comma)
    || (c == '(' && kind == LParen)
    || (c == ')' && kind == RParen)
    || (c == '<' && kind == LAngle)
    || (c == '>' && kind == RAngle)
    || (c == ';' && kind == SemiColon)
    || (c == '{' && kind == LBrace)
    || (c == '}' && kind == RBrace)
    || (c == '[' && kind == LBracket)
    || (c == ']' && kind == RBracket)
  }

  predicate Punctuated(c: char) {
    c == ':' || c == ',' || c == '(' || c == ')' || c == '<' || c == '>' || c == ';' || c == '{' || c == '}'
    || c == '[' || c == ']'
  }

  /** The word ends where `u` begins: no further word character, and no quote that makes it a raw string. */
  predicate EndsWord(w: string, u: string) {
    u == "" || (!WordChar(u[0]) && (u[0] == '"' ==> !RawPrefix(w)))
  }

  // ---------------------------------------------------------------- words

  lemma {:induction false} IdentEndIs(s: string, i: nat, e: nat)
    requires i <= e <= |s| && (forall k :: i <= k < e ==> IsIdentChar(s[k])) && (e == |s| || !IsIdentChar(s[e]))
    ensures IdentEnd(s, i) == e
    decreases e - i
  {
    if i == e {
    } else {
      IdentEndIs(s, i + 1, e);
    }
  }

  lemma WordTokenIs(w: string, u: string)
    requires w != "" && (forall k :: 0 <= k < |w| ==> WordChar(w[k])) && EndsWord(w, u)
    ensures Lex(w + u) == [Token(WordKind(w), w)] + Lex(u)
  {
    hide LexFrom, WordKind, IdentEnd;
    var s := w + u;
    IdentEndIs(s, 0, |w|);
    assert s[0..|w|] == w;
    assert AtToken(s, 0);
    LexOne(s);
    LexBehind(w, u);
  }

  lemma DeclaringWord(w: string, kind: Kind)
    requires Declaring(w, kind)
    ensures WordKind(w) == kind && w != "" && forall k :: 0 <= k < |w| ==> WordChar(w[k])
  {
  }

  lemma OtherWord(w: string, kind: Kind)
    requires Other(w, kind)
    ensures WordKind(w) == kind && w != "" && forall k :: 0 <= k < |w| ==> WordChar(w[k])
  {
  }

  /** Each keyword in front of what ends a word is a token of its own kind. */
  lemma KeywordToken(w: string, kind: Kind, u: string)
    requires Keyword(w, kind) && EndsWord(w, u)
    ensures Lex(w + u) == [Token(kind, w)] + Lex(u)
  {
    hide Declaring, Other, EndsWord, Lex, WordKind;
    if Declaring(w, kind) {
      DeclaringWord(w, kind);
    } else {
      OtherWord(w, kind);
    }
    WordTokenIs(w, u);
  }

  /** Every other word of letters, digits and underscores is an identifier. */
  lemma IdentifierToken(w: string, u: string)
    requires w != "" && (forall k :: 0 <= k < |w| ==> WordChar(w[k])) && EndsWord(w, u)
    requires forall kind :: !Keyword(w, kind)
    ensures Lex(w + u) == [Token(Identifier, w)] + Lex(u)
  {
    PlainWord(w);
    hide Keyword, EndsWord, Lex, WordKind;
    WordTokenIs(w, u);
  }

  lemma PlainWord(w: string)
    requires forall kind :: !Keyword(w, kind)
    ensures WordKind(w) == Identifier
  {
    assert !Keyword(w, ClassDef) && !Keyword(w, StructDef) && !Keyword(w, NamespaceDef) && !Keyword(w, Public);
    assert !Keyword(w, Private) && !Keyword(w, Protected) && !Keyword(w, Virtual) && !Keyword(w, RegisterContext);
    assert !Keyword(w, Template) && !Keyword(w, AlignAs) && !Keyword(w, AlignOf);
  }

  // ---------------------------------------------------------------- punctuation

  lemma OneChar(c: char, u: string)
    requires var s := [c] + u; AtToken(s, 0) && TokenEnd(s, 0) == 1
    ensures Lex([c] + u) == [Token(TokenKind([c] + u, 0), [c])] + Lex(u)
  {
    hide LexFrom, TokenEnd, TokenKind;
    var s := [c] + u;
    assert s[0..1] == [c];
    LexOne(s);
    LexBehind([c], u);
  }

  /** Each punctuation character is a token of its own kind, whatever follows. */
  lemma PunctuationToken(c: char, kind: Kind, u: string)
    requires Punctuation(c, kind)
    ensures Lex([c] + u) == [Token(kind, [c])] + Lex(u)
  {
    hide Lex, LexFrom;
    OneChar(c, u);
  }

  /** Two colons are one token, whatever follows. */
  lemma ScopeToken(u: string)
    ensures Lex("::" + u) == [Token(ScopeResolution, "::")] + Lex(u)
  {
    hide LexFrom;
    var s := "::" + u;
    assert s[0..2] == "::";
    LexOne(s);
    LexBehind("::", u);
  }

  /** One colon is a colon unless another follows. */
  lemma ColonToken(u: string)
    requires u == "" || u[0] != ':'
    ensures Lex(":" + u) == [Token(Colon, ":")] + Lex(u)
  {
    hide Lex, LexFrom;
    OneChar(':', u);
  }

  /** Every other visible character is a token of unknown kind; a slash only if it opens no comment. */
  lemma UnknownToken(c: char, u: string)
    requires !WordChar(c) && !BlankChar(c) && !Punctuated(c) && c != '"' && c != '\'' && c != '#'
    requires c == '/' ==> u == "" || (u[0] != '/' && u[0] != '*')
    ensures Lex([c] + u) == [Token(Unknown, [c])] + Lex(u)
  {
    hide Lex, LexFrom;
    OneChar(c, u);
  }

  // ---------------------------------------------------------------- literals

  lemma {:induction false} BodySame(s: string, u: string, i: nat, e: nat, quote: char, delta: nat)
    requires i <= e <= |s| && e + delta <= |u| && (forall k :: i <= k < e ==> s[k] == u[k + delta])
    ensures QuotedBody(s, i, e, quote) == QuotedBody(u, i + delta, e + delta, quote)
    decreases e - i
  {
    if i == e {
    } else if s[i] != '\\' {
      BodySame(s, u, i + 1, e, quote, delta);
    } else if i + 1 < e {
      BodySame(s, u, i + 2, e, quote, delta);
    }
  }

  /** A quote, a body of plain characters and two-character escapes, and the same quote are one literal,
      whatever follows. */
  lemma QuotedToken(quote: char, body: string, u: string)
    requires (quote == '"' || quote == '\'') && QuotedBody(body, 0, |body|, quote)
    ensures Lex([quote] + body + [quote] + u) == [Token(StringLiteral, [quote] + body + [quote])] + Lex(u)
  {
    hide LexFrom, QuotedEnd, QuotedBody;
    var t := [quote] + body + [quote];
    var s := t + u;
    BodySame(body, s, 0, |body|, quote, 1);
    QuotedGrammar(s, 1, |body| + 1, quote);
    assert s[0..|t|] == t;
    LexOne(s);
    LexBehind(t, u);
  }

  /** A literal that is not closed runs to the end of the text. */
  lemma UnclosedToken(quote: char, body: string)
    requires quote == '"' || quote == '\''
    requires QuotedBody(body, 0, |body|, quote) ||
             (body != "" && body[|body| - 1] == '\\' && QuotedBody(body, 0, |body| - 1, quote))
    ensures Lex([quote] + body) == [Token(StringLiteral, [quote] + body)]
  {
    var s := [quote] + body;
    UnclosedFrom(quote, body);
    hide LexFrom, QuotedEnd, QuotedBody;
    assert s[0..|s|] == s;
    LexOne(s);
    LexAtEnd(s);
  }

  lemma UnclosedFrom(quote: char, body: string)
    requires quote == '"' || quote == '\''
    requires QuotedBody(body, 0, |body|, quote) ||
             (body != "" && body[|body| - 1] == '\\' && QuotedBody(body, 0, |body| - 1, quote))
    ensures QuotedEnd([quote] + body, 1, quote) == |body| + 1
  {
    hide QuotedEnd, QuotedBody;
    if QuotedBody(body, 0, |body|, quote) {
      UnclosedUpTo(quote, body, |body|);
    } else {
      UnclosedUpTo(quote, body, |body| - 1);
    }
  }

  lemma UnclosedUpTo(quote: char, body: string, e: nat)
    requires (quote == '"' || quote == '\'') && e <= |body| <= e + 1 && QuotedBody(body, 0, e, quote)
    requires e < |body| ==> body[e] == '\\'
    ensures QuotedEnd([quote] + body, 1, quote) == |body| + 1
  {
    hide QuotedEnd, QuotedBody;
    BodySame(body, [quote] + body, 0, e, quote, 1);
    Unclosed([quote] + body, 1, e + 1, quote);
  }

  lemma {:induction false} Unclosed(s: string, i: nat, e: nat, quote: char)
    requires i <= e <= |s| <= e + 1 && quote != '\\' && QuotedBody(s, i, e, quote) && (e < |s| ==> s[e] == '\\')
    ensures QuotedEnd(s, i, quote) == |s|
    decreases e - i
  {
    if i == e {
    } else if s[i] != '\\' {
      Unclosed(s, i + 1, e, quote);
    } else {
      Unclosed(s, i + 2, e, quote);
    }
  }

  /** The text of a raw string: prefix, quote, delimiter, parenthesis, body and the end mark. */
  function RawText(p: string, d: string, body: string): string {
    p + "\"" + d + "(" + body + EndMark(d)
  }

  function EndMark(d: string): string { ")" + d + "\"" }

  predicate StandsAt(s: string, k: nat, mark: string) { k + |mark| <= |s| && s[k..k + |mark|] == mark }

  /** A raw string is one literal, whatever follows, when its delimiter holds no parenthesis and its end mark
      does not stand before the end. */
  lemma RawToken(p: string, d: string, body: string, u: string)
    requires RawPrefix(p) && '(' !in d
    requires forall k :: 0 <= k < |body| ==> !StandsAt(body + EndMark(d), k, EndMark(d))
    ensures Lex(RawText(p, d, body) + u) == [Token(StringLiteral, RawText(p, d, body))] + Lex(u)
  {
    hide LexFrom, IdentEnd, RawEnd;
    var t := RawText(p, d, body);
    var s := t + u;
    assert s[0..|t|] == t;
    RawTextAt(p, d, body, u);
    assert s[0..|p|] == p;
    LexOne(s);
    LexBehind(t, u);
  }

  lemma RawTextAt(p: string, d: string, body: string, u: string)
    requires RawPrefix(p) && '(' !in d
    requires forall k :: 0 <= k < |body| ==> !StandsAt(body + EndMark(d), k, EndMark(d))
    ensures var s := RawText(p, d, body) + u;
            && |p| < |s| && IdentEnd(s, 0) == |p| && IsIdentChar(s[0]) && s[|p|] == '"'
            && RawEnd(s, |p| + 1) == |RawText(p, d, body)|
  {
    hide IdentEnd, RawEnd;
    var s := RawText(p, d, body) + u;
    var i := |p| + 1;
    var at := i + |d|;
    var m := at + 1 + |body|;
    PrefixChars(p);
    assert forall k :: 0 <= k < |p| ==> s[k] == p[k];
    IdentEndIs(s, 0, |p|);
    assert s[i..at] == d;
    assert EndMarker(d) == EndMark(d);
    assert s[m..m + |EndMark(d)|] == EndMark(d);
    forall k | at < k < m
      ensures !MarkerAt(s, k, EndMark(d))
    {
      NotBefore(s, body, d, at + 1, k);
    }
    assert forall k :: i <= k < at ==> s[k] == d[k - i];
    RawGrammar(s, i, at, m);
  }

  lemma PrefixChars(p: string)
    requires RawPrefix(p)
    ensures p != "" && forall k :: 0 <= k < |p| ==> IsIdentChar(p[k])
  {
  }

  lemma NotBefore(s: string, body: string, d: string, from: nat, k: nat)
    requires from <= k < from + |body| && from + |body| + |EndMark(d)| <= |s|
    requires s[from..from + |body| + |EndMark(d)|] == body + EndMark(d)
    requires !StandsAt(body + EndMark(d), k - from, EndMark(d))
    ensures !MarkerAt(s, k, EndMark(d))
  {
    var b, n := body + EndMark(d), |EndMark(d)|;
    var w := s[from..from + |b|];
    assert forall j :: 0 <= j < |b| ==> s[from + j] == w[j];
    assert w[k - from..k - from + n] == s[k..k + n];
  }

  // ---------------------------------------------------------------- what is not seen

  /** Each of the six blanks is invisible. */
  lemma BlankUnseen(c: char, u: string)
    requires BlankChar(c)
    ensures Lex([c] + u) == Lex(u)
  {
    hide Lex;
    GapInvisible(Blank(c), u);
  }

  /** A line comment is invisible up to and with its newline. */
  lemma LineCommentUnseen(text: string, u: string)
    requires '\n' !in text
    ensures Lex("//" + text + "\n" + u) == Lex(u)
  {
    hide Lex;
    GapInvisible(LineComment(text), u);
  }

  /** A block comment is invisible up to its first end mark. */
  lemma BlockCommentUnseen(text: string, u: string)
    requires forall k :: 0 <= k < |text| - 1 ==> !(text[k] == '*' && text[k + 1] == '/')
    ensures Lex("/*" + text + "*/" + u) == Lex(u)
  {
    hide Lex;
    GapInvisible(BlockComment(text), u);
  }

  /** A preprocessor line without backslashes is invisible up to and with its newline. */
  lemma DirectiveUnseen(text: string, u: string)
    requires '\n' !in text && '\\' !in text
    ensures Lex("#" + text + "\n" + u) == Lex(u)
  {
    hide Lex;
    PlainDirective(text + "\n", 0, |text|);
    GapInvisible(Directive(text), u);
  }

  lemma {:induction false} PlainDirective(s: string, i: nat, e: nat)
    requires i <= e <= |s| && forall k :: i <= k < e ==> s[k] != '\n' && s[k] != '\\'
    ensures DirectiveBody(s, i, e)
    decreases e - i
  {
    if i == e {
    } else {
      PlainDirective(s, i + 1, e);
    }
  }

  /** A backslash joins the next line to a preprocessor line, with or without a carriage return. */
  lemma ContinuedDirectiveUnseen(first: string, second: string, cr: bool, u: string)
    requires '\n' !in first && '\\' !in first && '\n' !in second && '\\' !in second
    ensures Lex("#" + (first + (if cr then "\\\r\n" else "\\\n") + second) + "\n" + u) == Lex(u)
  {
    hide Lex;
    var join := if cr then "\\\r\n" else "\\\n";
    var text := first + join + second;
    ContinuedBody(text + "\n", 0, |first|, |join|, |text|);
    GapInvisible(Directive(text), u);
  }

  lemma {:induction false} ContinuedBody(s: string, i: nat, m: nat, n: nat, e: nat)
    requires i <= m && m + n <= e <= |s|
    requires forall k :: i <= k < m || m + n <= k < e ==> s[k] != '\n' && s[k] != '\\'
    requires s[m..m + n] == (if n == 3 then "\\\r\n" else "\\\n") && 2 <= n <= 3
    ensures DirectiveBody(s, i, e)
    decreases m - i
  {
    if i == m {
      assert s[m] == s[m..m + n][0] && s[m + 1] == s[m..m + n][1] && (n == 3 ==> s[m + 2] == s[m..m + n][2]);
      assert DirectiveNext(s, m) == m + n;
      PlainDirective(s, m + n, e);
    } else {
      ContinuedBody(s, i + 1, m, n, e);
    }
  }
}
