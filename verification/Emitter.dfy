/** The forward declarations of the metadata compiler (src/compiler/meta_compiler.cpp:854-909).

    `Declares` says which names get a declaration and `Line` what is printed. The class
    `FwdEmitter` is the emitting closure with its memory and its output stream. The main theorems read the
    print back: `DeclarationReadsBack` runs the compiler's own first pass over a printed line. */
module Emitter {
  import opened Grammar
  import opened Lexer
  import opened Names
  import opened Scopes
  import opened Registry
  import opened Discovery
  import opened Digest

  // ---------------------------------------------------------------- what is printed

  const NAMESPACE := "namespace "
  const OPEN := " { "
  const STRUCT := "struct "
  const CLOSE := " }"

  /** The closing braces of `n` namespaces. */
  function CloseText(n: nat): string {
    if n == 0 then "" else CLOSE + CloseText(n - 1)
  }

  /** The declaration from the `i`-th part on: the parts before the last are opened as namespaces. */
  function LineFrom(ps: seq<string>, i: nat): string
    requires i < |ps|
    decreases |ps| - i
  {
    if i == |ps| - 1 then STRUCT + (ps[i] + (";" + CloseText(i)))
    else NAMESPACE + (ps[i] + (OPEN + LineFrom(ps, i + 1)))
  }

  /** The line printed for a name with these parts. */
  function Line(ps: seq<string>): string
    requires ps != []
  {
    LineFrom(ps, 0)
  }

  // ---------------------------------------------------------------- which names are declared

  predicate StartsWith(t: string, prefix: string) { prefix <= t }

  predicate IsSystem(t: string) {
    StartsWith(t, "::std") || StartsWith(t, "::testing") || StartsWith(t, "::google")
  }

  predicate IsBlacklisted(name: string) {
    name in {"meta_traits", "context_association", "typelist", "typelist_append",
             "typelist_cat", "typelist_contains", "typelist_unique", "all_registered_contexts",
             "void", "bool", "char", "int", "long", "float", "double", "unsigned",
             "size_t", "uint8_t", "uint16_t", "uint32_t", "uint64_t", "alignas", "alignof"}
  }

  /** The start of the text behind the last "::" that starts at or after position 2, searched down from `n`. */
  function BaseStart(t: string, n: nat): (i: nat)
    requires 2 <= |t| && n <= |t|
    ensures 2 <= i <= |t|
  {
    if n < 2 then 2 else if ScopeAt(t, n) then n + 2 else BaseStart(t, n - 1)
  }

  function BaseName(t: string): string
    requires 2 <= |t|
  {
    t[BaseStart(t, |t|)..]
  }

  /** A name known as a namespace and not as a type. */
  predicate PureNamespace(reg: Registry, name: string) { name in reg.namespaces && name !in reg.types }

  /** The name passes the filters in front of the splitting loop. */
  predicate Eligible(reg: Registry, t: string) {
    t != "" && '<' !in t && IsAbsolute(t) && !IsSystem(t) && !PureNamespace(reg, t) &&
    (t in reg.primary || !(IsBlacklisted(BaseName(t)) || t in reg.templates))
  }

  /** The first `k` parts can be opened: every prefix up to there is a namespace and not a type. */
  predicate Openable(reg: Registry, ps: seq<string>, k: nat)
    requires k <= |ps|
  {
    forall i :: 1 <= i <= k ==> PureNamespace(reg, Qualify(ps[..i]))
  }

  /** The name gets a declaration. */
  predicate Declares(reg: Registry, t: string) {
    Eligible(reg, t) && Openable(reg, Parts(t), |Parts(t)| - 1)
  }

  /** The output after the request for `t`: at most one line, and none for a name tried before. */
  function Request(reg: Registry, tried: set<string>, t: string): (r: (set<string>, seq<string>)) {
    if t in tried || !Eligible(reg, t) then (tried, [])
    else (tried + {t}, if Declares(reg, t) then [Line(Parts(t))] else [])
  }

  // ---------------------------------------------------------------- the lines of a whole run

  /** The lines of the first `n` requests. */
  function Lines(reg: Registry, requests: seq<string>, n: nat): (r: (set<string>, seq<string>))
    requires n <= |requests|
  {
    if n == 0 then ({}, [])
    else
      var (tried, lines) := Lines(reg, requests, n - 1);
      var (tried', more) := Request(reg, tried, requests[n - 1]);
      (tried', lines + more)
  }

  /** The names declared by the first `n` requests, in order. */
  function Declared(reg: Registry, requests: seq<string>, n: nat): seq<string>
    requires n <= |requests|
  {
    if n == 0 then []
    else
      var before := Declared(reg, requests, n - 1);
      if requests[n - 1] !in before && Declares(reg, requests[n - 1]) then before + [requests[n - 1]] else before
  }

  lemma {:induction false} TriedAre(reg: Registry, requests: seq<string>, n: nat)
    requires n <= |requests|
    ensures forall t :: t in Lines(reg, requests, n).0 <==> t in requests[..n] && Eligible(reg, t)
    ensures forall t :: t in Declared(reg, requests, n) <==> t in requests[..n] && Declares(reg, t)
  {
    hide Eligible, Openable, Line;
    if n == 0 {
    } else {
      TriedAre(reg, requests, n - 1);
      assert requests[..n] == requests[..n - 1] + [requests[n - 1]];
    }
  }

  /** What the `n`-th request adds: the same decision for the name and for its line. */
  lemma LastRequest(reg: Registry, requests: seq<string>, n: nat)
    requires 0 < n <= |requests|
    ensures var t := requests[n - 1];
            var before, lines := Declared(reg, requests, n - 1), Lines(reg, requests, n - 1).1;
            if t !in before && Declares(reg, t) then
              && |t| >= 2 && Declared(reg, requests, n) == before + [t]
              && Lines(reg, requests, n).1 == lines + [Line(Parts(t))]
            else
              Declared(reg, requests, n) == before && Lines(reg, requests, n).1 == lines
  {
    hide Openable, Line, Parts, IsSystem, PureNamespace, IsBlacklisted;
    TriedAre(reg, requests, n - 1);
    assert Lines(reg, requests, n - 1).1 + [] == Lines(reg, requests, n - 1).1;
  }

  /** Each line is printed from the parts of its name. */
  predicate LinesOf(names: seq<string>, lines: seq<string>) {
    |lines| == |names| && forall i :: 0 <= i < |names| ==> |names[i]| >= 2 && lines[i] == Line(Parts(names[i]))
  }

  lemma OneMoreLine(names: seq<string>, lines: seq<string>, t: string)
    requires LinesOf(names, lines) && |t| >= 2
    ensures LinesOf(names + [t], lines + [Line(Parts(t))])
  {
    hide Line, Parts;
  }

  /** One line per declared name, each printed from the parts of that name. */
  lemma {:induction false} LinesAre(reg: Registry, requests: seq<string>, n: nat)
    requires n <= |requests|
    ensures LinesOf(Declared(reg, requests, n), Lines(reg, requests, n).1)
  {
    hide LinesOf, Declares, Line, Parts;
    if n == 0 {
      NoLines();
    } else {
      hide Lines, Declared;
      LinesAre(reg, requests, n - 1);
      LastRequest(reg, requests, n);
      var t := requests[n - 1];
      if t !in Declared(reg, requests, n - 1) && Declares(reg, t) {
        OneMoreLine(Declared(reg, requests, n - 1), Lines(reg, requests, n - 1).1, t);
      }
    }
  }

  lemma NoLines()
    ensures LinesOf([], [])
  {
  }

  /** No name is declared twice, and exactly the requested names that qualify are declared. */
  lemma {:induction false} DeclaredOnce(reg: Registry, requests: seq<string>, n: nat)
    requires n <= |requests|
    ensures NoRepeats(Declared(reg, requests, n))
    ensures forall t :: t in Declared(reg, requests, n) <==> t in requests[..n] && Declares(reg, t)
  {
    hide Declares;
    TriedAre(reg, requests, n);
    if n == 0 {
    } else {
      DeclaredOnce(reg, requests, n - 1);
    }
  }

  // ---------------------------------------------------------------- exactly which lines are printed

  /** The compiler's own templates. */
  predicate CompilerWord(w: string) {
    w == "meta_traits" || w == "context_association" || w == "typelist" || w == "typelist_append" ||
    w == "typelist_cat" || w == "typelist_contains" || w == "typelist_unique" || w == "all_registered_contexts"
  }

  predicate LanguageWord(w: string) {
    w == "void" || w == "bool" || w == "char" || w == "int" || w == "long" || w == "float" || w == "double" ||
    w == "unsigned" || w == "alignas" || w == "alignof"
  }

  predicate IntegerWord(w: string) {
    w == "size_t" || w == "uint8_t" || w == "uint16_t" || w == "uint32_t" || w == "uint64_t"
  }

  predicate ListedWord(w: string) { CompilerWord(w) || LanguageWord(w) || IntegerWord(w) }

  /** The name is "::w" or ends in "::w" behind something; in ":::w" the part is ":w". */
  predicate EndsIn(t: string, w: string) {
    |w| + 2 <= |t| && t[|t| - |w| - 2..] == "::" + w && |t| != |w| + 3
  }

  /** The name can be declared at all: absolute, no template argument, not of a system library, not a mere
      namespace, and if it is not a primary type neither a template nor one of the listed words. */
  ghost predicate Permitted(reg: Registry, t: string) {
    && 2 <= |t| && t[..2] == "::" && '<' !in t
    && !("::std" <= t) && !("::testing" <= t) && !("::google" <= t)
    && (t in reg.namespaces ==> t in reg.types)
    && (t in reg.primary || (t !in reg.templates && forall w :: ListedWord(w) ==> !EndsIn(t, w)))
  }

  /** Everything in front of the last part is a namespace and not a type. */
  predicate InNamespaces(reg: Registry, ps: seq<string>) {
    forall i :: 1 <= i < |ps| ==> Qualify(ps[..i]) in reg.namespaces && Qualify(ps[..i]) !in reg.types
  }

  /** Two names come in the order in which they are first asked for. */
  ghost predicate AskedBefore(requests: seq<string>, a: string, b: string) {
    exists p :: 0 <= p < |requests| && requests[p] == a && b !in requests[..p + 1]
  }

  lemma {:induction false} BaseStartLast(t: string, n: nat)
    requires 2 <= |t| && n <= |t|
    ensures var i := BaseStart(t, n);
            && (i == 2 || (4 <= i && ScopeAt(t, i - 2)))
            && forall k :: 2 <= k <= n && i - 2 < k ==> !ScopeAt(t, k)
  {
    if n < 2 || ScopeAt(t, n) {
    } else {
      BaseStartLast(t, n - 1);
    }
  }

  /** The searched base name is the word behind the last "::". */
  lemma BaseNameIs(t: string, w: string)
    requires IsAbsolute(t) && ':' !in w
    ensures BaseName(t) == w <==> EndsIn(t, w)
  {
    hide BaseStart;
    BaseStartLast(t, |t|);
    var i := BaseStart(t, |t|);
    if EndsIn(t, w) {
      var n := |t| - |w|;
      assert t[n - 2..][0] == t[n - 2] && t[n - 2..][1] == t[n - 1] && t[n - 2..][2..] == t[n..];
      assert forall k :: n <= k < |t| ==> t[k] == w[k - n];
      assert ScopeAt(t, n - 2);
    }
  }

  lemma {:induction false} QualifyEnds(ps: seq<string>)
    requires ps != []
    ensures EndsIn(Qualify(ps), ps[|ps| - 1]) && IsAbsolute(Qualify(ps))
  {
    var n := |ps| - 1;
    if n == 0 {
    } else {
      assert ps == ps[..n] + [ps[n]];
      GlueSnoc(ps[..n], ps[n], SCOPE);
      var g := Glue(ps[..n], SCOPE);
      assert Qualify(ps) == (SCOPE + g) + (SCOPE + ps[n]);
    }
  }

  /** The base name of a qualified name is its last part. */
  lemma LastOfName(ps: seq<string>)
    requires ps != [] && ':' !in ps[|ps| - 1]
    ensures BaseName(Qualify(ps)) == ps[|ps| - 1]
  {
    hide EndsIn, BaseName, Qualify;
    QualifyEnds(ps);
    BaseNameIs(Qualify(ps), ps[|ps| - 1]);
  }

  lemma WordsListed(w: string)
    ensures IsBlacklisted(w) <==> ListedWord(w)
  {
  }

  lemma CompilerWordPlain(w: string)
    requires CompilerWord(w)
    ensures ':' !in w
  {
  }

  lemma LanguageWordPlain(w: string)
    requires LanguageWord(w)
    ensures ':' !in w
  {
  }

  lemma IntegerWordPlain(w: string)
    requires IntegerWord(w)
    ensures ':' !in w
  {
  }

  lemma WordsPlain(w: string)
    requires ListedWord(w)
    ensures ':' !in w
  {
    hide CompilerWord, LanguageWord, IntegerWord;
    if CompilerWord(w) {
      CompilerWordPlain(w);
    } else if LanguageWord(w) {
      LanguageWordPlain(w);
    } else {
      IntegerWordPlain(w);
    }
  }

  lemma PermittedIs(reg: Registry, t: string)
    ensures Eligible(reg, t) <==> Permitted(reg, t)
  {
    hide IsBlacklisted, BaseName, EndsIn, ListedWord;
    if IsAbsolute(t) {
      WordsListed(BaseName(t));
      forall w | ListedWord(w) ensures BaseName(t) == w <==> EndsIn(t, w) {
        WordsPlain(w);
        BaseNameIs(t, w);
      }
    }
  }

  lemma DeclaresIs(reg: Registry, t: string)
    ensures Declares(reg, t) <==> Permitted(reg, t) && InNamespaces(reg, Parts(t))
  {
    hide Eligible, Qualify, Parts;
    PermittedIs(reg, t);
  }

  lemma {:induction false} DeclaredInOrder(reg: Registry, requests: seq<string>, n: nat, i: nat, j: nat)
    requires n <= |requests| && i < j < |Declared(reg, requests, n)|
    ensures AskedBefore(requests, Declared(reg, requests, n)[i], Declared(reg, requests, n)[j])
  {
    hide Declares;
    var before := Declared(reg, requests, n - 1);
    if j < |before| {
      DeclaredInOrder(reg, requests, n - 1, i, j);
    } else {
      TriedAre(reg, requests, n - 1);
      assert before[i] in requests[..n - 1];
      var p :| 0 <= p < n - 1 && requests[p] == before[i];
      assert requests[..p + 1] <= requests[..n - 1];
      assert requests[n - 1] !in requests[..n - 1];
    }
  }

  /** Over every registry and every run of requests: the printed lines are those of the requested names that are
      permitted and stand in namespaces only, one line each, in the order of the first requests. */
  lemma {:induction false} ExactlyTheseLines(reg: Registry, requests: seq<string>) returns (names: seq<string>)
    ensures LinesOf(names, Lines(reg, requests, |requests|).1)
    ensures forall t :: t in names <==> t in requests && Permitted(reg, t) && InNamespaces(reg, Parts(t))
    ensures NoRepeats(names)
    ensures forall i, j :: 0 <= i < j < |names| ==> AskedBefore(requests, names[i], names[j])
  {
    hide LinesOf, Declares, EndsIn, ListedWord, InNamespaces, AskedBefore, Lines, Declared;
    names := Declared(reg, requests, |requests|);
    LinesAre(reg, requests, |requests|);
    DeclaredOnce(reg, requests, |requests|);
    assert requests[..|requests|] == requests;
    forall t ensures t in names <==> t in requests && Permitted(reg, t) && InNamespaces(reg, Parts(t)) {
      DeclaresIs(reg, t);
    }
    forall i, j | 0 <= i < j < |names| ensures AskedBefore(requests, names[i], names[j]) {
      DeclaredInOrder(reg, requests, |requests|, i, j);
    }
  }

  // ---------------------------------------------------------------- scanning a printed line

  /** A word in front of something that does not continue it. */
  lemma LexWord(p: string, t: string)
    requires p != [] && forall k :: 0 <= k < |p| ==> IsIdentChar(p[k])
    requires t == [] || (!IsIdentChar(t[0]) && t[0] != '"')
    ensures Lex(p + t) == [Token(WordKind(p), p)] + Lex(t)
  {
    hide Lex, WordKind;
    WordTokenIs(p, t);
  }

  lemma LexPunctuation(c: char, t: string)
    requires c == '{' || c == '}' || c == ';'
    ensures Lex([c] + t) == [Token(PunctuationKind(c), [c])] + Lex(t)
  {
    hide Lex;
    PunctuationToken(c, if c == '{' then LBrace else if c == '}' then RBrace else SemiColon, t);
  }

  lemma LexBlank(t: string)
    ensures Lex(" " + t) == Lex(t)
  {
    hide LexFrom;
    GapInvisible(Blank(' '), t);
  }

  lemma LexKeyword(word: string, p: string, t: string)
    requires word != [] && forall k :: 0 <= k < |word| ==> IsIdentChar(word[k])
    requires IsName(p) && (t == [] || (!IsIdentChar(t[0]) && t[0] != '"'))
    ensures Lex(word + (" " + (p + t))) == [Token(WordKind(word), word), Token(Identifier, p)] + Lex(t)
  {
    hide Lex, WordKind;
    LexWord(word, " " + (p + t));
    LexBlank(p + t);
    LexWord(p, t);
  }

  const OPENING := Token(NamespaceDef, "namespace")
  const STRUCTURE := Token(StructDef, "struct")
  const LEFT := Token(LBrace, "{")
  const RIGHT := Token(RBrace, "}")
  const SEMICOLON := Token(SemiColon, ";")

  function Name(p: string): Token { Token(Identifier, p) }

  function Braces(n: nat): (ts: seq<Token>)
    ensures |ts| == n && forall i :: 0 <= i < n ==> ts[i] == RIGHT
  {
    seq(n, i => RIGHT)
  }

  /** The tokens of a printed line from the `i`-th part on. */
  function LineTokens(ps: seq<string>, i: nat): seq<Token>
    requires i < |ps|
    decreases |ps| - i
  {
    if i == |ps| - 1 then [STRUCTURE, Name(ps[i]), SEMICOLON] + Braces(i)
    else [OPENING, Name(ps[i]), LEFT] + LineTokens(ps, i + 1)
  }

  lemma {:induction false} LexCloses(n: nat)
    ensures Lex(CloseText(n)) == Braces(n)
  {
    hide Lex;
    if n == 0 {
      LexNothing();
    } else {
      LexCloses(n - 1);
      var t := CloseText(n - 1);
      assert CLOSE + t == " " + (['}'] + t);
      LexBlank(['}'] + t);
      LexPunctuation('}', t);
    }
  }

  lemma LexOpen(p: string, t: string)
    requires IsName(p)
    ensures Lex(NAMESPACE + (p + (OPEN + t))) == [OPENING, Name(p), LEFT] + Lex(t)
  {
    hide Lex, IsName;
    var u := OPEN + t;
    assert NAMESPACE + (p + u) == "namespace" + (" " + (p + u));
    LexKeyword("namespace", p, u);
    assert u == " " + (['{'] + (" " + t));
    LexBlank(['{'] + (" " + t));
    LexPunctuation('{', " " + t);
    LexBlank(t);
  }

  lemma LexStruct(p: string, t: string)
    requires IsName(p)
    ensures Lex(STRUCT + (p + (";" + t))) == [STRUCTURE, Name(p), SEMICOLON] + Lex(t)
  {
    hide Lex, IsName;
    var u := ";" + t;
    assert STRUCT + (p + u) == "struct" + (" " + (p + u));
    LexKeyword("struct", p, u);
    LexPunctuation(';', t);
  }

  lemma {:induction false} LexLine(ps: seq<string>, i: nat)
    requires i < |ps| && AllNames(ps)
    ensures Lex(LineFrom(ps, i)) == LineTokens(ps, i)
    decreases |ps| - i
  {
    hide Lex, IsName, CloseText;
    if i == |ps| - 1 {
      LexStruct(ps[i], CloseText(i));
      LexCloses(i);
    } else {
      LexLine(ps, i + 1);
      LexOpen(ps[i], LineFrom(ps, i + 1));
    }
  }

  // ---------------------------------------------------------------- pass 1 over a printed line

  /** The first three tokens of a line, and the rest of it. */
  lemma TokensHead(ts: seq<Token>, m: nat, a: Token, b: Token, c: Token, rest: seq<Token>)
    requires m <= |ts| && ts[m..] == [a, b, c] + rest
    ensures m + 3 <= |ts| && ts[m] == a && ts[m + 1] == b && ts[m + 2] == c && ts[m + 3..] == rest
  {
    assert ts[m..][0] == ts[m] && ts[m..][1] == ts[m + 1] && ts[m..][2] == ts[m + 2];
    assert ts[m..][3..] == ts[m + 3..];
  }

  /** The scopes open behind the braces of the first `k` parts. */
  function Opened(ps: seq<string>, k: nat): Tracker
    requires k <= |ps|
  {
    if k == 0 then EMPTY else PushNamespace(Opened(ps, k - 1), [ps[k - 1]])
  }

  /** What pass 1 has registered behind the braces of the first `k` parts. */
  function OpenedRegistry(ps: seq<string>, k: nat): Registry
    requires k <= |ps|
  {
    NOTHING.(namespaces := set i | 1 <= i <= k :: Qualify(ps[..i]),
             order := seq(k, i requires 0 <= i < k => Qualify(ps[..i + 1])))
  }

  lemma {:induction false} OpenedTracked(ps: seq<string>, k: nat)
    requires k <= |ps| && AllNames(ps)
    ensures Tracked(Opened(ps, k)) && OpenNames(Opened(ps, k)) == ps[..k] && !InsideType(Opened(ps, k))
  {
    hide Tracked, IsName, OpenNames;
    if k == 0 {
      assert Tracked(EMPTY) && OpenNames(EMPTY) == [] by { EmptyTracked(); }
    } else {
      OpenedTracked(ps, k - 1);
      PushNamespaceKeeps(Opened(ps, k - 1), [ps[k - 1]]);
      NamespaceNames(Opened(ps, k - 1), [ps[k - 1]]);
      assert ps[..k - 1] + [ps[k - 1]] == ps[..k];
    }
  }

  lemma EmptyTracked()
    ensures Tracked(EMPTY) && OpenNames(EMPTY) == []
  {
  }

  lemma OpenedPath(ps: seq<string>, k: nat)
    requires k < |ps| && AllNames(ps)
    ensures OpenPath(Opened(ps, k)) + ps[k] == Qualify(ps[..k + 1])
  {
    hide Qualify, Path, Prefix, ScopeNames, IsName, Opened, Tracked, InsideType;
    OpenedTracked(ps, k);
    var t := Opened(ps, k);
    PathIsPrefix(t.stack, |t.stack|);
    PrefixIs(ps[..k], ps[k]);
    assert ps[..k] + [ps[k]] == ps[..k + 1];
  }

  lemma PrefixesDiffer(ps: seq<string>, i: nat, j: nat)
    requires 1 <= i < j <= |ps| && AllNames(ps)
    ensures Qualify(ps[..i]) != Qualify(ps[..j])
  {
    hide Qualify, Parts, IsName;
    QualifyParts(ps[..i]);
    QualifyParts(ps[..j]);
  }

  lemma OpenRegisters(ps: seq<string>, k: nat)
    requires k + 1 < |ps| && AllNames(ps)
    ensures AddNamespaces(OpenedRegistry(ps, k), OpenPath(Opened(ps, k)), [ps[k]], 0) == OpenedRegistry(ps, k + 1)
  {
    hide Qualify, IsName, OpenPath;
    var reg, path := OpenedRegistry(ps, k), OpenPath(Opened(ps, k));
    OpenedPath(ps, k);
    var name := Qualify(ps[..k + 1]);
    assert name !in reg.namespaces by {
      forall i | 1 <= i <= k ensures Qualify(ps[..i]) != name { PrefixesDiffer(ps, i, k + 1); }
    }
    assert AddNamespaces(reg, path, [ps[k]], 0) == AddNamespace(reg, name);
    assert AddNamespace(reg, name).namespaces == OpenedRegistry(ps, k + 1).namespaces;
    assert AddNamespace(reg, name).order == OpenedRegistry(ps, k + 1).order;
  }

  /** Reading `namespace p {`. */
  lemma OpenStep(ps: seq<string>, k: nat, ts: seq<Token>, m: nat, last: Kind)
    requires k + 1 < |ps| && AllNames(ps) && m + 2 < |ts|
    requires ts[m] == OPENING && ts[m + 1] == Name(ps[k]) && ts[m + 2] == LEFT
    ensures Step(ts, m, State(OpenedRegistry(ps, k), Opened(ps, k), last))
              == (m + 3, State(OpenedRegistry(ps, k + 1), Opened(ps, k + 1), NamespaceDef))
  {
    hide IsName, OpenPath, PushNamespace, OpenedRegistry, AddNamespaces;
    assert ReadNamespace(ts, m + 1, []) == NamespaceHead([ps[k]], true, m + 3);
    OpenRegisters(ps, k);
  }

  /** The registry after the declaration of a name with these parts, read alone. */
  function ReadBack(ps: seq<string>): Registry
    requires ps != []
  {
    var n := |ps| - 1;
    if IsAttribute(ps[n]) then OpenedRegistry(ps, n)
    else OpenedRegistry(ps, n).(types := map[Qualify(ps) := Node(true, false)])
  }

  lemma StructTokens(ts: seq<Token>, m: nat, p: string)
    requires m + 1 < |ts| && ts[m] == Name(p) && ts[m + 1] == SEMICOLON
    ensures NameAt(ts, m, false) == if IsAttribute(p) then m + 1 else m
    ensures FindBody(ts, m + 1) == (false, m + 2)
  {
    hide IsAttribute;
  }

  lemma StructRegisters(ps: seq<string>)
    requires ps != [] && AllNames(ps)
    ensures var n := |ps| - 1;
            RegisterType(OpenedRegistry(ps, n), OpenPath(Opened(ps, n)) + ps[n], true, false, false)
              == OpenedRegistry(ps, n).(types := map[Qualify(ps) := Node(true, false)])
  {
    hide IsName, OpenPath, Qualify;
    OpenedPath(ps, |ps| - 1);
    assert ps[..|ps|] == ps;
  }

  lemma StepOnStruct(ts: seq<Token>, m: nat, st: State, p: string)
    requires m + 2 < |ts| && ts[m] == STRUCTURE && ts[m + 1] == Name(p) && ts[m + 2] == SEMICOLON
    requires st.last != Template && !InsideType(st.trk)
    ensures Step(ts, m, st) == (m + 3, StructRead(st, p))
  {
    hide IsAttribute, NameAt, FindBody, RegisterType, OpenPath, InsideType;
    StructTokens(ts, m + 1, p);
  }

  function StructRead(st: State, p: string): State {
    if IsAttribute(p) then st.(last := StructDef)
    else State(RegisterType(st.reg, OpenPath(st.trk) + p, true, false, false), st.trk, StructDef)
  }

  /** Reading `struct p ;`; an attribute word is passed over and nothing is registered. */
  lemma StructStep(ps: seq<string>, ts: seq<Token>, m: nat, last: Kind)
    requires ps != [] && AllNames(ps) && m + 2 < |ts| && last != Template
    requires ts[m] == STRUCTURE && ts[m + 1] == Name(ps[|ps| - 1]) && ts[m + 2] == SEMICOLON
    ensures var n := |ps| - 1;
            Step(ts, m, State(OpenedRegistry(ps, n), Opened(ps, n), last))
              == (m + 3, State(ReadBack(ps), Opened(ps, n), StructDef))
  {
    hide IsName, OpenPath, InsideType, Qualify, IsAttribute, RegisterType, OpenedRegistry, Opened, Step, Tracked;
    var n := |ps| - 1;
    OpenedTracked(ps, n);
    StepOnStruct(ts, m, State(OpenedRegistry(ps, n), Opened(ps, n), last), ps[n]);
    StructRegisters(ps);
  }

  /** Reading the closing braces restores the empty scopes. */
  lemma {:induction false} CloseSteps(ps: seq<string>, k: nat, ts: seq<Token>, m: nat, reg: Registry, last: Kind)
    requires k <= |ps| && AllNames(ps) && m <= |ts| && ts[m..] == Braces(k)
    ensures var st := Discover(ts, m, State(reg, Opened(ps, k), last)); st.reg == reg && st.trk == EMPTY
    decreases k
  {
    hide IsName, Close, PushNamespace, AllNames;
    if k == 0 {
    } else {
      OpenedTracked(ps, k - 1);
      CloseUndoesNamespace(Opened(ps, k - 1), [ps[k - 1]]);
      assert ts[m] == ts[m..][0] == RIGHT;
      assert ts[m + 1..] == ts[m..][1..] == Braces(k - 1);
      CloseSteps(ps, k - 1, ts, m + 1, reg, RBrace);
    }
  }

  lemma {:induction false} DiscoverLine(ps: seq<string>, i: nat, ts: seq<Token>, m: nat, last: Kind)
    requires i < |ps| && AllNames(ps) && m <= |ts| && ts[m..] == LineTokens(ps, i) && last != Template
    ensures var st := Discover(ts, m, State(OpenedRegistry(ps, i), Opened(ps, i), last));
            st.reg == ReadBack(ps) && st.trk == EMPTY
    decreases |ps| - i
  {
    hide IsName, Step, Opened, OpenedRegistry, ReadBack, AllNames, Braces;
    if i == |ps| - 1 {
      TokensHead(ts, m, STRUCTURE, Name(ps[i]), SEMICOLON, Braces(i));
      StructStep(ps, ts, m, last);
      CloseSteps(ps, i, ts, m + 3, ReadBack(ps), StructDef);
    } else {
      TokensHead(ts, m, OPENING, Name(ps[i]), LEFT, LineTokens(ps, i + 1));
      OpenStep(ps, i, ts, m, last);
      DiscoverLine(ps, i + 1, ts, m + 3, NamespaceDef);
    }
  }

  /** The printed declaration undoes its own split: the compiler's first pass, run over the line
      alone, registers exactly the declared name as a type and its prefixes as namespaces, and ends
      with every brace closed. The one exception is a name that is an attribute word. */
  lemma DeclarationReadsBack(ps: seq<string>)
    requires ps != [] && AllNames(ps)
    ensures var st := Discover(Lex(Line(ps)), 0, State(NOTHING, EMPTY, Unknown));
            st.reg == ReadBack(ps) && st.trk == EMPTY &&
            (Qualify(ps) in st.reg.types <==> !IsAttribute(ps[|ps| - 1]))
  {
    hide IsName, Lex, Discover, LineFrom, LineTokens, Qualify, AllNames, IsAttribute;
    LexLine(ps, 0);
    var ts := Lex(Line(ps));
    assert ts[0..] == LineTokens(ps, 0);
    assert OpenedRegistry(ps, 0) == NOTHING by {
      assert OpenedRegistry(ps, 0).namespaces == {};
      assert OpenedRegistry(ps, 0).order == [];
    }
    DiscoverLine(ps, 0, ts, 0, Unknown);
  }

  // ---------------------------------------------------------------- declarations of registered names

  /** A registered type that passes the filters is declared exactly if none of its proper prefixes is
      a type or only a template: the registry knows every prefix, so nothing else can stop it. */
  lemma RegisteredDeclared(reg: Registry, t: string)
    requires Sound(reg) && t in reg.Known() && Eligible(reg, t)
    ensures Declares(reg, t) <==>
            forall k :: 1 <= k < |Parts(t)| ==>
              var prefix := Qualify(Parts(t)[..k]);
              prefix !in reg.types && (prefix in reg.templates ==> prefix in reg.namespaces)
  {
    hide Eligible, Qualify, Parts, OrderMatches, AllNames, IsName;
    assert PrefixesKnown(Parts(t), reg.Known());
  }

  /** For every set of input files and every requested name that is registered: if a line is printed
      for it, its parts joined give the name back, the namespaces it opens are registered as
      namespaces and not as types, and the first pass reads exactly that name from the line. */
  lemma EmittedReadsBack(files: seq<Manifold>, t: string)
    requires var reg := RegistryOf(files); t in reg.Known() && Declares(reg, t)
    ensures var reg, ps := RegistryOf(files), Parts(t);
            Qualify(ps) == t && Openable(reg, ps, |ps| - 1) &&
            var st := Discover(Lex(Line(ps)), 0, State(NOTHING, EMPTY, Unknown));
            st.trk == EMPTY && st.reg.types.Keys == {t} && st.reg.templates == {} &&
            st.reg.namespaces == set k | 1 <= k < |ps| :: Qualify(ps[..k])
  {
    hide RegistryOf, Sound, IsName, Lex, Discover, Line, Qualify, Parts, Eligible, IsAttribute, ReadBack;
    var reg := RegistryOf(files);
    RegistrySound(files);
    KnownNamed(reg, t);
    DeclaredPlain(reg, t);
    var ps := Parts(t);
    PartsQualify(t);
    DeclarationReadsBack(ps);
    ReadBackIs(ps);
  }

  lemma ReadBackIs(ps: seq<string>)
    requires ps != [] && !IsAttribute(ps[|ps| - 1])
    ensures ReadBack(ps).types.Keys == {Qualify(ps)} && ReadBack(ps).templates == {}
    ensures ReadBack(ps).namespaces == set k | 1 <= k < |ps| :: Qualify(ps[..k])
  {
    hide Qualify, IsAttribute;
  }

  /** A known name that passes the filters is a type or a template, and those are not attribute words. */
  lemma DeclaredPlain(reg: Registry, t: string)
    requires Sound(reg) && t in reg.Known() && Eligible(reg, t)
    ensures |t| >= 2 && !IsAttribute(Parts(t)[|Parts(t)| - 1])
  {
    hide Parts, PrefixClosed, OrderMatches, IsAttribute, IsBlacklisted, IsSystem, BaseName;
    assert t in reg.TypeNames();
    assert EndsPlain(t);
  }

  lemma {:induction false} BaseStartIs(t: string, n: nat)
    requires 2 <= |t| && n <= |t| && forall k :: 2 <= k < |t| ==> t[k] != ':'
    ensures BaseStart(t, n) == 2
  {
    if n < 2 {
    } else {
      BaseStartIs(t, n - 1);
    }
  }

  lemma AttributeWord(w: string)
    requires IsAttribute(w)
    ensures IsName(w) && w[0] == '_' && !IsBlacklisted(w)
  {
    hide IsBlacklisted, IsName;
    DeclspecIsName();
    AttributeIsName();
    NotBlacklisted(w);
  }

  lemma DeclspecIsName()
    ensures IsName("__declspec")
  {
  }

  lemma AttributeIsName()
    ensures IsName("__attribute__")
  {
  }

  lemma NotBlacklisted(w: string)
    requires |w| >= 2 && w[0] == '_'
    ensures !IsBlacklisted(w)
  {
  }

  lemma AttributeEligible(w: string)
    requires IsAttribute(w)
    ensures Eligible(NOTHING, SCOPE + w)
  {
    AttributeWord(w);
    hide IsAttribute, IsBlacklisted, WordKind, IsSystem, BaseStart;
    var t := SCOPE + w;
    assert forall k :: 2 <= k < |t| ==> t[k] == w[k - 2];
    BaseStartIs(t, |t|);
    assert BaseName(t) == w;
    NotSystem(t);
  }

  lemma NotSystem(t: string)
    requires |t| > 2 && t[2] == '_'
    ensures !IsSystem(t)
  {
  }

  lemma AttributeRequested(w: string)
    requires IsAttribute(w)
    ensures Request(NOTHING, {}, SCOPE + w) == ({SCOPE + w}, [Line([w])])
  {
    AttributeEligible(w);
    AttributeWord(w);
    hide Eligible, Parts, IsAttribute, IsName, Line, Qualify;
    var t := SCOPE + w;
    assert Qualify([w]) == t by { QualifyOne(w); }
    QualifyParts([w]);
    assert Declares(NOTHING, t);
    assert {} + {t} == {t};
  }

  lemma QualifyOne(w: string)
    ensures Qualify([w]) == SCOPE + w
  {
  }

  /** A request for an attribute word alone: the line is printed, and the first pass reads nothing from it. */
  lemma AttributeLost(w: string)
    requires IsAttribute(w)
    ensures Request(NOTHING, {}, SCOPE + w) == ({SCOPE + w}, [STRUCT + w + ";"])
    ensures Discover(Lex(STRUCT + w + ";"), 0, State(NOTHING, EMPTY, Unknown)).reg.types == map[]
  {
    AttributeWord(w);
    hide Request, Lex, Discover, IsAttribute, IsName, IsBlacklisted, Line;
    AttributeRequested(w);
    LineOfOne(w);
    DeclarationReadsBack([w]);
  }

  lemma LineOfOne(w: string)
    ensures Line([w]) == STRUCT + w + ";"
  {
    assert CloseText(0) == "";
    assert STRUCT + (w + (";" + "")) == STRUCT + w + ";";
  }

  lemma KnownNamed(reg: Registry, t: string)
    requires Sound(reg) && t in reg.Known()
    ensures IsAbsolute(t) && AllNames(Parts(t))
  {
    hide Parts, OrderMatches, IsName, Qualify;
  }

  // ---------------------------------------------------------------- the emitter

  lemma Flatten(o: string, a: string, p: string, b: string, rest: string)
    ensures o + (a + (p + (b + rest))) == o + a + p + b + rest
  {
  }

  lemma SplitHead(t: string, start: nat, ps: seq<string>, k: nat)
    requires start <= |t| && k < |ps| && ps[k..] == SplitFrom(t, start)
    ensures var pos := FindScope(t, start);
            if pos == |t| then k == |ps| - 1 && ps[k] == t[start..]
            else k + 1 < |ps| && ps[k] == t[start..pos] && ps[k + 1..] == SplitFrom(t, pos + 2)
  {
    hide FindScope;
    assert ps[k..][0] == ps[k] && ps[k..][1..] == ps[k + 1..];
  }

  lemma LineStarts(ps: seq<string>)
    requires ps != []
    ensures "" + LineFrom(ps, 0) == Line(ps) && ps[0..] == ps && Prefix(ps[..0], SCOPE) == SCOPE
  {
  }

  /** The emitting closure: the names tried so far and the lines written. */
  class FwdEmitter {
    const reg: Registry
    var tried: set<string>
    var lines: seq<string>

    constructor (reg: Registry)
      ensures this.reg == reg && tried == {} && lines == []
    {
      this.reg, tried, lines := reg, {}, [];
    }

    /** The splitting loop: opens the leading parts one by one and gives up at a prefix that is not
        a namespace, or is also a type. */
    method Split(t: string) returns (line: string, complete: bool)
      requires IsAbsolute(t)
      ensures complete <==> Openable(reg, Parts(t), |Parts(t)| - 1)
      ensures complete ==> line == Line(Parts(t))
    {
      hide Qualify, FindScope, SplitFrom, PureNamespace, Prefix;
      ghost var ps := Parts(t);
      var start, nsOpen, nsClose, currentFq := 2, "", "", SCOPE;
      ghost var k := 0;
      LineStarts(ps);
      while true
        invariant 2 <= start <= |t| && k < |ps| && ps[k..] == SplitFrom(t, start)
        invariant currentFq == Prefix(ps[..k], SCOPE) && Openable(reg, ps, k)
        invariant nsOpen + LineFrom(ps, k) == Line(ps) && nsClose == CloseText(k)
        decreases |t| - start
      {
        var pos := FindScope(t, start);
        SplitHead(t, start, ps, k);
        if pos == |t| {
          line := nsOpen + STRUCT + t[start..] + ";" + nsClose;
          Flatten(nsOpen, STRUCT, t[start..], ";", nsClose);
          return line, true;
        }
        var part := t[start..pos];
        PrefixIs(ps[..k], part);
        PrefixSnoc(ps[..k], part, SCOPE);
        assert ps[..k] + [part] == ps[..k + 1];
        currentFq := currentFq + part;
        if !PureNamespace(reg, currentFq) {
          return "", false;
        }
        Flatten(nsOpen, NAMESPACE, part, OPEN, LineFrom(ps, k + 1));
        nsOpen := nsOpen + NAMESPACE + part + OPEN;
        nsClose := CLOSE + nsClose;
        currentFq := currentFq + SCOPE;
        start, k := pos + 2, k + 1;
      }
    }

    /** One request. */
    method EmitFwd(t: string)
      modifies this
      ensures var r := Request(reg, old(tried), t);
              tried == r.0 && lines == old(lines) + r.1
    {
      hide IsSystem, IsBlacklisted, BaseName, Openable, Line, Parts, PureNamespace;
      if t == "" || '<' in t { return; }
      if t in tried { return; }
      if !IsAbsolute(t) { return; }
      if IsSystem(t) { return; }
      if PureNamespace(reg, t) { return; }
      if t !in reg.primary && (IsBlacklisted(BaseName(t)) || t in reg.templates) { return; }
      tried := tried + {t};
      var line, complete := Split(t);
      if complete { lines := lines + [line]; }
    }

    /** All requests, in order. */
    method EmitAll(requests: seq<string>)
      requires tried == {} && lines == []
      modifies this
      ensures (tried, lines) == Lines(reg, requests, |requests|)
    {
      hide Request;
      for n := 0 to |requests|
        invariant (tried, lines) == Lines(reg, requests, n)
      {
        EmitFwd(requests[n]);
      }
    }
  }
}
