/** Where the rounds of both passes of the metadata compiler start and which namespaces they register
    (src/compiler/meta_compiler.cpp:289-403, 445-640). */
module Places {
  import opened Lexer
  import opened Names
  import opened Scopes
  import opened Registry
  import opened Discovery
  import opened Digest
  import opened Shapes
  import opened Declarations
  import opened Definitions

  // ---------------------------------------------------------------- what a round reads

  /** Behind the first such token, or the end of the text. */
  function Behind(ts: seq<Token>, f: nat): (j: nat)
    requires f <= |ts|
    ensures f <= j <= |ts|
  {
    if f == |ts| then f else f + 1
  }

  /** `template` reads the next token, and its parameters if that is an angle. */
  predicate ReadsTemplate(ts: seq<Token>, i: nat, j: nat)
    requires i < |ts|
  {
    if i + 1 < |ts| && ts[i + 1].kind == LAngle then j == AnglesEnd(ts, i + 2, i + 2)
    else j == Behind(ts, i + 1)
  }

  /** From `a` to `e` stands a namespace head, with a brace or a semicolon or the end of the text behind it. */
  ghost predicate WholeHead(ts: seq<Token>, a: nat, parts: seq<string>, e: nat) {
    a <= e <= |ts| && HeadOf(ts, a, parts, e) && (e < |ts| ==> ts[e].kind in {LBrace, SemiColon})
  }

  /** `namespace` reads its head, which starts at `a`, and what ends it. */
  ghost predicate ReadsNamespace(ts: seq<Token>, a: nat, j: nat) {
    exists parts, e: nat :: WholeHead(ts, a, parts, e) && Behind(ts, e) == j
  }

  /** A class keyword reads to the end of its head, or behind the token that should have been its name. */
  ghost predicate ReadsClass(ts: seq<Token>, i: nat, second: bool, j: nat) {
    exists n: nat :: i < n <= |ts| && Leading(ts, i + 1, n, second) && (n < |ts| ==> Plain(ts[n]))
                     && if NameOf(ts, i, n, second) then j == Ending(ts, n + 1, second).1 else j == Behind(ts, n)
  }

  /** In the second pass `extern` reads a word and what follows it, and `using namespace` to its semicolon. */
  predicate ReadsWord(ts: seq<Token>, i: nat, j: nat)
    requires i < |ts|
  {
    if ts[i].payload == "extern" then
      if i + 1 < |ts| && ts[i + 1].kind in {Identifier, Unknown} then j == Behind(ts, i + 2) else j == Behind(ts, i + 1)
    else if ts[i].payload == "using" && i + 1 < |ts| && ts[i + 1].kind == NamespaceDef then
      j == Behind(ts, First(ts, i + 2, {SemiColon}))
    else j == i + 1
  }

  /** Behind an argument: the first comma or closing parenthesis outside everything opened in it. */
  function ArgumentEnd(ts: seq<Token>, a: nat): (j: nat)
    requires a <= |ts|
    ensures a <= j <= |ts|
  {
    Behind(ts, FirstFlat(ts, a, a, {Comma, RParen}))
  }

  /** In the second pass a context registration reads its two arguments, if a parenthesis follows. */
  predicate ReadsContext(ts: seq<Token>, i: nat, j: nat)
    requires i < |ts|
  {
    if i + 1 < |ts| && ts[i + 1].kind == LParen then j == ArgumentEnd(ts, ArgumentEnd(ts, i + 2))
    else j == Behind(ts, i + 1)
  }

  /** A round that starts at `i` ends at `j`. */
  ghost predicate Reads(ts: seq<Token>, i: nat, second: bool, j: nat)
    requires i < |ts|
  {
    match ts[i].kind
    case Template => ReadsTemplate(ts, i, j)
    case NamespaceDef => ReadsNamespace(ts, i + 1, j)
    case ClassDef => ReadsClass(ts, i, second, j)
    case StructDef => ReadsClass(ts, i, second, j)
    case Identifier => if second then ReadsWord(ts, i, j) else j == i + 1
    case RegisterContext => if second then ReadsContext(ts, i, j) else j == i + 1
    case _ => j == i + 1
  }

  lemma TemplateReads(ts: seq<Token>, i: nat)
    requires i < |ts|
    ensures ReadsTemplate(ts, i, SkipTemplate(ts, i + 1))
  {
    hide SkipAngles, AnglesEnd, CountToken;
    if i + 1 < |ts| {
      assert DepthsAt(ts, i + 2, i + 2) == Depths(1, 0, 0, 0);
      SkipAnglesIs(ts, i + 2, i + 2);
    }
  }

  lemma NamespaceReads(ts: seq<Token>, i: nat)
    requires i < |ts|
    ensures ReadsNamespace(ts, i + 1, ReadNamespace(ts, i + 1, []).next)
  {
    hide HeadOf, ReadNamespace;
    var parts, e := HeadStands(ts, i + 1);
    HeadRead(ts, i + 1, [], parts, e);
    assert WholeHead(ts, i + 1, parts, e);
  }

  lemma ClassReads(ts: seq<Token>, i: nat, st: State)
    requires i < |ts| && (ts[i].kind == ClassDef || ts[i].kind == StructDef)
    ensures ReadsClass(ts, i, false, Step(ts, i, st).0)
  {
    hide Leading, NameAt, NameOf, FindBody, Ending, EnterType, Plain;
    var n := NameAt(ts, i + 1, false);
    NameAtLeads(ts, i + 1, false);
    NameOfIs(ts, i, n, false);
    if n < |ts| { FindBodyIs(ts, n + 1); }
  }

  lemma DefinitionReads(ts: seq<Token>, i: nat, st: State, primary: bool)
    requires i < |ts| && (ts[i].kind == ClassDef || ts[i].kind == StructDef)
    ensures ReadsClass(ts, i, true, DigestStep(ts, i, st, primary).0)
  {
    hide Leading, NameAt, NameOf, BodyEnd, Ending, DefineType, Plain, IsInternal;
    var n := NameAt(ts, i + 1, true);
    NameAtLeads(ts, i + 1, true);
    NameOfIs(ts, i, n, true);
    if n < |ts| { BodyEndIs(ts, n + 1); }
  }

  lemma {:induction false} PastSemicolonIs(ts: seq<Token>, i: nat)
    requires i <= |ts|
    ensures PastSemicolon(ts, i) == Behind(ts, First(ts, i, {SemiColon}))
    decreases |ts| - i
  {
    if i == |ts| || ts[i].kind == SemiColon {
    } else {
      PastSemicolonIs(ts, i + 1);
    }
  }

  lemma WordReads(ts: seq<Token>, i: nat, st: State)
    requires i < |ts|
    ensures ReadsWord(ts, i, WordStep(ts, i, st).0)
  {
    hide PastSemicolon, First, Open;
    if i + 2 <= |ts| { PastSemicolonIs(ts, i + 2); }
  }

  lemma ArgumentIs(ts: seq<Token>, a: nat)
    requires a <= |ts|
    ensures TypeEnd(ts, a, FLAT, true).1 == ArgumentEnd(ts, a)
  {
    hide TypeEnd, FirstFlat, NestingAt;
    NestingStart(ts, a);
    TypeEndIs(ts, a, a, true);
  }

  lemma ContextReads(ts: seq<Token>, i: nat)
    requires i < |ts|
    ensures ReadsContext(ts, i, ContextEnd(ts, i + 1))
  {
    hide TypeEnd, ArgumentEnd;
    if i + 1 < |ts| && ts[i + 1].kind == LParen {
      ArgumentIs(ts, i + 2);
      ArgumentIs(ts, ArgumentEnd(ts, i + 2));
    }
  }

  /** A round of the first pass ends where the shape it stands on ends. */
  lemma RoundReads(ts: seq<Token>, i: nat, st: State)
    requires i < |ts|
    ensures Reads(ts, i, false, Step(ts, i, st).0)
  {
    hide ReadsTemplate, ReadsNamespace, ReadsClass, ReadNamespace, ClassStep, SkipTemplate;
    match ts[i].kind {
      case Template => TemplateReads(ts, i);
      case NamespaceDef => NamespaceReads(ts, i);
      case ClassDef => ClassReads(ts, i, st);
      case StructDef => ClassReads(ts, i, st);
      case _ =>
    }
  }

  /** A round of the second pass ends where the shape it stands on ends. */
  lemma DigestReads(ts: seq<Token>, i: nat, st: State, primary: bool)
    requires i < |ts|
    ensures Reads(ts, i, true, DigestStep(ts, i, st, primary).0)
  {
    hide ReadsTemplate, ReadsNamespace, ReadsClass, ReadsWord, ReadsContext, ReadNamespace, DefineStep, SkipTemplate,
         WordStep, ContextEnd;
    match ts[i].kind {
      case Template => TemplateReads(ts, i);
      case NamespaceDef => NamespaceReads(ts, i);
      case ClassDef => DefinitionReads(ts, i, st, primary);
      case StructDef => DefinitionReads(ts, i, st, primary);
      case Identifier => WordReads(ts, i, st);
      case RegisterContext => ContextReads(ts, i);
      case _ =>
    }
  }

  /** In both passes a round starts where the one before ended, until the text is read. */
  lemma {:induction false} PlaceNext(ts: seq<Token>, second: bool, k: nat)
    ensures At(ts, second, 0).0 == 0
    ensures var i, j := At(ts, second, k).0, At(ts, second, k + 1).0;
            if i < |ts| then Reads(ts, i, second, j) else j == i
  {
    hide Reads, Step, DigestStep;
    var (i, st) := At(ts, second, k);
    DigestSnoc(ts, 0, START, false, k);
    RoundsSnoc(ts, 0, START, k);
    if i < |ts| {
      if second { DigestReads(ts, i, st, false); } else { RoundReads(ts, i, st); }
    }
  }

  // ---------------------------------------------------------------- which namespaces are registered

  /** The `k`-th round opens a namespace with this full name. */
  ghost predicate NamespaceAs(ts: seq<Token>, second: bool, k: nat, t: string) {
    var (i, st) := At(ts, second, k);
    exists parts, e: nat :: OpensNamespace(ts, i, parts, e) && Within(OpenNames(st.trk), parts, t)
  }

  /** The full name of one of the parts below the open scopes. */
  predicate Within(open: seq<string>, parts: seq<string>, t: string) {
    exists p :: 0 < p <= |parts| && t == Qualify(open + parts[..p])
  }

  lemma {:induction false} NamespacesAdded(r: Registry, open: seq<string>, parts: seq<string>, i: nat, t: string)
    requires i <= |parts|
    ensures t in AddNamespaces(r, Prefix(open + parts[..i], SCOPE), parts, i).namespaces <==>
            t in r.namespaces || exists p :: i < p <= |parts| && t == Qualify(open + parts[..p])
    decreases |parts| - i
  {
    hide Qualify, Prefix;
    if i == |parts| {
    } else {
      var here := open + parts[..i];
      PrefixIs(here, parts[i]);
      PrefixSnoc(here, parts[i], SCOPE);
      assert here + [parts[i]] == open + parts[..i + 1];
      NamespacesAdded(AddNamespace(r, Prefix(here, SCOPE) + parts[i]), open, parts, i + 1, t);
      if t == Qualify(open + parts[..i + 1]) {
        assert i < i + 1 <= |parts| && t == Qualify(open + parts[..i + 1]);
      }
    }
  }

  lemma HeadRegisters(ts: seq<Token>, i: nat, st: State, t: string)
    requires i < |ts| && ts[i].kind == NamespaceDef
    ensures t in EnterNamespace(st, ReadNamespace(ts, i + 1, [])).reg.namespaces <==>
            || t in st.reg.namespaces
            || exists parts, e: nat :: OpensNamespace(ts, i, parts, e) && Within(OpenNames(st.trk), parts, t)
  {
    hide OpensNamespace, ReadNamespace, AddNamespaces, Prefix, Qualify, ScopeNames, Path, PushNamespace;
    if parts, e: nat :| OpensNamespace(ts, i, parts, e) {
      forall parts', e': nat | OpensNamespace(ts, i, parts', e') ensures parts' == parts {
        NamespaceIs(ts, i, parts, e);
        NamespaceIs(ts, i, parts', e');
      }
      NamespaceIs(ts, i, parts, e);
      var open := OpenNames(st.trk);
      PathIsPrefix(st.trk.stack, |st.trk.stack|);
      assert open + parts[..0] == open;
      NamespacesAdded(st.reg, open, parts, 0, t);
    } else {
      NotEntered(ts, i);
    }
  }

  lemma RoundNamespaces(ts: seq<Token>, i: nat, st: State, t: string)
    requires i < |ts|
    ensures t in Step(ts, i, st).1.reg.namespaces <==>
            || t in st.reg.namespaces
            || exists parts, e: nat :: OpensNamespace(ts, i, parts, e) && Within(OpenNames(st.trk), parts, t)
  {
    hide Within, HeadOf, ReadNamespace, EnterNamespace, NameAt, FindBody, SkipTemplate, OpenNames, OpenPath;
    if ts[i].kind == NamespaceDef { HeadRegisters(ts, i, st, t); }
  }

  lemma DigestNamespaces(ts: seq<Token>, i: nat, st: State, primary: bool, t: string)
    requires i < |ts|
    ensures t in DigestStep(ts, i, st, primary).1.reg.namespaces <==>
            || t in st.reg.namespaces
            || exists parts, e: nat :: OpensNamespace(ts, i, parts, e) && Within(OpenNames(st.trk), parts, t)
  {
    hide Within, HeadOf, ReadNamespace, EnterNamespace, NameAt, BodyEnd, SkipTemplate, OpenNames, OpenPath, IsInternal,
         ContextEnd, ExternEnd, PastSemicolon, Anonymous, InsideType;
    if ts[i].kind == NamespaceDef { HeadRegisters(ts, i, st, t); }
  }

  lemma {:induction false} NamespacesFound(ts: seq<Token>, reg: Registry, k: nat, t: string)
    ensures t in FoundBy(ts, reg, k).namespaces <==>
            t in reg.namespaces || exists m: nat :: m < k && NamespaceAs(ts, false, m, t)
  {
    hide Step, NamespaceAs;
    if k == 0 {
    } else {
      hide Rounds;
      NamespacesFound(ts, reg, k - 1, t);
      RoundsSnoc(ts, 0, START.(reg := reg), k - 1);
      SameRounds(ts, 0, START, reg, k - 1);
      var (i, st) := Rounds(ts, 0, START.(reg := reg), k - 1);
      NamespaceAsIs(ts, false, k - 1, t);
      if i < |ts| { RoundNamespaces(ts, i, st, t); }
    }
  }

  lemma NamespaceAsIs(ts: seq<Token>, second: bool, k: nat, t: string)
    ensures NamespaceAs(ts, second, k, t) <==>
            exists parts, e: nat ::
              OpensNamespace(ts, At(ts, second, k).0, parts, e) &&
              Within(OpenNames(At(ts, second, k).1.trk), parts, t)
    ensures At(ts, second, k).0 == |ts| ==> !NamespaceAs(ts, second, k, t)
  {
    hide At, Within, OpenNames, HeadOf;
  }

  lemma {:induction false} NamespacesDefined(ts: seq<Token>, reg: Registry, primary: bool, k: nat, t: string)
    ensures t in DefinedBy(ts, reg, primary, k).namespaces <==>
            t in reg.namespaces || exists m: nat :: m < k && NamespaceAs(ts, true, m, t)
  {
    hide DigestStep, NamespaceAs;
    if k == 0 {
    } else {
      hide DigestRounds;
      NamespacesDefined(ts, reg, primary, k - 1, t);
      DigestSnoc(ts, 0, START.(reg := reg), primary, k - 1);
      SameDigest(ts, 0, START, reg, false, primary, k - 1);
      var (i, st) := DigestRounds(ts, 0, START.(reg := reg), primary, k - 1);
      NamespaceAsIs(ts, true, k - 1, t);
      if i < |ts| { DigestNamespaces(ts, i, st, primary, t); }
    }
  }

  /** After each pass the namespaces are those known before and those some round opens. */
  lemma {:induction false} PassNamespaces(ts: seq<Token>, reg: Registry, primary: bool, t: string)
    ensures t in Found(ts, reg).namespaces <==>
            t in reg.namespaces || exists m: nat :: NamespaceAs(ts, false, m, t)
    ensures t in Defined(ts, reg, primary).namespaces <==>
            t in reg.namespaces || exists m: nat :: NamespaceAs(ts, true, m, t)
  {
    hide Found, FoundBy, Defined, DefinedBy, NamespaceAs;
    FoundAfter(ts, reg, |ts|);
    NamespacesFound(ts, reg, |ts|, t);
    DefinedAfter(ts, reg, primary, |ts|);
    NamespacesDefined(ts, reg, primary, |ts|, t);
    forall m: nat ensures NamespaceAs(ts, false, m, t) ==> t in Found(ts, reg).namespaces {
      FoundAfter(ts, reg, |ts| + m + 1);
      NamespacesFound(ts, reg, |ts| + m + 1, t);
    }
    forall m: nat ensures NamespaceAs(ts, true, m, t) ==> t in Defined(ts, reg, primary).namespaces {
      DefinedAfter(ts, reg, primary, |ts| + m + 1);
      NamespacesDefined(ts, reg, primary, |ts| + m + 1, t);
    }
  }

  // ---------------------------------------------------------------- the common shapes

  /** At `i` stands `class x` or `struct x`. */
  predicate ClassAt(ts: seq<Token>, i: nat, x: string) {
    && i + 1 < |ts| && (ts[i].kind == ClassDef || ts[i].kind == StructDef) && ts[i + 1] == Token(Identifier, x)
    && x != "__attribute__" && x != "__declspec"
  }

  /** Behind `a` stands `;`, `{` or `: bases {` with bases without brackets and angles; up to `f` it is read. */
  predicate HeadAt(ts: seq<Token>, a: nat, f: nat) {
    && a <= f < |ts|
    && (|| (a == f && ts[f].kind in {SemiColon, LBrace})
        || (&& a < f && ts[a].kind == Colon && ts[f].kind == LBrace && Bare(ts, a + 1, f)
            && forall m :: a < m < f ==> ts[m].kind != SemiColon))
  }

  lemma ShapeEnds(ts: seq<Token>, a: nat, f: nat, second: bool)
    requires HeadAt(ts, a, f)
    ensures Ending(ts, a, second) == (ts[f].kind == LBrace, f + 1)
  {
    hide Ending, Bare;
    if a == f { HeadEnds(ts, a, second); } else { BasesThenBody(ts, a, f, second); }
  }

  lemma ShapeNames(ts: seq<Token>, i: nat, x: string, second: bool)
    requires ClassAt(ts, i, x) && (second ==> x != "meta_traits" && x != "typelist")
    ensures NameOf(ts, i, i + 1, second)
  {
  }

  /** `class x ;`, `class x {` and `class x : bases {` register x below the open scopes; the braces open its scope. */
  lemma ClassShape(ts: seq<Token>, i: nat, x: string, f: nat, st: State)
    requires ClassAt(ts, i, x) && HeadAt(ts, i + 2, f)
    ensures var (j, st') := Step(ts, i, st);
            var name := Qualify(OpenNames(st.trk) + [x]);
            && j == f + 1 && name in st'.reg.types
            && (name !in st.reg.types ==> st'.reg.types[name] == Node(ts[i].kind == StructDef, InsideType(st.trk)))
            && (name in st'.reg.templates <==> name in st.reg.templates || st.last == Template)
            && (name in st'.reg.nested <==> name in st.reg.nested || InsideType(st.trk))
            && st'.trk == if ts[f].kind == LBrace then PushType(st.trk, x) else st.trk
  {
    hide NameOf, HeadAt, Ending, Step, Qualify, OpenNames, InsideType, PushType;
    ShapeNames(ts, i, x, false);
    ShapeEnds(ts, i + 2, f, false);
    ClassRound(ts, i, i + 1, st);
  }

  /** The same shapes in the second pass. In a primary text a body makes x a primary type, unless it is nested,
      behind `template` or in an anonymous namespace. */
  lemma DefinitionShape(ts: seq<Token>, i: nat, x: string, f: nat, st: State, primary: bool)
    requires ClassAt(ts, i, x) && x != "meta_traits" && x != "typelist" && HeadAt(ts, i + 2, f)
    ensures var (j, st') := DigestStep(ts, i, st, primary);
            var name := Qualify(OpenNames(st.trk) + [x]);
            && j == f + 1 && st'.trk == (if ts[f].kind == LBrace then PushType(st.trk, x) else st.trk)
            && (if st.last == Template then name in st'.reg.templates && st'.reg.primary == st.reg.primary
                else && name in st'.reg.types
                     && st'.reg.types[name] == Node(ts[i].kind == StructDef, InsideType(st.trk))
                     && (name in st'.reg.primary <==>
                         || name in st.reg.primary
                         || (primary && ts[f].kind == LBrace && !InsideType(st.trk) && !Anonymous(st.trk))))
  {
    hide NameOf, HeadAt, Ending, DigestStep, Qualify, OpenNames, InsideType, PushType, Anonymous;
    ShapeNames(ts, i, x, true);
    ShapeEnds(ts, i + 2, f, true);
    DefinitionRound(ts, i, i + 1, st, primary);
  }

  /** `template < parameters >` in front of these shapes, with parameters without brackets and angles. */
  predicate TemplateAt(ts: seq<Token>, i: nat, c: nat) {
    && i + 2 < c < |ts| && ts[i].kind == Template && ts[i + 1].kind == LAngle
    && ts[c - 1].kind == RAngle && Bare(ts, i + 2, c - 1)
  }

  lemma TemplateRound(ts: seq<Token>, i: nat, c: nat, st: State, primary: bool)
    requires TemplateAt(ts, i, c)
    ensures Step(ts, i, st) == (c, st.(last := Template))
    ensures DigestStep(ts, i, st, primary) == (c, st.(last := Template))
  {
    hide SkipTemplate, AnglesEnd, Bare;
    TemplateReads(ts, i);
    ParametersEnd(ts, i + 2, c - 1);
  }

  /** Two rounds of the first pass read `template < parameters > class x ...` and list x as a template and a type. */
  lemma TemplateShape(ts: seq<Token>, i: nat, c: nat, x: string, f: nat, st: State)
    requires TemplateAt(ts, i, c) && ClassAt(ts, c, x) && HeadAt(ts, c + 2, f)
    ensures var (j, st') := Rounds(ts, i, st, 2);
            var name := Qualify(OpenNames(st.trk) + [x]);
            && j == f + 1 && name in st'.reg.templates && name in st'.reg.types
            && st'.trk == if ts[f].kind == LBrace then PushType(st.trk, x) else st.trk
  {
    hide TemplateAt, ClassAt, HeadAt, Step, Qualify, OpenNames, InsideType, PushType;
    TemplateBefore(ts, i, c);
    TemplateRound(ts, i, c, st, false);
    ClassShape(ts, c, x, f, st.(last := Template));
    var s := st.(last := Template);
    assert Rounds(ts, i, st, 2) == Rounds(ts, c, s, 1);
    assert Rounds(ts, c, s, 1) == Rounds(ts, Step(ts, c, s).0, Step(ts, c, s).1, 0);
  }

  lemma TemplateBefore(ts: seq<Token>, i: nat, c: nat)
    requires TemplateAt(ts, i, c)
    ensures i < c < |ts|
  {
    hide Bare;
  }
}
