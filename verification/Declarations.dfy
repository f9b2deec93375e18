/** What both passes of the metadata compiler find in a text (src/compiler/meta_compiler.cpp:279-421, 427-747).

    `Declared` says, on the tokens and the scopes open there, which class a round declares; it does not mention
    the functions that specify the rounds. The theorems say that a registry holds exactly what was declared:
    `FirstPassFinds` for the first pass and `SecondPassFinds` for the second. */
module Declarations {
  import opened Wrappers
  import opened Lexer
  import opened Names
  import opened Scopes
  import opened Registry
  import opened Discovery
  import opened Digest
  import opened Shapes

  // ---------------------------------------------------------------- what a round declares

  const START := State(NOTHING, EMPTY, Unknown)

  /** Where the `k`-th round of a pass starts, and with which scopes open. */
  function At(ts: seq<Token>, second: bool, k: nat): (r: (nat, State))
    ensures r.0 <= |ts|
  {
    if second then DigestRounds(ts, 0, START, false, k) else Rounds(ts, 0, START, k)
  }

  /** A declared class: its full name, its kind, whether it stands behind `template`, whether it has a body and
      whether an anonymous namespace is open around it. */
  datatype Declaration = Declaration(name: string, node: Node, template: bool, body: bool, hidden: bool)

  /** The round before the `k`-th was on `template`. */
  predicate BehindTemplate(ts: seq<Token>, second: bool, k: nat) {
    0 < k && var i := At(ts, second, k - 1).0; i < |ts| && ts[i].kind == Template
  }

  /** The class declared by the `k`-th round, if there is one. */
  ghost function Declared(ts: seq<Token>, second: bool, k: nat): Option<Declaration> {
    var (i, st) := At(ts, second, k);
    if exists n: nat :: NameOf(ts, i, n, second) then
      var n: nat :| NameOf(ts, i, n, second);
      Some(Declaration(Qualify(OpenNames(st.trk) + [ts[n].payload]),
                       Node(ts[i].kind == StructDef, InsideType(st.trk)),
                       BehindTemplate(ts, second, k),
                       Ending(ts, n + 1, second).0,
                       Anonymous(st.trk)))
    else None
  }

  ghost predicate DeclaredAs(ts: seq<Token>, second: bool, k: nat, t: string) {
    Declared(ts, second, k).Some? && Declared(ts, second, k).value.name == t
  }

  /** The name behind a keyword is the only one. */
  lemma DeclaredIs(ts: seq<Token>, second: bool, k: nat, n: nat)
    requires NameOf(ts, At(ts, second, k).0, n, second)
    ensures var (i, st) := At(ts, second, k);
            Declared(ts, second, k) ==
              Some(Declaration(Qualify(OpenNames(st.trk) + [ts[n].payload]),
                               Node(ts[i].kind == StructDef, InsideType(st.trk)), BehindTemplate(ts, second, k),
                               Ending(ts, n + 1, second).0, Anonymous(st.trk)))
  {
    hide NameOf, At, BehindTemplate, Ending, Qualify, OpenNames, InsideType, Anonymous, NameAt;
    var i := At(ts, second, k).0;
    forall m: nat | NameOf(ts, i, m, second) ensures m == n {
      NameOfKeyword(ts, i, m, second);
      NameOfIs(ts, i, m, second);
      NameOfIs(ts, i, n, second);
    }
  }

  lemma NameOfKeyword(ts: seq<Token>, i: nat, n: nat, second: bool)
    requires NameOf(ts, i, n, second)
    ensures i < n < |ts| && (ts[i].kind == ClassDef || ts[i].kind == StructDef)
  {
  }

  lemma OpenName(trk: Tracker, x: string)
    ensures OpenPath(trk) + x == Qualify(OpenNames(trk) + [x])
  {
    hide Qualify, Path, Prefix, ScopeNames;
    PathIsPrefix(trk.stack, |trk.stack|);
    PrefixIs(OpenNames(trk), x);
  }

  // ---------------------------------------------------------------- one round of the first pass

  /** A round on a class keyword followed by a name registers the name below the open scopes, as what the keyword
      says unless it is known already, and opens the scope of its body if there is one. */
  lemma ClassRound(ts: seq<Token>, i: nat, n: nat, st: State)
    requires i < |ts| && NameOf(ts, i, n, false)
    ensures var (j, st') := Step(ts, i, st);
            var x, name := ts[n].payload, Qualify(OpenNames(st.trk) + [ts[n].payload]);
            var (body, e) := Ending(ts, n + 1, false);
            && j == e
            && st'.reg.types == (if name in st.reg.types then st.reg.types
                                 else st.reg.types[name := Node(ts[i].kind == StructDef, InsideType(st.trk))])
            && st'.reg.nested == (if InsideType(st.trk) then st.reg.nested + {name} else st.reg.nested)
            && st'.reg.templates == (if st.last == Template then st.reg.templates + {name} else st.reg.templates)
            && st'.reg == st.reg.(types := st'.reg.types, nested := st'.reg.nested, templates := st'.reg.templates)
            && st'.trk == if body then PushType(st.trk, x) else st.trk
  {
    hide NameOf, Step, Ending, Qualify, OpenPath, OpenNames, InsideType, PushType;
    NameOfKeyword(ts, i, n, false);
    ClassRead(ts, i, n, st);
    OpenName(st.trk, ts[n].payload);
  }

  lemma ClassRead(ts: seq<Token>, i: nat, n: nat, st: State)
    requires i < n < |ts| && NameOf(ts, i, n, false)
    ensures var (body, e) := Ending(ts, n + 1, false);
            var st' := EnterType(st, ts[n].payload, ts[i].kind == StructDef, body);
            Step(ts, i, st) == (e, st'.(last := ts[i].kind))
  {
    hide NameOf, NameAt, FindBody, Ending, EnterType;
    NameOfKeyword(ts, i, n, false);
    NameOfIs(ts, i, n, false);
    FindBodyIs(ts, n + 1);
  }

  /** Every other round leaves types, templates and primary types as they are. */
  lemma SilentRound(ts: seq<Token>, i: nat, st: State)
    requires i < |ts| && forall n: nat :: !NameOf(ts, i, n, false)
    ensures var reg := Step(ts, i, st).1.reg;
            && reg.types == st.reg.types && reg.nested == st.reg.nested
            && reg.templates == st.reg.templates && reg.primary == st.reg.primary
  {
    hide NameOf, NameAt, FindBody, ReadNamespace, SkipTemplate, Open, Close, AddNamespaces, PushNamespace, OpenPath;
    if ts[i].kind == ClassDef || ts[i].kind == StructDef {
      NameOfIs(ts, i, NameAt(ts, i + 1, false), false);
    } else if ts[i].kind == NamespaceDef {
      NamespacesOnly(st.reg, OpenPath(st.trk), ReadNamespace(ts, i + 1, []).parts, 0);
    }
  }

  lemma {:induction false} NamespacesOnly(r: Registry, path: string, parts: seq<string>, i: nat)
    requires i <= |parts|
    ensures var r' := AddNamespaces(r, path, parts, i);
            r'.types == r.types && r'.nested == r.nested && r'.templates == r.templates && r'.primary == r.primary
    decreases |parts| - i
  {
    if i == |parts| {
    } else {
      NamespacesOnly(AddNamespace(r, path + parts[i]), path + parts[i] + SCOPE, parts, i + 1);
    }
  }

  // ---------------------------------------------------------------- the places of the rounds

  lemma SameStep(ts: seq<Token>, i: nat, st: State, reg: Registry)
    requires i < |ts|
    ensures var a, b := Step(ts, i, st), Step(ts, i, st.(reg := reg));
            a.0 == b.0 && b.1 == a.1.(reg := b.1.reg)
  {
    hide NameAt, FindBody, ReadNamespace, SkipTemplate, Open, Close, AddNamespaces, PushNamespace, PushType,
         RegisterType, OpenPath, InsideType;
  }

  /** Where the rounds start and which scopes are open does not depend on what is registered. */
  lemma {:induction false} SameRounds(ts: seq<Token>, i: nat, st: State, reg: Registry, k: nat)
    requires i <= |ts|
    ensures var a, b := Rounds(ts, i, st, k), Rounds(ts, i, st.(reg := reg), k);
            a.0 == b.0 && b.1 == a.1.(reg := b.1.reg)
    decreases k
  {
    hide Step;
    if k == 0 || i == |ts| {
    } else {
      var a, b := Step(ts, i, st), Step(ts, i, st.(reg := reg));
      SameStep(ts, i, st, reg);
      SameRounds(ts, a.0, a.1, b.1.reg, k - 1);
    }
  }

  /** One round more is a round on what the rounds before have left. */
  lemma {:induction false} RoundsSnoc(ts: seq<Token>, i: nat, st: State, k: nat)
    requires i <= |ts|
    ensures var (j, s) := Rounds(ts, i, st, k);
            Rounds(ts, i, st, k + 1) == if j == |ts| then (j, s) else Step(ts, j, s)
    decreases k
  {
    hide Step;
    if k == 0 || i == |ts| {
    } else {
      var (j, st') := Step(ts, i, st);
      RoundsSnoc(ts, j, st', k - 1);
    }
  }

  lemma LastRound(ts: seq<Token>, k: nat)
    requires At(ts, false, k).0 < |ts|
    ensures At(ts, false, k).1.last == Template <==> BehindTemplate(ts, false, k)
  {
    hide Step, Rounds;
    if k == 0 {
      assert Rounds(ts, 0, START, 0) == (0, START) by { NoRounds(ts); }
    } else {
      RoundsSnoc(ts, 0, START, k - 1);
    }
  }

  lemma NoRounds(ts: seq<Token>)
    ensures Rounds(ts, 0, START, 0) == (0, START)
  {
  }

  // ---------------------------------------------------------------- what the first pass finds

  /** The registry with one more declared class. */
  predicate Registers(r: Registry, r': Registry, d: Declaration) {
    && r'.types == (if d.name in r.types then r.types else r.types[d.name := d.node])
    && r'.nested == (if d.node.isNested then r.nested + {d.name} else r.nested)
    && r'.templates == (if d.template then r.templates + {d.name} else r.templates)
    && r'.primary == r.primary
  }

  predicate SameTypes(r: Registry, r': Registry) {
    r'.types == r.types && r'.nested == r.nested && r'.templates == r.templates && r'.primary == r.primary
  }

  /** What the registry is after `k` rounds of the first pass. */
  function FoundBy(ts: seq<Token>, reg: Registry, k: nat): Registry {
    Rounds(ts, 0, START.(reg := reg), k).1.reg
  }

  lemma RoundFinds(ts: seq<Token>, reg: Registry, k: nat)
    ensures match Declared(ts, false, k)
            case Some(d) => Registers(FoundBy(ts, reg, k), FoundBy(ts, reg, k + 1), d)
            case None => SameTypes(FoundBy(ts, reg, k), FoundBy(ts, reg, k + 1))
  {
    hide NameOf, Step, Rounds, Ending, Qualify, OpenNames, InsideType, Anonymous, BehindTemplate;
    var (i, st) := Rounds(ts, 0, START.(reg := reg), k);
    RoundsSnoc(ts, 0, START.(reg := reg), k);
    SameRounds(ts, 0, START, reg, k);
    if exists n: nat :: NameOf(ts, i, n, false) {
      var n: nat :| NameOf(ts, i, n, false);
      NameOfKeyword(ts, i, n, false);
      DeclaredIs(ts, false, k, n);
      ClassRound(ts, i, n, st);
      LastRound(ts, k);
    } else if i < |ts| {
      SilentRound(ts, i, st);
    }
  }

  lemma {:induction false} TypesFound(ts: seq<Token>, reg: Registry, k: nat, t: string)
    ensures t in FoundBy(ts, reg, k).types <==>
            t in reg.types || exists m: nat :: m < k && DeclaredAs(ts, false, m, t)
    ensures FoundBy(ts, reg, k).primary == reg.primary
  {
    hide Declared;
    if k == 0 {
    } else {
      hide FoundBy;
      TypesFound(ts, reg, k - 1, t);
      RoundFinds(ts, reg, k - 1);
      assert DeclaredAs(ts, false, k - 1, t) || !DeclaredAs(ts, false, k - 1, t);
    }
  }

  /** Declared behind `template`. */
  ghost predicate TemplateAs(ts: seq<Token>, second: bool, k: nat, t: string) {
    DeclaredAs(ts, second, k, t) && Declared(ts, second, k).value.template
  }

  ghost predicate NestedAs(ts: seq<Token>, second: bool, k: nat, t: string) {
    DeclaredAs(ts, second, k, t) && Declared(ts, second, k).value.node.isNested
  }

  lemma {:induction false} MarksFound(ts: seq<Token>, reg: Registry, k: nat, t: string)
    ensures t in FoundBy(ts, reg, k).templates <==>
            t in reg.templates || exists m: nat :: m < k && TemplateAs(ts, false, m, t)
    ensures t in FoundBy(ts, reg, k).nested <==>
            t in reg.nested || exists m: nat :: m < k && NestedAs(ts, false, m, t)
  {
    hide Declared;
    if k == 0 {
    } else {
      hide FoundBy;
      MarksFound(ts, reg, k - 1, t);
      RoundFinds(ts, reg, k - 1);
      assert TemplateAs(ts, false, k - 1, t) || !TemplateAs(ts, false, k - 1, t);
      assert NestedAs(ts, false, k - 1, t) || !NestedAs(ts, false, k - 1, t);
    }
  }

  /** A new type is what its first declaration says. */
  lemma {:induction false} NodeFound(ts: seq<Token>, reg: Registry, k: nat, t: string, m: nat)
    requires m < k && DeclaredAs(ts, false, m, t) && forall q: nat :: q < m ==> !DeclaredAs(ts, false, q, t)
    ensures t in FoundBy(ts, reg, k).types
    ensures FoundBy(ts, reg, k).types[t] == if t in reg.types then reg.types[t] else Declared(ts, false, m).value.node
    decreases k
  {
    hide Declared, FoundBy;
    RoundFinds(ts, reg, k - 1);
    if k == m + 1 {
      TypesFound(ts, reg, m, t);
      KnownKept(ts, reg, m, t);
    } else {
      NodeFound(ts, reg, k - 1, t, m);
    }
  }

  /** A known type stays what it is. */
  lemma {:induction false} KnownKept(ts: seq<Token>, reg: Registry, k: nat, t: string)
    ensures t in reg.types ==> t in FoundBy(ts, reg, k).types && FoundBy(ts, reg, k).types[t] == reg.types[t]
  {
    hide Declared;
    if k == 0 {
    } else {
      hide FoundBy;
      KnownKept(ts, reg, k - 1, t);
      RoundFinds(ts, reg, k - 1);
    }
  }

  /** The registry after the first pass over a text. */
  function Found(ts: seq<Token>, reg: Registry): Registry { Discover(ts, 0, State(reg, EMPTY, Unknown)).reg }

  lemma FoundAfter(ts: seq<Token>, reg: Registry, k: nat)
    requires |ts| <= k
    ensures FoundBy(ts, reg, k) == Found(ts, reg)
  {
    hide Rounds, Discover;
    RoundsFinish(ts, 0, START.(reg := reg), k);
  }

  /** After the first pass the types are those known before and those some round declares. A new one is what its
      first declaration says. The templates and the nested types are those so declared. */
  lemma {:induction false} FirstPassFinds(ts: seq<Token>, reg: Registry, t: string)
    ensures var r := Found(ts, reg);
            && (t in r.types <==> t in reg.types || exists m: nat :: DeclaredAs(ts, false, m, t))
            && (t in r.templates <==> t in reg.templates || exists m: nat :: TemplateAs(ts, false, m, t))
            && (t in r.nested <==> t in reg.nested || exists m: nat :: NestedAs(ts, false, m, t))
            && r.primary == reg.primary
  {
    hide Found, FoundBy, DeclaredAs, TemplateAs, NestedAs;
    FoundAfter(ts, reg, |ts|);
    TypesFound(ts, reg, |ts|, t);
    MarksFound(ts, reg, |ts|, t);
    forall m: nat ensures DeclaredAs(ts, false, m, t) ==> t in Found(ts, reg).types {
      FoundAfter(ts, reg, |ts| + m + 1);
      TypesFound(ts, reg, |ts| + m + 1, t);
    }
    forall m: nat ensures TemplateAs(ts, false, m, t) ==> t in Found(ts, reg).templates {
      FoundAfter(ts, reg, |ts| + m + 1);
      MarksFound(ts, reg, |ts| + m + 1, t);
    }
    forall m: nat ensures NestedAs(ts, false, m, t) ==> t in Found(ts, reg).nested {
      FoundAfter(ts, reg, |ts| + m + 1);
      MarksFound(ts, reg, |ts| + m + 1, t);
    }
  }

  lemma {:induction false} FirstPassNode(ts: seq<Token>, reg: Registry, t: string, m: nat)
    requires DeclaredAs(ts, false, m, t) && forall q: nat :: q < m ==> !DeclaredAs(ts, false, q, t)
    ensures t in Found(ts, reg).types
    ensures Found(ts, reg).types[t] == if t in reg.types then reg.types[t] else Declared(ts, false, m).value.node
  {
    hide Found, FoundBy, Declared;
    FoundAfter(ts, reg, |ts| + m + 1);
    NodeFound(ts, reg, |ts| + m + 1, t, m);
  }

  lemma FirstPassKeeps(ts: seq<Token>, reg: Registry, t: string)
    requires t in reg.types
    ensures t in Found(ts, reg).types && Found(ts, reg).types[t] == reg.types[t]
  {
    hide Found, FoundBy;
    FoundAfter(ts, reg, |ts|);
    KnownKept(ts, reg, |ts|, t);
  }
}
