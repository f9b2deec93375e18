/** What the second pass of the metadata compiler defines (src/compiler/meta_compiler.cpp:427-747): the types are
    what their last declaration says, templates are only listed as such, and the primary types are the classes
    defined with a body at the top of a primary text, in the order of their first definitions. */
module Definitions {
  import opened Wrappers
  import opened Lexer
  import opened Names
  import opened Scopes
  import opened Registry
  import opened Discovery
  import opened Digest
  import opened Shapes
  import opened Declarations

  // ---------------------------------------------------------------- one round

  lemma DefinitionRead(ts: seq<Token>, i: nat, n: nat, st: State, primary: bool)
    requires i < n < |ts| && NameOf(ts, i, n, true)
    ensures var (body, e) := Ending(ts, n + 1, true);
            var st' := DefineType(st, ts[n].payload, ts[i].kind == StructDef, body, primary);
            DigestStep(ts, i, st, primary) == (e, st'.(last := ts[i].kind))
  {
    hide NameOf, NameAt, BodyEnd, Ending, DefineType, IsInternal;
    NameOfKeyword(ts, i, n, true);
    NameOfIs(ts, i, n, true);
    BodyEndIs(ts, n + 1);
  }

  /** A round on a class keyword followed by a name: behind `template` the name is only listed as a template, and
      otherwise it is the type the keyword says, whatever it was before. With a body its scope is opened, and
      in a primary text it is listed, unless it is a template, nested, in an anonymous namespace or listed already. */
  lemma DefinitionRound(ts: seq<Token>, i: nat, n: nat, st: State, primary: bool)
    requires i < |ts| && NameOf(ts, i, n, true)
    ensures var (j, st') := DigestStep(ts, i, st, primary);
            var x, name := ts[n].payload, Qualify(OpenNames(st.trk) + [ts[n].payload]);
            var (body, e) := Ending(ts, n + 1, true);
            var template, nested := st.last == Template, InsideType(st.trk);
            && j == e
            && st'.reg.types == (if template then st.reg.types
                                 else st.reg.types[name := Node(ts[i].kind == StructDef, nested)])
            && st'.reg.nested == (if nested && !template then st.reg.nested + {name} else st.reg.nested)
            && st'.reg.templates == (if template then st.reg.templates + {name} else st.reg.templates)
            && st'.reg.primary == (if && primary && body && !template && !nested && !Anonymous(st.trk)
                                      && name !in st.reg.primary
                                   then st.reg.primary + [name] else st.reg.primary)
            && st'.reg.namespaces == st.reg.namespaces && st'.reg.order == st.reg.order
            && st'.trk == if body then PushType(st.trk, x) else st.trk
  {
    hide NameOf, DigestStep, Ending, Qualify, OpenPath, OpenNames, InsideType, PushType, Anonymous;
    NameOfKeyword(ts, i, n, true);
    DefinitionRead(ts, i, n, st, primary);
    OpenName(st.trk, ts[n].payload);
  }

  /** Every other round leaves types, templates and primary types as they are. */
  lemma SilentDefinition(ts: seq<Token>, i: nat, st: State, primary: bool)
    requires i < |ts| && forall n: nat :: !NameOf(ts, i, n, true)
    ensures SameTypes(st.reg, DigestStep(ts, i, st, primary).1.reg)
  {
    hide NameOf, NameAt, BodyEnd, ReadNamespace, SkipTemplate, Open, Close, AddNamespaces, PushNamespace, OpenPath,
         IsInternal, ContextEnd, ExternEnd, PastSemicolon, DefineType;
    if ts[i].kind == ClassDef || ts[i].kind == StructDef {
      NameOfIs(ts, i, NameAt(ts, i + 1, true), true);
    } else if ts[i].kind == NamespaceDef {
      NamespacesOnly(st.reg, OpenPath(st.trk), ReadNamespace(ts, i + 1, []).parts, 0);
    }
  }

  // ---------------------------------------------------------------- the places of the rounds

  lemma SameDigestStep(ts: seq<Token>, i: nat, st: State, reg: Registry, p: bool, q: bool)
    requires i < |ts|
    ensures var a, b := DigestStep(ts, i, st, p), DigestStep(ts, i, st.(reg := reg), q);
            a.0 == b.0 && b.1 == a.1.(reg := b.1.reg)
  {
    hide NameAt, BodyEnd, ReadNamespace, SkipTemplate, Open, Close, AddNamespaces, PushNamespace, PushType, RecordType,
         AddPrimary, OpenPath, InsideType, Anonymous, IsInternal, ContextEnd, ExternEnd, PastSemicolon;
  }

  /** Where the rounds start and which scopes are open depends on the text alone. */
  lemma {:induction false} SameDigest(ts: seq<Token>, i: nat, st: State, reg: Registry, p: bool, q: bool, k: nat)
    requires i <= |ts|
    ensures var a, b := DigestRounds(ts, i, st, p, k), DigestRounds(ts, i, st.(reg := reg), q, k);
            a.0 == b.0 && b.1 == a.1.(reg := b.1.reg)
    decreases k
  {
    hide DigestStep;
    if k == 0 || i == |ts| {
    } else {
      var a, b := DigestStep(ts, i, st, p), DigestStep(ts, i, st.(reg := reg), q);
      SameDigestStep(ts, i, st, reg, p, q);
      SameDigest(ts, a.0, a.1, b.1.reg, p, q, k - 1);
    }
  }

  lemma {:induction false} DigestSnoc(ts: seq<Token>, i: nat, st: State, p: bool, k: nat)
    requires i <= |ts|
    ensures var (j, s) := DigestRounds(ts, i, st, p, k);
            DigestRounds(ts, i, st, p, k + 1) == if j == |ts| then (j, s) else DigestStep(ts, j, s, p)
    decreases k
  {
    hide DigestStep;
    if k == 0 || i == |ts| {
    } else {
      var (j, st') := DigestStep(ts, i, st, p);
      DigestSnoc(ts, j, st', p, k - 1);
    }
  }

  lemma LastKind(ts: seq<Token>, i: nat, st: State, p: bool)
    requires i < |ts|
    ensures DigestStep(ts, i, st, p).1.last == Template <==> ts[i].kind == Template
  {
    hide DefineStep, ReadNamespace, SkipTemplate, ContextEnd, ExternEnd, PastSemicolon, EnterNamespace;
  }

  lemma LastDigest(ts: seq<Token>, k: nat)
    requires At(ts, true, k).0 < |ts|
    ensures At(ts, true, k).1.last == Template <==> BehindTemplate(ts, true, k)
  {
    if k == 0 {
    } else {
      hide DigestStep, DigestRounds;
      DigestSnoc(ts, 0, START, false, k - 1);
      var (j, s) := DigestRounds(ts, 0, START, false, k - 1);
      if j < |ts| { LastKind(ts, j, s, false); }
    }
  }

  // ---------------------------------------------------------------- what the second pass defines

  /** A definition that makes a primary type. */
  predicate MakesPrimary(d: Declaration) { d.body && !d.template && !d.node.isNested && !d.hidden }

  predicate Records(r: Registry, r': Registry, d: Declaration, primary: bool) {
    && r'.types == (if d.template then r.types else r.types[d.name := d.node])
    && r'.nested == (if d.node.isNested && !d.template then r.nested + {d.name} else r.nested)
    && r'.templates == (if d.template then r.templates + {d.name} else r.templates)
    && r'.primary == if primary && MakesPrimary(d) && d.name !in r.primary then r.primary + [d.name] else r.primary
  }

  /** What the registry is after `k` rounds of the second pass. */
  function DefinedBy(ts: seq<Token>, reg: Registry, primary: bool, k: nat): Registry {
    DigestRounds(ts, 0, START.(reg := reg), primary, k).1.reg
  }

  lemma RoundDefines(ts: seq<Token>, reg: Registry, primary: bool, k: nat)
    ensures match Declared(ts, true, k)
            case Some(d) => Records(DefinedBy(ts, reg, primary, k), DefinedBy(ts, reg, primary, k + 1), d, primary)
            case None => SameTypes(DefinedBy(ts, reg, primary, k), DefinedBy(ts, reg, primary, k + 1))
  {
    hide NameOf, DigestStep, DigestRounds, Ending, Qualify, OpenNames, InsideType, Anonymous, BehindTemplate;
    var (i, st) := DigestRounds(ts, 0, START.(reg := reg), primary, k);
    DigestSnoc(ts, 0, START.(reg := reg), primary, k);
    SameDigest(ts, 0, START, reg, false, primary, k);
    if exists n: nat :: NameOf(ts, i, n, true) {
      var n: nat :| NameOf(ts, i, n, true);
      NameOfKeyword(ts, i, n, true);
      DeclaredIs(ts, true, k, n);
      DefinitionRound(ts, i, n, st, primary);
      LastDigest(ts, k);
    } else if i < |ts| {
      SilentDefinition(ts, i, st, primary);
    }
  }

  /** Declared, and not behind `template`. */
  ghost predicate TypeAs(ts: seq<Token>, k: nat, t: string) {
    DeclaredAs(ts, true, k, t) && !Declared(ts, true, k).value.template
  }

  /** Defined with a body, outside types and anonymous namespaces and not behind `template`. */
  ghost predicate PrimaryAs(ts: seq<Token>, k: nat, t: string) {
    DeclaredAs(ts, true, k, t) && MakesPrimary(Declared(ts, true, k).value)
  }

  lemma {:induction false} TypesDefined(ts: seq<Token>, reg: Registry, primary: bool, k: nat, t: string)
    ensures t in DefinedBy(ts, reg, primary, k).types <==>
            t in reg.types || exists m: nat :: m < k && TypeAs(ts, m, t)
    ensures t in DefinedBy(ts, reg, primary, k).templates <==>
            t in reg.templates || exists m: nat :: m < k && TemplateAs(ts, true, m, t)
  {
    hide Declared;
    if k == 0 {
    } else {
      hide DefinedBy, MakesPrimary;
      TypesDefined(ts, reg, primary, k - 1, t);
      RoundDefines(ts, reg, primary, k - 1);
      assert TypeAs(ts, k - 1, t) || !TypeAs(ts, k - 1, t);
      assert TemplateAs(ts, true, k - 1, t) || !TemplateAs(ts, true, k - 1, t);
    }
  }

  lemma {:induction false} PrimaryDefined(ts: seq<Token>, reg: Registry, primary: bool, k: nat, t: string)
    ensures t in DefinedBy(ts, reg, primary, k).primary <==>
            t in reg.primary || (primary && exists m: nat :: m < k && PrimaryAs(ts, m, t))
  {
    hide Declared;
    if k == 0 {
    } else {
      hide DefinedBy, MakesPrimary;
      PrimaryDefined(ts, reg, primary, k - 1, t);
      RoundDefines(ts, reg, primary, k - 1);
      assert PrimaryAs(ts, k - 1, t) || !PrimaryAs(ts, k - 1, t);
    }
  }

  /** A type is what its last declaration says. */
  lemma {:induction false} NodeDefined(ts: seq<Token>, reg: Registry, primary: bool, k: nat, t: string, m: nat)
    requires m < k && TypeAs(ts, m, t) && forall q: nat :: m < q < k ==> !TypeAs(ts, q, t)
    ensures var r := DefinedBy(ts, reg, primary, k); t in r.types && r.types[t] == Declared(ts, true, m).value.node
    decreases k
  {
    hide Declared, DefinedBy, MakesPrimary;
    RoundDefines(ts, reg, primary, k - 1);
    if k == m + 1 {
    } else {
      assert !TypeAs(ts, k - 1, t);
      NodeDefined(ts, reg, primary, k - 1, t, m);
    }
  }

  /** A type that is not declared again stays what it was. */
  lemma {:induction false} NodeKept(ts: seq<Token>, reg: Registry, primary: bool, k: nat, t: string)
    requires t in reg.types && forall q: nat :: q < k ==> !TypeAs(ts, q, t)
    ensures var r := DefinedBy(ts, reg, primary, k); t in r.types && r.types[t] == reg.types[t]
  {
    hide Declared;
    if k == 0 {
    } else {
      hide DefinedBy, MakesPrimary;
      assert !TypeAs(ts, k - 1, t);
      NodeKept(ts, reg, primary, k - 1, t);
      RoundDefines(ts, reg, primary, k - 1);
    }
  }

  /** One name is defined before the other is. */
  ghost predicate DefinedBefore(ts: seq<Token>, a: string, b: string) {
    exists m: nat :: PrimaryAs(ts, m, a) && forall q: nat :: q <= m ==> !PrimaryAs(ts, q, b)
  }

  lemma ListedBefore(ts: seq<Token>, reg: Registry, k: nat, a: string, b: string)
    requires var listed := DefinedBy(ts, reg, true, k).primary; a in listed && a !in reg.primary && b !in listed
    ensures DefinedBefore(ts, a, b)
  {
    hide DefinedBy, PrimaryAs;
    PrimaryDefined(ts, reg, true, k, a);
    PrimaryDefined(ts, reg, true, k, b);
  }

  /** The list of primary types only grows, without repetition, and what is added comes in the order of the first
      definitions. */
  ghost predicate Extends(ts: seq<Token>, before: seq<string>, after: seq<string>) {
    && before <= after
    && (forall i :: |before| <= i < |after| ==> after[i] !in before)
    && (forall i, j :: |before| <= i < j < |after| ==> after[i] != after[j] && DefinedBefore(ts, after[i], after[j]))
  }

  lemma ExtendsOne(ts: seq<Token>, before: seq<string>, mid: seq<string>, t: string)
    requires Extends(ts, before, mid) && t !in mid
    requires forall a :: a in mid && a !in before ==> DefinedBefore(ts, a, t)
    ensures Extends(ts, before, mid + [t])
  {
    hide DefinedBefore;
    var after := mid + [t];
    forall i, j | |before| <= i < j < |after| ensures after[i] != after[j] && DefinedBefore(ts, after[i], after[j]) {
      assert after[i] == mid[i] && mid[i] in mid;
      if j < |mid| { assert after[j] == mid[j]; }
    }
  }

  lemma {:induction false} PrimaryOrder(ts: seq<Token>, reg: Registry, primary: bool, k: nat)
    ensures Extends(ts, reg.primary, DefinedBy(ts, reg, primary, k).primary)
  {
    hide Declared, DefinedBefore;
    if k == 0 {
    } else {
      hide DefinedBy, MakesPrimary, Extends;
      var mid, after := DefinedBy(ts, reg, primary, k - 1).primary, DefinedBy(ts, reg, primary, k).primary;
      PrimaryOrder(ts, reg, primary, k - 1);
      RoundDefines(ts, reg, primary, k - 1);
      if after != mid {
        var t := Declared(ts, true, k - 1).value.name;
        forall a | a in mid && a !in reg.primary ensures DefinedBefore(ts, a, t) {
          ListedBefore(ts, reg, k - 1, a, t);
        }
        ExtendsOne(ts, reg.primary, mid, t);
      }
    }
  }

  // ---------------------------------------------------------------- the whole pass

  /** The registry after the second pass over a text. */
  function Defined(ts: seq<Token>, reg: Registry, primary: bool): Registry {
    DigestAll(ts, 0, State(reg, EMPTY, Unknown), primary).reg
  }

  lemma DefinedAfter(ts: seq<Token>, reg: Registry, primary: bool, k: nat)
    requires |ts| <= k
    ensures DefinedBy(ts, reg, primary, k) == Defined(ts, reg, primary)
  {
    hide DigestRounds, DigestAll;
    DigestRoundsFinish(ts, 0, START.(reg := reg), primary, k);
  }

  /** After the second pass the types are those known before and those some round declares not behind `template`,
      the templates those declared behind it, and the primary types those some round of a primary text defines
      with a body, outside every type and anonymous namespace and not behind `template`. */
  lemma {:induction false} SecondPassFinds(ts: seq<Token>, reg: Registry, primary: bool, t: string)
    ensures var r := Defined(ts, reg, primary);
            && (t in r.types <==> t in reg.types || exists m: nat :: TypeAs(ts, m, t))
            && (t in r.templates <==> t in reg.templates || exists m: nat :: TemplateAs(ts, true, m, t))
            && (t in r.primary <==> t in reg.primary || (primary && exists m: nat :: PrimaryAs(ts, m, t)))
  {
    hide Defined, DefinedBy, TypeAs, TemplateAs, PrimaryAs;
    DefinedAfter(ts, reg, primary, |ts|);
    TypesDefined(ts, reg, primary, |ts|, t);
    PrimaryDefined(ts, reg, primary, |ts|, t);
    forall m: nat ensures TypeAs(ts, m, t) ==> t in Defined(ts, reg, primary).types {
      DefinedAfter(ts, reg, primary, |ts| + m + 1);
      TypesDefined(ts, reg, primary, |ts| + m + 1, t);
    }
    forall m: nat ensures TemplateAs(ts, true, m, t) ==> t in Defined(ts, reg, primary).templates {
      DefinedAfter(ts, reg, primary, |ts| + m + 1);
      TypesDefined(ts, reg, primary, |ts| + m + 1, t);
    }
    forall m: nat ensures primary && PrimaryAs(ts, m, t) ==> t in Defined(ts, reg, primary).primary {
      DefinedAfter(ts, reg, primary, |ts| + m + 1);
      PrimaryDefined(ts, reg, primary, |ts| + m + 1, t);
    }
  }

  lemma SecondPassOrder(ts: seq<Token>, reg: Registry, primary: bool)
    ensures Extends(ts, reg.primary, Defined(ts, reg, primary).primary)
  {
    hide Defined, DefinedBy, Extends;
    DefinedAfter(ts, reg, primary, |ts|);
    PrimaryOrder(ts, reg, primary, |ts|);
  }

  /** A type is what its last declaration in the text says. */
  lemma {:induction false} SecondPassNode(ts: seq<Token>, reg: Registry, primary: bool, t: string, m: nat)
    requires TypeAs(ts, m, t) && forall q: nat :: m < q ==> !TypeAs(ts, q, t)
    ensures var r := Defined(ts, reg, primary); t in r.types && r.types[t] == Declared(ts, true, m).value.node
  {
    hide Defined, DefinedBy, Declared;
    DefinedAfter(ts, reg, primary, |ts| + m + 1);
    NodeDefined(ts, reg, primary, |ts| + m + 1, t, m);
  }

  lemma {:induction false} SecondPassKeeps(ts: seq<Token>, reg: Registry, primary: bool, t: string)
    requires t in reg.types && forall q: nat :: !TypeAs(ts, q, t)
    ensures var r := Defined(ts, reg, primary); t in r.types && r.types[t] == reg.types[t]
  {
    hide Defined, DefinedBy, Declared;
    DefinedAfter(ts, reg, primary, |ts|);
    NodeKept(ts, reg, primary, |ts|, t);
  }
}
