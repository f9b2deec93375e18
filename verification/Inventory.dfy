/** What the registry holds after both passes over all files (src/compiler/meta_compiler.cpp:794-830), stated on
    the tokens of the files: exactly the namespaces, types, templates and primary types that some round of some
    file declares, each type as its deciding declaration says, and the primary types in the order in which the
    files first define them. */
module Inventory {
  import opened Wrappers
  import opened Lexer
  import opened Scopes
  import opened Registry
  import opened Discovery
  import opened Digest
  import opened Declarations
  import opened Definitions
  import opened Places

  // ---------------------------------------------------------------- what a file holds

  datatype Entry = TypeEntry | TemplateEntry | NamespaceEntry

  /** Some round of a pass over the file declares the name as such. The second pass takes a class behind
      `template` for a template only. */
  ghost predicate FileHas(file: Manifold, second: bool, entry: Entry, t: string) {
    var ts := Lex(file.text);
    match entry
    case TypeEntry => if second then exists m: nat :: TypeAs(ts, m, t) else exists m: nat :: DeclaredAs(ts, false, m, t)
    case TemplateEntry => exists m: nat :: TemplateAs(ts, second, m, t)
    case NamespaceEntry => exists m: nat :: NamespaceAs(ts, second, m, t)
  }

  ghost predicate FilePrimary(file: Manifold, t: string) {
    file.primary && exists m: nat :: PrimaryAs(Lex(file.text), m, t)
  }

  ghost predicate SomeHas(files: seq<Manifold>, n: nat, second: bool, entry: Entry, t: string)
    requires n <= |files|
  {
    exists f :: 0 <= f < n && FileHas(files[f], second, entry, t)
  }

  ghost predicate SomePrimary(files: seq<Manifold>, n: nat, t: string)
    requires n <= |files|
  {
    exists f :: 0 <= f < n && FilePrimary(files[f], t)
  }

  lemma SomeNext(files: seq<Manifold>, n: nat, second: bool, entry: Entry, t: string)
    requires n < |files|
    ensures SomeHas(files, n + 1, second, entry, t) <==>
            SomeHas(files, n, second, entry, t) || FileHas(files[n], second, entry, t)
    ensures SomePrimary(files, n + 1, t) <==> SomePrimary(files, n, t) || FilePrimary(files[n], t)
  {
    hide FileHas, FilePrimary;
  }

  lemma NoneYet(files: seq<Manifold>, second: bool, entry: Entry, t: string)
    ensures !SomeHas(files, 0, second, entry, t) && !SomePrimary(files, 0, t)
  {
    hide FileHas, FilePrimary;
  }

  predicate Holds(r: Registry, entry: Entry, t: string) {
    match entry
    case TypeEntry => t in r.types
    case TemplateEntry => t in r.templates
    case NamespaceEntry => t in r.namespaces
  }

  lemma FilesNext(files: seq<Manifold>, n: nat, reg: Registry)
    requires n < |files|
    ensures DiscoverFiles(files, n + 1, reg) == Found(Lex(files[n].text), DiscoverFiles(files, n, reg))
    ensures DigestFiles(files, n + 1, reg)
              == Defined(Lex(files[n].text), DigestFiles(files, n, reg), files[n].primary)
  {
    hide Lex;
    LexNothing();
  }

  lemma OneDiscovered(file: Manifold, reg: Registry, entry: Entry, t: string)
    ensures var r := Found(Lex(file.text), reg);
            && (Holds(r, entry, t) <==> Holds(reg, entry, t) || FileHas(file, false, entry, t))
            && r.primary == reg.primary
  {
    hide Found, Lex, DeclaredAs, TypeAs, TemplateAs, NamespaceAs;
    FirstPassFinds(Lex(file.text), reg, t);
    PassNamespaces(Lex(file.text), reg, false, t);
  }

  lemma OneDigested(file: Manifold, reg: Registry, entry: Entry, t: string)
    ensures var r := Defined(Lex(file.text), reg, file.primary);
            && (Holds(r, entry, t) <==> Holds(reg, entry, t) || FileHas(file, true, entry, t))
            && (t in r.primary <==> t in reg.primary || FilePrimary(file, t))
  {
    hide Defined, Lex, DeclaredAs, TypeAs, TemplateAs, NamespaceAs, PrimaryAs;
    SecondPassFinds(Lex(file.text), reg, file.primary, t);
    PassNamespaces(Lex(file.text), reg, file.primary, t);
  }

  lemma {:induction false} DiscoveredFiles(files: seq<Manifold>, n: nat, reg: Registry, entry: Entry, t: string)
    requires n <= |files|
    ensures var r := DiscoverFiles(files, n, reg);
            && (Holds(r, entry, t) <==> Holds(reg, entry, t) || SomeHas(files, n, false, entry, t))
            && r.primary == reg.primary
  {
    hide FileHas, Holds, Lex, Discover, Found, SomeHas, SomePrimary;
    if n == 0 {
      NoneYet(files, false, entry, t);
    } else {
      hide DiscoverFiles;
      DiscoveredFiles(files, n - 1, reg, entry, t);
      FilesNext(files, n - 1, reg);
      OneDiscovered(files[n - 1], DiscoverFiles(files, n - 1, reg), entry, t);
      SomeNext(files, n - 1, false, entry, t);
    }
  }

  lemma {:induction false} DigestedFiles(files: seq<Manifold>, n: nat, reg: Registry, entry: Entry, t: string)
    requires n <= |files|
    ensures var r := DigestFiles(files, n, reg);
            && (Holds(r, entry, t) <==> Holds(reg, entry, t) || SomeHas(files, n, true, entry, t))
            && (t in r.primary <==> t in reg.primary || SomePrimary(files, n, t))
  {
    hide FileHas, FilePrimary, Holds, Lex, DigestAll, Defined, SomeHas, SomePrimary;
    if n == 0 {
      NoneYet(files, true, entry, t);
    } else {
      hide DigestFiles;
      DigestedFiles(files, n - 1, reg, entry, t);
      FilesNext(files, n - 1, reg);
      OneDigested(files[n - 1], DigestFiles(files, n - 1, reg), entry, t);
      SomeNext(files, n - 1, true, entry, t);
    }
  }

  /** For every set of files the registry holds exactly what some round of some file declares. */
  lemma {:induction false} RegistryHolds(files: seq<Manifold>, entry: Entry, t: string)
    ensures Holds(RegistryOf(files), entry, t) <==>
            exists f :: && 0 <= f < |files|
                        && (FileHas(files[f], false, entry, t) || FileHas(files[f], true, entry, t))
    ensures t in RegistryOf(files).primary <==> exists f :: 0 <= f < |files| && FilePrimary(files[f], t)
  {
    hide DiscoverFiles, DigestFiles, FileHas, FilePrimary, Holds;
    DiscoveredFiles(files, |files|, NOTHING, entry, t);
    DigestedFiles(files, |files|, DiscoverFiles(files, |files|, NOTHING), entry, t);
    assert !Holds(NOTHING, entry, t) by { NothingHeld(entry, t); }
  }

  lemma NothingHeld(entry: Entry, t: string)
    ensures !Holds(NOTHING, entry, t)
  {
  }

  // ---------------------------------------------------------------- the order of the primary types

  /** The `m`-th round over the `f`-th file makes this a primary type. */
  ghost predicate PrimaryIn(files: seq<Manifold>, f: nat, m: nat, t: string) {
    f < |files| && files[f].primary && PrimaryAs(Lex(files[f].text), m, t)
  }

  /** One name is defined in an earlier file or round than the other ever is. */
  ghost predicate Earlier(files: seq<Manifold>, a: string, b: string) {
    exists f: nat, m: nat :: && PrimaryIn(files, f, m, a)
                             && forall g: nat, q: nat :: g < f || (g == f && q <= m) ==> !PrimaryIn(files, g, q, b)
  }

  lemma NotPrimary(files: seq<Manifold>, n: nat, t: string)
    requires n <= |files| && !SomePrimary(files, n, t)
    ensures forall g: nat, q: nat :: g < n ==> !PrimaryIn(files, g, q, t)
  {
    hide Lex, PrimaryAs;
    forall g: nat, q: nat | g < n ensures !PrimaryIn(files, g, q, t) {
      assert !FilePrimary(files[g], t);
    }
  }

  lemma EarlierFile(files: seq<Manifold>, n: nat, a: string, b: string)
    requires n <= |files| && SomePrimary(files, n, a) && !SomePrimary(files, n, b)
    ensures Earlier(files, a, b)
  {
    hide Lex, PrimaryAs;
    var f: nat :| f < n && FilePrimary(files[f], a);
    var m: nat :| PrimaryAs(Lex(files[f].text), m, a);
    NotPrimary(files, n, b);
    assert PrimaryIn(files, f, m, a);
  }

  lemma EarlierRound(files: seq<Manifold>, n: nat, a: string, b: string)
    requires n < |files| && files[n].primary && !SomePrimary(files, n, b) && DefinedBefore(Lex(files[n].text), a, b)
    ensures Earlier(files, a, b)
  {
    hide Lex, PrimaryAs, SomePrimary;
    var ts := Lex(files[n].text);
    var m: nat :| PrimaryAs(ts, m, a) && forall q: nat :: q <= m ==> !PrimaryAs(ts, q, b);
    NotPrimary(files, n, b);
    assert PrimaryIn(files, n, m, a);
  }

  lemma {:induction false} OrderFiles(files: seq<Manifold>, n: nat, reg: Registry, i: nat, j: nat)
    requires n <= |files| && reg.primary == [] && i < j < |DigestFiles(files, n, reg).primary|
    ensures var listed := DigestFiles(files, n, reg).primary; Earlier(files, listed[i], listed[j])
  {
    hide Lex, DigestAll, Defined, SomePrimary, Earlier, FilePrimary, DefinedBefore, Holds;
    if n == 0 {
    } else {
      var before, after := DigestFiles(files, n - 1, reg), DigestFiles(files, n, reg);
      FilesNext(files, n - 1, reg);
      hide DigestFiles;
      SecondPassOrder(Lex(files[n - 1].text), before, files[n - 1].primary);
      var a, b := after.primary[i], after.primary[j];
      if j < |before.primary| {
        OrderFiles(files, n - 1, reg, i, j);
      } else {
        DigestedFiles(files, n - 1, reg, TypeEntry, a);
        DigestedFiles(files, n - 1, reg, TypeEntry, b);
        OneDigested(files[n - 1], before, TypeEntry, b);
        if i < |before.primary| {
          EarlierFile(files, n - 1, a, b);
        } else {
          IsPrimaryFile(files[n - 1], b);
          EarlierRound(files, n - 1, a, b);
        }
      }
    }
  }

  lemma IsPrimaryFile(file: Manifold, t: string)
    requires FilePrimary(file, t)
    ensures file.primary
  {
    hide Lex, PrimaryAs;
  }

  /** For every set of files the primary types are listed once each, in the order of their first definitions. */
  lemma {:induction false} PrimaryInOrder(files: seq<Manifold>)
    ensures var listed := RegistryOf(files).primary;
            NoRepeats(listed) && forall i, j :: 0 <= i < j < |listed| ==> Earlier(files, listed[i], listed[j])
  {
    hide DiscoverFiles, DigestFiles, Earlier, PrefixClosed, OrderMatches, PlainTypes, Holds, SomeHas;
    RegistrySound(files);
    var reg := DiscoverFiles(files, |files|, NOTHING);
    DiscoveredFiles(files, |files|, NOTHING, TypeEntry, "");
    forall i, j | 0 <= i < j < |RegistryOf(files).primary|
      ensures Earlier(files, RegistryOf(files).primary[i], RegistryOf(files).primary[j])
    {
      OrderFiles(files, |files|, reg, i, j);
    }
  }

  // ---------------------------------------------------------------- which declaration decides

  /** Rounds behind the end of the text declare nothing. */
  lemma NoneAfter(ts: seq<Token>, second: bool, k: nat)
    requires |ts| <= k
    ensures Declared(ts, second, k) == None
  {
    hide Rounds, DigestRounds, Discover, DigestAll;
    RoundsFinish(ts, 0, START, k);
    DigestRoundsFinish(ts, 0, START, false, k);
    assert At(ts, second, k).0 == |ts|;
  }

  lemma {:induction false} FirstDeclared(ts: seq<Token>, t: string, m: nat) returns (k: nat)
    requires DeclaredAs(ts, false, m, t)
    ensures DeclaredAs(ts, false, k, t) && forall q: nat :: q < k ==> !DeclaredAs(ts, false, q, t)
  {
    hide DeclaredAs;
    if q: nat :| q < m && DeclaredAs(ts, false, q, t) {
      k := FirstDeclared(ts, t, q);
    } else {
      k := m;
    }
  }

  lemma {:induction false} LastDefined(ts: seq<Token>, t: string, m: nat) returns (k: nat)
    requires TypeAs(ts, m, t)
    ensures TypeAs(ts, k, t) && forall q: nat :: k < q ==> !TypeAs(ts, q, t)
    decreases |ts| - m
  {
    hide Declared;
    if m >= |ts| { NoneAfter(ts, true, m); }
    if q: nat :| m < q && TypeAs(ts, q, t) {
      k := LastDefined(ts, t, q);
    } else {
      k := m;
    }
  }

  /** The `m`-th round of a pass over the `f`-th file declares the type. */
  ghost predicate DeclaredIn(files: seq<Manifold>, second: bool, f: nat, m: nat, t: string) {
    f < |files| && var ts := Lex(files[f].text); if second then TypeAs(ts, m, t) else DeclaredAs(ts, false, m, t)
  }

  /** What that declaration says of the type. */
  ghost function NodeIn(files: seq<Manifold>, second: bool, f: nat, m: nat, t: string): Node
    requires DeclaredIn(files, second, f, m, t)
  {
    Declared(Lex(files[f].text), second, m).value.node
  }

  lemma NowhereIn(files: seq<Manifold>, n: nat, second: bool, t: string)
    requires n <= |files| && !SomeHas(files, n, second, TypeEntry, t)
    ensures forall g: nat, q: nat :: g < n ==> !DeclaredIn(files, second, g, q, t)
  {
    hide Lex, TypeAs, DeclaredAs;
    forall g: nat, q: nat | g < n ensures !DeclaredIn(files, second, g, q, t) {
      assert !FileHas(files[g], second, TypeEntry, t);
    }
  }

  lemma {:induction false} FirstFile(files: seq<Manifold>, n: nat, t: string) returns (f: nat, m: nat)
    requires n <= |files| && SomeHas(files, n, false, TypeEntry, t)
    ensures f < n && DeclaredIn(files, false, f, m, t)
    ensures forall g: nat, q: nat :: g < f || (g == f && q < m) ==> !DeclaredIn(files, false, g, q, t)
    ensures var r := DiscoverFiles(files, n, NOTHING); t in r.types && r.types[t] == NodeIn(files, false, f, m, t)
  {
    hide Lex, DiscoverFiles, Declared, Found;
    var reg, ts := DiscoverFiles(files, n - 1, NOTHING), Lex(files[n - 1].text);
    FilesNext(files, n - 1, NOTHING);
    DiscoveredFiles(files, n - 1, NOTHING, TypeEntry, t);
    if SomeHas(files, n - 1, false, TypeEntry, t) {
      f, m := FirstFile(files, n - 1, t);
      FirstPassKeeps(ts, reg, t);
    } else {
      f := n - 1;
      SomeNext(files, n - 1, false, TypeEntry, t);
      var k: nat :| DeclaredAs(ts, false, k, t);
      m := FirstDeclared(ts, t, k);
      FirstPassNode(ts, reg, t, m);
      NowhereIn(files, n - 1, false, t);
    }
  }

  lemma LastInFile(file: Manifold, reg: Registry, t: string) returns (m: nat)
    requires FileHas(file, true, TypeEntry, t)
    ensures var ts := Lex(file.text); TypeAs(ts, m, t) && forall q: nat :: m < q ==> !TypeAs(ts, q, t)
    ensures var r := Defined(Lex(file.text), reg, file.primary);
            t in r.types && r.types[t] == Declared(Lex(file.text), true, m).value.node
  {
    hide Lex, Declared, Defined;
    var ts := Lex(file.text);
    var k: nat :| TypeAs(ts, k, t);
    m := LastDefined(ts, t, k);
    SecondPassNode(ts, reg, file.primary, t, m);
  }

  lemma {:induction false} LastFile(files: seq<Manifold>, n: nat, reg: Registry, t: string) returns (f: nat, m: nat)
    requires n <= |files| && SomeHas(files, n, true, TypeEntry, t)
    ensures f < n && DeclaredIn(files, true, f, m, t)
    ensures forall g: nat, q: nat :: g < n && (f < g || (g == f && m < q)) ==> !DeclaredIn(files, true, g, q, t)
    ensures var r := DigestFiles(files, n, reg); t in r.types && r.types[t] == NodeIn(files, true, f, m, t)
  {
    hide Lex, DigestFiles, Declared, Defined, TypeAs;
    var before, ts, p := DigestFiles(files, n - 1, reg), Lex(files[n - 1].text), files[n - 1].primary;
    FilesNext(files, n - 1, reg);
    SomeNext(files, n - 1, true, TypeEntry, t);
    if FileHas(files[n - 1], true, TypeEntry, t) {
      f := n - 1;
      m := LastInFile(files[n - 1], before, t);
    } else {
      f, m := LastFile(files, n - 1, reg, t);
      SecondPassKeeps(ts, before, p, t);
    }
  }

  lemma {:induction false} FilesKeepNode(files: seq<Manifold>, n: nat, reg: Registry, t: string)
    requires n <= |files| && !SomeHas(files, n, true, TypeEntry, t) && t in reg.types
    ensures var r := DigestFiles(files, n, reg); t in r.types && r.types[t] == reg.types[t]
  {
    hide Lex, Declared, Defined, DigestAll;
    if n == 0 {
    } else {
      FilesNext(files, n - 1, reg);
      SomeNext(files, n - 1, true, TypeEntry, t);
      hide DigestFiles;
      FilesKeepNode(files, n - 1, reg, t);
      SecondPassKeeps(Lex(files[n - 1].text), DigestFiles(files, n - 1, reg), files[n - 1].primary, t);
    }
  }

  /** For every set of files a registered type is what its last declaration in the second pass says, or, if that
      pass never declares it as a type, what its first declaration in the first pass says. */
  lemma {:induction false} TypeDecided(files: seq<Manifold>, t: string) returns (second: bool, f: nat, m: nat)
    requires t in RegistryOf(files).types
    ensures DeclaredIn(files, second, f, m, t) && RegistryOf(files).types[t] == NodeIn(files, second, f, m, t)
    ensures second ==> forall g: nat, q: nat :: f < g || (g == f && m < q) ==> !DeclaredIn(files, true, g, q, t)
    ensures !second ==> forall g: nat, q: nat :: !DeclaredIn(files, true, g, q, t)
    ensures !second ==> forall g: nat, q: nat :: g < f || (g == f && q < m) ==> !DeclaredIn(files, false, g, q, t)
  {
    hide Lex, DigestFiles, DiscoverFiles, SomeHas, Declared, DeclaredAs, TypeAs;
    var reg := DiscoverFiles(files, |files|, NOTHING);
    DiscoveredFiles(files, |files|, NOTHING, TypeEntry, t);
    DigestedFiles(files, |files|, reg, TypeEntry, t);
    second := SomeHas(files, |files|, true, TypeEntry, t);
    if second {
      f, m := LastFile(files, |files|, reg, t);
    } else {
      f, m := FirstFile(files, |files|, t);
      FilesKeepNode(files, |files|, reg, t);
      NowhereIn(files, |files|, true, t);
    }
  }
}
