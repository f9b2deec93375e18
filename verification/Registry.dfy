/** The symbol registry of the metadata compiler (src/compiler/meta_compiler.cpp:257-272) and
    the invariant both passes keep: a registered name only has registered prefixes. */
module Registry {
  import opened Lexer
  import opened Names
  import opened Scopes

  /** What is kept of a type; the resolved list of its bases is not part of the model. */
  datatype Node = Node(isStruct: bool, isNested: bool)

  datatype Registry = Registry(
    namespaces: set<string>,
    order: seq<string>,
    types: map<string, Node>,
    templates: set<string>,
    nested: set<string>,
    primary: seq<string>)
  {
    function Known(): set<string> { namespaces + types.Keys + templates }

    function TypeNames(): set<string> { types.Keys + templates }
  }

  const NOTHING := Registry({}, [], map[], {}, {}, [])

  /** The names of the first `n` scopes; anonymous namespaces have none. */
  function ScopeNames(stack: seq<Scope>, n: nat): seq<string>
    requires n <= |stack|
  {
    if n == 0 then []
    else if stack[n - 1].name == "" then ScopeNames(stack, n - 1)
    else ScopeNames(stack, n - 1) + [stack[n - 1].name]
  }

  /** The prefix under which a name is registered inside the first `n` scopes. */
  function Path(stack: seq<Scope>, n: nat): string
    requires n <= |stack|
  {
    if n == 0 then SCOPE
    else if stack[n - 1].name == "" then Path(stack, n - 1)
    else Path(stack, n - 1) + stack[n - 1].name + SCOPE
  }

  function OpenPath(t: Tracker): string { Path(t.stack, |t.stack|) }

  function OpenNames(t: Tracker): seq<string> { ScopeNames(t.stack, |t.stack|) }

  function AddNamespace(r: Registry, name: string): Registry {
    if name in r.namespaces then r
    else r.(namespaces := r.namespaces + {name}, order := r.order + [name])
  }

  /** The namespaces a::b::c of one declaration from the `i`-th part on, each below the one before. */
  function AddNamespaces(r: Registry, path: string, parts: seq<string>, i: nat): Registry
    requires i <= |parts|
    decreases |parts| - i
  {
    if i == |parts| then r
    else AddNamespaces(AddNamespace(r, path + parts[i]), path + parts[i] + SCOPE, parts, i + 1)
  }

  // ---------------------------------------------------------------- the invariant

  /** Every prefix of the name with these parts is known. */
  predicate PrefixesKnown(ps: seq<string>, known: set<string>) {
    AllNames(ps) && forall k :: 1 <= k <= |ps| ==> Qualify(ps[..k]) in known
  }

  /** Every known name is absolute, made of identifiers, and has only known prefixes. */
  predicate PrefixClosed(known: set<string>) {
    forall t :: t in known ==> IsAbsolute(t) && PrefixesKnown(Parts(t), known)
  }

  predicate NoRepeats(xs: seq<string>) { forall i, j :: 0 <= i < j < |xs| ==> xs[i] != xs[j] }

  /** The discovery order lists every namespace exactly once. */
  ghost predicate OrderMatches(r: Registry) {
    (forall n :: n in r.namespaces <==> n in r.order) && NoRepeats(r.order)
  }

  /** The last part of the name is not an attribute word. */
  predicate EndsPlain(t: string) { |t| >= 2 && !IsAttribute(Parts(t)[|Parts(t)| - 1]) }

  /** No type or template is named like an attribute. */
  predicate PlainTypes(r: Registry) { forall t :: t in r.TypeNames() ==> EndsPlain(t) }

  ghost predicate Sound(r: Registry) {
    PrefixClosed(r.Known()) && OrderMatches(r) && NoRepeats(r.primary) && PlainTypes(r)
  }

  /** A registry together with the scopes that are open while it is filled. */
  ghost predicate SoundIn(r: Registry, t: Tracker) {
    Sound(r) && Tracked(t) && PrefixesKnown(OpenNames(t), r.Known())
  }

  // ---------------------------------------------------------------- names and paths

  /** The text in front of the next part of a qualified name. */
  function Prefix(ps: seq<string>, sep: string): string {
    if ps == [] then sep else Prefix(ps[..|ps| - 1], sep) + ps[|ps| - 1] + sep
  }

  lemma PrefixSnoc(ps: seq<string>, p: string, sep: string)
    ensures Prefix(ps + [p], sep) == Prefix(ps, sep) + p + sep
  {
    assert (ps + [p])[..|ps|] == ps;
  }

  lemma {:induction false} PrefixGlue(ps: seq<string>, sep: string)
    requires ps != []
    ensures Prefix(ps, sep) == sep + Glue(ps, sep) + sep
  {
    var n := |ps| - 1;
    if n > 0 {
      PrefixGlue(ps[..n], sep);
      GlueSnoc(ps[..n], ps[n], sep);
      assert ps[..n] + [ps[n]] == ps;
      var g := Glue(ps[..n], sep);
      assert (sep + g + sep) + ps[n] + sep == sep + (g + (sep + ps[n])) + sep;
    } else {
      assert Prefix(ps[..n], sep) == sep;
    }
  }

  lemma PrefixEmpty(sep: string)
    ensures Prefix([], sep) == sep
  {
  }

  lemma Regroup(sep: string, g: string, x: string)
    ensures sep + g + sep + x == sep + (g + (sep + x))
  {
  }

  lemma PrefixIs(ps: seq<string>, x: string)
    ensures Prefix(ps, SCOPE) + x == Qualify(ps + [x])
  {
    hide Prefix;
    if ps == [] {
      assert ps + [x] == [x];
      PrefixEmpty(SCOPE);
    } else {
      PrefixGlue(ps, SCOPE);
      GlueSnoc(ps, x, SCOPE);
      Regroup(SCOPE, Glue(ps, SCOPE), x);
    }
  }

  lemma {:induction false} PathIsPrefix(stack: seq<Scope>, n: nat)
    requires n <= |stack|
    ensures Path(stack, n) == Prefix(ScopeNames(stack, n), SCOPE)
  {
    hide Prefix;
    if n == 0 {
      PrefixEmpty(SCOPE);
    } else {
      PathIsPrefix(stack, n - 1);
      PrefixSnoc(ScopeNames(stack, n - 1), stack[n - 1].name, SCOPE);
    }
  }

  lemma {:induction false} ScopeNamesSame(a: seq<Scope>, b: seq<Scope>, n: nat)
    requires n <= |a| && n <= |b| && forall i :: 0 <= i < n ==> a[i] == b[i]
    ensures ScopeNames(a, n) == ScopeNames(b, n)
  {
    if n == 0 {
    } else {
      ScopeNamesSame(a, b, n - 1);
    }
  }

  lemma {:induction false} ScopeNamesPrefix(stack: seq<Scope>, k: nat, n: nat)
    requires k <= n <= |stack|
    ensures ScopeNames(stack, k) <= ScopeNames(stack, n)
  {
    if k == n {
    } else {
      ScopeNamesPrefix(stack, k, n - 1);
    }
  }

  lemma NameNotEmpty(p: string)
    requires IsName(p)
    ensures p != ""
  {
  }

  lemma {:induction false} ScopeNamesAdded(stack: seq<Scope>, base: nat, parts: seq<string>, n: nat)
    requires base + n <= |stack| && n <= |parts| && AllNames(parts)
    requires forall i :: 0 <= i < n ==> stack[base + i].name == parts[i]
    ensures ScopeNames(stack, base + n) == ScopeNames(stack, base) + parts[..n]
  {
    hide IsName;
    if n == 0 {
    } else {
      ScopeNamesAdded(stack, base, parts, n - 1);
      NameNotEmpty(parts[n - 1]);
      assert parts[..n - 1] + [parts[n - 1]] == parts[..n];
    }
  }

  /** The names of the open scopes behind the brace of a namespace. */
  lemma NamespaceNames(t: Tracker, parts: seq<string>)
    requires AllNames(parts)
    ensures OpenNames(PushNamespace(t, parts)) == OpenNames(t) + parts
  {
    hide AllNames, ScopeNames;
    var s := PushNamespace(t, parts).stack;
    ScopeNamesSame(t.stack, s, |t.stack|);
    if parts == [] {
      ScopeNamesAnonymous(s);
    } else {
      ScopeNamesAdded(s, |t.stack|, parts, |parts|);
      assert parts[..|parts|] == parts;
    }
  }

  lemma ScopeNamesAnonymous(stack: seq<Scope>)
    requires stack != [] && stack[|stack| - 1].name == ""
    ensures ScopeNames(stack, |stack|) == ScopeNames(stack, |stack| - 1)
  {
  }

  // ---------------------------------------------------------------- what keeps the invariant

  lemma PrefixesMono(ps: seq<string>, a: set<string>, b: set<string>)
    requires PrefixesKnown(ps, a) && a <= b
    ensures PrefixesKnown(ps, b)
  {
    hide Qualify, IsName;
  }

  lemma PrefixesShrink(ps: seq<string>, qs: seq<string>, known: set<string>)
    requires PrefixesKnown(qs, known) && ps <= qs
    ensures PrefixesKnown(ps, known)
  {
    hide Qualify, IsName;
    forall k | 1 <= k <= |ps| ensures Qualify(ps[..k]) in known {
      assert ps[..k] == qs[..k];
    }
  }

  lemma PrefixesGrow(ps: seq<string>, x: string, known: set<string>)
    requires PrefixesKnown(ps, known) && IsName(x)
    ensures PrefixesKnown(ps + [x], known + {Qualify(ps + [x])})
  {
    hide Qualify, IsName;
    var qs := ps + [x];
    forall k | 1 <= k <= |qs| ensures Qualify(qs[..k]) in known + {Qualify(qs)} {
      if k <= |ps| { assert qs[..k] == ps[..k]; } else { assert qs[..k] == qs; }
    }
  }

  /** Registering one more name below known scopes keeps the registry prefix-closed. */
  lemma AddKnown(known: set<string>, ps: seq<string>, x: string)
    requires PrefixClosed(known) && PrefixesKnown(ps, known) && IsName(x)
    ensures PrefixClosed(known + {Qualify(ps + [x])})
    ensures PrefixesKnown(ps + [x], known + {Qualify(ps + [x])})
  {
    hide Qualify, Parts, IsName, PrefixesKnown;
    var more := known + {Qualify(ps + [x])};
    PrefixesGrow(ps, x, known);
    assert AllNames(ps + [x]) by { SnocNames(ps, x, known); }
    QualifyParts(ps + [x]);
    forall t | t in known ensures PrefixesKnown(Parts(t), more) {
      PrefixesMono(Parts(t), known, more);
    }
  }

  lemma SnocNames(ps: seq<string>, x: string, known: set<string>)
    requires PrefixesKnown(ps, known) && IsName(x)
    ensures AllNames(ps + [x])
  {
    hide IsName;
  }

  lemma AddNamespaceKeeps(r: Registry, ps: seq<string>, p: string)
    requires Sound(r) && PrefixesKnown(ps, r.Known()) && IsName(p)
    ensures var r' := AddNamespace(r, Prefix(ps, SCOPE) + p);
            Sound(r') && PrefixesKnown(ps + [p], r'.Known()) && r'.primary == r.primary
  {
    hide Qualify, Prefix, PrefixClosed, PrefixesKnown, EndsPlain;
    PrefixIs(ps, p);
    AddKnown(r.Known(), ps, p);
    var name := Qualify(ps + [p]);
    var r' := AddNamespace(r, name);
    assert r'.Known() == r.Known() + {name};
  }

  lemma {:induction false} AddNamespacesKeeps(r: Registry, ps: seq<string>, parts: seq<string>, i: nat)
    requires i <= |parts| && Sound(r) && PrefixesKnown(ps, r.Known()) && AllNames(parts)
    ensures var r' := AddNamespaces(r, Prefix(ps, SCOPE), parts, i);
            Sound(r') && PrefixesKnown(ps + parts[i..], r'.Known()) && r'.primary == r.primary
    decreases |parts| - i
  {
    hide Sound, PrefixesKnown, IsName, Prefix, AddNamespace;
    if i == |parts| {
      assert ps + parts[i..] == ps;
    } else {
      var p := parts[i];
      AddNamespaceKeeps(r, ps, p);
      PrefixSnoc(ps, p, SCOPE);
      AddNamespacesKeeps(AddNamespace(r, Prefix(ps, SCOPE) + p), ps + [p], parts, i + 1);
      assert ps + [p] + parts[i + 1..] == ps + parts[i..];
    }
  }

  /** The brace of a namespace, with the names it registers. */
  lemma NamespaceKeeps(r: Registry, t: Tracker, parts: seq<string>)
    requires SoundIn(r, t) && AllNames(parts)
    ensures var r' := AddNamespaces(r, OpenPath(t), parts, 0);
            SoundIn(r', PushNamespace(t, parts)) && r'.primary == r.primary
  {
    hide Sound, PrefixesKnown, Tracked, Path, ScopeNames, AddNamespaces, PushNamespace, AllNames;
    PathIsPrefix(t.stack, |t.stack|);
    AddNamespacesKeeps(r, OpenNames(t), parts, 0);
    PushNamespaceKeeps(t, parts);
    NamespaceNames(t, parts);
    assert parts[0..] == parts;
  }

  /** Adding the name of a type below the open scopes, to any of the registers. */
  lemma TypeNameKeeps(r: Registry, r': Registry, t: Tracker, x: string)
    requires SoundIn(r, t) && IsName(x) && !IsAttribute(x)
    requires r'.TypeNames() == r.TypeNames() + {OpenPath(t) + x}
    requires r'.namespaces == r.namespaces && r'.order == r.order && NoRepeats(r'.primary)
    requires r'.Known() == r.Known() + {OpenPath(t) + x}
    ensures SoundIn(r', t)
    ensures PrefixesKnown(OpenNames(t) + [x], r'.Known())
  {
    hide Qualify, Path, PrefixClosed, PrefixesKnown, ScopeNames, Tracked, IsName, IsAttribute, EndsPlain;
    PathIsPrefix(t.stack, |t.stack|);
    PrefixIs(OpenNames(t), x);
    AddKnown(r.Known(), OpenNames(t), x);
    assert AllNames(OpenNames(t) + [x]) by { SnocNames(OpenNames(t), x, r.Known()); }
    NamePlain(OpenNames(t), x);
    PrefixesMono(OpenNames(t), r.Known(), r'.Known());
  }

  lemma NamePlain(ps: seq<string>, x: string)
    requires AllNames(ps + [x]) && !IsAttribute(x)
    ensures EndsPlain(Qualify(ps + [x]))
  {
    hide IsName, IsAttribute, Parts, Qualify;
    QualifyParts(ps + [x]);
  }

  /** The brace of a type body whose name is registered. */
  lemma TypeBodyKeeps(r: Registry, t: Tracker, x: string)
    requires SoundIn(r, t) && PrefixesKnown(OpenNames(t) + [x], r.Known()) && IsName(x)
    ensures SoundIn(r, PushType(t, x))
  {
    hide Sound, PrefixesKnown, Tracked;
    PushTypeKeeps(t, x);
    NameNotEmpty(x);
    ScopeNamesSame(t.stack, PushType(t, x).stack, |t.stack|);
  }

  lemma BraceKeeps(r: Registry, t: Tracker)
    requires SoundIn(r, t)
    ensures SoundIn(r, Open(t)) && SoundIn(r, Close(t))
  {
    hide Sound, Tracked, ScopeNames, Close, PrefixesKnown;
    OpenKeeps(t);
    CloseKeeps(t);
    var s := Close(t).stack;
    ScopeNamesSame(s, t.stack, |s|);
    ScopeNamesPrefix(t.stack, |s|, |t.stack|);
    PrefixesShrink(OpenNames(Close(t)), OpenNames(t), r.Known());
  }
}
