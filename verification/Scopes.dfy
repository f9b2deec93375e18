/** Scope tracking shared by both passes of the metadata compiler
    (src/compiler/meta_compiler.cpp:281-285, 326-339, 405-418, 529-535). */
module Scopes {

  datatype Scope = Scope(name: string, depth: int, isType: bool)

  /** The open scopes, the brace depths of the open types, and the current brace depth. */
  datatype Tracker = Tracker(stack: seq<Scope>, typeBraces: seq<int>, depth: int)

  const EMPTY := Tracker([], [], 0)

  /** A brace that opens no named scope. */
  function Open(t: Tracker): Tracker { t.(depth := t.depth + 1) }

  function NamespaceScopes(parts: seq<string>, depth: int): seq<Scope> {
    if parts == [] then [Scope("", depth, false)]
    else seq(|parts|, i requires 0 <= i < |parts| => Scope(parts[i], depth, false))
  }

  /** The brace of `namespace a::b {`; an anonymous namespace has no parts. */
  function PushNamespace(t: Tracker, parts: seq<string>): Tracker {
    t.(depth := t.depth + 1, stack := t.stack + NamespaceScopes(parts, t.depth + 1))
  }

  /** The brace of a class or struct body. */
  function PushType(t: Tracker, name: string): Tracker {
    t.(depth := t.depth + 1,
       typeBraces := t.typeBraces + [t.depth + 1],
       stack := t.stack + [Scope(name, t.depth + 1, true)])
  }

  /** How many of the first `n` scopes stay when those at `depth` are popped off the top. */
  function Kept(stack: seq<Scope>, n: nat, depth: int): (k: nat)
    requires n <= |stack|
    ensures k <= n
  {
    if n > 0 && stack[n - 1].depth == depth then Kept(stack, n - 1, depth) else n
  }

  function PopBrace(braces: seq<int>, depth: int): seq<int> {
    if braces != [] && braces[|braces| - 1] == depth then braces[..|braces| - 1] else braces
  }

  /** A closing brace. */
  function Close(t: Tracker): Tracker {
    Tracker(t.stack[..Kept(t.stack, |t.stack|, t.depth)],
            PopBrace(t.typeBraces, t.depth),
            if t.depth > 0 then t.depth - 1 else t.depth)
  }

  predicate InsideType(t: Tracker) { exists i :: 0 <= i < |t.stack| && t.stack[i].isType }

  // ---------------------------------------------------------------- the invariant

  /** The depths of the type scopes among the first `n`, outermost first. */
  function TypeDepths(stack: seq<Scope>, n: nat): (ds: seq<int>)
    requires n <= |stack|
  {
    if n == 0 then []
    else if stack[n - 1].isType then TypeDepths(stack, n - 1) + [stack[n - 1].depth]
    else TypeDepths(stack, n - 1)
  }

  predicate Ordered(stack: seq<Scope>, depth: int) {
    (forall i :: 0 <= i < |stack| ==> 1 <= stack[i].depth <= depth) &&
    (forall i, j :: 0 <= i < j < |stack| ==> stack[i].depth <= stack[j].depth)
  }

  predicate StrictlyIncreasing(xs: seq<int>) { forall i, j :: 0 <= i < j < |xs| ==> xs[i] < xs[j] }

  /** Scope depths never decrease along the stack and lie between 1 and the brace depth; the depths of
      the type scopes are exactly the recorded type braces, which strictly increase. */
  predicate Tracked(t: Tracker) {
    0 <= t.depth && Ordered(t.stack, t.depth) &&
    t.typeBraces == TypeDepths(t.stack, |t.stack|) && StrictlyIncreasing(t.typeBraces)
  }

  lemma {:induction false} TypeDepthsBounded(stack: seq<Scope>, n: nat, bound: int)
    requires n <= |stack| && forall i :: 0 <= i < n ==> stack[i].depth <= bound
    ensures forall i :: 0 <= i < |TypeDepths(stack, n)| ==> TypeDepths(stack, n)[i] <= bound
  {
    if n == 0 {
    } else {
      TypeDepthsBounded(stack, n - 1, bound);
    }
  }

  lemma {:induction false} TypeDepthsSame(a: seq<Scope>, b: seq<Scope>, n: nat)
    requires n <= |a| && n <= |b| && forall i :: 0 <= i < n ==> a[i] == b[i]
    ensures TypeDepths(a, n) == TypeDepths(b, n)
  {
    if n == 0 {
    } else {
      TypeDepthsSame(a, b, n - 1);
    }
  }

  lemma {:induction false} NoMoreTypes(stack: seq<Scope>, k: nat, n: nat)
    requires k <= n <= |stack| && forall i :: k <= i < n ==> !stack[i].isType
    ensures TypeDepths(stack, n) == TypeDepths(stack, k)
  {
    if k == n {
    } else {
      NoMoreTypes(stack, k, n - 1);
    }
  }

  /** Popping to a depth keeps exactly the scopes below it. */
  lemma {:induction false} KeptBelow(stack: seq<Scope>, n: nat, depth: int)
    requires n <= |stack| && Ordered(stack, depth)
    ensures forall i :: 0 <= i < n ==> (i < Kept(stack, n, depth) <==> stack[i].depth < depth)
  {
    if n == 0 || stack[n - 1].depth != depth {
    } else {
      KeptBelow(stack, n - 1, depth);
    }
  }

  lemma SnocStrict(xs: seq<int>, x: int)
    requires StrictlyIncreasing(xs + [x])
    ensures StrictlyIncreasing(xs) && PopBrace(xs, x) == xs && PopBrace(xs + [x], x) == xs
  {
    var ys := xs + [x];
    assert ys[..|xs|] == xs;
    assert forall i :: 0 <= i < |xs| ==> ys[i] == xs[i] < ys[|xs|];
  }

  /** At most one type scope goes with them, the one whose brace is popped. */
  lemma {:induction false} PopBraceMatches(stack: seq<Scope>, n: nat, depth: int)
    requires n <= |stack| && Ordered(stack, depth) && StrictlyIncreasing(TypeDepths(stack, n))
    ensures TypeDepths(stack, Kept(stack, n, depth)) == PopBrace(TypeDepths(stack, n), depth)
  {
    if n == 0 {
    } else {
      if stack[n - 1].depth < depth {
        TypeDepthsBounded(stack, n, stack[n - 1].depth);
      } else {
        hide StrictlyIncreasing, PopBrace;
        if stack[n - 1].isType { SnocStrict(TypeDepths(stack, n - 1), depth); }
        PopBraceMatches(stack, n - 1, depth);
      }
    }
  }

  lemma OpenKeeps(t: Tracker)
    requires Tracked(t)
    ensures Tracked(Open(t))
  {
    hide TypeDepths;
  }

  lemma PushNamespaceKeeps(t: Tracker, parts: seq<string>)
    requires Tracked(t)
    ensures Tracked(PushNamespace(t, parts))
  {
    hide TypeDepths;
    var s := PushNamespace(t, parts).stack;
    TypeDepthsSame(t.stack, s, |t.stack|);
    NoMoreTypes(s, |t.stack|, |s|);
  }

  lemma PushTypeKeeps(t: Tracker, name: string)
    requires Tracked(t)
    ensures Tracked(PushType(t, name))
  {
    var s := PushType(t, name).stack;
    TypeDepthsSame(t.stack, s, |t.stack|);
    TypeDepthsBounded(t.stack, |t.stack|, t.depth);
  }

  lemma CloseKeeps(t: Tracker)
    requires Tracked(t)
    ensures Tracked(Close(t)) && Close(t).stack <= t.stack
  {
    hide TypeDepths, Kept;
    var n := |t.stack|;
    var k := Kept(t.stack, n, t.depth);
    KeptBelow(t.stack, n, t.depth);
    PopBraceMatches(t.stack, n, t.depth);
    TypeDepthsSame(t.stack, t.stack[..k], k);
  }

  // ---------------------------------------------------------------- closing undoes opening

  lemma {:induction false} KeptIs(stack: seq<Scope>, k: nat, n: nat, depth: int)
    requires k <= n <= |stack| && (forall i :: k <= i < n ==> stack[i].depth == depth)
    requires k > 0 ==> stack[k - 1].depth != depth
    ensures Kept(stack, n, depth) == k
  {
    if k == n {
    } else {
      KeptIs(stack, k, n - 1, depth);
    }
  }

  lemma BraceNotDeeper(t: Tracker)
    requires Tracked(t)
    ensures PopBrace(t.typeBraces, t.depth + 1) == t.typeBraces
  {
    TypeDepthsBounded(t.stack, |t.stack|, t.depth);
  }

  /** The brace that closes a namespace restores the scopes that were open before it. */
  lemma CloseUndoesNamespace(t: Tracker, parts: seq<string>)
    requires Tracked(t)
    ensures Close(PushNamespace(t, parts)) == t
  {
    hide TypeDepths, Kept;
    var s := PushNamespace(t, parts).stack;
    KeptIs(s, |t.stack|, |s|, t.depth + 1);
    assert s[..|t.stack|] == t.stack;
    BraceNotDeeper(t);
  }

  /** The brace that closes a type body restores the scopes that were open before it. */
  lemma CloseUndoesType(t: Tracker, name: string)
    requires Tracked(t)
    ensures Close(PushType(t, name)) == t
  {
    hide TypeDepths, Kept;
    var s := PushType(t, name).stack;
    KeptIs(s, |t.stack|, |s|, t.depth + 1);
    assert s[..|t.stack|] == t.stack;
  }

  lemma CloseUndoesOpen(t: Tracker)
    requires Tracked(t)
    ensures Close(Open(t)) == t
  {
    hide TypeDepths, Kept;
    KeptIs(t.stack, |t.stack|, |t.stack|, t.depth + 1);
    BraceNotDeeper(t);
  }
}
