/** Which scopes are open at a round, in both passes of the metadata compiler
    (src/compiler/meta_compiler.cpp:281-285, 317-339, 405-418, 455-500): a scope is open exactly if an earlier
    round opened it and the brace depth has not fallen below it since. */
module OpenScopes {
  import opened Wrappers
  import opened Lexer
  import opened Names
  import opened Scopes
  import opened Registry
  import opened Discovery
  import opened Digest
  import opened Shapes
  import opened Declarations
  import opened Definitions

  // ---------------------------------------------------------------- one round

  /** `extern x {`, where `x` is an identifier or an unknown character. */
  predicate ExternBrace(ts: seq<Token>, i: nat) {
    && i + 2 < |ts| && ts[i] == Token(Identifier, "extern") && ts[i + 1].kind in {Identifier, Unknown}
    && ts[i + 2].kind == LBrace
  }

  /** What a round on the token at `i` does to the open scopes. */
  ghost predicate Moves(ts: seq<Token>, i: nat, second: bool, trk: Tracker, trk': Tracker)
    requires i < |ts|
  {
    match ts[i].kind
    case LBrace => trk' == Open(trk)
    case RBrace => trk' == Close(trk)
    case NamespaceDef =>
      && (forall parts, e: nat :: OpensNamespace(ts, i, parts, e) ==> trk' == PushNamespace(trk, parts))
      && ((forall parts, e: nat :: !OpensNamespace(ts, i, parts, e)) ==> trk' == trk)
    case ClassDef => MovesClass(ts, i, second, trk, trk')
    case StructDef => MovesClass(ts, i, second, trk, trk')
    case Identifier => trk' == if second && ExternBrace(ts, i) then Open(trk) else trk
    case _ => trk' == trk
  }

  ghost predicate MovesClass(ts: seq<Token>, i: nat, second: bool, trk: Tracker, trk': Tracker) {
    && (forall n: nat :: NameOf(ts, i, n, second) ==>
          trk' == if Ending(ts, n + 1, second).0 then PushType(trk, ts[n].payload) else trk)
    && ((forall n: nat :: !NameOf(ts, i, n, second)) ==> trk' == trk)
  }

  lemma ClassMoves(ts: seq<Token>, i: nat, st: State)
    requires i < |ts| && (ts[i].kind == ClassDef || ts[i].kind == StructDef)
    ensures MovesClass(ts, i, false, st.trk, Step(ts, i, st).1.trk)
  {
    hide Leading, Step, Ending, PushType, Qualify, OpenNames, InsideType;
    forall n: nat | NameOf(ts, i, n, false)
      ensures Step(ts, i, st).1.trk ==
                if Ending(ts, n + 1, false).0 then PushType(st.trk, ts[n].payload) else st.trk
    {
      ClassRound(ts, i, n, st);
    }
    if forall n: nat :: !NameOf(ts, i, n, false) {
      NamelessRound(ts, i, st);
    }
  }

  lemma NamelessRound(ts: seq<Token>, i: nat, st: State)
    requires i < |ts| && (ts[i].kind == ClassDef || ts[i].kind == StructDef)
    requires forall n: nat :: !NameOf(ts, i, n, false)
    ensures Step(ts, i, st).1.trk == st.trk
  {
    hide NameOf, NameAt, FindBody, EnterType;
    NameOfIs(ts, i, NameAt(ts, i + 1, false), false);
  }

  lemma DefinitionMoves(ts: seq<Token>, i: nat, st: State, primary: bool)
    requires i < |ts| && (ts[i].kind == ClassDef || ts[i].kind == StructDef)
    ensures MovesClass(ts, i, true, st.trk, DigestStep(ts, i, st, primary).1.trk)
  {
    hide Leading, DigestStep, Ending, PushType, Qualify, OpenNames, InsideType, Anonymous;
    forall n: nat | NameOf(ts, i, n, true)
      ensures DigestStep(ts, i, st, primary).1.trk ==
                if Ending(ts, n + 1, true).0 then PushType(st.trk, ts[n].payload) else st.trk
    {
      DefinitionRound(ts, i, n, st, primary);
    }
    if forall n: nat :: !NameOf(ts, i, n, true) {
      NamelessDefinition(ts, i, st, primary);
    }
  }

  lemma NamelessDefinition(ts: seq<Token>, i: nat, st: State, primary: bool)
    requires i < |ts| && (ts[i].kind == ClassDef || ts[i].kind == StructDef)
    requires forall n: nat :: !NameOf(ts, i, n, true)
    ensures DigestStep(ts, i, st, primary).1.trk == st.trk
  {
    hide NameOf, NameAt, BodyEnd, DefineType, IsInternal;
    NameOfIs(ts, i, NameAt(ts, i + 1, true), true);
  }

  /** A namespace round opens the scopes its head names, or none. */
  lemma NamespaceMoves(ts: seq<Token>, i: nat, st: State)
    requires i < |ts| && ts[i].kind == NamespaceDef
    ensures var trk' := EnterNamespace(st, ReadNamespace(ts, i + 1, [])).trk;
            && (forall parts, e: nat :: OpensNamespace(ts, i, parts, e) ==> trk' == PushNamespace(st.trk, parts))
            && ((forall parts, e: nat :: !OpensNamespace(ts, i, parts, e)) ==> trk' == st.trk)
  {
    hide OpensNamespace, ReadNamespace, PushNamespace, AddNamespaces, OpenPath;
    forall parts, e: nat | OpensNamespace(ts, i, parts, e)
      ensures ReadNamespace(ts, i + 1, []) == NamespaceHead(parts, true, e + 1)
    {
      NamespaceIs(ts, i, parts, e);
    }
    if forall parts, e: nat :: !OpensNamespace(ts, i, parts, e) {
      NotEntered(ts, i);
    }
  }

  /** A round of the first pass. */
  lemma RoundMoves(ts: seq<Token>, i: nat, st: State)
    requires i < |ts|
    ensures Moves(ts, i, false, st.trk, Step(ts, i, st).1.trk)
  {
    hide MovesClass, ReadNamespace, ClassStep, SkipTemplate, EnterNamespace, Open, Close, PushNamespace, OpensNamespace;
    match ts[i].kind {
      case NamespaceDef => NamespaceMoves(ts, i, st);
      case ClassDef => ClassMoves(ts, i, st);
      case StructDef => ClassMoves(ts, i, st);
      case _ =>
    }
  }

  /** A round of the second pass. */
  lemma DigestMoves(ts: seq<Token>, i: nat, st: State, primary: bool)
    requires i < |ts|
    ensures Moves(ts, i, true, st.trk, DigestStep(ts, i, st, primary).1.trk)
  {
    hide MovesClass, ReadNamespace, DefineStep, SkipTemplate, EnterNamespace, Open, Close, PushNamespace,
         OpensNamespace, ContextEnd, PastSemicolon;
    match ts[i].kind {
      case NamespaceDef => NamespaceMoves(ts, i, st);
      case ClassDef => DefinitionMoves(ts, i, st, primary);
      case StructDef => DefinitionMoves(ts, i, st, primary);
      case _ =>
    }
  }

  // ---------------------------------------------------------------- all rounds

  function ScopesAt(ts: seq<Token>, second: bool, k: nat): Tracker { At(ts, second, k).1.trk }

  /** From round to round the open scopes move as the token at its start says. */
  lemma ScopesNext(ts: seq<Token>, second: bool, k: nat)
    ensures var i, trk, trk' := At(ts, second, k).0, ScopesAt(ts, second, k), ScopesAt(ts, second, k + 1);
            if i < |ts| then Moves(ts, i, second, trk, trk') else trk' == trk
  {
    hide Moves, Step, DigestStep, Rounds, DigestRounds;
    var (i, st) := At(ts, second, k);
    if second {
      DigestSnoc(ts, 0, START, false, k);
      if i < |ts| { DigestMoves(ts, i, st, false); }
    } else {
      RoundsSnoc(ts, 0, START, k);
      if i < |ts| { RoundMoves(ts, i, st); }
    }
  }

  /** The `m`-th round opens this scope. */
  ghost predicate OpenedBy(ts: seq<Token>, second: bool, m: nat, sc: Scope) {
    var (i, st) := At(ts, second, m);
    && sc.depth == st.trk.depth + 1
    && (|| (exists n: nat :: && NameOf(ts, i, n, second) && Ending(ts, n + 1, second).0
                             && sc.name == ts[n].payload && sc.isType)
        || (!sc.isType && exists parts, e: nat :: && OpensNamespace(ts, i, parts, e)
                                                  && (sc.name in parts || (parts == [] && sc.name == ""))))
  }

  /** Opened in the `m`-th round, and the brace depth has not fallen below it up to the `k`-th. */
  ghost predicate StillOpen(ts: seq<Token>, second: bool, m: nat, k: nat, sc: Scope) {
    OpenedBy(ts, second, m, sc) && forall q: nat :: m < q <= k ==> sc.depth <= ScopesAt(ts, second, q).depth
  }

  lemma PushedScopes(t: Tracker, parts: seq<string>, sc: Scope)
    ensures sc in PushNamespace(t, parts).stack <==>
            || sc in t.stack
            || (sc.depth == t.depth + 1 && !sc.isType && (sc.name in parts || (parts == [] && sc.name == "")))
  {
    var added := NamespaceScopes(parts, t.depth + 1);
    if sc.name in parts {
      var i :| 0 <= i < |parts| && parts[i] == sc.name;
      assert added[i] == Scope(parts[i], t.depth + 1, false);
    }
    assert forall i :: 0 <= i < |added| ==> added[i].depth == t.depth + 1 && !added[i].isType;
  }

  lemma ClosedScopes(t: Tracker, sc: Scope)
    requires Tracked(t)
    ensures sc in Close(t).stack <==> sc in t.stack && sc.depth <= Close(t).depth
  {
    hide Kept, TypeDepths;
    KeptBelow(t.stack, |t.stack|, t.depth);
  }

  lemma MoveKeeps(ts: seq<Token>, i: nat, second: bool, trk: Tracker, trk': Tracker)
    requires i < |ts| && Moves(ts, i, second, trk, trk') && Tracked(trk)
    ensures Tracked(trk')
  {
    hide Tracked, Open, Close, PushNamespace, PushType, NameOf, Ending, OpensNamespace, ExternBrace;
    OpenKeeps(trk);
    CloseKeeps(trk);
    if ts[i].kind == NamespaceDef {
      if parts, e: nat :| OpensNamespace(ts, i, parts, e) { PushNamespaceKeeps(trk, parts); }
    } else if ts[i].kind == ClassDef || ts[i].kind == StructDef {
      if n: nat :| NameOf(ts, i, n, second) {
        NameOfKeyword(ts, i, n, second);
        PushTypeKeeps(trk, ts[n].payload);
      }
    }
  }

  lemma {:induction false} TrackedAt(ts: seq<Token>, second: bool, k: nat)
    ensures Tracked(ScopesAt(ts, second, k))
  {
    if k == 0 {
    } else {
      hide Tracked, ScopesAt, Moves;
      TrackedAt(ts, second, k - 1);
      ScopesNext(ts, second, k - 1);
      var i := At(ts, second, k - 1).0;
      if i < |ts| { MoveKeeps(ts, i, second, ScopesAt(ts, second, k - 1), ScopesAt(ts, second, k)); }
    }
  }

  lemma OpenedAbove(ts: seq<Token>, second: bool, k: nat, sc: Scope)
    requires OpenedBy(ts, second, k, sc)
    ensures sc.depth == ScopesAt(ts, second, k).depth + 1
  {
    hide NameOf, OpensNamespace, Ending;
  }

  /** Behind one round, the scopes are those it opens and those before that are not deeper than the braces. */
  lemma StackNext(ts: seq<Token>, second: bool, k: nat, sc: Scope)
    ensures sc in ScopesAt(ts, second, k + 1).stack <==>
            || OpenedBy(ts, second, k, sc)
            || (sc in ScopesAt(ts, second, k).stack && sc.depth <= ScopesAt(ts, second, k + 1).depth)
    ensures OpenedBy(ts, second, k, sc) ==> sc.depth == ScopesAt(ts, second, k + 1).depth
  {
    hide Moves, ScopesAt, OpenedBy;
    var i, trk := At(ts, second, k).0, ScopesAt(ts, second, k);
    TrackedAt(ts, second, k);
    ScopesNext(ts, second, k);
    StackBounded(trk, sc);
    if i < |ts| && ts[i].kind == NamespaceDef {
      NamespaceStack(ts, second, k, sc);
    } else if i < |ts| && (ts[i].kind == ClassDef || ts[i].kind == StructDef) {
      ClassStack(ts, second, k, sc);
    } else {
      OtherStack(ts, second, k, sc);
    }
  }

  lemma StackBounded(t: Tracker, sc: Scope)
    requires Tracked(t)
    ensures sc in t.stack ==> sc.depth <= t.depth
  {
    hide TypeDepths;
  }

  lemma OtherStack(ts: seq<Token>, second: bool, k: nat, sc: Scope)
    requires var i, trk := At(ts, second, k).0, ScopesAt(ts, second, k);
             && Tracked(trk) && (sc in trk.stack ==> sc.depth <= trk.depth)
             && (i < |ts| ==> && ts[i].kind != NamespaceDef && ts[i].kind != ClassDef && ts[i].kind != StructDef
                              && Moves(ts, i, second, trk, ScopesAt(ts, second, k + 1)))
             && (i == |ts| ==> ScopesAt(ts, second, k + 1) == trk)
    ensures !OpenedBy(ts, second, k, sc)
    ensures sc in ScopesAt(ts, second, k + 1).stack <==>
            sc in ScopesAt(ts, second, k).stack && sc.depth <= ScopesAt(ts, second, k + 1).depth
  {
    hide At, Tracked, Close, Leading, HeadOf, ExternBrace, Ending;
    ClosedScopes(ScopesAt(ts, second, k), sc);
  }

  lemma NamespaceStack(ts: seq<Token>, second: bool, k: nat, sc: Scope)
    requires var i, trk := At(ts, second, k).0, ScopesAt(ts, second, k);
             && (sc in trk.stack ==> sc.depth <= trk.depth) && i < |ts| && ts[i].kind == NamespaceDef
             && Moves(ts, i, second, trk, ScopesAt(ts, second, k + 1))
    ensures sc in ScopesAt(ts, second, k + 1).stack <==>
            || OpenedBy(ts, second, k, sc)
            || (sc in ScopesAt(ts, second, k).stack && sc.depth <= ScopesAt(ts, second, k + 1).depth)
    ensures OpenedBy(ts, second, k, sc) ==> sc.depth == ScopesAt(ts, second, k + 1).depth
  {
    hide At, OpensNamespace, Leading, Ending, NamespaceScopes;
    var i, trk := At(ts, second, k).0, ScopesAt(ts, second, k);
    if parts, e: nat :| OpensNamespace(ts, i, parts, e) {
      PushedScopes(trk, parts, sc);
      forall parts', e': nat | OpensNamespace(ts, i, parts', e') ensures parts' == parts {
        NamespaceIs(ts, i, parts, e);
        NamespaceIs(ts, i, parts', e');
      }
    }
  }

  lemma ClassStack(ts: seq<Token>, second: bool, k: nat, sc: Scope)
    requires var i, trk := At(ts, second, k).0, ScopesAt(ts, second, k);
             && (sc in trk.stack ==> sc.depth <= trk.depth)
             && i < |ts| && (ts[i].kind == ClassDef || ts[i].kind == StructDef)
             && Moves(ts, i, second, trk, ScopesAt(ts, second, k + 1))
    ensures sc in ScopesAt(ts, second, k + 1).stack <==>
            || OpenedBy(ts, second, k, sc)
            || (sc in ScopesAt(ts, second, k).stack && sc.depth <= ScopesAt(ts, second, k + 1).depth)
    ensures OpenedBy(ts, second, k, sc) ==> sc.depth == ScopesAt(ts, second, k + 1).depth
  {
    hide At, Leading, HeadOf, Ending, NameAt;
    var i := At(ts, second, k).0;
    if n: nat :| NameOf(ts, i, n, second) {
      forall n': nat | NameOf(ts, i, n', second) ensures n' == n {
        NameOfIs(ts, i, n, second);
        NameOfIs(ts, i, n', second);
      }
    }
  }

  lemma StillOpenNext(ts: seq<Token>, second: bool, m: nat, k: nat, sc: Scope)
    requires m <= k
    ensures StillOpen(ts, second, m, k + 1, sc) <==>
            StillOpen(ts, second, m, k, sc) && sc.depth <= ScopesAt(ts, second, k + 1).depth
  {
    hide ScopesAt, OpenedBy;
  }

  lemma StillOpenNow(ts: seq<Token>, second: bool, k: nat, sc: Scope)
    ensures StillOpen(ts, second, k, k, sc) <==> OpenedBy(ts, second, k, sc)
  {
    hide ScopesAt, OpenedBy;
  }

  /** In both passes, on every text: a scope is open exactly if some round before opened it and the brace depth
      has not fallen below it since. */
  lemma {:induction false} OpenExactly(ts: seq<Token>, second: bool, k: nat, sc: Scope)
    ensures sc in ScopesAt(ts, second, k).stack <==> exists m: nat :: m < k && StillOpen(ts, second, m, k, sc)
  {
    hide StillOpen, OpenedBy;
    if k == 0 {
    } else {
      hide ScopesAt;
      OpenExactly(ts, second, k - 1, sc);
      StackNext(ts, second, k - 1, sc);
      StillOpenNow(ts, second, k - 1, sc);
      StillOpenNext(ts, second, k - 1, k - 1, sc);
      if sc in ScopesAt(ts, second, k).stack && !OpenedBy(ts, second, k - 1, sc) {
        var m: nat :| m < k - 1 && StillOpen(ts, second, m, k - 1, sc);
        StillOpenNext(ts, second, m, k - 1, sc);
      }
      if m: nat :| m < k && StillOpen(ts, second, m, k, sc) {
        StillOpenNext(ts, second, m, k - 1, sc);
      }
    }
  }

  /** The body opened in the `m`-th round has not been closed before the `k`-th. */
  ghost predicate BodyOpen(ts: seq<Token>, second: bool, m: nat, k: nat) {
    && Declared(ts, second, m).Some? && Declared(ts, second, m).value.body
    && forall q: nat :: m < q <= k ==> ScopesAt(ts, second, m).depth < ScopesAt(ts, second, q).depth
  }

  lemma BodyOpens(ts: seq<Token>, second: bool, m: nat, sc: Scope)
    ensures OpenedBy(ts, second, m, sc) && sc.isType ==>
              Declared(ts, second, m).Some? && Declared(ts, second, m).value.body
  {
    hide At, NameOf, OpensNamespace, Ending, Qualify, OpenNames, InsideType, Anonymous, BehindTemplate, Declared;
    if OpenedBy(ts, second, m, sc) && sc.isType {
      var i := At(ts, second, m).0;
      var n: nat :| NameOf(ts, i, n, second) && Ending(ts, n + 1, second).0;
      DeclaredIs(ts, second, m, n);
    }
  }

  lemma BodyScope(ts: seq<Token>, second: bool, m: nat) returns (sc: Scope)
    requires Declared(ts, second, m).Some? && Declared(ts, second, m).value.body
    ensures OpenedBy(ts, second, m, sc) && sc.isType
  {
    hide At, Leading, OpensNamespace, Ending, Qualify, OpenNames, InsideType, Anonymous, BehindTemplate;
    var (i, st) := At(ts, second, m);
    var n: nat :| NameOf(ts, i, n, second) && Ending(ts, n + 1, second).0;
    sc := Scope(ts[n].payload, st.trk.depth + 1, true);
  }

  /** A class is nested exactly if the body of an earlier class has not been closed. */
  lemma {:induction false} NestedExactly(ts: seq<Token>, second: bool, k: nat)
    ensures InsideType(ScopesAt(ts, second, k)) <==> exists m: nat :: m < k && BodyOpen(ts, second, m, k)
  {
    hide ScopesAt, OpenedBy, Declared;
    var stack := ScopesAt(ts, second, k).stack;
    if InsideType(ScopesAt(ts, second, k)) {
      var j :| 0 <= j < |stack| && stack[j].isType;
      OpenExactly(ts, second, k, stack[j]);
      var m: nat :| m < k && StillOpen(ts, second, m, k, stack[j]);
      BodyOpens(ts, second, m, stack[j]);
      OpenedAbove(ts, second, m, stack[j]);
      assert BodyOpen(ts, second, m, k);
    }
    if m: nat :| m < k && BodyOpen(ts, second, m, k) {
      var sc := BodyScope(ts, second, m);
      OpenedAbove(ts, second, m, sc);
      assert StillOpen(ts, second, m, k, sc);
      OpenExactly(ts, second, k, sc);
    }
  }

  /** The anonymous namespace opened in the `m`-th round has not been closed before the `k`-th. */
  ghost predicate AnonymousOpen(ts: seq<Token>, second: bool, m: nat, k: nat) {
    && (exists e: nat :: OpensNamespace(ts, At(ts, second, m).0, [], e))
    && forall q: nat :: m < q <= k ==> ScopesAt(ts, second, m).depth < ScopesAt(ts, second, q).depth
  }

  lemma NamelessScope(ts: seq<Token>, second: bool, m: nat, sc: Scope)
    requires NamedTokens(ts)
    ensures OpenedBy(ts, second, m, sc) && sc.name == "" ==>
              exists e: nat :: OpensNamespace(ts, At(ts, second, m).0, [], e)
  {
    hide At, Leading, OpensNamespace, Ending, IsName, ReadNamespace;
    var i := At(ts, second, m).0;
    forall n: nat | NameOf(ts, i, n, second) ensures ts[n].payload != "" {
      NameNotEmpty(ts[n].payload);
    }
    forall parts, e: nat | OpensNamespace(ts, i, parts, e) ensures "" !in parts {
      OpensBehind(ts, i, parts, e);
      NamespaceIs(ts, i, parts, e);
      NamespacePartsNamed(ts, i + 1, []);
      forall j | 0 <= j < |parts| ensures parts[j] != "" { NameNotEmpty(parts[j]); }
    }
  }

  lemma OpensBehind(ts: seq<Token>, i: nat, parts: seq<string>, e: nat)
    requires OpensNamespace(ts, i, parts, e)
    ensures i < |ts| && ts[i].kind == NamespaceDef
  {
    hide HeadOf;
  }

  /** On every text: a class stands in an anonymous namespace exactly if one opened before has not been closed. */
  lemma {:induction false} AnonymousExactly(ts: seq<Token>, second: bool, k: nat)
    requires NamedTokens(ts)
    ensures Anonymous(ScopesAt(ts, second, k)) <==> exists m: nat :: m < k && AnonymousOpen(ts, second, m, k)
  {
    hide At, ScopesAt, NamedTokens, OpensNamespace, NameOf, Ending;
    var stack := ScopesAt(ts, second, k).stack;
    if Anonymous(ScopesAt(ts, second, k)) {
      hide OpenedBy;
      var j :| 0 <= j < |stack| && stack[j].name == "";
      OpenExactly(ts, second, k, stack[j]);
      var m: nat :| m < k && StillOpen(ts, second, m, k, stack[j]);
      NamelessScope(ts, second, m, stack[j]);
      OpenedAbove(ts, second, m, stack[j]);
      assert AnonymousOpen(ts, second, m, k);
    }
    if m: nat :| m < k && AnonymousOpen(ts, second, m, k) {
      var sc := Scope("", At(ts, second, m).1.trk.depth + 1, false);
      assert OpenedBy(ts, second, m, sc);
      OpenedAbove(ts, second, m, sc);
      assert StillOpen(ts, second, m, k, sc);
      OpenExactly(ts, second, k, sc);
    }
  }
}
