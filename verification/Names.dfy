/** Qualified names of the metadata compiler: "::a::b::c", built by joining and taken apart
    by searching for "::" (src/compiler/meta_compiler.cpp:328-338, 379-381, 894-907). */
module Names {
  import opened Lexer

  const SCOPE := "::"

  /** The parts with a separator between them. */
  function Glue(ps: seq<string>, sep: string): string {
    if ps == [] then "" else if |ps| == 1 then ps[0] else ps[0] + (sep + Glue(ps[1..], sep))
  }

  function Join(ps: seq<string>): string { Glue(ps, SCOPE) }

  /** The absolute name made of the parts. */
  function Qualify(ps: seq<string>): string { SCOPE + Join(ps) }

  predicate ScopeAt(s: string, i: nat) { i + 1 < |s| && s[i] == ':' && s[i + 1] == ':' }

  /** The next "::" at or after `i`, or the end of the text. */
  function FindScope(s: string, i: nat): (n: nat)
    requires i <= |s|
    ensures i <= n <= |s| && (n < |s| ==> ScopeAt(s, n))
    decreases |s| - i
  {
    if i == |s| || ScopeAt(s, i) then i else FindScope(s, i + 1)
  }

  /** The pieces between the occurrences of "::" from `i` on, left to right. */
  function SplitFrom(s: string, i: nat): (ps: seq<string>)
    requires i <= |s|
    ensures ps != []
    decreases |s| - i
  {
    var n := FindScope(s, i);
    if n == |s| then [s[i..]] else [s[i..n]] + SplitFrom(s, n + 2)
  }

  /** The parts of an absolute name. */
  function Parts(t: string): (ps: seq<string>)
    requires |t| >= 2
    ensures ps != []
  {
    SplitFrom(t, 2)
  }

  predicate IsAbsolute(t: string) { ScopeAt(t, 0) }

  /** A name the scanner delivers as one identifier token. */
  predicate IsName(p: string) {
    p != [] && (forall i :: 0 <= i < |p| ==> IsIdentChar(p[i])) && WordKind(p) == Identifier
  }

  /** Words passed over where the name of a class is looked for. */
  predicate IsAttribute(word: string) { word == "__attribute__" || word == "__declspec" }

  predicate AllNames(ps: seq<string>) { forall i :: 0 <= i < |ps| ==> IsName(ps[i]) }

  // ---------------------------------------------------------------- joining and splitting

  lemma {:induction false} GlueSnoc(ps: seq<string>, p: string, sep: string)
    requires ps != []
    ensures Glue(ps + [p], sep) == Glue(ps, sep) + (sep + p)
  {
    assert (ps + [p])[1..] == ps[1..] + [p];
    if |ps| <= 1 {
    } else {
      GlueSnoc(ps[1..], p, sep);
      var g := Glue(ps[1..], sep);
      assert ps[0] + (sep + (g + (sep + p))) == (ps[0] + (sep + g)) + (sep + p);
    }
  }

  lemma ScopeSlice(s: string, i: nat, n: nat)
    requires i <= n && ScopeAt(s, n)
    ensures s[i..] == s[i..n] + (SCOPE + s[n + 2..])
  {
  }

  lemma GlueCons(p: string, ps: seq<string>, sep: string)
    requires ps != []
    ensures Glue([p] + ps, sep) == p + (sep + Glue(ps, sep))
  {
    assert ([p] + ps)[1..] == ps;
  }

  /** Joining the pieces of any text gives the text back. */
  lemma {:induction false} JoinSplit(s: string, i: nat)
    requires i <= |s|
    ensures Join(SplitFrom(s, i)) == s[i..]
    decreases |s| - i
  {
    hide FindScope;
    var n := FindScope(s, i);
    if n == |s| {
    } else {
      JoinSplit(s, n + 2);
      GlueCons(s[i..n], SplitFrom(s, n + 2), SCOPE);
      ScopeSlice(s, i, n);
    }
  }

  lemma {:induction false} FindScopeIs(s: string, i: nat, n: nat)
    requires i <= n <= |s| && (n == |s| || ScopeAt(s, n))
    requires forall k :: i <= k < n ==> s[k] != ':'
    ensures FindScope(s, i) == n
    decreases n - i
  {
    if i == n {
    } else {
      FindScopeIs(s, i + 1, n);
    }
  }

  /** Splitting the joined parts gives the parts back. */
  lemma {:induction false} SplitJoin(s: string, i: nat, ps: seq<string>)
    requires i <= |s| && s[i..] == Join(ps) && ps != [] && AllNames(ps)
    ensures SplitFrom(s, i) == ps
    decreases |ps|
  {
    hide FindScope, IsName;
    var n := i + |ps[0]|;
    NameHead(s, i, ps);
    FindScopeIs(s, i, n);
    if |ps| <= 1 {
    } else {
      SplitJoin(s, n + 2, ps[1..]);
    }
  }

  lemma NameHead(s: string, i: nat, ps: seq<string>)
    requires i <= |s| && s[i..] == Join(ps) && ps != [] && AllNames(ps)
    ensures var n := i + |ps[0]|;
            n <= |s| && s[i..n] == ps[0] && (forall k :: i <= k < n ==> s[k] != ':') &&
            (|ps| == 1 ==> n == |s|) &&
            (|ps| > 1 ==> ScopeAt(s, n) && s[n + 2..] == Join(ps[1..]))
  {
    hide WordKind;
    var t := s[i..];
    var n := |ps[0]|;
    assert t[..n] == ps[0];
    forall k | i <= k < i + n ensures s[k] != ':' {
      assert s[k] == t[k - i] == ps[0][k - i];
    }
    if |ps| > 1 {
      assert t[n..] == SCOPE + Join(ps[1..]);
      assert t[n + 2..] == Join(ps[1..]);
      assert s[i + n] == t[n] && s[i + n + 1] == t[n + 1];
    }
  }

  lemma QualifyParts(ps: seq<string>)
    requires ps != [] && AllNames(ps)
    ensures IsAbsolute(Qualify(ps)) && Parts(Qualify(ps)) == ps
  {
    hide SplitFrom, Join;
    var t := Qualify(ps);
    assert t[2..] == Join(ps);
    SplitJoin(t, 2, ps);
  }

  lemma PartsQualify(t: string)
    requires IsAbsolute(t)
    ensures Qualify(Parts(t)) == t
  {
    JoinSplit(t, 2);
  }

  // ---------------------------------------------------------------- identifiers among tokens

  /** Identifier tokens carry names. */
  predicate NamedTokens(ts: seq<Token>) {
    forall i :: 0 <= i < |ts| && ts[i].kind == Identifier ==> IsName(ts[i].payload)
  }

  lemma IdentifierIsName(s: string, j: nat)
    requires j < |s| && TokenKind(s, j) == Identifier
    ensures IsName(TokenAt(s, j).payload)
  {
    hide RawEnd, QuotedEnd, IsRawPrefix, IdentEnd;
    IdentStops(s, j);
  }

  /** Every identifier token the scanner delivers is a name. */
  lemma {:induction false} LexNamesTokens(s: string, i: nat)
    requires i <= |s|
    ensures NamedTokens(LexFrom(s, i))
    decreases |s| - i
  {
    hide IsName, TriviaEnd, TokenEnd, TokenKind;
    var j := TriviaEnd(s, i);
    if j == |s| {
    } else {
      LexNamesTokens(s, TokenEnd(s, j));
      if TokenKind(s, j) == Identifier { IdentifierIsName(s, j); }
    }
  }
}
