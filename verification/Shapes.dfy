/** The shapes of the declarations both passes of the metadata compiler read, stated on positions and kinds of
    tokens (src/compiler/meta_compiler.cpp:295-403, 445-640): where a pair of brackets closes, which attributes
    may stand in front of the name of a class, where its head ends and where a body begins. Each shape is tied
    in both directions to the function that reads it. */
module Shapes {
  import opened Lexer
  import opened Names
  import opened Registry
  import opened Discovery
  import opened Digest

  // ---------------------------------------------------------------- counting

  function Weight(t: Token, open: Kind, close: Kind): int {
    if t.kind == open then 1 else if t.kind == close then -1 else 0
  }

  /** How many more tokens of one kind than of the other stand between `i` and `j`. */
  function Balance(ts: seq<Token>, i: nat, j: nat, open: Kind, close: Kind): int
    requires j <= |ts|
    decreases j
  {
    if j <= i then 0 else Balance(ts, i, j - 1, open, close) + Weight(ts[j - 1], open, close)
  }

  /** No parenthesis and no square bracket opened since `a` is open at `k`, and no brace if those count. */
  predicate Outside(ts: seq<Token>, a: nat, k: nat, braces: bool)
    requires k <= |ts|
  {
    && Balance(ts, a, k, LParen, RParen) == 0 && Balance(ts, a, k, LBracket, RBracket) == 0
    && (braces ==> Balance(ts, a, k, LBrace, RBrace) == 0)
  }

  /** The angles open at `k`; those inside other brackets do not count. */
  function Angles(ts: seq<Token>, a: nat, k: nat, braces: bool): int
    requires k <= |ts|
    decreases k
  {
    if k <= a then 0
    else Angles(ts, a, k - 1, braces) + if Outside(ts, a, k - 1, braces) then Weight(ts[k - 1], LAngle, RAngle) else 0
  }

  /** No bracket and no angle opened since `a` is open at `k`. */
  predicate Flat(ts: seq<Token>, a: nat, k: nat)
    requires k <= |ts|
  {
    Outside(ts, a, k, false) && Angles(ts, a, k, false) == 0
  }

  // ---------------------------------------------------------------- first positions

  function First(ts: seq<Token>, i: nat, kinds: set<Kind>): (j: nat)
    requires i <= |ts|
    ensures i <= j <= |ts| && (j < |ts| ==> ts[j].kind in kinds)
    ensures forall k :: i <= k < j ==> ts[k].kind !in kinds
    decreases |ts| - i
  {
    if i == |ts| || ts[i].kind in kinds then i else First(ts, i + 1, kinds)
  }

  /** The first such token that stands outside all brackets and angles opened since `a`. */
  function FirstFlat(ts: seq<Token>, a: nat, i: nat, kinds: set<Kind>): (j: nat)
    requires a <= i <= |ts|
    ensures i <= j <= |ts| && (j < |ts| ==> ts[j].kind in kinds && Flat(ts, a, j))
    ensures forall k :: i <= k < j ==> !(ts[k].kind in kinds && Flat(ts, a, k))
    decreases |ts| - i
  {
    if i == |ts| || (ts[i].kind in kinds && Flat(ts, a, i)) then i else FirstFlat(ts, a, i + 1, kinds)
  }

  /** Behind the angle that closes the one in front of `a`. */
  function AnglesEnd(ts: seq<Token>, a: nat, i: nat): (j: nat)
    requires a <= i <= |ts|
    ensures i <= j <= |ts| && (j < |ts| ==> 1 + Angles(ts, a, j, true) <= 0)
    ensures forall k :: i <= k < j ==> 0 < 1 + Angles(ts, a, k, true)
    decreases |ts| - i
  {
    if i == |ts| || 1 + Angles(ts, a, i, true) <= 0 then i else AnglesEnd(ts, a, i + 1)
  }

  lemma FirstIs(ts: seq<Token>, i: nat, j: nat, kinds: set<Kind>)
    requires i <= j < |ts| && ts[j].kind in kinds && forall k :: i <= k < j ==> ts[k].kind !in kinds
    ensures First(ts, i, kinds) == j
  {
    hide First;
  }

  // ---------------------------------------------------------------- what may stand in front of a name

  /** From `a` to `b` stands one bracketed group, or an unclosed one up to the end of the text. */
  predicate Bracketed(ts: seq<Token>, a: nat, b: nat, open: Kind, close: Kind) {
    && a < b <= |ts| && ts[a].kind == open
    && (forall k :: a < k < b ==> 0 < Balance(ts, a, k, open, close))
    && (b == |ts| || Balance(ts, a, b, open, close) == 0)
  }

  /** A closing parenthesis in front of `k` that leaves none open; in the first pass also one too many. */
  predicate ClosesAlignment(ts: seq<Token>, a: nat, k: nat, exact: bool) {
    && a < k <= |ts| && ts[k - 1].kind == RParen
    && (Balance(ts, a, k, LParen, RParen) == 0 || (Balance(ts, a, k, LParen, RParen) < 0 && !exact))
  }

  /** From `a`, behind `alignas`, to `b` stands its operand. */
  predicate Aligned(ts: seq<Token>, a: nat, b: nat, exact: bool) {
    && a <= b <= |ts| && (forall k :: a < k < b ==> !ClosesAlignment(ts, a, k, exact))
    && (b == |ts| || ClosesAlignment(ts, a, b, exact))
  }

  predicate AttributeWord(t: Token) {
    t.kind == Identifier && (t.payload == "__attribute__" || t.payload == "__declspec")
  }

  /** From `a` to `b` stands one thing that may precede the name: an alignment, an attribute in brackets, an
      attribute word with or without an argument, or a leading scope. */
  predicate Piece(ts: seq<Token>, a: nat, b: nat, exact: bool) {
    && a < b <= |ts|
    && (|| ((ts[a].kind == AlignAs || ts[a].kind == AlignOf) && Aligned(ts, a + 1, b, exact))
        || Bracketed(ts, a, b, LBracket, RBracket)
        || (ts[a].kind == ScopeResolution && b == a + 1)
        || (AttributeWord(ts[a]) && (if a + 1 < |ts| && ts[a + 1].kind == LParen then
                                       Bracketed(ts, a + 1, b, LParen, RParen)
                                     else b == a + 1)))
  }

  /** From `i` to `n` stand such pieces only. */
  ghost predicate Leading(ts: seq<Token>, i: nat, n: nat, exact: bool)
    requires n <= |ts|
    decreases n - i
  {
    i == n || exists b :: i < b <= n && Piece(ts, i, b, exact) && Leading(ts, b, n, exact)
  }

  /** A token no piece begins with. */
  predicate Plain(t: Token) {
    && t.kind != AlignAs && t.kind != AlignOf && t.kind != LBracket && t.kind != ScopeResolution
    && !AttributeWord(t)
  }

  /** The keyword at `i` declares the class named at `n`. The second pass leaves out the compiler's own names. */
  ghost predicate NameOf(ts: seq<Token>, i: nat, n: nat, second: bool) {
    && i < n < |ts| && (ts[i].kind == ClassDef || ts[i].kind == StructDef)
    && Leading(ts, i + 1, n, second) && ts[n].kind == Identifier && !AttributeWord(ts[n])
    && (second ==> ts[n].payload != "meta_traits" && ts[n].payload != "typelist")
  }

  /** At `e`, the first brace, colon or semicolon behind the name of a class: whether a body follows, and the
      position behind its brace or behind the head. A base list ends at the first brace or semicolon for the
      first pass, and at the first brace outside all brackets and angles for the second. */
  function EndingAt(ts: seq<Token>, e: nat, second: bool): (r: (bool, nat))
    requires e <= |ts|
    ensures e <= r.1 <= |ts|
  {
    if e == |ts| then (false, e)
    else if ts[e].kind != Colon then (ts[e].kind == LBrace, e + 1)
    else
      var f := if second then FirstFlat(ts, e + 1, e + 1, {LBrace}) else First(ts, e + 1, {LBrace, SemiColon});
      if f == |ts| then (false, f) else (ts[f].kind == LBrace, f + 1)
  }

  /** The same behind the name. */
  function Ending(ts: seq<Token>, a: nat, second: bool): (r: (bool, nat))
    requires a <= |ts|
    ensures a <= r.1 <= |ts|
  {
    EndingAt(ts, First(ts, a, {LBrace, Colon, SemiColon}), second)
  }

  // ---------------------------------------------------------------- brackets and alignments

  lemma {:induction false} PairsEnd(ts: seq<Token>, a: nat, i: nat, square: bool)
    requires var open, close := if square then LBracket else LParen, if square then RBracket else RParen;
             && a < i <= |ts| && ts[a].kind == open
             && forall k :: a < k < i ==> 0 < Balance(ts, a, k, open, close)
    ensures var open, close := if square then LBracket else LParen, if square then RBracket else RParen;
            Bracketed(ts, a, SkipPairs(ts, i, Balance(ts, a, i, open, close), square), open, close)
    decreases |ts| - i
  {
    var open, close := if square then LBracket else LParen, if square then RBracket else RParen;
    var n := Balance(ts, a, i, open, close);
    if n <= 0 || i == |ts| {
      assert i == a + 1 || 0 < Balance(ts, a, i - 1, open, close);
    } else {
      PairsEnd(ts, a, i + 1, square);
    }
  }

  /** The skipped pair is the bracketed group that starts there. */
  lemma PairsAre(ts: seq<Token>, a: nat, b: nat, square: bool)
    requires a < |ts| && ts[a].kind == (if square then LBracket else LParen)
    ensures SkipPairs(ts, a + 1, 1, square) == b <==>
            Bracketed(ts, a, b, if square then LBracket else LParen, if square then RBracket else RParen)
  {
    hide SkipPairs;
    var open, close := if square then LBracket else LParen, if square then RBracket else RParen;
    assert Balance(ts, a, a, open, close) == 0;
    assert Balance(ts, a, a + 1, open, close) == 1;
    PairsEnd(ts, a, a + 1, square);
    hide Balance;
  }

  lemma {:induction false} AlignmentEnds(ts: seq<Token>, a: nat, i: nat, exact: bool)
    requires a <= i <= |ts| && forall k :: a < k <= i ==> !ClosesAlignment(ts, a, k, exact)
    ensures Aligned(ts, a, SkipAlignment(ts, i, Balance(ts, a, i, LParen, RParen), exact), exact)
    decreases |ts| - i
  {
    if i == |ts| {
    } else {
      var d := Balance(ts, a, i + 1, LParen, RParen);
      if ts[i].kind == RParen && (d == 0 || (d < 0 && !exact)) {
        assert ClosesAlignment(ts, a, i + 1, exact);
      } else {
        AlignmentEnds(ts, a, i + 1, exact);
      }
    }
  }

  /** The skipped alignment is the operand that starts there. */
  lemma AlignmentIs(ts: seq<Token>, a: nat, b: nat, exact: bool)
    requires a <= |ts|
    ensures SkipAlignment(ts, a, 0, exact) == b <==> Aligned(ts, a, b, exact)
  {
    hide SkipAlignment;
    assert Balance(ts, a, a, LParen, RParen) == 0;
    AlignmentEnds(ts, a, a, exact);
    hide Balance;
  }

  // ---------------------------------------------------------------- the name of a class

  /** One turn of the search passes over exactly one piece, and stops only at a plain token. */
  lemma PieceIs(ts: seq<Token>, a: nat, b: nat, exact: bool)
    requires a < |ts|
    ensures PassOver(ts, a, exact) == (true, b) <==> Piece(ts, a, b, exact)
    ensures PassOver(ts, a, exact).0 <==> !Plain(ts[a])
  {
    hide SkipPairs, SkipAlignment, Aligned, Balance;
    match ts[a].kind {
      case AlignAs => AlignmentIs(ts, a + 1, b, exact);
      case AlignOf => AlignmentIs(ts, a + 1, b, exact);
      case LBracket => PairsAre(ts, a, b, true);
      case Identifier =>
        if a + 1 < |ts| && ts[a + 1].kind == LParen { PairsAre(ts, a + 1, b, false); }
      case _ =>
    }
  }

  /** The search for the name ends behind pieces only, at a plain token or at the end. */
  lemma {:induction false} NameAtLeads(ts: seq<Token>, i: nat, exact: bool)
    requires i <= |ts|
    ensures var n := NameAt(ts, i, exact); Leading(ts, i, n, exact) && (n == |ts| || Plain(ts[n]))
    decreases |ts| - i
  {
    hide PassOver, Piece, Plain;
    if i == |ts| {
    } else {
      var (passed, j) := PassOver(ts, i, exact);
      PieceIs(ts, i, j, exact);
      if passed {
        NameAtLeads(ts, j, exact);
        assert Leading(ts, i, NameAt(ts, i, exact), exact) by {
          assert i < j <= NameAt(ts, i, exact) && Piece(ts, i, j, exact) && Leading(ts, j, NameAt(ts, i, exact), exact);
        }
      }
    }
  }

  /** Behind pieces only, a plain token is where the search ends. */
  lemma {:induction false} LeadsToName(ts: seq<Token>, i: nat, n: nat, exact: bool)
    requires i <= n <= |ts| && Leading(ts, i, n, exact) && (n == |ts| || Plain(ts[n]))
    ensures NameAt(ts, i, exact) == n
    decreases n - i
  {
    hide PassOver, Piece, Plain;
    if i == n {
      if n < |ts| { PieceIs(ts, n, 0, exact); }
    } else {
      var b :| i < b <= n && Piece(ts, i, b, exact) && Leading(ts, b, n, exact);
      PieceIs(ts, i, b, exact);
      LeadsToName(ts, b, n, exact);
    }
  }

  /** The name a class keyword declares is the identifier the search finds. */
  lemma NameOfIs(ts: seq<Token>, i: nat, n: nat, second: bool)
    requires i < |ts| && (ts[i].kind == ClassDef || ts[i].kind == StructDef)
    ensures NameOf(ts, i, n, second) <==>
            && n == NameAt(ts, i + 1, second) && n < |ts| && ts[n].kind == Identifier
            && (second ==> !IsInternal(ts[n].payload))
  {
    hide Leading, NameAt;
    NameAtLeads(ts, i + 1, second);
    if NameOf(ts, i, n, second) {
      LeadsToName(ts, i + 1, n, second);
    }
  }

  // ---------------------------------------------------------------- the end of a head

  lemma {:induction false} FindBraceIs(ts: seq<Token>, i: nat)
    requires i <= |ts|
    ensures var f := First(ts, i, {LBrace, SemiColon});
            FindBrace(ts, i) == if f == |ts| then (false, f) else (ts[f].kind == LBrace, f + 1)
    decreases |ts| - i
  {
    if i == |ts| || ts[i].kind in {LBrace, SemiColon} {
    } else {
      FindBraceIs(ts, i + 1);
    }
  }

  lemma EndingLater(ts: seq<Token>, i: nat, second: bool)
    requires i < |ts| && ts[i].kind !in {LBrace, Colon, SemiColon}
    ensures Ending(ts, i, second) == Ending(ts, i + 1, second)
  {
    hide EndingAt, First;
    FirstLater(ts, i, {LBrace, Colon, SemiColon});
  }

  lemma FirstLater(ts: seq<Token>, i: nat, kinds: set<Kind>)
    requires i < |ts| && ts[i].kind !in kinds
    ensures First(ts, i, kinds) == First(ts, i + 1, kinds)
  {
  }

  lemma {:induction false} FindBodyIs(ts: seq<Token>, i: nat)
    requires i <= |ts|
    ensures FindBody(ts, i) == Ending(ts, i, false)
    decreases |ts| - i
  {
    hide FindBrace, First;
    if i == |ts| {
    } else if ts[i].kind in {LBrace, Colon, SemiColon} {
      FirstIs(ts, i, i, {LBrace, Colon, SemiColon});
      FindBraceIs(ts, i + 1);
    } else {
      hide Ending;
      EndingLater(ts, i, false);
      FindBodyIs(ts, i + 1);
    }
  }

  function NestingAt(ts: seq<Token>, a: nat, k: nat): Nesting
    requires k <= |ts|
  {
    Nesting(Angles(ts, a, k, false), Balance(ts, a, k, LParen, RParen), Balance(ts, a, k, LBracket, RBracket))
  }

  lemma NestingNext(ts: seq<Token>, a: nat, k: nat)
    requires a <= k < |ts|
    ensures NestToken(ts[k], NestingAt(ts, a, k)) == NestingAt(ts, a, k + 1)
    ensures IsAccess(ts[k]) || ts[k].kind == Comma ==> NestingAt(ts, a, k) == NestingAt(ts, a, k + 1)
  {
  }

  function DepthsAt(ts: seq<Token>, a: nat, k: nat): Depths
    requires k <= |ts|
  {
    Depths(1 + Angles(ts, a, k, true), Balance(ts, a, k, LParen, RParen), Balance(ts, a, k, LBracket, RBracket),
           Balance(ts, a, k, LBrace, RBrace))
  }

  lemma DepthsNext(ts: seq<Token>, a: nat, k: nat)
    requires a <= k < |ts|
    ensures CountToken(ts[k], DepthsAt(ts, a, k)) == DepthsAt(ts, a, k + 1)
  {
  }

  /** The parameters of a template end where the angles opened since then are closed. */
  lemma {:induction false} SkipAnglesIs(ts: seq<Token>, a: nat, i: nat)
    requires a <= i <= |ts|
    ensures SkipAngles(ts, i, DepthsAt(ts, a, i)) == AnglesEnd(ts, a, i)
    decreases |ts| - i
  {
    hide CountToken, Balance, Angles;
    if i == |ts| || 1 + Angles(ts, a, i, true) <= 0 {
    } else {
      DepthsNext(ts, a, i);
      SkipAnglesIs(ts, a, i + 1);
    }
  }

  /** One type ends at the first comma or closing token outside everything opened in it. */
  lemma {:induction false} TypeEndIs(ts: seq<Token>, a: nat, i: nat, paren: bool)
    requires a <= i <= |ts|
    ensures var f := FirstFlat(ts, a, i, {Comma, if paren then RParen else LBrace});
            TypeEnd(ts, i, NestingAt(ts, a, i), paren) ==
              if f == |ts| then (AtEnd, f) else (if ts[f].kind == Comma then AtComma else AtClose, f + 1)
    decreases |ts| - i
  {
    hide NestToken, Balance, Angles;
    if i == |ts| {
    } else {
      NestingNext(ts, a, i);
      TypeEndIs(ts, a, i + 1, paren);
    }
  }

  lemma {:induction false} FirstFlatComma(ts: seq<Token>, a: nat, i: nat)
    requires a <= i <= |ts|
    ensures var f := FirstFlat(ts, a, i, {Comma, LBrace});
            FirstFlat(ts, a, i, {LBrace}) ==
              if f < |ts| && ts[f].kind == Comma then FirstFlat(ts, a, f + 1, {LBrace}) else f
    decreases |ts| - i
  {
    hide Flat;
    if i == |ts| || (ts[i].kind in {Comma, LBrace} && Flat(ts, a, i)) {
    } else {
      FirstFlatComma(ts, a, i + 1);
    }
  }

  /** The base list of the second pass ends at the first brace outside all brackets and angles. */
  lemma {:induction false} BasesEndIs(ts: seq<Token>, a: nat, i: nat)
    requires a <= i <= |ts| && NestingAt(ts, a, i) == FLAT
    ensures var f := FirstFlat(ts, a, i, {LBrace});
            BasesEnd(ts, i) == if f == |ts| then (false, f) else (true, f + 1)
    decreases |ts| - i
  {
    hide TypeEnd, NestToken, Balance, Angles, FirstFlat;
    TypeEndIs(ts, a, i, false);
    FirstFlatComma(ts, a, i);
    var f := FirstFlat(ts, a, i, {Comma, LBrace});
    if f < |ts| && ts[f].kind == Comma {
      NestingNext(ts, a, f);
      BasesEndIs(ts, a, f + 1);
    }
  }

  lemma NestingStart(ts: seq<Token>, a: nat)
    requires a <= |ts|
    ensures NestingAt(ts, a, a) == FLAT
  {
  }

  lemma {:induction false} BodyEndIs(ts: seq<Token>, i: nat)
    requires i <= |ts|
    ensures BodyEnd(ts, i) == Ending(ts, i, true)
    decreases |ts| - i
  {
    hide BasesEnd, NestingAt, FirstFlat, First;
    if i == |ts| {
    } else if ts[i].kind in {LBrace, Colon, SemiColon} {
      FirstIs(ts, i, i, {LBrace, Colon, SemiColon});
      NestingStart(ts, i + 1);
      BasesEndIs(ts, i + 1, i + 1);
    } else {
      hide Ending;
      EndingLater(ts, i, true);
      BodyEndIs(ts, i + 1);
    }
  }

  // ---------------------------------------------------------------- the head of a namespace

  /** From `i` to `e` stand the parts of a namespace name, bracketed attributes and other tokens, but no brace
      and no semicolon outside the brackets. */
  ghost predicate HeadOf(ts: seq<Token>, i: nat, parts: seq<string>, e: nat)
    requires e <= |ts|
    decreases e - i
  {
    if i >= e then i == e && parts == []
    else match ts[i].kind
      case LBracket => exists b :: i < b <= e && Bracketed(ts, i, b, LBracket, RBracket) && HeadOf(ts, b, parts, e)
      case Identifier => parts != [] && parts[0] == ts[i].payload && HeadOf(ts, i + 1, parts[1..], e)
      case LBrace => false
      case SemiColon => false
      case _ => HeadOf(ts, i + 1, parts, e)
  }

  /** The keyword at `i` opens the namespaces with these parts, with the brace at `e`. */
  ghost predicate OpensNamespace(ts: seq<Token>, i: nat, parts: seq<string>, e: nat) {
    i < e < |ts| && ts[i].kind == NamespaceDef && HeadOf(ts, i + 1, parts, e) && ts[e].kind == LBrace
  }

  /** The head that is read is the head that stands there. */
  lemma {:induction false} HeadRead(ts: seq<Token>, i: nat, before: seq<string>, parts: seq<string>, e: nat)
    requires i <= e <= |ts| && HeadOf(ts, i, parts, e) && (e == |ts| || ts[e].kind in {LBrace, SemiColon})
    ensures ReadNamespace(ts, i, before) ==
              if e == |ts| then NamespaceHead(before + parts, false, e)
              else NamespaceHead(before + parts, ts[e].kind == LBrace, e + 1)
    decreases e - i
  {
    hide Bracketed, SkipPairs;
    if i == e {
      assert before + parts == before;
    } else {
      if ts[i].kind == LBracket {
        var b :| i < b <= e && Bracketed(ts, i, b, LBracket, RBracket) && HeadOf(ts, b, parts, e);
        PairsAre(ts, i, b, true);
        HeadRead(ts, b, before, parts, e);
      } else if ts[i].kind == Identifier {
        HeadRead(ts, i + 1, before + [ts[i].payload], parts[1..], e);
        assert before + [ts[i].payload] + parts[1..] == before + parts;
      } else {
        HeadRead(ts, i + 1, before, parts, e);
      }
    }
  }

  /** Behind every `namespace` stands a head. */
  lemma {:induction false} HeadStands(ts: seq<Token>, i: nat) returns (parts: seq<string>, e: nat)
    requires i <= |ts|
    ensures i <= e <= |ts| && HeadOf(ts, i, parts, e) && (e == |ts| || ts[e].kind in {LBrace, SemiColon})
    decreases |ts| - i
  {
    hide Bracketed, SkipPairs;
    if i == |ts| || ts[i].kind in {LBrace, SemiColon} {
      return [], i;
    } else if ts[i].kind == LBracket {
      var b := SkipPairs(ts, i + 1, 1, true);
      PairsAre(ts, i, b, true);
      parts, e := HeadStands(ts, b);
      assert i < b <= e && Bracketed(ts, i, b, LBracket, RBracket) && HeadOf(ts, b, parts, e);
    } else {
      parts, e := HeadStands(ts, i + 1);
      if ts[i].kind == Identifier {
        assert ([ts[i].payload] + parts)[1..] == parts;
        parts := [ts[i].payload] + parts;
      }
    }
  }

  /** A namespace keyword opens what the head behind it says. */
  lemma NamespaceIs(ts: seq<Token>, i: nat, parts: seq<string>, e: nat)
    requires i < |ts| && ts[i].kind == NamespaceDef
    ensures OpensNamespace(ts, i, parts, e) <==> ReadNamespace(ts, i + 1, []) == NamespaceHead(parts, true, e + 1)
  {
    hide HeadOf, ReadNamespace;
    var parts', e' := HeadStands(ts, i + 1);
    HeadRead(ts, i + 1, [], parts', e');
    assert [] + parts' == parts';
    if OpensNamespace(ts, i, parts, e) {
      HeadRead(ts, i + 1, [], parts, e);
      assert [] + parts == parts;
    }
  }

  /** If it opens nothing, the head behind it ends otherwise. */
  lemma NotEntered(ts: seq<Token>, i: nat)
    requires i < |ts| && ts[i].kind == NamespaceDef
    requires forall parts, e: nat :: !OpensNamespace(ts, i, parts, e)
    ensures !ReadNamespace(ts, i + 1, []).entered
  {
    hide HeadOf, ReadNamespace;
    var parts, e := HeadStands(ts, i + 1);
    HeadRead(ts, i + 1, [], parts, e);
    assert !OpensNamespace(ts, i, parts, e);
  }

  /** `namespace a :: b :: c {` opens the namespaces a, b and c. */
  lemma ChainOpens(ts: seq<Token>, i: nat, parts: seq<string>)
    requires parts != [] && i + 2 * |parts| < |ts| && ts[i].kind == NamespaceDef && ts[i + 2 * |parts|].kind == LBrace
    requires forall m :: 0 <= m < |parts| ==> ts[i + 1 + 2 * m] == Token(Identifier, parts[m])
    requires forall m :: 0 <= m < |parts| - 1 ==> ts[i + 2 + 2 * m].kind == ScopeResolution
    ensures OpensNamespace(ts, i, parts, i + 2 * |parts|)
  {
    ChainHead(ts, i + 1, parts);
  }

  lemma {:induction false} ChainHead(ts: seq<Token>, i: nat, parts: seq<string>)
    requires parts != [] && i + 2 * |parts| <= |ts|
    requires forall m :: 0 <= m < |parts| ==> ts[i + 2 * m] == Token(Identifier, parts[m])
    requires forall m :: 0 <= m < |parts| - 1 ==> ts[i + 1 + 2 * m].kind == ScopeResolution
    ensures HeadOf(ts, i, parts, i + 2 * |parts| - 1)
    decreases |parts|
  {
    var e := i + 2 * |parts| - 1;
    assert ts[i + 2 * 0] == Token(Identifier, parts[0]);
    var rest := parts[1..];
    if |parts| == 1 {
      assert HeadOf(ts, i + 1, rest, e);
    } else {
      assert ts[i + 1 + 2 * 0].kind == ScopeResolution;
      forall m | 0 <= m < |rest| ensures ts[i + 2 + 2 * m] == Token(Identifier, rest[m]) {
        assert ts[i + 2 * (m + 1)] == Token(Identifier, parts[m + 1]);
      }
      forall m | 0 <= m < |rest| - 1 ensures ts[i + 2 + 1 + 2 * m].kind == ScopeResolution {
        assert ts[i + 1 + 2 * (m + 1)].kind == ScopeResolution;
      }
      ChainHead(ts, i + 2, rest);
      assert HeadOf(ts, i + 1, rest, e);
    }
  }

  /** `namespace {` opens an anonymous namespace. */
  lemma AnonymousOpens(ts: seq<Token>, i: nat)
    requires i + 1 < |ts| && ts[i].kind == NamespaceDef && ts[i + 1].kind == LBrace
    ensures OpensNamespace(ts, i, [], i + 1)
  {
  }

  // ---------------------------------------------------------------- plain heads

  /** Neither brackets nor angles stand between `a` and `k`. */
  predicate Bare(ts: seq<Token>, a: nat, k: nat)
    requires k <= |ts|
  {
    forall m :: a <= m < k ==> ts[m].kind !in {LParen, RParen, LBracket, RBracket, LBrace, RBrace, LAngle, RAngle}
  }

  lemma BareShorter(ts: seq<Token>, a: nat, k: nat)
    requires a < k <= |ts| && Bare(ts, a, k)
    ensures Bare(ts, a, k - 1) && Weight(ts[k - 1], LParen, RParen) == 0 && Weight(ts[k - 1], LBracket, RBracket) == 0
    ensures Weight(ts[k - 1], LBrace, RBrace) == 0 && Weight(ts[k - 1], LAngle, RAngle) == 0
  {
  }

  /** Without brackets and angles nothing is open. */
  lemma {:induction false} PlainIsFlat(ts: seq<Token>, a: nat, k: nat)
    requires a <= k <= |ts| && Bare(ts, a, k)
    ensures Flat(ts, a, k) && Outside(ts, a, k, true) && Angles(ts, a, k, true) == 0
    decreases k
  {
    hide Bare;
    if k == a {
    } else {
      BareShorter(ts, a, k);
      PlainIsFlat(ts, a, k - 1);
    }
  }

  /** `name ;` declares and `name {` opens a body. */
  lemma HeadEnds(ts: seq<Token>, a: nat, second: bool)
    requires a < |ts| && ts[a].kind in {LBrace, SemiColon}
    ensures Ending(ts, a, second) == (ts[a].kind == LBrace, a + 1)
  {
  }

  /** `name : bases {` opens a body, for bases without brackets and angles. */
  lemma BasesThenBody(ts: seq<Token>, a: nat, f: nat, second: bool)
    requires a < f < |ts| && ts[a].kind == Colon && ts[f].kind == LBrace && Bare(ts, a + 1, f)
    requires forall m :: a < m < f ==> ts[m].kind != SemiColon
    ensures Ending(ts, a, second) == (true, f + 1)
  {
    hide Flat, Bare, First, FirstFlat;
    PlainIsFlat(ts, a + 1, f);
    NoBrace(ts, a + 1, f);
    FirstIs(ts, a, a, {LBrace, Colon, SemiColon});
    if second {
      FirstFlatIs(ts, a + 1, f);
    } else {
      FirstIs(ts, a + 1, f, {LBrace, SemiColon});
    }
  }

  lemma FirstFlatIs(ts: seq<Token>, a: nat, f: nat)
    requires a <= f < |ts| && ts[f].kind == LBrace && Flat(ts, a, f) && forall k :: a <= k < f ==> ts[k].kind != LBrace
    ensures FirstFlat(ts, a, a, {LBrace}) == f
  {
    hide Flat;
  }

  lemma NoBrace(ts: seq<Token>, a: nat, f: nat)
    requires f <= |ts| && Bare(ts, a, f)
    ensures forall k :: a <= k < f ==> ts[k].kind != LBrace
  {
  }

  /** `template < parameters >` ends behind its angle. */
  lemma ParametersEnd(ts: seq<Token>, a: nat, f: nat)
    requires a <= f < |ts| && ts[f].kind == RAngle && Bare(ts, a, f)
    ensures AnglesEnd(ts, a, a) == f + 1
  {
    forall k | a <= k <= f ensures Angles(ts, a, k, true) == 0 {
      PlainIsFlat(ts, a, k);
    }
    PlainIsFlat(ts, a, f);
    assert Angles(ts, a, f + 1, true) == -1;
  }
}
