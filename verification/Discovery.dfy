/** Pass 1 of the metadata compiler, structural discovery (src/compiler/meta_compiler.cpp:279-421).

    `Discover` says what the pass does with the tokens of a text, one round of its main loop per
    `Step`. The class `SymbolParser` runs the pass over a scanner with nested loops and is proved
    to compute it. `RoundsKeep` is the invariant of every round on every text. */
module Discovery {
  import opened Lexer
  import opened Names
  import opened Scopes
  import opened Registry

  // ---------------------------------------------------------------- skipping over tokens

  /** Open angles, parentheses, square brackets and braces. */
  datatype Depths = Depths(d: int, p: int, b: int, br: int)

  /** One token inside `template <...>`; angles inside other brackets do not count. */
  function CountToken(t: Token, c: Depths): Depths {
    var flat := c.p == 0 && c.b == 0 && c.br == 0;
    match t.kind
    case LParen => c.(p := c.p + 1)
    case RParen => c.(p := c.p - 1)
    case LBracket => c.(b := c.b + 1)
    case RBracket => c.(b := c.b - 1)
    case LBrace => c.(br := c.br + 1)
    case RBrace => c.(br := c.br - 1)
    case LAngle => if flat then c.(d := c.d + 1) else c
    case RAngle => if flat then c.(d := c.d - 1) else c
    case _ => c
  }

  /** Past the angle that closes the open ones. */
  function SkipAngles(ts: seq<Token>, i: nat, c: Depths): (j: nat)
    requires i <= |ts|
    ensures i <= j <= |ts|
    decreases |ts| - i
  {
    if c.d <= 0 || i == |ts| then i else SkipAngles(ts, i + 1, CountToken(ts[i], c))
  }

  /** Whether a token opens or closes a pair of square brackets, or else of parentheses. */
  predicate OpensPair(t: Token, square: bool) { if square then t.kind.LBracket? else t.kind.LParen? }

  predicate ClosesPair(t: Token, square: bool) { if square then t.kind.RBracket? else t.kind.RParen? }

  /** Past the token that closes the `n` pairs that are open. */
  function SkipPairs(ts: seq<Token>, i: nat, n: int, square: bool): (j: nat)
    requires i <= |ts|
    ensures i <= j <= |ts|
    decreases |ts| - i
  {
    if n <= 0 || i == |ts| then i
    else if OpensPair(ts[i], square) then SkipPairs(ts, i + 1, n + 1, square)
    else if ClosesPair(ts[i], square) then SkipPairs(ts, i + 1, n - 1, square)
    else SkipPairs(ts, i + 1, n, square)
  }

  /** After `alignas`: past its closing parenthesis. The first pass stops at a depth of zero or
      less, the second (`exact`) only at zero. */
  function SkipAlignment(ts: seq<Token>, i: nat, d: int, exact: bool): (j: nat)
    requires i <= |ts|
    ensures i <= j <= |ts|
    decreases |ts| - i
  {
    if i == |ts| then i
    else if ts[i].kind == LParen then SkipAlignment(ts, i + 1, d + 1, exact)
    else if ts[i].kind != RParen then SkipAlignment(ts, i + 1, d, exact)
    else if d - 1 == 0 || (d - 1 < 0 && !exact) then i + 1
    else SkipAlignment(ts, i + 1, d - 1, exact)
  }

  /** One turn of the search for the name of a class: the token at `i` is passed over, if it is
      alignment, an attribute or a leading scope, and the position behind it is given. */
  function PassOver(ts: seq<Token>, i: nat, exact: bool): (r: (bool, nat))
    requires i < |ts|
    ensures i < r.1 <= |ts|
  {
    match ts[i].kind
    case AlignAs => (true, SkipAlignment(ts, i + 1, 0, exact))
    case AlignOf => (true, SkipAlignment(ts, i + 1, 0, exact))
    case LBracket => (true, SkipPairs(ts, i + 1, 1, true))
    case ScopeResolution => (true, i + 1)
    case Identifier =>
      if !IsAttribute(ts[i].payload) then (false, i + 1)
      else if i + 1 < |ts| && ts[i + 1].kind == LParen then (true, SkipPairs(ts, i + 2, 1, false))
      else (true, i + 1)
    case _ => (false, i + 1)
  }

  /** The position of the token that should name a class, or the end of the text. */
  function NameAt(ts: seq<Token>, i: nat, exact: bool): (j: nat)
    requires i <= |ts|
    ensures i <= j <= |ts|
    decreases |ts| - i
  {
    if i == |ts| then i
    else
      var (passed, j) := PassOver(ts, i, exact);
      if passed then NameAt(ts, j, exact) else i
  }

  /** After the colon of a base list: whether a body follows, and the position behind its brace. */
  function FindBrace(ts: seq<Token>, i: nat): (r: (bool, nat))
    requires i <= |ts|
    ensures i <= r.1 <= |ts|
    decreases |ts| - i
  {
    if i == |ts| then (false, i)
    else if ts[i].kind == LBrace then (true, i + 1)
    else if ts[i].kind == SemiColon then (false, i + 1)
    else FindBrace(ts, i + 1)
  }

  /** After the name of a class: whether a body follows, and the position behind its brace. */
  function FindBody(ts: seq<Token>, i: nat): (r: (bool, nat))
    requires i <= |ts|
    ensures i <= r.1 <= |ts|
    decreases |ts| - i
  {
    if i == |ts| then (false, i)
    else if ts[i].kind == LBrace then (true, i + 1)
    else if ts[i].kind == Colon then FindBrace(ts, i + 1)
    else if ts[i].kind == SemiColon then (false, i + 1)
    else FindBody(ts, i + 1)
  }

  datatype NamespaceHead = NamespaceHead(parts: seq<string>, entered: bool, next: nat)

  /** After `namespace`: the identifiers up to its brace or semicolon, attributes left out. */
  function ReadNamespace(ts: seq<Token>, i: nat, parts: seq<string>): (r: NamespaceHead)
    requires i <= |ts|
    ensures i <= r.next <= |ts|
    decreases |ts| - i
  {
    if i == |ts| then NamespaceHead(parts, false, i)
    else match ts[i].kind
      case LBrace => NamespaceHead(parts, true, i + 1)
      case SemiColon => NamespaceHead(parts, false, i + 1)
      case LBracket => ReadNamespace(ts, SkipPairs(ts, i + 1, 1, true), parts)
      case Identifier => ReadNamespace(ts, i + 1, parts + [ts[i].payload])
      case _ => ReadNamespace(ts, i + 1, parts)
  }

  // ---------------------------------------------------------------- one round

  /** What the main loop carries from round to round. */
  datatype State = State(reg: Registry, trk: Tracker, last: Kind)

  /** After `template`: past the token behind it and, if that is an angle, past the parameters. */
  function SkipTemplate(ts: seq<Token>, i: nat): (j: nat)
    requires i <= |ts|
    ensures i <= j <= |ts|
  {
    if i == |ts| then i
    else if ts[i].kind == LAngle then SkipAngles(ts, i + 1, Depths(1, 0, 0, 0))
    else i + 1
  }

  function EnterNamespace(st: State, head: NamespaceHead): State {
    if head.entered then
      st.(reg := AddNamespaces(st.reg, OpenPath(st.trk), head.parts, 0), trk := PushNamespace(st.trk, head.parts))
    else st
  }

  /** First registration wins; nested and template types are also listed apart. */
  function RegisterType(reg: Registry, name: string, isStruct: bool, isNested: bool, isTemplate: bool): Registry {
    reg.(types := if name in reg.types then reg.types else reg.types[name := Node(isStruct, isNested)],
         nested := if isNested then reg.nested + {name} else reg.nested,
         templates := if isTemplate then reg.templates + {name} else reg.templates)
  }

  function EnterType(st: State, name: string, isStruct: bool, hasBody: bool): State {
    st.(reg := RegisterType(st.reg, OpenPath(st.trk) + name, isStruct, InsideType(st.trk), st.last == Template),
        trk := if hasBody then PushType(st.trk, name) else st.trk)
  }

  /** After `class` or `struct`. */
  function ClassStep(ts: seq<Token>, i: nat, st: State, isStruct: bool): (r: (nat, State))
    requires i <= |ts|
    ensures i <= r.0 <= |ts|
  {
    var n := NameAt(ts, i, false);
    if n == |ts| then (n, st)
    else if ts[n].kind != Identifier then (n + 1, st)
    else
      var (hasBody, j) := FindBody(ts, n + 1);
      (j, EnterType(st, ts[n].payload, isStruct, hasBody))
  }

  /** One round of the main loop: the position behind what it read, and the new state. */
  function Step(ts: seq<Token>, i: nat, st: State): (r: (nat, State))
    requires i < |ts|
    ensures i < r.0 <= |ts| && r.1.last == ts[i].kind
  {
    var kind := ts[i].kind;
    var (j, st') :=
      match kind
      case Template => (SkipTemplate(ts, i + 1), st)
      case NamespaceDef =>
        var head := ReadNamespace(ts, i + 1, []);
        (head.next, EnterNamespace(st, head))
      case ClassDef => ClassStep(ts, i + 1, st, false)
      case StructDef => ClassStep(ts, i + 1, st, true)
      case LBrace => (i + 1, st.(trk := Open(st.trk)))
      case RBrace => (i + 1, st.(trk := Close(st.trk)))
      case _ => (i + 1, st);
    (j, st'.(last := kind))
  }

  /** The whole pass, from position `i` on. */
  function Discover(ts: seq<Token>, i: nat, st: State): State
    requires i <= |ts|
    decreases |ts| - i
  {
    if i == |ts| then st
    else
      var (j, st') := Step(ts, i, st);
      Discover(ts, j, st')
  }

  /** Position and state after `n` rounds, or at the end of the text if that is sooner. */
  function Rounds(ts: seq<Token>, i: nat, st: State, n: nat): (r: (nat, State))
    requires i <= |ts|
    ensures i <= r.0 <= |ts|
    decreases n
  {
    if n == 0 || i == |ts| then (i, st)
    else
      var (j, st') := Step(ts, i, st);
      Rounds(ts, j, st', n - 1)
  }

  // ---------------------------------------------------------------- the invariant of every round

  lemma {:induction false} NamespacePartsNamed(ts: seq<Token>, i: nat, parts: seq<string>)
    requires i <= |ts| && NamedTokens(ts) && AllNames(parts)
    ensures AllNames(ReadNamespace(ts, i, parts).parts)
    decreases |ts| - i
  {
    hide IsName, SkipPairs;
    if i == |ts| {
    } else {
      match ts[i].kind
      case LBracket => NamespacePartsNamed(ts, SkipPairs(ts, i + 1, 1, true), parts);
      case Identifier => NamespacePartsNamed(ts, i + 1, parts + [ts[i].payload]);
      case LBrace =>
      case SemiColon =>
      case _ => NamespacePartsNamed(ts, i + 1, parts);
    }
  }

  /** The search for the name of a class never stops at an attribute word. */
  lemma {:induction false} NameNotAttribute(ts: seq<Token>, i: nat, exact: bool)
    requires i <= |ts|
    ensures var n := NameAt(ts, i, exact); n < |ts| && ts[n].kind == Identifier ==> !IsAttribute(ts[n].payload)
    decreases |ts| - i
  {
    hide SkipAlignment, SkipPairs;
    if i == |ts| || !PassOver(ts, i, exact).0 {
    } else {
      NameNotAttribute(ts, PassOver(ts, i, exact).1, exact);
    }
  }

  lemma EnterTypeKeeps(st: State, name: string, isStruct: bool, hasBody: bool)
    requires SoundIn(st.reg, st.trk) && IsName(name) && !IsAttribute(name)
    ensures var st' := EnterType(st, name, isStruct, hasBody); SoundIn(st'.reg, st'.trk)
  {
    hide SoundIn, IsName, IsAttribute, InsideType, OpenPath, PrefixesKnown, OpenNames, PushType;
    var st' := EnterType(st, name, isStruct, hasBody);
    assert st'.reg.Known() == st.reg.Known() + {OpenPath(st.trk) + name};
    assert st'.reg.TypeNames() == st.reg.TypeNames() + {OpenPath(st.trk) + name};
    assert NoRepeats(st'.reg.primary) by { SoundPrimary(st.reg, st.trk); }
    TypeNameKeeps(st.reg, st'.reg, st.trk, name);
    TypeBodyKeeps(st'.reg, st.trk, name);
  }

  lemma SoundPrimary(r: Registry, t: Tracker)
    requires SoundIn(r, t)
    ensures NoRepeats(r.primary)
  {
    hide Tracked, PrefixesKnown, PrefixClosed, OrderMatches, PlainTypes;
  }

  lemma ClassStepKeeps(ts: seq<Token>, i: nat, st: State, isStruct: bool)
    requires i <= |ts| && NamedTokens(ts) && SoundIn(st.reg, st.trk)
    ensures var st' := ClassStep(ts, i, st, isStruct).1; SoundIn(st'.reg, st'.trk)
  {
    hide SoundIn, IsName, IsAttribute, NameAt, FindBody, EnterType;
    var n := NameAt(ts, i, false);
    NameNotAttribute(ts, i, false);
    if n < |ts| && ts[n].kind == Identifier {
      EnterTypeKeeps(st, ts[n].payload, isStruct, FindBody(ts, n + 1).0);
    }
  }

  /** A round keeps the scopes tracked and the registry prefix-closed. */
  lemma StepKeeps(ts: seq<Token>, i: nat, st: State)
    requires i < |ts| && NamedTokens(ts) && SoundIn(st.reg, st.trk)
    ensures var st' := Step(ts, i, st).1; SoundIn(st'.reg, st'.trk)
  {
    hide SoundIn, NamedTokens, ClassStep, SkipTemplate, ReadNamespace, Open, Close, AddNamespaces, PushNamespace;
    match ts[i].kind {
      case NamespaceDef =>
        NamespacePartsNamed(ts, i + 1, []);
        NamespaceKeeps(st.reg, st.trk, ReadNamespace(ts, i + 1, []).parts);
      case ClassDef => ClassStepKeeps(ts, i + 1, st, false);
      case StructDef => ClassStepKeeps(ts, i + 1, st, true);
      case LBrace => BraceKeeps(st.reg, st.trk);
      case RBrace => BraceKeeps(st.reg, st.trk);
      case _ =>
    }
  }

  /** After any number of rounds on any tokens the scopes are tracked and every registered name
      has only registered prefixes. */
  lemma {:induction false} RoundsKeep(ts: seq<Token>, i: nat, st: State, n: nat)
    requires i <= |ts| && NamedTokens(ts) && SoundIn(st.reg, st.trk)
    ensures var st' := Rounds(ts, i, st, n).1; SoundIn(st'.reg, st'.trk)
    decreases n
  {
    hide SoundIn, Step, NamedTokens;
    if n == 0 || i >= |ts| {
    } else {
      StepKeeps(ts, i, st);
      var (j, st') := Step(ts, i, st);
      RoundsKeep(ts, j, st', n - 1);
    }
  }

  /** As many rounds as there are tokens read the whole text: the pass ends on every input. */
  lemma {:induction false} RoundsFinish(ts: seq<Token>, i: nat, st: State, n: nat)
    requires i <= |ts| && n >= |ts| - i
    ensures Rounds(ts, i, st, n) == (|ts|, Discover(ts, i, st))
    decreases n
  {
    hide Step;
    if i == |ts| {
    } else {
      var (j, st') := Step(ts, i, st);
      RoundsFinish(ts, j, st', n - 1);
    }
  }

  lemma EmptySound(reg: Registry)
    requires Sound(reg)
    ensures SoundIn(reg, EMPTY)
  {
    hide Sound;
  }

  lemma SoundAlone(reg: Registry, trk: Tracker)
    requires SoundIn(reg, trk)
    ensures Sound(reg)
  {
    hide Sound;
  }

  /** Pass 1 over any text, started on a sound registry, leaves a sound registry. */
  lemma DiscoverKeeps(text: string, reg: Registry)
    requires Sound(reg)
    ensures Sound(Discover(Lex(text), 0, State(reg, EMPTY, Unknown)).reg)
  {
    hide Sound, SoundIn, LexFrom, NamedTokens, Rounds, Discover;
    LexNamesTokens(text, 0);
    EmptySound(reg);
    var st := State(reg, EMPTY, Unknown);
    var n := |Lex(text)|;
    RoundsKeep(Lex(text), 0, st, n);
    RoundsFinish(Lex(text), 0, st, n);
    SoundAlone(Discover(Lex(text), 0, st).reg, Discover(Lex(text), 0, st).trk);
  }

  // ---------------------------------------------------------------- the pass over a scanner

  method CountTokenIn(t: Token, d0: int, p0: int, b0: int, br0: int) returns (d: int, p: int, b: int, br: int)
    ensures Depths(d, p, b, br) == CountToken(t, Depths(d0, p0, b0, br0))
  {
    d, p, b, br := d0, p0, b0, br0;
    if t.kind == LParen { p := p + 1; }
    else if t.kind == RParen { p := p - 1; }
    else if t.kind == LBracket { b := b + 1; }
    else if t.kind == RBracket { b := b - 1; }
    else if t.kind == LBrace { br := br + 1; }
    else if t.kind == RBrace { br := br - 1; }
    else if t.kind == LAngle { if p == 0 && b == 0 && br == 0 { d := d + 1; } }
    else if t.kind == RAngle { if p == 0 && b == 0 && br == 0 { d := d - 1; } }
  }

  method ReadAngles(sc: Scanner)
    requires sc.Valid()
    modifies sc
    ensures sc.Valid() && sc.taken == SkipAngles(sc.All(), old(sc.taken), Depths(1, 0, 0, 0))
  {
    hide LexFrom, Lex, Scanner.Valid, CountToken;
    var d, p, b, br := 1, 0, 0, 0;
    while d > 0
      invariant sc.Valid()
      invariant SkipAngles(sc.All(), sc.taken, Depths(d, p, b, br)) ==
                SkipAngles(sc.All(), old(sc.taken), Depths(1, 0, 0, 0))
      decreases |sc.All()| - sc.taken
    {
      var t := sc.ExtractNext();
      if t.kind == EndOfStream { break; }
      d, p, b, br := CountTokenIn(t, d, p, b, br);
    }
  }

  method ReadPairs(sc: Scanner, square: bool)
    requires sc.Valid()
    modifies sc
    ensures sc.Valid() && sc.taken == SkipPairs(sc.All(), old(sc.taken), 1, square)
  {
    hide LexFrom, Lex, Scanner.Valid;
    var n := 1;
    while n > 0
      invariant sc.Valid()
      invariant SkipPairs(sc.All(), sc.taken, n, square) == SkipPairs(sc.All(), old(sc.taken), 1, square)
      decreases |sc.All()| - sc.taken
    {
      var t := sc.ExtractNext();
      if OpensPair(t, square) { n := n + 1; }
      else if ClosesPair(t, square) { n := n - 1; }
      else if t.kind == EndOfStream { break; }
    }
  }

  method ReadAlignment(sc: Scanner, exact: bool)
    requires sc.Valid()
    modifies sc
    ensures sc.Valid() && sc.taken == SkipAlignment(sc.All(), old(sc.taken), 0, exact)
  {
    hide LexFrom, Lex, Scanner.Valid;
    var d := 0;
    while true
      invariant sc.Valid()
      invariant SkipAlignment(sc.All(), sc.taken, d, exact) == SkipAlignment(sc.All(), old(sc.taken), 0, exact)
      decreases |sc.All()| - sc.taken
    {
      var t := sc.ExtractNext();
      if t.kind == LParen {
        d := d + 1;
      } else if t.kind == RParen {
        d := d - 1;
        if d == 0 || (d < 0 && !exact) { break; }
      } else if t.kind == EndOfStream {
        break;
      }
    }
  }

  /** What one turn of the name search does with the token just read. */
  method PassToken(sc: Scanner, t: Token, exact: bool) returns (passed: bool)
    requires sc.Valid() && 0 < sc.taken && t == sc.All()[sc.taken - 1]
    modifies sc
    ensures sc.Valid() && (passed, sc.taken) == PassOver(sc.All(), old(sc.taken) - 1, exact)
  {
    hide LexFrom, Lex, Scanner.Valid, SkipPairs, SkipAlignment, IsAttribute;
    passed := true;
    if t.kind == AlignAs || t.kind == AlignOf {
      ReadAlignment(sc, exact);
    } else if t.kind == LBracket {
      ReadPairs(sc, true);
    } else if t.kind == ScopeResolution {
    } else if t.kind == Identifier && IsAttribute(t.payload) {
      var next := sc.PeekNext();
      if next.kind == LParen {
        var _ := sc.ExtractNext();
        ReadPairs(sc, false);
      }
    } else {
      passed := false;
    }
  }

  /** The token that should name a class, read; `END` if the text ends before it. */
  method ReadName(sc: Scanner, exact: bool) returns (name: Token)
    requires sc.Valid()
    modifies sc
    ensures sc.Valid()
    ensures var n := NameAt(sc.All(), old(sc.taken), exact);
            if n == |sc.All()| then name == END && sc.taken == n
            else name == sc.All()[n] && sc.taken == n + 1
  {
    hide LexFrom, Lex, Scanner.Valid, PassOver;
    while true
      invariant sc.Valid()
      invariant NameAt(sc.All(), sc.taken, exact) == NameAt(sc.All(), old(sc.taken), exact)
      decreases |sc.All()| - sc.taken
    {
      name := sc.ExtractNext();
      if name.kind == EndOfStream { break; }
      ghost var n := sc.taken - 1;
      var passed := PassToken(sc, name, exact);
      if !passed {
        PassedOne(sc.All(), n, exact);
        break;
      }
    }
  }

  lemma PassedOne(ts: seq<Token>, i: nat, exact: bool)
    requires i < |ts| && !PassOver(ts, i, exact).0
    ensures PassOver(ts, i, exact).1 == i + 1
  {
    hide SkipPairs, SkipAlignment;
  }

  method ReadBody(sc: Scanner) returns (hasBody: bool)
    requires sc.Valid()
    modifies sc
    ensures sc.Valid() && (hasBody, sc.taken) == FindBody(sc.All(), old(sc.taken))
  {
    hide LexFrom, Lex, Scanner.Valid;
    while true
      invariant sc.Valid() && FindBody(sc.All(), sc.taken) == FindBody(sc.All(), old(sc.taken))
      decreases |sc.All()| - sc.taken
    {
      var t := sc.ExtractNext();
      if t.kind == LBrace {
        return true;
      } else if t.kind == Colon {
        hasBody := ReadBases(sc);
        return;
      } else if t.kind == SemiColon || t.kind == EndOfStream {
        return false;
      }
    }
  }

  method ReadBases(sc: Scanner) returns (hasBody: bool)
    requires sc.Valid()
    modifies sc
    ensures sc.Valid() && (hasBody, sc.taken) == FindBrace(sc.All(), old(sc.taken))
  {
    hide LexFrom, Lex, Scanner.Valid;
    while true
      invariant sc.Valid() && FindBrace(sc.All(), sc.taken) == FindBrace(sc.All(), old(sc.taken))
      decreases |sc.All()| - sc.taken
    {
      var t := sc.ExtractNext();
      if t.kind == LBrace { return true; }
      if t.kind == SemiColon || t.kind == EndOfStream { return false; }
    }
  }

  method ReadNamespaceHead(sc: Scanner) returns (parts: seq<string>, entered: bool)
    requires sc.Valid()
    modifies sc
    ensures sc.Valid() && NamespaceHead(parts, entered, sc.taken) == ReadNamespace(sc.All(), old(sc.taken), [])
  {
    hide LexFrom, Lex, Scanner.Valid;
    parts := [];
    while true
      invariant sc.Valid()
      invariant ReadNamespace(sc.All(), sc.taken, parts) == ReadNamespace(sc.All(), old(sc.taken), [])
      decreases |sc.All()| - sc.taken
    {
      var t := sc.ExtractNext();
      if t.kind == LBrace { return parts, true; }
      if t.kind == EndOfStream || t.kind == SemiColon { return parts, false; }
      if t.kind == LBracket {
        ReadPairs(sc, true);
      } else if t.kind == Identifier {
        parts := parts + [t.payload];
      }
    }
  }

  /** The registries and the first pass of the parser. */
  class SymbolParser {
    var registry: Registry

    constructor ()
      ensures registry == NOTHING
    {
      registry := NOTHING;
    }

    method EnterNamespaceScope(trk: Tracker, parts: seq<string>) returns (trk': Tracker)
      modifies this
      ensures registry == AddNamespaces(old(registry), OpenPath(trk), parts, 0)
      ensures trk' == PushNamespace(trk, parts)
    {
      var path := OpenPath(trk);
      for i := 0 to |parts|
        invariant AddNamespaces(registry, path, parts, i) == AddNamespaces(old(registry), OpenPath(trk), parts, 0)
      {
        path := path + parts[i];
        if path !in registry.namespaces {
          registry := registry.(namespaces := registry.namespaces + {path}, order := registry.order + [path]);
        }
        path := path + SCOPE;
      }
      trk' := PushNamespace(trk, parts);
    }

    method EnterClass(sc: Scanner, trk: Tracker, last: Kind, isStruct: bool) returns (trk': Tracker)
      requires sc.Valid()
      modifies this, sc
      ensures sc.Valid()
      ensures var r := ClassStep(sc.All(), old(sc.taken), State(old(registry), trk, last), isStruct);
              sc.taken == r.0 && State(registry, trk', last) == r.1
    {
      hide LexFrom, Lex, Scanner.Valid;
      trk' := trk;
      var name := ReadName(sc, false);
      if name.kind == Identifier {
        registry := RegisterType(registry, OpenPath(trk) + name.payload, isStruct, InsideType(trk), last == Template);
        var hasBody := ReadBody(sc);
        if hasBody { trk' := PushType(trk, name.payload); }
      }
    }

    /** One round of the main loop, with the token it starts on already read. */
    method Round(sc: Scanner, t: Token, trk: Tracker, last: Kind) returns (trk': Tracker)
      requires sc.Valid() && 0 < sc.taken && t == sc.All()[sc.taken - 1]
      modifies this, sc
      ensures sc.Valid()
      ensures var r := Step(sc.All(), old(sc.taken) - 1, State(old(registry), trk, last));
              sc.taken == r.0 && State(registry, trk', t.kind) == r.1
    {
      hide LexFrom, Lex, Scanner.Valid, SkipAngles, ReadNamespace, ClassStep, Open, Close, AddNamespaces,
           OpenPath, PushNamespace;
      trk' := trk;
      if t.kind == Template {
        var next := sc.ExtractNext();
        if next.kind == LAngle { ReadAngles(sc); }
      } else if t.kind == NamespaceDef {
        var parts, entered := ReadNamespaceHead(sc);
        if entered { trk' := EnterNamespaceScope(trk, parts); }
      } else if t.kind == ClassDef {
        trk' := EnterClass(sc, trk, last, false);
      } else if t.kind == StructDef {
        trk' := EnterClass(sc, trk, last, true);
      } else if t.kind == LBrace {
        trk' := Open(trk);
      } else if t.kind == RBrace {
        trk' := Close(trk);
      }
    }

    /** Pass 1 over one text. */
    method DiscoverSymbols(text: string)
      modifies this
      ensures registry == Discover(Lex(text), 0, State(old(registry), EMPTY, Unknown)).reg
    {
      hide LexFrom, Lex, Scanner.Valid, Step;
      var sc := new Scanner(text);
      var trk, last := EMPTY, Unknown;
      ghost var goal := Discover(Lex(text), 0, State(registry, EMPTY, Unknown));
      while true
        invariant sc.Valid() && fresh(sc) && sc.source == text
        invariant Discover(sc.All(), sc.taken, State(registry, trk, last)) == goal
        decreases |sc.All()| - sc.taken
      {
        var t := sc.ExtractNext();
        if t.kind == EndOfStream { break; }
        trk := Round(sc, t, trk, last);
        last := t.kind;
      }
    }
  }
}
