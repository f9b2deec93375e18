/** Pass 2 of the metadata compiler (src/compiler/meta_compiler.cpp:427-747) and the sequence of
    both passes over all files (794-830): which tokens each construct reads, which scopes it opens
    and which names it registers. The resolution of base and context names is not modelled, but
    the tokens it reads are. */
module Digest {
  import opened Lexer
  import opened Names
  import opened Scopes
  import opened Registry
  import opened Discovery

  // ---------------------------------------------------------------- what a construct reads

  datatype Stop = AtComma | AtClose | AtEnd

  /** Open angles, parentheses and square brackets inside a type. */
  datatype Nesting = Nesting(d: int, p: int, b: int)

  function NestToken(t: Token, c: Nesting): Nesting {
    match t.kind
    case LAngle => if c.p == 0 && c.b == 0 then c.(d := c.d + 1) else c
    case RAngle => if c.p == 0 && c.b == 0 then c.(d := c.d - 1) else c
    case LParen => c.(p := c.p + 1)
    case RParen => c.(p := c.p - 1)
    case LBracket => c.(b := c.b + 1)
    case RBracket => c.(b := c.b - 1)
    case _ => c
  }

  predicate IsAccess(t: Token) { t.kind.Public? || t.kind.Private? || t.kind.Protected? || t.kind.Virtual? }

  /** The kind that ends a type besides the comma: a parenthesis or a brace. */
  predicate Closes(t: Token, paren: bool) { if paren then t.kind.RParen? else t.kind.LBrace? }

  predicate Stops(t: Token, c: Nesting, paren: bool) {
    c == Nesting(0, 0, 0) && (t.kind.Comma? || Closes(t, paren))
  }

  /** Past one type: what ended it, and the position behind that. */
  function TypeEnd(ts: seq<Token>, i: nat, c: Nesting, paren: bool): (r: (Stop, nat))
    requires i <= |ts|
    ensures i <= r.1 <= |ts| && (if r.0.AtEnd? then r.1 == |ts| else i < r.1)
    decreases |ts| - i
  {
    if i == |ts| then (AtEnd, i)
    else if IsAccess(ts[i]) then TypeEnd(ts, i + 1, c, paren)
    else if Stops(ts[i], c, paren) then (if ts[i].kind.Comma? then AtComma else AtClose, i + 1)
    else TypeEnd(ts, i + 1, NestToken(ts[i], c), paren)
  }

  const FLAT := Nesting(0, 0, 0)

  /** After the colon of a base list: types up to the brace of the body; nothing else ends the list. */
  function BasesEnd(ts: seq<Token>, i: nat): (r: (bool, nat))
    requires i <= |ts|
    ensures i <= r.1 <= |ts|
    decreases |ts| - i
  {
    var (stop, j) := TypeEnd(ts, i, FLAT, false);
    match stop
    case AtClose => (true, j)
    case AtComma => BasesEnd(ts, j)
    case AtEnd => (false, j)
  }

  /** After the name of a class: whether a body follows, and the position behind its brace. */
  function BodyEnd(ts: seq<Token>, i: nat): (r: (bool, nat))
    requires i <= |ts|
    ensures i <= r.1 <= |ts|
    decreases |ts| - i
  {
    if i == |ts| then (false, i)
    else if ts[i].kind.Colon? then BasesEnd(ts, i + 1)
    else if ts[i].kind.LBrace? then (true, i + 1)
    else if ts[i].kind.SemiColon? then (false, i + 1)
    else BodyEnd(ts, i + 1)
  }

  /** Past the next semicolon. */
  function PastSemicolon(ts: seq<Token>, i: nat): (j: nat)
    requires i <= |ts|
    ensures i <= j <= |ts|
    decreases |ts| - i
  {
    if i == |ts| then i else if ts[i].kind.SemiColon? then i + 1 else PastSemicolon(ts, i + 1)
  }

  /** After REGISTER_CONTEXT: past its two arguments, if a parenthesis follows. */
  function ContextEnd(ts: seq<Token>, i: nat): (j: nat)
    requires i <= |ts|
    ensures i <= j <= |ts|
  {
    if i == |ts| then i
    else if !ts[i].kind.LParen? then i + 1
    else TypeEnd(ts, TypeEnd(ts, i + 1, FLAT, true).1, FLAT, true).1
  }

  /** After `extern`: the position behind what is read, and whether a brace was opened. The string
      "C" is a literal, so this sees only an identifier or an unknown character in its place. */
  function ExternEnd(ts: seq<Token>, i: nat): (r: (bool, nat))
    requires i <= |ts|
    ensures i <= r.1 <= |ts|
  {
    if i == |ts| then (false, i)
    else if !(ts[i].kind.Identifier? || ts[i].kind.Unknown?) then (false, i + 1)
    else if i + 1 == |ts| then (false, i + 1)
    else (ts[i + 1].kind.LBrace?, i + 2)
  }

  // ---------------------------------------------------------------- one round

  predicate IsInternal(name: string) { name == "meta_traits" || name == "typelist" }

  predicate Anonymous(trk: Tracker) { exists i :: 0 <= i < |trk.stack| && trk.stack[i].name == "" }

  /** Registration in pass 2: a later declaration overwrites, and a template is only listed as one. */
  function RecordType(reg: Registry, name: string, isStruct: bool, isNested: bool, isTemplate: bool): Registry {
    if isTemplate then reg.(templates := reg.templates + {name})
    else reg.(types := reg.types[name := Node(isStruct, isNested)],
              nested := if isNested then reg.nested + {name} else reg.nested)
  }

  function AddPrimary(reg: Registry, name: string): Registry {
    if name in reg.primary then reg else reg.(primary := reg.primary + [name])
  }

  function DefineType(st: State, name: string, isStruct: bool, hasBody: bool, primary: bool): State {
    var full := OpenPath(st.trk) + name;
    var isTemplate := st.last.Template?;
    var reg := RecordType(st.reg, full, isStruct, InsideType(st.trk), isTemplate);
    if !hasBody then st.(reg := reg)
    else
      var listed := !isTemplate && primary && !Anonymous(st.trk) && !InsideType(st.trk);
      st.(reg := if listed then AddPrimary(reg, full) else reg, trk := PushType(st.trk, name))
  }

  /** After `class` or `struct`. */
  function DefineStep(ts: seq<Token>, i: nat, st: State, isStruct: bool, primary: bool): (r: (nat, State))
    requires i <= |ts|
    ensures i <= r.0 <= |ts|
  {
    var n := NameAt(ts, i, true);
    if n == |ts| then (n, st)
    else if !ts[n].kind.Identifier? || IsInternal(ts[n].payload) then (n + 1, st)
    else
      var (hasBody, j) := BodyEnd(ts, n + 1);
      (j, DefineType(st, ts[n].payload, isStruct, hasBody, primary))
  }

  /** An identifier at the start of a round: only `extern` and `using namespace` read on. */
  function WordStep(ts: seq<Token>, i: nat, st: State): (r: (nat, State))
    requires i < |ts|
    ensures i < r.0 <= |ts|
  {
    var plain := st.(last := Identifier);
    if ts[i].payload == "extern" then
      var (brace, j) := ExternEnd(ts, i + 1);
      (j, if brace then st.(trk := Open(st.trk), last := Unknown) else plain)
    else if ts[i].payload == "using" && i + 1 < |ts| && ts[i + 1].kind.NamespaceDef? then
      (PastSemicolon(ts, i + 2), st.(last := Unknown))
    else (i + 1, plain)
  }

  /** One round of the main loop of pass 2. */
  function DigestStep(ts: seq<Token>, i: nat, st: State, primary: bool): (r: (nat, State))
    requires i < |ts|
    ensures i < r.0 <= |ts|
  {
    var kind := ts[i].kind;
    var (j, st') :=
      match kind
      case Template => (SkipTemplate(ts, i + 1), st.(last := kind))
      case Identifier => WordStep(ts, i, st)
      case NamespaceDef =>
        var head := ReadNamespace(ts, i + 1, []);
        (head.next, EnterNamespace(st, head).(last := kind))
      case ClassDef => var r := DefineStep(ts, i + 1, st, false, primary); (r.0, r.1.(last := kind))
      case StructDef => var r := DefineStep(ts, i + 1, st, true, primary); (r.0, r.1.(last := kind))
      case LBrace => (i + 1, st.(trk := Open(st.trk), last := kind))
      case RBrace => (i + 1, st.(trk := Close(st.trk), last := kind))
      case RegisterContext => (ContextEnd(ts, i + 1), st.(last := kind))
      case _ => (i + 1, st.(last := kind));
    (j, st')
  }

  /** The whole of pass 2, from position `i` on. */
  function DigestAll(ts: seq<Token>, i: nat, st: State, primary: bool): State
    requires i <= |ts|
    decreases |ts| - i
  {
    if i == |ts| then st
    else
      var (j, st') := DigestStep(ts, i, st, primary);
      DigestAll(ts, j, st', primary)
  }

  /** Position and state after `n` rounds, or at the end of the text if that is sooner. */
  function DigestRounds(ts: seq<Token>, i: nat, st: State, primary: bool, n: nat): (r: (nat, State))
    requires i <= |ts|
    ensures i <= r.0 <= |ts|
    decreases n
  {
    if n == 0 || i == |ts| then (i, st)
    else
      var (j, st') := DigestStep(ts, i, st, primary);
      DigestRounds(ts, j, st', primary, n - 1)
  }

  // ---------------------------------------------------------------- the invariant of every round

  lemma DefineTypeKeeps(st: State, name: string, isStruct: bool, hasBody: bool, primary: bool)
    requires SoundIn(st.reg, st.trk) && IsName(name) && !IsAttribute(name)
    ensures var st' := DefineType(st, name, isStruct, hasBody, primary); SoundIn(st'.reg, st'.trk)
  {
    hide SoundIn, IsName, IsAttribute, InsideType, Anonymous, OpenPath, PrefixesKnown, OpenNames, PushType;
    var st' := DefineType(st, name, isStruct, hasBody, primary);
    SoundPrimary(st.reg, st.trk);
    assert st'.reg.Known() == st.reg.Known() + {OpenPath(st.trk) + name};
    assert st'.reg.TypeNames() == st.reg.TypeNames() + {OpenPath(st.trk) + name};
    TypeNameKeeps(st.reg, st'.reg, st.trk, name);
    TypeBodyKeeps(st'.reg, st.trk, name);
  }

  lemma DefineStepKeeps(ts: seq<Token>, i: nat, st: State, isStruct: bool, primary: bool)
    requires i <= |ts| && NamedTokens(ts) && SoundIn(st.reg, st.trk)
    ensures var st' := DefineStep(ts, i, st, isStruct, primary).1; SoundIn(st'.reg, st'.trk)
  {
    hide SoundIn, IsName, IsAttribute, NameAt, BodyEnd, DefineType, IsInternal;
    var n := NameAt(ts, i, true);
    NameNotAttribute(ts, i, true);
    if n < |ts| && ts[n].kind.Identifier? {
      DefineTypeKeeps(st, ts[n].payload, isStruct, BodyEnd(ts, n + 1).0, primary);
    }
  }

  /** A round of pass 2 keeps the scopes tracked and the registry prefix-closed. */
  lemma DigestStepKeeps(ts: seq<Token>, i: nat, st: State, primary: bool)
    requires i < |ts| && NamedTokens(ts) && SoundIn(st.reg, st.trk)
    ensures var st' := DigestStep(ts, i, st, primary).1; SoundIn(st'.reg, st'.trk)
  {
    hide SoundIn, NamedTokens, DefineStep, SkipTemplate, ReadNamespace, Open, Close, AddNamespaces, PushNamespace,
         ContextEnd, ExternEnd, PastSemicolon;
    match ts[i].kind {
      case NamespaceDef =>
        NamespacePartsNamed(ts, i + 1, []);
        NamespaceKeeps(st.reg, st.trk, ReadNamespace(ts, i + 1, []).parts);
      case ClassDef => DefineStepKeeps(ts, i + 1, st, false, primary);
      case StructDef => DefineStepKeeps(ts, i + 1, st, true, primary);
      case LBrace => BraceKeeps(st.reg, st.trk);
      case RBrace => BraceKeeps(st.reg, st.trk);
      case Identifier => BraceKeeps(st.reg, st.trk);
      case _ =>
    }
  }

  /** After any number of rounds of pass 2 the scopes are tracked and every registered name has
      only registered prefixes. */
  lemma {:induction false} DigestRoundsKeep(ts: seq<Token>, i: nat, st: State, primary: bool, n: nat)
    requires i <= |ts| && NamedTokens(ts) && SoundIn(st.reg, st.trk)
    ensures var st' := DigestRounds(ts, i, st, primary, n).1; SoundIn(st'.reg, st'.trk)
    decreases n
  {
    hide SoundIn, DigestStep, NamedTokens;
    if n == 0 || i >= |ts| {
    } else {
      DigestStepKeeps(ts, i, st, primary);
      var (j, st') := DigestStep(ts, i, st, primary);
      DigestRoundsKeep(ts, j, st', primary, n - 1);
    }
  }

  /** As many rounds as there are tokens read the whole text: pass 2 ends on every input. */
  lemma {:induction false} DigestRoundsFinish(ts: seq<Token>, i: nat, st: State, primary: bool, n: nat)
    requires i <= |ts| && n >= |ts| - i
    ensures DigestRounds(ts, i, st, primary, n) == (|ts|, DigestAll(ts, i, st, primary))
    decreases n
  {
    hide DigestStep;
    if i == |ts| {
    } else {
      var (j, st') := DigestStep(ts, i, st, primary);
      DigestRoundsFinish(ts, j, st', primary, n - 1);
    }
  }

  /** Pass 2 over any text, started on a sound registry, leaves a sound registry. */
  lemma DigestKeeps(text: string, reg: Registry, primary: bool)
    requires Sound(reg)
    ensures Sound(DigestAll(Lex(text), 0, State(reg, EMPTY, Unknown), primary).reg)
  {
    hide Sound, SoundIn, LexFrom, NamedTokens, DigestRounds, DigestAll;
    LexNamesTokens(text, 0);
    EmptySound(reg);
    var st := State(reg, EMPTY, Unknown);
    var n := |Lex(text)|;
    DigestRoundsKeep(Lex(text), 0, st, primary, n);
    DigestRoundsFinish(Lex(text), 0, st, primary, n);
    var end := DigestAll(Lex(text), 0, st, primary);
    SoundAlone(end.reg, end.trk);
  }

  // ---------------------------------------------------------------- both passes over all files

  /** A file as the passes see it; a file that is skipped has an empty text. */
  datatype Manifold = Manifold(text: string, primary: bool)

  function DiscoverFiles(files: seq<Manifold>, n: nat, reg: Registry): Registry
    requires n <= |files|
  {
    if n == 0 then reg
    else
      var r := DiscoverFiles(files, n - 1, reg);
      if files[n - 1].text == "" then r else Discover(Lex(files[n - 1].text), 0, State(r, EMPTY, Unknown)).reg
  }

  function DigestFiles(files: seq<Manifold>, n: nat, reg: Registry): Registry
    requires n <= |files|
  {
    if n == 0 then reg
    else
      var r := DigestFiles(files, n - 1, reg);
      if files[n - 1].text == "" then r
      else DigestAll(Lex(files[n - 1].text), 0, State(r, EMPTY, Unknown), files[n - 1].primary).reg
  }

  /** The registry the emitter works on. */
  function RegistryOf(files: seq<Manifold>): Registry {
    DigestFiles(files, |files|, DiscoverFiles(files, |files|, NOTHING))
  }

  lemma {:induction false} FilesKeep(files: seq<Manifold>, n: nat, reg: Registry)
    requires n <= |files| && Sound(reg)
    ensures Sound(DiscoverFiles(files, n, reg)) && Sound(DigestFiles(files, n, reg))
  {
    hide Sound, Lex, Discover, DigestAll;
    if n == 0 {
    } else {
      FilesKeep(files, n - 1, reg);
      DiscoverKeeps(files[n - 1].text, DiscoverFiles(files, n - 1, reg));
      DigestKeeps(files[n - 1].text, DigestFiles(files, n - 1, reg), files[n - 1].primary);
    }
  }

  /** For every set of input files the registry is sound: every registered namespace, type or
      template is an absolute name of identifiers all of whose prefixes are registered too. */
  lemma RegistrySound(files: seq<Manifold>)
    ensures Sound(RegistryOf(files))
  {
    NothingSound();
    hide Sound;
    FilesKeep(files, |files|, NOTHING);
    FilesKeep(files, |files|, DiscoverFiles(files, |files|, NOTHING));
  }

  lemma NothingSound()
    ensures Sound(NOTHING)
  {
    assert NOTHING.Known() == {};
  }

  // ---------------------------------------------------------------- pass 2 over a scanner

  method NestTokenIn(t: Token, d0: int, p0: int, b0: int) returns (d: int, p: int, b: int)
    ensures Nesting(d, p, b) == NestToken(t, Nesting(d0, p0, b0))
  {
    d, p, b := d0, p0, b0;
    if t.kind == LAngle { if p == 0 && b == 0 { d := d + 1; } }
    else if t.kind == RAngle { if p == 0 && b == 0 { d := d - 1; } }
    else if t.kind == LParen { p := p + 1; }
    else if t.kind == RParen { p := p - 1; }
    else if t.kind == LBracket { b := b + 1; }
    else if t.kind == RBracket { b := b - 1; }
  }

  method ReadType(sc: Scanner, paren: bool) returns (stop: Stop)
    requires sc.Valid()
    modifies sc
    ensures sc.Valid() && (stop, sc.taken) == TypeEnd(sc.All(), old(sc.taken), FLAT, paren)
  {
    hide LexFrom, Lex, Scanner.Valid, NestToken, IsAccess, Closes;
    var d, p, b := 0, 0, 0;
    while true
      invariant sc.Valid()
      invariant TypeEnd(sc.All(), sc.taken, Nesting(d, p, b), paren) == TypeEnd(sc.All(), old(sc.taken), FLAT, paren)
      decreases |sc.All()| - sc.taken
    {
      var t := sc.ExtractNext();
      if t.kind == EndOfStream { return AtEnd; }
      if !IsAccess(t) {
        if d == 0 && p == 0 && b == 0 && (t.kind == Comma || Closes(t, paren)) {
          return if t.kind == Comma then AtComma else AtClose;
        }
        d, p, b := NestTokenIn(t, d, p, b);
      }
    }
  }

  method ReadBaseList(sc: Scanner) returns (hasBody: bool)
    requires sc.Valid()
    modifies sc
    ensures sc.Valid() && (hasBody, sc.taken) == BasesEnd(sc.All(), old(sc.taken))
  {
    hide LexFrom, Lex, Scanner.Valid, TypeEnd;
    while true
      invariant sc.Valid() && BasesEnd(sc.All(), sc.taken) == BasesEnd(sc.All(), old(sc.taken))
      decreases |sc.All()| - sc.taken
    {
      var stop := ReadType(sc, false);
      if stop == AtClose { return true; }
      if stop == AtEnd { return false; }
    }
  }

  method ReadDefinition(sc: Scanner) returns (hasBody: bool)
    requires sc.Valid()
    modifies sc
    ensures sc.Valid() && (hasBody, sc.taken) == BodyEnd(sc.All(), old(sc.taken))
  {
    hide LexFrom, Lex, Scanner.Valid, BasesEnd;
    while true
      invariant sc.Valid() && BodyEnd(sc.All(), sc.taken) == BodyEnd(sc.All(), old(sc.taken))
      decreases |sc.All()| - sc.taken
    {
      var t := sc.ExtractNext();
      if t.kind == Colon {
        hasBody := ReadBaseList(sc);
        return;
      } else if t.kind == LBrace {
        return true;
      } else if t.kind == SemiColon || t.kind == EndOfStream {
        return false;
      }
    }
  }

  method ReadSemicolon(sc: Scanner)
    requires sc.Valid()
    modifies sc
    ensures sc.Valid() && sc.taken == PastSemicolon(sc.All(), old(sc.taken))
  {
    hide LexFrom, Lex, Scanner.Valid;
    while true
      invariant sc.Valid() && PastSemicolon(sc.All(), sc.taken) == PastSemicolon(sc.All(), old(sc.taken))
      decreases |sc.All()| - sc.taken
    {
      var t := sc.ExtractNext();
      if t.kind == SemiColon || t.kind == EndOfStream { return; }
    }
  }

  method ReadContext(sc: Scanner)
    requires sc.Valid()
    modifies sc
    ensures sc.Valid() && sc.taken == ContextEnd(sc.All(), old(sc.taken))
  {
    hide LexFrom, Lex, Scanner.Valid, TypeEnd;
    var t := sc.ExtractNext();
    if t.kind == LParen {
      var _ := ReadType(sc, true);
      var _ := ReadType(sc, true);
    }
  }

  method ReadExtern(sc: Scanner) returns (brace: bool)
    requires sc.Valid()
    modifies sc
    ensures sc.Valid() && (brace, sc.taken) == ExternEnd(sc.All(), old(sc.taken))
  {
    hide LexFrom, Lex, Scanner.Valid;
    brace := false;
    var next := sc.ExtractNext();
    if next.kind == Identifier || next.kind == Unknown {
      var t := sc.ExtractNext();
      brace := t.kind == LBrace;
    }
  }

  method ReadWord(sc: Scanner, word: Token, trk: Tracker) returns (trk': Tracker, last': Kind)
    requires sc.Valid() && 0 < sc.taken && word == sc.All()[sc.taken - 1]
    modifies sc
    ensures sc.Valid()
    ensures forall reg, last ::
      WordStep(sc.All(), old(sc.taken) - 1, State(reg, trk, last)) == (sc.taken, State(reg, trk', last'))
  {
    hide LexFrom, Lex, Scanner.Valid, ExternEnd, PastSemicolon, Open;
    trk', last' := trk, Identifier;
    if word.payload == "extern" {
      var brace := ReadExtern(sc);
      if brace { trk', last' := Open(trk), Unknown; }
    } else if word.payload == "using" {
      var next := sc.PeekNext();
      if next.kind == NamespaceDef {
        var _ := sc.ExtractNext();
        ReadSemicolon(sc);
        last' := Unknown;
      }
    }
  }

  method DefineClass(parser: SymbolParser, sc: Scanner, trk: Tracker, last: Kind, isStruct: bool, primary: bool)
    returns (trk': Tracker)
    requires sc.Valid()
    modifies parser, sc
    ensures sc.Valid()
    ensures var r := DefineStep(sc.All(), old(sc.taken), State(old(parser.registry), trk, last), isStruct, primary);
            sc.taken == r.0 && State(parser.registry, trk', last) == r.1
  {
    hide LexFrom, Lex, Scanner.Valid, NameAt, BodyEnd, IsInternal, OpenPath, PushType, RecordType,
         AddPrimary, InsideType, Anonymous;
    trk' := trk;
    var name := ReadName(sc, true);
    if name.kind == Identifier && !IsInternal(name.payload) {
      var full := OpenPath(trk) + name.payload;
      var isTemplate, isNested := last == Template, InsideType(trk);
      parser.registry := RecordType(parser.registry, full, isStruct, isNested, isTemplate);
      var hasBody := ReadDefinition(sc);
      if hasBody {
        trk' := PushType(trk, name.payload);
        if !isTemplate && primary && !Anonymous(trk) && !isNested {
          parser.registry := AddPrimary(parser.registry, full);
        }
      }
    }
  }

  /** One round of pass 2, with the token it starts on already read. */
  method DigestRound(parser: SymbolParser, sc: Scanner, t: Token, trk: Tracker, last: Kind, primary: bool)
    returns (trk': Tracker, last': Kind)
    requires sc.Valid() && 0 < sc.taken && t == sc.All()[sc.taken - 1]
    modifies parser, sc
    ensures sc.Valid()
    ensures DigestStep(sc.All(), old(sc.taken) - 1, State(old(parser.registry), trk, last), primary)
              == (sc.taken, State(parser.registry, trk', last'))
  {
    hide LexFrom, Lex, Scanner.Valid, SkipAngles, ReadNamespace, DefineStep, WordStep, ContextEnd, Open, Close,
         AddNamespaces, OpenPath, PushNamespace;
    trk', last' := trk, t.kind;
    if t.kind == Template {
      var next := sc.ExtractNext();
      if next.kind == LAngle { ReadAngles(sc); }
    } else if t.kind == Identifier {
      trk', last' := ReadWord(sc, t, trk);
    } else if t.kind == NamespaceDef {
      var parts, entered := ReadNamespaceHead(sc);
      if entered { trk' := parser.EnterNamespaceScope(trk, parts); }
    } else if t.kind == LBrace {
      trk' := Open(trk);
    } else if t.kind == RBrace {
      trk' := Close(trk);
    } else if t.kind == ClassDef {
      trk' := DefineClass(parser, sc, trk, last, false, primary);
    } else if t.kind == StructDef {
      trk' := DefineClass(parser, sc, trk, last, true, primary);
    } else if t.kind == RegisterContext {
      ReadContext(sc);
    }
  }

  /** Pass 2 over one text. */
  method DigestManifold(parser: SymbolParser, text: string, primary: bool)
    modifies parser
    ensures parser.registry == DigestAll(Lex(text), 0, State(old(parser.registry), EMPTY, Unknown), primary).reg
  {
    hide LexFrom, Lex, Scanner.Valid, DigestStep;
    var sc := new Scanner(text);
    var trk, last := EMPTY, Unknown;
    ghost var goal := DigestAll(Lex(text), 0, State(parser.registry, EMPTY, Unknown), primary);
    while true
      invariant sc.Valid() && fresh(sc) && sc.source == text
      invariant DigestAll(sc.All(), sc.taken, State(parser.registry, trk, last), primary) == goal
      decreases |sc.All()| - sc.taken
    {
      var t := sc.ExtractNext();
      if t.kind == EndOfStream { break; }
      trk, last := DigestRound(parser, sc, t, trk, last, primary);
    }
  }

  /** Both passes over all files, in the order the compiler runs them. */
  method ReadManifolds(files: seq<Manifold>) returns (parser: SymbolParser)
    ensures fresh(parser) && parser.registry == RegistryOf(files)
  {
    hide Lex, Discover, DigestAll;
    parser := new SymbolParser();
    for i := 0 to |files|
      invariant fresh(parser) && parser.registry == DiscoverFiles(files, i, NOTHING)
    {
      if files[i].text != "" { parser.DiscoverSymbols(files[i].text); }
    }
    ghost var found := parser.registry;
    for i := 0 to |files|
      invariant fresh(parser) && parser.registry == DigestFiles(files, i, found)
    {
      if files[i].text != "" { DigestManifold(parser, files[i].text, files[i].primary); }
    }
  }
}
