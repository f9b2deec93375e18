# SlabFlux, verified parts

SlabFlux is a low-latency runtime written in C++20. This project models the parts of it that carry
concurrency, recovery, scheduling, compiler and arithmetic obligations, and proves what they are for.

| file | part of the system |
|---|---|
| `Seqlock.dfy` | publication of the wide state under an even/odd sequence word, and the single-writer observer |
| `Lexer.dfy`, `Grammar.dfy` | the metadata compiler: the scanner, and its tokens character by character |
| `Names.dfy`, `Scopes.dfy`, `Registry.dfy`, `Discovery.dfy`, `Digest.dfy` | names, scope tracking and both passes |
| `Shapes.dfy`, `Declarations.dfy`, `Definitions.dfy`, `OpenScopes.dfy`, `Places.dfy`, `Inventory.dfy` | what the passes find, stated on tokens: shapes of declarations, open scopes, both passes, all files |
| `Emitter.dfy` | the forward declarations |
| `Random.dfy` (on `Words.dfy`, `Modular.dfy`) | the OC-64 generators |
| `Journal.dfy`, `Replay.dfy` | write-ahead bridge, crash, and synchronisation from the journal |
| `Snapshot.dfy` | asynchronous snapshots against an adversarial kernel |
| `Traps.dfy` | the divergence traps of the engine |
| `Poller.dfy`, `Switch.dfy` (on `Cycle.dfy`) | round-robin fan-in and fan-out |
| `Envelope.dfy` | the sealed 64-byte envelope |
| `SpscRing.dfy`, `TicketRing.dfy` (on `Context.dfy`, `Modular.dfy`, `Wrappers.dfy`) | the single-producer ring and the multi-producer ticketed ring |
| `Lattice.dfy`, `Lanes.dfy` | the error lattice and the vector lanes |
| `CausalClock.dfy` | the hybrid logical clock of the mesh |

## How the model is made

Concurrent parts are step machines: a state, an action per shared-memory access, a total `Next` in which
an impossible action changes nothing, and `Run` for the state after the first `n` actions of any sequence.
Theorems quantify over all action sequences, hence over all interleavings, on sequentially consistent
memory. Fields that only record the past are named in the header of each file; no step depends on them.
Beside the machines stand the classes of the source with the fields they update, their methods proved
against the same functions. Sequential parts are classes and methods with loops, proved against
specification functions, and the theorems are about those functions. For the metadata compiler the theorems
start over from characters, tokens and brace depths: which text is which token, what a round declares, which
scopes are open there, and what the registry therefore holds, each in both directions.

Words are numbers with explicit wrap-around. Clocks, the time stamp counter, file contents, completions of
the kernel, queue entries being free and the pushes and pops of the other side are inputs. The domain step,
the logic of a publish and the processor of a batch are arbitrary functions.

## Where the code does not do what is expected of it

Each of these is shown by a lemma on a concrete input or run, and stands beside the condition under which the
code does what is expected.

- Two publishers can publish LSNs out of order (`Seqlock.TwoPublishersUnordered`); one publisher cannot
  (`Seqlock.SinglePublisherOrdered`, `Seqlock.OrderedIffOnePublisher`).
- The node context hands out LSN 0 first and replay skips ids not above the engine's LSN, which starts at 0,
  so the first frame is never recovered (`Replay.FirstFrameLost`); every frame is exactly when the journal
  starts right behind the engine (`Replay.RecoversAllIffNext`).
- A gap in the journal makes replay process an entry at an LSN that is not its own, and a repeated one twice
  (`Replay.GapAppliesTwice`); without gaps it does not (`Replay.ConsecutiveIffNoGap`).
- A trap set for an LSN that is not in the future silences all traps for good (`Traps.LateExample`,
  `Traps.LateSilences`); with future traps only, every one fires (`Traps.ExactIffFuture`).
- The snapshot does not look at the result of a completion, so a short write counts as done
  (`Snapshot.ShortWriteTears`); the full count is what makes the file whole (`Snapshot.WholeIffFullCount`).
- `poll` also returns null when it has just removed a null item (`Poller.NullItemLost`, `Poller.NullExactly`).
- With two or more producers the element count of the ticketed ring can exceed its size, and an overtaken
  producer can leave an older signal as the newest (`TicketRing.OccupancyReached`,
  `TicketRing.OvertakenIsWrong`); with one producer neither happens (`TicketRing.CountsWithinIffAlone`,
  `TicketRing.PeeksRightIffAlone`).
- Tokens of stalled replications are not ordered within a tick (`CausalClock.ReplicationsUnordered`,
  `CausalClock.TokensOrdered`, `CausalClock.SecondReplicationOrdered`), and the first stalled broadcast repeats
  a token (`CausalClock.FirstStalledRepeats`, `CausalClock.BroadcastsDistinct`).
- A forward declaration of an attribute word is not read back by the compiler itself
  (`Emitter.AttributeLost`); this cannot happen to a registered name (`Emitter.EmittedReadsBack`).

## Model

| member | source | states |
|---|---|---|
| `Seqlock.MutualExclusion` | include/slabflux/bridge/bridge_sync.hpp:139-172 | in every interleaving of any number of publishers and readers, at most one thread is between taking the sequence word and giving it back |
| `Seqlock.PositionsFolded` | include/slabflux/bridge/bridge_sync.hpp:139-172 | in every run, whenever the word is even it is twice the number of publishes and the positions and LSN are the logic folded over the inputs in the order the word was taken, whatever the logic wrote in between |
| `Seqlock.NoTornRead` | include/slabflux/bridge/bridge_sync.hpp:110-136 | in every run, every read that returned true delivered exactly the positions and LSN left by one completed publish, or the initial ones, and no later read delivered older ones |
| `Seqlock.ReadIsCurrent` | include/slabflux/bridge/bridge_sync.hpp:110-136 | a read that returns true is linearized at its last access: it delivers the state current at that step; Seqlock.ReadSucceedsIff says when it does |
| `Seqlock.ReadSucceedsIff` | include/slabflux/bridge/bridge_sync.hpp:110-136 | over every run: a read that starts on an even word and makes its accesses, one per position and two more, with any actions of any threads in between, returns true if and only if the word is unchanged at its last access; it then delivers exactly the positions and LSN current there, and otherwise nothing |
| `Seqlock.ReadRefused` | include/slabflux/bridge/bridge_sync.hpp:110-116 | a read that finds the word odd returns at once and changes nothing |
| `Seqlock.PublishCompletes` | include/slabflux/bridge/bridge_sync.hpp:139-172 | from every reached state with an even word, a publish of an idle thread can be seen through to the end and leaves the logic applied to the positions |
| `Seqlock.RunKeeps` | include/slabflux/bridge/bridge_sync.hpp:110-172 | the invariant behind these: parity of the word, one holder, what each stage has seen, what each read delivered; kept by every step |
| `Seqlock.SinglePublisherOrdered` | include/slabflux/bridge/bridge_sync.hpp:139-172 | with one publishing thread the LSNs of successive publishes strictly increase |
| `Seqlock.TwoPublishersUnordered` | include/slabflux/bridge/bridge_sync.hpp:139-150 | for any two publishing threads, any inputs and any logic that keeps the number of positions, some run publishes LSNs out of order, because the LSN is drawn before the word is taken |
| `Seqlock.OrderedIffOnePublisher` | include/slabflux/bridge/bridge_sync.hpp:139-172 | all runs in which only threads of a set publish have increasing LSNs if and only if the set holds at most one thread |
| `Seqlock.ObserverIsBridge` | include/slabflux/compute/timing_invariant.hpp:84-116 | with one writer, plain stores in place of the compare-and-swap give the same run in every interleaving, so the read guarantees carry over to the observer |
| `Seqlock.WideStateSlab.Publish` | include/slabflux/bridge/bridge_sync.hpp:139-172 | called in turn: the positions become the logic applied to the old ones, stamped with the drawn LSN, and the word moves by two |
| `Seqlock.WideStateSlab.TryReadWide` | include/slabflux/bridge/bridge_sync.hpp:110-136 | called in turn: refuses exactly while the word is odd, otherwise copies all positions and the LSN |
| `Lexer.LexPrintStable` | src/compiler/meta_compiler.cpp:82-248 | for every text, joining its token payloads with single spaces and scanning again gives the same kinds and payloads, including escapes, raw strings and unterminated literals |
| `Lexer.LexRespaced` | src/compiler/meta_compiler.cpp:82-248 | stronger: any blanks, comments and preprocessor lines may stand in front of, between and behind the tokens of any text and scanning still gives the same tokens; a comment may not follow a slash, two tokens that would run together need a gap, and nothing may follow an unclosed literal |
| `Lexer.GapInvisible` | src/compiler/meta_compiler.cpp:82-111 | every blank, line comment, block comment up to its first end mark, and preprocessor line with its continuation lines is invisible, whatever follows it |
| `Lexer.DirectiveEndIs` | src/compiler/meta_compiler.cpp:96-105 | a preprocessor line ends at a newline exactly when what stands before it is a body of plain characters and continued lines |
| `Lexer.InnerComplete` | src/compiler/meta_compiler.cpp:138-248 | every token with something behind it stays itself with a blank behind it; only the last of a text can be an unclosed literal |
| `Lexer.TokenSame` | src/compiler/meta_compiler.cpp:138-248 | a token is read again with the same kind and payload wherever its text stands unharmed |
| `Lexer.LexShift` | src/compiler/meta_compiler.cpp:131-248 | the tokens of a text do not depend on what stands in front of it |
| `Lexer.QuotedGrammar` | src/compiler/meta_compiler.cpp:193-207 | a literal ends at a position exactly when an escape-respecting body and the closing quote stand there |
| `Lexer.MarkerIsFirst` | src/compiler/meta_compiler.cpp:224-227 | the search for the end of a raw string stops at the first occurrence of the marker |
| `Lexer.RawGrammar` | src/compiler/meta_compiler.cpp:216-230 | a raw string ends with the first marker made of its own delimiter |
| `Lexer.Scanner.AdvanceWhitespace` | src/compiler/meta_compiler.cpp:82-111 | the skipping loop ends exactly where the trivia ends |
| `Lexer.Scanner.ScanQuoted` | src/compiler/meta_compiler.cpp:193-207 | the literal loop ends where the specification of literals says |
| `Lexer.Scanner.ScanRaw` | src/compiler/meta_compiler.cpp:216-230 | the raw-string branch ends where the specification of raw strings says |
| `Lexer.Scanner.ScanToken` | src/compiler/meta_compiler.cpp:145-248 | every branch of the token switch yields the specified kind and payload; which texts these are is what the members of Grammar state |
| `Lexer.Scanner.ExtractInternal` | src/compiler/meta_compiler.cpp:138-248 | skips trivia and yields the next token of the specification, or the end of the stream |
| `Lexer.Scanner.ExtractNext` | src/compiler/meta_compiler.cpp:131-136 | every call strictly advances the cursor and yields the next token of the text, or yields end-of-stream for ever after |
| `Lexer.Scanner.PeekNext` | src/compiler/meta_compiler.cpp:122-129 | yields what the next call would and leaves cursor and last kind as they were |
| `Grammar.KeywordToken` | src/compiler/meta_compiler.cpp:232-242 | each of the eleven keywords in front of what ends a word is a token of its own kind |
| `Grammar.IdentifierToken` | src/compiler/meta_compiler.cpp:209-244 | every other word of letters, digits and underscores is one identifier, also in front of a quote unless it is one of the five raw-string prefixes |
| `Grammar.PunctuationToken` | src/compiler/meta_compiler.cpp:153-192 | each of the ten punctuation characters is a token of its own kind, whatever follows |
| `Grammar.ScopeToken` | src/compiler/meta_compiler.cpp:147-150 | two colons are one token, whatever follows |
| `Grammar.ColonToken` | src/compiler/meta_compiler.cpp:147-152 | one colon is a colon unless another follows |
| `Grammar.UnknownToken` | src/compiler/meta_compiler.cpp:247-248 | every other visible character is a token of unknown kind, a slash exactly if it opens no comment |
| `Grammar.QuotedToken` | src/compiler/meta_compiler.cpp:194-207 | for both quotes and every text behind it: a body of plain characters and escapes between two quotes is one literal |
| `Grammar.UnclosedToken` | src/compiler/meta_compiler.cpp:194-207 | a literal that is not closed, also one that ends in a lone backslash, runs to the end of the text |
| `Grammar.RawToken` | src/compiler/meta_compiler.cpp:216-230 | for each of the prefixes R, uR, UR, LR and u8R, every delimiter without a parenthesis, every body in which the end mark does not stand earlier, and every text behind it: the raw string is one literal |
| `Grammar.BlankUnseen` | src/compiler/meta_compiler.cpp:84-85 | space, tab, newline, carriage return, vertical tab and form feed are invisible |
| `Grammar.LineCommentUnseen` | src/compiler/meta_compiler.cpp:86-89 | a line comment is invisible up to its newline |
| `Grammar.BlockCommentUnseen` | src/compiler/meta_compiler.cpp:90-96 | a block comment is invisible up to its first end mark |
| `Grammar.DirectiveUnseen` | src/compiler/meta_compiler.cpp:97-106 | a preprocessor line is invisible up to its newline |
| `Grammar.ContinuedDirectiveUnseen` | src/compiler/meta_compiler.cpp:97-106 | a backslash joins the next line to it, with or without a carriage return |
| `Names.JoinSplit` | src/compiler/meta_compiler.cpp:891-907 | joining with "::" the pieces of any text split at "::" gives the text back |
| `Names.SplitJoin` | src/compiler/meta_compiler.cpp:891-907 | splitting the joined parts of any identifiers gives the parts back |
| `Names.PartsQualify` | src/compiler/meta_compiler.cpp:871-907 | an absolute name is the qualification of its own parts |
| `Names.LexNamesTokens` | src/compiler/meta_compiler.cpp:209-244 | every identifier token the scanner delivers is a run of identifier characters |
| `Scopes.OpenKeeps` | src/compiler/meta_compiler.cpp:412-418 | an opening brace keeps scope depths nondecreasing between 1 and the brace depth, and type braces exactly the depths of the type scopes, strictly increasing |
| `Scopes.PushNamespaceKeeps` | src/compiler/meta_compiler.cpp:312-339 | entering a namespace, with any number of names or none, keeps the same |
| `Scopes.PushTypeKeeps` | src/compiler/meta_compiler.cpp:404-410 | entering a type body keeps the same |
| `Scopes.CloseKeeps` | src/compiler/meta_compiler.cpp:413-418 | a closing brace, also one too many, keeps the same |
| `Scopes.KeptBelow` | src/compiler/meta_compiler.cpp:416 | popping to a depth keeps exactly the scopes below it |
| `Scopes.PopBraceMatches` | src/compiler/meta_compiler.cpp:415-416 | a closing brace takes away at most one type scope, the one whose brace is popped |
| `Scopes.CloseUndoesNamespace` | src/compiler/meta_compiler.cpp:312-339 | the brace that closes a namespace restores the scopes open before it |
| `Scopes.CloseUndoesType` | src/compiler/meta_compiler.cpp:404-410 | the brace that closes a type body restores the scopes open before it |
| `Scopes.CloseUndoesOpen` | src/compiler/meta_compiler.cpp:412-418 | the brace that closes a plain brace restores the scopes open before it |
| `Discovery.NameNotAttribute` | src/compiler/meta_compiler.cpp:344-376 | the search for the name of a class never stops at an attribute word |
| `Registry.AddKnown` | src/compiler/meta_compiler.cpp:329-388 | registering one more name below known scopes keeps every prefix of every known name known |
| `Discovery.StepKeeps` | src/compiler/meta_compiler.cpp:287-421 | one round of pass 1 on any token keeps the scopes tracked and the registry prefix-closed |
| `Discovery.RoundsKeep` | src/compiler/meta_compiler.cpp:279-421 | so does any number of rounds on any tokens |
| `Discovery.RoundsFinish` | src/compiler/meta_compiler.cpp:279-421 | as many rounds as there are tokens read the whole text: pass 1 ends on every input |
| `Discovery.DiscoverKeeps` | src/compiler/meta_compiler.cpp:279-421 | pass 1 over any text takes a sound registry to a sound registry |
| `Discovery.SymbolParser.Round` | src/compiler/meta_compiler.cpp:287-421 | one turn of the main loop, reading through the scanner, is one step of the specification, which Declarations.ClassRound and SilentRound state on the tokens |
| `Discovery.SymbolParser.DiscoverSymbols` | src/compiler/meta_compiler.cpp:279-421 | the main loop ends and leaves exactly the specified registry |
| `Shapes.PairsAre` | src/compiler/meta_compiler.cpp:351-367 | an attribute in brackets or parentheses is skipped exactly up to where its brackets balance, or to the end of the text |
| `Shapes.AlignmentIs` | src/compiler/meta_compiler.cpp:347-350 | an alignment is skipped exactly up to the closing parenthesis that leaves none open; the first pass also stops at one too many, the second does not |
| `Shapes.PieceIs` | src/compiler/meta_compiler.cpp:344-377 | one turn of the name search passes over exactly one alignment, attribute or leading scope, and stops exactly at anything else |
| `Shapes.NameOfIs` | src/compiler/meta_compiler.cpp:344-378 | the identifier the search ends at is the one behind nothing but such pieces, in both directions |
| `Shapes.SkipAnglesIs` | src/compiler/meta_compiler.cpp:293-307 | template parameters end where the angles outside parentheses, brackets and braces are closed |
| `Shapes.FindBodyIs` | src/compiler/meta_compiler.cpp:390-404 | in the first pass a head ends at the first brace, colon or semicolon, and a base list at the first brace or semicolon |
| `Shapes.BodyEndIs` | src/compiler/meta_compiler.cpp:697-723 | in the second pass a base list ends at the first brace outside all parentheses, brackets and angles, and at nothing else |
| `Shapes.NamespaceIs` | src/compiler/meta_compiler.cpp:311-326 | a namespace keyword opens exactly the identifiers of the head behind it, brackets left out, if a brace ends the head |
| `Shapes.ChainOpens` | src/compiler/meta_compiler.cpp:311-339 | namespace a::b::c { opens a, b and c |
| `Declarations.ClassRound` | src/compiler/meta_compiler.cpp:341-411 | a round on a class keyword with a name, behind any attributes, alignments and leading scopes, registers the open names plus that name: as a struct exactly for struct unless known already, nested exactly if a type is open, as a template exactly behind template; a body opens its scope |
| `Declarations.SilentRound` | src/compiler/meta_compiler.cpp:287-420 | every other round leaves types, templates, nested and primary types as they are |
| `Declarations.FirstPassFinds` | src/compiler/meta_compiler.cpp:279-421 | for every text and registry: after pass 1 the types, templates and nested types are exactly those known before and those some round declares, stated on the tokens and open scopes |
| `Declarations.FirstPassNode` | src/compiler/meta_compiler.cpp:383-385 | a type that was not known is what its first declaration in the text says |
| `OpenScopes.ScopesNext` | src/compiler/meta_compiler.cpp:287-420 | in both passes the open scopes move from round to round as the token at its start says: braces, namespace heads, class bodies, and extern blocks in the second |
| `OpenScopes.OpenExactly` | src/compiler/meta_compiler.cpp:281-418 | for every text, in both passes: a scope is open at a round exactly if an earlier round opened it and the brace depth has not fallen below it since |
| `OpenScopes.NestedExactly` | src/compiler/meta_compiler.cpp:343 | a class counts as nested exactly if the body of an earlier class has not been closed |
| `OpenScopes.AnonymousExactly` | src/compiler/meta_compiler.cpp:679-685 | a class counts as anonymous exactly if an anonymous namespace opened before has not been closed |
| `Places.PlaceNext` | src/compiler/meta_compiler.cpp:287-420 | in both passes a round starts where the shape of the round before ends |
| `Places.PassNamespaces` | src/compiler/meta_compiler.cpp:311-340 | for every text: after each pass the namespaces are exactly those known before and those some round opens |
| `Places.ClassShape` | src/compiler/meta_compiler.cpp:341-411 | class x ;, class x { and class x : bases { in pass 1: the name registered, its kind, and the scope open afterwards |
| `Places.TemplateShape` | src/compiler/meta_compiler.cpp:291-411 | two rounds read template < parameters > class x and list x as a template and a type |
| `Digest.DigestStepKeeps` | src/compiler/meta_compiler.cpp:436-747 | one round of pass 2 keeps the scopes tracked and the registry prefix-closed |
| `Digest.DigestRoundsKeep` | src/compiler/meta_compiler.cpp:427-747 | so does any number of rounds of pass 2 |
| `Digest.DigestRoundsFinish` | src/compiler/meta_compiler.cpp:427-747 | pass 2 ends on every input |
| `Digest.DigestKeeps` | src/compiler/meta_compiler.cpp:427-747 | pass 2 over any text takes a sound registry to a sound registry |
| `Digest.RegistrySound` | src/compiler/meta_compiler.cpp:794-830 | for every set of input files, after both passes every registered namespace, type and template is an absolute name of identifiers all of whose prefixes are registered, and no type or template is named like an attribute |
| `Digest.DigestRound` | src/compiler/meta_compiler.cpp:436-747 | one turn of the main loop of pass 2 is one step of the specification, which Definitions.DefinitionRound and SilentDefinition state on the tokens |
| `Digest.DigestManifold` | src/compiler/meta_compiler.cpp:427-747 | pass 2 over one text ends and leaves exactly the specified registry |
| `Digest.ReadManifolds` | src/compiler/meta_compiler.cpp:794-830 | both passes over all files in order leave exactly the specified registry |
| `Definitions.DefinitionRound` | src/compiler/meta_compiler.cpp:632-733 | a round of pass 2 on a class keyword with a name: behind template the name is only listed as a template; otherwise it becomes the type the keyword says, whatever it was; with a body its scope is opened and it is listed as primary exactly in a primary text, outside types and anonymous namespaces, once |
| `Definitions.SilentDefinition` | src/compiler/meta_compiler.cpp:436-747 | every other round of pass 2 leaves types, templates and primary types as they are |
| `Definitions.SecondPassFinds` | src/compiler/meta_compiler.cpp:427-747 | for every text and registry: after pass 2 a type is known before or declared by some round not behind template, a template known before or declared behind it, and a primary type listed before or, in a primary text, defined by some round with a body, outside every type and anonymous namespace and not behind template |
| `Definitions.SecondPassNode` | src/compiler/meta_compiler.cpp:689-692 | a type is what its last declaration in the text says |
| `Definitions.SecondPassOrder` | src/compiler/meta_compiler.cpp:725-731 | the primary types only grow, without repetition, in the order of their first definitions |
| `Places.DefinitionShape` | src/compiler/meta_compiler.cpp:632-733 | class x ;, class x { and class x : bases { in pass 2: type or template, primary or not, and the scope open afterwards |
| `Inventory.RegistryHolds` | src/compiler/meta_compiler.cpp:794-830 | for every set of files the registry holds a namespace, type, template or primary type exactly if some round over some file declares it as such, a primary one over a primary file |
| `Inventory.PrimaryInOrder` | src/compiler/meta_compiler.cpp:794-830 | for every set of files the primary types are listed once each, in the order of their first definitions |
| `Inventory.TypeDecided` | src/compiler/meta_compiler.cpp:794-830 | for every set of files a type is what its last declaration in pass 2 says, or, if that pass never declares it as a type, what its first declaration in pass 1 says |
| `Emitter.LinesAre` | src/compiler/meta_compiler.cpp:855-909 | a run of requests prints exactly one line per declared name, from the parts of that name |
| `Emitter.DeclaredOnce` | src/compiler/meta_compiler.cpp:854-909 | no name is declared twice, and exactly the requested names that pass the filters and whose prefixes are all namespaces and not types are declared |
| `Emitter.ExactlyTheseLines` | src/compiler/meta_compiler.cpp:854-909 | for every registry and every run of requests, the printed lines are those of exactly the requested names that are absolute, hold no angle, belong to no system library, are no mere namespace, are primary or else neither a template nor one of the listed words, and have only namespaces that are no types in front of the last part; one line each, in the order of the first requests |
| `Emitter.LastOfName` | src/compiler/meta_compiler.cpp:871-874 | the base name of a qualified name is its last part |
| `Emitter.DeclarationReadsBack` | src/compiler/meta_compiler.cpp:891-908 | the printed line undoes its own split: the compiler's own first pass over it registers the namespaces it opens, the declared name as a type unless that name is an attribute word, and ends with every brace closed |
| `Emitter.RegisteredDeclared` | src/compiler/meta_compiler.cpp:855-909 | an eligible registered name is declared exactly when none of its proper prefixes is a type or only a template |
| `Emitter.EmittedReadsBack` | src/compiler/meta_compiler.cpp:794-909 | for every set of input files: a declared registered name is its opened namespaces joined with "::" plus the struct name, every prefix opened is a namespace and not a type, and reading the line back registers exactly that one type and exactly those namespaces |
| `Emitter.AttributeLost` | src/compiler/meta_compiler.cpp:855-909 | a request for an unregistered attribute word prints a line from which the first pass reads nothing |
| `Emitter.FwdEmitter.Split` | src/compiler/meta_compiler.cpp:889-907 | the splitting loop succeeds exactly when every proper prefix is a namespace and not a type, and then builds the specified line |
| `Emitter.FwdEmitter.EmitFwd` | src/compiler/meta_compiler.cpp:855-909 | one call adds exactly the specified line, if any, and remembers the name; over a run these are the lines of Emitter.ExactlyTheseLines |
| `Emitter.FwdEmitter.EmitAll` | src/compiler/meta_compiler.cpp:854-909 | a run of calls leaves exactly the specified lines |
| `Random.MixBijective` | include/slabflux/compute/reproducible_random.hpp:83-90 | seed mixing has a two-sided inverse on 64-bit words |
| `Random.StirBijective` | include/slabflux/compute/reproducible_random.hpp:100-102 | for every phase the update of the turbulence register has a two-sided inverse |
| `Random.StepBijective` | include/slabflux/compute/reproducible_random.hpp:92-102 | one draw is a bijection of the full state, in both generators |
| `Random.EmitBijective` | include/slabflux/compute/reproducible_random.hpp:104-113 | for every phase the map from register to 64-bit output has a two-sided inverse |
| `Random.PhaseReturns` | include/slabflux/compute/reproducible_random.hpp:92-97 | from any state the phase is back at its start after exactly the multiples of 2^64 draws, of 2^128 in the long form |
| `Random.NoEarlyRepeat` | include/slabflux/compute/reproducible_random.hpp:92-113 | no full state repeats within a period |
| `Random.OutputsEquallyOften` | include/slabflux/compute/reproducible_random.hpp:92-113 | over all states every 64-bit output occurs exactly as often as there are phases |
| `Random.SeedsNeverMeet` | include/slabflux/compute/reproducible_random.hpp:117-127 | generators with different seeds are never in the same state at the same draw |
| `Random.SeedUndone` | include/slabflux/compute/reproducible_random.hpp:117-127 | a fresh generator is three draws behind its seed: undoing three draws gives the registers made of the mixed LSN |
| `Random.Generator.constructor` | include/slabflux/compute/reproducible_random.hpp:174-182 | the constructor leaves the seeded state: mixed seed, then three draws |
| `Random.Generator.MixSeed` | include/slabflux/compute/reproducible_random.hpp:154-161 | the seed mixing statements compute the mixing function and stay within 64 bits |
| `Random.Generator.Generate64` | include/slabflux/compute/reproducible_random.hpp:163-171 | one call takes the state one step and returns the output of the new state |
| `Random.Generator.Next` | include/slabflux/compute/reproducible_random.hpp:130-133 | returns the high 32 bits of a draw |
| `Random.Generator.Next64` | include/slabflux/compute/reproducible_random.hpp:136-138 | returns a whole draw |
| `Journal.WriteAhead` | include/slabflux/bridge/authoritative_bridge.hpp:91-118 | wherever the process is or died: journaled LSNs are consecutive, journaled payloads are the inputs in order, executed frames are a prefix of the journal at most one frame short of it, and the engine is the executed frames folded in order |
| `Journal.BetweenFrames` | include/slabflux/bridge/authoritative_bridge.hpp:91-118 | between frames everything taken in is journaled, executed, marked committed, and broadcast exactly at every LSN divisible by 64 |
| `Journal.BroadcastExactly` | include/slabflux/bridge/authoritative_bridge.hpp:91-118 | between frames the broadcasts are exactly the LSNs handed out that are multiples of 64, in order |
| `Journal.FrameCompletes` | include/slabflux/bridge/authoritative_bridge.hpp:91-118 | seven steps after a frame was taken in, whatever is offered in between and unless the process dies, the frame is journaled, executed and marked as processed under the next LSN |
| `Journal.RunKeeps` | include/slabflux/bridge/authoritative_bridge.hpp:91-118 | the invariant behind these, stage by stage, kept by every step and by a crash |
| `Journal.AuthoritativeBridge.OnRawFrame` | include/slabflux/bridge/authoritative_bridge.hpp:91-118 | one undisturbed frame: journal, LSN, engine, broadcast and commit all move by exactly this frame |
| `Replay.ReplayFeeds` | include/slabflux/compute/replay_manager.hpp:89-97 | replay is the domain step folded over the entries the engine takes, at the LSNs that follow its own |
| `Replay.ConsecutiveIffNoGap` | include/slabflux/compute/replay_manager.hpp:89-97 | whatever the engine: the entries it takes are those with the ids after its LSN, one each, in order and each at its own LSN, if and only if no entry skips an id; stale and repeated entries are harmless; the engine then ends at the largest id |
| `Replay.GapAppliesTwice` | include/slabflux/compute/replay_manager.hpp:89-97 | after a gap any engine processes an entry at an LSN that is not its id, and its repetition again |
| `Replay.ReachesTop` | include/slabflux/compute/replay_manager.hpp:84-97 | an engine that holds the first events of a log ends in the state of the log up to the largest id |
| `Replay.WarmupNeutral` | include/slabflux/compute/replay_manager.hpp:115-132 | ten thousand warm-up events leave the engine as it is, provided a warm-up event does |
| `Replay.SyncReachesLog` | include/slabflux/compute/replay_manager.hpp:84-108 | from any engine that holds the first events, synchronisation over a journal without gaps that reaches the end of the log gives the full-replay state |
| `Replay.CrashRecovery` | include/slabflux/bridge/authoritative_bridge.hpp:91-118 | wherever the bridge dies, whatever its first LSN and whatever the engine: synchronisation leaves exactly the journaled frames beyond the engine's LSN processed in order on top of what the engine held |
| `Replay.RecoversJournal` | include/slabflux/bridge/authoritative_bridge.hpp:91-118 | with LSNs from one, an engine that holds any number of journaled frames is brought to the state in which every journaled frame has run, the one the crash cut off included |
| `Replay.FirstFrameLost` | include/slabflux/core/sf_node_ctx.hpp:68-87 | with LSNs from zero, as this context hands them out, a fresh engine is brought to the state of all journaled frames but the first |
| `Replay.RecoversAllIffNext` | include/slabflux/core/sf_node_ctx.hpp:68-87 | an engine takes every frame of a journal at its own LSN if and only if the journal is empty or its first LSN is one more than the engine's |
| `Replay.Engine.ProcessEvent` | include/slabflux/compute/simd_engine.hpp:421-425 | the LSN moves first and the domain step sees the new one |
| `Replay.Engine.ProcessWarmupGhost` | include/slabflux/compute/simd_engine.hpp:480-487 | the domain step runs on the warm-up event and the LSN stays |
| `Replay.ReplayManager.ReplayAll` | include/slabflux/compute/replay_manager.hpp:84-97 | the read loop reads the whole journal and leaves the specified engine |
| `Replay.ReplayManager.PrimeSilicon` | include/slabflux/compute/replay_manager.hpp:115-132 | the warm-up loop runs exactly ten thousand warm-up events |
| `Replay.ReplayManager.SyncToLive` | include/slabflux/compute/replay_manager.hpp:84-108 | ends in LIVE with the engine replayed and then warmed |
| `Snapshot.ShadowStable` | include/slabflux/compute/snapshot_engine.hpp:125-148 | however calls interleave with the kernel, at most one write is outstanding and no step changes the shadow buffer while it is |
| `Snapshot.TakenUpIff` | include/slabflux/compute/snapshot_engine.hpp:125-135 | a call is taken up exactly if no other is being copied and no write is outstanding; otherwise nothing changes |
| `Snapshot.SubmittedIff` | include/slabflux/compute/snapshot_engine.hpp:137-147 | a call that is taken up and has copied its words, with any kernel steps and calls in between, is submitted as a whole if and only if an entry is free |
| `Snapshot.FileIsSubmittedCall` | include/slabflux/compute/snapshot_engine.hpp:125-148 | once a write has copied every word, header and state in the file are those of the call that was submitted last |
| `Snapshot.RestoreAfterWrite` | include/slabflux/compute/snapshot_engine.hpp:125-156 | restoring then gives the live state of that call, under its LSN header |
| `Snapshot.ResultVouches` | include/slabflux/compute/snapshot_engine.hpp:127-135 | the words a completion counts are those of the submitted call; with the full count the file is that call |
| `Snapshot.WholeIffFullCount` | include/slabflux/compute/snapshot_engine.hpp:127-135 | a completion with a given count leaves the whole submitted call in the file in every run and over every old file if and only if the count is the full length; the code does not look at it |
| `Snapshot.ShortWriteTears` | include/slabflux/compute/snapshot_engine.hpp:127-148 | for every size and every smaller count a run in which the front of the new call is left over the rest of the old file |
| `Snapshot.SnapshotManager.AsyncSnapshot` | include/slabflux/compute/snapshot_engine.hpp:125-148 | returns without any change while a write is outstanding; otherwise reaps the completion, fills the buffer with this call's header and state, and is in flight exactly if an entry was free |
| `Traps.RegistryKept` | include/slabflux/compute/simd_engine.hpp:298-312 | in every run the registry is sorted and holds exactly the accepted traps, equal LSNs in registration order |
| `Traps.FirstSixteen` | include/slabflux/compute/simd_engine.hpp:298-312 | in every run the accepted registrations are the first sixteen, each at the LSN that counts the moves before it |
| `Traps.ExactIffFuture` | include/slabflux/compute/simd_engine.hpp:298-456 | a run compares every accepted trap exactly once, exactly at its LSN, ties in registration order, and none early, if and only if every accepted trap was set for a future LSN |
| `Traps.CursorSplits` | include/slabflux/compute/simd_engine.hpp:298-456 | with future traps only, everything before the cursor has fired at its own LSN and everything behind it is strictly future |
| `Traps.LateSilences` | include/slabflux/compute/simd_engine.hpp:298-456 | once a trap has been accepted for the current or an earlier LSN, no trap ever fires again |
| `Traps.LateExample` | include/slabflux/compute/simd_engine.hpp:298-456 | a trap set for the LSN the engine is at keeps the next one from firing |
| `Traps.Engine.SetDivergenceTrap` | include/slabflux/compute/simd_engine.hpp:298-312 | refuses silently when sixteen are held, otherwise inserts in place behind every trap that is not later |
| `Traps.Engine.Settle` | include/slabflux/compute/simd_engine.hpp:305-311 | the insertion loop moves the new trap down past every strictly later one |
| `Traps.Engine.FireTraps` | include/slabflux/compute/simd_engine.hpp:447-456 | the firing loop compares exactly the traps from the cursor on that are set for the current LSN |
| `Traps.Engine.Process` | include/slabflux/compute/simd_engine.hpp:421-456 | moves the LSN by one and fires what is due |
| `Traps.Engine.ProcessTick` | include/slabflux/compute/simd_engine.hpp:379-419 | moves the LSN by one and fires what is due |
| `Poller.ServedInTime` | include/slabflux/bridge/round_robin_poller.hpp:129-144 | a slot whose conduit stays non-empty is served within as many polls as there are slots, whatever is pushed and bound in between |
| `Poller.ServedDelivers` | include/slabflux/bridge/round_robin_poller.hpp:129-144 | being served hands over exactly the oldest item of that conduit and leaves all others alone |
| `Poller.NothingLost` | include/slabflux/bridge/round_robin_poller.hpp:129-144 | in every run, what was popped from a conduit and what is left in it are what was pushed to it, in order |
| `Poller.FindsNothing` | include/slabflux/bridge/round_robin_poller.hpp:129-144 | a poll takes nothing exactly when every bound conduit is empty |
| `Poller.NullExactly` | include/slabflux/bridge/round_robin_poller.hpp:129-144 | a poll returns null exactly when every bound conduit is empty or the oldest item of the first non-empty one is itself null |
| `Poller.NullItemLost` | include/slabflux/bridge/round_robin_poller.hpp:129-144 | a null item at the head is removed and null returned although an item is left |
| `Poller.NullMeansEmpty` | include/slabflux/bridge/round_robin_poller.hpp:129-144 | when no null was ever pushed, null means that every bound conduit is empty |
| `Poller.RoundRobinPoller.BindTrack` | include/slabflux/bridge/round_robin_poller.hpp:116-123 | binds the slot, and ignores a slot number out of range |
| `Poller.RoundRobinPoller.Poll` | include/slabflux/bridge/round_robin_poller.hpp:129-144 | the scan loop returns and removes exactly what the specification serves and moves the cursor behind it |
| `Switch.FailsExactly` | include/slabflux/bridge/round_robin_switch.hpp:130-143 | a route fails, and then changes nothing, exactly when the item is null or every bound output is full |
| `Switch.OneOutput` | include/slabflux/bridge/round_robin_switch.hpp:130-143 | a route that succeeds puts the item at the end of exactly one queue and changes no other |
| `Switch.SentInTime` | include/slabflux/bridge/round_robin_switch.hpp:130-143 | an output that always has room gets an item within as many successful routes as there are outputs |
| `Switch.Even` | include/slabflux/bridge/round_robin_switch.hpp:130-143 | over any stretch without refusals the numbers of items sent through any two outputs differ by at most one |
| `Switch.RoundRobinSwitch.BindTrack` | include/slabflux/bridge/round_robin_switch.hpp:117-124 | binds the slot, and ignores a slot number out of range |
| `Switch.RoundRobinSwitch.Route` | include/slabflux/bridge/round_robin_switch.hpp:130-143 | the scan loop pushes exactly where the specification says, reports success accordingly and moves the cursor behind it |
| `Envelope.SealedResonates` | include/slabflux/compute/sovereign_signal.hpp:53-107 | for every payload and LSN, validation right after sealing succeeds |
| `Envelope.SingleChange` | include/slabflux/compute/sovereign_signal.hpp:53-107 | changing one cell of a sealed envelope by d is rejected if and only if d times its governing payload cell is nonzero modulo 2^16 |
| `Envelope.EveryChangeCaught` | include/slabflux/compute/sovereign_signal.hpp:53-107 | every change of a cell is caught if and only if its governing payload cell is odd |
| `Envelope.KeyBaseIs` | include/slabflux/compute/sovereign_signal.hpp:67 | the key comes from the lowest 16 bits of both halves of the LSN |
| `Envelope.SharedKey` | include/slabflux/compute/sovereign_signal.hpp:67-71 | two LSNs share the key of a lane exactly if their bases round up to the same even number modulo 2^16 |
| `Envelope.ConjugateTells` | include/slabflux/compute/sovereign_signal.hpp:59-74 | where the partner cell is odd, two LSNs give the same conjugate cell exactly if they share the key |
| `Envelope.ResonantPairs` | include/slabflux/compute/sovereign_signal.hpp:84-99 | the sixteen 32-bit lanes test the same eight pairs twice, and their wrap-around does not matter |
| `Envelope.SovereignSignal.Seal` | include/slabflux/compute/sovereign_signal.hpp:53-79 | writes the specified conjugate and leaves the payload alone |
| `Envelope.SovereignSignal.ValidateAndVaporize` | include/slabflux/compute/sovereign_signal.hpp:84-107 | leaves the envelope untouched and returns true, or zeroes all of it and returns false |
| `Envelope.SovereignSignal.IsVoid` | include/slabflux/compute/sovereign_signal.hpp:110-113 | true exactly when every cell is zero |
| `SpscRing.RefinesQueue` | include/slabflux/bridge/engine_pulse.hpp:117-159 | in every interleaving with stale heads, every step of the bridge is a step of an unbounded first-in first-out queue |
| `SpscRing.SafeAlways` | include/slabflux/bridge/engine_pulse.hpp:117-159 | processed items are a prefix of accepted items, occupancy never exceeds the capacity, positions are the processed items folded in order, and batch LSNs strictly increase |
| `SpscRing.NeverOverwritten` | include/slabflux/bridge/engine_pulse.hpp:117-128 | a slot whose item is not yet given back is never overwritten |
| `SpscRing.RefusedWhenFull` | include/slabflux/bridge/engine_pulse.hpp:117-124 | a send is refused exactly when the ring was full at the moment it read the consumer's head |
| `SpscRing.SendCompletes` | include/slabflux/bridge/engine_pulse.hpp:117-128 | in every interleaving a send that has made its three steps has appended its item if and only if the ring was not full when it read the consumer's head |
| `SpscRing.ConsumeCompletes` | include/slabflux/bridge/engine_pulse.hpp:134-159 | in every interleaving a consume that finds items has processed all items accepted when it read the sender's head, and given their slots back, after as many steps as there are items and five more |
| `SpscRing.RunKeeps` | include/slabflux/bridge/engine_pulse.hpp:117-159 | the invariant behind these, kept by every step of sender, consumer and others drawing LSNs |
| `SpscRing.SpscDataBridge.Send` | include/slabflux/bridge/engine_pulse.hpp:117-128 | called in turn: accepts exactly when there is room and appends the item |
| `SpscRing.SpscDataBridge.Consume` | include/slabflux/bridge/engine_pulse.hpp:134-159 | called in turn: empties the queue, all items processed in order under one fresh LSN; an empty queue draws none |
| `SpscRing.SpscDataBridge.Drain` | include/slabflux/bridge/engine_pulse.hpp:149-153 | the processing loop folds the queued items in order under the given LSN |
| `Context.ExecutionContext.ReserveNext` | include/slabflux/bridge/engine_pulse.hpp:78-90 | hands out consecutive numbers, from one on a new context |
| `TicketRing.GateCounts` | include/slabflux/bridge/conduit_primitives.hpp:138-157 | after m successful claims the version is m modulo 2^32 and the index m modulo the ring size, also once the version has wrapped |
| `TicketRing.ClaimOwnsSlot` | include/slabflux/bridge/conduit_primitives.hpp:138-158 | the step that makes claim number m gives its producer slot m modulo the ring size |
| `TicketRing.ClaimsIff` | include/slabflux/bridge/conduit_primitives.hpp:138-157 | in every interleaving a claim succeeds if and only if the numbers of claims at the reading of the gate and at the claim agree modulo 2^32; otherwise the gate is read again |
| `TicketRing.PeeksHistory` | include/slabflux/bridge/conduit_primitives.hpp:136-178 | at rest, when no producer wrote after as many later claims as the ring has slots, looking k steps back reads the signal claimed k claims ago |
| `TicketRing.PeekSlot` | include/slabflux/bridge/conduit_primitives.hpp:175-178 | the 32-bit and 64-bit wrap-around in the index expression come out as plain subtraction modulo the ring size |
| `TicketRing.OccupancyBound` | include/slabflux/bridge/conduit_primitives.hpp:160-164 | with p producers the element count never exceeds the ring size plus p minus one |
| `TicketRing.OccupancyReached` | include/slabflux/bridge/conduit_primitives.hpp:160-164 | for every ring size and every number of producers a run reaches that bound |
| `TicketRing.CountsWithinIffAlone` | include/slabflux/bridge/conduit_primitives.hpp:160-164 | the count stays within the ring size in all runs if and only if there is at most one producer |
| `TicketRing.OvertakenIsWrong` | include/slabflux/bridge/conduit_primitives.hpp:136-178 | for every ring size and any two or more producers a run at rest in which an overtaken producer has left an older signal as the newest |
| `TicketRing.PeeksRightIffAlone` | include/slabflux/bridge/conduit_primitives.hpp:136-178 | looking back is right at rest in all runs if and only if there is at most one producer |
| `TicketRing.SimdRingBuffer.ProcessSignal` | include/slabflux/bridge/conduit_primitives.hpp:136-172 | called in turn: returns nothing until the ring is full and from then on the oldest signal still held |
| `TicketRing.SimdRingBuffer.PeekHistorical` | include/slabflux/bridge/conduit_primitives.hpp:175-178 | called in turn: the signal k steps before the newest, for everything the ring still holds |
| `Lattice.GcdLoop` | include/slabflux/compute/axiomatic_vector.hpp:91-98 | the loop computes the recursive greatest common divisor |
| `Lattice.MeetIsGreatest` | include/slabflux/compute/axiomatic_vector.hpp:107-109 | what divides the meet is exactly what divides both, for all numbers |
| `Lattice.JoinIsLeast` | include/slabflux/compute/axiomatic_vector.hpp:101-104 | what the join divides is exactly what both divide, for all numbers whose product fits 64 bits |
| `Lattice.Closed` | include/slabflux/compute/axiomatic_vector.hpp:91-109 | the divisors of thirty are closed under join and meet, without overflow |
| `Lattice.LatticeLaws` | include/slabflux/compute/axiomatic_vector.hpp:91-109 | on the divisors of thirty join and meet are commutative, associative and absorb each other, and the order is divisibility |
| `Lattice.JoinHasPrime` | include/slabflux/compute/axiomatic_vector.hpp:101-114 | the join has error 2, 3 or 5 exactly when one of the two has it |
| `Lattice.JoinHas` | include/slabflux/compute/axiomatic_vector.hpp:101-114 | the join has any error, composite or not, exactly when each of its primes is in one of the two |
| `Lattice.JoinGainsComposite` | include/slabflux/compute/axiomatic_vector.hpp:101-114 | a join can have a composite error that neither side has |
| `Lattice.EscalateAdds` | include/slabflux/compute/axiomatic_vector.hpp:122-153 | escalating gives the least state above both, with exactly the prime errors of both, and something can be extracted only when both were free of errors |
| `Lanes.CheckInvariants` | include/slabflux/compute/axiomatic_vector.hpp:170-193 | the checking loop reports 30 exactly for a mask with a hole, 2 for a dirty zero without one, 1 otherwise |
| `Lanes.NoHoleIsPrefix` | include/slabflux/compute/axiomatic_vector.hpp:174-185 | a mask has no hole exactly when it is a run of trues followed by falses |
| `Lanes.Construct` | include/slabflux/compute/axiomatic_vector.hpp:195-219 | copies and pads, and reports 30 exactly when the mask has a hole, 1 exactly when it is a prefix of trues and nothing is missing, 2 otherwise, for every width |
| `Lanes.Add` | include/slabflux/compute/axiomatic_vector.hpp:222-242 | computes the specified sum; unequal widths report 30, equal ones what the check says of the sum |
| `Lanes.SumIsPure` | include/slabflux/compute/axiomatic_vector.hpp:222-242 | pure lanes of one width are closed under addition |
| `Lanes.SumCommutes` | include/slabflux/compute/axiomatic_vector.hpp:222-242 | their addition commutes when element addition does |
| `Lanes.SumAssociates` | include/slabflux/compute/axiomatic_vector.hpp:222-242 | their addition associates when element addition does |
| `Lanes.SumIdentity` | include/slabflux/compute/axiomatic_vector.hpp:222-242 | adding present zeros to a pure lane, on either side, gives that lane back when adding zero does |
| `Lanes.SumAbsorbs` | include/slabflux/compute/axiomatic_vector.hpp:222-242 | adding a lane in which nothing is present leaves nothing present |
| `CausalClock.TokenCarriesMaximum` | include/slabflux/cluster/causal_mesh.hpp:110-163 | for every mix of calls with readings below 2^48, a token shifted right by sixteen is the largest reading so far, also when the counter goes backwards |
| `CausalClock.StalledDistinct` | include/slabflux/cluster/causal_mesh.hpp:116-127 | up to 4096 consecutive stalled replications get pairwise distinct tokens |
| `CausalClock.FourThousandNinetySevenCollide` | include/slabflux/cluster/causal_mesh.hpp:116-127 | the bound is exact: the first and last of 4097 stalled replications can get the same token |
| `CausalClock.TokensOrdered` | include/slabflux/cluster/causal_mesh.hpp:110-163 | for every mix of calls tokens are nondecreasing if and only if within no tick the low bits of a stalled call, scrambled for replications, are below those of the stalled call before it |
| `CausalClock.SecondReplicationOrdered` | include/slabflux/cluster/causal_mesh.hpp:116-127 | the second stalled replication of a tick is ordered behind the first if and only if the first one's reading modulo 16 is none of 0, 3, 4, 5 and 6 |
| `CausalClock.ReplicationsUnordered` | include/slabflux/cluster/causal_mesh.hpp:116-127 | a run in which a later stalled replication of a tick gets a smaller token |
| `CausalClock.BroadcastsOrdered` | include/slabflux/cluster/causal_mesh.hpp:151-163 | a broadcast-only run gives nondecreasing tokens if and only if no tick has more than 65536 stalled calls |
| `CausalClock.FirstStalledRepeats` | include/slabflux/cluster/causal_mesh.hpp:151-163 | in every run the first stalled broadcast behind the draw that opened a tick repeats its token |
| `CausalClock.BroadcastsDistinct` | include/slabflux/cluster/causal_mesh.hpp:151-163 | the tokens of a broadcast-only run are pairwise distinct if and only if every reading is above all before it, but for at most 65536 zero readings at the start |
| `CausalClock.CausalMeshRouter.BindPeer` | include/slabflux/cluster/causal_mesh.hpp:99-103 | binds the peer, and ignores a number out of range |
| `CausalClock.CausalMeshRouter.Replicate` | include/slabflux/cluster/causal_mesh.hpp:110-129 | draws the specified token, or none for a peer out of range or not bound |
| `CausalClock.CausalMeshRouter.BlastToAll` | include/slabflux/cluster/causal_mesh.hpp:151-183 | draws the specified token and offers a copy to every bound peer once, in order |

## Left out

- Concurrent steps are modelled on values: the in-place classes beside them are proved for calls made in turn, so aliasing between threads is captured by the step machines only.
- Memory orders, fences, futexes, back-off loops, prefetching, and any memory weaker than sequential consistency.
- The `consume` loops of the four bridges in include/slabflux/bridge/bridge_sync.hpp, which pop and publish one item after another.
- Wrap-around of the 64-bit sequence word, head counters and LSNs, which are unbounded numbers here; the 32-bit version of the ticketed ring and the 32-bit logical sequence do wrap.
- In the metadata compiler: reading files, the change check, resolution of base names by `qualify`, inheritance edges and context mappings, and everything printed besides forward declarations. Which names are requested, and in which order, is an input.
- Whether the scope stack is right for all of C++: the passes are proved against the grammar the code itself implements; characters outside ASCII are not identifier characters.
- Sockets, io_uring, mmap, NUMA and thread pinning; the journal is an append-only log whose committed frames survive a crash, and the conduits are first-in first-out queues.
- The null slot of a full journal, which `on_raw_frame` dereferences; a free slot is part of the model.
- Floating-point kernels, the sanitizer, divergence analysis, drift smoothing, state hashes and checksums; a fired trap is recorded, what it computes is not.
- Replay.SyncReachesLog: assumes that a warm-up event leaves the domain state alone, because the engine really runs the domain step on it.
- TicketRing.PeeksHistory: for a single run gives one direction only, because an overtaken write can be repaired by a later one to the same slot.
- TicketRing.ClaimOwnsSlot: takes ring sizes that divide 2^32, which are the powers of two a 32-bit index can address.
- Lanes.SumAssociates: takes associativity of the element type as given, because rounding breaks it for floating-point elements.
- CausalClock.TokenCarriesMaximum: takes calls one after another; concurrent draws of tokens are not modelled.
- A kernel that reports more words than it has copied is not part of the snapshot model.
- Snapshot.RestoreAfterWrite: says nothing about a file read while a write is under way, which can be torn.
- The payload size, origin and padding fields of mesh events, backpressure of the pipes and allocation of the copies.
