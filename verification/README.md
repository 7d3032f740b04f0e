# A Dafny model of VERITAS

VERITAS turns the facts of static analyses into content-addressed evidence. This project models the algorithms its
correctness rests on and proves what they are for. Each imperative piece of the system is a class or a method whose
contract ties it to a specification function, and the properties are lemmas about those functions. Byte strings are
Dafny strings with one character per byte. `dafny verify dfyconfig.toml` checks everything.

## What is modelled

- **EIR-T text.** The lexer (`EirLexer`, `EirTokenizer`), the recursive-descent parser (`EirParser`, `EirReader`) and
  the binding-power printer (`EirWriter`, `EirEmitter`) for predicates, property values and entity bodies. Lexing and
  parsing a written predicate gives the predicate back exactly when its connectives are flat and its strings are UTF-8
  (`EirRoundTrip`, `EirUnreadable`); a written entity reads back exactly when it is UTF-8 (`EirEntity`,
  `EirEntityExact`), and so does a written carrier; canonical call spellings are the fixpoints of parsing and
  rendering (`CanonicalCall`, `CarrierExact`, `EirScanner`). `EirPipeline` puts the objects together. What is read is
  also stated without the code that reads it: UTF-8 as the encodings of scalar values (`Utf8Scalars`, `EirUtf8`),
  tokens and the gaps between them as a lexical grammar (`EirSpelling`, `EirGaps`), predicates as a token grammar that
  the parser reads exactly (`EirGrammar`, `EirGrammarExact`, `EirEntityGrammar`), what the writer accepts and where it
  puts parentheses (`EirSayable`, `EirParens`), and splicing as keeping operands, order and truth values
  (`EirMeaning`).
- **Canonical encodings and identities.** The value encoding is prefix-free (`CanonicalValue`) and undone by an
  independent decoder (`CanonicalDecoder`); expressions share canonical bytes exactly when they differ by the order of
  commutative operands (`Canonicalizer`), and a canonical value reads back as its expression (`CanonicalReader`);
  streaming SHA-256 follows FIPS 180-4 for every way of cutting a message into pieces (`Sha256`), with its functions
  stated bit by bit, its constants as roots of primes, and the published digest of `abc` (`Sha256Bits`, `Sha256Roots`,
  `Sha256Answer`); the measured, back-patched preimage of a fact is its pure encoding, determines a valid row, and
  makes the identity memo agree with direct derivation (`FactIdentity`), it can be read back (`FactPreimage`), and the
  rows that have an identity are stated column by column (`FactRows`).
- **The fact batch.** Dense ranks stand in for byte keys (`FactRanks`, `FactAssembly`), and what is assembled ascends
  by key (`FactOrder`); first-owner merging (`FactMerge`, `MergedBatch`); rooted closure and the work-list cycle check
  (`WitnessDag`, `FactBatch`, `FactBus`), so that every accepted fact has a finite proof; delivery to sinks in which
  any store access, sink call or write may fail (`FactBus`). What is stored of a valid batch is what lookups rely on
  (`FactPublished`).
- **Bounded queries.** Pages of facts over an index with row, work and byte limits (`FactLookup`), their budgeted
  union (`FactSelection`), enumeration of simple flow paths, its order and what a slice of it misses (`ValueFlow`,
  `FlowOrder`, `FlowForks`, `FlowDepth`), and the budgeted traversal of the program graph (`CpgTraversal`).
- **Case building and metrics.** The representative chain of an acyclic flow (`FlowChain`), the l0 projection that
  accounts for every member it drops (`CaseProjection`) and what it keeps (`CaseKept`), the two together
  (`CasePaths`), the uncertain aliases a path is stated under and the query they come from (`AliasConditions`,
  `AliasQuery`), the span recorder whose self times add up (`RunMetrics`), and the decimating sample buffer
  (`SeriesBuffer`).

`Basics`, `Numerals`, `Utf8`, `Orders`, `Graphs`, `Expressions`, `Cpg` and `CaseLinks` hold what these share.

## What is assumed, and what is a parameter

- The digest is a function from bytes to ids. Nothing assumes that it is free of collisions: rows are compared where
  the code compares them, and the results hold for every digest. Where ids are stored as texts (`FactPublished`), the
  ids it makes are fact ids of 64 lower-case hexadecimal digits, as those of `Sha256` are.
- The relation registry is a parameter with distinct, non-empty names, and no id column of it has a kind that renders
  as unknown. The encoded semantic key of a row is a parameter; the merge results ask, of the rows in hand, that no
  two share a key or an id.
- Texts, rows and expressions handed to a length-prefixed encoding have lengths below 2^64.
- The store is a set of facts, bindings and index rows. Failures of sink calls and store accesses are a parameter of
  each publication.
- The clock is the time passed to each call.
- The members of a case handed to the projection have distinct ids, across kinds, as the case validator demands.
- The entity kinds and the form of a stable id are a vocabulary that the entity reader and writer share. An
  entity's properties are an ordered map with shape-valid values, and its identity is a stable id.

## Where the code and its promises part

- **First-owner merging can close a loop.** Components that are each sound can merge into a batch the bus refuses:
  when a later component derives a row that an earlier one uses as a declared root, the two proofs can rest on each
  other (`MergedBatch.LateRootCanLoop`). `MergedBatch.MergedBatchAcceptedExactly` gives the exact condition, and
  `MergedBatch.DistinctRootsSuffice` the simple one: no declared root is derived.
- **The sample buffer can lose its first sample.** The header promises that the first sample is never discarded; that
  holds exactly for capacities of at least two (`SeriesBuffer.FirstKeptExactly`).
- **Enumerated flow paths are not always in lexicographic order.** The comment at
  src/evidence/EvidenceQueryService.cpp:375-376 claims that they are. Two parallel edges into a node from which two
  different paths lead on to the same target interleave the enumeration (`FlowForks.EnumerationOutOfOrder`), and
  nothing else does: `FlowForks.OrderedExactly` is the exact condition, ties allowed. Without ties, that is with no
  node sequence enumerated twice, the condition is that no two flow edges run in parallel (`FlowOrder.DistinctExactly`).
- **A flow slice that returns paths can be called complete although deeper paths exist.** The header
  (include/veritas/evidence/SliceTypes.h:45-48) says that complete means nothing further matches, but only an empty
  slice consults reachability (`FlowDepth.CompleteMissesDetour`). A slice without truncation holds every simple path
  exactly when no simple path is deeper than the limit (`ValueFlow.TraverseFlow`), and a limit of one less than the
  number of flow nodes always suffices (`FlowDepth.DepthSuffices`). A query whose source is its sink returns nothing
  and is always marked cut at the depth.
- **The traversal is depth-first and returns at most one path.** Its header speaks of a breadth-first search and of
  completed paths, with no reason meaning complete; the global visited set leaves room for one arrival at the target
  (`CpgTraversal.DiamondTraversed`). `CpgTraversal.Traverse` states what no reason does mean: a path is returned
  exactly when the target is reachable, and nothing is missing exactly when there are no two simple paths.
- **The traversal reports a depth it reached exactly.** The header (include/veritas/cpg/CpgQuery.h:32-34) calls such a
  result complete, but the depth is tested before the visited set (`CpgTraversal.ExactDepthReported`).
  `CpgTraversal.Traverse` says exactly when the depth is reported, and exactly when something is left over.
- **The l0 projection can leave a path's condition dangling.** The builder states the primary path under
  `alias(@left, @right)` for every alias fact that is not MUST (src/evidence/EvidenceCaseBuilder.cpp:1417-1427). The
  projection keeps the path whole but collects the entities to keep from facts and unknowns only, so an alias about
  entities that nothing else keeps leaves references the validator would reject (`CasePaths.ConditionDangles`).
  `AliasConditions.ConditionsKeptExactly` is the exact condition on the built case. It holds whenever every uncertain
  alias mentions the subject or the source (`AliasConditions.AliasesOfTheClaimKept`), which the query service sees to
  by asking for aliases of the subject only (`AliasQuery.StateAliases`).
- **The writer does not check UTF-8.** Such text is written but cannot be read back: `EirUnreadable.RoundTripExactly`
  says so for predicates, `EirEntityExact.WrittenReadsBackExactly` for entities and
  `CarrierExact.CarrierReadsBackExactly` for carriers. Connectives nested in their own kind, which the validator rejects
  (src/evidence/EvidenceValidator.cpp:923-985), are written too, and come back spliced.
- **Invalid rows can share a preimage.** `FactIdentity.SamePreimageExactly` says which; a valid row never does.
- **A property named `stable_id` on an entity without an identity is refused by the writer** wherever it stands, on
  the ground that reading would take it for the identity (src/evidence/EirWriter.cpp:1158-1166). Only a first attribute
  is read so: the refusal prevents a misreading exactly when the property sorts first
  (`EirEntityExact.RefusalNeededExactly`), and `EirEntityExact.RefusedWouldReadBack` is an entity refused for nothing.

## Model

| member | source | states |
|---|---|---|
| Utf8.SequenceLengthMoves | src/evidence/EirLexer.cpp:45-97 | a UTF-8 sequence (section 4 of RFC 3629) is recognised by its own bytes alone, so a literal decodes the same wherever it stands; which bytes those are is `Utf8Scalars.RecognisedExactly` |
| Utf8Scalars.RecognisedExactly | src/evidence/EirLexer.cpp:45-97 | bytes are recognised as a sequence if and only if they are the encoding of a scalar value by the arithmetic of section 3 of RFC 3629: no surrogate, nothing above 10FFFF, no overlong form |
| Utf8Scalars.DecodedOnce | src/evidence/EirLexer.cpp:45-97 | a recognised sequence is the encoding of exactly one scalar value |
| Utf8Scalars.WellFormedExactly | src/evidence/EirLexer.cpp:45-97 | a text passes as UTF-8 if and only if it is the concatenation of the encodings of scalar values |
| Numerals.SpellingReads | src/evidence/EirWriter.cpp:372-399 | every signed 64-bit value reads back from its decimal spelling, both extremes included |
| EirTokenizer.Lexer.Advance | src/evidence/EirLexer.cpp:109-119 | one byte is consumed and the line count and line start stay those of the consumed prefix |
| EirTokenizer.Lexer.SkipLineComment | src/evidence/EirLexer.cpp:151-213 | succeeds exactly when the comment is well-formed UTF-8, and stops at the first newline |
| EirTokenizer.Lexer.SkipBlockComment | src/evidence/EirLexer.cpp:151-213 | succeeds exactly when the comment is closed and well-formed UTF-8, and stops after the first closing mark |
| EirTokenizer.Lexer.SkipWhitespaceAndComments | src/evidence/EirLexer.cpp:151-213 | stops at the next byte that is neither blank nor in a comment, or fails exactly when a comment does |
| EirTokenizer.Lexer.LexIdentifier | src/evidence/EirLexer.cpp:215-236 | the longest qualified identifier: a dot goes on only before a letter |
| EirTokenizer.Lexer.LexIntegerLiteral | src/evidence/EirLexer.cpp:305-330 | accepts exactly the digit runs whose value fits in a signed 64-bit integer |
| EirTokenizer.Lexer.LexString | src/evidence/EirLexer.cpp:238-303 | the decoded text and the end of the literal, refusing unknown escapes, unterminated literals and ill-formed UTF-8 |
| EirTokenizer.Lexer.LexToken | src/evidence/EirLexer.cpp:332-413 | the one token that begins at the cursor, or a refusal exactly when none does |
| EirTokenizer.Lexer.Tokenize | src/evidence/EirLexer.cpp:415-436 | exactly the tokens of the positional lexer, each with its true byte offset, line and column, at strictly ascending offsets, closed by one end token |
| EirUtf8.LexedIsUtf8 | src/evidence/EirLexer.cpp:45-97 | whatever text the lexer accepts, comments and string literals included, is well-formed UTF-8 |
| EirSpelling.NamesExactly | src/evidence/EirWriter.cpp:128-151 | a text is one qualified identifier if and only if it is dot-separated segments, each a letter or underscore and then letters, digits and underscores |
| EirSpelling.TakenIsSpelled | src/evidence/EirLexer.cpp:215-413 | whatever the lexer takes at a position is a spelling, by the lexical grammar, of the token it returns |
| EirSpelling.SpelledIsTaken | src/evidence/EirLexer.cpp:215-413 | every spelling of a token is taken back as that token when nothing behind it continues it |
| EirGaps.SkippedIsGap | src/evidence/EirLexer.cpp:151-213 | what is skipped between tokens is blanks, line comments and closed block comments |
| EirGaps.GapIsSkipped | src/evidence/EirLexer.cpp:151-213 | every such gap is skipped, up to where the next token begins |
| EirGaps.LexedIsSpelled | src/evidence/EirLexer.cpp:415-436 | an accepted text is an alternation of gaps and spellings, and its tokens are those spelled |
| EirGaps.GapsDoNotMatter | src/evidence/EirLexer.cpp:151-213 | texts that differ only in a gap between two tokens have the same tokens |
| EirGrammar.PredicateDerived | src/evidence/EirParser.cpp:2134-2371 | whatever the parser reads, the tokens it consumed derive by the grammar: quantifiers, implication, or, and, comparison, not and primary, in this order of binding |
| EirGrammarExact.PredicateParses | src/evidence/EirParser.cpp:2134-2371 | whatever the grammar derives, the parser reads, if the token behind it continues nothing |
| EirGrammarExact.GrammarExactly | src/evidence/EirParser.cpp:2134-2496 | up to a token that continues nothing, the parser reads a predicate if and only if the grammar derives it |
| EirGrammarExact.TextExactly | src/evidence/EirParser.cpp:2134-2496 | a text is read as a predicate if and only if its tokens derive it; no text has two readings |
| EirGrammarExact.ValueParses | src/evidence/EirParser.cpp:2375-2475 | whatever the grammar derives as a property value, the parser reads |
| EirGrammar.ValueDerived | src/evidence/EirParser.cpp:2375-2475 | whatever the parser reads as a property value, its tokens derive |
| EirTokens.PredicateLexes | src/evidence/EirWriter.cpp:711-911 | every predicate with UTF-8 strings that the writer accepts lexes to the token sequence of its structure, at any nesting |
| EirRoundTrip.FlattenFlat | src/evidence/EirParser.cpp:190-206 | splicing leaves an expression whose connectives are already flat as it is |
| EirRoundTrip.FlattenIsFlat | src/evidence/EirParser.cpp:190-206 | splicing leaves no connective directly under one of its own kind |
| EirMeaning.FlattenKeepsMeaning | src/evidence/EirParser.cpp:190-206 | splicing keeps the truth value of every expression under every model of its atoms |
| EirMeaning.FlattenKeepsTerms | src/evidence/EirParser.cpp:190-206 | splicing keeps the maximal operands that are not of the connective, all of them and in order |
| EirMeaning.FlattenedNode | src/evidence/EirParser.cpp:190-206 | a spliced connective is one node over exactly those operands |
| EirMeaning.ChainMeans | src/evidence/EirParser.cpp:2166-2204 | what a chain parses to means the conjunction or disjunction of its operands |
| EirMeaning.ChainHasTerms | src/evidence/EirParser.cpp:2166-2204 | what a chain parses to has exactly the operands of its parts, in order |
| EirMeaning.TextKeepsMeaning | src/evidence/EirWriter.cpp:665-911 | an expression and what its text reads back as have the same truth value under every model |
| EirRoundTrip.ParsesPredicate | src/evidence/EirParser.cpp:2134-2371 | in every position of the precedence chain the tokens of a predicate parse to that predicate, spliced, and stop right behind it |
| EirRoundTrip.PredicateRoundTrip | src/evidence/EirWriter.cpp:665-911 | every shape-valid predicate with UTF-8 strings that the writer accepts reads back as itself with its connectives spliced |
| EirUnreadable.RoundTripExactly | src/evidence/EirWriter.cpp:665-911 | an accepted predicate reads back as itself if and only if its connectives are flat and its strings are UTF-8, and reads back at all if and only if its strings are UTF-8 |
| EirSayable.AcceptedExactly | src/evidence/EirWriter.cpp:711-911 | the writer accepts a predicate, in whatever position, if and only if its names are identifiers that are no keyword where a keyword would be read, its domains are calls or references, and no operand is missing |
| EirSayable.ValueAcceptedExactly | src/evidence/EirWriter.cpp:847-911 | it accepts a property value if and only if it is made of literals, references, names other than the booleans and calls |
| EirSayable.EntityAcceptedExactly | src/evidence/EirWriter.cpp:1147-1184 | it accepts an entity if and only if id, kind, keys and values have a spelling and no property is named `stable_id` without an identity |
| EirParens.NegationPlaced | src/evidence/EirWriter.cpp:711-840 | under `not`, comparisons, chains, implications and quantifications stand in parentheses and nothing else does |
| EirParens.ComparisonPlaced | src/evidence/EirWriter.cpp:711-840 | under a comparison the same, on both sides |
| EirParens.ChainPlaced | src/evidence/EirWriter.cpp:711-840 | under `and` stand chains, implications and quantifications in parentheses, under `or` all of these but `and` |
| EirParens.ImplicationPlaced | src/evidence/EirWriter.cpp:711-840 | under an implication stand quantifications in parentheses, and on its left implications |
| EirParens.ArgumentsPlaced | src/evidence/EirWriter.cpp:888-911 | arguments of a call stand in no parentheses of their own |
| EirEmitter.Writer.StringLiteral | src/evidence/EirWriter.cpp:507-537 | appends the quoted text, whose decoding by the lexer is the text itself for UTF-8 |
| EirEmitter.Writer.Identifier | src/evidence/EirWriter.cpp:542-555 | writes exactly the texts that are one qualified identifier, and refuses every other |
| EirEmitter.Writer.Reference | src/evidence/EirWriter.cpp:559-571 | writes an at-sign and the identifier, or refuses |
| EirEmitter.Writer.Predicate | src/evidence/EirWriter.cpp:711-840 | appends the spelling the round trip is proved for, parenthesised exactly when it binds more loosely than its position, or latches a refusal |
| EirEmitter.Writer.Bare | src/evidence/EirWriter.cpp:711-840 | the same without parentheses, for every kind of expression |
| EirEmitter.Writer.PredicateCall | src/evidence/EirWriter.cpp:888-911 | a call in predicate position: reserved callee names are refused, arguments stand at the lowest power |
| EirEmitter.Writer.Negation | src/evidence/EirWriter.cpp:711-840 | `not` with its operand at the power of a negation |
| EirEmitter.Writer.Comparison | src/evidence/EirWriter.cpp:711-840 | both operands above the power of a comparison, so that comparisons do not associate |
| EirEmitter.Writer.Connective | src/evidence/EirWriter.cpp:711-840 | operands above the power of the connective, joined by its word |
| EirEmitter.Writer.Implication | src/evidence/EirWriter.cpp:711-840 | the left operand above the power of an implication, the right one at it |
| EirEmitter.Writer.Quantified | src/evidence/EirWriter.cpp:711-840 | variable, domain and body; the body stands at the lowest power |
| EirEmitter.Writer.Domain | src/evidence/EirWriter.cpp:711-840 | a quantifier domain is a call or a reference; anything else is refused |
| EirEmitter.Writer.List | src/evidence/EirWriter.cpp:711-840 | operands one after the other, or a refusal exactly when one of them has no spelling |
| EirEmitter.Writer.Value | src/evidence/EirWriter.cpp:847-881 | a property value; a compound, and a symbol that would be read as a boolean, has no spelling |
| EirEmitter.Writer.Values | src/evidence/EirWriter.cpp:888-911 | the arguments of a call in value position |
| EirReader.Parser.ReadIdentifier | src/evidence/EirParser.cpp:481-487 | the next identifier, or a refusal |
| EirReader.Parser.ReadReference | src/evidence/EirParser.cpp:498-510 | an at-sign and an identifier, or a refusal |
| EirReader.Parser.ReadInteger | src/evidence/EirParser.cpp:2608-2625 | the 64-bit value of an integer token |
| EirReader.Parser.Predicate | src/evidence/EirParser.cpp:2134-2142 | accepts, consumes and builds exactly what the positional parser does, for every token list closed by an end token |
| EirReader.Parser.Implication | src/evidence/EirParser.cpp:2144-2164 | the same for implications, which associate to the right |
| EirReader.Parser.Chain | src/evidence/EirParser.cpp:2166-2204 | the same for a chain of `or` or `and`, spliced into one connective; that splicing keeps operands, order and meaning is `EirMeaning.ChainHasTerms` and `EirMeaning.ChainMeans` |
| EirReader.Parser.Operand | src/evidence/EirParser.cpp:2166-2204 | the same for one operand of a chain, which always consumes something |
| EirReader.Parser.Comparison | src/evidence/EirParser.cpp:2206-2239 | the same for comparisons: one operator at most, and a chained comparison is refused |
| EirReader.Parser.Unary | src/evidence/EirParser.cpp:2241-2253 | the same for negations |
| EirReader.Parser.Quantified | src/evidence/EirParser.cpp:2255-2310 | the same for quantifiers, whose body reaches as far as it can |
| EirReader.Parser.Domain | src/evidence/EirParser.cpp:2255-2310 | the same for quantifier domains |
| EirReader.Parser.Primary | src/evidence/EirParser.cpp:2312-2371 | the same for parentheses, literals, references, names and calls |
| EirReader.Parser.ArgumentList | src/evidence/EirParser.cpp:2477-2496 | the same for predicate arguments, up to a closing parenthesis that is not consumed |
| EirReader.Parser.Value | src/evidence/EirParser.cpp:2375-2417 | the same for property values |
| EirReader.Parser.ValueList | src/evidence/EirParser.cpp:2460-2475 | the same for the arguments of a property value |
| EirEntity.EntityLexes | src/evidence/EirWriter.cpp:1147-1184 | every UTF-8 entity that has a spelling lexes to the tokens of its declaration |
| EirEntity.EntityRoundTrip | src/evidence/EirParser.cpp:926-1013 | every UTF-8 entity with a spelling whose first property is not a `stable_id` without an identity reads back as itself: identity, kind, order and values of its properties |
| EirEntity.FirstStableIdIsIdentity | src/evidence/EirParser.cpp:965-1013 | a body whose first attribute is named `stable_id` gives the entity an identity or is refused |
| EirEntity.LeadingIsTaken | src/evidence/EirWriter.cpp:1158-1166 | an identity-free entity led by a `stable_id` property, spelled as it stands, never reads back without an identity |
| EirEntity.IdentityStays | src/evidence/EirParser.cpp:965-1013 | no later attribute changes the identity |
| EirEntityGrammar.EntityExactly | src/evidence/EirParser.cpp:926-1013 | tokens are read as an entity if and only if they are a heading with a known kind and a body of attributes with distinct keys, of which only the first can be the identity; the bag is those attributes in ascending order of key |
| EirEntityExact.SpelledReadsBackExactly | src/evidence/EirWriter.cpp:1147-1184 | spelled without the refusal, a shape-valid entity reads back as itself if and only if its identity and strings are UTF-8 and it is not led by a `stable_id` property without an identity |
| EirEntityExact.WrittenReadsBackExactly | src/evidence/EirWriter.cpp:1147-1184 | a shape-valid entity the writer accepts reads back as itself, and reads back at all, if and only if its identity and all its strings are UTF-8 |
| EirEntityExact.RefusalNeededExactly | src/evidence/EirWriter.cpp:1158-1166 | refusing an identity-free UTF-8 entity that has a `stable_id` property prevents a misreading if and only if that property is the first |
| EirEntityExact.RefusedWouldReadBack | src/evidence/EirWriter.cpp:1158-1166 | for every entity kind, an entity with properties `a` and `stable_id` is refused although its spelling reads back as itself |
| EirPipeline.TokenizeText | src/evidence/EirLexer.cpp:415-436 | the tokens the parser is given are those of the whole text |
| EirPipeline.ReadPredicateText | src/evidence/EirParser.cpp:2134-2371 | lexer object and parser object together read exactly what the positional reader reads |
| EirPipeline.WritePredicateText | src/evidence/EirWriter.cpp:711-911 | the writer object on a fresh buffer gives the spelling or refuses, with nothing left over |
| EirPipeline.PredicateThroughText | src/evidence/EirWriter.cpp:711-911 | writing, lexing and parsing with the three objects gives the predicate back if and only if it is flat and its strings are UTF-8 |
| EirPipeline.EmitProperty | src/evidence/EirWriter.cpp:1072-1082 | one property line, or a refusal exactly when key or value has no spelling |
| EirPipeline.EmitProperties | src/evidence/EirWriter.cpp:1147-1184 | all property lines in key order |
| EirPipeline.EmitIdentity | src/evidence/EirWriter.cpp:1147-1184 | the identity line, written before any property |
| EirPipeline.EmitEntity | src/evidence/EirWriter.cpp:1147-1184 | the whole declaration, or a refusal exactly when a part of it has no spelling |
| EirPipeline.TakeAttribute | src/evidence/EirParser.cpp:965-1013 | one attribute: the first may bind the identity, every other is a property whose key is new |
| EirPipeline.TakeBody | src/evidence/EirParser.cpp:965-1013 | every attribute up to the closing brace |
| EirPipeline.TakeEntity | src/evidence/EirParser.cpp:926-1013 | heading and body, refusing an unknown kind |
| EirPipeline.ReadEntityText | src/evidence/EirParser.cpp:926-1013 | lexer object and parser object together read exactly the entities the positional reader reads |
| EirPipeline.EntityThroughText | src/evidence/EirParser.cpp:926-1013 | an entity written by the writer object and read by the lexer and parser objects is itself, and is read at all, if and only if its identity and strings are UTF-8 |
| EirPipeline.EmitCarrier | src/evidence/EirWriter.cpp:592-622 | a carrier is written unchanged exactly when it is a canonical call, or a bare name where one may be, and has no line break |
| CanonicalCall.AcceptedIsFixpoint | src/evidence/EirWriter.cpp:223-403 | every UTF-8 text the scanner accepts parses to a call that renders back to the identical text |
| CanonicalCall.RenderedIsAccepted | src/evidence/EirParser.cpp:231-276 | every renderable call is accepted by the scanner |
| CarrierExact.ReadIsNamed | src/evidence/EirParser.cpp:2375-2417 | every value the reader returns is made of atoms and calls whose names are identifiers |
| CarrierExact.ParsedIsAcceptedExactly | src/evidence/EirParser.cpp:231-276 | the rendering of a call that was parsed is accepted by the scanner if and only if none of its string arguments has a line break |
| CanonicalCall.CarrierRoundTrip | src/evidence/EirParser.cpp:2419-2439 | every UTF-8 carrier the writer emits reads back as the identical string |
| CarrierExact.CarrierReadsBackExactly | src/evidence/EirParser.cpp:2419-2439 | a carrier the writer emits reads back as the identical string, and reads back at all, if and only if it is UTF-8 |
| EirScanner.ConsumeSegment | src/evidence/EirWriter.cpp:128-151 | stops at the first byte that is no letter, digit or underscore |
| EirScanner.TestIdentifier | src/evidence/EirWriter.cpp:128-151 | holds exactly when the lexer would take the whole text as one identifier |
| EirScanner.ParseInteger | src/evidence/EirWriter.cpp:372-399 | the digit-by-digit accumulation with its overflow guards gives the exact signed 64-bit value, or refuses exactly when there is none |
| EirScanner.CanonicalCallScanner.ScanIdentifier | src/evidence/EirWriter.cpp:244-260 | taking the run of identifier bytes and shortening it finds the lexer's longest identifier |
| EirScanner.CanonicalCallScanner.ScanString | src/evidence/EirWriter.cpp:315-345 | accepts exactly the literals that carry no line break and only the escapes the renderer writes |
| EirScanner.CanonicalCallScanner.ScanInteger | src/evidence/EirWriter.cpp:347-366 | accepts exactly the integers spelled as the renderer would spell them |
| EirScanner.CanonicalCallScanner.ScanCall | src/evidence/EirWriter.cpp:262-286 | a callee and values separated by a comma and one space |
| EirScanner.CanonicalCallScanner.ScanValue | src/evidence/EirWriter.cpp:288-313 | a string, an integer, a call or a bare name |
| EirScanner.CanonicalCallScanner.Scan | src/evidence/EirWriter.cpp:223-228 | holds exactly for the canonical call spellings |
| CanonicalValue.U64Injective | src/core/CanonicalValue.cpp:37-41 | eight big-endian bytes determine the number |
| CanonicalValue.I64Injective | src/core/CanonicalValue.cpp:43-47 | the bytes of a signed integer determine it |
| CanonicalValue.EncodePrefixFree | src/core/CanonicalValue.cpp:33-144 | at any nesting of arrays, objects and paths, an encoding determines its value and where it ends |
| CanonicalValue.EncodeInjective | src/core/CanonicalValue.cpp:33-144 | two values with the same bytes are the same value |
| CanonicalDecoder.DecodesEncoded | src/core/CanonicalValue.cpp:23-144 | an independent decoder with its own tag tables, big-endian numbers and two's complement takes every sized value back from its encoding and leaves what follows |
| CanonicalDecoder.DecodedWasEncoded | src/core/CanonicalValue.cpp:23-144 | whatever that decoder accepts is the encoding of the value it returns |
| CanonicalValue.AppendU64 | src/core/CanonicalValue.cpp:37-41 | the shifting loop appends the big-endian bytes |
| CanonicalValue.AppendString | src/core/CanonicalValue.cpp:49-54 | appends the length and the bytes |
| CanonicalValue.EncodeArray | src/core/CanonicalValue.cpp:85-97 | the loop over elements gives the encoding that is proved injective |
| CanonicalValue.EncodeObject | src/core/CanonicalValue.cpp:99-112 | the loop over fields gives the encoding that is proved injective |
| CanonicalValue.EncodeValue | src/core/CanonicalValue.cpp:123-144 | the dispatch gives the encoding that is proved injective and that `CanonicalDecoder.Decode` takes back |
| Canonicalizer.KindNamesDiffer | src/evidence/EvidenceCanonicalizer.cpp:49-81 | no two expression kinds share a canonical name |
| Canonicalizer.ReorderedIsCanonical | src/evidence/EvidenceCanonicalizer.cpp:155-248 | reordering the operands of `and` and `or`, at any depth, leaves the canonical value as it is |
| Canonicalizer.CanonicalIsReordered | src/evidence/EvidenceCanonicalizer.cpp:155-248 | expressions with the same canonical value differ by such a reordering only |
| CanonicalReader.CanonicalReads | src/evidence/EvidenceCanonicalizer.cpp:49-81 | a canonical value, read field by field by name, gives the expression back with the operands of `and` and `or` in ascending order of encoding |
| CanonicalReader.ReadWasCanonical | src/evidence/EvidenceCanonicalizer.cpp:204-248 | a value that reads as an expression with ascending operands is the canonical value of that expression |
| Canonicalizer.SameBytesExactlyWhenReordered | src/evidence/EvidenceCanonicalizer.cpp:155-248 | two expressions have the same canonical bytes if and only if one is the other with operands of `and` and `or` reordered at any depth |
| Canonicalizer.SortedArrayForgetsOrder | src/evidence/EvidenceCanonicalizer.cpp:99-138 | a collection sorted by key and encoding does not depend on the order its members were added in |
| Sha256.Expand | src/core/Hash.cpp:53-95 | the message schedule of section 6.2.2 of FIPS 180-4 |
| Sha256.RunRounds | src/core/Hash.cpp:53-95 | the sixty-four rounds, each as `Sha256Bits.RoundMoves` states and with the constants of `Sha256Roots.RoundConstantsAreRoots` |
| Sha256Bits.ChChooses | src/core/Hash.cpp:71-73 | each bit of Ch is that of the second word where the first has a one, and that of the third elsewhere |
| Sha256Bits.MajDecides | src/core/Hash.cpp:74-76 | each bit of Maj is the one that at least two words have |
| Sha256Bits.Rotates | src/core/Hash.cpp:49-51 | rotating right by n moves bit i + n, modulo 32, to bit i |
| Sha256Bits.BigSigma0Bits | src/core/Hash.cpp:74-74 | each bit is the parity of the bits 2, 13 and 22 places on, around the word |
| Sha256Bits.BigSigma1Bits | src/core/Hash.cpp:71-71 | each bit is the parity of the bits 6, 11 and 25 places on, around the word |
| Sha256Bits.SmallSigma0Bits | src/core/Hash.cpp:62-62 | each bit is the parity of the bits 7 and 18 places on, around the word, and 3 places on within it |
| Sha256Bits.SmallSigma1Bits | src/core/Hash.cpp:63-63 | each bit is the parity of the bits 17 and 19 places on, around the word, and 10 places on within it |
| Sha256Bits.RoundMoves | src/core/Hash.cpp:70-85 | a round moves six words one place and makes the two new ones from the schedule, the constant, Ch, Maj and the two sums |
| Sha256Roots.PrimesListed | src/core/Hash.cpp:30-47 | the numbers the constants come from are exactly the primes below 312 |
| Sha256Roots.PrimesAscend | src/core/Hash.cpp:30-47 | and they are taken in ascending order |
| Sha256Roots.RoundConstantsAreRoots | src/core/Hash.cpp:30-42 | each round constant is the first 32 bits of the fractional part of the cube root of its prime (section 4.2.2 of FIPS 180-4) |
| Sha256Roots.InitialStateIsRoots | src/core/Hash.cpp:44-47 | each initial word is the first 32 bits of the fractional part of the square root of its prime (section 5.3.3 of FIPS 180-4) |
| Sha256Answer.DigestOfAbc | src/core/Hash.cpp:164-168 | the digest of `abc` is the one that FIPS 180-4 publishes |
| Sha256.ProcessBlock | src/core/Hash.cpp:53-95 | folds one block into the state in place |
| Sha256.HashConcat | src/core/Hash.cpp:103-133 | hashing blocks in two goes is hashing them in one |
| Sha256.Hasher.Begin | src/core/Hash.cpp:103-133 | a partly filled block is topped up, and folded in exactly when full |
| Sha256.Hasher.WholeBlocksOf | src/core/Hash.cpp:103-133 | whole blocks are folded straight from the input, leaving less than one |
| Sha256.Hasher.Keep | src/core/Hash.cpp:103-133 | the remainder is kept for the next piece |
| Sha256.Hasher.Update | src/core/Hash.cpp:103-133 | whatever came before, the hasher then stands for the message extended by the piece |
| Sha256.BitLengthExact | src/core/Hash.cpp:135-162 | below 2^61 bytes the wrapped byte count still gives the exact bit length |
| Sha256.LastBlocks | src/core/Hash.cpp:135-162 | the padded last one or two blocks of section 5.1.1 of FIPS 180-4 |
| Sha256.WriteLength | src/core/Hash.cpp:135-162 | the bit length, big-endian, in the last eight bytes and nowhere else |
| Sha256.Serialize | src/core/Hash.cpp:135-162 | the state words as big-endian bytes |
| Sha256.Hasher.Finalize | src/core/Hash.cpp:135-162 | the digest of the whole message, without changing the hasher |
| Sha256.ComputeSha256 | src/core/Hash.cpp:164-168 | the one-shot digest is the block fold over the padded message |
| Sha256.ComputeStreaming | src/core/Hash.cpp:103-168 | however a message is cut into pieces, the digest is that of the whole message |
| FactIdentity.RenderedInjective | src/facts/AnalysisFact.cpp:197-220 | a rendered id determines its digest and the text of its kind |
| FactIdentity.SamePreimageExactly | src/facts/AnalysisFact.cpp:197-375 | two rows share a preimage if and only if their cells are alike and their relations are equal or both unknown to the registry |
| FactIdentity.ValidPreimageUnique | src/facts/AnalysisFact.cpp:197-375 | the preimage of a valid row is the preimage of no other row, valid or not |
| FactPreimage.ParsedExactly | src/core/Ids.cpp:122-156 | a text parses as an id if and only if it is that id's rendering, the kind is one of the table and the digest is 64 lower-case hexadecimal digits |
| FactPreimage.PreimageReads | src/facts/AnalysisFact.cpp:299-359 | a reader with its own kind table takes relation and cells back from the preimage of every sized row |
| FactPreimage.ReadWasPreimage | src/facts/AnalysisFact.cpp:299-359 | whatever that reader accepts is the preimage of the row it returns |
| FactIdentity.BackPatched | src/facts/AnalysisFact.cpp:276-291 | patching the length over the reserved bytes gives the length-prefixed form |
| FactIdentity.PreimageCursor.Put | src/facts/AnalysisFact.cpp:242-262 | appends when there is room; otherwise it clamps and stores nothing |
| FactIdentity.PreimageCursor.BeginField | src/facts/AnalysisFact.cpp:276-280 | reserves eight bytes and remembers where |
| FactIdentity.PreimageCursor.EndField | src/facts/AnalysisFact.cpp:282-291 | the reserved bytes become the length of all that followed, and nothing else changes |
| FactIdentity.PreimageCursor.LenPrefixed | src/facts/AnalysisFact.cpp:293-297 | appends a length-prefixed text |
| FactIdentity.PreimageCursor.IdField | src/facts/AnalysisFact.cpp:299-343 | appends a rendered id as one back-patched field |
| FactIdentity.PreimageCursor.Cell | src/facts/AnalysisFact.cpp:299-343 | appends the tag and payload of a cell |
| FactIdentity.PreimageCursor.WriteRow | src/facts/AnalysisFact.cpp:353-359 | measuring or writing, one walk yields the pure length-prefixed encoding |
| FactIdentity.PreimageSize | src/facts/AnalysisFact.cpp:363-367 | the measuring walk ends at the length of the encoding |
| FactIdentity.WritePreimage | src/facts/AnalysisFact.cpp:371-375 | writing into a buffer of the measured size never clamps and fills it with the encoding |
| FactIdentity.DeriveFactId | src/facts/AnalysisFact.cpp:447-454 | the identity of a valid row, or the reason it is invalid; which rows those are is `FactRows.IdentifiedExactly` |
| FactRows.IdentifiedExactly | src/facts/AnalysisFact.cpp:89-173 | a row is identified if and only if its relation is known, it has a cell of the right domain in every column and its range is canonical, and each rejection is given exactly when it is the first fault from the left |
| FactRows.OneFirstFault | src/facts/AnalysisFact.cpp:89-173 | a row has at most one first fault, and none exactly when it fits |
| FactIdentity.FactIdentityMemo.Identify | src/facts/AnalysisFact.cpp:456-471 | whatever was asked before, the answer is that of direct derivation, rejections included, and no remembered answer changes |
| FactIdentity.IdentifyAll | src/facts/AnalysisFact.cpp:456-471 | every sequence of questions is answered as direct derivation answers it |
| FactRanks.FactRanks.Intern | src/facts/AnalysisFactBus.cpp:159-171 | equal bytes always get the same id and different bytes different ids |
| FactRanks.FactRanks.Finish | src/facts/AnalysisFactBus.cpp:181-198 | afterwards the ranks order the ids as their bytes compare |
| FactRanks.RanksSeparate | src/facts/AnalysisFactBus.cpp:181-198 | a smaller rank means smaller bytes, and equal ranks equal bytes, both ways |
| FactRanks.RanksCompare | src/facts/AnalysisFactBus.cpp:181-198 | counting changes of key along the sorted ids compares as the keys do |
| FactRanks.RankAll | src/facts/AnalysisFactBus.cpp:181-198 | the ranks of a list of keys order it as byte order does |
| FactAssembly.ClaimFacts | src/facts/AnalysisFactBus.cpp:321-330 | each fact goes to the first component that has it; the keys of the others are noted as overridden |
| FactAssembly.KeepWitnesses | src/facts/AnalysisFactBus.cpp:331-352 | a component keeps the witnesses of exactly the facts it was not overridden for |
| FactAssembly.GatherAll | src/facts/AnalysisFactBus.cpp:302-363 | the ownership pass over all components, through interned ids, is the pass over the keys themselves |
| FactAssembly.FactsRankAsKeys | src/facts/AnalysisFactBus.cpp:369-395 | sorting facts by rank is sorting them by encoded key, ties included |
| FactAssembly.WitnessesRankAsKeys | src/facts/AnalysisFactBus.cpp:369-410 | sorting witnesses by the ranks of result, rule and input and by ordinal is sorting them by the keys |
| FactAssembly.Assemble | src/facts/AnalysisFactBus.cpp:275-417 | the batch assembled through ranks is the batch assembled by comparing keys |
| FactOrder.AssembledAscends | src/facts/AnalysisFactBus.cpp:283-417 | expected and completed components, roots, facts and diagnostics ascend by their keys, and witnesses by result key, rule, input key and position, in this order |
| FactOrder.AssembledHolds | src/facts/AnalysisFactBus.cpp:275-417 | expected components, roots, component headings and diagnostics are those of the run, each as often, and the batch id is that of the content |
| FactAssembly.AssemblyIgnoresArrival | src/facts/AnalysisFactBus.cpp:275-417 | components finishing in any order make the same batch, batch id included; when two completions carry one key, the batch of either order is invalid |
| FactAssembly.RepeatedKeyRefused | src/facts/AnalysisFactBus.cpp:275-449 | a run in which two completions carry one key never makes a valid batch |
| FactMerge.GatherKeepsFacts | src/facts/AnalysisFactBus.cpp:302-330 | the merged facts are exactly those that no earlier component has |
| FactMerge.GatherKeepsWitnesses | src/facts/AnalysisFactBus.cpp:318-352 | the merged witnesses are exactly those of facts their component owns |
| MergedBatch.MergeKeepsOwnersWitnesses | src/facts/AnalysisFactBus.cpp:283-363 | for each fact the merge keeps all of its owner's witnesses and no other component's |
| MergedBatch.MergePublishesAll | src/facts/AnalysisFactBus.cpp:283-363 | a row is published exactly when some component derives it |
| MergedBatch.MergedAcyclicExactly | src/facts/AnalysisFactBus.cpp:530-564 | components that are each sound merge into an acyclic proof if and only if there is no late loop |
| MergedBatch.MergedBatchAcceptedExactly | src/facts/AnalysisFactBus.cpp:275-564 | the bus accepts the assembled batch of sound components if and only if no owned witness rests on a fact of a later component that itself rests on the witness's result |
| MergedBatch.DistinctRootsSuffice | src/facts/AnalysisFactBus.cpp:275-564 | in particular it accepts whenever no declared root is derived by a component |
| MergedBatch.LateRootCanLoop | src/facts/AnalysisFactBus.cpp:275-564 | two sound components, the later of which derives the root the earlier one rests on, are refused together |
| WitnessDag.Tabulate | src/facts/AnalysisFactBus.cpp:538-545 | the dependency lists and the count of unprocessed inputs of every fact |
| WitnessDag.Sources | src/facts/AnalysisFactBus.cpp:546-552 | the initial work list is exactly the facts that wait for nothing |
| WitnessDag.CountOff | src/facts/AnalysisFactBus.cpp:553-561 | processing a fact counts down each dependent once per edge and lists those left waiting for nothing |
| WitnessDag.Released | src/facts/AnalysisFactBus.cpp:553-561 | processing a fact lowers a dependent's count by the number of edges between them |
| WitnessDag.Decides | src/facts/AnalysisFactBus.cpp:562-564 | the work list holds every fact if and only if the graph has no cycle |
| WitnessDag.IsAcyclic | src/facts/AnalysisFactBus.cpp:530-564 | the work-list algorithm accepts exactly the acyclic witness graphs |
| FactBatch.EveryFactProved | src/facts/AnalysisFactBus.cpp:451-566 | in an accepted batch every fact has a finite proof tree whose leaves are declared rooted inputs |
| FactBatch.UnprovableRestsOnUnprovable | src/facts/AnalysisFactBus.cpp:479-534 | in a closed batch a fact without a proof rests on another fact without one |
| FactBus.SetOf | src/facts/AnalysisFactBus.cpp:435-446 | the set of a list, and whether the list repeats an element |
| FactBus.CheckComponents | src/facts/AnalysisFactBus.cpp:434-449 | accepts exactly when each expected component completed once and no other did, and otherwise names the fault in the order of the checks |
| FactBus.IndexFacts | src/facts/AnalysisFactBus.cpp:461-477 | accepts exactly when every fact carries the identity of its row and no two share one, and otherwise names a fault that is there |
| FactBus.Locate | src/facts/AnalysisFactBus.cpp:496-521 | finds both rows of a witness among the facts by id and row; a hash collision between rows does not mislead it |
| FactBus.Survey | src/facts/AnalysisFactBus.cpp:481-522 | one pass decides what is witnessed, which leaves are no roots and which results are not published |
| FactBus.CheckClosure | src/facts/AnalysisFactBus.cpp:479-534 | accepts exactly the batches closed under witness, and otherwise names a fault that is there, in the order of the checks |
| FactBus.CyclesAgree | src/facts/AnalysisFactBus.cpp:536-545 | the index graph has a cycle exactly when the graph over rows has one |
| FactBus.Validate | src/facts/AnalysisFactBus.cpp:426-567 | accepts exactly the valid batches; every refusal names a fault the batch has, and all earlier checks hold |
| FactBus.MarkedSinkAccepted | src/facts/AnalysisFactBus.cpp:569-610 | with distinct sink ids, a mark in the table means that this very sink accepted this batch |
| FactBus.CourseCalls | src/facts/AnalysisFactBus.cpp:588-608 | of the sinks reached, exactly those are called that are not marked and share no id with an earlier one |
| FactBus.CourseInOrder | src/facts/AnalysisFactBus.cpp:588-608 | sinks are called in the order they were added in, each at most once |
| FactBus.ReachedOnce | src/facts/AnalysisFactBus.cpp:588-608 | what works and what fails decides how many sinks are reached |
| FactBus.Bus.AddSink | src/facts/AnalysisFactBus.cpp:422-424 | adding a sink keeps the delivery history sound |
| FactBus.Bus.Deliver | src/facts/AnalysisFactBus.cpp:595-607 | one sink is called once; the mark is written only after it accepted |
| FactBus.Bus.DeliverAll | src/facts/AnalysisFactBus.cpp:587-608 | what happens is exactly the course of events over the sinks that are reached, in order until something fails; succeeds exactly when nothing needed failed |
| FactBus.Bus.Publish | src/facts/AnalysisFactBus.cpp:569-610 | whatever fails, no mark precedes its acceptance, no marked sink is called again and no invalid batch reaches a sink; success is exactly a valid batch with no failure, and then every sink is marked; what happens is the course of events over the sinks reached |
| FactLookup.CheckSelector | src/facts/FactLookup.cpp:305-328 | accepts exactly the selectors whose equalities name distinct columns of the relation with canonical values of the right domain; a refusal names the first fault in column order |
| FactLookup.CandidatesCover | src/facts/FactLookup.cpp:161-178 | the index offers every selected fact and only current facts of the relation, even when cell digests collide |
| FactLookup.CandidatesExactly | src/facts/FactLookup.cpp:305-363 | what is read for a selector is exactly the run's current facts of the relation whose cell in the least column asked for has the digest asked for |
| FactPublished.PublishedIsSound | src/facts/AnalysisFactBus.cpp:451-477 | what is stored of a valid batch has canonical fact ids over valid rows, as every lookup relies on |
| FactLookup.Seek | src/facts/FactLookup.cpp:357-363 | the least id after the frontier |
| FactLookup.FactStore.CheckRequest | src/facts/FactLookup.cpp:297-351 | refuses exactly the requests with a bad snapshot, limit, selector or cursor, and names the first of these that is bad |
| FactLookup.FactStore.TakeCandidate | src/facts/FactLookup.cpp:369-403 | a candidate is returned exactly when it is selected; a stop names a match that the row or byte limit holds back; a failure names what is missing or disagrees |
| FactLookup.FactStore.Scan | src/facts/FactLookup.cpp:352-406 | candidates are taken in ascending order within every limit |
| FactLookup.FactStore.ReadFacts | src/facts/FactLookup.cpp:293-407 | a page lists exactly the wanted facts up to its frontier, advances unless bytes stop it, and stops for the reason it gives; the work counted is every candidate up to the frontier, and the one held back |
| FactLookup.FactStore.ReadChain | src/facts/FactLookup.cpp:293-407 | pages with any limits, read to the end, return every wanted fact once and in order; unless bytes stop a page, one page more than there are current facts reaches the end |
| FactLookup.FactStore.AppendLookupFact | src/facts/FactLookup.cpp:161-178 | adds one row for the relation and one for each cell |
| FactLookup.FactStore.CurrentFactKeys | src/facts/FactLookup.cpp:180-186 | the next current ids, ascending, without a gap |
| FactLookup.FactStore.IndexPage | src/facts/FactLookup.cpp:250-264 | indexes a page of ids, failing exactly when one of them cannot be read |
| FactLookup.FactStore.RebuildFactLookup | src/facts/FactLookup.cpp:225-273 | succeeds exactly when the run is sealed and its facts are readable; then the index is exact for the run and untouched for others, else nothing changed |
| FactSelection.SmallestOfUnion | src/evidence/EvidenceQueryService.cpp:275-282 | the smallest ids of a union can be taken from the smallest of each part |
| FactSelection.KeepSmallest | src/evidence/EvidenceQueryService.cpp:279-282 | erasing from the limit on keeps exactly the smallest ids |
| FactSelection.Absorb | src/evidence/EvidenceQueryService.cpp:275-278 | a page adds its accepted facts, and a fact already held stays |
| FactSelection.Combine | src/evidence/EvidenceQueryService.cpp:265-282 | after a page the selection is still sound for the larger union, and every new reason is a limit met |
| FactSelection.FactSelection.Skip | src/evidence/EvidenceQueryService.cpp:245-252 | a selector left unread is named by the allowance that is used up |
| FactSelection.FactSelection.TakePage | src/evidence/EvidenceQueryService.cpp:265-282 | the allowances fall by what the page cost |
| FactSelection.FactSelection.Add | src/evidence/EvidenceQueryService.cpp:242-284 | extends the union by what the selector's predicate accepts; a refusal changes no fact and no reason; the bytes spent are those of facts the selector asks for, and a new byte reason means that with one more they would exceed the allowance |
| FactSelection.FactSelection.Finish | src/evidence/EvidenceQueryService.cpp:291-302 | complete means exactly the accepted union; a pure row cut the smallest ids; allowances are kept; every reason is a limit met |
| FactSelection.RunFactQuery | src/evidence/EvidenceQueryService.cpp:314-340 | a query over several selectors: every fact returned is asked for; complete means exactly the union of all, cut by rows alone the smallest ids of it; a row cut means there are more, a work cut that the work or the selectors are used up, and a byte cut that facts asked for weigh at least the byte allowance; a complete query has examined every candidate of every selector once |
| ValueFlow.CompletionsExact | src/evidence/EvidenceQueryService.cpp:388-413 | depth-first search from a partial path finds exactly its simple completions within the depth |
| ValueFlow.CompletionsDistinct | src/evidence/EvidenceQueryService.cpp:388-413 | and each of them once |
| ValueFlow.EnumeratedExactly | src/evidence/EvidenceQueryService.cpp:388-413 | from a single node the search finds exactly the simple flow paths within the depth |
| ValueFlow.PathFinder.Visit | src/evidence/EvidenceQueryService.cpp:400-411 | one entry is pushed, searched and popped, leaving the stacks as they were |
| ValueFlow.PathFinder.Search | src/evidence/EvidenceQueryService.cpp:388-412 | adds exactly the completions of the path on the stacks, in order |
| ValueFlow.EnumeratePaths | src/evidence/EvidenceQueryService.cpp:377-415 | for different ends: every simple flow path within the depth, each once, and nothing else; for equal ends nothing |
| ValueFlow.Reachable | src/evidence/EvidenceQueryService.cpp:417-439 | holds exactly when flow of any length leads from source to sink |
| ValueFlow.SimplePathExists | src/evidence/EvidenceQueryService.cpp:417-439 | reachability means a simple path of some depth |
| ValueFlow.BuildFlowAdjacency | src/evidence/EvidenceQueryService.cpp:356-373 | each node's entries are its flow edges, sorted by target, each once when edge ids are distinct |
| ValueFlow.AdjacencyExact | src/evidence/EvidenceQueryService.cpp:356-373 | an entry stands for exactly one flow edge of the graph |
| ValueFlow.TakePaths | src/evidence/EvidenceQueryService.cpp:473-511 | the longest prefix within both budgets, with the budget that cut it, paths before nodes, and one probe counted; nothing is cut exactly when all fits |
| ValueFlow.TraverseFlow | src/evidence/EvidenceQueryService.cpp:446-511 | an empty slice is complete if and only if the sink is unreachable by flow of any length; a slice that is not cut holds every simple path within the depth, and every simple path of any length if and only if none is deeper; equal ends give nothing, cut at the depth; otherwise the paths are the longest prefix of the enumeration within both budgets |
| FlowDepth.CompleteMissesDetour | include/veritas/evidence/SliceTypes.h:45-48 | over a->d, a->b, b->d with depth one the slice is [a,d] with no truncation, although [a,b,d] is a simple flow path |
| FlowDepth.DepthSuffices | include/veritas/evidence/SliceTypes.h:45-48 | no simple path is too deep when the depth is at least one less than the number of nodes among the source and the ends of flow edges |
| ValueFlow.DeeperPathExists | src/evidence/EvidenceQueryService.cpp:462-471 | a slice cut at the depth is cut truthfully: a simple path exists, and every one is deeper |
| FlowOrder.DistinctExactly | src/evidence/EvidenceQueryService.cpp:375-415 | all enumerations are strictly ascending, no node sequence occurring twice, if and only if no two flow edges run in parallel between different nodes |
| FlowForks.OrderedExactly | src/evidence/EvidenceQueryService.cpp:375-415 | in every enumeration no later path has smaller nodes, if and only if no parallel pair of edges leads to a node with two simple continuations that avoid the start, end alike and have different nodes |
| FlowForks.ForkDisorders | src/evidence/EvidenceQueryService.cpp:375-415 | every such fork puts the enumeration from its start out of order, at every depth that lets both continuations in |
| FlowForks.EnumerationOutOfOrder | src/evidence/EvidenceQueryService.cpp:375-376 | over u->v twice, v->x->t and v->y->t the enumerated paths are not in lexicographic order, ties allowed |
| FlowOrder.BuiltSorted | src/evidence/EvidenceQueryService.cpp:356-373 | the lists built from the graph's edges are in order of target |
| CpgTraversal.RelevantExact | src/cpg/CpgQuery.cpp:127-134 | the traversal sees exactly the edges of the kinds asked for |
| CpgTraversal.RelevantKinds | src/cpg/CpgQuery.cpp:127-134 | a call traversal sees the resolved and possible calls and nothing else, a flow traversal the flows and nothing else |
| CpgTraversal.Traversal.Arrive | src/cpg/CpgQuery.cpp:117-125 | the target is explored by the path that led to it, which is the item exactly when a path is allowed, and the reason otherwise |
| CpgTraversal.Traversal.Stop | src/cpg/CpgQuery.cpp:127-134 | a node at full depth is explored and not expanded, and the depth is a reason exactly when some edge of the kinds asked for leaves it |
| CpgTraversal.Traversal.Explore | src/cpg/CpgQuery.cpp:113-151 | despite the global visited set, unless the node budget cuts it short, every node explored above full depth other than the target has all its successors explored; what was explored keeps its path |
| CpgTraversal.Traverse | src/cpg/CpgQuery.cpp:105-157 | every path is real, simple and within depth; nodes stay within max(1, max_nodes) and within the graph; the path and depth reasons are given exactly when their budget stopped the traversal, the depth one even where nothing is left; something is left over exactly when the node budget cut the traversal or an edge out of a node at full depth leads to a node not explored; without a reason a path is returned if and only if the target is reachable, and all simple paths are if and only if there are no two; unless depth or nodes run out, the path is the first of all simple paths in the order of the edges; budgets the size of the graph give no reason |
| CpgTraversal.FinishedIsHopeless | src/cpg/CpgQuery.cpp:113-151 | from a node explored in vain the target is not reached without coming back to the path in hand, so the global visited set hides no earlier path |
| CpgTraversal.ReadyIsFirst | src/cpg/CpgQuery.cpp:113-151 | a path each step of which passes over vain edges only leaves every other simple path by an edge that stands sooner |
| CpgTraversal.AllPathsExactly | include/veritas/cpg/CpgQuery.h:45-55 | of at most one path, returned exactly when the target is reachable, nothing is missing if and only if there are no two simple paths within the depth |
| CpgTraversal.DiamondTraversed | include/veritas/cpg/CpgQuery.h:45-55 | a diamond is traversed with no reason and the path by the edge that stands first, while a second simple path is not among the items |
| CpgTraversal.ExactDepthReported | include/veritas/cpg/CpgQuery.h:32-34 | over a->b, b->a with depth one the depth is reported although both nodes are explored and nothing is left over |
| FlowChain.TabulateEdges | src/evidence/EvidenceCaseBuilder.cpp:1326-1335 | the successor sets and the nodes of the flow subgraph |
| FlowChain.CountUp | src/evidence/EvidenceCaseBuilder.cpp:1339-1344 | one more for each target and nothing else |
| FlowChain.CountInputs | src/evidence/EvidenceCaseBuilder.cpp:1339-1344 | each node counts its distinct predecessors |
| FlowChain.CountDown | src/evidence/EvidenceCaseBuilder.cpp:1367-1371 | one less for each target, listing those that reach nothing |
| FlowChain.Process | src/evidence/EvidenceCaseBuilder.cpp:1360-1372 | processing a node keeps the counts and the work list in step |
| FlowChain.Decides | src/evidence/EvidenceCaseBuilder.cpp:1373-1377 | the work list holds every node if and only if the flow has no cycle |
| FlowChain.IsAcyclic | src/evidence/EvidenceCaseBuilder.cpp:1350-1377 | accepts exactly the flows without a cycle |
| FlowChain.Follow | src/evidence/EvidenceCaseBuilder.cpp:1387-1396 | following least successors from the least root comes to an end |
| FlowChain.RootsExist | src/evidence/EvidenceCaseBuilder.cpp:1350-1396 | a flow without cycles has a root, and every root leads somewhere |
| FlowChain.ChainIsPath | src/evidence/EvidenceCaseBuilder.cpp:1387-1402 | the chain has at least two distinct segments, each joined to the next by a flow edge |
| FlowChain.ChainComesFirst | src/evidence/EvidenceCaseBuilder.cpp:1387-1396 | of all walks from a root to a node without successors the chain is the first in lexicographic order |
| FlowChain.MixedExactly | src/evidence/EvidenceCaseBuilder.cpp:1431-1445 | more than one root or a branch if and only if some flow edge is off the chain |
| FlowChain.BuildPaths | src/evidence/EvidenceCaseBuilder.cpp:1324-1447 | refuses exactly the cyclic flows; otherwise states the representative chain, marked mixed exactly when it leaves a flow edge out |
| CaseProjection.IdAllocator.Allocate | src/evidence/EvidenceCaseBuilder.cpp:105-121 | a new handle every time: the base if free, else its first free suffix |
| CaseProjection.WithheldCounts | src/evidence/EvidenceCaseBuilder.cpp:1947-1973 | an id carried once is withheld exactly when its member is not kept |
| CaseProjection.Split | src/evidence/EvidenceCaseBuilder.cpp:1975-1995 | kept members in order, and the ids of the others |
| CaseProjection.WithholdMembers | src/evidence/EvidenceCaseBuilder.cpp:1947-2003 | every kind of member is cut to what is retained, and every cut id is listed |
| CaseProjection.NotePremises | src/evidence/EvidenceCaseBuilder.cpp:2031-2048 | each input of a kept record whose fact is withheld gets an expansion handle, and nothing else does |
| CaseProjection.TrimRecords | src/evidence/EvidenceCaseBuilder.cpp:2028-2052 | kept records list retained facts only |
| CaseProjection.NameWithheld | src/evidence/EvidenceCaseBuilder.cpp:2088-2099 | each withheld id is named by exactly one level-projection omission on the claim, under a fresh handle |
| CaseProjection.ProjectOmissions | src/evidence/EvidenceCaseBuilder.cpp:2054-2099 | omissions still about something come first and as they were, then the notes of withheld inputs, then one omission for each withheld member in ascending order; every one is about a member that survives |
| CaseProjection.EachKindAccounted | src/evidence/EvidenceCaseBuilder.cpp:1942-2099 | every member of every kind survives or is named by exactly one level-projection omission, never both |
| CaseProjection.PathSurvives | src/evidence/EvidenceCaseBuilder.cpp:1899-1926 | the primary path, its entities and the edges joining its segments all survive |
| CaseProjection.NothingDangles | src/evidence/EvidenceCaseBuilder.cpp:1899-2052 | no surviving fact, unknown, link or record refers to an entity, record or fact of the case that does not survive, nor does the surviving path by its provenance; by its conditions it does not if and only if every entity they name is kept for another reason: an end of the claim, named by a summary or the sink, a function, on the path, or mentioned by a kept fact or unknown |
| CaseKept.EntitiesKept | src/evidence/EvidenceCaseBuilder.cpp:1885-1940 | an entity is kept if and only if it is an end of the claim, named by a summary or the sink, a function, on the path that stays, or mentioned by a fact or unknown that stays |
| CaseKept.FactsKept | src/evidence/EvidenceCaseBuilder.cpp:1905-1914 | a fact is kept if and only if its formula refers to an end of the claim |
| CaseKept.LinksKept | src/evidence/EvidenceCaseBuilder.cpp:1916-1926 | a link is kept if and only if it joins two consecutive segments of the path that stays |
| CaseKept.UnknownsKept | src/evidence/EvidenceCaseBuilder.cpp:1928-1973 | the first unknown stays first, and with it stay exactly those that carry coverage |
| CaseKept.RecordsKept | src/evidence/EvidenceCaseBuilder.cpp:2005-2026 | a record stays if and only if a member of the projected case names it |
| CaseKept.SurvivingExactly | src/evidence/EvidenceCaseBuilder.cpp:2058-2076 | what an omission may be about is the claim and the members of the projected case |
| CaseKept.OmissionsKept | src/evidence/EvidenceCaseBuilder.cpp:2058-2086 | an omission stays if and only if its subject is the claim or a member of the projected case |
| CaseKept.NotesSay | src/evidence/EvidenceCaseBuilder.cpp:2028-2099 | every omission that is new says which input of a record no surviving fact carries, or which member of the case is withheld, in the words the code uses |
| AliasConditions.CollectAliases | src/evidence/EvidenceCaseBuilder.cpp:1050-1059 | exactly the alias facts over two references, in order, with their epistemic state |
| AliasConditions.StateConditions | src/evidence/EvidenceCaseBuilder.cpp:1417-1427 | one condition for each alias that is not MUST, in order |
| AliasConditions.ConditionsExactly | src/evidence/EvidenceCaseBuilder.cpp:1417-1427 | the path's conditions are those of the uncertain alias facts and no others |
| AliasConditions.ConditionsKeptExactly | src/evidence/EvidenceCaseBuilder.cpp:1899-1940 | the projected path of a built case keeps everything its conditions name if and only if every uncertain alias fact about neither the subject nor the source joins entities that are kept for another reason |
| AliasConditions.AliasesOfTheClaimKept | src/evidence/EvidenceCaseBuilder.cpp:1899-1940 | in particular whenever every uncertain alias fact mentions the subject or the source |
| AliasQuery.SelectedNamesSubject | src/evidence/EvidenceQueryService.cpp:207-219 | a row that the alias selectors of a memory ask for is stated as a fact that mentions the memory |
| AliasQuery.AskedExactly | src/evidence/EvidenceQueryService.cpp:207-219 | the alias query about a memory asks for exactly the run's current rows of the relation that have the memory in the first or the second column; about anything else it asks for nothing |
| AliasQuery.CertainExactly | src/evidence/EvidencePredicateMapper.cpp:185-204 | a row is stated in the state its last cell carries, and as certain exactly if that is must |
| AliasQuery.StateAliases | src/evidence/EvidenceQueryService.cpp:958-963 | the rows the alias query about the subject returns, stated in order under distinct handles, all mention the subject, however the query was cut short; refused exactly when the query is or a row has no mapping |
| CaseProjection.CaseBuilder.Project | src/evidence/EvidenceCaseBuilder.cpp:1880-2101 | at level l0 the members are projected and accounted for as stated by the lemmas above; at every other level nothing changes |
| CasePaths.ChainSurvives | src/evidence/EvidenceCaseBuilder.cpp:1899-1926 | a path that walks along flow links survives the projection with its entities, and a surviving flow link joins each segment to the next |
| CasePaths.BuildAndProject | src/evidence/EvidenceCaseBuilder.cpp:1324-1447 | the representative chain built from the links of a case, stated under its uncertain aliases and then projected is still a chain of flow links, and its conditions dangle nowhere if and only if what they name is kept anyway; a cyclic flow is refused |
| CasePaths.ConditionDangles | src/evidence/EvidenceCaseBuilder.cpp:1928-1940 | with a MAY alias over two entities the claim is not about, both entities and the fact are withheld and the surviving path still names them |
| RunMetrics.SelfTimesAdd | src/core/RunMetrics.cpp:586-623 | the self times below an accumulator add up to its inclusive time |
| RunMetrics.ReportedCounts | src/core/RunMetrics.cpp:586-623 | the tree built from an accumulator reports each one below it exactly once |
| RunMetrics.BuildTells | src/core/RunMetrics.cpp:586-623 | every node of the tree tells of its accumulator, and its children of the accumulators below it, strictly ascending by name |
| RunMetrics.OneChildOver | src/core/RunMetrics.cpp:572-581 | every accumulator is below exactly one root, and below exactly one child of each of its ancestors |
| RunMetrics.ClosingAdds | src/core/RunMetrics.cpp:465-513 | closing a span keeps each child time equal to the sum of the children's inclusive times |
| RunMetrics.ClosedFields | src/core/RunMetrics.cpp:465-513 | closing adds one occurrence and the time to the span's accumulator, the time to its parent's child time, and nothing anywhere else |
| RunMetrics.ClosingTimed | src/core/RunMetrics.cpp:450-513 | under a clock that never goes back, closing keeps child time within inclusive time, open time included |
| RunMetrics.RunMetrics.FindOrCreateAccum | src/core/RunMetrics.cpp:365-379 | one accumulator per parent and name |
| RunMetrics.RunMetrics.BeginSpan | src/core/RunMetrics.cpp:427-448 | the new span is a child of the innermost open one |
| RunMetrics.RunMetrics.CloseInnermost | src/core/RunMetrics.cpp:455-513 | the elapsed time, clamped at zero, goes to the span's accumulator and to its parent's child time |
| RunMetrics.RunMetrics.EndSpan | src/core/RunMetrics.cpp:450-521 | only the innermost token closes a span; any other leaves the record as it was and marks it incomplete |
| RunMetrics.RunMetrics.TakeStats | src/core/RunMetrics.cpp:545-650 | each accumulator is reported once; the tree is the one built from the only root named run, or a synthetic root over all of them with the sum of their inclusive times; with all spans closed under a steady clock no self time is clamped and all self times add up to the root's inclusive time; every node tells the name, count, inclusive and self time of its accumulator, over the accumulators below it in ascending order of name |
| SeriesBuffer.EveryOther | src/core/RunMetrics.cpp:138-169 | keeps every second sample, the oldest first |
| SeriesBuffer.SeriesBuffer.Append | src/core/RunMetrics.cpp:138-169 | the samples held are the picked ones of the whole history, within capacity, ending with the newest |
| SeriesBuffer.PicksHold | src/core/RunMetrics.cpp:138-169 | after any number of appends the samples are in order, within capacity, and end with the newest |
| SeriesBuffer.FirstStays | src/core/RunMetrics.cpp:138-169 | with room for two the first sample is never lost |
| SeriesBuffer.FirstKeptExactly | include/veritas/core/RunMetrics.h:174-178 | the first sample survives every history if and only if the capacity is at least two |
| SeriesBuffer.DecimationCounts | src/core/RunMetrics.cpp:138-169 | the decimation factor never overflows, never falls, and is one exactly while nothing was dropped |

## Left out

- SQLite statements, transactions, pragmas, receipts and the sealed fingerprint of the fact index: the store is a value that a failed rebuild leaves alone.
- The semantic key codec and the relation registry: both are parameters.
- DeriveBatchId: the content address of a batch is a parameter applied to everything but the id itself.
- `rooted_input_facts`, the rows behind the declared roots, which assembly moves over as they come: the batch that `AssemblyIgnoresArrival` calls the same is one without them.
- FactRanks: the chunked arena behind the interned bytes is not modelled; keys are held as values.
- The thirteen EIR-T member declarations other than the entity: the expression grammar and the positional attribute carry the difficulty.
- Enum spelling tables of the text form, and its stable ids beyond their being texts: a vocabulary shared by reader and writer.
- Diagnostic texts and error positions of the parser: only acceptance and refusal are modelled.
- Protobuf and JSON codecs, the analysis pipeline driver, files and the command line.
- CPU times, memory joins, distributions, minima and maxima, labels, counters and the sampler thread of the span recorder.
- FactSelection: the check that a page keeps to its allowance is not modelled, because `FactStore.ReadFacts` is proved to keep to it.
- The classification of supporting and contradicting facts, certificates and digests of a flow query.
- The predicate mappings of relations other than the alias one, and the routing of facts between the query results.
- FactAssembly.Assemble: entries that compare equal keep their order, where the source's sort leaves it open.
- ValueFlow.BuildFlowAdjacency: entries with the same target keep the order of the edges, where the source's sort leaves their order open; no property but that order depends on it.
- The canonicalization of whole cases: the expression, value and sorted-collection encodings it is built from are modelled.
- Execution rows, and the parts of a case the projection does not touch (hypotheses, assumptions, obligations, summaries, dependencies).
