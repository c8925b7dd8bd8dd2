# Verified models of the QFZ3 engine and its bundled tools

This project models five groups of code whose correctness is decided by the code itself rather than by
numerics, and proves what that code is for. Run `dafny verify dfyconfig.toml` to check it.

**Grammars.** `json-schema-to-grammar.cpp` writes GBNF text for JSON schemas and `grammar-parser.cpp` compiles
GBNF text to flat rules. GBNF syntax (`GbnfSyntax`) has a denotation and element streams have a derivation
relation (`GbnfMeaning`, after the matcher in `llama-grammar.cpp`). The parser is modelled with its cursor, its
growing element vector and its mutable symbol table (`GbnfLexer`, `GbnfParser`), proved equal to reading
(`GbnfReader`) followed by compiling (`GbnfCompiler`), and compiling is proved to preserve the language
(`GbnfSymbols`, `GbnfCorrectness`, `GbnfPreservation`). On top of that stand the schema constructs: integer
ranges (`SchemaIntegers`, `SchemaReversed`, `SchemaEmitter`), separated lists (`SchemaRepetition`), objects with
optional and additional properties (`SchemaObjects`, `SchemaObjectLanguage`, `SchemaObjectEntries`, `SchemaLiterals`,
`SchemaObjectText`, `SchemaObjectWords`, `SchemaNames`), the primitive rules for blanks and characters
(`SchemaPrimitives`) and "any string but these" (`SchemaStrings`, `SchemaStringsDecoded`, `SchemaStringsText`,
`SchemaStringsMeaning`). `GbnfFragments` says what a piece of GBNF text is read as and how pieces are put together, so
that the theorems hold of the strings the converter writes. `Unicode`, `GbnfSpelling` and `GbnfLayout` say what a
grammar may look like, and that every such text is read as the same grammar.

**The K/V cache.** `Transformer` defines inference without a cache over uninterpreted per-row operations, once by
functions and once by the one table of rows that follows those operations.
`KvCache` is the batched graph with its two-dimensional buffers, mask, write and read views and head. It is
proved to compute the same rows whatever the split into calls and whatever stale rows lie behind the head.
`Generation` and `Engine` carry that through the sampling loop, the sliding window and the session.

**The tokenizer.** `Gpt2Bytes`, `Tokenizer` and `TokenizerLoops` follow `tokenizer.rs`; `TokenizerMeaning`
says what the tables, the segmentation and the merges are, and `TokenizerRoundTrip` that decoding undoes encoding. `QwenBpe` is the sibling merge loop of the converter.

**The n-gram cache.** `NgramCache` proves the incrementally updated maps equal to a count over the history,
and saving, loading and merging correct; `NgramFile` says what a file holds, position by position.

**Transforms.** `Tensors` has row-major tensors of any rank; `LoraTensors`, `LoraMeaning`, `LoraShapes` and
`LoraHeads` prove that the operations on low-rank pairs commute with the product they stand for, and `LoraElements`
says what products, slices and selections are element by element. `Base64` and
`Escapes` are the two in-place byte transforms.

## Where the code differs from what it promises

Each of these follows the code and is stated with the exact condition, or the exact failing case, named in the
table.

- `{m,n}` with `m > n` matches `m` copies, and bounds from 2^31 on wrap around as C++ `int`
  (`GbnfRepetition.WrittenPromiseIffFitsInOrder`, `GbnfRepetition.HugeCountWraps`).
- The integer rule accepts `-0` when negative numbers and 0 are allowed (`SchemaIntegers.MinMaxExact`), and bounds
  in the wrong order often still accept something (`SchemaEmitter.EmittedReversedRule`).
- A separated list of at most zero items is written with an inner upper bound of -1, which the parser refuses
  (`SchemaRepetition.ReadsBackIffSomeAllowed`); with `minItems` above `maxItems`, exactly `minItems` are accepted
  (`SchemaRepetition.CountsInBoundsIffOrdered`).
- A property called `*` is treated as the wildcard: it may repeat, and beside additional properties its own entry is
  lost, whether it is optional or required (`SchemaObjectEntries.EntriesKeptIffNoStar`,
  `SchemaObjectEntries.StarLosesItsEntry`).
- Backslashes are not escaped in literals, so the keys of properties whose names hold quotes, backslashes or control
  characters are misread (`SchemaLiterals.KeyReadsIffPlainName`, `SchemaLiterals.QuotedNameMisread`).
- The rule for the other keys also refuses every non-empty proper prefix of an excluded name, and excluding nothing but
  the empty string accepts nothing but the empty string (`SchemaStrings.PromiseKeptIffPrefixesExcluded`,
  `SchemaStrings.AbRefusesA`); an excluded name gets through when one of its characters is written as an escape
  (`SchemaStringsDecoded.ExcludedGetsThroughIff`).
- Excluded names are written into character classes unescaped, so brackets, backslashes, carets, other than ASCII
  bytes and inner dashes change their meaning (`SchemaStringsText.ClassesReadIffNames`,
  `SchemaStringsMeaning.ClassesMeanIffNames`).
- Text that spells a control token, or one of three fixed ids, decodes to nothing
  (`TokenizerRoundTrip.RoundTripIffNothingSkipped`); the byte fallback looks up the position instead of the byte
  (`TokenizerRoundTrip.FallbackUsesThePosition`); the `<0xNN>` backup lookup is dead (`TokenizerLoops.ReprIsNoKey`).
- When the newest old message does not fit, the sliding window keeps all of them (`Engine.KeptIsLongestIffNewestFits`);
  `reset` keeps the messages (`Engine.ResetKeepsMessages`); a full cache is reported as an ended turn
  (`Engine.EndOfTurnTrustedIffLimitFits`); a refused turn stays among the remembered messages
  (`Engine.Engine.GenerateInner`).
- The comment on the byte alphabet says that the other bytes become U+0100 to U+015F; they become U+0100 to U+0143
  (`Gpt2Bytes.SymbolsAre`, `Gpt2Bytes.SymbolsFill`).
- `\x` also takes a blank or a sign before one digit (`Escapes.HexEscapeTakenIff`).
- On a pair with more than two axes, an integer index, a slice, a tuple or `cat` goes wrong when `A` has one matrix
  for several blocks or several for a shortened axis (`LoraMeaning.IntMeans`, `LoraMeaning.SliceMeans`,
  `LoraMeaning.TupleMeans`, `LoraShapes.CatMeans`).

## Model

| member | source | states |
|---|---|---|
| GbnfLexer.ParseSpace | vendor.modern/llama.cpp/common/grammar-parser.cpp:80-93 | the cursor stops at the first character that is neither a blank nor inside a `#` comment; line ends count as blanks only where the caller says so |
| SchemaNames.WordCharIs | vendor.modern/llama.cpp/common/grammar-parser.cpp:53-55 | the characters of a name, listed |
| GbnfLexer.DecodeUtf8 | vendor.modern/llama.cpp/common/grammar-parser.cpp:12-25 | the loop over the continuation bytes, cut short only by the terminating NUL; which code point a sequence stands for is in `GbnfSpelling.Utf8Reads` |
| GbnfLexer.ParseHex | vendor.modern/llama.cpp/common/grammar-parser.cpp:57-78 | a value exactly if all the digits asked for are hexadecimal |
| GbnfLexer.ParseChar | vendor.modern/llama.cpp/common/grammar-parser.cpp:117-138 | every escape the parser knows, every other character as itself, an error for an unknown escape or the end of the text |
| GbnfSpelling.Utf8Reads | vendor.modern/llama.cpp/common/grammar-parser.cpp:12-25 | for every code point but NUL and the backslash: its UTF-8 encoding (section 3 of RFC 3629) is read as that code point, whatever follows |
| GbnfSpelling.HexReads | vendor.modern/llama.cpp/common/grammar-parser.cpp:57-78 | hexadecimal digits of either case are read as the number they write |
| GbnfSpelling.SpelledReads | vendor.modern/llama.cpp/common/grammar-parser.cpp:117-138 | every spelling of a code point, encoded in UTF-8, as `\x`, `\u` or `\U` with digits of either case, or as one of the seven short escapes, is read as that code point |
| GbnfSpelling.FailsIff | vendor.modern/llama.cpp/common/grammar-parser.cpp:117-138 | reading a character fails exactly at the end of the text, at an unknown escape, and where hexadecimal digits are missing |
| GbnfLexer.ParseBound | vendor.modern/llama.cpp/common/grammar-parser.cpp:106-115 | a decimal bound as the C++ `int` it is stored in, wrap-around included; an error without digits or beyond 64 bits |
| GbnfSymbols.SynthesizedNameInjective | vendor.modern/llama.cpp/common/grammar-parser.cpp:33-37 | two generated names are equal only for the same base and the same number |
| GbnfSymbols.FreshNameIsNew | vendor.modern/llama.cpp/common/grammar-parser.cpp:33-55 | a generated name collides with no name in the table, because `_` is not a word character |
| GbnfSymbols.FreshKeeps | vendor.modern/llama.cpp/common/grammar-parser.cpp:33-37 | generating a symbol keeps the ids a bijection onto an initial segment and changes no other entry or rule |
| GbnfSymbols.InternKeeps | vendor.modern/llama.cpp/common/grammar-parser.cpp:27-31 | looking a name up returns its one id and adds at most that name |
| GbnfSymbols.DefineKeeps | vendor.modern/llama.cpp/common/grammar-parser.cpp:39-47 | storing a well-formed rule changes that rule only and keeps the table invariant |
| GbnfSymbols.ReadPlain | vendor.modern/llama.cpp/common/grammar-parser.cpp:95-104 | no name that can be parsed looks like a generated one |
| GbnfMeaning.LiteralMatches | vendor.modern/llama.cpp/src/llama-grammar.cpp:89-115 | the elements of a literal match that word and nothing else |
| GbnfMeaning.ClassMatchesElements | vendor.modern/llama.cpp/src/llama-grammar.cpp:89-115 | the elements of a bracketed class match exactly one character, the one the class contains or, negated, does not |
| GbnfMeaning.ElementsSplit | vendor.modern/llama.cpp/src/llama-grammar.cpp:89-115 | a word matched by two concatenated element streams splits into a word of each |
| GbnfMeaning.RuleOr | vendor.modern/llama.cpp/common/grammar-parser.cpp:321-337 | a rule with one more alternative matches what it matched before or what the alternative matches |
| GbnfParser.ParseState.GetSymbolId | vendor.modern/llama.cpp/common/grammar-parser.cpp:27-31 | the new table and id are those of interning the name |
| GbnfParser.ParseState.GenerateSymbolId | vendor.modern/llama.cpp/common/grammar-parser.cpp:33-37 | the new table and id are those of a fresh name |
| GbnfParser.ParseState.AddRule | vendor.modern/llama.cpp/common/grammar-parser.cpp:39-47 | the table with that one rule set, grown where needed |
| GbnfParser.ParseState.AddOptionalRules | vendor.modern/llama.cpp/common/grammar-parser.cpp:185-206 | the rules synthesised for the optional copies, and the reference that replaces them |
| GbnfParser.ParseState.HandleRepetitions | vendor.modern/llama.cpp/common/grammar-parser.cpp:156-207 | an error exactly if no element precedes the operator; otherwise the last item is replaced by its repetition and nothing before it changes |
| GbnfParser.ParseLiteral | vendor.modern/llama.cpp/common/grammar-parser.cpp:210-221 | the elements of the characters up to the closing quote, behind what was there |
| GbnfParser.ParseClass | vendor.modern/llama.cpp/common/grammar-parser.cpp:222-250 | the elements of the parts up to the closing bracket, behind what was there |
| GbnfParser.ParseBraces | vendor.modern/llama.cpp/common/grammar-parser.cpp:282-313 | `{m}`, `{m,}` and `{m,n}`, or the same error |
| GbnfParser.ParseGroup | vendor.modern/llama.cpp/common/grammar-parser.cpp:257-268 | a group becomes one reference to a synthesised rule that holds its alternatives |
| GbnfParser.ParseSequence | vendor.modern/llama.cpp/common/grammar-parser.cpp:147-319 | the loop over the text emits exactly what the abstract sequence it reads compiles to, or fails exactly when that sequence cannot be read |
| GbnfParser.ParseAlternates | vendor.modern/llama.cpp/common/grammar-parser.cpp:321-337 | the same for alternatives: one rule, closed by its only end marker |
| GbnfParser.ParseRule | vendor.modern/llama.cpp/common/grammar-parser.cpp:339-361 | the same for one rule of the grammar, its name bound before its body |
| GbnfParser.SilentIffNothing | vendor.modern/llama.cpp/common/grammar-parser.cpp:208-209 | an item compiles to no element exactly if it is an empty literal or class, or a repetition of zero times |
| GbnfParser.AllDefined | vendor.modern/llama.cpp/common/grammar-parser.cpp:370-385 | accepts exactly the tables in which every referenced rule has elements |
| GbnfParser.Parse | vendor.modern/llama.cpp/common/grammar-parser.cpp:363-391 | the whole parser: the compiled table, or the empty one after any error |
| GbnfParser.CompiledTableIsSound | vendor.modern/llama.cpp/common/grammar-parser.cpp:363-391 | whatever the text, the result is a bijective symbol table of well-formed rules in which every reference is defined |
| GbnfParser.CompiledLanguage | vendor.modern/llama.cpp/common/grammar-parser.cpp:363-391 | for every text that parses, each rule generates exactly the words its expression denotes |
| GbnfCorrectness.ChainKeeps | vendor.modern/llama.cpp/common/grammar-parser.cpp:185-202 | the bounded repetition lays down a chain of optional rules, each referring to the one before |
| GbnfCorrectness.RepeatKeeps | vendor.modern/llama.cpp/common/grammar-parser.cpp:156-207 | the repetition rewrite keeps the table invariant, leaves every earlier rule alone and realises its operator |
| GbnfCorrectness.EmitItemKeeps | vendor.modern/llama.cpp/common/grammar-parser.cpp:208-281 | the same for every item, groups at any depth included |
| GbnfCorrectness.EmitRuleKeeps | vendor.modern/llama.cpp/common/grammar-parser.cpp:321-337 | storing the alternatives realises them and leaves every other finished rule alone |
| GbnfCorrectness.EmitGrammarKeeps | vendor.modern/llama.cpp/common/grammar-parser.cpp:363-369 | after the last rule each name stands for its last definition |
| GbnfPreservation.ChainToPower | vendor.modern/llama.cpp/common/grammar-parser.cpp:162-177 | what the j-th synthesised rule generates is at most j copies |
| GbnfPreservation.PowerToChain | vendor.modern/llama.cpp/common/grammar-parser.cpp:162-177 | and any number of copies up to j is generated by it |
| GbnfPreservation.LoopToPower | vendor.modern/llama.cpp/common/grammar-parser.cpp:162-177 | what the recursive rule of an open bound generates is some number of copies |
| GbnfPreservation.PowerToLoop | vendor.modern/llama.cpp/common/grammar-parser.cpp:162-177 | and every number of copies is generated by it |
| GbnfPreservation.RepeatSound | vendor.modern/llama.cpp/common/grammar-parser.cpp:156-207 | a word matched after the rewrite is a concatenation of an allowed number of copies |
| GbnfPreservation.RepeatComplete | vendor.modern/llama.cpp/common/grammar-parser.cpp:156-207 | every concatenation of an allowed number of copies is matched after the rewrite |
| GbnfPreservation.ItemFromElements | vendor.modern/llama.cpp/common/grammar-parser.cpp:147-319 | what an item's elements match, the item denotes |
| GbnfPreservation.ItemToElements | vendor.modern/llama.cpp/common/grammar-parser.cpp:147-319 | what an item denotes, its elements match |
| GbnfPreservation.LanguagePreserved | vendor.modern/llama.cpp/common/grammar-parser.cpp:147-391 | in a sound table a named rule generates a word exactly if the word is in the language of the name's expression |
| GbnfRepetition.WrittenPromiseIffFitsInOrder | vendor.modern/llama.cpp/grammars/README.md:62-68 | for all bounds written below 2^64: the operator that is read allows exactly the written counts exactly if every bound is below 2^31 and they are in order |
| GbnfRepetition.BracedReads | vendor.modern/llama.cpp/common/grammar-parser.cpp:282-313 | braces around written numbers are read as the operator whose bounds are those numbers as stored |
| GbnfRepetition.HugeCountWraps | vendor.modern/llama.cpp/common/grammar-parser.cpp:106-115 | 2^32 + c written copies are read as c, which breaks the promise |
| GbnfRepetition.OrderedIffPromised | vendor.modern/llama.cpp/grammars/README.md:62-68 | for bounds as they are stored: the counts accepted are those of the stored bounds exactly if these are not negative and not in the wrong order |
| GbnfRepetition.ReversedBoundsStillMatch | vendor.modern/llama.cpp/common/grammar-parser.cpp:177-188 | `"a"{3,2}`, which promises nothing, generates `aaa` |
| GbnfPrinter.RoundTrip | vendor.modern/llama.cpp/common/grammar-parser.cpp:339-369 | a printed grammar reads back as itself |
| GbnfLayout.GapSkipped | vendor.modern/llama.cpp/common/grammar-parser.cpp:80-93 | any run of blanks, comments and, where they count as blanks, line ends of any kind is skipped |
| GbnfLayout.OnlyGapsSkipped | vendor.modern/llama.cpp/common/grammar-parser.cpp:80-93 | nothing is skipped exactly where no such character stands |
| GbnfLayout.AnyLayoutReads | vendor.modern/llama.cpp/common/grammar-parser.cpp:321-369 | a grammar reads the same with any blanks, comments and line ends between its parts, any spelling of its characters, and its last line ended or not |
| GbnfClosed.DefinedMeansClosed | vendor.modern/llama.cpp/common/grammar-parser.cpp:370-385 | a grammar that defines every name it mentions is never refused for an undefined rule |
| GbnfClosed.PrintedGrammarCompiles | vendor.modern/llama.cpp/common/grammar-parser.cpp:363-391 | from syntax through text to compiled rules: the generated language is the one of the syntax |
| SchemaIntegers.UniformRangeExact | vendor.modern/llama.cpp/common/json-schema-to-grammar.cpp:114-168 | `uniform_range` accepts exactly the digit strings of that length between its bounds |
| SchemaIntegers.DivergingCasesExact | vendor.modern/llama.cpp/common/json-schema-to-grammar.cpp:133-163 | the cases written down for bounds with different first digits cover the range without gap or excess |
| SchemaIntegers.ByLengthMatches | vendor.modern/llama.cpp/common/json-schema-to-grammar.cpp:185-195 | one alternative per number of digits, and what was written before stays accepted |
| SchemaIntegers.AcceptedIsInterval | vendor.modern/llama.cpp/common/json-schema-to-grammar.cpp:185-195 | digit strings accepted between two canonical decimals are the canonical decimals of the numbers between them |
| SchemaIntegers.MinMaxExact | vendor.modern/llama.cpp/common/json-schema-to-grammar.cpp:170-197 | with bounds in order the rule accepts exactly the decimals of the interval, and `-0` besides when the interval holds 0 and negative numbers |
| SchemaIntegers.IntWordReads | vendor.modern/llama.cpp/common/json-schema-to-grammar.cpp:185-186 | those decimals, by their characters: a minus sign exactly for negative numbers, then digits without a leading zero whose number is the size |
| SchemaEmitter.UniformRangeText | vendor.modern/llama.cpp/common/json-schema-to-grammar.cpp:114-168 | the string that `uniform_range` writes, for any two texts |
| SchemaEmitter.ByLengthText | vendor.modern/llama.cpp/common/json-schema-to-grammar.cpp:185-195 | the loop over the numbers of digits appends one range for each |
| SchemaEmitter.BuildMinMaxInt | vendor.modern/llama.cpp/common/json-schema-to-grammar.cpp:170-197 | the whole emission, for bounds in any order that lead to no sentinel |
| SchemaEmitter.BoundsRead | vendor.modern/llama.cpp/common/json-schema-to-grammar.cpp:86-197 | in any order of the bounds, the emitted string is read by the parser as the expression |
| SchemaEmitter.EmittedIntegerRuleIsExact | vendor.modern/llama.cpp/common/json-schema-to-grammar.cpp:86-197 | with bounds in order, the emitted string, parsed as a rule and compiled, generates exactly those decimals |
| SchemaEmitter.EmittedReversedRule | vendor.modern/llama.cpp/common/json-schema-to-grammar.cpp:86-197 | with the lower bound above the upper one, the compiled rule generates something exactly if the signs or the digits before the last differ |
| SchemaReversed.OrderedIsMinMax | vendor.modern/llama.cpp/common/json-schema-to-grammar.cpp:170-197 | the expression for bounds in any order is the one above when they are in order |
| SchemaReversed.ReversedBoundsAccept | vendor.modern/llama.cpp/common/json-schema-to-grammar.cpp:170-197 | with the lower bound above the upper one, the rule accepts something exactly if the signs differ or the numbers differ before the last digit, stated of the expression |
| SchemaReversed.TwentyToTenAcceptsTen | vendor.modern/llama.cpp/common/json-schema-to-grammar.cpp:170-197 | at least 20 and at most 10: `10` is accepted |
| SchemaRepetition.RepetitionExact | vendor.modern/llama.cpp/common/json-schema-to-grammar.cpp:19-41 | with at least one item allowed, exactly the separated lists of an allowed length; of `minItems` items when `maxItems` is less |
| SchemaRepetition.CountsInBoundsIffOrdered | vendor.modern/llama.cpp/common/json-schema-to-grammar.cpp:972-976 | those lengths are the ones within the bounds exactly if `minItems` is not above `maxItems` |
| SchemaRepetition.TextShowsRepetition | vendor.modern/llama.cpp/common/json-schema-to-grammar.cpp:19-41 | the string that is built is the text of that expression |
| SchemaRepetition.ReadsBackIffSomeAllowed | vendor.modern/llama.cpp/common/json-schema-to-grammar.cpp:19-41 | whatever `minItems` is, with a separator the string reads back as that expression exactly if `maxItems` is at least 1, and is a syntax error otherwise |
| SchemaRepetition.NoItemsIsUnreadable | vendor.modern/llama.cpp/common/json-schema-to-grammar.cpp:36-36 | the rule of an array with `maxItems` 0 cannot be parsed |
| SchemaObjects.SchemaConverter.AddRule | vendor.modern/llama.cpp/common/json-schema-to-grammar.cpp:400-414 | the key is the escaped name if free, else the first free numbered one; only that key changes, and it keeps any rule it had |
| SchemaNames.NameCharIs | vendor.modern/llama.cpp/common/json-schema-to-grammar.cpp:311-311 | the characters of a rule name, listed |
| SchemaNames.ValidStays | vendor.modern/llama.cpp/common/json-schema-to-grammar.cpp:401-401 | those characters stay in a rule name |
| SchemaNames.RunBecomesDash | vendor.modern/llama.cpp/common/json-schema-to-grammar.cpp:401-401 | a whole run of other characters becomes one dash |
| SchemaObjects.SchemaConverter.FreeNumber | vendor.modern/llama.cpp/common/json-schema-to-grammar.cpp:406-410 | the suffix search ends at the first number whose name is free |
| SchemaObjects.SchemaConverter.GetRecursiveRefs | vendor.modern/llama.cpp/common/json-schema-to-grammar.cpp:751-771 | the shared `-rest` rules it returns really hold the rest of the keys, and no earlier rule is rebound |
| SchemaObjects.SchemaConverter.GetChoices | vendor.modern/llama.cpp/common/json-schema-to-grammar.cpp:773-778 | one alternative for each optional key that may come first, still valid after the later ones are added |
| SchemaObjects.SchemaConverter.AddProperties | vendor.modern/llama.cpp/common/json-schema-to-grammar.cpp:707-722 | required and optional names in order, each last property of a name with its own entry rule |
| SchemaObjects.SchemaConverter.AddAdditional | vendor.modern/llama.cpp/common/json-schema-to-grammar.cpp:723-735 | the additional entry rule is filed under `*`, and `*` becomes the last optional key |
| SchemaObjects.SchemaConverter.BuildObjectRule | vendor.modern/llama.cpp/common/json-schema-to-grammar.cpp:697-788 | the rule has the shape of an object over the final table, in which no earlier name was rebound |
| SchemaObjects.RefsStay | vendor.modern/llama.cpp/common/json-schema-to-grammar.cpp:400-414 | later rules leave the meaning of earlier `-rest` chains alone |
| SchemaObjectLanguage.RefsAreTails | vendor.modern/llama.cpp/common/json-schema-to-grammar.cpp:751-771 | an optional chain accepts exactly the in-order selections of its keys, each behind a comma |
| SchemaObjectLanguage.ChoicesAreEntries | vendor.modern/llama.cpp/common/json-schema-to-grammar.cpp:773-778 | the alternatives together accept exactly the non-empty selections |
| SchemaObjectLanguage.ObjectLanguage | vendor.modern/llama.cpp/common/json-schema-to-grammar.cpp:737-787 | the object rule accepts exactly the braces around the required entries in order and then a selection of the optional ones |
| SchemaObjectLanguage.SelectionIsPromised | vendor.modern/llama.cpp/common/json-schema-to-grammar.cpp:751-771 | with no property called `*`, a selection is a subsequence of the listed keys and then, if allowed, any number of additional ones |
| SchemaObjectLanguage.PromiseKeptIffNoStar | vendor.modern/llama.cpp/common/json-schema-to-grammar.cpp:760-763 | of the key sequences alone, without additional properties: as promised exactly if no optional property is called `*` |
| SchemaObjectLanguage.AdditionalKeptIffStarLast | vendor.modern/llama.cpp/common/json-schema-to-grammar.cpp:723-735 | of the key sequences alone, a listed `*` counting as an additional key: as promised exactly if no optional property but perhaps the last is called `*` |
| SchemaObjectLanguage.RequiredStarIsAdditional | vendor.modern/llama.cpp/common/json-schema-to-grammar.cpp:733-733 | a property called `*` gets the entry rule of the additional ones |
| SchemaObjectEntries.EntriesKeptIffNoStar | vendor.modern/llama.cpp/common/json-schema-to-grammar.cpp:697-788 | the accepted sequences of entries, each listed key with its own and additional ones with theirs, are the promised ones exactly if no optional property is called `*` nor, beside additional properties, a required one |
| SchemaObjectEntries.MembersAreAccepted | vendor.modern/llama.cpp/common/json-schema-to-grammar.cpp:697-788 | what stands between the braces are exactly the accepted sequences of entries, each entry in the language of its own property |
| SchemaObjectEntries.MembersArePromised | vendor.modern/llama.cpp/common/json-schema-to-grammar.cpp:697-788 | with no property called `*`, an object holds exactly the required entries, some of the optional ones in order and, where allowed, additional ones |
| SchemaObjectEntries.StarLosesItsEntry | vendor.modern/llama.cpp/common/json-schema-to-grammar.cpp:730-733 | beside additional properties, the entry of `*` is the additional one, whose key rule refuses `"*"` |
| SchemaLiterals.LiteralReadsIffNoBackslash | vendor.modern/llama.cpp/common/json-schema-to-grammar.cpp:382-388 | what `format_literal` writes is read as the string it was written for exactly if that has no backslash |
| SchemaLiterals.KeyReadsIffPlainName | vendor.modern/llama.cpp/common/json-schema-to-grammar.cpp:712-715 | the key of a property is read as it was dumped exactly if its name has no quote, no backslash and no control character |
| SchemaNames.DumpDecodes | vendor.modern/llama.cpp/common/json-schema-to-grammar.cpp:713-713 | JSON (section 7 of RFC 8259) reads the dump of any name as that name |
| SchemaLiterals.QuotedNameMisread | vendor.modern/llama.cpp/common/json-schema-to-grammar.cpp:712-715 | the name of one quote: the literal of its key ends too early |
| SchemaObjectText.KeyValueReads | vendor.modern/llama.cpp/common/json-schema-to-grammar.cpp:712-715 | the string of an entry is read as the entry; that its words have the colon is in `SchemaObjectWords.ListedWords` |
| SchemaObjectText.RestReads | vendor.modern/llama.cpp/common/json-schema-to-grammar.cpp:756-768 | the string of a `-rest` rule is read as that rule |
| SchemaObjectText.EmitObject | vendor.modern/llama.cpp/common/json-schema-to-grammar.cpp:737-787 | the string that is put together for the object |
| SchemaObjectText.ObjectIsWritten | vendor.modern/llama.cpp/common/json-schema-to-grammar.cpp:737-787 | every object rule over names the parser accepts has such a string and is read back from it |
| SchemaObjectText.KeyIsPrintable | vendor.modern/llama.cpp/common/json-schema-to-grammar.cpp:400-414 | every key that `_add_rule` makes from a non-empty name is a name the parser accepts |
| GbnfFragments.WrittenTableCompiles | vendor.modern/llama.cpp/common/json-schema-to-grammar.cpp:1029-1035 | if every line of a table is read as meant, the table compiles to rules that generate what was meant |
| SchemaObjectText.WrittenObjectCompiles | vendor.modern/llama.cpp/common/json-schema-to-grammar.cpp:697-788 | the converter's own strings, parsed and compiled, generate exactly those objects under the object's name |
| SchemaObjectWords.ListedWords | vendor.modern/llama.cpp/common/json-schema-to-grammar.cpp:712-715 | the words of a listed entry are the dumped name, a word of `space`, a colon, a word of `space` and a word of the value rule |
| SchemaObjectWords.OtherWords | vendor.modern/llama.cpp/common/json-schema-to-grammar.cpp:723-733 | the words of an additional entry are a word of the key rule, a colon, a word of `space` and a word of the value rule |
| SchemaObjectWords.NamesHavePlaces | vendor.modern/llama.cpp/common/json-schema-to-grammar.cpp:716-720 | the required names, and the others, are those of the properties at some places: exactly the places of the properties that are required, or are not, in order |
| SchemaObjectWords.PlacesDecide | vendor.modern/llama.cpp/common/json-schema-to-grammar.cpp:716-720 | such places decide the names |
| SchemaObjectWords.ObjectsArePromised | vendor.modern/llama.cpp/common/json-schema-to-grammar.cpp:731-788 | with no property called `*`, the words of an object are `{`, blanks, the promised entries with a comma and blanks between neighbours, `}` and blanks, said in characters |
| SchemaObjectWords.WrittenObjectIsPromised | vendor.modern/llama.cpp/common/json-schema-to-grammar.cpp:697-788 | the converter's own strings, parsed and compiled, generate exactly those texts under the object's name |
| SchemaObjectText.PrintedObjectCompiles | vendor.modern/llama.cpp/common/json-schema-to-grammar.cpp:697-788 | so do the strings of the printer |
| SchemaStrings.BuildTrie | vendor.modern/llama.cpp/common/json-schema-to-grammar.cpp:642-645 | the trie of all the strings |
| SchemaStrings.InsertFollows | vendor.modern/llama.cpp/common/json-schema-to-grammar.cpp:633-639 | inserting adds exactly the prefixes of the string, and its end |
| SchemaStrings.BuildKnows | vendor.modern/llama.cpp/common/json-schema-to-grammar.cpp:642-645 | the trie knows exactly the prefixes of the strings and where they end |
| SchemaStrings.VisitLanguage | vendor.modern/llama.cpp/common/json-schema-to-grammar.cpp:650-675 | the branches of a node accept exactly what leaves the trie in one of the ways written down |
| SchemaStrings.NotStringsExact | vendor.modern/llama.cpp/common/json-schema-to-grammar.cpp:625-684 | quotes and blanks included: with some non-empty string excluded, a string of unescaped characters is accepted exactly if it is empty and not excluded or no prefix of an excluded one; no excluded string is accepted as it is written |
| SchemaStrings.OnlyEmptyExcluded | vendor.modern/llama.cpp/common/json-schema-to-grammar.cpp:678-681 | with nothing but the empty string excluded, the content can only be empty |
| SchemaStrings.PromiseKeptIffPrefixesExcluded | vendor.modern/llama.cpp/common/json-schema-to-grammar.cpp:616-624 | a string of unescaped characters is accepted exactly if it is none of the excluded ones, for all of them, exactly if some excluded string is not empty and every non-empty unescaped prefix of an excluded one is excluded too |
| SchemaStrings.PrefixRefused | vendor.modern/llama.cpp/common/json-schema-to-grammar.cpp:650-675 | every non-empty prefix of an excluded string is refused |
| SchemaStrings.AbRefusesA | vendor.modern/llama.cpp/common/json-schema-to-grammar.cpp:616-624 | with `ab` excluded, `a` is refused |
| SchemaStringsDecoded.SpellingDecodes | vendor.modern/llama.cpp/common/json-schema-to-grammar.cpp:287-287 | a name with one character written as `\u` and four digits is read as that name (section 7 of RFC 8259) |
| SchemaStringsDecoded.ExcludedGetsThroughIff | vendor.modern/llama.cpp/common/json-schema-to-grammar.cpp:625-684 | of names without escapes, an excluded one has an accepted spelling exactly if it is not empty, or only empty ones are excluded |
| SchemaStrings.PrimitiveCharRule | vendor.modern/llama.cpp/common/json-schema-to-grammar.cpp:287-287 | the primitive `char` rule satisfies what the theorem asks of it |
| SchemaStrings.PrimitiveSpaceRule | vendor.modern/llama.cpp/common/json-schema-to-grammar.cpp:270-270 | so does the rule for blanks |
| SchemaPrimitives.SpaceWords | vendor.modern/llama.cpp/common/json-schema-to-grammar.cpp:270-270 | the words of the rule for blanks: nothing, one blank, or a line end and at most twenty blanks and tabs |
| SchemaPrimitives.CharWords | vendor.modern/llama.cpp/common/json-schema-to-grammar.cpp:287-287 | the words of the rule for one character: any but quotes, backslashes and controls, an escape of one letter, or `\u` and four hexadecimal digits |
| SchemaPrimitives.SpaceReads | vendor.modern/llama.cpp/common/json-schema-to-grammar.cpp:270-270 | the string of the rule for blanks is read as that rule |
| SchemaPrimitives.CharReads | vendor.modern/llama.cpp/common/json-schema-to-grammar.cpp:287-287 | the string of the rule for one character is read as that rule |
| SchemaStringsText.EmitVisit | vendor.modern/llama.cpp/common/json-schema-to-grammar.cpp:650-675 | the recursive writer produces the text of the node's branches |
| SchemaStringsText.EmitNotStrings | vendor.modern/llama.cpp/common/json-schema-to-grammar.cpp:642-683 | the whole string that is written |
| SchemaStringsText.RawClassReads | vendor.modern/llama.cpp/common/grammar-parser.cpp:222-250 | bytes written between brackets are read back one by one exactly if each stands for itself and no dash has a byte before and behind it |
| SchemaStringsText.ClassesReadIffNames | vendor.modern/llama.cpp/common/json-schema-to-grammar.cpp:650-675 | every class written for a set of names reads back as meant exactly if the names hold only safe bytes and where one goes on with a dash no other goes on with a later byte |
| SchemaStringsMeaning.ClassesMeanIffNames | vendor.modern/llama.cpp/common/json-schema-to-grammar.cpp:650-675 | every such class ends where it should and matches the characters it should exactly if the names hold only safe bytes and where one goes on with a dash and another with a later byte, one goes on with a comma and one with a dot |
| SchemaStringsMeaning.CommaDashDot | vendor.modern/llama.cpp/common/json-schema-to-grammar.cpp:650-675 | the names `,x`, `-x` and `.x` do, though their class reads back as a range |
| SchemaStringsText.NotStringsReadsBack | vendor.modern/llama.cpp/common/json-schema-to-grammar.cpp:642-683 | for such names the whole text reads back as the rule |
| SchemaStringsText.DashedNamesMisread | vendor.modern/llama.cpp/common/json-schema-to-grammar.cpp:673-673 | the names `-x` and `ax`: the class becomes a range, and keys that start with `Z` are lost |
| Transformer.RowsPrefix | qfz3-engine/src/graph.rs:738-1118 | the rows of a prefix do not depend on what follows it |
| Transformer.StepLayersIsRow | qfz3-engine/src/graph.rs:859-1038 | one token pushed through all layers against the right caches gives the last row of the whole recomputation |
| Transformer.StepsAreRows | qfz3-engine/src/graph.rs:1143-1150 | token by token from an empty cache, all keys, values and logits are those of recomputing everything at once |
| Transformer.RowsCompute | qfz3-engine/src/graph.rs:738-1118 | in the fields of the model: row i of the next layer finishes row i from attention of its query at position i over the keys, at their positions, and values of the rows up to i |
| Transformer.ComputationIsRows | qfz3-engine/src/graph.rs:738-1118 | only one table of rows does |
| Transformer.LogitsAreSaid | qfz3-engine/src/graph.rs:1094-1118 | the logits are those of the last row of that table |
| KvCache.VisiblePrefix | qfz3-engine/src/graph.rs:794-816 | what a causal row of the mask leaves visible is a prefix |
| KvCache.LlamaGraph.constructor | qfz3-engine/src/graph.rs:157-220 | an empty cache, whatever the buffers hold |
| KvCache.LlamaGraph.ResetKv | qfz3-engine/src/graph.rs:222-224 | an empty transcript without touching the stale rows |
| KvCache.LlamaGraph.BuildMask | qfz3-engine/src/graph.rs:794-816 | the nested loops fill the causal mask |
| KvCache.LlamaGraph.WriteRows | qfz3-engine/src/graph.rs:932-963 | the batch goes to the rows behind the head of that layer and to no others |
| KvCache.LlamaGraph.AttendRows | qfz3-engine/src/graph.rs:985-1012 | attention over the cached rows under the mask gives the next layer's rows of the whole recomputation |
| KvCache.LlamaGraph.ForwardLayers | qfz3-engine/src/graph.rs:859-1038 | all layers: the caches hold the whole history, the hidden rows are those of recomputation |
| KvCache.LlamaGraph.Forward | qfz3-engine/src/graph.rs:738-1118 | succeeds exactly if the batch fits; then the cache holds the keys and values of the longer history, each row computed from its own embedding, position and the rows up to it, and the logits are those of the last row; otherwise nothing changed |
| KvCache.LlamaGraph.CacheIsComputation | qfz3-engine/src/graph.rs:738-1118 | a valid cache holds, for every layer and position, the key at that position and the value of that table's row |
| KvCache.LlamaGraph.Prefill | qfz3-engine/src/graph.rs:1124-1141 | the same, and an error for an empty batch |
| KvCache.LlamaGraph.DecodeOne | qfz3-engine/src/graph.rs:1143-1150 | the same for one token |
| Generation.GenerateIsTheRun | qfz3-engine/src/generate.rs:205-261 | the result is the one run in which each token is sampled from everything before it and only the last one stops |
| Generation.SampleIsDrawn | qfz3-engine/src/generate.rs:205-260 | what is sampled comes from the logits of that table and the last 64 generated tokens |
| Generation.TextOfParts | qfz3-engine/src/generate.rs:239-246 | the text is the pieces of the tokens, one after the other |
| Generation.GeneratedIsBounded | qfz3-engine/src/generate.rs:228-261 | at most the limit, at most what fits the cache, no stop token, and a finished run stopped for a reason |
| Generation.PushRecent | qfz3-engine/src/generate.rs:252-255 | the buffer is always the last 64 tokens |
| Generation.DecodeLoop | qfz3-engine/src/generate.rs:228-261 | the loop carries that run out: transcript, count and text |
| Generation.RunGeneration | qfz3-engine/src/generate.rs:170-275 | afterwards the transcript is the old one, the turn and the generated tokens; both refusals change nothing |
| Generation.GenerateOnce | qfz3-engine/src/generate.rs:282-315 | a blank prompt is refused before anything is touched; otherwise the run from a cleared cache, with its refusals |
| Engine.KeptIsLongestIffNewestFits | qfz3-engine/src/engine.rs:128-138 | what is kept is the longest fitting suffix exactly if the newest message fits |
| Engine.LongNewestKeepsAll | qfz3-engine/src/engine.rs:128-138 | when the newest does not fit, everything is kept |
| Engine.PreparedLeavesRoom | qfz3-engine/src/engine.rs:96-190 | the prompt fits the available part or is the fresh single-turn one; the new message is last, the kept ones a suffix |
| Engine.TurnIsPrepared | qfz3-engine/src/engine.rs:96-190 | in numbers and messages: a turn goes on exactly if a quarter of the window stays free by the estimate of a token for four bytes and sixteen for each message; otherwise the kept suffix is told again, framed as first and later messages, or dropped if even that leaves no room |
| Engine.ConversationIsExchanges | qfz3-engine/src/engine.rs:96-190 | the conversation a cache tracks is each message in its frame and its reply behind it |
| Engine.EvictedRetells | qfz3-engine/src/engine.rs:149-187 | after an eviction the prompt retells exactly the remembered messages |
| Engine.ResetKeepsMessages | qfz3-engine/src/engine.rs:278-281 | after a reset old messages come back exactly if the next turn overflows and their retelling fits |
| Engine.StopReasonIsHonest | qfz3-engine/src/engine.rs:201-205 | when the reported reason and the way the run ended agree |
| Engine.EndOfTurnTrustedIffLimitFits | qfz3-engine/src/engine.rs:201-205 | an ended turn can be believed for every sampler exactly if prompt and limit together fit the cache; otherwise a sampler is given that shows it cannot |
| Engine.StillTracks | qfz3-engine/src/engine.rs:96-264 | a turn on a cache that holds the remembered conversation leaves one that holds the longer one |
| Engine.Engine.KeepIndex | qfz3-engine/src/engine.rs:128-138 | the backward scan computes the kept suffix |
| Engine.Engine.PrepareTurn | qfz3-engine/src/engine.rs:96-190 | prompt, messages, turn count and cache after both paths |
| Engine.Engine.GenerateInner | qfz3-engine/src/engine.rs:234-264 | the whole turn, refusals included, and the cache keeps tracking the conversation |
| Engine.Engine.GenerateRich | qfz3-engine/src/engine.rs:193-207 | counts, text and reason as reported |
| Engine.Engine.Reset | qfz3-engine/src/engine.rs:278-281 | the transcript and the turn count go, the messages stay |
| Gpt2Bytes.UnprintablesAre | qfz3-engine/src/tokenizer.rs:411-427 | the counter of the table at every byte |
| Gpt2Bytes.SymbolIsInjective | qfz3-engine/src/tokenizer.rs:411-427 | no two bytes share a character |
| Gpt2Bytes.SymbolsAre | qfz3-engine/src/tokenizer.rs:411-427 | printable bytes are shown as themselves, the others in increasing order as code points from 256 to 323 |
| Gpt2Bytes.SymbolsFill | qfz3-engine/src/tokenizer.rs:411-427 | every one of those 68 code points shows a byte |
| Gpt2Bytes.NamedSymbols | qfz3-engine/src/tokenizer.rs:400-427 | a space is U+0120, a newline U+010A, with their UTF-8 |
| Gpt2Bytes.Utf8IsEncoding | qfz3-engine/src/tokenizer.rs:429-445 | the characters are written in UTF-8 as RFC 3629 has it |
| Gpt2Bytes.BuildTable | qfz3-engine/src/tokenizer.rs:411-427 | the table the loop fills, with the values of printable and other bytes stated |
| Gpt2Bytes.BuildReverseTable | qfz3-engine/src/tokenizer.rs:458-482 | the two loops build exactly its inverse |
| Gpt2Bytes.BytesToGpt2Unicode | qfz3-engine/src/tokenizer.rs:406-445 | the spelling, character by character in UTF-8 |
| Gpt2Bytes.Gpt2UnicodeToOriginalBytes | qfz3-engine/src/tokenizer.rs:495-508 | the bytes a string stands for, other characters as themselves |
| Gpt2Bytes.OriginalOfSpelled | qfz3-engine/src/tokenizer.rs:495-508 | the spelling is valid UTF-8 and stands for the bytes it came from |
| Gpt2Bytes.SpelledPrefix | qfz3-engine/src/tokenizer.rs:324-335 | a valid prefix of a spelling is the spelling of a prefix, so the cursor stays on character boundaries |
| Tokenizer.BuildIsWellFormed | qfz3-engine/src/tokenizer.rs:93-196 | ids and texts agree, ranks name existing ids |
| Tokenizer.LongestMatch | qfz3-engine/src/tokenizer.rs:326-335 | a known prefix, and no longer one is known |
| Tokenizer.BestPair | qfz3-engine/src/tokenizer.rs:352-364 | the leftmost pair of lowest rank, or that none is ranked |
| TokenizerLoops.FromGgufParts | qfz3-engine/src/tokenizer.rs:93-196 | the whole construction: sizes checked, the tables built, a byte token without text refused |
| TokenizerMeaning.ByteTokenIs | qfz3-engine/src/tokenizer.rs:390-394 | a token names a byte exactly if it is `<0x`, an optional plus sign, hexadecimal digits whose number is that byte, and `>` |
| TokenizerMeaning.EntriesAre | qfz3-engine/src/tokenizer.rs:108-132 | an entry is the byte its token names, or its token; types default to 1 |
| TokenizerMeaning.IdsAre | qfz3-engine/src/tokenizer.rs:126-126 | a text has the id of the last entry with that text |
| TokenizerMeaning.RanksAre | qfz3-engine/src/tokenizer.rs:134-148 | a pair has the number of the last line that names it, two known texts around its first space, as its rank |
| TokenizerMeaning.ByteTableIs | qfz3-engine/src/tokenizer.rs:150-170 | a byte has the id of the last entry that stands for it, or 0 |
| TokenizerMeaning.StopIdsAre | qfz3-engine/src/tokenizer.rs:172-188 | the stop ids are those of the six terminators in the vocabulary, or 128001 and 128009 if it has none |
| TokenizerLoops.ReprIsNoKey | qfz3-engine/src/tokenizer.rs:159-170 | the backup lookup of `<0xNN>` can never succeed |
| TokenizerLoops.BuildByteTable | qfz3-engine/src/tokenizer.rs:151-170 | the byte table, gaps filled with 0 |
| TokenizerLoops.InitialTokenise | qfz3-engine/src/tokenizer.rs:317-343 | the segmentation, with the point where the fallback indexes out of bounds |
| TokenizerLoops.FindBest | qfz3-engine/src/tokenizer.rs:352-364 | the scan finds that pair |
| TokenizerLoops.BpeMerge | qfz3-engine/src/tokenizer.rs:346-385 | the merge loop computes its normal form and ends |
| TokenizerLoops.Encode | qfz3-engine/src/tokenizer.rs:208-224 | start token, segmentation and merges together |
| TokenizerMeaning.EncodedIsTheRun | qfz3-engine/src/tokenizer.rs:208-371 | encoding is, exactly: token 128000 if asked for, then the end of the merge run that starts from the segmentation, which takes the longest known text of at most 64 bytes at each cut, and in which each step merges the leftmost neighbours of lowest rank |
| TokenizerLoops.Decode | qfz3-engine/src/tokenizer.rs:235-267 | the bytes of all tokens that are not skipped, turned into a string once |
| TokenizerMeaning.OneIdDecodes | qfz3-engine/src/tokenizer.rs:246-266 | what one id adds: nothing for 128000, 128001, 128004, unknown ids and control tokens; its byte, or the bytes its text stands for |
| TokenizerMeaning.DecodedConcat | qfz3-engine/src/tokenizer.rs:235-271 | the bytes of a list are those of its parts |
| TokenizerRoundTrip.MergedKeeps | qfz3-engine/src/tokenizer.rs:346-385 | merging keeps the concatenation of the texts |
| TokenizerRoundTrip.MergedIsFinal | qfz3-engine/src/tokenizer.rs:346-385 | it stops only where no pair is ranked or the best pair has no merged token |
| TokenizerRoundTrip.MatchIsWhole | qfz3-engine/src/tokenizer.rs:324-335 | where every byte is a token, one always matches, up to a character boundary |
| TokenizerRoundTrip.SegmentsCover | qfz3-engine/src/tokenizer.rs:317-343 | the segmentation loses nothing and never falls back |
| TokenizerRoundTrip.RoundTripIffNothingSkipped | qfz3-engine/src/tokenizer.rs:208-267 | encoding never fails, and decoding returns the bytes exactly if no skipped id was produced |
| TokenizerRoundTrip.NothingSkippedWhenNoneInside | qfz3-engine/src/tokenizer.rs:246-257 | none is, if no part of the text's spelling is the text of a skipped token |
| TokenizerRoundTrip.RoundTripUnlessSkippedInside | qfz3-engine/src/tokenizer.rs:208-267 | so every such string comes back, with or without the start token |
| TokenizerRoundTrip.SkippedSpellingIsLost | qfz3-engine/src/tokenizer.rs:246-257 | a string whose spelling is a skipped token decodes to nothing |
| TokenizerRoundTrip.FallbackUsesThePosition | qfz3-engine/src/tokenizer.rs:336-341 | where nothing matches byte k, the id pushed is the one of byte value k, and past 255 there is none |
| QwenBpe.Bpe | vendor.modern/llama.cpp/convert_hf_to_gguf.py:1829-1843 | the loop computes the merged parts |
| QwenBpe.BpeIsComplete | vendor.modern/llama.cpp/convert_hf_to_gguf.py:1829-1843 | the parts join to the token, each is a byte or ranked below the limit, and no neighbours can still be merged below it |
| QwenBpe.MergedIsARun | vendor.modern/llama.cpp/convert_hf_to_gguf.py:1829-1844 | the parts are the end of a run in which each step joins the leftmost neighbours of lowest rank below the limit |
| QwenBpe.RunIsMerged | vendor.modern/llama.cpp/convert_hf_to_gguf.py:1829-1844 | and of every such run |
| NgramCache.PaddingTells | vendor.modern/llama.cpp/common/ngram-cache.h:18-38 | padding with -1 keeps n-grams of non-negative tokens apart, whatever their lengths |
| NgramFile.NgramIs | vendor.modern/llama.cpp/common/ngram-cache.h:24-28 | the tokens come first, then -1 up to four |
| NgramCache.NothingYet | vendor.modern/llama.cpp/common/ngram-cache.cpp:8-18 | the empty table counts the empty history |
| NgramCache.TotalAppend | vendor.modern/llama.cpp/common/ngram-cache.cpp:16-18 | the count over a longer history is the count before plus that of the new positions |
| NgramCache.NgramTable.Increment | vendor.modern/llama.cpp/common/ngram-cache.cpp:23-35 | one count goes up by one, the table stays free of empty parts and zero counts |
| NgramCache.NgramTable.Update | vendor.modern/llama.cpp/common/ngram-cache.cpp:8-48 | adds exactly the occurrences that end in the new tokens; a table that counts the history before counts the history after |
| NgramCache.NgramTable.Merge | vendor.modern/llama.cpp/common/ngram-cache.cpp:257-282 | pointwise addition |
| NgramCache.HistoryDetermines | vendor.modern/llama.cpp/common/ngram-cache.cpp:8-48 | two tables that count the same history are equal, so any series of updates gives what one update gives |
| NgramCache.TotalIsPositions | vendor.modern/llama.cpp/common/ngram-cache.cpp:16-21 | each count is the number of positions at which the token follows the n-gram |
| NgramCache.Save | vendor.modern/llama.cpp/common/ngram-cache.cpp:196-217 | what is written loads back as the same table |
| NgramCache.Load | vendor.modern/llama.cpp/common/ngram-cache.cpp:219-255 | the reading loop, with the asserted errors |
| NgramFile.LoadIsTheFile | vendor.modern/llama.cpp/common/ngram-cache.cpp:219-262 | number by number: a file loads exactly if it is entries of four tokens, a positive number of pairs and that many pairs with positive counts, and fewer than four numbers behind them; what is loaded is what the first entry of an n-gram and its first pair of a token say |
| NgramCache.LoadPairs | vendor.modern/llama.cpp/common/ngram-cache.cpp:241-248 | the pairs of an entry are read back in full |
| Base64.Encode | vendor.modern/llama.cpp/common/base64.hpp:80-144 | the output is the encoding, group by group |
| Base64.DigitIsInTable | vendor.modern/llama.cpp/common/base64.hpp:85-86 | a value is written as its character in the table of 64 of RFC 4648, written out for both forms |
| Base64.ValueIsPlace | vendor.modern/llama.cpp/common/base64.hpp:344-386 | a character is read as its place in a table still meant, refused if it has none, and settles which table is meant exactly if it is one of the last two |
| Base64.EncodedAt | vendor.modern/llama.cpp/common/base64.hpp:80-144 | character r of group q is the digit of six bits, the highest first, of the 24-bit number of three bytes, or padding where there are no bytes |
| Base64.DecodedIs | vendor.modern/llama.cpp/common/base64.hpp:150-244 | decoding gives the whole bytes among the bits of the values in front of the padding, and refuses exactly unreadable characters and, unless loose, anything behind padding |
| Base64.EncodedSize | vendor.modern/llama.cpp/common/base64.hpp:338-341 | its length is the promised one |
| Base64.DecodedFits | vendor.modern/llama.cpp/common/base64.hpp:324-327 | decoding never needs more than the promised size |
| Base64.DecodedSizeIsReached | vendor.modern/llama.cpp/common/base64.hpp:324-327 | and fills it when whole groups are not padded |
| Base64.RoundTrip | vendor.modern/llama.cpp/common/base64.hpp:200-244 | decoding an encoding gives the bytes back under the same alphabet and under auto-detection, strict or loose |
| Base64.DecodeInPlace | vendor.modern/llama.cpp/common/base64.hpp:294-313 | decoding over the input gives what decoding elsewhere gives, with the same errors, and leaves the rest of the buffer alone |
| Escapes.ProcessEscapes | vendor.modern/llama.cpp/common/common.cpp:1769-1804 | the two-index loop computes the left-to-right unescaping of the original string |
| Escapes.ProcessPiece | vendor.modern/llama.cpp/common/common.cpp:1773-1801 | one step: the write index never passes the read index and unread characters stay |
| Escapes.OrdinaryStays | vendor.modern/llama.cpp/common/common.cpp:1769-1804 | what is no backslash stays, and so does one at the end |
| Escapes.ShortEscapes | vendor.modern/llama.cpp/common/common.cpp:1775-1781 | each letter behind a backslash and what it gives; of an unknown one both characters stay |
| Escapes.HexEscapes | vendor.modern/llama.cpp/common/common.cpp:1782-1793 | `\x` and two characters that make a byte give it |
| Escapes.NoHexEscape | vendor.modern/llama.cpp/common/common.cpp:1782-1796 | otherwise both characters stay |
| Escapes.UnescapedDoubled | vendor.modern/llama.cpp/common/common.cpp:1781-1781 | every string can be written by doubling its backslashes |
| Escapes.StrtolOfTwo | vendor.modern/llama.cpp/common/common.cpp:1785-1788 | the two characters count exactly if `strtol` stops behind the second |
| Escapes.HexEscapeTakenIff | vendor.modern/llama.cpp/common/common.cpp:1782-1793 | `\x` is taken exactly before a digit that a digit, a blank or a sign precedes, with the byte each gives |
| Escapes.BlankPassesForDigit | vendor.modern/llama.cpp/common/common.cpp:1785-1790 | a blank or a minus before a digit is taken |
| Tensors.OffsetConcat | vendor.modern/llama.cpp/convert_lora_to_gguf.py:147-152 | row-major positions of nested axes |
| LoraMeaning.SelectionMeans | vendor.modern/llama.cpp/convert_lora_to_gguf.py:56-112 | factors selected in step stand for the selected product |
| LoraElements.ElementIsSum | vendor.modern/llama.cpp/convert_lora_to_gguf.py:38-54 | an element of the product is the sum over the rank of row times column, of the matrix with the same leading indices or the only one |
| LoraElements.SliceIs | vendor.modern/llama.cpp/convert_lora_to_gguf.py:56-112 | a slice holds exactly the indices from its start up to its stop, each counted from the end when negative |
| LoraElements.SelectorsExact | vendor.modern/llama.cpp/convert_lora_to_gguf.py:56-112 | a tuple is refused exactly if it is too long or has an integer out of range |
| LoraElements.SelectorsAre | vendor.modern/llama.cpp/convert_lora_to_gguf.py:56-112 | and selects from each axis what its entry says |
| LoraElements.SelectedShapeIs | vendor.modern/llama.cpp/convert_lora_to_gguf.py:56-112 | a selected tensor loses the axes of the integers and keeps the lengths of the ranges |
| LoraElements.SourceIs | vendor.modern/llama.cpp/convert_lora_to_gguf.py:56-112 | each of its elements comes from the integers and the starts of the ranges plus its own index |
| LoraMeaning.IntMeans | vendor.modern/llama.cpp/convert_lora_to_gguf.py:65-69 | an integer index is allowed exactly if it fits both factors, and then selects from the product |
| LoraMeaning.SliceMeans | vendor.modern/llama.cpp/convert_lora_to_gguf.py:70-74 | a slice gives a pair with a product exactly if `A` is sliced alike, keeps its one matrix, or no row is left; then it slices the product |
| LoraMeaning.TupleMeans | vendor.modern/llama.cpp/convert_lora_to_gguf.py:75-110 | a tuple works exactly if it keeps every leading axis that `A` shares; then rows, leading indices and columns of the product are selected |
| LoraMeaning.SharedMatrixIsLost | vendor.modern/llama.cpp/convert_lora_to_gguf.py:65-74 | two blocks under one matrix: the second can be neither indexed nor sliced |
| LoraShapes.ReshapeMeans | vendor.modern/llama.cpp/convert_lora_to_gguf.py:128-152 | a reshape that is not refused reshapes the product |
| LoraShapes.ReshapeExact | vendor.modern/llama.cpp/convert_lora_to_gguf.py:128-152 | refused are exactly a changed last axis, a changed size, fewer than two axes, and more than one matrix |
| LoraShapes.OpenAxisFills | vendor.modern/llama.cpp/convert_lora_to_gguf.py:138-142 | one -1 takes exactly what is left |
| LoraShapes.PermuteMeans | vendor.modern/llama.cpp/convert_lora_to_gguf.py:160-171 | exactly two kinds of permutation are allowed, and a permutation of the leading and row axes permutes the product |
| LoraElements.PermutedAt | vendor.modern/llama.cpp/convert_lora_to_gguf.py:160-171 | a permuted tensor holds each element at the permuted index |
| LoraShapes.TransposeMeans | vendor.modern/llama.cpp/convert_lora_to_gguf.py:167-168 | exchanging the transposed factors transposes the product |
| LoraShapes.StackMeans | vendor.modern/llama.cpp/convert_lora_to_gguf.py:196-203 | stacked pairs stand for the stacked products |
| LoraShapes.CatMeans | vendor.modern/llama.cpp/convert_lora_to_gguf.py:204-219 | concatenated pairs stand for the concatenation if they share `A` or each brings its own matrices; for all sizes the result has a product exactly if it has one matrix in all or one for each row of the first axis |
| LoraElements.ConcatenatedData | vendor.modern/llama.cpp/convert_lora_to_gguf.py:205-218 | the elements of a concatenation are those of the tensors, in order |
| LoraHeads.HeadsMean | vendor.modern/llama.cpp/convert_hf_to_gguf.py:1517-1523 | reshape, swapaxes and reshape on the pair permute the rows of the product, and are refused only where the product's would be or `A` is more than one matrix |
| LoraHeads.HeadsAt | vendor.modern/llama.cpp/convert_hf_to_gguf.py:1517-1523 | row j of a half of a head lands at position 2j + half of the head |
| LoraHeads.RowsDivide | vendor.modern/llama.cpp/convert_hf_to_gguf.py:1517-1523 | where it is accepted and there are rows at all, their number is the number of heads times two halves |
| LoraHeads.HeadsInvert | vendor.modern/llama.cpp/convert_hf_to_gguf.py:1517-1523 | the row map can be undone |

## Left out

- One-sided integer ranges (`json-schema-to-grammar.cpp:199-265`), where `stoi` drops leading zeros; so the largest and smallest `int`, which mean "no bound", and the negation of the largest, which becomes one.
- The `space` reference and parentheses around an integer rule in its schema rule, string formats, `_visit_pattern`, references, unions and all other schema kinds.
- SchemaReversed.ReversedBoundsAccept: about the expression; the emitted string is in `SchemaEmitter.EmittedReversedRule`.
- SchemaObjectText.WrittenObjectCompiles: that the lines of the other rules are read as meant is required of them; for the entries, the `-rest` rules, the integer rules, `space` and `char` it is proved, for the other primitive rules it is not.
- SchemaObjectText.PrintedObjectCompiles: about the rules as `GbnfPrinter` prints them; the converter's own strings are in `SchemaObjectText.WrittenObjectCompiles`.
- SchemaLiterals.KeyReadsIffPlainName: for ASCII names.
- GbnfRepetition.OrderedIffPromised: about the bounds as they are stored; the written ones are in `GbnfRepetition.WrittenPromiseIffFitsInOrder`.
- SchemaRepetition.RepetitionExact: negative `minItems` are absent; of a negative `maxItems` only the error with a separator is stated.
- SchemaObjects.SchemaConverter.BuildObjectRule: rules are syntax trees, the rule names of visited sub-schemas and the additional-key rule are parameters, and equality of rules is equality of trees.
- SchemaObjectLanguage.AdditionalKeptIffStarLast: about the sequence of optional keys; whose entry each is, and required ones, are in `SchemaObjectEntries.EntriesKeptIffNoStar`.
- SchemaStrings.NotStringsExact: about spellings as they are written; that an escaped spelling gets through is in `SchemaStringsDecoded.ExcludedGetsThroughIff`.
- SchemaStringsDecoded.ExcludedGetsThroughIff: for names of unescaped characters below the surrogates.
- SchemaStrings.BuildTrie: the trie is rebuilt as a value, not updated in place.
- SchemaStringsText.ClassesReadIffNames: about reading the classes back as written; that they match the same characters is in `SchemaStringsMeaning.ClassesMeanIffNames`. Bytes from 128 on are ordered as unsigned; such names are never readable in either order.
- Overflow of 32-bit rule ids, of token ids and of n-gram counts; recursion depth of the parser; texts of error messages; printing of a parsed state.
- Attention, normalisation and sampling arithmetic, which stay uninterpreted; allocation failures; the unused single-token graph (`graph.rs:331-734`).
- Chat templates, the sampler, standard output, streaming callbacks and timing, which are parameters or absent.
- Generation.GenerateOnce: the tokenizer, the template and what counts as blank are parameters.
- Engine.Engine.GenerateInner: messages are byte strings and the template is a parameter.
- TokenizerLoops.FromGgufParts: for fewer than 2^32 - 1 tokens, so that the sentinel in the byte table is no id.
- TokenizerLoops.Decode: the replacement of invalid UTF-8 in the result is a parameter; `decode_one` only appears as the pieces that generation collects.
- TokenizerRoundTrip.NothingSkippedWhenNoneInside: sufficient, not necessary: a skipped token inside the spelling may still lose to a longer match; the exact condition is in `TokenizerRoundTrip.RoundTripIffNothingSkipped`.
- Drafting from the n-gram cache, progress output, and the iteration order of its maps.
- Iterator generality of `base64.hpp`; buffers are arrays of bytes.
- LoraShapes.ReshapeExact: a pair has a positive rank.
- LoraShapes.CatMeans: which product a concatenation with empty blocks has that is not aligned is not stated.
- LoraMeaning.TupleMeans: tuples have one entry for each axis, with slices of step 1 for rows and columns; integer rows or columns, which the constructor lets pass only when the axes that are left happen to fit, ellipses, tensor indices and dtype conversion are absent.
- LoraHeads.HeadsMean: takes the number of heads that the key/value override leaves.
