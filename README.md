# Dataflow direction, byte-literal inspection and struct-literal checks of intellij-rust

This project models three pieces of the Rust plugin for IntelliJ in Dafny:

- **The forward direction of the MIR dataflow framework** (`direction.dfy`, over the data model in `mir.dfy`):
  - how an analysis's statement and terminator effects are applied across one basic block;
  - which successor blocks receive a block's exit state, and in what order;
  - how a block is replayed from its stored state for a results visitor.
- **The byte-literal characters inspection** (`byte_literal.dfy`):
  - byte literals (`b'…'`) and byte-string literals (`b"…"`) whose text holds a character above U+007E are flagged;
  - for a byte-string literal, the "Replace non-ASCII symbols" fix rewrites each byte of the literal's UTF-8 text above 0x7E as `\x` followed by its lowercase hexadecimal value.
- **The struct-literal checks of the expression annotator** (`struct_literal.dfy`):
  - "No such field" for a literal field that does not resolve to a field declaration;
  - "Duplicate field" for every repetition of a field name;
  - "Some fields are missing" when a declared field is not mentioned.

How the model maps the source:

- **Domain state.** The dataflow domain is a type parameter. The analysis changes its state object in place; here each effect is a function from the old state to the new one. `ApplyEffectsInBlock` is a loop that returns the state it arrives at.
- **Callbacks.** `propagate` and the results visitor are callbacks with side effects. The methods return them as the ordered trace of calls they receive, each call carrying the state it is shown at that moment.
- **Specifications.** Each method is proved equal to a specification function:
  - `BlockEffect` for applying effects;
  - `Successors` for joining into successors;
  - `ReplayEvents` for the replay;
  - `Escaped` for the fix;
  - `Duplicates` for duplicate detection.
- **Properties.** Lemmas state what each specification function means:
  - effect order;
  - replay shape, including the state shown to every before- and after-effect callback, and fidelity to the analysis;
  - escaping never grows the text by more than 3 characters per byte and yields ASCII only, and the fix test's literal becomes exactly its expected text;
  - unescaping recovers the bytes;
  - a name occurring k times is reported k − 1 times;
  - missing fields and "No such field" reports keep their order and multiplicity;
  - missing fields shrink as fields are added.

As the code has it, the inspection's ASCII range stops at U+007E: DEL (U+007F) counts as non-ASCII and is escaped as `\x7f`. The fix escapes only bytes above 0x7E. A backslash already in the literal's text is kept, because the text is source code whose existing escapes keep their meaning (`BackslashKept`).

## Model

| member | source | states |
|---|---|---|
| Direction.ApplyEffectsInBlock | src/main/kotlin/org/rust/lang/core/mir/dataflow/framework/Direction.kt:29-37 | the exit state is every statement effect applied in index order at (block, index), then the terminator effect at (block, statement count) |
| Direction.RecordedStatements | src/main/kotlin/org/rust/lang/core/mir/dataflow/framework/Direction.kt:30-33 | the statement loop applies exactly one effect per statement, the i-th at location (block, i) |
| Direction.EffectOrder | src/main/kotlin/org/rust/lang/core/mir/dataflow/framework/Direction.kt:30-36 | for n statements, there are n+1 effect calls, in ascending index order, with the terminator effect last at index n |
| Direction.JoinStateIntoSuccessorsOf | src/main/kotlin/org/rust/lang/core/mir/dataflow/framework/Direction.kt:39-61 | propagate is called exactly once per successor edge of the terminator, always with the unchanged exit state: none for Return/Resume/Unreachable, the target for Goto, the unwind target first (when present) and then the target for Assert and FalseUnwind, and every SwitchInt target in listed order |
| Direction.VisitResultsInBlock | src/main/kotlin/org/rust/lang/core/mir/dataflow/framework/Direction.kt:63-85 | the visitor callbacks equal the replay trace, starting from the block's stored state |
| Direction.StatementEventsShape | src/main/kotlin/org/rust/lang/core/mir/dataflow/framework/Direction.kt:70-76 | statement i yields a before-effect callback and then an after-effect callback at (block, i); the after state is the reconstructed effect applied to the before state |
| Direction.StatementPairAt | src/main/kotlin/org/rust/lang/core/mir/dataflow/framework/Direction.kt:72-75 | the before-effect callback of statement i shows the before-step applied to the state replayed through i statements; the after-effect callback shows the state replayed through i+1 statements |
| Direction.ReplayShape | src/main/kotlin/org/rust/lang/core/mir/dataflow/framework/Direction.kt:68-84 | a block of n statements gives 2n+4 callbacks: block start with the stored state; per index a before-effect callback showing the before-step applied to the state replayed so far, and an after-effect callback showing the primary effect applied to that; the terminator pair at index n built the same way; block end last with the terminator's after state |
| Direction.ReplayStateIsEffect | src/main/kotlin/org/rust/lang/core/mir/dataflow/framework/Direction.kt:70-76 | with no-op before-steps and the analysis's own effects, the replayed state after k statements is the state applyEffectsInBlock reaches after k statements |
| Direction.ReplayFidelity | src/main/kotlin/org/rust/lang/core/mir/dataflow/framework/Direction.kt:63-85 | with no-op before-steps and the analysis's own effects, statement i's before-callback shows the forward state after i effects and its after-callback the state after i+1; the terminator's before-callback shows the state after all statement effects; block end shows the block's exit state under applyEffectsInBlock |
| Direction.CounterReplay | src/main/kotlin/org/rust/lang/core/mir/dataflow/framework/Direction.kt:63-85 | replaying a one-statement block with a counter analysis shows 0 at block start and before the statement's effect, 1 after it and before the terminator's, and 2 after it and at block end |
| ByteLiteralInspection.AsciiRange | src/main/kotlin/org/rust/ide/inspections/RsByteLiteralCharactersInspection.kt:64-67 | text is ASCII iff every character is below U+007F; the empty text is ASCII; U+007F is not |
| ByteLiteralInspection.Inspect | src/main/kotlin/org/rust/ide/inspections/RsByteLiteralCharactersInspection.kt:21-43 | a problem is registered iff the literal is a byte or byte-string literal with a character above U+007E; the messages differ by kind; the escaping fix is offered only for byte strings |
| ByteLiteralInspection.EscapeNonAsciiSymbols | src/main/kotlin/org/rust/ide/inspections/RsByteLiteralCharactersInspection.kt:53-58 | the replacement text is the per-byte escape of the bytes, concatenated in order |
| ByteLiteralInspection.EscapeByteCases | src/main/kotlin/org/rust/ide/inspections/RsByteLiteralCharactersInspection.kt:55-56 | a byte up to 0x7E is kept as its character; any other byte, through Kotlin's signed byte and toUByte, becomes `\x` and two lowercase hex digits |
| ByteLiteralInspection.EscapedAppend | src/main/kotlin/org/rust/ide/inspections/RsByteLiteralCharactersInspection.kt:53-58 | escaping distributes over concatenation of byte sequences |
| ByteLiteralInspection.EscapedLength | src/main/kotlin/org/rust/ide/inspections/RsByteLiteralCharactersInspection.kt:54-57 | the replacement has one character per kept byte and four per escaped byte |
| ByteLiteralInspection.EscapedIsAscii | src/main/kotlin/org/rust/ide/inspections/RsByteLiteralCharactersInspection.kt:53-58 | the replacement text is ASCII, so the fixed literal is flagged by neither inspection |
| ByteLiteralInspection.EscapeAsciiIdentity | src/main/kotlin/org/rust/ide/inspections/RsByteLiteralCharactersInspection.kt:55 | on bytes all at most 0x7E, the fix returns text with the same length and character codes |
| ByteLiteralInspection.UnescapeEscaped | src/main/kotlin/org/rust/ide/inspections/RsByteLiteralCharactersInspection.kt:53-58 | without backslash bytes, reading each `\xHH` back as one byte recovers the original bytes |
| ByteLiteralInspection.BackslashKept | src/main/kotlin/org/rust/ide/inspections/RsByteLiteralCharactersInspection.kt:54-56 | an existing `\xf0` in the text is kept verbatim and coincides with the escape of byte 0xF0 |
| ByteLiteralExamples.AsciiLiteralsNotFlagged | src/test/kotlin/org/rust/ide/inspections/RsByteLiteralCharactersInspectionTest.kt:10-20 | `b'a'` and `b" ~"` are not flagged |
| ByteLiteralExamples.AccentedByteLiteralFlagged | src/test/kotlin/org/rust/ide/inspections/RsByteLiteralCharactersInspectionTest.kt:22-26 | a byte literal holding e followed by the combining acute accent U+0301 is flagged with the byte-literal message and no fix |
| ByteLiteralExamples.FamilyByteStringFlagged | src/test/kotlin/org/rust/ide/inspections/RsByteLiteralCharactersInspectionTest.kt:28-32 | a byte-string literal holding the family emoji is flagged with the byte-string message and the fix |
| ByteLiteralExamples.PleadingFace | src/test/kotlin/org/rust/ide/inspections/RsByteLiteralCharactersInspectionTest.kt:34-42 | the UTF-8 bytes f0 9f a5 ba become `\xf0\x9f\xa5\xba`, as in the fix test's expected text |
| ByteLiteralExamples.AndKept | src/test/kotlin/org/rust/ide/inspections/RsByteLiteralCharactersInspectionTest.kt:34-42 | the ASCII segment " and " of the fix test is kept verbatim |
| ByteLiteralExamples.FixTest | src/test/kotlin/org/rust/ide/inspections/RsByteLiteralCharactersInspectionTest.kt:34-42 | the 30 UTF-8 bytes of the fix test's literal are fixed to exactly the expected text of line 40 |
| StructLiteralAnnotator.FindDuplicateReferences | src/main/kotlin/org/rust/ide/annotator/RsExpressionAnnotator.kt:117-128 | the result is, in input order, every item whose name was already seen earlier |
| StructLiteralAnnotator.DuplicatesAreLaterOccurrences | src/main/kotlin/org/rust/ide/annotator/RsExpressionAnnotator.kt:117-128 | reported positions strictly ascend, and position i is reported iff an earlier item has the same name, so a first occurrence never is |
| StructLiteralAnnotator.DuplicateCount | src/main/kotlin/org/rust/ide/annotator/RsExpressionAnnotator.kt:120-126 | a name occurring k > 0 times is reported k - 1 times; an absent name is never reported |
| StructLiteralAnnotator.NoDuplicatesIffDistinct | src/main/kotlin/org/rust/ide/annotator/RsExpressionAnnotator.kt:117-128 | nothing is reported iff the names are pairwise distinct |
| StructLiteralAnnotator.DuplicatesSubsequence | src/main/kotlin/org/rust/ide/annotator/RsExpressionAnnotator.kt:120-126 | the reported items are a subsequence of the input |
| StructLiteralAnnotator.Unmentioned | src/main/kotlin/org/rust/ide/annotator/RsExpressionAnnotator.kt:132 | a declared field is kept iff its name is not among the mentioned names |
| StructLiteralAnnotator.UnmentionedCounts | src/main/kotlin/org/rust/ide/annotator/RsExpressionAnnotator.kt:132 | the filter keeps every occurrence of an unmentioned field and none of a mentioned one |
| StructLiteralAnnotator.MissingFields | src/main/kotlin/org/rust/ide/annotator/RsExpressionAnnotator.kt:130-133 | a declared field is missing iff no literal field has its name |
| StructLiteralAnnotator.MissingFieldsCounts | src/main/kotlin/org/rust/ide/annotator/RsExpressionAnnotator.kt:130-133 | a declared field is missing as many times as it is declared, unless some literal field has its name |
| StructLiteralAnnotator.MissingFieldsSubsequence | src/main/kotlin/org/rust/ide/annotator/RsExpressionAnnotator.kt:130-133 | the missing fields keep declaration order: they are a subsequence of the declared fields |
| StructLiteralAnnotator.UnmentionedAntitone | src/main/kotlin/org/rust/ide/annotator/RsExpressionAnnotator.kt:132 | mentioning more names leaves a subsequence of the fields missing before |
| StructLiteralAnnotator.MoreFieldsNeverMoreMissing | src/main/kotlin/org/rust/ide/annotator/RsExpressionAnnotator.kt:130-133 | adding fields to a literal never adds a missing field, and never increases their number |
| StructLiteralAnnotator.ReportsMissingFields | src/main/kotlin/org/rust/ide/annotator/RsExpressionAnnotator.kt:56-70 | "Some fields are missing" is reported iff there is no `..base`, the declaration is not a union, some declared field is unmentioned, the literal exists after macro expansion, and it has a path to highlight |
| StructLiteralAnnotator.UnknownFieldAnnotations | src/main/kotlin/org/rust/ide/annotator/RsExpressionAnnotator.kt:40-50 | "No such field" is reported exactly for the literal fields that resolve to no field declaration |
| StructLiteralAnnotator.UnknownFieldCounts | src/main/kotlin/org/rust/ide/annotator/RsExpressionAnnotator.kt:40-50 | each unresolved literal field is reported once per occurrence; a resolved field never is |
| StructLiteralAnnotator.UnknownFieldsInOrder | src/main/kotlin/org/rust/ide/annotator/RsExpressionAnnotator.kt:40-50 | the "No such field" reports follow the order of the literal's fields |
| StructLiteralAnnotator.DuplicateAnnotations | src/main/kotlin/org/rust/ide/annotator/RsExpressionAnnotator.kt:52-54 | one "Duplicate field" per duplicate, in order |
| StructLiteralAnnotator.ReportUnknownFields | src/main/kotlin/org/rust/ide/annotator/RsExpressionAnnotator.kt:40-50 | the filter-and-report loop produces exactly the "No such field" annotations |
| StructLiteralAnnotator.ReportDuplicateFields | src/main/kotlin/org/rust/ide/annotator/RsExpressionAnnotator.kt:52-54 | the loop produces exactly the "Duplicate field" annotations |
| StructLiteralAnnotator.CheckStructLiteral | src/main/kotlin/org/rust/ide/annotator/RsExpressionAnnotator.kt:34-74 | the annotations are the unknown-field ones, then the duplicate ones, then "Some fields are missing" exactly when it is reported |

## Left out

- The encoding of a literal's text as UTF-8 bytes (`encodeToByteArray`) is not modelled. The fix takes the bytes as its input, and the inspection takes the text as characters.
- Replacing the PSI element with a new literal, registering problems and fixes, and the fix's name are editor plumbing and are left out. The replacement text and the problem message are modelled.
- The dataflow engine that calls the direction, the backward direction, the results store, and the `Analysis` and `ResultsVisitable` interfaces' other members are not part of this model.
- In-place mutation of the domain object is modelled as values. Effects are functions from state to state, so aliasing of one state object by the visitor is not captured; each callback records the state it is shown at that moment.
- Blocks are identified by number. `propagate` receives a block id, not the block object.
- The SwitchInt target list is taken as given, and the order of a terminator's successor edges is the order the forward direction propagates to them. How `targets.targets` is built (the otherwise branch) is not part of this model.
- Name resolution of struct-literal fields is an input: each field says whether it resolves to a field declaration.
- Macro expansion (`existsAfterExpansion`) and the literal's path are inputs to `ReportsMissingFields`.
- The "create field" and "add missing fields" quick fixes, highlight types and text ranges are not modelled.
- A null annotation builder, which skips a "No such field" report, is not modelled. Every unresolved field is reported.
- The other checks of the annotator, such as the callers that find a struct literal's declaration, are not part of this model.
- src/main/kotlin/org/rust/ide/inspections/import/ui.kt is not part of this model. It is UI code with no bearing on the checks.
