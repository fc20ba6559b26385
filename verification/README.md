# A verified model of async-language-server

async-language-server lets a language server be written entirely in UTF-8 positions: it keeps the
documents, converts every position on the wire, keeps workspace documents fresh, and drops answers
that no longer fit their document. This project models the parts of it that compute or keep state,
and proves what those parts promise each other.

- **Text and positions** (`TextEncoding`, `UnicodeForms`, `TextLines`, `Positions`, `LabelOffsets`,
  and `MachineInts` in `Wrappers.dfy`). A text is a `string` of scalar values cut into lines at LF,
  each line keeping its LF. Positions move between UTF-8, UTF-16 and UTF-32 (RFC 3629, section 3;
  RFC 2781, section 2.1), with the clamps, the floor and the saturating 32-bit numbers of the wire. `UnicodeForms` writes the encodings out and proves
  the widths they are counted in.
- **Semantic tokens** (`TokenStreams`, `TokenSplice`, `TokenMoves`, `TokenDelta`, `TokenSessions`).
  The delta-encoded streams of the LSP 3.17 specification: the conversion walk, its seeds, the splice
  over the flat array, and sessions in which a server's cache and a client's stream stay in step while
  the text changes, for one document and for every slot of the store.
- **Incremental sync** (`DocumentSync`, `Snapshots`). The fold of a `didChange` batch, the tree-sitter
  edit each ranged change reports, and the copy-on-write generations that keep earlier snapshots.
- **The document store** (`StoreModel`, `UrlOrder`, `StoreState`, `HandlerEffects`, `StoreRuns`,
  `WorkspaceRefresh`). `StoreState` has the classes whose methods update the maps, the token cache and
  the walk cache; each method is proved equal to a function in `StoreModel`. `HandlerEffects` says what
  each does to each URL, without those functions, `StoreRuns` what every run of handlers keeps, and
  `WorkspaceRefresh` that a refresh served from caches leaves what one from scratch would.
- **Engines** (`BoundedEngine`, `Dispatch`, `ReportSinks`, `ConfigGenerations`). State machines over
  every schedule or interleaving: bounded parallelism, the staleness probes of a request, the merge
  of per-item report sinks, and the counter that drops stale configuration replies.
- **Ranges, reading and searching** (`RangeBasics`, `ByteRanges`, `TsRanges`, `LspRanges`,
  `ChunkReader`, `TreeSearch`).

Some properties need hypotheses. Where dropping one makes a property false, the exact condition is
proved: `RoundTripIffBoundary`, `ConversionMonotoneIff`, `LspConversionComposesIff`,
`LspRoundTripIff`, `RecountRoundTripExact`, `ConversionExactIff`, `RoundTripIff`, `DeltaCoherentIff`,
`ExchangeInSyncIff`, `EditCoherentIff`, `AppliesIff`, `SplitAtCoherent`, `SubCoherent`,
`AgreesWithTreeSitterIff`, `ResponseIsCurrentIff`, `RefusedIffWritten`, `SaveStaysCoherentIff`,
`StoredListRightIff`, `ReplyAppliesIffCurrent`. Lemmas with failing inputs stand beside them:
`ClampingLosesOrder`, `EndsMustBeKept`, `ChangesMoveColumns`, `NonAsciiSplitsDiffer`,
`SaveGoesUnnoticed`, `SavedWorkspaceDocumentGoesStale`, `LateInvalidationIsLost`,
`WrappedTokenApplies`. One hypothesis is sufficient and not exact: that no edit inserts after one that
overruns. Of two insertions past the end `OverrunsSwap` says exactly when they go wrong.

Where documentation and code differ, the model follows the code. `find_descendant` is documented as
finding a descendant but tests the node itself first, so `FindDescendant` is about the subtree with
its root. The stamp gate of a refresh is documented as conservative, but a save of a
Workspace-origin document replaces its text and keeps its stamp, so the next refresh trusts a stamp
that no longer belongs to the text (`SavedWorkspaceDocumentGoesStale`).

`dafny verify dfyconfig.toml` checks the whole project.

## Model

| member | source | states |
|---|---|---|
| MachineInts.SaturateIsGreatest | src/text_utils/position.rs:41-46 | a number too large for the wire becomes the wire's greatest: saturation gives the greatest 32-bit number not above it |
| MachineInts.SaturatingIsAdjoint | src/lsp_requests/conversion.rs:763-794 | a saturating sum is the greatest 32-bit number not above the sum, a saturating difference the least that makes up for it |
| UnicodeForms.DecodesBack | src/text_utils/conversions.rs:36-66 | every scalar value decodes from its UTF-8 bytes (RFC 3629, section 3), its UTF-16 words (RFC 2781, section 2.1) and its UTF-32 value, and each unit fits its form |
| UnicodeForms.UnitsAreShortest | src/text_utils/conversions.rs:36-66 | the units a position counts for a character are exactly the length of its encoded form, and no shorter sequence of units decodes to it |
| UnicodeForms.OffsetsCountUnits | src/text_utils/conversions.rs:36-66 | a unit offset is the length of the encoded text before the character |
| TextEncoding.UnitToChar | src/text_utils/conversions.rs:39-65 | the rope's unit-to-character index: the character whose units enclose the offset, so a unit inside a character floors to it |
| TextEncoding.UnitToCharUnique | src/text_utils/conversions.rs:39-65 | that character is the only one enclosing the offset, in every encoding |
| TextEncoding.UnitOfChar | src/text_utils/conversions.rs:39-65 | unit-to-character inverts character-to-unit on every character of every text |
| TextLines.RowOfLine | src/text_utils/conversions.rs:34-36 | the characters whose tree-sitter row is `l` are exactly those in line `l`'s span, the end of the text being in the last line |
| TextLines.LinesEndAtLf | src/text_utils/conversions.rs:34-36 | a line's only LF is its last character, and every line but the last has it |
| TextLines.UnitsInLine | src/text_utils/conversions.rs:36-66 | unit offsets counted in a line's slice are offsets in the text less the line's start |
| TextLines.AdvanceComposes | src/text_utils/range_ext/tree_sitter.rs:14-21 | walking a text from any base point reaches the base composed with the text's own relative point, column carried over only on the first row |
| TextLines.AdvanceInjective | src/text_utils/range_ext/tree_sitter.rs:24-41 | distinct characters of one text sit at distinct points |
| Positions.SmileyExample | src/text_utils/conversions.rs:13-17 | the documented example: column 5 after a smiley in UTF-8 is column 3 in UTF-16 and 2 in UTF-32 |
| Positions.SameEncodingKeeps | src/text_utils/conversions.rs:29-31 | between equal encodings a position stays as it is, past the end of the text too |
| Positions.ColumnCountsChars | src/text_utils/conversions.rs:36-70 | all six conversion arms agree with one rule: clamp the column to the line with its terminator, floor to a character, count the units before it in the target; what a unit is, `UnicodeForms.UnitsAreShortest` proves |
| Positions.ConversionComposes | src/text_utils/conversions.rs:19-78 | for distinct encodings A, B, C, going A to B to C equals going A to C, for every position, clamped and mid-character ones included |
| Positions.RoundTripIffBoundary | src/text_utils/conversions.rs:19-78 | A to B to A is the identity if and only if the position is a character boundary of a line of the text |
| Positions.ConvertedOrderIff | src/text_utils/conversions.rs:19-78 | any two positions, ordered or not, convert in order if and only if their clamped lines, then the characters they denote, are in order |
| Positions.ConversionMonotoneIff | src/text_utils/conversions.rs:19-78 | positions in order convert in order if and only if they share a line, the earlier is before the last line, or their characters on the last line are in order |
| Positions.ConversionMonotone | src/text_utils/conversions.rs:19-78 | so conversion keeps line-then-column order on the lines of the text |
| Positions.ClampingLosesOrder | src/text_utils/conversions.rs:33-34 | past the end, lines clamp to one and order is lost: a concrete pair of positions |
| Positions.LspConversionComposesIff | src/text_utils/position.rs:41-46 | wire positions compose through a third encoding if and only if the intermediate column fits 32 bits, or the character it saturates to has a saturated column in the last encoding too |
| Positions.LspConversionMonotoneIff | src/text_utils/position.rs:41-46 | the exact order condition for wire positions, with no bound on the text: as for positions, or the later column saturates |
| Positions.LspConversionMonotone | src/text_utils/position.rs:41-46 | so order on wire positions survives conversion on the lines of the text, saturation included |
| Positions.LspRoundTripIff | src/text_utils/position.rs:41-46 | a UTF-8 wire position comes back from another encoding unchanged if and only if it is a character boundary of a line of the text, whatever the lengths of lines |
| Positions.NeverAhead | src/text_utils/position.rs:41-46 | whatever comes back is never ahead of what was sent, in line or in column |
| Positions.ConvertedLine | src/text_utils/conversions.rs:33-34 | converting a wire position changes its line only by clamping it to the text |
| LabelOffsets.SameEncodingKeepsOffsets | src/lsp_requests/conversion.rs:680-705 | between equal encodings an offset stays, past the label too |
| LabelOffsets.RecountRoundsUp | src/lsp_requests/conversion.rs:680-705 | a label offset inside a character moves past that character, where positions floor; a boundary stays |
| LabelOffsets.RecountMonotone | src/lsp_requests/conversion.rs:680-705 | recounting keeps the order of offsets |
| LabelOffsets.RecountRoundTripExact | src/lsp_requests/conversion.rs:680-705 | for every label, recounting there and back is the identity if and only if the offset is the wire's number for its character and no earlier character saturates in the other encoding |
| LabelOffsets.RecountRoundTripIff | src/lsp_requests/conversion.rs:680-705 | that is: exactly on the character boundaries no saturation reaches, for every offset but the wire's last, and exactly on boundaries when the label fits the wire |
| LabelOffsets.ConvertLabelOffsets | src/lsp_requests/conversion.rs:680-705 | the counting loops rewrite both offsets in place to their recounts, by the ceiling rule stated for them |
| TokenStreams.ProtocolExample | src/lsp_requests/conversion.rs:763-775 | the decoding that all stream results are stated through reads the example of LSP 3.17, "Semantic Tokens", as that specification does |
| TokenStreams.SameEncodingPasses | src/lsp_requests/conversion.rs:760-762 | between equal encodings a stream passes unchanged, whatever its seeds |
| TokenStreams.ConvertSeededTokenStream | src/lsp_requests/conversion.rs:748-799 | the in-place conversion leaves the array equal to the walk over its old contents from the given seeds, and untouched between equal encodings |
| TokenStreams.WalkInPlace | src/lsp_requests/conversion.rs:763-798 | the loop that carries the previous source and target positions computes the recursive walk |
| TokenStreams.AbsolutePosition | src/lsp_requests/conversion.rs:967-981 | folding a prefix gives the position the stream after it is relative to |
| TokenStreams.AfterConcat | src/lsp_requests/conversion.rs:967-981 | the position after two prefixes is reached in two steps |
| TokenStreams.SeedingIsHomomorphic | src/lsp_requests/conversion.rs:739-799 | converting `a + b` is converting `a`, then `b` seeded with `a`'s fold and that fold's conversion, for every stream and every text, clamped or not |
| TokenStreams.StartConvertsToStart | src/lsp_requests/conversion.rs:717-737 | the document's start converts to itself, so a whole-stream conversion is one seeded at the start in both encodings |
| TokenStreams.RelativizeExactIff | src/lsp_requests/conversion.rs:781-794 | a re-relativized token decodes back to its start if and only if that does not precede the previous one: the saturating subtractions lose nothing then |
| TokenStreams.TokenExactIff | src/lsp_requests/conversion.rs:763-794 | from the converted seed, a converted token decodes to the conversion of its extent if and only if order is kept; its end is always right |
| TokenStreams.WalkExactIff | src/lsp_requests/conversion.rs:748-799 | the same for whole streams and any conversion that keeps lines together |
| TokenStreams.StepOrdered | src/lsp_requests/conversion.rs:776-788 | a token's converted start does not fall behind the previous one if and only if it stays on its line, starts before the last line, or clamps to a character not behind the previous one (or to a saturated column) |
| TokenStreams.ConversionExactIff | src/lsp_requests/conversion.rs:707-799 | decoding the converted stream gives, token by token, the conversion of the decoded original, if and only if every step keeps order, a condition on lines and on characters of clamped lines only |
| TokenStreams.InDocumentConvertsExactly | src/lsp_requests/conversion.rs:707-799 | streams whose tokens start on lines of the document convert exactly, with no subtraction saturating |
| TokenStreams.TokenRoundTripIff | src/lsp_requests/conversion.rs:756-798 | after a position that comes back, an unsaturated token comes back if and only if its start and its end do |
| TokenStreams.RoundTripIff | src/lsp_requests/conversion.rs:756-798 | Outgoing then Incoming returns an unsaturated stream if and only if all its starts and ends are in-line character boundaries |
| TokenSplice.SortIsStable | src/lsp_requests/conversion.rs:1014-1015 | sorting by start orders the edits and leaves edits at one start in list order |
| TokenSplice.SpliceSemanticTokens | src/lsp_requests/conversion.rs:1011-1047 | the backwards loop over the flat array returns the regrouped back-to-front fold of the sorted edits |
| TokenSplice.BackToFrontIsAllAtOnce | src/lsp_requests/conversion.rs:1012-1025 | for sorted disjoint edits, applying them back to front equals applying all of them at once to the original array, as long as no edit inserts after one that overruns |
| TokenSplice.SpliceLengthBalances | src/lsp_requests/conversion.rs:1016-1025 | numbers kept, deleted and inserted balance |
| TokenSplice.OverrunsSwap | src/lsp_requests/conversion.rs:1017-1018 | any two insertions past the end of any array change places, so the splice is right if and only if their order does not matter |
| TokenSplice.FlatOrder | src/lsp_requests/conversion.rs:986-999 | the flat array holds each token as line delta, start delta, length, type and modifiers, in that order |
| TokenSplice.UnflattenFlatten | src/lsp_requests/conversion.rs:987-999 | regrouping a flattened stream by five gives the stream back |
| TokenSplice.FlattenSlice | src/lsp_requests/conversion.rs:987-999 | token-aligned slices of the flat array are the flat arrays of token slices |
| TokenSplice.AllAtOnceIsTokenwise | src/lsp_requests/conversion.rs:1011-1047 | for token-aligned edits the all-at-once splice of numbers is the all-at-once splice of tokens |
| TokenSplice.SpliceIsTokenwise | src/lsp_requests/conversion.rs:1003-1049 | for aligned, disjoint edits the cached stream becomes exactly the token-level splice, nothing lost in regrouping |
| TokenDelta.ConvertSemanticTokensEdits | src/lsp_requests/conversion.rs:924-962 | the edits are rewritten in place: unconverted on a cache miss, else each inserted run converted from its cached prefix, starts and counts untouched |
| TokenDelta.ConvertInserted | src/lsp_requests/conversion.rs:935-960 | both seeds are the cached prefix's fold and its conversion, so an inserted run converts as it would after that prefix |
| TokenDelta.ConvertedSort | src/lsp_requests/conversion.rs:1014-1015 | converting edits commutes with sorting them, so client and server apply them in one order |
| TokenDelta.WholeSlice | src/lsp_requests/conversion.rs:748-799 | every run of a converted stream is the conversion of that run seeded from its own prefix |
| TokenMoves.TokenByPassed | src/lsp_requests/conversion.rs:776-794 | a converted token counts the clamped lines it goes down, and the client units of the text it passes and of the text it covers, as far as the wire can count them |
| TokenMoves.RunMovesAlikeIff | src/lsp_requests/conversion.rs:763-798 | a run converts over one text after one position as over another text after another if and only if, until both places meet, its tokens go down as many lines and pass and cover text of equal client length |
| TokenMoves.SettledMovesAlike | src/lsp_requests/conversion.rs:763-798 | over one text, a run that begins on a later line of the document than the one line both positions are on converts alike in every encoding |
| TokenDelta.CoherentFromIff | src/lsp_requests/conversion.rs:924-1049 | from any kept token and any place the splice has come to, the client's splice is the conversion of the server's if and only if each kept and inserted run moves alike |
| TokenDelta.DeltaCoherentIffAlike | src/lsp_requests/conversion.rs:880-1049 | for any two texts and every well-shaped delta, the stream converted over the first, spliced with edits converted over the second, is the conversion of the server's splice if and only if every run moves alike |
| TokenDelta.DeltaCoherentIff | src/lsp_requests/conversion.rs:880-1049 | across any change of the text or none that is, if and only if the text each kept run passes and covers has the same client length where it stood before and where it stands now, and so for each inserted run at its two places now: a condition on texts and edits, without converting |
| TokenDelta.KeptEndsAdmissible | src/lsp_requests/conversion.rs:938-946 | edits whose inserted and deleted runs end at one position (the last edit exempt when nothing follows) are admissible |
| TokenDelta.DeltaCoherence | src/lsp_requests/conversion.rs:880-1049 | over unchanged text, if every run stands where it stood or begins on a new line of the document, the client's spliced stream is exactly the conversion of the server's spliced UTF-8 cache |
| TokenDelta.EndsMustBeKept | src/lsp_requests/conversion.rs:917-962 | a concrete well-shaped edit that does not keep its end leaves the client with a wrong stream |
| TokenDelta.ChangesMoveColumns | src/lsp_requests/conversion.rs:892-906 | a concrete change of the text that leaves the UTF-8 stream as it was: the empty delta leaves the client's column one short |
| TokenDelta.ModifyOutgoingDeltaResult | src/lsp_requests/conversion.rs:880-915 | full, delta and partial responses: what is sent is converted, and the slot only ever takes the server's UTF-8 values, under the new or the continued id |
| TokenDelta.ExchangeInSyncIff | src/lsp_requests/conversion.rs:880-915 | from sides in sync, a full response or a well-shaped delta leaves them in sync if and only if the delta's runs move alike from the text of the held stream to the text now |
| TokenDelta.SessionStaysInSync | src/lsp_requests/conversion.rs:866-915 | over every run of full and delta responses, with any changes of the text in between, the client's stream stays the conversion of the cache under the same result id, when each delta's runs move alike |
| TokenDelta.AdmissibleMoveAlike | src/lsp_requests/conversion.rs:866-915 | over unchanged text every admissible delta meets that condition |
| DocumentSync.ApplyBatch | src/server/state/documents.rs:162-205 | the loop over a batch computes its left fold and reports whether a change failed; `FoldConcat`, `WholeTextResets` and `WellFormedRangeReports` say what the fold is |
| DocumentSync.FoldConcat | src/server/state/documents.rs:157-205 | a batch whose first part applies goes on from the text that part leaves, and applies if and only if the rest does from there |
| DocumentSync.WholeTextResets | src/server/state/documents.rs:162-169 | after any changes that apply, a change of the whole text leaves exactly its text, and the rest of the batch goes on from it as if nothing had come before |
| DocumentSync.FailureKeepsPrefix | src/server/state/documents.rs:157-205 | a batch fails if and only if some change does not apply, and then leaves exactly the fold of the changes before the first such one |
| Snapshots.EditRope | src/server/state/documents.rs:163-204 | one change edits the working rope in place to the change's specification, or fails and leaves it alone; a change of the whole text leaves its text (`DocumentSync.WholeTextResets`) |
| Snapshots.Entry.Change | src/server/state/documents.rs:142-231 | a batch installs its fold as a fresh generation over a fresh rope, and no rope that existed before is touched |
| Snapshots.SnapshotAndChange | src/server/state/documents.rs:142-231 | earlier snapshots and the one just taken keep their texts through a batch, and share no rope with what follows |
| Snapshots.ChangeAll | src/server/state/documents.rs:132-245 | over every run of batches, each snapshot still holds the text of its time |
| DocumentSync.StartIndexableIff | src/server/state/documents.rs:561-564 | a change's start offset lies inside the text exactly under a condition on its line and column alone |
| DocumentSync.RangeResolves | src/server/state/documents.rs:561-573 | a range resolves exactly when the rope has both its lines; its end is inside the text and never before a start that is |
| DocumentSync.AppliesIff | src/server/state/documents.rs:561-573 | a ranged change applies if and only if the rope can index both lines and the start |
| DocumentSync.RangeIsInText | src/server/state/documents.rs:561-573 | in UTF-8 and UTF-16, a range that starts on a line of the text gives 0 <= start <= end <= length, so no rope edit fails |
| DocumentSync.PointMatchesIff | src/server/state/documents.rs:595-597 | a position's UTF-8 point is the point of the character its offset denotes if and only if it is within its line: before the LF, on a boundary in UTF-8, and naming a column the wire can hold |
| DocumentSync.OldEndMatchesIff | src/server/state/documents.rs:566-570 | the same for the raised and lowered end of a range: its point matches exactly when it is within its line and not before the start |
| DocumentSync.InsertedEnd | src/server/state/documents.rs:590-612 | the byte and the point after any inserted text, multi-line and multi-byte, are those of its end in the edited text |
| DocumentSync.CoherentIffPoints | src/server/state/documents.rs:581-632 | an edit built from two offsets is coherent in old and new text if and only if its two points are the points of those offsets |
| DocumentSync.EditCoherentIff | src/server/state/documents.rs:561-632 | the `InputEdit` of any range that resolves inside the text has matching bytes and points, for every inserted text, if and only if both ends are within their lines and in order |
| DocumentSync.WellFormedRangeReports | src/server/state/documents.rs:173-204 | a well-formed range always applies, replaces exactly its characters, and reports a coherent edit |
| DocumentSync.WellFormedBatchReports | src/server/state/documents.rs:157-205 | a well-formed batch never fails, and each reported edit is coherent with the texts just before and after its own change |
| DocumentSync.RangedChangeReports | src/server/state/documents.rs:157-205 | each ranged change that applies reports exactly one edit, in batch order, the one for its characters of the text just before it; the first change that does not apply ends the list |
| RangeBasics.Find | src/text_utils/range_ext/tree_sitter.rs:193 | the first occurrence of the delimiter, or none |
| RangeBasics.LocateLine | src/text_utils/range_ext/tree_sitter.rs:194-208 | the scan for the delimiter's row returns its row and the byte and character where its line starts |
| ByteRanges.SplitsAtDelimiter | src/text_utils/range_ext/bytes.rs:41-67 | a byte range splits into the bytes before the first delimiter and those after it, a piece missing exactly when empty, with neither inner split failing |
| ByteRanges.CutsFailIff | src/text_utils/range_ext/bytes.rs:11-39 | which error a cut or a subrange returns, and exactly the pieces it gives otherwise |
| ByteRanges.DelimitedFailsIff | src/text_utils/range_ext/bytes.rs:41-67 | a delimiter split reports a mismatched text first, then a wide delimiter, and nothing else |
| ByteRanges.TriFailsIff | src/text_utils/range_ext/bytes.rs:69-97 | a double split reports a wide delimiter first, then, but for an empty text, a mismatched text |
| TsRanges.FoundPoint | src/text_utils/range_ext/tree_sitter.rs:23-51 | the search for a point finds the one character there, wherever the search stands before it |
| TsRanges.SplitAt | src/text_utils/range_ext/tree_sitter.rs:11-67 | the row-and-column loop finds the byte of the point, end of text included, or reports it out of range |
| TsRanges.SplitAtCoherent | src/text_utils/range_ext/tree_sitter.rs:11-67 | on a range coherent with its text, a split succeeds exactly at character points, fails only as out of range, and both halves are coherent with the matching substrings |
| TsRanges.SplitAtFailsIff | src/text_utils/range_ext/tree_sitter.rs:11-67 | which error a split of any range returns: a text of another length first, then a point that is no character's |
| TsRanges.FindBytes | src/text_utils/range_ext/tree_sitter.rs:132-175 | one walk finds the bytes of two points, either of which may be the end of the text |
| TsRanges.Sub | src/text_utils/range_ext/tree_sitter.rs:107-183 | errors come in the source's order, and the subrange has the bytes found and the points composed with the start |
| TsRanges.SubCoherent | src/text_utils/range_ext/tree_sitter.rs:107-183 | a subrange of a coherent range exists exactly between ordered character points, and is coherent with the text between |
| TsRanges.SubFailsIff | src/text_utils/range_ext/tree_sitter.rs:107-183 | which error a subrange of any range returns: points out of order first, then a text of another length, then a point that is no character's |
| TsRanges.SplitsAreByteSplits | src/text_utils/range_ext/bytes.rs:11-39 | on bytes, tree-sitter splits and subranges are those of the byte range at the points' bytes |
| TsRanges.SubDelimited | src/text_utils/range_ext/tree_sitter.rs:185-260 | the row-tracking scan returns the ranges advanced over the text before and through the delimiter |
| TsRanges.SubDelimitedPartitions | src/text_utils/range_ext/tree_sitter.rs:185-260 | a delimiter split never fails on a coherent range and partitions its text around the first delimiter, each piece coherent, a piece missing exactly when empty |
| TsRanges.SubDelimitedTriPartitions | src/text_utils/range_ext/tree_sitter.rs:262-288 | a double split partitions the text, then the remainder after the first delimiter |
| TsRanges.AgreesWithBytes | src/text_utils/range_ext/tree_sitter.rs:185-260 | on bytes and on every error, delimiter splits equal the byte range's, for any range and text |
| TsRanges.TriAgreesWithBytes | src/text_utils/range_ext/tree_sitter.rs:262-288 | and so do double splits, though the remainder's text is found by bytes in one and by the delimiter in the other |
| TsRanges.ShrinkMovesAlike | src/text_utils/range_ext/tree_sitter.rs:69-105 | a coherent single-line range shrinks by each amount as far as it reaches, bytes and columns alike, and stays in order exactly when the amounts do not overlap; a range of more lines is refused |
| TsRanges.ShrinkCoherent | src/text_utils/range_ext/tree_sitter.rs:69-105 | shrunk to cuts at characters, a coherent range is coherent with the text between the two cuts, the left amount off its start and the right one off its end |
| LspRanges.SubDelimited | src/text_utils/range_ext/lsp.rs:107-166 | the line-tracking scan splits at the delimiter's line and character, passing on the split's errors |
| LspRanges.SplitsInside | src/text_utils/range_ext/lsp.rs:11-35 | a range over any coherent text, ASCII or not, splits at every character of it |
| LspRanges.SplitAtFailsIff | src/text_utils/range_ext/lsp.rs:11-35 | a split fails exactly when its absolute position lies after the range, and else gives the two ranges that meet there |
| LspRanges.DelimitedFailsIff | src/text_utils/range_ext/lsp.rs:107-166 | a delimiter split of any range fails exactly for a wide delimiter or for a needed cut outside the range |
| LspRanges.SplitArithmeticFits | src/text_utils/range_ext/lsp.rs:132-158 | on ranges whose rows and byte columns the wire can name, no sum or count of a split leaves 32 bits |
| LspRanges.AgreesWithTreeSitterIff | src/text_utils/range_ext/lsp.rs:107-166 | points and errors of a delimiter split equal the tree-sitter range's if and only if the delimiter's line is ASCII up to the delimiter |
| LspRanges.AgreesWithTreeSitter | src/text_utils/range_ext/lsp.rs:107-166 | so they agree on ASCII text |
| LspRanges.TriAgreesWithTreeSitterIff | src/text_utils/range_ext/lsp.rs:168-193 | double splits agree if and only if both delimiters' lines are ASCII up to them, the second's in the text after the first delimiter |
| LspRanges.TriAgreesWithTreeSitter | src/text_utils/range_ext/lsp.rs:168-193 | so they agree on ASCII text |
| LspRanges.NonAsciiSplitsDiffer | src/text_utils/range_ext/lsp.rs:132-133 | a text with one two-byte character before the delimiter, whose splits differ: the first pieces end one column apart |
| ReportSinks.WorkspaceReportSink.PushReport | src/workspace/diagnostics.rs:636-650 | a push replaces, keeps or appends by URI, and the index still maps exactly the reports' URIs to their positions |
| ReportSinks.WorkspaceReportSink.Absorb | src/workspace/diagnostics.rs:555-560 | pushing a list one by one is its fold, index and positions matching throughout |
| ReportSinks.MergeItems | src/workspace/diagnostics.rs:545-560 | a sink per item, folded in input order, ends as pushing all reports serially into one sink |
| ReportSinks.MergeIsHomomorphic | src/workspace/diagnostics.rs:552-560 | for arbitrary pushes, folding an item's finished sink replays its pushes: same reports, order and flags |
| ReportSinks.ReplaceCommutes | src/workspace/diagnostics.rs:642-649 | a replacing push of a present URI commutes with any push of another URI |
| ReportSinks.EachUriKeepsItsWinner | src/workspace/diagnostics.rs:636-650 | the list holds, for each pushed URI and no other, that URI's winning push |
| ReportSinks.WinnerMeaning | src/workspace/diagnostics.rs:625-650 | the winner is the last `replace` push of the URI, else its first push |
| ReportSinks.OrderIsFirstSeen | src/workspace/diagnostics.rs:625-633 | reports stay in the order their URIs were first pushed, whatever replaced them |
| ConfigGenerations.WorkspaceDiagnosticsState.NextGeneration | src/workspace/diagnostics.rs:130-132 | the 64-bit counter keeps the number of generations taken modulo its width |
| ConfigGenerations.WorkspaceDiagnosticsState.RequestConfiguration | src/workspace/diagnostics.rs:388-396 | a request takes the next generation as its token, or nothing happens when configuration cannot be requested |
| ConfigGenerations.WorkspaceDiagnosticsState.DidChangeConfiguration | src/workspace/diagnostics.rs:245-257 | pushed settings supersede outstanding requests and apply; settings without the key request instead |
| ConfigGenerations.WorkspaceDiagnosticsState.Reply | src/workspace/diagnostics.rs:405-418 | a reply changes `enabled` only under the current token and only with a value |
| ConfigGenerations.RunKeepsValid | src/workspace/diagnostics.rs:130-136 | over every run, requests are numbered in strictly increasing order and never forgotten |
| ConfigGenerations.MissingKeyRequests | src/workspace/diagnostics.rs:245-257 | settings without the key send one more request under a new generation that all earlier ones are behind, change no setting, and do nothing for a client that cannot be asked |
| ConfigGenerations.PushSupersedes | src/workspace/diagnostics.rs:251-254 | a pushed value applies at once, takes a generation that every outstanding request is behind, and sends none |
| ConfigGenerations.ReplyAppliesIffCurrent | src/workspace/diagnostics.rs:408-418 | a reply takes effect if and only if the generations taken since its request are a multiple of 2^64: none, short of that many |
| ConfigGenerations.WrappedTokenApplies | src/workspace/diagnostics.rs:408-418 | after exactly 2^64 further generations a stale reply is taken for a current one |
| ConfigGenerations.PushStands | src/workspace/diagnostics.rs:245-257 | over every interleaving, a pushed value stands until a later push or the reply to a later request |
| ConfigGenerations.ChangesOnlyBy | src/workspace/diagnostics.rs:388-437 | the setting only ever changes to a pushed value or to the reply of the last request sent |
| BoundedEngine.StepKeepsInv | src/workspace/parallel.rs:30-37 | each start and completion keeps: started items are in flight or done exactly once, with their own outcomes, within the slots |
| BoundedEngine.WidthBounds | src/workspace/parallel.rs:35 | in every state of every schedule at most `width` items are in flight, or one when `width` is zero |
| BoundedEngine.StartsFillSlots | src/workspace/parallel.rs:30-37 | a start waits for nothing but one of those slots, and the items start in input order |
| BoundedEngine.EveryRunTerminates | src/workspace/parallel.rs:30-37 | no schedule is longer than two actions per item, one that can go no further has finished, and a finished one has completed every item, failed ones included |
| BoundedEngine.CollectMeaning | src/workspace/parallel.rs:39 | the collected outcome is all values in input order, or the first error by input position |
| BoundedEngine.SortByIndex | src/workspace/parallel.rs:38 | a permutation of the completions in index order |
| BoundedEngine.SortedIsInputOrder | src/workspace/parallel.rs:38-39 | whatever the completion order, the sorted completions are the outcomes in input order |
| BoundedEngine.OutcomeIsSerial | src/workspace/parallel.rs:12-40 | over every schedule and every sort by index, the outcome is the serial map's |
| BoundedEngine.ForEachBounded | src/workspace/parallel.rs:21-40 | the loop that starts and completes items in an arbitrary order terminates with the serial outcome |
| Dispatch.RunKeepsInv | macros/src/dispatch.rs:377-430 | over every interleaving with any writes: after the snapshot the tracked document is the last write since, else the snapshot, else none, and what passed the second probe carries the version probed first |
| Dispatch.ResponseIsCurrentIff | macros/src/dispatch.rs:377-430 | over every interleaving, a response for a URL tracked at the second probe was converted, params and result, against one document, which is the one current there if and only if nothing was written since its snapshot or the last write put it back; such a last write carries the version probed first |
| Dispatch.ResponseIsNotStale | macros/src/dispatch.rs:377-430 | so when no write between the probes repeats the probed version, no such response is stale, whatever the order of versions |
| Dispatch.IncreasingNeverRepeats | src/server/with_state/mod.rs:41-46 | writes of strictly increasing version never repeat the probed one |
| Dispatch.ChangesNeverGoUnnoticed | macros/src/dispatch.rs:410-430 | so over every interleaving with `didChange` steps of increasing version no response is stale |
| Dispatch.RefusedIffWritten | macros/src/dispatch.rs:410-418 | over every interleaving, the second probe refuses a request if and only if its URL is tracked there and the last write since the first probe carries another version |
| Dispatch.ConvertsAgainstSnapshot | src/server/with_state/mod.rs:41-46 | over every interleaving, params and result are converted against the document tracked at the snapshot step, read off the writes before it, or for an untracked URL against the disk snapshot primed last before it |
| Dispatch.UndisturbedIsAnswered | macros/src/dispatch.rs:377-430 | a request with no write or close between its steps is answered after its seven steps, never refused: against the tracked document, or for an untracked URL against the one primed last before its snapshot step |
| Dispatch.SaveGoesUnnoticed | src/server/state/documents.rs:346-347 | a save repeats its document's version, so any request whose server call it overtakes answers for the old text |
| ChunkReader.DocumentReader.Read | src/documents/document.rs:387-419 | delivers exactly min(buffer length, bytes remaining), in order, leaves the rest of the buffer alone, and terminates over empty chunks too |
| ChunkReader.DocumentReader.NextChunk | src/documents/document.rs:396-403 | taking the next chunk changes nothing of what remains, and fails only at the end of the text |
| ChunkReader.DocumentReader.CopyFrom | src/documents/document.rs:405-415 | copies as much of the chunk as fits and drops it once exhausted |
| ChunkReader.ReadAll | src/documents/document.rs:387-419 | a caller's loop with any buffer sizes receives exactly the successive prefixes |
| ChunkReader.ReadsArePrefix | src/documents/document.rs:387-419 | reads of any sizes concatenate to the text's prefix of their total size |
| ChunkReader.EmptyReadMeansEnd | src/documents/document.rs:387-419 | a read of zero bytes into a non-empty buffer happens if and only if everything was delivered before it |
| TreeSearch.FindDescendant | src/tree_sitter_utils.rs:118-139 | terminates with the matching node first in breadth-first order, hence of least depth, or None exactly when no node of the subtree matches |
| TreeSearch.FindChild | src/tree_sitter_utils.rs:90-98 | the first matching direct child, or none |
| TreeSearch.FindAncestor | src/tree_sitter_utils.rs:100-116 | the nearest matching proper ancestor, or None exactly when there is none |
| TreeSearch.FindNearest | src/tree_sitter_utils.rs:164-192 | in nested trees, returns only matching nodes that contain the position, and None exactly when neither the subtree nor the ancestors have one; the breadth-first-least below before the nearest above |
| TreeSearch.NextIsQueued | src/tree_sitter_utils.rs:129-135 | one round keeps the queue in breadth-first order, at most two depths at a time |
| TreeSearch.NextIsComplete | src/tree_sitter_utils.rs:129-135 | one round on a non-matching node loses no matching node |
| TreeSearch.ContainsIsInterval | src/tree_sitter_utils.rs:62-73 | the containment test is the inclusive interval of the point order |
| TreeSearch.AncestorsContain | src/tree_sitter_utils.rs:181-190 | in nested trees a node's ancestors contain every position it contains |
| TreeSearch.OutsideHasNoMatch | src/tree_sitter_utils.rs:186-191 | outside a node's span nothing below it can match, so searching only ancestors misses nothing |
| StoreState.WalkCache.GetValid | src/server/state/walk_cache.rs:30-36 | a list is served exactly when present and not dirty |
| StoreState.WalkCache.Store | src/server/state/walk_cache.rs:38-42 | storing makes the list servable, dirty or not before |
| StoreState.WalkCache.Invalidate | src/server/state/walk_cache.rs:44-46 | the list is kept but no longer served |
| StoreState.WalkCache.Clear | src/server/state/walk_cache.rs:50-54 | the list is dropped and none is served |
| StoreState.ServerState.InsertDocument | src/server/state/documents.rs:22-79 | a fresh, unstamped installation that evicts the URL's token stream and touches nothing else |
| StoreState.ServerState.RetainDocuments | src/server/state/documents.rs:467-482 | exactly the kept documents remain, and exactly the dropped ones lose their token streams |
| HandlerEffects.RetainPerUrl | src/server/state/documents.rs:467-482 | a retention drops exactly the documents its test refuses, with their streams, and keeps every other URL as it was |
| StoreState.ServerState.HandleOpen | src/server/state/documents.rs:81-97 | the new state is the specification's, whose consequences `OpenInstalls` states |
| HandlerEffects.OpenInstalls | src/server/state/documents.rs:81-97 | an open installs the client's text, version and language as an Open document with no stamp and no stream, and touches nothing else |
| StoreState.ServerState.HandleClose | src/server/state/documents.rs:99-130 | the new state is the specification's, whose consequences `CloseDecides` states |
| HandlerEffects.CloseDecides | src/server/state/documents.rs:99-130 | a closed document stays, as a Workspace document at version 0 in its language with its file's text, if and only if diagnostics are supported and on, a matcher claims it, it is in the roots and its file is readable; else it goes with its stream |
| HandlerEffects.InRootsIff | src/server/state/workspace.rs:267-270 | a URL is in the roots exactly when its path continues one of them, component by component |
| StoreState.ServerState.HandleChange | src/server/state/documents.rs:132-291 | the new state is the specification's, whose consequences `ChangeInstallsFold`, `ChangeRecovers` and `ChangeTouchesOnly` state |
| HandlerEffects.ChangeTouchesOnly | src/server/state/documents.rs:132-245 | a change touches its own document and stream only, and nothing for an untracked URL |
| HandlerEffects.ChangeRecovers | src/server/state/documents.rs:247-291 | if a change of the batch does not apply and the file is readable, its text is installed afresh, without stamp and stream; else stamp and streams stay |
| StoreState.ServerState.HandleSave | src/server/state/documents.rs:293-355 | the new state is the specification's, whose consequences `SaveInstallsText` and `SaveStaysCoherentIff` state |
| StoreState.ServerState.HandleWatchedFiles | src/server/state/documents.rs:372-430 | the loop over a batch of events leaves the specification's state, which `FileEventsPerUrl` and `FileEventsMarkWalk` state per URL |
| HandlerEffects.FileEventsPerUrl | src/server/state/documents.rs:372-430 | for every batch of events, each Workspace document is dropped if one deleted its file, else holds the text the last readable created or changed event read, at version 0, in its language, with no stamp and no stream, else is as it was; Open documents, untracked URLs and ignore files stay |
| HandlerEffects.FileEventsMarkWalk | src/server/state/documents.rs:372-400 | the walk list is served no more after an event for an ignore file, a creation or a deletion, and only then |
| StoreState.ServerState.HandleFilesGone | src/server/state/documents.rs:432-465 | the loop leaves the specification's state, which `FilesGonePerUrl` states per URL |
| HandlerEffects.FilesGonePerUrl | src/server/state/documents.rs:432-465 | exactly the named Workspace documents go, with their streams; URIs that do not parse, Open documents and all else stay |
| StoreState.ServerState.HandleFoldersChange | src/server/state/workspace.rs:25-56 | the loops leave the specification's state, which `FoldersPerUrl` and `FoldersMove` state per URL |
| HandlerEffects.FoldersPerUrl | src/server/state/workspace.rs:25-56 | exactly the Workspace documents under the roots that the removed folders had go, whatever is added; every other document and stream stays |
| HandlerEffects.FoldersMove | src/server/state/workspace.rs:25-56 | the walk list goes, a URL has a root afterwards if the last addition with a path gave it one or it had one that was not removed, and no switch moves |
| StoreState.ServerState.SetDiagnosticsEnabled | src/server/state/mod.rs:183-189 | reports whether the switch changed, and switching off leaves only Open documents |
| StoreState.ServerState.ApplyDiagnosticsEnabled | src/workspace/diagnostics.rs:422-433 | the new state is the specification's, which `SwitchPerUrl` states per URL |
| HandlerEffects.SwitchPerUrl | src/workspace/diagnostics.rs:422-433 | off drops exactly the Workspace documents and the walk list, on makes the list stale and drops nothing, and a switch to where it stood does nothing |
| StoreState.ServerState.RespondWithTokens | src/lsp_requests/conversion.rs:880-915 | a token response is sent and its slot kept as the specification says, whose consequences the rows of `TokenSessions` state |
| TokenSessions.StoredIsHeld | src/server/state/mod.rs:210-212 | a stored stream is its URL's, and no other stream, document or setting changes |
| TokenSessions.FullResponseStores | src/lsp_requests/conversion.rs:808-823 | a full response is sent converted from the document's start, and under an id the URL's slot becomes that id with the server's own UTF-8 data, everything else untouched; without an id nothing is stored |
| TokenSessions.MissPassesThrough | src/lsp_requests/conversion.rs:924-933 | without a cached stream, edits, partial ones too, are sent as they came and nothing is stored |
| TokenSessions.EditsConverted | src/lsp_requests/conversion.rs:938-960 | with one, each edit keeps its start and count and its inserted run is converted after the tokens wholly before it in the cached stream |
| TokenSessions.PartialConverts | src/lsp_requests/conversion.rs:909-913 | a partial delta is sent with its edits converted, and nothing is stored |
| TokenSessions.DeltaSplices | src/lsp_requests/conversion.rs:892-908 | a delta's own UTF-8 edits are spliced into the held stream, kept under the delta's id or else the held one, and its edits are sent converted |
| TokenSessions.SlotIsSession | src/lsp_requests/conversion.rs:880-915 | over every run of responses for any documents, each URL's slot in the store is the server's side of the session of that URL's responses alone |
| TokenSessions.StoreStaysInSync | src/lsp_requests/conversion.rs:866-915 | so a client in sync with a document's slot in the store stays in sync with it over every such run, while that document's deltas move alike |
| StoreState.ServerState.LoadDocument | src/server/state/workspace.rs:218-258 | the new state is the specification's, whose consequences `LoadInstalls`, `LoadLeaves` and `LoadStaysCoherent` state |
| HandlerEffects.LoadInstalls | src/server/state/workspace.rs:218-258 | a load trusts a Workspace document under the file's stamp and changes nothing; else it installs the text read, in the walk's language at version 0, under the stamp probed before the read, or reports an unreadable file and changes nothing |
| HandlerEffects.LoadTwiceSkips | src/server/state/workspace.rs:218-258 | a stamped file loaded again from a disk that stood still is not read again |
| StoreState.ServerState.WalkFiles | src/server/state/workspace.rs:106-116 | the list and the cache are the specification's, whose consequences `RefreshKeepsList`, `RefreshRefinesScratch` and `ActsKeepWorldInv` state |
| HandlerEffects.RefreshKeepsList | src/server/state/workspace.rs:102-116 | a client with watchers is served its valid list whatever the disk, and keeps a fresh one for the next refresh; one without walks every time and keeps nothing |
| StoreState.ServerState.RefreshWorkspaceDocuments | src/server/state/workspace.rs:92-164 | leaves the specified store and reports its URLs strictly sorted, hence without duplicates |
| HandlerEffects.IdleRefreshReportsAll | src/server/state/workspace.rs:92-100 | with diagnostics off or unsupported, or without roots, a refresh reports every tracked URL and does nothing |
| HandlerEffects.FailedWalkLeavesAll | src/server/state/workspace.rs:102-116 | a refresh whose walk fails leaves everything and reports nothing |
| UrlOrder.BeforeIff | src/server/state/workspace.rs:161-163 | one URL comes before another exactly when it is a proper prefix of it, or smaller at the first difference |
| UrlOrder.SortedUnique | src/server/state/workspace.rs:161-163 | the strictly sorted list of a set of URLs is unique, so the reported order is determined |
| UrlOrder.SortUrls | src/server/state/workspace.rs:154-163 | deduplicates and sorts |
| StoreRuns.StepKeepsInv | src/server/state/documents.rs:22-482 | each handler keeps: token streams only for tracked URLs, Workspace documents at version 0 |
| StoreRuns.RunKeepsInv | src/server/state/documents.rs:22-482 | and so does every sequential run whose stored streams are for tracked documents |
| StoreRuns.EditorOwnsOpenDocuments | src/server/state/documents.rs:372-482 | no refresh, watched-file, rename, delete, folder or switch step removes or rewrites an Open document |
| StoreRuns.RunKeepsOpen | src/server/state/workspace.rs:92-204 | and so over every run of such steps |
| StoreRuns.RunKeepsOff | src/server/state/mod.rs:183-189 | over every run, while diagnostics are switched off only Open documents are tracked |
| StoreRuns.StreamsFollowText | src/server/state/documents.rs:74-78 | apart from a change and a stored stream, no handler leaves a token stream cached for a text it replaced |
| StoreRuns.OnlyOpenAndRefreshTrack | src/server/state/documents.rs:391-395 | only opening and refreshing ever track a new URL |
| StoreRuns.ClosedLeavesTheEditor | src/server/state/documents.rs:99-130 | a closed document is never Open and keeps no stream; it stays only inside the roots with diagnostics on; all others are untouched |
| StoreRuns.SaveInstallsText | src/server/state/documents.rs:293-355 | a save gives a tracked document the sent text, else the disk's, and drops it when there is neither; version, language, origin and stamp stay, exactly its own token stream goes, all other documents and caches are untouched |
| StoreRuns.ChangeInstallsFold | src/server/state/documents.rs:132-291 | a batch installs its whole fold when every change applies, else the disk's text when readable, else the fold before the first failing change; other documents are untouched |
| WorkspaceRefresh.WritesEvolve | src/server/state/workspace.rs:207-211 | a write with the next stamp, or a deletion, is a disk history in which no old stamp names new contents |
| WorkspaceRefresh.StaysCoherent | src/server/state/workspace.rs:260-265 | stamps that vouch for their texts go on doing so however the disk moves on |
| WorkspaceRefresh.LoadStaysCoherent | src/server/state/workspace.rs:218-258 | a load keeps that even when its file is written between the stamp probe and the read |
| WorkspaceRefresh.LoadLeaves | src/server/state/workspace.rs:218-258 | a load that trusts its stamp or reads leaves the file's text when the file is not written after the load looked at it; an unreadable file leaves everything as it was |
| WorkspaceRefresh.LoadsLeave | src/server/state/workspace.rs:135-152 | after settled loads exactly the readable files are reported, with the disk's texts, and everything else is as it was |
| WorkspaceRefresh.PickExactly | src/server/state/workspace.rs:118-133 | the walked files are parted into exactly those whose documents are open and those to load |
| WorkspaceRefresh.RefreshLeaves | src/server/state/workspace.rs:92-164 | what a refresh reports and leaves, in terms of the disk at its end alone: it reports the walked URLs that are open or readable; in the roots exactly the readable ones that are not open are Workspace documents, with the disk's texts; outside only those are loaded; Open documents are as they were |
| WorkspaceRefresh.SaveStaysCoherentIff | src/server/state/documents.rs:305-347 | stamps go on vouching for their texts after a save if and only if the saved Workspace document has no stamp, its stamp is no longer the file's, or the installed text is the file's |
| WorkspaceRefresh.DiskSavesAreHonest | src/server/state/documents.rs:308-309 | a save that sends no text meets that condition whenever the file its URL's undecoded path names reads like the URL's own file, so always for a URL without escapes |
| WorkspaceRefresh.RefreshRefinesScratch | src/server/state/workspace.rs:92-164 | a refresh served by walk list and stamps reports the same URLs and leaves the same Workspace texts inside the roots and the same Open documents as walking and reading everything again; a client without watchers needs nothing of the list |
| WorkspaceRefresh.ActsKeepWorldInv | src/server/state/walk_cache.rs:28-54 | over every run of disk writes, handlers, walks and stores with members and roots standing in between, stamps vouch for their texts, and a servable list is what a walk would find unless a membership change since it was fresh is still undelivered |
| WorkspaceRefresh.EveryRefreshRefinesScratch | src/server/state/workspace.rs:92-164 | at any point of any such run a refresh refines one from scratch, by clients with and without watchers; only a list that is served needs every membership change delivered |
| WorkspaceRefresh.StartedListIsServed | src/server/state/workspace.rs:106-112 | whatever runs between a walk and its `store`, invalidations, clears and folder changes included, the list then served is the one the walk was started for, with nothing left to deliver |
| WorkspaceRefresh.StoredListRightIff | src/server/state/walk_cache.rs:38-42 | the stored list is right, whatever the walk finds, if and only if at the `store` the disk's members, the ignore rules and the roots, read off the run in between, are those the walk was started for |
| WorkspaceRefresh.LateInvalidationIsLost | src/server/state/walk_cache.rs:38-42 | for any run in between after which the walk would find another list, the invalidation is lost and a client with watchers is served the old list |
| WorkspaceRefresh.SavedWorkspaceDocumentGoesStale | src/server/state/documents.rs:346-347 | a saved Workspace document keeps its stamp, and the next refresh serves the saved text for the disk's |

## Left out

- Transport, middleware, stdio and the tower layers: I/O.
- The real file system, globs and ignore rules: the walk, the matchers and a URL's path are parameters of the model, and a walk depends only on the set of files, the ignore state and the roots.
- Parsing and syntax trees inside documents: only the numbers of the tree-sitter edit are modelled.
- Line breaks other than LF: the tree-sitter edit counts only LF, so the model's lines do too.
- Capability negotiation, the method inventory, logging, error mapping, per-request conversion hooks and field plumbing, proc-macro parsing: they would only add easy members.
- Setting the folders at `initialize`, `sole_document`, a document's derived-value memo, the bound and the stamps of the conversion-fallback cache: not modelled.
- Memory ordering of atomics and lock poisoning: every lock-protected or atomic action is one step.
- Reference counts and the sharing of a rope's inner nodes: `Snapshots` clones whole ropes. The store keeps documents as values, so only `Snapshots` models their aliasing.
- Store handlers run one at a time, and a refresh's loads run in list order: a file listed twice by nested roots and loaded by two workers at once is not modelled. That a parallel map has the serial outcome is proved separately in `BoundedEngine`.
- The final sort of merged reports by URI, and the body of a report beyond its URI.
- A URL's path is opened with its escapes undecoded by the notification handlers, but a refresh opens the walked path: the model keeps both (`Config.named`), without modelling the escaping itself.
- LSP and byte `shrink` and LSP `sub`: the same clamps without a text; only the tree-sitter forms are proved.
- LspRanges.SubDelimited: line and character arithmetic is unbounded here, where the source adds 32-bit numbers; `SplitArithmeticFits` says when no sum leaves 32 bits.
- DocumentSync.EditCoherentIff: covers ranges whose start is inside the text; for a UTF-32 start past it the source's rope call panics before an edit exists, which `StartIndexableIff` delimits but the model does not represent.
- ConfigGenerations.WorkspaceDiagnosticsState.NextGeneration: the counter wraps; the source's extra `+ 1` on the fetched value would panic at the wrap in a debug build.
- ConfigGenerations.PushStands: assumes fewer than 2^64 generations in the run, without which `WrappedTokenApplies` is a counterexample.
- Dispatch.ResponseIsCurrentIff: the server's own error replies and URL-less requests are not modelled; saves and the second installation of a failed batch are writes like any other.
- TokenDelta.SessionStaysInSync: excludes partial token results, which carry no result id to continue from.
- WorkspaceRefresh.EveryRefreshRefinesScratch: assumes fresh stamps per write, membership changes delivered for a list that is served, members and roots that stand between a walk and its `store`, no file written after its load looked at it, and honest saves; `StoredListRightIff` and `SaveStaysCoherentIff` show the third and the last are exact. The loads of a refresh are one action with its walk, unless the walk is taken apart into `StartWalk` and `StoreWalk`.
