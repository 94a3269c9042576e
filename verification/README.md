# Verified model of the repository's decision logic

This project models, in Dafny, the parts of the repository that decide something over unbounded input, and proves what they are relied on for. It stands alone: `dafny verify dfyconfig.toml` checks it. Nothing of the original program is executed here.

## What is modelled

**Bytecode reproducibility** (`Cbor`, `CborEncoding`, `MetadataBoundary`, `ImmutableAuthority`, `BytecodeReplay`, `EvidenceCheck`). The reader of the CBOR subset in solc metadata (RFC 8949, section 3.1), the decoder that works backwards from the two-byte length, the authority check over immutable ranges, the offset scan and in-place masking of the replay, and the check of a manifest against the replayed facts. Buffers are arrays; each method over them is proved against a function of its contents, and the theorems are about those functions. The reader is characterised completely: it accepts exactly the encodings of well-formed trees whose keys convert and whose entries can be assigned, to plain objects with prototypes.

**Scan projection** (`SarifModel`, `SarifBuilder`, `SarifValidator`, `SarifProperties`, `SarifTheorems`, `SarifGate`). The builder that reduces a scan's two raw outputs to one result for each project-owned finding, the validator that derives its post-conditions again, and the triage comparison. `Projectable` says, without the builder, when a projection exists.

**Egress observer** (`Tracefs`, `TraceSession`, `ControlProtocol`, `ControlLines`, `Observer`, `ObserverFaults`, `EvidenceFile`). The tracing session is a class over a file system whose every operation may work, throw, be silently lost, or take effect and throw, whose readings may throw, and whose existence tests may fail and then say no. The control protocol is a class proved against a step function, and that against an order stated on its own. `main` is a machine whose main line, heartbeats, tool lines and tool exit interleave freely, each operation free to fail.

**Append-only history** (`AppendOnlyHistory`). Checks on single edges of a commit graph, and the guarantee over whole paths.

**Finding identity** (`SolidityLexer`, `SolidityGrammar`, `SolidityTwice`, `LineReferences`, `FindingIdentity`, `FindingChanges`, `FindingMatch`, `Relocation`). The comment stripper against a reference lexer, the identity and fingerprints of findings, and the match between two runs when code moves.

**Graphs and canonical text** (`ImportClosure`, `PublicationContainer`, `PublicationExamples`, `CanonicalJson`, `JsonText`, `CoveredContent`). Text read from git is trimmed where the source trims it, and a diff lists a renamed file by its new name.

`Wrappers`, `Seqs`, `Sorting`, `Strings` and `Counting` hold what these share.

## Where code and documentation differ

- The comment on `canonicalCoveredContentDigest` calls the digest independent of the order sources are listed in. The sort compares normalised paths only, so two spellings of one path with different digests keep their listing order: `CoveredContent.SpellingsCanShowOrder` gives the input, `CoveredContent.CommitmentIgnoresOrder` the exact condition.
- The comment on `decodeSolcMetadataBoundary` says that the decoded map contains only known solc metadata keys, which `solc` must be among. An entry named `__proto__` with a map sets the decoded object's prototype, and the test for "solc" sees through it; with a number it is ignored, and the test of the keys never sees it. `MetadataBoundary.BorrowedSolcAccepted` and `MetadataBoundary.IgnoredProtoAccepted` give the inputs; what is accepted is as documented exactly when no entry is named `__proto__` (`MetadataBoundary.AcceptedAsDocumented`).
- The receipt's and the triage record's bytes at the head are to be the published ones. They are read through a helper that trims what git prints, so whitespace around them may differ: `PublicationExamples.NewlineVerifies` gives the input, `PublicationContainer.VerifiedBytes` the exact condition.
- A container is to change the receipt and nothing else. The diff lists a renamed file by its new name alone, so a commit that renames another file to the receipt passes: `PublicationExamples.RenameVerifies` gives the input, `PublicationContainer.CandidateChanges` and `PublicationContainer.CandidateKeepsContracts` say exactly what changed.
- The identity's comment says scanner emission order cannot perturb it. Elements whose sort keys tie under the collation keep their order: `FindingIdentity.EmissionOrderCanShow` gives the input, `FindingIdentity.EmissionOrderHidden` the exact condition.
- `mark` is documented to number markers with no gap. A write that throws spends its number: `Observer.LostMarkLeavesGap` gives the input, `Observer.NumbersGaplessExactly` the exact condition. A run that returns 0 has no gap (`Observer.ZeroMeansGoodTrace`).
- `close` is to report whatever it leaves behind. As long as every operation is done or throws without effect, an empty report does mean that everything is undone, whatever the existence tests answer (`TraceSession.TraceSession.Close`, `TraceSession.Observe`). It takes an operation that lies, besides existence tests that fail to no: an empty report leaves the instance exactly when its creation took effect and threw, or its removal returned without effect. The last clause of `Close` gives the case of the removal.
- Normalising source is not idempotent on a literal cut off by a newline: `SolidityTwice.CutLiteralsCanShow` gives the input, `SolidityTwice.NormalisedTwiceExactly` the exact condition.

## Model

| member | source | states |
|---|---|---|
| `Cbor.ItemAt` | scripts/lib/reproducibility-evidence.ts:141-197 | An accepted item consumes at least one byte and ends inside the buffer, whatever maps it nests; the recursion ends on every buffer. |
| `Cbor.ReadItem` | scripts/lib/reproducibility-evidence.ts:141-197 | The cursor-driven reader computes the specified item on every buffer, refusals included. |
| `Cbor.ReadEntries` | scripts/lib/reproducibility-evidence.ts:173-186 | The loop that fills the map computes the specified record, as assignment to a plain object does: a later key replaces an earlier one, "__proto__" sets the prototype to an object, a byte string or none and ignores other values. |
| `CborEncoding.ReadsEncoding` | scripts/lib/reproducibility-evidence.ts:141-197 | Reading the encoding of any item, at any place, in any width of its lengths, yields its value (or the refusal of a map key that has no property name, or of an assignment that throws) and consumes exactly the encoding (RFC 8949, section 3.1). |
| `CborEncoding.TreeOf` | scripts/lib/reproducibility-evidence.ts:141-197 | Conversely, the bytes of every accepted item are the encoding of some tree with that value. |
| `CborEncoding.PrefixFree` | scripts/lib/reproducibility-evidence.ts:141-197 | No accepted item is a proper prefix of another. |
| `CborEncoding.ItemsAreEncodings` | scripts/lib/reproducibility-evidence.ts:141-197 | The accepted byte strings are exactly the encodings of well-formed trees whose keys convert to names, by way of the prototypes their maps were given, and whose entries can be assigned. |
| `CborEncoding.NumberIsIndex` | scripts/lib/reproducibility-evidence.ts:173-186 | A number used as a key is named by its decimal numeral, which is an index of that value. |
| `CborEncoding.ScalarNames` | scripts/lib/reproducibility-evidence.ts:173-186 | Truth values and null used as keys are named as the language writes them. |
| `MetadataBoundary.DecodeSolcMetadataBoundary` | scripts/lib/reproducibility-evidence.ts:220-264 | The decoder over a buffer computes the specified boundary. |
| `MetadataBoundary.FindsAppendedMetadata` | scripts/lib/reproducibility-evidence.ts:220-264 | After any code, an appended map with known names and a "solc", its own or inherited, and its two-byte length are found where they start, with the whole record. |
| `MetadataBoundary.FindsWrittenFields` | scripts/lib/reproducibility-evidence.ts:220-264 | For every code and every map of distinct known text keys that writes "solc", the decoded fields are the ones written. |
| `MetadataBoundary.AcceptedIsAppendedMetadata` | scripts/lib/reproducibility-evidence.ts:220-264 | Conversely an accepted bytecode is code, one encoded map whose own names are known and which has a "solc", its own or inherited, and its length, with nothing left over. |
| `MetadataBoundary.AcceptedOwnsSolc` | scripts/lib/reproducibility-evidence.ts:220-264 | An accepted map owns its "solc" exactly when one of its entries names it; otherwise an entry named "__proto__" lends it. |
| `MetadataBoundary.AcceptedAsDocumented` | scripts/lib/reproducibility-evidence.ts:220-264 | The entries of what is accepted name only known keys, "solc" among them, exactly when no entry is named "__proto__". |
| `MetadataBoundary.AcceptedWithoutLending` | scripts/lib/reproducibility-evidence.ts:220-264 | An accepted map none of whose "__proto__" entries holds a map with "solc" has a "solc" of its own beside known names; entries that were ignored are not among its own. |
| `MetadataBoundary.BorrowedSolcAccepted` | scripts/lib/reproducibility-evidence.ts:220-264 | After any code, a map whose only entry is "__proto__" with a map that has "solc" is accepted, without a known name of its own. |
| `MetadataBoundary.IgnoredProtoAccepted` | scripts/lib/reproducibility-evidence.ts:220-264 | After any code, a map with "solc" and a number under "__proto__" is accepted as if only "solc" were written. |
| `MetadataBoundary.AcceptedRegionEndsTheBuffer` | scripts/lib/reproducibility-evidence.ts:220-264 | The accepted region runs to the buffer's end, and the item fills exactly the declared bytes. |
| `ImmutableAuthority.FlattenImmutableRanges` | scripts/lib/reproducibility-evidence.ts:724-731 | The flattened list pairs each range with its identity, in listing order. |
| `ImmutableAuthority.NeighbourCheckIsExact` | scripts/lib/reproducibility-evidence.ts:804-813 | With lengths of at least one, comparing neighbours after sorting by start reports an overlap exactly when some two ranges overlap. |
| `ImmutableAuthority.ValidateImmutableAuthority` | scripts/lib/reproducibility-evidence.ts:742-816 | The check is silent exactly on authorized claims: identities in bijection with references and declared in the AST, every range in bounds, outside metadata, 1 to 32 bytes long and disjoint from every other; and each error it reports is so. |
| `ImmutableAuthority.AuthorizedIdentitiesHaveRanges` | scripts/lib/reproducibility-evidence.ts:742-816 | Under authority every identity has a range and every range an identity. |
| `BytecodeReplay.MaskRanges` | scripts/lib/reproducibility-evidence.ts:822-826 | The in-place fills over a copy compute the masked buffer, and throw exactly when a range does not fit. |
| `BytecodeReplay.DiffOffsets` | scripts/lib/reproducibility-evidence.ts:884-887 | The scanned offsets are exactly those where the buffers differ. |
| `BytecodeReplay.DeriveFacts` | scripts/lib/reproducibility-evidence.ts:859-1002 | The replay over three buffers computes every specified fact, fails exactly when a fill is out of bounds or a needed word cannot be derived, and its authority errors are empty exactly under authority. |
| `BytecodeReplay.SelectedAre` | scripts/lib/reproducibility-evidence.ts:873-881 | Without authority the zones are those of exactly the references some identity names. |
| `BytecodeReplay.AgreementForcesEqualSizes` | scripts/lib/reproducibility-evidence.ts:866-870 | Two decoded boundaries that agree force equal sizes. |
| `BytecodeReplay.ScanAgreesWithMasking` | scripts/lib/reproducibility-evidence.ts:884-930 | For any ranges, the scan accounts for every differing offset exactly when the two masked buffers are equal: the two computations cannot disagree. |
| `BytecodeReplay.ExecutableMatchMeans` | scripts/lib/reproducibility-evidence.ts:895-935 | With authority, no fill is out of bounds, and the executable match holds exactly when the sizes are equal and every differing byte is an authorized immutable's or, when the boundaries agree, metadata's; the hash conjunct adds nothing. |
| `BytecodeReplay.NoMatchWithoutAuthority` | scripts/lib/reproducibility-evidence.ts:895-935 | Without authority the executable match is false, whatever the bytes. |
| `BytecodeReplay.MetadataMatchMeans` | scripts/lib/reproducibility-evidence.ts:895-941 | With authority, the metadata match holds exactly when the boundaries agree and no byte is only metadata's. |
| `BytecodeReplay.TrailerCountMeans` | scripts/lib/reproducibility-evidence.ts:884-941 | With authority and agreeing boundaries, the trailer count is the number of offsets from the region's start on at which the buffers differ. |
| `BytecodeReplay.NormalizedHashMeans` | scripts/lib/reproducibility-evidence.ts:904-935 | With authority, the reported hash is that of the local buffer with the authorized immutables' bytes and the agreed metadata zeroed and no other byte changed. |
| `BytecodeReplay.ImmutablesVerifiedMeans` | scripts/lib/reproducibility-evidence.ts:947-982 | The immutables are verified exactly when the claims are authorized and each identity's pinned word is the derived one and, at every range of its reference, is byte for byte what the live buffer holds from the range's start to its end. |
| `BytecodeReplay.ObservedMeans` | scripts/lib/reproducibility-evidence.ts:947-978 | The word reported as observed for an authorized identity is the one that stands at all its ranges, when there is one, and occurrences agree exactly then. |
| `BytecodeReplay.ReplayableMeans` | scripts/lib/reproducibility-evidence.ts:859-982 | With authority the replay throws exactly when some identity derives no word. |
| `BytecodeReplay.MaskedByteCount` | scripts/lib/reproducibility-evidence.ts:904-925 | With authority and agreeing boundaries, the masked bytes number the ranges' lengths plus the metadata region, in whatever order the ranges are listed. |
| `EvidenceCheck.CheckEvidenceAgainstManifest` | scripts/lib/reproducibility-evidence.ts:1133-1230 | The check is ok exactly when nothing failed before and the manifest agrees with every replayed fact. |
| `EvidenceCheck.CheckArtifact` | scripts/lib/reproducibility-evidence.ts:1170-1225 | The artifact part is silent exactly on agreement, the containment check included. |
| `EvidenceCheck.OutsideOffsets` | scripts/lib/reproducibility-evidence.ts:1195-1199 | No offset is reported outside exactly when each differing offset lies in the region or in an authorized range. |
| `EvidenceCheck.AgreementLocatesMetadata` | scripts/lib/reproducibility-evidence.ts:1139-1149 | An agreeing manifest has both metadata regions decoded, at the same place, in buffers of one size. |
| `EvidenceCheck.MetadataMismatchForcesExecutableMatch` | scripts/lib/reproducibility-evidence.ts:1171-1206 | An agreeing artifact manifest that admits a metadata mismatch claims an executable match, and rightly: outside metadata and the authorized immutables no byte differs. |
| `EvidenceCheck.AgreementIsTruth` | scripts/lib/reproducibility-evidence.ts:1170-1206 | An agreeing artifact manifest's two booleans are the truth about the buffers, and where it admits a metadata mismatch its trailer count is the number of metadata bytes that differ. |
| `EvidenceCheck.AgreementStatesSizes` | scripts/lib/reproducibility-evidence.ts:1133-1170 | An agreeing manifest states the three true sizes, and one that calls itself reproducible has an artifact manifest. |
| `EvidenceCheck.AgreementStatesHashAndWords` | scripts/lib/reproducibility-evidence.ts:1170-1225 | An agreeing artifact manifest's hash is that of the local buffer with the authorized bytes and the metadata zeroed; if immutables are declared it calls them verified, and each one's word stands at its ranges. |
| `EvidenceCheck.EvidenceThatCanAgree` | scripts/lib/reproducibility-evidence.ts:1133-1220 | Some artifact manifest agrees with the evidence exactly when the claims are authorized, the boundaries agree, the metadata is equal or everything before it is, the authorized immutables aside, and every identity's word stands, byte for byte, where it must; then the truthful manifest does. |
| `EvidenceCheck.MetadataMatchIsSuffixEquality` | scripts/lib/reproducibility-evidence.ts:938-941 | With agreeing boundaries, the metadata match is equality of the two suffixes from the region's start. |
| `CanonicalJson.CanonicalForm` | scripts/reproducibility-evidence.ts:249-255 | Two JSON values have the same canonical text exactly when they are equal up to key order at every depth. |
| `CanonicalJson.TextDecodes` | scripts/reproducibility-evidence.ts:249-255 | Reading a value off the front of any text is unambiguous, up to key order. |
| `JsonText.ReadsItsText` | scripts/reproducibility-evidence.ts:249-255 | A reader written from RFC 8259 alone reads the canonical text of every value back as that value, the keys of every object ascending, and stops where the text ends. |
| `CoveredContent.CommitmentTextInjective` | scripts/lib/reproducibility-evidence.ts:531-538 | Equal commitment texts come from equal sorted lists: no separator smuggled through a path makes two lists serialize alike. |
| `CoveredContent.CommitmentReads` | scripts/lib/reproducibility-evidence.ts:531-538 | Read as JSON, the hashed text is the list of path and digest pairs, each as often as it is listed, in ascending order of paths. |
| `CoveredContent.CommitmentIgnoresOrder` | scripts/lib/reproducibility-evidence.ts:531-538 | For a hash without collisions, the commitment ignores the listing order exactly when no path, its separators made uniform, is recorded with two digests. |
| `CoveredContent.OneDigestIgnoresOrder` | scripts/lib/reproducibility-evidence.ts:531-538 | Whatever the hash, one digest for each path makes the commitment ignore the listing order. |
| `CoveredContent.CommitmentBindsContent` | scripts/lib/reproducibility-evidence.ts:531-538 | Equal commitments come from equal entries, as multisets. |
| `CoveredContent.SpellingsCanShowOrder` | scripts/lib/reproducibility-evidence.ts:531-538 | Two spellings of one path with different digests make the listing order show. |
| `CoveredContent.LowerCaseDigits` | scripts/lib/reproducibility-evidence.ts:531-538 | Digests are compared with their hexadecimal digits in lower case. |
| `AppendOnlyHistory.ChangedEdges` | scripts/lib/append-only-history.ts:83-104 | The edges compared are exactly those to a parent that holds the record, where the commit holds another object or none, and an introduction at each commit that holds the record while no parent does. |
| `AppendOnlyHistory.FileHistoryErrors` | scripts/lib/append-only-history.ts:111-124 | The check is silent exactly on a complete history in which every edge passes the rule. |
| `AppendOnlyHistory.FileCleanMeans` | scripts/lib/append-only-history.ts:83-124 | A clean history, commit by commit: against each parent with the record the commit has the same object or passes the rule, an introduction passes against nothing, and what is on disk is HEAD's or passes against it. |
| `AppendOnlyHistory.FileOnlyGrows` | scripts/lib/append-only-history.ts:111-124 | For a transitive rule that refuses removal, a clean history keeps a held record in every commit on every path to HEAD, each version extending every earlier one, and in the working tree; merges with branches that predate the record included. |
| `AppendOnlyHistory.RemovedOrChanged` | scripts/lib/append-only-history.ts:178-185 | It reports exactly the older files that are missing or have another blob. |
| `AppendOnlyHistory.DirectoryHistoryErrors` | scripts/lib/append-only-history.ts:194-216 | The directory check is silent exactly on a complete clean history. |
| `AppendOnlyHistory.DirectoryCleanMeans` | scripts/lib/append-only-history.ts:178-216 | A clean directory, commit by commit: each file admitted at a parent is in the commit with its blob, and each admitted at HEAD is on disk with it. |
| `AppendOnlyHistory.FileKeptAlongPath` | scripts/lib/append-only-history.ts:194-216 | A file admitted at the older side of each edge of a path is there unchanged at its end. |
| `AppendOnlyHistory.DirectoryOnlyGrows` | scripts/lib/append-only-history.ts:194-216 | When admission is monotone along edges, each admitted file is in every commit on every path to HEAD, and in the working tree, with the same blob. |
| `FindingIdentity.EmissionOrderHidden` | prototype/vnext-kernel/scanner-finding-identity.ts:121-136 | The identity's parts are the same for every listing of a finding's elements exactly when the sort key tells the elements apart. |
| `FindingIdentity.EmissionOrderCanShow` | prototype/vnext-kernel/scanner-finding-identity.ts:121-136 | Under every collation, two elements whose keys are the same characters divided otherwise show the order they are listed in. |
| `FindingIdentity.TiedKeys` | prototype/vnext-kernel/scanner-finding-identity.ts:121-136 | Under a collation that ties only equal strings, elements tie exactly when file, chain and signature run together are the same characters. |
| `FindingChanges.IdentityTells` | prototype/vnext-kernel/scanner-finding-identity.ts:121-141 | With a hash that does not collide and keys that tell the elements apart, two findings have one identity exactly when they have one detector, the same elements up to lines and order, and messages that strip and trim alike. |
| `FindingChanges.FingerprintTells` | prototype/vnext-kernel/scanner-finding-identity.ts:219-246 | With a hash that does not collide, two fingerprints are the same exactly when they are taken over the same parts, in any order: of each element, or each node for the narrow one, its path, its chain and the normal form of its source. |
| `FindingChanges.PartsApart` | prototype/vnext-kernel/scanner-finding-identity.ts:219-236 | Two such parts are the same exactly when path, chain and normal form are. |
| `FindingChanges.BodySplits` | prototype/vnext-kernel/scanner-finding-identity.ts:219-236 | The source an element covers is its cited lines, in the order cited, a newline between them. |
| `FindingChanges.EditShows` | prototype/vnext-kernel/scanner-finding-identity.ts:219-246 | Changing the code on a cited line, comments and spacing aside, changes the fingerprint. |
| `FindingIdentity.IndexFindings` | prototype/vnext-kernel/scanner-finding-identity.ts:308-334 | One row per identity, the first, and the number of own findings; no ambiguity is reported exactly when every own finding has the record of the row that stands for it. |
| `FindingIdentity.LocatorDelta` | prototype/vnext-kernel/scanner-finding-identity.ts:413-437 | The loop computes the specified deltas, none where files or counts differ. |
| `FindingIdentity.MatchFindings` | prototype/vnext-kernel/scanner-finding-identity.ts:357-402 | The join classifies every current row and then every prior entry that matched nothing. |
| `FindingMatch.MatchAccounts` | prototype/vnext-kernel/scanner-finding-identity.ts:357-402 | The match mentions every identity of either run exactly once: ADDED exactly where there was no prior entry, REMOVED exactly where there is no current row, so nothing is dropped. |
| `FindingMatch.RemovedAre` | prototype/vnext-kernel/scanner-finding-identity.ts:396-400 | The removed rows are exactly the prior entries without a current row, each once. |
| `FindingMatch.ChangesAreCalled` | prototype/vnext-kernel/scanner-finding-identity.ts:357-402 | A finding with a row and a prior entry is SEMANTIC_CHANGE_PROVEN exactly when both have a narrow fingerprint and they differ, SOURCE_CONTEXT_CHANGED exactly when not so and the broad ones differ, and otherwise UNCHANGED or RELOCATED by its locator; only a relocated one has a delta. |
| `LineReferences.StripAgrees` | prototype/vnext-kernel/scanner-finding-identity.ts:110-112 | Stripping by pattern and stripping one character at a time are one function. |
| `LineReferences.StrippedAlike` | prototype/vnext-kernel/scanner-finding-identity.ts:110-112 | Messages that differ only in the lines they cite strip alike, whatever the numbers. |
| `LineReferences.CitedElsewhere` | prototype/vnext-kernel/scanner-finding-identity.ts:110-112 | A message that cites another line at one place is the same but for lines. |
| `LineReferences.TextKept` | prototype/vnext-kernel/scanner-finding-identity.ts:110-112 | Text before which no citation starts is kept as it is. |
| `LineReferences.CitationStripped` | prototype/vnext-kernel/scanner-finding-identity.ts:110-112 | A cited line leaves the constant, and stripping goes on after its number. |
| `LineReferences.SpanStripped` | prototype/vnext-kernel/scanner-finding-identity.ts:110-112 | So does a cited span, with both its numbers. |
| `Relocation.IdentityStays` | prototype/vnext-kernel/scanner-finding-identity.ts:139-141 | Moving a finding's lines by one shift for each file keeps its semantic identity. |
| `Relocation.FingerprintStays` | prototype/vnext-kernel/scanner-finding-identity.ts:219-246 | It keeps the narrow and the broad fingerprint. |
| `Relocation.CitedLinesAre` | prototype/vnext-kernel/scanner-finding-identity.ts:413-437 | The lines read back for a file are the cited ones, each once, in numeric order although places were sorted as strings. |
| `Relocation.DeltaIsShift` | prototype/vnext-kernel/scanner-finding-identity.ts:413-437 | The delta between the two locators is each file's shift. |
| `Relocation.LocatorStays` | prototype/vnext-kernel/scanner-finding-identity.ts:83-90 | The locator stays exactly when no cited file moved. |
| `Relocation.IndexMoves` | prototype/vnext-kernel/scanner-finding-identity.ts:308-334 | When each finding of a run moves by shifts of its own, before and after the move the same findings are indexed, in the same order, no identity twice. |
| `Relocation.RelocationTheorem` | prototype/vnext-kernel/scanner-finding-identity.ts:357-437 | Each finding of a run moving by shifts of its own, so that two of one file may move differently: matched against the rows recorded before the move, every indexed finding is UNCHANGED or RELOCATED by exactly its shift in each file it cites; nothing is added, removed or called changed. |
| `Relocation.InsertionMoves` | prototype/vnext-kernel/scanner-finding-identity.ts:219-236 | Lines inserted at any places, none between what a finding cites in one file, move the finding in each file by the number of lines inserted above it there. |
| `Relocation.LineFound` | prototype/vnext-kernel/scanner-finding-identity.ts:219-236 | After insertions every line of the file, wherever it stands, is found below as many more lines as were inserted above it. |
| `Relocation.InsertionTheorem` | prototype/vnext-kernel/scanner-finding-identity.ts:357-437 | When any lines are inserted at any number of places of any files, none between what one finding cites in one file, every indexed finding is found again, unchanged where nothing was inserted above what it cites and otherwise relocated in each file by exactly the number of lines inserted above it there. |
| `SolidityLexer.NormaliseSolidity` | prototype/vnext-kernel/scanner-finding-identity.ts:168-217 | The nested scanning loops refine the reference lexer on every text, and end. |
| `SolidityLexer.ScanLiteral` | prototype/vnext-kernel/scanner-finding-identity.ts:175-200 | The literal loop ends where the reference lexer leaves the literal, at its quote, a newline or the end. |
| `SolidityLexer.SkipLine` | prototype/vnext-kernel/scanner-finding-identity.ts:201-205 | The line-comment loop ends at the newline and writes nothing. |
| `SolidityLexer.SkipBlock` | prototype/vnext-kernel/scanner-finding-identity.ts:206-212 | The block-comment loop ends just past the first closing mark. |
| `SolidityLexer.NormalisedKeepsCode` | prototype/vnext-kernel/scanner-finding-identity.ts:168-217 | Whitespace aside, exactly the characters outside comments survive, in order: comment markers inside literals among them, nothing of a comment. |
| `SolidityGrammar.PiecesNormalise` | prototype/vnext-kernel/scanner-finding-identity.ts:168-217 | Of a text put together, without the lexer, from plain code, divisions, literals with their escapes, block and line comments, the normal form is the first three as they are and a space for each comment, runs of whitespace collapsed and trimmed. |
| `SolidityGrammar.CommentsAlike` | prototype/vnext-kernel/scanner-finding-identity.ts:168-217 | Texts with the same code pieces and comments of the same kinds at the same places leave the same, whatever the comments say. |
| `SolidityTwice.NormalisedTwiceExactly` | prototype/vnext-kernel/scanner-finding-identity.ts:168-217 | Normalising again changes nothing exactly when no comment opens while the lexer's output is read along with its input. |
| `SolidityTwice.NormalisedTwice` | prototype/vnext-kernel/scanner-finding-identity.ts:168-217 | In particular when no literal is cut off by its line's end. |
| `SolidityTwice.CutLiteralsCanShow` | prototype/vnext-kernel/scanner-finding-identity.ts:168-217 | A literal cut off by a newline makes normalising a second time change the text. |
| `SolidityLexer.CommentForWhitespace` | prototype/vnext-kernel/scanner-finding-identity.ts:168-217 | In code, and not just after a slash, whitespace may be replaced by a block comment without changing the normal form. |
| `SarifModel.OwnMeansIsOwn` | prototype/vnext-kernel/scanner-sarif-projection.ts:363-381 | The two ownership predicates agree on every parsed finding that classifies, so OWN_SCOPE_DISAGREEMENT cannot occur. |
| `SarifModel.OwnershipMeans` | prototype/vnext-kernel/scanner-sarif-projection.ts:363-381 | The four kinds of ownership, each exactly by which elements' paths name a dependency: none, all, or some, and then whether the first does. |
| `SarifModel.AdmissibleMeans` | prototype/vnext-kernel/scanner-sarif-projection.ts:465-493 | By the paths, what the ownership checks let pass: project code alone; a finding whose first element is a dependency's if all are, or if a version lint's project elements are pragmas; on every path the two dependency tests agree. |
| `Counting.GroupBy` | prototype/vnext-kernel/scanner-sarif-projection.ts:431-440 | The map filled element by element holds, for each key that occurs, the elements with it in order. |
| `SarifBuilder.CheckMapping` | prototype/vnext-kernel/scanner-sarif-projection.ts:441-463 | The mapping checks pass exactly when both outputs have each signature equally often and with one meaning; a failure is explained. |
| `SarifBuilder.CheckOwnership` | prototype/vnext-kernel/scanner-sarif-projection.ts:465-493 | The ownership checks pass exactly when every finding is admissible; a failure is explained. |
| `SarifBuilder.CheckIdentities` | prototype/vnext-kernel/scanner-sarif-projection.ts:495-515 | The identity checks pass exactly when only copies of one own finding share an identity. |
| `SarifBuilder.ProjectDistinctOwnCode` | prototype/vnext-kernel/scanner-sarif-projection.ts:425-586 | The builder succeeds exactly on projectable outputs, with their projection; each failure code states a fact about the outputs, and OWN_SCOPE_DISAGREEMENT never occurs. |
| `SarifProperties.PassTallies` | prototype/vnext-kernel/scanner-sarif-projection.ts:517-567 | The pass over the results emits each own identity once, with the place of an own result and the number of results that share it, and counts every other kind. |
| `SarifProperties.PassExcludes` | prototype/vnext-kernel/scanner-sarif-projection.ts:532-547 | The pass leaves out each mixed finding once, with its place, its project elements and the number of its results. |
| `SarifValidator.GreedyIsExact` | prototype/vnext-kernel/scanner-sarif-projection.ts:593-605 | The greedy cursor accepts exactly the in-order subsets. |
| `SarifValidator.AssertProjectionIsSubset` | prototype/vnext-kernel/scanner-sarif-projection.ts:593-605 | The loops accept exactly an unchanged frame with an in-order subset of the results. |
| `SarifValidator.ValidateProjectionIntegrity` | prototype/vnext-kernel/scanner-sarif-projection.ts:617-685 | The validator's verdict is the first post-condition that fails, in order, or the number of identities. |
| `SarifTheorems.BuiltIsAccepted` | prototype/vnext-kernel/scanner-sarif-projection.ts:425-685 | Whatever the builder returns the validator accepts on the same outputs, unless there is no own finding to show, and then only for that. |
| `SarifTheorems.ProjectableMeans` | prototype/vnext-kernel/scanner-sarif-projection.ts:425-515 | When the builder succeeds, said of the findings' paths: the outputs map, every finding may stand, and the identities tell apart the findings in project code alone. |
| `SarifTheorems.ProjectedPresents` | prototype/vnext-kernel/scanner-sarif-projection.ts:517-567 | Each projected result shows, by detector, texts, fingerprint and the place of its first element, a finding in project code alone, beside that finding's identity and locator and its own rule and place. |
| `SarifTheorems.OwnIsPresented` | prototype/vnext-kernel/scanner-sarif-projection.ts:517-567 | Every finding in project code alone is presented by a result that shows it. |
| `SarifTheorems.ExclusionsTell` | prototype/vnext-kernel/scanner-sarif-projection.ts:532-547 | Every entry of what is left out tells of a finding whose first element, but not every one, is a dependency's: where it starts, its elements in project code, and how many copies there are. |
| `SarifTheorems.MixedIsExcluded` | prototype/vnext-kernel/scanner-sarif-projection.ts:532-547 | And every such finding has its entry. |
| `SarifTheorems.CountsConserved` | prototype/vnext-kernel/scanner-sarif-projection.ts:569-585 | Findings and results are in a signature-preserving bijection; own, dependency-only and excluded counts, taken over different lists, add up to the results; copies and identities add up to the own instances, and each identity counts its finding's copies. |
| `SarifTheorems.CountsByPaths` | prototype/vnext-kernel/scanner-sarif-projection.ts:569-585 | The three counts, by the paths alone: findings with no element of a dependency, with only such, and with such a first element among others. |
| `SarifTheorems.CopiesCounted` | prototype/vnext-kernel/scanner-sarif-projection.ts:549-555 | As many results carry an own identity as findings do. |
| `SarifTheorems.ProjectedResultsAre` | prototype/vnext-kernel/scanner-sarif-projection.ts:517-567 | Exactly the results of own findings are projected. |
| `SarifTheorems.OrderDoesNotMatter` | prototype/vnext-kernel/scanner-sarif-projection.ts:430-570 | Permuting findings and results changes neither whether a projection exists nor its results and identities. |
| `SarifTheorems.AcceptedProjectionsAgree` | prototype/vnext-kernel/scanner-sarif-projection.ts:617-685 | Any two projections the validator accepts for the same outputs have the same results up to order, and the same identities. |
| `SarifTheorems.AcceptedMeans` | prototype/vnext-kernel/scanner-sarif-projection.ts:617-685 | What the validator accepts, exactly: an unchanged frame around some raw results in order, distinct identities that are the own findings', each own finding shown at its identity by every result of it, and counts that add up to what is there. |
| `SarifGate.BuildGitHubProjection` | prototype/vnext-kernel/scanner-sarif-projection.ts:688-694 | The gate passes exactly on projectable outputs with an own finding, with their projection; its validation finds fault with nothing the builder built but emptiness. |
| `SarifGate.ComparisonMeans` | prototype/vnext-kernel/scanner-sarif-projection.ts:732-747 | The triage comparison is complete exactly when projected and adjudicated identities are the same set, names exactly the differences, and both sides' counts add up. |
| `SarifGate.ComparisonAnyOrder` | prototype/vnext-kernel/scanner-sarif-projection.ts:732-747 | The order of projection shows nowhere in the comparison. |
| `SarifGate.CompleteMeansOwnAdjudicated` | prototype/vnext-kernel/scanner-sarif-projection.ts:732-760 | For an accepted projection the register is complete exactly when it adjudicates the own findings' identities. |
| `ImportClosure.Sources.ReachableIsLeastClosed` | prototype/vnext-kernel/scanner-input-scope.ts:96-129 | The reachable files are the least set with the projects' remapped imports that is closed under external imports. |
| `ImportClosure.Sources.SpecifiersName` | prototype/vnext-kernel/scanner-input-scope.ts:104-125 | A remapped specifier names its rest, from everywhere; a relative one what it resolves to, from external files only; any other nothing. |
| `ImportClosure.ImportWalk.WalkExternal` | prototype/vnext-kernel/scanner-input-scope.ts:104-113 | The recursive walk ends on cyclic graphs, sees only what the file leads to, finishes what it sees, and fails only where a missing file is reached. |
| `ImportClosure.WalkProject` | prototype/vnext-kernel/scanner-input-scope.ts:115-125 | The walk over a project file's imports does the same from each of its targets. |
| `ImportClosure.ExternalImportClosure` | prototype/vnext-kernel/scanner-input-scope.ts:96-129 | The closure is exactly the reachable files, each once, sorted; it fails exactly when some reachable file is missing. |
| `PublicationContainer.FindPublicationContainer` | prototype/vnext-kernel/verify-receipt-container.ts:83-118 | The search succeeds exactly when one commit alone on the way to the head has the triage subject as first parent and a diff that lists the receipt alone, and finds it. |
| `PublicationContainer.CompareScopes` | prototype/vnext-kernel/scanner-input-scope.ts:177-187 | No difference is reported exactly when the scopes are equal. |
| `PublicationContainer.ScopeHolds` | prototype/vnext-kernel/scanner-input-scope.ts:159-168 | A scope holds the contracts' tree, the closure digest of the pinned version, the configuration's digest and the pin, each in its place. |
| `PublicationContainer.AssertDescendantCurrency` | prototype/vnext-kernel/verify-receipt-container.ts:121-167 | It succeeds exactly when receipt and triage at the head read, trimmed, as those published and the scope at both is the declared source's, fails as not an ancestor exactly when the container is not one, and, the texts being current, reports the scope of container or head exactly when that is readable and differs. |
| `PublicationContainer.CheckSubject` | prototype/vnext-kernel/verify-receipt-container.ts:170-181 | A declared subject passes exactly when it is an object id that exists and its tree is the declared one. |
| `PublicationContainer.ObjectIdMeans` | prototype/vnext-kernel/verify-receipt-container.ts:68-73 | An object id is forty characters of lower-case hexadecimal. |
| `PublicationContainer.VerifyPublicationProvenance` | prototype/vnext-kernel/verify-receipt-container.ts:215-227 | The verification succeeds exactly on verified heads, with their container; its ancestor check never fails; a head that differs in the scanner's inputs alone is refused for its scope. |
| `PublicationContainer.VerifiedMeans` | prototype/vnext-kernel/verify-receipt-container.ts:215-227 | A verified head's container is the only commit on the way from the triage subject whose diff to that subject lists the receipt alone. At most one other path changed there, renamed to the receipt, and none when the receipt existed before; the contracts are the same exactly when it was none of them. Triage and lock file are those of the triage subject; receipt and triage read the same at the head. |
| `PublicationContainer.VerifiedContracts` | prototype/vnext-kernel/verify-receipt-container.ts:154-227 | Source, container and verified head have one contracts tree, not empty, and one library pin; so, tree ids telling trees apart, every file under the contracts is the same at all three. |
| `PublicationContainer.EditedInputsRefused` | prototype/vnext-kernel/verify-receipt-container.ts:154-227 | A later head that keeps receipt and triage but edits contracts or pin never verifies, and is refused for its scope when its container is still the only one. |
| `PublicationContainer.VerifiedBytes` | prototype/vnext-kernel/verify-receipt-container.ts:138-149 | At a verified head receipt and triage are, byte for byte, the published ones exactly when they have the same whitespace around them. |
| `PublicationContainer.CandidateChanges` | prototype/vnext-kernel/verify-receipt-container.ts:83-118 | A commit the search accepts differs from the triage subject in the receipt and at most one path, which a diff took for renamed to the receipt. |
| `PublicationContainer.CandidateKeepsContracts` | prototype/vnext-kernel/verify-receipt-container.ts:83-118 | It keeps the contracts exactly when no contract was taken for renamed. |
| `PublicationExamples.NewlineVerifies` | prototype/vnext-kernel/verify-receipt-container.ts:138-149 | A head that appends a newline to the triage verifies, though its bytes are not the published ones. |
| `PublicationExamples.RenamePublishes` | prototype/vnext-kernel/verify-receipt-container.ts:83-118 | A commit that renames a contract to the receipt has a diff to its parent that lists the receipt alone, though two paths changed. |
| `PublicationExamples.RenameVerifies` | prototype/vnext-kernel/verify-receipt-container.ts:215-227 | That commit verifies as a head, though a contract of the triage subject went with the publication. |
| `PublicationContainer.ContainerUnique` | prototype/vnext-kernel/verify-receipt-container.ts:83-118 | A verified head has one container. |
| `PublicationContainer.DescendantVerifies` | prototype/vnext-kernel/verify-receipt-container.ts:215-227 | A descendant at which receipt and triage read the same and the scope is kept verifies with the same container exactly when it adds no second candidate. |
| `TraceSession.TraceSession.Precheck` | scripts/sp1-egress-observer.ts:548-567 | It passes only where no observer has left an instance or a probe, refuses such a place only for what it says, and when its readings do not fail passes exactly on a clean, available place. |
| `TraceSession.TraceSession.ReadBack` | scripts/sp1-egress-observer.ts:594-620 | It passes only, and reports a missing probe only otherwise, when the kernel lists as many of the group's probes as were defined, and each by kind and name. |
| `TraceSession.TraceSession.Open` | scripts/sp1-egress-observer.ts:570-639 | Wherever it fails, honest operations leave exactly what the session recorded, other groups untouched; success means the kernel lists all probes whatever the operations claimed, and with honest operations clock, options, buffer and filters are set, every probe enabled and the instance tracing. From an exact record, working operations do open the session, and the switch for all probes is seen exactly where it is shown. |
| `TraceSession.TraceSession.CloseInstance` | scripts/sp1-egress-observer.ts:702-712 | The last enabled probe is disabled first; if the removal fails, or the test after it, the instance is left with nothing enabled and not tracing, and the session takes it for gone exactly when the test says so. |
| `TraceSession.TraceSession.Verify` | scripts/sp1-egress-observer.ts:717-724 | The last look reports what still stands of the group as far as it can be read: a probe reading that fails is reported, an existence test that fails says no. |
| `TraceSession.TraceSession.RemoveProbes` | scripts/sp1-egress-observer.ts:713-716 | Every probe that was defined is removed once nothing of the group is enabled, instances untouched. |
| `TraceSession.TraceSession.Mark` | scripts/sp1-egress-observer.ts:642-647 | Each call takes the next number, spent even when the write throws; a returned number is the number written; working writes do return it. |
| `TraceSession.TraceSession.Armed` | scripts/sp1-egress-observer.ts:667-673 | True exactly while the session enabled something, all of it is still enabled, and the switch for all probes, if the session saw one, is on; no answer only when a reading fails or what was enabled is gone. |
| `TraceSession.TraceSession.Close` | scripts/sp1-egress-observer.ts:691-726 | An empty report means that no probe of the group is left, and if operations work or throw, from an exact record, that nothing is, whatever the existence tests answered. Under any faults nothing is left with an empty report exactly when the instance was not there or its removal worked: from an exact record, when that was not silently lost. Unless the last reading failed the report says what reading and test found. Operations that work leave nothing to report; if only the instance's removal or the test after it fails, every probe is removed and the instance does not trace; and a removal silently lost with both tests failing gives the empty report though the instance is there. No operation throws unreported, and other groups are untouched. |
| `TraceSession.Observe` | scripts/sp1-egress-observer.ts:1020-1160 | On a clean, available place working operations open the session. Over a whole run past the check: if operations work or throw, an empty report means that the file system is exactly as before, wherever opening failed and whatever the existence tests answered; under any faults it means so exactly unless the instance's creation took effect and threw, or it was created and its one removal was silently lost; honest opening with working closing always gives the empty report and the file system as before. |
| `ControlProtocol.ControlProtocol.Accept` | scripts/sp1-egress-observer.ts:743-773 | Each request is answered, and the state changed, as the specified step says; a refused request changes nothing. |
| `ControlProtocol.ServesExactlyTheOrderly` | scripts/sp1-egress-observer.ts:732-773 | Every request of a run is served exactly when HELLO, the phases and DONE come in order as far as they come, containers only after HELLO, and nothing after DONE. |
| `ControlProtocol.ServedIsNext` | scripts/sp1-egress-observer.ts:743-773 | A served HELLO, phase or DONE is the script's next; a refusal changes nothing. |
| `ControlProtocol.RefusedIsDisorder` | scripts/sp1-egress-observer.ts:743-773 | A request is refused only where serving it would break the order. |
| `ControlProtocol.ServedIsMarked` | scripts/sp1-egress-observer.ts:743-773 | A served request is answered with what it says, a container with the namespace found for it. |
| `ControlLines.LineReadsAs` | scripts/sp1-egress-observer.ts:340-356 | A line reads as a message exactly when it is that message's formatted text and the message is well formed. |
| `ControlLines.ParsesItsText` | scripts/sp1-egress-observer.ts:340-356 | Every well-formed message is read back from its text. |
| `ControlLines.WellFormedMeans` | scripts/sp1-egress-observer.ts:320-356 | Which messages have a text, field by field: lengths, letters, the phases, and process ids from 1 to ten digits. |
| `Observer.GoodHeartbeat` | scripts/sp1-egress-observer.ts:799-809 | A heartbeat is good exactly when tracing is on, the probes armed, some CPU was read, and no counter of any CPU or probe shows a loss. |
| `Observer.LossShows` | scripts/sp1-egress-observer.ts:799-809 | The loss a heartbeat shows is nought exactly when no counter of any CPU and no probe shows one. |
| `Observer.RunInv` | scripts/sp1-egress-observer.ts:907-1199 | While no failure is recorded, every run has marked exactly what is expected by now, numbered without gap. |
| `Observer.ZeroMeansGoodTrace` | scripts/sp1-egress-observer.ts:907-1199 | In every interleaving, the run returns 0 exactly when it closed without a recorded failure and the tool returned 0; then markers number 1, 2, 3 and so on, hold READY to STOP with HELLO and every phase once in order, no failure and only good heartbeats; each acknowledgement follows its own marker in every run. |
| `Observer.NumbersGaplessExactly` | scripts/sp1-egress-observer.ts:642-647 | In every run the markers' numbers increase and none is beyond the last number spent; they are 1, 2, 3 and so on without a gap exactly when no mark of the open session failed to be written before one that was. |
| `Observer.LostMarkLeavesGap` | scripts/sp1-egress-observer.ts:642-647 | A first mark that is lost and a failure marker that is not leave the trace with marker 2 alone. |
| `Observer.FaultFreeRun` | scripts/sp1-egress-observer.ts:907-1199 | A run in which nothing fails ends, leaves a good trace, and returns what the tool returns. |
| `ObserverFaults.FaultIsFatal` | scripts/sp1-egress-observer.ts:907-1199 | No fault is forgiven: after a bad heartbeat, a malformed, refused or aborting line, a mark or operation that throws, an early exit or a remainder at closing, the run returns 3 if it returns, whatever follows. |
| `ObserverFaults.ToolErrorIsFatal` | scripts/sp1-egress-observer.ts:1104-1150 | So is an error of the tool while it is awaited. |
| `ObserverFaults.ReturnsToolOrThree` | scripts/sp1-egress-observer.ts:907-1199 | A run that closed without a recorded failure returns what the tool returns, any other that closed returns 3: the observer's own exit codes never show. |
| `ObserverFaults.GoodRunEnds` | scripts/sp1-egress-observer.ts:1020-1199 | However events interleave, the trace of a run that closes without a failure ends with TOOL_DONE, the second counters, one heartbeat and STOP, with nothing else between. |
| `ObserverFaults.MarkedIsAsked` | scripts/sp1-egress-observer.ts:1076-1102 | Every hello, phase and container in a trace was asked for by a line of the tool and says what it said, a container with the namespace found for it. |
| `ObserverFaults.RequestIsAnswered` | scripts/sp1-egress-observer.ts:1076-1102 | In any run a request that is served, DONE apart, is marked with the next number and, while the tool's input is open, acknowledged with that number; nothing else is written. |
| `ObserverFaults.ClosedIsSilent` | scripts/sp1-egress-observer.ts:1154-1199 | A closed run writes nothing more, whatever still arrives. |
| `EvidenceFile.BytesOf` | scripts/sp1-egress-observer.ts:888-898 | However short the reads, the result is a beginning of the file, and all of it unless a read stalled. |
| `EvidenceFile.AppendTo` | scripts/sp1-egress-observer.ts:901-905 | However short the writes, and though some make no progress, all bytes are added after the last and nothing else changes. |
| `EvidenceFile.AppendThenRead` | scripts/sp1-egress-observer.ts:888-905 | What is appended is read back after what was there. |

## Left out

- Cryptography: keccak256, sha256 and the derivation of immutables' expected words (`deriveImmutableExpectedBytes`, `encodeShortString`) are parameters, a derivation that may throw among them; two hashes are only ever compared, and no property needs them to be injective except where it says so.
- Git, network, processes and clocks: histories, trees, blobs, scopes and ancestor answers are inputs.
- MetadataBoundary.DecodeSolcMetadataBoundary: works on bytes; the hexadecimal text layer around it is not modelled.
- Cbor.ItemAt: text is kept as its bytes, so the replacement of ill-formed UTF-8 is not modelled. Below a byte string used as prototype, the index names are plain decimals of at most 15 digits; other canonical numeric names are ordinary fields there.
- ImmutableAuthority.ValidateImmutableAuthority: starts and lengths are integers; refusing fractions and non-numbers is not modelled.
- EvidenceCheck.CheckEvidenceAgainstManifest: the checks before the replay (identity, hashes, git, constructor arguments) are one list of earlier errors.
- SarifBuilder.ProjectDistinctOwnCode: starts from parsed outputs; what `parseRawScan` and `parseRawSarif` refuse is the precondition `Parsed` and the types. A record's JSON text, key order included, is one of its fields. For an UNREPRESENTABLE_FINDING the source also classifies the finding for its message, which may throw another code first.
- SarifValidator.ValidateProjectionIntegrity: where the source would re-parse the raw texts, the model takes the same parsed lists.
- Workflow checks (`assertWorkflowSarifProjectionContract`), argument parsing and report writing.
- AppendOnlyHistory.DirectoryHistoryErrors: trees and the working tree are maps from path to blob id; reading them, and the listing of tracked files, is not modelled.
- AppendOnlyHistory.FileHistoryErrors: the texts of the errors are the rule's; only whether there are any is specified.
- FindingIdentity.EmissionOrderHidden: the collation of `localeCompare` is any total preorder on strings.
- FindingIdentity.MatchFindings: strings are compared by character, not by UTF-16 unit; an element's chain is a field, not rebuilt from its parents.
- FindingIdentity.IndexFindings: rows hold no line spans.
- FindingIdentity.LocatorDelta: numbers in locators are decimal digits; other spellings that `Number` accepts cannot arise from a locator.
- Relocation.RelocationTheorem: paths without "," and "|" and check names without "|", as the locator's own separators require; elements have lines.
- ImportClosure.ExternalImportClosure: which specifiers a file's text holds and how a path resolves are functions of the sources, not the regular expression and the path library.
- PublicationContainer.VerifyPublicationProvenance: file contents are well-formed text and paths have no surrounding spaces; which of the vanished files a diff takes for renamed is a parameter, constrained only to renames being moves, each to a new path of its own; reading the receipt's JSON and naming a tree by its object id are functions of the repository.
- Tracefs.TraceFs.Do: readings of files tell the truth or throw; clock, options, buffer size and filters are settings that are written and not acted on.
- TraceSession.TraceSession.Open: takes any table of probes; the kernel's error log quoted in a refusal is not modelled.
- TraceSession.TraceSession.Precheck: the answers of the existence tests for the kernel's own files are one parameter.
- TraceSession.Observe: the order of main's steps between opening and closing is reduced to markers and stopping; the machine of `Observer` has them all.
- Observer.ZeroMeansGoodTrace: `main` is a machine on values rather than closures over shared variables; its steps interleave at least as freely as the original's. A failure to write the evidence files ends the process without a return code and is not a step. What a marker carries besides kind, phase, container and counts is left out.
- ControlLines.LineReadsAs: the tool's side of the dialogue is not modelled beyond the texts.
- EvidenceFile.AppendTo: writes that make no progress for ever are excluded; the source would loop on them.
- CanonicalJson.CanonicalForm: numbers are their serialized texts; values that JSON cannot hold do not occur, and neither do lone surrogates, which the source escapes.
- CoveredContent.CommitmentIgnoresOrder: lower case is that of ASCII letters, as digests need; lone surrogates do not occur in paths.
- BytecodeReplay.DeriveFacts: references are looked up among those listed; an identity named after a member that every object inherits, like "constructor", makes the source throw.
