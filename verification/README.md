# GraphForge tooling, verified

A Dafny model of the parts of GraphForge's release, benchmark and coverage tooling whose results
other things rely on, with proofs of what those parts promise.

* **Rust coverage ledger** (`scripts/coverage_rust_ledger.py`). The tokenizer is proved against a
  grammar of lexemes: it succeeds exactly when the source has a lexing, and the lexing is the only
  one. The delimiter pass succeeds exactly on balanced streams and then its tables are right. The
  `#[cfg(test)]` scan is proved against a declarative account of what each attribute covers, stated
  over the texts of the tokens; from that follows which physical lines of production code, tokens and literals, it takes. LCOV reports are
  read, written and merged; reading is the merge of everything a report says, so reading a
  concatenation merges, and reading a written report gives it back exactly on non-negative counts.
* **Canonical ustar/pax writer** (`scripts/ci/portable-contract.py`), proved against an independent
  reader for "ustar Interchange Format" and "pax Header Block" of the pax utility in IEEE Std
  1003.1-2017: headers and archives read back, status and all, exactly for representable paths, and
  are injective.
* **Exact bigint JSON** (`packages/protocol-wasm/index.js`): the marked-and-spliced text is the
  exact serialization, whatever strings the caller supplies, and an independent reader for RFC 8259
  reads it back as the value.
* **Publication** (`scripts/ci/crate-publish-plan.py`, `scripts/publish_crates.py`): the layered
  order exists exactly without cycles and is unique; runs that may stop anywhere keep the registry
  closed under dependencies; the retry loop is bounded in attempts and in sleep.
* **Query oracles** (`benchmarks/diagnostics/rss_diagnostic.py`): the counting oracle equals the
  quadratic one of `benchmarks/diagnostics/ingestion_measurements.py`.
* **ADR indexes** (`scripts/ci/adr-index.py`): what `generate` writes is what `check` reads, a second
  run changes nothing, and both can be carried out, and the check passes, exactly under conditions on
  titles and triggers; the publication list and the sidebar then list exactly the active records.
* **Accounting**: heap-trace peaks (`benchmarks/diagnostics/heaptrack_summary.py`), storage owners
  and growth bounds (`benchmarks/scripts/test-tiny-lifecycle-certification.py`), and release-version
  spellings (`scripts/set_release_version.py`).

`dafny verify dfyconfig.toml` checks everything.

## Where a promise fails, and exactly when it holds

* The scan's item branch does not stop at an enclosing `}`. In
  `CfgEnumSources.BareVariantEscapes`, a bare enum variant takes the `use` item behind its enum with
  it. `CfgItems.ItemStaysInsideExactly` says that an item stays inside its container exactly when
  some `{` or `;` stands directly in the container behind the attribute, be it the item's own or not.
* Nor does it stop at a comma. In `CfgEnumSources.BareVariantTakesSibling`, a bare variant stays inside
  its enum and takes the next variant with it; `CfgItems.ItemPassesCommaExactly` says that an item
  passes a comma of its container exactly when such a comma comes before every `{` and `;` there.
* An item takes the whole of its first and last physical line, so a production token on one of those
  lines is lost, as in `CfgEnumSources.NeighbourLosesItsLine`; `CfgSafety.ItemKeepsOutsidersExactly`
  and `CfgSafety.ProductionLineLostExactly` say exactly when. Fields, parameters, arguments and
  elements never take the line of a production token.
* They can take the line of a production literal, because literals leave no token. In
  `CfgSources.ProductionLiteralLosesItsLine`, an element shares its line with the literal behind it,
  and the line is taken. `CfgLiterals.LiteralLineLostExactly` says exactly when: an item begins or
  ends on the line, or another span does that holds every token of the line.
* `TarRoundTrip.LeadingSlashIsLost`: a path over 100 bytes whose only usable slash is its first byte
  loses that slash. `TarRoundTrip.HeadersRoundTrip` gives the exact condition.
* Freshly generated ADR indexes can fail the check. `AdrTemplates.FileNameTitleFails`: a title that ends
  in `.md` is taken for a file that must exist. `AdrTemplates.BlankTitleFails`: a title that begins
  with a blank reads back without it. `AdrTemplates.PipeTitleFails`: behind a title with a pipe the
  check cannot be carried out. `AdrTemplates.MarkerTitleFails`: behind a title that holds a region
  marker neither `check` nor a second `generate` can. `AdrSite.GenerateThenCheckExactly` gives the exact
  conditions, and `AdrMarkers.RegionsLastExactly` says what lasting regions ask of titles.
* `VersionIdentities.LeadingZeroSharesIdentity`: `01.2.3` and `1.2.3` are accepted as two versions and
  share one PEP 440 identity. `VersionIdentities.SameIdentityExactly` says that this happens exactly
  through leading zeros of release numbers, and never to a release candidate.
* Merging coverage is idempotent, and a written report reads back, exactly when no count is negative
  (`CoverageMerge.MergeOfOne`, `LcovRoundTrip.WrittenReportReads`).
* Rendering a marked region can be repeated exactly when its two markers stand on different lines
  and the new body holds neither (`AdrRegions.RefilledRegionExactly`).

## Model

| member | source | states |
|---|---|---|
| RustComments.SkipBlockComment | scripts/coverage_rust_ledger.py:139-155 | the depth-counting loop returns `e` exactly when the text up to `e` is a properly nested comment, and nothing when no such end exists |
| RustComments.ClosesStep | scripts/coverage_rust_ledger.py:143-151 | one turn of the loop changes how many comments are open exactly as the nested grammar says, for openers, closers and other characters |
| RustLiterals.SkipLineComment | scripts/coverage_rust_ledger.py:135-138 | a line comment ends at the first newline or the end of the source, and nowhere else |
| RustLiterals.SkipRawString | scripts/coverage_rust_ledger.py:157-171 | recognises exactly the raw-string openings, and returns the one end at which quote and hashes first recur |
| RustLiterals.SkipString | scripts/coverage_rust_ledger.py:173-187 | the escape-aware loop returns `e` exactly when a body of plain characters and backslash pairs closes before `e` |
| RustLiterals.SkipChar | scripts/coverage_rust_ledger.py:202-216 | the loop with a pending backslash returns `e` exactly when a one-line character literal closes there |
| RustLiterals.IsLifetime | scripts/coverage_rust_ledger.py:188-201 | a quote is a lifetime's exactly when an identifier follows that no quote closes |
| RustLiterals.SkipWord | scripts/coverage_rust_ledger.py:219-224 | an identifier is the longest run of identifier characters |
| RustTokenizer.NextLexeme | scripts/coverage_rust_ledger.py:130-227 | returns the only lexeme that can start at a position, or the right fault when none can |
| RustTokenizer.Tokenize | scripts/coverage_rust_ledger.py:118-228 | succeeds exactly when the source splits into consecutive lexemes; the lexing is unique, tokens are its words and marks with line one plus the newlines before them, and a failure names the first place where no lexeme starts |
| RustTokenizer.Through | scripts/coverage_rust_ledger.py:118-228 | every lexing of the source runs through every prefix the loop has read |
| RustTokenizer.TokenLinesAscend | scripts/coverage_rust_ledger.py:125-128 | recorded lines never decrease along the tokens |
| Delimiters.OpenStep | scripts/coverage_rust_ledger.py:244-245 | reading an opener leaves a continuable text exactly when one more closer is awaited |
| Delimiters.CloseStep | scripts/coverage_rust_ledger.py:246-250 | reading a closer leaves a continuable text exactly when it matches the innermost open delimiter |
| DelimiterTable.MatchDelimiters | scripts/coverage_rust_ledger.py:233-254 | succeeds exactly on streams balanced under the recursive grammar; then openers map one-to-one, type-correctly and properly nested to closers, every position has its innermost opener, and each line its first and last token; a failure names the line of the first closer no balanced stream can go on with, or of the innermost opener left open |
| DelimiterTable.TableExists | scripts/coverage_rust_ledger.py:233-254 | every balanced stream has such tables |
| RustPieces.SpellingReads | scripts/coverage_rust_ledger.py:118-228 | a text spelled from lexemes that keep apart reads back as those lexemes and their tokens |
| CfgSpans.ViewIsValid | scripts/coverage_rust_ledger.py:233-254 | the tables of a balanced stream give the scan everything it looks up |
| CfgSpans.NextKeepsContainer | scripts/coverage_rust_ledger.py:302-306 | stepping over a token or a whole group stays in the same container and never passes its close |
| CfgOutcome.EndIsUnique | scripts/coverage_rust_ledger.py:300-323 | a member or element has only one end |
| CfgScan.AttributeCloses | scripts/coverage_rust_ledger.py:260-265 | the bracket of the attribute closes at its seventh token |
| CfgScan.FindName | scripts/coverage_rust_ledger.py:269-280 | finds where a member's name would stand, past attributes, visibility and `mut` |
| CfgScan.IsTyped | scripts/coverage_rust_ledger.py:292-299 | decides whether the container holds types: parentheses, or braces of a `struct` |
| CfgScan.ScanMember | scripts/coverage_rust_ledger.py:287-332 | ends a field or parameter at the first comma outside groups and angle brackets, or at its container's end, with the ambiguous cases refused |
| CfgScan.ScanElement | scripts/coverage_rust_ledger.py:333-376 | ends an argument or element likewise, where `<` opens a list only after `::` |
| CfgScan.FindStop | scripts/coverage_rust_ledger.py:377-394 | the first `{` or `;` at zero parentheses and brackets, or the end when there is none |
| CfgScan.FinishItem | scripts/coverage_rust_ledger.py:395-409 | an item ends at its body's close or its semicolon; an out-of-line module's name is the token after its first `mod` |
| CfgScan.ScanAttribute | scripts/coverage_rust_ledger.py:264-410 | chooses among the three branches as the declarative outcome does |
| CfgScan.Scan | scripts/coverage_rust_ledger.py:256-411 | ends, moving forward each turn; excluded lines and module names are those of the spans of all attributes, and a fault is that of the first attribute without a definite span |
| CfgScan.OutcomeBounds | scripts/coverage_rust_ledger.py:264-410 | every span ends inside the stream; members end before, elements at most at, their container's close |
| CfgSafety.OutsiderLost | scripts/coverage_rust_ledger.py:323-410 | a span takes the line of a token outside it exactly when it is an item and begins or ends on that line |
| CfgSafety.SharedLinesAreKept | scripts/coverage_rust_ledger.py:325-372 | a member or element takes a line only if it owns every token on it |
| CfgSafety.ItemKeepsOutsidersExactly | scripts/coverage_rust_ledger.py:395-410 | an item takes no outsider's line exactly when it shares neither its first nor its last line |
| CfgSafety.SpansAreOrdered | scripts/coverage_rust_ledger.py:256-411 | spans are disjoint, in order, and each is the outcome of its attribute |
| CfgSafety.EveryAttributeIsCovered | scripts/coverage_rust_ledger.py:256-411 | no attribute escapes: each starts a span or lies inside one |
| CfgSafety.ProductionLineLostExactly | scripts/coverage_rust_ledger.py:256-411 | over a whole scan, a token outside all spans loses its line exactly when an item begins or ends on it |
| CfgItems.RegionIsBalanced | scripts/coverage_rust_ledger.py:377-394 | between positions of one container, openers and closers of each kind cancel |
| CfgItems.DirectStopStops | scripts/coverage_rust_ledger.py:377-394 | a `;` or `{` directly in the container is a stop, so the search never passes it |
| CfgItems.ItemStaysInsideExactly | scripts/coverage_rust_ledger.py:377-410 | an item stays inside its container exactly when some `;` or `{` stands directly in it behind the attribute |
| CfgItems.ItemPassesCommaExactly | scripts/coverage_rust_ledger.py:377-410 | an item passes a comma directly in its container exactly when one comes before every `;` and `{` there |
| CfgLiterals.LiteralLineLostExactly | scripts/coverage_rust_ledger.py:118-411 | over a whole scan, a literal, comment or other lexeme that leaves no token and lies outside all spans loses a line exactly when an item begins or ends on it, or a member or element does that holds every token there |
| CfgSources.SomeClassesAreOrdinary | scripts/coverage_rust_ledger.py:118-228 | there are character classes under which letters, digits and blanks are what they should be, as the sources below ask |
| CfgSources.ProductionLiteralLosesItsLine | scripts/coverage_rust_ledger.py:157-376 | in a source of three lines, an element's span takes the line of the production literal beside it |
| CfgEnumSources.BareVariantEscapes | scripts/coverage_rust_ledger.py:377-410 | in the source of an enum and a `use`, a bare variant's span runs past the enum and takes the line of the `use` |
| CfgEnumSources.BareVariantTakesSibling | scripts/coverage_rust_ledger.py:377-410 | in the source of an enum, a bare variant's span stays inside, passes the comma and takes the next variant |
| CfgEnumSources.NeighbourLosesItsLine | scripts/coverage_rust_ledger.py:395-410 | in a source of two `use` items on one line, the production one loses its line |
| CfgUnique.OutcomeIsUnique | scripts/coverage_rust_ledger.py:264-410 | what an attribute covers, or why it covers nothing definite, is determined |
| CfgUnique.ScannedIsUnique | scripts/coverage_rust_ledger.py:256-411 | every position is reached by only one sequence of spans |
| CfgUnique.FaultBlocks | scripts/coverage_rust_ledger.py:256-411 | once an attribute covers nothing definite, the stream has no scan at all |
| CfgAnalysis.AnalyseTokens | scripts/coverage_rust_ledger.py:256-411 | the scan succeeds exactly when every attribute in turn has a definite span, and then returns the lines and names of those spans |
| CfgAnalysis.CfgTestAnalysis | scripts/coverage_rust_ledger.py:231-411 | from source text to lines and module names, in terms of the tokens' own texts and lines: no lexing, no balance and no definite span are told apart exactly; on success the spans are the only ones, the lines are those they take, and the names are what follows the first `mod` of each item that ends in `;` |
| CfgTexts.ViewSpells | scripts/coverage_rust_ledger.py:256-411 | the symbols of the scan are exactly the token texts the source compares with |
| CfgTextsAgree.NamedAgrees | scripts/coverage_rust_ledger.py:269-287 | a member has its name exactly where, past further attributes, `pub` with its scope and `mut`, a name and a single `:` are said |
| CfgTextsAgree.TypesAgree | scripts/coverage_rust_ledger.py:292-299 | a container holds types exactly when it says `(`, or `{` with a `struct` before it in the same item |
| CfgTextsAgree.CommasAgree | scripts/coverage_rust_ledger.py:300-320 | a comma separates exactly when it stands directly in the container and as many `>` as `<` that open lists came before it |
| CfgTextsAgree.CoversAgree | scripts/coverage_rust_ledger.py:264-410 | what an attribute covers, over symbols, is what it covers over the texts of the tokens |
| CfgTextsAgree.ScansAgree | scripts/coverage_rust_ledger.py:256-411 | so are the spans of the whole scan |
| CfgTextsAgree.FindingsAgree | scripts/coverage_rust_ledger.py:323-411 | a line is excluded exactly when an item spans it or another span holds every token on it; a module is named exactly when some item that ends in `;` declares it |
| CfgModuleSource.ModuleIsDeclared | scripts/coverage_rust_ledger.py:377-410 | for every name, `#[cfg(test)] mod NAME;` is read, balanced, and found to take its line and declare that one module |
| CfgModuleSource.ModText | scripts/coverage_rust_ledger.py:256-411 | that source, character by character |
| CfgModuleSource.UnderscoreIsPlain | scripts/coverage_rust_ledger.py:219-224 | names may begin with an underscore and hold one |
| CfgSpans.NameBegins | scripts/coverage_rust_ledger.py:283-286 | a name begins with an ASCII letter or an underscore, by code point |
| PyText.SplitLinesConcat | scripts/coverage_rust_ledger.py:84 | a text that ends in a newline and its continuation split into their lines in turn |
| PyText.JoinedLinesSplit | scripts/coverage_rust_ledger.py:574 | lines without breaks, joined by newlines, split into themselves |
| PyText.ShownIntReads | scripts/coverage_rust_ledger.py:99 | an integer's printed form is read back as that integer |
| PyText.BreakCodes | scripts/coverage_rust_ledger.py:84 | lines break at exactly ten code points |
| PyText.SpaceCodes | scripts/coverage_rust_ledger.py:99 | white space is exactly those, the unit and no-break blanks and the typographic ones |
| CoverageMerge.MergeRecords | scripts/coverage_rust_ledger.py:108-115 | the nested loops give the pointwise maximum, at least zero, over exactly the files and lines of the reports |
| CoverageMerge.MergeIsDetermined | scripts/coverage_rust_ledger.py:108-115 | the merge depends only on which reports there are, not on order or repetition |
| CoverageMerge.MergeOfMerge | scripts/coverage_rust_ledger.py:108-115 | merging a merge with more reports merges them all |
| CoverageMerge.MergeOfOne | scripts/coverage_rust_ledger.py:108-115 | a merge leaves a report alone exactly when it holds no negative count |
| CoverageMerge.MergeLaws | scripts/coverage_rust_ledger.py:108-115 | commutative, associative, and idempotent exactly on non-negative counts |
| CoverageMerge.CoveredInMerge | scripts/coverage_rust_ledger.py:108-115 | a line is covered in the merge exactly when some report covers it |
| Lcov.TakeLine | scripts/coverage_rust_ledger.py:85-102 | one raw line is absorbed as the report it amounts to; orphan and malformed lines fail as the contributions do |
| LcovLines.ParseLcov | scripts/coverage_rust_ledger.py:78-105 | the result is the merge of everything the lines say; a file is there exactly when an `SF:` line names it, a line exactly when a `DA:` line in a section of the file gives it, with the highest count given; otherwise the first line that cannot be taken, or the refusal of an empty or lineless report |
| LcovLines.ContributionsAre | scripts/coverage_rust_ledger.py:82-102 | up to any line, what has been said is exactly what the lines before it say one by one, and the first refusal is that of the first refused line |
| LcovLines.OneFile | scripts/coverage_rust_ledger.py:86-94 | a line stands in the section of one file at most |
| LcovLines.EntryReads | scripts/coverage_rust_ledger.py:95-102 | `DA:`, a line number, a comma and a count give that line that count and no other |
| LcovRoundTrip.ContextIsForgotten | scripts/coverage_rust_ledger.py:82-93 | a report that reads well alone says the same behind another |
| LcovRoundTrip.ConcatenationMerges | scripts/coverage_rust_ledger.py:78-115 | reading a concatenation gives the merge of the separate readings |
| LcovRoundTrip.WriteLcov | scripts/coverage_rust_ledger.py:566-574 | the loops print sorted files and ascending lines |
| LcovRoundTrip.ReportSays | scripts/coverage_rust_ledger.py:566-574 | the printed lines say each file and each of its counts, and nothing else |
| LcovRoundTrip.WrittenReportReads | scripts/coverage_rust_ledger.py:78-115 | reading a written report gives back the records exactly when some line is measured and no count is negative |
| Ustar.Octal | scripts/ci/portable-contract.py:163-167 | fits exactly below the power of eight that the width allows, and reads back as the value |
| Ustar.ChecksumFits | scripts/ci/portable-contract.py:193 | the byte sum of any block fits six octal digits and reads back |
| Ustar.FillHeader | scripts/ci/portable-contract.py:181-193 | the in-place writes leave exactly the ustar layout with its checksum |
| Ustar.UstarEntry | scripts/ci/portable-contract.py:170-194 | header, payload and padding, or the overflow refusal |
| Ustar.SplitUstarPath | scripts/ci/portable-contract.py:210-218 | a split rejoins to the path within the field widths, at the last usable slash, and none is found exactly when none exists |
| Ustar.SplitsExactly | scripts/ci/portable-contract.py:210-218 | a long path is split exactly when some slash leaves at most 155 bytes before it and 1 to 100 behind it |
| Ustar.WriteHeaders | scripts/ci/portable-contract.py:221-234 | writes the plain, split or extended headers, which `TarRoundTrip` reads back |
| Ustar.WriteTar | scripts/ci/portable-contract.py:237-239 | writes headers, padded payload and two zero blocks, which `TarRoundTrip` reads back as one regular file |
| PaxRecord.PaxRecord | scripts/ci/portable-contract.py:200-207 | ends, and its record is the least whose decimal prefix is its own length |
| PaxRecord.TwoLengthsStraddle | scripts/ci/portable-contract.py:200-207 | two self-consistent lengths of one body are adjacent and straddle a power of ten |
| PaxRecord.AmbiguousExactlyAtBoundaries | scripts/ci/portable-contract.py:200-207 | two lengths exist exactly at digit boundaries |
| TarRoundTrip.RecordReads | scripts/ci/portable-contract.py:200-207 | a written record reads back as its keyword and value, whatever bytes the value holds |
| TarRoundTrip.ChecksumAgrees | scripts/ci/portable-contract.py:188-193 | a reader's blanked sum equals the stored one |
| TarRoundTrip.HeaderReads | scripts/ci/portable-contract.py:181-193 | a written header reads back as its name, prefix, size and type, with mode 0o644 and zero or empty owner, group, time and names |
| TarRoundTrip.StatusReads | scripts/ci/portable-contract.py:181-193 | mode, owner, group, time and the three names, whatever the entry |
| TarRoundTrip.PlaceholdersRead | scripts/ci/portable-contract.py:229-234 | the two headers of an extended entry are typed `x` and `0` and named `PaxHeaders/` and `PaxFiles/` with the digest |
| TarRoundTrip.EmptyPrefixExactlyWhenSlashLost | scripts/ci/portable-contract.py:210-218 | the prefix is empty exactly for long paths whose only usable slash is their first byte |
| TarRoundTrip.HeadersRoundTrip | scripts/ci/portable-contract.py:221-234 | a pax reader that takes regular files only recovers path, size and status exactly for representable paths, in all four cases |
| TarRoundTrip.HeadersInjective | scripts/ci/portable-contract.py:221-234 | representable paths and sizes with equal headers are equal |
| TarRoundTrip.LeadingSlashIsLost | scripts/ci/portable-contract.py:210-218 | a concrete long path whose leading slash is not recovered |
| TarRoundTrip.ArchiveRoundTrip | scripts/ci/portable-contract.py:237-239 | an archive reads back as its one regular file, with its bytes and status, exactly for representable paths |
| MarkedText.EscapeKeepsMarks | packages/protocol-wasm/index.js:13-16 | escaping neither makes nor breaks an occurrence of the mark |
| MarkedText.CountsNoneExactlyWhenAbsent | packages/protocol-wasm/index.js:68 | splitting counts zero exactly when the mark is absent |
| MarkedText.CountAcross | packages/protocol-wasm/index.js:68 | a unit outside the mark separates the counts on both sides, since the mark cannot overlap itself |
| MarkedText.SpliceQuoted | packages/protocol-wasm/index.js:69 | a string without the mark is copied as it is |
| MarkedText.SpliceBig | packages/protocol-wasm/index.js:69 | a marked string becomes its bare digits |
| BigintJson.TokensOfMarked | packages/protocol-wasm/index.js:46-58 | the replacer changes exactly the bigints, at every depth |
| BigintJson.MarksAccountedFor | packages/protocol-wasm/index.js:66-68 | the text holds one mark per bigint, and more exactly when a caller's string or key holds the mark |
| BigintJson.SpliceTokens | packages/protocol-wasm/index.js:69 | without a collision the replacement gives the exact serialization |
| BigintJson.AttemptIsExact | packages/protocol-wasm/index.js:41-71 | an attempt's count shows exactly whether it collided, and without a collision its text is exact |
| BigintJson.ToJson | packages/protocol-wasm/index.js:31-73 | a string passes exactly when its surrogates are paired; anything else is refused exactly for a number that is not exact, for being no JSON value, or for holding a bigint while every mark occurs in its strings or names; otherwise the text is read by a JSON reader as exactly what the value means |
| BigintJson.PromiseExactly | packages/protocol-wasm/index.js:31-73 | those refusals and that meaning, case by case |
| JsonReads.DecimalReads | packages/protocol-wasm/index.js:46-58 | the decimal text of any integer is a JSON number and reads back as that integer, sign and all |
| JsonReads.StringReads | packages/protocol-wasm/index.js:46-58 | any sequence of UTF-16 units, quoted and escaped, reads back |
| JsonReads.TextReads | packages/protocol-wasm/index.js:31-73 | the exact serialization is JSON by RFC 8259 and reads back as the value, with absent elements null and absent members left out |
| JsonReads.NumberIsNumberText | packages/protocol-wasm/index.js:46-58 | JSON numbers with a small exponent letter are made of number characters |
| JsonParts.RefusedExactly | packages/protocol-wasm/index.js:51-56 | a value is refused exactly when some number anywhere in it is not finite or is an unsafe integer |
| JsonParts.BigExactly | packages/protocol-wasm/index.js:47-50 | the text holds a bigint exactly when the value does, at any depth |
| JsonParts.MentionsExactly | packages/protocol-wasm/index.js:66-68 | the text mentions a mark exactly when a string or name of what it means does |
| JsonParts.WellFormedExactly | packages/protocol-wasm/index.js:32-35 | a string is well formed exactly when its surrogates are paired |
| MarkedText.MarkersAreMarks | packages/protocol-wasm/index.js:13-16 | whatever sixteen bytes are drawn, the marker is a mark |
| PublishOrder.RefilterIsRedundant | scripts/ci/crate-publish-plan.py:244-251 | filtering dependencies a second time changes nothing |
| PublishOrder.CandidatesExactly | scripts/ci/crate-publish-plan.py:168-248 | every crate is a candidate but the three that other registries carry |
| Orders.LessExactly | scripts/ci/crate-publish-plan.py:255 | one name is sorted before another exactly when it is a proper prefix or has the lower code point where they first differ |
| PublishOrder.TopologicalPublishOrder | scripts/ci/crate-publish-plan.py:242-264 | a layered sorted order of the candidates, or the largest stuck set, and the latter exactly when there is a cycle |
| PublishOrder.StuckMeansCycle | scripts/ci/crate-publish-plan.py:254-258 | a set whose crates all wait for one another holds a cycle |
| PublishOrder.OrderMeansAcyclic | scripts/ci/crate-publish-plan.py:242-264 | an order exists only without cycles |
| PublishOrder.OrderPutsDependenciesFirst | scripts/ci/crate-publish-plan.py:242-264 | every dependency comes strictly before its dependent |
| PublishOrder.OrderIsDetermined | scripts/ci/crate-publish-plan.py:242-264 | the order is the only one |
| PublishRuns.Registry.Publish | scripts/publish_crates.py:315-330 | one run over the registry, which may stop at any crate, uploads what is not recorded yet and changes nothing else |
| PublishRuns.RunRecordsExactly | scripts/publish_crates.py:315-330 | a run completes exactly when no lookup or needed upload fails, and records exactly the crates it passes, and the one behind whose upload it stops |
| PublishRuns.RunsKeepHistory | scripts/publish_crates.py:315-330 | over any runs, nothing is uploaded twice or when already recorded, and each upload finds its dependencies recorded |
| PublishRuns.HistoryKeepsClosed | scripts/publish_crates.py:315-330 | a registry that starts closed under dependencies stays closed |
| PublishRuns.AnyRunsAreSafe | scripts/publish_crates.py:315-330 | any sequence of interrupted runs over a publish order keeps the registry closed, with no repeated upload |
| PublishRuns.CompletedRunRecordsAll | scripts/publish_crates.py:315-330 | a completed run leaves every crate recorded |
| PublishRuns.RerunIsIdempotent | scripts/publish_crates.py:315-330 | a run after a completed run uploads nothing |
| PublishRuns.UndisturbedRunCompletes | scripts/publish_crates.py:315-330 | a run in which nothing fails completes |
| CargoPublish.RetryWait | scripts/publish_crates.py:146-174 | a wait is found exactly for a date or delay hint; it outlasts the announced time by the buffer and no more, and is never below the buffer |
| CargoPublish.CargoPublish | scripts/publish_crates.py:197-261 | at most 481 attempts; each of the five verdicts is given exactly when it should be, in terms of the last attempt, of 1200 and 7200 seconds and of the sleeps in the log; the log runs cargo and acquires tokens exactly where it should |
| CargoPublish.JudgedExactly | scripts/publish_crates.py:216-261 | one attempt is published, failed, refused, out of budget, raised or retried exactly under its own condition |
| CargoPublish.LogRunsCargo | scripts/publish_crates.py:211-217 | cargo runs once in every attempt that has what it needs, and tokens are acquired exactly in trusted ones |
| CargoPublish.LogReturnsTokens | scripts/publish_crates.py:211-226 | every acquired token is revoked once, before the next attempt |
| CargoPublish.SleepsAreBounded | scripts/publish_crates.py:242-261 | every sleep lies between 15 and 1200 seconds; together they are the seconds waited, at most 7200 |
| CargoPublish.BoundIsReached | scripts/publish_crates.py:242-261 | the bound of 481 attempts is attained |
| TwoHop.RowsAreColumns | benchmarks/diagnostics/ingestion_measurements.py:435-448 | counting paths by their first or by their second edge gives the same number |
| TwoHop.ColumnCount | benchmarks/diagnostics/rss_diagnostic.py:45-49 | paths that end with an edge are its source's incoming edges, less itself for a self-loop |
| TwoHop.CountIncoming | benchmarks/diagnostics/rss_diagnostic.py:38-40 | counts each target over all batches |
| TwoHop.CountPaths | benchmarks/diagnostics/rss_diagnostic.py:41-49 | counts the ends of two-hop paths over all batches, never negative |
| TwoHop.FirstValues | benchmarks/diagnostics/rss_diagnostic.py:51-57 | lists the first thousand of the sorted counted values |
| TwoHop.CountedIsSorted | benchmarks/diagnostics/rss_diagnostic.py:51-57 | expanding counts in key order is sorting what was counted |
| TwoHop.InputOracle | benchmarks/diagnostics/rss_diagnostic.py:36-58 | both results equal the first thousand entries of the sorted quadratic lists, with self-loops and parallel edges |
| AdrRows.RowReadsExactly | scripts/ci/adr-index.py:322-337 | a printed row parses back to its cells exactly when they are trimmed and hold no pipe |
| AdrRows.RowParsesExactly | scripts/ci/adr-index.py:322-437 | a printed row parses to as many cells exactly when they hold no pipe, and then to its cells, trimmed |
| AdrRows.LinkReads | scripts/ci/adr-index.py:457-466 | a link comes apart into its text and target, whatever the text holds |
| AdrTables.ReplaceableExactly | scripts/ci/adr-index.py:348-364 | a table is found for rewriting exactly when a reader finds it |
| AdrTables.ReplacingChangesOneTable | scripts/ci/adr-index.py:340-364 | rewriting one table changes that table and no other, under any header, keeps the file well formed, and does nothing when the rows are there |
| AdrRuns.ReplaceTableBody | scripts/ci/adr-index.py:340-364 | the loop rewrites the file as specified and reports a change exactly when lines change |
| AdrRuns.ReadTables | scripts/ci/adr-index.py:423-437 | the loops collect the rows of every table under a header |
| AdrRegions.RefilledRegionExactly | scripts/ci/adr-index.py:297-311 | a refilled region is found again exactly when its markers are on two lines and its body holds none, and refilling again changes nothing |
| AdrCompare.Compare | scripts/ci/adr-index.py:474-507 | reports exactly the duplicates, missing and extra numbers, differing fields and dangling names that there are |
| AdrCompare.NoProblemExactly | scripts/ci/adr-index.py:474-507 | there is no problem exactly when rows and records agree and every named file exists |
| AdrIndex.RowReadsBack | scripts/ci/adr-index.py:320-337 | the row of a record whose title and trigger keep to one cell reads back as that record, in all three kinds of table |
| AdrRoundTrip.JobDone | scripts/ci/adr-index.py:367-391 | a rewriting job leaves its own rows in its own table and every other table alone |
| AdrGenerate.RowsCompleteExactly | scripts/ci/adr-index.py:440-454 | a generated table reads exactly when every title and trigger in it keeps to one cell |
| AdrRoundTrip.BlankTitleDiffers | scripts/ci/adr-index.py:553-591 | a title that begins with a blank keeps the log's table from agreeing with its records |
| AdrRoundTrip.ListedAgreesExactly | scripts/ci/adr-index.py:474-507 | a table of exactly its records passes exactly when every file name in it exists |
| AdrRuns.Generate | scripts/ci/adr-index.py:367-403 | makes the six writes in order and stops where one is refused, keeping those before it; without a refusal both regions and all four tables are as specified, and where the regions last they list exactly the active records in order |
| AdrRuns.LaterFilesUntouched | scripts/ci/adr-index.py:367-403 | after any number of writes, finished files hold what generating specifies and later files are as they were |
| AdrRuns.Check | scripts/ci/adr-index.py:510-595 | can be carried out exactly when tables and regions are found; finds exactly the problems of each table and the stale regions, so nothing exactly when every index is as the records say; and then both regions list exactly the active records in order |
| AdrListings.SyncReads | scripts/ci/adr-index.py:275-277 | the publication list, its strings unquoted, names one page for each record, in order |
| AdrListings.SidebarReads | scripts/ci/adr-index.py:280-295 | the sidebar, its strings unquoted, has one entry for each record, in order: number, dash and title, and the page without its `.md` |
| AdrListings.EntryIsShortExactly | scripts/ci/adr-index.py:280-295 | an entry takes one line exactly when its quoted texts have at most sixty characters, a hundred with the rest |
| AdrListings.SelectedInOrder | scripts/ci/adr-index.py:258-263 | selecting keeps exactly the records asked for, once each and in their order |
| AdrListings.HealthySiteLists | scripts/ci/adr-index.py:406-417 | where the check passes, both regions list exactly the active records |
| AdrListings.GeneratedSiteLists | scripts/ci/adr-index.py:394-403 | so they do after generating, whenever the regions last |
| AdrListings.HeaderTexts | scripts/ci/adr-index.py:367-403 | the headers of the tables, in full |
| AdrListings.RowTexts | scripts/ci/adr-index.py:320-327 | the rows of the primary index, in full |
| AdrListings.LogRowText | scripts/ci/adr-index.py:330-337 | the rows of the engineering log, in full |
| AdrSite.GenerateThenCheckExactly | scripts/ci/adr-index.py:394-595 | generating succeeds; a second run can be carried out exactly when the regions last (markers on two lines, bodies that hold none), and changes nothing; a check, exactly when moreover no title or trigger holds a pipe; it passes exactly when also no title begins with a blank or looks like a Markdown file and no trigger names a missing one |
| AdrMarkers.RegionsLastExactly | scripts/ci/adr-index.py:271-311 | the regions last exactly when each file's markers are on two lines and no active title holds a marker |
| AdrMarkers.EscapeKeepsMarkers | scripts/ci/adr-index.py:271-272 | quoting a text neither hides a marker nor makes one |
| AdrTemplates.TemplateReady | scripts/ci/adr-index.py:297-364 | files with empty tables and regions meet what generating asks |
| AdrTemplates.FileNameTitleFails | scripts/ci/adr-index.py:489-491 | at concrete files, a record titled `a.md` is generated, can be checked and fails the check |
| AdrTemplates.BlankTitleFails | scripts/ci/adr-index.py:553-591 | at concrete files, a record titled with a leading blank is generated, can be checked and fails the check |
| AdrTemplates.PipeTitleFails | scripts/ci/adr-index.py:440-454 | at concrete files, a record titled with a pipe is generated, again and again alike, and then a check cannot be carried out |
| AdrTemplates.MarkerTitleFails | scripts/ci/adr-index.py:297-305 | at concrete files, a record titled with the end marker is generated, and then neither a second run nor a check can be carried out |
| HeapRecords.Summarize | benchmarks/diagnostics/heaptrack_summary.py:43-71 | succeeds exactly when every event refers to an allocation declared before it and no category falls below zero; then live bytes, peaks, calls and the categories at the first global peak are those of the `+` and `-` records; a failure names the first record that cannot be taken |
| HeapRecords.AcceptedExactly | benchmarks/diagnostics/heaptrack_summary.py:43-62 | over the records, a trace is accepted exactly then |
| HeapRecords.SummaryReports | benchmarks/diagnostics/heaptrack_summary.py:43-71 | declared sizes of `+` less those of `-` records, at every point of the trace |
| HeapTrace.TotalIsSumOfLive | benchmarks/diagnostics/heaptrack_summary.py:60-65 | after any events the total is the sum of the categories |
| HeapTrace.PeaksBoundTheGlobalPeak | benchmarks/diagnostics/heaptrack_summary.py:60-71 | categories at the peak add up to it, each is at most its own peak, and the peaks' sum equals the global peak exactly when all categories peaked together |
| Storage.StorageTotals | benchmarks/scripts/test-tiny-lifecycle-certification.py:40-94 | succeeds exactly when the selected files are regular, settled and consistent, and counts each physical object once; a refusal is that of the first selected file that is not |
| Storage.ObjectFacts | benchmarks/scripts/test-tiny-lifecycle-certification.py:77-82 | an object counts with its length and 512 bytes for every allocated block |
| StorageOwners.OwnerInventories | benchmarks/scripts/test-tiny-lifecycle-certification.py:103-160 | succeeds exactly when every route has an owner, and then each path is listed under its owner and no other |
| StorageOwners.ProjectRoutes | benchmarks/scripts/test-tiny-lifecycle-certification.py:137-156 | which routes belong to which part of the source and the imported project |
| StorageOwners.WorkspaceRoutes | benchmarks/scripts/test-tiny-lifecycle-certification.py:121-136 | which routes are inputs, results and the portable package |
| StorageOwners.TotalsAddUpExactly | benchmarks/scripts/test-tiny-lifecycle-certification.py:77-93 | a union's objects, their lengths and their allocated bytes are at most the parts' sums, and equal exactly when no parts share an object that counts |
| StorageOwners.AllOwnersComplete | benchmarks/scripts/test-tiny-lifecycle-certification.py:97-100 | the fifteen owners are all the owners, each once |
| StorageOwners.OwnersConserve | benchmarks/scripts/test-tiny-lifecycle-certification.py:40-160 | of the totals returned for owners and workspace, references and logical bytes add up; objects, physical and allocated bytes do exactly when no owners share an object, one that is not empty, one that takes space |
| Growth.AffineHasPositiveSlopes | benchmarks/scripts/test-tiny-lifecycle-certification.py:179-186 | every affine series with positive slope passes |
| Growth.SublinearExactly | benchmarks/scripts/test-tiny-lifecycle-certification.py:189-199 | on one, two and four times the work an affine owner is refused exactly when its overhead is below twice its first share |
| Growth.EnvelopePassesExactly | benchmarks/scripts/test-tiny-lifecycle-certification.py:202-214 | the maximum of affine costs with non-negative overheads passes exactly when it strictly increases |
| Growth.EnvelopeImpliesCeiling | benchmarks/scripts/test-tiny-lifecycle-certification.py:202-225 | on positive values the envelope implies the ceiling |
| Growth.PositiveSlopesExactly | benchmarks/scripts/test-tiny-lifecycle-certification.py:179-186 | refuses exactly growth that is not positive, and adjacent slopes more than a factor two apart |
| Growth.NormalizedCeilingExactly | benchmarks/scripts/test-tiny-lifecycle-certification.py:217-225 | refuses exactly values that are not positive, fall where they must not, or exceed twice the first per unit of work |
| Growth.PeakEnvelopeExactly | benchmarks/scripts/test-tiny-lifecycle-certification.py:202-214 | refuses exactly what does not strictly grow or grows per unit of work |
| Growth.SublinearGrowthExactly | benchmarks/scripts/test-tiny-lifecycle-certification.py:189-199 | refuses exactly the negative, and more than half as much per unit of work at the end |
| Versions.SpellingsReadBack | scripts/set_release_version.py:175-253 | reading the cargo or npm spelling of a canonical version gives the version back |
| Versions.SpellingsAreInjective | scripts/set_release_version.py:238-253 | no two canonical versions share a cargo, npm or Python spelling |
| Versions.DocumentedSpellings | scripts/set_release_version.py:25-31 | the nine documented spellings of a release, a development version and a candidate |
| Versions.NpmDiffersExactly | scripts/set_release_version.py:238-253 | npm numbers its development versions, and otherwise spells a version like cargo |
| Versions.OnlySpelling | scripts/set_release_version.py:175-195 | a release or candidate is read from its cargo spelling and no other |
| Versions.PythonSpellingReadsExactly | scripts/set_release_version.py:175-195 | the Python spelling is read for releases and development versions and refused for candidates |
| VersionIdentities.SameIdentityExactly | scripts/set_release_version.py:165-253 | two canonical versions share a PEP 440 identity exactly when they differ in nothing but leading zeros of release numbers, and are equal when one is a candidate or both are written normally |
| VersionIdentities.LeadingZeroSharesIdentity | scripts/set_release_version.py:165-187 | `01.2.3` and `1.2.3` are both accepted and share an identity |

## Left out

- The Rust engine crates and bindings: not part of this model.
- Unicode: identifier, white-space and alphanumeric classes are parameters of the tokenizer, any finite sets of characters; `int` and `\d` are over ASCII digits.
- Characters are code points in Python text and UTF-16 units in JavaScript text; encoding and decoding of files is not modelled.
- Files, subprocesses, HTTP, tokens and clocks are parameters or outcomes: an attempt's outcome in `CargoPublish`, a crate's fate in `PublishRuns`, resolved source paths in `Lcov` and `LcovLines`, file facts in `Storage`.
- CargoPublish.RetryWait: the date and delay in cargo's output are given as a hint already parsed; seconds are reals.
- The sixteen hexadecimal SHA-256 characters in placeholder names are an arbitrary function of the path.
- BigintJson.ToJson: the text of a finite number is given with the value and taken to be the JSON number that `Number::toString` gives.
- JavaScript getters, `toJSON` and proxies: the argument is a value that has already been read; marks are given as a sequence.
- Edge identifiers are integers, ordered like the sixteen bytes they stand for.
- `production_records`, `select_surface`, `totals`, `patch_totals` and the evidence checks of the coverage ledger: filters and comparisons over the results proved here.
- LcovRoundTrip.WrittenReportReads: takes as given that the root and sources hold no line break and that each printed path resolves to its source.
- `classify_dependencies`, crate metadata and README checks of the publish plan: only the order is modelled.
- Frontmatter parsing and `load_records` of the ADR index: records start as read, with distinct numbers, one-line titles that are not empty and do not end in a blank (the heading line is compared stripped), and trimmed triggers.
- AdrSite.GenerateThenCheckExactly: takes files whose tables have their separator and rows that are neither indented nor headers; the layout of sidebar entries matters only through being found again.
- HeapRecords.Summarize: the category of an allocation is given; finding it in stack frames and the timeline are not modelled.
- Storage.StorageTotals: linked directories are refused before the walk and are not modelled; the three looks at a file are one flag.
- Growth bounds: exceptions are a predicate that fails; `validate_growth` itself is not modelled.
- Versions.SpellingsAreInjective: takes the PEP 440 form of `X.Y.Z-rc.N` to be `X.Y.ZrcN`, and accepts it only without leading zeros.
