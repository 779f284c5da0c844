# git-span: verified model

git-span anchors named spans to places in files, follows them as files change,
and stores their definitions as text files under version control. This project
models the parts of it whose promises are the hardest to see from the code, and
proves those promises for all inputs, all runs and all reachable states.

| files | component |
|---|---|
| `Text`, `Sorting`, `Hex` | line splitting, stable sorting, hexadecimal tokens: shared by the rest |
| `Fingerprint`, `LineIndexing`, `Scan`, `ScanLaws`, `SliceRange` | the content fingerprint over wrapping 64-bit words, the per-file line index with its lazily filled caches, the move matcher with its three ways of hashing a window, what it finds said of the files alone, and range extraction |
| `Jaccard`, `JaccardLaws` | the sliding-window similarity scan over interned lines, and what it reports said of the words of the lines |
| `SpanText`, `SpanFormat`, `SpanLines`, `SpanRoundTrip`, `SpanTheorem` | the span file format: a fail-closed parser, its printer, and the exact condition under which they undo each other |
| `SpanConflicts`, `SpanGrammar`, `SpanConfig`, `SpanDocument`, `SpanErrors`, `SpanPrinted` | the same format as a grammar over characters: which texts the parser accepts and as what, which it refuses as conflicts, at which line it refuses the others, and what the printer writes |
| `IdentityOrder`, `SpanCollapse`, `SpanResolve`, `SpanMerge`, `SpanMergeTable`, `SpanMergeLaws`, `SpanMergePrints` | duplicate collapse and the three-way structural merge, with where every token of the result comes from and its determinism, conservation, swap, self-merge and readability laws |
| `GraftFile`, `Topology`, `History` | the graft file, the reachability check behind the refusal of replaced or grafted history, and the first-parent history of a few paths |
| `TreeBuild`, `TreeOrder`, `TreeIdentity` | the staged tree built from the flat index, and what its identity stands for |
| `LayerViews`, `LayerReader` | the layered reader: a per-run snapshot against per-name probes |
| `NotesJson`, `NotesText`, `NotesGrammar`, `NotesStore` | the canonical identity of a note and the store that allocates note identifiers |
| `AliasMap`, `ChangeGroups`, `Scoring`, `Ranking` | rename resolution, commit grouping, attenuated scoring, ranking and pruning of candidates |
| `Sigpipe` | the reference-counted signal guard, under any interleaving of any number of threads |

Code that updates things in place is modelled by methods and classes proved
against specification functions or relations; what the code promises is then
proved of those. Machine integers are written out: fingerprints are integers
modulo 2^64, line numbers carry their 32-bit bound, tokens of the language
(`str::lines`, `str::trim`, `char::is_whitespace`) follow their definitions. Hash
maps are walked by picking an arbitrary key each time, so every result proved of
such a loop holds for every iteration order.

Places where the code and what is said about it part ways; the model follows the
code:

- `SpanTheorem.RoundTrip` gives the exact condition of the round trip. Parsed
  files do not all meet it: a last prose line `[resolved]` followed by a space is
  accepted, trimmed, and no longer parses as prose (`SpanTheorem.TrimmedIntoMarker`).
- The overlay comment of the reader (packages/git-span/src/span_file_reader.rs:1-8)
  describes worktree over index over HEAD; since absence above hides what is below,
  the effective read returns content from the worktree file or not at all
  (`LayerViews.ContentOnlyFromWorktree`).
- Snapshot and probes agree on every name for an index whose entries all have valid
  modes, as assumed by the capture comment; without that, the exact exception is in
  `LayerViews.SnapshotRefinesProbes`, with an instance in `LayerViews.HiddenEntryShows`.
- The alias map is documented as always single-hop
  (packages/discover/src/history.ts:165-175). The finished map is so exactly when no
  name is left stranded (`AliasMap.SingleHopIff`): `AliasMap.ReusedNameNeedsTwo` is an
  instance where it is not, and `AliasMap.LaterRenameMends` one where a later rename
  mends it. While it is being edited it is single-hop throughout exactly when every
  rename takes a free name (`AliasMap.IdempotentIff`).
- Reading HEAD alone, the snapshot and the probes part on directories and on oddly
  spelled names; `LayerViews.HeadViewsAgree` is the exact condition. No effective read
  shows the difference.
- The guard ignores SIGPIPE while it lives. When it was ignored before, it is
  ignored afterwards too, so "ignored exactly while guarded" carries that
  exception (`Sigpipe.UnguardedMeansRestored`).

## Model

| member | source | states |
|---|---|---|
| `Fingerprint.Horner` | packages/git-span-core/src/lib.rs:556-562 | the loop over wrapping words computes the polynomial fingerprint of the bytes, for every input |
| `Fingerprint.FpConcat` | packages/git-span-core/src/lib.rs:551-562 | the fingerprint of a concatenation is the first fingerprint shifted by a power of the base plus the second, modulo 2^64 |
| `Fingerprint.PowHiStep` | packages/git-span-core/src/lib.rs:577-589 | multiplying a coarse power entry by the stride gives the next one: the running product fills the coarse half of the table with the right powers |
| `Fingerprint.PowBaseIsPow` | packages/git-span-core/src/lib.rs:580-589 | the split table lookup is the power of the base for every exponent whose coarse index is in range |
| `Fingerprint.RollingWindow` | packages/git-span-core/src/lib.rs:1085-1092 | two prefix hashes and one power, combined by wrapping subtraction, are the fingerprint of the bytes between them |
| `Fingerprint.OneByteNeverCollides` | packages/git-span-core/src/lib.rs:540-562 | two contents of one length that differ in exactly one byte never have one fingerprint |
| `Fingerprint.PrependChanges` | packages/git-span-core/src/lib.rs:545-562 | prepending any byte, a zero byte included, changes the fingerprint |
| `Hex.HexRoundTrip` | packages/git-span-core/src/lib.rs:525-535 | writing a fingerprint as its sixteen-digit token and reading it gives it back |
| `Hex.HexCanonical` | packages/git-span-core/src/lib.rs:525-535 | the reader accepts only the spelling the writer produces |
| `LineIndexing.LineRangeRegion` | packages/git-span-core/src/lib.rs:76-133 | the single forward pass that stops early returns exactly the byte region of the clamped line range, for every buffer and range |
| `LineIndexing.LineIndex.BuildFrom` | packages/git-span-core/src/lib.rs:336-384 | the index holds the line table of the buffer, its carriage-return flag, and empty caches |
| `LineIndexing.LineIndex.RegionOf` | packages/git-span-core/src/lib.rs:404-415 | the indexed region is the same clamped region the forward pass computes |
| `LineIndexing.LineIndex.BuildPrefixTables` | packages/git-span-core/src/lib.rs:432-469 | every prefix-table entry is the fingerprint of the prefix ending at that line start or line end, and every coarse power is right and in range |
| `LineIndexing.LineIndex.PrefilterTables` | packages/git-span-core/src/lib.rs:422-427 | the lazily filled cache is absent exactly for buffers over 32 MiB; otherwise it holds valid tables, computed or remembered |
| `LineIndexing.LineIndex.WholeFileFingerprint` | packages/git-span-core/src/lib.rs:473-475 | the remembered value is the fingerprint of the buffer |
| `LineIndexing.LineIndex.LineCount` | packages/git-span-core/src/lib.rs:392-394 | the number of indexed lines is the number of lines of the split text, and fits 32 bits |
| `LineIndexing.RegionIsCanonical` | packages/git-span-core/src/lib.rs:140-177 | hashing the raw region of a carriage-return-free range and hashing the decoded, split, sliced and joined lines see the same bytes; an empty region means empty content |
| `LineIndexing.CheapFingerprintWithExtent` | packages/git-span-core/src/lib.rs:598-608 | the fingerprint of an extent of raw bytes is that of its canonical content |
| `LineIndexing.CheapFingerprintIndexed` | packages/git-span-core/src/lib.rs:611-622 | the indexed fingerprint is the same function, and keeps the index valid |
| `LineIndexing.LineEndingIndependence` | packages/git-span-core/src/lib.rs:1265-1285 | a text without carriage returns and its CRLF twin have one fingerprint for every line range |
| `Scan.TableFpIsFp` | packages/git-span-core/src/lib.rs:1082-1092 | in an LF-clean file every table access of a window is in range and the constant-time expression is the fingerprint of the joined window |
| `Scan.ScanByTables` | packages/git-span-core/src/lib.rs:1079-1100 | the table-driven loop emits exactly the windows the reference filter keeps |
| `Scan.ScanByHorner` | packages/git-span-core/src/lib.rs:1101-1113 | the fallback without tables emits the same windows |
| `Scan.ScanByJoin` | packages/git-span-core/src/lib.rs:1052-1116 | the fallback that joins the split lines emits the same windows |
| `Scan.ScanOneFileFpFiltered` | packages/git-span-core/src/lib.rs:1052-1116 | whichever of the three paths runs, the output is the reference filter over the lines of the file |
| `Scan.FileHitsExact` | packages/git-span-core/src/lib.rs:1016-1046 | a location is reported exactly when it names a window of the file with the right height and the target fingerprint |
| `Scan.FileHitsAscend` | packages/git-span-core/src/lib.rs:1016-1046 | the windows of a file are reported once each, in increasing line order |
| `Sorting.StableSortUnique` | packages/git-span-core/src/lib.rs:193-196 | any stable sort, one that sorts and keeps equivalent elements in their order, returns what the model sort returns |
| `Scan.NearestFirst` | packages/git-span-core/src/lib.rs:193-196 | with a near line the result is the one list of the same locations that is sorted by distance then start and keeps ties in positional order |
| `Scan.ScanIndexedRk64` | packages/git-span-core/src/lib.rs:995-1050 | the whole scan over many files, caches cold or warm, returns the reference list of matches and keeps every index valid |
| `Scan.AllIndexable` | packages/git-span-core/src/lib.rs:336-344 | no indexed file is left out of the scan for its size |
| `Scan.TwinScansAgree` | packages/git-span-core/src/lib.rs:1052-1116 | a file and its CRLF twin are matched at the same places although they take different paths |
| `ScanLaws.RangeMatches` | packages/git-span-core/src/lib.rs:995-1050 | a line range is matched by exactly the windows of its own height, in files within the size bound, whose joined lines have the target fingerprint, with a near line or without |
| `ScanLaws.FindsItself` | packages/git-span-core/src/lib.rs:1015-1046 | an anchor that did not move is among the matches of its own fingerprint, whatever else the files hold |
| `ScanLaws.WholeMatches` | packages/git-span-core/src/lib.rs:1005-1014 | a whole file is matched by exactly the files whose bytes have the target fingerprint |
| `ScanLaws.NearestComeFirst` | packages/git-span-core/src/lib.rs:193-196 | with a near line no match is farther from it than a later one, and of two at one distance the upper comes first |
| `ScanLaws.FilesInOrder` | packages/git-span-core/src/lib.rs:995-1050 | without a near line the matches of two lists of files are those of the first and then those of the second |
| `ScanLaws.WindowsInOrder` | packages/git-span-core/src/lib.rs:1016-1046 | the matches of one file start at strictly increasing lines |
| `Jaccard.InternNormalizedLines` | packages/git-span-core/src/lib.rs:703-723 | every line gets the id of its normalized text, the shared table only grows, raw-empty lines are flagged, and equal ids mean equal lines as long as the table holds at most 2^32 strings |
| `Jaccard.SimilarityInterned` | packages/git-span-core/src/lib.rs:796-815 | the similarity depends only on which ids are equal: ids score as the strings they stand for |
| `Jaccard.Enter` | packages/git-span-core/src/lib.rs:906-915 | one line entering the window updates the counts and the intersection to those of the larger multiset |
| `Jaccard.Leave` | packages/git-span-core/src/lib.rs:894-905 | one line leaving updates them to those of the smaller multiset, and no subtraction underflows |
| `Jaccard.JaccardWindowScanInterned` | packages/git-span-core/src/lib.rs:816-923 | at every step the running intersection is that of the multisets, and each reported confidence is the from-scratch similarity of its window of ids |
| `Jaccard.RejoinedWindow` | packages/git-span-core/src/lib.rs:728-800 | joining a window and splitting it again loses exactly one trailing empty line |
| `Jaccard.IdScanIsLineScan` | packages/git-span-core/src/lib.rs:796-923 | ids that score as the lines they stand for give the scan of the lines, window by window |
| `Jaccard.WindowMatchesNaive` | packages/git-span-core/src/lib.rs:1655-1678 | for lines without a line feed, dropping a trailing empty line scores a window as joining, re-splitting and comparing its text does |
| `Jaccard.JaccardWindowScan` | packages/git-span-core/src/lib.rs:768-815 | for any candidate entries the incremental scan reports what comparing the lines of every window from scratch reports, and for entries without a line feed what the naive scan of the joined text reports, at every noise floor |
| `JaccardLaws.NormalizePlain` | packages/git-span-core/src/lib.rs:703-723 | a line without leading, trailing, repeated or odd whitespace is its own normal form |
| `JaccardLaws.NormalizeRuns` | packages/git-span-core/src/lib.rs:703-723 | replacing one run of whitespace by another anywhere in a line keeps its normal form |
| `JaccardLaws.NormalizeEnds` | packages/git-span-core/src/lib.rs:703-723 | whitespace added or dropped at either end of a line keeps its normal form |
| `JaccardLaws.SimilarityIsQuotient` | packages/git-span-core/src/lib.rs:636-665 | the score is the sum of the smaller counts over the sum of the larger ones, over any list naming every line once, and 0 for two empty texts |
| `JaccardLaws.ReportedExactly` | packages/git-span-core/src/lib.rs:830-923 | exactly the windows that score at least the floor are reported, with their scores, from top to bottom |
| `JaccardLaws.OneLineScan` | packages/git-span-core/src/lib.rs:830-923 | at extent 1 a one-line text is reported at exactly the candidates with its words, always with confidence 1 |
| `SpanLines.AddressRoundTrip` | packages/git-span-core/src/span_file.rs:1032-1061 | a printed address is read back, whole-file or ranged, for every well-formed path |
| `SpanLines.AnchorRoundTrip` | packages/git-span-core/src/span_file.rs:811-875 | a printed anchor line is read back |
| `SpanLines.AnchorOutput` | packages/git-span-core/src/span_file.rs:811-875 | whatever line the anchor parser accepts, its result is a well-formed anchor |
| `SpanLines.RecordRoundTrip` | packages/git-span-core/src/span_file.rs:295-361 | a printed resolution record is read back |
| `SpanLines.RecordOutput` | packages/git-span-core/src/span_file.rs:295-361 | whatever line the record parser accepts, its result is a well-formed record |
| `SpanLines.ConfigRoundTrip` | packages/git-span-core/src/span_file.rs:702-784 | the printed configuration block is read back for every configuration |
| `SpanFormat.ParseSpanFile` | packages/git-span-core/src/span_file.rs:390-536 | the parser, loop by loop, computes the specified result or the specified error and line, for every text |
| `SpanFormat.SerializeSpanFile` | packages/git-span-core/src/span_file.rs:540-594 | the printer builds exactly the specified text |
| `SpanTheorem.RoundTrip` | packages/git-span-core/src/span_file.rs:390-594 | parsing the printed form gives the file back if and only if it is well formed: a closed condition on its anchors, records, prose and conflict markers |
| `SpanTheorem.ParseOutput` | packages/git-span-core/src/span_file.rs:390-536 | every parsed file has well-formed anchors and records, distinct resolution identities and end-trimmed prose |
| `SpanTheorem.ParsedRoundTrip` | packages/git-span-core/src/span_file.rs:390-594 | for parser output the round trip holds exactly when the prose lines stay prose and no printed line is a conflict marker |
| `SpanTheorem.TrimmedIntoMarker` | packages/git-span-core/src/span_file.rs:390-594 | an accepted input whose printed form does not parse back: a last prose line that trims into a section marker |
| `SpanTheorem.CrlfTwinParses` | packages/git-span-core/src/span_file.rs:390-400 | a CRLF file parses to what its LF twin parses to, errors included |
| `SpanConflicts.ConflictExactly` | packages/git-span-core/src/span_file.rs:788-805 | a text is refused as a conflict if and only if one of its lines starts with seven `<`, `>` or bars, or with seven `=` followed by its end or whitespace |
| `SpanConflicts.ConflictBlockRefused` | packages/git-span-core/src/span_file.rs:408-412 | a conflict block as Git writes it is refused as a conflict wherever it stands and whatever surrounds it |
| `SpanGrammar.TrimStrips` | packages/git-span-core/src/span_file.rs:811-815 | trimming yields the one text without whitespace at its ends that only whitespace surrounds |
| `SpanGrammar.AddressExactly` | packages/git-span-core/src/span_file.rs:1032-1061 | an address is accepted with a meaning if and only if it is a path without `#`, or a path without `#L` followed by `#L`, a line, `-L` and a line not above it, in 32-bit decimals |
| `SpanGrammar.AnchorExactly` | packages/git-span-core/src/span_file.rs:811-875 | an anchor line is accepted with a meaning if and only if it is an address, its last space and a token of two non-empty parts |
| `SpanGrammar.TimestampExactly` | packages/git-span-core/src/span_file.rs:262-282 | a timestamp is accepted if and only if it agrees with one layout of digits and punctuation, character by character |
| `SpanGrammar.RecordExactly` | packages/git-span-core/src/span_file.rs:288-361 | a record line is accepted with a meaning if and only if it spells timestamp, command, address and token with single spaces |
| `SpanConfig.ConfigExactly` | packages/git-span-core/src/span_file.rs:702-785 | a configuration block is accepted with a value if and only if, comments outside quotes aside, each line assigns what the value has to a known key, no key twice, and the default holds for the rest |
| `SpanDocument.ParseExactly` | packages/git-span-core/src/span_file.rs:390-530 | a text is accepted as a given file if and only if no line is a conflict mark and the text spells the file: anchors up to the first empty line, prose, records and configuration at their markers |
| `SpanErrors.InvalidExactly` | packages/git-span-core/src/span_file.rs:390-530 | a text is refused at line n if and only if no line is a conflict mark and line n, counted in the whole text, is the first to spoil its block, anchors being looked at first, then configuration, records and prose |
| `SpanPrinted.SerializeExactly` | packages/git-span-core/src/span_file.rs:540-595 | the printer writes, for every file, the one text made of its lines in canonical spelling, sections in order and blank lines where the format puts them |
| `SpanCollapse.CollapseDuplicateIdentities` | packages/git-span-core/src/span_file.rs:632-674 | the survivors are strictly ascending, each the first record of its identity; exactly the shrunk groups are reported with their sizes and agreed token; lengths account for every removed record |
| `SpanCollapse.CollapseDeterministic` | packages/git-span-core/src/span_file.rs:617-630 | survivors and reports are determined by the input records alone |
| `SpanCollapse.CollapseSide` | packages/git-span-core/src/span_file.rs:1325-1341 | on each side an identity keeps its first record, with the sentinel planted exactly when its records disagreed; every report is tagged and appended |
| `SpanMerge.RehashAnchor` | packages/git-span-core/src/span_file.rs:1148-1167 | re-hashing replaces only the token, by the fingerprint of the anchored content |
| `SpanMerge.MergeMaps` | packages/git-span-core/src/span_file.rs:1192-1275 | walking the two index maps in any order collects, per identity, exactly what the merge policy selects |
| `SpanMerge.MergeSpanFiles` | packages/git-span-core/src/span_file.rs:1137-1319 | anchors, open identities and preserved sentinels are the canonical listings of a per-identity policy; prose, configuration and records are three-way results |
| `SpanMergeTable.MergedExactly` | packages/git-span-core/src/span_file.rs:1137-1275 | every merged token is accounted for: carried by both sides, else a kept sentinel, else the fingerprint of what the address names in the first source of its path, else the token of the only side that has it |
| `SpanMergeTable.SourceIsUsed` | packages/git-span-core/src/span_file.rs:1206-1211 | a verified anchor not carried with one token by both sides gets the fingerprint of the supplied content of its path |
| `SpanMergeTable.OpenSides` | packages/git-span-core/src/span_file.rs:1213-1265 | an anchor is left open, with what each side says, if and only if both sides carry it, their tokens differ and its path has no source |
| `SpanMergeLaws.MergeDeterministic` | packages/git-span-core/src/span_file.rs:1277-1293 | any two executions on the same inputs, whatever the map order, return the same result |
| `SpanMergeLaws.IdentitiesConserved` | packages/git-span-core/src/span_file.rs:1343-1374 | every identity of either side is in exactly one of merged and unresolved, nothing else is, and both are strictly sorted |
| `SpanMergeLaws.SentinelSticks` | packages/git-span-core/src/span_file.rs:1196-1275 | an identity whose content was never verified on some side, or whose records disagreed, stays a sentinel if merged |
| `SpanMergeLaws.PreservedExactly` | packages/git-span-core/src/span_file.rs:1196-1293 | the preserved list names exactly the identities unverified on one side and not on the other |
| `SpanMergeLaws.FreshHashIsSentinel` | packages/git-span-core/src/span_file.rs:676-693 | a fresh hash reads as the sentinel only for the all-ones fingerprint; a range that is gone never does |
| `SpanMergeLaws.OpenExactly` | packages/git-span-core/src/span_file.rs:1215-1258 | an identity is left unresolved exactly when the sides differ on it and no source settles it |
| `SpanMergeLaws.NothingRehashedWithoutSources` | packages/git-span-core/src/span_file.rs:1196-1275 | without sources every merged anchor is one side's record, untouched |
| `SpanMergeLaws.MergeSwap` | packages/git-span-core/src/span_file.rs:1137-1319 | swapping the sides exchanges the two records of each open identity and changes nothing else in anchors and flags; a conflict-free merge commutes entirely |
| `SpanMergeLaws.SelfMerge` | packages/git-span-core/src/span_file.rs:1137-1319 | merging a duplicate-free file with itself, over any base and sources, sorts its anchors and changes nothing else |
| `SpanMergePrints.MergedFileRoundTrips` | packages/git-span-core/src/span_file.rs:1137-1319 | the merge of two well-formed files is well formed: printed and parsed, it is given back, conflicts or not |
| `SpanResolve.ResolveField` | packages/git-span-core/src/span_file.rs:1379-1436 | prose and configuration: conflict exactly when both sides left the base and differ; an unchanged side yields |
| `SpanResolve.ResolveResolvedSection` | packages/git-span-core/src/span_file.rs:1446-1530 | equal sections are kept as they are; otherwise the result lists, per identity, what the policy keeps, and flags a divergence exactly when some identity diverges |
| `SpanResolve.ChooseIsThreeWay` | packages/git-span-core/src/span_file.rs:1494-1513 | with a base the per-identity choice is the same three-way rule as for prose and configuration |
| `SpanResolve.OneSidedSurvives` | packages/git-span-core/src/span_file.rs:1514-1522 | without a base a record present on only one side survives |
| `SpanResolve.ResolvedSwap` | packages/git-span-core/src/span_file.rs:1446-1530 | swapping the sides keeps the flag and, unless it is raised, the records |
| `SpanMergeTable.ResolvedExactly` | packages/git-span-core/src/span_file.rs:1446-1530 | identity by identity, an equal record stays, a change of one side wins, a record of one side survives without a base, and a clash keeps ours |
| `SpanMergeTable.DivergedExactly` | packages/git-span-core/src/span_file.rs:1446-1530 | the section is flagged if and only if it differs and the sides clash on some identity |
| `SliceRange.SliceLineRange` | packages/git-span/src/git.rs:1260-1273 | the extracted text is each selected line with a line feed; a range past the end is an error and never an empty text |
| `SliceRange.SliceIsHashedContent` | packages/git-span/src/git.rs:1260-1273 | the extracted text is the hashed canonical content and one line feed |
| `SliceRange.SliceSplitsBack` | packages/git-span/src/git.rs:1260-1273 | splitting the extracted text gives the selected lines exactly when none still ends in a carriage return |
| `GraftFile.ReadGraftFile` | packages/git-span/src/git.rs:174-273 | the graft file is cut into lines and fields: blank lines and comments are skipped, and the first field and the parents are read as object ids |
| `GraftFile.GraftExactly` | packages/git-span/src/git.rs:180-261 | a line is taken as a graft exactly when, trimmed, it is object ids separated by single spaces |
| `GraftFile.ReadConcat` | packages/git-span/src/git.rs:179-273 | lines are read independently of each other |
| `GraftFile.GraftsReadBack` | packages/git-span/src/git.rs:174-273 | a graft file written out is read back line by line |
| `Topology.ClassifyGrafts` | packages/git-span/src/git.rs:174-275 | graft metadata is trusted exactly when every line is well formed and no commit repeats; the targets are then exactly the grafts that change parents |
| `Topology.Walk` | packages/git-span/src/git.rs:314-343 | on any finite graph, cyclic or not, the worklist ends; success means no reachable commit is a target or unreadable, each error names a reachable culprit, and the bound error means the bound was really met |
| `Topology.RejectReplacementTopology` | packages/git-span/src/git.rs:283-349 | the check accepts only acceptable metadata, and acceptable metadata is refused only by the bound |
| `Topology.UntrustedIsRefused` | packages/git-span/src/git.rs:174-275 | two grafts of one commit, a malformed line, or a line of no graft make the history unacceptable, whatever the commits |
| `Topology.GraftedIsRefused` | packages/git-span/src/git.rs:314-349 | a graft of a reachable commit that changes its recorded parents makes the history unacceptable |
| `Topology.AcceptedHistoryIsRaw` | packages/git-span/src/git.rs:314-349 | after acceptance the history with replacements and grafts applied is the recorded one: same reachable commits, same parents |
| `History.GitLogNameOnlyForPaths` | packages/git-span/src/git.rs:684-775 | for any limit and any walk that comes to a stop, cyclic chains included, the log is the first entries of the unlimited first-parent log, or the error of the very commit that ended the walk before the limit was met |
| `History.LogDeterminesBlobs` | packages/git-span/src/git.rs:684-775 | a seed path's blob at any commit is its blob at the newest logged commit from there back that touched it, absent if none |
| `History.NewestLoggedHasBlobs` | packages/git-span/src/git.rs:684-775 | every seed path has at any commit the blob it has at the newest logged commit from there back |
| `History.LoggedCommitsMoved` | packages/git-span/src/git.rs:740-772 | a logged commit lists exactly the seed paths whose blob differs from its first parent, and at least one |
| `History.LoggedExactly` | packages/git-span/src/git.rs:705-756 | a seed path is logged at a commit of the walk if and only if the commit and its first parent do not both lack a file there nor both have the same one, every tree entry but directories and submodules being a file |
| `History.LimitedIsPrefix` | packages/git-span/src/git.rs:684-775 | whatever two runs follow of the chain, a limited log is the front of a longer one; when the longer one fails, the limited one fails alike or had met its limit; and one limit has one result |
| `TreeBuild.InsertFails` | packages/git-span/src/preflight.rs:161-183 | an insertion is refused exactly when a stored path and the new one are proper component-prefixes one of the other |
| `TreeBuild.InsertSets` | packages/git-span/src/preflight.rs:161-183 | a successful insertion sets one path, changes no other and keeps the trie well formed |
| `TreeBuild.BuildTree` | packages/git-span/src/preflight.rs:206-213 | the build fails only for a prefix collision or an over-deep path; a built trie holds exactly the last entry of every path |
| `TreeBuild.FlattenIsEntries` | packages/git-span/src/preflight.rs:206-213 | for path-unique entries, reading the trie gives exactly the entries |
| `TreeBuild.TrieUnique` | packages/git-span/src/preflight.rs:155-213 | a well-formed trie is determined by the files found in it |
| `TreeBuild.BuildOrderIrrelevant` | packages/git-span/src/preflight.rs:206-213 | reordering path-unique entries changes neither acceptance nor the tree |
| `TreeOrder.ChildOrderTotal` | packages/git-span/src/preflight.rs:187-194 | on the children of a node the order, directories with a slash, is strict and total |
| `TreeOrder.ChildOrderTransitive` | packages/git-span/src/preflight.rs:187-194 | the child order is transitive |
| `TreeOrder.ChildOrderUnique` | packages/git-span/src/preflight.rs:182-194 | the children of a node have one sorted order, however they were collected |
| `TreeOrder.BuiltNameable` | packages/git-span/src/preflight.rs:206-213 | every path in a built tree has slash-free components, as the child order needs |
| `TreeOrder.TreeBytesInjective` | packages/git-span/src/preflight.rs:195-199 | different child lists give different bytes to hash, for identities of one width |
| `TreeIdentity.SortedChildren` | packages/git-span/src/preflight.rs:182-194 | sorting the children collected in any order gives the one listing of the node |
| `TreeIdentity.HashTree` | packages/git-span/src/preflight.rs:182-205 | collecting, sorting and encoding every node, children before parents, computes the tree identity of the trie |
| `TreeIdentity.TreeHash` | packages/git-span/src/preflight.rs:156-214 | the whole computation refuses as the trie does, and otherwise returns the identity of the built trie |
| `TreeIdentity.TreeIdInjective` | packages/git-span/src/preflight.rs:182-205 | unless the hash collides on what was hashed, two tries have one identity exactly when they are equal at every depth |
| `TreeIdentity.TreeHashIsIndex` | packages/git-span/src/preflight.rs:155-214 | unless the hash collides on what was hashed, two path-unique indexes have one tree identity exactly when they have the same entries in whatever order |
| `TreeIdentity.ListingInGitOrder` | packages/git-span/src/preflight.rs:182-198 | the listing of a node increases strictly by name, a slash appended to directory names |
| `TreeIdentity.TreeReadsBack` | packages/git-span/src/preflight.rs:199-204 | the hashed bytes of a node are a Git tree object: reading mode, name and identity off them gives the children back in order |
| `LayerViews.SnapshotRefinesProbes` | packages/git-span/src/span_file_reader.rs:173-211 | for every repository and name the snapshot and the per-name probes give the same effective outcome, completed or degraded captures alike, if and only if no skipped index entry masks an unreadable HEAD |
| `LayerViews.SnapshotAgreesOnValidIndex` | packages/git-span/src/span_file_reader.rs:460-574 | with valid index modes the two views agree for every name, and so do staged reads |
| `LayerViews.ContentOnlyFromWorktree` | packages/git-span/src/span_file_reader.rs:173-211 | an effective read returns content only from the worktree file; with that file absent and nothing failing it is always absent |
| `LayerViews.UnmergedFails` | packages/git-span/src/span_file_reader.rs:178-186 | the effective read fails as unmerged if and only if the index is readable and holds an entry of a conflict stage with a valid mode at the name, whatever the worktree holds |
| `LayerViews.EffectiveTable` | packages/git-span/src/span_file_reader.rs:187-211 | out of conflict a worktree file alone decides the read, with its parse or its error; without one the read is absent or the index or HEAD cannot be read |
| `LayerViews.CaptureHoldsBlobs` | packages/git-span/src/span_file_reader.rs:815-838 | a completed HEAD capture holds exactly the names whose probe finds a blob, in their normal spelling |
| `LayerViews.HeadViewsAgree` | packages/git-span/src/span_file_reader.rs:273-292 | the HEAD reads of the two views agree if and only if no completed capture missed an entry the probe finds: a directory, or a blob asked for by an odd spelling; the snapshot then says absent |
| `LayerViews.ReadHeadOfDirectory` | packages/git-span/src/span_file_reader.rs:273-292 | an instance: on a directory the probe fails and the snapshot says absent |
| `LayerViews.ReadHeadOfOddSpelling` | packages/git-span/src/span_file_reader.rs:273-292 | an instance: asked for `./a` the probe finds the blob at `a` and the snapshot says absent |
| `LayerViews.HiddenEntryShows` | packages/git-span/src/span_file_reader.rs:489-508 | a concrete repository where an invalid index mode makes the two views differ |
| `LayerReader.BuildIndexTable` | packages/git-span/src/span_file_reader.rs:489-508 | the fold keeps, per path, the first entry's blob and whether any entry is unmerged |
| `LayerReader.CollectTreeLeafOids` | packages/git-span/src/span_file_reader.rs:815-838 | the walk maps every leaf path under a tree to its object, or fails exactly when some subtree cannot be read |
| `LayerReader.Reader.ReadEffectiveLayers` | packages/git-span/src/span_file_reader.rs:173-211 | the overlay skeleton returns the specified outcome in either mode and spends at most one capture of each layer |
| `LayerReader.Reader.ReadCorpus` | packages/git-span/src/span_file_reader.rs:46-67 | any number of names read through one snapshot cost at most one index fold and one HEAD walk when captures complete |
| `NotesText.CanonicalIdentity` | packages/git-span/src/notes.rs:110-129 | two documents have one canonical text exactly when they are equal up to the order of object members at every depth |
| `NotesText.CanonicalIdempotent` | packages/git-span/src/notes.rs:110-129 | canonicalising a canonical document changes nothing |
| `NotesJson.CanonInOrder` | packages/git-span/src/notes.rs:110-129 | the canonical object has the members of the object, in strictly increasing order of their keys |
| `NotesGrammar.CanonicalTextIsJson` | packages/git-span/src/notes.rs:110-129 | the identity text is a JSON text of a value equal to the document up to member order |
| `NotesText.PrintInjective` | packages/git-span/src/notes.rs:128-128 | the compact printed form is injective, also in front of any following text that cannot extend a number |
| `NotesStore.Store.Add` | packages/git-span/src/notes.rs:262-299 | the add transaction: refuses, returns the present note unchanged, or allocates the next identifier |
| `NotesStore.Store.Remove` | packages/git-span/src/notes.rs:367-381 | the remove transaction deletes exactly the requested note and leaves the sequence alone |
| `NotesStore.Store.List` | packages/git-span/src/notes.rs:307-331 | the listing is the selected notes in ascending order, and fails exactly when some row does not decode |
| `NotesStore.ShaExactly` | packages/git-span/src/notes.rs:512-520 | a commit is named by 40 or 64 lowercase hexadecimal characters and nothing else |
| `NotesStore.SelectionFilters` | packages/git-span/src/notes.rs:317-327 | listing a selection of commits gives exactly the notes of the full listing that belong to them |
| `NotesStore.AddPresent` | packages/git-span/src/notes.rs:266-273 | adding a pair that is present changes nothing and returns its note |
| `NotesStore.EquivalentDocumentsShareNote` | packages/git-span/src/notes.rs:262-299 | documents equal up to member order share one note, others never do |
| `NotesStore.RunSound` | packages/git-span/src/notes.rs:486-495 | in every interleaving of transactions identifiers stay within the sequence, the sequence within its limit and never decreasing, pairs unique and rows decodable |
| `NotesStore.IdsNeverReused` | packages/git-span/src/notes.rs:274-299 | every new identifier exceeds all issued before it, removed or not |
| `NotesStore.ExhaustionIsFinal` | packages/git-span/src/notes.rs:274-278 | exhaustion fails without changing state, and nothing is issued ever after |
| `AliasMap.BuildAliasMap` | packages/discover/src/history.ts:176-187 | the nested loops over the edited map agree with following every single name forward on its own, and the map returned is single-hop exactly when no name is left stranded |
| `AliasMap.RepointIdempotent` | packages/discover/src/history.ts:180-184 | one rename keeps the map idempotent exactly when the name it takes is free |
| `AliasMap.IdempotentIff` | packages/discover/src/history.ts:180-184 | the map being edited is single-hop at every point of the history if and only if every rename takes a free name |
| `AliasMap.SingleHopIff` | packages/discover/src/history.ts:165-187 | the finished map is single-hop, as documented, if and only if no rename carries a name to one whose own history ended elsewhere, with neither renamed again and that history never led back |
| `AliasMap.FreshNamesIdempotent` | packages/discover/src/history.ts:165-187 | renames that take free names only make the finished map single-hop, and so does never reusing an earlier source name |
| `AliasMap.ReusedNameNeedsTwo` | packages/discover/src/history.ts:165-187 | a reused name breaks the documented single-hop claim: one file becomes b, another takes a |
| `AliasMap.LaterRenameMends` | packages/discover/src/history.ts:165-187 | a taken name that is renamed again leaves the finished map single-hop |
| `ChangeGroups.BuildChangeGroups` | packages/discover/src/history.ts:319-348 | each group summarizes one run of qualifying commits: its files, its latest time, its size |
| `ChangeGroups.RunsPartition` | packages/discover/src/history.ts:299-348 | the runs partition the qualifying commits in order; neighbours inside a run merge, neighbours across runs do not |
| `ChangeGroups.GroupsConserveCommits` | packages/discover/src/history.ts:319-348 | every qualifying commit is counted in exactly one group |
| `ChangeGroups.MergesAsDocumented` | packages/discover/src/history.ts:299-312 | two commits merge if and only if they have one author and lie within 45 minutes, or share a ticket and lie within 24 hours |
| `ChangeGroups.QualifyingExactly` | packages/discover/src/history.ts:330-333 | the commits taking part are exactly those that are no release and touch a file |
| `Ranking.PathKeyIsSet` | packages/discover/src/merge.ts:96-104 | for paths without NUL the joined key of the sorted distinct paths stands for their set |
| `Ranking.GroupByPaths` | packages/discover/src/merge.ts:89-107 | an excluded path fails the merge; otherwise there is one group for each set of two or more paths with all its candidates in order |
| `Scoring.Combine` | packages/discover/src/merge.ts:113-117 | the score loop computes the capped attenuated noisy-or |
| `Ranking.GroupScoreBounds` | packages/discover/src/merge.ts:111-117 | a group scores at least each member up to the ceiling, and never above the ceiling |
| `Ranking.StrongestFirstIsBest` | packages/discover/src/merge.ts:112-117 | no permutation of the members scores higher than strongest first |
| `Scoring.EvidenceCloses` | packages/discover/src/merge.ts:113-117 | no evidence scores 0, and each further piece closes its part of what is missing from 1, reduced to 55 percent with every piece before it |
| `Ranking.UndampedExactly` | packages/discover/src/merge.ts:112-117 | the score before damping is the best any arrangement of the members earns, cut off at 98 percent |
| `Ranking.RankedExactly` | packages/discover/src/merge.ts:112-144 | a scored group keeps its paths, the signals of its members and a strongest member; documents alone without backing count for 78 percent |
| `Ranking.ExcludedExactly` | packages/discover/src/merge.ts:48-56 | an excluded prefix excludes itself and everything below it, and nothing else |
| `Ranking.MergeCandidates` | packages/discover/src/merge.ts:88-168 | what is returned is descending, no longer than the cap, at or above the floor, free of weak duplicates, made of the scored groups only, and a group is missing only if it is too weak, overshadowed by a returned one, or the list is full |
| `Ranking.RankedListIsPrunable` | packages/discover/src/merge.ts:146-148 | the sorted merged list is descending and never negative, as the pruning laws ask |
| `Ranking.PrunedHasReason` | packages/discover/src/merge.ts:150-165 | every pruned group has a kept related group beating it by the ratio |
| `Ranking.KeptAreApart` | packages/discover/src/merge.ts:150-165 | no kept group is overshadowed by another kept group |
| `Ranking.FloorCommutesWithPruning` | packages/discover/src/merge.ts:146-167 | pruning then applying the score floor equals applying the floor then pruning |
| `Sigpipe.Guards.Enter` | packages/git-span/src/sigpipe.rs:51-64 | entering keeps the saved disposition that of before the outermost guard |
| `Sigpipe.Guards.Leave` | packages/git-span/src/sigpipe.rs:66-79 | leaving restores it exactly when the last guard goes |
| `Sigpipe.StepInv` | packages/git-span/src/sigpipe.rs:36-97 | every step of every thread, inside and outside the mutex, the hand-over of a guard to another thread included, keeps the invariant |
| `Sigpipe.GuardedMeansIgnored` | packages/git-span/src/sigpipe.rs:40-97 | at every instant of every interleaving the depth counts the live guards, and while one lives the signal is ignored and the value to restore is the original one |
| `Sigpipe.UnguardedMeansRestored` | packages/git-span/src/sigpipe.rs:66-97 | with the mutex free and no live guard the original disposition is back; it is ignore exactly while guarded unless it was ignore before |
| `Sigpipe.LeaveNeverUnderflows` | packages/git-span/src/sigpipe.rs:66-68 | the decrement of the depth never underflows |
| `Sigpipe.HolderIsAlone` | packages/git-span/src/sigpipe.rs:44-49 | while one thread holds the mutex no other changes the shared state |
| `Sigpipe.ExitIsAtomic` | packages/git-span/src/sigpipe.rs:66-79 | the locked steps of an exit amount to the sequential exit |
| `Sigpipe.EntryIsAtomic` | packages/git-span/src/sigpipe.rs:51-64 | the locked steps of an entry, run by any thread, amount to the sequential entry |

## Left out

- Invalid UTF-8: buffers are taken as valid text, so lossy decoding is the identity; carriage returns and line feeds are modelled in full.
- Floating-point rounding: similarities, confidences and scores are exact reals.
- Error wording: errors keep their kind and, for malformed span files, the reported line number.
- Git objects, subprocesses, the file system, SQLite and clocks: their results are given maps, trees, atomic transactions and flags.
- Jaccard.JaccardWindowScan: states its result while the anchored text and the candidates together hold at most 2^32 lines; beyond that many strings the original's 32-bit ids wrap and lines may coincide.
- LineIndexing.LineIndex.BuildFrom: takes buffers of at most 2^32 - 1 bytes; the original refuses larger ones by a panic.
- History.GitLogNameOnlyForPaths: covers the walks that come to a stop; round a cycle of first parents that never meets the limit the original, which keeps no visited set, does not return. The changed paths of a commit are a set, where the original lists them in order.
- TreeBuild.BuildTree: the trie is a value rebuilt along the inserted path, so update in place of nested maps is not captured.
- TreeIdentity.TreeHash: the object hash is any function of the tree bytes, without the object header; an object id of the index is taken as already read.
- LayerViews.SnapshotRefinesProbes: one unchanging repository, and tree lookups that descend through subtrees only; the retained-authority variant of the read is not modelled.
- NotesStore.Store.Add: a stored document decodes to the value that was stored; schema, journal and file checks of the database are not modelled.
- GraftFile.ReadGraftFile: which texts are object ids is a parameter; the wording of the reported problem is not modelled.
- Ranking.MergeCandidates: evidence tags and line ranges of the merged locations are not carried; locale comparison enters as two arbitrary total preorders; paths hold no NUL, so that the original's joined key stands for the set of paths.
- ChangeGroups.BuildChangeGroups: the ticket tokens of a subject line are given; the regular expressions that find them, and the release classification, are not modelled.
- Scan.ScanIndexedRk64: shared ownership of buffers and concurrent cache initialisation are not modelled; caches are filled by the thread that asks.
- Name and path predicates, anchor-line classification, configuration loading, command dispatch, performance counters, the working-tree scanner, message quality, the resolver and the context service: each is settled by reading one function, or rests on facilities outside this model.
