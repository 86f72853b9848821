# Badger: a verified model of its detector catalog, scan and session

Badger is a browser tool for forensic text triage. A user drops or picks a
document (PDF, spreadsheet, word-processor file, CSV, plain text or JSON).
The text is then extracted and scanned with a catalog of regular-expression
detectors ("patterns") for crypto addresses, network identifiers, personal
data, financial codes, national identifiers and secrets. The distinct hits
of each detector are shown in a tab, and the user can search, copy and
export them as CSV. A settings dialog switches built-in detectors on and
off and adds custom detectors.

This Dafny project models three parts of it:

- **The catalog and the scan** (`badger-new/src/lib/patterns.ts`).
  - `PatternCatalog` holds the 32 detectors with their names, descriptions,
    categories and regular-expression flags.
  - `Patterns` models `analyzeText`. `Analysis` is the specification as a
    fold over the scanned patterns, and `AnalyzeText` is the loop with its
    JS `Map`, proved equal to that fold.
  - The lemmas say which names become keys, in which order, and which
    pattern's hits are stored under a name.
- **The extension dispatch** (`badger-new/src/lib/file-parser.ts`), in
  `FileParser`: the lower-cased text after the last dot picks the reader.
  The list of supported extensions agrees with the `switch`.
- **The session** (`src/App.tsx`):
  - `Selection` holds the value-level helpers: toggling, the offered
    pattern list, the search filter, the result rows and the total.
  - `CsvExport` holds both CSV exports, each with a reader for its format
    and a round-trip lemma.
  - `App` holds the state machine as the class `AppContent` and the
    settings form as the class `SettingsDialog`. Every handler is a method
    that keeps the session invariant `Valid`.
- **JS library behaviour** the core relies on is modelled in
  `JsCollections` (`filter`, `map`, `[...new Set(…)]`, an
  insertion-ordered `Map`) and `JsStrings` (`trim`, ASCII `toLowerCase`,
  `includes`).

Environment dependencies are parameters:

- The regular-expression engine is `Matcher`: all matches of a global
  expression in a text, with `[]` standing for `null`.
- Compiling a user's expression is `compiles: string -> bool`.
- The file readers are `read: Reader -> Result<string, string>`.
- What local storage holds is given to the `AppContent` constructor.

The catalog has 32 entries.

`handleAnalyze` passes no custom patterns to `analyzeText`
(src/App.tsx:347). A custom pattern is therefore never scanned: its name
gives a tab only when a catalog entry of the same name matches. This is
stated by `App.RowNames` and `App.CustomPatternsNeverScanned`.

## Model

| member | source | states |
|---|---|---|
| JsCollections.Filter | src/App.tsx:283 | `filter` keeps, in order, exactly the elements that pass, each as often as before |
| JsCollections.MapSeq | src/App.tsx:284-289 | `map` keeps the length and applies the function at every position |
| JsCollections.FirstIndex | badger-new/src/lib/patterns.ts:227 | the first position of an element that occurs |
| JsCollections.Dedup | badger-new/src/lib/patterns.ts:227 | `[...new Set(s)]` has no duplicates and holds exactly the elements of `s` |
| JsCollections.DedupFirstOccurrenceOrder | badger-new/src/lib/patterns.ts:227 | the set's elements come out in the order of their first occurrence |
| JsCollections.DedupFirstOccurrences | badger-new/src/lib/patterns.ts:227 | the same for all pairs of positions |
| JsCollections.FirstIndexInPrefix | badger-new/src/lib/patterns.ts:227 | a first occurrence inside a prefix is the first occurrence in the whole |
| JsCollections.FirstIndexOfNew | badger-new/src/lib/patterns.ts:227 | an element first met at the end has its first occurrence there |
| JsCollections.DedupPrefixEntry | badger-new/src/lib/patterns.ts:227 | adding an element to the set keeps the places of those it held |
| JsCollections.DedupOrderInPrefix | badger-new/src/lib/patterns.ts:227 | two elements already in the set keep their first-occurrence order |
| JsCollections.DedupOrderLast | badger-new/src/lib/patterns.ts:227 | a newly added element comes after every element the set held |
| JsCollections.Keys | badger-new/src/lib/patterns.ts:229 | the keys of a `Map`, in insertion order |
| JsCollections.Get | badger-new/src/lib/patterns.ts:229 | `get` finds a value exactly for a present key |
| JsCollections.Put | badger-new/src/lib/patterns.ts:229 | `set` keeps the key's place or appends it, stores the value, and changes no other key |
| JsCollections.GetAt | badger-new/src/lib/patterns.ts:229 | with distinct keys, `get` of an entry's key gives that entry's value |
| JsCollections.PutKeepsKeysDistinct | badger-new/src/lib/patterns.ts:229 | `set` never gives a key two entries |
| JsStrings.IsWhiteSpace | badger-new/src/lib/patterns.ts:227 | the ECMAScript WhiteSpace and LineTerminator characters that `trim` strips and `\s` (src/App.tsx:387) matches; `JsStrings.TrimIsSlice` and `App.UnderscoreNoWhiteSpace` state results free of them |
| JsStrings.TrimStart | badger-new/src/lib/patterns.ts:227 | what is left is a suffix after white space only, and it starts with a visible character |
| JsStrings.TrimEnd | badger-new/src/lib/patterns.ts:227 | what is left is a prefix before white space only, and it ends with a visible character |
| JsStrings.Trim | badger-new/src/lib/patterns.ts:227 | `m.trim()`; `JsStrings.TrimCuts` and `JsStrings.TrimIsSlice` state what it keeps and `JsStrings.TrimIdempotent` that it settles |
| JsStrings.TrimCuts | badger-new/src/lib/patterns.ts:227 | `trim` removes a white-space prefix and a white-space suffix and keeps the middle |
| JsStrings.TrimIsSlice | badger-new/src/lib/patterns.ts:227 | `trim` gives a slice of the string with no white space at either end |
| JsStrings.TrimStartRun | badger-new/src/lib/patterns.ts:227 | leading white space in front of a visible character, or the end, is exactly what is dropped |
| JsStrings.TrimIdempotent | badger-new/src/lib/patterns.ts:227 | trimming twice is trimming once |
| JsStrings.LowerChar | badger-new/src/lib/file-parser.ts:8 | an upper-case ASCII letter moves up by 32 to its lower-case letter; every other character is kept |
| JsStrings.ToLower | badger-new/src/lib/file-parser.ts:8 | `toLowerCase` keeps the length and lowers each character |
| JsStrings.ToLowerIdempotent | src/App.tsx:425 | lowering twice is lowering once |
| JsStrings.ToLowerAppend | src/App.tsx:425 | lowering distributes over concatenation |
| JsStrings.OccursAtStep | src/App.tsx:425 | an occurrence in a non-empty string is at its start or an occurrence in its tail, one index later |
| JsStrings.IncludesAt | src/App.tsx:425 | `includes` holds exactly when the needle occurs at some index |
| JsStrings.Includes | src/App.tsx:425 | `s.includes(t)`; `JsStrings.IncludesAt` proves it holds exactly when `t` occurs in `s` at some index |
| PatternCatalog.Names | src/App.tsx:267 | `map(p => p.name)` keeps the length and gives each pattern's name at its position |
| PatternCatalog.Catalog | badger-new/src/lib/patterns.ts:8-212 | `PATTERNS`, the 32 detectors in declaration order; its shape is stated by `PatternCatalog.CatalogEntries`, `PatternCatalog.CatalogCaseFlags`, `PatternCatalog.CatalogNamesDistinct` and `PatternCatalog.CatalogGroupedByCategory` |
| PatternCatalog.CatalogEntries | badger-new/src/lib/patterns.ts:8-212 | 32 detectors, each with a name and a description, each global |
| PatternCatalog.CatalogCaseFlags | badger-new/src/lib/patterns.ts:98-103 | only "GPS Coordinates" ignores case |
| PatternCatalog.CatalogNamesDistinct | badger-new/src/lib/patterns.ts:8-212 | no two detectors share a name |
| PatternCatalog.StepwiseGroupedMeansGrouped | badger-new/src/lib/patterns.ts:8-212 | categories that never step back from one entry to the next are sorted overall |
| PatternCatalog.CatalogGroupedByCategory | badger-new/src/lib/patterns.ts:8-212 | the categories form contiguous groups in the order crypto, network, personal, financial, identifiers, security |
| PatternCatalog.CatalogCoversCategories | badger-new/src/lib/patterns.ts:5 | every one of the six categories has a detector |
| Patterns.TrimAll | badger-new/src/lib/patterns.ts:227 | the trimmed list has the same length, holds at each position the trimmed match of that position, and so holds exactly the trimmed matches |
| Patterns.UniqueMatches | badger-new/src/lib/patterns.ts:227 | every trimmed match once and nothing else; empty only for no matches |
| Patterns.UniqueMatchesOrder | badger-new/src/lib/patterns.ts:227 | the unique trimmed matches come in the order in which each first occurs among the trimmed matches |
| Patterns.FirstHit | badger-new/src/lib/patterns.ts:219-231 | the first selected, matching pattern of a name, or none |
| Patterns.LastHit | badger-new/src/lib/patterns.ts:219-231 | the last selected, matching pattern of a name, or none |
| Patterns.ScanStep | badger-new/src/lib/patterns.ts:220-231 | one pass of the loop body; described by `Patterns.ScanStepKeys`, `Patterns.ScanStepKeepsKeysDistinct` and `Patterns.ScanStepGet` |
| Patterns.ScanFrom | badger-new/src/lib/patterns.ts:219-232 | the loop over a pattern list as a fold; `Patterns.ScanFromAppend` splits it over a concatenation |
| Patterns.Analysis | badger-new/src/lib/patterns.ts:214-235 | the map `analyzeText` returns; `Patterns.AnalysisKeys`, `Patterns.AnalysisKeysMatch`, `Patterns.AnalysisKeyOrder` and `Patterns.AnalysisValues` state its keys, their order and its values, and `Patterns.AnalyzeText` is proved equal to it |
| Patterns.ScanStepKeys | badger-new/src/lib/patterns.ts:220-230 | one iteration appends the pattern's name exactly when it hits and is new |
| Patterns.ScanStepKeepsKeysDistinct | badger-new/src/lib/patterns.ts:229 | one iteration keeps the keys distinct |
| Patterns.ScanStepGet | badger-new/src/lib/patterns.ts:220-230 | one iteration replaces the value of a name exactly when a pattern of that name hits |
| Patterns.AnalysisKeys | badger-new/src/lib/patterns.ts:214-235 | keys are distinct, and a name is a key exactly when a selected pattern of that name matches |
| Patterns.AnalysisKeysMatch | badger-new/src/lib/patterns.ts:214-235 | a name is a key exactly when it is selected and some scanned pattern of that name has a match |
| Patterns.FirstHitStable | badger-new/src/lib/patterns.ts:219-231 | a later pattern never changes an earlier first hit |
| Patterns.HitOrderStep | badger-new/src/lib/patterns.ts:219-231 | one iteration keeps the keys in first-hit order |
| Patterns.AnalysisKeyOrder | badger-new/src/lib/patterns.ts:214-235 | keys stand in the order of their first hits in the scan, whatever the selection order |
| Patterns.AnalysisValues | badger-new/src/lib/patterns.ts:214-235 | the value under a name is the unique trimmed matches of the last matching pattern of that name |
| Patterns.AnalysisValueShape | badger-new/src/lib/patterns.ts:225-229 | every value is the unique trimmed matches of one selected, matching pattern of its name |
| Patterns.UnknownSelectionIsEmpty | badger-new/src/lib/patterns.ts:220 | selecting no scanned name gives an empty map |
| Patterns.ScanFromAppend | badger-new/src/lib/patterns.ts:217-219 | scanning the catalog and then the customs is one scan over both |
| Patterns.ScannedPatterns | badger-new/src/lib/patterns.ts:217 | `PATTERNS` alone without customs, `PATTERNS` followed by the customs otherwise |
| Patterns.AnalyzeText | badger-new/src/lib/patterns.ts:214-235 | the loop returns the specified map: distinct keys, exactly the selected names that match |
| FileParser.LastSegment | badger-new/src/lib/file-parser.ts:8 | `split('.').pop()`; its shape is stated by `FileParser.LastSegmentShape`, `FileParser.LastSegmentSnoc` and `FileParser.LastSegmentAfterDot` |
| FileParser.LastSegmentShape | badger-new/src/lib/file-parser.ts:8 | `split('.').pop()` is the dot-free tail of the name, the whole name or after a dot |
| FileParser.Extension | badger-new/src/lib/file-parser.ts:8 | the lowered last segment; `FileParser.ExtensionAfterLastDot`, `FileParser.NoDotWholeName` and `FileParser.ExtensionIgnoresCase` state what it is |
| FileParser.ReaderFor | badger-new/src/lib/file-parser.ts:10-25 | the `switch` labels; `FileParser.SupportedExtensionsAgree` proves they are exactly `SUPPORTED_EXTENSIONS` |
| FileParser.UnsupportedMessage | badger-new/src/lib/file-parser.ts:24 | the error text naming the extension; `FileParser.DispatchExamples` shows it for a name without a dot |
| FileParser.ExtractTextFromFile | badger-new/src/lib/file-parser.ts:7-26 | the reader for the extension, or the "Formato non supportato" error when none handles it (the ensures follow the switch arm by arm; what they promise is in `FileParser.SupportedExtensionsAgree` and `App.DropAcceptedIffReadable`) |
| FileParser.SupportedExtensions | badger-new/src/lib/file-parser.ts:67 | `SUPPORTED_EXTENSIONS`, each with its leading dot; `FileParser.SupportedExtensionsAgree` proves it is exactly the switch's labels |
| FileParser.SupportedExtensionsAgree | badger-new/src/lib/file-parser.ts:67 | an extension is listed exactly when the `switch` has a reader for it |
| FileParser.LastSegmentSnoc | badger-new/src/lib/file-parser.ts:8 | a character other than a dot at the end extends the last segment |
| FileParser.LastSegmentAfterDot | badger-new/src/lib/file-parser.ts:8 | the last segment of `a.b` is `b` when `b` holds no dot |
| FileParser.ExtensionAfterLastDot | badger-new/src/lib/file-parser.ts:8 | whatever precedes the last dot, the extension is the lowered text after it |
| FileParser.NoDotWholeName | badger-new/src/lib/file-parser.ts:8 | a name without a dot is its own extension |
| FileParser.ExtensionIgnoresCase | badger-new/src/lib/file-parser.ts:8 | the extension does not depend on the name's letter case |
| FileParser.DispatchExamples | badger-new/src/lib/file-parser.ts:10-24 | "report.tar.PDF" goes to the PDF reader, and "notes" is rejected under its whole name |
| Selection.Toggled | src/App.tsx:332-338 | the toggle of lines 121-127 and 332-338; `Selection.ToggledMembership`, `Selection.ToggleOnOff` and `Selection.ToggleOffOn` state its effect |
| Selection.ToggledMembership | src/App.tsx:332-338 | toggling flips membership of the name and leaves every other name's count alone |
| Selection.ToggleOnOff | src/App.tsx:332-338 | toggling an absent name twice restores the list |
| Selection.ToggleOffOn | src/App.tsx:332-338 | toggling a present name twice moves it to the end, once |
| Selection.FilterKeepsAll | src/App.tsx:424 | filtering with a test every element passes changes nothing |
| Selection.FilterSnocDropped | src/App.tsx:124 | an appended element that fails the test is filtered away |
| Selection.FilterCongruent | src/App.tsx:424-425 | two tests that agree filter alike |
| Selection.WithoutIndexFrom | src/App.tsx:118 | the element at the index goes, the others stay in order |
| Selection.RemoveAt | src/App.tsx:117-119 | one entry fewer for an index in range, the list unchanged otherwise |
| Selection.ToPattern | src/App.tsx:284-289 | the custom detector: global, "Custom pattern" for an empty description, the identifiers category (the ensures follow the conversion field by field; the promise about the offered list is `Selection.AllPatterns`) |
| Selection.EnabledBuiltIns | src/App.tsx:283 | exactly the enabled catalog entries, in catalog order whatever the order of the enabled list |
| Selection.AllPatterns | src/App.tsx:282-291 | the enabled built-ins first, then the custom detectors in the order they were added |
| Selection.InitialSelection | src/App.tsx:294-298 | every offered name, in order |
| Selection.FilteredMatches | src/App.tsx:422-427 | all for an empty query, else exactly the matches holding it in any case, in order |
| Selection.MatchesQuery | src/App.tsx:425 | the case-insensitive containment test; `Selection.FilteredMatchesIgnoreQueryCase` shows the query case does not matter |
| Selection.FilteredMatchesIdempotent | src/App.tsx:422-427 | searching a filtered list again changes nothing |
| Selection.FilteredMatchesIgnoreQueryCase | src/App.tsx:425 | the query's letter case does not matter |
| Selection.ResultRows | src/App.tsx:349-352 | one row per map entry, in the map's order |
| Selection.FindResult | src/App.tsx:432 | the first row of the name, or none exactly when no row has it |
| Selection.TotalResultsCounts | src/App.tsx:429 | the total counts all listed hits and adds up over any split of the rows |
| Selection.TotalResults | src/App.tsx:429 | the `reduce`; `Selection.TotalResultsCounts` proves it counts the listed hits |
| CsvExport.EscapeQuotes | src/App.tsx:386 | escaping never shortens, and leaves a quote-free value as it is |
| CsvExport.Quoted | src/App.tsx:386 | a quoted, escaped value; `CsvExport.ReadFieldEscaped` reads it back |
| CsvExport.JoinLines | src/App.tsx:386 | `join("\n")`; `CsvExport.ReadValueLinesJoin` reads the joined values back |
| CsvExport.ExportCsv | src/App.tsx:386 | the one-tab CSV text; `CsvExport.ExportCsvRoundTrip` reads it back as the filtered hits |
| CsvExport.WithBom | src/App.tsx:402-403 | the byte order mark in front; the round-trip lemmas skip it |
| CsvExport.RowsOf | src/App.tsx:394-395 | a tab contributes one row per hit, in order, all with its name |
| CsvExport.RowLine | src/App.tsx:395 | one line of the combined export; `CsvExport.ReadRowLine` reads it back, and `CsvExport.QuotedNameLineUnreadable` shows an unescaped quote breaks it |
| CsvExport.CsvLines | src/App.tsx:393-397 | the lines of all rows; `CsvExport.CsvLinesAppend` splits it and `CsvExport.ReadRowsLines` reads it back |
| CsvExport.AllRows | src/App.tsx:393-396 | the combined export has as many rows as the total hit count |
| CsvExport.ExportAllCsv | src/App.tsx:391-399 | the combined CSV text; `CsvExport.ExportAllToCsv` is proved equal to it and `CsvExport.ExportAllCsvRoundTrip` reads it back |
| CsvExport.CsvLinesAppend | src/App.tsx:392-397 | the lines of two row lists are the lines of the first then those of the second |
| CsvExport.AllRowsSnoc | src/App.tsx:393-396 | adding a tab adds its rows at the end |
| CsvExport.RowsOfSnoc | src/App.tsx:394-396 | adding a hit adds its line at the end |
| CsvExport.AllRowsStep | src/App.tsx:393-397 | adding a tab adds its lines at the end |
| CsvExport.ExportAllToCsv | src/App.tsx:391-397 | the appending loop writes exactly the specified combined export |
| CsvExport.ReadField | src/App.tsx:386 | reading a quoted field consumes at least its closing quote |
| CsvExport.ReadFieldEscaped | src/App.tsx:386 | an escaped value followed by its closing quote reads back as the value |
| CsvExport.ReadValueLinesJoin | src/App.tsx:386 | the joined quoted values read back as the values |
| CsvExport.ExportCsvRoundTrip | src/App.tsx:382-389 | the downloaded one-tab export reads back as exactly the filtered hits |
| CsvExport.ReadRowLine | src/App.tsx:395 | a combined-export line with a quote-free name reads back as its row |
| CsvExport.ReadRowsLines | src/App.tsx:393-397 | the lines of rows with quote-free names read back as the rows |
| CsvExport.AllRowsQuoteFree | src/App.tsx:395 | quote-free tab names give quote-free rows |
| CsvExport.ExportAllCsvRoundTrip | src/App.tsx:391-399 | with quote-free names, the downloaded combined export reads back as one row per hit, tab after tab |
| CsvExport.ReadExportAllBody | src/App.tsx:392 | the byte order mark and the header are skipped |
| CsvExport.QuotedNameLine | src/App.tsx:395 | the name `a"b` is written unescaped |
| CsvExport.QuotedNameLineUnreadable | src/App.tsx:395 | that line does not read as a row |
| CsvExport.QuoteInNameBreaksExport | src/App.tsx:391-399 | the combined export of a tab named `a"b` does not read back |
| App.DropAccepted | src/App.tsx:317-318 | the drop filter; `App.DropAcceptedIffReadable` proves it accepts exactly what a reader handles |
| App.DropAcceptedIffReadable | src/App.tsx:315-321 | a dropped file is taken exactly when a reader handles its extension; a refused one the extractor would reject |
| App.NamesToScan | src/App.tsx:346-347 | the names of the selected offered patterns; `App.NamesToScanMembers` states which |
| App.NamesToScanMembers | src/App.tsx:345-347 | exactly the selected names that some offered pattern has |
| App.ScanRowsOfAnalysis | src/App.tsx:347-352 | the rows of a scan have distinct names, scanned patterns' names and no empty tab |
| App.RowNamesOf | src/App.tsx:345-352 | for a scan of any pattern list, a tab opens for a name exactly when it is selected, offered and a listed pattern of that name matches |
| App.RowNames | src/App.tsx:345-352 | a tab opens for a name exactly when it is selected, offered and a catalog entry of that name matches |
| App.CustomPatternsNeverScanned | src/App.tsx:347 | a custom name that no catalog entry has never opens a tab |
| App.CollectRows | src/App.tsx:349-352 | the `forEach` collects exactly the map's rows |
| App.RunAnalysis | src/App.tsx:347-352 | the rows of the scan of the given `PATTERNS`, in key order, well formed |
| App.UnderscoreWhiteSpace | src/App.tsx:387 | `replace(/\s+/g, "_")`; `App.UnderscoreRun`, `App.UnderscoreVisiblePrefix`, `App.UnderscoreRunHead`, `App.UnderscoreNoWhiteSpace`, `App.UnderscoreNotLonger` and `App.UnderscoreKeepsVisible` state its effect |
| App.UnderscoreNoWhiteSpace | src/App.tsx:387 | the file-name part holds no white space |
| App.UnderscoreNotLonger | src/App.tsx:387 | replacing runs by `_` never makes the name longer |
| App.UnderscoreKeepsVisible | src/App.tsx:387 | a name without white space is kept as it is |
| App.UnderscoreVisiblePrefix | src/App.tsx:387 | visible text in front is copied unchanged |
| App.UnderscoreRunHead | src/App.tsx:387 | a leading white-space run collapses to a single `_` |
| App.UnderscoreRun | src/App.tsx:387 | a whole white-space run becomes exactly one `_`, and the visible text around it is kept in order |
| App.ExportAllFileName | src/App.tsx:398 | the fixed name `badger_export_all.csv` of the combined export, used by `App.AppContent.ExportAllToCsvFile` |
| App.ExportFileName | src/App.tsx:387 | the one-tab file name: the tab name with runs replaced, then `_export.csv` |
| App.AppContent.constructor | src/App.tsx:251-268 | the start screen, with the stored settings or no customs and every catalog entry enabled |
| App.AppContent.HandleDrop | src/App.tsx:310-323 | a supported first file moves to selecting and selects every offered pattern on entry; anything else changes nothing |
| App.AppContent.HandleFileSelect | src/App.tsx:325-330 | a picked file moves to selecting whatever its extension |
| App.AppContent.Choose | src/App.tsx:294-298 | the file is set and selecting entered; the selection is reset on entry only |
| App.AppContent.Offered | src/App.tsx:282-291 | `allPatterns` from the current settings; `Selection.AllPatterns` states its layout |
| App.AppContent.TogglePattern | src/App.tsx:332-338 | the selection is toggled at that name |
| App.AppContent.HandleAnalyze | src/App.tsx:340-364 | no file: nothing; read error: back to selecting with the selection reset; success: the rows of the scan of `builtIns` (the constructor sets it to `Catalog`) for the selected offered names, first row active, results shown |
| App.AppContent.AnalysisFailed | src/App.tsx:359-363 | back to selecting, every offered pattern selected again |
| App.AppContent.AnalysisSucceeded | src/App.tsx:346-358 | the scan of `BUILT_IN_PATTERNS` for the selected offered names becomes the results, its first row the active tab |
| App.AppContent.ShowResults | src/App.tsx:354-358 | the rows become the results and the first one the active tab |
| App.AppContent.Reset | src/App.tsx:414-420 | back to the start screen with an empty view |
| App.AppContent.SetActiveTab | src/App.tsx:640 | the tab changes, nothing else |
| App.AppContent.SetSearchQuery | src/App.tsx:673 | the query changes, nothing else |
| App.AppContent.SettingsChanged | src/App.tsx:282-298 | new settings; while selecting, every newly offered pattern is selected |
| App.AppContent.ActiveResult | src/App.tsx:431-434 | a row of the active tab's name, or none exactly when no row has it |
| App.AppContent.CurrentFilteredMatches | src/App.tsx:436-439 | nothing without an active row, else its hits filtered by the search query, a subsequence of them |
| App.AppContent.Total | src/App.tsx:429 | the number of hits over all tabs |
| App.AppContent.ExportToCsv | src/App.tsx:382-389 | a download exactly when a tab is active; it reads back as the hits on screen |
| App.AppContent.CopyAllText | src/App.tsx:372-380 | with an active row, the hits on screen one per line |
| App.AppContent.ExportAllToCsvFile | src/App.tsx:391-399 | the combined export with its BOM and name; with quote-free names it reads back as every hit |
| App.SettingsDialog.constructor | src/App.tsx:101-102 | an empty form without error |
| App.SettingsDialog.AddCustomPattern | src/App.tsx:104-115 | nothing without name and expression; "Regex non valida" for one that does not compile; else appended and the form cleared |
| App.SettingsDialog.RemoveCustomPattern | src/App.tsx:117-119 | the custom entry at the index goes |
| App.SettingsDialog.ToggleBuiltIn | src/App.tsx:121-127 | the enabled list is toggled at that name |
| App.SettingsDialog.EditName | src/App.tsx:188 | the name field changes |
| App.SettingsDialog.EditRegex | src/App.tsx:193-196 | the expression field changes and the error is cleared |
| App.SettingsDialog.EditDescription | src/App.tsx:203 | the description field changes |

## Left out

- Regular-expression semantics: what each catalog expression matches is not modelled. The expressions are named by their source line, and scanning goes through the `Matcher` parameter. The model therefore proves nothing about which texts a detector recognises.
- `lastIndex` (badger-new/src/lib/patterns.ts:223): `match` with a global expression ignores and resets it, so a `Matcher` that depends only on the expression and the text captures it.
- `new RegExp` compilation: the dialog's check is the `compiles` parameter. An invalid expression already in local storage would make `allPatterns` throw. That case is not modelled: in the model `allPatterns` never throws, whatever expressions are stored.
- `toLowerCase` is modelled on ASCII letters only; Unicode case mapping is left out.
- The readers (pdf.js, SheetJS, mammoth, `File.text()`, badger-new/src/lib/file-parser.ts:28-65) are external libraries. They are the `read` parameter.
- Local storage and `JSON.parse` are the constructor's parameters. The effects that save the settings (src/App.tsx:271-277) are output only and left out.
- Asynchrony: `HandleAnalyze` runs to completion, so the transient `analyzing` screen is never observed between events, and `Valid` excludes it.
- `alert`, `console.error`, the clipboard, `setTimeout`, `copiedIndex`, the drag highlight, Blob and object-URL downloads, the theme switch and `theme-provider.tsx`, and all JSX rendering are display or I/O. They are left out. The copy and export operations return the text and file name they would hand over.
- The analyze button's disabled guard (src/App.tsx:569) and the settings button shown on the start screen only (src/App.tsx:444) are UI guards, not handler requirements: those handlers are modelled for all inputs.
- App.SettingsDialog: the dialog is mounted only while the start screen shows (src/App.tsx:444). Leaving that screen unmounts it, which discards the half-typed `newPattern` form and `regexError` (src/App.tsx:101-102), so the form is empty on return. The model's dialog object is not tied to the screen: a fresh `App.SettingsDialog.constructor` (an empty form, no error) stands for each remount, and a dialog object kept across a drop, an analysis and a reset still holds its form. The settings it edits live in `App.AppContent` and are kept, as in the source.
- App.AppContent.SetActiveTab and App.AppContent.SetSearchQuery require `state == Results`: the tab bar and the search box are rendered only on the results screen (src/App.tsx:592, 638-675). Their effect on the other screens is not modelled. `Valid` keeps the tab and the query empty on the start screen, and a call there would break that.
- App.AppContent.ExportAllToCsvFile: the read-back ensures is conditioned on quote-free tab names. No catalog name holds a double quote, but that is not proved over the 32 literals because the proof is too costly. A custom pattern whose name no catalog entry has never opens a tab (`App.CustomPatternsNeverScanned`). One that shares a catalog name gets a tab only through that catalog entry.
- App.AppContent.Valid keeps the rows well formed (distinct names, no empty tab), but not that they are catalog names. That fact is stated per scan by `App.ScanRowsOfAnalysis` and `App.RowNames`.
- Patterns.AnalyzeText: the module constant `PATTERNS` that `analyzeText` reads is its parameter `catalog`, so its contract holds for any list. The session passes `builtIns`, its copy of the same constant (`BUILT_IN_PATTERNS`), and the constructor fixes that to `Catalog`. Keeping the 32 literal entries out of the handler proofs keeps them small.
- The file size shown with `toFixed` (src/App.tsx:504) is display only.
