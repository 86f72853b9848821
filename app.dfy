/**
 * The session of src/App.tsx: the state machine initial → selecting →
 * analyzing → results, the file and the pattern selection, the results and
 * the view over them, the settings (enabled built-ins and custom patterns),
 * and the form of the settings dialog. The React state hooks become the
 * fields of two classes; each event handler becomes a method that changes
 * them as the handler's `set…` calls do, together with the effect at lines
 * 294-298 that resets the selection whenever the session enters (or, while
 * selecting, re-offers) the pattern list.
 */
module App {
  import opened JsCollections
  import opened JsStrings
  import opened PatternCatalog
  import opened Patterns
  import opened FileParser
  import opened Selection
  import opened CsvExport

  /** `AppState` (line 40). */
  datatype AppState = Initial | Selecting | Analyzing | Results

  /** A dropped file is taken when `"." + extension` is one of `SUPPORTED_EXTENSIONS` (lines 317-318). */
  predicate DropAccepted(name: string) {
    "." + Extension(name) in SupportedExtensions
  }

  /**
   * The drop filter and the extractor agree: a dropped file is taken exactly
   * when some reader handles its extension, and a refused one is one the
   * extractor would reject as an unsupported format.
   */
  lemma DropAcceptedIffReadable(name: string, read: Reader -> Result<string, string>)
    ensures DropAccepted(name) <==> ReaderFor(Extension(name)).Some?
    ensures !DropAccepted(name) ==> ExtractTextFromFile(name, read) == Err(UnsupportedMessage(Extension(name)))
  {
    SupportedExtensionsAgree(Extension(name));
  }

  /** Some pattern of `pats` is called `k`. */
  ghost predicate IsPatternName(pats: seq<Pattern>, k: string) {
    exists j :: 0 <= j < |pats| && pats[j].name == k
  }

  /**
   * The names handed to `analyzeText` (lines 345-347): those of the offered
   * patterns that are selected, in the offered order.
   */
  function NamesToScan(all: seq<Pattern>, selected: seq<string>): seq<string> {
    Names(Filter(all, (p: Pattern) => p.name in selected))
  }

  /** A name is scanned exactly when it is selected and some offered pattern has it. */
  lemma NamesToScanMembers(all: seq<Pattern>, selected: seq<string>)
    ensures forall k :: k in NamesToScan(all, selected) <==> k in selected && IsPatternName(all, k)
  {
    var chosen := Filter(all, (p: Pattern) => p.name in selected);
    var names := NamesToScan(all, selected);
    forall k | k in names ensures k in selected && IsPatternName(all, k) {
      var i :| 0 <= i < |names| && names[i] == k;
      assert multiset(chosen)[chosen[i]] > 0;
      assert chosen[i] in all;
    }
    forall k | k in selected && IsPatternName(all, k) ensures k in names {
      var j :| 0 <= j < |all| && all[j].name == k;
      assert multiset(all)[all[j]] > 0;
      assert all[j] in chosen;
      var i :| 0 <= i < |chosen| && chosen[i] == all[j];
      assert names[i] == k;
    }
  }

  /** No two rows of the same name, and no row without hits. */
  ghost predicate WellFormedRows(rows: seq<ResultData>) {
    && (forall i, j :: 0 <= i < j < |rows| ==> rows[i].pattern != rows[j].pattern)
    && (forall i :: 0 <= i < |rows| ==> rows[i].matches != [])
  }

  /** The rows a scan of `pats` leaves: well formed, and each named after a pattern of `pats`. */
  ghost predicate ScanRows(rows: seq<ResultData>, pats: seq<Pattern>) {
    WellFormedRows(rows) && forall i :: 0 <= i < |rows| ==> IsPatternName(pats, rows[i].pattern)
  }

  /** The rows of a scan are well formed: distinct names, scanned patterns' names, no empty tab. */
  lemma ScanRowsOfAnalysis(text: string, names: seq<string>, pats: seq<Pattern>, matchAll: Matcher)
    ensures ScanRows(ResultRows(Analysis(text, names, pats, matchAll)), pats)
  {
    var m := Analysis(text, names, pats, matchAll);
    var rows := ResultRows(m);
    AnalysisKeys(text, names, pats, matchAll);
    forall i, j | 0 <= i < j < |rows| ensures rows[i].pattern != rows[j].pattern {
      assert Keys(m)[i] == rows[i].pattern && Keys(m)[j] == rows[j].pattern;
    }
    forall i | 0 <= i < |rows| ensures rows[i].matches != [] && IsPatternName(pats, rows[i].pattern) {
      AnalysisValueShape(text, names, pats, matchAll, i);
      var j :| 0 <= j < |pats| && IsHit(pats[j], m[i].key, text, names, matchAll)
               && m[i].value == UniqueMatches(matchAll(pats[j].regex, text));
      assert pats[j].name == rows[i].pattern;
    }
  }

  /**
   * Which tabs a scan of `pats` opens: a tab for `k` exactly when `k` is
   * selected, some offered pattern is called `k`, and a pattern of `pats`
   * with that name matches the text.
   */
  lemma {:induction false} RowNamesOf(text: string, selected: seq<string>, all: seq<Pattern>, pats: seq<Pattern>, matchAll: Matcher, k: string)
    ensures var rows := ResultRows(Analysis(text, NamesToScan(all, selected), pats, matchAll));
            (exists i :: 0 <= i < |rows| && rows[i].pattern == k)
            <==> k in selected && IsPatternName(all, k) && HasMatchingPattern(pats, k, text, matchAll)
  {
    var names := NamesToScan(all, selected);
    var m := Analysis(text, names, pats, matchAll);
    var rows := ResultRows(m);
    NamesToScanMembers(all, selected);
    AnalysisKeys(text, names, pats, matchAll);
    if exists i :: 0 <= i < |rows| && rows[i].pattern == k {
      var i :| 0 <= i < |rows| && rows[i].pattern == k;
      assert Keys(m)[i] == k;
    }
    if k in Keys(m) {
      var i :| 0 <= i < |m| && Keys(m)[i] == k;
      assert rows[i].pattern == k;
    }
    var f := FirstHit(pats, k, text, names, matchAll);
    if f.Some? {
      assert pats[f.value].name == k;
    }
  }

  /**
   * The same for the catalog. Only the catalog is ever scanned (line 347
   * passes no custom patterns), so an offered custom pattern contributes its
   * name and never its expression.
   */
  lemma RowNames(text: string, selected: seq<string>, all: seq<Pattern>, matchAll: Matcher, k: string)
    ensures var rows := ResultRows(Analysis(text, NamesToScan(all, selected), Catalog, matchAll));
            (exists i :: 0 <= i < |rows| && rows[i].pattern == k)
            <==> k in selected && IsPatternName(all, k) && HasMatchingPattern(Catalog, k, text, matchAll)
  {
    RowNamesOf(text, selected, all, Catalog, matchAll, k);
  }

  /** A custom pattern whose name no catalog entry has never gets a tab, whatever its expression would match. */
  lemma CustomPatternsNeverScanned(text: string, selected: seq<string>, all: seq<Pattern>, matchAll: Matcher, k: string)
    requires !IsPatternName(Catalog, k)
    ensures forall row :: row in ResultRows(Analysis(text, NamesToScan(all, selected), Catalog, matchAll)) ==> row.pattern != k
  {
    var rows := ResultRows(Analysis(text, NamesToScan(all, selected), Catalog, matchAll));
    RowNames(text, selected, all, matchAll, k);
    forall row | row in rows ensures row.pattern != k {
      var i :| 0 <= i < |rows| && rows[i] == row;
    }
  }

  /** `analysisResults.forEach((matches, pattern) => resultData.push({ pattern, matches }))` (lines 349-352). */
  method CollectRows(analysis: ScanResult) returns (rows: seq<ResultData>)
    ensures rows == ResultRows(analysis)
  {
    rows := [];
    for i := 0 to |analysis|
      invariant rows == ResultRows(analysis[..i])
    {
      rows := rows + [ResultData(analysis[i].key, analysis[i].value)];
    }
    assert analysis[..|analysis|] == analysis;
  }

  /**
   * The scan of `handleAnalyze` (lines 347-352): `analyzeText` over
   * `catalog` (the imported `PATTERNS`) for `names`, its map turned into
   * rows in key order.
   */
  method RunAnalysis(catalog: seq<Pattern>, text: string, names: seq<string>, matchAll: Matcher) returns (rows: seq<ResultData>)
    ensures rows == ResultRows(Analysis(text, names, catalog, matchAll))
    ensures WellFormedRows(rows)
  {
    var analysis := AnalyzeText(catalog, text, names, None, matchAll);
    rows := CollectRows(analysis);
    ScanRowsOfAnalysis(text, names, catalog, matchAll);
  }

  /** `s.replace(/\s+/g, "_")`: every run of white space becomes one underscore. */
  function UnderscoreWhiteSpace(s: string): string
    decreases |s|
  {
    if s == [] then []
    else if IsWhiteSpace(s[0]) then
      var rest := TrimStart(s);
      assert rest != s;
      "_" + UnderscoreWhiteSpace(rest)
    else [s[0]] + UnderscoreWhiteSpace(s[1..])
  }

  /** No white space is left. */
  lemma {:induction false} UnderscoreNoWhiteSpace(s: string)
    ensures forall i :: 0 <= i < |UnderscoreWhiteSpace(s)| ==> !IsWhiteSpace(UnderscoreWhiteSpace(s)[i])
    decreases |s|
  {
    if s != [] {
      var rest := if IsWhiteSpace(s[0]) then TrimStart(s) else s[1..];
      var c := if IsWhiteSpace(s[0]) then '_' else s[0];
      UnderscoreNoWhiteSpace(rest);
      var r := UnderscoreWhiteSpace(rest);
      assert UnderscoreWhiteSpace(s) == [c] + r;
      assert forall i :: 0 < i <= |r| ==> ([c] + r)[i] == r[i - 1];
    }
  }

  /** The result is never longer than the name. */
  lemma {:induction false} UnderscoreNotLonger(s: string)
    ensures |UnderscoreWhiteSpace(s)| <= |s|
    decreases |s|
  {
    if s != [] {
      if IsWhiteSpace(s[0]) {
        UnderscoreNotLonger(TrimStart(s));
      } else {
        UnderscoreNotLonger(s[1..]);
      }
    }
  }

  /** A name without white space is kept as it is. */
  lemma UnderscoreKeepsVisible(s: string)
    requires forall i :: 0 <= i < |s| ==> !IsWhiteSpace(s[i])
    ensures UnderscoreWhiteSpace(s) == s
  {
    UnderscoreVisiblePrefix(s, []);
    assert s + [] == s;
  }

  /** A visible first character is copied: the unfolding step of `UnderscoreVisiblePrefix`. */
  lemma UnderscoreVisibleStep(s: string)
    requires s != [] && !IsWhiteSpace(s[0])
    ensures UnderscoreWhiteSpace(s) == [s[0]] + UnderscoreWhiteSpace(s[1..])
  {
  }

  /** Visible text in front is kept as it is. */
  lemma {:induction false} UnderscoreVisiblePrefix(a: string, x: string)
    requires forall i :: 0 <= i < |a| ==> !IsWhiteSpace(a[i])
    ensures UnderscoreWhiteSpace(a + x) == a + UnderscoreWhiteSpace(x)
    decreases |a|
  {
    if a == [] {
      assert a + x == x;
    } else {
      var s, rest := a + x, a[1..];
      assert s[0] == a[0];
      UnderscoreVisibleStep(s);
      assert s[1..] == rest + x;
      assert forall i :: 0 <= i < |rest| ==> rest[i] == a[i + 1];
      UnderscoreVisiblePrefix(rest, x);
      assert [a[0]] + (rest + UnderscoreWhiteSpace(x)) == ([a[0]] + rest) + UnderscoreWhiteSpace(x);
      assert a == [a[0]] + rest;
    }
  }

  /** A leading white-space run, up to a visible character or the end, becomes one underscore. */
  lemma UnderscoreRunHead(w: string, b: string)
    requires w != [] && forall i :: 0 <= i < |w| ==> IsWhiteSpace(w[i])
    requires b == [] || !IsWhiteSpace(b[0])
    ensures UnderscoreWhiteSpace(w + b) == "_" + UnderscoreWhiteSpace(b)
  {
    assert (w + b)[0] == w[0];
    TrimStartRun(w, b);
  }

  /**
   * A whole white-space run becomes one underscore and the visible text
   * before it is kept: with `a` free of white space, `w` a non-empty run and
   * `b` empty or starting with a visible character, the result is `a`, "_",
   * then the result for `b`.
   */
  lemma UnderscoreRun(a: string, w: string, b: string)
    requires forall i :: 0 <= i < |a| ==> !IsWhiteSpace(a[i])
    requires w != [] && forall i :: 0 <= i < |w| ==> IsWhiteSpace(w[i])
    requires b == [] || !IsWhiteSpace(b[0])
    ensures UnderscoreWhiteSpace(a + w + b) == a + "_" + UnderscoreWhiteSpace(b)
  {
    AppendAssoc(a, w, b);
    UnderscoreVisiblePrefix(a, w + b);
    UnderscoreRunHead(w, b);
    AppendAssoc(a, "_", UnderscoreWhiteSpace(b));
  }

  /** The file name of the one-tab export (line 387). */
  function ExportFileName(tab: string): string {
    UnderscoreWhiteSpace(tab) + "_export.csv"
  }

  /** The name of the combined export (line 398). */
  const ExportAllFileName: string := "badger_export_all.csv"

  /** The component's state (lines 251-268); `copiedIndex` and `dragActive` only drive the display. */
  class AppContent {
    /** `BUILT_IN_PATTERNS`, the catalog as imported at line 37. */
    const builtIns: seq<Pattern>
    var state: AppState
    /** The name of the chosen file; its contents reach the model through the readers given to `HandleAnalyze`. */
    var file: Option<string>
    var selectedPatterns: seq<string>
    var results: seq<ResultData>
    var activeTab: string
    var searchQuery: string
    var customPatterns: seq<CustomPattern>
    var enabledBuiltIn: seq<string>

    /**
     * Between events: never analyzing (the scan completes within one
     * handler here), a file exactly when past the start screen, a clean
     * view on the start screen, and tabs of distinct names, none empty.
     */
    ghost predicate Valid()
      reads this`state, this`file, this`results, this`activeTab, this`searchQuery
    {
      && state != Analyzing
      && (state == Initial <==> file.None?)
      && (state == Initial ==> results == [] && activeTab == "" && searchQuery == "")
      && WellFormedRows(results)
    }

    /** `allPatterns` (lines 282-291). */
    function Offered(): seq<Pattern>
      reads this`enabledBuiltIn, this`customPatterns
    {
      AllPatterns(builtIns, enabledBuiltIn, customPatterns)
    }

    /**
     * The initial state; `savedCustom` and `savedEnabled` are what local
     * storage holds under the two settings keys, once parsed (lines 261-268):
     * with nothing stored, no custom patterns and every catalog entry enabled.
     */
    constructor(savedCustom: Option<seq<CustomPattern>>, savedEnabled: Option<seq<string>>)
      ensures Valid()
      ensures builtIns == Catalog
      ensures state == Initial && file == None && selectedPatterns == []
      ensures results == [] && activeTab == "" && searchQuery == ""
      ensures customPatterns == (if savedCustom.Some? then savedCustom.value else [])
      ensures enabledBuiltIn == (if savedEnabled.Some? then savedEnabled.value else Names(Catalog))
    {
      builtIns := Catalog;
      state := Initial;
      file := None;
      selectedPatterns := [];
      results := [];
      activeTab := "";
      searchQuery := "";
      customPatterns := if savedCustom.Some? then savedCustom.value else [];
      enabledBuiltIn := if savedEnabled.Some? then savedEnabled.value else Names(Catalog);
    }

    /**
     * `handleDrop` (lines 310-323): the first dropped file is taken when its
     * extension is supported; the session then moves to selecting, and on
     * entering that state every offered pattern is selected.
     */
    method HandleDrop(dropped: seq<string>)
      requires Valid()
      modifies this`file, this`state, this`selectedPatterns
      ensures Valid()
      ensures dropped == [] || !DropAccepted(dropped[0]) ==>
                file == old(file) && state == old(state) && selectedPatterns == old(selectedPatterns)
      ensures dropped != [] && DropAccepted(dropped[0]) ==>
                && file == Some(dropped[0]) && state == Selecting
                && selectedPatterns == (if old(state) != Selecting then InitialSelection(Offered()) else old(selectedPatterns))
    {
      if dropped != [] && DropAccepted(dropped[0]) {
        Choose(dropped[0]);
      }
    }

    /** `handleFileSelect` (lines 325-330): the picked file is taken whatever its extension. */
    method HandleFileSelect(picked: seq<string>)
      requires Valid()
      modifies this`file, this`state, this`selectedPatterns
      ensures Valid()
      ensures picked == [] ==> file == old(file) && state == old(state) && selectedPatterns == old(selectedPatterns)
      ensures picked != [] ==>
                && file == Some(picked[0]) && state == Selecting
                && selectedPatterns == (if old(state) != Selecting then InitialSelection(Offered()) else old(selectedPatterns))
    {
      if picked != [] {
        Choose(picked[0]);
      }
    }

    /** `setFile(f); setState("selecting")`, and the selection effect of lines 294-298. */
    method Choose(name: string)
      requires Valid()
      modifies this`file, this`state, this`selectedPatterns
      ensures Valid()
      ensures file == Some(name) && state == Selecting
      ensures selectedPatterns == (if old(state) != Selecting then InitialSelection(Offered()) else old(selectedPatterns))
    {
      if state != Selecting {
        selectedPatterns := InitialSelection(Offered());
      }
      file := Some(name);
      state := Selecting;
    }

    /** `togglePattern` (lines 332-338). */
    method TogglePattern(name: string)
      requires Valid()
      modifies this`selectedPatterns
      ensures Valid()
      ensures selectedPatterns == Toggled(old(selectedPatterns), name)
    {
      selectedPatterns := Toggled(selectedPatterns, name);
    }

    /**
     * `handleAnalyze` (lines 340-364), run to completion: without a file
     * nothing happens. Otherwise the file is read; when reading fails the
     * session returns to selecting (and the effect selects every offered
     * pattern again) with the previous results kept; when it succeeds the
     * catalog is scanned for the selected offered names, the rows replace the
     * results, the first row becomes the active tab (the tab is left as it
     * was when there is none) and the results are shown.
     */
    method HandleAnalyze(read: Reader -> Result<string, string>, matchAll: Matcher)
      requires Valid()
      modifies this`state, this`selectedPatterns, this`results, this`activeTab
      ensures Valid()
      ensures old(file).None? ==>
                state == old(state) && selectedPatterns == old(selectedPatterns)
                && results == old(results) && activeTab == old(activeTab)
      ensures old(file).Some? && ExtractTextFromFile(old(file).value, read).Err? ==>
                && state == Selecting && selectedPatterns == InitialSelection(Offered())
                && results == old(results) && activeTab == old(activeTab)
      ensures old(file).Some? && ExtractTextFromFile(old(file).value, read).Ok? ==>
                && state == Results && selectedPatterns == old(selectedPatterns)
                && results == ResultRows(Analysis(ExtractTextFromFile(old(file).value, read).value,
                                                  NamesToScan(Offered(), selectedPatterns), builtIns, matchAll))
                && activeTab == (if results != [] then results[0].pattern else old(activeTab))
    {
      if file.None? {
        return;
      }
      state := Analyzing;
      var extracted := ExtractTextFromFile(file.value, read);
      if extracted.Err? {
        AnalysisFailed();
      } else {
        AnalysisSucceeded(extracted.value, matchAll);
      }
    }

    /** The `catch` of `handleAnalyze`: back to selecting, where the effect selects every offered pattern again. */
    method AnalysisFailed()
      requires state == Analyzing && file.Some? && WellFormedRows(results)
      modifies this`state, this`selectedPatterns
      ensures Valid()
      ensures state == Selecting && selectedPatterns == InitialSelection(Offered())
    {
      state := Selecting;
      selectedPatterns := InitialSelection(Offered());
    }

    /** The `try` of `handleAnalyze` once the text is extracted (lines 346-358): scan it, then show the rows. */
    method AnalysisSucceeded(text: string, matchAll: Matcher)
      requires state == Analyzing && file.Some?
      modifies this`state, this`results, this`activeTab
      ensures Valid()
      ensures state == Results
      ensures results == ResultRows(Analysis(text, NamesToScan(Offered(), selectedPatterns), builtIns, matchAll))
      ensures activeTab == (if results != [] then results[0].pattern else old(activeTab))
    {
      var names := NamesToScan(Offered(), selectedPatterns);
      var rows := RunAnalysis(builtIns, text, names, matchAll);
      ShowResults(rows);
    }

    /** The end of the `try` of `handleAnalyze`: the rows become the results, the first the active tab, and the results are shown. */
    method ShowResults(rows: seq<ResultData>)
      requires state == Analyzing && file.Some? && WellFormedRows(rows)
      modifies this`state, this`results, this`activeTab
      ensures Valid()
      ensures state == Results && results == rows
      ensures activeTab == (if rows != [] then rows[0].pattern else old(activeTab))
    {
      results := rows;
      if |rows| > 0 {
        activeTab := rows[0].pattern;
      }
      state := Results;
    }

    /** `reset` (lines 414-420): back to the start screen with an empty view; settings and selection stay. */
    method Reset()
      requires Valid()
      modifies this`file, this`results, this`activeTab, this`searchQuery, this`state
      ensures Valid()
      ensures state == Initial && file == None && results == [] && activeTab == "" && searchQuery == ""
    {
      file := None;
      results := [];
      activeTab := "";
      searchQuery := "";
      state := Initial;
    }

    /** The tab bar's `onValueChange` (line 640), shown with the results only. */
    method SetActiveTab(tab: string)
      requires Valid() && state == Results
      modifies this`activeTab
      ensures Valid()
      ensures activeTab == tab
    {
      activeTab := tab;
    }

    /** The search box's `onChange` (line 673), shown with the results only. */
    method SetSearchQuery(query: string)
      requires Valid() && state == Results
      modifies this`searchQuery
      ensures Valid()
      ensures searchQuery == query
    {
      searchQuery := query;
    }

    /** The settings changed: while selecting, the effect of lines 294-298 selects every offered pattern again. */
    method SettingsChanged(customs: seq<CustomPattern>, enabled: seq<string>)
      requires Valid()
      modifies this`customPatterns, this`enabledBuiltIn, this`selectedPatterns
      ensures Valid()
      ensures customPatterns == customs && enabledBuiltIn == enabled
      ensures selectedPatterns == (if state == Selecting then InitialSelection(Offered()) else old(selectedPatterns))
    {
      var selection := if state == Selecting then InitialSelection(AllPatterns(builtIns, enabled, customs)) else selectedPatterns;
      customPatterns := customs;
      enabledBuiltIn := enabled;
      selectedPatterns := selection;
    }

    /** `activeResult` (lines 431-434). */
    function ActiveResult(): (r: Option<ResultData>)
      reads this
      ensures r.Some? ==> r.value in results && r.value.pattern == activeTab
      ensures r.None? <==> forall row :: row in results ==> row.pattern != activeTab
    {
      var r := FindResult(results, activeTab);
      if r.Some? then
        assert exists i :: 0 <= i < |results| && results[i] == r.value && r.value.pattern == activeTab;
        r
      else
        assert forall row :: row in results ==> row.pattern != activeTab by {
          forall row | row in results ensures row.pattern != activeTab {
            var i :| 0 <= i < |results| && results[i] == row;
          }
        }
        r
    }

    /** `currentFilteredMatches` (lines 436-439): the hits of the active tab that the search keeps. */
    function CurrentFilteredMatches(): (shown: seq<string>)
      reads this
      ensures ActiveResult().None? ==> shown == []
      ensures ActiveResult().Some? ==> shown == FilteredMatches(ActiveResult().value.matches, searchQuery)
      ensures ActiveResult().Some? ==> IsSubsequence(shown, ActiveResult().value.matches)
    {
      match ActiveResult()
      case None => []
      case Some(r) => FilteredMatches(r.matches, searchQuery)
    }

    /** `totalResults` (line 429). */
    function Total(): (n: nat)
      reads this
      ensures n == |AllMatches(results)|
    {
      TotalResultsCounts(results, 0);
      TotalResults(results)
    }

    /**
     * `exportToCSV` (lines 382-389): with an active tab, the downloaded file
     * (byte order mark included) and its name; it reads back as exactly the
     * hits on screen.
     */
    function ExportToCsv(): (download: Option<(string, string)>)
      reads this
      ensures download.None? <==> ActiveResult().None?
      ensures download.Some? ==> ReadExport(download.value.0) == Some(CurrentFilteredMatches())
                                 && download.value.1 == ExportFileName(activeTab)
    {
      match ActiveResult()
      case None => None
      case Some(r) =>
        ExportCsvRoundTrip(FilteredMatches(r.matches, searchQuery));
        Some((WithBom(ExportCsv(FilteredMatches(r.matches, searchQuery))), ExportFileName(activeTab)))
    }

    /** `copyAllFromTab` (lines 372-380): with an active tab, the hits on screen one per line. */
    function CopyAllText(): (text: Option<string>)
      reads this
      ensures text.None? <==> ActiveResult().None?
      ensures text.Some? ==> text.value == JoinLines(CurrentFilteredMatches())
    {
      match ActiveResult()
      case None => None
      case Some(r) => Some(JoinLines(FilteredMatches(r.matches, searchQuery)))
    }

    /**
     * `exportAllToCSV` (lines 391-399): the downloaded file of every row and
     * its name. When no tab's name holds a double quote (names are written
     * unescaped) the file reads back as every hit of every tab, in order.
     */
    method ExportAllToCsvFile() returns (content: string, name: string)
      ensures content == WithBom(ExportAllCsv(results)) && name == ExportAllFileName
      ensures (forall i :: 0 <= i < |results| ==> '"' !in results[i].pattern) ==>
                ReadExportAll(content) == Some(AllRows(results))
    {
      var csv := ExportAllToCsv(results);
      content := WithBom(csv);
      name := ExportAllFileName;
      if forall i :: 0 <= i < |results| ==> '"' !in results[i].pattern {
        ExportAllCsvRoundTrip(results);
      }
    }
  }

  /**
   * The form of the settings dialog (lines 101-102). The dialog is mounted
   * only on the start screen (line 444), so each return to that screen
   * starts from a fresh object.
   */
  class SettingsDialog {
    var newPattern: CustomPattern
    var regexError: string

    constructor()
      ensures newPattern == CustomPattern("", "", "") && regexError == ""
    {
      newPattern := CustomPattern("", "", "");
      regexError := "";
    }

    /**
     * `addCustomPattern` (lines 104-115): nothing without a name and an
     * expression; an expression that does not compile (`compiles` stands
     * for `new RegExp(text, "g")` not throwing) sets the error and keeps the
     * form; otherwise the entry is appended, the form cleared and the error
     * removed.
     */
    method AddCustomPattern(app: AppContent, compiles: string -> bool)
      requires app.Valid()
      modifies this, app`customPatterns, app`enabledBuiltIn, app`selectedPatterns
      ensures app.Valid()
      ensures old(newPattern.name) == "" || old(newPattern.regex) == "" ==>
                && newPattern == old(newPattern) && regexError == old(regexError)
                && app.customPatterns == old(app.customPatterns) && app.selectedPatterns == old(app.selectedPatterns)
      ensures old(newPattern.name) != "" && old(newPattern.regex) != "" && !compiles(old(newPattern.regex)) ==>
                && newPattern == old(newPattern) && regexError == "Regex non valida"
                && app.customPatterns == old(app.customPatterns) && app.selectedPatterns == old(app.selectedPatterns)
      ensures old(newPattern.name) != "" && old(newPattern.regex) != "" && compiles(old(newPattern.regex)) ==>
                && newPattern == CustomPattern("", "", "") && regexError == ""
                && app.customPatterns == old(app.customPatterns) + [old(newPattern)]
                && app.selectedPatterns == (if app.state == Selecting then InitialSelection(app.Offered()) else old(app.selectedPatterns))
      ensures app.enabledBuiltIn == old(app.enabledBuiltIn)
    {
      if newPattern.name == "" || newPattern.regex == "" {
        return;
      }
      if compiles(newPattern.regex) {
        app.SettingsChanged(app.customPatterns + [newPattern], app.enabledBuiltIn);
        newPattern := CustomPattern("", "", "");
        regexError := "";
      } else {
        regexError := "Regex non valida";
      }
    }

    /** `removeCustomPattern` (lines 117-119): the entry at `index` goes, the others keep their order. */
    method RemoveCustomPattern(app: AppContent, index: int)
      requires app.Valid()
      modifies app`customPatterns, app`enabledBuiltIn, app`selectedPatterns
      ensures app.Valid()
      ensures app.customPatterns == RemoveAt(old(app.customPatterns), index)
      ensures app.enabledBuiltIn == old(app.enabledBuiltIn)
      ensures app.selectedPatterns == (if app.state == Selecting then InitialSelection(app.Offered()) else old(app.selectedPatterns))
    {
      app.SettingsChanged(RemoveAt(app.customPatterns, index), app.enabledBuiltIn);
    }

    /** `toggleBuiltIn` (lines 121-127): a catalog entry is switched on or off by name. */
    method ToggleBuiltIn(app: AppContent, name: string)
      requires app.Valid()
      modifies app`customPatterns, app`enabledBuiltIn, app`selectedPatterns
      ensures app.Valid()
      ensures app.enabledBuiltIn == Toggled(old(app.enabledBuiltIn), name)
      ensures app.customPatterns == old(app.customPatterns)
      ensures app.selectedPatterns == (if app.state == Selecting then InitialSelection(app.Offered()) else old(app.selectedPatterns))
    {
      app.SettingsChanged(app.customPatterns, Toggled(app.enabledBuiltIn, name));
    }

    /** Typing in the name field. */
    method EditName(name: string)
      modifies this
      ensures newPattern == old(newPattern).(name := name) && regexError == old(regexError)
    {
      newPattern := newPattern.(name := name);
    }

    /** Typing in the expression field also clears the error. */
    method EditRegex(regex: string)
      modifies this
      ensures newPattern == old(newPattern).(regex := regex) && regexError == ""
    {
      newPattern := newPattern.(regex := regex);
      regexError := "";
    }

    /** Typing in the description field. */
    method EditDescription(description: string)
      modifies this
      ensures newPattern == old(newPattern).(description := description) && regexError == old(regexError)
    {
      newPattern := newPattern.(description := description);
    }
  }
}
