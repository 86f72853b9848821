/**
 * The scan engine of badger-new/src/lib/patterns.ts: `analyzeText` (lines
 * 214-235).
 *
 * The regular-expression engine itself is not modelled: `analyzeText`
 * receives it as a `Matcher`, the list of all non-overlapping matches a
 * global expression finds in a text, in text order (`[]` stands for the
 * `null` that `String.prototype.match` returns when nothing matches).
 */
module Patterns {
  import opened JsCollections
  import opened JsStrings
  import opened PatternCatalog

  /** `text.match(regex)` for a global expression. */
  type Matcher = (Regex, string) -> seq<string>

  /** The result of a scan: pattern name to its distinct trimmed hits, in insertion order. */
  type ScanResult = OrderedMap<string, seq<string>>

  /** `x` is what `trim` leaves of one of the matches. */
  ghost predicate IsTrimmedMatch(matches: seq<string>, x: string) {
    exists i :: 0 <= i < |matches| && Trim(matches[i]) == x
  }

  /** `matches.map(m => m.trim())` */
  function TrimAll(matches: seq<string>): (trimmed: seq<string>)
    ensures |trimmed| == |matches|
    ensures forall i :: 0 <= i < |matches| ==> trimmed[i] == Trim(matches[i])
    ensures forall x :: x in trimmed <==> IsTrimmedMatch(matches, x)
  {
    MapSeq(matches, Trim)
  }

  /**
   * `[...new Set(matches.map(m => m.trim()))]` (line 227): every trimmed
   * match exactly once, nothing else, and empty only when there were no
   * matches (an empty match still gives the one-element list `[""]`).
   */
  function UniqueMatches(matches: seq<string>): (unique: seq<string>)
    ensures NoDuplicates(unique)
    ensures forall x :: x in unique <==> IsTrimmedMatch(matches, x)
    ensures |unique| > 0 <==> matches != []
  {
    var trimmed := TrimAll(matches);
    var unique := Dedup(trimmed);
    assert matches != [] ==> trimmed[0] in unique;
    unique
  }

  /** `[...new Set(...)]` lists the trimmed matches in the order in which each first occurs. */
  lemma UniqueMatchesOrder(matches: seq<string>)
    ensures forall i, j :: 0 <= i < j < |UniqueMatches(matches)| ==>
              FirstIndex(TrimAll(matches), UniqueMatches(matches)[i]) < FirstIndex(TrimAll(matches), UniqueMatches(matches)[j])
  {
    DedupFirstOccurrences(TrimAll(matches));
  }

  /** One iteration of the loop of `analyzeText` (lines 220-231). */
  function ScanStep(results: ScanResult, p: Pattern, text: string, selected: seq<string>, matchAll: Matcher): ScanResult {
    if p.name !in selected then results
    else
      var matches := matchAll(p.regex, text);
      if matches == [] then results
      else
        var unique := UniqueMatches(matches);
        if |unique| > 0 then Put(results, p.name, unique) else results
  }

  /** The loop of `analyzeText` run over `pats`, starting from `results`. */
  function ScanFrom(results: ScanResult, pats: seq<Pattern>, text: string, selected: seq<string>, matchAll: Matcher): ScanResult
    decreases |pats|
  {
    if pats == [] then results
    else ScanStep(ScanFrom(results, pats[..|pats| - 1], text, selected, matchAll), pats[|pats| - 1], text, selected, matchAll)
  }

  /** The map `analyzeText` returns when it scans `pats`. */
  function Analysis(text: string, selected: seq<string>, pats: seq<Pattern>, matchAll: Matcher): ScanResult {
    ScanFrom([], pats, text, selected, matchAll)
  }

  /** `p` is selected under the name `k` and its expression matches somewhere in the text. */
  predicate IsHit(p: Pattern, k: string, text: string, selected: seq<string>, matchAll: Matcher) {
    p.name == k && k in selected && matchAll(p.regex, text) != []
  }

  /** Some pattern of `pats` is called `k` and matches somewhere in the text. */
  ghost predicate HasMatchingPattern(pats: seq<Pattern>, k: string, text: string, matchAll: Matcher) {
    exists i :: 0 <= i < |pats| && pats[i].name == k && matchAll(pats[i].regex, text) != []
  }

  /** Index of the first pattern in `pats` that hits under the name `k`. */
  function FirstHit(pats: seq<Pattern>, k: string, text: string, selected: seq<string>, matchAll: Matcher): (r: Option<nat>)
    ensures r.Some? ==> r.value < |pats| && IsHit(pats[r.value], k, text, selected, matchAll)
    ensures r.Some? ==> forall i :: 0 <= i < r.value ==> !IsHit(pats[i], k, text, selected, matchAll)
    ensures r.None? ==> forall i :: 0 <= i < |pats| ==> !IsHit(pats[i], k, text, selected, matchAll)
    decreases |pats|
  {
    if pats == [] then None
    else
      var n := |pats| - 1;
      var earlier := FirstHit(pats[..n], k, text, selected, matchAll);
      assert forall i :: 0 <= i < n ==> pats[..n][i] == pats[i];
      if earlier.Some? then earlier
      else if IsHit(pats[n], k, text, selected, matchAll) then Some(n)
      else None
  }

  /** Index of the last pattern in `pats` that hits under the name `k`. */
  function LastHit(pats: seq<Pattern>, k: string, text: string, selected: seq<string>, matchAll: Matcher): (r: Option<nat>)
    ensures r.Some? ==> r.value < |pats| && IsHit(pats[r.value], k, text, selected, matchAll)
    ensures r.Some? ==> forall i :: r.value < i < |pats| ==> !IsHit(pats[i], k, text, selected, matchAll)
    ensures r.None? ==> forall i :: 0 <= i < |pats| ==> !IsHit(pats[i], k, text, selected, matchAll)
    decreases |pats|
  {
    if pats == [] then None
    else
      var n := |pats| - 1;
      if IsHit(pats[n], k, text, selected, matchAll) then Some(n)
      else
        assert forall i :: 0 <= i < n ==> pats[..n][i] == pats[i];
        LastHit(pats[..n], k, text, selected, matchAll)
  }

  /** The keys one loop iteration leaves: the name of `p` is appended when `p` hits and is not a key yet. */
  lemma ScanStepKeys(results: ScanResult, p: Pattern, text: string, selected: seq<string>, matchAll: Matcher)
    ensures Keys(ScanStep(results, p, text, selected, matchAll))
         == if IsHit(p, p.name, text, selected, matchAll) && p.name !in Keys(results) then Keys(results) + [p.name] else Keys(results)
  {
    if IsHit(p, p.name, text, selected, matchAll) {
      var unique := UniqueMatches(matchAll(p.regex, text));
      assert |unique| > 0;
      assert ScanStep(results, p, text, selected, matchAll) == Put(results, p.name, unique);
    }
  }

  /** One loop iteration never gives a name a second key. */
  lemma ScanStepKeepsKeysDistinct(results: ScanResult, p: Pattern, text: string, selected: seq<string>, matchAll: Matcher)
    requires DistinctKeys(results)
    ensures DistinctKeys(ScanStep(results, p, text, selected, matchAll))
  {
    if IsHit(p, p.name, text, selected, matchAll) {
      PutKeepsKeysDistinct(results, p.name, UniqueMatches(matchAll(p.regex, text)));
    }
  }

  /** The value one loop iteration leaves under `k`: the hits of `p` when `p` hits under `k`, the old value otherwise. */
  lemma ScanStepGet(results: ScanResult, p: Pattern, text: string, selected: seq<string>, matchAll: Matcher, k: string)
    ensures Get(ScanStep(results, p, text, selected, matchAll), k)
         == if IsHit(p, k, text, selected, matchAll) then Some(UniqueMatches(matchAll(p.regex, text))) else Get(results, k)
  {
  }

  /**
   * The keys of the result are distinct, and a name is a key exactly when
   * some scanned pattern of that name is selected and matches: names that
   * match no pattern, and patterns without hits, leave no key.
   */
  lemma {:induction false} AnalysisKeys(text: string, selected: seq<string>, pats: seq<Pattern>, matchAll: Matcher)
    ensures DistinctKeys(Analysis(text, selected, pats, matchAll))
    ensures forall k :: k in Keys(Analysis(text, selected, pats, matchAll)) <==> FirstHit(pats, k, text, selected, matchAll).Some?
    decreases |pats|
  {
    if pats != [] {
      var n := |pats| - 1;
      AnalysisKeys(text, selected, pats[..n], matchAll);
      ScanStepKeys(Analysis(text, selected, pats[..n], matchAll), pats[n], text, selected, matchAll);
      ScanStepKeepsKeysDistinct(Analysis(text, selected, pats[..n], matchAll), pats[n], text, selected, matchAll);
    }
  }

  /** The keys are distinct, and a name is a key exactly when it is selected and some scanned pattern of that name matches. */
  lemma AnalysisKeysMatch(text: string, selected: seq<string>, pats: seq<Pattern>, matchAll: Matcher)
    ensures DistinctKeys(Analysis(text, selected, pats, matchAll))
    ensures forall k :: k in Keys(Analysis(text, selected, pats, matchAll)) <==> k in selected && HasMatchingPattern(pats, k, text, matchAll)
  {
    AnalysisKeys(text, selected, pats, matchAll);
    forall k ensures FirstHit(pats, k, text, selected, matchAll).Some? <==> k in selected && HasMatchingPattern(pats, k, text, matchAll) {
      var f := FirstHit(pats, k, text, selected, matchAll);
      if f.Some? {
        assert pats[f.value].name == k;
      }
      if k in selected && HasMatchingPattern(pats, k, text, matchAll) {
        var i :| 0 <= i < |pats| && pats[i].name == k && matchAll(pats[i].regex, text) != [];
        assert IsHit(pats[i], k, text, selected, matchAll);
      }
    }
  }

  /** Both names have a first hit in `pats`, and the one of `k1` comes first. */
  ghost predicate FirstHitBefore(pats: seq<Pattern>, k1: string, k2: string, text: string, selected: seq<string>, matchAll: Matcher) {
    && FirstHit(pats, k1, text, selected, matchAll).Some?
    && FirstHit(pats, k2, text, selected, matchAll).Some?
    && FirstHit(pats, k1, text, selected, matchAll).value < FirstHit(pats, k2, text, selected, matchAll).value
  }

  /** Every key stands before every later key in the order of their first hits in `pats`. */
  ghost predicate KeysInHitOrder(keys: seq<string>, pats: seq<Pattern>, text: string, selected: seq<string>, matchAll: Matcher) {
    forall a, b :: 0 <= a < b < |keys| ==> FirstHitBefore(pats, keys[a], keys[b], text, selected, matchAll)
  }

  /** A first hit among the patterns but the last is the first hit among all of them. */
  lemma FirstHitStable(pats: seq<Pattern>, k: string, text: string, selected: seq<string>, matchAll: Matcher)
    requires pats != [] && FirstHit(pats[..|pats| - 1], k, text, selected, matchAll).Some?
    ensures FirstHit(pats, k, text, selected, matchAll) == FirstHit(pats[..|pats| - 1], k, text, selected, matchAll)
  {
  }

  /** One loop iteration keeps the keys in first-hit order. */
  lemma HitOrderStep(keys: seq<string>, pats: seq<Pattern>, text: string, selected: seq<string>, matchAll: Matcher)
    requires pats != []
    requires KeysInHitOrder(keys, pats[..|pats| - 1], text, selected, matchAll)
    requires forall k :: k in keys <==> FirstHit(pats[..|pats| - 1], k, text, selected, matchAll).Some?
    ensures var p := pats[|pats| - 1];
            KeysInHitOrder(if IsHit(p, p.name, text, selected, matchAll) && p.name !in keys then keys + [p.name] else keys,
                           pats, text, selected, matchAll)
  {
    var n := |pats| - 1;
    var p := pats[n];
    forall k | k in keys
      ensures FirstHit(pats, k, text, selected, matchAll) == FirstHit(pats[..n], k, text, selected, matchAll)
    {
      FirstHitStable(pats, k, text, selected, matchAll);
    }
    if IsHit(p, p.name, text, selected, matchAll) && p.name !in keys {
      var next := keys + [p.name];
      assert FirstHit(pats, p.name, text, selected, matchAll) == Some(n);
      forall a, b | 0 <= a < b < |next|
        ensures FirstHitBefore(pats, next[a], next[b], text, selected, matchAll)
      {
        assert next[a] == keys[a] && next[a] in keys;
        if b < |keys| {
          assert next[b] == keys[b] && next[b] in keys;
        }
      }
    } else {
      forall a, b | 0 <= a < b < |keys|
        ensures FirstHitBefore(pats, keys[a], keys[b], text, selected, matchAll)
      {
        assert keys[a] in keys && keys[b] in keys;
      }
    }
  }

  /**
   * Keys are inserted in scan order: a key stands before another exactly
   * when its first hit comes before the other's first hit, whatever the
   * order of the selection. A later pattern of the same name never moves
   * its key.
   */
  lemma {:induction false} AnalysisKeyOrder(text: string, selected: seq<string>, pats: seq<Pattern>, matchAll: Matcher)
    ensures KeysInHitOrder(Keys(Analysis(text, selected, pats, matchAll)), pats, text, selected, matchAll)
    decreases |pats|
  {
    if pats != [] {
      var n := |pats| - 1;
      var before := Analysis(text, selected, pats[..n], matchAll);
      AnalysisKeyOrder(text, selected, pats[..n], matchAll);
      AnalysisKeys(text, selected, pats[..n], matchAll);
      ScanStepKeys(before, pats[n], text, selected, matchAll);
      HitOrderStep(Keys(before), pats, text, selected, matchAll);
    }
  }

  /**
   * The value stored under a name comes from the LAST pattern of that name
   * that hits: a later pattern of the same name replaces the list only when
   * it has matches of its own.
   */
  lemma {:induction false} AnalysisValues(text: string, selected: seq<string>, pats: seq<Pattern>, matchAll: Matcher, k: string)
    ensures Get(Analysis(text, selected, pats, matchAll), k)
         == match LastHit(pats, k, text, selected, matchAll)
            case None => None
            case Some(j) => Some(UniqueMatches(matchAll(pats[j].regex, text)))
    decreases |pats|
  {
    if pats != [] {
      var n := |pats| - 1;
      AnalysisValues(text, selected, pats[..n], matchAll, k);
      ScanStepGet(Analysis(text, selected, pats[..n], matchAll), pats[n], text, selected, matchAll, k);
      if !IsHit(pats[n], k, text, selected, matchAll) {
        var j := LastHit(pats, k, text, selected, matchAll);
        assert j == LastHit(pats[..n], k, text, selected, matchAll);
        if j.Some? {
          assert pats[..n][j.value] == pats[j.value];
        }
      }
    }
  }

  /**
   * Every value is a non-empty list without duplicates that holds exactly
   * the trimmed matches of one selected pattern of its name.
   */
  lemma AnalysisValueShape(text: string, selected: seq<string>, pats: seq<Pattern>, matchAll: Matcher, e: nat)
    requires e < |Analysis(text, selected, pats, matchAll)|
    ensures var entry := Analysis(text, selected, pats, matchAll)[e];
            exists j :: 0 <= j < |pats| && IsHit(pats[j], entry.key, text, selected, matchAll)
                     && entry.value == UniqueMatches(matchAll(pats[j].regex, text))
  {
    var r := Analysis(text, selected, pats, matchAll);
    AnalysisKeys(text, selected, pats, matchAll);
    GetAt(r, e);
    AnalysisValues(text, selected, pats, matchAll, r[e].key);
    var j := LastHit(pats, r[e].key, text, selected, matchAll).value;
    assert r[e].value == UniqueMatches(matchAll(pats[j].regex, text));
  }

  /** Selecting only names that no scanned pattern has gives an empty map, not an error. */
  lemma {:induction false} UnknownSelectionIsEmpty(text: string, selected: seq<string>, pats: seq<Pattern>, matchAll: Matcher)
    requires forall i :: 0 <= i < |pats| ==> pats[i].name !in selected
    ensures Analysis(text, selected, pats, matchAll) == []
    decreases |pats|
  {
    if pats != [] {
      var n := |pats| - 1;
      assert forall i :: 0 <= i < n ==> pats[..n][i] == pats[i];
      UnknownSelectionIsEmpty(text, selected, pats[..n], matchAll);
    }
  }

  /** Scanning `a + b` is scanning `a` and then going on with `b` from what `a` left. */
  lemma {:induction false} ScanFromAppend(results: ScanResult, a: seq<Pattern>, b: seq<Pattern>, text: string, selected: seq<string>, matchAll: Matcher)
    ensures ScanFrom(results, a + b, text, selected, matchAll)
         == ScanFrom(ScanFrom(results, a, text, selected, matchAll), b, text, selected, matchAll)
    decreases |b|
  {
    if b == [] {
      assert a + b == a;
    } else {
      var n := |b| - 1;
      assert (a + b)[..|a + b| - 1] == a + b[..n];
      ScanFromAppend(results, a, b[..n], text, selected, matchAll);
    }
  }

  /**
   * `customPatterns ? [...PATTERNS, ...customPatterns] : PATTERNS` (line 217):
   * without custom patterns only the catalog is scanned; with them, the
   * catalog first and the customs after it.
   */
  function ScannedPatterns(catalog: seq<Pattern>, customPatterns: Option<seq<Pattern>>): (all: seq<Pattern>)
    ensures |all| >= |catalog| && all[..|catalog|] == catalog
    ensures customPatterns.None? ==> all == catalog
    ensures customPatterns.Some? ==> all[|catalog|..] == customPatterns.value
  {
    match customPatterns
    case None => catalog
    case Some(custom) => catalog + custom
  }

  /**
   * `analyzeText(text, selectedPatterns, customPatterns)`. The expression's
   * `lastIndex` is reset before each use (line 223), so what a pattern
   * matches depends on its expression and the text alone: here `matchAll`
   * is a function of exactly those. `catalog` is the module constant
   * `PATTERNS` the function reads, that is `Catalog`; the session passes the
   * same list, which it imports as `BUILT_IN_PATTERNS`.
   */
  method AnalyzeText(catalog: seq<Pattern>, text: string, selectedPatterns: seq<string>, customPatterns: Option<seq<Pattern>>, matchAll: Matcher)
    returns (results: ScanResult)
    ensures results == Analysis(text, selectedPatterns, ScannedPatterns(catalog, customPatterns), matchAll)
    ensures DistinctKeys(results)
    ensures forall k :: k in Keys(results) <==> (k in selectedPatterns && HasMatchingPattern(ScannedPatterns(catalog, customPatterns), k, text, matchAll))
  {
    results := [];
    var allPatterns := ScannedPatterns(catalog, customPatterns);
    for i := 0 to |allPatterns|
      invariant results == ScanFrom([], allPatterns[..i], text, selectedPatterns, matchAll)
    {
      assert allPatterns[..i + 1][..i] == allPatterns[..i];
      var pattern := allPatterns[i];
      if pattern.name !in selectedPatterns {
        continue;
      }
      var matches := matchAll(pattern.regex, text);
      if matches != [] {
        var uniqueMatches := UniqueMatches(matches);
        if |uniqueMatches| > 0 {
          results := Put(results, pattern.name, uniqueMatches);
        }
      }
    }
    assert allPatterns[..|allPatterns|] == allPatterns;
    AnalysisKeysMatch(text, selectedPatterns, allPatterns, matchAll);
  }
}
