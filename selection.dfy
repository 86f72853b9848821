/**
 * The value-level helpers of src/App.tsx: toggling a name in a selection,
 * removing a custom pattern by position, building the list of patterns the
 * session offers, the search filter of the results view, the result rows a
 * scan turns into, and the total hit count.
 */
module Selection {
  import opened JsCollections
  import opened JsStrings
  import opened PatternCatalog
  import opened Patterns

  /** `list.includes(name) ? list.filter(n => n !== name) : [...list, name]` (lines 121-127 and 332-338). */
  function Toggled(list: seq<string>, name: string): seq<string> {
    if name in list then Filter(list, n => n != name) else list + [name]
  }

  /** Toggling flips whether `name` is selected and leaves every other name, with its multiplicity, as it was. */
  lemma ToggledMembership(list: seq<string>, name: string)
    ensures name in Toggled(list, name) <==> name !in list
    ensures forall x :: x != name ==> multiset(Toggled(list, name))[x] == multiset(list)[x]
  {
    var r := Toggled(list, name);
    if name in list {
      assert multiset(r)[name] == 0;
    } else {
      assert r[|list|] == name;
    }
  }

  /** A name toggled on and then off again leaves the list as it was. */
  lemma {:induction false} ToggleOnOff(list: seq<string>, name: string)
    requires name !in list
    ensures Toggled(Toggled(list, name), name) == list
  {
    FilterKeepsAll(list, n => n != name);
    assert Filter(list + [name], n => n != name) == Filter(list, n => n != name) by {
      FilterSnocDropped(list, name, n => n != name);
    }
  }

  /** A name toggled off and then on again moves to the end of the list, once. */
  lemma ToggleOffOn(list: seq<string>, name: string)
    requires name in list
    ensures Toggled(Toggled(list, name), name) == Filter(list, n => n != name) + [name]
  {
    ToggledMembership(list, name);
  }

  /** Filtering with a test every element passes changes nothing. */
  lemma {:induction false} FilterKeepsAll<T(!new)>(s: seq<T>, keep: T -> bool)
    requires forall i :: 0 <= i < |s| ==> keep(s[i])
    ensures Filter(s, keep) == s
  {
    if s != [] {
      FilterKeepsAll(s[1..], keep);
    }
  }

  /** An element at the end that fails the test leaves the filtered list as it was without it. */
  lemma {:induction false} FilterSnocDropped<T(!new)>(s: seq<T>, x: T, keep: T -> bool)
    requires !keep(x)
    ensures Filter(s + [x], keep) == Filter(s, keep)
  {
    if s == [] {
      assert [x][1..] == [];
    } else {
      assert (s + [x])[1..] == s[1..] + [x];
      FilterSnocDropped(s[1..], x, keep);
    }
  }

  /** Two tests that agree on every element filter alike. */
  lemma {:induction false} FilterCongruent<T(!new)>(s: seq<T>, f: T -> bool, g: T -> bool)
    requires forall x :: f(x) == g(x)
    ensures Filter(s, f) == Filter(s, g)
  {
    if s != [] {
      FilterCongruent(s[1..], f, g);
    }
  }

  /** `list.filter((_, i) => i !== index)`, counting positions from `from`. */
  function WithoutIndexFrom<T>(list: seq<T>, index: int, from: int): (r: seq<T>)
    ensures from <= index < from + |list| ==> r == list[..index - from] + list[index - from + 1..]
    ensures !(from <= index < from + |list|) ==> r == list
  {
    if list == [] then []
    else
      var rest := WithoutIndexFrom(list[1..], index, from + 1);
      if index == from then rest else [list[0]] + rest
  }

  /**
   * `removeCustomPattern(index)` (lines 117-119): the entry at `index`
   * goes and the others keep their order; an index outside the list
   * removes nothing.
   */
  function RemoveAt<T>(list: seq<T>, index: int): (r: seq<T>)
    ensures 0 <= index < |list| ==> |r| == |list| - 1 && r == list[..index] + list[index + 1..]
    ensures !(0 <= index < |list|) ==> r == list
  {
    WithoutIndexFrom(list, index, 0)
  }

  /** A custom pattern as the settings dialog stores it (lines 47-51). */
  datatype CustomPattern = CustomPattern(name: string, regex: string, description: string)

  /**
   * The pattern a custom entry becomes (lines 284-289): a global expression
   * from the typed text, the description or "Custom pattern" when it is
   * empty, and the identifiers category.
   */
  function ToPattern(c: CustomPattern): (p: Pattern)
    ensures p.name == c.name && p.regex == Regex(UserText(c.regex), true, false)
    ensures p.description == (if c.description == "" then "Custom pattern" else c.description)
    ensures p.description != [] && p.category == Identifiers
  {
    Pattern(c.name, Regex(UserText(c.regex), true, false), if c.description == "" then "Custom pattern" else c.description, Identifiers)
  }

  /**
   * `BUILT_IN_PATTERNS.filter(p => enabledBuiltIn.includes(p.name))` (line
   * 283), with `builtIns` the imported table: exactly the enabled entries,
   * each as often as in the table and in table order, whatever the order of
   * `enabled`.
   */
  function EnabledBuiltIns(builtIns: seq<Pattern>, enabled: seq<string>): (builtIn: seq<Pattern>)
    ensures IsSubsequence(builtIn, builtIns)
    ensures forall p :: multiset(builtIn)[p] == if p.name in enabled then multiset(builtIns)[p] else 0
  {
    Filter(builtIns, (p: Pattern) => p.name in enabled)
  }

  /** `allPatterns` (lines 282-291): the enabled built-ins, then the customs in the order they were added. */
  function AllPatterns(builtIns: seq<Pattern>, enabled: seq<string>, customs: seq<CustomPattern>): (all: seq<Pattern>)
    ensures |all| >= |customs|
    ensures all[..|all| - |customs|] == EnabledBuiltIns(builtIns, enabled)
    ensures forall i :: 0 <= i < |customs| ==> all[|all| - |customs| + i] == ToPattern(customs[i])
  {
    var builtIn := EnabledBuiltIns(builtIns, enabled);
    var custom := MapSeq(customs, ToPattern);
    assert (builtIn + custom)[..|builtIn|] == builtIn;
    builtIn + custom
  }

  /** The selection a session starts from (lines 294-298): every offered name, in the offered order. */
  function InitialSelection(all: seq<Pattern>): (names: seq<string>)
    ensures |names| == |all| && forall i :: 0 <= i < |all| ==> names[i] == all[i].name
  {
    Names(all)
  }

  /** `m.toLowerCase().includes(query.toLowerCase())` */
  predicate MatchesQuery(m: string, query: string) {
    Includes(ToLower(m), ToLower(query))
  }

  /**
   * `filteredMatches(matches)` (lines 422-427): all matches for an empty
   * query, else the matches holding the query in any letter case, in their
   * order.
   */
  function FilteredMatches(matches: seq<string>, query: string): (r: seq<string>)
    ensures query == "" ==> r == matches
    ensures IsSubsequence(r, matches)
    ensures query != "" ==> forall m :: multiset(r)[m] == if MatchesQuery(m, query) then multiset(matches)[m] else 0
  {
    if query == "" then SubsequenceReflexive(matches); matches
    else Filter(matches, m => MatchesQuery(m, query))
  }

  /** Searching again for the same text changes nothing. */
  lemma FilteredMatchesIdempotent(matches: seq<string>, query: string)
    ensures FilteredMatches(FilteredMatches(matches, query), query) == FilteredMatches(matches, query)
  {
    if query != "" {
      var r := FilteredMatches(matches, query);
      assert forall i :: 0 <= i < |r| ==> MatchesQuery(r[i], query) by {
        forall i | 0 <= i < |r| ensures MatchesQuery(r[i], query) {
          assert multiset(r)[r[i]] > 0;
        }
      }
      FilterKeepsAll(r, m => MatchesQuery(m, query));
    }
  }

  /** A case-insensitive search: upper and lower case in the query find the same matches. */
  lemma FilteredMatchesIgnoreQueryCase(matches: seq<string>, query: string)
    ensures FilteredMatches(matches, ToLower(query)) == FilteredMatches(matches, query)
  {
    ToLowerIdempotent(query);
    assert (ToLower(query) == "") == (query == "");
    FilterCongruent(matches, m => MatchesQuery(m, ToLower(query)), m => MatchesQuery(m, query));
  }

  /** One tab of the results view: a pattern name and its hits (lines 42-45). */
  datatype ResultData = ResultData(pattern: string, matches: seq<string>)

  /** The rows of a scan result, one per key in the map's order (lines 349-352). */
  function ResultRows(m: ScanResult): (rows: seq<ResultData>)
    ensures |rows| == |m|
    ensures forall i :: 0 <= i < |m| ==> rows[i] == ResultData(m[i].key, m[i].value)
  {
    MapSeq(m, (e: Entry<string, seq<string>>) => ResultData(e.key, e.value))
  }

  /** `results.find(r => r.pattern === tab)`: the first row of that name. */
  function FindResult(results: seq<ResultData>, tab: string): (r: Option<ResultData>)
    ensures r.None? <==> forall i :: 0 <= i < |results| ==> results[i].pattern != tab
    ensures r.Some? ==> exists i :: 0 <= i < |results| && results[i] == r.value && r.value.pattern == tab
                                    && forall j :: 0 <= j < i ==> results[j].pattern != tab
  {
    if results == [] then None
    else if results[0].pattern == tab then Some(results[0])
    else
      var r := FindResult(results[1..], tab);
      assert forall i :: 0 <= i < |results| - 1 ==> results[1..][i] == results[i + 1];
      if r.Some? then
        ghost var i :| 0 <= i < |results| - 1 && results[1..][i] == r.value && r.value.pattern == tab
                      && forall j :: 0 <= j < i ==> results[1..][j].pattern != tab;
        assert results[i + 1] == r.value;
        r
      else r
  }

  /** `results.reduce((acc, r) => acc + r.matches.length, 0)` (line 429). */
  function TotalResults(results: seq<ResultData>): nat {
    if results == [] then 0 else |results[0].matches| + TotalResults(results[1..])
  }

  /** All hits of all rows, row after row. */
  function AllMatches(results: seq<ResultData>): seq<string> {
    if results == [] then [] else results[0].matches + AllMatches(results[1..])
  }

  /** The total is the number of hits listed over all tabs, and it adds up over a split of the rows. */
  lemma {:induction false} TotalResultsCounts(results: seq<ResultData>, k: nat)
    requires k <= |results|
    ensures TotalResults(results) == |AllMatches(results)|
    ensures TotalResults(results) == TotalResults(results[..k]) + TotalResults(results[k..])
  {
    if results != [] {
      TotalResultsCounts(results[1..], if k == 0 then 0 else k - 1);
      if k > 0 {
        assert results[..k][1..] == results[1..][..k - 1];
        assert results[k..] == results[1..][k - 1..];
      } else {
        assert results[k..] == results;
      }
    }
  }
}
