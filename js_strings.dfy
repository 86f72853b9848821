/**
 * The JavaScript string operations the scanner and the session use:
 * `trim`, `toLowerCase` and `includes`. `trim` removes exactly the code
 * points ECMAScript calls WhiteSpace or LineTerminator; `toLowerCase` is
 * modelled on ASCII letters only.
 */
module JsStrings {

  /**
   * ECMAScript WhiteSpace (TAB, VT, FF, SP, NBSP, ZWNBSP and the Unicode
   * space separators) and LineTerminator (LF, CR, LS, PS).
   */
  predicate IsWhiteSpace(c: char) {
    || c == '\t' || c == '\n' || c == '\U{000B}' || c == '\U{000C}' || c == '\r' || c == ' '
    || c == '\U{00A0}' || c == '\U{1680}' || ('\U{2000}' <= c <= '\U{200A}')
    || c == '\U{2028}' || c == '\U{2029}' || c == '\U{202F}' || c == '\U{205F}'
    || c == '\U{3000}' || c == '\U{FEFF}'
  }

  /** Drops the leading white space: what is left is a suffix that starts with a visible character. */
  function TrimStart(s: string): (r: string)
    ensures |r| <= |s| && r == s[|s| - |r|..]
    ensures forall i :: 0 <= i < |s| - |r| ==> IsWhiteSpace(s[i])
    ensures r == [] || !IsWhiteSpace(r[0])
  {
    if s != [] && IsWhiteSpace(s[0]) then TrimStart(s[1..]) else s
  }

  /** Drops the trailing white space: what is left is a prefix that ends with a visible character. */
  function TrimEnd(s: string): (r: string)
    ensures |r| <= |s| && r == s[..|r|]
    ensures forall i :: |r| <= i < |s| ==> IsWhiteSpace(s[i])
    ensures r == [] || !IsWhiteSpace(r[|r| - 1])
  {
    if s != [] && IsWhiteSpace(s[|s| - 1]) then TrimEnd(s[..|s| - 1]) else s
  }

  /** A white-space run in front of a visible character (or the end) is exactly what `TrimStart` drops. */
  lemma {:induction false} TrimStartRun(w: string, b: string)
    requires forall i :: 0 <= i < |w| ==> IsWhiteSpace(w[i])
    requires b == [] || !IsWhiteSpace(b[0])
    ensures TrimStart(w + b) == b
    decreases |w|
  {
    if w != [] {
      assert (w + b)[1..] == w[1..] + b;
      TrimStartRun(w[1..], b);
    } else {
      assert w + b == b;
    }
  }

  /** `s.trim()` */
  function Trim(s: string): string {
    TrimEnd(TrimStart(s))
  }

  /** The two cuts of `trim`: where the leading white space ends and where the trailing white space begins. */
  lemma TrimCuts(s: string) returns (a: nat, b: nat)
    ensures a <= b <= |s| && Trim(s) == s[a..b]
    ensures forall i :: 0 <= i < a ==> IsWhiteSpace(s[i])
    ensures forall i :: b <= i < |s| ==> IsWhiteSpace(s[i])
  {
    var t := TrimStart(s);
    var u := TrimEnd(t);
    a := |s| - |t|;
    b := a + |u|;
    assert u == s[a..][..|u|];
    forall i | b <= i < |s| ensures IsWhiteSpace(s[i]) {
      assert s[i] == t[i - a];
    }
  }

  /**
   * `s.trim()` is the slice `s[a..b]` that remains once the white space
   * before `a` and from `b` on is cut, and it neither starts nor ends with
   * white space.
   */
  lemma TrimIsSlice(s: string)
    ensures exists a, b :: 0 <= a <= b <= |s| && Trim(s) == s[a..b]
                           && (forall i :: 0 <= i < a ==> IsWhiteSpace(s[i]))
                           && (forall i :: b <= i < |s| ==> IsWhiteSpace(s[i]))
    ensures Trim(s) == [] || (!IsWhiteSpace(Trim(s)[0]) && !IsWhiteSpace(Trim(s)[|Trim(s)| - 1]))
  {
    var a, b := TrimCuts(s);
    var t := TrimStart(s);
    if Trim(s) != [] {
      assert Trim(s)[0] == t[0];
    }
  }

  /** Trimming twice is trimming once. */
  lemma TrimIdempotent(s: string)
    ensures Trim(Trim(s)) == Trim(s)
  {
    TrimIsSlice(s);
    var t := Trim(s);
    assert TrimStart(t) == t;
  }

  /** ASCII upper-case letters become lower-case; everything else is kept. */
  function LowerChar(c: char): (d: char)
    ensures 'A' <= c <= 'Z' ==> d as int == c as int + 32
    ensures !('A' <= c <= 'Z') ==> d == c
    ensures ('A' <= c <= 'Z') == ('a' <= d <= 'z' && d != c)
    ensures c == '.' <==> d == '.'
  {
    if 'A' <= c <= 'Z' then (c as int + 32) as char else c
  }

  /** `s.toLowerCase()`, on ASCII letters. */
  function ToLower(s: string): (r: string)
    ensures |r| == |s|
    ensures forall i :: 0 <= i < |s| ==> r[i] == LowerChar(s[i])
  {
    if s == [] then [] else [LowerChar(s[0])] + ToLower(s[1..])
  }

  lemma ToLowerIdempotent(s: string)
    ensures ToLower(ToLower(s)) == ToLower(s)
  {
  }

  lemma ToLowerAppend(a: string, b: string)
    ensures ToLower(a + b) == ToLower(a) + ToLower(b)
  {
  }

  /** `s.includes(t)`: `t` occurs in `s` at some position. */
  predicate Includes(s: string, t: string) {
    t <= s || (s != [] && Includes(s[1..], t))
  }

  /** `t` occurs in `s` starting at index `i`. */
  ghost predicate OccursAt(s: string, t: string, i: int) {
    0 <= i <= |s| - |t| && s[i..i + |t|] == t
  }

  /** An occurrence in a non-empty string is a prefix or an occurrence in its tail, one place earlier. */
  lemma OccursAtStep(s: string, t: string, i: int)
    requires s != []
    ensures OccursAt(s, t, i) <==> (i == 0 && t <= s) || (i > 0 && OccursAt(s[1..], t, i - 1))
  {
    if i > 0 && i <= |s| - |t| {
      var shifted, here := s[1..][i - 1..i - 1 + |t|], s[i..i + |t|];
      assert forall j :: 0 <= j < |here| ==> shifted[j] == here[j];
      assert shifted == here;
    }
  }

  /** `includes` holds exactly when `t` occurs in `s` at some index. */
  lemma {:induction false} IncludesAt(s: string, t: string)
    ensures Includes(s, t) <==> exists i :: OccursAt(s, t, i)
  {
    if t <= s {
      assert OccursAt(s, t, 0);
    } else if s != [] {
      IncludesAt(s[1..], t);
      forall i ensures OccursAt(s, t, i) <==> i > 0 && OccursAt(s[1..], t, i - 1) {
        OccursAtStep(s, t, i);
      }
      if Includes(s[1..], t) {
        var i :| OccursAt(s[1..], t, i);
        assert OccursAt(s, t, i + 1);
      }
    }
  }
}
