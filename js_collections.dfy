/**
 * The parts of the JavaScript runtime's collections that the scanner relies
 * on, as values: `Array.prototype.filter`, the order-preserving uniqueness of
 * `[...new Set(xs)]`, and the insertion-ordered `Map` that `analyzeText`
 * returns.
 */
module JsCollections {

  datatype Option<T> = None | Some(value: T)

  datatype Result<T, E> = Ok(value: T) | Err(error: E)

  /** `a` can be obtained from `b` by deleting elements (order is kept). */
  ghost predicate IsSubsequence<T>(a: seq<T>, b: seq<T>)
    decreases |b|
  {
    a == [] || (b != [] && ((a[0] == b[0] && IsSubsequence(a[1..], b[1..])) || IsSubsequence(a, b[1..])))
  }

  lemma {:induction false} SubsequenceReflexive<T>(s: seq<T>)
    ensures IsSubsequence(s, s)
  {
    if s != [] {
      SubsequenceReflexive(s[1..]);
    }
  }

  ghost predicate NoDuplicates<T>(s: seq<T>) {
    forall i, j :: 0 <= i < j < |s| ==> s[i] != s[j]
  }

  /** `s.filter(keep)`: the elements that pass, each as often as in `s`, in their original order. */
  function Filter<T(!new)>(s: seq<T>, keep: T -> bool): (r: seq<T>)
    ensures IsSubsequence(r, s)
    ensures forall x :: multiset(r)[x] == if keep(x) then multiset(s)[x] else 0
  {
    if s == [] then []
    else
      assert s == [s[0]] + s[1..];
      if keep(s[0]) then [s[0]] + Filter(s[1..], keep) else Filter(s[1..], keep)
  }

  /** `s.map(f)` */
  function MapSeq<T, U>(s: seq<T>, f: T -> U): (r: seq<U>)
    ensures |r| == |s|
    ensures forall i :: 0 <= i < |s| ==> r[i] == f(s[i])
  {
    if s == [] then [] else [f(s[0])] + MapSeq(s[1..], f)
  }

  /** Position of the first occurrence of `x` in `s`. */
  function FirstIndex<T(==)>(s: seq<T>, x: T): (i: nat)
    requires x in s
    ensures i < |s| && s[i] == x && x !in s[..i]
  {
    if s[0] == x then 0 else 1 + FirstIndex(s[1..], x)
  }

  /**
   * `[...new Set(s)]`: a `Set` keeps insertion order and ignores an element it
   * already holds, so spreading it lists every distinct element once.
   */
  function Dedup<T(==,!new)>(s: seq<T>): (r: seq<T>)
    ensures NoDuplicates(r)
    ensures forall x :: x in r <==> x in s
  {
    if s == [] then []
    else
      var d := Dedup(s[..|s| - 1]);
      assert s == s[..|s| - 1] + [s[|s| - 1]];
      if s[|s| - 1] in d then d else d + [s[|s| - 1]]
  }

  /** A prefix that already holds `y` places it where the whole sequence does. */
  lemma {:induction false} FirstIndexInPrefix<T>(s: seq<T>, n: nat, y: T)
    requires n <= |s| && y in s[..n]
    ensures FirstIndex(s, y) == FirstIndex(s[..n], y)
  {
    if s[0] != y {
      assert s[..n] == [s[0]] + s[1..][..n - 1];
      FirstIndexInPrefix(s[1..], n - 1, y);
    }
  }

  /** An element met for the first time at the end has its first occurrence there. */
  lemma {:induction false} FirstIndexOfNew<T>(s: seq<T>)
    requires s != [] && s[|s| - 1] !in s[..|s| - 1]
    ensures FirstIndex(s, s[|s| - 1]) == |s| - 1
    decreases |s|
  {
    if |s| > 1 {
      var t := s[1..];
      assert s[0] == s[..|s| - 1][0];
      assert t[..|t| - 1] == s[..|s| - 1][1..];
      assert t[|t| - 1] == s[|s| - 1];
      FirstIndexOfNew(t);
    }
  }

  /** An element the prefix lists keeps its position when one more element is appended. */
  lemma DedupPrefixEntry<T(!new)>(s: seq<T>, i: nat)
    requires s != [] && i < |Dedup(s[..|s| - 1])|
    ensures Dedup(s)[i] == Dedup(s[..|s| - 1])[i] && Dedup(s)[i] in s[..|s| - 1]
  {
    var d := Dedup(s[..|s| - 1]);
    assert Dedup(s) == if s[|s| - 1] in d then d else d + [s[|s| - 1]];
    assert d[i] in d;
  }

  /** The order of two elements the prefix already lists carries over to the whole sequence. */
  lemma {:induction false} DedupOrderInPrefix<T(!new)>(s: seq<T>, i: nat, j: nat)
    requires s != [] && i < j < |Dedup(s[..|s| - 1])|
    ensures FirstIndex(s, Dedup(s)[i]) < FirstIndex(s, Dedup(s)[j])
    decreases |s|, 0
  {
    var p := s[..|s| - 1];
    var d := Dedup(p);
    DedupPrefixEntry(s, i);
    DedupPrefixEntry(s, j);
    DedupFirstOccurrenceOrder(p, i, j);
    FirstIndexInPrefix(s, |s| - 1, d[i]);
    FirstIndexInPrefix(s, |s| - 1, d[j]);
  }

  /** A new last element comes after every element the prefix lists. */
  lemma DedupOrderLast<T(!new)>(s: seq<T>, i: nat)
    requires s != [] && s[|s| - 1] !in Dedup(s[..|s| - 1]) && i < |Dedup(s[..|s| - 1])|
    ensures FirstIndex(s, Dedup(s)[i]) < FirstIndex(s, Dedup(s)[|Dedup(s[..|s| - 1])|])
  {
    var p := s[..|s| - 1];
    var d := Dedup(p);
    var r := Dedup(s);
    assert r == d + [s[|s| - 1]];
    assert r[i] == d[i] && d[i] in p;
    FirstIndexInPrefix(s, |s| - 1, d[i]);
    assert s[|s| - 1] !in p;
    FirstIndexOfNew(s);
  }

  /** Dedup lists the distinct elements in the order of their first occurrence. */
  lemma {:induction false} DedupFirstOccurrenceOrder<T(!new)>(s: seq<T>, i: nat, j: nat)
    requires i < j < |Dedup(s)|
    ensures FirstIndex(s, Dedup(s)[i]) < FirstIndex(s, Dedup(s)[j])
    decreases |s|, 1
  {
    var d := Dedup(s[..|s| - 1]);
    if j < |d| {
      DedupOrderInPrefix(s, i, j);
    } else {
      DedupOrderLast(s, i);
    }
  }

  /** A value of Dedup sits at the first occurrence of each element and at no other place. */
  lemma DedupFirstOccurrences<T(!new)>(s: seq<T>)
    ensures forall i, j :: 0 <= i < j < |Dedup(s)| ==> FirstIndex(s, Dedup(s)[i]) < FirstIndex(s, Dedup(s)[j])
  {
    forall i, j | 0 <= i < j < |Dedup(s)|
      ensures FirstIndex(s, Dedup(s)[i]) < FirstIndex(s, Dedup(s)[j])
    {
      DedupFirstOccurrenceOrder(s, i, j);
    }
  }

  /**
   * Regrouping a concatenation: the step that `Put`, the CSV loops and
   * their read-back lemmas, and the extension and white-space lemmas take
   * when they move a part from one side of a join to the other.
   */
  lemma AppendAssoc<T>(a: seq<T>, b: seq<T>, c: seq<T>)
    ensures (a + b) + c == a + (b + c)
  {
  }

  /** An entry of a JS `Map`: `analyzeText` maps a pattern name to its hits. */
  datatype Entry<K, V> = Entry(key: K, value: V)

  /** A JS `Map`: entries in insertion order, each key at most once. */
  type OrderedMap<K, V> = seq<Entry<K, V>>

  /** `[...m.keys()]` */
  function Keys<K, V>(m: OrderedMap<K, V>): (ks: seq<K>)
    ensures |ks| == |m|
    ensures forall i :: 0 <= i < |m| ==> ks[i] == m[i].key
  {
    if m == [] then [] else [m[0].key] + Keys(m[1..])
  }

  ghost predicate DistinctKeys<K, V>(m: OrderedMap<K, V>) {
    NoDuplicates(Keys(m))
  }

  /** `m.get(k)`, with None for `undefined`. */
  function Get<K(==), V>(m: OrderedMap<K, V>, k: K): (r: Option<V>)
    ensures r.Some? <==> k in Keys(m)
  {
    if m == [] then None
    else if m[0].key == k then Some(m[0].value)
    else
      Get(m[1..], k)
  }

  /**
   * `m.set(k, v)`: a key already present keeps its place and gets the new
   * value; a new key goes at the end.
   */
  function Put<K(==,!new), V>(m: OrderedMap<K, V>, k: K, v: V): (r: OrderedMap<K, V>)
    ensures Keys(r) == if k in Keys(m) then Keys(m) else Keys(m) + [k]
    ensures Get(r, k) == Some(v)
    ensures forall k' :: k' != k ==> Get(r, k') == Get(m, k')
  {
    if m == [] then [Entry(k, v)]
    else if m[0].key == k then
      var r := [Entry(k, v)] + m[1..];
      assert r[1..] == m[1..];
      r
    else
      var t := Put(m[1..], k, v);
      var r := [m[0]] + t;
      assert r[1..] == t;
      assert Keys(r) == [m[0].key] + Keys(t);
      assert Keys(m) == [m[0].key] + Keys(m[1..]);
      AppendAssoc([m[0].key], Keys(m[1..]), [k]);
      r
  }

  /** With distinct keys, the entry at position `e` is what `get` finds for its key. */
  lemma {:induction false} GetAt<K, V>(m: OrderedMap<K, V>, e: nat)
    requires DistinctKeys(m) && e < |m|
    ensures Get(m, m[e].key) == Some(m[e].value)
  {
    if e > 0 {
      assert Keys(m)[0] != Keys(m)[e];
      assert Keys(m[1..]) == Keys(m)[1..];
      GetAt(m[1..], e - 1);
    }
  }

  /** `m.set` never gives a key a second entry. */
  lemma PutKeepsKeysDistinct<K(!new), V>(m: OrderedMap<K, V>, k: K, v: V)
    requires DistinctKeys(m)
    ensures DistinctKeys(Put(m, k, v))
  {
  }
}
