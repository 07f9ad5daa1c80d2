/**
 * Spans: an annotation over a half-open, token-aligned interval
 * [start, end) with an opaque payload, and the comparator the add path
 * hands to value.sort (src/TokenAnnotator.tsx).
 */
module Spans {

  /** An annotation over the tokens start .. end-1. Only start and end are
      ever compared; the payload (tokens, tag, ...) is carried along. */
  datatype Span<P> = Span(start: int, end: int, payload: P)

  /** The part of a span that the comparator and the removal look at. */
  type Key = (int, int)

  function KeyOf<P>(s: Span<P>): Key {
    (s.start, s.end)
  }

  /** The comparator passed to value.sort: by start, then by end. */
  function Compare<P>(a: Span<P>, b: Span<P>): (r: int)
    ensures r == -1 || r == 0 || r == 1
    ensures r == 0 <==> a.start == b.start && a.end == b.end
    ensures r < 0 <==> a.start < b.start || (a.start == b.start && a.end < b.end)
  {
    if a.start < b.start then -1
    else if a.start > b.start then 1
    else if a.end < b.end then -1
    else if a.end > b.end then 1
    else 0
  }

  /** Swapping the arguments flips the sign. */
  lemma CompareAntisymmetric<P>(a: Span<P>, b: Span<P>)
    ensures Compare(a, b) == -Compare(b, a)
  {
  }

  /** "Not after" is transitive, and so is "strictly before". */
  lemma CompareTransitive<P>(a: Span<P>, b: Span<P>, c: Span<P>)
    requires Compare(a, b) <= 0 && Compare(b, c) <= 0
    ensures Compare(a, c) <= 0
    ensures Compare(a, b) < 0 || Compare(b, c) < 0 ==> Compare(a, c) < 0
  {
  }

  /** The payload never takes part in the comparison. */
  lemma CompareIgnoresPayload<P>(a: Span<P>, a': Span<P>, b: Span<P>, b': Span<P>)
    requires KeyOf(a) == KeyOf(a') && KeyOf(b) == KeyOf(b')
    ensures Compare(a, b) == Compare(a', b')
  {
  }

  /** Ascending by (start, end), as the comparator orders spans. */
  ghost predicate Sorted<P>(s: seq<Span<P>>) {
    forall i, j :: 0 <= i < j < |s| ==> Compare(s[i], s[j]) <= 0
  }

  /** The entries of s whose interval is k, in the order s holds them. */
  function Filter<P>(s: seq<Span<P>>, k: Key): (r: seq<Span<P>>)
    ensures |r| <= |s|
    ensures forall i :: 0 <= i < |r| ==> KeyOf(r[i]) == k
  {
    if s == [] then []
    else Filter(s[..|s| - 1], k) + (if KeyOf(s[|s| - 1]) == k then [s[|s| - 1]] else [])
  }

  lemma {:induction false} FilterAppend<P>(s: seq<Span<P>>, t: seq<Span<P>>, k: Key)
    ensures Filter(s + t, k) == Filter(s, k) + Filter(t, k)
    decreases |t|
  {
    if t == [] {
      assert s + t == s;
    } else {
      var t' := t[..|t| - 1];
      assert (s + t)[..|s + t| - 1] == s + t';
      FilterAppend(s, t', k);
    }
  }

  lemma FilterSingleton<P>(x: Span<P>, k: Key)
    ensures Filter([x], k) == if KeyOf(x) == k then [x] else []
  {
    assert [x][..0] == [];
  }

  lemma {:induction false} FilterMember<P>(s: seq<Span<P>>, k: Key, x: Span<P>)
    requires x in Filter(s, k)
    ensures x in s
    decreases |s|
  {
    if s[|s| - 1] != x {
      FilterMember(s[..|s| - 1], k, x);
    }
  }

  lemma {:induction false} FilterNone<P>(s: seq<Span<P>>, k: Key)
    requires forall i :: 0 <= i < |s| ==> KeyOf(s[i]) != k
    ensures Filter(s, k) == []
    decreases |s|
  {
    if s != [] {
      FilterNone(s[..|s| - 1], k);
    }
  }
}
