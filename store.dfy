/**
 * The span store discipline of src/TokenAnnotator.tsx: the collection the
 * add path and the remove path hand to onChange, as functions of the
 * collection the host passed in. Neither path changes its input.
 */
module SpanStore {
  import opened Wrappers
  import opened Spans
  import opened SpanSort

  /** The collection handed to onChange after an add: the caller's value
      with x appended, then sorted by (start, end). */
  function AddSpan<P>(value: seq<Span<P>>, x: Span<P>): (r: seq<Span<P>>)
    ensures |r| == |value| + 1
    ensures Sorted(r)
    ensures multiset(r) == multiset(value) + multiset{x}
    ensures forall k :: Filter(r, k) == Filter(value, k) + Filter([x], k)
  {
    StableSortSorted(value + [x]);
    StableSortMultiset(value + [x]);
    AddFilters(value, x);
    StableSort(value + [x])
  }

  lemma AddFilters<P>(value: seq<Span<P>>, x: Span<P>)
    ensures forall k :: Filter(StableSort(value + [x]), k) == Filter(value, k) + Filter([x], k)
  {
    forall k ensures Filter(StableSort(value + [x]), k) == Filter(value, k) + Filter([x], k) {
      StableSortFilter(value + [x], k);
      FilterAppend(value, [x], k);
    }
  }

  /** The test handleSplitClick applies to each entry: its interval is
      (start, end). */
  predicate Matches<P>(s: Span<P>, start: int, end: int) {
    KeyOf(s) == (start, end)
  }

  /** value.findIndex: the first entry whose interval is (start, end),
      or -1 when there is none. */
  function FindSplit<P>(value: seq<Span<P>>, start: int, end: int): (i: int)
    ensures -1 <= i < |value|
    ensures i == -1 <==> forall j :: 0 <= j < |value| ==> !Matches(value[j], start, end)
    ensures i >= 0 ==> Matches(value[i], start, end)
    ensures forall j :: 0 <= j < i ==> !Matches(value[j], start, end)
    decreases |value|
  {
    if value == [] then -1
    else if Matches(value[0], start, end) then 0
    else
      var i := FindSplit(value[1..], start, end);
      if i < 0 then -1 else i + 1
  }

  /** value with the entry at i left out, every other entry kept in order. */
  function RemoveAt<P>(value: seq<Span<P>>, i: nat): (r: seq<Span<P>>)
    requires i < |value|
    ensures |r| == |value| - 1
    ensures forall j :: 0 <= j < i ==> r[j] == value[j]
    ensures forall j :: i <= j < |r| ==> r[j] == value[j + 1]
  {
    value[..i] + value[i + 1..]
  }

  /** handleSplitClick: the collection handed to onChange, or None when
      onChange is not called because no entry has the interval. When it is
      called, the entry left out is the first one with the interval. */
  function RemoveSplit<P>(value: seq<Span<P>>, start: int, end: int): (r: Option<seq<Span<P>>>)
    ensures r.None? <==> forall j :: 0 <= j < |value| ==> !Matches(value[j], start, end)
    ensures r.Some? ==> var i := FindSplit(value, start, end);
      && 0 <= i
      && Matches(value[i], start, end)
      && r.value == RemoveAt(value, i)
  {
    var i := FindSplit(value, start, end);
    if i >= 0 then Some(RemoveAt(value, i)) else None
  }

  /** Removal takes out the first entry with the interval and keeps the
      others with that interval, in order; no other interval is touched. */
  lemma RemoveSplitFilters<P>(value: seq<Span<P>>, start: int, end: int)
    requires RemoveSplit(value, start, end).Some?
    ensures var r := RemoveSplit(value, start, end).value;
      && |Filter(value, (start, end))| > 0
      && Filter(r, (start, end)) == Filter(value, (start, end))[1..]
      && (forall k :: k != (start, end) ==> Filter(r, k) == Filter(value, k))
      && multiset(r) + multiset{value[FindSplit(value, start, end)]} == multiset(value)
  {
    var i := FindSplit(value, start, end);
    var pre, x, post := value[..i], value[i], value[i + 1..];
    assert value == pre + [x] + post;
    assert RemoveSplit(value, start, end).value == pre + post;
    forall j | 0 <= j < |pre| ensures KeyOf(pre[j]) != (start, end) {
      assert !Matches(value[j], start, end);
    }
    FilterFirst(pre, x, post);
    forall k | k != (start, end) ensures Filter(pre + post, k) == Filter(value, k) {
      FilterSkip(pre, x, post, k);
    }
    MultisetAround(pre, x, post);
  }

  lemma FilterFirst<P>(pre: seq<Span<P>>, x: Span<P>, post: seq<Span<P>>)
    requires forall j :: 0 <= j < |pre| ==> KeyOf(pre[j]) != KeyOf(x)
    ensures Filter(pre + [x] + post, KeyOf(x)) == [x] + Filter(pre + post, KeyOf(x))
  {
    var k := KeyOf(x);
    assert Filter(pre, k) == [] by {
      FilterNone(pre, k);
    }
    assert Filter(pre + [x], k) == [x] by {
      FilterAppend(pre, [x], k);
      FilterSingleton(x, k);
    }
    assert Filter(pre + post, k) == Filter(post, k) by {
      FilterAppend(pre, post, k);
    }
    FilterAppend(pre + [x], post, k);
  }

  /** Removing from a sorted collection leaves it sorted. */
  lemma RemoveKeepsSorted<P>(value: seq<Span<P>>, start: int, end: int)
    requires Sorted(value) && RemoveSplit(value, start, end).Some?
    ensures Sorted(RemoveSplit(value, start, end).value)
  {
    var i := FindSplit(value, start, end);
    var r := RemoveSplit(value, start, end).value;
    assert r == value[..i] + value[i + 1..];
    forall p, q | 0 <= p < q < |r| ensures Compare(r[p], r[q]) <= 0 {
      var p', q' := if p < i then p else p + 1, if q < i then q else q + 1;
      assert r[p] == value[p'] && r[q] == value[q'];
    }
  }

  /** Adding into a sorted collection slots the new entry in after every
      entry that is not after it and before every entry that is; all other
      entries keep their order and payload. */
  lemma AddIntoSorted<P>(value: seq<Span<P>>, x: Span<P>)
    requires Sorted(value)
    ensures var k := InsertPos(value, x);
      && AddSpan(value, x) == value[..k] + [x] + value[k..]
      && (forall i :: 0 <= i < k ==> Compare(value[i], x) <= 0)
      && (forall i :: k <= i < |value| ==> Compare(x, value[i]) < 0)
  {
    var k := InsertPos(value, x);
    assert (value + [x])[..|value|] == value;
    StableSortOfSorted(value);
    InsertAt(value, k, x);
    SortedUpTo(value, k, x);
  }

  lemma SortedUpTo<P>(value: seq<Span<P>>, k: nat, x: Span<P>)
    requires Sorted(value) && k <= |value| && (k > 0 ==> Compare(value[k - 1], x) <= 0)
    ensures forall i :: 0 <= i < k ==> Compare(value[i], x) <= 0
  {
    forall i | 0 <= i < k ensures Compare(value[i], x) <= 0 {
      if i < k - 1 {
        assert Compare(value[i], value[k - 1]) <= 0;
        CompareTransitive(value[i], value[k - 1], x);
      }
    }
  }

  /** The first match in pre + [x] + post is x when pre holds none. */
  lemma FindSplitAt<P>(pre: seq<Span<P>>, x: Span<P>, post: seq<Span<P>>)
    requires forall j :: 0 <= j < |pre| ==> !Matches(pre[j], x.start, x.end)
    ensures FindSplit(pre + [x] + post, x.start, x.end) == |pre|
  {
    var s := pre + [x] + post;
    forall j | 0 <= j < |pre| ensures !Matches(s[j], x.start, x.end) {
      assert s[j] == pre[j];
    }
    assert Matches(s[|pre|], x.start, x.end);
  }

  /** Sorting brings no entry on an interval that the input lacked. */
  lemma SortKeepsNoMatch<P>(value: seq<Span<P>>, start: int, end: int)
    requires forall j :: 0 <= j < |value| ==> !Matches(value[j], start, end)
    ensures forall j :: 0 <= j < |StableSort(value)| ==> !Matches(StableSort(value)[j], start, end)
  {
    var sorted := StableSort(value);
    StableSortMultiset(value);
    forall j | 0 <= j < |sorted| ensures !Matches(sorted[j], start, end) {
      assert sorted[j] in multiset(value);
    }
  }

  /** Adding to value is inserting into value sorted. */
  lemma AddSpanIsInsert<P>(value: seq<Span<P>>, x: Span<P>)
    ensures AddSpan(value, x) == Insert(StableSort(value), x)
  {
    assert (value + [x])[..|value|] == value;
  }

  /** Clicking x's interval after x was inserted into a collection without
      that interval takes x out again. */
  lemma RemoveAfterInsert<P>(sorted: seq<Span<P>>, x: Span<P>)
    requires forall j :: 0 <= j < |sorted| ==> !Matches(sorted[j], x.start, x.end)
    ensures RemoveSplit(Insert(sorted, x), x.start, x.end) == Some(sorted)
  {
    var pre, post := InsertSplit(sorted, x);
    forall j | 0 <= j < |pre| ensures !Matches(pre[j], x.start, x.end) {
      assert pre[j] == sorted[j];
    }
    FindSplitAt(pre, x, post);
    var r := pre + [x] + post;
    assert RemoveAt(r, |pre|) == pre + post by {
      assert r[..|pre|] == pre && r[|pre| + 1..] == post;
    }
  }

  /** Adding x and then clicking x's interval gives back the sorted input,
      provided no entry already had that interval. */
  lemma AddThenRemove<P>(value: seq<Span<P>>, x: Span<P>)
    requires forall j :: 0 <= j < |value| ==> !Matches(value[j], x.start, x.end)
    ensures RemoveSplit(AddSpan(value, x), x.start, x.end) == Some(StableSort(value))
  {
    AddSpanIsInsert(value, x);
    SortKeepsNoMatch(value, x.start, x.end);
    RemoveAfterInsert(StableSort(value), x);
  }

  /** The round trip on a sorted collection gives back exactly the input. */
  lemma AddThenRemoveSorted<P>(value: seq<Span<P>>, x: Span<P>)
    requires Sorted(value)
    requires forall j :: 0 <= j < |value| ==> !Matches(value[j], x.start, x.end)
    ensures RemoveSplit(AddSpan(value, x), x.start, x.end) == Some(value)
  {
    AddThenRemove(value, x);
    StableSortOfSorted(value);
  }

  /** Removal is not idempotent: with two entries on an interval, a second
      click on it removes the second one too. */
  lemma RemoveTwiceRemovesTwo<P>(value: seq<Span<P>>, start: int, end: int)
    requires exists i, j :: 0 <= i < j < |value| && Matches(value[i], start, end) && Matches(value[j], start, end)
    ensures RemoveSplit(value, start, end).Some?
    ensures RemoveSplit(RemoveSplit(value, start, end).value, start, end).Some?
    ensures |RemoveSplit(RemoveSplit(value, start, end).value, start, end).value| == |value| - 2
  {
    var i, j :| 0 <= i < j < |value| && Matches(value[i], start, end) && Matches(value[j], start, end);
    var f := FindSplit(value, start, end);
    var r := RemoveSplit(value, start, end).value;
    assert f <= i;
    assert r[j - 1] == value[j];
  }

  /** Matching looks at start and end only: collections that agree on every
      entry's interval agree on where the first match is. */
  lemma {:induction false} FindSplitIgnoresPayload<P, Q>(v1: seq<Span<P>>, v2: seq<Span<Q>>, start: int, end: int)
    requires |v1| == |v2|
    requires forall j :: 0 <= j < |v1| ==> v1[j].start == v2[j].start && v1[j].end == v2[j].end
    ensures FindSplit(v1, start, end) == FindSplit(v2, start, end)
    decreases |v1|
  {
    if v1 != [] {
      FindSplitIgnoresPayload(v1[1..], v2[1..], start, end);
    }
  }

  /** An edit the component makes on the host's behalf. */
  datatype Edit<P> = AddEdit(span: Span<P>) | RemoveEdit(start: int, end: int)

  /** The collection the host holds after adopting what one edit emits;
      a click that matches nothing emits nothing and changes nothing. */
  function Apply<P>(value: seq<Span<P>>, e: Edit<P>): seq<Span<P>> {
    match e
    case AddEdit(x) => AddSpan(value, x)
    case RemoveEdit(s, t) =>
      match RemoveSplit(value, s, t)
      case Some(r) => r
      case None => value
  }

  function Replay<P>(value: seq<Span<P>>, edits: seq<Edit<P>>): seq<Span<P>>
    decreases |edits|
  {
    if edits == [] then value else Replay(Apply(value, edits[0]), edits[1..])
  }

  /** The collection stays sorted through any run of adds and removes; an
      add sorts even a collection that was not sorted. */
  lemma {:induction false} ReplayKeepsSorted<P>(value: seq<Span<P>>, edits: seq<Edit<P>>)
    requires Sorted(value) || (edits != [] && edits[0].AddEdit?)
    ensures Sorted(Replay(value, edits))
    decreases |edits|
  {
    if edits != [] {
      var next := Apply(value, edits[0]);
      if edits[0].RemoveEdit? && RemoveSplit(value, edits[0].start, edits[0].end).Some? {
        RemoveKeepsSorted(value, edits[0].start, edits[0].end);
      }
      ReplayKeepsSorted(next, edits[1..]);
    }
  }
}
